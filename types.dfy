/** The typed reference copy of the validation rules and of `HobbyService`
    (src/answers/types.ts). */
module Types {
  import opened Wrappers
  import opened JsText
  import opened Hobbies
  import opened Repository

  // ---------------------------------------------------------------------
  // Type guards

  /** `isValidHobbyDifficulty`: membership in the difficulty union. */
  predicate IsValidHobbyDifficulty(difficulty: string)
  {
    difficulty in ["beginner", "intermediate", "advanced"]
  }

  /** `isValidHobbyCategory`: membership in the category union. */
  predicate IsValidHobbyCategory(category: string)
  {
    category in ["sports", "arts", "technology", "outdoor", "indoor", "creative"]
  }

  /** The difficulty guard accepts the three levels and no other string. */
  lemma DifficultyGuardExact(s: string)
    ensures IsValidHobbyDifficulty(s) <==> s == "beginner" || s == "intermediate" || s == "advanced"
  {
  }

  /** The category guard accepts the six categories and no other string. */
  lemma CategoryGuardExact(s: string)
    ensures IsValidHobbyCategory(s) <==>
      s == "sports" || s == "arts" || s == "technology" || s == "outdoor" || s == "indoor" || s == "creative"
  {
  }

  /** Matching is exact: case matters, and the empty string is no value. */
  lemma GuardsRejectNearMisses()
    ensures !IsValidHobbyDifficulty("Beginner") && !IsValidHobbyDifficulty("") && !IsValidHobbyDifficulty("expert")
    ensures !IsValidHobbyCategory("Sports") && !IsValidHobbyCategory("") && !IsValidHobbyCategory("music")
  {
  }

  // ---------------------------------------------------------------------
  // validateHobby

  /** `!input.name || input.name.trim().length === 0`. */
  predicate NameMissing(name: Field<string>)
  {
    !TruthyText(name) || |Trim(name.value)| == 0
  }

  /** A difficulty field that passes the guard (`undefined` and `null` do not). */
  predicate DifficultyOk(difficulty: Field<string>)
  {
    difficulty.Present? && IsValidHobbyDifficulty(difficulty.value)
  }

  /** A category field that passes the guard (`undefined` and `null` do not). */
  predicate CategoryOk(category: Field<string>)
  {
    category.Present? && IsValidHobbyCategory(category.value)
  }

  /** Every validation message, in the order the rules are checked. */
  const AllValidationErrors: seq<string> := [NameRequired, InvalidDifficulty, InvalidCategory]

  /** The errors a create body collects: one message per violated rule, all
      of them, in rule order. */
  function CreateErrors(input: CreateHobbyInput): (errors: seq<string>)
    ensures |errors| <= 3
    ensures |errors| == 0 ==> input.name.Present? && input.difficulty.Present? && input.category.Present?
  {
    (if NameMissing(input.name) then [NameRequired] else [])
    + (if !DifficultyOk(input.difficulty) then [InvalidDifficulty] else [])
    + (if !CategoryOk(input.category) then [InvalidCategory] else [])
  }

  /** "Name is required" is reported exactly when the name is missing, `null`
      or made only of white space. */
  lemma NameErrorIff(input: CreateHobbyInput)
    ensures NameRequired in CreateErrors(input) <==> !input.name.Present? || Blank(input.name.value)
  {
    if input.name.Present? {
      TrimEmptyIffBlank(input.name.value);
    }
  }

  /** The difficulty message is reported exactly when the difficulty fails the
      guard, and likewise for the category. */
  lemma EnumErrorsIff(input: CreateHobbyInput)
    ensures InvalidDifficulty in CreateErrors(input) <==> !DifficultyOk(input.difficulty)
    ensures InvalidCategory in CreateErrors(input) <==> !CategoryOk(input.category)
  {
  }

  /** Position of a validation message in rule order. */
  function Rank(message: string): nat
  {
    if message == NameRequired then 0 else if message == InvalidDifficulty then 1 else 2
  }

  /** The collected errors are drawn from the three messages, each at most
      once, in rule order: a subsequence of `AllValidationErrors`. */
  lemma ErrorsInRuleOrder(input: CreateHobbyInput)
    ensures forall e :: e in CreateErrors(input) ==> e in AllValidationErrors
    ensures forall i, j :: 0 <= i < j < |CreateErrors(input)| ==>
      Rank(CreateErrors(input)[i]) < Rank(CreateErrors(input)[j])
  {
  }

  /** No error at all exactly when the name has a non-white-space character
      and both guards pass. */
  lemma NoErrorsIff(input: CreateHobbyInput)
    ensures CreateErrors(input) == [] <==>
      && input.name.Present? && !Blank(input.name.value)
      && DifficultyOk(input.difficulty) && CategoryOk(input.category)
  {
    if input.name.Present? {
      TrimEmptyIffBlank(input.name.value);
    }
  }

  /** An empty name with the difficulty "expert" reports both problems in one
      message. */
  lemma EmptyNameAndUnknownDifficulty()
    ensures var input := HobbyInput(Present(""), Undefined, Present("expert"), Present("sports"), Undefined);
      && CreateErrors(input) == [NameRequired, InvalidDifficulty]
      && Join(CreateErrors(input), ErrorSeparator) == NameRequired + ", " + InvalidDifficulty
  {
    var input := HobbyInput(Present(""), Undefined, Present("expert"), Present("sports"), Undefined);
    assert NameMissing(input.name);
    assert !DifficultyOk(input.difficulty) by { GuardsRejectNearMisses(); }
    assert CategoryOk(input.category);
    var xs := [NameRequired, InvalidDifficulty];
    assert CreateErrors(input) == xs;
    assert xs[1..] == [InvalidDifficulty];
    assert Join(xs, ErrorSeparator) == NameRequired + ErrorSeparator + InvalidDifficulty;
  }

  // ---------------------------------------------------------------------
  // HobbyService

  /** `createHobby` over any repository: `created` is what the repository's
      `create` answered, a record or an exception of any kind. Validation
      errors are reported without consulting it; otherwise a record is a
      success and every exception, whatever its code or text, becomes the
      fixed "Failed to create hobby". */
  method CreateHobbyResponse(input: CreateHobbyInput, created: Outcome<Hobby>) returns (response: ApiResponse)
    ensures |CreateErrors(input)| > 0 ==> response == Failure(Join(CreateErrors(input), ErrorSeparator))
    ensures |CreateErrors(input)| == 0 && created.Returned? ==>
      response == Success(OneHobby(created.value), CreatedMessage)
    ensures |CreateErrors(input)| == 0 && created.Threw? ==> response == Failure(FailedToCreate)
    ensures response.success <==> |CreateErrors(input)| == 0 && created.Returned?
  {
    var errors := CreateErrors(input);
    if |errors| > 0 {
      response := Failure(Join(errors, ErrorSeparator));
      return;
    }
    match created
    case Returned(h) =>
      response := Success(OneHobby(h), CreatedMessage);
    case Threw(_) =>
      response := Failure(FailedToCreate);
  }

  /** The service object: it holds the repository it creates hobbies in. */
  class HobbyService {
    const repository: HobbyRepository

    constructor (repository: HobbyRepository)
      ensures this.repository == repository
    {
      this.repository := repository;
    }

    /** `validateHobby`: checks the three rules one after the other and
        pushes a message for each one violated. */
    method ValidateHobby(input: CreateHobbyInput) returns (errors: seq<string>)
      ensures errors == CreateErrors(input)
    {
      errors := [];
      if !TruthyText(input.name) || |Trim(input.name.value)| == 0 {
        errors := errors + [NameRequired];
      }
      if !(input.difficulty.Present? && IsValidHobbyDifficulty(input.difficulty.value)) {
        errors := errors + [InvalidDifficulty];
      }
      if !(input.category.Present? && IsValidHobbyCategory(input.category.value)) {
        errors := errors + [InvalidCategory];
      }
    }

    /** `createHobby`: validation errors come back joined by ", " and the
        repository is not touched; otherwise the repository creates the
        hobby, and a failure there (a taken name) becomes the fixed
        "Failed to create hobby". */
    method CreateHobby(input: CreateHobbyInput) returns (response: ApiResponse)
      requires repository.Valid()
      modifies repository
      ensures repository.Valid()
      ensures |CreateErrors(input)| > 0 ==>
        && response == Failure(Join(CreateErrors(input), ErrorSeparator))
        && unchanged(repository)
      ensures |CreateErrors(input)| == 0 && NameTaken(old(repository.rows), input.name.value) ==>
        && response == Failure(FailedToCreate)
        && unchanged(repository)
      ensures |CreateErrors(input)| == 0 && !NameTaken(old(repository.rows), input.name.value) ==>
        var h := NewHobby(input, old(repository.nextId), old(repository.clock));
        && response == Success(OneHobby(h), CreatedMessage)
        && repository.rows == old(repository.rows) + [h]
    {
      var errors := ValidateHobby(input);
      if |errors| > 0 {
        response := Failure(Join(errors, ErrorSeparator));
        return;
      }
      var created := repository.Create(input);
      response := CreateHobbyResponse(input, created);
    }
  }
}
