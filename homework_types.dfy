/** The untyped homework copy of the validation rules and of `HobbyService`
    (src/types-homework.ts). Its guards test membership in two constant
    lists and accept any value; the lemmas below show that it accepts
    exactly what the typed copy in `Types` accepts. */
module HomeworkTypes {
  import opened Wrappers
  import opened JsText
  import opened Hobbies
  import opened Repository
  import Types

  /** `DIFFICULTY_LEVELS`. */
  const DifficultyLevels: seq<string> := ["beginner", "intermediate", "advanced"]

  /** `HOBBY_CATEGORIES`. */
  const HobbyCategories: seq<string> := ["sports", "arts", "technology", "outdoor", "indoor", "creative"]

  /** The two lists hold exactly the three levels and the six categories,
      each once. */
  lemma ConstantListsExact()
    ensures |DifficultyLevels| == 3 && |HobbyCategories| == 6
    ensures (set s | s in DifficultyLevels) == {"beginner", "intermediate", "advanced"}
    ensures (set s | s in HobbyCategories) == {"sports", "arts", "technology", "outdoor", "indoor", "creative"}
    ensures forall i, j :: 0 <= i < j < |DifficultyLevels| ==> DifficultyLevels[i] != DifficultyLevels[j]
    ensures forall i, j :: 0 <= i < j < |HobbyCategories| ==> HobbyCategories[i] != HobbyCategories[j]
  {
  }

  /** `isValidHobbyDifficulty(difficulty: any)`: `DIFFICULTY_LEVELS.includes`,
      which no `undefined` or `null` passes. */
  predicate IsValidHobbyDifficulty(difficulty: Field<string>)
  {
    difficulty.Present? && difficulty.value in DifficultyLevels
  }

  /** `isValidHobbyCategory(category: any)`: `HOBBY_CATEGORIES.includes`. */
  predicate IsValidHobbyCategory(category: Field<string>)
  {
    category.Present? && category.value in HobbyCategories
  }

  /** The homework difficulty guard accepts exactly what the typed guard
      accepts, on strings and on missing or `null` values alike. */
  lemma DifficultyGuardsAgree(difficulty: Field<string>)
    ensures IsValidHobbyDifficulty(difficulty) <==> Types.DifficultyOk(difficulty)
    ensures difficulty.Present? ==>
      (IsValidHobbyDifficulty(difficulty) <==> Types.IsValidHobbyDifficulty(difficulty.value))
  {
  }

  /** The homework category guard accepts exactly what the typed guard
      accepts. */
  lemma CategoryGuardsAgree(category: Field<string>)
    ensures IsValidHobbyCategory(category) <==> Types.CategoryOk(category)
    ensures category.Present? ==>
      (IsValidHobbyCategory(category) <==> Types.IsValidHobbyCategory(category.value))
  {
  }

  /** The homework service object, holding the repository it was given. */
  class HobbyService {
    const repository: HobbyRepository

    constructor (repository: HobbyRepository)
      ensures this.repository == repository
    {
      this.repository := repository;
    }

    /** `validateHobby` over the constant lists: it produces the same ordered
        error list as the typed copy for every input. */
    method ValidateHobby(input: CreateHobbyInput) returns (errors: seq<string>)
      ensures errors == Types.CreateErrors(input)
    {
      errors := [];
      if !TruthyText(input.name) || |Trim(input.name.value)| == 0 {
        errors := errors + [NameRequired];
      }
      if !IsValidHobbyDifficulty(input.difficulty) {
        errors := errors + [InvalidDifficulty];
      }
      if !IsValidHobbyCategory(input.category) {
        errors := errors + [InvalidCategory];
      }
    }

    /** `createHobby`: identical envelopes to the typed copy, whose
        `Types.CreateHobbyResponse` it shares. Errors are joined by ", "
        without a repository call; a thrown repository call gives "Failed
        to create hobby". */
    method CreateHobby(input: CreateHobbyInput) returns (response: ApiResponse)
      requires repository.Valid()
      modifies repository
      ensures repository.Valid()
      ensures |Types.CreateErrors(input)| > 0 ==>
        && response == Failure(Join(Types.CreateErrors(input), ErrorSeparator))
        && unchanged(repository)
      ensures |Types.CreateErrors(input)| == 0 && NameTaken(old(repository.rows), input.name.value) ==>
        && response == Failure(FailedToCreate)
        && unchanged(repository)
      ensures |Types.CreateErrors(input)| == 0 && !NameTaken(old(repository.rows), input.name.value) ==>
        var h := NewHobby(input, old(repository.nextId), old(repository.clock));
        && response == Success(OneHobby(h), CreatedMessage)
        && repository.rows == old(repository.rows) + [h]
    {
      var errors := ValidateHobby(input);
      if |errors| > 0 {
        response := Failure(Join(errors, ErrorSeparator));
        return;
      }
      var created := repository.Create(input);
      response := Types.CreateHobbyResponse(input, created);
    }
  }
}
