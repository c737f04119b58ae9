/** The typed reference server (src/answers/server.ts): the five route
    handlers reduced to the status code they set and the envelope they
    return, and the server object that wires them to the in-memory
    repository. Each route is first stated over what its repository call
    answered (a value, or an exception with its code), so that the storage
    failures a real database can raise are covered as well. */
module ReferenceServer {
  import opened Wrappers
  import opened JsText
  import opened Hobbies
  import opened Repository
  import opened Types

  // ---------------------------------------------------------------------
  // Arithmetic and messages of the list route

  /** `Math.ceil(total / limit)` for a positive page size: the least page
      count whose pages hold every matching row. */
  function CeilDiv(total: nat, limit: int): (pages: nat)
    requires limit >= 1
    ensures pages * limit >= total
    ensures pages == 0 || (pages - 1) * limit < total
  {
    if total % limit == 0 then total / limit else total / limit + 1
  }

  /** `a <= b` scales by a non-negative factor. */
  lemma MulMonotone(a: int, b: int, l: nat)
    requires a <= b
    ensures a * l <= b * l
  {
    assert b * l - a * l == (b - a) * l;
  }

  /** A page of the list is empty exactly when its number is past
      `totalPages`: every page from 1 to `totalPages` holds at least one row. */
  lemma PageEmptyIffBeyondLast(rows: seq<Hobby>, q: HobbyQueryParams)
    requires QuerySchemaOk(q)
    ensures FindAllResult(rows, q) == [] <==> PageNumber(q) > CeilDiv(|Filter(rows, q)|, PageSize(q))
  {
    var n := |Filter(rows, q)|;
    var l := PageSize(q);
    var c := CeilDiv(n, l);
    var p := PageNumber(q);
    assert SkipOf(q) == (p - 1) * l;
    assert |FindAllResult(rows, q)| == if SkipOf(q) >= n then 0 else Min(l, n - SkipOf(q));
    if p - 1 >= c {
      MulMonotone(c, p - 1, l);
    } else {
      MulMonotone(p - 1, c - 1, l);
    }
  }

  /** The list route's message `Found ${hobbies.length} hobbies`: the number
      it shows reads back as the count. */
  function FoundMessage(count: nat): (m: string)
    ensures |m| >= 15
    ensures m[..6] == "Found " && m[|m| - 8..] == " hobbies"
    ensures ParseInt(m[6..|m| - 8]) == Some(count)
  {
    ParseIntDecimalRoundTrip(count);
    var m := "Found " + DecimalString(count) + " hobbies";
    assert m[6..|m| - 8] == DecimalString(count);
    m
  }

  // ---------------------------------------------------------------------
  // Update validation

  /** The update route's checks: the difficulty and the category are tested
      only when they are truthy, the name not at all. Each message is
      reported exactly when its field fails, difficulty before category. */
  function UpdateErrors(data: HobbyUpdateInput): (errors: seq<string>)
    ensures |errors| <= 2
    ensures InvalidDifficulty in errors <==>
      TruthyText(data.difficulty) && !IsValidHobbyDifficulty(data.difficulty.value)
    ensures InvalidCategory in errors <==>
      TruthyText(data.category) && !IsValidHobbyCategory(data.category.value)
    ensures forall e :: e in errors ==> e == InvalidDifficulty || e == InvalidCategory
    ensures forall i, j :: 0 <= i < j < |errors| ==> Rank(errors[i]) < Rank(errors[j])
  {
    (if TruthyText(data.difficulty) && !IsValidHobbyDifficulty(data.difficulty.value) then [InvalidDifficulty] else [])
    + (if TruthyText(data.category) && !IsValidHobbyCategory(data.category.value) then [InvalidCategory] else [])
  }

  /** An update is refused by validation exactly when a supplied, non-empty
      difficulty or category fails its guard; a missing, `null` or empty
      field is never an error, and the name is never checked. */
  lemma UpdateErrorsIff(data: HobbyUpdateInput)
    ensures UpdateErrors(data) == [] <==>
      && (TruthyText(data.difficulty) ==> IsValidHobbyDifficulty(data.difficulty.value))
      && (TruthyText(data.category) ==> IsValidHobbyCategory(data.category.value))
    ensures NameRequired !in UpdateErrors(data)
    ensures !TruthyText(data.difficulty) && !TruthyText(data.category) ==> UpdateErrors(data) == []
  {
  }

  /** Update validation is never stricter than create validation: each
      message it reports, the create checks report for the same body. */
  lemma UpdateNoStricterThanCreate(data: HobbyUpdateInput)
    ensures forall e :: e in UpdateErrors(data) ==> e in CreateErrors(data)
  {
  }

  // ---------------------------------------------------------------------
  // The route handlers over the repository's answer

  /** GET /hobbies. `hobbies` and `total` are what `findAll` and `count`
      answered; if either threw, the route fails with 500. */
  method ListRoute(q: HobbyQueryParams, hobbies: Outcome<seq<Hobby>>, total: Outcome<nat>) returns (reply: Reply)
    requires QuerySchemaOk(q)
    ensures WellFormedReply(reply)
    ensures hobbies.Threw? || total.Threw? ==> reply == Reply(500, Failure(FailedToFetchHobbies))
    ensures hobbies.Returned? && total.Returned? ==>
      && reply.status == 200
      && reply.body.message == Some(FoundMessage(|hobbies.value|))
      && reply.body.data == PageOf(PaginatedResponse(
           hobbies.value, total.value, PageNumber(q), PageSize(q), CeilDiv(total.value, PageSize(q))))
  {
    if hobbies.Threw? || total.Threw? {
      reply := Reply(500, Failure(FailedToFetchHobbies));
      return;
    }
    var page := if q.page.Some? then q.page.value else 1;
    var limit := if q.limit.Some? then q.limit.value else 10;
    var totalPages := CeilDiv(total.value, limit);
    var response := PaginatedResponse(hobbies.value, total.value, page, limit, totalPages);
    reply := Reply(200, Success(PageOf(response), FoundMessage(|hobbies.value|)));
  }

  /** GET /hobbies/:id. `found` is what `findById` answered for the parsed id. */
  method GetRoute(idText: string, found: Outcome<Option<Hobby>>) returns (reply: Reply)
    ensures WellFormedReply(reply)
    ensures ParseInt(idText).None? ==> reply == Reply(400, Failure(InvalidHobbyId))
    ensures ParseInt(idText).Some? ==>
      match found
      case Threw(_) => reply == Reply(500, Failure(FailedToFetchHobby))
      case Returned(None) => reply == Reply(404, Failure(HobbyNotFound))
      case Returned(Some(h)) => reply == Reply(200, Success(OneHobby(h), RetrievedMessage))
  {
    var id := ParseInt(idText);
    if id.None? {
      reply := Reply(400, Failure(InvalidHobbyId));
      return;
    }
    match found
    case Threw(_) =>
      reply := Reply(500, Failure(FailedToFetchHobby));
    case Returned(hobby) =>
      if hobby.None? {
        reply := Reply(404, Failure(HobbyNotFound));
      } else {
        reply := Reply(200, Success(OneHobby(hobby.value), RetrievedMessage));
      }
  }

  /** POST /hobbies. `created` is what `create` answered; it is consulted
      only when the body passes validation. */
  method CreateRoute(input: CreateHobbyInput, created: Outcome<Hobby>) returns (reply: Reply)
    ensures WellFormedReply(reply)
    ensures |CreateErrors(input)| > 0 ==>
      reply == Reply(400, Failure(Join(CreateErrors(input), ErrorSeparator)))
    ensures |CreateErrors(input)| == 0 && created.Returned? ==>
      reply == Reply(201, Success(OneHobby(created.value), CreatedMessage))
    ensures |CreateErrors(input)| == 0 && created.Threw? ==>
      if created.error.code == Some(UniqueViolation)
      then reply == Reply(409, Failure(NameConflict))
      else reply == Reply(500, Failure(FailedToCreate))
  {
    var errors: seq<string> := [];
    if !TruthyText(input.name) || |Trim(input.name.value)| == 0 {
      errors := errors + [NameRequired];
    }
    if !DifficultyOk(input.difficulty) {
      errors := errors + [InvalidDifficulty];
    }
    if !CategoryOk(input.category) {
      errors := errors + [InvalidCategory];
    }
    assert errors == CreateErrors(input);
    if |errors| > 0 {
      reply := Reply(400, Failure(Join(errors, ErrorSeparator)));
      return;
    }
    match created
    case Returned(hobby) =>
      reply := Reply(201, Success(OneHobby(hobby), CreatedMessage));
    case Threw(error) =>
      if error.code == Some(UniqueViolation) {
        reply := Reply(409, Failure(NameConflict));
      } else {
        reply := Reply(500, Failure(FailedToCreate));
      }
  }

  /** PUT /hobbies/:id. `updated` is what `update` answered for the parsed
      id; it is consulted only when the id parses and the body passes the
      update checks. */
  method UpdateRoute(idText: string, data: HobbyUpdateInput, updated: Outcome<Option<Hobby>>) returns (reply: Reply)
    ensures WellFormedReply(reply)
    ensures ParseInt(idText).None? ==> reply == Reply(400, Failure(InvalidHobbyId))
    ensures ParseInt(idText).Some? && |UpdateErrors(data)| > 0 ==>
      reply == Reply(400, Failure(Join(UpdateErrors(data), ErrorSeparator)))
    ensures ParseInt(idText).Some? && |UpdateErrors(data)| == 0 ==>
      match updated
      case Returned(None) => reply == Reply(404, Failure(HobbyNotFound))
      case Returned(Some(h)) => reply == Reply(200, Success(OneHobby(h), UpdatedMessage))
      case Threw(e) =>
        if e.code == Some(UniqueViolation)
        then reply == Reply(409, Failure(NameConflict))
        else reply == Reply(500, Failure(FailedToUpdate))
  {
    var id := ParseInt(idText);
    if id.None? {
      reply := Reply(400, Failure(InvalidHobbyId));
      return;
    }
    var errors: seq<string> := [];
    if TruthyText(data.difficulty) && !IsValidHobbyDifficulty(data.difficulty.value) {
      errors := errors + [InvalidDifficulty];
    }
    if TruthyText(data.category) && !IsValidHobbyCategory(data.category.value) {
      errors := errors + [InvalidCategory];
    }
    if |errors| > 0 {
      reply := Reply(400, Failure(Join(errors, ErrorSeparator)));
      return;
    }
    match updated
    case Returned(hobby) =>
      if hobby.None? {
        reply := Reply(404, Failure(HobbyNotFound));
      } else {
        reply := Reply(200, Success(OneHobby(hobby.value), UpdatedMessage));
      }
    case Threw(error) =>
      if error.code == Some(UniqueViolation) {
        reply := Reply(409, Failure(NameConflict));
      } else {
        reply := Reply(500, Failure(FailedToUpdate));
      }
  }

  /** DELETE /hobbies/:id. `deleted` is what `delete` answered for the
      parsed id; a successful delete answers with `data: null`. */
  method DeleteRoute(idText: string, deleted: Outcome<bool>) returns (reply: Reply)
    ensures WellFormedReply(reply)
    ensures ParseInt(idText).None? ==> reply == Reply(400, Failure(InvalidHobbyId))
    ensures ParseInt(idText).Some? ==>
      match deleted
      case Threw(_) => reply == Reply(500, Failure(FailedToDelete))
      case Returned(false) => reply == Reply(404, Failure(HobbyNotFound))
      case Returned(true) => reply == Reply(200, Success(NullData, DeletedMessage))
  {
    var id := ParseInt(idText);
    if id.None? {
      reply := Reply(400, Failure(InvalidHobbyId));
      return;
    }
    match deleted
    case Threw(_) =>
      reply := Reply(500, Failure(FailedToDelete));
    case Returned(ok) =>
      if !ok {
        reply := Reply(404, Failure(HobbyNotFound));
      } else {
        reply := Reply(200, Success(NullData, DeletedMessage));
      }
  }

  // ---------------------------------------------------------------------
  // The enumeration invariant of the stored rows

  /** A row whose difficulty and category belong to their enumerations. */
  predicate EnumsValidRow(h: Hobby)
  {
    IsValidHobbyDifficulty(h.difficulty) && IsValidHobbyCategory(h.category)
  }

  /** Every stored row has a listed difficulty and category. */
  predicate EnumsValid(rows: seq<Hobby>)
  {
    forall i :: 0 <= i < |rows| ==> EnumsValidRow(rows[i])
  }

  /** A body that passes the create checks is stored with a listed
      difficulty and category. */
  lemma NewHobbyKeepsEnums(input: CreateHobbyInput, id: int, now: int)
    requires |CreateErrors(input)| == 0
    ensures EnumsValidRow(NewHobby(input, id, now))
  {
  }

  /** A body that passes the update checks keeps a row's difficulty and
      category listed: a field is written only when truthy, and a truthy
      field passed its guard. */
  lemma PatchedKeepsEnums(h: Hobby, data: HobbyUpdateInput, now: int)
    requires EnumsValidRow(h) && |UpdateErrors(data)| == 0
    ensures EnumsValidRow(Patched(h, data, now))
  {
  }

  /** Replacing one row by its patch under a body that passes the update
      checks keeps the whole table listed. */
  lemma UpdateKeepsEnums(rows: seq<Hobby>, i: int, data: HobbyUpdateInput, now: int)
    requires EnumsValid(rows) && 0 <= i < |rows| && |UpdateErrors(data)| == 0
    ensures EnumsValid(rows[i := Patched(rows[i], data, now)])
  {
    PatchedKeepsEnums(rows[i], data, now);
  }

  // ---------------------------------------------------------------------
  // The server over the in-memory repository

  /** `HobbyServer` with its repository; each method is a request to one
      route. The in-memory repository never throws on reads, `create` throws
      only on a taken name once validation has passed, and `update` and
      `delete` report every failure as `null`/`false`. */
  class HobbyServer {
    const repository: HobbyRepository

    constructor ()
      ensures fresh(repository) && repository.Valid() && repository.rows == []
      ensures EnumsValid(repository.rows)
    {
      repository := new HobbyRepository();
    }

    /** A list request: always 200, with the page `findAll` computes, the
        count of all matching rows, and a page count under which a page is
        empty exactly when it lies past the last one. */
    method List(q: HobbyQueryParams) returns (reply: Reply)
      requires repository.Valid() && QuerySchemaOk(q)
      ensures WellFormedReply(reply) && reply.status == 200
      ensures reply.body.data.PageOf?
      ensures var page := reply.body.data.page;
        && page.data == FindAllResult(repository.rows, q)
        && page.total == |Filter(repository.rows, q)|
        && page.page == PageNumber(q) && page.limit == PageSize(q)
        && (page.data == [] <==> page.page > page.totalPages)
        && page.totalPages == CeilDiv(page.total, PageSize(q))
        && reply.body.message == Some(FoundMessage(|page.data|))
    {
      var hobbies := repository.FindAll(q);
      var total := repository.Count(q);
      reply := ListRoute(q, Returned(hobbies), Returned(total));
      PageEmptyIffBeyondLast(repository.rows, q);
    }

    /** A get request: 400 for an id that does not parse, else 404 or 200 as
        the row is stored or not. */
    method Get(idText: string) returns (reply: Reply)
      requires repository.Valid()
      ensures WellFormedReply(reply)
      ensures reply.status == 400 <==> ParseInt(idText).None?
      ensures reply.status == 404 <==> ParseInt(idText).Some? && !Stored(repository.rows, ParseInt(idText).value)
      ensures reply.status == 200 <==> ParseInt(idText).Some? && Stored(repository.rows, ParseInt(idText).value)
      ensures reply.status == 200 ==>
        reply.body.data.OneHobby? && reply.body.data.hobby in repository.rows
        && reply.body.data.hobby.id == ParseInt(idText).value
      ensures reply.status == 400 ==> reply.body == Failure(InvalidHobbyId)
      ensures reply.status == 404 ==> reply.body == Failure(HobbyNotFound)
      ensures reply.status == 200 ==> reply.body.message == Some(RetrievedMessage)
    {
      var id := ParseInt(idText);
      if id.None? {
        // `findById` is not called for an unparsable id, and `GetRoute`
        // answers 400 without reading this argument.
        reply := GetRoute(idText, Returned(None));
        return;
      }
      var found := repository.FindById(id.value);
      reply := GetRoute(idText, Returned(found));
    }

    /** A create request: 400 with the joined validation errors, 409 when the
        name is taken, otherwise 201 with the stored row; never 500. A stored
        row's difficulty and category stay within their enumerations. */
    method Create(input: CreateHobbyInput) returns (reply: Reply)
      requires repository.Valid()
      modifies repository
      ensures repository.Valid() && WellFormedReply(reply)
      ensures reply.status == 400 <==> |CreateErrors(input)| > 0
      ensures reply.status == 409 <==>
        |CreateErrors(input)| == 0 && NameTaken(old(repository.rows), input.name.value)
      ensures reply.status == 201 <==>
        |CreateErrors(input)| == 0 && !NameTaken(old(repository.rows), input.name.value)
      ensures reply.status != 201 ==> unchanged(repository)
      ensures reply.status == 201 ==>
        var h := NewHobby(input, old(repository.nextId), old(repository.clock));
        && reply.body.data == OneHobby(h)
        && repository.rows == old(repository.rows) + [h]
      ensures reply.status == 400 ==> reply.body == Failure(Join(CreateErrors(input), ErrorSeparator))
      ensures reply.status == 409 ==> reply.body == Failure(NameConflict)
      ensures reply.status == 201 ==> reply.body.message == Some(CreatedMessage)
      ensures EnumsValid(old(repository.rows)) ==> EnumsValid(repository.rows)
    {
      var errors := CreateErrors(input);
      if |errors| > 0 {
        // `create` is not called when validation fails, and `CreateRoute`
        // answers 400 without reading this argument.
        reply := CreateRoute(input, Threw(Thrown(None, "not called")));
        return;
      }
      var created := repository.Create(input);
      reply := CreateRoute(input, created);
    }

    /** An update request: 400 for an unparsable id or a failed check, 404
        when the row is missing or the write is refused, 200 with the patched
        row otherwise. A name taken by another row ends in 404, never 409:
        the repository reports the violation as `null`. */
    method Update(idText: string, data: HobbyUpdateInput) returns (reply: Reply)
      requires repository.Valid()
      modifies repository
      ensures repository.Valid() && WellFormedReply(reply)
      ensures reply.status in {200, 400, 404}
      ensures reply.status == 400 <==> ParseInt(idText).None? || |UpdateErrors(data)| > 0
      ensures reply.status == 404 <==>
        && ParseInt(idText).Some? && |UpdateErrors(data)| == 0
        && (!Stored(old(repository.rows), ParseInt(idText).value)
            || UpdateRefused(old(repository.rows), ParseInt(idText).value, data))
      ensures reply.status != 200 ==> unchanged(repository)
      ensures reply.status == 200 ==>
        var i := IndexOf(old(repository.rows), ParseInt(idText).value).value;
        var p := Patched(old(repository.rows)[i], data, old(repository.clock));
        && reply.body.data == OneHobby(p)
        && repository.rows == old(repository.rows)[i := p]
      ensures ParseInt(idText).None? ==> reply.body == Failure(InvalidHobbyId)
      ensures ParseInt(idText).Some? && reply.status == 400 ==>
        reply.body == Failure(Join(UpdateErrors(data), ErrorSeparator))
      ensures reply.status == 404 ==> reply.body == Failure(HobbyNotFound)
      ensures reply.status == 200 ==> reply.body.message == Some(UpdatedMessage)
      ensures EnumsValid(old(repository.rows)) ==> EnumsValid(repository.rows)
    {
      var id := ParseInt(idText);
      if id.None? || |UpdateErrors(data)| > 0 {
        // `update` is not called for an unparsable id or a failed check,
        // and `UpdateRoute` answers 400 without reading this argument.
        reply := UpdateRoute(idText, data, Returned(None));
        return;
      }
      var updated := repository.Update(id.value, data);
      if updated.Some? && EnumsValid(old(repository.rows)) {
        UpdateKeepsEnums(old(repository.rows), IndexOf(old(repository.rows), id.value).value, data, old(repository.clock));
      }
      reply := UpdateRoute(idText, data, Returned(updated));
    }

    /** A delete request: 400 for an unparsable id, 404 when there is no such
        row, 200 when it was removed, after which it is gone. */
    method Delete(idText: string) returns (reply: Reply)
      requires repository.Valid()
      modifies repository
      ensures repository.Valid() && WellFormedReply(reply)
      ensures reply.status == 400 <==> ParseInt(idText).None?
      ensures reply.status == 404 <==> ParseInt(idText).Some? && !Stored(old(repository.rows), ParseInt(idText).value)
      ensures reply.status == 200 <==> ParseInt(idText).Some? && Stored(old(repository.rows), ParseInt(idText).value)
      ensures reply.status != 200 ==> unchanged(repository)
      ensures reply.status == 200 ==> !Stored(repository.rows, ParseInt(idText).value)
      ensures forall h :: h in old(repository.rows) && (ParseInt(idText).None? || h.id != ParseInt(idText).value) ==>
        h in repository.rows
      ensures reply.status == 400 ==> reply.body == Failure(InvalidHobbyId)
      ensures reply.status == 404 ==> reply.body == Failure(HobbyNotFound)
      ensures reply.status == 200 ==> reply.body == Success(NullData, DeletedMessage)
      ensures EnumsValid(old(repository.rows)) ==> EnumsValid(repository.rows)
    {
      var id := ParseInt(idText);
      if id.None? {
        // `delete` is not called for an unparsable id, and `DeleteRoute`
        // answers 400 without reading this argument.
        reply := DeleteRoute(idText, Returned(false));
        return;
      }
      var ok := repository.Delete(id.value);
      reply := DeleteRoute(idText, Returned(ok));
    }
  }
}
