/** The untyped homework server (src/server-homework.ts). Its list, get and
    delete handlers are the same code as the reference server's and reuse
    `ReferenceServer`'s routes; its create handler checks only the name and
    its update handler checks nothing. Its repository is the empty object
    `{}`, so every repository call throws a `TypeError` (which carries no
    error code) inside the handler's `try`. */
module HomeworkServer {
  import opened Wrappers
  import opened JsText
  import opened Hobbies
  import opened Types
  import ReferenceServer

  // ---------------------------------------------------------------------
  // Create validation

  /** The homework create checks: only the name rule. */
  function HomeworkCreateErrors(input: CreateHobbyInput): (errors: seq<string>)
    ensures errors == [] || errors == [NameRequired]
  {
    if NameMissing(input.name) then [NameRequired] else []
  }

  /** The homework errors are the leading part of the reference errors: the
      name message when the reference reports it, and nothing more. */
  lemma HomeworkErrorsArePrefix(input: CreateHobbyInput)
    ensures HomeworkCreateErrors(input) == CreateErrors(input)[..|HomeworkCreateErrors(input)|]
    ensures HomeworkCreateErrors(input) == [] <==> input.name.Present? && !Blank(input.name.value)
  {
    if input.name.Present? {
      TrimEmptyIffBlank(input.name.value);
    }
  }

  /** The bodies the reference rejects and the homework server passes on to
      the repository: any real name with an unknown difficulty and category. */
  lemma HomeworkAcceptsUnknownEnums(name: string)
    requires !Blank(name)
    ensures var input := HobbyInput(Present(name), Undefined, Present("expert"), Present("games"), Undefined);
      && HomeworkCreateErrors(input) == []
      && CreateErrors(input) == [InvalidDifficulty, InvalidCategory]
  {
    var input := HobbyInput(Present(name), Undefined, Present("expert"), Present("games"), Undefined);
    TrimEmptyIffBlank(name);
    assert !NameMissing(input.name);
    assert !DifficultyOk(input.difficulty) by { GuardsRejectNearMisses(); }
    assert !CategoryOk(input.category) by { assert "games"[0] == 'g'; }
  }

  // ---------------------------------------------------------------------
  // The two routes that differ from the reference server

  /** POST /hobbies, homework version: 400 "Name is required" for a blank
      name, otherwise the repository's answer decides (201, 409 on a unique
      violation, 500 on anything else). */
  method CreateRoute(input: CreateHobbyInput, created: Outcome<Hobby>) returns (reply: Reply)
    ensures WellFormedReply(reply)
    ensures |HomeworkCreateErrors(input)| > 0 ==> reply == Reply(400, Failure(NameRequired))
    ensures |HomeworkCreateErrors(input)| == 0 && created.Returned? ==>
      reply == Reply(201, Success(OneHobby(created.value), CreatedMessage))
    ensures |HomeworkCreateErrors(input)| == 0 && created.Threw? ==>
      if created.error.code == Some(UniqueViolation)
      then reply == Reply(409, Failure(NameConflict))
      else reply == Reply(500, Failure(FailedToCreate))
  {
    var errors: seq<string> := [];
    if !TruthyText(input.name) || |Trim(input.name.value)| == 0 {
      errors := errors + [NameRequired];
    }
    if |errors| > 0 {
      reply := Reply(400, Failure(Join(errors, ErrorSeparator)));
      return;
    }
    match created
    case Returned(hobby) =>
      reply := Reply(201, Success(OneHobby(hobby), CreatedMessage));
    case Threw(error) =>
      if error.code == Some(UniqueViolation) {
        reply := Reply(409, Failure(NameConflict));
      } else {
        reply := Reply(500, Failure(FailedToCreate));
      }
  }

  /** PUT /hobbies/:id, homework version: no body checks, so a 400 comes
      only from an id that does not parse. (Its error list is never
      pushed to, so the branch that reports it cannot run and is not
      modelled.) */
  method UpdateRoute(idText: string, data: HobbyUpdateInput, updated: Outcome<Option<Hobby>>) returns (reply: Reply)
    ensures WellFormedReply(reply)
    ensures reply.status == 400 <==> ParseInt(idText).None?
    ensures ParseInt(idText).None? ==> reply == Reply(400, Failure(InvalidHobbyId))
    ensures ParseInt(idText).Some? ==>
      match updated
      case Returned(None) => reply == Reply(404, Failure(HobbyNotFound))
      case Returned(Some(h)) => reply == Reply(200, Success(OneHobby(h), UpdatedMessage))
      case Threw(e) =>
        if e.code == Some(UniqueViolation)
        then reply == Reply(409, Failure(NameConflict))
        else reply == Reply(500, Failure(FailedToUpdate))
  {
    var id := ParseInt(idText);
    if id.None? {
      reply := Reply(400, Failure(InvalidHobbyId));
      return;
    }
    match updated
    case Returned(hobby) =>
      if hobby.None? {
        reply := Reply(404, Failure(HobbyNotFound));
      } else {
        reply := Reply(200, Success(OneHobby(hobby.value), UpdatedMessage));
      }
    case Threw(error) =>
      if error.code == Some(UniqueViolation) {
        reply := Reply(409, Failure(NameConflict));
      } else {
        reply := Reply(500, Failure(FailedToUpdate));
      }
  }

  // ---------------------------------------------------------------------
  // The server over the stub repository

  /** The stub repository `{}`: an object with no members. */
  datatype EmptyObject = EmptyObject

  /** Calling one of the repository members the server uses, none of which
      `{}` has: a `TypeError`, without a `code` property. */
  function CallMissing<T>(target: EmptyObject, member: string): (r: Outcome<T>)
    requires member in {"findAll", "count", "findById", "create", "update", "delete"}
    ensures r.Threw? && r.error.code.None?
  {
    Threw(Thrown(None, "this.repository." + member + " is not a function"))
  }

  /** The homework `HobbyServer`, whose repository is `{}`. Any request that
      reaches a repository call ends in its route's 500 branch; only the
      checks made before that call can answer differently. */
  class HobbyServer {
    const repository: EmptyObject

    constructor ()
      ensures repository == EmptyObject
    {
      repository := EmptyObject;
    }

    /** A list request always fails. */
    method List(q: HobbyQueryParams) returns (reply: Reply)
      requires QuerySchemaOk(q)
      ensures WellFormedReply(reply)
      ensures reply == Reply(500, Failure(FailedToFetchHobbies))
    {
      var hobbies: Outcome<seq<Hobby>> := CallMissing(repository, "findAll");
      var total: Outcome<nat> := CallMissing(repository, "count");
      reply := ReferenceServer.ListRoute(q, hobbies, total);
    }

    /** A get request: 400 for an unparsable id, 500 otherwise. */
    method Get(idText: string) returns (reply: Reply)
      ensures WellFormedReply(reply)
      ensures reply == if ParseInt(idText).None?
        then Reply(400, Failure(InvalidHobbyId))
        else Reply(500, Failure(FailedToFetchHobby))
    {
      reply := ReferenceServer.GetRoute(idText, CallMissing(repository, "findById"));
    }

    /** A create request: 400 for a blank name, 500 otherwise; never 201 and
        never 409, since the thrown error has no code. */
    method Create(input: CreateHobbyInput) returns (reply: Reply)
      ensures WellFormedReply(reply)
      ensures reply == if NameMissing(input.name)
        then Reply(400, Failure(NameRequired))
        else Reply(500, Failure(FailedToCreate))
    {
      reply := CreateRoute(input, CallMissing(repository, "create"));
    }

    /** An update request: 400 for an unparsable id, 500 otherwise, whatever
        the body. */
    method Update(idText: string, data: HobbyUpdateInput) returns (reply: Reply)
      ensures WellFormedReply(reply)
      ensures reply == if ParseInt(idText).None?
        then Reply(400, Failure(InvalidHobbyId))
        else Reply(500, Failure(FailedToUpdate))
    {
      reply := UpdateRoute(idText, data, CallMissing(repository, "update"));
    }

    /** A delete request: 400 for an unparsable id, 500 otherwise. */
    method Delete(idText: string) returns (reply: Reply)
      ensures WellFormedReply(reply)
      ensures reply == if ParseInt(idText).None?
        then Reply(400, Failure(InvalidHobbyId))
        else Reply(500, Failure(FailedToDelete))
    {
      reply := ReferenceServer.DeleteRoute(idText, CallMissing(repository, "delete"));
    }
  }
}
