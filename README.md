# Hobbies service: a verified model of its validation, repository and routes

The system is a small HTTP service that stores "hobbies". Each hobby has:

- a name (kept unique by the storage layer);
- an optional description;
- a difficulty: `beginner`, `intermediate` or `advanced`;
- a category: `sports`, `arts`, `technology`, `outdoor`, `indoor` or `creative`;
- an active flag;
- creation and update timestamps.

The code comes in two copies: a typed reference and an untyped "homework" copy. Each copy has a service class that validates a create request and hands it to a repository, and a server with five routes: list, get, create, update and delete.

This project models the following in Dafny:

- The validation rules of both copies. The difficulty and category guards, the error-collecting `validateHobby` and `createHobby` are in `types.dfy` and `homework_types.dfy`. The two copies are proved to accept exactly the same values and to produce the same ordered error lists.
- The repository (`repository.dfy`), as a class over an in-memory table.
  - State: a sequence of rows, oldest first, a next-id counter and a logical clock.
  - The `where` filter is built by conditional assignment and is proved equivalent to a reference predicate over the query.
  - `findAll` filters, orders newest first, then skips `(page - 1) * limit` rows and takes `limit`. `count` uses the same filter.
  - `create` applies the defaults and `update` writes only the supplied fields. Both are checked against pure specifications of the new record.
  - `update` and `delete` turn every storage failure into `null`/`false`.
- The route handlers of both servers (`reference_server.dfy`, `homework_server.dfy`).
  - Each handler is a method from the id text, the body or query, and what its repository call answered (a value, or an exception with its `code`) to a `Reply`: the status code set on the reply and the JSON envelope returned.
  - A server class then connects them to a repository. The reference server uses the in-memory repository. The homework server uses its stub `{}`, whose every call throws a `TypeError` without a code.
- The JavaScript built-ins the rules depend on (`js_text.dfy`):
  - `String.prototype.trim` with the ECMAScript white-space set;
  - `Array.prototype.join`;
  - `parseInt` without a radix: white space, sign, `0x`, longest digit prefix, `NaN`;
  - the decimal rendering of a count;
  - ASCII case-insensitive `contains`.

One behaviour differs from what the route code suggests, and the model follows the code. The update route maps a thrown error with code `P2002` (unique violation) to 409 "Hobby with this name already exists". But `HobbyRepository.update` catches every error and returns `null`. So with this repository, renaming a hobby to a taken name ends in 404 "Hobby not found", and the update route's 409 branch cannot be reached. `ReferenceServer.HobbyServer.Update` proves both facts. `ReferenceServer.UpdateRoute` still models the 409 branch for a repository that throws.

The storage schema is not part of this model. It is assumed, as the types and the error handling imply, that:

- `name` is unique (a duplicate raises `P2002`);
- `description` is nullable;
- `isActive` is a non-null boolean;
- `name`, `difficulty` and `category` are required, with no enum check in storage.

## Model

| member | source | states |
|---|---|---|
| JsText.TrimStart | src/answers/types.ts:110 | the leading-trim result is a suffix of the input, every dropped character is white space, and the result does not start with white space |
| JsText.TrimEnd | src/answers/types.ts:110 | the trailing-trim result is a prefix of the input, every dropped character is white space, and the result does not end with white space |
| JsText.TrimEmptyIffBlank | src/answers/types.ts:110 | `s.trim().length === 0` holds exactly when every character of `s` is white space |
| JsText.JoinContainsEach | src/answers/types.ts:131 | every element of a joined list appears as a substring of the joined text, so a joined error message mentions each error |
| JsText.Lower | src/repository.ts:34-36 | lower-casing keeps the length and leaves no capital letter: each of A-Z becomes its small letter and every other character stays, so a text is its own lower-case form exactly when it has no capital |
| JsText.ContainsInsensitiveIgnoresCase | src/repository.ts:34-36 | case-insensitive `contains` gives the same answer when either side is lower-cased first |
| JsText.LowerIdempotent | src/repository.ts:34-36 | lower-casing twice is lower-casing once |
| JsText.DigitPrefix | src/answers/server.ts:127 | the digits `parseInt` reads are a prefix of the text, all digits of the radix, and followed by a non-digit or the end |
| JsText.ParseDigits | src/answers/server.ts:127 | the digit step yields `NaN` exactly when the text is empty or does not start with a digit of the radix |
| JsText.ParseIntOfDigits | src/answers/server.ts:127 | a non-empty all-decimal-digit id parses to the number its digits denote |
| JsText.ParseIntNaN | src/answers/server.ts:127-135 | an id starting with a character that is not white space, a sign or a digit parses to `NaN` |
| JsText.DecimalString | src/answers/server.ts:99 | a count is rendered as a non-empty string of decimal digits with no leading zero |
| JsText.DecimalStringValue | src/answers/server.ts:99 | the rendered digits denote the count |
| JsText.ParseIntDecimalRoundTrip | src/answers/server.ts:99 | `parseInt(String(n)) === n` for every non-negative count |
| Repository.BuildWhere | src/repository.ts:28-38 | the `where` object built by conditional assignment accepts exactly the rows that match the query: equality on truthy `category`/`difficulty`, on a boolean `isActive`, and a case-insensitive substring of name or description for a truthy `search` |
| Repository.FilterBy | src/repository.ts:40-45 | filtering keeps exactly the accepted rows and never adds any |
| Repository.FilterByCongruent | src/repository.ts:97-109 | two filters that agree on every row select the same rows, so `count` and `findAll` select the same rows |
| Repository.FilterKeepsOrder | src/repository.ts:44 | filtering an oldest-first table leaves it oldest first |
| Repository.Reverse | src/repository.ts:44 | the reversed rows are the same rows in the opposite order |
| Repository.ReverseNewestFirst | src/repository.ts:44 | reversing an oldest-first table lists it newest first with the same rows |
| Repository.Paginate | src/repository.ts:40-45 | `skip`/`take` returns the `min(take, n - skip)` rows that follow the first `skip`, or none when `skip >= n` |
| Repository.SkipOf | src/repository.ts:18-26 | `skip = (page - 1) * limit`, with page 1 and limit 10 by default: page 1 skips nothing, and a later page skips at least `page - 1` rows |
| Repository.FindAllResultProperties | src/repository.ts:17-48 | a `findAll` page has at most `limit` rows, each stored and matching every filter, newest first, and is empty once the skip reaches the number of matching rows |
| Repository.IndexOf | src/repository.ts:8-14 | the id lookup finds the position of a row with that id, or reports that no row has it |
| Repository.NewHobby | src/repository.ts:50-62 | a created row keeps the given name, difficulty and category. Its description is `null` exactly when none or a falsy one is given. It is active unless `isActive` is given as false. Both timestamps are the creation time |
| Repository.Patched | src/repository.ts:64-76 | an update writes name, difficulty and category only when truthy, description whenever it is not `undefined` (`null` clears it), and `isActive` whenever given. The id and creation time are kept and the update time advances |
| Repository.PatchedIdempotent | src/repository.ts:64-76 | applying the same update twice leaves the row as applying it once, apart from the update time |
| Repository.PatchedNothing | src/repository.ts:64-76 | an empty update changes nothing but the update time |
| Repository.RemoveAt | src/repository.ts:83-92 | removing a row shifts the later rows down by one and keeps the earlier ones |
| Repository.RemoveAtWellOrdered | src/repository.ts:83-92 | removing a row keeps ids, creation times and names ordered and distinct |
| Repository.RemoveAtKeepsOthers | src/repository.ts:83-92 | after removal the removed id is absent and every other row is still there |
| Repository.HobbyRepository.constructor | src/repository.ts:6 | a new repository holds an empty table and satisfies the table invariant |
| Repository.HobbyRepository.FindById | src/repository.ts:8-14 | `findUnique` returns a row exactly when one with that id is stored, and that row |
| Repository.HobbyRepository.FindAll | src/repository.ts:17-48 | `findAll` returns the filtered, newest-first, paginated rows, with the properties above |
| Repository.HobbyRepository.Count | src/repository.ts:94-110 | `count` is the number of rows matching the same filter as `findAll`, with paging ignored |
| Repository.HobbyRepository.Create | src/repository.ts:50-62 | `create` appends the defaulted record with a fresh id, or throws. A missing required field throws without a code. A taken name throws `P2002` and leaves the table unchanged. The invariant is kept |
| Repository.HobbyRepository.Update | src/repository.ts:64-81 | `update` returns `null` and changes nothing exactly when the id is not stored or storage refuses the write; otherwise it replaces that one row with the patched record |
| Repository.HobbyRepository.Delete | src/repository.ts:83-92 | `delete` answers true exactly when the id was stored. Afterwards the id is absent, every other row is kept, and a false answer changes nothing |
| Repository.DeleteThenFindById | src/repository.ts:83-92 | looking up an id right after deleting it finds nothing |
| Types.DifficultyGuardExact | src/answers/types.ts:59-61 | the difficulty guard accepts exactly "beginner", "intermediate" and "advanced" |
| Types.CategoryGuardExact | src/answers/types.ts:63-65 | the category guard accepts exactly the six category names |
| Types.GuardsRejectNearMisses | src/answers/types.ts:59-65 | matching is case-sensitive and rejects the empty string and unlisted names |
| Types.CreateErrors | src/answers/types.ts:107-123 | at most three errors, and an error-free input has a name, a difficulty and a category |
| Types.NameErrorIff | src/answers/types.ts:110-112 | "Name is required" is reported exactly when the name is missing, `null` or all white space |
| Types.EnumErrorsIff | src/answers/types.ts:114-120 | each enum message is reported exactly when its field fails the guard |
| Types.ErrorsInRuleOrder | src/answers/types.ts:107-123 | the errors are a subsequence of the three messages: each at most once, in rule order |
| Types.NoErrorsIff | src/answers/types.ts:107-123 | there are no errors exactly when the name has a non-white-space character and both guards pass |
| Types.EmptyNameAndUnknownDifficulty | src/answers/types.ts:107-133 | an empty name with difficulty "expert" reports "Name is required, Invalid difficulty level" |
| Types.CreateHobbyResponse | src/answers/types.ts:125-147 | over any repository answer: validation errors give the joined failure without consulting it; otherwise a record gives the success envelope, and every exception, whatever its code or text, gives "Failed to create hobby"; the response succeeds exactly when there are no errors and a record came back |
| Types.HobbyService.constructor | src/answers/types.ts:105 | the service keeps the repository it is given |
| Types.HobbyService.ValidateHobby | src/answers/types.ts:107-123 | the pushed error list is the rule-ordered list of violated rules |
| Types.HobbyService.CreateHobby | src/answers/types.ts:125-147 | with errors, the response is a failure with the joined errors and the repository is untouched. A taken name gives the fixed "Failed to create hobby". Otherwise it is a success with the stored record and "Hobby created successfully" |
| HomeworkTypes.ConstantListsExact | src/types-homework.ts:17-20 | `DIFFICULTY_LEVELS` holds exactly the three levels and `HOBBY_CATEGORIES` the six categories, each once |
| HomeworkTypes.DifficultyGuardsAgree | src/types-homework.ts:76-78 | the homework difficulty guard accepts exactly the values the typed guard accepts |
| HomeworkTypes.CategoryGuardsAgree | src/types-homework.ts:80-82 | the homework category guard accepts exactly the values the typed guard accepts |
| HomeworkTypes.HobbyService.constructor | src/types-homework.ts:119-121 | the service keeps the repository it is given |
| HomeworkTypes.HobbyService.ValidateHobby | src/types-homework.ts:124-140 | the homework validation produces the same ordered error list as the typed one for every input |
| HomeworkTypes.HobbyService.CreateHobby | src/types-homework.ts:143-165 | same envelopes as the typed service, through the shared `Types.CreateHobbyResponse`: joined errors without touching the repository, "Failed to create hobby" on a throw, the created record on success |
| ReferenceServer.CeilDiv | src/answers/server.ts:86 | `totalPages` is the least page count whose pages hold every row |
| ReferenceServer.PageEmptyIffBeyondLast | src/answers/server.ts:78-94 | a listed page is empty exactly when its number exceeds `totalPages` |
| ReferenceServer.FoundMessage | src/answers/server.ts:99 | the message reads "Found N hobbies", and N parses back to the number of returned rows |
| ReferenceServer.UpdateErrors | src/answers/server.ts:271-279 | "Invalid difficulty level" is reported exactly when a truthy difficulty fails its guard and "Invalid category" exactly when a truthy category fails; nothing else is reported, and the difficulty message comes first |
| ReferenceServer.UpdateErrorsIff | src/answers/server.ts:273-287 | an update fails validation exactly when a truthy difficulty or category fails its guard; absent fields and the name are never errors |
| ReferenceServer.UpdateNoStricterThanCreate | src/answers/server.ts:273-279 | every update error is also a create error for the same body |
| ReferenceServer.ListRoute | src/answers/server.ts:75-108 | the reply is 200 with the page, total, page number, limit, `ceil(total/limit)` and "Found N hobbies", or 500 "Failed to fetch hobbies" if either read throws |
| ReferenceServer.GetRoute | src/answers/server.ts:125-159 | a `NaN` id gives 400 "Invalid hobby ID" whatever the repository would answer; then `null` gives 404, a row gives 200, and a throw gives 500 with a fixed message |
| ReferenceServer.CreateRoute | src/answers/server.ts:180-230 | validation errors give 400 with the joined errors. Otherwise a created row gives 201, a `P2002` throw gives 409, and any other throw gives 500. The replies never depend on the exception's text |
| ReferenceServer.UpdateRoute | src/answers/server.ts:257-319 | a `NaN` id gives 400 first, then failed checks give 400 with the joined errors. `null` gives 404 and a row gives 200; a `P2002` throw gives 409 and any other throw 500 |
| ReferenceServer.DeleteRoute | src/answers/server.ts:336-370 | a `NaN` id gives 400. Then false gives 404, true gives 200 with `data: null` and "Hobby deleted successfully", and a throw gives 500 |
| ReferenceServer.NewHobbyKeepsEnums | src/answers/server.ts:180-199 | a body that passes the create checks is stored with a listed difficulty and category |
| ReferenceServer.PatchedKeepsEnums | src/answers/server.ts:271-287 | a body that passes the update checks leaves a row's difficulty and category listed, since only a truthy field is written and a truthy field was checked |
| ReferenceServer.UpdateKeepsEnums | src/answers/server.ts:271-293 | replacing a row by its patch under a body that passes the update checks keeps every stored difficulty and category listed |
| ReferenceServer.HobbyServer.constructor | src/answers/server.ts:43-49 | the server starts with a fresh, empty repository, in which every row's difficulty and category are listed |
| ReferenceServer.HobbyServer.List | src/answers/server.ts:75-108 | listing through the repository is always 200, with the `findAll` page, the filtered count, `totalPages = ceil(total / limit)` and "Found N hobbies" for the N rows returned; the page is empty exactly when past `totalPages` |
| ReferenceServer.HobbyServer.Get | src/answers/server.ts:125-159 | 400 "Invalid hobby ID" exactly for a `NaN` id, 404 "Hobby not found" exactly when the id is not stored, 200 with that row and "Hobby retrieved successfully" exactly when it is |
| ReferenceServer.HobbyServer.Create | src/answers/server.ts:180-230 | 400 with the joined validation errors exactly when there are any, 409 "Hobby with this name already exists" exactly for a taken name, otherwise 201 with the appended record and "Hobby created successfully"; never 500; the table changes only on 201; every write keeps all stored difficulties and categories within their enumerations |
| ReferenceServer.HobbyServer.Update | src/answers/server.ts:257-319 | only 200, 400 or 404, never 409. 400 is "Invalid hobby ID" for a `NaN` id and otherwise the joined update errors; 404 is "Hobby not found", including for a name taken by another row; 200 carries the patched row and "Hobby updated successfully". The table changes only on 200; every write keeps all stored difficulties and categories within their enumerations |
| ReferenceServer.HobbyServer.Delete | src/answers/server.ts:336-370 | 400 "Invalid hobby ID" exactly for a `NaN` id, 404 "Hobby not found" exactly when not stored, 200 with `data: null` and "Hobby deleted successfully" exactly when stored; after 200 the id is gone and all other rows remain; every write keeps all stored difficulties and categories within their enumerations |
| HomeworkServer.HomeworkCreateErrors | src/server-homework.ts:207-212 | the homework create errors are either none or exactly "Name is required" |
| HomeworkServer.HomeworkErrorsArePrefix | src/server-homework.ts:207-212 | the homework errors are the leading part of the reference errors, and are empty exactly for a non-blank name |
| HomeworkServer.HomeworkAcceptsUnknownEnums | src/server-homework.ts:207-217 | a real name with an unknown difficulty and category passes homework validation but fails the reference with both enum messages |
| HomeworkServer.CreateRoute | src/server-homework.ts:203-249 | a blank name gives 400 "Name is required". Otherwise 201 on a created row, 409 on `P2002`, 500 on any other throw |
| HomeworkServer.UpdateRoute | src/server-homework.ts:278-332 | 400 only for a `NaN` id, whatever the body. Then 404 on `null`, 200 on a row, 409 on `P2002`, 500 otherwise |
| HomeworkServer.CallMissing | src/server-homework.ts:60 | calling any of the six repository members on `{}` throws an error without a code |
| HomeworkServer.HobbyServer.constructor | src/server-homework.ts:56-63 | the repository is the empty object |
| HomeworkServer.HobbyServer.List | src/server-homework.ts:91-126 | with the stub repository, listing always gives 500 "Failed to fetch hobbies" |
| HomeworkServer.HobbyServer.Get | src/server-homework.ts:145-180 | 400 for a `NaN` id, otherwise 500 "Failed to fetch hobby" |
| HomeworkServer.HobbyServer.Create | src/server-homework.ts:203-249 | 400 for a blank name, otherwise 500 "Failed to create hobby"; never 201 or 409 |
| HomeworkServer.HobbyServer.Update | src/server-homework.ts:278-332 | 400 for a `NaN` id, otherwise 500 "Failed to update hobby", whatever the body |
| HomeworkServer.HobbyServer.Delete | src/server-homework.ts:350-384 | 400 for a `NaN` id, otherwise 500 "Failed to delete hobby" |

## Left out

- Fastify plumbing is not modelled: CORS registration, `listen`/`close`, logging, the global error handler, `process.exit` and `createServer`. None of it affects the routes' decisions.
- Only the framework's query schema is modelled, as a precondition on the list routes: `page` at least 1 and `limit` between 1 and 100. The body schemas and the id pattern `^[0-9]+$` are not assumed. The handlers take any text as id and any present, `null` or missing field.
- Fractional `page` and `limit` are not modelled. The query schema declares both as `type: 'number'`, which admits fractions, but the model takes whole numbers. With `page=1.5` and `limit=10` the source computes `skip = 5` (src/repository.ts:26), and a non-integer `skip` or `take` makes the storage client throw, so the list route answers 500 "Failed to fetch hobbies".
- Body fields that are not strings (such as a numeric name) are not representable. In the source, a truthy non-string name makes `trim` throw, which gives 500.
- The database is replaced by an in-memory table:
  - timestamps are readings of an integer clock;
  - `mode: 'insensitive'` is ASCII lower-casing on both sides;
  - read errors of a real database are covered only by the routes' outcome parameters, since the in-memory reads never throw.
- The reference server's in-memory table starts empty. The source's constructor opens a client on a persistent database, which may already hold rows (for example those a seed script inserts). Every server method is stated for any valid table, so only `ReferenceServer.HobbyServer.constructor`'s empty table and the enumeration invariant it establishes depend on this choice.
- Ids are unbounded integers. The source's `parseInt` loses precision above 2^53, and an id too large for the id column would make storage throw. Neither is modelled.
- `Promise.all` in the list route is modelled as two sequential reads of the same state, `findAll` then `count`.
- `Math.ceil(total / limit)` on floating point is modelled as integer ceiling division.
- Compile-time-only declarations are not modelled: `HobbyKeys`, `OptionalHobby`, `NonNullable`, `HobbyWithoutNull`, `HobbyStatistics`, `HobbyWithStats`, `HobbyValidator`, `HobbyTransformer` and the `Repository` interface.
- The homework update route never adds to its error list, so its 400 branch for errors cannot run; `HomeworkServer.UpdateRoute` leaves that branch out.
- The homework list, get and delete handlers are the same code as the reference ones. The homework server calls `ReferenceServer.ListRoute`, `ReferenceServer.GetRoute` and `ReferenceServer.DeleteRoute`.
- `prisma/seed.ts` and the test files are not part of this model.
