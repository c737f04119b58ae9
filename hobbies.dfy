/** The shapes shared by both copies of the service: the stored record, the
    request bodies and query, the response envelope, what a storage call
    answers, and the fixed message strings the service sends. */
module Hobbies {
  import opened Wrappers

  /** A stored hobby. `createdAt` and `updatedAt` are readings of the
      repository's logical clock. */
  datatype Hobby = Hobby(
    id: int,
    name: string,
    description: Option<string>,
    difficulty: string,
    category: string,
    isActive: bool,
    createdAt: int,
    updatedAt: int)

  /** A request body as it reaches the service: every field may be missing,
      `null`, or carry a value. */
  datatype HobbyInput = HobbyInput(
    name: Field<string>,
    description: Field<string>,
    difficulty: Field<string>,
    category: Field<string>,
    isActive: Field<bool>)

  /** Body of a create request (name, difficulty and category are expected). */
  type CreateHobbyInput = HobbyInput

  /** Body of an update request (every field optional). */
  type HobbyUpdateInput = HobbyInput

  /** The list query. `isActive` is `None` for an absent flag and for any
      value that is not a boolean, which the repository treats alike. */
  datatype HobbyQueryParams = HobbyQueryParams(
    page: Option<int>,
    limit: Option<int>,
    category: Field<string>,
    difficulty: Field<string>,
    isActive: Option<bool>,
    search: Field<string>)

  /** What the route's query schema admits: `page` at least 1, `limit`
      between 1 and 100, when present. */
  predicate QuerySchemaOk(q: HobbyQueryParams)
  {
    && (q.page.None? || q.page.value >= 1)
    && (q.limit.None? || 1 <= q.limit.value <= 100)
  }

  datatype PaginatedResponse = PaginatedResponse(
    data: seq<Hobby>,
    total: int,
    page: int,
    limit: int,
    totalPages: int)

  /** The `data` member of an envelope: missing, `null`, one hobby, or a page. */
  datatype Payload = NoData | NullData | OneHobby(hobby: Hobby) | PageOf(page: PaginatedResponse)

  /** The response envelope `{ success, data?, error?, message? }`. */
  datatype ApiResponse = ApiResponse(
    success: bool,
    data: Payload,
    error: Option<string>,
    message: Option<string>)

  /** A failure envelope `{ success: false, error }`. */
  function Failure(error: string): ApiResponse
  {
    ApiResponse(false, NoData, Some(error), None)
  }

  /** A success envelope `{ success: true, data, message }`. */
  function Success(data: Payload, message: string): ApiResponse
  {
    ApiResponse(true, data, None, Some(message))
  }

  /** What a route handler sends: the status code set on the reply (200 when
      the handler never sets one) and the envelope it returns. */
  datatype Reply = Reply(status: int, body: ApiResponse)

  /** An exception raised by a storage call: its `code` property, if any, and
      its text. */
  datatype Thrown = Thrown(code: Option<string>, detail: string)

  /** How a storage call ended: it returned a value or it threw. */
  datatype Outcome<+T> = Returned(value: T) | Threw(error: Thrown)

  /** The storage layer's error code for a unique-constraint violation. */
  const UniqueViolation: string := "P2002"

  // Validation messages.
  const NameRequired: string := "Name is required"
  const InvalidDifficulty: string := "Invalid difficulty level"
  const InvalidCategory: string := "Invalid category"
  const ErrorSeparator: string := ", "

  // Envelope messages.
  const CreatedMessage: string := "Hobby created successfully"
  const RetrievedMessage: string := "Hobby retrieved successfully"
  const UpdatedMessage: string := "Hobby updated successfully"
  const DeletedMessage: string := "Hobby deleted successfully"
  const FailedToCreate: string := "Failed to create hobby"
  const FailedToFetchHobbies: string := "Failed to fetch hobbies"
  const FailedToFetchHobby: string := "Failed to fetch hobby"
  const FailedToUpdate: string := "Failed to update hobby"
  const FailedToDelete: string := "Failed to delete hobby"
  const InvalidHobbyId: string := "Invalid hobby ID"
  const HobbyNotFound: string := "Hobby not found"
  const NameConflict: string := "Hobby with this name already exists"

  /** The fixed error strings of the routes' non-validation failures. */
  const FixedErrors: set<string> :=
    {FailedToCreate, FailedToFetchHobbies, FailedToFetchHobby, FailedToUpdate,
     FailedToDelete, InvalidHobbyId, HobbyNotFound, NameConflict}

  /** The envelope discipline every route keeps: success exactly on a 2xx
      status, a message and no error on success, an error and nothing else on
      failure, and outside validation failures (400 with a joined error
      list) only one of the fixed error strings. */
  predicate WellFormedReply(r: Reply)
  {
    && (r.body.success <==> r.status == 200 || r.status == 201)
    && (r.body.success ==> r.body.error.None? && r.body.message.Some?)
    && (!r.body.success ==> r.body.error.Some? && r.body.message.None? && r.body.data.NoData?)
    && (!r.body.success && r.status != 400 ==> r.body.error.value in FixedErrors)
  }
}
