/**
 * What the route handlers share: the authentication input, the JSON responses, and the
 * body validation of the bulk-update routes.
 */
module Api {
  import opened Basics

  /** The user `auth.getUser()` returns. */
  datatype User = User(email: Option<string>)

  /**
   * The authentication input of a request: the `authorization` header (absent is `None`) and the
   * user the token yields (`None` when `getUser` reports an error or no user).
   */
  datatype Auth = Auth(header: Option<string>, user: Option<User>)

  /** `if (!authHeader)` fails for a missing header and for an empty one. */
  predicate HasHeader(a: Auth)
  {
    a.header.Some? && a.header.value != ""
  }

  /** `user.email || ''`. */
  function ModifierEmail(u: User): string
  {
    if u.email.Some? then u.email.value else ""
  }

  /** A JSON response: a 200 body, or an error status with its `error` message. */
  datatype Response<T> = Ok(body: T) | Error(status: nat, message: string)

  const NoHeader := "No authorization header"
  const InvalidToken := "Invalid or expired token"
  const InternalError := "Internal server error"
  const NumbersRequired := "Registration numbers array is required"
  const RoundRequired := "Valid round number (1-3) is required"

  /** The auth gate at the top of every authenticated route. */
  function Authenticate(a: Auth): (r: Response<User>)
    ensures r.Ok? <==> HasHeader(a) && a.user.Some?
    ensures r.Ok? ==> Some(r.body) == a.user
    ensures r.Error? ==> r.status == 401
    ensures r.Error? ==> (r.message == NoHeader <==> !HasHeader(a))
  {
    if !HasHeader(a) then Error(401, NoHeader)
    else if a.user.None? then Error(401, InvalidToken)
    else Ok(a.user.value)
  }

  /**
   * The body `req.json()` produced: `Unparsable` when it throws; otherwise the two fields,
   * `None` for a field that is absent (or, for the list, not an array).
   */
  datatype RequestBody = Unparsable | Json(registrationNumbers: Option<seq<string>>, round: Option<int>)

  /** A bulk-update request that passed validation. */
  datatype BulkRequest = BulkRequest(numbers: seq<string>, round: int)

  /** A round the bulk updates accept: present, non-zero and within 1..3. */
  predicate ValidRound(round: Option<int>)
  {
    round.Some? && round.value != 0 && 1 <= round.value <= 3
  }

  /** A list the bulk updates accept: present and non-empty. */
  predicate ValidNumbers(numbers: Option<seq<string>>)
  {
    numbers.Some? && |numbers.value| > 0
  }

  /**
   * Body validation of the bulk-update routes: an unreadable body ends in the catch-all 500,
   * the list is checked before the round, and both failures are 400.
   */
  function Validate(body: RequestBody): (r: Response<BulkRequest>)
    ensures r.Ok? <==> body.Json? && ValidNumbers(body.registrationNumbers) && ValidRound(body.round)
    ensures r.Ok? ==> r.body.numbers == body.registrationNumbers.value && r.body.round == body.round.value
    ensures r.Ok? ==> |r.body.numbers| > 0 && 1 <= r.body.round <= 3
    ensures body.Unparsable? ==> r == Error(500, InternalError)
    ensures body.Json? && !ValidNumbers(body.registrationNumbers) ==> r == Error(400, NumbersRequired)
    ensures body.Json? && ValidNumbers(body.registrationNumbers) && !ValidRound(body.round) ==>
              r == Error(400, RoundRequired)
  {
    match body
    case Unparsable => Error(500, InternalError)
    case Json(numbers, round) =>
      if !ValidNumbers(numbers) then Error(400, NumbersRequired)
      else if !ValidRound(round) then Error(400, RoundRequired)
      else Ok(BulkRequest(numbers.value, round.value))
  }
}
