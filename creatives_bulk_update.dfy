/**
 * POST /api/creatives-bulk-update: authenticate, validate, set the legacy `round` column on the
 * requested rows that mention "creatives" in either slot, and answer with those rows re-read.
 */
module CreativesBulkUpdate {
  import opened Basics
  import opened Store
  import opened Api

  const Creatives := "creatives"

  /** Which store statement fails, with the store's message; `None` means it succeeds. */
  datatype Faults = Faults(update: Option<string>, refetch: Option<string>)

  const NoFaults := Faults(None, None)

  datatype Outcome = Outcome(response: Response<seq<Row>>, table: seq<Row>)

  /** The scope of both the update and the re-fetch. */
  function Scope(req: BulkRequest): Filter
  {
    ByNumbersInDomain(req.numbers, Creatives)
  }

  /** The whole route on table `t`. */
  function PostOutcome(t: seq<Row>, auth: Auth, body: RequestBody, faults: Faults): (o: Outcome)
    ensures o.response.Ok? <==>
              Authenticate(auth).Ok? && Validate(body).Ok? && faults.update.None? && faults.refetch.None?
    ensures (o.response.Error? && o.response.status == 401) <==> Authenticate(auth).Error?
    ensures |o.table| == |t|
    ensures Authenticate(auth).Error? || Validate(body).Error? || faults.update.Some? ==> o.table == t
  {
    match Authenticate(auth)
    case Error(status, message) => Outcome(Error(status, message), t)
    case Ok(_) =>
      match Validate(body)
      case Error(status, message) => Outcome(Error(status, message), t)
      case Ok(req) =>
        if faults.update.Some? then Outcome(Error(500, faults.update.value), t)
        else
          var t1 := Updated(t, Scope(req), SetRound(req.round));
          if faults.refetch.Some? then Outcome(Error(500, faults.refetch.value), t1)
          else Outcome(Ok(Selected(t1, Scope(req))), t1)
  }

  /** The handler against the store. */
  method Post(db: Table, auth: Auth, body: RequestBody, faults: Faults) returns (response: Response<seq<Row>>)
    modifies db.rows
    ensures response == PostOutcome(old(db.rows[..]), auth, body, faults).response
    ensures db.rows[..] == PostOutcome(old(db.rows[..]), auth, body, faults).table
  {
    var user := Authenticate(auth);
    if user.Error? {
      return Error(user.status, user.message);
    }
    var checked := Validate(body);
    if checked.Error? {
      return Error(checked.status, checked.message);
    }
    var req := checked.body;
    if faults.update.Some? {
      return Error(500, faults.update.value);
    }
    db.Update(Scope(req), SetRound(req.round));
    if faults.refetch.Some? {
      return Error(500, faults.refetch.value);
    }
    var updated := db.Select(Scope(req));
    response := Ok(updated);
  }

  // ================================================================ properties

  /** Without a usable header and user the answer is 401 and the table is not touched. */
  lemma UnauthenticatedIsRejected(t: seq<Row>, auth: Auth, body: RequestBody, faults: Faults)
    requires !HasHeader(auth) || auth.user.None?
    ensures PostOutcome(t, auth, body, faults).table == t
    ensures PostOutcome(t, auth, body, faults).response.Error?
    ensures PostOutcome(t, auth, body, faults).response.status == 401
  {
  }

  /**
   * An authenticated request with a body that fails validation is answered before any store
   * access: 500 for an unreadable body, 400 otherwise, the faults playing no part.
   */
  lemma InvalidBodyTouchesNothing(t: seq<Row>, auth: Auth, body: RequestBody, faults: Faults)
    requires Authenticate(auth).Ok? && Validate(body).Error?
    ensures PostOutcome(t, auth, body, faults).table == t
    ensures PostOutcome(t, auth, body, faults).response.Error?
    ensures PostOutcome(t, auth, body, faults).response.status == (if body.Unparsable? then 500 else 400)
    ensures PostOutcome(t, auth, body, faults) == PostOutcome(t, auth, body, NoFaults)
  {
  }

  /**
   * Only the legacy `round` is written, exactly on the requested rows that mention creatives;
   * the audit columns `modified_*` and every other row are left as they were.
   */
  lemma {:induction false} UpdateScope(t: seq<Row>, auth: Auth, body: RequestBody, faults: Faults)
    requires Authenticate(auth).Ok? && Validate(body).Ok? && faults.update.None?
    ensures var o := PostOutcome(t, auth, body, faults);
            |o.table| == |t| &&
            forall k :: 0 <= k < |t| ==>
              o.table[k] == if t[k].registrationNumber in body.registrationNumbers.value && MentionsDomain(t[k], Creatives)
                            then t[k].(round := body.round.value) else t[k]
  {
  }

  /** A failed update is a 500 with the store's message, no re-fetch and no change. */
  lemma StoreErrors(t: seq<Row>, auth: Auth, body: RequestBody, faults: Faults)
    requires Authenticate(auth).Ok? && Validate(body).Ok?
    ensures faults.update.Some? ==> PostOutcome(t, auth, body, faults) == Outcome(Error(500, faults.update.value), t)
    ensures faults.update.None? && faults.refetch.Some? ==>
              PostOutcome(t, auth, body, faults).response == Error(500, faults.refetch.value)
  {
  }

  /**
   * The answer lists, in table order, the requested rows that mention creatives, each carrying
   * the requested round.
   */
  lemma {:induction false} ResponseIsUpdatedScope(t: seq<Row>, auth: Auth, body: RequestBody, faults: Faults)
    requires PostOutcome(t, auth, body, faults).response.Ok?
    ensures var rows := PostOutcome(t, auth, body, faults).response.body;
            SameIdentities(rows, Selected(t, ByNumbersInDomain(body.registrationNumbers.value, Creatives))) &&
            forall x :: x in rows ==> x.round == body.round.value && x.registrationNumber in body.registrationNumbers.value
  {
    var req := Validate(body).body;
    var t1 := Updated(t, Scope(req), SetRound(req.round));
    SelectedSameIdentities(t1, t, Scope(req));
    SelectedAfterSetRound(t, Scope(req), req.round);
    var rows := Selected(t1, Scope(req));
    var orig := Selected(t, Scope(req));
    assert SameIdentities(rows, orig) by {
      forall k | 0 <= k < |rows| ensures SameIdentity(rows[k], orig[k]) {
        assert SameIdentity(orig[k], rows[k]);
      }
    }
  }

  /** Repeating the request on the table it left (with no store failure) changes nothing and answers alike. */
  lemma PostIdempotent(t: seq<Row>, auth: Auth, body: RequestBody, faults: Faults)
    requires PostOutcome(t, auth, body, faults).response.Ok?
    ensures var o := PostOutcome(t, auth, body, faults);
            PostOutcome(o.table, auth, body, NoFaults) == o
  {
    var req := Validate(body).body;
    SetRoundIdempotent(t, Scope(req), req.round);
  }
}
