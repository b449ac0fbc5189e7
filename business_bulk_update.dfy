/**
 * POST /api/business-bulk-update: authenticate, validate, fetch the requested rows, classify
 * each row's two domain slots by "business", stamp the round and the audit columns slot by slot
 * in two separate UPDATE statements, and return the requested rows as they are afterwards.
 */
module BusinessBulkUpdate {
  import opened Basics
  import opened Store
  import opened Api

  const Business := "business"

  /** Which store statement fails, with the message the store reports; `None` means it succeeds. */
  datatype Faults = Faults(fetch: Option<string>, slot1Update: Option<string>, slot2Update: Option<string>, refetch: Option<string>)

  const NoFaults := Faults(None, None, None, None)

  /** The response together with the table the request leaves behind. */
  datatype Outcome = Outcome(response: Response<seq<Row>>, table: seq<Row>)

  datatype Slot = Slot1 | Slot2

  /** The in-code slot test of the route. */
  predicate InSlot(r: Row, s: Slot)
  {
    if s == Slot1 then Slot1Matches(r, Business) else Slot2Matches(r, Business)
  }

  /** `currentRecords.filter(<slot test>).map(r => r.registration_number)`. */
  function SlotNumbers(current: seq<Row>, s: Slot): (ns: seq<string>)
    ensures |ns| <= |current|
    ensures forall x :: x in ns <==> exists r :: r in current && InSlot(r, s) && r.registrationNumber == x
    decreases |current|
  {
    if current == [] then []
    else
      var last := current[|current| - 1];
      var init := SlotNumbers(current[..|current| - 1], s);
      assert current == current[..|current| - 1] + [last];
      if InSlot(last, s) then init + [last.registrationNumber] else init
  }

  /** The update object of a slot: its round column, `modified_at` and its `modified_by` column. */
  function Stamp(s: Slot, round: int, now: string, email: string): Patch
  {
    if s == Slot1 then SetDomain1Round(round, now, email) else SetDomain2Round(round, now, email)
  }

  /** A slot phase's table effect: no statement for an empty list, else an update scoped to its numbers. */
  function StampSlot(t: seq<Row>, numbers: seq<string>, s: Slot, round: int, now: string, email: string): seq<Row>
  {
    if |numbers| > 0 then Updated(t, ByNumbers(numbers), Stamp(s, round, now, email)) else t
  }

  /** Steps after validation: fetch, slot-1 phase, slot-2 phase, re-fetch, each able to fail. */
  function Advance(t: seq<Row>, req: BulkRequest, now: string, email: string, faults: Faults): (o: Outcome)
    ensures o.response.Error? ==> o.response.status == 500
    ensures SameIdentities(t, o.table)
    ensures faults.fetch.Some? ==> o.table == t
    ensures faults == NoFaults ==> o.response.Ok?
    ensures o.response.Ok? ==>
              forall x :: x in o.response.body <==> x in o.table && x.registrationNumber in req.numbers
  {
    if faults.fetch.Some? then Outcome(Error(500, faults.fetch.value), t)
    else
      var current := Selected(t, ByNumbers(req.numbers));
      var numbers1 := SlotNumbers(current, Slot1);
      if |numbers1| > 0 && faults.slot1Update.Some? then Outcome(Error(500, faults.slot1Update.value), t)
      else
        var t1 := StampSlot(t, numbers1, Slot1, req.round, now, email);
        var numbers2 := SlotNumbers(current, Slot2);
        if |numbers2| > 0 && faults.slot2Update.Some? then Outcome(Error(500, faults.slot2Update.value), t1)
        else
          var t2 := StampSlot(t1, numbers2, Slot2, req.round, now, email);
          if faults.refetch.Some? then Outcome(Error(500, faults.refetch.value), t2)
          else Outcome(Ok(Selected(t2, ByNumbers(req.numbers))), t2)
  }

  /** The whole route on table `t`, with `now` the request's single timestamp. */
  function PostOutcome(t: seq<Row>, auth: Auth, body: RequestBody, now: string, faults: Faults): (o: Outcome)
    ensures (o.response.Error? && o.response.status == 401) <==> Authenticate(auth).Error?
    ensures Authenticate(auth).Ok? && Validate(body).Ok? && faults == NoFaults ==> o.response.Ok?
    ensures SameIdentities(t, o.table)
    ensures o.response.Error? && o.response.status != 500 ==> o.table == t
  {
    match Authenticate(auth)
    case Error(status, message) => Outcome(Error(status, message), t)
    case Ok(user) =>
      match Validate(body)
      case Error(status, message) => Outcome(Error(status, message), t)
      case Ok(req) => Advance(t, req, now, ModifierEmail(user), faults)
  }

  /** The handler against the store, with its early returns. */
  method Post(db: Table, auth: Auth, body: RequestBody, now: string, faults: Faults)
    returns (response: Response<seq<Row>>)
    modifies db.rows
    ensures response == PostOutcome(old(db.rows[..]), auth, body, now, faults).response
    ensures db.rows[..] == PostOutcome(old(db.rows[..]), auth, body, now, faults).table
  {
    var gate := Authenticate(auth);
    if gate.Error? {
      return Error(gate.status, gate.message);
    }
    var email := ModifierEmail(gate.body);
    var checked := Validate(body);
    if checked.Error? {
      return Error(checked.status, checked.message);
    }
    var req := checked.body;
    if faults.fetch.Some? {
      return Error(500, faults.fetch.value);
    }
    var current := db.Select(ByNumbers(req.numbers));
    var numbers1 := SlotNumbers(current, Slot1);
    if |numbers1| > 0 {
      if faults.slot1Update.Some? {
        return Error(500, faults.slot1Update.value);
      }
      db.Update(ByNumbers(numbers1), Stamp(Slot1, req.round, now, email));
    }
    var numbers2 := SlotNumbers(current, Slot2);
    if |numbers2| > 0 {
      if faults.slot2Update.Some? {
        return Error(500, faults.slot2Update.value);
      }
      db.Update(ByNumbers(numbers2), Stamp(Slot2, req.round, now, email));
    }
    if faults.refetch.Some? {
      return Error(500, faults.refetch.value);
    }
    var updated := db.Select(ByNumbers(req.numbers));
    response := Ok(updated);
  }

  // ================================================================ properties

  /** The body lists `x` among its registration numbers. */
  predicate Requested(body: RequestBody, x: string)
  {
    body.Json? && body.registrationNumbers.Some? && x in body.registrationNumbers.value
  }

  /** A missing header or a token without a user is a 401 and the table is not touched. */
  lemma UnauthenticatedIsRejected(t: seq<Row>, auth: Auth, body: RequestBody, now: string, faults: Faults)
    requires !HasHeader(auth) || auth.user.None?
    ensures PostOutcome(t, auth, body, now, faults).table == t
    ensures PostOutcome(t, auth, body, now, faults).response ==
              Error(401, if !HasHeader(auth) then NoHeader else InvalidToken)
  {
  }

  /**
   * An authenticated request with a missing or empty list, or with a round outside 1..3,
   * is a 400 (the list being checked first) and the table is not touched.
   */
  lemma InvalidBodyIsRejected(t: seq<Row>, auth: Auth, numbers: Option<seq<string>>, round: Option<int>,
                              now: string, faults: Faults)
    requires HasHeader(auth) && auth.user.Some?
    requires !ValidNumbers(numbers) || !ValidRound(round)
    ensures PostOutcome(t, auth, Json(numbers, round), now, faults).table == t
    ensures PostOutcome(t, auth, Json(numbers, round), now, faults).response ==
              Error(400, if !ValidNumbers(numbers) then NumbersRequired else RoundRequired)
  {
  }

  /** Row `k` is in a slot's update list exactly when it was requested and that slot matches. */
  lemma {:induction false} SlotNumbersOfRow(t: seq<Row>, numbers: seq<string>, s: Slot, k: int)
    requires UniqueNumbers(t) && 0 <= k < |t|
    ensures t[k].registrationNumber in SlotNumbers(Selected(t, ByNumbers(numbers)), s) <==>
            t[k].registrationNumber in numbers && InSlot(t[k], s)
  {
    var current := Selected(t, ByNumbers(numbers));
    var x := t[k].registrationNumber;
    if x in SlotNumbers(current, s) {
      var r :| r in current && InSlot(r, s) && r.registrationNumber == x;
      var j :| 0 <= j < |t| && t[j] == r;
      assert j == k;
    }
    if x in numbers && InSlot(t[k], s) {
      assert t[k] in current;
    }
  }

  /** Only requested numbers are ever put in a slot's update list. */
  lemma SlotNumbersAreRequested(t: seq<Row>, numbers: seq<string>, s: Slot, x: string)
    requires x in SlotNumbers(Selected(t, ByNumbers(numbers)), s)
    ensures x in numbers
  {
  }

  lemma StampSlotAt(t: seq<Row>, numbers: seq<string>, s: Slot, round: int, now: string, email: string, k: int)
    requires 0 <= k < |t|
    ensures |StampSlot(t, numbers, s, round, now, email)| == |t|
    ensures StampSlot(t, numbers, s, round, now, email)[k] ==
              UpdateRow(t[k], ByNumbers(numbers), Stamp(s, round, now, email))
  {
  }

  /**
   * Whatever the outcome (success or any failure), names, contact details and domain labels keep
   * their values, and a row whose number was not requested is left exactly as it was.
   */
  lemma {:induction false} PostFrame(t: seq<Row>, auth: Auth, body: RequestBody, now: string, faults: Faults)
    ensures SameIdentities(t, PostOutcome(t, auth, body, now, faults).table)
    ensures forall k :: 0 <= k < |t| && !Requested(body, t[k].registrationNumber) ==>
              PostOutcome(t, auth, body, now, faults).table[k] == t[k]
  {
    var o := PostOutcome(t, auth, body, now, faults);
    if Authenticate(auth).Ok? && Validate(body).Ok? {
      var req := Validate(body).body;
      var email := ModifierEmail(Authenticate(auth).body);
      var current := Selected(t, ByNumbers(req.numbers));
      var numbers1 := SlotNumbers(current, Slot1);
      var numbers2 := SlotNumbers(current, Slot2);
      var t1 := StampSlot(t, numbers1, Slot1, req.round, now, email);
      var t2 := StampSlot(t1, numbers2, Slot2, req.round, now, email);
      assert o.table == t || o.table == t1 || o.table == t2;
      forall k | 0 <= k < |t|
        ensures SameIdentity(t[k], t1[k]) && SameIdentity(t[k], t2[k])
        ensures t[k].registrationNumber !in req.numbers ==> t1[k] == t[k] && t2[k] == t[k]
      {
        StampSlotAt(t, numbers1, Slot1, req.round, now, email, k);
        StampSlotAt(t1, numbers2, Slot2, req.round, now, email, k);
        if t[k].registrationNumber in numbers1 {
          SlotNumbersAreRequested(t, req.numbers, Slot1, t[k].registrationNumber);
        }
        if t[k].registrationNumber in numbers2 {
          SlotNumbersAreRequested(t, req.numbers, Slot2, t[k].registrationNumber);
        }
      }
    }
  }

  /** The per-row result the route is meant to produce: each matching slot of a requested row is advanced. */
  function Advanced(r: Row, numbers: seq<string>, round: int, now: string, email: string): Row
  {
    var in1 := r.registrationNumber in numbers && InSlot(r, Slot1);
    var in2 := r.registrationNumber in numbers && InSlot(r, Slot2);
    r.(domain1Round := if in1 then round else r.domain1Round,
       domain2Round := if in2 then Some(round) else r.domain2Round,
       modifiedAt := if in1 || in2 then Some(now) else r.modifiedAt,
       modifiedBy1 := if in1 then Some(email) else r.modifiedBy1,
       modifiedBy2 := if in2 then Some(email) else r.modifiedBy2)
  }

  /**
   * Slot attribution: when registration numbers identify rows and the request succeeds, every row
   * ends up exactly as `Advanced` says: `domain1_round` and `modified_by1` change exactly when it was
   * requested and its slot 1 mentions business, the slot-2 columns likewise, and `modified_at` is the
   * request's timestamp when either slot changed.
   */
  lemma {:induction false} PostAttributesSlots(t: seq<Row>, auth: Auth, body: RequestBody, now: string, faults: Faults)
    requires UniqueNumbers(t)
    requires PostOutcome(t, auth, body, now, faults).response.Ok?
    ensures var o := PostOutcome(t, auth, body, now, faults);
            |o.table| == |t| &&
            forall k :: 0 <= k < |t| ==>
              o.table[k] == Advanced(t[k], body.registrationNumbers.value, body.round.value, now,
                                     ModifierEmail(auth.user.value))
  {
    var req := Validate(body).body;
    var email := ModifierEmail(auth.user.value);
    var current := Selected(t, ByNumbers(req.numbers));
    var numbers1 := SlotNumbers(current, Slot1);
    var numbers2 := SlotNumbers(current, Slot2);
    var t1 := StampSlot(t, numbers1, Slot1, req.round, now, email);
    var t2 := StampSlot(t1, numbers2, Slot2, req.round, now, email);
    assert PostOutcome(t, auth, body, now, faults).table == t2;
    forall k | 0 <= k < |t|
      ensures t2[k] == Advanced(t[k], req.numbers, req.round, now, email)
    {
      SlotNumbersOfRow(t, req.numbers, Slot1, k);
      SlotNumbersOfRow(t, req.numbers, Slot2, k);
      StampSlotAt(t, numbers1, Slot1, req.round, now, email, k);
      StampSlotAt(t1, numbers2, Slot2, req.round, now, email, k);
    }
  }

  /** A successful response is the requested rows of the new table, whatever their domains. */
  lemma ResponseIsRequestedRows(t: seq<Row>, auth: Auth, body: RequestBody, now: string, faults: Faults)
    requires PostOutcome(t, auth, body, now, faults).response.Ok?
    ensures var o := PostOutcome(t, auth, body, now, faults);
            IsSubsequence(o.response.body, o.table) &&
            (forall x :: x in o.response.body <==> x in o.table && x.registrationNumber in body.registrationNumbers.value) &&
            forall x :: multiset(o.response.body)[x] ==
                         if x.registrationNumber in body.registrationNumbers.value then multiset(o.table)[x] else 0
  {
    var o := PostOutcome(t, auth, body, now, faults);
    SelectedMultiplicity(o.table, ByNumbers(body.registrationNumbers.value));
  }

  /** A failing initial fetch is a 500 with the store's message, and nothing changes. */
  lemma FetchFailureChangesNothing(t: seq<Row>, auth: Auth, body: RequestBody, now: string, faults: Faults)
    requires HasHeader(auth) && auth.user.Some? && Validate(body).Ok?
    requires faults.fetch.Some?
    ensures PostOutcome(t, auth, body, now, faults) == Outcome(Error(500, faults.fetch.value), t)
  {
  }

  /** A requested row whose slot `s` mentions business puts a number on that slot's update list. */
  lemma MatchingRowListsSlot(t: seq<Row>, numbers: seq<string>, s: Slot, k: int)
    requires 0 <= k < |t| && t[k].registrationNumber in numbers && InSlot(t[k], s)
    ensures |SlotNumbers(Selected(t, ByNumbers(numbers)), s)| > 0
  {
    assert t[k] in Selected(t, ByNumbers(numbers));
    assert t[k].registrationNumber in SlotNumbers(Selected(t, ByNumbers(numbers)), s);
  }

  /**
   * Non-atomicity: when the slot-1 update fails nothing changes and slot 2 is never tried; when
   * the slot-2 update fails the slot-1 changes stay in the table.
   */
  lemma {:induction false} UpdateFailures(t: seq<Row>, auth: Auth, body: RequestBody, now: string, faults: Faults, k: int)
    requires HasHeader(auth) && auth.user.Some? && Validate(body).Ok? && faults.fetch.None?
    requires 0 <= k < |t| && t[k].registrationNumber in body.registrationNumbers.value
    ensures InSlot(t[k], Slot1) && faults.slot1Update.Some? ==>
              PostOutcome(t, auth, body, now, faults) == Outcome(Error(500, faults.slot1Update.value), t)
    ensures InSlot(t[k], Slot2) && faults.slot1Update.None? && faults.slot2Update.Some? ==>
              var slot1 := SlotNumbers(Selected(t, ByNumbers(body.registrationNumbers.value)), Slot1);
              PostOutcome(t, auth, body, now, faults) ==
              Outcome(Error(500, faults.slot2Update.value),
                      StampSlot(t, slot1, Slot1, body.round.value, now, ModifierEmail(auth.user.value)))
  {
    var numbers := body.registrationNumbers.value;
    if InSlot(t[k], Slot1) {
      MatchingRowListsSlot(t, numbers, Slot1, k);
    }
    if InSlot(t[k], Slot2) {
      MatchingRowListsSlot(t, numbers, Slot2, k);
    }
  }

  /** The faults with slot `s`'s update statement made to succeed. */
  function WithoutSlotFault(faults: Faults, s: Slot): Faults
  {
    if s == Slot1 then faults.(slot1Update := None) else faults.(slot2Update := None)
  }

  /** No update statement is issued for a slot no requested row matches, so that slot's failure cannot surface. */
  lemma {:induction false} EmptySlotIssuesNoUpdate(t: seq<Row>, auth: Auth, body: RequestBody, now: string, faults: Faults, s: Slot)
    requires body.Json? && body.registrationNumbers.Some?
    requires forall k :: 0 <= k < |t| && t[k].registrationNumber in body.registrationNumbers.value ==>
               !InSlot(t[k], s)
    ensures PostOutcome(t, auth, body, now, faults) == PostOutcome(t, auth, body, now, WithoutSlotFault(faults, s))
  {
    var current := Selected(t, ByNumbers(body.registrationNumbers.value));
    forall r | r in current ensures !InSlot(r, s) {
      var k :| 0 <= k < |t| && t[k] == r;
    }
    NoMatchNoNumbers(current, s);
  }

  lemma {:induction false} NoMatchNoNumbers(current: seq<Row>, s: Slot)
    requires forall r :: r in current ==> !InSlot(r, s)
    ensures SlotNumbers(current, s) == []
    decreases |current|
  {
    if current != [] {
      NoMatchNoNumbers(current[..|current| - 1], s);
    }
  }

  // ---------------------------------------------------------------- idempotence

  lemma {:induction false} SlotNumbersSameIdentities(a: seq<Row>, b: seq<Row>, s: Slot)
    requires SameIdentities(a, b)
    ensures SlotNumbers(a, s) == SlotNumbers(b, s)
    decreases |a|
  {
    if a != [] {
      var n := |a| - 1;
      SlotNumbersSameIdentities(a[..n], b[..n], s);
      assert SameIdentity(a[n], b[n]);
    }
  }

  /** Stamping both slots twice gives what stamping them once gave: values are assigned, not added. */
  lemma StampTwice(r: Row, n1: seq<string>, n2: seq<string>, round: int, now: string, email: string)
    ensures var f1 := ByNumbers(n1); var f2 := ByNumbers(n2);
            var p1 := Stamp(Slot1, round, now, email); var p2 := Stamp(Slot2, round, now, email);
            var once := UpdateRow(UpdateRow(r, f1, p1), f2, p2);
            UpdateRow(UpdateRow(once, f1, p1), f2, p2) == once
  {
  }

  /**
   * Repeating a successful request with the same list, round, timestamp and user on the table it
   * produced (and no store failure) leaves that table as it is and returns the same rows.
   */
  lemma {:induction false} PostIdempotent(t: seq<Row>, auth: Auth, body: RequestBody, now: string, faults: Faults)
    requires PostOutcome(t, auth, body, now, faults).response.Ok?
    ensures var o := PostOutcome(t, auth, body, now, faults);
            PostOutcome(o.table, auth, body, now, NoFaults) == o
  {
    var o := PostOutcome(t, auth, body, now, faults);
    var req := Validate(body).body;
    var email := ModifierEmail(auth.user.value);
    var current := Selected(t, ByNumbers(req.numbers));
    var numbers1 := SlotNumbers(current, Slot1);
    var numbers2 := SlotNumbers(current, Slot2);
    var t1 := StampSlot(t, numbers1, Slot1, req.round, now, email);
    var t2 := StampSlot(t1, numbers2, Slot2, req.round, now, email);
    assert o.table == t2;
    PostFrame(t, auth, body, now, faults);
    SelectedSameIdentities(t, t2, ByNumbers(req.numbers));
    var current' := Selected(t2, ByNumbers(req.numbers));
    SlotNumbersSameIdentities(current, current', Slot1);
    SlotNumbersSameIdentities(current, current', Slot2);
    var t3 := StampSlot(t2, numbers1, Slot1, req.round, now, email);
    var t4 := StampSlot(t3, numbers2, Slot2, req.round, now, email);
    forall k | 0 <= k < |t|
      ensures t4[k] == t2[k]
    {
      StampSlotAt(t, numbers1, Slot1, req.round, now, email, k);
      StampSlotAt(t1, numbers2, Slot2, req.round, now, email, k);
      StampSlotAt(t2, numbers1, Slot1, req.round, now, email, k);
      StampSlotAt(t3, numbers2, Slot2, req.round, now, email, k);
      StampTwice(t[k], numbers1, numbers2, req.round, now, email);
    }
    assert t4 == t2;
    assert PostOutcome(t2, auth, body, now, NoFaults).table == t4;
  }

  // ---------------------------------------------------------------- data invariant

  /** A stamp with a round in 1..3 keeps every row well formed, if slot 2 is only stamped where a label exists. */
  lemma StampSlotKeepsWellFormed(t: seq<Row>, numbers: seq<string>, s: Slot, round: int, now: string, email: string)
    requires WellFormed(t) && 1 <= round <= 3
    requires s == Slot2 ==> forall k :: 0 <= k < |t| && t[k].registrationNumber in numbers ==> t[k].domain2.Some?
    ensures WellFormed(StampSlot(t, numbers, s, round, now, email))
  {
    var t' := StampSlot(t, numbers, s, round, now, email);
    forall k | 0 <= k < |t| ensures WellFormedRow(t'[k]) && SameIdentity(t[k], t'[k]) {
      StampSlotAt(t, numbers, s, round, now, email, k);
    }
  }

  /**
   * Every outcome keeps the table well formed: unique numbers, a non-empty slot-1 label, rounds in
   * 1..3, and no slot-2 round on a row without a slot-2 label.
   */
  lemma {:induction false} PostKeepsWellFormed(t: seq<Row>, auth: Auth, body: RequestBody, now: string, faults: Faults)
    requires WellFormed(t)
    ensures WellFormed(PostOutcome(t, auth, body, now, faults).table)
  {
    if Authenticate(auth).Ok? && Validate(body).Ok? {
      var req := Validate(body).body;
      var email := ModifierEmail(auth.user.value);
      var current := Selected(t, ByNumbers(req.numbers));
      var numbers1 := SlotNumbers(current, Slot1);
      var numbers2 := SlotNumbers(current, Slot2);
      StampSlotKeepsWellFormed(t, numbers1, Slot1, req.round, now, email);
      var t1 := StampSlot(t, numbers1, Slot1, req.round, now, email);
      forall k | 0 <= k < |t1| && t1[k].registrationNumber in numbers2
        ensures t1[k].domain2.Some?
      {
        StampSlotAt(t, numbers1, Slot1, req.round, now, email, k);
        SlotNumbersOfRow(t, req.numbers, Slot2, k);
      }
      StampSlotKeepsWellFormed(t1, numbers2, Slot2, req.round, now, email);
    }
  }
}
