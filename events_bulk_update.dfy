/**
 * POST /api/events-bulk-update: validate (there is no authentication step), set the legacy `round`
 * column on the requested rows that mention "events", re-read them under the same filter, and
 * report how many were found, which requested numbers were not, and a summary line.
 */
module EventsBulkUpdate {
  import opened Basics
  import opened Text
  import opened Store
  import opened Api

  const Events := "events"

  /** Which store statement fails, with the store's message; `None` means it succeeds. */
  datatype Faults = Faults(update: Option<string>, refetch: Option<string>)

  const NoFaults := Faults(None, None)

  /** The success body (`success: true` is implied by the variant). */
  datatype Summary = Summary(updatedCount: nat, notFound: seq<string>, message: string)

  datatype Outcome = Outcome(response: Response<Summary>, table: seq<Row>)

  /** `registrationNumbers.filter(n => !found.includes(n))`: input order, duplicates kept. */
  function Missing(requested: seq<string>, found: seq<string>): (r: seq<string>)
    ensures IsSubsequence(r, requested)
    ensures forall x :: x in r <==> x in requested && x !in found
    ensures forall x :: multiset(r)[x] == if x in found then 0 else multiset(requested)[x]
    decreases |requested|
  {
    if requested == [] then []
    else
      var last := requested[|requested| - 1];
      var init := Missing(requested[..|requested| - 1], found);
      assert requested == requested[..|requested| - 1] + [last];
      if last !in found then init + [last] else init
  }

  /** `${count} participants moved to Round ${round}`. */
  function Headline(count: nat, round: int): string
  {
    NatToString(count) + " participants moved to Round " + IntToString(round)
  }

  const NotFoundClause := ". Not found: "

  /** The headline, followed by the not-found clause only when some number was not found. */
  function Message(count: nat, round: int, notFound: seq<string>): (m: string)
    ensures Headline(count, round) <= m
    ensures m == Headline(count, round) <==> |notFound| == 0
    ensures forall k :: 0 <= k < |notFound| ==> Contains(m, notFound[k])
    ensures |notFound| > 0 ==> m == Headline(count, round) + NotFoundClause + Join(notFound, ", ")
  {
    var head := Headline(count, round);
    if |notFound| > 0 then
      var tail := NotFoundClause + Join(notFound, ", ");
      ContainsPrependAll(NotFoundClause, Join(notFound, ", "), notFound);
      AppendContaining(head, tail, notFound);
      head + tail
    else head
  }

  /** A single missing number ends the message: `<headline>. Not found: <x>`. */
  lemma MessageOfOneMissing(count: nat, round: int, x: string)
    ensures Message(count, round, [x]) == Headline(count, round) + NotFoundClause + x
  {
  }

  /** Each further missing number is appended after `, `, so the numbers appear in input order. */
  lemma MessageOfOneMoreMissing(count: nat, round: int, notFound: seq<string>, x: string)
    requires notFound != []
    ensures Message(count, round, notFound + [x]) == Message(count, round, notFound) + ", " + x
  {
    JoinSnoc(notFound, x, ", ");
  }

  /** The success body computed from the re-fetched rows. */
  function Summarize(updated: seq<Row>, req: BulkRequest): (s: Summary)
    ensures s.updatedCount == |updated|
    ensures forall x :: x in s.notFound <==>
              x in req.numbers && forall r :: r in updated ==> r.registrationNumber != x
    ensures Headline(s.updatedCount, req.round) <= s.message
    ensures forall x :: x in s.notFound ==> Contains(s.message, x)
    ensures s.message == Message(s.updatedCount, req.round, s.notFound)
  {
    var found := NumbersOf(updated);
    var notFound := Missing(req.numbers, found);
    assert forall x :: x in found <==> exists r :: r in updated && r.registrationNumber == x by {
      forall x ensures x in found <==> exists r :: r in updated && r.registrationNumber == x {
        NumbersOfMembers(updated, x);
      }
    }
    Summary(|found|, notFound, Message(|found|, req.round, notFound))
  }

  /** The scope of both the update and the re-fetch. */
  function Scope(req: BulkRequest): Filter
  {
    ByNumbersInDomain(req.numbers, Events)
  }

  /** The whole route on table `t`. */
  function PostOutcome(t: seq<Row>, body: RequestBody, faults: Faults): (o: Outcome)
    ensures o.response.Ok? <==> Validate(body).Ok? && faults.update.None? && faults.refetch.None?
    ensures o.response.Error? ==> o.response.status == 400 || o.response.status == 500
    ensures |o.table| == |t|
    ensures Validate(body).Error? || faults.update.Some? ==> o.table == t
  {
    match Validate(body)
    case Error(status, message) => Outcome(Error(status, message), t)
    case Ok(req) =>
      if faults.update.Some? then Outcome(Error(500, faults.update.value), t)
      else
        var t1 := Updated(t, Scope(req), SetRound(req.round));
        if faults.refetch.Some? then Outcome(Error(500, faults.refetch.value), t1)
        else Outcome(Ok(Summarize(Selected(t1, Scope(req)), req)), t1)
  }

  /** The handler against the store. */
  method Post(db: Table, body: RequestBody, faults: Faults) returns (response: Response<Summary>)
    modifies db.rows
    ensures response == PostOutcome(old(db.rows[..]), body, faults).response
    ensures db.rows[..] == PostOutcome(old(db.rows[..]), body, faults).table
  {
    var checked := Validate(body);
    if checked.Error? {
      return Error(checked.status, checked.message);
    }
    var req := checked.body;
    if faults.update.Some? {
      return Error(500, faults.update.value);
    }
    db.Update(Scope(req), SetRound(req.round));
    if faults.refetch.Some? {
      return Error(500, faults.refetch.value);
    }
    var updated := db.Select(Scope(req));
    var foundNumbers := NumbersOf(updated);
    var notFound := Missing(req.numbers, foundNumbers);
    response := Ok(Summary(|foundNumbers|, notFound, Message(|foundNumbers|, req.round, notFound)));
  }

  // ================================================================ properties

  /** A body that fails validation is answered before any store access: the faults play no part. */
  lemma InvalidBodyTouchesNothing(t: seq<Row>, body: RequestBody, faults: Faults)
    requires Validate(body).Error?
    ensures PostOutcome(t, body, faults).table == t
    ensures PostOutcome(t, body, faults).response.Error?
    ensures PostOutcome(t, body, faults).response.status == (if body.Unparsable? then 500 else 400)
    ensures PostOutcome(t, body, faults) == PostOutcome(t, body, NoFaults)
  {
  }

  /**
   * Only the legacy `round` is written, and exactly on the requested rows that mention events in
   * either slot; every other row and every other column is as it was.
   */
  lemma {:induction false} UpdateScope(t: seq<Row>, body: RequestBody, faults: Faults)
    requires Validate(body).Ok? && faults.update.None?
    ensures var o := PostOutcome(t, body, faults);
            |o.table| == |t| &&
            forall k :: 0 <= k < |t| ==>
              o.table[k] == if t[k].registrationNumber in body.registrationNumbers.value && MentionsDomain(t[k], Events)
                            then t[k].(round := body.round.value) else t[k]
  {
  }

  /** A store error on the update or on the re-fetch is a 500 carrying the store's message. */
  lemma StoreErrors(t: seq<Row>, body: RequestBody, faults: Faults)
    requires Validate(body).Ok?
    ensures faults.update.Some? ==> PostOutcome(t, body, faults) == Outcome(Error(500, faults.update.value), t)
    ensures faults.update.None? && faults.refetch.Some? ==>
              PostOutcome(t, body, faults).response == Error(500, faults.refetch.value)
  {
  }

  /** `updatedCount` is the number of requested rows that mention events, counted in the original table. */
  lemma {:induction false} UpdatedCountCountsScope(t: seq<Row>, body: RequestBody, faults: Faults)
    requires Validate(body).Ok? && faults.update.None? && faults.refetch.None?
    ensures PostOutcome(t, body, faults).response.body.updatedCount ==
              |Selected(t, ByNumbersInDomain(body.registrationNumbers.value, Events))|
  {
    var req := Validate(body).body;
    var t1 := Updated(t, Scope(req), SetRound(req.round));
    SelectedSameIdentities(t, t1, Scope(req));
  }

  /**
   * `notFound` keeps, in input order and with their repetitions, exactly the requested numbers that
   * no row mentioning events carries.
   */
  lemma {:induction false} NotFoundExactly(t: seq<Row>, body: RequestBody, faults: Faults)
    requires Validate(body).Ok? && faults.update.None? && faults.refetch.None?
    ensures var notFound := PostOutcome(t, body, faults).response.body.notFound;
            var requested := body.registrationNumbers.value;
            IsSubsequence(notFound, requested) &&
            forall x :: x in notFound <==>
              x in requested && forall r :: r in t && r.registrationNumber == x ==> !MentionsDomain(r, Events)
  {
    var req := Validate(body).body;
    var found := NumbersOf(Selected(Updated(t, Scope(req), SetRound(req.round)), Scope(req)));
    var notFound := Missing(req.numbers, found);
    assert PostOutcome(t, body, faults).response.body.notFound == notFound;
    forall x
      ensures x in notFound <==>
              x in req.numbers && forall r :: r in t && r.registrationNumber == x ==> !MentionsDomain(r, Events)
    {
      SelectedNumbersAfterUpdate(t, Scope(req), SetRound(req.round), x);
    }
  }

  /** A number the table holds whose row never mentions events is still reported as not found. */
  lemma ExistingNonEventsNumberIsNotFound(t: seq<Row>, body: RequestBody, faults: Faults, k: int)
    requires Validate(body).Ok? && faults.update.None? && faults.refetch.None?
    requires UniqueNumbers(t) && 0 <= k < |t|
    requires t[k].registrationNumber in body.registrationNumbers.value && !MentionsDomain(t[k], Events)
    ensures t[k].registrationNumber in PostOutcome(t, body, faults).response.body.notFound
  {
    NotFoundExactly(t, body, faults);
    forall r | r in t && r.registrationNumber == t[k].registrationNumber
      ensures !MentionsDomain(r, Events)
    {
      var j :| 0 <= j < |t| && t[j] == r;
    }
  }

  /** The headline has no full stop, since numbers are written with digits and a minus sign only. */
  lemma NoFullStopInHeadline(count: nat, round: int)
    ensures '.' !in Headline(count, round)
  {
    var a := NatToString(count);
    var b := " participants moved to Round ";
    var c := IntToString(round);
    assert '.' !in a;
    assert '.' !in b;
    assert '.' !in c;
    assert Headline(count, round) == a + b + c;
  }

  /** The message carries ". Not found: " exactly when `notFound` is non-empty, always after the headline. */
  lemma {:induction false} MessageShape(count: nat, round: int, notFound: seq<string>)
    ensures Headline(count, round) <= Message(count, round, notFound)
    ensures Contains(Message(count, round, notFound), NotFoundClause) <==> |notFound| > 0
  {
    var head := Headline(count, round);
    var tail := NotFoundClause + Join(notFound, ", ");
    if |notFound| > 0 {
      assert Message(count, round, notFound) == head + tail;
      assert NotFoundClause <= tail;
      assert Contains(tail, NotFoundClause);
      ContainsPrepend(head, tail, NotFoundClause);
    } else {
      assert Message(count, round, notFound) == head;
      if Contains(head, NotFoundClause) {
        ContainsChars(head, NotFoundClause, 0);
        NoFullStopInHeadline(count, round);
      }
    }
  }

  /**
   * A second identical request on the table the first one left (with no store failure) leaves the
   * same table and returns the same count, `notFound` and message.
   */
  lemma PostIdempotent(t: seq<Row>, body: RequestBody, faults: Faults)
    requires Validate(body).Ok? && faults.update.None? && faults.refetch.None?
    ensures var o := PostOutcome(t, body, faults);
            PostOutcome(o.table, body, NoFaults) == o
  {
    var req := Validate(body).body;
    SetRoundIdempotent(t, Scope(req), req.round);
  }
}
