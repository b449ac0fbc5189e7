/**
 * GET /api/domain-counts: after the auth gate, one exact count query per domain, in a fixed
 * order, each counting the rows that mention the domain in either slot; a failed query or a
 * null count is recorded as 0 and the loop goes on.
 */
module DomainCounts {
  import opened Basics
  import opened Store
  import opened Api

  /** The domains, in the order the loop visits them (and the order of the result's keys). */
  const Domains: seq<string> := ["technical", "creatives", "business", "events"]

  /** How a count query can go wrong: the store reports an error, or it answers with a null count. */
  datatype CountFault = CountError(message: string) | NullCount

  /** The count query for domain `d`: 0 when it fails or yields null, else the matching rows. */
  function CountFor(t: seq<Row>, d: string, faults: map<string, CountFault>): nat
  {
    if d in faults then 0 else |Selected(t, InDomain(d))|
  }

  /** The `domainCounts` object as its (key, count) entries in insertion order. */
  function Tally(t: seq<Row>, faults: map<string, CountFault>): seq<(string, nat)>
  {
    seq(|Domains|, i requires 0 <= i < |Domains| => (Domains[i], CountFor(t, Domains[i], faults)))
  }

  /** The whole route on table `t`; `faults` names the count queries that fail and how. */
  function GetOutcome(t: seq<Row>, auth: Auth, faults: map<string, CountFault>): (r: Response<seq<(string, nat)>>)
    ensures r.Ok? <==> HasHeader(auth) && auth.user.Some?
    ensures r.Error? ==> r.status == 401
    ensures r.Ok? ==> |r.body| == |Domains|
    ensures r.Ok? ==>
              forall i :: 0 <= i < |Domains| ==> r.body[i].0 == Domains[i] && (Domains[i] in faults ==> r.body[i].1 == 0)
  {
    match Authenticate(auth)
    case Error(status, message) => Error(status, message)
    case Ok(_) => Ok(Tally(t, faults))
  }

  /** The handler: the loop over the domains, one count query each. */
  method Get(db: Table, auth: Auth, faults: map<string, CountFault>) returns (response: Response<seq<(string, nat)>>)
    ensures response == GetOutcome(db.rows[..], auth, faults)
  {
    var user := Authenticate(auth);
    if user.Error? {
      return Error(user.status, user.message);
    }
    var counts: seq<(string, nat)> := [];
    for i := 0 to |Domains|
      invariant counts == Tally(db.rows[..], faults)[..i]
    {
      var d := Domains[i];
      var n: nat;
      if d in faults {
        match faults[d]
        case CountError(_) => n := 0;
        case NullCount => n := 0;
      } else {
        n := db.Count(InDomain(d));
      }
      counts := counts + [(d, n)];
    }
    assert Tally(db.rows[..], faults)[..|Domains|] == Tally(db.rows[..], faults);
    response := Ok(counts);
  }

  // ================================================================ properties

  /** Without a usable header and user the answer is 401 and no count is taken. */
  lemma UnauthenticatedIsRejected(t: seq<Row>, auth: Auth, faults: map<string, CountFault>)
    requires !HasHeader(auth) || auth.user.None?
    ensures GetOutcome(t, auth, faults).Error?
    ensures GetOutcome(t, auth, faults).status == 401
  {
  }

  /** An authenticated request always succeeds, whatever the count queries do. */
  lemma AuthenticatedSucceeds(t: seq<Row>, auth: Auth, faults: map<string, CountFault>)
    requires HasHeader(auth) && auth.user.Some?
    ensures GetOutcome(t, auth, faults).Ok?
  {
  }

  /** The keys are the four domains, each once, in loop order. */
  lemma KeysInOrder(t: seq<Row>, auth: Auth, faults: map<string, CountFault>)
    requires GetOutcome(t, auth, faults).Ok?
    ensures var entries := GetOutcome(t, auth, faults).body;
            |entries| == 4 &&
            entries[0].0 == "technical" && entries[1].0 == "creatives" &&
            entries[2].0 == "business" && entries[3].0 == "events" &&
            forall i, j :: 0 <= i < j < |entries| ==> entries[i].0 != entries[j].0
  {
  }

  /**
   * Each count is the number of rows whose either label contains the domain, ignoring case, each
   * row counted once even when both labels match; a failed or null query records 0.
   */
  lemma CountsMatchingRows(t: seq<Row>, auth: Auth, faults: map<string, CountFault>, i: int)
    requires GetOutcome(t, auth, faults).Ok? && 0 <= i < |Domains|
    ensures var d := Domains[i];
            GetOutcome(t, auth, faults).body[i].1 ==
              if d in faults then 0 else |set k | 0 <= k < |t| && MentionsDomain(t[k], d)|
  {
    var d := Domains[i];
    SelectedCountsRows(t, InDomain(d));
    assert SelectedPositions(t, InDomain(d)) == set k | 0 <= k < |t| && MentionsDomain(t[k], d);
  }

  /**
   * No count exceeds the total number of registrations (the unfiltered exact count of
   * /api/total-registrations).
   */
  lemma {:induction false} CountsBoundedByTotal(t: seq<Row>, auth: Auth, faults: map<string, CountFault>, i: int)
    requires GetOutcome(t, auth, faults).Ok? && 0 <= i < |Domains|
    ensures GetOutcome(t, auth, faults).body[i].1 <= |t|
  {
    SubsequenceMembers(Selected(t, InDomain(Domains[i])), t);
  }

  /**
   * A failure of one domain's query affects that entry only: runs whose faults agree on a domain
   * record the same count for it.
   */
  lemma FaultsAreIsolated(t: seq<Row>, auth: Auth, faults: map<string, CountFault>, faults': map<string, CountFault>, i: int)
    requires GetOutcome(t, auth, faults).Ok? && 0 <= i < |Domains|
    requires (Domains[i] in faults <==> Domains[i] in faults')
    ensures GetOutcome(t, auth, faults').Ok?
    ensures GetOutcome(t, auth, faults).body[i] == GetOutcome(t, auth, faults').body[i]
  {
  }
}
