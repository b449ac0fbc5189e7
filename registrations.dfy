/**
 * GET /api/technical-registrations and GET /api/creatives-registrations: after the auth gate, the
 * rows that mention the domain in either slot, each projected onto the view-model the roster
 * pages display.
 */
module Registrations {
  import opened Basics
  import opened Text
  import opened Store
  import opened Api
  import DomainCounts

  /** The view-model `IndividualRegistrationWithRound` without its locale-formatted `registeredAt`. */
  datatype Registration = Registration(
    id: string,
    name: string,
    registerNumber: string,
    email: string,
    phone: string,
    round: int)

  /** The `.map` callback: the id as decimal text, columns renamed, the legacy `round`. */
  function ToRegistration(r: Row): (v: Registration)
    ensures ParseInt(v.id) == Some(r.id)
    ensures v.name == r.name && v.registerNumber == r.registrationNumber
    ensures v.email == r.srmMail && v.phone == r.phoneNumber
    ensures v.round == r.round
  {
    ParseIntOfIntToString(r.id);
    Registration(IntToString(r.id), r.name, r.registrationNumber, r.srmMail, r.phoneNumber, r.round)
  }

  /** `data.map(...)`: one view-model per row, in row order. */
  function Project(rows: seq<Row>): (views: seq<Registration>)
    ensures |views| == |rows|
    ensures forall k :: 0 <= k < |rows| ==> views[k] == ToRegistration(rows[k])
  {
    seq(|rows|, k requires 0 <= k < |rows| => ToRegistration(rows[k]))
  }

  /** A listing route for domain `d` on table `t`; `fault` is the query's error, if it fails. */
  function ListOutcome(t: seq<Row>, auth: Auth, d: string, fault: Option<string>): (r: Response<seq<Registration>>)
    ensures r.Ok? <==> HasHeader(auth) && auth.user.Some? && fault.None?
    ensures r.Error? ==> r.status == 401 || r.status == 500
    ensures r.Ok? ==> |r.body| == |Selected(t, InDomain(d))|
  {
    match Authenticate(auth)
    case Error(status, message) => Error(status, message)
    case Ok(_) =>
      if fault.Some? then Error(500, fault.value)
      else
        var rows := Selected(t, InDomain(d));
        if |rows| == 0 then Ok([]) else Ok(Project(rows))
  }

  const Technical := "technical"
  const Creatives := "creatives"

  function TechnicalRegistrations(t: seq<Row>, auth: Auth, fault: Option<string>): Response<seq<Registration>>
  {
    ListOutcome(t, auth, Technical, fault)
  }

  function CreativesRegistrations(t: seq<Row>, auth: Auth, fault: Option<string>): Response<seq<Registration>>
  {
    ListOutcome(t, auth, Creatives, fault)
  }

  // ================================================================ properties

  /**
   * A missing or empty header, or a token that yields no user, is a 401 before any query; a query
   * error is a 500 carrying the store's message; otherwise the listing succeeds.
   */
  lemma ListingErrors(t: seq<Row>, auth: Auth, d: string, fault: Option<string>)
    ensures !HasHeader(auth) ==> ListOutcome(t, auth, d, fault) == Error(401, NoHeader)
    ensures HasHeader(auth) && auth.user.None? ==> ListOutcome(t, auth, d, fault) == Error(401, InvalidToken)
    ensures HasHeader(auth) && auth.user.Some? && fault.Some? ==> ListOutcome(t, auth, d, fault) == Error(500, fault.value)
    ensures ListOutcome(t, auth, d, fault).Ok? <==> HasHeader(auth) && auth.user.Some? && fault.None?
  {
  }

  /**
   * The listing is the matching rows, in table order, one view-model each: the id's decimal text
   * reads back as the numeric id, the contact columns are copied under their new names, and the
   * round is the legacy `round` column.
   */
  lemma {:induction false} ListingProjectsMatchingRows(t: seq<Row>, auth: Auth, d: string, fault: Option<string>)
    requires ListOutcome(t, auth, d, fault).Ok?
    ensures var views := ListOutcome(t, auth, d, fault).body;
            var rows := Selected(t, InDomain(d));
            |views| == |rows| &&
            forall k :: 0 <= k < |rows| ==>
              ParseInt(views[k].id) == Some(rows[k].id) &&
              views[k].name == rows[k].name &&
              views[k].registerNumber == rows[k].registrationNumber &&
              views[k].email == rows[k].srmMail &&
              views[k].phone == rows[k].phoneNumber &&
              views[k].round == rows[k].round
  {
    var rows := Selected(t, InDomain(d));
    forall k | 0 <= k < |rows| ensures ParseInt(IntToString(rows[k].id)) == Some(rows[k].id) {
      ParseIntOfIntToString(rows[k].id);
    }
  }

  /** A view-model is listed exactly when some row mentioning the domain projects onto it. */
  lemma ListingMembers(t: seq<Row>, auth: Auth, d: string, fault: Option<string>, v: Registration)
    requires ListOutcome(t, auth, d, fault).Ok?
    ensures v in ListOutcome(t, auth, d, fault).body <==>
              exists r :: r in t && MentionsDomain(r, d) && ToRegistration(r) == v
  {
    var rows := Selected(t, InDomain(d));
    assert ListOutcome(t, auth, d, fault).body == Project(rows);
    ProjectMembers(rows, v);
    if exists r :: r in rows && ToRegistration(r) == v {
      var r :| r in rows && ToRegistration(r) == v;
      assert r in t && MentionsDomain(r, d);
    }
    if exists r :: r in t && MentionsDomain(r, d) && ToRegistration(r) == v {
      var r :| r in t && MentionsDomain(r, d) && ToRegistration(r) == v;
      assert r in rows;
    }
  }

  /** A view-model is in a projection exactly when some projected row yields it. */
  lemma ProjectMembers(rows: seq<Row>, v: Registration)
    ensures v in Project(rows) <==> exists r :: r in rows && ToRegistration(r) == v
  {
    var views := Project(rows);
    if v in views {
      var k :| 0 <= k < |views| && views[k] == v;
      assert rows[k] in rows;
    }
    if exists r :: r in rows && ToRegistration(r) == v {
      var r :| r in rows && ToRegistration(r) == v;
      var k :| 0 <= k < |rows| && rows[k] == r;
      assert views[k] == v;
    }
  }

  /** With no matching row the answer is the empty list. */
  lemma NoMatchIsEmpty(t: seq<Row>, auth: Auth, d: string, fault: Option<string>)
    requires ListOutcome(t, auth, d, fault).Ok?
    requires forall k :: 0 <= k < |t| ==> !MentionsDomain(t[k], d)
    ensures ListOutcome(t, auth, d, fault).body == []
  {
    SelectedNone(t, InDomain(d));
  }

  /**
   * The creatives listing: the same auth gate and error mapping, and on success one view-model per
   * row mentioning creatives, in table order, with the id read back and the legacy round; `[]`
   * when no row mentions creatives.
   */
  lemma CreativesListing(t: seq<Row>, auth: Auth, fault: Option<string>)
    ensures CreativesRegistrations(t, auth, fault).Ok? <==> HasHeader(auth) && auth.user.Some? && fault.None?
    ensures HasHeader(auth) && auth.user.Some? && fault.Some? ==>
              CreativesRegistrations(t, auth, fault) == Error(500, fault.value)
    ensures CreativesRegistrations(t, auth, fault).Ok? ==>
              var views := CreativesRegistrations(t, auth, fault).body;
              var rows := Selected(t, InDomain(Creatives));
              |views| == |rows| &&
              forall k :: 0 <= k < |rows| ==>
                ParseInt(views[k].id) == Some(rows[k].id) && views[k].registerNumber == rows[k].registrationNumber &&
                views[k].round == rows[k].round
    ensures CreativesRegistrations(t, auth, fault).Ok? && (forall k :: 0 <= k < |t| ==> !MentionsDomain(t[k], Creatives)) ==>
              CreativesRegistrations(t, auth, fault).body == []
  {
    ListingErrors(t, auth, Creatives, fault);
    if CreativesRegistrations(t, auth, fault).Ok? {
      ListingProjectsMatchingRows(t, auth, Creatives, fault);
      if forall k :: 0 <= k < |t| ==> !MentionsDomain(t[k], Creatives) {
        NoMatchIsEmpty(t, auth, Creatives, fault);
      }
    }
  }

  /** Projecting a row appended to a selection appends its view-model. */
  lemma ProjectSnoc(rows: seq<Row>, x: Row)
    ensures Project(rows + [x]) == Project(rows) + [ToRegistration(x)]
  {
    assert forall k :: 0 <= k < |rows| ==> (rows + [x])[k] == rows[k];
  }

  /** Rows that agree on identity columns and the legacy round project onto the same view-model. */
  lemma ToRegistrationAlike(a: Row, b: Row)
    requires SameIdentity(a, b) && a.round == b.round
    ensures ToRegistration(a) == ToRegistration(b)
  {
  }

  /** Two tables that agree on everything the view-model reads yield the same selected views. */
  lemma {:induction false} ProjectSelectedAlike(t: seq<Row>, t': seq<Row>, f: Filter)
    requires SameIdentities(t, t')
    requires forall k :: 0 <= k < |t| ==> t[k].round == t'[k].round
    ensures Project(Selected(t, f)) == Project(Selected(t', f))
    decreases |t|
  {
    if t != [] {
      var n := |t| - 1;
      ProjectSelectedAlike(t[..n], t'[..n], f);
      ToRegistrationAlike(t[n], t'[n]);
      var a := Selected(t[..n], f);
      var a' := Selected(t'[..n], f);
      if Selects(f, t[n]) {
        ProjectSnoc(a, t[n]);
        ProjectSnoc(a', t'[n]);
      }
    }
  }

  /**
   * The listed round is the legacy `round` column: rewriting every row's `domain1_round`,
   * `domain2_round` and audit columns leaves the listing as it was.
   */
  lemma ListingIgnoresSlotRounds(t: seq<Row>, t': seq<Row>, auth: Auth, d: string, fault: Option<string>)
    requires |t| == |t'|
    requires forall k :: 0 <= k < |t| ==>
               t'[k] == t[k].(domain1Round := t'[k].domain1Round, domain2Round := t'[k].domain2Round,
                              modifiedAt := t'[k].modifiedAt, modifiedBy1 := t'[k].modifiedBy1,
                              modifiedBy2 := t'[k].modifiedBy2)
    ensures ListOutcome(t, auth, d, fault) == ListOutcome(t', auth, d, fault)
  {
    ProjectSelectedAlike(t, t', InDomain(d));
    SelectedSameIdentities(t, t', InDomain(d));
  }

  /**
   * When neither query fails, the technical listing has as many entries as the technical count
   * of /api/domain-counts, and likewise for creatives.
   */
  lemma ListingLengthIsDomainCount(t: seq<Row>, auth: Auth, faults: map<string, DomainCounts.CountFault>)
    requires HasHeader(auth) && auth.user.Some?
    ensures DomainCounts.GetOutcome(t, auth, faults).Ok?
    ensures Technical !in faults ==>
              |TechnicalRegistrations(t, auth, None).body| == DomainCounts.GetOutcome(t, auth, faults).body[0].1
    ensures Creatives !in faults ==>
              |CreativesRegistrations(t, auth, None).body| == DomainCounts.GetOutcome(t, auth, faults).body[1].1
  {
  }
}
