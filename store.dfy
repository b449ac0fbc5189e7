/**
 * The table `recruitment_25` as an in-memory store: its rows, the filters the routes pass to
 * `.in(...)`/`.or(...)`, the column patches they pass to `.update(...)`, and a `Table` class whose
 * methods play the store's SELECT, COUNT and UPDATE statements over an array of rows.
 * Rows come back in table order.
 */
module Store {
  import opened Basics
  import opened Text

  /** One row of `recruitment_25`: the typed record plus the legacy `round` column and the audit columns. */
  datatype Row = Row(
    id: int,
    createdAt: string,
    name: string,
    registrationNumber: string,
    phoneNumber: string,
    srmMail: string,
    githubLink: string,
    linkedinLink: string,
    domain1: string,
    domain2: Option<string>,
    domain1Round: int,
    domain2Round: Option<int>,
    round: int,
    modifiedAt: Option<string>,
    modifiedBy1: Option<string>,
    modifiedBy2: Option<string>)

  // ---------------------------------------------------------------- matching

  /** `domain1.ilike.%d%,domain2.ilike.%d%`: either label contains `d`, ignoring case; a null label never matches. */
  predicate MentionsDomain(r: Row, d: string)
  {
    ContainsIgnoreCase(r.domain1, d) || (r.domain2.Some? && ContainsIgnoreCase(r.domain2.value, d))
  }

  /** `record.domain1.toLowerCase().includes(d)`. */
  predicate Slot1Matches(r: Row, d: string)
  {
    Contains(Lower(r.domain1), d)
  }

  /** `record.domain2 && record.domain2.toLowerCase().includes(d)`. */
  predicate Slot2Matches(r: Row, d: string)
  {
    r.domain2.Some? && Contains(Lower(r.domain2.value), d)
  }

  /** For a lower-case domain name the store's ILIKE filter and the in-code slot tests agree. */
  lemma MentionsDomainIffSlot(r: Row, d: string)
    requires forall i :: 0 <= i < |d| ==> !IsUpper(d[i])
    ensures MentionsDomain(r, d) <==> Slot1Matches(r, d) || Slot2Matches(r, d)
  {
    LowerOfLowercase(d);
  }

  // ---------------------------------------------------------------- filters and patches

  /** `.in('registration_number', numbers)` when `numbers` is given, and the domain `.or(...)` when `domain` is. */
  datatype Filter = Filter(numbers: Option<seq<string>>, domain: Option<string>)

  predicate Selects(f: Filter, r: Row)
  {
    (f.numbers.None? || r.registrationNumber in f.numbers.value) &&
    (f.domain.None? || MentionsDomain(r, f.domain.value))
  }

  function ByNumbers(numbers: seq<string>): Filter { Filter(Some(numbers), None) }
  function InDomain(d: string): Filter { Filter(None, Some(d)) }
  function ByNumbersInDomain(numbers: seq<string>, d: string): Filter { Filter(Some(numbers), Some(d)) }

  /** The column sets the routes write. */
  datatype Patch =
    | SetDomain1Round(round: int, at: string, modifier: string)   // domain1_round, modified_at, modified_by1
    | SetDomain2Round(round: int, at: string, modifier: string)   // domain2_round, modified_at, modified_by2
    | SetRound(round: int)                                   // the legacy round column

  /** Identity, contact and domain-label columns agree. */
  predicate SameIdentity(a: Row, b: Row)
  {
    a.id == b.id && a.createdAt == b.createdAt && a.name == b.name &&
    a.registrationNumber == b.registrationNumber && a.phoneNumber == b.phoneNumber &&
    a.srmMail == b.srmMail && a.githubLink == b.githubLink && a.linkedinLink == b.linkedinLink &&
    a.domain1 == b.domain1 && a.domain2 == b.domain2
  }

  function Apply(p: Patch, r: Row): (r': Row)
    ensures SameIdentity(r, r')
  {
    match p
    case SetDomain1Round(n, at, who) => r.(domain1Round := n, modifiedAt := Some(at), modifiedBy1 := Some(who))
    case SetDomain2Round(n, at, who) => r.(domain2Round := Some(n), modifiedAt := Some(at), modifiedBy2 := Some(who))
    case SetRound(n) => r.(round := n)
  }

  // ---------------------------------------------------------------- statements as functions

  /** `SELECT * WHERE f`, in table order. */
  function Selected(t: seq<Row>, f: Filter): (r: seq<Row>)
    ensures IsSubsequence(r, t)
    ensures forall x :: x in r <==> x in t && Selects(f, x)
    decreases |t|
  {
    if t == [] then []
    else
      var init := Selected(t[..|t| - 1], f);
      assert t == t[..|t| - 1] + [t[|t| - 1]];
      if Selects(f, t[|t| - 1]) then init + [t[|t| - 1]] else init
  }

  /** A select keeps each selected row as often as the table holds it, and no other row. */
  lemma {:induction false} SelectedMultiplicity(t: seq<Row>, f: Filter)
    ensures forall x :: multiset(Selected(t, f))[x] == if Selects(f, x) then multiset(t)[x] else 0
    decreases |t|
  {
    if t != [] {
      var n := |t| - 1;
      var init := Selected(t[..n], f);
      SelectedMultiplicity(t[..n], f);
      assert t == t[..n] + [t[n]];
      assert multiset(t) == multiset(t[..n]) + multiset{t[n]};
      if Selects(f, t[n]) {
        assert Selected(t, f) == init + [t[n]];
        assert multiset(Selected(t, f)) == multiset(init) + multiset{t[n]};
      } else {
        assert Selected(t, f) == init;
      }
    }
  }

  function UpdateRow(r: Row, f: Filter, p: Patch): Row
  {
    if Selects(f, r) then Apply(p, r) else r
  }

  /** `UPDATE SET p WHERE f`: each row is patched when the filter selects it, in place. */
  function Updated(t: seq<Row>, f: Filter, p: Patch): (r: seq<Row>)
    ensures SameIdentities(t, r)
    ensures forall k :: 0 <= k < |t| && Selects(f, t[k]) ==> r[k] == Apply(p, t[k])
    ensures forall k :: 0 <= k < |t| && !Selects(f, t[k]) ==> r[k] == t[k]
  {
    seq(|t|, k requires 0 <= k < |t| => UpdateRow(t[k], f, p))
  }

  // ---------------------------------------------------------------- what statements preserve

  /** Row by row the two tables agree on identity, contact and domain labels. */
  predicate SameIdentities(a: seq<Row>, b: seq<Row>)
  {
    |a| == |b| && forall k :: 0 <= k < |a| ==> SameIdentity(a[k], b[k])
  }

  /** Selection reads only identity columns, so tables that agree on them select alike. */
  lemma {:induction false} SelectedSameIdentities(a: seq<Row>, b: seq<Row>, f: Filter)
    requires SameIdentities(a, b)
    ensures SameIdentities(Selected(a, f), Selected(b, f))
    decreases |a|
  {
    if a != [] {
      var n := |a| - 1;
      SelectedSameIdentities(a[..n], b[..n], f);
      assert SameIdentity(a[n], b[n]);
    }
  }

  /** The registration numbers of some rows, in order (`rows.map(r => r.registration_number)`). */
  function NumbersOf(rows: seq<Row>): (ns: seq<string>)
    ensures |ns| == |rows|
  {
    seq(|rows|, i requires 0 <= i < |rows| => rows[i].registrationNumber)
  }

  lemma NumbersOfMembers(rows: seq<Row>, x: string)
    ensures x in NumbersOf(rows) <==> exists r :: r in rows && r.registrationNumber == x
  {
    if x in NumbersOf(rows) {
      var i :| 0 <= i < |rows| && NumbersOf(rows)[i] == x;
      assert rows[i] in rows;
    }
    if exists r :: r in rows && r.registrationNumber == x {
      var r :| r in rows && r.registrationNumber == x;
      var i :| 0 <= i < |rows| && rows[i] == r;
      assert NumbersOf(rows)[i] == x;
    }
  }

  /** A filter that selects no row of the table selects nothing. */
  lemma {:induction false} SelectedNone(t: seq<Row>, f: Filter)
    requires forall k :: 0 <= k < |t| ==> !Selects(f, t[k])
    ensures Selected(t, f) == []
    decreases |t|
  {
    if t != [] {
      SelectedNone(t[..|t| - 1], f);
    }
  }

  /** The positions of the rows a filter selects. */
  function SelectedPositions(t: seq<Row>, f: Filter): set<int>
  {
    set k | 0 <= k < |t| && Selects(f, t[k])
  }

  lemma SelectedPositionsSnoc(t: seq<Row>, f: Filter)
    requires t != []
    ensures SelectedPositions(t, f) ==
              SelectedPositions(t[..|t| - 1], f) + (if Selects(f, t[|t| - 1]) then {|t| - 1} else {})
  {
    var n := |t| - 1;
    forall k | 0 <= k < n ensures t[..n][k] == t[k] { }
  }

  /** A selection holds each selected row once, however many of its columns the filter matches. */
  lemma {:induction false} SelectedCountsRows(t: seq<Row>, f: Filter)
    ensures |Selected(t, f)| == |SelectedPositions(t, f)|
    decreases |t|
  {
    if t != [] {
      var n := |t| - 1;
      SelectedCountsRows(t[..n], f);
      SelectedPositionsSnoc(t, f);
      var before := SelectedPositions(t[..n], f);
      assert n !in before;
      if Selects(f, t[n]) {
        assert |Selected(t, f)| == |Selected(t[..n], f)| + 1;
        assert |before + {n}| == |before| + 1;
      } else {
        assert |Selected(t, f)| == |Selected(t[..n], f)|;
        assert before + {} == before;
      }
    }
  }

  /** Re-reading under the filter of an update finds the numbers of the rows that update selected. */
  lemma SelectedNumbersAfterUpdate(t: seq<Row>, f: Filter, p: Patch, x: string)
    ensures x in NumbersOf(Selected(Updated(t, f, p), f)) <==>
              exists r :: r in t && Selects(f, r) && r.registrationNumber == x
  {
    var t' := Updated(t, f, p);
    NumbersOfMembers(Selected(t', f), x);
    if exists r :: r in t && Selects(f, r) && r.registrationNumber == x {
      var r :| r in t && Selects(f, r) && r.registrationNumber == x;
      var k :| 0 <= k < |t| && t[k] == r;
      SelectedAfterUpdateAt(t, f, p, k);
    }
    if exists r :: r in Selected(t', f) && r.registrationNumber == x {
      var r :| r in Selected(t', f) && r.registrationNumber == x;
      var k :| 0 <= k < |t'| && t'[k] == r;
      SelectedAfterUpdateAt(t, f, p, k);
    }
  }

  /** Position `k` is selected after an update exactly when it was before, and keeps its number. */
  lemma SelectedAfterUpdateAt(t: seq<Row>, f: Filter, p: Patch, k: int)
    requires 0 <= k < |t|
    ensures |Updated(t, f, p)| == |t|
    ensures Selects(f, Updated(t, f, p)[k]) <==> Selects(f, t[k])
    ensures Updated(t, f, p)[k].registrationNumber == t[k].registrationNumber
    ensures Selects(f, t[k]) ==> Updated(t, f, p)[k] in Selected(Updated(t, f, p), f)
    ensures Selects(f, t[k]) ==> t[k] in t
  {
    assert SameIdentity(t[k], Updated(t, f, p)[k]);
  }

  /** Setting the legacy round twice under the same filter is setting it once. */
  lemma SetRoundIdempotent(t: seq<Row>, f: Filter, n: int)
    ensures Updated(Updated(t, f, SetRound(n)), f, SetRound(n)) == Updated(t, f, SetRound(n))
  {
  }

  /** After the legacy round is set under a filter, every row that filter selects carries that round. */
  lemma SelectedAfterSetRound(t: seq<Row>, f: Filter, n: int)
    ensures forall x :: x in Selected(Updated(t, f, SetRound(n)), f) ==> x.round == n
  {
    var t' := Updated(t, f, SetRound(n));
    forall x | x in Selected(t', f) ensures x.round == n {
      var k :| 0 <= k < |t'| && t'[k] == x;
      assert SameIdentity(t[k], x);
    }
  }

  /** Registration numbers identify rows. */
  predicate UniqueNumbers(t: seq<Row>)
  {
    forall i, j :: 0 <= i < |t| && 0 <= j < |t| && t[i].registrationNumber == t[j].registrationNumber ==> i == j
  }

  /**
   * The row invariant: a non-empty slot-1 label, rounds in 1..3, and a slot-2 round
   * only where there is a slot-2 label.
   */
  predicate WellFormedRow(r: Row)
  {
    r.domain1 != "" && 1 <= r.domain1Round <= 3 &&
    (r.domain2.None? ==> r.domain2Round.None?) &&
    (r.domain2Round.Some? ==> 1 <= r.domain2Round.value <= 3)
  }

  /** The data invariant of the table: unique registration numbers, and every row well formed. */
  predicate WellFormed(t: seq<Row>)
  {
    UniqueNumbers(t) && forall k :: 0 <= k < |t| ==> WellFormedRow(t[k])
  }

  // ---------------------------------------------------------------- the store

  /** The table behind the routes; `rows` is the whole of its state. */
  class Table {
    var rows: array<Row>

    constructor (initial: seq<Row>)
      ensures fresh(rows) && rows[..] == initial
    {
      rows := new Row[|initial|](i requires 0 <= i < |initial| => initial[i]);
    }

    /** A SELECT: the selected rows, in table order. */
    method Select(f: Filter) returns (r: seq<Row>)
      ensures r == Selected(rows[..], f)
    {
      r := [];
      for i := 0 to rows.Length
        invariant r == Selected(rows[..i], f)
      {
        assert rows[..i + 1][..i] == rows[..i];
        if Selects(f, rows[i]) {
          r := r + [rows[i]];
        }
      }
      assert rows[..rows.Length] == rows[..];
    }

    /** A `count: 'exact'` query: how many rows the filter selects. */
    method Count(f: Filter) returns (n: nat)
      ensures n == |Selected(rows[..], f)|
      ensures n <= rows.Length
    {
      n := 0;
      for i := 0 to rows.Length
        invariant n == |Selected(rows[..i], f)|
      {
        assert rows[..i + 1][..i] == rows[..i];
        if Selects(f, rows[i]) {
          n := n + 1;
        }
      }
      assert rows[..rows.Length] == rows[..];
      SubsequenceMembers(Selected(rows[..], f), rows[..]);
    }

    /** An UPDATE: every selected row gets the patch, every other row is left as it was. */
    method Update(f: Filter, p: Patch)
      modifies rows
      ensures rows[..] == Updated(old(rows[..]), f, p)
    {
      for i := 0 to rows.Length
        invariant forall k :: 0 <= k < i ==> rows[k] == UpdateRow(old(rows[k]), f, p)
        invariant forall k :: i <= k < rows.Length ==> rows[k] == old(rows[k])
      {
        rows[i] := UpdateRow(rows[i], f, p);
      }
    }
  }
}
