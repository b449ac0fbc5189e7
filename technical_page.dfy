/**
 * The roster logic of the Technical recruitment page: the year of study read off a registration
 * number, the search/year/round filter, the export guard and its rows, and the registration
 * numbers a bulk-update CSV yields. CSV rows are taken as already parsed into string maps.
 */
module TechnicalPage {
  import opened Basics
  import opened Text
  import opened Api
  import opened Registrations

  // ---------------------------------------------------------------- year of study

  const CurrentYear := 2025

  /** `s.substring(start, end)`: both ends clamped to the length, swapped when reversed. */
  function JsSubstring(s: string, start: nat, end: nat): (r: string)
    ensures |r| <= |s|
  {
    var a := if start <= |s| then start else |s|;
    var b := if end <= |s| then end else |s|;
    if a <= b then s[a..b] else s[b..a]
  }

  /** Value of a decimal digit character. */
  function DecimalValue(c: char): nat
    requires IsDecimalDigit(c)
  {
    c as int - '0' as int
  }

  /**
   * The batch year `parseInt(registerNumber.substring(2, 4))`: NaN when the number has no
   * character at position 2, the two-digit value when positions 2 and 3 are decimal digits.
   */
  lemma BatchYearDigits(registerNumber: string)
    ensures |registerNumber| <= 2 ==> ParseInt(JsSubstring(registerNumber, 2, 4)).None?
    ensures |registerNumber| >= 4 && IsDecimalDigit(registerNumber[2]) && IsDecimalDigit(registerNumber[3]) ==>
              ParseInt(JsSubstring(registerNumber, 2, 4)) ==
                Some(10 * DecimalValue(registerNumber[2]) + DecimalValue(registerNumber[3]))
  {
    var u := JsSubstring(registerNumber, 2, 4);
    if |registerNumber| <= 2 {
      assert u == [];
    } else if |registerNumber| >= 4 && IsDecimalDigit(registerNumber[2]) && IsDecimalDigit(registerNumber[3]) {
      var hi, lo := registerNumber[2], registerNumber[3];
      assert u == [hi, lo];
      assert !IsJsWhitespace(hi) && hi != '-' && hi != '+';
      assert TrimStart(u) == u;
      assert lo != 'x' && lo != 'X';
      DigitPrefixOfDigits(u);
      assert u[..2] == u;
      assert u[..1] == [hi] && [hi][..0] == [];
      assert DigitsValue([hi], 10) == DecimalValue(hi);
      assert DigitsValue(u, 10) == DigitsValue([hi], 10) * 10 + DecimalValue(lo);
      assert ParseMagnitude(u) == Some(DecimalValue(hi) * 10 + DecimalValue(lo));
    }
  }

  /**
   * `getYearOfStudy`: the current year less 2000, less the batch year read from characters 2..3,
   * plus one; `None` stands for the NaN that an unreadable batch year yields. With two digits at
   * positions 2 and 3 the year is 26 less that two-digit batch year; a number of two characters
   * or fewer has a NaN year.
   */
  function YearOfStudy(registerNumber: string): (y: Option<int>)
    ensures |registerNumber| <= 2 ==> y.None?
    ensures |registerNumber| >= 4 && IsDecimalDigit(registerNumber[2]) && IsDecimalDigit(registerNumber[3]) ==>
              y == Some(26 - (10 * DecimalValue(registerNumber[2]) + DecimalValue(registerNumber[3])))
  {
    BatchYearDigits(registerNumber);
    match ParseInt(JsSubstring(registerNumber, 2, 4))
    case None => None
    case Some(batch) => Some(CurrentYear - 2000 - batch + 1)
  }

  /** A 2024 batch (for instance "RA2411…") is in its second year. */
  lemma SecondYearExample()
    ensures YearOfStudy("RA2411003010001") == Some(2)
  {
    var n := "RA2411003010001";
    assert n[2] == '2' && n[3] == '4';
  }

  // ---------------------------------------------------------------- filtering

  /**
   * The search test: the lower-cased term occurs in the lower-cased name, number, email or phone.
   * The empty term matches everyone, and a term longer than all four fields matches no one.
   */
  predicate MatchesSearch(p: Registration, term: string): (b: bool)
    ensures term == "" ==> b
    ensures b ==> |term| <= |p.name| || |term| <= |p.registerNumber| || |term| <= |p.email| || |term| <= |p.phone|
  {
    var q := Lower(term);
    assert term == "" ==> [] <= Lower(p.name);
    assert Contains(Lower(p.name), q) ==> |q| <= |Lower(p.name)| by {
      if Contains(Lower(p.name), q) { ContainsLength(Lower(p.name), q); }
    }
    assert Contains(Lower(p.registerNumber), q) ==> |q| <= |Lower(p.registerNumber)| by {
      if Contains(Lower(p.registerNumber), q) { ContainsLength(Lower(p.registerNumber), q); }
    }
    assert Contains(Lower(p.email), q) ==> |q| <= |Lower(p.email)| by {
      if Contains(Lower(p.email), q) { ContainsLength(Lower(p.email), q); }
    }
    assert Contains(Lower(p.phone), q) ==> |q| <= |Lower(p.phone)| by {
      if Contains(Lower(p.phone), q) { ContainsLength(Lower(p.phone), q); }
    }
    Contains(Lower(p.name), q) || Contains(Lower(p.registerNumber), q) ||
    Contains(Lower(p.email), q) || Contains(Lower(p.phone), q)
  }

  /** A year or round filter that is `null` or `""` (falsy) constrains nothing. */
  predicate Unset(filter: Option<string>)
  {
    filter.None? || filter.value == ""
  }

  /**
   * A year or round filter: unset constrains nothing, else the text must be equal. Comparing the
   * decimal texts of two numbers compares the numbers, and the text "NaN" never equals a number's.
   */
  predicate MatchesFilter(filter: Option<string>, actual: string): (b: bool)
    ensures Unset(filter) ==> b
    ensures forall n, m :: filter == Some(IntToString(n)) && actual == IntToString(m) ==> (b <==> n == m)
    ensures forall n :: filter == Some(IntToString(n)) && actual == "NaN" ==> !b
  {
    assert forall n, m :: IntToString(n) == IntToString(m) ==> n == m by {
      forall n, m | IntToString(n) == IntToString(m) ensures n == m {
        IntToStringInjective(n, m);
      }
    }
    assert forall n :: IntToString(n) != "NaN" by {
      forall n ensures IntToString(n) != "NaN" {
        assert IntToString(n)[0] != 'N';
      }
    }
    Unset(filter) || actual == filter.value
  }

  /**
   * The `filteredRegistrations` callback: all three tests. A kept participant matches the search;
   * a numeric round or year filter keeps only that round or that year of study; with an empty
   * term and both filters unset everyone is kept.
   */
  predicate Keep(p: Registration, term: string, yearFilter: Option<string>, roundFilter: Option<string>): (b: bool)
    ensures b ==> MatchesSearch(p, term)
    ensures term == "" && Unset(yearFilter) && Unset(roundFilter) ==> b
    ensures forall n :: roundFilter == Some(IntToString(n)) && b ==> p.round == n
    ensures forall n :: yearFilter == Some(IntToString(n)) && b ==> YearOfStudy(p.registerNumber) == Some(n)
  {
    MatchesSearch(p, term) &&
    MatchesFilter(yearFilter, NumberToString(YearOfStudy(p.registerNumber))) &&
    MatchesFilter(roundFilter, IntToString(p.round))
  }

  /** `regs.filter(keep)`: the participants `keep` accepts, in order, each as often as listed. */
  function FilterBy(regs: seq<Registration>, keep: Registration -> bool): (r: seq<Registration>)
    ensures IsSubsequence(r, regs)
    ensures forall p :: p in r <==> p in regs && keep(p)
    ensures forall p :: multiset(r)[p] == if keep(p) then multiset(regs)[p] else 0
    decreases |regs|
  {
    if regs == [] then []
    else
      var last := regs[|regs| - 1];
      var init := FilterBy(regs[..|regs| - 1], keep);
      assert regs == regs[..|regs| - 1] + [last];
      assert multiset(regs) == multiset(regs[..|regs| - 1]) + multiset{last};
      if keep(last) then init + [last] else init
  }

  /** `filteredRegistrations`: the participants passing search, year and round, in order. */
  function FilteredRegistrations(regs: seq<Registration>, term: string, yearFilter: Option<string>,
                                 roundFilter: Option<string>): (r: seq<Registration>)
    ensures IsSubsequence(r, regs)
    ensures forall p :: p in r <==> p in regs && Keep(p, term, yearFilter, roundFilter)
    ensures forall p :: multiset(r)[p] == if Keep(p, term, yearFilter, roundFilter) then multiset(regs)[p] else 0
  {
    FilterBy(regs, p => Keep(p, term, yearFilter, roundFilter))
  }

  /** An empty search term matches every participant. */
  lemma EmptySearchMatches(p: Registration)
    ensures MatchesSearch(p, "")
  {
    assert Lower("") == [];
    assert [] <= Lower(p.name);
  }

  /** A filter that accepts every participant returns the list whole, in order. */
  lemma {:induction false} FilterByAll(regs: seq<Registration>, keep: Registration -> bool)
    requires forall k :: 0 <= k < |regs| ==> keep(regs[k])
    ensures FilterBy(regs, keep) == regs
    decreases |regs|
  {
    if regs != [] {
      var n := |regs| - 1;
      FilterByAll(regs[..n], keep);
      assert regs[..n] + [regs[n]] == regs;
    }
  }

  /** With an empty search term and no year or round filter, every participant is listed, in order. */
  lemma NoFilterKeepsAll(regs: seq<Registration>, yearFilter: Option<string>, roundFilter: Option<string>)
    requires yearFilter.None? || yearFilter.value == ""
    requires roundFilter.None? || roundFilter.value == ""
    ensures FilteredRegistrations(regs, "", yearFilter, roundFilter) == regs
  {
    forall k | 0 <= k < |regs| ensures Keep(regs[k], "", yearFilter, roundFilter) {
      EmptySearchMatches(regs[k]);
    }
    FilterByAll(regs, p => Keep(p, "", yearFilter, roundFilter));
  }

  /** Lower-casing is idempotent, so the search ignores the case of the term. */
  lemma SearchIgnoresTermCase(p: Registration, term: string)
    ensures MatchesSearch(p, term) <==> MatchesSearch(p, Lower(term))
  {
    LowerOfLowercase(Lower(term));
  }

  /** A year filter set to a number keeps exactly the participants in that year of study; NaN years never match it. */
  lemma YearFilterIsExact(p: Registration, year: int)
    ensures MatchesFilter(Some(IntToString(year)), NumberToString(YearOfStudy(p.registerNumber))) <==>
              YearOfStudy(p.registerNumber) == Some(year)
  {
    var y := YearOfStudy(p.registerNumber);
    if y.None? {
      assert IntToString(year)[0] != 'N';
      assert NumberToString(y)[0] == 'N';
    } else if IntToString(y.value) == IntToString(year) {
      IntToStringInjective(y.value, year);
    }
  }

  /** A round filter set to a number keeps exactly the participants whose legacy round is that number. */
  lemma RoundFilterIsExact(p: Registration, round: int)
    ensures MatchesFilter(Some(IntToString(round)), IntToString(p.round)) <==> p.round == round
  {
    if IntToString(p.round) == IntToString(round) {
      IntToStringInjective(p.round, round);
    }
  }

  // ---------------------------------------------------------------- export

  /** One exported CSV record, keyed by its column header (the round as decimal text). */
  function ExportRow(p: Registration): map<string, string>
  {
    map["Name" := p.name, "Registration Number" := p.registerNumber, "Email" := p.email,
        "Phone" := p.phone, "Round" := IntToString(p.round)]
  }

  /**
   * `handleExport`: nothing for an empty filtered list, else one record per listed participant,
   * in order, with the number under "Registration Number" and no "registerNumber" column.
   */
  function Export(filtered: seq<Registration>): (csv: Option<seq<map<string, string>>>)
    ensures csv.None? <==> |filtered| == 0
    ensures csv.Some? ==> |csv.value| == |filtered|
    ensures csv.Some? ==>
              forall k :: 0 <= k < |filtered| ==>
                "Registration Number" in csv.value[k] && "Name" in csv.value[k] &&
                csv.value[k]["Registration Number"] == filtered[k].registerNumber &&
                csv.value[k]["Name"] == filtered[k].name &&
                NumberColumn !in csv.value[k]
  {
    if |filtered| == 0 then None
    else Some(seq(|filtered|, k requires 0 <= k < |filtered| => ExportRow(filtered[k])))
  }

  // ---------------------------------------------------------------- bulk update from a CSV

  const NumberColumn := "registerNumber"

  /** `row.registerNumber`, with an absent column read as the empty string. */
  function NumberCell(row: map<string, string>): string
  {
    if NumberColumn in row then row[NumberColumn] else ""
  }

  /** The `registerNumber` column of the parsed rows, in file order. */
  function Column(rows: seq<map<string, string>>): seq<string>
  {
    seq(|rows|, i requires 0 <= i < |rows| => NumberCell(rows[i]))
  }

  /** `num && num.trim() !== ""`: the column is present and not all whitespace. */
  predicate HasNumber(row: map<string, string>)
  {
    NumberColumn in row && !IsBlank(row[NumberColumn])
  }

  /**
   * `results.data.map(row => row.registerNumber).filter(...)`: the usable numbers, untrimmed, in
   * file order, each non-blank value as often as the column holds it and no blank one.
   */
  function ExtractNumbers(rows: seq<map<string, string>>): (ns: seq<string>)
    ensures |ns| <= |rows|
    ensures IsSubsequence(ns, Column(rows))
    ensures forall x :: multiset(ns)[x] == if IsBlank(x) then 0 else multiset(Column(rows))[x]
    ensures forall x :: x in ns <==> x in Column(rows) && !IsBlank(x)
    decreases |rows|
  {
    if rows == [] then []
    else
      var n := |rows| - 1;
      var init := ExtractNumbers(rows[..n]);
      ExtractStep(rows, init);
      if HasNumber(rows[n]) then init + [NumberCell(rows[n])] else init
  }

  /** One more row: its cell is appended exactly when it is a usable number. */
  lemma ExtractStep(rows: seq<map<string, string>>, init: seq<string>)
    requires rows != []
    requires |init| <= |rows| - 1
    requires IsSubsequence(init, Column(rows[..|rows| - 1]))
    requires forall x :: multiset(init)[x] == if IsBlank(x) then 0 else multiset(Column(rows[..|rows| - 1]))[x]
    ensures var ns := if HasNumber(rows[|rows| - 1]) then init + [NumberCell(rows[|rows| - 1])] else init;
            |ns| <= |rows| &&
            IsSubsequence(ns, Column(rows)) &&
            (forall x :: multiset(ns)[x] == if IsBlank(x) then 0 else multiset(Column(rows))[x]) &&
            forall x :: x in ns <==> x in Column(rows) && !IsBlank(x)
  {
    var n := |rows| - 1;
    var cell := NumberCell(rows[n]);
    ColumnSnoc(rows);
    SubsequenceSnoc(init, Column(rows[..n]), cell);
    var ns := if HasNumber(rows[n]) then init + [cell] else init;
    if HasNumber(rows[n]) {
      assert multiset(ns) == multiset(init) + multiset{cell};
    }
    forall x ensures x in ns <==> x in Column(rows) && !IsBlank(x) {
      assert x in ns <==> multiset(ns)[x] > 0;
      assert x in Column(rows) <==> multiset(Column(rows))[x] > 0;
    }
  }

  /** The column of rows with one more row at the end gains that row's cell. */
  lemma ColumnSnoc(rows: seq<map<string, string>>)
    requires rows != []
    ensures Column(rows) == Column(rows[..|rows| - 1]) + [NumberCell(rows[|rows| - 1])]
    ensures multiset(Column(rows)) == multiset(Column(rows[..|rows| - 1])) + multiset{NumberCell(rows[|rows| - 1])}
    ensures HasNumber(rows[|rows| - 1]) <==> !IsBlank(NumberCell(rows[|rows| - 1]))
  {
    assert Column(rows) == Column(rows[..|rows| - 1]) + [NumberCell(rows[|rows| - 1])];
  }

  /** No extracted number is blank. */
  lemma ExtractedAreNotBlank(rows: seq<map<string, string>>)
    ensures forall x :: x in ExtractNumbers(rows) ==> !IsBlank(x) && x != ""
  {
    forall x | x in ExtractNumbers(rows) ensures !IsBlank(x) && x != "" {
      var i :| 0 <= i < |rows| && HasNumber(rows[i]) && rows[i][NumberColumn] == x;
    }
  }

  /**
   * An exported file read back yields no numbers: the export writes the number under
   * "Registration Number", while the import reads the column "registerNumber".
   */
  lemma ExportThenImportFindsNothing(filtered: seq<Registration>)
    requires Export(filtered).Some?
    ensures ExtractNumbers(Export(filtered).value) == []
  {
    var rows := Export(filtered).value;
    NoUsableNumber(rows);
  }

  /** Rows none of which carries a usable number yield none. */
  lemma {:induction false} NoUsableNumber(rows: seq<map<string, string>>)
    requires forall i :: 0 <= i < |rows| ==> NumberColumn !in rows[i]
    ensures ExtractNumbers(rows) == []
    decreases |rows|
  {
    if rows != [] {
      NoUsableNumber(rows[..|rows| - 1]);
    }
  }

  /** The rounds the bulk modal offers, and the one it starts on. */
  const RoundOptions: seq<string> := ["2", "3"]
  const DefaultRound := "2"

  /**
   * The request `handleBulkUpdate` would send for a chosen file (`None`: no file) and a selected
   * round: none without a file or without a usable number; otherwise the numbers and
   * `parseInt(bulkRound)` (NaN, written as `null` by `JSON.stringify`, is an absent round).
   */
  function BulkUpdateRequest(file: Option<seq<map<string, string>>>, bulkRound: string): (req: Option<RequestBody>)
    ensures req.Some? ==> req.value.Json? && req.value.registrationNumbers.Some?
    ensures req.Some? ==> forall x :: x in req.value.registrationNumbers.value ==> !IsBlank(x)
    ensures req.Some? ==>
              (Validate(req.value).Ok? <==> ParseInt(bulkRound).Some? && 1 <= ParseInt(bulkRound).value <= 3)
  {
    if file.None? then None
    else
      var numbers := ExtractNumbers(file.value);
      if |numbers| == 0 then None
      else Some(Json(Some(numbers), ParseInt(bulkRound)))
  }

  /** A request is sent exactly when a file is chosen and it yields at least one number. */
  lemma RequestOnlyWithNumbers(file: Option<seq<map<string, string>>>, bulkRound: string)
    ensures BulkUpdateRequest(file, bulkRound).Some? <==> file.Some? && |ExtractNumbers(file.value)| > 0
    ensures BulkUpdateRequest(file, bulkRound).Some? ==>
              BulkUpdateRequest(file, bulkRound).value.registrationNumbers == Some(ExtractNumbers(file.value))
  {
  }

  /** The default is offered, and every offered round yields a request that passes bulk-update validation with round 2 or 3. */
  lemma OfferedRoundsPassValidation(file: Option<seq<map<string, string>>>, bulkRound: string)
    requires bulkRound in RoundOptions
    requires BulkUpdateRequest(file, bulkRound).Some?
    ensures DefaultRound in RoundOptions
    ensures Validate(BulkUpdateRequest(file, bulkRound).value).Ok?
    ensures Validate(BulkUpdateRequest(file, bulkRound).value).body.round in {2, 3}
  {
    if bulkRound == "2" {
      ParseIntOfIntToString(2);
      assert IntToString(2) == "2";
    } else {
      ParseIntOfIntToString(3);
      assert IntToString(3) == "3";
    }
  }
}
