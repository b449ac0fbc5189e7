/**
 * The JavaScript string operations the routes and the roster page rely on:
 * `toLowerCase`, `includes`, Postgres `ILIKE '%p%'`, `trim`, `Number.prototype.toString`,
 * `parseInt` and `Array.prototype.join`. Case mapping is ASCII only.
 */
module Text {
  import opened Basics

  // ---------------------------------------------------------------- case

  function LowerChar(c: char): char
  {
    if 'A' <= c <= 'Z' then (c as int + 32) as char else c
  }

  predicate IsUpper(c: char) { 'A' <= c <= 'Z' }

  /** `s.toLowerCase()`, restricted to ASCII letters. */
  function Lower(s: string): (r: string)
    ensures |r| == |s|
    ensures forall i :: 0 <= i < |s| ==> r[i] == LowerChar(s[i])
    ensures forall i :: 0 <= i < |r| ==> !IsUpper(r[i])
  {
    seq(|s|, i requires 0 <= i < |s| => LowerChar(s[i]))
  }

  /** A string with no upper-case ASCII letter is its own lower case (the literal patterns). */
  lemma LowerOfLowercase(s: string)
    requires forall i :: 0 <= i < |s| ==> !IsUpper(s[i])
    ensures Lower(s) == s
  {
  }

  // ---------------------------------------------------------------- substring

  /** `s.includes(p)`: `p` occurs in `s` at some offset. */
  predicate Contains(s: string, p: string)
    decreases |s|
  {
    p <= s || (s != [] && Contains(s[1..], p))
  }

  /** Every character of a contained pattern is a character of the string. */
  lemma {:induction false} ContainsChars(s: string, p: string, i: nat)
    requires Contains(s, p) && i < |p|
    ensures p[i] in s
    decreases |s|
  {
    if p <= s {
      assert s[i] == p[i];
    } else {
      ContainsChars(s[1..], p, i);
      assert s == [s[0]] + s[1..];
    }
  }

  /** A string containing `p` still contains it once something is put in front. */
  lemma {:induction false} ContainsPrepend(a: string, s: string, p: string)
    requires Contains(s, p)
    ensures Contains(a + s, p)
    decreases |a|
  {
    if a != [] {
      ContainsPrepend(a[1..], s, p);
      assert (a + s)[1..] == a[1..] + s;
    } else {
      assert a + s == s;
    }
  }

  /** Patterns a string contains are still contained once something is put in front. */
  lemma ContainsPrependAll(a: string, s: string, ps: seq<string>)
    requires forall k :: 0 <= k < |ps| ==> Contains(s, ps[k])
    ensures forall k :: 0 <= k < |ps| ==> Contains(a + s, ps[k])
  {
    forall k | 0 <= k < |ps| ensures Contains(a + s, ps[k]) {
      ContainsPrepend(a, s, ps[k]);
    }
  }

  /** Appending a non-empty tail that contains each pattern keeps the prefix and gains every pattern. */
  lemma AppendContaining(head: string, tail: string, ps: seq<string>)
    requires tail != []
    requires forall k :: 0 <= k < |ps| ==> Contains(tail, ps[k])
    ensures head <= head + tail && head + tail != head
    ensures forall k :: 0 <= k < |ps| ==> Contains(head + tail, ps[k])
  {
    ContainsPrependAll(head, tail, ps);
    assert |head + tail| > |head|;
  }

  /** Every pattern a string contains is no longer than it. */
  lemma {:induction false} ContainsLength(s: string, p: string)
    requires Contains(s, p)
    ensures |p| <= |s|
    decreases |s|
  {
    if !(p <= s) {
      ContainsLength(s[1..], p);
    }
  }

  /** Postgres `field ILIKE '%p%'` for a pattern without `%` or `_`. */
  predicate ContainsIgnoreCase(s: string, p: string)
  {
    Contains(Lower(s), Lower(p))
  }

  // ---------------------------------------------------------------- whitespace

  /** ECMAScript WhiteSpace or LineTerminator code point (what `trim` and `parseInt` skip). */
  predicate IsJsWhitespace(c: char)
  {
    var n := c as int;
    n == 0x09 || n == 0x0A || n == 0x0B || n == 0x0C || n == 0x0D || n == 0x20 ||
    n == 0xA0 || n == 0x1680 || (0x2000 <= n <= 0x200A) || n == 0x2028 || n == 0x2029 ||
    n == 0x202F || n == 0x205F || n == 0x3000 || n == 0xFEFF
  }

  /** `s.trim() === ""`. */
  predicate IsBlank(s: string)
  {
    forall i :: 0 <= i < |s| ==> IsJsWhitespace(s[i])
  }

  function TrimStart(s: string): (r: string)
    ensures r <= s || (|r| <= |s| && r == s[|s| - |r|..])
    ensures r != [] ==> !IsJsWhitespace(r[0])
  {
    if s != [] && IsJsWhitespace(s[0]) then TrimStart(s[1..]) else s
  }

  // ---------------------------------------------------------------- numbers to text

  predicate IsDecimalDigit(c: char) { '0' <= c <= '9' }

  function DigitChar(d: nat): (c: char)
    requires d < 10
    ensures IsDecimalDigit(c)
  {
    ('0' as int + d) as char
  }

  /** Decimal text of a non-negative integer, as `Number.prototype.toString()` writes it. */
  function NatToString(n: nat): (r: string)
    ensures |r| > 0
    ensures forall i :: 0 <= i < |r| ==> IsDecimalDigit(r[i])
    decreases n
  {
    if n < 10 then [DigitChar(n)] else NatToString(n / 10) + [DigitChar(n % 10)]
  }

  /** `i.toString()` for an integer-valued number. */
  function IntToString(i: int): (r: string)
    ensures |r| > 0
    ensures forall k :: 0 <= k < |r| ==> IsDecimalDigit(r[k]) || r[k] == '-'
  {
    if i < 0 then "-" + NatToString(-i) else NatToString(i)
  }

  /** `toString()` of a number that may be NaN (`None`). */
  function NumberToString(n: Option<int>): string
  {
    if n.None? then "NaN" else IntToString(n.value)
  }

  // ---------------------------------------------------------------- parseInt

  /** Value of `c` as a digit in bases up to 36; 36 when `c` is no digit at all. */
  function DigitValue(c: char): (v: nat)
    ensures v <= 36
  {
    if '0' <= c <= '9' then c as int - '0' as int
    else if 'a' <= c <= 'z' then c as int - 'a' as int + 10
    else if 'A' <= c <= 'Z' then c as int - 'A' as int + 10
    else 36
  }

  /** Length of the longest prefix of `s` made of digits of `radix`. */
  function DigitPrefixLength(s: string, radix: nat): (n: nat)
    ensures n <= |s|
  {
    if s != [] && DigitValue(s[0]) < radix then 1 + DigitPrefixLength(s[1..], radix) else 0
  }

  /** Value of a string of digits of `radix`, most significant first. */
  function DigitsValue(s: string, radix: nat): nat
  {
    if s == [] then 0
    else DigitsValue(s[..|s| - 1], radix) * radix + DigitValue(s[|s| - 1])
  }

  /** Magnitude read by `parseInt` once leading whitespace and the sign are gone. */
  function ParseMagnitude(u: string): Option<nat>
  {
    var hex := |u| >= 2 && u[0] == '0' && (u[1] == 'x' || u[1] == 'X');
    var radix := if hex then 16 else 10;
    var digits := if hex then u[2..] else u;
    var n := DigitPrefixLength(digits, radix);
    if n == 0 then None else Some(DigitsValue(digits[..n], radix))
  }

  /** `parseInt(s)` without a radix argument; `None` stands for NaN. */
  function ParseInt(s: string): (r: Option<int>)
    ensures IsBlank(s) ==> r.None?
    ensures |s| > 0 && IsDecimalDigit(s[0]) && (|s| == 1 || IsDecimalDigit(s[1])) ==> r.Some? && r.value >= 0
  {
    var t := TrimStart(s);
    var negative := t != [] && t[0] == '-';
    var u := if t != [] && (t[0] == '-' || t[0] == '+') then t[1..] else t;
    match ParseMagnitude(u)
    case None => None
    case Some(m) => Some(if negative then -(m as int) else m as int)
  }

  lemma {:induction false} DigitPrefixOfDigits(s: string)
    requires forall i :: 0 <= i < |s| ==> IsDecimalDigit(s[i])
    ensures DigitPrefixLength(s, 10) == |s|
    decreases |s|
  {
    if s != [] {
      DigitPrefixOfDigits(s[1..]);
    }
  }

  lemma {:induction false} ValueOfNatToString(n: nat)
    ensures DigitsValue(NatToString(n), 10) == n
    decreases n
  {
    var r := NatToString(n);
    if n < 10 {
      assert r[..0] == [];
    } else {
      ValueOfNatToString(n / 10);
      assert r[..|r| - 1] == NatToString(n / 10);
    }
  }

  lemma ParseMagnitudeOfNat(n: nat)
    ensures ParseMagnitude(NatToString(n)) == Some(n)
  {
    var u := NatToString(n);
    assert !(|u| >= 2 && u[1] == 'x') && !(|u| >= 2 && u[1] == 'X') by {
      if |u| >= 2 { assert IsDecimalDigit(u[1]); }
    }
    DigitPrefixOfDigits(u);
    assert u[..|u|] == u;
    ValueOfNatToString(n);
  }

  /** A string starting with a sign or a digit has no leading whitespace to skip. */
  lemma TrimStartOfSignOrDigit(s: string)
    requires s != [] && (IsDecimalDigit(s[0]) || s[0] == '-')
    ensures TrimStart(s) == s
  {
    assert !IsJsWhitespace(s[0]);
  }

  /** `parseInt` reads back what `toString` wrote. */
  lemma ParseIntOfIntToString(i: int)
    ensures ParseInt(IntToString(i)) == Some(i)
  {
    var s := IntToString(i);
    TrimStartOfSignOrDigit(s);
    if i < 0 {
      assert s[0] == '-' && s[1..] == NatToString(-i);
      ParseMagnitudeOfNat(-i);
    } else {
      assert s == NatToString(i) && IsDecimalDigit(s[0]);
      ParseMagnitudeOfNat(i);
    }
  }

  /** `toString` is injective on integers. */
  lemma IntToStringInjective(i: int, j: int)
    requires IntToString(i) == IntToString(j)
    ensures i == j
  {
    ParseIntOfIntToString(i);
    ParseIntOfIntToString(j);
  }

  // ---------------------------------------------------------------- join

  /** `xs.join(sep)`. */
  function Join(xs: seq<string>, sep: string): (r: string)
    ensures |xs| == 0 ==> r == ""
    ensures |xs| == 1 ==> r == xs[0]
    ensures |xs| > 0 ==> xs[0] <= r
    ensures forall k :: 0 <= k < |xs| ==> Contains(r, xs[k])
    decreases |xs|
  {
    if |xs| == 0 then ""
    else if |xs| == 1 then xs[0]
    else
      var rest := Join(xs[1..], sep);
      ContainsPrependAll(xs[0] + sep, rest, xs[1..]);
      assert forall k :: 1 <= k < |xs| ==> xs[k] == xs[1..][k - 1];
      xs[0] + sep + rest
  }

  /** Joining one more element appends the separator and that element: the elements appear in order, one separator between neighbours. */
  lemma {:induction false} JoinSnoc(xs: seq<string>, x: string, sep: string)
    requires xs != []
    ensures Join(xs + [x], sep) == Join(xs, sep) + sep + x
    decreases |xs|
  {
    if |xs| == 1 {
      assert (xs + [x])[1..] == [x];
    } else {
      assert (xs + [x])[1..] == xs[1..] + [x];
      JoinSnoc(xs[1..], x, sep);
    }
  }
}
