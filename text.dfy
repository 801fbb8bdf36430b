/** Strings as Python and SQLite see them: whitespace stripping, ASCII case
    mapping, code-point order, substrings, and decimal integers. */
module Text {
  import opened Wrappers

  /** The characters for which Python's `str.isspace()` holds. */
  predicate IsSpace(c: char) {
    || c == ' '
    || ('\t' <= c <= '\r')
    || ('\U{1C}' <= c <= '\U{1F}')
    || c == '\U{85}' || c == '\U{A0}' || c == '\U{1680}'
    || ('\U{2000}' <= c <= '\U{200A}')
    || c == '\U{2028}' || c == '\U{2029}' || c == '\U{202F}'
    || c == '\U{205F}' || c == '\U{3000}'
  }

  predicate AllSpace(s: string) {
    forall i :: 0 <= i < |s| ==> IsSpace(s[i])
  }

  /** The number of whitespace characters `s` starts with. */
  function LeadingSpaces(s: string): (k: nat)
    ensures k <= |s| && AllSpace(s[..k])
    ensures k == |s| || !IsSpace(s[k])
  {
    if s != [] && IsSpace(s[0]) then
      var k := 1 + LeadingSpaces(s[1..]);
      assert forall i :: 1 <= i < k ==> s[..k][i] == s[1..][..k - 1][i - 1];
      k
    else 0
  }

  /** Where the run of whitespace `s` ends with begins. */
  function TrailingStart(s: string): (k: nat)
    ensures k <= |s| && AllSpace(s[k..])
    ensures k == 0 || !IsSpace(s[k - 1])
  {
    if s != [] && IsSpace(s[|s| - 1]) then
      TrailingStart(s[..|s| - 1])
    else |s|
  }

  /** `s.lstrip()`: `s` without its leading whitespace. */
  function LStrip(s: string): string {
    s[LeadingSpaces(s)..]
  }

  /** `s.rstrip()`: `s` without its trailing whitespace. */
  function RStrip(s: string): string {
    s[..TrailingStart(s)]
  }

  /** `r` is `s` with some whitespace removed from its two ends. */
  predicate TrimOf(r: string, s: string) {
    exists i, j :: 0 <= i <= j <= |s| && r == s[i..j] && AllSpace(s[..i]) && AllSpace(s[j..])
  }

  /** `s.strip()` */
  function Strip(s: string): (r: string)
    ensures |r| <= |s|
    ensures TrimOf(r, s)
    ensures r == [] || (!IsSpace(r[0]) && !IsSpace(r[|r| - 1]))
    ensures r == [] <==> AllSpace(s)
  {
    var i := LeadingSpaces(s);
    var l := LStrip(s);
    var j := i + TrailingStart(l);
    assert s[i..j] == RStrip(l) && s[j..] == l[TrailingStart(l)..];
    assert l == [] ==> AllSpace(s) by {
      if l == [] { assert s[..LeadingSpaces(s)] == s; }
    }
    var r := RStrip(l);
    assert r == [] ==> AllSpace(l) by {
      if r == [] { assert l[TrailingStart(l)..] == l; }
    }
    assert r != [] ==> r[0] == l[0];
    r
  }

  /** Where leading whitespace stops is determined by the string. */
  lemma LeadEndUnique(s: string, i: nat, i': nat)
    requires i < |s| && i' < |s| && AllSpace(s[..i]) && AllSpace(s[..i'])
    requires !IsSpace(s[i]) && !IsSpace(s[i'])
    ensures i == i'
  {
  }

  /** Where trailing whitespace starts is determined by the string. */
  lemma TrailStartUnique(s: string, j: nat, j': nat)
    requires 0 < j <= |s| && 0 < j' <= |s| && AllSpace(s[j..]) && AllSpace(s[j'..])
    requires !IsSpace(s[j - 1]) && !IsSpace(s[j' - 1])
    ensures j == j'
  {
  }

  /** Trimming nothing but whitespace from both ends to leave nothing means it was all whitespace. */
  lemma EmptyTrim(s: string, i: nat)
    requires i <= |s| && AllSpace(s[..i]) && AllSpace(s[i..])
    ensures AllSpace(s)
  {
    forall k | 0 <= k < |s| ensures IsSpace(s[k]) {
      if k < i { assert s[..i][k] == s[k]; } else { assert s[i..][k - i] == s[k]; }
    }
  }

  /** Of all the ways to trim `s`, the one whose ends are not whitespace is `Strip(s)`:
      the contract of `Strip` determines its result. */
  lemma StripUnique(s: string, r: string)
    requires TrimOf(r, s)
    requires r == [] || (!IsSpace(r[0]) && !IsSpace(r[|r| - 1]))
    ensures r == Strip(s)
  {
    var i, j :| 0 <= i <= j <= |s| && r == s[i..j] && AllSpace(s[..i]) && AllSpace(s[j..]);
    if r == [] {
      EmptyTrim(s, i);
    } else {
      assert !IsSpace(s[i]) by { assert s[i] == r[0]; }
      assert !IsSpace(s[j - 1]) by { assert s[j - 1] == r[|r| - 1]; }
      StripAt(s, i, j);
    }
  }

  /** A trim at `i..j` whose ends are not whitespace is `Strip(s)`. */
  lemma StripAt(s: string, i: nat, j: nat)
    requires i < j <= |s| && AllSpace(s[..i]) && AllSpace(s[j..])
    requires !IsSpace(s[i]) && !IsSpace(s[j - 1])
    ensures s[i..j] == Strip(s)
  {
    assert !AllSpace(s) by { assert !IsSpace(s[i]); }
    var i', j' := StripBounds(s);
    LeadEndUnique(s, i, i');
    TrailStartUnique(s, j, j');
  }

  /** Where `Strip` cuts a string that is not all whitespace. */
  lemma StripBounds(s: string) returns (i: nat, j: nat)
    requires !AllSpace(s)
    ensures i < j <= |s| && Strip(s) == s[i..j] && AllSpace(s[..i]) && AllSpace(s[j..])
    ensures !IsSpace(s[i]) && !IsSpace(s[j - 1])
  {
    var t := Strip(s);
    i, j :| 0 <= i <= j <= |s| && t == s[i..j] && AllSpace(s[..i]) && AllSpace(s[j..]);
    assert s[i] == t[0] && s[j - 1] == t[|t| - 1];
  }

  /** Stripping a string that starts and ends with a non-space leaves it as it is. */
  lemma StripTrimmed(s: string)
    requires s == [] || (!IsSpace(s[0]) && !IsSpace(s[|s| - 1]))
    ensures Strip(s) == s
  {
  }

  /** `strip()` is idempotent. */
  lemma StripIdempotent(s: string)
    ensures Strip(Strip(s)) == Strip(s)
  {
    StripTrimmed(Strip(s));
  }

  function LowerChar(c: char): char {
    if 'A' <= c <= 'Z' then (c as int + 32) as char else c
  }

  function UpperChar(c: char): char {
    if 'a' <= c <= 'z' then (c as int - 32) as char else c
  }

  /** `s.lower()` on ASCII letters */
  function Lower(s: string): (r: string)
    ensures |r| == |s| && forall i :: 0 <= i < |s| ==> r[i] == LowerChar(s[i])
  {
    seq(|s|, i requires 0 <= i < |s| => LowerChar(s[i]))
  }

  /** `s.upper()` on ASCII letters */
  function Upper(s: string): (r: string)
    ensures |r| == |s| && forall i :: 0 <= i < |s| ==> r[i] == UpperChar(s[i])
  {
    seq(|s|, i requires 0 <= i < |s| => UpperChar(s[i]))
  }

  predicate IsDigit(c: char) {
    '0' <= c <= '9'
  }

  predicate AllDigits(s: string) {
    forall i :: 0 <= i < |s| ==> IsDigit(s[i])
  }

  /** Code-point (lexicographic) order on strings, which is both Python's `<`
      on `str` and SQLite's BINARY collation on UTF-8 text. */
  predicate Less(a: string, b: string) {
    if a == [] then b != []
    else if b == [] then false
    else a[0] < b[0] || (a[0] == b[0] && Less(a[1..], b[1..]))
  }

  lemma {:induction false} LessIrreflexive(a: string)
    ensures !Less(a, a)
  {
    if a != [] {
      LessIrreflexive(a[1..]);
    }
  }

  lemma {:induction false} LessTransitive(a: string, b: string, c: string)
    requires Less(a, b) && Less(b, c)
    ensures Less(a, c)
  {
    if a != [] && b != [] && c != [] && a[0] == b[0] == c[0] {
      LessTransitive(a[1..], b[1..], c[1..]);
    }
  }

  lemma {:induction false} LessTotal(a: string, b: string)
    ensures a == b || Less(a, b) || Less(b, a)
  {
    if a != [] && b != [] && a[0] == b[0] {
      LessTotal(a[1..], b[1..]);
      if a[1..] == b[1..] {
        assert a == [a[0]] + a[1..] && b == [b[0]] + b[1..];
      }
    }
  }

  lemma {:induction false} LessAsymmetric(a: string, b: string)
    requires Less(a, b)
    ensures !Less(b, a)
  {
    if a != [] && b != [] && a[0] == b[0] {
      LessAsymmetric(a[1..], b[1..]);
    }
  }

  /** `x` is a prefix of `t` */
  predicate IsPrefix(x: string, t: string) {
    |x| <= |t| && t[..|x|] == x
  }

  /** Python's `x in t` for strings: `x` occurs in `t` at some position. */
  predicate IsSubstring(x: string, t: string)
    decreases |t|
  {
    IsPrefix(x, t) || (t != [] && IsSubstring(x, t[1..]))
  }

  lemma {:induction false} SubstringAt(x: string, t: string)
    ensures IsSubstring(x, t) <==> exists i :: 0 <= i <= |t| && IsPrefix(x, t[i..])
    decreases |t|
  {
    assert t[0..] == t;
    if t != [] {
      SubstringAt(x, t[1..]);
      if IsSubstring(x, t[1..]) {
        var i :| 0 <= i <= |t[1..]| && IsPrefix(x, t[1..][i..]);
        assert t[1..][i..] == t[i + 1..];
      }
      if exists i :: 0 <= i <= |t| && IsPrefix(x, t[i..]) {
        var i :| 0 <= i <= |t| && IsPrefix(x, t[i..]);
        if i > 0 {
          assert t[1..][i - 1..] == t[i..];
        }
      }
    }
  }

  function DigitValue(c: char): nat
    requires IsDigit(c)
  {
    c as int - '0' as int
  }

  function DigitChar(d: nat): (c: char)
    requires d < 10
    ensures IsDigit(c) && DigitValue(c) == d
  {
    ('0' as int + d) as char
  }

  /** The value of a string of decimal digits, most significant first. */
  function DigitsValue(s: string): nat
    requires AllDigits(s)
  {
    if s == [] then 0 else DigitsValue(s[..|s| - 1]) * 10 + DigitValue(s[|s| - 1])
  }

  /** `str(n)` for a non-negative integer */
  function NatToString(n: nat): (r: string)
    ensures r != [] && AllDigits(r)
  {
    if n < 10 then [DigitChar(n)] else NatToString(n / 10) + [DigitChar(n % 10)]
  }

  /** `str(i)` for an integer */
  function IntToString(i: int): (r: string)
    ensures r != []
  {
    if i < 0 then "-" + NatToString(-i) else NatToString(i)
  }

  lemma {:induction false} DigitsOfNat(n: nat)
    ensures DigitsValue(NatToString(n)) == n
  {
    if n >= 10 {
      DigitsOfNat(n / 10);
      var s := NatToString(n / 10) + [DigitChar(n % 10)];
      assert s[..|s| - 1] == NatToString(n / 10);
    }
  }

  /** The digits of a decimal literal as Python reads it: ASCII digits with single
      underscores allowed between two digits (PEP 515). */
  predicate WellGrouped(u: string) {
    && |u| > 0 && IsDigit(u[0]) && IsDigit(u[|u| - 1])
    && (forall i :: 0 <= i < |u| ==> IsDigit(u[i]) || u[i] == '_')
    && !IsSubstring("__", u)
  }

  function DropUnderscores(u: string): (r: string)
    requires forall i :: 0 <= i < |u| ==> IsDigit(u[i]) || u[i] == '_'
    ensures AllDigits(r)
    ensures AllDigits(u) ==> r == u
  {
    if u == [] then []
    else (if u[0] == '_' then [] else [u[0]]) + DropUnderscores(u[1..])
  }

  /** Python's `int(s)` on a string: surrounding whitespace, an optional sign, then a
      grouped decimal literal; anything else raises, which is `None` here. */
  function ParseInt(s: string): (r: Option<int>)
    ensures r.Some? ==> Strip(s) != []
  {
    ParseLiteral(Strip(s))
  }

  /** `int` on text that has already been stripped */
  function ParseLiteral(t: string): Option<int> {
    if t == [] then None
    else
      var signed := t[0] == '+' || t[0] == '-';
      var body := if signed then t[1..] else t;
      if !WellGrouped(body) then None
      else
        var n: int := DigitsValue(DropUnderscores(body));
        Some(if t[0] == '-' then -n else n)
  }

  lemma {:induction false} DigitsHaveNoUnderscores(u: string)
    requires AllDigits(u)
    ensures !IsSubstring("__", u)
    decreases |u|
  {
    if u != [] {
      assert !IsPrefix("__", u) by {
        if |u| >= 2 { assert u[..2][0] == u[0]; }
      }
      DigitsHaveNoUnderscores(u[1..]);
    }
  }

  lemma DigitsAreWellGrouped(d: string)
    requires d != [] && AllDigits(d)
    ensures WellGrouped(d) && DropUnderscores(d) == d
  {
    DigitsHaveNoUnderscores(d);
  }

  /** Stripped text made of digits alone, possibly after a minus sign, is read
      as its decimal value. */
  lemma DigitBodyLiteral(t: string, d: string)
    requires d != [] && AllDigits(d)
    requires t == d || t == "-" + d
    ensures ParseLiteral(t) == Some(if t == d then DigitsValue(d) as int else -(DigitsValue(d) as int))
  {
    DigitsAreWellGrouped(d);
    if t != d {
      assert t[1..] == d;
    }
  }

  /** A plain run of digits, with or without a minus sign, is read as its decimal value. */
  lemma DigitLiteral(d: string)
    requires d != [] && AllDigits(d)
    ensures ParseInt(d) == Some(DigitsValue(d) as int)
    ensures ParseInt("-" + d) == Some(-(DigitsValue(d) as int))
  {
    StripTrimmed(d);
    DigitBodyLiteral(d, d);
    var t := "-" + d;
    assert t[0] == '-' && t[|t| - 1] == d[|d| - 1];
    StripTrimmed(t);
    DigitBodyLiteral(t, d);
  }

  /** `int(str(i)) == i`: the decimal text Python prints reads back as the same integer. */
  lemma {:induction false} IntStringRoundTrip(i: int)
    ensures ParseInt(IntToString(i)) == Some(i)
  {
    var n: nat := if i < 0 then -i else i;
    DigitsOfNat(n);
    DigitLiteral(NatToString(n));
  }
}
