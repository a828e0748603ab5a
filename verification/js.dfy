/*******************************************************************************
 *  JavaScript value semantics that the event-day pages rely on: optional values
 *  with JS truthiness, JSON payloads, String.prototype.trim, parseInt and the
 *  decimal rendering of integers.
 *******************************************************************************/

module Js {

  /** A value that may be null/undefined. */
  datatype Option<+T> = None | Some(value: T)

  /** The JSON bodies the pages send to the server. */
  datatype Json =
    | JNull
    | JBool(b: bool)
    | JNum(n: int)
    | JStr(s: string)
    | JObj(fields: map<string, Json>)

  // ---------------------------------------------------------------------------
  // Truthiness: `x || d` replaces every falsy x (null, undefined, 0, NaN, "")
  // ---------------------------------------------------------------------------

  /** A number that JS treats as false: missing (null/undefined/NaN) or zero. */
  predicate FalsyNum(x: Option<int>) {
    x.None? || x.value == 0
  }

  /** A string that JS treats as false: missing or empty. */
  predicate FalsyStr(x: Option<string>) {
    x.None? || x.value == ""
  }

  /** `x || d` on a number. */
  function OrNum(x: Option<int>, d: int): (r: int)
    ensures !FalsyNum(x) ==> r == x.value
    ensures FalsyNum(x) ==> r == d
  {
    if FalsyNum(x) then d else x.value
  }

  /** `x || d` on a string. */
  function OrStr(x: Option<string>, d: string): (r: string)
    ensures !FalsyStr(x) ==> r == x.value
    ensures FalsyStr(x) ==> r == d
  {
    if FalsyStr(x) then d else x.value
  }

  // ---------------------------------------------------------------------------
  // Whitespace and trim (ECMAScript WhiteSpace and LineTerminator code points)
  // ---------------------------------------------------------------------------

  predicate IsJsSpace(c: char) {
    || c == '\t' || c == '\n' || c == '\U{000B}' || c == '\U{000C}' || c == '\r' || c == ' '
    || c == '\U{00A0}' || c == '\U{1680}' || ('\U{2000}' <= c <= '\U{200A}')
    || c == '\U{2028}' || c == '\U{2029}' || c == '\U{202F}' || c == '\U{205F}'
    || c == '\U{3000}' || c == '\U{FEFF}'
  }

  predicate AllSpace(s: string) {
    forall i :: 0 <= i < |s| ==> IsJsSpace(s[i])
  }

  /** The first position at or after i that does not hold white space. */
  function SkipSpace(s: string, i: nat): (j: nat)
    requires i <= |s|
    ensures i <= j <= |s|
    ensures forall k | i <= k < j :: IsJsSpace(s[k])
    ensures j == |s| || !IsJsSpace(s[j])
    decreases |s| - i
  {
    if i < |s| && IsJsSpace(s[i]) then SkipSpace(s, i + 1) else i
  }

  /** Walking back from j, but not below lo: the position after the last
      character that is not white space. */
  function SkipSpaceBack(s: string, lo: nat, j: nat): (i: nat)
    requires lo <= j <= |s|
    ensures lo <= i <= j
    ensures forall k | i <= k < j :: IsJsSpace(s[k])
    ensures i == lo || !IsJsSpace(s[i - 1])
    decreases j
  {
    if j > lo && IsJsSpace(s[j - 1]) then SkipSpaceBack(s, lo, j - 1) else j
  }

  /** The text without its leading white space. */
  function TrimStart(s: string): string {
    s[SkipSpace(s, 0)..]
  }

  /** `s.trim()`: white space dropped at both ends. */
  function Trim(s: string): (r: string)
    ensures |r| <= |s|
    ensures r == [] || (!IsJsSpace(r[0]) && !IsJsSpace(r[|r| - 1]))
  {
    var i := SkipSpace(s, 0);
    s[i..SkipSpaceBack(s, i, |s|)]
  }

  /** What trim leaves is the infix of s between two runs of white space. */
  lemma TrimIsInfix(s: string) returns (i: nat, j: nat)
    ensures i <= j <= |s| && Trim(s) == s[i..j] && AllSpace(s[..i]) && AllSpace(s[j..])
  {
    i := SkipSpace(s, 0);
    j := SkipSpaceBack(s, i, |s|);
    assert forall k | 0 <= k < i :: s[..i][k] == s[k];
    assert forall k | 0 <= k < |s| - j :: s[j..][k] == s[j + k];
  }

  /** Conversely, an infix between two runs of white space that neither
      starts nor ends with white space is what trim leaves. */
  lemma TrimUnique(s: string, i: nat, j: nat)
    requires i <= j <= |s| && AllSpace(s[..i]) && AllSpace(s[j..])
    requires i == j || (!IsJsSpace(s[i]) && !IsJsSpace(s[j - 1]))
    ensures Trim(s) == s[i..j]
  {
    assert forall k | 0 <= k < i :: IsJsSpace(s[k]) by {
      assert forall k | 0 <= k < i :: s[..i][k] == s[k];
    }
    assert forall k | j <= k < |s| :: IsJsSpace(s[k]) by {
      assert forall k | j <= k < |s| :: s[j..][k - j] == s[k];
    }
    var a := SkipSpace(s, 0);
    if i == j {
      assert a == |s|;
      assert SkipSpaceBack(s, a, |s|) == |s|;
    } else {
      assert a == i;
      var b := SkipSpaceBack(s, a, |s|);
      assert b == j;
    }
  }

  /** Surrounding white space never changes the result of trim. */
  lemma TrimIgnoresSurroundingSpace(w1: string, s: string, w2: string)
    requires AllSpace(w1) && AllSpace(w2)
    ensures Trim(w1 + s + w2) == Trim(s)
  {
    var i, j := TrimIsInfix(s);
    PaddedSlices(w1, s, w2, i, j);
    AllSpaceConcat(w1, s[..i]);
    AllSpaceConcat(s[j..], w2);
    TrimUnique(w1 + s + w2, |w1| + i, |w1| + j);
  }

  /** How the slices of s sit inside w1 + s + w2. */
  lemma PaddedSlices(w1: string, s: string, w2: string, i: nat, j: nat)
    requires i <= j <= |s|
    ensures var t, n := w1 + s + w2, |w1|;
      && t[n + i..n + j] == s[i..j]
      && t[..n + i] == w1 + s[..i]
      && t[n + j..] == s[j..] + w2
      && (i < j ==> t[n + i] == s[i] && t[n + j - 1] == s[j - 1])
  {
  }

  lemma AllSpaceConcat(a: string, b: string)
    requires AllSpace(a) && AllSpace(b)
    ensures AllSpace(a + b)
  {
    assert forall k | 0 <= k < |a + b| :: (a + b)[k] == if k < |a| then a[k] else b[k - |a|];
  }

  /** Trimming is idempotent. */
  lemma TrimIdempotent(s: string)
    ensures Trim(Trim(s)) == Trim(s)
  {
    var r := Trim(s);
    assert r[..0] == [] && r[|r|..] == [];
    assert r[0..|r|] == r;
    TrimUnique(r, 0, |r|);
  }

  /** `s.startsWith(p)`. */
  predicate StartsWith(s: string, p: string) {
    |p| <= |s| && s[..|p|] == p
  }

  // ---------------------------------------------------------------------------
  // Decimal digits
  // ---------------------------------------------------------------------------

  predicate IsDecimal(c: char) {
    '0' <= c <= '9'
  }

  predicate AllDecimal(s: string) {
    forall i :: 0 <= i < |s| ==> IsDecimal(s[i])
  }

  /** The value of one digit in the given radix (10 or 16), if it is one. */
  function DigitValue(c: char, radix: nat): (r: Option<nat>)
    requires radix == 10 || radix == 16
    ensures r.Some? ==> r.value < radix
    ensures radix == 10 ==> (r.Some? <==> IsDecimal(c))
  {
    if '0' <= c <= '9' then Some(c as nat - '0' as nat)
    else if radix == 16 && 'a' <= c <= 'f' then Some(c as nat - 'a' as nat + 10)
    else if radix == 16 && 'A' <= c <= 'F' then Some(c as nat - 'A' as nat + 10)
    else None
  }

  predicate AllDigits(s: string, radix: nat)
    requires radix == 10 || radix == 16
  {
    forall i :: 0 <= i < |s| ==> DigitValue(s[i], radix).Some?
  }

  /** The value of a digit string, most significant digit first. */
  function DigitsValue(s: string, radix: nat): nat
    requires radix == 10 || radix == 16
    requires AllDigits(s, radix)
  {
    if |s| == 0 then 0
    else DigitsValue(s[..|s| - 1], radix) * radix + DigitValue(s[|s| - 1], radix).value
  }

  /** The longest prefix of s made of digits of the radix. */
  function DigitPrefix(s: string, radix: nat): (r: string)
    requires radix == 10 || radix == 16
    ensures |r| <= |s| && r == s[..|r|] && AllDigits(r, radix)
    ensures |r| == |s| || DigitValue(s[|r|], radix).None?
  {
    if |s| > 0 && DigitValue(s[0], radix).Some? then [s[0]] + DigitPrefix(s[1..], radix) else []
  }

  /** The decimal text of a natural number, without leading zeros. */
  function Digits(n: nat): (r: string)
    ensures |r| >= 1 && AllDecimal(r)
    ensures n >= 10 ==> r[0] != '0'
    ensures n < 10 <==> |r| == 1
  {
    if n < 10 then [('0' as nat + n) as char]
    else Digits(n / 10) + [('0' as nat + n % 10) as char]
  }

  /** `String(n)` for an integer n. */
  function NumberToString(n: int): string {
    if n < 0 then "-" + Digits(-n) else Digits(n)
  }

  lemma {:induction false} DigitsRoundTrip(n: nat)
    ensures AllDigits(Digits(n), 10)
    ensures DigitsValue(Digits(n), 10) == n
    decreases n
  {
    var d := Digits(n);
    if n >= 10 {
      DigitsRoundTrip(n / 10);
      assert d[..|d| - 1] == Digits(n / 10);
    }
  }

  /** Leading zeros do not change the value of a digit string. */
  lemma {:induction false} LeadingZero(s: string)
    requires AllDigits(s, 10)
    ensures AllDigits("0" + s, 10)
    ensures DigitsValue("0" + s, 10) == DigitsValue(s, 10)
    decreases |s|
  {
    if |s| > 0 {
      assert ("0" + s)[..|"0" + s| - 1] == "0" + s[..|s| - 1];
      LeadingZero(s[..|s| - 1]);
    }
  }

  // ---------------------------------------------------------------------------
  // parseInt (radix omitted)
  // ---------------------------------------------------------------------------

  /** `parseInt(s)`: None stands for NaN. Leading white space and one sign are
      skipped, a `0x`/`0X` prefix switches to radix 16, and the longest digit
      prefix is read; anything after it is ignored. */
  function ParseInt(s: string): (r: Option<int>)
    ensures r.Some? <==> |ReadDigits(Unsigned(s))| > 0
    ensures r.Some? && !IsNegative(s) ==> r.value >= 0
  {
    var u := Unsigned(s);
    var digits := ReadDigits(u);
    var value := DigitsValue(digits, Radix(u));
    if |digits| == 0 then None
    else if IsNegative(s) then Some(-(value as int))
    else Some(value)
  }

  /** The text starts, after white space, with a minus sign. */
  predicate IsNegative(s: string) {
    var t := TrimStart(s);
    |t| > 0 && t[0] == '-'
  }

  /** The text after the white space and the sign. */
  function Unsigned(s: string): string {
    var t := TrimStart(s);
    if |t| > 0 && (t[0] == '-' || t[0] == '+') then t[1..] else t
  }

  /** 16 after a `0x` prefix, 10 otherwise. */
  function Radix(u: string): (r: nat)
    ensures r == 10 || r == 16
  {
    if |u| >= 2 && u[0] == '0' && (u[1] == 'x' || u[1] == 'X') then 16 else 10
  }

  /** The digits parseInt reads from the unsigned text. */
  function ReadDigits(u: string): (r: string)
    ensures AllDigits(r, Radix(u))
  {
    DigitPrefix(if Radix(u) == 16 then u[2..] else u, Radix(u))
  }

  /** parseInt reads back every integer that String() writes. */
  lemma ParseIntOfNumberToString(n: int)
    ensures ParseInt(NumberToString(n)) == Some(n)
  {
    var m: nat := if n < 0 then -n else n;
    var s := NumberToString(n);
    assert TrimStart(s) == s by {
      assert !IsJsSpace(s[0]);
    }
    assert IsNegative(s) <==> n < 0;
    assert Unsigned(s) == Digits(m) by {
      if n < 0 {
        assert s[1..] == Digits(m);
      }
    }
    ReadDigitsOfDigits(m);
  }

  /** parseInt reads the number String() writes at the front of a text and
      ignores what follows, as long as that does not continue the digits (or,
      after a lone `0`, turn them into a `0x` prefix): `"1e3"` and `"1.5"` read
      as 1. */
  lemma ParseIntReadsLeadingNumber(n: int, rest: string)
    requires |rest| == 0 || (!IsDecimal(rest[0]) && (n != 0 || (rest[0] != 'x' && rest[0] != 'X')))
    ensures ParseInt(NumberToString(n) + rest) == Some(n)
  {
    var m: nat := if n < 0 then -n else n;
    SignOfNumber(n, rest);
    DigitsThen(m, rest);
    DigitsRoundTrip(m);
  }

  /** Past the sign of String(n) + rest come the digits of |n|, then rest. */
  lemma SignOfNumber(n: int, rest: string)
    ensures var m: nat := if n < 0 then -n else n;
      && (IsNegative(NumberToString(n) + rest) <==> n < 0)
      && Unsigned(NumberToString(n) + rest) == Digits(m) + rest
  {
    var m: nat := if n < 0 then -n else n;
    var s := NumberToString(n) + rest;
    assert s[0] == NumberToString(n)[0];
    assert TrimStart(s) == s by {
      assert !IsJsSpace(s[0]);
    }
    if n < 0 {
      assert s[1..] == Digits(m) + rest;
    }
  }

  /** The digits of m followed by a non-digit read as decimal digits of m. */
  lemma DigitsThen(m: nat, rest: string)
    requires |rest| == 0 || (!IsDecimal(rest[0]) && (m != 0 || (rest[0] != 'x' && rest[0] != 'X')))
    ensures Radix(Digits(m) + rest) == 10
    ensures ReadDigits(Digits(m) + rest) == Digits(m)
  {
    var d := Digits(m);
    assert m != 0 ==> d[0] != '0';
    assert m == 0 && |d + rest| >= 2 ==> (d + rest)[1] == rest[0];
    DigitsRoundTrip(m);
    DigitPrefixStops(d, rest);
  }

  /** The digit prefix of a digit string followed by a non-digit is that string. */
  lemma {:induction false} DigitPrefixStops(d: string, rest: string)
    requires AllDigits(d, 10)
    requires |rest| == 0 || !IsDecimal(rest[0])
    ensures DigitPrefix(d + rest, 10) == d
    decreases |d|
  {
    if |d| == 0 {
      assert d + rest == rest;
    } else {
      assert (d + rest)[1..] == d[1..] + rest;
      DigitPrefixStops(d[1..], rest);
    }
  }

  /** What a number input hands over in exponent or fraction form: the
      leading integer. */
  lemma ParseIntOfNumberForms()
    ensures ParseInt("1e3") == Some(1)
    ensures ParseInt("1.5") == Some(1)
    ensures ParseInt("-2.5") == Some(-2)
  {
    assert "1e3" == NumberToString(1) + "e3";
    ParseIntReadsLeadingNumber(1, "e3");
    assert "1.5" == NumberToString(1) + ".5";
    ParseIntReadsLeadingNumber(1, ".5");
    assert "-2.5" == NumberToString(-2) + ".5";
    ParseIntReadsLeadingNumber(-2, ".5");
  }

  lemma ReadDigitsOfDigits(m: nat)
    ensures Radix(Digits(m)) == 10
    ensures ReadDigits(Digits(m)) == Digits(m)
    ensures DigitsValue(Digits(m), 10) == m
  {
    var d := Digits(m);
    assert |d| >= 2 ==> d[0] != '0';
    DigitsRoundTrip(m);
    AllDigitsPrefix(d, 10);
  }

  lemma {:induction false} AllDigitsPrefix(s: string, radix: nat)
    requires radix == 10 || radix == 16
    requires AllDigits(s, radix)
    ensures DigitPrefix(s, radix) == s
    decreases |s|
  {
    if |s| > 0 {
      AllDigitsPrefix(s[1..], radix);
    }
  }
}
