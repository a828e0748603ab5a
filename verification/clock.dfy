/*******************************************************************************
 *  The countdown arithmetic shared by the public display and the admin page:
 *  rounding a millisecond distance to whole seconds, and the `HH:MM:SS` text.
 *******************************************************************************/

module Clock {
  import opened Js

  // ---------------------------------------------------------------------------
  // Remaining seconds of a running timer
  // ---------------------------------------------------------------------------

  /** `Math.round(d / 1000)` for a whole number of milliseconds d: the nearest
      whole second, with an exact half rounded up (towards +infinity). */
  function RoundToSeconds(d: int): (r: int)
    ensures r * 1000 - 500 <= d < r * 1000 + 500
  {
    (d + 500) / 1000
  }

  /** `Math.max(0, Math.round((endsAtMs - nowMs) / 1000))`: the seconds a
      running timer still has, never negative. */
  function RemainingSeconds(endsAtMs: int, nowMs: int): (r: nat)
    ensures r == 0 <==> endsAtMs - nowMs < 500
    ensures r > 0 ==> r * 1000 - 500 <= endsAtMs - nowMs < r * 1000 + 500
  {
    var rounded := RoundToSeconds(endsAtMs - nowMs);
    if rounded < 0 then 0 else rounded
  }

  /** As time advances the remaining seconds never grow. */
  lemma RemainingNonIncreasing(endsAtMs: int, now1: int, now2: int)
    requires now1 <= now2
    ensures RemainingSeconds(endsAtMs, now2) <= RemainingSeconds(endsAtMs, now1)
  {
  }

  /** One second later the display shows exactly one second less, until it
      holds at zero. */
  lemma OneSecondLater(endsAtMs: int, nowMs: int)
    ensures RemainingSeconds(endsAtMs, nowMs + 1000)
         == if RemainingSeconds(endsAtMs, nowMs) > 0 then RemainingSeconds(endsAtMs, nowMs) - 1 else 0
  {
    var d := endsAtMs - nowMs;
    assert RoundToSeconds(d - 1000) == RoundToSeconds(d) - 1;
  }

  /** The count reaches zero no later than the end time. */
  lemma ZeroAtEndTime(endsAtMs: int, nowMs: int)
    requires nowMs >= endsAtMs
    ensures RemainingSeconds(endsAtMs, nowMs) == 0
  {
  }

  /** A timer whose end lies a whole number of seconds ahead shows exactly
      those seconds. */
  lemma WholeSecondsAhead(nowMs: int, seconds: nat)
    ensures RemainingSeconds(nowMs + seconds * 1000, nowMs) == seconds
  {
  }

  // ---------------------------------------------------------------------------
  // The HH:MM:SS text
  // ---------------------------------------------------------------------------

  /** JS `a % b` for b > 0: the remainder takes the sign of the dividend. */
  function JsRem(a: int, b: int): (r: int)
    requires b > 0
    ensures a >= 0 ==> 0 <= r < b && r == a % b
    ensures a < 0 ==> -b < r <= 0
  {
    if a >= 0 then a % b else -((-a) % b)
  }

  /** `Math.floor(t / 3600)` (Dafny's `/` by a positive divisor is floor). */
  function Hours(t: int): int {
    t / 3600
  }

  /** `Math.floor((t % 3600) / 60)`. */
  function Minutes(t: int): int {
    JsRem(t, 3600) / 60
  }

  /** `t % 60`. */
  function Seconds(t: int): int {
    JsRem(t, 60)
  }

  /** The count of seconds that hours, minutes and seconds make up. */
  function TotalSeconds(hours: int, minutes: int, seconds: int): int {
    hours * 3600 + minutes * 60 + seconds
  }

  /** For a non-negative count the three fields decompose it exactly. */
  lemma Decomposition(t: int)
    requires t >= 0
    ensures Hours(t) >= 0 && 0 <= Minutes(t) < 60 && 0 <= Seconds(t) < 60
    ensures TotalSeconds(Hours(t), Minutes(t), Seconds(t)) == t
  {
    var q, r := t / 3600, t % 3600;
    var m, s := r / 60, r % 60;
    assert t == 3600 * q + r;
    assert r == 60 * m + s;
    assert t == 60 * (60 * q + m) + s;
    RemOfMultiple(60 * q + m, s);
  }

  lemma RemOfMultiple(k: int, s: int)
    requires 0 <= s < 60
    ensures (60 * k + s) % 60 == s
  {
  }

  /** `s.padStart(2, '0')`. */
  function Pad2(s: string): (r: string)
    ensures |r| == if |s| >= 2 then |s| else 2
    ensures r[|r| - |s|..] == s
    ensures forall i :: 0 <= i < |r| - |s| ==> r[i] == '0'
  {
    if |s| >= 2 then s else if |s| == 1 then "0" + s else "00"
  }

  /** One field of the clock: `String(n).padStart(2, '0')`. */
  function Field(n: int): string {
    Pad2(NumberToString(n))
  }

  /** The text the display writes for t seconds. */
  function ClockText(t: int): (r: string)
    ensures |r| >= 8
  {
    Field(Hours(t)) + ":" + Field(Minutes(t)) + ":" + Field(Seconds(t))
  }

  /** Reads `H…H:MM:SS` (at least two hour digits) back to seconds. */
  function ParseClock(s: string): (r: Option<int>)
    ensures r.Some? ==> r.value >= 0
  {
    if |s| < 8 then None
    else
      var k := |s| - 6;
      var h, mm, ss := s[..k], s[k + 1..k + 3], s[k + 4..];
      if s[k] == ':' && s[k + 3] == ':' && AllDigits(h, 10) && AllDigits(mm, 10) && AllDigits(ss, 10)
         && DigitsValue(mm, 10) < 60 && DigitsValue(ss, 10) < 60
      then Some(TotalSeconds(DigitsValue(h, 10), DigitsValue(mm, 10), DigitsValue(ss, 10)))
      else None
  }

  /** A field of a non-negative number is its decimal digits, at least two. */
  lemma FieldDigits(n: nat)
    ensures AllDigits(Field(n), 10) && DigitsValue(Field(n), 10) == n
    ensures |Field(n)| >= 2
    ensures n < 100 ==> |Field(n)| == 2
  {
    var d := Digits(n);
    DigitsRoundTrip(n);
    assert NumberToString(n) == d;
    if |d| == 1 {
      LeadingZero(d);
    }
    if n < 100 {
      assert n >= 10 ==> Digits(n / 10) == [Digits(n / 10)[0]];
    }
  }

  /** The clock text of every non-negative count reads back to that count. */
  lemma ClockRoundTrip(t: int)
    requires t >= 0
    ensures ParseClock(ClockText(t)) == Some(t)
  {
    Decomposition(t);
    ReadsBack(Hours(t), Minutes(t), Seconds(t));
  }

  /** The fields of a, b and c joined by colons read back to the count they
      make up. */
  lemma ReadsBack(a: nat, b: nat, c: nat)
    requires b < 60 && c < 60
    ensures ParseClock(Field(a) + ":" + Field(b) + ":" + Field(c)) == Some(TotalSeconds(a, b, c))
  {
    FieldDigits(a);
    FieldDigits(b);
    FieldDigits(c);
    ParseFields(Field(a), Field(b), Field(c));
  }

  lemma ParseFields(h: string, m: string, s: string)
    requires AllDigits(h, 10) && AllDigits(m, 10) && AllDigits(s, 10)
    requires |h| >= 2 && |m| == 2 && |s| == 2
    requires DigitsValue(m, 10) < 60 && DigitsValue(s, 10) < 60
    ensures ParseClock(h + ":" + m + ":" + s)
         == Some(TotalSeconds(DigitsValue(h, 10), DigitsValue(m, 10), DigitsValue(s, 10)))
  {
    TextShape(h, m, s);
    ParseClockSplit(h + ":" + m + ":" + s, h, m, s);
  }

  /** Where the colons and fields of `h:m:s` sit, with two-character m and s. */
  lemma TextShape(h: string, m: string, s: string)
    requires |h| >= 2 && |m| == 2 && |s| == 2
    ensures var text := h + ":" + m + ":" + s;
      && |text| >= 8 && text[|text| - 6] == ':' && text[|text| - 3] == ':'
      && text[..|text| - 6] == h && text[|text| - 5..|text| - 3] == m && text[|text| - 2..] == s
  {
  }

  lemma ParseClockSplit(text: string, h: string, m: string, s: string)
    requires |text| >= 8
    requires text[|text| - 6] == ':' && text[|text| - 3] == ':'
    requires text[..|text| - 6] == h && text[|text| - 5..|text| - 3] == m && text[|text| - 2..] == s
    requires AllDigits(h, 10) && AllDigits(m, 10) && AllDigits(s, 10)
    requires DigitsValue(m, 10) < 60 && DigitsValue(s, 10) < 60
    ensures ParseClock(text) == Some(TotalSeconds(DigitsValue(h, 10), DigitsValue(m, 10), DigitsValue(s, 10)))
  {
  }

  /** Below 100 hours the text is exactly eight characters, `HH:MM:SS`. */
  lemma ClockWidth(t: int)
    requires 0 <= t < 360000
    ensures |ClockText(t)| == 8
    ensures ClockText(t)[2] == ':' && ClockText(t)[5] == ':'
  {
    Decomposition(t);
    assert Hours(t) < 100;
    EightWide(ClockText(t), Hours(t), Minutes(t), Seconds(t));
  }

  /** The fields of three numbers below 100, joined by colons. */
  lemma EightWide(text: string, a: nat, b: nat, c: nat)
    requires a < 100 && b < 100 && c < 100
    requires text == Field(a) + ":" + Field(b) + ":" + Field(c)
    ensures |text| == 8 && text[2] == ':' && text[5] == ':'
  {
    FieldDigits(a);
    FieldDigits(b);
    FieldDigits(c);
  }

  /** Different non-negative counts never show the same text. */
  lemma ClockInjective(t1: int, t2: int)
    requires t1 >= 0 && t2 >= 0 && ClockText(t1) == ClockText(t2)
    ensures t1 == t2
  {
    ClockRoundTrip(t1);
    ClockRoundTrip(t2);
  }

  /** The text shown when the countdown has run out. */
  const Zero: string := "00:00:00"

  lemma ZeroText()
    ensures ClockText(0) == Zero
  {
    assert NumberToString(0) == "0";
  }

  /** 125 seconds read as two minutes and five seconds. */
  lemma ClockExample()
    ensures ClockText(125) == "00:02:05"
  {
    assert Hours(125) == 0 && Minutes(125) == 2 && Seconds(125) == 5;
    assert NumberToString(0) == "0" && NumberToString(2) == "2" && NumberToString(5) == "5";
  }
}
