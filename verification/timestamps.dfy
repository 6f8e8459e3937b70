/** The UTC timestamp pattern of FromToDateTimeParam (`\d{4}-\d{2}-\d{2}T\d{2}:\d{2}:\d{2}\.\d{3}Z`,
    matched against the whole string) and the numeric meaning of such timestamps.
    The pattern checks digit positions only: there is no calendar check. */
module Timestamps {
  import opened LexOrder

  /** `\d` in a Java regular expression: an ASCII digit. */
  predicate IsDigit(c: char) {
    '0' <= c <= '9'
  }

  function DigitValue(c: char): (d: nat)
    requires IsDigit(c)
    ensures d <= 9
  {
    (c as int) - ('0' as int)
  }

  /** A fixed-width layout: 'D' stands for one digit, every other character must
      appear literally. */
  predicate FitsLayout(s: string, layout: string) {
    && |s| == |layout|
    && forall i :: 0 <= i < |s| ==> if layout[i] == 'D' then IsDigit(s[i]) else s[i] == layout[i]
  }

  /** The full-match UTC timestamp pattern, e.g. 2015-09-01T16:00:00.000Z. */
  const UtcLayout: string := "DDDD-DD-DDTDD:DD:DD.DDDZ"

  /** The date pattern of the date path parameter, e.g. 2015-09-01. */
  const DateLayout: string := "DDDD-DD-DD"

  /** Accepted strings have the fixed width 24 and the seven separators at fixed
      places (AcceptedByPositions states the converse). */
  predicate IsUtcTimestamp(s: string): (b: bool)
    ensures b ==> |s| == 24
    ensures b ==> s[4] == '-' && s[7] == '-' && s[10] == 'T' && s[13] == ':' && s[16] == ':' && s[19] == '.' && s[23] == 'Z'
  {
    FitsLayout(s, UtcLayout)
  }

  predicate IsDate(s: string) {
    FitsLayout(s, DateLayout)
  }

  /** Every accepted string has the fixed width 24. */
  lemma AcceptedWidth(s: string)
    requires IsUtcTimestamp(s)
    ensures |s| == 24
  {
  }

  /** The pattern, position by position. */
  lemma {:induction false} AcceptedByPositions(s: string)
    requires |s| == 24
    requires s[4] == '-' && s[7] == '-' && s[10] == 'T' && s[13] == ':'
    requires s[16] == ':' && s[19] == '.' && s[23] == 'Z'
    requires IsDigit(s[0]) && IsDigit(s[1]) && IsDigit(s[2]) && IsDigit(s[3])
    requires IsDigit(s[5]) && IsDigit(s[6]) && IsDigit(s[8]) && IsDigit(s[9])
    requires IsDigit(s[11]) && IsDigit(s[12]) && IsDigit(s[14]) && IsDigit(s[15])
    requires IsDigit(s[17]) && IsDigit(s[18])
    requires IsDigit(s[20]) && IsDigit(s[21]) && IsDigit(s[22])
    ensures IsUtcTimestamp(s)
  {
  }

  /** The well-formed example of the pattern's unit test, and the two calendar-free
      edge cases it accepts. */
  lemma AcceptedExamples()
    ensures IsUtcTimestamp("2015-09-01T16:00:00.000Z")
    ensures IsUtcTimestamp("0000-00-00T00:00:00.000Z")
    ensures IsUtcTimestamp("9999-99-99T99:99:99.999Z")
  {
    AcceptedByPositions("2015-09-01T16:00:00.000Z");
    AcceptedByPositions("0000-00-00T00:00:00.000Z");
    AcceptedByPositions("9999-99-99T99:99:99.999Z");
  }

  /** The rejected examples of the pattern's unit test: lower-case separators,
      a missing 'Z', missing leading zeros. */
  lemma RejectedExamples()
    ensures !IsUtcTimestamp("2015-09-01t16:00:00.000z")
    ensures !IsUtcTimestamp("2015-09-01t16:00:00.000Z")
    ensures !IsUtcTimestamp("2015-09-01T16:00:00.000z")
    ensures !IsUtcTimestamp("2015-09-01T16:00:00.000")
    ensures !IsUtcTimestamp("2015-9-1t16:00:00.000")
    ensures !IsUtcTimestamp("2015-09-01t7:00:00.000")
  {
    assert "2015-09-01t16:00:00.000z"[10] != UtcLayout[10];
    assert "2015-09-01t16:00:00.000Z"[10] != UtcLayout[10];
    assert "2015-09-01T16:00:00.000z"[23] != UtcLayout[23];
  }

  // ---------------------------------------------------------------------------
  // Digits read as one decimal numeral

  /** The number written by the digits of `s`, other characters skipped. */
  function DigitsValue(s: string): nat
  {
    if |s| == 0 then 0
    else
      var c := s[|s| - 1];
      if IsDigit(c) then 10 * DigitsValue(s[..|s| - 1]) + DigitValue(c)
      else DigitsValue(s[..|s| - 1])
  }

  /** Digits in the same places, and the same separators everywhere else. */
  predicate SameLayout(a: string, b: string) {
    && |a| == |b|
    && forall i :: 0 <= i < |a| ==>
         (IsDigit(a[i]) && IsDigit(b[i])) || (!IsDigit(a[i]) && a[i] == b[i])
  }

  /** For strings of one fixed-width layout, string order is numeric order. */
  lemma {:induction false} OrderIsNumeric(a: string, b: string)
    requires SameLayout(a, b)
    ensures Less(a, b) <==> DigitsValue(a) < DigitsValue(b)
    ensures a == b <==> DigitsValue(a) == DigitsValue(b)
    decreases |a|
  {
    if |a| > 0 {
      var n := |a| - 1;
      var a', b' := a[..n], b[..n];
      assert SameLayout(a', b');
      OrderIsNumeric(a', b');
      assert a == a' + [a[n]] && b == b' + [b[n]];
      LessSnoc(a', b', a[n], b[n]);
      if IsDigit(a[n]) {
        var x, y := DigitsValue(a'), DigitsValue(b');
        var dx, dy := DigitValue(a[n]), DigitValue(b[n]);
        assert DigitsValue(a) == 10 * x + dx && DigitsValue(b) == 10 * y + dy;
        if x < y {
          assert 10 * x + dx < 10 * y + dy;
        } else if y < x {
          assert 10 * y + dy < 10 * x + dx;
        }
      }
    }
  }

  lemma DigitsStep(s: string, k: nat)
    requires k < |s|
    ensures DigitsValue(s[..k + 1])
         == if IsDigit(s[k]) then 10 * DigitsValue(s[..k]) + DigitValue(s[k]) else DigitsValue(s[..k])
  {
    assert s[..k + 1][..k] == s[..k];
  }

  // ---------------------------------------------------------------------------
  // The numeric fields of a UTC timestamp

  function Digit(t: string, i: nat): nat
    requires i < |t| && IsDigit(t[i])
  {
    DigitValue(t[i])
  }

  lemma LayoutDigits(t: string)
    requires IsUtcTimestamp(t)
    ensures forall i :: 0 <= i < 24 && i !in {4, 7, 10, 13, 16, 19, 23} ==> IsDigit(t[i])
    ensures t[4] == '-' && t[7] == '-' && t[10] == 'T' && t[13] == ':'
    ensures t[16] == ':' && t[19] == '.' && t[23] == 'Z'
  {
  }

  function Year(t: string): nat
    requires IsUtcTimestamp(t)
  {
    LayoutDigits(t);
    1000 * Digit(t, 0) + 100 * Digit(t, 1) + 10 * Digit(t, 2) + Digit(t, 3)
  }

  function Month(t: string): nat
    requires IsUtcTimestamp(t)
  {
    LayoutDigits(t);
    10 * Digit(t, 5) + Digit(t, 6)
  }

  function Day(t: string): nat
    requires IsUtcTimestamp(t)
  {
    LayoutDigits(t);
    10 * Digit(t, 8) + Digit(t, 9)
  }

  function Hour(t: string): nat
    requires IsUtcTimestamp(t)
  {
    LayoutDigits(t);
    10 * Digit(t, 11) + Digit(t, 12)
  }

  function Minute(t: string): nat
    requires IsUtcTimestamp(t)
  {
    LayoutDigits(t);
    10 * Digit(t, 14) + Digit(t, 15)
  }

  function Second(t: string): nat
    requires IsUtcTimestamp(t)
  {
    LayoutDigits(t);
    10 * Digit(t, 17) + Digit(t, 18)
  }

  function Millis(t: string): nat
    requires IsUtcTimestamp(t)
  {
    LayoutDigits(t);
    100 * Digit(t, 20) + 10 * Digit(t, 21) + Digit(t, 22)
  }

  /** The date fields as one number, yyyymmdd. */
  function DateNumber(t: string): nat
    requires IsUtcTimestamp(t)
  {
    (Year(t) * 100 + Month(t)) * 100 + Day(t)
  }

  /** The time-of-day fields as one number, hhmmssfff. */
  function TimeOfDayNumber(t: string): nat
    requires IsUtcTimestamp(t)
  {
    ((Hour(t) * 100 + Minute(t)) * 100 + Second(t)) * 1000 + Millis(t)
  }

  /** The fields in order of significance, as one number. */
  function Instant(t: string): nat
    requires IsUtcTimestamp(t)
  {
    DateNumber(t) * 1_000_000_000 + TimeOfDayNumber(t)
  }

  lemma DateIsDigitsValue(t: string)
    requires IsUtcTimestamp(t)
    ensures DigitsValue(t[..10]) == DateNumber(t)
  {
    LayoutDigits(t);
    assert t[..0] == [];
    DigitsStep(t, 0); DigitsStep(t, 1); DigitsStep(t, 2); DigitsStep(t, 3);
    DigitsStep(t, 4); DigitsStep(t, 5); DigitsStep(t, 6); DigitsStep(t, 7);
    DigitsStep(t, 8); DigitsStep(t, 9);
  }

  lemma InstantIsDigitsValue(t: string)
    requires IsUtcTimestamp(t)
    ensures DigitsValue(t[..10]) == DateNumber(t)
    ensures DigitsValue(t) == Instant(t)
  {
    LayoutDigits(t);
    DateIsDigitsValue(t);
    DigitsStep(t, 10); DigitsStep(t, 11);
    DigitsStep(t, 12); DigitsStep(t, 13); DigitsStep(t, 14); DigitsStep(t, 15);
    DigitsStep(t, 16); DigitsStep(t, 17); DigitsStep(t, 18); DigitsStep(t, 19);
    DigitsStep(t, 20); DigitsStep(t, 21); DigitsStep(t, 22); DigitsStep(t, 23);
    assert t[..24] == t;
  }

  /** Accepted timestamps sort as strings exactly as their fields sort as numbers. */
  lemma TimestampOrder(a: string, b: string)
    requires IsUtcTimestamp(a) && IsUtcTimestamp(b)
    ensures Less(a, b) <==> Instant(a) < Instant(b)
    ensures a == b <==> Instant(a) == Instant(b)
  {
    LayoutDigits(a);
    LayoutDigits(b);
    assert SameLayout(a, b);
    OrderIsNumeric(a, b);
    InstantIsDigitsValue(a);
    InstantIsDigitsValue(b);
  }

  /** Two accepted timestamps share their date text exactly when their date fields agree. */
  lemma SameDate(a: string, b: string)
    requires IsUtcTimestamp(a) && IsUtcTimestamp(b)
    ensures a[..10] == b[..10] <==> DateNumber(a) == DateNumber(b)
  {
    LayoutDigits(a);
    LayoutDigits(b);
    assert SameLayout(a[..10], b[..10]);
    OrderIsNumeric(a[..10], b[..10]);
    InstantIsDigitsValue(a);
    InstantIsDigitsValue(b);
  }
}
