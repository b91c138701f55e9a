/**
  `get_delta_string`: a duration in whole minutes rendered for display.
  Under an hour it is the unpadded count followed by ` min`; from an hour
  on it is hours and minutes, each padded to two digits and joined by `:`.
  The hours are not wrapped at a day, so 100 hours render as `100:00`.
*/
module Duration {
  import opened Wrappers
  import opened Chars

  predicate IsDigits(s: string) { s != [] && forall i :: 0 <= i < |s| ==> IsDigit(s[i]) }

  function DigitChar(d: nat): (c: char)
    requires d < 10
    ensures IsDigit(c) && c as int - '0' as int == d
  {
    ('0' as int + d) as char
  }

  /** Python's `str` of a non-negative int: no sign, no leading zero. */
  function Decimal(n: nat): (s: string)
    ensures IsDigits(s)
    ensures s[0] == '0' ==> n == 0
    ensures n < 10 <==> |s| == 1
    ensures n < 100 <==> |s| <= 2
  {
    if n < 10 then [DigitChar(n)] else Decimal(n / 10) + [DigitChar(n % 10)]
  }

  /** Python's `{:02d}`: at least two digits, left-padded with zero. */
  function TwoDigits(n: nat): (s: string)
    ensures IsDigits(s) && 2 <= |s|
    ensures n < 100 <==> |s| == 2
  {
    if n < 10 then "0" + Decimal(n) else Decimal(n)
  }

  const MinSuffix: string := " min"

  /**
    `get_delta_string`. Under an hour: the minutes, unpadded, then ` min`.
    From an hour on: the hours, then `:`, then the minutes of the hour in two
    digits; the hours are at least two digits and exactly two below 100.
  */
  function DeltaString(minutes: nat): (s: string)
    ensures minutes < 60 ==>
      5 <= |s| <= 6 && s[|s| - 4..] == MinSuffix && IsDigits(s[..|s| - 4]) &&
      DigitsValue(s[..|s| - 4]) == minutes && (s[0] == '0' ==> minutes == 0)
    ensures 60 <= minutes ==>
      5 <= |s| && s[|s| - 3] == ':' && IsDigits(s[..|s| - 3]) && IsDigits(s[|s| - 2..]) &&
      DigitsValue(s[..|s| - 3]) == minutes / 60 && DigitsValue(s[|s| - 2..]) == minutes % 60 &&
      (minutes < 6000 <==> |s| == 5)
  {
    if minutes < 60 then
      var d := Decimal(minutes);
      DecimalValue(minutes);
      var s := d + MinSuffix;
      assert s[..|s| - 4] == d;
      s
    else
      var h := TwoDigits(minutes / 60);
      var m := TwoDigits(minutes % 60);
      TwoDigitsValue(minutes / 60);
      TwoDigitsValue(minutes % 60);
      var s := h + ":" + m;
      assert s[..|s| - 3] == h;
      assert s[|s| - 2..] == m;
      s
  }

  function DigitValue(c: char): nat
    requires IsDigit(c)
  {
    c as int - '0' as int
  }

  /** The number a run of decimal digits denotes, most significant first. */
  function DigitsValue(s: string): nat
    requires forall i :: 0 <= i < |s| ==> IsDigit(s[i])
  {
    if s == [] then 0 else DigitsValue(s[..|s| - 1]) * 10 + DigitValue(s[|s| - 1])
  }

  /**
    Reads a duration back from its display form: `<digits> min` below an
    hour, `<hours>:<two digits>` from an hour on; anything else is None.
  */
  function ReadDelta(s: string): (r: Option<nat>)
  {
    if 5 <= |s| && s[|s| - 4..] == MinSuffix && IsDigits(s[..|s| - 4]) then
      var m := DigitsValue(s[..|s| - 4]);
      if m < 60 then Some(m) else None
    else if 5 <= |s| && s[|s| - 3] == ':' && IsDigits(s[..|s| - 3]) && IsDigits(s[|s| - 2..]) then
      var h := DigitsValue(s[..|s| - 3]);
      var m := DigitsValue(s[|s| - 2..]);
      if 0 < h && m < 60 then Some(h * 60 + m) else None
    else None
  }

  lemma {:induction false} DecimalValue(n: nat)
    ensures DigitsValue(Decimal(n)) == n
  {
    var s := Decimal(n);
    if n >= 10 {
      DecimalValue(n / 10);
      assert s[..|s| - 1] == Decimal(n / 10);
    }
  }

  /** A leading zero does not change the value of a run of digits. */
  lemma {:induction false} LeadingZeroValue(s: string)
    requires forall i :: 0 <= i < |s| ==> IsDigit(s[i])
    ensures DigitsValue("0" + s) == DigitsValue(s)
  {
    if s != [] {
      var z := "0" + s;
      assert z[..|z| - 1] == "0" + s[..|s| - 1];
      LeadingZeroValue(s[..|s| - 1]);
    }
  }

  lemma TwoDigitsValue(n: nat)
    ensures DigitsValue(TwoDigits(n)) == n
  {
    DecimalValue(n);
    if n < 10 {
      LeadingZeroValue(Decimal(n));
    }
  }

  /** Reading a rendered duration gives back the number of minutes. */
  lemma DeltaRoundTrip(minutes: nat)
    ensures ReadDelta(DeltaString(minutes)) == Some(minutes)
  {
    if 60 <= minutes {
      var s := DeltaString(minutes);
      assert s[|s| - 4..] != MinSuffix by {
        assert s[|s| - 4..][1] == s[|s| - 3] == ':';
      }
    }
  }

  /** Distinct durations never render alike. */
  lemma DeltaStringInjective(a: nat, b: nat)
    requires DeltaString(a) == DeltaString(b)
    ensures a == b
  {
    DeltaRoundTrip(a);
    DeltaRoundTrip(b);
  }

  // The rows of the formatter's table.

  lemma ShortDeltaExamples()
    ensures DeltaString(1) == "1 min"
    ensures DeltaString(30) == "30 min"
    ensures DeltaString(59) == "59 min"
  {
    assert Decimal(30) == "30" by { assert Decimal(3) == "3"; }
    assert Decimal(59) == "59" by { assert Decimal(5) == "5"; }
  }

  lemma LongDeltaExamples()
    ensures DeltaString(60) == "01:00"
    ensures DeltaString(300) == "05:00"
  {
  }
}
