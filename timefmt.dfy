/**
 * The two Go time layouts the store uses: "20060102" (a date directory name, written by
 * `time.Format` and read back by `time.Parse`) and "150405" (the clock part of a file name).
 */
module TimeFormat {
  import opened Wrappers
  import opened Ticks
  import opened Decimal

  /** The midnight value `time.Parse("20060102", …)` returns. */
  datatype Date = Date(year: nat, month: nat, day: nat)

  predicate IsLeap(year: nat) { year % 4 == 0 && (year % 100 != 0 || year % 400 == 0) }

  function DaysIn(month: nat, year: nat): nat
  {
    if month == 2 then (if IsLeap(year) then 29 else 28)
    else if month == 4 || month == 6 || month == 9 || month == 11 then 30
    else 31
  }

  predicate ValidDate(d: Date) { 1 <= d.month <= 12 && 1 <= d.day <= DaysIn(d.month, d.year) }

  /** Every time.Time value is a real instant of the proleptic Gregorian calendar. */
  predicate ValidTime(t: DateTime)
  {
    ValidDate(DateOf(t)) && t.hour < 24 && t.minute < 60 && t.second < 60 && t.nanosecond < 1_000_000_000
  }

  function DateOf(t: DateTime): Date { Date(t.year, t.month, t.day) }

  /** `t.Format("20060102")`: year padded to four digits, month and day to two. */
  function FormatDate(d: Date): (s: string)
    ensures AllDigits(s) && |s| >= 8
    ensures d.year < 10000 && d.month < 100 && d.day < 100 ==> |s| == 8
  {
    if d.year < 10000 && d.month < 100 && d.day < 100 then
      PadWidth(d.year, 4);
      PadWidth(d.month, 2);
      PadWidth(d.day, 2);
      Pad(d.year, 4) + Pad(d.month, 2) + Pad(d.day, 2)
    else
      Pad(d.year, 4) + Pad(d.month, 2) + Pad(d.day, 2)
  }

  /** `t.Format("150405")`: hour, minute and second, two digits each. */
  function FormatClock(t: DateTime): (s: string)
    ensures AllDigits(s) && |s| >= 6
    ensures t.hour < 100 && t.minute < 100 && t.second < 100 ==> |s| == 6
  {
    if t.hour < 100 && t.minute < 100 && t.second < 100 then
      PadWidth(t.hour, 2);
      PadWidth(t.minute, 2);
      PadWidth(t.second, 2);
      Pad(t.hour, 2) + Pad(t.minute, 2) + Pad(t.second, 2)
    else
      Pad(t.hour, 2) + Pad(t.minute, 2) + Pad(t.second, 2)
  }

  /**
   * `time.Parse("20060102", s)`: exactly four, two and two decimal digits and nothing
   * after them; month in 1..12; day in 1..days of that month (leap years included).
   */
  function ParseDate(s: string): (r: Option<Date>)
    ensures |s| != 8 || !AllDigits(s) ==> r == None
    ensures r.Some? ==> ValidDate(r.value) && r.value.year < 10000
  {
    if |s| != 8 || !AllDigits(s) then None
    else
      var d := Date(Value(s[..4]), Value(s[4..6]), Value(s[6..]));
      ValueBound(s[..4]);
      if ValidDate(d) then Some(d) else None
  }

  /** A directory name written by the store is recognised as the date it was written for. */
  lemma ParseFormatDate(d: Date)
    requires ValidDate(d) && d.year < 10000
    ensures ParseDate(FormatDate(d)) == Some(d)
  {
    var y, m, dd := Pad(d.year, 4), Pad(d.month, 2), Pad(d.day, 2);
    PadWidth(d.year, 4);
    PadWidth(d.month, 2);
    PadWidth(d.day, 2);
    ValuePad(d.year, 4);
    ValuePad(d.month, 2);
    ValuePad(d.day, 2);
    var s := FormatDate(d);
    assert s[..4] == y && s[4..6] == m && s[6..] == dd;
  }

  /** A name that parses is the canonical text of the date it parses to. */
  lemma FormatParseDate(s: string)
    requires ParseDate(s).Some?
    ensures ValidDate(ParseDate(s).value) && ParseDate(s).value.year < 10000
    ensures FormatDate(ParseDate(s).value) == s
  {
    var d := ParseDate(s).value;
    PadValue(s[..4]);
    PadValue(s[4..6]);
    PadValue(s[6..]);
    ValueBound(s[..4]);
    assert s == s[..4] + s[4..6] + s[6..];
  }

  lemma {:induction false} ValueBound(s: string)
    requires AllDigits(s)
    ensures Value(s) < Pow10(|s|)
  {
    if s != [] {
      ValueBound(s[..|s| - 1]);
    }
  }

  /**
   * The clock text is six characters: the first four are the hour and minute (the
   * compaction key), the last two the second.
   */
  lemma ClockPrefix(t: DateTime)
    requires t.hour < 24 && t.minute < 60 && t.second < 60
    ensures |FormatClock(t)| == 6
    ensures FormatClock(t)[..4] == Pad(t.hour, 2) + Pad(t.minute, 2)
    ensures FormatClock(t)[4..] == Pad(t.second, 2)
  {
    PadWidth(t.hour, 2);
    PadWidth(t.minute, 2);
    PadWidth(t.second, 2);
  }

  /** Two instants have the same clock text exactly when they fall in the same second of the day. */
  lemma ClockInjective(a: DateTime, b: DateTime)
    requires a.hour < 24 && a.minute < 60 && a.second < 60
    requires b.hour < 24 && b.minute < 60 && b.second < 60
    ensures FormatClock(a) == FormatClock(b) <==> a.hour == b.hour && a.minute == b.minute && a.second == b.second
  {
    ClockPrefix(a);
    ClockPrefix(b);
    if FormatClock(a) == FormatClock(b) {
      var ka, kb := FormatClock(a)[..4], FormatClock(b)[..4];
      assert Pad(a.hour, 2) == ka[..2] == kb[..2] == Pad(b.hour, 2);
      assert Pad(a.minute, 2) == ka[2..] == kb[2..] == Pad(b.minute, 2);
      PadInjective(a.hour, b.hour, 2);
      PadInjective(a.minute, b.minute, 2);
      PadInjective(a.second, b.second, 2);
    }
  }

  /** Two instants share the clock prefix exactly when they fall in the same hour and minute. */
  lemma SameMinuteIffSamePrefix(a: DateTime, b: DateTime)
    requires a.hour < 24 && a.minute < 60 && a.second < 60
    requires b.hour < 24 && b.minute < 60 && b.second < 60
    ensures FormatClock(a)[..4] == FormatClock(b)[..4] <==> a.hour == b.hour && a.minute == b.minute
  {
    ClockPrefix(a);
    ClockPrefix(b);
    if FormatClock(a)[..4] == FormatClock(b)[..4] {
      var pa, pb := FormatClock(a)[..4], FormatClock(b)[..4];
      assert Pad(a.hour, 2) == pa[..2] == pb[..2] == Pad(b.hour, 2);
      assert Pad(a.minute, 2) == pa[2..] == pb[2..] == Pad(b.minute, 2);
      PadInjective(a.hour, b.hour, 2);
      PadInjective(a.minute, b.minute, 2);
    }
  }
}
