/** The two java.time values the core uses: LocalTime, modelled as the
    seconds elapsed since midnight, and DayOfWeek. */
module Clock {
  import opened Results
  import opened Numbers

  const SecondsPerDay: int := 86400

  /** java.time.LocalTime at second precision: totally ordered by `<`. */
  type Time = t: int | 0 <= t < SecondsPerDay

  function MakeTime(h: nat, m: nat, s: nat): Time
    requires h < 24 && m < 60 && s < 60
  {
    h * 3600 + m * 60 + s
  }

  /** LocalTime.getHour(). */
  function Hour(t: Time): (h: nat)
    ensures h < 24
    ensures h * 3600 <= t < (h + 1) * 3600
  {
    t / 3600
  }

  function TwoDigitValue(s: string, i: nat): nat
    requires i + 2 <= |s| && IsDigit(s[i]) && IsDigit(s[i + 1])
  {
    ((s[i] as int) - ('0' as int)) * 10 + ((s[i + 1] as int) - ('0' as int))
  }

  predicate DigitPair(s: string, i: nat)
    requires i + 2 <= |s|
  {
    IsDigit(s[i]) && IsDigit(s[i + 1])
  }

  /** LocalTime.parse with ISO_LOCAL_TIME: `HH:mm` or `HH:mm:ss`, each field two
      digits, hour below 24, minute and second below 60. */
  function ParseTime(s: string): (r: Option<Time>)
    ensures r.Some? ==> |s| == 5 || |s| == 8
    ensures r.Some? ==> s[2] == ':' && DigitPair(s, 0) && Hour(r.value) == TwoDigitValue(s, 0)
  {
    if (|s| == 5 || |s| == 8) && DigitPair(s, 0) && s[2] == ':' && DigitPair(s, 3)
       && (|s| == 8 ==> s[5] == ':' && DigitPair(s, 6))
    then
      var h := TwoDigitValue(s, 0);
      var m := TwoDigitValue(s, 3);
      var sec := if |s| == 8 then TwoDigitValue(s, 6) else 0;
      if h < 24 && m < 60 && sec < 60 then Some(MakeTime(h, m, sec)) else None
    else None
  }

  function TwoDigits(n: nat): (s: string)
    requires n < 100
    ensures |s| == 2 && DigitPair(s, 0) && TwoDigitValue(s, 0) == n
  {
    [DigitChar(n / 10), DigitChar(n % 10)]
  }

  /** LocalTime.toString() with seconds always written: `HH:mm:ss`. */
  function FormatTime(t: Time): (s: string)
    ensures |s| == 8
  {
    TwoDigits(t / 3600) + ":" + TwoDigits((t % 3600) / 60) + ":" + TwoDigits(t % 60)
  }

  /** Parsing a formatted time gives the time back. */
  lemma TimeRoundTrip(t: Time)
    ensures ParseTime(FormatTime(t)) == Some(t)
  {
    var h, m, sec := t / 3600, (t % 3600) / 60, t % 60;
    var s := FormatTime(t);
    var hs, ms, ss := TwoDigits(h), TwoDigits(m), TwoDigits(sec);
    assert s == hs + ":" + ms + ":" + ss;
    assert s[0] == hs[0] && s[1] == hs[1] && s[2] == ':';
    assert s[3] == ms[0] && s[4] == ms[1] && s[5] == ':';
    assert s[6] == ss[0] && s[7] == ss[1];
    assert TwoDigitValue(s, 0) == h;
    assert TwoDigitValue(s, 3) == m;
    assert TwoDigitValue(s, 6) == sec;
    TimeParts(t);
  }

  /** A time is its hours, minutes and seconds put back together. */
  lemma TimeParts(t: Time)
    ensures t / 3600 < 24 && (t % 3600) / 60 < 60 && t % 60 < 60
    ensures MakeTime(t / 3600, (t % 3600) / 60, t % 60) == t
  {
    var r := t % 3600;
    assert t == (t / 3600) * 3600 + r;
    assert r == (r / 60) * 60 + r % 60;
    assert t % 60 == r % 60 by {
      assert t == ((t / 3600) * 60 + r / 60) * 60 + r % 60;
    }
  }

  /** java.time.DayOfWeek. */
  datatype DayOfWeek = Monday | Tuesday | Wednesday | Thursday | Friday | Saturday | Sunday

  /** DayOfWeek.getValue(): ISO numbering, Monday 1 to Sunday 7. */
  function DayValue(d: DayOfWeek): (n: int)
    ensures 1 <= n <= 7
  {
    match d
    case Monday => 1
    case Tuesday => 2
    case Wednesday => 3
    case Thursday => 4
    case Friday => 5
    case Saturday => 6
    case Sunday => 7
  }

  /** DayOfWeek.of(n), which accepts only 1..7. */
  function DayOf(n: int): (d: DayOfWeek)
    requires 1 <= n <= 7
    ensures DayValue(d) == n
  {
    match n
    case 1 => Monday
    case 2 => Tuesday
    case 3 => Wednesday
    case 4 => Thursday
    case 5 => Friday
    case 6 => Saturday
    case _ => Sunday
  }

  lemma DayOfValue(d: DayOfWeek)
    ensures DayOf(DayValue(d)) == d
  {
  }
}
