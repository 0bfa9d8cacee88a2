/** Dates and times of day as create_appointment parses them with
    `datetime.strptime`, as get_appointments prints them with `str()`,
    and as `ORDER BY date DESC, time DESC` orders them. */
module DateTime {
  import opened Request
  import opened Text

  /** A calendar date, as `datetime.date` holds it. */
  datatype Date = Date(year: nat, month: nat, day: nat)

  /** A time of day, as `datetime.time` holds it; the accepted formats carry
      no fraction of a second. */
  datatype Time = Time(hour: nat, minute: nat, second: nat)

  predicate IsLeapYear(y: nat)
  {
    y % 4 == 0 && (y % 100 != 0 || y % 400 == 0)
  }

  function DaysInMonth(y: nat, m: nat): nat
    requires 1 <= m <= 12
  {
    if m == 2 then (if IsLeapYear(y) then 29 else 28)
    else if m == 4 || m == 6 || m == 9 || m == 11 then 30
    else 31
  }

  /** What `datetime.date(y, m, d)` accepts without raising ValueError. */
  predicate ValidDate(d: Date)
  {
    1 <= d.year <= 9999 && 1 <= d.month <= 12 && 1 <= d.day <= DaysInMonth(d.year, d.month)
  }

  /** What `datetime.time(h, m, s)` accepts without raising ValueError. */
  predicate ValidTime(t: Time)
  {
    t.hour < 24 && t.minute < 60 && t.second < 60
  }

  /** A numeric `strptime` field: between `least` and `most` ASCII digits. */
  predicate IsField(s: string, least: nat, most: nat)
  {
    least <= |s| <= most && AllDigits(s)
  }

  /** `datetime.strptime(s, "%Y-%m-%d").date()`: a four-digit year, then a
      one- or two-digit month and day, separated by dashes, with nothing
      left over, naming a day the calendar has. */
  function ParseDate(s: string): (r: Option<Date>)
    ensures r.Some? ==> ValidDate(r.value)
  {
    var parts := Split(s, '-');
    if |parts| == 3 && IsField(parts[0], 4, 4) && IsField(parts[1], 1, 2) && IsField(parts[2], 1, 2) then
      var d := Date(DigitsValue(parts[0]), DigitsValue(parts[1]), DigitsValue(parts[2]));
      if ValidDate(d) then Some(d) else None
    else
      None
  }

  /** One `strptime` attempt, with "%H:%M" when `withSeconds` is false and
      "%H:%M:%S" when it is true: one- or two-digit fields separated by
      colons, hour below 24, minute and second below 60, nothing left over. */
  function ParseClock(s: string, withSeconds: bool): (r: Option<Time>)
    ensures r.Some? ==> ValidTime(r.value)
    ensures r.Some? && !withSeconds ==> r.value.second == 0
  {
    var parts := Split(s, ':');
    if |parts| == (if withSeconds then 3 else 2) && forall k :: 0 <= k < |parts| ==> IsField(parts[k], 1, 2) then
      var t := Time(DigitsValue(parts[0]), DigitsValue(parts[1]), if withSeconds then DigitsValue(parts[2]) else 0);
      if ValidTime(t) then Some(t) else None
    else
      None
  }

  /** create_appointment's time parsing: "%H:%M" first and, when that raises,
      "%H:%M:%S". */
  function ParseTime(s: string): (r: Option<Time>)
    ensures r.Some? ==> ValidTime(r.value)
  {
    var short := ParseClock(s, false);
    if short.Some? then short else ParseClock(s, true)
  }

  /** `str(date)`: "YYYY-MM-DD", as get_appointments renders a DATE column. */
  function FormatDate(d: Date): string
  {
    Join([PadDigits(d.year, 4), PadDigits(d.month, 2), PadDigits(d.day, 2)], '-')
  }

  /** `str(timedelta)`: the database driver returns a TIME column as a
      timedelta, whose text is "H:MM:SS" with the hour not padded. */
  function FormatTime(t: Time): string
  {
    Join([NatToString(t.hour), PadDigits(t.minute, 2), PadDigits(t.second, 2)], ':')
  }

  lemma DigitsHoldNoSeparator(s: string, sep: char)
    requires AllDigits(s) && !IsDigit(sep)
    ensures sep !in s
  {
  }

  /** The text get_appointments shows for a stored date parses back, with the
      format create_appointment accepts, to that same date. */
  lemma DateRoundTrip(d: Date)
    requires ValidDate(d)
    ensures ParseDate(FormatDate(d)) == Some(d)
  {
    var parts := [PadDigits(d.year, 4), PadDigits(d.month, 2), PadDigits(d.day, 2)];
    DateFields(d);
    forall k | 0 <= k < 3 ensures '-' !in parts[k] {
      DigitsHoldNoSeparator(parts[k], '-');
    }
    SplitJoin(parts, '-');
    assert Split(FormatDate(d), '-') == parts;
  }

  /** The three fields of `str(date)` are well-formed `strptime` fields that
      read back as the year, month and day. */
  lemma DateFields(d: Date)
    requires ValidDate(d)
    ensures IsField(PadDigits(d.year, 4), 4, 4) && DigitsValue(PadDigits(d.year, 4)) == d.year
    ensures IsField(PadDigits(d.month, 2), 1, 2) && DigitsValue(PadDigits(d.month, 2)) == d.month
    ensures IsField(PadDigits(d.day, 2), 1, 2) && DigitsValue(PadDigits(d.day, 2)) == d.day
  {
    assert Pow10(4) == 10000 && Pow10(2) == 100;
    NatToStringLength(d.year, 4);
    NatToStringLength(d.month, 2);
    NatToStringLength(d.day, 2);
    PadDigitsMeaning(d.year, 4);
    PadDigitsMeaning(d.month, 2);
    PadDigitsMeaning(d.day, 2);
  }

  /** The text get_appointments shows for a stored time parses back, through
      the "%H:%M:%S" fallback, to that same time. */
  lemma TimeRoundTrip(t: Time)
    requires ValidTime(t)
    ensures ParseTime(FormatTime(t)) == Some(t)
  {
    var parts := [NatToString(t.hour), PadDigits(t.minute, 2), PadDigits(t.second, 2)];
    assert Pow10(2) == 100;
    NatToStringMeaning(t.hour);
    PadDigitsMeaning(t.minute, 2);
    PadDigitsMeaning(t.second, 2);
    NatToStringLength(t.hour, 2);
    NatToStringLength(t.minute, 2);
    NatToStringLength(t.second, 2);
    forall k | 0 <= k < 3 ensures ':' !in parts[k] {
      DigitsHoldNoSeparator(parts[k], ':');
    }
    SplitJoin(parts, ':');
  }

  /** The order of `ORDER BY date, time`: (d1, t1) is not earlier than (d2, t2). */
  predicate NotEarlier(d1: Date, t1: Time, d2: Date, t2: Time)
  {
    if d1.year != d2.year then d1.year > d2.year
    else if d1.month != d2.month then d1.month > d2.month
    else if d1.day != d2.day then d1.day > d2.day
    else if t1.hour != t2.hour then t1.hour > t2.hour
    else if t1.minute != t2.minute then t1.minute > t2.minute
    else t1.second >= t2.second
  }

  /** Any two moments compare one way or the other. */
  lemma NotEarlierTotal(d1: Date, t1: Time, d2: Date, t2: Time)
    ensures NotEarlier(d1, t1, d2, t2) || NotEarlier(d2, t2, d1, t1)
  {
  }

  lemma NotEarlierTransitive(d1: Date, t1: Time, d2: Date, t2: Time, d3: Date, t3: Time)
    requires NotEarlier(d1, t1, d2, t2) && NotEarlier(d2, t2, d3, t3)
    ensures NotEarlier(d1, t1, d3, t3)
  {
  }
}
