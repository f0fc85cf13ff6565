/** Proleptic Gregorian dates and times of day as Python's `datetime`
    module has them: the range of valid dates, their ISO form
    `YYYY-MM-DD` (`str(date)`), the order of dates and the day after a
    date; and `str(time)`. */
module Calendar {
  import opened Text
  import opened Wrappers

  datatype Date = Date(year: int, month: int, day: int)

  /** `datetime.MINYEAR` and `datetime.MAXYEAR`. */
  const MinYear := 1
  const MaxYear := 9999

  predicate IsLeap(y: int) {
    y % 4 == 0 && (y % 100 != 0 || y % 400 == 0)
  }

  function DaysInMonth(y: int, m: int): (r: int)
    requires 1 <= m <= 12
    ensures 28 <= r <= 31
  {
    if m == 2 then (if IsLeap(y) then 29 else 28)
    else if m == 4 || m == 6 || m == 9 || m == 11 then 30
    else 31
  }

  /** The triples `datetime.date(year, month, day)` accepts; every other
      triple raises `ValueError`. */
  predicate ValidDate(d: Date) {
    MinYear <= d.year <= MaxYear && 1 <= d.month <= 12 && 1 <= d.day <= DaysInMonth(d.year, d.month)
  }

  /** Four digits, '-', two digits, '-', two digits. */
  predicate IsoShape(s: string) {
    |s| == 10 && AllDigits(s[..4]) && s[4] == '-' && AllDigits(s[5..7]) && s[7] == '-' && AllDigits(s[8..])
  }

  /** The numbers written in an ISO-shaped string (the groups that Django's
      date pattern hands to `datetime.date`). */
  function ParseDate(s: string): (r: Date)
    requires IsoShape(s)
    ensures 0 <= r.year < 10000 && 0 <= r.month < 100 && 0 <= r.day < 100
  {
    FixedDigitsOfParse(s[..4]);
    FixedDigitsOfParse(s[5..7]);
    FixedDigitsOfParse(s[8..]);
    Date(ParseNat(s[..4]), ParseNat(s[5..7]), ParseNat(s[8..]))
  }

  /** The ISO-shaped string with the given numbers, valid date or not. */
  function DateString(year: nat, month: nat, day: nat): (r: string)
    requires year < 10000 && month < 100 && day < 100
    ensures IsoShape(r) && ParseDate(r) == Date(year, month, day)
  {
    var r := FixedDigits(year, 4) + "-" + FixedDigits(month, 2) + "-" + FixedDigits(day, 2);
    assert r[..4] == FixedDigits(year, 4) && r[5..7] == FixedDigits(month, 2) && r[8..] == FixedDigits(day, 2);
    ParseFixedDigits(year, 4);
    ParseFixedDigits(month, 2);
    ParseFixedDigits(day, 2);
    r
  }

  /** `str(date)`: `date.isoformat()`. Reading it back gives the date. */
  function FormatDate(d: Date): (r: string)
    requires ValidDate(d)
    ensures IsoShape(r) && ParseDate(r) == d
  {
    DateString(d.year, d.month, d.day)
  }

  /** ... and an ISO-shaped string that names a valid date is that date's
      ISO form, so no two strings name the same date. */
  lemma FormatParseDate(s: string)
    requires IsoShape(s) && ValidDate(ParseDate(s))
    ensures FormatDate(ParseDate(s)) == s
  {
    StringOfParseDate(s);
  }

  /** An ISO-shaped string is written back exactly from its numbers. */
  lemma StringOfParseDate(s: string)
    requires IsoShape(s)
    ensures DateString(ParseDate(s).year, ParseDate(s).month, ParseDate(s).day) == s
  {
    FixedDigitsOfParse(s[..4]);
    FixedDigitsOfParse(s[5..7]);
    FixedDigitsOfParse(s[8..]);
    assert s == s[..4] + "-" + s[5..7] + "-" + s[8..];
  }

  /** `a < b` on dates. */
  predicate Before(a: Date, b: Date) {
    a.year < b.year
    || (a.year == b.year && a.month < b.month)
    || (a.year == b.year && a.month == b.month && a.day < b.day)
  }

  /** `d + timedelta(days=1)`; `None` where Python raises `OverflowError`
      (the day after `date.max`). */
  function NextDay(d: Date): (r: Option<Date>)
    requires ValidDate(d)
    ensures r.None? <==> d == Date(MaxYear, 12, 31)
    ensures r.Some? ==> ValidDate(r.value) && Before(d, r.value)
  {
    if d.day < DaysInMonth(d.year, d.month) then Some(Date(d.year, d.month, d.day + 1))
    else if d.month < 12 then Some(Date(d.year, d.month + 1, 1))
    else if d.year < MaxYear then Some(Date(d.year + 1, 1, 1))
    else None
  }

  /** No valid date lies strictly between a date and the day after it. */
  lemma NextDayIsSuccessor(d: Date, e: Date)
    requires ValidDate(d) && ValidDate(e) && NextDay(d).Some?
    ensures !(Before(d, e) && Before(e, NextDay(d).value))
  {
  }

  /** `datetime.time(hour, minute, second, microsecond)`. */
  datatype Time = Time(hour: int, minute: int, second: int, microsecond: int)

  predicate ValidTime(t: Time) {
    0 <= t.hour < 24 && 0 <= t.minute < 60 && 0 <= t.second < 60 && 0 <= t.microsecond < 1000000
  }

  /** `str(time)`: `HH:MM:SS`, followed by `.ffffff` when the microsecond is
      not zero. */
  function FormatTime(t: Time): (r: string)
    requires ValidTime(t)
    ensures |r| == if t.microsecond == 0 then 8 else 15
    ensures r[2] == ':' && r[5] == ':'
    ensures AllDigits(r[..2]) && ParseNat(r[..2]) == t.hour
    ensures AllDigits(r[3..5]) && ParseNat(r[3..5]) == t.minute
    ensures AllDigits(r[6..8]) && ParseNat(r[6..8]) == t.second
    ensures t.microsecond != 0 ==> r[8] == '.' && AllDigits(r[9..]) && ParseNat(r[9..]) == t.microsecond
  {
    var hh, mm, ss := FixedDigits(t.hour, 2), FixedDigits(t.minute, 2), FixedDigits(t.second, 2);
    var tail := if t.microsecond == 0 then "" else "." + FixedDigits(t.microsecond, 6);
    var r := hh + ":" + mm + ":" + ss + tail;
    assert Pow10(6) == 1000000;
    ParseFixedDigits(t.microsecond, 6);
    ClockSlices(hh, mm, ss, tail);
    ParseFixedDigits(t.hour, 2);
    ParseFixedDigits(t.minute, 2);
    ParseFixedDigits(t.second, 2);
    assert t.microsecond != 0 ==> r[9..] == tail[1..];
    r
  }

  /** Where the pieces of `HH:MM:SS` plus a tail sit in the text. */
  lemma ClockSlices(hh: string, mm: string, ss: string, tail: string)
    requires |hh| == 2 && |mm| == 2 && |ss| == 2
    ensures var r := hh + ":" + mm + ":" + ss + tail;
      && |r| == 8 + |tail|
      && r[..2] == hh && r[2] == ':' && r[3..5] == mm && r[5] == ':' && r[6..8] == ss && r[8..] == tail
  {
  }
}
