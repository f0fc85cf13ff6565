/** The Taj parser's date formatting: the calendar links scraped from a
    title page become showing dates `YEAR-MONTH-DAY` of the current month,
    each with the id of its booking tab. */
module TajParser {
  import opened Wrappers
  import opened Text
  import opened Calendar

  /** `raw.split(" ")[-1]`: the text after the last space, or all of it
      when there is none. */
  function Day(raw: string): string {
    LastField(raw, ' ')
  }

  /** `value[1:]`: everything after the first character; empty stays empty. */
  function DropFirst(s: string): (r: string)
    ensures |s| > 0 ==> s == [s[0]] + r
    ensures |s| == 0 ==> r == ""
  {
    if |s| == 0 then "" else s[1..]
  }

  /** A scraped calendar entry: the link's text and its `href`, which may
      be missing (`None`). */
  type Entry = map<string, Option<string>>

  const DateKey := "date"
  const DateIdKey := "date_id"

  /** A formatted showing date and the id of its booking tab. */
  datatype ShowingDate = ShowingDate(date: string, dateId: string)

  /** The message of the `TajParserError` raised around an exception. */
  function Occurred(what: string): string {
    "An error occurred: " + what
  }

  /** `str(KeyError(key))`: the key in quotes. */
  function KeyErrorText(key: string): string {
    "'" + key + "'"
  }

  const NotSubscriptable := "'NoneType' object is not subscriptable"
  const NoSplit := "'NoneType' object has no attribute 'split'"

  /** The entries that format without an exception. */
  predicate WellFormed(d: Entry) {
    DateIdKey in d && d[DateIdKey].Some? && DateKey in d && d[DateKey].Some?
  }

  /** The message for a malformed entry, in the order the loop body reads:
      the date id's lookup and slice first, then the date's lookup and split. */
  function EntryError(d: Entry): string
    requires !WellFormed(d)
  {
    if DateIdKey !in d then Occurred(KeyErrorText(DateIdKey))
    else if d[DateIdKey].None? then Occurred(NotSubscriptable)
    else if DateKey !in d then Occurred(KeyErrorText(DateKey))
    else Occurred(NoSplit)
  }

  /** One iteration of the loop. */
  function FormatEntry(d: Entry, year: string, month: string): (r: Result<ShowingDate, string>)
    ensures r.Success? <==> WellFormed(d)
    ensures r.Failure? ==> r.error == EntryError(d)
    ensures r.Success? ==> |r.value.date| >= |year| + |month| + 2
  {
    if !WellFormed(d) then Failure(EntryError(d))
    else
      var day := Day(d[DateKey].value);
      LastFieldIsSuffix(d[DateKey].value, ' ');
      var date := year + "-" + month + "-" + day;
      assert date[|year| + |month| + 2..] == day;
      Success(ShowingDate(date, DropFirst(d[DateIdKey].value)))
  }

  /** `format_parsed_showing_dates`, with the current year and month (the
      clock's `%Y` and `%m`) passed in. */
  function FormatParsedShowingDates(entries: seq<Entry>, year: string, month: string): (r: Result<seq<ShowingDate>, string>)
    ensures r.Success? <==> forall i :: 0 <= i < |entries| ==> WellFormed(entries[i])
    ensures r.Success? ==> |r.value| == |entries|
    ensures r.Success? ==> forall i :: 0 <= i < |entries| ==> Success(r.value[i]) == FormatEntry(entries[i], year, month)
  {
    if |entries| == 0 then Success([])
    else
      var first :- FormatEntry(entries[0], year, month);
      var rest :- FormatParsedShowingDates(entries[1..], year, month);
      assert forall i :: 1 <= i < |entries| ==> entries[i] == entries[1..][i - 1];
      Success([first] + rest)
  }

  /** The first malformed entry decides the message; later ones are never
      read. */
  lemma {:induction false} FailsAtFirstMalformed(entries: seq<Entry>, year: string, month: string, i: nat)
    requires i < |entries| && !WellFormed(entries[i])
    requires forall j :: 0 <= j < i ==> WellFormed(entries[j])
    ensures FormatParsedShowingDates(entries, year, month) == Failure(EntryError(entries[i]))
  {
    if i > 0 {
      assert forall j :: 0 <= j < i - 1 ==> entries[1..][j] == entries[j + 1];
      FailsAtFirstMalformed(entries[1..], year, month, i - 1);
    }
  }

  /** Each formatted entry keeps the link's date id without its first
      character, and its date is the year, the month and the last
      space-separated word of the link's text, joined by dashes. */
  lemma FormattedEntryContents(d: Entry, year: string, month: string)
    requires WellFormed(d)
    ensures var r := FormatEntry(d, year, month).value;
      var href := d[DateIdKey].value;
      (|href| > 0 ==> href == [href[0]] + r.dateId) && (|href| == 0 ==> r.dateId == "")
    ensures var date := FormatEntry(d, year, month).value.date;
      var text := d[DateKey].value;
      var n := |year| + |month| + 2;
      var day := date[n..];
      date[..n] == year + "-" + month + "-"
      && ' ' !in day && |day| <= |text| && text[|text| - |day|..] == day
      && (|day| < |text| ==> text[|text| - |day| - 1] == ' ')
  {
    var day := Day(d[DateKey].value);
    LastFieldIsSuffix(d[DateKey].value, ' ');
    var date := year + "-" + month + "-" + day;
    assert FormatEntry(d, year, month).value.date == date;
    assert date[..|year| + |month| + 2] == year + "-" + month + "-";
    assert date[|year| + |month| + 2..] == day;
  }

  /** With the clock's four-digit year and two-digit month, a link text
      ending in a two-digit day gives an ISO date of that day in the
      current month. */
  lemma FormattedDateIsIso(y: nat, m: nat, prefix: string, day: string)
    requires y < 10000 && m < 100
    requires |day| == 2 && AllDigits(day)
    ensures var text := prefix + [' '] + day;
      var d: Entry := map[DateIdKey := Some(""), DateKey := Some(text)];
      var r := FormatEntry(d, FixedDigits(y, 4), FixedDigits(m, 2)).value.date;
      IsoShape(r) && ParseDate(r) == Date(y, m, ParseNat(day))
  {
    var text := prefix + [' '] + day;
    var d: Entry := map[DateIdKey := Some(""), DateKey := Some(text)];
    assert ' ' !in day by {
      assert forall c :: c in day ==> IsDigit(c);
    }
    LastFieldAfter(prefix, ' ', day);
    FixedDigitsOfParse(day);
    var r := FormatEntry(d, FixedDigits(y, 4), FixedDigits(m, 2)).value.date;
    assert r == FixedDigits(y, 4) + "-" + FixedDigits(m, 2) + "-" + FixedDigits(ParseNat(day), 2);
    assert r == DateString(y, m, ParseNat(day));
  }
}

/** Calendar links from the parser tests, formatted as the code formats
    them. */
module TajParserExamples {
  import opened Wrappers
  import opened Text
  import opened TajParser

  /** A link text with two spaces before the day, and a tab id after '#'. */
  lemma TestEntryExample(year: string, month: string)
    ensures FormatEntry(map[DateKey := Some("Sun  23"), DateIdKey := Some("#date-319")], year, month)
      == Success(ShowingDate(year + "-" + month + "-" + "23", "date-319"))
  {
    assert "Sun  23" == "Sun " + [' '] + "23";
    LastFieldAfter("Sun ", ' ', "23");
    assert DropFirst("#date-319") == "date-319";
  }

  /** A link text without a space is taken whole as the day, and the first
      character of the id is dropped whether or not it is '#'. */
  lemma NoSpaceEntryExample(year: string, month: string)
    ensures FormatEntry(map[DateKey := Some("invalid"), DateIdKey := Some("date1")], year, month)
      == Success(ShowingDate(year + "-" + month + "-" + "invalid", "ate1"))
  {
    LastFieldOfWord("invalid", ' ');
    assert DropFirst("date1") == "ate1";
  }

  /** A link without an `href` stops the whole list. */
  lemma MissingHrefExample(year: string, month: string)
    ensures FormatParsedShowingDates([map[DateKey := Some("Sun  23"), DateIdKey := None]], year, month)
      == Failure(Occurred(NotSubscriptable))
  {
    FailsAtFirstMalformed([map[DateKey := Some("Sun  23"), DateIdKey := None]], year, month, 0);
  }
}
