/** The stored records of the showings app — cinema locations, scraping
    batches, films and showings — with the checks their `clean()` methods
    make and the text their `__str__` methods give. */
module Models {
  import opened Wrappers
  import opened Text
  import opened Calendar
  import opened Titles

  /** Django's `ValidationError`: a message bound to one field, or one for
      the whole record. */
  datatype ValidationError = FieldMessage(field: string, message: string) | RecordMessage(message: string)

  /** Python truthiness of a nullable text column: neither `None` nor "". */
  predicate Present(v: Option<string>) {
    v.Some? && v.value != ""
  }

  // ---------------------------------------------------------------------
  // Location

  datatype Location = Location(city: string, name: string, address: string, website: Option<string>)

  const HttpPrefix := "http://"
  const HttpsPrefix := "https://"
  const WebsiteMessage := "Website URL must start with " + HttpPrefix + " or " + HttpsPrefix

  predicate HasWebScheme(url: string) {
    StartsWith(url, HttpPrefix) || StartsWith(url, HttpsPrefix)
  }

  /** `Location.clean`: a website, when there is one, must start with one of
      the two web schemes. */
  function CleanLocation(l: Location): (r: Outcome<ValidationError>)
    ensures r.Pass? <==> !Present(l.website) || HasWebScheme(l.website.value)
    ensures r.Fail? ==> r.error == FieldMessage("website", WebsiteMessage)
  {
    if Present(l.website) && !HasWebScheme(l.website.value) then Fail(FieldMessage("website", WebsiteMessage))
    else Pass
  }

  /** For a website written `scheme://rest`, the check accepts exactly the
      schemes `http` and `https`. */
  lemma WebsiteSchemeRule(l: Location, scheme: string, rest: string)
    requires l.website == Some(scheme + "://" + rest)
    requires ':' !in scheme
    ensures CleanLocation(l).Pass? <==> scheme == "http" || scheme == "https"
  {
    var url := scheme + "://" + rest;
    assert ':' !in "http" && ':' !in "https";
    assert HttpPrefix == "http" + "://" && HttpsPrefix == "https" + "://";
    SchemePrefix(scheme, rest, "http");
    SchemePrefix(scheme, rest, "https");
  }

  /** `scheme://rest` starts with `word://` only when the scheme is the
      word, if neither holds a colon. */
  lemma SchemePrefix(scheme: string, rest: string, word: string)
    requires ':' !in scheme && ':' !in word
    ensures StartsWith(scheme + "://" + rest, word + "://") <==> scheme == word
  {
    var url := scheme + "://" + rest;
    var prefix := word + "://";
    if scheme == word {
      assert url[..|prefix|] == prefix;
    }
    if StartsWith(url, prefix) {
      var after := url[|prefix|..];
      assert url == url[..|prefix|] + after;
      assert url == word + [':'] + ("//" + after);
      assert url == scheme + [':'] + ("//" + rest);
      FirstFieldBefore(word, ':', "//" + after);
      FirstFieldBefore(scheme, ':', "//" + rest);
    }
  }

  /** `Location.__str__`: `name - address`. */
  function LocationString(l: Location): (r: string)
    ensures StartsWith(r, l.name + " - ") && EndsWith(r, l.address)
    ensures |r| == |l.name| + 3 + |l.address|
  {
    var r := l.name + " - " + l.address;
    assert r[..|l.name| + 3] == l.name + " - ";
    assert r[|r| - |l.address|..] == l.address;
    r
  }

  /** Between locations whose names have no dash, the text tells the name
      and the address apart. */
  lemma LocationStringIdentifies(a: Location, b: Location)
    requires '-' !in a.name && '-' !in b.name
    requires LocationString(a) == LocationString(b)
    ensures a.name == b.name && a.address == b.address
  {
    var r := LocationString(a);
    NameField(a);
    NameField(b);
    assert a.name == (a.name + " ")[..|a.name|];
    assert b.name == (b.name + " ")[..|b.name|];
    assert a.address == r[|a.name| + 3..] == b.address;
  }

  /** The text before the first dash of a location's text is its name and
      the following space. */
  lemma NameField(l: Location)
    requires '-' !in l.name
    ensures FirstField(LocationString(l), '-') == l.name + " "
  {
    assert LocationString(l) == (l.name + " ") + ['-'] + (" " + l.address);
    assert '-' !in l.name + " ";
    FirstFieldBefore(l.name + " ", '-', " " + l.address);
  }

  // ---------------------------------------------------------------------
  // Batch

  /** `Batch.Status`. */
  datatype Status = Pending | Processing | Completed | Failed

  /** The stored value of a status. */
  function StatusValue(s: Status): string {
    match s
    case Pending => "PENDING"
    case Processing => "PROCESSING"
    case Completed => "COMPLETED"
    case Failed => "FAILED"
  }

  datatype Batch = Batch(batchId: string, status: Status)

  /** A batch as created without a status: it starts pending. */
  function NewBatch(batchId: string): (r: Batch)
    ensures r.batchId == batchId && r.status == Pending
  {
    Batch(batchId, Pending)
  }

  /** `Batch.__str__`: `batch_id (STATUS)`. */
  function BatchString(b: Batch): (r: string)
    ensures StartsWith(r, b.batchId + " (")
    ensures EndsWith(r, "(" + StatusValue(b.status) + ")")
    ensures |r| == |b.batchId| + 3 + |StatusValue(b.status)|
  {
    var r := b.batchId + " (" + StatusValue(b.status) + ")";
    assert r[..|b.batchId| + 2] == b.batchId + " (";
    assert r[|b.batchId| + 1..] == "(" + StatusValue(b.status) + ")";
    r
  }

  /** The text of a batch names its status and no other. */
  lemma BatchStringNamesStatus(b: Batch, s: Status)
    ensures EndsWith(BatchString(b), "(" + StatusValue(s) + ")") <==> s == b.status
  {
    if EndsWith(BatchString(b), "(" + StatusValue(s) + ")") {
      StatusValueHasNoParen(s);
      StatusValueHasNoParen(b.status);
      ParenSuffixUnique(BatchString(b), StatusValue(s), StatusValue(b.status));
      StatusValueInjective(s, b.status);
    }
  }

  lemma StatusValueHasNoParen(s: Status)
    ensures '(' !in StatusValue(s)
  {
    assert forall k :: 0 <= k < |StatusValue(s)| ==> 'A' <= StatusValue(s)[k] <= 'Z';
  }

  lemma StatusValueInjective(a: Status, b: Status)
    requires StatusValue(a) == StatusValue(b)
    ensures a == b
  {
  }

  /** Two endings `(x)` and `(y)` of one text, neither word holding '(',
      are the same. */
  lemma ParenSuffixUnique(r: string, x: string, y: string)
    requires '(' !in x && '(' !in y
    requires EndsWith(r, "(" + x + ")") && EndsWith(r, "(" + y + ")")
    ensures x == y
  {
    ParenField(r, x);
    ParenField(r, y);
    assert x == (x + ")")[..|x|];
    assert y == (y + ")")[..|y|];
  }

  /** The text after the last '(' of a text ending in `(x)` is `x)`. */
  lemma ParenField(r: string, x: string)
    requires '(' !in x
    requires EndsWith(r, "(" + x + ")")
    ensures LastField(r, '(') == x + ")"
  {
    var n := |x| + 2;
    assert r == r[..|r| - n] + r[|r| - n..];
    assert r == r[..|r| - n] + ['('] + (x + ")");
    assert '(' !in x + ")";
    LastFieldAfter(r[..|r| - n], '(', x + ")");
  }

  // ---------------------------------------------------------------------
  // Movie

  datatype Movie = Movie(
    title: string,
    grandId: Option<string>,
    primeId: Option<string>,
    tajId: Option<string>,
    grandTitle: Option<string>,
    primeTitle: Option<string>,
    tajTitle: Option<string>,
    normalizedTitle: Option<string>)

  /** The `<source>_id` column. */
  function SourceId(m: Movie, s: Source): Option<string> {
    match s
    case Grand => m.grandId
    case Prime => m.primeId
    case Taj => m.tajId
  }

  const NoSourceMessage := "Movie must have at least one source ID"

  /** `Movie.clean`: some cinema's id must be set and non-empty. */
  function CleanMovie(m: Movie): (r: Outcome<ValidationError>)
    ensures r.Pass? <==> exists s: Source :: Present(SourceId(m, s))
    ensures r.Fail? ==> r.error == RecordMessage(NoSourceMessage)
  {
    if Present(m.grandId) then
      assert Present(SourceId(m, Grand)); Pass
    else if Present(m.primeId) then
      assert Present(SourceId(m, Prime)); Pass
    else if Present(m.tajId) then
      assert Present(SourceId(m, Taj)); Pass
    else Fail(RecordMessage(NoSourceMessage))
  }

  /** Only the ids decide: the titles never make a movie valid or invalid. */
  lemma CleanMovieReadsOnlyIds(a: Movie, b: Movie)
    requires forall s: Source :: SourceId(a, s) == SourceId(b, s)
    ensures CleanMovie(a) == CleanMovie(b)
  {
    assert SourceId(a, Grand) == SourceId(b, Grand);
    assert SourceId(a, Prime) == SourceId(b, Prime);
    assert SourceId(a, Taj) == SourceId(b, Taj);
  }

  /** `Movie.__str__`: the title. */
  function MovieString(m: Movie): string {
    m.title
  }

  /** A nullable column filled from a matched title, where "" stands for
      "no value". */
  function NullIfEmpty(s: string): (r: Option<string>)
    ensures Present(r) <==> s != ""
    ensures r.Some? ==> r.value == s
  {
    if s == "" then None else Some(s)
  }

  /** A movie record carrying a row of the title matcher's output. */
  function MovieFromTitle(t: CanonicalTitle): (r: Movie)
    ensures forall s: Source :: Present(SourceId(r, s)) <==> t.HasId(s)
    ensures r.title == t.title
  {
    Movie(t.title, NullIfEmpty(t.grandId), NullIfEmpty(t.primeId), NullIfEmpty(t.tajId),
      NullIfEmpty(t.titleGrand), NullIfEmpty(t.titlePrime), NullIfEmpty(t.titleTaj),
      NullIfEmpty(t.normalizedTitle))
  }

  /** Such a record is valid exactly when the row has at least one id. */
  lemma MovieFromTitleValid(t: CanonicalTitle)
    ensures CleanMovie(MovieFromTitle(t)).Pass? <==> IdCount(t) > 0
  {
    var m := MovieFromTitle(t);
    assert Present(SourceId(m, Grand)) <==> t.HasId(Grand);
    assert Present(SourceId(m, Prime)) <==> t.HasId(Prime);
    assert Present(SourceId(m, Taj)) <==> t.HasId(Taj);
  }

  // ---------------------------------------------------------------------
  // Showing

  datatype Showing = Showing(
    movie: Movie,
    location: Location,
    url: Option<string>,
    date: Date,
    time: Time,
    isShowing: bool)

  const PastMessage := "Showing date cannot be in the past"

  /** `Showing.clean`, with today's date (the clock's) passed in: a showing
      may not lie before today. */
  function CleanShowing(s: Showing, today: Date): (r: Outcome<ValidationError>)
    ensures r.Fail? <==> Before(s.date, today)
    ensures r.Fail? ==> r.error == FieldMessage("date", PastMessage)
  {
    if Before(s.date, today) then Fail(FieldMessage("date", PastMessage)) else Pass
  }

  /** A showing today or tomorrow is accepted, one yesterday is refused. */
  lemma CleanShowingAroundToday(s: Showing, today: Date)
    requires ValidDate(today)
    ensures CleanShowing(s.(date := today), today).Pass?
    ensures NextDay(today).Some? ==> CleanShowing(s.(date := NextDay(today).value), today).Pass?
    ensures forall y: Date :: ValidDate(y) && NextDay(y) == Some(today) ==> CleanShowing(s.(date := y), today).Fail?
  {
  }

  /** Moving an accepted showing later keeps it accepted. */
  lemma CleanShowingLater(s: Showing, later: Date, today: Date)
    requires CleanShowing(s, today).Pass?
    requires !Before(later, s.date)
    ensures CleanShowing(s.(date := later), today).Pass?
  {
  }

  /** `Showing.__str__`: `title at cinema - date time`, the date and the
      time in their ISO forms. */
  function ShowingString(s: Showing): (r: string)
    requires ValidDate(s.date) && ValidTime(s.time)
    ensures StartsWith(r, MovieString(s.movie) + " at " + s.location.name + " - ")
    ensures |r| == |MovieString(s.movie)| + |s.location.name| + 7 + 11 + (if s.time.microsecond == 0 then 8 else 15)
    ensures r[|r| - |FormatTime(s.time)|..] == FormatTime(s.time)
    ensures r[|r| - |FormatTime(s.time)| - 11..|r| - |FormatTime(s.time)| - 1] == FormatDate(s.date)
    ensures r[|r| - |FormatTime(s.time)| - 1] == ' '
  {
    var head := MovieString(s.movie) + " at " + s.location.name + " - ";
    var r := head + FormatDate(s.date) + " " + FormatTime(s.time);
    ShowingTail(head, FormatDate(s.date), FormatTime(s.time));
    r
  }

  /** The showing's date can be read back from the text, just before the
      time ... */
  lemma ShowingStringDate(s: Showing)
    requires ValidDate(s.date) && ValidTime(s.time)
    ensures var r := ShowingString(s);
      var n := if s.time.microsecond == 0 then 8 else 15;
      IsoShape(r[|r| - n - 11..|r| - n - 1]) && ParseDate(r[|r| - n - 11..|r| - n - 1]) == s.date
      && r[|r| - n - 1] == ' '
  {
    var head := MovieString(s.movie) + " at " + s.location.name + " - ";
    ShowingTail(head, FormatDate(s.date), FormatTime(s.time));
  }

  /** ... and so can the hour, the minute and the second, at its end. */
  lemma ShowingStringTime(s: Showing)
    requires ValidDate(s.date) && ValidTime(s.time)
    ensures var r := ShowingString(s);
      var n := if s.time.microsecond == 0 then 8 else 15;
      && AllDigits(r[|r| - n..|r| - n + 2]) && ParseNat(r[|r| - n..|r| - n + 2]) == s.time.hour
      && AllDigits(r[|r| - n + 3..|r| - n + 5]) && ParseNat(r[|r| - n + 3..|r| - n + 5]) == s.time.minute
      && AllDigits(r[|r| - n + 6..|r| - n + 8]) && ParseNat(r[|r| - n + 6..|r| - n + 8]) == s.time.second
  {
    var head := MovieString(s.movie) + " at " + s.location.name + " - ";
    ShowingTail(head, FormatDate(s.date), FormatTime(s.time));
  }

  /** Where the parts of `head date time` lie in it. */
  lemma ShowingTail(head: string, date: string, time: string)
    requires |date| == 10 && |time| >= 8
    ensures var r := head + date + " " + time;
      var n := |time|;
      && r[..|head|] == head
      && r[|r| - n..] == time
      && r[|r| - n - 11..|r| - n - 1] == date
      && r[|r| - n - 1] == ' '
      && r[|r| - n..|r| - n + 2] == time[..2]
      && r[|r| - n + 3..|r| - n + 5] == time[3..5]
      && r[|r| - n + 6..|r| - n + 8] == time[6..8]
  {
    var r := head + date + " " + time;
    var n := |time|;
    assert r[|r| - n..] == time;
    assert r[|r| - n..|r| - n + 2] == r[|r| - n..][..2];
    assert r[|r| - n + 3..|r| - n + 5] == r[|r| - n..][3..5];
    assert r[|r| - n + 6..|r| - n + 8] == r[|r| - n..][6..8];
  }
}

/** Records from the model tests, checked as the code checks them. */
module ModelExamples {
  import opened Wrappers
  import opened Models

  /** A website without a scheme is refused. */
  lemma InvalidWebsiteExample(city: string, name: string, address: string)
    ensures CleanLocation(Location(city, name, address, Some("invalid-url")))
      == Fail(FieldMessage("website", WebsiteMessage))
  {
    assert "invalid-url"[..7][0] == 'i' && "invalid-url"[..8][0] == 'i';
  }

  /** A location without a website passes. */
  lemma NoWebsiteExample(city: string, name: string, address: string)
    ensures CleanLocation(Location(city, name, address, None)) == Pass
    ensures CleanLocation(Location(city, name, address, Some(""))) == Pass
  {
  }

  /** A movie with only titles is refused. */
  lemma NoSourceIdExample(title: string, normalized: string)
    ensures CleanMovie(Movie(title, None, None, None, None, None, None, Some(normalized)))
      == Fail(RecordMessage(NoSourceMessage))
  {
  }
}
