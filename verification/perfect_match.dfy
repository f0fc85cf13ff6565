/** `handle_perfect_match_titles` with `format_merged_titles`: the exact
    match of the three cinemas' listings on their normalised titles.

    The source builds one table per non-empty list and chains outer joins
    on `normalized_title`. With a single non-empty list no join happens and
    the rows keep the list's order; with two or more, the outer join gives
    one row per distinct key, in code-point order of the keys. The first
    list's generic `title` column is read back as `title_<source>` only when
    the row's id for that source is non-empty; every later list's title
    comes from its own suffixed column. */
module PerfectMatch {
  import opened Wrappers
  import opened Text
  import opened Titles

  const NoTitlesError := "No titles to match"

  /** The list a cinema contributed. */
  function ListFor<T>(s: Source, grand: seq<T>, prime: seq<T>, taj: seq<T>): seq<T> {
    match s
    case Grand => grand
    case Prime => prime
    case Taj => taj
  }

  /** How many of the three lists survive the `if titles` filter. */
  function NonEmptyCount<T>(grand: seq<T>, prime: seq<T>, taj: seq<T>): nat {
    (if |grand| > 0 then 1 else 0) + (if |prime| > 0 then 1 else 0) + (if |taj| > 0 then 1 else 0)
  }

  /** The cinema whose table starts the chain of joins. */
  function FirstSource(grand: seq<KeyedTitle>, prime: seq<KeyedTitle>, taj: seq<KeyedTitle>): (s: Source)
    requires NonEmptyCount(grand, prime, taj) > 0
    ensures |ListFor(s, grand, prime, taj)| > 0
    ensures s != Grand ==> |grand| == 0
    ensures s == Taj ==> |prime| == 0
  {
    if |grand| > 0 then Grand else if |prime| > 0 then Prime else Taj
  }

  /** No two listings of one cinema share a normalised title. */
  predicate DistinctKeys(list: seq<KeyedTitle>) {
    forall i, j :: 0 <= i < j < |list| ==> list[i].normalizedTitle != list[j].normalizedTitle
  }

  predicate StrictlySorted(keys: seq<string>) {
    forall i, j :: 0 <= i < j < |keys| ==> LexLess(keys[i], keys[j])
  }

  function KeysOf(list: seq<KeyedTitle>): (r: seq<string>)
    ensures |r| == |list|
    ensures forall i :: 0 <= i < |list| ==> r[i] == list[i].normalizedTitle
  {
    if |list| == 0 then [] else [list[0].normalizedTitle] + KeysOf(list[1..])
  }

  /** Every key of every list, with repetitions. */
  function AllKeys(grand: seq<KeyedTitle>, prime: seq<KeyedTitle>, taj: seq<KeyedTitle>): seq<string> {
    KeysOf(grand) + KeysOf(prime) + KeysOf(taj)
  }

  /** The `normalized_title` column of a result. */
  function RowKeys(rows: seq<CanonicalTitle>): (r: seq<string>)
    ensures |r| == |rows|
    ensures forall i :: 0 <= i < |rows| ==> r[i] == rows[i].normalizedTitle
  {
    if |rows| == 0 then [] else [rows[0].normalizedTitle] + RowKeys(rows[1..])
  }

  /** Adds `k` to a strictly sorted key list, keeping it strictly sorted. */
  function InsertKey(k: string, keys: seq<string>): (r: seq<string>)
    requires StrictlySorted(keys)
    ensures StrictlySorted(r)
    ensures forall x :: x in r <==> x == k || x in keys
    ensures |r| <= |keys| + 1
  {
    if |keys| == 0 then [k]
    else if k == keys[0] then keys
    else if LexLess(k, keys[0]) then
      LessThanSortedHead(k, keys);
      [k] + keys
    else
      LexLessTotal(k, keys[0]);
      var rest := InsertKey(k, keys[1..]);
      assert forall x :: x in rest ==> LexLess(keys[0], x) by {
        forall x | x in rest
          ensures LexLess(keys[0], x)
        {
          if x != k {
            var j :| 1 <= j < |keys| && keys[j] == x;
          }
        }
      }
      PrependKeepsSorted(keys[0], rest);
      [keys[0]] + rest
  }

  lemma LessThanSortedHead(k: string, keys: seq<string>)
    requires StrictlySorted(keys) && |keys| > 0 && LexLess(k, keys[0])
    ensures StrictlySorted([k] + keys)
  {
    forall j | 0 <= j < |keys|
      ensures LexLess(k, keys[j])
    {
      if j > 0 {
        LexLessTransitive(k, keys[0], keys[j]);
      }
    }
  }

  lemma PrependKeepsSorted(k: string, keys: seq<string>)
    requires StrictlySorted(keys)
    requires forall x :: x in keys ==> LexLess(k, x)
    ensures StrictlySorted([k] + keys)
  {
    var r := [k] + keys;
    forall i, j | 0 <= i < j < |r|
      ensures LexLess(r[i], r[j])
    {
      assert r[j] == keys[j - 1];
      if i > 0 {
        assert r[i] == keys[i - 1];
      }
    }
  }

  /** The distinct keys, in code-point order (the outer join's row order). */
  function SortKeys(keys: seq<string>): (r: seq<string>)
    ensures StrictlySorted(r)
    ensures forall x :: x in r <==> x in keys
    ensures |r| <= |keys|
  {
    if |keys| == 0 then []
    else
      var rest := SortKeys(keys[1..]);
      assert forall x :: x in keys <==> x == keys[0] || x in keys[1..] by {
        assert keys == [keys[0]] + keys[1..];
      }
      InsertKey(keys[0], rest)
  }

  /** The position of the first listing whose key is `k`. */
  function LookupIndex(list: seq<KeyedTitle>, k: string): (r: Option<nat>)
    ensures r.Some? ==> r.value < |list| && list[r.value].normalizedTitle == k
    ensures r.Some? ==> forall i :: 0 <= i < r.value ==> list[i].normalizedTitle != k
    ensures r.None? <==> forall i :: 0 <= i < |list| ==> list[i].normalizedTitle != k
  {
    if |list| == 0 then None
    else if list[0].normalizedTitle == k then Some(0)
    else
      var tail := list[1..];
      var rest := LookupIndex(tail, k);
      assert forall i :: 1 <= i < |list| ==> list[i] == tail[i - 1];
      match rest
      case None => None
      case Some(j) =>
        assert list[j + 1] == tail[j];
        Some(j + 1)
  }

  /** The `title_<source>` and `<source>_id` cells of the joined row for key
      `k`: empty when the cinema has no listing with that key; otherwise its
      id, and its raw title, except that the first table's title is blanked
      when that listing's id is empty. */
  function Listing(list: seq<KeyedTitle>, k: string, isFirst: bool): (string, string) {
    match LookupIndex(list, k)
    case None => ("", "")
    case Some(j) =>
      var e := list[j];
      ((if isFirst && e.id == "" then "" else e.title), e.id)
  }

  /** One row of the joined table. */
  function JoinRow(k: string, grand: seq<KeyedTitle>, prime: seq<KeyedTitle>, taj: seq<KeyedTitle>, first: Source): CanonicalTitle {
    var g := Listing(grand, k, first == Grand);
    var p := Listing(prime, k, first == Prime);
    var t := Listing(taj, k, first == Taj);
    CanonicalTitle(
      titleGrand := g.0, grandId := g.1,
      normalizedTitle := k,
      titlePrime := p.0, primeId := p.1,
      titleTaj := t.0, tajId := t.1,
      title := "")
  }

  /** One row when a single list is present and no join runs. */
  function SingleRow(s: Source, e: KeyedTitle): CanonicalTitle {
    var title := if e.id != "" then e.title else "";
    CanonicalTitle(
      titleGrand := if s == Grand then title else "",
      grandId := if s == Grand then e.id else "",
      normalizedTitle := e.normalizedTitle,
      titlePrime := if s == Prime then title else "",
      primeId := if s == Prime then e.id else "",
      titleTaj := if s == Taj then title else "",
      tajId := if s == Taj then e.id else "",
      title := "")
  }

  /** `handle_perfect_match_titles(grand, prime, taj)`. Duplicate keys inside
      one list are only excluded when a join runs (the join would then pair
      them up as a cartesian product, which this model does not describe). */
  function JoinTables(grand: seq<KeyedTitle>, prime: seq<KeyedTitle>, taj: seq<KeyedTitle>)
    : (r: Result<seq<CanonicalTitle>, string>)
    requires NonEmptyCount(grand, prime, taj) >= 2 ==>
      DistinctKeys(grand) && DistinctKeys(prime) && DistinctKeys(taj)
    ensures r.Failure? <==> |grand| == 0 && |prime| == 0 && |taj| == 0
    ensures r.Failure? ==> r.error == NoTitlesError
    ensures r.Success? ==> |r.value| > 0
    ensures r.Success? ==> forall i :: 0 <= i < |r.value| ==> r.value[i].title == ""
  {
    var n := NonEmptyCount(grand, prime, taj);
    if n == 0 then Failure(NoTitlesError)
    else
      var first := FirstSource(grand, prime, taj);
      if n == 1 then
        var list := ListFor(first, grand, prime, taj);
        Success(seq(|list|, i requires 0 <= i < |list| => SingleRow(first, list[i])))
      else
        var keys := SortKeys(AllKeys(grand, prime, taj));
        assert keys != [] by {
          var s := first;
          assert ListFor(s, grand, prime, taj)[0].normalizedTitle in AllKeys(grand, prime, taj);
        }
        Success(seq(|keys|, i requires 0 <= i < |keys| => JoinRow(keys[i], grand, prime, taj, first)))
  }

  /** `handle_perfect_match_titles(grand, prime, taj)` on the cinemas' raw
      listings: each list gets its `normalized_title` column, then the
      tables are joined. */
  function HandlePerfectMatch(grand: seq<RawTitle>, prime: seq<RawTitle>, taj: seq<RawTitle>)
    : (r: Result<seq<CanonicalTitle>, string>)
    requires var g, p, t := HandleRawTitles(grand), HandleRawTitles(prime), HandleRawTitles(taj);
      NonEmptyCount(g, p, t) >= 2 ==> DistinctKeys(g) && DistinctKeys(p) && DistinctKeys(t)
    ensures r.Failure? <==> |grand| == 0 && |prime| == 0 && |taj| == 0
    ensures r.Failure? ==> r.error == NoTitlesError
    ensures r.Success? ==> |r.value| > 0
  {
    JoinTables(HandleRawTitles(grand), HandleRawTitles(prime), HandleRawTitles(taj))
  }

  /** A row carries, for cinema `s`, the listing of `list` whose key is the
      row's key (its id, and its raw title unless `isFirst` blanks it), and
      empty cells when no listing has that key. */
  predicate CarriesListing(row: CanonicalTitle, s: Source, list: seq<KeyedTitle>, isFirst: bool) {
    && (forall j :: 0 <= j < |list| && list[j].normalizedTitle == row.normalizedTitle ==>
          row.Id(s) == list[j].id
          && row.SourceTitle(s) == (if isFirst && list[j].id == "" then "" else list[j].title))
    && ((forall j :: 0 <= j < |list| ==> list[j].normalizedTitle != row.normalizedTitle) ==>
          row.Id(s) == "" && row.SourceTitle(s) == "")
  }

  lemma ListingCarried(row: CanonicalTitle, s: Source, list: seq<KeyedTitle>, isFirst: bool)
    requires DistinctKeys(list)
    requires Listing(list, row.normalizedTitle, isFirst) == (row.SourceTitle(s), row.Id(s))
    ensures CarriesListing(row, s, list, isFirst)
  {
    var k := row.normalizedTitle;
    match LookupIndex(list, k)
    case None =>
    case Some(m) =>
      forall j | 0 <= j < |list| && list[j].normalizedTitle == k
        ensures j == m
      {
      }
  }

  /** With two or more non-empty lists, every row carries each cinema's
      listing for its key, and the keys are strictly increasing (so no key
      appears twice) and are exactly the keys of the input listings. */
  lemma PerfectMatchJoined(grand: seq<KeyedTitle>, prime: seq<KeyedTitle>, taj: seq<KeyedTitle>)
    requires NonEmptyCount(grand, prime, taj) >= 2
    requires DistinctKeys(grand) && DistinctKeys(prime) && DistinctKeys(taj)
    ensures var r := JoinTables(grand, prime, taj);
      && r.Success?
      && StrictlySorted(RowKeys(r.value))
      && (forall k :: k in RowKeys(r.value) <==> k in AllKeys(grand, prime, taj))
      && (forall i, s: Source :: 0 <= i < |r.value| ==>
            CarriesListing(r.value[i], s, ListFor(s, grand, prime, taj), s == FirstSource(grand, prime, taj)))
  {
    var r := JoinTables(grand, prime, taj);
    var first := FirstSource(grand, prime, taj);
    PerfectMatchJoinedKeys(grand, prime, taj);
    forall i, s: Source | 0 <= i < |r.value|
      ensures CarriesListing(r.value[i], s, ListFor(s, grand, prime, taj), s == first)
    {
      var row := r.value[i];
      match s
      case Grand => ListingCarried(row, s, grand, s == first);
      case Prime => ListingCarried(row, s, prime, s == first);
      case Taj => ListingCarried(row, s, taj, s == first);
    }
  }

  /** The joined rows' keys are strictly increasing and are exactly the
      keys of the input listings. */
  lemma PerfectMatchJoinedKeys(grand: seq<KeyedTitle>, prime: seq<KeyedTitle>, taj: seq<KeyedTitle>)
    requires NonEmptyCount(grand, prime, taj) >= 2
    requires DistinctKeys(grand) && DistinctKeys(prime) && DistinctKeys(taj)
    ensures var r := JoinTables(grand, prime, taj);
      && r.Success?
      && StrictlySorted(RowKeys(r.value))
      && (forall k :: k in RowKeys(r.value) <==> k in AllKeys(grand, prime, taj))
  {
    var r := JoinTables(grand, prime, taj);
    var first := FirstSource(grand, prime, taj);
    var keys := SortKeys(AllKeys(grand, prime, taj));
    assert r.value == seq(|keys|, i requires 0 <= i < |keys| => JoinRow(keys[i], grand, prime, taj, first));
    assert RowKeys(r.value) == keys;
  }

  /** With one non-empty list the rows are that list's listings in order,
      each with the other two cinemas' cells empty. */
  lemma PerfectMatchSingleSource(grand: seq<KeyedTitle>, prime: seq<KeyedTitle>, taj: seq<KeyedTitle>)
    requires NonEmptyCount(grand, prime, taj) == 1
    ensures var r := JoinTables(grand, prime, taj);
      var s := FirstSource(grand, prime, taj);
      var list := ListFor(s, grand, prime, taj);
      && r.Success?
      && |r.value| == |list|
      && (forall i :: 0 <= i < |list| ==>
            && r.value[i].normalizedTitle == list[i].normalizedTitle
            && r.value[i].Id(s) == list[i].id
            && r.value[i].SourceTitle(s) == (if list[i].id == "" then "" else list[i].title))
      && (forall i, t: Source :: 0 <= i < |list| && t != s ==>
            r.value[i].Id(t) == "" && r.value[i].SourceTitle(t) == "")
  {
  }

  /** Every listing of every cinema lands in exactly one row, which carries
      its id under that cinema. */
  lemma PerfectMatchComplete(grand: seq<KeyedTitle>, prime: seq<KeyedTitle>, taj: seq<KeyedTitle>, s: Source, j: nat)
    requires NonEmptyCount(grand, prime, taj) >= 2 ==>
      DistinctKeys(grand) && DistinctKeys(prime) && DistinctKeys(taj)
    requires j < |ListFor(s, grand, prime, taj)|
    ensures var r := JoinTables(grand, prime, taj);
      var e := ListFor(s, grand, prime, taj)[j];
      && r.Success?
      && (exists i :: 0 <= i < |r.value| && r.value[i].normalizedTitle == e.normalizedTitle && r.value[i].Id(s) == e.id)
  {
    var r := JoinTables(grand, prime, taj);
    var list := ListFor(s, grand, prime, taj);
    var e := list[j];
    if NonEmptyCount(grand, prime, taj) == 1 {
      PerfectMatchSingleSource(grand, prime, taj);
      assert r.value[j].normalizedTitle == e.normalizedTitle && r.value[j].Id(s) == e.id;
    } else {
      PerfectMatchJoined(grand, prime, taj);
      assert e.normalizedTitle in AllKeys(grand, prime, taj) by {
        assert KeysOf(list)[j] == e.normalizedTitle;
      }
      var i :| 0 <= i < |r.value| && RowKeys(r.value)[i] == e.normalizedTitle;
      assert CarriesListing(r.value[i], s, list, s == FirstSource(grand, prime, taj));
    }
  }

  /** Keys are unique in every result, whichever branch produced it. */
  lemma PerfectMatchKeysDistinct(grand: seq<KeyedTitle>, prime: seq<KeyedTitle>, taj: seq<KeyedTitle>)
    requires DistinctKeys(grand) && DistinctKeys(prime) && DistinctKeys(taj)
    requires NonEmptyCount(grand, prime, taj) > 0
    ensures var r := JoinTables(grand, prime, taj);
      forall i, j :: 0 <= i < j < |r.value| ==> r.value[i].normalizedTitle != r.value[j].normalizedTitle
  {
    var r := JoinTables(grand, prime, taj);
    if NonEmptyCount(grand, prime, taj) == 1 {
      PerfectMatchSingleSource(grand, prime, taj);
    } else {
      PerfectMatchJoined(grand, prime, taj);
      forall i, j | 0 <= i < j < |r.value|
        ensures r.value[i].normalizedTitle != r.value[j].normalizedTitle
      {
        assert LexLess(RowKeys(r.value)[i], RowKeys(r.value)[j]);
        LexLessIrreflexive(r.value[i].normalizedTitle);
      }
    }
  }

  /** `k` is the normalised title of some listing of some cinema. */
  predicate KeyFromInput(k: string, grand: seq<KeyedTitle>, prime: seq<KeyedTitle>, taj: seq<KeyedTitle>) {
    exists s: Source, j :: 0 <= j < |ListFor(s, grand, prime, taj)| && k == ListFor(s, grand, prime, taj)[j].normalizedTitle
  }

  /** Every row's key is the key of some input listing. */
  lemma PerfectMatchKeysFromInput(grand: seq<KeyedTitle>, prime: seq<KeyedTitle>, taj: seq<KeyedTitle>)
    requires NonEmptyCount(grand, prime, taj) >= 2 ==>
      DistinctKeys(grand) && DistinctKeys(prime) && DistinctKeys(taj)
    ensures var r := JoinTables(grand, prime, taj);
      r.Success? ==> forall i :: 0 <= i < |r.value| ==> KeyFromInput(r.value[i].normalizedTitle, grand, prime, taj)
  {
    var r := JoinTables(grand, prime, taj);
    var n := NonEmptyCount(grand, prime, taj);
    if n == 1 {
      PerfectMatchSingleSource(grand, prime, taj);
      var s := FirstSource(grand, prime, taj);
      forall i | 0 <= i < |r.value|
        ensures KeyFromInput(r.value[i].normalizedTitle, grand, prime, taj)
      {
        assert 0 <= i < |ListFor(s, grand, prime, taj)|;
        assert r.value[i].normalizedTitle == ListFor(s, grand, prime, taj)[i].normalizedTitle;
      }
    } else if n >= 2 {
      PerfectMatchJoinedKeys(grand, prime, taj);
      forall i | 0 <= i < |r.value|
        ensures KeyFromInput(r.value[i].normalizedTitle, grand, prime, taj)
      {
        assert RowKeys(r.value)[i] == r.value[i].normalizedTitle;
        AllKeysFromInput(r.value[i].normalizedTitle, grand, prime, taj);
      }
    }
  }

  lemma AllKeysFromInput(k: string, grand: seq<KeyedTitle>, prime: seq<KeyedTitle>, taj: seq<KeyedTitle>)
    requires k in AllKeys(grand, prime, taj)
    ensures KeyFromInput(k, grand, prime, taj)
  {
    if k in KeysOf(grand) {
      var j :| 0 <= j < |grand| && KeysOf(grand)[j] == k;
      assert ListFor(Grand, grand, prime, taj)[j].normalizedTitle == k;
    } else if k in KeysOf(prime) {
      var j :| 0 <= j < |prime| && KeysOf(prime)[j] == k;
      assert ListFor(Prime, grand, prime, taj)[j].normalizedTitle == k;
    } else {
      var j :| 0 <= j < |taj| && KeysOf(taj)[j] == k;
      assert ListFor(Taj, grand, prime, taj)[j].normalizedTitle == k;
    }
  }

  /** No id is invented: every id in a row is the id, for the same cinema,
      of one of that cinema's listings. */
  lemma PerfectMatchIdsFromInput(grand: seq<KeyedTitle>, prime: seq<KeyedTitle>, taj: seq<KeyedTitle>, i: nat, s: Source)
    requires NonEmptyCount(grand, prime, taj) >= 2 ==>
      DistinctKeys(grand) && DistinctKeys(prime) && DistinctKeys(taj)
    requires JoinTables(grand, prime, taj).Success?
    requires i < |JoinTables(grand, prime, taj).value|
    requires JoinTables(grand, prime, taj).value[i].HasId(s)
    ensures var row := JoinTables(grand, prime, taj).value[i];
      exists j :: 0 <= j < |ListFor(s, grand, prime, taj)| && ListFor(s, grand, prime, taj)[j].id == row.Id(s)
  {
    var row := JoinTables(grand, prime, taj).value[i];
    var list := ListFor(s, grand, prime, taj);
    if NonEmptyCount(grand, prime, taj) == 1 {
      PerfectMatchSingleSource(grand, prime, taj);
      assert list[i].id == row.Id(s);
    } else {
      PerfectMatchJoined(grand, prime, taj);
      assert CarriesListing(row, s, list, s == FirstSource(grand, prime, taj));
    }
  }

  /** The exact match has at most one row per listing. */
  lemma PerfectMatchRowCount(grand: seq<KeyedTitle>, prime: seq<KeyedTitle>, taj: seq<KeyedTitle>)
    requires NonEmptyCount(grand, prime, taj) >= 2 ==>
      DistinctKeys(grand) && DistinctKeys(prime) && DistinctKeys(taj)
    requires JoinTables(grand, prime, taj).Success?
    ensures |JoinTables(grand, prime, taj).value| <= |grand| + |prime| + |taj|
  {
    if NonEmptyCount(grand, prime, taj) == 1 {
      PerfectMatchSingleSource(grand, prime, taj);
    } else {
      PerfectMatchJoinedKeys(grand, prime, taj);
    }
  }
}
