/** `match_titles`: the exact match of the three cinemas' listings followed
    by the fuzzy pass over its rows. */
module TitleMatch {
  import opened Wrappers
  import opened Titles
  import opened PerfectMatch
  import opened FuzzyMatch

  /** Every cinema's listings have pairwise different normalised titles. */
  predicate DistinctWithinLists(grand: seq<RawTitle>, prime: seq<RawTitle>, taj: seq<RawTitle>) {
    DistinctKeys(HandleRawTitles(grand)) && DistinctKeys(HandleRawTitles(prime)) && DistinctKeys(HandleRawTitles(taj))
  }

  /** The join needs distinct keys within each list once two lists take part. */
  predicate JoinableLists(grand: seq<RawTitle>, prime: seq<RawTitle>, taj: seq<RawTitle>) {
    NonEmptyCount(grand, prime, taj) >= 2 ==> DistinctWithinLists(grand, prime, taj)
  }

  /** `match_titles(grand_titles, prime_titles, taj_titles)`. */
  function MatchTitles(grand: seq<RawTitle>, prime: seq<RawTitle>, taj: seq<RawTitle>, score: Scorer)
    : (r: Result<seq<CanonicalTitle>, string>)
    requires JoinableLists(grand, prime, taj)
    ensures |grand| == 0 && |prime| == 0 && |taj| == 0 ==> r == Failure(NoTitlesError)
    ensures r.Failure? ==> r.error == NoTitlesError || r.error == AmbiguousMatchError
  {
    var perfect :- HandlePerfectMatch(grand, prime, taj);
    HandleFuzzyMatch(perfect, score)
  }

  /** The exact match under its keyed name. */
  lemma PerfectMatchIsJoin(grand: seq<RawTitle>, prime: seq<RawTitle>, taj: seq<RawTitle>)
    requires JoinableLists(grand, prime, taj)
    ensures HandlePerfectMatch(grand, prime, taj)
      == JoinTables(HandleRawTitles(grand), HandleRawTitles(prime), HandleRawTitles(taj))
  {
  }

  /** With distinct titles in each list, matching fails exactly when there
      is nothing to match: the exact match leaves no two rows with the same
      normalised title, so no lookup of the fuzzy pass is ambiguous. */
  lemma MatchTitlesFailsOnlyWithoutTitles(grand: seq<RawTitle>, prime: seq<RawTitle>, taj: seq<RawTitle>, score: Scorer)
    requires DistinctWithinLists(grand, prime, taj)
    ensures MatchTitles(grand, prime, taj, score).Failure? <==> |grand| == 0 && |prime| == 0 && |taj| == 0
  {
    var g, p, t := HandleRawTitles(grand), HandleRawTitles(prime), HandleRawTitles(taj);
    if NonEmptyCount(g, p, t) > 0 {
      PerfectMatchKeysDistinct(g, p, t);
      DistinctTitlesNeverAmbiguous(JoinTables(g, p, t).value, score);
    }
  }

  /** Keying commutes with picking a cinema's list. */
  lemma KeyedListFor(s: Source, grand: seq<RawTitle>, prime: seq<RawTitle>, taj: seq<RawTitle>)
    ensures ListFor(s, HandleRawTitles(grand), HandleRawTitles(prime), HandleRawTitles(taj))
      == HandleRawTitles(ListFor(s, grand, prime, taj))
  {
  }

  /** The exact match keeps every listing's id. */
  lemma PerfectMatchKeepsIds(grand: seq<RawTitle>, prime: seq<RawTitle>, taj: seq<RawTitle>, s: Source, j: nat)
    requires DistinctWithinLists(grand, prime, taj)
    requires j < |ListFor(s, grand, prime, taj)|
    ensures var r := HandlePerfectMatch(grand, prime, taj);
      r.Success? && exists k :: 0 <= k < |r.value| && r.value[k].Id(s) == ListFor(s, grand, prime, taj)[j].id
  {
    var g, p, t := HandleRawTitles(grand), HandleRawTitles(prime), HandleRawTitles(taj);
    KeyedListFor(s, grand, prime, taj);
    assert ListFor(s, g, p, t)[j].id == ListFor(s, grand, prime, taj)[j].id;
    PerfectMatchComplete(g, p, t, s, j);
  }

  /** Every id of the exact match is a listing's id. */
  lemma PerfectMatchInventsNoIds(grand: seq<RawTitle>, prime: seq<RawTitle>, taj: seq<RawTitle>, k: nat, s: Source)
    requires JoinableLists(grand, prime, taj)
    requires HandlePerfectMatch(grand, prime, taj).Success?
    requires k < |HandlePerfectMatch(grand, prime, taj).value|
    requires HandlePerfectMatch(grand, prime, taj).value[k].HasId(s)
    ensures var row := HandlePerfectMatch(grand, prime, taj).value[k];
      exists j :: 0 <= j < |ListFor(s, grand, prime, taj)| && ListFor(s, grand, prime, taj)[j].id == row.Id(s)
  {
    var g, p, t := HandleRawTitles(grand), HandleRawTitles(prime), HandleRawTitles(taj);
    var row := HandlePerfectMatch(grand, prime, taj).value[k];
    PerfectMatchIdsFromInput(g, p, t, k, s);
    KeyedListFor(s, grand, prime, taj);
    var j :| 0 <= j < |ListFor(s, g, p, t)| && ListFor(s, g, p, t)[j].id == row.Id(s);
    assert ListFor(s, grand, prime, taj)[j].id == row.Id(s);
  }

  /** No listing's id is lost: a listing with a non-empty id of cinema `s`
      ends up, under `s`, in some row of the result. */
  lemma MatchTitlesKeepsIds(grand: seq<RawTitle>, prime: seq<RawTitle>, taj: seq<RawTitle>, score: Scorer, s: Source, j: nat)
    requires DistinctWithinLists(grand, prime, taj)
    requires j < |ListFor(s, grand, prime, taj)| && ListFor(s, grand, prime, taj)[j].id != ""
    ensures var r := MatchTitles(grand, prime, taj, score);
      r.Success? && exists i :: 0 <= i < |r.value| && r.value[i].Id(s) == ListFor(s, grand, prime, taj)[j].id
  {
    var id := ListFor(s, grand, prime, taj)[j].id;
    PerfectMatchKeepsIds(grand, prime, taj, s, j);
    var perfect := HandlePerfectMatch(grand, prime, taj).value;
    var k :| 0 <= k < |perfect| && perfect[k].Id(s) == id;
    MatchTitlesComposes(grand, prime, taj, score);
    assert !(|grand| == 0 && |prime| == 0 && |taj| == 0) by {
      assert |ListFor(s, grand, prime, taj)| > 0;
    }
    MatchTitlesFailsOnlyWithoutTitles(grand, prime, taj, score);
    HandleFuzzyMatchKeepsIds(perfect, score);
    assert perfect[k].HasId(s);
  }

  /** Matching is the fuzzy pass over the rows of a successful exact match. */
  lemma MatchTitlesComposes(grand: seq<RawTitle>, prime: seq<RawTitle>, taj: seq<RawTitle>, score: Scorer)
    requires JoinableLists(grand, prime, taj)
    ensures var perfect := HandlePerfectMatch(grand, prime, taj);
      perfect.Success? ==> MatchTitles(grand, prime, taj, score) == HandleFuzzyMatch(perfect.value, score)
  {
  }

  /** No id is invented: every id in the result is the id, for the same
      cinema, of one of that cinema's listings. */
  lemma MatchTitlesInventsNoIds(grand: seq<RawTitle>, prime: seq<RawTitle>, taj: seq<RawTitle>, score: Scorer, i: nat, s: Source)
    requires JoinableLists(grand, prime, taj)
    requires MatchTitles(grand, prime, taj, score).Success?
    requires i < |MatchTitles(grand, prime, taj, score).value|
    requires MatchTitles(grand, prime, taj, score).value[i].HasId(s)
    ensures var row := MatchTitles(grand, prime, taj, score).value[i];
      exists j :: 0 <= j < |ListFor(s, grand, prime, taj)| && ListFor(s, grand, prime, taj)[j].id == row.Id(s)
  {
    var perfect := HandlePerfectMatch(grand, prime, taj).value;
    MatchTitlesComposes(grand, prime, taj, score);
    var row := MatchTitles(grand, prime, taj, score).value[i];
    HandleFuzzyMatchKeepsIds(perfect, score);
    var k :| 0 <= k < |perfect| && perfect[k].Id(s) == row.Id(s);
    PerfectMatchInventsNoIds(grand, prime, taj, k, s);
  }

  /** Matching never returns more rows than there were listings. */
  lemma MatchTitlesNoMoreRowsThanListings(grand: seq<RawTitle>, prime: seq<RawTitle>, taj: seq<RawTitle>, score: Scorer)
    requires JoinableLists(grand, prime, taj)
    requires MatchTitles(grand, prime, taj, score).Success?
    ensures |MatchTitles(grand, prime, taj, score).value| <= |grand| + |prime| + |taj|
  {
    var g, p, t := HandleRawTitles(grand), HandleRawTitles(prime), HandleRawTitles(taj);
    var perfect := JoinTables(g, p, t).value;
    HandleFuzzyMatchKeepsIds(perfect, score);
    PerfectMatchRowCount(g, p, t);
  }

  /** When no two rows of the exact match have titles similar enough, the
      fuzzy pass merges
      nothing: in every order the sort may visit the exact match's rows,
      matching returns those rows in that order, each unchanged. The
      model's own visiting order returns the exact match as it is. */
  lemma MatchTitlesWithoutSimilarTitles(grand: seq<RawTitle>, prime: seq<RawTitle>, taj: seq<RawTitle>, score: Scorer)
    requires JoinableLists(grand, prime, taj)
    requires var p := HandlePerfectMatch(grand, prime, taj);
      p.Success? ==> forall i, j :: 0 <= i < |p.value| && 0 <= j < |p.value| && i != j ==>
        score(p.value[i].normalizedTitle, p.value[j].normalizedTitle) <= Threshold
    ensures var p := HandlePerfectMatch(grand, prime, taj);
      p.Success? ==> forall order :: ListsEachOnce(order, |p.value|) ==>
        var c := FuzzyMatchTitles(p.value, score);
        && c.Success?
        && AllowedOrder(c.value, order)
        && var out := FuzzyPass(p.value, c.value, order).rows;
        && |out| == |p.value|
        && forall k :: 0 <= k < |out| ==> out[k] == p.value[order[k]]
    ensures MatchTitles(grand, prime, taj, score) == HandlePerfectMatch(grand, prime, taj)
  {
    var p := HandlePerfectMatch(grand, prime, taj);
    if p.Success? {
      NoCandidatesEveryOrder(p.value, score);
    }
  }
}
