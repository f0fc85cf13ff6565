/** The records of the title-matching engine (`TitleMatchService`): a raw
    listing from one cinema, the canonical row with one id/title pair per
    cinema, title normalisation, and the two-row merge rule of the fuzzy
    pass. */
module Titles {
  import opened Text
  import Util

  /** The three cinemas, in the argument order of `match_titles`. */
  datatype Source = Grand | Prime | Taj

  /** One cinema's listing of one film: `{"title": ..., "<source>_id": ...}`. */
  datatype RawTitle = RawTitle(title: string, id: string)

  /** A row of the matcher's output. "" stands for "this cinema has no
      listing here"; `title` is the display title chosen by a fuzzy merge. */
  datatype CanonicalTitle = CanonicalTitle(
    titleGrand: string,
    grandId: string,
    normalizedTitle: string,
    titlePrime: string,
    primeId: string,
    titleTaj: string,
    tajId: string,
    title: string)
  {
    /** The `<source>_id` field. */
    function Id(s: Source): string {
      match s
      case Grand => grandId
      case Prime => primeId
      case Taj => tajId
    }

    /** The `title_<source>` field. */
    function SourceTitle(s: Source): string {
      match s
      case Grand => titleGrand
      case Prime => titlePrime
      case Taj => titleTaj
    }

    predicate HasId(s: Source) {
      Id(s) != ""
    }
  }

  /** `normalize_title`: `title.lower().strip()`. */
  function Normalize(title: string): (r: string)
    ensures NoOuterSpace(r)
    ensures |r| <= |title|
  {
    Strip(Lower(title))
  }

  /** A normalised title has no upper-case ASCII letter. */
  lemma NormalizeIsLowerCase(title: string)
    ensures forall k :: 0 <= k < |Normalize(title)| ==> !('A' <= Normalize(title)[k] <= 'Z')
  {
    forall k | 0 <= k < |Normalize(title)|
      ensures !('A' <= Normalize(title)[k] <= 'Z')
    {
      NormalizedCharIsLowered(title, k);
    }
  }

  lemma NormalizedCharIsLowered(title: string, k: nat)
    requires k < |Normalize(title)|
    ensures !('A' <= Normalize(title)[k] <= 'Z')
  {
    var lowered := Lower(title);
    StripIsSlice(lowered);
    var i := |lowered| - |TrimLeft(lowered)|;
    assert Normalize(title)[k] == lowered[i + k];
    LowerCharNotUpper(title[i + k]);
  }

  lemma LowerCharNotUpper(c: char)
    ensures !('A' <= LowerChar(c) <= 'Z')
  {
  }

  /** Normalising twice is normalising once. */
  lemma NormalizeIdempotent(title: string)
    ensures Normalize(Normalize(title)) == Normalize(title)
  {
    var n := Normalize(title);
    NormalizeIsLowerCase(title);
    assert Lower(n) == n;
    StripFixesTrimmed(n);
  }

  /** A row of the per-cinema table built by `handle_raw_titles`: the
      listing with its `normalized_title` column added. */
  datatype KeyedTitle = KeyedTitle(title: string, id: string, normalizedTitle: string)

  /** `handle_raw_titles`: adds the normalised title to every listing. */
  function HandleRawTitles(list: seq<RawTitle>): (r: seq<KeyedTitle>)
    ensures |r| == |list|
    ensures forall i :: 0 <= i < |list| ==>
      r[i].title == list[i].title && r[i].id == list[i].id && r[i].normalizedTitle == Normalize(list[i].title)
  {
    if |list| == 0 then []
    else [KeyedTitle(list[0].title, list[0].id, Normalize(list[0].title))] + HandleRawTitles(list[1..])
  }

  /** How many of the three ids are non-empty. */
  function IdCount(t: CanonicalTitle): (r: nat)
    ensures r <= 3
  {
    (if t.HasId(Grand) then 1 else 0)
    + (if t.HasId(Prime) then 1 else 0)
    + (if t.HasId(Taj) then 1 else 0)
  }

  /** `should_merge_fuzzy_match_titles`: two rows may be merged unless some
      cinema has an id on both. */
  function ShouldMerge(a: CanonicalTitle, b: CanonicalTitle): (r: bool)
    ensures r <==> forall s: Source :: !(a.HasId(s) && b.HasId(s))
  {
    !((a.HasId(Prime) && b.HasId(Prime))
      || (a.HasId(Grand) && b.HasId(Grand))
      || (a.HasId(Taj) && b.HasId(Taj)))
  }

  /** Whether `a` supplies `title` and `normalized_title` in a merge: it has
      strictly more ids, or as many and a non-empty Prime title. */
  predicate FirstWins(a: CanonicalTitle, b: CanonicalTitle) {
    IdCount(a) > IdCount(b) || (IdCount(a) == IdCount(b) && a.titlePrime != "")
  }

  /** `merge_fuzzy_match_titles`. */
  function MergeFuzzy(a: CanonicalTitle, b: CanonicalTitle): (r: CanonicalTitle)
    ensures IdCount(a) > IdCount(b) ==> r.title == a.title && r.normalizedTitle == a.normalizedTitle
    ensures IdCount(b) > IdCount(a) ==> r.title == b.title && r.normalizedTitle == b.normalizedTitle
    ensures IdCount(a) == IdCount(b) && a.titlePrime != "" ==>
      r.title == a.title && r.normalizedTitle == a.normalizedTitle
    ensures IdCount(a) == IdCount(b) && a.titlePrime == "" ==>
      r.title == b.title && r.normalizedTitle == b.normalizedTitle
    ensures forall s: Source :: r.Id(s) == (if a.Id(s) != "" then a.Id(s) else b.Id(s))
    ensures forall s: Source ::
      r.SourceTitle(s) == (if a.SourceTitle(s) != "" then a.SourceTitle(s) else b.SourceTitle(s))
  {
    var winner := if FirstWins(a, b) then a else b;
    CanonicalTitle(
      titleGrand := FirstOf(a.titleGrand, b.titleGrand),
      grandId := FirstOf(a.grandId, b.grandId),
      normalizedTitle := winner.normalizedTitle,
      titlePrime := FirstOf(a.titlePrime, b.titlePrime),
      primeId := FirstOf(a.primeId, b.primeId),
      titleTaj := FirstOf(a.titleTaj, b.titleTaj),
      tajId := FirstOf(a.tajId, b.tajId),
      title := winner.title)
  }

  /** `get_first_non_empty(x, y)` as the merge calls it. */
  function FirstOf(x: string, y: string): (r: string)
    ensures r == if x != "" then x else y
  {
    Util.FirstNonEmptyPrefersFirst(x, y);
    Util.FirstNonEmpty([x, y])
  }

  /** A merge never drops an id: every cinema with an id on either side has
      one in the result, and when the merge is allowed the result has
      exactly the ids of both sides. */
  lemma MergeKeepsIds(a: CanonicalTitle, b: CanonicalTitle)
    ensures forall s: Source :: a.HasId(s) || b.HasId(s) ==> MergeFuzzy(a, b).HasId(s)
    ensures ShouldMerge(a, b) ==> IdCount(MergeFuzzy(a, b)) == IdCount(a) + IdCount(b)
    ensures ShouldMerge(a, b) ==> forall s: Source ::
      (b.HasId(s) ==> MergeFuzzy(a, b).Id(s) == b.Id(s))
  {
  }
}

/** A title from the matcher's tests, normalised as the code normalises it. */
module TitleExamples {
  import opened Text
  import opened Titles

  lemma NormalizeExample()
    ensures Normalize("   The Matrix ") == "the matrix"
  {
    LowerExample();
    StripExample();
  }

  lemma LowerExample()
    ensures Lower("   The Matrix ") == "   the matrix "
  {
    var s, t := "   The Matrix ", "   the matrix ";
    assert LowerChar(s[3]) == t[3] && LowerChar(s[7]) == t[7];
    forall k | 0 <= k < |s| && k != 3 && k != 7
      ensures LowerChar(s[k]) == t[k]
    {
      assert s[k] == t[k] && !('A' <= s[k] <= 'Z');
    }
    LowerPointwise(s, t);
  }

  lemma StripExample()
    ensures Strip("   the matrix ") == "the matrix"
  {
    assert "   the matrix " == "   " + "the matrix" + " ";
    assert NoOuterSpace("the matrix") by {
      assert "the matrix"[0] == 't' && "the matrix"[9] == 'x';
    }
    StripPadded("   ", "the matrix", " ");
  }
}
