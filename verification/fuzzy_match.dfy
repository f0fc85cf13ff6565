/** `fuzzy_match_titles` and `handle_fuzzy_match_titles`: the second pass
    of the title matcher, which folds together rows whose normalised titles
    are similar and whose cinemas do not clash.

    The similarity scorer is a parameter: the source calls fuzzywuzzy's
    `process.extract` with `fuzz.ratio` (after fuzzywuzzy's default string
    preprocessing), and any function from two titles to an integer can
    stand in for it here. */
module FuzzyMatch {
  import opened Wrappers
  import opened Titles
  import opened Sorting
  import Util

  /** A pair is a candidate when its score is strictly above this. */
  const Threshold := 70

  /** The `ValueError` raised by `.item()` when the lookup of a matched title
      among the other rows finds more than one row. */
  const AmbiguousMatchError := "can only convert an array of size 1 to a Python scalar"

  /** `scorer(query, choice)`. */
  type Scorer = (string, string) -> int

  // ---------------------------------------------------------------------
  // fuzzy_match_titles

  /** Row `j` is a candidate for row `i`. */
  predicate IsMatch(rows: seq<CanonicalTitle>, score: Scorer, i: nat, j: nat)
    requires i < |rows| && j < |rows|
  {
    j != i && score(rows[i].normalizedTitle, rows[j].normalizedTitle) > Threshold
  }

  /** The candidates for row `i` among rows `from`.., in index order. */
  function Matching(rows: seq<CanonicalTitle>, score: Scorer, i: nat, from: nat): (r: seq<nat>)
    requires i < |rows| && from <= |rows|
    ensures forall x: nat :: x in r <==> from <= x < |rows| && IsMatch(rows, score, i, x)
    ensures NoDuplicates(r)
    ensures Increasing(r)
    decreases |rows| - from
  {
    if from == |rows| then []
    else
      var rest := Matching(rows, score, i, from + 1);
      if IsMatch(rows, score, i, from) then
        NoDuplicatesConcat([from], rest);
        forall q | 0 <= q < |rest|
          ensures from < rest[q]
        {
          assert rest[q] in rest;
        }
        [from] + rest
      else rest
  }

  /** The score of row `j` against row `i`, the sort key of row `i`'s
      candidate list. */
  function ScoreAgainst(rows: seq<CanonicalTitle>, score: Scorer, i: nat): nat -> int
    requires i < |rows|
  {
    var query := rows[i].normalizedTitle;
    (j: nat) => if j < |rows| then score(query, rows[j].normalizedTitle) else 0
  }

  /** Row `i`'s `fuzzy_matches`: every other row scoring above the
      threshold, best score first (`process.extract(..., limit=None)` sorts
      stably by descending score). */
  function Candidates(rows: seq<CanonicalTitle>, score: Scorer, i: nat): (r: seq<nat>)
    requires i < |rows|
    ensures forall x: nat :: x in r <==> x < |rows| && IsMatch(rows, score, i, x)
    ensures NoDuplicates(r)
    ensures SortedDesc(r, ScoreAgainst(rows, score, i))
    ensures TiesInIndexOrder(r, ScoreAgainst(rows, score, i))
  {
    var good := Matching(rows, score, i, 0);
    var r := SortDesc(good, ScoreAgainst(rows, score, i));
    SortDescSameElements(good, ScoreAgainst(rows, score, i));
    SortDescStable(good, ScoreAgainst(rows, score, i));
    NoDuplicatesPermutation(r, good);
    r
  }

  /** The lookup of a candidate's title raises: some candidate `j` of row
      `i` shares its normalised title with a third row `k`, so the
      other rows holding that title are not exactly one. */
  predicate Ambiguous(rows: seq<CanonicalTitle>, score: Scorer, i: nat)
    requires i < |rows|
  {
    exists j, k :: 0 <= j < |rows| && 0 <= k < |rows| && IsMatch(rows, score, i, j)
      && k != i && k != j && rows[k].normalizedTitle == rows[j].normalizedTitle
  }

  /** Candidate lists that index into `rows`, one per row. */
  predicate ValidCandidates(rows: seq<CanonicalTitle>, cands: seq<seq<nat>>) {
    |cands| == |rows| && forall i, k :: 0 <= i < |cands| && 0 <= k < |cands[i]| ==> cands[i][k] < |rows|
  }

  /** `fuzzy_match_titles(titles)`: every row's candidate list, or the
      error of the first ambiguous lookup. */
  function FuzzyMatchTitles(rows: seq<CanonicalTitle>, score: Scorer): (r: Result<seq<seq<nat>>, string>)
    ensures r.Failure? <==> exists i :: 0 <= i < |rows| && Ambiguous(rows, score, i)
    ensures r.Failure? ==> r.error == AmbiguousMatchError
    ensures r.Success? ==> ValidCandidates(rows, r.value)
    ensures r.Success? ==> forall i, x: nat :: 0 <= i < |rows| ==>
      (x in r.value[i] <==> x < |rows| && IsMatch(rows, score, i, x))
    ensures r.Success? ==> forall i :: 0 <= i < |rows| ==>
      NoDuplicates(r.value[i]) && SortedDesc(r.value[i], ScoreAgainst(rows, score, i))
  {
    if exists i :: 0 <= i < |rows| && Ambiguous(rows, score, i) then
      Failure(AmbiguousMatchError)
    else
      var cands := seq(|rows|, i requires 0 <= i < |rows| => Candidates(rows, score, i));
      assert forall i, k :: 0 <= i < |cands| && 0 <= k < |cands[i]| ==> cands[i][k] in cands[i];
      Success(cands)
  }

  /** Rows with pairwise different normalised titles never make a lookup
      ambiguous. */
  lemma DistinctTitlesNeverAmbiguous(rows: seq<CanonicalTitle>, score: Scorer)
    requires forall i, j :: 0 <= i < j < |rows| ==> rows[i].normalizedTitle != rows[j].normalizedTitle
    ensures FuzzyMatchTitles(rows, score).Success?
  {
    forall i | 0 <= i < |rows|
      ensures !Ambiguous(rows, score, i)
    {
      forall j, k | 0 <= j < |rows| && 0 <= k < |rows| && k != j
        ensures rows[k].normalizedTitle != rows[j].normalizedTitle
      {
        if j < k {
          assert rows[j].normalizedTitle != rows[k].normalizedTitle;
        }
      }
    }
  }

  // ---------------------------------------------------------------------
  // handle_fuzzy_match_titles

  /** The `match_count` column, the key of the visiting order. */
  function MatchCount(cands: seq<seq<nat>>): nat -> int {
    (j: nat) => if j < |cands| then |cands[j]| else 0
  }

  /** `order` lists each of the rows `0..n-1` exactly once. */
  predicate ListsEachOnce(order: seq<nat>, n: nat) {
    && |order| == n
    && (forall k :: 0 <= k < |order| ==> order[k] < n)
    && (forall x: nat :: x < n ==> x in order)
    && NoDuplicates(order)
  }

  /** The visiting orders `sort_values(by="match_count", ascending=False)`
      may produce: every row once, rows with more candidates first, and rows
      with equally many candidates in any order, since pandas' default
      quicksort is not stable. */
  predicate AllowedOrder(cands: seq<seq<nat>>, order: seq<nat>) {
    ListsEachOnce(order, |cands|) && SortedDesc(order, MatchCount(cands))
  }

  /** The order in which the model visits rows: most candidates first, and
      equal counts in index order. This is one of the allowed orders; the
      results below that speak of `FuzzyPass` hold for every order that
      lists every row. */
  function VisitOrder(cands: seq<seq<nat>>): (r: seq<nat>)
    ensures |r| == |cands|
    ensures forall k :: 0 <= k < |r| ==> r[k] < |cands|
    ensures forall x: nat :: x in r <==> x < |cands|
    ensures NoDuplicates(r)
    ensures SortedDesc(r, MatchCount(cands))
    ensures AllowedOrder(cands, r)
  {
    SortedRange(|cands|, MatchCount(cands));
    SortDesc(Range(|cands|), MatchCount(cands))
  }

  /** Sorting the indices `0..n-1` lists each of them once. */
  lemma SortedRange(n: nat, key: nat -> int)
    ensures var r := SortDesc(Range(n), key);
      |r| == n && (forall k :: 0 <= k < |r| ==> r[k] < n)
      && (forall x: nat :: x in r <==> x < n) && NoDuplicates(r)
  {
    var all := Range(n);
    var r := SortDesc(all, key);
    SortDescSameElements(all, key);
    assert NoDuplicates(all);
    NoDuplicatesPermutation(r, all);
    assert forall k :: 0 <= k < |r| ==> r[k] in r;
    forall x: nat
      ensures x in r <==> x < n
    {
      if 0 <= x < n {
        assert all[x] == x;
      }
    }
  }

  /** A row folded together with the candidates it absorbed, and the
      updated `processed_indices`. */
  datatype Absorbed = Absorbed(merged: CanonicalTitle, members: seq<nat>, processed: set<nat>)

  /** The inner loop over one row's candidates: each candidate not yet
      processed and without a clashing cinema is merged into the row
      accumulated so far and marked processed. */
  function Absorb(rows: seq<CanonicalTitle>, current: CanonicalTitle, matches: seq<nat>, processed: set<nat>)
    : (r: Absorbed)
    requires forall k :: 0 <= k < |matches| ==> matches[k] < |rows|
    ensures r.processed == processed + set m: nat | m in r.members
    ensures forall m :: m in r.members ==> m in matches && m !in processed
    ensures NoDuplicates(r.members)
    decreases |matches|
  {
    if |matches| == 0 then Absorbed(current, [], processed)
    else
      var m := matches[0];
      if m !in processed && ShouldMerge(current, rows[m]) then
        var rest := Absorb(rows, MergeFuzzy(current, rows[m]), matches[1..], processed + {m});
        NoDuplicatesConcat([m], rest.members);
        Absorbed(rest.merged, [m] + rest.members, rest.processed)
      else
        Absorb(rows, current, matches[1..], processed)
  }

  /** The output rows, and for each the input rows it was built from, in
      merge order. */
  datatype FuzzyResult = FuzzyResult(rows: seq<CanonicalTitle>, groups: seq<seq<nat>>)

  /** The outer loop from visiting position onwards. */
  function Walk(rows: seq<CanonicalTitle>, cands: seq<seq<nat>>, order: seq<nat>, processed: set<nat>, done: FuzzyResult)
    : (r: FuzzyResult)
    requires ValidCandidates(rows, cands)
    requires forall k :: 0 <= k < |order| ==> order[k] < |rows|
    ensures |r.rows| - |done.rows| == |r.groups| - |done.groups|
    decreases |order|
  {
    if |order| == 0 then done
    else
      var idx := order[0];
      if idx in processed then
        Walk(rows, cands, order[1..], processed, done)
      else
        var a := Absorb(rows, rows[idx], cands[idx], processed + {idx});
        var next := FuzzyResult(done.rows + [a.merged], done.groups + [[idx] + a.members]);
        Walk(rows, cands, order[1..], a.processed, next)
  }

  /** The pass over the rows in a given visiting order. */
  function FuzzyPass(rows: seq<CanonicalTitle>, cands: seq<seq<nat>>, order: seq<nat>): (r: FuzzyResult)
    requires ValidCandidates(rows, cands)
    requires forall k :: 0 <= k < |order| ==> order[k] < |rows|
    ensures |r.rows| == |r.groups|
  {
    Walk(rows, cands, order, {}, FuzzyResult([], []))
  }

  /** `handle_fuzzy_match_titles(titles)`. */
  function HandleFuzzyMatch(rows: seq<CanonicalTitle>, score: Scorer): (r: Result<seq<CanonicalTitle>, string>)
    ensures r.Failure? <==> exists i :: 0 <= i < |rows| && Ambiguous(rows, score, i)
    ensures r.Failure? ==> r.error == AmbiguousMatchError
  {
    match FuzzyMatchTitles(rows, score)
    case Failure(e) => Failure(e)
    case Success(cands) => Success(FuzzyPass(rows, cands, VisitOrder(cands)).rows)
  }

  // ---------------------------------------------------------------------
  // What the pass preserves

  /** One cell of a row: a cinema's id or a cinema's title. */
  datatype Field = IdOf(source: Source) | TitleOf(source: Source)

  function Get(t: CanonicalTitle, f: Field): string {
    match f
    case IdOf(s) => t.Id(s)
    case TitleOf(s) => t.SourceTitle(s)
  }

  predicate InRange(rows: seq<CanonicalTitle>, g: seq<nat>) {
    forall k :: 0 <= k < |g| ==> g[k] < |rows|
  }

  /** The cells of one field across the input rows `g`, in order. */
  function Column(rows: seq<CanonicalTitle>, g: seq<nat>, f: Field): (r: seq<string>)
    requires InRange(rows, g)
    ensures |r| == |g|
    ensures forall k :: 0 <= k < |g| ==> r[k] == Get(rows[g[k]], f)
  {
    if |g| == 0 then [] else Column(rows, g[..|g| - 1], f) + [Get(rows[g[|g| - 1]], f)]
  }

  /** Output row `o` was built by merging the input rows `g` in that order:
      no cinema has an id on two of them, each cell is the first non-empty
      one among them (so each id is the one member's id for that cinema),
      and `title` and `normalized_title` are those of one member. */
  ghost predicate GroupOk(rows: seq<CanonicalTitle>, o: CanonicalTitle, g: seq<nat>) {
    && |g| > 0
    && InRange(rows, g)
    && NoDuplicates(g)
    && (forall s: Source, a, b :: 0 <= a < b < |g| ==> !(rows[g[a]].HasId(s) && rows[g[b]].HasId(s)))
    && (forall f: Field :: Get(o, f) == Util.FirstNonEmpty(Column(rows, g, f)))
    && (exists k :: 0 <= k < |g| && o.title == rows[g[k]].title && o.normalizedTitle == rows[g[k]].normalizedTitle)
  }

  lemma MergeField(a: CanonicalTitle, b: CanonicalTitle, f: Field)
    ensures Get(MergeFuzzy(a, b), f) == if Get(a, f) != "" then Get(a, f) else Get(b, f)
  {
  }

  lemma ColumnAppend(rows: seq<CanonicalTitle>, g: seq<nat>, m: nat, f: Field)
    requires InRange(rows, g) && m < |rows|
    ensures InRange(rows, g + [m])
    ensures Column(rows, g + [m], f) == Column(rows, g, f) + [Get(rows[m], f)]
  {
    assert (g + [m])[..|g|] == g;
  }

  /** A row nobody was merged into is its own group. */
  lemma SingletonGroup(rows: seq<CanonicalTitle>, i: nat)
    requires i < |rows|
    ensures GroupOk(rows, rows[i], [i])
  {
    forall f: Field
      ensures Get(rows[i], f) == Util.FirstNonEmpty(Column(rows, [i], f))
    {
      ColumnAppend(rows, [], i, f);
      assert [] + [i] == [i];
      Util.FirstNonEmptyAppend([], Get(rows[i], f));
    }
    assert [i][0] == i;
  }

  /** Merging a row without a clashing cinema into a group's row gives the
      row of the extended group. */
  lemma MergeKeepsGroup(rows: seq<CanonicalTitle>, cur: CanonicalTitle, g: seq<nat>, m: nat)
    requires GroupOk(rows, cur, g)
    requires m < |rows| && m !in g && ShouldMerge(cur, rows[m])
    ensures GroupOk(rows, MergeFuzzy(cur, rows[m]), g + [m])
  {
    var g' := g + [m];
    var o := MergeFuzzy(cur, rows[m]);
    forall f: Field
      ensures Get(o, f) == Util.FirstNonEmpty(Column(rows, g', f))
    {
      ColumnAppend(rows, g, m, f);
      Util.FirstNonEmptyAppend(Column(rows, g, f), Get(rows[m], f));
      MergeField(cur, rows[m], f);
    }
    forall s: Source, a, b | 0 <= a < b < |g'|
      ensures !(rows[g'[a]].HasId(s) && rows[g'[b]].HasId(s))
    {
      assert g'[a] == g[a];
      if b == |g| {
        if rows[m].HasId(s) {
          assert Get(cur, IdOf(s)) == "";
          assert Column(rows, g, IdOf(s))[a] == rows[g[a]].Id(s);
        }
      } else {
        assert g'[b] == g[b];
      }
    }
    NoDuplicatesConcat(g, [m]);
    if FirstWins(cur, rows[m]) {
      var k :| 0 <= k < |g| && cur.title == rows[g[k]].title && cur.normalizedTitle == rows[g[k]].normalizedTitle;
      assert g'[k] == g[k];
    } else {
      assert g'[|g|] == m;
    }
  }

  /** The inner loop turns a group's row into the row of the group extended
      by the absorbed candidates. */
  lemma {:induction false} AbsorbKeepsGroup(rows: seq<CanonicalTitle>, current: CanonicalTitle, g: seq<nat>,
                                            matches: seq<nat>, processed: set<nat>)
    requires GroupOk(rows, current, g)
    requires forall x :: x in g ==> x in processed
    requires InRange(rows, matches)
    ensures var a := Absorb(rows, current, matches, processed);
      GroupOk(rows, a.merged, g + a.members)
    decreases |matches|
  {
    if |matches| == 0 {
      assert g + [] == g;
    } else {
      var m := matches[0];
      var a := Absorb(rows, current, matches, processed);
      if m !in processed && ShouldMerge(current, rows[m]) {
        MergeKeepsGroup(rows, current, g, m);
        var next := MergeFuzzy(current, rows[m]);
        AbsorbKeepsGroup(rows, next, g + [m], matches[1..], processed + {m});
        var rest := Absorb(rows, next, matches[1..], processed + {m});
        AbsorbMerges(rows, current, matches, processed);
        AppendRegroup(g, m, rest.members, a.members);
      } else {
        AbsorbKeepsGroup(rows, current, g, matches[1..], processed);
      }
    }
  }

  lemma AppendRegroup(g: seq<nat>, m: nat, rest: seq<nat>, members: seq<nat>)
    requires members == [m] + rest
    ensures g + members == (g + [m]) + rest
  {
  }

  /** One step of the inner loop that merges its candidate. */
  lemma AbsorbMerges(rows: seq<CanonicalTitle>, current: CanonicalTitle, matches: seq<nat>, processed: set<nat>)
    requires InRange(rows, matches) && |matches| > 0
    requires matches[0] !in processed && ShouldMerge(current, rows[matches[0]])
    ensures var m := matches[0];
      var a := Absorb(rows, current, matches, processed);
      var rest := Absorb(rows, MergeFuzzy(current, rows[m]), matches[1..], processed + {m});
      a.merged == rest.merged && a.members == [m] + rest.members
  {
  }

  /** All groups one after the other. */
  function Flatten(groups: seq<seq<nat>>): (r: seq<nat>)
    ensures forall i, x :: 0 <= i < |groups| && x in groups[i] ==> x in r
  {
    if |groups| == 0 then []
    else
      var init := groups[..|groups| - 1];
      var r := Flatten(init) + groups[|groups| - 1];
      assert forall i :: 0 <= i < |groups| - 1 ==> groups[i] == init[i];
      r
  }

  lemma FlattenAppend(groups: seq<seq<nat>>, g: seq<nat>)
    ensures Flatten(groups + [g]) == Flatten(groups) + g
  {
    assert (groups + [g])[..|groups|] == groups;
  }

  /** Every element of the flattened groups lies in some group. */
  lemma {:induction false} FlattenMember(groups: seq<seq<nat>>, x: nat)
    requires x in Flatten(groups)
    ensures exists i :: 0 <= i < |groups| && x in groups[i]
  {
    var init := groups[..|groups| - 1];
    if x !in groups[|groups| - 1] {
      FlattenMember(init, x);
      var i :| 0 <= i < |init| && x in init[i];
      assert groups[i] == init[i];
    }
  }

  /** Non-empty groups are no more numerous than their elements. */
  lemma {:induction false} FlattenLength(groups: seq<seq<nat>>)
    requires forall i :: 0 <= i < |groups| ==> |groups[i]| > 0
    ensures |groups| <= |Flatten(groups)|
  {
    if |groups| > 0 {
      FlattenLength(groups[..|groups| - 1]);
    }
  }

  /** The pass so far: one group per output row, no input row in two
      groups, and every output row built from its group. */
  ghost predicate PassOk(rows: seq<CanonicalTitle>, r: FuzzyResult) {
    && |r.rows| == |r.groups|
    && NoDuplicates(Flatten(r.groups))
    && (forall i :: 0 <= i < |r.groups| ==> GroupOk(rows, r.rows[i], r.groups[i]))
  }

  /** The outer loop keeps `PassOk`, and when it ends every row that was
      processed before or visited since lies in some group. */
  lemma {:induction false} WalkKeepsPass(rows: seq<CanonicalTitle>, cands: seq<seq<nat>>, order: seq<nat>,
                                         processed: set<nat>, done: FuzzyResult)
    requires ValidCandidates(rows, cands)
    requires forall k :: 0 <= k < |order| ==> order[k] < |rows|
    requires PassOk(rows, done)
    requires forall x: nat :: x in Flatten(done.groups) <==> x in processed
    ensures var r := Walk(rows, cands, order, processed, done);
      && PassOk(rows, r)
      && (forall x: nat :: x in processed ==> x in Flatten(r.groups))
      && (forall k :: 0 <= k < |order| ==> order[k] in Flatten(r.groups))
    decreases |order|
  {
    if |order| > 0 {
      var idx := order[0];
      if idx in processed {
        WalkKeepsPass(rows, cands, order[1..], processed, done);
      } else {
        assert InRange(rows, cands[idx]);
        var a := Absorb(rows, rows[idx], cands[idx], processed + {idx});
        SingletonGroup(rows, idx);
        AbsorbKeepsGroup(rows, rows[idx], [idx], cands[idx], processed + {idx});
        var g := [idx] + a.members;
        var next := FuzzyResult(done.rows + [a.merged], done.groups + [g]);
        FlattenAppend(done.groups, g);
        forall y | y in g
          ensures y !in Flatten(done.groups)
        {
        }
        NoDuplicatesConcat(Flatten(done.groups), g);
        forall i | 0 <= i < |next.groups|
          ensures GroupOk(rows, next.rows[i], next.groups[i])
        {
          if i < |done.groups| {
            assert next.rows[i] == done.rows[i] && next.groups[i] == done.groups[i];
          }
        }
        WalkKeepsPass(rows, cands, order[1..], a.processed, next);
        assert idx in Flatten(next.groups);
      }
      var r := Walk(rows, cands, order, processed, done);
      forall k | 0 <= k < |order|
        ensures order[k] in Flatten(r.groups)
      {
        if k > 0 {
          assert order[k] == order[1..][k - 1];
        }
      }
    }
  }

  /** The elements of valid groups index into `rows`. */
  lemma {:induction false} FlattenInRange(rows: seq<CanonicalTitle>, groups: seq<seq<nat>>)
    requires forall i :: 0 <= i < |groups| ==> InRange(rows, groups[i])
    ensures forall x :: x in Flatten(groups) ==> x < |rows|
  {
    if |groups| > 0 {
      var init := groups[..|groups| - 1];
      FlattenInRange(rows, init);
      assert Flatten(groups) == Flatten(init) + groups[|groups| - 1];
    }
  }

  /** When the visiting order lists every row, the groups partition the
      rows: every input row is in exactly one group, so the pass returns at
      most as many rows as it was given. */
  lemma FuzzyPassPartition(rows: seq<CanonicalTitle>, cands: seq<seq<nat>>, order: seq<nat>)
    requires ValidCandidates(rows, cands)
    requires forall k :: 0 <= k < |order| ==> order[k] < |rows|
    requires forall x: nat :: x < |rows| ==> x in order
    ensures var r := FuzzyPass(rows, cands, order);
      && PassOk(rows, r)
      && (forall x: nat :: x in Flatten(r.groups) <==> x < |rows|)
      && |Flatten(r.groups)| == |rows|
      && |r.rows| <= |rows|
  {
    var r := FuzzyPass(rows, cands, order);
    assert Flatten([]) == [];
    WalkKeepsPass(rows, cands, order, {}, FuzzyResult([], []));
    forall x: nat | x < |rows|
      ensures x in Flatten(r.groups)
    {
      assert x in order;
      var k :| 0 <= k < |order| && order[k] == x;
    }
    FlattenInRange(rows, r.groups);
    PermutationLength(Flatten(r.groups), |rows|);
    FlattenLength(r.groups);
  }

  /** Within a group at most one member has an id for a cinema, so the
      first non-empty id is that member's. */
  lemma GroupIdIsMembers(rows: seq<CanonicalTitle>, o: CanonicalTitle, g: seq<nat>, p: nat, s: Source)
    requires GroupOk(rows, o, g)
    requires p < |g| && rows[g[p]].HasId(s)
    ensures o.Id(s) == rows[g[p]].Id(s)
  {
    var col := Column(rows, g, IdOf(s));
    assert Get(o, IdOf(s)) == Util.FirstNonEmpty(col);
    forall a, b | 0 <= a < b < |col|
      ensures !(col[a] != "" && col[b] != "")
    {
      assert !(rows[g[a]].HasId(s) && rows[g[b]].HasId(s));
    }
    OnlyNonEmpty(col, p);
  }

  /** When at most one value is non-empty, that value is the first
      non-empty one. */
  lemma OnlyNonEmpty(values: seq<string>, p: nat)
    requires p < |values| && values[p] != ""
    requires forall a, b :: 0 <= a < b < |values| ==> !(values[a] != "" && values[b] != "")
    ensures Util.FirstNonEmpty(values) == values[p]
  {
    assert Util.FirstNonEmpty(values) != "" by {
      assert values[p] != "";
    }
    var k :| 0 <= k < |values| && values[k] == Util.FirstNonEmpty(values)
      && forall j :: 0 <= j < k ==> values[j] == "";
    if k < p {
      assert false;
    }
  }

  /** No id is lost: every input row's id for a cinema is carried, under
      that cinema, by the output row of the group holding the input row. */
  lemma FuzzyPassKeepsIds(rows: seq<CanonicalTitle>, cands: seq<seq<nat>>, order: seq<nat>, j: nat, s: Source)
    requires ValidCandidates(rows, cands)
    requires forall k :: 0 <= k < |order| ==> order[k] < |rows|
    requires forall x: nat :: x < |rows| ==> x in order
    requires j < |rows| && rows[j].HasId(s)
    ensures var r := FuzzyPass(rows, cands, order);
      exists i :: 0 <= i < |r.rows| && j in r.groups[i] && r.rows[i].Id(s) == rows[j].Id(s)
  {
    var r := FuzzyPass(rows, cands, order);
    FuzzyPassPartition(rows, cands, order);
    FlattenMember(r.groups, j);
    var i :| 0 <= i < |r.groups| && j in r.groups[i];
    var p :| 0 <= p < |r.groups[i]| && r.groups[i][p] == j;
    GroupIdIsMembers(rows, r.rows[i], r.groups[i], p, s);
  }

  /** No id is invented: every id of an output row is the id, for the same
      cinema, of an input row in its group. */
  lemma FuzzyPassInventsNoIds(rows: seq<CanonicalTitle>, cands: seq<seq<nat>>, order: seq<nat>, i: nat, s: Source)
    requires ValidCandidates(rows, cands)
    requires forall k :: 0 <= k < |order| ==> order[k] < |rows|
    requires i < |FuzzyPass(rows, cands, order).rows|
    requires FuzzyPass(rows, cands, order).rows[i].HasId(s)
    ensures var r := FuzzyPass(rows, cands, order);
      exists j :: j in r.groups[i] && j < |rows| && rows[j].Id(s) == r.rows[i].Id(s)
  {
    var r := FuzzyPass(rows, cands, order);
    assert Flatten([]) == [];
    WalkKeepsPass(rows, cands, order, {}, FuzzyResult([], []));
    var g := r.groups[i];
    var col := Column(rows, g, IdOf(s));
    assert Get(r.rows[i], IdOf(s)) == Util.FirstNonEmpty(col);
    var k :| 0 <= k < |col| && col[k] == Util.FirstNonEmpty(col);
    assert g[k] in g;
  }

  /** With nothing to merge the inner loop returns the row unchanged. */
  lemma {:induction false} AbsorbNothing(rows: seq<CanonicalTitle>, current: CanonicalTitle, matches: seq<nat>,
                                         processed: set<nat>)
    requires InRange(rows, matches)
    requires forall k :: 0 <= k < |matches| ==> !ShouldMerge(current, rows[matches[k]])
    ensures Absorb(rows, current, matches, processed) == Absorbed(current, [], processed)
    decreases |matches|
  {
    if |matches| > 0 {
      AbsorbNothing(rows, current, matches[1..], processed);
    }
  }

  /** When no row may merge with any of its candidates, the outer loop
      emits the rows in visiting order, each unchanged. */
  lemma {:induction false} WalkNothingMergeable(rows: seq<CanonicalTitle>, cands: seq<seq<nat>>, order: seq<nat>,
                                                processed: set<nat>, done: FuzzyResult)
    requires ValidCandidates(rows, cands)
    requires forall k :: 0 <= k < |order| ==> order[k] < |rows|
    requires NoDuplicates(order)
    requires forall k :: 0 <= k < |order| ==> order[k] !in processed
    requires forall i, k :: 0 <= i < |rows| && 0 <= k < |cands[i]| ==> !ShouldMerge(rows[i], rows[cands[i][k]])
    ensures Walk(rows, cands, order, processed, done).rows
      == done.rows + seq(|order|, k requires 0 <= k < |order| => rows[order[k]])
    decreases |order|
  {
    if |order| == 0 {
      assert done.rows + [] == done.rows;
    } else {
      var idx := order[0];
      AbsorbNothing(rows, rows[idx], cands[idx], processed + {idx});
      var next := FuzzyResult(done.rows + [rows[idx]], done.groups + [[idx]]);
      assert [idx] + [] == [idx];
      assert forall k :: 0 <= k < |order[1..]| ==> order[1..][k] == order[k + 1];
      WalkNothingMergeable(rows, cands, order[1..], processed + {idx}, next);
      assert done.rows + seq(|order|, k requires 0 <= k < |order| => rows[order[k]])
        == next.rows + seq(|order[1..]|, k requires 0 <= k < |order[1..]| => rows[order[1..][k]]);
    }
  }

  /** Pass-through: when every candidate pair clashes on some cinema (or
      there are no candidates at all), the pass returns the input rows in
      visiting order. */
  lemma FuzzyPassNothingMergeable(rows: seq<CanonicalTitle>, cands: seq<seq<nat>>, order: seq<nat>)
    requires ValidCandidates(rows, cands)
    requires forall k :: 0 <= k < |order| ==> order[k] < |rows|
    requires NoDuplicates(order)
    requires forall i, k :: 0 <= i < |rows| && 0 <= k < |cands[i]| ==> !ShouldMerge(rows[i], rows[cands[i][k]])
    ensures FuzzyPass(rows, cands, order).rows == seq(|order|, k requires 0 <= k < |order| => rows[order[k]])
  {
    WalkNothingMergeable(rows, cands, order, {}, FuzzyResult([], []));
    assert [] + seq(|order|, k requires 0 <= k < |order| => rows[order[k]])
      == seq(|order|, k requires 0 <= k < |order| => rows[order[k]]);
  }

  // ---------------------------------------------------------------------
  // handle_fuzzy_match_titles as a whole

  /** A repetition-free list whose only member is `x` is `[x]`. */
  lemma OnlyMember(c: seq<nat>, x: nat)
    requires NoDuplicates(c)
    requires forall y: nat :: y in c <==> y == x
    ensures c == [x]
  {
    assert (set y: nat | y in c) == {x};
    NoDuplicatesCardinality(c);
    assert c[0] in c;
  }

  /** A list without members is empty. */
  lemma NoMembers(c: seq<nat>)
    requires NoDuplicates(c)
    requires forall y: nat :: y !in c
    ensures c == []
  {
    assert (set y: nat | y in c) == {};
    NoDuplicatesCardinality(c);
  }

  /** When no two rows score above the threshold no row has a candidate,
      so the sort may visit the rows in any order; in each such order the
      pass returns the rows in that order, each unchanged, a rearrangement
      of its input. The model's own visiting order gives the input back as
      it was. */
  lemma HandleFuzzyMatchNoCandidates(rows: seq<CanonicalTitle>, score: Scorer, order: seq<nat>)
    requires forall i, j :: 0 <= i < |rows| && 0 <= j < |rows| && i != j ==>
      score(rows[i].normalizedTitle, rows[j].normalizedTitle) <= Threshold
    requires ListsEachOnce(order, |rows|)
    ensures var c := FuzzyMatchTitles(rows, score);
      && c.Success?
      && (forall i :: 0 <= i < |rows| ==> c.value[i] == [])
      && AllowedOrder(c.value, order)
      && (var out := FuzzyPass(rows, c.value, order).rows;
          |out| == |rows| && forall k :: 0 <= k < |out| ==> out[k] == rows[order[k]])
    ensures HandleFuzzyMatch(rows, score) == Success(rows)
  {
    NoCandidatesAtAll(rows, score);
    var cands := FuzzyMatchTitles(rows, score).value;
    EmptyCandidatesAnyOrder(rows, cands, order);
    FuzzyPassNothingMergeable(rows, cands, order);
    EmptyCandidatesStable(rows, cands);
  }

  /** `HandleFuzzyMatchNoCandidates` for every order of the rows at once. */
  lemma NoCandidatesEveryOrder(rows: seq<CanonicalTitle>, score: Scorer)
    requires forall i, j :: 0 <= i < |rows| && 0 <= j < |rows| && i != j ==>
      score(rows[i].normalizedTitle, rows[j].normalizedTitle) <= Threshold
    ensures forall order :: ListsEachOnce(order, |rows|) ==>
      var c := FuzzyMatchTitles(rows, score);
      && c.Success?
      && AllowedOrder(c.value, order)
      && var out := FuzzyPass(rows, c.value, order).rows;
      && |out| == |rows|
      && forall k :: 0 <= k < |out| ==> out[k] == rows[order[k]]
    ensures HandleFuzzyMatch(rows, score) == Success(rows)
  {
    NoCandidatesAtAll(rows, score);
    var cands := FuzzyMatchTitles(rows, score).value;
    forall order | ListsEachOnce(order, |rows|)
      ensures AllowedOrder(cands, order)
      ensures FuzzyPass(rows, cands, order).rows == seq(|order|, k requires 0 <= k < |order| => rows[order[k]])
    {
      EmptyCandidatesAnyOrder(rows, cands, order);
      FuzzyPassNothingMergeable(rows, cands, order);
    }
    EmptyCandidatesStable(rows, cands);
  }

  /** Without a pair above the threshold every candidate list is empty. */
  lemma NoCandidatesAtAll(rows: seq<CanonicalTitle>, score: Scorer)
    requires forall i, j :: 0 <= i < |rows| && 0 <= j < |rows| && i != j ==>
      score(rows[i].normalizedTitle, rows[j].normalizedTitle) <= Threshold
    ensures var c := FuzzyMatchTitles(rows, score);
      c.Success? && forall i :: 0 <= i < |rows| ==> c.value[i] == []
  {
    var r := FuzzyMatchTitles(rows, score);
    forall i | 0 <= i < |rows|
      ensures !Ambiguous(rows, score, i)
    {
    }
    var cands := r.value;
    forall i | 0 <= i < |rows|
      ensures cands[i] == []
    {
      NoMembers(cands[i]);
    }
  }

  /** With every candidate list empty all match counts tie, so every order
      of the rows is one the sort may produce, and nothing merges. */
  lemma EmptyCandidatesAnyOrder(rows: seq<CanonicalTitle>, cands: seq<seq<nat>>, order: seq<nat>)
    requires |cands| == |rows| && forall i :: 0 <= i < |rows| ==> cands[i] == []
    requires ListsEachOnce(order, |rows|)
    ensures ValidCandidates(rows, cands)
    ensures AllowedOrder(cands, order)
  {
    forall i, j | 0 <= i < j < |order|
      ensures MatchCount(cands)(order[i]) >= MatchCount(cands)(order[j])
    {
      assert cands[order[i]] == [] && cands[order[j]] == [];
    }
  }

  /** With every candidate list empty the model's visiting order is the
      row order, so the pass gives its input back. */
  lemma EmptyCandidatesStable(rows: seq<CanonicalTitle>, cands: seq<seq<nat>>)
    requires |cands| == |rows| && forall i :: 0 <= i < |rows| ==> cands[i] == []
    ensures ValidCandidates(rows, cands)
    ensures FuzzyPass(rows, cands, VisitOrder(cands)).rows == rows
  {
    var visit := VisitOrder(cands);
    var all := Range(|cands|);
    assert SortedDesc(all, MatchCount(cands));
    SortDescOfSorted(all, MatchCount(cands));
    FuzzyPassNothingMergeable(rows, cands, visit);
    assert seq(|visit|, k requires 0 <= k < |visit| => rows[visit[k]]) == rows;
  }

  /** When every pair of candidates clashes on some cinema, the pass
      returns the input rows, each unchanged, in visiting order, whatever
      that order is: a rearrangement of its input. */
  lemma HandleFuzzyMatchAllClash(rows: seq<CanonicalTitle>, score: Scorer, order: seq<nat>)
    requires FuzzyMatchTitles(rows, score).Success?
    requires forall i, j :: 0 <= i < |rows| && 0 <= j < |rows| && IsMatch(rows, score, i, j) ==>
      !ShouldMerge(rows[i], rows[j])
    requires ListsEachOnce(order, |rows|)
    ensures var out := FuzzyPass(rows, FuzzyMatchTitles(rows, score).value, order).rows;
      && |out| == |rows|
      && (forall k :: 0 <= k < |out| ==> out[k] == rows[order[k]])
      && (forall j :: 0 <= j < |rows| ==> rows[j] in out)
      && (forall i :: 0 <= i < |out| ==> out[i] in rows)
    ensures var r := HandleFuzzyMatch(rows, score);
      && r.Success?
      && |r.value| == |rows|
      && (forall j :: 0 <= j < |rows| ==> rows[j] in r.value)
      && (forall i :: 0 <= i < |r.value| ==> r.value[i] in rows)
  {
    var cands := FuzzyMatchTitles(rows, score).value;
    forall i, k | 0 <= i < |rows| && 0 <= k < |cands[i]|
      ensures !ShouldMerge(rows[i], rows[cands[i][k]])
    {
      assert cands[i][k] in cands[i];
    }
    FuzzyPassNothingMergeable(rows, cands, order);
    RowsInOrder(rows, order);
    var visit := VisitOrder(cands);
    FuzzyPassNothingMergeable(rows, cands, visit);
    RowsInOrder(rows, visit);
  }

  /** The rows listed in an order that names each of them once are the
      rows themselves, rearranged. */
  lemma RowsInOrder(rows: seq<CanonicalTitle>, order: seq<nat>)
    requires |order| == |rows|
    requires forall k :: 0 <= k < |order| ==> order[k] < |rows|
    requires forall x: nat :: x < |rows| ==> x in order
    ensures var out := seq(|order|, k requires 0 <= k < |order| => rows[order[k]]);
      (forall j :: 0 <= j < |rows| ==> rows[j] in out)
      && (forall i :: 0 <= i < |out| ==> out[i] in rows)
  {
    var out := seq(|order|, k requires 0 <= k < |order| => rows[order[k]]);
    forall j | 0 <= j < |rows|
      ensures rows[j] in out
    {
      assert j in order;
      var k :| 0 <= k < |order| && order[k] == j;
      assert out[k] == rows[j];
    }
    forall i | 0 <= i < |out|
      ensures out[i] in rows
    {
      assert order[i] in order;
    }
  }

  // ---------------------------------------------------------------------
  // A row that cannot merge

  /** A merge keeps every id of the row merged into, so a clash with that
      row survives the merge. */
  lemma MergeKeepsClash(current: CanonicalTitle, other: CanonicalTitle, t: CanonicalTitle)
    requires !ShouldMerge(current, t)
    ensures !ShouldMerge(MergeFuzzy(current, other), t)
  {
    var s: Source :| current.HasId(s) && t.HasId(s);
    assert MergeFuzzy(current, other).Id(s) == current.Id(s);
  }

  /** The inner loop never absorbs a row that clashes with the row it
      starts from. */
  lemma {:induction false} AbsorbSkipsClashing(rows: seq<CanonicalTitle>, current: CanonicalTitle, matches: seq<nat>,
                                               processed: set<nat>, i: nat)
    requires InRange(rows, matches)
    requires i < |rows| && !ShouldMerge(current, rows[i])
    ensures i !in Absorb(rows, current, matches, processed).members
    decreases |matches|
  {
    if |matches| > 0 {
      var m := matches[0];
      if m !in processed && ShouldMerge(current, rows[m]) {
        MergeKeepsClash(current, rows[m], rows[i]);
        AbsorbSkipsClashing(rows, MergeFuzzy(current, rows[m]), matches[1..], processed + {m}, i);
      } else {
        AbsorbSkipsClashing(rows, current, matches[1..], processed, i);
      }
    }
  }

  /** The outer loop only appends: the rows and groups already emitted stay
      where they are. */
  lemma {:induction false} WalkKeepsDone(rows: seq<CanonicalTitle>, cands: seq<seq<nat>>, order: seq<nat>,
                                         processed: set<nat>, done: FuzzyResult)
    requires ValidCandidates(rows, cands)
    requires forall k :: 0 <= k < |order| ==> order[k] < |rows|
    ensures var r := Walk(rows, cands, order, processed, done);
      && |done.rows| <= |r.rows| && r.rows[..|done.rows|] == done.rows
      && |done.groups| <= |r.groups| && r.groups[..|done.groups|] == done.groups
    decreases |order|
  {
    if |order| > 0 {
      var idx := order[0];
      if idx in processed {
        WalkKeepsDone(rows, cands, order[1..], processed, done);
      } else {
        var a := Absorb(rows, rows[idx], cands[idx], processed + {idx});
        var next := FuzzyResult(done.rows + [a.merged], done.groups + [[idx] + a.members]);
        WalkKeepsDone(rows, cands, order[1..], a.processed, next);
        var r := Walk(rows, cands, order[1..], a.processed, next);
        assert r.rows[..|done.rows|] == r.rows[..|next.rows|][..|done.rows|];
        assert r.groups[..|done.groups|] == r.groups[..|next.groups|][..|done.groups|];
      }
    }
  }

  /** Some output row of `r` is `row`, built from input row `i` alone. */
  predicate EmittedAlone(r: FuzzyResult, i: nat, row: CanonicalTitle) {
    exists g :: 0 <= g < |r.groups| && g < |r.rows| && r.groups[g] == [i] && r.rows[g] == row
  }

  /** The outer loop from a point where row `i` is still unprocessed: no
      other row absorbs it, and when it is visited it absorbs nothing, so
      it is emitted unchanged as a group of its own. */
  lemma {:induction false} WalkKeepsUnmergeableRow(rows: seq<CanonicalTitle>, cands: seq<seq<nat>>, order: seq<nat>,
                                                   processed: set<nat>, done: FuzzyResult, i: nat)
    requires ValidCandidates(rows, cands)
    requires forall k :: 0 <= k < |order| ==> order[k] < |rows|
    requires |done.rows| == |done.groups|
    requires i < |rows| && i in order && i !in processed
    requires forall k :: 0 <= k < |cands[i]| ==> !ShouldMerge(rows[i], rows[cands[i][k]])
    requires forall j, k :: 0 <= j < |rows| && 0 <= k < |cands[j]| && cands[j][k] == i ==>
      !ShouldMerge(rows[j], rows[i])
    ensures EmittedAlone(Walk(rows, cands, order, processed, done), i, rows[i])
    decreases |order|
  {
    var idx := order[0];
    var r := Walk(rows, cands, order, processed, done);
    if idx == i {
      assert InRange(rows, cands[i]);
      AbsorbNothing(rows, rows[i], cands[i], processed + {i});
      assert [i] + [] == [i];
      var next := FuzzyResult(done.rows + [rows[i]], done.groups + [[i]]);
      assert r == Walk(rows, cands, order[1..], processed + {i}, next);
      WalkKeepsDone(rows, cands, order[1..], processed + {i}, next);
      var g := |done.groups|;
      assert r.groups[..|next.groups|][g] == [i];
      assert r.rows[..|next.rows|][g] == rows[i];
      assert 0 <= g < |r.groups| && g < |r.rows| && r.groups[g] == [i] && r.rows[g] == rows[i];
      assert EmittedAlone(r, i, rows[i]);
    } else {
      var k :| 0 <= k < |order| && order[k] == i;
      assert order[1..][k - 1] == i;
      if idx in processed {
        WalkKeepsUnmergeableRow(rows, cands, order[1..], processed, done, i);
      } else {
        assert InRange(rows, cands[idx]);
        var a := Absorb(rows, rows[idx], cands[idx], processed + {idx});
        if i in cands[idx] {
          var p :| 0 <= p < |cands[idx]| && cands[idx][p] == i;
          AbsorbSkipsClashing(rows, rows[idx], cands[idx], processed + {idx}, i);
        }
        assert i !in a.processed;
        var next := FuzzyResult(done.rows + [a.merged], done.groups + [[idx] + a.members]);
        WalkKeepsUnmergeableRow(rows, cands, order[1..], a.processed, next, i);
      }
    }
  }

  /** Pass-through, row by row: a row whose candidates all clash with it,
      and which clashes with every row that lists it as a candidate, comes
      out unchanged as a group of its own, in any visiting order that lists
      it, whatever happens to the other rows. */
  lemma FuzzyPassKeepsUnmergeableRow(rows: seq<CanonicalTitle>, cands: seq<seq<nat>>, order: seq<nat>, i: nat)
    requires ValidCandidates(rows, cands)
    requires forall k :: 0 <= k < |order| ==> order[k] < |rows|
    requires i < |rows| && i in order
    requires forall k :: 0 <= k < |cands[i]| ==> !ShouldMerge(rows[i], rows[cands[i][k]])
    requires forall j, k :: 0 <= j < |rows| && 0 <= k < |cands[j]| && cands[j][k] == i ==>
      !ShouldMerge(rows[j], rows[i])
    ensures var r := FuzzyPass(rows, cands, order);
      exists g :: 0 <= g < |r.groups| && r.groups[g] == [i] && r.rows[g] == rows[i]
  {
    var r := FuzzyPass(rows, cands, order);
    WalkKeepsUnmergeableRow(rows, cands, order, {}, FuzzyResult([], []), i);
    var g :| 0 <= g < |r.groups| && g < |r.rows| && r.groups[g] == [i] && r.rows[g] == rows[i];
  }

  /** The same for the whole fuzzy pass: a row with no candidates, or only
      candidates it clashes with, and which clashes with every row that
      takes it as a candidate, is among the rows returned, unchanged, in
      every visiting order. */
  lemma HandleFuzzyMatchKeepsUnmergeableRow(rows: seq<CanonicalTitle>, score: Scorer, order: seq<nat>, i: nat)
    requires FuzzyMatchTitles(rows, score).Success?
    requires i < |rows|
    requires forall j :: 0 <= j < |rows| && IsMatch(rows, score, i, j) ==> !ShouldMerge(rows[i], rows[j])
    requires forall j :: 0 <= j < |rows| && IsMatch(rows, score, j, i) ==> !ShouldMerge(rows[j], rows[i])
    requires ListsEachOnce(order, |rows|)
    ensures rows[i] in FuzzyPass(rows, FuzzyMatchTitles(rows, score).value, order).rows
    ensures rows[i] in HandleFuzzyMatch(rows, score).value
  {
    var cands := FuzzyMatchTitles(rows, score).value;
    forall k | 0 <= k < |cands[i]|
      ensures !ShouldMerge(rows[i], rows[cands[i][k]])
    {
      assert cands[i][k] in cands[i];
    }
    forall j, k | 0 <= j < |rows| && 0 <= k < |cands[j]| && cands[j][k] == i
      ensures !ShouldMerge(rows[j], rows[i])
    {
      assert cands[j][k] in cands[j];
    }
    FuzzyPassKeepsUnmergeableRow(rows, cands, order, i);
    var visit := VisitOrder(cands);
    FuzzyPassKeepsUnmergeableRow(rows, cands, visit, i);
  }

  // ---------------------------------------------------------------------
  // Two rows

  /** Two similar rows without a clashing cinema become one. Each has one
      candidate, so the sort may visit either first: visiting `a` first
      merges `b` into `a`, visiting `b` first merges `a` into `b`. The
      model's own visiting order takes `a` first. */
  lemma HandleFuzzyMatchTwoRows(a: CanonicalTitle, b: CanonicalTitle, score: Scorer, order: seq<nat>)
    requires score(a.normalizedTitle, b.normalizedTitle) > Threshold
    requires score(b.normalizedTitle, a.normalizedTitle) > Threshold
    requires ShouldMerge(a, b)
    requires ListsEachOnce(order, 2)
    ensures FuzzyMatchTitles([a, b], score) == Success([[1], [0]])
    ensures AllowedOrder([[1], [0]], order)
    ensures FuzzyPass([a, b], [[1], [0]], order).rows
      == [if order[0] == 0 then MergeFuzzy(a, b) else MergeFuzzy(b, a)]
    ensures HandleFuzzyMatch([a, b], score) == Success([MergeFuzzy(a, b)])
  {
    TwoRowsCandidates(a, b, score);
    TwoRowsAnyOrder(a, b, order);
    TwoRowsStable(a, b);
  }

  /** Both orders of two rows with one candidate each are allowed, and
      each merges the second-visited row into the first-visited one. */
  lemma TwoRowsAnyOrder(a: CanonicalTitle, b: CanonicalTitle, order: seq<nat>)
    requires ShouldMerge(a, b)
    requires ListsEachOnce(order, 2)
    ensures AllowedOrder([[1], [0]], order)
    ensures FuzzyPass([a, b], [[1], [0]], order).rows
      == [if order[0] == 0 then MergeFuzzy(a, b) else MergeFuzzy(b, a)]
  {
    var cands: seq<seq<nat>> := [[1], [0]];
    TwoOrders(order);
    assert MatchCount(cands)(0) == 1 && MatchCount(cands)(1) == 1;
    if order == [0, 1] {
      TwoRowsPass(a, b);
    } else {
      TwoRowsPassSwapped(a, b);
    }
  }

  /** The model's visiting order of two rows with one candidate each takes
      the first row first. */
  lemma TwoRowsStable(a: CanonicalTitle, b: CanonicalTitle)
    requires ShouldMerge(a, b)
    ensures VisitOrder([[1], [0]]) == [0, 1]
    ensures FuzzyPass([a, b], [[1], [0]], VisitOrder([[1], [0]])).rows == [MergeFuzzy(a, b)]
  {
    var cands: seq<seq<nat>> := [[1], [0]];
    var all := Range(2);
    assert all == [0, 1];
    assert SortedDesc(all, MatchCount(cands));
    SortDescOfSorted(all, MatchCount(cands));
    TwoRowsPass(a, b);
  }

  /** A row listed at two cinemas absorbs a similar row listed only at the
      third, whichever comes first in the input and whichever the sort
      visits first, and the result keeps the richer row's titles and all
      three ids. */
  lemma RicherRowAbsorbsOther(a: CanonicalTitle, b: CanonicalTitle, score: Scorer, order: seq<nat>)
    requires a.grandId != "" && a.primeId != "" && a.tajId == ""
    requires b.grandId == "" && b.primeId == "" && b.tajId != ""
    requires score(a.normalizedTitle, b.normalizedTitle) > Threshold
    requires score(b.normalizedTitle, a.normalizedTitle) > Threshold
    requires ListsEachOnce(order, 2)
    ensures forall rows :: rows == [a, b] || rows == [b, a] ==>
      && FuzzyMatchTitles(rows, score) == Success([[1], [0]])
      && AllowedOrder([[1], [0]], order)
      && var out := FuzzyPass(rows, [[1], [0]], order).rows;
      && |out| == 1
      && out[0].title == a.title && out[0].normalizedTitle == a.normalizedTitle
      && out[0].grandId == a.grandId && out[0].primeId == a.primeId && out[0].tajId == b.tajId
  {
    assert IdCount(a) == 2 && IdCount(b) == 1;
    assert ShouldMerge(a, b) && ShouldMerge(b, a);
    HandleFuzzyMatchTwoRows(a, b, score, order);
    HandleFuzzyMatchTwoRows(b, a, score, order);
    RicherMerge(a, b);
  }

  /** Merging the richer row with the poorer, in either order, keeps the
      richer row's titles and every id. */
  lemma RicherMerge(a: CanonicalTitle, b: CanonicalTitle)
    requires a.grandId != "" && a.primeId != "" && a.tajId == ""
    requires b.grandId == "" && b.primeId == "" && b.tajId != ""
    ensures forall m :: m == MergeFuzzy(a, b) || m == MergeFuzzy(b, a) ==>
      && m.title == a.title && m.normalizedTitle == a.normalizedTitle
      && m.grandId == a.grandId && m.primeId == a.primeId && m.tajId == b.tajId
  {
    assert IdCount(a) == 2 && IdCount(b) == 1;
    var ab, ba := MergeFuzzy(a, b), MergeFuzzy(b, a);
    assert ab.Id(Grand) == a.grandId && ab.Id(Prime) == a.primeId && ab.Id(Taj) == b.tajId;
    assert ba.Id(Grand) == a.grandId && ba.Id(Prime) == a.primeId && ba.Id(Taj) == b.tajId;
  }

  /** The two orders of two rows. */
  lemma TwoOrders(order: seq<nat>)
    requires ListsEachOnce(order, 2)
    ensures order == [0, 1] || order == [1, 0]
  {
    assert order[0] != order[1];
  }

  lemma TwoRowsCandidates(a: CanonicalTitle, b: CanonicalTitle, score: Scorer)
    requires score(a.normalizedTitle, b.normalizedTitle) > Threshold
    requires score(b.normalizedTitle, a.normalizedTitle) > Threshold
    ensures FuzzyMatchTitles([a, b], score) == Success([[1], [0]])
  {
    var rows := [a, b];
    TwoRowsNeverAmbiguous(a, b, score);
    var c := FuzzyMatchTitles(rows, score);
    assert c.Success?;
    var cands := c.value;
    assert |cands| == 2;
    forall y: nat
      ensures y in cands[0] <==> y == 1
    {
      assert y in cands[0] <==> y < 2 && IsMatch(rows, score, 0, y);
    }
    forall y: nat
      ensures y in cands[1] <==> y == 0
    {
      assert y in cands[1] <==> y < 2 && IsMatch(rows, score, 1, y);
    }
    OnlyMember(cands[0], 1);
    OnlyMember(cands[1], 0);
    assert cands == [[1], [0]];
  }

  /** With two rows there is no third to share a candidate's title. */
  lemma TwoRowsNeverAmbiguous(a: CanonicalTitle, b: CanonicalTitle, score: Scorer)
    ensures forall i :: 0 <= i < 2 ==> !Ambiguous([a, b], score, i)
  {
  }

  lemma TwoRowsPass(a: CanonicalTitle, b: CanonicalTitle)
    requires ShouldMerge(a, b)
    ensures FuzzyPass([a, b], [[1], [0]], [0, 1]).rows == [MergeFuzzy(a, b)]
  {
    WalkTwo([a, b], [[1], [0]], 0, 1);
  }

  lemma TwoRowsPassSwapped(a: CanonicalTitle, b: CanonicalTitle)
    requires ShouldMerge(b, a)
    ensures FuzzyPass([a, b], [[1], [0]], [1, 0]).rows == [MergeFuzzy(b, a)]
  {
    WalkTwo([a, b], [[1], [0]], 1, 0);
  }

  /** Visiting `h` and then `t`, where `t` is `h`'s only candidate and may
      merge with it, emits the single merge of the two. */
  lemma WalkTwo(rows: seq<CanonicalTitle>, cands: seq<seq<nat>>, h: nat, t: nat)
    requires ValidCandidates(rows, cands)
    requires h < |rows| && t < |rows| && h != t
    requires cands[h] == [t] && ShouldMerge(rows[h], rows[t])
    ensures Walk(rows, cands, [h, t], {}, FuzzyResult([], [])).rows == [MergeFuzzy(rows[h], rows[t])]
  {
    var m := MergeFuzzy(rows[h], rows[t]);
    var both := {h} + {t};
    assert Absorb(rows, m, [], both) == Absorbed(m, [], both);
    assert [t][1..] == [];
    assert Absorb(rows, rows[h], [t], {} + {h}) == Absorbed(m, [t], both);
    var done := FuzzyResult([] + [m], [] + [[h] + [t]]);
    assert [h, t][1..] == [t];
    assert Walk(rows, cands, [h, t], {}, FuzzyResult([], [])) == Walk(rows, cands, [t], both, done);
    assert Walk(rows, cands, [t], both, done) == Walk(rows, cands, [], both, done);
    assert done.rows == [m];
  }

  /** The fuzzy pass as a whole: at most as many rows as it was given, no
      id lost and none invented. */
  lemma HandleFuzzyMatchKeepsIds(rows: seq<CanonicalTitle>, score: Scorer)
    requires HandleFuzzyMatch(rows, score).Success?
    ensures var out := HandleFuzzyMatch(rows, score).value;
      && |out| <= |rows|
      && (forall j, s: Source :: 0 <= j < |rows| && rows[j].HasId(s) ==>
            exists i :: 0 <= i < |out| && out[i].Id(s) == rows[j].Id(s))
      && (forall i, s: Source :: 0 <= i < |out| && out[i].HasId(s) ==>
            exists j :: 0 <= j < |rows| && rows[j].Id(s) == out[i].Id(s))
  {
    var cands := FuzzyMatchTitles(rows, score).value;
    var order := VisitOrder(cands);
    var r := FuzzyPass(rows, cands, order);
    FuzzyPassPartition(rows, cands, order);
    forall j, s: Source | 0 <= j < |rows| && rows[j].HasId(s)
      ensures exists i :: 0 <= i < |r.rows| && r.rows[i].Id(s) == rows[j].Id(s)
    {
      FuzzyPassKeepsIds(rows, cands, order, j, s);
    }
    forall i, s: Source | 0 <= i < |r.rows| && r.rows[i].HasId(s)
      ensures exists j :: 0 <= j < |rows| && rows[j].Id(s) == r.rows[i].Id(s)
    {
      FuzzyPassInventsNoIds(rows, cands, order, i, s);
    }
  }
}
