/** Descending sorts of row indices by an integer key: the order of
    fuzzywuzzy's `process.extract` results (best score first) and of
    pandas' `sort_values(ascending=False)` on the match counts. */
module Sorting {

  /** The indices 0, 1, ..., n - 1 in increasing order (a default
      `RangeIndex`). */
  function Range(n: nat): (r: seq<nat>)
    ensures |r| == n
    ensures forall i :: 0 <= i < n ==> r[i] == i
  {
    if n == 0 then [] else Range(n - 1) + [n - 1]
  }

  predicate SortedDesc(xs: seq<nat>, key: nat -> int) {
    forall i, j :: 0 <= i < j < |xs| ==> key(xs[i]) >= key(xs[j])
  }

  /** Puts `x` in front of the first element whose key is not larger, so
      that `x` stays ahead of the elements with its own key. */
  function InsertDesc(x: nat, xs: seq<nat>, key: nat -> int): (r: seq<nat>)
    requires SortedDesc(xs, key)
    ensures SortedDesc(r, key)
    ensures multiset(r) == multiset(xs) + multiset{x}
  {
    if |xs| == 0 || key(x) >= key(xs[0]) then
      [x] + xs
    else
      var rest := InsertDesc(x, xs[1..], key);
      assert xs == [xs[0]] + xs[1..];
      forall y | y in rest
        ensures key(xs[0]) >= key(y)
      {
        assert y in multiset(rest);
      }
      HeadKeepsSortedDesc(xs[0], rest, key);
      [xs[0]] + rest
  }

  lemma HeadKeepsSortedDesc(h: nat, xs: seq<nat>, key: nat -> int)
    requires SortedDesc(xs, key)
    requires forall y :: y in xs ==> key(h) >= key(y)
    ensures SortedDesc([h] + xs, key)
  {
    var r := [h] + xs;
    forall i, j | 0 <= i < j < |r|
      ensures key(r[i]) >= key(r[j])
    {
      assert r[j] == xs[j - 1];
      if i > 0 {
        assert r[i] == xs[i - 1];
      }
    }
  }

  /** A stable insertion sort, largest key first (`SortDescStable`). */
  function SortDesc(xs: seq<nat>, key: nat -> int): (r: seq<nat>)
    ensures SortedDesc(r, key)
    ensures multiset(r) == multiset(xs)
  {
    if |xs| == 0 then []
    else
      assert xs == [xs[0]] + xs[1..];
      InsertDesc(xs[0], SortDesc(xs[1..], key), key)
  }

  /** Strictly increasing, as row indices listed in index order are. */
  predicate Increasing(xs: seq<nat>) {
    forall p, q :: 0 <= p < q < |xs| ==> xs[p] < xs[q]
  }

  /** Elements with equal keys appear in increasing order. */
  predicate TiesInIndexOrder(xs: seq<nat>, key: nat -> int) {
    forall p, q :: 0 <= p < q < |xs| && key(xs[p]) == key(xs[q]) ==> xs[p] < xs[q]
  }

  /** Stability: sorting indices given in increasing order keeps elements
      with equal keys in increasing order. */
  lemma {:induction false} SortDescStable(xs: seq<nat>, key: nat -> int)
    requires Increasing(xs)
    ensures TiesInIndexOrder(SortDesc(xs, key), key)
  {
    if |xs| > 0 {
      var tail := xs[1..];
      assert Increasing(tail);
      SortDescStable(tail, key);
      var sorted := SortDesc(tail, key);
      SortDescSameElements(tail, key);
      forall y | y in sorted
        ensures xs[0] < y
      {
        var j :| 0 <= j < |tail| && tail[j] == y;
        assert xs[j + 1] == y;
      }
      InsertDescStable(xs[0], sorted, key);
    }
  }

  /** Inserting an element smaller than every other keeps ties in
      increasing order: it goes ahead of the elements with its own key. */
  lemma {:induction false} InsertDescStable(x: nat, ys: seq<nat>, key: nat -> int)
    requires SortedDesc(ys, key) && TiesInIndexOrder(ys, key)
    requires forall y :: y in ys ==> x < y
    ensures TiesInIndexOrder(InsertDesc(x, ys, key), key)
  {
    var r := InsertDesc(x, ys, key);
    if |ys| == 0 || key(x) >= key(ys[0]) {
      assert r == [x] + ys;
      forall p, q | 0 <= p < q < |r| && key(r[p]) == key(r[q])
        ensures r[p] < r[q]
      {
        assert r[q] == ys[q - 1];
        if p > 0 {
          assert r[p] == ys[p - 1];
        } else {
          assert ys[q - 1] in ys;
        }
      }
    } else {
      var tail := ys[1..];
      assert SortedDesc(tail, key) && TiesInIndexOrder(tail, key);
      forall y | y in tail
        ensures x < y
      {
        var j :| 0 <= j < |tail| && tail[j] == y;
        assert ys[j + 1] in ys;
      }
      InsertDescStable(x, tail, key);
      var rest := InsertDesc(x, tail, key);
      assert r == [ys[0]] + rest;
      forall p, q | 0 <= p < q < |r| && key(r[p]) == key(r[q])
        ensures r[p] < r[q]
      {
        assert r[q] == rest[q - 1];
        if p > 0 {
          assert r[p] == rest[p - 1];
        } else {
          assert r[0] == ys[0];
          InsertedTail(x, ys, key, q - 1);
        }
      }
    }
  }

  /** When `x` goes past the head, an element after the head with the
      head's key comes from the tail, further along. */
  lemma InsertedTail(x: nat, ys: seq<nat>, key: nat -> int, k: nat)
    requires SortedDesc(ys, key) && TiesInIndexOrder(ys, key)
    requires |ys| > 0 && key(x) < key(ys[0])
    requires k < |InsertDesc(x, ys[1..], key)|
    requires key(InsertDesc(x, ys[1..], key)[k]) == key(ys[0])
    ensures ys[0] < InsertDesc(x, ys[1..], key)[k]
  {
    var rest := InsertDesc(x, ys[1..], key);
    var y := rest[k];
    assert y in multiset(rest);
    assert y != x;
    assert y in multiset(ys[1..]);
    var j :| 0 <= j < |ys[1..]| && ys[1..][j] == y;
    assert ys[j + 1] == y;
  }

  /** Sorting keeps exactly the elements it was given. */
  lemma SortDescSameElements(xs: seq<nat>, key: nat -> int)
    ensures |SortDesc(xs, key)| == |xs|
    ensures forall x :: x in SortDesc(xs, key) <==> x in xs
  {
    var r := SortDesc(xs, key);
    assert |r| == |multiset(r)| == |multiset(xs)| == |xs|;
    forall x
      ensures x in r <==> x in xs
    {
      assert x in r <==> x in multiset(r);
      assert x in xs <==> x in multiset(xs);
    }
  }

  /** Sorting a list that is already in order changes nothing. */
  lemma {:induction false} SortDescOfSorted(xs: seq<nat>, key: nat -> int)
    requires SortedDesc(xs, key)
    ensures SortDesc(xs, key) == xs
  {
    if |xs| > 0 {
      assert SortedDesc(xs[1..], key);
      SortDescOfSorted(xs[1..], key);
      assert xs == [xs[0]] + xs[1..];
    }
  }

  // ---------------------------------------------------------------------
  // Index sequences without repetitions

  predicate NoDuplicates(xs: seq<nat>) {
    forall i, j :: 0 <= i < j < |xs| ==> xs[i] != xs[j]
  }

  /** Two repetition-free sequences with no common element concatenate to
      a repetition-free sequence. */
  lemma NoDuplicatesConcat(xs: seq<nat>, ys: seq<nat>)
    requires NoDuplicates(xs) && NoDuplicates(ys)
    requires forall y :: y in ys ==> y !in xs
    ensures NoDuplicates(xs + ys)
  {
    var r := xs + ys;
    forall i, j | 0 <= i < j < |r|
      ensures r[i] != r[j]
    {
      if j < |xs| {
        assert r[i] == xs[i] && r[j] == xs[j];
      } else if i >= |xs| {
        assert r[i] == ys[i - |xs|] && r[j] == ys[j - |xs|];
      } else {
        assert r[i] == xs[i] && r[j] == ys[j - |xs|];
        assert ys[j - |xs|] in ys;
      }
    }
  }

  /** A repetition-free sequence has as many elements as its set. */
  lemma {:induction false} NoDuplicatesCardinality(xs: seq<nat>)
    requires NoDuplicates(xs)
    ensures |set x: nat | x in xs| == |xs|
  {
    if |xs| > 0 {
      var init := xs[..|xs| - 1];
      var last := xs[|xs| - 1];
      assert xs == init + [last];
      assert NoDuplicates(init);
      NoDuplicatesCardinality(init);
      var s0 := set x: nat | x in init;
      assert |s0| == |init|;
      assert last !in s0;
      assert (set x: nat | x in xs) == s0 + {last};
    }
  }

  /** A repetition-free sequence whose elements are exactly 0, ..., n - 1
      has length n. */
  lemma PermutationLength(xs: seq<nat>, n: nat)
    requires NoDuplicates(xs)
    requires forall x: nat :: x in xs <==> x < n
    ensures |xs| == n
  {
    var range := Range(n);
    NoDuplicatesCardinality(xs);
    NoDuplicatesCardinality(range);
    forall x: nat
      ensures x in xs <==> x in range
    {
      if x < n {
        assert range[x] == x;
      }
    }
    assert (set x: nat | x in xs) == (set x: nat | x in range);
  }

  /** An element occurs at most once in a repetition-free sequence. */
  lemma {:induction false} NoDuplicatesMultiplicity(xs: seq<nat>, v: nat)
    requires NoDuplicates(xs)
    ensures multiset(xs)[v] <= 1
  {
    if |xs| > 0 {
      assert xs == [xs[0]] + xs[1..];
      assert NoDuplicates(xs[1..]);
      NoDuplicatesMultiplicity(xs[1..], v);
      if xs[0] == v {
        assert v !in xs[1..];
      }
    }
  }

  /** A reordering of a repetition-free sequence is repetition-free. */
  lemma NoDuplicatesPermutation(xs: seq<nat>, ys: seq<nat>)
    requires NoDuplicates(ys) && multiset(xs) == multiset(ys)
    ensures NoDuplicates(xs)
  {
    forall i, j | 0 <= i < j < |xs|
      ensures xs[i] != xs[j]
    {
      if xs[i] == xs[j] {
        var v := xs[i];
        assert xs == xs[..j] + [v] + xs[j + 1..];
        assert v in xs[..j];
        assert multiset(xs)[v] >= 2;
        NoDuplicatesMultiplicity(ys, v);
        assert false;
      }
    }
  }
}
