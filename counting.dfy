/**
 * Python's `set(xs)` and `collections.Counter(xs)` over lists of strings,
 * with the order in which a `Counter` keeps its keys (first occurrence).
 */
module Counting {

  /** `set(xs)`. */
  function ToSet(xs: seq<string>): (r: set<string>)
    ensures forall x :: x in r <==> x in xs
  {
    set x | x in xs
  }

  predicate NoDuplicates(xs: seq<string>) {
    forall i, j :: 0 <= i < j < |xs| ==> xs[i] != xs[j]
  }

  /** The index of the first occurrence of `x` in `xs`. */
  function FirstIndex(xs: seq<string>, x: string): (i: nat)
    requires x in xs
    ensures i < |xs| && xs[i] == x
    ensures forall k :: 0 <= k < i ==> xs[k] != x
    decreases |xs|
  {
    var n := |xs| - 1;
    assert xs == xs[..n] + [xs[n]];
    if x in xs[..n] then FirstIndex(xs[..n], x) else n
  }

  /**
   * The distinct elements of `xs` in order of first occurrence: the keys of
   * `Counter(xs)`, in the order the dictionary keeps them.
   */
  function Distinct(xs: seq<string>): (d: seq<string>)
    ensures forall x :: x in d <==> x in xs
    ensures NoDuplicates(d)
    ensures |d| <= |xs|
    decreases |xs|
  {
    if xs == [] then []
    else
      var n := |xs| - 1;
      var init := Distinct(xs[..n]);
      var x := xs[n];
      assert forall y :: y in xs <==> y in xs[..n] || y == x by {
        assert xs == xs[..n] + [x];
      }
      if x in xs[..n] then init else init + [x]
  }

  /** An element of the prefix `xs[..|xs| - 1]` occurs first where it occurs first in the prefix. */
  lemma FirstIndexPrefix(xs: seq<string>, y: string)
    requires xs != [] && y in xs[..|xs| - 1]
    ensures y in xs && FirstIndex(xs, y) == FirstIndex(xs[..|xs| - 1], y)
  {
    assert xs == xs[..|xs| - 1] + [xs[|xs| - 1]];
  }

  /** A last element that is new occurs first at the end. */
  lemma FirstIndexLast(xs: seq<string>)
    requires xs != [] && xs[|xs| - 1] !in xs[..|xs| - 1]
    ensures FirstIndex(xs, xs[|xs| - 1]) == |xs| - 1
  {
  }

  /** The keys of `Counter(xs)` come in the order of their first occurrence in `xs`. */
  lemma {:induction false} DistinctOrder(xs: seq<string>)
    ensures forall i, j :: 0 <= i < j < |Distinct(xs)| ==>
              FirstIndex(xs, Distinct(xs)[i]) < FirstIndex(xs, Distinct(xs)[j])
    decreases |xs|
  {
    if xs != [] {
      var n := |xs| - 1;
      var x := xs[n];
      var init := Distinct(xs[..n]);
      var d := Distinct(xs);
      DistinctOrder(xs[..n]);
      assert d == if x in xs[..n] then init else init + [x];
      forall i, j | 0 <= i < j < |d|
        ensures FirstIndex(xs, d[i]) < FirstIndex(xs, d[j])
      {
        assert d[i] == init[i] && init[i] in xs[..n];
        FirstIndexPrefix(xs, init[i]);
        if j < |init| {
          assert d[j] == init[j] && init[j] in xs[..n];
          FirstIndexPrefix(xs, init[j]);
          assert FirstIndex(xs[..n], init[i]) < FirstIndex(xs[..n], init[j]);
        } else {
          assert d[j] == x;
          FirstIndexLast(xs);
          assert FirstIndex(xs[..n], init[i]) < |xs[..n]| == n;
        }
      }
    }
  }

  /** `Counter(xs)`, built one element at a time as the library does. */
  function Tally(xs: seq<string>): (m: map<string, nat>)
    ensures forall x :: x in m <==> x in xs
    ensures forall x :: x in m ==> m[x] == multiset(xs)[x]
    decreases |xs|
  {
    if xs == [] then map[]
    else
      var init := Tally(xs[..|xs| - 1]);
      var x := xs[|xs| - 1];
      assert xs == xs[..|xs| - 1] + [x];
      assert multiset(xs) == multiset(xs[..|xs| - 1]) + multiset{x};
      init[x := (if x in init then init[x] else 0) + 1]
  }

  /** A list without repetitions has as many elements as its set. */
  lemma {:induction false} NoDuplicatesSize(xs: seq<string>)
    requires NoDuplicates(xs)
    ensures |ToSet(xs)| == |xs|
    decreases |xs|
  {
    if xs != [] {
      var init := xs[..|xs| - 1];
      var x := xs[|xs| - 1];
      assert xs == init + [x];
      assert NoDuplicates(init);
      NoDuplicatesSize(init);
      assert x !in init by {
        assert forall i :: 0 <= i < |init| ==> init[i] == xs[i];
      }
      assert ToSet(xs) == ToSet(init) + {x};
    }
  }

  /** `len(set(xs))` is the number of keys of `Counter(xs)`, and at most `len(xs)`. */
  lemma DistinctSize(xs: seq<string>)
    ensures |ToSet(xs)| == |Distinct(xs)| <= |xs|
  {
    var d := Distinct(xs);
    NoDuplicatesSize(d);
    assert ToSet(d) == ToSet(xs);
  }

  /** The total of the counts `m[k]` over `keys`. */
  function SumCounts(keys: seq<string>, m: multiset<string>): nat
    decreases |keys|
  {
    if keys == [] then 0 else SumCounts(keys[..|keys| - 1], m) + m[keys[|keys| - 1]]
  }

  /** One more occurrence of `x` adds one to the total exactly when `x` is a key (listed once). */
  lemma {:induction false} SumCountsAdd(keys: seq<string>, m: multiset<string>, x: string)
    requires NoDuplicates(keys)
    ensures SumCounts(keys, m + multiset{x}) == SumCounts(keys, m) + (if x in keys then 1 else 0)
    decreases |keys|
  {
    if keys != [] {
      var init := keys[..|keys| - 1];
      assert keys == init + [keys[|keys| - 1]];
      assert NoDuplicates(init);
      SumCountsAdd(init, m, x);
      assert x in keys <==> x in init || x == keys[|keys| - 1];
      assert x == keys[|keys| - 1] ==> x !in init by {
        assert forall i :: 0 <= i < |init| ==> init[i] == keys[i];
      }
    }
  }

  /** The counts of `Counter(xs)`, taken over its keys, add up to `len(xs)`. */
  lemma {:induction false} CountsAddUp(xs: seq<string>)
    ensures SumCounts(Distinct(xs), multiset(xs)) == |xs|
    decreases |xs|
  {
    if xs != [] {
      var init := xs[..|xs| - 1];
      var x := xs[|xs| - 1];
      assert xs == init + [x];
      assert multiset(xs) == multiset(init) + multiset{x};
      CountsAddUp(init);
      var d := Distinct(init);
      SumCountsAdd(d, multiset(init), x);
      if x !in init {
        assert multiset(init)[x] == 0;
        assert (init + [x])[..|init|] == init;
        assert Distinct(xs) == d + [x];
        assert (d + [x])[..|d|] == d;
      }
    }
  }
}
