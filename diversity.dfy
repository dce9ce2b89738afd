/**
 * The per-patent diversity scores of the two methods, over exact rationals:
 * method 1 is one minus the Herfindahl concentration of the block's main
 * groups, `1 - sum over t of (t / p)^2`; method 2 is `N + 1 - 1/n` with N the
 * number of distinct subclasses and n the number of distinct main groups.
 */
module Diversity {
  import opened ClassCode
  import opened Counting

  /** The main groups of a block's codes, in order, duplicates kept. */
  function Mains(codes: seq<Code>): (r: seq<string>)
    ensures |r| == |codes| && forall i :: 0 <= i < |codes| ==> r[i] == codes[i].mainGroup
  {
    seq(|codes|, i requires 0 <= i < |codes| => codes[i].mainGroup)
  }

  /** The subclasses of a block's codes, in order, duplicates kept. */
  function Subs(codes: seq<Code>): (r: seq<string>)
    ensures |r| == |codes| && forall i :: 0 <= i < |codes| ==> r[i] == codes[i].subClass
  {
    seq(|codes|, i requires 0 <= i < |codes| => codes[i].subClass)
  }

  /** `sum((t / p) ** 2 for t in counts)` with the counts of `keys` in `m`. */
  function SumSquaredShares(keys: seq<string>, m: multiset<string>, p: nat): (r: real)
    requires p > 0
    ensures 0.0 <= r
    decreases |keys|
  {
    if keys == [] then 0.0
    else
      var share := m[keys[|keys| - 1]] as real / p as real;
      SumSquaredShares(keys[..|keys| - 1], m, p) + share * share
  }

  /** The sum of the squared counts of `keys` in `m`. */
  function SumSquares(keys: seq<string>, m: multiset<string>): nat
    decreases |keys|
  {
    if keys == [] then 0
    else SumSquares(keys[..|keys| - 1], m) + m[keys[|keys| - 1]] * m[keys[|keys| - 1]]
  }

  /** Method 1 of a block whose main groups are `mains`: `1 - sum over groups t of (count(t) / p)^2`. */
  function Method1Quality(mains: seq<string>): (q: real)
    requires |mains| > 0
    ensures var p := |mains|;
      q == 1.0 - SumSquares(Distinct(mains), multiset(mains)) as real / (p * p) as real
  {
    SquareAtLeastOne(|mains|);
    SharesAreSquares(Distinct(mains), multiset(mains), |mains|);
    1.0 - SumSquaredShares(Distinct(mains), multiset(mains), |mains|)
  }

  /** N: the number of distinct subclasses of a block, at least one when the block has a code. */
  function SubclassCount(codes: seq<Code>): (r: nat)
    ensures r <= |codes|
    ensures codes != [] ==> r >= 1
  {
    DistinctSize(Subs(codes));
    assert codes != [] ==> Subs(codes)[0] in ToSet(Subs(codes));
    |ToSet(Subs(codes))|
  }

  /** n: the number of distinct main groups of a block, at least one when the block has a code. */
  function GroupCount(codes: seq<Code>): (r: nat)
    ensures r <= |codes|
    ensures codes != [] ==> r >= 1
  {
    DistinctSize(Mains(codes));
    assert codes != [] ==> Mains(codes)[0] in ToSet(Mains(codes));
    |ToSet(Mains(codes))|
  }

  /**
   * Method 2 of a non-empty block: `N + 1 - 1/n`. n is at least 1, so the
   * division is defined and the result lies in [N, N + 1).
   */
  function Method2Quality(codes: seq<Code>): (q: real)
    requires |codes| > 0
    ensures SubclassCount(codes) as real <= q < SubclassCount(codes) as real + 1.0
  {
    var n := GroupCount(codes) as real;
    assert 0.0 < 1.0 / n <= 1.0;
    SubclassCount(codes) as real + 1.0 - 1.0 / n
  }

  lemma ProductOfQuotients(a: real, b: real, c: real, d: real)
    requires b > 0.0 && d > 0.0
    ensures (a / b) * (c / d) == (a * c) / (b * d)
  {
  }

  lemma SumOfQuotients(a: real, b: real, d: real)
    requires d != 0.0
    ensures a / d + b / d == (a + b) / d
  {
  }

  /** One more squared share `(c / d)^2` adds `c * c` to the numerator over `d * d`. */
  lemma ShareStep(a: real, c: real, d: real)
    requires d > 0.0
    ensures a / (d * d) + (c / d) * (c / d) == (a + c * c) / (d * d)
  {
    ProductOfQuotients(c, d, c, d);
    ProductOfQuotients(1.0, d, 1.0, d);
    SumOfQuotients(a, c * c, d * d);
  }

  lemma CastSquare(p: int)
    ensures (p * p) as real == (p as real) * (p as real)
  {
  }

  lemma CastAddSquare(a: int, c: int)
    ensures (a + c * c) as real == a as real + (c as real) * (c as real)
  {
    CastSquare(c);
  }

  /** One inductive step of `SharesAreSquares`, over plain reals: `dd` is `d * d`. */
  lemma ShareSumStep(total: real, init: real, squares: real, initSquares: real, c: real, d: real, dd: real)
    requires d > 0.0 && dd > 0.0 && dd == d * d
    requires total == init + (c / d) * (c / d)
    requires init == initSquares / dd
    requires squares == initSquares + c * c
    ensures total == squares / dd
  {
    ShareStep(initSquares, c, d);
  }

  lemma SquareAtLeastOne(c: int)
    requires c >= 1
    ensures c * c >= 1
  {
  }

  /** The sum of squared shares is the sum of squared counts over `p * p`. */
  lemma {:induction false} SharesAreSquares(keys: seq<string>, m: multiset<string>, p: nat)
    requires p > 0
    ensures SumSquaredShares(keys, m, p) == SumSquares(keys, m) as real / (p * p) as real
    decreases |keys|
  {
    SquareAtLeastOne(p);
    if keys != [] {
      var init := keys[..|keys| - 1];
      var c := m[keys[|keys| - 1]];
      var a := SumSquares(init, m);
      SharesAreSquares(init, m, p);
      CastAddSquare(a, c);
      CastSquare(p);
      assert (p * p) as real > 0.0;
      ShareSumStep(SumSquaredShares(keys, m, p), SumSquaredShares(init, m, p),
                   SumSquares(keys, m) as real, a as real, c as real, p as real, (p * p) as real);
    }
  }

  /** Adding a positive count keeps the sum of squares strictly below the square of the sum. */
  lemma SquareStep(q: int, s: int, c: int)
    requires s >= 1 && c >= 1 && 1 <= q <= s * s
    ensures 1 <= q + c * c < (s + c) * (s + c)
  {
    assert (s + c) * (s + c) == s * s + 2 * s * c + c * c;
    assert s * c >= 1;
  }

  /**
   * For positive counts, the sum of squares is at least one and at most the
   * square of the sum, with equality exactly when there is a single count.
   */
  lemma {:induction false} SquaresBelowSquaredSum(keys: seq<string>, m: multiset<string>)
    requires |keys| > 0
    requires forall k :: k in keys ==> m[k] >= 1
    ensures SumCounts(keys, m) >= 1
    ensures 1 <= SumSquares(keys, m) <= SumCounts(keys, m) * SumCounts(keys, m)
    ensures SumSquares(keys, m) == SumCounts(keys, m) * SumCounts(keys, m) <==> |keys| == 1
    decreases |keys|
  {
    var init := keys[..|keys| - 1];
    var last := keys[|keys| - 1];
    var c := m[last];
    assert last in keys;
    if |keys| > 1 {
      assert forall k :: k in init ==> k in keys;
      SquaresBelowSquaredSum(init, m);
      SquareStep(SumSquares(init, m), SumCounts(init, m), c);
    } else {
      assert init == [];
      SquareAtLeastOne(c);
    }
  }

  lemma RatioAtMostOne(q: real, d: real)
    requires 1.0 <= q <= d
    ensures 0.0 < q / d <= 1.0
    ensures q / d == 1.0 <==> q == d
  {
  }

  /**
   * Method 1 lies in [0, 1), and is 0 exactly when the block has a single
   * distinct main group.
   */
  lemma Method1Bounds(mains: seq<string>)
    requires |mains| > 0
    ensures 0.0 <= Method1Quality(mains) < 1.0
    ensures Method1Quality(mains) == 0.0 <==> |ToSet(mains)| == 1
  {
    var keys := Distinct(mains);
    var m := multiset(mains);
    var p := |mains|;
    assert mains[0] in keys;
    assert forall k :: k in keys ==> m[k] >= 1;
    SquaresBelowSquaredSum(keys, m);
    CountsAddUp(mains);
    DistinctSize(mains);
    SharesAreSquares(keys, m, p);
    RatioAtMostOne(SumSquares(keys, m) as real, (p * p) as real);
  }

  /** Taking the subclass of each main group never makes more distinct values. */
  lemma {:induction false} SubclassImageSize(groups: set<string>)
    ensures |(set g | g in groups :: SubClassOf(g))| <= |groups|
    decreases |groups|
  {
    if groups != {} {
      var g :| g in groups;
      var rest := groups - {g};
      SubclassImageSize(rest);
      var image := set h | h in groups :: SubClassOf(h);
      var restImage := set h | h in rest :: SubClassOf(h);
      assert image == restImage + {SubClassOf(g)};
    }
  }

  /** For well-formed codes, the set of subclasses is the image of the set of main groups. */
  lemma SubclassesOfGroups(codes: seq<Code>)
    requires forall i :: 0 <= i < |codes| ==> WellFormed(codes[i])
    ensures ToSet(Subs(codes)) == set g | g in ToSet(Mains(codes)) :: SubClassOf(g)
  {
    var mains := ToSet(Mains(codes));
    var subs := ToSet(Subs(codes));
    forall x | x in subs ensures x in set g | g in mains :: SubClassOf(g) {
      var i :| 0 <= i < |codes| && Subs(codes)[i] == x;
      assert Mains(codes)[i] in mains;
    }
    forall g | g in mains ensures SubClassOf(g) in subs {
      var i :| 0 <= i < |codes| && Mains(codes)[i] == g;
      assert Subs(codes)[i] == SubClassOf(g);
    }
  }

  lemma ReciprocalBounds(n: real)
    requires n >= 1.0
    ensures 0.0 < 1.0 / n <= 1.0
    ensures 1.0 / n == 1.0 <==> n == 1.0
  {
  }

  /**
   * For a non-empty block of well-formed codes, `1 <= N <= n <= p`, so the
   * division is defined, and method 2 lies in [N, N + 1), equal to N exactly
   * when there is a single distinct main group.
   */
  lemma Method2Bounds(codes: seq<Code>)
    requires |codes| > 0
    requires forall i :: 0 <= i < |codes| ==> WellFormed(codes[i])
    ensures 1 <= SubclassCount(codes) <= GroupCount(codes) <= |codes|
    ensures var q := Method2Quality(codes);
      && SubclassCount(codes) as real <= q < SubclassCount(codes) as real + 1.0
      && (q == SubclassCount(codes) as real <==> GroupCount(codes) == 1)
  {
    SubclassesOfGroups(codes);
    SubclassImageSize(ToSet(Mains(codes)));
    DistinctSize(Mains(codes));
    assert Subs(codes)[0] in ToSet(Subs(codes));
    ReciprocalBounds(GroupCount(codes) as real);
  }
}
