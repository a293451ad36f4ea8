/** Permutations of index ranges, and the sums they leave unchanged. */
module Permutations {
  import opened NumberTheory

  ghost predicate Distinct(s: seq<nat>) {
    forall i, j :: 0 <= i < j < |s| ==> s[i] != s[j]
  }

  ghost predicate Below(s: seq<nat>, n: nat) {
    forall i :: 0 <= i < |s| ==> s[i] < n
  }

  /** The entries of `s` are the numbers below its length, each once. */
  ghost predicate IsPerm(s: seq<nat>) {
    Below(s, |s|) && Distinct(s)
  }

  function Without<T>(s: seq<T>, j: nat): (r: seq<T>)
    requires j < |s|
    ensures |r| == |s| - 1
    ensures forall i :: 0 <= i < |r| ==> r[i] == if i < j then s[i] else s[i + 1]
  {
    s[..j] + s[j + 1..]
  }

  lemma SomethingBelow(s: seq<nat>, n: nat)
    requires s != [] && Below(s, n)
    ensures 0 < n
  {
    assert 0 <= s[0] < n;
  }

  /** Distinct numbers below n are at most n many. */
  lemma {:induction false} Pigeonhole(s: seq<nat>, n: nat)
    requires Distinct(s) && Below(s, n)
    ensures |s| <= n
    decreases n
  {
    if s == [] { return; }
    SomethingBelow(s, n);
    if exists j :: 0 <= j < |s| && s[j] == n - 1 {
      var j :| 0 <= j < |s| && s[j] == n - 1;
      Pigeonhole(Without(s, j), n - 1);
    } else {
      Pigeonhole(s, n - 1);
    }
  }

  /** Every index occurs in a permutation. */
  lemma Hits(s: seq<nat>, v: nat) returns (j: nat)
    requires IsPerm(s) && v < |s|
    ensures j < |s| && s[j] == v
  {
    if forall i :: 0 <= i < |s| ==> s[i] != v {
      // Renaming the largest value to v would squeeze |s| distinct values below |s| - 1.
      var n := |s|;
      var t := seq(n, i requires 0 <= i < n => if s[i] == n - 1 then v else s[i]);
      Pigeonhole(t, n - 1);
      assert false;
    }
    j :| 0 <= j < |s| && s[j] == v;
  }

  function Sum(f: seq<int>): int {
    if f == [] then 0 else Sum(f[..|f| - 1]) + f[|f| - 1]
  }

  lemma SumSnoc(f: seq<int>, x: int)
    ensures Sum(f + [x]) == Sum(f) + x
  {
    assert (f + [x])[..|f|] == f;
  }

  lemma {:induction false} SumConcat(f: seq<int>, g: seq<int>)
    ensures Sum(f + g) == Sum(f) + Sum(g)
  {
    if g == [] {
      assert f + g == f;
    } else {
      var h, x := g[..|g| - 1], g[|g| - 1];
      assert f + g == (f + h) + [x];
      SumSnoc(f + h, x);
      SumConcat(f, h);
    }
  }

  lemma SumAround(a: seq<int>, x: int, b: seq<int>)
    ensures Sum((a + [x]) + b) == Sum(a + b) + x
  {
    SumConcat(a + [x], b);
    SumSnoc(a, x);
    SumConcat(a, b);
  }

  lemma SumWithout(f: seq<int>, j: nat)
    requires j < |f|
    ensures Sum(f) == Sum(Without(f, j)) + f[j]
  {
    SplitAt(f, j);
    SumAround(f[..j], f[j], f[j + 1..]);
  }

  lemma SplitAt<T>(f: seq<T>, j: nat)
    requires j < |f|
    ensures f == (f[..j] + [f[j]]) + f[j + 1..]
  {
  }

  lemma SumUpdate(f: seq<int>, j: nat, x: int)
    requires j < |f|
    ensures Sum(f[j := x]) == Sum(f) - f[j] + x
  {
    SumWithout(f, j);
    SumWithout(f[j := x], j);
    assert Without(f[j := x], j) == Without(f, j);
  }

  lemma {:induction false} SumConstant(f: seq<int>, c: int)
    requires forall i :: 0 <= i < |f| ==> f[i] == c
    ensures Sum(f) == |f| * c
  {
    if f == [] {
    } else {
      SumConstant(f[..|f| - 1], c);
    }
  }

  /** Sum of 0, 1, ..., n-1. */
  lemma {:induction false} SumIndices(f: seq<int>)
    requires forall i :: 0 <= i < |f| ==> f[i] == i
    ensures 2 * Sum(f) == |f| * (|f| - 1)
  {
    if f == [] {
    } else {
      SumIndices(f[..|f| - 1]);
    }
  }

  /** `f` read through the index table `s`. */
  function Gather(f: seq<int>, s: seq<nat>): (r: seq<int>)
    requires forall i :: 0 <= i < |s| ==> s[i] < |f|
    ensures |r| == |s| && forall i :: 0 <= i < |s| ==> r[i] == f[s[i]]
  {
    seq(|s|, i requires 0 <= i < |s| => f[s[i]])
  }

  lemma PermWithoutLargest(s: seq<nat>, j: nat)
    requires IsPerm(s) && j < |s| && s[j] == |s| - 1
    ensures IsPerm(Without(s, j))
  {
    var t := Without(s, j);
    forall i | 0 <= i < |t| ensures t[i] < |t| {
      if i < j { assert s[i] != s[j]; } else { assert s[j] != s[i + 1]; }
    }
  }

  lemma GatherWithout(f: seq<int>, s: seq<nat>, j: nat, t: seq<nat>)
    requires |f| == |s| && j < |s| && t == Without(s, j)
    requires Below(s, |s|) && Below(t, |t|) && s[j] == |t|
    ensures Sum(Gather(f, s)) == Sum(Gather(f[..|t|], t)) + f[|t|]
  {
    SumWithout(Gather(f, s), j);
    assert Without(Gather(f, s), j) == Gather(f[..|t|], t);
  }

  /** Reading through a permutation does not change the sum. */
  lemma {:induction false} SumOverPerm(f: seq<int>, s: seq<nat>)
    requires IsPerm(s) && |f| == |s|
    ensures Sum(Gather(f, s)) == Sum(f)
    decreases |s|
  {
    if s == [] {
      assert Gather(f, s) == f;
    } else {
      var j := Hits(s, |s| - 1);
      PermWithoutLargest(s, j);
      SumOverPerm(f[..|s| - 1], Without(s, j));
      GatherWithout(f, s, j, Without(s, j));
    }
  }

  // ----- reading a table lap after lap

  /** The exact sum of n values read from `g` in order, around and around. */
  function LapSum(g: seq<int>, n: nat): int
    requires 0 < |g|
  {
    if n == 0 then 0 else LapSum(g, n - 1) + g[(n - 1) % |g|]
  }

  lemma {:induction false} LapSumWithin(g: seq<int>, base: nat, j: nat)
    requires 0 < |g| && base % |g| == 0 && j <= |g|
    ensures LapSum(g, base + j) == LapSum(g, base) + Sum(g[..j])
  {
    if j == 0 {
    } else {
      LapSumWithin(g, base, j - 1);
      PositionInLap(base, j - 1, |g|);
      assert g[..j] == g[..j - 1] + [g[j - 1]];
      SumSnoc(g[..j - 1], g[j - 1]);
    }
  }

  lemma PositionInLap(base: nat, j: nat, count: nat)
    requires j < count && base % count == 0
    ensures (base + j) % count == j
  {
    ModAdd(base, j, count);
    SmallMod(j, count);
  }

  /** r full laps of n reads each. */
  lemma {:induction false} LapSumOfLaps(g: seq<int>, r: nat)
    requires 0 < |g|
    ensures LapSum(g, r * |g|) == r * Sum(g)
  {
    if r == 0 {
    } else {
      LapSumOfLaps(g, r - 1);
      Multiple(|g|, r - 1);
      LapSumWithin(g, (r - 1) * |g|, |g|);
      assert g[..|g|] == g;
      OneMore(r, |g|);
      OneMore(r, Sum(g));
    }
  }

  lemma OneMore(r: int, x: int)
    ensures (r - 1) * x + x == r * x
  {
  }

  // ----- the permutations the probes use: steps of a fixed size around a circle

  /** The `n` positions reached from `a` by steps of `m` around a circle of `n`. */
  function Strided(n: nat, m: int, a: int): (r: seq<nat>)
    requires 0 < n
    ensures |r| == n && forall j :: 0 <= j < n ==> r[j] == (a + j * m) % n
  {
    seq(n, j => (a + j * m) % n)
  }

  /** Steps coprime to the circle visit every position once, wherever they start. */
  lemma StridedIsPerm(n: nat, m: nat, a: int)
    requires 0 < n && Coprime(m, n)
    ensures IsPerm(Strided(n, m, a))
  {
    var s := Strided(n, m, a);
    forall i, j | 0 <= i < j < n ensures s[i] != s[j] {
      StridedDistinct(n, m, a, i, j);
    }
  }

  lemma StridedDistinct(n: nat, m: nat, a: int, i: nat, j: nat)
    requires Coprime(m, n) && i < j < n
    ensures (a + i * m) % n != (a + j * m) % n
  {
    SameRemainder(a + j * m, a + i * m, n);
    assert (a + j * m) - (a + i * m) == (j - i) * m;
    EuclidLemma(m, n, j - i);
    SmallMod(j - i, n);
  }
}
