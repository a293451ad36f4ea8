/** Sample statistics (probe_stats_from in apple/src/probe_helpers.c), over exact reals; the variance
    stands for the square of the reported standard deviation. */
module SampleStats {
  import opened Permutations

  datatype Stats = Stats(min: nat, median: nat, max: nat, mean: real, variance: real)

  // ----- sorting

  /** compare_u64 */
  function Compare(a: nat, b: nat): int {
    (if a > b then 1 else 0) - (if a < b then 1 else 0)
  }

  predicate IsSorted(s: seq<nat>) {
    forall i, j :: 0 <= i < j < |s| ==> s[i] <= s[j]
  }

  predicate UpTo(s: seq<nat>, b: nat) {
    forall i :: 0 <= i < |s| ==> s[i] <= b
  }

  lemma SortedSnoc(s: seq<nat>, x: nat)
    requires IsSorted(s) && UpTo(s, x)
    ensures IsSorted(s + [x])
  {
  }

  function Insert(s: seq<nat>, x: nat): (r: seq<nat>)
    requires IsSorted(s)
    ensures IsSorted(r) && multiset(r) == multiset(s) + multiset{x}
    ensures forall b :: UpTo(s, b) && x <= b ==> UpTo(r, b)
  {
    if s == [] || Compare(s[|s| - 1], x) <= 0 then
      SortedSnoc(s, x);
      s + [x]
    else
      var init, last := s[..|s| - 1], s[|s| - 1];
      assert s == init + [last] && UpTo(init, last);
      var t := Insert(init, x);
      SortedSnoc(t, last);
      t + [last]
  }

  /** What qsort with compare_u64 leaves in the buffer. */
  function SortedOf(s: seq<nat>): (r: seq<nat>)
    ensures IsSorted(r) && multiset(r) == multiset(s) && |r| == |s|
  {
    if s == [] then []
    else
      assert s == s[..|s| - 1] + [s[|s| - 1]];
      var r := Insert(SortedOf(s[..|s| - 1]), s[|s| - 1]);
      assert |r| == |multiset(r)| == |multiset(s)|;
      r
  }

  /** There is only one sorted arrangement, so every correct sort leaves the same buffer. */
  lemma {:induction false} SortedIsUnique(s: seq<nat>, t: seq<nat>)
    requires IsSorted(s) && IsSorted(t) && multiset(s) == multiset(t)
    ensures s == t
    decreases |s|
  {
    SameSize(s, t);
    if s == [] {
    } else {
      var n := |s| - 1;
      SameLast(s, t);
      LastRemoved(s);
      LastRemoved(t);
      SortedIsUnique(s[..n], t[..n]);
    }
  }

  lemma SameSize(s: seq<nat>, t: seq<nat>)
    requires multiset(s) == multiset(t)
    ensures |s| == |t|
  {
    assert |s| == |multiset(s)| == |multiset(t)| == |t|;
  }

  lemma LastRemoved(s: seq<nat>)
    requires s != []
    ensures s == s[..|s| - 1] + [s[|s| - 1]]
    ensures multiset(s[..|s| - 1]) == multiset(s) - multiset{s[|s| - 1]}
  {
    assert s == s[..|s| - 1] + [s[|s| - 1]];
  }

  lemma SameLast(s: seq<nat>, t: seq<nat>)
    requires IsSorted(s) && IsSorted(t) && multiset(s) == multiset(t) && |s| == |t| > 0
    ensures s[|s| - 1] == t[|t| - 1]
  {
    var n := |s| - 1;
    assert s[n] in multiset(t) && t[n] in multiset(s);
    var i :| 0 <= i < |t| && t[i] == s[n];
    var j :| 0 <= j < |s| && s[j] == t[n];
  }

  // ----- sums over samples

  function SumOf(f: nat -> real, s: seq<nat>): real {
    if s == [] then 0.0 else SumOf(f, s[..|s| - 1]) + f(s[|s| - 1])
  }

  lemma WithoutSnoc(s: seq<nat>, j: nat)
    requires j < |s| - 1
    ensures Without(s, j) == Without(s[..|s| - 1], j) + [s[|s| - 1]]
  {
  }

  lemma SumOfSnoc(f: nat -> real, s: seq<nat>, x: nat)
    ensures SumOf(f, s + [x]) == SumOf(f, s) + f(x)
  {
    assert (s + [x])[..|s|] == s;
  }

  lemma {:induction false} SumOfWithout(f: nat -> real, s: seq<nat>, j: nat)
    requires j < |s|
    ensures SumOf(f, s) == SumOf(f, Without(s, j)) + f(s[j])
  {
    var n := |s| - 1;
    if j == n {
      assert Without(s, j) == s[..n];
    } else {
      SumOfWithout(f, s[..n], j);
      WithoutSnoc(s, j);
      SumOfSnoc(f, Without(s[..n], j), s[n]);
    }
  }

  lemma WithoutMultiset(s: seq<nat>, j: nat)
    requires j < |s|
    ensures multiset(Without(s, j)) == multiset(s) - multiset{s[j]}
  {
    assert s == (s[..j] + [s[j]]) + s[j + 1..];
  }

  /** The last sample of one arrangement, found and removed in another. */
  lemma Matching(s: seq<nat>, t: seq<nat>) returns (j: nat)
    requires multiset(s) == multiset(t) && s != []
    ensures j < |t| && t[j] == s[|s| - 1] && multiset(Without(t, j)) == multiset(s[..|s| - 1])
  {
    assert s[|s| - 1] in multiset(s);
    j := IndexIn(t, s[|s| - 1]);
    WithoutMultiset(t, j);
    LastRemoved(s);
  }

  /** Sums do not depend on the order of the samples. */
  lemma {:induction false} SumOfPermuted(f: nat -> real, s: seq<nat>, t: seq<nat>)
    requires multiset(s) == multiset(t)
    ensures SumOf(f, s) == SumOf(f, t)
    decreases |s|
  {
    SameSize(s, t);
    if s == [] {
    } else {
      var j := Matching(s, t);
      SumOfWithout(f, t, j);
      SumOfPermuted(f, s[..|s| - 1], Without(t, j));
    }
  }

  lemma IndexIn(t: seq<nat>, x: nat) returns (j: nat)
    requires x in multiset(t)
    ensures j < |t| && t[j] == x
  {
    j :| j < |t| && t[j] == x;
  }

  lemma Distribute(k: real, m: real)
    ensures (k + 1.0) * m == k * m + m
  {
  }

  lemma Zero(x: real)
    ensures 0 as real * x == 0.0
  {
  }

  lemma LastTerm(f: nat -> real, s: seq<nat>)
    requires s != []
    ensures SumOf(f, s) == SumOf(f, s[..|s| - 1]) + f(s[|s| - 1])
  {
  }

  function Sample(): nat -> real { x => x as real }

  function Deviation(m: real): nat -> real { x => x as real - m }

  function Square(m: real): nat -> real { x => (x as real - m) * (x as real - m) }

  function AtMost(m: nat): nat -> real { x => if x <= m then 1.0 else 0.0 }

  function AtLeast(m: nat): nat -> real { x => if x >= m then 1.0 else 0.0 }

  // ----- the statistics

  function Mean(s: seq<nat>): real
    requires s != []
  {
    SumOf(Sample(), s) / |s| as real
  }

  function Variance(s: seq<nat>): real
    requires s != []
  {
    SumOf(Square(Mean(s)), s) / |s| as real
  }

  function StatsOf(s: seq<nat>): Stats {
    if s == [] then Stats(0, 0, 0, 0.0, 0.0)
    else
      var t := SortedOf(s);
      Stats(t[0], t[|t| / 2], t[|t| - 1], Mean(s), Variance(s))
  }

  method Qsort(a: array<nat>)
    modifies a
    ensures a[..] == SortedOf(old(a[..]))
  {
    var t := SortedOf(a[..]);
    forall i | 0 <= i < a.Length {
      a[i] := t[i];
    }
  }

  /** The two accumulation loops. */
  method Total(samples: seq<nat>) returns (total: real)
    ensures total == SumOf(Sample(), samples)
  {
    total := 0.0;
    var i := 0;
    while i < |samples|
      invariant 0 <= i <= |samples| && total == SumOf(Sample(), samples[..i])
    {
      assert samples[..i + 1] == samples[..i] + [samples[i]];
      SumOfSnoc(Sample(), samples[..i], samples[i]);
      total := total + samples[i] as real;
      i := i + 1;
    }
    assert samples[..i] == samples;
  }

  method SquaredDeviations(samples: seq<nat>, mean: real) returns (sum: real)
    ensures sum == SumOf(Square(mean), samples)
  {
    sum := 0.0;
    var i := 0;
    while i < |samples|
      invariant 0 <= i <= |samples| && sum == SumOf(Square(mean), samples[..i])
    {
      assert samples[..i + 1] == samples[..i] + [samples[i]];
      SumOfSnoc(Square(mean), samples[..i], samples[i]);
      var delta := samples[i] as real - mean;
      sum := sum + delta * delta;
      i := i + 1;
    }
    assert samples[..i] == samples;
  }

  method ProbeStatsFrom(samples: seq<nat>) returns (stats: Stats)
    ensures stats == StatsOf(samples)
  {
    var count := |samples|;
    if count == 0 { return Stats(0, 0, 0, 0.0, 0.0); }
    var sorted := new nat[count](i requires 0 <= i < count => samples[i]);
    assert sorted[..] == samples;
    Qsort(sorted);
    var total := Total(samples);
    var mean := total / count as real;
    var varianceSum := SquaredDeviations(samples, mean);
    stats := Stats(sorted[0], sorted[count / 2], sorted[count - 1], mean, varianceSum / count as real);
  }

  // ----- the mean and the variance in integers

  function Samples(s: seq<nat>): (f: seq<int>)
    ensures |f| == |s| && forall i :: 0 <= i < |s| ==> f[i] == s[i]
  {
    seq(|s|, i requires 0 <= i < |s| => s[i])
  }

  function Squares(s: seq<nat>): (f: seq<int>)
    ensures |f| == |s| && forall i :: 0 <= i < |s| ==> f[i] == s[i] * s[i]
  {
    seq(|s|, i requires 0 <= i < |s| => s[i] * s[i])
  }

  lemma LastSample(s: seq<nat>)
    requires s != []
    ensures Sum(Samples(s)) == Sum(Samples(s[..|s| - 1])) + s[|s| - 1]
    ensures Sum(Squares(s)) == Sum(Squares(s[..|s| - 1])) + s[|s| - 1] * s[|s| - 1]
  {
    var n := |s| - 1;
    assert Samples(s)[..n] == Samples(s[..n]) && Squares(s)[..n] == Squares(s[..n]);
  }

  lemma {:induction false} TotalIsInteger(s: seq<nat>)
    ensures SumOf(Sample(), s) == Sum(Samples(s)) as real
  {
    if s == [] {
    } else {
      TotalIsInteger(s[..|s| - 1]);
      LastSample(s);
    }
  }

  /** A sum of (x - m)^2 over n samples, multiplied out. */
  ghost predicate Expanded(sum: real, m: real, squares: int, total: int, n: nat) {
    sum == squares as real - 2.0 * m * total as real + n as real * (m * m)
  }

  lemma AddExpanded(sum: real, m: real, squares: int, total: int, n: nat, x: nat,
                    sum': real, squares': int, total': int)
    requires Expanded(sum, m, squares, total, n)
    requires sum' == sum + (x as real - m) * (x as real - m) && squares' == squares + x * x && total' == total + x
    ensures Expanded(sum', m, squares', total', n + 1)
  {
    var r := x as real;
    assert (x * x) as real == r * r;
    assert (r - m) * (r - m) == r * r - 2.0 * m * r + m * m;
    assert 2.0 * m * (total + x) as real == 2.0 * m * total as real + 2.0 * m * r;
    Distribute(n as real, m * m);
  }

  lemma LastSquare(s: seq<nat>, m: real)
    requires s != []
    ensures var x := s[|s| - 1] as real;
      SumOf(Square(m), s) == SumOf(Square(m), s[..|s| - 1]) + (x - m) * (x - m)
  {
    LastTerm(Square(m), s);
  }

  lemma {:induction false} SquaresExpanded(s: seq<nat>, m: real)
    ensures Expanded(SumOf(Square(m), s), m, Sum(Squares(s)), Sum(Samples(s)), |s|)
  {
    if s == [] {
      assert Samples(s) == [] && Squares(s) == [];
      Zero(m * m);
    } else {
      var n := |s| - 1;
      SquaresExpanded(s[..n], m);
      LastSample(s);
      LastSquare(s, m);
      AddExpanded(SumOf(Square(m), s[..n]), m, Sum(Squares(s[..n])), Sum(Samples(s[..n])), n, s[n],
                  SumOf(Square(m), s), Sum(Squares(s)), Sum(Samples(s)));
    }
  }

  lemma TimesQuotient(n: real, x: real)
    requires n > 0.0
    ensures n * (x / n) == x
  {
  }

  lemma VarianceArithmetic(n: real, mean: real, total: real, squares: real, sum: real, variance: real)
    requires n > 0.0 && mean == total / n && variance == sum / n
    requires sum == squares - 2.0 * mean * total + n * (mean * mean)
    ensures n * n * variance == n * squares - total * total
  {
    assert n * mean == total && n * variance == sum;
    assert n * n * variance == n * sum;
    assert n * (2.0 * mean * total) == 2.0 * (n * mean) * total;
    assert n * (n * (mean * mean)) == (n * mean) * (n * mean);
    assert n * sum == n * squares - n * (2.0 * mean * total) + n * (n * (mean * mean));
  }

  lemma SameProduct(n: nat, squares: int, total: int)
    ensures n as real * squares as real - total as real * total as real == (n * squares - total * total) as real
  {
    assert (n * squares) as real == n as real * squares as real;
    assert (total * total) as real == total as real * total as real;
  }

  ghost predicate MeanIs(mean: real, n: nat, total: int) {
    n as real * mean == total as real
  }

  ghost predicate VarianceIs(variance: real, n: nat, total: int, squares: int) {
    n as real * n as real * variance == (n * squares - total * total) as real
  }

  lemma MeanLaw(n: nat, total: int, mean: real)
    requires n > 0 && mean == total as real / n as real
    ensures MeanIs(mean, n, total)
  {
    TimesQuotient(n as real, total as real);
  }

  lemma VarianceLaw(n: nat, total: int, squares: int, mean: real, sum: real, variance: real)
    requires n > 0 && mean == total as real / n as real && variance == sum / n as real
    requires Expanded(sum, mean, squares, total, n)
    ensures VarianceIs(variance, n, total, squares)
  {
    VarianceArithmetic(n as real, mean, total as real, squares as real, sum, variance);
    SameProduct(n, squares, total);
  }

  lemma Parts(s: seq<nat>) returns (mean: real, sum: real)
    requires s != []
    ensures StatsOf(s).mean == mean == Sum(Samples(s)) as real / |s| as real
    ensures StatsOf(s).variance == sum / |s| as real
    ensures Expanded(sum, mean, Sum(Squares(s)), Sum(Samples(s)), |s|)
  {
    mean, sum := Mean(s), SumOf(Square(Mean(s)), s);
    TotalIsInteger(s);
    SquaresExpanded(s, mean);
  }

  /** Over n samples x the mean is sum(x) / n and the variance (n * sum(x^2) - sum(x)^2) / n^2. */
  lemma MeanAndVariance(s: seq<nat>)
    requires s != []
    ensures MeanIs(StatsOf(s).mean, |s|, Sum(Samples(s)))
    ensures VarianceIs(StatsOf(s).variance, |s|, Sum(Samples(s)), Sum(Squares(s)))
  {
    var n, total, squares := |s|, Sum(Samples(s)), Sum(Squares(s));
    var mean, variance := StatsOf(s).mean, StatsOf(s).variance;
    var _, sum := Parts(s);
    MeanLaw(n, total, mean);
    VarianceLaw(n, total, squares, mean, sum, variance);
  }

  // ----- invariance and order

  /** All statistics depend only on which samples there are, not on their order. */
  lemma OrderIrrelevant(s: seq<nat>, t: seq<nat>)
    requires multiset(s) == multiset(t)
    ensures StatsOf(s) == StatsOf(t)
  {
    assert |s| == |multiset(s)| == |multiset(t)| == |t|;
    if s != [] {
      SortedIsUnique(SortedOf(s), SortedOf(t));
      SumOfPermuted(Sample(), s, t);
      SumOfPermuted(Square(Mean(s)), s, t);
    }
  }

  /** min and max are samples and bound all of them; the median lies between. */
  lemma Extremes(s: seq<nat>, x: nat)
    requires x in s
    ensures StatsOf(s).min <= x <= StatsOf(s).max
    ensures StatsOf(s).min in s && StatsOf(s).max in s && StatsOf(s).median in s
    ensures StatsOf(s).min <= StatsOf(s).median <= StatsOf(s).max
  {
    var t := SortedOf(s);
    assert x in multiset(t);
    var i :| 0 <= i < |t| && t[i] == x;
    assert t[0] in multiset(s) && t[|t| - 1] in multiset(s) && t[|t| / 2] in multiset(s);
  }

  lemma {:induction false} CountPrefix(t: seq<nat>, k: nat, m: nat)
    requires IsSorted(t) && k < |t| && m == t[k]
    ensures SumOf(AtMost(m), t) >= (k + 1) as real
    decreases |t|
  {
    var n := |t| - 1;
    if k < n {
      CountPrefix(t[..n], k, m);
    } else {
      AllCounted(t, m);
    }
  }

  lemma {:induction false} AllCounted(t: seq<nat>, m: nat)
    requires forall i :: 0 <= i < |t| ==> t[i] <= m
    ensures SumOf(AtMost(m), t) == |t| as real
  {
    if t == [] {
    } else {
      AllCounted(t[..|t| - 1], m);
    }
  }

  lemma {:induction false} CountSuffix(t: seq<nat>, k: nat, m: nat)
    requires IsSorted(t) && k <= |t| && (k < |t| ==> m <= t[k])
    ensures SumOf(AtLeast(m), t) >= (|t| - k) as real
    decreases |t|
  {
    var n := |t| - 1;
    if k < |t| {
      CountSuffix(t[..n], k, m);
    } else {
      CountNonNegative(t, m);
    }
  }

  lemma {:induction false} CountNonNegative(t: seq<nat>, m: nat)
    ensures SumOf(AtLeast(m), t) >= 0.0
  {
    if t == [] {
    } else {
      CountNonNegative(t[..|t| - 1], m);
    }
  }

  /** At least count/2 + 1 samples are at most the median, at least count - count/2 are at least it. */
  lemma MedianSplits(s: seq<nat>)
    requires s != []
    ensures SumOf(AtMost(StatsOf(s).median), s) >= (|s| / 2 + 1) as real
    ensures SumOf(AtLeast(StatsOf(s).median), s) >= (|s| - |s| / 2) as real
  {
    var t, m := SortedOf(s), StatsOf(s).median;
    CountPrefix(t, |t| / 2, m);
    CountSuffix(t, |t| / 2, m);
    SumOfPermuted(AtMost(m), s, t);
    SumOfPermuted(AtLeast(m), s, t);
  }

  // ----- inequalities

  lemma {:induction false} DeviationsSum(s: seq<nat>, m: real)
    ensures SumOf(Deviation(m), s) == SumOf(Sample(), s) - |s| as real * m
  {
    if s == [] {
    } else {
      DeviationsSum(s[..|s| - 1], m);
      Distribute((|s| - 1) as real, m);
    }
  }

  lemma DeviationsCancel(s: seq<nat>)
    requires s != []
    ensures SumOf(Deviation(Mean(s)), s) == 0.0
  {
    DeviationsSum(s, Mean(s));
  }

  lemma {:induction false} SumBounds(s: seq<nat>, lo: real, hi: real)
    requires forall i :: 0 <= i < |s| ==> lo <= s[i] as real <= hi
    ensures |s| as real * lo <= SumOf(Sample(), s) <= |s| as real * hi
  {
    if s == [] {
      Zero(lo);
      Zero(hi);
    } else {
      var n := |s| - 1;
      SumBounds(s[..n], lo, hi);
      Distribute(n as real, lo);
      Distribute(n as real, hi);
      assert |s| as real == n as real + 1.0;
    }
  }

  lemma AllBetween(s: seq<nat>) returns (lo: nat, hi: nat)
    requires s != []
    ensures lo == StatsOf(s).min && hi == StatsOf(s).max && lo <= hi
    ensures forall i :: 0 <= i < |s| ==> lo <= s[i] <= hi
  {
    lo, hi := StatsOf(s).min, StatsOf(s).max;
    forall i | 0 <= i < |s| ensures lo <= s[i] <= hi { Extremes(s, s[i]); }
    Extremes(s, s[0]);
  }

  lemma MeanBounds(s: seq<nat>, lo: real, hi: real)
    requires s != [] && forall i :: 0 <= i < |s| ==> lo <= s[i] as real <= hi
    ensures lo <= Mean(s) <= hi
  {
    SumBounds(s, lo, hi);
    DivideBounds(|s| as real, lo, hi, SumOf(Sample(), s));
  }

  lemma MeanBetween(s: seq<nat>)
    requires s != []
    ensures StatsOf(s).min as real <= StatsOf(s).mean <= StatsOf(s).max as real
  {
    var lo, hi := AllBetween(s);
    MeanBounds(s, lo as real, hi as real);
  }

  // arithmetic of single terms

  lemma NonNegativeSquare(z: real)
    ensures z * z >= 0.0
  {
  }

  lemma SameSign(a: real, b: real)
    requires (a >= 0.0 && b >= 0.0) || (a <= 0.0 && b <= 0.0)
    ensures a * b >= 0.0
  {
  }

  lemma Scale(n: real, a: real, b: real)
    requires n > 0.0
    ensures n * a <= n * b <==> a <= b
  {
  }

  lemma DivideBounds(n: real, lo: real, hi: real, total: real)
    requires n > 0.0 && n * lo <= total <= n * hi
    ensures lo <= total / n <= hi
  {
    var q := total / n;
    assert total == n * q;
    Scale(n, lo, q);
    Scale(n, q, hi);
  }

  /** One sample's share of the bound on the distance between median and mean. */
  lemma OneSample(y: real, d: real, beyond: bool)
    requires beyond ==> (d >= 0.0 && y >= d) || (d <= 0.0 && y <= d)
    ensures y * y + 2.0 * d * y + d * d >= 4.0 * d * d * if beyond then 1.0 else 0.0
  {
    if beyond {
      SameSign(y - d, y + 3.0 * d);
      assert (y - d) * (y + 3.0 * d) == y * y + 2.0 * d * y - 3.0 * (d * d);
    } else {
      NonNegativeSquare(y + d);
      assert (y + d) * (y + d) == y * y + 2.0 * d * y + d * d;
    }
  }

  /** The accumulated bound of n samples. */
  ghost predicate FarBound(squares: real, deviations: real, n: real, count: real, d: real) {
    squares + 2.0 * d * deviations + n * (d * d) >= 4.0 * d * d * count
  }

  lemma AddShare(squares: real, deviations: real, n: real, count: real, d: real, sq: real, y: real, one: real)
    requires FarBound(squares, deviations, n, count, d)
    requires sq == y * y && y * y + 2.0 * d * y + d * d >= 4.0 * d * d * one
    ensures FarBound(squares + sq, deviations + y, n + 1.0, count + one, d)
  {
    Distribute(n, d * d);
    assert 2.0 * d * (deviations + y) == 2.0 * d * deviations + 2.0 * d * y;
    assert 4.0 * d * d * (count + one) == 4.0 * d * d * count + 4.0 * d * d * one;
  }

  /** The samples on the far side of the median. */
  predicate IsBeyond(median: nat, d: real, x: nat) {
    if d >= 0.0 then x >= median else x <= median
  }

  function Beyond(median: nat, d: real): nat -> real {
    (x: nat) => if IsBeyond(median, d, x) then 1.0 else 0.0
  }

  lemma {:induction false} FarSide(s: seq<nat>, mean: real, median: nat, d: real)
    requires d == median as real - mean
    ensures FarBound(SumOf(Square(mean), s), SumOf(Deviation(mean), s), |s| as real, SumOf(Beyond(median, d), s), d)
  {
    if s == [] {
    } else {
      var n := |s| - 1;
      var x, y := s[n], s[n] as real - mean;
      FarSide(s[..n], mean, median, d);
      OneSample(y, d, IsBeyond(median, d, x));
      AddShare(SumOf(Square(mean), s[..n]), SumOf(Deviation(mean), s[..n]), n as real,
               SumOf(Beyond(median, d), s[..n]), d, Square(mean)(x), y, Beyond(median, d)(x));
      LastTerm(Square(mean), s);
      LastTerm(Deviation(mean), s);
      LastTerm(Beyond(median, d), s);
    }
  }

  lemma {:induction false} BeyondIsHalf(s: seq<nat>, median: nat, d: real)
    ensures SumOf(Beyond(median, d), s) == if d >= 0.0 then SumOf(AtLeast(median), s) else SumOf(AtMost(median), s)
  {
    if s == [] {
    } else {
      BeyondIsHalf(s[..|s| - 1], median, d);
    }
  }

  lemma HalfOf(n: nat, c: real, k: nat)
    requires c >= k as real && 2 * k >= n
    ensures 2.0 * c >= n as real
  {
  }

  lemma HalfIsEnough(n: real, d: real, c: real, squares: real)
    requires n > 0.0 && 2.0 * c >= n && FarBound(squares, 0.0, n, c, d)
    ensures d * d <= squares / n
  {
    NonNegativeSquare(d);
    SameSign(d * d, 2.0 * c - n);
    assert d * d * (2.0 * c - n) == d * d * (2.0 * c) - n * (d * d);
    assert 4.0 * d * d * c == 2.0 * (d * d * (2.0 * c));
    var q := squares / n;
    assert squares == n * q;
    Scale(n, d * d, q);
  }

  lemma MedianWithinDeviation(s: seq<nat>, mean: real, median: nat, d: real)
    requires s != [] && d == median as real - mean && SumOf(Deviation(mean), s) == 0.0
    requires 2.0 * SumOf(Beyond(median, d), s) >= |s| as real
    ensures NearMean(median as real, mean, SumOf(Square(mean), s) / |s| as real)
  {
    FarSide(s, mean, median, d);
    HalfIsEnough(|s| as real, d, SumOf(Beyond(median, d), s), SumOf(Square(mean), s));
  }

  lemma HalfBeyond(s: seq<nat>, d: real)
    requires s != []
    ensures 2.0 * SumOf(Beyond(StatsOf(s).median, d), s) >= |s| as real
  {
    MedianSplits(s);
    BeyondIsHalf(s, StatsOf(s).median, d);
    HalfOf(|s|, SumOf(Beyond(StatsOf(s).median, d), s), if d >= 0.0 then |s| - |s| / 2 else |s| / 2 + 1);
  }

  ghost predicate NearMean(median: real, mean: real, variance: real) {
    (median - mean) * (median - mean) <= variance
  }

  /** (median - mean)^2 <= variance */
  lemma MedianNearMean(s: seq<nat>)
    requires s != []
    ensures NearMean(StatsOf(s).median as real, StatsOf(s).mean, StatsOf(s).variance)
  {
    var median, mean := StatsOf(s).median, Mean(s);
    var d := median as real - mean;
    DeviationsCancel(s);
    HalfBeyond(s, d);
    MedianWithinDeviation(s, mean, median, d);
  }

  lemma OneSpread(y: real, a: real, b: real)
    requires -a <= y <= b
    ensures a * b + (b - a) * y - y * y >= 0.0
  {
    SameSign(y + a, b - y);
    assert (y + a) * (b - y) == a * b + (b - a) * y - y * y;
  }

  ghost predicate SpreadBound(n: real, a: real, b: real, deviations: real, squares: real) {
    n * (a * b) + (b - a) * deviations - squares >= 0.0
  }

  lemma AddSpread(n: real, a: real, b: real, deviations: real, squares: real, y: real, sq: real)
    requires SpreadBound(n, a, b, deviations, squares)
    requires sq == y * y && a * b + (b - a) * y - y * y >= 0.0
    ensures SpreadBound(n + 1.0, a, b, deviations + y, squares + sq)
  {
    Distribute(n, a * b);
    assert (b - a) * (deviations + y) == (b - a) * deviations + (b - a) * y;
  }

  lemma {:induction false} SpreadSum(s: seq<nat>, mean: real, a: real, b: real)
    requires forall i :: 0 <= i < |s| ==> mean - a <= s[i] as real <= mean + b
    ensures SpreadBound(|s| as real, a, b, SumOf(Deviation(mean), s), SumOf(Square(mean), s))
  {
    if s == [] {
    } else {
      var n := |s| - 1;
      var y := s[n] as real - mean;
      SpreadSum(s[..n], mean, a, b);
      OneSpread(y, a, b);
      AddSpread(n as real, a, b, SumOf(Deviation(mean), s[..n]), SumOf(Square(mean), s[..n]), y, Square(mean)(s[n]));
      LastTerm(Square(mean), s);
      LastTerm(Deviation(mean), s);
    }
  }

  lemma SpreadIsEnough(n: real, a: real, b: real, squares: real)
    requires n > 0.0 && SpreadBound(n, a, b, 0.0, squares)
    ensures 4.0 * (squares / n) <= (a + b) * (a + b)
  {
    var q := squares / n;
    assert squares == n * q;
    Scale(n, q, a * b);
    NonNegativeSquare(a - b);
    assert (a + b) * (a + b) - 4.0 * (a * b) == (a - b) * (a - b);
  }

  ghost predicate WithinRange(variance: real, lo: real, hi: real) {
    4.0 * variance <= (hi - lo) * (hi - lo)
  }

  lemma VarianceBound(s: seq<nat>, lo: real, hi: real)
    requires s != [] && forall i :: 0 <= i < |s| ==> lo <= s[i] as real <= hi
    ensures WithinRange(Variance(s), lo, hi)
  {
    var mean := Mean(s);
    var a, b := mean - lo, hi - mean;
    SpreadSum(s, mean, a, b);
    DeviationsCancel(s);
    SpreadIsEnough(|s| as real, a, b, SumOf(Square(mean), s));
    assert a + b == hi - lo;
  }

  /** 4 * variance <= (max - min)^2 */
  lemma VarianceWithinRange(s: seq<nat>)
    requires s != []
    ensures WithinRange(StatsOf(s).variance, StatsOf(s).min as real, StatsOf(s).max as real)
  {
    var lo, hi := AllBetween(s);
    VarianceBound(s, lo as real, hi as real);
  }
}
