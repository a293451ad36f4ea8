/** Call kernels of the front-end probes (apple/src/advanced_cpu_probes.c): indirect calls fanned out
    over tiny functions, and recursion. */
module FrontendKernels {
  import opened NumberTheory
  import opened Bits
  import opened Permutations

  /** tiny_n: adds n + 1. */
  function Tiny(n: nat, x: nat): nat { W64(x + (n + 1)) }

  /** `(i * 17U) & mask` */
  function Target(i: nat, mask: nat): nat { And(W64(i * 17), mask) }

  /** What the calls of one lap add. */
  function LapCosts(count: nat): (g: seq<int>)
    requires 0 < count
    ensures |g| == count && forall j :: 0 <= j < count ==> g[j] == (0 + j * 17) % count + 1
  {
    seq(count, j => (0 + j * 17) % count + 1)
  }

  lemma TargetIsRemainder(i: nat, count: nat)
    requires IsPow2(count) && count <= 64
    ensures Target(i, count - 1) == (i * 17) % count
  {
    var k: nat :| count == Pow2(k);
    Pow2Monotone(7, k);
    assert Pow2(7) == 128;
    AndMask(W64(i * 17), k);
    WrapThenMask(i * 17, k);
  }

  /** Every `count` consecutive calls, from any position on, hit every target exactly once. */
  lemma EachTargetOnce(start: nat, count: nat)
    requires IsPow2(count) && count <= 64
    ensures IsPerm(Strided(count, 17, start * 17))
    ensures forall j: nat :: j < count ==> Strided(count, 17, start * 17)[j] == Target(start + j, count - 1)
  {
    var k: nat :| count == Pow2(k);
    OddCoprime(17, k);
    StridedIsPerm(count, 17, start * 17);
    forall j: nat | j < count ensures (start * 17 + j * 17) % count == Target(start + j, count - 1) {
      TargetIsRemainder(start + j, count);
      assert (start + j) * 17 == start * 17 + j * 17;
    }
  }

  lemma SameInEveryLap(i: nat, count: nat)
    requires 0 < count
    ensures (i * 17) % count == (0 + i % count * 17) % count
  {
    ModMul(i, 17, count);
  }

  method IndirectFanout(count: nat, iters: nat) returns (x: nat)
    requires IsPow2(count) && count <= 64
    ensures x == W64(1 + LapSum(LapCosts(count), iters))
  {
    x := 1;
    var mask := count - 1;
    ghost var g := LapCosts(count);
    var i := 0;
    while i < iters
      invariant 0 <= i <= iters && x == W64(1 + LapSum(g, i))
    {
      TargetIsRemainder(i, count);
      SameInEveryLap(i, count);
      WrapAdd(1 + LapSum(g, i), g[i % count], x);
      x := Tiny(Target(i, mask), x);
      i := i + 1;
    }
  }

  /** One lap calls tiny_0 to tiny_(count-1) in some order. */
  lemma LapTotal(count: nat)
    requires IsPow2(count) && count <= 64
    ensures 2 * Sum(LapCosts(count)) == count * (count + 1)
  {
    var ordered: seq<int> := seq(count, j => j + 1);
    EachTargetOnce(0, count);
    assert LapCosts(count) == Gather(ordered, Strided(count, 17, 0));
    SumOverPerm(ordered, Strided(count, 17, 0));
    CountUp(ordered);
  }

  /** Over r laps the calls add r * count * (count + 1) / 2. */
  lemma FanoutOverLaps(count: nat, r: nat)
    requires IsPow2(count) && count <= 64
    ensures 2 * LapSum(LapCosts(count), r * count) == r * (count * (count + 1))
  {
    LapTotal(count);
    LapSumOfLaps(LapCosts(count), r);
    Double(r, Sum(LapCosts(count)));
  }

  lemma Double(r: int, x: int)
    ensures 2 * (r * x) == r * (2 * x)
  {
  }

  lemma {:induction false} CountUp(f: seq<int>)
    requires forall j :: 0 <= j < |f| ==> f[j] == j + 1
    ensures 2 * Sum(f) == |f| * (|f| + 1)
  {
    if f == [] {
    } else {
      CountUp(f[..|f| - 1]);
    }
  }

  /** What a recursion returns, and how many invocations it made. */
  datatype Recursion = Recursion(value: nat, calls: nat)

  /** ras_recurse */
  function RasRecurse(depth: nat, x: nat): Recursion {
    if depth == 0 then Recursion(W64(x + 1), 1)
    else
      var inner := RasRecurse(depth - 1, W64(x + 1));
      Recursion(W64(inner.value + 1), inner.calls + 1)
  }

  lemma {:induction false} RasResult(depth: nat, x: nat)
    ensures RasRecurse(depth, x).value == W64(x + 2 * depth + 1)
    ensures RasRecurse(depth, x).calls == depth + 1
  {
    if depth == 0 {
    } else {
      RasResult(depth - 1, W64(x + 1));
      WrapAdd(x + 1, 2 * depth - 1, W64(x + 1));
      WrapAdd(x + 2 * depth, 1, W64(x + 2 * depth));
    }
  }

  /** `calls` counts the invocations: the probe reports depth + 1 operations per iteration. */
  method RasDepth(depth: nat, iters: nat) returns (sum: nat, calls: nat)
    ensures sum == W64(iters * (2 * depth + 1) + iters * (iters - 1) / 2)
    ensures calls == iters * (depth + 1)
  {
    sum, calls := 0, 0;
    ghost var total := 0;
    var i := 0;
    while i < iters
      invariant 0 <= i <= iters && sum == W64(total) && calls == i * (depth + 1)
      invariant 2 * total == 2 * (i * (2 * depth + 1)) + i * (i - 1)
    {
      RasResult(depth, i);
      WrapAdd(total, W64(i + 2 * depth + 1), sum);
      WrapAdd(i + 2 * depth + 1, total, W64(i + 2 * depth + 1));
      var r := RasRecurse(depth, i);
      sum := W64(sum + r.value);
      calls := calls + r.calls;
      OneMoreRound(i, 2 * depth + 1);
      OneMoreRound(i, depth + 1);
      total := total + i + 2 * depth + 1;
      i := i + 1;
    }
  }

  lemma OneMoreRound(i: nat, d: nat)
    ensures (i + 1) * d == i * d + d && (i + 1) * i == i * (i - 1) + 2 * i
  {
  }
}
