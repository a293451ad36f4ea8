/** The randomized memory streams (apple/src/advanced_cpu_probes.c): the index table, the buffers, and
    the load, store and read-modify-write kernels that walk the table lap after lap. */
module RandomMem {
  import opened NumberTheory
  import opened Bits
  import opened Permutations
  import opened NextPow2

  // ----- the index table

  function TableStep(count: nat): (m: nat)
    ensures m % 2 == 1
  {
    if count > 65536 then 65537 else 8191
  }

  /** What fill_permutation stores: a masked 64-bit product, truncated to 32 bits. */
  function IndexTable(count: nat): (t: seq<nat>)
    ensures |t| == count
    ensures forall i :: 0 <= i < count ==> t[i] == W32(And(W64(i * TableStep(count)), count - 1))
  {
    seq(count, i requires 0 <= i < count => W32(And(W64(i * TableStep(count)), count - 1)))
  }

  method FillPermutation(idx: array<nat>)
    requires idx.Length < TWO64
    modifies idx
    ensures idx[..] == IndexTable(idx.Length)
  {
    var count := idx.Length;
    var mask := W64(count - 1);
    var step := if count > 65536 then 65537 else 8191;
    if And(step, 1) == 0 {
      step := step + 1;
    }
    StepIsOdd(step);
    var i := 0;
    while i < count
      invariant 0 <= i <= count
      invariant forall j :: 0 <= j < i ==> idx[j] == IndexTable(count)[j]
    {
      SmallMod(count - 1, TWO64);
      idx[i] := W32(And(W64(i * step), mask));
      i := i + 1;
    }
  }

  lemma StepIsOdd(step: nat)
    ensures And(step, 1) == step % 2
  {
    assert Pow2(1) == 2;
    AndMask(step, 1);
  }

  lemma EntryIsRemainder(count: nat, i: nat)
    requires IsPow2(count) && count <= TWO32 && i < count
    ensures IndexTable(count)[i] == (i * TableStep(count)) % count
  {
    var k: nat :| count == Pow2(k);
    Pow2At32();
    Pow2Monotone(33, k);
    assert Pow2(33) == 2 * Pow2(32);
    AndMask(W64(i * TableStep(count)), k);
    WrapThenMask(i * TableStep(count), k);
    SmallMod((i * TableStep(count)) % count, TWO32);
  }

  /** The table is a permutation exactly for powers of two up to 2^32: on any other count the mask
      skips an index, and beyond 2^32 the truncation to uint32_t does. */
  lemma TableIsPermutation(count: nat)
    requires 0 < count < TWO64
    ensures IsPerm(IndexTable(count)) <==> IsPow2(count) && count <= TWO32
  {
    var t := IndexTable(count);
    if IsPow2(count) && count <= TWO32 {
      var k: nat :| count == Pow2(k);
      OddCoprime(TableStep(count), k);
      StridedIsPerm(count, TableStep(count), 0);
      forall i | 0 <= i < count ensures t[i] == Strided(count, TableStep(count), 0)[i] {
        EntryIsRemainder(count, i);
      }
      assert t == Strided(count, TableStep(count), 0);
    } else if IsPerm(t) {
      if count > TWO32 {
        Pigeonhole(t, TWO32);
      } else {
        GapInTable(count);
      }
    }
  }

  /** From entry to entry the table moves by 8191, or by 65537 beyond 65536 entries, around the buffer. */
  lemma TableSteps(count: nat, i: nat)
    requires IsPow2(count) && count <= TWO32 && i < count
    ensures IndexTable(count)[0] == 0
    ensures i + 1 < count ==>
      IndexTable(count)[i + 1] == (IndexTable(count)[i] + if count <= 65536 then 8191 else 65537) % count
  {
    var m := TableStep(count);
    EntryIsRemainder(count, 0);
    SmallMod(0, count);
    EntryIsRemainder(count, i);
    if i + 1 < count {
      EntryIsRemainder(count, i + 1);
      ModAdd(i * m, m, count);
      assert (i + 1) * m == i * m + m;
    }
  }

  /** Tables of up to 8192 entries, the 64 KiB buffer among them, simply descend. */
  lemma SmallTablesDescend(count: nat, i: nat)
    requires IsPow2(count) && count <= 8192 && 0 < i < count
    ensures IndexTable(count)[i] == count - i
  {
    var k: nat :| count == Pow2(k);
    assert Pow2(13) == 8192;
    Pow2Monotone(14, k);
    Pow2Divides(k, 13);
    var q := Quotient(count, 8192);
    EntryIsRemainder(count, i);
    DescendingEntry(i, count, q);
  }

  lemma DescendingEntry(i: nat, count: nat, q: int)
    requires 0 < i < count && 8192 == q * count
    ensures (i * 8191) % count == count - i
  {
    assert i * 8191 == i * (q * count) - i;
    assert i * (q * count) - i == (i * q - 1) * count + (count - i);
    DivModUnique(i * 8191, count, i * q - 1, count - i);
  }

  lemma GapInTable(count: nat)
    requires 0 < count <= TWO32 && !IsPow2(count)
    ensures !IsPerm(IndexTable(count))
  {
    var t := IndexTable(count);
    var gap := GapBelowMask(count);
    if IsPerm(t) {
      var i := Hits(t, gap);
      SmallMod(And(W64(i * TableStep(count)), count - 1), TWO32);
    }
  }

  // ----- what the kernels compute, lap by lap

  /** Over r laps the load kernel returns r times the plain sum of the buffer. */
  lemma LoadOverLaps(data: seq<int>, idx: seq<nat>, r: nat)
    requires IsPerm(idx) && |data| == |idx| && 0 < |idx|
    ensures LapSum(Gather(data, idx), r * |idx|) == r * Sum(data)
  {
    LapSumOfLaps(Gather(data, idx), r);
    SumOverPerm(data, idx);
  }

  const STORE_BASE: nat := 0x1234_5678_9abc_def0

  /** Cell j of the table order (the one `idx[j]` names) after n iterations of the store kernel. */
  function Stored(n: nat, j: nat, count: nat, before: int): int
    requires 0 < count
  {
    if n == 0 then before
    else if (n - 1) % count == j then W64(STORE_BASE + (n - 1))
    else Stored(n - 1, j, count, before)
  }

  /** The same cell under the read-modify-write kernel. */
  function Updated(n: nat, j: nat, count: nat, before: int): int
    requires 0 < count
  {
    if n == 0 then before
    else if (n - 1) % count == j then W64(Updated(n - 1, j, count, before) + (n - 1))
    else Updated(n - 1, j, count, before)
  }

  /** Sum of the iteration numbers below n that visit cell j. */
  function VisitSum(n: nat, j: nat, count: nat): nat
    requires 0 < count
  {
    if n == 0 then 0 else VisitSum(n - 1, j, count) + if (n - 1) % count == j then n - 1 else 0
  }

  lemma {:induction false} UpdatedIsSum(n: nat, j: nat, count: nat, before: int)
    requires 0 < count && 0 <= before < TWO64
    ensures Updated(n, j, count, before) == W64(before + VisitSum(n, j, count))
  {
    if n == 0 {
      SmallMod(before, TWO64);
    } else {
      UpdatedIsSum(n - 1, j, count, before);
      WrapAdd(before + VisitSum(n - 1, j, count), n - 1, Updated(n - 1, j, count, before));
    }
  }

  /** Between its visits a cell keeps its value: k steps into lap r, cells below k were visited. */
  lemma {:induction false} StoredAfterLaps(r: nat, k: nat, j: nat, count: nat, before: int)
    requires j < count && k <= count
    ensures Stored(r * count + k, j, count, before) ==
      if j < k then W64(STORE_BASE + (r * count + j))
      else if r > 0 then W64(STORE_BASE + ((r - 1) * count + j))
      else before
    decreases r, k
  {
    if k == 0 && r == 0 {
    } else if k > 0 {
      StoredAfterLaps(r, k - 1, j, count, before);
      DivModUnique(r * count + k - 1, count, r, k - 1);
    } else {
      StoredAfterLaps(r - 1, count, j, count, before);
      OneMore(r, count);
    }
  }

  lemma {:induction false} VisitsAfterLaps(r: nat, k: nat, j: nat, count: nat)
    requires j < count && k <= count
    ensures 2 * VisitSum(r * count + k, j, count) ==
      var v := if j < k then r + 1 else r; v * (2 * j + (v - 1) * count)
    decreases r, k
  {
    if k == 0 && r == 0 {
    } else if k > 0 {
      VisitsAfterLaps(r, k - 1, j, count);
      DivModUnique(r * count + k - 1, count, r, k - 1);
      if j == k - 1 { OneMoreVisit(r, j, count); }
    } else {
      VisitsAfterLaps(r - 1, count, j, count);
      OneMore(r, count);
    }
  }

  /** Over r laps the store kernel leaves the last lap's value in every cell, and the
      read-modify-write kernel adds the iteration numbers j, j + count, ..., j + (r-1) * count. */
  lemma OverLaps(r: nat, j: nat, count: nat, before: int)
    requires 0 < r && j < count && 0 <= before < TWO64
    ensures Stored(r * count, j, count, before) == W64(0x1234_5678_9abc_def0 + ((r - 1) * count + j))
    ensures Updated(r * count, j, count, before) == W64(before + VisitSum(r * count, j, count))
    ensures 2 * VisitSum(r * count, j, count) == r * (2 * j + (r - 1) * count)
  {
    StoredAfterLaps(r, 0, j, count, before);
    VisitsAfterLaps(r, 0, j, count);
    UpdatedIsSum(r * count, j, count, before);
  }

  lemma OneMoreVisit(v: nat, j: nat, count: nat)
    ensures v * (2 * j + (v - 1) * count) + 2 * (v * count + j) == (v + 1) * (2 * j + v * count)
  {
    assert v * (v - 1) == v * v - v;
    assert v * ((v - 1) * count) == (v * v) * count - v * count;
    assert (v + 1) * (v * count) == (v * v) * count + v * count;
  }

  /** The exact sum of the values the read-modify-write kernel writes. */
  function WrittenSum(n: nat, g: seq<int>): int
    requires 0 < |g|
  {
    if n == 0 then 0
    else WrittenSum(n - 1, g) + Updated(n, (n - 1) % |g|, |g|, g[(n - 1) % |g|])
  }

  /** The same sum before any wrapping: iteration n - 1 writes the first value of its cell plus the
      iteration numbers of all visits so far. */
  function ExactWritten(n: nat, g: seq<int>): int
    requires 0 < |g|
  {
    if n == 0 then 0
    else ExactWritten(n - 1, g) + g[(n - 1) % |g|] + VisitSum(n, (n - 1) % |g|, |g|)
  }

  lemma {:induction false} WrittenIsExact(n: nat, g: seq<int>)
    requires 0 < |g| && forall j :: 0 <= j < |g| ==> 0 <= g[j] < TWO64
    ensures W64(WrittenSum(n, g)) == W64(ExactWritten(n, g))
  {
    if n == 0 {
    } else {
      var j := (n - 1) % |g|;
      WrittenIsExact(n - 1, g);
      UpdatedIsSum(n, j, |g|, g[j]);
      AddWrapped(WrittenSum(n - 1, g), ExactWritten(n - 1, g), g[j] + VisitSum(n, j, |g|));
    }
  }

  lemma AddWrapped(x: int, y: int, z: int)
    requires W64(x) == W64(y)
    ensures W64(x + W64(z)) == W64(y + z)
  {
    ModAdd(z, x, TWO64);
    ModAdd(x, z, TWO64);
    ModAdd(y, z, TWO64);
  }

  /** Iteration k of lap r + 1 is the visit r + 1 of cell k - 1. */
  lemma ExactStep(r: nat, base: nat, k: nat, g: seq<int>)
    requires 0 < k <= |g| && base == r * |g|
    ensures ExactWritten(base + k, g) == ExactWritten(base + (k - 1), g) + g[k - 1] + VisitSum(base + k, k - 1, |g|)
    ensures 2 * VisitSum(base + k, k - 1, |g|) == (r + 1) * (2 * (k - 1) + base)
  {
    DivModUnique(base + (k - 1), |g|, r, k - 1);
    VisitsAfterLaps(r, k, k - 1, |g|);
  }

  /** k iterations into lap r + 1. */
  lemma {:induction false} ExactWithinLap(r: nat, base: nat, k: nat, g: seq<int>)
    requires k <= |g| && 0 < |g| && base == r * |g|
    ensures 2 * ExactWritten(base + k, g) ==
      2 * ExactWritten(base, g) + 2 * Sum(g[..k]) + (r + 1) * (k * (k - 1) + k * base)
  {
    if k == 0 {
      NoIterations(r, base, k);
    } else {
      ExactWithinLap(r, base, k - 1, g);
      ExactStep(r, base, k, g);
      assert g[..k] == g[..k - 1] + [g[k - 1]];
      SumSnoc(g[..k - 1], g[k - 1]);
      OneMoreWrite(r + 1, k, base);
    }
  }

  lemma NoIterations(r: nat, c: nat, k: nat)
    requires k == 0
    ensures (r + 1) * (k * (k - 1) + k * c) == 0
  {
    assert k * (k - 1) == 0 && k * c == 0;
  }

  lemma OneMoreWrite(v: nat, k: nat, c: nat)
    ensures v * ((k - 1) * ((k - 1) - 1) + (k - 1) * c) + v * (2 * (k - 1) + c) == v * (k * (k - 1) + k * c)
  {
    var x, y := (k - 1) * ((k - 1) - 1) + (k - 1) * c, 2 * (k - 1) + c;
    assert x + y == k * (k - 1) + k * c;
    assert v * x + v * y == v * (x + y);
  }

  /** What the read-modify-write kernel returns, before wrapping, after r laps over `count` cells that
      first held words with the given sum: twelve times it is RmwTotal. */
  function RmwTotal(r: nat, count: nat, sum: int): int {
    12 * (r * sum) + 3 * (r * (r + 1)) * (count * (count - 1)) + 2 * ((r - 1) * r * (r + 1)) * (count * count)
  }

  lemma {:induction false} ExactOverLaps(r: nat, g: seq<int>)
    requires 0 < |g|
    ensures 12 * ExactWritten(r * |g|, g) == RmwTotal(r, |g|, Sum(g))
  {
    if r == 0 {
      NoLaps(|g|, Sum(g));
    } else {
      ExactOverLaps(r - 1, g);
      ExactWithinLap(r - 1, (r - 1) * |g|, |g|, g);
      assert g[..|g|] == g;
      OneMore(r, |g|);
      OneMoreLap(r, |g|, Sum(g));
    }
  }

  lemma NoLaps(count: nat, sum: int)
    ensures RmwTotal(0, count, sum) == 0
  {
  }

  lemma OneMoreProduct(r: nat)
    ensures r * (r + 1) == (r - 1) * (r - 1 + 1) + 2 * r
    ensures (r - 1) * r * (r + 1) == (r - 1 - 1) * (r - 1) * (r - 1 + 1) + 3 * ((r - 1) * r)
  {
    var m := (r - 1) * r;
    assert m * (r + 1) == m * (r - 2) + 3 * m;
  }

  lemma LapTerms(r: nat, p: int, q: int)
    ensures 3 * (r * (r + 1)) * p == 3 * ((r - 1) * (r - 1 + 1)) * p + 6 * (r * p)
    ensures 2 * ((r - 1) * r * (r + 1)) * q == 2 * ((r - 1 - 1) * (r - 1) * (r - 1 + 1)) * q + 6 * (((r - 1) * r) * q)
  {
    OneMoreProduct(r);
    Distribute((r - 1) * (r - 1 + 1), 2, r, p);
    Distribute((r - 1 - 1) * (r - 1) * (r - 1 + 1), 3, (r - 1) * r, q);
  }

  lemma Distribute(a: int, k: int, b: int, p: int)
    ensures (a + k * b) * p == a * p + k * (b * p)
  {
  }

  lemma LapShape(r: nat, c: nat)
    ensures r * (c * (c - 1) + c * ((r - 1) * c)) == r * (c * (c - 1)) + ((r - 1) * r) * (c * c)
  {
    var p, q := c * (c - 1), c * c;
    assert c * ((r - 1) * c) == (r - 1) * q;
    assert r * (p + (r - 1) * q) == r * p + r * ((r - 1) * q);
    assert r * ((r - 1) * q) == ((r - 1) * r) * q;
  }

  lemma OneMoreLap(r: nat, c: nat, sum: int)
    requires 0 < r
    ensures RmwTotal(r, c, sum) == RmwTotal(r - 1, c, sum) + 12 * sum + 6 * (r * (c * (c - 1) + c * ((r - 1) * c)))
  {
    OneMore(r, sum);
    LapTerms(r, c * (c - 1), c * c);
    LapShape(r, c);
  }

  /** Over r laps the read-modify-write kernel returns, modulo 2^64, a total that only depends on the
      number of cells and on the plain sum of the buffer. */
  lemma RmwOverLaps(data: seq<int>, idx: seq<nat>, r: nat) returns (total: int)
    requires IsPerm(idx) && |data| == |idx| && 0 < |idx|
    requires forall p :: 0 <= p < |data| ==> 0 <= data[p] < TWO64
    ensures W64(WrittenSum(r * |idx|, Gather(data, idx))) == W64(total)
    ensures var n := |idx|;
      12 * total == 12 * (r * Sum(data)) + 3 * (r * (r + 1)) * (n * (n - 1)) + 2 * ((r - 1) * r * (r + 1)) * (n * n)
  {
    var g := Gather(data, idx);
    total := ExactWritten(r * |g|, g);
    WrittenIsExact(r * |g|, g);
    ExactOverLaps(r, g);
    SumOverPerm(data, idx);
  }

  // ----- the buffers and the kernels

  /** Every cell, named through the table, holds what i iterations of the read-modify-write kernel
      make of its first value. */
  ghost predicate RmwProgress(data: seq<nat>, idx: seq<nat>, g: seq<int>, i: nat) {
    && |data| == |idx| == |g| && Below(idx, |idx|)
    && forall j :: 0 <= j < |idx| ==> data[idx[j]] == Updated(i, j, |idx|, g[j])
  }

  lemma RmwStep(data: seq<nat>, idx: seq<nat>, g: seq<int>, i: nat, j: nat, value: nat)
    requires IsPerm(idx) && RmwProgress(data, idx, g, i)
    requires 0 < |idx| && j == i % |idx| && value == W64(data[idx[j]] + i)
    ensures RmwProgress(data[idx[j] := value], idx, g, i + 1)
    ensures WrittenSum(i + 1, g) == WrittenSum(i, g) + value
  {
  }

  lemma RmwAdvance(data: seq<nat>, idx: seq<nat>, g: seq<int>, i: nat, value: nat, sum: nat) returns (after: seq<nat>)
    requires 0 < |idx| && IsPerm(idx) && RmwProgress(data, idx, g, i) && sum == W64(WrittenSum(i, g))
    requires value == W64(data[idx[i % |idx|]] + i)
    ensures after == data[idx[i % |idx|] := value] && RmwProgress(after, idx, g, i + 1)
    ensures W64(sum + value) == W64(WrittenSum(i + 1, g))
  {
    RmwStep(data, idx, g, i, i % |idx|, value);
    WrapAdd(WrittenSum(i, g), value, sum);
    after := data[idx[i % |idx|] := value];
  }

  /** make_random_mem never leaves the range where rounding up works. */
  method BufferCount(bytes: nat) returns (count: nat)
    requires bytes < TWO64
    ensures 1024 <= count < TWO64 && IsPow2(count) && bytes / 8 <= count
    ensures count > 1024 ==> LeastPow2(bytes / 8, count)
  {
    count := NextPow2U64(bytes / 8);
    assert Pow2(10) == 1024;
    if count < 1024 {
      count := 1024;
    }
  }

  method FillData(d: array<nat>)
    modifies d
    ensures forall p :: 0 <= p < d.Length ==> d[p] == W64(p * 11400714819323198485)
  {
    var i := 0;
    while i < d.Length
      invariant 0 <= i <= d.Length
      invariant forall p :: 0 <= p < i ==> d[p] == W64(p * 11400714819323198485)
    {
      d[i] := W64(i * 11400714819323198485);
      i := i + 1;
    }
  }

  class RandomBuffers {
    const data: array<nat>
    const idx: array<nat>
    const mask: nat

    /** A usable context: the table is a permutation of the buffer. */
    ghost predicate Valid()
      reads data, idx
    {
      && data != idx
      && 0 < data.Length == idx.Length < TWO64 && IsPow2(data.Length) && mask == data.Length - 1
      && IsPerm(idx[..])
    }

    /** make_random_mem */
    constructor (bytes: nat)
      requires bytes < TWO64
      ensures fresh(data) && fresh(idx) && data.Length == idx.Length
      ensures 1024 <= data.Length && IsPow2(data.Length) && bytes / 8 <= data.Length && mask == data.Length - 1
      ensures forall p :: 0 <= p < data.Length ==> data[p] == W64(p * 11400714819323198485)
      ensures idx[..] == IndexTable(idx.Length)
      ensures Valid() <==> data.Length <= TWO32
    {
      var count := BufferCount(bytes);
      var d, x := new nat[count](_ => 0), new nat[count](_ => 0);
      data, idx, mask := d, x, W64(count - 1);
      SmallMod(count - 1, TWO64);
      FillData(d);
      FillPermutation(x);
      TableIsPermutation(count);
    }

    /** `i & mask` is the position within the lap. */
    lemma LapPosition(i: nat)
      requires Valid()
      ensures And(i, mask) == i % data.Length
    {
      var k: nat :| data.Length == Pow2(k);
      AndMask(i, k);
    }

    method RandomLoad(iters: nat) returns (sum: nat)
      requires Valid()
      ensures sum == W64(LapSum(Gather(data[..], idx[..]), iters))
    {
      sum := 0;
      ghost var g := Gather(data[..], idx[..]);
      var i := 0;
      while i < iters
        invariant 0 <= i <= iters && sum == W64(LapSum(g, i))
      {
        LapPosition(i);
        WrapAdd(LapSum(g, i), g[i % |g|], sum);
        sum := W64(sum + data[idx[And(i, mask)]]);
        i := i + 1;
      }
    }

    method RandomStore(iters: nat) returns (r: nat)
      requires Valid()
      modifies data
      ensures r == W64(0x1234_5678_9abc_def0 + iters)
      ensures forall j :: 0 <= j < idx.Length ==> data[idx[j]] == Stored(iters, j, idx.Length, old(data[idx[j]]))
    {
      var value := STORE_BASE;
      var i := 0;
      while i < iters
        invariant 0 <= i <= iters
        invariant forall j :: 0 <= j < idx.Length ==> data[idx[j]] == Stored(i, j, idx.Length, old(data[idx[j]]))
      {
        LapPosition(i);
        var pos := idx[And(i, mask)];
        data[pos] := W64(value + i);
        i := i + 1;
      }
      r := W64(value + iters);
    }

    method RandomRmw(iters: nat) returns (sum: nat)
      requires Valid()
      modifies data
      ensures sum == W64(WrittenSum(iters, old(Gather(data[..], idx[..]))))
      ensures RmwProgress(data[..], idx[..], old(Gather(data[..], idx[..])), iters)
    {
      sum := 0;
      ghost var g := Gather(data[..], idx[..]);
      var i := 0;
      while i < iters
        invariant 0 <= i <= iters && Valid()
        invariant RmwProgress(data[..], idx[..], g, i) && sum == W64(WrittenSum(i, g))
      {
        sum := RmwOnce(i, sum, g);
        i := i + 1;
      }
    }

    /** One iteration: add i to the word the table names, and the new word to the sum. */
    method RmwOnce(i: nat, sum: nat, ghost g: seq<int>) returns (sum': nat)
      requires Valid() && RmwProgress(data[..], idx[..], g, i) && sum == W64(WrittenSum(i, g))
      modifies data
      ensures Valid() && RmwProgress(data[..], idx[..], g, i + 1) && sum' == W64(WrittenSum(i + 1, g))
    {
      LapPosition(i);
      var pos := idx[And(i, mask)];
      var value := W64(data[pos] + i);
      ghost var after := RmwAdvance(data[..], idx[..], g, i, value, sum);
      data[pos] := value;
      assert data[..] == after;
      sum' := W64(sum + value);
    }
  }
}
