/** The HBM bandwidth probe (nvidia/src/hbm_bandwidth.cu): grid sizing, and the write, copy, read
    sequence of warmed-up launches over one pair of buffers. */
module HbmProbe {
  import opened NumberTheory
  import opened RealSums
  import opened Wrappers
  import opened GridStride

  const THREADS: nat := 256
  const MAX_BLOCKS: int := 8192

  // ----- sizing

  /** static_cast<int> of an unsigned value. */
  function ToInt32(x: nat): (r: int)
    ensures -0x8000_0000 <= r < 0x8000_0000
  {
    (x + 0x8000_0000) % TWO32 - 0x8000_0000
  }

  /** As many whole 16-byte elements as fit the request, but at least one. */
  function Elements(requestedBytes: nat): (e: nat)
    ensures requestedBytes < 16 ==> e == 1
    ensures requestedBytes >= 16 ==> 16 * e <= requestedBytes < 16 * (e + 1)
  {
    if requestedBytes / 16 >= 1 then requestedBytes / 16 else 1
  }

  function BlocksNeeded(elements: nat): nat { (elements + THREADS - 1) / THREADS }

  function Blocks(elements: nat): int {
    var b := ToInt32(BlocksNeeded(elements));
    if b < MAX_BLOCKS then b else MAX_BLOCKS
  }

  /** The grid is non-empty exactly when the block count survives the conversion to int. */
  lemma GridNonEmpty(elements: nat)
    ensures 1 <= Blocks(elements) <==> 1 <= (elements + 255) / 256 % 0x1_0000_0000 < 0x8000_0000
  {
    var x := BlocksNeeded(elements);
    var q, r := x / TWO32, x % TWO32;
    assert x == q * TWO32 + r;
    if r < 0x8000_0000 {
      DivModUnique(x + 0x8000_0000, TWO32, q, r + 0x8000_0000);
    } else {
      DivModUnique(x + 0x8000_0000, TWO32, q + 1, r - 0x8000_0000);
    }
  }

  /** A request of 8 TiB needs 2^31 blocks, which the conversion makes negative: the grid is empty. */
  lemma EmptyGrid()
    ensures Blocks(Elements(0x800_0000_0000)) < 1
  {
    GridNonEmpty(Elements(0x800_0000_0000));
  }

  /** Inside the int range the grid is at most 8192 blocks and, below that cap, has a thread for
      every element and less than a block to spare. */
  lemma GridSize(elements: nat)
    requires 1 <= elements && (elements + 255) / 256 < 0x8000_0000
    ensures 1 <= Blocks(elements) <= 8192
    ensures Blocks(elements) < 8192 ==> elements <= Blocks(elements) * 256 < elements + 256
  {
    SmallMod(BlocksNeeded(elements), TWO32);
    GridNonEmpty(elements);
    SmallMod(BlocksNeeded(elements) + 0x8000_0000, TWO32);
  }

  /** `blockIdx.x * blockDim.x + threadIdx.x`, in 32 bits. */
  function Tid(block: nat, lane: nat): nat {
    W32(W32(block * THREADS) + lane)
  }

  /** Every thread number below blocks * 256 belongs to exactly one block and lane. */
  lemma TidIsBijective(blocks: nat, t: nat, block: nat, lane: nat)
    requires blocks <= 8192 && t < blocks * 256
    ensures t / 256 < blocks && t % 256 < 256 && Tid(t / 256, t % 256) == t
    ensures block < blocks && lane < 256 && Tid(block, lane) == t ==> block == t / 256 && lane == t % 256
  {
    SmallMod(t / THREADS * THREADS, TWO32);
    SmallMod(t, TWO32);
    if block < blocks && lane < THREADS {
      SmallMod(block * THREADS, TWO32);
      SmallMod(block * THREADS + lane, TWO32);
    }
  }

  // ----- the launches of the probe, under any interleaving

  datatype Memory = Memory(dDst: seq<Float4>, dSrc: seq<Float4>, partial: seq<real>)

  /** The kernel arguments: copy reads d_dst and writes d_src, read reads d_src. */
  function Launched(k: Kernel, m: Memory): State {
    var threads := seq(|m.partial|, (t: nat) => Running(t, 0.0));
    if k.Copy? then State(m.dDst, m.dSrc, m.partial, threads) else State(m.dSrc, m.dDst, m.partial, threads)
  }

  function Returned(k: Kernel, s: State): Memory {
    if k.Copy? then Memory(s.src, s.dst, s.partial) else Memory(s.dst, s.src, s.partial)
  }

  ghost predicate Launch(k: Kernel, m: Memory, m': Memory) {
    exists run, sched :: LaunchRun(k, m, m', run, sched)
  }

  ghost predicate LaunchRun(k: Kernel, m: Memory, m': Memory, run: seq<State>, sched: seq<nat>) {
    && Run(k, run, sched) && run[0] == Launched(k, m)
    && Final(run[|sched|]) && m' == Returned(k, run[|sched|])
  }

  function Uniform(n: nat, v: Float4): (b: seq<Float4>)
    ensures |b| == n && forall j :: 0 <= j < n ==> b[j] == v
  {
    seq(n, _ => v)
  }

  /** Every launch can complete. */
  lemma LaunchCompletes(k: Kernel, m: Memory) returns (m': Memory)
    requires |m.dDst| == |m.dSrc| && 0 < |m.partial|
    ensures Launch(k, m, m')
  {
    var run, sched := Complete(k, [Launched(k, m)], []);
    m' := Returned(k, run[|sched|]);
    assert LaunchRun(k, m, m', run, sched);
  }

  lemma LaunchEffect(k: Kernel, m: Memory, m': Memory)
    requires |m.dDst| == |m.dSrc| && 0 < |m.partial|
    requires Launch(k, m, m')
    ensures k.Write? ==>
      m' == m.(dDst := Uniform(|m.dDst|, Float4(k.seed, k.seed + 1.0, k.seed + 2.0, k.seed + 3.0)))
    ensures k.Copy? ==> m' == m.(dSrc := m.dDst)
    ensures k.Read? ==> m' == m.(partial := PartialsOf(m.dSrc, |m.partial|, |m.dSrc|))
    ensures k.Read? ==> RSum(m'.partial) == RSum(Components(m.dSrc)) == RSum(Totals(m.dSrc))
  {
    var run, sched :| LaunchRun(k, m, m', run, sched);
    LaunchResult(k, run, sched);
  }

  /** time_kernel launches a kernel twice, warm-up and measured; the second launch changes nothing. */
  lemma WarmedLaunch(k: Kernel, m: Memory, m': Memory, m'': Memory)
    requires |m.dDst| == |m.dSrc| && 0 < |m.partial|
    requires Launch(k, m, m') && Launch(k, m', m'')
    ensures m'' == m' && |m'.dDst| == |m'.dSrc| == |m.dSrc| && |m'.partial| == |m.partial|
  {
    LaunchEffect(k, m, m');
    LaunchEffect(k, m', m'');
  }

  /** Whatever the interleavings and the initial contents, the probe ends with both buffers full of
      (1, 2, 3, 4) and partial sums that add up to 10 per element. */
  lemma ProbeResult(m: seq<Memory>, requestedBytes: nat)
    requires 1 <= Blocks(Elements(requestedBytes))
    requires |m| == 7 && |m[0].dDst| == |m[0].dSrc| == Elements(requestedBytes)
    requires |m[0].partial| == Blocks(Elements(requestedBytes)) * 256
    requires Launch(Write(1.0), m[0], m[1]) && Launch(Write(1.0), m[1], m[2])
    requires Launch(Copy, m[2], m[3]) && Launch(Copy, m[3], m[4])
    requires Launch(Read, m[4], m[5]) && Launch(Read, m[5], m[6])
    ensures m[6].dDst == m[6].dSrc == Uniform(Elements(requestedBytes), Float4(1.0, 2.0, 3.0, 4.0))
    ensures RSum(m[6].partial) == 10.0 * Elements(requestedBytes) as real
  {
    WarmedLaunch(Write(1.0), m[0], m[1], m[2]);
    WarmedLaunch(Copy, m[2], m[3], m[4]);
    WarmedLaunch(Read, m[4], m[5], m[6]);
    PipelineEffect(m[0], m[2], m[4], m[6]);
  }

  lemma PipelineEffect(m: Memory, written: Memory, copied: Memory, read: Memory)
    requires |m.dDst| == |m.dSrc| && 0 < |m.partial|
    requires Launch(Write(1.0), m, written) && Launch(Copy, written, copied) && Launch(Read, copied, read)
    ensures read.dDst == read.dSrc == Uniform(|m.dDst|, Float4(1.0, 2.0, 3.0, 4.0))
    ensures RSum(read.partial) == 10.0 * |m.dDst| as real
  {
    LaunchEffect(Write(1.0), m, written);
    LaunchEffect(Copy, written, copied);
    LaunchEffect(Read, copied, read);
    RSumConstant(Totals(copied.dSrc), 10.0);
  }

  // ----- the kernels in place

  class Device {
    const dDst: array<Float4>
    const dSrc: array<Float4>
    const partial: array<real>

    ghost predicate Valid() {
      dDst != dSrc && dDst.Length == dSrc.Length
    }

    constructor (elements: nat, threads: nat)
      ensures Valid() && fresh(dDst) && fresh(dSrc) && fresh(partial)
      ensures dDst.Length == elements && partial.Length == threads
    {
      dDst := new Float4[elements];
      dSrc := new Float4[elements];
      partial := new real[threads];
    }

    method WriteKernel(tid: nat, stride: nat, seed: real)
      requires tid < stride
      modifies dDst
      ensures forall j: nat :: j < dDst.Length ==>
        dDst[j] == if j % stride == tid then Float4(seed, seed + 1.0, seed + 2.0, seed + 3.0) else old(dDst[j])
    {
      SmallMod(tid, stride);
      var i := tid;
      ghost var done := 0;
      while i < dDst.Length
        invariant done <= i && i % stride == tid && forall j: nat :: done <= j < i ==> j % stride != tid
        invariant forall j: nat :: j < dDst.Length ==>
          dDst[j] == if j < i && j % stride == tid then Value(seed) else old(dDst[j])
        decreases dDst.Length - i
      {
        dDst[i] := Value(seed);
        NextOwned(i, stride);
        done := i + 1;
        i := i + stride;
      }
    }

    method CopyKernel(tid: nat, stride: nat)
      requires Valid() && tid < stride
      modifies dSrc
      ensures forall j: nat :: j < dDst.Length ==>
        dSrc[j] == if j % stride == tid then dDst[j] else old(dSrc[j])
    {
      SmallMod(tid, stride);
      var i := tid;
      ghost var done := 0;
      while i < dDst.Length
        invariant done <= i && i % stride == tid && forall j: nat :: done <= j < i ==> j % stride != tid
        invariant forall j: nat :: j < dDst.Length ==>
          dSrc[j] == if j < i && j % stride == tid then dDst[j] else old(dSrc[j])
        decreases dDst.Length - i
      {
        dSrc[i] := dDst[i];
        NextOwned(i, stride);
        done := i + 1;
        i := i + stride;
      }
    }

    method ReadKernel(tid: nat, stride: nat)
      requires tid < stride == partial.Length
      modifies partial
      ensures partial[..] == old(partial[..])[tid := StridedSum(Totals(dSrc[..]), dSrc.Length, tid, stride)]
    {
      ghost var f := Totals(dSrc[..]);
      StridedSumStart(f, tid, stride);
      var sum := 0.0;
      var i := tid;
      while i < dSrc.Length
        invariant i % stride == tid && sum == StridedSum(f, Min(i, |f|), tid, stride)
        invariant partial[..] == old(partial[..])
        decreases dSrc.Length - i
      {
        StridedSumIteration(f, i, tid, stride);
        NextOwned(i, stride);
        sum := sum + dSrc[i].Total();
        i := i + stride;
      }
      assert Totals(dSrc[..]) == f;
      partial[tid] := sum;
    }

    // All threads of a launch in turn; the memory is the one LaunchEffect gives for every interleaving.

    method LaunchWrite(threads: nat, seed: real)
      requires 0 < threads
      modifies dDst
      ensures dDst[..] == Uniform(dDst.Length, Float4(seed, seed + 1.0, seed + 2.0, seed + 3.0))
    {
      var t := 0;
      while t < threads
        invariant 0 <= t <= threads
        invariant forall j: nat :: j < dDst.Length && j % threads < t ==> dDst[j] == Value(seed)
      {
        WriteKernel(t, threads, seed);
        t := t + 1;
      }
    }

    method LaunchCopy(threads: nat)
      requires Valid() && 0 < threads
      modifies dSrc
      ensures dSrc[..] == dDst[..]
    {
      var t := 0;
      while t < threads
        invariant 0 <= t <= threads
        invariant forall j: nat :: j < dDst.Length && j % threads < t ==> dSrc[j] == dDst[j]
      {
        CopyKernel(t, threads);
        t := t + 1;
      }
    }

    method LaunchRead()
      requires 0 < partial.Length
      modifies partial
      ensures partial[..] == PartialsOf(dSrc[..], partial.Length, dSrc.Length)
    {
      var t := 0;
      while t < partial.Length
        invariant 0 <= t <= partial.Length
        invariant partial[..t] == PartialsOf(dSrc[..], partial.Length, dSrc.Length)[..t]
      {
        ReadKernel(t, partial.Length);
        t := t + 1;
      }
    }
  }

  lemma NextOwned(i: nat, stride: nat)
    requires 0 < stride
    ensures (i + stride) % stride == i % stride
    ensures forall j: nat :: i < j < i + stride ==> j % stride != i % stride
  {
    ModShift(i, 1, stride);
    forall j: nat | i < j < i + stride ensures j % stride != i % stride {
      if j % stride == i % stride { SameOwner(i, j, stride); }
    }
  }
}
