/** The grid-stride GPU kernels (nvidia/src/hbm_bandwidth.cu). A launch is a machine whose threads
    take steps in any order. Sums are exact. */
module GridStride {
  import opened NumberTheory
  import opened RealSums
  import opened Wrappers

  datatype Float4 = Float4(x: real, y: real, z: real, w: real) {
    function Total(): real { x + y + z + w }
  }

  function Value(seed: real): Float4 {
    Float4(seed, seed + 1.0, seed + 2.0, seed + 3.0)
  }

  datatype Kernel = Write(seed: real) | Copy | Read

  /** A thread is at loop index `i` with its running `sum`, or has returned. */
  datatype Thread = Running(i: nat, sum: real) | Done

  datatype State = State(src: seq<Float4>, dst: seq<Float4>, partial: seq<real>, threads: seq<Thread>)

  predicate Enabled(s: State, t: nat) {
    t < |s.threads| && s.threads[t].Running?
  }

  ghost predicate WellSized(s: State) {
    0 < |s.threads| == |s.partial| && |s.src| == |s.dst|
  }

  /** One step of thread t: an iteration of its loop, or the exit from it. */
  function Step(k: Kernel, s: State, t: nat): (s': State)
    requires WellSized(s) && Enabled(s, t)
    ensures WellSized(s') && |s'.threads| == |s.threads| && |s'.src| == |s.src|
  {
    var stride := |s.threads|;
    var Running(i, sum) := s.threads[t];
    if i < |s.src| then
      match k
      case Write(seed) => s.(dst := s.dst[i := Value(seed)], threads := s.threads[t := Running(i + stride, sum)])
      case Copy => s.(dst := s.dst[i := s.src[i]], threads := s.threads[t := Running(i + stride, sum)])
      case Read => s.(threads := s.threads[t := Running(i + stride, sum + s.src[i].Total())])
    else
      match k
      case Read => s.(partial := s.partial[t := sum], threads := s.threads[t := Done])
      case _ => s.(threads := s.threads[t := Done])
  }

  ghost predicate Initial(s: State) {
    WellSized(s) && forall t: nat :: t < |s.threads| ==> s.threads[t] == Running(t, 0.0)
  }

  predicate Final(s: State) {
    forall t :: 0 <= t < |s.threads| ==> s.threads[t].Done?
  }

  /** A run: any interleaving of thread steps, `sched[a]` naming the thread that moves. */
  ghost predicate Run(k: Kernel, run: seq<State>, sched: seq<nat>) {
    && |run| == |sched| + 1
    && Initial(run[0])
    && forall a: nat :: a < |sched| ==> Moves(k, run[a], sched[a], run[a + 1])
  }

  ghost predicate Moves(k: Kernel, s: State, t: nat, s': State) {
    WellSized(s) && Enabled(s, t) && s' == Step(k, s, t)
  }

  // ----- memory accesses and races

  datatype Cell = Src(i: nat) | Dst(i: nat) | Partial(t: nat)

  function Writes(k: Kernel, s: State, t: nat): set<Cell>
    requires Enabled(s, t)
  {
    var i := s.threads[t].i;
    if i < |s.src| then (if k.Read? then {} else {Dst(i)}) else (if k.Read? then {Partial(t)} else {})
  }

  function Reads(k: Kernel, s: State, t: nat): set<Cell>
    requires Enabled(s, t)
  {
    var i := s.threads[t].i;
    if i < |s.src| && !k.Write? then {Src(i)} else {}
  }

  ghost predicate SameCell(s: State, s': State, c: Cell) {
    match c
    case Src(i) => i < |s.src| == |s'.src| ==> s.src[i] == s'.src[i]
    case Dst(i) => i < |s.dst| == |s'.dst| ==> s.dst[i] == s'.dst[i]
    case Partial(t) => t < |s.partial| == |s'.partial| ==> s.partial[t] == s'.partial[t]
  }

  /** A step changes no cell outside its write set, and what it writes depends on memory only
      through its read set. */
  lemma StepFootprint(k: Kernel, s: State, s2: State, t: nat, c: Cell)
    requires WellSized(s) && WellSized(s2) && Enabled(s, t)
    requires s2.threads == s.threads && |s2.src| == |s.src|
    requires forall r :: r in Reads(k, s, t) ==> SameCell(s, s2, r)
    ensures c !in Writes(k, s, t) ==> SameCell(s, Step(k, s, t), c)
    ensures c in Writes(k, s, t) ==> SameCell(Step(k, s, t), Step(k, s2, t), c)
    ensures Step(k, s, t).threads == Step(k, s2, t).threads
  {
    var i := s.threads[t].i;
    if i < |s.src| && !k.Write? {
      assert Src(i) in Reads(k, s, t);
      assert SameCell(s, s2, Src(i));
    }
  }

  // ----- the invariant of a launch

  /** The thread that owns element j has passed it. */
  predicate Visited(s: State, j: nat)
    requires 0 < |s.threads|
  {
    var th := s.threads[j % |s.threads|];
    th.Done? || j < th.i
  }

  function Totals(src: seq<Float4>): (f: seq<real>)
    ensures |f| == |src| && forall j :: 0 <= j < |src| ==> f[j] == src[j].Total()
  {
    seq(|src|, j requires 0 <= j < |src| => src[j].Total())
  }

  /** Sum of f over the indices below n that leave remainder t. */
  function StridedSum(f: seq<real>, n: nat, t: nat, stride: nat): real
    requires n <= |f| && 0 < stride
  {
    if n == 0 then 0.0
    else StridedSum(f, n - 1, t, stride) + if (n - 1) % stride == t then f[n - 1] else 0.0
  }

  ghost predicate OnTrack(s: State) {
    WellSized(s) && forall t: nat :: Enabled(s, t) ==> s.threads[t].i % |s.threads| == t
  }

  function Stored(k: Kernel, src: seq<Float4>, j: nat): Float4
    requires j < |src| && !k.Read?
  {
    if k.Write? then Value(k.seed) else src[j]
  }

  ghost predicate DstCorrect(k: Kernel, s0: State, s: State)
    requires WellSized(s0) && WellSized(s) && |s.src| == |s0.src|
  {
    forall j: nat :: j < |s.dst| ==>
      s.dst[j] == if !k.Read? && Visited(s, j) then Stored(k, s0.src, j) else s0.dst[j]
  }

  ghost predicate SumsCorrect(k: Kernel, s0: State, s: State)
    requires WellSized(s0) && WellSized(s) && |s.threads| == |s0.threads| && |s.src| == |s0.src|
  {
    var f, stride := Totals(s0.src), |s.threads|;
    forall t: nat :: t < stride ==>
      && (k.Read? && s.threads[t].Running? ==>
            s.threads[t].sum == StridedSum(f, Min(s.threads[t].i, |f|), t, stride))
      && s.partial[t] == if k.Read? && s.threads[t].Done? then StridedSum(f, |f|, t, stride) else s0.partial[t]
  }

  ghost predicate Inv(k: Kernel, s0: State, s: State) {
    && WellSized(s0) && OnTrack(s)
    && |s.threads| == |s0.threads| && s.src == s0.src
    && DstCorrect(k, s0, s)
    && SumsCorrect(k, s0, s)
  }

  lemma {:induction false} StridedSumGap(f: seq<real>, a: nat, b: nat, t: nat, stride: nat)
    requires a <= b <= |f| && 0 < stride
    requires forall j: nat :: a <= j < b ==> j % stride != t
    ensures StridedSum(f, b, t, stride) == StridedSum(f, a, t, stride)
    decreases b
  {
    if a >= b {
    } else {
      StridedSumGap(f, a, b - 1, t, stride);
    }
  }

  /** Two indices less than a stride apart with the same owner are the same index. */
  lemma SameOwner(i: nat, j: nat, stride: nat)
    requires 0 < stride && i <= j < i + stride && i % stride == j % stride
    ensures i == j
  {
    SameRemainder(j, i, stride);
    SmallMod(j - i, stride);
  }

  lemma StridedSumIteration(f: seq<real>, i: nat, t: nat, stride: nat)
    requires 0 < stride && i < |f| && i % stride == t
    ensures StridedSum(f, Min(i + stride, |f|), t, stride) == StridedSum(f, i, t, stride) + f[i]
  {
    forall j: nat | i + 1 <= j < Min(i + stride, |f|) ensures j % stride != t {
      if j % stride == t { SameOwner(i, j, stride); }
    }
    StridedSumGap(f, i + 1, Min(i + stride, |f|), t, stride);
  }

  lemma StridedSumStart(f: seq<real>, t: nat, stride: nat)
    requires t < stride
    ensures t % stride == t && StridedSum(f, Min(t, |f|), t, stride) == 0.0
  {
    SmallMod(t, stride);
    forall j: nat | 0 <= j < Min(t, |f|) ensures j % stride != t { SmallMod(j, stride); }
    StridedSumGap(f, 0, Min(t, |f|), t, stride);
  }

  lemma InitialInv(k: Kernel, s: State)
    requires Initial(s)
    ensures Inv(k, s, s)
  {
    var stride := |s.threads|;
    forall t: nat | t < stride
      ensures t % stride == t
      ensures StridedSum(Totals(s.src), Min(t, |s.src|), t, stride) == 0.0
    {
      StridedSumStart(Totals(s.src), t, stride);
    }
    forall j: nat | j < |s.dst| ensures !Visited(s, j) {
      RemainderAtMost(j, stride);
    }
  }

  lemma RemainderAtMost(j: nat, d: nat)
    requires 0 < d
    ensures j % d <= j
  {
    if j < d { SmallMod(j, d); }
  }

  /** A step visits exactly the element it is at. */
  lemma StepVisits(k: Kernel, s: State, t: nat, j: nat)
    requires OnTrack(s) && Enabled(s, t) && j < |s.src|
    ensures Visited(Step(k, s, t), j) <==> Visited(s, j) || j == s.threads[t].i
  {
    var i, stride := s.threads[t].i, |s.threads|;
    if j % stride == t && i <= j < i + stride { SameOwner(i, j, stride); }
  }

  lemma StepOnTrack(k: Kernel, s: State, t: nat)
    requires OnTrack(s) && Enabled(s, t)
    ensures OnTrack(Step(k, s, t))
  {
    var i, stride := s.threads[t].i, |s.threads|;
    ModShift(i, 1, stride);
  }

  lemma StepDst(k: Kernel, s0: State, s: State, t: nat)
    requires Inv(k, s0, s) && Enabled(s, t)
    ensures DstCorrect(k, s0, Step(k, s, t))
  {
    var s' := Step(k, s, t);
    forall j: nat | j < |s'.dst|
      ensures s'.dst[j] == if !k.Read? && Visited(s', j) then Stored(k, s0.src, j) else s0.dst[j]
    {
      StepVisits(k, s, t, j);
    }
  }

  lemma StepSums(k: Kernel, s0: State, s: State, t: nat)
    requires Inv(k, s0, s) && Enabled(s, t)
    ensures SumsCorrect(k, s0, Step(k, s, t))
  {
    var f, stride, i := Totals(s0.src), |s.threads|, s.threads[t].i;
    if i < |f| {
      StridedSumIteration(f, i, t, stride);
    }
  }

  lemma StepInv(k: Kernel, s0: State, s: State, t: nat)
    requires Inv(k, s0, s) && Enabled(s, t)
    ensures Inv(k, s0, Step(k, s, t))
  {
    StepOnTrack(k, s, t);
    StepDst(k, s0, s, t);
    StepSums(k, s0, s, t);
  }

  /** Every state of every run satisfies the invariant. */
  lemma {:induction false} RunInv(k: Kernel, run: seq<State>, sched: seq<nat>, a: nat)
    requires Run(k, run, sched) && a < |run|
    ensures Inv(k, run[0], run[a])
  {
    if a == 0 {
      InitialInv(k, run[0]);
    } else {
      RunInv(k, run, sched, a - 1);
      assert Moves(k, run[a - 1], sched[a - 1], run[a - 1 + 1]);
      StepInv(k, run[0], run[a - 1], sched[a - 1]);
    }
  }

  /** No two threads of a launch touch one cell with one of them writing, at any two moments. */
  lemma RaceFree(k: Kernel, run: seq<State>, sched: seq<nat>, a: nat, b: nat)
    requires Run(k, run, sched) && a < |sched| && b < |sched| && sched[a] != sched[b]
    ensures Enabled(run[a], sched[a]) && Enabled(run[b], sched[b])
    ensures Writes(k, run[a], sched[a]) !! Writes(k, run[b], sched[b]) + Reads(k, run[b], sched[b])
  {
    RunInv(k, run, sched, a);
    RunInv(k, run, sched, b);
    assert Moves(k, run[a], sched[a], run[a + 1]);
    assert Moves(k, run[b], sched[b], run[b + 1]);
  }

  // ----- termination: every complete run takes exactly elements + threads steps

  ghost function Unvisited(s: State): set<nat>
    requires 0 < |s.threads|
  {
    set j: nat | j < |s.src| && !Visited(s, j)
  }

  ghost function Live(s: State): set<nat> {
    set t: nat | t < |s.threads| && s.threads[t].Running?
  }

  ghost function Remaining(s: State): nat
    requires 0 < |s.threads|
  {
    |Unvisited(s)| + |Live(s)|
  }

  lemma StepUnvisited(k: Kernel, s: State, t: nat)
    requires OnTrack(s) && Enabled(s, t)
    ensures Unvisited(Step(k, s, t)) == Unvisited(s) - {s.threads[t].i}
  {
    var s', i := Step(k, s, t), s.threads[t].i;
    forall j: nat ensures j in Unvisited(s') <==> j in Unvisited(s) - {i} {
      if j < |s.src| { StepVisits(k, s, t, j); }
    }
  }

  lemma StepLive(k: Kernel, s: State, t: nat)
    requires OnTrack(s) && Enabled(s, t)
    ensures Live(Step(k, s, t)) == if s.threads[t].i < |s.src| then Live(s) else Live(s) - {t}
  {
  }

  lemma StepRemaining(k: Kernel, s: State, t: nat)
    requires OnTrack(s) && Enabled(s, t)
    ensures Remaining(Step(k, s, t)) == Remaining(s) - 1
  {
    StepUnvisited(k, s, t);
    StepLive(k, s, t);
    assert t in Live(s);
    assert s.threads[t].i in Unvisited(s) <==> s.threads[t].i < |s.src|;
  }

  function Range(n: nat): (r: set<nat>)
    ensures |r| == n && forall j: nat :: j in r <==> j < n
  {
    if n == 0 then {} else Range(n - 1) + {n - 1}
  }

  lemma {:induction false} RunRemaining(k: Kernel, run: seq<State>, sched: seq<nat>, a: nat)
    requires Run(k, run, sched) && a < |run|
    ensures 0 < |run[a].threads| && a + Remaining(run[a]) == |run[0].src| + |run[0].threads|
  {
    if a == 0 {
      InitialInv(k, run[0]);
      var s := run[0];
      forall j: nat | j < |s.src| ensures !Visited(s, j) { RemainderAtMost(j, |s.threads|); }
      assert Unvisited(s) == Range(|s.src|);
      assert Live(s) == Range(|s.threads|);
    } else {
      RunRemaining(k, run, sched, a - 1);
      RunInv(k, run, sched, a - 1);
      assert Moves(k, run[a - 1], sched[a - 1], run[a - 1 + 1]);
      StepRemaining(k, run[a - 1], sched[a - 1]);
    }
  }

  /** No run is longer than elements + threads; a run of that length is final, and a shorter one can
      always go on. */
  lemma RunLength(k: Kernel, run: seq<State>, sched: seq<nat>)
    requires Run(k, run, sched)
    ensures |sched| <= |run[0].src| + |run[0].threads|
    ensures Final(run[|sched|]) <==> |sched| == |run[0].src| + |run[0].threads|
    ensures !Final(run[|sched|]) ==> exists t: nat :: Enabled(run[|sched|], t)
  {
    RunRemaining(k, run, sched, |sched|);
    var s := run[|sched|];
    if Final(s) {
      assert Live(s) == {} && Unvisited(s) == {};
    } else {
      var t: nat :| t < |s.threads| && !s.threads[t].Done?;
      assert t in Live(s) && Enabled(s, t);
    }
  }

  /** Whatever was scheduled so far, the launch can be run to completion. */
  lemma {:induction false} Complete(k: Kernel, run: seq<State>, sched: seq<nat>)
    returns (run': seq<State>, sched': seq<nat>)
    requires Run(k, run, sched)
    ensures Run(k, run', sched') && Final(run'[|sched'|]) && run'[0] == run[0]
    decreases |run[0].src| + |run[0].threads| - |sched|
  {
    RunLength(k, run, sched);
    var s := run[|sched|];
    if Final(s) {
      run', sched' := run, sched;
    } else {
      var t: nat :| Enabled(s, t);
      RunInv(k, run, sched, |sched|);
      var longer, moves := run + [Step(k, s, t)], sched + [t];
      assert forall a: nat :: a < |sched| ==> Moves(k, run[a], sched[a], run[a + 1]);
      assert Moves(k, s, t, Step(k, s, t));
      run', sched' := Complete(k, longer, moves);
    }
  }

  // ----- what a complete launch leaves behind

  ghost function PartialsOf(src: seq<Float4>, stride: nat, n: nat): (p: seq<real>)
    requires 0 < stride && n <= |src|
    ensures |p| == stride && forall t :: 0 <= t < stride ==> p[t] == StridedSum(Totals(src), n, t, stride)
  {
    seq(stride, t requires 0 <= t < stride => StridedSum(Totals(src), n, t, stride))
  }

  /** The index classes of the threads partition the elements: their sums add up to the whole. */
  lemma {:induction false} PartialsTotal(src: seq<Float4>, stride: nat, n: nat)
    requires 0 < stride && n <= |src|
    ensures RSum(PartialsOf(src, stride, n)) == RSum(Totals(src)[..n])
  {
    var f := Totals(src);
    if n == 0 {
      RSumConstant(PartialsOf(src, stride, 0), 0.0);
    } else {
      PartialsTotal(src, stride, n - 1);
      var p, t := PartialsOf(src, stride, n - 1), (n - 1) % stride;
      assert PartialsOf(src, stride, n) == p[t := p[t] + f[n - 1]];
      RSumUpdate(p, t, f[n - 1]);
      assert f[..n][..n - 1] == f[..n - 1];
    }
  }

  /** The components of all elements, one after another. */
  function Components(src: seq<Float4>): (c: seq<real>)
    ensures |c| == 4 * |src|
    ensures forall j :: 0 <= j < |src| ==>
      c[4 * j] == src[j].x && c[4 * j + 1] == src[j].y && c[4 * j + 2] == src[j].z && c[4 * j + 3] == src[j].w
  {
    if src == [] then []
    else
      var n := |src| - 1;
      var rest := Components(src[..n]);
      assert forall j :: 0 <= j < n ==> src[..n][j] == src[j];
      rest + [src[n].x, src[n].y, src[n].z, src[n].w]
  }

  lemma FourMore(f: seq<real>, x: real, y: real, z: real, w: real)
    ensures RSum(f + [x, y, z, w]) == RSum(f) + (x + y + z + w)
  {
    assert f + [x, y, z, w] == ((f + [x]) + [y] + [z]) + [w];
    RSumSnoc(f, x);
    RSumSnoc(f + [x], y);
    RSumSnoc(f + [x] + [y], z);
    RSumSnoc(f + [x] + [y] + [z], w);
  }

  lemma {:induction false} TotalsAreComponents(src: seq<Float4>)
    ensures RSum(Totals(src)) == RSum(Components(src))
  {
    if src == [] {
      assert Totals(src) == [];
    } else {
      var n := |src| - 1;
      TotalsAreComponents(src[..n]);
      assert Totals(src)[..n] == Totals(src[..n]);
      FourMore(Components(src[..n]), src[n].x, src[n].y, src[n].z, src[n].w);
    }
  }

  /** m entries of f, from index t in steps of the stride. */
  function Every(f: seq<real>, t: nat, stride: nat, m: nat): (e: seq<real>)
    requires 0 < stride && (m > 0 ==> t + (m - 1) * stride < |f|)
    ensures |e| == m && forall j :: 0 <= j < m ==> t + j * stride < |f| && e[j] == f[t + j * stride]
  {
    if m == 0 then []
    else
      StepBack(t, stride, m);
      Every(f, t, stride, m - 1) + [f[t + (m - 1) * stride]]
  }

  lemma StepBack(t: nat, stride: nat, m: nat)
    requires 0 < m
    ensures t + (m - 1) * stride >= t && (m > 1 ==> t + (m - 2) * stride <= t + (m - 1) * stride)
    ensures t + m * stride == t + (m - 1) * stride + stride
  {
    MulLe(0, m - 1, stride);
    MulLe(m - 2, m - 1, stride);
  }

  /** What a thread adds up are the entries t, t + stride, t + 2 * stride and so on. */
  lemma {:induction false} ClassSum(f: seq<real>, t: nat, stride: nat, m: nat)
    requires t < stride && (m > 0 ==> t + (m - 1) * stride < |f|)
    ensures StridedSum(f, Min(t + m * stride, |f|), t, stride) == RSum(Every(f, t, stride, m))
  {
    if m == 0 {
      StridedSumStart(f, t, stride);
    } else {
      StepBack(t, stride, m);
      ClassSum(f, t, stride, m - 1);
      var i := t + (m - 1) * stride;
      DivModUnique(i, stride, m - 1, t);
      StridedSumIteration(f, i, t, stride);
      RSumSnoc(Every(f, t, stride, m - 1), f[i]);
    }
  }

  /** The effect of a whole launch, for every element count, thread count and interleaving. */
  lemma LaunchResult(k: Kernel, run: seq<State>, sched: seq<nat>)
    requires Run(k, run, sched) && Final(run[|sched|])
    ensures var s0, s := run[0], run[|sched|];
      && s.src == s0.src
      && (k.Write? ==> s.dst == seq(|s0.dst|, j => Float4(k.seed, k.seed + 1.0, k.seed + 2.0, k.seed + 3.0)))
      && (k.Copy? ==> s.dst == s0.src)
      && (k.Read? ==> s.dst == s0.dst && s.partial == PartialsOf(s0.src, |s0.threads|, |s0.src|))
      && (!k.Read? ==> s.partial == s0.partial)
      && (k.Read? ==> RSum(s.partial) == RSum(Totals(s0.src)) == RSum(Components(s0.src)))
  {
    RunInv(k, run, sched, |sched|);
    var s0, s := run[0], run[|sched|];
    var f := Totals(s0.src);
    if k.Read? {
      PartialsTotal(s0.src, |s0.threads|, |s0.src|);
      TotalsAreComponents(s0.src);
      assert f[..|s0.src|] == f;
    }
  }
}
