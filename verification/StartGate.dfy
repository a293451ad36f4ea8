/** The start gate of the thread-scaling probes (run_thread_scaling and scale_main in
    apple/src/deep_cpu_probes.c, run_sustained_thread_scaling in advanced_cpu_probes.c) as a machine
    over the steps of the main thread and of its workers. `now` is a ghost clock that may advance by
    any amount before every step; the hardware counter shows it modulo 2^64. */
module StartGate {
  import opened NumberTheory
  import opened Bits
  import opened Permutations

  datatype Config = Config(threads: nat, blocks: nat, sink0: nat)

  datatype WorkerPc = Absent | Spinning | Working(done: nat, regs: seq<nat>) | Finished

  datatype Worker = Worker(pc: WorkerPc, result: nat, workStart: nat, workEnd: nat)

  datatype MainPc = Creating(i: nat) | Ticked | Joining(i: nat) | Measured | IdsFreed | TasksFreed

  datatype State = State(
    main: MainPc, workers: seq<Worker>, flag: bool, now: nat,
    startTime: nat, startTick: nat, endTime: nat, elapsed: nat, sink: nat)

  datatype Action =
    | Spawn | ReadStart | Release | Join | ReadEnd | FreeIds | FreeTasks
    | Spin(w: nat) | Enter(w: nat) | Iterate(w: nat) | Return(w: nat)

  function InitialState(c: Config): State {
    State(Creating(0), seq(c.threads, _ => Worker(Absent, 0, 0, 0)), false, 0, 0, 0, 0, 0, c.sink0)
  }

  /** Memory the tasks live in is released by the last action of the main thread. */
  predicate TasksAlive(s: State) { !s.main.TasksFreed? }

  predicate Enabled(c: Config, s: State, a: Action) {
    match a
    case Spawn => s.main.Creating? && s.main.i < c.threads <= |s.workers|
    case ReadStart => s.main.Creating? && s.main.i >= c.threads
    case Release => s.main.Ticked?
    case Join => s.main.Joining? && s.main.i < c.threads <= |s.workers| && s.workers[s.main.i].pc.Finished?
    case ReadEnd => s.main.Joining? && s.main.i >= c.threads
    case FreeIds => s.main.Measured?
    case FreeTasks => s.main.IdsFreed?
    case Spin(w) => w < |s.workers| && s.workers[w].pc.Spinning? && !s.flag
    case Enter(w) => w < |s.workers| && s.workers[w].pc.Spinning? && s.flag
    case Iterate(w) => w < |s.workers| && s.workers[w].pc.Working? && s.workers[w].pc.done < c.blocks
    case Return(w) => w < |s.workers| && s.workers[w].pc.Working? && s.workers[w].pc.done >= c.blocks
  }

  /** The eight accumulators, 1 to 8 before the first block. */
  function Increment(regs: seq<nat>): seq<nat> {
    seq(|regs|, j requires 0 <= j < |regs| => W64(regs[j] + 1))
  }

  function Effect(c: Config, s: State, a: Action): State
    requires Enabled(c, s, a)
  {
    match a
    case Spawn => s.(main := Creating(s.main.i + 1),
                     workers := s.workers[s.main.i := s.workers[s.main.i].(pc := Spinning)])
    case ReadStart => s.(main := Ticked, startTime := s.now, startTick := W64(s.now))
    case Release => s.(main := Joining(0), flag := true)
    case Join => s.(main := Joining(s.main.i + 1), sink := Xor(s.sink, s.workers[s.main.i].result))
    case ReadEnd => s.(main := Measured, endTime := s.now, elapsed := W64(W64(s.now) - s.startTick))
    case FreeIds => s.(main := IdsFreed)
    case FreeTasks => s.(main := TasksFreed)
    case Spin(w) => s
    case Enter(w) => s.(workers := s.workers[w :=
                        s.workers[w].(pc := Working(0, [1, 2, 3, 4, 5, 6, 7, 8]), workStart := s.now)])
    case Iterate(w) => s.(workers := s.workers[w :=
                          s.workers[w].(pc := Working(s.workers[w].pc.done + 1, Increment(s.workers[w].pc.regs)))])
    case Return(w) => s.(workers := s.workers[w :=
                         s.workers[w].(pc := Finished, result := W64(Sum(s.workers[w].pc.regs)), workEnd := s.now)])
  }

  ghost predicate Next(c: Config, s: State, a: Action, s': State) {
    && s.now <= s'.now
    && Enabled(c, s, a)
    && s' == Effect(c, s.(now := s'.now), a)
  }

  ghost predicate Run(c: Config, run: seq<State>, actions: seq<Action>) {
    && |run| == |actions| + 1
    && run[0] == InitialState(c)
    && forall k: nat :: k < |actions| ==> Next(c, run[k], actions[k], run[k + 1])
  }

  // ----- the invariant

  /** What the kernel returns after all its blocks. */
  function KernelResult(blocks: nat): nat { W64(36 + 8 * blocks) }

  /** The sink after the first i joins. */
  function Folded(sink: nat, result: nat, i: nat): nat {
    if i == 0 then sink else Xor(Folded(sink, result, i - 1), result)
  }

  predicate Started(s: State) { !s.main.Creating? }
  predicate Released(s: State) { !s.main.Creating? && !s.main.Ticked? }
  predicate Joined(s: State) { s.main.Measured? || s.main.IdsFreed? || s.main.TasksFreed? }

  ghost predicate RegsCorrect(regs: seq<nat>, done: nat) {
    |regs| == 8 && forall j :: 0 <= j < 8 ==> regs[j] == W64(j + 1 + done)
  }

  ghost predicate WorkerInv(c: Config, s: State, w: nat)
    requires w < |s.workers|
  {
    var v := s.workers[w];
    && (v.pc.Absent? <==> s.main.Creating? && s.main.i <= w)
    && (v.pc.Working? || v.pc.Finished? ==> s.flag && s.startTime <= v.workStart <= s.now)
    && (v.pc.Working? ==> v.pc.done <= c.blocks && RegsCorrect(v.pc.regs, v.pc.done))
    && (v.pc.Finished? ==> v.result == KernelResult(c.blocks) && v.workStart <= v.workEnd <= s.now)
    && (s.main.Joining? && w < s.main.i ==> v.pc.Finished?)
    && (Joined(s) ==> v.pc.Finished? && v.workEnd <= s.endTime)
  }

  function Joins(c: Config, s: State): nat {
    if s.main.Joining? then s.main.i else if Joined(s) then c.threads else 0
  }

  ghost predicate MainInv(c: Config, s: State) {
    && |s.workers| == c.threads
    && (s.main.Creating? || s.main.Joining? ==> s.main.i <= c.threads)
    && (s.flag <==> Released(s))
    && (Started(s) ==> s.startTick == W64(s.startTime) && s.startTime <= s.now)
    && (Joined(s) ==> s.startTime <= s.endTime <= s.now && s.elapsed == W64(W64(s.endTime) - s.startTick))
    && s.sink == Folded(c.sink0, KernelResult(c.blocks), Joins(c, s))
  }

  ghost predicate Inv(c: Config, s: State) {
    MainInv(c, s) && forall w: nat :: w < |s.workers| ==> WorkerInv(c, s, w)
  }

  lemma RegsStep(regs: seq<nat>, done: nat)
    requires RegsCorrect(regs, done)
    ensures RegsCorrect(Increment(regs), done + 1)
  {
    forall j | 0 <= j < 8 ensures W64(regs[j] + 1) == W64(j + 1 + (done + 1)) {
      ModAdd(j + 1 + done, 1, TWO64);
    }
  }

  lemma {:induction false} SumWraps(regs: seq<nat>, exact: seq<int>)
    requires |regs| == |exact| && forall j :: 0 <= j < |regs| ==> regs[j] == W64(exact[j])
    ensures W64(Sum(regs)) == W64(Sum(exact))
  {
    if regs == [] {
    } else {
      var n := |regs| - 1;
      SumWraps(regs[..n], exact[..n]);
      ModAdd(Sum(regs[..n]), regs[n], TWO64);
      ModAdd(Sum(exact[..n]), regs[n], TWO64);
      ModAdd(exact[n], Sum(exact[..n]), TWO64);
    }
  }

  lemma RegsSum(regs: seq<nat>, done: nat)
    requires RegsCorrect(regs, done)
    ensures W64(Sum(regs)) == W64(36 + 8 * done)
  {
    var exact: seq<int> := seq(8, j => j + 1 + done);
    SumWraps(regs, exact);
    var indices: seq<int> := seq(8, j => j);
    SumIndices(indices);
    SumAdd(exact, indices, 1 + done);
  }

  lemma {:induction false} SumAdd(f: seq<int>, g: seq<int>, d: int)
    requires |f| == |g| && forall j :: 0 <= j < |f| ==> f[j] == g[j] + d
    ensures Sum(f) == Sum(g) + |f| * d
  {
    if f == [] {
    } else {
      var n := |f| - 1;
      SumAdd(f[..n], g[..n], d);
      assert (n + 1) * d == n * d + d;
    }
  }

  predicate ActsOn(a: Action, w: nat) {
    (a.Spin? || a.Enter? || a.Iterate? || a.Return?) && a.w == w
  }

  /** A worker keeps its invariant under its own steps... */
  lemma OwnStep(c: Config, s: State, a: Action, s': State, w: nat)
    requires Inv(c, s) && Next(c, s, a, s') && w < |s.workers| && ActsOn(a, w)
    ensures |s'.workers| == |s.workers| && WorkerInv(c, s', w)
  {
    assert WorkerInv(c, s, w);
    if a.Iterate? {
      RegsStep(s.workers[w].pc.regs, s.workers[w].pc.done);
    } else if a.Return? {
      RegsSum(s.workers[w].pc.regs, s.workers[w].pc.done);
    }
  }

  /** ... and under everyone else's. */
  lemma OthersStep(c: Config, s: State, a: Action, s': State, w: nat)
    requires Inv(c, s) && Next(c, s, a, s') && w < |s.workers| && !ActsOn(a, w)
    ensures |s'.workers| == |s.workers| && WorkerInv(c, s', w)
  {
    assert WorkerInv(c, s, w);
    if a.Join? { assert WorkerInv(c, s, s.main.i); }
  }

  lemma NextWorkerInv(c: Config, s: State, a: Action, s': State, w: nat)
    requires Inv(c, s) && Next(c, s, a, s') && w < |s.workers|
    ensures |s'.workers| == |s.workers| && WorkerInv(c, s', w)
  {
    if ActsOn(a, w) { OwnStep(c, s, a, s', w); } else { OthersStep(c, s, a, s', w); }
  }

  lemma NextMainInv(c: Config, s: State, a: Action, s': State)
    requires Inv(c, s) && Next(c, s, a, s')
    ensures MainInv(c, s')
  {
    if a.Join? { assert WorkerInv(c, s, s.main.i); }
  }

  lemma {:induction false} RunInv(c: Config, run: seq<State>, actions: seq<Action>, k: nat)
    requires Run(c, run, actions) && k < |run|
    ensures Inv(c, run[k])
  {
    if k == 0 {
    } else {
      RunInv(c, run, actions, k - 1);
      var s, a, s' := run[k - 1], actions[k - 1], run[k - 1 + 1];
      assert Next(c, s, a, s');
      NextMainInv(c, s, a, s');
      forall w: nat | w < |s'.workers| ensures WorkerInv(c, s', w) { NextWorkerInv(c, s, a, s', w); }
    }
  }

  // ----- safety over every run

  /** No worker is inside its kernel before the start tick was read and the flag released, and no
      worker ever moves once the tasks are freed. */
  lemma GateHolds(c: Config, run: seq<State>, actions: seq<Action>, k: nat, w: nat)
    requires Run(c, run, actions) && k < |run| && w < c.threads
    ensures |run[k].workers| == c.threads
    ensures var s, v := run[k], run[k].workers[w];
      && (v.pc.Working? || v.pc.Finished? ==> s.flag && Released(s) && s.startTime <= v.workStart)
      && (!TasksAlive(s) ==> v.pc.Finished?)
      && (k < |actions| && ActsOn(actions[k], w) ==> TasksAlive(s))
  {
    RunInv(c, run, actions, k);
    assert WorkerInv(c, run[k], w);
    if k < |actions| { assert Next(c, run[k], actions[k], run[k + 1]); }
  }

  /** The measured interval covers the whole work interval of every worker; while it is shorter than
      the counter's period the reported ticks are its exact length. */
  lemma ElapsedCovers(c: Config, run: seq<State>, actions: seq<Action>, k: nat, w: nat)
    requires Run(c, run, actions) && k < |run| && w < c.threads && Joined(run[k])
    ensures |run[k].workers| == c.threads
    ensures var s, v := run[k], run[k].workers[w];
      && s.startTime <= v.workStart <= v.workEnd <= s.endTime
      && (s.endTime - s.startTime < TWO64 ==> s.elapsed == s.endTime - s.startTime >= v.workEnd - v.workStart)
  {
    RunInv(c, run, actions, k);
    var s := run[k];
    assert WorkerInv(c, s, w);
    CounterDifference(s.startTime, s.endTime);
  }

  /** Subtracting two readings of the wrapping counter. */
  lemma CounterDifference(start: nat, end: nat)
    requires start <= end
    ensures W64(W64(end) - W64(start)) == W64(end - start)
    ensures end - start < TWO64 ==> W64(end - start) == end - start
  {
    var p, q := start / TWO64, end / TWO64;
    assert end - start == (W64(end) - W64(start)) + (q - p) * TWO64;
    ModShift(W64(end) - W64(start), q - p, TWO64);
    if end - start < TWO64 { SmallMod(end - start, TWO64); }
  }

  lemma {:induction false} FoldedParity(sink: nat, result: nat, i: nat)
    ensures Folded(sink, result, i) == if i % 2 == 0 then sink else Xor(sink, result)
  {
    if i == 0 {
    } else {
      FoldedParity(sink, result, i - 1);
      XorCancels(sink, result);
    }
  }

  /** 36 + 8 * blocks is 4 modulo 8, and 8 divides 2^64. */
  lemma ResultNeverZero(blocks: nat)
    ensures KernelResult(blocks) % 8 == 4
  {
    ModMod(36 + 8 * blocks, 8, 0x2000_0000_0000_0000);
  }

  /** Every worker returned 36 + 8 * blocks modulo 2^64, and the results cancel in the sink exactly
      when the thread count is even. */
  lemma SinkParity(c: Config, run: seq<State>, actions: seq<Action>, k: nat)
    requires Run(c, run, actions) && k < |run| && Joined(run[k])
    ensures forall w: nat :: w < |run[k].workers| ==> run[k].workers[w].result == W64(36 + 8 * c.blocks)
    ensures run[k].sink == if c.threads % 2 == 0 then c.sink0 else Xor(c.sink0, W64(36 + 8 * c.blocks))
    ensures run[k].sink == c.sink0 <==> c.threads % 2 == 0
  {
    RunInv(c, run, actions, k);
    FoldedParity(c.sink0, KernelResult(c.blocks), c.threads);
    forall w: nat | w < |run[k].workers| ensures run[k].workers[w].result == KernelResult(c.blocks) {
      assert WorkerInv(c, run[k], w);
    }
    ResultNeverZero(c.blocks);
    XorNonZeroChanges(c.sink0, KernelResult(c.blocks));
  }

  // ----- progress

  predicate Final(s: State) { s.main.TasksFreed? }

  /** No state of a run is stuck before the end: some step other than spinning is possible. */
  lemma NeverStuck(c: Config, run: seq<State>, actions: seq<Action>, k: nat)
    requires Run(c, run, actions) && k < |run| && !Final(run[k])
    ensures exists a: Action :: !a.Spin? && Enabled(c, run[k], a)
  {
    RunInv(c, run, actions, k);
    var s := run[k];
    if s.main.Joining? && s.main.i < c.threads {
      var w := s.main.i;
      assert WorkerInv(c, s, w);
      var a := match s.workers[w].pc
        case Finished => Join
        case Working(done, _) => if done < c.blocks then Iterate(w) else Return(w)
        case _ => Enter(w);
      assert !a.Spin? && Enabled(c, s, a);
    } else {
      var a := match s.main
        case Creating(i) => if i < c.threads then Spawn else ReadStart
        case Ticked => Release
        case Joining(_) => ReadEnd
        case Measured => FreeIds
        case _ => FreeTasks;
      assert !a.Spin? && Enabled(c, s, a);
    }
  }

  function WorkerWork(c: Config, v: Worker): int {
    match v.pc
    case Absent => c.blocks + 2
    case Spinning => c.blocks + 2
    case Working(done, _) => c.blocks - done + 1
    case Finished => 0
  }

  function MainWork(c: Config, m: MainPc): int {
    match m
    case Creating(i) => 2 * c.threads - i + 5
    case Ticked => c.threads + 4
    case Joining(i) => c.threads - i + 3
    case Measured => 2
    case IdsFreed => 1
    case TasksFreed => 0
  }

  function Works(c: Config, ws: seq<Worker>): (f: seq<int>)
    ensures |f| == |ws| && forall w :: 0 <= w < |ws| ==> f[w] == WorkerWork(c, ws[w])
  {
    seq(|ws|, w requires 0 <= w < |ws| => WorkerWork(c, ws[w]))
  }

  function Work(c: Config, s: State): int {
    MainWork(c, s.main) + Sum(Works(c, s.workers))
  }

  lemma WorkerUpdate(c: Config, ws: seq<Worker>, w: nat, v: Worker)
    requires w < |ws|
    ensures Sum(Works(c, ws[w := v])) == Sum(Works(c, ws)) - WorkerWork(c, ws[w]) + WorkerWork(c, v)
  {
    SumUpdate(Works(c, ws), w, WorkerWork(c, v));
    assert Works(c, ws[w := v]) == Works(c, ws)[w := WorkerWork(c, v)];
  }

  lemma NextWork(c: Config, s: State, a: Action, s': State)
    requires Inv(c, s) && Next(c, s, a, s')
    ensures Work(c, s') == Work(c, s) - if a.Spin? then 0 else 1
  {
    match a
    case Spawn => WorkerUpdate(c, s.workers, s.main.i, s'.workers[s.main.i]);
                  assert WorkerInv(c, s, s.main.i);
    case Enter(w) => WorkerUpdate(c, s.workers, w, s'.workers[w]);
    case Iterate(w) => WorkerUpdate(c, s.workers, w, s'.workers[w]);
    case Return(w) => WorkerUpdate(c, s.workers, w, s'.workers[w]);
                      assert WorkerInv(c, s, w);
    case _ =>
  }

  /** Steps that are not a turn of a spin loop. */
  function Productive(actions: seq<Action>): nat {
    if actions == [] then 0
    else Productive(actions[..|actions| - 1]) + if actions[|actions| - 1].Spin? then 0 else 1
  }

  lemma {:induction false} RunWork(c: Config, run: seq<State>, actions: seq<Action>, k: nat)
    requires Run(c, run, actions) && k < |run|
    ensures Productive(actions[..k]) + Work(c, run[k]) == c.threads * (c.blocks + 4) + 5
  {
    if k == 0 {
      SumConstant(Works(c, run[0].workers), c.blocks + 2);
    } else {
      RunWork(c, run, actions, k - 1);
      RunInv(c, run, actions, k - 1);
      assert Next(c, run[k - 1], actions[k - 1], run[k - 1 + 1]);
      NextWork(c, run[k - 1], actions[k - 1], run[k]);
      assert actions[..k][..k - 1] == actions[..k - 1];
    }
  }

  lemma {:induction false} SumNonNegative(f: seq<int>)
    requires forall j :: 0 <= j < |f| ==> f[j] >= 0
    ensures Sum(f) >= 0
    ensures Sum(f) == 0 ==> forall j :: 0 <= j < |f| ==> f[j] == 0
  {
    if f == [] {
    } else {
      SumNonNegative(f[..|f| - 1]);
    }
  }

  /** Under every schedule the protocol takes the same number of productive steps: a run that has
      made threads * (blocks + 4) + 5 of them is over, and one that has not is not. */
  lemma ProductiveSteps(c: Config, run: seq<State>, actions: seq<Action>)
    requires Run(c, run, actions)
    ensures Productive(actions) <= c.threads * (c.blocks + 4) + 5
    ensures Final(run[|actions|]) <==> Productive(actions) == c.threads * (c.blocks + 4) + 5
  {
    var k := |actions|;
    RunWork(c, run, actions, k);
    RunInv(c, run, actions, k);
    assert actions[..k] == actions;
    var s := run[k];
    forall w: nat | w < |s.workers|
      ensures WorkerWork(c, s.workers[w]) >= 0 && (Final(s) ==> WorkerWork(c, s.workers[w]) == 0)
    {
      assert WorkerInv(c, s, w);
    }
    SumNonNegative(Works(c, s.workers));
    if Final(s) { SumConstant(Works(c, s.workers), 0); }
  }
}
