/** The CPU pointer rings (apple/src/deep_cpu_probes.c, advanced_cpu_probes.c, cpu_probes.c): their
    construction by a masked odd multiplier in wrapping 64-bit arithmetic, and the unrolled and
    multi-stream chases over them. */
module PointerRings {
  import opened NumberTheory
  import opened Bits
  import opened Permutations
  import opened RotationRing
  import opened Wrappers

  // ----- index arithmetic

  /** `(i * multiplier) & mask`, in 64 bits. */
  function Slot(i: nat, multiplier: nat, mask: nat): (s: nat)
    ensures s <= mask
  {
    And(W64(i * multiplier), mask)
  }

  lemma SlotIsRemainder(i: nat, multiplier: nat, k: nat)
    requires k <= 64
    ensures Slot(i, multiplier, Pow2(k) - 1) == (i * multiplier) % Pow2(k)
  {
    AndMask(W64(i * multiplier), k);
    WrapThenMask(i * multiplier, k);
  }

  /** On a power of two, `current` and `next` of iteration i are consecutive multiples of the
      multiplier around the ring. */
  lemma SlotsOfStep(i: nat, multiplier: nat, nodes: nat)
    requires IsPow2(nodes) && i < nodes < TWO64
    ensures Slot(i, multiplier, W64(nodes - 1)) == (i * multiplier) % nodes
    ensures Slot(W64(i + 1), multiplier, W64(nodes - 1)) == ((i + 1) * multiplier) % nodes
  {
    var e := PowerBelow(nodes);
    SmallMod(nodes - 1, TWO64);
    SmallMod(i + 1, TWO64);
    SlotIsRemainder(i, multiplier, e);
    SlotIsRemainder(i + 1, multiplier, e);
  }

  lemma PowerBelow(nodes: nat) returns (k: nat)
    requires IsPow2(nodes) && nodes < TWO64
    ensures k < 64 && nodes == Pow2(k)
  {
    k :| nodes == Pow2(k);
    Pow2Values();
    Pow2Monotone(64, k);
  }

  /** The table both ring builders arrive at: node p links to node p + multiplier. */
  function RingTable(nodes: nat, multiplier: nat): (t: seq<nat>)
    requires 0 < nodes
    ensures |t| == nodes && Below(t, nodes) && IsRotation(t, multiplier)
  {
    seq(nodes, p => (p + multiplier) % nodes)
  }

  /** It is a single cycle, for every power of two and every odd multiplier. */
  lemma RingIsOneCycle(nodes: nat, multiplier: nat)
    requires IsPow2(nodes) && multiplier % 2 == 1
    ensures Coprime(multiplier, nodes) && SingleCycle(RingTable(nodes, multiplier))
  {
    var k: nat :| nodes == Pow2(k);
    OddCoprime(multiplier, k);
    RotationSingleCycle(RingTable(nodes, multiplier), multiplier);
  }

  /** With multiplier 131071 and at most 2^17 nodes the ring simply walks downwards. */
  lemma DescendingRing(nodes: nat, p: nat)
    requires IsPow2(nodes) && nodes <= 131072 && p < nodes
    ensures RingTable(nodes, 131071)[p] == if p == 0 then nodes - 1 else p - 1
  {
    var k: nat :| nodes == Pow2(k);
    Pow2Values();
    Pow2Monotone(17, k);
    Pow2Divides(k, 17);
    var q := Quotient(nodes, 131072);
    assert p + 131071 == (p - 1) + q * nodes;
    ModShift(p - 1, q, nodes);
    if p == 0 { DivModUnique(-1, nodes, -1, nodes - 1); } else { SmallMod(p - 1, nodes); }
  }

  // ----- rings in memory

  /** `slots[k]` is the word at byte address base + k * stride. */
  class PointerRing {
    const base: nat
    const stride: nat
    const slots: array<nat>

    /** posix_memalign followed by memset to zero. */
    constructor (base: nat, nodes: nat, stride: nat)
      ensures this.base == base && this.stride == stride && fresh(slots)
      ensures slots.Length == nodes && forall k :: 0 <= k < nodes ==> slots[k] == 0
    {
      this.base, this.stride := base, stride;
      slots := new nat[nodes](_ => 0);
    }

    function Address(k: nat): (a: nat) {
      base + k * stride
    }

    /** With at least eight bytes from node to node, eight-byte slots neither overlap nor leave the
        buffer. */
    lemma SlotsDisjoint(k: nat, l: nat)
      requires 8 <= stride && k < l < slots.Length
      ensures Address(k) + 8 <= Address(l) && Address(l) + 8 <= Address(slots.Length)
    {
      MulLe(k + 1, l, stride);
      MulLe(l + 1, slots.Length, stride);
    }

    /** Each slot holds the address of the node the table gives for it. */
    ghost predicate Links(t: seq<nat>)
      reads slots
    {
      && 8 <= stride
      && |t| == slots.Length && Below(t, |t|)
      && forall k: nat :: k < |t| ==> slots[k] == Address(t[k])
    }

    /** `ldr p, [p]` */
    method Load(p: nat, ghost t: seq<nat>, ghost k: nat) returns (v: nat)
      requires Links(t) && k < |t| && p == Address(k)
      ensures v == Address(t[k])
    {
      assert (p - base) / stride == k by { DivModUnique(p - base, stride, k, 0); }
      v := slots[(p - base) / stride];
    }

    /** Eight-way unrolled blocks and a tail perform exactly `steps` dependent loads. */
    method PointerChaseSteps(start: nat, steps: nat, ghost t: seq<nat>, ghost k: nat) returns (p: nat)
      requires Links(t) && k < |t| && start == Address(k)
      ensures p == Address(Follow(t, k, steps))
    {
      p := start;
      var blocks := steps / 8;
      var i := 0;
      while i < blocks
        invariant 0 <= i <= blocks
        invariant p == Address(Follow(t, k, 8 * i))
      {
        ghost var d := 8 * i;
        p := Load(p, t, Follow(t, k, d));
        p := Load(p, t, Follow(t, k, d + 1));
        p := Load(p, t, Follow(t, k, d + 2));
        p := Load(p, t, Follow(t, k, d + 3));
        p := Load(p, t, Follow(t, k, d + 4));
        p := Load(p, t, Follow(t, k, d + 5));
        p := Load(p, t, Follow(t, k, d + 6));
        p := Load(p, t, Follow(t, k, d + 7));
        i := i + 1;
      }
      i := blocks * 8;
      while i < steps
        invariant blocks * 8 <= i <= steps
        invariant p == Address(Follow(t, k, i))
      {
        p := Load(p, t, Follow(t, k, i));
        i := i + 1;
      }
    }
  }

  // ----- construction

  /** After all n iterations every slot holds its successor: slot k was written in the iteration
      whose `current` it is, and in no other. */
  lemma EverySlotWritten(n: nat, m: nat, k: nat) returns (j: nat)
    requires k < n && Coprime(m, n)
    ensures j < n && (j * m) % n == k && ((j + 1) * m) % n == (k + m) % n
    ensures forall i: nat :: i < n && i != j ==> (0 + i * m) % n != k
  {
    StridedIsPerm(n, m, 0);
    j := Hits(Strided(n, m, 0), k);
    forall i: nat | i < n && i != j ensures (0 + i * m) % n != k {
      if i < j { StridedDistinct(n, m, 0, i, j); } else { StridedDistinct(n, m, 0, j, i); }
    }
    ModAdd(j * m, m, n);
    assert (j + 1) * m == j * m + m;
  }

  /** The guarded builders; the source uses the multipliers 97 and 131071. */
  method MakePointerRing(base: nat, nodes: nat, stride: nat, multiplier: nat) returns (r: Option<PointerRing>)
    requires nodes < TWO64 && 8 <= stride && multiplier % 2 == 1
    requires IsPow2(nodes) ==> base + nodes * stride <= TWO64
    ensures r.Some? <==> IsPow2(nodes)
    ensures r.Some? ==> fresh(r.value) && r.value.base == base && r.value.stride == stride
    ensures r.Some? ==> r.value.Links(RingTable(nodes, multiplier))
    ensures r.Some? ==>
      forall k: nat :: k < nodes ==> r.value.slots[k] == base + (k + multiplier) % nodes * stride
  {
    if nodes == 0 || And(nodes, W64(nodes - 1)) != 0 {
      if nodes > 0 {
        SmallMod(nodes - 1, TWO64);
        PowerOfTwoGuard(nodes);
      }
      return None;
    }
    SmallMod(nodes - 1, TWO64);
    PowerOfTwoGuard(nodes);
    var ring := new PointerRing(base, nodes, stride);
    FillRing(ring, nodes, multiplier);
    r := Some(ring);
  }

  /** The exploratory builder takes bytes and checks nothing. Every node is linked exactly when the
      node count is a power of two; otherwise some node keeps the null pointer from memset. */
  method MakePointerRingUnchecked(base: nat, bytes: nat, stride: nat) returns (ring: PointerRing)
    requires 8 <= stride && 0 < base && base + bytes <= TWO64
    ensures fresh(ring) && ring.base == base && ring.stride == stride && ring.slots.Length == bytes / stride
    ensures IsPow2(bytes / stride) ==> ring.Links(RingTable(bytes / stride, 97))
    ensures 0 < bytes / stride ==>
      ((forall k :: 0 <= k < bytes / stride ==> ring.slots[k] != 0) <==> IsPow2(bytes / stride))
  {
    var nodes := bytes / stride;
    DivAtMost(bytes, stride);
    ring := BareRing(base, nodes, stride);
  }

  method BareRing(base: nat, nodes: nat, stride: nat) returns (ring: PointerRing)
    requires nodes < TWO64 && 8 <= stride && 0 < base
    ensures fresh(ring) && ring.base == base && ring.stride == stride && ring.slots.Length == nodes
    ensures IsPow2(nodes) ==> ring.Links(RingTable(nodes, 97))
    ensures 0 < nodes ==> ((forall k :: 0 <= k < nodes ==> ring.slots[k] != 0) <==> IsPow2(nodes))
  {
    ring := new PointerRing(base, nodes, stride);
    FillRing(ring, nodes, 97);
  }

  lemma DivAtMost(x: nat, d: nat)
    requires 0 < d
    ensures x / d <= x
  {
    MulLe(1, d, x / d);
  }

  /** What the filling loop has done after i iterations on a power-of-two number of nodes. */
  ghost predicate Filled(slots: seq<nat>, base: nat, stride: nat, multiplier: nat, i: nat) {
    forall j: nat {:trigger j * multiplier} :: j < i && 0 < |slots| ==>
      slots[(j * multiplier) % |slots|] == base + ((j + 1) * multiplier) % |slots| * stride
  }

  lemma FillStep(slots: seq<nat>, base: nat, stride: nat, multiplier: nat, i: nat)
    requires i < |slots| && Coprime(multiplier, |slots|)
    requires Filled(slots, base, stride, multiplier, i)
    ensures var n := |slots|;
      Filled(slots[(i * multiplier) % n := base + ((i + 1) * multiplier) % n * stride], base, stride, multiplier, i + 1)
  {
    var n := |slots|;
    var current := (i * multiplier) % n;
    var after := slots[current := base + ((i + 1) * multiplier) % n * stride];
    forall j: nat {:trigger j * multiplier} | j < i + 1
      ensures after[(j * multiplier) % n] == base + ((j + 1) * multiplier) % n * stride
    {
      if j < i { StridedDistinct(n, multiplier, 0, j, i); }
    }
  }

  lemma FillComplete(slots: seq<nat>, base: nat, stride: nat, multiplier: nat)
    requires 0 < |slots| && Coprime(multiplier, |slots|)
    requires Filled(slots, base, stride, multiplier, |slots|)
    ensures forall k: nat :: k < |slots| ==> slots[k] == base + RingTable(|slots|, multiplier)[k] * stride
  {
    forall k: nat | k < |slots| ensures slots[k] == base + RingTable(|slots|, multiplier)[k] * stride {
      var j := EverySlotWritten(|slots|, multiplier, k);
    }
  }

  /** The filling loop, on any number of nodes: it never leaves the buffer; on a power of two it
      links every node, on any other count it leaves a node null. */
  method FillRing(ring: PointerRing, nodes: nat, multiplier: nat)
    requires nodes < TWO64 && ring.slots.Length == nodes && 8 <= ring.stride && multiplier % 2 == 1
    requires forall k :: 0 <= k < nodes ==> ring.slots[k] == 0
    modifies ring.slots
    ensures IsPow2(nodes) ==> ring.Links(RingTable(nodes, multiplier))
    ensures IsPow2(nodes) ==>
      forall k: nat :: k < nodes ==> ring.slots[k] == ring.base + (k + multiplier) % nodes * ring.stride
    ensures 0 < nodes && !IsPow2(nodes) ==> exists k :: 0 <= k < nodes && ring.slots[k] == 0
  {
    ghost var isPow2 := IsPow2(nodes);
    ghost var gap := 0;
    if isPow2 {
      RingIsOneCycle(nodes, multiplier);
    } else if nodes > 0 {
      gap := GapBelowMask(nodes);
    }
    var mask := W64(nodes - 1);
    var i := 0;
    while i < nodes
      invariant 0 <= i <= nodes
      invariant isPow2 ==> Filled(ring.slots[..], ring.base, ring.stride, multiplier, i)
      invariant 0 < nodes && !isPow2 ==> ring.slots[gap] == 0
    {
      var current := Slot(i, multiplier, mask);
      var next := Slot(W64(i + 1), multiplier, mask);
      SmallMod(nodes - 1, TWO64);
      if isPow2 {
        SlotsOfStep(i, multiplier, nodes);
        FillStep(ring.slots[..], ring.base, ring.stride, multiplier, i);
      }
      ghost var before := ring.slots[..];
      ring.slots[current] := ring.Address(next);
      assert ring.slots[..] == before[current := ring.Address(next)];
      i := i + 1;
    }
    if isPow2 {
      FillComplete(ring.slots[..], ring.base, ring.stride, multiplier);
    }
  }

  // ----- coverage of the cache and TLB sweeps

  function CacheSteps(smoke: bool, nodes: nat): nat {
    var steps := if smoke then 32768 else 262144;
    if steps < nodes * 16 then nodes * 16 else steps
  }

  function TlbSteps(smoke: bool, pages: nat): nat {
    var steps := if smoke then 32768 else 131072;
    if steps < pages * 16 then pages * 16 else steps
  }

  /** Every chase is balanced over the ring, from any node. */
  lemma ChaseIsBalanced(nodes: nat, multiplier: nat, p: nat, q: nat, steps: nat)
    requires IsPow2(nodes) && multiplier % 2 == 1 && p < nodes && q < nodes
    ensures steps / nodes <= Visits(RingTable(nodes, multiplier), p, q, steps) <= (steps + nodes - 1) / nodes
  {
    RingIsOneCycle(nodes, multiplier);
    BalancedVisits(RingTable(nodes, multiplier), multiplier, p, q, steps);
  }

  /** The sizing rules make every measured chase read every node at least sixteen times. */
  lemma SweepCoverage(nodes: nat, smoke: bool, q: nat)
    requires IsPow2(nodes) && q < nodes
    ensures Visits(RingTable(nodes, 97), 0, q, CacheSteps(smoke, nodes)) >= 16
    ensures Visits(RingTable(nodes, 97), 0, q, TlbSteps(smoke, nodes)) >= 16
    ensures var steps := if smoke then 32768 else 262144;
      CacheSteps(smoke, nodes) >= steps && (CacheSteps(smoke, nodes) > steps ==> CacheSteps(smoke, nodes) == 16 * nodes)
    ensures var steps := if smoke then 32768 else 131072;
      TlbSteps(smoke, nodes) >= steps && (TlbSteps(smoke, nodes) > steps ==> TlbSteps(smoke, nodes) == 16 * nodes)
  {
    ChaseIsBalanced(nodes, 97, 0, q, CacheSteps(smoke, nodes));
    ChaseIsBalanced(nodes, 97, 0, q, TlbSteps(smoke, nodes));
    DivModUnique(16 * nodes, nodes, 16, 0);
    DivMonotone(16 * nodes, CacheSteps(smoke, nodes), nodes);
    DivMonotone(16 * nodes, TlbSteps(smoke, nodes), nodes);
  }

  // ----- several independent rings

  /** ps[0] ^ ps[1] ^ ... ^ ps[n - 1], associated to the left. */
  function XorOf(ps: seq<nat>, n: nat): nat
    requires 1 <= n <= |ps|
  {
    if n == 1 then ps[0] else Xor(XorOf(ps, n - 1), ps[n - 1])
  }

  /** Bit b of each of the words. */
  function BitsAt(ps: seq<nat>, b: nat): (f: seq<int>)
    ensures |f| == |ps| && forall j :: 0 <= j < |ps| ==> f[j] == ps[j] / Pow2(b) % 2
  {
    seq(|ps|, j requires 0 <= j < |ps| => ps[j] / Pow2(b) % 2)
  }

  /** A bit of the result is the parity of the words that have it. */
  ghost predicate IsParity(r: nat, ps: seq<nat>) {
    forall b: nat :: r / Pow2(b) % 2 == Sum(BitsAt(ps, b)) % 2
  }

  lemma PrefixSum(f: seq<int>, n: nat)
    requires 1 <= n <= |f|
    ensures Sum(f[..n]) == Sum(f[..n - 1]) + f[n - 1]
    ensures n == 1 ==> Sum(f[..n]) == f[0]
  {
    assert f[..n] == f[..n - 1] + [f[n - 1]];
    SumSnoc(f[..n - 1], f[n - 1]);
  }

  lemma {:induction false} XorOfParity(ps: seq<nat>, n: nat, b: nat, f: seq<int>)
    requires 1 <= n <= |ps| == |f| && forall j :: 0 <= j < |ps| ==> f[j] == Bit(ps[j], b)
    ensures Bit(XorOf(ps, n), b) == Sum(f[..n]) % 2
  {
    PrefixSum(f, n);
    BitBelowTwo(ps[n - 1], b);
    if n == 1 {
    } else {
      XorOfParity(ps, n - 1, b, f);
      XorBits(XorOf(ps, n - 1), ps[n - 1], b);
      AddParity(Sum(f[..n - 1]), f[n - 1], Sum(f[..n - 1]) % 2, f[n - 1]);
    }
  }

  lemma XorIsParity(ps: seq<nat>)
    requires 1 <= |ps|
    ensures IsParity(XorOf(ps, |ps|), ps)
  {
    forall b: nat ensures XorOf(ps, |ps|) / Pow2(b) % 2 == Sum(BitsAt(ps, b)) % 2 {
      var f := BitsAt(ps, b);
      forall j | 0 <= j < |ps| ensures f[j] == Bit(ps[j], b) { BitIsDivision(ps[j], b); }
      XorOfParity(ps, |ps|, b, f);
      BitIsDivision(XorOf(ps, |ps|), b);
      assert f[..|ps|] == f;
    }
  }

  /** The returned expression p0 ^ p1 ^ ... */
  method XorTogether(ps: seq<nat>) returns (r: nat)
    requires 1 <= |ps|
    ensures r == XorOf(ps, |ps|) && IsParity(r, ps)
  {
    r := ps[0];
    var j := 1;
    while j < |ps|
      invariant 1 <= j <= |ps| && r == XorOf(ps, j)
    {
      r := Xor(r, ps[j]);
      j := j + 1;
    }
    XorIsParity(ps);
  }

  ghost predicate AllLinked(rings: seq<PointerRing>, ts: seq<seq<nat>>)
    reads set j | 0 <= j < |rings| :: rings[j].slots
  {
    && |rings| == |ts|
    && forall j :: 0 <= j < |rings| ==> rings[j].Links(ts[j]) && 0 < |ts[j]|
  }

  /** Where `width` stream pointers stand when every ring was advanced n times; the pointers of absent
      rings are null. */
  ghost function Fronts(rings: seq<PointerRing>, ts: seq<seq<nat>>, width: nat, n: nat): (p: seq<nat>)
    requires |rings| == |ts| && forall j :: 0 <= j < |ts| ==> 0 < |ts[j]| && Below(ts[j], |ts[j]|)
    ensures |p| == width && forall j :: 0 <= j < width ==>
      p[j] == if j < |rings| then rings[j].Address(Follow(ts[j], 0, n)) else 0
  {
    seq(width, j requires 0 <= j < width => if j < |rings| then rings[j].Address(Follow(ts[j], 0, n)) else 0)
  }

  /** One `ldr` on each of the streams in turn. */
  method LoadStreams(rings: seq<PointerRing>, p: seq<nat>, ghost ts: seq<seq<nat>>, ghost n: nat)
    returns (q: seq<nat>)
    requires AllLinked(rings, ts) && |rings| <= |p| && p == Fronts(rings, ts, |p|, n)
    ensures q == Fronts(rings, ts, |p|, n + 1)
  {
    q := p;
    var j := 0;
    while j < |rings|
      invariant 0 <= j <= |rings| && |q| == |p|
      invariant forall k :: 0 <= k < |p| ==> q[k] == Fronts(rings, ts, |p|, if k < j then n + 1 else n)[k]
    {
      var v := rings[j].Load(q[j], ts[j], Follow(ts[j], 0, n));
      q := q[j := v];
      j := j + 1;
    }
  }

  method StartPointers(rings: seq<PointerRing>, width: nat, ghost ts: seq<seq<nat>>) returns (p: seq<nat>)
    requires AllLinked(rings, ts) && |rings| <= width
    ensures p == Fronts(rings, ts, width, 0)
  {
    p := seq(width, j requires 0 <= j < width => if j < |rings| then rings[j].base else 0);
  }

  /** How far `mlp_chase` advances each ring: its blocks of four loads are dealt round-robin. */
  function AdvancePerRing(streams: nat, steps: nat): nat
    requires streams in {1, 2, 4}
  {
    4 * (steps / 4) / streams
  }

  lemma AdvanceByBlocks(streams: nat, steps: nat)
    requires streams in {1, 2, 4}
    ensures AdvancePerRing(streams, steps) ==
      if streams == 1 then 4 * (steps / 4) else if streams == 2 then 2 * (steps / 4) else steps / 4
  {
    var b := steps / 4;
    assert AdvancePerRing(1, steps) == 4 * b && AdvancePerRing(2, steps) == 2 * b && AdvancePerRing(4, steps) == b;
  }

  /** The four loads of one block: four of stream 0, two rounds of streams 0 and 1, or one round of
      streams 0 to 3. */
  method MlpBlock(rings: seq<PointerRing>, streams: nat, p: seq<nat>, ghost ts: seq<seq<nat>>, ghost n: nat)
    returns (q: seq<nat>)
    requires streams in {1, 2, 4} && |rings| == streams && AllLinked(rings, ts)
    requires p == Fronts(rings, ts, 4, n)
    ensures q == Fronts(rings, ts, 4, n + if streams == 1 then 4 else if streams == 2 then 2 else 1)
  {
    q := LoadStreams(rings, p, ts, n);
    if streams == 1 {
      q := LoadStreams(rings, q, ts, n + 1);
      q := LoadStreams(rings, q, ts, n + 2);
      q := LoadStreams(rings, q, ts, n + 3);
    } else if streams == 2 {
      q := LoadStreams(rings, q, ts, n + 1);
    }
  }

  /** `mlp_chase`: the result is the xor of the four pointers, each ring advanced by its share. */
  method MlpChase(rings: seq<PointerRing>, streams: nat, steps: nat, ghost ts: seq<seq<nat>>) returns (r: nat)
    requires streams in {1, 2, 4} && |rings| == streams && AllLinked(rings, ts)
    ensures r == XorOf(Fronts(rings, ts, 4, AdvancePerRing(streams, steps)), 4)
    ensures IsParity(r, Fronts(rings, ts, 4, AdvancePerRing(streams, steps)))
  {
    var q := StartPointers(rings, 4, ts);
    var blocks := steps / 4;
    var i := 0;
    ghost var n := 0;
    while i < blocks
      invariant 0 <= i <= blocks
      invariant n == if streams == 1 then 4 * i else if streams == 2 then 2 * i else i
      invariant q == Fronts(rings, ts, 4, n)
    {
      q := MlpBlock(rings, streams, q, ts, n);
      n := n + if streams == 1 then 4 else if streams == 2 then 2 else 1;
      i := i + 1;
    }
    AdvanceByBlocks(streams, steps);
    r := XorTogether(q);
  }

  /** The reported operation count, `steps`, is the number of loads exactly when 4 divides it. */
  lemma MlpOps(streams: nat, steps: nat)
    requires streams in {1, 2, 4}
    ensures streams * AdvancePerRing(streams, steps) == steps <==> steps % 4 == 0
  {
    AdvanceByBlocks(streams, steps);
  }

  /** `chase_mlp`: each iteration loads once from each of 1, 2, 4 or 8 streams, so the reported
      iters * streams operations are the loads performed. */
  method ChaseMlp(rings: seq<PointerRing>, streams: nat, iters: nat, ghost ts: seq<seq<nat>>) returns (r: nat)
    requires streams in {1, 2, 4, 8} && |rings| == streams && AllLinked(rings, ts)
    ensures r == XorOf(Fronts(rings, ts, 8, iters), 8) && IsParity(r, Fronts(rings, ts, 8, iters))
  {
    var q := StartPointers(rings, 8, ts);
    var i := 0;
    while i < iters
      invariant 0 <= i <= iters
      invariant q == Fronts(rings, ts, 8, i)
    {
      q := LoadStreams(rings, q, ts, i);
      i := i + 1;
    }
    r := XorTogether(q);
  }
}
