/** Chasing pointers through a table: what a dependent load sequence visits, and when a table is one
    cycle through all of its nodes. Every ring the probes build turns out to be a rotation. */
module RotationRing {
  import opened NumberTheory
  import opened Permutations

  /** The node reached from `p` after `k` dependent loads. */
  function Follow(t: seq<nat>, p: nat, k: nat): (q: nat)
    requires Below(t, |t|) && p < |t|
    ensures q < |t|
  {
    if k == 0 then p else t[Follow(t, p, k - 1)]
  }

  ghost predicate Reaches(t: seq<nat>, p: nat, q: nat)
    requires Below(t, |t|) && p < |t|
  {
    exists k: nat :: k < |t| && Follow(t, p, k) == q
  }

  /** From any node, any node is reached in fewer loads than there are nodes. */
  ghost predicate SingleCycle(t: seq<nat>) {
    && Below(t, |t|)
    && forall p: nat, q: nat :: p < |t| && q < |t| ==> Reaches(t, p, q)
  }

  ghost predicate IsRotation(t: seq<nat>, s: nat) {
    forall i: nat :: i < |t| ==> t[i] == (i + s) % |t|
  }

  lemma OneMoreStride(n: nat, s: nat, p: nat, k: nat)
    requires 0 < n && 0 < k
    ensures ((p + (k - 1) * s) % n + s) % n == (p + k * s) % n
  {
    ModAdd(p + (k - 1) * s, s, n);
    assert (k - 1) * s + s == k * s;
  }

  lemma NoStride(n: nat, s: nat, p: nat, k: nat)
    requires p < n && k == 0
    ensures (p + k * s) % n == p
  {
    assert k * s == 0;
    SmallMod(p, n);
  }

  lemma OneMoreLoad(t: seq<nat>, s: nat, p: nat, k: nat, before: nat, after: nat)
    requires IsRotation(t, s) && Below(t, |t|) && p < |t| && 0 < k
    requires Follow(t, p, k - 1) == before && after == (before + s) % |t|
    ensures Follow(t, p, k) == after
  {
  }

  /** k loads move k strides around the ring. */
  lemma {:induction false} FollowRotation(t: seq<nat>, s: nat, p: nat, k: nat)
    requires IsRotation(t, s) && Below(t, |t|) && p < |t|
    ensures Follow(t, p, k) == (p + k * s) % |t|
  {
    if k == 0 {
      NoStride(|t|, s, p, k);
    } else {
      FollowRotation(t, s, p, k - 1);
      OneMoreStride(|t|, s, p, k);
      OneMoreLoad(t, s, p, k, (p + (k - 1) * s) % |t|, (p + k * s) % |t|);
    }
  }

  /** Two moments of a chase are at the same node exactly when they are whole laps apart. */
  lemma SameNode(t: seq<nat>, s: nat, p: nat, j: nat, k: nat)
    requires IsRotation(t, s) && Below(t, |t|) && p < |t| && Coprime(s, |t|)
    ensures Follow(t, p, j) == Follow(t, p, k) <==> j % |t| == k % |t|
  {
    var n := |t|;
    FollowRotation(t, s, p, j);
    FollowRotation(t, s, p, k);
    SameRemainder(p + j * s, p + k * s, n);
    assert (p + j * s) - (p + k * s) == (j - k) * s;
    EuclidLemma(s, n, j - k);
    SameRemainder(j, k, n);
  }

  /** The chase comes back to its start after `n` loads, its multiples, and never otherwise. */
  lemma FirstReturn(t: seq<nat>, s: nat, p: nat, k: nat)
    requires IsRotation(t, s) && Below(t, |t|) && p < |t| && Coprime(s, |t|)
    ensures Follow(t, p, k) == p <==> Divides(|t|, k)
  {
    SameNode(t, s, p, k, 0);
    SmallMod(0, |t|);
  }

  lemma RotationReaches(t: seq<nat>, s: nat, p: nat, q: nat)
    requires IsRotation(t, s) && Below(t, |t|) && p < |t| && q < |t| && Coprime(s, |t|)
    ensures Reaches(t, p, q)
  {
    var n := |t|;
    var positions := Strided(n, s, p);
    StridedIsPerm(n, s, p);
    var k := Hits(positions, q);
    FollowRotation(t, s, p, k);
  }

  /** A rotation is a single cycle exactly when its stride is coprime to its length. */
  lemma RotationSingleCycle(t: seq<nat>, s: nat)
    requires 0 < |t| && IsRotation(t, s)
    ensures SingleCycle(t) <==> Coprime(s, |t|)
  {
    if Coprime(s, |t|) {
      forall p: nat, q: nat | p < |t| && q < |t| ensures Reaches(t, p, q) {
        RotationReaches(t, s, p, q);
      }
    }
    if SingleCycle(t) {
      CycleCoprime(t, s);
    }
  }

  lemma CycleCoprime(t: seq<nat>, s: nat)
    requires 0 < |t| && IsRotation(t, s) && SingleCycle(t)
    ensures Coprime(s, |t|)
  {
    var n := |t|;
    if n == 1 {
      OneCoprime(s);
      CoprimeSymmetric(1, s);
    } else {
      assert Reaches(t, 0, 1);
      var k: nat :| k < n && Follow(t, 0, k) == 1;
      FollowRotation(t, s, 0, k);
      UnitCoprime(s, n, k);
    }
  }

  lemma UnitCoprime(s: nat, n: nat, k: nat)
    requires 1 < n && (k * s) % n == 1
    ensures Coprime(s, n)
  {
    GcdDivides(s, n);
    var g, q := Gcd(s, n), k * s / n;
    DividesCombination(g, s, n, k, -q);
    assert k * s + -q * n == 1;
    if g > 1 { SmallMod(1, g); }
  }

  // ----- a single cycle has no two pointers to one node

  ghost function Predecessor(t: seq<nat>, q: nat): (i: nat)
    requires SingleCycle(t) && q < |t|
    ensures i < |t| && t[i] == q
  {
    PredecessorExists(t, q);
    var i: nat :| i < |t| && t[i] == q;
    i
  }

  lemma PredecessorExists(t: seq<nat>, q: nat)
    requires SingleCycle(t) && q < |t|
    ensures exists i: nat :: i < |t| && t[i] == q
  {
    var p := t[q];
    assert Reaches(t, p, q);
    var k: nat :| k < |t| && Follow(t, p, k) == q;
    if k > 0 {
      assert t[Follow(t, p, k - 1)] == q;
    } else {
      assert t[q] == q;
    }
  }

  /** The pointers of a single cycle are a permutation of the nodes. */
  lemma SingleCycleIsPerm(t: seq<nat>)
    requires SingleCycle(t)
    ensures IsPerm(t)
  {
    var n := |t|;
    var inv := seq(n, q requires 0 <= q < n => Predecessor(t, q));
    assert forall q :: 0 <= q < n ==> t[inv[q]] == q;
    assert IsPerm(inv);
    forall i, j | 0 <= i < j < n ensures t[i] != t[j] {
      var a := Hits(inv, i);
      var b := Hits(inv, j);
    }
  }

  // ----- how often a chase reads each node

  /** How many of the first `steps` loads of a chase from `p` read node `q`. */
  function Visits(t: seq<nat>, p: nat, q: nat, steps: nat): nat
    requires Below(t, |t|) && p < |t|
  {
    if steps == 0 then 0
    else Visits(t, p, q, steps - 1) + if Follow(t, p, steps - 1) == q then 1 else 0
  }

  /** The loads that read node q. */
  function Readings(t: seq<nat>, p: nat, q: nat, steps: nat): set<nat>
    requires Below(t, |t|) && p < |t|
  {
    set i: nat | i < steps && Follow(t, p, i) == q
  }

  lemma {:induction false} VisitsCount(t: seq<nat>, p: nat, q: nat, steps: nat)
    requires Below(t, |t|) && p < |t|
    ensures Visits(t, p, q, steps) == |Readings(t, p, q, steps)|
  {
    if steps == 0 {
      assert Readings(t, p, q, steps) == {};
    } else {
      VisitsCount(t, p, q, steps - 1);
      OneMoreReading(t, p, q, steps);
    }
  }

  lemma OneMoreReading(t: seq<nat>, p: nat, q: nat, steps: nat)
    requires Below(t, |t|) && p < |t| && 0 < steps
    ensures |Readings(t, p, q, steps)| ==
      |Readings(t, p, q, steps - 1)| + if Follow(t, p, steps - 1) == q then 1 else 0
  {
    var now, before, last := Readings(t, p, q, steps), Readings(t, p, q, steps - 1), steps - 1;
    if Follow(t, p, last) == q {
      assert now == before + {last};
    } else {
      assert now == before;
    }
  }

  lemma {:induction false} VisitsClosedForm(t: seq<nat>, s: nat, p: nat, k: nat, steps: nat)
    requires IsRotation(t, s) && Below(t, |t|) && p < |t| && k < |t| && Coprime(s, |t|)
    ensures Visits(t, p, Follow(t, p, k), steps) == (steps + |t| - 1 - k) / |t|
  {
    var n := |t|;
    if steps == 0 {
      SmallMod(n - 1 - k, n);
    } else {
      VisitsClosedForm(t, s, p, k, steps - 1);
      SameNode(t, s, p, steps - 1, k);
      SmallMod(k, n);
      NextQuotient(steps - 1, k, n);
    }
  }

  lemma NextQuotient(m: nat, k: nat, n: nat)
    requires k < n
    ensures (m + 1 + n - 1 - k) / n == (m + n - 1 - k) / n + if m % n == k then 1 else 0
  {
    var q, r := m / n, m % n;
    assert m == q * n + r;
    if r >= k {
      assert m + n - k == (q + 1) * n + (r - k);
      DivModUnique(m + n - k, n, q + 1, r - k);
      if r > k {
        DivModUnique(m + n - 1 - k, n, q + 1, r - k - 1);
      } else {
        DivModUnique(m + n - 1 - k, n, q, n - 1);
      }
    } else {
      DivModUnique(m + n - k, n, q, n + r - k);
      DivModUnique(m + n - 1 - k, n, q, n + r - k - 1);
    }
  }

  /** A chase is balanced: every node is read floor(steps/n) or ceil(steps/n) times. */
  lemma BalancedVisits(t: seq<nat>, s: nat, p: nat, q: nat, steps: nat)
    requires IsRotation(t, s) && Below(t, |t|) && p < |t| && q < |t| && Coprime(s, |t|)
    ensures steps / |t| <= Visits(t, p, q, steps) <= (steps + |t| - 1) / |t|
  {
    var n := |t|;
    RotationReaches(t, s, p, q);
    var k: nat :| k < n && Follow(t, p, k) == q;
    VisitsClosedForm(t, s, p, k, steps);
    DivMonotone(steps, steps + n - 1 - k, n);
    DivMonotone(steps + n - 1 - k, steps + n - 1, n);
  }

  lemma DivMonotone(x: int, y: int, d: int)
    requires 0 < d && x <= y
    ensures x / d <= y / d
  {
    if x / d > y / d {
      MulLe(y / d + 1, x / d, d);
    }
  }
}
