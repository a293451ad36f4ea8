/** The pseudo-random byte filler (fill_random_u8 in apple/src/advanced_cpu_probes.c): a linear
    congruential generator modulo 2^32 whose top byte is emitted. */
module Lcg {
  import opened NumberTheory
  import opened Permutations

  // ----- exact iteration of x -> a * x + c

  function Iterate(a: int, c: int, x: int, n: nat): int {
    if n == 0 then x else a * Iterate(a, c, x, n - 1) + c
  }

  /** 1 + a + ... + a^(n-1) */
  function Geometric(a: int, n: nat): int {
    if n == 0 then 0 else a * Geometric(a, n - 1) + 1
  }

  lemma {:induction false} IterateAdd(a: int, c: int, x: int, i: nat, n: nat)
    ensures Iterate(a, c, x, i + n) == Iterate(a, c, Iterate(a, c, x, i), n)
  {
    if n == 0 {
    } else {
      IterateAdd(a, c, x, i, n - 1);
      assert Iterate(a, c, x, i + n) == a * Iterate(a, c, x, i + (n - 1)) + c;
    }
  }

  /** How far n steps move the state. */
  lemma {:induction false} Displacement(a: int, c: int, x: int, n: nat)
    ensures Iterate(a, c, x, n) - x == Geometric(a, n) * ((a - 1) * x + c)
  {
    if n == 0 {
    } else {
      Displacement(a, c, x, n - 1);
      DisplacementStep(a, c, x, Geometric(a, n - 1));
    }
  }

  lemma DisplacementStep(a: int, c: int, x: int, g: int)
    ensures a * (x + g * ((a - 1) * x + c)) + c - x == (a * g + 1) * ((a - 1) * x + c)
  {
    var d := (a - 1) * x + c;
    assert a * (x + g * d) == a * x + (a * g) * d;
    assert (a * g + 1) * d == (a * g) * d + d;
  }

  lemma {:induction false} GeometricAdd(a: int, m: nat, n: nat)
    ensures Geometric(a, m + n) == Pow(a, n) * Geometric(a, m) + Geometric(a, n)
  {
    if n == 0 {
    } else {
      GeometricAdd(a, m, n - 1);
      OneMoreTerm(a, Pow(a, n - 1), Geometric(a, m), Geometric(a, n - 1));
    }
  }

  lemma OneMoreTerm(a: int, p: int, g: int, h: int)
    ensures a * (p * g + h) + 1 == (a * p) * g + (a * h + 1)
  {
  }

  // ----- 2-adic valuation

  lemma {:induction false} PowModFour(a: int, n: nat)
    requires a % 4 == 1
    ensures Pow(a, n) % 4 == 1
  {
    if n == 0 {
    } else {
      PowModFour(a, n - 1);
      ModMul(a, Pow(a, n - 1), 4);
    }
  }

  /** With an odd multiplier the sum has the parity of its number of terms. */
  lemma {:induction false} GeometricParity(b: int, n: nat) returns (h: int)
    ensures Geometric(2 * b + 1, n) == 2 * h + n % 2
  {
    if n == 0 {
      h := 0;
    } else {
      var g := Geometric(2 * b + 1, n - 1);
      var h' := GeometricParity(b, n - 1);
      OddTimes(b, g);
      h := b * g + h' + (n - 1) % 2;
    }
  }

  lemma OddTimes(b: int, g: int)
    ensures (2 * b + 1) * g == 2 * (b * g) + g
  {
  }

  lemma {:induction false} GeometricNonNegative(a: int, n: nat)
    requires 0 <= a
    ensures 0 <= Geometric(a, n)
    ensures 0 <= Pow(a, n)
  {
    if n == 0 {
    } else {
      GeometricNonNegative(a, n - 1);
    }
  }

  /** An odd factor does not change divisibility by a power of two. */
  lemma OddFactor(x: int, o: nat, k: nat)
    requires o % 2 == 1
    ensures Divides(Pow2(k), x * o) <==> Divides(Pow2(k), x)
  {
    OddCoprime(o, k);
    EuclidLemma(o, Pow2(k), x);
  }

  lemma DoubleDivides(x: int, k: nat)
    requires 0 < k
    ensures Divides(Pow2(k), 2 * x) <==> Divides(Pow2(k - 1), x)
  {
    var p := Pow2(k - 1);
    if Divides(Pow2(k), 2 * x) {
      var q := Quotient(2 * p, 2 * x);
      assert 2 * x == 2 * (q * p);
      Multiple(p, q);
    }
    if Divides(p, x) {
      var q := Quotient(p, x);
      assert 2 * x == q * (2 * p);
      Multiple(2 * p, q);
    }
  }

  /** For a = 1 modulo 4, the geometric sum of n terms has exactly the factors of two that n has. */
  lemma {:induction false} GeometricValuation(a: nat, n: nat, k: nat)
    requires a % 4 == 1
    ensures Divides(Pow2(k), Geometric(a, n)) <==> Divides(Pow2(k), n)
  {
    if k == 0 {
    } else {
      if n % 2 == 1 {
        var h := GeometricParity(a / 2, n);
        OddNotDivided(n, k);
        OddNotDivided(Geometric(a, n), k);
      } else {
        GeometricValuation(a, n / 2, k - 1);
        ValuationOfDouble(a, n / 2, k);
      }
    }
  }

  lemma ValuationOfDouble(a: nat, m: nat, k: nat)
    requires a % 4 == 1 && 0 < k
    requires Divides(Pow2(k - 1), Geometric(a, m)) <==> Divides(Pow2(k - 1), m)
    ensures Divides(Pow2(k), Geometric(a, 2 * m)) <==> Divides(Pow2(k), 2 * m)
  {
    var o := GeometricDouble(a, m);
    DoubleDivides(Geometric(a, m) * o, k);
    OddFactor(Geometric(a, m), o, k - 1);
    DoubleDivides(m, k);
  }

  /** Doubling the number of terms doubles the sum, up to an odd factor. */
  lemma GeometricDouble(a: nat, m: nat) returns (o: nat)
    requires a % 4 == 1
    ensures o % 2 == 1 && Geometric(a, 2 * m) == 2 * (Geometric(a, m) * o)
  {
    o := HalfOfPowPlusOne(a, m);
    GeometricAdd(a, m, m);
    assert m + m == 2 * m;
    Factor(Pow(a, m), Geometric(a, m), o);
  }

  lemma Factor(p: int, g: int, o: int)
    requires p + 1 == 2 * o
    ensures p * g + g == 2 * (g * o)
  {
    assert p * g + g == (p + 1) * g;
  }

  lemma HalfOfPowPlusOne(a: nat, m: nat) returns (o: nat)
    requires a % 4 == 1
    ensures Pow(a, m) + 1 == 2 * o && o % 2 == 1
  {
    PowModFour(a, m);
    GeometricNonNegative(a, m);
    o := (Pow(a, m) + 1) / 2;
  }

  lemma DividedIsEven(x: int, k: nat)
    requires 0 < k && Divides(Pow2(k), x)
    ensures x % 2 == 0
  {
    var q := Quotient(Pow2(k), x);
    EvenProduct(Pow2(k), q);
  }

  lemma OddNotDivided(x: int, k: nat)
    requires 0 < k && x % 2 == 1
    ensures !Divides(Pow2(k), x)
  {
    if Divides(Pow2(k), x) { DividedIsEven(x, k); }
  }

  // ----- the full period

  /** With multiplier 1 modulo 4 and odd increment, two states agree modulo 2^k exactly when a whole
      number of periods of 2^k steps lies between them. */
  lemma FullPeriod(a: nat, c: nat, x: nat, k: nat, i: nat, n: nat)
    requires a % 4 == 1 && c % 2 == 1
    ensures Divides(Pow2(k), Iterate(a, c, x, i + n) - Iterate(a, c, x, i)) <==> Divides(Pow2(k), n)
  {
    var y := Iterate(a, c, x, i);
    IterateNonNegative(a, c, x, i);
    IterateAdd(a, c, x, i, n);
    Displacement(a, c, y, n);
    OddDrift(a, c, y);
    OddFactor(Geometric(a, n), (a - 1) * y + c, k);
    GeometricValuation(a, n, k);
  }

  lemma OddDrift(a: nat, c: nat, y: nat)
    requires a % 4 == 1 && c % 2 == 1
    ensures ((a - 1) * y + c) % 2 == 1 && 0 <= (a - 1) * y + c
  {
    EvenProduct(a - 1, y);
  }

  lemma {:induction false} IterateNonNegative(a: nat, c: nat, x: nat, n: nat)
    ensures 0 <= Iterate(a, c, x, n)
  {
    if n == 0 {
    } else {
      IterateNonNegative(a, c, x, n - 1);
    }
  }

  /** Half a period flips the top bit of the residue and keeps the bits below it. */
  lemma HalfPeriod(a: nat, c: nat, x: nat, k: nat, i: nat)
    requires a % 4 == 1 && c % 2 == 1
    ensures (Iterate(a, c, x, i + Pow2(k)) - Iterate(a, c, x, i)) % Pow2(k + 1) == Pow2(k)
  {
    var p := Pow2(k);
    var d := Iterate(a, c, x, i + p) - Iterate(a, c, x, i);
    Multiple(p, 1);
    FullPeriod(a, c, x, k, i, p);
    FullPeriod(a, c, x, k + 1, i, p);
    SmallMod(p, Pow2(k + 1));
    HalfResidue(d, p);
  }

  lemma HalfResidue(d: int, p: nat)
    requires 0 < p && Divides(p, d) && !Divides(2 * p, d)
    ensures d % (2 * p) == p
  {
    var q := Quotient(p, d);
    Regroup(q, p);
    if q % 2 == 0 {
      Multiple(2 * p, q / 2);
    } else {
      DivModUnique(d, 2 * p, q / 2, p);
    }
  }

  // ----- the generator of the probe

  const A: nat := 1664525
  const C: nat := 1013904223

  /** The 32-bit state after n steps. */
  function State(seed: nat, n: nat): (x: nat)
    requires seed < TWO32
    ensures x < TWO32
  {
    if n == 0 then seed else W32(State(seed, n - 1) * A + C)
  }

  lemma {:induction false} StateIsResidue(seed: nat, n: nat)
    requires seed < TWO32
    ensures State(seed, n) == Iterate(A, C, seed, n) % TWO32
  {
    if n == 0 {
      SmallMod(seed, TWO32);
    } else {
      StateIsResidue(seed, n - 1);
      var y := Iterate(A, C, seed, n - 1);
      ModMul(y, A, TWO32);
      ModAdd((y % TWO32) * A, C, TWO32);
      ModAdd(y * A, C, TWO32);
    }
  }

  lemma FullPeriod32(seed: nat, i: nat, n: nat)
    ensures Divides(TWO32, Iterate(A, C, seed, i + n) - Iterate(A, C, seed, i)) <==> n % TWO32 == 0
  {
    Pow2At32();
    FullPeriod(A, C, seed, 32, i, n);
  }

  /** States repeat with period exactly 2^32, from every seed. */
  lemma StatesRepeat(seed: nat, i: nat, n: nat)
    requires seed < TWO32
    ensures State(seed, i + n) == State(seed, i) <==> n % TWO32 == 0
  {
    StateIsResidue(seed, i);
    StateIsResidue(seed, i + n);
    FullPeriod32(seed, i, n);
    SameRemainder(Iterate(A, C, seed, i + n), Iterate(A, C, seed, i), TWO32);
  }

  /** The i-th byte stored. */
  function Byte(seed: nat, i: nat): (b: nat)
    requires seed < TWO32
    ensures b < 256
  {
    State(seed, i + 1) / 0x100_0000
  }

  method FillRandomU8(data: array<nat>, seed: nat)
    requires seed < TWO32
    modifies data
    ensures forall i :: 0 <= i < data.Length ==> data[i] == Byte(seed, i)
  {
    var x := seed;
    var i := 0;
    while i < data.Length
      invariant 0 <= i <= data.Length && x == State(seed, i)
      invariant forall j :: 0 <= j < i ==> data[j] == Byte(seed, j)
    {
      x := W32(x * A + C);
      data[i] := x / 0x100_0000;
      i := i + 1;
    }
  }

  /** The low bit of the emitted bytes is inverted 2^24 bytes later. */
  lemma LowBitFlips(seed: nat, i: nat)
    requires seed < TWO32
    ensures Byte(seed, i + 0x100_0000) % 2 != Byte(seed, i) % 2
  {
    Pow2At32();
    HalfPeriod(A, C, seed, 24, i + 1);
    var x, y := Iterate(A, C, seed, i + 1), Iterate(A, C, seed, i + 1 + 0x100_0000);
    StateIsResidue(seed, i + 1);
    StateIsResidue(seed, i + 1 + 0x100_0000);
    ModMod(x, 0x200_0000, 128);
    ModMod(y, 0x200_0000, 128);
    OppositeHalves(x, y, 0x100_0000);
    BitOf(State(seed, i + 1), 0x100_0000);
    BitOf(State(seed, i + 1 + 0x100_0000), 0x100_0000);
  }

  /** The bit of weight p tells in which half of its residue class modulo 2p a number lies. */
  lemma BitOf(s: nat, p: nat)
    requires 0 < p
    ensures s / p % 2 == if s % (2 * p) >= p then 1 else 0
  {
    var q, r := s / (2 * p), s % (2 * p);
    assert q * (2 * p) == (2 * q) * p;
    if r >= p {
      assert (2 * q + 1) * p == (2 * q) * p + p;
      DivModUnique(s, p, 2 * q + 1, r - p);
    } else {
      DivModUnique(s, p, 2 * q, r);
    }
  }

  lemma OppositeHalves(x: int, y: int, p: nat)
    requires 0 < p && (y - x) % (2 * p) == p
    ensures x % (2 * p) >= p <==> y % (2 * p) < p
  {
    var d := 2 * p;
    var r, k := y % d - x % d, y / d - x / d;
    assert y - x == r + k * d;
    ModShift(r, k, d);
    if r >= 0 { SmallMod(r, d); } else { DivModUnique(r, d, -1, r + d); }
  }

  lemma {:induction false} GeometricClosed(a: int, n: nat)
    ensures (a - 1) * Geometric(a, n) == Pow(a, n) - 1
  {
    if n == 0 {
    } else {
      GeometricClosed(a, n - 1);
      var g := Geometric(a, n - 1);
      assert (a - 1) * (a * g + 1) == a * ((a - 1) * g) + (a - 1);
    }
  }

  lemma ClosedProduct(a: int, g: int, p: int, x: int, c: int)
    requires (a - 1) * g == p - 1
    ensures x + g * ((a - 1) * x + c) == p * x + c * g
  {
    assert g * ((a - 1) * x + c) == ((a - 1) * g) * x + c * g;
    assert (p - 1) * x == p * x - x;
  }

  /** Byte i in closed form: the top byte of p * seed + c * (p - 1) / (a - 1) modulo 2^32, where p is the
      power i + 1 of the multiplier. */
  lemma ByteClosedForm(seed: nat, i: nat) returns (p: int, g: int)
    requires seed < TWO32
    ensures p == Pow(1664525, i + 1) && 1664524 * g == p - 1
    ensures Byte(seed, i) == (p * seed + 1013904223 * g) % 0x1_0000_0000 / 0x100_0000
  {
    p, g := Pow(A, i + 1), Geometric(A, i + 1);
    GeometricClosed(A, i + 1);
    StateIsResidue(seed, i + 1);
    Displacement(A, C, seed, i + 1);
    ClosedProduct(A, g, p, seed, C);
  }

  // ----- the period of the emitted bytes

  const TWO31: nat := 0x8000_0000

  lemma TopBit(s: nat)
    ensures s / 0x100_0000 >= 128 <==> s >= TWO31
  {
  }

  /** The top bit of the emitted bytes is inverted 2^31 bytes later. */
  lemma TopBitFlips(seed: nat, i: nat)
    requires seed < TWO32
    ensures Byte(seed, i + TWO31) != Byte(seed, i)
  {
    Pow2At32();
    HalfPeriod(A, C, seed, 31, i + 1);
    var x, y := Iterate(A, C, seed, i + 1), Iterate(A, C, seed, i + 1 + TWO31);
    StateIsResidue(seed, i + 1);
    StateIsResidue(seed, i + 1 + TWO31);
    OppositeHalves(x, y, TWO31);
    TopBit(State(seed, i + 1));
    TopBit(State(seed, i + 1 + TWO31));
  }

  ghost predicate BytesRepeat(seed: nat, p: nat)
    requires seed < TWO32
  {
    forall i: nat :: Byte(seed, i + p) == Byte(seed, i)
  }

  lemma {:induction false} RepeatOften(seed: nat, p: nat, m: nat, i: nat)
    requires seed < TWO32 && BytesRepeat(seed, p)
    ensures Byte(seed, i + m * p) == Byte(seed, i)
  {
    if m == 0 {
      assert i + m * p == i;
    } else {
      RepeatOften(seed, p, m - 1, i);
      assert Byte(seed, (i + (m - 1) * p) + p) == Byte(seed, i + (m - 1) * p);
      OneMore(m, p);
    }
  }

  /** Every positive number is an odd number times a power of two. */
  lemma {:induction false} OddPart(p: nat) returns (o: nat, k: nat)
    requires 0 < p
    ensures o % 2 == 1 && p == o * Pow2(k)
  {
    if p % 2 == 1 {
      o, k := p, 0;
    } else {
      o, k := OddPart(p / 2);
      assert p == 2 * (o * Pow2(k)) == o * (2 * Pow2(k));
      k := k + 1;
    }
  }

  lemma HalfwayProduct(m: nat, o: nat, b: nat, q: nat)
    requires m * b == TWO31 && o == 2 * q + 1
    ensures m * (o * b) == TWO31 + q * TWO32
  {
    assert m * (o * b) == o * (m * b);
  }

  lemma BigPowerDivides(o: nat, k: nat)
    requires k >= 32
    ensures (o * Pow2(k)) % TWO32 == 0
  {
    Pow2At32();
    Pow2Divides(32, k);
    Multiple(Pow2(k), o);
    DividesTransitive(Pow2(32), Pow2(k), o * Pow2(k));
  }

  /** Every number but the multiples of 2^32 has a multiple that is 2^31 modulo 2^32. */
  lemma HalfwayMultiple(p: nat) returns (m: nat, q: nat)
    requires p % TWO32 != 0
    ensures m * p == TWO31 + q * TWO32
  {
    var o, k := OddPart(p);
    if k >= 32 { BigPowerDivides(o, k); }
    Pow2At32();
    assert Pow2(32) == 2 * Pow2(31);
    Pow2Add(31 - k, k);
    m, q := Pow2(31 - k), o / 2;
    HalfwayProduct(m, o, Pow2(k), q);
  }

  /** The bytes repeat after p positions exactly when p is a multiple of 2^32. */
  lemma BytePeriod(seed: nat, p: nat)
    requires seed < TWO32
    ensures BytesRepeat(seed, p) <==> p % TWO32 == 0
  {
    if p % TWO32 == 0 {
      forall i: nat ensures Byte(seed, i + p) == Byte(seed, i) {
        StatesRepeat(seed, i + 1, p);
      }
    } else if BytesRepeat(seed, p) {
      var m, q := HalfwayMultiple(p);
      RepeatOften(seed, p, m, 0);
      TopBitFlips(seed, 0);
      Multiple(TWO32, q);
      StatesRepeat(seed, TWO31 + 1, q * TWO32);
    }
  }

  // ----- balance of the emitted bytes

  /** How many of `n` outputs from position `start` on are `v`. */
  function Occurrences(seed: nat, start: nat, n: nat, v: nat): nat
    requires seed < TWO32
  {
    if n == 0 then 0 else Occurrences(seed, start, n - 1, v) + if Byte(seed, start + n - 1) == v then 1 else 0
  }

  /** The positions of these outputs. */
  function Positions(seed: nat, start: nat, n: nat, v: nat): set<nat>
    requires seed < TWO32
  {
    set i: nat | start <= i < start + n && Byte(seed, i) == v
  }

  lemma {:induction false} OccurrencesCount(seed: nat, start: nat, n: nat, v: nat)
    requires seed < TWO32
    ensures Occurrences(seed, start, n, v) == |Positions(seed, start, n, v)|
  {
    var now := Positions(seed, start, n, v);
    if n == 0 {
      assert now == {};
    } else {
      OccurrencesCount(seed, start, n - 1, v);
      var before := Positions(seed, start, n - 1, v);
      if Byte(seed, start + n - 1) == v {
        assert now == before + {start + n - 1};
      } else {
        assert now == before;
      }
    }
  }

  function Window(seed: nat, start: nat, n: nat): (s: seq<nat>)
    requires seed < TWO32
    ensures |s| == n && forall i :: 0 <= i < n ==> s[i] == State(seed, start + i) < TWO32
  {
    if n == 0 then []
    else
      var w := Window(seed, start, n - 1);
      var r := w + [State(seed, start + n - 1)];
      assert forall i :: 0 <= i < n - 1 ==> r[i] == w[i];
      r
  }

  lemma WindowIsPerm(seed: nat, start: nat)
    requires seed < TWO32
    ensures IsPerm(Window(seed, start, TWO32))
  {
    var s := Window(seed, start, TWO32);
    forall i, j | 0 <= i < j < TWO32 ensures s[i] != s[j] {
      StatesRepeat(seed, start + i, j - i);
      SmallMod(j - i, TWO32);
    }
  }

  function Indicator(n: nat, v: nat): (f: seq<int>)
    ensures |f| == n && forall x :: 0 <= x < n ==> f[x] == if x / 0x100_0000 == v then 1 else 0
  {
    seq(n, x => if x / 0x100_0000 == v then 1 else 0)
  }

  lemma IndicatorSum(v: nat)
    requires v < 256
    ensures Sum(Indicator(TWO32, v)) == 0x100_0000
  {
    var f, lo, hi := Indicator(TWO32, v), v * 0x100_0000, (v + 1) * 0x100_0000;
    assert f == (f[..lo] + f[lo..hi]) + f[hi..];
    SumConcat(f[..lo] + f[lo..hi], f[hi..]);
    SumConcat(f[..lo], f[lo..hi]);
    SumConstant(f[..lo], 0);
    SumConstant(f[lo..hi], 1);
    SumConstant(f[hi..], 0);
  }

  lemma {:induction false} OccurrencesAreSum(seed: nat, start: nat, n: nat, v: nat)
    requires seed < TWO32
    ensures Occurrences(seed, start, n, v) == Sum(Gather(Indicator(TWO32, v), Window(seed, start + 1, n)))
  {
    if n == 0 {
    } else {
      OccurrencesAreSum(seed, start, n - 1, v);
      var g := Gather(Indicator(TWO32, v), Window(seed, start + 1, n));
      assert g[..n - 1] == Gather(Indicator(TWO32, v), Window(seed, start + 1, n - 1));
    }
  }

  /** Any 2^32 consecutive bytes contain every byte value exactly 2^24 times. */
  lemma BytesBalanced(seed: nat, start: nat, v: nat)
    requires seed < TWO32 && v < 256
    ensures Occurrences(seed, start, TWO32, v) == 0x100_0000
  {
    WindowIsPerm(seed, start + 1);
    OccurrencesAreSum(seed, start, TWO32, v);
    SumOverPerm(Indicator(TWO32, v), Window(seed, start + 1, TWO32));
    IndicatorSum(v);
  }
}
