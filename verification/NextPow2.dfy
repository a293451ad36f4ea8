/** next_pow2_u64 (apple/src/advanced_cpu_probes.c): rounding up to a power of two by smearing the
    top bit downwards. */
module NextPow2 {
  import opened NumberTheory
  import opened Bits
  import opened Wrappers

  function BitLength(v: nat): nat {
    if v == 0 then 0 else 1 + BitLength(v / 2)
  }

  lemma {:induction false} BitLengthBounds(v: nat)
    requires 0 < v
    ensures 1 <= BitLength(v) && Pow2(BitLength(v) - 1) <= v < Pow2(BitLength(v))
    ensures Shr(v, BitLength(v) - 1) == 1
  {
    if v <= 1 {
    } else {
      BitLengthBounds(v / 2);
    }
  }

  lemma {:induction false} ShrOnes(s: nat, j: nat)
    requires j <= s
    ensures Shr(Pow2(s) - 1, j) == Pow2(s - j) - 1
  {
    if j == 0 {
    } else {
      assert (Pow2(s) - 1) / 2 == Pow2(s - 1) - 1;
      ShrOnes(s - 1, j - 1);
    }
  }

  lemma {:induction false} ShrBeyond(v: nat, s: nat)
    requires v < Pow2(s)
    ensures Shr(v, s) == 0
  {
    if s == 0 {
    } else {
      ShrBeyond(v / 2, s - 1);
    }
  }

  lemma ShrAtMost(v: nat, s: nat)
    ensures Shr(v, s) <= v
    decreases s
  {
    if s == 0 {
    } else {
      ShrAtMost(v / 2, s - 1);
    }
  }

  /** The top m bits of v, seen as a number of the given width, are ones. */
  predicate TopOnes(v: nat, bits: nat, m: nat) {
    m <= bits && v < Pow2(bits) && Shr(v, bits - m) == Pow2(m) - 1
  }

  /** The copy of v shifted down by s brings k of the leading ones below them. */
  lemma ShiftedOnes(v: nat, bits: nat, s: nat, k: nat)
    requires TopOnes(v, bits, s) && k <= s && s + k <= bits
    ensures Shr(Shr(v, s), bits - s - k) == Pow2(k) - 1
  {
    ShrTwice(v, s, bits - s - k);
    ShrTwice(v, bits - s, s - k);
    ShrOnes(s, s - k);
  }

  /** The top s + k bits of v: its s leading ones, then k bits of any kind. */
  lemma LeadingBits(v: nat, bits: nat, s: nat, k: nat) returns (r: nat)
    requires TopOnes(v, bits, s) && s + k <= bits
    ensures r < Pow2(k) && Shr(v, bits - s - k) == (Pow2(s) - 1) * Pow2(k) + r
  {
    var a := Shr(v, bits - s - k);
    ShrTwice(v, bits - s - k, k);
    r := Recompose(a, k);
  }

  /** `v | (v >> s)` extends s leading ones to any number m up to 2s of them. */
  lemma SmearMore(v: nat, bits: nat, s: nat, m: nat)
    requires TopOnes(v, bits, s) && s <= m <= 2 * s && m <= bits
    ensures TopOnes(Or(v, Shr(v, s)), bits, m)
  {
    var w := Shr(v, s);
    OrShift(v, w, bits - m);
    SmearedBits(v, bits, s, m);
    ShrAtMost(v, s);
    OrFits(v, w, bits);
  }

  lemma SmearedBits(v: nat, bits: nat, s: nat, m: nat)
    requires TopOnes(v, bits, s) && s <= m <= 2 * s && m <= bits
    ensures Or(Shr(v, bits - m), Shr(Shr(v, s), bits - m)) == Pow2(m) - 1
  {
    ShiftedOnes(v, bits, s, m - s);
    FilledLeadingBits(v, bits, s, m - s);
  }

  lemma FilledLeadingBits(v: nat, bits: nat, s: nat, k: nat)
    requires TopOnes(v, bits, s) && s + k <= bits
    ensures Or(Shr(v, bits - s - k), Pow2(k) - 1) == Pow2(s + k) - 1
  {
    var r := LeadingBits(v, bits, s, k);
    OnesJoin(s, k, r);
  }

  lemma OnesJoin(s: nat, k: nat, r: nat)
    requires r < Pow2(k)
    ensures Or((Pow2(s) - 1) * Pow2(k) + r, Pow2(k) - 1) == Pow2(s + k) - 1
  {
    OrFill(Pow2(s) - 1, r, k);
    Pow2Add(s, k);
    OneLess(Pow2(s), Pow2(k));
  }

  lemma OneLess(a: int, b: int)
    ensures (a - 1) * b + b == a * b
  {
  }

  lemma SmearDone(v: nat, bits: nat, s: nat)
    requires v < Pow2(bits) && bits <= s
    ensures Or(v, Shr(v, s)) == v
  {
    Pow2Monotone(bits, s);
    ShrBeyond(v, s);
    OrZero(v);
  }

  lemma SmearStep(v: nat, bits: nat, s: nat)
    requires TopOnes(v, bits, Min(s, bits))
    ensures TopOnes(Or(v, Shr(v, s)), bits, Min(2 * s, bits))
  {
    if s >= bits {
      SmearDone(v, bits, s);
    } else {
      SmearMore(v, bits, s, Min(2 * s, bits));
    }
  }

  ghost predicate LeastPow2(value: nat, p: nat) {
    IsPow2(p) && value <= p && forall k: nat :: value <= Pow2(k) ==> p <= Pow2(k)
  }

  lemma OneIsLeast(value: nat)
    requires value <= 1
    ensures LeastPow2(value, 1)
  {
    assert Pow2(0) == 1;
  }

  /** The least power of two that is at least `value`, for arguments up to 2^63; zero, by wrap-around,
      exactly beyond. */
  method NextPow2U64(value: nat) returns (r: nat)
    requires value < TWO64
    ensures r < TWO64
    ensures value <= TWO63 ==> LeastPow2(value, r)
    ensures r == 0 <==> value > TWO63
  {
    if value <= 1 {
      OneIsLeast(value);
      return 1;
    }
    var v: nat := value - 1;
    ghost var bits := SmearStart(v);
    var shift := 1;
    while shift < 64
      invariant 1 <= shift
      invariant TopOnes(v, bits, Min(shift, bits))
      decreases 64 - shift
    {
      SmearStep(v, bits, shift);
      v := Or(v, Shr(v, shift));
      shift := shift * 2;
    }
    SmearEnd(value, v, bits, shift);
    r := W64(v + 1);
  }

  lemma SmearStart(v: nat) returns (bits: nat)
    requires 0 < v < TWO64
    ensures 1 <= bits <= 64 && TopOnes(v, bits, Min(1, bits)) && Pow2(bits - 1) <= v < Pow2(bits)
  {
    bits := BitLength(v);
    BitLengthBounds(v);
    Pow2Values();
    Pow2Monotone(64, bits - 1);
    assert Pow2(1) == 2;
  }

  lemma RoundedUp(value: nat, p: nat, bits: nat)
    requires 2 <= value < TWO64 && 1 <= bits <= 64 && Pow2(bits - 1) <= value - 1 < p == Pow2(bits)
    ensures value <= TWO63 ==> LeastPow2(value, W64(p))
    ensures W64(p) == 0 <==> value > TWO63
  {
    Pow2Values();
    if value <= TWO63 {
      Pow2Monotone(63, bits - 1);
      Pow2Monotone(bits, 63);
      SmallMod(p, TWO64);
      forall k: nat | value <= Pow2(k) ensures p <= Pow2(k) {
        Pow2Monotone(k, bits - 1);
        Pow2Monotone(bits, k);
      }
    } else {
      Pow2Monotone(bits, 63);
      DivModUnique(TWO64, TWO64, 1, 0);
    }
  }

  lemma SmearEnd(value: nat, v: nat, bits: nat, shift: nat)
    requires 2 <= value < TWO64 && 1 <= bits <= 64 <= shift && Pow2(bits - 1) <= value - 1 < Pow2(bits)
    requires TopOnes(v, bits, Min(shift, bits))
    ensures value <= TWO63 ==> LeastPow2(value, W64(v + 1))
    ensures W64(v + 1) == 0 <==> value > TWO63
  {
    assert Shr(v, 0) == v;
    RoundedUp(value, v + 1, bits);
  }
}
