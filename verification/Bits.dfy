/** Bitwise operators on naturals, defined bit by bit. A 64-bit register holds a natural below 2^64;
    `x >> s` is `Shr(x, s)` and `x << s` is `(x * Pow2(s)) % 2^64`. */
module Bits {
  import opened NumberTheory

  function And(x: nat, y: nat): (r: nat)
    ensures r <= x && r <= y
  {
    if x == 0 || y == 0 then 0 else 2 * And(x / 2, y / 2) + (if x % 2 == 1 && y % 2 == 1 then 1 else 0)
  }

  function Or(x: nat, y: nat): (r: nat)
    decreases x + y
  {
    if x == 0 && y == 0 then 0 else 2 * Or(x / 2, y / 2) + (if x % 2 == 1 || y % 2 == 1 then 1 else 0)
  }

  function Xor(x: nat, y: nat): (r: nat)
    decreases x + y
  {
    if x == 0 && y == 0 then 0 else 2 * Xor(x / 2, y / 2) + (if x % 2 != y % 2 then 1 else 0)
  }

  // ----- masking

  /** Splitting the lowest bit off a quotient and a remainder by a power of two. */
  lemma Halve(x: nat, k: nat)
    requires 0 < k
    ensures x / Pow2(k) == x / 2 / Pow2(k - 1)
    ensures x % Pow2(k) == 2 * (x / 2 % Pow2(k - 1)) + x % 2
  {
    var m := Pow2(k - 1);
    var h := x / 2;
    var q, r, b := h / m, h % m, x % 2;
    assert h == q * m + r;
    assert x == q * (2 * m) + (2 * r + b);
    DivModUnique(x, 2 * m, q, 2 * r + b);
  }

  lemma AndOnes(x: nat, m: nat)
    requires 0 < x
    ensures And(x, 2 * m + 1) == 2 * And(x / 2, m) + x % 2
  {
  }

  /** Masking with 2^k - 1 takes the remainder modulo 2^k. */
  lemma {:induction false} AndMask(x: nat, k: nat)
    ensures And(x, Pow2(k) - 1) == x % Pow2(k)
  {
    if x == 0 {
      SmallMod(0, Pow2(k));
    } else if k > 0 {
      AndMask(x / 2, k - 1);
      AndOnes(x, Pow2(k - 1) - 1);
      Halve(x, k);
    }
  }

  lemma {:induction false} AndSelf(x: nat)
    ensures And(x, x) == x
  {
    if x == 0 {
    } else {
      AndSelf(x / 2);
    }
  }

  lemma {:induction false} AndIdempotent(x: nat, m: nat)
    ensures And(And(x, m), m) == And(x, m)
  {
    if x == 0 || m == 0 {
    } else {
      AndIdempotent(x / 2, m / 2);
    }
  }

  lemma {:induction false} AndOrAbsorb(x: nat, m: nat)
    ensures Or(And(x, m), m) == m
  {
    if m == 0 {
    } else {
      AndOrAbsorb(x / 2, m / 2);
      assert And(x, m) / 2 == And(x / 2, m / 2);
    }
  }

  lemma {:induction false} Pow2Double(m: nat)
    ensures IsPow2(2 * m) <==> IsPow2(m)
  {
    if IsPow2(m) {
      var k: nat :| m == Pow2(k);
      assert 2 * m == Pow2(k + 1);
    }
    if IsPow2(2 * m) {
      var k: nat :| 2 * m == Pow2(k);
      assert k > 0 && m == Pow2(k - 1);
    }
  }

  lemma OddPow2(n: nat)
    requires IsPow2(n) && n % 2 == 1
    ensures n == 1
  {
    var k: nat :| n == Pow2(k);
    if k > 0 { EvenPow2(k); }
  }

  lemma EvenPow2(k: nat)
    requires 0 < k
    ensures Pow2(k) % 2 == 0
  {
  }

  /** `(n & (n - 1)) == 0` holds of exactly the powers of two among the positive numbers. */
  lemma {:induction false} PowerOfTwoGuard(n: nat)
    requires 0 < n
    ensures And(n, n - 1) == 0 <==> IsPow2(n)
  {
    if n == 1 {
      assert n == Pow2(0);
    } else if n % 2 == 0 {
      PowerOfTwoGuard(n / 2);
      Pow2Double(n / 2);
      assert (n - 1) / 2 == n / 2 - 1;
    } else {
      AndSelf(n / 2);
      assert (n - 1) / 2 == n / 2;
      if IsPow2(n) { OddPow2(n); }
    }
  }

  /** Below a mask that is not all ones there is a value the mask changes, so a value that masking
      never yields. */
  lemma {:induction false} GapBelowMask(n: nat) returns (g: nat)
    requires 0 < n && !IsPow2(n)
    ensures g < n
    ensures forall x: nat, m :: m == n - 1 ==> And(x, m) != g
  {
    g := ChangedByMask(n);
    forall x: nat, m | m == n - 1 ensures And(x, m) != g {
      AndIdempotent(x, m);
    }
  }

  lemma {:induction false} ChangedByMask(n: nat) returns (g: nat)
    requires 0 < n && !IsPow2(n)
    ensures g < n && And(g, n - 1) != g
  {
    assert n != Pow2(0);
    if n % 2 == 1 {
      g := 1;
    } else {
      Pow2Double(n / 2);
      var h := ChangedByMask(n / 2);
      g := 2 * h;
      if h > 0 {
        assert And(g, n - 1) == 2 * And(h, n / 2 - 1);
      }
    }
  }

  // ----- the operators bit by bit

  /** Bit b of a number. */
  function Bit(x: nat, b: nat): nat {
    if b == 0 then x % 2 else Bit(x / 2, b - 1)
  }

  lemma {:induction false} BitIsDivision(x: nat, b: nat)
    ensures Bit(x, b) == x / Pow2(b) % 2
  {
    if b == 0 {
      assert Pow2(0) == 1;
    } else {
      BitIsDivision(x / 2, b - 1);
      Halve(x, b);
    }
  }

  lemma TwicePlus(h: nat, bit: nat)
    requires bit < 2
    ensures (2 * h + bit) / 2 == h && (2 * h + bit) % 2 == bit
  {
  }

  lemma SumParity(x: nat, y: nat)
    ensures (x + y) % 2 == if x % 2 != y % 2 then 1 else 0
  {
  }

  lemma XorHalf(x: nat, y: nat)
    ensures Xor(x, y) / 2 == Xor(x / 2, y / 2) && Xor(x, y) % 2 == (x + y) % 2
  {
    SumParity(x, y);
    TwicePlus(Xor(x / 2, y / 2), if x % 2 != y % 2 then 1 else 0);
    if x == 0 && y == 0 {
      assert Xor(0, 0) == 0;
    }
  }

  lemma {:induction false} XorBits(x: nat, y: nat, b: nat)
    ensures Bit(Xor(x, y), b) == (Bit(x, b) + Bit(y, b)) % 2
    decreases b
  {
    XorHalf(x, y);
    if b == 0 {
      SumParity(x, y);
    } else {
      XorBits(x / 2, y / 2, b - 1);
    }
  }

  lemma AddParity(x: int, y: int, s: int, f: int)
    requires s == x % 2 && f == y % 2
    ensures (x + y) % 2 == (s + f) % 2
  {
  }

  /** A bit of x ^ y is set when it is set in exactly one of them. */
  lemma XorBit(x: nat, y: nat, b: nat)
    ensures Xor(x, y) / Pow2(b) % 2 == (x / Pow2(b) + y / Pow2(b)) % 2
  {
    XorBits(x, y, b);
    BitIsDivision(Xor(x, y), b);
    BitIsDivision(x, b);
    BitIsDivision(y, b);
    AddParity(x / Pow2(b), y / Pow2(b), Bit(x, b), Bit(y, b));
  }

  lemma {:induction false} BitBelowTwo(x: nat, b: nat)
    ensures Bit(x, b) < 2
  {
    if b == 0 {
    } else {
      BitBelowTwo(x / 2, b - 1);
    }
  }

  lemma AndHalf(x: nat, y: nat)
    ensures And(x, y) / 2 == And(x / 2, y / 2) && And(x, y) % 2 == if x % 2 == 1 && y % 2 == 1 then 1 else 0
  {
    TwicePlus(And(x / 2, y / 2), if x % 2 == 1 && y % 2 == 1 then 1 else 0);
  }

  lemma {:induction false} AndBits(x: nat, y: nat, b: nat)
    ensures Bit(And(x, y), b) == if Bit(x, b) == 1 && Bit(y, b) == 1 then 1 else 0
    decreases b
  {
    AndHalf(x, y);
    if b == 0 {
    } else {
      AndBits(x / 2, y / 2, b - 1);
    }
  }

  /** A bit of x & y is set when it is set in both of them. */
  lemma AndBit(x: nat, y: nat, b: nat)
    ensures And(x, y) / Pow2(b) % 2 == 1 <==> x / Pow2(b) % 2 == 1 && y / Pow2(b) % 2 == 1
  {
    AndBits(x, y, b);
    BitIsDivision(And(x, y), b);
    BitIsDivision(x, b);
    BitIsDivision(y, b);
  }

  lemma OrHalf(x: nat, y: nat)
    ensures Or(x, y) / 2 == Or(x / 2, y / 2)
  {
  }

  lemma OrLow(x: nat, y: nat)
    ensures Or(x, y) % 2 == if x % 2 == 1 || y % 2 == 1 then 1 else 0
  {
    TwicePlus(Or(x / 2, y / 2), if x % 2 == 1 || y % 2 == 1 then 1 else 0);
  }

  lemma {:induction false} OrBits(x: nat, y: nat, b: nat)
    ensures Bit(Or(x, y), b) == if Bit(x, b) == 1 || Bit(y, b) == 1 then 1 else 0
    decreases b
  {
    if b == 0 {
      OrLow(x, y);
    } else {
      OrHalf(x, y);
      OrBits(x / 2, y / 2, b - 1);
    }
  }

  /** A bit of x | y is set when it is set in one of them. */
  lemma OrBit(x: nat, y: nat, b: nat)
    ensures Or(x, y) / Pow2(b) % 2 == 1 <==> x / Pow2(b) % 2 == 1 || y / Pow2(b) % 2 == 1
  {
    OrBits(x, y, b);
    BitIsDivision(Or(x, y), b);
    BitIsDivision(x, b);
    BitIsDivision(y, b);
  }

  // ----- exclusive or

  /** Folding the same word in twice cancels. */
  lemma {:induction false} XorCancels(x: nat, y: nat)
    ensures Xor(Xor(x, y), y) == x
    decreases x + y
  {
    if x == 0 && y == 0 {
    } else {
      XorCancels(x / 2, y / 2);
      assert Xor(x, y) / 2 == Xor(x / 2, y / 2);
    }
  }

  /** Distinct words stay distinguishable under xor. */
  lemma XorNonZeroChanges(x: nat, y: nat)
    requires y != 0
    ensures Xor(x, y) != x
  {
    if Xor(x, y) == x {
      XorZeroOnly(x, y);
    }
  }

  lemma {:induction false} XorZeroOnly(x: nat, y: nat)
    requires Xor(x, y) == x
    ensures y == 0
    decreases x + y
  {
    if x == 0 && y == 0 {
    } else {
      XorZeroOnly(x / 2, y / 2);
    }
  }

  // ----- or and shifts, for the bit-smearing loop

  function Shr(x: nat, s: nat): nat {
    if s == 0 then x else Shr(x / 2, s - 1)
  }

  lemma {:induction false} ShrIsDivision(x: nat, s: nat)
    ensures Shr(x, s) == x / Pow2(s)
  {
    if s == 0 {
    } else {
      Halve(x, s);
      ShrIsDivision(x / 2, s - 1);
    }
  }

  lemma Recompose(x: nat, s: nat) returns (low: nat)
    ensures low < Pow2(s) && x == Shr(x, s) * Pow2(s) + low
  {
    ShrIsDivision(x, s);
    low := x % Pow2(s);
  }

  lemma {:induction false} ShrTwice(x: nat, s: nat, t: nat)
    ensures Shr(Shr(x, s), t) == Shr(x, s + t)
  {
    if s == 0 {
    } else {
      ShrTwice(x / 2, s - 1, t);
    }
  }

  lemma {:induction false} OrShift(x: nat, y: nat, j: nat)
    ensures Shr(Or(x, y), j) == Or(Shr(x, j), Shr(y, j))
    decreases j
  {
    if j == 0 {
    } else {
      OrHalf(x, y);
      OrShift(x / 2, y / 2, j - 1);
    }
  }

  /** Or-ing 2^m - 1 into a number fills its m low bits. */
  lemma {:induction false} OrFill(h: nat, r: nat, m: nat)
    requires r < Pow2(m)
    ensures Or(h * Pow2(m) + r, Pow2(m) - 1) == h * Pow2(m) + Pow2(m) - 1
  {
    if m == 0 {
      OrZero(h);
    } else {
      var p := Pow2(m - 1);
      var x, y := h * Pow2(m) + r, Pow2(m) - 1;
      assert x == 2 * (h * p) + r;
      assert x / 2 == h * p + r / 2;
      assert y / 2 == p - 1 && y % 2 == 1;
      OrFill(h, r / 2, m - 1);
    }
  }

  lemma {:induction false} OrZero(x: nat)
    ensures Or(x, 0) == x
  {
    if x == 0 {
    } else {
      OrZero(x / 2);
    }
  }

  lemma {:induction false} OrFits(x: nat, y: nat, k: nat)
    requires x < Pow2(k) && y < Pow2(k)
    ensures Or(x, y) < Pow2(k)
  {
    if k == 0 {
    } else {
      OrFits(x / 2, y / 2, k - 1);
    }
  }
}
