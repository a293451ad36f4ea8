/** Division, divisibility, gcd and powers: the arithmetic shared by every ring, index table and
    generator of the probes. */
module NumberTheory {

  const TWO32: nat := 0x1_0000_0000
  const TWO63: nat := 0x8000_0000_0000_0000
  const TWO64: nat := 0x1_0000_0000_0000_0000

  /** What a `uint64_t` (or `size_t`) holds after an unbounded result is stored in it. */
  function W64(x: int): (r: nat)
    ensures r < TWO64
  {
    x % TWO64
  }

  function W32(x: int): (r: nat)
    ensures r < TWO32
  {
    x % TWO32
  }

  // ----- division with remainder

  lemma DivModUnique(x: int, d: int, q: int, r: int)
    requires 0 < d && x == q * d + r && 0 <= r < d
    ensures x / d == q && x % d == r
  {
    var q', r' := x / d, x % d;
    assert x == d * q' + r';
    assert (q' - q) * d == r - r';
    if q' > q {
      MulLe(1, q' - q, d);
    } else if q' < q {
      MulLe(q' - q, -1, d);
    }
  }

  lemma MulLe(a: int, b: int, c: int)
    requires a <= b && 0 <= c
    ensures a * c <= b * c
  {
  }

  lemma ModShift(x: int, k: int, d: int)
    requires 0 < d
    ensures (x + k * d) % d == x % d
    ensures (x + k * d) / d == x / d + k
  {
    var q, r := x / d, x % d;
    assert x + k * d == (q + k) * d + r;
    DivModUnique(x + k * d, d, q + k, r);
  }

  lemma ModAdd(x: int, y: int, d: int)
    requires 0 < d
    ensures (x % d + y) % d == (x + y) % d
  {
    var q := x / d;
    assert x + y == (x % d + y) + q * d;
    ModShift(x % d + y, q, d);
  }

  /** Accumulating in 64 bits tracks the exact total modulo 2^64. */
  lemma WrapAdd(total: int, x: int, sum: nat)
    requires sum == W64(total)
    ensures W64(sum + x) == W64(total + x)
  {
    ModAdd(total, x, TWO64);
  }

  lemma ModMul(x: int, y: int, d: int)
    requires 0 < d
    ensures ((x % d) * y) % d == (x * y) % d
  {
    var q := x / d;
    assert x == q * d + x % d;
    assert x * y == (x % d) * y + (q * y) * d;
    ModShift((x % d) * y, q * y, d);
  }

  lemma ModMod(x: int, d: int, e: int)
    requires 0 < d && 0 < e
    ensures (x % (d * e)) % d == x % d
  {
    var m := d * e;
    assert 0 < m by { MulLe(1, d, e); }
    var q := x / m;
    assert x == q * m + x % m;
    assert q * m == (q * e) * d;
    ModShift(x % m, q * e, d);
  }

  lemma SmallMod(x: int, d: int)
    requires 0 <= x < d
    ensures x % d == x && x / d == 0
  {
    DivModUnique(x, d, 0, x);
  }

  lemma EvenProduct(x: int, y: int)
    requires x % 2 == 0
    ensures (x * y) % 2 == 0
  {
    ModMul(x, y, 2);
    assert 0 * y == 0;
  }

  /** Splitting a multiple of p into a multiple of 2p and at most one p. */
  lemma Regroup(q: int, p: int)
    ensures q * p == q / 2 * (2 * p) + if q % 2 == 0 then 0 else p
  {
    var h := q / 2;
    assert h * (2 * p) == (2 * h) * p;
    assert q == 2 * h || q == 2 * h + 1;
  }

  // ----- divisibility

  predicate Divides(d: int, x: int)
    requires 0 < d
  {
    x % d == 0
  }

  lemma Multiple(d: int, q: int)
    requires 0 < d
    ensures Divides(d, q * d)
  {
    DivModUnique(q * d, d, q, 0);
  }

  lemma Quotient(d: int, x: int) returns (q: int)
    requires 0 < d && Divides(d, x)
    ensures x == q * d
  {
    q := x / d;
  }

  lemma DividesCombination(d: int, x: int, y: int, a: int, b: int)
    requires 0 < d && Divides(d, x) && Divides(d, y)
    ensures Divides(d, a * x + b * y)
  {
    var q := Quotient(d, x);
    var r := Quotient(d, y);
    assert a * x + b * y == (a * q + b * r) * d;
    Multiple(d, a * q + b * r);
  }

  /** Two numbers leave the same remainder exactly when their difference is a multiple. */
  lemma SameRemainder(x: int, y: int, d: int)
    requires 0 < d
    ensures x % d == y % d <==> Divides(d, x - y)
  {
    if x % d == y % d {
      assert x - y == (x / d - y / d) * d;
      Multiple(d, x / d - y / d);
    }
    if Divides(d, x - y) {
      var q := Quotient(d, x - y);
      assert x == y + q * d;
      ModShift(y, q, d);
    }
  }

  // ----- gcd, as Euclid computes it

  function Gcd(a: nat, b: nat): nat
    decreases b
  {
    if b == 0 then a else Gcd(b, a % b)
  }

  lemma {:induction false} GcdDivides(a: nat, b: nat)
    requires 0 < a || 0 < b
    ensures 0 < Gcd(a, b) && Divides(Gcd(a, b), a) && Divides(Gcd(a, b), b)
    decreases b
  {
    if b == 0 {
      assert a == 1 * a;
      Multiple(a, 1);
    } else {
      GcdDivides(b, a % b);
      var g := Gcd(a, b);
      DividesCombination(g, b, a % b, a / b, 1);
      assert a == (a / b) * b + 1 * (a % b);
    }
  }

  /** Bezout's identity. */
  lemma {:induction false} Bezout(a: nat, b: nat) returns (x: int, y: int)
    ensures a * x + b * y == Gcd(a, b)
    decreases b
  {
    if b == 0 {
      x, y := 1, 0;
    } else {
      var u, v := Bezout(b, a % b);
      x, y := v, u - (a / b) * v;
      var q, r := a / b, a % b;
      assert a == q * b + r;
      assert a * v == (q * v) * b + r * v;
      assert b * (u - q * v) == b * u - (q * v) * b;
    }
  }

  /** The gcd is a multiple of every common divisor, hence the greatest. */
  lemma CommonDivisor(d: int, a: nat, b: nat)
    requires 0 < d && Divides(d, a) && Divides(d, b)
    ensures Divides(d, Gcd(a, b))
  {
    var x, y := Bezout(a, b);
    DividesCombination(d, a, b, x, y);
    assert x * a + y * b == a * x + b * y;
  }

  predicate Coprime(a: nat, b: nat) {
    Gcd(a, b) == 1
  }

  lemma CoprimeElim(d: int, a: nat, b: nat)
    requires Coprime(a, b) && 0 < d && Divides(d, a) && Divides(d, b)
    ensures d == 1
  {
    CommonDivisor(d, a, b);
    var q := Quotient(d, 1);
    if d > 1 {
      if q >= 1 { MulLe(1, q, d); } else { MulLe(q, 0, d); }
    }
  }

  lemma CoprimeSymmetric(a: nat, b: nat)
    requires Coprime(a, b)
    ensures Coprime(b, a)
  {
    GcdDivides(b, a);
    CoprimeElim(Gcd(b, a), a, b);
  }

  lemma OneCoprime(n: nat)
    ensures Coprime(1, n)
  {
    if n > 1 {
      SmallMod(1, n);
      assert Gcd(1, n) == Gcd(n, 1) == Gcd(1, n % 1);
    }
  }

  /** Euclid's lemma: a factor coprime to the modulus cancels. */
  lemma EuclidLemma(s: nat, n: nat, k: int)
    requires 0 < n && Coprime(s, n)
    ensures Divides(n, k * s) <==> Divides(n, k)
  {
    if Divides(n, k * s) {
      var x, y := Bezout(s, n);
      Multiple(n, k);
      DividesCombination(n, k * s, k * n, x, y);
      assert x * (k * s) + y * (k * n) == k * (s * x + n * y) == k;
    }
    if Divides(n, k) {
      DividesCombination(n, k, 0, s, 0) by { Multiple(n, 0); }
      assert s * k + 0 * 0 == k * s;
    }
  }

  // ----- powers

  function Pow(b: int, e: nat): int {
    if e == 0 then 1 else b * Pow(b, e - 1)
  }

  function Pow2(k: nat): (r: nat)
    ensures 1 <= r
  {
    if k == 0 then 1 else 2 * Pow2(k - 1)
  }

  ghost predicate IsPow2(n: nat) {
    exists k: nat :: n == Pow2(k)
  }

  lemma {:induction false} Pow2Add(j: nat, k: nat)
    ensures Pow2(j + k) == Pow2(j) * Pow2(k)
  {
    if j == 0 {
    } else {
      Pow2Add(j - 1, k);
      assert Pow2(j + k) == 2 * Pow2(j - 1 + k);
    }
  }

  lemma {:induction false} Pow2Monotone(j: nat, k: nat)
    ensures j < k ==> Pow2(j) < Pow2(k)
    ensures j <= k ==> Pow2(j) <= Pow2(k)
  {
    if j >= k {
    } else {
      Pow2Monotone(j, k - 1);
    }
  }

  lemma Pow2Values()
    ensures Pow2(8) == 256 && Pow2(16) == 65536 && Pow2(17) == 131072 && Pow2(24) == 0x100_0000
    ensures Pow2(32) == TWO32 && Pow2(63) == TWO63 && Pow2(64) == TWO64
  {
    Pow2At(8, 8, 256, 256);
    Pow2At(16, 1, 65536, 2);
    Pow2At(16, 8, 65536, 256);
    Pow2At(16, 16, 65536, 65536);
    Pow2At(32, 16, TWO32, 65536);
    Pow2At(48, 8, 0x1_0000_0000_0000, 256);
    Pow2At(56, 7, 0x100_0000_0000_0000, 128);
    Pow2At(63, 1, TWO63, 2);
  }

  lemma Pow2At(j: nat, k: nat, p: nat, q: nat)
    requires Pow2(j) == p && Pow2(k) == q
    ensures Pow2(j + k) == p * q
  {
    Pow2Add(j, k);
  }

  lemma Pow2At32()
    ensures Pow2(32) == TWO32 && Pow2(24) == 0x100_0000 && Pow2(25) == 0x200_0000
  {
    Pow2Values();
    assert Pow2(25) == 2 * Pow2(24);
  }

  /** A smaller power of two divides a larger one. */
  lemma Pow2Divides(j: nat, k: nat)
    requires j <= k
    ensures Divides(Pow2(j), Pow2(k))
  {
    Pow2Add(k - j, j);
    Multiple(Pow2(j), Pow2(k - j));
  }

  /** Reducing modulo 2^64 first does not change the remainder by a smaller power of two: this is
      why the wrapping product `i * 97U` still selects the intended node. */
  lemma WrapThenMask(x: int, k: nat)
    requires k <= 64
    ensures W64(x) % Pow2(k) == x % Pow2(k)
  {
    Pow2Values();
    Pow2Add(k, 64 - k);
    ModMod(x, Pow2(k), Pow2(64 - k));
  }

  /** An odd number is coprime to every power of two. */
  lemma {:induction false} OddCoprime(s: nat, k: nat)
    requires s % 2 == 1
    ensures Coprime(s, Pow2(k))
  {
    var n := Pow2(k);
    GcdDivides(s, n);
    var g := Gcd(s, n);
    OddDivisorOfPow2(g, k) by {
      if g % 2 == 0 {
        DividesTransitive(2, g, s);
      }
    }
  }

  lemma DividesTransitive(a: int, b: int, c: int)
    requires 0 < a && 0 < b && Divides(a, b) && Divides(b, c)
    ensures Divides(a, c)
  {
    var p := Quotient(a, b);
    var q := Quotient(b, c);
    assert c == (q * p) * a;
    Multiple(a, q * p);
  }

  lemma {:induction false} OddDivisorOfPow2(g: nat, k: nat)
    requires 0 < g && g % 2 == 1 && Divides(g, Pow2(k))
    ensures g == 1
  {
    if k == 0 {
      if g > 1 { SmallMod(1, g); }
    } else {
      // g divides 2 * 2^(k-1) and is odd: g * q is even, so q is.
      var q := Quotient(g, Pow2(k));
      var h := g / 2;
      assert g == 2 * h + 1;
      assert q * g == 2 * (q * h) + q;
      assert q == 2 * (Pow2(k - 1) - q * h);
      var r := Pow2(k - 1) - q * h;
      assert 2 * Pow2(k - 1) == (2 * r) * g == 2 * (r * g);
      Multiple(g, r);
      OddDivisorOfPow2(g, k - 1);
    }
  }
}
