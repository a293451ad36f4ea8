/** Integer dependency-chain kernels (apple/src/deep_cpu_probes.c): what the timed registers hold
    after any number of blocks. */
module DependencyChains {
  import opened NumberTheory
  import opened Bits

  // ----- mul

  const MUL_START: nat := 3
  const MUL_FACTOR: nat := 6364136223846793005

  function Mul(x: nat): nat { W64(x * MUL_FACTOR) }

  lemma MulStep(x: nat, n: nat)
    requires x == W64(3 * Pow(MUL_FACTOR, n))
    ensures Mul(x) == W64(3 * Pow(MUL_FACTOR, n + 1))
  {
    ModMul(3 * Pow(MUL_FACTOR, n), MUL_FACTOR, TWO64);
    assert 3 * Pow(MUL_FACTOR, n) * MUL_FACTOR == 3 * Pow(MUL_FACTOR, n + 1);
  }

  lemma {:induction false} OddPowers(c: int, n: nat)
    requires c % 2 == 1
    ensures Pow(c, n) % 2 == 1
  {
    if n == 0 {
    } else {
      OddPowers(c, n - 1);
      ModMul(c, Pow(c, n - 1), 2);
    }
  }

  lemma OddResidue(y: int)
    requires y % 2 == 1
    ensures W64(y) % 2 == 1
  {
    ModMod(y, 2, TWO63);
  }

  lemma ProductIsOdd(n: nat)
    ensures W64(3 * Pow(MUL_FACTOR, n)) % 2 == 1
  {
    OddPowers(MUL_FACTOR, n);
    ModMul(3, Pow(MUL_FACTOR, n), 2);
    OddResidue(3 * Pow(MUL_FACTOR, n));
  }

  /** The product never collapses: it is 3 * c^(8 * blocks), and odd. */
  method DepMul(blocks: nat) returns (x: nat)
    ensures x == W64(3 * Pow(6364136223846793005, 8 * blocks)) && x % 2 == 1
  {
    x := MUL_START;
    SmallMod(3, TWO64);
    var i := 0;
    while i < blocks
      invariant 0 <= i <= blocks && x == W64(3 * Pow(MUL_FACTOR, 8 * i))
    {
      ghost var n := 8 * i;
      MulStep(x, n);
      x := Mul(x);
      MulStep(x, n + 1);
      x := Mul(x);
      MulStep(x, n + 2);
      x := Mul(x);
      MulStep(x, n + 3);
      x := Mul(x);
      MulStep(x, n + 4);
      x := Mul(x);
      MulStep(x, n + 5);
      x := Mul(x);
      MulStep(x, n + 6);
      x := Mul(x);
      MulStep(x, n + 7);
      x := Mul(x);
      i := i + 1;
    }
    ProductIsOdd(8 * blocks);
  }

  // ----- umulh

  const HIGH_FACTOR: nat := 0xfedc_ba98_7654_3211

  function Umulh(x: nat): nat { x * HIGH_FACTOR / TWO64 }

  /** The upper 64 bits of the 128-bit product. */
  lemma UmulhIsHighHalf(x: nat) returns (low: nat)
    ensures low < TWO64 && x * 0xfedc_ba98_7654_3211 == Umulh(x) * TWO64 + low
  {
    low := x * HIGH_FACTOR % TWO64;
  }

  /** The high half of a product with a 64-bit factor is smaller than the other factor. */
  lemma UmulhDecreases(x: nat)
    ensures x > 0 ==> Umulh(x) < x
    ensures x == 0 ==> Umulh(x) == 0
  {
    if x > 0 {
      var q := Umulh(x);
      assert x * HIGH_FACTOR < x * TWO64;
      if q >= x { MulLe(x, q, TWO64); }
    }
  }

  const UMULH_START: nat := 0x1234_5678_9abc_def0

  /** The register after n instructions. */
  function HighChain(x: nat, n: nat): nat {
    if n == 0 then x else Umulh(HighChain(x, n - 1))
  }

  lemma {:induction false} HighChainAdd(x: nat, m: nat, n: nat)
    ensures HighChain(x, m + n) == HighChain(HighChain(x, m), n)
  {
    if n == 0 {
    } else {
      HighChainAdd(x, m, n - 1);
    }
  }

  /** The register falls with every instruction until it sticks at zero. */
  lemma {:induction false} HighChainFalls(x: nat, n: nat)
    ensures HighChain(x, n) == 0 || HighChain(x, n) + n <= x
  {
    if n == 0 {
    } else {
      HighChainFalls(x, n - 1);
      UmulhDecreases(HighChain(x, n - 1));
    }
  }

  /** n instructions scale every register value by at most `up` and, give or take 227, by at least
      `down`, both in units of 2^-64. */
  ghost predicate Above(n: nat, up: nat) {
    forall x: nat :: HighChain(x, n) * TWO64 <= x * up
  }

  ghost predicate Below(n: nat, down: nat) {
    forall x: nat :: (HighChain(x, n) + 227) * TWO64 >= (x + 227) * down
  }

  /** Truncation loses less than one, and 227 units lose at least one to the factor alone. */
  lemma OneInstruction(n: nat)
    requires n == 1
    ensures Above(n, HIGH_FACTOR) && Below(n, HIGH_FACTOR)
  {
    forall x: nat
      ensures HighChain(x, n) * TWO64 <= x * HIGH_FACTOR
      ensures (HighChain(x, n) + 227) * TWO64 >= (x + 227) * HIGH_FACTOR
    {
      assert HighChain(x, 1) == Umulh(HighChain(x, 0)) == Umulh(x);
    }
  }

  lemma ScaleAbove(x: nat, y: nat, z: nat, f: nat, h: nat, g: nat)
    requires y * TWO64 <= x * f && z * TWO64 <= y * h && f * h <= g * TWO64
    ensures z * TWO64 <= x * g
  {
    MulLe(y * TWO64, x * f, h);
    MulLe(z * TWO64, y * h, TWO64);
    MulLe(f * h, g * TWO64, x);
    assert (z * TWO64) * TWO64 <= (x * g) * TWO64;
  }

  lemma ScaleBelow(x: nat, y: nat, z: nat, f: nat, h: nat, g: nat)
    requires y * TWO64 >= x * f && z * TWO64 >= y * h && f * h >= g * TWO64
    ensures z * TWO64 >= x * g
  {
    MulLe(x * f, y * TWO64, h);
    MulLe(y * h, z * TWO64, TWO64);
    MulLe(g * TWO64, f * h, x);
    assert (z * TWO64) * TWO64 >= (x * g) * TWO64;
  }

  lemma JoinAbove(m: nat, f: nat, n: nat, h: nat, g: nat)
    requires Above(m, f) && Above(n, h) && f * h <= g * TWO64
    ensures Above(m + n, g)
  {
    var k := m + n;
    forall x: nat ensures HighChain(x, k) * TWO64 <= x * g {
      var y := HighChain(x, m);
      HighChainAdd(x, m, n);
      ScaleAbove(x, y, HighChain(y, n), f, h, g);
    }
  }

  lemma JoinBelow(m: nat, f: nat, n: nat, h: nat, g: nat)
    requires Below(m, f) && Below(n, h) && f * h >= g * TWO64
    ensures Below(m + n, g)
  {
    var k := m + n;
    forall x: nat ensures (HighChain(x, k) + 227) * TWO64 >= (x + 227) * g {
      var y := HighChain(x, m);
      HighChainAdd(x, m, n);
      ScaleBelow(x + 227, y + 227, HighChain(y, n) + 227, f, h, g);
    }
  }

  /** Bounds for one stretch of instructions after another. */
  lemma Join(m: nat, up: nat, down: nat, n: nat, up2: nat, down2: nat, up3: nat, down3: nat)
    requires Above(m, up) && Below(m, down) && Above(n, up2) && Below(n, down2)
    requires up * up2 <= up3 * TWO64 && down * down2 >= down3 * TWO64
    ensures Above(m + n, up3) && Below(m + n, down3)
  {
    JoinAbove(m, up, n, up2, up3);
    JoinBelow(m, down, n, down2, down3);
  }

  lemma Double(n: nat, up: nat, down: nat, up2: nat, down2: nat)
    requires Above(n, up) && Below(n, down)
    requires up * up <= up2 * TWO64 && down * down >= down2 * TWO64
    ensures Above(2 * n, up2) && Below(2 * n, down2)
  {
    Join(n, up, down, n, up, down, up2, down2);
  }

  lemma SixtyFour()
    ensures Above(8, 0xf709c1fd398753fb) && Below(8, 0xf709c1fd398753f4)
    ensures Above(32, 0xddfdc6705a1e4b38) && Below(32, 0xddfdc6705a1e4b1c)
    ensures Above(64, 0xc080242fcf7c6a76) && Below(64, 0xc080242fcf7c6a44)
  {
    OneInstruction(1);
    Double(1, 0xfedcba9876543211, 0xfedcba9876543211, 0xfdbac097c8dc5acf, 0xfdbac097c8dc5ace);
    Double(2, 0xfdbac097c8dc5acf, 0xfdbac097c8dc5ace, 0xfb7aa8e8707772fb, 0xfb7aa8e8707772f8);
    Double(4, 0xfb7aa8e8707772fb, 0xfb7aa8e8707772f8, 0xf709c1fd398753fb, 0xf709c1fd398753f4);
    Double(8, 0xf709c1fd398753fb, 0xf709c1fd398753f4, 0xee63d4b5dbd0facc, 0xee63d4b5dbd0fabd);
    Double(16, 0xee63d4b5dbd0facc, 0xee63d4b5dbd0fabd, 0xddfdc6705a1e4b38, 0xddfdc6705a1e4b1c);
    Double(32, 0xddfdc6705a1e4b38, 0xddfdc6705a1e4b1c, 0xc080242fcf7c6a76, 0xc080242fcf7c6a44);
  }

  /** 7080 instructions, by repeated doubling. */
  lemma Thousands()
    ensures Above(7080, 0x5aa30) && Below(7080, 0x5aa2c)
  {
    SixtyFour();
    Double(64, 0xc080242fcf7c6a76, 0xc080242fcf7c6a44, 0x90c0766bec279765, 0x90c0766bec279719);
    Double(128, 0x90c0766bec279765, 0x90c0766bec279719, 0x51d915eb425670e9, 0x51d915eb42567092);
    Double(256, 0x51d915eb425670e9, 0x51d915eb42567092, 0x1a2b17f50ab19b14, 0x1a2b17f50ab19adc);
    Double(512, 0x1a2b17f50ab19b14, 0x1a2b17f50ab19adc, 0x2acc81ed4bb9da4, 0x2acc81ed4bb9d98);
    Double(1024, 0x2acc81ed4bb9da4, 0x2acc81ed4bb9d98, 0x727be0130faaf, 0x727be0130faad);
    Double(2048, 0x727be0130faaf, 0x727be0130faad, 0x33328f8211, 0x33328f8210);
    Join(4096, 0x33328f8211, 0x33328f8210, 2048, 0x727be0130faaf, 0x727be0130faad, 0x16e54a1, 0x16e54a0);
    Join(6144, 0x16e54a1, 0x16e54a0, 512, 0x1a2b17f50ab19b14, 0x1a2b17f50ab19adc, 0x257243, 0x257242);
    Join(6656, 0x257243, 0x257242, 256, 0x51d915eb425670e9, 0x51d915eb42567092, 0xbf8e9, 0xbf8e7);
    Join(6912, 0xbf8e9, 0xbf8e7, 128, 0x90c0766bec279765, 0x90c0766bec279719, 0x6c504, 0x6c502);
    Join(7040, 0x6c504, 0x6c502, 32, 0xddfdc6705a1e4b38, 0xddfdc6705a1e4b1c, 0x5decb, 0x5dec8);
    Join(7072, 0x5decb, 0x5dec8, 8, 0xf709c1fd398753fb, 0xf709c1fd398753f4, 0x5aa30, 0x5aa2c);
  }

  // The last instructions exactly. 2^64 is 225 times 2^64 - HIGH_FACTOR and 241 more, so small
  // registers lose a 225th, rounded up: values from 224 k up to 224 k + 223 are reached from k + 1 more.

  /** n instructions bring exactly the values up to r down to zero. */
  ghost predicate ZeroUpTo(n: nat, r: nat) {
    forall x: nat :: HighChain(x, n) == 0 <==> x <= r
  }

  lemma UmulhAtMost(x: nat, r: nat, k: nat)
    requires 224 * k <= r < 224 * k + 224 && k < 0x1_0000_0000
    ensures Umulh(x) <= r <==> x <= r + k + 1
  {
    assert Umulh(x) <= r <==> x * HIGH_FACTOR < (r + 1) * TWO64;
  }

  lemma OneBefore(n: nat, r: nat, k: nat)
    requires ZeroUpTo(n, r) && 224 * k <= r < 224 * k + 224 && k < 0x1_0000_0000
    ensures ZeroUpTo(n + 1, r + k + 1)
  {
    var n' := n + 1;
    forall x: nat ensures HighChain(x, n') == 0 <==> x <= r + k + 1 {
      HighChainAdd(x, 1, n);
      assert HighChain(x, 1) == Umulh(HighChain(x, 0)) == Umulh(x);
      UmulhAtMost(x, r, k);
    }
  }

  lemma LastOfPhase(r: nat, k: nat, m: nat) returns (s: nat)
    requires 0 < m
    ensures s == r + (m - 1) * (k + 1) && r <= s && s + k + 1 == r + m * (k + 1)
    ensures m > 1 ==> r + (m - 2) * (k + 1) <= s
  {
    var p := (m - 1) * (k + 1);
    MulLe(0, m - 1, k + 1);
    assert m * (k + 1) == p + (k + 1) && (m - 2) * (k + 1) == p - (k + 1);
    s := r + p;
  }

  /** m instructions that each take k + 1 off. */
  lemma {:induction false} Phase(n: nat, k: nat, r: nat, m: nat)
    requires ZeroUpTo(n, r) && k < 0x1_0000_0000
    requires m > 0 ==> 224 * k <= r && r + (m - 1) * (k + 1) < 224 * k + 224
    ensures ZeroUpTo(n + m, r + m * (k + 1))
  {
    if m == 0 {
    } else {
      var s := LastOfPhase(r, k, m);
      Phase(n, k, r, m - 1);
      OneBefore(n + (m - 1), s, k);
    }
  }

  /** Four phases, one after another. */
  lemma Phases(n: nat, k: nat, r: nat, a: nat, b: nat, c: nat, d: nat)
    requires ZeroUpTo(n, r) && k < 1000 && 0 < a && 0 < b && 0 < c && 0 < d
    requires 224 * k <= r && r + (a - 1) * (k + 1) < 224 * (k + 1) <= r + a * (k + 1)
    requires var s := r + a * (k + 1); s + (b - 1) * (k + 2) < 224 * (k + 2) <= s + b * (k + 2)
    requires var s := r + a * (k + 1) + b * (k + 2); s + (c - 1) * (k + 3) < 224 * (k + 3) <= s + c * (k + 3)
    requires var s := r + a * (k + 1) + b * (k + 2) + c * (k + 3); s + (d - 1) * (k + 4) < 224 * (k + 4)
    ensures ZeroUpTo(n + a + b + c + d, r + a * (k + 1) + b * (k + 2) + c * (k + 3) + d * (k + 4))
  {
    Phase(n, k, r, a);
    var s := r + a * (k + 1);
    Phase(n + a, k + 1, s, b);
    s := s + b * (k + 2);
    Phase(n + a + b, k + 2, s, c);
    s := s + c * (k + 3);
    Phase(n + a + b + c, k + 3, s, d);
  }

  lemma Phases0To39()
    requires ZeroUpTo(0, 0)
    ensures ZeroUpTo(960, 8990)
  {
    Phases(0, 0, 0, 224, 112, 75, 56);
    Phases(467, 4, 897, 45, 37, 32, 28);
    Phases(609, 8, 1792, 25, 23, 20, 19);
    Phases(696, 12, 2695, 17, 16, 15, 14);
    Phases(758, 16, 3589, 13, 13, 12, 11);
    Phases(807, 20, 4492, 11, 10, 10, 9);
    Phases(847, 24, 5389, 9, 9, 8, 8);
    Phases(881, 28, 6288, 8, 7, 7, 7);
    Phases(910, 32, 7171, 7, 7, 6, 6);
    Phases(936, 36, 8066, 6, 6, 6, 6);
  }

  lemma Phases40To79()
    requires ZeroUpTo(960, 8990)
    ensures ZeroUpTo(1114, 17963)
  {
    Phases(960, 40, 8990, 5, 6, 5, 5);
    Phases(981, 44, 9882, 5, 5, 5, 4);
    Phases(1000, 48, 10764, 5, 4, 5, 4);
    Phases(1018, 52, 11672, 4, 4, 4, 4);
    Phases(1034, 56, 12544, 4, 4, 4, 4);
    Phases(1050, 60, 13480, 4, 3, 4, 3);
    Phases(1064, 64, 14354, 4, 3, 3, 4);
    Phases(1078, 68, 15285, 3, 3, 3, 3);
    Phases(1090, 72, 16131, 4, 3, 3, 3);
    Phases(1103, 76, 17098, 2, 3, 3, 3);
  }

  lemma Phases80To115()
    requires ZeroUpTo(1114, 17963)
    ensures ZeroUpTo(1197, 26048)
  {
    Phases(1114, 80, 17963, 3, 2, 3, 3);
    Phases(1125, 84, 18871, 2, 3, 3, 2);
    Phases(1135, 88, 19736, 3, 2, 3, 2);
    Phases(1145, 92, 20640, 3, 2, 2, 3);
    Phases(1155, 96, 21585, 2, 2, 3, 2);
    Phases(1164, 100, 22472, 2, 2, 2, 3);
    Phases(1173, 104, 23396, 2, 2, 2, 2);
    Phases(1181, 108, 24248, 2, 2, 2, 2);
    Phases(1189, 112, 25132, 2, 2, 2, 2);
  }

  lemma LastInstructions()
    ensures ZeroUpTo(1197, 26048) && ZeroUpTo(1200, 26400)
  {
    assert ZeroUpTo(0, 0);
    Phases0To39();
    Phases40To79();
    Phases80To115();
    Phase(1197, 116, 26048, 2);
    Phase(1199, 117, 26282, 1);
  }

  lemma Remaining(y: nat)
    requires y * TWO64 <= UMULH_START * 0x5aa30 && (y + 227) * TWO64 >= (UMULH_START + 227) * 0x5aa2c
    ensures 26048 < y <= 26400
  {
  }

  lemma Scaled(x: nat, n: nat, up: nat, down: nat)
    requires Above(n, up) && Below(n, down)
    ensures HighChain(x, n) * TWO64 <= x * up && (HighChain(x, n) + 227) * TWO64 >= (x + 227) * down
  {
  }

  lemma ZeroAfter(x: nat, n: nat, m: nat, r: nat)
    requires ZeroUpTo(m, r)
    ensures HighChain(x, n + m) == 0 <==> HighChain(x, n) <= r
  {
    HighChainAdd(x, n, m);
  }

  lemma AroundZero(x: nat, n: nat, a: nat, b: nat)
    requires x == UMULH_START && Above(n, 0x5aa30) && Below(n, 0x5aa2c)
    requires ZeroUpTo(a, 26048) && ZeroUpTo(b, 26400)
    ensures HighChain(x, n + a) > 0 && HighChain(x, n + b) == 0
  {
    Scaled(x, n, 0x5aa30, 0x5aa2c);
    Remaining(HighChain(x, n));
    ZeroAfter(x, n, a, 26048);
    ZeroAfter(x, n, b, 26400);
  }

  /** Zero stays zero. */
  lemma ZeroSticks(x: nat, m: nat, n: nat)
    requires m <= n && HighChain(x, m) == 0
    ensures HighChain(x, n) == 0
  {
    HighChainAdd(x, m, n - m);
    HighChainFalls(0, n - m);
  }

  lemma ZeroBetween(x: nat, p: nat, q: nat, n: nat)
    requires HighChain(x, p) > 0 && HighChain(x, q) == 0
    ensures n <= p ==> HighChain(x, n) > 0
    ensures n >= q ==> HighChain(x, n) == 0
  {
    if n <= p && HighChain(x, n) == 0 { ZeroSticks(x, n, p); }
    if n >= q { ZeroSticks(x, q, n); }
  }

  /** The register is positive for 8277 instructions and zero from 8280 on. */
  lemma ZeroFrom(n: nat)
    ensures n <= 8277 ==> HighChain(UMULH_START, n) > 0
    ensures n >= 8280 ==> HighChain(UMULH_START, n) == 0
  {
    Thousands();
    LastInstructions();
    AroundZero(UMULH_START, 7080, 1197, 1200);
    ZeroBetween(UMULH_START, 8277, 8280, n);
  }

  /** The probe runs 50000 or 400000 blocks by default: all but the first 2070 multiply zero. */
  method DepUmulh(blocks: nat) returns (x: nat)
    ensures x == HighChain(0x1234_5678_9abc_def0, 4 * blocks)
    ensures x == 0 <==> blocks >= 2070
  {
    x := UMULH_START;
    var i := 0;
    while i < blocks
      invariant 0 <= i <= blocks && x == HighChain(UMULH_START, 4 * i)
    {
      ghost var n := 4 * i;
      x := Umulh(x);
      assert x == HighChain(UMULH_START, n + 1);
      x := Umulh(x);
      assert x == HighChain(UMULH_START, n + 2);
      x := Umulh(x);
      assert x == HighChain(UMULH_START, n + 3);
      x := Umulh(x);
      assert x == HighChain(UMULH_START, n + 4);
      i := i + 1;
    }
    ZeroFrom(4 * blocks);
  }

  // ----- udiv

  /** add #97, then divide by 7. */
  function AddDivide(x: nat): nat { W64(x + 97) / 7 }

  /** How far above its fixed point the chain still is, after n steps from a distance d. */
  function Distance(d: nat, n: nat): nat {
    if n == 0 then d else (Distance(d, n - 1) + 1) / 7
  }

  lemma AddDivideStep(x: nat)
    requires 16 <= x && x + 97 < TWO64
    ensures AddDivide(x) == 16 + (x - 16 + 1) / 7
  {
    SmallMod(x + 97, TWO64);
  }

  lemma NestedDivision(a: nat, p: nat)
    requires 0 < p
    ensures a / p / 7 == a / (7 * p) && a / p + 1 == (a + p) / p
  {
    var q, r := a / p, a % p;
    var u, v := q / 7, q % 7;
    assert a == q * p + r;
    MulLe(0, v, p);
    MulLe(v, 6, p);
    assert q * p == u * (7 * p) + v * p;
    DivModUnique(a, 7 * p, u, v * p + r);
    ModShift(a, 1, p);
  }

  lemma {:induction false} SevenPowers(n: nat)
    ensures 0 < Pow(7, n) && Pow(7, n) % 6 == 1
  {
    if n == 0 {
    } else {
      SevenPowers(n - 1);
      ModShift(Pow(7, n - 1), Pow(7, n - 1), 6);
    }
  }

  lemma OneMoreDivision(d: nat, p: nat)
    requires 0 < p && p % 6 == 1
    ensures ((d + (p - 1) / 6) / p + 1) / 7 == (d + (7 * p - 1) / 6) / (7 * p)
  {
    var a := d + (p - 1) / 6;
    NestedDivision(a, p);
    NestedDivision(a + p, p);
    assert d + (7 * p - 1) / 6 == a + p;
  }

  /** n steps add up to one division by 7^n, the added ones making 1 + 7 + ... + 7^(n-1). */
  lemma {:induction false} DistanceClosed(d: nat, n: nat)
    ensures Pow(7, n) > 0 && Distance(d, n) == (d + (Pow(7, n) - 1) / 6) / Pow(7, n)
  {
    SevenPowers(n);
    if n == 0 {
    } else {
      SevenPowers(n - 1);
      DistanceClosed(d, n - 1);
      OneMoreDivision(d, Pow(7, n - 1));
    }
  }

  const DIV_START: nat := 0xfedc_ba98_7654_3211

  /** The chain descends to 16, strictly until it is there, and reaches it within 12 blocks: the rest
      of the measurement divides 113 by 7. */
  method DepUdiv(blocks: nat) returns (x: nat)
    ensures Pow(7, 2 * blocks) > 0
    ensures x == 16 + (0xfedc_ba98_7654_3211 - 16 + (Pow(7, 2 * blocks) - 1) / 6) / Pow(7, 2 * blocks)
    ensures x == 16 <==> blocks >= 12
  {
    x := DIV_START;
    var i := 0;
    while i < blocks
      invariant 0 <= i <= blocks && x == 16 + Distance(DIV_START - 16, 2 * i) && x <= DIV_START
    {
      AddDivideStep(x);
      x := AddDivide(x);
      AddDivideStep(x);
      x := AddDivide(x);
      i := i + 1;
    }
    DistanceReachesZero(2 * blocks);
    DistanceClosed(DIV_START - 16, 2 * blocks);
  }

  /** The greatest distance that n steps bring down to v. */
  function Reach(v: nat, n: nat): nat
    decreases n
  {
    if n == 0 then v else 7 * Reach(v, n - 1) + 5
  }

  lemma {:induction false} ReachInside(v: nat, n: nat)
    requires 0 < n
    ensures Reach(v, n) == Reach(7 * v + 5, n - 1)
    decreases n
  {
    if n <= 1 {
    } else {
      ReachInside(v, n - 1);
    }
  }

  lemma {:induction false} WithinReach(d: nat, v: nat, n: nat)
    ensures Distance(d, n) <= v <==> d <= Reach(v, n)
    decreases n
  {
    if n == 0 {
    } else {
      WithinReach(d, 7 * v + 5, n - 1);
      ReachInside(v, n);
    }
  }

  lemma ReachValues()
    ensures Reach(0, 22) < DIV_START - 16 <= Reach(0, 23)
  {
    assert Reach(0, 10) == 235396040;
  }

  /** From the start value the distance is zero after 23 steps and not before. */
  lemma DistanceReachesZero(n: nat)
    ensures Distance(DIV_START - 16, n) == 0 <==> n >= 23
  {
    WithinReach(DIV_START - 16, 0, n);
    ReachValues();
    ReachGrows(n, 22);
    ReachGrows(23, n);
  }

  lemma {:induction false} ReachGrows(m: nat, n: nat)
    ensures m <= n ==> Reach(0, m) <= Reach(0, n)
  {
    if m >= n {
    } else {
      ReachGrows(m, n - 1);
    }
  }

  // ----- logic and shifts

  const LOGIC_MASK: nat := 0xf0f0_f0f0_f0f0_f0f0

  /** eor, and, orr, eor, and, orr, eor, orr with one mask. */
  function LogicBlock(x: nat, m: nat): nat {
    Or(Xor(Or(And(Xor(Or(And(Xor(x, m), m), m), m), m), m), m), m)
  }

  /** Whatever the register held, one block leaves the mask in it. */
  lemma LogicBlockSticks(x: nat, m: nat)
    ensures LogicBlock(x, m) == m
  {
    AndOrAbsorb(Xor(x, m), m);
    AndOrAbsorb(Xor(m, m), m);
    XorCancels(0, m);
    XorSelf(m);
    OrZeroLeft(m);
  }

  lemma {:induction false} XorSelf(m: nat)
    ensures Xor(m, m) == 0
  {
    if m == 0 {
    } else {
      XorSelf(m / 2);
    }
  }

  lemma {:induction false} OrZeroLeft(m: nat)
    ensures Or(0, m) == m
  {
    if m == 0 {
    } else {
      OrZeroLeft(m / 2);
    }
  }

  method DepLogic(blocks: nat) returns (x: nat)
    ensures x == if blocks == 0 then 0x0123_4567_89ab_cdef else 0xf0f0_f0f0_f0f0_f0f0
  {
    x := 0x0123_4567_89ab_cdef;
    var i := 0;
    while i < blocks
      invariant 0 <= i <= blocks && x == if i == 0 then 0x0123_4567_89ab_cdef else LOGIC_MASK
    {
      LogicBlockSticks(x, LOGIC_MASK);
      x := LogicBlock(x, LOGIC_MASK);
      i := i + 1;
    }
  }

  /** lsl #1, lsr #1 */
  function ShiftPair(x: nat): nat { W64(2 * x) / 2 }

  /** A shift pair loses exactly the top bit. */
  lemma ShiftPairClearsTop(x: nat)
    ensures ShiftPair(x) == x % TWO63
  {
    var q, r := x / TWO63, x % TWO63;
    DivModUnique(2 * x, TWO64, q, 2 * r);
  }

  method DepShift(blocks: nat) returns (x: nat)
    ensures x == 0x1234_5678_9abc_def0
  {
    x := 0x1234_5678_9abc_def0;
    var i := 0;
    while i < blocks
      invariant x == 0x1234_5678_9abc_def0
    {
      ShiftPairClearsTop(x);
      x := ShiftPair(ShiftPair(ShiftPair(ShiftPair(x))));
      i := i + 1;
    }
  }
}
