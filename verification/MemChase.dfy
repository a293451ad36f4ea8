/** The GPU pointer chase (nvidia/src/mem_chase.cu): the search for a stride, the ring it links in
    32-bit arithmetic, and the single-thread kernel that chases it. */
module MemChase {
  import opened NumberTheory
  import opened Permutations
  import opened RotationRing

  // ----- the stride

  function FirstCandidate(elements: nat): (c: nat)
    ensures 1 <= c
  {
    if elements > 3 then elements / 2 - 1 else 1
  }

  /** The largest number from 1 to `c` that is coprime to `n`. */
  function LargestCoprime(c: nat, n: nat): (s: nat)
    requires 1 <= c
    ensures 1 <= s <= c && Coprime(s, n)
    ensures forall d: nat :: s < d <= c ==> !Coprime(d, n)
  {
    OneCoprime(n);
    if Coprime(c, n) then c else LargestCoprime(c - 1, n)
  }

  function Stride(elements: nat): (s: nat)
    ensures 1 <= s && Coprime(s, elements)
  {
    LargestCoprime(FirstCandidate(elements), elements)
  }

  lemma LargestCoprimeUnique(c: nat, n: nat, s: nat)
    requires 1 <= s <= c && Coprime(s, n)
    requires forall d: nat :: s < d <= c ==> !Coprime(d, n)
    ensures LargestCoprime(c, n) == s
  {
  }

  /** The downward search; it terminates because 1 is coprime to everything. */
  method CoprimeStride(elements: nat) returns (stride: nat)
    requires elements < TWO32
    ensures 1 <= stride && Coprime(stride, elements) && stride == Stride(elements)
    ensures if elements > 3 then stride < elements / 2 else stride == 1
    ensures forall d: nat :: stride < d < elements / 2 ==> !Coprime(d, elements)
  {
    stride := if elements > 2 then elements / 2 - 1 else 1;
    if stride == 0 {
      stride := 1;
    }
    assert stride == FirstCandidate(elements);
    while Gcd(stride, elements) != 1
      invariant 1 <= stride <= FirstCandidate(elements)
      invariant forall d: nat :: stride < d <= FirstCandidate(elements) ==> !Coprime(d, elements)
      decreases stride
    {
      OneCoprime(elements);
      stride := stride - 1;
    }
    LargestCoprimeUnique(FirstCandidate(elements), elements, stride);
  }

  /** Testing a candidate c against n is testing it against the small number n - 2c. */
  lemma GcdOfDouble(c: nat, n: nat, e: nat)
    requires 0 < c && n == 2 * c + e
    ensures Gcd(c, n) == Gcd(c, e)
  {
    var g, h := Gcd(c, n), Gcd(c, e);
    GcdDivides(c, n);
    GcdDivides(c, e);
    DividesCombination(g, n, c, 1, -2);
    CommonDivisor(g, c, e);
    DividesCombination(h, c, e, 2, 1);
    CommonDivisor(h, c, n);
    MutualDivisors(g, h);
  }

  lemma MutualDivisors(g: nat, h: nat)
    requires 0 < g && 0 < h && Divides(g, h) && Divides(h, g)
    ensures g == h
  {
    if g < h { SmallMod(g, h); } else if h < g { SmallMod(h, g); }
  }

  lemma MultipleOfFour(n: nat, c: nat)
    requires 0 < c && n == 2 * c + 2 && c % 2 == 1
    ensures Coprime(c, n)
  {
    assert Pow2(1) == 2;
    OddCoprime(c, 1);
    GcdOfDouble(c, n, 2);
  }

  lemma TwiceOdd(n: nat, c: nat)
    requires 1 < c && n == 2 * c + 2 && c % 2 == 0
    ensures !Coprime(c, n) && Coprime(c - 1, n)
  {
    assert Pow2(2) == 4;
    OddCoprime(c - 1, 2);
    GcdOfDouble(c - 1, n, 4);
    if Coprime(c, n) { CoprimeElim(2, c, n); }
  }

  /** What the search costs on even sizes: nothing for 2 and for multiples of four, one decrement
      for the rest. */
  lemma EvenStride(n: nat)
    requires 0 < n && n % 2 == 0
    ensures Stride(n) == if n == 2 then 1 else if n % 4 == 0 then n / 2 - 1 else n / 2 - 2
  {
    var c := FirstCandidate(n);
    if n == 2 {
      OneCoprime(2);
    } else if n % 4 == 0 {
      MultipleOfFour(n, c);
    } else {
      TwiceOdd(n, c);
      LargestCoprimeUnique(c, n, c - 1);
    }
  }

  /** On odd sizes the candidate after j decrements is accepted exactly when it is coprime to
      2j + 3. */
  lemma OddCandidate(n: nat, j: nat)
    requires n >= 5 && n % 2 == 1 && j < n / 2 - 1
    ensures Gcd(n / 2 - 1 - j, n) == Gcd(n / 2 - 1 - j, 2 * j + 3)
  {
    GcdOfDouble(FirstCandidate(n) - j, n, 2 * j + 3);
  }

  // ----- the ring

  /** The table as the 32-bit expression `(i + stride) % elements` fills it. */
  function Table(n: nat, s: nat): (t: seq<nat>)
    ensures |t| == n && Below(t, n) && forall i :: 0 <= i < n ==> t[i] == W32(i + s) % n
  {
    seq(n, i requires 0 <= i < n => W32(i + s) % n)
  }

  method BuildRing(elements: nat, stride: nat) returns (next: array<nat>)
    ensures fresh(next) && next[..] == Table(elements, stride)
  {
    next := new nat[elements];
    var i := 0;
    while i < elements
      invariant 0 <= i <= elements
      invariant forall j :: 0 <= j < i ==> next[j] == W32(j + stride) % elements
    {
      next[i] := W32(i + stride) % elements;
      i := i + 1;
    }
  }

  predicate SumsFit(n: nat) {
    n - 1 + Stride(n) < TWO32
  }

  lemma TableIsRotation(n: nat)
    requires 0 < n && SumsFit(n)
    ensures IsRotation(Table(n, Stride(n)), Stride(n))
  {
    var s := Stride(n);
    forall i: nat | i < n ensures Table(n, s)[i] == (i + s) % n {
      SmallMod(i + s, TWO32);
    }
  }

  /** When `i + stride` can wrap, elements n - s and 2^32 - s both link to element 0. */
  lemma WrapCollides(n: nat)
    requires 0 < n < TWO32 && !SumsFit(n)
    ensures 0 <= n - Stride(n) < TWO32 - Stride(n) < n
    ensures Table(n, Stride(n))[n - Stride(n)] == 0 == Table(n, Stride(n))[TWO32 - Stride(n)]
  {
    SmallMod(n, TWO32);
    DivModUnique(n, n, 1, 0);
    DivModUnique(TWO32, TWO32, 1, 0);
    SmallMod(0, n);
  }

  lemma CycleMeansFit(n: nat)
    requires 0 < n < TWO32
    ensures SingleCycle(Table(n, Stride(n))) <==> SumsFit(n)
  {
    var s := Stride(n);
    var t := Table(n, s);
    if SumsFit(n) {
      TableIsRotation(n);
      RotationSingleCycle(t, s);
    } else if SingleCycle(t) {
      SingleCycleIsPerm(t);
      WrapCollides(n);
    }
  }

  // ----- which sizes fit

  const LARGEST_RING: nat := 2863311531

  predicate SmallPrime(p: nat) {
    p in {3, 5, 7, 11, 13, 17, 19, 23, 29, 31}
  }

  lemma NoProduct(g: nat, q: nat)
    requires 1 < g && 1 < q
    ensures !SmallPrime(g * q)
  {
    if g > 5 && q > 5 {
      MulLe(6, g, q);
    } else {
      var f, h := if g <= 5 then g else q, if g <= 5 then q else g;
      assert g * q == f * h;
      assert f == 2 || f == 3 || f == 4 || f == 5;
    }
  }

  lemma PrimeFactor(g: nat, q: nat)
    requires SmallPrime(g * q) && q != 1
    ensures g == 1
  {
    if 1 < g && 1 < q {
      NoProduct(g, q);
    }
  }

  lemma ExactDivision(g: nat, p: nat)
    requires 0 < g && Divides(g, p)
    ensures g * (p / g) == p && p / g >= 0
    ensures p / g == 1 ==> g == p
  {
  }

  lemma PrimeCoprime(p: nat, n: nat)
    requires SmallPrime(p) && n % p != 0
    ensures Coprime(p, n)
  {
    GcdDivides(p, n);
    PrimeFactor(Gcd(p, n), p / Gcd(p, n)) by {
      ExactDivision(Gcd(p, n), p);
    }
  }

  lemma ProductDivides(a: nat, b: nat, n: nat)
    requires 0 < a && 0 < b && Coprime(a, b) && Divides(a, n) && Divides(b, n)
    ensures Divides(a * b, n)
  {
    var q := Quotient(a, n);
    EuclidLemma(a, b, q);
    var r := Quotient(b, q);
    assert n == r * (a * b);
    Multiple(a * b, r);
  }

  lemma FivePrimes(n: nat)
    requires n % 3 == 0 && n % 5 == 0 && n % 7 == 0 && n % 11 == 0 && n % 13 == 0
    ensures n % 15015 == 0
  {
    ProductDivides(3, 5, n);
    ProductDivides(15, 7, n);
    ProductDivides(105, 11, n);
    ProductDivides(1155, 13, n);
  }

  lemma FourMorePrimes(n: nat)
    requires n % 15015 == 0 && n % 17 == 0 && n % 19 == 0 && n % 23 == 0 && n % 29 == 0
    ensures n % 3234846615 == 0
  {
    ProductDivides(15015, 17, n);
    ProductDivides(255255, 19, n);
    ProductDivides(4849845, 23, n);
    ProductDivides(111546435, 29, n);
  }

  /** The only 32-bit number that the nine smallest odd primes all divide is their product. */
  lemma NineSmallPrimes(n: nat)
    requires 0 < n < TWO32 && n % 3 == 0 && n % 5 == 0 && n % 7 == 0 && n % 11 == 0 && n % 13 == 0
    requires n % 17 == 0 && n % 19 == 0 && n % 23 == 0 && n % 29 == 0
    ensures n == 3234846615
  {
    FivePrimes(n);
    FourMorePrimes(n);
  }

  lemma SmallCoprime(n: nat) returns (e: nat)
    requires 0 < n < TWO32 && n % 2 == 1
    ensures 3 <= e <= 31 && e % 2 == 1 && Coprime(e, n)
  {
    e := if n % 3 != 0 then 3 else if n % 5 != 0 then 5 else if n % 7 != 0 then 7 else if n % 11 != 0 then 11
      else if n % 13 != 0 then 13 else if n % 17 != 0 then 17 else if n % 19 != 0 then 19
      else if n % 23 != 0 then 23 else if n % 29 != 0 then 29 else 31;
    if e == 31 { NineSmallPrimes(n); }
    PrimeCoprime(e, n);
  }

  lemma CoprimeFromSmall(c: nat, n: nat, e: nat)
    requires 0 < c && n == 2 * c + e && Coprime(e, n)
    ensures Coprime(c, n)
  {
    GcdDivides(c, n);
    var g := Gcd(c, n);
    DividesCombination(g, n, c, 1, -2);
    CoprimeElim(g, e, n);
  }

  /** A small odd number coprime to an odd size bounds the decrements of its search. */
  lemma FewDecrements(n: nat, e: nat)
    requires n >= 5 && n % 2 == 1 && e % 2 == 1 && 3 <= e <= n - 2 && Coprime(e, n)
    ensures Stride(n) >= (n - e) / 2
  {
    CoprimeFromSmall((n - e) / 2, n, e);
  }

  lemma OddSizesBeyond(n: nat)
    requires LARGEST_RING < n < TWO32 && n % 2 == 1
    ensures !SumsFit(n)
  {
    if n <= 2863311543 {
      var e := if n % 3 != 0 then 3 else 5;
      PrimeCoprime(e, n);
      FewDecrements(n, e);
    } else {
      var e := SmallCoprime(n);
      FewDecrements(n, e);
    }
  }

  lemma StrideTooLong(n: nat, c: nat, s: nat)
    requires LARGEST_RING < n && c == FirstCandidate(n)
    requires s == c || (n % 4 != 0 && s == c - 1)
    ensures n - 1 + s >= TWO32
  {
  }

  lemma EvenIsFourOrTwo(n: nat)
    requires n % 2 == 0
    ensures n % 4 == 0 || n % 4 == 2
  {
  }

  lemma EvenSizesBeyond(n: nat)
    requires LARGEST_RING < n < TWO32 && n % 2 == 0
    ensures !SumsFit(n)
  {
    EvenIsFourOrTwo(n);
    EvenStride(n);
    StrideTooLong(n, FirstCandidate(n), Stride(n));
  }

  /** `i + stride` stays in 32 bits exactly up to 2863311531 elements, whatever the search finds. */
  lemma SizesThatFit(n: nat)
    requires 0 < n < TWO32
    ensures n - 1 + Stride(n) < TWO32 <==> n <= 2863311531
  {
    if n > LARGEST_RING {
      if n % 2 == 0 { EvenSizesBeyond(n); } else { OddSizesBeyond(n); }
    }
  }

  /** The ring is one cycle through all elements exactly up to 2863311531 of them. */
  lemma RingIsOneCycle(n: nat)
    requires 0 < n < TWO32
    ensures SingleCycle(Table(n, Stride(n))) <==> n <= 2863311531
  {
    CycleMeansFit(n);
    SizesThatFit(n);
  }

  /** A working set of 12 GiB is in range and gets a ring that is not a cycle. */
  lemma FailingRing()
    ensures W32(12884901888 / 4) == 0xC000_0000
    ensures !SingleCycle(Table(0xC000_0000, Stride(0xC000_0000)))
  {
    RingIsOneCycle(0xC000_0000);
  }

  /** The element count is the number of words asked for exactly below 16 GiB; 16 GiB itself gives an
      empty table. */
  lemma ElementCount(bytes: nat)
    requires bytes < TWO64
    ensures W32(bytes / 4) == bytes / 4 <==> bytes < 17179869184
    ensures bytes == 17179869184 ==> W32(bytes / 4) == 0
  {
    if bytes < 17179869184 { SmallMod(bytes / 4, TWO32); }
  }

  /** The copy of `bytes` bytes to the device stays inside the table exactly for multiples of four
      below 16 GiB, and is then the whole table. */
  lemma CopyFits(bytes: nat)
    requires bytes < TWO64
    ensures bytes <= 4 * W32(bytes / 4) <==> bytes % 4 == 0 && bytes < 17179869184
    ensures bytes <= 4 * W32(bytes / 4) ==> bytes == 4 * W32(bytes / 4)
  {
    if bytes < 17179869184 { SmallMod(bytes / 4, TWO32); }
  }

  /** One byte more than 4 KiB, 16 GiB and 20 GiB: the copy reads past a table of 1024, 0 and 2^30
      elements. */
  lemma CopyOverruns()
    ensures W32(4097 / 4) == 1024 && 4 * 1024 < 4097
    ensures W32(17179869184 / 4) == 0
    ensures W32(21474836480 / 4) == 0x4000_0000 && 4 * 0x4000_0000 < 21474836480
  {
    SmallMod(1024, TWO32);
    DivModUnique(5368709120, TWO32, 1, 0x4000_0000);
  }

  // ----- the chase

  method PointerChaseKernel(next: array<nat>, iterations: nat) returns (sink: nat)
    requires Below(next[..], next.Length) && (iterations > 0 ==> 0 < next.Length)
    ensures 0 < next.Length ==> sink < next.Length && sink == Follow(next[..], 0, iterations)
  {
    var index: nat := 0;
    var i := 0;
    while i < iterations
      invariant 0 <= i <= iterations
      invariant 0 < next.Length ==> index < next.Length && index == Follow(next[..], 0, i)
    {
      index := next[index];
      i := i + 1;
    }
    sink := index;
  }

  datatype Sample =
    | Sample(elements: nat, stride: nat, sink: nat)
    | CopyReadsOutsideTable
    | KernelReadsOutsideTable

  /** One sample of the probe: size in elements, stride, ring, copy to the device, warm-up chase,
      measured chase. */
  method RunSize(bytes: nat, iterations: nat) returns (r: Sample)
    requires bytes < TWO64
    ensures r.CopyReadsOutsideTable? <==> bytes % 4 != 0 || bytes >= 17179869184
    ensures r.KernelReadsOutsideTable? <==> bytes == 0 && iterations > 0
    ensures r.Sample? ==> 4 * r.elements == bytes && r.stride == Stride(r.elements)
    ensures r.Sample? && 0 < bytes ==>
      r.sink < r.elements && r.sink == Follow(Table(r.elements, r.stride), 0, iterations)
    ensures r.Sample? && 0 < bytes <= 4 * LARGEST_RING ==> r.sink == (iterations * r.stride) % r.elements
  {
    var elements := W32(bytes / 4);
    var stride := CoprimeStride(elements);
    var next := BuildRing(elements, stride);
    CopyFits(bytes);
    if next.Length * 4 < bytes {
      return CopyReadsOutsideTable;
    }
    if elements == 0 && iterations > 0 {
      return KernelReadsOutsideTable;
    }
    var warm := PointerChaseKernel(next, iterations);
    var sink := PointerChaseKernel(next, iterations);
    if 0 < elements <= LARGEST_RING {
      SizesThatFit(elements);
      TableIsRotation(elements);
      FollowRotation(next[..], stride, 0, iterations);
    }
    r := Sample(elements, stride, sink);
  }

  /** The measured chase: after k loads it stands at (k * stride) mod n, it first closes after n
      loads, and `k` loads read every element floor(k/n) or ceil(k/n) times. */
  lemma MeasuredChase(n: nat, k: nat, q: nat)
    requires 0 < n <= LARGEST_RING && q < n
    ensures Follow(Table(n, Stride(n)), 0, k) == (k * Stride(n)) % n
    ensures Follow(Table(n, Stride(n)), 0, k) == 0 <==> Divides(n, k)
    ensures k / n <= Visits(Table(n, Stride(n)), 0, q, k) <= (k + n - 1) / n
  {
    var s := Stride(n);
    var t := Table(n, s);
    SizesThatFit(n);
    TableIsRotation(n);
    FollowRotation(t, s, 0, k);
    FirstReturn(t, s, 0, k);
    BalancedVisits(t, s, 0, q, k);
  }
}
