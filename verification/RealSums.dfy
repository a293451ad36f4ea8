/** Sums of exact reals. */
module RealSums {
  function RSum(f: seq<real>): real {
    if f == [] then 0.0 else RSum(f[..|f| - 1]) + f[|f| - 1]
  }

  lemma RSumSnoc(f: seq<real>, x: real)
    ensures RSum(f + [x]) == RSum(f) + x
  {
    assert (f + [x])[..|f|] == f;
  }

  lemma {:induction false} RSumUpdate(f: seq<real>, j: nat, d: real)
    requires j < |f|
    ensures RSum(f[j := f[j] + d]) == RSum(f) + d
  {
    var g := f[j := f[j] + d];
    var n := |f| - 1;
    if j == n {
      assert g[..n] == f[..n];
    } else {
      RSumUpdate(f[..n], j, d);
      assert g[..n] == f[..n][j := f[j] + d];
    }
  }

  lemma {:induction false} RSumConstant(f: seq<real>, c: real)
    requires forall j :: 0 <= j < |f| ==> f[j] == c
    ensures RSum(f) == |f| as real * c
  {
    if f == [] {
    } else {
      var n := |f| - 1;
      RSumConstant(f[..n], c);
      assert (n + 1) as real * c == n as real * c + c;
    }
  }
}
