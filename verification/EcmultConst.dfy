/** Constant-time multiplication of one point. Every operation that the code performs has a precondition
    (no doubling of, and no adding of, the point at infinity); proving them met is part of correctness. */
module EcmultConst {
  import opened AbelianGroup
  import opened Digits
  import opened Secp256k1
  import opened Strauss
  import opened WnafConst

  const W: nat := WINDOW_A - 1

  ghost predicate Survives<P>(g: Group<P>, p: P, k: int) {
    Mul(g, k, p) != g.zero
  }

  /** p has order exactly N. */
  ghost predicate HasOrderN<P>(g: Group<P>, p: P) {
    Killed(g, p) && forall k {:trigger Survives(g, p, k)} :: 0 < k < N ==> Survives(g, p, k)
  }

  /** Every point except infinity has order N. */
  ghost predicate PrimeOrder<P(!new)>(g: Group<P>) {
    IsGroup(g) && forall p {:trigger HasOrderN(g, p)} :: p != g.zero ==> HasOrderN(g, p)
  }

  lemma GroupOf<P(!new)>(g: Group<P>)
    requires PrimeOrder(g)
    ensures IsGroup(g)
  {
  }

  // secp256k1_gej_add_ge: the second operand must not be infinity.
  method AddGe<P>(g: Group<P>, a: P, b: P) returns (r: P)
    requires b != g.zero
    ensures r == g.add(a, b)
  {
    r := g.add(a, b);
  }

  // secp256k1_gej_double_nonzero
  method DoubleNonzero<P>(g: Group<P>, a: P) returns (r: P)
    requires a != g.zero
    ensures r == g.add(a, a)
  {
    r := g.add(a, a);
  }

  lemma NonzeroMultiple<P(!new)>(g: Group<P>, p: P, k: int)
    requires IsGroup(g) && HasOrderN(g, p) && k != 0 && -N < k < N
    ensures Mul(g, k, p) != g.zero
  {
    hide Mul;
    if k < 0 {
      assert Survives(g, p, -k);
      MulNeg(g, -k, p);
      NegNeg(g, Mul(g, -k, p));
      NegNeg(g, g.zero);
    } else {
      assert Survives(g, p, k);
    }
  }

  // No multiple of a non-zero scalar below the order is lost.
  lemma MultipleDecides<P(!new)>(g: Group<P>, x: Scalar, p: P, q: P)
    requires PrimeOrder(g) && x != 0 && Mul(g, x, p) == Mul(g, x, q)
    ensures p == q
  {
    hide Mul;
    var d := g.add(p, g.neg(q));
    MulDistribute(g, x, p, g.neg(q));
    MulDistribute(g, x, q, g.neg(q));
    Inverse(g, q);
    MulZero(g, x);
    if d != g.zero {
      assert HasOrderN(g, d);
      NonzeroMultiple(g, d, x);
    }
    Assoc(g, p, g.neg(q), q);
    Unit(g, p);
    Unit(g, q);
  }

  // N is odd, so nothing but infinity doubles to infinity.
  lemma NoTwoTorsion<P(!new)>(g: Group<P>, p: P)
    requires IsGroup(g) && Killed(g, p) && p != g.zero
    ensures g.add(p, p) != g.zero
  {
    if g.add(p, p) == g.zero {
      OrderBounds();
      MulOne(g, p);
      MulMul(g, N / 2, 2, p);
      MulZero(g, N / 2);
      MulSucc(g, N - 1, p);
      Unit(g, p);
    }
  }

  lemma KilledMultiple<P(!new)>(g: Group<P>, p: P, k: int)
    requires IsGroup(g) && Killed(g, p)
    ensures Killed(g, Mul(g, k, p))
  {
    MulMul(g, N, k, p);
    MulMul(g, k, N, p);
    MulZero(g, k);
    assert N * k == k * N;
  }

  lemma HornerSign(d: int, h: int, b: int)
    requires -b < d < b && b >= 2
    ensures h >= 1 ==> 1 <= d + b * h && h <= d + b * h
    ensures h <= -1 ==> d + b * h <= -1 && d + b * h <= h
  {
    if h >= 1 {
      MulNonneg(b - 1, h - 1);
      assert (b - 1) * (h - 1) == b * h - b - h + 1;
    } else if h <= -1 {
      MulNonneg(b - 1, -h - 1);
      assert (b - 1) * (-h - 1) == b * -h - b + h + 1;
      assert b * -h == -(b * h);
    }
  }

  /** Every prefix of the digits has a non-zero value of at most the full magnitude. */
  lemma {:induction false} PrefixRange(ds: seq<int>, v: int, b: int, i: nat)
    requires Represents(ds, v, b) && v != 0 && b >= 2 && i < |ds|
    ensures v > 0 ==> 1 <= High(ds, i, b) <= v
    ensures v < 0 ==> v <= High(ds, i, b) <= -1
  {
    PrefixSign(ds, v, b, i);
    if i == 0 {
      assert ds[0..] == ds;
    } else {
      PrefixRange(ds, v, b, i - 1);
      HighStep(ds, i - 1, b);
      HornerSign(ds[i - 1], High(ds, i, b), b);
    }
  }

  lemma {:induction false} PrefixSign(ds: seq<int>, v: int, b: int, i: nat)
    requires Represents(ds, v, b) && v != 0 && b >= 2 && i < |ds|
    ensures v > 0 ==> 1 <= High(ds, i, b)
    ensures v < 0 ==> High(ds, i, b) <= -1
    decreases |ds| - i
  {
    HighStep(ds, i, b);
    assert OddBelow(ds[i], b);
    if i == |ds| - 1 {
      assert High(ds, i + 1, b) == 0;
    } else {
      PrefixSign(ds, v, b, i + 1);
      HornerSign(ds[i], High(ds, i + 1, b), b);
    }
  }

  // Doubling w times multiplies by 2^w, and never meets infinity.
  method DoubleTimes<P(!new)>(g: Group<P>, r0: P, w: nat) returns (r: P)
    requires IsGroup(g) && Killed(g, r0) && r0 != g.zero
    ensures r == Mul(g, Pow2(w), r0)
  {
    hide Mul;
    r := r0;
    MulOne(g, r0);
    for j := 0 to w
      invariant r == Mul(g, Pow2(j), r0) && r != g.zero
    {
      KilledMultiple(g, r0, Pow2(j));
      NoTwoTorsion(g, r);
      MulAdd(g, Pow2(j), Pow2(j), r0);
      r := DoubleNonzero(g, r);
    }
  }

  method MulAddDigit<P(!new)>(g: Group<P>, a: P, pre: seq<P>, r0: P, n: int, ghost h: int) returns (r: P)
    requires IsGroup(g) && HasOrderN(g, a) && IsTable(g, pre, a) && |pre| == 8
    requires r0 == Mul(g, h, a) && h != 0 && -N < h < N && OddBelow(n, Pow2(W))
    ensures r == Mul(g, n + Pow2(W) * h, a)
  {
    hide Mul;
    NonzeroMultiple(g, a, h);
    KilledMultiple(g, a, h);
    r := DoubleTimes(g, r0, W);
    MulMul(g, Pow2(W), h, a);
    Pow2Values();
    TableGetIsMultiple(g, pre, n, a);
    NonzeroMultiple(g, a, n);
    MulAdd(g, Pow2(W) * h, n, a);
    r := AddGe(g, r, TableGet(g, pre, n));
  }

  /** secp256k1_ecmult_const: r = scalar*a for every scalar that fits in size bits up to sign. */
  method EcmultConst<P(!new)>(g: Group<P>, a: P, scalar: Scalar, size: nat) returns (r: P)
    requires IsGroup(g) && HasOrderN(g, a) && 1 <= size <= 256 && Magnitude(scalar) < Pow2(size)
    ensures r == Mul(g, scalar, a)
  {
    var n := WindowsFor(size, W);
    var wnaf := new int[n + 1];
    var skew := ConstWnaf(wnaf, scalar, W, size);
    var pre := OddMultiplesTable(g, TableSize(WINDOW_A), a);
    r := SumDigits(g, a, pre, wnaf[..], Skewed(scalar, skew));
    r := CorrectSkew(g, a, r, skew, scalar);
  }

  method SumDigits<P(!new)>(g: Group<P>, a: P, pre: seq<P>, ds: seq<int>, ghost v: int) returns (r: P)
    requires IsGroup(g) && HasOrderN(g, a) && IsTable(g, pre, a) && |pre| == 8
    requires Represents(ds, v, Pow2(W)) && v != 0 && -N < v < N
    ensures r == Mul(g, v, a)
  {
    hide Mul;
    var n := |ds| - 1;
    assert OddBelow(ds[n], Pow2(W)) && Pow2(W) == 16 by { Pow2Values(); }
    TableGetIsMultiple(g, pre, ds[n], a);
    r := TableGet(g, pre, ds[n]);
    HighStep(ds, n, Pow2(W));
    for i := n downto 0
      invariant r == Mul(g, High(ds, i, Pow2(W)), a)
    {
      PrefixRange(ds, v, Pow2(W), i + 1);
      HighStep(ds, i, Pow2(W));
      assert OddBelow(ds[i], Pow2(W));
      r := MulAddDigit(g, a, pre, r, ds[i], High(ds, i + 1, Pow2(W)));
    }
    assert ds[0..] == ds;
  }

  method CorrectSkew<P(!new)>(g: Group<P>, a: P, r0: P, skew: int, ghost scalar: Scalar) returns (r: P)
    requires IsGroup(g) && HasOrderN(g, a) && (skew == 1 || skew == 2) && r0 == Mul(g, Skewed(scalar, skew), a)
    ensures r == Mul(g, scalar, a)
  {
    hide Mul;
    MulOne(g, a);
    NonzeroMultiple(g, a, 1);
    NonzeroMultiple(g, a, 2);
    MulNeg(g, skew, a);
    NonzeroMultiple(g, a, -skew);
    var correction := if skew == 2 then g.add(a, a) else a;
    r := AddGe(g, r0, g.neg(correction));
    MulAdd(g, Skewed(scalar, skew), -skew, a);
    if IsHigh(scalar) {
      MulAdd(g, scalar - N, N, a);
      Unit(g, Mul(g, scalar - N, a));
    }
  }
}
