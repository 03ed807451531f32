/** Special soundness of the ring proof: transcripts that share their points and answer distinct challenges from fixed
    openings contain an opening of one of the ring's commitments. */
module RingSoundness {
  import opened AbelianGroup
  import opened LinearCombination
  import opened Digits
  import opened Secp256k1
  import opened Strauss
  import opened ScalarElement
  import opened RingAlgebra
  import opened RingSpec
  import opened RingCodec

  function SubS(x: Scalar, y: Scalar): Scalar {
    AddS(x, Negate(y))
  }

  lemma RepSub(x: Scalar, y: Scalar, u: int, v: int)
    requires Rep(x, u) && Rep(y, v)
    ensures Rep(SubS(x, y), u - v)
  {
    RepNegate(y, v);
    RepAdd(x, Negate(y), u, -v);
  }

  /** A polynomial with points as coefficients, lowest first, at the integer x. */
  ghost function PointPoly<P>(g: Group<P>, ps: seq<P>, x: int): P {
    if |ps| == 0 then g.zero else g.add(ps[0], Mul(g, x, PointPoly(g, ps[1..], x)))
  }

  lemma {:induction false} PointPolyAppend<P(!new)>(g: Group<P>, ps: seq<P>, p: P, x: int)
    requires IsGroup(g)
    ensures PointPoly(g, ps + [p], x) == g.add(PointPoly(g, ps, x), Mul(g, Power(x, |ps|), p))
  {
    hide Mul, IsGroup;
    if |ps| == 0 {
      assert (ps + [p])[1..] == [];
      MulZero(g, x);
      Unit(g, p);
      MulOne(g, p);
    } else {
      assert (ps + [p])[1..] == ps[1..] + [p];
      PointPolyAppend(g, ps[1..], p, x);
      var r, q := PointPoly(g, ps[1..], x), Mul(g, Power(x, |ps| - 1), p);
      MulDistribute(g, x, r, q);
      MulMul(g, x, Power(x, |ps| - 1), p);
      Assoc(g, ps[0], Mul(g, x, r), Mul(g, x, q));
    }
  }

  // Division by X - y.
  ghost function Quotient<P>(g: Group<P>, ps: seq<P>, y: int): (q: seq<P>)
    ensures |q| == if |ps| == 0 then 0 else |ps| - 1
  {
    if |ps| <= 1 then [] else [PointPoly(g, ps[1..], y)] + Quotient(g, ps[1..], y)
  }

  lemma {:induction false} QuotientLast<P(!new)>(g: Group<P>, ps: seq<P>, y: int)
    requires IsGroup(g) && |ps| >= 2
    ensures Quotient(g, ps, y)[|ps| - 2] == ps[|ps| - 1]
  {
    if |ps| == 2 {
      var rest := ps[1..];
      assert rest[1..] == [];
      assert PointPoly(g, rest, y) == g.add(rest[0], Mul(g, y, PointPoly(g, [], y)));
      MulZero(g, y);
      Unit(g, ps[1]);
    } else {
      QuotientLast(g, ps[1..], y);
    }
  }

  // P(x) = P(y) + (x - y)*Q(x)
  lemma {:induction false} QuotientValue<P(!new)>(g: Group<P>, ps: seq<P>, x: int, y: int)
    requires IsGroup(g) && |ps| > 0
    ensures PointPoly(g, ps, x) == g.add(PointPoly(g, ps, y), Mul(g, x - y, PointPoly(g, Quotient(g, ps, y), x)))
  {
    hide Mul, IsGroup;
    var rest := ps[1..];
    if |ps| == 1 {
      MulZero(g, x);
      MulZero(g, y);
      MulZero(g, x - y);
      Unit(g, PointPoly(g, ps, y));
    } else {
      QuotientValue(g, rest, x, y);
      var ry, q := PointPoly(g, rest, y), PointPoly(g, Quotient(g, rest, y), x);
      assert Quotient(g, ps, y)[1..] == Quotient(g, rest, y);
      DivisionStep(g, ps[0], ry, q, x, y);
    }
  }

  // p + x*(r + (x-y)*q) = (p + y*r) + (x-y)*(r + x*q)
  lemma DivisionStep<P(!new)>(g: Group<P>, p: P, r: P, q: P, x: int, y: int)
    requires IsGroup(g)
    ensures g.add(p, Mul(g, x, g.add(r, Mul(g, x - y, q)))) == g.add(g.add(p, Mul(g, y, r)), Mul(g, x - y, g.add(r,
        Mul(g, x, q))))
  {
    hide Mul, IsGroup;
    var d := x - y;
    MulDistribute(g, x, r, Mul(g, d, q));
    MulDistribute(g, d, r, Mul(g, x, q));
    MulMul(g, x, d, q);
    MulMul(g, d, x, q);
    assert x * d == d * x;
    MulAdd(g, y, d, r);
    Assoc(g, Mul(g, y, r), Mul(g, d, r), Mul(g, x * d, q));
    Assoc(g, p, Mul(g, y, r), g.add(Mul(g, d, r), Mul(g, x * d, q)));
  }

  function ScaledDifference(i: Scalar, z: seq<Scalar>, w: seq<Scalar>): (r: seq<Scalar>)
    requires |z| == |w|
    ensures |r| == |z| && forall k :: 0 <= k < |r| ==> r[k] == MulS(i, SubS(z[k], w[k]))
  {
    seq(|z|, k requires 0 <= k < |z| => MulS(i, SubS(z[k], w[k])))
  }

  // i*(Z - W) as a combination of the bases.
  lemma DifferenceOpens<P(!new)>(g: Group<P>, i: Scalar, z: seq<Scalar>, w: seq<Scalar>, bases: seq<P>)
    requires IsGroup(g) && AllKilled(g) && |z| == |w| == |bases|
    ensures Dot(g, ScaledDifference(i, z, w), bases) == Mul(g, i, g.add(Dot(g, z, bases), g.neg(Dot(g, w, bases))))
  {
    hide Mul, IsGroup, Dot, AllKilled;
    var d := seq(|z|, k requires 0 <= k < |z| => (z[k] as int) - (w[k] as int));
    assert forall k :: 0 <= k < |d| ==> Combined(-1, z[k], w[k], d[k]);
    AddScaled(g, -1, z, w, d, bases);
    MulOne(g, Dot(g, w, bases));
    var e := seq(|z|, k requires 0 <= k < |z| => i * d[k]);
    DotScale(g, i, d, e, bases);
    var r := ScaledDifference(i, z, w);
    forall k | 0 <= k < |r|
      ensures Same(r[k], e[k])
    {
      DifferenceEntry(i, z[k], w[k]);
    }
    AllKilledList(g, bases);
    DotSame(g, r, e, bases);
  }

  lemma DifferenceEntry(i: Scalar, z: Scalar, w: Scalar)
    ensures Rep(MulS(i, SubS(z, w)), i * ((z as int) - (w as int)))
  {
    RepSelf(i);
    RepSelf(z);
    RepSelf(w);
    RepSub(z, w, z, w);
    RepMul(i, SubS(z, w), i, z - w);
  }

  // A multiple can be divided out.
  lemma DivideOut<P(!new)>(g: Group<P>, inv: Scalar -> Scalar, x: Scalar, y: Scalar, u: P, v: P, q: P)
    requires IsGroup(g) && AllKilled(g) && IsScalarInverse(inv) && x != y && u == g.add(v, Mul(g, x - y, q))
    ensures q == Mul(g, inv(SubS(x, y)), g.add(u, g.neg(v)))
  {
    hide Mul, IsGroup;
    var d := SubS(x, y);
    NonzeroDifference(x, y);
    assert InvertsScalar(inv, d);
    var e: int := (x as int) - y;
    Comm(g, v, Mul(g, e, q));
    Assoc(g, Mul(g, e, q), v, g.neg(v));
    Inverse(g, v);
    Unit(g, Mul(g, e, q));
    assert g.add(u, g.neg(v)) == Mul(g, e, q);
    MulMul(g, inv(d), e, q);
    assert Killed(g, q);
    MulMod(g, N, inv(d) * e, q);
    MulOne(g, q);
    InverseProduct(inv(d), d, e);
  }

  lemma NonzeroDifference(x: Scalar, y: Scalar)
    requires x != y
    ensures SubS(x, y) != 0 && Rep(SubS(x, y), (x as int) - y)
  {
    RepSelf(x);
    RepSelf(y);
    RepSub(x, y, x, y);
    var e: int := (x as int) - y;
    if e > 0 {
      RepSelf(e);
    } else {
      ModShift(e, 1);
      RepSelf(e + N);
    }
  }

  lemma InverseProduct(i: Scalar, d: Scalar, e: int)
    requires MulS(d, i) == 1 && Rep(d, e)
    ensures (i * e) % N == 1
  {
    RepSelf(i);
    RepMul(i, d, i, e);
    assert MulS(i, d) == MulS(d, i);
    ScalarIsMod(i * e);
  }

  /** The opening contained in the openings at distinct points: repeated divided differences. */
  function Extract(inv: Scalar -> Scalar, xs: seq<Scalar>, zs: seq<seq<Scalar>>, k: nat): (r: seq<Scalar>)
    requires |xs| == |zs| > 0 && forall e :: 0 <= e < |zs| ==> |zs[e]| == k
    ensures |r| == k
    decreases |xs|
  {
    var last := |xs| - 1;
    if last == 0 then zs[0] else Extract(inv, xs[..last], Reduced(inv, xs, zs, k), k)
  }

  function Reduced(inv: Scalar -> Scalar, xs: seq<Scalar>, zs: seq<seq<Scalar>>, k: nat): (rs: seq<seq<Scalar>>)
    requires |xs| == |zs| > 0 && forall e :: 0 <= e < |zs| ==> |zs[e]| == k
    ensures |rs| == |zs| - 1 && forall e :: 0 <= e < |rs| ==> |rs[e]| == k
    ensures forall e :: 0 <= e < |rs| ==> rs[e] == ScaledDifference(inv(SubS(xs[e], xs[|xs| - 1])), zs[e], zs[|zs| - 1])
  {
    var last := |zs| - 1;
    var rs := seq(last, e requires 0 <= e < last => ScaledDifference(inv(SubS(xs[e], xs[last])), zs[e], zs[last]));
    assert forall e :: 0 <= e < last ==> rs[e] == ScaledDifference(inv(SubS(xs[e], xs[last])), zs[e], zs[last]);
    rs
  }

  ghost predicate Distinct(xs: seq<Scalar>) {
    forall i, j :: 0 <= i < j < |xs| ==> xs[i] != xs[j]
  }

  // Every value of the polynomial at a listed point is opened by the corresponding scalars.
  ghost predicate Opened<P>(g: Group<P>, ps: seq<P>, xs: seq<Scalar>, zs: seq<seq<Scalar>>, bases: seq<P>) {
    && |xs| == |zs| && (forall e :: 0 <= e < |zs| ==> |zs[e]| == |bases|)
    && (forall e :: 0 <= e < |xs| ==> PointPoly(g, ps, xs[e]) == Dot(g, zs[e], bases))
  }

  /** As many openings at distinct points as there are coefficients open the leading coefficient. */
  lemma {:induction false} ExtractOpens<P(!new)>(g: Group<P>, inv: Scalar -> Scalar, ps: seq<P>, xs: seq<Scalar>,
      zs: seq<seq<Scalar>>, bases: seq<P>)
    requires IsGroup(g) && AllKilled(g) && IsScalarInverse(inv) && |ps| == |xs| > 0 && Distinct(xs)
        && Opened(g, ps, xs, zs, bases)
    ensures Dot(g, Extract(inv, xs, zs, |bases|), bases) == ps[|ps| - 1]
    decreases |xs|
  {
    hide Mul, IsGroup, Dot, AllKilled, IsScalarInverse;
    var last := |xs| - 1;
    if last == 0 {
      assert ps[1..] == [];
      MulZero(g, xs[0]);
      Unit(g, ps[0]);
    } else {
      var y, q := xs[last], Quotient(g, ps, xs[last]);
      var rs := Reduced(inv, xs, zs, |bases|);
      forall e | 0 <= e < last
        ensures PointPoly(g, q, xs[..last][e]) == Dot(g, rs[e], bases)
      {
        QuotientValue(g, ps, xs[e], y);
        DivideOut(g, inv, xs[e], y, PointPoly(g, ps, xs[e]), PointPoly(g, ps, y), PointPoly(g, q, xs[e]));
        DifferenceOpens(g, inv(SubS(xs[e], y)), zs[e], zs[last], bases);
      }
      QuotientLast(g, ps, y);
      ExtractOpens(g, inv, q, xs[..last], rs, bases);
    }
  }

  // The lower coefficients of the ring polynomials at x.
  ghost function Evals(a: seq<int>, n: nat, m: nat, index: nat, ring: nat, j: nat, x: int): (v: seq<int>)
    requires n > 0 && |a| >= m * n
    ensures |v| == ring
    ensures forall t :: 0 <= t < ring ==> v[t] == Eval(Offsets(a, n, m, t), Slopes(n, m, index, t), j, x)
  {
    seq(ring, t requires 0 <= t => Eval(Offsets(a, n, m, t), Slopes(n, m, index, t), j, x))
  }

  // What the verifier's equation says about coefficient j: the ring's share less the prover's point.
  ghost function RingCoeffs<P>(g: Group<P>, ctx: Context<P>, cs: seq<P>, a: seq<Scalar>, index: nat, Q: seq<P>,
      j: nat): (ps: seq<P>)
    requires ctx.n > 0 && |a| == ctx.m * ctx.n && j <= |Q|
    ensures |ps| == j
  {
    if j == 0 then [] else
      RingCoeffs(g, ctx, cs, a, index, Q, j - 1) + [g.add(Dot(g, Column(a, ctx.n, ctx.m, index, |cs|, j - 1), cs),
          g.neg(Q[j - 1]))]
  }

  ghost function EvalSum<P>(g: Group<P>, ctx: Context<P>, cs: seq<P>, a: seq<Scalar>, index: nat, j: nat, x: int): P
    requires ctx.n > 0 && |a| == ctx.m * ctx.n
  {
    Dot(g, Evals(a, ctx.n, ctx.m, index, |cs|, j, x), cs)
  }

  lemma EvalSumStep<P(!new)>(g: Group<P>, ctx: Context<P>, cs: seq<P>, a: seq<Scalar>, index: nat, i: nat, x: int)
    requires IsGroup(g) && ctx.n > 0 && |a| == ctx.m * ctx.n
    ensures EvalSum(g, ctx, cs, a, index, i + 1, x)
      == g.add(EvalSum(g, ctx, cs, a, index, i, x),
        Mul(g, Power(x, i), Dot(g, Column(a, ctx.n, ctx.m, index, |cs|, i), cs)))
  {
    hide Mul, IsGroup, Dot, Coeff, Offsets, Slopes, Power;
    var n, m := ctx.n, ctx.m;
    var u, v, w := Evals(a, n, m, index, |cs|, i, x), Column(a, n, m, index, |cs|, i), Evals(a, n, m, index, |cs|,
      i + 1, x);
    forall t | 0 <= t < |cs|
      ensures Combined(Power(x, i), u[t], v[t], w[t])
    {
      NextEval(Offsets(a, n, m, t), Slopes(n, m, index, t), i, x);
    }
    hide Combined;
    AddScaled(g, Power(x, i), u, v, w, cs);
  }

  lemma NextEval(us: seq<int>, vs: seq<int>, i: nat, x: int)
    requires |us| == |vs|
    ensures Combined(Power(x, i), Eval(us, vs, i, x), Coeff(us, vs, i), Eval(us, vs, i + 1, x))
  {
  }

  lemma EvalSumZero<P(!new)>(g: Group<P>, ctx: Context<P>, cs: seq<P>, a: seq<Scalar>, index: nat, x: int)
    requires IsGroup(g) && ctx.n > 0 && |a| == ctx.m * ctx.n
    ensures EvalSum(g, ctx, cs, a, index, 0, x) == g.zero
  {
    DotZero(g, Evals(a, ctx.n, ctx.m, index, |cs|, 0, x), cs);
  }

  // p + x^j*(e - q) = (p1 - x^j*q) + (p2 + x^j*e)
  lemma CoeffStep<P(!new)>(g: Group<P>, c: int, s: P, t: P, e: P, q: P)
    requires IsGroup(g)
    ensures g.add(g.add(s, t), Mul(g, c, g.add(e, g.neg(q)))) == g.add(g.add(s, Mul(g, -c, q)), g.add(t, Mul(g, c, e)))
  {
    hide Mul, IsGroup;
    MulDistribute(g, c, e, g.neg(q));
    MulOne(g, q);
    MulMul(g, c, -1, q);
    assert c * -1 == -c;
    Comm(g, Mul(g, c, e), Mul(g, -c, q));
    Swap(g, s, t, Mul(g, -c, q), Mul(g, c, e));
  }

  lemma {:induction false} CoeffsSum<P(!new)>(g: Group<P>, ctx: Context<P>, cs: seq<P>, a: seq<Scalar>, index: nat,
      Q: seq<P>, x: int, j: nat)
    requires IsGroup(g) && ctx.n > 0 && |a| == ctx.m * ctx.n && j <= |Q|
    ensures PointPoly(g, RingCoeffs(g, ctx, cs, a, index, Q, j), x) == g.add(Dot(g, NegPowers(x, j), Q[..j]),
        EvalSum(g, ctx, cs, a, index, j, x))
  {
    hide Mul, IsGroup, Dot, EvalSum, Power, PointPoly;
    if j == 0 {
      EvalSumZero(g, ctx, cs, a, index, x);
      DotZero(g, NegPowers(x, 0), Q[..0]);
      Unit(g, g.zero);
      EmptyPoly(g, x);
    } else {
      var i, c := j - 1, Power(x, j - 1);
      CoeffsSum(g, ctx, cs, a, index, Q, x, i);
      EvalSumStep(g, ctx, cs, a, index, i, x);
      assert NegPowers(x, j) == NegPowers(x, i) + [-c] && Q[..j] == Q[..i] + [Q[i]];
      DotAppend(g, NegPowers(x, i), Q[..i], -c, Q[i]);
      var e := Dot(g, Column(a, ctx.n, ctx.m, index, |cs|, i), cs);
      PointPolyAppend(g, RingCoeffs(g, ctx, cs, a, index, Q, i), g.add(e, g.neg(Q[i])), x);
      CoeffStep(g, c, Dot(g, NegPowers(x, i), Q[..i]), EvalSum(g, ctx, cs, a, index, i, x), e, Q[i]);
    }
  }

  lemma EmptyPoly<P>(g: Group<P>, x: int)
    ensures PointPoly(g, [], x) == g.zero
  {
  }

  ghost function FromOffsets(a: seq<Scalar>): Nonces {
    Nonces(0, 0, 0, 0, [], a)
  }

  // The weighted ring: the lower coefficients and x^m times the commitment at the index.
  lemma WeightedRing<P(!new)>(g: Group<P>, ctx: Context<P>, cs: seq<P>, a: seq<Scalar>, index: nat, f: seq<Scalar>,
      x: Scalar)
    requires IsGroup(g) && AllKilled(g) && ctx.n > 0 && |a| == ctx.m * ctx.n == |f| && index < Power(ctx.n, ctx.m)
    requires |cs| <= Power(ctx.n, ctx.m)
    requires Responds(FromOffsets(a), ctx.n, index, x, f)
    ensures Dot(g, Weights(f, ctx.n, ctx.m, |cs|), cs) == g.add(EvalSum(g, ctx, cs, a, index, ctx.m, x), Mul(g,
        Power(x, ctx.m), Filled(g, cs, index)))
  {
    hide Mul, IsGroup, Dot, AllKilled, Weight, Eval, Offsets, Slopes, Coeff, Power, Responds;
    var n, m, p := ctx.n, ctx.m, Power(x, ctx.m);
    var e, u, w := Evals(a, n, m, index, |cs|, m, x), Single(|cs|, index, p), Weights(f, n, m, |cs|);
    var d := seq(|cs|, t requires 0 <= t < |cs| => e[t] + u[t]);
    DotAdd(g, e, u, d, cs);
    forall t | 0 <= t < |cs|
      ensures Same(w[t], d[t])
    {
      WeightExcess(FromOffsets(a), f, n, m, index, t, x);
      BackFromDifference(w[t], e[t], u[t]);
    }
    AllKilledList(g, cs);
    DotSame(g, w, d, cs);
    DotSingle(g, index, p, cs);
  }

  lemma BackFromDifference(w: int, e: int, u: int)
    requires Same(w - e, u)
    ensures Same(w, e + u)
  {
    CongruentDifference(w - e, u, -e);
  }

  /** The ring equation says that the polynomial with these coefficients, led by the commitment at the index, is opened
      by z. */
  lemma EquationAsPolynomial<P(!new)>(g: Group<P>, ctx: Context<P>, bases: seq<P>, cs: seq<P>, a: seq<Scalar>,
      index: nat, tr: Transcript<P>, x: Scalar)
    requires IsGroup(g) && AllKilled(g) && |a| == ctx.m * ctx.n && index < Power(ctx.n, ctx.m)
    requires |cs| <= Power(ctx.n, ctx.m)
    requires Fitting(ctx, bases, tr) && Responds(FromOffsets(a), ctx.n, index, x, tr.f)
    requires RingEquation(g, ctx, bases, cs, tr, x)
    ensures PointPoly(g, RingCoeffs(g, ctx, cs, a, index, tr.Q, ctx.m) + [Filled(g, cs, index)], x)
      == Dot(g, tr.z, bases)
  {
    hide Mul, IsGroup, Dot, AllKilled, EvalSum, PointPoly, Power, Responds, RingCoeffs;
    CoeffsSum(g, ctx, cs, a, index, tr.Q, x, ctx.m);
    WeightedRing(g, ctx, cs, a, index, tr.f, x);
    PointPolyAppend(g, RingCoeffs(g, ctx, cs, a, index, tr.Q, ctx.m), Filled(g, cs, index), x);
    assert tr.Q[..ctx.m] == tr.Q;
    var s, e, l := Dot(g, NegPowers(x, ctx.m), tr.Q), EvalSum(g, ctx, cs, a, index, ctx.m, x), Mul(g, Power(x, ctx.m),
      Filled(g, cs, index));
    Assoc(g, s, e, l);
  }
}
