/** Answers of a prover without keys, at a position that the ring does not have: they relate no generators and open no
    member of the ring. */
module RingBinding {
  import opened AbelianGroup
  import opened LinearCombination
  import opened Digits
  import opened Secp256k1
  import opened Strauss
  import opened ScalarElement
  import opened RingAlgebra
  import opened RingSpec
  import opened RingCodec
  import opened RingDigits
  import opened RingProver
  import opened RingSoundness
  import opened RingVerifier
  import opened RingExtraction

  // The answer u is the point at x of the line with this offset and slope.
  ghost predicate PointOf(o: seq<Scalar>, t: seq<Scalar>, x: Scalar, u: seq<Scalar>) {
    |o| == |t| == |u| && forall k :: 0 <= k < |u| ==> Rep(u[k], o[k] + x * t[k])
  }

  lemma SlopeExact(inv: Scalar -> Scalar, x: Scalar, y: Scalar, o: Scalar, t: Scalar, u: Scalar, v: Scalar)
    requires IsScalarInverse(inv) && x != y && Rep(u, o + x * t) && Rep(v, o + y * t)
    ensures MulS(inv(SubS(x, y)), SubS(u, v)) == t
  {
    var d, e := SubS(x, y), (x as int) - y;
    NonzeroDifference(x, y);
    assert InvertsScalar(inv, d);
    InverseProduct(inv(d), d, e);
    ScalarIsMod(inv(d) * e);
    RepSub(u, v, o + x * t, o + y * t);
    hide Rep, MulS, SubS, ToScalar, IsScalarInverse;
    Expand(o, x, y, t);
    DividedProduct(inv(d), SubS(u, v), t, e, e * t);
  }

  lemma DividedProduct(i: Scalar, s: Scalar, t: Scalar, e: int, p: int)
    requires ToScalar(i * e) == 1 && p == e * t && Rep(s, p)
    ensures MulS(i, s) == t
  {
    RepSelf(i);
    RepSelf(t);
    assert MulS(1, t) == t;
    OneRep(i * e);
    hide Rep, MulS, ToScalar;
    RepMul(i, s, i, p);
    RepMul(1, t, i * e, t);
    Regroup(i, e, t);
    RepUnique(MulS(i, s), MulS(1, t), i * p);
  }

  lemma Regroup(i: int, e: int, t: int)
    ensures i * e * t == i * (e * t)
  {
  }

  lemma OneRep(v: int)
    requires ToScalar(v) == 1
    ensures Rep(1, v)
  {
  }

  lemma Expand(o: int, x: int, y: int, t: int)
    ensures o + x * t - (o + y * t) == (x - y) * t
  {
  }

  lemma RepUnique(x: Scalar, y: Scalar, v: int)
    requires Rep(x, v) && Rep(y, v)
    ensures x == y
  {
  }

  // o + x*t - x*t
  lemma OffsetExact(x: Scalar, o: Scalar, t: Scalar, u: Scalar)
    requires Rep(u, o + x * t)
    ensures AddS(u, MulS(Negate(x), t)) == o
  {
    var minus: int := 0 - (x as int);
    RepSelf(x);
    RepNegate(x, x);
    RepSelf(o);
    RepSelf(t);
    RepMul(Negate(x), t, minus, t);
    hide MulS, AddS, ToScalar;
    RepAdd(u, MulS(Negate(x), t), o + x * t, minus * t);
    assert o + x * t + minus * t == o;
    RepUnique(AddS(u, MulS(Negate(x), t)), o, o);
  }

  lemma NoGap(z: Scalar, o: Scalar, t: Scalar, w: Scalar)
    requires Rep(w, o + z * t)
    ensures AddS(w, MulS(Negate(1), AddS(o, MulS(z, t)))) == 0
  {
    RepSelf(z);
    AlongRep(o, z, z, t);
    RepUnique(AddS(o, MulS(z, t)), w, o + z * t);
    RepSelf(1);
    RepNegate(1, 1);
    AlongRep(w, Negate(1), -1, w);
    RepSelf(0);
    RepUnique(AddS(w, MulS(Negate(1), w)), 0, 0);
  }

  /** Answers that are given from one line leave no gap. */
  lemma ExactLine(inv: Scalar -> Scalar, o: seq<Scalar>, t: seq<Scalar>, x: Scalar, u: seq<Scalar>, y: Scalar,
      v: seq<Scalar>, z: Scalar, w: seq<Scalar>)
    requires IsScalarInverse(inv) && x != y && PointOf(o, t, x, u) && PointOf(o, t, y, v) && PointOf(o, t, z, w)
    ensures AllZero(Gap(Through(inv, x, y, u, v), z, w))
  {
    hide IsScalarInverse, Rep, MulS, AddS, SubS, Negate;
    var l := Through(inv, x, y, u, v);
    forall k | 0 <= k < |w|
      ensures Gap(l, z, w)[k] == 0
    {
      SlopeExact(inv, x, y, o[k], t[k], u[k], v[k]);
      OffsetExact(x, o[k], t[k], u[k]);
      NoGap(z, o[k], t[k], w[k]);
    }
  }

  // The lines of an honest prover: offsets and slopes of what it answers.
  ghost function LinearOffsets(s: Nonces): seq<Scalar> {
    [s.rA] + s.a
  }

  ghost function LinearSlopes(s: Nonces, n: nat, index: nat): (t: seq<Scalar>)
    requires n > 0
    ensures |t| == |s.a| + 1
  {
    [s.rB] + seq(|s.a|, k requires 0 <= k < |s.a| => DeltaAt(k, n, index) as Scalar)
  }

  ghost function BinaryOffsets(s: Nonces): (o: seq<Scalar>)
    ensures |o| == |s.a| + 1
  {
    [s.rD] + seq(|s.a|, k requires 0 <= k < |s.a| => ToScalar(NegSquare(s.a[k])))
  }

  ghost function BinarySlopes(s: Nonces, n: nat, index: nat): (t: seq<Scalar>)
    requires n > 0
    ensures |t| == |s.a| + 1
  {
    [s.rC] + seq(|s.a|, k requires 0 <= k < |s.a| => ToScalar(Mixed(s.a[k], DeltaAt(k, n, index))))
  }

  // An honest transcript as far as the lines are concerned.
  ghost predicate HonestAnswers<P>(s: Nonces, n: nat, index: nat, x: Scalar, tr: Transcript<P>)
    requires n > 0
  {
    Responds(s, n, index, x, tr.f) && tr.zA == ToScalar(x * s.rB + s.rA) && tr.zC == ToScalar(x * s.rC + s.rD)
  }

  lemma LinearOnLine<P>(s: Nonces, n: nat, index: nat, x: Scalar, tr: Transcript<P>)
    requires n > 0 && HonestAnswers(s, n, index, x, tr)
    ensures PointOf(LinearOffsets(s), LinearSlopes(s, n, index), x, LinearAnswer(tr))
  {
    hide ToScalar, DeltaAt;
    var o, t, u := LinearOffsets(s), LinearSlopes(s, n, index), LinearAnswer(tr);
    forall k | 0 <= k < |u|
      ensures Rep(u[k], o[k] + x * t[k])
    {
      if k == 0 {
        Flip(s.rB, x, s.rA);
      } else {
        assert Rep(tr.f[k - 1], DeltaAt(k - 1, n, index) * x + s.a[k - 1]);
        Flip(DeltaAt(k - 1, n, index), x, s.a[k - 1]);
      }
    }
  }

  lemma Flip(d: int, x: int, a: int)
    ensures d * x + a == a + x * d && x * d + a == a + x * d
  {
  }

  lemma BinaryOnLine<P>(s: Nonces, n: nat, index: nat, x: Scalar, tr: Transcript<P>)
    requires n > 0 && HonestAnswers(s, n, index, x, tr)
    ensures PointOf(BinaryOffsets(s), BinarySlopes(s, n, index), x, BinaryAnswer(tr, x))
  {
    hide ToScalar, DeltaAt, Bit, Mixed, NegSquare;
    var o, t, u := BinaryOffsets(s), BinarySlopes(s, n, index), BinaryAnswer(tr, x);
    forall k | 0 <= k < |u|
      ensures Rep(u[k], o[k] + x * t[k])
    {
      if k == 0 {
        Flip(s.rC, x, s.rD);
      } else {
        var i := k - 1;
        assert Rep(tr.f[i], DeltaAt(i, n, index) * x + s.a[i]);
        BitIdentity(DeltaAt(i, n, index), s.a[i], x, tr.f[i]);
        assert u[k] == BitScalars(tr.f, x)[i];
        BinaryEntry(u[k], Bit(tr.f[i], x), x, Mixed(s.a[i], DeltaAt(i, n, index)), NegSquare(s.a[i]));
      }
    }
  }

  lemma BinaryEntry(u: Scalar, b: int, x: Scalar, p: int, q: int)
    requires Rep(u, b) && Same(b, x * p + q)
    ensures Rep(u, ToScalar(q) + x * ToScalar(p))
  {
    var v, w := ToScalar(p), ToScalar(q);
    RepSelf(x);
    RepSelf(v);
    RepSelf(w);
    assert Rep(v, p) && Rep(w, q);
    hide MulS, AddS, ToScalar;
    RepMul(x, v, x, p);
    RepMul(x, v, x, v);
    RepAdd(MulS(x, v), w, x * p, q);
    RepAdd(MulS(x, v), w, x * v, w);
    assert x * v + w == w + x * v;
  }

  ghost function Zeros(k: nat): (z: seq<Scalar>)
    ensures |z| == k && forall i :: 0 <= i < k ==> z[i] == 0
  {
    seq(k, i => 0 as Scalar)
  }

  /** The honest transcript over the first base alone, with zero openings over the others: no key is used. */
  ghost function Keyless<P>(g: Group<P>, ctx: Context<P>, bases: seq<P>, cs: seq<P>, index: nat, s: Nonces,
      x: Scalar): (tr: Transcript<P>)
    requires Shaped(ctx, s) && |bases| > 0
  {
    var tr := HonestTranscript(g, ctx, bases[..1], cs, index, [0], s, x);
    tr.(z := tr.z + Zeros(|bases| - 1))
  }

  ghost function KeylessFamily<P>(g: Group<P>, ctx: Context<P>, bases: seq<P>, cs: seq<P>, index: nat, s: Nonces,
      xs: seq<Scalar>): (trs: seq<Transcript<P>>)
    requires Shaped(ctx, s) && |bases| > 0
    ensures |trs| == |xs|
    ensures forall e :: 0 <= e < |trs| ==> trs[e] == Keyless(g, ctx, bases, cs, index, s, xs[e])
  {
    seq(|xs|, e requires 0 <= e < |xs| => Keyless(g, ctx, bases, cs, index, s, xs[e]))
  }

  lemma KeylessFits<P>(g: Group<P>, ctx: Context<P>, bases: seq<P>, cs: seq<P>, index: nat, s: Nonces, x: Scalar)
    requires Shaped(ctx, s) && |bases| > 0
    ensures var tr := Keyless(g, ctx, bases, cs, index, s, x);
      && Fitting(ctx, bases, tr) && HonestQs(g, ctx, bases[..1], cs, index, s, tr.Q)
      && tr.z == Openings([0], s.rho, x) + Zeros(|bases| - 1) && Responds(s, ctx.n, index, x, tr.f)
      && HonestAnswers(s, ctx.n, index, x, tr)
  {
    hide HonestQ;
  }

  // Zero openings over further bases add nothing.
  lemma PaddedOpening<P(!new)>(g: Group<P>, z: Scalar, bases: seq<P>)
    requires IsGroup(g) && |bases| > 0
    ensures Dot(g, [z] + Zeros(|bases| - 1), bases) == Dot(g, [z], bases[..1])
  {
    hide Dot, IsGroup;
    var zeros := Zeros(|bases| - 1);
    DotConcat(g, [z], bases[..1], zeros, bases[1..]);
    assert bases[..1] + bases[1..] == bases;
    DotZero(g, zeros, bases[1..]);
    Unit(g, Dot(g, [z], bases[..1]));
  }

  // A prover without keys at a position that the ring does not have.
  lemma KeylessConvinces<P(!new)>(g: Group<P>, ctx: Context<P>, bases: seq<P>, cs: seq<P>, index: nat, s: Nonces,
      x: Scalar)
    requires IsGroup(g) && AllKilled(g) && Shaped(ctx, s) && |bases| > 0 && |cs| <= index < Power(ctx.n, ctx.m)
    requires forall j :: 0 <= j < ctx.m ==> RowFirst(s.a, ctx.n, 0, j)
    ensures Convinced(g, ctx, bases, cs, Keyless(g, ctx, bases, cs, index, s, x), x)
  {
    hide IsGroup, AllKilled, Dot, Mul, Power, HonestTranscript, RowFirst, Responds, Commit;
    var one, tr := HonestTranscript(g, ctx, bases[..1], cs, index, [0], s, x), Keyless(g, ctx, bases, cs, index, s, x);
    HonestFits(g, ctx, bases[..1], cs, index, [0], s, x);
    KeylessFits(g, ctx, bases, cs, index, s, x);
    Completeness(g, ctx, bases[..1], cs, index, [0], s, x);
    DotZero(g, [0], bases[..1]);
    PaddedOpening(g, one.z[0], bases);
    assert one.z == [one.z[0]];
    forall j | 0 <= j < ctx.m
      ensures RowFirst(tr.f, ctx.n, x, j)
    {
      ResponseRows(s, tr.f, ctx.n, ctx.m, index, x, j);
    }
  }

  lemma KeylessForks<P(!new)>(g: Group<P>, ctx: Context<P>, bases: seq<P>, cs: seq<P>, index: nat, s: Nonces,
      xs: seq<Scalar>)
    requires IsGroup(g) && AllKilled(g) && Shaped(ctx, s) && |bases| > 0 && |cs| <= index < Power(ctx.n, ctx.m)
    requires forall j :: 0 <= j < ctx.m ==> RowFirst(s.a, ctx.n, 0, j)
    requires |xs| >= 3 && |xs| > ctx.m && Distinct(xs)
    ensures Forked(g, ctx, bases, cs, KeylessFamily(g, ctx, bases, cs, index, s, xs), xs)
  {
    hide IsGroup, AllKilled, Power, RowFirst, Distinct, Convinced, HonestQ, Commit, Response, Openings, DeltaVec,
      MixedVec, SquareVec;
    var trs := KeylessFamily(g, ctx, bases, cs, index, s, xs);
    forall e | 0 <= e < |xs|
      ensures Convinced(g, ctx, bases, cs, trs[e], xs[e])
    {
      KeylessConvinces(g, ctx, bases, cs, index, s, xs[e]);
    }
  }

  lemma KeylessOnLines<P>(g: Group<P>, inv: Scalar -> Scalar, ctx: Context<P>, bases: seq<P>, cs: seq<P>, index: nat,
      s: Nonces, xs: seq<Scalar>, e: nat)
    requires IsScalarInverse(inv) && Shaped(ctx, s) && |bases| > 0 && |xs| >= 2 && xs[0] != xs[1] && e < |xs|
    ensures var trs := KeylessFamily(g, ctx, bases, cs, index, s, xs);
      |trs[0].f| == |trs[1].f| == |trs[e].f| && OnLines(inv, trs, xs, e)
  {
    hide IsScalarInverse, HonestQ, Commit, Openings, DeltaVec, MixedVec, SquareVec, AllZero, Gap, Through, ToScalar,
      PointOf;
    var n, trs := ctx.n, KeylessFamily(g, ctx, bases, cs, index, s, xs);
    forall i | i in {0, 1, e}
      ensures PointOf(LinearOffsets(s), LinearSlopes(s, n, index), xs[i], LinearAnswer(trs[i]))
      ensures PointOf(BinaryOffsets(s), BinarySlopes(s, n, index), xs[i], BinaryAnswer(trs[i], xs[i]))
    {
      LinearOnLine(s, n, index, xs[i], trs[i]);
      BinaryOnLine(s, n, index, xs[i], trs[i]);
    }
    assert 0 in {0, 1, e} && 1 in {0, 1, e} && e in {0, 1, e};
    var u, v, w := LinearAnswer(trs[0]), LinearAnswer(trs[1]), LinearAnswer(trs[e]);
    ExactLine(inv, LinearOffsets(s), LinearSlopes(s, n, index), xs[0], u, xs[1], v, xs[e], w);
    u, v, w := BinaryAnswer(trs[0], xs[0]), BinaryAnswer(trs[1], xs[1]), BinaryAnswer(trs[e], xs[e]);
    ExactLine(inv, BinaryOffsets(s), BinarySlopes(s, n, index), xs[0], u, xs[1], v, xs[e], w);
  }

  // What the openings of the first answers combine into.
  ghost function Combination<P>(inv: Scalar -> Scalar, m: nat, k: nat, trs: seq<Transcript<P>>,
      xs: seq<Scalar>): (z: seq<Scalar>)
    requires |trs| == |xs| > m && forall e :: 0 <= e < |trs| ==> |trs[e].z| == k
    ensures |z| == k
  {
    Extract(inv, xs[..m + 1], Zs(trs)[..m + 1], k)
  }

  /** Transcripts whose openings combine into an opening of a commitment that stands in the ring. */
  ghost predicate OpensMember<P>(g: Group<P>, inv: Scalar -> Scalar, ctx: Context<P>, bases: seq<P>, cs: seq<P>,
      trs: seq<Transcript<P>>, xs: seq<Scalar>)
  {
    && |trs| == |xs| >= 3 && |xs| > ctx.m && Sized(ctx, bases, trs)
    && Dot(g, Combination(inv, ctx.m, |bases|, trs, xs), bases) in cs
  }

  ghost predicate BreaksSomewhere<P>(g: Group<P>, inv: Scalar -> Scalar, ctx: Context<P>, bases: seq<P>,
      trs: seq<Transcript<P>>, xs: seq<Scalar>)
  {
    |trs| == |xs| >= 3 && Sized(ctx, bases, trs) && exists e :: 0 <= e < |trs| && Breaks(g, ctx, inv, trs, xs, e)
  }

  /** Over a ring with a missing position the answers of a prover without keys relate nothing and open no finite
      commitment: they combine into an opening of the neutral element. */
  lemma PartialRingUnsound<P(!new)>(g: Group<P>, inv: Scalar -> Scalar, ctx: Context<P>, bases: seq<P>, cs: seq<P>,
      index: nat, s: Nonces, xs: seq<Scalar>)
    requires IsGroup(g) && AllKilled(g) && IsScalarInverse(inv) && Shaped(ctx, s) && |bases| > 0
    requires |cs| <= index < Power(ctx.n, ctx.m) && forall j :: 0 <= j < ctx.m ==> RowFirst(s.a, ctx.n, 0, j)
    requires FinitePoints(g, cs) && |xs| >= 3 && |xs| > ctx.m && Distinct(xs)
    ensures var trs := KeylessFamily(g, ctx, bases, cs, index, s, xs);
      && Forked(g, ctx, bases, cs, trs, xs) && Sized(ctx, bases, trs)
      && !BreaksSomewhere(g, inv, ctx, bases, trs, xs) && !OpensMember(g, inv, ctx, bases, cs, trs, xs)
      && Dot(g, Combination(inv, ctx.m, |bases|, trs, xs), bases) == g.zero
  {
    hide IsGroup, AllKilled, IsScalarInverse, Forked, RowFirst, Power, Dot, Extract, HonestTranscript, Responds,
      LinearGap, BinaryGap;
    var trs := KeylessFamily(g, ctx, bases, cs, index, s, xs);
    KeylessForks(g, ctx, bases, cs, index, s, xs);
    assert xs[0] != xs[1] by { assert Distinct(xs); }
    forall e | 0 <= e < |xs|
      ensures |trs[0].f| == |trs[1].f| == |trs[e].f| && !Breaks(g, ctx, inv, trs, xs, e)
      ensures |trs[e].z| == |bases| && |trs[e].f| == ctx.m * ctx.n
      ensures Responds(FromOffsets(s.a), ctx.n, index, xs[e], trs[e].f)
    {
      KeylessOnLines(g, inv, ctx, bases, cs, index, s, xs, e);
      KeylessFits(g, ctx, bases, cs, index, s, xs[e]);
      SameResponds(s, ctx.n, index, xs[e], trs[e].f);
    }
    PositionOpens(g, inv, ctx, bases, cs, trs, xs, index, s.a);
  }

  lemma SameResponds(s: Nonces, n: nat, index: nat, x: Scalar, f: seq<Scalar>)
    requires n > 0 && Responds(s, n, index, x, f)
    ensures Responds(FromOffsets(s.a), n, index, x, f)
  {
  }
}
