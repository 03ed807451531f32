/** Accepted transcripts with the same points and distinct challenges contain a non-trivial relation between the
    generators, or an opening of what stands at one position: a commitment of the ring, or the neutral element beyond
    its end. */
module RingExtraction {
  import opened AbelianGroup
  import opened LinearCombination
  import opened Digits
  import opened Secp256k1
  import opened Bytes
  import opened Strauss
  import opened EcmultConst
  import opened ScalarElement
  import opened RingAlgebra
  import opened RingSpec
  import opened RingCodec
  import opened RingDigits
  import opened RingProver
  import opened RingSoundness
  import opened RingVerifier

  // A vector that moves on a straight line with the challenge.
  datatype Line = Line(offset: seq<Scalar>, slope: seq<Scalar>)

  function Through(inv: Scalar -> Scalar, x: Scalar, y: Scalar, u: seq<Scalar>, v: seq<Scalar>): (l: Line)
    requires |u| == |v|
    ensures |l.offset| == |l.slope| == |u|
  {
    var s := ScaledDifference(inv(SubS(x, y)), u, v);
    Line(Along(u, Negate(x), s), s)
  }

  // u + c*v
  function Along(u: seq<Scalar>, c: Scalar, v: seq<Scalar>): (w: seq<Scalar>)
    requires |u| == |v|
    ensures |w| == |u| && forall k :: 0 <= k < |w| ==> w[k] == AddS(u[k], MulS(c, v[k]))
  {
    seq(|u|, k requires 0 <= k < |u| => AddS(u[k], MulS(c, v[k])))
  }

  /** How far an answer is from the line. */
  function Gap(l: Line, x: Scalar, u: seq<Scalar>): (w: seq<Scalar>)
    requires |l.offset| == |l.slope| == |u|
    ensures |w| == |u|
  {
    Along(u, Negate(1), Along(l.offset, x, l.slope))
  }

  lemma AlongRep(u: Scalar, c: Scalar, e: int, v: Scalar)
    requires Rep(c, e)
    ensures Rep(AddS(u, MulS(c, v)), u + e * v)
  {
    RepSelf(u);
    RepSelf(v);
    RepMul(c, v, e, v);
    RepAdd(u, MulS(c, v), u, e * v);
  }

  lemma DotAlong<P(!new)>(g: Group<P>, u: seq<Scalar>, c: Scalar, e: int, v: seq<Scalar>, ps: seq<P>)
    requires IsGroup(g) && AllKilled(g) && |u| == |v| == |ps| && Rep(c, e)
    ensures Dot(g, Along(u, c, v), ps) == g.add(Dot(g, u, ps), Mul(g, e, Dot(g, v, ps)))
  {
    hide Mul, IsGroup, Dot, AllKilled;
    var w, d := Along(u, c, v), seq(|u|, k requires 0 <= k < |u| => (u[k] as int) + e * v[k]);
    forall k | 0 <= k < |w|
      ensures Same(w[k], d[k]) && Combined(e, u[k], v[k], d[k])
    {
      AlongRep(u[k], c, e, v[k]);
    }
    AllKilledList(g, ps);
    DotSame(g, w, d, ps);
    AddScaled(g, e, u, v, d, ps);
  }

  // The answer u at the challenge x opens x*p + q.
  ghost predicate Answers<P>(g: Group<P>, gens: seq<P>, p: P, q: P, x: Scalar, u: seq<Scalar>) {
    |u| == |gens| && g.add(Mul(g, x, p), q) == Dot(g, u, gens)
  }

  /** Two answers open both points. */
  lemma LineOpens<P(!new)>(g: Group<P>, inv: Scalar -> Scalar, gens: seq<P>, p: P, q: P, x: Scalar, u: seq<Scalar>,
      y: Scalar, v: seq<Scalar>)
    requires IsGroup(g) && AllKilled(g) && IsScalarInverse(inv) && x != y
    requires Answers(g, gens, p, q, x, u) && Answers(g, gens, p, q, y, v)
    ensures Dot(g, Through(inv, x, y, u, v).slope, gens) == p && Dot(g, Through(inv, x, y, u, v).offset, gens) == q
  {
    hide Mul, IsGroup, Dot, AllKilled, IsScalarInverse;
    var du, dv, s := Dot(g, u, gens), Dot(g, v, gens), Through(inv, x, y, u, v).slope;
    var e: int := (x as int) - y;
    MulAdd(g, y, e, p);
    SwapLast(g, Mul(g, y, p), Mul(g, e, p), q);
    DivideOut(g, inv, x, y, du, dv, p);
    DifferenceOpens(g, inv(SubS(x, y)), u, v, gens);
    var minus: int := 0 - (x as int);
    RepSelf(x);
    RepNegate(x, x);
    DotAlong(g, u, Negate(x), minus, s, gens);
    Comm(g, Mul(g, x, p), q);
    Assoc(g, q, Mul(g, x, p), Mul(g, minus, p));
    MulAdd(g, x, minus, p);
    MulOne(g, p);
    Unit(g, q);
  }

  /** A third answer off the line of the first two is a relation between the generators. */
  lemma GapIsRelation<P(!new)>(g: Group<P>, gens: seq<P>, p: P, q: P, l: Line, x: Scalar, u: seq<Scalar>)
    requires IsGroup(g) && AllKilled(g) && |l.slope| == |l.offset| == |gens| && Answers(g, gens, p, q, x, u)
    requires Dot(g, l.slope, gens) == p && Dot(g, l.offset, gens) == q
    ensures Dot(g, Gap(l, x, u), gens) == g.zero
  {
    hide Mul, IsGroup, Dot, AllKilled;
    RepSelf(x);
    DotAlong(g, l.offset, x, x, l.slope, gens);
    Comm(g, Mul(g, x, p), q);
    var d := Dot(g, u, gens);
    RepSelf(1);
    RepNegate(1, 1);
    DotAlong(g, u, Negate(1), -1, Along(l.offset, x, l.slope), gens);
    MulOne(g, d);
    Inverse(g, d);
  }

  ghost predicate AllZero(w: seq<Scalar>) {
    forall k :: 0 <= k < |w| ==> w[k] == 0
  }

  // No gap: the answer is on the line.
  lemma OnLine(l: Line, x: Scalar, u: seq<Scalar>, k: nat)
    requires |l.offset| == |l.slope| == |u| && AllZero(Gap(l, x, u)) && k < |u|
    ensures Rep(u[k], l.offset[k] + x * l.slope[k])
  {
    var o, s := l.offset[k], l.slope[k];
    RepSelf(x);
    AlongRep(o, x, x, s);
    var w := AddS(o, MulS(x, s));
    assert Gap(l, x, u)[k] == AddS(u[k], MulS(Negate(1), w));
    RepSelf(1);
    RepNegate(1, 1);
    AlongRep(u[k], Negate(1), -1, w);
    SmallDifference(u[k], w);
  }

  lemma SmallDifference(u: Scalar, w: Scalar)
    requires Rep(0, u + -1 * w)
    ensures u == w
  {
    var d: int := (u as int) - w;
    if d < 0 {
      ModShift(d, 1);
      RepSelf(d + N);
    } else {
      RepSelf(d);
    }
  }

  function BitScalars(f: seq<Scalar>, x: Scalar): (v: seq<Scalar>)
    ensures |v| == |f| && forall k :: 0 <= k < |v| ==> Rep(v[k], Bit(f[k], x))
  {
    seq(|f|, k requires 0 <= k < |f| => ToScalar(Bit(f[k], x)))
  }

  // What a transcript answers about the points B and A, and about C and D.
  function LinearAnswer<P>(tr: Transcript<P>): (u: seq<Scalar>)
    ensures |u| == |tr.f| + 1 && u[1..] == tr.f
  {
    [tr.zA] + tr.f
  }

  function BinaryAnswer<P>(tr: Transcript<P>, x: Scalar): (u: seq<Scalar>)
    ensures |u| == |tr.f| + 1 && u[1..] == BitScalars(tr.f, x)
  {
    [tr.zC] + BitScalars(tr.f, x)
  }

  lemma EquationsAnswer<P(!new)>(g: Group<P>, ctx: Context<P>, bases: seq<P>, tr: Transcript<P>, x: Scalar)
    requires IsGroup(g) && AllKilled(g) && Fitting(ctx, bases, tr) && LinearEquation(g, ctx, bases, tr, x)
        && BinaryEquation(g, ctx, bases, tr, x)
    ensures Answers(g, Gens(ctx), tr.B, tr.A, x, LinearAnswer(tr))
    ensures Answers(g, Gens(ctx), tr.C, tr.D, x, BinaryAnswer(tr, x))
  {
    hide Mul, IsGroup, Dot, AllKilled, Commit;
    CommitIsDot(g, ctx, tr.zA, tr.f);
    var v, w := BinaryVec(tr.f, x), BitScalars(tr.f, x);
    RepSelf(tr.zC);
    forall k | 0 <= k < |v|
      ensures Same(w[k], v[k])
    {
      assert Rep(w[k], Bit(tr.f[k], x));
    }
    hide Rep;
    CommitMod(g, ctx, tr.zC, tr.zC, w, v);
    CommitIsDot(g, ctx, tr.zC, w);
  }

  // One verifier's view: the equations hold and every row of responses adds up to the challenge.
  ghost predicate Convinced<P>(g: Group<P>, ctx: Context<P>, bases: seq<P>, cs: seq<P>, tr: Transcript<P>, x: Scalar) {
    && Fitting(ctx, bases, tr) && Equations(g, ctx, bases, cs, tr, x)
    && RowsOf(tr.f, ctx.n, ctx.m, x)
  }

  ghost predicate SamePoints<P>(s: Transcript<P>, t: Transcript<P>) {
    s.A == t.A && s.B == t.B && s.C == t.C && s.D == t.D && s.Q == t.Q
  }

  ghost predicate Forked<P>(g: Group<P>, ctx: Context<P>, bases: seq<P>, cs: seq<P>, trs: seq<Transcript<P>>,
      xs: seq<Scalar>) {
    && |trs| == |xs| >= 3 && |xs| > ctx.m && Distinct(xs)
    && (forall e :: 0 <= e < |xs| ==> Convinced(g, ctx, bases, cs, trs[e], xs[e]))
    && (forall e :: 0 <= e < |xs| ==> SamePoints(trs[e], trs[0]))
  }

  function LinearLine<P>(inv: Scalar -> Scalar, trs: seq<Transcript<P>>, xs: seq<Scalar>): (l: Line)
    requires |trs| == |xs| >= 2 && |trs[0].f| == |trs[1].f|
    ensures |l.offset| == |l.slope| == |trs[0].f| + 1
  {
    Through(inv, xs[0], xs[1], LinearAnswer(trs[0]), LinearAnswer(trs[1]))
  }

  function BinaryLine<P>(inv: Scalar -> Scalar, trs: seq<Transcript<P>>, xs: seq<Scalar>): (l: Line)
    requires |trs| == |xs| >= 2 && |trs[0].f| == |trs[1].f|
    ensures |l.offset| == |l.slope| == |trs[0].f| + 1
  {
    Through(inv, xs[0], xs[1], BinaryAnswer(trs[0], xs[0]), BinaryAnswer(trs[1], xs[1]))
  }

  function LinearGap<P>(inv: Scalar -> Scalar, trs: seq<Transcript<P>>, xs: seq<Scalar>, e: nat): seq<Scalar>
    requires |trs| == |xs| >= 2 && |trs[0].f| == |trs[1].f| && e < |xs| && |trs[e].f| == |trs[0].f|
  {
    Gap(LinearLine(inv, trs, xs), xs[e], LinearAnswer(trs[e]))
  }

  function BinaryGap<P>(inv: Scalar -> Scalar, trs: seq<Transcript<P>>, xs: seq<Scalar>, e: nat): seq<Scalar>
    requires |trs| == |xs| >= 2 && |trs[0].f| == |trs[1].f| && e < |xs| && |trs[e].f| == |trs[0].f|
  {
    Gap(BinaryLine(inv, trs, xs), xs[e], BinaryAnswer(trs[e], xs[e]))
  }

  /** A combination of the points that vanishes although not all of its scalars do. */
  ghost predicate IsRelation<P>(g: Group<P>, ps: seq<P>, w: seq<Scalar>) {
    |w| == |ps| && Dot(g, w, ps) == g.zero && !AllZero(w)
  }

  // Either an answer is off its line, which yields a relation, or all of them are on it.
  ghost predicate Breaks<P>(g: Group<P>, ctx: Context<P>, inv: Scalar -> Scalar, trs: seq<Transcript<P>>,
      xs: seq<Scalar>, e: nat)
    requires |trs| == |xs| >= 2 && |trs[0].f| == |trs[1].f| && e < |xs| && |trs[e].f| == |trs[0].f|
  {
    IsRelation(g, Gens(ctx), LinearGap(inv, trs, xs, e)) || IsRelation(g, Gens(ctx), BinaryGap(inv, trs, xs, e))
  }

  ghost predicate OnLines<P>(inv: Scalar -> Scalar, trs: seq<Transcript<P>>, xs: seq<Scalar>, e: nat)
    requires |trs| == |xs| >= 2 && |trs[0].f| == |trs[1].f| && e < |xs| && |trs[e].f| == |trs[0].f|
  {
    AllZero(LinearGap(inv, trs, xs, e)) && AllZero(BinaryGap(inv, trs, xs, e))
  }

  lemma BreaksOrOnLines<P(!new)>(g: Group<P>, inv: Scalar -> Scalar, ctx: Context<P>, bases: seq<P>, cs: seq<P>,
      trs: seq<Transcript<P>>, xs: seq<Scalar>, e: nat)
    requires IsGroup(g) && AllKilled(g) && IsScalarInverse(inv) && Forked(g, ctx, bases, cs, trs, xs) && e < |xs|
    requires |trs[0].f| == |trs[1].f| == |trs[e].f|
    ensures Breaks(g, ctx, inv, trs, xs, e) || OnLines(inv, trs, xs, e)
  {
    hide IsGroup, Dot, AllKilled, IsScalarInverse, RingEquation, LinearEquation, BinaryEquation, AllZero, Gap,
        Through, RowsOf, Mul;
    forall i | i in {0, 1, e}
      ensures Answers(g, Gens(ctx), trs[0].B, trs[0].A, xs[i], LinearAnswer(trs[i]))
      ensures Answers(g, Gens(ctx), trs[0].C, trs[0].D, xs[i], BinaryAnswer(trs[i], xs[i]))
    {
      assert Convinced(g, ctx, bases, cs, trs[i], xs[i]) && SamePoints(trs[i], trs[0]);
      EquationsAnswer(g, ctx, bases, trs[i], xs[i]);
    }
    assert 0 in {0, 1, e} && 1 in {0, 1, e} && e in {0, 1, e};
    var t := trs[0];
    LineOpens(g, inv, Gens(ctx), t.B, t.A, xs[0], LinearAnswer(trs[0]), xs[1], LinearAnswer(trs[1]));
    LineOpens(g, inv, Gens(ctx), t.C, t.D, xs[0], BinaryAnswer(trs[0], xs[0]), xs[1], BinaryAnswer(trs[1], xs[1]));
    GapIsRelation(g, Gens(ctx), t.B, t.A, LinearLine(inv, trs, xs), xs[e], LinearAnswer(trs[e]));
    GapIsRelation(g, Gens(ctx), t.C, t.D, BinaryLine(inv, trs, xs), xs[e], BinaryAnswer(trs[e], xs[e]));
  }

  // On the lines: what the responses and their bit values are at place k.
  lemma OnLinesAt<P>(inv: Scalar -> Scalar, trs: seq<Transcript<P>>, xs: seq<Scalar>, e: nat, k: nat)
    requires |trs| == |xs| >= 2 && |trs[0].f| == |trs[1].f| && e < |xs| && |trs[e].f| == |trs[0].f|
    requires OnLines(inv, trs, xs, e)
    requires k < |trs[0].f|
    ensures var l, q, f := LinearLine(inv, trs, xs), BinaryLine(inv, trs, xs), trs[e].f;
      BitPoint(l.slope[k + 1], l.offset[k + 1], q.slope[k + 1], q.offset[k + 1], xs[e], f[k], BitScalars(f, xs[e])[k])
  {
    hide Rep, Gap, AllZero, Through;
    OnLine(LinearLine(inv, trs, xs), xs[e], LinearAnswer(trs[e]), k + 1);
    OnLine(BinaryLine(inv, trs, xs), xs[e], BinaryAnswer(trs[e], xs[e]), k + 1);
    assert LinearAnswer(trs[e])[k + 1] == LinearAnswer(trs[e])[1..][k];
    assert BinaryAnswer(trs[e], xs[e])[k + 1] == BinaryAnswer(trs[e], xs[e])[1..][k];
  }

  // The openings that the transcripts carry.
  function Zs<P>(trs: seq<Transcript<P>>): (zs: seq<seq<Scalar>>)
    ensures |zs| == |trs| && forall e :: 0 <= e < |zs| ==> zs[e] == trs[e].z
  {
    seq(|trs|, e requires 0 <= e < |trs| => trs[e].z)
  }

  lemma ForkedLengths<P(!new)>(g: Group<P>, ctx: Context<P>, bases: seq<P>, cs: seq<P>, trs: seq<Transcript<P>>,
      xs: seq<Scalar>)
    requires Forked(g, ctx, bases, cs, trs, xs)
    ensures ctx.n > 0
    ensures forall e :: 0 <= e < |trs| ==> |trs[e].f| == ctx.m * ctx.n && |trs[e].z| == |bases|
  {
    hide Equations, RowsOf;
    assert Convinced(g, ctx, bases, cs, trs[0], xs[0]);
    forall e | 0 <= e < |trs|
      ensures |trs[e].f| == ctx.m * ctx.n && |trs[e].z| == |bases|
    {
      assert Convinced(g, ctx, bases, cs, trs[e], xs[e]);
    }
  }

  lemma AllOnLines<P>(inv: Scalar -> Scalar, trs: seq<Transcript<P>>, xs: seq<Scalar>, e: nat)
    requires |trs| == |xs| >= 2 && |trs[0].f| == |trs[1].f| && e < |xs| && |trs[e].f| == |trs[0].f|
    requires OnLines(inv, trs, xs, e)
    ensures var l, q, f := LinearLine(inv, trs, xs), BinaryLine(inv, trs, xs), trs[e].f;
      BitPoints(l.slope[1..], l.offset[1..], q.slope[1..], q.offset[1..], xs[e], f, BitScalars(f, xs[e]))
  {
    hide BitPoint, Through, OnLines;
    var l, q, f := LinearLine(inv, trs, xs), BinaryLine(inv, trs, xs), trs[e].f;
    forall k | 0 <= k < |f|
      ensures BitPoint(l.slope[1..][k], l.offset[1..][k], q.slope[1..][k], q.offset[1..][k], xs[e], f[k],
        BitScalars(f, xs[e])[k])
    {
      OnLinesAt(inv, trs, xs, e, k);
    }
  }

  // Responses on the lines are those of one ring position.
  lemma Position<P(!new)>(g: Group<P>, inv: Scalar -> Scalar, ctx: Context<P>, bases: seq<P>, cs: seq<P>,
      trs: seq<Transcript<P>>, xs: seq<Scalar>)
    returns (index: nat, a: seq<Scalar>)
    requires IsScalarInverse(inv) && ctx.n < N && Forked(g, ctx, bases, cs, trs, xs)
    requires |trs[0].f| == |trs[1].f|
      && forall e :: 0 <= e < |trs| ==> |trs[e].f| == |trs[0].f| && OnLines(inv, trs, xs, e)
    ensures ctx.n > 0 && |a| == ctx.m * ctx.n && index < Power(ctx.n, ctx.m)
    ensures forall e :: 0 <= e < |trs| ==> Responds(FromOffsets(a), ctx.n, index, xs[e], trs[e].f)
  {
    hide IsScalarInverse, OnLines, LinearLine, BinaryLine, BitPoint, Power, Equations, RowsOf, DeltaAt;
    ForkedLengths(g, ctx, bases, cs, trs, xs);
    var l, q := LinearLine(inv, trs, xs), BinaryLine(inv, trs, xs);
    a := l.offset[1..];
    var b := l.slope[1..];
    forall e | 0 <= e < |trs|
      ensures BitPoints(b, a, q.slope[1..], q.offset[1..], xs[e], trs[e].f, BitScalars(trs[e].f, xs[e]))
          && RowsOf(trs[e].f, ctx.n, ctx.m, xs[e])
    {
      AllOnLines(inv, trs, xs, e);
      assert Convinced(g, ctx, bases, cs, trs[e], xs[e]);
    }
    hide BitPoints;
    index := PositionOf(inv, ctx.n, ctx.m, b, a, q.slope[1..], q.offset[1..], xs[..3], [trs[0].f, trs[1].f, trs[2].f],
      [BitScalars(trs[0].f, xs[0]), BitScalars(trs[1].f, xs[1]), BitScalars(trs[2].f, xs[2])]);
    forall e | 0 <= e < |trs|
      ensures Responds(FromOffsets(a), ctx.n, index, xs[e], trs[e].f)
    {
      LinesRespond(b, a, q.slope[1..], q.offset[1..], xs[e], trs[e].f, BitScalars(trs[e].f, xs[e]), ctx.n, index);
    }
  }

  lemma LinesRespond(b: seq<Scalar>, a: seq<Scalar>, c: seq<Scalar>, d: seq<Scalar>, x: Scalar, f: seq<Scalar>,
      v: seq<Scalar>, n: nat, index: nat)
    requires n > 0 && BitPoints(b, a, c, d, x, f, v) && forall k :: 0 <= k < |b| ==> b[k] == DeltaAt(k, n, index)
    ensures Responds(FromOffsets(a), n, index, x, f)
  {
    hide Rep, DeltaAt, Bit;
    forall k | 0 <= k < |f|
      ensures Rep(f[k], DeltaAt(k, n, index) * x + a[k])
    {
      assert BitPoint(b[k], a[k], c[k], d[k], x, f[k], v[k]);
      assert a[k] + x * b[k] == DeltaAt(k, n, index) * x + a[k];
    }
  }

  /** Answers to more challenges than there are digits, all given from one position, open the commitment at that
      position. */
  lemma PositionOpens<P(!new)>(g: Group<P>, inv: Scalar -> Scalar, ctx: Context<P>, bases: seq<P>, cs: seq<P>,
      trs: seq<Transcript<P>>, xs: seq<Scalar>, index: nat, a: seq<Scalar>)
    requires IsGroup(g) && AllKilled(g) && IsScalarInverse(inv) && Forked(g, ctx, bases, cs, trs, xs)
    requires ctx.n > 0 && |a| == ctx.m * ctx.n && index < Power(ctx.n, ctx.m) && |cs| <= Power(ctx.n, ctx.m)
    requires forall e :: 0 <= e < |trs| ==>
      |trs[e].z| == |bases| && Responds(FromOffsets(a), ctx.n, index, xs[e], trs[e].f)
    ensures Dot(g, Extract(inv, xs[..ctx.m + 1], Zs(trs)[..ctx.m + 1], |bases|), bases) == Filled(g, cs, index)
  {
    hide IsGroup, AllKilled, IsScalarInverse, Dot, Mul, PointPoly, Power, Responds, Extract, LinearEquation,
        BinaryEquation, RingEquation, RowsOf;
    var t, k := trs[0], ctx.m + 1;
    assert Convinced(g, ctx, bases, cs, trs[0], xs[0]);
    var ps := RingCoeffs(g, ctx, cs, a, index, t.Q, ctx.m) + [Filled(g, cs, index)];
    forall e | 0 <= e < k
      ensures PointPoly(g, ps, xs[..k][e]) == Dot(g, Zs(trs)[..k][e], bases)
    {
      assert Convinced(g, ctx, bases, cs, trs[e], xs[e]) && SamePoints(trs[e], t);
      EquationAsPolynomial(g, ctx, bases, cs, a, index, trs[e], xs[e]);
    }
    ExtractOpens(g, inv, ps, xs[..k], Zs(trs)[..k], bases);
  }

  ghost predicate Sized<P>(ctx: Context<P>, bases: seq<P>, trs: seq<Transcript<P>>) {
    forall e :: 0 <= e < |trs| ==> |trs[e].f| == ctx.m * ctx.n && |trs[e].z| == |bases|
  }

  /** What transcripts determine: a relation between the generators, or an opening of the commitment at the index. */
  ghost predicate Extracted<P>(g: Group<P>, inv: Scalar -> Scalar, ctx: Context<P>, bases: seq<P>, cs: seq<P>,
      trs: seq<Transcript<P>>, xs: seq<Scalar>, index: nat)
  {
    && |trs| == |xs| >= 3 && |xs| > ctx.m && Sized(ctx, bases, trs)
    && ((exists e :: 0 <= e < |trs| && Breaks(g, ctx, inv, trs, xs, e))
      || (index < Power(ctx.n, ctx.m)
        && Dot(g, Extract(inv, xs[..ctx.m + 1], Zs(trs)[..ctx.m + 1], |bases|), bases) == Filled(g, cs, index)))
  }

  /** Special soundness.  Proofs with the same points that are accepted under distinct challenges, three or more of them
      and more than there are digits, either contain a non-trivial relation between the generators, or their openings
      combine into an opening of what stands at some position.  Where the ring has no commitment that is the neutral
      element. */
  lemma SpecialSoundness<P(!new)>(g: Group<P>, inv: Scalar -> Scalar, ctx: Context<P>, bases: seq<P>, cs: seq<P>,
      trs: seq<Transcript<P>>, xs: seq<Scalar>) returns (index: nat)
    requires IsGroup(g) && AllKilled(g) && IsScalarInverse(inv) && Forked(g, ctx, bases, cs, trs, xs)
    requires 0 < ctx.n < N && |cs| <= Power(ctx.n, ctx.m)
    ensures Extracted(g, inv, ctx, bases, cs, trs, xs, index)
  {
    hide IsGroup, AllKilled, IsScalarInverse, Breaks, OnLines, Extract, Power, Dot, Responds, Convinced, SamePoints,
      Distinct;
    ForkedLengths(g, ctx, bases, cs, trs, xs);
    index := 0;
    if forall e :: 0 <= e < |trs| ==> OnLines(inv, trs, xs, e) {
      var a;
      index, a := Position(g, inv, ctx, bases, cs, trs, xs);
      PositionOpens(g, inv, ctx, bases, cs, trs, xs, index, a);
    } else {
      var e :| 0 <= e < |trs| && !OnLines(inv, trs, xs, e);
      BreaksOrOnLines(g, inv, ctx, bases, cs, trs, xs, e);
    }
  }

  // An accepted proof convinces: the rows that the verifier rebuilds add up.
  lemma {:induction false} RebuiltRow(t: seq<Scalar>, n: nat, m: nat, x: Scalar, j: nat)
    requires n > 0 && |t| >= m * (n - 1) && j < m
    ensures RowFirst(Rebuild(t, n, m, x), n, x, j)
  {
    hide FirstOf;
    var k := m - 1;
    TailIndex(k, n);
    var head, row := Rebuild(t, n, k, x), t[k * (n - 1)..m * (n - 1)];
    var f := Rebuild(t, n, m, x);
    assert f == head + [FirstOf(row, x)] + row;
    if j == k {
      assert f[k * n + 1..k * n + n] == row;
    } else {
      Index(j, 0, n, k);
      RebuiltRow(t, n, k, x, j);
      assert f[j * n + 1..j * n + n] == head[j * n + 1..j * n + n];
    }
  }

  /** Several proofs for one ring and one outer challenge, each under its own hash: what was accepted, not how it was
      made. */
  datatype Attempts = Attempts(proofs: seq<seq<Byte>>, hashes: seq<seq<Byte> -> Digest>)

  ghost predicate SizedAttempts<P(!new)>(g: Group<P>, ctx: Context<P>, k: nat, at: Attempts) {
    && ContextOk(g, ctx) && |at.proofs| == |at.hashes| >= 3 && |at.proofs| > ctx.m
    && forall e :: 0 <= e < |at.proofs| ==> |at.proofs[e]| == ProofSize(ctx.n, ctx.m, k)
  }

  ghost function ChallengesOf<P(!new)>(g: Group<P>, ctx: Context<P>, k: nat, ring: seq<seq<Byte>>, chal: seq<Byte>,
      at: Attempts): (xs: seq<Scalar>)
    requires SizedAttempts(g, ctx, k, at)
    ensures |xs| == |at.proofs|
    ensures forall e :: 0 <= e < |xs| ==> xs[e] == Challenge(at.hashes[e], ring, chal, at.proofs[e][..33 * (4 + ctx.m)])
  {
    hide Challenge;
    seq(|at.proofs|, e requires 0 <= e < |at.proofs| =>
      Challenge(at.hashes[e], ring, chal, at.proofs[e][..33 * (4 + ctx.m)]))
  }

  ghost predicate AcceptedAll<P(!new)>(g: Group<P>, c: Codec<P>, ctx: Context<P>, bases: seq<P>, ring: seq<seq<Byte>>,
      chal: seq<Byte>, at: Attempts)
    requires SizedAttempts(g, ctx, |bases|, at)
  {
    forall e :: 0 <= e < |at.proofs| ==> Accepts(g, c, at.hashes[e], ctx, bases, ring, chal, at.proofs[e])
  }

  ghost predicate SharePoints<P(!new)>(g: Group<P>, ctx: Context<P>, k: nat, at: Attempts)
    requires SizedAttempts(g, ctx, k, at)
  {
    forall e :: 0 <= e < |at.proofs| ==> at.proofs[e][..33 * (4 + ctx.m)] == at.proofs[0][..33 * (4 + ctx.m)]
  }

  lemma AcceptedConvinces<P(!new)>(g: Group<P>, c: Codec<P>, hash: seq<Byte> -> Digest, ctx: Context<P>, bases: seq<P>,
      ring: seq<seq<Byte>>, chal: seq<Byte>, proof: seq<Byte>)
    requires ContextOk(g, ctx) && |proof| == ProofSize(ctx.n, ctx.m, |bases|)
        && Accepts(g, c, hash, ctx, bases, ring, chal, proof)
    ensures var x := Challenge(hash, ring, chal, proof[..33 * (4 + ctx.m)]);
      var tr := Decode(c, proof, ctx.n, ctx.m, |bases|, x);
      tr.Some? && Convinced(g, ctx, bases, LoadAll(c, ring), tr.value, x)
  {
    hide Challenge, RingEquation, LinearEquation, BinaryEquation, ReadScalars, RowFirst, Rebuild;
    var x := Challenge(hash, ring, chal, proof[..33 * (4 + ctx.m)]);
    MulNonneg(ctx.m, ctx.n - 1);
    var ss := ReadScalars(proof[33 * (4 + ctx.m)..], ctx.m * (ctx.n - 1) + 2 + |bases|).value;
    forall j | 0 <= j < ctx.m
      ensures RowFirst(Rebuild(ss, ctx.n, ctx.m, x), ctx.n, x, j)
    {
      RebuiltRow(ss, ctx.n, ctx.m, x, j);
    }
  }

  lemma PrefixPoint<P>(c: Codec<P>, s: seq<Byte>, t: seq<Byte>, k: nat, i: nat)
    requires i < k && |s| >= 33 * k && |t| >= 33 * k && s[..33 * k] == t[..33 * k]
    ensures PointAt(c, s, i) == PointAt(c, t, i)
  {
    assert s[33 * i..33 * i + 33] == s[..33 * k][33 * i..33 * i + 33];
    assert t[33 * i..33 * i + 33] == t[..33 * k][33 * i..33 * i + 33];
  }

  lemma DecodedPoints<P>(c: Codec<P>, s: seq<Byte>, t: seq<Byte>, n: nat, m: nat, k: nat, x: Scalar, y: Scalar)
    requires n > 0 && |s| == |t| == ProofSize(n, m, k) && s[..33 * (4 + m)] == t[..33 * (4 + m)]
    requires Decode(c, s, n, m, k, x).Some? && Decode(c, t, n, m, k, y).Some?
    ensures SamePoints(Decode(c, s, n, m, k, x).value, Decode(c, t, n, m, k, y).value)
  {
    hide ReadScalars, PointAt, Rebuild;
    forall i | 0 <= i < 4 + m
      ensures PointAt(c, s, i) == PointAt(c, t, i)
    {
      PrefixPoint(c, s, t, 4 + m, i);
    }
    assert PointsFrom(c, s, 4, m) == PointsFrom(c, t, 4, m);
  }

  ghost predicate DecodedAs<P>(c: Codec<P>, ctx: Context<P>, k: nat, proofs: seq<seq<Byte>>, xs: seq<Scalar>,
      trs: seq<Transcript<P>>)
    requires ctx.n > 0 && |xs| == |proofs|
      && forall e :: 0 <= e < |proofs| ==> |proofs[e]| == ProofSize(ctx.n, ctx.m, k)
  {
    |trs| == |proofs| && forall e :: 0 <= e < |trs| ==> Decode(c, proofs[e], ctx.n, ctx.m, k, xs[e]) == Some(trs[e])
  }

  /** What the verifier accepts.  Proofs with the same points that are accepted under distinct challenges, three or more
      of them and more than there are digits, determine either a non-trivial relation between the generators, or scalars
      that open what stands at some position of the ring: the neutral element at a position that the ring does not have.
      */
  lemma AcceptedProofsOpen<P(!new)>(g: Group<P>, inv: Scalar -> Scalar, c: Codec<P>, ctx: Context<P>, bases: seq<P>,
      ring: seq<seq<Byte>>, chal: seq<Byte>, at: Attempts) returns (trs: seq<Transcript<P>>, index: nat)
    requires PrimeOrder(g) && IsScalarInverse(inv) && SizedAttempts(g, ctx, |bases|, at)
    requires AcceptedAll(g, c, ctx, bases, ring, chal, at) && SharePoints(g, ctx, |bases|, at)
    requires Distinct(ChallengesOf(g, ctx, |bases|, ring, chal, at))
    requires ctx.n < N && |ring| <= Power(ctx.n, ctx.m)
    ensures var xs := ChallengesOf(g, ctx, |bases|, ring, chal, at);
      DecodedAs(c, ctx, |bases|, at.proofs, xs, trs) && Extracted(g, inv, ctx, bases, LoadAll(c, ring), trs, xs, index)
  {
    hide PrimeOrder, IsScalarInverse, Challenge, Decode, Convinced, Breaks, Extract, Power, Dot, Accepts, SamePoints,
      Distinct;
    var xs, cs, k := ChallengesOf(g, ctx, |bases|, ring, chal, at), LoadAll(c, ring), |bases|;
    forall e | 0 <= e < |at.proofs|
      ensures Decode(c, at.proofs[e], ctx.n, ctx.m, k, xs[e]).Some?
      ensures Convinced(g, ctx, bases, cs, Decode(c, at.proofs[e], ctx.n, ctx.m, k, xs[e]).value, xs[e])
    {
      AcceptedConvinces(g, c, at.hashes[e], ctx, bases, ring, chal, at.proofs[e]);
    }
    trs := seq(|at.proofs|, e requires 0 <= e < |at.proofs| => Decode(c, at.proofs[e], ctx.n, ctx.m, k, xs[e]).value);
    forall e | 0 <= e < |trs|
      ensures SamePoints(trs[e], trs[0])
    {
      DecodedPoints(c, at.proofs[e], at.proofs[0], ctx.n, ctx.m, k, xs[e], xs[0]);
    }
    PrimeKills(g);
    assert IsGroup(g) by { GroupOf(g); }
    index := SpecialSoundness(g, inv, ctx, bases, cs, trs, xs);
  }
}
