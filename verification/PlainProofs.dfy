/** Honest proofs whose digits are not masked: their points can be said outright, so they show that what is said of
    honest proofs is said of something. */
module PlainProofs {
  import opened AbelianGroup
  import opened LinearCombination
  import opened Digits
  import opened Secp256k1
  import opened Bytes
  import opened Strauss
  import opened EcmultConst
  import opened ScalarElement
  import opened RingAlgebra
  import opened RingSpec
  import opened RingCodec
  import opened RingProver
  import opened RingProof
  import opened RingVerifier
  import opened RingBinding
  import opened Membership

  ghost function Plain<P>(ctx: Context<P>, rA: Scalar, rB: Scalar, rho: seq<Scalar>): (s: Nonces) {
    Nonces(rA, rB, 1, 1, rho, Zeros(|ctx.multigen|))
  }

  ghost predicate NoneZero(s: seq<Scalar>) {
    forall i :: 0 <= i < |s| ==> s[i] != 0
  }

  lemma {:induction false} SumOfZeros(row: seq<Scalar>)
    requires forall i :: 0 <= i < |row| ==> row[i] == 0
    ensures Sum(row) == 0
  {
    if |row| > 0 {
      SumOfZeros(row[..|row| - 1]);
      RepSelf(0);
    }
  }

  // The rows of unmasked digits add up to zero, as drawn ones do.
  lemma PlainRows<P>(ctx: Context<P>, s: Nonces, j: nat)
    requires Shaped(ctx, s) && s.a == Zeros(|ctx.multigen|) && j < ctx.m
    ensures RowFirst(s.a, ctx.n, 0, j)
  {
    hide Sum;
    Index(j, 0, ctx.n, ctx.m);
    SumOfZeros(s.a[j * ctx.n + 1..j * ctx.n + ctx.n]);
    RepSelf(0);
  }

  lemma {:induction false} PlainOffsets(a: seq<int>, n: nat, m: nat, t: nat)
    requires n > 0 && |a| >= m * n && forall k :: 0 <= k < |a| ==> a[k] == 0
    ensures forall k :: 0 <= k < m ==> Offsets(a, n, m, t)[k] == 0
  {
    if m > 0 {
      Index(m - 1, Digit(m - 1, n, t), n, m);
      PlainOffsets(a, n, m - 1, t);
    }
  }

  // A product of multiples of the indeterminate has no coefficient below its degree.
  lemma {:induction false} NoLowCoefficient(xs: seq<int>, ds: seq<int>, d: int)
    requires |xs| == |ds| && d < |xs| && forall k :: 0 <= k < |xs| ==> xs[k] == 0
    ensures Coeff(xs, ds, d) == 0
  {
    var k := |xs| - 1;
    if |xs| == 0 {
    } else if d < 0 {
      CoeffOutside(xs, ds, d);
    } else {
      NoLowCoefficient(xs[..k], ds[..k], d - 1);
    }
  }

  ghost function BaseSum<P>(g: Group<P>, bases: seq<P>): P {
    Dot(g, Repeated(1, |bases|), bases)
  }

  /** A coefficient point of a plain proof blinds nothing: it is a multiple of the sum of the bases. */
  lemma PlainQ<P(!new)>(g: Group<P>, ctx: Context<P>, bases: seq<P>, cs: seq<P>, index: nat, s: Nonces, j: nat)
    requires IsGroup(g) && Shaped(ctx, s) && s.a == Zeros(|ctx.multigen|) && j < ctx.m
    ensures HonestQ(g, ctx, bases, cs, index, s, j) == Mul(g, s.rho[j], BaseSum(g, bases))
  {
    hide Dot, Mul, IsGroup, Coeff, Offsets, Slopes;
    var r, column := s.rho[j], Column(s.a, ctx.n, ctx.m, index, |cs|, j);
    forall t | 0 <= t < |cs|
      ensures column[t] == 0
    {
      PlainOffsets(s.a, ctx.n, ctx.m, t);
      NoLowCoefficient(Offsets(s.a, ctx.n, ctx.m, t), Slopes(ctx.n, ctx.m, index, t), j);
    }
    DotZero(g, column, cs);
    DotScale(g, r, Repeated(1, |bases|), Repeated(r, |bases|), bases);
    Unit(g, Mul(g, r, BaseSum(g, bases)));
  }

  lemma PlainCommit<P(!new)>(g: Group<P>, ctx: Context<P>, r: int, v: seq<int>)
    requires IsGroup(g) && |v| == |ctx.multigen| && forall k :: 0 <= k < |v| ==> v[k] == 0
    ensures Commit(g, ctx, r, v) == Mul(g, r, ctx.genh)
  {
    hide Dot, Mul, IsGroup;
    DotZero(g, v, ctx.multigen);
    Unit(g, Mul(g, r, ctx.genh));
  }

  // The point that commits to the digits of the position.
  ghost function DigitPoint<P>(g: Group<P>, ctx: Context<P>, index: nat, r: Scalar): P
    requires ctx.n > 0 && |ctx.multigen| == ctx.m * ctx.n
  {
    Commit(g, ctx, r, DeltaVec(ctx.n, ctx.m, index))
  }

  // Of two different blinding factors at most one makes it infinity.
  lemma OneIsFinite<P(!new)>(g: Group<P>, ctx: Context<P>, index: nat, r: Scalar, s: Scalar)
    requires PrimeOrder(g) && ContextOk(g, ctx) && r != s
    ensures DigitPoint(g, ctx, index, r) != g.zero || DigitPoint(g, ctx, index, s) != g.zero
  {
    hide Dot, Mul, IsGroup;
    var d, h := Dot(g, DeltaVec(ctx.n, ctx.m, index), ctx.multigen), ctx.genh;
    if g.add(Mul(g, r, h), d) == g.zero && g.add(Mul(g, s, h), d) == g.zero {
      SameMultiple(g, h, d, r, s);
    }
  }

  lemma SameMultiple<P(!new)>(g: Group<P>, p: P, q: P, r: Scalar, s: Scalar)
    requires PrimeOrder(g) && p != g.zero && g.add(Mul(g, r, p), q) == g.add(Mul(g, s, p), q)
    ensures r == s
  {
    hide Mul, IsGroup;
    var d: int := (r as int) - s;
    Comm(g, Mul(g, r, p), q);
    Comm(g, Mul(g, s, p), q);
    Cancel(g, q, Mul(g, r, p), Mul(g, s, p));
    MulAdd(g, d, s, p);
    Unit(g, Mul(g, s, p));
    Comm(g, Mul(g, d, p), Mul(g, s, p));
    Cancel(g, Mul(g, s, p), Mul(g, d, p), g.zero);
    if d != 0 {
      assert HasOrderN(g, p);
      NonzeroMultiple(g, p, d);
    }
  }

  /** The points of a plain proof are finite, unless they were chosen not to be. */
  lemma PlainFinite<P(!new)>(g: Group<P>, ctx: Context<P>, bases: seq<P>, cs: seq<P>, index: nat, s: Nonces)
    requires PrimeOrder(g) && ContextOk(g, ctx) && Shaped(ctx, s) && s == Plain(ctx, s.rA, s.rB, s.rho)
    requires s.rA != 0 && NoneZero(s.rho) && DigitPoint(g, ctx, index, s.rB) != g.zero && BaseSum(g, bases) != g.zero
    ensures FinitePoints(g, HonestPoints(g, ctx, bases, cs, index, s))
  {
    hide Dot, Mul, IsGroup, HonestQ, Commit, BaseSum;
    PlainCommit(g, ctx, s.rA, s.a);
    PlainCommit(g, ctx, 1, MixedVec(s.a, ctx.n, index));
    PlainCommit(g, ctx, 1, SquareVec(s.a));
    assert HasOrderN(g, ctx.genh) && HasOrderN(g, BaseSum(g, bases));
    NonzeroMultiple(g, ctx.genh, s.rA);
    NonzeroMultiple(g, ctx.genh, 1);
    var tr := HonestTranscript(g, ctx, bases, cs, index, [], s, 0);
    forall j | 0 <= j < ctx.m
      ensures tr.Q[j] != g.zero
    {
      PlainQ(g, ctx, bases, cs, index, s, j);
      NonzeroMultiple(g, BaseSum(g, bases), s.rho[j]);
    }
  }

  // A hash that answers one challenge to every proof; the outer challenge, the hash of a short string, is d.
  function AnswerWith(d: Digest, x: Scalar): seq<Byte> -> Digest {
    b => if |b| <= 65 then d else GetB32(x)
  }

  lemma AnswersChallenge(d: Digest, x: Scalar, ring: seq<seq<Byte>>, chal: seq<Byte>, points: seq<Byte>)
    requires |points| > 65
    ensures Challenge(AnswerWith(d, x), ring, chal, points) == x
  {
    hide GetB32, SetB32;
    ScalarRoundTrip(x);
  }

  // Neither a challenge nor its double is zero modulo the order.
  lemma SmallMultiple(x: Scalar, r: Scalar)
    requires x != 0 && (r == 1 || r == 2)
    ensures MulS(x, r) != 0
  {
    OrderBounds();
    ScalarIsMod(x * r);
    DivModEq(x * r, N);
    if x * r < N {
      DivModUnique(x * r, N, 0, x * r);
    } else {
      DivModUnique(x * r, N, 1, x * r - N);
    }
  }

  lemma ResponseVanishes(x: Scalar, r: Scalar)
    ensures ToScalar(x * r + Negate(MulS(x, r))) == 0
  {
    RepSelf(x);
    RepSelf(r);
    RepSelf(Negate(MulS(x, r)));
    RepMul(x, r, x, r);
    RepNegate(MulS(x, r), x * r);
    RepSelf(MulS(x, r));
    hide MulS, ToScalar;
    RepAdd(MulS(x, r), Negate(MulS(x, r)), x * r, Negate(MulS(x, r)));
    RepAdd(MulS(x, r), Negate(MulS(x, r)), x * r, -(x * r));
    RepSelf(0);
  }

  lemma IrregularProof<P(!new)>(g: Group<P>, c: Codec<P>, ctx: Context<P>, bases: seq<P>, ring: seq<seq<Byte>>,
      index: nat, keys: seq<Scalar>, chal: seq<Byte>, d: Digest, x: Scalar, s: Nonces) returns (proof: seq<Byte>)
    requires InputsOk(g, c, ctx, bases) && |keys| == |bases| && index < Power(ctx.n, ctx.m)
    requires |ring| <= Power(ctx.n, ctx.m)
    requires Filled(g, LoadAll(c, ring), index) == Dot(g, keys, bases) && ToScalar(x * s.rB + s.rA) == 0
    requires Shaped(ctx, s) && FinitePoints(g, HonestPoints(g, ctx, bases, LoadAll(c, ring), index, s))
    requires forall j :: 0 <= j < ctx.m ==> RowFirst(s.a, ctx.n, 0, j)
    ensures WrittenBy(g, c, AnswerWith(d, x), ctx, bases, ring, index, keys, chal, s, proof)
    ensures |proof| == ProofSize(ctx.n, ctx.m, |bases|)
    ensures Accepts(g, c, AnswerWith(d, x), ctx, bases, ring, chal, proof)
    ensures !RegularProof(g, c, AnswerWith(d, x), ctx, bases, ring, chal, proof)
  {
    hide IsGroup, IsCodec, PrimeOrder, Mul, Dot, Commit, HonestQ, Decode, Challenge, PointBytes, ScalarBytes, Power,
      RowFirst, Responds, RingEquation, LinearEquation, BinaryEquation, Openings, RegularTranscript, AnswerWith,
      FinitePoints, ToScalar, HonestPoints, Filled;
    var cs := LoadAll(c, ring);
    var points, tr := HonestPoints(g, ctx, bases, cs, index, s), HonestTranscript(g, ctx, bases, cs, index, keys, s, x);
    proof := Encode(c, tr, ctx.n, ctx.m);
    PointsBeforeChallenge(g, ctx, bases, cs, index, keys, s, x);
    HonestFits(g, ctx, bases, cs, index, keys, s, x);
    WrittenReads(g, c, ctx, s, index, tr, x, |bases|);
    AnswersChallenge(d, x, ring, chal, PointBytes(c, points));
    HonestProofVerdict(g, c, AnswerWith(d, x), ctx, bases, ring, index, keys, chal, s, proof);
    PrimeKills(g);
    GroupOf(g);
    Completeness(g, ctx, bases, cs, index, keys, s, x);
    MulNonneg(ctx.m - 1, ctx.n);
    assert ctx.m * ctx.n == (ctx.m - 1) * ctx.n + ctx.n;
    ZeroResponseIrregular(g, ctx, bases, cs, tr, x);
  }

  /** Whoever knows an opening can be asked for a zero response: for every challenge but zero there is an honest proof
      that satisfies all equations and is not regular. */
  lemma ZeroResponseArises<P(!new)>(g: Group<P>, c: Codec<P>, ctx: Context<P>, bases: seq<P>, ring: seq<seq<Byte>>,
      index: nat, keys: seq<Scalar>, chal: seq<Byte>, d: Digest, x: Scalar) returns (s: Nonces, proof: seq<Byte>)
    requires InputsOk(g, c, ctx, bases) && |keys| == |bases| && index < Power(ctx.n, ctx.m)
    requires |ring| <= Power(ctx.n, ctx.m)
    requires Filled(g, LoadAll(c, ring), index) == Dot(g, keys, bases) && BaseSum(g, bases) != g.zero && x != 0
    ensures Shaped(ctx, s) && WrittenBy(g, c, AnswerWith(d, x), ctx, bases, ring, index, keys, chal, s, proof)
    ensures |proof| == ProofSize(ctx.n, ctx.m, |bases|)
    ensures Accepts(g, c, AnswerWith(d, x), ctx, bases, ring, chal, proof)
    ensures !RegularProof(g, c, AnswerWith(d, x), ctx, bases, ring, chal, proof)
  {
    hide IsGroup, IsCodec, PrimeOrder, Mul, Dot, Commit, DeltaVec, HonestQ, Decode, Challenge, PointBytes, ScalarBytes,
      Power, BaseSum, RowFirst, Responds, RingEquation, LinearEquation, BinaryEquation, Openings, RegularTranscript,
      AnswerWith, FinitePoints, MulS, ToScalar;
    OneIsFinite(g, ctx, index, 1, 2);
    var rB: Scalar := if DigitPoint(g, ctx, index, 1) != g.zero then 1 else 2;
    SmallMultiple(x, rB);
    s := Plain(ctx, Negate(MulS(x, rB)), rB, seq(ctx.m, i => 1));
    forall j | 0 <= j < ctx.m
      ensures RowFirst(s.a, ctx.n, 0, j)
    {
      PlainRows(ctx, s, j);
    }
    PlainFinite(g, ctx, bases, LoadAll(c, ring), index, s);
    ResponseVanishes(x, rB);
    proof := IrregularProof(g, c, ctx, bases, ring, index, keys, chal, d, x, s);
  }
}
