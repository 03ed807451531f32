/** A prover without keys at a position that the ring does not have, down to the strings that the verifier reads: they
    are accepted under every hash, and families of them are bound to no member of the ring. */
module MissingPositions {
  import opened AbelianGroup
  import opened LinearCombination
  import opened Digits
  import opened Secp256k1
  import opened Bytes
  import opened Strauss
  import opened EcmultConst
  import opened ScalarElement
  import opened RingAlgebra
  import opened RingSpec
  import opened RingCodec
  import opened RingDigits
  import opened RingProver
  import opened RingProof
  import opened RingSoundness
  import opened RingVerifier
  import opened RingExtraction
  import opened RingBinding
  import opened Membership
  import opened PlainProofs

  lemma KeylessPoints<P>(g: Group<P>, ctx: Context<P>, bases: seq<P>, cs: seq<P>, index: nat, s: Nonces, x: Scalar)
    requires Shaped(ctx, s) && |bases| > 0
    ensures Points(Keyless(g, ctx, bases, cs, index, s, x)) == HonestPoints(g, ctx, bases[..1], cs, index, s)
  {
    hide HonestQ, Commit;
    PointsBeforeChallenge(g, ctx, bases[..1], cs, index, [0], s, x);
  }

  lemma FirstBase<P(!new)>(g: Group<P>, bases: seq<P>)
    requires IsGroup(g) && |bases| > 0
    ensures BaseSum(g, bases[..1]) == bases[0]
  {
    hide Mul;
    DotAppend(g, [], [], 1, bases[0]);
    assert bases[..1] == [] + [bases[0]] && Repeated(1, 1) == [] + [1];
    MulOne(g, bases[0]);
    Unit(g, bases[0]);
  }

  /** Nonces a prover without keys may take. */
  ghost predicate KeylessNonces<P(!new)>(g: Group<P>, ctx: Context<P>, index: nat, s: Nonces)
    requires ContextOk(g, ctx)
  {
    Shaped(ctx, s) && s == Plain(ctx, 1, s.rB, s.rho) && NoneZero(s.rho) && DigitPoint(g, ctx, index, s.rB) != g.zero
  }

  // The string that such a prover writes.
  ghost function KeylessString<P>(g: Group<P>, c: Codec<P>, ctx: Context<P>, bases: seq<P>, ring: seq<seq<Byte>>,
      index: nat, s: Nonces, x: Scalar): seq<Byte>
    requires Shaped(ctx, s) && |bases| > 0
  {
    Encode(c, Keyless(g, ctx, bases, LoadAll(c, ring), index, s, x), ctx.n, ctx.m)
  }

  ghost function KeylessPrefix<P>(g: Group<P>, c: Codec<P>, ctx: Context<P>, bases: seq<P>, ring: seq<seq<Byte>>,
      index: nat, s: Nonces): seq<Byte>
    requires Shaped(ctx, s) && |bases| > 0
  {
    PointBytes(c, HonestPoints(g, ctx, bases[..1], LoadAll(c, ring), index, s))
  }

  /** It reads back as the transcript of that prover, under every challenge. */
  lemma KeylessReads<P(!new)>(g: Group<P>, c: Codec<P>, ctx: Context<P>, bases: seq<P>, ring: seq<seq<Byte>>,
      index: nat, s: Nonces, x: Scalar)
    requires InputsOk(g, c, ctx, bases) && KeylessNonces(g, ctx, index, s)
    ensures var b := KeylessString(g, c, ctx, bases, ring, index, s, x);
      && |b| == ProofSize(ctx.n, ctx.m, |bases|)
      && b[..33 * (4 + ctx.m)] == KeylessPrefix(g, c, ctx, bases, ring, index, s)
      && Decode(c, b, ctx.n, ctx.m, |bases|, x) == Some(Keyless(g, ctx, bases, LoadAll(c, ring), index, s, x))
  {
    hide IsGroup, IsCodec, PrimeOrder, Dot, Mul, Commit, HonestQ, HonestTranscript, Decode, PointBytes, ScalarBytes,
      RowFirst, Responds, HonestPoints, HonestAnswers, BaseSum, NoneZero, DigitPoint, HonestQs;
    var cs := LoadAll(c, ring);
    forall j | 0 <= j < ctx.m
      ensures RowFirst(s.a, ctx.n, 0, j)
    {
      PlainRows(ctx, s, j);
    }
    GroupOf(g);
    FirstBase(g, bases);
    PlainFinite(g, ctx, bases[..1], cs, index, s);
    KeylessFits(g, ctx, bases, cs, index, s, x);
    KeylessPoints(g, ctx, bases, cs, index, s, x);
    WrittenReads(g, c, ctx, s, index, Keyless(g, ctx, bases, cs, index, s, x), x, |bases|);
  }

  lemma KeylessAccepted<P(!new)>(g: Group<P>, c: Codec<P>, hash: seq<Byte> -> Digest, ctx: Context<P>, bases: seq<P>,
      ring: seq<seq<Byte>>, index: nat, chal: seq<Byte>, s: Nonces, x: Scalar)
    requires InputsOk(g, c, ctx, bases) && KeylessNonces(g, ctx, index, s) && |ring| <= index < Power(ctx.n, ctx.m)
    requires x == Challenge(hash, ring, chal, KeylessPrefix(g, c, ctx, bases, ring, index, s))
    ensures var b := KeylessString(g, c, ctx, bases, ring, index, s, x);
      |b| == ProofSize(ctx.n, ctx.m, |bases|) && Accepts(g, c, hash, ctx, bases, ring, chal, b)
  {
    hide IsGroup, IsCodec, PrimeOrder, Keyless, Decode, RowFirst, Challenge, KeylessString, KeylessPrefix, NoneZero,
      DigitPoint, RingEquation, LinearEquation, BinaryEquation, RowsOf, Power, AllKilled, FinitePoints;
    KeylessReads(g, c, ctx, bases, ring, index, s, x);
    forall j | 0 <= j < ctx.m
      ensures RowFirst(s.a, ctx.n, 0, j)
    {
      PlainRows(ctx, s, j);
    }
    GroupOf(g);
    PrimeKills(g);
    KeylessConvinces(g, ctx, bases, LoadAll(c, ring), index, s, x);
  }

  /** With a position missing, some string is accepted whatever the hash and the outer challenge are, and no key goes
      into it. */
  lemma KeylessProof<P(!new)>(g: Group<P>, c: Codec<P>, hash: seq<Byte> -> Digest, ctx: Context<P>, bases: seq<P>,
      ring: seq<seq<Byte>>, chal: seq<Byte>) returns (s: Nonces, proof: seq<Byte>)
    requires InputsOk(g, c, ctx, bases) && |ring| < Power(ctx.n, ctx.m)
    ensures KeylessNonces(g, ctx, |ring|, s)
    ensures |proof| == ProofSize(ctx.n, ctx.m, |bases|)
    ensures proof == KeylessString(g, c, ctx, bases, ring, |ring|, s,
      Challenge(hash, ring, chal, KeylessPrefix(g, c, ctx, bases, ring, |ring|, s)))
    ensures Accepts(g, c, hash, ctx, bases, ring, chal, proof)
  {
    hide IsGroup, IsCodec, PrimeOrder, DigitPoint, Challenge, KeylessString, KeylessPrefix, Power, Accepts,
      FinitePoints;
    OneIsFinite(g, ctx, |ring|, 0, 1);
    var rB: Scalar := if DigitPoint(g, ctx, |ring|, 0) != g.zero then 0 else 1;
    s := Plain(ctx, 1, rB, seq(ctx.m, i => 1));
    var x := Challenge(hash, ring, chal, KeylessPrefix(g, c, ctx, bases, ring, |ring|, s));
    proof := KeylessString(g, c, ctx, bases, ring, |ring|, s, x);
    KeylessAccepted(g, c, hash, ctx, bases, ring, |ring|, chal, s, x);
  }
}
