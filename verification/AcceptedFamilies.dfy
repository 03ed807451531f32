/** What families of accepted strings are bound to: exactly over a full ring they must open a member of the ring or
    relate the generators. */
module AcceptedFamilies {
  import opened AbelianGroup
  import opened LinearCombination
  import opened Digits
  import opened Secp256k1
  import opened Bytes
  import opened Strauss
  import opened EcmultConst
  import opened ScalarElement
  import opened RingAlgebra
  import opened RingSpec
  import opened RingCodec
  import opened RingProver
  import opened RingProof
  import opened RingSoundness
  import opened RingVerifier
  import opened RingExtraction
  import opened RingBinding
  import opened Membership
  import opened PlainProofs
  import opened MissingPositions
  import opened RegularAnswers

  /** Strings with the same points that are accepted under distinct challenges, three or more of them and more than
      there are digits. */
  ghost predicate AcceptedFamily<P(!new)>(g: Group<P>, c: Codec<P>, ctx: Context<P>, bases: seq<P>,
      ring: seq<seq<Byte>>, chal: seq<Byte>, at: Attempts)
  {
    && SizedAttempts(g, ctx, |bases|, at) && AcceptedAll(g, c, ctx, bases, ring, chal, at)
    && SharePoints(g, ctx, |bases|, at) && Distinct(ChallengesOf(g, ctx, |bases|, ring, chal, at))
  }

  // The verifier reads every one of them without meeting infinity, so acceptance is what it answers.
  ghost predicate RegularFamily<P(!new)>(g: Group<P>, c: Codec<P>, ctx: Context<P>, bases: seq<P>, ring: seq<seq<Byte>>,
      chal: seq<Byte>, at: Attempts)
    requires SizedAttempts(g, ctx, |bases|, at)
  {
    forall e :: 0 <= e < |at.proofs| ==> RegularProof(g, c, at.hashes[e], ctx, bases, ring, chal, at.proofs[e])
  }

  /** What was accepted relates the generators, or combines into an opening of a member of the ring. */
  ghost predicate Binds<P(!new)>(g: Group<P>, inv: Scalar -> Scalar, c: Codec<P>, ctx: Context<P>, bases: seq<P>,
      ring: seq<seq<Byte>>, chal: seq<Byte>, at: Attempts, trs: seq<Transcript<P>>)
    requires SizedAttempts(g, ctx, |bases|, at)
  {
    var xs := ChallengesOf(g, ctx, |bases|, ring, chal, at);
    && DecodedAs(c, ctx, |bases|, at.proofs, xs, trs)
    && (BreaksSomewhere(g, inv, ctx, bases, trs, xs) || OpensMember(g, inv, ctx, bases, LoadAll(c, ring), trs, xs))
  }

  /** Over a full ring every accepted family is bound. */
  lemma FullRingBinds<P(!new)>(g: Group<P>, inv: Scalar -> Scalar, c: Codec<P>, ctx: Context<P>, bases: seq<P>,
      ring: seq<seq<Byte>>, chal: seq<Byte>, at: Attempts) returns (trs: seq<Transcript<P>>)
    requires InputsOk(g, c, ctx, bases) && IsScalarInverse(inv) && ctx.n < N && |ring| == Power(ctx.n, ctx.m)
    requires AcceptedFamily(g, c, ctx, bases, ring, chal, at)
    ensures Binds(g, inv, c, ctx, bases, ring, chal, at, trs)
  {
    hide PrimeOrder, IsCodec, IsScalarInverse, AcceptedAll, SharePoints, Distinct, Breaks, Dot, Extract, Power,
      FinitePoints, Challenge, Decode, LinearGap, BinaryGap;
    var index;
    trs, index := AcceptedProofsOpen(g, inv, c, ctx, bases, ring, chal, at);
  }

  // The strings of a prover without keys under given challenges, each with a hash that answers its challenge.
  ghost function KeylessAttempts<P>(g: Group<P>, c: Codec<P>, ctx: Context<P>, bases: seq<P>, ring: seq<seq<Byte>>,
      index: nat, s: Nonces, d: Digest, xs: seq<Scalar>): (at: Attempts)
    requires Shaped(ctx, s) && |bases| > 0
    ensures |at.proofs| == |at.hashes| == |xs|
    ensures forall e :: 0 <= e < |xs| ==> at.proofs[e] == KeylessString(g, c, ctx, bases, ring, index, s, xs[e])
    ensures forall e :: 0 <= e < |xs| ==> at.hashes[e] == AnswerWith(d, xs[e])
  {
    Attempts(seq(|xs|, e requires 0 <= e < |xs| => KeylessString(g, c, ctx, bases, ring, index, s, xs[e])),
      seq(|xs|, e requires 0 <= e < |xs| => AnswerWith(d, xs[e])))
  }

  lemma KeylessPasses<P(!new)>(g: Group<P>, c: Codec<P>, ctx: Context<P>, bases: seq<P>, ring: seq<seq<Byte>>,
      index: nat, chal: seq<Byte>, s: Nonces, d: Digest, x: Scalar)
    requires InputsOk(g, c, ctx, bases) && |ring| <= index < Power(ctx.n, ctx.m) && KeylessNonces(g, ctx, index, s)
    requires ClearChallenge(g, ctx, index, s.rB, x) && ClearSums(g, bases[0], s.rho, x)
    ensures var b := KeylessString(g, c, ctx, bases, ring, index, s, x);
      && |b| == ProofSize(ctx.n, ctx.m, |bases|)
        && b[..33 * (4 + ctx.m)] == KeylessPrefix(g, c, ctx, bases, ring, index, s)
      && Challenge(AnswerWith(d, x), ring, chal, b[..33 * (4 + ctx.m)]) == x
      && Accepts(g, c, AnswerWith(d, x), ctx, bases, ring, chal, b)
      && RegularProof(g, c, AnswerWith(d, x), ctx, bases, ring, chal, b)
      && Decode(c, b, ctx.n, ctx.m, |bases|, x) == Some(Keyless(g, ctx, bases, LoadAll(c, ring), index, s, x))
  {
    assert Shaped(ctx, s);
    hide PrimeOrder, IsCodec, ClearChallenge, ClearSums, KeylessNonces, KeylessString, KeylessPrefix, Keyless, Decode,
      Challenge, AnswerWith, Power, RegularTranscript, Accepts, FinitePoints;
    var b := KeylessString(g, c, ctx, bases, ring, index, s, x);
    KeylessReads(g, c, ctx, bases, ring, index, s, x);
    AnswersChallenge(d, x, ring, chal, b[..33 * (4 + ctx.m)]);
    KeylessAccepted(g, c, AnswerWith(d, x), ctx, bases, ring, index, chal, s, x);
    KeylessRegular(g, ctx, bases, LoadAll(c, ring), index, s, x);
  }

  /** With a position missing, a prover without keys makes such a family, which the verifier really accepts; and it is
      not bound: its openings combine into one of the neutral element. */
  lemma KeylessFamilyAccepted<P(!new)>(g: Group<P>, c: Codec<P>, ctx: Context<P>, bases: seq<P>, ring: seq<seq<Byte>>,
      chal: seq<Byte>, d: Digest) returns (s: Nonces, xs: seq<Scalar>, at: Attempts)
    requires InputsOk(g, c, ctx, bases) && |ring| < Power(ctx.n, ctx.m) && |ctx.multigen| + ctx.m + 5 <= N
    ensures KeylessNonces(g, ctx, |ring|, s) && at == KeylessAttempts(g, c, ctx, bases, ring, |ring|, s, d, xs)
    ensures AcceptedFamily(g, c, ctx, bases, ring, chal, at) && RegularFamily(g, c, ctx, bases, ring, chal, at)
    ensures ChallengesOf(g, ctx, |bases|, ring, chal, at) == xs
    ensures DecodedAs(c, ctx, |bases|, at.proofs, xs, KeylessFamily(g, ctx, bases, LoadAll(c, ring), |ring|, s, xs))
  {
    hide PrimeOrder, IsCodec, ClearChallenge, ClearSums, KeylessString, KeylessPrefix, Keyless, Decode, DigitPoint,
      Challenge, AnswerWith, Power, RegularProof, Accepts, Distinct;
    OneIsFinite(g, ctx, |ring|, 0, 1);
    var rB: Scalar := if DigitPoint(g, ctx, |ring|, 0) != g.zero then 0 else 1;
    xs := ClearChallenges(g, ctx, |ring|, rB, ctx.m + 3);
    assert 0 !in xs by { NoZero(g, ctx, |ring|, rB, xs); }
    var rho := PickRho(g, bases[0], xs, ctx.m);
    s := Plain(ctx, 1, rB, rho);
    at := KeylessAttempts(g, c, ctx, bases, ring, |ring|, s, d, xs);
    forall e | 0 <= e < |xs|
      ensures |at.proofs[e]| == ProofSize(ctx.n, ctx.m, |bases|)
      ensures at.proofs[e][..33 * (4 + ctx.m)] == KeylessPrefix(g, c, ctx, bases, ring, |ring|, s)
      ensures Challenge(at.hashes[e], ring, chal, at.proofs[e][..33 * (4 + ctx.m)]) == xs[e]
      ensures Accepts(g, c, at.hashes[e], ctx, bases, ring, chal, at.proofs[e])
      ensures RegularProof(g, c, at.hashes[e], ctx, bases, ring, chal, at.proofs[e])
      ensures Decode(c, at.proofs[e], ctx.n, ctx.m, |bases|, xs[e])
        == Some(Keyless(g, ctx, bases, LoadAll(c, ring), |ring|, s, xs[e]))
    {
      KeylessPasses(g, c, ctx, bases, ring, |ring|, chal, s, d, xs[e]);
    }
    assert ChallengesOf(g, ctx, |bases|, ring, chal, at) == xs;
  }

  lemma NoZero<P>(g: Group<P>, ctx: Context<P>, index: nat, r: Scalar, xs: seq<Scalar>)
    requires ctx.n > 0 && |ctx.multigen| == ctx.m * ctx.n
    requires forall e :: 0 <= e < |xs| ==> ClearChallenge(g, ctx, index, r, xs[e])
    ensures 0 !in xs
  {
    hide Solves;
  }

  lemma KeylessNotBound<P(!new)>(g: Group<P>, inv: Scalar -> Scalar, c: Codec<P>, ctx: Context<P>, bases: seq<P>,
      ring: seq<seq<Byte>>, chal: seq<Byte>, at: Attempts, s: Nonces, xs: seq<Scalar>, trs: seq<Transcript<P>>)
    requires InputsOk(g, c, ctx, bases) && IsScalarInverse(inv) && |ring| < Power(ctx.n, ctx.m)
    requires KeylessNonces(g, ctx, |ring|, s) && AcceptedFamily(g, c, ctx, bases, ring, chal, at)
    requires ChallengesOf(g, ctx, |bases|, ring, chal, at) == xs
    requires DecodedAs(c, ctx, |bases|, at.proofs, xs, KeylessFamily(g, ctx, bases, LoadAll(c, ring), |ring|, s, xs))
    ensures !Binds(g, inv, c, ctx, bases, ring, chal, at, trs)
  {
    hide PrimeOrder, IsCodec, IsScalarInverse, DigitPoint, AcceptedAll, SharePoints, Distinct, Keyless, Decode,
      Challenge, Power, Breaks, Dot, Extract, RowFirst, FinitePoints, LinearGap, BinaryGap, BreaksSomewhere,
      OpensMember, Forked, AllKilled, ContextOk, NoneZero;
    forall j | 0 <= j < ctx.m
      ensures RowFirst(s.a, ctx.n, 0, j)
    {
      PlainRows(ctx, s, j);
    }
    GroupOf(g);
    PrimeKills(g);
    LoadedFinite(g, c, ring);
    PartialRingUnsound(g, inv, ctx, bases, LoadAll(c, ring), |ring|, s, xs);
    if DecodedAs(c, ctx, |bases|, at.proofs, xs, trs) {
      var keyless := KeylessFamily(g, ctx, bases, LoadAll(c, ring), |ring|, s, xs);
      forall e | 0 <= e < |trs|
        ensures trs[e] == keyless[e]
      {
        assert Some(trs[e]) == Some(keyless[e]);
      }
      assert trs == keyless;
    }
  }

  /** All accepted families are bound. */
  ghost predicate Sound<P(!new)>(g: Group<P>, inv: Scalar -> Scalar, c: Codec<P>, ctx: Context<P>, bases: seq<P>,
      ring: seq<seq<Byte>>)
  {
    forall chal, at :: AcceptedFamily(g, c, ctx, bases, ring, chal, at) ==>
      exists trs :: Binds(g, inv, c, ctx, bases, ring, chal, at, trs)
  }

  // All families that the verifier answers with acceptance, and reads without meeting infinity, are bound.
  ghost predicate SoundWhereRegular<P(!new)>(g: Group<P>, inv: Scalar -> Scalar, c: Codec<P>, ctx: Context<P>,
      bases: seq<P>, ring: seq<seq<Byte>>)
  {
    forall chal, at ::
      AcceptedFamily(g, c, ctx, bases, ring, chal, at) && RegularFamily(g, c, ctx, bases, ring, chal, at) ==>
      exists trs :: Binds(g, inv, c, ctx, bases, ring, chal, at, trs)
  }

  lemma FullIsSound<P(!new)>(g: Group<P>, inv: Scalar -> Scalar, c: Codec<P>, ctx: Context<P>, bases: seq<P>,
      ring: seq<seq<Byte>>)
    requires InputsOk(g, c, ctx, bases) && IsScalarInverse(inv) && ctx.n < N && |ring| == Power(ctx.n, ctx.m)
    ensures Sound(g, inv, c, ctx, bases, ring) && SoundWhereRegular(g, inv, c, ctx, bases, ring)
  {
    hide InputsOk, IsScalarInverse, AcceptedAll, SharePoints, RegularFamily, Binds, Power, ContextOk, Distinct;
    forall chal, at | AcceptedFamily(g, c, ctx, bases, ring, chal, at)
      ensures exists trs :: Binds(g, inv, c, ctx, bases, ring, chal, at, trs)
    {
      var trs := FullRingBinds(g, inv, c, ctx, bases, ring, chal, at);
    }
  }

  lemma PartialIsUnsound<P(!new)>(g: Group<P>, inv: Scalar -> Scalar, c: Codec<P>, ctx: Context<P>, bases: seq<P>,
      ring: seq<seq<Byte>>)
    requires InputsOk(g, c, ctx, bases) && IsScalarInverse(inv) && |ring| < Power(ctx.n, ctx.m)
    requires |ctx.multigen| + ctx.m + 5 <= N
    ensures !Sound(g, inv, c, ctx, bases, ring) && !SoundWhereRegular(g, inv, c, ctx, bases, ring)
  {
    hide PrimeOrder, IsCodec, IsScalarInverse, AcceptedAll, SharePoints, RegularFamily, Binds, Power, Distinct,
      DecodedAs, KeylessNonces, KeylessAttempts, KeylessFamily;
    var s, xs, at := KeylessFamilyAccepted(g, c, ctx, bases, ring, [], GetB32(0));
    forall trs
      ensures !Binds(g, inv, c, ctx, bases, ring, [], at, trs)
    {
      KeylessNotBound(g, inv, c, ctx, bases, ring, [], at, s, xs, trs);
    }
  }

  /** What is accepted is bound to the ring if and only if the ring is full. */
  lemma SoundIffFull<P(!new)>(g: Group<P>, inv: Scalar -> Scalar, c: Codec<P>, ctx: Context<P>, bases: seq<P>,
      ring: seq<seq<Byte>>)
    requires InputsOk(g, c, ctx, bases) && IsScalarInverse(inv) && |ring| <= Power(ctx.n, ctx.m)
    requires |ctx.multigen| + ctx.m + 5 <= N
    ensures Sound(g, inv, c, ctx, bases, ring) <==> |ring| == Power(ctx.n, ctx.m)
    ensures SoundWhereRegular(g, inv, c, ctx, bases, ring) <==> |ring| == Power(ctx.n, ctx.m)
  {
    hide PrimeOrder, IsCodec, IsScalarInverse, Sound, SoundWhereRegular, Power;
    MulNonneg(ctx.m - 1, ctx.n);
    assert ctx.m * ctx.n == (ctx.m - 1) * ctx.n + ctx.n;
    if |ring| == Power(ctx.n, ctx.m) {
      FullIsSound(g, inv, c, ctx, bases, ring);
    } else {
      PartialIsUnsound(g, inv, c, ctx, bases, ring);
    }
  }
}
