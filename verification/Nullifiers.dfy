/** What a published value is bound to: over one topic a public key has one value, unless the generators are related. */
module Nullifiers {
  import opened AbelianGroup
  import opened LinearCombination
  import opened Digits
  import opened Secp256k1
  import opened Bytes
  import opened Strauss
  import opened EcmultConst
  import opened ScalarElement
  import opened RingAlgebra
  import opened RingSpec
  import opened RingCodec
  import opened RingSoundness
  import opened RingProver
  import opened RingProof
  import opened RingVerifier
  import opened RingExtraction
  import opened RingBinding
  import opened Membership
  import opened PlainProofs
  import opened MissingPositions
  import opened RegularAnswers
  import opened AcceptedFamilies

  // One value per topic: those of an opening without topic t, and v for that topic.
  function WithValue(zs: seq<Scalar>, t: nat, v: Scalar): (ks: seq<Scalar>)
    requires t <= |zs|
    ensures |ks| == |zs| + 1 && ks[t] == v
  {
    zs[..t] + [v] + zs[t..]
  }

  /** What opens a shifted key over the other bases opens, with the published value, the public key over all of them. */
  lemma OpensKey<P(!new)>(g: Group<P>, geng: seq<P>, t: nat, v: Scalar, zs: seq<Scalar>, key: P)
    requires PrimeOrder(g) && |geng| == |zs| + 1 && t < |geng|
    ensures Dot(g, zs, Without(geng, t)) == g.add(Mul(g, Negate(v), geng[t]), key) <==>
      Dot(g, WithValue(zs, t, v), geng) == key
  {
    hide Dot, Mul, PrimeOrder;
    var ks := WithValue(zs, t, v);
    RemoveTopic(g, ks, geng, t);
    assert Without(ks, t) == zs;
    GroupOf(g);
    Cancel(g, Mul(g, Negate(v), geng[t]), key, Dot(g, ks, geng));
  }

  /** Two openings of one key agree on every topic, or their difference relates the generators. */
  lemma SameKeySameValue<P(!new)>(g: Group<P>, geng: seq<P>, ks: seq<Scalar>, ls: seq<Scalar>, t: nat)
    requires PrimeOrder(g) && |ks| == |ls| == |geng| && t < |geng| && Dot(g, ks, geng) == Dot(g, ls, geng)
    ensures ks[t] == ls[t] || IsRelation(g, geng, Along(ks, Negate(1), ls))
  {
    hide Dot, Mul, PrimeOrder, AllKilled;
    GroupOf(g);
    PrimeKills(g);
    RepSelf(1);
    RepNegate(1, 1);
    var w, d := Along(ks, Negate(1), ls), Dot(g, ks, geng);
    DotAlong(g, ks, Negate(1), -1, ls, geng);
    MulOne(g, d);
    Inverse(g, d);
    AlongRep(ks[t], Negate(1), -1, ls[t]);
    if AllZero(w) {
      assert w[t] == 0;
      SmallDifference(ks[t], ls[t]);
    }
  }

  ghost predicate TopicContext<P(!new)>(g: Group<P>, ctx: Context<P>, tp: Topics<P>, t: nat, m: nat) {
    ContextOk(g, ctx) && 0 < m <= ctx.m && 0 < t < |tp.geng| - 1
  }

  /** Proofs that publish the same value for a topic over the same public keys: what the verifier was shown. */
  datatype Shown = Shown(mpks: seq<seq<Byte>>, v: Scalar, service: Service, chal: seq<Byte>, at: Attempts)

  // They are accepted under distinct challenges, with the same points.
  ghost predicate AcceptedShown<P(!new)>(g: Group<P>, c: Codec<P>, ctx: Context<P>, tp: Topics<P>, t: nat, m: nat,
      p: Shown)
    requires TopicContext(g, ctx, tp, t, m)
  {
    var k, ring := |tp.geng| - 1, TopicRing(g, c, tp.geng[t], p.v, p.mpks);
    RestrictOk(g, ctx, m);
    && SizedAttempts(g, Restrict(ctx, m), k, p.at) && RegularShift(g, c, tp.geng[t], p.v, p.mpks) && p.service.Sized()
    && (forall e :: 0 <= e < |p.at.proofs| ==> p.at.hashes[e](p.service.Octets()) == p.chal)
    && (forall e :: 0 <= e < |p.at.proofs| ==>
      AcceptsTopic(g, c, p.at.hashes[e], ctx, tp, p.at.proofs[e], p.mpks, p.v, t, m, p.service.Octets()))
    && SharePoints(g, Restrict(ctx, m), k, p.at) && Distinct(ChallengesOf(g, Restrict(ctx, m), k, ring, p.chal, p.at))
  }

  // The verifier reads every one of them without meeting infinity.
  ghost predicate RegularShown<P(!new)>(g: Group<P>, c: Codec<P>, ctx: Context<P>, tp: Topics<P>, t: nat, m: nat,
      p: Shown)
    requires TopicContext(g, ctx, tp, t, m) && SizedAttempts(g, Restrict(ctx, m), |tp.geng| - 1, p.at)
  {
    forall e :: 0 <= e < |p.at.proofs| ==>
      RegularTopicProof(g, c, p.at.hashes[e], ctx, tp, p.at.proofs[e], p.mpks, p.v, t, m, p.service.Octets())
  }

  ghost function ShownChallenges<P(!new)>(g: Group<P>, c: Codec<P>, ctx: Context<P>, tp: Topics<P>, t: nat, m: nat,
      p: Shown): seq<Scalar>
    requires TopicContext(g, ctx, tp, t, m) && SizedAttempts(g, Restrict(ctx, m), |tp.geng| - 1, p.at)
  {
    ChallengesOf(g, Restrict(ctx, m), |tp.geng| - 1, TopicRing(g, c, tp.geng[t], p.v, p.mpks), p.chal, p.at)
  }

  // The transcripts in the strings that were shown.
  ghost predicate ReadsAs<P(!new)>(g: Group<P>, c: Codec<P>, ctx: Context<P>, tp: Topics<P>, t: nat, m: nat, p: Shown,
      trs: seq<Transcript<P>>)
    requires TopicContext(g, ctx, tp, t, m)
  {
    var r, k := Restrict(ctx, m), |tp.geng| - 1;
    && SizedAttempts(g, r, k, p.at) && DecodedAs(c, r, k, p.at.proofs, ShownChallenges(g, c, ctx, tp, t, m, p), trs)
  }

  lemma ReadSizes<P(!new)>(g: Group<P>, c: Codec<P>, ctx: Context<P>, tp: Topics<P>, t: nat, m: nat, p: Shown,
      trs: seq<Transcript<P>>)
    requires TopicContext(g, ctx, tp, t, m) && ReadsAs(g, c, ctx, tp, t, m, p, trs)
    ensures |trs| == |ShownChallenges(g, c, ctx, tp, t, m, p)| >= 3 && |trs| > m
    ensures Sized(Restrict(ctx, m), Without(tp.geng, t), trs)
    ensures forall e :: 0 <= e < |trs| ==> |trs[e].z| == |tp.geng| - 1
  {
    hide Decode, Challenge;
    var r, k, xs := Restrict(ctx, m), |tp.geng| - 1, ShownChallenges(g, c, ctx, tp, t, m, p);
    forall e | 0 <= e < |trs|
      ensures |trs[e].f| == r.m * r.n && |trs[e].z| == k
    {
      var decoded := Decode(c, p.at.proofs[e], r.n, r.m, k, xs[e]);
      assert decoded == Some(trs[e]);
    }
  }

  // The values of the other topics that the openings in the strings combine into.
  ghost function OtherValues<P(!new)>(g: Group<P>, inv: Scalar -> Scalar, c: Codec<P>, ctx: Context<P>, tp: Topics<P>,
      t: nat, m: nat, p: Shown, trs: seq<Transcript<P>>): (zs: seq<Scalar>)
    requires TopicContext(g, ctx, tp, t, m) && ReadsAs(g, c, ctx, tp, t, m, p, trs)
    ensures |zs| == |tp.geng| - 1
  {
    ReadSizes(g, c, ctx, tp, t, m, p, trs);
    Combination(inv, m, |tp.geng| - 1, trs, ShownChallenges(g, c, ctx, tp, t, m, p))
  }

  /** The values that were shown, one per topic: those, and the published one for topic t. */
  ghost function ValuesOf<P(!new)>(g: Group<P>, inv: Scalar -> Scalar, c: Codec<P>, ctx: Context<P>, tp: Topics<P>,
      t: nat, m: nat, p: Shown, trs: seq<Transcript<P>>): (ks: seq<Scalar>)
    requires TopicContext(g, ctx, tp, t, m) && ReadsAs(g, c, ctx, tp, t, m, p, trs)
    ensures |ks| == |tp.geng| && ks[t] == p.v
  {
    WithValue(OtherValues(g, inv, c, ctx, tp, t, m, p, trs), t, p.v)
  }

  // What was shown relates the generators that the proofs commit with.
  ghost predicate BreaksShown<P(!new)>(g: Group<P>, inv: Scalar -> Scalar, c: Codec<P>, ctx: Context<P>, tp: Topics<P>,
      t: nat, m: nat, p: Shown, trs: seq<Transcript<P>>)
    requires TopicContext(g, ctx, tp, t, m) && ReadsAs(g, c, ctx, tp, t, m, p, trs)
  {
    BreaksSomewhere(g, inv, Restrict(ctx, m), Without(tp.geng, t), trs, ShownChallenges(g, c, ctx, tp, t, m, p))
  }

  /** The public key at the position is the combination of the topic generators with the values that were shown. */
  ghost predicate OpensPublicKey<P(!new)>(g: Group<P>, inv: Scalar -> Scalar, c: Codec<P>, ctx: Context<P>,
      tp: Topics<P>, t: nat, m: nat, p: Shown, trs: seq<Transcript<P>>, index: nat)
    requires TopicContext(g, ctx, tp, t, m) && ReadsAs(g, c, ctx, tp, t, m, p, trs)
  {
    index < |p.mpks| && Dot(g, ValuesOf(g, inv, c, ctx, tp, t, m, p, trs), tp.geng) == c.load(p.mpks[index])
  }

  /** At a position without a key: the values of the other topics open the neutral element, whatever was published. */
  ghost predicate OpensNothing<P(!new)>(g: Group<P>, inv: Scalar -> Scalar, c: Codec<P>, ctx: Context<P>,
      tp: Topics<P>, t: nat, m: nat, p: Shown, trs: seq<Transcript<P>>)
    requires TopicContext(g, ctx, tp, t, m) && ReadsAs(g, c, ctx, tp, t, m, p, trs)
  {
    |p.mpks| < Power(ctx.n, m) && Dot(g, OtherValues(g, inv, c, ctx, tp, t, m, p, trs), Without(tp.geng, t)) == g.zero
  }

  // A family of accepted proofs is one over the ring shifted by the published value.
  lemma ShownFamily<P(!new)>(g: Group<P>, c: Codec<P>, ctx: Context<P>, tp: Topics<P>, t: nat, m: nat, p: Shown)
    requires InputsOk(g, c, ctx, tp.geng) && TopicContext(g, ctx, tp, t, m)
    ensures InputsOk(g, c, Restrict(ctx, m), Without(tp.geng, t))
    ensures AcceptedShown(g, c, ctx, tp, t, m, p) <==>
      && RegularShift(g, c, tp.geng[t], p.v, p.mpks) && |p.mpks| <= Power(ctx.n, m) && p.service.Sized()
      && AcceptedFamily(g, c, Restrict(ctx, m), Without(tp.geng, t),
        TopicRing(g, c, tp.geng[t], p.v, p.mpks), p.chal, p.at)
      && forall e :: 0 <= e < |p.at.proofs| ==> p.at.hashes[e](p.service.Octets()) == p.chal
  {
    hide PrimeOrder, IsCodec, Accepts, Power, Mul, Distinct, SharePoints, Challenge, RegularShift;
    RestrictOk(g, ctx, m);
    if AcceptedShown(g, c, ctx, tp, t, m, p) {
      assert AcceptsTopic(g, c, p.at.hashes[0], ctx, tp, p.at.proofs[0], p.mpks, p.v, t, m, p.service.Octets());
    }
  }

  /** To open a member of the shifted ring is to open, with the published value, a public key. */
  lemma OpensShifted<P(!new)>(g: Group<P>, inv: Scalar -> Scalar, c: Codec<P>, ctx: Context<P>, tp: Topics<P>, t: nat,
      m: nat, p: Shown, trs: seq<Transcript<P>>, index: nat)
    requires InputsOk(g, c, ctx, tp.geng) && TopicContext(g, ctx, tp, t, m) && ReadsAs(g, c, ctx, tp, t, m, p, trs)
    requires RegularShift(g, c, tp.geng[t], p.v, p.mpks) && index < |p.mpks|
    ensures OpensPublicKey(g, inv, c, ctx, tp, t, m, p, trs, index) <==>
      Dot(g, OtherValues(g, inv, c, ctx, tp, t, m, p, trs), Without(tp.geng, t))
        == LoadAll(c, TopicRing(g, c, tp.geng[t], p.v, p.mpks))[index]
  {
    hide PrimeOrder, Dot, Mul, ReadsAs, ContextOk, FinitePoints;
    assert Saves(g, c, Shifted(g, c, tp.geng[t], p.v, p.mpks[index]));
    OpensKey(g, tp.geng, t, p.v, OtherValues(g, inv, c, ctx, tp, t, m, p, trs), c.load(p.mpks[index]));
  }

  lemma ShownOutcome<P(!new)>(g: Group<P>, inv: Scalar -> Scalar, c: Codec<P>, ctx: Context<P>, tp: Topics<P>,
      t: nat, m: nat, p: Shown, trs: seq<Transcript<P>>, index: nat)
    requires InputsOk(g, c, ctx, tp.geng) && TopicContext(g, ctx, tp, t, m) && ReadsAs(g, c, ctx, tp, t, m, p, trs)
    requires RegularShift(g, c, tp.geng[t], p.v, p.mpks) && |p.mpks| <= Power(ctx.n, m)
    requires Extracted(g, inv, Restrict(ctx, m), Without(tp.geng, t),
      LoadAll(c, TopicRing(g, c, tp.geng[t], p.v, p.mpks)),
      trs, ShownChallenges(g, c, ctx, tp, t, m, p), index)
    ensures BreaksShown(g, inv, c, ctx, tp, t, m, p, trs) || OpensNothing(g, inv, c, ctx, tp, t, m, p, trs)
      || OpensPublicKey(g, inv, c, ctx, tp, t, m, p, trs, index)
  {
    hide PrimeOrder, IsCodec, Breaks, Extract, Power, Dot, Mul, FinitePoints, Challenge, DecodedAs, LinearGap,
      BinaryGap, ValuesOf, RegularShift;
    if index < |p.mpks| {
      OpensShifted(g, inv, c, ctx, tp, t, m, p, trs, index);
    }
  }

  lemma ShownTranscripts<P(!new)>(g: Group<P>, inv: Scalar -> Scalar, c: Codec<P>, ctx: Context<P>, tp: Topics<P>,
      t: nat, m: nat, p: Shown) returns (trs: seq<Transcript<P>>, index: nat)
    requires InputsOk(g, c, ctx, tp.geng) && IsScalarInverse(inv) && TopicContext(g, ctx, tp, t, m) && ctx.n < N
    requires AcceptedShown(g, c, ctx, tp, t, m, p)
    ensures ReadsAs(g, c, ctx, tp, t, m, p, trs) && t < |tp.geng|
    ensures RegularShift(g, c, tp.geng[t], p.v, p.mpks) && |p.mpks| <= Power(ctx.n, m)
    ensures Extracted(g, inv, Restrict(ctx, m), Without(tp.geng, t),
      LoadAll(c, TopicRing(g, c, tp.geng[t], p.v, p.mpks)),
      trs, ShownChallenges(g, c, ctx, tp, t, m, p), index)
  {
    hide PrimeOrder, IsCodec, IsScalarInverse, Accepts, Power, Distinct, SharePoints, FinitePoints, Challenge, Decode,
      AcceptedShown, Extracted, RegularShift, AcceptedAll, DecodedAs;
    ShownFamily(g, c, ctx, tp, t, m, p);
    var r, bases, ring := Restrict(ctx, m), Without(tp.geng, t), TopicRing(g, c, tp.geng[t], p.v, p.mpks);
    trs, index := AcceptedProofsOpen(g, inv, c, r, bases, ring, p.chal, p.at);
  }

  /** Accepted proofs for a topic relate the generators of the proof, open a public key with the published value as the
      value of the topic, or sit at a position without a key. */
  lemma ShownOpensKey<P(!new)>(g: Group<P>, inv: Scalar -> Scalar, c: Codec<P>, ctx: Context<P>, tp: Topics<P>,
      t: nat, m: nat, p: Shown) returns (trs: seq<Transcript<P>>, index: nat)
    requires InputsOk(g, c, ctx, tp.geng) && IsScalarInverse(inv) && TopicContext(g, ctx, tp, t, m) && ctx.n < N
    requires AcceptedShown(g, c, ctx, tp, t, m, p)
    ensures ReadsAs(g, c, ctx, tp, t, m, p, trs)
    ensures BreaksShown(g, inv, c, ctx, tp, t, m, p, trs) || OpensNothing(g, inv, c, ctx, tp, t, m, p, trs)
      || OpensPublicKey(g, inv, c, ctx, tp, t, m, p, trs, index)
  {
    hide *;
    trs, index := ShownTranscripts(g, inv, c, ctx, tp, t, m, p);
    ShownOutcome(g, inv, c, ctx, tp, t, m, p, trs, index);
  }

  /** One value per key and topic.  Two families of accepted proofs for a topic that open the same public key published
      the same value, or the values they show relate the generators of the topics. */
  lemma OneValue<P(!new)>(g: Group<P>, inv: Scalar -> Scalar, c: Codec<P>, ctx: Context<P>, tp: Topics<P>, t: nat,
      m: nat, p: Shown, q: Shown)
    returns (trs: seq<Transcript<P>>, urs: seq<Transcript<P>>, i: nat, j: nat)
    requires InputsOk(g, c, ctx, tp.geng) && IsScalarInverse(inv) && TopicContext(g, ctx, tp, t, m) && ctx.n < N
    requires AcceptedShown(g, c, ctx, tp, t, m, p) && AcceptedShown(g, c, ctx, tp, t, m, q)
    ensures ReadsAs(g, c, ctx, tp, t, m, p, trs) && ReadsAs(g, c, ctx, tp, t, m, q, urs)
    ensures BreaksShown(g, inv, c, ctx, tp, t, m, p, trs) || OpensNothing(g, inv, c, ctx, tp, t, m, p, trs)
      || OpensPublicKey(g, inv, c, ctx, tp, t, m, p, trs, i)
    ensures BreaksShown(g, inv, c, ctx, tp, t, m, q, urs) || OpensNothing(g, inv, c, ctx, tp, t, m, q, urs)
      || OpensPublicKey(g, inv, c, ctx, tp, t, m, q, urs, j)
    ensures var ks, ls := ValuesOf(g, inv, c, ctx, tp, t, m, p, trs), ValuesOf(g, inv, c, ctx, tp, t, m, q, urs);
      OpensPublicKey(g, inv, c, ctx, tp, t, m, p, trs, i) && OpensPublicKey(g, inv, c, ctx, tp, t, m, q, urs, j)
        && c.load(p.mpks[i]) == c.load(q.mpks[j]) ==>
      p.v == q.v || IsRelation(g, tp.geng, Along(ks, Negate(1), ls))
  {
    assert t < |tp.geng|;
    hide PrimeOrder, IsScalarInverse, AcceptedShown, BreaksShown, OpensNothing, ReadsAs, TopicContext, Dot,
      FinitePoints, IsRelation, IsCodec, ContextOk, ValuesOf;
    trs, i := ShownOpensKey(g, inv, c, ctx, tp, t, m, p);
    urs, j := ShownOpensKey(g, inv, c, ctx, tp, t, m, q);
    var ks, ls := ValuesOf(g, inv, c, ctx, tp, t, m, p, trs), ValuesOf(g, inv, c, ctx, tp, t, m, q, urs);
    if Dot(g, ks, tp.geng) == Dot(g, ls, tp.geng) {
      SameKeySameValue(g, tp.geng, ks, ls, t);
    }
  }

  /** With a position missing there is an accepted proof for every value, whatever the hash: none of them takes a key.
      */
  lemma AnyValueAccepted<P(!new)>(g: Group<P>, c: Codec<P>, hash: seq<Byte> -> Digest, ctx: Context<P>, tp: Topics<P>,
      mpks: seq<seq<Byte>>, v: Scalar, t: nat, m: nat, outer: seq<Byte>) returns (proof: seq<Byte>)
    requires InputsOk(g, c, ctx, tp.geng) && TopicContext(g, ctx, tp, t, m) && |mpks| < Power(ctx.n, m)
    ensures |proof| == ProofSize(ctx.n, m, |tp.geng| - 1)
    ensures AcceptsTopic(g, c, hash, ctx, tp, proof, mpks, v, t, m, outer)
  {
    hide PrimeOrder, IsCodec, Accepts, Power, KeylessNonces, KeylessString, KeylessPrefix, Challenge;
    RestrictOk(g, ctx, m);
    var s;
    s, proof := KeylessProof(g, c, hash, Restrict(ctx, m), Without(tp.geng, t), TopicRing(g, c, tp.geng[t], v, mpks),
      hash(outer));
  }

  // What was shown is bound to a public key.
  ghost predicate BindsShown<P(!new)>(g: Group<P>, inv: Scalar -> Scalar, c: Codec<P>, ctx: Context<P>, tp: Topics<P>,
      t: nat, m: nat, p: Shown, trs: seq<Transcript<P>>, index: nat)
    requires TopicContext(g, ctx, tp, t, m)
  {
    && ReadsAs(g, c, ctx, tp, t, m, p, trs)
    && (BreaksShown(g, inv, c, ctx, tp, t, m, p, trs) || OpensPublicKey(g, inv, c, ctx, tp, t, m, p, trs, index))
  }

  lemma BindsShifted<P(!new)>(g: Group<P>, inv: Scalar -> Scalar, c: Codec<P>, ctx: Context<P>, tp: Topics<P>, t: nat,
      m: nat, p: Shown, trs: seq<Transcript<P>>, index: nat)
    requires InputsOk(g, c, ctx, tp.geng) && TopicContext(g, ctx, tp, t, m)
    requires RegularShift(g, c, tp.geng[t], p.v, p.mpks)
    requires BindsShown(g, inv, c, ctx, tp, t, m, p, trs, index)
    ensures Binds(g, inv, c, Restrict(ctx, m), Without(tp.geng, t),
      TopicRing(g, c, tp.geng[t], p.v, p.mpks), p.chal, p.at, trs)
  {
    hide PrimeOrder, IsCodec, Breaks, Extract, Dot, Mul, FinitePoints, Challenge, Decode, LinearGap, BinaryGap,
      RegularShift;
    ReadSizes(g, c, ctx, tp, t, m, p, trs);
    if OpensPublicKey(g, inv, c, ctx, tp, t, m, p, trs, index) {
      OpensShifted(g, inv, c, ctx, tp, t, m, p, trs, index);
    }
  }

  /** Everything that is shown and accepted for these keys and this value is bound to one of the keys. */
  ghost predicate TopicSound<P(!new)>(g: Group<P>, inv: Scalar -> Scalar, c: Codec<P>, ctx: Context<P>, tp: Topics<P>,
      t: nat, m: nat, mpks: seq<seq<Byte>>, v: Scalar)
    requires TopicContext(g, ctx, tp, t, m)
  {
    forall p: Shown :: p.mpks == mpks && p.v == v && AcceptedShown(g, c, ctx, tp, t, m, p) ==>
      exists trs, index :: BindsShown(g, inv, c, ctx, tp, t, m, p, trs, index)
  }

  // The same for what the verifier reads without meeting infinity.
  ghost predicate TopicSoundWhereRegular<P(!new)>(g: Group<P>, inv: Scalar -> Scalar, c: Codec<P>, ctx: Context<P>,
      tp: Topics<P>, t: nat, m: nat, mpks: seq<seq<Byte>>, v: Scalar)
    requires TopicContext(g, ctx, tp, t, m)
  {
    forall p: Shown ::
      (p.mpks == mpks && p.v == v && AcceptedShown(g, c, ctx, tp, t, m, p) && RegularShown(g, c, ctx, tp, t, m, p)) ==>
      exists trs, index :: BindsShown(g, inv, c, ctx, tp, t, m, p, trs, index)
  }

  lemma FullTopicSound<P(!new)>(g: Group<P>, inv: Scalar -> Scalar, c: Codec<P>, ctx: Context<P>, tp: Topics<P>,
      t: nat, m: nat, mpks: seq<seq<Byte>>, v: Scalar)
    requires InputsOk(g, c, ctx, tp.geng) && IsScalarInverse(inv) && TopicContext(g, ctx, tp, t, m) && ctx.n < N
    requires |mpks| == Power(ctx.n, m)
    ensures TopicSound(g, inv, c, ctx, tp, t, m, mpks, v) && TopicSoundWhereRegular(g, inv, c, ctx, tp, t, m, mpks, v)
  {
    hide InputsOk, IsScalarInverse, TopicContext, AcceptedShown, RegularShown, ReadsAs, BreaksShown, OpensPublicKey,
      Power;
    forall p: Shown | p.mpks == mpks && p.v == v && AcceptedShown(g, c, ctx, tp, t, m, p)
      ensures exists trs, index :: BindsShown(g, inv, c, ctx, tp, t, m, p, trs, index)
    {
      var trs, index := ShownOpensKey(g, inv, c, ctx, tp, t, m, p);
      assert BindsShown(g, inv, c, ctx, tp, t, m, p, trs, index);
    }
  }

  /** With a position missing, proofs without keys for any value are really accepted, and are bound to no public key. */
  lemma KeylessShown<P(!new)>(g: Group<P>, inv: Scalar -> Scalar, c: Codec<P>, ctx: Context<P>, tp: Topics<P>,
      t: nat, m: nat, mpks: seq<seq<Byte>>, v: Scalar) returns (p: Shown)
    requires InputsOk(g, c, ctx, tp.geng) && IsScalarInverse(inv) && TopicContext(g, ctx, tp, t, m)
    requires |mpks| < Power(ctx.n, m) && m * ctx.n + m + 5 <= N && RegularShift(g, c, tp.geng[t], v, mpks)
    ensures p.mpks == mpks && p.v == v && AcceptedShown(g, c, ctx, tp, t, m, p) && RegularShown(g, c, ctx, tp, t, m, p)
    ensures forall trs, index :: !BindsShown(g, inv, c, ctx, tp, t, m, p, trs, index)
  {
    hide PrimeOrder, IsCodec, IsScalarInverse, ReadsAs, BreaksShown, OpensPublicKey, Power, Binds, DecodedAs,
      BindsShown, KeylessNonces, KeylessFamily, RegularShift, AcceptedShown, RegularProof, AcceptedAll, SharePoints,
      Distinct, TopicRing, KeylessString, Challenge;
    var r, bases, ring, d := Restrict(ctx, m), Without(tp.geng, t), TopicRing(g, c, tp.geng[t], v, mpks), GetB32(0);
    RestrictOk(g, ctx, m);
    var s, xs, at := KeylessFamilyAccepted(g, c, r, bases, ring, d, d);
    p := Shown(mpks, v, Service(seq(33, _ => 0), seq(32, _ => 0), []), d, at);
    ShownFamily(g, c, ctx, tp, t, m, p);
    forall trs, index
      ensures !BindsShown(g, inv, c, ctx, tp, t, m, p, trs, index)
    {
      KeylessNotBound(g, inv, c, r, bases, ring, d, at, s, xs, trs);
      if BindsShown(g, inv, c, ctx, tp, t, m, p, trs, index) {
        BindsShifted(g, inv, c, ctx, tp, t, m, p, trs, index);
      }
    }
  }

  lemma PartialTopicUnsound<P(!new)>(g: Group<P>, inv: Scalar -> Scalar, c: Codec<P>, ctx: Context<P>, tp: Topics<P>,
      t: nat, m: nat, mpks: seq<seq<Byte>>, v: Scalar)
    requires InputsOk(g, c, ctx, tp.geng) && IsScalarInverse(inv) && TopicContext(g, ctx, tp, t, m)
    requires |mpks| < Power(ctx.n, m) && m * ctx.n + m + 5 <= N && RegularShift(g, c, tp.geng[t], v, mpks)
    ensures !TopicSound(g, inv, c, ctx, tp, t, m, mpks, v) && !TopicSoundWhereRegular(g, inv, c, ctx, tp, t, m, mpks, v)
  {
    hide InputsOk, IsScalarInverse, TopicContext, BindsShown, AcceptedShown, RegularShown, Power, RegularShift;
    var p := KeylessShown(g, inv, c, ctx, tp, t, m, mpks, v);
  }

  /** For a value whose multiple of the topic's generator is not itself a key of the ring: what is accepted with it is
      bound to a public key if and only if no position is missing. */
  lemma TopicSoundIffFull<P(!new)>(g: Group<P>, inv: Scalar -> Scalar, c: Codec<P>, ctx: Context<P>, tp: Topics<P>,
      t: nat, m: nat, mpks: seq<seq<Byte>>, v: Scalar)
    requires InputsOk(g, c, ctx, tp.geng) && IsScalarInverse(inv) && TopicContext(g, ctx, tp, t, m)
    requires |mpks| <= Power(ctx.n, m) && m * ctx.n + m + 5 <= N && RegularShift(g, c, tp.geng[t], v, mpks)
    ensures TopicSound(g, inv, c, ctx, tp, t, m, mpks, v) <==> |mpks| == Power(ctx.n, m)
    ensures TopicSoundWhereRegular(g, inv, c, ctx, tp, t, m, mpks, v) <==> |mpks| == Power(ctx.n, m)
  {
    hide PrimeOrder, IsCodec, IsScalarInverse, TopicSound, TopicSoundWhereRegular, Power, RegularShift;
    MulNonneg(m - 1, ctx.n);
    assert m * ctx.n == (m - 1) * ctx.n + ctx.n;
    if |mpks| == Power(ctx.n, m) {
      FullTopicSound(g, inv, c, ctx, tp, t, m, mpks, v);
    } else {
      PartialTopicUnsound(g, inv, c, ctx, tp, t, m, mpks, v);
    }
  }

  /** The strings that the verifier takes for a value: its own 32 bytes and, where that still fits, those of the value
      plus the order. */
  lemma ValueStrings(v: Scalar, b: seq<Byte>)
    requires |b| == 32
    ensures SetB32(b).0 == v <==> b == GetB32(v) || (v < Pow2(256) - N && b == BigEndian(v + N, 32))
    ensures v < Pow2(256) - N ==> BigEndian(v + N, 32) != GetB32(v)
  {
    hide SetB32, FromBigEndian, BigEndian, Power, Pow2;
    WordSizes();
    OrderBounds();
    EncodeDecode(b);
    DecodeBelow(b);
    OneReduction(b);
    if v < Pow2(256) - N {
      Bytes.DecodeEncode(v + N, 32);
    }
    Bytes.DecodeEncode(v, 32);
  }
}
