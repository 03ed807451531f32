/** Credentials built on the ring proof: master keys with one value per topic, membership proofs that publish the
    value of one topic as a nullifier, and authentication under derived keys. */
module Membership {
  import opened AbelianGroup
  import opened LinearCombination
  import opened Digits
  import opened Secp256k1
  import opened Bytes
  import opened Strauss
  import opened EcmultConst
  import opened ScalarElement
  import opened RingAlgebra
  import opened RingSpec
  import opened RingCodec
  import opened RingProver
  import opened RingProof
  import opened RingVerifier

  ghost function OpeningPoint<P>(g: Group<P>, x: Scalar, m: nat, p: P): P {
    Mul(g, Power(x, m), p)
  }

  lemma {:induction false} OpeningDecides<P(!new)>(g: Group<P>, x: Scalar, m: nat, p: P, q: P)
    requires PrimeOrder(g) && m > 0
    ensures OpeningPoint(g, x, m, p) == OpeningPoint(g, x, m, q) <==> x == 0 || p == q
  {
    hide Mul, PrimeOrder;
    assert IsGroup(g) by { GroupOf(g); }
    MulMul(g, x, Power(x, m - 1), p);
    MulMul(g, x, Power(x, m - 1), q);
    if x == 0 {
      assert Power(x, m) == 0;
      MulOne(g, p);
      MulOne(g, q);
    } else if OpeningPoint(g, x, m, p) == OpeningPoint(g, x, m, q) {
      MultipleDecides(g, x, Mul(g, Power(x, m - 1), p), Mul(g, Power(x, m - 1), q));
      if m == 1 {
        MulOne(g, p);
        MulOne(g, q);
      } else {
        OpeningDecides(g, x, m - 1, p, q);
      }
    }
  }

  /** A proof that was written honestly is accepted exactly when the prover's keys open the commitment at the secret
      position, or the challenge is zero. */
  lemma HonestProofVerdict<P(!new)>(g: Group<P>, c: Codec<P>, hash: seq<Byte> -> Digest, ctx: Context<P>, bases: seq<P>,
      ring: seq<seq<Byte>>, index: nat, keys: seq<Scalar>, chal: seq<Byte>, s: Nonces, proof: seq<Byte>)
    requires InputsOk(g, c, ctx, bases) && |keys| == |bases| && Shaped(ctx, s) && index < Power(ctx.n, ctx.m)
    requires |ring| <= Power(ctx.n, ctx.m)
    requires forall j :: 0 <= j < ctx.m ==> RowFirst(s.a, ctx.n, 0, j)
    requires WrittenBy(g, c, hash, ctx, bases, ring, index, keys, chal, s, proof)
    ensures |proof| == ProofSize(ctx.n, ctx.m, |bases|)
    ensures var x := Challenge(hash, ring, chal, proof[..33 * (4 + ctx.m)]);
      Accepts(g, c, hash, ctx, bases, ring, chal, proof) <==>
        x == 0 || Filled(g, LoadAll(c, ring), index) == Dot(g, keys, bases)
  {
    hide IsGroup, IsCodec, PrimeOrder, ContextOk, Mul, Dot, Commit, HonestQ, RowFirst, Responds, Equations,
        RingEquation, LinearEquation,
      BinaryEquation, Decode, Challenge, PointBytes, ScalarBytes, Power, Fitting, HonestQs, Openings, HonestPoints,
        OpeningPoint;
    var cs, points := LoadAll(c, ring), HonestPoints(g, ctx, bases, LoadAll(c, ring), index, s);
    var x := Challenge(hash, ring, chal, PointBytes(c, points));
    var tr := HonestTranscript(g, ctx, bases, cs, index, keys, s, x);
    PointsBeforeChallenge(g, ctx, bases, cs, index, keys, s, x);
    HonestFits(g, ctx, bases, cs, index, keys, s, x);
    hide HonestTranscript;
    WrittenReads(g, c, ctx, s, index, tr, x, |keys|);
    Verdict(g, ctx, bases, cs, index, keys, s, x);
    OpeningDecides(g, x, ctx.m, Filled(g, cs, index), Dot(g, keys, bases));
  }

  /** A position that the ring does not fill counts as the neutral element, so at such a position a proof without any
      key is accepted. */
  lemma MissingPositionAccepted<P(!new)>(g: Group<P>, c: Codec<P>, hash: seq<Byte> -> Digest, ctx: Context<P>,
      bases: seq<P>, ring: seq<seq<Byte>>, index: nat, keys: seq<Scalar>, chal: seq<Byte>, s: Nonces, proof: seq<Byte>)
    requires InputsOk(g, c, ctx, bases) && |keys| == |bases| && Shaped(ctx, s) && |ring| <= index < Power(ctx.n, ctx.m)
    requires forall i :: 0 <= i < |keys| ==> keys[i] == 0
    requires forall j :: 0 <= j < ctx.m ==> RowFirst(s.a, ctx.n, 0, j)
    requires WrittenBy(g, c, hash, ctx, bases, ring, index, keys, chal, s, proof)
    ensures |proof| == ProofSize(ctx.n, ctx.m, |bases|) && Accepts(g, c, hash, ctx, bases, ring, chal, proof)
  {
    hide PrimeOrder, IsCodec, ContextOk, Dot, Power, RowFirst, WrittenBy, Accepts, Challenge, FinitePoints;
    HonestProofVerdict(g, c, hash, ctx, bases, ring, index, keys, chal, s, proof);
    GroupOf(g);
    DotZero(g, keys, bases);
  }

  // What was written reads back, and starts with the points that were hashed.
  lemma WrittenReads<P(!new)>(g: Group<P>, c: Codec<P>, ctx: Context<P>, s: Nonces, index: nat, tr: Transcript<P>,
      x: Scalar, k: nat)
    requires IsCodec(g, c) && Shaped(ctx, s) && Responds(s, ctx.n, index, x, tr.f) && |tr.f| == ctx.m * ctx.n
    requires |tr.Q| == ctx.m && |tr.z| == k && FinitePoints(g, Points(tr))
    requires forall j :: 0 <= j < ctx.m ==> RowFirst(s.a, ctx.n, 0, j)
    ensures var b := Encode(c, tr, ctx.n, ctx.m);
      |b| == ProofSize(ctx.n, ctx.m, k) && Decode(c, b, ctx.n, ctx.m, k, x) == Some(tr)
          && b[..33 * (4 + ctx.m)] == PointBytes(c, Points(tr))
  {
    hide IsCodec, RowFirst, Responds, Decode, PointBytes, ScalarBytes, FinitePoints;
    forall j | 0 <= j < ctx.m
      ensures RowFirst(tr.f, ctx.n, x, j)
    {
      ResponseRows(s, tr.f, ctx.n, ctx.m, index, x, j);
    }
    RingCodec.DecodeEncode(g, c, tr, ctx.n, ctx.m, x);
    PointBytesAt(g, c, Points(tr), 0);
  }

  lemma Verdict<P(!new)>(g: Group<P>, ctx: Context<P>, bases: seq<P>, cs: seq<P>, index: nat, keys: seq<Scalar>,
      s: Nonces, x: Scalar)
    requires PrimeOrder(g) && Shaped(ctx, s) && |keys| == |bases| && index < Power(ctx.n, ctx.m)
    requires |cs| <= Power(ctx.n, ctx.m)
    ensures var tr := HonestTranscript(g, ctx, bases, cs, index, keys, s, x);
      Fitting(ctx, bases, tr) && (Equations(g, ctx, bases, cs, tr, x) <==>
        OpeningPoint(g, x, ctx.m, Filled(g, cs, index)) == OpeningPoint(g, x, ctx.m, Dot(g, keys, bases)))
  {
    PrimeKills(g);
    Completeness(g, ctx, bases, cs, index, keys, s, x);
  }

  // Acceptance with the first m digits of a context.
  ghost predicate AcceptsWithin<P(!new)>(g: Group<P>, c: Codec<P>, hash: seq<Byte> -> Digest, ctx: Context<P>, m: nat,
      bases: seq<P>, ring: seq<seq<Byte>>, chal: seq<Byte>, proof: seq<Byte>)
    requires ContextOk(g, ctx) && m > 0 && |proof| == ProofSize(ctx.n, m, |bases|)
  {
    m <= ctx.m && (
      RestrictOk(g, ctx, m);
      Accepts(g, c, hash, Restrict(ctx, m), bases, ring, chal, proof))
  }

  // The proof is not read at all, or it is regular.
  ghost predicate RegularWithin<P(!new)>(g: Group<P>, c: Codec<P>, hash: seq<Byte> -> Digest, ctx: Context<P>, m: nat,
      bases: seq<P>, ring: seq<seq<Byte>>, chal: seq<Byte>, proof: seq<Byte>)
    requires ContextOk(g, ctx) && m > 0 && |proof| == ProofSize(ctx.n, m, |bases|)
  {
    |ring| <= Power(ctx.n, m) && m <= ctx.m ==> (
      RestrictOk(g, ctx, m);
      RegularProof(g, c, hash, Restrict(ctx, m), bases, ring, chal, proof))
  }

  /** The verifier with its admission checks. */
  method Verify<P(!new, ==)>(g: Group<P>, c: Codec<P>, hash: seq<Byte> -> Digest, ctx: Context<P>, bases: seq<P>,
      proof: array<Byte>, ring: seq<seq<Byte>>, m: nat, chal: seq<Byte>) returns (ok: bool, finite: bool)
    requires InputsOk(g, c, ctx, bases) && m > 0 && proof.Length == ProofSize(ctx.n, m, |bases|)
    ensures finite <==> RegularWithin(g, c, hash, ctx, m, bases, ring, chal, proof[..])
    ensures finite ==>
      (ok <==> (|ring| <= Power(ctx.n, m) && AcceptsWithin(g, c, hash, ctx, m, bases, ring, chal, proof[..])))
  {
    hide Power, PrimeOrder, IsCodec, Accepts, RegularProof;
    var capacity := Capacity(ctx.n, m);
    if capacity < |ring| || m > ctx.m {
      return false, true;
    }
    RestrictOk(g, ctx, m);
    ok, finite := CheckProof(g, c, hash, Restrict(ctx, m), bases, proof, ring, chal);
  }

  // What the prover checks before it starts, and the last nonce.
  ghost predicate Provable<P>(ctx: Context<P>, ring: seq<seq<Byte>>, index: nat, m: nat, random: seq<seq<Byte>>)
    requires RandomOk(random, ctx.n, m) && |random| > 0
  {
    index < |ring| <= Power(ctx.n, m) && m <= ctx.m && !SetB32(random[|random| - 1]).1
  }

  /** Creating and then verifying: accepted exactly when the keys open the commitment at the position, or the challenge
      is zero. So whoever knows an opening convinces the verifier. */
  method CreateAndVerify<P(!new, ==)>(g: Group<P>, c: Codec<P>, hash: seq<Byte> -> Digest, ctx: Context<P>,
      bases: seq<P>, proof: array<Byte>, ring: seq<seq<Byte>>, index: nat, keys: seq<Scalar>, m: nat, chal: seq<Byte>,
      random: seq<seq<Byte>>)
    returns (created: bool, accepted: bool, finite: bool, ghost s: Nonces)
    requires InputsOk(g, c, ctx, bases) && |keys| == |bases| && m > 0 && RandomOk(random, ctx.n, m)
    requires proof.Length == ProofSize(ctx.n, m, |keys|)
    modifies proof
    ensures created <==> Provable(ctx, ring, index, m, random)
    ensures created ==> Drawn(random, ctx.n, m, s) && Shaped(Restrict(ctx, m), s)
    ensures created ==> (finite <==>
      RegularProver(g, Restrict(ctx, m), bases, LoadAll(c, ring), index, s)
        && RegularWithin(g, c, hash, ctx, m, bases, ring, chal, proof[..]))
    ensures created && finite ==>
      (accepted <==>
        Challenge(hash, ring, chal, proof[..33 * (4 + m)]) == 0 || c.load(ring[index]) == Dot(g, keys, bases))
  {
    hide Power, SetB32, PrimeOrder, IsCodec, Dot, Accepts, WrittenBy, RowFirst, RowsDrawn, Challenge, RegularProver,
      RegularWithin;
    accepted := false;
    var drawn;
    created, finite, drawn := Create(g, c, hash, ctx, bases, proof, ring, index, keys, m, chal, random);
    s := drawn;
    if created {
      var clean := finite;
      accepted, finite := Verify(g, c, hash, ctx, bases, proof, ring, m, chal);
      finite := finite && clean;
      if clean {
        RestrictOk(g, ctx, m);
        HonestProofVerdict(g, c, hash, Restrict(ctx, m), bases, ring, index, keys, chal, s, proof[..]);
      }
    }
  }

  /** Parameters of the per-topic credentials: base 0 belongs to the master key, base j to topic j. */
  datatype Topics<!P> = Topics(geng: seq<P>, names: seq<Byte>)

  ghost predicate TopicsOk<P>(g: Group<P>, tp: Topics<P>) {
    |tp.geng| > 0 && FinitePoints(g, tp.geng) && |tp.names| == 32 * (|tp.geng| - 1)
  }

  function TopicOctets<P>(tp: Topics<P>, msk: seq<Byte>, j: nat): seq<Byte>
    requires |tp.names| >= 32 * j
  {
    msk + tp.names[..32 * j] + [10, 10, 10, 10]
  }

  /** What is hashed for a topic, by the places of the octets: the master key, the names up to that topic, four line
      feeds. */
  lemma TopicOctetsIff<P>(tp: Topics<P>, msk: seq<Byte>, j: nat, q: seq<Byte>)
    requires |msk| == 32 && |tp.names| >= 32 * j
    ensures q == TopicOctets(tp, msk, j) <==>
      && |q| == 36 + 32 * j && q[..32] == msk && q[32..32 + 32 * j] == tp.names[..32 * j]
      && q[32 + 32 * j] == q[33 + 32 * j] == q[34 + 32 * j] == q[35 + 32 * j] == 10
  {
    var h, e := TopicOctets(tp, msk, j), 32 + 32 * j;
    assert h[..32] == msk && h[32..e] == tp.names[..32 * j];
    if |q| == 36 + 32 * j && q[e] == q[e + 1] == q[e + 2] == q[e + 3] == 10 {
      assert q == q[..32] + q[32..e] + [q[e], q[e + 1], q[e + 2], q[e + 3]];
    }
  }

  // The value of topic j is hashed from the master key and the names up to j.
  function TopicKey<P>(hash: seq<Byte> -> Digest, tp: Topics<P>, msk: seq<Byte>, j: nat): Scalar
    requires |msk| == 32 && |tp.names| >= 32 * j
  {
    if j == 0 then SetB32(msk).0 else SetB32(hash(TopicOctets(tp, msk, j))).0
  }

  // The value at index 0 is the master key itself.
  lemma MasterKey<P>(hash: seq<Byte> -> Digest, tp: Topics<P>, s: Scalar)
    ensures TopicKey(hash, tp, GetB32(s), 0) == s
  {
    ScalarRoundTrip(s);
  }

  /** The value of a topic depends on the master key and on every name up to that topic, and on nothing else. */
  lemma TopicKeyDecides<P>(tp: Topics<P>, msk: seq<Byte>, i: nat, other: Topics<P>, msk': seq<Byte>, j: nat)
    requires |msk| == |msk'| == 32 && i > 0 && j > 0 && |tp.names| >= 32 * i && |other.names| >= 32 * j
    ensures (forall hash: seq<Byte> -> Digest :: TopicKey(hash, tp, msk, i) == TopicKey(hash, other, msk', j)) <==>
      msk == msk' && tp.names[..32 * i] == other.names[..32 * j]
  {
    hide SetB32, TopicOctets;
    var s, u := TopicOctets(tp, msk, i), TopicOctets(other, msk', j);
    HashDecides(s, u);
    TopicOctetsIff(tp, msk, i, s);
    TopicOctetsIff(other, msk', j, u);
    TopicOctetsIff(tp, msk, i, u);
    if s != u {
      var hash: seq<Byte> -> Digest :| SetB32(hash(s)).0 != SetB32(hash(u)).0;
      assert TopicKey(hash, tp, msk, i) != TopicKey(hash, other, msk', j);
    }
  }

  /** Two topics of one user have different values under some hash: nothing but the hash links them. */
  lemma TopicsDiffer<P>(tp: Topics<P>, msk: seq<Byte>, i: nat, j: nat)
    requires |msk| == 32 && 0 < i < j && |tp.names| >= 32 * j
    ensures exists hash: seq<Byte> -> Digest :: TopicKey(hash, tp, msk, i) != TopicKey(hash, tp, msk, j)
  {
    hide TopicKey;
    TopicKeyDecides(tp, msk, i, tp, msk, j);
    assert |tp.names[..32 * i]| != |tp.names[..32 * j]|;
  }

  function TopicKeys<P>(hash: seq<Byte> -> Digest, tp: Topics<P>, msk: seq<Byte>): (keys: seq<Scalar>)
    requires |msk| == 32 && |tp.geng| > 0 && |tp.names| == 32 * (|tp.geng| - 1)
    ensures |keys| == |tp.geng|
  {
    seq(|tp.geng|, j requires 0 <= j < |tp.geng| => TopicKey(hash, tp, msk, j))
  }

  /** secp256k1_boquila_gen_DBPoE_mpk: the public key commits to all topic values at once. */
  method GenerateTopicMpk<P(!new, ==)>(g: Group<P>, c: Codec<P>, hash: seq<Byte> -> Digest, tp: Topics<P>,
      msk: seq<Byte>)
    returns (ok: bool, finite: bool, mpk: seq<Byte>)
    requires PrimeOrder(g) && IsCodec(g, c) && TopicsOk(g, tp) && |msk| == 32
    ensures ok <==> !SetB32(msk).1
    ensures ok ==> (finite <==> Regular(g, TopicKeys(hash, tp, msk), tp.geng))
    ensures ok && finite ==> mpk == c.save(Dot(g, TopicKeys(hash, tp, msk), tp.geng))
  {
    hide PrimeOrder, IsCodec, Dot, SetB32;
    ok, finite, mpk := !SetB32(msk).1, true, [];
    if ok {
      var p;
      p, finite := SumOfMultiples(g, TopicKeys(hash, tp, msk), tp.geng);
      mpk := c.save(p);
    }
  }

  function Without<T>(s: seq<T>, t: nat): (r: seq<T>)
    requires t < |s|
    ensures |r| == |s| - 1
  {
    s[..t] + s[t + 1..]
  }

  /** Taking one topic's multiple away leaves the combination of the others. */
  lemma RemoveTopic<P(!new)>(g: Group<P>, keys: seq<Scalar>, ps: seq<P>, t: nat)
    requires PrimeOrder(g) && |keys| == |ps| && t < |ps|
    ensures g.add(Mul(g, Negate(keys[t]), ps[t]), Dot(g, keys, ps)) == Dot(g, Without(keys, t), Without(ps, t))
  {
    hide Mul, Dot, IsGroup;
    var k, p := keys[t], ps[t];
    assert keys == keys[..t] + ([k] + keys[t + 1..]) && ps == ps[..t] + ([p] + ps[t + 1..]);
    DotConcat(g, keys[..t], ps[..t], [k] + keys[t + 1..], [p] + ps[t + 1..]);
    DotConcat(g, keys[..t], ps[..t], keys[t + 1..], ps[t + 1..]);
    DotFront(g, [k] + keys[t + 1..], [p] + ps[t + 1..]);
    assert ([k] + keys[t + 1..])[1..] == keys[t + 1..] && ([p] + ps[t + 1..])[1..] == ps[t + 1..];
    NegatedCancels(g, k, p);
    Collapse(g, Mul(g, Negate(k), p), Dot(g, keys[..t], ps[..t]), Mul(g, k, p), Dot(g, keys[t + 1..], ps[t + 1..]));
  }

  lemma NegatedCancels<P(!new)>(g: Group<P>, k: Scalar, p: P)
    requires PrimeOrder(g)
    ensures g.add(Mul(g, Negate(k), p), Mul(g, k, p)) == g.zero
  {
    hide Mul;
    PrimeKills(g);
    assert Killed(g, p);
    RepSelf(k);
    RepNegate(k, k);
    MulModSelf(g, Negate(k), 0 - (k as int), p);
    MulNeg(g, k, p);
    Inverse(g, Mul(g, k, p));
  }

  lemma Collapse<P(!new)>(g: Group<P>, n: P, front: P, q: P, back: P)
    requires IsGroup(g) && g.add(n, q) == g.zero
    ensures g.add(n, g.add(front, g.add(q, back))) == g.add(front, back)
  {
    Comm(g, n, g.add(front, g.add(q, back)));
    Assoc(g, front, g.add(q, back), n);
    Comm(g, g.add(q, back), n);
    Assoc(g, n, q, back);
    Unit(g, back);
  }

  // A public key less the published value.
  ghost function Shifted<P>(g: Group<P>, c: Codec<P>, base: P, v: Scalar, mpk: seq<Byte>): P {
    g.add(Mul(g, Negate(v), base), c.load(mpk))
  }

  /** The ring of commitments for one topic: every public key less the published value. */
  ghost function TopicRing<P>(g: Group<P>, c: Codec<P>, base: P, v: Scalar,
      mpks: seq<seq<Byte>>): (ring: seq<seq<Byte>>)
    ensures |ring| == |mpks| && forall i :: 0 <= i < |ring| ==> ring[i] == c.save(Shifted(g, c, base, v, mpks[i]))
  {
    seq(|mpks|, i requires 0 <= i < |mpks| => c.save(Shifted(g, c, base, v, mpks[i])))
  }

  // No public key in the ring is just the published value.
  ghost predicate RegularShift<P>(g: Group<P>, c: Codec<P>, base: P, v: Scalar, mpks: seq<seq<Byte>>) {
    forall i :: 0 <= i < |mpks| ==> Shifted(g, c, base, v, mpks[i]) != g.zero
  }

  method ShiftRing<P(!new, ==)>(g: Group<P>, c: Codec<P>, base: P, v: Scalar, mpks: seq<seq<Byte>>)
    returns (ring: seq<seq<Byte>>, finite: bool)
    requires PrimeOrder(g) && IsCodec(g, c) && base != g.zero
    ensures ring == TopicRing(g, c, base, v, mpks) && (finite <==> RegularShift(g, c, base, v, mpks))
  {
    hide PrimeOrder, Mul;
    var shift := Times(g, base, Negate(v));
    ring, finite := [], true;
    for i := 0 to |mpks|
      invariant |ring| == i && forall k :: 0 <= k < i ==> ring[k] == c.save(Shifted(g, c, base, v, mpks[k]))
      invariant finite <==> forall k :: 0 <= k < i ==> Shifted(g, c, base, v, mpks[k]) != g.zero
    {
      assert Loads(g, c, mpks[i]);
      var p := AddGe(g, shift, c.load(mpks[i]));
      ring := ring + [c.save(p)];
      finite := finite && p != g.zero;
    }
  }

  /** What a proof for a topic is shown to: the key derived for the service, a 32-octet value and the service's name. */
  datatype Service = Service(spk: seq<Byte>, w: seq<Byte>, name: seq<Byte>) {
    predicate Sized() {
      |spk| == 33 && |w| == 32
    }

    // What is hashed for the outer challenge.
    function Octets(): seq<Byte> {
      spk + w + name
    }
  }

  /** The outer challenge depends on all three and on nothing else. */
  lemma ServiceDecides(a: Service, b: Service)
    requires a.Sized() && b.Sized()
    ensures (forall hash: seq<Byte> -> Digest :: hash(a.Octets()) == hash(b.Octets())) <==> a == b
  {
    var s, u := a.Octets(), b.Octets();
    if s == u {
      assert s[..33] == a.spk && s[33..65] == a.w && s[65..] == a.name;
      assert u[..33] == b.spk && u[33..65] == b.w && u[65..] == b.name;
    } else {
      DigestDecides(s, u);
    }
  }

  lemma DigestDecides(s: seq<Byte>, u: seq<Byte>)
    requires s != u
    ensures exists hash: seq<Byte> -> Digest :: hash(s) != hash(u)
  {
    HashDecides(s, u);
    var hash: seq<Byte> -> Digest :| SetB32(hash(s)).0 != SetB32(hash(u)).0;
    assert hash(s) != hash(u);
  }

  /** secp256k1_boquila_prove_DBPoE_memmpk: publish the topic's value and prove that it belongs to a key in the ring. */
  method ProveTopic<P(!new, ==)>(g: Group<P>, c: Codec<P>, hash: seq<Byte> -> Digest, ctx: Context<P>, tp: Topics<P>,
      proof: array<Byte>, mpks: seq<seq<Byte>>, index: nat, msk: seq<Byte>, t: nat, m: nat, service: Service,
      random: seq<seq<Byte>>)
    returns (ok: bool, finite: bool, nullifier: seq<Byte>, ghost s: Nonces)
    requires service.Sized()
    requires InputsOk(g, c, ctx, tp.geng) && TopicsOk(g, tp) && |msk| == 32 && m > 0 && RandomOk(random, ctx.n, m)
    requires proof.Length == ProofSize(ctx.n, m, |tp.geng| - 1)
    modifies proof
    ensures ok <==> (0 < t < |tp.geng| - 1 && !SetB32(msk).1 && Provable(ctx, mpks, index, m, random))
    ensures ok ==>
      nullifier == GetB32(TopicKeys(hash, tp, msk)[t]) && Drawn(random, ctx.n, m, s) && Shaped(Restrict(ctx, m), s)
    ensures ok ==> (finite <==> RegularTopicProver(g, c, ctx, tp, mpks, index, TopicKeys(hash, tp, msk)[t], t, m, s))
    ensures ok && finite ==> WrittenBy(g, c, hash, Restrict(ctx, m), Without(tp.geng, t),
      TopicRing(g, c, tp.geng[t], TopicKeys(hash, tp, msk)[t], mpks), index, Without(TopicKeys(hash, tp, msk), t),
        hash(service.Octets()), s, proof[..])
  {
    hide PrimeOrder, IsCodec, Dot, Mul, SetB32, GetB32, TopicKey, Power, WrittenBy, RowsDrawn, RowFirst, RegularProver,
      RegularShift;
    ok, finite, nullifier, s := false, true, [], Nonces(0, 0, 0, 0, [], []);
    if !(0 < t < |tp.geng| - 1) || SetB32(msk).1 {
      return;
    }
    var keys := TopicKeys(hash, tp, msk);
    nullifier := GetB32(keys[t]);
    var ring, clean := ShiftRing(g, c, tp.geng[t], keys[t], mpks);
    ok, finite, s := Create(g, c, hash, ctx, Without(tp.geng, t), proof, ring, index, Without(keys, t), m,
      hash(service.Octets()), random);
    finite := finite && clean;
  }

  // Regular nonces over a regular topic ring.
  ghost predicate RegularTopicProver<P>(g: Group<P>, c: Codec<P>, ctx: Context<P>, tp: Topics<P>,
      mpks: seq<seq<Byte>>, index: nat, v: Scalar, t: nat, m: nat, s: Nonces)
    requires t < |tp.geng| && m <= ctx.m && |ctx.multigen| == ctx.m * ctx.n && Shaped(Restrict(ctx, m), s)
  {
    && RegularShift(g, c, tp.geng[t], v, mpks)
    && RegularProver(g, Restrict(ctx, m), Without(tp.geng, t),
      LoadAll(c, TopicRing(g, c, tp.geng[t], v, mpks)), index, s)
  }

  ghost predicate RegularTopicProof<P(!new)>(g: Group<P>, c: Codec<P>, hash: seq<Byte> -> Digest, ctx: Context<P>,
      tp: Topics<P>, proof: seq<Byte>, mpks: seq<seq<Byte>>, v: Scalar, t: nat, m: nat, outer: seq<Byte>)
    requires ContextOk(g, ctx) && m > 0 && t < |tp.geng| && |proof| == ProofSize(ctx.n, m, |tp.geng| - 1)
  {
    && RegularShift(g, c, tp.geng[t], v, mpks)
    && RegularWithin(g, c, hash, ctx, m, Without(tp.geng, t), TopicRing(g, c, tp.geng[t], v, mpks), hash(outer), proof)
  }

  /** secp256k1_boquila_verify_DBPoE_memmpk */
  method VerifyTopic<P(!new, ==)>(g: Group<P>, c: Codec<P>, hash: seq<Byte> -> Digest, ctx: Context<P>, tp: Topics<P>,
      proof: array<Byte>, mpks: seq<seq<Byte>>, nullifier: seq<Byte>, t: nat, m: nat, service: Service)
    returns (ok: bool, finite: bool)
    requires service.Sized()
    requires InputsOk(g, c, ctx, tp.geng) && TopicsOk(g, tp) && |nullifier| == 32 && m > 0
    requires proof.Length == ProofSize(ctx.n, m, |tp.geng| - 1)
    ensures finite <==>
      (0 < t < |tp.geng| - 1 ==>
        RegularTopicProof(g, c, hash, ctx, tp, proof[..], mpks, SetB32(nullifier).0, t, m, service.Octets()))
    ensures finite ==>
      (ok <==> AcceptsTopic(g, c, hash, ctx, tp, proof[..], mpks, SetB32(nullifier).0, t, m, service.Octets()))
  {
    hide PrimeOrder, IsCodec, Dot, Mul, SetB32, Power, Accepts, RegularShift, RegularWithin;
    ok, finite := false, true;
    if !(0 < t < |tp.geng| - 1) {
      return;
    }
    var ring, clean := ShiftRing(g, c, tp.geng[t], SetB32(nullifier).0, mpks);
    ok, finite := Verify(g, c, hash, ctx, Without(tp.geng, t), proof, ring, m, hash(service.Octets()));
    finite := finite && clean;
  }

  /** Acceptance for a topic, said without the computation; the published value counts modulo the order only. */
  ghost predicate AcceptsTopic<P(!new)>(g: Group<P>, c: Codec<P>, hash: seq<Byte> -> Digest, ctx: Context<P>,
      tp: Topics<P>, proof: seq<Byte>, mpks: seq<seq<Byte>>, v: Scalar, t: nat, m: nat, outer: seq<Byte>)
    requires ContextOk(g, ctx) && m > 0 && |tp.geng| > 0 && |proof| == ProofSize(ctx.n, m, |tp.geng| - 1)
  {
    && 0 < t < |tp.geng| - 1 && |mpks| <= Power(ctx.n, m)
    && AcceptsWithin(g, c, hash, ctx, m, Without(tp.geng, t), TopicRing(g, c, tp.geng[t], v, mpks), hash(outer), proof)
  }

  /** End to end: a proof for a topic, with the value of the topic as nullifier, is accepted exactly when the public key
      at the position was generated from the master key, or the challenge is zero; for every topic except the last. */
  method MemberIsAccepted<P(!new, ==)>(g: Group<P>, c: Codec<P>, hash: seq<Byte> -> Digest, ctx: Context<P>,
      tp: Topics<P>, proof: array<Byte>, mpks: seq<seq<Byte>>, index: nat, msk: seq<Byte>, t: nat, m: nat,
      service: Service, random: seq<seq<Byte>>)
    returns (created: bool, accepted: bool, finite: bool, ghost s: Nonces)
    requires service.Sized()
    requires InputsOk(g, c, ctx, tp.geng) && TopicsOk(g, tp) && |msk| == 32 && m > 0 && RandomOk(random, ctx.n, m)
    requires proof.Length == ProofSize(ctx.n, m, |tp.geng| - 1)
    modifies proof
    ensures created <==> (0 < t < |tp.geng| - 1 && !SetB32(msk).1 && Provable(ctx, mpks, index, m, random))
    ensures created ==> Drawn(random, ctx.n, m, s) && Shaped(Restrict(ctx, m), s)
    ensures created ==> var v := TopicKeys(hash, tp, msk)[t];
      finite <==>
        RegularTopicProver(g, c, ctx, tp, mpks, index, v, t, m, s)
          && RegularTopicProof(g, c, hash, ctx, tp, proof[..], mpks, v, t, m, service.Octets())
    ensures created && finite ==> (accepted <==>
      TopicChallenge(g, c, hash, tp, proof[..], mpks, TopicKeys(hash, tp, msk)[t], t, m, service.Octets()) == 0
      || c.load(mpks[index]) == Dot(g, TopicKeys(hash, tp, msk), tp.geng))
  {
    hide PrimeOrder, IsCodec, Dot, Mul, SetB32, GetB32, TopicKey, Power, WrittenBy, Accepts, RowsDrawn, RowFirst,
      RegularShift, RegularProver, RegularTopicProof, TopicChallenge;
    accepted := false;
    var nullifier;
    created, finite, nullifier, s := ProveTopic(g, c, hash, ctx, tp, proof, mpks, index, msk, t, m, service, random);
    if created {
      var clean := finite;
      accepted, finite := VerifyTopic(g, c, hash, ctx, tp, proof, mpks, nullifier, t, m, service);
      finite := finite && clean;
      ScalarRoundTrip(TopicKeys(hash, tp, msk)[t]);
      if finite {
        MemberVerdict(g, c, hash, ctx, tp, proof[..], mpks, index, msk, t, m, service.Octets(), random, s);
      }
    }
  }

  ghost function TopicChallenge<P>(g: Group<P>, c: Codec<P>, hash: seq<Byte> -> Digest, tp: Topics<P>, proof: seq<Byte>,
      mpks: seq<seq<Byte>>, v: Scalar, t: nat, m: nat, outer: seq<Byte>): Scalar
    requires t < |tp.geng| && |proof| >= 33 * (4 + m)
  {
    Challenge(hash, TopicRing(g, c, tp.geng[t], v, mpks), hash(outer), proof[..33 * (4 + m)])
  }

  lemma MemberVerdict<P(!new)>(g: Group<P>, c: Codec<P>, hash: seq<Byte> -> Digest, ctx: Context<P>, tp: Topics<P>,
      proof: seq<Byte>, mpks: seq<seq<Byte>>, index: nat, msk: seq<Byte>, t: nat, m: nat, outer: seq<Byte>,
      random: seq<seq<Byte>>, s: Nonces)
    requires InputsOk(g, c, ctx, tp.geng) && TopicsOk(g, tp) && |msk| == 32 && 0 < m <= ctx.m && 0 < t < |tp.geng| - 1
    requires index < |mpks| <= Power(ctx.n, m) && Drawn(random, ctx.n, m, s) && Shaped(Restrict(ctx, m), s)
    requires RegularShift(g, c, tp.geng[t], TopicKeys(hash, tp, msk)[t], mpks)
    requires WrittenBy(g, c, hash, Restrict(ctx, m), Without(tp.geng, t),
      TopicRing(g, c, tp.geng[t], TopicKeys(hash, tp, msk)[t], mpks), index, Without(TopicKeys(hash, tp, msk), t),
        hash(outer), s, proof)
    ensures ContextOk(g, Restrict(ctx, m)) && |proof| == ProofSize(ctx.n, m, |tp.geng| - 1)
    ensures Accepts(g, c, hash, Restrict(ctx, m), Without(tp.geng, t),
      TopicRing(g, c, tp.geng[t], TopicKeys(hash, tp, msk)[t], mpks),
        hash(outer), proof) <==>
      TopicChallenge(g, c, hash, tp, proof, mpks, TopicKeys(hash, tp, msk)[t], t, m, outer) == 0
      || c.load(mpks[index]) == Dot(g, TopicKeys(hash, tp, msk), tp.geng)
  {
    hide PrimeOrder, Dot, Mul, TopicKey, Power, WrittenBy, Accepts, RowsDrawn, RowFirst, Challenge;
    var keys := TopicKeys(hash, tp, msk);
    var shift, ring := Mul(g, Negate(keys[t]), tp.geng[t]), TopicRing(g, c, tp.geng[t], keys[t], mpks);
    RemoveTopic(g, keys, tp.geng, t);
    assert Saves(g, c, Shifted(g, c, tp.geng[t], keys[t], mpks[index]));
    assert c.load(ring[index]) == g.add(shift, c.load(mpks[index]));
    assert IsGroup(g) by { GroupOf(g); }
    Cancel(g, shift, c.load(mpks[index]), Dot(g, keys, tp.geng));
    RestrictOk(g, ctx, m);
    HonestProofVerdict(g, c, hash, Restrict(ctx, m), Without(tp.geng, t), ring, index, Without(keys, t), hash(outer), s,
      proof);
  }

  /** secp256k1_boquila_derive_ssk: the secret key for a service. */
  function ServiceSecret(hash: seq<Byte> -> Digest, msk: seq<Byte>, name: seq<Byte>): Digest {
    hash(msk + name)
  }

  /** It depends on the master key and on the whole name, and on nothing else. */
  lemma ServiceSecretDecides(msk: seq<Byte>, name: seq<Byte>, msk': seq<Byte>, name': seq<Byte>)
    requires |msk| == |msk'| == 32
    ensures (forall hash: seq<Byte> -> Digest ::
        ServiceSecret(hash, msk, name) == ServiceSecret(hash, msk', name')) <==>
      msk == msk' && name == name'
  {
    var s, u := msk + name, msk' + name';
    if s == u {
      assert s[..32] == msk && s[32..] == name && u[..32] == msk' && u[32..] == name';
    } else {
      DigestDecides(s, u);
      var hash: seq<Byte> -> Digest :| hash(s) != hash(u);
      assert ServiceSecret(hash, msk, name) != ServiceSecret(hash, msk', name');
    }
  }

  /** secp256k1_boquila_derive_spk on a derived secret key. */
  method DeriveSpk<P(!new, ==)>(g: Group<P>, c: Codec<P>, base: P, csk: seq<Byte>) returns (ok: bool, spk: seq<Byte>)
    requires PrimeOrder(g) && base != g.zero && |csk| == 32
    ensures ok <==> !SetB32(csk).1
    ensures ok ==> spk == c.save(Mul(g, SetB32(csk).0, base))
  {
    hide PrimeOrder, Mul, SetB32;
    ok, spk := !SetB32(csk).1, [];
    if ok {
      var p := Times(g, base, SetB32(csk).0);
      spk := c.save(p);
    }
  }

  function AuthChallenge(hash: seq<Byte> -> Digest, spk: seq<Byte>, chal: seq<Byte>, r: seq<Byte>): Scalar {
    SetB32(hash(spk + chal + r)).0
  }

  /** The challenge of an authentication depends on the service key, on the outer challenge and on the nonce point, and
      on nothing else. */
  lemma AuthChallengeDecides(spk: seq<Byte>, chal: seq<Byte>, r: seq<Byte>, spk': seq<Byte>, chal': seq<Byte>,
      r': seq<Byte>)
    requires |spk| == |spk'| == |r| == |r'| == 33 && |chal| == |chal'| == 32
    ensures (forall hash: seq<Byte> -> Digest ::
        AuthChallenge(hash, spk, chal, r) == AuthChallenge(hash, spk', chal', r')) <==>
      spk == spk' && chal == chal' && r == r'
  {
    hide SetB32;
    var s, u := spk + chal + r, spk' + chal' + r';
    HashDecides(s, u);
    if s != u {
      var hash: seq<Byte> -> Digest :| SetB32(hash(s)).0 != SetB32(hash(u)).0;
      assert AuthChallenge(hash, spk, chal, r) != AuthChallenge(hash, spk', chal', r');
    } else {
      assert s[..33] == spk && s[33..65] == chal && s[65..] == r;
      assert u[..33] == spk' && u[33..65] == chal' && u[65..] == r';
    }
  }

  /** The octets behind it, by their places. */
  lemma AuthChallengeIs(hash: seq<Byte> -> Digest, spk: seq<Byte>, chal: seq<Byte>, r: seq<Byte>, q: seq<Byte>)
    requires |spk| == |r| == 33 && |chal| == 32 && |q| == 98 && q[..33] == spk && q[33..65] == chal && q[65..] == r
    ensures AuthChallenge(hash, spk, chal, r) == SetB32(hash(q)).0
  {
    hide SetB32;
    assert q == q[..33] + q[33..65] + q[65..];
  }

  function AuthResponse(x: Scalar, a: Scalar, ra: Scalar): Scalar {
    ToScalar(x * a + ra)
  }

  /** secp256k1_boquila_auth_prove: a Schnorr signature under the key derived for a service. */
  method AuthProve<P(!new, ==)>(g: Group<P>, c: Codec<P>, hash: seq<Byte> -> Digest, base: P, csk: seq<Byte>,
      r: seq<Byte>, spk: seq<Byte>, chal: seq<Byte>) returns (ok: bool, proof: seq<Byte>)
    requires PrimeOrder(g) && base != g.zero && |csk| == 32 && |r| == 32
    ensures ok <==> !SetB32(csk).1 && SetB32(r).0 != 0
    ensures ok ==> var R := c.save(Mul(g, SetB32(r).0, base));
      proof == R + GetB32(AuthResponse(AuthChallenge(hash, spk, chal, R), SetB32(csk).0, SetB32(r).0))
  {
    hide PrimeOrder, Mul, SetB32, AuthChallenge, ToScalar;
    ok, proof := false, [];
    var a, ra := SetB32(csk), SetB32(r).0;
    if a.1 || ra == 0 {
      return;
    }
    var p := Times(g, base, ra);
    var R := c.save(p);
    var x := AuthChallenge(hash, spk, chal, R);
    var sa := Blinded(x, a.0, ra);
    ok, proof := true, R + GetB32(sa);
  }

  ghost predicate AuthEquation<P>(g: Group<P>, c: Codec<P>, hash: seq<Byte> -> Digest, base: P, proof: seq<Byte>,
      spk: seq<Byte>, chal: seq<Byte>)
    requires |proof| == 65
  {
    var R := proof[..33];
    g.add(Mul(g, AuthChallenge(hash, spk, chal, R), c.load(spk)), c.load(R)) == Mul(g, SetB32(proof[33..]).0, base)
  }

  /** secp256k1_boquila_auth_verify */
  method AuthVerify<P(!new, ==)>(g: Group<P>, c: Codec<P>, hash: seq<Byte> -> Digest, base: P, proof: seq<Byte>,
      spk: seq<Byte>, chal: seq<Byte>)
    returns (ok: bool)
    requires PrimeOrder(g) && IsCodec(g, c) && base != g.zero && |proof| == 65
    ensures ok <==> AuthEquation(g, c, hash, base, proof, spk, chal)
  {
    hide PrimeOrder, Mul, SetB32, AuthChallenge;
    var x := AuthChallenge(hash, spk, chal, proof[..33]);
    assert Loads(g, c, spk) && Loads(g, c, proof[..33]);
    var left := Times(g, c.load(spk), x);
    left := AddGe(g, left, c.load(proof[..33]));
    var right := Times(g, base, SetB32(proof[33..]).0);
    SaveInjective(g, c, left, right);
    ok := c.save(left) == c.save(right);
  }

  /** The signature verifies under exactly one finite key, the signer's, unless the challenge is zero. */
  lemma AuthComplete<P(!new)>(g: Group<P>, c: Codec<P>, hash: seq<Byte> -> Digest, base: P, a: Scalar, ra: Scalar,
      spk: seq<Byte>, chal: seq<Byte>)
    requires PrimeOrder(g) && IsCodec(g, c) && base != g.zero && ra != 0
    ensures var R := c.save(Mul(g, ra, base));
      var x := AuthChallenge(hash, spk, chal, R);
      var proof := R + GetB32(AuthResponse(x, a, ra));
      && |proof| == 65
      && (AuthEquation(g, c, hash, base, proof, spk, chal) <==> x == 0 || c.load(spk) == Mul(g, a, base))
  {
    hide Mul, SetB32, GetB32, AuthChallenge, IsGroup;
    var p := Mul(g, ra, base);
    var R := c.save(p);
    var x := AuthChallenge(hash, spk, chal, R);
    var sa := AuthResponse(x, a, ra);
    SchnorrIdentity(g, base, x, a, ra, sa, c.load(spk));
    assert HasOrderN(g, base);
    NonzeroMultiple(g, base, ra);
    assert Saves(g, c, p);
    hide IsCodec, AuthResponse;
    ScalarRoundTrip(sa);
    var proof := R + GetB32(sa);
    assert proof[..33] == R && proof[33..] == GetB32(sa);
    if x == 0 {
      MulOne(g, c.load(spk));
      MulOne(g, Mul(g, a, base));
    } else if Mul(g, x, c.load(spk)) == Mul(g, x, Mul(g, a, base)) {
      MultipleDecides(g, x, c.load(spk), Mul(g, a, base));
    }
  }

  lemma SchnorrIdentity<P(!new)>(g: Group<P>, base: P, x: Scalar, a: Scalar, ra: Scalar, sa: Scalar, key: P)
    requires PrimeOrder(g) && sa == ToScalar(x * a + ra)
    ensures g.add(Mul(g, x, key), Mul(g, ra, base)) == Mul(g, sa, base) <==>
      Mul(g, x, key) == Mul(g, x, Mul(g, a, base))
  {
    hide Mul, IsGroup;
    PrimeKills(g);
    assert Killed(g, base);
    hide PrimeOrder;
    var p := Mul(g, ra, base);
    MulModSelf(g, sa, x * a + ra, base);
    MulAdd(g, x * a, ra, base);
    MulMul(g, x, a, base);
    Comm(g, Mul(g, x, key), p);
    Comm(g, Mul(g, x * a, base), p);
    Cancel(g, p, Mul(g, x, key), Mul(g, x * a, base));
  }
}
