/** Creating and verifying membership proofs as byte strings; what one writes the other accepts. */
module RingProof {
  import opened AbelianGroup
  import opened LinearCombination
  import opened Digits
  import opened Secp256k1
  import opened Bytes
  import opened Strauss
  import opened EcmultConst
  import opened ScalarElement
  import opened RingAlgebra
  import opened RingSpec
  import opened RingCodec
  import opened RingProver

  /** The points of a proof, which are fixed before the challenge is known. */
  ghost function HonestPoints<P>(g: Group<P>, ctx: Context<P>, bases: seq<P>, cs: seq<P>, index: nat,
      s: Nonces): (ps: seq<P>)
    requires Shaped(ctx, s)
    ensures |ps| == 4 + ctx.m
  {
    Points(HonestTranscript(g, ctx, bases, cs, index, [], s, 0))
  }

  lemma PointsBeforeChallenge<P>(g: Group<P>, ctx: Context<P>, bases: seq<P>, cs: seq<P>, index: nat,
      keys: seq<Scalar>, s: Nonces, x: Scalar)
    requires Shaped(ctx, s)
    ensures Points(HonestTranscript(g, ctx, bases, cs, index, keys, s, x)) == HonestPoints(g, ctx, bases, cs, index, s)
  {
    hide HonestQ, Commit;
    assert HonestTranscript(g, ctx, bases, cs, index, keys, s, x).Q
      == HonestTranscript(g, ctx, bases, cs, index, [], s, 0).Q;
  }

  method WriteAt(buf: array<Byte>, at: nat, b: seq<Byte>)
    requires at + |b| <= buf.Length
    modifies buf
    ensures buf[..] == old(buf[..at]) + b + old(buf[at + |b|..])
  {
    for i := 0 to |b|
      invariant buf[..at + i] == old(buf[..at]) + b[..i]
      invariant buf[at + i..] == old(buf[at + i..])
    {
      buf[at + i] := b[i];
      assert buf[..at + i + 1] == buf[..at + i] + [b[i]];
      assert b[..i + 1] == b[..i] + [b[i]];
    }
    assert b[..|b|] == b;
    assert buf[..] == buf[..at + |b|] + buf[at + |b|..];
  }

  method WritePoints<P(!new)>(g: Group<P>, c: Codec<P>, buf: array<Byte>, ps: seq<P>) returns (pointer: nat)
    requires IsCodec(g, c) && 33 * |ps| <= buf.Length
    modifies buf
    ensures pointer == 33 * |ps| && buf[..pointer] == PointBytes(c, ps)
  {
    hide IsCodec;
    pointer := 0;
    for i := 0 to |ps|
      invariant pointer == 33 * i && buf[..pointer] == PointBytes(c, ps[..i])
    {
      SaveLength(g, c, ps[i]);
      WriteAt(buf, pointer, c.save(ps[i]));
      pointer := pointer + 33;
      PointBytesAppend(c, ps[..i], ps[i]);
      assert ps[..i] + [ps[i]] == ps[..i + 1];
    }
    assert ps[..|ps|] == ps;
  }

  lemma SaveLength<P(!new)>(g: Group<P>, c: Codec<P>, p: P)
    requires IsCodec(g, c)
    ensures |c.save(p)| == 33
  {
    assert Saves(g, c, p);
  }

  method WriteScalars(buf: array<Byte>, at: nat, ss: seq<Scalar>)
    requires at + 32 * |ss| <= buf.Length
    modifies buf
    ensures buf[..at + 32 * |ss|] == old(buf[..at]) + ScalarBytes(ss)
  {
    hide GetB32;
    var pointer := at;
    for i := 0 to |ss|
      invariant pointer == at + 32 * i && buf[..pointer] == old(buf[..at]) + ScalarBytes(ss[..i])
    {
      WriteAt(buf, pointer, GetB32(ss[i]));
      pointer := pointer + 32;
      ScalarBytesAppend(ss[..i], ss[i]);
      assert ss[..i] + [ss[i]] == ss[..i + 1];
    }
    assert ss[..|ss|] == ss;
  }

  // The running sums of the four commitments are finite.
  ghost predicate RegularCommitments<P>(g: Group<P>, ctx: Context<P>, index: nat, s: Nonces)
    requires Shaped(ctx, s)
  {
    && Regular(g, [s.rA] + s.a, Gens(ctx)) && Regular(g, [s.rB] + DeltaVec(ctx.n, ctx.m, index), Gens(ctx))
    && Regular(g, [s.rC] + MixedVec(s.a, ctx.n, index), Gens(ctx)) && Regular(g, [s.rD] + SquareVec(s.a), Gens(ctx))
  }

  /** The nonces never make the prover add infinity in affine form, nor write it: what secp256k1_gej_add_ge and the
      encoding of points demand. */
  ghost predicate RegularProver<P>(g: Group<P>, ctx: Context<P>, bases: seq<P>, cs: seq<P>, index: nat, s: Nonces)
    requires Shaped(ctx, s)
  {
    && RegularCommitments(g, ctx, index, s) && (forall j :: 0 <= j < ctx.m ==> RegularQ(g, ctx, bases, cs, index, s, j))
    && FinitePoints(g, HonestPoints(g, ctx, bases, cs, index, s))
  }

  /** All points of the proof: four commitments and one coefficient point per digit. */
  method CommitPhase<P(!new, ==)>(g: Group<P>, ctx: Context<P>, bases: seq<P>, cs: seq<P>, index: nat, s: Nonces,
      delta: seq<Scalar>)
    returns (ps: seq<P>, finite: bool)
    requires PrimeOrder(g) && ContextOk(g, ctx) && Shaped(ctx, s) && |bases| > 0 && FinitePoints(g, bases)
    requires FinitePoints(g, cs)
    requires |delta| == ctx.m * ctx.n && forall k :: 0 <= k < |delta| ==> delta[k] == DeltaAt(k, ctx.n, index)
    ensures |ps| == 4 + ctx.m
    ensures finite <==> RegularProver(g, ctx, bases, cs, index, s)
    ensures finite ==> ps == HonestPoints(g, ctx, bases, cs, index, s) && FinitePoints(g, ps)
  {
    hide PrimeOrder, Dot, Mul, Commit, HonestQ, ContextOk, TableOk, DeltaAt, RegularQ, RegularCommitments;
    var table := RingTable(s.a, ctx.n, ctx.m, index, |cs|);
    ghost var tr := HonestTranscript(g, ctx, bases, cs, index, [], s, 0);
    ps, finite := Commitments(g, ctx, index, s, delta);
    for j := 0 to ctx.m
      invariant |ps| == 4 + j && (finite ==> ps == Points(tr)[..4 + j])
      invariant finite <==>
        RegularCommitments(g, ctx, index, s) && forall i :: 0 <= i < j ==> RegularQ(g, ctx, bases, cs, index, s, i)
    {
      var Q, ok := CoefficientPoint(g, ctx, bases, cs, index, s, table, j);
      ps, finite := ps + [Q], finite && ok;
    }
    assert Points(tr)[..4 + ctx.m] == Points(tr);
    finite := finite && AllFinite(g, ps);
  }

  predicate AllFinite<P(==)>(g: Group<P>, ps: seq<P>)
    ensures AllFinite(g, ps) <==> FinitePoints(g, ps)
  {
    |ps| == 0 || (ps[|ps| - 1] != g.zero && AllFinite(g, ps[..|ps| - 1]))
  }

  method Commitments<P(!new, ==)>(g: Group<P>, ctx: Context<P>, index: nat, s: Nonces,
      delta: seq<Scalar>) returns (ps: seq<P>, finite: bool)
    requires PrimeOrder(g) && ContextOk(g, ctx) && Shaped(ctx, s)
    requires |delta| == ctx.m * ctx.n && forall k :: 0 <= k < |delta| ==> delta[k] == DeltaAt(k, ctx.n, index)
    ensures |ps| == 4
    ensures finite <==> RegularCommitments(g, ctx, index, s)
    ensures finite ==> ps == [Commit(g, ctx, s.rA, s.a), Commit(g, ctx, s.rB, DeltaVec(ctx.n, ctx.m, index)),
      Commit(g, ctx, s.rC, MixedVec(s.a, ctx.n, index)), Commit(g, ctx, s.rD, SquareVec(s.a))]
  {
    hide PrimeOrder, Dot, Mul, Commit, DeltaAt, Regular;
    forall k | 0 <= k < |delta|
      ensures Rep(delta[k], DeltaVec(ctx.n, ctx.m, index)[k]) && Rep(s.a[k], s.a[k])
    {
      RepSelf(delta[k]);
      RepSelf(s.a[k]);
    }
    hide Rep;
    var B, okB := CommitTo(g, ctx, s.rB, delta, DeltaVec(ctx.n, ctx.m, index));
    var A, okA := CommitTo(g, ctx, s.rA, s.a, s.a);
    var mixed := MixedValues(s.a, delta, ctx.n, index);
    var C, okC := CommitTo(g, ctx, s.rC, mixed, MixedVec(s.a, ctx.n, index));
    var squares := SquareValues(s.a);
    var D, okD := CommitTo(g, ctx, s.rD, squares, SquareVec(s.a));
    ps, finite := [A, B, C, D], okA && okB && okC && okD;
  }

  ghost predicate InputsOk<P(!new)>(g: Group<P>, c: Codec<P>, ctx: Context<P>, bases: seq<P>) {
    PrimeOrder(g) && IsCodec(g, c) && ContextOk(g, ctx) && |bases| > 0 && FinitePoints(g, bases)
  }

  lemma RestrictOk<P(!new)>(g: Group<P>, ctx: Context<P>, m: nat)
    requires ContextOk(g, ctx) && 0 < m <= ctx.m
    ensures ContextOk(g, Restrict(ctx, m))
  {
  }

  predicate RandomOk(random: seq<seq<Byte>>, n: nat, m: nat) {
    |random| == 4 + m * n && forall i :: 0 <= i < |random| ==> |random[i]| == 32
  }

  /** The whole proof an honest prover writes, including the challenge it derives. */
  ghost predicate WrittenBy<P>(g: Group<P>, c: Codec<P>, hash: seq<Byte> -> Digest, ctx: Context<P>, bases: seq<P>,
      ring: seq<seq<Byte>>, index: nat, keys: seq<Scalar>, chal: seq<Byte>, s: Nonces, proof: seq<Byte>)
    requires Shaped(ctx, s)
  {
    var cs := LoadAll(c, ring);
    var points := HonestPoints(g, ctx, bases, cs, index, s);
    var x := Challenge(hash, ring, chal, PointBytes(c, points));
    FinitePoints(g, points) && proof == Encode(c, HonestTranscript(g, ctx, bases, cs, index, keys, s, x), ctx.n, ctx.m)
  }

  /** secp256k1_create_zero_mcom_proof, and with several bases its per-topic variant.  Rings larger than n^m, positions
      outside the ring, too many digits and a last nonce beyond the group order are refused.  finite tells whether the
      nonces are regular; only then is every addition within its precondition and the proof the honest one. */
  method Create<P(!new, ==)>(g: Group<P>, c: Codec<P>, hash: seq<Byte> -> Digest, ctx: Context<P>, bases: seq<P>,
      proof: array<Byte>, ring: seq<seq<Byte>>, index: nat, keys: seq<Scalar>, m: nat, chal: seq<Byte>,
      random: seq<seq<Byte>>)
    returns (ok: bool, finite: bool, s: Nonces)
    requires InputsOk(g, c, ctx, bases) && |keys| == |bases| && m > 0 && RandomOk(random, ctx.n, m)
    requires proof.Length == ProofSize(ctx.n, m, |keys|)
    modifies proof
    ensures ok <==> |ring| <= Power(ctx.n, m) && index < |ring| && m <= ctx.m && !SetB32(random[|random| - 1]).1
    ensures ok ==> Drawn(random, ctx.n, m, s) && Shaped(Restrict(ctx, m), s)
    ensures !ok ==> finite
    ensures ok ==> (finite <==> RegularProver(g, Restrict(ctx, m), bases, LoadAll(c, ring), index, s))
    ensures ok && finite ==> WrittenBy(g, c, hash, Restrict(ctx, m), bases, ring, index, keys, chal, s, proof[..])
  {
    hide Power, SetB32, RowsDrawn, RowFirst, RegularProver;
    ok, finite, s := false, true, Nonces(0, 0, 0, 0, [], []);
    var capacity := Capacity(ctx.n, m);
    if capacity < |ring| || index >= |ring| || m > ctx.m {
      return;
    }
    var overflow;
    s, overflow := DrawNonces(random, ctx.n, m);
    if overflow {
      return;
    }
    ok := true;
    RestrictOk(g, ctx, m);
    finite := CreateWith(g, c, hash, Restrict(ctx, m), bases, proof, ring, index, keys, chal, s);
  }

  method CreateWith<P(!new, ==)>(g: Group<P>, c: Codec<P>, hash: seq<Byte> -> Digest, ctx: Context<P>, bases: seq<P>,
      proof: array<Byte>, ring: seq<seq<Byte>>, index: nat, keys: seq<Scalar>, chal: seq<Byte>, s: Nonces)
    returns (finite: bool)
    requires InputsOk(g, c, ctx, bases) && |keys| == |bases| && Shaped(ctx, s)
    requires proof.Length == ProofSize(ctx.n, ctx.m, |keys|)
    modifies proof
    ensures finite <==> RegularProver(g, ctx, bases, LoadAll(c, ring), index, s)
    ensures finite ==> WrittenBy(g, c, hash, ctx, bases, ring, index, keys, chal, s, proof[..])
  {
    hide PrimeOrder, IsCodec, Commit, HonestQ, DeltaAt, RhoSum, Power, PointBytes, ScalarBytes, HonestPoints,
      Challenge, RegularProver;
    LoadedFinite(g, c, ring);
    var cs := LoadAll(c, ring);
    var delta := DeltaValues(ctx.n, ctx.m, index);
    var points;
    points, finite := CommitPhase(g, ctx, bases, cs, index, s, delta);
    MulNonneg(ctx.m, ctx.n - 1);
    var pointer := WritePoints(g, c, proof, points);
    var x := HashChallenge(hash, ring, chal, proof[..pointer]);
    var f := Respond(s.a, delta, x, s, ctx.n, index);
    var zA := Blinded(x, s.rB, s.rA);
    var zC := Blinded(x, s.rC, s.rD);
    var z := AllOpenings(keys, s.rho, x);
    WriteScalars(proof, pointer, Tail(f, ctx.n, ctx.m) + [zA, zC] + z);
    assert proof[..] == proof[..proof.Length];
    PointsBeforeChallenge(g, ctx, bases, cs, index, keys, s, x);
  }
}
