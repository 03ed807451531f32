/** The verifier of ring membership: read the proof, recompute the challenge, check three equations between points. */
module RingVerifier {
  import opened AbelianGroup
  import opened LinearCombination
  import opened Digits
  import opened Secp256k1
  import opened Bytes
  import opened Strauss
  import opened EcmultConst
  import opened ScalarElement
  import opened RingAlgebra
  import opened RingSpec
  import opened RingCodec
  import opened RingProver

  ghost predicate Equations<P>(g: Group<P>, ctx: Context<P>, bases: seq<P>, cs: seq<P>, tr: Transcript<P>, x: Scalar)
    requires Fitting(ctx, bases, tr)
  {
    RingEquation(g, ctx, bases, cs, tr, x) && LinearEquation(g, ctx, bases, tr, x)
      && BinaryEquation(g, ctx, bases, tr, x)
  }

  ghost predicate FiniteTranscript<P>(g: Group<P>, tr: Transcript<P>) {
    tr.A != g.zero && tr.B != g.zero && tr.C != g.zero && tr.D != g.zero && FinitePoints(g, tr.Q)
  }

  // The scalar section, refused at the first entry that is not canonical.
  method ReadAll(b: array<Byte>, from: nat, count: nat) returns (r: Option<seq<Scalar>>)
    requires from + 32 * count <= b.Length
    ensures r == ReadScalars(b[from..], count)
  {
    hide SetB32;
    var ss: seq<Scalar> := [];
    ghost var all := b[from..];
    assert ReadScalars(all[..0], 0) == Some([]);
    for i := 0 to count
      invariant ReadScalars(all[..32 * i], i) == Some(ss)
    {
      var piece := b[from + 32 * i..from + 32 * i + 32];
      assert piece == all[32 * i..32 * (i + 1)];
      assert all[..32 * (i + 1)][..32 * i] == all[..32 * i] && all[..32 * (i + 1)][32 * i..32 * (i + 1)] == piece;
      var v := SetB32(piece);
      if v.1 {
        ReadFails(all, i + 1, count);
        return None;
      }
      ss := ss + [v.0];
    }
    ReadPrefix(all, count);
    r := Some(ss);
  }

  lemma {:induction false} ReadPrefix(b: seq<Byte>, count: nat)
    requires |b| >= 32 * count
    ensures ReadScalars(b[..32 * count], count) == ReadScalars(b, count)
  {
    hide SetB32;
    if count > 0 {
      var k := 32 * (count - 1);
      SliceOfPrefix(b, k, k + 32);
      assert k + 32 == 32 * count;
    }
  }

  lemma SliceOfPrefix<T>(b: seq<T>, k: nat, e: nat)
    requires k <= e <= |b|
    ensures b[..e][..k] == b[..k] && b[..e][k..e] == b[k..e]
  {
  }

  lemma {:induction false} ReadFails(b: seq<Byte>, i: nat, count: nat)
    requires i <= count && 32 * count <= |b| && ReadScalars(b[..32 * i], i).None?
    ensures ReadScalars(b, count).None?
    decreases count
  {
    if i == count {
      ReadPrefix(b, count);
    } else {
      assert b[..32 * (count - 1)][..32 * i] == b[..32 * i];
      ReadFails(b[..32 * (count - 1)], i, count - 1);
    }
  }

  /** All responses, with the first of every row recomputed from the others. */
  method RebuildResponses(ss: seq<Scalar>, n: nat, m: nat, x: Scalar) returns (f: seq<Scalar>)
    requires n > 0 && |ss| >= m * (n - 1)
    ensures f == Rebuild(ss, n, m, x)
  {
    f := [];
    for j := 0 to m
      invariant 0 <= j * (n - 1) <= |ss| && f == Rebuild(ss, n, j, x)
    {
      Index2(j, n, m);
      var row, tmp := ss[j * (n - 1)..j * (n - 1)], 0 as Scalar;
      EmptySum();
      for i := 1 to n
        invariant row == ss[j * (n - 1)..j * (n - 1) + i - 1] && tmp == Sum(row)
      {
        var v := ss[j * (n - 1) + i - 1];
        SumAppend(row, v);
        row := row + [v];
        tmp := AddS(tmp, v);
      }
      TailIndex(j, n);
      f := f + [AddS(Negate(tmp), x)] + row;
    }
  }

  lemma Index2(j: nat, n: nat, m: nat)
    requires j < m && n > 0
    ensures 0 <= j * (n - 1) && j * (n - 1) + n - 1 <= m * (n - 1)
  {
    MulNonneg(j, n - 1);
    MulNonneg(m - 1 - j, n - 1);
    assert (m - 1 - j) * (n - 1) == m * (n - 1) - (n - 1) - j * (n - 1);
  }

  method Load<P(!new)>(c: Codec<P>, proof: array<Byte>, n: nat, m: nat, k: nat, x: Scalar)
    returns (r: Option<Transcript<P>>)
    requires n > 0 && proof.Length == ProofSize(n, m, k)
    ensures r == Decode(c, proof[..], n, m, k, x)
  {
    hide ReadScalars, Rebuild;
    MulNonneg(m, n - 1);
    var ss := ReadAll(proof, 33 * (4 + m), m * (n - 1) + 2 + k);
    assert proof[..][33 * (4 + m)..] == proof[33 * (4 + m)..];
    match ss
    case None => r := None;
    case Some(v) =>
      var f := RebuildResponses(v, n, m, x);
      var e := m * (n - 1);
      var b := proof[..];
      r := Some(Transcript(PointAt(c, b, 0), PointAt(c, b, 1), PointAt(c, b, 2), PointAt(c, b, 3),
        PointsFrom(c, b, 4, m),
        f, v[e], v[e + 1], v[e + 2..]));
  }

  lemma DecodedFinite<P(!new)>(g: Group<P>, c: Codec<P>, b: seq<Byte>, n: nat, m: nat, k: nat, x: Scalar)
    requires IsCodec(g, c) && n > 0 && |b| == ProofSize(n, m, k) && Decode(c, b, n, m, k, x).Some?
    ensures FiniteTranscript(g, Decode(c, b, n, m, k, x).value)
  {
    hide ReadScalars, Rebuild;
    assert forall i :: 0 <= i < 4 + m ==> Loads(g, c, b[33 * i..33 * i + 33]);
  }

  // -1, -x, -x^2, ...
  method NegatedPowers(x: Scalar, m: nat) returns (v: seq<Scalar>)
    ensures |v| == m && forall j :: 0 <= j < m ==> Rep(v[j], NegPowers(x, m)[j])
  {
    hide Rep, Power;
    v := [];
    var power: Scalar := 1;
    PowerStart(x);
    for j := 0 to m
      invariant |v| == j && Rep(power, Power(x, j)) && forall i :: 0 <= i < j ==> Rep(v[i], NegPowers(x, m)[i])
    {
      RepNegate(power, Power(x, j));
      v := v + [Negate(power)];
      PowerStep(power, x, j);
      power := MulS(power, x);
    }
  }

  lemma PowerStart(x: Scalar)
    ensures Rep(1, Power(x, 0))
  {
  }

  lemma PowerStep(power: Scalar, x: Scalar, j: nat)
    requires Rep(power, Power(x, j))
    ensures Rep(MulS(power, x), Power(x, j + 1))
  {
    RepSelf(x);
    RepMul(power, x, Power(x, j), x);
  }

  method RingWeights(f: seq<Scalar>, n: nat, m: nat, ring: nat) returns (w: seq<Scalar>)
    requires n > 0 && |f| == m * n
    ensures |w| == ring && forall t :: 0 <= t < ring ==> Rep(w[t], Weights(f, n, m, ring)[t])
  {
    hide Rep, Weight;
    w := [];
    for t := 0 to ring
      invariant |w| == t && forall i :: 0 <= i < t ==> Rep(w[i], Weights(f, n, m, ring)[i])
    {
      var v := RingWeight(f, n, m, t);
      w := w + [v];
    }
  }

  method RingWeight(f: seq<Scalar>, n: nat, m: nat, t: nat) returns (w: Scalar)
    requires n > 0 && |f| == m * n
    ensures Rep(w, Weight(f, n, m, t))
  {
    hide Rep, Digit;
    w := 1;
    assert Rep(1, Weight(f, n, 0, t)) by { PowerStart(0); }
    for j := 0 to m
      invariant j * n <= m * n && Rep(w, Weight(f, n, j, t))
    {
      var i := GetJth(j, n, t);
      Index(j, i, n, m);
      TailIndex(j, n);
      RepSelf(f[j * n + i]);
      RepMul(w, f[j * n + i], Weight(f, n, j, t), f[j * n + i]);
      w := MulS(w, f[j * n + i]);
    }
  }

  method BitValues(f: seq<Scalar>, x: Scalar) returns (v: seq<Scalar>)
    ensures |v| == |f| && forall k :: 0 <= k < |f| ==> Rep(v[k], BinaryVec(f, x)[k])
  {
    hide Rep, Bit;
    v := [];
    for k := 0 to |f|
      invariant |v| == k && forall i :: 0 <= i < k ==> Rep(v[i], BinaryVec(f, x)[i])
    {
      var b := BitValue(f[k], x);
      v := v + [b];
    }
  }

  method BitValue(f: Scalar, x: Scalar) returns (b: Scalar)
    ensures Rep(b, Bit(f, x))
  {
    RepSelf(f);
    RepSelf(x);
    ghost var less: int := 0 - (f as int);
    RepNegate(f, f);
    hide ToScalar, MulS, AddS;
    RepAdd(Negate(f), x, less, x);
    RepMul(AddS(Negate(f), x), f, less + x, f);
    assert (less + x) * f == Bit(f, x);
    b := MulS(AddS(Negate(f), x), f);
  }

  lemma DotRep<P(!new)>(g: Group<P>, ss: seq<Scalar>, v: seq<int>, ps: seq<P>)
    requires PrimeOrder(g) && |ss| == |v| == |ps| && forall i :: 0 <= i < |v| ==> Rep(ss[i], v[i])
    ensures Dot(g, ss, ps) == Dot(g, v, ps)
  {
    hide Dot, Mul;
    PrimeKills(g);
    AllKilledList(g, ps);
    forall i | 0 <= i < |v|
      ensures Same(ss[i], v[i])
    {
    }
    DotSame(g, ss, v, ps);
  }

  /** The running sums of the ring equation are finite. */
  ghost predicate RegularRing<P>(g: Group<P>, ctx: Context<P>, bases: seq<P>, cs: seq<P>, tr: Transcript<P>, x: Scalar)
    requires Fitting(ctx, bases, tr)
  {
    Regular(g, NegPowers(x, ctx.m) + Weights(tr.f, ctx.n, ctx.m, |cs|), tr.Q + cs) && Regular(g, tr.z, bases)
  }

  lemma LeftRegular<P(!new)>(g: Group<P>, u: seq<Scalar>, us: seq<int>, qs: seq<P>, v: seq<Scalar>, vs: seq<int>,
      ps: seq<P>)
    requires PrimeOrder(g) && |u| == |us| == |qs| && |v| == |vs| == |ps|
    requires (forall i :: 0 <= i < |u| ==> Rep(u[i], us[i])) && (forall i :: 0 <= i < |v| ==> Rep(v[i], vs[i]))
    ensures Regular(g, u + v, qs + ps) <==> Regular(g, us + vs, qs + ps)
  {
    hide Dot, Mul, Regular;
    PrimeKills(g);
    forall i | 0 <= i < |u|
      ensures Same(u[i], us[i])
    {
      RepSelf(u[i]);
    }
    forall i | 0 <= i < |v|
      ensures Same(v[i], vs[i])
    {
      RepSelf(v[i]);
    }
    hide Same, Rep;
    RegularSame(g, u + v, us + vs, qs + ps);
  }

  method CheckRing<P(!new, ==)>(g: Group<P>, c: Codec<P>, ctx: Context<P>, bases: seq<P>, cs: seq<P>,
      tr: Transcript<P>, x: Scalar)
    returns (ok: bool, finite: bool)
    requires PrimeOrder(g) && IsCodec(g, c) && Fitting(ctx, bases, tr) && ctx.m > 0 && |bases| > 0
    requires FinitePoints(g, bases) && FinitePoints(g, cs) && FiniteTranscript(g, tr)
    ensures finite <==> RegularRing(g, ctx, bases, cs, tr, x)
    ensures finite ==> (ok <==> RingEquation(g, ctx, bases, cs, tr, x))
  {
    hide IsCodec, Dot, Mul, Rep, Weight, Power, Regular, RegularAfter, IsGroup;
    var powers := NegatedPowers(x, ctx.m);
    var left, ok1 := SumOfMultiples(g, powers, tr.Q);
    DotRep(g, powers, NegPowers(x, ctx.m), tr.Q);
    var weights := RingWeights(tr.f, ctx.n, ctx.m, |cs|);
    var ok2;
    left, ok2 := Accumulate(g, left, weights, cs);
    assert cs[..|weights|] == cs;
    DotRep(g, weights, Weights(tr.f, ctx.n, ctx.m, |cs|), cs);
    RegularJoin(g, powers, tr.Q, weights, cs);
    LeftRegular(g, powers, NegPowers(x, ctx.m), tr.Q, weights, Weights(tr.f, ctx.n, ctx.m, |cs|), cs);
    var right, ok3 := SumOfMultiples(g, tr.z, bases);
    SaveInjective(g, c, left, right);
    ok, finite := c.save(left) == c.save(right), ok1 && ok2 && ok3;
  }

  // Both commitment equations have the form x*P + Q = commitment.
  method CheckOpening<P(!new, ==)>(g: Group<P>, c: Codec<P>, ctx: Context<P>, p: P, q: P, x: Scalar, r: Scalar,
      vals: seq<Scalar>, ghost v: seq<int>)
    returns (ok: bool, finite: bool)
    requires PrimeOrder(g) && IsCodec(g, c) && ContextOk(g, ctx) && p != g.zero && q != g.zero
    requires |vals| == |v| == |ctx.multigen| && forall k :: 0 <= k < |v| ==> Rep(vals[k], v[k])
    ensures finite <==> Regular(g, [r] + v, Gens(ctx))
    ensures finite ==> (ok <==> g.add(Mul(g, x, p), q) == Commit(g, ctx, r, v))
  {
    hide PrimeOrder, IsCodec, Mul, Commit, Rep, Regular;
    var left := Times(g, p, x);
    var ok1;
    left, ok1 := AddAffine(g, left, q);
    var right, ok2 := CommitTo(g, ctx, r, vals, v);
    SaveInjective(g, c, left, right);
    ok, finite := c.save(left) == c.save(right), ok1 && ok2;
  }

  /** Acceptance, said without the computation: the string decodes and its transcript satisfies the three equations. */
  ghost predicate Accepts<P(!new)>(g: Group<P>, c: Codec<P>, hash: seq<Byte> -> Digest, ctx: Context<P>,
      bases: seq<P>, ring: seq<seq<Byte>>, chal: seq<Byte>, proof: seq<Byte>)
    requires ContextOk(g, ctx) && |proof| == ProofSize(ctx.n, ctx.m, |bases|)
  {
    var x := Challenge(hash, ring, chal, proof[..33 * (4 + ctx.m)]);
    var tr := Decode(c, proof, ctx.n, ctx.m, |bases|, x);
    tr.Some? && Equations(g, ctx, bases, LoadAll(c, ring), tr.value, x)
  }

  // The running sums of the two commitment equations are finite; the second is only formed if the first holds.
  ghost predicate RegularOpenings<P>(g: Group<P>, ctx: Context<P>, bases: seq<P>, tr: Transcript<P>, x: Scalar)
    requires Fitting(ctx, bases, tr)
  {
    && Regular(g, [tr.zA] + tr.f, Gens(ctx))
    && (LinearEquation(g, ctx, bases, tr, x) ==> Regular(g, [tr.zC] + BinaryVec(tr.f, x), Gens(ctx)))
  }

  /** The verifier never adds infinity in affine form when it reads this transcript: the three equations are formed one
      after the other, and each only if those before it hold. */
  ghost predicate RegularTranscript<P>(g: Group<P>, ctx: Context<P>, bases: seq<P>, cs: seq<P>, tr: Transcript<P>,
      x: Scalar)
    requires Fitting(ctx, bases, tr)
  {
    && RegularRing(g, ctx, bases, cs, tr, x)
    && (RingEquation(g, ctx, bases, cs, tr, x) ==> RegularOpenings(g, ctx, bases, tr, x))
  }

  ghost predicate RegularProof<P(!new)>(g: Group<P>, c: Codec<P>, hash: seq<Byte> -> Digest, ctx: Context<P>,
      bases: seq<P>, ring: seq<seq<Byte>>, chal: seq<Byte>, proof: seq<Byte>)
    requires ContextOk(g, ctx) && |proof| == ProofSize(ctx.n, ctx.m, |bases|)
  {
    var x := Challenge(hash, ring, chal, proof[..33 * (4 + ctx.m)]);
    var tr := Decode(c, proof, ctx.n, ctx.m, |bases|, x);
    tr.Some? ==> RegularTranscript(g, ctx, bases, LoadAll(c, ring), tr.value, x)
  }

  /** A zero response to the first commitment equation starts its right side at infinity, so the proof is not regular as
      soon as that equation is formed. */
  lemma ZeroResponseIrregular<P(!new)>(g: Group<P>, ctx: Context<P>, bases: seq<P>, cs: seq<P>, tr: Transcript<P>,
      x: Scalar)
    requires Fitting(ctx, bases, tr) && |ctx.multigen| > 0 && IsGroup(g)
    requires tr.zA == 0 && RingEquation(g, ctx, bases, cs, tr, x)
    ensures !RegularTranscript(g, ctx, bases, cs, tr, x)
  {
    hide Mul, Dot, IsGroup, RingEquation, RegularRing;
    var v := [tr.zA] + tr.f;
    assert v[..1] == [0] && Gens(ctx)[..1] == [ctx.genh];
    DotZero(g, v[..1], Gens(ctx)[..1]);
    assert |v| > 1;
  }

  /** secp256k1_verify_zero_mcom_proof and its per-topic variant, for m equal to the number of digits of the context. */
  method CheckProof<P(!new, ==)>(g: Group<P>, c: Codec<P>, hash: seq<Byte> -> Digest, ctx: Context<P>, bases: seq<P>,
      proof: array<Byte>, ring: seq<seq<Byte>>, chal: seq<Byte>) returns (ok: bool, finite: bool)
    requires PrimeOrder(g) && IsCodec(g, c) && ContextOk(g, ctx) && |bases| > 0 && FinitePoints(g, bases)
    requires proof.Length == ProofSize(ctx.n, ctx.m, |bases|)
    ensures finite <==> RegularProof(g, c, hash, ctx, bases, ring, chal, proof[..])
    ensures finite ==> (ok <==> Accepts(g, c, hash, ctx, bases, ring, chal, proof[..]))
  {
    hide PrimeOrder, IsCodec, RingEquation, LinearEquation, BinaryEquation, Decode, Challenge, RegularRing,
      RegularOpenings;
    finite := true;
    var x := HashChallenge(hash, ring, chal, proof[..33 * (4 + ctx.m)]);
    assert proof[..][..33 * (4 + ctx.m)] == proof[..33 * (4 + ctx.m)];
    var decoded := Load(c, proof, ctx.n, ctx.m, |bases|, x);
    if decoded.None? {
      return false, true;
    }
    var tr := decoded.value;
    DecodedFinite(g, c, proof[..], ctx.n, ctx.m, |bases|, x);
    LoadedFinite(g, c, ring);
    ok, finite := CheckRing(g, c, ctx, bases, LoadAll(c, ring), tr, x);
    if !ok {
      return;
    }
    var more;
    ok, more := CheckCommitments(g, c, ctx, bases, tr, x);
    finite := finite && more;
  }

  method CheckCommitments<P(!new, ==)>(g: Group<P>, c: Codec<P>, ctx: Context<P>, bases: seq<P>, tr: Transcript<P>,
      x: Scalar)
    returns (ok: bool, finite: bool)
    requires PrimeOrder(g) && IsCodec(g, c) && ContextOk(g, ctx) && Fitting(ctx, bases, tr) && FiniteTranscript(g, tr)
    ensures finite <==> RegularOpenings(g, ctx, bases, tr, x)
    ensures finite ==> (ok <==> LinearEquation(g, ctx, bases, tr, x) && BinaryEquation(g, ctx, bases, tr, x))
  {
    hide PrimeOrder, IsCodec, Mul, Commit, Regular;
    forall k | 0 <= k < |tr.f|
      ensures Rep(tr.f[k], tr.f[k])
    {
      RepSelf(tr.f[k]);
    }
    ok, finite := CheckOpening(g, c, ctx, tr.B, tr.A, x, tr.zA, tr.f, tr.f);
    if !ok {
      return;
    }
    var bits := BitValues(tr.f, x);
    var more;
    ok, more := CheckOpening(g, c, ctx, tr.C, tr.D, x, tr.zC, bits, BinaryVec(tr.f, x));
    finite := finite && more;
  }
}
