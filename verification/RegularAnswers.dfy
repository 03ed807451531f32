/** Answers of a prover without keys that never make the verifier add infinity: in a large enough group the challenges
    and the nonces can be chosen so. */
module RegularAnswers {
  import opened AbelianGroup
  import opened LinearCombination
  import opened Digits
  import opened Secp256k1
  import opened Strauss
  import opened EcmultConst
  import opened ScalarElement
  import opened RingAlgebra
  import opened RingSpec
  import opened RingCodec
  import opened RingProver
  import opened RingSoundness
  import opened RingVerifier
  import opened RingBinding
  import opened Membership
  import opened PlainProofs
  import opened MissingPositions

  lemma {:induction false} FreshBelow(taken: seq<int>, n: nat) returns (r: nat)
    requires |taken| < n
    ensures r < n && r !in taken
  {
    if n - 1 !in taken {
      r := n - 1;
    } else {
      var i :| 0 <= i < |taken| && taken[i] == n - 1;
      r := FreshBelow(taken[..i] + taken[i + 1..], n - 1);
      assert taken == taken[..i] + [n - 1] + taken[i + 1..];
    }
  }

  lemma {:induction false} PickDistinct(taken: seq<Scalar>, count: nat) returns (xs: seq<Scalar>)
    requires |taken| + count <= N
    ensures |xs| == count && Distinct(xs) && forall e :: 0 <= e < |xs| ==> xs[e] !in taken
  {
    xs := [];
    if count > 0 {
      xs := PickDistinct(taken, count - 1);
      var r := FreshBelow(taken + xs, N);
      xs := xs + [r];
    }
  }

  // The only scalar that takes p to the inverse of q, if there is one.
  ghost predicate Solves<P>(g: Group<P>, p: P, q: P, s: Scalar) {
    g.add(Mul(g, s, p), q) == g.zero
  }

  ghost function Root<P(!new)>(g: Group<P>, p: P, q: P): Scalar {
    if exists s: Scalar :: Solves(g, p, q, s) then var s: Scalar :| Solves(g, p, q, s); s else 0
  }

  lemma OneRoot<P(!new)>(g: Group<P>, p: P, q: P, s: Scalar)
    requires PrimeOrder(g) && (p != g.zero || q != g.zero) && Solves(g, p, q, s)
    ensures s == Root(g, p, q)
  {
    hide Mul, IsGroup;
    var r := Root(g, p, q);
    if p == g.zero {
      MulZero(g, s);
      Unit(g, q);
    } else {
      SameMultiple(g, p, q, s, r);
    }
  }

  // The first k generators.
  ghost function Cut<P>(ctx: Context<P>, k: nat): (r: Context<P>)
    requires k <= |ctx.multigen|
    ensures |r.multigen| == k && Gens(r) == Gens(ctx)[..k + 1]
  {
    Context(ctx.n, ctx.m, ctx.multigen[..k], ctx.genh)
  }

  ghost function DigitPrefix<P>(g: Group<P>, ctx: Context<P>, index: nat, r: Scalar, k: nat): P
    requires ctx.n > 0 && |ctx.multigen| == ctx.m * ctx.n && k <= |ctx.multigen|
  {
    Commit(g, Cut(ctx, k), r, DeltaVec(ctx.n, ctx.m, index)[..k])
  }

  /** A challenge that no running sum of the two commitment equations solves. */
  ghost predicate ClearChallenge<P>(g: Group<P>, ctx: Context<P>, index: nat, r: Scalar, x: Scalar)
    requires ctx.n > 0 && |ctx.multigen| == ctx.m * ctx.n
  {
    && x != 0 && x != N - 1
    && forall k :: 0 <= k < |ctx.multigen| ==> !Solves(g, DigitPrefix(g, ctx, index, r, k), ctx.genh, x)
  }

  // No running sum of the blinding factors of the coefficient points vanishes.
  ghost predicate ClearSums<P>(g: Group<P>, b: P, rho: seq<Scalar>, x: Scalar) {
    forall k :: 0 < k <= |rho| ==> Mul(g, RhoSum(rho, x, k), b) != g.zero
  }

  lemma ClearChallenges<P(!new)>(g: Group<P>, ctx: Context<P>, index: nat, r: Scalar, count: nat)
    returns (xs: seq<Scalar>)
    requires PrimeOrder(g) && ContextOk(g, ctx) && |ctx.multigen| + 2 + count <= N
    ensures |xs| == count && Distinct(xs) && forall e :: 0 <= e < |xs| ==> ClearChallenge(g, ctx, index, r, xs[e])
  {
    hide PrimeOrder, Mul, Commit, Distinct, DeltaVec;
    var roots := seq(|ctx.multigen|, k requires 0 <= k < |ctx.multigen| => Root(g, DigitPrefix(g, ctx, index, r, k),
      ctx.genh));
    var taken := [0, N - 1] + roots;
    xs := PickDistinct(taken, count);
    forall e, k | 0 <= e < |xs| && 0 <= k < |ctx.multigen|
      ensures xs[e] != 0 && xs[e] != N - 1 && !Solves(g, DigitPrefix(g, ctx, index, r, k), ctx.genh, xs[e])
    {
      assert taken[0] == 0 && taken[1] == N - 1 && taken[2 + k] == roots[k];
      if Solves(g, DigitPrefix(g, ctx, index, r, k), ctx.genh, xs[e]) {
        OneRoot(g, DigitPrefix(g, ctx, index, r, k), ctx.genh, xs[e]);
      }
    }
    assert taken[0] == 0 && taken[1] == N - 1;
  }

  lemma {:induction false} RhoPrefix(rho: seq<Scalar>, r: Scalar, x: int, k: nat)
    requires k <= |rho|
    ensures RhoSum(rho + [r], x, k) == RhoSum(rho, x, k)
  {
    if k > 0 {
      RhoPrefix(rho, r, x, k - 1);
    }
  }

  lemma RhoNext<P(!new)>(g: Group<P>, b: P, rho: seq<Scalar>, r: Scalar, x: Scalar)
    requires IsGroup(g)
    ensures Mul(g, RhoSum(rho + [r], x, |rho| + 1), b)
      == g.add(Mul(g, r, OpeningPoint(g, x, |rho|, b)), Mul(g, RhoSum(rho, x, |rho|), b))
  {
    hide Mul, IsGroup, Power;
    RhoPrefix(rho, r, x, |rho|);
    MulMul(g, r, Power(x, |rho|), b);
    MulAdd(g, r * Power(x, |rho|), RhoSum(rho, x, |rho|), b);
  }

  lemma PowerKeeps<P(!new)>(g: Group<P>, x: Scalar, m: nat, b: P)
    requires PrimeOrder(g) && x != 0 && b != g.zero
    ensures OpeningPoint(g, x, m, b) != g.zero
  {
    hide Mul, PrimeOrder;
    GroupOf(g);
    if m == 0 {
      MulOne(g, b);
    } else {
      OpeningDecides(g, x, m, b, g.zero);
      MulZero(g, Power(x, m));
    }
  }

  /** Blinding factors, none zero, that keep the running sums finite under all the challenges. */
  lemma {:induction false} PickRho<P(!new)>(g: Group<P>, b: P, xs: seq<Scalar>, m: nat) returns (rho: seq<Scalar>)
    requires PrimeOrder(g) && b != g.zero && 0 !in xs && |xs| + 1 < N
    ensures |rho| == m && NoneZero(rho) && forall e :: 0 <= e < |xs| ==> ClearSums(g, b, rho, xs[e])
  {
    hide Mul, PrimeOrder, RhoSum, Power, OpeningPoint, Root;
    rho := [];
    if m > 0 {
      var front := PickRho(g, b, xs, m - 1);
      var roots := seq(|xs|, e requires 0 <= e < |xs| =>
        Root(g, OpeningPoint(g, xs[e], m - 1, b), Mul(g, RhoSum(front, xs[e], m - 1), b)));
      var taken := [0] + roots;
      var r := FreshBelow(taken, N);
      assert taken[0] == 0;
      rho := front + [r];
      GroupOf(g);
      forall e | 0 <= e < |xs|
        ensures ClearSums(g, b, rho, xs[e])
      {
        assert taken[1 + e] == roots[e];
        PowerKeeps(g, xs[e], m - 1, b);
        ClearNext(g, b, front, r, xs[e]);
      }
    }
  }

  lemma ClearNext<P(!new)>(g: Group<P>, b: P, front: seq<Scalar>, r: Scalar, x: Scalar)
    requires PrimeOrder(g) && ClearSums(g, b, front, x) && OpeningPoint(g, x, |front|, b) != g.zero
    requires r != Root(g, OpeningPoint(g, x, |front|, b), Mul(g, RhoSum(front, x, |front|), b))
    ensures ClearSums(g, b, front + [r], x)
  {
    hide Mul, PrimeOrder, RhoSum, Power, OpeningPoint, Root;
    var rho := front + [r];
    GroupOf(g);
    RhoNext(g, b, front, r, x);
    var p, q := OpeningPoint(g, x, |front|, b), Mul(g, RhoSum(front, x, |front|), b);
    if Solves(g, p, q, r) {
      OneRoot(g, p, q, r);
    }
    forall k | 0 < k <= |rho|
      ensures Mul(g, RhoSum(rho, x, k), b) != g.zero
    {
      if k <= |front| {
        RhoPrefix(front, r, x, k);
      }
    }
  }

  lemma KeylessQs<P(!new)>(g: Group<P>, ctx: Context<P>, bases: seq<P>, cs: seq<P>, index: nat, s: Nonces, x: Scalar,
      j: nat)
    requires IsGroup(g) && Shaped(ctx, s) && s.a == Zeros(|ctx.multigen|) && |bases| > 0 && j <= ctx.m
    ensures var tr := Keyless(g, ctx, bases, cs, index, s, x);
      Dot(g, NegPowers(x, j), tr.Q[..j]) == g.neg(Mul(g, RhoSum(s.rho, x, j), bases[0]))
  {
    hide Dot, Mul, IsGroup, HonestQ, Power, RhoSum, Eval, HonestAnswers, Responds, HonestTranscript, Offsets, Slopes;
    var tr := Keyless(g, ctx, bases, cs, index, s, x);
    KeylessFits(g, ctx, bases, cs, index, s, x);
    SumOfQs(g, ctx, bases[..1], cs, index, s, x, tr.Q, j);
    var e, r := NegEvals(s.a, ctx.n, ctx.m, index, |cs|, j, x), RhoSum(s.rho, x, j);
    forall t | 0 <= t < |cs|
      ensures e[t] == 0
    {
      PlainOffsets(s.a, ctx.n, ctx.m, t);
      NoLowValue(Offsets(s.a, ctx.n, ctx.m, t), Slopes(ctx.n, ctx.m, index, t), j, x);
    }
    DotZero(g, e, cs);
    Unit(g, RhoPart(g, s.rho, x, j, bases[..1]));
    DotAppend(g, [], [], -r, bases[0]);
    assert Repeated(-r, 1) == [] + [-r] && bases[..1] == [] + [bases[0]];
    Unit(g, Mul(g, -r, bases[0]));
    MulNeg(g, r, bases[0]);
    assert Dot(g, [], []) == g.zero by { DotZero(g, [], []); }
  }

  lemma {:induction false} NoLowValue(xs: seq<int>, ds: seq<int>, k: nat, x: int)
    requires |xs| == |ds| && k <= |xs| && forall i :: 0 <= i < |xs| ==> xs[i] == 0
    ensures Eval(xs, ds, k, x) == 0
  {
    if k > 0 {
      NoLowValue(xs, ds, k - 1, x);
      NoLowCoefficient(xs, ds, k - 1);
    }
  }

  // An unmasked response is the challenge at the digits of the position and zero elsewhere.
  lemma PlainResponse(s: Nonces, n: nat, index: nat, x: Scalar, f: seq<Scalar>, k: nat)
    requires n > 0 && Responds(s, n, index, x, f) && k < |f| && s.a[k] == 0
    ensures f[k] == if DeltaAt(k, n, index) == 1 then x else 0
  {
    hide DeltaAt, ToScalar;
    assert Rep(f[k], DeltaAt(k, n, index) * x + s.a[k]);
    RepSelf(x);
    RepSelf(0);
  }

  lemma {:induction false} ZeroWeight(f: seq<int>, n: nat, m: nat, t: nat, j: nat)
    requires n > 0 && |f| >= m * n && j < m && 0 <= j * n + Digit(j, n, t) < |f| && f[j * n + Digit(j, n, t)] == 0
    ensures Weight(f, n, m, t) == 0
  {
    hide Digit;
    Index(m - 1, Digit(m - 1, n, t), n, m);
    if j < m - 1 {
      ZeroWeight(f, n, m - 1, t, j);
    }
  }

  // Off the position of the prover every weight is zero.
  lemma PlainWeight(s: Nonces, n: nat, m: nat, index: nat, x: Scalar, f: seq<Scalar>, t: nat)
    requires n > 0 && |f| == |s.a| == m * n && Responds(s, n, index, x, f) && s.a == Zeros(m * n)
    requires t < Power(n, m) && index < Power(n, m) && t != index
    ensures Weight(f, n, m, t) == 0
  {
    hide Digit, Power, Weight, Responds;
    if forall j :: 0 <= j < m ==> SameDigit(j, n, t, index) {
      DigitsDetermine(m, n, t, index);
      assert false;
    } else {
      var j :| 0 <= j < m && !SameDigit(j, n, t, index);
      var d := Digit(j, n, t);
      Index(j, d, n, m);
      FlatIndex(j, d, n);
      PlainResponse(s, n, index, x, f, j * n + d);
      ZeroWeight(f, n, m, t, j);
    }
  }

  // A negated point is finite when the point is.
  lemma NegFinite<P(!new)>(g: Group<P>, p: P)
    requires IsGroup(g) && p != g.zero
    ensures g.neg(p) != g.zero
  {
    NegNeg(g, p);
    NegNeg(g, g.zero);
  }

  lemma KeylessLeft<P(!new)>(g: Group<P>, ctx: Context<P>, bases: seq<P>, cs: seq<P>, index: nat, s: Nonces, x: Scalar)
    requires IsGroup(g) && Shaped(ctx, s) && s.a == Zeros(|ctx.multigen|) && |bases| > 0
    requires |cs| <= index < Power(ctx.n, ctx.m) && ClearSums(g, bases[0], s.rho, x)
    ensures var tr := Keyless(g, ctx, bases, cs, index, s, x);
      Regular(g, NegPowers(x, ctx.m) + Weights(tr.f, ctx.n, ctx.m, |cs|), tr.Q + cs)
  {
    hide Dot, Mul, IsGroup, HonestQs, Power, RhoSum, HonestAnswers, Responds, Keyless, Weight, Openings;
    var tr, m := Keyless(g, ctx, bases, cs, index, s, x), ctx.m;
    KeylessFits(g, ctx, bases, cs, index, s, x);
    var w := Weights(tr.f, ctx.n, m, |cs|);
    forall k | 0 < k <= m
      ensures Dot(g, NegPowers(x, m)[..k], tr.Q[..k]) != g.zero
    {
      KeylessQs(g, ctx, bases, cs, index, s, x, k);
      NegFinite(g, Mul(g, RhoSum(s.rho, x, k), bases[0]));
      assert NegPowers(x, m)[..k] == NegPowers(x, k);
    }
    assert NegPowers(x, m)[..m] == NegPowers(x, m) && tr.Q[..m] == tr.Q;
    forall t | 0 <= t < |cs|
      ensures w[t] == 0
    {
      PlainWeight(s, ctx.n, m, index, x, tr.f, t);
    }
    forall k | 0 <= k < |cs|
      ensures g.add(Dot(g, NegPowers(x, m), tr.Q), Dot(g, w[..k], cs[..k])) != g.zero
    {
      DotZero(g, w[..k], cs[..k]);
      Unit(g, Dot(g, NegPowers(x, m), tr.Q));
    }
    RegularJoin(g, NegPowers(x, m), tr.Q, w, cs);
  }

  lemma KeylessRight<P(!new)>(g: Group<P>, bases: seq<P>, rho: seq<Scalar>, x: Scalar)
    requires IsGroup(g) && AllKilled(g) && |bases| > 0 && |rho| > 0 && ClearSums(g, bases[0], rho, x)
    ensures Regular(g, Openings([0], rho, x) + Zeros(|bases| - 1), bases)
  {
    assert Killed(g, bases[0]);
    hide Dot, Mul, IsGroup, AllKilled, Power, RhoSum;
    var z, b, r := Openings([0], rho, x)[0], bases[0], RhoSum(rho, x, |rho|);
    assert Rep(z, -r);
    MulModSelf(g, z, -r, b);
    MulNeg(g, r, b);
    NegFinite(g, Mul(g, r, b));
    var v := Openings([0], rho, x) + Zeros(|bases| - 1);
    forall k | 0 < k < |v|
      ensures Dot(g, v[..k], bases[..k]) != g.zero
    {
      assert v[..k] == [z] + Zeros(k - 1) && bases[..k][..1] == [] + [b] && [z] == [] + [z];
      PaddedOpening(g, z, bases[..k]);
      DotAppend(g, [], [], z, b);
      DotZero(g, [], []);
      Unit(g, Mul(g, z, b));
    }
  }

  lemma KeylessLinear<P(!new)>(g: Group<P>, ctx: Context<P>, index: nat, s: Nonces, x: Scalar, f: seq<Scalar>)
    requires PrimeOrder(g) && ContextOk(g, ctx) && Shaped(ctx, s) && s.a == Zeros(|ctx.multigen|) && s.rA == 1
    requires Responds(s, ctx.n, index, x, f) && ClearChallenge(g, ctx, index, s.rB, x)
    ensures Regular(g, [ToScalar(x * s.rB + s.rA)] + f, Gens(ctx))
  {
    hide PrimeOrder, Dot, Mul, Commit, Rep, DeltaAt, AllKilled, ToScalar;
    GroupOf(g);
    PrimeKills(g);
    var zA, delta := ToScalar(x * s.rB + s.rA), DeltaVec(ctx.n, ctx.m, index);
    var v := [zA] + f;
    assert Rep(zA, x * s.rB + 1) by { assert zA == ToScalar(x * s.rB + 1); RepOf(zA, x * s.rB + 1); }
    forall k | 0 < k < |v|
      ensures Dot(g, v[..k], Gens(ctx)[..k]) != g.zero
    {
      var cut, u := Cut(ctx, k - 1), seq(k - 1, i requires 0 <= i < k - 1 => x * delta[i] + s.a[i]);
      forall i | 0 <= i < k - 1
        ensures Same(f[i], u[i])
      {
        assert Rep(f[i], delta[i] * x + s.a[i]);
        SameOf(f[i], delta[i] * x + s.a[i]);
      }
      CommitCombine(g, cut, x, s.rB, 1, delta[..k - 1], s.a[..k - 1], u);
      PlainCommit(g, cut, 1, s.a[..k - 1]);
      MulOne(g, ctx.genh);
      CommitMod(g, cut, zA, x * s.rB + 1, f[..k - 1], u);
      CommitIsDot(g, cut, zA, f[..k - 1]);
      assert v[..k] == [zA] + f[..k - 1];
      assert !Solves(g, DigitPrefix(g, ctx, index, s.rB, k - 1), ctx.genh, x);
    }
  }

  lemma RepOf(z: Scalar, v: int)
    requires z == ToScalar(v)
    ensures Rep(z, v)
  {
  }

  lemma SameOf(z: Scalar, v: int)
    requires Rep(z, v)
    ensures Same(z, v)
  {
    RepSelf(z);
  }

  lemma KeylessBinary<P(!new)>(g: Group<P>, ctx: Context<P>, index: nat, s: Nonces, x: Scalar, f: seq<Scalar>)
    requires PrimeOrder(g) && ContextOk(g, ctx) && Shaped(ctx, s) && s.a == Zeros(|ctx.multigen|) && s.rC == s.rD == 1
    requires Responds(s, ctx.n, index, x, f) && x != N - 1
    ensures Regular(g, [ToScalar(x * s.rC + s.rD)] + BinaryVec(f, x), Gens(ctx))
  {
    assert HasOrderN(g, ctx.genh);
    hide PrimeOrder, Dot, Mul, Commit, Rep, DeltaAt;
    GroupOf(g);
    var zC: Scalar := x + 1;
    assert ToScalar(x * s.rC + s.rD) == zC;
    var v := [zC as int] + BinaryVec(f, x);
    NonzeroMultiple(g, ctx.genh, zC);
    forall k | 0 <= k < |f|
      ensures BinaryVec(f, x)[k] == 0
    {
      PlainResponse(s, ctx.n, index, x, f, k);
    }
    forall k | 0 < k < |v|
      ensures Dot(g, v[..k], Gens(ctx)[..k]) != g.zero
    {
      PlainCommit(g, Cut(ctx, k - 1), zC, v[1..k]);
      CommitIsDot(g, Cut(ctx, k - 1), zC, v[1..k]);
      assert v[..k] == [zC] + v[1..k];
    }
  }

  /** The verifier reads such answers without meeting infinity. */
  lemma KeylessRegular<P(!new)>(g: Group<P>, ctx: Context<P>, bases: seq<P>, cs: seq<P>, index: nat, s: Nonces,
      x: Scalar)
    requires PrimeOrder(g) && ContextOk(g, ctx) && |bases| > 0 && |cs| <= index < Power(ctx.n, ctx.m)
    requires KeylessNonces(g, ctx, index, s) && ClearChallenge(g, ctx, index, s.rB, x)
    requires ClearSums(g, bases[0], s.rho, x)
    ensures var tr := Keyless(g, ctx, bases, cs, index, s, x);
      Fitting(ctx, bases, tr) && RegularTranscript(g, ctx, bases, cs, tr, x)
  {
    assert x != N - 1;
    hide PrimeOrder, Dot, Mul, Commit, DeltaAt, AllKilled, ToScalar, ClearSums, ClearChallenge, Power, Responds,
      HonestQs, Regular, Openings, RingEquation, LinearEquation, NoneZero, DigitPoint, HonestTranscript, FinitePoints;
    GroupOf(g);
    PrimeKills(g);
    KeylessFits(g, ctx, bases, cs, index, s, x);
    var tr := Keyless(g, ctx, bases, cs, index, s, x);
    KeylessLeft(g, ctx, bases, cs, index, s, x);
    KeylessRight(g, bases, s.rho, x);
    KeylessLinear(g, ctx, index, s, x, tr.f);
    KeylessBinary(g, ctx, index, s, x, tr.f);
  }
}
