/** The one-out-of-many proof of membership in a ring of commitments, as equations between points, and its completeness.
    */
module RingSpec {
  import opened AbelianGroup
  import opened LinearCombination
  import opened Digits
  import opened Secp256k1
  import opened Strauss
  import opened EcmultConst
  import opened ScalarElement
  import opened RingAlgebra

  /** Ring positions are written with m digits in base n; there is one generator per digit position and digit value. */
  datatype Context<!P> = Context(n: nat, m: nat, multigen: seq<P>, genh: P)

  // The prover's random scalars; a holds m rows of n, and every row sums to zero modulo N.
  datatype Nonces = Nonces(rA: Scalar, rB: Scalar, rC: Scalar, rD: Scalar, rho: seq<Scalar>, a: seq<Scalar>)

  datatype Transcript<P> =
    Transcript(A: P, B: P, C: P, D: P, Q: seq<P>, f: seq<Scalar>, zA: Scalar, zC: Scalar, z: seq<Scalar>)

  ghost predicate AllKilled<P(!new)>(g: Group<P>) {
    forall p {:trigger Killed(g, p)} :: Killed(g, p)
  }

  lemma Index(j: nat, i: nat, n: nat, m: nat)
    requires j < m && i < n
    ensures 0 <= j * n && j * n + i < m * n && j * n + n <= m * n
  {
    MulNonneg(j, n);
    MulNonneg(m - 1 - j, n);
    assert (m - 1 - j) * n == m * n - n - j * n;
  }

  lemma FlatIndex(j: nat, i: nat, n: nat)
    requires i < n
    ensures 0 <= j * n && (j * n + i) / n == j && (j * n + i) % n == i
  {
    MulNonneg(j, n);
    DivModUnique(j * n + i, n, j, i);
  }

  /** 1 where digit j of the secret position is i. */
  function Delta(j: nat, i: nat, n: nat, index: nat): (d: int)
    requires n > 0
    ensures d == 0 || d == 1
  {
    if Digit(j, n, index) == i then 1 else 0
  }

  function DeltaAt(k: nat, n: nat, index: nat): (d: int)
    requires n > 0
    ensures d == 0 || d == 1
  {
    QuotientNonneg(k, n);
    Delta(k / n, k % n, n, index)
  }

  ghost function DeltaVec(n: nat, m: nat, index: nat): (v: seq<int>)
    requires n > 0
    ensures |v| == m * n && forall k :: 0 <= k < |v| ==> v[k] == DeltaAt(k, n, index)
  {
    MulNonneg(m, n);
    seq(m * n, k requires 0 <= k => DeltaAt(k, n, index))
  }

  // The values committed to by the points C and D, and what the verifier forms of a response.
  function Mixed(a: int, d: int): int {
    a * (1 - 2 * d)
  }

  function NegSquare(a: int): int {
    -(a * a)
  }

  function Bit(f: int, x: int): int {
    f * (x - f)
  }

  ghost function MixedVec(a: seq<Scalar>, n: nat, index: nat): (v: seq<int>)
    requires n > 0
    ensures |v| == |a| && forall k :: 0 <= k < |v| ==> v[k] == Mixed(a[k], DeltaAt(k, n, index))
  {
    seq(|a|, k requires 0 <= k < |a| => Mixed(a[k], DeltaAt(k, n, index)))
  }

  ghost function SquareVec(a: seq<Scalar>): (v: seq<int>)
    ensures |v| == |a| && forall k :: 0 <= k < |v| ==> v[k] == NegSquare(a[k])
  {
    seq(|a|, k requires 0 <= k < |a| => NegSquare(a[k]))
  }

  ghost function Commit<P>(g: Group<P>, ctx: Context<P>, r: int, v: seq<int>): P
    requires |v| == |ctx.multigen|
  {
    g.add(Mul(g, r, ctx.genh), Dot(g, v, ctx.multigen))
  }

  /** The factors of ring position t: a + delta*X at each of its digits. */
  ghost function Offsets(a: seq<int>, n: nat, m: nat, t: nat): (v: seq<int>)
    requires n > 0 && |a| >= m * n
    ensures |v| == m
  {
    if m == 0 then [] else
      Index(m - 1, Digit(m - 1, n, t), n, m);
      Offsets(a, n, m - 1, t) + [a[(m - 1) * n + Digit(m - 1, n, t)]]
  }

  ghost function Slopes(n: nat, m: nat, index: nat, t: nat): (v: seq<int>)
    requires n > 0
    ensures |v| == m
  {
    if m == 0 then [] else Slopes(n, m - 1, index, t) + [Delta(m - 1, Digit(m - 1, n, t), n, index)]
  }

  lemma {:induction false} SlopesAt(n: nat, m: nat, index: nat, t: nat, j: nat)
    requires n > 0 && j < m
    ensures Slopes(n, m, index, t)[j] == Delta(j, Digit(j, n, t), n, index)
  {
    if j < m - 1 {
      SlopesAt(n, m - 1, index, t, j);
    }
  }

  lemma {:induction false} SlopesProduct(n: nat, m: nat, index: nat, t: nat)
    requires n > 0
    ensures Factors(Slopes(n, m, index, t)) == if (forall j :: 0 <= j < m ==> SameDigit(j, n, index, t)) then 1 else 0
  {
    if m > 0 {
      SlopesProduct(n, m - 1, index, t);
      var v := Slopes(n, m, index, t);
      assert v[..m - 1] == Slopes(n, m - 1, index, t);
      if SameDigit(m - 1, n, index, t) && (forall j :: 0 <= j < m - 1 ==> SameDigit(j, n, index, t)) {
        assert forall j :: 0 <= j < m ==> SameDigit(j, n, index, t);
      }
    }
  }

  /** Only the secret position has a polynomial of full degree, and it is monic. */
  lemma OnlySecretIsMonic(a: seq<int>, n: nat, m: nat, index: nat, t: nat)
    requires n > 0 && |a| >= m * n && index < Power(n, m) && t < Power(n, m)
    ensures Coeff(Offsets(a, n, m, t), Slopes(n, m, index, t), m) == if t == index then 1 else 0
  {
    CoeffLeading(Offsets(a, n, m, t), Slopes(n, m, index, t));
    SlopesProduct(n, m, index, t);
    if forall j :: 0 <= j < m ==> SameDigit(j, n, index, t) {
      DigitsDetermine(m, n, index, t);
    }
  }

  // Column d of the ring's coefficient table.
  ghost function Column(a: seq<int>, n: nat, m: nat, index: nat, ring: nat, d: int): (v: seq<int>)
    requires n > 0 && |a| >= m * n
    ensures |v| == ring
    ensures forall t :: 0 <= t < ring ==> v[t] == Coeff(Offsets(a, n, m, t), Slopes(n, m, index, t), d)
  {
    seq(ring, t requires 0 <= t => Coeff(Offsets(a, n, m, t), Slopes(n, m, index, t), d))
  }

  ghost function Repeated(x: int, k: nat): (v: seq<int>)
    ensures |v| == k && forall i :: 0 <= i < k ==> v[i] == x
  {
    seq(k, i => x)
  }

  ghost function HonestQ<P>(g: Group<P>, ctx: Context<P>, bases: seq<P>, cs: seq<P>, index: nat, s: Nonces, j: nat): P
    requires ctx.n > 0 && |s.a| == ctx.m * ctx.n && j < |s.rho|
  {
    g.add(Dot(g, Repeated(s.rho[j], |bases|), bases), Dot(g, Column(s.a, ctx.n, ctx.m, index, |cs|, j), cs))
  }

  // Responses: f = delta*x + a, and the openings.
  ghost function Response(s: Nonces, n: nat, index: nat, x: Scalar): (f: seq<Scalar>)
    requires n > 0
    ensures |f| == |s.a| && forall k :: 0 <= k < |f| ==> Rep(f[k], DeltaAt(k, n, index) * x + s.a[k])
  {
    seq(|s.a|, k requires 0 <= k < |s.a| => ToScalar(DeltaAt(k, n, index) * x + s.a[k]))
  }

  ghost function RhoSum(rho: seq<Scalar>, x: int, j: nat): int
    requires j <= |rho|
  {
    if j == 0 then 0 else RhoSum(rho, x, j - 1) + rho[j - 1] * Power(x, j - 1)
  }

  function OpeningOf(key: int, p: int, r: int): int {
    key * p - r
  }

  ghost function Openings(keys: seq<Scalar>, rho: seq<Scalar>, x: int): (z: seq<Scalar>)
    ensures |z| == |keys|
      && forall i :: 0 <= i < |z| ==> Rep(z[i], OpeningOf(keys[i], Power(x, |rho|), RhoSum(rho, x, |rho|)))
  {
    seq(|keys|, i requires 0 <= i < |keys| => ToScalar(OpeningOf(keys[i], Power(x, |rho|), RhoSum(rho, x, |rho|))))
  }

  ghost predicate Shaped<P>(ctx: Context<P>, s: Nonces) {
    ctx.n > 0 && ctx.m > 0 && |ctx.multigen| == ctx.m * ctx.n && |s.a| == ctx.m * ctx.n && |s.rho| == ctx.m
  }

  /** The whole transcript of an honest prover who is challenged with x. */
  ghost function HonestTranscript<P>(g: Group<P>, ctx: Context<P>, bases: seq<P>, cs: seq<P>, index: nat,
      keys: seq<Scalar>, s: Nonces, x: Scalar): (tr: Transcript<P>)
    requires Shaped(ctx, s)
  {
    Transcript(
      Commit(g, ctx, s.rA, s.a),
      Commit(g, ctx, s.rB, DeltaVec(ctx.n, ctx.m, index)),
      Commit(g, ctx, s.rC, MixedVec(s.a, ctx.n, index)),
      Commit(g, ctx, s.rD, SquareVec(s.a)),
      seq(ctx.m, j requires 0 <= j < ctx.m => HonestQ(g, ctx, bases, cs, index, s, j)),
      Response(s, ctx.n, index, x),
      ToScalar(x * s.rB + s.rA),
      ToScalar(x * s.rC + s.rD),
      Openings(keys, s.rho, x))
  }

  // The verifier's vectors.
  ghost function NegPowers(x: int, m: nat): (v: seq<int>)
    ensures |v| == m && forall j :: 0 <= j < m ==> v[j] == -Power(x, j)
  {
    seq(m, j requires 0 <= j => -Power(x, j))
  }

  // The weight of ring position t: the product of the responses at its digits.
  ghost function Weight(f: seq<int>, n: nat, m: nat, t: nat): int
    requires n > 0 && |f| >= m * n
  {
    if m == 0 then 1 else
      Index(m - 1, Digit(m - 1, n, t), n, m);
      Weight(f, n, m - 1, t) * f[(m - 1) * n + Digit(m - 1, n, t)]
  }

  ghost function Weights(f: seq<int>, n: nat, m: nat, ring: nat): (v: seq<int>)
    requires n > 0 && |f| >= m * n
    ensures |v| == ring && forall t :: 0 <= t < ring ==> v[t] == Weight(f, n, m, t)
  {
    seq(ring, t requires 0 <= t => Weight(f, n, m, t))
  }

  ghost function BinaryVec(f: seq<Scalar>, x: int): (v: seq<int>)
    ensures |v| == |f| && forall k :: 0 <= k < |v| ==> v[k] == Bit(f[k], x)
  {
    seq(|f|, k requires 0 <= k < |f| => Bit(f[k], x))
  }

  ghost predicate Fitting<P>(ctx: Context<P>, bases: seq<P>, tr: Transcript<P>) {
    && ctx.n > 0 && |ctx.multigen| == ctx.m * ctx.n == |tr.f| && |tr.Q| == ctx.m && |tr.z| == |bases|
  }

  /** The ring equation: the weighted commitments minus the lower coefficients open to z. */
  ghost predicate RingEquation<P>(g: Group<P>, ctx: Context<P>, bases: seq<P>, cs: seq<P>, tr: Transcript<P>, x: Scalar)
    requires Fitting(ctx, bases, tr)
  {
    g.add(Dot(g, NegPowers(x, ctx.m), tr.Q), Dot(g, Weights(tr.f, ctx.n, ctx.m, |cs|), cs)) == Dot(g, tr.z, bases)
  }

  /** The responses open x*B + A. */
  ghost predicate LinearEquation<P>(g: Group<P>, ctx: Context<P>, bases: seq<P>, tr: Transcript<P>, x: Scalar)
    requires Fitting(ctx, bases, tr)
  {
    g.add(Mul(g, x, tr.B), tr.A) == Commit(g, ctx, tr.zA, tr.f)
  }

  /** The products f*(x - f) open x*C + D, which forces the committed digits to be bits. */
  ghost predicate BinaryEquation<P>(g: Group<P>, ctx: Context<P>, bases: seq<P>, tr: Transcript<P>, x: Scalar)
    requires Fitting(ctx, bases, tr)
  {
    g.add(Mul(g, x, tr.C), tr.D) == Commit(g, ctx, tr.zC, BinaryVec(tr.f, x))
  }

  // Scalars act on points by their residues.
  lemma DotSame<P(!new)>(g: Group<P>, xs: seq<int>, bs: seq<int>, ps: seq<P>)
    requires IsGroup(g) && |xs| == |bs| == |ps|
      && forall i :: 0 <= i < |ps| ==> Mul(g, N, ps[i]) == g.zero && Same(xs[i], bs[i])
    ensures Dot(g, xs, ps) == Dot(g, bs, ps)
  {
    hide Mul, Dot, IsGroup;
    forall i | 0 <= i < |ps|
      ensures xs[i] % N == bs[i] % N
    {
      ScalarIsMod(xs[i]);
      ScalarIsMod(bs[i]);
    }
    DotMod(g, N, xs, bs, ps);
  }

  lemma CommitMod<P(!new)>(g: Group<P>, ctx: Context<P>, r: Scalar, e: int, v: seq<int>, w: seq<int>)
    requires IsGroup(g) && AllKilled(g) && |v| == |w| == |ctx.multigen|
    requires Rep(r, e) && forall k :: 0 <= k < |v| ==> Same(v[k], w[k])
    ensures Commit(g, ctx, r, v) == Commit(g, ctx, e, w)
  {
    hide Mul, Dot, IsGroup;
    assert Killed(g, ctx.genh);
    MulMod(g, N, e, ctx.genh);
    MulModSelf(g, r, e, ctx.genh);
    AllKilledList(g, ctx.multigen);
    DotSame(g, v, w, ctx.multigen);
  }

  lemma MulModSelf<P(!new)>(g: Group<P>, r: Scalar, e: int, p: P)
    requires IsGroup(g) && Killed(g, p) && Rep(r, e)
    ensures Mul(g, r, p) == Mul(g, e, p)
  {
    ScalarIsMod(e);
    MulMod(g, N, e, p);
  }

  lemma AllKilledList<P(!new)>(g: Group<P>, ps: seq<P>)
    requires AllKilled(g)
    ensures forall i :: 0 <= i < |ps| ==> Mul(g, N, ps[i]) == g.zero
  {
    forall i | 0 <= i < |ps|
      ensures Mul(g, N, ps[i]) == g.zero
    {
      assert Killed(g, ps[i]);
    }
  }

  // x times one commitment plus another commits to the combined vector.
  lemma CommitCombine<P(!new)>(g: Group<P>, ctx: Context<P>, x: int, r: int, s: int, v: seq<int>, w: seq<int>,
      u: seq<int>)
    requires IsGroup(g) && |v| == |w| == |u| == |ctx.multigen|
    requires forall k :: 0 <= k < |u| ==> u[k] == x * v[k] + w[k]
    ensures g.add(Mul(g, x, Commit(g, ctx, r, v)), Commit(g, ctx, s, w)) == Commit(g, ctx, x * r + s, u)
  {
    hide Mul, Dot, IsGroup;
    var H, h := ctx.multigen, ctx.genh;
    var xv := seq(|v|, k requires 0 <= k < |v| => x * v[k]);
    DotScale(g, x, v, xv, H);
    DotAdd(g, xv, w, u, H);
    MulDistribute(g, x, Mul(g, r, h), Dot(g, v, H));
    MulMul(g, x, r, h);
    MulAdd(g, x * r, s, h);
    Swap(g, Mul(g, x * r, h), Dot(g, xv, H), Mul(g, s, h), Dot(g, w, H));
  }

  /** The generators the four commitments are made with. */
  function Gens<P>(ctx: Context<P>): seq<P> {
    [ctx.genh] + ctx.multigen
  }

  lemma CommitIsDot<P(!new)>(g: Group<P>, ctx: Context<P>, r: int, v: seq<int>)
    requires IsGroup(g) && |v| == |ctx.multigen|
    ensures Commit(g, ctx, r, v) == Dot(g, [r] + v, Gens(ctx))
  {
    hide Mul, IsGroup;
    var none: seq<P> := [];
    DotConcat(g, [r], [ctx.genh], v, ctx.multigen);
    DotAppend(g, [], none, r, ctx.genh);
    assert [] + [r] == [r] && none + [ctx.genh] == [ctx.genh];
    Unit(g, Mul(g, r, ctx.genh));
  }

  /** No proper prefix of the sum is infinity: so it must be wherever the sum is accumulated in an affine variable. */
  ghost predicate Regular<P>(g: Group<P>, v: seq<int>, ps: seq<P>)
    requires |v| == |ps|
  {
    forall k :: 0 < k < |v| ==> Dot(g, v[..k], ps[..k]) != g.zero
  }

  // The same with the part before v already added up.
  ghost predicate RegularAfter<P>(g: Group<P>, start: P, v: seq<int>, ps: seq<P>)
    requires |v| == |ps|
  {
    forall k :: 0 <= k < |v| ==> g.add(start, Dot(g, v[..k], ps[..k])) != g.zero
  }

  // Past the first part a prefix of the joined sum is the whole first part and a prefix of the second.
  lemma JoinedPrefix<P(!new)>(g: Group<P>, u: seq<int>, qs: seq<P>, v: seq<int>, ps: seq<P>, k: nat)
    requires IsGroup(g) && |u| == |qs| && |v| == |ps| && k <= |v|
    ensures Dot(g, (u + v)[..|u| + k], (qs + ps)[..|u| + k]) == g.add(Dot(g, u, qs), Dot(g, v[..k], ps[..k]))
  {
    hide Dot, IsGroup;
    DotConcat(g, u, qs, v[..k], ps[..k]);
    assert (u + v)[..|u| + k] == u + v[..k] && (qs + ps)[..|u| + k] == qs + ps[..k];
  }

  lemma RegularSplit<P(!new)>(g: Group<P>, u: seq<int>, qs: seq<P>, v: seq<int>, ps: seq<P>)
    requires IsGroup(g) && |u| == |qs| > 0 && |v| == |ps| && Regular(g, u + v, qs + ps)
    ensures Regular(g, u, qs) && RegularAfter(g, Dot(g, u, qs), v, ps)
  {
    hide Dot, IsGroup;
    forall k | 0 < k < |u|
      ensures Dot(g, u[..k], qs[..k]) != g.zero
    {
      assert (u + v)[..k] == u[..k] && (qs + ps)[..k] == qs[..k];
      assert Dot(g, (u + v)[..k], (qs + ps)[..k]) != g.zero;
    }
    forall k | 0 <= k < |v|
      ensures g.add(Dot(g, u, qs), Dot(g, v[..k], ps[..k])) != g.zero
    {
      JoinedPrefix(g, u, qs, v, ps, k);
      assert Dot(g, (u + v)[..|u| + k], (qs + ps)[..|u| + k]) != g.zero;
    }
  }

  lemma RegularFromParts<P(!new)>(g: Group<P>, u: seq<int>, qs: seq<P>, v: seq<int>, ps: seq<P>)
    requires IsGroup(g) && |u| == |qs| > 0 && |v| == |ps| && Regular(g, u, qs) && RegularAfter(g, Dot(g, u, qs), v, ps)
    ensures Regular(g, u + v, qs + ps)
  {
    hide Dot, IsGroup;
    forall k | 0 < k < |u + v|
      ensures Dot(g, (u + v)[..k], (qs + ps)[..k]) != g.zero
    {
      if k < |u| {
        assert (u + v)[..k] == u[..k] && (qs + ps)[..k] == qs[..k];
      } else {
        JoinedPrefix(g, u, qs, v, ps, k - |u|);
        assert g.add(Dot(g, u, qs), Dot(g, v[..k - |u|], ps[..k - |u|])) != g.zero;
      }
    }
  }

  /** A joined sum is regular when its first part is and the second part never cancels what is already added up. */
  lemma RegularJoin<P(!new)>(g: Group<P>, u: seq<int>, qs: seq<P>, v: seq<int>, ps: seq<P>)
    requires IsGroup(g) && |u| == |qs| > 0 && |v| == |ps|
    ensures Regular(g, u + v, qs + ps) <==> Regular(g, u, qs) && RegularAfter(g, Dot(g, u, qs), v, ps)
  {
    hide Dot, IsGroup, Regular, RegularAfter;
    if Regular(g, u + v, qs + ps) {
      RegularSplit(g, u, qs, v, ps);
    }
    if Regular(g, u, qs) && RegularAfter(g, Dot(g, u, qs), v, ps) {
      RegularFromParts(g, u, qs, v, ps);
    }
  }

  lemma RegularSame<P(!new)>(g: Group<P>, xs: seq<int>, bs: seq<int>, ps: seq<P>)
    requires IsGroup(g) && AllKilled(g) && |xs| == |bs| == |ps| && forall i :: 0 <= i < |ps| ==> Same(xs[i], bs[i])
    ensures Regular(g, xs, ps) <==> Regular(g, bs, ps)
  {
    hide Dot, IsGroup, AllKilled, Same, Mul;
    forall k | 0 < k < |ps|
      ensures Dot(g, xs[..k], ps[..k]) == Dot(g, bs[..k], ps[..k])
    {
      AllKilledList(g, ps[..k]);
      DotSame(g, xs[..k], bs[..k], ps[..k]);
    }
  }

  lemma LinearComplete<P(!new)>(g: Group<P>, ctx: Context<P>, bases: seq<P>, cs: seq<P>, index: nat,
      keys: seq<Scalar>, s: Nonces, x: Scalar)
    requires IsGroup(g) && AllKilled(g) && Shaped(ctx, s) && |keys| == |bases|
    ensures LinearEquation(g, ctx, bases, HonestTranscript(g, ctx, bases, cs, index, keys, s, x), x)
  {
    hide Mul, Dot, IsGroup, AllKilled;
    var tr := HonestTranscript(g, ctx, bases, cs, index, keys, s, x);
    var d := DeltaVec(ctx.n, ctx.m, index);
    var u := seq(|d|, k requires 0 <= k < |d| => x * d[k] + s.a[k]);
    CommitCombine(g, ctx, x, s.rB, s.rA, d, s.a, u);
    forall k | 0 <= k < |u|
      ensures Same(tr.f[k], u[k])
    {
      assert Rep(tr.f[k], DeltaAt(k, ctx.n, index) * x + s.a[k]);
    }
    CommitMod(g, ctx, tr.zA, x * s.rB + s.rA, tr.f, u);
  }

  lemma BinaryComplete<P(!new)>(g: Group<P>, ctx: Context<P>, bases: seq<P>, cs: seq<P>, index: nat,
      keys: seq<Scalar>, s: Nonces, x: Scalar)
    requires IsGroup(g) && AllKilled(g) && Shaped(ctx, s) && |keys| == |bases|
    ensures BinaryEquation(g, ctx, bases, HonestTranscript(g, ctx, bases, cs, index, keys, s, x), x)
  {
    hide Mul, Dot, IsGroup, AllKilled;
    var tr := HonestTranscript(g, ctx, bases, cs, index, keys, s, x);
    var c, d := MixedVec(s.a, ctx.n, index), SquareVec(s.a);
    var u := seq(|c|, k requires 0 <= k < |c| => x * c[k] + d[k]);
    CommitCombine(g, ctx, x, s.rC, s.rD, c, d, u);
    var b := BinaryVec(tr.f, x);
    forall k | 0 <= k < |u|
      ensures Same(b[k], u[k])
    {
      BitIdentity(DeltaAt(k, ctx.n, index), s.a[k], x, tr.f[k]);
    }
    CommitMod(g, ctx, tr.zC, x * s.rC + s.rD, b, u);
  }

  // f*(x - f) is linear in x when delta is a bit.
  lemma BitIdentity(d: int, a: int, x: int, f: Scalar)
    requires (d == 0 || d == 1) && Rep(f, d * x + a)
    ensures Same(Bit(f, x), x * Mixed(a, d) + NegSquare(a))
  {
    var e := d * x + a;
    var q := Representative(f, e);
    hide ToScalar;
    BitShift(e, q, x, f);
    BitExpand(d, a, x);
    ModShift(Bit(e, x), q * (e - x + f));
  }

  lemma BitShift(e: int, q: int, x: int, f: int)
    requires f == e - q * N
    ensures Bit(f, x) == Bit(e, x) + q * (e - x + f) * N
  {
    var y := q * N;
    assert Bit(e - y, x) == Bit(e, x) + y * (e - x + f) by { BitDifference(e, y, x); }
    assert q * N * (e - x + f) == q * (e - x + f) * N;
  }

  lemma BitDifference(e: int, y: int, x: int)
    ensures Bit(e - y, x) == Bit(e, x) + y * (e - x + (e - y))
  {
    assert (e - y) * (x - (e - y)) == e * (x - (e - y)) - y * (x - (e - y));
    assert e * (x - (e - y)) == e * (x - e) + e * y;
    assert y * (x - (e - y)) == y * x - y * (e - y);
    assert y * (e - x + (e - y)) == y * e - y * x + y * (e - y);
  }

  lemma BitExpand(d: int, a: int, x: int)
    requires d == 0 || d == 1
    ensures Bit(d * x + a, x) == x * Mixed(a, d) + NegSquare(a)
  {
    if d == 0 {
      assert a * (x - a) == x * a - a * a;
    } else {
      assert (x + a) * (x - (x + a)) == -(x * a) - a * a;
      assert x * (a * -1) == -(x * a);
    }
  }

  lemma CongruentProduct(u: int, v: int, p: int, q: int)
    requires Same(u, p) && Same(v, q)
    ensures Same(u * v, p * q)
  {
    var i := Distance(u, p);
    var j := Distance(v, q);
    hide ToScalar;
    ProductResidue(p, q, i, j, u, v);
  }

  ghost predicate Responds(s: Nonces, n: nat, index: nat, x: Scalar, f: seq<Scalar>)
    requires n > 0
  {
    |f| == |s.a| && forall k :: 0 <= k < |f| ==> Rep(f[k], DeltaAt(k, n, index) * x + s.a[k])
  }

  // The weight of a position is its polynomial at the challenge.
  lemma {:induction false} WeightIsProduct(s: Nonces, f: seq<Scalar>, n: nat, m: nat, index: nat, t: nat, x: Scalar)
    requires n > 0 && |s.a| >= m * n && Responds(s, n, index, x, f)
    ensures Same(Weight(f, n, m, t), Product(Offsets(s.a, n, m, t), Slopes(n, m, index, t), x))
  {
    if m > 0 {
      var j, i := m - 1, Digit(m - 1, n, t);
      Index(j, i, n, m);
      WeightIsProduct(s, f, n, j, index, t, x);
      var us, vs := Offsets(s.a, n, m, t), Slopes(n, m, index, t);
      assert us[..j] == Offsets(s.a, n, j, t) && vs[..j] == Slopes(n, j, index, t);
      FlatIndex(j, i, n);
      var k := j * n + i;
      assert Rep(f[k], DeltaAt(k, n, index) * x + s.a[k]);
      RepSelf(f[k]);
      hide Digit, Offsets, Slopes, Responds;
      CongruentProduct(Weight(f, n, j, t), f[k], Product(us[..j], vs[..j], x), us[j] + vs[j] * x);
    }
  }

  // The value of the coefficients below j at the challenge, for every position.
  ghost function NegEvals(a: seq<int>, n: nat, m: nat, index: nat, ring: nat, j: nat, x: int): (v: seq<int>)
    requires n > 0 && |a| >= m * n
    ensures |v| == ring
    ensures forall t :: 0 <= t < ring ==> v[t] == -Eval(Offsets(a, n, m, t), Slopes(n, m, index, t), j, x)
  {
    seq(ring, t requires 0 <= t => -Eval(Offsets(a, n, m, t), Slopes(n, m, index, t), j, x))
  }

  ghost predicate HonestQs<P>(g: Group<P>, ctx: Context<P>, bases: seq<P>, cs: seq<P>, index: nat, s: Nonces, Q: seq<P>)
    requires Shaped(ctx, s)
  {
    |Q| == ctx.m && forall j :: 0 <= j < ctx.m ==> Q[j] == HonestQ(g, ctx, bases, cs, index, s, j)
  }

  ghost predicate Combined(c: int, u: int, v: int, w: int) {
    w == u + c * v
  }

  lemma RhoStep(rho: seq<Scalar>, x: int, i: nat, k: nat)
    requires i < |rho|
    ensures var c, u, v, w := -Power(x, i), Repeated(-RhoSum(rho, x, i), k), Repeated(rho[i], k),
        Repeated(-RhoSum(rho, x, i + 1), k);
      forall t :: 0 <= t < k ==> Combined(c, u[t], v[t], w[t])
  {
    assert Combined(-Power(x, i), -RhoSum(rho, x, i), rho[i], -RhoSum(rho, x, i + 1));
    hide Combined;
  }

  lemma EvalsStep(a: seq<int>, n: nat, m: nat, index: nat, ring: nat, i: nat, x: int)
    requires n > 0 && |a| >= m * n
    ensures var c, u, v, w := -Power(x, i), NegEvals(a, n, m, index, ring, i, x), Column(a, n, m, index, ring, i),
        NegEvals(a, n, m, index, ring, i + 1, x);
      forall t :: 0 <= t < ring ==> Combined(c, u[t], v[t], w[t])
  {
    hide Coeff, Offsets, Slopes, Power;
    forall t | 0 <= t < ring
      ensures Combined(-Power(x, i), NegEvals(a, n, m, index, ring, i, x)[t], Column(a, n, m, index, ring, i)[t],
        NegEvals(a, n, m, index, ring, i + 1, x)[t])
    {
      EvalStepAt(Offsets(a, n, m, t), Slopes(n, m, index, t), i, x);
    }
  }

  lemma EvalStepAt(us: seq<int>, vs: seq<int>, i: nat, x: int)
    requires |us| == |vs|
    ensures Combined(-Power(x, i), -Eval(us, vs, i, x), Coeff(us, vs, i), -Eval(us, vs, i + 1, x))
  {
  }

  lemma NothingYet<P>(s: Nonces, ctx: Context<P>, index: nat, ring: nat, x: int)
    requires Shaped(ctx, s)
    ensures RhoSum(s.rho, x, 0) == 0
    ensures forall t :: 0 <= t < ring ==> NegEvals(s.a, ctx.n, ctx.m, index, ring, 0, x)[t] == 0
  {
  }

  // What the first j coefficient points contribute to the verifier's sum: a multiple of the bases and one of the ring.
  ghost function RhoPart<P>(g: Group<P>, rho: seq<Scalar>, x: int, j: nat, bases: seq<P>): P
    requires j <= |rho|
  {
    Dot(g, Repeated(-RhoSum(rho, x, j), |bases|), bases)
  }

  ghost function EvalPart<P>(g: Group<P>, ctx: Context<P>, s: Nonces, index: nat, x: int, j: nat, cs: seq<P>): P
    requires Shaped(ctx, s)
  {
    Dot(g, NegEvals(s.a, ctx.n, ctx.m, index, |cs|, j, x), cs)
  }

  lemma {:induction false} SumOfQs<P(!new)>(g: Group<P>, ctx: Context<P>, bases: seq<P>, cs: seq<P>, index: nat,
      s: Nonces, x: Scalar, Q: seq<P>, j: nat)
    requires IsGroup(g) && Shaped(ctx, s) && HonestQs(g, ctx, bases, cs, index, s, Q) && j <= ctx.m
    ensures Dot(g, NegPowers(x, j), Q[..j])
      == g.add(RhoPart(g, s.rho, x, j, bases), EvalPart(g, ctx, s, index, x, j, cs))
  {
    hide Mul, Dot, IsGroup, Coeff, Offsets, Slopes, Combined, Power, Eval, RhoSum;
    var r, e := Repeated(-RhoSum(s.rho, x, j), |bases|), NegEvals(s.a, ctx.n, ctx.m, index, |cs|, j, x);
    if j == 0 {
      NothingYet(s, ctx, index, |cs|, x);
      DotZero(g, r, bases);
      DotZero(g, e, cs);
      Unit(g, g.zero);
      DotZero(g, NegPowers(x, 0), Q[..0]);
    } else {
      var i, c := j - 1, -Power(x, j - 1);
      SumOfQs(g, ctx, bases, cs, index, s, x, Q, i);
      assert NegPowers(x, j) == NegPowers(x, i) + [c] && Q[..j] == Q[..i] + [Q[i]];
      DotAppend(g, NegPowers(x, i), Q[..i], c, Q[i]);
      var r0, e0 := Repeated(-RhoSum(s.rho, x, i), |bases|), NegEvals(s.a, ctx.n, ctx.m, index, |cs|, i, x);
      var r1, e1 := Repeated(s.rho[i], |bases|), Column(s.a, ctx.n, ctx.m, index, |cs|, i);
      assert Q[i] == g.add(Dot(g, r1, bases), Dot(g, e1, cs));
      RhoStep(s.rho, x, i, |bases|);
      EvalsStep(s.a, ctx.n, ctx.m, index, |cs|, i, x);
      AddScaledPair(g, c, r0, r1, r, bases, e0, e1, e, cs);
    }
  }

  lemma AddScaledPair<P(!new)>(g: Group<P>, c: int, r0: seq<int>, r1: seq<int>, r: seq<int>, ps: seq<P>,
      e0: seq<int>, e1: seq<int>, e: seq<int>, qs: seq<P>)
    requires IsGroup(g) && |r0| == |r1| == |r| == |ps| && |e0| == |e1| == |e| == |qs|
    requires forall i :: 0 <= i < |r| ==> Combined(c, r0[i], r1[i], r[i])
    requires forall i :: 0 <= i < |e| ==> Combined(c, e0[i], e1[i], e[i])
    ensures g.add(Dot(g, r, ps), Dot(g, e, qs)) ==
      g.add(g.add(Dot(g, r0, ps), Dot(g, e0, qs)), Mul(g, c, g.add(Dot(g, r1, ps), Dot(g, e1, qs))))
  {
    hide Mul, Dot, IsGroup, Combined;
    AddScaled(g, c, r0, r1, r, ps);
    AddScaled(g, c, e0, e1, e, qs);
    MulDistribute(g, c, Dot(g, r1, ps), Dot(g, e1, qs));
    Swap(g, Dot(g, r0, ps), Dot(g, e0, qs), Mul(g, c, Dot(g, r1, ps)), Mul(g, c, Dot(g, e1, qs)));
  }

  lemma AddScaled<P(!new)>(g: Group<P>, c: int, u: seq<int>, v: seq<int>, w: seq<int>, ps: seq<P>)
    requires IsGroup(g) && |u| == |v| == |w| == |ps| && forall i :: 0 <= i < |w| ==> Combined(c, u[i], v[i], w[i])
    ensures Dot(g, w, ps) == g.add(Dot(g, u, ps), Mul(g, c, Dot(g, v, ps)))
  {
    hide Mul, Dot, IsGroup;
    var cv := seq(|v|, i requires 0 <= i < |v| => c * v[i]);
    DotScale(g, c, v, cv, ps);
    DotAdd(g, u, cv, w, ps);
  }

  // On the ring the weights exceed the lower coefficients by x^m at the secret position and by nothing elsewhere.
  lemma WeightExcess(s: Nonces, f: seq<Scalar>, n: nat, m: nat, index: nat, t: nat, x: Scalar)
    requires n > 0 && |s.a| == m * n && index < Power(n, m) && t < Power(n, m) && Responds(s, n, index, x, f)
    ensures Same(Weight(f, n, m, t) - Eval(Offsets(s.a, n, m, t), Slopes(n, m, index, t), m, x),
      if t == index then Power(x, m) else 0)
  {
    var us, vs := Offsets(s.a, n, m, t), Slopes(n, m, index, t);
    WeightIsProduct(s, f, n, m, index, t, x);
    EvalIsProduct(us, vs, x);
    OnlySecretIsMonic(s.a, n, m, index, t);
    var e := Eval(us, vs, m, x);
    assert Product(us, vs, x) == e + Coeff(us, vs, m) * Power(x, m);
    hide Eval, Product, Coeff, Weight, Power;
    CongruentDifference(Weight(f, n, m, t), e + (if t == index then Power(x, m) else 0), e);
  }

  lemma CongruentDifference(u: int, v: int, e: int)
    requires Same(u, v)
    ensures Same(u - e, v - e)
  {
    var k := Distance(u, v);
    hide ToScalar;
    ModShift(v - e, k);
    assert u - e == v - e + k * N;
  }

  ghost function Single(ring: nat, index: nat, v: int): (s: seq<int>)
    ensures |s| == ring && forall t :: 0 <= t < ring ==> s[t] == if t == index then v else 0
  {
    seq(ring, t => if t == index then v else 0)
  }

  /** A ring with fewer than n^m commitments counts as filled up with the neutral element. */
  function Filled<P>(g: Group<P>, cs: seq<P>, t: nat): P {
    if t < |cs| then cs[t] else g.zero
  }

  lemma DotSingle<P(!new)>(g: Group<P>, index: nat, v: int, ps: seq<P>)
    requires IsGroup(g)
    ensures Dot(g, Single(|ps|, index, v), ps) == Mul(g, v, Filled(g, ps, index))
  {
    hide Mul, Dot, IsGroup;
    var zeros := Repeated(0, |ps|);
    DotZero(g, zeros, ps);
    if index < |ps| {
      DotUpdate(g, zeros, ps, index, v);
      assert zeros[index := zeros[index] + v] == Single(|ps|, index, v);
      Unit(g, Mul(g, v, ps[index]));
    } else {
      assert zeros == Single(|ps|, index, v);
      MulZero(g, v);
    }
  }

  lemma WeightsSum<P(!new)>(g: Group<P>, ctx: Context<P>, cs: seq<P>, index: nat, s: Nonces, x: Scalar, f: seq<Scalar>)
    requires IsGroup(g) && AllKilled(g) && Shaped(ctx, s) && index < Power(ctx.n, ctx.m) && |cs| <= Power(ctx.n, ctx.m)
    requires |f| == |s.a| && Responds(s, ctx.n, index, x, f)
    ensures g.add(EvalPart(g, ctx, s, index, x, ctx.m, cs), Dot(g, Weights(f, ctx.n, ctx.m, |cs|), cs))
      == Mul(g, Power(x, ctx.m), Filled(g, cs, index))
  {
    hide Mul, Dot, IsGroup, AllKilled, Weight, Eval, Offsets, Slopes, Coeff, Power, Responds;
    var n, m := ctx.n, ctx.m;
    var e, w, u := NegEvals(s.a, n, m, index, |cs|, m, x), Weights(f, n, m, |cs|), Single(|cs|, index, Power(x, m));
    var d := seq(|cs|, t requires 0 <= t < |cs| => e[t] + w[t]);
    DotAdd(g, e, w, d, cs);
    forall t | 0 <= t < |cs|
      ensures Same(d[t], u[t])
    {
      WeightExcess(s, f, n, m, index, t, x);
    }
    AllKilledList(g, cs);
    DotSame(g, d, u, cs);
    DotSingle(g, index, Power(x, m), cs);
  }

  // The openings: x^m times the keys, less the random part.
  lemma OpeningsSum<P(!new)>(g: Group<P>, bases: seq<P>, keys: seq<Scalar>, rho: seq<Scalar>, x: Scalar)
    requires IsGroup(g) && AllKilled(g) && |keys| == |bases|
    ensures Dot(g, Openings(keys, rho, x), bases) ==
      g.add(RhoPart(g, rho, x, |rho|, bases), Mul(g, Power(x, |rho|), Dot(g, keys, bases)))
  {
    hide Mul, Dot, IsGroup, AllKilled, OpeningOf;
    OpeningsCombine(g, bases, keys, Openings(keys, rho, x), Power(x, |rho|), RhoSum(rho, x, |rho|));
  }

  lemma OpeningsCombine<P(!new)>(g: Group<P>, bases: seq<P>, keys: seq<Scalar>, z: seq<Scalar>, p: int, r: int)
    requires IsGroup(g) && AllKilled(g) && |keys| == |bases| == |z|
    requires forall i :: 0 <= i < |z| ==> Rep(z[i], OpeningOf(keys[i], p, r))
    ensures Dot(g, z, bases) == g.add(Dot(g, Repeated(-r, |bases|), bases), Mul(g, p, Dot(g, keys, bases)))
  {
    hide Mul, Dot, IsGroup, AllKilled, OpeningOf, Combined;
    var u, b := seq(|keys|, i requires 0 <= i < |keys| => OpeningOf(keys[i], p, r)), Repeated(-r, |bases|);
    forall i | 0 <= i < |u|
      ensures Combined(p, b[i], keys[i], u[i]) && Same(z[i], u[i])
    {
      OpeningCombined(keys[i], p, r);
      assert Rep(z[i], OpeningOf(keys[i], p, r));
    }
    AddScaled(g, p, b, keys, u, bases);
    AllKilledList(g, bases);
    DotSame(g, z, u, bases);
  }

  lemma OpeningCombined(key: int, p: int, r: int)
    ensures Combined(p, -r, key, OpeningOf(key, p, r))
  {
  }

  lemma Cancel<P(!new)>(g: Group<P>, r: P, u: P, v: P)
    requires IsGroup(g)
    ensures g.add(r, u) == g.add(r, v) <==> u == v
  {
    if g.add(r, u) == g.add(r, v) {
      Assoc(g, g.neg(r), r, u);
      Assoc(g, g.neg(r), r, v);
      Inverse(g, r);
      Unit(g, u);
      Unit(g, v);
    }
  }

  lemma HonestFits<P>(g: Group<P>, ctx: Context<P>, bases: seq<P>, cs: seq<P>, index: nat, keys: seq<Scalar>,
      s: Nonces, x: Scalar)
    requires Shaped(ctx, s) && |keys| == |bases|
    ensures var tr := HonestTranscript(g, ctx, bases, cs, index, keys, s, x);
      && Fitting(ctx, bases, tr) && HonestQs(g, ctx, bases, cs, index, s, tr.Q) && tr.z == Openings(keys, s.rho, x)
      && Responds(s, ctx.n, index, x, tr.f)
  {
    hide HonestQ;
  }

  lemma RingComplete<P(!new)>(g: Group<P>, ctx: Context<P>, bases: seq<P>, cs: seq<P>, index: nat, keys: seq<Scalar>,
      s: Nonces, x: Scalar, tr: Transcript<P>)
    requires IsGroup(g) && AllKilled(g) && Shaped(ctx, s) && |keys| == |bases| && index < Power(ctx.n, ctx.m)
    requires |cs| <= Power(ctx.n, ctx.m)
    requires Fitting(ctx, bases, tr) && HonestQs(g, ctx, bases, cs, index, s, tr.Q) && tr.z == Openings(keys, s.rho, x)
    requires Responds(s, ctx.n, index, x, tr.f)
    ensures RingEquation(g, ctx, bases, cs, tr, x) <==>
      Mul(g, Power(x, ctx.m), Filled(g, cs, index)) == Mul(g, Power(x, ctx.m), Dot(g, keys, bases))
  {
    hide Mul, Dot, IsGroup, AllKilled, Responds, HonestQs, Power, RhoSum, Weight, Eval, Coeff, Offsets, Slopes;
    var e, r := EvalPart(g, ctx, s, index, x, ctx.m, cs), RhoPart(g, s.rho, x, ctx.m, bases);
    hide EvalPart, RhoPart;
    SumOfQs(g, ctx, bases, cs, index, s, x, tr.Q, ctx.m);
    assert tr.Q[..ctx.m] == tr.Q;
    WeightsSum(g, ctx, cs, index, s, x, tr.f);
    OpeningsSum(g, bases, keys, s.rho, x);
    Assoc(g, r, e, Dot(g, Weights(tr.f, ctx.n, ctx.m, |cs|), cs));
    Cancel(g, r, Mul(g, Power(x, ctx.m), Filled(g, cs, index)), Mul(g, Power(x, ctx.m), Dot(g, keys, bases)));
  }

  /** The verifier accepts an honestly computed transcript exactly when x^m times the commitment at the secret
      position is x^m times the opening the prover used.  In particular it accepts every prover who knows an opening. */
  lemma Completeness<P(!new)>(g: Group<P>, ctx: Context<P>, bases: seq<P>, cs: seq<P>, index: nat, keys: seq<Scalar>,
      s: Nonces, x: Scalar)
    requires IsGroup(g) && AllKilled(g) && Shaped(ctx, s) && |keys| == |bases| && index < Power(ctx.n, ctx.m)
    requires |cs| <= Power(ctx.n, ctx.m)
    ensures var tr := HonestTranscript(g, ctx, bases, cs, index, keys, s, x);
      && LinearEquation(g, ctx, bases, tr, x) && BinaryEquation(g, ctx, bases, tr, x)
      && (RingEquation(g, ctx, bases, cs, tr, x) <==>
          Mul(g, Power(x, ctx.m), Filled(g, cs, index)) == Mul(g, Power(x, ctx.m), Dot(g, keys, bases)))
  {
    LinearComplete(g, ctx, bases, cs, index, keys, s, x);
    BinaryComplete(g, ctx, bases, cs, index, keys, s, x);
    HonestFits(g, ctx, bases, cs, index, keys, s, x);
    hide *;
    RingComplete(g, ctx, bases, cs, index, keys, s, x, HonestTranscript(g, ctx, bases, cs, index, keys, s, x));
  }
}
