/** Signing and verification over the comb and the interleaved multiplication: what is signed verifies, low-s included.
    */
module Ecdsa {
  import opened AbelianGroup
  import opened Digits
  import opened Secp256k1
  import opened Bytes
  import opened FieldElement
  import opened Strauss
  import opened EcmultConst
  import opened EcmultGen
  import opened ScalarElement

  /** The affine x coordinate of points; opposite points share it. */
  ghost predicate SymmetricAt<P>(g: Group<P>, xOf: P -> Element, p: P) {
    xOf(g.neg(p)) == xOf(p)
  }

  ghost predicate IsAbscissa<P(!new)>(g: Group<P>, xOf: P -> Element) {
    forall p {:trigger SymmetricAt(g, xOf, p)} :: SymmetricAt(g, xOf, p)
  }

  /** The parity of the affine y coordinate of finite points; opposite points differ in it, the characteristic being
      odd. */
  ghost predicate FlipsAt<P>(g: Group<P>, yOf: P -> Element, p: P) {
    p != g.zero ==> yOf(g.neg(p)) % 2 != yOf(p) % 2
  }

  ghost predicate IsOrdinate<P(!new)>(g: Group<P>, yOf: P -> Element) {
    forall p {:trigger FlipsAt(g, yOf, p)} :: FlipsAt(g, yOf, p)
  }

  /** The recovery id: whether the abscissa had to be reduced, and the parity of the ordinate. */
  function RecoveryId(x: Element, y: Element): nat {
    (if x >= N then 2 else 0) + y % 2
  }

  /** Section 4.1.4 of SEC 1: the signature equation without a division in the field. */
  ghost predicate Accepted<P>(g: Group<P>, xOf: P -> Element, inv: Scalar -> Scalar, gen: P, r: Scalar, s: Scalar,
      key: P, message: Scalar) {
    r != 0 && s != 0 &&
    (var p := g.add(Mul(g, MulS(inv(s), r), key), Mul(g, MulS(inv(s), message), gen));
     p != g.zero && xOf(p) % N == r)
  }

  // xr == x or xr + n == x, the second only if it stays below the characteristic.
  method EqualsAbscissa(r: Scalar, x: Element) returns (equal: bool)
    ensures equal <==> x % N == r
  {
    OrderBounds();
    var xr: int := r;
    if xr == x {
      DivModUnique(x, N, 0, xr);
      return true;
    }
    if xr >= FIELD - N {
      SecondCase(r, x);
      return false;
    }
    equal := xr + N == x;
    SecondCase(r, x);
  }

  // An abscissa is below twice the order, so its residue is itself or itself less the order.
  lemma SecondCase(r: Scalar, x: Element)
    ensures x % N == r <==> x == r || x == r + N
  {
    OrderBounds();
    if x < N {
      DivModUnique(x, N, 0, x);
    } else {
      DivModUnique(x, N, 1, x - N);
    }
  }

  /** secp256k1_ecdsa_sig_verify */
  method SigVerify<P(!new, ==)>(g: Group<P>, xOf: P -> Element, inv: Scalar -> Scalar, gen: P, preG: seq<P>,
      sigr: Scalar, sigs: Scalar, key: P, message: Scalar) returns (ok: bool)
    requires IsGroup(g) && Killed(g, key) && Killed(g, gen) && |preG| == TableSize(WINDOW_G) && IsTable(g, preG, gen)
    ensures ok <==> Accepted(g, xOf, inv, gen, sigr, sigs, key, message)
  {
    hide Mul, IsGroup, MulS, IsTable;
    if sigr == 0 || sigs == 0 {
      return false;
    }
    var sn := inv(sigs);
    var u1 := MulS(sn, message);
    var u2 := MulS(sn, sigr);
    var pr := Ecmult(g, key, u2, gen, preG, Some(u1));
    if pr == g.zero {
      return false;
    }
    ok := EqualsAbscissa(sigr, xOf(pr));
  }

  /** secp256k1_ecdsa_sig_sign, for a nonce whose abscissa is not a multiple of the order.  The recovery id belongs to
      the nonce that satisfies the signature equation: the given one, or its negative where s was negated. */
  method SigSign<P(!new, ==)>(ctx: GenContext<P>, xOf: P -> Element, yOf: P -> Element, inv: Scalar -> Scalar,
      seckey: Scalar, message: Scalar, nonce: Scalar)
    returns (ok: bool, sigr: Scalar, sigs: Scalar, recid: nat)
    requires ctx.Valid() && HasOrderN(ctx.g, ctx.gen) && IsAbscissa(ctx.g, xOf) && IsOrdinate(ctx.g, yOf)
    requires IsScalarInverse(inv) && nonce != 0 && xOf(Mul(ctx.g, nonce, ctx.gen)) % N != 0
    ensures sigr == xOf(Mul(ctx.g, nonce, ctx.gen)) % N
    ensures ok <==> ToScalar(message + sigr * seckey) != 0
    ensures ok ==> sigs != 0 && !IsHigh(sigs)
    ensures ok ==>
      SignedBy(ctx.g, xOf, yOf, ctx.gen, sigr, sigs, seckey, message, nonce, recid)
      || SignedBy(ctx.g, xOf, yOf, ctx.gen, sigr, sigs, seckey, message, Negate(nonce), recid)
  {
    hide Mul, HasOrderN;
    var rp := ctx.EcmultGen(nonce);
    sigr := xOf(rp) % N;
    recid := RecoveryId(xOf(rp), yOf(rp));
    var n := AddS(MulS(sigr, seckey), message);
    sigs := MulS(inv(nonce), n);
    SignedValue(inv, sigr, sigs, seckey, message, nonce, n);
    if sigs == 0 {
      return false, sigr, sigs, recid;
    }
    ok := true;
    if IsHigh(sigs) {
      NegatedSignature(sigr, sigs, seckey, message, nonce);
      NegatedRecovery(ctx.g, xOf, yOf, ctx.gen, nonce);
      sigs := Negate(sigs);
      recid := Toggled(recid);
    }
  }

  // recid ^ 1
  function Toggled(recid: nat): nat {
    if recid % 2 == 0 then recid + 1 else recid - 1
  }

  lemma NegatedRecovery<P(!new)>(g: Group<P>, xOf: P -> Element, yOf: P -> Element, gen: P, k: Scalar)
    requires IsGroup(g) && HasOrderN(g, gen) && IsAbscissa(g, xOf) && IsOrdinate(g, yOf) && k != 0
    ensures var p, q := Mul(g, k, gen), Mul(g, Negate(k), gen);
      RecoveryId(xOf(q), yOf(q)) == Toggled(RecoveryId(xOf(p), yOf(p)))
  {
    hide Mul, IsGroup;
    var p := Mul(g, k, gen);
    NonzeroMultiple(g, gen, k);
    NegatedMultiple(g, k, gen);
    assert SymmetricAt(g, xOf, p) && FlipsAt(g, yOf, p);
  }

  /** k signs m under d, and the recovery id is that of its point. */
  ghost predicate SignedBy<P>(g: Group<P>, xOf: P -> Element, yOf: P -> Element, gen: P, r: Scalar, s: Scalar,
      d: Scalar, m: Scalar, k: Scalar, recid: nat) {
    SignatureOf(r, s, d, m, k) && recid == RecoveryId(xOf(Mul(g, k, gen)), yOf(Mul(g, k, gen)))
  }

  // s*k = m + r*d
  ghost predicate SignatureOf(r: Scalar, s: Scalar, d: Scalar, m: Scalar, k: Scalar) {
    Same(s * k, m + r * d)
  }

  lemma SignedValue(inv: Scalar -> Scalar, r: Scalar, s: Scalar, d: Scalar, m: Scalar, k: Scalar, n: Scalar)
    requires IsScalarInverse(inv) && k != 0 && n == AddS(MulS(r, d), m) && s == MulS(inv(k), n)
    ensures SignatureOf(r, s, d, m, k) && (s == 0 <==> ToScalar(m + r * d) == 0)
  {
    assert InvertsScalar(inv, k);
    RepSelf(r);
    RepSelf(d);
    RepSelf(m);
    RepSelf(n);
    RepMul(r, d, r, d);
    RepAdd(MulS(r, d), m, r * d, m);
    hide ToScalar, AddS, MulS;
    assert r * d + m == m + r * d;
    ProductWithInverse(s, inv(k), n, k);
  }

  lemma ProductWithInverse(s: Scalar, i: Scalar, n: Scalar, k: Scalar)
    requires s == MulS(i, n) && MulS(k, i) == 1
    ensures ToScalar(s * k) == n && (s == 0 <==> n == 0)
  {
    assert MulS(1, n) == n && MulS(s, k) == ToScalar(s * k) by { RepSelf(n); }
    ZeroProducts(i, n, k);
    RepSelf(i);
    RepSelf(n);
    RepSelf(k);
    hide MulS, Rep, ToScalar;
    RepMul(i, n, i, n);
    RepMul(s, k, i * n, k);
    RepMul(k, i, k, i);
    RepMul(MulS(k, i), n, k * i, n);
    Regroup3(i, n, k);
    RepSame(MulS(s, k), MulS(1, n), i * n * k, k * i * n);
  }

  lemma Regroup3(i: int, n: int, k: int)
    ensures i * n * k == k * i * n
  {
  }

  lemma ZeroProducts(i: Scalar, n: Scalar, k: Scalar)
    ensures MulS(0, k) == 0 && (n == 0 ==> MulS(i, n) == 0)
  {
  }

  // Negating s is negating the nonce.
  lemma NegatedSignature(r: Scalar, s: Scalar, d: Scalar, m: Scalar, k: Scalar)
    requires SignatureOf(r, s, d, m, k) && s != 0 && IsHigh(s)
    ensures SignatureOf(r, Negate(s), d, m, Negate(k)) && Negate(s) != 0 && !IsHigh(Negate(s))
  {
    OrderBounds();
    RepSelf(s);
    RepSelf(k);
    RepNegate(s, s);
    RepNegate(k, k);
    var u: int, v: int := s, k;
    hide ToScalar;
    RepMul(Negate(s), Negate(k), -u, -v);
    assert -u * -v == u * v;
  }

  /** Any s with s*k = m + r*d, for a non-zero nonce k whose point has abscissa r modulo the order, is accepted. */
  lemma EquationSuffices<P(!new)>(g: Group<P>, xOf: P -> Element, inv: Scalar -> Scalar, gen: P, r: Scalar, s: Scalar,
      d: Scalar, m: Scalar, k: Scalar)
    requires IsGroup(g) && HasOrderN(g, gen) && IsScalarInverse(inv)
    requires r != 0 && s != 0 && k != 0 && SignatureOf(r, s, d, m, k) && xOf(Mul(g, k, gen)) % N == r
    ensures Accepted(g, xOf, inv, gen, r, s, Mul(g, d, gen), m)
  {
    hide Mul, IsGroup;
    assert InvertsScalar(inv, s);
    NonzeroMultiple(g, gen, k);
    var i := inv(s);
    hide IsScalarInverse;
    RecoveredNonce(i, r, s, d, m, k);
    CombinedMultiple(g, gen, MulS(i, r), d, MulS(i, m), k);
  }

  lemma RecoveredNonce(i: Scalar, r: Scalar, s: Scalar, d: Scalar, m: Scalar, k: Scalar)
    requires MulS(s, i) == 1 && SignatureOf(r, s, d, m, k)
    ensures ToScalar(MulS(i, r) * d + MulS(i, m)) == k
  {
    var t := ToScalar(m + r * d);
    assert MulS(s, k) == t;
    assert MulS(1, k) == k by { RepSelf(k); }
    RepSelf(i);
    RepSelf(r);
    RepSelf(d);
    RepSelf(m);
    RepSelf(s);
    RepSelf(k);
    assert Rep(t, m + r * d);
    Reduced(MulS(i, r), d, MulS(i, m));
    hide MulS, AddS, Rep, ToScalar;
    RepMul(i, r, i, r);
    RepMul(i, m, i, m);
    RepMul(MulS(i, r), d, i * r, d);
    RepAdd(MulS(MulS(i, r), d), MulS(i, m), i * r * d, i * m);
    RepMul(i, t, i, m + r * d);
    RepMul(s, i, s, i);
    RepMul(s, k, s, k);
    RepMul(i, MulS(s, k), i, s * k);
    RepMul(MulS(s, i), k, s * i, k);
    Regroup(i, r, s, d, m, k);
    RepSame(AddS(MulS(MulS(i, r), d), MulS(i, m)), MulS(i, t), i * r * d + i * m, i * (m + r * d));
    RepSame(MulS(i, t), MulS(1, k), i * (s * k), s * i * k);
  }

  lemma Regroup(i: int, r: int, s: int, d: int, m: int, k: int)
    ensures i * r * d + i * m == i * (m + r * d) && i * (s * k) == s * i * k
  {
  }

  lemma RepSame(x: Scalar, y: Scalar, u: int, v: int)
    requires Rep(x, u) && Rep(y, v) && u == v
    ensures x == y
  {
  }

  lemma Reduced(x: Scalar, d: Scalar, y: Scalar)
    ensures ToScalar(x * d + y) == AddS(MulS(x, d), y)
  {
    RepSelf(x);
    RepSelf(d);
    RepSelf(y);
    hide ToScalar, MulS, AddS;
    RepMul(x, d, x, d);
    RepAdd(MulS(x, d), y, x * d, y);
  }

  lemma CombinedMultiple<P(!new)>(g: Group<P>, gen: P, u2: Scalar, d: Scalar, u1: Scalar, k: Scalar)
    requires IsGroup(g) && Killed(g, gen) && ToScalar(u2 * d + u1) == k
    ensures g.add(Mul(g, u2, Mul(g, d, gen)), Mul(g, u1, gen)) == Mul(g, k, gen)
  {
    hide Mul, IsGroup;
    MulMul(g, u2, d, gen);
    MulAdd(g, u2 * d, u1, gen);
    ScalarIsMod(u2 * d + u1);
    MulMod(g, N, u2 * d + u1, gen);
  }

  // What verification multiplies the generator with.
  lemma RecoveredRep(i: Scalar, r: Scalar, d: Scalar, m: Scalar)
    ensures Rep(ToScalar(MulS(i, r) * d + MulS(i, m)), i * (m + r * d))
  {
    Reduced(MulS(i, r), d, MulS(i, m));
    RepSelf(i);
    RepSelf(r);
    RepSelf(d);
    RepSelf(m);
    hide MulS, AddS, Rep, ToScalar;
    RepMul(i, r, i, r);
    RepMul(i, m, i, m);
    RepMul(MulS(i, r), d, i * r, d);
    RepAdd(MulS(MulS(i, r), d), MulS(i, m), i * r * d, i * m);
    Regroup(i, r, 0, d, m, 0);
  }

  lemma TimesRecovered(i: Scalar, s: Scalar, k: Scalar, v: int, w: int)
    requires MulS(s, i) == 1 && Rep(k, w) && w == i * v
    ensures Same(s * k, v)
  {
    var t := ToScalar(v);
    RepSelf(s);
    RepSelf(i);
    RepSelf(t);
    assert MulS(1, t) == t && Rep(t, v) && MulS(s, k) == ToScalar(s * k);
    hide MulS, Rep, ToScalar;
    RepMul(s, k, s, w);
    RepMul(s, i, s, i);
    RepMul(1, t, s * i, v);
    Reassociate(s, i, v);
    RepSame(MulS(s, k), MulS(1, t), s * w, s * i * v);
  }

  lemma Reassociate(x: int, y: int, z: int)
    ensures x * y * z == x * (y * z)
  {
  }

  lemma SolvesEquation(i: Scalar, r: Scalar, s: Scalar, d: Scalar, m: Scalar, k: Scalar)
    requires MulS(s, i) == 1 && ToScalar(MulS(i, r) * d + MulS(i, m)) == k
    ensures SignatureOf(r, s, d, m, k)
  {
    hide Rep, MulS, Same, ToScalar;
    RecoveredRep(i, r, d, m);
    TimesRecovered(i, s, k, m + r * d, i * (m + r * d));
  }

  /** k is a nonce that signs m with (r, s) under the secret d. */
  ghost predicate SignedWith<P>(g: Group<P>, xOf: P -> Element, gen: P, r: Scalar, s: Scalar, d: Scalar, m: Scalar,
      k: Scalar) {
    k != 0 && SignatureOf(r, s, d, m, k) && xOf(Mul(g, k, gen)) % N == r
  }

  /** What verifies under the key of d is exactly what the owner of d could have signed with some nonce. */
  lemma AcceptedExactly<P(!new)>(g: Group<P>, xOf: P -> Element, inv: Scalar -> Scalar, gen: P, r: Scalar, s: Scalar,
      d: Scalar, m: Scalar)
    requires IsGroup(g) && HasOrderN(g, gen) && IsScalarInverse(inv)
    ensures Accepted(g, xOf, inv, gen, r, s, Mul(g, d, gen), m) <==>
      r != 0 && s != 0 && exists k: Scalar :: SignedWith(g, xOf, gen, r, s, d, m, k)
  {
    hide Mul, IsGroup, SignatureOf, MulS, ToScalar;
    if Accepted(g, xOf, inv, gen, r, s, Mul(g, d, gen), m) {
      var i := inv(s);
      assert InvertsScalar(inv, s);
      var k := ToScalar(MulS(i, r) * d + MulS(i, m));
      CombinedMultiple(g, gen, MulS(i, r), d, MulS(i, m), k);
      MulOne(g, gen);
      SolvesEquation(i, r, s, d, m, k);
      assert SignedWith(g, xOf, gen, r, s, d, m, k);
    }
    if r != 0 && s != 0 && exists k: Scalar :: SignedWith(g, xOf, gen, r, s, d, m, k) {
      var k: Scalar :| SignedWith(g, xOf, gen, r, s, d, m, k);
      EquationSuffices(g, xOf, inv, gen, r, s, d, m, k);
    }
  }

  lemma NegatedProduct(i: Scalar, r: Scalar)
    ensures MulS(Negate(i), r) == Negate(MulS(i, r))
  {
    RepSelf(i);
    RepSelf(r);
    RepNegate(i, i);
    var u: int, v: int := i, r;
    hide MulS, Rep;
    RepMul(i, r, u, v);
    RepMul(Negate(i), r, -u, v);
    RepNegate(MulS(i, r), u * v);
    assert -u * v == -(u * v);
    RepSame(MulS(Negate(i), r), Negate(MulS(i, r)), -u * v, -(u * v));
  }

  lemma NegatedInverse(inv: Scalar -> Scalar, s: Scalar)
    requires IsScalarInverse(inv) && s != 0
    ensures inv(Negate(s)) == Negate(inv(s))
  {
    var i, j := inv(s), inv(Negate(s));
    assert InvertsScalar(inv, s) && InvertsScalar(inv, Negate(s));
    NegatedProduct(s, j);
    NegatedProduct(j, s);
    assert MulS(j, s) == MulS(s, j);
    assert MulS(1, i) == i && MulS(Negate(j), 1) == Negate(j) by {
      RepSelf(i);
      RepSelf(Negate(j));
    }
    RepSelf(s);
    RepSelf(i);
    RepSelf(Negate(j));
    hide MulS, Rep, Negate;
    assert MulS(Negate(j), s) == 1;
    RepMul(Negate(j), s, Negate(j), s);
    RepMul(s, i, s, i);
    RepMul(MulS(Negate(j), s), i, Negate(j) * s, i);
    RepMul(Negate(j), MulS(s, i), Negate(j), s * i);
    Reassociate(Negate(j), s, i);
    RepSame(MulS(1, i), MulS(Negate(j), 1), Negate(j) * s * i, Negate(j) * (s * i));
    NegateTwice(j);
  }

  lemma NegateTwice(s: Scalar)
    ensures Negate(Negate(s)) == s && (Negate(s) == 0 <==> s == 0)
  {
  }

  lemma NegatedMultiple<P(!new)>(g: Group<P>, k: Scalar, p: P)
    requires IsGroup(g) && Killed(g, p)
    ensures Mul(g, Negate(k), p) == g.neg(Mul(g, k, p))
  {
    hide Mul, IsGroup;
    RepSelf(k);
    RepNegate(k, k);
    var v: int := k;
    ScalarIsMod(-v);
    MulMod(g, N, -v, p);
    MulNeg(g, v, p);
  }

  lemma NegatedAccepted<P(!new)>(g: Group<P>, xOf: P -> Element, inv: Scalar -> Scalar, gen: P, r: Scalar, s: Scalar,
      key: P, m: Scalar)
    requires IsGroup(g) && Killed(g, gen) && Killed(g, key) && IsAbscissa(g, xOf) && IsScalarInverse(inv)
    requires Accepted(g, xOf, inv, gen, r, s, key, m)
    ensures Accepted(g, xOf, inv, gen, r, Negate(s), key, m)
  {
    hide Mul, MulS, IsGroup;
    var u, v := MulS(inv(s), r), MulS(inv(s), m);
    NegatedInverse(inv, s);
    NegatedProduct(inv(s), r);
    NegatedProduct(inv(s), m);
    NegatedMultiple(g, u, key);
    NegatedMultiple(g, v, gen);
    var p, q := Mul(g, u, key), Mul(g, v, gen);
    NegAdd(g, p, q);
    NegNeg(g, g.add(p, q));
    NegateTwice(s);
    assert SymmetricAt(g, xOf, g.add(p, q));
  }

  /** Verification does not tell s from its negative: only signing picks the lower of the two. */
  lemma NegatedVerifies<P(!new)>(g: Group<P>, xOf: P -> Element, inv: Scalar -> Scalar, gen: P, r: Scalar, s: Scalar,
      key: P, m: Scalar)
    requires IsGroup(g) && Killed(g, gen) && Killed(g, key) && IsAbscissa(g, xOf) && IsScalarInverse(inv)
    ensures Accepted(g, xOf, inv, gen, r, Negate(s), key, m) <==> Accepted(g, xOf, inv, gen, r, s, key, m)
  {
    hide IsGroup, Accepted, Mul;
    NegateTwice(s);
    if Accepted(g, xOf, inv, gen, r, s, key, m) {
      NegatedAccepted(g, xOf, inv, gen, r, s, key, m);
    }
    if Accepted(g, xOf, inv, gen, r, Negate(s), key, m) {
      NegatedAccepted(g, xOf, inv, gen, r, Negate(s), key, m);
    }
  }

  /** Completeness of sections 4.1.3 and 4.1.4 of SEC 1: whenever signing succeeds the signature is low and verifies. */
  method SignThenVerify<P(!new, ==)>(ctx: GenContext<P>, xOf: P -> Element, yOf: P -> Element, inv: Scalar -> Scalar,
      preG: seq<P>, seckey: Scalar, message: Scalar, nonce: Scalar)
    returns (ok: bool, sigr: Scalar, sigs: Scalar, verified: bool)
    requires ctx.Valid() && HasOrderN(ctx.g, ctx.gen) && IsAbscissa(ctx.g, xOf) && IsOrdinate(ctx.g, yOf)
    requires IsScalarInverse(inv) && nonce != 0 && xOf(Mul(ctx.g, nonce, ctx.gen)) % N != 0
    requires |preG| == TableSize(WINDOW_G) && IsTable(ctx.g, preG, ctx.gen)
    ensures ok <==> ToScalar(message + sigr * seckey) != 0
    ensures ok ==> verified && !IsHigh(sigs)
  {
    hide Mul, IsTable;
    var recid;
    ok, sigr, sigs, recid := SigSign(ctx, xOf, yOf, inv, seckey, message, nonce);
    verified := false;
    if ok {
      var g, gen := ctx.g, ctx.gen;
      var key := ctx.EcmultGen(seckey);
      KilledMultiple(g, gen, seckey);
      verified := SigVerify(g, xOf, inv, gen, preG, sigr, sigs, key, message);
      OppositeNonce(g, xOf, gen, nonce);
      if SignatureOf(sigr, sigs, seckey, message, nonce) {
        EquationSuffices(g, xOf, inv, gen, sigr, sigs, seckey, message, nonce);
      } else {
        EquationSuffices(g, xOf, inv, gen, sigr, sigs, seckey, message, Negate(nonce));
      }
    }
  }

  lemma OppositeNonce<P(!new)>(g: Group<P>, xOf: P -> Element, gen: P, k: Scalar)
    requires IsGroup(g) && Killed(g, gen) && IsAbscissa(g, xOf) && k != 0
    ensures xOf(Mul(g, Negate(k), gen)) == xOf(Mul(g, k, gen)) && Negate(k) != 0
  {
    hide Mul, IsGroup;
    NegatedMultiple(g, k, gen);
    assert SymmetricAt(g, xOf, Mul(g, k, gen));
  }
}
