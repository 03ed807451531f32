/** Public keys recovered from signatures: the nonce point is decompressed from r and the recovery id, and the signature
    equation is solved for the key. */
module Recovery {
  import opened AbelianGroup
  import opened Digits
  import opened Secp256k1
  import opened ScalarElement
  import opened FieldElement
  import opened Points
  import opened CurveLaw
  import opened UnifiedAdd
  import opened PointTables
  import opened CurveGroup
  import opened CoordinateStrauss
  import opened Strauss
  import opened EcmultConst
  import opened EcmultGen
  import opened Ecdsa
  import opened EcdsaOnCurve

  ghost predicate RootsSquare(sqrt: Element -> Element, y: Element) {
    FSqr(sqrt(FSqr(y))) == FSqr(y)
  }

  /** sqrt finds a root of every square, as the exponentiation by a quarter of the characteristic plus one does. */
  ghost predicate IsRoot(sqrt: Element -> Element) {
    forall y {:trigger RootsSquare(sqrt, y)} :: RootsSquare(sqrt, y)
  }

  // x^3 + 7
  function RightSide(x: Element): Element {
    FAdd(FMul(FSqr(x), x), 7)
  }

  ghost predicate HasParity(p: CurvePoint, odd: bool) {
    p.Finite? && (p.y % 2 == 1 <==> odd)
  }

  /** secp256k1_ge_set_xo_var: the point over x with this parity, if the curve has a point over x at all. */
  method SetXo(inv: Element -> Element, sqrt: Element -> Element, x: Element, odd: bool) returns (ok: bool, r: Ge)
    requires IsSecp256k1(inv) && IsRoot(sqrt)
    ensures ok ==> !r.infinity && r.x == x && OnCurve(Finite(x, r.y)) && HasParity(Finite(x, r.y), odd)
    ensures !ok ==> forall y: Element :: !OnCurve(Finite(x, y))
  {
    hide FMul, FAdd, FSub, IsSecp256k1;
    var c := RightSide(x);
    var y := sqrt(c);
    ok := FSqr(y) == c;
    r := Ge(x, y, false);
    if !ok {
      forall v: Element
        ensures !OnCurve(Finite(x, v))
      {
        assert RootsSquare(sqrt, v);
      }
      return;
    }
    NoZeroOrdinate(inv, Finite(x, y));
    if (y % 2 == 1) != odd {
      NegSquares(y);
      NegParity(y);
      r := Ge(x, Neg(y), false);
    }
  }

  lemma NegParity(y: Element)
    requires y != 0
    ensures Neg(y) == FIELD - y && Neg(y) % 2 != y % 2
  {
    var v: int := 0 - (y as int);
    FShift(v, 1);
    IsSelf(FIELD - y);
  }

  lemma OrdinateOfCurve(inv: Element -> Element)
    requires IsSecp256k1(inv)
    ensures IsOrdinate(Curve(inv), YOf)
  {
    forall p
      ensures FlipsAt(Curve(inv), YOf, p)
    {
      hide Curve, Neg, PrimeOrder;
      NegIsOpposite(inv, p);
      AddIsPlus(inv, p, p);
      if p.Finite? {
        NoZeroOrdinate(inv, p);
        NegParity(p.y);
      }
    }
  }

  function YOf(p: CurvePoint): Element {
    match p
    case Infinity => 0
    case Finite(x, y) => y
  }

  /** Abscissa and parity determine a point. */
  lemma PointFromParity(inv: Element -> Element, p: CurvePoint, q: CurvePoint, odd: bool)
    requires IsSecp256k1(inv) && HasParity(p, odd) && HasParity(q, odd) && p.x == q.x
    ensures p == q
  {
    hide FMul, FAdd, PrimeOrder, OnCurve, Curve;
    if p.y != q.y {
      NoZeroOrdinate(inv, p);
      OppositeOrdinates(inv, p.x, p.y, q.y);
      OppositeParity(p.y, q.y);
    }
  }

  lemma OppositeParity(y: Element, v: Element)
    requires y != 0 && FAdd(y, v) == 0
    ensures y % 2 != v % 2
  {
    var u := y + v;
    if u >= FIELD {
      FShift(u - FIELD, 1);
      IsSelf(u - FIELD);
    }
  }

  /** p is the point that r and the recovery id name: over r or r + N, with the parity of the id. */
  ghost predicate Names(r: Scalar, recid: nat, p: CurvePoint) {
    HasParity(p, recid % 2 == 1) && p.x == r + (if recid >= 2 then N else 0)
  }

  // The point that r and the recovery id name, if there is one.
  method NoncePoint(inv: Element -> Element, sqrt: Element -> Element, r: Scalar, recid: nat) returns (ok: bool, x: Ge)
    requires IsSecp256k1(inv) && IsRoot(sqrt)
    ensures ok ==> !x.infinity && OnCurve(Finite(x.x, x.y)) && Names(r, recid, Finite(x.x, x.y))
    ensures !ok ==> forall p :: !Names(r, recid, p)
  {
    hide IsSecp256k1, OnCurve, IsRoot;
    ok, x := false, Ge(0, 0, true);
    OrderBounds();
    var fx: Element := r;
    if recid >= 2 {
      if fx >= FIELD - N {
        return;
      }
      fx := fx + N;
    }
    ok, x := SetXo(inv, sqrt, fx, recid % 2 == 1);
  }

  /** The key q and the nonce point p fit the signature: s*p = m*gen + r*q, and p is the point that r and the recovery
      id name. */
  ghost predicate RecoversTo(inv: Element -> Element, gen: CurvePoint, r: Scalar, s: Scalar, m: Scalar, recid: nat,
      p: CurvePoint, q: CurvePoint) {
    && r != 0 && s != 0 && Names(r, recid, p) && q.Finite?
    && Curve(inv).add(Mul(Curve(inv), m, gen), Mul(Curve(inv), r, q)) == Mul(Curve(inv), s, p)
  }

  // Scalars act through their residues.
  lemma ActsAs(inv: Element -> Element, u: int, v: int, p: CurvePoint)
    requires IsSecp256k1(inv) && Same(u, v)
    ensures Mul(Curve(inv), u, p) == Mul(Curve(inv), v, p)
  {
    hide Mul, Curve, IsGroup;
    KilledOnCurve(inv, p);
    ScalarIsMod(u);
    ScalarIsMod(v);
    MulMod(Curve(inv), N, u, p);
    MulMod(Curve(inv), N, v, p);
  }

  lemma UndoneBy(i: Scalar, r: Scalar, v: Scalar)
    requires MulS(r, i) == 1
    ensures Same(r * MulS(i, v), v)
  {
    ProductWithInverse(MulS(i, v), i, v, r);
    assert MulS(i, v) * r == r * MulS(i, v);
    RepSelf(v);
  }

  // r times the recovered combination: u2 = i*s and u1 = -(i*m) for the inverse i of r.
  lemma SolvesForKey(inv: Element -> Element, i: Scalar, r: Scalar, s: Scalar, m: Scalar, p: CurvePoint,
      gen: CurvePoint)
    requires IsSecp256k1(inv) && MulS(r, i) == 1
    ensures var g := Curve(inv);
      var q := g.add(Mul(g, MulS(i, s), p), Mul(g, Negate(MulS(i, m)), gen));
      g.add(Mul(g, m, gen), Mul(g, r, q)) == Mul(g, s, p)
  {
    hide Mul, Curve, IsGroup, MulS, Same, Negate;
    var g := Curve(inv);
    var u2, v := MulS(i, s), MulS(i, m);
    UndoneBy(i, r, s);
    UndoneBy(i, r, m);
    MulDistribute(g, r, Mul(g, u2, p), Mul(g, Negate(v), gen));
    MulMul(g, r, u2, p);
    ActsAs(inv, r * u2, s, p);
    KilledOnCurve(inv, gen);
    Ecdsa.NegatedMultiple(g, v, gen);
    var vg := Mul(g, v, gen);
    MulNegated(inv, r, vg);
    MulMul(g, r, v, gen);
    ActsAs(inv, r * v, m, gen);
    var a, b := Mul(g, m, gen), Mul(g, s, p);
    Comm(g, b, g.neg(a));
    Assoc(g, a, g.neg(a), b);
    Inverse(g, a);
    Unit(g, b);
  }

  lemma MulNegated(inv: Element -> Element, k: int, p: CurvePoint)
    requires IsSecp256k1(inv)
    ensures Mul(Curve(inv), k, Curve(inv).neg(p)) == Curve(inv).neg(Mul(Curve(inv), k, p))
  {
    hide Mul, Curve, IsGroup;
    var g := Curve(inv);
    MulDistribute(g, k, p, g.neg(p));
    Inverse(g, p);
    MulZero(g, k);
    NegUnique(g, Mul(g, k, p), Mul(g, k, g.neg(p)));
  }

  /** A signature with its recovery id fits one key at most. */
  lemma OneKey(inv: Element -> Element, gen: CurvePoint, r: Scalar, s: Scalar, m: Scalar, recid: nat, p: CurvePoint,
      q: CurvePoint, p': CurvePoint, q': CurvePoint)
    requires IsSecp256k1(inv) && RecoversTo(inv, gen, r, s, m, recid, p, q)
    requires RecoversTo(inv, gen, r, s, m, recid, p', q')
    ensures p == p' && q == q'
  {
    hide Mul, Curve, IsGroup, OnCurve;
    PointFromParity(inv, p, p', recid % 2 == 1);
    SameKey(inv, Mul(Curve(inv), m, gen), r, q, q');
  }

  lemma SameKey(inv: Element -> Element, a: CurvePoint, r: Scalar, q: CurvePoint, q': CurvePoint)
    requires IsSecp256k1(inv) && r != 0
    requires var g := Curve(inv); g.add(a, Mul(g, r, q)) == g.add(a, Mul(g, r, q'))
    ensures q == q'
  {
    hide Mul, Curve, IsGroup, OnCurve;
    var g := Curve(inv);
    GroupOf(g);
    Assoc(g, g.neg(a), a, Mul(g, r, q));
    Assoc(g, g.neg(a), a, Mul(g, r, q'));
    Inverse(g, a);
    Unit(g, Mul(g, r, q));
    Unit(g, Mul(g, r, q'));
    MultipleDecides(g, r, q, q');
  }

  /** secp256k1_ecdsa_sig_recover: the one key that fits the signature and the recovery id, if there is one. */
  method SigRecover(inv: Element -> Element, sqrt: Element -> Element, scalarInverse: Scalar -> Scalar,
      preG: seq<Slot>, sigr: Scalar, sigs: Scalar, message: Scalar, recid: nat, ghost gen: CurvePoint)
    returns (ok: bool, pubkey: Ge, ghost p: CurvePoint, ghost q: CurvePoint)
    requires IsSecp256k1(inv) && IsRoot(sqrt) && IsScalarInverse(scalarInverse) && recid < 4
    requires |preG| == TableSize(WINDOW_G) && HoldsMultiples(inv, preG, gen)
    ensures ok ==> RecoversTo(inv, gen, sigr, sigs, message, recid, p, q) && IsKey(pubkey, q)
    ensures !ok ==> forall p, q :: !RecoversTo(inv, gen, sigr, sigs, message, recid, p, q)
  {
    hide Mul, Curve, PrimeOrder, HoldsMultiples, Represents, TableSize, MulS, FMul, OnCurve, IsRoot, SetGejZinv;
    ok, pubkey, p, q := false, Ge(0, 0, true), ORIGIN, ORIGIN;
    if sigr == 0 || sigs == 0 {
      return;
    }
    var found, x := NoncePoint(inv, sqrt, sigr, recid);
    if !found {
      return;
    }
    p := Finite(x.x, x.y);
    UnitZ(x, p);
    var rn := scalarInverse(sigr);
    assert InvertsScalar(scalarInverse, sigr);
    var u1 := Negate(MulS(rn, message));
    var u2 := MulS(rn, sigs);
    var qj := EcmultOnCoordinates(inv, Gej(x.x, x.y, 1, false), u2, preG, Some(u1), p, gen);
    q := Curve(inv).add(Mul(Curve(inv), u2, p), Mul(Curve(inv), u1, gen));
    SolvesForKey(inv, rn, sigr, sigs, message, p, gen);
    RepresentsInfinity(qj, q);
    ok := !qj.infinity;
    if ok {
      pubkey := SetGejZinv(qj, inv(qj.z));
      NormalizedKey(inv, qj, q);
    } else {
      NoOtherKey(inv, gen, sigr, sigs, message, recid, p);
    }
  }

  lemma NormalizedKey(inv: Element -> Element, a: Gej, q: CurvePoint)
    requires IsInverse(inv) && q.Finite? && Represents(a, q)
    ensures IsKey(SetGejZinv(a, inv(a.z)), q)
  {
    hide FMul;
    assert Inverts(inv, a.z);
    AffineUnique(a, inv(a.z), q.x, q.y);
  }

  // The equation has the solution infinity, so no finite key.
  lemma NoOtherKey(inv: Element -> Element, gen: CurvePoint, r: Scalar, s: Scalar, m: Scalar, recid: nat, p: CurvePoint)
    requires IsSecp256k1(inv) && r != 0 && Names(r, recid, p)
    requires var g := Curve(inv); g.add(Mul(g, m, gen), Mul(g, r, ORIGIN)) == Mul(g, s, p)
    ensures forall p', q' :: !RecoversTo(inv, gen, r, s, m, recid, p', q')
  {
    hide Mul, Curve, IsGroup, OnCurve;
    forall p', q'
      ensures !RecoversTo(inv, gen, r, s, m, recid, p', q')
    {
      if RecoversTo(inv, gen, r, s, m, recid, p', q') {
        PointFromParity(inv, p, p', recid % 2 == 1);
        SameKey(inv, Mul(Curve(inv), m, gen), r, q', ORIGIN);
      }
    }
  }

  /** A signature verifies under a finite key exactly when some recovery id recovers that key. */
  lemma VerifiesIffRecovered(inv: Element -> Element, scalarInverse: Scalar -> Scalar, gen: CurvePoint, r: Scalar,
      s: Scalar, m: Scalar, q: CurvePoint)
    requires IsSecp256k1(inv) && IsScalarInverse(scalarInverse) && q.Finite?
    ensures Accepted(Curve(inv), XOf, scalarInverse, gen, r, s, q, m) <==>
      exists recid, p :: recid < 4 && RecoversTo(inv, gen, r, s, m, recid, p, q)
  {
    hide Mul, Curve, IsGroup, MulS;
    if r != 0 && s != 0 {
      var g, i := Curve(inv), scalarInverse(s);
      assert InvertsScalar(scalarInverse, s);
      var t := g.add(Mul(g, MulS(i, r), q), Mul(g, MulS(i, m), gen));
      AddIsPlus(inv, q, q);
      if Accepted(g, XOf, scalarInverse, gen, r, s, q, m) {
        ScaledBack(inv, i, r, s, m, q, gen);
        NameOf(inv, r, t);
        assert RecoversTo(inv, gen, r, s, m, RecoveryId(t.x, t.y), t, q);
      }
      if exists recid, p :: recid < 4 && RecoversTo(inv, gen, r, s, m, recid, p, q) {
        var recid, p :| recid < 4 && RecoversTo(inv, gen, r, s, m, recid, p, q);
        ScaledBack(inv, i, r, s, m, q, gen);
        MultipleDecides(g, s, t, p);
        SecondCase(r, p.x);
      }
    }
  }

  lemma NameOf(inv: Element -> Element, r: Scalar, t: CurvePoint)
    requires t.Finite? && t.x % N == r
    ensures var recid := RecoveryId(t.x, t.y); recid < 4 && Names(r, recid, t)
  {
    OrderBounds();
    SecondCase(r, t.x);
  }

  // s times the combination that verification forms, for the inverse i of s.
  lemma ScaledBack(inv: Element -> Element, i: Scalar, r: Scalar, s: Scalar, m: Scalar, q: CurvePoint, gen: CurvePoint)
    requires IsSecp256k1(inv) && MulS(s, i) == 1
    ensures var g := Curve(inv);
      g.add(Mul(g, m, gen), Mul(g, r, q)) == Mul(g, s, g.add(Mul(g, MulS(i, r), q), Mul(g, MulS(i, m), gen)))
  {
    hide Mul, Curve, IsGroup, MulS, Same;
    var g := Curve(inv);
    UndoneBy(i, s, r);
    UndoneBy(i, s, m);
    MulDistribute(g, s, Mul(g, MulS(i, r), q), Mul(g, MulS(i, m), gen));
    MulMul(g, s, MulS(i, r), q);
    MulMul(g, s, MulS(i, m), gen);
    ActsAs(inv, s * MulS(i, r), r, q);
    ActsAs(inv, s * MulS(i, m), m, gen);
    Comm(g, Mul(g, m, gen), Mul(g, r, q));
  }

  // A signing nonce explains the signature for the signer's key.
  lemma SignerRecovers(inv: Element -> Element, gen: CurvePoint, r: Scalar, s: Scalar, d: Scalar, m: Scalar, k: Scalar,
      recid: nat)
    requires IsSecp256k1(inv) && gen.Finite? && r != 0 && s != 0 && d != 0 && k != 0
    requires SignedBy(Curve(inv), XOf, YOf, gen, r, s, d, m, k, recid) && XOf(Mul(Curve(inv), k, gen)) % N == r
    ensures recid < 4 && RecoversTo(inv, gen, r, s, m, recid, Mul(Curve(inv), k, gen), Mul(Curve(inv), d, gen))
  {
    hide Mul, Curve, IsGroup, Same;
    var g := Curve(inv);
    NonzeroIsFinite(inv, gen, k);
    NonzeroIsFinite(inv, gen, d);
    NameOf(inv, r, Mul(g, k, gen));
    MulMul(g, s, k, gen);
    MulMul(g, r, d, gen);
    MulAdd(g, m, r * d, gen);
    ActsAs(inv, s * k, m + r * d, gen);
  }

  /** Signing and then recovering yields the signer's public key. */
  method SignThenRecover(ctx: GenContext<CurvePoint>, inv: Element -> Element, sqrt: Element -> Element,
      scalarInverse: Scalar -> Scalar, preG: seq<Slot>, seckey: Scalar, message: Scalar, nonce: Scalar)
    returns (ok: bool, recovered: bool, pubkey: Ge)
    requires IsSecp256k1(inv) && IsRoot(sqrt) && IsScalarInverse(scalarInverse) && ctx.Valid() && ctx.g == Curve(inv)
    requires ctx.gen.Finite?
    requires seckey != 0 && nonce != 0 && XOf(Mul(ctx.g, nonce, ctx.gen)) % N != 0
    requires |preG| == TableSize(WINDOW_G) && HoldsMultiples(inv, preG, ctx.gen)
    ensures ok ==> recovered && IsKey(pubkey, Mul(ctx.g, seckey, ctx.gen))
  {
    hide Mul, Curve, IsGroup, HoldsMultiples, TableSize, IsRoot, SignatureOf, ToScalar;
    var g, gen := ctx.g, ctx.gen;
    AbscissaOfCurve(inv);
    OrdinateOfCurve(inv);
    assert HasOrderN(g, gen) by { AddIsPlus(inv, gen, gen); }
    var sigr, sigs, recid;
    ok, sigr, sigs, recid := SigSign(ctx, XOf, YOf, scalarInverse, seckey, message, nonce);
    recovered, pubkey := false, Ge(0, 0, true);
    if ok {
      OppositeNonce(g, XOf, gen, nonce);
      ghost var k :=
        if SignedBy(g, XOf, YOf, gen, sigr, sigs, seckey, message, nonce, recid) then nonce else Negate(nonce);
      SignerRecovers(inv, gen, sigr, sigs, seckey, message, k, recid);
      ghost var p, q;
      recovered, pubkey, p, q := SigRecover(inv, sqrt, scalarInverse, preG, sigr, sigs, message, recid, gen);
      if recovered {
        OneKey(inv, gen, sigr, sigs, message, recid, p, q, Mul(g, k, gen), Mul(g, seckey, gen));
      }
    }
  }
}
