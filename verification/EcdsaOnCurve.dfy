/** Signature verification as the code runs it: Jacobian coordinates and no inversion in the field. */
module EcdsaOnCurve {
  import opened AbelianGroup
  import opened Digits
  import opened Secp256k1
  import opened ScalarElement
  import opened FieldElement
  import opened Points
  import opened CurveLaw
  import opened PointTables
  import opened CurveGroup
  import opened UnifiedAdd
  import opened EcmultConst
  import opened CoordinateStrauss
  import opened Strauss
  import opened Ecdsa

  // The affine x coordinate; infinity has none.
  function XOf(p: CurvePoint): Element {
    match p
    case Infinity => 0
    case Finite(x, y) => x
  }

  /** Opposite points share their abscissa. */
  lemma AbscissaOfCurve(inv: Element -> Element)
    ensures IsAbscissa(Curve(inv), XOf)
  {
    forall p
      ensures SymmetricAt(Curve(inv), XOf, p)
    {
      hide Curve, Neg;
      NegIsOpposite(inv, p);
    }
  }

  // secp256k1_gej_eq_x_var
  method EqX(inv: Element -> Element, x: Element, a: Gej, ghost p: CurvePoint) returns (equal: bool)
    requires IsInverse(inv) && Represents(a, p) && p.Finite?
    ensures equal <==> x == p.x
  {
    equal := FMul(FSqr(a.z), x) == a.x;
    EqXVar(inv, a, p, x);
  }

  /** The abscissa modulo the order, compared without leaving Jacobian coordinates: x is r or r + N. */
  method XMatches(inv: Element -> Element, r: Scalar, a: Gej, ghost p: CurvePoint) returns (equal: bool)
    requires IsInverse(inv) && Represents(a, p) && p.Finite?
    ensures equal <==> XOf(p) % N == r
  {
    hide Represents;
    OrderBounds();
    SecondCase(r, XOf(p));
    equal := EqX(inv, r, a, p);
    if equal || r >= FIELD - N {
      return;
    }
    equal := EqX(inv, r + N, a, p);
  }

  // What a public key in affine form stands for.
  ghost predicate IsKey(b: Ge, p: CurvePoint) {
    p == if b.infinity then Infinity else Finite(b.x, b.y)
  }

  lemma UnitZ(b: Ge, p: CurvePoint)
    requires IsKey(b, p)
    ensures Represents(Gej(b.x, b.y, 1, b.infinity), p)
  {
    FOne(1);
    FOne(b.x);
    FOne(b.y);
  }

  /** secp256k1_ecdsa_sig_verify on coordinates accepts exactly what section 4.1.4 of SEC 1 accepts on the curve. */
  method SigVerifyOnCurve(inv: Element -> Element, scalarInverse: Scalar -> Scalar, preG: seq<Slot>, sigr: Scalar,
      sigs: Scalar, pubkey: Ge, message: Scalar, ghost key: CurvePoint, ghost gen: CurvePoint) returns (ok: bool)
    requires IsSecp256k1(inv) && IsKey(pubkey, key) && |preG| == TableSize(WINDOW_G) && HoldsMultiples(inv, preG, gen)
    ensures ok <==> Accepted(Curve(inv), XOf, scalarInverse, gen, sigr, sigs, key, message)
  {
    hide Mul, Curve, PrimeOrder, HoldsMultiples, Represents, TableSize, MulS, FMul;
    if sigr == 0 || sigs == 0 {
      return false;
    }
    var sn := scalarInverse(sigs);
    var u1 := MulS(sn, message);
    var u2 := MulS(sn, sigr);
    UnitZ(pubkey, key);
    var pr := EcmultOnCoordinates(inv, Gej(pubkey.x, pubkey.y, 1, pubkey.infinity), u2, preG, Some(u1), key, gen);
    ghost var p := Curve(inv).add(Mul(Curve(inv), u2, key), Mul(Curve(inv), u1, gen));
    AddIsPlus(inv, p, p);
    RepresentsInfinity(pr, p);
    if pr.infinity {
      return false;
    }
    ok := XMatches(inv, sigr, pr, p);
  }

  lemma RepresentsInfinity(a: Gej, p: Affine)
    requires Represents(a, p)
    ensures a.infinity <==> p.Infinity?
  {
  }
}
