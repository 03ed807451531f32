/** Arithmetic on an isomorphic image of the curve: x is multiplied by the square and y by the cube of a common z
    coordinate, the formulas stay the same, and one multiplication of z leads back. */
module IsomorphicCurve {
  import opened AbelianGroup
  import opened Secp256k1
  import opened FieldElement
  import opened Points
  import opened Jacobian
  import opened CurveLaw
  import opened UnifiedAdd
  import opened PointTables
  import opened CurveGroup

  function Image(p: Affine, w: Element): Affine {
    if p.Infinity? then Infinity else Stretch(p, w)
  }

  lemma ImageOrdinate(inv: Element -> Element, p: Affine, w: Element)
    requires IsInverse(inv) && w != 0 && p.Finite?
    ensures Stretch(p, w).y == 0 <==> p.y == 0
  {
    hide FMul;
    FNonzero(inv, w, w);
    FNonzero(inv, FSqr(w), w);
    FOne(Cube(w));
    if p.y != 0 {
      FNonzero(inv, p.y, Cube(w));
    }
  }

  lemma TangentImage(inv: Element -> Element, p: Affine, w: Element)
    requires IsInverse(inv) && w != 0 && p.Finite? && p.y != 0
    ensures Plus(inv, Stretch(p, w), Stretch(p, w)) == Stretch(Plus(inv, p, p), w)
  {
    hide FMul, FSub, ScaledBy, ThirdPoint;
    StretchScaled(p, w);
    ImageOrdinate(inv, p, w);
    var x, x', y, y' := p.x, Stretch(p, w).x, p.y, Stretch(p, w).y;
    ScaledConstant(w, 3);
    ScaledConstant(w, 2);
    ScaledMul(w, x, x', 2, x, x', 2);
    ScaledMul(w, FSqr(x), FSqr(x'), 4, 3, 3, 0);
    ScaledMul(w, y, y', 3, 2, 2, 0);
    FNonzero(inv, y, 2);
    SlopeScaled(inv, FMul(FSqr(x), 3), FMul(FSqr(x'), 3), FMul(y, 2), FMul(y', 2), w, 3);
    ThirdPointScaled(TangentSlope(inv, p), TangentSlope(inv, Stretch(p, w)), p, x, x', w);
  }

  /** The law commutes with the isomorphism, in every case. */
  lemma PlusImage(inv: Element -> Element, p: Affine, q: Affine, w: Element)
    requires IsInverse(inv) && w != 0
    ensures Plus(inv, Image(p, w), Image(q, w)) == Image(Plus(inv, p, q), w)
  {
    hide FMul, FSub, ThirdPoint, ChordSlope, TangentSlope;
    if p.Finite? && q.Finite? {
      StretchInjective(inv, p, q, w);
      ImageOrdinate(inv, p, w);
      if p.x != q.x {
        PlusStretched(inv, p, q, w);
      } else if p.y == q.y && p.y != 0 {
        TangentImage(inv, p, w);
      }
    }
  }

  /** Doubling on the image. */
  lemma DoubleImage(inv: Element -> Element, r: Gej, s: CurvePoint, w: Element)
    requires IsSecp256k1(inv) && w != 0 && Represents(r, Image(s, w))
    ensures Represents(DoubleVar(r).r, Image(Curve(inv).add(s, s), w))
  {
    hide Curve, Plus, FMul;
    AddIsPlus(inv, s, s);
    PlusImage(inv, s, s, w);
    if s.Finite? {
      NoZeroOrdinate(inv, s);
      ImageOrdinate(inv, s, w);
      hide DoubleVar, Stretch;
      DoubleIsTangent(inv, r, Stretch(s, w));
    } else {
      PlusInfinity(inv);
    }
  }

  lemma PlusInfinity(inv: Element -> Element)
    ensures Plus(inv, Infinity, Infinity) == Infinity
  {
  }

  /** Adding an entry that is affine on the image. */
  lemma AddImage(inv: Element -> Element, r: Gej, s: CurvePoint, b: Ge, q: CurvePoint, w: Element)
    requires IsSecp256k1(inv) && w != 0 && Represents(r, Image(s, w)) && q.Finite? && !b.infinity
    requires Finite(b.x, b.y) == Stretch(q, w)
    ensures Represents(AddGeVar(r, b).r, Image(Curve(inv).add(s, q), w))
  {
    hide Curve, Plus, FMul, AddGeVar, Represents;
    AddIsPlus(inv, s, q);
    PlusImage(inv, s, q, w);
    if s.Finite? {
      NoZeroOrdinate(inv, s);
      ImageOrdinate(inv, s, w);
    }
    AddGeVarIsPlus(inv, r, Image(s, w), b, Stretch(q, w));
  }

  // An affine point of the curve itself has the inverse of w for its z coordinate on the image.
  lemma AffineOnImage(inv: Element -> Element, b: Ge, q: Affine, w: Element)
    requires IsInverse(inv) && w != 0 && !b.infinity && q == Finite(b.x, b.y)
    ensures FMul(inv(w), w) == 1 && Represents(Gej(b.x, b.y, inv(w), false), Stretch(q, w))
  {
    hide FMul;
    var i := inv(w);
    assert Inverts(inv, w);
    FComm(w, i);
    FOne(w);
    SquareInverse(i, w);
    FCancel(b.x, FSqr(w), FSqr(i));
    FCancel(b.y, Cube(w), Cube(i));
  }

  /** Adding a point that is affine on the curve itself: the common z coordinate is the inverse that the code passes. */
  lemma AddZinvImage(inv: Element -> Element, r: Gej, s: CurvePoint, b: Ge, q: CurvePoint, w: Element)
    requires IsSecp256k1(inv) && w != 0 && Represents(r, Image(s, w)) && !b.infinity && q == Finite(b.x, b.y)
    ensures Represents(AddZinvVar(r, b, w), Image(Curve(inv).add(s, q), w))
  {
    hide Curve, Plus, FMul, AddZinvVar, Represents;
    AddIsPlus(inv, s, q);
    PlusImage(inv, s, q, w);
    if s.Finite? {
      NoZeroOrdinate(inv, s);
      ImageOrdinate(inv, s, w);
    }
    AffineOnImage(inv, b, q, w);
    AddZinvIsPlus(inv, r, Image(s, w), b, w, inv(w), Stretch(q, w));
  }

  /** The final multiplication of z by w leads back to the curve. */
  lemma BackFromImage(inv: Element -> Element, r: Gej, s: CurvePoint, w: Element)
    requires IsInverse(inv) && w != 0 && Represents(r, Image(s, w))
    ensures Represents(if r.infinity then r else Lift(r, w), s)
  {
    if s.Finite? {
      LiftRepresents(inv, r, w, s);
    }
  }

  lemma StretchOpposite(q: Affine, w: Element)
    requires q.Finite?
    ensures Stretch(Opposite(q), w) == Finite(Stretch(q, w).x, Neg(Stretch(q, w).y))
  {
    hide FMul, FSub;
    var c := Cube(w);
    FDistribute(c, 0, q.y);
    FOne(c);
    FComm(c, Neg(q.y));
    FComm(c, q.y);
  }
}
