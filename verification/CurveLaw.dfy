/** The chord-and-tangent law on the curve, and the proof that the Jacobian formulas compute it. */
module CurveLaw {
  import opened Residues
  import opened Secp256k1
  import opened FieldElement
  import opened Points
  import opened Jacobian

  datatype Affine = Infinity | Finite(x: Element, y: Element)

  // y^2 = x^3 + 7
  ghost predicate OnCurve(p: Affine) {
    p.Finite? ==> FSqr(p.y) == FAdd(FMul(FSqr(p.x), p.x), 7)
  }

  // The third point on the line of slope l through (x1, y1) and a point over x2, reflected.
  function ThirdPoint(l: Element, x1: Element, y1: Element, x2: Element): (t: Affine)
    ensures t.Finite?
  {
    var x3 := FSub(FSub(FSqr(l), x1), x2);
    Finite(x3, FSub(FMul(l, FSub(x1, x3)), y1))
  }

  function ChordSlope(inv: Element -> Element, p: Affine, q: Affine): Element
    requires p.Finite? && q.Finite?
  {
    FMul(FSub(q.y, p.y), inv(FSub(q.x, p.x)))
  }

  function TangentSlope(inv: Element -> Element, p: Affine): Element
    requires p.Finite?
  {
    FMul(FMul(FSqr(p.x), 3), inv(FMul(p.y, 2)))
  }

  /** The sum of two points by the chord-and-tangent construction. */
  function Plus(inv: Element -> Element, p: Affine, q: Affine): Affine {
    if p.Infinity? then q
    else if q.Infinity? then p
    else if p.x != q.x then ThirdPoint(ChordSlope(inv, p, q), p.x, p.y, q.x)
    else if p.y != q.y || p.y == 0 then Infinity
    else ThirdPoint(TangentSlope(inv, p), p.x, p.y, p.x)
  }

  /** A Jacobian point represents an affine one. */
  ghost predicate Represents(a: Gej, p: Affine) {
    match p
    case Infinity => a.infinity
    case Finite(x, y) => !a.infinity && a.z != 0 && AffineOf(x, y, a)
  }

  lemma SubZero(x: Element, y: Element)
    ensures FSub(x, y) == 0 <==> x == y
  {
    if x < y {
      assert Residue(x - y, FIELD) == Residue(x - y + FIELD, FIELD);
    }
  }

  lemma Quotient(inv: Element -> Element, n: Element, d: Element)
    requires IsInverse(inv) && d != 0
    ensures FMul(FMul(n, inv(d)), d) == n
  {
    assert Inverts(inv, d);
    FComm(d, inv(d));
    FCancel(n, inv(d), d);
  }

  // Polynomials with integer coefficients, evaluated modulo the characteristic.
  lemma IsSqr(x: Element, u: int)
    requires Is(x, u)
    ensures Is(FSqr(x), u * u)
  {
    IsMul(x, x, u, u);
  }

  // The coordinates of the third point as polynomials, for a second abscissa x + d.
  function ThirdX(l: int, x: int, d: int): int {
    l * l - x - (x + d)
  }

  function ThirdY(l: int, x: int, y: int, d: int): int {
    l * (x - ThirdX(l, x, d)) - y
  }

  function Sq(d: int): int {
    d * d
  }

  function Cu(d: int): int {
    d * d * d
  }

  lemma ThirdPointValue(l: Element, x1: Element, y1: Element, x2: Element, d: int)
    requires Is(x2, x1 + d)
    ensures var t := ThirdPoint(l, x1, y1, x2); Is(t.x, ThirdX(l, x1, d)) && Is(t.y, ThirdY(l, x1, y1, d))
  {
    hide FMul, FSub, Is;
    IsSelf(l);
    IsSelf(x1);
    IsSelf(y1);
    IsSqr(l, l);
    IsSub(FSqr(l), x1, l * l, x1);
    IsSub(FSub(FSqr(l), x1), x2, l * l - x1, x1 + d);
    var e, x3 := ThirdX(l, x1, d), FSub(FSub(FSqr(l), x1), x2);
    IsSub(x1, x3, x1, e);
    IsMul(l, FSub(x1, x3), l, x1 - e);
    IsSub(FMul(l, FSub(x1, x3)), y1, l * (x1 - e), y1);
  }

  // The chord formulas for points in affine form: the result has z coordinate d.
  lemma ChordValue(l: Element, x1: Element, y1: Element, d: Element, i: Element)
    requires i == FMul(l, d)
    ensures Is(ChordX(x1, d, i), ThirdX(l, x1, d) * Sq(d))
    ensures Is(ChordY(x1, y1, d, i), ThirdY(l, x1, y1, d) * Cu(d))
  {
    hide FMul, FSub, FAdd, Is, ThirdX, ThirdY, Sq, Cu;
    IsSelf(l);
    IsSelf(x1);
    IsSelf(y1);
    IsSelf(d);
    IsMul(l, d, l, d);
    IsSqr(d, d);
    IsSqr(i, l * d);
    var d2 := FSqr(d);
    IsMul(d, d2, d, d * d);
    IsMul(x1, d2, x1, d * d);
    var t, d3 := FMul(x1, d2), FMul(d, d2);
    IsAdd(t, t, x1 * (d * d), x1 * (d * d));
    IsAdd(d3, FAdd(t, t), d * (d * d), x1 * (d * d) + x1 * (d * d));
    IsSub(FSqr(i), FAdd(d3, FAdd(t, t)), l * d * (l * d), d * (d * d) + (x1 * (d * d) + x1 * (d * d)));
    ChordIdentities(l, x1, y1, d);
    var x, xv := ChordX(x1, d, i), ThirdX(l, x1, d) * Sq(d);
    IsSub(t, x, x1 * (d * d), xv);
    IsMul(FSub(t, x), i, x1 * (d * d) - xv, l * d);
    IsMul(d3, y1, d * (d * d), y1);
    IsSub(FMul(FSub(t, x), i), FMul(d3, y1), (x1 * (d * d) - xv) * (l * d), d * (d * d) * y1);
  }

  lemma ChordIdentities(l: int, x: int, y: int, d: int)
    ensures l * d * (l * d) - (d * (d * d) + (x * (d * d) + x * (d * d))) == ThirdX(l, x, d) * Sq(d)
    ensures (x * (d * d) - ThirdX(l, x, d) * Sq(d)) * (l * d) - d * (d * d) * y == ThirdY(l, x, y, d) * Cu(d)
  {
    ChordYIdentity(l, x, y, d);
  }

  lemma ChordYIdentity(l: int, x: int, y: int, d: int)
    ensures (x * (d * d) - (l * l - x - (x + d)) * (d * d)) * (l * d) - d * (d * d) * y
      == (l * (x - (l * l - x - (x + d))) - y) * (d * d * d)
  {
  }

  // A point whose coordinates are the third point's, times the powers of its z coordinate, represents it.
  lemma ThirdPointRepresented(l: Element, x1: Element, y1: Element, x2: Element, d: int, p: Gej, w: int)
    requires Is(x2, x1 + d) && Is(p.z, w) && Is(p.x, ThirdX(l, x1, d) * Sq(w)) && Is(p.y, ThirdY(l, x1, y1, d) * Cu(w))
    ensures AffineOf(ThirdPoint(l, x1, y1, x2).x, ThirdPoint(l, x1, y1, x2).y, p)
  {
    ThirdPointValue(l, x1, y1, x2, d);
    var t := ThirdPoint(l, x1, y1, x2);
    IsMul(p.z, p.z, w, w);
    IsMul(FSqr(p.z), p.z, w * w, w);
    assert Is(FSqr(p.z), Sq(w)) && Is(Cube(p.z), Cu(w));
    hide FMul, FSub, FAdd, ThirdPoint, ThirdX, ThirdY, Sq, Cu;
    IsMul(t.x, FSqr(p.z), ThirdX(l, x1, d), Sq(w));
    IsMul(t.y, Cube(p.z), ThirdY(l, x1, y1, d), Cu(w));
  }

  lemma DifferenceValue(x1: Element, x2: Element)
    ensures Is(x2, x1 + FSub(x2, x1))
  {
    IsSelf(x2);
    var k := Representative(FSub(x2, x1), x2 - x1);
    FShift(x2, -k);
  }

  // The chord in affine form.
  lemma UnitChord(l: Element, x1: Element, y1: Element, x2: Element, y2: Element)
    requires FSub(y2, y1) == FMul(l, FSub(x2, x1))
    ensures var d, i := FSub(x2, x1), FSub(y2, y1); var t := ThirdPoint(l, x1, y1, x2);
      AffineOf(t.x, t.y, Gej(ChordX(x1, d, i), ChordY(x1, y1, d, i), d, false))
  {
    var d, i := FSub(x2, x1), FSub(y2, y1);
    ChordValue(l, x1, y1, d, i);
    IsSelf(d);
    DifferenceValue(x1, x2);
    hide *;
    ThirdPointRepresented(l, x1, y1, x2, d, Gej(ChordX(x1, d, i), ChordY(x1, y1, d, i), d, false), d);
  }

  lemma SquareOfProduct(u: Element, v: Element)
    ensures FMul(FSqr(u), FSqr(v)) == FSqr(FMul(u, v)) && FMul(Cube(u), Cube(v)) == Cube(FMul(u, v))
  {
    hide FMul;
    FSwap(u, u, v, v);
    FSwap(FSqr(u), u, FSqr(v), v);
  }

  // An affine point brought to the common z coordinate Z = u*v.
  lemma CommonZ(x: Element, y: Element, p: Gej, v: Element)
    requires AffineOf(x, y, p)
    ensures ScaledBy(x, FMul(p.x, FSqr(v)), FMul(p.z, v), 2)
    ensures ScaledBy(y, FMul(FMul(p.y, FSqr(v)), v), FMul(p.z, v), 3)
  {
    hide FMul;
    FPowSmall(FMul(p.z, v));
    SquareOfProduct(p.z, v);
    FAssoc(x, FSqr(p.z), FSqr(v));
    FAssoc(y, Cube(p.z), Cube(v));
    FAssoc(p.y, FSqr(v), v);
  }

  // Both points of an addition at the common z coordinate.
  lemma CommonDifferences(x1: Element, y1: Element, a: Gej, x2: Element, y2: Element, b: Gej)
    requires AffineOf(x1, y1, a) && AffineOf(x2, y2, b)
    ensures var w := FMul(a.z, b.z);
      var u1, s1 := FMul(a.x, FSqr(b.z)), FMul(FMul(a.y, FSqr(b.z)), b.z);
      && ScaledBy(x1, u1, w, 2) && ScaledBy(y1, s1, w, 3)
      && ScaledBy(FSub(x2, x1), FSub(FMul(b.x, FSqr(a.z)), u1), w, 2)
      && ScaledBy(FSub(y2, y1), FSub(FMul(FMul(b.y, FSqr(a.z)), a.z), s1), w, 3)
  {
    hide FMul, FSub, ScaledBy;
    var w := FMul(a.z, b.z);
    FComm(a.z, b.z);
    CommonZ(x1, y1, a, b.z);
    CommonZ(x2, y2, b, a.z);
    ScaledSub(w, x2, FMul(b.x, FSqr(a.z)), x1, FMul(a.x, FSqr(b.z)), 2);
    ScaledSub(w, y2, FMul(FMul(b.y, FSqr(a.z)), a.z), y1, FMul(FMul(a.y, FSqr(b.z)), b.z), 3);
  }

  lemma ChordZ(az: Element, bz: Element, d: Element, h: Element)
    requires ScaledBy(d, h, FMul(az, bz), 2)
    ensures ScaledBy(d, FMul(az, FMul(h, bz)), FMul(az, bz), 3)
  {
    hide FMul;
    var w := FMul(az, bz);
    FAssoc(d, FPow(w, 2), w);
    FComm(h, bz);
    FAssoc(az, bz, h);
    FComm(w, h);
  }

  // Multiplying by a power of an invertible element keeps non-zero elements non-zero.
  lemma ScaledNonzero(inv: Element -> Element, x: Element, y: Element, w: Element, n: nat)
    requires IsInverse(inv) && w != 0 && ScaledBy(x, y, w, n)
    ensures x == 0 <==> y == 0
  {
    assert Inverts(inv, w);
    ScaledZero(w, inv(w), x, y, n);
  }

  // A Jacobian point rescaled by a non-zero element represents what the original does.
  lemma RescaledRepresents(inv: Element -> Element, p: Gej, q: Gej, l: Element, t: Affine)
    requires IsInverse(inv) && l != 0 && t.Finite? && AffineOf(t.x, t.y, p) && p.z != 0 && !q.infinity
    requires Rescaled(p, q, l)
    ensures Represents(q, t)
  {
    assert Inverts(inv, l);
    RescaledSameAffine(p, q, l, inv(l), t.x, t.y);
    FPowSmall(l);
    FNonzero(inv, p.z, l);
  }

  lemma AddChord(inv: Element -> Element, a: Gej, p: Affine, b: Gej, q: Affine)
    requires IsInverse(inv) && p.Finite? && q.Finite? && Represents(a, p) && Represents(b, q) && p.x != q.x
    ensures Represents(AddVar(a, b).r, ThirdPoint(ChordSlope(inv, p, q), p.x, p.y, q.x))
  {
    hide FMul, FSub, ChordX, ChordY, ScaledBy, DoubleVar, ThirdPoint;
    CommonDifferences(p.x, p.y, a, q.x, q.y, b);
    var w := FMul(a.z, b.z);
    FNonzero(inv, a.z, b.z);
    var d, e := FSub(q.x, p.x), FSub(q.y, p.y);
    SubZero(q.x, p.x);
    Quotient(inv, e, d);
    UnitChord(ChordSlope(inv, p, q), p.x, p.y, q.x, q.y);
    var u1, s1 := FMul(a.x, FSqr(b.z)), FMul(FMul(a.y, FSqr(b.z)), b.z);
    var h, i := FSub(FMul(b.x, FSqr(a.z)), u1), FSub(FMul(FMul(b.y, FSqr(a.z)), a.z), s1);
    ScaledNonzero(inv, d, h, w, 2);
    ChordScaled(w, p.x, u1, p.y, s1, d, h, e, i);
    ChordZ(a.z, b.z, d, h);
    var unit := Gej(ChordX(p.x, d, e), ChordY(p.x, p.y, d, e), d, false);
    RescaledByCube(unit, AddVar(a, b).r, w);
    FNonzero(inv, w, w);
    FNonzero(inv, FSqr(w), w);
    RescaledRepresents(inv, unit, AddVar(a, b).r, Cube(w), ThirdPoint(ChordSlope(inv, p, q), p.x, p.y, q.x));
  }

  lemma IsTimes(x: Element, u: int, c: Element)
    requires Is(x, u)
    ensures Is(FMul(x, c), u * c)
  {
    IsSelf(c);
    IsMul(x, c, u, c);
  }

  // Doubling in affine form: the result has z coordinate 2y.
  lemma DoubleValue(l: Element, x: Element, y: Element)
    requires FMul(FSqr(x), 3) == FMul(l, FMul(y, 2))
    ensures var r := DoubleVar(Gej(x, y, 1, false)).r;
      Is(r.z, 2 * y) && Is(r.x, ThirdX(l, x, 0) * Sq(2 * y)) && Is(r.y, ThirdY(l, x, y, 0) * Cu(2 * y))
  {
    hide FMul, FSub, FAdd, Is, ThirdX, ThirdY, Sq, Cu;
    IsSelf(l);
    IsSelf(x);
    IsSelf(y);
    FOne(y);
    IsTimes(y, y, 2);
    IsMul(l, FMul(y, 2), l, y * 2);
    var t1 := FMul(FSqr(x), 3);
    IsSqr(t1, l * (y * 2));
    IsSqr(y, y);
    IsTimes(FSqr(y), y * y, 2);
    var t3 := FMul(FSqr(y), 2);
    IsSqr(t3, y * y * 2);
    IsTimes(FSqr(t3), y * y * 2 * (y * y * 2), 2);
    IsMul(t3, x, y * y * 2, x);
    var t5 := FMul(t3, x);
    IsTimes(t5, y * y * 2 * x, 4);
    IsTimes(t5, y * y * 2 * x, 6);
    var t2v := l * (y * 2) * (l * (y * 2));
    IsSub(FSqr(t1), FMul(t5, 4), t2v, y * y * 2 * x * 4);
    IsSub(FMul(t5, 6), FSqr(t1), y * y * 2 * x * 6, t2v);
    IsMul(t1, FSub(FMul(t5, 6), FSqr(t1)), l * (y * 2), y * y * 2 * x * 6 - t2v);
    IsSub(FMul(t1, FSub(FMul(t5, 6), FSqr(t1))), FMul(FSqr(t3), 2), l * (y * 2) * (y * y * 2 * x * 6 - t2v),
        y * y * 2 * (y * y * 2) * 2);
    DoubleIdentities(l, x, y);
  }

  lemma DoubleIdentities(l: int, x: int, y: int)
    ensures l * (y * 2) * (l * (y * 2)) - y * y * 2 * x * 4 == ThirdX(l, x, 0) * Sq(2 * y)
    ensures l * (y * 2) * (y * y * 2 * x * 6 - l * (y * 2) * (l * (y * 2))) - y * y * 2 * (y * y * 2) * 2
      == ThirdY(l, x, y, 0) * Cu(2 * y)
  {
    DoubleYIdentity(l, x, y);
  }

  lemma DoubleYIdentity(l: int, x: int, y: int)
    ensures l * (y * 2) * (y * y * 2 * x * 6 - l * (y * 2) * (l * (y * 2))) - y * y * 2 * (y * y * 2) * 2
      == (l * (x - (l * l - x - (x + 0))) - y) * (2 * y * (2 * y) * (2 * y))
  {
  }

  lemma UnitDouble(l: Element, x: Element, y: Element)
    requires FMul(FSqr(x), 3) == FMul(l, FMul(y, 2))
    ensures var t := ThirdPoint(l, x, y, x); AffineOf(t.x, t.y, DoubleVar(Gej(x, y, 1, false)).r)
  {
    DoubleValue(l, x, y);
    IsSelf(x);
    hide *;
    ThirdPointRepresented(l, x, y, x, 0, DoubleVar(Gej(x, y, 1, false)).r, 2 * y);
  }

  lemma ScaledConstant(w: Element, c: Element)
    ensures ScaledBy(c, c, w, 0)
  {
    FOne(c);
  }

  // Doubling a rescaled point rescales the double by the fourth power.
  lemma DoubleScaled(x: Element, y: Element, a: Gej)
    requires !a.infinity && AffineOf(x, y, a)
    ensures Rescaled(DoubleVar(Gej(x, y, 1, false)).r, DoubleVar(a).r, FPow(a.z, 4))
  {
    hide FMul, FSub, ScaledBy, FPow;
    var w := a.z;
    assert ScaledBy(x, a.x, w, 2) && ScaledBy(y, a.y, w, 3) && ScaledBy(1, a.z, w, 1) by { AffineScaled(x, y, a); }
    ScaledConstant(w, 2);
    ScaledConstant(w, 3);
    ScaledConstant(w, 4);
    ScaledConstant(w, 6);
    ScaledMul(w, 1, a.z, 1, y, a.y, 3);
    ScaledMul(w, FMul(1, y), FMul(a.z, a.y), 4, 2, 2, 0);
    ScaledMul(w, x, a.x, 2, x, a.x, 2);
    ScaledMul(w, FSqr(x), FSqr(a.x), 4, 3, 3, 0);
    var t1, t1' := FMul(FSqr(x), 3), FMul(FSqr(a.x), 3);
    ScaledMul(w, t1, t1', 4, t1, t1', 4);
    ScaledMul(w, y, a.y, 3, y, a.y, 3);
    ScaledMul(w, FSqr(y), FSqr(a.y), 6, 2, 2, 0);
    var t3, t3' := FMul(FSqr(y), 2), FMul(FSqr(a.y), 2);
    ScaledMul(w, t3, t3', 6, t3, t3', 6);
    ScaledMul(w, FSqr(t3), FSqr(t3'), 12, 2, 2, 0);
    ScaledMul(w, t3, t3', 6, x, a.x, 2);
    var t5, t5' := FMul(t3, x), FMul(t3', a.x);
    ScaledMul(w, t5, t5', 8, 4, 4, 0);
    ScaledMul(w, t5, t5', 8, 6, 6, 0);
    ScaledSub(w, FSqr(t1), FSqr(t1'), FMul(t5, 4), FMul(t5', 4), 8);
    ScaledSub(w, FMul(t5, 6), FMul(t5', 6), FSqr(t1), FSqr(t1'), 8);
    ScaledMul(w, t1, t1', 4, FSub(FMul(t5, 6), FSqr(t1)), FSub(FMul(t5', 6), FSqr(t1')), 8);
    ScaledSub(w, FMul(t1, FSub(FMul(t5, 6), FSqr(t1))), FMul(t1', FSub(FMul(t5', 6), FSqr(t1'))), FMul(FSqr(t3), 2),
        FMul(FSqr(t3'), 2), 12);
    var unit, r := DoubleVar(Gej(x, y, 1, false)).r, DoubleVar(a).r;
    RescaledByFourth(unit, r, w);
  }

  lemma AffineScaled(x: Element, y: Element, a: Gej)
    requires AffineOf(x, y, a)
    ensures ScaledBy(x, a.x, a.z, 2) && ScaledBy(y, a.y, a.z, 3) && ScaledBy(1, a.z, a.z, 1)
  {
    FPowSmall(a.z);
    FOne(a.z);
  }

  lemma RescaledByFourth(p: Gej, q: Gej, w: Element)
    requires ScaledBy(p.x, q.x, w, 8) && ScaledBy(p.y, q.y, w, 12) && ScaledBy(p.z, q.z, w, 4)
    ensures Rescaled(p, q, FPow(w, 4))
  {
    FPowSmall(FPow(w, 4));
    FPowAdd(w, 4, 4);
    FPowAdd(w, 8, 4);
  }

  lemma {:induction false} FPowNonzero(inv: Element -> Element, w: Element, n: nat)
    requires IsInverse(inv) && w != 0
    ensures FPow(w, n) != 0
  {
    if n > 0 {
      FPowNonzero(inv, w, n - 1);
      FNonzero(inv, FPow(w, n - 1), w);
    }
  }

  /** Doubling computes the tangent construction, for every finite point whose ordinate is not zero. */
  lemma DoubleIsTangent(inv: Element -> Element, a: Gej, p: Affine)
    requires IsInverse(inv) && p.Finite? && p.y != 0 && Represents(a, p)
    ensures Represents(DoubleVar(a).r, Plus(inv, p, p))
  {
    hide FMul, FSub, FAdd, ThirdPoint;
    FNonzero(inv, p.y, 2);
    Quotient(inv, FMul(FSqr(p.x), 3), FMul(p.y, 2));
    var l := TangentSlope(inv, p);
    UnitDouble(l, p.x, p.y);
    DoubleScaled(p.x, p.y, a);
    FPowNonzero(inv, a.z, 4);
    FOne(p.y);
    RescaledRepresents(inv, DoubleVar(Gej(p.x, p.y, 1, false)).r, DoubleVar(a).r, FPow(a.z, 4), ThirdPoint(l, p.x, p.y,
      p.x));
  }

  /** secp256k1_gej_add_var computes the chord-and-tangent law in every branch. */
  lemma AddVarIsPlus(inv: Element -> Element, a: Gej, p: Affine, b: Gej, q: Affine)
    requires IsInverse(inv) && Represents(a, p) && Represents(b, q) && (p.Finite? && p == q ==> p.y != 0)
    ensures Represents(AddVar(a, b).r, Plus(inv, p, q))
  {
    hide FMul, FSub, ChordX, ChordY, ScaledBy, DoubleVar, ThirdPoint, ChordSlope, TangentSlope;
    if p.Finite? && q.Finite? {
      if p.x != q.x {
        AddChord(inv, a, p, b, q);
      } else {
        CommonDifferences(p.x, p.y, a, q.x, q.y, b);
        var w := FMul(a.z, b.z);
        FNonzero(inv, a.z, b.z);
        SubZero(q.x, p.x);
        SubZero(q.y, p.y);
        var u1, s1 := FMul(a.x, FSqr(b.z)), FMul(FMul(a.y, FSqr(b.z)), b.z);
        ScaledNonzero(inv, FSub(q.x, p.x), FSub(FMul(b.x, FSqr(a.z)), u1), w, 2);
        ScaledNonzero(inv, FSub(q.y, p.y), FSub(FMul(FMul(b.y, FSqr(a.z)), a.z), s1), w, 3);
        if p.y == q.y {
          DoubleIsTangent(inv, a, p);
        }
      }
    }
  }

  /** secp256k1_gej_add_ge_var computes the law in every branch. */
  lemma AddGeVarIsPlus(inv: Element -> Element, a: Gej, p: Affine, b: Ge, q: Affine)
    requires IsInverse(inv) && Represents(a, p) && (p.Finite? && p == q ==> p.y != 0)
    requires q == if b.infinity then Infinity else Finite(b.x, b.y)
    ensures Represents(AddGeVar(a, b).r, Plus(inv, p, q))
  {
    MixedIsGeneral(a, b);
    FOne(1);
    FOne(b.x);
    FOne(b.y);
    AddVarIsPlus(inv, a, p, Gej(b.x, b.y, 1, b.infinity), q);
  }

  /** secp256k1_gej_add_zinv_var computes the law for a second point given with the inverse of its z coordinate. */
  lemma AddZinvIsPlus(inv: Element -> Element, a: Gej, p: Affine, b: Ge, bzinv: Element, w: Element, q: Affine)
    requires IsInverse(inv) && Represents(a, p) && FMul(w, bzinv) == 1 && Represents(Gej(b.x, b.y, w, b.infinity), q)
    requires p.Finite? && p == q ==> p.y != 0
    ensures Represents(AddZinvVar(a, b, bzinv), Plus(inv, p, q))
  {
    AddVarIsPlus(inv, a, p, Gej(b.x, b.y, w, b.infinity), q);
    ZinvAgrees(a, b, bzinv, w);
    RepresentsNonzero(a, p);
    RepresentsNonzero(AddVar(a, Gej(b.x, b.y, w, b.infinity)).r, Plus(inv, p, q));
    hide *;
    ZinvNonzero(inv, a, b, bzinv, w);
    SamePointRepresents(AddZinvVar(a, b, bzinv), AddVar(a, Gej(b.x, b.y, w, b.infinity)).r, Plus(inv, p, q));
  }

  lemma RepresentsNonzero(a: Gej, p: Affine)
    requires Represents(a, p)
    ensures a.infinity || a.z != 0
  {
  }

  lemma ZinvNonzero(inv: Element -> Element, a: Gej, b: Ge, bzinv: Element, w: Element)
    requires IsInverse(inv) && FMul(w, bzinv) == 1 && (a.infinity || a.z != 0)
    requires var t := AddVar(a, Gej(b.x, b.y, w, b.infinity)).r; t.infinity || t.z != 0
    ensures AddZinvVar(a, b, bzinv).infinity || AddZinvVar(a, b, bzinv).z != 0
  {
    hide FMul, FSub, ChordX, ChordY, DoubleVar, AddVar;
    if !a.infinity && !b.infinity {
      var h := FSub(FMul(b.x, FSqr(FMul(a.z, bzinv))), a.x);
      if h == 0 {
        ZinvWithoutChord(a, b, bzinv, w);
      } else {
        FNonzero(inv, a.z, h);
      }
    }
  }

  lemma SamePointRepresents(r: Gej, t: Gej, s: Affine)
    requires SamePoint(r, t) && Represents(t, s) && (r.infinity || r.z != 0)
    ensures Represents(r, s)
  {
  }

  /** secp256k1_gej_eq_x_var: multiplying by the square of the z coordinate decides equality of abscissas. */
  lemma EqXVar(inv: Element -> Element, a: Gej, p: Affine, x: Element)
    requires IsInverse(inv) && p.Finite? && Represents(a, p)
    ensures FMul(FSqr(a.z), x) == a.x <==> x == p.x
  {
    hide FMul;
    FNonzero(inv, a.z, a.z);
    assert Inverts(inv, FSqr(a.z));
    FComm(FSqr(a.z), x);
    if FMul(x, FSqr(a.z)) == FMul(p.x, FSqr(a.z)) {
      FCancel(x, FSqr(a.z), inv(FSqr(a.z)));
      FCancel(p.x, FSqr(a.z), inv(FSqr(a.z)));
    }
  }
}
