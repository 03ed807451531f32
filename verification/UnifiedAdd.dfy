/** The branch-free addition with its alternative slope, against the chord-and-tangent law. */
module UnifiedAdd {
  import opened Secp256k1
  import opened FieldElement
  import opened Points
  import opened Jacobian
  import opened CurveLaw

  function Neg(x: Element): Element {
    FSub(0, x)
  }

  // (u1 + u2)^2 - u1*u2
  function Numerator(u1: Element, u2: Element): Element {
    FAdd(FSqr(FAdd(u1, u2)), FMul(u1, Neg(u2)))
  }

  function TailX(t: Element, rr: Element, m: Element): Element {
    FMul(FAdd(FSqr(rr), Neg(FMul(FSqr(m), t))), 4)
  }

  function TailY(t: Element, rr: Element, m: Element, n: Element): Element {
    var q := Neg(FMul(FSqr(m), t));
    FMul(Neg(FAdd(FMul(FAdd(FMul(FAdd(FSqr(rr), q), 2), q), rr), n)), 4)
  }

  /** secp256k1_gej_add_ge: b must not be infinity. */
  function AddGe(a: Gej, b: Ge): Gej {
    var u1, s1 := a.x, a.y;
    var u2 := FMul(b.x, FSqr(a.z));
    var s2 := FMul(FMul(b.y, FSqr(a.z)), a.z);
    var m := FAdd(s1, s2);
    var rr := Numerator(u1, u2);
    var degenerate := m == 0 && rr == 0;
    var rrAlt := if degenerate then FMul(s1, 2) else rr;
    var mAlt := if degenerate then FAdd(Neg(u2), u1) else m;
    var n := if degenerate then m else FSqr(FSqr(mAlt));
    var z := FMul(a.z, mAlt);
    var t := FAdd(u1, u2);
    if a.infinity then Gej(b.x, b.y, 1, false)
    else Gej(TailX(t, rrAlt, mAlt), TailY(t, rrAlt, mAlt, n), FMul(z, 2), z == 0)
  }

  lemma NegValue(x: Element, u: int)
    requires Is(x, u)
    ensures Is(Neg(x), -u)
  {
    IsSelf(0);
    IsSub(0, x, 0, u);
  }

  // The formulas of the tail for any representatives of its inputs.
  lemma TailValue(t: Element, rr: Element, m: Element, n: Element, tv: int, rv: int, nv: int)
    requires Is(t, tv) && Is(rr, rv) && Is(n, nv)
    ensures Is(TailX(t, rr, m), (rv * rv + -(m * m * tv)) * 4)
    ensures Is(TailY(t, rr, m, n), -(((rv * rv + -(m * m * tv)) * 2 + -(m * m * tv)) * rv + nv) * 4)
  {
    hide FMul, FSub, FAdd, Is, Neg;
    IsSelf(m);
    IsSqr(m, m);
    IsMul(FSqr(m), t, m * m, tv);
    var qv := m * m * tv;
    NegValue(FMul(FSqr(m), t), qv);
    var q := Neg(FMul(FSqr(m), t));
    IsSqr(rr, rv);
    IsAdd(FSqr(rr), q, rv * rv, -qv);
    var x0, xv := FAdd(FSqr(rr), q), rv * rv + -qv;
    IsTimes(x0, xv, 4);
    IsTimes(x0, xv, 2);
    IsAdd(FMul(x0, 2), q, xv * 2, -qv);
    var w := FAdd(FMul(x0, 2), q);
    IsMul(w, rr, xv * 2 + -qv, rv);
    IsAdd(FMul(w, rr), n, (xv * 2 + -qv) * rv, nv);
    NegValue(FAdd(FMul(w, rr), n), (xv * 2 + -qv) * rv + nv);
    IsTimes(Neg(FAdd(FMul(w, rr), n)), -((xv * 2 + -qv) * rv + nv), 4);
  }

  lemma TailIdentities(l: int, x: int, y: int, d: int, m: int)
    ensures (l * m * (l * m) + -(m * m * (2 * x + d))) * 4 == ThirdX(l, x, d) * Sq(2 * m)
    ensures -(((l * m * (l * m) + -(m * m * (2 * x + d))) * 2 + -(m * m * (2 * x + d))) * (l * m)
      + Cu(m) * (2 * y + l * d)) * 4
      == ThirdY(l, x, y, d) * Cu(2 * m)
  {
    TailXIdentity(l, x, d, m);
    TailYIdentity(l, x, y, d, m);
  }

  lemma TailXIdentity(l: int, x: int, d: int, m: int)
    ensures (l * m * (l * m) + -(m * m * (2 * x + d))) * 4 == (l * l - x - (x + d)) * (2 * m * (2 * m))
  {
  }

  lemma TailYIdentity(l: int, x: int, y: int, d: int, m: int)
    ensures -(((l * m * (l * m) + -(m * m * (2 * x + d))) * 2 + -(m * m * (2 * x + d))) * (l * m)
      + m * m * m * (2 * y + l * d)) * 4
      == (l * (x - (l * l - x - (x + d))) - y) * (2 * m * (2 * m) * (2 * m))
  {
  }

  // Scaling: with denominator of weight k the coordinates have weights 2k+2 and 3k+3.
  lemma TailScaled(w: Element, k: nat, t: Element, t': Element, rr: Element, rr': Element, m: Element, m': Element,
      n: Element, n': Element)
    requires ScaledBy(t, t', w, 2) && ScaledBy(rr, rr', w, k + 1) && ScaledBy(m, m', w, k)
    requires ScaledBy(n, n', w, 3 * k + 3)
    ensures ScaledBy(TailX(t, rr, m), TailX(t', rr', m'), w, 2 * k + 2)
    ensures ScaledBy(TailY(t, rr, m, n), TailY(t', rr', m', n'), w, 3 * k + 3)
  {
    hide FMul, FSub, FAdd, ScaledBy, FPow;
    ScaledConstant(w, 2);
    ScaledConstant(w, 4);
    ScaledMul(w, m, m', k, m, m', k);
    ScaledMul(w, FSqr(m), FSqr(m'), k + k, t, t', 2);
    var q, q' := FMul(FSqr(m), t), FMul(FSqr(m'), t');
    ScaledNeg(w, q, q', 2 * k + 2);
    ScaledMul(w, rr, rr', k + 1, rr, rr', k + 1);
    ScaledAdd(w, FSqr(rr), FSqr(rr'), Neg(q), Neg(q'), 2 * k + 2);
    var x, x' := FAdd(FSqr(rr), Neg(q)), FAdd(FSqr(rr'), Neg(q'));
    ScaledMul(w, x, x', 2 * k + 2, 4, 4, 0);
    ScaledMul(w, x, x', 2 * k + 2, 2, 2, 0);
    ScaledAdd(w, FMul(x, 2), FMul(x', 2), Neg(q), Neg(q'), 2 * k + 2);
    var v, v' := FAdd(FMul(x, 2), Neg(q)), FAdd(FMul(x', 2), Neg(q'));
    ScaledMul(w, v, v', 2 * k + 2, rr, rr', k + 1);
    ScaledAdd(w, FMul(v, rr), FMul(v', rr'), n, n', 3 * k + 3);
    var y, y' := FAdd(FMul(v, rr), n), FAdd(FMul(v', rr'), n');
    ScaledNeg(w, y, y', 3 * k + 3);
    ScaledMul(w, Neg(y), Neg(y'), 3 * k + 3, 4, 4, 0);
  }

  lemma ScaledNeg(w: Element, x: Element, x': Element, n: nat)
    requires ScaledBy(x, x', w, n)
    ensures ScaledBy(Neg(x), Neg(x'), w, n)
  {
    FOne(FPow(w, n));
    ScaledSub(w, 0, 0, x, x', n);
  }

  lemma CancelFactor(inv: Element -> Element, x: Element, y: Element, d: Element)
    requires IsInverse(inv) && d != 0 && FMul(x, d) == FMul(y, d)
    ensures x == y
  {
    assert Inverts(inv, d);
    FCancel(x, d, inv(d));
    FCancel(y, d, inv(d));
  }

  lemma NumeratorValue(x1: Element, x2: Element, d: int)
    requires Is(x2, x1 + d)
    ensures Is(FAdd(x1, x2), 2 * x1 + d) && Is(Numerator(x1, x2), (2 * x1 + d) * (2 * x1 + d) + x1 * -(x1 + d))
  {
    hide FMul, FSub, FAdd, Is, Neg;
    IsSelf(x1);
    IsAdd(x1, x2, x1, x1 + d);
    IsSqr(FAdd(x1, x2), 2 * x1 + d);
    NegValue(x2, x1 + d);
    IsMul(x1, Neg(x2), x1, -(x1 + d));
    IsAdd(FSqr(FAdd(x1, x2)), FMul(x1, Neg(x2)), (2 * x1 + d) * (2 * x1 + d), x1 * -(x1 + d));
  }

  lemma CurveValue(x: Element, y: Element, u: int, v: int)
    requires OnCurve(Finite(x, y)) && Is(x, u) && Is(y, v)
    ensures ToElement(v * v) == ToElement(u * u * u + 7)
  {
    IsSqr(y, v);
    IsSqr(x, u);
    IsMul(FSqr(x), x, u * u, u);
    IsSelf(7);
    hide FMul, FAdd, ToElement;
    IsAdd(FMul(FSqr(x), x), 7, u * u * u, 7);
  }

  lemma CongruentDifferences(a: int, b: int, c: int, e: int)
    requires ToElement(a) == ToElement(b) && ToElement(c) == ToElement(e)
    ensures ToElement(a - c) == ToElement(b - e)
  {
    var p := Distance(a, b);
    var q := Distance(c, e);
    hide ToElement;
    FShift(b - e, p - q);
    assert a - c == b - e + (p - q) * FIELD;
  }

  // x1^2 + x1*x2 + x2^2 times the difference of abscissas is y2^2 - y1^2.
  lemma NumeratorTimesDifference(x1: Element, y1: Element, x2: Element, y2: Element)
    requires OnCurve(Finite(x1, y1)) && OnCurve(Finite(x2, y2))
    ensures FMul(Numerator(x1, x2), FSub(x2, x1)) == FMul(FAdd(y1, y2), FSub(y2, y1))
  {
    var d, e := FSub(x2, x1), FSub(y2, y1);
    DifferenceValue(x1, x2);
    DifferenceValue(y1, y2);
    IsSelf(x1);
    IsSelf(y1);
    IsSelf(d);
    IsSelf(e);
    CurveValue(x1, y1, x1, y1);
    CurveValue(x2, y2, x1 + d, y1 + e);
    NumeratorValue(x1, x2, d);
    IsAdd(y1, y2, y1, y1 + e);
    var rv := (2 * x1 + d) * (2 * x1 + d) + x1 * -(x1 + d);
    IsMul(Numerator(x1, x2), d, rv, d);
    IsMul(FAdd(y1, y2), e, y1 + (y1 + e), e);
    hide *;
    var X, Y := (x1 + d) * (x1 + d) * (x1 + d) + 7, x1 * x1 * x1 + 7;
    CongruentDifferences((y1 + e) * (y1 + e), X, y1 * y1, Y);
    CubeIdentity(x1, d);
    SquareIdentity(y1, e);
    SameResidue(FMul(Numerator(x1, x2), d), FMul(FAdd(y1, y2), e), rv * d, (y1 + (y1 + e)) * e);
  }

  lemma SameResidue(x: Element, y: Element, u: int, v: int)
    requires Is(x, u) && Is(y, v) && ToElement(u) == ToElement(v)
    ensures x == y
  {
  }

  lemma CubeIdentity(x: int, d: int)
    ensures ((2 * x + d) * (2 * x + d) + x * -(x + d)) * d == (x + d) * (x + d) * (x + d) + 7 - (x * x * x + 7)
  {
  }

  lemma SquareIdentity(y: int, e: int)
    ensures (y + (y + e)) * e == (y + e) * (y + e) - y * y
  {
  }

  // On the curve the chord's slope is the numerator over the sum of the ordinates.
  lemma SlopeFromCurve(inv: Element -> Element, p: Affine, q: Affine)
    requires IsInverse(inv) && p.Finite? && q.Finite? && OnCurve(p) && OnCurve(q) && p.x != q.x
    ensures Numerator(p.x, q.x) == FMul(ChordSlope(inv, p, q), FAdd(p.y, q.y))
  {
    var l, d, m := ChordSlope(inv, p, q), FSub(q.x, p.x), FAdd(p.y, q.y);
    SubZero(q.x, p.x);
    Quotient(inv, FSub(q.y, p.y), d);
    NumeratorTimesDifference(p.x, p.y, q.x, q.y);
    hide FMul, FSub, FAdd, Numerator, OnCurve, ChordSlope;
    FAssoc(l, m, d);
    FComm(m, d);
    FAssoc(l, d, m);
    FComm(FMul(l, d), m);
    CancelFactor(inv, Numerator(p.x, q.x), FMul(l, m), d);
  }

  lemma ThreeSquares(x: int)
    ensures (2 * x + 0) * (2 * x + 0) + x * -(x + 0) == x * x * 3
  {
  }

  // With equal points the numerator is three times the square, the sum twice the ordinate.
  lemma EqualPoints(x: Element, y: Element)
    ensures Numerator(x, x) == FMul(FSqr(x), 3) && FAdd(y, y) == FMul(y, 2)
  {
    hide FMul, FSub, FAdd, Numerator, Is;
    IsSelf(x);
    IsSelf(y);
    NumeratorValue(x, x, 0);
    IsSqr(x, x);
    IsTimes(FSqr(x), x * x, 3);
    IsAdd(y, y, y, y);
    IsTimes(y, y, 2);
    ThreeSquares(x);
    SameResidue(Numerator(x, x), FMul(FSqr(x), 3), (2 * x + 0) * (2 * x + 0) + x * -(x + 0), x * x * 3);
    SameResidue(FAdd(y, y), FMul(y, 2), y + y, y * 2);
  }

  // Points over the same abscissa have equal or opposite ordinates.
  lemma OppositeOrdinates(inv: Element -> Element, x: Element, y1: Element, y2: Element)
    requires IsInverse(inv) && OnCurve(Finite(x, y1)) && OnCurve(Finite(x, y2)) && y1 != y2
    ensures FAdd(y1, y2) == 0
  {
    SubZero(y2, y1);
    NumeratorTimesDifference(x, y1, x, y2);
    FOne(Numerator(x, x));
    if FAdd(y1, y2) != 0 {
      FNonzero(inv, FAdd(y1, y2), FSub(y2, y1));
    }
  }

  // The tail at z coordinate one, for any slope l with numerator rr = l*m over the denominator m.
  lemma UnitTail(l: Element, x1: Element, y1: Element, x2: Element, rr: Element, m: Element, n: Element)
    requires rr == FMul(l, m) && Is(n, Cu(m) * (2 * y1 + l * FSub(x2, x1)))
    ensures var t, third := FAdd(x1, x2), ThirdPoint(l, x1, y1, x2);
      AffineOf(third.x, third.y, Gej(TailX(t, rr, m), TailY(t, rr, m, n), FMul(m, 2), false))
  {
    var d, t := FSub(x2, x1), FAdd(x1, x2);
    DifferenceValue(x1, x2);
    NumeratorValue(x1, x2, d);
    IsSelf(l);
    IsSelf(m);
    IsMul(l, m, l, m);
    IsTimes(m, m, 2);
    TailValue(t, rr, m, n, 2 * x1 + d, l * m, Cu(m) * (2 * y1 + l * d));
    TailIdentities(l, x1, y1, d, m);
    hide *;
    Twice(m);
    ThirdPointRepresented(l, x1, y1, x2, d, Gej(TailX(t, rr, m), TailY(t, rr, m, n), FMul(m, 2), false), 2 * m);
  }

  lemma Twice(m: int)
    ensures m * 2 == 2 * m
  {
  }

  // Weights of a power of w.
  lemma PowerWeights(w: Element, j: nat)
    ensures FPow(FPow(w, j), 1) == FPow(w, j) && FPow(FPow(w, j), 2) == FPow(w, 2 * j)
    ensures FPow(FPow(w, j), 3) == FPow(w, 3 * j)
  {
    hide FMul;
    FPowSmall(FPow(w, j));
    FPowAdd(w, j, j);
    FPowAdd(w, 2 * j, j);
  }

  // The tail at z coordinate w, for a denominator of weight k.
  lemma ScaledTail(inv: Element -> Element, w: Element, k: nat, l: Element, x1: Element, y1: Element, x2: Element,
      rr: Element, m: Element, n: Element, t': Element, rr': Element, m': Element, n': Element)
    requires IsInverse(inv) && w != 0 && m != 0
    requires rr == FMul(l, m) && Is(n, Cu(m) * (2 * y1 + l * FSub(x2, x1)))
    requires ScaledBy(FAdd(x1, x2), t', w, 2) && ScaledBy(rr, rr', w, k + 1) && ScaledBy(m, m', w, k)
        && ScaledBy(n, n', w, 3 * k + 3)
    ensures FMul(w, m') != 0
    ensures Represents(Gej(TailX(t', rr', m'), TailY(t', rr', m', n'), FMul(FMul(w, m'), 2), false),
      ThirdPoint(l, x1, y1, x2))
  {
    hide FMul, FSub, FAdd, ScaledBy, FPow, TailX, TailY, ThirdPoint, Is, Cu, Represents;
    UnitTail(l, x1, y1, x2, rr, m, n);
    var t := FAdd(x1, x2);
    TailScaled(w, k, t, t', rr, rr', m, m', n, n');
    ScaledConstant(w, 2);
    ScaledOnce(w);
    ScaledMul(w, 1, w, 1, m, m', k);
    FOne(m);
    ScaledMul(w, m, FMul(w, m'), k + 1, 2, 2, 0);
    ScaledNonzero(inv, m, m', w, k);
    FNonzero(inv, w, m');
    FNonzero(inv, m, 2);
    var unit := Gej(TailX(t, rr, m), TailY(t, rr, m, n), FMul(m, 2), false);
    var r := Gej(TailX(t', rr', m'), TailY(t', rr', m', n'), FMul(FMul(w, m'), 2), false);
    RescaledByPower(unit, r, w, k + 1);
    FPowNonzero(inv, w, k + 1);
    RescaledRepresents(inv, unit, r, FPow(w, k + 1), ThirdPoint(l, x1, y1, x2));
  }

  lemma ScaledOnce(w: Element)
    ensures ScaledBy(1, w, w, 1)
  {
    FPowSmall(w);
    FOne(w);
  }

  lemma RescaledByPower(p: Gej, q: Gej, w: Element, j: nat)
    requires ScaledBy(p.x, q.x, w, 2 * j) && ScaledBy(p.y, q.y, w, 3 * j) && ScaledBy(p.z, q.z, w, j)
    ensures Rescaled(p, q, FPow(w, j))
  {
    PowerWeights(w, j);
  }

  // The quantities the code forms, at the z coordinate of the first point.
  lemma CodeScaled(p: Affine, a: Gej, q: Affine)
    requires p.Finite? && q.Finite? && Represents(a, p)
    ensures var w, u2, s2 := a.z, FMul(q.x, FSqr(a.z)), FMul(FMul(q.y, FSqr(a.z)), a.z);
      && ScaledBy(p.x, a.x, w, 2) && ScaledBy(p.y, a.y, w, 3) && ScaledBy(q.x, u2, w, 2) && ScaledBy(q.y, s2, w, 3)
      && ScaledBy(FAdd(p.x, q.x), FAdd(a.x, u2), w, 2) && ScaledBy(FAdd(p.y, q.y), FAdd(a.y, s2), w, 3)
      && ScaledBy(Numerator(p.x, q.x), Numerator(a.x, u2), w, 4)
      && ScaledBy(FAdd(Neg(q.x), p.x), FAdd(Neg(u2), a.x), w, 2)
  {
    hide FMul, FSub, FAdd, ScaledBy, FPow, Neg;
    var w, u2, s2 := a.z, FMul(q.x, FSqr(a.z)), FMul(FMul(q.y, FSqr(a.z)), a.z);
    AffineScaled(p.x, p.y, a);
    OtherScaled(q.x, q.y, w);
    ScaledAdd(w, p.x, a.x, q.x, u2, 2);
    ScaledAdd(w, p.y, a.y, q.y, s2, 3);
    ScaledNeg(w, q.x, u2, 2);
    ScaledMul(w, FAdd(p.x, q.x), FAdd(a.x, u2), 2, FAdd(p.x, q.x), FAdd(a.x, u2), 2);
    ScaledMul(w, p.x, a.x, 2, Neg(q.x), Neg(u2), 2);
    ScaledAdd(w, FSqr(FAdd(p.x, q.x)), FSqr(FAdd(a.x, u2)), FMul(p.x, Neg(q.x)), FMul(a.x, Neg(u2)), 4);
    ScaledAdd(w, Neg(q.x), Neg(u2), p.x, a.x, 2);
  }

  lemma OtherScaled(x: Element, y: Element, w: Element)
    ensures ScaledBy(x, FMul(x, FSqr(w)), w, 2) && ScaledBy(y, FMul(FMul(y, FSqr(w)), w), w, 3)
  {
    FPowSmall(w);
    FAssoc(y, FSqr(w), w);
  }

  lemma FourthPower(m: Element, v: int)
    requires Is(m, v)
    ensures Is(FSqr(FSqr(m)), Cu(m) * v)
  {
    IsSelf(m);
    IsSqr(m, m);
    IsMul(FSqr(m), m, m * m, m);
    IsMul(FMul(FSqr(m), m), m, m * m * m, v);
    FAssoc(FSqr(m), m, m);
  }

  // The regular case: the denominator is the sum of the ordinates.
  lemma RegularTail(inv: Element -> Element, a: Gej, p: Affine, q: Affine, l: Element)
    requires IsInverse(inv) && p.Finite? && q.Finite? && Represents(a, p)
    requires Numerator(p.x, q.x) == FMul(l, FAdd(p.y, q.y)) && FSub(q.y, p.y) == FMul(l, FSub(q.x, p.x))
    requires FAdd(p.y, q.y) != 0
    ensures Represents(AddGe(a, Ge(q.x, q.y, false)), ThirdPoint(l, p.x, p.y, q.x))
  {
    CodeScaled(p, a, q);
    var w, u2, s2 := a.z, FMul(q.x, FSqr(a.z)), FMul(FMul(q.y, FSqr(a.z)), a.z);
    var m, m' := FAdd(p.y, q.y), FAdd(a.y, s2);
    OrdinateSum(l, p.x, p.y, q.x, q.y);
    hide FMul, FSub, FAdd, ScaledBy, FPow, TailX, TailY, ThirdPoint, Is, Cu, Numerator, Neg;
    FourthPower(m, 2 * p.y + l * FSub(q.x, p.x));
    ScaledMul(w, m, m', 3, m, m', 3);
    ScaledMul(w, FSqr(m), FSqr(m'), 6, FSqr(m), FSqr(m'), 6);
    ScaledNonzero(inv, m, m', w, 3);
    ScaledTail(inv, w, 3, l, p.x, p.y, q.x, Numerator(p.x, q.x), m, FSqr(FSqr(m)), FAdd(a.x, u2), Numerator(a.x, u2),
        m', FSqr(FSqr(m')));
  }

  lemma OrdinateSum(l: Element, x1: Element, y1: Element, x2: Element, y2: Element)
    requires FSub(y2, y1) == FMul(l, FSub(x2, x1))
    ensures Is(FAdd(y1, y2), 2 * y1 + l * FSub(x2, x1))
  {
    SecondOrdinate(l, y1, y2, FSub(x2, x1));
    IsSelf(y1);
    hide FMul, FSub, FAdd, Is;
    IsAdd(y1, y2, y1, y1 + l * FSub(x2, x1));
  }

  // The alternative slope: opposite ordinates over different abscissas.
  lemma DegenerateTail(inv: Element -> Element, a: Gej, p: Affine, q: Affine)
    requires IsInverse(inv) && p.Finite? && q.Finite? && Represents(a, p) && p.x != q.x
    requires FAdd(p.y, q.y) == 0 && Numerator(p.x, q.x) == 0
    ensures Represents(AddGe(a, Ge(q.x, q.y, false)), ThirdPoint(ChordSlope(inv, p, q), p.x, p.y, q.x))
  {
    CodeScaled(p, a, q);
    var w, u2, s2, l := a.z, FMul(q.x, FSqr(a.z)), FMul(FMul(q.y, FSqr(a.z)), a.z), ChordSlope(inv, p, q);
    SubZero(q.x, p.x);
    Quotient(inv, FSub(q.y, p.y), FSub(q.x, p.x));
    OrdinateSum(l, p.x, p.y, q.x, q.y);
    var m := FAdd(Neg(q.x), p.x);
    AlternativeSlope(l, p.x, p.y, q.x, q.y);
    assert Is(0, Cu(m) * (2 * p.y + l * FSub(q.x, p.x))) by { ZeroTimes(Cu(m), 2 * p.y + l * FSub(q.x, p.x)); }
    hide FMul, FSub, FAdd, ScaledBy, FPow, TailX, TailY, ThirdPoint, Is, Cu, Numerator, Neg, ChordSlope;
    ScaledNonzero(inv, FAdd(p.y, q.y), FAdd(a.y, s2), w, 3);
    ScaledNonzero(inv, Numerator(p.x, q.x), Numerator(a.x, u2), w, 4);
    ScaledConstant(w, 2);
    ScaledMul(w, p.y, a.y, 3, 2, 2, 0);
    ScaledZeros(w, 9);
    ScaledTail(inv, w, 2, l, p.x, p.y, q.x, FMul(p.y, 2), m, 0, FAdd(a.x, u2), FMul(a.y, 2), FAdd(Neg(u2), a.x), 0);
  }

  lemma ScaledZeros(w: Element, n: nat)
    ensures ScaledBy(0, 0, w, n)
  {
    FOne(FPow(w, n));
  }

  lemma ZeroTimes(c: int, v: int)
    requires Is(0, v)
    ensures Is(0, c * v)
  {
    var k := Representative(0, v);
    hide ToElement;
    assert c * v == 0 + c * k * FIELD;
    FShift(0, c * k);
    IsSelf(0);
  }

  lemma AlternativeSlope(l: Element, x1: Element, y1: Element, x2: Element, y2: Element)
    requires FSub(y2, y1) == FMul(l, FSub(x2, x1)) && FAdd(y1, y2) == 0 && x1 != x2
    ensures FMul(y1, 2) == FMul(l, FAdd(Neg(x2), x1)) && FAdd(Neg(x2), x1) != 0
  {
    var d := FSub(x2, x1);
    NegOfDifference(x2, x1);
    OppositeDouble(y1, y2);
    EqualPoints(x1, y1);
    hide FMul;
    FDistribute(l, 0, d);
    FOne(l);
  }

  lemma NegOfDifference(x: Element, y: Element)
    ensures FAdd(Neg(x), y) == Neg(FSub(x, y)) && (FAdd(Neg(x), y) == 0 <==> x == y)
  {
    NegatedDifference(x, y);
    hide FAdd;
    SubZero(x, y);
    SubZero(0, FSub(x, y));
  }

  lemma NegatedDifference(x: Element, y: Element)
    ensures FAdd(Neg(x), y) == Neg(FSub(x, y))
  {
    IsSelf(x);
    IsSelf(y);
    NegValue(x, x);
    var u: int := x;
    IsAdd(Neg(x), y, -u, y);
    IsSub(x, y, x, y);
    NegValue(FSub(x, y), x - y);
  }

  lemma OppositeDouble(y1: Element, y2: Element)
    requires FAdd(y1, y2) == 0
    ensures Neg(FSub(y2, y1)) == FAdd(y1, y1)
  {
    IsSelf(y1);
    IsSelf(y2);
    IsAdd(y1, y2, y1, y2);
    var k := Representative(0, y1 + y2);
    IsSub(y2, y1, y2, y1);
    NegValue(FSub(y2, y1), y2 - y1);
    IsAdd(y1, y1, y1, y1);
    hide ToElement, FSub, FAdd, Neg;
    FShift(y1 + y1, -k);
    assert -(y2 - y1) == y1 + y1 + -k * FIELD;
  }

  /** The branch-free addition computes the chord-and-tangent law for every point of the curve and every finite affine
      second operand: distinct points, equal points, opposite points, and the pairs with opposite ordinates over
      different abscissas that defeat the unified slope. */
  lemma AddGeIsPlus(inv: Element -> Element, a: Gej, p: Affine, q: Affine)
    requires IsInverse(inv) && q.Finite? && Represents(a, p) && OnCurve(p) && OnCurve(q) && (p == q ==> p.y != 0)
    ensures Represents(AddGe(a, Ge(q.x, q.y, false)), Plus(inv, p, q))
  {
    hide FMul, FSub, FAdd, ScaledBy, FPow, TailX, TailY, ThirdPoint, Numerator, Neg, ChordSlope, TangentSlope, OnCurve;
    if p.Infinity? {
      UnitRepresents(q);
    } else if p.x != q.x {
      SlopeFromCurve(inv, p, q);
      ChordSlopeTimes(inv, p, q);
      if FAdd(p.y, q.y) == 0 {
        FOne(ChordSlope(inv, p, q));
        DegenerateTail(inv, a, p, q);
      } else {
        RegularTail(inv, a, p, q, ChordSlope(inv, p, q));
      }
    } else if p.y == q.y {
      EqualPoints(p.x, p.y);
      FNonzero(inv, p.y, 2);
      Quotient(inv, FMul(FSqr(p.x), 3), FMul(p.y, 2));
      TangentSlopeTimes(inv, p);
      RegularTail(inv, a, p, q, TangentSlope(inv, p));
    } else {
      OppositeOrdinates(inv, p.x, p.y, q.y);
      OppositeSum(inv, a, p, q);
      FOne(a.z);
    }
  }

  lemma UnitRepresents(q: Affine)
    requires q.Finite?
    ensures Represents(Gej(q.x, q.y, 1, false), q)
  {
    FOne(1);
    FOne(q.x);
    FOne(q.y);
  }

  lemma ChordSlopeTimes(inv: Element -> Element, p: Affine, q: Affine)
    requires IsInverse(inv) && p.Finite? && q.Finite? && p.x != q.x
    ensures FSub(q.y, p.y) == FMul(ChordSlope(inv, p, q), FSub(q.x, p.x))
  {
    SubZero(q.x, p.x);
    Quotient(inv, FSub(q.y, p.y), FSub(q.x, p.x));
  }

  lemma TangentSlopeTimes(inv: Element -> Element, p: Affine)
    requires IsInverse(inv) && p.Finite? && FMul(p.y, 2) != 0
    ensures FMul(FSqr(p.x), 3) == FMul(TangentSlope(inv, p), FMul(p.y, 2))
    ensures FSub(p.y, p.y) == FMul(TangentSlope(inv, p), FSub(p.x, p.x))
  {
    Quotient(inv, FMul(FSqr(p.x), 3), FMul(p.y, 2));
    FOne(TangentSlope(inv, p));
  }

  // Opposite points: both denominators vanish.
  lemma OppositeSum(inv: Element -> Element, a: Gej, p: Affine, q: Affine)
    requires IsInverse(inv) && p.Finite? && q.Finite? && Represents(a, p) && p.x == q.x && FAdd(p.y, q.y) == 0
    ensures FAdd(a.y, FMul(FMul(q.y, FSqr(a.z)), a.z)) == 0 && FAdd(Neg(FMul(q.x, FSqr(a.z))), a.x) == 0
  {
    CodeScaled(p, a, q);
    NegOfDifference(q.x, p.x);
    hide FMul, FSub, FAdd, ScaledBy, FPow, TailX, TailY, Numerator, Neg;
    var u2, s2 := FMul(q.x, FSqr(a.z)), FMul(FMul(q.y, FSqr(a.z)), a.z);
    ScaledNonzero(inv, FAdd(p.y, q.y), FAdd(a.y, s2), a.z, 3);
    ScaledNonzero(inv, FAdd(Neg(q.x), p.x), FAdd(Neg(u2), a.x), a.z, 2);
  }

  // The tangency defect of a line of slope l at (x, y) that meets the curve again over x + d.
  function Defect(l: int, x: int, y: int, d: int): int {
    2 * y * l + l * l * d - 3 * (x * x) - 3 * (x * d) - d * d
  }

  lemma ThirdIdentity(l: int, x: int, y: int, d: int)
    ensures ThirdY(l, x, y, d) * ThirdY(l, x, y, d) - (ThirdX(l, x, d) * ThirdX(l, x, d) * ThirdX(l, x, d) + 7)
      == y * y - (x * x * x + 7) + (ThirdX(l, x, d) - x) * Defect(l, x, y, d)
  {
    var e := ThirdX(l, x, d) - x;
    assert ThirdY(l, x, y, d) == -(y + l * e) by { LineIdentity(l, x, y, e); }
    ExpandAt(l, x, y, e);
    DefectShift(l, x, y, d, e);
  }

  lemma LineIdentity(l: int, x: int, y: int, e: int)
    ensures l * (x - (x + e)) - y == -(y + l * e)
  {
  }

  lemma ExpandAt(l: int, x: int, y: int, e: int)
    ensures -(y + l * e) * -(y + l * e) - ((x + e) * (x + e) * (x + e) + 7)
      == y * y - (x * x * x + 7) + e * Defect(l, x, y, e)
  {
  }

  lemma DefectShift(l: int, x: int, y: int, d: int, e: int)
    requires e == l * l - x - (x + d) - x
    ensures Defect(l, x, y, e) == Defect(l, x, y, d)
  {
    var p := l * l;
    FactorDifference(p, x, d, e);
    assert p - 3 * x - e - d == 0;
  }

  lemma FactorDifference(p: int, x: int, d: int, e: int)
    ensures (p * e - 3 * (x * e) - e * e) - (p * d - 3 * (x * d) - d * d) == (e - d) * (p - 3 * x - e - d)
  {
  }

  lemma ThirdOnCurve(l: Element, x1: Element, y1: Element, x2: Element, d: int)
    requires Is(x2, x1 + d) && OnCurve(Finite(x1, y1)) && Is(0, Defect(l, x1, y1, d))
    ensures OnCurve(ThirdPoint(l, x1, y1, x2))
  {
    ThirdPointValue(l, x1, y1, x2, d);
    ThirdIdentity(l, x1, y1, d);
    IsSelf(x1);
    IsSelf(y1);
    CurveValue(x1, y1, x1, y1);
    var t, u, v := ThirdPoint(l, x1, y1, x2), ThirdX(l, x1, d), ThirdY(l, x1, y1, d);
    hide ThirdPoint, ThirdX, ThirdY, FMul, FAdd;
    IsSqr(t.y, v);
    IsSqr(t.x, u);
    IsMul(FSqr(t.x), t.x, u * u, u);
    IsSelf(7);
    IsAdd(FMul(FSqr(t.x), t.x), 7, u * u * u, 7);
    MultipleDefect(y1 * y1, x1 * x1 * x1 + 7, (u - x1), Defect(l, x1, y1, d), v * v, u * u * u + 7);
    SameResidue(FSqr(t.y), FAdd(FMul(FSqr(t.x), t.x), 7), v * v, u * u * u + 7);
  }

  lemma MultipleDefect(a: int, b: int, e: int, k: int, v: int, u: int)
    requires ToElement(a) == ToElement(b) && Is(0, k) && v - u == a - b + e * k
    ensures ToElement(v) == ToElement(u)
  {
    var i := Distance(a, b);
    var j := Representative(0, k);
    hide ToElement;
    assert e * k == e * j * FIELD;
    assert v == u + (i + e * j) * FIELD;
    FShift(u, i + e * j);
  }

  lemma ChordDefect(inv: Element -> Element, p: Affine, q: Affine)
    requires IsInverse(inv) && p.Finite? && q.Finite? && OnCurve(p) && OnCurve(q) && p.x != q.x
    ensures Is(0, Defect(ChordSlope(inv, p, q), p.x, p.y, FSub(q.x, p.x)))
  {
    var l, d := ChordSlope(inv, p, q), FSub(q.x, p.x);
    SubZero(q.x, p.x);
    ChordSlopeTimes(inv, p, q);
    hide FMul, FSub, ChordSlope, OnCurve, Defect;
    DefectTimesDifference(l, p.x, p.y, q.x, q.y);
    CancelDefect(inv, Defect(l, p.x, p.y, d), d);
  }

  lemma CancelDefect(inv: Element -> Element, k: int, d: Element)
    requires IsInverse(inv) && d != 0 && Is(0, k * d)
    ensures Is(0, k)
  {
    var e := ToElement(k);
    IsSelf(d);
    IsMul(e, d, k, d);
    hide FMul, ToElement;
    if e != 0 {
      FNonzero(inv, e, d);
    }
  }

  lemma AddBack(x: Element, y: Element)
    ensures FAdd(x, FSub(y, x)) == y
  {
    IsSelf(x);
    IsSelf(y);
    IsSub(y, x, y, x);
    IsAdd(x, FSub(y, x), x, y - x);
  }

  lemma SecondOrdinate(l: Element, y1: Element, y2: Element, d: Element)
    requires FSub(y2, y1) == FMul(l, d)
    ensures Is(y2, y1 + l * d)
  {
    AddBack(y1, y2);
    IsSelf(l);
    IsSelf(d);
    IsSelf(y1);
    hide FMul, FSub, FAdd, Is;
    IsMul(l, d, l, d);
    IsAdd(y1, FMul(l, d), y1, l * d);
  }

  lemma DefectTimesDifference(l: Element, x1: Element, y1: Element, x2: Element, y2: Element)
    requires OnCurve(Finite(x1, y1)) && OnCurve(Finite(x2, y2)) && FSub(y2, y1) == FMul(l, FSub(x2, x1))
    ensures Is(0, Defect(l, x1, y1, FSub(x2, x1)) * FSub(x2, x1))
  {
    var d := FSub(x2, x1);
    IsSelf(x1);
    IsSelf(y1);
    DifferenceValue(x1, x2);
    SecondOrdinate(l, y1, y2, d);
    CurveValue(x1, y1, x1, y1);
    CurveValue(x2, y2, x1 + d, y1 + l * d);
    hide *;
    var a, b, u, v := (y1 + l * d) * (y1 + l * d), y1 * y1, (x1 + d) * (x1 + d) * (x1 + d) + 7, x1 * x1 * x1 + 7;
    CongruentDifferences(a, u, b, v);
    ChordDefectIdentity(l, x1, y1, d);
    DefectVanishesAt(a - b, u - v);
  }

  lemma ChordDefectIdentity(l: int, x: int, y: int, d: int)
    ensures Defect(l, x, y, d) * d
      == (y + l * d) * (y + l * d) - y * y - ((x + d) * (x + d) * (x + d) + 7 - (x * x * x + 7))
  {
  }

  lemma TangentDefect(inv: Element -> Element, p: Affine)
    requires IsInverse(inv) && p.Finite? && p.y != 0
    ensures Is(0, Defect(TangentSlope(inv, p), p.x, p.y, 0))
  {
    FNonzero(inv, p.y, 2);
    TangentSlopeTimes(inv, p);
    var l := TangentSlope(inv, p);
    IsSelf(l);
    IsSelf(p.x);
    IsSelf(p.y);
    IsTimes(p.y, p.y, 2);
    IsMul(l, FMul(p.y, 2), l, p.y * 2);
    IsSqr(p.x, p.x);
    IsTimes(FSqr(p.x), p.x * p.x, 3);
    hide FMul, TangentSlope, ToElement, FSub;
    TangentDefectIdentity(l, p.x, p.y);
    DefectVanishesAt(l * (p.y * 2), p.x * p.x * 3);
  }

  lemma TangentDefectIdentity(l: int, x: int, y: int)
    ensures Defect(l, x, y, 0) == l * (y * 2) - x * x * 3
  {
  }

  lemma DefectVanishesAt(a: int, b: int)
    requires ToElement(a) == ToElement(b)
    ensures Is(0, a - b)
  {
    var k := Distance(a, b);
    FShift(0, k);
    IsSelf(0);
  }

  /** The law stays on the curve. */
  lemma PlusOnCurve(inv: Element -> Element, p: Affine, q: Affine)
    requires IsInverse(inv) && OnCurve(p) && OnCurve(q)
    ensures OnCurve(Plus(inv, p, q))
  {
    hide ThirdPoint, ChordSlope, TangentSlope, Defect, OnCurve;
    if p.Finite? && q.Finite? {
      if p.x != q.x {
        ChordDefect(inv, p, q);
        DifferenceValue(p.x, q.x);
        ThirdOnCurve(ChordSlope(inv, p, q), p.x, p.y, q.x, FSub(q.x, p.x));
      } else if p.y == q.y && p.y != 0 {
        TangentDefect(inv, p);
        IsSelf(p.x);
        ThirdOnCurve(TangentSlope(inv, p), p.x, p.y, p.x, 0);
      } else {
        InfinityOnCurve();
      }
    }
  }

  lemma InfinityOnCurve()
    ensures OnCurve(Infinity)
  {
  }
}
