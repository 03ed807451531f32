/** Doubling and the three additions of points in Jacobian coordinates. */
module Jacobian {
  import opened Secp256k1
  import opened FieldElement
  import opened Points

  /** A sum and the ratio of its z coordinate to that of the first summand. */
  datatype Sum = Sum(r: Gej, rzr: Element)

  /** secp256k1_gej_double_var */
  function DoubleVar(a: Gej): Sum {
    if a.infinity then Sum(a, 1)
    else
      var z := FMul(FMul(a.z, a.y), 2);
      var t1 := FMul(FSqr(a.x), 3);
      var t2 := FSqr(t1);
      var t3 := FMul(FSqr(a.y), 2);
      var t4 := FMul(FSqr(t3), 2);
      var t5 := FMul(t3, a.x);
      var x := FSub(t2, FMul(t5, 4));
      var y := FSub(FMul(t1, FSub(FMul(t5, 6), t2)), t4);
      Sum(Gej(x, y, z, false), FMul(a.y, 2))
  }

  // The coordinates of the third point on the chord, from the differences h and i.
  function ChordX(u1: Element, h: Element, i: Element): Element {
    var h2 := FSqr(h);
    var t := FMul(u1, h2);
    FSub(FSqr(i), FAdd(FMul(h, h2), FAdd(t, t)))
  }

  function ChordY(u1: Element, s1: Element, h: Element, i: Element): Element {
    var h2 := FSqr(h);
    FSub(FMul(FSub(FMul(u1, h2), ChordX(u1, h, i)), i), FMul(FMul(h, h2), s1))
  }

  /** secp256k1_gej_add_var */
  function AddVar(a: Gej, b: Gej): Sum {
    if a.infinity then Sum(b, 1)
    else if b.infinity then Sum(a, 1)
    else
      var u1 := FMul(a.x, FSqr(b.z));
      var s1 := FMul(FMul(a.y, FSqr(b.z)), b.z);
      var h := FSub(FMul(b.x, FSqr(a.z)), u1);
      var i := FSub(FMul(FMul(b.y, FSqr(a.z)), a.z), s1);
      if h == 0 then
        if i == 0 then DoubleVar(a) else Sum(Gej(0, 0, 0, true), 0)
      else
        var hz := FMul(h, b.z);
        Sum(Gej(ChordX(u1, h, i), ChordY(u1, s1, h, i), FMul(a.z, hz), false), hz)
  }

  /** secp256k1_gej_add_ge_var */
  function AddGeVar(a: Gej, b: Ge): Sum {
    if a.infinity then Sum(Gej(b.x, b.y, 1, b.infinity), 1)
    else if b.infinity then Sum(a, 1)
    else
      var h := FSub(FMul(b.x, FSqr(a.z)), a.x);
      var i := FSub(FMul(FMul(b.y, FSqr(a.z)), a.z), a.y);
      if h == 0 then
        if i == 0 then DoubleVar(a) else Sum(Gej(0, 0, 0, true), 0)
      else Sum(Gej(ChordX(a.x, h, i), ChordY(a.x, a.y, h, i), FMul(a.z, h), false), h)
  }

  /** secp256k1_gej_add_zinv_var: b is given with the inverse of its z coordinate. */
  function AddZinvVar(a: Gej, b: Ge, bzinv: Element): Gej {
    if b.infinity then a
    else if a.infinity then Gej(FMul(b.x, FSqr(bzinv)), FMul(b.y, FMul(FSqr(bzinv), bzinv)), 1, false)
    else
      var az := FMul(a.z, bzinv);
      var h := FSub(FMul(b.x, FSqr(az)), a.x);
      var i := FSub(FMul(FMul(b.y, FSqr(az)), az), a.y);
      if h == 0 then
        if i == 0 then DoubleVar(a).r else Gej(0, 0, 0, true)
      else Gej(ChordX(a.x, h, i), ChordY(a.x, a.y, h, i), FMul(a.z, h), false)
  }

  /** The returned ratio is that of the z coordinates, in every branch that yields a finite point. */
  lemma RatioIsRight(a: Gej, b: Gej, g: Ge)
    requires !a.infinity
    ensures !AddVar(a, b).r.infinity ==> AddVar(a, b).r.z == FMul(a.z, AddVar(a, b).rzr)
    ensures !AddGeVar(a, g).r.infinity ==> AddGeVar(a, g).r.z == FMul(a.z, AddGeVar(a, g).rzr)
    ensures DoubleVar(a).r.z == FMul(a.z, DoubleVar(a).rzr)
  {
    hide FMul;
    FAssoc(a.z, a.y, 2);
    FOne(a.z);
  }

  /** Adding an affine point is adding the Jacobian point with z coordinate one, coordinate by coordinate. */
  lemma MixedIsGeneral(a: Gej, b: Ge)
    ensures AddGeVar(a, b) == AddVar(a, Gej(b.x, b.y, 1, b.infinity))
  {
    FOne(1);
    FOne(a.x);
    FOne(a.y);
    hide FMul;
    forall h: Element
      ensures FMul(h, 1) == h
    {
      FOne(h);
    }
  }

  ghost function FPow(w: Element, n: nat): Element {
    if n == 0 then 1 else FMul(FPow(w, n - 1), w)
  }

  lemma {:induction false} FPowAdd(w: Element, i: nat, j: nat)
    ensures FPow(w, i + j) == FMul(FPow(w, i), FPow(w, j))
  {
    hide FMul;
    if j == 0 {
      FOne(FPow(w, i));
    } else {
      FPowAdd(w, i, j - 1);
      FAssoc(FPow(w, i), FPow(w, j - 1), w);
    }
  }

  /** y is x times the n-th power of w. */
  ghost predicate ScaledBy(x: Element, y: Element, w: Element, n: nat) {
    y == FMul(x, FPow(w, n))
  }

  lemma ScaledMul(w: Element, x: Element, x': Element, i: nat, y: Element, y': Element, j: nat)
    requires ScaledBy(x, x', w, i) && ScaledBy(y, y', w, j)
    ensures ScaledBy(FMul(x, y), FMul(x', y'), w, i + j)
  {
    hide FMul;
    FSwap(x, FPow(w, i), y, FPow(w, j));
    FPowAdd(w, i, j);
  }

  lemma ScaledSub(w: Element, x: Element, x': Element, y: Element, y': Element, n: nat)
    requires ScaledBy(x, x', w, n) && ScaledBy(y, y', w, n)
    ensures ScaledBy(FSub(x, y), FSub(x', y'), w, n)
  {
    hide FMul, FSub;
    var p := FPow(w, n);
    FDistribute(p, x, y);
    FComm(p, FSub(x, y));
    FComm(p, x);
    FComm(p, y);
  }

  lemma ScaledAdd(w: Element, x: Element, x': Element, y: Element, y': Element, n: nat)
    requires ScaledBy(x, x', w, n) && ScaledBy(y, y', w, n)
    ensures ScaledBy(FAdd(x, y), FAdd(x', y'), w, n)
  {
    hide FMul, FAdd;
    var p := FPow(w, n);
    FDistributeAdd(p, x, y);
    FComm(p, FAdd(x, y));
    FComm(p, x);
    FComm(p, y);
  }

  /** Scaling the differences scales the chord's third point by the sixth and ninth powers. */
  lemma ChordScaled(w: Element, u1: Element, u1': Element, s1: Element, s1': Element, h: Element, h': Element,
      i: Element, i': Element)
    requires ScaledBy(u1, u1', w, 2) && ScaledBy(s1, s1', w, 3) && ScaledBy(h, h', w, 2) && ScaledBy(i, i', w, 3)
    ensures ScaledBy(ChordX(u1, h, i), ChordX(u1', h', i'), w, 6)
    ensures ScaledBy(ChordY(u1, s1, h, i), ChordY(u1', s1', h', i'), w, 9)
  {
    hide FMul, FSub, FAdd, ScaledBy, FPow;
    ScaledMul(w, h, h', 2, h, h', 2);
    ScaledMul(w, h, h', 2, FSqr(h), FSqr(h'), 4);
    ScaledMul(w, u1, u1', 2, FSqr(h), FSqr(h'), 4);
    ScaledMul(w, i, i', 3, i, i', 3);
    var t, t' := FMul(u1, FSqr(h)), FMul(u1', FSqr(h'));
    var h3, h3' := FMul(h, FSqr(h)), FMul(h', FSqr(h'));
    ScaledAdd(w, t, t', t, t', 6);
    ScaledAdd(w, h3, h3', FAdd(t, t), FAdd(t', t'), 6);
    ScaledSub(w, FSqr(i), FSqr(i'), FAdd(h3, FAdd(t, t)), FAdd(h3', FAdd(t', t')), 6);
    var x, x' := ChordX(u1, h, i), ChordX(u1', h', i');
    ScaledSub(w, t, t', x, x', 6);
    ScaledMul(w, FSub(t, x), FSub(t', x'), 6, i, i', 3);
    ScaledMul(w, h3, h3', 6, s1, s1', 3);
    ScaledSub(w, FMul(FSub(t, x), i), FMul(FSub(t', x'), i'), FMul(h3, s1), FMul(h3', s1'), 9);
  }

  /** q has the coordinates of p scaled with weight l: x by l^2, y by l^3, z by l. */
  ghost predicate Rescaled(p: Gej, q: Gej, l: Element) {
    ScaledBy(p.x, q.x, l, 2) && ScaledBy(p.y, q.y, l, 3) && ScaledBy(p.z, q.z, l, 1)
  }

  lemma FPowSmall(l: Element)
    ensures FPow(l, 1) == l && FPow(l, 2) == FSqr(l) && FPow(l, 3) == Cube(l)
  {
    FOne(l);
    assert FPow(l, 1) == FMul(FPow(l, 0), l);
    assert FPow(l, 2) == FMul(FPow(l, 1), l);
    assert FPow(l, 3) == FMul(FPow(l, 2), l);
  }

  /** Rescaling does not change the affine point. */
  lemma RescaledSameAffine(p: Gej, q: Gej, l: Element, m: Element, x: Element, y: Element)
    requires Rescaled(p, q, l) && FMul(l, m) == 1
    ensures AffineOf(x, y, p) <==> AffineOf(x, y, q)
  {
    hide FMul;
    FPowSmall(l);
    FSwap(p.z, l, p.z, l);
    FSwap(FSqr(p.z), FSqr(l), p.z, l);
    assert FSqr(q.z) == FMul(FSqr(p.z), FSqr(l)) && Cube(q.z) == FMul(Cube(p.z), Cube(l));
    FAssoc(x, FSqr(p.z), FSqr(l));
    FAssoc(y, Cube(p.z), Cube(l));
    SquareInverse(l, m);
    FComm(FSqr(m), FSqr(l));
    FComm(Cube(m), Cube(l));
    FCancel(FMul(x, FSqr(p.z)), FSqr(l), FSqr(m));
    FCancel(p.x, FSqr(l), FSqr(m));
    FCancel(FMul(y, Cube(p.z)), Cube(l), Cube(m));
    FCancel(p.y, Cube(l), Cube(m));
  }

  // Multiplying z by b and then by its inverse w, in squares and cubes.
  lemma UndoZ(z: Element, b: Element, w: Element)
    requires FMul(w, b) == 1
    ensures FMul(FSqr(FMul(z, b)), FSqr(w)) == FSqr(z) && FMul(Cube(FMul(z, b)), Cube(w)) == Cube(z)
  {
    hide FMul;
    FComm(w, b);
    FCancel(z, b, w);
    var zb := FMul(z, b);
    FSwap(zb, zb, w, w);
    FSwap(FSqr(zb), zb, FSqr(w), w);
  }

  // The differences of the two computations differ by the square and the cube of w.
  lemma DifferencesScaled(a: Gej, b: Ge, bzinv: Element, w: Element)
    requires FMul(w, bzinv) == 1
    ensures var az := FMul(a.z, bzinv);
      && ScaledBy(a.x, FMul(a.x, FSqr(w)), w, 2) && ScaledBy(a.y, FMul(FMul(a.y, FSqr(w)), w), w, 3)
      && ScaledBy(FSub(FMul(b.x, FSqr(az)), a.x), FSub(FMul(b.x, FSqr(a.z)), FMul(a.x, FSqr(w))), w, 2)
      && ScaledBy(FSub(FMul(FMul(b.y, FSqr(az)), az), a.y),
        FSub(FMul(FMul(b.y, FSqr(a.z)), a.z), FMul(FMul(a.y, FSqr(w)), w)), w, 3)
  {
    hide FMul, FSub;
    var az := FMul(a.z, bzinv);
    FPowSmall(w);
    UndoZ(a.z, bzinv, w);
    FAssoc(b.x, FSqr(az), FSqr(w));
    FAssoc(b.y, FSqr(az), az);
    FAssoc(b.y, FSqr(a.z), a.z);
    FAssoc(b.y, Cube(az), Cube(w));
    FAssoc(a.y, FSqr(w), w);
    ScaledSub(w, FMul(b.x, FSqr(az)), FMul(b.x, FSqr(a.z)), a.x, FMul(a.x, FSqr(w)), 2);
    ScaledSub(w, FMul(FMul(b.y, FSqr(az)), az), FMul(FMul(b.y, FSqr(a.z)), a.z), a.y, FMul(FMul(a.y, FSqr(w)), w), 3);
  }

  lemma {:induction false} FPowInverse(w: Element, b: Element, n: nat)
    requires FMul(w, b) == 1
    ensures FMul(FPow(w, n), FPow(b, n)) == 1
  {
    hide FMul;
    if n == 0 {
      FOne(1);
    } else {
      FPowInverse(w, b, n - 1);
      FSwap(FPow(w, n - 1), w, FPow(b, n - 1), b);
      FOne(1);
    }
  }

  lemma ScaledZero(w: Element, b: Element, x: Element, y: Element, n: nat)
    requires FMul(w, b) == 1 && ScaledBy(x, y, w, n)
    ensures x == 0 <==> y == 0
  {
    hide FMul;
    FPowInverse(w, b, n);
    FCancel(x, FPow(w, n), FPow(b, n));
    FOne(FPow(w, n));
    FOne(FPow(b, n));
  }

  // Powers of powers, as far as the weights need them.
  lemma WeightsOfCube(w: Element)
    ensures FPow(Cube(w), 1) == FPow(w, 3) && FPow(Cube(w), 2) == FPow(w, 6) && FPow(Cube(w), 3) == FPow(w, 9)
  {
    hide FMul;
    FPowSmall(w);
    FPowSmall(Cube(w));
    FPowAdd(w, 3, 3);
    FPowAdd(w, 6, 3);
  }

  ghost predicate SamePoint(p: Gej, q: Gej) {
    && p.infinity == q.infinity
    && (!p.infinity ==> forall x: Element, y: Element {:trigger AffineOf(x, y, p)} {:trigger AffineOf(x, y, q)} ::
         AffineOf(x, y, p) <==> AffineOf(x, y, q))
  }

  lemma RescaledSamePoint(p: Gej, q: Gej, l: Element, m: Element)
    requires p.infinity == q.infinity && Rescaled(p, q, l) && FMul(l, m) == 1
    ensures SamePoint(p, q)
  {
    forall x: Element, y: Element
      ensures AffineOf(x, y, p) <==> AffineOf(x, y, q)
    {
      RescaledSameAffine(p, q, l, m, x, y);
    }
  }

  lemma ZinvChord(a: Gej, b: Ge, bzinv: Element, w: Element)
    requires !a.infinity && !b.infinity && FMul(w, bzinv) == 1
    requires FSub(FMul(b.x, FSqr(FMul(a.z, bzinv))), a.x) != 0
    ensures SamePoint(AddZinvVar(a, b, bzinv), AddVar(a, Gej(b.x, b.y, w, false)).r)
  {
    hide FMul, FSub, ChordX, ChordY, ScaledBy, DoubleVar, SamePoint;
    DifferencesScaled(a, b, bzinv, w);
    var az := FMul(a.z, bzinv);
    var h, i := FSub(FMul(b.x, FSqr(az)), a.x), FSub(FMul(FMul(b.y, FSqr(az)), az), a.y);
    var u1', s1' := FMul(a.x, FSqr(w)), FMul(FMul(a.y, FSqr(w)), w);
    var h', i' := FSub(FMul(b.x, FSqr(a.z)), u1'), FSub(FMul(FMul(b.y, FSqr(a.z)), a.z), s1');
    ChordScaled(w, a.x, u1', a.y, s1', h, h', i, i');
    ScaledZero(w, bzinv, h, h', 2);
    ZScaled(a.z, h, h', w);
    var p, q := AddZinvVar(a, b, bzinv), AddVar(a, Gej(b.x, b.y, w, false)).r;
    RescaledByCube(p, q, w);
    SquareInverse(w, bzinv);
    FComm(Cube(bzinv), Cube(w));
    RescaledSamePoint(p, q, Cube(w), Cube(bzinv));
  }

  lemma ZScaled(z: Element, h: Element, h': Element, w: Element)
    requires ScaledBy(h, h', w, 2)
    ensures ScaledBy(FMul(z, h), FMul(z, FMul(h', w)), w, 3)
  {
    hide FMul;
    FAssoc(h, FPow(w, 2), w);
    FAssoc(z, h, FPow(w, 3));
  }

  lemma RescaledByCube(p: Gej, q: Gej, w: Element)
    requires ScaledBy(p.x, q.x, w, 6) && ScaledBy(p.y, q.y, w, 9) && ScaledBy(p.z, q.z, w, 3)
    ensures Rescaled(p, q, Cube(w))
  {
    WeightsOfCube(w);
  }

  /** The addition with an inverted z coordinate yields the same point as the general addition of (x, y, w), w being
      the z coordinate itself, in every branch. */
  lemma ZinvAgrees(a: Gej, b: Ge, bzinv: Element, w: Element)
    requires FMul(w, bzinv) == 1
    ensures SamePoint(AddZinvVar(a, b, bzinv), AddVar(a, Gej(b.x, b.y, w, b.infinity)).r)
  {
    hide FMul, FSub, ChordX, ChordY, ScaledBy, DoubleVar;
    if b.infinity {
    } else if a.infinity {
      var p, q := AddZinvVar(a, b, bzinv), Gej(b.x, b.y, w, false);
      RescaledFromUnit(p, q, bzinv, w);
      RescaledSamePoint(p, q, w, bzinv);
    } else if FSub(FMul(b.x, FSqr(FMul(a.z, bzinv))), a.x) != 0 {
      ZinvChord(a, b, bzinv, w);
    } else {
      ZinvWithoutChord(a, b, bzinv, w);
    }
  }

  // Over the same abscissa both computations take the same branch with the same operand.
  lemma ZinvWithoutChord(a: Gej, b: Ge, bzinv: Element, w: Element)
    requires !a.infinity && !b.infinity && FMul(w, bzinv) == 1
    requires FSub(FMul(b.x, FSqr(FMul(a.z, bzinv))), a.x) == 0
    ensures AddZinvVar(a, b, bzinv) == AddVar(a, Gej(b.x, b.y, w, false)).r
  {
    hide FMul, FSub, ChordX, ChordY, ScaledBy, DoubleVar;
    DifferencesScaled(a, b, bzinv, w);
    var az := FMul(a.z, bzinv);
    var u1', s1' := FMul(a.x, FSqr(w)), FMul(FMul(a.y, FSqr(w)), w);
    ScaledZero(w, bzinv, FSub(FMul(b.x, FSqr(az)), a.x), FSub(FMul(b.x, FSqr(a.z)), u1'), 2);
    ScaledZero(w, bzinv, FSub(FMul(FMul(b.y, FSqr(az)), az), a.y), FSub(FMul(FMul(b.y, FSqr(a.z)), a.z), s1'), 3);
  }

  lemma RescaledFromUnit(p: Gej, q: Gej, bzinv: Element, w: Element)
    requires FMul(w, bzinv) == 1 && p.z == 1 && q.z == w
    requires p.x == FMul(q.x, FSqr(bzinv)) && p.y == FMul(q.y, Cube(bzinv))
    ensures Rescaled(p, q, w)
  {
    hide FMul;
    FPowSmall(w);
    SquareInverse(w, bzinv);
    FCancel(q.x, FSqr(bzinv), FSqr(w));
    FCancel(q.y, Cube(bzinv), Cube(w));
    FOne(w);
  }
}
