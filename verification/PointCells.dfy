/** The point formulas as the code runs them on limbs: coordinates are overwritten one by one, the result may be stored
    over an operand, and the magnitudes stay within what every operation demands. */
module PointCells {
  import opened Secp256k1
  import opened Field5x52
  import opened FieldNormalize
  import opened FieldElement
  import opened FieldLimbs
  import opened Points
  import opened Jacobian
  import opened UnifiedAdd

  // A secp256k1_gej in memory.
  class Cell {
    var x: Fe
    var y: Fe
    var z: Fe
    var infinity: bool

    constructor (x: Fe, y: Fe, z: Fe, infinity: bool)
      ensures this.x == x && this.y == y && this.z == z && this.infinity == infinity
    {
      this.x, this.y, this.z, this.infinity := x, y, z, infinity;
    }

    /** The point that the limbs stand for. */
    function Point(): Gej
      reads this
    {
      Gej(El(x), El(y), El(z), infinity)
    }

    /** Every coordinate may be multiplied as it is. */
    ghost predicate Bounded()
      reads this
    {
      Holds(x, 8, El(x)) && Holds(y, 8, El(y)) && Holds(z, 8, El(z))
    }

    /** So may those of a finite point. */
    ghost predicate Usable()
      reads this
    {
      infinity || Bounded()
    }

    /** The cell holds p, ready for further use; the coordinates of infinity do not matter. */
    ghost predicate Shows(p: Gej)
      reads this
    {
      infinity == p.infinity && (!infinity ==> Bounded() && Point() == p)
    }

    method Copy(a: Cell)
      requires a.Usable()
      modifies this
      ensures Point() == old(a.Point()) && Shows(old(a.Point()))
    {
      x, y, z, infinity := a.x, a.y, a.z, a.infinity;
    }
  }

  // A secp256k1_ge.
  datatype Limbs = Limbs(x: Fe, y: Fe, infinity: bool) {
    function Point(): Ge {
      Ge(El(x), El(y), infinity)
    }

    ghost predicate Bounded() {
      Holds(x, 8, El(x)) && Holds(y, 8, El(y))
    }
  }

  // -x + y is the difference.
  lemma NegatedSum(x: Element, y: Element)
    ensures FAdd(Neg(x), y) == FSub(y, x)
  {
    IsSelf(x);
    IsSelf(y);
    var minus: int := 0 - (x as int);
    NegValue(x, x);
    IsAdd(Neg(x), y, minus, y);
    IsSub(y, x, y, x);
    assert minus + y == y - x;
  }

  lemma DoubleIsSum(x: Element)
    ensures FMul(x, 2) == FAdd(x, x)
  {
  }

  lemma SumCommutes(x: Element, y: Element)
    ensures FAdd(x, y) == FAdd(y, x)
  {
  }

  // What limbs hold is what they stand for, and a small magnitude may be read as 8.
  lemma Settled(a: Fe, m: int, x: Element)
    requires Holds(a, m, x) && m <= 8
    ensures El(a) == x && Holds(a, 8, El(a))
  {
  }

  /** secp256k1_gej_double_var; r may be a. */
  method DoubleInto(r: Cell, a: Cell) returns (rzr: Fe)
    requires a.Usable()
    modifies r
    ensures r.Shows(DoubleVar(old(a.Point())).r) && Holds(rzr, 2, DoubleVar(old(a.Point())).rzr)
  {
    hide FMul, FSub, FAdd, Neg, Holds, El;
    ghost var p := a.Point();
    r.infinity := a.infinity;
    if r.infinity {
      rzr := SetInt(1);
      Widened(rzr, 1, 2, 1);
      return;
    }
    rzr := NormalizeWeakFe(a.y, 8, p.y);
    rzr := MulIntFe(rzr, 2, 1, p.y);
    r.z := MulFe(a.z, a.y, 8, 8, p.z, p.y);
    r.z := MulIntFe(r.z, 2, 1, FMul(p.z, p.y));
    var t1 := SqrFe(a.x, 8, p.x);
    t1 := MulIntFe(t1, 3, 1, FSqr(p.x));
    ghost var v1 := FMul(FSqr(p.x), 3);
    var t2 := SqrFe(t1, 3, v1);
    var t3 := SqrFe(a.y, 8, p.y);
    t3 := MulIntFe(t3, 2, 1, FSqr(p.y));
    ghost var v3 := FMul(FSqr(p.y), 2);
    var t4 := SqrFe(t3, 2, v3);
    t4 := MulIntFe(t4, 2, 1, FSqr(v3));
    ghost var v4 := FMul(FSqr(v3), 2);
    t3 := MulFe(t3, a.x, 2, 8, v3, p.x);
    ghost var v5 := FMul(v3, p.x);
    r.x := MulIntFe(t3, 4, 1, v5);
    r.x := NegFe(r.x, 4, FMul(v5, 4));
    r.x := AddFe(r.x, t2, 5, 1, Neg(FMul(v5, 4)), FSqr(v1));
    NegatedSum(FMul(v5, 4), FSqr(v1));
    t2 := NegFe(t2, 1, FSqr(v1));
    t3 := MulIntFe(t3, 6, 1, v5);
    t3 := AddFe(t3, t2, 6, 2, FMul(v5, 6), Neg(FSqr(v1)));
    SumCommutes(FMul(v5, 6), Neg(FSqr(v1)));
    NegatedSum(FSqr(v1), FMul(v5, 6));
    ghost var v6 := FSub(FMul(v5, 6), FSqr(v1));
    r.y := MulFe(t1, t3, 3, 8, v1, v6);
    t2 := NegFe(t4, 2, v4);
    r.y := AddFe(r.y, t2, 1, 3, FMul(v1, v6), Neg(v4));
    SumCommutes(FMul(v1, v6), Neg(v4));
    NegatedSum(v4, FMul(v1, v6));
    Settled(r.x, 6, FSub(FSqr(v1), FMul(v5, 4)));
    Settled(r.y, 4, FSub(FMul(v1, v6), v4));
    Settled(r.z, 2, FMul(FMul(p.z, p.y), 2));
  }

  // The common end of the three additions; the z coordinate has been written before.
  method FinishChord(r: Cell, u1: Fe, s1: Fe, h: Fe, i: Fe, ghost u: Element, ghost s: Element, ghost hv: Element,
      ghost iv: Element)
    requires Holds(u1, 1, u) && Holds(s1, 1, s) && Holds(h, 3, hv) && Holds(i, 3, iv)
    modifies r`x, r`y
    ensures Holds(r.x, 5, ChordX(u, hv, iv)) && Holds(r.y, 3, ChordY(u, s, hv, iv))
  {
    hide FMul, FSub, FAdd, Neg, Holds;
    var i2 := SqrFe(i, 3, iv);
    var h2 := SqrFe(h, 3, hv);
    var h3 := MulFe(h, h2, 3, 1, hv, FSqr(hv));
    var t := MulFe(u1, h2, 1, 1, u, FSqr(hv));
    ghost var tv, c := FMul(u, FSqr(hv)), FMul(hv, FSqr(hv));
    r.x := MulIntFe(t, 2, 1, tv);
    DoubleIsSum(tv);
    r.x := AddFe(r.x, h3, 2, 1, FAdd(tv, tv), c);
    SumCommutes(FAdd(tv, tv), c);
    ghost var w := FAdd(c, FAdd(tv, tv));
    r.x := NegFe(r.x, 3, w);
    r.x := AddFe(r.x, i2, 4, 1, Neg(w), FSqr(iv));
    NegatedSum(w, FSqr(iv));
    ghost var xv := ChordX(u, hv, iv);
    r.y := NegFe(r.x, 5, xv);
    r.y := AddFe(r.y, t, 6, 1, Neg(xv), tv);
    NegatedSum(xv, tv);
    r.y := MulFe(r.y, i, 7, 3, FSub(tv, xv), iv);
    h3 := MulFe(h3, s1, 1, 1, c, s);
    h3 := NegFe(h3, 1, FMul(c, s));
    ghost var yv := FMul(FSub(tv, xv), iv);
    r.y := AddFe(r.y, h3, 1, 2, yv, Neg(FMul(c, s)));
    SumCommutes(yv, Neg(FMul(c, s)));
    NegatedSum(FMul(c, s), yv);
  }

  // -x + y
  method Difference(x: Fe, y: Fe, ghost u: Element, ghost v: Element) returns (d: Fe)
    requires Holds(x, 1, u) && Holds(y, 1, v)
    ensures Holds(d, 3, FSub(v, u))
  {
    hide FSub, FAdd, Neg, Holds;
    d := NegFe(x, 1, u);
    d := AddFe(d, y, 2, 1, Neg(u), v);
    NegatedSum(u, v);
  }

  /** secp256k1_gej_add_var; r may be a or b. */
  method AddInto(r: Cell, a: Cell, b: Cell) returns (rzr: Fe)
    requires a.Usable() && b.Usable()
    modifies r
    ensures r.Shows(AddVar(old(a.Point()), old(b.Point())).r)
    ensures Holds(rzr, 2, AddVar(old(a.Point()), old(b.Point())).rzr)
  {
    hide FMul, FSub, FAdd, Neg, ChordX, ChordY, DoubleVar, Holds, El;
    ghost var p, q := a.Point(), b.Point();
    rzr := SetInt(1);
    Widened(rzr, 1, 2, 1);
    if a.infinity {
      r.Copy(b);
      return;
    }
    if b.infinity {
      r.Copy(a);
      return;
    }
    r.infinity := false;
    var z22 := SqrFe(b.z, 8, q.z);
    var z12 := SqrFe(a.z, 8, p.z);
    var u1 := MulFe(a.x, z22, 8, 1, p.x, FSqr(q.z));
    var u2 := MulFe(b.x, z12, 8, 1, q.x, FSqr(p.z));
    var s1 := MulFe(a.y, z22, 8, 1, p.y, FSqr(q.z));
    s1 := MulFe(s1, b.z, 1, 8, FMul(p.y, FSqr(q.z)), q.z);
    var s2 := MulFe(b.y, z12, 8, 1, q.y, FSqr(p.z));
    s2 := MulFe(s2, a.z, 1, 8, FMul(q.y, FSqr(p.z)), p.z);
    ghost var u, s := FMul(p.x, FSqr(q.z)), FMul(FMul(p.y, FSqr(q.z)), q.z);
    var h := Difference(u1, u2, u, FMul(q.x, FSqr(p.z)));
    var i := Difference(s1, s2, s, FMul(FMul(q.y, FSqr(p.z)), p.z));
    ghost var hv, iv := FSub(FMul(q.x, FSqr(p.z)), u), FSub(FMul(FMul(q.y, FSqr(p.z)), p.z), s);
    var sameX := IsZeroVarFe(h, 3, hv);
    if sameX {
      var sameY := IsZeroVarFe(i, 3, iv);
      if sameY {
        rzr := DoubleInto(r, a);
      } else {
        rzr := SetInt(0);
        Widened(rzr, 1, 2, 0);
        r.infinity := true;
      }
      return;
    }
    rzr := MulFe(h, b.z, 3, 8, hv, q.z);
    r.z := MulFe(a.z, rzr, 8, 1, p.z, FMul(hv, q.z));
    Widened(rzr, 1, 2, FMul(hv, q.z));
    FinishChord(r, u1, s1, h, i, u, s, hv, iv);
    Settled(r.x, 5, ChordX(u, hv, iv));
    Settled(r.y, 3, ChordY(u, s, hv, iv));
    Settled(r.z, 1, FMul(p.z, FMul(hv, q.z)));
  }

  /** secp256k1_gej_add_ge_var; r may be a. */
  method AddGeInto(r: Cell, a: Cell, b: Limbs) returns (rzr: Fe)
    requires a.Usable() && b.Bounded()
    modifies r
    ensures r.Shows(AddGeVar(old(a.Point()), b.Point()).r) && Holds(rzr, 3, AddGeVar(old(a.Point()), b.Point()).rzr)
  {
    hide FMul, FSub, FAdd, Neg, ChordX, ChordY, DoubleVar, Holds, El;
    ghost var p, q := a.Point(), b.Point();
    rzr := SetInt(1);
    Settled(rzr, 1, 1);
    Widened(rzr, 1, 3, 1);
    if a.infinity {
      r.x, r.y, r.z, r.infinity := b.x, b.y, rzr, b.infinity;
      return;
    }
    if b.infinity {
      r.Copy(a);
      return;
    }
    r.infinity := false;
    var z12 := SqrFe(a.z, 8, p.z);
    var u1 := NormalizeWeakFe(a.x, 8, p.x);
    var u2 := MulFe(b.x, z12, 8, 1, q.x, FSqr(p.z));
    var s1 := NormalizeWeakFe(a.y, 8, p.y);
    var s2 := MulFe(b.y, z12, 8, 1, q.y, FSqr(p.z));
    s2 := MulFe(s2, a.z, 1, 8, FMul(q.y, FSqr(p.z)), p.z);
    var h := Difference(u1, u2, p.x, FMul(q.x, FSqr(p.z)));
    var i := Difference(s1, s2, p.y, FMul(FMul(q.y, FSqr(p.z)), p.z));
    ghost var hv, iv := FSub(FMul(q.x, FSqr(p.z)), p.x), FSub(FMul(FMul(q.y, FSqr(p.z)), p.z), p.y);
    var sameX := IsZeroVarFe(h, 3, hv);
    if sameX {
      var sameY := IsZeroVarFe(i, 3, iv);
      if sameY {
        rzr := DoubleInto(r, a);
        Widened(rzr, 2, 3, DoubleVar(p).rzr);
      } else {
        rzr := SetInt(0);
        Widened(rzr, 1, 3, 0);
        r.infinity := true;
      }
      return;
    }
    rzr := h;
    r.z := MulFe(a.z, h, 8, 3, p.z, hv);
    FinishChord(r, u1, s1, h, i, p.x, p.y, hv, iv);
    Settled(r.x, 5, ChordX(p.x, hv, iv));
    Settled(r.y, 3, ChordY(p.x, p.y, hv, iv));
    Settled(r.z, 1, FMul(p.z, hv));
  }

  /** secp256k1_gej_add_zinv_var; r may be a. */
  method AddZinvInto(r: Cell, a: Cell, b: Limbs, bzinv: Fe, ghost w: Element)
    requires a.Usable() && b.Bounded() && Holds(bzinv, 8, w)
    modifies r
    ensures r.Shows(AddZinvVar(old(a.Point()), b.Point(), w))
  {
    hide FMul, FSub, FAdd, Neg, ChordX, ChordY, DoubleVar, Holds, El;
    ghost var p, q := a.Point(), b.Point();
    if b.infinity {
      r.Copy(a);
      return;
    }
    if a.infinity {
      r.infinity := b.infinity;
      var bzinv2 := SqrFe(bzinv, 8, w);
      var bzinv3 := MulFe(bzinv2, bzinv, 1, 8, FSqr(w), w);
      r.x := MulFe(b.x, bzinv2, 8, 1, q.x, FSqr(w));
      r.y := MulFe(b.y, bzinv3, 8, 1, q.y, FMul(FSqr(w), w));
      r.z := SetInt(1);
      Settled(r.x, 1, FMul(q.x, FSqr(w)));
      Settled(r.y, 1, FMul(q.y, FMul(FSqr(w), w)));
      Settled(r.z, 1, 1);
      return;
    }
    r.infinity := false;
    var az := MulFe(a.z, bzinv, 8, 8, p.z, w);
    ghost var zv := FMul(p.z, w);
    var z12 := SqrFe(az, 1, zv);
    var u1 := NormalizeWeakFe(a.x, 8, p.x);
    var u2 := MulFe(b.x, z12, 8, 1, q.x, FSqr(zv));
    var s1 := NormalizeWeakFe(a.y, 8, p.y);
    var s2 := MulFe(b.y, z12, 8, 1, q.y, FSqr(zv));
    s2 := MulFe(s2, az, 1, 1, FMul(q.y, FSqr(zv)), zv);
    var h := Difference(u1, u2, p.x, FMul(q.x, FSqr(zv)));
    var i := Difference(s1, s2, p.y, FMul(FMul(q.y, FSqr(zv)), zv));
    ghost var hv, iv := FSub(FMul(q.x, FSqr(zv)), p.x), FSub(FMul(FMul(q.y, FSqr(zv)), zv), p.y);
    var sameX := IsZeroVarFe(h, 3, hv);
    if sameX {
      var sameY := IsZeroVarFe(i, 3, iv);
      if sameY {
        var rzr := DoubleInto(r, a);
      } else {
        r.infinity := true;
      }
      return;
    }
    r.z := a.z;
    r.z := MulFe(r.z, h, 8, 3, p.z, hv);
    FinishChord(r, u1, s1, h, i, p.x, p.y, hv, iv);
    Settled(r.x, 5, ChordX(p.x, hv, iv));
    Settled(r.y, 3, ChordY(p.x, p.y, hv, iv));
    Settled(r.z, 1, FMul(p.z, hv));
  }

  // The tail of the branch-free addition: r.z has been written before.
  method UnifiedTail(r: Cell, t0: Fe, rr: Fe, n: Fe, q0: Fe, ghost tv: Element, ghost rv: Element, ghost mv: Element,
      ghost nv: Element)
    requires Holds(rr, 2, rv) && Holds(n, 2, nv) && Holds(q0, 1, FMul(FSqr(mv), tv))
    modifies r`x, r`y
    ensures Holds(r.x, 4, TailX(tv, rv, mv)) && Holds(r.y, 4, TailY(tv, rv, mv, nv))
  {
    hide FMul, FSub, FAdd, Neg, Holds;
    ghost var qv := FMul(FSqr(mv), tv);
    var t := SqrFe(rr, 2, rv);
    var q := NegFe(q0, 1, qv);
    t := AddFe(t, q, 1, 2, FSqr(rv), Neg(qv));
    ghost var xv := FAdd(FSqr(rv), Neg(qv));
    t := NormalizeWeakFe(t, 3, xv);
    r.x := t;
    t := MulIntFe(t, 2, 1, xv);
    t := AddFe(t, q, 2, 2, FMul(xv, 2), Neg(qv));
    ghost var w := FAdd(FMul(xv, 2), Neg(qv));
    t := MulFe(t, rr, 4, 2, w, rv);
    t := AddFe(t, n, 1, 2, FMul(w, rv), nv);
    ghost var yv := FAdd(FMul(w, rv), nv);
    r.y := NegFe(t, 3, yv);
    r.y := NormalizeWeakFe(r.y, 4, Neg(yv));
    r.x := MulIntFe(r.x, 4, 1, xv);
    r.y := MulIntFe(r.y, 4, 1, Neg(yv));
  }

  /** secp256k1_gej_add_ge; r may be a.  Every branch is a conditional move, so all values are computed in all cases. */
  method UnifiedInto(r: Cell, a: Cell, b: Limbs)
    requires a.Bounded() && b.Bounded()
    modifies r
    ensures r.Bounded() && r.Point() == AddGe(old(a.Point()), b.Point())
  {
    hide FMul, FSub, FAdd, Neg, Holds, El, TailX, TailY;
    ghost var p, e := a.Point(), b.Point();
    var zz := SqrFe(a.z, 8, p.z);
    var u1 := NormalizeWeakFe(a.x, 8, p.x);
    var u2 := MulFe(b.x, zz, 8, 1, e.x, FSqr(p.z));
    var s1 := NormalizeWeakFe(a.y, 8, p.y);
    var s2 := MulFe(b.y, zz, 8, 1, e.y, FSqr(p.z));
    s2 := MulFe(s2, a.z, 1, 8, FMul(e.y, FSqr(p.z)), p.z);
    ghost var uv, sv := FMul(e.x, FSqr(p.z)), FMul(FMul(e.y, FSqr(p.z)), p.z);
    var t := AddFe(u1, u2, 1, 1, p.x, uv);
    var m := AddFe(s1, s2, 1, 1, p.y, sv);
    var rr := SqrFe(t, 2, FAdd(p.x, uv));
    var mAlt := NegFe(u2, 1, uv);
    var tt := MulFe(u1, mAlt, 1, 2, p.x, Neg(uv));
    rr := AddFe(rr, tt, 1, 1, FSqr(FAdd(p.x, uv)), FMul(p.x, Neg(uv)));
    ghost var mv, rv := FAdd(p.y, sv), Numerator(p.x, uv);
    var mZero := IsZeroFe(m, 2, mv);
    var rZero := IsZeroFe(rr, 2, rv);
    var degenerate := mZero && rZero;
    var rrAlt := MulIntFe(s1, 2, 1, p.y);
    mAlt := AddFe(mAlt, u1, 2, 1, Neg(uv), p.x);
    ghost var av, bv := if degenerate then FMul(p.y, 2) else rv, if degenerate then FAdd(Neg(uv), p.x) else mv;
    if !degenerate {
      rrAlt, mAlt := rr, m;
      Widened(mAlt, 2, 3, mv);
    }
    var n := SqrFe(mAlt, 3, bv);
    var q := MulFe(n, t, 1, 2, FSqr(bv), FAdd(p.x, uv));
    n := SqrFe(n, 1, FSqr(bv));
    Widened(n, 1, 2, FSqr(FSqr(bv)));
    if degenerate {
      n := m;
    }
    ghost var nv := if degenerate then mv else FSqr(FSqr(bv));
    r.z := MulFe(a.z, mAlt, 8, 3, p.z, bv);
    var zZero := IsZeroFe(r.z, 1, FMul(p.z, bv));
    var infinity := zZero && !a.infinity;
    r.z := MulIntFe(r.z, 2, 1, FMul(p.z, bv));
    UnifiedTail(r, t, rrAlt, n, q, FAdd(p.x, uv), av, bv, nv);
    Settled(r.x, 4, TailX(FAdd(p.x, uv), av, bv));
    Settled(r.y, 4, TailY(FAdd(p.x, uv), av, bv, nv));
    Settled(r.z, 2, FMul(FMul(p.z, bv), 2));
    if a.infinity {
      var one := SetInt(1);
      Settled(one, 1, 1);
      r.x, r.y, r.z := b.x, b.y, one;
    }
    r.infinity := infinity;
  }
}
