/** One inversion for a whole array, with the output as scratch space. */
module BatchInverse {
  import opened Digits
  import opened Secp256k1
  import opened FieldElement
  import opened Points

  // The product of the first k entries.
  ghost function Prefix(a: seq<Element>, k: nat): Element
    requires k <= |a|
  {
    if k == 0 then 1 else FMul(Prefix(a, k - 1), a[k - 1])
  }

  ghost predicate HasZero(a: seq<Element>, k: nat)
    requires k <= |a|
  {
    exists i :: 0 <= i < k && a[i] == 0
  }

  lemma {:induction false} PrefixZero(inv: Element -> Element, a: seq<Element>, k: nat)
    requires IsInverse(inv) && k <= |a|
    ensures Prefix(a, k) == 0 <==> HasZero(a, k)
  {
    if k > 0 {
      PrefixZero(inv, a, k - 1);
      if HasZero(a, k - 1) || a[k - 1] == 0 {
        FOne(a[k - 1]);
        FOne(Prefix(a, k - 1));
        assert HasZero(a, k);
      } else {
        FNonzero(inv, Prefix(a, k - 1), a[k - 1]);
      }
    }
  }

  // u inverts the product p*z: then p*u inverts z and u*z inverts p.
  lemma BackStep(u: Element, p: Element, z: Element)
    requires FMul(u, FMul(p, z)) == 1
    ensures FMul(z, FMul(p, u)) == 1 && FMul(FMul(u, z), p) == 1
  {
    hide FMul;
    FComm(p, z);
    FComm(u, FMul(z, p));
    FAssoc(z, p, u);
    FAssoc(u, z, p);
  }

  method Prefixes(r: array<Element>, a: seq<Element>)
    requires r.Length == |a| > 0
    modifies r
    ensures forall i :: 0 <= i < |a| ==> r[i] == Prefix(a, i + 1)
  {
    hide FMul;
    r[0] := a[0];
    FOne(a[0]);
    assert Prefix(a, 1) == FMul(Prefix(a, 0), a[0]);
    var i := 1;
    while i < |a|
      invariant 1 <= i <= |a| && forall k :: 0 <= k < i ==> r[k] == Prefix(a, k + 1)
    {
      r[i] := FMul(r[i - 1], a[i]);
      i := i + 1;
    }
  }

  /** secp256k1_fe_inv_all_var: every entry becomes the inverse of its input; a single zero turns all of them into zero.
      */
  method InvAll(r: array<Element>, a: seq<Element>, inv: Element -> Element)
    requires IsInverse(inv) && r.Length == |a|
    modifies r
    ensures !HasZero(a, |a|) ==> forall i :: 0 <= i < |a| ==> FMul(a[i], r[i]) == 1
    ensures HasZero(a, |a|) ==> forall i :: 0 <= i < |a| ==> r[i] == 0
  {
    hide FMul;
    if |a| < 1 {
      return;
    }
    Prefixes(r, a);
    PrefixZero(inv, a, |a|);
    ghost var zero := HasZero(a, |a|);
    var i := |a| - 1;
    var u := inv(r[i]);
    assert Inverts(inv, Prefix(a, |a|));
    FComm(Prefix(a, |a|), u);
    hide IsInverse, HasZero;
    while i > 0
      invariant 0 <= i < |a|
      invariant forall k :: 0 <= k <= i ==> r[k] == Prefix(a, k + 1)
      invariant !zero ==> FMul(u, Prefix(a, i + 1)) == 1 && forall k :: i < k < |a| ==> FMul(a[k], r[k]) == 1
      invariant zero ==> u == 0 && forall k :: i < k < |a| ==> r[k] == 0
    {
      var j := i;
      i := i - 1;
      if !zero {
        BackStep(u, Prefix(a, j), a[j]);
      }
      FOne(r[i]);
      FOne(a[j]);
      r[j] := FMul(r[i], u);
      u := FMul(u, a[j]);
    }
    assert Prefix(a, 1) == FMul(Prefix(a, 0), a[0]);
    FOne(a[0]);
    FComm(u, a[0]);
    r[0] := u;
  }

  // The product of the z coordinates of the finite points among the first k.
  ghost function FinitePrefix(a: seq<Gej>, k: nat): Element
    requires k <= |a|
  {
    if k == 0 then 1
    else if a[k - 1].infinity then FinitePrefix(a, k - 1)
    else FMul(FinitePrefix(a, k - 1), a[k - 1].z)
  }

  ghost predicate FiniteNonzero(a: seq<Gej>) {
    forall i :: 0 <= i < |a| && !a[i].infinity ==> a[i].z != 0
  }

  lemma {:induction false} FinitePrefixNonzero(inv: Element -> Element, a: seq<Gej>, k: nat)
    requires IsInverse(inv) && k <= |a| && FiniteNonzero(a)
    ensures FinitePrefix(a, k) != 0
  {
    if k > 0 {
      FinitePrefixNonzero(inv, a, k - 1);
      if !a[k - 1].infinity {
        FNonzero(inv, FinitePrefix(a, k - 1), a[k - 1].z);
      }
    }
  }

  // No finite point lies in the given range.
  ghost predicate Gap(a: seq<Gej>, lo: int, hi: int) {
    forall i :: lo <= i < hi && 0 <= i < |a| ==> a[i].infinity
  }

  lemma {:induction false} GapPrefix(a: seq<Gej>, lo: nat, hi: nat)
    requires lo <= hi <= |a| && Gap(a, lo, hi)
    ensures FinitePrefix(a, hi) == FinitePrefix(a, lo)
    decreases hi
  {
    if lo < hi {
      GapPrefix(a, lo, hi - 1);
    }
  }

  const NONE: int := 0xFFFF_FFFF_FFFF_FFFF

  /** Forward: the x slots of the finite points hold the running products of their z coordinates. */
  method FillScratch(r: array<Ge>, a: seq<Gej>) returns (last: nat)
    requires r.Length == |a| < NONE
    modifies r
    ensures last == NONE ==> Gap(a, 0, |a|) && r[..] == old(r[..])
    ensures last != NONE ==> last < |a| && !a[last].infinity && Gap(a, last + 1, |a|)
    ensures forall k :: 0 <= k < |a| && !a[k].infinity ==> r[k].x == FinitePrefix(a, k + 1)
  {
    hide FMul;
    last := NONE;
    for i := 0 to |a|
      invariant last == NONE ==> Gap(a, 0, i) && r[..] == old(r[..])
      invariant last != NONE ==> last < i && !a[last].infinity && Gap(a, last + 1, i)
      invariant forall k :: 0 <= k < i && !a[k].infinity ==> r[k].x == FinitePrefix(a, k + 1)
    {
      if !a[i].infinity {
        if last == NONE {
          GapPrefix(a, 0, i);
          FOne(a[i].z);
          r[i] := r[i].(x := a[i].z);
        } else {
          GapPrefix(a, last + 1, i);
          r[i] := r[i].(x := FMul(r[last].x, a[i].z));
        }
        last := i;
      }
    }
  }

  // The slots of the finite points up to index last hold running products, the later ones inverses.
  ghost predicate Halfway(rs: seq<Ge>, a: seq<Gej>, last: int) {
    && |rs| == |a|
    && (forall k :: 0 <= k <= last && k < |a| && !a[k].infinity ==> rs[k].x == FinitePrefix(a, k + 1))
    && (forall k :: 0 <= k && last < k < |a| && !a[k].infinity ==> FMul(a[k].z, rs[k].x) == 1)
  }

  // One backward step from the finite point at last to the one before it.
  lemma {:induction false} HalfwayStep(rs: seq<Ge>, a: seq<Gej>, i: nat, last: nat, u: Element, g: Ge)
    requires i < last < |a| && !a[i].infinity && !a[last].infinity && Gap(a, i + 1, last) && Halfway(rs, a, last)
    requires FMul(u, FinitePrefix(a, last + 1)) == 1 && g.x == FMul(rs[i].x, u)
    ensures Halfway(rs[last := g], a, i) && FMul(FMul(u, a[last].z), FinitePrefix(a, i + 1)) == 1
  {
    hide FMul;
    GapPrefix(a, i + 1, last);
    BackStep(u, FinitePrefix(a, last), a[last].z);
  }

  /** Backward: every finite point's slot receives the inverse of its own z coordinate. */
  method Distribute(r: array<Ge>, a: seq<Gej>, start: nat, u0: Element)
    requires r.Length == |a| && start < |a| && !a[start].infinity && Gap(a, start + 1, |a|)
    requires forall k :: 0 <= k < |a| && !a[k].infinity ==> r[k].x == FinitePrefix(a, k + 1)
    requires FMul(u0, FinitePrefix(a, start + 1)) == 1
    modifies r
    ensures forall k :: 0 <= k < |a| && !a[k].infinity ==> FMul(a[k].z, r[k].x) == 1
  {
    hide FMul;
    var u, last, i := u0, start, start;
    assert Halfway(r[..], a, last);
    hide FinitePrefix, Halfway;
    while i > 0
      invariant 0 <= i <= last < |a| && !a[last].infinity && Gap(a, i, last) && Halfway(r[..], a, last)
      invariant FMul(u, FinitePrefix(a, last + 1)) == 1
    {
      i := i - 1;
      if !a[i].infinity {
        ghost var g := r[last].(x := FMul(r[i].x, u));
        HalfwayStep(r[..], a, i, last, u, g);
        ghost var was := r[..];
        r[last] := r[last].(x := FMul(r[i].x, u));
        assert r[..] == was[last := g];
        u := FMul(u, a[last].z);
        last := i;
      }
    }
    ghost var before := r[..];
    r[last] := r[last].(x := u);
    assert r[..] == before[last := r[last]];
    FirstFinite(before, a, last, u, r[last]);
  }

  lemma {:induction false} FirstFinite(rs: seq<Ge>, a: seq<Gej>, last: nat, u: Element, g: Ge)
    requires last < |a| && !a[last].infinity && Gap(a, 0, last) && Halfway(rs, a, last)
    requires FMul(u, FinitePrefix(a, last + 1)) == 1 && g.x == u
    ensures forall k :: 0 <= k < |a| && !a[k].infinity ==> FMul(a[k].z, rs[last := g][k].x) == 1
  {
    hide FMul;
    GapPrefix(a, 0, last);
    FOne(a[last].z);
    FComm(u, a[last].z);
  }

  /** secp256k1_ge_set_all_gej_var: affine forms of a list of points with infinities anywhere, by a single inversion. */
  method SetAllGej(r: array<Ge>, a: seq<Gej>, inv: Element -> Element)
    requires IsInverse(inv) && FiniteNonzero(a) && r.Length == |a| < NONE
    modifies r
    ensures Gap(a, 0, |a|) || forall i :: 0 <= i < |a| ==> r[i].infinity == a[i].infinity
    ensures forall i :: 0 <= i < |a| && !a[i].infinity ==> AffineOf(r[i].x, r[i].y, a[i])
    ensures Gap(a, 0, |a|) ==> r[..] == old(r[..])
  {
    hide FMul, AffineOf, FinitePrefix, FiniteNonzero;
    var last := FillScratch(r, a);
    if last == NONE {
      return;
    }
    FinitePrefixNonzero(inv, a, last + 1);
    assert Inverts(inv, FinitePrefix(a, last + 1));
    var u := inv(r[last].x);
    FComm(u, FinitePrefix(a, last + 1));
    hide IsInverse;
    Distribute(r, a, last, u);
    Finish(r, a);
  }

  // The last pass: every slot that holds the inverse of its z coordinate becomes the affine point.
  method Finish(r: array<Ge>, a: seq<Gej>)
    requires r.Length == |a| && forall k :: 0 <= k < |a| && !a[k].infinity ==> FMul(a[k].z, r[k].x) == 1
    modifies r
    ensures forall k :: 0 <= k < |a| ==> r[k].infinity == a[k].infinity
    ensures forall k :: 0 <= k < |a| && !a[k].infinity ==> AffineOf(r[k].x, r[k].y, a[k])
  {
    hide FMul, AffineOf;
    for i := 0 to |a|
      invariant forall k :: 0 <= k < i ==> r[k].infinity == a[k].infinity
      invariant forall k :: 0 <= k < i && !a[k].infinity ==> AffineOf(r[k].x, r[k].y, a[k])
      invariant forall k :: i <= k < |a| && !a[k].infinity ==> FMul(a[k].z, r[k].x) == 1
    {
      r[i] := r[i].(infinity := a[i].infinity);
      if !a[i].infinity {
        ZinvIsAffine(a[i], r[i].x);
        r[i] := SetGejZinv(a[i], r[i].x);
      }
    }
  }
}
