/** The coordinate field as residues modulo its characteristic. */
module FieldElement {
  import opened Digits
  import opened Residues
  import opened Secp256k1

  type Element = x: int | 0 <= x < FIELD

  /** The residue of an integer. */
  function ToElement(v: int): Element {
    Residue(v, FIELD)
  }

  function FMul(x: Element, y: Element): Element {
    ToElement(x * y)
  }

  function FSub(x: Element, y: Element): Element {
    ToElement(x - y)
  }

  function FAdd(x: Element, y: Element): Element {
    ToElement(x + y)
  }

  function FSqr(x: Element): Element {
    FMul(x, x)
  }

  /** x is the residue of the integer v. */
  ghost predicate Is(x: Element, v: int) {
    x == ToElement(v)
  }

  lemma FShift(v: int, k: int)
    ensures ToElement(v + k * FIELD) == ToElement(v)
  {
    ResidueIsMod(v, FIELD);
    ResidueIsMod(v + k * FIELD, FIELD);
    DivModEq(v, FIELD);
    DivModUnique(v + k * FIELD, FIELD, v / FIELD + k, v % FIELD);
  }

  // A representative differs from its residue by a multiple of the characteristic.
  lemma Representative(x: Element, u: int) returns (k: int)
    requires Is(x, u)
    ensures u == x + k * FIELD
  {
    ResidueIsMod(u, FIELD);
    DivModEq(u, FIELD);
    k := u / FIELD;
  }

  lemma IsSelf(x: Element)
    ensures Is(x, x)
  {
  }

  lemma IsMul(x: Element, y: Element, u: int, v: int)
    requires Is(x, u) && Is(y, v)
    ensures Is(FMul(x, y), u * v)
  {
    var p := Representative(x, u);
    var q := Representative(y, v);
    hide ToElement;
    ProductShift(x, y, p, q, u, v);
  }

  lemma ProductShift(x: int, y: int, p: int, q: int, u: int, v: int)
    requires u == p * FIELD + x && v == q * FIELD + y
    ensures ToElement(u * v) == ToElement(x * y)
  {
    assert u * v == x * y + (p * v + x * q) * FIELD by {
      assert u * v == p * FIELD * v + x * v;
      assert x * v == x * q * FIELD + x * y;
    }
    FShift(x * y, p * v + x * q);
  }

  // Integers with the same residue differ by a multiple of the characteristic.
  lemma Distance(u: int, v: int) returns (k: int)
    requires ToElement(u) == ToElement(v)
    ensures u == v + k * FIELD
  {
    var p := Representative(ToElement(u), u);
    var q := Representative(ToElement(v), v);
    k := p - q;
  }

  lemma IsSub(x: Element, y: Element, u: int, v: int)
    requires Is(x, u) && Is(y, v)
    ensures Is(FSub(x, y), u - v)
  {
    var p := Representative(x, u);
    var q := Representative(y, v);
    hide ToElement;
    FShift(x - y, p - q);
    assert u - v == x - y + (p - q) * FIELD;
  }

  lemma IsAdd(x: Element, y: Element, u: int, v: int)
    requires Is(x, u) && Is(y, v)
    ensures Is(FAdd(x, y), u + v)
  {
    var p := Representative(x, u);
    var q := Representative(y, v);
    hide ToElement;
    FShift(x + y, p + q);
    assert u + v == x + y + (p + q) * FIELD;
  }

  lemma FComm(x: Element, y: Element)
    ensures FMul(x, y) == FMul(y, x)
  {
  }

  lemma FOne(x: Element)
    ensures FMul(x, 1) == x && FMul(1, x) == x && FMul(x, 0) == 0 && FMul(0, x) == 0
  {
  }

  lemma FAssoc(x: Element, y: Element, z: Element)
    ensures FMul(FMul(x, y), z) == FMul(x, FMul(y, z))
  {
    hide ToElement, FMul;
    IsSelf(x);
    IsSelf(y);
    IsSelf(z);
    IsMul(x, y, x, y);
    IsMul(y, z, y, z);
    IsMul(FMul(x, y), z, x * y, z);
    IsMul(x, FMul(y, z), x, y * z);
    assert x * y * z == x * (y * z);
  }

  lemma FDistribute(x: Element, y: Element, z: Element)
    ensures FMul(x, FSub(y, z)) == FSub(FMul(x, y), FMul(x, z))
  {
    hide ToElement, FMul, FSub;
    IsSelf(x);
    IsSelf(y);
    IsSelf(z);
    IsSub(y, z, y, z);
    IsMul(x, FSub(y, z), x, y - z);
    IsMul(x, y, x, y);
    IsMul(x, z, x, z);
    IsSub(FMul(x, y), FMul(x, z), x * y, x * z);
    assert x * (y - z) == x * y - x * z;
  }

  lemma FDistributeAdd(x: Element, y: Element, z: Element)
    ensures FMul(x, FAdd(y, z)) == FAdd(FMul(x, y), FMul(x, z))
  {
    hide ToElement, FMul, FAdd;
    IsSelf(x);
    IsSelf(y);
    IsSelf(z);
    IsAdd(y, z, y, z);
    IsMul(x, FAdd(y, z), x, y + z);
    IsMul(x, y, x, y);
    IsMul(x, z, x, z);
    IsAdd(FMul(x, y), FMul(x, z), x * y, x * z);
    assert x * (y + z) == x * y + x * z;
  }

  // (x*y)*(u*v) = (x*u)*(y*v)
  lemma FSwap(x: Element, y: Element, u: Element, v: Element)
    ensures FMul(FMul(x, y), FMul(u, v)) == FMul(FMul(x, u), FMul(y, v))
  {
    hide FMul;
    FAssoc(x, y, FMul(u, v));
    FAssoc(y, u, v);
    FComm(y, u);
    FAssoc(u, y, v);
    FAssoc(x, u, FMul(y, v));
  }

  // A product of three in another order.
  lemma FSwapLast(x: Element, y: Element, z: Element)
    ensures FMul(FMul(x, y), z) == FMul(FMul(x, z), y)
  {
    hide FMul;
    FAssoc(x, y, z);
    FComm(y, z);
    FAssoc(x, z, y);
  }

  ghost predicate Inverts(inv: Element -> Element, x: Element) {
    x != 0 ==> FMul(x, inv(x)) == 1
  }

  /** inv inverts every non-zero element, as the exponentiation by the characteristic less two does, and keeps zero. */
  ghost predicate IsInverse(inv: Element -> Element) {
    inv(0) == 0 && forall x {:trigger Inverts(inv, x)} :: Inverts(inv, x)
  }

  /** No two non-zero elements multiply to zero. */
  lemma FNonzero(inv: Element -> Element, x: Element, y: Element)
    requires IsInverse(inv) && x != 0 && y != 0
    ensures FMul(x, y) != 0
  {
    assert Inverts(inv, x);
    if FMul(x, y) == 0 {
      FAssoc(inv(x), x, y);
      FComm(x, inv(x));
      FOne(y);
      FOne(inv(x));
    }
  }

  // Factors that multiply to one can be cancelled.
  lemma FCancel(x: Element, u: Element, v: Element)
    requires FMul(u, v) == 1
    ensures FMul(FMul(x, u), v) == x
  {
    FAssoc(x, u, v);
    FOne(x);
  }
}
