/** The field operations on limbs as operations on residues, each with the magnitude it demands and the magnitude it
    leaves. */
module FieldLimbs {
  import opened Digits
  import opened Residues
  import opened Secp256k1
  import opened Field5x52
  import opened FieldNormalize
  import opened FieldElement
  import opened UnifiedAdd

  /** The residue that limbs stand for. */
  function El(a: Fe): Element {
    ToElement(Val(a))
  }

  /** Limbs of magnitude at most m that stand for x. */
  ghost predicate Holds(a: Fe, m: int, x: Element) {
    0 <= m && Magnitude(a, m) && El(a) == x
  }

  lemma SameElement(v: int, w: int)
    requires Congruent(v, w)
    ensures ToElement(v) == ToElement(w)
  {
    var k := (v - w) / FIELD;
    DivModEq(v - w, FIELD);
    FShift(w, k);
    assert v == w + k * FIELD;
  }

  lemma MagnitudeOfInput(a: Fe, m: int)
    requires 0 <= m <= 8 && Magnitude(a, m)
    ensures Input(a)
  {
  }

  lemma Widened(a: Fe, m: int, k: int, x: Element)
    requires Holds(a, m, x) && m <= k
    ensures Holds(a, k, x)
  {
  }

  lemma ReducedMagnitude(r: Fe)
    requires Reduced(r)
    ensures Magnitude(r, 1)
  {
  }

  lemma ElementOfProduct(v: int, a: Fe, b: Fe)
    requires Congruent(v, Val(a) * Val(b))
    ensures ToElement(v) == FMul(El(a), El(b))
  {
    hide Val, FMul, ToElement, Congruent;
    SameElement(v, Val(a) * Val(b));
    ElementIs(a);
    ElementIs(b);
    IsMul(El(a), El(b), Val(a), Val(b));
  }

  lemma ElementIs(a: Fe)
    ensures Is(El(a), Val(a))
  {
  }

  /** secp256k1_fe_mul: both magnitudes at most 8. */
  method MulFe(a: Fe, b: Fe, ghost m: int, ghost k: int, ghost x: Element, ghost y: Element) returns (r: Fe)
    requires m <= 8 && k <= 8 && Holds(a, m, x) && Holds(b, k, y)
    ensures Holds(r, 1, FMul(x, y))
  {
    hide FMul, Val, ToElement, Congruent;
    MagnitudeOfInput(a, m);
    MagnitudeOfInput(b, k);
    r := MulInner(a, b);
    ReducedMagnitude(r);
    ElementOfProduct(Val(r), a, b);
  }

  /** secp256k1_fe_sqr */
  method SqrFe(a: Fe, ghost m: int, ghost x: Element) returns (r: Fe)
    requires m <= 8 && Holds(a, m, x)
    ensures Holds(r, 1, FSqr(x))
  {
    hide FMul, Val, ToElement, Congruent;
    MagnitudeOfInput(a, m);
    r := SqrInner(a);
    ReducedMagnitude(r);
    ElementOfProduct(Val(r), a, a);
  }

  // A sum in a 64-bit word.
  lemma WordSum(x: int, y: int)
    requires 0 <= x && 0 <= y && x + y < BITS64
    ensures Add64(x, y) == x + y
  {
  }

  /** secp256k1_fe_add: magnitudes add up. */
  method AddFe(a: Fe, b: Fe, ghost m: int, ghost k: int, ghost x: Element, ghost y: Element) returns (r: Fe)
    requires Holds(a, m, x) && Holds(b, k, y) && m + k <= ADMITTED_MAGNITUDE
    ensures Holds(r, m + k, FAdd(x, y))
  {
    hide Add64, Val, ToElement;
    SumsFit(a, b, m, k);
    WordSum(a.n0, b.n0);
    WordSum(a.n1, b.n1);
    WordSum(a.n2, b.n2);
    WordSum(a.n3, b.n3);
    WordSum(a.n4, b.n4);
    r := Fe(Add64(a.n0, b.n0), Add64(a.n1, b.n1), Add64(a.n2, b.n2), Add64(a.n3, b.n3), Add64(a.n4, b.n4));
    SumOfValues(a, b, r);
    ElementIs(a);
    ElementIs(b);
    hide Is, FAdd;
    IsAdd(x, y, Val(a), Val(b));
    ElementFrom(FAdd(x, y), r);
  }

  lemma ElementFrom(x: Element, r: Fe)
    requires Is(x, Val(r))
    ensures El(r) == x
  {
  }

  lemma SumsFit(a: Fe, b: Fe, m: int, k: int)
    requires 0 <= m && 0 <= k && m + k <= ADMITTED_MAGNITUDE && Magnitude(a, m) && Magnitude(b, k)
    ensures a.n0 + b.n0 < BITS64 && a.n1 + b.n1 < BITS64 && a.n2 + b.n2 < BITS64 && a.n3 + b.n3 < BITS64
    ensures a.n4 + b.n4 < BITS64
    ensures Magnitude(Fe(a.n0 + b.n0, a.n1 + b.n1, a.n2 + b.n2, a.n3 + b.n3, a.n4 + b.n4), m + k)
  {
  }

  lemma SumOfValues(a: Fe, b: Fe, r: Fe)
    requires r == Fe(a.n0 + b.n0, a.n1 + b.n1, a.n2 + b.n2, a.n3 + b.n3, a.n4 + b.n4)
    ensures Val(r) == Val(a) + Val(b)
  {
  }

  /** secp256k1_fe_negate: the bound is passed by the caller, and one more is left. */
  method NegFe(a: Fe, m: int, ghost x: Element) returns (r: Fe)
    requires Holds(a, m, x) && m < ADMITTED_MAGNITUDE
    ensures Holds(r, m + 1, Neg(x))
  {
    hide Val, ToElement, Congruent, Neg;
    r := NegateFe(a, m);
    SameElement(Val(r), -Val(a));
    ElementIs(a);
    NegValue(x, Val(a));
    IsElement(Neg(x), -Val(a));
  }

  lemma IsElement(x: Element, v: int)
    requires Is(x, v)
    ensures ToElement(v) == x
  {
  }

  // The largest value of an int.
  const INT_MAX: int := 0x7FFF_FFFF

  /** secp256k1_fe_mul_int: the magnitude is multiplied, and must stay admissible. */
  method MulIntFe(a: Fe, k: int, ghost m: int, ghost x: Element) returns (r: Fe)
    requires Holds(a, m, x) && 0 <= k <= INT_MAX && m * k <= ADMITTED_MAGNITUDE
    ensures Holds(r, m * k, FMul(x, k))
  {
    hide Val, ToElement, FMul;
    MultipleFits(a.n0, k, m, E);
    MultipleFits(a.n1, k, m, E);
    MultipleFits(a.n2, k, m, E);
    MultipleFits(a.n3, k, m, E);
    MultipleFits(a.n4, k, m, TOP);
    r := Fe(a.n0 * k % BITS64, a.n1 * k % BITS64, a.n2 * k % BITS64, a.n3 * k % BITS64, a.n4 * k % BITS64);
    MultipleOfValues(a, k, r);
    ElementIs(a);
    hide Is;
    IsTimesInt(x, Val(a), k);
    ElementFrom(FMul(x, k), r);
  }

  lemma MultipleFits(n: int, k: int, m: int, e: int)
    requires 0 <= k && 0 <= m && m * k <= ADMITTED_MAGNITUDE && (e == E || e == TOP) && 0 <= n <= 2 * m * (e - 1)
    ensures n * k % BITS64 == n * k && 0 <= n * k <= 2 * (m * k) * (e - 1)
  {
    MulNonneg(n, k);
    MulNonneg(2 * m * (e - 1) - n, k);
    Rearranged(n, k, m, e - 1);
    MulNonneg(m, k);
    FitsWord(n * k, m * k, e);
  }

  lemma Rearranged(n: int, k: int, m: int, f: int)
    ensures (2 * m * f - n) * k == 2 * (m * k) * f - n * k
  {
    assert (2 * m * f - n) * k == 2 * m * f * k - n * k;
    assert 2 * m * f * k == 2 * (m * k) * f;
  }

  lemma FitsWord(v: int, p: int, e: int)
    requires 0 <= v <= 2 * p * (e - 1) && 0 <= p <= ADMITTED_MAGNITUDE && (e == E || e == TOP)
    ensures v % BITS64 == v
  {
  }

  lemma MultipleOfValues(a: Fe, k: int, r: Fe)
    requires r == Fe(a.n0 * k, a.n1 * k, a.n2 * k, a.n3 * k, a.n4 * k)
    ensures Val(r) == Val(a) * k
  {
  }

  lemma IsTimesInt(x: Element, u: int, k: int)
    requires Is(x, u) && 0 <= k <= INT_MAX
    ensures Is(FMul(x, k), u * k)
  {
    var c: Element := k;
    IsSelf(c);
    IsMul(x, c, u, k);
  }

  /** secp256k1_fe_normalize_weak */
  method NormalizeWeakFe(a: Fe, ghost m: int, ghost x: Element) returns (r: Fe)
    requires Holds(a, m, x) && m <= MAX_MAGNITUDE
    ensures Holds(r, 1, x)
  {
    hide Val, ToElement, Congruent, Fits;
    MagnitudeFits(a, m);
    r := NormalizeWeak(a);
    SameElement(Val(r), Val(a));
  }

  lemma ZeroElement(v: int)
    ensures v % FIELD == 0 <==> ToElement(v) == 0
  {
    ResidueIsMod(v, FIELD);
  }

  /** secp256k1_fe_normalizes_to_zero_var */
  method IsZeroVarFe(a: Fe, ghost m: int, ghost x: Element) returns (zero: bool)
    requires Holds(a, m, x) && m <= MAX_MAGNITUDE
    ensures zero <==> x == 0
  {
    hide Val, ToElement, Fits, Lost;
    MagnitudeFits(a, m);
    zero := NormalizesToZeroVar(a);
    ZeroElement(Val(a));
  }

  /** secp256k1_fe_normalizes_to_zero */
  method IsZeroFe(a: Fe, ghost m: int, ghost x: Element) returns (zero: bool)
    requires Holds(a, m, x) && m <= MAX_MAGNITUDE
    ensures zero <==> x == 0
  {
    hide Val, ToElement, Fits, Lost;
    MagnitudeFits(a, m);
    zero := NormalizesToZero(a);
    ZeroElement(Val(a));
  }

  /** secp256k1_fe_set_int */
  method SetInt(k: int) returns (r: Fe)
    requires k == 0 || k == 1
    ensures Holds(r, 1, k)
  {
    r := Fe(k, 0, 0, 0, 0);
  }
}
