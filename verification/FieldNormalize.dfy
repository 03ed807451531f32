/** Normalization of field elements: lazy limbs of any admissible magnitude to the unique limbs of the residue. */
module FieldNormalize {
  import opened Digits
  import opened Secp256k1
  import opened Field5x52

  /** Limbs of magnitude m: each at most 2m times the largest normal limb. */
  predicate Magnitude(a: Fe, m: int) {
    && 0 <= a.n0 <= 2 * m * (E - 1) && 0 <= a.n1 <= 2 * m * (E - 1) && 0 <= a.n2 <= 2 * m * (E - 1)
    && 0 <= a.n3 <= 2 * m * (E - 1) && 0 <= a.n4 <= 2 * m * (TOP - 1)
  }

  // Up to here the 64-bit limbs have room for the carries of normalization.
  const MAX_MAGNITUDE: int := 2047

  // What secp256k1_fe_verify admits; the limbs still fit.
  const ADMITTED_MAGNITUDE: int := 2048

  // Any five machine words.
  predicate Words(a: Fe) {
    && 0 <= a.n0 < BITS64 && 0 <= a.n1 < BITS64 && 0 <= a.n2 < BITS64 && 0 <= a.n3 < BITS64
    && 0 <= a.n4 < BITS64
  }

  // Limbs without excess; the value may still reach the characteristic.
  predicate Tidy(a: Fe) {
    0 <= a.n0 < E && 0 <= a.n1 < E && 0 <= a.n2 < E && 0 <= a.n3 < E && 0 <= a.n4 < TOP
  }

  predicate Canonical(r: Fe) {
    Tidy(r) && Val(r) < FIELD
  }

  // Addition in a 64-bit word.
  function Add64(x: int, y: int): int {
    (x + y) % BITS64
  }

  /**
   * The 64-bit words of the first pass have room for the carries: neither the folded excess nor a carry added to the
   * next limb leaves its word.
   */
  predicate Fits(a: Fe) {
    var c1 := a.n0 + a.n4 / TOP * FOLD;
    var c2 := a.n1 + c1 / E;
    var c3 := a.n2 + c2 / E;
    var c4 := a.n3 + c3 / E;
    c1 < BITS64 && c2 < BITS64 && c3 < BITS64 && c4 < BITS64
  }

  // What an addition in a 64-bit word loses.
  function Wrap(x: int, y: int): int {
    (x + y) / BITS64 * BITS64
  }

  /** What the additions of the first pass lose altogether, each at the weight of its limb. */
  function Lost(a: Fe): int {
    var x := a.n4 / TOP * FOLD;
    var c1 := Add64(a.n0, x);
    var c2 := Add64(a.n1, c1 / E);
    var c3 := Add64(a.n2, c2 / E);
    Val(Fe(Wrap(a.n0, x), Wrap(a.n1, c1 / E), Wrap(a.n2, c2 / E), Wrap(a.n3, c3 / E), 0))
  }

  /** Limbs of magnitude up to 2047 leave room for every carry. */
  lemma MagnitudeFits(a: Fe, m: int)
    requires 0 <= m <= MAX_MAGNITUDE && Magnitude(a, m)
    ensures Words(a) && Fits(a)
  {
    TopExcess(a.n4, m);
    RoomForCarry(a.n0, a.n4 / TOP * FOLD, m);
    RoomForCarry(a.n1, (a.n0 + a.n4 / TOP * FOLD) / E, m);
  }

  lemma TopExcess(n: int, m: int)
    requires 0 <= m <= MAX_MAGNITUDE && 0 <= n <= 2 * m * (TOP - 1)
    ensures 0 <= n < BITS64 && 0 <= n / TOP * FOLD <= 2 * m * FOLD
  {
  }

  lemma RoomForCarry(n: int, c: int, m: int)
    requires 0 <= m <= MAX_MAGNITUDE && 0 <= n <= 2 * m * (E - 1) && 0 <= c <= 2 * m * FOLD
    ensures n + c < BITS64
  {
  }

  /** What is lost is less than the characteristic, so losing anything changes the residue. */
  lemma LostIsSmall(a: Fe)
    requires Words(a)
    ensures 0 <= Lost(a) < FIELD
    ensures Lost(a) == 0 <==> Fits(a)
  {
    var x := a.n4 / TOP * FOLD;
    var c1 := Add64(a.n0, x);
    var c2 := Add64(a.n1, c1 / E);
    var c3 := Add64(a.n2, c2 / E);
    OneBit(a.n0, x);
    OneBit(a.n1, c1 / E);
    OneBit(a.n2, c2 / E);
    OneBit(a.n3, c3 / E);
  }

  lemma OneBit(x: int, y: int)
    requires 0 <= x < BITS64 && 0 <= y < BITS64
    ensures Wrap(x, y) == if x + y < BITS64 then 0 else BITS64
    ensures Add64(x, y) == x + y - Wrap(x, y) && 0 <= Add64(x, y) < BITS64
  {
  }

  /** The first pass: what exceeds 2^256 is folded in at the bottom and one carry runs to the top. */
  method FirstPass(a: Fe) returns (t: Fe)
    requires Words(a)
    ensures 0 <= t.n0 < E && 0 <= t.n1 < E && 0 <= t.n2 < E && 0 <= t.n3 < E && 0 <= t.n4 < TOP + 4096
    ensures Val(t) == Val(a) - a.n4 / TOP * FIELD - Lost(a)
    ensures t.n0 == Add64(a.n0, a.n4 / TOP * FOLD) % E
  {
    hide Val;
    var x := a.n4 / TOP;
    var c1 := Add64(a.n0, x * FOLD);
    var c2 := Add64(a.n1, c1 / E);
    var c3 := Add64(a.n2, c2 / E);
    var c4 := Add64(a.n3, c3 / E);
    var c5 := Add64(a.n4 % TOP, c4 / E);
    t := Fe(c1 % E, c2 % E, c3 % E, c4 % E, c5);
    OneBit(a.n0, x * FOLD);
    OneBit(a.n1, c1 / E);
    OneBit(a.n2, c2 / E);
    OneBit(a.n3, c3 / E);
    OneBit(a.n4 % TOP, c4 / E);
    var l := Fe(Wrap(a.n0, x * FOLD), Wrap(a.n1, c1 / E), Wrap(a.n2, c2 / E), Wrap(a.n3, c3 / E), 0);
    CarriesUp(c1, c2, c3, c4, a.n1 - l.n1, a.n2 - l.n2, a.n3 - l.n3, a.n4 % TOP);
    LessLost(a, x, l);
    Overflow(a, x);
  }

  lemma LessLost(a: Fe, x: int, l: Fe)
    requires l.n4 == 0
    ensures Val(Fe(a.n0 + x * FOLD - l.n0, a.n1 - l.n1, a.n2 - l.n2, a.n3 - l.n3, a.n4 % TOP))
      == Val(Fe(a.n0 + x * FOLD, a.n1, a.n2, a.n3, a.n4 % TOP)) - Val(l)
  {
  }

  // The part of the top limb beyond 2^256, moved to the bottom.
  lemma Overflow(a: Fe, x: int)
    requires x == a.n4 / TOP
    ensures Val(Fe(a.n0 + x * FOLD, a.n1, a.n2, a.n3, a.n4 % TOP)) == Val(a) - x * FIELD
  {
    assert a.n4 == x * TOP + a.n4 % TOP;
  }

  // The final step: add x*FOLD and drop bit 256.
  method SecondPass(t: Fe, x: int) returns (r: Fe)
    requires 0 <= t.n0 < E && 0 <= t.n1 < E && 0 <= t.n2 < E && 0 <= t.n3 < E && 0 <= t.n4 < TOP + 4096
    requires x == 0 || x == 1
    requires x == 1 <==> Val(t) >= FIELD
    ensures Canonical(r) && Val(r) == Val(t) - x * FIELD
  {
    assert 0 <= Val(t) < 2 * FIELD;
    hide Val;
    var c1 := t.n0 + x * FOLD;
    var c2 := c1 / E + t.n1;
    var c3 := c2 / E + t.n2;
    var c4 := c3 / E + t.n3;
    var c5 := c4 / E + t.n4;
    CarriesUp(c1, c2, c3, c4, t.n1, t.n2, t.n3, t.n4);
    r := Fe(c1 % E, c2 % E, c3 % E, c4 % E, c5 % TOP);
    assert Val(Fe(c1, t.n1, t.n2, t.n3, t.n4)) == Val(t) + x * FOLD by { AddLow(t, x * FOLD); }
    TopCarry(c1 % E, c2 % E, c3 % E, c4 % E, c5, t, x);
  }

  lemma AddLow(t: Fe, k: int)
    ensures Val(Fe(t.n0 + k, t.n1, t.n2, t.n3, t.n4)) == Val(t) + k
  {
  }

  // If no carry left bit 256 before, one does now exactly when the characteristic was reached.
  lemma TopCarry(r0: int, r1: int, r2: int, r3: int, c: int, t: Fe, x: int)
    requires 0 <= r0 < E && 0 <= r1 < E && 0 <= r2 < E && 0 <= r3 < E && (x == 0 || x == 1)
    requires 0 <= Val(t) < 2 * FIELD && (x == 1 <==> Val(t) >= FIELD)
    requires Val(Fe(r0, r1, r2, r3, c)) == Val(t) + x * FOLD
    ensures c / TOP == x && Val(Fe(r0, r1, r2, r3, c % TOP)) == Val(t) - x * FIELD
  {
    assert c == c / TOP * TOP + c % TOP;
  }

  // Whether the value after the first pass reaches the characteristic, read off the limbs.
  function FinalReduction(t: Fe): (x: int)
    requires 0 <= t.n0 < E && 0 <= t.n1 < E && 0 <= t.n2 < E && 0 <= t.n3 < E && 0 <= t.n4 < TOP + 4096
    ensures (x == 0 || x == 1) && (x == 1 <==> Val(t) >= FIELD)
  {
    if t.n4 / TOP == 1 || (t.n4 == TOP - 1 && t.n1 == E - 1 && t.n2 == E - 1 && t.n3 == E - 1
        && t.n0 >= 0xFFFFEFFFFFC2F) then 1 else 0
  }

  // Less a multiple of the characteristic and less what was lost.
  lemma ResidueOf(v: int, w: int, k: int, lost: int)
    requires w == v - k * FIELD - lost && 0 <= w < FIELD && 0 <= lost < FIELD
    ensures w == (v - lost) % FIELD
    ensures w == v % FIELD <==> lost == 0
  {
    DivModUnique(v - lost, FIELD, k, w);
    if w + lost < FIELD {
      DivModUnique(v, FIELD, k, w + lost);
    } else {
      DivModUnique(v, FIELD, k + 1, w + lost - FIELD);
    }
  }

  /** secp256k1_fe_normalize, for any limbs: the residue exactly when the first pass has room for its carries. */
  method Normalize(a: Fe) returns (r: Fe)
    requires Words(a)
    ensures Canonical(r) && Val(r) == (Val(a) - Lost(a)) % FIELD
    ensures Val(r) == Val(a) % FIELD <==> Fits(a)
  {
    var t := FirstPass(a);
    var x := FinalReduction(t);
    r := SecondPass(t, x);
    hide Val, Canonical, Lost, Fits;
    LostIsSmall(a);
    ResidueOf(Val(a), Val(r), a.n4 / TOP + x, Lost(a));
  }

  lemma AlreadyCanonical(t: Fe)
    requires 0 <= t.n0 < E && 0 <= t.n1 < E && 0 <= t.n2 < E && 0 <= t.n3 < E && 0 <= t.n4 < TOP + 4096
    requires Val(t) < FIELD
    ensures Canonical(t)
  {
  }

  lemma CanonicalBounds(r: Fe)
    requires Canonical(r)
    ensures 0 <= Val(r) < FIELD
  {
  }

  /** secp256k1_fe_normalize_var: the same limbs, with the final step only where it is needed. */
  method NormalizeVar(a: Fe) returns (r: Fe)
    requires Words(a)
    ensures Canonical(r) && Val(r) == (Val(a) - Lost(a)) % FIELD
    ensures Val(r) == Val(a) % FIELD <==> Fits(a)
  {
    hide Val, Canonical, Lost, Fits;
    var t := FirstPass(a);
    var x := FinalReduction(t);
    r := t;
    if x == 1 {
      r := SecondPass(t, 1);
    } else {
      AlreadyCanonical(t);
    }
    CanonicalBounds(r);
    LostIsSmall(a);
    ResidueOf(Val(a), Val(r), a.n4 / TOP + x, Lost(a));
  }

  /** Limbs of a residue are unique, so both normalizations return the same element. */
  lemma TidyUnique(a: Fe, b: Fe)
    requires Tidy(a) && Tidy(b) && Val(a) == Val(b)
    ensures a == b
  {
    LowLimb(a.n0, a.n1 + a.n2 * E + a.n3 * E2 + a.n4 * E3, b.n0, b.n1 + b.n2 * E + b.n3 * E2 + b.n4 * E3);
    LowLimb(a.n1, a.n2 + a.n3 * E + a.n4 * E2, b.n1, b.n2 + b.n3 * E + b.n4 * E2);
    LowLimb(a.n2, a.n3 + a.n4 * E, b.n2, b.n3 + b.n4 * E);
    LowLimb(a.n3, a.n4, b.n3, b.n4);
  }

  lemma LowLimb(a: int, u: int, b: int, v: int)
    requires 0 <= a < E && 0 <= b < E && a + E * u == b + E * v
    ensures a == b && u == v
  {
  }

  // The same congruence, for a value that may still exceed the characteristic.
  lemma CongruentWhenKept(v: int, w: int, k: int, lost: int)
    requires w == v - k * FIELD - lost && 0 <= lost < FIELD
    ensures Congruent(w, v) <==> lost == 0
  {
    if lost == 0 {
      DivModUnique(w - v, FIELD, -k, 0);
    } else {
      DivModUnique(w - v, FIELD, -k - 1, FIELD - lost);
    }
  }

  /** secp256k1_fe_normalize_weak: magnitude one, and the same residue exactly when no carry is lost. */
  method NormalizeWeak(a: Fe) returns (r: Fe)
    requires Words(a)
    ensures Magnitude(r, 1)
    ensures Congruent(Val(r), Val(a)) <==> Fits(a)
  {
    r := FirstPass(a);
    hide Val, Lost, Fits, Congruent;
    LostIsSmall(a);
    CongruentWhenKept(Val(a), Val(r), a.n4 / TOP, Lost(a));
  }

  // After the first pass only 0 and the characteristic itself stand for zero.
  lemma ZeroAfterFirstPass(v: int, w: int, k: int)
    requires w == v - k * FIELD && 0 <= w < 2 * FIELD
    ensures v % FIELD == 0 <==> w == 0 || w == FIELD
  {
    DivModEq(v, FIELD);
    if w < FIELD {
      DivModUnique(v, FIELD, k, w);
    } else {
      DivModUnique(v, FIELD, k + 1, w - FIELD);
    }
  }

  // z0 collects whether every limb is zero, z1 whether every limb is that of the characteristic.
  function IsZeroOrField(t: Fe): (z: bool)
    requires 0 <= t.n0 < E && 0 <= t.n1 < E && 0 <= t.n2 < E && 0 <= t.n3 < E && 0 <= t.n4 < TOP + 4096
    ensures z <==> Val(t) == 0 || Val(t) == FIELD
  {
    var z0 := t.n0 == 0 && t.n1 == 0 && t.n2 == 0 && t.n3 == 0 && t.n4 == 0;
    var z1 := t.n0 == 0xFFFFEFFFFFC2F && t.n1 == E - 1 && t.n2 == E - 1 && t.n3 == E - 1 && t.n4 == TOP - 1;
    z0 || z1
  }

  // The lowest limb alone can rule both out.
  lemma NotZeroOrField(t: Fe)
    requires 0 <= t.n0 < E && t.n0 != 0 && t.n0 != 0xFFFFEFFFFFC2F
    ensures Val(t) != 0 && Val(t) != FIELD
  {
    var rest := t.n1 + t.n2 * E + t.n3 * E2 + t.n4 * E3;
    assert Val(t) == t.n0 + E * rest;
  }

  /** secp256k1_fe_normalizes_to_zero */
  method NormalizesToZero(a: Fe) returns (zero: bool)
    requires Words(a)
    ensures zero <==> (Val(a) - Lost(a)) % FIELD == 0
    ensures Fits(a) ==> (zero <==> Val(a) % FIELD == 0)
  {
    var t := FirstPass(a);
    zero := IsZeroOrField(t);
    BelowTwice(t);
    hide Val, Lost, Fits;
    LostIsSmall(a);
    ZeroAfterFirstPass(Val(a) - Lost(a), Val(t), a.n4 / TOP);
  }

  lemma BelowTwice(t: Fe)
    requires 0 <= t.n0 < E && 0 <= t.n1 < E && 0 <= t.n2 < E && 0 <= t.n3 < E && 0 <= t.n4 < TOP + 4096
    ensures 0 <= Val(t) < 2 * FIELD
  {
  }

  /** secp256k1_fe_normalizes_to_zero_var: the lowest limb alone decides most cases. */
  method NormalizesToZeroVar(a: Fe) returns (zero: bool)
    requires Words(a)
    ensures zero <==> (Val(a) - Lost(a)) % FIELD == 0
    ensures Fits(a) ==> (zero <==> Val(a) % FIELD == 0)
  {
    hide Val, Add64, Lost, Fits;
    var x := a.n4 / TOP;
    var t0 := Add64(a.n0, x * FOLD);
    var z := t0 % E;
    var t := FirstPass(a);
    BelowTwice(t);
    LostIsSmall(a);
    ZeroAfterFirstPass(Val(a) - Lost(a), Val(t), x);
    zero := false;
    if z == 0 || z == 0xFFFFEFFFFFC2F {
      zero := IsZeroOrField(t);
    } else {
      NotZeroOrField(t);
    }
  }

  /** Limbs of magnitude 2048, which the consistency check still admits, for which a carry is lost. */
  const TOP_MAGNITUDE: Fe := Fe(4096 * (E - 1), 0, 0, 0, 4096 * (TOP - 1))

  lemma TopMagnitudeLoses()
    ensures Magnitude(TOP_MAGNITUDE, 2048) && Words(TOP_MAGNITUDE) && !Fits(TOP_MAGNITUDE)
    ensures Lost(TOP_MAGNITUDE) == BITS64
  {
  }

  /** At these limbs normalization returns another residue: that of the value less 2^64. */
  method NormalizeTopMagnitude() returns (r: Fe)
    ensures Canonical(r) && Val(r) == (Val(TOP_MAGNITUDE) - BITS64) % FIELD
    ensures Val(r) != Val(TOP_MAGNITUDE) % FIELD
  {
    TopMagnitudeLoses();
    r := Normalize(TOP_MAGNITUDE);
  }

  lemma NegatedValue(a: Fe, r: Fe, k: int)
    requires r.n0 == 0xFFFFEFFFFFC2F * k - a.n0 && r.n1 == (E - 1) * k - a.n1 && r.n2 == (E - 1) * k - a.n2
    requires r.n3 == (E - 1) * k - a.n3 && r.n4 == (TOP - 1) * k - a.n4
    ensures Val(r) == -Val(a) + k * FIELD
  {
  }

  /** secp256k1_fe_negate: a multiple of the characteristic large enough that no limb underflows. */
  method NegateFe(a: Fe, m: int) returns (r: Fe)
    requires 0 <= m < ADMITTED_MAGNITUDE && Magnitude(a, m)
    ensures Words(r) && Magnitude(r, m + 1) && Congruent(Val(r), -Val(a))
  {
    hide Val, Congruent;
    r := Fe(0xFFFFEFFFFFC2F * 2 * (m + 1) - a.n0, (E - 1) * 2 * (m + 1) - a.n1, (E - 1) * 2 * (m + 1) - a.n2,
      (E - 1) * 2 * (m + 1) - a.n3, (TOP - 1) * 2 * (m + 1) - a.n4);
    NegatedValue(a, r, 2 * (m + 1));
    MultipleOfField(Val(r), -Val(a), -(2 * (m + 1)));
  }
}
