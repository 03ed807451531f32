/** Field elements as five limbs in base 2^52: multiplication and squaring with the upper half folded in as it appears.
    */
module Field5x52 {
  import opened Digits
  import opened Secp256k1

  const E: int := 0x10_0000_0000_0000
  const E2: int := 0x100000000000000000000000000
  const E3: int := 0x1000000000000000000000000000000000000000
  const E4: int := 0x10000000000000000000000000000000000000000000000000000
  const TOP: int := 0x1_0000_0000_0000

  // 2^260 = R modulo the field characteristic.
  const R: int := 0x1000003D10
  const FOLD: int := 0x1000003D1

  datatype Fe = Fe(n0: int, n1: int, n2: int, n3: int, n4: int)

  function Val(a: Fe): int {
    a.n0 + a.n1 * E + a.n2 * E2 + a.n3 * E3 + a.n4 * E4
  }

  /** Equal modulo the field characteristic. */
  ghost predicate Congruent(v: int, w: int) {
    (v - w) % FIELD == 0
  }

  // What the inputs of a multiplication may be: magnitude 8.
  predicate Input(a: Fe) {
    && 0 <= a.n0 < 0x100_0000_0000_0000 && 0 <= a.n1 < 0x100_0000_0000_0000
    && 0 <= a.n2 < 0x100_0000_0000_0000 && 0 <= a.n3 < 0x100_0000_0000_0000
    && 0 <= a.n4 < E
  }

  // What it returns: magnitude 1.
  predicate Reduced(r: Fe) {
    0 <= r.n0 < E && 0 <= r.n1 < E && 0 <= r.n2 < E && 0 <= r.n3 < E && 0 <= r.n4 < 2 * TOP - 1
  }

  /** The sums of products that belong to one power of 2^52. */
  datatype Columns = Columns(p0: int, p1: int, p2: int, p3: int, p4: int, p5: int, p6: int, p7: int, p8: int)

  function ColumnsOf(a: Fe, b: Fe): Columns {
    Columns(
      a.n0 * b.n0,
      a.n0 * b.n1 + a.n1 * b.n0,
      a.n0 * b.n2 + a.n1 * b.n1 + a.n2 * b.n0,
      a.n0 * b.n3 + a.n1 * b.n2 + a.n2 * b.n1 + a.n3 * b.n0,
      a.n0 * b.n4 + a.n1 * b.n3 + a.n2 * b.n2 + a.n3 * b.n1 + a.n4 * b.n0,
      a.n1 * b.n4 + a.n2 * b.n3 + a.n3 * b.n2 + a.n4 * b.n1,
      a.n2 * b.n4 + a.n3 * b.n3 + a.n4 * b.n2,
      a.n3 * b.n4 + a.n4 * b.n3,
      a.n4 * b.n4)
  }

  function ColumnsVal(p: Columns): int {
    p.p0 + p.p1 * E + p.p2 * E2 + p.p3 * E3 + p.p4 * E4 + (p.p5 + p.p6 * E + p.p7 * E2 + p.p8 * E3) * (E * E4)
  }

  const B112: int := 0x1_0000_0000_0000_0000_0000_0000_0000
  const B108: int := 0x1000_0000_0000_0000_0000_0000_0000

  ghost predicate Small(p: Columns) {
    && 0 <= p.p0 < B112 && 0 <= p.p1 < 2 * B112 && 0 <= p.p2 < 3 * B112 && 0 <= p.p3 < 4 * B112
    && 0 <= p.p4 < 3 * B112 + 2 * B108 && 0 <= p.p5 < 2 * B112 + 2 * B108 && 0 <= p.p6 < B112 + 2 * B108
    && 0 <= p.p7 < 2 * B108 && 0 <= p.p8 < E2
  }

  lemma ProductBelow(a: int, b: int, x: int, y: int)
    requires 0 <= a < x && 0 <= b < y
    ensures 0 <= a * b <= (x - 1) * (y - 1)
  {
    assert a * b <= (x - 1) * b;
    assert (x - 1) * b <= (x - 1) * (y - 1);
  }

  lemma SmallProduct(a: int, b: int)
    requires 0 <= a < 0x100_0000_0000_0000 && 0 <= b < 0x100_0000_0000_0000
    ensures 0 <= a * b < B112
    ensures b < E ==> a * b < B108
    ensures a < E ==> a * b < B108
    ensures a < E && b < E ==> a * b < E2
  {
    var x := 0x100_0000_0000_0000;
    ProductBelow(a, b, if a < E then E else x, if b < E then E else x);
  }

  lemma SmallColumns(a: Fe, b: Fe)
    requires Input(a) && Input(b)
    ensures Small(ColumnsOf(a, b))
  {
    SmallProduct(a.n0, b.n0);
    SmallProduct(a.n0, b.n1);
    SmallProduct(a.n1, b.n0);
    SmallProduct(a.n0, b.n2);
    SmallProduct(a.n1, b.n1);
    SmallProduct(a.n2, b.n0);
    SmallProduct(a.n0, b.n3);
    SmallProduct(a.n1, b.n2);
    SmallProduct(a.n2, b.n1);
    SmallProduct(a.n3, b.n0);
    SmallProduct(a.n0, b.n4);
    SmallProduct(a.n1, b.n3);
    SmallProduct(a.n2, b.n2);
    SmallProduct(a.n3, b.n1);
    SmallProduct(a.n4, b.n0);
    SmallProduct(a.n1, b.n4);
    SmallProduct(a.n2, b.n3);
    SmallProduct(a.n3, b.n2);
    SmallProduct(a.n4, b.n1);
    SmallProduct(a.n2, b.n4);
    SmallProduct(a.n3, b.n3);
    SmallProduct(a.n4, b.n2);
    SmallProduct(a.n3, b.n4);
    SmallProduct(a.n4, b.n3);
    SmallProduct(a.n4, b.n4);
  }

  // The 128-bit accumulators never exceed their declared number of bits.
  predicate Below(x: int, bound: int) {
    0 <= x < bound
  }

  const BITS60: int := 0x1000_0000_0000_0000
  const BITS61: int := 0x2000_0000_0000_0000
  const BITS62: int := 0x4000_0000_0000_0000
  const BITS63: int := 0x8000_0000_0000_0000
  const BITS64: int := 0x1_0000_0000_0000_0000
  const BITS100: int := 0x10_0000_0000_0000_0000_0000_0000
  const BITS113: int := 0x2_0000_0000_0000_0000_0000_0000_0000
  const BITS114: int := 0x4_0000_0000_0000_0000_0000_0000_0000
  const BITS115: int := 0x8_0000_0000_0000_0000_0000_0000_0000
  const BITS116: int := 0x10_0000_0000_0000_0000_0000_0000_0000

  // The accumulators before each word is split off: d runs through the upper columns, c through the lower ones.
  ghost function D1(p: Columns): int { p.p3 + p.p8 % E * R }
  ghost function D2(p: Columns): int { D1(p) / E + p.p4 + p.p8 / E * R }
  ghost function D3(p: Columns): int { D2(p) / E + p.p5 }
  ghost function D4(p: Columns): int { D3(p) / E + p.p6 }
  ghost function D5(p: Columns): int { D4(p) / E + p.p7 }
  ghost function U(p: Columns): int { D3(p) % E * 16 + D2(p) % E / TOP }
  ghost function C1(p: Columns): int { p.p0 + U(p) * FOLD }
  ghost function C2(p: Columns): int { C1(p) / E + p.p1 + D4(p) % E * R }
  ghost function C3(p: Columns): int { C2(p) / E + p.p2 + D5(p) % E * R }
  ghost function C4(p: Columns): int { C3(p) / E + D5(p) / E * R + D1(p) % E }

  /** The high columns folded down: words t3 and t4, the overflow tx beyond 2^256 and what is left for column five. */
  datatype High = High(t3: int, t4: int, tx: int, d: int)

  method FoldHigh(p: Columns) returns (h: High)
    requires Small(p)
    ensures Below(h.t3, E) && Below(h.t4, TOP) && Below(h.tx, 16) && Below(h.d, BITS64)
    ensures h == High(D1(p) % E, D2(p) % E % TOP, D2(p) % E / TOP, D2(p) / E)
  {
    var d, c := p.p3, p.p8;
    assert Below(d, BITS114);
    d, c := d + c % E * R, c / E;
    assert Below(d, BITS115) && Below(c, BITS60);
    var t3 := d % E;
    d := d / E;
    assert Below(d, BITS63);
    d := d + p.p4;
    assert Below(d, BITS115);
    d := d + c * R;
    assert Below(d, BITS116);
    var t4 := d % E;
    d := d / E;
    h := High(t3, t4 % TOP, t4 / TOP, d);
  }

  // Column five and the overflow enter the lowest word together.
  method FoldLow(p: Columns, h: High) returns (r0: int, c: int, d: int)
    requires Small(p) && Below(h.tx, 16) && Below(h.d, BITS64) && h.tx == D2(p) % E / TOP && h.d == D2(p) / E
    ensures Below(r0, E) && Below(c, BITS61) && Below(d, BITS63)
    ensures r0 == C1(p) % E && c == C1(p) / E && d == D3(p) / E
  {
    hide D2;
    d := h.d + p.p5;
    assert Below(d, BITS115);
    var u := d % E;
    d := d / E;
    u := u * 16 + h.tx;
    c := p.p0 + u * (R / 16);
    assert Below(c, BITS113);
    r0 := c % E;
    c := c / E;
  }

  // A middle word: one column of the lower half, and the low word of one column of the upper half.
  method FoldWord(p: int, q: int, c0: int, d0: int) returns (r: int, c: int, d: int)
    requires Below(p, 3 * B112) && Below(q, B112 + 2 * B108) && Below(c0, BITS63) && Below(d0, BITS63)
    ensures Below(r, E) && Below(c, BITS63) && Below(d, BITS62)
    ensures var c1 := c0 + p + (d0 + q) % E * R;
      d == (d0 + q) / E && r == c1 % E && c == c1 / E
  {
    c := c0 + p;
    assert Below(c, BITS114);
    d := d0 + q;
    assert Below(d, BITS114);
    c, d := c + d % E * R, d / E;
    assert Below(c, BITS115);
    r, c := c % E, c / E;
  }

  method FoldTop(c0: int, d: int, t3: int, t4: int) returns (r3: int, r4: int)
    requires Below(c0, BITS63) && Below(d, BITS62) && Below(t3, E) && Below(t4, TOP)
    ensures Below(r3, E) && Below(r4, 2 * TOP - 1)
    ensures var c1 := c0 + d * R + t3; r3 == c1 % E && r4 == c1 / E + t4
  {
    var c := c0 + (d * R + t3);
    assert Below(c, BITS100);
    r3, c := c % E, c / E;
    assert Below(c, TOP);
    c := c + t4;
    r4 := c;
  }

  /** The limbs that come out, as a function of the columns alone. */
  ghost function Folded(p: Columns): Fe {
    Fe(C1(p) % E, C2(p) % E, C3(p) % E, C4(p) % E, C4(p) / E + D2(p) % E % TOP)
  }

  // Passing carries upwards keeps the value of a string of words.
  lemma CarriesUp(c1: int, c2: int, c3: int, c4: int, x1: int, x2: int, x3: int, top: int)
    requires c2 == c1 / E + x1 && c3 == c2 / E + x2 && c4 == c3 / E + x3
    ensures Val(Fe(c1 % E, c2 % E, c3 % E, c4 % E, c4 / E + top)) == Val(Fe(c1, x1, x2, x3, top))
  {
    assert c1 == c1 / E * E + c1 % E && c2 == c2 / E * E + c2 % E
      && c3 == c3 / E * E + c3 % E && c4 == c4 / E * E + c4 % E;
  }

  /** Folding keeps the value modulo the field characteristic: what is dropped is a multiple of it. */
  lemma FoldedKeepsResidue(p: Columns)
    ensures Congruent(Val(Folded(p)), ColumnsVal(p))
  {
    CarriesUp(C1(p), C2(p), C3(p), C4(p), p.p1 + D4(p) % E * R, p.p2 + D5(p) % E * R, D5(p) / E * R + D1(p) % E,
      D2(p) % E % TOP);
    UpperValue(D1(p), D2(p), D3(p), D4(p), D5(p), p.p4 + p.p8 / E * R, p.p5, p.p6, p.p7);
    Dropped(p, D1(p), D2(p), D3(p), D4(p), D5(p));
    hide Val, ColumnsVal, D1, D2, D3, D4, D5, C2, C3, C4;
    var k := U(p) + 16 * (D4(p) % E * E + D5(p) % E * E2 + (D5(p) / E + p.p8 % E) * E3 + p.p8 / E * E4);
    MultipleOfField(Val(Folded(p)), ColumnsVal(p), k);
  }

  lemma MultipleOfField(v: int, w: int, k: int)
    requires v == w - k * FIELD
    ensures Congruent(v, w)
  {
    DivModUnique(v - w, FIELD, -k, 0);
  }

  // The words of the upper half: t3, t4 with its overflow, and the four that are folded.
  lemma UpperValue(d1: int, d2: int, d3: int, d4: int, d5: int, x2: int, x3: int, x4: int, x5: int)
    requires d2 == d1 / E + x2 && d3 == d2 / E + x3 && d4 == d3 / E + x4 && d5 == d4 / E + x5
    ensures d1 % E + d2 % E * E + d3 % E * E2 + d4 % E * E3 + d5 % E * E4 + d5 / E * (E * E4)
      == d1 + x2 * E + x3 * E2 + x4 * E3 + x5 * E4
  {
    CarriesUp(d1, d2, d3, d4, x2, x3, x4, x5);
    assert d5 == d5 / E * E + d5 % E;
  }

  // The multiple of the characteristic between what the words weigh before and after folding.
  lemma Dropped(p: Columns, d1: int, d2: int, d3: int, d4: int, d5: int)
    requires d1 == p.p3 + p.p8 % E * R
    requires d1 % E + d2 % E * E + d3 % E * E2 + d4 % E * E3 + d5 % E * E4 + d5 / E * (E * E4)
      == d1 + (p.p4 + p.p8 / E * R) * E + p.p5 * E2 + p.p6 * E3 + p.p7 * E4
    ensures var u := d3 % E * 16 + d2 % E / TOP;
      Val(Fe(p.p0 + u * FOLD, p.p1 + d4 % E * R, p.p2 + d5 % E * R, d5 / E * R + d1 % E, d2 % E % TOP))
      == ColumnsVal(p) - (u + 16 * (d4 % E * E + d5 % E * E2 + (d5 / E + p.p8 % E) * E3 + p.p8 / E * E4)) * FIELD
  {
    var a, t4 := d2 % E / TOP, d2 % E % TOP;
    assert d2 % E == a * TOP + t4;
    assert p.p8 == p.p8 / E * E + p.p8 % E;
    DroppedWords(p, d1 % E, a, t4, d3 % E, d4 % E, d5 % E, d5 / E, p.p8 / E, p.p8 % E);
  }

  lemma DroppedWords(p: Columns, t3: int, a: int, t4: int, b: int, c: int, e: int, f: int, h: int, l: int)
    requires p.p8 == h * E + l
    requires t3 + (a * TOP + t4) * E + b * E2 + c * E3 + e * E4 + f * (E * E4)
      == p.p3 + l * R + (p.p4 + h * R) * E + p.p5 * E2 + p.p6 * E3 + p.p7 * E4
    ensures Val(Fe(p.p0 + (b * 16 + a) * FOLD, p.p1 + c * R, p.p2 + e * R, f * R + t3, t4))
      == ColumnsVal(p) - (b * 16 + a + 16 * (c * E + e * E2 + (f + l) * E3 + h * E4)) * FIELD
  {
  }

  lemma ColumnsMultiply(a: Fe, b: Fe)
    ensures ColumnsVal(ColumnsOf(a, b)) == Val(a) * Val(b)
  {
    var v := Val(b);
    assert Val(a) * v == a.n0 * v + a.n1 * v * E + a.n2 * v * E2 + a.n3 * v * E3 + a.n4 * v * E4;
    TimesVal(a.n0, b);
    TimesVal(a.n1, b);
    TimesVal(a.n2, b);
    TimesVal(a.n3, b);
    TimesVal(a.n4, b);
  }

  lemma TimesVal(x: int, b: Fe)
    ensures x * Val(b) == x * b.n0 + x * b.n1 * E + x * b.n2 * E2 + x * b.n3 * E3 + x * b.n4 * E4
  {
  }

  lemma Bounds(p: Columns, c: int)
    requires Small(p) && (Below(c, BITS61) || Below(c, BITS62))
    ensures Below(p.p1, 3 * B112) && Below(p.p2, 3 * B112) && Below(p.p6, B112 + 2 * B108)
    ensures Below(p.p7, B112 + 2 * B108)
    ensures Below(c, BITS63)
  {
  }

  lemma ReducedFrom(r: Fe)
    requires Below(r.n0, E) && Below(r.n1, E) && Below(r.n2, E) && Below(r.n3, E) && Below(r.n4, 2 * TOP - 1)
    ensures Reduced(r)
  {
  }

  /** The common course of multiplication and squaring through the accumulators c and d. */
  method FoldColumns(p: Columns) returns (r: Fe)
    requires Small(p)
    ensures r == Folded(p) && Reduced(r)
  {
    hide D1, D2, D3, C1, Below;
    var h := FoldHigh(p);
    var r0, c, d := FoldLow(p, h);
    assert Below(p.p1, 3 * B112) && Below(p.p6, B112 + 2 * B108) && Below(c, BITS63) by { Bounds(p, c); }
    var r1, r2;
    r1, c, d := FoldWord(p.p1, p.p6, c, d);
    assert r1 == C2(p) % E && c == C2(p) / E && d == D4(p) / E;
    hide D4, C2;
    assert Below(p.p2, 3 * B112) && Below(p.p7, B112 + 2 * B108) && Below(d, BITS63) by { Bounds(p, d); }
    r2, c, d := FoldWord(p.p2, p.p7, c, d);
    assert r2 == C3(p) % E && c == C3(p) / E && d == D5(p) / E;
    hide D5, C3;
    var r3, r4 := FoldTop(c, d, h.t3, h.t4);
    assert r3 == C4(p) % E && r4 == C4(p) / E + h.t4;
    r := Fe(r0, r1, r2, r3, r4);
    assert Reduced(r) by { ReducedFrom(r); }
  }

  /** secp256k1_fe_mul_inner: for inputs of magnitude 8 no accumulator overflows, the result has magnitude 1 and the
      residue of the product. */
  method MulInner(a: Fe, b: Fe) returns (r: Fe)
    requires Input(a) && Input(b)
    ensures r == Folded(ColumnsOf(a, b)) && Reduced(r)
    ensures Congruent(Val(r), Val(a) * Val(b))
  {
    SmallColumns(a, b);
    ColumnsMultiply(a, b);
    FoldedKeepsResidue(ColumnsOf(a, b));
    hide *;
    r := FoldColumns(ColumnsOf(a, b));
  }

  /** secp256k1_fe_sqr_inner: doubled limbs instead of repeated products, and limb for limb the result of the
      multiplication by itself. */
  method SqrInner(a: Fe) returns (r: Fe)
    requires Input(a)
    ensures r == Folded(ColumnsOf(a, a)) && Reduced(r)
    ensures Congruent(Val(r), Val(a) * Val(a))
  {
    SmallColumns(a, a);
    ColumnsMultiply(a, a);
    FoldedKeepsResidue(ColumnsOf(a, a));
    var a0, a1, a2, a4 := a.n0 * 2, a.n1 * 2, a.n2 * 2, a.n4 * 2;
    DoubledColumns(a, a0, a1, a2, a4);
    hide *;
    r := FoldColumns(Columns(
      a.n0 * a.n0, a0 * a.n1, a0 * a.n2 + a.n1 * a.n1, a0 * a.n3 + a1 * a.n2,
      a.n0 * a4 + a1 * a.n3 + a.n2 * a.n2, a.n1 * a4 + a2 * a.n3,
      a.n2 * a4 + a.n3 * a.n3, a.n3 * a4, a.n4 * a.n4));
  }

  // Symmetric columns written with doubled limbs.
  lemma DoubledColumns(a: Fe, a0: int, a1: int, a2: int, a4: int)
    requires a0 == a.n0 * 2 && a1 == a.n1 * 2 && a2 == a.n2 * 2 && a4 == a.n4 * 2
    ensures ColumnsOf(a, a) == Columns(
      a.n0 * a.n0, a0 * a.n1, a0 * a.n2 + a.n1 * a.n1, a0 * a.n3 + a1 * a.n2,
      a.n0 * a4 + a1 * a.n3 + a.n2 * a.n2, a.n1 * a4 + a2 * a.n3,
      a.n2 * a4 + a.n3 * a.n3, a.n3 * a4, a.n4 * a.n4)
  {
    TwiceTimes(a.n0, a.n1);
    TwiceTimes(a.n0, a.n2);
    TwiceTimes(a.n0, a.n3);
    TwiceTimes(a.n1, a.n2);
    TwiceTimes(a.n1, a.n3);
    TwiceTimes(a.n2, a.n3);
    TwiceTimes(a.n4, a.n0);
    TwiceTimes(a.n4, a.n1);
    TwiceTimes(a.n4, a.n2);
    TwiceTimes(a.n4, a.n3);
  }

  lemma TwiceTimes(x: int, y: int)
    ensures x * 2 * y == x * y + y * x && y * (x * 2) == x * y + y * x
  {
  }
}
