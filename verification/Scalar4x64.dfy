/** Scalars as four 64-bit limbs: multiplication, reduction modulo the group order, and the small operations. */
module Scalar4x64 {
  import opened Digits
  import opened Secp256k1

  const B: int := 0x1_0000_0000_0000_0000
  const B2: int := 0x1_0000_0000_0000_0000_0000_0000_0000_0000
  const B3: int := 0x1_0000_0000_0000_0000_0000_0000_0000_0000_0000_0000_0000_0000
  const B4: int := 0x1_0000_0000_0000_0000_0000_0000_0000_0000_0000_0000_0000_0000_0000_0000_0000_0000

  type Word = x: int | 0 <= x < 0x1_0000_0000_0000_0000

  // The sum of two 64-bit words as the machine computes it, modulo 2^64.
  function Wrap(x: int): Word
    requires 0 <= x < 2 * B
  {
    if x < B then x else x - B
  }

  /** The accumulator of the multiplication routines: two words and a short top part. */
  datatype Acc = Acc(c0: Word, c1: Word, c2: int)

  function Total(c: Acc): int {
    c.c0 + c.c1 * B + c.c2 * B2
  }

  // The top part is declared as 32 bits wide.
  ghost predicate Fits(x: int) {
    0 <= x < 0x1_0000_0000 * B2
  }

  ghost predicate Ok(c: Acc) {
    0 <= c.c2 < 0x1_0000_0000
  }

  lemma ProductBound(a: Word, b: Word)
    ensures 0 <= a * b <= (B - 1) * (B - 1)
  {
    MulNonneg(a, b);
    MulNonneg(B - 1 - a, b);
    Distribute(B - 1, a, b);
  }

  lemma Distribute(x: int, y: int, z: int)
    ensures (x - y) * z == x * z - y * z
  {
  }

  /** The muladd macro: add a*b; no carry out of c2 is lost as long as the sum fits. */
  method MulAdd(c: Acc, a: Word, b: Word) returns (d: Acc)
    requires Ok(c) && Fits(Total(c) + a * b)
    ensures Ok(d) && Total(d) == Total(c) + a * b
  {
    ProductBound(a, b);
    var t := a * b;
    d := AddProduct(c, t);
  }

  method AddProduct(c: Acc, t: int) returns (d: Acc)
    requires Ok(c) && 0 <= t <= (B - 1) * (B - 1) && Fits(Total(c) + t)
    ensures Ok(d) && Total(d) == Total(c) + t
  {
    var th, tl := t / B, t % B;
    var c0 := Wrap(c.c0 + tl);
    th := th + (if c0 < tl then 1 else 0);
    assert th <= B - 1;
    var c1 := Wrap(c.c1 + th);
    var c2 := c.c2 + (if c1 < th then 1 else 0);
    d := Acc(c0, c1, c2);
  }

  /** muladd_fast: the sum must stay within two words. */
  method MulAddFast(c: Acc, a: Word, b: Word) returns (d: Acc)
    requires c.c2 == 0 && Total(c) + a * b < B2
    ensures d.c2 == 0 && Total(d) == Total(c) + a * b
  {
    ProductBound(a, b);
    var t := a * b;
    var th, tl := t / B, t % B;
    var c0 := Wrap(c.c0 + tl);
    th := th + (if c0 < tl then 1 else 0);
    var c1 := Wrap(c.c1 + th);
    d := Acc(c0, c1, 0);
  }

  /** muladd2: add 2*a*b, with the carries of both doublings caught. */
  method MulAdd2(c: Acc, a: Word, b: Word) returns (d: Acc)
    requires Ok(c) && Fits(Total(c) + 2 * (a * b))
    ensures Ok(d) && Total(d) == Total(c) + 2 * (a * b)
  {
    ProductBound(a, b);
    d := AddTwice(c, a * b);
  }

  method AddTwice(c: Acc, t: int) returns (d: Acc)
    requires Ok(c) && 0 <= t <= (B - 1) * (B - 1) && Fits(Total(c) + 2 * t)
    ensures Ok(d) && Total(d) == Total(c) + 2 * t
  {
    var over, th2, tl2 := Twice(t);
    var c2 := c.c2 + over;
    var c0 := Wrap(c.c0 + tl2);
    th2 := Wrap(th2 + (if c0 < tl2 then 1 else 0));
    c2 := c2 + (if c0 < tl2 && th2 == 0 then 1 else 0);
    var c1 := Wrap(c.c1 + th2);
    c2 := c2 + (if c1 < th2 then 1 else 0);
    d := Acc(c0, c1, c2);
  }

  // Double a product: two words and the bit carried out of the upper one.
  method Twice(t: int) returns (over: int, th2: int, tl2: Word)
    requires 0 <= t <= (B - 1) * (B - 1)
    ensures 0 <= over <= 1 && 0 <= th2 < B && 2 * t == over * B2 + th2 * B + tl2
  {
    var th: Word, tl: Word := t / B, t % B;
    th2 := Wrap(th + th);
    over := if th2 < th then 1 else 0;
    tl2 := Wrap(tl + tl);
    th2 := th2 + (if tl2 < tl then 1 else 0);
  }

  method SumAdd(c: Acc, a: Word) returns (d: Acc)
    requires Ok(c) && Fits(Total(c) + a)
    ensures Ok(d) && Total(d) == Total(c) + a
  {
    var c0 := Wrap(c.c0 + a);
    var over := if c0 < a then 1 else 0;
    var c1 := Wrap(c.c1 + over);
    var c2 := c.c2 + (if c1 < over then 1 else 0);
    d := Acc(c0, c1, c2);
  }

  method SumAddFast(c: Acc, a: Word) returns (d: Acc)
    requires c.c2 == 0 && Total(c) + a < B2
    ensures d.c2 == 0 && Total(d) == Total(c) + a
  {
    var c0 := Wrap(c.c0 + a);
    var c1 := Wrap(c.c1 + (if c0 < a then 1 else 0));
    d := Acc(c0, c1, 0);
  }

  /** extract: split off the lowest word. */
  method Extract(c: Acc) returns (n: Word, d: Acc)
    requires Ok(c)
    ensures Ok(d) && d.c2 == 0 && Total(c) == n + B * Total(d)
  {
    n, d := c.c0, Acc(c.c1, c.c2, 0);
  }

  method ExtractFast(c: Acc) returns (n: Word, d: Acc)
    requires c.c2 == 0
    ensures d.c1 == d.c2 == 0 && Total(c) == n + B * d.c0
  {
    n, d := c.c0, Acc(c.c1, 0, 0);
  }

  /** Four and eight limbs, least significant first. */
  datatype Limbs4 = Limbs4(d0: Word, d1: Word, d2: Word, d3: Word)
  datatype Limbs8 = Limbs8(l0: Word, l1: Word, l2: Word, l3: Word, l4: Word, l5: Word, l6: Word, l7: Word)

  function Val4(a: Limbs4): (v: int)
    ensures 0 <= v < B4
  {
    a.d0 + a.d1 * B + a.d2 * B2 + a.d3 * B3
  }

  function Val8(l: Limbs8): int {
    l.l0 + l.l1 * B + l.l2 * B2 + l.l3 * B3 + (l.l4 + l.l5 * B + l.l6 * B2 + l.l7 * B3) * B4
  }

  // One, two, three or four products of one column; the fast form serves the first and the last column.
  method ColumnFast(c: Acc, a: Word, b: Word) returns (n: Word, d: Acc)
    requires c.c2 == 0 && Total(c) + a * b < B2
    ensures d.c1 == d.c2 == 0 && n + B * d.c0 == Total(c) + a * b
  {
    var e := MulAddFast(c, a, b);
    n, d := ExtractFast(e);
  }

  method FirstColumn(a: Word, b: Word) returns (n: Word, d: Acc)
    ensures d.c2 == 0 && Total(d) < 8 * B2 && n + B * Total(d) == a * b
  {
    ProductBound(a, b);
    n, d := ColumnFast(Acc(0, 0, 0), a, b);
  }

  method Column2(c: Acc, a0: Word, b0: Word, a1: Word, b1: Word) returns (n: Word, d: Acc)
    requires Ok(c) && Total(c) < 8 * B2
    ensures d.c2 == 0 && Total(d) < 8 * B2 && n + B * Total(d) == Total(c) + a0 * b0 + a1 * b1
  {
    ProductBound(a0, b0);
    ProductBound(a1, b1);
    var e := MulAdd(c, a0, b0);
    e := MulAdd(e, a1, b1);
    n, d := Extract(e);
  }

  method Column3(c: Acc, a0: Word, b0: Word, a1: Word, b1: Word, a2: Word, b2: Word) returns (n: Word, d: Acc)
    requires Ok(c) && Total(c) < 8 * B2
    ensures d.c2 == 0 && Total(d) < 8 * B2 && n + B * Total(d) == Total(c) + a0 * b0 + a1 * b1 + a2 * b2
  {
    ProductBound(a0, b0);
    ProductBound(a1, b1);
    ProductBound(a2, b2);
    var e := MulAdd(c, a0, b0);
    e := MulAdd(e, a1, b1);
    e := MulAdd(e, a2, b2);
    n, d := Extract(e);
  }

  method Column4(c: Acc, a0: Word, b0: Word, a1: Word, b1: Word, a2: Word, b2: Word, a3: Word, b3: Word)
    returns (n: Word, d: Acc)
    requires Ok(c) && Total(c) < 8 * B2
    ensures d.c2 == 0 && Total(d) < 8 * B2 && n + B * Total(d) == Total(c) + a0 * b0 + a1 * b1 + a2 * b2 + a3 * b3
  {
    ProductBound(a0, b0);
    ProductBound(a1, b1);
    ProductBound(a2, b2);
    ProductBound(a3, b3);
    var e := MulAdd(c, a0, b0);
    e := MulAdd(e, a1, b1);
    e := MulAdd(e, a2, b2);
    e := MulAdd(e, a3, b3);
    n, d := Extract(e);
  }

  // Schoolbook expansion of the product of two four-limb numbers by columns.
  lemma Schoolbook(a: Limbs4, b: Limbs4)
    ensures Val4(a) * Val4(b) == a.d0 * b.d0
      + (a.d0 * b.d1 + a.d1 * b.d0) * B
      + (a.d0 * b.d2 + a.d1 * b.d1 + a.d2 * b.d0) * B2
      + (a.d0 * b.d3 + a.d1 * b.d2 + a.d2 * b.d1 + a.d3 * b.d0) * B3
      + (a.d1 * b.d3 + a.d2 * b.d2 + a.d3 * b.d1) * B4
      + (a.d2 * b.d3 + a.d3 * b.d2) * (B * B4)
      + a.d3 * b.d3 * (B2 * B4)
  {
    var v := Val4(b);
    assert Val4(a) * v == a.d0 * v + a.d1 * v * B + a.d2 * v * B2 + a.d3 * v * B3;
    TimesVal(a.d0, b);
    TimesVal(a.d1, b);
    TimesVal(a.d2, b);
    TimesVal(a.d3, b);
  }

  lemma TimesVal(x: int, b: Limbs4)
    ensures x * Val4(b) == x * b.d0 + x * b.d1 * B + x * b.d2 * B2 + x * b.d3 * B3
  {
  }

  // The column sums of a product.
  ghost predicate Columns(a: Limbs4, b: Limbs4, s: seq<int>) {
    && |s| == 7
    && s[0] == a.d0 * b.d0
    && s[1] == a.d0 * b.d1 + a.d1 * b.d0
    && s[2] == a.d0 * b.d2 + a.d1 * b.d1 + a.d2 * b.d0
    && s[3] == a.d0 * b.d3 + a.d1 * b.d2 + a.d2 * b.d1 + a.d3 * b.d0
    && s[4] == a.d1 * b.d3 + a.d2 * b.d2 + a.d3 * b.d1
    && s[5] == a.d2 * b.d3 + a.d3 * b.d2
    && s[6] == a.d3 * b.d3
  }

  ghost function ProductColumns(a: Limbs4, b: Limbs4): (s: seq<int>)
    ensures Columns(a, b, s)
  {
    [a.d0 * b.d0, a.d0 * b.d1 + a.d1 * b.d0, a.d0 * b.d2 + a.d1 * b.d1 + a.d2 * b.d0,
     a.d0 * b.d3 + a.d1 * b.d2 + a.d2 * b.d1 + a.d3 * b.d0, a.d1 * b.d3 + a.d2 * b.d2 + a.d3 * b.d1,
     a.d2 * b.d3 + a.d3 * b.d2, a.d3 * b.d3]
  }

  function ColumnValue(s: seq<int>): int
    requires |s| == 7
  {
    s[0] + s[1] * B + s[2] * B2 + s[3] * B3 + s[4] * B4 + s[5] * (B * B4) + s[6] * (B2 * B4)
  }

  // Words l and carries t come out of the first six columns s: carrying from column to column keeps the value.
  ghost predicate Carried(s: seq<int>, l: seq<Word>, t: seq<int>) {
    && |s| == 7 && |l| == 6 && |t| == 7 && t[0] == 0
    && forall i :: 0 <= i < 6 ==> l[i] + B * t[i + 1] == t[i] + s[i]
  }

  lemma CarryChain(s: seq<int>, l: seq<Word>, t: seq<int>)
    requires Carried(s, l, t)
    ensures ColumnValue(s) == l[0] + l[1] * B + l[2] * B2 + l[3] * B3 + (l[4] + l[5] * B + (t[6] + s[6]) * B2) * B4
  {
    assert l[0] + B * t[1] == t[0] + s[0] && l[1] + B * t[2] == t[1] + s[1] && l[2] + B * t[3] == t[2] + s[2];
    assert l[3] + B * t[4] == t[3] + s[3] && l[4] + B * t[5] == t[4] + s[4] && l[5] + B * t[6] == t[5] + s[5];
  }

  // What is left for the last column fits two words, so its fast form loses nothing.
  lemma LastColumn(s: seq<int>, l: seq<Word>, t: seq<int>)
    requires Carried(s, l, t) && ColumnValue(s) < B4 * B4
    ensures t[6] + s[6] < B2
    ensures forall x: Word, y: Word :: x + B * y == t[6] + s[6] ==>
      Val8(Limbs8(l[0], l[1], l[2], l[3], l[4], l[5], x, y)) == ColumnValue(s)
  {
    CarryChain(s, l, t);
    SmallTop(l[0], l[1], l[2], l[3], l[4], l[5], t[6] + s[6], ColumnValue(s));
  }

  lemma SmallTop(l0: int, l1: int, l2: int, l3: int, l4: int, l5: int, t: int, v: int)
    requires 0 <= l0 && 0 <= l1 && 0 <= l2 && 0 <= l3 && 0 <= l4 && 0 <= l5
    requires v == l0 + l1 * B + l2 * B2 + l3 * B3 + (l4 + l5 * B + t * B2) * B4 < B4 * B4
    ensures t < B2
  {
  }

  lemma ProductFits(a: Limbs4, b: Limbs4)
    ensures Val4(a) * Val4(b) < B4 * B4
  {
    var x, y := Val4(a), Val4(b);
    MulNonneg(B4 - 1 - x, y);
    Distribute(B4 - 1, x, y);
  }

  lemma ColumnsMultiply(a: Limbs4, b: Limbs4, s: seq<int>)
    requires Columns(a, b, s)
    ensures ColumnValue(s) == Val4(a) * Val4(b) < B4 * B4
  {
    Schoolbook(a, b);
    ProductFits(a, b);
  }

  /** secp256k1_scalar_mul_512: the words of the product, column by column; the last carry word is zero. */
  method Mul512(a: Limbs4, b: Limbs4) returns (l: Limbs8)
    ensures Val8(l) == Val4(a) * Val4(b)
  {
    hide Val4, Val8, ColumnValue, Total;
    var c, l0, l1, l2, l3, l4, l5, l6;
    l0, c := FirstColumn(a.d0, b.d0);
    ghost var t1 := Total(c);
    l1, c := Column2(c, a.d0, b.d1, a.d1, b.d0);
    ghost var t2 := Total(c);
    l2, c := Column3(c, a.d0, b.d2, a.d1, b.d1, a.d2, b.d0);
    ghost var t3 := Total(c);
    l3, c := Column4(c, a.d0, b.d3, a.d1, b.d2, a.d2, b.d1, a.d3, b.d0);
    ghost var t4 := Total(c);
    l4, c := Column3(c, a.d1, b.d3, a.d2, b.d2, a.d3, b.d1);
    ghost var t5 := Total(c);
    l5, c := Column2(c, a.d2, b.d3, a.d3, b.d2);
    ghost var s, t := ProductColumns(a, b), [0, t1, t2, t3, t4, t5, Total(c)];
    ColumnsMultiply(a, b, s);
    assert Carried(s, [l0, l1, l2, l3, l4, l5], t);
    LastColumn(s, [l0, l1, l2, l3, l4, l5], t);
    l6, c := ColumnFast(c, a.d3, b.d3);
    l := Limbs8(l0, l1, l2, l3, l4, l5, l6, c.c0);
  }

  method SquareColumn(c: Acc, a0: Word, b0: Word) returns (n: Word, d: Acc)
    requires Ok(c) && Total(c) < 8 * B2
    ensures d.c2 == 0 && Total(d) < 8 * B2 && n + B * Total(d) == Total(c) + 2 * (a0 * b0)
  {
    ProductBound(a0, b0);
    var e := MulAdd2(c, a0, b0);
    n, d := Extract(e);
  }

  method SquareColumnMiddle(c: Acc, a0: Word, b0: Word, x: Word) returns (n: Word, d: Acc)
    requires Ok(c) && Total(c) < 8 * B2
    ensures d.c2 == 0 && Total(d) < 8 * B2 && n + B * Total(d) == Total(c) + 2 * (a0 * b0) + x * x
  {
    ProductBound(a0, b0);
    ProductBound(x, x);
    var e := MulAdd2(c, a0, b0);
    e := MulAdd(e, x, x);
    n, d := Extract(e);
  }

  method SquareColumnTwo(c: Acc, a0: Word, b0: Word, a1: Word, b1: Word) returns (n: Word, d: Acc)
    requires Ok(c) && Total(c) < 8 * B2
    ensures d.c2 == 0 && Total(d) < 8 * B2 && n + B * Total(d) == Total(c) + 2 * (a0 * b0) + 2 * (a1 * b1)
  {
    ProductBound(a0, b0);
    ProductBound(a1, b1);
    var e := MulAdd2(c, a0, b0);
    e := MulAdd2(e, a1, b1);
    n, d := Extract(e);
  }

  /** secp256k1_scalar_sqr_512: symmetric products are formed once and added twice. */
  method Sqr512(a: Limbs4) returns (l: Limbs8)
    ensures Val8(l) == Val4(a) * Val4(a)
  {
    hide Val4, Val8, ColumnValue, Total;
    var c, l0, l1, l2, l3, l4, l5, l6;
    l0, c := FirstColumn(a.d0, a.d0);
    ghost var t1 := Total(c);
    l1, c := SquareColumn(c, a.d0, a.d1);
    ghost var t2 := Total(c);
    l2, c := SquareColumnMiddle(c, a.d0, a.d2, a.d1);
    ghost var t3 := Total(c);
    l3, c := SquareColumnTwo(c, a.d0, a.d3, a.d1, a.d2);
    ghost var t4 := Total(c);
    l4, c := SquareColumnMiddle(c, a.d1, a.d3, a.d2);
    ghost var t5 := Total(c);
    l5, c := SquareColumn(c, a.d2, a.d3);
    ghost var s, t := ProductColumns(a, a), [0, t1, t2, t3, t4, t5, Total(c)];
    ColumnsMultiply(a, a, s);
    assert Carried(s, [l0, l1, l2, l3, l4, l5], t);
    LastColumn(s, [l0, l1, l2, l3, l4, l5], t);
    l6, c := ColumnFast(c, a.d3, a.d3);
    l := Limbs8(l0, l1, l2, l3, l4, l5, l6, c.c0);
  }

  /** Limbs are determined by their value, so squaring and multiplying by itself give the same words. */
  lemma LimbsUnique(x: Limbs8, y: Limbs8)
    requires Val8(x) == Val8(y)
    ensures x == y
  {
    Low4Unique(x.l0, x.l1, x.l2, x.l3, y.l0, y.l1, y.l2, y.l3);
    Low4Unique(x.l4, x.l5, x.l6, x.l7, y.l4, y.l5, y.l6, y.l7);
  }

  lemma Limbs4Unique(a: Limbs4, b: Limbs4)
    requires Val4(a) == Val4(b)
    ensures a == b
  {
    Low4Unique(a.d0, a.d1, a.d2, a.d3, b.d0, b.d1, b.d2, b.d3);
  }

  lemma Low4Unique(a0: Word, a1: Word, a2: Word, a3: Word, b0: Word, b1: Word, b2: Word, b3: Word)
    ensures a0 + a1 * B + a2 * B2 + a3 * B3 == b0 + b1 * B + b2 * B2 + b3 * B3 ==>
      a0 == b0 && a1 == b1 && a2 == b2 && a3 == b3
  {
  }

  // 2^256 - N, in words.
  const NC0: Word := 0x402DA1732FC9BEBF
  const NC1: Word := 0x4551231950B75FC4
  const NC: int := 0x1_4551231950B75FC4_402DA1732FC9BEBF

  lemma Complement()
    ensures NC == B4 - N && NC == NC0 + NC1 * B + B2
  {
  }

  datatype Limbs7 = Limbs7(m0: Word, m1: Word, m2: Word, m3: Word, m4: Word, m5: Word, m6: int)
  datatype Limbs5 = Limbs5(p0: Word, p1: Word, p2: Word, p3: Word, p4: int)

  function Val7(m: Limbs7): int {
    m.m0 + m.m1 * B + m.m2 * B2 + m.m3 * B3 + (m.m4 + m.m5 * B + m.m6 * B2) * B4
  }

  function Val5(p: Limbs5): int {
    p.p0 + p.p1 * B + p.p2 * B2 + p.p3 * B3 + p.p4 * B4
  }

  // The two words of the complement are small enough that a column of the folding leaves less than a word to carry.
  lemma FoldBounds(n: Word)
    ensures 0 <= n * NC0 <= (B - 1) * NC0 && 0 <= n * NC1 <= (B - 1) * NC1
    ensures (B - 1) * NC0 + (B - 1) * NC1 + 3 * B < B2
  {
  }

  // The columns of a folding step. A carry below one word comes in and one goes out.
  method FoldFirst(x: Word, n0: Word) returns (m: Word, d: Acc)
    ensures d.c1 == d.c2 == 0 && m + B * d.c0 == x + n0 * NC0
  {
    FoldBounds(n0);
    var c := MulAddFast(Acc(x, 0, 0), n0, NC0);
    m, d := ExtractFast(c);
  }

  method FoldSecond(c: Acc, x: Word, n1: Word, n0: Word) returns (m: Word, d: Acc)
    requires c.c1 == c.c2 == 0
    ensures d.c1 == d.c2 == 0 && m + B * d.c0 == c.c0 + x + n1 * NC0 + n0 * NC1
  {
    FoldBounds(n1);
    FoldBounds(n0);
    var e := SumAddFast(c, x);
    e := MulAdd(e, n1, NC0);
    e := MulAdd(e, n0, NC1);
    m, d := Extract(e);
    SmallCarry(m, d);
  }

  lemma SmallCarry(m: Word, d: Acc)
    requires d.c2 == 0 && m + B * Total(d) < B2
    ensures d.c1 == 0
  {
  }

  method FoldMiddle(c: Acc, x: Word, n2: Word, n1: Word, n0: Word) returns (m: Word, d: Acc)
    requires c.c1 == c.c2 == 0
    ensures d.c1 == d.c2 == 0 && m + B * d.c0 == c.c0 + x + n2 * NC0 + n1 * NC1 + n0
  {
    FoldBounds(n2);
    FoldBounds(n1);
    var e := SumAdd(c, x);
    e := MulAdd(e, n2, NC0);
    e := MulAdd(e, n1, NC1);
    e := SumAdd(e, n0);
    m, d := Extract(e);
    SmallCarry(m, d);
  }

  method FoldUpper(c: Acc, n3: Word, n2: Word) returns (m: Word, d: Acc)
    requires c.c1 == c.c2 == 0
    ensures d.c1 == d.c2 == 0 && m + B * d.c0 == c.c0 + n3 * NC1 + n2
  {
    FoldBounds(n3);
    var e := MulAdd(c, n3, NC1);
    e := SumAdd(e, n2);
    m, d := Extract(e);
    SmallCarry(m, d);
  }

  method FoldLast(c: Acc, n3: Word) returns (m: Word, d: Acc)
    requires c.c1 == c.c2 == 0
    ensures d.c1 == d.c2 == 0 && 0 <= d.c0 <= 1 && m + B * d.c0 == c.c0 + n3
  {
    var e := SumAddFast(c, n3);
    m, d := ExtractFast(e);
  }

  // 512 bits to 385: the upper half is folded down with 2^256 = NC modulo N.
  method Fold512(l: Limbs8) returns (m: Limbs7)
    ensures 0 <= m.m6 <= 1 && m.m4 + m.m5 * B + m.m6 * B2 <= NC
    ensures Val7(m) == l.l0 + l.l1 * B + l.l2 * B2 + l.l3 * B3 + (l.l4 + l.l5 * B + l.l6 * B2 + l.l7 * B3) * NC
  {
    var n0, n1, n2, n3 := l.l4, l.l5, l.l6, l.l7;
    var m0, c0 := FoldFirst(l.l0, n0);
    var m1, c1 := FoldSecond(c0, l.l1, n1, n0);
    var m2, c2 := FoldMiddle(c1, l.l2, n2, n1, n0);
    var m3, c3 := FoldMiddle(c2, l.l3, n3, n2, n1);
    var m4, c4 := FoldUpper(c3, n3, n2);
    var m5, c5 := FoldLast(c4, n3);
    m := Limbs7(m0, m1, m2, m3, m4, m5, c5.c0);
  }

  method FoldTop(c: Acc, x: Word, n2: Word, n1: Word) returns (m: Word, d: Acc)
    requires c.c1 == c.c2 == 0 && n2 <= 1
    ensures d.c1 == d.c2 == 0 && m + B * d.c0 == c.c0 + x + n2 * NC1 + n1
  {
    var e := SumAddFast(c, x);
    e := MulAddFast(e, n2, NC1);
    e := SumAddFast(e, n1);
    m, d := ExtractFast(e);
  }

  // 385 bits to 258.
  method Fold385(m: Limbs7) returns (p: Limbs5)
    requires 0 <= m.m6 <= 1 && m.m4 + m.m5 * B + m.m6 * B2 <= NC
    ensures 0 <= p.p4 <= 2
    ensures Val5(p) == m.m0 + m.m1 * B + m.m2 * B2 + m.m3 * B3 + (m.m4 + m.m5 * B + m.m6 * B2) * NC
  {
    var p0, c0 := FoldFirst(m.m0, m.m4);
    var p1, c1 := FoldSecond(c0, m.m1, m.m5, m.m4);
    var p2, c2 := FoldMiddle(c1, m.m2, m.m6, m.m5, m.m4);
    var p3, c3 := FoldTop(c2, m.m3, m.m6, m.m5);
    p := Limbs5(p0, p1, p2, p3, c3.c0 + m.m6);
  }

  // 258 bits to 256 and a carry; a carry leaves a value far below N behind.
  method Fold258(p: Limbs5) returns (r: Limbs4, carry: int)
    requires 0 <= p.p4 <= 2
    ensures Val4(r) + carry * B4 == p.p0 + p.p1 * B + p.p2 * B2 + p.p3 * B3 + p.p4 * NC
    ensures carry == 0 || (carry == 1 && Val4(r) < 2 * NC)
  {
    var c := p.p0 + NC0 * p.p4;
    var r0 := c % B;
    c := c / B + p.p1 + NC1 * p.p4;
    var r1 := c % B;
    c := c / B + p.p2 + p.p4;
    var r2 := c % B;
    c := c / B + p.p3;
    var r3 := c % B;
    r, carry := Limbs4(r0, r1, r2, r3), c / B;
  }

  const N0: Word := 0xBFD25E8CD0364141
  const N1: Word := 0xBAAEDCE6AF48A03B
  const N2: Word := 0xFFFFFFFFFFFFFFFE
  const N3: Word := 0xFFFFFFFFFFFFFFFF

  /** secp256k1_scalar_check_overflow: word by word comparison with the order. */
  function CheckOverflow(a: Limbs4): (yes: bool)
    ensures yes <==> Val4(a) >= N
  {
    var no := a.d3 < N3;
    var no2 := no || a.d2 < N2;
    var yes2 := a.d2 > N2 && !no2;
    var no1 := no2 || a.d1 < N1;
    var yes1 := yes2 || (a.d1 > N1 && !no1);
    yes1 || (a.d0 >= N0 && !no1)
  }

  // Word by word addition with the carry passed upwards.
  method AddLimbs(a: Limbs4, b: Limbs4) returns (r: Limbs4, carry: int)
    ensures 0 <= carry <= 1 && Val4(r) + carry * B4 == Val4(a) + Val4(b)
  {
    var t := a.d0 + b.d0;
    var d0 := t % B;
    t := t / B + a.d1 + b.d1;
    var d1 := t % B;
    t := t / B + a.d2 + b.d2;
    var d2 := t % B;
    t := t / B + a.d3 + b.d3;
    var d3 := t % B;
    r, carry := Limbs4(d0, d1, d2, d3), t / B;
  }

  /** secp256k1_scalar_reduce: subtracts the order once by adding its complement and dropping the carry. */
  method Reduce(a: Limbs4, overflow: int) returns (r: Limbs4)
    requires 0 <= overflow <= 1
    ensures overflow == 0 ==> r == a
    ensures overflow == 1 ==> Val4(r) == if Val4(a) >= N then Val4(a) - N else Val4(a) + NC
  {
    var carry;
    r, carry := AddLimbs(a, Limbs4(if overflow == 1 then NC0 else 0, if overflow == 1 then NC1 else 0, overflow, 0));
    Complement();
    if overflow == 0 {
      Limbs4Unique(r, a);
    }
  }

  // Whatever is folded keeps its residue modulo N.
  lemma FoldKeepsResidue(lo: int, hi: int)
    ensures (lo + hi * NC) % N == (lo + hi * B4) % N
  {
    Complement();
    assert lo + hi * B4 == hi * N + (lo + hi * NC);
    ResidueShift(lo + hi * NC, hi);
  }

  lemma ResidueShift(x: int, k: int)
    ensures (k * N + x) % N == x % N
  {
    DivModEq(x, N);
    DivModUnique(k * N + x, N, k + x / N, x % N);
  }

  /** secp256k1_scalar_reduce_512: the canonical residue, for every 512-bit input. */
  method Reduce512(l: Limbs8) returns (r: Limbs4)
    ensures Val4(r) == Val8(l) % N
  {
    hide Val4, Val5;
    var m := Fold512(l);
    FoldKeepsResidue(l.l0 + l.l1 * B + l.l2 * B2 + l.l3 * B3, l.l4 + l.l5 * B + l.l6 * B2 + l.l7 * B3);
    var p := Fold385(m);
    FoldKeepsResidue(m.m0 + m.m1 * B + m.m2 * B2 + m.m3 * B3, m.m4 + m.m5 * B + m.m6 * B2);
    r := Reduce258(p);
  }

  // The carry and the overflow flag are never both set.
  method ReduceCarry(s: Limbs4, carry: int) returns (r: Limbs4)
    requires carry == 0 || (carry == 1 && Val4(s) < 2 * NC)
    ensures Val4(r) == (Val4(s) + carry * B4) % N
  {
    var overflow := carry + (if CheckOverflow(s) then 1 else 0);
    Complement();
    r := Reduce(s, overflow);
    DivModUnique(Val4(s) + carry * B4, N, overflow, Val4(r));
  }

  method Reduce258(p: Limbs5) returns (r: Limbs4)
    requires 0 <= p.p4 <= 2
    ensures Val4(r) == Val5(p) % N
  {
    var s, carry := Fold258(p);
    FoldKeepsResidue(p.p0 + p.p1 * B + p.p2 * B2 + p.p3 * B3, p.p4);
    r := ReduceCarry(s, carry);
  }

  /** secp256k1_scalar_mul */
  method ScalarMul(a: Limbs4, b: Limbs4) returns (r: Limbs4)
    ensures Val4(r) == (Val4(a) * Val4(b)) % N
  {
    var l := Mul512(a, b);
    r := Reduce512(l);
  }

  /** secp256k1_scalar_sqr */
  method ScalarSqr(a: Limbs4) returns (r: Limbs4)
    ensures Val4(r) == (Val4(a) * Val4(a)) % N
  {
    var l := Sqr512(a);
    r := Reduce512(l);
  }
}
