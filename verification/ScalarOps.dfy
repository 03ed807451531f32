/** The remaining scalar operations on four 64-bit limbs, tied to the values the other modules compute with. */
module ScalarOps {
  import opened Digits
  import opened Secp256k1
  import opened Scalar4x64

  ghost predicate Canonical(a: Limbs4) {
    Val4(a) < N
  }

  /** secp256k1_scalar_add: the flag tells whether the order was subtracted. */
  method Add(a: Limbs4, b: Limbs4) returns (r: Limbs4, overflow: int)
    requires Canonical(a) && Canonical(b)
    ensures Canonical(r) && Val4(r) == (Val4(a) + Val4(b)) % N
    ensures overflow == if Val4(a) + Val4(b) >= N then 1 else 0
  {
    var s, carry := AddLimbs(a, b);
    overflow := carry + (if CheckOverflow(s) then 1 else 0);
    Complement();
    r := Reduce(s, overflow);
    DivModUnique(Val4(a) + Val4(b), N, overflow, Val4(r));
  }

  predicate IsZero(a: Limbs4) {
    a.d0 == 0 && a.d1 == 0 && a.d2 == 0 && a.d3 == 0
  }

  // The bitwise complement of a word.
  function Not(x: Word): Word {
    B - 1 - x
  }

  /** secp256k1_scalar_negate: complement, add the order plus one, and mask the result of zero. */
  method Negated(a: Limbs4) returns (r: Limbs4)
    requires Canonical(a)
    ensures Val4(r) == Negate(Val4(a))
  {
    var complement := Limbs4(Not(a.d0), Not(a.d1), Not(a.d2), Not(a.d3));
    var carry;
    r, carry := AddLimbs(complement, Limbs4(N0 + 1, N1, N2, N3));
    r := if IsZero(a) then Limbs4(0, 0, 0, 0) else r;
    OrderWords();
    assert Val4(complement) == B4 - 1 - Val4(a);
  }

  lemma OrderWords()
    ensures N == N0 + N1 * B + N2 * B2 + N3 * B3
  {
  }

  const H0: Word := 0xDFE92F46681B20A0
  const H1: Word := 0x5D576E7357A4501D
  const H2: Word := 0xFFFFFFFFFFFFFFFF
  const H3: Word := 0x7FFFFFFFFFFFFFFF

  /** secp256k1_scalar_is_high: word by word comparison with half the order. */
  function High(a: Limbs4): (yes: bool)
    ensures yes <==> Val4(a) > N / 2
  {
    var no3 := a.d3 < H3;
    var yes3 := a.d3 > H3 && !no3;
    var no2 := no3 || (a.d2 < H2 && !yes3);
    var no1 := no2 || (a.d1 < H1 && !yes3);
    var yes1 := yes3 || (a.d1 > H1 && !no1);
    yes1 || (a.d0 > H0 && !no1)
  }

  /** secp256k1_scalar_cond_negate: the flag as a mask over complement and addend. */
  method CondNegate(a: Limbs4, flag: bool) returns (r: Limbs4, sign: int)
    requires Canonical(a)
    ensures Val4(r) == if flag then Negate(Val4(a)) else Val4(a)
    ensures sign == if flag then -1 else 1
  {
    var masked := if flag then Limbs4(Not(a.d0), Not(a.d1), Not(a.d2), Not(a.d3)) else a;
    var order := if flag then Limbs4(N0 + 1, N1, N2, N3) else Limbs4(0, 0, 0, 0);
    var carry;
    r, carry := AddLimbs(masked, order);
    r := if IsZero(a) then Limbs4(0, 0, 0, 0) else r;
    sign := if flag then -1 else 1;
    OrderWords();
    assert Val4(masked) == if flag then B4 - 1 - Val4(a) else Val4(a);
  }

  // Shifts within a word.
  function Shr(x: Word, k: nat): (r: int)
    ensures 0 <= r <= x
  {
    DivModEq(x, Pow2(k));
    QuotientBelow(x, Pow2(k));
    x / Pow2(k)
  }

  lemma QuotientBelow(x: int, m: int)
    requires x >= 0 && m > 0
    ensures 0 <= x / m <= x
  {
    DivModEq(x, m);
    MulNonneg(x / m, m - 1);
  }

  function Shl(x: Word, k: nat): Word {
    x * Pow2(k) % B
  }

  function Words(a: Limbs4): seq<Word> {
    [a.d0, a.d1, a.d2, a.d3]
  }

  lemma WordsValue(a: Limbs4)
    ensures Value(Words(a), B) == Val4(a)
  {
    var s := Words(a);
    assert s[1..] == [a.d1, a.d2, a.d3] && s[1..][1..] == [a.d2, a.d3] && s[1..][1..][1..] == [a.d3];
    assert Value([a.d3], B) == a.d3 && Value([a.d2, a.d3], B) == a.d2 + B * a.d3;
    assert Value([a.d1, a.d2, a.d3], B) == a.d1 + B * Value([a.d2, a.d3], B);
  }

  lemma {:induction false} ValueNonneg(s: seq<Word>)
    ensures Value(s, B) >= 0
  {
    if |s| > 0 {
      ValueNonneg(s[1..]);
    }
  }

  // Dropping words divides by the corresponding power.
  lemma {:induction false} DropWords(s: seq<Word>, i: nat)
    requires i <= |s|
    ensures Value(s, B) / Pow2(64 * i) == Value(s[i..], B) >= 0
  {
    ValueNonneg(s[i..]);
    if i == 0 {
      assert s[0..] == s;
    } else {
      DropWords(s[1..], i - 1);
      assert s[1..][i - 1..] == s[i..];
      ValueNonneg(s[1..]);
      ShiftMore(s[0], Value(s[1..], B), i - 1);
    }
  }

  lemma ShiftMore(x: Word, rest: nat, i: nat)
    ensures (x + B * rest) / Pow2(64 * (i + 1)) == rest / Pow2(64 * i)
  {
    Pow2Values();
    Pow2Add(64, 64 * i);
    assert 64 + 64 * i == 64 * (i + 1);
    DivDiv(x + B * rest, B, Pow2(64 * i));
    DivModUnique(x + B * rest, B, rest, x);
  }

  lemma DivDiv(v: int, a: int, b: int)
    requires v >= 0 && a > 0 && b > 0
    ensures v / (a * b) == v / a / b
  {
    DivModEq(v, a);
    DivModEq(v / a, b);
    Recompose(v, a, b, v / a, v % a, v / a / b, v / a % b);
  }

  // A multiple of the modulus does not change a remainder.
  lemma ModMultiple(x: int, k: int, m: int, f: int)
    requires m > 0
    ensures (x + k * (m * f)) % m == x % m
  {
    DivModEq(x, m);
    assert x + k * (m * f) == (x / m + k * f) * m + x % m;
    DivModUnique(x + k * (m * f), m, x / m + k * f, x % m);
  }

  // The quotient of a two-part number by a divisor of the upper part's weight.
  lemma SplitQuotient(x: int, rest: int, b: int, q: int, h: int)
    requires q > 0 && h > 0 && b == q * h
    ensures (x + b * rest) / q == x / q + h * rest
  {
    DivModEq(x, q);
    assert x + q * h * rest == (x / q + h * rest) * q + x % q;
    DivModUnique(x + b * rest, q, x / q + h * rest, x % q);
  }

  lemma ShlResidue(x: int, z: int, b: int, m: int, f: int)
    requires m > 0 && f > 0 && b == m * f
    ensures (x + z % b) % m == (x + z) % m
  {
    DivModEq(z, b);
    ModMultiple(x + z % b, z / b, m, f);
  }

  // Bits within one word: b = q * h is the word size and m divides h.
  lemma WithinWordAt(x: int, rest: int, b: int, q: int, h: int, m: int, f: int)
    requires q > 0 && h > 0 && m > 0 && f > 0 && b == q * h && h == m * f
    ensures (x + b * rest) / q % m == x / q % m
  {
    SplitQuotient(x, rest, b, q, h);
    ModMultiple(x / q, rest, m, f);
    assert rest * (m * f) == h * rest;
  }

  // Bits across the border of two words: m divides the word size.
  lemma AcrossWordsAt(x: int, y: int, rest: int, b: int, q: int, h: int, m: int, f: int)
    requires q > 0 && h > 0 && m > 0 && f > 0 && b == q * h == m * f
    ensures (x + b * (y + b * rest)) / q % m == (x / q + y * h % b) % m
  {
    SplitQuotient(x, y + b * rest, b, q, h);
    assert h * (y + b * rest) == y * h + h * rest * (m * f);
    ModMultiple(x / q + y * h, h * rest, m, f);
    ShlResidue(x / q, y * h, b, m, f);
  }

  lemma WithinWord(x: Word, rest: nat, o: nat, count: nat)
    requires o + count <= 64
    ensures Bits(x + B * rest, o, count) == Bits(x, o, count)
  {
    WordSplit(o);
    Pow2Add(count, 64 - o - count);
    hide Pow2;
    WithinWordAt(x, rest, B, Pow2(o), Pow2(64 - o), Pow2(count), Pow2(64 - o - count));
  }

  lemma WordSplit(o: nat)
    requires o <= 64
    ensures Pow2(o) * Pow2(64 - o) == B
  {
    Pow2Values();
    Pow2Add(o, 64 - o);
  }

  lemma AcrossWords(x: Word, y: Word, rest: nat, o: nat, count: nat)
    requires 0 < o < 64 && count <= 64
    ensures Bits(x + B * (y + B * rest), o, count) == (Shr(x, o) + Shl(y, 64 - o)) % Pow2(count)
  {
    WordSplit(o);
    WordSplit(count);
    hide Pow2;
    AcrossWordsAt(x, y, rest, B, Pow2(o), Pow2(64 - o), Pow2(count), Pow2(64 - count));
  }

  // The low part of one word and the shifted low part of the next never share a bit.
  lemma Disjoint(x: Word, y: Word, o: nat)
    requires 0 < o < 64
    ensures Shr(x, o) < Pow2(64 - o) && Shl(y, 64 - o) == y % Pow2(o) * Pow2(64 - o)
    ensures Shr(x, o) + Shl(y, 64 - o) < B
  {
    WordSplit(o);
    hide Pow2;
    DisjointAt(x, y, B, Pow2(o), Pow2(64 - o));
  }

  lemma DisjointAt(x: int, y: int, b: int, q: int, h: int)
    requires 0 <= x < b && y >= 0 && q > 0 && h > 0 && b == q * h
    ensures 0 <= x / q < h && y * h % b == y % q * h && x / q + y * h % b < b
  {
    DivModEq(x, q);
    var k := x / q;
    if k >= h {
      MulNonneg(k - h, q);
    }
    Recompose2(y, q, h);
  }

  lemma Recompose2(y: int, q: int, h: int)
    requires y >= 0 && q > 0 && h > 0
    ensures y * h % (q * h) == y % q * h <= q * h - h
  {
    DivModEq(y, q);
    MulNonneg(y % q, h);
    MulNonneg(q - 1 - y % q, h);
    assert (q - 1 - y % q) * h == q * h - h - y % q * h;
    assert y * h == y / q * (q * h) + y % q * h by {
      assert (y / q * q + y % q) * h == y / q * (q * h) + y % q * h;
    }
    DivModUnique(y * h, q * h, y / q, y % q * h);
  }

  /** secp256k1_scalar_get_bits_var: the bits of the value, also where they cross from one word to the next. */
  function GetBitsVar(a: Limbs4, offset: nat, count: nat): (r: int)
    requires 1 <= count < 32 && offset + count <= 256
    ensures r == Bits(Val4(a), offset, count)
  {
    var s, i, o := Words(a), offset / 64, offset % 64;
    BitsOfWords(s, i, o, count);
    WordsValue(a);
    if (offset + count - 1) / 64 == i then
      Shr(s[i], o) % Pow2(count)
    else
      (Shr(s[i], o) + Shl(s[i + 1], 64 - o)) % Pow2(count)
  }

  lemma BitsOfWords(s: seq<Word>, i: nat, o: nat, count: nat)
    requires i < |s| && o < 64 && count <= 64
    ensures Value(s, B) >= 0
    ensures o + count <= 64 ==> Bits(Value(s, B), 64 * i + o, count) == Shr(s[i], o) % Pow2(count)
    ensures o + count > 64 && i + 1 < |s| ==>
      Bits(Value(s, B), 64 * i + o, count) == (Shr(s[i], o) + Shl(s[i + 1], 64 - o)) % Pow2(count)
  {
    hide Bits, Shl, Shr;
    var v := Value(s, B);
    ValueNonneg(s);
    DropWords(s, i);
    BitsBelow(v, 64 * i, o, count);
    var t := s[i..];
    assert t[0] == s[i] && t[1..] == s[i + 1..];
    ValueNonneg(t[1..]);
    if o + count <= 64 {
      WithinWord(s[i], Value(t[1..], B), o, count);
      ShrBits(s[i], o, count);
    } else if i + 1 < |s| {
      var u := t[1..];
      ValueNonneg(u[1..]);
      assert u[0] == s[i + 1];
      AcrossWords(s[i], s[i + 1], Value(u[1..], B), o, count);
    }
  }

  lemma ShrBits(x: Word, o: nat, count: nat)
    ensures Bits(x, o, count) == Shr(x, o) % Pow2(count)
  {
  }

  lemma BitsBelow(v: nat, k: nat, o: nat, count: nat)
    ensures v / Pow2(k) >= 0 && Bits(v, k + o, count) == Bits(v / Pow2(k), o, count)
  {
    Pow2Add(k, o);
    DivModEq(v, Pow2(k));
    DivDiv(v, Pow2(k), Pow2(o));
  }

  // Four words shifted right by a part of a word, each taking in the low bits of the next.
  lemma ShiftWords(w0: Word, w1: Word, w2: Word, w3: Word, r: Limbs4, q: int, h: int)
    requires q > 0 && h > 0 && q * h == B
    requires r.d0 == w0 / q + w1 % q * h && r.d1 == w1 / q + w2 % q * h && r.d2 == w2 / q + w3 % q * h && r.d3 == w3 / q
    ensures Val4(r) == Val4(Limbs4(w0, w1, w2, w3)) / q && Val4(Limbs4(w0, w1, w2, w3)) % q == w0 % q
  {
    var t := Val4(Limbs4(w0, w1, w2, w3));
    ShiftedWord(w0, w1 % q, r.d0, q, h);
    ShiftedWord(w1, w2 % q, r.d1, q, h);
    ShiftedWord(w2, w3 % q, r.d2, q, h);
    ShiftedWord(w3, 0, r.d3, q, h);
    Weighted(r, q);
    DivModEq(w0, q);
    DivModUnique(t, q, Val4(r), w0 % q);
  }

  lemma ShiftedWord(w: Word, y: int, r: int, q: int, h: int)
    requires q > 0 && q * h == B && r == w / q + y * h
    ensures q * r == w - w % q + B * y
  {
    DivModEq(w, q);
    assert q * (w / q + y * h) == w / q * q + q * h * y;
  }

  lemma Weighted(r: Limbs4, q: int)
    ensures Val4(r) * q == q * r.d0 + q * r.d1 * B + q * r.d2 * B2 + q * r.d3 * B3
  {
  }

  // A word shifted right and joined by the low bits of the next word.
  function Joined(x: Word, y: Word, o: nat): (r: Word)
    requires 0 < o < 64
    ensures r == Shr(x, o) + y % Pow2(o) * Pow2(64 - o)
  {
    Disjoint(x, y, o);
    Shr(x, o) + Shl(y, 64 - o)
  }

  /** secp256k1_scalar_shr_int: quotient and remainder by a small power of two. */
  method ShrInt(a: Limbs4, n: nat) returns (r: Limbs4, low: int)
    requires 0 < n < 16
    ensures Val4(r) == Val4(a) / Pow2(n) && low == Val4(a) % Pow2(n)
  {
    hide Pow2, Val4;
    low := a.d0 % Pow2(n);
    r := Limbs4(Joined(a.d0, a.d1, n), Joined(a.d1, a.d2, n), Joined(a.d2, a.d3, n), Shr(a.d3, n));
    WordSplit(n);
    ShiftWords(a.d0, a.d1, a.d2, a.d3, r, Pow2(n), Pow2(64 - n));
    assert Limbs4(a.d0, a.d1, a.d2, a.d3) == a;
  }

  /** secp256k1_scalar_cadd_bit: adds a power of two, or nothing when the flag is down. */
  method CaddBit(a: Limbs4, bit: nat, flag: int) returns (r: Limbs4)
    requires bit < 256 && 0 <= flag <= 1 && Val4(a) + flag * Pow2(bit) < B4
    ensures Val4(r) == Val4(a) + flag * Pow2(bit)
  {
    var place := bit + (if flag == 0 then 0x100 else 0);
    BitWord(bit);
    var carry;
    r, carry := AddLimbs(a, Limbs4(OneBit(place, 0), OneBit(place, 1), OneBit(place, 2), OneBit(place, 3)));
  }

  function OneBit(place: nat, i: nat): Word {
    Pow2Values();
    Pow2Monotone(place % 64, 63);
    if place / 64 == i then Pow2(place % 64) else 0
  }

  lemma BitWord(bit: nat)
    requires bit < 256
    ensures Val4(Limbs4(OneBit(bit, 0), OneBit(bit, 1), OneBit(bit, 2), OneBit(bit, 3))) == Pow2(bit)
  {
    var i := bit / 64;
    Pow2Add(bit % 64, 64 * i);
    WordWeight(i);
    hide Pow2;
    var one := Pow2(bit % 64);
    assert Pow2(bit) == one * WordPower(i);
    OneBits(bit, one);
    hide OneBit, WordPower, Val4;
    PlacedOne(OneBit(bit, i), i);
  }

  lemma PlacedOne(one: Word, i: nat)
    requires i < 4
    ensures Val4(Limbs4(if i == 0 then one else 0, if i == 1 then one else 0, if i == 2 then one else 0,
        if i == 3 then one else 0))
      == one * WordPower(i)
  {
  }

  lemma OneBits(bit: nat, one: int)
    requires one == Pow2(bit % 64)
    ensures OneBit(bit, 0) == (if bit / 64 == 0 then one else 0) && OneBit(bit, 1) == (if bit / 64 == 1 then one else 0)
    ensures OneBit(bit, 2) == (if bit / 64 == 2 then one else 0) && OneBit(bit, 3) == (if bit / 64 == 3 then one else 0)
  {
  }

  function WordPower(i: nat): int {
    if i == 0 then 1 else if i == 1 then B else if i == 2 then B2 else B3
  }

  lemma WordWeight(i: nat)
    requires i < 4
    ensures Pow2(64 * i) == WordPower(i)
  {
    Pow2Values();
    Pow2Add(64, 128);
  }

  // The words from position i on, padded with zeros.
  function WordAt(l: seq<Word>, i: nat): Word {
    if i < |l| then l[i] else 0
  }

  lemma UpperWords(l: seq<Word>, i: nat)
    requires |l| == 8 && 4 <= i <= 8
    ensures Value(l[i..], B) == Val4(Limbs4(WordAt(l, i), WordAt(l, i + 1), WordAt(l, i + 2), WordAt(l, i + 3)))
  {
    TailValue(l, i);
    TailValue(l, i + 1);
    TailValue(l, i + 2);
    TailValue(l, i + 3);
  }

  lemma TailValue(l: seq<Word>, i: nat)
    requires |l| == 8
    ensures i <= 8 ==> Value(l[i..], B) == WordAt(l, i) + B * (if i < 8 then Value(l[i + 1..], B) else 0)
  {
    if i < 8 {
      assert l[i..][1..] == l[i + 1..];
    }
  }

  function WordsOf(l: Limbs8): seq<Word> {
    [l.l0, l.l1, l.l2, l.l3, l.l4, l.l5, l.l6, l.l7]
  }

  lemma Words8Value(l: Limbs8)
    ensures Value(WordsOf(l), B) == Val8(l)
  {
    var s := WordsOf(l);
    UpperWords(s, 4);
    TailValue(s, 0);
    TailValue(s, 1);
    TailValue(s, 2);
    TailValue(s, 3);
    assert s[0..] == s;
  }

  // The shift itself, before rounding.
  method ShiftRight(l: seq<Word>, shift: nat) returns (r: Limbs4)
    requires |l| == 8 && 256 <= shift <= 512
    ensures Val4(r) == Value(l[shift / 64..], B) / Pow2(shift % 64)
  {
    hide Pow2, Value;
    var i, o := shift / 64, shift % 64;
    var r0 := if shift < 512 then Joined0(l[i], if shift < 448 then l[i + 1] else 0, o) else 0;
    var r1 := if shift < 448 then Joined0(l[i + 1], if shift < 384 then l[i + 2] else 0, o) else 0;
    var r2 := if shift < 384 then Joined0(l[i + 2], if shift < 320 then l[i + 3] else 0, o) else 0;
    var r3 := if shift < 320 then Shr(l[i + 3], o) else 0;
    r := Limbs4(r0, r1, r2, r3);
    UpperWords(l, i);
    WordSplit(o);
    assert Shr(0, o) == 0;
    ShiftWords(WordAt(l, i), WordAt(l, i + 1), WordAt(l, i + 2), WordAt(l, i + 3), r, Pow2(o), Pow2(64 - o));
  }

  // Joined when there is a shift within the word, and the word itself when there is none.
  function Joined0(x: Word, y: Word, o: nat): (r: Word)
    requires o < 64
    ensures r == Shr(x, o) + y % Pow2(o) * Pow2(64 - o)
  {
    if o != 0 then Joined(x, y, o) else Shr(x, o)
  }

  /** secp256k1_scalar_mul_shift_var: the product divided by a power of two, rounded to the nearest integer. */
  method MulShiftVar(a: Limbs4, b: Limbs4, shift: nat) returns (r: Limbs4)
    requires 256 <= shift <= 512
    ensures Val4(r) == (Val4(a) * Val4(b) + Pow2(shift - 1)) / Pow2(shift)
  {
    hide Pow2, Value, Val4, Val8;
    var l := Mul512(a, b);
    var s := WordsOf(l);
    Words8Value(l);
    r := ShiftRight(s, shift);
    var i, o := (shift - 1) / 64, (shift - 1) % 64;
    var bit := Shr(s[i], o) % 2;
    QuotientOfWords(s, shift);
    BitsOfWords(s, i, o, 1);
    assert Pow2(1) == 2 by { PowOne(); }
    Rounding(Val4(a) * Val4(b), shift);
    ShiftedProductBound(a, b, shift);
    PowOne();
    r := CaddBit(r, 0, bit);
  }

  lemma PowOne()
    ensures Pow2(1) == 2 && Pow2(0) == 1
  {
  }

  lemma QuotientOfWords(s: seq<Word>, shift: nat)
    requires |s| == 8 && shift <= 512
    ensures Value(s[shift / 64..], B) / Pow2(shift % 64) == Value(s, B) / Pow2(shift)
  {
    ValueNonneg(s);
    DropWords(s, shift / 64);
    Pow2Add(64 * (shift / 64), shift % 64);
    assert 64 * (shift / 64) + shift % 64 == shift;
    DivDiv(Value(s, B), Pow2(64 * (shift / 64)), Pow2(shift % 64));
  }

  lemma Rounding(v: nat, shift: nat)
    requires shift > 0
    ensures (v + Pow2(shift - 1)) / Pow2(shift) == v / Pow2(shift) + Bits(v, shift - 1, 1)
  {
    var p := Pow2(shift - 1);
    PowOne();
    assert Pow2(shift) == p * 2;
    hide Pow2;
    DivModEq(v, p);
    DivDiv(v, p, 2);
    DivDiv(v + p, p, 2);
    DivModUnique(v + p, p, v / p + 1, v % p);
  }

  lemma ShiftedProductBound(a: Limbs4, b: Limbs4, shift: nat)
    requires shift >= 256
    ensures 0 <= Val4(a) * Val4(b) / Pow2(shift) < B4 - 1
  {
    Pow2Values();
    Pow2Monotone(256, shift);
    SmallProduct(Val4(a), Val4(b), Pow2(shift));
  }

  lemma SmallProduct(x: int, y: int, p: int)
    requires 0 <= x < B4 && 0 <= y < B4 && p >= B4
    ensures 0 <= x * y / p < B4 - 1
  {
    MulNonneg(x, y);
    MulNonneg(B4 - 1 - x, y);
    Distribute(B4 - 1, x, y);
    SmallQuotient(x * y, p, B4 - 1, B4);
    DivModEq(x * y, p);
  }

  lemma SmallQuotient(v: int, p: int, k: int, b: int)
    requires p >= b > 0 && k >= 0 && v < k * b
    ensures v / p < k
  {
    DivModEq(v, p);
    var d := v / p;
    MulNonneg(k, p - b);
    if d >= k {
      MulNonneg(d - k, p);
    }
  }
}
