/** Field elements as 32 big-endian bytes and as four 64-bit words in memory: repacking of the five limbs without loss.
    */
module FieldBytes {
  import opened Secp256k1
  import opened Digits
  import opened Bytes
  import opened Scalar4x64
  import opened Field5x52
  import opened FieldNormalize

  // n times a power of two in a 64-bit word keeps the low part of n.
  function Shl(n: int, p: int): (r: int)
    requires 0 <= n && p > 0
    ensures 0 <= r < BITS64
  {
    n * p % BITS64
  }

  lemma ShlLow(n: int, p: int, k: int)
    requires 0 <= n && p > 0 && k > 0 && k * p == BITS64
    ensures Shl(n, p) == n % k * p && 0 <= n % k < k && n == n / k * k + n % k
  {
    DivModEq(n, k);
    var q, r := n / k, n % k;
    assert n * p == q * (k * p) + r * p by {
      assert (q * k + r) * p == q * k * p + r * p;
      assert q * k * p == q * (k * p);
    }
    MulNonneg(r, p);
    MulNonneg(k - 1 - r, p);
    assert (k - 1 - r) * p == k * p - p - r * p;
    DivModUnique(n * p, BITS64, q, r * p);
  }

  // The four words from the pieces of the limbs: q above and r below the cut.
  lemma WordsValue(n0: int, q1: int, r1: int, q2: int, r2: int, q3: int, r3: int, n4: int)
    requires 0 <= n0 < E && 0 <= r1 < 0x1000 && 0 <= r2 < 0x100_0000 && 0 <= r3 < 0x10_0000_0000 && 0 <= n4 < TOP
    requires 0 <= q1 < 0x100_0000_0000 && 0 <= q2 < 0x1000_0000 && 0 <= q3 < 0x1_0000
    ensures var w0, w1, w2, w3 :=
      n0 + r1 * 0x10_0000_0000_0000, q1 + r2 * 0x100_0000_0000, q2 + r3 * 0x1000_0000, q3 + n4 * 0x1_0000;
      && 0 <= w0 < BITS64 && 0 <= w1 < BITS64 && 0 <= w2 < BITS64 && 0 <= w3 < BITS64
      && Val4(Limbs4(w0, w1, w2, w3))
        == Val(Fe(n0, q1 * 0x1000 + r1, q2 * 0x100_0000 + r2, q3 * 0x10_0000_0000 + r3, n4))
  {
  }

  /** secp256k1_fe_to_storage */
  function ToStorage(a: Fe): (r: Limbs4)
    requires Tidy(a)
    ensures Val4(r) == Val(a)
  {
    ShlLow(a.n1, 0x10_0000_0000_0000, 0x1000);
    ShlLow(a.n2, 0x100_0000_0000, 0x100_0000);
    ShlLow(a.n3, 0x1000_0000, 0x10_0000_0000);
    ShlLow(a.n4, 0x1_0000, TOP);
    WordsValue(a.n0, a.n1 / 0x1000, a.n1 % 0x1000, a.n2 / 0x100_0000, a.n2 % 0x100_0000,
      a.n3 / 0x10_0000_0000, a.n3 % 0x10_0000_0000, a.n4);
    hide Val4, Val, Shl;
    Limbs4(
      a.n0 + Shl(a.n1, 0x10_0000_0000_0000),
      a.n1 / 0x1000 + Shl(a.n2, 0x100_0000_0000),
      a.n2 / 0x100_0000 + Shl(a.n3, 0x1000_0000),
      a.n3 / 0x10_0000_0000 + Shl(a.n4, 0x1_0000))
  }

  // n times a power of two, cut to 52 bits.
  lemma ShlCut(n: int, p: int, k: int)
    requires 0 <= n && p > 0 && k > 0 && k * p == E
    ensures Shl(n, p) % E == n % k * p && 0 <= n % k < k && n == n / k * k + n % k
  {
    var q, r := n / k, n % k;
    DivModEq(n, k);
    MulNonneg(r, p);
    MulNonneg(k - 1 - r, p);
    assert (k - 1 - r) * p == k * p - p - r * p;
    ProductSplit(q, k, r, p);
    DivModUnique(n * p, E, q, r * p);
    ModOfMod(n * p);
  }

  lemma ProductSplit(q: int, k: int, r: int, p: int)
    ensures (q * k + r) * p == q * (k * p) + r * p
  {
    assert (q * k + r) * p == q * k * p + r * p;
    assert q * k * p == q * (k * p);
  }

  lemma ModOfMod(v: int)
    ensures v % BITS64 % E == v % E
  {
  }

  lemma LimbsValue(q0: int, r0: int, q1: int, r1: int, q2: int, r2: int, q3: int, r3: int)
    requires 0 <= r0 < E && 0 <= q0 < 0x1000 && 0 <= r1 < 0x100_0000_0000 && 0 <= q1 < 0x100_0000
    requires 0 <= r2 < 0x1000_0000 && 0 <= q2 < 0x10_0000_0000 && 0 <= r3 < 0x1_0000 && 0 <= q3 < TOP
    ensures var (s0, s1) := (q0 * 0x10_0000_0000_0000 + r0, q1 * 0x100_0000_0000 + r1);
      var (s2, s3) := (q2 * 0x1000_0000 + r2, q3 * 0x1_0000 + r3);
      var r := Fe(r0, q0 + r1 * 0x1000, q1 + r2 * 0x100_0000, q2 + r3 * 0x10_0000_0000, q3);
      && 0 <= s0 < BITS64 && 0 <= s1 < BITS64 && 0 <= s2 < BITS64 && 0 <= s3 < BITS64
      && Tidy(r) && Val(r) == Val4(Limbs4(s0, s1, s2, s3))
  {
  }

  /** secp256k1_fe_from_storage */
  function FromStorage(s: Limbs4): (r: Fe)
    ensures Tidy(r) && Val(r) == Val4(s)
  {
    DivModEq(s.d0, E);
    ShlCut(s.d1, 0x1000, 0x100_0000_0000);
    ShlCut(s.d2, 0x100_0000, 0x1000_0000);
    ShlCut(s.d3, 0x10_0000_0000, 0x1_0000);
    LimbsValue(s.d0 / E, s.d0 % E, s.d1 / 0x100_0000_0000, s.d1 % 0x100_0000_0000,
      s.d2 / 0x1000_0000, s.d2 % 0x1000_0000, s.d3 / 0x1_0000, s.d3 % 0x1_0000);
    hide Val4, Val, Shl, Tidy;
    Fe(
      s.d0 % E,
      s.d0 / E + Shl(s.d1, 0x1000) % E,
      s.d1 / 0x100_0000_0000 + Shl(s.d2, 0x100_0000) % E,
      s.d2 / 0x1000_0000 + Shl(s.d3, 0x10_0000_0000) % E,
      s.d3 / 0x1_0000)
  }

  /** Storing loses nothing, in either direction. */
  lemma StorageRoundTrip(a: Fe, s: Limbs4)
    requires Tidy(a)
    ensures FromStorage(ToStorage(a)) == a
    ensures ToStorage(FromStorage(s)) == s
  {
    hide ToStorage, FromStorage;
    TidyUnique(FromStorage(ToStorage(a)), a);
    Limbs4Unique(ToStorage(FromStorage(s)), s);
  }

  // Six bytes, most significant first, as one 48-bit number.
  function Six(b: seq<Byte>): (v: int)
    requires |b| == 6
    ensures 0 <= v < TOP
  {
    var v5: int, v4: int, v3: int, v2: int, v1: int, v0: int := b[5], b[4], b[3], b[2], b[1], b[0];
    v5 + v4 * 0x100 + v3 * 0x1_0000 + v2 * 0x100_0000 + v1 * 0x1_0000_0000 + v0 * 0x100_0000_0000
  }

  lemma AppendByte(b: seq<Byte>, x: Byte)
    ensures FromBigEndian(b + [x]) == 256 * FromBigEndian(b) + x
  {
    assert (b + [x])[..|b|] == b;
  }

  lemma AppendSix(b: seq<Byte>, c: seq<Byte>)
    requires |c| == 6
    ensures FromBigEndian(b + c) == TOP * FromBigEndian(b) + Six(c)
  {
    hide FromBigEndian;
    AppendByte(b, c[0]);
    AppendByte(b + [c[0]], c[1]);
    AppendByte(b + [c[0]] + [c[1]], c[2]);
    AppendByte(b + [c[0]] + [c[1]] + [c[2]], c[3]);
    AppendByte(b + [c[0]] + [c[1]] + [c[2]] + [c[3]], c[4]);
    AppendByte(b + [c[0]] + [c[1]] + [c[2]] + [c[3]] + [c[4]], c[5]);
    assert b + c == b + [c[0]] + [c[1]] + [c[2]] + [c[3]] + [c[4]] + [c[5]];
  }

  // The bytes in the groups that the limbs cut out of them.
  lemma Grouped(b: seq<Byte>)
    requires |b| == 32
    ensures FromBigEndian(b) ==
      ((((Six(b[..6]) * TOP + Six(b[6..12])) * 256 + b[12]) * TOP + Six(b[13..19])) * TOP + Six(b[19..25])) * 256 * TOP
      + TOP * b[25] + Six(b[26..])
  {
    hide Six;
    var none: seq<Byte> := [];
    AppendSix(none, b[..6]);
    assert none + b[..6] == b[..6];
    AppendSix(b[..6], b[6..12]);
    assert b[..6] + b[6..12] == b[..12];
    AppendByte(b[..12], b[12]);
    assert b[..12] + [b[12]] == b[..13];
    AppendSix(b[..13], b[13..19]);
    assert b[..13] + b[13..19] == b[..19];
    AppendSix(b[..19], b[19..25]);
    assert b[..19] + b[19..25] == b[..25];
    AppendByte(b[..25], b[25]);
    assert b[..25] + [b[25]] == b[..26];
    AppendSix(b[..26], b[26..]);
    assert b[..26] + b[26..] == b;
    assert FromBigEndian(none) == 0;
  }

  // The limbs of a grouping; bytes 12 and 25 are split between two limbs.
  function Limbs(c4: int, c3: int, b12: int, c2: int, c1: int, b25: int, c0: int): Fe {
    Fe(c0 + b25 % 16 * TOP, b25 / 16 + c1 * 16, c2 + b12 % 16 * TOP, b12 / 16 + c3 * 16, c4)
  }

  lemma LimbsOfGroups(c4: int, c3: int, b12: Byte, c2: int, c1: int, b25: Byte, c0: int)
    requires 0 <= c4 < TOP && 0 <= c3 < TOP && 0 <= c2 < TOP && 0 <= c1 < TOP && 0 <= c0 < TOP
    ensures Tidy(Limbs(c4, c3, b12, c2, c1, b25, c0))
    ensures Val(Limbs(c4, c3, b12, c2, c1, b25, c0)) ==
      ((((c4 * TOP + c3) * 256 + b12) * TOP + c2) * TOP + c1) * 256 * TOP + TOP * b25 + c0
  {
    DivModEq(b12, 16);
    DivModEq(b25, 16);
  }

  predicate AtLeastField(a: Fe) {
    a.n4 == TOP - 1 && a.n3 == E - 1 && a.n2 == E - 1 && a.n1 == E - 1 && a.n0 >= 0xFFFFEFFFFFC2F
  }

  lemma FieldCompare(a: Fe)
    requires Tidy(a)
    ensures AtLeastField(a) <==> Val(a) >= FIELD
  {
  }

  /** secp256k1_fe_set_b32: refused exactly when the number is not below the characteristic. */
  function SetFe(b: seq<Byte>): (r: (Fe, bool))
    requires |b| == 32
    ensures Tidy(r.0) && Val(r.0) == FromBigEndian(b)
    ensures r.1 <==> FromBigEndian(b) < FIELD
  {
    Grouped(b);
    LimbsOfGroups(Six(b[..6]), Six(b[6..12]), b[12], Six(b[13..19]), Six(b[19..25]), b[25], Six(b[26..]));
    hide Limbs, AtLeastField, Tidy, Val;
    var r := Limbs(Six(b[..6]), Six(b[6..12]), b[12], Six(b[13..19]), Six(b[19..25]), b[25], Six(b[26..]));
    FieldCompare(r);
    (r, !AtLeastField(r))
  }

  function SixBytes(v: int): (b: seq<Byte>)
    requires v >= 0
    ensures |b| == 6
  {
    [v / 0x100_0000_0000 % 256, v / 0x1_0000_0000 % 256, v / 0x100_0000 % 256,
      v / 0x1_0000 % 256, v / 0x100 % 256, v % 256]
  }

  lemma SixOfBytes(v: int)
    requires 0 <= v
    ensures Six(SixBytes(v)) == v % TOP
  {
    var v1, v2, v3, v4, v5 := v / 0x100, v / 0x1_0000, v / 0x100_0000, v / 0x1_0000_0000, v / 0x100_0000_0000;
    assert v2 == v1 / 256 && v3 == v2 / 256 && v4 == v3 / 256 && v5 == v4 / 256;
    assert v / TOP == v5 / 256;
  }

  /** secp256k1_fe_get_b32 */
  function GetFe(a: Fe): (b: seq<Byte>)
    requires Tidy(a)
    ensures |b| == 32
  {
    SixBytes(a.n4) + SixBytes(a.n3 / 16) + [a.n2 / TOP % 16 + a.n3 % 16 * 16] + SixBytes(a.n2)
      + SixBytes(a.n1 / 16) + [a.n0 / TOP % 16 + a.n1 % 16 * 16] + SixBytes(a.n0)
  }

  lemma GroupsOf(a: Fe)
    requires Tidy(a)
    ensures var b := GetFe(a);
      b[..6] == SixBytes(a.n4) && b[6..12] == SixBytes(a.n3 / 16) && b[12] == a.n2 / TOP % 16 + a.n3 % 16 * 16
      && b[13..19] == SixBytes(a.n2) && b[19..25] == SixBytes(a.n1 / 16) && b[25] == a.n0 / TOP % 16 + a.n1 % 16 * 16
      && b[26..] == SixBytes(a.n0)
  {
    hide SixBytes;
  }

  lemma HalfByte(n: int, m: int)
    requires 0 <= n < E && 0 <= m < E
    ensures n % TOP + (n / TOP % 16 + m % 16 * 16) % 16 * TOP == n
    ensures (n / TOP % 16 + m % 16 * 16) / 16 + m / 16 * 16 == m
    ensures m / 16 < TOP
  {
  }

  /** Reading back what was written gives the same limbs, so the bytes are those of the value. */
  lemma FeRoundTrip(a: Fe)
    requires Tidy(a)
    ensures SetFe(GetFe(a)).0 == a && GetFe(a) == BigEndian(Val(a), 32)
  {
    hide SixBytes, Six, FromBigEndian, Val, BigEndian;
    var b := GetFe(a);
    GroupsOf(a);
    hide GetFe;
    SixOfBytes(a.n4);
    SixOfBytes(a.n3 / 16);
    SixOfBytes(a.n2);
    SixOfBytes(a.n1 / 16);
    SixOfBytes(a.n0);
    HalfByte(a.n2, a.n3);
    HalfByte(a.n0, a.n1);
    assert SetFe(b).0 == a;
    EncodeDecode(b);
  }

  /** One encoding per element: whatever is read, refused or not, writes back to the same bytes. */
  lemma FeBytesUnique(b: seq<Byte>)
    requires |b| == 32
    ensures GetFe(SetFe(b).0) == b
    ensures SetFe(b).1 <==> Canonical(SetFe(b).0)
  {
    hide GetFe, FromBigEndian, BigEndian;
    var a := SetFe(b).0;
    FeRoundTrip(a);
    EncodeDecode(b);
  }
}
