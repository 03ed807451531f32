/** The streaming hash: buffered writes and padding around an arbitrary compression function. */
module Sha256 {
  import opened Digits
  import opened Bytes

  /** The compression function with its initial state, the state of zero words, and the octets of a final state. */
  datatype Compression<!S> = Compression(init: S, cleared: S, step: (S, seq<Byte>) -> S, output: S -> seq<Byte>)

  ghost predicate OutputsDigest<S>(c: Compression<S>, s: S) {
    |c.output(s)| == 32
  }

  ghost predicate IsCompression<S(!new)>(c: Compression<S>) {
    forall s {:trigger OutputsDigest(c, s)} :: OutputsDigest(c, s)
  }

  /** The compression function run over the blocks of m. */
  ghost function Fold<S>(c: Compression<S>, m: seq<Byte>): S {
    if |m| < 64 then c.init else c.step(Fold(c, m[..|m| - 64]), m[|m| - 64..])
  }

  lemma FoldBlock<S>(c: Compression<S>, m: seq<Byte>, b: seq<Byte>)
    requires |b| == 64
    ensures Fold(c, m + b) == c.step(Fold(c, m), b)
  {
    assert (m + b)[..|m|] == m && (m + b)[|m|..] == b;
  }

  function Zeros(n: nat): (z: seq<Byte>)
    ensures |z| == n
  {
    seq(n, _ => 0)
  }

  // Zero octets up to eight short of a block boundary, after one marker octet.
  function PadLength(len: nat): nat {
    (119 - len % 64) % 64
  }

  /** The padded message of section 5.1.1 of FIPS 180-4. */
  function Pad(m: seq<Byte>): seq<Byte> {
    m + [0x80] + Zeros(PadLength(|m|)) + BigEndian(8 * |m|, 8)
  }

  lemma PadArithmetic(len: nat)
    ensures (len + 9 + PadLength(len)) % 64 == 0 && PadLength(len) < 64
  {
    var r := len % 64;
    assert PadLength(len) == if r <= 55 then 55 - r else 119 - r;
  }

  lemma PaddedLength(m: seq<Byte>)
    ensures |Pad(m)| % 64 == 0 && |Pad(m)| == |m| + 9 + PadLength(|m|) && PadLength(|m|) < 64
  {
    PadArithmetic(|m|);
    hide PadLength, BigEndian;
  }

  lemma PadPieces(m: seq<Byte>, padded: seq<Byte>)
    requires padded == m + ([0x80] + Zeros(PadLength(|m|))) + BigEndian(8 * |m|, 8)
    ensures padded == Pad(m) && |padded| % 64 == 0
  {
    PaddedLength(m);
    ConcatRegroup(m, [0x80], Zeros(PadLength(|m|)), BigEndian(8 * |m|, 8));
  }

  lemma ConcatRegroup<T>(a: seq<T>, b: seq<T>, c: seq<T>, d: seq<T>)
    ensures a + (b + c) + d == a + b + c + d
  {
  }

  /** The padding, octet by octet: the message, the marker, as few zero octets as reach a block boundary eight octets
      later, and the bit length. */
  ghost predicate IsPadded(m: seq<Byte>, p: seq<Byte>) {
    && |p| % 64 == 0 && |m| + 9 <= |p| < |m| + 73 && p[..|m|] == m && p[|m|] == 0x80
    && (forall i :: |m| < i < |p| - 8 ==> p[i] == 0) && FromBigEndian(p[|p| - 8..]) == 8 * |m|
  }

  lemma PadIsPadded(m: seq<Byte>)
    requires |m| < 0x2000_0000_0000_0000
    ensures IsPadded(m, Pad(m))
  {
    EightOctets();
    DecodeEncode(8 * |m|, 8);
    PaddedLength(m);
    hide FromBigEndian, BigEndian, Power, PadLength;
    var q := Pad(m);
    assert q[|q| - 8..] == BigEndian(8 * |m|, 8);
    assert q[..|m|] == m;
  }

  lemma PaddedUnique(m: seq<Byte>, p: seq<Byte>, q: seq<Byte>)
    requires IsPadded(m, p) && IsPadded(m, q)
    ensures p == q
  {
    SameBlocks(|m|, |p|, |q|);
    EncodeDecode(p[|p| - 8..]);
    EncodeDecode(q[|q| - 8..]);
    hide FromBigEndian, BigEndian;
    var e := |p| - 8;
    forall i | 0 <= i < |p|
      ensures p[i] == q[i]
    {
      if i < |m| {
        assert p[i] == p[..|m|][i] && q[i] == q[..|m|][i];
      } else if i >= e {
        assert p[i] == p[e..][i - e] && q[i] == q[e..][i - e];
      }
    }
  }

  lemma PadIff(m: seq<Byte>, p: seq<Byte>)
    requires |m| < 0x2000_0000_0000_0000
    ensures p == Pad(m) <==> IsPadded(m, p)
  {
    hide Pad, IsPadded;
    PadIsPadded(m);
    if IsPadded(m, p) {
      PaddedUnique(m, p, Pad(m));
    }
  }

  lemma EightOctets()
    ensures Power(256, 8) == 0x1_0000_0000_0000_0000
  {
    assert Power(256, 2) == 0x1_0000 && Power(256, 4) == 0x1_0000 * Power(256, 2);
    assert Power(256, 6) == 0x1_0000 * Power(256, 4) && Power(256, 8) == 0x1_0000 * Power(256, 6);
  }

  lemma SameBlocks(n: int, p: int, q: int)
    requires p % 64 == 0 && q % 64 == 0 && n + 9 <= p < n + 73 && n + 9 <= q < n + 73
    ensures p == q
  {
  }

  /** Different messages are padded differently. */
  lemma PadInjective(m: seq<Byte>, w: seq<Byte>)
    requires |m| < 0x2000_0000_0000_0000 && |w| < 0x2000_0000_0000_0000 && Pad(m) == Pad(w)
    ensures m == w
  {
    hide FromBigEndian, Pad;
    PadIff(m, Pad(m));
    PadIff(w, Pad(w));
  }

  ghost function Hash<S>(c: Compression<S>, m: seq<Byte>): seq<Byte> {
    c.output(Fold(c, Pad(m)))
  }

  // The states between the blocks of p.
  ghost predicate IsRun<S>(c: Compression<S>, p: seq<Byte>, states: seq<S>) {
    && |states| > 0 && |p| == 64 * (|states| - 1) && states[0] == c.init
    && forall i :: 0 < i < |states| ==> states[i] == c.step(states[i - 1], p[64 * i - 64..64 * i])
  }

  lemma {:induction false} FoldIs<S>(c: Compression<S>, p: seq<Byte>, states: seq<S>, n: nat)
    requires IsRun(c, p, states) && n < |states|
    ensures Fold(c, p[..64 * n]) == states[n]
  {
    if n > 0 {
      FoldIs(c, p, states, n - 1);
      assert p[..64 * n] == p[..64 * (n - 1)] + p[64 * n - 64..64 * n];
      FoldBlock(c, p[..64 * (n - 1)], p[64 * n - 64..64 * n]);
    }
  }

  /** The digest without the operations it is computed with: p is the padded message, the first state is the initial
      one, every other comes from the one before and one block, and the digest is that of the last. */
  lemma HashIs<S>(c: Compression<S>, m: seq<Byte>, p: seq<Byte>, states: seq<S>)
    requires |m| < 0x2000_0000_0000_0000 && IsPadded(m, p) && IsRun(c, p, states)
    ensures Hash(c, m) == c.output(states[|states| - 1])
  {
    hide Fold, Pad, IsPadded;
    PadIff(m, p);
    FoldIs(c, p, states, |states| - 1);
    assert p[..64 * (|states| - 1)] == p;
  }

  // The last whole block boundary.
  function Whole(n: nat): (k: nat)
    ensures k <= n && k % 64 == 0 && n - k == n % 64
  {
    n - n % 64
  }

  lemma WholeIs(n: nat, k: nat)
    requires k % 64 == 0 && k <= n < k + 64
    ensures Whole(n) == k && n % 64 == n - k
  {
  }

  class Hasher<S(!new)> {
    const c: Compression<S>
    const buf: array<Byte>
    var s: S
    var bytes: nat
    ghost var message: seq<Byte>

    /** The state is that of the whole blocks written so far; the buffer holds the rest. */
    ghost predicate Valid()
      reads this, buf
    {
      && buf.Length == 64 && bytes == |message|
      && s == Fold(c, message[..Whole(bytes)]) && buf[..bytes % 64] == message[Whole(bytes)..]
    }

    /** secp256k1_sha256_initialize */
    constructor (c: Compression<S>)
      ensures Valid() && message == [] && this.c == c && fresh(buf)
    {
      this.c := c;
      buf := new Byte[64](_ => 0);
      s := c.init;
      bytes := 0;
      message := [];
    }

    // memcpy into the buffer
    method Copy(at: nat, data: seq<Byte>)
      requires buf.Length == 64 && at + |data| <= 64
      modifies buf
      ensures buf[..at + |data|] == old(buf[..at]) + data
    {
      for i := 0 to |data|
        invariant buf[..at + i] == old(buf[..at]) + data[..i]
      {
        buf[at + i] := data[i];
        assert buf[..at + i + 1] == buf[..at + i] + [data[i]];
      }
      assert data[..|data|] == data;
    }

    /** secp256k1_sha256_write: for any way of cutting the message into writes the state depends on the message alone.
        */
    method Write(data: seq<Byte>)
      requires Valid()
      modifies this`s, this`bytes, this`message, buf
      ensures Valid() && message == old(message) + data
    {
      hide Fold;
      var bufsize := bytes % 64;
      bytes := bytes + |data|;
      ghost var was := message;
      message := message + data;
      var rest := data;
      ghost var done := Whole(|was|);
      assert message[done..] == was[done..] + data;
      assert message[..done] == was[..done];
      while bufsize + |rest| >= 64
        invariant message == was + data && bytes == |message|
        invariant done <= |message| && done % 64 == 0 && s == Fold(c, message[..done])
        invariant 0 <= bufsize < 64 && buf[..bufsize] + rest == message[done..]
        decreases |rest| + bufsize
      {
        var chunk := 64 - bufsize;
        Copy(bufsize, rest[..chunk]);
        NextBlock(c, message, done, buf[..], rest[chunk..]);
        rest := rest[chunk..];
        s := c.step(s, buf[..]);
        bufsize := 0;
        done := done + 64;
      }
      if |rest| > 0 {
        Copy(bufsize, rest);
      }
      assert buf[..bufsize + |rest|] == message[done..];
      WholeIs(bytes, done);
    }

    /** secp256k1_sha256_finalize: the digest of the padded message, whatever the writes were. */
    method Finalize() returns (out: seq<Byte>)
      requires Valid() && IsCompression(c) && bytes < 0x2000_0000_0000_0000
      modifies this`s, this`bytes, this`message, buf
      ensures out == Hash(c, old(message)) && |out| == 32 && s == c.cleared
    {
      hide Fold, BigEndian, Pad;
      ghost var m := message;
      var high, low := bytes / 0x2000_0000 % 0x1_0000_0000, bytes * 8 % 0x1_0000_0000;
      SizeWords(bytes);
      var pad := [0x80] + Zeros(63);
      var n := 1 + (119 - bytes % 64) % 64;
      assert pad[..n] == [0x80] + Zeros(PadLength(|m|));
      Write(pad[..n]);
      Write(BigEndian(high, 4) + BigEndian(low, 4));
      PadPieces(m, message);
      assert message[..|message|] == message;
      assert OutputsDigest(c, s);
      out := c.output(s);
      s := c.cleared;
    }
  }

  lemma NextBlock<S>(c: Compression<S>, m: seq<Byte>, done: nat, block: seq<Byte>, rest: seq<Byte>)
    requires done <= |m| && done % 64 == 0 && |block| == 64 && block + rest == m[done..]
    ensures done + 64 <= |m| && Fold(c, m[..done + 64]) == c.step(Fold(c, m[..done]), block) && rest == m[done + 64..]
  {
    hide Fold;
    assert m[done..][..64] == block && m[done..][64..] == rest;
    assert m[..done + 64] == m[..done] + block;
    FoldBlock(c, m[..done], block);
  }

  // The bit length in two 32-bit words.
  lemma SizeWords(n: nat)
    requires n < 0x2000_0000_0000_0000
    ensures BigEndian(n / 0x2000_0000 % 0x1_0000_0000, 4) + BigEndian(n * 8 % 0x1_0000_0000, 4) == BigEndian(8 * n, 8)
  {
    hide BigEndian;
    var h, l := n / 0x2000_0000, n * 8 % 0x1_0000_0000;
    assert h % 0x1_0000_0000 == h && 8 * n == h * 0x1_0000_0000 + l;
    FourOctets(h, l);
  }

  lemma FourOctets(h: nat, l: nat)
    requires l < 0x1_0000_0000
    ensures BigEndian(h * 0x1_0000_0000 + l, 8) == BigEndian(h, 4) + BigEndian(l, 4)
  {
    assert Power(256, 4) == 0x1_0000_0000;
    hide Power, BigEndian;
    SplitBigEndian(h, l, 4);
  }

  lemma {:induction false} SplitBigEndian(high: nat, low: nat, n: nat)
    requires low < Power(256, n)
    ensures BigEndian(high * Power(256, n) + low, 4 + n) == BigEndian(high, 4) + BigEndian(low, n)
  {
    if n > 0 {
      var p := Power(256, n - 1);
      SplitBigEndian(high, low / 256, n - 1);
      OctetSplit(high, p, low);
      hide Power;
    }
  }

  lemma OctetSplit(high: nat, p: nat, low: nat)
    ensures high * p + low / 256 >= 0
    ensures var v := high * (256 * p) + low; v >= 0 && v / 256 == high * p + low / 256 && v % 256 == low % 256
  {
    var t := high * p;
    MulNonneg(high, p);
    assert high * (256 * p) == 256 * t;
  }

  // Exclusive or of the last bits, and of the lowest n bits.
  function LastBit(x: nat, y: nat): nat {
    (x % 2 + y % 2) % 2
  }

  function XorBits(x: nat, y: nat, n: nat): nat {
    if n == 0 then 0 else 2 * XorBits(x / 2, y / 2, n - 1) + LastBit(x, y)
  }

  lemma {:induction false} XorBelow(x: nat, y: nat, n: nat)
    ensures XorBits(x, y, n) < Pow2(n)
  {
    if n > 0 {
      XorBelow(x / 2, y / 2, n - 1);
    }
  }

  function Xor(x: Byte, y: Byte): Byte {
    XorBelow(x, y, 8);
    XorBits(x, y, 8)
  }

  lemma XorHalves(x: nat, y: nat, n: nat)
    requires n > 0
    ensures XorBits(x, y, n) == 2 * XorBits(x / 2, y / 2, n - 1) + LastBit(x, y)
    ensures XorBits(x, y, n) / 2 == XorBits(x / 2, y / 2, n - 1) && XorBits(x, y, n) % 2 == LastBit(x, y)
  {
  }

  // Bit i of a number.
  predicate BitOf(x: nat, i: nat) {
    QuotientNonneg(x, Pow2(i));
    x / Pow2(i) % 2 == 1
  }

  lemma QuotientNonneg(x: nat, m: nat)
    requires m > 0
    ensures x / m >= 0
  {
  }

  lemma NextBit(x: nat, i: nat)
    requires i > 0
    ensures BitOf(x, i) == BitOf(x / 2, i - 1)
  {
    DivModEq(x, 2);
    var q, p := x / 2, Pow2(i - 1);
    DivModEq(q, p);
    Recompose(x, 2, p, q, x % 2, q / p, q % p);
  }

  lemma FirstBit(x: nat)
    ensures BitOf(x, 0) <==> x % 2 == 1
  {
    assert Pow2(0) == 1;
  }

  /** Exclusive or, bit by bit. */
  lemma {:induction false} XorBitsAt(x: nat, y: nat, n: nat, i: nat)
    requires i < n
    ensures BitOf(XorBits(x, y, n), i) <==> BitOf(x, i) != BitOf(y, i)
  {
    XorHalves(x, y, n);
    if i == 0 {
      FirstBit(x);
      FirstBit(y);
      FirstBit(XorBits(x, y, n));
    } else {
      XorBitsAt(x / 2, y / 2, n - 1, i - 1);
      hide XorBits, LastBit, BitOf;
      NextBit(x, i);
      NextBit(y, i);
      NextBit(XorBits(x, y, n), i);
    }
  }

  lemma {:induction false} BitsDetermine(x: nat, y: nat, n: nat)
    requires x < Pow2(n) && y < Pow2(n) && forall i :: 0 <= i < n ==> BitOf(x, i) == BitOf(y, i)
    ensures x == y
  {
    if n > 0 {
      hide BitOf;
      forall i | 0 <= i < n - 1
        ensures BitOf(x / 2, i) == BitOf(y / 2, i)
      {
        NextBit(x, i + 1);
        NextBit(y, i + 1);
      }
      BitsDetermine(x / 2, y / 2, n - 1);
      FirstBit(x);
      FirstBit(y);
    }
  }

  /** The octet z has the bits in which x and y differ. */
  ghost predicate Differs(z: Byte, x: Byte, y: Byte) {
    forall i :: 0 <= i < 8 ==> (BitOf(z, i) <==> BitOf(x, i) != BitOf(y, i))
  }

  lemma XorIff(x: Byte, y: Byte, z: Byte)
    ensures z == Xor(x, y) <==> Differs(z, x, y)
  {
    hide XorBits, BitOf;
    forall i | 0 <= i < 8
      ensures BitOf(Xor(x, y), i) <==> BitOf(x, i) != BitOf(y, i)
    {
      XorBitsAt(x, y, 8, i);
    }
    if Differs(z, x, y) {
      Pow2Values();
      BitsDetermine(z, Xor(x, y), 8);
    }
  }

  lemma LastBitCancels(x: nat, a: nat, b: nat, p: nat, q: nat)
    requires p % 2 == LastBit(x, a) && q % 2 == LastBit(a, b)
    ensures LastBit(p, q) == LastBit(x, b)
  {
  }

  // Masking with a and then with a^b is masking with b.
  lemma {:induction false} XorCancels(x: nat, a: nat, b: nat, n: nat)
    ensures XorBits(XorBits(x, a, n), XorBits(a, b, n), n) == XorBits(x, b, n)
  {
    if n > 0 {
      hide XorBits, LastBit;
      XorCancels(x / 2, a / 2, b / 2, n - 1);
      XorHalves(x, a, n);
      XorHalves(a, b, n);
      XorHalves(x, b, n);
      XorHalves(XorBits(x, a, n), XorBits(a, b, n), n);
      LastBitCancels(x, a, b, XorBits(x, a, n), XorBits(a, b, n));
    }
  }

  lemma XorAgain(x: Byte)
    ensures Xor(Xor(x, 0x5C), Xor(0x5C, 0x36)) == Xor(x, 0x36)
  {
    XorCancels(x, 0x5C, 0x36, 8);
    hide XorBits;
  }

  function Masked(k: seq<Byte>, y: Byte): (r: seq<Byte>)
    ensures |r| == |k| && forall i :: 0 <= i < |k| ==> r[i] == Xor(k[i], y)
  {
    seq(|k|, i requires 0 <= i < |k| => Xor(k[i], y))
  }

  /** The key of one block: hashed if it is longer, then filled with zeros. */
  ghost function BlockKey<S>(c: Compression<S>, key: seq<Byte>): seq<Byte> {
    if |key| <= 64 then key + Zeros(64 - |key|) else Hash(c, key) + Zeros(32)
  }

  /** Section 2 of RFC 2104. */
  ghost function Hmac<S>(c: Compression<S>, key: seq<Byte>, m: seq<Byte>): seq<Byte> {
    var k := BlockKey(c, key);
    Hash(c, Masked(k, 0x5C) + Hash(c, Masked(k, 0x36) + m))
  }

  // The key and zero octets up to a block.
  lemma ShortKey<S>(c: Compression<S>, key: seq<Byte>, k: seq<Byte>)
    requires |key| <= 64
    ensures k == BlockKey(c, key) <==> |k| == 64 && k[..|key|] == key && forall i :: |key| <= i < 64 ==> k[i] == 0
  {
    var b := BlockKey(c, key);
    if |k| == 64 && k[..|key|] == key && (forall i :: |key| <= i < 64 ==> k[i] == 0) {
      forall i | 0 <= i < 64
        ensures k[i] == b[i]
      {
        if i < |key| {
          assert k[i] == k[..|key|][i];
        }
      }
      assert k == b;
    }
  }

  /** Keys that are longer than a block count as their digests. */
  lemma LongKey<S(!new)>(c: Compression<S>, key: seq<Byte>, m: seq<Byte>)
    requires IsCompression(c) && |key| > 64
    ensures Hmac(c, key, m) == Hmac(c, Hash(c, key), m)
  {
    assert OutputsDigest(c, Fold(c, Pad(key)));
  }

  /** HMAC without the operations it is computed with: p and q are the key block with the bits of 0x5C and of 0x36
      turned over. */
  lemma HmacIs<S>(c: Compression<S>, key: seq<Byte>, m: seq<Byte>, k: seq<Byte>, p: seq<Byte>, q: seq<Byte>)
    requires |key| <= 64 && |k| == |p| == |q| == 64
    requires k[..|key|] == key && forall i :: |key| <= i < 64 ==> k[i] == 0
    requires forall i :: 0 <= i < 64 ==> Differs(p[i], k[i], 0x5C) && Differs(q[i], k[i], 0x36)
    ensures Hmac(c, key, m) == Hash(c, p + Hash(c, q + m))
  {
    hide Hash, Xor, Differs, BlockKey;
    ShortKey(c, key, k);
    forall i | 0 <= i < 64
      ensures p[i] == Masked(k, 0x5C)[i] && q[i] == Masked(k, 0x36)[i]
    {
      XorIff(k[i], 0x5C, p[i]);
      XorIff(k[i], 0x36, q[i]);
    }
    assert p == Masked(k, 0x5C) && q == Masked(k, 0x36);
  }

  /** With the empty key both blocks are the constants themselves. */
  lemma HmacEmptyKey<S>(c: Compression<S>, m: seq<Byte>)
    ensures Hmac(c, [], m) == Hash(c, seq(64, _ => 0x5C) + Hash(c, seq(64, _ => 0x36) + m))
  {
    hide Hash;
    var k, p: seq<Byte>, q: seq<Byte> := Zeros(64), seq(64, _ => 0x5C), seq(64, _ => 0x36);
    forall i | 0 <= i < 64
      ensures Differs(p[i], k[i], 0x5C) && Differs(q[i], k[i], 0x36)
    {
      ZeroBits();
    }
    HmacIs(c, [], m, k, p, q);
  }

  lemma ZeroBits()
    ensures forall i: nat :: !BitOf(0, i)
  {
    forall i: nat
      ensures !BitOf(0, i)
    {
      DivModUnique(0, Pow2(i), 0, 0);
    }
  }

  class Authenticator<S(!new)> {
    const inner: Hasher<S>
    const outer: Hasher<S>
    ghost const key: seq<Byte>
    ghost var message: seq<Byte>

    ghost predicate Valid()
      reads this, inner, inner.buf, outer, outer.buf
    {
      && inner != outer && inner.buf != outer.buf && inner.Valid() && outer.Valid() && inner.c == outer.c
      && IsCompression(inner.c) && |BlockKey(inner.c, key)| == 64
      && inner.message == Masked(BlockKey(inner.c, key), 0x36) + message
      && outer.message == Masked(BlockKey(inner.c, key), 0x5C)
    }

    /** secp256k1_hmac_sha256_initialize: keys of any length; the block is masked twice in place. */
    constructor (c: Compression<S>, key: seq<Byte>)
      requires IsCompression(c) && |key| < 0x2000_0000_0000_0000
      ensures Valid() && message == [] && this.key == key && inner.c == c
      ensures fresh(inner) && fresh(outer) && fresh(inner.buf) && fresh(outer.buf)
    {
      hide Fold, Hash, Xor, Masked, Whole, BlockKey;
      var rkey := KeyBlock(c, key);
      ghost var k := rkey[..];
      MaskInPlace(rkey, 0x5C);
      var o := Started(c, rkey[..]);
      MaskInPlace(rkey, Xor(0x5C, 0x36));
      MaskedTwice(k);
      var i := Started(c, rkey[..]);
      inner, outer := i, o;
      this.key := key;
      message := [];
    }

    /** secp256k1_hmac_sha256_write */
    method Write(data: seq<Byte>)
      requires Valid()
      modifies this`message, inner, inner.buf
      ensures Valid() && message == old(message) + data
    {
      hide Fold, Hash, Masked, BlockKey, Whole;
      inner.Write(data);
      message := message + data;
    }

    /** secp256k1_hmac_sha256_finalize */
    method Finalize() returns (out: seq<Byte>)
      requires Valid() && |message| < 0x1FFF_FFFF_FFFF_FFC0
      modifies inner, inner.buf, outer, outer.buf
      ensures out == Hmac(inner.c, key, message) && |out| == 32
    {
      hide Fold, Hash, Masked, BlockKey, Whole;
      var temp := inner.Finalize();
      outer.Write(temp);
      out := outer.Finalize();
    }
  }

  // A hasher that has taken one block in.
  method Started<S(!new)>(c: Compression<S>, block: seq<Byte>) returns (h: Hasher<S>)
    ensures h.Valid() && h.c == c && h.message == block && fresh(h) && fresh(h.buf)
  {
    h := new Hasher(c);
    h.Write(block);
    assert [] + block == block;
  }

  method KeyBlock<S(!new)>(c: Compression<S>, key: seq<Byte>) returns (rkey: array<Byte>)
    requires IsCompression(c) && |key| < 0x2000_0000_0000_0000
    ensures fresh(rkey) && rkey.Length == 64 && rkey[..] == BlockKey(c, key)
  {
    hide Fold, Hash, Whole;
    rkey := new Byte[64](_ => 0);
    if |key| <= 64 {
      Fill(rkey, key);
    } else {
      var h := Started(c, key);
      var digest := h.Finalize();
      Fill(rkey, digest);
    }
  }

  method Fill(rkey: array<Byte>, b: seq<Byte>)
    requires rkey.Length == 64 && |b| <= 64
    modifies rkey
    ensures rkey[..] == b + Zeros(64 - |b|)
  {
    for i := 0 to 64
      invariant forall k :: 0 <= k < i ==> rkey[k] == if k < |b| then b[k] else 0
    {
      rkey[i] := if i < |b| then b[i] else 0;
    }
  }

  method MaskInPlace(rkey: array<Byte>, y: Byte)
    modifies rkey
    ensures rkey[..] == Masked(old(rkey[..]), y)
  {
    hide Xor;
    for n := 0 to rkey.Length
      invariant forall k :: 0 <= k < n ==> rkey[k] == Xor(old(rkey[k]), y)
      invariant forall k :: n <= k < rkey.Length ==> rkey[k] == old(rkey[k])
    {
      rkey[n] := Xor(rkey[n], y);
    }
  }

  lemma MaskedTwice(k: seq<Byte>)
    ensures Masked(Masked(k, 0x5C), Xor(0x5C, 0x36)) == Masked(k, 0x36)
  {
    forall i | 0 <= i < |k|
      ensures Masked(Masked(k, 0x5C), Xor(0x5C, 0x36))[i] == Masked(k, 0x36)[i]
    {
      XorAgain(k[i]);
    }
  }
}
