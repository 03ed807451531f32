/** Big-endian byte strings and the two-way conversion of scalars. */
module Bytes {
  import opened Digits
  import opened Secp256k1

  type Byte = x: int | 0 <= x < 256

  function BigEndian(v: nat, n: nat): (b: seq<Byte>)
    ensures |b| == n
  {
    if n == 0 then [] else BigEndian(v / 256, n - 1) + [v % 256]
  }

  function FromBigEndian(b: seq<Byte>): nat {
    if |b| == 0 then 0 else 256 * FromBigEndian(b[..|b| - 1]) + b[|b| - 1]
  }

  lemma {:induction false} DecodeEncode(v: nat, n: nat)
    requires v < Power(256, n)
    ensures FromBigEndian(BigEndian(v, n)) == v
  {
    if n > 0 {
      DecodeEncode(v / 256, n - 1);
      var b := BigEndian(v, n);
      assert b[..n - 1] == BigEndian(v / 256, n - 1);
    }
  }

  lemma {:induction false} EncodeDecode(b: seq<Byte>)
    ensures BigEndian(FromBigEndian(b), |b|) == b
  {
    if |b| > 0 {
      EncodeDecode(b[..|b| - 1]);
    }
  }

  lemma {:induction false} DecodeBelow(b: seq<Byte>)
    ensures FromBigEndian(b) < Power(256, |b|)
  {
    if |b| > 0 {
      DecodeBelow(b[..|b| - 1]);
    }
  }

  lemma WordSizes()
    ensures Power(256, 32) == Pow2(256)
  {
    Pow2Values();
    PowerOfPow2(8, 32);
  }

  /** secp256k1_scalar_get_b32 */
  function GetB32(s: Scalar): (b: seq<Byte>)
    ensures |b| == 32
  {
    BigEndian(s, 32)
  }

  // 32 bytes hold less than twice the order.
  lemma OneReduction(b: seq<Byte>)
    requires |b| == 32
    ensures var v := FromBigEndian(b); 0 <= v < 2 * N && v % N == if v >= N then v - N else v
  {
    hide FromBigEndian, Power, Pow2;
    DecodeBelow(b);
    WordSizes();
    OrderBounds();
    Pow2Values();
    var v := FromBigEndian(b);
    DivModUnique(v, N, if v >= N then 1 else 0, if v >= N then v - N else v);
  }

  /** secp256k1_scalar_set_b32: the value is reduced once and the flag tells whether it had to be. */
  function SetB32(b: seq<Byte>): (r: (Scalar, bool))
    requires |b| == 32
    ensures r.0 == FromBigEndian(b) % N && (r.1 <==> FromBigEndian(b) >= N)
  {
    OneReduction(b);
    var v := FromBigEndian(b);
    if v >= N then (v - N, true) else (v, false)
  }

  /** A scalar survives the trip through its 32 bytes, and only canonical strings are accepted without a flag. */
  lemma ScalarRoundTrip(s: Scalar)
    ensures SetB32(GetB32(s)) == (s, false)
  {
    WordSizes();
    OrderBounds();
    DecodeEncode(s, 32);
  }

  lemma ScalarBytesUnique(b: seq<Byte>)
    requires |b| == 32 && !SetB32(b).1
    ensures GetB32(SetB32(b).0) == b
  {
    EncodeDecode(b);
  }
}
