/** DER signatures: the strict parser against the serializer. */
module Der {
  import opened Digits
  import opened Secp256k1
  import opened Bytes
  import opened Strauss

  // The conversion of a size to a signed 32-bit int.
  function ToInt(x: nat): int {
    var y := x % 0x1_0000_0000;
    if y < 0x8000_0000 then y else y - 0x1_0000_0000
  }

  /** A length and the position behind it; the length -1 stands for failure. */
  datatype Len = Len(value: int, next: nat)

  // The bytes of a long-form length, most significant first.
  function LongLen(b: seq<Byte>, p: nat, ret: nat, left: nat): (r: Len)
    requires p + left <= |b|
    ensures r.value == -1 || r.next <= |b|
    decreases left
  {
    if left == 0 then
      if ret < 128 then Len(-1, p) else Len(ToInt(ret), p)
    else
      var v := ret * 256 + b[p];
      if v + left > |b| - p then Len(-1, p) else LongLen(b, p + 1, v, left - 1)
  }

  /** What secp256k1_der_read_len computes (sections 8.1.3 and 10.1 of X.690). */
  function LenAt(b: seq<Byte>, p: nat): (r: Len)
    requires p <= |b|
    ensures r.value == -1 || r.next <= |b| || r.value < 0
  {
    if p >= |b| then Len(-1, p)
    else
      var b1 := b[p];
      if b1 == 0xFF then Len(-1, p)
      else if b1 < 0x80 then Len(b1, p + 1)
      else if b1 == 0x80 then Len(-1, p)
      else
        var left := b1 - 0x80;
        if left > |b| - (p + 1) || b[p + 1] == 0 || left > 8 then Len(-1, p)
        else LongLen(b, p + 1, 0, left)
  }

  method ReadLen(b: seq<Byte>, pos: nat) returns (r: Len)
    requires pos <= |b|
    ensures r == LenAt(b, pos) || (r.value == -1 == LenAt(b, pos).value)
  {
    var p := pos;
    if p >= |b| {
      return Len(-1, p);
    }
    var b1 := b[p];
    p := p + 1;
    if b1 == 0xFF {
      return Len(-1, p);
    }
    if b1 < 0x80 {
      return Len(b1, p);
    }
    if b1 == 0x80 {
      return Len(-1, p);
    }
    var left: nat := b1 - 0x80;
    if left > |b| - p {
      return Len(-1, p);
    }
    if b[p] == 0 {
      return Len(-1, p);
    }
    if left > 8 {
      return Len(-1, p);
    }
    var ret: nat := 0;
    while left > 0
      invariant p + left <= |b| && LongLen(b, p, ret, left) == LenAt(b, pos)
    {
      ret := ret * 256 + b[p];
      if ret + left > |b| - p {
        return Len(-1, p);
      }
      p := p + 1;
      left := left - 1;
    }
    if ret < 128 {
      return Len(-1, p);
    }
    r := Len(ToInt(ret), p);
  }

  /** A parsed integer: its scalar, which is 0 when it is negative or too large, and the position behind it. */
  datatype Parsed = Parsed(value: Scalar, next: nat)

  function LeadingZeros(c: seq<Byte>): (k: nat)
    ensures k <= |c|
  {
    if |c| > 0 && c[0] == 0 then 1 + LeadingZeros(c[1..]) else 0
  }

  // The scalar of content octets that passed the padding checks.
  function ScalarOf(c: seq<Byte>): Scalar
    requires |c| > 0
  {
    var d := c[LeadingZeros(c)..];
    if c[0] >= 0x80 || |d| > 32 then 0
    else
      var v := SetB32(seq(32 - |d|, _ => 0) + d);
      if v.1 then 0 else v.0
  }

  // Excessive padding with zero or with one bits (section 8.3.2 of X.690).
  predicate Padded(c: seq<Byte>) {
    |c| > 1 && ((c[0] == 0 && c[1] < 0x80) || (c[0] == 0xFF && c[1] >= 0x80))
  }

  /** What secp256k1_der_parse_integer computes. */
  function IntegerAt(b: seq<Byte>, p: nat): (r: Option<Parsed>)
    requires p <= |b|
    ensures r.Some? ==> r.value.next <= |b|
  {
    if p == |b| || b[p] != 2 then None
    else
      var len := LenAt(b, p + 1);
      if len.value <= 0 || len.next + len.value > |b| then None
      else
        var c := b[len.next..len.next + len.value];
        if Padded(c) then None else Some(Parsed(ScalarOf(c), len.next + len.value))
  }

  method ParseInteger(b: seq<Byte>, pos: nat) returns (ok: bool, v: Scalar, next: nat)
    requires pos <= |b|
    ensures ok <==> IntegerAt(b, pos).Some?
    ensures ok ==> IntegerAt(b, pos) == Some(Parsed(v, next))
  {
    hide LenAt, SetB32;
    ok, v, next := false, 0, pos;
    var p := pos;
    if p == |b| || b[p] != 2 {
      return;
    }
    p := p + 1;
    var len := ReadLen(b, p);
    if len.value <= 0 || len.next + len.value > |b| {
      return;
    }
    p := len.next;
    var rlen: nat := len.value;
    ghost var c := b[p..p + rlen];
    assert c[0] == b[p] && (rlen > 1 ==> c[1] == b[p + 1]);
    if b[p] == 0 && rlen > 1 && b[p + 1] < 0x80 {
      return;
    }
    if b[p] == 0xFF && rlen > 1 && b[p + 1] >= 0x80 {
      return;
    }
    hide ScalarOf;
    v := ContentScalar(b, p, rlen);
    ok, next := true, p + rlen;
  }

  // Move past leading zero octets.
  method SkipZeros(b: seq<Byte>, start: nat, len: nat) returns (p: nat, n: nat)
    requires start + len <= |b|
    ensures n <= len && p + n == start + len
    ensures var c := b[start..start + len]; c[LeadingZeros(c)..] == b[p..p + n]
  {
    ghost var c := b[start..start + len];
    p, n := start, len;
    while n > 0 && b[p] == 0
      invariant 0 <= n <= len && p + n == start + len && LeadingZeros(c) == len - n + LeadingZeros(b[p..p + n])
    {
      assert b[p..p + n][1..] == b[p + 1..p + n];
      n := n - 1;
      p := p + 1;
    }
  }

  // The sign check, the leading zeros and the range check of the content octets.
  method ContentScalar(b: seq<Byte>, start: nat, len: nat) returns (v: Scalar)
    requires len > 0 && start + len <= |b|
    ensures v == ScalarOf(b[start..start + len])
  {
    hide SetB32;
    v := 0;
    ghost var c := b[start..start + len];
    var overflow := b[start] >= 0x80;
    var p, rlen := SkipZeros(b, start, len);
    if rlen > 32 {
      overflow := true;
    }
    if !overflow {
      var ra: seq<Byte> := seq(32 - rlen, _ => 0) + b[p..p + rlen];
      assert ra == seq(32 - rlen, _ => 0) + c[LeadingZeros(c)..];
      var r := SetB32(ra);
      v := r.0;
      overflow := r.1;
    }
    if overflow {
      v := 0;
    }
  }

  /** The two scalars of a strict DER signature. */
  function Signature(b: seq<Byte>): (r: Option<(Scalar, Scalar)>) {
    if |b| == 0 || b[0] != 0x30 then None
    else
      var len := LenAt(b, 1);
      if len.value < 0 || len.next + len.value != |b| then None
      else
        match IntegerAt(b, len.next)
        case None => None
        case Some(r) =>
          match IntegerAt(b, r.next)
          case None => None
          case Some(s) => if s.next != |b| then None else Some((r.value, s.value))
  }

  /** secp256k1_ecdsa_sig_parse */
  method SigParse(b: seq<Byte>) returns (ok: bool, r: Scalar, s: Scalar)
    ensures ok <==> Signature(b).Some?
    ensures ok ==> Signature(b) == Some((r, s))
  {
    hide LenAt, IntegerAt;
    ok, r, s := false, 0, 0;
    if |b| == 0 || b[0] != 0x30 {
      return;
    }
    var len := ReadLen(b, 1);
    if len.value < 0 || len.next + len.value > |b| {
      return;
    }
    if len.next + len.value != |b| {
      return;
    }
    var good, next;
    good, r, next := ParseInteger(b, len.next);
    if !good {
      return;
    }
    assert next <= |b|;
    good, s, next := ParseInteger(b, next);
    if !good {
      return;
    }
    ok := next == |b|;
  }

  /** Content octets of an integer: padding is dropped while the next octet keeps the sign. */
  function Trim(c: seq<Byte>): (t: seq<Byte>)
    ensures |t| <= |c|
  {
    if |c| > 1 && c[0] == 0 && c[1] < 0x80 then Trim(c[1..]) else c
  }

  function Content(v: Scalar): (c: seq<Byte>)
    ensures |c| <= 33
  {
    Trim([0] + GetB32(v))
  }

  function IntegerBytes(v: Scalar): seq<Byte> {
    [2, |Content(v)|] + Content(v)
  }

  /** The one DER encoding of a pair of scalars. */
  function Serialization(r: Scalar, s: Scalar): (b: seq<Byte>)
    ensures |b| == 6 + |Content(r)| + |Content(s)|
  {
    [0x30, 4 + |Content(r)| + |Content(s)|] + IntegerBytes(r) + IntegerBytes(s)
  }

  // Drop the octets that only repeat the sign.
  method Shorten(c: seq<Byte>) returns (p: nat)
    requires |c| > 0
    ensures p < |c| && c[p..] == Trim(c)
  {
    p := 0;
    var len := |c|;
    assert c[0..] == c;
    while len > 1 && c[p] == 0 && c[p + 1] < 0x80
      invariant p + len == |c| && len > 0 && Trim(c[p..]) == Trim(c)
    {
      assert c[p..][1..] == c[p + 1..];
      len := len - 1;
      p := p + 1;
    }
  }

  function Frame(rc: seq<Byte>, sc: seq<Byte>): (b: seq<Byte>)
    requires |rc| <= 33 && |sc| <= 33
    ensures |b| == 6 + |rc| + |sc|
  {
    [0x30, 4 + |rc| + |sc|, 2, |rc|] + rc + [2, |sc|] + sc
  }

  method WriteFrame(sig: array<Byte>, rc: seq<Byte>, sc: seq<Byte>)
    requires |rc| <= 33 && |sc| <= 33 && 6 + |rc| + |sc| <= sig.Length
    modifies sig
    ensures sig[..6 + |rc| + |sc|] == Frame(rc, sc)
    ensures forall k :: 6 + |rc| + |sc| <= k < sig.Length ==> sig[k] == old(sig[k])
  {
    Put(sig, 0, [0x30, 4 + |rc| + |sc|, 2, |rc|]);
    Put(sig, 4, rc);
    Put(sig, 4 + |rc|, [2, |sc|]);
    Put(sig, 6 + |rc|, sc);
  }

  /** secp256k1_ecdsa_sig_serialize: the needed size is always reported, the bytes are written if they fit. */
  method SigSerialize(sig: array<Byte>, size: nat, r: Scalar, s: Scalar) returns (ok: bool, needed: nat)
    requires size <= sig.Length
    modifies sig
    ensures needed == |Serialization(r, s)| && (ok <==> needed <= size)
    ensures ok ==> sig[..needed] == Serialization(r, s)
    ensures forall k :: (if ok then needed else 0) <= k < sig.Length ==> sig[k] == old(sig[k])
  {
    hide Trim, GetB32, Frame;
    var rb: seq<Byte>, sb: seq<Byte> := [0] + GetB32(r), [0] + GetB32(s);
    var rp := Shorten(rb);
    var sp := Shorten(sb);
    var rc, sc := rb[rp..], sb[sp..];
    assert rc == Content(r) && sc == Content(s);
    hide Content;
    needed := 6 + |rc| + |sc|;
    if size < needed {
      return false, needed;
    }
    ok := true;
    WriteFrame(sig, rc, sc);
    FrameIsSerialization(r, s);
  }

  lemma FrameIsSerialization(r: Scalar, s: Scalar)
    ensures Frame(Content(r), Content(s)) == Serialization(r, s)
  {
    hide Content;
  }

  method Put(buf: array<Byte>, at: nat, b: seq<Byte>)
    requires at + |b| <= buf.Length
    modifies buf
    ensures buf[..at + |b|] == old(buf[..at]) + b
    ensures forall k :: at + |b| <= k < buf.Length ==> buf[k] == old(buf[k])
  {
    for i := 0 to |b|
      invariant buf[..at + i] == old(buf[..at]) + b[..i]
      invariant forall k :: at + i <= k < buf.Length ==> buf[k] == old(buf[k])
    {
      buf[at + i] := b[i];
      assert buf[..at + i + 1] == buf[..at + i] + [b[i]];
    }
    assert b[..|b|] == b;
  }

  // Content octets of a non-negative integer in shortest form.
  predicate Minimal(c: seq<Byte>) {
    |c| > 0 && c[0] < 0x80 && !Padded(c)
  }

  lemma {:induction false} FrontValue(b: seq<Byte>)
    requires |b| > 0
    ensures FromBigEndian(b) == b[0] * Power(256, |b| - 1) + FromBigEndian(b[1..])
  {
    var k := |b| - 1;
    if k > 0 {
      FrontValue(b[..k]);
      assert b[..k][1..] == b[1..][..k - 1] && b[1..][k - 1] == b[k];
    } else {
      assert b[1..] == [] && b[..0] == [];
    }
  }

  lemma {:induction false} TrimValue(c: seq<Byte>)
    requires |c| > 0 && c[0] < 0x80
    ensures Minimal(Trim(c)) && FromBigEndian(Trim(c)) == FromBigEndian(c)
  {
    if |c| > 1 && c[0] == 0 && c[1] < 0x80 {
      FrontValue(c);
      TrimValue(c[1..]);
    }
  }

  /** Shortest contents of one length less hold only smaller values. */
  lemma MinimalRange(c: seq<Byte>)
    requires Minimal(c)
    ensures FromBigEndian(c) < 128 * Power(256, |c| - 1)
    ensures |c| > 1 ==> FromBigEndian(c) >= 128 * Power(256, |c| - 2)
  {
    FrontValue(c);
    DecodeBelow(c[1..]);
    if |c| == 1 {
      LeadRange(c[0], 1, FromBigEndian(c[1..]));
    } else {
      FrontValue(c[1..]);
      DecodeBelow(c[1..][1..]);
      var q := Power(256, |c| - 2);
      assert Power(256, |c| - 1) == 256 * q;
      hide Power, FromBigEndian;
      LeadRange(c[0], 256 * q, FromBigEndian(c[1..]));
      LeadRange(c[1], q, FromBigEndian(c[1..][1..]));
    }
  }

  // A leading octet x of weight p over a rest below p.
  lemma LeadRange(x: int, p: int, rest: int)
    requires x >= 0 && p > 0 && 0 <= rest < p
    ensures x <= 127 ==> x * p + rest < 128 * p
    ensures x >= 1 ==> x * p + rest >= p
    ensures x >= 128 ==> x * p + rest >= 128 * p
  {
    if x <= 127 {
      MulNonneg(127 - x, p);
    }
    if x >= 1 {
      MulNonneg(x - 1, p);
    }
    if x >= 128 {
      MulNonneg(x - 128, p);
    }
  }

  lemma {:induction false} PowerMonotone(i: nat, j: nat)
    requires i <= j
    ensures Power(256, i) <= Power(256, j)
    decreases j
  {
    if i < j {
      PowerMonotone(i, j - 1);
    }
  }

  lemma MinimalUnique(c: seq<Byte>, d: seq<Byte>)
    requires Minimal(c) && Minimal(d) && FromBigEndian(c) == FromBigEndian(d)
    ensures c == d
  {
    MinimalRange(c);
    MinimalRange(d);
    if |c| < |d| {
      PowerMonotone(|c| - 1, |d| - 2);
    } else if |d| < |c| {
      PowerMonotone(|d| - 1, |c| - 2);
    }
    EncodeDecode(c);
    EncodeDecode(d);
  }

  lemma ContentValue(v: Scalar)
    ensures Minimal(Content(v)) && FromBigEndian(Content(v)) == v
  {
    WordSizes();
    OrderBounds();
    DecodeEncode(v, 32);
    hide Power, FromBigEndian, Pow2, Trim, Padded;
    TrimValue([0] + GetB32(v));
    var z: seq<Byte> := seq(1, _ => 0);
    assert z == [0];
    PadValue(1, GetB32(v));
  }

  lemma {:induction false} StripValue(c: seq<Byte>)
    ensures FromBigEndian(c[LeadingZeros(c)..]) == FromBigEndian(c)
    ensures var d := c[LeadingZeros(c)..]; |d| > 0 ==> d[0] != 0
  {
    if |c| > 0 && c[0] == 0 {
      FrontValue(c);
      StripValue(c[1..]);
      assert c[1..][LeadingZeros(c[1..])..] == c[LeadingZeros(c)..];
    } else {
      assert c[0..] == c;
    }
  }

  lemma {:induction false} PadValue(k: nat, d: seq<Byte>)
    ensures FromBigEndian(seq(k, _ => 0) + d) == FromBigEndian(d)
  {
    var z: seq<Byte> := seq(k, _ => 0);
    if k == 0 {
      assert z + d == d;
    } else {
      FrontValue(z + d);
      var y: seq<Byte> := seq(k - 1, _ => 0);
      assert (z + d)[1..] == y + d;
      PadValue(k - 1, d);
    }
  }

  lemma StripLength(c: seq<Byte>)
    requires FromBigEndian(c) < Power(256, 32)
    ensures |c[LeadingZeros(c)..]| <= 32
  {
    hide Power, FromBigEndian, LeadingZeros;
    var d := c[LeadingZeros(c)..];
    StripValue(c);
    if |d| > 32 {
      FrontValue(d);
      DecodeBelow(d[1..]);
      PowerMonotone(32, |d| - 1);
      LeadRange(d[0], Power(256, |d| - 1), FromBigEndian(d[1..]));
    }
  }

  /** What the parser makes of shortest contents: their value if it is a scalar, else 0. */
  lemma ScalarOfMinimal(c: seq<Byte>)
    requires Minimal(c)
    ensures FromBigEndian(c) < N ==> ScalarOf(c) == FromBigEndian(c)
    ensures ScalarOf(c) != 0 ==> ScalarOf(c) == FromBigEndian(c)
  {
    var d := c[LeadingZeros(c)..];
    StripValue(c);
    WordSizes();
    OrderBounds();
    if FromBigEndian(c) < N {
      StripLength(c);
    }
    if |d| <= 32 {
      PadValue(32 - |d|, d);
    }
  }

  // Content octets that the parser accepts, of a length below 128.
  predicate Octets(c: seq<Byte>) {
    0 < |c| < 128 && !Padded(c)
  }

  /** The content octets of an accepted integer. */
  function ContentAt(b: seq<Byte>, p: nat): (c: seq<Byte>)
    requires p <= |b| && IntegerAt(b, p).Some?
    ensures |c| > 0 && !Padded(c) && IntegerAt(b, p).value.value == ScalarOf(c)
  {
    var len := LenAt(b, p + 1);
    b[len.next..len.next + len.value]
  }

  // The parser on an integer in short form wherever it stands.
  lemma IntegerFound(b: seq<Byte>, p: nat, c: seq<Byte>)
    requires Octets(c) && p + 2 + |c| <= |b| && b[p..p + 2 + |c|] == [2, |c|] + c
    ensures IntegerAt(b, p) == Some(Parsed(ScalarOf(c), p + 2 + |c|)) && ContentAt(b, p) == c
  {
    hide SetB32, ScalarOf, Padded;
    var w := b[p..p + 2 + |c|];
    assert w[0] == b[p] && w[1] == b[p + 1];
    assert w[2..] == b[p + 2..p + 2 + |c|] == c;
  }

  /** A signature in short form with the given content octets, whatever they stand for. */
  function Wrapped(c: seq<Byte>, d: seq<Byte>): (b: seq<Byte>)
    requires |c| + |d| < 124
    ensures |b| == 6 + |c| + |d|
  {
    [0x30, 4 + |c| + |d|] + ([2, |c|] + c) + ([2, |d|] + d)
  }

  /** What the strict parser makes of content octets. */
  lemma ParseWrapped(c: seq<Byte>, d: seq<Byte>)
    requires Octets(c) && Octets(d) && |c| + |d| < 124
    ensures Signature(Wrapped(c, d)) == Some((ScalarOf(c), ScalarOf(d)))
    ensures FirstContent(Wrapped(c, d)) == c && SecondContent(Wrapped(c, d)) == d
  {
    hide IntegerAt, ScalarOf, Padded, Octets, ContentAt;
    var b := Wrapped(c, d);
    var m := 2 + |c|;
    assert b[2..2 + m] == [2, |c|] + c;
    assert b[2 + m..2 + m + 2 + |d|] == [2, |d|] + d;
    IntegerFound(b, 2, c);
    IntegerFound(b, 2 + m, d);
  }

  /** The two contents of an accepted signature. */
  function FirstContent(b: seq<Byte>): (c: seq<Byte>)
    requires Signature(b).Some?
    ensures |c| > 0 && !Padded(c) && Signature(b).value.0 == ScalarOf(c)
  {
    ContentAt(b, LenAt(b, 1).next)
  }

  function SecondContent(b: seq<Byte>): (c: seq<Byte>)
    requires Signature(b).Some?
    ensures |c| > 0 && !Padded(c) && Signature(b).value.1 == ScalarOf(c)
  {
    ContentAt(b, IntegerAt(b, LenAt(b, 1).next).value.next)
  }

  lemma ContentOctets(v: Scalar)
    ensures Octets(Content(v)) && ScalarOf(Content(v)) == v
  {
    hide Content, ScalarOf;
    ContentValue(v);
    ScalarOfMinimal(Content(v));
  }

  /** Round trip: every pair of scalars is parsed back from its encoding. */
  lemma ParseSerialized(r: Scalar, s: Scalar)
    ensures Signature(Serialization(r, s)) == Some((r, s))
  {
    hide Content, Signature, ScalarOf, Octets;
    ContentOctets(r);
    ContentOctets(s);
    assert Serialization(r, s) == Wrapped(Content(r), Content(s));
    ParseWrapped(Content(r), Content(s));
  }

  // A long-form length of an input below 4 GiB is at least 128, unless the conversion to int makes it negative.
  lemma {:induction false} LongIsLong(b: seq<Byte>, p: nat, ret: nat, left: nat)
    requires p + left <= |b| < 0x1_0000_0000 && ret <= |b|
    ensures LongLen(b, p, ret, left).value < 0 || LongLen(b, p, ret, left).value >= 128
    decreases left
  {
    if left > 0 {
      var v := ret * 256 + b[p];
      if v + left <= |b| - p {
        LongIsLong(b, p + 1, v, left - 1);
      }
    }
  }

  lemma {:induction false} LongNext(b: seq<Byte>, p: nat, ret: nat, left: nat)
    requires p + left <= |b|
    ensures LongLen(b, p, ret, left).value < 0x8000_0000 && LongLen(b, p, ret, left).next <= p + left
    decreases left
  {
    if left > 0 {
      var v := ret * 256 + b[p];
      if v + left <= |b| - p {
        LongNext(b, p + 1, v, left - 1);
      }
    }
  }

  lemma LenBounds(b: seq<Byte>, p: nat)
    requires p <= |b|
    ensures LenAt(b, p).value < 0x8000_0000 && LenAt(b, p).next <= p + 9
  {
    if p < |b| && b[p] > 0x80 && b[p] - 0x80 <= |b| - (p + 1) && b[p] - 0x80 <= 8 {
      LongNext(b, p + 1, 0, b[p] - 0x80);
    }
  }

  /** Lengths below 128 have one encoding. */
  lemma ShortLength(b: seq<Byte>, p: nat)
    requires p < |b| < 0x1_0000_0000 && 0 <= LenAt(b, p).value < 128
    ensures b[p] == LenAt(b, p).value && LenAt(b, p).next == p + 1
  {
    if b[p] > 0x80 && b[p] - 0x80 <= |b| - (p + 1) && b[p] - 0x80 <= 8 {
      LongIsLong(b, p + 1, 0, b[p] - 0x80);
    }
  }

  /** Content octets of a non-negative number below the order. */
  predicate InRange(c: seq<Byte>) {
    |c| > 0 && c[0] < 0x80 && FromBigEndian(c) < N
  }

  // Content octets in range are the shortest form of their scalar.
  lemma ContentCanonical(c: seq<Byte>)
    requires InRange(c) && !Padded(c)
    ensures c == Content(ScalarOf(c)) && ScalarOf(c) == FromBigEndian(c)
  {
    assert Minimal(c);
    hide ScalarOf, Content, Trim;
    ScalarOfMinimal(c);
    ContentValue(ScalarOf(c));
    MinimalUnique(c, Content(ScalarOf(c)));
  }

  lemma ContentInRange(v: Scalar)
    ensures InRange(Content(v))
  {
    hide Content, FromBigEndian;
    ContentValue(v);
  }

  // A non-zero scalar can only come from octets in range.
  lemma NonzeroInRange(c: seq<Byte>)
    requires |c| > 0 && !Padded(c) && ScalarOf(c) != 0
    ensures InRange(c)
  {
    assert Minimal(c);
    ScalarOfMinimal(c);
  }

  // An accepted integer in range is written in the one way the serializer writes it.
  lemma IntegerCanonical(b: seq<Byte>, p: nat)
    requires p <= |b| < 0x1_0000_0000 && IntegerAt(b, p).Some? && InRange(ContentAt(b, p))
    ensures var r := IntegerAt(b, p).value; p <= r.next <= |b| && b[p..r.next] == IntegerBytes(r.value)
  {
    hide ScalarOf, Content, LongLen, InRange;
    var len := LenAt(b, p + 1);
    var c := ContentAt(b, p);
    ContentCanonical(c);
    ShortLength(b, p + 1);
    hide LenAt, Padded;
    assert b[p..p + 2 + |c|] == [b[p], b[p + 1]] + b[p + 2..p + 2 + |c|];
  }

  lemma SignatureParts(b: seq<Byte>, r: Scalar, s: Scalar) returns (p: nat, q: nat)
    requires Signature(b) == Some((r, s))
    ensures 1 < |b| && b[0] == 0x30 && p == LenAt(b, 1).next <= |b| && p <= 10
    ensures p + LenAt(b, 1).value == |b| < 0x1_0000_0000
    ensures q <= |b| && IntegerAt(b, p) == Some(Parsed(r, q)) && IntegerAt(b, q) == Some(Parsed(s, |b|))
  {
    hide IntegerAt, LenAt;
    LenBounds(b, 1);
    p := LenAt(b, 1).next;
    q := IntegerAt(b, p).value.next;
    assert 1 < |b| by {
      if |b| == 1 {
        EmptyLength(b);
      }
    }
  }

  lemma EmptyLength(b: seq<Byte>)
    ensures LenAt(b, |b|).value == -1
  {
  }

  /** Canonicity, exactly: an accepted string is the encoding of what was read if and only if both contents have a clear
      top bit and a value below the order. */
  lemma CanonicalIff(b: seq<Byte>, r: Scalar, s: Scalar)
    requires Signature(b) == Some((r, s))
    ensures b == Serialization(r, s) <==> InRange(FirstContent(b)) && InRange(SecondContent(b))
  {
    hide IntegerAt, Content, LenAt, InRange, ContentAt, ScalarOf, Padded;
    if b == Serialization(r, s) {
      ContentOctets(r);
      ContentOctets(s);
      ContentInRange(r);
      ContentInRange(s);
      assert b == Wrapped(Content(r), Content(s));
      ParseWrapped(Content(r), Content(s));
    }
    if InRange(FirstContent(b)) && InRange(SecondContent(b)) {
      var p, q := SignatureParts(b, r, s);
      IntegerCanonical(b, p);
      IntegerCanonical(b, q);
      assert b[p..q] == IntegerBytes(r) && b[q..|b|] == IntegerBytes(s);
      ShortLength(b, 1);
      FromParts(b, q, r, s);
    }
  }

  /** In particular a string that is accepted with two non-zero scalars is their encoding. */
  lemma AcceptedIsSerialized(b: seq<Byte>, r: Scalar, s: Scalar)
    requires Signature(b) == Some((r, s)) && r != 0 && s != 0
    ensures b == Serialization(r, s)
  {
    hide ScalarOf, Signature, FirstContent, SecondContent;
    NonzeroInRange(FirstContent(b));
    NonzeroInRange(SecondContent(b));
    CanonicalIff(b, r, s);
  }

  lemma FromParts(b: seq<Byte>, q: nat, r: Scalar, s: Scalar)
    requires 2 <= q <= |b| && b[0] == 0x30 && b[1] == |b| - 2 && b[2..q] == IntegerBytes(r)
    requires b[q..|b|] == IntegerBytes(s)
    ensures b == Serialization(r, s)
  {
    hide Content;
    assert b == [b[0], b[1]] + b[2..q] + b[q..|b|];
  }

  /** Hence two accepted strings with the same non-zero scalars are the same string. */
  lemma EncodingUnique(b: seq<Byte>, c: seq<Byte>, r: Scalar, s: Scalar)
    requires Signature(b) == Signature(c) == Some((r, s)) && r != 0 && s != 0
    ensures b == c
  {
    AcceptedIsSerialized(b, r, s);
    AcceptedIsSerialized(c, r, s);
  }

  /** A number of 256 bits that is not below the order, as content octets. */
  function Oversized(v: nat): (c: seq<Byte>)
    requires N <= v < Pow2(256)
    ensures |c| == 33
  {
    [0] + BigEndian(v, 32)
  }

  lemma OversizedOctets(v: nat)
    requires N <= v < Pow2(256)
    ensures Octets(Oversized(v)) && FromBigEndian(Oversized(v)) == v && ScalarOf(Oversized(v)) == 0
  {
    var c, t := Oversized(v), BigEndian(v, 32);
    WordSizes();
    OrderBounds();
    DecodeEncode(v, 32);
    hide BigEndian;
    var z: seq<Byte> := seq(1, _ => 0);
    assert z == [0];
    PadValue(1, t);
    TopOctet(t);
    assert Minimal(c);
    hide FromBigEndian, ScalarOf, Pow2, Power;
    ScalarOfMinimal(c);
  }

  // 32 octets of a number of at least half the range start with a set bit.
  lemma TopOctet(t: seq<Byte>)
    requires |t| == 32 && FromBigEndian(t) >= N
    ensures t[0] >= 0x80
  {
    FrontValue(t);
    DecodeBelow(t[1..]);
    LeadRange(t[0], Power(256, 31), FromBigEndian(t[1..]));
    WordSizes();
    OrderBounds();
    assert Power(256, 32) == 256 * Power(256, 31);
    assert Pow2(256) == 2 * Pow2(255);
  }

  /** Zero has other accepted spellings, in either position: the negative octets, ... */
  lemma NegativeReadsZero(c: seq<Byte>, v: Scalar)
    requires Octets(c) && c[0] >= 0x80 && |c| <= 64
    ensures Signature(Wrapped(c, Content(v))) == Some((0, v)) && Signature(Wrapped(Content(v), c)) == Some((v, 0))
    ensures !InRange(c)
  {
    assert ScalarOf(c) == 0;
    hide Content, ScalarOf, Octets, Signature;
    ContentOctets(v);
    ParseWrapped(c, Content(v));
    ParseWrapped(Content(v), c);
  }

  /** ... and the numbers that are not below the order. */
  lemma OversizedReadsZero(w: nat, v: Scalar)
    requires N <= w < Pow2(256)
    ensures var c := Oversized(w);
      Signature(Wrapped(c, Content(v))) == Some((0, v)) && Signature(Wrapped(Content(v), c)) == Some((v, 0))
        && !InRange(c)
  {
    OversizedOctets(w);
    hide Content, ScalarOf, Octets, Signature, Oversized, FromBigEndian;
    ContentOctets(v);
    ParseWrapped(Oversized(w), Content(v));
    ParseWrapped(Content(v), Oversized(w));
  }

  /** The length octets of n (section 10.1 of X.690): one octet below 128, otherwise a count and the number itself
      without leading zeros. */
  predicate DerLength(e: seq<Byte>, n: nat) {
    if n < 128 then e == [n]
    else 2 <= |e| <= 9 && e[0] == 0x7F + |e| && e[1] != 0 && FromBigEndian(e[1..]) == n
  }

  lemma LongPart(v: int, p: int, rest: int)
    requires v >= 0 && p > 0 && rest >= 0
    ensures v <= v * p + rest
  {
    MulNonneg(v, p - 1);
    assert v * (p - 1) == v * p - v;
  }

  lemma {:induction false} LongLenFound(b: seq<Byte>, p: nat, ret: nat, left: nat, total: nat)
    requires p + left <= |b| && total == ret * Power(256, left) + FromBigEndian(b[p..p + left])
    requires 128 <= total < 0x8000_0000 && total + left <= |b| - p
    ensures LongLen(b, p, ret, left) == Len(total, p + left)
    decreases left
  {
    if left == 0 {
      assert b[p..p] == [];
    } else {
      var v, d, q := ret * 256 + b[p], b[p..p + left], Power(256, left - 1);
      assert d[1..] == b[p + 1..p + left];
      FrontValue(d);
      assert Power(256, left) == 256 * q;
      hide Power, FromBigEndian, ToInt, LongLen;
      LongStep(ret, b[p], q);
      LongPart(v, q, FromBigEndian(d[1..]));
      LongLenFound(b, p + 1, v, left - 1, total);
      LongLenNext(b, p, ret, left);
    }
  }

  lemma LongStep(ret: int, x: int, q: int)
    ensures (ret * 256 + x) * q == ret * (256 * q) + x * q
  {
  }

  lemma LongLenNext(b: seq<Byte>, p: nat, ret: nat, left: nat)
    requires 0 < left && p + left <= |b| && ret * 256 + b[p] + left <= |b| - p
    ensures LongLen(b, p, ret, left) == LongLen(b, p + 1, ret * 256 + b[p], left - 1)
  {
  }

  // The long form of a length, read as a number.
  lemma {:induction false} LongLenValue(b: seq<Byte>, p: nat, ret: nat, left: nat)
    requires p + left <= |b| < 0x1_0000_0000 && ret <= |b| && LongLen(b, p, ret, left).value > 0
    ensures LongLen(b, p, ret, left) == Len(ret * Power(256, left) + FromBigEndian(b[p..p + left]), p + left)
    ensures LongLen(b, p, ret, left).value <= |b|
    decreases left
  {
    if left == 0 {
      assert b[p..p] == [];
    } else {
      var v := ret * 256 + b[p];
      LongLenValue(b, p + 1, v, left - 1);
      var d := b[p..p + left];
      assert d[1..] == b[p + 1..p + left];
      FrontValue(d);
      assert Power(256, left) == 256 * Power(256, left - 1);
      hide Power, FromBigEndian, ToInt;
      LongStep(ret, b[p], Power(256, left - 1));
    }
  }

  lemma LengthFound(b: seq<Byte>, p: nat, e: seq<Byte>, n: nat)
    requires DerLength(e, n) && p + |e| + n <= |b| && n < 0x8000_0000 && b[p..p + |e|] == e
    ensures LenAt(b, p) == Len(n, p + |e|)
  {
    assert e[0] == b[p];
    if n >= 128 {
      assert e[1] == b[p + 1] && e[1..] == b[p + 1..p + |e|];
      hide Power, FromBigEndian;
      LongLenFound(b, p + 1, 0, |e| - 1, n);
    }
  }

  lemma LengthRead(b: seq<Byte>, p: nat)
    requires p <= |b| < 0x1_0000_0000 && LenAt(b, p).value > 0
    ensures p < LenAt(b, p).next <= |b| && DerLength(b[p..LenAt(b, p).next], LenAt(b, p).value)
  {
    if b[p] < 0x80 {
      assert b[p..p + 1] == [b[p]];
    } else {
      var left := b[p] - 0x80;
      LongLenValue(b, p + 1, 0, left);
      LongIsLong(b, p + 1, 0, left);
      var e := b[p..p + 1 + left];
      assert e[1..] == b[p + 1..p + 1 + left] && e[0] == b[p] && e[1] == b[p + 1];
    }
  }

  /** A strict signature, spelled out: a sequence of two integers, every length in its one form, no content empty or
      padded, nothing behind the last octet. */
  ghost predicate StrictForm(b: seq<Byte>, h: seq<Byte>, l: seq<Byte>, c: seq<Byte>, m: seq<Byte>, d: seq<Byte>) {
    && |c| > 0 && |d| > 0 && !Padded(c) && !Padded(d)
    && DerLength(h, 2 + |l| + |c| + |m| + |d|) && DerLength(l, |c|) && DerLength(m, |d|)
    && b == [0x30] + h + [2] + l + c + [2] + m + d
  }

  lemma IntegerInForm(b: seq<Byte>, p: nat, l: seq<Byte>, c: seq<Byte>)
    requires |c| > 0 && !Padded(c) && DerLength(l, |c|) && p + 1 + |l| + |c| <= |b| < 0x8000_0000
    requires b[p] == 2 && b[p + 1..p + 1 + |l|] == l && b[p + 1 + |l|..p + 1 + |l| + |c|] == c
    ensures IntegerAt(b, p) == Some(Parsed(ScalarOf(c), p + 1 + |l| + |c|))
  {
    hide ScalarOf, Padded, DerLength, LenAt;
    LengthFound(b, p + 1, l, |c|);
  }

  lemma StrictAccepts(b: seq<Byte>, h: seq<Byte>, l: seq<Byte>, c: seq<Byte>, m: seq<Byte>, d: seq<Byte>)
    requires StrictForm(b, h, l, c, m, d) && |b| < 0x8000_0000
    ensures Signature(b) == Some((ScalarOf(c), ScalarOf(d)))
  {
    hide ScalarOf, Padded, DerLength, LenAt, IntegerAt;
    var p := 1 + |h|;
    var q := p + 1 + |l| + |c|;
    assert b[0] == 0x30 && b[1..p] == h && b[p] == 2 && b[q] == 2;
    assert b[p + 1..p + 1 + |l|] == l && b[p + 1 + |l|..q] == c;
    assert b[q + 1..q + 1 + |m|] == m && b[q + 1 + |m|..q + 1 + |m| + |d|] == d;
    LengthFound(b, 1, h, 2 + |l| + |c| + |m| + |d|);
    IntegerInForm(b, p, l, c);
    IntegerInForm(b, q, m, d);
  }

  // An accepted integer in the same terms.
  lemma IntegerForm(b: seq<Byte>, p: nat) returns (l: seq<Byte>, c: seq<Byte>)
    requires p <= |b| < 0x1_0000_0000 && IntegerAt(b, p).Some?
    ensures var n := IntegerAt(b, p).value.next;
      && c == ContentAt(b, p) && DerLength(l, |c|) && p < n <= |b| && b[p..n] == [2] + l + c
  {
    hide ScalarOf, DerLength;
    LengthRead(b, p + 1);
    var len := LenAt(b, p + 1);
    hide LenAt, Padded;
    l, c := b[p + 1..len.next], b[len.next..len.next + len.value];
    assert b[p..len.next + len.value] == [b[p]] + l + c;
  }

  lemma StrictDecomposes(b: seq<Byte>, r: Scalar, s: Scalar)
    returns (h: seq<Byte>, l: seq<Byte>, c: seq<Byte>, m: seq<Byte>, d: seq<Byte>)
    requires Signature(b) == Some((r, s))
    ensures StrictForm(b, h, l, c, m, d) && r == ScalarOf(c) && s == ScalarOf(d)
  {
    hide IntegerAt, ScalarOf, ContentAt, Padded;
    var p, q := SignatureParts(b, r, s);
    l, c := IntegerForm(b, p);
    m, d := IntegerForm(b, q);
    LengthRead(b, 1);
    hide LenAt, DerLength;
    h := b[1..p];
    JoinForm(b, p, q, l, c, m, d, 0x30, 2);
  }

  lemma JoinForm<T>(b: seq<T>, p: nat, q: nat, l: seq<T>, c: seq<T>, m: seq<T>, d: seq<T>, x: T, y: T)
    requires 1 <= p <= q <= |b| && b[0] == x && b[p..q] == [y] + l + c && b[q..|b|] == [y] + m + d
    ensures b == [x] + b[1..p] + [y] + l + c + [y] + m + d
  {
    var u, v := [x] + b[1..p], [y] + l + c;
    assert b == u + v + ([y] + m + d);
    assert u + v == u + [y] + l + c;
  }

  // What the strict parser takes octets for: a number in range, or zero.
  function NumberOf(c: seq<Byte>): nat {
    if InRange(c) then FromBigEndian(c) else 0
  }

  lemma ScalarCases(c: seq<Byte>)
    requires |c| > 0 && !Padded(c)
    ensures ScalarOf(c) == NumberOf(c)
    ensures c[0] >= 0x80 ==> FromBigEndian(c) > 0
  {
    hide Content, Trim;
    if InRange(c) {
      ContentCanonical(c);
    } else if ScalarOf(c) != 0 {
      NonzeroInRange(c);
    }
    if c[0] >= 0x80 {
      LeadingBit(c);
    }
  }

  lemma LeadingBit(c: seq<Byte>)
    requires |c| > 0 && c[0] >= 0x80
    ensures FromBigEndian(c) > 0
  {
    FrontValue(c);
    DecodeBelow(c[1..]);
    LeadRange(c[0], Power(256, |c| - 1), FromBigEndian(c[1..]));
  }

  ghost predicate Spells(b: seq<Byte>, h: seq<Byte>, l: seq<Byte>, c: seq<Byte>, m: seq<Byte>, d: seq<Byte>, r: Scalar,
      s: Scalar) {
    StrictForm(b, h, l, c, m, d) && r == NumberOf(c) && s == NumberOf(d)
  }

  /** The strict parser on every string below 2 GiB: what it accepts is exactly what has that form, and it returns the
      numbers that the contents stand for, zero for those that are negative or not below the order. */
  lemma StrictIff(b: seq<Byte>, r: Scalar, s: Scalar)
    requires |b| < 0x8000_0000
    ensures Signature(b) == Some((r, s)) <==> exists h, l, c, m, d :: Spells(b, h, l, c, m, d, r, s)
  {
    hide Signature, ScalarOf, NumberOf, Padded, DerLength;
    if Signature(b) == Some((r, s)) {
      var h, l, c, m, d := StrictDecomposes(b, r, s);
      ScalarCases(c);
      ScalarCases(d);
      assert Spells(b, h, l, c, m, d, r, s);
    }
    if exists h, l, c, m, d :: Spells(b, h, l, c, m, d, r, s) {
      var h: seq<Byte>, l: seq<Byte>, c: seq<Byte>, m: seq<Byte>, d: seq<Byte> :| Spells(b, h, l, c, m, d, r, s);
      StrictAccepts(b, h, l, c, m, d);
      ScalarCases(c);
      ScalarCases(d);
    }
  }
}
