/** The permissive signature parser, and its agreement with the strict one. */
module LaxDer {
  import opened Digits
  import opened Secp256k1
  import opened Bytes
  import opened Strauss
  import opened Der

  datatype Length = Length(value: nat, next: nat)

  /** A length in any form: leading zero octets are skipped, the rest must fit a size. */
  function LaxLength(b: seq<Byte>, p: nat): (r: Option<Length>)
    ensures r.Some? ==> r.value.next + r.value.value <= |b|
  {
    if p >= |b| then None
    else if b[p] < 0x80 then Bounded(b, b[p], p + 1)
    else
      var n := b[p] - 0x80;
      if p + 1 + n > |b| then None
      else
        var d := b[p + 1..p + 1 + n];
        var e := d[LeadingZeros(d)..];
        if |e| >= 8 then None else Bounded(b, FromBigEndian(e), p + 1 + n)
  }

  function Bounded(b: seq<Byte>, len: nat, next: nat): (r: Option<Length>)
    requires next <= |b|
    ensures r.Some? ==> r.value.next + r.value.value <= |b|
  {
    if len > |b| - next then None else Some(Length(len, next))
  }

  method ReadLaxLength(b: seq<Byte>, start: nat) returns (ok: bool, len: nat, next: nat)
    requires start <= |b|
    ensures ok <==> LaxLength(b, start).Some?
    ensures ok ==> LaxLength(b, start) == Some(Length(len, next))
  {
    hide FromBigEndian, LeadingZeros;
    ok, len, next := false, 0, start;
    var pos := start;
    if pos == |b| {
      return;
    }
    var lenbyte: nat := b[pos];
    pos := pos + 1;
    if lenbyte >= 0x80 {
      lenbyte := lenbyte - 0x80;
      if pos + lenbyte > |b| {
        return;
      }
      pos, lenbyte := SkipZeros(b, pos, lenbyte);
      if lenbyte >= 8 {
        return;
      }
      len := ReadNumber(b, pos, lenbyte);
      pos := pos + lenbyte;
    } else {
      len := lenbyte;
    }
    if len > |b| - pos {
      return;
    }
    ok, next := true, pos;
  }

  method ReadNumber(b: seq<Byte>, start: nat, count: nat) returns (v: nat)
    requires start + count <= |b|
    ensures v == FromBigEndian(b[start..start + count])
  {
    v := 0;
    assert b[start..start] == [];
    for i := 0 to count
      invariant v == FromBigEndian(b[start..start + i])
    {
      assert b[start..start + i + 1][..i] == b[start..start + i];
      v := v * 256 + b[start + i];
    }
  }

  // The value of content octets as an unsigned number, if it is a scalar.
  function Unsigned(c: seq<Byte>): Option<Scalar> {
    var d := c[LeadingZeros(c)..];
    if |d| > 32 then None
    else
      var v := SetB32(seq(32 - |d|, _ => 0) + d);
      if v.1 then None else Some(v.0)
  }

  method ReadUnsigned(b: seq<Byte>, start: nat, len: nat) returns (v: Option<Scalar>)
    requires start + len <= |b|
    ensures v == Unsigned(b[start..start + len])
  {
    hide SetB32;
    ghost var c := b[start..start + len];
    var p, n := SkipZeros(b, start, len);
    if n > 32 {
      return None;
    }
    var padded: seq<Byte> := seq(32 - n, _ => 0) + b[p..p + n];
    assert padded == seq(32 - n, _ => 0) + c[LeadingZeros(c)..];
    var r := SetB32(padded);
    v := if r.1 then None else Some(r.0);
  }

  function LaxInteger(b: seq<Byte>, p: nat): (r: Option<Length>)
    ensures r.Some? ==> r.value.next + r.value.value <= |b|
  {
    if p >= |b| || b[p] != 2 then None else LaxLength(b, p + 1)
  }

  // The sequence length is skipped without being used.
  function SkipLength(b: seq<Byte>): (p: Option<nat>)
    ensures p.Some? ==> p.value <= |b|
  {
    if |b| < 2 then None
    else if b[1] < 0x80 then Some(2)
    else if 2 + (b[1] - 0x80) > |b| then None else Some(2 + (b[1] - 0x80))
  }

  /** What the permissive parser returns; a scalar out of range turns the whole signature into (0, 0). */
  function LaxSignature(b: seq<Byte>): Option<(Scalar, Scalar)> {
    if |b| == 0 || b[0] != 0x30 then None
    else
      match SkipLength(b)
      case None => None
      case Some(p) =>
        match LaxInteger(b, p)
        case None => None
        case Some(r) =>
          match LaxInteger(b, r.next + r.value)
          case None => None
          case Some(s) => Some(Pair(Unsigned(b[r.next..r.next + r.value]), Unsigned(b[s.next..s.next + s.value])))
  }

  function Pair(r: Option<Scalar>, s: Option<Scalar>): (Scalar, Scalar) {
    if r.Some? && s.Some? then (r.value, s.value) else (0, 0)
  }

  /** ecdsa_signature_parse_der_lax */
  method LaxParse(b: seq<Byte>) returns (ok: bool, r: Scalar, s: Scalar)
    ensures ok <==> LaxSignature(b).Some?
    ensures ok ==> LaxSignature(b) == Some((r, s))
  {
    hide LaxLength, Unsigned;
    ok, r, s := false, 0, 0;
    if |b| == 0 || b[0] != 0x30 {
      return;
    }
    if |b| == 1 {
      return;
    }
    var lenbyte: nat := b[1];
    var pos := 2;
    if lenbyte >= 0x80 {
      lenbyte := lenbyte - 0x80;
      if pos + lenbyte > |b| {
        return;
      }
      pos := pos + lenbyte;
    }
    if pos == |b| || b[pos] != 2 {
      return;
    }
    var good, rlen, rpos := ReadLaxLength(b, pos + 1);
    if !good {
      return;
    }
    pos := rpos + rlen;
    if pos == |b| || b[pos] != 2 {
      return;
    }
    var slen, spos;
    good, slen, spos := ReadLaxLength(b, pos + 1);
    if !good {
      return;
    }
    ok := true;
    var rv := ReadUnsigned(b, rpos, rlen);
    var sv := ReadUnsigned(b, spos, slen);
    if rv.Some? && sv.Some? {
      r, s := rv.value, sv.value;
    }
  }

  /** The permissive parser reads the octets as one unsigned number and refuses nothing but numbers not below the order.
      */
  lemma UnsignedIs(c: seq<Byte>)
    ensures Unsigned(c) == if FromBigEndian(c) < N then Some(FromBigEndian(c)) else None
  {
    hide FromBigEndian, Power, SetB32;
    var d := c[LeadingZeros(c)..];
    StripValue(c);
    WordSizes();
    OrderBounds();
    if FromBigEndian(c) < N {
      StripLength(c);
    }
    if |d| <= 32 {
      PadValue(32 - |d|, d);
      var z: seq<Byte> := seq(32 - |d|, _ => 0);
      SmallResidue(FromBigEndian(z + d));
    }
  }

  lemma SmallResidue(v: nat)
    ensures v < N ==> v % N == v
  {
  }

  /** Wherever the strict parser finds a usable length in a string below 4 GiB, the permissive one finds the same. */
  lemma SameLength(b: seq<Byte>, p: nat)
    requires p <= |b| < 0x1_0000_0000 && LenAt(b, p).value > 0 && LenAt(b, p).next + LenAt(b, p).value <= |b|
    ensures LaxLength(b, p) == Some(Length(LenAt(b, p).value, LenAt(b, p).next))
  {
    if b[p] >= 0x80 {
      var n := b[p] - 0x80;
      LongLenValue(b, p + 1, 0, n);
      var d := b[p + 1..p + 1 + n];
      assert d[0] == b[p + 1] != 0;
      assert LeadingZeros(d) == 0 && d[0..] == d;
      if n == 8 {
        EightOctets(d);
      }
    }
  }

  lemma EightOctets(d: seq<Byte>)
    requires |d| == 8 && d[0] != 0
    ensures FromBigEndian(d) >= 0x100_0000_0000_0000
  {
    FrontValue(d);
    SevenPower();
    DecodeBelow(d[1..]);
    LeadRange(d[0], Power(256, 7), FromBigEndian(d[1..]));
  }

  lemma SevenPower()
    ensures Power(256, 7) == 0x100_0000_0000_0000
  {
    assert Power(256, 3) == 256 * Power(256, 2) && Power(256, 2) == 256 * Power(256, 1)
      && Power(256, 1) == 256 * Power(256, 0);
    assert Power(256, 5) == 256 * Power(256, 4) && Power(256, 7) == 256 * Power(256, 6);
  }

  lemma SameInteger(b: seq<Byte>, p: nat)
    requires p <= |b| < 0x1_0000_0000 && IntegerAt(b, p).Some?
    ensures LaxInteger(b, p).Some?
    ensures var l := LaxInteger(b, p).value;
      l.next + l.value == IntegerAt(b, p).value.next && b[l.next..l.next + l.value] == ContentAt(b, p)
  {
    hide ScalarOf, Padded;
    SameLength(b, p + 1);
    hide LenAt, LaxLength;
  }

  lemma SameStart(b: seq<Byte>)
    requires 1 < |b| < 0x1_0000_0000 && LenAt(b, 1).value > 0 && LenAt(b, 1).next + LenAt(b, 1).value <= |b|
    ensures SkipLength(b) == Some(LenAt(b, 1).next)
  {
    if b[1] >= 0x80 {
      LongLenValue(b, 2, 0, b[1] - 0x80);
    }
  }

  /** On every string that the strict parser accepts the permissive one succeeds and reads the same content octets. */
  lemma LaxOfAccepted(b: seq<Byte>)
    requires Signature(b).Some?
    ensures LaxSignature(b) == Some(Pair(Unsigned(FirstContent(b)), Unsigned(SecondContent(b))))
  {
    hide IntegerAt, LenAt, Unsigned, LaxInteger, SkipLength, ScalarOf, ContentAt, Padded;
    var r, s := Signature(b).value.0, Signature(b).value.1;
    var p, q := SignatureParts(b, r, s);
    NonemptyBody(b, p);
    SameStart(b);
    SameInteger(b, p);
    SameInteger(b, q);
  }

  // An integer needs room.
  lemma NonemptyBody(b: seq<Byte>, p: nat)
    requires p <= |b| && IntegerAt(b, p).Some?
    ensures p < |b|
  {
  }

  // An octet string that the strict parser reads as zero.
  predicate ReadsZero(c: seq<Byte>) {
    !InRange(c) || FromBigEndian(c) == 0
  }

  /** Agreement of the two parsers, exactly.  If both contents are numbers below the order when read without a sign, the
      parsers agree if and only if neither has its top bit set; otherwise, if and only if the strict parser reads zero
      twice. */
  lemma LaxAgreesIff(b: seq<Byte>)
    requires Signature(b).Some?
    ensures LaxSignature(b) == Signature(b) <==>
      (var c, d := FirstContent(b), SecondContent(b);
       if FromBigEndian(c) < N && FromBigEndian(d) < N then c[0] < 0x80 && d[0] < 0x80
         else ReadsZero(c) && ReadsZero(d))
  {
    hide Signature, FirstContent, SecondContent, LaxSignature, FromBigEndian, ScalarOf, Unsigned;
    var c, d := FirstContent(b), SecondContent(b);
    LaxOfAccepted(b);
    UnsignedIs(c);
    UnsignedIs(d);
    ScalarCases(c);
    ScalarCases(d);
    hide Padded;
    assert Signature(b) == Some((ScalarOf(c), ScalarOf(d)));
  }

  /** In particular they agree on every string that is accepted with non-zero scalars, */
  lemma LaxAgrees(b: seq<Byte>, r: Scalar, s: Scalar)
    requires Signature(b) == Some((r, s)) && r != 0 && s != 0
    ensures LaxSignature(b) == Some((r, s))
  {
    hide Signature, FirstContent, SecondContent, LaxSignature, FromBigEndian, ScalarOf, Padded;
    NonzeroInRange(FirstContent(b));
    NonzeroInRange(SecondContent(b));
    LaxAgreesIff(b);
  }

  /** and on every string that the serializer writes. */
  lemma LaxParsesSerialized(r: Scalar, s: Scalar)
    ensures LaxSignature(Serialization(r, s)) == Some((r, s))
  {
    hide Content, Signature, FirstContent, SecondContent, LaxSignature, FromBigEndian, ScalarOf, Padded, Octets,
      Serialization;
    ParseSerialized(r, s);
    CanonicalIff(Serialization(r, s), r, s);
    LaxAgreesIff(Serialization(r, s));
  }

  /** A negative integer below the order is zero to one parser and a number to the other, in either position. */
  lemma LaxDiffersOnNegative(c: seq<Byte>, v: Scalar)
    requires Octets(c) && c[0] >= 0x80 && |c| <= 64 && FromBigEndian(c) < N
    ensures LaxSignature(Wrapped(c, Content(v))) == Some((FromBigEndian(c), v)) != Signature(Wrapped(c, Content(v)))
    ensures LaxSignature(Wrapped(Content(v), c)) == Some((v, FromBigEndian(c))) != Signature(Wrapped(Content(v), c))
  {
    LeadingBit(c);
    hide Content, Signature, FirstContent, SecondContent, LaxSignature, FromBigEndian, ScalarOf, Octets, Unsigned;
    NegativeReadsZero(c, v);
    ContentValue(v);
    ContentOctets(v);
    ParseWrapped(c, Content(v));
    ParseWrapped(Content(v), c);
    LaxOfAccepted(Wrapped(c, Content(v)));
    LaxOfAccepted(Wrapped(Content(v), c));
    UnsignedIs(c);
    UnsignedIs(Content(v));
  }

  /** A number that is not below the order makes the permissive parser drop the other scalar too, in either position. */
  lemma LaxDiffersOnOversized(w: nat, v: Scalar)
    requires N <= w < Pow2(256)
    ensures var c := Oversized(w);
      && LaxSignature(Wrapped(c, Content(v))) == LaxSignature(Wrapped(Content(v), c)) == Some((0, 0))
      && Signature(Wrapped(c, Content(v))) == Some((0, v)) && Signature(Wrapped(Content(v), c)) == Some((v, 0))
  {
    var c := Oversized(w);
    OversizedOctets(w);
    OversizedReadsZero(w, v);
    hide Content, Signature, FirstContent, SecondContent, LaxSignature, FromBigEndian, ScalarOf, Octets, Unsigned,
      Oversized;
    ContentOctets(v);
    ParseWrapped(c, Content(v));
    ParseWrapped(Content(v), c);
    LaxOfAccepted(Wrapped(c, Content(v)));
    LaxOfAccepted(Wrapped(Content(v), c));
    UnsignedIs(c);
  }

  /** Octets that the permissive parser reads as the length n: the short form, or a count of at most 127 octets and the
      number in them, below 256^7 and with any number of leading zeros. */
  ghost predicate LengthOctets(e: seq<Byte>, n: nat) {
    |e| > 0 && if e[0] < 0x80 then e == [n] else |e| == 1 + (e[0] - 0x80) && FromBigEndian(e[1..]) == n < Power(256, 7)
  }

  // Without leading zeros a number fits k octets exactly when it is below 256^k.
  lemma StripBelow(c: seq<Byte>, k: nat)
    ensures |c[LeadingZeros(c)..]| <= k <==> FromBigEndian(c) < Power(256, k)
  {
    hide Power, FromBigEndian, LeadingZeros;
    var d := c[LeadingZeros(c)..];
    StripValue(c);
    DecodeBelow(d);
    if |d| <= k {
      PowerMonotone(|d|, k);
    } else {
      FrontValue(d);
      DecodeBelow(d[1..]);
      PowerMonotone(k, |d| - 1);
      LeadRange(d[0], Power(256, |d| - 1), FromBigEndian(d[1..]));
    }
  }

  lemma LongLaxLength(b: seq<Byte>, p: nat, k: nat, n: nat)
    requires p + 1 + k + n <= |b| && b[p] == 0x80 + k && FromBigEndian(b[p + 1..p + 1 + k]) == n < Power(256, 7)
    ensures LaxLength(b, p) == Some(Length(n, p + 1 + k))
  {
    hide Power, FromBigEndian, LeadingZeros;
    StripBelow(b[p + 1..p + 1 + k], 7);
    StripValue(b[p + 1..p + 1 + k]);
  }

  lemma LaxLengthFound(b: seq<Byte>, p: nat, e: seq<Byte>, n: nat)
    requires LengthOctets(e, n) && p + |e| + n <= |b| && b[p..p + |e|] == e
    ensures LaxLength(b, p) == Some(Length(n, p + |e|))
  {
    hide Power, FromBigEndian, LeadingZeros;
    assert e[0] == b[p];
    if b[p] >= 0x80 {
      hide LaxLength;
      assert e[1..] == b[p + 1..p + |e|];
      LongLaxLength(b, p, b[p] - 0x80, n);
    }
  }

  lemma LaxLengthRead(b: seq<Byte>, p: nat)
    requires LaxLength(b, p).Some?
    ensures var r := LaxLength(b, p).value;
      p < r.next <= |b| && LengthOctets(b[p..r.next], r.value)
  {
    if b[p] < 0x80 {
      assert b[p..p + 1] == [b[p]];
    } else {
      var k := b[p] - 0x80;
      var e := b[p..p + 1 + k];
      assert e[0] == b[p] && e[1..] == b[p + 1..p + 1 + k];
      hide Power, FromBigEndian, LeadingZeros;
      StripBelow(e[1..], 7);
      StripValue(e[1..]);
    }
  }

  // The sequence length: one octet, or a count and as many octets, whatever they are.
  predicate Skippable(h: seq<Byte>) {
    |h| > 0 && if h[0] < 0x80 then |h| == 1 else |h| == 1 + (h[0] - 0x80)
  }

  /** A signature for the permissive parser, spelled out: a sequence of two integers with lengths in any form; the
      length of the sequence is not used, contents may be empty or padded, anything may follow. */
  ghost predicate LaxForm(b: seq<Byte>, h: seq<Byte>, l: seq<Byte>, c: seq<Byte>, m: seq<Byte>, d: seq<Byte>,
      rest: seq<Byte>) {
    && Skippable(h) && LengthOctets(l, |c|) && LengthOctets(m, |d|)
    && b == [0x30] + h + [2] + l + c + [2] + m + d + rest
  }

  // Two contents are read as unsigned numbers, or both as zero when one of them is not below the order.
  ghost predicate UnsignedPair(c: seq<Byte>, d: seq<Byte>, r: nat, s: nat) {
    if FromBigEndian(c) < N && FromBigEndian(d) < N then r == FromBigEndian(c) && s == FromBigEndian(d)
    else r == 0 && s == 0
  }

  lemma PairIs(c: seq<Byte>, d: seq<Byte>, r: Scalar, s: Scalar)
    ensures Pair(Unsigned(c), Unsigned(d)) == (r, s) <==> UnsignedPair(c, d, r, s)
  {
    UnsignedIs(c);
    UnsignedIs(d);
    hide FromBigEndian, Unsigned;
  }

  lemma LaxAccepts(b: seq<Byte>, h: seq<Byte>, l: seq<Byte>, c: seq<Byte>, m: seq<Byte>, d: seq<Byte>, rest: seq<Byte>)
    requires LaxForm(b, h, l, c, m, d, rest)
    ensures LaxSignature(b) == Some(Pair(Unsigned(c), Unsigned(d)))
  {
    hide Unsigned, LengthOctets, LaxLength;
    var p := 1 + |h|;
    var q := p + 1 + |l| + |c|;
    Nonempty(l, |c|);
    Nonempty(m, |d|);
    SplitPieces(h, l, c, m, d, rest, 0x30, 2);
    LaxLengthFound(b, p + 1, l, |c|);
    LaxLengthFound(b, q + 1, m, |d|);
  }

  lemma SplitPieces<T>(h: seq<T>, l: seq<T>, c: seq<T>, m: seq<T>, d: seq<T>, rest: seq<T>, x: T, y: T)
    requires |h| > 0
    ensures var b, p := [x] + h + [y] + l + c + [y] + m + d + rest, 1 + |h|;
      var i := p + 1 + |l|;
      var q := i + |c|;
      var j := q + 1 + |m|;
      && b[0] == x && b[1] == h[0] && b[p] == y && b[q] == y && b[p + 1..i] == l && b[i..q] == c
      && b[q + 1..j] == m && b[j..j + |d|] == d
  {
  }

  lemma Nonempty(e: seq<Byte>, n: nat)
    requires LengthOctets(e, n)
    ensures |e| > 0
  {
  }

  lemma LaxDecomposes(b: seq<Byte>)
    returns (h: seq<Byte>, l: seq<Byte>, c: seq<Byte>, m: seq<Byte>, d: seq<Byte>, rest: seq<Byte>)
    requires LaxSignature(b).Some?
    ensures LaxForm(b, h, l, c, m, d, rest) && LaxSignature(b) == Some(Pair(Unsigned(c), Unsigned(d)))
  {
    hide Unsigned, LaxLength, LengthOctets;
    var p := SkipLength(b).value;
    LaxLengthRead(b, p + 1);
    var r := LaxLength(b, p + 1).value;
    var q := r.next + r.value;
    LaxLengthRead(b, q + 1);
    var s := LaxLength(b, q + 1).value;
    h, l, c, m := b[1..p], b[p + 1..r.next], b[r.next..q], b[q + 1..s.next];
    d, rest := b[s.next..s.next + s.value], b[s.next + s.value..];
    JoinPieces(b, p, r.next, q, s.next, s.next + s.value);
  }

  lemma JoinPieces(b: seq<Byte>, p: nat, i: nat, q: nat, j: nat, e: nat)
    requires 1 <= p < i <= q < j <= e <= |b| && b[0] == 0x30 && b[p] == 2 && b[q] == 2
    ensures b == [0x30] + b[1..p] + [2] + b[p + 1..i] + b[i..q] + [2] + b[q + 1..j] + b[j..e] + b[e..]
  {
    var u := [0x30] + b[1..p] + [2] + b[p + 1..i];
    assert u == b[..i];
    var v := u + b[i..q] + [2];
    assert v == b[..q + 1];
    assert v + b[q + 1..j] + b[j..e] + b[e..] == b;
  }

  ghost predicate LaxSpells(b: seq<Byte>, h: seq<Byte>, l: seq<Byte>, c: seq<Byte>, m: seq<Byte>, d: seq<Byte>,
      rest: seq<Byte>, r: Scalar, s: Scalar) {
    LaxForm(b, h, l, c, m, d, rest) && UnsignedPair(c, d, r, s)
  }

  /** The permissive parser on every string: what it accepts is exactly what has that form, and it returns the two
      unsigned numbers, or zero twice. */
  lemma LaxIff(b: seq<Byte>, r: Scalar, s: Scalar)
    ensures LaxSignature(b) == Some((r, s)) <==> exists h, l, c, m, d, rest :: LaxSpells(b, h, l, c, m, d, rest, r, s)
  {
    hide LaxSignature, Unsigned, UnsignedPair, LaxForm, Pair;
    if LaxSignature(b) == Some((r, s)) {
      var h, l, c, m, d, rest := LaxDecomposes(b);
      PairIs(c, d, r, s);
      assert LaxSpells(b, h, l, c, m, d, rest, r, s);
    }
    if exists h, l, c, m, d, rest :: LaxSpells(b, h, l, c, m, d, rest, r, s) {
      var h: seq<Byte>, l: seq<Byte>, c: seq<Byte>, m: seq<Byte>, d: seq<Byte>, rest: seq<Byte> :|
        LaxSpells(b, h, l, c, m, d, rest, r, s);
      LaxAccepts(b, h, l, c, m, d, rest);
      PairIs(c, d, r, s);
    }
  }
}
