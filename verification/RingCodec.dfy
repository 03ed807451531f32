/** The byte layout of a membership proof: 33-byte points, then 32-byte scalars.  The first response of every
    digit is not sent; the verifier recomputes it from the others and the challenge. */
module RingCodec {
  import opened AbelianGroup
  import opened Digits
  import opened Secp256k1
  import opened Bytes
  import opened Strauss
  import opened ScalarElement
  import opened RingAlgebra
  import opened RingSpec

  /** Points to and from 33 bytes, as the curve code does it. */
  datatype Codec<!P> = Codec(save: P -> seq<Byte>, load: seq<Byte> -> P)

  // Infinity has an encoding of its own but is never loaded.
  ghost predicate Saves<P>(g: Group<P>, c: Codec<P>, p: P) {
    && |c.save(p)| == 33
    && (p != g.zero ==> c.load(c.save(p)) == p && c.save(p) != c.save(g.zero))
  }

  ghost predicate Loads<P>(g: Group<P>, c: Codec<P>, b: seq<Byte>) {
    c.load(b) != g.zero
  }

  ghost predicate IsCodec<P(!new)>(g: Group<P>, c: Codec<P>) {
    && (forall p {:trigger Saves(g, c, p)} :: Saves(g, c, p))
    && (forall b {:trigger Loads(g, c, b)} :: Loads(g, c, b))
  }

  /** Comparing encodings compares points. */
  lemma SaveInjective<P(!new)>(g: Group<P>, c: Codec<P>, p: P, q: P)
    requires IsCodec(g, c)
    ensures c.save(p) == c.save(q) <==> p == q
  {
    assert Saves(g, c, p) && Saves(g, c, q);
  }

  ghost function PointBytes<P>(c: Codec<P>, ps: seq<P>): seq<Byte> {
    if |ps| == 0 then [] else PointBytes(c, ps[..|ps| - 1]) + c.save(ps[|ps| - 1])
  }

  lemma PointBytesAppend<P>(c: Codec<P>, ps: seq<P>, p: P)
    ensures PointBytes(c, ps + [p]) == PointBytes(c, ps) + c.save(p)
  {
    assert (ps + [p])[..|ps|] == ps;
  }

  lemma {:induction false} PointBytesAt<P(!new)>(g: Group<P>, c: Codec<P>, ps: seq<P>, i: nat)
    requires IsCodec(g, c)
    ensures |PointBytes(c, ps)| == 33 * |ps|
    ensures i < |ps| ==> PointBytes(c, ps)[33 * i..33 * i + 33] == c.save(ps[i])
    decreases |ps|
  {
    if |ps| > 0 {
      var k := |ps| - 1;
      assert Saves(g, c, ps[k]);
      PointBytesAt(g, c, ps[..k], i);
      if i < k {
        var b := PointBytes(c, ps[..k]);
        assert (b + c.save(ps[k]))[33 * i..33 * i + 33] == b[33 * i..33 * i + 33];
      }
    }
  }

  function ScalarBytes(ss: seq<Scalar>): (b: seq<Byte>)
    ensures |b| == 32 * |ss|
  {
    if |ss| == 0 then [] else ScalarBytes(ss[..|ss| - 1]) + GetB32(ss[|ss| - 1])
  }

  lemma ScalarBytesAppend(ss: seq<Scalar>, s: Scalar)
    ensures ScalarBytes(ss + [s]) == ScalarBytes(ss) + GetB32(s)
  {
    assert (ss + [s])[..|ss|] == ss;
  }

  /** Read count scalars; any that is not canonical rejects the whole string. */
  function ReadScalars(b: seq<Byte>, count: nat): (r: Option<seq<Scalar>>)
    requires |b| >= 32 * count
    ensures r.Some? ==> |r.value| == count
  {
    if count == 0 then Some([])
    else
      var rest := ReadScalars(b[..32 * (count - 1)], count - 1);
      var last := SetB32(b[32 * (count - 1)..32 * count]);
      if rest.None? || last.1 then None else Some(rest.value + [last.0])
  }

  lemma ReadLast(front: seq<Byte>, last: seq<Byte>, k: nat, ss: seq<Scalar>, s: Scalar)
    requires |front| == 32 * k && |last| == 32 && ReadScalars(front, k) == Some(ss) && SetB32(last) == (s, false)
    ensures ReadScalars(front + last, k + 1) == Some(ss + [s])
  {
    hide SetB32;
    var b := front + last;
    assert b[..32 * k] == front && b[32 * k..32 * k + 32] == last;
  }

  lemma {:induction false} ReadWritten(ss: seq<Scalar>)
    ensures ReadScalars(ScalarBytes(ss), |ss|) == Some(ss)
  {
    hide SetB32, GetB32;
    if |ss| > 0 {
      var k := |ss| - 1;
      ReadWritten(ss[..k]);
      ScalarRoundTrip(ss[k]);
      var front := ScalarBytes(ss[..k]);
      assert ScalarBytes(ss) == front + GetB32(ss[k]) && ss[..k] + [ss[k]] == ss;
      hide ReadScalars, ScalarBytes;
      ReadLast(front, GetB32(ss[k]), k, ss[..k], ss[k]);
    } else {
      assert ScalarBytes(ss) == [];
    }
  }

  /** Only the serialization of what was read is accepted: scalars have one encoding. */
  lemma {:induction false} WrittenIsRead(b: seq<Byte>, count: nat)
    requires |b| == 32 * count && ReadScalars(b, count).Some?
    ensures ScalarBytes(ReadScalars(b, count).value) == b
  {
    if count > 0 {
      WrittenIsRead(b[..32 * (count - 1)], count - 1);
      ScalarBytesUnique(b[32 * (count - 1)..32 * count]);
      ScalarBytesAppend(ReadScalars(b[..32 * (count - 1)], count - 1).value, SetB32(b[32 * (count - 1)..32 * count]).0);
    }
  }

  // The responses that are sent: every row without its first entry.
  function Tail(f: seq<Scalar>, n: nat, m: nat): (t: seq<Scalar>)
    requires n > 0 && |f| >= m * n
    ensures |t| == m * (n - 1)
  {
    if m == 0 then [] else
      Index(m - 1, 0, n, m);
      Tail(f, n, m - 1) + f[(m - 1) * n + 1..(m - 1) * n + n]
  }

  function Sum(s: seq<Scalar>): Scalar {
    if |s| == 0 then 0 else AddS(Sum(s[..|s| - 1]), s[|s| - 1])
  }

  // The first response of a row from the others.
  function FirstOf(row: seq<Scalar>, x: Scalar): Scalar {
    AddS(Negate(Sum(row)), x)
  }

  function Rebuild(t: seq<Scalar>, n: nat, m: nat, x: Scalar): (f: seq<Scalar>)
    requires n > 0 && |t| >= m * (n - 1)
    ensures |f| == m * n
  {
    if m == 0 then [] else
      TailIndex(m - 1, n);
      var row := t[(m - 1) * (n - 1)..m * (n - 1)];
      Rebuild(t, n, m - 1, x) + [FirstOf(row, x)] + row
  }

  lemma TailIndex(j: nat, n: nat)
    requires n > 0
    ensures 0 <= j * (n - 1) && (j + 1) * (n - 1) == j * (n - 1) + n - 1 && (j + 1) * n == j * n + n && 0 <= j * n
  {
    MulNonneg(j, n - 1);
    MulNonneg(j, n);
  }

  ghost predicate RowFirst(f: seq<Scalar>, n: nat, x: Scalar, j: nat)
    requires n > 0
  {
    0 <= j * n && j * n + n <= |f| && f[j * n] == FirstOf(f[j * n + 1..j * n + n], x)
  }

  /** Nothing is lost by leaving the first responses out. */
  lemma {:induction false} RebuildTail(f: seq<Scalar>, t: seq<Scalar>, n: nat, m: nat, x: Scalar)
    requires n > 0 && |f| >= m * n && |t| >= m * (n - 1) && t[..m * (n - 1)] == Tail(f, n, m)
    requires forall j :: 0 <= j < m ==> RowFirst(f, n, x, j)
    ensures Rebuild(t, n, m, x) == f[..m * n]
  {
    if m > 0 {
      var j := m - 1;
      TailIndex(j, n);
      var p, q, e := j * n, j * (n - 1), m * (n - 1);
      hide Rebuild, FirstOf, Tail, RowFirst;
      TailStep(f, n, m, p, q, e);
      Prefixes(t, Tail(f, n, j), f[p + 1..p + n], q, e);
      RebuildTail(f, t, n, j, x);
      assert RowFirst(f, n, x, j);
      RebuildRow(f, t, n, m, x, p, q, e);
    }
  }

  // The last row of what is sent, and of what is rebuilt.
  lemma TailStep(f: seq<Scalar>, n: nat, m: nat, p: nat, q: nat, e: nat)
    requires n > 0 && m > 0 && |f| >= m * n && p == (m - 1) * n && m * n == p + n
    requires q == (m - 1) * (n - 1) && e == m * (n - 1) == q + n - 1
    ensures Tail(f, n, m) == Tail(f, n, m - 1) + f[p + 1..p + n] && |Tail(f, n, m - 1)| == q
  {
  }

  lemma RebuildRow(f: seq<Scalar>, t: seq<Scalar>, n: nat, m: nat, x: Scalar, p: nat, q: nat, e: nat)
    requires n > 0 && m > 0 && p == (m - 1) * n && m * n == p + n <= |f|
    requires q == (m - 1) * (n - 1) && e == m * (n - 1) == q + n - 1 && e <= |t|
    requires Rebuild(t, n, m - 1, x) == f[..p] && t[q..e] == f[p + 1..p + n] && RowFirst(f, n, x, m - 1)
    ensures Rebuild(t, n, m, x) == f[..m * n]
  {
    hide FirstOf;
    RebuildStep(t, n, m, x, q, e);
    JoinRow(f, Rebuild(t, n, m - 1, x), t[q..e], x, p, n);
  }

  lemma RebuildStep(t: seq<Scalar>, n: nat, m: nat, x: Scalar, q: nat, e: nat)
    requires n > 0 && m > 0 && q == (m - 1) * (n - 1) && e == m * (n - 1) == q + n - 1 && e <= |t|
    ensures Rebuild(t, n, m, x) == Rebuild(t, n, m - 1, x) + [FirstOf(t[q..e], x)] + t[q..e]
  {
  }

  lemma Prefixes<T>(t: seq<T>, u: seq<T>, row: seq<T>, p: nat, q: nat)
    requires |u| == p <= q <= |t| && t[..q] == u + row
    ensures t[..p] == u && t[p..q] == row
  {
    assert t[..p] == t[..q][..p] && t[p..q] == t[..q][p..];
  }

  // A row whose first entry is recomputed continues the rows before it.
  lemma JoinRow(f: seq<Scalar>, head: seq<Scalar>, row: seq<Scalar>, x: Scalar, p: nat, n: nat)
    requires n > 0 && p + n <= |f| && head == f[..p] && row == f[p + 1..p + n] && f[p] == FirstOf(row, x)
    ensures head + [FirstOf(row, x)] + row == f[..p + n]
  {
    hide FirstOf;
  }

  ghost function Points<P>(tr: Transcript<P>): (ps: seq<P>)
    ensures |ps| == 4 + |tr.Q|
  {
    [tr.A, tr.B, tr.C, tr.D] + tr.Q
  }

  function Scalars<P>(tr: Transcript<P>, n: nat, m: nat): (ss: seq<Scalar>)
    requires n > 0 && |tr.f| == m * n
    ensures |ss| == m * (n - 1) + 2 + |tr.z|
  {
    Tail(tr.f, n, m) + [tr.zA, tr.zC] + tr.z
  }

  ghost function Encode<P>(c: Codec<P>, tr: Transcript<P>, n: nat, m: nat): seq<Byte>
    requires n > 0 && |tr.f| == m * n
  {
    PointBytes(c, Points(tr)) + ScalarBytes(Scalars(tr, n, m))
  }

  /** secp256k1_zero_mcom_get_size and its per-topic variant: k is the number of openings sent. */
  function ProofSize(n: nat, m: nat, k: nat): (size: int)
    requires n > 0
    ensures size >= 33 * (4 + m)
  {
    MulNonneg(m, n - 1);
    33 * (4 + m) + 32 * (2 + k + m * (n - 1))
  }

  lemma EncodeSize<P(!new)>(g: Group<P>, c: Codec<P>, tr: Transcript<P>, n: nat, m: nat)
    requires IsCodec(g, c) && n > 0 && |tr.f| == m * n && |tr.Q| == m
    ensures |Encode(c, tr, n, m)| == ProofSize(n, m, |tr.z|)
  {
    PointBytesAt(g, c, Points(tr), 0);
  }

  lemma {:induction false} ScalarBytesAt(ss: seq<Scalar>, k: nat)
    requires k < |ss|
    ensures ScalarBytes(ss)[32 * k..32 * k + 32] == GetB32(ss[k])
  {
    hide GetB32;
    var l := |ss| - 1;
    if k < l {
      ScalarBytesAt(ss[..l], k);
      var b := ScalarBytes(ss[..l]);
      assert (b + GetB32(ss[l]))[32 * k..32 * k + 32] == b[32 * k..32 * k + 32];
    }
  }

  lemma TailPlace(j: nat, i: nat, n: nat, m: nat)
    requires j < m && 1 <= i < n
    ensures 0 <= j * (n - 1) + i - 1 < m * (n - 1) && 0 <= j * n + i < m * n
    ensures j < m - 1 ==> j * (n - 1) + i - 1 < (m - 1) * (n - 1)
  {
    Index(j, i, n, m);
    Index(j, i - 1, n - 1, m);
    if j < m - 1 {
      Index(j, i - 1, n - 1, m - 1);
    }
  }

  // Where a response is sent: row by row, without the first of each.
  lemma {:induction false} TailAt(f: seq<Scalar>, n: nat, m: nat, j: nat, i: nat)
    requires n > 0 && |f| >= m * n && j < m && 1 <= i < n
    ensures 0 <= j * (n - 1) + i - 1 < m * (n - 1) && 0 <= j * n + i < m * n
    ensures Tail(f, n, m)[j * (n - 1) + i - 1] == f[j * n + i]
  {
    var k := m - 1;
    TailPlace(j, i, n, m);
    Index(k, 0, n, m);
    var front, row := Tail(f, n, k), f[k * n + 1..k * n + n];
    assert Tail(f, n, m) == front + row;
    if j < k {
      TailAt(f, n, k, j, i);
    } else {
      assert (front + row)[|front| + (i - 1)] == row[i - 1] == f[k * n + i];
    }
  }

  // The 33 octets at place i.
  function Piece(b: seq<Byte>, i: nat): (p: seq<Byte>)
    requires 33 * i + 33 <= |b|
    ensures |p| == 33
  {
    b[33 * i..33 * i + 33]
  }

  lemma PiecePlaced<P(!new)>(g: Group<P>, c: Codec<P>, tr: Transcript<P>, n: nat, m: nat, i: nat)
    requires IsCodec(g, c) && n > 0 && |tr.f| == m * n && |tr.Q| == m && i < 4 + m
    ensures 33 * i + 33 <= |Encode(c, tr, n, m)| && Piece(Encode(c, tr, n, m), i) == c.save(Points(tr)[i])
  {
    hide IsCodec, ScalarBytes, PointBytes, Scalars;
    var ps := PointBytes(c, Points(tr));
    PointBytesAt(g, c, Points(tr), i);
    assert (ps + ScalarBytes(Scalars(tr, n, m)))[33 * i..33 * i + 33] == ps[33 * i..33 * i + 33];
  }

  /** The layout of a proof: four points, one point for every digit, ... */
  lemma PointsPlaced<P(!new)>(g: Group<P>, c: Codec<P>, tr: Transcript<P>, n: nat, m: nat, j: nat)
    requires IsCodec(g, c) && n > 0 && |tr.f| == m * n && |tr.Q| == m && j < m
    ensures |Encode(c, tr, n, m)| == ProofSize(n, m, |tr.z|)
    ensures var b := Encode(c, tr, n, m);
      && Piece(b, 0) == c.save(tr.A) && Piece(b, 1) == c.save(tr.B) && Piece(b, 2) == c.save(tr.C)
      && Piece(b, 3) == c.save(tr.D) && Piece(b, 4 + j) == c.save(tr.Q[j])
  {
    EncodeSize(g, c, tr, n, m);
    hide IsCodec, Encode, Piece, ProofSize;
    PiecePlaced(g, c, tr, n, m, 0);
    PiecePlaced(g, c, tr, n, m, 1);
    PiecePlaced(g, c, tr, n, m, 2);
    PiecePlaced(g, c, tr, n, m, 3);
    PiecePlaced(g, c, tr, n, m, 4 + j);
  }

  /** ... the responses of every digit but the first of each, the two blinding responses and the openings. */
  lemma ScalarsPlaced<P(!new)>(g: Group<P>, c: Codec<P>, tr: Transcript<P>, n: nat, m: nat, j: nat, i: nat, k: nat)
    requires IsCodec(g, c) && n > 0 && |tr.f| == m * n && |tr.Q| == m && j < m && 1 <= i < n && k < |tr.z|
    ensures |Encode(c, tr, n, m)| == ProofSize(n, m, |tr.z|)
    ensures var s, e := Encode(c, tr, n, m)[33 * (4 + m)..], m * (n - 1);
      && 0 <= j * (n - 1) + i - 1 < e && 0 <= j * n + i < m * n && |s| == 32 * (e + 2 + |tr.z|)
      && s[32 * (j * (n - 1) + i - 1)..32 * (j * (n - 1) + i - 1) + 32] == GetB32(tr.f[j * n + i])
      && s[32 * e..32 * e + 32] == GetB32(tr.zA) && s[32 * (e + 1)..32 * (e + 1) + 32] == GetB32(tr.zC)
      && s[32 * (e + 2 + k)..32 * (e + 2 + k) + 32] == GetB32(tr.z[k])
  {
    hide IsCodec, ScalarBytes, PointBytes, GetB32, Tail;
    TailAt(tr.f, n, m, j, i);
    EncodeSize(g, c, tr, n, m);
    var ss, e := Scalars(tr, n, m), m * (n - 1);
    PointBytesAt(g, c, Points(tr), 0);
    assert Encode(c, tr, n, m)[33 * (4 + m)..] == ScalarBytes(ss);
    ScalarBytesAt(ss, j * (n - 1) + i - 1);
    ScalarBytesAt(ss, e);
    ScalarBytesAt(ss, e + 1);
    ScalarBytesAt(ss, e + 2 + k);
  }

  function PointAt<P>(c: Codec<P>, b: seq<Byte>, i: nat): P
    requires |b| >= 33 * i + 33
  {
    c.load(b[33 * i..33 * i + 33])
  }

  function PointsFrom<P>(c: Codec<P>, b: seq<Byte>, from: nat, count: nat): (ps: seq<P>)
    requires |b| >= 33 * (from + count)
    ensures |ps| == count && forall j :: 0 <= j < count ==> ps[j] == PointAt(c, b, from + j)
  {
    seq(count, j requires 0 <= j < count => PointAt(c, b, from + j))
  }

  function Assemble<P>(c: Codec<P>, b: seq<Byte>, ss: seq<Scalar>, n: nat, m: nat, k: nat,
      x: Scalar): (tr: Transcript<P>)
    requires n > 0 && |b| >= 33 * (4 + m) && |ss| == m * (n - 1) + 2 + k
    ensures |tr.Q| == m && |tr.f| == m * n && |tr.z| == k
  {
    MulNonneg(m, n - 1);
    var e := m * (n - 1);
    Transcript(PointAt(c, b, 0), PointAt(c, b, 1), PointAt(c, b, 2), PointAt(c, b, 3), PointsFrom(c, b, 4, m),
      Rebuild(ss, n, m, x), ss[e], ss[e + 1], ss[e + 2..])
  }

  /** What the verifier reads from a proof under challenge x. */
  function Decode<P>(c: Codec<P>, b: seq<Byte>, n: nat, m: nat, k: nat, x: Scalar): (r: Option<Transcript<P>>)
    requires n > 0 && |b| == ProofSize(n, m, k)
    ensures r.Some? ==> |r.value.Q| == m && |r.value.f| == m * n && |r.value.z| == k
  {
    MulNonneg(m, n - 1);
    match ReadScalars(b[33 * (4 + m)..], m * (n - 1) + 2 + k)
    case None => None
    case Some(ss) => Some(Assemble(c, b, ss, n, m, k, x))
  }

  ghost predicate FinitePoints<P>(g: Group<P>, ps: seq<P>) {
    forall i :: 0 <= i < |ps| ==> ps[i] != g.zero
  }

  lemma LoadSaved<P(!new)>(g: Group<P>, c: Codec<P>, b: seq<Byte>, ps: seq<P>, i: nat)
    requires IsCodec(g, c) && FinitePoints(g, ps) && |b| >= 33 * |ps| && b[..33 * |ps|] == PointBytes(c, ps) && i < |ps|
    ensures PointAt(c, b, i) == ps[i]
  {
    PointBytesAt(g, c, ps, i);
    assert b[33 * i..33 * i + 33] == b[..33 * |ps|][33 * i..33 * i + 33];
    assert Saves(g, c, ps[i]);
  }

  /** A proof of finite points whose rows of responses add up to the challenge reads back as it was written. */
  lemma DecodeEncode<P(!new)>(g: Group<P>, c: Codec<P>, tr: Transcript<P>, n: nat, m: nat, x: Scalar)
    requires IsCodec(g, c) && n > 0 && |tr.f| == m * n && |tr.Q| == m && FinitePoints(g, Points(tr))
    requires forall j :: 0 <= j < m ==> RowFirst(tr.f, n, x, j)
    ensures |Encode(c, tr, n, m)| == ProofSize(n, m, |tr.z|)
    ensures Decode(c, Encode(c, tr, n, m), n, m, |tr.z|, x) == Some(tr)
  {
    hide Rebuild, RowFirst, ReadScalars, Assemble, Tail, IsCodec;
    var ps, ss, b := Points(tr), Scalars(tr, n, m), Encode(c, tr, n, m);
    EncodeSize(g, c, tr, n, m);
    MulNonneg(m, n - 1);
    PointBytesAt(g, c, ps, 0);
    assert b[..33 * |ps|] == PointBytes(c, ps) && b[33 * |ps|..] == ScalarBytes(ss);
    ReadWritten(ss);
    AssembleWritten(g, c, b, tr, n, m, x);
  }

  lemma AssembleWritten<P(!new)>(g: Group<P>, c: Codec<P>, b: seq<Byte>, tr: Transcript<P>, n: nat, m: nat, x: Scalar)
    requires IsCodec(g, c) && n > 0 && |tr.f| == m * n && |tr.Q| == m && FinitePoints(g, Points(tr))
    requires forall j :: 0 <= j < m ==> RowFirst(tr.f, n, x, j)
    requires |b| >= 33 * (4 + m) && b[..33 * (4 + m)] == PointBytes(c, Points(tr))
    ensures Assemble(c, b, Scalars(tr, n, m), n, m, |tr.z|, x) == tr
  {
    hide PointAt, IsCodec, RowFirst, Rebuild, PointBytes;
    var ps, ss := Points(tr), Scalars(tr, n, m);
    MulNonneg(m, n - 1);
    forall i | 0 <= i < |ps|
      ensures PointAt(c, b, i) == ps[i]
    {
      LoadSaved(g, c, b, ps, i);
    }
    RebuildTail(tr.f, ss, n, m, x);
    assert tr.f[..m * n] == tr.f;
    assert PointsFrom(c, b, 4, m) == tr.Q;
    assert ss[m * (n - 1) + 2..] == tr.z;
  }
}
