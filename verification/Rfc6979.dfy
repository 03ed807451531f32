/** The deterministic generator of section 3.2 of RFC 6979 over the keyed hash. */
module Rfc6979 {
  import opened Digits
  import opened Bytes
  import opened Sha256

  /** The two chaining values. */
  datatype State = State(k: seq<Byte>, v: seq<Byte>)

  ghost predicate Sized(st: State) {
    |st.k| == 32 && |st.v| == 32
  }

  // K = HMAC(K, V || data), V = HMAC(K, V)
  ghost function Update<S>(c: Compression<S>, st: State, data: seq<Byte>): State {
    var k := Hmac(c, st.k, st.v + data);
    State(k, Hmac(c, k, st.v))
  }

  // Steps b to g.
  ghost function Seeded<S>(c: Compression<S>, seed: seq<Byte>): State {
    var st := State(seq(32, _ => 0), seq(32, _ => 1));
    Update(c, Update(c, st, [0] + seed), [1] + seed)
  }

  /** The chain V, HMAC(K, V), ... after n further steps. */
  ghost function Chain<S>(c: Compression<S>, st: State, n: nat): seq<Byte> {
    if n == 0 then st.v else Hmac(c, st.k, Chain(c, st, n - 1))
  }

  // The octets that n steps put out.
  ghost function Output<S>(c: Compression<S>, st: State, n: nat): seq<Byte> {
    if n == 0 then [] else Output(c, st, n - 1) + Chain(c, st, n)
  }

  function Steps(len: nat): nat {
    (len + 31) / 32
  }

  // A value V, one separating octet and further data.
  ghost predicate Keyed(q: seq<Byte>, v: seq<Byte>, mark: Byte, data: seq<Byte>) {
    |q| == |v| + 1 + |data| && q[..|v|] == v && q[|v|] == mark && q[|v| + 1..] == data
  }

  lemma KeyedIs(q: seq<Byte>, v: seq<Byte>, mark: Byte, data: seq<Byte>)
    requires Keyed(q, v, mark, data)
    ensures q == v + ([mark] + data)
  {
  }

  /** The steps of section 3.2 one by one: b and c start from 32 ones and 32 zeros, d and e mark the seed with 0, f and
      g with 1. */
  lemma SeededIs<S>(c: Compression<S>, seed: seq<Byte>, k: seq<Byte>, v: seq<Byte>, q0: seq<Byte>, q1: seq<Byte>)
    requires |k| == |v| == 32 && forall i :: 0 <= i < 32 ==> k[i] == 0 && v[i] == 1
    requires Keyed(q0, v, 0, seed)
    requires var k1 := Hmac(c, k, q0);
      Keyed(q1, Hmac(c, k1, v), 1, seed)
    ensures var k1 := Hmac(c, k, q0);
      var v1, k2 := Hmac(c, k1, v), Hmac(c, k1, q1);
      Seeded(c, seed) == State(k2, Hmac(c, k2, v1))
  {
    hide Hmac;
    var ones: seq<Byte>, zeros: seq<Byte> := seq(32, _ => 1), seq(32, _ => 0);
    assert v == ones && k == zeros;
    var k1 := Hmac(c, k, q0);
    KeyedIs(q0, v, 0, seed);
    KeyedIs(q1, Hmac(c, k1, v), 1, seed);
  }

  /** Step h, before every request but the first: V with a zero octet is the new key's message. */
  lemma UpdateIs<S>(c: Compression<S>, st: State, q: seq<Byte>)
    requires Keyed(q, st.v, 0, [])
    ensures Update(c, st, [0]) == State(Hmac(c, st.k, q), Hmac(c, Hmac(c, st.k, q), st.v))
  {
    hide Hmac;
    KeyedIs(q, st.v, 0, []);
    assert [0] + [] == [0 as Byte];
  }

  // Every value is the keyed hash of the one before.
  ghost predicate IsChain<S>(c: Compression<S>, st: State, vs: seq<seq<Byte>>) {
    |vs| > 0 && vs[0] == st.v && forall i :: 0 < i < |vs| ==> vs[i] == Hmac(c, st.k, vs[i - 1])
  }

  lemma HmacSize<S(!new)>(c: Compression<S>, key: seq<Byte>, m: seq<Byte>)
    requires IsCompression(c)
    ensures |Hmac(c, key, m)| == 32
  {
    hide Fold;
    var k := BlockKey(c, key);
    assert OutputsDigest(c, Fold(c, Pad(Masked(k, 0x5C) + Hash(c, Masked(k, 0x36) + m))));
  }

  /** The output is the chain without its first value: 32 octets from each later one. */
  lemma {:induction false} OutputIs<S(!new)>(c: Compression<S>, st: State, vs: seq<seq<Byte>>, n: nat)
    requires IsCompression(c) && IsChain(c, st, vs) && n < |vs|
    ensures Chain(c, st, n) == vs[n] && |Output(c, st, n)| == 32 * n
    ensures forall i :: 0 <= i < n ==> Output(c, st, n)[32 * i..32 * i + 32] == vs[i + 1]
  {
    hide Hmac;
    if n > 0 {
      OutputIs(c, st, vs, n - 1);
      assert vs[n] == Hmac(c, st.k, vs[n - 1]);
      HmacSize(c, st.k, vs[n - 1]);
      var o, last := Output(c, st, n - 1), Chain(c, st, n);
      assert Output(c, st, n) == o + last;
      forall i | 0 <= i < n
        ensures (o + last)[32 * i..32 * i + 32] == vs[i + 1]
      {
        if i < n - 1 {
          assert (o + last)[32 * i..32 * i + 32] == o[32 * i..32 * i + 32];
        }
      }
    }
  }

  lemma StepsAre(len: nat, n: nat)
    ensures n == Steps(len) <==> 32 * n - 32 < len <= 32 * n
  {
  }

  // One keyed hash with a fresh authenticator.
  method Mac<S(!new)>(c: Compression<S>, key: seq<Byte>, v: seq<Byte>, data: seq<Byte>) returns (out: seq<Byte>)
    requires IsCompression(c) && |key| == 32 && |v| + |data| < 0x1FFF_FFFF_FFFF_FFC0
    ensures out == Hmac(c, key, v + data) && |out| == 32
  {
    hide Hmac;
    var h := new Authenticator(c, key);
    h.Write(v);
    assert [] + v == v;
    if |data| > 0 {
      h.Write(data);
    }
    assert h.message == v + data;
    out := h.Finalize();
  }

  class Generator<S(!new)> {
    const c: Compression<S>
    var k: seq<Byte>
    var v: seq<Byte>
    var retry: bool

    ghost predicate Valid()
      reads this
    {
      IsCompression(c) && |k| == 32 && |v| == 32
    }

    /** secp256k1_rfc6979_hmac_sha256_initialize */
    constructor (c: Compression<S>, seed: seq<Byte>)
      requires IsCompression(c) && |seed| < 0x1FFF_FFFF_FFFF_0000
      ensures Valid() && State(k, v) == Seeded(c, seed) && !retry && this.c == c
    {
      hide Hmac;
      var vv: seq<Byte>, kk: seq<Byte> := seq(32, _ => 1), seq(32, _ => 0);
      assert vv + [] == vv;
      kk := Mac(c, kk, vv, [0] + seed);
      vv := Mac(c, kk, vv, []);
      assert vv + [] == vv;
      kk := Mac(c, kk, vv, [1] + seed);
      vv := Mac(c, kk, vv, []);
      this.c := c;
      k, v, retry := kk, vv, false;
    }

    /** secp256k1_rfc6979_hmac_sha256_generate: the requested octets of the chain; every call but the first starts with
        the update of step h. */
    method Generate(outlen: nat) returns (out: seq<Byte>)
      requires Valid()
      modifies this`k, this`v, this`retry
      ensures Valid() && retry
      ensures var st := if old(retry) then Update(c, State(old(k), old(v)), [0]) else State(old(k), old(v));
        && |out| == outlen && out <= Output(c, st, Steps(outlen))
        && State(k, v) == State(st.k, Chain(c, st, Steps(outlen)))
    {
      hide Hmac;
      if retry {
        var w := v;
        k := Mac(c, k, w, [0]);
        v := Mac(c, k, w, []);
        assert w + [] == w;
      }
      ghost var st := State(k, v);
      out := [];
      var left, n := outlen, 0;
      while left > 0
        invariant Valid() && k == st.k && v == Chain(c, st, n)
        invariant |out| + left == outlen && (left > 0 ==> |out| == 32 * n) && (left == 0 ==> n == Steps(outlen))
        invariant out <= Output(c, st, n) && (left > 0 ==> out == Output(c, st, n))
      {
        var w := v;
        v := Mac(c, k, w, []);
        assert w + [] == w;
        var now := if left > 32 then 32 else left;
        out := out + v[..now];
        left := left - now;
        n := n + 1;
      }
      retry := true;
    }
  }
}
