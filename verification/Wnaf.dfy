/** The sliding-window recoding of variable-time multiplication. */
module Wnaf {
  import opened Digits
  import opened Secp256k1

  /** The integer the digits stand for: a itself, or a - N when its top bit is set. */
  function Centered(a: Scalar): int {
    if Bits(a, 255, 1) == 1 then a - N else a
  }

  ghost predicate OddOrZero(d: int, bound: int) {
    d == 0 || (d % 2 == 1 && -bound < d < bound)
  }

  /** Non-zero digits are at least w positions apart. */
  ghost predicate Sparse(ds: seq<int>, w: nat) {
    forall i, j :: 0 <= i < j < |ds| && ds[i] != 0 && ds[j] != 0 ==> j - i >= w
  }

  lemma {:induction false} ValueZeroTail(ds: seq<int>, i: nat, j: nat)
    requires i <= j <= |ds| && forall k :: i <= k < j ==> ds[k] == 0
    ensures Value(ds[..j], 2) == Value(ds[..i], 2)
  {
    if i < j {
      ValueZeroTail(ds, i, j - 1);
      assert ds[..j] == ds[..j - 1] + [0];
      ValueAppend(ds[..j - 1], 0, 2);
    }
  }

  lemma {:induction false} PowerTwo(n: nat)
    ensures Power(2, n) == Pow2(n)
  {
    if n > 0 { PowerTwo(n - 1); }
  }

  // One digit d at position i, zeros up to j.
  lemma ValueOneDigit(ds: seq<int>, i: nat, j: nat)
    requires i < j <= |ds| && forall k :: i < k < j ==> ds[k] == 0
    ensures Value(ds[..j], 2) == Value(ds[..i], 2) + ds[i] * Pow2(i)
  {
    ValueZeroTail(ds, i + 1, j);
    assert ds[..i + 1] == ds[..i] + [ds[i]];
    ValueAppend(ds[..i], ds[i], 2);
    PowerTwo(i);
  }

  // The magnitude that is recoded fits in 255 bits.
  lemma CenteredBound(a: Scalar)
    ensures -Pow2(255) < Centered(a) < Pow2(255)
    ensures Bits(a, 255, 1) == 1 <==> a >= Pow2(255)
  {
    Pow2Values();
    DivModEq(a, Pow2(255));
    assert Pow2(1) == 2;
    var q := a / Pow2(255);
    assert 0 <= q <= 1;
  }

  // Arithmetic of one skipped position: the bit equals the pending carry.
  lemma SkipStep(s: nat, bit: nat, carry: int)
    requires Bits(s, bit, 1) == carry
    ensures s % Pow2(bit + 1) - carry * Pow2(bit + 1) == s % Pow2(bit) - carry * Pow2(bit)
  {
    ModSplit(s, bit, 1);
  }

  lemma WindowAlgebra(b: int, carry: int, next: int, p: int, m: int)
    ensures (b + carry - next * p) * m == b * m + carry * m - next * (m * p)
  {
    assert (next * p) * m == next * (m * p);
  }

  // Arithmetic of one window: the word absorbs the carry and may emit a new one.
  lemma WindowStep(s: nat, bit: nat, now: nat, w: nat, carry: int, word: int, next: int)
    requires word == Bits(s, bit, now) + carry - next * Pow2(w) && (now == w || next == 0)
    ensures s % Pow2(bit + now) - next * Pow2(bit + now) == s % Pow2(bit) - carry * Pow2(bit) + word * Pow2(bit)
  {
    ModSplit(s, bit, now);
    Pow2Add(bit, now);
    WindowAlgebra(Bits(s, bit, now), carry, next, Pow2(now), Pow2(bit));
    assert next * Pow2(w) == next * Pow2(now);
  }

  // A number and its residue modulo an even number have the same parity.
  lemma ParityOfResidue(q: int, k: int, h: int, r: int)
    requires q == k * (2 * h) + r
    ensures q % 2 == r % 2
  {
    assert k * (2 * h) == 2 * (k * h);
  }

  // A window that starts on a bit different from the carry holds an odd word.
  lemma WindowParity(s: nat, bit: nat, now: nat)
    requires now >= 1
    ensures Bits(s, bit, now) % 2 == Bits(s, bit, 1) && 0 <= Bits(s, bit, 1) <= 1
  {
    var q := s / Pow2(bit);
    assert Pow2(1) == 2;
    DivModEq(q, Pow2(now));
    ParityOfResidue(q, q / Pow2(now), Pow2(now - 1), q % Pow2(now));
  }

  lemma WindowBelow(s: int, a: int, q: int, r: int, b: int, k: int, d: int, c: int)
    requires s == q * a + r && r >= 0 && a > 0 && q == k * b + d && k >= 0 && b > 0 && d >= c
    ensures s >= c * a
  {
    MulNonneg(k, b);
    MulNonneg(q - c, a);
    assert (q - c) * a == q * a - c * a;
  }

  // A window holding at least 2^k puts s at or above that power of two.
  lemma BitsLower(s: nat, offset: nat, count: nat, k: nat)
    requires Bits(s, offset, count) >= Pow2(k)
    ensures s >= Pow2(offset + k)
  {
    var a, b := Pow2(offset), Pow2(count);
    var q, r := s / a, s % a;
    DivModEq(s, a);
    var t, d := q / b, q % b;
    DivModEq(q, b);
    Pow2Add(offset, k);
    WindowBelow(s, a, q, r, b, t, d, Pow2(k));
  }

  // The top bit of a word below 2h, and what is left after the carry is taken out.
  lemma TopBit(raw: int, h: int, next: int)
    requires h > 0 && h % 2 == 0 && 0 < raw < 2 * h && raw % 2 == 1 && next == raw / h % 2
    ensures next == (if raw >= h then 1 else 0) && -h < raw - next * (2 * h) < h && (raw - next * (2 * h)) % 2 == 1
  {
    if raw >= h {
      DivModUnique(raw, h, 1, raw - h);
    } else {
      DivModUnique(raw, h, 0, raw);
    }
  }

  // A window that starts on a bit different from the carry makes an odd word below 2^w.
  lemma RawRange(s: nat, bit: nat, now: nat, w: nat, carry: int, raw: int)
    requires 1 <= now <= w && w >= 2 && 0 <= carry <= 1 && Bits(s, bit, 1) != carry && raw == Bits(s, bit, now) + carry
    ensures raw % 2 == 1 && 0 < raw < 2 * Pow2(w - 1) && Pow2(w - 1) % 2 == 0
    ensures Bits(s, bit, now) >= 0 && (raw >= Pow2(w - 1) ==> now == w && Bits(s, bit, now) >= Pow2(w - 1))
  {
    WindowParity(s, bit, now);
    ModSplit(s, bit, now);
    var h, b := Pow2(w - 1), Bits(s, bit, now);
    assert Pow2(w) == 2 * h && h == 2 * Pow2(w - 2);
    Pow2Monotone(now, w);
    if now < w { Pow2Monotone(now, w - 1); }
    WordRange(b, carry, h, Pow2(w - 2), Pow2(now), raw);
  }

  lemma WordRange(b: int, carry: int, h: int, h2: int, p: int, raw: int)
    requires 0 <= carry <= 1 && raw == b + carry && raw % 2 == 1 && 0 <= b < p <= 2 * h && h == 2 * h2 && h2 > 0
    ensures 0 < raw < 2 * h && h % 2 == 0
    ensures raw >= h ==> b >= h
    ensures p <= h ==> raw < h
  {
  }

  /** Facts about one recoding step, gathered so that the loop below stays short. */
  lemma Window(s: nat, bit: nat, now: nat, w: nat, carry: int, next: int, word: int)
    requires 1 <= now <= w && w >= 2 && 0 <= carry <= 1 && Bits(s, bit, 1) != carry && Bits(s, bit, now) >= 0
    requires word == Bits(s, bit, now) + carry - next * Pow2(w) && 0 <= next <= 1
    requires next == 1 ==> now == w && Bits(s, bit, now) >= Pow2(w - 1)
    ensures s % Pow2(bit + now) - next * Pow2(bit + now) == s % Pow2(bit) - carry * Pow2(bit) + word * Pow2(bit)
    ensures next == 1 ==> s >= Pow2(bit + now - 1)
    ensures carry == 0 ==> s >= Pow2(bit)
  {
    WindowStep(s, bit, now, w, carry, word, next);
    if next == 1 {
      BitsLower(s, bit, now, w - 1);
    }
    if carry == 0 {
      ModSplit(s, bit, 1);
      BitsLower(s, bit, 1, 0);
    }
  }

  // What the digits written so far stand for, and how far carry and top digit can reach.
  ghost predicate Progress(ds: seq<int>, s: nat, sign: int, carry: int, bit: nat, last: int) {
    && bit <= |ds| && 0 <= carry <= 1 && -1 <= last < bit
    && Value(ds[..bit], 2) == sign * (s % Pow2(bit) - carry * Pow2(bit))
    && (forall k :: last < k < |ds| ==> ds[k] == 0)
    && (last >= 0 ==> ds[last] != 0)
    && (last >= 1 ==> s >= Pow2(last - 1))
    && (carry == 1 ==> bit >= 1 && s >= Pow2(bit - 1))
  }

  ghost predicate Shape(ds: seq<int>, w: nat, bit: nat)
    requires w >= 1
  {
    && (forall k :: 0 <= k < |ds| ==> OddOrZero(ds[k], Pow2(w - 1)))
    && Sparse(ds, w)
    && (forall k :: 0 <= k < bit && k < |ds| && ds[k] != 0 ==> bit - k >= w || bit == |ds|)
  }

  lemma Skip(ds: seq<int>, s: nat, sign: int, carry: int, bit: nat, last: int)
    requires Progress(ds, s, sign, carry, bit, last) && bit < |ds| && Bits(s, bit, 1) == carry
    ensures Progress(ds, s, sign, carry, bit + 1, last)
  {
    SkipStep(s, bit, carry);
    ValueZeroTail(ds, bit, bit + 1);
    if carry == 1 {
      BitsLower(s, bit, 1, 0);
    }
  }

  lemma Step(ds: seq<int>, s: nat, sign: int, carry: int, bit: nat, last: int, now: nat, word: int, next: int)
    requires Progress(ds, s, sign, carry, bit, last) && bit + now <= |ds| && 1 <= now && 0 <= next <= 1
    requires (sign == 1 || sign == -1) && word != 0
    requires s % Pow2(bit + now) - next * Pow2(bit + now) == s % Pow2(bit) - carry * Pow2(bit) + word * Pow2(bit)
    requires next == 1 ==> s >= Pow2(bit + now - 1)
    requires carry == 0 ==> s >= Pow2(bit)
    ensures Progress(ds[bit := sign * word], s, sign, next, bit + now, bit)
  {
    var es := ds[bit := sign * word];
    assert es[..bit] == ds[..bit];
    ValueOneDigit(es, bit, bit + now);
    SignAlgebra(sign, s % Pow2(bit) - carry * Pow2(bit), word, Pow2(bit));
    if carry == 0 && bit >= 1 { Pow2Monotone(bit - 1, bit); }
  }

  lemma SignAlgebra(sign: int, v: int, word: int, p: int)
    ensures sign * v + sign * word * p == sign * (v + word * p)
  {
    assert sign * word * p == sign * (word * p);
  }

  lemma ShapeStep(ds: seq<int>, bit: nat, d: int, now: nat, w: nat)
    requires w >= 2 && now >= 1 && bit + now <= |ds| && Shape(ds, w, bit) && OddOrZero(d, Pow2(w - 1))
    requires forall k :: bit <= k < |ds| ==> ds[k] == 0
    requires now == w || bit + now == |ds|
    ensures Shape(ds[bit := d], w, bit + now)
  {
  }

  // One window of the recoding: the signed word and the carry into the next window.
  method NextWord(s: nat, bit: nat, now: nat, w: nat, carry: int) returns (word: int, next: int)
    requires 1 <= now <= w && w >= 2 && 0 <= carry <= 1 && Bits(s, bit, 1) != carry
    ensures 0 <= next <= 1 && word % 2 == 1 && -Pow2(w - 1) < word < Pow2(w - 1)
    ensures s % Pow2(bit + now) - next * Pow2(bit + now) == s % Pow2(bit) - carry * Pow2(bit) + word * Pow2(bit)
    ensures next == 1 ==> now == w && s >= Pow2(bit + now - 1)
    ensures carry == 0 ==> s >= Pow2(bit)
  {
    var raw, h := Bits(s, bit, now) + carry, Pow2(w - 1);
    RawRange(s, bit, now, w, carry, raw);
    next := TakeTopBit(raw, h);
    word := raw - next * Pow2(w);
    Window(s, bit, now, w, carry, next, word);
  }

  method TakeTopBit(raw: int, h: int) returns (next: int)
    requires h > 0 && h % 2 == 0 && 0 < raw < 2 * h && raw % 2 == 1
    ensures next == (if raw >= h then 1 else 0) && -h < raw - next * (2 * h) < h && (raw - next * (2 * h)) % 2 == 1
  {
    next := raw / h % 2;
    TopBit(raw, h, next);
  }

  lemma Negated(sign: int, word: int, h: int)
    requires (sign == 1 || sign == -1) && word % 2 == 1 && -h < word < h
    ensures OddOrZero(sign * word, h) && sign * word != 0
  {
  }

  /** What a recoding of v with window w promises about its digits and the returned length. */
  ghost predicate Encodes(ds: seq<int>, v: int, w: nat, bits: nat)
    requires w >= 1
  {
    && (forall k :: 0 <= k < |ds| ==> OddOrZero(ds[k], Pow2(w - 1)))
    && Sparse(ds, w)
    && bits <= |ds| && (forall k :: bits <= k < |ds| ==> ds[k] == 0) && (bits > 0 ==> ds[bits - 1] != 0)
    // the digits stand for v whenever it fits below the top position
    && (|ds| > 0 && -Pow2(|ds| - 1) < v < Pow2(|ds| - 1) ==> Value(ds, 2) == v)
    // at most one position more than the magnitude has bits
    && (bits >= 2 ==> v >= Pow2(bits - 2) || -v >= Pow2(bits - 2))
  }

  lemma Finish(ds: seq<int>, v: int, s: nat, sign: int, carry: int, last: int, w: nat)
    requires w >= 2 && Progress(ds, s, sign, carry, |ds|, last) && Shape(ds, w, |ds|)
    requires (sign == 1 || sign == -1) && v == sign * s
    ensures Encodes(ds, v, w, last + 1)
  {
    assert ds == ds[..|ds|];
    if |ds| > 0 && s < Pow2(|ds| - 1) {
      Pow2Monotone(|ds| - 1, |ds|);
      DivModUnique(s, Pow2(|ds|), 0, s);
    }
  }

  lemma Empty(ds: seq<int>, s: nat, sign: int, w: nat)
    requires w >= 1 && forall k :: 0 <= k < |ds| ==> ds[k] == 0
    ensures Progress(ds, s, sign, 0, 0, -1) && Shape(ds, w, 0)
  {
    assert Pow2(0) == 1 && ds[..0] == [];
  }

  // Negate a scalar with its top bit set, so that the magnitude has at most 255 bits.
  method Center(a: Scalar) returns (s: int, sign: int)
    ensures 0 <= s < N && (sign == 1 || sign == -1) && Centered(a) == sign * s
  {
    s, sign := a, 1;
    if Bits(a, 255, 1) == 1 {
      CenteredBound(a);
      s, sign := Negate(a), -1;
    }
  }

  // The body of the loop below at a position whose bit differs from the carry.
  method EmitDigit(wnaf: array<int>, s: nat, sign: int, carry: int, bit: nat, ghost last: int, w: nat)
    returns (now: nat, next: int)
    requires Progress(wnaf[..], s, sign, carry, bit, last) && w >= 2 && Shape(wnaf[..], w, bit)
    requires (sign == 1 || sign == -1) && bit < wnaf.Length && Bits(s, bit, 1) != carry
    modifies wnaf
    ensures now >= 1 && bit + now <= wnaf.Length
    ensures Progress(wnaf[..], s, sign, next, bit + now, bit) && Shape(wnaf[..], w, bit + now)
  {
    now := if w > wnaf.Length - bit then wnaf.Length - bit else w;
    var word;
    word, next := NextWord(s, bit, now, w, carry);
    Negated(sign, word, Pow2(w - 1));
    Step(wnaf[..], s, sign, carry, bit, last, now, word, next);
    ShapeStep(wnaf[..], bit, sign * word, now, w);
    ghost var es := wnaf[..][bit := sign * word];
    wnaf[bit] := sign * word;
    assert wnaf[..] == es;
  }

  /** secp256k1_ecmult_wnaf: overwrite wnaf with the signed digits of a, return one more than the top position. */
  method EcmultWnaf(wnaf: array<int>, a: Scalar, w: nat) returns (bits: nat)
    requires wnaf.Length <= 256 && 2 <= w <= 31
    modifies wnaf
    ensures Encodes(wnaf[..], Centered(a), w, bits)
  {
    var len := wnaf.Length;
    for k := 0 to len
      invariant forall i :: 0 <= i < k ==> wnaf[i] == 0
    {
      wnaf[k] := 0;
    }
    var s, sign := Center(a);
    var last, bit, carry := -1, 0, 0;
    Empty(wnaf[..], s, sign, w);
    while bit < len
      invariant 0 <= bit <= len
      invariant Progress(wnaf[..], s, sign, carry, bit, last)
      invariant Shape(wnaf[..], w, bit)
    {
      if Bits(s, bit, 1) == carry {
        Skip(wnaf[..], s, sign, carry, bit, last);
        bit := bit + 1;
        continue;
      }
      var now, next := EmitDigit(wnaf, s, sign, carry, bit, last, w);
      carry := next;
      last := bit;
      bit := bit + now;
    }
    Finish(wnaf[..], Centered(a), s, sign, carry, last, w);
    return last + 1;
  }

  /** At full length every scalar is represented: no carry is ever left over. */
  lemma FullLengthExact(ds: seq<int>, a: Scalar, w: nat, bits: nat)
    requires w >= 1 && |ds| == 256 && Encodes(ds, Centered(a), w, bits)
    ensures Value(ds, 2) == Centered(a) && (Centered(a) - a) % N == 0
  {
    CenteredBound(a);
  }
}
