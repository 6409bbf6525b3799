/** The integer part of `get_raw_value` (bridge/dbc/dbc.cc): sign extension, and a reference
    encoder that it undoes. */
module SignedValues {
  import opened Words
  import opened Bits
  import opened Extraction

  /** `static_cast<int64_t>` of a 64-bit word. */
  function AsInt64(v: int): int {
    if v < TWO63 then v else v - TWO64
  }

  /** The integer `get_raw_value` scales: the raw bits, sign-extended when the signal is signed. */
  function RawInt(data: seq<byte>, s: Layout, signed: bool): int {
    Interpret(RawBits(data, s) % TWO64, s.size, signed)
  }

  /** `val |= ~((1ULL << size) - 1)` when the top bit is set, then the cast. */
  function Interpret(val: nat, size: nat, signed: bool): int {
    if signed && 1 <= size <= 64 && BitOf(val, size - 1) == 1 then AsInt64(val + TWO64 - Pow2(size)) else AsInt64(val)
  }

  /** The code's shifts are by less than the width of the word: by `size - 1` to test a signed signal's
      top bit, and by `size` to extend it. Otherwise the source leaves the value undefined. */
  predicate ShiftsDefined(val: nat, size: nat, signed: bool) {
    signed ==> 1 <= size <= 64 && (BitOf(val, size - 1) == 1 ==> size < 64)
  }

  /** The range of a signal of `size` bits. */
  predicate InRange(v: int, size: nat, signed: bool)
    requires 1 <= size
  {
    if signed then 0 <= v + Pow2(size - 1) && v < Pow2(size - 1) else 0 <= v < Pow2(size)
  }

  /** The bits a reference encoder stores for `v`: two's complement in `size` bits. */
  function ToBits(v: int, size: nat): int {
    if v < 0 then v + Pow2(size) else v
  }

  lemma {:induction false} TopBit(val: nat, n: nat)
    requires val < Pow2(n + 1)
    ensures BitOf(val, n) == if val < Pow2(n) then 0 else 1
  {
    if n > 0 {
      TopBit(val / 2, n - 1);
    }
  }

  /** Below 64 bits, interpretation is the two's-complement reading: it lands in the signal's range
      and is the one value there that the encoder maps to these bits. */
  lemma InterpretExact(val: nat, size: nat, signed: bool)
    requires 1 <= size <= 63 && val < Pow2(size)
    ensures InRange(Interpret(val, size, signed), size, signed)
    ensures forall v | InRange(v, size, signed) :: ToBits(v, size) == val <==> v == Interpret(val, size, signed)
  {
    TopBit(val, size - 1);
    Pow2Monotone(size, Word() - 1);
    Pow2Word();
  }

  /** An unsigned signal is read as it is up to 63 bits; with 64, if and only if its top bit is clear. */
  lemma UnsignedExact(val: nat, size: nat)
    requires 1 <= size <= 64 && val < Pow2(size)
    ensures Interpret(val, size, false) == val <==> size < 64 || BitOf(val, 63) == 0
  {
    Pow2Monotone(size, Word());
    Pow2Word();
    if size < 64 {
      Pow2Monotone(size, Word() - 1);
    } else {
      TopBit(val, Word() - 1);
    }
  }

  // ----- the code -----

  /** `~((1ULL << size) - 1)` in a 64-bit word. */
  function HighOnes(size: nat): nat
    requires size <= 64
  {
    Shl(Pow2(64 - size) - 1, size)
  }

  lemma {:induction false} OnesShifted(k: nat, n: nat)
    ensures Shl(Pow2(k) - 1, n) == Pow2(k + n) - Pow2(n)
  {
    if n > 0 {
      OnesShifted(k, n - 1);
    }
  }

  lemma HighOnesValue(size: nat)
    requires size <= 64
    ensures HighOnes(size) == TWO64 - Pow2(size)
  {
    OnesShifted(64 - size, size);
    assert 64 - size + size == Word();
    Pow2Word();
  }

  lemma ExtensionAdds(val: nat, size: nat)
    requires size <= 64 && val < Pow2(size)
    ensures Or(val, HighOnes(size), Word()) == val + TWO64 - Pow2(size)
  {
    HighOnesValue(size);
    Pow2Word();
    OrAbove(val, Pow2(64 - size) - 1, size, Word());
  }

  /** `get_raw_value` before scaling: sign extension by OR, then the cast. */
  method GetRawInt(data: seq<byte>, s: Layout, signed: bool) returns (r: int)
    requires ShiftsDefined(RawBits(data, s) % TWO64, s.size, signed)
    ensures r == RawInt(data, s, signed)
  {
    var val := GetRawBits(data, s);
    if signed {
      AndPower(val, s.size - 1, Word());
      if And(val, Pow2(s.size - 1), Word()) != 0 {
        FoldBound(data, s, Avail(s, |data|));
        Pow2Monotone(Avail(s, |data|), s.size);
        ExtensionAdds(val, s.size);
        val := Or(val, HighOnes(s.size), Word());
      }
    }
    r := AsInt64(val);
  }

  // ----- the reference encoder -----

  /** `data` with the signal's first `c` bits replaced by those of `u`. */
  function Encode(data: seq<byte>, s: Layout, u: nat, c: nat): (d: seq<byte>)
    requires Sized(s) && c <= Avail(s, |data|)
    ensures |d| == |data|
  {
    if c == 0 then data
    else
      AvailInFrame(s, |data|, c - 1);
      SetBit(Encode(data, s, u, c - 1), Pos(s, c - 1), BitOf(u, s.size - c))
  }

  lemma BitOfEncodeStep(data: seq<byte>, s: Layout, u: nat, c: nat, p: nat)
    requires Sized(s) && 0 < c <= Avail(s, |data|) && p / 8 < |data|
    ensures Bit(Encode(data, s, u, c), p) ==
              if p == Pos(s, c - 1) then BitOf(u, s.size - c) else Bit(Encode(data, s, u, c - 1), p)
  {
    AvailInFrame(s, |data|, c - 1);
    BitOfSetBit(Encode(data, s, u, c - 1), Pos(s, c - 1), BitOf(u, s.size - c), p);
  }

  lemma {:induction false} BitOfEncode(data: seq<byte>, s: Layout, u: nat, c: nat, k: nat)
    requires Sized(s) && k < c <= Avail(s, |data|)
    ensures Pos(s, k) / 8 < |data| && Bit(Encode(data, s, u, c), Pos(s, k)) == BitOf(u, s.size - 1 - k)
  {
    AvailInFrame(s, |data|, k);
    BitOfEncodeStep(data, s, u, c, Pos(s, k));
    if k < c - 1 {
      BitOfEncode(data, s, u, c - 1, k);
      if Pos(s, c - 1) == Pos(s, k) {
        PosInjective(s, k, c - 1);
      }
    }
  }

  lemma {:induction false} BitBesideEncode(data: seq<byte>, s: Layout, u: nat, c: nat, p: nat)
    requires Sized(s) && c <= Avail(s, |data|) && p / 8 < |data|
    requires forall k | 0 <= k < c :: Pos(s, k) != p
    ensures Bit(Encode(data, s, u, c), p) == Bit(data, p)
  {
    if c > 0 {
      BitOfEncodeStep(data, s, u, c, p);
      BitBesideEncode(data, s, u, c - 1, p);
    }
  }

  /** Raw bits read back what was encoded. */
  lemma RawRoundTrip(data: seq<byte>, s: Layout, u: nat)
    requires Sized(s) && Avail(s, |data|) == s.size && u < Pow2(s.size)
    ensures RawBits(Encode(data, s, u, s.size), s) == u
  {
    var d := Encode(data, s, u, s.size);
    FoldBound(d, s, s.size);
    forall b: nat | b < s.size ensures BitOf(RawBits(d, s), b) == BitOf(u, b) {
      var k := s.size - 1 - b;
      BitOfFold(d, s, s.size, k);
      BitOfEncode(data, s, u, s.size, k);
    }
    SameBits(RawBits(d, s), u, s.size);
  }

  lemma BitsDecode(size: nat, signed: bool, v: int)
    requires 1 <= size <= 63 && InRange(v, size, signed)
    ensures 0 <= ToBits(v, size) < Pow2(size) && Interpret(ToBits(v, size), size, signed) == v
  {
    assert Pow2(size) == 2 * Pow2(size - 1);
    InterpretExact(ToBits(v, size), size, signed);
  }

  /** Decoding undoes encoding: any value in a signal's range, written into any frame that holds the
      signal, in either byte order, is read back. */
  lemma SignedRoundTrip(data: seq<byte>, s: Layout, signed: bool, v: int)
    requires 1 <= s.size <= 63 && Avail(s, |data|) == s.size && InRange(v, s.size, signed)
    ensures 0 <= ToBits(v, s.size) && RawInt(Encode(data, s, ToBits(v, s.size), s.size), s, signed) == v
  {
    BitsDecode(s.size, signed, v);
    RawRoundTrip(data, s, ToBits(v, s.size));
    RawBitsFit(Encode(data, s, ToBits(v, s.size), s.size), s);
  }

  lemma {:induction false} FoldElsewhere(f: seq<byte>, g: seq<byte>, t: Layout, c: nat)
    requires Sized(t) && |f| == |g| && c <= Avail(t, |f|)
    requires forall k | 0 <= k < c :: Pos(t, k) / 8 < |f| ==> Bit(f, Pos(t, k)) == Bit(g, Pos(t, k))
    ensures Fold(f, t, c) == Fold(g, t, c)
  {
    if c > 0 {
      FoldElsewhere(f, g, t, c - 1);
      AvailInFrame(t, |f|, c - 1);
    }
  }

  /** Writing one signal changes no other signal whose bits are disjoint from it. */
  lemma EncodingInterferesNot(data: seq<byte>, s: Layout, u: nat, t: Layout, signed: bool)
    requires Sized(s) && Sized(t) && Avail(s, |data|) == s.size
    requires forall k, l | 0 <= k < s.size && 0 <= l < t.size :: Pos(s, k) != Pos(t, l)
    ensures RawInt(Encode(data, s, u, s.size), t, signed) == RawInt(data, t, signed)
  {
    var d := Encode(data, s, u, s.size);
    forall l | 0 <= l < Avail(t, |data|) ensures Pos(t, l) / 8 < |data| && Bit(d, Pos(t, l)) == Bit(data, Pos(t, l)) {
      AvailInFrame(t, |data|, l);
      BitBesideEncode(data, s, u, s.size, Pos(t, l));
    }
    FoldElsewhere(d, data, t, Avail(t, |data|));
  }
}
