/** `get_raw_bits`, `get_raw_value` and the bits a signal occupies (bridge/dbc/dbc.cc). */
module Extraction {
  import opened Words
  import opened Bits

  /** Where a signal sits in a frame; `start` is `start_bit`. */
  datatype Layout = Layout(start: nat, size: nat, littleEndian: bool)

  /** `flipBitPos`: the same byte, bits counted from the other end. */
  function FlipBitPos(b: nat): nat {
    8 * (b / 8) + 7 - b % 8
  }

  lemma FlipAt(a: nat, b: nat)
    requires b < 8
    ensures FlipBitPos(8 * a + b) == 8 * a + 7 - b && (8 * a + b) / 8 == a && (8 * a + b) % 8 == b
  {
  }

  lemma FlipInvolution(b: nat)
    ensures FlipBitPos(FlipBitPos(b)) == b && FlipBitPos(b) / 8 == b / 8
  {
  }

  /** `updateMsbLsb`. An empty signal at the very front has no last bit: C's division truncates
      there, and `flipBitPos(-1)` is 8. */
  function Lsb(s: Layout): int {
    if s.littleEndian then s.start
    else if FlipBitPos(s.start) + s.size == 0 then 8
    else FlipBitPos(FlipBitPos(s.start) + s.size - 1)
  }

  function Msb(s: Layout): int {
    if s.littleEndian then s.start + s.size - 1 else s.start
  }

  /** The signal has bits. */
  predicate Sized(s: Layout) {
    1 <= s.size
  }

  /** Position of the signal's bit `k`, counting from its most significant: consecutive positions
      for little-endian, consecutive flipped positions for big-endian. */
  function Pos(s: Layout, k: nat): nat
    requires k < s.size
  {
    if s.littleEndian then s.start + s.size - 1 - k else FlipBitPos(FlipBitPos(s.start) + k)
  }

  lemma PosEnds(s: Layout)
    requires Sized(s)
    ensures Pos(s, 0) == Msb(s) && Pos(s, s.size - 1) == Lsb(s)
  {
  }

  /** The two byte orders, bit by bit from the most significant: little-endian down to the start bit; big-endian from
      the start bit down to bit 0 of its byte and on from bit 7 of the next. */
  lemma PosSteps(s: Layout, k: nat)
    requires k + 1 < s.size
    ensures if s.littleEndian then Pos(s, s.size - 1) == s.start && Pos(s, k + 1) == Pos(s, k) - 1
            else Pos(s, 0) == s.start && Pos(s, k + 1) == if Pos(s, k) % 8 > 0 then Pos(s, k) - 1 else Pos(s, k) + 15
  {
    if !s.littleEndian {
      FlipStep(FlipBitPos(s.start) + k);
      FlipInvolution(s.start);
    }
  }

  lemma FlipStep(p: nat)
    ensures var q := FlipBitPos(p); FlipBitPos(p + 1) == if q % 8 > 0 then q - 1 else q + 15
  {
  }

  lemma PosInjective(s: Layout, k: nat, l: nat)
    requires k < s.size && l < s.size && Pos(s, k) == Pos(s, l)
    ensures k == l
  {
    if !s.littleEndian {
      FlipInvolution(FlipBitPos(s.start) + k);
      FlipInvolution(FlipBitPos(s.start) + l);
    }
  }

  /** How many bits of the signal, from the most significant on, a frame of `n` bytes yields:
      none if its first byte is missing, otherwise up to the end of the frame. */
  function Avail(s: Layout, n: nat): (a: nat)
    ensures a <= s.size
  {
    if Msb(s) / 8 >= n then 0
    else if s.littleEndian || 8 * n - FlipBitPos(s.start) >= s.size then s.size
    else 8 * n - FlipBitPos(s.start)
  }

  lemma AvailInFrame(s: Layout, n: nat, k: nat)
    requires k < s.size
    ensures k < Avail(s, n) <==> Msb(s) / 8 < n && Pos(s, k) / 8 < n
  {
  }

  /** The first `c` bits of the signal, read one by one. */
  function Fold(data: seq<byte>, s: Layout, c: nat): nat
    requires c <= Avail(s, |data|)
  {
    if c == 0 then 0
    else
      AvailInFrame(s, |data|, c - 1);
      2 * Fold(data, s, c - 1) + Bit(data, Pos(s, c - 1))
  }

  /** The bit-by-bit reading of a signal. */
  function RawBits(data: seq<byte>, s: Layout): nat
  {
    Fold(data, s, Avail(s, |data|))
  }

  lemma {:induction false} FoldBound(data: seq<byte>, s: Layout, c: nat)
    requires c <= Avail(s, |data|)
    ensures Fold(data, s, c) < Pow2(c)
  {
    if c > 0 {
      FoldBound(data, s, c - 1);
    }
  }

  /** Bit `c - 1 - k` of the reading is the frame's bit at the signal's position `k`. */
  lemma {:induction false} BitOfFold(data: seq<byte>, s: Layout, c: nat, k: nat)
    requires k < c <= Avail(s, |data|)
    ensures Pos(s, k) / 8 < |data| && BitOf(Fold(data, s, c), c - 1 - k) == Bit(data, Pos(s, k))
  {
    AvailInFrame(s, |data|, k);
    AvailInFrame(s, |data|, c - 1);
    BitOfDouble(Fold(data, s, c - 1), Bit(data, Pos(s, c - 1)), c - 1 - k);
    if k < c - 1 {
      BitOfFold(data, s, c - 1, k);
    }
  }

  // ----- one byte at a time -----

  /** The part of byte `i` that belongs to the signal. */
  function HighIn(s: Layout, i: nat): nat
    requires Sized(s)
  {
    if i == Msb(s) / 8 then Msb(s) % 8 else 7
  }

  function LowIn(s: Layout, i: nat): nat
    requires Sized(s)
  {
    if i == Lsb(s) / 8 then Lsb(s) % 8 else 0
  }

  /** After `c` bits the reader is about to take byte `i`, from the top of the signal's part of it. */
  ghost predicate AtByte(s: Layout, c: nat, i: int)
    requires Sized(s)
  {
    c < s.size && 0 <= i && Pos(s, c) == 8 * i + HighIn(s, i)
    && (i == Lsb(s) / 8 ==> HighIn(s, i) - LowIn(s, i) + 1 == s.size - c)
    && (i != Lsb(s) / 8 ==> HighIn(s, i) + 1 < s.size - c)
  }

  /** Taking one byte's bits: they are the next positions downwards in that byte, and then either the
      signal is finished or the reader is at the top of the neighbouring byte. */
  lemma TakeByte(s: Layout, c: nat, i: nat)
    requires Sized(s) && AtByte(s, c, i)
    ensures
      var nbits := HighIn(s, i) - LowIn(s, i) + 1;
      && 1 <= nbits && c + nbits <= s.size
      && (forall k | c <= k < c + nbits :: Pos(s, k) == 8 * i + HighIn(s, i) - (k - c))
      && (c + nbits < s.size ==> AtByte(s, c + nbits, i + if s.littleEndian then -1 else 1))
  {
    PosEnds(s);
    if s.littleEndian {
      TakeByteDown(s, c, i);
    } else {
      TakeByteUp(s, c, i);
    }
  }

  lemma TakeByteDown(s: Layout, c: nat, i: nat)
    requires Sized(s) && AtByte(s, c, i) && s.littleEndian
    ensures
      var nbits := HighIn(s, i) - LowIn(s, i) + 1;
      && 1 <= nbits && c + nbits <= s.size
      && (forall k | c <= k < c + nbits :: Pos(s, k) == 8 * i + HighIn(s, i) - (k - c))
      && (c + nbits < s.size ==> AtByte(s, c + nbits, i - 1))
  {
  }

  lemma TakeByteUp(s: Layout, c: nat, i: nat)
    requires Sized(s) && AtByte(s, c, i) && !s.littleEndian
    ensures
      var nbits := HighIn(s, i) - LowIn(s, i) + 1;
      && 1 <= nbits && c + nbits <= s.size
      && (forall k | c <= k < c + nbits :: Pos(s, k) == 8 * i + HighIn(s, i) - (k - c))
      && (c + nbits < s.size ==> AtByte(s, c + nbits, i + 1))
  {
    var f, high, low := FlipBitPos(s.start), HighIn(s, i), LowIn(s, i);
    FlipInvolution(f + c);
    FlipAt(i, high);
    assert f + c == 8 * i + 7 - high;
    forall k | c <= k < c + high - low + 1 ensures k < s.size && Pos(s, k) == 8 * i + high - (k - c) {
      FlipAt(i, 7 - high + k - c);
    }
    if i != Lsb(s) / 8 {
      var last := f + s.size - 1;
      FlipInvolution(last);
      FlipAt(i + 1, 0);
    }
  }

  lemma FirstByte(s: Layout)
    requires Sized(s)
    ensures AtByte(s, 0, Msb(s) / 8)
  {
    if s.littleEndian {
      FirstByteDown(s);
    } else {
      FirstByteUp(s);
    }
  }

  lemma FirstByteDown(s: Layout)
    requires Sized(s) && s.littleEndian
    ensures AtByte(s, 0, Msb(s) / 8)
  {
  }

  lemma FirstByteUp(s: Layout)
    requires Sized(s) && !s.littleEndian
    ensures AtByte(s, 0, Msb(s) / 8)
  {
    FlipInvolution(s.start);
    FlipAt(s.start / 8, s.start % 8);
    var last := FlipBitPos(s.start) + s.size - 1;
    FlipAt(last / 8, last % 8);
    FlipAt(last / 8, 7 - last % 8);
  }

  lemma FoldStep(data: seq<byte>, s: Layout, d: nat, i: nat, low: nat)
    requires 0 < d <= Avail(s, |data|) && i < |data| && low < 8 && Pos(s, d - 1) == 8 * i + low
    ensures Fold(data, s, d) == 2 * Fold(data, s, d - 1) + BitOf(data[i] as nat, low)
  {
    AvailInFrame(s, |data|, d - 1);
    FlipAt(i, low);
  }

  /** Shifting in one more bit below. */
  lemma ShiftInBit(val: nat, v: nat, low: nat, n: nat)
    requires n > 0
    ensures 2 * (Shl(val, n - 1) + Low(Shr(v, low + 1), n - 1)) + BitOf(v, low) == Shl(val, n) + Low(Shr(v, low), n)
  {
    ShrStep(v, low);
  }

  /** The bits of one byte down to `low`, the signal's `c .. d - 1`, are
      `(byte >> low) & ((1 << (d - c)) - 1)`. */
  lemma {:induction false} FoldByte(data: seq<byte>, s: Layout, c: nat, i: nat, low: nat, d: nat)
    requires c <= d <= Avail(s, |data|) && i < |data| && low + (d - c) <= 8
    requires forall k | c <= k < d :: Pos(s, k) == 8 * i + low + (d - 1 - k)
    ensures Fold(data, s, d) == Shl(Fold(data, s, c), d - c) + Low(Shr(data[i] as nat, low), d - c)
    decreases d
  {
    if c < d {
      FoldByte(data, s, c, i, low + 1, d - 1);
      FoldOneMore(data, s, Fold(data, s, c), i, low, d, d - c);
    }
  }

  lemma FoldOneMore(data: seq<byte>, s: Layout, val: nat, i: nat, low: nat, d: nat, n: nat)
    requires 0 < d <= Avail(s, |data|) && i < |data| && low < 8 && n > 0 && Pos(s, d - 1) == 8 * i + low
    requires Fold(data, s, d - 1) == Shl(val, n - 1) + Low(Shr(data[i] as nat, low + 1), n - 1)
    ensures Fold(data, s, d) == Shl(val, n) + Low(Shr(data[i] as nat, low), n)
  {
    FoldStep(data, s, d, i, low);
    ShiftInBit(val, data[i] as nat, low, n);
  }

  /** `(val << n) | chunk` in a `uint64_t`. */
  function ShiftIn(val: nat, n: nat, chunk: nat): nat {
    Or(Shl(val, n) % TWO64, chunk, Word())
  }

  /** `(b >> low) & ((1ULL << n) - 1)`. */
  function Chunk(b: byte, low: nat, n: nat): nat {
    And(Shr(b as nat, low), Pow2(n) - 1, Word())
  }

  /** The OR puts the chunk into the bits that the shift left free. */
  lemma OrIntoFree(g: nat, n: nat, chunk: nat)
    requires chunk < Pow2(n) && n <= Word() && g < Pow2(Word() - n)
    ensures Or(Shl(g, n), chunk, Word()) == Shl(g, n) + chunk
  {
    ShlBound(g, n, Word() - n);
    OrCommutes(Shl(g, n), chunk, Word());
    OrAbove(chunk, g, n, Word());
  }

  /** What the word keeps of the shift depends on what it kept before. */
  lemma ShlInWord(v: nat, n: nat)
    requires n <= Word()
    ensures Shl(v % TWO64, n) % TWO64 == Shl(Low(v, Word() - n), n)
  {
    WordKeeps(v);
    WordKeeps(Shl(v % TWO64, n));
    LowOfLow(v, Word() - n, Word());
    LowOfShl(v % TWO64, n, 0, Word());
  }

  lemma KeptSum(v: nat, n: nat, chunk: nat)
    requires chunk < Pow2(n) && n <= Word()
    ensures (Shl(v, n) + chunk) % TWO64 == Shl(Low(v, Word() - n), n) + chunk
  {
    var sum := Shl(v, n) + chunk;
    assert Low(sum, Word()) == Shl(Low(v, Word() - n), n) + chunk by {
      LowOfShl(v, n, chunk, Word());
    }
    WordKeeps(sum);
  }

  /** In the 64-bit accumulator, the OR puts the chunk below what the shift left of the bits before. */
  lemma ShiftInKeepsLow(v: nat, n: nat, chunk: nat)
    requires chunk < Pow2(n) && n <= Word()
    ensures ShiftIn(v % TWO64, n, chunk) == (Shl(v, n) + chunk) % TWO64
  {
    var g := Low(v, Word() - n);
    LowBound(v, Word() - n);
    KeptSum(v, n, chunk);
    ShlInWord(v, n);
    OrIntoFree(g, n, chunk);
  }

  lemma ChunkIn(v: nat, b: byte, low: nat, n: nat)
    requires n <= Word()
    ensures ShiftIn(v % TWO64, n, Chunk(b, low, n)) == (Shl(v, n) + Low(Shr(b as nat, low), n)) % TWO64
  {
    AndOnes(Shr(b as nat, low), n, Word());
    LowBound(Shr(b as nat, low), n);
    ShiftInKeepsLow(v, n, Low(Shr(b as nat, low), n));
  }

  /** One iteration of the loop reads exactly the signal's part of byte `i`, its bits `c .. d - 1`. */
  lemma ReadByte(data: seq<byte>, s: Layout, c: nat, i: nat, d: nat)
    requires Sized(s) && c <= Avail(s, |data|) && AtByte(s, c, i) && Msb(s) / 8 < |data| && i < |data|
    requires d - c == HighIn(s, i) - LowIn(s, i) + 1
    ensures c < d <= Avail(s, |data|)
    ensures Fold(data, s, d) % TWO64 ==
              ShiftIn(Fold(data, s, c) % TWO64, d - c, Chunk(data[i], LowIn(s, i), d - c))
    ensures d < s.size ==> AtByte(s, d, i + if s.littleEndian then -1 else 1)
  {
    TakeByte(s, c, i);
    StaysInFrame(s, |data|, d, i);
    FoldChunk(data, s, c, i, HighIn(s, i), d);
  }

  lemma StaysInFrame(s: Layout, n: nat, d: nat, i: nat)
    requires Sized(s) && 0 < d <= s.size && Msb(s) / 8 < n && i < n && Pos(s, d - 1) == 8 * i + LowIn(s, i)
    ensures d <= Avail(s, n)
  {
    FlipAt(i, LowIn(s, i));
    AvailInFrame(s, n, d - 1);
  }

  lemma FoldChunk(data: seq<byte>, s: Layout, c: nat, i: nat, high: nat, d: nat)
    requires Sized(s) && c < d <= Avail(s, |data|) && i < |data| && d - c <= high + 1 && high < 8
    requires forall k | c <= k < d :: Pos(s, k) == 8 * i + high - (k - c)
    ensures Fold(data, s, d) % TWO64 ==
              ShiftIn(Fold(data, s, c) % TWO64, d - c, Chunk(data[i], high + 1 - (d - c), d - c))
  {
    var low := high + 1 - (d - c);
    forall k | c <= k < d ensures Pos(s, k) == 8 * i + low + (d - 1 - k) {
    }
    FoldByte(data, s, c, i, low, d);
    ChunkIn(Fold(data, s, c), data[i], low, d - c);
  }

  /** Where the loop stops short, the rest of the signal is not in the frame. */
  lemma StopsAtEnd(s: Layout, n: nat, c: nat, i: int)
    requires Sized(s) && c <= Avail(s, n) && Msb(s) / 8 < n
    requires c < s.size ==> AtByte(s, c, i) && i >= n
    ensures c == Avail(s, n)
  {
  }

  /** A signal within one byte is that part of the byte; an empty one is 0. */
  lemma FastPath(data: seq<byte>, s: Layout)
    requires (if Msb(s) < 0 then 0 else Msb(s) / 8) == Lsb(s) / 8 < |data|
    ensures RawBits(data, s) == Chunk(data[Lsb(s) / 8], Lsb(s) % 8, s.size) && s.size <= 8
  {
    if s.size == 0 {
      EmptyIsZero(data, s);
    } else {
      OneByte(data, s);
    }
    AndOnes(Shr(data[Lsb(s) / 8] as nat, Lsb(s) % 8), s.size, Word());
  }

  lemma OneByte(data: seq<byte>, s: Layout)
    requires Sized(s) && Msb(s) / 8 == Lsb(s) / 8 < |data|
    ensures RawBits(data, s) == Low(Shr(data[Lsb(s) / 8] as nat, Lsb(s) % 8), s.size) && s.size <= 8
  {
    var i := Lsb(s) / 8;
    FirstByte(s);
    TakeByte(s, 0, i);
    StaysInFrame(s, |data|, s.size, i);
    FoldByte(data, s, 0, i, Lsb(s) % 8, s.size);
    ShlZero(s.size);
  }

  /** A signal that is byte `i` reads that byte. */
  lemma ByteRaw(data: seq<byte>, i: nat)
    requires i < |data|
    ensures RawBits(data, Layout(8 * i, 8, true)) == data[i] as nat
  {
    var s := Layout(8 * i, 8, true);
    assert Msb(s) / 8 == Lsb(s) / 8 == i && Lsb(s) % 8 == 0;
    OneByte(data, s);
    LowId(data[i] as nat, 8) by {
      assert Pow2(4) == 16 && Pow2(8) == 256;
    }
  }

  lemma {:induction false} ShlZero(n: nat)
    ensures Shl(0, n) == 0
  {
    if n > 0 {
      ShlZero(n - 1);
    }
  }

  /** The loop's state: the accumulator has the first `c` bits, and byte `i` is next. */
  ghost predicate ReadTo(data: seq<byte>, s: Layout, val: nat, c: nat, i: int)
    requires Sized(s)
  {
    c <= Avail(s, |data|) && val == Fold(data, s, c) % TWO64 && (c < s.size ==> AtByte(s, c, i))
  }

  lemma ReadNothing(data: seq<byte>, s: Layout)
    requires Sized(s)
    ensures ReadTo(data, s, 0, 0, Msb(s) / 8)
  {
    FirstByte(s);
  }

  lemma ReadAll(data: seq<byte>, s: Layout, val: nat, c: nat, i: int)
    requires Sized(s) && Msb(s) / 8 < |data| && c <= s.size && ReadTo(data, s, val, c, i)
    requires !(0 <= i < |data| && c < s.size)
    ensures val == RawBits(data, s) % TWO64
  {
    StopsAtEnd(s, |data|, c, i);
  }

  /** One round of the loop. */
  method ReadNext(data: seq<byte>, s: Layout, val: nat, ghost c: nat, i: nat) returns (v: nat, nbits: nat)
    requires Sized(s) && Msb(s) / 8 < |data| && i < |data| && c < s.size && ReadTo(data, s, val, c, i)
    ensures 0 < nbits <= s.size - c && ReadTo(data, s, v, c + nbits, i + if s.littleEndian then -1 else 1)
  {
    var msb, lsb := HighIn(s, i), LowIn(s, i);
    nbits := msb - lsb + 1;
    ReadByte(data, s, c, i, c + nbits);
    v := ShiftIn(val, nbits, Chunk(data[i], lsb, nbits));
  }

  /** The loop of `get_raw_bits`; of a signal wider than 64 bits the accumulator keeps the last 64. */
  method GatherBytes(data: seq<byte>, s: Layout) returns (val: nat)
    requires Sized(s) && Msb(s) / 8 < |data|
    ensures val == RawBits(data, s) % TWO64
  {
    val := 0;
    var bits, i := s.size, Msb(s) / 8;
    ghost var c: nat := 0;
    ReadNothing(data, s);
    while 0 <= i < |data| && bits > 0
      invariant bits == s.size - c >= 0 && ReadTo(data, s, val, c, i)
      decreases bits
    {
      var nbits: nat;
      val, nbits := ReadNext(data, s, val, c, i);
      bits, c := bits - nbits, c + nbits;
      i := i + if s.littleEndian then -1 else 1;
    }
    ReadAll(data, s, val, c, i);
  }

  lemma RawBitsFit(data: seq<byte>, s: Layout)
    requires s.size <= 64
    ensures RawBits(data, s) % TWO64 == RawBits(data, s)
  {
    FoldBound(data, s, Avail(s, |data|));
    Pow2Monotone(Avail(s, |data|), Word());
    Pow2Word();
    InWord(RawBits(data, s));
  }

  lemma EmptyIsZero(data: seq<byte>, s: Layout)
    requires s.size == 0 || Msb(s) / 8 >= |data|
    ensures RawBits(data, s) == 0
  {
  }

  /** `get_raw_bits`: fast path and loop give the bit-by-bit reading, up to 64 bits of it. */
  method GetRawBits(data: seq<byte>, s: Layout) returns (val: nat)
    ensures val == RawBits(data, s) % TWO64
    ensures s.size <= 64 ==> val == RawBits(data, s)
  {
    if s.size <= 64 {
      RawBitsFit(data, s);
    }
    var msbByte := if Msb(s) < 0 then 0 else Msb(s) / 8;
    if msbByte >= |data| {
      EmptyIsZero(data, s);
      return 0;
    }
    if msbByte == Lsb(s) / 8 {
      FastPath(data, s);
      return Chunk(data[msbByte], Lsb(s) % 8, s.size);
    }
    if s.size == 0 {
      EmptyIsZero(data, s);
      return 0;
    }
    val := GatherBytes(data, s);
  }
}
