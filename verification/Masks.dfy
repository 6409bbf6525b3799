/** `Msg::mask` (bridge/dbc/dbc.cc) is exact: it marks the bits some signal of the message reads. */
module Masks {
  import opened Words
  import opened Bits
  import opened Extraction

  /** Position `p` is one of the bits the signal yields from an `n`-byte frame. */
  ghost predicate Occupies(s: Layout, n: nat, p: nat) {
    Sized(s) && exists k :: 0 <= k < Avail(s, n) && Pos(s, k) == p
  }

  /** The mask marks exactly the positions of the signals. */
  ghost predicate IsMaskOf(mask: seq<byte>, sigs: seq<Layout>) {
    forall p: nat | p / 8 < |mask| :: Bit(mask, p) == 1 <==> exists s :: s in sigs && Occupies(s, |mask|, p)
  }

  /** The signal's first `c` bits. */
  ghost predicate Among(s: Layout, c: nat, p: nat)
    requires c <= s.size
  {
    exists k :: 0 <= k < c && Pos(s, k) == p
  }

  /** `mask[i] |= ((1ULL << sz) - 1) << shift`. */
  function OrRun(mask: seq<byte>, i: nat, shift: nat, sz: nat): (m: seq<byte>)
    requires i < |mask|
    ensures |m| == |mask|
  {
    var v := Or(mask[i] as nat, Shl(Pow2(sz) - 1, shift), 8);
    OrBound(mask[i] as nat, Shl(Pow2(sz) - 1, shift), 8);
    assert Pow2(8) == 256;
    mask[i := v as byte]
  }

  lemma BitOfOrRun(mask: seq<byte>, i: nat, shift: nat, sz: nat, p: nat)
    requires i < |mask| && p / 8 < |mask|
    ensures Bit(OrRun(mask, i, shift, sz), p) == 1 <==>
              Bit(mask, p) == 1 || (p / 8 == i && shift <= p % 8 < shift + sz)
  {
    BitOfOr(mask[i] as nat, Shl(Pow2(sz) - 1, shift), 8, p % 8);
    BitOfRun(sz, shift, p % 8);
  }

  /** The positions taken from byte `i` are a run of its bits. */
  lemma AmongByte(s: Layout, c: nat, i: nat, high: nat, d: nat, p: nat)
    requires c <= d <= s.size && d - c <= high + 1 && high < 8
    requires forall k | c <= k < d :: Pos(s, k) == 8 * i + high - (k - c)
    ensures Among(s, d, p) <==> Among(s, c, p) || (p / 8 == i && high + 1 - (d - c) <= p % 8 <= high)
  {
    if p / 8 == i && high + 1 - (d - c) <= p % 8 <= high {
      assert Pos(s, c + high - p % 8) == p;
    }
    if k :| 0 <= k < c && Pos(s, k) == p {
      assert 0 <= k < d && Pos(s, k) == p;
    }
    if k :| c <= k < d && Pos(s, k) == p {
      FlipAt(i, high - (k - c));
    }
  }

  ghost predicate Marked(mask: seq<byte>, m: seq<byte>, s: Layout, c: nat)
    requires c <= s.size
  {
    && |m| == |mask|
    && forall p: nat | p / 8 < |mask| :: Bit(m, p) == 1 <==> Bit(mask, p) == 1 || Among(s, c, p)
  }

  /** One iteration marks exactly the signal's bits `c .. d - 1`. */
  lemma MarkByte(mask: seq<byte>, m: seq<byte>, s: Layout, c: nat, i: nat, d: nat)
    requires Sized(s) && AtByte(s, c, i) && i < |mask| && Marked(mask, m, s, c)
    requires d - c == HighIn(s, i) - LowIn(s, i) + 1
    requires if c == 0 then i == Msb(s) / 8 else Msb(s) / 8 < |mask|
    ensures c < d <= Avail(s, |mask|) && Msb(s) / 8 < |mask|
    ensures Marked(mask, OrRun(m, i, LowIn(s, i), d - c), s, d)
    ensures d < s.size ==> AtByte(s, d, i + if s.littleEndian then -1 else 1)
  {
    TakeByte(s, c, i);
    StaysInFrame(s, |mask|, d, i);
    forall p: nat | p / 8 < |mask|
      ensures Bit(OrRun(m, i, LowIn(s, i), d - c), p) == 1 <==> Bit(mask, p) == 1 || Among(s, d, p)
    {
      BitOfOrRun(m, i, LowIn(s, i), d - c, p);
      AmongByte(s, c, i, HighIn(s, i), d, p);
    }
  }

  /** The run the loop ORs into byte `i`: `lsb` and `msb` there, as offsets in the message. */
  function RunLow(s: Layout, i: int): int {
    if Lsb(s) / 8 == i then Lsb(s) else i * 8
  }

  function RunHigh(s: Layout, i: int): int {
    if Msb(s) / 8 == i then Msb(s) else (i + 1) * 8 - 1
  }

  lemma RunIsByte(s: Layout, i: nat)
    requires Sized(s)
    ensures RunLow(s, i) - i * 8 == LowIn(s, i) && RunHigh(s, i) - i * 8 == HighIn(s, i)
  {
  }

  /** The loop's state: the first `c` bits are marked, and byte `i` is the next to mark. */
  ghost predicate MarkedTo(mask: seq<byte>, m: seq<byte>, s: Layout, c: int, i: int)
    requires Sized(s)
  {
    && 0 <= c <= s.size && Marked(mask, m, s, c)
    && (if c == 0 then i == Msb(s) / 8 else Msb(s) / 8 < |mask| && c <= Avail(s, |mask|))
    && (c < s.size ==> AtByte(s, c, i))
  }

  /** One round of the loop. */
  method MarkRound(ghost mask: seq<byte>, m: seq<byte>, s: Layout, ghost c: nat, i: nat) returns (r: seq<byte>, sz: nat)
    requires Sized(s) && c < s.size && i < |mask| && MarkedTo(mask, m, s, c, i)
    ensures |r| == |mask| && 0 < sz <= s.size - c && MarkedTo(mask, r, s, c + sz, i + if s.littleEndian then -1 else 1)
  {
    var lsb, msb := RunLow(s, i), RunHigh(s, i);
    RunIsByte(s, i);
    TakeByte(s, c, i);
    sz := msb - lsb + 1;
    MarkByte(mask, m, s, c, i, c + sz);
    r := OrRun(m, i, lsb - i * 8, sz);
  }

  /** Where the loop ends, the signal's marked bits are the ones it occupies. */
  lemma MarkedAll(mask: seq<byte>, m: seq<byte>, s: Layout, c: nat, i: int)
    requires Sized(s) && MarkedTo(mask, m, s, c, i) && !(0 <= i < |mask| && c < s.size)
    ensures forall p: nat | p / 8 < |mask| :: Bit(m, p) == 1 <==> Bit(mask, p) == 1 || Occupies(s, |mask|, p)
  {
  }

  /** The mask loop of `Msg::update` for one signal: a second traversal of the same bytes. */
  method MarkSignal(mask: seq<byte>, s: Layout) returns (m: seq<byte>)
    ensures |m| == |mask|
    ensures forall p: nat | p / 8 < |mask| :: Bit(m, p) == 1 <==> Bit(mask, p) == 1 || Occupies(s, |mask|, p)
  {
    m := mask;
    var i, bits := Msb(s) / 8, s.size;
    if bits == 0 {
      return;
    }
    FirstByte(s);
    while 0 <= i < |mask| && bits > 0
      invariant |m| == |mask| && 0 <= bits <= s.size && MarkedTo(mask, m, s, s.size - bits, i)
      decreases bits
    {
      var sz: nat;
      m, sz := MarkRound(mask, m, s, s.size - bits, i);
      bits := bits - sz;
      i := i + if s.littleEndian then -1 else 1;
    }
    MarkedAll(mask, m, s, s.size - bits, i);
  }

  lemma BlankIsMask(size: nat)
    ensures IsMaskOf(seq(size, _ => 0), [])
  {
    forall p: nat | p / 8 < size ensures Bit(seq(size, _ => 0), p) == 0 {
      ShrZero(p % 8);
    }
  }

  lemma MaskGrows(mask: seq<byte>, m: seq<byte>, sigs: seq<Layout>, s: Layout)
    requires IsMaskOf(mask, sigs) && |m| == |mask|
    requires forall p: nat | p / 8 < |mask| :: Bit(m, p) == 1 <==> Bit(mask, p) == 1 || Occupies(s, |mask|, p)
    ensures IsMaskOf(m, sigs + [s])
  {
  }

  /** The mask of one signal more. */
  method MarkNext(mask: seq<byte>, s: Layout, ghost sigs: seq<Layout>, ghost next: seq<Layout>) returns (m: seq<byte>)
    requires IsMaskOf(mask, sigs) && next == sigs + [s]
    ensures |m| == |mask| && IsMaskOf(m, next)
  {
    m := MarkSignal(mask, s);
    MaskGrows(mask, m, sigs, s);
  }

  // ----- the mask is exact -----

  lemma {:induction false} FoldSame(f: seq<byte>, g: seq<byte>, s: Layout, c: nat)
    requires Sized(s) && |f| == |g| && c <= Avail(s, |f|)
    requires forall p: nat | p / 8 < |f| && Occupies(s, |f|, p) :: Bit(f, p) == Bit(g, p)
    ensures Fold(f, s, c) == Fold(g, s, c)
  {
    if c > 0 {
      FoldSame(f, g, s, c - 1);
      AvailInFrame(s, |f|, c - 1);
      assert Occupies(s, |f|, Pos(s, c - 1));
    }
  }

  /** Two frames that agree on the masked bits give every signal the same raw bits. */
  lemma MaskSuffices(f: seq<byte>, g: seq<byte>, mask: seq<byte>, sigs: seq<Layout>, s: Layout)
    requires |f| == |g| == |mask| && IsMaskOf(mask, sigs) && s in sigs && Sized(s)
    requires forall p: nat | p / 8 < |mask| && Bit(mask, p) == 1 :: Bit(f, p) == Bit(g, p)
    ensures RawBits(f, s) == RawBits(g, s)
  {
    FoldSame(f, g, s, Avail(s, |f|));
  }

  function FlipOneBit(f: seq<byte>, p: nat): (g: seq<byte>)
    requires p / 8 < |f|
    ensures |g| == |f|
  {
    SetBit(f, p, 1 - Bit(f, p))
  }

  /** Position `p` is one of the last 64 bits the signal yields from an `n`-byte frame: `get_raw_bits` keeps no more. */
  ghost predicate Keeps(s: Layout, n: nat, p: nat) {
    Sized(s) && exists k :: 0 <= k < Avail(s, n) && Avail(s, n) - k <= Word() && Pos(s, k) == p
  }

  lemma KeepsIfNarrow(s: Layout, n: nat, p: nat)
    requires s.size <= Word()
    ensures Keeps(s, n, p) <==> Occupies(s, n, p)
  {
  }

  /** A bit `get_raw_bits` keeps is seen. */
  lemma KeptIsSeen(f: seq<byte>, g: seq<byte>, s: Layout, p: nat)
    requires |f| == |g| && p / 8 < |f| && Keeps(s, |f|, p) && Bit(f, p) != Bit(g, p)
    ensures RawBits(f, s) % TWO64 != RawBits(g, s) % TWO64
  {
    var c := Avail(s, |f|);
    var k: nat :| k < c && c - k <= Word() && Pos(s, k) == p;
    BitOfFold(f, s, c, k);
    BitOfFold(g, s, c, k);
    BitOfLow(RawBits(f, s), Word(), c - 1 - k);
    BitOfLow(RawBits(g, s), Word(), c - 1 - k);
    WordKeeps(RawBits(f, s));
    WordKeeps(RawBits(g, s));
  }

  /** What it does not keep is not. */
  lemma DroppedIsUnseen(f: seq<byte>, g: seq<byte>, s: Layout, p: nat)
    requires |f| == |g| && !Keeps(s, |f|, p) && forall q: nat | q / 8 < |f| && q != p :: Bit(f, q) == Bit(g, q)
    ensures RawBits(f, s) % TWO64 == RawBits(g, s) % TWO64
  {
    var c := Avail(s, |f|);
    forall b: nat | b < Word() ensures BitOf(Low(RawBits(f, s), Word()), b) == BitOf(Low(RawBits(g, s), Word()), b) {
      BitOfLow(RawBits(f, s), Word(), b);
      BitOfLow(RawBits(g, s), Word(), b);
      if b < c {
        var k := c - 1 - b;
        AvailInFrame(s, |f|, k);
        BitOfFold(f, s, c, k);
        BitOfFold(g, s, c, k);
      } else {
        AboveFold(f, s, c, b);
        AboveFold(g, s, c, b);
      }
    }
    LowBound(RawBits(f, s), Word());
    LowBound(RawBits(g, s), Word());
    SameBits(Low(RawBits(f, s), Word()), Low(RawBits(g, s), Word()), Word());
    WordKeeps(RawBits(f, s));
    WordKeeps(RawBits(g, s));
  }

  lemma AboveFold(f: seq<byte>, s: Layout, c: nat, b: nat)
    requires c <= Avail(s, |f|) && c <= b
    ensures BitOf(Fold(f, s, c), b) == 0
  {
    FoldBound(f, s, c);
    Pow2Monotone(c, b);
    ShrSmall(Fold(f, s, c), b);
  }

  /** Flipping a bit of a frame changes what the code reads of some signal if and only if some signal has it among
      its last 64; and if no signal is wider than that, if and only if the mask has that bit. */
  lemma MaskExact(f: seq<byte>, mask: seq<byte>, sigs: seq<Layout>, p: nat)
    requires |f| == |mask| && IsMaskOf(mask, sigs) && p / 8 < |f|
    ensures
      var seen := exists s :: s in sigs && RawBits(FlipOneBit(f, p), s) % TWO64 != RawBits(f, s) % TWO64;
      && (seen <==> exists s :: s in sigs && Keeps(s, |f|, p))
      && (seen ==> Bit(mask, p) == 1)
      && ((forall s | s in sigs :: s.size <= Word()) ==> (seen <==> Bit(mask, p) == 1))
  {
    var g := FlipOneBit(f, p);
    forall q: nat | q / 8 < |f| ensures Bit(g, q) == if q == p then 1 - Bit(f, p) else Bit(f, q) {
      BitOfSetBit(f, p, 1 - Bit(f, p), q);
    }
    forall s | s in sigs
      ensures RawBits(g, s) % TWO64 != RawBits(f, s) % TWO64 <==> Keeps(s, |f|, p)
      ensures s.size <= Word() ==> (Keeps(s, |f|, p) <==> Occupies(s, |f|, p))
    {
      if Keeps(s, |f|, p) {
        KeptIsSeen(f, g, s, p);
      } else {
        DroppedIsUnseen(f, g, s, p);
      }
      if s.size <= Word() {
        KeepsIfNarrow(s, |f|, p);
      }
    }
  }

  /** An input where the mask has a bit too many: the first bit of a signal of 72. */
  lemma WideSignalOvermasked(f: seq<byte>, mask: seq<byte>)
    requires |f| == |mask| == 9 && IsMaskOf(mask, [Layout(0, 72, true)])
    ensures Bit(mask, 71) == 1
    ensures RawBits(FlipOneBit(f, 71), Layout(0, 72, true)) % TWO64 == RawBits(f, Layout(0, 72, true)) % TWO64
  {
    var s := Layout(0, 72, true);
    assert Pos(s, 0) == 71;
    assert Occupies(s, 9, 71);
    forall k | 0 <= k < 72 && Pos(s, k) == 71 ensures k == 0 {
    }
    assert !Keeps(s, 9, 71);
    MaskExact(f, mask, [s], 71);
  }
}
