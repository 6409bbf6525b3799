/** The byte layout of the shared ring of bridge/msgq: frames, size tags, laps, and what
    "the bytes of an old lap are still there" means. Both the step machine (Interleaving)
    and the atomic operations (Msgq) are stated over these definitions. */
module Ring {
  import opened Words

  /** `ALIGN(n)`, that is `(n + 7) & -8`. */
  function Align(n: nat): nat {
    (n + 7) / 8 * 8
  }

  /** Ring space taken by a message: size tag, payload, padding to eight bytes. */
  function Total(size: nat): nat {
    Align(size + 8)
  }

  /** An unpacked read or write pointer: completed laps and byte offset. */
  datatype Ptr = Ptr(cyc: nat, off: nat)

  /** `ALIGN(off + sizeof(int64_t) + size)` kept in a `uint32_t`. */
  function NextOff(off: nat, size: nat): nat {
    Align(off + 8 + size) % 0x1_0000_0000
  }

  lemma NextOffIsEnd(off: nat, size: nat)
    requires off % 8 == 0 && off + Total(size) < 0x1_0000_0000
    ensures NextOff(off, size) == off + Total(size)
  {
  }

  /** `msgq_msg_send` begins when its size assertion passes. */
  predicate Sendable(msg: seq<byte>, n: nat) {
    |msg| > 0 && 3 * Total(|msg|) <= n
  }

  predicate MustWrap(msg: seq<byte>, w: Ptr, n: nat) {
    n - w.off - Total(|msg|) - 8 <= 0
  }

  // ----- the size tag: a little-endian two's-complement 64-bit word -----

  function Pow256(n: nat): nat {
    if n == 0 then 1 else 256 * Pow256(n - 1)
  }

  function LittleEndian(v: nat, n: nat): (s: seq<byte>)
    ensures |s| == n
  {
    if n == 0 then [] else [(v % 256) as byte] + LittleEndian(v / 256, n - 1)
  }

  function FromLittleEndian(s: seq<byte>): nat {
    if s == [] then 0 else s[0] as int + 256 * FromLittleEndian(s[1..])
  }

  lemma {:induction false} LittleEndianRoundTrip(v: nat, n: nat)
    requires v < Pow256(n)
    ensures FromLittleEndian(LittleEndian(v, n)) == v
  {
    if n > 0 {
      LittleEndianRoundTrip(v / 256, n - 1);
      assert LittleEndian(v, n)[1..] == LittleEndian(v / 256, n - 1);
    }
  }

  function TagBytes(v: int): (s: seq<byte>)
    requires -TWO63 <= v < TWO63
    ensures |s| == 8
  {
    LittleEndian(if v < 0 then v + TWO64 else v, 8)
  }

  function TagOf(s: seq<byte>): int {
    var u := FromLittleEndian(s);
    if u < TWO63 then u else u - TWO64
  }

  /** A stored size tag, -1 included, is read back as written. */
  lemma TagRoundTrip(v: int)
    requires -TWO63 <= v < TWO63
    ensures TagOf(TagBytes(v)) == v
  {
    assert Pow256(8) == TWO64 by {
      assert Pow256(4) == 0x1_0000_0000;
      assert Pow256(5) == 0x100_0000_0000;
      assert Pow256(6) == 0x1_0000_0000_0000;
    }
    LittleEndianRoundTrip(if v < 0 then v + TWO64 else v, 8);
  }

  function TagAt(mem: seq<byte>, o: nat): int
    requires o + 8 <= |mem|
  {
    TagOf(mem[o..o + 8])
  }

  /** `mem` with `s` stored from offset `o` on. */
  function Splice(mem: seq<byte>, o: nat, s: seq<byte>): (m: seq<byte>)
    requires o + |s| <= |mem|
    ensures |m| == |mem|
    ensures forall k {:trigger m[k]} :: 0 <= k < |m| ==> m[k] == if o <= k < o + |s| then s[k - o] else mem[k]
  {
    mem[..o] + s + mem[o + |s|..]
  }

  lemma SameTag(a: seq<byte>, b: seq<byte>, o: nat)
    requires |a| == |b| && o + 8 <= |a|
    requires forall k :: o <= k < o + 8 ==> a[k] == b[k]
    ensures TagAt(a, o) == TagAt(b, o)
  {
    assert a[o..o + 8] == b[o..o + 8];
  }

  /** `mem` with the 64-bit tag `v` stored at offset `o`. */
  function StoreTag(mem: seq<byte>, o: nat, v: int): (m: seq<byte>)
    requires o + 8 <= |mem| && -TWO63 <= v < TWO63
    ensures |m| == |mem| && TagAt(m, o) == v
    ensures forall k | 0 <= k < |m| && (k < o || o + 8 <= k) :: m[k] == mem[k]
  {
    TagRoundTrip(v);
    assert Splice(mem, o, TagBytes(v))[o..o + 8] == TagBytes(v);
    Splice(mem, o, TagBytes(v))
  }

  // ----- history: every published frame, and where each lap began and ended -----

  datatype Frame = Frame(lap: nat, off: nat, msg: seq<byte>) {
    function End(): nat {
      off + Total(|msg|)
    }
  }

  /** `frames` lists the published messages in order; lap `t` starts with frame `starts[t]`
      and, when finished, carries its wraparound tag at offset `ends[t]`. */
  datatype History = History(frames: seq<Frame>, starts: seq<nat>, ends: seq<nat>)

  const EmptyHistory: History := History([], [0], [])

  /** A history, the published write pointer, and how far the writer has dirtied the current
      lap: bytes below `edge` are new, and `tagged` says the wraparound tag already stands at
      the write pointer although the wrap is not yet published. */
  datatype Ctx = Ctx(h: History, w: Ptr, edge: nat, tagged: bool)

  ghost predicate LapsOK(h: History, w: Ptr, n: nat) {
    && |h.ends| == w.cyc && |h.starts| == w.cyc + 1
    && w.off % 8 == 0 && w.off + 8 < n
    && (forall t | 0 <= t < |h.ends| :: 0 < h.ends[t] && h.ends[t] % 8 == 0 && h.ends[t] + 8 < n)
    && h.starts[0] == 0
    && (forall t, u | 0 <= t < u < |h.starts| :: h.starts[t] < h.starts[u])
    && (forall t | 0 <= t < |h.starts| :: h.starts[t] <= |h.frames|)
    && (h.starts[w.cyc] == |h.frames| <==> w.off == 0)
  }

  function LapEnd(h: History, w: Ptr, t: nat): nat
    requires |h.ends| == w.cyc && t <= w.cyc
  {
    if t < w.cyc then h.ends[t] else w.off
  }

  function LapStop(h: History, w: Ptr, t: nat): nat
    requires |h.starts| == w.cyc + 1 && t <= w.cyc
  {
    if t < w.cyc then h.starts[t + 1] else |h.frames|
  }

  /** Frame `j` lies inside its lap and is followed at once by the next frame, or ends its lap. */
  ghost predicate FrameOK(h: History, w: Ptr, j: nat)
    requires |h.ends| == w.cyc && |h.starts| == w.cyc + 1 && j < |h.frames|
  {
    var f := h.frames[j];
    && |f.msg| > 0 && f.off % 8 == 0 && f.lap <= w.cyc
    && h.starts[f.lap] <= j < LapStop(h, w, f.lap)
    && f.End() <= LapEnd(h, w, f.lap)
    && (f.off == 0 <==> j == h.starts[f.lap])
    && (if j + 1 < LapStop(h, w, f.lap)
        then j + 1 < |h.frames| && h.frames[j + 1].lap == f.lap && h.frames[j + 1].off == f.End()
        else f.End() == LapEnd(h, w, f.lap))
  }

  /** The frame-chain and bounds invariant on the history. */
  ghost predicate HistoryOK(h: History, w: Ptr, n: nat) {
    && n < 0x1_0000_0000
    && LapsOK(h, w, n)
    && (forall j | 0 <= j < |h.frames| :: FrameOK(h, w, j))
    && (forall t | 0 <= t < |h.starts| :: h.starts[t] < |h.frames| ==> h.frames[h.starts[t]].lap == t)
  }

  /** No later lap has stored anything at or after offset `o`: a tag of lap `t` there is intact. */
  ghost predicate TagSafe(c: Ctx, t: nat, o: nat)
    requires |c.h.ends| == c.w.cyc
  {
    && (forall u | t < u < c.w.cyc :: c.h.ends[u] < o)
    && (t < c.w.cyc ==> c.edge <= o && (c.tagged ==> c.w.off < o))
  }

  /** As `TagSafe`, but a wraparound tag may stand at `o` itself: the payload behind it is intact. */
  ghost predicate PayloadSafe(c: Ctx, t: nat, o: nat)
    requires |c.h.ends| == c.w.cyc
  {
    && (forall u | t < u < c.w.cyc :: c.h.ends[u] <= o)
    && (t < c.w.cyc ==> c.edge <= o)
  }

  ghost predicate HoldsPayload(mem: seq<byte>, o: nat, msg: seq<byte>) {
    && o + 8 + |msg| <= |mem|
    && (forall k | 0 <= k < |msg| :: mem[o + 8 + k] == msg[k])
  }

  ghost predicate FrameTagOK(c: Ctx, mem: seq<byte>, j: nat)
    requires |c.h.ends| == c.w.cyc && j < |c.h.frames|
  {
    var f := c.h.frames[j];
    TagSafe(c, f.lap, f.off) ==> f.off + 8 <= |mem| && TagAt(mem, f.off) == |f.msg|
  }

  ghost predicate FramePayloadOK(c: Ctx, mem: seq<byte>, j: nat)
    requires |c.h.ends| == c.w.cyc && j < |c.h.frames|
  {
    var f := c.h.frames[j];
    PayloadSafe(c, f.lap, f.off) ==> HoldsPayload(mem, f.off, f.msg)
  }

  ghost predicate WrapTagOK(c: Ctx, mem: seq<byte>, t: nat)
    requires |c.h.ends| == c.w.cyc && t < |c.h.ends|
  {
    TagSafe(c, t, c.h.ends[t]) ==> c.h.ends[t] + 8 <= |mem| && TagAt(mem, c.h.ends[t]) == -1
  }

  /** Every frame and wraparound tag that nothing later has covered is in memory, byte for byte. */
  ghost predicate MemOK(c: Ctx, mem: seq<byte>) {
    && HistoryOK(c.h, c.w, |mem|)
    && (forall j | 0 <= j < |c.h.frames| :: FrameTagOK(c, mem, j))
    && (forall j | 0 <= j < |c.h.frames| :: FramePayloadOK(c, mem, j))
    && (forall t | 0 <= t < |c.h.ends| :: WrapTagOK(c, mem, t))
    && (c.tagged ==> TagAt(mem, c.w.off) == -1)
  }

  // ----- where a valid reader may stand -----

  /** The reader stands on intact frame `j`, which it has not read; its cycle label is at most the true lap. */
  ghost predicate OnFrame(c: Ctx, p: Ptr, seen: nat, j: nat)
    requires |c.h.ends| == c.w.cyc
  {
    && seen <= j < |c.h.frames|
    && c.h.frames[j].off == p.off && p.cyc <= c.h.frames[j].lap <= c.w.cyc
    && TagSafe(c, c.h.frames[j].lap, p.off)
  }

  /** The reader stands on the intact wraparound tag of finished lap `t`. */
  ghost predicate OnEnd(c: Ctx, p: Ptr, seen: nat, t: nat)
    requires |c.h.ends| == c.w.cyc && |c.h.starts| == c.w.cyc + 1
  {
    && p.cyc <= t < c.w.cyc && c.h.ends[t] == p.off && seen <= c.h.starts[t + 1]
    && TagSafe(c, t, p.off)
  }

  /** A reader may start a pass here: at the write pointer's offset, on a frame, or on a lap's end. */
  ghost predicate Standing(c: Ctx, p: Ptr, seen: nat)
    requires |c.h.ends| == c.w.cyc && |c.h.starts| == c.w.cyc + 1
  {
    && seen <= |c.h.frames| && p.cyc <= c.w.cyc
    && (p.off == c.w.off || (exists j :: OnFrame(c, p, seen, j)) || (exists t :: OnEnd(c, p, seen, t)))
  }

  /** The reader may hop to offset 0: whatever lap is there holds only unread messages. */
  ghost predicate MayHop(c: Ctx, p: Ptr, seen: nat)
    requires |c.h.starts| == c.w.cyc + 1
  {
    p.cyc < c.w.cyc && seen <= c.h.starts[c.w.cyc]
  }

  /** The reader has taken frame `j`'s size and the payload is intact. */
  ghost predicate InFrame(c: Ctx, p: Ptr, seen: nat, j: nat, size: int)
    requires |c.h.ends| == c.w.cyc
  {
    && seen <= j < |c.h.frames|
    && c.h.frames[j].off == p.off && p.cyc <= c.h.frames[j].lap <= c.w.cyc
    && |c.h.frames[j].msg| == size
    && PayloadSafe(c, c.h.frames[j].lap, p.off)
  }

  /** What was delivered is, message for message, a strictly increasing selection of the first
      `seen` sent messages: nothing invented, reordered or repeated. */
  ghost predicate Delivered(got: seq<seq<byte>>, frames: seq<Frame>, seen: nat) {
    seen <= |frames| && exists idx: seq<nat> :: Selects(idx, got, frames, seen)
  }

  ghost predicate Selects(idx: seq<nat>, got: seq<seq<byte>>, frames: seq<Frame>, seen: nat)
    requires seen <= |frames|
  {
    && |idx| == |got|
    && (forall k | 0 <= k < |idx| :: idx[k] < seen && got[k] == frames[idx[k]].msg)
    && (forall k, l | 0 <= k < l < |idx| :: idx[k] < idx[l])
  }

  lemma DeliverNext(got: seq<seq<byte>>, frames: seq<Frame>, seen: nat, j: nat)
    requires Delivered(got, frames, seen) && seen <= j < |frames|
    ensures Delivered(got + [frames[j].msg], frames, j + 1)
  {
    var idx: seq<nat> :| Selects(idx, got, frames, seen);
    assert Selects(idx + [j], got + [frames[j].msg], frames, j + 1);
  }

  lemma DeliveredGrows(got: seq<seq<byte>>, frames: seq<Frame>, more: seq<Frame>, seen: nat, later: nat)
    requires Delivered(got, frames, seen) && seen <= later <= |frames + more|
    ensures Delivered(got, frames + more, later)
  {
    var idx: seq<nat> :| Selects(idx, got, frames, seen);
    assert Selects(idx, got, frames + more, later);
  }

  // ----- reading and moving: what a reader finds where it stands -----

  lemma FrameFits(c: Ctx, n: nat, j: nat)
    requires HistoryOK(c.h, c.w, n) && j < |c.h.frames|
    ensures var f := c.h.frames[j];
      && f.End() + 8 < n && 0 < |f.msg| < n && f.End() % 8 == 0
      && f.off + 8 + |f.msg| <= f.End() && f.off + 16 <= f.End()
  {
    assert FrameOK(c.h, c.w, j);
  }

  lemma ReadFrame(c: Ctx, mem: seq<byte>, p: Ptr, seen: nat, j: nat)
    requires MemOK(c, mem) && OnFrame(c, p, seen, j)
    ensures p.off + 8 < |mem| && TagAt(mem, p.off) == |c.h.frames[j].msg|
    ensures InFrame(c, p, seen, j, |c.h.frames[j].msg|)
  {
    FrameFits(c, |mem|, j);
    assert FrameTagOK(c, mem, j);
  }

  lemma ReadEnd(c: Ctx, mem: seq<byte>, p: Ptr, seen: nat, t: nat)
    requires MemOK(c, mem) && OnEnd(c, p, seen, t)
    ensures p.off + 8 < |mem| && TagAt(mem, p.off) == -1 && MayHop(c, p, seen)
  {
    assert WrapTagOK(c, mem, t);
  }

  /** Past frame `j` lies the next frame of its lap, the lap's end, or the write pointer. */
  lemma PastFrame(c: Ctx, n: nat, p: Ptr, seen: nat, j: nat, size: nat)
    requires HistoryOK(c.h, c.w, n) && InFrame(c, p, seen, j, size) && (c.tagged ==> c.w.off <= c.edge)
    ensures Standing(c, Ptr(p.cyc, p.off + Total(size)), j + 1)
  {
    var f, q := c.h.frames[j], Ptr(p.cyc, p.off + Total(size));
    assert FrameOK(c.h, c.w, j);
    FrameFits(c, n, j);
    if j + 1 < LapStop(c.h, c.w, f.lap) {
      assert OnFrame(c, q, j + 1, j + 1);
    } else if f.lap < c.w.cyc {
      assert OnEnd(c, q, j + 1, f.lap);
    }
  }

  /** At offset 0 stands the first frame of the current lap, or the write pointer. */
  lemma AfterHop(c: Ctx, n: nat, p: Ptr, seen: nat)
    requires HistoryOK(c.h, c.w, n) && MayHop(c, p, seen)
    ensures Standing(c, Ptr(p.cyc + 1, 0), seen)
  {
    if c.w.off != 0 {
      var j := c.h.starts[c.w.cyc];
      assert FrameOK(c.h, c.w, j);
      assert OnFrame(c, Ptr(p.cyc + 1, 0), seen, j);
    }
  }

  // ----- the writer's four moves, seen by a reader -----

  ghost predicate CtxOK(c: Ctx, n: nat) {
    HistoryOK(c.h, c.w, n) && (c.tagged ==> c.w.off <= c.edge)
  }

  /** The wraparound tag has been stored at the write pointer. */
  function Tagged(c: Ctx): Ctx {
    c.(tagged := true)
  }

  /** The wrap has been published. */
  function Wrapped(c: Ctx): Ctx {
    Ctx(History(c.h.frames, c.h.starts + [|c.h.frames|], c.h.ends + [c.w.off]), Ptr(c.w.cyc + 1, 0), 0, false)
  }

  /** A frame holding `msg` has been published at the write pointer. */
  function Published(c: Ctx, msg: seq<byte>): Ctx {
    var e := c.w.off + Total(|msg|);
    Ctx(c.h.(frames := c.h.frames + [Frame(c.w.cyc, c.w.off, msg)]), Ptr(c.w.cyc, e), e, false)
  }

  lemma WrappedHistory(c: Ctx, n: nat)
    requires HistoryOK(c.h, c.w, n) && 0 < c.w.off
    ensures HistoryOK(Wrapped(c).h, Wrapped(c).w, n)
  {
    var d := Wrapped(c);
    forall j | 0 <= j < |d.h.frames| ensures FrameOK(d.h, d.w, j) {
      assert FrameOK(c.h, c.w, j);
    }
  }

  lemma PublishedHistory(c: Ctx, n: nat, msg: seq<byte>)
    requires HistoryOK(c.h, c.w, n) && |msg| > 0 && c.w.off + Total(|msg|) + 8 < n
    ensures HistoryOK(Published(c, msg).h, Published(c, msg).w, n)
  {
    var d := Published(c, msg);
    forall j | 0 <= j < |d.h.frames| ensures FrameOK(d.h, d.w, j) {
      if j < |c.h.frames| {
        assert FrameOK(c.h, c.w, j);
      }
    }
  }

  // ----- every position a reader can hold survives each of the writer's moves -----

  /** Just before loading the tag: a frame, a lap's end, or a wraparound tag not yet published. */
  ghost predicate Facing(c: Ctx, p: Ptr, seen: nat)
    requires |c.h.ends| == c.w.cyc && |c.h.starts| == c.w.cyc + 1
  {
    && seen <= |c.h.frames| && p.cyc <= c.w.cyc
    && ((exists j :: OnFrame(c, p, seen, j)) || (exists t :: OnEnd(c, p, seen, t))
        || (c.tagged && p.off == c.w.off && MayHop(c, p, seen)))
  }

  lemma TaggedKeeps(c: Ctx, n: nat, p: Ptr, seen: nat)
    requires CtxOK(c, n) && !c.tagged && c.edge == c.w.off
    ensures Standing(c, p, seen) ==> Standing(Tagged(c), p, seen)
    ensures Facing(c, p, seen) ==> Facing(Tagged(c), p, seen)
  {
    var d := Tagged(c);
    if j: nat :| OnFrame(c, p, seen, j) {
      assert FrameOK(c.h, c.w, j);
      if p.off != c.w.off || c.h.frames[j].lap == c.w.cyc {
        assert OnFrame(d, p, seen, j);
      } else {
        assert c.h.starts[c.h.frames[j].lap + 1] <= c.h.starts[c.w.cyc];
      }
    }
    if t: nat :| OnEnd(c, p, seen, t) {
      if p.off != c.w.off {
        assert OnEnd(d, p, seen, t);
      } else {
        assert c.h.starts[t + 1] <= c.h.starts[c.w.cyc];
      }
    }
  }

  lemma WrappedKeeps(c: Ctx, n: nat, p: Ptr, seen: nat)
    requires CtxOK(c, n) && c.tagged && c.edge == c.w.off && 0 < c.w.off
    ensures Standing(c, p, seen) ==> Standing(Wrapped(c), p, seen)
    ensures Facing(c, p, seen) ==> Facing(Wrapped(c), p, seen)
    ensures MayHop(c, p, seen) ==> MayHop(Wrapped(c), p, seen)
    ensures forall j, size :: InFrame(c, p, seen, j, size) ==> InFrame(Wrapped(c), p, seen, j, size)
  {
    var d := Wrapped(c);
    WrappedHistory(c, n);
    if j: nat :| OnFrame(c, p, seen, j) {
      assert OnFrame(d, p, seen, j);
    }
    if t: nat :| OnEnd(c, p, seen, t) {
      assert OnEnd(d, p, seen, t);
    }
    if p.off == c.w.off && p.cyc <= c.w.cyc && seen <= |c.h.frames| {
      assert OnEnd(d, p, seen, c.w.cyc);
    }
  }

  /** The writer's test `read_pointer in [start, end) && read_cycles != write_cycles` came out false. */
  ghost predicate Spared(w: Ptr, p: Ptr, e: nat) {
    !(w.off <= p.off < e && p.cyc != w.cyc)
  }

  lemma SparedKeeps(c: Ctx, n: nat, p: Ptr, seen: nat, e: nat)
    requires CtxOK(c, n) && !c.tagged && c.edge == c.w.off <= e && Spared(c.w, p, e)
    ensures Standing(c, p, seen) ==> Standing(c.(edge := e), p, seen)
    ensures Facing(c, p, seen) ==> Facing(c.(edge := e), p, seen)
    ensures forall j, size :: InFrame(c, p, seen, j, size) ==> InFrame(c.(edge := e), p, seen, j, size)
  {
    var d := c.(edge := e);
    if j: nat :| OnFrame(c, p, seen, j) {
      assert OnFrame(d, p, seen, j);
    }
    if t: nat :| OnEnd(c, p, seen, t) {
      assert OnEnd(d, p, seen, t);
    }
  }

  lemma PublishedKeeps(c: Ctx, n: nat, p: Ptr, seen: nat, msg: seq<byte>)
    requires CtxOK(c, n) && !c.tagged && |msg| > 0 && c.edge == c.w.off + Total(|msg|) && c.edge + 8 < n
    ensures Standing(c, p, seen) ==> Standing(Published(c, msg), p, seen)
    ensures Facing(c, p, seen) ==> Facing(Published(c, msg), p, seen)
    ensures MayHop(c, p, seen) ==> MayHop(Published(c, msg), p, seen)
    ensures forall j, size :: InFrame(c, p, seen, j, size) ==> InFrame(Published(c, msg), p, seen, j, size)
  {
    var d := Published(c, msg);
    PublishedHistory(c, n, msg);
    if j: nat :| OnFrame(c, p, seen, j) {
      assert OnFrame(d, p, seen, j);
    }
    if t: nat :| OnEnd(c, p, seen, t) {
      assert OnEnd(d, p, seen, t);
    }
    if p.off == c.w.off && p.cyc <= c.w.cyc && seen <= |c.h.frames| {
      assert OnFrame(d, p, seen, |c.h.frames|);
    }
  }

  // ----- memory through each of the writer's stores -----

  /** `d` trusts no byte that `c` does not, and memory agrees on what `d` trusts: so it stays right. */
  ghost predicate Trusts(c: Ctx, d: Ctx, mem: seq<byte>, m: seq<byte>, t: nat, o: nat)
    requires |c.h.ends| == c.w.cyc && |d.h.ends| == d.w.cyc && |m| == |mem|
  {
    && (TagSafe(d, t, o) ==> TagSafe(c, t, o) && forall k | o <= k < o + 8 && k < |m| :: m[k] == mem[k])
    && (PayloadSafe(d, t, o) ==> PayloadSafe(c, t, o))
  }

  lemma KeepFrame(c: Ctx, d: Ctx, mem: seq<byte>, m: seq<byte>, j: nat)
    requires MemOK(c, mem) && |m| == |mem| && |d.h.ends| == d.w.cyc
    requires j < |c.h.frames| && j < |d.h.frames| && c.h.frames[j] == d.h.frames[j]
    requires var f := c.h.frames[j];
             Trusts(c, d, mem, m, f.lap, f.off)
             && (PayloadSafe(d, f.lap, f.off) ==> forall k | f.off + 8 <= k < f.End() && k < |m| :: m[k] == mem[k])
    ensures FrameTagOK(d, m, j) && FramePayloadOK(d, m, j)
  {
    var f := c.h.frames[j];
    FrameFits(c, |mem|, j);
    assert FrameTagOK(c, mem, j) && FramePayloadOK(c, mem, j);
    if TagSafe(d, f.lap, f.off) {
      SameTag(mem, m, f.off);
    }
  }

  lemma KeepWrapTag(c: Ctx, d: Ctx, mem: seq<byte>, m: seq<byte>, t: nat)
    requires MemOK(c, mem) && |m| == |mem| && |d.h.ends| == d.w.cyc
    requires t < |c.h.ends| && t < |d.h.ends| && c.h.ends[t] == d.h.ends[t]
    requires Trusts(c, d, mem, m, t, c.h.ends[t])
    ensures WrapTagOK(d, m, t)
  {
    assert WrapTagOK(c, mem, t);
    if TagSafe(d, t, d.h.ends[t]) {
      SameTag(mem, m, d.h.ends[t]);
    }
  }

  /** Storing the wraparound tag at the write pointer. */
  lemma StoreWrapTag(c: Ctx, mem: seq<byte>, m: seq<byte>)
    requires MemOK(c, mem) && !c.tagged && c.edge == c.w.off && |m| == |mem|
    requires forall k | 0 <= k < |m| && (k < c.w.off || c.w.off + 8 <= k) :: m[k] == mem[k]
    requires TagAt(m, c.w.off) == -1
    ensures MemOK(Tagged(c), m)
  {
    var d := Tagged(c);
    forall j | 0 <= j < |d.h.frames| ensures FrameTagOK(d, m, j) && FramePayloadOK(d, m, j) {
      assert FrameOK(c.h, c.w, j);
      KeepFrame(c, d, mem, m, j);
    }
    forall t | 0 <= t < |d.h.ends| ensures WrapTagOK(d, m, t) {
      KeepWrapTag(c, d, mem, m, t);
    }
  }

  lemma PublishWrap(c: Ctx, mem: seq<byte>)
    requires MemOK(c, mem) && c.tagged && c.edge == c.w.off && 0 < c.w.off
    ensures MemOK(Wrapped(c), mem)
  {
    var d := Wrapped(c);
    WrappedHistory(c, |mem|);
    assert d.h.ends[c.w.cyc] == c.w.off;
    forall j | 0 <= j < |d.h.frames| ensures FrameTagOK(d, mem, j) && FramePayloadOK(d, mem, j) {
      assert FrameOK(c.h, c.w, j);
      WrapTrusts(c, mem, c.h.frames[j].lap, c.h.frames[j].off);
      KeepFrame(c, d, mem, mem, j);
    }
    forall t | 0 <= t < |d.h.ends| ensures WrapTagOK(d, mem, t) {
      if t < |c.h.ends| {
        WrapTrusts(c, mem, t, c.h.ends[t]);
        KeepWrapTag(c, d, mem, mem, t);
      }
    }
  }

  lemma WrapTrusts(c: Ctx, mem: seq<byte>, t: nat, o: nat)
    requires MemOK(c, mem) && c.tagged && c.edge == c.w.off && t <= c.w.cyc
    ensures |Wrapped(c).h.ends| == Wrapped(c).w.cyc && Trusts(c, Wrapped(c), mem, mem, t, o)
  {
    var d := Wrapped(c);
    assert d.h.ends[c.w.cyc] == c.w.off;
    assert forall u | 0 <= u < c.w.cyc :: d.h.ends[u] == c.h.ends[u];
  }

  /** Any store confined to `[write pointer, e)` keeps memory right for the edge `e`. */
  lemma StoreAhead(c: Ctx, mem: seq<byte>, m: seq<byte>, e: nat)
    requires MemOK(c, mem) && !c.tagged && c.w.off <= e && c.edge <= e && |m| == |mem|
    requires forall k | 0 <= k < |mem| && (k < c.w.off || e <= k) :: m[k] == mem[k]
    ensures MemOK(c.(edge := e), m)
  {
    var d := c.(edge := e);
    forall j | 0 <= j < |d.h.frames| ensures FrameTagOK(d, m, j) && FramePayloadOK(d, m, j) {
      assert FrameOK(c.h, c.w, j);
      FrameFits(c, |mem|, j);
      KeepFrame(c, d, mem, m, j);
    }
    forall t | 0 <= t < |d.h.ends| ensures WrapTagOK(d, m, t) {
      KeepWrapTag(c, d, mem, m, t);
    }
  }

  lemma StoreSizeTag(c: Ctx, mem: seq<byte>, m: seq<byte>, size: nat)
    requires MemOK(c, mem) && !c.tagged && c.edge == c.w.off && |m| == |mem|
    requires forall k | 0 <= k < |m| && (k < c.w.off || c.w.off + 8 <= k) :: m[k] == mem[k]
    ensures MemOK(c.(edge := c.w.off + Total(size)), m)
  {
    StoreAhead(c, mem, m, c.w.off + Total(size));
  }

  lemma StorePayloadByte(c: Ctx, mem: seq<byte>, k: nat, b: byte, size: nat)
    requires MemOK(c, mem) && !c.tagged && c.edge == c.w.off + Total(size) && k < size && c.edge <= |mem|
    ensures c.w.off + 8 + k < |mem|
    ensures var m := mem[c.w.off + 8 + k := b]; MemOK(c, m) && TagAt(m, c.w.off) == TagAt(mem, c.w.off)
  {
    var m := mem[c.w.off + 8 + k := b];
    StoreAhead(c, mem, m, c.edge);
    SameTag(mem, m, c.w.off);
  }

  lemma PublishFrame(c: Ctx, mem: seq<byte>, msg: seq<byte>)
    requires MemOK(c, mem) && !c.tagged && |msg| > 0
    requires c.edge == c.w.off + Total(|msg|) && c.edge + 8 < |mem|
    requires TagAt(mem, c.w.off) == |msg| && HoldsPayload(mem, c.w.off, msg)
    ensures MemOK(Published(c, msg), mem)
  {
    var d := Published(c, msg);
    PublishedHistory(c, |mem|, msg);
    forall j | 0 <= j < |d.h.frames| ensures FrameTagOK(d, mem, j) && FramePayloadOK(d, mem, j) {
      if j < |c.h.frames| {
        assert FrameOK(c.h, c.w, j);
        KeepFrame(c, d, mem, mem, j);
      }
    }
    forall t | 0 <= t < |d.h.ends| ensures WrapTagOK(d, mem, t) {
      KeepWrapTag(c, d, mem, mem, t);
    }
  }
}
