/** One publisher and any number of subscribers of bridge/msgq, interleaved store by store and
    load by load under sequential consistency. Every step below touches shared memory once.
    `memcpy` on either side moves single bytes in any order. Resetting a reader is one step. */
module Interleaving {
  import opened Words
  import opened Ring

  /** Where `msgq_msg_send` is; each value names the next shared access. */
  datatype WriterPc =
    | Idle
    | WrapTag(msg: seq<byte>)
    | WrapLoad(msg: seq<byte>, i: nat)
    | WrapClear(msg: seq<byte>, i: nat)
    | WrapPublish(msg: seq<byte>)
    | Load(msg: seq<byte>, i: nat)
    | Clear(msg: seq<byte>, i: nat)
    | PutTag(msg: seq<byte>)
    | PutData(msg: seq<byte>, done: set<nat>)
    | Publish(msg: seq<byte>)

  /** Where `msgq_msg_recv` is; `lr` and `lw` are the loaded read and write pointers. */
  datatype ReaderPc =
    | Start
    | Reset
    | LoadRead
    | LoadWrite(lr: Ptr)
    | LoadTag(lr: Ptr, lw: Ptr)
    | Recheck(lr: Ptr, lw: Ptr, tag: int)
    | Hop(lr: Ptr)
    | Skip(lr: Ptr, size: nat)
    | Copy(lr: Ptr, size: nat, buf: map<nat, byte>)
    | Confirm(size: nat, buf: map<nat, byte>)
    | Crashed

  /** A reader's shared flag and pointer, its program counter, and every message it returned. */
  datatype Reader = Reader(valid: bool, ptr: Ptr, conflate: bool, pc: ReaderPc, got: seq<seq<byte>>)

  datatype State = State(mem: seq<byte>, w: Ptr, h: History, writer: WriterPc, readers: seq<Reader>)

  /** The message a finished copy holds. */
  function Assembled(size: nat, buf: map<nat, byte>): seq<byte> {
    seq(size, i requires 0 <= i => if i in buf then buf[i] else 0)
  }

  // ----- steps -----

  function WrapLoop(msg: seq<byte>, i: nat, count: nat): WriterPc {
    if i < count then WrapLoad(msg, i) else WrapPublish(msg)
  }

  function CheckLoop(msg: seq<byte>, i: nat, count: nat): WriterPc {
    if i < count then Load(msg, i) else PutTag(msg)
  }

  function SetValid(readers: seq<Reader>, i: nat): seq<Reader>
    requires i < |readers|
  {
    readers[i := readers[i].(valid := false)]
  }

  /** Choosing between wrapping and writing on: `remaining_space <= 0`. */
  function Begin(s: State, msg: seq<byte>): State {
    if !Sendable(msg, |s.mem|) then s
    else if MustWrap(msg, s.w, |s.mem|) then s.(writer := WrapTag(msg))
    else s.(writer := CheckLoop(msg, 0, |s.readers|))
  }

  function StoreWrapMark(s: State, msg: seq<byte>): State {
    if s.w.off + 8 > |s.mem| then s
    else s.(mem := StoreTag(s.mem, s.w.off, -1), writer := WrapLoop(msg, 0, |s.readers|))
  }

  function TestBeyond(s: State, msg: seq<byte>, i: nat): State {
    if i < |s.readers| && s.readers[i].ptr.off > s.w.off && s.readers[i].ptr.cyc != s.w.cyc
    then s.(writer := WrapClear(msg, i))
    else s.(writer := WrapLoop(msg, i + 1, |s.readers|))
  }

  function ClearBeyond(s: State, msg: seq<byte>, i: nat): State {
    if i < |s.readers|
    then s.(readers := SetValid(s.readers, i), writer := WrapLoop(msg, i + 1, |s.readers|))
    else s
  }

  function PublishTheWrap(s: State, msg: seq<byte>): State {
    var c := Wrapped(Ctx(s.h, s.w, s.w.off, true));
    s.(w := c.w, h := c.h, writer := CheckLoop(msg, 0, |s.readers|))
  }

  function TestInside(s: State, msg: seq<byte>, i: nat): State {
    var end := Align(s.w.off + 8 + |msg|);
    if i < |s.readers| && s.w.off <= s.readers[i].ptr.off < end && s.readers[i].ptr.cyc != s.w.cyc
    then s.(writer := Clear(msg, i))
    else s.(writer := CheckLoop(msg, i + 1, |s.readers|))
  }

  function ClearInside(s: State, msg: seq<byte>, i: nat): State {
    if i < |s.readers|
    then s.(readers := SetValid(s.readers, i), writer := CheckLoop(msg, i + 1, |s.readers|))
    else s
  }

  function StoreSize(s: State, msg: seq<byte>): State {
    if s.w.off + 8 > |s.mem| || |msg| >= TWO63 then s
    else s.(mem := StoreTag(s.mem, s.w.off, |msg|), writer := PutData(msg, {}))
  }

  function StoreByte(s: State, msg: seq<byte>, done: set<nat>, k: nat): State {
    if k < |msg| then
      if s.w.off + 8 + k < |s.mem|
      then s.(mem := s.mem[s.w.off + 8 + k := msg[k]], writer := PutData(msg, done + {k}))
      else s
    else if forall i | 0 <= i < |msg| :: i in done then s.(writer := Publish(msg))
    else s
  }

  function PublishTheFrame(s: State, msg: seq<byte>): State {
    s.(w := Ptr(s.w.cyc, NextOff(s.w.off, |msg|)),
       h := s.h.(frames := s.h.frames + [Frame(s.w.cyc, s.w.off, msg)]), writer := Idle)
  }

  /** One step of the publisher; `msg` is what it sends when idle, `k` the byte it copies next. */
  function WriterNext(s: State, msg: seq<byte>, k: nat): State {
    match s.writer
    case Idle => Begin(s, msg)
    case WrapTag(m) => StoreWrapMark(s, m)
    case WrapLoad(m, i) => TestBeyond(s, m, i)
    case WrapClear(m, i) => ClearBeyond(s, m, i)
    case WrapPublish(m) => PublishTheWrap(s, m)
    case Load(m, i) => TestInside(s, m, i)
    case Clear(m, i) => ClearInside(s, m, i)
    case PutTag(m) => StoreSize(s, m)
    case PutData(m, done) => StoreByte(s, m, done, k)
    case Publish(m) => PublishTheFrame(s, m)
  }

  /** One step of a subscriber; `k` is the byte it copies next. An assertion failure or an access
      outside the ring leads to `Crashed`. */
  function ReaderNext(mem: seq<byte>, w: Ptr, r: Reader, k: nat): Reader {
    var n := |mem|;
    match r.pc
    case Start => r.(pc := if r.valid then LoadRead else Reset)
    case Reset => r.(valid := true, ptr := w, pc := Start)
    case LoadRead => r.(pc := LoadWrite(r.ptr))
    case LoadWrite(lr) => r.(pc := if lr.off == w.off then Start else LoadTag(lr, w))
    case LoadTag(lr, lw) =>
      r.(pc := if lr.off + 8 <= n then Recheck(lr, lw, TagAt(mem, lr.off)) else Crashed)
    case Recheck(lr, lw, tag) =>
      if !r.valid then r.(pc := Reset)
      else if tag == -1 then r.(pc := Hop(lr))
      else if !(0 < tag < n) then r.(pc := Crashed)
      else if r.conflate && NextOff(lr.off, tag) != lw.off then r.(pc := Skip(lr, tag))
      else r.(pc := Copy(lr, tag, map[]))
    case Hop(lr) => r.(ptr := Ptr(lr.cyc + 1, 0), pc := Start)
    case Skip(lr, size) => r.(ptr := Ptr(lr.cyc, NextOff(lr.off, size)), pc := Start)
    case Copy(lr, size, buf) =>
      if k < size then
        if lr.off + 8 + k < n then r.(pc := Copy(lr, size, buf[k := mem[lr.off + 8 + k]]))
        else r.(pc := Crashed)
      else if forall i | 0 <= i < size :: i in buf then
        r.(ptr := Ptr(lr.cyc, NextOff(lr.off, size)), pc := Confirm(size, buf))
      else r
    case Confirm(size, buf) =>
      if !r.valid then r.(pc := Reset)
      else r.(got := r.got + [Assembled(size, buf)], pc := Start)
    case Crashed => r
  }

  function ReaderStep(s: State, i: nat, k: nat): State
    requires i < |s.readers|
  {
    s.(readers := s.readers[i := ReaderNext(s.mem, s.w, s.readers[i], k)])
  }

  ghost predicate Next(s: State, t: State) {
    || (exists msg, k: nat :: t == WriterNext(s, msg, k))
    || (exists i: nat, k: nat :: i < |s.readers| && t == ReaderStep(s, i, k))
  }

  /** A fresh ring: nothing sent, no reader synchronized yet. */
  ghost predicate Init(s: State) {
    && 8 < |s.mem| < 0x1_0000_0000
    && s.w == Ptr(0, 0) && s.h == EmptyHistory && s.writer == Idle
    && forall i | 0 <= i < |s.readers| :: !s.readers[i].valid && s.readers[i].pc == Start
                                         && s.readers[i].ptr == Ptr(0, 0) && s.readers[i].got == []
  }

  ghost predicate StepAt(states: seq<State>, k: nat)
    requires k + 1 < |states|
  {
    Next(states[k], states[k + 1])
  }

  ghost predicate Run(states: seq<State>) {
    && states != [] && Init(states[0])
    && forall k | 0 <= k < |states| - 1 :: StepAt(states, k)
  }

  // ----- the inductive invariant -----

  /** How far the writer has dirtied memory. */
  function MemCtx(s: State): Ctx {
    match s.writer
    case WrapLoad(_, _) => Ctx(s.h, s.w, s.w.off, true)
    case WrapClear(_, _) => Ctx(s.h, s.w, s.w.off, true)
    case WrapPublish(_) => Ctx(s.h, s.w, s.w.off, true)
    case PutData(m, _) => Ctx(s.h, s.w, s.w.off + Total(|m|), false)
    case Publish(m) => Ctx(s.h, s.w, s.w.off + Total(|m|), false)
    case _ => Ctx(s.h, s.w, s.w.off, false)
  }

  /** How far reader `k` must stay clear: the frame being written, once the writer has checked `k`. */
  function ViewOf(s: State, k: nat): Ctx {
    match s.writer
    case Load(m, i) => if k < i then Ctx(s.h, s.w, s.w.off + Total(|m|), false) else MemCtx(s)
    case Clear(m, i) => if k < i then Ctx(s.h, s.w, s.w.off + Total(|m|), false) else MemCtx(s)
    case PutTag(m) => Ctx(s.h, s.w, s.w.off + Total(|m|), false)
    case _ => MemCtx(s)
  }

  ghost predicate WriterOK(s: State) {
    var n := |s.mem|;
    match s.writer
    case Idle => true
    case WrapTag(m) => Sendable(m, n) && 0 < s.w.off
    case WrapLoad(m, i) => Sendable(m, n) && 0 < s.w.off && i < |s.readers|
    case WrapClear(m, i) => Sendable(m, n) && 0 < s.w.off && i < |s.readers|
    case WrapPublish(m) => Sendable(m, n) && 0 < s.w.off
    case Load(m, i) => |m| > 0 && s.w.off + Total(|m|) + 8 < n && i < |s.readers|
    case Clear(m, i) => |m| > 0 && s.w.off + Total(|m|) + 8 < n && i < |s.readers|
    case PutTag(m) => |m| > 0 && s.w.off + Total(|m|) + 8 < n
    case PutData(m, done) =>
      && |m| > 0 && s.w.off + Total(|m|) + 8 < n && TagAt(s.mem, s.w.off) == |m|
      && forall k | k in done :: 0 <= k < |m| && s.mem[s.w.off + 8 + k] == m[k]
    case Publish(m) =>
      && |m| > 0 && s.w.off + Total(|m|) + 8 < n
      && TagAt(s.mem, s.w.off) == |m| && HoldsPayload(s.mem, s.w.off, m)
  }

  /** What holds of a reader whatever its flag says: its accesses stay in the ring. */
  ghost predicate LocalOK(n: nat, r: Reader) {
    && r.ptr.off % 8 == 0 && r.ptr.off + 8 <= n
    && match r.pc
       case Reset => !r.valid
       case LoadWrite(lr) => lr == r.ptr
       case LoadTag(lr, _) => lr == r.ptr
       case Recheck(lr, _, _) => lr == r.ptr
       case Hop(lr) => lr == r.ptr
       case Skip(lr, size) => lr == r.ptr && lr.off + Total(size) + 8 <= n
       case Copy(lr, size, buf) => lr == r.ptr && 0 < size && lr.off + Total(size) + 8 <= n
       case Confirm(size, buf) => 0 < size
       case Crashed => false
       case _ => true
  }

  ghost predicate Matches(buf: map<nat, byte>, msg: seq<byte>) {
    forall k | k in buf :: k < |msg| ==> buf[k] == msg[k]
  }

  ghost predicate Copying(c: Ctx, p: Ptr, seen: nat, j: nat, size: nat, buf: map<nat, byte>)
    requires |c.h.ends| == c.w.cyc
  {
    InFrame(c, p, seen, j, size) && Matches(buf, c.h.frames[j].msg)
  }

  ghost predicate Copied(c: Ctx, p: Ptr, seen: nat, j: nat, size: nat, buf: map<nat, byte>)
    requires |c.h.ends| == c.w.cyc && |c.h.starts| == c.w.cyc + 1
  {
    seen <= j < |c.h.frames| && Assembled(size, buf) == c.h.frames[j].msg && Standing(c, p, j + 1)
  }

  /** What holds of a reader whose flag is still set. */
  ghost predicate Phase(c: Ctx, r: Reader, seen: nat)
    requires |c.h.ends| == c.w.cyc && |c.h.starts| == c.w.cyc + 1
  {
    match r.pc
    case LoadTag(_, _) => Facing(c, r.ptr, seen)
    case Recheck(_, _, tag) =>
      (tag == -1 && MayHop(c, r.ptr, seen)) || exists j :: InFrame(c, r.ptr, seen, j, tag)
    case Hop(_) => MayHop(c, r.ptr, seen)
    case Skip(_, size) => exists j :: InFrame(c, r.ptr, seen, j, size)
    case Copy(_, size, buf) => exists j :: Copying(c, r.ptr, seen, j, size, buf)
    case Confirm(size, buf) => exists j :: Copied(c, r.ptr, seen, j, size, buf)
    case _ => Standing(c, r.ptr, seen)
  }

  ghost predicate Tracks(c: Ctx, r: Reader, seen: nat)
    requires |c.h.ends| == c.w.cyc && |c.h.starts| == c.w.cyc + 1
  {
    Delivered(r.got, c.h.frames, seen) && (r.valid ==> Phase(c, r, seen))
  }

  ghost predicate ReaderOK(c: Ctx, n: nat, r: Reader)
    requires |c.h.ends| == c.w.cyc && |c.h.starts| == c.w.cyc + 1
  {
    LocalOK(n, r) && exists seen :: Tracks(c, r, seen)
  }

  ghost predicate ReadersOK(s: State)
    requires |s.h.ends| == s.w.cyc && |s.h.starts| == s.w.cyc + 1
  {
    forall k | 0 <= k < |s.readers| :: ReaderOK(ViewOf(s, k), |s.mem|, s.readers[k])
  }

  ghost predicate Inv(s: State) {
    MemOK(MemCtx(s), s.mem) && WriterOK(s) && ReadersOK(s)
  }

  // ----- a subscriber's step keeps the invariant -----

  ghost predicate Views(m: Ctx, c: Ctx, mem: seq<byte>) {
    MemOK(m, mem) && CtxOK(c, |mem|) && m.edge <= c.edge && c == m.(edge := c.edge)
  }

  lemma TagKeeps(m: Ctx, c: Ctx, mem: seq<byte>, r: Reader, seen: nat, k: nat)
    requires Views(m, c, mem) && LocalOK(|mem|, r) && Tracks(c, r, seen)
    requires r.pc.LoadTag? && r.valid
    ensures Tracks(c, ReaderNext(mem, c.w, r, k), seen)
  {
    if j: nat :| OnFrame(c, r.ptr, seen, j) {
      assert OnFrame(m, r.ptr, seen, j);
      ReadFrame(m, mem, r.ptr, seen, j);
      assert InFrame(c, r.ptr, seen, j, |c.h.frames[j].msg|);
    } else if t: nat :| OnEnd(c, r.ptr, seen, t) {
      assert OnEnd(m, r.ptr, seen, t);
      ReadEnd(m, mem, r.ptr, seen, t);
    }
  }

  lemma CopyKeeps(m: Ctx, c: Ctx, mem: seq<byte>, r: Reader, seen: nat, k: nat)
    requires Views(m, c, mem) && LocalOK(|mem|, r) && Tracks(c, r, seen)
    requires r.pc.Copy?
    ensures LocalOK(|mem|, ReaderNext(mem, c.w, r, k)) && Tracks(c, ReaderNext(mem, c.w, r, k), seen)
  {
    NextOffIsEnd(r.ptr.off, r.pc.size);
    if r.valid {
      var j: nat :| Copying(c, r.ptr, seen, j, r.pc.size, r.pc.buf);
      CopyingKeeps(m, c, mem, r, seen, k, j);
    }
  }

  lemma CopyingKeeps(m: Ctx, c: Ctx, mem: seq<byte>, r: Reader, seen: nat, k: nat, j: nat)
    requires Views(m, c, mem) && LocalOK(|mem|, r)
    requires r.pc.Copy? && Copying(c, r.ptr, seen, j, r.pc.size, r.pc.buf)
    ensures Phase(c, ReaderNext(mem, c.w, r, k), seen)
  {
    var q, size := ReaderNext(mem, c.w, r, k), r.pc.size;
    if k < size {
      assert FramePayloadOK(m, mem, j);
      assert Copying(c, q.ptr, seen, j, size, q.pc.buf);
    } else if q.pc.Confirm? {
      NextOffIsEnd(r.ptr.off, size);
      PastFrame(c, |mem|, r.ptr, seen, j, size);
      assert Assembled(size, r.pc.buf) == c.h.frames[j].msg;
      assert Copied(c, q.ptr, seen, j, size, r.pc.buf);
    } else {
      assert Copying(c, q.ptr, seen, j, size, q.pc.buf);
    }
  }

  lemma RecheckKeeps(c: Ctx, mem: seq<byte>, r: Reader, seen: nat, k: nat)
    requires CtxOK(c, |mem|) && LocalOK(|mem|, r) && Phase(c, r, seen) && r.valid && r.pc.Recheck?
    ensures var q := ReaderNext(mem, c.w, r, k); LocalOK(|mem|, q) && Phase(c, q, seen)
  {
    var q, tag := ReaderNext(mem, c.w, r, k), r.pc.tag;
    if tag != -1 {
      var j: nat :| InFrame(c, r.ptr, seen, j, tag);
      FrameFits(c, |mem|, j);
      assert if q.pc.Skip? then InFrame(c, q.ptr, seen, j, tag) else Copying(c, q.ptr, seen, j, tag, q.pc.buf);
    }
  }

  lemma SkipKeeps(c: Ctx, mem: seq<byte>, r: Reader, seen: nat, k: nat) returns (next: nat)
    requires CtxOK(c, |mem|) && LocalOK(|mem|, r) && Tracks(c, r, seen) && r.valid && r.pc.Skip?
    ensures var q := ReaderNext(mem, c.w, r, k); LocalOK(|mem|, q) && Tracks(c, q, next)
  {
    var j: nat :| InFrame(c, r.ptr, seen, j, r.pc.size);
    FrameFits(c, |mem|, j);
    NextOffIsEnd(r.ptr.off, r.pc.size);
    PastFrame(c, |mem|, r.ptr, seen, j, r.pc.size);
    DeliveredGrows(r.got, c.h.frames, [], seen, j + 1);
    assert c.h.frames + [] == c.h.frames;
    next := j + 1;
  }

  /** A step of a reader whose flag is set, outside loading the tag and copying. */
  lemma ValidKeeps(c: Ctx, mem: seq<byte>, r: Reader, seen: nat, k: nat) returns (next: nat)
    requires CtxOK(c, |mem|) && LocalOK(|mem|, r) && Tracks(c, r, seen)
    requires r.valid && !r.pc.LoadTag? && !r.pc.Copy?
    ensures var q := ReaderNext(mem, c.w, r, k); LocalOK(|mem|, q) && Tracks(c, q, next)
  {
    next := seen;
    match r.pc
    case Recheck(_, _, _) => RecheckKeeps(c, mem, r, seen, k);
    case Hop(_) => AfterHop(c, |mem|, r.ptr, seen);
    case Skip(_, _) => next := SkipKeeps(c, mem, r, seen, k);
    case Confirm(size, buf) =>
      var j: nat :| Copied(c, r.ptr, seen, j, size, buf);
      DeliverNext(r.got, c.h.frames, seen, j);
      next := j + 1;
    case _ =>
  }

  lemma InvalidKeeps(c: Ctx, mem: seq<byte>, r: Reader, seen: nat, k: nat)
    requires CtxOK(c, |mem|) && LocalOK(|mem|, r) && Tracks(c, r, seen) && !r.valid && !r.pc.Copy?
    ensures var q := ReaderNext(mem, c.w, r, k); LocalOK(|mem|, q) && Tracks(c, q, seen)
  {
    if r.pc.Skip? {
      NextOffIsEnd(r.ptr.off, r.pc.size);
    }
  }

  lemma ReaderKeeps(m: Ctx, c: Ctx, mem: seq<byte>, r: Reader, k: nat)
    requires Views(m, c, mem) && ReaderOK(c, |mem|, r)
    ensures ReaderOK(c, |mem|, ReaderNext(mem, c.w, r, k))
  {
    var seen: nat :| Tracks(c, r, seen);
    var q := ReaderNext(mem, c.w, r, k);
    if r.pc.Copy? {
      CopyKeeps(m, c, mem, r, seen, k);
    } else if r.valid && r.pc.LoadTag? {
      TagKeeps(m, c, mem, r, seen, k);
    } else if r.valid {
      seen := ValidKeeps(c, mem, r, seen, k);
    } else {
      InvalidKeeps(c, mem, r, seen, k);
    }
    assert Tracks(c, q, seen);
  }

  // ----- the publisher's step keeps the invariant -----

  /** A reader that has not moved stays right when the writer's move keeps every position. */
  ghost predicate Keeps(c: Ctx, d: Ctx, p: Ptr, seen: nat)
    requires |c.h.ends| == c.w.cyc && |c.h.starts| == c.w.cyc + 1
    requires |d.h.ends| == d.w.cyc && |d.h.starts| == d.w.cyc + 1
  {
    && c.h.frames <= d.h.frames
    && (Standing(c, p, seen) ==> Standing(d, p, seen))
    && (Facing(c, p, seen) ==> Facing(d, p, seen))
    && (MayHop(c, p, seen) ==> MayHop(d, p, seen))
    && (forall j, size :: InFrame(c, p, seen, j, size) ==> InFrame(d, p, seen, j, size))
  }

  lemma KeptReader(c: Ctx, d: Ctx, n: nat, r: Reader)
    requires HistoryOK(c.h, c.w, n) && HistoryOK(d.h, d.w, n) && ReaderOK(c, n, r)
    requires r.valid ==> forall seen :: Keeps(c, d, r.ptr, seen)
    requires c.h.frames <= d.h.frames
    ensures ReaderOK(d, n, r)
  {
    var seen: nat :| Tracks(c, r, seen);
    DeliveredGrows(r.got, c.h.frames, d.h.frames[|c.h.frames|..], seen, seen);
    assert c.h.frames + d.h.frames[|c.h.frames|..] == d.h.frames;
    if r.valid {
      assert Keeps(c, d, r.ptr, seen);
      if r.pc.Recheck? && r.pc.tag != -1 {
        var j: nat :| InFrame(c, r.ptr, seen, j, r.pc.tag);
        assert InFrame(d, r.ptr, seen, j, r.pc.tag);
      } else if r.pc.Skip? {
        var j: nat :| InFrame(c, r.ptr, seen, j, r.pc.size);
        assert InFrame(d, r.ptr, seen, j, r.pc.size);
      } else if r.pc.Copy? {
        var j: nat :| Copying(c, r.ptr, seen, j, r.pc.size, r.pc.buf);
        assert InFrame(d, r.ptr, seen, j, r.pc.size);
        assert Copying(d, r.ptr, seen, j, r.pc.size, r.pc.buf);
      } else if r.pc.Confirm? {
        var j: nat :| Copied(c, r.ptr, seen, j, r.pc.size, r.pc.buf);
        assert Keeps(c, d, r.ptr, j + 1);
        assert Copied(d, r.ptr, seen, j, r.pc.size, r.pc.buf);
      }
    }
    assert Tracks(d, r, seen);
  }

  /** The writer moved on without touching memory: each reader is as before, or just lost its flag. */
  lemma SameMemory(s: State, t: State)
    requires Inv(s) && WriterOK(t) && MemCtx(t) == MemCtx(s) && t.mem == s.mem && |t.readers| == |s.readers|
    requires forall i | 0 <= i < |t.readers| ::
               || (t.readers[i] == s.readers[i] && ViewOf(t, i) == ViewOf(s, i))
               || t.readers[i] == s.readers[i].(valid := false)
    ensures Inv(t)
  {
    var n := |s.mem|;
    forall i | 0 <= i < |t.readers| ensures ReaderOK(ViewOf(t, i), n, t.readers[i]) {
      assert ReaderOK(ViewOf(s, i), n, s.readers[i]);
      if ViewOf(t, i) != ViewOf(s, i) || t.readers[i] != s.readers[i] {
        Invalidated(ViewOf(s, i), n, s.readers[i]);
        KeptReader(ViewOf(s, i), ViewOf(t, i), n, t.readers[i]);
      }
    }
  }

  lemma Invalidated(c: Ctx, n: nat, r: Reader)
    requires |c.h.ends| == c.w.cyc && |c.h.starts| == c.w.cyc + 1 && ReaderOK(c, n, r)
    ensures ReaderOK(c, n, r.(valid := false))
  {
    var seen: nat :| Tracks(c, r, seen);
    assert Tracks(c, r.(valid := false), seen);
  }

  lemma WrapMarkKeeps(s: State, m: seq<byte>)
    requires Inv(s) && s.writer == WrapTag(m)
    ensures Inv(StoreWrapMark(s, m))
  {
    var t, c, n := StoreWrapMark(s, m), MemCtx(s), |s.mem|;
    StoreWrapTag(c, s.mem, t.mem);
    assert MemCtx(t) == Tagged(c);
    forall i | 0 <= i < |t.readers| ensures ReaderOK(ViewOf(t, i), n, t.readers[i]) {
      assert ReaderOK(ViewOf(s, i), n, s.readers[i]);
      forall seen ensures Keeps(c, Tagged(c), t.readers[i].ptr, seen) {
        TaggedKeeps(c, n, t.readers[i].ptr, seen);
      }
      KeptReader(c, Tagged(c), n, t.readers[i]);
    }
  }

  lemma WrapPublishKeeps(s: State, m: seq<byte>)
    requires Inv(s) && s.writer == WrapPublish(m)
    ensures Inv(PublishTheWrap(s, m))
  {
    var t, c, n := PublishTheWrap(s, m), MemCtx(s), |s.mem|;
    PublishWrap(c, s.mem);
    assert MemCtx(t) == Wrapped(c);
    forall i | 0 <= i < |t.readers| ensures ReaderOK(ViewOf(t, i), n, t.readers[i]) {
      assert ReaderOK(ViewOf(s, i), n, s.readers[i]);
      forall seen ensures Keeps(c, Wrapped(c), t.readers[i].ptr, seen) {
        WrappedKeeps(c, n, t.readers[i].ptr, seen);
      }
      KeptReader(c, Wrapped(c), n, t.readers[i]);
    }
  }

  lemma SparedReader(c: Ctx, n: nat, r: Reader, e: nat)
    requires CtxOK(c, n) && !c.tagged && c.edge == c.w.off <= e && Spared(c.w, r.ptr, e) && ReaderOK(c, n, r)
    ensures ReaderOK(c.(edge := e), n, r)
  {
    forall seen ensures Keeps(c, c.(edge := e), r.ptr, seen) {
      SparedKeeps(c, n, r.ptr, seen, e);
    }
    KeptReader(c, c.(edge := e), n, r);
  }

  lemma TestInsideReaders(s: State, m: seq<byte>, x: nat)
    requires CtxOK(MemCtx(s), |s.mem|) && WriterOK(s) && ReadersOK(s) && s.writer == Load(m, x)
    ensures ReadersOK(TestInside(s, m, x))
  {
    var t, n := TestInside(s, m, x), |s.mem|;
    forall i | 0 <= i < |t.readers| ensures ReaderOK(ViewOf(t, i), n, t.readers[i]) {
      assert ReaderOK(ViewOf(s, i), n, s.readers[i]);
      if i == x && !t.writer.Clear? {
        SparedReader(MemCtx(s), n, t.readers[i], s.w.off + Total(|m|));
      }
    }
  }

  lemma TestInsideKeeps(s: State, m: seq<byte>, x: nat)
    requires Inv(s) && s.writer == Load(m, x)
    ensures Inv(TestInside(s, m, x))
  {
    TestInsideReaders(s, m, x);
    assert MemCtx(TestInside(s, m, x)) == MemCtx(s);
  }

  /** The writer stored into memory; readers and what they must avoid are as before. */
  lemma SameReaders(s: State, t: State)
    requires |s.h.ends| == s.w.cyc && |s.h.starts| == s.w.cyc + 1 && ReadersOK(s)
    requires t.h == s.h && t.w == s.w && t.readers == s.readers && |t.mem| == |s.mem|
    requires forall i | 0 <= i < |s.readers| :: ViewOf(t, i) == ViewOf(s, i)
    ensures ReadersOK(t)
  {
  }

  lemma SizeStored(s: State, m: seq<byte>, mem: seq<byte>)
    requires Inv(s) && s.writer == PutTag(m) && |mem| == |s.mem|
    requires forall k | 0 <= k < |mem| && (k < s.w.off || s.w.off + 8 <= k) :: mem[k] == s.mem[k]
    requires s.w.off + 8 <= |mem| && TagAt(mem, s.w.off) == |m|
    ensures Inv(s.(mem := mem, writer := PutData(m, {})))
  {
    StoreSizeTag(MemCtx(s), s.mem, mem, |m|);
    SameReaders(s, s.(mem := mem, writer := PutData(m, {})));
  }

  lemma StoreSizeKeeps(s: State, m: seq<byte>)
    requires Inv(s) && s.writer == PutTag(m)
    ensures Inv(StoreSize(s, m))
  {
    SizeStored(s, m, StoreTag(s.mem, s.w.off, |m|));
  }

  lemma ByteStored(s: State, m: seq<byte>, done: set<nat>, k: nat)
    requires Inv(s) && s.writer == PutData(m, done) && k < |m|
    ensures Inv(StoreByte(s, m, done, k))
  {
    StorePayloadByte(MemCtx(s), s.mem, k, m[k], |m|);
    SameReaders(s, StoreByte(s, m, done, k));
  }

  lemma StoreByteKeeps(s: State, m: seq<byte>, done: set<nat>, k: nat)
    requires Inv(s) && s.writer == PutData(m, done)
    ensures Inv(StoreByte(s, m, done, k))
  {
    if k < |m| {
      ByteStored(s, m, done, k);
    } else if StoreByte(s, m, done, k) != s {
      assert HoldsPayload(s.mem, s.w.off, m);
      SameMemory(s, StoreByte(s, m, done, k));
    }
  }

  lemma PublishKeeps(s: State, m: seq<byte>)
    requires Inv(s) && s.writer == Publish(m)
    ensures Inv(PublishTheFrame(s, m))
  {
    var t, c, n := PublishTheFrame(s, m), MemCtx(s), |s.mem|;
    PublishFrame(c, s.mem, m);
    NextOffIsEnd(s.w.off, |m|);
    assert MemCtx(t) == Published(c, m);
    forall i | 0 <= i < |t.readers| ensures ReaderOK(ViewOf(t, i), n, t.readers[i]) {
      assert ReaderOK(ViewOf(s, i), n, s.readers[i]);
      forall seen ensures Keeps(c, Published(c, m), t.readers[i].ptr, seen) {
        PublishedKeeps(c, n, t.readers[i].ptr, seen, m);
      }
      KeptReader(c, Published(c, m), n, t.readers[i]);
    }
  }

  lemma BeginKeeps(s: State, msg: seq<byte>)
    requires Inv(s) && s.writer.Idle?
    ensures Inv(Begin(s, msg))
  {
    SameMemory(s, Begin(s, msg));
  }

  lemma WrapLoopKeeps(s: State, m: seq<byte>, i: nat)
    requires Inv(s)
    ensures s.writer == WrapLoad(m, i) ==> Inv(TestBeyond(s, m, i))
    ensures s.writer == WrapClear(m, i) ==> Inv(ClearBeyond(s, m, i))
  {
    if s.writer == WrapLoad(m, i) {
      SameMemory(s, TestBeyond(s, m, i));
    } else if s.writer == WrapClear(m, i) {
      SameMemory(s, ClearBeyond(s, m, i));
    }
  }

  lemma ClearInsideKeeps(s: State, m: seq<byte>, i: nat)
    requires Inv(s) && s.writer == Clear(m, i)
    ensures Inv(ClearInside(s, m, i))
  {
    SameMemory(s, ClearInside(s, m, i));
  }

  lemma WriterKeeps(s: State, msg: seq<byte>, k: nat)
    requires Inv(s)
    ensures Inv(WriterNext(s, msg, k))
  {
    match s.writer
    case Idle => BeginKeeps(s, msg);
    case WrapTag(m) => WrapMarkKeeps(s, m);
    case WrapLoad(m, i) => WrapLoopKeeps(s, m, i);
    case WrapClear(m, i) => WrapLoopKeeps(s, m, i);
    case WrapPublish(m) => WrapPublishKeeps(s, m);
    case Load(m, i) => TestInsideKeeps(s, m, i);
    case Clear(m, i) => ClearInsideKeeps(s, m, i);
    case PutTag(m) => StoreSizeKeeps(s, m);
    case PutData(m, done) => StoreByteKeeps(s, m, done, k);
    case Publish(m) => PublishKeeps(s, m);
  }

  // ----- every run -----

  lemma ReaderStepKeeps(s: State, i: nat, k: nat)
    requires Inv(s) && i < |s.readers|
    ensures Inv(ReaderStep(s, i, k))
  {
    var t := ReaderStep(s, i, k);
    ReaderKeeps(MemCtx(s), ViewOf(s, i), s.mem, s.readers[i], k);
    assert MemCtx(t) == MemCtx(s);
    forall l | 0 <= l < |t.readers| ensures ReaderOK(ViewOf(t, l), |t.mem|, t.readers[l]) {
      assert ViewOf(t, l) == ViewOf(s, l);
      assert ReaderOK(ViewOf(s, l), |s.mem|, s.readers[l]);
    }
  }

  lemma NextKeeps(s: State, t: State)
    requires Inv(s) && Next(s, t)
    ensures Inv(t)
  {
    if msg, k: nat :| t == WriterNext(s, msg, k) {
      WriterKeeps(s, msg, k);
    } else {
      var i: nat, k: nat :| i < |s.readers| && t == ReaderStep(s, i, k);
      ReaderStepKeeps(s, i, k);
    }
  }

  lemma InitHolds(s: State)
    requires Init(s)
    ensures Inv(s)
  {
    forall k | 0 <= k < |s.readers| ensures ReaderOK(ViewOf(s, k), |s.mem|, s.readers[k]) {
      assert Selects([], [], [], 0);
      assert Tracks(ViewOf(s, k), s.readers[k], 0);
    }
  }

  lemma StepOfRun(states: seq<State>, k: nat)
    requires Run(states) && k + 1 < |states|
    ensures Next(states[k], states[k + 1])
  {
    assert StepAt(states, k);
  }

  lemma {:induction false} ReachedOK(states: seq<State>, k: nat)
    requires Run(states) && k < |states|
    ensures Inv(states[k])
  {
    if k == 0 {
      InitHolds(states[0]);
    } else {
      ReachedOK(states, k - 1);
      StepOfRun(states, k - 1);
      NextKeeps(states[k - 1], states[k]);
    }
  }

  /** In every interleaving, no assertion fails and no access leaves the ring, and what each
      subscriber returned is, byte for byte, a strictly increasing selection of the messages
      published so far: no torn, invented, reordered or repeated message. */
  lemma NoTornReads(states: seq<State>, k: nat, i: nat)
    requires Run(states) && k < |states| && i < |states[k].readers|
    ensures var s := states[k];
      !s.readers[i].pc.Crashed? && Delivered(s.readers[i].got, s.h.frames, |s.h.frames|)
  {
    ReachedOK(states, k);
    var s := states[k];
    assert ReaderOK(ViewOf(s, i), |s.mem|, s.readers[i]);
    var seen: nat :| Tracks(ViewOf(s, i), s.readers[i], seen);
    DeliveredGrows(s.readers[i].got, s.h.frames, [], seen, |s.h.frames|);
    assert s.h.frames + [] == s.h.frames;
  }

  /** In every interleaving the publisher's stores stay in the ring, the published write pointer is
      8-aligned, and a wraparound tag always fits behind it. */
  lemma StoresStayInRing(states: seq<State>, k: nat)
    requires Run(states) && k < |states|
    ensures var s, n := states[k], |states[k].mem|;
      && s.w.off % 8 == 0 && s.w.off + 8 < n
      && (s.writer.PutTag? || s.writer.PutData? || s.writer.Publish? ==>
            s.w.off + 8 + |s.writer.msg| <= s.w.off + Total(|s.writer.msg|) < n - 8)
  {
    ReachedOK(states, k);
  }

  /** In every interleaving, a size tag that a subscriber loaded and whose validity check then passes is
      -1 or the true size of a published frame at the subscriber's offset that it has not returned. */
  lemma TagsAreTrue(states: seq<State>, k: nat, i: nat)
    requires Run(states) && k < |states| && i < |states[k].readers|
    requires states[k].readers[i].valid && states[k].readers[i].pc.Recheck?
    ensures
      var s, r := states[k], states[k].readers[i];
      r.pc.tag == -1 || exists j: nat ::
        j < |s.h.frames| && s.h.frames[j].off == r.pc.lr.off && |s.h.frames[j].msg| == r.pc.tag && Delivered(r.got, s.h.frames, j)
  {
    ReachedOK(states, k);
    var s, r := states[k], states[k].readers[i];
    assert ReaderOK(ViewOf(s, i), |s.mem|, r);
    var seen: nat :| Tracks(ViewOf(s, i), r, seen);
    if r.pc.tag != -1 {
      var j: nat :| InFrame(ViewOf(s, i), r.ptr, seen, j, r.pc.tag);
      DeliveredGrows(r.got, s.h.frames, [], seen, j);
      assert s.h.frames + [] == s.h.frames;
    }
  }

  // ----- which flags a publisher clears -----

  /** The publisher has found that subscriber `k` must be cleared. */
  predicate Clearing(pc: WriterPc, k: nat) {
    (pc.WrapClear? && pc.i == k) || (pc.Clear? && pc.i == k)
  }

  /** State `s` shows the publisher about to look at subscriber `k`, and unread bytes of an earlier lap there in
      its way: beyond the write pointer when it wraps, or in the area of the frame. */
  predicate InTheWay(s: State, k: nat) {
    && k < |s.readers| && s.readers[k].ptr.cyc != s.w.cyc
    && ((s.writer.WrapLoad? && s.writer.i == k && s.readers[k].ptr.off > s.w.off)
        || (s.writer.Load? && s.writer.i == k
            && s.w.off <= s.readers[k].ptr.off < s.w.off + (|s.writer.msg| + 8 + 7) / 8 * 8))
  }

  /** Only the publisher clears a flag, and only where it has found so. */
  lemma OnlyClearingClears(s: State, t: State, k: nat)
    requires Next(s, t) && k < |s.readers| && k < |t.readers| && s.readers[k].valid && !t.readers[k].valid
    ensures Clearing(s.writer, k)
  {
  }

  lemma {:induction false} ClearingWasInTheWay(states: seq<State>, b: nat, k: nat) returns (a: nat)
    requires Run(states) && b < |states| && Clearing(states[b].writer, k)
    ensures a < b && InTheWay(states[a], k)
  {
    StepOfRun(states, b - 1);
    var s, t := states[b - 1], states[b];
    if Clearing(s.writer, k) {
      a := ClearingWasInTheWay(states, b - 1, k);
    } else {
      StoresStayInRing(states, b - 1);
      a := b - 1;
    }
  }

  /** In every interleaving a subscriber loses its flag only after the publisher saw it in the way. */
  lemma ClearsOnlyInTheWay(states: seq<State>, b: nat, k: nat) returns (a: nat)
    requires Run(states) && b + 1 < |states| && k < |states[b].readers| && k < |states[b + 1].readers|
    requires states[b].readers[k].valid && !states[b + 1].readers[k].valid
    ensures a < b && InTheWay(states[a], k)
  {
    StepOfRun(states, b);
    OnlyClearingClears(states[b], states[b + 1], k);
    a := ClearingWasInTheWay(states, b, k);
  }
}
