/** The operations of bridge/msgq/msgq.cc as functions on the shared header, the ring, and one
    process's local fields, each taken as one atomic step. `Msgq` refines these with classes. */
module Queue {
  import opened Words
  import opened Ring

  const NUM_READERS: nat := 15

  /** The mapped memory: header words (pointers unpacked) and data segment. */
  datatype Shared = Shared(numReaders: nat, w: Ptr, writeUid: nat,
                           ptrs: seq<Ptr>, valids: seq<bool>, uids: seq<nat>, data: seq<byte>)

  /** What one process keeps about a queue; `readerId` is -1 before `msgq_init_subscriber`. */
  datatype Local = Local(readerId: int, readUid: nat, writeUid: nat, conflate: bool)

  datatype SendResult = Refused | SendAborted | Sent(size: nat)
  datatype RecvResult = Nothing | Got(msg: seq<byte>) | RecvAborted

  predicate Shape(q: Shared) {
    && |q.ptrs| == |q.valids| == |q.uids| == NUM_READERS && q.numReaders <= NUM_READERS
    && q.w.off % 8 == 0 && q.w.off + 8 < |q.data| < 0x1_0000_0000
  }

  // ----- registration -----

  function AllClear(q: Shared): Shared {
    q.(numReaders := 0, valids := seq(NUM_READERS, _ => false), uids := seq(NUM_READERS, _ => 0))
  }

  function InitPublisher(q: Shared, l: Local, uid: nat): (Shared, Local) {
    (AllClear(q).(writeUid := uid), l.(writeUid := uid))
  }

  function Reset(q: Shared, id: nat): Shared
    requires Shape(q) && id < NUM_READERS
  {
    q.(valids := q.valids[id := true], ptrs := q.ptrs[id := q.w])
  }

  /** Every slot taken: evict everybody first. */
  function Evicted(q: Shared): Shared {
    if q.numReaders + 1 > NUM_READERS then AllClear(q) else q
  }

  function Claim(q: Shared, uid: nat): Shared
    requires Shape(q) && q.numReaders < NUM_READERS
  {
    var id := q.numReaders;
    q.(numReaders := id + 1, valids := q.valids[id := false], ptrs := q.ptrs[id := Ptr(0, 0)],
       uids := q.uids[id := uid])
  }

  function InitSubscriber(q: Shared, l: Local, uid: nat): (Shared, Local)
    requires Shape(q)
  {
    var e := Evicted(q);
    (Reset(Claim(e, uid), e.numReaders), l.(readerId := e.numReaders, readUid := uid))
  }

  // ----- send -----

  predicate Beyond(q: Shared, i: nat)
    requires Shape(q) && i < NUM_READERS
  {
    q.ptrs[i].off > q.w.off && q.ptrs[i].cyc != q.w.cyc
  }

  predicate Inside(q: Shared, i: nat, end: nat)
    requires Shape(q) && i < NUM_READERS
  {
    q.w.off <= q.ptrs[i].off < end && q.ptrs[i].cyc != q.w.cyc
  }

  /** The flags left by the loop over registered readers that clears those beyond the write pointer. */
  function KeptBeyond(q: Shared): (v: seq<bool>)
    requires Shape(q)
  {
    seq(NUM_READERS, i requires 0 <= i < NUM_READERS => q.valids[i] && !(i < q.numReaders && Beyond(q, i)))
  }

  /** The flags left by the loop that clears those inside the area about to be written. */
  function KeptInside(q: Shared, end: nat): (v: seq<bool>)
    requires Shape(q)
  {
    seq(NUM_READERS, i requires 0 <= i < NUM_READERS => q.valids[i] && !(i < q.numReaders && Inside(q, i, end)))
  }

  /** The wraparound: tag, invalidate the readers beyond it, move the write pointer to the start. */
  function WrapAround(q: Shared): Shared
    requires Shape(q)
  {
    q.(data := StoreTag(q.data, q.w.off, -1), valids := KeptBeyond(q), w := Ptr(q.w.cyc + 1, 0))
  }

  /** Invalidate the readers in the area, write the frame, publish. */
  function Append(q: Shared, msg: seq<byte>): Shared
    requires Shape(q) && q.w.off + Total(|msg|) + 8 < |q.data|
  {
    q.(valids := KeptInside(q, Align(q.w.off + 8 + |msg|)),
       data := Splice(StoreTag(q.data, q.w.off, |msg|), q.w.off + 8, msg),
       w := Ptr(q.w.cyc, NextOff(q.w.off, |msg|)))
  }

  function Send(q: Shared, l: Local, msg: seq<byte>): (Shared, SendResult)
    requires Shape(q)
  {
    if l.writeUid != q.writeUid then (q, Refused)
    else if 3 * Total(|msg|) > |q.data| then (q, SendAborted)
    else (Append(if MustWrap(msg, q.w, |q.data|) then WrapAround(q) else q, msg), Sent(|msg|))
  }

  // ----- the invariant on shared memory -----

  function CtxOf(q: Shared, h: History): Ctx {
    Ctx(h, q.w, q.w.off, false)
  }

  /** Memory is right, slots in use are exactly those `send` looks at, and only a fresh ring is empty. */
  ghost predicate QueueOK(q: Shared, h: History) {
    && Shape(q) && MemOK(CtxOf(q, h), q.data)
    && (q.w.off == 0 ==> q.w.cyc == 0)
    && forall k | q.numReaders <= k < NUM_READERS :: !q.valids[k] && q.uids[k] == 0
  }

  /** Slot `id`, if valid, stands where everything ahead is unread and intact. */
  ghost predicate Stands(q: Shared, h: History, id: nat, seen: nat) {
    && id < |q.valids| && id < |q.ptrs| && |h.ends| == q.w.cyc && |h.starts| == q.w.cyc + 1
    && (q.valids[id] ==> Standing(CtxOf(q, h), q.ptrs[id], seen))
  }

  function AfterSend(q: Shared, h: History, msg: seq<byte>): History {
    var c := Ctx(h, q.w, q.w.off, true);
    Published(if MustWrap(msg, q.w, |q.data|) then Wrapped(c) else c, msg).h
  }

  lemma WrapAroundKeeps(q: Shared, h: History)
    requires QueueOK(q, h) && 0 < q.w.off
    ensures var d := Wrapped(Tagged(CtxOf(q, h)));
      && Shape(WrapAround(q)) && d == CtxOf(WrapAround(q), d.h) && MemOK(d, WrapAround(q).data)
      && forall p, seen :: Standing(CtxOf(q, h), p, seen) ==> Standing(d, p, seen)
  {
    var c, r := CtxOf(q, h), WrapAround(q);
    StoreWrapTag(c, q.data, r.data);
    PublishWrap(Tagged(c), r.data);
    forall p, seen | Standing(c, p, seen) ensures Standing(Wrapped(Tagged(c)), p, seen) {
      TaggedKeeps(c, |q.data|, p, seen);
      WrappedKeeps(Tagged(c), |q.data|, p, seen);
    }
  }

  lemma AppendKeeps(q: Shared, h: History, msg: seq<byte>)
    requires Shape(q) && MemOK(CtxOf(q, h), q.data) && |msg| > 0 && q.w.off + Total(|msg|) + 8 < |q.data|
    ensures var r, d := Append(q, msg), Published(CtxOf(q, h), msg);
      Shape(r) && d == CtxOf(r, d.h) && MemOK(d, r.data)
  {
    var c, r, e := CtxOf(q, h), Append(q, msg), q.w.off + Total(|msg|);
    NextOffIsEnd(q.w.off, |msg|);
    AppendedFrame(q.data, q.w.off, msg);
    StoreAhead(c, q.data, r.data, e);
    PublishFrame(c.(edge := e), r.data, msg);
  }

  lemma AppendedFrame(mem: seq<byte>, o: nat, msg: seq<byte>)
    requires o + 8 + |msg| <= |mem| && |msg| < 0x1_0000_0000
    ensures var m := Splice(StoreTag(mem, o, |msg|), o + 8, msg); TagAt(m, o) == |msg| && HoldsPayload(m, o, msg)
  {
    SameTag(StoreTag(mem, o, |msg|), Splice(StoreTag(mem, o, |msg|), o + 8, msg), o);
  }

  /** The queue and history a send works on once any wraparound is done. */
  function BeforeAppend(q: Shared, h: History, msg: seq<byte>): (Shared, History)
    requires Shape(q)
  {
    if MustWrap(msg, q.w, |q.data|) then (WrapAround(q), Wrapped(Tagged(CtxOf(q, h))).h) else (q, h)
  }

  lemma BeforeAppendOK(q: Shared, h: History, msg: seq<byte>)
    requires QueueOK(q, h) && |msg| > 0 && 3 * Total(|msg|) <= |q.data|
    ensures var (r, g) := BeforeAppend(q, h, msg);
      && Shape(r) && MemOK(CtxOf(r, g), r.data) && r.w.off + Total(|msg|) + 8 < |r.data|
      && r.numReaders == q.numReaders && r.uids == q.uids && r.ptrs == q.ptrs && |r.data| == |q.data|
      && g.frames == h.frames && (r.w.cyc > 0 || r.w == q.w)
      && (forall k | 0 <= k < NUM_READERS :: r.valids[k] ==> q.valids[k])
      && (forall p, seen :: Standing(CtxOf(q, h), p, seen) ==> Standing(CtxOf(r, g), p, seen))
  {
    if MustWrap(msg, q.w, |q.data|) {
      WrapAroundKeeps(q, h);
    }
  }

  /** A send appends exactly its message to the history. */
  lemma SendKeeps(q: Shared, h: History, l: Local, msg: seq<byte>)
    requires QueueOK(q, h) && |msg| > 0 && Send(q, l, msg).1.Sent?
    ensures QueueOK(Send(q, l, msg).0, AfterSend(q, h, msg))
    ensures exists f: Frame :: f.msg == msg && AfterSend(q, h, msg).frames == h.frames + [f]
  {
    var (r, g) := BeforeAppend(q, h, msg);
    BeforeAppendOK(q, h, msg);
    AppendKeeps(r, g, msg);
    NextOffIsEnd(r.w.off, |msg|);
    assert AfterSend(q, h, msg) == Published(CtxOf(r, g), msg).h;
    assert AfterSend(q, h, msg).frames == h.frames + [Frame(r.w.cyc, r.w.off, msg)];
  }

  lemma AppendStands(r: Shared, g: History, msg: seq<byte>, p: Ptr, seen: nat)
    requires Shape(r) && HistoryOK(g, r.w, |r.data|) && |msg| > 0 && r.w.off + Total(|msg|) + 8 < |r.data|
    requires Standing(CtxOf(r, g), p, seen) && Spared(r.w, p, Append(r, msg).w.off)
    ensures HistoryOK(Published(CtxOf(r, g), msg).h, Append(r, msg).w, |r.data|)
    ensures Standing(CtxOf(Append(r, msg), Published(CtxOf(r, g), msg).h), p, seen)
  {
    var c, e := CtxOf(r, g), r.w.off + Total(|msg|);
    NextOffIsEnd(r.w.off, |msg|);
    PublishedHistory(c, |r.data|, msg);
    SparedKeeps(c, |r.data|, p, seen, e);
    PublishedKeeps(c.(edge := e), |r.data|, p, seen, msg);
  }

  lemma SparedByAppend(r: Shared, msg: seq<byte>, id: nat)
    requires Shape(r) && r.w.off + Total(|msg|) + 8 < |r.data| && id < r.numReaders && Append(r, msg).valids[id]
    ensures Spared(r.w, r.ptrs[id], Append(r, msg).w.off)
  {
  }

  /** Every reader a send leaves valid still stands on intact frames, none of them read before. */
  lemma SendStands(q: Shared, h: History, l: Local, msg: seq<byte>, id: nat, seen: nat)
    requires QueueOK(q, h) && |msg| > 0 && Send(q, l, msg).1.Sent? && id < NUM_READERS && Stands(q, h, id, seen)
    ensures Stands(Send(q, l, msg).0, AfterSend(q, h, msg), id, seen)
  {
    var (r, g) := BeforeAppend(q, h, msg);
    BeforeAppendOK(q, h, msg);
    assert AfterSend(q, h, msg) == Published(CtxOf(r, g), msg).h;
    assert Send(q, l, msg).0 == Append(r, msg);
    if Append(r, msg).valids[id] {
      SparedByAppend(r, msg, id);
      AppendStands(r, g, msg, q.ptrs[id], seen);
    } else {
      AppendKeeps(r, g, msg);
    }
  }

  // ----- receive -----

  /** `read_uid_local == read_uids[reader_id]`: the process still owns its slot. */
  predicate Live(q: Shared, l: Local)
    requires Shape(q)
  {
    0 <= l.readerId < NUM_READERS && q.uids[l.readerId] == l.readUid
  }

  function Moved(q: Shared, id: nat, p: Ptr): Shared
    requires Shape(q) && id < NUM_READERS
  {
    q.(ptrs := q.ptrs[id := p])
  }

  ghost predicate Anchored(q: Shared, h: History, id: nat) {
    exists seen :: Stands(q, h, id, seen)
  }

  /** What `recv` may assume of its caller's state: the invariant, and the process's own slot in order. */
  ghost predicate Ready4Recv(q: Shared, h: History, l: Local) {
    && QueueOK(q, h) && l.readerId < NUM_READERS
    && (Live(q, l) ==> l.readerId < q.numReaders && Anchored(q, h, l.readerId))
  }

  /** The reader at `p` finds frame `j` and moves past it. */
  ghost predicate Finds(q: Shared, h: History, p: Ptr, seen: nat, j: nat) {
    && Shape(q) && |h.ends| == q.w.cyc && |h.starts| == q.w.cyc + 1
    && seen <= j < |h.frames| && p.off + 8 <= |q.data|
    && var msg := h.frames[j].msg;
    && TagAt(q.data, p.off) == |msg| && 0 < |msg| < |q.data|
    && HoldsPayload(q.data, p.off, msg)
    && var next := NextOff(p.off, |msg|);
    && p.off < next && (p.off < q.w.off ==> next <= q.w.off) && (next == q.w.off ==> j == |h.frames| - 1)
    && next < |q.data|
    && Standing(CtxOf(q, h), Ptr(p.cyc, next), j + 1)
  }

  lemma FindsFrame(q: Shared, h: History, p: Ptr, seen: nat, j: nat)
    requires QueueOK(q, h) && OnFrame(CtxOf(q, h), p, seen, j) && p.off != q.w.off
    ensures Finds(q, h, p, seen, j)
  {
    var c, f := CtxOf(q, h), h.frames[j];
    ReadFrame(c, q.data, p, seen, j);
    FrameFits(c, |q.data|, j);
    assert FrameOK(h, q.w, j) && FramePayloadOK(c, q.data, j);
    NextOffIsEnd(p.off, |f.msg|);
    PastFrame(c, |q.data|, p, seen, j, |f.msg|);
    assert j + 1 < |h.frames| ==> FrameOK(h, q.w, j + 1);
  }

  /** A standing reader that is not at the write pointer finds an unread frame, or a wraparound
      tag behind which, at offset 0, lies one. */
  lemma Advances(q: Shared, h: History, p: Ptr, seen: nat)
    requires QueueOK(q, h) && Standing(CtxOf(q, h), p, seen) && p.off != q.w.off
    ensures p.off + 8 <= |q.data|
    ensures if TagAt(q.data, p.off) == -1
            then p.off > q.w.off > 0 && Standing(CtxOf(q, h), Ptr(p.cyc + 1, 0), seen)
            else exists j :: Finds(q, h, p, seen, j)
  {
    var c := CtxOf(q, h);
    if k: nat :| OnFrame(c, p, seen, k) {
      FindsFrame(q, h, p, seen, k);
    } else {
      var t: nat :| OnEnd(c, p, seen, t);
      ReadEnd(c, q.data, p, seen, t);
      AfterHop(c, |q.data|, p, seen);
    }
  }

  lemma RejoinOK(q: Shared, h: History, l: Local, uid: nat)
    requires QueueOK(q, h)
    ensures var (r, k) := InitSubscriber(q, l, uid);
      QueueOK(r, h) && Live(r, k) && k.readerId < r.numReaders && r.valids[k.readerId] && r.ptrs[k.readerId] == r.w
      && Stands(r, h, k.readerId, |h.frames|)
  {
  }

  lemma MovedOK(q: Shared, h: History, id: nat, p: Ptr, seen: nat)
    requires QueueOK(q, h) && id < NUM_READERS && q.valids[id] && Standing(CtxOf(q, h), p, seen)
    ensures QueueOK(Moved(q, id, p), h) && Stands(Moved(q, id, p), h, id, seen)
  {
  }

  /** `msgq_msg_recv`; each recursive call is a `goto start`. `uid` is the identity a reader that
      was evicted registers under. */
  function Recv(q: Shared, l: Local, uid: nat, ghost h: History): (Shared, Local, RecvResult)
    requires Ready4Recv(q, h, l)
    decreases !Live(q, l), !Live(q, l) || !q.valids[l.readerId],
              Live(q, l) && q.ptrs[l.readerId].off > q.w.off,
              if Live(q, l) then
                if q.ptrs[l.readerId].off > q.w.off then |q.data| - q.ptrs[l.readerId].off
                else q.w.off - q.ptrs[l.readerId].off
              else 0
  {
    if l.readerId < 0 then (q, l, RecvAborted)
    else if !Live(q, l) then
      RejoinOK(q, h, l, uid);
      var (r, k) := InitSubscriber(q, l, uid);
      Recv(r, k, uid, h)
    else
      var id, p := l.readerId, q.ptrs[l.readerId];
      if !q.valids[id] then
        assert Stands(Reset(q, id), h, id, 0);
        Recv(Reset(q, id), l, uid, h)
      else if p.off == q.w.off then (q, l, Nothing)
      else
        ghost var seen :| Stands(q, h, id, seen);
        Advances(q, h, p, seen);
        var tag := TagAt(q.data, p.off);
        if tag == -1 then
          MovedOK(q, h, id, Ptr(p.cyc + 1, 0), seen);
          Recv(Moved(q, id, Ptr(p.cyc + 1, 0)), l, uid, h)
        else if !(0 < tag < |q.data|) then (q, l, RecvAborted)
        else
          var next := Ptr(p.cyc, NextOff(p.off, tag));
          if l.conflate && next.off != q.w.off then
            ghost var j: nat :| Finds(q, h, p, seen, j);
            MovedOK(q, h, id, next, j + 1);
            Recv(Moved(q, id, next), l, uid, h)
          else
            (Moved(q, id, next), l, Got(q.data[p.off + 8..p.off + 8 + tag]))
  }

  /** Everything a receive promises, given that the reader has taken only messages below `seen`. */
  ghost predicate Received(q: Shared, h: History, l: Local, seen: nat, r: Shared, k: Local, out: RecvResult) {
    && Ready4Recv(r, h, k) && Live(r, k) && r.valids[k.readerId]
    && r.data == q.data && r.w == q.w && r.writeUid == q.writeUid
    && k.conflate == l.conflate && k.writeUid == l.writeUid
    && match out
       case RecvAborted => false
       case Nothing => Stands(r, h, k.readerId, seen) && r.ptrs[k.readerId].off == q.w.off
       case Got(msg) => exists j: nat :: Takes(r, h, k, seen, j, msg)
  }

  /** `msg` is sent message `j`, not taken before; the newest one if the reader conflates. */
  ghost predicate Takes(r: Shared, h: History, k: Local, seen: nat, j: nat, msg: seq<byte>) {
    && seen <= j < |h.frames| && msg == h.frames[j].msg
    && 0 <= k.readerId && Stands(r, h, k.readerId, j + 1)
    && (k.conflate ==> j == |h.frames| - 1 && r.ptrs[k.readerId].off == r.w.off)
  }

  /** Bytes, and before them laps, between a reader and the writer. */
  function Behind(q: Shared, id: nat): (bool, int)
    requires Shape(q) && id < NUM_READERS
  {
    (q.ptrs[id].off > q.w.off,
     if q.ptrs[id].off > q.w.off then |q.data| - q.ptrs[id].off else q.w.off - q.ptrs[id].off)
  }

  lemma TakesFrame(q: Shared, h: History, l: Local, seen: nat, j: nat)
    requires QueueOK(q, h) && Live(q, l) && l.readerId < q.numReaders && q.valids[l.readerId]
    requires Finds(q, h, q.ptrs[l.readerId], seen, j)
    requires l.conflate ==> NextOff(q.ptrs[l.readerId].off, |h.frames[j].msg|) == q.w.off
    ensures var p, msg := q.ptrs[l.readerId], h.frames[j].msg;
      && q.data[p.off + 8..p.off + 8 + |msg|] == msg
      && Received(q, h, l, seen, Moved(q, l.readerId, Ptr(p.cyc, NextOff(p.off, |msg|))), l, Got(msg))
  {
    var p, msg := q.ptrs[l.readerId], h.frames[j].msg;
    var r := Moved(q, l.readerId, Ptr(p.cyc, NextOff(p.off, |msg|)));
    MovedOK(q, h, l.readerId, Ptr(p.cyc, NextOff(p.off, |msg|)), j + 1);
    assert Takes(r, h, l, seen, j, msg);
  }

  ghost predicate Scanned(q: Shared, l: Local, uid: nat, h: History, seen: nat)
    requires Ready4Recv(q, h, l) && Live(q, l)
  {
    var (r, k, out) := Recv(q, l, uid, h);
    && Received(q, h, l, seen, r, k, out) && (out.Got? <==> q.ptrs[l.readerId].off != q.w.off)
    && k == l && r == Moved(q, l.readerId, r.ptrs[l.readerId])
  }

  lemma {:induction false} ScanReceives(q: Shared, l: Local, uid: nat, h: History, seen: nat)
    requires Ready4Recv(q, h, l) && Live(q, l) && q.valids[l.readerId] && Stands(q, h, l.readerId, seen)
    ensures Scanned(q, l, uid, h, seen)
    decreases Behind(q, l.readerId).0, Behind(q, l.readerId).1, 1
  {
    var id, p := l.readerId, q.ptrs[l.readerId];
    assert q == Moved(q, id, p);
    if p.off != q.w.off {
      Advances(q, h, p, seen);
      if TagAt(q.data, p.off) == -1 {
        MovedOK(q, h, id, Ptr(p.cyc + 1, 0), seen);
        ScanReceives(Moved(q, id, Ptr(p.cyc + 1, 0)), l, uid, h, seen);
      } else {
        var j: nat :| Finds(q, h, p, seen, j);
        ScanFrame(q, l, uid, h, seen, j);
      }
    }
  }

  lemma {:induction false} ScanFrame(q: Shared, l: Local, uid: nat, h: History, seen: nat, j: nat)
    requires Ready4Recv(q, h, l) && Live(q, l) && q.valids[l.readerId]
    requires q.ptrs[l.readerId].off != q.w.off && Finds(q, h, q.ptrs[l.readerId], seen, j)
    ensures Scanned(q, l, uid, h, seen)
    decreases Behind(q, l.readerId).0, Behind(q, l.readerId).1, 0
  {
    var p := q.ptrs[l.readerId];
    var next := Ptr(p.cyc, NextOff(p.off, |h.frames[j].msg|));
    if l.conflate && next.off != q.w.off {
      MovedOK(q, h, l.readerId, next, j + 1);
      ScanReceives(Moved(q, l.readerId, next), l, uid, h, j + 1);
      LaterReceived(q, Moved(q, l.readerId, next), l, uid, h, seen, j + 1);
    } else {
      TakesFrame(q, h, l, seen, j);
    }
  }

  lemma LaterReceived(q: Shared, m: Shared, l: Local, uid: nat, h: History, seen: nat, later: nat)
    requires seen <= later && m.data == q.data && m.w == q.w && m.writeUid == q.writeUid && Ready4Recv(m, h, l)
    requires var (r, k, out) := Recv(m, l, uid, h); Received(m, h, l, later, r, k, out) && out.Got?
    ensures var (r, k, out) := Recv(m, l, uid, h); Received(q, h, l, seen, r, k, out)
  {
    var (r, k, out) := Recv(m, l, uid, h);
    var j: nat :| Takes(r, h, k, later, j, out.msg);
    assert Takes(r, h, k, seen, j, out.msg);
  }

  /** A receive never aborts, returns nothing or one message not taken before, byte for byte, and a
      conflating one returns the newest message and catches up with the writer. */
  lemma RecvReceives(q: Shared, l: Local, uid: nat, h: History, seen: nat)
    requires Ready4Recv(q, h, l) && 0 <= l.readerId && seen <= |h.frames|
    requires Live(q, l) ==> Stands(q, h, l.readerId, seen)
    ensures var (r, k, out) := Recv(q, l, uid, h); Received(q, h, l, seen, r, k, out)
  {
    if !Live(q, l) {
      RejoinOK(q, h, l, uid);
      var (r, k) := InitSubscriber(q, l, uid);
      assert Stands(r, h, k.readerId, seen);
      ScanReceives(r, k, uid, h, seen);
    } else if !q.valids[l.readerId] {
      assert Stands(Reset(q, l.readerId), h, l.readerId, seen);
      ScanReceives(Reset(q, l.readerId), l, uid, h, seen);
    } else {
      ScanReceives(q, l, uid, h, seen);
    }
  }

  // ----- readiness -----

  /** `msgq_msg_ready`, called by a subscriber that has registered. */
  function MsgReady(q: Shared, l: Local, uid: nat): (Shared, Local, bool)
    requires Shape(q) && 0 <= l.readerId < NUM_READERS
    decreases !Live(q, l), !Live(q, l) || !q.valids[l.readerId]
  {
    if !Live(q, l) then
      var (r, k) := InitSubscriber(q, l, uid);
      MsgReady(r, k, uid)
    else if !q.valids[l.readerId] then MsgReady(Reset(q, l.readerId), l, uid)
    else (q, l, q.ptrs[l.readerId].off != q.w.off)
  }

  /** Where `goto start` leads before anything is read: registered again, or reset, if need be. */
  function Joined(q: Shared, l: Local, uid: nat): (Shared, Local)
    requires Shape(q) && 0 <= l.readerId < NUM_READERS
  {
    if !Live(q, l) then InitSubscriber(q, l, uid)
    else if !q.valids[l.readerId] then (Reset(q, l.readerId), l)
    else (q, l)
  }

  lemma ReadyJoins(q: Shared, l: Local, uid: nat)
    requires Shape(q) && 0 <= l.readerId < NUM_READERS
    ensures var (r, k) := Joined(q, l, uid);
      && Shape(r) && 0 <= k.readerId < NUM_READERS
      && MsgReady(q, l, uid) == (r, k, r.ptrs[k.readerId].off != r.w.off)
  {
  }

  /** Readiness agrees with receipt: `msgq_msg_ready` answers yes exactly when a receive in its
      place, or after it, returns a message; and having asked makes no difference to the receive. */
  lemma ReadyIffReceives(q: Shared, l: Local, uid: nat, h: History)
    requires Ready4Recv(q, h, l) && 0 <= l.readerId
    ensures var (r, k, yes) := MsgReady(q, l, uid);
      && Ready4Recv(r, h, k) && Recv(r, k, uid, h) == Recv(q, l, uid, h)
      && (yes <==> Recv(q, l, uid, h).2.Got?)
  {
    if !Live(q, l) {
      RejoinOK(q, h, l, uid);
      var (r, k) := InitSubscriber(q, l, uid);
      ScanReceives(r, k, uid, h, |h.frames|);
    } else if !q.valids[l.readerId] {
      assert Stands(Reset(q, l.readerId), h, l.readerId, 0);
      ScanReceives(Reset(q, l.readerId), l, uid, h, 0);
    } else {
      var seen: nat :| Stands(q, h, l.readerId, seen);
      ScanReceives(q, l, uid, h, seen);
    }
  }

  lemma JoinedRecv(q: Shared, l: Local, uid: nat, h: History)
    requires Ready4Recv(q, h, l) && 0 <= l.readerId
    ensures
      var (r, k) := Joined(q, l, uid);
      && Ready4Recv(r, h, k) && 0 <= k.readerId && Live(r, k) && r.valids[k.readerId]
      && Recv(r, k, uid, h) == Recv(q, l, uid, h)
  {
    ReadyJoins(q, l, uid);
    ReadyIffReceives(q, l, uid, h);
  }

  /** `msgq_all_readers_updated`. */
  predicate AllReadersUpdated(q: Shared)
    requires Shape(q)
  {
    q.numReaders > 0 && forall i | 0 <= i < q.numReaders :: q.valids[i] ==> q.w == q.ptrs[i]
  }

  // ----- empty messages -----

  datatype Scan = Ends(r: Shared, k: Local, out: RecvResult) | Outside | Looping

  /** `msgq_msg_recv` on shared memory of which only the shape is known: `Looping` if it jumps back to
      `start` more than `rounds` times, `Outside` if it comes to read a tag beyond the ring. */
  function RawRecv(q: Shared, l: Local, uid: nat, rounds: nat): Scan
    requires Shape(q) && l.readerId < NUM_READERS
    decreases rounds
  {
    if l.readerId < 0 then Ends(q, l, RecvAborted)
    else if !Live(q, l) then
      var (r, k) := InitSubscriber(q, l, uid);
      if rounds == 0 then Looping else RawRecv(r, k, uid, rounds - 1)
    else
      var id, p := l.readerId, q.ptrs[l.readerId];
      if !q.valids[id] then
        if rounds == 0 then Looping else RawRecv(Reset(q, id), l, uid, rounds - 1)
      else if p.off == q.w.off then Ends(q, l, Nothing)
      else if p.off + 8 > |q.data| then Outside
      else
        var tag := TagAt(q.data, p.off);
        if tag == -1 then
          if rounds == 0 then Looping else RawRecv(Moved(q, id, Ptr(p.cyc + 1, 0)), l, uid, rounds - 1)
        else if !(0 < tag < |q.data|) then Ends(q, l, RecvAborted)
        else
          var next := Ptr(p.cyc, NextOff(p.off, tag));
          if l.conflate && next.off != q.w.off then
            if rounds == 0 then Looping else RawRecv(Moved(q, id, next), l, uid, rounds - 1)
          else if p.off + 8 + tag > |q.data| then Outside
          else Ends(Moved(q, id, next), l, Got(q.data[p.off + 8..p.off + 8 + tag]))
  }

  /** While no frame is empty the scan stays in the ring, ends, and is the receive above. */
  lemma {:induction false} RawRecvIsRecv(q: Shared, l: Local, uid: nat, h: History) returns (rounds: nat)
    requires Ready4Recv(q, h, l)
    ensures var (r, k, out) := Recv(q, l, uid, h); RawRecv(q, l, uid, rounds) == Ends(r, k, out)
    decreases !Live(q, l), !Live(q, l) || !q.valids[l.readerId],
              Live(q, l) && q.ptrs[l.readerId].off > q.w.off,
              if Live(q, l) then
                if q.ptrs[l.readerId].off > q.w.off then |q.data| - q.ptrs[l.readerId].off
                else q.w.off - q.ptrs[l.readerId].off
              else 0
  {
    rounds := 0;
    if l.readerId < 0 {
      return;
    }
    if !Live(q, l) {
      RejoinOK(q, h, l, uid);
      var (r, k) := InitSubscriber(q, l, uid);
      rounds := RawRecvIsRecv(r, k, uid, h);
      return rounds + 1;
    }
    var id, p := l.readerId, q.ptrs[l.readerId];
    if !q.valids[id] {
      assert Stands(Reset(q, id), h, id, 0);
      rounds := RawRecvIsRecv(Reset(q, id), l, uid, h);
      return rounds + 1;
    }
    if p.off != q.w.off {
      var seen: nat :| Stands(q, h, id, seen);
      Advances(q, h, p, seen);
      var next := Ptr(p.cyc + 1, 0);
      if TagAt(q.data, p.off) != -1 {
        var j: nat :| Finds(q, h, p, seen, j);
        next := Ptr(p.cyc, NextOff(p.off, |h.frames[j].msg|));
        if !l.conflate || next.off == q.w.off {
          return;
        }
        seen := j + 1;
      }
      MovedOK(q, h, id, next, seen);
      rounds := RawRecvIsRecv(Moved(q, id, next), l, uid, h);
      return rounds + 1;
    }
  }

  predicate Appended(q: Shared, r: Shared, o: nat, msg: seq<byte>)
    requires Shape(q)
  {
    && Shape(r) && r.w.off == o + Total(|msg|) && |r.data| == |q.data| && r.ptrs == q.ptrs && r.uids == q.uids
    && o + 8 + |msg| <= |r.data| && TagAt(r.data, o) == |msg| && r.data[o + 8..o + 8 + |msg|] == msg
  }

  lemma AppendRests(q: Shared, msg: seq<byte>)
    requires Shape(q) && q.w.off + Total(|msg|) + 8 < |q.data|
    ensures Appended(q, Append(q, msg), q.w.off, msg)
  {
    assert (q.w.off + Total(|msg|)) % 8 == 0;
    NextOffIsEnd(q.w.off, |msg|);
    AppendedFrame(q.data, q.w.off, msg);
  }

  lemma SendRests(q: Shared, l: Local, msg: seq<byte>)
    requires Shape(q) && Send(q, l, msg).1.Sent?
    ensures Appended(q, Send(q, l, msg).0, if MustWrap(msg, q.w, |q.data|) then 0 else q.w.off, msg)
  {
    AppendRests(if MustWrap(msg, q.w, |q.data|) then WrapAround(q) else q, msg);
  }

  /** A wrap leaves its tag in place, for the message fits before it. */
  lemma WrapStaysTagged(q: Shared, l: Local, msg: seq<byte>)
    requires Shape(q) && Send(q, l, msg).1.Sent? && MustWrap(msg, q.w, |q.data|)
    ensures Total(|msg|) <= q.w.off && q.w.off + 8 <= |Send(q, l, msg).0.data|
    ensures TagAt(Send(q, l, msg).0.data, q.w.off) == -1
  {
    var b := WrapAround(q);
    SameTag(b.data, Append(b, msg).data, q.w.off);
  }

  lemma UpToDateStaysValid(q: Shared, l: Local, msg: seq<byte>, id: nat)
    requires Shape(q) && Send(q, l, msg).1.Sent? && id < NUM_READERS && q.valids[id] && q.ptrs[id] == q.w
    ensures Send(q, l, msg).0.valids[id]
  {
    if MustWrap(msg, q.w, |q.data|) {
      WrapStaysTagged(q, l, msg);
    }
  }

  /** On a frame that ends at the write pointer, a receive comes to an end at once. */
  lemma RawTakes(r: Shared, l: Local, uid: nat, rounds: nat, msg: seq<byte>)
    requires Shape(r) && Live(r, l) && r.valids[l.readerId]
    requires var o := r.ptrs[l.readerId].off;
      && o != r.w.off && r.w.off == o + Total(|msg|) && o % 8 == 0 && o + 8 + |msg| <= |r.data|
      && TagAt(r.data, o) == |msg| && r.data[o + 8..o + 8 + |msg|] == msg
    ensures var s := RawRecv(r, l, uid, rounds); s.Ends? && s.out == if msg == [] then RecvAborted else Got(msg)
  {
    NextOffIsEnd(r.ptrs[l.readerId].off, |msg|);
  }

  /** What the next receive of a subscriber that was up to date makes of any message, empty or not: it aborts
      if and only if the message is empty, except that on a ring of 24 bytes, sent from offset 8, an
      empty message brings the writer round to the subscriber's offset and nothing seems to have arrived. */
  lemma EmptyMessageStrandsReader(q: Shared, p: Local, msg: seq<byte>, l: Local, uid: nat, rounds: nat)
    requires Shape(q) && Send(q, p, msg).1.Sent? && 0 < rounds
    requires Live(q, l) && q.valids[l.readerId] && q.ptrs[l.readerId] == q.w
    ensures Shape(Send(q, p, msg).0)
    ensures
      var s := RawRecv(Send(q, p, msg).0, l, uid, rounds);
      s.Ends? && s.out == if msg != [] then Got(msg) else if |q.data| == 24 && q.w.off == 8 then Nothing else RecvAborted
  {
    var r := Send(q, p, msg).0;
    SendRests(q, p, msg);
    UpToDateStaysValid(q, p, msg, l.readerId);
    if MustWrap(msg, q.w, |q.data|) {
      WrapStaysTagged(q, p, msg);
      if r.w.off != q.w.off {
        RawTakes(Moved(r, l.readerId, Ptr(q.w.cyc + 1, 0)), l, uid, rounds - 1, msg);
      }
    } else {
      RawTakes(r, l, uid, rounds, msg);
    }
  }

  /** A take-over leaves exactly one publisher: afterwards a process can send if and only if it carries the
      new identity, and a refused send changes nothing. */
  lemma OnlyNewPublisherSends(q: Shared, l: Local, uid: nat, o: Local, msg: seq<byte>)
    requires Shape(q)
    ensures
      var (r, k) := InitPublisher(q, l, uid);
      && Shape(r) && r.w == q.w && r.data == q.data
      && Send(r, k, msg).1 != Refused
      && (Send(r, o, msg).1 == Refused <==> o.writeUid != uid)
      && (o.writeUid != uid ==> Send(r, o, msg).0 == r)
  {
  }
}
