/** When a receive returns the next undelivered message, and when it silently does not. */
module QueueGaps {
  import opened Words
  import opened Ring
  import opened Queue
  import opened QueueRuns
  import opened GapFreedom

  /** Slot `id` is valid and its pointer names message `next`: all before are taken, none is skipped. */
  ghost predicate Owed(q: Shared, h: History, id: nat, next: nat) {
    && id < NUM_READERS && |q.valids| == |q.ptrs| == NUM_READERS && |h.ends| == q.w.cyc && |h.starts| == q.w.cyc + 1
    && q.valids[id] && next <= |h.frames| && Exact(CtxOf(q, h), q.w.cyc - 1, q.ptrs[id], next)
  }

  /** A subscriber that is owed message `next` gets exactly that message, byte for byte, if and only
      if the writer is not resting on the subscriber's offset; then it is owed the one after it, and
      otherwise still the same. */
  lemma GetsNextIff(q: Shared, h: History, l: Local, uid: nat, next: nat)
    requires Ready4Recv(q, h, l) && Live(q, l) && !l.conflate && Owed(q, h, l.readerId, next)
    ensures var (r, k, out) := Recv(q, l, uid, h);
      && (q.ptrs[l.readerId].off != q.w.off <==> out.Got?)
      && Owed(r, h, l.readerId, if out.Got? then next + 1 else next)
      && (out.Got? ==> next < |h.frames| && out.msg == h.frames[next].msg)
  {
    var c, p := CtxOf(q, h), q.ptrs[l.readerId];
    if p.off != q.w.off {
      if ExactFrame(c, q.w.cyc - 1, p, next) {
        FrameGetsNext(q, h, l, uid, next);
      } else {
        HopGetsNext(q, h, l, uid, next);
      }
    }
  }

  /** What `GetsNextIff` says of a subscriber away from the writer. */
  ghost predicate TakesOwed(q: Shared, h: History, l: Local, uid: nat, next: nat)
    requires Ready4Recv(q, h, l) && Live(q, l)
  {
    var (r, k, out) := Recv(q, l, uid, h);
    next < |h.frames| && out == Got(h.frames[next].msg) && Owed(r, h, l.readerId, next + 1)
  }

  lemma TakesAtOnce(q: Shared, h: History, l: Local, uid: nat, j: nat)
    requires Ready4Recv(q, h, l) && Live(q, l) && q.valids[l.readerId] && !l.conflate
    requires q.ptrs[l.readerId].off != q.w.off && Finds(q, h, q.ptrs[l.readerId], j, j)
    ensures var p, msg := q.ptrs[l.readerId], h.frames[j].msg;
      Recv(q, l, uid, h) == (Moved(q, l.readerId, Ptr(p.cyc, NextOff(p.off, |msg|))), l, Got(msg))
  {
    var p, msg := q.ptrs[l.readerId], h.frames[j].msg;
    assert q.data[p.off + 8..p.off + 8 + |msg|] == msg;
  }

  lemma OwedNext(q: Shared, h: History, id: nat, next: nat)
    requires QueueOK(q, h) && id < NUM_READERS && q.valids[id] && ExactFrame(CtxOf(q, h), q.w.cyc - 1, q.ptrs[id], next)
    ensures Owed(Moved(q, id, Ptr(q.ptrs[id].cyc, NextOff(q.ptrs[id].off, |h.frames[next].msg|))), h, id, next + 1)
  {
    var c, p := CtxOf(q, h), q.ptrs[id];
    FrameFits(c, |q.data|, next);
    NextOffIsEnd(p.off, |h.frames[next].msg|);
    PastExactFrame(c, |q.data|, q.w.cyc - 1, p, next);
  }

  lemma FrameGetsNext(q: Shared, h: History, l: Local, uid: nat, next: nat)
    requires Ready4Recv(q, h, l) && Live(q, l) && q.valids[l.readerId] && !l.conflate
    requires ExactFrame(CtxOf(q, h), q.w.cyc - 1, q.ptrs[l.readerId], next) && q.ptrs[l.readerId].off != q.w.off
    ensures TakesOwed(q, h, l, uid, next)
  {
    FindsFrame(q, h, q.ptrs[l.readerId], next, next);
    TakesAtOnce(q, h, l, uid, next);
    OwedNext(q, h, l.readerId, next);
  }

  lemma HopGetsNext(q: Shared, h: History, l: Local, uid: nat, next: nat)
    requires Ready4Recv(q, h, l) && Live(q, l) && q.valids[l.readerId] && !l.conflate
    requires ExactEnd(CtxOf(q, h), q.w.cyc - 1, q.ptrs[l.readerId], next) && q.ptrs[l.readerId].off != q.w.off
    ensures TakesOwed(q, h, l, uid, next)
  {
    var c, p := CtxOf(q, h), q.ptrs[l.readerId];
    var o := Ptr(p.cyc + 1, 0);
    ReadEnd(c, q.data, p, next, p.cyc);
    AfterExactHop(c, |q.data|, q.w.cyc - 1, p, next);
    assert ExactFrame(c, q.w.cyc - 1, o, next);
    MovedOK(q, h, l.readerId, o, next);
    FrameGetsNext(Moved(q, l.readerId, o), h, l, uid, next);
  }

  /** A pointer equal to the writer's names nothing that was sent, and only such a pointer does. */
  lemma AtWriterIff(q: Shared, h: History, id: nat, next: nat)
    requires QueueOK(q, h) && Owed(q, h, id, next)
    ensures q.ptrs[id] == q.w <==> next == |h.frames|
  {
    if next < |h.frames| {
      assert FrameOK(h, q.w, next);
    }
  }

  /** `msgq_all_readers_updated` answers yes exactly when there are subscribers and each one that is valid is owed
      nothing more: its pointer names no message sent, but the next one to come. Unlike a subscriber's own
      offset test, the answer is not deceived by a subscriber lapped exactly, nor by one that lost messages. */
  lemma UpdatedIffNothingOwed(q: Shared, h: History)
    requires QueueOK(q, h)
    ensures AllReadersUpdated(q) <==>
      q.numReaders > 0 && forall id: nat | id < q.numReaders && q.valids[id] :: Owed(q, h, id, |h.frames|)
  {
    forall id: nat | id < q.numReaders && q.valids[id] ensures q.ptrs[id] == q.w <==> Owed(q, h, id, |h.frames|) {
      if Owed(q, h, id, |h.frames|) {
        AtWriterIff(q, h, id, |h.frames|);
      }
    }
  }

  /** A subscriber lapped exactly is told that nothing has arrived, and yet not all readers are updated. */
  lemma LappedIsNotUpdated(q: Shared, h: History, l: Local, uid: nat, next: nat)
    requires Ready4Recv(q, h, l) && Live(q, l) && !l.conflate && Owed(q, h, l.readerId, next)
    requires next < |h.frames| && q.ptrs[l.readerId].off == q.w.off
    ensures Recv(q, l, uid, h).2 == Nothing && !AllReadersUpdated(q)
  {
    AtWriterIff(q, h, l.readerId, next);
  }

  // ----- what a send does to the message a subscriber is owed -----

  /** The writer rests on the subscriber's offset in another lap: the subscriber is lapped exactly. */
  predicate LappedExactly(q: Shared, id: nat)
    requires Shape(q) && id < NUM_READERS
  {
    q.ptrs[id].off == q.w.off && q.ptrs[id].cyc != q.w.cyc
  }

  lemma WrapKeepsOwed(q: Shared, h: History, id: nat, next: nat)
    requires QueueOK(q, h) && Owed(q, h, id, next) && id < q.numReaders && 0 < q.w.off && WrapAround(q).valids[id]
    requires !LappedExactly(q, id)
    ensures Owed(WrapAround(q), Wrapped(Tagged(CtxOf(q, h))).h, id, next)
  {
    var c, p, n := CtxOf(q, h), q.ptrs[id], |q.data|;
    WrapAroundKeeps(q, h);
    StoreWrapTag(c, q.data, WrapAround(q).data);
    TaggedExact(c, n, p, next);
    PassedExact(Tagged(c), n, p, next);
    WrappedExact(Tagged(c), n, p, next);
  }

  lemma AppendKeepsOwed(r: Shared, g: History, msg: seq<byte>, id: nat, next: nat)
    requires Shape(r) && MemOK(CtxOf(r, g), r.data) && |msg| > 0 && r.w.off + Total(|msg|) + 8 < |r.data|
    requires Owed(r, g, id, next) && id < r.numReaders && Append(r, msg).valids[id]
    ensures Owed(Append(r, msg), Published(CtxOf(r, g), msg).h, id, next)
  {
    var c, e, p := CtxOf(r, g), r.w.off + Total(|msg|), r.ptrs[id];
    AppendKeeps(r, g, msg);
    SparedByAppend(r, msg, id);
    NextOffIsEnd(r.w.off, |msg|);
    SparedExact(c, |r.data|, p, next, e);
    PublishedExact(c.(edge := e), |r.data|, p, next, msg);
  }

  /** A send that leaves a subscriber its flag leaves it owed the same message, unless it wraps while resting
      on the subscriber's offset with another lap: then, and only then, the subscriber's pointer
      names no next message any more. */
  lemma SendKeepsOwedIff(q: Shared, h: History, p: Local, msg: seq<byte>, id: nat, next: nat)
    requires QueueOK(q, h) && |msg| > 0 && Send(q, p, msg).1.Sent? && id < q.numReaders && Owed(q, h, id, next)
    requires Send(q, p, msg).0.valids[id]
    ensures var r, g := Send(q, p, msg).0, AfterSend(q, h, msg);
      if MustWrap(msg, q.w, |q.data|) && LappedExactly(q, id) then forall k :: !Owed(r, g, id, k)
      else Owed(r, g, id, next)
  {
    var (b, v) := BeforeAppend(q, h, msg);
    BeforeAppendOK(q, h, msg);
    assert AfterSend(q, h, msg) == Published(CtxOf(b, v), msg).h && Send(q, p, msg).0 == Append(b, msg);
    if !MustWrap(msg, q.w, |q.data|) {
      AppendKeepsOwed(b, v, msg, id, next);
    } else if !LappedExactly(q, id) {
      WrapKeepsOwed(q, h, id, next);
      AppendKeepsOwed(b, v, msg, id, next);
    }
  }

  /** Of subscriber `r`: what it has not read survives a send. The ring's bytes from `r.off` on are its own; a
      frame takes a multiple of eight bytes, tag and padding included. */
  predicate Untouched(q: Shared, msg: seq<byte>, r: Ptr) {
    var size := (|msg| + 8 + 7) / 8 * 8;
    if |q.data| <= q.w.off + size + 8 then r.off == q.w.off || (r.cyc == q.w.cyc && size <= r.off)
    else r.cyc == q.w.cyc || q.w.off + size <= r.off
  }

  lemma WrapKeepsFlagIff(q: Shared, h: History, msg: seq<byte>, id: nat, next: nat)
    requires QueueOK(q, h) && |msg| > 0 && 3 * Total(|msg|) <= |q.data| && MustWrap(msg, q.w, |q.data|)
    requires id < q.numReaders && Owed(q, h, id, next)
    ensures Append(WrapAround(q), msg).valids[id] <==> Untouched(q, msg, q.ptrs[id])
  {
    var r, c := q.ptrs[id], CtxOf(q, h);
    if ExactFrame(c, q.w.cyc - 1, r, next) {
      assert FrameOK(h, q.w, next);
    }
    WrapStaysTagged(q, Local(-1, 0, q.writeUid, false), msg);
  }

  lemma FrameEnd(off: nat, size: nat)
    requires off % 8 == 0
    ensures Align(off + 8 + size) == off + (size + 8 + 7) / 8 * 8
  {
  }

  lemma AppendKeepsFlagIff(q: Shared, h: History, msg: seq<byte>, id: nat, next: nat)
    requires QueueOK(q, h) && !MustWrap(msg, q.w, |q.data|) && id < q.numReaders && Owed(q, h, id, next)
    ensures Append(q, msg).valids[id] <==> Untouched(q, msg, q.ptrs[id])
  {
    FrameEnd(q.w.off, |msg|);
    if q.w.off > q.ptrs[id].off {
      OlderIsAhead(q, h, id, next);
    }
  }

  /** Behind the write pointer there is only this lap. */
  lemma OlderIsAhead(q: Shared, h: History, id: nat, next: nat)
    requires QueueOK(q, h) && Owed(q, h, id, next) && q.ptrs[id].off < q.w.off
    ensures q.ptrs[id].cyc == q.w.cyc
  {
  }

  /** Exactly which flags a send clears: a subscriber keeps its flag if and only if what it is owed survives the
      send, or the publisher wraps while resting on its offset. */
  lemma SendKeepsFlagIff(q: Shared, h: History, p: Local, msg: seq<byte>, id: nat, next: nat)
    requires QueueOK(q, h) && |msg| > 0 && Send(q, p, msg).1.Sent? && id < q.numReaders && Owed(q, h, id, next)
    ensures Send(q, p, msg).0.valids[id] <==> Untouched(q, msg, q.ptrs[id])
  {
    if MustWrap(msg, q.w, |q.data|) {
      WrapKeepsFlagIff(q, h, msg, id, next);
    } else {
      AppendKeepsFlagIff(q, h, msg, id, next);
    }
  }

  /** Exactly when something another process does costs a subscriber its place: an eviction or a new publisher,
      or a send over what it is owed. Nothing else another process does touches its flag or pointer. */
  lemma KeepsPlaceIff(s: System, op: Op, j: nat, next: nat)
    requires SystemOK(s) && Enabled(s, op) && j < |s.handles| && j != op.i && Live(s.q, s.handles[j].l)
    requires Owed(s.q, s.h, s.handles[j].l.readerId, next)
    ensures
      var t, l := Apply(s, op), s.handles[j].l;
      var overwrites := op.SendMsg? && Send(s.q, s.handles[op.i].l, op.msg).1.Sent?
                        && !Untouched(s.q, op.msg, s.q.ptrs[l.readerId]);
      && SystemOK(t) && t.handles[j] == s.handles[j]
      && (Live(t.q, l) && t.q.valids[l.readerId] <==> !Evicts(s, op, j) && !overwrites)
      && (Live(t.q, l) && t.q.valids[l.readerId] ==> t.q.ptrs[l.readerId] == s.q.ptrs[l.readerId])
  {
    var l := s.handles[j].l;
    OwnSlotReady(s, j);
    CutsOffIff(s, op, j);
    if op.SendMsg? {
      if Send(s.q, s.handles[op.i].l, op.msg).1.Sent? {
        SendKeepsFlagIff(s.q, s.h, s.handles[op.i].l, op.msg, l.readerId, next);
      }
    } else if !Evicts(s, op, j) {
      OthersLeaveSlot(s, op, j);
    }
  }

  /** Where a send leaves the write pointer: behind the frame, in this lap if the frame and a tag behind it fit
      and else in the next. */
  lemma SendAdvances(q: Shared, p: Local, msg: seq<byte>)
    requires Shape(q)
    ensures
      var size := (|msg| + 8 + 7) / 8 * 8;
      var (r, out) := Send(q, p, msg);
      && (out == Sent(|msg|) <==> p.writeUid == q.writeUid && 3 * size <= |q.data|)
      && (out.Sent? ==> r.w == if q.w.off + size + 8 < |q.data| then Ptr(q.w.cyc, q.w.off + size) else Ptr(q.w.cyc + 1, size))
      && (!out.Sent? ==> r == q)
  {
    if Send(q, p, msg).1.Sent? {
      SendRests(q, p, msg);
    }
  }

  /** Lapped exactly: when a send wraps while the writer rests on the offset of a valid subscriber
      from an older lap, the subscriber keeps its flag and next receives that very message, however
      many sent before it are still undelivered. */
  lemma LappedExactlySkips(q: Shared, h: History, p: Local, msg: seq<byte>, l: Local, uid: nat)
    requires QueueOK(q, h) && |msg| > 0 && Send(q, p, msg).1.Sent? && MustWrap(msg, q.w, |q.data|)
    requires Live(q, l) && l.readerId < q.numReaders && q.valids[l.readerId]
    requires Stands(q, h, l.readerId, 0) && q.ptrs[l.readerId].off == q.w.off
    ensures var (r, g) := (Send(q, p, msg).0, AfterSend(q, h, msg));
      && r.valids[l.readerId] && Ready4Recv(r, g, l) && Recv(r, l, uid, g).2 == Got(msg)
  {
    var (w, v) := BeforeAppend(q, h, msg);
    var r, g := Send(q, p, msg).0, AfterSend(q, h, msg);
    BeforeAppendOK(q, h, msg);
    NextOffIsEnd(0, |msg|);
    SendKeeps(q, h, p, msg);
    SendStands(q, h, p, msg, l.readerId, 0);
    assert g == Published(CtxOf(w, v), msg).h;
    EndIsTagged(r, g, q.w, msg);
    HopFindsNewest(r, g, l, uid, msg);
  }

  lemma EndIsTagged(r: Shared, g: History, was: Ptr, msg: seq<byte>)
    requires QueueOK(r, g) && r.w.cyc == was.cyc + 1 && g.ends[was.cyc] == was.off && r.w.off <= was.off
    ensures was.off + 8 <= |r.data| && TagAt(r.data, was.off) == -1
  {
    assert WrapTagOK(CtxOf(r, g), r.data, was.cyc);
  }

  lemma HopFindsNewest(r: Shared, g: History, l: Local, uid: nat, msg: seq<byte>)
    requires Ready4Recv(r, g, l) && Live(r, l) && r.valids[l.readerId]
    requires var p := r.ptrs[l.readerId]; p.off > r.w.off && p.off + 8 <= |r.data| && TagAt(r.data, p.off) == -1 && p.cyc < r.w.cyc
    requires |g.frames| > 0 && g.frames[|g.frames| - 1] == Frame(r.w.cyc, 0, msg)
    ensures Recv(r, l, uid, g).2 == Got(msg)
  {
    var j, o := |g.frames| - 1, Ptr(r.ptrs[l.readerId].cyc + 1, 0);
    assert FrameOK(g, r.w, j);
    assert OnFrame(CtxOf(r, g), o, 0, j);
    var m := Moved(r, l.readerId, o);
    MovedOK(r, g, l.readerId, o, 0);
    FindsFrame(m, g, o, 0, j);
    TakesFrame(m, g, l, 0, j);
  }

  // ----- a run in which it happens -----

  /** The run `ops` leads from `s` to `t`. */
  ghost predicate Leads(s: System, ops: seq<Op>, t: System) {
    SystemOK(s) && Runs(s, ops) && After(s, ops) == t
  }

  lemma {:induction false} LeadsOn(s: System, ops: seq<Op>, t: System, op: Op)
    requires Leads(s, ops, t) && Enabled(t, op)
    ensures Leads(s, ops + [op], Apply(t, op))
    decreases |ops|
  {
    ApplyKeeps(t, op);
    if ops == [] {
      assert ([] + [op])[1..] == [];
    } else {
      var rest := ops[1..];
      ApplyKeeps(s, ops[0]);
      LeadsOn(Apply(s, ops[0]), rest, t, op);
      LeadsFirst(s, ops[0], rest + [op], Apply(t, op));
      assert [ops[0]] + (rest + [op]) == ops + [op];
    }
  }

  lemma LeadsFirst(s: System, op: Op, rest: seq<Op>, t: System)
    requires SystemOK(s) && Enabled(s, op) && Leads(Apply(s, op), rest, t)
    ensures Leads(s, [op] + rest, t)
  {
  }

  /** A ring of 48 bytes, room for two eight-byte messages a lap, and two handles: the publisher's,
      and one that has not registered. */
  ghost predicate Bench(s: System, w: Ptr) {
    && SystemOK(s) && |s.q.data| == 48 && s.q.w == w && |s.handles| == 2
    && s.handles[0].l.writeUid == s.q.writeUid && s.handles[0].l.readerId == -1
    && s.q.numReaders == 0 && s.handles[1].l == Local(-1, 0, 0, false) && s.handles[1].got == []
    && s.q.uids == seq(NUM_READERS, _ => 0) && s.handles[0].l.readUid == 0
  }

  /** The same with the second handle registered, at offset 32 of lap 0, its flag set. */
  ghost predicate Seated(s: System, w: Ptr) {
    && SystemOK(s) && |s.q.data| == 48 && s.q.w == w && |s.handles| == 2
    && s.handles[0].l.writeUid == s.q.writeUid && s.handles[0].l.readUid == 0
    && s.handles[1].l == Local(0, 2, 0, false) && s.handles[1].got == []
    && s.q.numReaders == 1 && s.q.uids == seq(NUM_READERS, _ => 0)[0 := 2]
    && s.q.valids[0] && s.q.ptrs[0] == Ptr(0, 32)
  }

  lemma Opens(s: System) returns (t: System)
    requires Fresh(s) && |s.q.data| == 48 && |s.handles| == 2
    requires s.handles[0].l == Local(-1, 0, 0, false) && s.handles[1].l == Local(-1, 0, 0, false)
    ensures Leads(s, [BecomePublisher(0, 1)], t) && Bench(t, Ptr(0, 0)) && t.h == EmptyHistory
  {
    FreshOK(s);
    LeadsOn(s, [], s, BecomePublisher(0, 1));
    t := Apply(s, BecomePublisher(0, 1));
    assert [] + [BecomePublisher(0, 1)] == [BecomePublisher(0, 1)];
  }

  lemma Fills(s: System, ops: seq<Op>, b: System, msg: seq<byte>) returns (t: System)
    requires Leads(s, ops, b) && Bench(b, b.q.w) && b.q.w.off <= 16 && b.q.w.off % 16 == 0 && |msg| == 8
    ensures Leads(s, ops + [SendMsg(0, msg)], t) && Bench(t, Ptr(b.q.w.cyc, b.q.w.off + 16))
    ensures t.h.frames == b.h.frames + [Frame(b.q.w.cyc, b.q.w.off, msg)]
  {
    NextOffIsEnd(b.q.w.off, 8);
    LeadsOn(s, ops, b, SendMsg(0, msg));
    t := Apply(b, SendMsg(0, msg));
  }

  lemma Sits(s: System, ops: seq<Op>, b: System) returns (t: System)
    requires Leads(s, ops, b) && Bench(b, Ptr(0, 32))
    ensures Leads(s, ops + [Subscribe(1, 2)], t) && Seated(t, Ptr(0, 32)) && t.h == b.h
  {
    LeadsOn(s, ops, b, Subscribe(1, 2));
    t := Apply(b, Subscribe(1, 2));
  }

  function NextLap(w: Ptr): Ptr {
    if w.off == 32 then Ptr(w.cyc + 1, 0) else w
  }

  /** The seated subscriber keeps its flag, and the frame goes to `v`. */
  ghost predicate SentPast(q: Shared, h: History, msg: seq<byte>, v: Ptr)
    requires Shape(q)
  {
    var r := Send(q, Local(-1, 0, q.writeUid, false), msg).0;
    && r == q.(data := r.data, valids := r.valids, w := Ptr(v.cyc, v.off + 16))
    && |r.data| == |q.data| && |r.valids| == NUM_READERS && r.valids[0]
    && AfterSend(q, h, msg).frames == h.frames + [Frame(v.cyc, v.off, msg)]
  }

  ghost predicate SeatedAt(q: Shared, off: nat) {
    Shape(q) && |q.data| == 48 && q.w.off == off && q.numReaders == 1 && q.valids[0] && q.ptrs[0] == Ptr(0, 32)
  }

  lemma SentStraight(q: Shared, h: History, msg: seq<byte>, off: nat)
    requires SeatedAt(q, off) && |msg| == 8 && (off == 0 || off == 16)
    ensures SentPast(q, h, msg, q.w)
  {
    NextOffIsEnd(off, 8);
  }

  lemma SentAround(q: Shared, h: History, msg: seq<byte>)
    requires SeatedAt(q, 32) && |msg| == 8
    ensures SentPast(q, h, msg, Ptr(q.w.cyc + 1, 0))
  {
    NextOffIsEnd(0, 8);
  }

  /** A send that neither lands on the seated subscriber nor passes it. */
  lemma PassedBy(b: System, msg: seq<byte>)
    requires Seated(b, b.q.w) && |msg| == 8 && b.q.w.off % 16 == 0 && b.q.w.off <= 32
    ensures Enabled(b, SendMsg(0, msg)) && SystemOK(Apply(b, SendMsg(0, msg)))
    ensures var t, v := Apply(b, SendMsg(0, msg)), NextLap(b.q.w);
      Seated(t, Ptr(v.cyc, v.off + 16)) && t.h.frames == b.h.frames + [Frame(v.cyc, v.off, msg)]
  {
    if b.q.w.off == 32 {
      SentAround(b.q, b.h, msg);
    } else {
      SentStraight(b.q, b.h, msg, b.q.w.off);
    }
    ApplyKeeps(b, SendMsg(0, msg));
  }

  lemma Passes(s: System, ops: seq<Op>, b: System, msg: seq<byte>) returns (t: System)
    requires Leads(s, ops, b) && Seated(b, b.q.w) && |msg| == 8 && b.q.w.off % 16 == 0 && b.q.w.off <= 32
    ensures Leads(s, ops + [SendMsg(0, msg)], t)
    ensures var v := NextLap(b.q.w);
      Seated(t, Ptr(v.cyc, v.off + 16)) && t.h.frames == b.h.frames + [Frame(v.cyc, v.off, msg)]
  {
    PassedBy(b, msg);
    LeadsOn(s, ops, b, SendMsg(0, msg));
    t := Apply(b, SendMsg(0, msg));
  }

  lemma Misses(b: System, c: seq<byte>)
    requires Seated(b, Ptr(1, 32)) && |c| == 8
    ensures Enabled(b, SendMsg(0, c))
    ensures
      var m := Apply(b, SendMsg(0, c));
      && SystemOK(m) && Seated(m, Ptr(2, 16))
      && Ready4Recv(m.q, m.h, m.handles[1].l) && Recv(m.q, m.handles[1].l, 3, m.h).2 == Got(c)
  {
    PassedBy(b, c);
    OwnSlotReady(b, 1);
    OwnSlotReady(Apply(b, SendMsg(0, c)), 1);
    var seen: nat :| HandleOK(b.q, b.h, b.handles[1], seen);
    StandsFromZero(b.q, b.h, 0, seen);
    LappedExactlySkips(b.q, b.h, b.handles[0].l, c, b.handles[1].l, 3);
  }

  lemma StandsFromZero(q: Shared, h: History, id: nat, seen: nat)
    requires Stands(q, h, id, seen)
    ensures Stands(q, h, id, 0)
  {
    var c := CtxOf(q, h);
    if q.valids[id] {
      if j: nat :| OnFrame(c, q.ptrs[id], seen, j) {
        assert OnFrame(c, q.ptrs[id], 0, j);
      } else if t: nat :| OnEnd(c, q.ptrs[id], seen, t) {
        assert OnEnd(c, q.ptrs[id], 0, t);
      }
    }
  }

  lemma ReceivesNewest(s: System, ops: seq<Op>, m: System, c: seq<byte>) returns (t: System)
    requires Leads(s, ops, m) && Seated(m, Ptr(2, 16))
    requires Ready4Recv(m.q, m.h, m.handles[1].l) && Recv(m.q, m.handles[1].l, 3, m.h).2 == Got(c)
    ensures Leads(s, ops + [Receive(1, 3)], t) && t.h == m.h
    ensures |t.handles| == 2 && t.handles[1].got == [c] && |t.q.valids| == NUM_READERS && t.q.valids[0]
  {
    LeadsOn(s, ops, m, Receive(1, 3));
    t := Apply(m, Receive(1, 3));
    ScanReceives(m.q, m.handles[1].l, 3, m.h, 0) by {
      OwnSlotReady(m, 1);
      var seen: nat :| HandleOK(m.q, m.h, m.handles[1], seen);
      StandsFromZero(m.q, m.h, 0, seen);
    }
  }

  lemma Arrives(s: System, x: seq<byte>, y: seq<byte>) returns (ops: seq<Op>, t: System)
    requires Fresh(s) && |s.q.data| == 48 && |s.handles| == 2 && |x| == |y| == 8
    requires s.handles[0].l == Local(-1, 0, 0, false) && s.handles[1].l == Local(-1, 0, 0, false)
    ensures ops == [BecomePublisher(0, 1), SendMsg(0, x), SendMsg(0, y), Subscribe(1, 2)]
    ensures Leads(s, ops, t) && Seated(t, Ptr(0, 32)) && t.h.frames == [Frame(0, 0, x), Frame(0, 16, y)]
  {
    var o1, o2, o3 := [BecomePublisher(0, 1)], [SendMsg(0, x)], [SendMsg(0, y)];
    var t1 := Opens(s);
    var t2 := Fills(s, o1, t1, x);
    var t3 := Fills(s, o1 + o2, t2, y);
    t := Sits(s, o1 + o2 + o3, t3);
    ops := o1 + o2 + o3 + [Subscribe(1, 2)];
  }

  lemma Lapped(s: System, past: seq<Op>, u: System, a: seq<byte>, b: seq<byte>, c: seq<byte>) returns (t: System)
    requires Leads(s, past, u) && Seated(u, Ptr(0, 32)) && |a| == |b| == |c| == 8
    ensures Leads(s, past + [SendMsg(0, a)] + [SendMsg(0, b)] + [SendMsg(0, c)] + [Receive(1, 3)], t)
    ensures t.h.frames == u.h.frames + [Frame(1, 0, a), Frame(1, 16, b), Frame(2, 0, c)]
    ensures |t.handles| == 2 && t.handles[1].got == [c] && |t.q.valids| == NUM_READERS && t.q.valids[0]
  {
    var t1 := Passes(s, past, u, a);
    var t2 := Passes(s, past + [SendMsg(0, a)], t1, b);
    t := MissesTwo(s, past + [SendMsg(0, a)] + [SendMsg(0, b)], t2, c);
  }

  lemma MissesTwo(s: System, past: seq<Op>, u: System, c: seq<byte>) returns (t: System)
    requires Leads(s, past, u) && Seated(u, Ptr(1, 32)) && |c| == 8
    ensures Leads(s, past + [SendMsg(0, c)] + [Receive(1, 3)], t)
    ensures t.h.frames == u.h.frames + [Frame(2, 0, c)]
    ensures |t.handles| == 2 && t.handles[1].got == [c] && |t.q.valids| == NUM_READERS && t.q.valids[0]
  {
    Misses(u, c);
    PassedBy(u, c);
    LeadsOn(s, past, u, SendMsg(0, c));
    t := ReceivesNewest(s, past + [SendMsg(0, c)], Apply(u, SendMsg(0, c)), c);
  }

  /** From a fresh ring: a subscriber that registers at the end of a lap and looks away for exactly
      one lap loses that lap. It is owed `a`, `b` and `c` and receives only `c`, though its flag
      was never cleared and it was never evicted. */
  lemma LosesALap(s: System, x: seq<byte>, y: seq<byte>, a: seq<byte>, b: seq<byte>, c: seq<byte>)
    returns (ops: seq<Op>, t: System)
    requires Fresh(s) && |s.q.data| == 48 && |s.handles| == 2
    requires s.handles[0].l == Local(-1, 0, 0, false) && s.handles[1].l == Local(-1, 0, 0, false)
    requires |x| == |y| == |a| == |b| == |c| == 8
    ensures ops == [BecomePublisher(0, 1), SendMsg(0, x), SendMsg(0, y), Subscribe(1, 2), SendMsg(0, a),
                    SendMsg(0, b), SendMsg(0, c), Receive(1, 3)]
    ensures Leads(s, ops, t)
    ensures Messages(t.h.frames) == [x, y, a, b, c] && |t.handles| == 2 && t.handles[1].got == [c]
    ensures |t.q.valids| == NUM_READERS && t.q.valids[0]
  {
    var past, u := Arrives(s, x, y);
    t := Lapped(s, past, u, a, b, c);
    ops := past + [SendMsg(0, a)] + [SendMsg(0, b)] + [SendMsg(0, c)] + [Receive(1, 3)];
  }
}
