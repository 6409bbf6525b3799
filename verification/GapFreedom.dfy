/** Receiving without gaps: between two resets, as long as the publisher neither clears a
    subscriber's flag nor comes to rest on its offset with another cycle, the subscriber gets
    exactly the next message each time, in every interleaving. */
module GapFreedom {
  import opened Words
  import opened Ring
  import opened Interleaving

  /** The two events the guarantee excludes: losing the flag, and being lapped exactly. */
  predicate Settled(s: State, k: nat)
    requires k < |s.readers|
  {
    var r := s.readers[k];
    r.valid && !r.conflate && (r.ptr.off == s.w.off ==> r.ptr.cyc == s.w.cyc)
  }

  /** The oldest lap a settled reader may be in: the current one, once the wrap loop has passed it. */
  function OldestLap(s: State, k: nat): int {
    match s.writer
    case WrapLoad(_, i) => if k < i then s.w.cyc else s.w.cyc - 1
    case WrapClear(_, i) => if k < i then s.w.cyc else s.w.cyc - 1
    case WrapPublish(_) => s.w.cyc
    case _ => s.w.cyc - 1
  }

  ghost predicate ExactFrame(c: Ctx, lo: int, p: Ptr, next: nat)
    requires |c.h.ends| == c.w.cyc
  {
    lo <= p.cyc && OnFrame(c, p, next, next) && c.h.frames[next].lap == p.cyc
  }

  ghost predicate ExactEnd(c: Ctx, lo: int, p: Ptr, next: nat)
    requires |c.h.ends| == c.w.cyc && |c.h.starts| == c.w.cyc + 1
  {
    lo <= p.cyc && OnEnd(c, p, next, p.cyc) && next == c.h.starts[p.cyc + 1]
  }

  /** The reader's pointer names message `next`: all earlier ones are taken, none is skipped. */
  ghost predicate Exact(c: Ctx, lo: int, p: Ptr, next: nat)
    requires |c.h.ends| == c.w.cyc && |c.h.starts| == c.w.cyc + 1
  {
    || (p == c.w && next == |c.h.frames|)
    || ExactFrame(c, lo, p, next)
    || ExactEnd(c, lo, p, next)
  }

  ghost predicate ExactPhase(c: Ctx, lo: int, r: Reader, next: nat)
    requires |c.h.ends| == c.w.cyc && |c.h.starts| == c.w.cyc + 1
  {
    match r.pc
    case LoadTag(_, _) => ExactFrame(c, lo, r.ptr, next) || ExactEnd(c, lo, r.ptr, next)
    case Recheck(_, _, tag) =>
      (tag == -1 && ExactEnd(c, lo, r.ptr, next))
      || (ExactFrame(c, lo, r.ptr, next) && |c.h.frames[next].msg| == tag)
    case Hop(_) => ExactEnd(c, lo, r.ptr, next)
    case Copy(_, size, buf) =>
      ExactFrame(c, lo, r.ptr, next) && |c.h.frames[next].msg| == size && Matches(buf, c.h.frames[next].msg)
    case Confirm(size, buf) =>
      && 0 < next <= |c.h.frames| && Assembled(size, buf) == c.h.frames[next - 1].msg
      && Exact(c, lo, r.ptr, next)
    case Skip(_, _) => false
    case Reset => false
    case Crashed => false
    case _ => Exact(c, lo, r.ptr, next)
  }

  function Messages(frames: seq<Frame>): seq<seq<byte>> {
    seq(|frames|, i requires 0 <= i < |frames| => frames[i].msg)
  }

  /** Messages taken so far: `next`, less one that is copied but not yet confirmed. */
  function Taken(r: Reader, next: nat): int {
    if r.pc.Confirm? then next - 1 else next
  }

  ghost predicate Gapless(s: State, k: nat, had: seq<seq<byte>>, a: nat, next: nat)
    requires |s.h.ends| == s.w.cyc && |s.h.starts| == s.w.cyc + 1 && k < |s.readers|
  {
    var r := s.readers[k];
    && a <= Taken(r, next) && next <= |s.h.frames|
    && r.got == had + Messages(s.h.frames[a..Taken(r, next)])
    && ExactPhase(ViewOf(s, k), OldestLap(s, k), r, next)
  }

  // ----- the subscriber's own steps -----

  lemma PastExactFrame(c: Ctx, n: nat, lo: int, p: Ptr, next: nat)
    requires CtxOK(c, n) && ExactFrame(c, lo, p, next) && lo <= c.w.cyc
    ensures Exact(c, lo, Ptr(p.cyc, p.off + Total(|c.h.frames[next].msg|)), next + 1)
  {
    var q := Ptr(p.cyc, p.off + Total(|c.h.frames[next].msg|));
    assert FrameOK(c.h, c.w, next);
    FrameFits(c, n, next);
    if next + 1 < LapStop(c.h, c.w, p.cyc) {
      assert ExactFrame(c, lo, q, next + 1);
    } else if p.cyc < c.w.cyc {
      assert ExactEnd(c, lo, q, next + 1);
    }
  }

  lemma AfterExactHop(c: Ctx, n: nat, lo: int, p: Ptr, next: nat)
    requires CtxOK(c, n) && ExactEnd(c, lo, p, next) && c.w.cyc - 1 <= lo
    ensures Exact(c, lo, Ptr(p.cyc + 1, 0), next)
  {
    if c.w.off != 0 {
      assert FrameOK(c.h, c.w, next);
      assert ExactFrame(c, lo, Ptr(p.cyc + 1, 0), next);
    }
  }

  /** How a settled reader's step moves the index of the next message. */
  function Advanced(r: Reader, q: Reader, next: nat): nat {
    if r.pc.Copy? && q.pc.Confirm? then next + 1 else next
  }

  lemma ReaderExact(m: Ctx, c: Ctx, mem: seq<byte>, lo: int, r: Reader, next: nat, k: nat)
    requires Views(m, c, mem) && LocalOK(|mem|, r) && r.valid && !r.conflate
    requires ExactPhase(c, lo, r, next) && c.w.cyc - 1 <= lo <= c.w.cyc
    requires r.ptr.off == c.w.off ==> r.ptr.cyc == c.w.cyc
    ensures var q := ReaderNext(mem, c.w, r, k); ExactPhase(c, lo, q, Advanced(r, q, next))
  {
    match r.pc
    case LoadTag(_, _) =>
      if ExactFrame(c, lo, r.ptr, next) {
        assert OnFrame(m, r.ptr, next, next);
        ReadFrame(m, mem, r.ptr, next, next);
      } else {
        assert OnEnd(m, r.ptr, next, r.ptr.cyc);
        ReadEnd(m, mem, r.ptr, next, r.ptr.cyc);
      }
    case Recheck(_, _, tag) =>
      if tag != -1 {
        FrameFits(c, |mem|, next);
      }
    case Hop(_) => AfterExactHop(c, |mem|, lo, r.ptr, next);
    case Copy(_, _, _) => CopyExact(m, c, mem, lo, r, next, k);
    case _ =>
  }

  lemma CopyExact(m: Ctx, c: Ctx, mem: seq<byte>, lo: int, r: Reader, next: nat, k: nat)
    requires Views(m, c, mem) && LocalOK(|mem|, r) && r.valid && r.pc.Copy?
    requires ExactPhase(c, lo, r, next) && lo <= c.w.cyc
    ensures var q := ReaderNext(mem, c.w, r, k); ExactPhase(c, lo, q, Advanced(r, q, next))
  {
    assert FramePayloadOK(m, mem, next);
    NextOffIsEnd(r.ptr.off, r.pc.size);
    PastExactFrame(c, |mem|, lo, r.ptr, next);
    if ReaderNext(mem, c.w, r, k).pc.Confirm? {
      assert Assembled(r.pc.size, r.pc.buf) == c.h.frames[next].msg;
    }
  }

  /** A confirmed message extends what was delivered by exactly message `next - 1`. */
  lemma ConfirmGapless(had: seq<seq<byte>>, frames: seq<Frame>, a: nat, next: nat)
    requires a < next <= |frames|
    ensures had + Messages(frames[a..next - 1]) + [frames[next - 1].msg] == had + Messages(frames[a..next])
  {
  }

  lemma ReaderGapless(s: State, k: nat, b: nat, had: seq<seq<byte>>, a: nat, next: nat)
    requires Inv(s) && k < |s.readers| && Settled(s, k) && Gapless(s, k, had, a, next)
    ensures var t := ReaderStep(s, k, b); Gapless(t, k, had, a, Advanced(s.readers[k], t.readers[k], next))
  {
    assert ReaderOK(ViewOf(s, k), |s.mem|, s.readers[k]);
    ReaderExact(MemCtx(s), ViewOf(s, k), s.mem, OldestLap(s, k), s.readers[k], next, b);
    ExtendsGapless(s, k, b, had, a, next);
  }

  lemma ExtendsGapless(s: State, k: nat, b: nat, had: seq<seq<byte>>, a: nat, next: nat)
    requires |s.h.ends| == s.w.cyc && |s.h.starts| == s.w.cyc + 1
    requires k < |s.readers| && Settled(s, k) && Gapless(s, k, had, a, next)
    requires var q := ReaderNext(s.mem, s.w, s.readers[k], b);
             ExactPhase(ViewOf(s, k), OldestLap(s, k), q, Advanced(s.readers[k], q, next))
    ensures var t := ReaderStep(s, k, b); Gapless(t, k, had, a, Advanced(s.readers[k], t.readers[k], next))
  {
    var t, r := ReaderStep(s, k, b), s.readers[k];
    assert ViewOf(t, k) == ViewOf(s, k) && OldestLap(t, k) == OldestLap(s, k);
    assert r.pc.Copy? ==> next < |s.h.frames|;
    if r.pc.Confirm? {
      ConfirmGapless(had, s.h.frames, a, next);
    }
  }

  // ----- the publisher's steps -----

  /** What the publisher's move from `c` to `d` must keep for a settled reader at `p`. */
  ghost predicate KeepsExact(c: Ctx, lo: int, d: Ctx, lo': int, p: Ptr, next: nat)
    requires |c.h.ends| == c.w.cyc && |c.h.starts| == c.w.cyc + 1
    requires |d.h.ends| == d.w.cyc && |d.h.starts| == d.w.cyc + 1
  {
    && c.h.frames <= d.h.frames
    && (ExactFrame(c, lo, p, next) ==> ExactFrame(d, lo', p, next))
    && (ExactEnd(c, lo, p, next) ==> ExactEnd(d, lo', p, next))
    && (p == c.w && next == |c.h.frames| ==> Exact(d, lo', p, next))
  }

  lemma TaggedExact(c: Ctx, n: nat, p: Ptr, next: nat)
    requires CtxOK(c, n) && !c.tagged && c.edge == c.w.off && (p.off == c.w.off ==> p.cyc == c.w.cyc)
    ensures KeepsExact(c, c.w.cyc - 1, Tagged(c), c.w.cyc - 1, p, next)
  {
  }

  /** A reader the wrap loop leaves alone is in the lap that is ending. */
  lemma PassedExact(c: Ctx, n: nat, p: Ptr, next: nat)
    requires CtxOK(c, n) && c.tagged && c.edge == c.w.off && (p.off == c.w.off ==> p.cyc == c.w.cyc)
    requires !(p.off > c.w.off && p.cyc != c.w.cyc)
    ensures KeepsExact(c, c.w.cyc - 1, c, c.w.cyc, p, next)
  {
  }

  lemma WrappedExact(c: Ctx, n: nat, p: Ptr, next: nat)
    requires CtxOK(c, n) && c.tagged && c.edge == c.w.off && 0 < c.w.off
    ensures |Wrapped(c).h.ends| == Wrapped(c).w.cyc && |Wrapped(c).h.starts| == Wrapped(c).w.cyc + 1
    ensures KeepsExact(c, c.w.cyc, Wrapped(c), c.w.cyc, p, next)
  {
  }

  lemma SparedExact(c: Ctx, n: nat, p: Ptr, next: nat, e: nat)
    requires CtxOK(c, n) && !c.tagged && c.edge == c.w.off <= e && Spared(c.w, p, e)
    ensures KeepsExact(c, c.w.cyc - 1, c.(edge := e), c.w.cyc - 1, p, next)
  {
  }

  lemma PublishedExact(c: Ctx, n: nat, p: Ptr, next: nat, msg: seq<byte>)
    requires CtxOK(c, n) && !c.tagged && |msg| > 0 && c.edge == c.w.off + Total(|msg|) && c.edge + 8 < n
    ensures KeepsExact(c, c.w.cyc - 1, Published(c, msg), c.w.cyc - 1, p, next)
  {
  }

  ghost predicate StepKeepsExact(s: State, t: State, k: nat, next: nat) {
    && |s.h.ends| == s.w.cyc && |s.h.starts| == s.w.cyc + 1
    && |t.h.ends| == t.w.cyc && |t.h.starts| == t.w.cyc + 1
    && k < |s.readers| && k < |t.readers| && t.readers[k] == s.readers[k]
    && KeepsExact(ViewOf(s, k), OldestLap(s, k), ViewOf(t, k), OldestLap(t, k), s.readers[k].ptr, next)
  }

  lemma BeginExact(s: State, k: nat, next: nat, msg: seq<byte>)
    requires Inv(s) && k < |s.readers| && s.writer.Idle?
    ensures StepKeepsExact(s, Begin(s, msg), k, next)
  {
    assert ViewOf(Begin(s, msg), k) == ViewOf(s, k);
  }

  lemma WrapMarkExact(s: State, k: nat, next: nat, m: seq<byte>)
    requires Inv(s) && k < |s.readers| && s.writer == WrapTag(m) && Settled(s, k)
    ensures StepKeepsExact(s, StoreWrapMark(s, m), k, next)
  {
    TaggedExact(MemCtx(s), |s.mem|, s.readers[k].ptr, next);
    assert ViewOf(StoreWrapMark(s, m), k) == Tagged(MemCtx(s));
  }

  lemma WrapLoopExact(s: State, k: nat, next: nat, m: seq<byte>, i: nat)
    requires Inv(s) && k < |s.readers| && Settled(s, k)
    ensures s.writer == WrapLoad(m, i) ==> StepKeepsExact(s, TestBeyond(s, m, i), k, next)
    ensures s.writer == WrapClear(m, i) && Settled(ClearBeyond(s, m, i), k) ==>
              StepKeepsExact(s, ClearBeyond(s, m, i), k, next)
  {
    if s.writer == WrapLoad(m, i) && !TestBeyond(s, m, i).writer.WrapClear? && i == k {
      PassedExact(MemCtx(s), |s.mem|, s.readers[k].ptr, next);
    }
  }

  lemma WrapPublishExact(s: State, k: nat, next: nat, m: seq<byte>)
    requires Inv(s) && k < |s.readers| && s.writer == WrapPublish(m)
    ensures StepKeepsExact(s, PublishTheWrap(s, m), k, next)
  {
    WrappedExact(MemCtx(s), |s.mem|, s.readers[k].ptr, next);
    assert ViewOf(PublishTheWrap(s, m), k) == Wrapped(MemCtx(s));
  }

  lemma TestInsideExact(s: State, k: nat, next: nat, m: seq<byte>, i: nat)
    requires Inv(s) && k < |s.readers| && s.writer == Load(m, i)
    ensures StepKeepsExact(s, TestInside(s, m, i), k, next)
  {
    var t := TestInside(s, m, i);
    if i == k && !t.writer.Clear? {
      SparedExact(MemCtx(s), |s.mem|, s.readers[k].ptr, next, s.w.off + Total(|m|));
    } else {
      assert ViewOf(t, k) == ViewOf(s, k);
    }
  }

  lemma ClearInsideExact(s: State, k: nat, next: nat, m: seq<byte>, i: nat)
    requires Inv(s) && k < |s.readers| && s.writer == Clear(m, i) && Settled(ClearInside(s, m, i), k)
    requires Settled(s, k)
    ensures StepKeepsExact(s, ClearInside(s, m, i), k, next)
  {
    assert ViewOf(ClearInside(s, m, i), k) == ViewOf(s, k);
  }

  lemma StoreSizeExact(s: State, k: nat, next: nat, m: seq<byte>)
    requires Inv(s) && k < |s.readers| && s.writer == PutTag(m)
    ensures StepKeepsExact(s, StoreSize(s, m), k, next)
  {
    assert ViewOf(StoreSize(s, m), k) == ViewOf(s, k);
  }

  lemma StoreByteExact(s: State, k: nat, next: nat, m: seq<byte>, done: set<nat>, b: nat)
    requires Inv(s) && k < |s.readers| && s.writer == PutData(m, done)
    ensures StepKeepsExact(s, StoreByte(s, m, done, b), k, next)
  {
    assert ViewOf(StoreByte(s, m, done, b), k) == ViewOf(s, k);
  }

  lemma PublishExact(s: State, k: nat, next: nat, m: seq<byte>)
    requires Inv(s) && k < |s.readers| && s.writer == Publish(m)
    ensures StepKeepsExact(s, PublishTheFrame(s, m), k, next)
  {
    PublishedExact(MemCtx(s), |s.mem|, s.readers[k].ptr, next, m);
    NextOffIsEnd(s.w.off, |m|);
    assert ViewOf(PublishTheFrame(s, m), k) == Published(MemCtx(s), m);
  }

  lemma WriterExact(s: State, k: nat, next: nat, msg: seq<byte>, b: nat)
    requires Inv(s) && k < |s.readers| && Settled(s, k)
    requires k < |WriterNext(s, msg, b).readers| && Settled(WriterNext(s, msg, b), k)
    ensures StepKeepsExact(s, WriterNext(s, msg, b), k, next)
  {
    match s.writer
    case Idle => BeginExact(s, k, next, msg);
    case WrapTag(m) => WrapMarkExact(s, k, next, m);
    case WrapLoad(m, i) => WrapLoopExact(s, k, next, m, i);
    case WrapClear(m, i) => WrapLoopExact(s, k, next, m, i);
    case WrapPublish(m) => WrapPublishExact(s, k, next, m);
    case Load(m, i) => TestInsideExact(s, k, next, m, i);
    case Clear(m, i) => ClearInsideExact(s, k, next, m, i);
    case PutTag(m) => StoreSizeExact(s, k, next, m);
    case PutData(m, done) => StoreByteExact(s, k, next, m, done, b);
    case Publish(m) => PublishExact(s, k, next, m);
  }

  lemma KeptGapless(s: State, t: State, k: nat, had: seq<seq<byte>>, a: nat, next: nat)
    requires StepKeepsExact(s, t, k, next) && Gapless(s, k, had, a, next)
    ensures Gapless(t, k, had, a, next)
  {
  }

  // ----- every stretch of every run -----

  lemma OtherExact(s: State, i: nat, b: nat, k: nat, next: nat)
    requires Inv(s) && i < |s.readers| && k < |s.readers| && i != k
    ensures StepKeepsExact(s, ReaderStep(s, i, b), k, next)
  {
    assert ViewOf(ReaderStep(s, i, b), k) == ViewOf(s, k);
  }

  /** A step in which reader `k` stays settled extends its gapless stretch. */
  lemma NextGapless(s: State, t: State, k: nat, had: seq<seq<byte>>, a: nat, next: nat) returns (after: nat)
    requires Inv(s) && Next(s, t) && k < |s.readers| && k < |t.readers| && Settled(s, k) && Settled(t, k)
    requires Gapless(s, k, had, a, next)
    ensures |t.h.ends| == t.w.cyc && |t.h.starts| == t.w.cyc + 1 && Gapless(t, k, had, a, after)
  {
    after := next;
    if msg, b: nat :| t == WriterNext(s, msg, b) {
      WriterExact(s, k, next, msg, b);
      KeptGapless(s, t, k, had, a, next);
    } else {
      var i: nat, b: nat :| i < |s.readers| && t == ReaderStep(s, i, b);
      if i == k {
        ReaderGapless(s, k, b, had, a, next);
        after := Advanced(s.readers[k], t.readers[k], next);
      } else {
        OtherExact(s, i, b, k, next);
        KeptGapless(s, t, k, had, a, next);
      }
    }
  }

  lemma FreshGapless(s: State, k: nat)
    requires Inv(s) && k < |s.readers| && s.readers[k].pc.Start? && s.readers[k].ptr == s.w
    ensures Gapless(s, k, s.readers[k].got, |s.h.frames|, |s.h.frames|)
  {
  }

  lemma StretchStep(states: seq<State>, b: nat, k: nat, had: seq<seq<byte>>, a: nat, next: nat) returns (after: nat)
    requires Run(states) && b + 1 < |states|
    requires k < |states[b].readers| && k < |states[b + 1].readers| && Settled(states[b], k) && Settled(states[b + 1], k)
    requires |states[b].h.ends| == states[b].w.cyc && |states[b].h.starts| == states[b].w.cyc + 1
    requires Gapless(states[b], k, had, a, next)
    ensures var t := states[b + 1]; |t.h.ends| == t.w.cyc && |t.h.starts| == t.w.cyc + 1 && Gapless(t, k, had, a, after)
  {
    ReachedOK(states, b);
    StepOfRun(states, b);
    after := NextGapless(states[b], states[b + 1], k, had, a, next);
  }

  lemma {:induction false} StretchGapless(states: seq<State>, a: nat, b: nat, k: nat) returns (next: nat)
    requires Run(states) && a <= b < |states|
    requires forall l | a <= l <= b :: k < |states[l].readers| && Settled(states[l], k)
    requires states[a].readers[k].pc.Start? && states[a].readers[k].ptr == states[a].w
    ensures var s := states[b]; |s.h.ends| == s.w.cyc && |s.h.starts| == s.w.cyc + 1
    ensures Gapless(states[b], k, states[a].readers[k].got, |states[a].h.frames|, next)
    decreases b
  {
    if a == b {
      ReachedOK(states, a);
      FreshGapless(states[a], k);
      next := |states[a].h.frames|;
    } else {
      next := StretchGapless(states, a, b - 1, k);
      next := StretchStep(states, b - 1, k, states[a].readers[k].got, |states[a].h.frames|, next);
    }
  }

  /** The reader is about to answer that nothing has arrived. */
  predicate ReportsEmpty(s: State, k: nat)
    requires k < |s.readers|
  {
    s.readers[k].pc.LoadWrite? && s.readers[k].pc.lr.off == s.w.off
  }

  lemma EmptyIsUpToDate(s: State, k: nat, had: seq<seq<byte>>, a: nat, next: nat)
    requires Inv(s) && k < |s.readers| && Settled(s, k) && Gapless(s, k, had, a, next) && ReportsEmpty(s, k)
    ensures next == |s.h.frames|
  {
    assert ReaderOK(ViewOf(s, k), |s.mem|, s.readers[k]);
    assert next < |s.h.frames| ==> FrameOK(s.h, s.w, next);
  }

  /** From a reset on, while settled, a subscriber has received exactly the messages from the reset
      up to some point, in order and without a gap, even across wraparounds; and when it answers
      that nothing has arrived, it has received everything published. */
  lemma NoGaps(states: seq<State>, a: nat, b: nat, k: nat) returns (upto: nat)
    requires Run(states) && a <= b < |states|
    requires forall l | a <= l <= b :: k < |states[l].readers| && Settled(states[l], k)
    requires states[a].readers[k].pc.Start? && states[a].readers[k].ptr == states[a].w
    ensures |states[a].h.frames| <= upto <= |states[b].h.frames|
    ensures states[b].readers[k].got ==
              states[a].readers[k].got + Messages(states[b].h.frames[|states[a].h.frames|..upto])
    ensures ReportsEmpty(states[b], k) ==> upto == |states[b].h.frames|
  {
    var next := StretchGapless(states, a, b, k);
    upto := Taken(states[b].readers[k], next);
    if ReportsEmpty(states[b], k) {
      ReachedOK(states, b);
      EmptyIsUpToDate(states[b], k, states[a].readers[k].got, |states[a].h.frames|, next);
    }
  }
}
