/** Whole runs of bridge/msgq with any number of processes, each operation one atomic step:
    publishers taking over, subscribers registering, being evicted and registering again. */
module QueueRuns {
  import opened Words
  import opened Ring
  import opened Queue

  /** One process's handle, and every message it has received. */
  datatype Handle = Handle(l: Local, got: seq<seq<byte>>)

  datatype System = System(q: Shared, h: History, handles: seq<Handle>)

  datatype Op =
    | BecomePublisher(i: nat, uid: nat)
    | Subscribe(i: nat, uid: nat)
    | SendMsg(i: nat, msg: seq<byte>)
    | Receive(i: nat, uid: nat)
    | AskReady(i: nat, uid: nat)

  // ----- the invariant -----

  /** Handle `i` has received a strictly increasing selection of what was sent, and owns its slot
      only below `num_readers`, where it stands before everything it has not received. */
  ghost predicate HandleOK(q: Shared, h: History, u: Handle, seen: nat)
    requires Shape(q)
  {
    && u.l.readerId < NUM_READERS && (0 <= u.l.readerId ==> u.l.readUid != 0)
    && Delivered(u.got, h.frames, seen)
    && (Live(q, u.l) ==> u.l.readerId < q.numReaders && Stands(q, h, u.l.readerId, seen))
  }

  ghost predicate Tracked(q: Shared, h: History, u: Handle)
    requires Shape(q)
  {
    exists seen :: HandleOK(q, h, u, seen)
  }

  /** Two registered handles never carry the same identity, so they never own the same slot. */
  ghost predicate Distinct(handles: seq<Handle>) {
    forall i, j | 0 <= i < j < |handles| && 0 <= handles[i].l.readerId && 0 <= handles[j].l.readerId ::
      handles[i].l.readUid != handles[j].l.readUid
  }

  ghost predicate SystemOK(s: System) {
    && QueueOK(s.q, s.h) && Distinct(s.handles)
    && forall i | 0 <= i < |s.handles| :: Tracked(s.q, s.h, s.handles[i])
  }

  /** `msgq_get_uid` drew a number no process uses. */
  ghost predicate FreshUid(s: System, uid: nat) {
    && uid != 0 && uid !in s.q.uids
    && forall i | 0 <= i < |s.handles| :: s.handles[i].l.readUid != uid
  }

  ghost predicate Enabled(s: System, op: Op) {
    op.i < |s.handles|
    && match op
       case BecomePublisher(_, uid) => FreshUid(s, uid)
       case Subscribe(_, uid) => FreshUid(s, uid)
       case SendMsg(_, msg) => |msg| > 0
       case Receive(i, uid) => FreshUid(s, uid) && 0 <= s.handles[i].l.readerId
       case AskReady(i, uid) => FreshUid(s, uid) && 0 <= s.handles[i].l.readerId
  }

  lemma OwnSlotReady(s: System, i: nat)
    requires SystemOK(s) && i < |s.handles|
    ensures Ready4Recv(s.q, s.h, s.handles[i].l)
  {
  }

  /** What one operation does to the whole system. */
  ghost function Apply(s: System, op: Op): System
    requires SystemOK(s) && Enabled(s, op)
  {
    var u := s.handles[op.i];
    match op
    case BecomePublisher(i, uid) =>
      var (q, l) := InitPublisher(s.q, u.l, uid);
      s.(q := q, handles := s.handles[i := u.(l := l)])
    case Subscribe(i, uid) =>
      var (q, l) := InitSubscriber(s.q, u.l, uid);
      s.(q := q, handles := s.handles[i := u.(l := l)])
    case SendMsg(_, msg) =>
      var (q, out) := Send(s.q, u.l, msg);
      if out.Sent? then s.(q := q, h := AfterSend(s.q, s.h, msg)) else s
    case Receive(i, uid) =>
      OwnSlotReady(s, i);
      var (q, l, out) := Recv(s.q, u.l, uid, s.h);
      s.(q := q, handles := s.handles[i := Handle(l, if out.Got? then u.got + [out.msg] else u.got)])
    case AskReady(i, uid) =>
      OwnSlotReady(s, i);
      var (q, l, _) := MsgReady(s.q, u.l, uid);
      s.(q := q, handles := s.handles[i := u.(l := l)])
  }

  // ----- each operation keeps the invariant -----

  lemma PublisherKeeps(s: System, i: nat, uid: nat)
    requires SystemOK(s) && Enabled(s, BecomePublisher(i, uid))
    ensures SystemOK(Apply(s, BecomePublisher(i, uid)))
  {
    var t := Apply(s, BecomePublisher(i, uid));
    forall j | 0 <= j < |t.handles| ensures Tracked(t.q, t.h, t.handles[j]) {
      var seen: nat :| HandleOK(s.q, s.h, s.handles[j], seen);
      assert HandleOK(t.q, t.h, t.handles[j], seen);
    }
  }

  lemma SubscribeKeeps(s: System, i: nat, uid: nat)
    requires SystemOK(s) && Enabled(s, Subscribe(i, uid))
    ensures var t := Apply(s, Subscribe(i, uid)); SystemOK(t) && Live(t.q, t.handles[i].l) && t.q.valids[t.handles[i].l.readerId]
  {
    var t := Apply(s, Subscribe(i, uid));
    RejoinOK(s.q, s.h, s.handles[i].l, uid);
    forall j | 0 <= j < |t.handles| ensures Tracked(t.q, t.h, t.handles[j]) {
      var seen: nat :| HandleOK(s.q, s.h, s.handles[j], seen);
      SubscribedHandle(s, i, uid, j, seen);
    }
  }

  lemma SubscribedHandle(s: System, i: nat, uid: nat, j: nat, seen: nat)
    requires SystemOK(s) && Enabled(s, Subscribe(i, uid)) && j < |s.handles| && HandleOK(s.q, s.h, s.handles[j], seen)
    ensures var t := Apply(s, Subscribe(i, uid)); HandleOK(t.q, t.h, t.handles[j], seen)
  {
    RejoinOK(s.q, s.h, s.handles[i].l, uid);
  }

  lemma SendMsgKeeps(s: System, i: nat, msg: seq<byte>)
    requires SystemOK(s) && Enabled(s, SendMsg(i, msg))
    ensures SystemOK(Apply(s, SendMsg(i, msg)))
  {
    var l, t := s.handles[i].l, Apply(s, SendMsg(i, msg));
    if Send(s.q, l, msg).1.Sent? {
      SendKeeps(s.q, s.h, l, msg);
      forall j | 0 <= j < |t.handles| ensures Tracked(t.q, t.h, t.handles[j]) {
        var seen: nat :| HandleOK(s.q, s.h, s.handles[j], seen);
        DeliveredGrows(s.handles[j].got, s.h.frames, t.h.frames[|s.h.frames|..], seen, seen);
        assert s.h.frames + t.h.frames[|s.h.frames|..] == t.h.frames;
        if Live(s.q, s.handles[j].l) {
          SendStands(s.q, s.h, l, msg, s.handles[j].l.readerId, seen);
        }
        assert HandleOK(t.q, t.h, t.handles[j], seen);
      }
    }
  }

  /** Nobody else stands on the slot of a live handle. */
  lemma OthersElsewhere(s: System, i: nat, j: nat)
    requires SystemOK(s) && i < |s.handles| && j < |s.handles| && i != j
    requires Live(s.q, s.handles[i].l) && Live(s.q, s.handles[j].l)
    ensures s.handles[i].l.readerId != s.handles[j].l.readerId
  {
  }

  /** Changing only flag and pointer of a live handle's slot, to where it stands right. */
  lemma OwnSlotKeeps(s: System, t: System, i: nat, p: Ptr, got: seq<seq<byte>>, seen: nat)
    requires SystemOK(s) && i < |s.handles| && Live(s.q, s.handles[i].l)
    requires var id := s.handles[i].l.readerId;
      && t == s.(q := s.q.(valids := s.q.valids[id := true], ptrs := s.q.ptrs[id := p]),
                 handles := s.handles[i := s.handles[i].(got := got)])
      && Delivered(got, s.h.frames, seen) && Stands(t.q, s.h, id, seen)
    ensures SystemOK(t)
  {
    OwnSlotReady(s, i);
    forall j | 0 <= j < |t.handles| ensures Tracked(t.q, t.h, t.handles[j]) {
      if j == i {
        assert HandleOK(t.q, t.h, t.handles[j], seen);
      } else {
        if Live(s.q, s.handles[j].l) {
          OthersElsewhere(s, i, j);
        }
        var other: nat :| HandleOK(s.q, s.h, s.handles[j], other);
        assert HandleOK(t.q, t.h, t.handles[j], other);
      }
    }
  }

  /** The handle as `goto start` leaves it once it owns a valid slot. */
  ghost function Settled(s: System, i: nat, uid: nat): System
    requires Shape(s.q) && i < |s.handles| && 0 <= s.handles[i].l.readerId < NUM_READERS
  {
    var (q, l) := Joined(s.q, s.handles[i].l, uid);
    s.(q := q, handles := s.handles[i := s.handles[i].(l := l)])
  }

  lemma SettledOK(s: System, i: nat, uid: nat)
    requires SystemOK(s) && Enabled(s, Receive(i, uid)) && s.handles[i].l.readerId < NUM_READERS
    ensures var t := Settled(s, i, uid);
      && SystemOK(t) && Ready4Recv(t.q, t.h, t.handles[i].l) && Ready4Recv(s.q, s.h, s.handles[i].l)
      && Live(t.q, t.handles[i].l) && t.q.valids[t.handles[i].l.readerId]
      && Recv(s.q, s.handles[i].l, uid, s.h) == Recv(t.q, t.handles[i].l, uid, t.h)
  {
    var l, t := s.handles[i].l, Settled(s, i, uid);
    OwnSlotReady(s, i);
    if !Live(s.q, l) {
      assert t == Apply(s, Subscribe(i, uid));
      SubscribeKeeps(s, i, uid);
    } else if !s.q.valids[l.readerId] {
      var seen: nat :| HandleOK(s.q, s.h, s.handles[i], seen);
      OwnSlotKeeps(s, t, i, s.q.w, s.handles[i].got, seen);
    } else {
      assert t.handles == s.handles;
    }
    OwnSlotReady(t, i);
  }

  /** A receive by a handle that owns a valid slot. */
  lemma ScanKeeps(t: System, i: nat, uid: nat, r: System)
    requires SystemOK(t) && i < |t.handles| && Ready4Recv(t.q, t.h, t.handles[i].l)
    requires Live(t.q, t.handles[i].l) && t.q.valids[t.handles[i].l.readerId]
    requires var (q, l, out) := Recv(t.q, t.handles[i].l, uid, t.h);
      r == t.(q := q, handles := t.handles[i := Handle(l, if out.Got? then t.handles[i].got + [out.msg] else t.handles[i].got)])
    ensures SystemOK(r)
  {
    var l, got := t.handles[i].l, r.handles[i].got;
    var seen: nat :| HandleOK(t.q, t.h, t.handles[i], seen);
    ScanReceives(t.q, l, uid, t.h, seen);
    var (q, k, out) := Recv(t.q, l, uid, t.h);
    if out.Got? {
      var j: nat :| Takes(q, t.h, k, seen, j, out.msg);
      DeliverNext(t.handles[i].got, t.h.frames, seen, j);
      seen := j + 1;
    }
    OwnSlotKeeps(t, r, i, q.ptrs[l.readerId], got, seen);
  }

  lemma ReceiveKeeps(s: System, i: nat, uid: nat)
    requires SystemOK(s) && Enabled(s, Receive(i, uid))
    ensures SystemOK(Apply(s, Receive(i, uid)))
  {
    OwnSlotReady(s, i);
    SettledOK(s, i, uid);
    ScanKeeps(Settled(s, i, uid), i, uid, Apply(s, Receive(i, uid)));
  }

  lemma AskReadyKeeps(s: System, i: nat, uid: nat)
    requires SystemOK(s) && Enabled(s, AskReady(i, uid))
    ensures SystemOK(Apply(s, AskReady(i, uid)))
  {
    OwnSlotReady(s, i);
    SettledOK(s, i, uid);
    ReadyJoins(s.q, s.handles[i].l, uid);
    assert Apply(s, AskReady(i, uid)) == Settled(s, i, uid);
  }

  lemma ApplyKeeps(s: System, op: Op)
    requires SystemOK(s) && Enabled(s, op)
    ensures SystemOK(Apply(s, op))
  {
    match op
    case BecomePublisher(i, uid) => PublisherKeeps(s, i, uid);
    case Subscribe(i, uid) => SubscribeKeeps(s, i, uid);
    case SendMsg(i, msg) => SendMsgKeeps(s, i, msg);
    case Receive(i, uid) => ReceiveKeeps(s, i, uid);
    case AskReady(i, uid) => AskReadyKeeps(s, i, uid);
  }

  // ----- whole runs -----

  /** A fresh ring of `n` bytes and handles nobody has registered. */
  ghost predicate Fresh(s: System) {
    && 8 < |s.q.data| < 0x1_0000_0000
    && s.q == Shared(0, Ptr(0, 0), 0, seq(NUM_READERS, _ => Ptr(0, 0)), seq(NUM_READERS, _ => false),
                     seq(NUM_READERS, _ => 0), s.q.data)
    && s.h == EmptyHistory
    && forall i | 0 <= i < |s.handles| :: s.handles[i].l.readerId == -1 && s.handles[i].got == []
  }

  ghost predicate Runs(s: System, ops: seq<Op>)
    requires SystemOK(s)
    decreases |ops|
  {
    ops != [] ==> Enabled(s, ops[0]) && (ApplyKeeps(s, ops[0]); Runs(Apply(s, ops[0]), ops[1..]))
  }

  ghost function After(s: System, ops: seq<Op>): (t: System)
    requires SystemOK(s) && Runs(s, ops)
    ensures SystemOK(t)
    decreases |ops|
  {
    if ops == [] then s else (ApplyKeeps(s, ops[0]); After(Apply(s, ops[0]), ops[1..]))
  }

  lemma FreshOK(s: System)
    requires Fresh(s)
    ensures SystemOK(s)
  {
    forall i | 0 <= i < |s.handles| ensures Tracked(s.q, s.h, s.handles[i]) {
      assert Selects([], [], [], 0);
      assert HandleOK(s.q, s.h, s.handles[i], 0);
    }
  }

  /** Over every run from a fresh ring, whatever the mix of sends, receives, wraparounds,
      invalidations, resets, evictions, take-overs and re-registrations, what each process received
      is a strictly increasing selection of what was sent. */
  lemma ReceivedInOrder(s: System, ops: seq<Op>, i: nat)
    requires Fresh(s) && SystemOK(s) && Runs(s, ops) && i < |After(s, ops).handles|
    ensures Delivered(After(s, ops).handles[i].got, After(s, ops).h.frames, |After(s, ops).h.frames|)
  {
    var t := After(s, ops);
    var seen: nat :| HandleOK(t.q, t.h, t.handles[i], seen);
    DeliveredGrows(t.handles[i].got, t.h.frames, [], seen, |t.h.frames|);
    assert t.h.frames + [] == t.h.frames;
  }

  /** In every reachable state a live subscriber's slot is one the next send looks at, at most
      fifteen are registered, and no two live subscribers share a slot. */
  lemma SlotsCovered(s: System, ops: seq<Op>, i: nat, j: nat)
    requires Fresh(s) && SystemOK(s) && Runs(s, ops)
    requires var t := After(s, ops); i < |t.handles| && j < |t.handles| && i != j
    ensures var t := After(s, ops);
      && t.q.numReaders <= 15
      && (Live(t.q, t.handles[i].l) ==> t.handles[i].l.readerId < t.q.numReaders)
      && (Live(t.q, t.handles[i].l) && Live(t.q, t.handles[j].l) ==>
            t.handles[i].l.readerId != t.handles[j].l.readerId)
  {
  }

  /** Who finds every slot taken: a process that registers, whether it subscribes or its receive or readiness
      question finds that it was cut off itself. */
  predicate Registers(s: System, op: Op)
    requires Shape(s.q) && op.i < |s.handles|
  {
    op.Subscribe? || ((op.Receive? || op.AskReady?) && !Live(s.q, s.handles[op.i].l))
  }

  /** The operation cuts off process `j`. */
  predicate Evicts(s: System, op: Op, j: nat)
    requires Shape(s.q) && op.i < |s.handles|
  {
    op.BecomePublisher? || (Registers(s, op) && s.q.numReaders == NUM_READERS && j != op.i)
  }

  /** A receive leaves every process's claim as registering or resetting did. */
  lemma ReceiveClaims(s: System, i: nat, uid: nat)
    requires SystemOK(s) && Enabled(s, Receive(i, uid)) && s.handles[i].l.readerId < NUM_READERS
    ensures
      var t := Apply(s, Receive(i, uid));
      && t.q.uids == Settled(s, i, uid).q.uids && t.handles[i].l == Settled(s, i, uid).handles[i].l
  {
    SettledOK(s, i, uid);
    var t := Settled(s, i, uid);
    var seen: nat :| HandleOK(t.q, t.h, t.handles[i], seen);
    ScanReceives(t.q, t.handles[i].l, uid, t.h, seen);
  }

  lemma AskClaims(s: System, i: nat, uid: nat)
    requires SystemOK(s) && Enabled(s, AskReady(i, uid)) && s.handles[i].l.readerId < NUM_READERS
    ensures Apply(s, AskReady(i, uid)) == Settled(s, i, uid)
  {
    OwnSlotReady(s, i);
    ReadyJoins(s.q, s.handles[i].l, uid);
  }

  lemma SettledClaims(s: System, i: nat, uid: nat, j: nat)
    requires SystemOK(s) && Enabled(s, Receive(i, uid)) && j < |s.handles| && s.handles[i].l.readerId < NUM_READERS
    ensures var t := Settled(s, i, uid); var l := s.handles[j].l;
      if j == i then Live(t.q, t.handles[i].l)
      else Live(t.q, l) <==> Live(s.q, l) && (Live(s.q, s.handles[i].l) || s.q.numReaders < NUM_READERS)
  {
    SettledOK(s, i, uid);
    if !Live(s.q, s.handles[i].l) {
      SubscribeClaims(s, i, uid, j);
    }
  }

  lemma SubscribeClaims(s: System, i: nat, uid: nat, j: nat)
    requires SystemOK(s) && Enabled(s, Subscribe(i, uid)) && j < |s.handles|
    ensures var t := Apply(s, Subscribe(i, uid));
      Live(t.q, t.handles[j].l) <==> j == i || (Live(s.q, s.handles[j].l) && s.q.numReaders < NUM_READERS)
  {
  }

  /** Exactly a new publisher, and any other process that registers and finds every slot taken, cuts a process
      off; and what other processes do never brings back one that was cut off. */
  lemma CutsOffIff(s: System, op: Op, j: nat)
    requires SystemOK(s) && Enabled(s, op) && j < |s.handles|
    requires Live(s.q, s.handles[j].l) || j != op.i
    ensures var t := Apply(s, op);
      && SystemOK(t) && |t.handles| == |s.handles|
      && (!Live(t.q, t.handles[j].l) <==> !Live(s.q, s.handles[j].l) || Evicts(s, op, j))
      && (j != op.i ==> t.handles[j] == s.handles[j])
  {
    ApplyKeeps(s, op);
    match op
    case BecomePublisher(i, uid) =>
    case Subscribe(i, uid) => SubscribeClaims(s, i, uid, j);
    case SendMsg(i, msg) =>
    case Receive(i, uid) =>
      OwnSlotReady(s, i);
      ReceiveClaims(s, i, uid);
      SettledClaims(s, i, uid, j);
    case AskReady(i, uid) =>
      OwnSlotReady(s, i);
      AskClaims(s, i, uid);
      SettledClaims(s, i, uid, j);
  }

  /** Slot `id` is as it was. */
  predicate SameSlot(q: Shared, r: Shared, id: nat)
    requires Shape(q) && Shape(r) && id < NUM_READERS
  {
    r.valids[id] == q.valids[id] && r.ptrs[id] == q.ptrs[id] && r.uids[id] == q.uids[id]
  }

  lemma SettledElsewhere(s: System, i: nat, uid: nat, j: nat)
    requires SystemOK(s) && Enabled(s, Receive(i, uid)) && s.handles[i].l.readerId < NUM_READERS
    requires j < |s.handles| && j != i && Live(s.q, s.handles[j].l)
    requires !Live(s.q, s.handles[i].l) ==> s.q.numReaders < NUM_READERS
    ensures SystemOK(Settled(s, i, uid)) && SameSlot(s.q, Settled(s, i, uid).q, s.handles[j].l.readerId)
  {
    SettledOK(s, i, uid);
    if Live(s.q, s.handles[i].l) {
      OthersElsewhere(s, i, j);
    }
  }

  /** Nothing but a send and an eviction touches the flag, pointer and identity of a process's slot from outside. */
  lemma OthersLeaveSlot(s: System, op: Op, j: nat)
    requires SystemOK(s) && Enabled(s, op) && j < |s.handles| && j != op.i && Live(s.q, s.handles[j].l)
    requires !op.SendMsg? && !Evicts(s, op, j)
    ensures SystemOK(Apply(s, op)) && SameSlot(s.q, Apply(s, op).q, s.handles[j].l.readerId)
  {
    ApplyKeeps(s, op);
    OwnSlotReady(s, op.i);
    match op
    case Subscribe(i, uid) =>
    case Receive(i, uid) => ReceiveLeavesSlot(s, i, uid, j);
    case AskReady(i, uid) =>
      AskClaims(s, i, uid);
      SettledElsewhere(s, i, uid, j);
  }

  lemma ReceiveLeavesSlot(s: System, i: nat, uid: nat, j: nat)
    requires SystemOK(s) && Enabled(s, Receive(i, uid)) && s.handles[i].l.readerId < NUM_READERS
    requires j < |s.handles| && j != i && Live(s.q, s.handles[j].l) && !Evicts(s, Receive(i, uid), j)
    ensures Shape(Apply(s, Receive(i, uid)).q) && SameSlot(s.q, Apply(s, Receive(i, uid)).q, s.handles[j].l.readerId)
  {
    var t := Settled(s, i, uid);
    SettledOK(s, i, uid);
    SettledElsewhere(s, i, uid, j);
    var seen: nat :| HandleOK(t.q, t.h, t.handles[i], seen);
    ScanReceives(t.q, t.handles[i].l, uid, t.h, seen);
    OthersElsewhere(t, i, j);
  }

  ghost predicate NoneBy(ops: seq<Op>, j: nat) {
    forall k | 0 <= k < |ops| :: ops[k].i != j
  }

  /** A process that was cut off stays so through any run in which it does nothing itself. */
  lemma {:induction false} CutOffUntilItActs(s: System, ops: seq<Op>, j: nat)
    requires SystemOK(s) && Runs(s, ops) && j < |s.handles| && !Live(s.q, s.handles[j].l) && NoneBy(ops, j)
    ensures var t := After(s, ops);
      |t.handles| == |s.handles| && t.handles[j] == s.handles[j] && !Live(t.q, t.handles[j].l)
    decreases |ops|
  {
    if ops != [] {
      CutsOffIff(s, ops[0], j);
      assert NoneBy(ops[1..], j);
      CutOffUntilItActs(Apply(s, ops[0]), ops[1..], j);
    }
  }

  /** A process that was cut off gets nothing from its next receive, which registers it again, at
      the write pointer and in a slot of its own. */
  lemma CutOffRejoins(s: System, i: nat, uid: nat)
    requires SystemOK(s) && Enabled(s, Receive(i, uid)) && !Live(s.q, s.handles[i].l)
    ensures var t := Apply(s, Receive(i, uid)); var l := t.handles[i].l;
      && SystemOK(t) && t.handles[i].got == s.handles[i].got
      && Live(t.q, l) && l.readUid == uid && t.q.valids[l.readerId] && t.q.ptrs[l.readerId] == s.q.w
  {
    ReceiveKeeps(s, i, uid);
    OwnSlotReady(s, i);
    RejoinOK(s.q, s.h, s.handles[i].l, uid);
    var (r, k) := InitSubscriber(s.q, s.handles[i].l, uid);
    ScanReceives(r, k, uid, s.h, 0);
  }

  /** From an eviction or a new publisher to the process's next receive, with any operations of others between:
      the receive returns nothing and registers the process again where the writer then is. */
  lemma EvictedUntilReceive(s: System, op: Op, ops: seq<Op>, j: nat, uid: nat)
    requires SystemOK(s) && Enabled(s, op) && j < |s.handles| && Live(s.q, s.handles[j].l) && Evicts(s, op, j)
    requires SystemOK(Apply(s, op)) && Runs(Apply(s, op), ops) && NoneBy(ops, j)
    requires Enabled(After(Apply(s, op), ops), Receive(j, uid))
    ensures var t := After(Apply(s, op), ops); var r := Apply(t, Receive(j, uid)); var l := r.handles[j].l;
      && SystemOK(r) && r.handles[j].got == s.handles[j].got
      && Live(r.q, l) && l.readUid == uid && r.q.valids[l.readerId] && r.q.ptrs[l.readerId] == t.q.w
  {
    CutsOffIff(s, op, j);
    assert Apply(s, op).handles[j].got == s.handles[j].got;
    CutOffUntilItActs(Apply(s, op), ops, j);
    CutOffRejoins(After(Apply(s, op), ops), j, uid);
  }
}
