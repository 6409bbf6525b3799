/** bridge/msgq/msgq.cc on mutable memory: the mapped header and ring, and a process's handle on
    them. Every method is proved to do what the function of the same name in `Queue` says. */
module Msgq {
  import opened Words
  import opened Ring
  import opened Queue
  import opened Registration

  const TWO32: nat := 0x1_0000_0000

  /** `PACK64`. */
  function Pack(p: Ptr): nat {
    p.cyc * TWO32 + p.off
  }

  /** `UNPACK64`. */
  function Unpack(word: nat): Ptr {
    Ptr(word / TWO32, word % TWO32)
  }

  lemma PackedPointer(p: Ptr)
    requires p.off < TWO32
    ensures Unpack(Pack(p)) == p
  {
  }

  /** `msgq_header_t` and the data segment behind it, as every process maps them. */
  class Mapping {
    var numReaders: nat
    var writePointer: nat
    var writeUid: nat
    const readPointers: array<nat>
    const readValids: array<bool>
    const readUids: array<nat>
    const data: array<byte>

    ghost predicate Valid() {
      && readPointers.Length == readValids.Length == readUids.Length == NUM_READERS
      && readPointers != readUids && data.Length < TWO32
    }

    constructor (size: nat)
      requires size < TWO32
      ensures Valid() && fresh(readPointers) && fresh(readValids) && fresh(readUids) && fresh(data)
      ensures State() == Shared(0, Ptr(0, 0), 0, seq(NUM_READERS, _ => Ptr(0, 0)),
                                seq(NUM_READERS, _ => false), seq(NUM_READERS, _ => 0), State().data)
      ensures |State().data| == size
    {
      numReaders, writePointer, writeUid := 0, 0, 0;
      readPointers := new nat[NUM_READERS](_ => 0);
      readValids := new bool[NUM_READERS](_ => false);
      readUids := new nat[NUM_READERS](_ => 0);
      data := new byte[size](_ => 0);
    }

    /** The header with its pointers unpacked. */
    ghost function State(): (q: Shared)
      requires Valid()
      reads this, readPointers, readValids, readUids, data
      ensures |q.ptrs| == |q.valids| == |q.uids| == NUM_READERS && |q.data| == data.Length
    {
      Shared(numReaders, Unpack(writePointer), writeUid,
             seq(NUM_READERS, i requires 0 <= i < NUM_READERS reads this, readPointers => Unpack(readPointers[i])),
             readValids[..], readUids[..], data[..])
    }
  }

  /** `msgq_queue_t`: what one process keeps. */
  class Handle {
    const shm: Mapping
    var readerId: int
    var readUid: nat
    var writeUid: nat
    var conflate: bool

    constructor (shm: Mapping)
      ensures this.shm == shm && Fields() == Local(-1, 0, 0, false)
    {
      this.shm := shm;
      readerId, readUid, writeUid, conflate := -1, 0, 0, false;
    }

    ghost function Fields(): Local
      reads this
    {
      Local(readerId, readUid, writeUid, conflate)
    }

    method ClearSlots()
      requires shm.Valid()
      modifies shm`numReaders, shm.readValids, shm.readUids
      ensures shm.State() == AllClear(old(shm.State()))
    {
      shm.numReaders := 0;
      for i := 0 to NUM_READERS
        invariant forall k | 0 <= k < i :: !shm.readValids[k] && shm.readUids[k] == 0
        invariant shm.numReaders == 0
      {
        shm.readValids[i] := false;
        shm.readUids[i] := 0;
      }
      assert shm.State().ptrs == old(shm.State()).ptrs;
      assert shm.State().valids == seq(NUM_READERS, _ => false);
      assert shm.State().uids == seq(NUM_READERS, _ => 0);
    }

    method InitPublisher(uid: nat)
      requires shm.Valid()
      modifies this`writeUid, shm`writeUid, shm`numReaders, shm.readValids, shm.readUids
      ensures (shm.State(), Fields()) == Queue.InitPublisher(old(shm.State()), old(Fields()), uid)
    {
      shm.writeUid := uid;
      assert shm.State().ptrs == old(shm.State()).ptrs;
      ClearSlots();
      writeUid := uid;
    }

    method ResetReader()
      requires shm.Valid() && Shape(shm.State()) && 0 <= readerId < NUM_READERS
      modifies shm.readValids, shm.readPointers
      ensures shm.State() == Reset(old(shm.State()), readerId)
    {
      shm.readValids[readerId] := true;
      shm.readPointers[readerId] := shm.writePointer;
      assert shm.State().ptrs == Reset(old(shm.State()), readerId).ptrs;
    }

    /** `std::atomic_compare_exchange_strong` on the number of readers. */
    method CompareExchange(expected: nat, desired: nat) returns (ok: bool)
      requires shm.Valid()
      modifies shm`numReaders
      ensures ok <==> old(shm.numReaders) == expected
      ensures shm.State() == if ok then old(shm.State()).(numReaders := desired) else old(shm.State())
    {
      ok := shm.numReaders == expected;
      if ok {
        shm.numReaders := desired;
      }
      assert shm.State().ptrs == old(shm.State()).ptrs;
    }

    /** What follows the load of the number of readers: an eviction, or an attempt to claim a slot. */
    method Attempt(uid: nat, cur: nat) returns (done: bool)
      requires shm.Valid() && Shape(shm.State()) && cur <= NUM_READERS
      modifies this`readerId, this`readUid, shm`numReaders, shm.readValids, shm.readUids, shm.readPointers
      ensures done <==> cur + 1 <= NUM_READERS && old(shm.numReaders) == cur
      ensures Fields() == if done then old(Fields()).(readerId := cur, readUid := uid) else old(Fields())
      ensures shm.State() == if done then Claim(old(shm.State()), uid)
                             else if cur + 1 > NUM_READERS then AllClear(old(shm.State()))
                             else old(shm.State())
    {
      if cur + 1 > NUM_READERS {
        ClearSlots();
        return false;
      }
      done := CompareExchange(cur, cur + 1);
      if done {
        readerId, readUid := cur, uid;
        shm.readValids[cur] := false;
        shm.readPointers[cur] := 0;
        shm.readUids[cur] := uid;
        assert shm.State().ptrs == Claim(old(shm.State()), uid).ptrs;
      }
    }

    /** Other processes register. */
    method LetIn(uids: seq<nat>)
      requires shm.Valid() && Shape(shm.State())
      modifies shm`numReaders, shm.readValids, shm.readUids, shm.readPointers
      ensures shm.State() == Registered(old(shm.State()), uids) && Fields() == old(Fields())
      decreases 1, |uids|
    {
      if uids != [] {
        var other := new Handle(shm);
        other.InitSubscriber(uids[0], []);
        LetIn(uids[1..]);
      }
    }

    /** `msgq_init_subscriber`, with others registering meanwhile. */
    method InitSubscriber(uid: nat, rivals: seq<seq<nat>>)
      requires shm.Valid() && Shape(shm.State())
      modifies this`readerId, this`readUid, shm`numReaders, shm.readValids, shm.readUids, shm.readPointers
      ensures (shm.State(), Fields()) == Queue.InitSubscriber(Raced(old(shm.State()), rivals), old(Fields()), uid)
      decreases if rivals == [] then 0 else 2, |rivals|
    {
      ghost var goal := Queue.InitSubscriber(Raced(shm.State(), rivals), Fields(), uid);
      var left, done := rivals, false;
      while !done
        invariant Shape(shm.State())
        invariant !done ==> Queue.InitSubscriber(Raced(shm.State(), left), Fields(), uid) == goal
        invariant done ==> 0 <= readerId < NUM_READERS && (Reset(shm.State(), readerId), Fields()) == goal
        decreases !done, |left|, if done then 0 else shm.numReaders
      {
        var cur := shm.numReaders;
        if left != [] {
          LetIn(left[0]);
          left := left[1..];
        }
        done := Attempt(uid, cur);
      }
      ResetReader();
    }

    /** The first invalidation loop of `msgq_msg_send`. */
    method InvalidateBeyond()
      requires shm.Valid() && Shape(shm.State())
      modifies shm.readValids
      ensures shm.State() == old(shm.State()).(valids := KeptBeyond(old(shm.State())))
    {
      ghost var q := shm.State();
      var write := Unpack(shm.writePointer);
      for i := 0 to shm.numReaders
        invariant forall k | 0 <= k < NUM_READERS :: shm.readValids[k] == (q.valids[k] && !(k < i && Beyond(q, k)))
      {
        var read := Unpack(shm.readPointers[i]);
        assert read == q.ptrs[i];
        if read.off > write.off && read.cyc != write.cyc {
          shm.readValids[i] := false;
        }
      }
      assert shm.State().valids == KeptBeyond(q);
      assert shm.State().ptrs == q.ptrs;
    }

    /** The second invalidation loop of `msgq_msg_send`. */
    method InvalidateInside(end: nat)
      requires shm.Valid() && Shape(shm.State())
      modifies shm.readValids
      ensures shm.State() == old(shm.State()).(valids := KeptInside(old(shm.State()), end))
    {
      ghost var q := shm.State();
      var write := Unpack(shm.writePointer);
      for i := 0 to shm.numReaders
        invariant forall k | 0 <= k < NUM_READERS :: shm.readValids[k] == (q.valids[k] && !(k < i && Inside(q, k, end)))
      {
        var read := Unpack(shm.readPointers[i]);
        assert read == q.ptrs[i];
        if write.off <= read.off < end && read.cyc != write.cyc {
          shm.readValids[i] := false;
        }
      }
      assert shm.State().valids == KeptInside(q, end);
      assert shm.State().ptrs == q.ptrs;
    }

    /** `memcpy` into the ring. */
    method PutBytes(o: nat, s: seq<byte>)
      requires shm.Valid() && o + |s| <= shm.data.Length
      modifies shm.data
      ensures shm.State() == old(shm.State()).(data := Splice(old(shm.State()).data, o, s))
    {
      for k := 0 to |s|
        invariant forall j | 0 <= j < shm.data.Length ::
                    shm.data[j] == if o <= j < o + k then s[j - o] else old(shm.data[j])
      {
        shm.data[o + k] := s[k];
      }
      assert shm.State().data == Splice(old(shm.State()).data, o, s);
      assert shm.State().ptrs == old(shm.State()).ptrs;
    }

    method PutTag(o: nat, v: int)
      requires shm.Valid() && o + 8 <= shm.data.Length && -TWO63 <= v < TWO63
      modifies shm.data
      ensures shm.State() == old(shm.State()).(data := StoreTag(old(shm.State()).data, o, v))
    {
      PutBytes(o, TagBytes(v));
    }

    method StoreWritePointer(p: Ptr)
      requires shm.Valid() && p.off < TWO32
      modifies shm`writePointer
      ensures shm.State() == old(shm.State()).(w := p)
    {
      shm.writePointer := Pack(p);
      PackedPointer(p);
      assert shm.State().ptrs == old(shm.State()).ptrs;
    }

    method WrapAround()
      requires shm.Valid() && Shape(shm.State())
      modifies shm`writePointer, shm.readValids, shm.data
      ensures shm.State() == Queue.WrapAround(old(shm.State()))
    {
      var write := Unpack(shm.writePointer);
      PutTag(write.off, -1);
      InvalidateBeyond();
      StoreWritePointer(Ptr(write.cyc + 1, 0));
    }

    method Append(msg: seq<byte>)
      requires shm.Valid() && Shape(shm.State()) && shm.State().w.off + Total(|msg|) + 8 < shm.data.Length
      modifies shm`writePointer, shm.readValids, shm.data
      ensures shm.State() == Queue.Append(old(shm.State()), msg)
    {
      var write := Unpack(shm.writePointer);
      InvalidateInside(Align(write.off + 8 + |msg|));
      PutTag(write.off, |msg|);
      PutBytes(write.off + 8, msg);
      StoreWritePointer(Ptr(write.cyc, NextOff(write.off, |msg|)));
    }

    method Send(msg: seq<byte>) returns (r: SendResult)
      requires shm.Valid() && Shape(shm.State())
      modifies shm`writePointer, shm.readValids, shm.data
      ensures (shm.State(), r) == Queue.Send(old(shm.State()), Fields(), msg)
    {
      if writeUid != shm.writeUid {
        return Refused;
      }
      var total := Total(|msg|);
      if 3 * total > shm.data.Length {
        return SendAborted;
      }
      if shm.data.Length - Unpack(shm.writePointer).off - total - 8 <= 0 {
        WrapAround();
      }
      Append(msg);
      r := Sent(|msg|);
    }

    /** One pass of the checks at `start` of `msgq_msg_recv` and `msgq_msg_ready`; true when they
        end in `goto start`. */
    method Rejoin(uid: nat) returns (again: bool)
      requires shm.Valid() && Shape(shm.State()) && 0 <= readerId < NUM_READERS
      modifies this`readerId, this`readUid, shm`numReaders, shm.readValids, shm.readUids, shm.readPointers
      ensures again <==> !(Live(old(shm.State()), old(Fields())) && old(shm.readValids[readerId]))
      ensures if again then (shm.State(), Fields()) == Joined(old(shm.State()), old(Fields()), uid)
              else shm.State() == old(shm.State()) && Fields() == old(Fields())
    {
      if readUid != shm.readUids[readerId] {
        InitSubscriber(uid, []);
        return true;
      }
      if !shm.readValids[readerId] {
        ResetReader();
        return true;
      }
      assert shm.State() == old(shm.State());
      return false;
    }

    method Ready(uid: nat) returns (yes: bool)
      requires shm.Valid() && Shape(shm.State()) && 0 <= readerId < NUM_READERS
      modifies this`readerId, this`readUid, shm`numReaders, shm.readValids, shm.readUids, shm.readPointers
      ensures (shm.State(), Fields(), yes) == MsgReady(old(shm.State()), old(Fields()), uid)
    {
      ReadyJoins(shm.State(), Fields(), uid);
      var again := Rejoin(uid);
      if again {
        label joined:
        again := Rejoin(uid);
        assert !again;
      }
      yes := Unpack(shm.readPointers[readerId]).off != Unpack(shm.writePointer).off;
    }

    method AllReadersUpdated() returns (r: bool)
      requires shm.Valid() && Shape(shm.State())
      ensures r == Queue.AllReadersUpdated(shm.State())
    {
      for i := 0 to shm.numReaders
        invariant forall k | 0 <= k < i :: shm.readValids[k] ==> shm.writePointer == shm.readPointers[k]
      {
        if shm.readValids[i] && shm.writePointer != shm.readPointers[i] {
          return false;
        }
      }
      r := shm.numReaders > 0;
    }

    method StoreReadPointer(p: Ptr)
      requires shm.Valid() && Shape(shm.State()) && 0 <= readerId < NUM_READERS && p.off < TWO32
      modifies shm.readPointers
      ensures shm.State() == Moved(old(shm.State()), readerId, p)
    {
      shm.readPointers[readerId] := Pack(p);
      PackedPointer(p);
      assert shm.State().ptrs == Moved(old(shm.State()), readerId, p).ptrs;
    }

    /** Some steps of a receive lead from `q` to `r`, nearer the writer, with the same outcome to come. */
    static ghost predicate Nearer(q: Shared, r: Shared, l: Local, uid: nat, h: History)
      requires Ready4Recv(q, h, l) && 0 <= l.readerId
    {
      && Ready4Recv(r, h, l) && Live(r, l) && r.valids[l.readerId]
      && Queue.Recv(r, l, uid, h) == Queue.Recv(q, l, uid, h)
      && var (b, d) := (Behind(q, l.readerId), Behind(r, l.readerId));
         (b.0 && !d.0) || (b.0 == d.0 && 0 <= d.1 < b.1)
    }

    /** Leaving a frame behind: `goto start` when conflating and more is to come. */
    static lemma LeavesFrame(q: Shared, l: Local, uid: nat, h: History, seen: nat, j: nat)
      requires Ready4Recv(q, h, l) && Live(q, l) && q.valids[l.readerId] && q.ptrs[l.readerId].off != q.w.off
      requires Finds(q, h, q.ptrs[l.readerId], seen, j)
      ensures
        var p, size := q.ptrs[l.readerId], |h.frames[j].msg|;
        var r := Moved(q, l.readerId, Ptr(p.cyc, NextOff(p.off, size)));
        if l.conflate && NextOff(p.off, size) != q.w.off then Nearer(q, r, l, uid, h)
        else p.off + 8 + size <= |q.data| && Queue.Recv(q, l, uid, h) == (r, l, Got(q.data[p.off + 8..p.off + 8 + size]))
    {
      var p := q.ptrs[l.readerId];
      MovedOK(q, h, l.readerId, Ptr(p.cyc, NextOff(p.off, |h.frames[j].msg|)), j + 1);
    }

    static lemma Hops(q: Shared, l: Local, uid: nat, h: History, seen: nat)
      requires Ready4Recv(q, h, l) && Live(q, l) && q.valids[l.readerId] && Stands(q, h, l.readerId, seen)
      requires var p := q.ptrs[l.readerId]; p.off != q.w.off && p.off + 8 <= |q.data| && TagAt(q.data, p.off) == -1
      ensures Nearer(q, Moved(q, l.readerId, Ptr(q.ptrs[l.readerId].cyc + 1, 0)), l, uid, h)
    {
      Advances(q, h, q.ptrs[l.readerId], seen);
      MovedOK(q, h, l.readerId, Ptr(q.ptrs[l.readerId].cyc + 1, 0), seen);
    }

    /** A wraparound tag: back to the start of the ring. */
    method Hop(uid: nat, ghost h: History)
      requires shm.Valid() && Ready4Recv(shm.State(), h, Fields())
      requires Live(shm.State(), Fields()) && shm.readValids[readerId]
      requires var q := shm.State(); var p := q.ptrs[readerId];
        p.off != q.w.off && p.off + 8 <= |q.data| && TagAt(q.data, p.off) == -1
      modifies shm.readPointers
      ensures Nearer(old(shm.State()), shm.State(), Fields(), uid, h)
    {
      ghost var seen: nat :| Stands(shm.State(), h, readerId, seen);
      Hops(shm.State(), Fields(), uid, h, seen);
      var read := Unpack(shm.readPointers[readerId]);
      assert read == shm.State().ptrs[readerId];
      StoreReadPointer(Ptr(read.cyc + 1, 0));
    }

    /** A frame: its message, or back to `start` when conflating and more is to come. */
    method Take(size: nat, uid: nat, ghost h: History, ghost seen: nat, ghost j: nat) returns (again: bool, r: RecvResult)
      requires shm.Valid() && Ready4Recv(shm.State(), h, Fields())
      requires Live(shm.State(), Fields()) && shm.readValids[readerId]
      requires var q := shm.State();
        q.ptrs[readerId].off != q.w.off && Finds(q, h, q.ptrs[readerId], seen, j) && size == |h.frames[j].msg|
      modifies shm.readPointers
      ensures again ==> Nearer(old(shm.State()), shm.State(), Fields(), uid, h)
      ensures !again ==> (shm.State(), Fields(), r) == Queue.Recv(old(shm.State()), Fields(), uid, h)
    {
      LeavesFrame(shm.State(), Fields(), uid, h, seen, j);
      var read, write := Unpack(shm.readPointers[readerId]), Unpack(shm.writePointer);
      assert read == shm.State().ptrs[readerId];
      var next := Ptr(read.cyc, NextOff(read.off, size));
      StoreReadPointer(next);
      if conflate && next.off != write.off {
        return true, Nothing;
      }
      return false, Got(shm.data[read.off + 8..read.off + 8 + size]);
    }

    /** The rest of `msgq_msg_recv` once the reader is registered and valid: one message, nothing,
        or `goto start` from somewhere nearer the writer. */
    method Scan(uid: nat, ghost h: History) returns (again: bool, r: RecvResult)
      requires shm.Valid() && Ready4Recv(shm.State(), h, Fields())
      requires Live(shm.State(), Fields()) && shm.readValids[readerId]
      modifies shm.readPointers
      ensures again ==> Nearer(old(shm.State()), shm.State(), Fields(), uid, h)
      ensures !again ==> (shm.State(), Fields(), r) == Queue.Recv(old(shm.State()), Fields(), uid, h)
    {
      again, r := false, Nothing;
      var read, write := Unpack(shm.readPointers[readerId]), Unpack(shm.writePointer);
      ghost var q := shm.State();
      assert read == q.ptrs[readerId];
      if read.off == write.off {
        return;
      }
      ghost var seen: nat :| Stands(q, h, readerId, seen);
      Advances(q, h, read, seen);
      var size := TagOf(shm.data[read.off..read.off + 8]);
      assert size == TagAt(q.data, read.off);
      if size == -1 {
        Hop(uid, h);
        return true, Nothing;
      }
      ghost var j: nat :| Finds(q, h, read, seen, j);
      again, r := Take(size, uid, h, seen, j);
    }

    /** `msgq_msg_recv`; `h` is the history the ring holds and takes no part in the computation. */
    method Recv(uid: nat, ghost h: History) returns (r: RecvResult)
      requires shm.Valid() && Ready4Recv(shm.State(), h, Fields())
      modifies this`readerId, this`readUid, shm`numReaders, shm.readValids, shm.readUids, shm.readPointers
      ensures (shm.State(), Fields(), r) == Queue.Recv(old(shm.State()), old(Fields()), uid, h)
    {
      r := RecvAborted;
      if readerId < 0 {
        return;
      }
      ghost var out := Queue.Recv(shm.State(), Fields(), uid, h);
      var again := true;
      while again
        invariant again ==> Ready4Recv(shm.State(), h, Fields()) && 0 <= readerId
        invariant again ==> Queue.Recv(shm.State(), Fields(), uid, h) == out
        invariant !again ==> (shm.State(), Fields(), r) == out
        decreases again, again && !(Live(shm.State(), Fields()) && shm.readValids[readerId]),
                  again && Behind(shm.State(), readerId).0, if again then Behind(shm.State(), readerId).1 else 0
      {
        JoinedRecv(shm.State(), Fields(), uid, h);
        again := Rejoin(uid);
        if !again {
          again, r := Scan(uid, h);
        }
      }
    }
  }
}
