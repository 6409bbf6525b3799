/** Subscribers that register at the same time (`msgq_init_subscriber`, bridge/msgq/msgq.cc): when the loop with
    its compare-and-swap amounts to registering in one step. */
module Registration {
  import opened Ring
  import opened Queue

  datatype Option<T> = None | Some(value: T)

  /** One registers. */
  function Joins(q: Shared, uid: nat): (r: Shared)
    requires Shape(q)
    ensures Shape(r)
  {
    InitSubscriber(q, Local(-1, 0, 0, false), uid).0
  }

  /** Others register, one after the other. */
  function Registered(q: Shared, uids: seq<nat>): (r: Shared)
    requires Shape(q)
    ensures Shape(r)
    decreases |uids|
  {
    if uids == [] then q else Registered(Joins(q, uids[0]), uids[1..])
  }

  predicate Full(q: Shared) {
    q.numReaders + 1 > NUM_READERS
  }

  /** Shared memory when the loop of `msgq_init_subscriber` comes to claim a slot for good. `rivals[k]` register
      in its round `k` between the load of the number of readers and what it does with it. */
  function Raced(q: Shared, rivals: seq<seq<nat>>): (r: Shared)
    requires Shape(q)
    ensures Shape(r)
    decreases |rivals|
  {
    if rivals == [] then q
    else
      var r := Registered(q, rivals[0]);
      if Full(q) then Raced(AllClear(r), rivals[1..])
      else if r.numReaders == q.numReaders then r
      else Raced(r, rivals[1..])
  }

  /** Those that register before the slot is claimed. */
  function Arrivals(q: Shared, rivals: seq<seq<nat>>): seq<nat>
    requires Shape(q)
    decreases |rivals|
  {
    if rivals == [] then []
    else
      var r := Registered(q, rivals[0]);
      if Full(q) then rivals[0] + Arrivals(AllClear(r), rivals[1..])
      else if r.numReaders == q.numReaders then rivals[0]
      else rivals[0] + Arrivals(r, rivals[1..])
  }

  function Plus(n: nat, more: Option<nat>): Option<nat> {
    if more.Some? then Some(n + more.value) else None
  }

  /** How many of them have registered when the loop evicts everybody for the last time, if it does. */
  function Ousted(q: Shared, rivals: seq<seq<nat>>): Option<nat>
    requires Shape(q)
    decreases |rivals|
  {
    if rivals == [] then None
    else
      var n, r := |rivals[0]|, Registered(q, rivals[0]);
      if Full(q) then
        var later := Ousted(AllClear(r), rivals[1..]);
        if later.Some? then Plus(n, later) else Some(n)
      else if r.numReaders == q.numReaders then None
      else Plus(n, Ousted(r, rivals[1..]))
  }

  lemma {:induction false} RegisteredTwice(q: Shared, a: seq<nat>, b: seq<nat>)
    requires Shape(q)
    ensures Registered(q, a + b) == Registered(Registered(q, a), b)
    decreases |a|
  {
    if a == [] {
      assert a + b == b;
    } else {
      assert (a + b)[0] == a[0] && (a + b)[1..] == a[1..] + b;
      RegisteredTwice(Joins(q, a[0]), a[1..], b);
    }
  }

  /** The number of readers after `m` registrations: fifteen are followed by one. */
  function Cycled(n: nat, m: nat): nat {
    if m == 0 then n else (n + m - 1) % NUM_READERS + 1
  }

  lemma CycledStep(n: nat, m: nat)
    requires n <= NUM_READERS
    ensures Cycled(if n == NUM_READERS then 1 else n + 1, m) == Cycled(n, m + 1)
    ensures Cycled(n, m + 1) == if Cycled(n, m) == NUM_READERS then 1 else Cycled(n, m) + 1
    ensures 0 < Cycled(n, m + 1) <= NUM_READERS
  {
  }

  /** Once the slots have all been taken, the last one is if the registrations come out even. */
  lemma CycledFull(n: nat, m: nat)
    requires n <= NUM_READERS <= n + m
    ensures 0 < Cycled(n, m) && (Cycled(n, m) == NUM_READERS <==> (n + m) % NUM_READERS == 0)
  {
  }

  lemma CycledBelow(n: nat, m: nat)
    ensures Cycled(n, m) <= n + m
  {
  }

  lemma CycledApart(n: nat, m: nat)
    requires 0 < n < NUM_READERS
    ensures Cycled(n, m + 1) != Cycled(0, m + 1)
  {
    assert m % NUM_READERS != (m + n) % NUM_READERS;
  }

  lemma {:induction false} Counts(q: Shared, uids: seq<nat>)
    requires Shape(q)
    ensures Registered(q, uids).numReaders == Cycled(q.numReaders, |uids|)
    decreases |uids|
  {
    if uids != [] {
      CycledStep(q.numReaders, |uids| - 1);
      Counts(Joins(q, uids[0]), uids[1..]);
    }
  }

  lemma {:induction false} TouchesSlotsOnly(q: Shared, uids: seq<nat>)
    requires Shape(q)
    ensures var r := Registered(q, uids); r.w == q.w && r.data == q.data && r.writeUid == q.writeUid
    decreases |uids|
  {
    if uids != [] {
      TouchesSlotsOnly(Joins(q, uids[0]), uids[1..]);
    }
  }

  /** Every slot stands at the write pointer. */
  predicate AllAtWriter(q: Shared) {
    |q.ptrs| == NUM_READERS && forall k | 0 <= k < NUM_READERS :: q.ptrs[k] == q.w
  }

  /** A slot is taken by the registration whose turn it is. */
  lemma {:induction false} TakesSlot(q: Shared, uids: seq<nat>, k: nat, i: int)
    requires Shape(q) && k < NUM_READERS
    requires q.ptrs[k] == q.w || (0 <= i < |uids| && (q.numReaders + i) % NUM_READERS == k)
    ensures Registered(q, uids).ptrs[k] == q.w
    decreases |uids|
  {
    if uids != [] {
      TakesSlot(Joins(q, uids[0]), uids[1..], k, i - 1);
    }
  }

  lemma Turn(n: nat, k: nat) returns (i: nat)
    requires k < NUM_READERS
    ensures i < NUM_READERS && (n + i) % NUM_READERS == k
  {
    i := (k - n) % NUM_READERS;
  }

  lemma SlotTaken(q: Shared, uids: seq<nat>, k: nat)
    requires Shape(q) && |uids| >= NUM_READERS && k < NUM_READERS
    ensures Registered(q, uids).ptrs[k] == q.w
  {
    var i := Turn(q.numReaders, k);
    TakesSlot(q, uids, k, i);
  }

  /** Fifteen registrations take every slot. */
  lemma TakesAll(q: Shared, uids: seq<nat>)
    requires Shape(q) && |uids| >= NUM_READERS
    ensures AllAtWriter(Registered(q, uids))
  {
    TouchesSlotsOnly(q, uids);
    forall k: nat | k < NUM_READERS {
      SlotTaken(q, uids, k);
    }
  }

  /** It takes as many arrivals as there are free slots until everybody is evicted. */
  lemma {:induction false} OustingTakes(q: Shared, rivals: seq<seq<nat>>)
    requires Shape(q)
    ensures Ousted(q, rivals).Some? ==> q.numReaders + Ousted(q, rivals).value >= NUM_READERS
    decreases |rivals|
  {
    if rivals != [] && !Full(q) {
      Counts(q, rivals[0]);
      CycledBelow(q.numReaders, |rivals[0]|);
      OustingTakes(Registered(q, rivals[0]), rivals[1..]);
    }
  }

  /** The last own eviction of the loop: it found `x` in memory, `early` had come and `late` were to come. */
  ghost predicate OustsLast(q: Shared, rivals: seq<seq<nat>>, x: Shared, early: seq<nat>, late: seq<nat>) {
    && Shape(q) && Shape(x) && Arrivals(q, rivals) == early + late && Ousted(q, rivals) == Some(|early|)
    && Raced(q, rivals) == Registered(AllClear(x), late)
    && AllClear(x) == AllClear(Registered(q, early))
  }

  lemma {:induction false} LastOusting(q: Shared, rivals: seq<seq<nat>>) returns (x: Shared, early: seq<nat>, late: seq<nat>)
    requires Shape(q) && Ousted(q, rivals).Some?
    ensures OustsLast(q, rivals, x, early, late)
    decreases |rivals|
  {
    var r, rest := Registered(q, rivals[0]), rivals[1..];
    if Full(q) && Ousted(AllClear(r), rest) == None {
      NeverOusted(AllClear(r), rest);
      x, early, late := r, rivals[0], Arrivals(AllClear(r), rest);
    } else {
      var y := if Full(q) then AllClear(r) else r;
      x, early, late := LastOusting(y, rest);
      if Full(q) {
        SameSlots(r, early);
        OustingTakes(y, rest);
      }
      RegisteredTwice(q, rivals[0], early);
      assert rivals[0] + (early + late) == (rivals[0] + early) + late;
      early := rivals[0] + early;
    }
  }

  /** After fifteen arrivals or more it makes no difference whether everybody had been evicted before. */
  lemma SameSlots(r: Shared, uids: seq<nat>)
    requires Shape(r)
    ensures |uids| >= NUM_READERS ==> AllClear(Registered(AllClear(r), uids)) == AllClear(Registered(r, uids))
  {
    TouchesSlotsOnly(r, uids);
    TouchesSlotsOnly(AllClear(r), uids);
    if |uids| >= NUM_READERS {
      TakesAll(r, uids);
      TakesAll(AllClear(r), uids);
      assert Registered(AllClear(r), uids).ptrs == Registered(r, uids).ptrs;
    }
  }

  lemma {:induction false} NeverOusted(q: Shared, rivals: seq<seq<nat>>)
    requires Shape(q) && Ousted(q, rivals) == None
    ensures Raced(q, rivals) == Registered(q, Arrivals(q, rivals))
    decreases |rivals|
  {
    if rivals != [] {
      var r := Registered(q, rivals[0]);
      if r.numReaders != q.numReaders {
        NeverOusted(r, rivals[1..]);
        RegisteredTwice(q, rivals[0], Arrivals(r, rivals[1..]));
      }
    }
  }

  /** Nobody is thrown out who would not have been: the loop never evicts, or when it last does, those that have
      come would have taken the last slot. */
  predicate OustsInTurn(q: Shared, rivals: seq<seq<nat>>)
    requires Shape(q)
  {
    var n := Ousted(q, rivals);
    n.Some? ==> (q.numReaders + n.value) % NUM_READERS == 0
  }

  lemma EvictedAnyway(x: Shared, late: seq<nat>, l: Local, uid: nat)
    requires Shape(x) && x.numReaders == NUM_READERS
    ensures InitSubscriber(Registered(AllClear(x), late), l, uid) == InitSubscriber(Registered(x, late), l, uid)
  {
  }

  lemma CountsOwn(q: Shared, uids: seq<nat>, l: Local, uid: nat)
    requires Shape(q)
    ensures InitSubscriber(Registered(q, uids), l, uid).0.numReaders == Cycled(q.numReaders, |uids| + 1)
  {
    Counts(q, uids);
    CycledStep(q.numReaders, |uids|);
  }

  lemma NotInTurn(x: Shared, t: Shared, late: seq<nat>, l: Local, uid: nat)
    requires Shape(x) && Shape(t) && 0 < t.numReaders < NUM_READERS
    ensures InitSubscriber(Registered(AllClear(x), late), l, uid) != InitSubscriber(Registered(t, late), l, uid)
  {
    CountsOwn(AllClear(x), late, l, uid);
    CountsOwn(t, late, l, uid);
    CycledApart(t.numReaders, |late|);
  }

  /** Registration with others coming in between amounts to registering in one step after all of them if and only
      if nobody was thrown out who would not have been. */
  lemma RegistersInTurnIff(q: Shared, rivals: seq<seq<nat>>, l: Local, uid: nat)
    requires Shape(q)
    ensures InitSubscriber(Raced(q, rivals), l, uid) == InitSubscriber(Registered(q, Arrivals(q, rivals)), l, uid)
       <==> OustsInTurn(q, rivals)
  {
    if Ousted(q, rivals) == None {
      NeverOusted(q, rivals);
    } else {
      var x, early, late := LastOusting(q, rivals);
      OustingTakes(q, rivals);
      RegisteredTwice(q, early, late);
      Counts(q, early);
      CycledFull(q.numReaders, |early|);
      var t := Registered(q, early);
      if t.numReaders == NUM_READERS {
        EvictedAnyway(t, late, l, uid);
      } else {
        NotInTurn(x, t, late, l, uid);
      }
    }
  }

  /** So one newcomer in the wrong moment is thrown out with the others. */
  lemma LateEvictionOustsNewcomer(q: Shared, rival: nat, l: Local, uid: nat)
    requires Shape(q) && q.numReaders == NUM_READERS && rival != uid && rival != 0
    ensures Arrivals(q, [[rival]]) == [rival]
    ensures rival !in InitSubscriber(Raced(q, [[rival]]), l, uid).0.uids
    ensures rival in InitSubscriber(Registered(q, [rival]), l, uid).0.uids
  {
    assert InitSubscriber(Registered(q, [rival]), l, uid).0.uids[0] == rival;
  }

  // ----- after a take-over -----

  /** Slots 0 to `n - 1` are those of the first `n` of `uids`, valid and at the write pointer, and no other is used. */
  predicate Seated(q: Shared, uids: seq<nat>, n: nat)
    requires Shape(q) && n <= |uids|
  {
    && q.numReaders == n <= NUM_READERS
    && (forall k: nat | k < n :: q.uids[k] == uids[k] && q.valids[k] && q.ptrs[k] == q.w)
    && forall k: nat | n <= k < NUM_READERS :: !q.valids[k] && q.uids[k] == 0
  }

  lemma {:induction false} SeatsInOrder(q: Shared, uids: seq<nat>, n: nat)
    requires Shape(q) && n <= |uids| <= 15 && Seated(q, uids, 0)
    ensures Seated(Registered(q, uids[..n]), uids, n)
    decreases n
  {
    if n > 0 {
      SeatsInOrder(q, uids, n - 1);
      assert uids[..n] == uids[..n - 1] + [uids[n - 1]];
      RegisteredTwice(q, uids[..n - 1], [uids[n - 1]]);
    }
  }

  /** A take-over leaves nobody registered: no flag is set, the readers count as not updated for there are none,
      and the next fifteen that register get the slots from 0 up, one after the other. */
  lemma TakeOverEmpties(q: Shared, l: Local, uid: nat, uids: seq<nat>, n: nat, m: Local)
    requires Shape(q) && n < |uids| <= 15
    ensures
      var r := InitPublisher(q, l, uid).0;
      && Shape(r) && r.numReaders == 0 && r.writeUid == uid && !AllReadersUpdated(r)
      && (forall k | 0 <= k < 15 :: !r.valids[k] && r.uids[k] == 0)
      && InitSubscriber(Registered(r, uids[..n]), m, uids[n]).1.readerId == n
      && Seated(Registered(r, uids), uids, |uids|)
  {
    var r := InitPublisher(q, l, uid).0;
    SeatsInOrder(r, uids, n);
    SeatsInOrder(r, uids, |uids|);
    assert uids[..|uids|] == uids;
  }
}
