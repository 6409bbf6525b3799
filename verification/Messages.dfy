/** The signals and messages of a DBC file as objects that are edited in place
    (bridge/dbc/dbc.h, bridge/dbc/dbc.cc). */
module Messages {
  import opened Words
  import opened Extraction
  import opened Masks
  import opened SignedValues
  import opened Digits

  datatype Kind = Normal | Multiplexed | Multiplexor

  const DEFAULT_NODE_NAME := "XXX"

  /** What a signal says; its links to other objects are not part of it. */
  datatype Fields = Fields(kind: Kind, name: string, place: Layout, signed: bool, factor: real, offset: real,
                           multiplexValue: int, receiver: string)

  function Receiver(name: string): string {
    if name == "" then DEFAULT_NODE_NAME else name
  }

  /** A signal without a multiplexor to link to is not multiplexed and selects nothing. */
  function Unlinked(f: Fields, hasMultiplexor: bool): Fields {
    if f.kind == Multiplexed && hasMultiplexor then f
    else f.(kind := if f.kind == Multiplexed then Normal else f.kind, multiplexValue := 0)
  }

  function Refreshed(f: Fields): Fields {
    f.(receiver := Receiver(f.receiver))
  }

  /** A signal's fields after `Msg::update`, in a message that has a multiplexor or has none. */
  function Updated(f: Fields, hasMultiplexor: bool): Fields {
    Unlinked(Refreshed(f), hasMultiplexor)
  }

  lemma StaysUpdated(f: Fields, had: bool, has: bool)
    requires Updated(f, had) == f && (had ==> has) && (!had ==> f.kind == Normal)
    ensures Updated(f, has) == f
  {
  }

  // ----- decoding -----

  datatype Option<T> = None | Some(value: T)

  function Scaled(v: int, factor: real, offset: real): real {
    v as real * factor + offset
  }

  /** The value `get_raw_value` gives. */
  function Physical(f: Fields, data: seq<byte>): real {
    Scaled(RawInt(data, f.place, f.signed), f.factor, f.offset)
  }

  /** An unsigned signal in byte `i` reads that byte, scaled and shifted. */
  lemma ByteReading(f: Fields, data: seq<byte>, i: nat)
    requires f.place == Layout(8 * i, 8, true) && !f.signed && i < |data|
    ensures Physical(f, data) == data[i] as real * f.factor + f.offset
  {
    ByteRaw(data, i);
    assert RawInt(data, f.place, f.signed) == data[i] as int;
  }

  /** The source gives this value a meaning: see `SignedValues.ShiftsDefined`. */
  predicate Meaningful(f: Fields, data: seq<byte>) {
    ShiftsDefined(RawBits(data, f.place) % TWO64, f.place.size, f.signed)
  }

  /** A signal together with the multiplexor its link leads to. */
  datatype View = View(fields: Fields, selector: Option<Fields>)

  /** The frame carries this signal: its multiplexor, if it has one, shows the signal's number. */
  predicate Carries(v: View, data: seq<byte>) {
    v.selector.Some? ==> Physical(v.selector.value, data) == v.fields.multiplexValue as real
  }

  lemma ShowsScaled(f: Fields, data: seq<byte>, v: int)
    requires RawInt(data, f.place, f.signed) == v
    ensures Physical(f, data) == v as real * f.factor + f.offset
  {
  }

  /** What a signal means: an integer of its range, written by a reference encoder into any frame that holds the signal,
      is shown as its multiple by the factor, plus the offset. */
  lemma PhysicalRoundTrip(data: seq<byte>, f: Fields, v: int) returns (d: seq<byte>)
    requires 1 <= f.place.size <= 63 && Avail(f.place, |data|) == f.place.size && InRange(v, f.place.size, f.signed)
    ensures 0 <= ToBits(v, f.place.size) && d == Encode(data, f.place, ToBits(v, f.place.size), f.place.size)
    ensures Physical(f, d) == v as real * f.factor + f.offset
  {
    SignedRoundTrip(data, f.place, f.signed, v);
    d := Encode(data, f.place, ToBits(v, f.place.size), f.place.size);
    ShowsScaled(f, d, v);
  }

  // ----- the order of signals -----

  /** `std::string`'s `<`. */
  predicate StringLess(a: string, b: string) {
    if b == "" then false
    else if a == "" then true
    else a[0] < b[0] || (a[0] == b[0] && StringLess(a[1..], b[1..]))
  }

  function Rank(k: Kind): nat {
    match k
    case Normal => 0
    case Multiplexed => 1
    case Multiplexor => 2
  }

  /** The comparison `Msg::update` sorts by: multiplexors first, normal signals last. */
  predicate Before(a: Fields, b: Fields) {
    if a.kind != b.kind then Rank(b.kind) < Rank(a.kind)
    else if a.multiplexValue != b.multiplexValue then a.multiplexValue < b.multiplexValue
    else if a.place.start != b.place.start then a.place.start < b.place.start
    else StringLess(a.name, b.name)
  }

  lemma {:induction false} StringOrder(a: string, b: string, c: string)
    ensures StringLess(a, b) ==> !StringLess(b, a)
    ensures !StringLess(b, a) && !StringLess(c, b) ==> !StringLess(c, a)
  {
    if a != "" && b != "" && c != "" {
      StringOrder(a[1..], b[1..], c[1..]);
    } else if a != "" && b != "" {
      StringOrder(a[1..], b[1..], []);
    }
  }

  lemma WeakOrder(a: Fields, b: Fields, c: Fields)
    ensures Before(a, b) ==> !Before(b, a)
    ensures !Before(b, a) && !Before(c, b) ==> !Before(c, a)
  {
    StringOrder(a.name, b.name, c.name);
  }

  /** `a` is a proper prefix of `b`, or the first character in which they differ is smaller in `a`. */
  ghost predicate Lexicographic(a: string, b: string) {
    exists k: nat :: k <= |a| && k < |b| && a[..k] == b[..k] && (k == |a| || a[k] < b[k])
  }

  lemma {:induction false} StringLessMeans(a: string, b: string)
    ensures StringLess(a, b) <==> Lexicographic(a, b)
  {
    if a == "" || b == "" {
      assert b != "" ==> a[..0] == b[..0];
    } else {
      StringLessMeans(a[1..], b[1..]);
      if k: nat :| k <= |a| && k < |b| && a[..k] == b[..k] && (k == |a| || a[k] < b[k]) {
        if k > 0 {
          LessByTails(a, b, k);
        }
      }
      if a[0] == b[0] && Lexicographic(a[1..], b[1..]) {
        var k: nat :| k <= |a[1..]| && k < |b[1..]| && a[1..][..k] == b[1..][..k] && (k == |a[1..]| || a[1..][k] < b[1..][k]);
        assert a[..k + 1] == [a[0]] + a[1..][..k] && b[..k + 1] == [b[0]] + b[1..][..k];
      } else if a[0] < b[0] {
        assert a[..0] == b[..0];
      }
    }
  }

  lemma LessByTails(a: string, b: string, k: nat)
    requires 0 < k <= |a| && k < |b| && a[..k] == b[..k] && (k == |a| || a[k] < b[k])
    ensures a[0] == b[0] && Lexicographic(a[1..], b[1..])
  {
    assert a[..k][0] == a[0] && b[..k][0] == b[0];
    assert a[1..][..k - 1] == a[..k][1..] && b[1..][..k - 1] == b[..k][1..];
    assert k - 1 <= |a[1..]| && k - 1 < |b[1..]|;
  }

  /** What the sort makes come first: a multiplexor before any other signal and a multiplexed one before a normal
      one; of a kind, by multiplex value, then start bit, then name. */
  lemma BeforeMeans(a: Fields, b: Fields)
    ensures Before(a, b) <==>
      || (a.kind == Multiplexor && b.kind != Multiplexor)
      || (a.kind == Multiplexed && b.kind == Normal)
      || (a.kind == b.kind
          && (a.multiplexValue < b.multiplexValue
              || (a.multiplexValue == b.multiplexValue
                  && (a.place.start < b.place.start || (a.place.start == b.place.start && Lexicographic(a.name, b.name))))))
  {
    StringLessMeans(a.name, b.name);
  }

  lemma {:induction false} StringTotal(a: string, b: string)
    requires a != b
    ensures StringLess(a, b) || StringLess(b, a)
  {
    if a != "" && b != "" && a[0] == b[0] {
      assert a == [a[0]] + a[1..] && b == [b[0]] + b[1..];
      StringTotal(a[1..], b[1..]);
    }
  }

  /** `f` comes after `g` by start bit, and by name at the same bit. */
  predicate Later(f: Fields, g: Fields) {
    g.place.start < f.place.start || (g.place.start == f.place.start && StringLess(g.name, f.name))
  }

  // ----- fresh names -----

  function NewName(i: nat): string {
    "NEW_SIGNAL_" + Print(i, 10)
  }

  lemma NewNamesDiffer(i: nat, j: nat)
    requires NewName(i) == NewName(j)
    ensures i == j
  {
    assert NewName(i)[11..] == Print(i, 10) && NewName(j)[11..] == Print(j, 10);
    PrintInjective(i, j, 10);
  }

  /** `n` different names need `n` signals. */
  lemma {:induction false} Pigeonhole(names: seq<string>, n: nat)
    requires forall j | 1 <= j <= n :: NewName(j) in names
    ensures n <= |names|
    decreases n
  {
    if n > 0 {
      var k :| 0 <= k < |names| && names[k] == NewName(n);
      var rest := names[..k] + names[k + 1..];
      forall j | 1 <= j <= n - 1 ensures NewName(j) in rest {
        var l :| 0 <= l < |names| && names[l] == NewName(j);
        if l == k {
          NewNamesDiffer(j, n);
        }
        assert rest[if l < k then l else l - 1] == NewName(j);
      }
      Pigeonhole(rest, n - 1);
    }
  }

  // ----- signals -----

  class Signal {
    var kind: Kind
    var name: string
    var startBit: nat
    var size: nat
    var msb: int
    var lsb: int
    var factor: real
    var offset: real
    var isSigned: bool
    var isLittleEndian: bool
    var receiverName: string
    var multiplexValue: int
    var multiplexor: Signal?

    function Place(): Layout
      reads this
    {
      Layout(startBit, size, isLittleEndian)
    }

    function Value(): Fields
      reads this
    {
      Fields(kind, name, Place(), isSigned, factor, offset, multiplexValue, receiverName)
    }

    function Seen(): View
      reads this, multiplexor
    {
      View(Value(), if multiplexor == null then None else Some(multiplexor.Value()))
    }

    /** `get_raw_value`. */
    method GetRawValue(data: seq<byte>) returns (r: real)
      requires Meaningful(Value(), data)
      ensures r == Physical(Value(), data)
    {
      var v := GetRawInt(data, Place(), isSigned);
      r := Scaled(v, factor, offset);
    }

    /** The test both getters start with. */
    method Selected(data: seq<byte>) returns (ok: bool)
      requires multiplexor != null ==> Meaningful(multiplexor.Value(), data)
      ensures ok <==> Carries(Seen(), data)
    {
      ok := true;
      if multiplexor != null {
        var shown := multiplexor.GetRawValue(data);
        ok := shown == multiplexValue as real;
      }
    }

    /** `getValue`. */
    method GetValue(data: seq<byte>) returns (ok: bool, val: real)
      requires multiplexor != null ==> Meaningful(multiplexor.Value(), data)
      requires Carries(Seen(), data) ==> Meaningful(Value(), data)
      ensures ok <==> Carries(Seen(), data)
      ensures ok ==> val == Physical(Value(), data)
    {
      ok := Selected(data);
      val := 0.0;
      if ok {
        val := GetRawValue(data);
      }
    }

    /** `getRawBits`. */
    method GetRaw(data: seq<byte>) returns (ok: bool, val: nat)
      requires multiplexor != null ==> Meaningful(multiplexor.Value(), data)
      ensures ok <==> Carries(Seen(), data)
      ensures ok ==> val == RawBits(data, Place()) % TWO64
    {
      ok := Selected(data);
      val := 0;
      if ok {
        val := GetRawBits(data, Place());
      }
    }

    predicate Placed()
      reads this
    {
      msb == Msb(Place()) && lsb == Lsb(Place())
    }

    /** A new signal with the given fields, not yet updated. */
    constructor (f: Fields)
      ensures Value() == f && multiplexor == null
    {
      kind, name, startBit, size, isLittleEndian := f.kind, f.name, f.place.start, f.place.size, f.place.littleEndian;
      factor, offset, isSigned := f.factor, f.offset, f.signed;
      receiverName, multiplexValue, multiplexor := f.receiver, f.multiplexValue, null;
      msb, lsb := 0, 0;
    }

    /** The copy constructor; it copies the link as well. */
    constructor Copy(other: Signal)
      ensures Value() == other.Value() && multiplexor == other.multiplexor
    {
      kind, name, startBit, size, isLittleEndian := other.kind, other.name, other.startBit, other.size, other.isLittleEndian;
      factor, offset, isSigned := other.factor, other.offset, other.isSigned;
      receiverName, multiplexValue, multiplexor := other.receiverName, other.multiplexValue, other.multiplexor;
      msb, lsb := other.msb, other.lsb;
    }

    /** Assignment from another signal. */
    method Assign(other: Signal)
      modifies this
      ensures Value() == old(other.Value()) && multiplexor == old(other.multiplexor)
    {
      var f, link, ends := other.Value(), other.multiplexor, (other.msb, other.lsb);
      kind, name, startBit, size, isLittleEndian := f.kind, f.name, f.place.start, f.place.size, f.place.littleEndian;
      factor, offset, isSigned := f.factor, f.offset, f.signed;
      receiverName, multiplexValue, multiplexor := f.receiver, f.multiplexValue, link;
      msb, lsb := ends.0, ends.1;
    }

    /** `Signal::update`. */
    method Refresh()
      modifies this`msb, this`lsb, this`receiverName
      ensures Placed() && Value() == Refreshed(old(Value()))
    {
      msb, lsb := Msb(Place()), Lsb(Place());
      if receiverName == "" {
        receiverName := DEFAULT_NODE_NAME;
      }
    }

    /** The second loop of `Msg::update`, for one signal. */
    method Link(m: Signal?)
      modifies this`multiplexor, this`kind, this`multiplexValue
      ensures multiplexor == if old(kind) == Multiplexed then m else null
      ensures Value() == Unlinked(old(Value()), m != null)
    {
      multiplexor := if kind == Multiplexed then m else null;
      if multiplexor == null {
        if kind == Multiplexed {
          kind := Normal;
        }
        multiplexValue := 0;
      }
    }
  }

  ghost predicate Distinct(sigs: seq<Signal>) {
    forall i, j | 0 <= i < j < |sigs| :: sigs[i] != sigs[j]
  }

  function Values(sigs: seq<Signal>): (vs: seq<Fields>)
    reads sigs
    ensures |vs| == |sigs| && forall i | 0 <= i < |vs| :: vs[i] == sigs[i].Value()
  {
    seq(|sigs|, i requires 0 <= i < |sigs| reads sigs => sigs[i].Value())
  }

  function Layouts(vs: seq<Fields>): (ls: seq<Layout>)
    ensures |ls| == |vs| && forall i | 0 <= i < |ls| :: ls[i] == vs[i].place
  {
    seq(|vs|, i requires 0 <= i < |vs| => vs[i].place)
  }

  ghost predicate InOrder(vs: seq<Fields>) {
    forall i, j | 0 <= i < j < |vs| :: !Before(vs[j], vs[i])
  }

  lemma {:induction false} DistinctOnce(a: seq<Signal>, x: Signal)
    requires Distinct(a)
    ensures multiset(a)[x] <= 1
  {
    if a != [] {
      var n := |a| - 1;
      assert a == a[..n] + [a[n]];
      DistinctOnce(a[..n], x);
    }
  }

  lemma PermutationKeepsDistinct(a: seq<Signal>, b: seq<Signal>)
    requires Distinct(a) && multiset(a) == multiset(b)
    ensures Distinct(b)
  {
    forall i, j | 0 <= i < j < |b| ensures b[i] != b[j] {
      DistinctOnce(a, b[j]);
      assert b == b[..j] + [b[j]] + b[j + 1..];
      assert b[j] !in multiset(b[..j]);
      assert b[i] in b[..j];
    }
  }

  ghost function Members(sigs: seq<Signal>): set<Signal> {
    set s | s in sigs
  }

  lemma SameMembers(a: seq<Signal>, b: seq<Signal>)
    requires multiset(a) == multiset(b)
    ensures Members(a) == Members(b)
  {
    forall s | s in a || s in b ensures s in a && s in b {
      assert s in multiset(a) && s in multiset(b);
    }
  }

  lemma Without(sigs: seq<Signal>, i: nat)
    requires Distinct(sigs) && i < |sigs|
    ensures Distinct(sigs[..i] + sigs[i + 1..])
    ensures Members(sigs[..i] + sigs[i + 1..]) == Members(sigs) - {sigs[i]}
  {
  }

  lemma InsertKeepsOrder(vs: seq<Fields>, f: Fields, p: nat)
    requires InOrder(vs) && p <= |vs|
    requires forall k | 0 <= k < p :: !Before(f, vs[k])
    requires p < |vs| ==> Before(f, vs[p])
    ensures InOrder(vs[..p] + [f] + vs[p..])
  {
    var r := vs[..p] + [f] + vs[p..];
    forall i, j | 0 <= i < j < |r| ensures !Before(r[j], r[i]) {
      if i == p {
        WeakOrder(f, vs[p], vs[j - 1]);
      }
    }
  }

  /** The place of a signal with fields `f` among ordered ones. */
  method FindPlace(sigs: seq<Signal>, f: Fields) returns (p: nat)
    ensures p <= |sigs| && forall k | 0 <= k < p :: !Before(f, Values(sigs)[k])
    ensures p < |sigs| ==> Before(f, Values(sigs)[p])
  {
    p := 0;
    while p < |sigs| && !Before(f, sigs[p].Value())
      invariant p <= |sigs| && forall k | 0 <= k < p :: !Before(f, Values(sigs)[k])
    {
      p := p + 1;
    }
  }

  lemma InsertedValues(sigs: seq<Signal>, s: Signal, p: nat)
    requires InOrder(Values(sigs)) && p <= |sigs|
    requires forall k | 0 <= k < p :: !Before(s.Value(), Values(sigs)[k])
    requires p < |sigs| ==> Before(s.Value(), Values(sigs)[p])
    ensures InOrder(Values(sigs[..p] + [s] + sigs[p..]))
  {
    var vs, f := Values(sigs), s.Value();
    InsertKeepsOrder(vs, f, p);
    assert Values(sigs[..p] + [s] + sigs[p..]) == vs[..p] + [f] + vs[p..];
  }

  /** `s` put into the ordered `sigs` before the first signal that must follow it. */
  method InsertInOrder(sigs: seq<Signal>, s: Signal) returns (r: seq<Signal>)
    requires InOrder(Values(sigs))
    ensures multiset(r) == multiset(sigs) + multiset{s} && InOrder(Values(r))
  {
    var p := FindPlace(sigs, s.Value());
    r := sigs[..p] + [s] + sigs[p..];
    assert sigs == sigs[..p] + sigs[p..];
    InsertedValues(sigs, s, p);
  }

  /** `std::sort` over the signals; how it orders signals with equal keys is not used. */
  method Sort(sigs: seq<Signal>) returns (r: seq<Signal>)
    ensures multiset(r) == multiset(sigs) && InOrder(Values(r))
  {
    r := [];
    for n := 0 to |sigs|
      invariant multiset(r) == multiset(sigs[..n]) && InOrder(Values(r))
    {
      assert sigs[..n + 1] == sigs[..n] + [sigs[n]];
      r := InsertInOrder(r, sigs[n]);
    }
    assert sigs[..|sigs|] == sigs;
  }

  method Copies(sigs: seq<Signal>) returns (r: seq<Signal>)
    ensures |r| == |sigs| && Distinct(r)
    ensures forall k | 0 <= k < |r| :: fresh(r[k]) && r[k].Value() == sigs[k].Value()
  {
    r := [];
    for k := 0 to |sigs|
      invariant |r| == k && Distinct(r)
      invariant forall j | 0 <= j < k :: fresh(r[j]) && r[j].Value() == sigs[j].Value()
    {
      var s := new Signal.Copy(sigs[k]);
      r := r + [s];
    }
  }

  /** The signal the traversal settles on is the last multiplexor; `last` is -1 if there is none. */
  ghost predicate LastMultiplexor(vs: seq<Fields>, n: nat, last: int)
    requires n <= |vs|
  {
    && -1 <= last < n
    && (last >= 0 ==> vs[last].kind == Multiplexor)
    && forall k | last < k < n :: vs[k].kind != Multiplexor
  }

  class Msg {
    var address: nat
    var name: string
    var size: nat
    var transmitter: string
    var sigs: seq<Signal>
    var mask: seq<byte>
    var multiplexor: Signal?

    /** Each signal's link is set exactly when the signal is multiplexed, and then leads to a
        multiplexor this message owns. */
    ghost predicate Linked()
      reads this, sigs
    {
      && Distinct(sigs)
      && (multiplexor != null ==> multiplexor in sigs && multiplexor.kind == Multiplexor)
      && (multiplexor == null ==> forall s | s in sigs :: s.kind == Normal)
      && forall s | s in sigs :: s.multiplexor == if s.kind == Multiplexed then multiplexor else null
    }

    /** What `update` establishes. */
    ghost predicate Valid()
      reads this, sigs
    {
      && Linked()
      && (forall s | s in sigs :: s.Placed() && Updated(s.Value(), multiplexor != null) == s.Value())
      && |mask| == size && IsMaskOf(mask, Layouts(Values(sigs)))
      && transmitter != ""
    }

    /** One round of the first loop of `update`. */
    method Visit(sig: Signal, ghost places: seq<Layout>, ghost next: seq<Layout>)
      requires IsMaskOf(mask, places) && next == places + [sig.Place()]
      modifies this`mask, this`multiplexor, sig`msb, sig`lsb, sig`receiverName
      ensures sig.Placed() && sig.Value() == Refreshed(old(sig.Value()))
      ensures |mask| == old(|mask|) && IsMaskOf(mask, next)
      ensures multiplexor == if sig.kind == Multiplexor then sig else old(multiplexor)
    {
      if sig.kind == Multiplexor {
        multiplexor := sig;
      }
      sig.Refresh();
      mask := MarkNext(mask, sig.Place(), places, next);
    }

    /** The state of the first loop before signal `n`. */
    ghost predicate Visited(was: seq<Fields>, places: seq<Layout>, n: nat, last: int)
      reads this, sigs
    {
      && |places| == n <= |was| == |sigs| && LastMultiplexor(was, n, last)
      && multiplexor == (if last < 0 then null else sigs[last])
      && |mask| == size && IsMaskOf(mask, places)
      && (forall k | 0 <= k < n :: places[k] == was[k].place)
      && (forall k | 0 <= k < n :: sigs[k].Placed() && sigs[k].Value() == Refreshed(was[k]))
      && (forall k | n <= k < |sigs| :: sigs[k].Value() == was[k])
    }

    method VisitNext(n: nat, ghost was: seq<Fields>, ghost places: seq<Layout>, ghost last: int)
      returns (ghost next: seq<Layout>, ghost now: int)
      requires Distinct(sigs) && n < |sigs| && Visited(was, places, n, last)
      modifies this`mask, this`multiplexor, sigs`msb, sigs`lsb, sigs`receiverName
      ensures Visited(was, next, n + 1, now)
    {
      next := places + [was[n].place];
      now := if was[n].kind == Multiplexor then n else last;
      Visit(sigs[n], places, next);
    }

    /** The first loop of `update`. */
    method Traverse() returns (ghost last: int)
      requires Distinct(sigs)
      modifies this`mask, this`multiplexor, sigs`msb, sigs`lsb, sigs`receiverName
      ensures forall k | 0 <= k < |sigs| :: sigs[k].Placed() && sigs[k].Value() == Refreshed(old(Values(sigs))[k])
      ensures |mask| == size && IsMaskOf(mask, Layouts(old(Values(sigs))))
      ensures LastMultiplexor(old(Values(sigs)), |sigs|, last)
      ensures multiplexor == if last < 0 then null else sigs[last]
    {
      ghost var was := Values(sigs);
      ghost var places: seq<Layout> := [];
      mask, multiplexor := seq(size, _ => 0), null;
      last := -1;
      BlankIsMask(size);
      for n := 0 to |sigs|
        invariant Visited(was, places, n, last)
      {
        places, last := VisitNext(n, was, places, last);
      }
      assert places == Layouts(was);
    }

    /** The second loop of `update`. */
    method LinkAll()
      requires Distinct(sigs)
      modifies sigs`multiplexor, sigs`kind, sigs`multiplexValue
      ensures forall k | 0 <= k < |sigs| ::
                sigs[k].multiplexor == if old(sigs[k].kind) == Multiplexed then multiplexor else null
      ensures forall k | 0 <= k < |sigs| ::
                sigs[k].Value() == Unlinked(old(sigs[k].Value()), multiplexor != null)
    {
      for n := 0 to |sigs|
        invariant forall k | 0 <= k < n ::
                    sigs[k].multiplexor == if old(sigs[k].kind) == Multiplexed then multiplexor else null
        invariant forall k | 0 <= k < n :: sigs[k].Value() == Unlinked(old(sigs[k].Value()), multiplexor != null)
        invariant forall k | n <= k < |sigs| :: sigs[k].Value() == old(sigs[k].Value())
      {
        sigs[n].Link(multiplexor);
      }
    }

    /** What the two loops make of signals that said `was`. */
    ghost predicate Rebuilt(was: seq<Fields>, last: int)
      reads this, sigs
    {
      && |was| == |sigs| && LastMultiplexor(was, |was|, last)
      && multiplexor == (if last < 0 then null else sigs[last])
      && forall k | 0 <= k < |sigs| ::
           && sigs[k].Value() == Updated(was[k], multiplexor != null)
           && sigs[k].multiplexor == if was[k].kind == Multiplexed then multiplexor else null
    }

    lemma RebuiltIsLinked(was: seq<Fields>, last: int)
      requires Distinct(sigs) && Rebuilt(was, last)
      ensures Linked()
    {
    }

    lemma RebuiltIsUpdated(was: seq<Fields>, last: int)
      requires Rebuilt(was, last)
      ensures forall s | s in sigs :: Updated(s.Value(), multiplexor != null) == s.Value()
      ensures Layouts(Values(sigs)) == Layouts(was)
    {
    }

    lemma RebuiltIsValid(was: seq<Fields>, last: int)
      requires Distinct(sigs) && Rebuilt(was, last) && transmitter != ""
      requires |mask| == size && IsMaskOf(mask, Layouts(was)) && forall s | s in sigs :: s.Placed()
      ensures Valid()
    {
      RebuiltIsLinked(was, last);
      RebuiltIsUpdated(was, last);
    }

    /** The chosen multiplexor comes last in the order. */
    lemma RebuiltChoosesLast(was: seq<Fields>, last: int)
      requires Rebuilt(was, last) && InOrder(was)
      ensures multiplexor == null <==> forall k | 0 <= k < |was| :: was[k].kind != Multiplexor
      ensures last >= 0 ==> forall k | 0 <= k < |was| && was[k].kind == Multiplexor :: !Before(was[last], was[k])
    {
      if last >= 0 {
        WeakOrder(was[last], was[last], was[last]);
      }
    }

    /** Both loops. */
    method Rebuild() returns (ghost last: int)
      requires Distinct(sigs)
      modifies this`mask, this`multiplexor, sigs
      ensures Rebuilt(old(Values(sigs)), last)
      ensures |mask| == size && IsMaskOf(mask, Layouts(old(Values(sigs))))
      ensures forall s | s in sigs :: s.Placed()
    {
      last := Traverse();
      LinkAll();
    }

    /** The part of `update` before the loops. */
    method Arrange()
      requires Distinct(sigs)
      modifies this`sigs, this`transmitter
      ensures multiset(sigs) == multiset(old(sigs)) && Members(sigs) == Members(old(sigs))
      ensures Distinct(sigs) && InOrder(Values(sigs)) && transmitter == Receiver(old(transmitter))
      ensures
        var now := sigs;
        forall k | 0 <= k < |now| :: now[k] in old(Members(sigs)) && Values(now)[k] == old(now[k].Value())
    {
      if transmitter == "" {
        transmitter := DEFAULT_NODE_NAME;
      }
      var order := Sort(sigs);
      PermutationKeepsDistinct(sigs, order);
      SameMembers(sigs, order);
      sigs := order;
      forall k | 0 <= k < |order| ensures order[k] in old(Members(sigs)) {
        assert order[k] in Members(order);
      }
    }

    /** `update`: `was` is what the signals said before, in their new order. */
    method Rearrange() returns (ghost was: seq<Fields>, ghost last: int)
      requires Distinct(sigs)
      modifies this`sigs, this`mask, this`multiplexor, this`transmitter, Members(sigs)
      ensures Valid() && Rebuilt(was, last) && InOrder(was)
      ensures multiset(sigs) == multiset(old(sigs)) && Members(sigs) == old(Members(sigs))
      ensures transmitter == Receiver(old(transmitter))
      ensures
        var now := sigs;
        forall k | 0 <= k < |now| :: now[k] in old(Members(sigs)) && was[k] == old(now[k].Value())
    {
      Arrange();
      was := Values(sigs);
      last := Rebuild();
      RebuiltIsValid(was, last);
    }

    /** `update`, of each signal. Whatever the signals' links and marks were, all of them are rebuilt; every
        signal keeps what it says, except that without a multiplexor nothing is multiplexed. */
    method Update()
      requires Distinct(sigs)
      modifies this`sigs, this`mask, this`multiplexor, this`transmitter, Members(sigs)
      ensures Valid()
      ensures multiset(sigs) == multiset(old(sigs)) && Members(sigs) == old(Members(sigs))
      ensures transmitter == Receiver(old(transmitter))
      ensures forall s | s in old(Members(sigs)) :: s.Value() == Updated(old(s.Value()), multiplexor != null)
      ensures multiplexor == null <==> forall s | s in old(Members(sigs)) :: old(s.kind) != Multiplexor
      ensures
        var m := multiplexor;
        m != null ==> m in old(Members(sigs)) && forall s | s in old(Members(sigs)) && old(s.kind) == Multiplexor ::
          !Before(old(m.Value()), old(s.Value()))
    {
      ghost var was, last := Rearrange();
      RebuiltChoosesLast(was, last);
      forall s | s in old(Members(sigs)) ensures s.Value() == Updated(old(s.Value()), multiplexor != null) {
        assert s in Members(sigs);
      }
    }

    method IndexOf(sigName: string) returns (i: nat)
      ensures i <= |sigs| && (forall j | 0 <= j < i :: sigs[j].name != sigName)
      ensures i < |sigs| ==> sigs[i].name == sigName
    {
      i := 0;
      while i < |sigs| && sigs[i].name != sigName
        invariant i <= |sigs| && forall j | 0 <= j < i :: sigs[j].name != sigName
      {
        i := i + 1;
      }
    }

    /** `s` is the first signal of that name, or null if there is none. */
    ghost predicate IsFirst(sigName: string, s: Signal?)
      reads this, sigs
    {
      if s == null then forall t | t in sigs :: t.name != sigName
      else exists i: nat :: i < |sigs| && sigs[i] == s && s.name == sigName && forall j | 0 <= j < i :: sigs[j].name != sigName
    }

    /** `sig`. */
    method Find(sigName: string) returns (s: Signal?)
      ensures IsFirst(sigName, s) && (s != null ==> s in sigs)
    {
      var i := IndexOf(sigName);
      s := if i < |sigs| then sigs[i] else null;
    }

    ghost function Names(): (names: seq<string>)
      reads this, sigs
      ensures |names| == |sigs| && forall i | 0 <= i < |names| :: names[i] == sigs[i].name
    {
      seq(|sigs|, i requires 0 <= i < |sigs| reads this, sigs => sigs[i].name)
    }

    /** `newSignalName`: the loop, which has no bound of its own, ends after at most one round more than
        there are signals, with the first of the numbered names that no signal has. */
    method NewSignalName() returns (newName: string, ghost i: nat)
      ensures 1 <= i <= |sigs| + 1 && newName == "NEW_SIGNAL_" + Print(i, 10)
      ensures forall s | s in sigs :: s.name != newName
      ensures forall j | 1 <= j < i :: NewName(j) in Names()
    {
      var n := 1;
      while true
        invariant 1 <= n <= |sigs| + 1 && forall j | 1 <= j < n :: NewName(j) in Names()
        decreases |sigs| + 1 - n
      {
        newName := NewName(n);
        var s := Find(newName);
        if s == null {
          return newName, n;
        }
        assert NewName(n) in Names();
        Pigeonhole(Names(), n);
        n := n + 1;
      }
    }

    /** `addSignal`, on a message that need not have been updated before. */
    method AddSignal(sig: Signal) returns (s: Signal)
      requires Distinct(sigs)
      modifies this`sigs, this`mask, this`multiplexor, this`transmitter, Members(sigs)
      ensures Valid() && fresh(s) && Members(sigs) == old(Members(sigs)) + {s}
      ensures s.Value() == Updated(old(sig.Value()), multiplexor != null)
      ensures forall t | t in old(Members(sigs)) :: t.Value() == Updated(old(t.Value()), multiplexor != null)
      ensures multiplexor == null <==>
                old(sig.kind) != Multiplexor && forall t | t in old(Members(sigs)) :: old(t.kind) != Multiplexor
      ensures old(Valid()) ==> forall t | t in old(Members(sigs)) :: t.Value() == old(t.Value())
    {
      s := new Signal.Copy(sig);
      Adopt(s);
    }

    /** The rest of `addSignal`, for a signal the message does not have yet. */
    method Adopt(s: Signal)
      requires Distinct(sigs) && s !in sigs
      modifies this`sigs, this`mask, this`multiplexor, this`transmitter, s, Members(sigs)
      ensures Valid() && Members(sigs) == old(Members(sigs)) + {s}
      ensures s.Value() == Updated(old(s.Value()), multiplexor != null)
      ensures forall t | t in old(Members(sigs)) :: t.Value() == Updated(old(t.Value()), multiplexor != null)
      ensures multiplexor == null <==>
                old(s.kind) != Multiplexor && forall t | t in old(Members(sigs)) :: old(t.kind) != Multiplexor
      ensures old(Valid()) ==> forall t | t in old(Members(sigs)) :: t.Value() == old(t.Value())
    {
      ghost var had, before := multiplexor != null, Members(sigs);
      sigs := sigs + [s];
      assert Members(sigs) == before + {s};
      Update();
      if old(Valid()) {
        forall t | t in before ensures t.Value() == old(t.Value()) {
          StaysUpdated(old(t.Value()), had, multiplexor != null);
        }
      }
    }

    /** `updateSignal`: the named signal takes everything from `newSig`, even a link to another message's
        multiplexor, and `update` mends it. */
    method UpdateSignal(sigName: string, newSig: Signal) returns (s: Signal?)
      requires Distinct(sigs)
      modifies this`sigs, this`mask, this`multiplexor, this`transmitter, Members(sigs)
      ensures Distinct(sigs) && Members(sigs) == old(Members(sigs))
      ensures s != null ==> s in old(Members(sigs))
      ensures old(IsFirst(sigName, s))
      ensures s == null ==> unchanged(this) && unchanged(Members(sigs))
      ensures s != null ==> Valid() && forall t | t in old(Members(sigs)) ::
                t.Value() == Updated(if t == s then old(newSig.Value()) else old(t.Value()), multiplexor != null)
    {
      s := Find(sigName);
      if s != null {
        assert s in Members(sigs);
        s.Assign(newSig);
        Update();
      }
    }

    /** `removeSignal`: nothing is left that leads to the removed signal. */
    method RemoveSignal(sigName: string) returns (ghost gone: Signal?)
      requires Distinct(sigs)
      modifies this`sigs, this`mask, this`multiplexor, this`transmitter, Members(sigs)
      ensures Distinct(sigs)
      ensures gone != null ==> gone in old(Members(sigs))
      ensures old(IsFirst(sigName, gone))
      ensures gone == null ==> unchanged(this) && unchanged(Members(sigs))
      ensures gone != null ==> Valid() && Members(sigs) == old(Members(sigs)) - {gone} && multiplexor != gone
      ensures gone != null ==> forall t | t in sigs ::
                t in old(Members(sigs)) && t.Value() == Updated(old(t.Value()), multiplexor != null) && t.multiplexor != gone
    {
      var i := IndexOf(sigName);
      if i == |sigs| {
        return null;
      }
      gone := sigs[i];
      Without(sigs, i);
      sigs := sigs[..i] + sigs[i + 1..];
      assert forall t | t in sigs :: t in Members(sigs);
      Update();
    }

    /** A message as a BO line makes it. */
    constructor (address: nat, name: string, size: nat, transmitter: string)
      ensures this.address == address && this.name == name && this.size == size && this.transmitter == transmitter
      ensures sigs == []
    {
      this.address, this.name, this.size, this.transmitter := address, name, size, transmitter;
      sigs, mask, multiplexor := [], [], null;
    }

    /** `operator=`. The copy owns its signals, so its links lead nowhere else; assigning a message to
        itself loses every signal. `copies` are the new signals in the order of the other message's. */
    method CopyFrom(other: Msg) returns (copies: seq<Signal>)
      modifies this
      ensures Valid() && fresh(Members(sigs)) && Members(sigs) == Members(copies) && Distinct(copies)
      ensures address == old(other.address) && name == old(other.name) && size == old(other.size)
      ensures transmitter == Receiver(old(other.transmitter))
      ensures |copies| == if other == this then 0 else |other.sigs|
      ensures other != this ==> forall k | 0 <= k < |copies| ::
                copies[k].Value() == Updated(old(other.sigs[k].Value()), multiplexor != null)
      ensures other != this ==> (multiplexor == null <==> forall s | s in other.sigs :: s.kind != Multiplexor)
    {
      address, name, size, transmitter := other.address, other.name, other.size, other.transmitter;
      sigs := [];
      copies := Copies(other.sigs);
      Replace(copies);
    }

    /** The end of `operator=`: the copies become the message's signals. */
    method Replace(copies: seq<Signal>)
      requires Distinct(copies)
      modifies this`sigs, this`mask, this`multiplexor, this`transmitter, Members(copies)
      ensures Valid() && Members(sigs) == Members(copies) && transmitter == Receiver(old(transmitter))
      ensures forall k | 0 <= k < |copies| :: copies[k].Value() == Updated(old(copies[k].Value()), multiplexor != null)
      ensures multiplexor == null <==> forall s | s in copies :: old(s.kind) != Multiplexor
    {
      sigs := copies;
      Update();
    }
  }

  /** Different multiplexors have different names. */
  ghost predicate NamedApart(sigs: seq<Signal>)
    reads sigs
  {
    forall s, t | s in Members(sigs) && t in Members(sigs) && s != t && s.kind == Multiplexor && t.kind == Multiplexor ::
      s.name != t.name
  }

  /** From the second time on `update` goes by start bit and name. */
  method UpdateAgain(m: Msg) returns (chosen: Signal?)
    requires Distinct(m.sigs) && forall s | s in Members(m.sigs) && s.kind == Multiplexor :: s.multiplexValue == 0
    modifies m, Members(m.sigs)
    ensures m.Valid() && m.multiplexor == chosen
    ensures chosen == null <==> forall s | s in old(Members(m.sigs)) :: old(s.kind) != Multiplexor
    ensures chosen != null ==>
      chosen in old(Members(m.sigs)) && old(chosen.kind) == Multiplexor
      && forall s | s in old(Members(m.sigs)) && old(s.kind) == Multiplexor :: !Later(old(s.Value()), old(chosen.Value()))
  {
    m.Update();
    chosen := m.multiplexor;
  }

  /** Why a message should have one multiplexor: updating twice is not updating once. The second `update`, as
      after any edit, chooses the last multiplexor by start bit and name, and so another one than the
      first if and only if some multiplexor comes after that one by start bit and name. */
  method UpdateTwice(m: Msg) returns (first: Signal?, second: Signal?)
    requires Distinct(m.sigs) && NamedApart(m.sigs)
    modifies m, Members(m.sigs)
    ensures m.Valid() && m.multiplexor == second
    ensures first == null <==> forall s | s in old(Members(m.sigs)) :: old(s.kind) != Multiplexor
    ensures first == null <==> second == null
    ensures first != null ==>
      first in old(Members(m.sigs)) && forall s | s in old(Members(m.sigs)) && old(s.kind) == Multiplexor ::
        !Before(old(first.Value()), old(s.Value()))
    ensures second != null ==>
      second in old(Members(m.sigs)) && forall s | s in old(Members(m.sigs)) && old(s.kind) == Multiplexor ::
        !Later(old(s.Value()), old(second.Value()))
    ensures first != null ==>
      (second != first <==> exists s :: s in old(Members(m.sigs)) && old(s.kind) == Multiplexor
                                     && Later(old(s.Value()), old(first.Value())))
  {
    m.Update();
    first := m.multiplexor;
    second := UpdateAgain(m);
    if second != first {
      StringTotal(old(first.name), old(second.name));
    }
  }

  method UpdateTwo(m: Msg, f: Signal, g: Signal) returns (first: Signal?, second: Signal?)
    requires m.sigs == [f, g] && f != g && f.name != g.name && f.kind == Multiplexor && g.kind == Multiplexor
    requires Before(f.Value(), g.Value()) && Later(f.Value(), g.Value())
    modifies m, f, g
    ensures first == g && second == f
  {
    assert Members(m.sigs) == {f, g};
    first, second := UpdateTwice(m);
  }

  /** An input: multiplexors at bits 8 and 0, with multiplex values 0 and 1. */
  method ChoiceMovesHere() returns (f: Signal, g: Signal, first: Signal?, second: Signal?)
    ensures first == g && second == f && f != g
  {
    f := new Signal(Fields(Multiplexor, "B", Layout(8, 8, true), false, 1.0, 0.0, 0, ""));
    g := new Signal(Fields(Multiplexor, "A", Layout(0, 8, true), false, 1.0, 0.0, 1, ""));
    var m := new Msg(100, "M", 8, "");
    m.sigs := [f, g];
    first, second := UpdateTwo(m, f, g);
  }

  /** What can be asked of a message after it was parsed. */
  datatype Edit = Add(sig: Signal) | Change(name: string, sig: Signal) | Remove(name: string) | Copy(from: Msg)

  /** Any sequence of edits, whatever signals they bring and wherever those signals' links lead, leaves a
      message whose links are its own. */
  method ApplyEdits(m: Msg, edits: seq<Edit>)
    requires m.Valid()
    modifies m, Members(m.sigs)
    ensures m.Valid() && fresh(Members(m.sigs) - old(Members(m.sigs)))
  {
    for n := 0 to |edits|
      invariant m.Valid() && fresh(Members(m.sigs) - old(Members(m.sigs)))
    {
      match edits[n]
      case Add(sig) =>
        var _ := m.AddSignal(sig);
      case Change(name, sig) =>
        var _ := m.UpdateSignal(name, sig);
      case Remove(name) =>
        var _ := m.RemoveSignal(name);
      case Copy(from) =>
        var _ := m.CopyFrom(from);
    }
  }
}
