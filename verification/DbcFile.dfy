/** Reading a DBC file (bridge/dbc/dbcfile.cc): the state machine over lines that the regular
    expressions have already taken apart. */
module DbcFile {
  import opened Messages
  import opened Extraction

  /** The word after a signal's name: none, `M`, or anything else, whose number follows its first letter. */
  datatype Indicator = Plain | Switch | Numbered(value: Option<int>)

  datatype Numbers = Numbers(place: Layout, signed: bool, factor: real, offset: real)

  /** A trimmed line. A number that the library cannot convert is `None`. */
  datatype Line =
    | BO(address: Option<nat>, name: string, size: Option<nat>, transmitter: string)
    | BadBO
    | SG(name: string, indicator: Indicator, numbers: Option<Numbers>, receiver: string)
    | BadSG
    | Other

  datatype Error = DuplicateAddress | NoMessage | InvalidSG | DuplicateSignal | MultipleMultiplexor | BadNumber

  datatype Outcome = Parsed | Failed(line: nat, error: Error)

  /** `std::stoul` gives 64 bits; the field has 32. */
  function Truncated(n: nat): nat {
    n % 0x1_0000_0000
  }

  predicate Opens(l: Line) {
    l.BO? || l.BadBO?
  }

  /** The BO line before line `i`, readable or not; -1 if there is none. */
  function Governor(lines: seq<Line>, i: nat): (g: int)
    requires i <= |lines|
    ensures -1 <= g < i && (g >= 0 ==> Opens(lines[g]))
  {
    if i == 0 then -1 else if Opens(lines[i - 1]) then i - 1 else Governor(lines, i - 1)
  }

  /** Line `i` comes after a readable BO line and belongs to its message. */
  predicate InMessage(lines: seq<Line>, i: nat)
    requires i <= |lines|
  {
    Governor(lines, i) >= 0 && lines[Governor(lines, i)].BO?
  }

  /** The signal an SG line describes. */
  function SignalOf(l: Line): Fields
    requires l.SG? && l.numbers.Some? && (l.indicator.Numbered? ==> l.indicator.value.Some?)
  {
    var n := l.numbers.value;
    Fields(match l.indicator { case Plain => Normal case Switch => Multiplexor case Numbered(_) => Multiplexed },
           l.name, n.place, n.signed, n.factor, n.offset,
           if l.indicator.Numbered? then l.indicator.value.value else 0, l.receiver)
  }

  predicate Readable(l: Line) {
    l.SG? && l.numbers.Some? && (l.indicator.Numbered? ==> l.indicator.value.Some?)
  }

  /** The signals that lines up to `n` give the message of BO line `j`. */
  function SignalsOf(lines: seq<Line>, j: nat, n: nat): seq<Fields>
    requires n <= |lines|
  {
    if n <= j + 1 then []
    else
      var before := SignalsOf(lines, j, n - 1);
      if Readable(lines[n - 1]) && Governor(lines, n - 1) == j then before + [SignalOf(lines[n - 1])] else before
  }

  predicate NameIn(fs: seq<Fields>, name: string) {
    exists k :: 0 <= k < |fs| && fs[k].name == name
  }

  predicate SwitchIn(fs: seq<Fields>) {
    exists k :: 0 <= k < |fs| && fs[k].kind == Multiplexor
  }

  predicate AddressSeen(lines: seq<Line>, i: nat, address: nat)
    requires i <= |lines|
  {
    exists j :: 0 <= j < i && lines[j].BO? && lines[j].address.Some? && Truncated(lines[j].address.value) == address
  }

  /** What is wrong with line `i`, given the lines before it. */
  function Fault(lines: seq<Line>, i: nat): Option<Error>
    requires i < |lines|
  {
    match lines[i]
    case BO(address, _, size, _) =>
      if address.None? then Some(BadNumber)
      else if AddressSeen(lines, i, Truncated(address.value)) then Some(DuplicateAddress)
      else if size.None? then Some(BadNumber)
      else None
    case SG(name, indicator, numbers, _) =>
      if !InMessage(lines, i) then Some(NoMessage)
      else
        var before := SignalsOf(lines, Governor(lines, i), i);
        if NameIn(before, name) then Some(DuplicateSignal)
        else if indicator.Switch? && SwitchIn(before) then Some(MultipleMultiplexor)
        else if Readable(lines[i]) then None
        else Some(BadNumber)
    case BadSG => Some(if InMessage(lines, i) then InvalidSG else NoMessage)
    case _ => None
  }

  /** The BO line `j` is where the message at `address` begins. */
  predicate Begins(lines: seq<Line>, j: nat, address: nat) {
    && j < |lines| && lines[j].BO? && lines[j].address.Some? && lines[j].size.Some?
    && Truncated(lines[j].address.value) == address
  }

  /** What lines have said of a message so far: where it began, and its signals in the order read. */
  datatype Text = Text(line: nat, name: string, size: nat, fields: seq<Fields>)

  /** `said` is what lines up to `n` say. */
  ghost predicate Tells(lines: seq<Line>, n: nat, said: map<nat, Text>)
    requires n <= |lines|
  {
    && (forall a | a in said :: TextAt(lines, n, a, said[a]))
    && forall j | 0 <= j < n && lines[j].BO? :: exists a :: a in said && said[a].line == j
  }

  predicate TextAt(lines: seq<Line>, n: nat, a: nat, t: Text)
    requires n <= |lines|
  {
    && t.line < n && Begins(lines, t.line, a)
    && t.name == lines[t.line].name && t.size == Truncated(lines[t.line].size.value)
    && t.fields == SignalsOf(lines, t.line, n)
  }

  /** The message being read, and how many multiplexors it has. */
  ghost predicate Reading(lines: seq<Line>, n: nat, said: map<nat, Text>, at: Option<nat>, switches: nat)
    requires n <= |lines|
  {
    && (at == None <==> !InMessage(lines, n))
    && (at.Some? ==> at.value in said && said[at.value].line == Governor(lines, n))
    && (at.Some? ==> switches == if SwitchIn(said[at.value].fields) then 1 else 0)
  }

  lemma AddressesSeen(lines: seq<Line>, n: nat, said: map<nat, Text>, address: nat)
    requires n <= |lines| && Tells(lines, n, said)
    ensures AddressSeen(lines, n, address) <==> address in said
  {
  }

  lemma ToldBO(lines: seq<Line>, n: nat, said: map<nat, Text>, address: nat)
    requires n < |lines| && Tells(lines, n, said) && Begins(lines, n, address) && address !in said
    ensures
      var after := said[address := Text(n, lines[n].name, Truncated(lines[n].size.value), [])];
      Tells(lines, n + 1, after) && Reading(lines, n + 1, after, Some(address), 0)
  {
    var after := said[address := Text(n, lines[n].name, Truncated(lines[n].size.value), [])];
    forall a | a in after ensures TextAt(lines, n + 1, a, after[a]) {
      assert a in said ==> TextAt(lines, n, a, said[a]);
    }
    forall j | 0 <= j < n + 1 && lines[j].BO? ensures exists a :: a in after && after[a].line == j {
      if j < n {
        var a :| a in said && said[a].line == j;
        assert a in after && after[a].line == j;
      } else {
        assert address in after && after[address].line == j;
      }
    }
  }

  lemma ToldSG(lines: seq<Line>, n: nat, said: map<nat, Text>, at: nat, switches: nat)
    requires n < |lines| && Tells(lines, n, said) && Reading(lines, n, said, Some(at), switches) && Fault(lines, n) == None
    requires Readable(lines[n])
    ensures
      var after := said[at := said[at].(fields := said[at].fields + [SignalOf(lines[n])])];
      Tells(lines, n + 1, after) && Reading(lines, n + 1, after, Some(at), switches + if lines[n].indicator.Switch? then 1 else 0)
  {
    var f := SignalOf(lines[n]);
    var after := said[at := said[at].(fields := said[at].fields + [f])];
    assert TextAt(lines, n, at, said[at]);
    forall a | a in after ensures TextAt(lines, n + 1, a, after[a]) {
      assert TextAt(lines, n, a, said[a]);
    }
    forall j | 0 <= j < n + 1 && lines[j].BO? ensures exists a :: a in after && after[a].line == j {
      var a :| a in said && said[a].line == j;
      assert a in after && after[a].line == j;
    }
    SwitchesGrow(said[at].fields, f);
  }

  lemma SwitchesGrow(fs: seq<Fields>, f: Fields)
    ensures SwitchIn(fs + [f]) <==> SwitchIn(fs) || f.kind == Multiplexor
  {
    if SwitchIn(fs) {
      var k :| 0 <= k < |fs| && fs[k].kind == Multiplexor;
      assert (fs + [f])[k].kind == Multiplexor;
    }
    assert (fs + [f])[|fs|] == f;
  }

  lemma ToldNothing(lines: seq<Line>, n: nat, said: map<nat, Text>)
    requires n < |lines| && Tells(lines, n, said) && !Readable(lines[n]) && !lines[n].BO?
    ensures Tells(lines, n + 1, said)
  {
  }

  lemma ToldOther(lines: seq<Line>, n: nat, said: map<nat, Text>, at: Option<nat>, switches: nat)
    requires n < |lines| && Tells(lines, n, said) && Reading(lines, n, said, at, switches) && lines[n].Other?
    ensures Tells(lines, n + 1, said) && Reading(lines, n + 1, said, at, switches) && Fault(lines, n) == None
  {
  }

  /** Message `m` says `t` and is not yet updated. */
  ghost predicate Says(m: Msg, address: nat, t: Text)
    reads m, m.sigs
  {
    m.address == address && m.name == t.name && m.size == t.size && Distinct(m.sigs) && Values(m.sigs) == t.fields
  }

  /** What is wrong with an SG line when `current` is the message read so far. */
  function FaultIn(l: Line, known: Option<seq<Fields>>, switches: nat): Option<Error> {
    if known.None? then Some(NoMessage)
    else if !l.SG? then Some(InvalidSG)
    else if NameIn(known.value, l.name) then Some(DuplicateSignal)
    else if l.indicator.Switch? && switches >= 1 then Some(MultipleMultiplexor)
    else if Readable(l) then None
    else Some(BadNumber)
  }

  /** The checks of `parseSG`, and its count of multiplexors. */
  method CheckSG(l: Line, current: Msg?, cnt: nat) returns (switches: nat, e: Option<Error>)
    requires l.SG? || l.BadSG?
    ensures e == FaultIn(l, if current == null then None else Some(Values(current.sigs)), cnt)
    ensures switches == cnt + if e.None? && l.indicator.Switch? then 1 else 0
  {
    switches, e := cnt, None;
    if current == null {
      return cnt, Some(NoMessage);
    }
    if l.BadSG? {
      return cnt, Some(InvalidSG);
    }
    var known := current.Find(l.name);
    if known != null {
      return cnt, Some(DuplicateSignal);
    }
    if l.indicator.Switch? && cnt >= 1 {
      return cnt, Some(MultipleMultiplexor);
    }
    if !Readable(l) {
      return cnt, Some(BadNumber);
    }
    if l.indicator.Switch? {
      switches := cnt + 1;
    }
  }

  // ----- what faultless lines describe -----

  ghost predicate Faultless(lines: seq<Line>, n: nat)
    requires n <= |lines|
  {
    forall i | 0 <= i < n :: Fault(lines, i) == None
  }

  /** No two signals share a name, and no two are multiplexors. */
  ghost predicate Unmixed(fs: seq<Fields>) {
    forall k, l | 0 <= k < l < |fs| :: fs[k].name != fs[l].name && !(fs[k].kind == Multiplexor && fs[l].kind == Multiplexor)
  }

  lemma UnmixedGrows(fs: seq<Fields>, f: Fields)
    requires Unmixed(fs) && !NameIn(fs, f.name) && !(f.kind == Multiplexor && SwitchIn(fs))
    ensures Unmixed(fs + [f])
  {
  }

  /** Lines without a fault describe messages whose signals have different names, one of them at most a
      multiplexor. */
  lemma {:induction false} FaultlessIsUnmixed(lines: seq<Line>, j: nat, n: nat)
    requires n <= |lines| && Faultless(lines, n)
    ensures Unmixed(SignalsOf(lines, j, n))
  {
    if n > j + 1 {
      FaultlessIsUnmixed(lines, j, n - 1);
      assert Fault(lines, n - 1) == None;
      if Readable(lines[n - 1]) && Governor(lines, n - 1) == j {
        UnmixedGrows(SignalsOf(lines, j, n - 1), SignalOf(lines[n - 1]));
      }
    }
  }

  /** The signals of a message are those its lines give. */
  lemma {:induction false} NamedByLine(lines: seq<Line>, j: nat, n: nat, k: nat) returns (i: nat)
    requires n <= |lines| && k < |SignalsOf(lines, j, n)|
    ensures i < n && Readable(lines[i]) && Governor(lines, i) == j
    ensures SignalsOf(lines, j, n)[k] == SignalOf(lines[i])
  {
    var before := SignalsOf(lines, j, n - 1);
    if k < |before| {
      i := NamedByLine(lines, j, n - 1, k);
    } else {
      i := n - 1;
    }
  }

  lemma {:induction false} LineNames(lines: seq<Line>, j: nat, n: nat, i: nat) returns (k: nat)
    requires n <= |lines| && i < n && Readable(lines[i]) && Governor(lines, i) == j
    ensures k < |SignalsOf(lines, j, n)| && SignalsOf(lines, j, n)[k] == SignalOf(lines[i])
  {
    if i < n - 1 {
      k := LineNames(lines, j, n - 1, i);
    } else {
      k := |SignalsOf(lines, j, n - 1)|;
    }
  }

  // ----- updating a message that was read -----

  function UpdatedAll(fs: seq<Fields>, hasMultiplexor: bool): seq<Fields> {
    seq(|fs|, i requires 0 <= i < |fs| => Updated(fs[i], hasMultiplexor))
  }

  // ----- what the lines spell -----

  /** SG line `i` stands under BO line `j`: no other BO line, readable or not, comes between. */
  predicate Under(lines: seq<Line>, i: nat, j: nat) {
    && j < i < |lines| && lines[i].SG? && lines[j].BO?
    && forall k | j < k < i :: !lines[k].BO? && !lines[k].BadBO?
  }

  /** An SG line under BO line `j` says `M`. */
  ghost predicate SaysM(lines: seq<Line>, j: nat) {
    exists i: nat :: Under(lines, i, j) && lines[i].indicator == Switch
  }

  /** What the signal of a line is in the end: `M` makes it the multiplexor and a number `m<v>` makes it show when
      the multiplexor is `v`, unless the message has no `M`; all else is as the line says. */
  predicate IsOfLine(f: Fields, l: Line, hasM: bool) {
    && l.SG? && f.name == l.name && f.receiver == (if l.receiver == "" then "XXX" else l.receiver)
    && l.numbers == Some(Numbers(f.place, f.signed, f.factor, f.offset))
    && match l.indicator
       case Plain => f.kind == Normal && f.multiplexValue == 0
       case Switch => f.kind == Multiplexor && f.multiplexValue == 0
       case Numbered(v) =>
         if hasM then f.kind == Multiplexed && v == Some(f.multiplexValue) else f.kind == Normal && f.multiplexValue == 0
  }

  /** One of the signals is that of line `i`. */
  ghost predicate HasLine(fs: seq<Fields>, lines: seq<Line>, i: nat, hasM: bool)
    requires i < |lines|
  {
    exists k :: 0 <= k < |fs| && IsOfLine(fs[k], lines[i], hasM)
  }

  /** The signal is that of some line under BO line `j`. */
  ghost predicate HasSource(f: Fields, lines: seq<Line>, j: nat, hasM: bool) {
    exists i: nat :: Under(lines, i, j) && IsOfLine(f, lines[i], hasM)
  }

  /** The signals are those of the SG lines under BO line `j`. */
  ghost predicate Spelled(lines: seq<Line>, j: nat, fs: seq<Fields>) {
    && (forall i: nat | Under(lines, i, j) :: HasLine(fs, lines, i, SaysM(lines, j)))
    && forall f | f in fs :: HasSource(f, lines, j, SaysM(lines, j))
  }

  lemma {:induction false} GovernorIs(lines: seq<Line>, i: nat, j: nat)
    requires i <= |lines|
    ensures Governor(lines, i) == j <==> j < i && Opens(lines[j]) && forall k | j < k < i :: !Opens(lines[k])
  {
    if i > 0 && !Opens(lines[i - 1]) {
      GovernorIs(lines, i - 1, j);
    }
  }

  lemma UnderIs(lines: seq<Line>, i: nat, j: nat)
    requires Faultless(lines, |lines|) && i < |lines|
    ensures Under(lines, i, j) <==> Readable(lines[i]) && Governor(lines, i) == j
  {
    GovernorIs(lines, i, j);
    assert Fault(lines, i) == None;
  }

  /** Nothing is wrong with line `i`: a BO line has an address and a size, and no BO line before it that address
      in 32 bits; an SG line has numbers and stands under a BO line, where none before it has its name or,
      if it says `M`, says so too. */
  ghost predicate Correct(lines: seq<Line>, i: nat)
    requires i < |lines|
  {
    match lines[i]
    case BO(address, _, size, _) =>
      && address.Some? && size.Some?
      && forall k | 0 <= k < i && lines[k].BO? && lines[k].address.Some? ::
           lines[k].address.value % 0x1_0000_0000 != address.value % 0x1_0000_0000
    case SG(name, indicator, numbers, _) =>
      && numbers.Some? && indicator != Numbered(None) && exists j: nat :: Under(lines, i, j) && NewUnder(lines, i, j)
    case BadSG => false
    case _ => true
  }

  /** No SG line between BO line `j` and line `i` has its name or also says `M`. */
  predicate NewUnder(lines: seq<Line>, i: nat, j: nat)
    requires i < |lines| && lines[i].SG?
  {
    forall k | j < k < i && Under(lines, k, j) ::
      lines[k].name != lines[i].name && !(lines[k].indicator == Switch && lines[i].indicator == Switch)
  }

  lemma UnderBefore(lines: seq<Line>, i: nat, j: nat, k: nat)
    requires i <= |lines| && Faultless(lines, i) && j < k < i && lines[j].BO?
    ensures Under(lines, k, j) <==> Readable(lines[k]) && Governor(lines, k) == j
  {
    GovernorIs(lines, k, j);
    assert Fault(lines, k) == None;
  }

  lemma OldUnder(lines: seq<Line>, i: nat, j: nat)
    requires i < |lines| && lines[i].SG? && Faultless(lines, i) && j < i && lines[j].BO? && !NewUnder(lines, i, j)
    ensures var before := SignalsOf(lines, j, i); NameIn(before, lines[i].name) || (lines[i].indicator.Switch? && SwitchIn(before))
  {
    var k: nat :| j < k < i && Under(lines, k, j)
                  && (lines[k].name == lines[i].name || (lines[k].indicator == Switch && lines[i].indicator == Switch));
    UnderBefore(lines, i, j, k);
    var l := LineNames(lines, j, i, k);
  }

  lemma GivenBefore(lines: seq<Line>, i: nat, j: nat)
    requires i < |lines| && lines[i].SG? && Faultless(lines, i) && Governor(lines, i) == j && lines[j].BO?
    ensures var before := SignalsOf(lines, j, i);
      NewUnder(lines, i, j) <==> !NameIn(before, lines[i].name) && !(lines[i].indicator.Switch? && SwitchIn(before))
  {
    var before := SignalsOf(lines, j, i);
    if !NewUnder(lines, i, j) {
      OldUnder(lines, i, j);
    }
    if l :| 0 <= l < |before| && (before[l].name == lines[i].name || (lines[i].indicator.Switch? && before[l].kind == Multiplexor)) {
      var k := NamedByLine(lines, j, i, l);
      GovernorIs(lines, k, j);
      assert Under(lines, k, j);
    }
  }

  lemma FaultIff(lines: seq<Line>, i: nat)
    requires i < |lines| && Faultless(lines, i)
    ensures Fault(lines, i) == None <==> Correct(lines, i)
  {
    if lines[i].SG? {
      var g := Governor(lines, i);
      if g >= 0 {
        GovernorIs(lines, i, g);
      }
      forall j: nat | Under(lines, i, j) ensures j == g {
        GovernorIs(lines, i, j);
      }
      if InMessage(lines, i) {
        assert Under(lines, i, g);
        GivenBefore(lines, i, g);
      }
    }
  }

  /** A file is accepted exactly if there is nothing wrong with any of its lines. */
  lemma {:induction false} FaultlessIff(lines: seq<Line>, n: nat)
    requires n <= |lines|
    ensures Faultless(lines, n) <==> forall i: nat | i < n :: Correct(lines, i)
  {
    if n > 0 {
      FaultlessIff(lines, n - 1);
      if Faultless(lines, n - 1) {
        FaultIff(lines, n - 1);
      }
    }
  }

  lemma UpdatedOfLine(l: Line, hasM: bool)
    requires Readable(l)
    ensures IsOfLine(Updated(SignalOf(l), hasM), l, hasM)
  {
  }

  lemma SaysMIff(lines: seq<Line>, j: nat)
    requires Faultless(lines, |lines|)
    ensures SaysM(lines, j) <==> SwitchIn(SignalsOf(lines, j, |lines|))
  {
    var fs := SignalsOf(lines, j, |lines|);
    if i: nat :| Under(lines, i, j) && lines[i].indicator == Switch {
      UnderIs(lines, i, j);
      var k := LineNames(lines, j, |lines|, i);
      assert fs[k].kind == Multiplexor;
    }
    if k :| 0 <= k < |fs| && fs[k].kind == Multiplexor {
      var i := NamedByLine(lines, j, |lines|, k);
      UnderIs(lines, i, j);
    }
  }

  /** What was read and updated is what the lines spell. */
  lemma UpdatedIsSpelled(lines: seq<Line>, j: nat, fs: seq<Fields>)
    requires Faultless(lines, |lines|)
    requires var read := SignalsOf(lines, j, |lines|); multiset(fs) == multiset(UpdatedAll(read, SwitchIn(read)))
    ensures Spelled(lines, j, fs)
  {
    var read := SignalsOf(lines, j, |lines|);
    var has := SwitchIn(read);
    var all := UpdatedAll(read, has);
    SaysMIff(lines, j);
    forall i: nat | Under(lines, i, j) ensures HasLine(fs, lines, i, has) {
      UnderIs(lines, i, j);
      var l := LineNames(lines, j, |lines|, i);
      var k := FoundAgain(all, fs, l);
      UpdatedOfLine(lines[i], has);
      assert IsOfLine(fs[k], lines[i], has);
    }
    forall f | f in fs ensures HasSource(f, lines, j, has) {
      var k: nat :| k < |fs| && fs[k] == f;
      var l := FoundAgain(fs, all, k);
      var i := NamedByLine(lines, j, |lines|, l);
      UnderIs(lines, i, j);
      UpdatedOfLine(lines[i], has);
      assert Under(lines, i, j) && IsOfLine(f, lines[i], has);
    }
  }

  lemma FoundAgain(a: seq<Fields>, b: seq<Fields>, k: nat) returns (l: nat)
    requires multiset(a) == multiset(b) && k < |a|
    ensures l < |b| && b[l] == a[k]
  {
    assert a[k] in multiset(a);
    assert a[k] in multiset(b);
    l :| l < |b| && b[l] == a[k];
  }

  ghost predicate DifferentNames(sigs: seq<Signal>)
    reads sigs
  {
    forall s, t | s in sigs && t in sigs && s != t :: s.name != t.name
  }

  ghost predicate OneMultiplexor(sigs: seq<Signal>)
    reads sigs
  {
    forall s, t | s in sigs && t in sigs && s != t :: s.kind != Multiplexor || t.kind != Multiplexor
  }

  /** Message `m` is in order and its signals are exactly those of `t`, updated. */
  ghost predicate Holds(m: Msg, address: nat, t: Text)
    reads m, m.sigs
  {
    && m.Valid() && m.address == address && m.name == t.name && m.size == t.size
    && multiset(Values(m.sigs)) == multiset(UpdatedAll(t.fields, m.multiplexor != null))
    && DifferentNames(m.sigs) && OneMultiplexor(m.sigs)
  }

  /** The message is that of BO line `j`: its address and size of 32 bits, its name, and the signals of its SG lines. */
  ghost predicate IsOfBO(m: Msg, lines: seq<Line>, j: nat)
    requires j < |lines| && lines[j].BO?
    reads m, m.sigs
  {
    var l := lines[j];
    && l.address.Some? && m.address == l.address.value % 0x1_0000_0000 && m.name == l.name
    && l.size.Some? && m.size == l.size.value % 0x1_0000_0000 && Spelled(lines, j, Values(m.sigs))
  }

  lemma HoldsMultiplexorIff(m: Msg, a: nat, t: Text)
    requires Holds(m, a, t)
    ensures m.multiplexor != null <==> SwitchIn(t.fields)
  {
    var fs := UpdatedAll(t.fields, m.multiplexor != null);
    if m.multiplexor != null {
      var i: nat :| i < |m.sigs| && m.sigs[i] == m.multiplexor;
      var k := FoundAgain(Values(m.sigs), fs, i);
      assert t.fields[k].kind == Multiplexor;
    }
    if k: nat :| k < |t.fields| && t.fields[k].kind == Multiplexor {
      var i := FoundAgain(fs, Values(m.sigs), k);
      assert m.sigs[i].kind == Multiplexor;
    }
  }

  lemma HoldsSpells(m: Msg, a: nat, t: Text, lines: seq<Line>)
    requires Holds(m, a, t) && Faultless(lines, |lines|) && TextAt(lines, |lines|, a, t)
    ensures IsOfBO(m, lines, t.line)
  {
    HoldsMultiplexorIff(m, a, t);
    UpdatedIsSpelled(lines, t.line, Values(m.sigs));
  }

  lemma TakenOut<T>(b: seq<T>, k: nat)
    requires k < |b|
    ensures multiset(b) == multiset(b[..k] + b[k + 1..]) + multiset{b[k]}
    ensures multiset(b[..k] + b[k + 1..]) == multiset(b) - multiset{b[k]}
  {
    assert b == b[..k] + [b[k]] + b[k + 1..];
  }

  /** The same signals in another order say the same. */
  lemma {:induction false} PermutedValues(a: seq<Signal>, b: seq<Signal>)
    requires multiset(a) == multiset(b)
    ensures multiset(Values(a)) == multiset(Values(b))
    decreases |a|
  {
    if a == [] {
      assert |multiset(b)| == |b|;
    } else {
      var n := |a| - 1;
      TakenOut(a, n);
      assert a[n] in multiset(a);
      assert a[n] in multiset(b);
      var k: nat :| k < |b| && b[k] == a[n];
      TakenOut(b, k);
      PermutedValues(a[..n] + a[n + 1..], b[..k] + b[k + 1..]);
      ValuesTakenOut(a, n);
      ValuesTakenOut(b, k);
    }
  }

  lemma ValuesTakenOut(b: seq<Signal>, k: nat)
    requires k < |b|
    ensures multiset(Values(b)) == multiset(Values(b[..k] + b[k + 1..])) + multiset{b[k].Value()}
  {
    TakenOut(Values(b), k);
    assert Values(b)[..k] + Values(b)[k + 1..] == Values(b[..k] + b[k + 1..]);
  }

  /** Updating mixes up neither names nor multiplexors. */
  lemma UnmixedSignals(sigs: seq<Signal>, fs: seq<Fields>, hasMultiplexor: bool)
    requires Values(sigs) == UpdatedAll(fs, hasMultiplexor) && Unmixed(fs)
    ensures DifferentNames(sigs) && OneMultiplexor(sigs)
  {
    forall s, t | s in sigs && t in sigs && s != t ensures s.name != t.name && (s.kind != Multiplexor || t.kind != Multiplexor) {
      var i: nat :| i < |sigs| && sigs[i] == s;
      var j: nat :| j < |sigs| && sigs[j] == t;
      assert Values(sigs)[i] == Updated(fs[i], hasMultiplexor) && Values(sigs)[j] == Updated(fs[j], hasMultiplexor);
    }
  }

  lemma SameSignals(a: seq<Signal>, b: seq<Signal>)
    requires Members(a) == Members(b) && DifferentNames(a) && OneMultiplexor(a)
    ensures DifferentNames(b) && OneMultiplexor(b)
  {
    assert forall s | s in b :: s in Members(b);
  }

  method Finish(m: Msg, ghost address: nat, ghost t: Text)
    requires Says(m, address, t) && Unmixed(t.fields)
    modifies m, Members(m.sigs)
    ensures Holds(m, address, t) && Members(m.sigs) == old(Members(m.sigs))
  {
    ghost var sigs := m.sigs;
    m.Update();
    forall i | 0 <= i < |sigs| ensures sigs[i].Value() == Updated(t.fields[i], m.multiplexor != null) {
      assert sigs[i] in old(Members(m.sigs));
    }
    assert Values(sigs) == UpdatedAll(t.fields, m.multiplexor != null);
    PermutedValues(m.sigs, sigs);
    UnmixedSignals(sigs, t.fields, m.multiplexor != null);
    SameSignals(sigs, m.sigs);
  }

  // ----- the file -----

  /** The message a signal belongs to, and its index there. */
  datatype Place = Place(address: nat, index: nat)

  /** Message `m` has the name and size of `t`, and its signals are placed in it in order. */
  ghost predicate Heads(place: map<Signal, Place>, m: Msg, a: nat, t: Text)
    reads m
  {
    && m.address == a && m.name == t.name && m.size == t.size && |m.sigs| == |t.fields|
    && forall k | 0 <= k < |m.sigs| :: m.sigs[k] in place && place[m.sigs[k]] == Place(a, k)
  }

  /** Signal `s` says what was said at its place. */
  ghost predicate Reads(place: map<Signal, Place>, s: Signal, said: map<nat, Text>)
    requires s in place
    reads s
  {
    var p := place[s];
    p.address in said && p.index < |said[p.address].fields| && s.Value() == said[p.address].fields[p.index]
  }

  /** `after` says what `said` does, and of one signal `f` more at `at`. */
  ghost predicate Extends(said: map<nat, Text>, after: map<nat, Text>, at: nat, f: Fields)
    requires at in said
  {
    && after.Keys == said.Keys && (forall a | a in said && a != at :: after[a] == said[a])
    && after[at].name == said[at].name && after[at].size == said[at].size
    && |after[at].fields| == |said[at].fields| + 1 && after[at].fields[|said[at].fields|] == f
    && forall k | 0 <= k < |said[at].fields| :: after[at].fields[k] == said[at].fields[k]
  }

  class File {
    var msgs: map<nat, Msg>
    /** The messages and their signals. */
    ghost var owned: set<object>

    constructor ()
      ensures msgs == map[] && owned == {}
    {
      msgs, owned, place := map[], {}, map[];
    }

    /** Each message owns its signals. */
    ghost predicate Apart()
      reads this, owned
    {
      && this !in owned && (forall a | a in msgs :: msgs[a] in owned && Members(msgs[a].sigs) <= owned)
      && forall a, b | a in msgs && b in msgs && a != b ::
           msgs[a] != msgs[b] && Members(msgs[a].sigs) !! Members(msgs[b].sigs)
    }

    /** While lines are read, each signal knows its message's address and its index there. */
    ghost var place: map<Signal, Place>

    ghost predicate Reflects(said: map<nat, Text>)
      reads this, owned
    {
      this !in owned && ReflectsBy(owned, place, said)
    }

    ghost predicate ReflectsBy(objects: set<object>, places: map<Signal, Place>, said: map<nat, Text>)
      reads this`msgs, objects
    {
      && msgs.Keys == said.Keys
      && (forall a | a in msgs :: msgs[a] in objects && Heads(places, msgs[a], a, said[a]))
      && forall s | s in places :: s in objects && Reads(places, s, said)
    }

    /** Once the lines are read, places no longer matter. */
    lemma ReflectsAgrees(said: map<nat, Text>)
      requires Reflects(said)
      ensures Agrees(said)
    {
      forall a | a in msgs ensures Says(msgs[a], a, said[a]) {
        assert Heads(place, msgs[a], a, said[a]);
        forall k | 0 <= k < |msgs[a].sigs| ensures msgs[a].sigs[k].Value() == said[a].fields[k] {
          assert Reads(place, msgs[a].sigs[k], said);
        }
      }
      forall a, b | a in msgs && b in msgs && a != b
        ensures msgs[a] != msgs[b] && Members(msgs[a].sigs) !! Members(msgs[b].sigs)
      {
        assert Heads(place, msgs[a], a, said[a]) && Heads(place, msgs[b], b, said[b]);
      }
    }

    ghost predicate Agrees(said: map<nat, Text>)
      reads this, owned
    {
      && Apart() && msgs.Keys == said.Keys
      && forall a | a in msgs :: Says(msgs[a], a, said[a])
    }

    /** `parseBO`, for line `n`. */
    method ParseBO(l: Line, ghost n: nat, ghost said: map<nat, Text>) returns (current: Msg?, e: Option<Error>)
      requires (l.BO? || l.BadBO?) && Reflects(said)
      modifies this
      ensures e == if l.BadBO? then None
                   else if l.address.None? then Some(BadNumber)
                   else if Truncated(l.address.value) in said then Some(DuplicateAddress)
                   else if l.size.None? then Some(BadNumber)
                   else None
      ensures owned == old(owned) + (if current == null then {} else {current}) && place == old(place)
      ensures e.None? && l.BO? ==>
                && current != null && fresh(current) && msgs == old(msgs)[Truncated(l.address.value) := current]
                && Reflects(said[Truncated(l.address.value) := Text(n, l.name, Truncated(l.size.value), [])])
      ensures l.BadBO? ==> current == null && msgs == old(msgs) && Reflects(said)
    {
      current, e := null, None;
      if l.BadBO? {
        return;
      }
      if l.address.None? {
        return null, Some(BadNumber);
      }
      var address := Truncated(l.address.value);
      if address in msgs {
        return null, Some(DuplicateAddress);
      }
      if l.size.None? {
        return null, Some(BadNumber);
      }
      current := new Msg(address, l.name, Truncated(l.size.value), l.transmitter);
      msgs := msgs[address := current];
      owned := owned + {current};
    }

    /** The end of `parseSG`: the message at `at` gets a new signal. */
    method Push(current: Msg, f: Fields, ghost at: nat, ghost said: map<nat, Text>, ghost after: map<nat, Text>)
      requires Reflects(said) && at in msgs && msgs[at] == current && Extends(said, after, at, f)
      modifies this`owned, this`place, current`sigs
      ensures fresh(owned - old(owned)) && Reflects(after)
    {
      var s := PushBack(current, f, at, said, after, owned, place);
      owned, place := owned + {s}, place[s := Place(at, |said[at].fields|)];
    }

    method PushBack(current: Msg, f: Fields, ghost at: nat, ghost said: map<nat, Text>, ghost after: map<nat, Text>,
                    ghost objects: set<object>, ghost places: map<Signal, Place>) returns (s: Signal)
      requires ReflectsBy(objects, places, said) && at in msgs && msgs[at] == current && Extends(said, after, at, f)
      modifies current`sigs
      ensures fresh(s) && ReflectsBy(objects + {s}, places[s := Place(at, |said[at].fields|)], after)
    {
      s := new Signal(f);
      current.sigs := current.sigs + [s];
      ghost var now := places[s := Place(at, |said[at].fields|)];
      forall a | a in msgs ensures Heads(now, msgs[a], a, after[a]) {
        assert old(Heads(places, msgs[a], a, said[a]));
      }
      forall t | t in now && t != s ensures Reads(now, t, after) {
        assert old(Reads(places, t, said));
      }
    }

    /** `parseSG`, for the message at `at`: reports a fault, or adds the signal. */
    method ParseSG(l: Line, current: Msg, cnt: nat, ghost at: nat, ghost said: map<nat, Text>)
      returns (switches: nat, e: Option<Error>)
      requires (l.SG? || l.BadSG?) && Reflects(said) && at in msgs && msgs[at] == current
      modifies this`owned, this`place, current`sigs
      ensures e == FaultIn(l, Some(said[at].fields), cnt)
      ensures switches == cnt + if e.None? && l.indicator.Switch? then 1 else 0
      ensures fresh(owned - old(owned))
      ensures e.None? ==> Reflects(said[at := said[at].(fields := said[at].fields + [SignalOf(l)])])
    {
      KnownFields(at, said);
      switches, e := CheckSG(l, current, cnt);
      if e.None? {
        Push(current, SignalOf(l), at, said, said[at := said[at].(fields := said[at].fields + [SignalOf(l)])]);
      }
    }

    lemma KnownFields(at: nat, said: map<nat, Text>)
      requires Reflects(said) && at in msgs
      ensures Values(msgs[at].sigs) == said[at].fields && |msgs[at].sigs| == |said[at].fields|
    {
      assert Heads(place, msgs[at], at, said[at]);
      forall k | 0 <= k < |msgs[at].sigs| ensures msgs[at].sigs[k].Value() == said[at].fields[k] {
        assert Reads(place, msgs[at].sigs[k], said);
      }
    }

    /** `current` is the message at `at`. */
    predicate At(current: Msg?, at: Option<nat>)
      reads this
    {
      if current == null then at == None else at.Some? && at.value in msgs && msgs[at.value] == current
    }

    /** A BO line. */
    method ReadBO(lines: seq<Line>, n: nat, ghost said: map<nat, Text>)
      returns (next: Msg?, e: Option<Error>, ghost nextAt: Option<nat>, ghost nextSaid: map<nat, Text>)
      requires n < |lines| && Opens(lines[n]) && Tells(lines, n, said) && Reflects(said)
      modifies this
      ensures e == Fault(lines, n)
      ensures e.None? ==> Tells(lines, n + 1, nextSaid) && Reading(lines, n + 1, nextSaid, nextAt, 0)
      ensures e.None? ==> Reflects(nextSaid) && At(next, nextAt) && fresh(owned - old(owned))
    {
      var l := lines[n];
      nextAt, nextSaid := None, said;
      if l.BO? && l.address.Some? {
        AddressesSeen(lines, n, said, Truncated(l.address.value));
      }
      next, e := ParseBO(l, n, said);
      if l.BadBO? {
        ToldNothing(lines, n, said);
      } else if e.None? {
        nextAt := Some(Truncated(l.address.value));
        nextSaid := said[nextAt.value := Text(n, l.name, Truncated(l.size.value), [])];
        ToldBO(lines, n, said, nextAt.value);
      }
    }

    /** An SG line. */
    method ReadSG(lines: seq<Line>, n: nat, current: Msg?, cnt: nat, ghost at: Option<nat>, ghost said: map<nat, Text>)
      returns (switches: nat, e: Option<Error>, ghost nextSaid: map<nat, Text>)
      requires n < |lines| && (lines[n].SG? || lines[n].BadSG?)
      requires Tells(lines, n, said) && Reading(lines, n, said, at, cnt) && Reflects(said) && At(current, at)
      modifies this`owned, this`place, owned
      ensures e == Fault(lines, n) && At(current, at)
      ensures e.None? ==> Tells(lines, n + 1, nextSaid) && Reading(lines, n + 1, nextSaid, at, switches)
      ensures e.None? ==> Reflects(nextSaid) && fresh(owned - old(owned))
    {
      var l := lines[n];
      nextSaid := said;
      if current == null {
        switches, e := CheckSG(l, null, cnt);
      } else {
        assert TextAt(lines, n, at.value, said[at.value]);
        switches, e := ParseSG(l, current, cnt, at.value, said);
        if e.None? {
          nextSaid := said[at.value := said[at.value].(fields := said[at.value].fields + [SignalOf(l)])];
          ToldSG(lines, n, said, at.value, cnt);
        }
      }
    }

    /** The loop's state before line `n`. */
    ghost predicate ReadTo(lines: seq<Line>, n: nat, said: map<nat, Text>, at: Option<nat>, cnt: nat, current: Msg?)
      requires n <= |lines|
      reads this, owned
    {
      Tells(lines, n, said) && Reading(lines, n, said, at, cnt) && Reflects(said) && At(current, at)
    }

    /** One line of `parse`. */
    method ReadLine(lines: seq<Line>, n: nat, current: Msg?, cnt: nat, ghost at: Option<nat>, ghost said: map<nat, Text>)
      returns (next: Msg?, switches: nat, e: Option<Error>, ghost nextAt: Option<nat>, ghost nextSaid: map<nat, Text>)
      requires n < |lines| && ReadTo(lines, n, said, at, cnt, current)
      modifies this, owned
      ensures e == Fault(lines, n)
      ensures e.None? ==> ReadTo(lines, n + 1, nextSaid, nextAt, switches, next) && fresh(owned - old(owned))
    {
      next, switches, e, nextAt, nextSaid := current, cnt, None, at, said;
      if Opens(lines[n]) {
        next, e, nextAt, nextSaid := ReadBO(lines, n, said);
        switches := 0;
      } else if lines[n].Other? {
        ToldOther(lines, n, said, at, cnt);
      } else {
        switches, e, nextSaid := ReadSG(lines, n, current, cnt, at, said);
      }
    }

    /** The loop of `parse` over the lines. */
    method ReadLines(lines: seq<Line>) returns (r: Outcome, ghost said: map<nat, Text>)
      modifies this
      ensures r.Failed? ==> r.line < |lines| && Faultless(lines, r.line) && Fault(lines, r.line) == Some(r.error)
      ensures r.Parsed? ==> Faultless(lines, |lines|) && Tells(lines, |lines|, said) && Agrees(said)
      ensures r.Parsed? ==> fresh(owned)
    {
      msgs, owned, place, said := map[], {}, map[], map[];
      var current: Msg? := null;
      var cnt: nat := 0;
      ghost var at: Option<nat> := None;
      for n := 0 to |lines|
        invariant Faultless(lines, n) && ReadTo(lines, n, said, at, cnt, current)
        invariant fresh(owned)
      {
        var e: Option<Error>;
        current, cnt, e, at, said := ReadLine(lines, n, current, cnt, at, said);
        if e.Some? {
          return Failed(n, e.value), said;
        }
      }
      r := Parsed;
      ReflectsAgrees(said);
    }

    /** The messages at `todo` are as read, the others finished. */
    ghost predicate Finished(said: map<nat, Text>, todo: set<nat>)
      reads this, owned
    {
      && Apart() && msgs.Keys == said.Keys && todo <= msgs.Keys
      && (forall a | a in todo :: Says(msgs[a], a, said[a]))
      && forall a | a in msgs && a !in todo :: Holds(msgs[a], a, said[a])
    }

    /** The message at `b` stays as read, or finished. */
    twostate predicate Stays(b: nat, t: Text)
      requires b in msgs && msgs == old(msgs)
      reads this, msgs[b], Members(msgs[b].sigs)
    {
      && Members(msgs[b].sigs) == old(Members(msgs[b].sigs))
      && (old(Says(msgs[b], b, t)) ==> Says(msgs[b], b, t)) && (old(Holds(msgs[b], b, t)) ==> Holds(msgs[b], b, t))
    }

    method FinishAt(a: nat, ghost said: map<nat, Text>)
      requires Apart() && msgs.Keys == said.Keys && a in msgs && Says(msgs[a], a, said[a]) && Unmixed(said[a].fields)
      modifies msgs[a], Members(msgs[a].sigs)
      ensures Holds(msgs[a], a, said[a]) && Members(msgs[a].sigs) == old(Members(msgs[a].sigs))
      ensures forall b | b in msgs && b != a :: Stays(b, said[b])
    {
      label before:
      Finish(msgs[a], a, said[a]);
      forall b | b in msgs && b != a ensures Stays(b, said[b]) {
        assert unchanged@before(msgs[b]) && unchanged@before(Members(msgs[b].sigs));
      }
    }

    method FinishOne(ghost said: map<nat, Text>, ghost todo: set<nat>, a: nat)
      requires Finished(said, todo) && a in todo && Unmixed(said[a].fields)
      modifies owned
      ensures Finished(said, todo - {a})
    {
      FinishAt(a, said);
    }

    /** The loop of `parse` that updates every message. */
    method FinishAll(ghost said: map<nat, Text>)
      requires Finished(said, msgs.Keys) && forall a | a in said :: Unmixed(said[a].fields)
      modifies owned
      ensures Finished(said, {})
    {
      var todo := msgs.Keys;
      while todo != {}
        invariant Finished(said, todo)
        decreases |todo|
      {
        var a :| a in todo;
        FinishOne(said, todo, a);
        todo := todo - {a};
      }
    }

    lemma ReadIsUnmixed(lines: seq<Line>, said: map<nat, Text>)
      requires Faultless(lines, |lines|) && Tells(lines, |lines|, said)
      ensures forall a | a in said :: Unmixed(said[a].fields)
    {
      forall a | a in said ensures Unmixed(said[a].fields) {
        assert TextAt(lines, |lines|, a, said[a]);
        FaultlessIsUnmixed(lines, said[a].line, |lines|);
      }
    }

    /** The file has a message for each BO line and no other, and each is as its lines spell it. */
    ghost predicate Spells(lines: seq<Line>)
      reads this, owned
    {
      && Apart()
      && (forall a | a in msgs :: exists j: nat :: j < |lines| && lines[j].BO? && IsOfBO(msgs[a], lines, j))
      && forall j: nat | j < |lines| && lines[j].BO? :: exists a :: a in msgs && IsOfBO(msgs[a], lines, j)
    }

    lemma FinishedSpells(lines: seq<Line>, said: map<nat, Text>)
      requires Finished(said, {}) && Faultless(lines, |lines|) && Tells(lines, |lines|, said)
      ensures Spells(lines)
    {
      forall a | a in msgs ensures said[a].line < |lines| && lines[said[a].line].BO? && IsOfBO(msgs[a], lines, said[a].line) {
        assert TextAt(lines, |lines|, a, said[a]);
        HoldsSpells(msgs[a], a, said[a], lines);
      }
    }

    /** `parse`. It fails at the first line that has a fault, and only there; otherwise the file has one
        message for each BO line, each in order and with exactly the signals of its own SG lines, which have
        different names and at most one multiplexor among them. */
    method Parse(lines: seq<Line>) returns (r: Outcome, ghost said: map<nat, Text>)
      modifies this
      ensures r.Parsed? <==> Faultless(lines, |lines|)
      ensures r.Failed? ==> r.line < |lines| && Faultless(lines, r.line) && Fault(lines, r.line) == Some(r.error)
      ensures r.Parsed? ==> Tells(lines, |lines|, said) && Finished(said, {}) && Spells(lines)
    {
      r, said := ReadLines(lines);
      if r.Parsed? {
        ReadIsUnmixed(lines, said);
        FinishAll(said);
        FinishedSpells(lines, said);
      }
    }
  }
}
