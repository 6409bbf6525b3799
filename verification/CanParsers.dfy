/** The signal cache and the frame store (bridge/car/can_parsers.h). A DBC is kept as the values its
    messages hold once parsed; nothing edits them afterwards. */
module CanParsers {
  import opened Words
  import opened Extraction
  import opened Messages
  import DbcFile

  datatype Message = Message(address: nat, name: string, sigs: seq<View>)

  type Dbc = map<nat, Message>

  const ADDRESSES: nat := 0x1_0000_0000

  /** `bus & 3`. */
  function Masked(bus: int): nat {
    bus % 4
  }

  // ----- keys -----

  predicate ColonFree(s: string) {
    forall k | 0 <= k < |s| :: s[k] != ':'
  }

  function Key(msgName: string, sigName: string): string {
    msgName + "::" + sigName
  }

  /** A key made of names without colons is made by no other pair of strings, colons or not. */
  lemma KeyInjective(m: string, s: string, m': string, s': string)
    requires ColonFree(m) && ColonFree(s) && Key(m, s) == Key(m', s')
    ensures m == m' && s == s'
  {
    var k := Key(m, s);
    assert k[|m'|] == ':' && k[|m'| + 1] == ':' by {
      assert Key(m', s')[|m'|] == ':' && Key(m', s')[|m'| + 1] == ':';
    }
    assert |m'| == |m|;
    assert m == k[..|m|] && m' == k[..|m|];
    assert s == k[|m| + 2..] && s' == k[|m| + 2..];
  }

  /** `frameKey`: `(bus & 3) << 32 | address`. */
  function FrameKey(bus: int, address: nat): nat {
    Masked(bus) * ADDRESSES + address
  }

  lemma FrameKeyInjective(b: int, a: nat, b': int, a': nat)
    requires a < ADDRESSES && a' < ADDRESSES && FrameKey(b, a) == FrameKey(b', a')
    ensures b % 4 == b' % 4 && a == a'
  {
  }

  // ----- frames seen -----

  datatype Frame = Frame(bus: int, address: nat, data: seq<byte>)

  predicate Matches(f: Frame, bus: int, address: nat) {
    f.bus % 4 == bus % 4 && f.address == address
  }

  /** The last frame with this address on a bus of the same number mod 4. */
  function LastFrame(seen: seq<Frame>, bus: int, address: nat): Option<seq<byte>> {
    if seen == [] then None
    else
      var f := seen[|seen| - 1];
      if Matches(f, bus, address) then Some(f.data)
      else LastFrame(seen[..|seen| - 1], bus, address)
  }

  /** The store holds the last frame of each kind. */
  ghost predicate StoreOK(frames: map<nat, seq<byte>>, seen: seq<Frame>) {
    forall bus: int, address: nat | address < ADDRESSES ::
      LastFrame(seen, bus, address) ==
        if FrameKey(bus, address) in frames then Some(frames[FrameKey(bus, address)]) else None
  }

  lemma StoreGrows(frames: map<nat, seq<byte>>, seen: seq<Frame>, f: Frame)
    requires StoreOK(frames, seen) && f.address < ADDRESSES
    ensures StoreOK(frames[FrameKey(f.bus, f.address) := f.data], seen + [f])
  {
    forall bus: int, address: nat | address < ADDRESSES && FrameKey(bus, address) == FrameKey(f.bus, f.address)
      ensures Matches(f, bus, address)
    {
      FrameKeyInjective(bus, address, f.bus, f.address);
    }
  }

  // ----- what the DBCs define -----

  /** Scanning the DBCs of the bus: message `msgName` has a signal `sigName`, as in `view`. */
  ghost predicate Defines(dbc: Dbc, msgName: string, sigName: string, address: nat, view: View) {
    exists a, k: nat :: a in dbc && k < |dbc[a].sigs| && IsAt(dbc[a], k, msgName, sigName, address, view)
  }

  predicate IsAt(m: Message, k: nat, msgName: string, sigName: string, address: nat, view: View)
    requires k < |m.sigs|
  {
    m.name == msgName && m.sigs[k].fields.name == sigName && m.address == address && m.sigs[k] == view
  }

  ghost predicate Defined(dbcs: map<int, Dbc>, bus: int, msgName: string, sigName: string, address: nat, view: View) {
    exists b :: b in dbcs && b % 4 == bus % 4 && Defines(dbcs[b], msgName, sigName, address, view)
  }

  /** What parsing gives: names without colons, different signal names within a message, the address
      that leads to the message. */
  predicate MessageOK(m: Message, address: nat) {
    && m.address == address < ADDRESSES && ColonFree(m.name)
    && (forall k | 0 <= k < |m.sigs| :: ColonFree(m.sigs[k].fields.name))
    && forall k, l | 0 <= k < l < |m.sigs| :: m.sigs[k].fields.name != m.sigs[l].fields.name
  }

  /** Messages are found under their own addresses, of 32 bits. */
  predicate AddressesOK(dbc: Dbc) {
    forall a | a in dbc :: dbc[a].address == a < ADDRESSES
  }

  /** The files' messages are as parsing gives them. */
  predicate FilesOK(dbcs: map<int, Dbc>) {
    forall b | b in dbcs :: forall a | a in dbcs[b] :: MessageOK(dbcs[b][a], a)
  }

  /** No two messages of the file have message name and signal name in common. */
  predicate KeysApart(dbc: Dbc) {
    forall a, b, k: nat, l: nat | a in dbc && b in dbc && a != b && k < |dbc[a].sigs| && l < |dbc[b].sigs| ::
      KeyAt(dbc[a], k) != KeyAt(dbc[b], l)
  }

  /** What a message on the heap amounts to. */
  function Snapshot(m: Msg): Message
    requires m.Linked()
    reads m, m.sigs
  {
    Message(m.address, m.name, seq(|m.sigs|, i requires 0 <= i < |m.sigs| && m.Linked() reads m, m.sigs => SeenIn(m, i)))
  }

  function SeenIn(m: Msg, i: nat): View
    requires i < |m.sigs| && m.Linked()
    reads m, m.sigs
  {
    m.sigs[i].Seen()
  }

  /** The messages a parsed file holds are such messages, as long as the names the lines gave are words. */
  lemma SnapshotOK(m: Msg, address: nat, t: DbcFile.Text)
    requires DbcFile.Holds(m, address, t) && address < ADDRESSES && ColonFree(m.name)
    requires forall s | s in m.sigs :: ColonFree(s.name)
    ensures MessageOK(Snapshot(m), address)
  {
  }

  /** The regular expressions take names for words. */
  predicate NamesAreWords(lines: seq<DbcFile.Line>) {
    forall i | 0 <= i < |lines| :: (lines[i].BO? ==> ColonFree(lines[i].name)) && (lines[i].SG? ==> ColonFree(lines[i].name))
  }

  /** Line `i` gives a signal to the message of BO line `j`. */
  predicate GivesSignal(lines: seq<DbcFile.Line>, i: nat, j: nat)
    requires i < |lines|
  {
    DbcFile.Readable(lines[i]) && DbcFile.Governor(lines, i) == j && lines[j].BO?
  }

  /** Lines `i` and `i'` give signals of one name to different messages of one name. */
  predicate MixesUp(lines: seq<DbcFile.Line>, i: nat, i': nat, j: nat, j': nat) {
    && i < |lines| && i' < |lines| && j != j' && GivesSignal(lines, i, j) && GivesSignal(lines, i', j')
    && lines[j].name == lines[j'].name && lines[i].name == lines[i'].name
  }

  /** Messages of the same name have no signal name in common; `parse` does not see to it. */
  ghost predicate SignalsDiffer(lines: seq<DbcFile.Line>) {
    forall i, i', j, j' :: !MixesUp(lines, i, i', j, j')
  }

  lemma KeepsName(m: Msg, address: nat, t: DbcFile.Text, s: Signal) returns (k: nat)
    requires DbcFile.Holds(m, address, t) && s in m.sigs
    ensures k < |t.fields| && s.name == t.fields[k].name
  {
    var i: nat :| i < |m.sigs| && m.sigs[i] == s;
    var fs := DbcFile.UpdatedAll(t.fields, m.multiplexor != null);
    assert Values(m.sigs)[i] in multiset(Values(m.sigs));
    assert Values(m.sigs)[i] in multiset(fs);
    k :| k < |fs| && fs[k] == Values(m.sigs)[i];
  }

  /** What lines said of a message: names that are words, and an address of 32 bits. */
  predicate Wordy(a: nat, t: DbcFile.Text) {
    a < ADDRESSES && ColonFree(t.name) && forall k | 0 <= k < |t.fields| :: ColonFree(t.fields[k].name)
  }

  lemma TextsAreWordy(lines: seq<DbcFile.Line>, said: map<nat, DbcFile.Text>)
    requires DbcFile.Tells(lines, |lines|, said) && NamesAreWords(lines)
    ensures forall a | a in said :: Wordy(a, said[a])
  {
    forall a | a in said ensures Wordy(a, said[a]) {
      var t := said[a];
      assert DbcFile.TextAt(lines, |lines|, a, t);
      forall k | 0 <= k < |t.fields| ensures ColonFree(t.fields[k].name) {
        var i := DbcFile.NamedByLine(lines, t.line, |lines|, k);
      }
    }
  }

  /** `dbc` has one message for each address, with the name and the updated signals that lines gave it, and
      exactly the multiplexed ones are selected, by the message's own multiplexor. */
  ghost predicate DbcSays(dbc: Dbc, said: map<nat, DbcFile.Text>) {
    dbc.Keys == said.Keys && forall a | a in said :: MessageSays(dbc[a], a, said[a])
  }

  ghost predicate MessageSays(m: Message, a: nat, t: DbcFile.Text) {
    && m.address == a && m.name == t.name
    && multiset(SaidBy(m)) == multiset(DbcFile.UpdatedAll(t.fields, DbcFile.SwitchIn(t.fields)))
    && forall v | v in m.sigs :: Selected(m, v)
  }

  function SaidBy(m: Message): seq<Fields> {
    seq(|m.sigs|, i requires 0 <= i < |m.sigs| => m.sigs[i].fields)
  }

  lemma SnapshotSays(m: Msg, a: nat, t: DbcFile.Text)
    requires DbcFile.Holds(m, a, t)
    ensures MessageSays(Snapshot(m), a, t)
  {
    var was := m.sigs;
    assert SaidBy(Snapshot(m)) == Values(was);
    DbcFile.HoldsMultiplexorIff(m, a, t);
    assert multiset(SaidBy(Snapshot(m))) == multiset(DbcFile.UpdatedAll(t.fields, m.multiplexor != null));
    if m.multiplexor != null {
      var l: nat :| l < |was| && was[l] == m.multiplexor;
      assert Values(was)[l] == m.multiplexor.Value();
    }
  }

  /** Message `m` at `a` is that of BO line `j`: its address of 32 bits, its name, and the signals of its SG lines. */
  ghost predicate MessageOfBO(m: Message, a: nat, lines: seq<DbcFile.Line>, j: nat)
    requires j < |lines| && lines[j].BO?
  {
    && lines[j].address.Some? && a == m.address == lines[j].address.value % 0x1_0000_0000
    && m.name == lines[j].name && DbcFile.Spelled(lines, j, SaidBy(m)) && forall v | v in m.sigs :: Selected(m, v)
  }

  /** Exactly the multiplexed signals are selected, by a multiplexor of the message. */
  predicate Selected(m: Message, v: View) {
    if v.fields.kind == Multiplexed
    then v.selector.Some? && v.selector.value.kind == Multiplexor && v.selector.value in SaidBy(m)
    else v.selector == None
  }

  /** `dbc` has a message for each BO line and no other, and each is as its lines spell it. */
  ghost predicate DbcSpells(dbc: Dbc, lines: seq<DbcFile.Line>) {
    && (forall a | a in dbc :: exists j: nat :: j < |lines| && lines[j].BO? && MessageOfBO(dbc[a], a, lines, j))
    && forall j: nat | j < |lines| && lines[j].BO? :: exists a :: a in dbc && MessageOfBO(dbc[a], a, lines, j)
  }

  lemma SaysSpells(lines: seq<DbcFile.Line>, said: map<nat, DbcFile.Text>, dbc: Dbc)
    requires DbcFile.Faultless(lines, |lines|) && DbcFile.Tells(lines, |lines|, said) && DbcSays(dbc, said)
    ensures DbcSpells(dbc, lines)
  {
    forall a | a in dbc
      ensures said[a].line < |lines| && lines[said[a].line].BO? && MessageOfBO(dbc[a], a, lines, said[a].line)
    {
      assert DbcFile.TextAt(lines, |lines|, a, said[a]);
      DbcFile.UpdatedIsSpelled(lines, said[a].line, SaidBy(dbc[a]));
    }
  }

  /** The message is not as `parse` leaves it. */
  ghost predicate Unfinished(m: Msg, a: nat, t: DbcFile.Text)
    reads m, m.sigs
  {
    !DbcFile.Holds(m, a, t)
  }

  /** The message's value is not what was said, or not what the cache needs though its names are words. */
  ghost predicate Misread(m: Message, a: nat, t: DbcFile.Text) {
    !(MessageSays(m, a, t) && (Wordy(a, t) ==> MessageOK(m, a)))
  }

  lemma SnapshotReads(m: Msg, a: nat, t: DbcFile.Text)
    requires !Unfinished(m, a, t)
    ensures m.Linked() && !Misread(Snapshot(m), a, t)
  {
    SnapshotSays(m, a, t);
    if Wordy(a, t) {
      forall s | s in m.sigs ensures ColonFree(s.name) {
        var k := KeepsName(m, a, t, s);
      }
      SnapshotOK(m, a, t);
    }
  }

  /** The messages of a parsed file as values. */
  method Snapshots(msgs: map<nat, Msg>, ghost said: map<nat, DbcFile.Text>) returns (dbc: Dbc)
    requires msgs.Keys == said.Keys && forall a | a in msgs :: !Unfinished(msgs[a], a, said[a])
    ensures dbc.Keys == said.Keys && forall a | a in said :: !Misread(dbc[a], a, said[a])
  {
    forall a | a in said ensures msgs[a].Linked() && !Misread(Snapshot(msgs[a]), a, said[a]) {
      SnapshotReads(msgs[a], a, said[a]);
    }
    dbc := map a | a in msgs :: Snapshot(msgs[a]);
  }

  /** What was said at `a` and what was said at `b` have message name and signal name in common. */
  predicate Clash(said: map<nat, DbcFile.Text>, a: nat, b: nat, k: nat, l: nat) {
    && a in said && b in said && a != b && k < |said[a].fields| && l < |said[b].fields|
    && said[a].name == said[b].name && said[a].fields[k].name == said[b].fields[l].name
  }

  lemma TextsApartIff(lines: seq<DbcFile.Line>, said: map<nat, DbcFile.Text>)
    requires DbcFile.Tells(lines, |lines|, said)
    ensures SignalsDiffer(lines) <==> forall a, b, k: nat, l: nat :: !Clash(said, a, b, k, l)
  {
    if a, b, k: nat, l: nat :| Clash(said, a, b, k, l) {
      ClashInLines(lines, said, a, b, k, l);
    }
    if i, i', j, j' :| MixesUp(lines, i, i', j, j') {
      var a, k := SaidAt(lines, said, i, j);
      var b, l := SaidAt(lines, said, i', j');
      assert Clash(said, a, b, k, l);
    }
  }

  lemma ClashInLines(lines: seq<DbcFile.Line>, said: map<nat, DbcFile.Text>, a: nat, b: nat, k: nat, l: nat)
    requires DbcFile.Tells(lines, |lines|, said) && Clash(said, a, b, k, l)
    ensures !SignalsDiffer(lines)
  {
    assert DbcFile.TextAt(lines, |lines|, a, said[a]) && DbcFile.TextAt(lines, |lines|, b, said[b]);
    var i := DbcFile.NamedByLine(lines, said[a].line, |lines|, k);
    var i' := DbcFile.NamedByLine(lines, said[b].line, |lines|, l);
    assert MixesUp(lines, i, i', said[a].line, said[b].line);
  }

  lemma SaidAt(lines: seq<DbcFile.Line>, said: map<nat, DbcFile.Text>, i: nat, j: nat) returns (a: nat, k: nat)
    requires DbcFile.Tells(lines, |lines|, said) && i < |lines| && GivesSignal(lines, i, j)
    ensures a in said && said[a].line == j && said[a].name == lines[j].name
    ensures k < |said[a].fields| && said[a].fields[k].name == lines[i].name
  {
    a :| a in said && said[a].line == j;
    assert DbcFile.TextAt(lines, |lines|, a, said[a]);
    k := DbcFile.LineNames(lines, j, |lines|, i);
  }

  lemma SaidName(m: Message, a: nat, t: DbcFile.Text, k: nat) returns (l: nat)
    requires MessageSays(m, a, t) && k < |m.sigs|
    ensures l < |t.fields| && t.fields[l].name == m.sigs[k].fields.name
  {
    var has := DbcFile.SwitchIn(t.fields);
    assert SaidBy(m)[k] in multiset(SaidBy(m));
    assert SaidBy(m)[k] in multiset(DbcFile.UpdatedAll(t.fields, has));
    l :| l < |t.fields| && DbcFile.UpdatedAll(t.fields, has)[l] == SaidBy(m)[k];
  }

  lemma KeptName(m: Message, a: nat, t: DbcFile.Text, l: nat) returns (k: nat)
    requires MessageSays(m, a, t) && l < |t.fields|
    ensures k < |m.sigs| && t.fields[l].name == m.sigs[k].fields.name
  {
    var has := DbcFile.SwitchIn(t.fields);
    var fs := DbcFile.UpdatedAll(t.fields, has);
    assert fs[l] in multiset(fs);
    assert fs[l] in multiset(SaidBy(m));
    k :| k < |m.sigs| && SaidBy(m)[k] == fs[l];
  }

  /** The signals' keys clash exactly where what was said does. */
  lemma KeysApartIff(said: map<nat, DbcFile.Text>, dbc: Dbc)
    requires dbc.Keys == said.Keys && forall a | a in said :: MessageSays(dbc[a], a, said[a]) && MessageOK(dbc[a], a)
    ensures KeysApart(dbc) <==> forall a, b, k: nat, l: nat :: !Clash(said, a, b, k, l)
  {
    if a, b, k: nat, l: nat :| Clash(said, a, b, k, l) {
      var k' := KeptName(dbc[a], a, said[a], k);
      var l' := KeptName(dbc[b], b, said[b], l);
      assert KeyAt(dbc[a], k') == KeyAt(dbc[b], l');
    }
    if a, b, k: nat, l: nat
      :| a in dbc && b in dbc && a != b && k < |dbc[a].sigs| && l < |dbc[b].sigs| && KeyAt(dbc[a], k) == KeyAt(dbc[b], l) {
      KeyInjective(dbc[a].name, dbc[a].sigs[k].fields.name, dbc[b].name, dbc[b].sigs[l].fields.name);
      var k' := SaidName(dbc[a], a, said[a], k);
      var l' := SaidName(dbc[b], b, said[b], l);
      assert Clash(said, a, b, k', l');
    }
  }

  lemma FileReads(lines: seq<DbcFile.Line>, said: map<nat, DbcFile.Text>, dbc: Dbc)
    requires DbcFile.Tells(lines, |lines|, said) && dbc.Keys == said.Keys
    requires forall a | a in said :: !Misread(dbc[a], a, said[a])
    ensures DbcSays(dbc, said) && AddressesOK(dbc)
    ensures NamesAreWords(lines) ==>
      (forall a | a in dbc :: MessageOK(dbc[a], a)) && (KeysApart(dbc) <==> SignalsDiffer(lines))
  {
    forall a | a in said ensures a < ADDRESSES {
      assert DbcFile.TextAt(lines, |lines|, a, said[a]);
    }
    if NamesAreWords(lines) {
      TextsAreWordy(lines, said);
      KeysApartIff(said, dbc);
      TextsApartIff(lines, said);
    }
  }

  // ----- the cache -----

  datatype Cached = Cached(address: nat, view: View)

  type Cache = map<string, Cached>

  function KeyAt(m: Message, k: nat): string
    requires k < |m.sigs|
  {
    Key(m.name, m.sigs[k].fields.name)
  }

  function Lookup(c: Cache, key: string): Option<Cached> {
    if key in c then Some(c[key]) else None
  }

  /** One definition of a key. */
  datatype Def = Def(key: string, meant: Cached)

  function DefsOf(m: Message): (defs: seq<Def>)
    ensures |defs| == |m.sigs|
  {
    seq(|m.sigs|, k requires 0 <= k < |m.sigs| => Def(KeyAt(m, k), Cached(m.address, m.sigs[k])))
  }

  /** The last definition of a key. */
  function LastIn(defs: seq<Def>, key: string): Option<Cached> {
    if defs == [] then None
    else if defs[|defs| - 1].key == key then Some(defs[|defs| - 1].meant)
    else LastIn(defs[..|defs| - 1], key)
  }

  function Over(later: Option<Cached>, earlier: Option<Cached>): Option<Cached> {
    if later.Some? then later else earlier
  }

  lemma {:induction false} LastInConcat(a: seq<Def>, b: seq<Def>, key: string)
    ensures LastIn(a + b, key) == Over(LastIn(b, key), LastIn(a, key))
  {
    if b == [] {
      assert a + b == a;
    } else {
      assert (a + b)[..|a + b| - 1] == a + b[..|b| - 1];
      LastInConcat(a, b[..|b| - 1], key);
    }
  }

  /** `LastIn` is a definition of the key, if there is one. */
  lemma {:induction false} LastInDefines(defs: seq<Def>, key: string)
    ensures LastIn(defs, key) == None <==> forall d | d in defs :: d.key != key
    ensures LastIn(defs, key).Some? ==> Def(key, LastIn(defs, key).value) in defs
  {
    if defs != [] {
      var n := |defs| - 1;
      LastInDefines(defs[..n], key);
      assert defs == defs[..n] + [defs[n]];
    }
  }

  lemma SomeMember(s: set<int>)
    ensures s == {} || exists x :: x in s
  {
    if forall x: int :: x !in s {
      assert s == {};
    }
  }

  predicate IsLeast(s: set<int>, x: int) {
    x in s && forall y | y in s :: x <= y
  }

  lemma HasLeast(s: set<int>)
    requires s != {}
    ensures exists x :: IsLeast(s, x)
  {
    SomeMember(s);
    var x :| x in s;
    var rest := s - {x};
    if rest == {} {
      assert s == {x};
      assert IsLeast(s, x);
    } else {
      HasLeast(rest);
      var y :| IsLeast(rest, y);
      assert forall z | z in s :: z == x || z in rest;
      assert IsLeast(s, if x < y then x else y);
    }
  }

  ghost function Least(s: set<int>): (x: int)
    requires s != {}
    ensures IsLeast(s, x)
  {
    HasLeast(s);
    var x :| IsLeast(s, x);
    x
  }

  /** The definitions of a file's messages at `todo`, in ascending order of address. */
  ghost function DefsFrom(dbc: Dbc, todo: set<nat>): seq<Def>
    requires todo <= dbc.Keys
  {
    if todo == {} then [] else DefsOf(dbc[Least(todo)]) + DefsFrom(dbc, todo - {Least(todo)})
  }

  /** The definitions of the files of the buses at `todo` with number `i` mod 4, in ascending order of bus. */
  ghost function DefsOfBuses(dbcs: map<int, Dbc>, i: int, todo: set<int>): seq<Def>
    requires todo <= dbcs.Keys
  {
    if todo == {} then []
    else
      var b := Least(todo);
      (if Masked(b) == i then DefsFrom(dbcs[b], dbcs[b].Keys) else []) + DefsOfBuses(dbcs, i, todo - {b})
  }

  ghost function Visited(dbcs: map<int, Dbc>, i: int): seq<Def> {
    DefsOfBuses(dbcs, i, dbcs.Keys)
  }

  lemma NextMessage(dbc: Dbc, todo: set<nat>, a: nat, key: string)
    requires todo <= dbc.Keys && IsLeast(todo, a)
    ensures LastIn(DefsFrom(dbc, todo), key) == Over(LastIn(DefsFrom(dbc, todo - {a}), key), LastIn(DefsOf(dbc[a]), key))
  {
    assert a == Least(todo);
    LastInConcat(DefsOf(dbc[a]), DefsFrom(dbc, todo - {a}), key);
  }

  lemma NextBus(dbcs: map<int, Dbc>, i: int, todo: set<int>, b: int, key: string)
    requires todo <= dbcs.Keys && IsLeast(todo, b)
    ensures LastIn(DefsOfBuses(dbcs, i, todo), key) ==
              Over(LastIn(DefsOfBuses(dbcs, i, todo - {b}), key),
                   if Masked(b) == i then LastIn(DefsFrom(dbcs[b], dbcs[b].Keys), key) else None)
  {
    assert b == Least(todo);
    LastInConcat(if Masked(b) == i then DefsFrom(dbcs[b], dbcs[b].Keys) else [], DefsOfBuses(dbcs, i, todo - {b}), key);
  }

  /** The innermost loop of `buildCache`. */
  method CacheMessage(c: Cache, m: Message) returns (r: Cache)
    ensures forall key :: Lookup(r, key) == Over(LastIn(DefsOf(m), key), Lookup(c, key))
  {
    r := c;
    for n := 0 to |m.sigs|
      invariant forall key :: Lookup(r, key) == Over(LastIn(DefsOf(m)[..n], key), Lookup(c, key))
    {
      assert DefsOf(m)[..n + 1][..n] == DefsOf(m)[..n];
      r := r[KeyAt(m, n) := Cached(m.address, m.sigs[n])];
    }
    assert DefsOf(m)[..|m.sigs|] == DefsOf(m);
  }

  /** The loop of `buildCache` over the messages of one file. */
  method CacheFile(c: Cache, dbc: Dbc) returns (r: Cache)
    ensures forall key :: Lookup(r, key) == Over(LastIn(DefsFrom(dbc, dbc.Keys), key), Lookup(c, key))
  {
    r := c;
    var todo := dbc.Keys;
    while todo != {}
      invariant todo <= dbc.Keys
      invariant forall key ::
        Over(LastIn(DefsFrom(dbc, todo), key), Lookup(r, key)) == Over(LastIn(DefsFrom(dbc, dbc.Keys), key), Lookup(c, key))
      decreases |todo|
    {
      HasLeast(todo);
      var a :| a in todo && IsLeast(todo, a);
      forall key {
        NextMessage(dbc, todo, a, key);
      }
      r := CacheMessage(r, dbc[a]);
      todo := todo - {a};
    }
  }

  /** What the cache must answer for a signal: of the messages of that name on buses of that number mod 4 that
      have a signal of that name, the one on the highest bus, and there the one at the highest address. */
  ghost function Meaning(dbcs: map<int, Dbc>, bus: int, msgName: string, sigName: string): Option<Cached> {
    LastIn(Visited(dbcs, Masked(bus)), Key(msgName, sigName))
  }

  ghost predicate Given(dbcs: map<int, Dbc>, i: int, b: int, a: nat, k: nat, d: Def) {
    b in dbcs && Masked(b) == i && a in dbcs[b] && k < |dbcs[b][a].sigs| && DefsOf(dbcs[b][a])[k] == d
  }

  lemma {:induction false} FileGives(dbc: Dbc, todo: set<nat>, d: Def)
    requires todo <= dbc.Keys
    ensures d in DefsFrom(dbc, todo) <==> exists a: nat, k: nat :: a in todo && k < |dbc[a].sigs| && DefsOf(dbc[a])[k] == d
  {
    if todo != {} {
      var l := Least(todo);
      FileGives(dbc, todo - {l}, d);
      if a: nat, k: nat :| a in todo && k < |dbc[a].sigs| && DefsOf(dbc[a])[k] == d {
        assert a == l || a in todo - {l};
      }
    }
  }

  lemma {:induction false} BusesGive(dbcs: map<int, Dbc>, i: int, todo: set<int>, d: Def)
    requires todo <= dbcs.Keys
    ensures d in DefsOfBuses(dbcs, i, todo) <==> exists b, a: nat, k: nat :: b in todo && Given(dbcs, i, b, a, k, d)
  {
    if todo != {} {
      var l := Least(todo);
      BusesGive(dbcs, i, todo - {l}, d);
      FileGives(dbcs[l], dbcs[l].Keys, d);
      if a: nat, k: nat :| a in dbcs[l] && k < |dbcs[l][a].sigs| && DefsOf(dbcs[l][a])[k] == d && Masked(l) == i {
        assert Given(dbcs, i, l, a, k, d);
      }
      if b, a: nat, k: nat :| b in todo && Given(dbcs, i, b, a, k, d) {
        assert b == l || b in todo - {l};
      }
    }
  }

  /** Among what `buildCache` visits for a bus is exactly what the files define. */
  lemma VisitedIff(dbcs: map<int, Dbc>, bus: int, msgName: string, sigName: string, address: nat, view: View)
    requires FilesOK(dbcs)
    ensures Def(Key(msgName, sigName), Cached(address, view)) in Visited(dbcs, Masked(bus)) <==>
              Defined(dbcs, bus, msgName, sigName, address, view)
  {
    var d := Def(Key(msgName, sigName), Cached(address, view));
    BusesGive(dbcs, Masked(bus), dbcs.Keys, d);
    if b, a: nat, k: nat :| b in dbcs.Keys && Given(dbcs, Masked(bus), b, a, k, d) {
      GivenIsDefined(dbcs, bus, b, a, k, msgName, sigName, address, view);
    }
    if Defined(dbcs, bus, msgName, sigName, address, view) {
      var b, a, k := DefinedIsGiven(dbcs, bus, msgName, sigName, address, view);
    }
  }

  lemma DefinedIsGiven(dbcs: map<int, Dbc>, bus: int, msgName: string, sigName: string, address: nat, view: View)
    returns (b: int, a: nat, k: nat)
    requires Defined(dbcs, bus, msgName, sigName, address, view)
    ensures b in dbcs.Keys && Given(dbcs, Masked(bus), b, a, k, Def(Key(msgName, sigName), Cached(address, view)))
  {
    b :| b in dbcs && b % 4 == bus % 4 && Defines(dbcs[b], msgName, sigName, address, view);
    a, k :| a in dbcs[b] && k < |dbcs[b][a].sigs| && IsAt(dbcs[b][a], k, msgName, sigName, address, view);
  }

  lemma GivenIsDefined(dbcs: map<int, Dbc>, bus: int, b: int, a: nat, k: nat, msgName: string, sigName: string,
                       address: nat, view: View)
    requires FilesOK(dbcs) && Given(dbcs, Masked(bus), b, a, k, Def(Key(msgName, sigName), Cached(address, view)))
    ensures Defined(dbcs, bus, msgName, sigName, address, view)
  {
    var m := dbcs[b][a];
    KeyInjective(m.name, m.sigs[k].fields.name, msgName, sigName);
    assert IsAt(dbcs[b][a], k, msgName, sigName, address, view);
    assert Defines(dbcs[b], msgName, sigName, address, view);
  }

  /** The two names have at most one definition on the bus. */
  ghost predicate Alone(dbcs: map<int, Dbc>, bus: int, msgName: string, sigName: string) {
    forall address, view, address', view'
      | Defined(dbcs, bus, msgName, sigName, address, view) && Defined(dbcs, bus, msgName, sigName, address', view') ::
      address == address' && view == view'
  }

  /** The cache's answer for two names is right: it is what the files define. */
  ghost predicate Exact(dbcs: map<int, Dbc>, bus: int, msgName: string, sigName: string) {
    forall address, view ::
      Defined(dbcs, bus, msgName, sigName, address, view) <==>
      Meaning(dbcs, bus, msgName, sigName) == Some(Cached(address, view))
  }

  /** The cache's answer is always one of the definitions, and right if and only if there is no other. */
  lemma ExactIffAlone(dbcs: map<int, Dbc>, bus: int, msgName: string, sigName: string)
    requires FilesOK(dbcs)
    ensures Exact(dbcs, bus, msgName, sigName) <==> Alone(dbcs, bus, msgName, sigName)
    ensures var m := Meaning(dbcs, bus, msgName, sigName);
      if m.Some? then Defined(dbcs, bus, msgName, sigName, m.value.address, m.value.view)
      else forall address, view :: !Defined(dbcs, bus, msgName, sigName, address, view)
  {
    var defs, key, m := Visited(dbcs, Masked(bus)), Key(msgName, sigName), Meaning(dbcs, bus, msgName, sigName);
    LastInDefines(defs, key);
    if m.Some? {
      VisitedIff(dbcs, bus, msgName, sigName, m.value.address, m.value.view);
      assert m.value == Cached(m.value.address, m.value.view);
    } else {
      forall address, view ensures !Defined(dbcs, bus, msgName, sigName, address, view) {
        VisitedIff(dbcs, bus, msgName, sigName, address, view);
      }
    }
  }

  /** For a file that shares its bus number mod 4 with no other: the cache is right for all names if and only if
      no two messages of the file have message name and signal name in common. */
  lemma FileExactIff(dbcs: map<int, Dbc>, bus: int)
    requires FilesOK(dbcs) && bus in dbcs && forall b | b in dbcs && b != bus :: b % 4 != bus % 4
    ensures (forall msgName, sigName :: Exact(dbcs, bus, msgName, sigName)) <==> KeysApart(dbcs[bus])
  {
    var dbc := dbcs[bus];
    if KeysApart(dbc) {
      forall msgName, sigName ensures Exact(dbcs, bus, msgName, sigName) {
        ApartIsAlone(dbcs, bus, msgName, sigName);
        ExactIffAlone(dbcs, bus, msgName, sigName);
      }
    } else {
      var a, b, k: nat, l: nat :| a in dbc && b in dbc && a != b && k < |dbc[a].sigs| && l < |dbc[b].sigs|
                                  && KeyAt(dbc[a], k) == KeyAt(dbc[b], l);
      var m, n := dbc[a].name, dbc[a].sigs[k].fields.name;
      KeyInjective(m, n, dbc[b].name, dbc[b].sigs[l].fields.name);
      DefinedHere(dbcs, bus, a, k);
      DefinedHere(dbcs, bus, b, l);
      ExactIffAlone(dbcs, bus, m, n);
      assert !Exact(dbcs, bus, m, n);
    }
  }

  lemma DefinedHere(dbcs: map<int, Dbc>, bus: int, a: nat, k: nat)
    requires bus in dbcs && a in dbcs[bus] && dbcs[bus][a].address == a && k < |dbcs[bus][a].sigs|
    ensures var m := dbcs[bus][a]; Defined(dbcs, bus, m.name, m.sigs[k].fields.name, a, m.sigs[k])
  {
    var m := dbcs[bus][a];
    assert IsAt(dbcs[bus][a], k, m.name, m.sigs[k].fields.name, a, m.sigs[k]);
    assert Defines(dbcs[bus], m.name, m.sigs[k].fields.name, a, m.sigs[k]);
  }

  lemma ApartIsAlone(dbcs: map<int, Dbc>, bus: int, msgName: string, sigName: string)
    requires FilesOK(dbcs) && bus in dbcs && (forall b | b in dbcs && b != bus :: b % 4 != bus % 4)
    requires KeysApart(dbcs[bus])
    ensures Alone(dbcs, bus, msgName, sigName)
  {
    var dbc := dbcs[bus];
    forall address, view, address', view'
      | Defines(dbc, msgName, sigName, address, view) && Defines(dbc, msgName, sigName, address', view')
      ensures address == address' && view == view'
    {
      var a, k: nat :| a in dbc && k < |dbc[a].sigs| && IsAt(dbc[a], k, msgName, sigName, address, view);
      var b, l: nat :| b in dbc && l < |dbc[b].sigs| && IsAt(dbc[b], l, msgName, sigName, address', view');
      assert KeyAt(dbc[a], k) == KeyAt(dbc[b], l);
    }
  }

  /** If a signal's definition is the only one for its names, it is what they mean. */
  lemma MeansDefinition(dbcs: map<int, Dbc>, bus: int, msgName: string, sigName: string, address: nat, view: View)
    requires FilesOK(dbcs) && Defined(dbcs, bus, msgName, sigName, address, view) && Alone(dbcs, bus, msgName, sigName)
    ensures Meaning(dbcs, bus, msgName, sigName) == Some(Cached(address, view))
  {
    ExactIffAlone(dbcs, bus, msgName, sigName);
  }

  /** The view of SG line `i` under BO line `j`: as the line says, and selected by the message's `M` line if the line
      gives a number and there is one. */
  ghost predicate ViewOfLine(lines: seq<DbcFile.Line>, i: nat, j: nat, v: View)
    requires i < |lines|
  {
    && DbcFile.IsOfLine(v.fields, lines[i], DbcFile.SaysM(lines, j))
    && if lines[i].indicator.Numbered? && DbcFile.SaysM(lines, j)
       then v.selector.Some? && exists l: nat :: DbcFile.Under(lines, l, j) && lines[l].indicator == DbcFile.Switch
                                                 && DbcFile.IsOfLine(v.selector.value, lines[l], true)
       else v.selector == None
  }

  lemma SelectorOfLine(lines: seq<DbcFile.Line>, m: Message, a: nat, i: nat, j: nat, k: nat)
    requires DbcFile.Under(lines, i, j) && MessageOfBO(m, a, lines, j) && k < |m.sigs|
    requires DbcFile.IsOfLine(m.sigs[k].fields, lines[i], DbcFile.SaysM(lines, j))
    ensures ViewOfLine(lines, i, j, m.sigs[k])
  {
    var v, hasM := m.sigs[k], DbcFile.SaysM(lines, j);
    assert Selected(m, v);
    if lines[i].indicator.Numbered? && hasM {
      assert DbcFile.HasSource(v.selector.value, lines, j, hasM);
      var l: nat :| DbcFile.Under(lines, l, j) && DbcFile.IsOfLine(v.selector.value, lines[l], hasM);
      assert lines[l].indicator == DbcFile.Switch;
    }
  }

  /** From a file's lines to the cache: two names of a BO line and an SG line under it mean the signal that the SG line
      spells, at the BO line's address, if no other SG line spells that name under that BO name. */
  lemma LineMeans(dbcs: map<int, Dbc>, bus: int, lines: seq<DbcFile.Line>, i: nat, j: nat) returns (v: View)
    requires FilesOK(dbcs) && bus in dbcs && forall b | b in dbcs && b != bus :: b % 4 != bus % 4
    requires DbcSpells(dbcs[bus], lines) && KeysApart(dbcs[bus]) && DbcFile.Under(lines, i, j)
    ensures lines[j].address.Some? && ViewOfLine(lines, i, j, v)
    ensures Meaning(dbcs, bus, lines[j].name, lines[i].name) ==
              Some(Cached(lines[j].address.value % 0x1_0000_0000, v))
  {
    var dbc, hasM := dbcs[bus], DbcFile.SaysM(lines, j);
    var a :| a in dbc && MessageOfBO(dbc[a], a, lines, j);
    var m := dbc[a];
    assert DbcFile.HasLine(SaidBy(m), lines, i, hasM);
    var k :| 0 <= k < |SaidBy(m)| && DbcFile.IsOfLine(SaidBy(m)[k], lines[i], hasM);
    v := m.sigs[k];
    SelectorOfLine(lines, m, a, i, j, k);
    DefinedHere(dbcs, bus, a, k);
    ApartIsAlone(dbcs, bus, m.name, v.fields.name);
    MeansDefinition(dbcs, bus, m.name, v.fields.name, a, v);
  }

  // ----- the answers -----

  /** What `get` must answer for a signal, given the last frame of its message. */
  function Reading(view: View, frame: Option<seq<byte>>): real
  {
    if frame.Some? && Carries(view, frame.value) then Physical(view.fields, frame.value) else 0.0
  }

  /** What decoding the frame takes is defined in the source. */
  predicate Decodes(view: View, frame: Option<seq<byte>>) {
    frame.Some? ==>
      && (view.selector.Some? ==> Meaningful(view.selector.value, frame.value))
      && (Carries(view, frame.value) ==> Meaningful(view.fields, frame.value))
  }

  /** What `getRaw` must answer. */
  function RawReading(view: View, frame: Option<seq<byte>>): Option<nat>
  {
    if frame.Some? && Carries(view, frame.value) then Some(RawBits(frame.value, view.fields.place) % TWO64) else None
  }

  /** The address of the message that two names lead to. */
  ghost function AddressOf(dbcs: map<int, Dbc>, bus: int, msgName: string, sigName: string): nat {
    var m := Meaning(dbcs, bus, msgName, sigName);
    if m.Some? then m.value.address else 0
  }

  /** What `get` answers while `frame` is the last one of the signal's message. */
  ghost function Answer(dbcs: map<int, Dbc>, bus: int, msgName: string, sigName: string, frame: Option<seq<byte>>): real {
    var m := Meaning(dbcs, bus, msgName, sigName);
    if m.Some? then Reading(m.value.view, frame) else 0.0
  }

  /** What `getRaw` answers. */
  ghost function RawAnswer(dbcs: map<int, Dbc>, bus: int, msgName: string, sigName: string, frame: Option<seq<byte>>)
    : Option<nat>
  {
    var m := Meaning(dbcs, bus, msgName, sigName);
    if m.Some? then RawReading(m.value.view, frame) else None
  }

  /** The lookup both getters start with. */
  function CachedIn(cache: map<nat, Cache>, bus: int, msgName: string, sigName: string): Option<Cached> {
    if Masked(bus) in cache && Key(msgName, sigName) in cache[Masked(bus)]
    then Some(cache[Masked(bus)][Key(msgName, sigName)])
    else None
  }

  function FrameIn(frames: map<nat, seq<byte>>, bus: int, address: nat): Option<seq<byte>> {
    var key := FrameKey(Masked(bus), address);
    if key in frames then Some(frames[key]) else None
  }

  /** `get`: cache, then frame store, then `getValue`. */
  function GetIn(cache: map<nat, Cache>, frames: map<nat, seq<byte>>, bus: int, msgName: string, sigName: string): real {
    var c := CachedIn(cache, bus, msgName, sigName);
    if c.Some? then Reading(c.value.view, FrameIn(frames, bus, c.value.address)) else 0.0
  }

  /** `getRaw`. */
  function GetRawIn(cache: map<nat, Cache>, frames: map<nat, seq<byte>>, bus: int, msgName: string, sigName: string)
    : Option<nat>
  {
    var c := CachedIn(cache, bus, msgName, sigName);
    if c.Some? then RawReading(c.value.view, FrameIn(frames, bus, c.value.address)) else None
  }

  /** Frame `i` is the last one from a bus of this number mod 4 with this address. */
  ghost predicate LastFrom(seen: seq<Frame>, bus: int, address: nat, i: nat) {
    && i < |seen| && seen[i].bus % 4 == bus % 4 && seen[i].address == address
    && forall j | i < j < |seen| :: seen[j].bus % 4 != bus % 4 || seen[j].address != address
  }

  lemma {:induction false} LastFromGives(seen: seq<Frame>, bus: int, address: nat, i: nat)
    requires LastFrom(seen, bus, address, i)
    ensures LastFrame(seen, bus, address) == Some(seen[i].data)
  {
    var n := |seen| - 1;
    if i < n {
      assert seen[n].bus % 4 != bus % 4 || seen[n].address != address;
      LastFromGives(seen[..n], bus, address, i);
    }
  }

  lemma LastFromOrNone(seen: seq<Frame>, bus: int, address: nat)
    ensures forall i: nat | LastFrom(seen, bus, address, i) :: LastFrame(seen, bus, address) == Some(seen[i].data)
    ensures (forall i: nat :: !LastFrom(seen, bus, address, i)) ==> LastFrame(seen, bus, address) == None
  {
    forall i: nat | LastFrom(seen, bus, address, i) ensures LastFrame(seen, bus, address) == Some(seen[i].data) {
      LastFromGives(seen, bus, address, i);
    }
    LastFrameIsLast(seen, bus, address);
    if LastFrame(seen, bus, address).Some? {
      var i :| 0 <= i < |seen| && seen[i].bus % 4 == bus % 4 && seen[i].address == address
               && forall j | i < j < |seen| :: !(seen[j].bus % 4 == bus % 4 && seen[j].address == address);
      assert LastFrom(seen, bus, address, i);
    }
  }

  class Parsers {
    var busDbcFiles: map<int, Dbc>
    var latestFrames: map<nat, seq<byte>>
    var busSignalCache: map<nat, Cache>
    /** Every frame given to `updateFrame`. */
    ghost var seen: seq<Frame>

    ghost predicate Valid()
      reads this
    {
      StoreOK(latestFrames, seen) && forall b | b in busDbcFiles :: AddressesOK(busDbcFiles[b])
    }

    /** The cache was built from the files. */
    ghost predicate Built()
      reads this
    {
      Valid() && forall i: int, key :: Lookup(CacheAt(i), key) == LastIn(Visited(busDbcFiles, i), key)
    }

    function CacheAt(i: int): Cache
      reads this
    {
      if i in busSignalCache then busSignalCache[i] else map[]
    }

    constructor ()
      ensures Valid() && seen == [] && busDbcFiles == map[]
    {
      busDbcFiles, latestFrames, busSignalCache, seen := map[], map[], map[], [];
    }

    /** `addBus`: a file with a fault is not added; one without gives what its lines say. Its names being words,
        its signals have different keys if and only if no two messages of one name have a signal name in common. */
    method AddBus(bus: int, lines: seq<DbcFile.Line>) returns (r: DbcFile.Outcome, ghost said: map<nat, DbcFile.Text>)
      requires Valid()
      modifies this`busDbcFiles
      ensures Valid() && (r.Parsed? <==> DbcFile.Faultless(lines, |lines|))
      ensures r.Failed? ==> busDbcFiles == old(busDbcFiles)
      ensures r.Parsed? ==>
        && bus in busDbcFiles && busDbcFiles == old(busDbcFiles)[bus := busDbcFiles[bus]]
        && DbcFile.Tells(lines, |lines|, said) && DbcSays(busDbcFiles[bus], said) && DbcSpells(busDbcFiles[bus], lines)
      ensures r.Parsed? && NamesAreWords(lines) ==>
        && (forall a | a in busDbcFiles[bus] :: MessageOK(busDbcFiles[bus][a], a))
        && (KeysApart(busDbcFiles[bus]) <==> SignalsDiffer(lines))
    {
      var file := new DbcFile.File();
      r, said := file.Parse(lines);
      if r.Parsed? {
        var dbc := Snapshots(file.msgs, said);
        FileReads(lines, said, dbc);
        SaysSpells(lines, said, dbc);
        busDbcFiles := busDbcFiles[bus := dbc];
      }
    }

    /** The loop's state: what the files of the buses in `todo` still add would complete each cache. */
    ghost predicate BuiltExcept(todo: set<int>)
      requires todo <= busDbcFiles.Keys
      reads this
    {
      forall i: int, key ::
        Over(LastIn(DefsOfBuses(busDbcFiles, i, todo), key), Lookup(CacheAt(i), key)) == LastIn(Visited(busDbcFiles, i), key)
    }

    /** One bus. */
    method CacheNext(b: int, ghost todo: set<int>)
      requires todo <= busDbcFiles.Keys && IsLeast(todo, b) && BuiltExcept(todo)
      modifies this`busSignalCache
      ensures BuiltExcept(todo - {b})
    {
      var c := CacheFile(CacheAt(Masked(b)), busDbcFiles[b]);
      busSignalCache := busSignalCache[Masked(b) := c];
      forall i: int, key
        ensures Over(LastIn(DefsOfBuses(busDbcFiles, i, todo - {b}), key), Lookup(CacheAt(i), key)) ==
                  LastIn(Visited(busDbcFiles, i), key)
      {
        NextBus(busDbcFiles, i, todo, b, key);
        assert CacheAt(i) == if i == Masked(b) then c else old(CacheAt(i));
        assert old(Over(LastIn(DefsOfBuses(busDbcFiles, i, todo), key), Lookup(CacheAt(i), key))) ==
                 LastIn(Visited(busDbcFiles, i), key);
      }
    }

    /** `buildCache`, for any files on any buses. */
    method BuildCache()
      requires Valid()
      modifies this`busSignalCache
      ensures Built()
    {
      busSignalCache := map[];
      var todo := busDbcFiles.Keys;
      while todo != {}
        invariant todo <= busDbcFiles.Keys && BuiltExcept(todo)
        decreases |todo|
      {
        HasLeast(todo);
        var b :| b in todo && IsLeast(todo, b);
        CacheNext(b, todo);
        todo := todo - {b};
      }
    }

    /** `updateFrame`: it changes the answers about signals of the message at its address on buses of its number mod 4,
        which now come from this frame, and no others. */
    method UpdateFrame(bus: int, address: nat, data: seq<byte>)
      requires Valid() && address < ADDRESSES
      modifies this`latestFrames, this`seen
      ensures Valid() && seen == old(seen) + [Frame(bus, address, data)]
      ensures old(Built()) ==> Built() && forall asked: int, m, s ::
                AnsweredAfter(asked, m, s, Frame(bus, address, data), old(Get(asked, m, s)), old(GetRaw(asked, m, s)))
    {
      ghost var built := Built();
      if built {
        forall asked: int, m, s {
          Answers(asked, m, s);
        }
      }
      label before:
      StoreGrows(latestFrames, seen, Frame(bus, address, data));
      latestFrames := latestFrames[FrameKey(bus, address) := data];
      seen := seen + [Frame(bus, address, data)];
      if built {
        assert Built();
        forall asked: int, m, s
          ensures AnsweredAfter(asked, m, s, Frame(bus, address, data), old(Get(asked, m, s)), old(GetRaw(asked, m, s)))
        {
          Answers(asked, m, s);
        }
      }
    }

    /** The answers about two names after one frame more, given those before. */
    ghost predicate AnsweredAfter(asked: int, msgName: string, sigName: string, f: Frame, was: real, wasRaw: Option<nat>)
      reads this
    {
      var d := Meaning(busDbcFiles, asked, msgName, sigName);
      if d.Some? && f.bus % 4 == asked % 4 && f.address == d.value.address then
        && Get(asked, msgName, sigName) == Reading(d.value.view, Some(f.data))
        && GetRaw(asked, msgName, sigName) == RawReading(d.value.view, Some(f.data))
      else
        Get(asked, msgName, sigName) == was && GetRaw(asked, msgName, sigName) == wasRaw
    }

    function Get(bus: int, msgName: string, sigName: string): real
      reads this
    {
      GetIn(busSignalCache, latestFrames, bus, msgName, sigName)
    }

    function GetRaw(bus: int, msgName: string, sigName: string): Option<nat>
      reads this
    {
      GetRawIn(busSignalCache, latestFrames, bus, msgName, sigName)
    }

    lemma LookupMeans(bus: int, msgName: string, sigName: string)
      requires Built()
      ensures CachedIn(busSignalCache, bus, msgName, sigName) == Meaning(busDbcFiles, bus, msgName, sigName)
    {
      assert Lookup(CacheAt(Masked(bus)), Key(msgName, sigName)) == CachedIn(busSignalCache, bus, msgName, sigName);
    }

    /** What names mean has an address of 32 bits. */
    lemma MeantInRange(bus: int, msgName: string, sigName: string)
      requires Built() && Meaning(busDbcFiles, bus, msgName, sigName).Some?
      ensures AddressOf(busDbcFiles, bus, msgName, sigName) < ADDRESSES
    {
      var i, key := Masked(bus), Key(msgName, sigName);
      LastInDefines(Visited(busDbcFiles, i), key);
      var d := Def(key, Meaning(busDbcFiles, bus, msgName, sigName).value);
      BusesGive(busDbcFiles, i, busDbcFiles.Keys, d);
      var b, a: nat, k: nat :| b in busDbcFiles.Keys && Given(busDbcFiles, i, b, a, k, d);
      assert AddressesOK(busDbcFiles[b]);
    }

    lemma StoredIsLast(bus: int, address: nat)
      requires Valid() && address < ADDRESSES
      ensures FrameIn(latestFrames, bus, address) == LastFrame(seen, bus, address)
    {
    }

    /** The last frame of the message that two names lead to. */
    ghost function Latest(bus: int, msgName: string, sigName: string): Option<seq<byte>>
      reads this
    {
      LastFrame(seen, bus, AddressOf(busDbcFiles, bus, msgName, sigName))
    }

    /** Whatever the files and whatever frames came, the answers depend on nothing but what the names mean in the
        files and the last frame of that message. */
    lemma Answers(bus: int, msgName: string, sigName: string)
      requires Built()
      ensures Get(bus, msgName, sigName) == Answer(busDbcFiles, bus, msgName, sigName, Latest(bus, msgName, sigName))
      ensures GetRaw(bus, msgName, sigName) == RawAnswer(busDbcFiles, bus, msgName, sigName, Latest(bus, msgName, sigName))
    {
      LookupMeans(bus, msgName, sigName);
      if Meaning(busDbcFiles, bus, msgName, sigName).Some? {
        MeantInRange(bus, msgName, sigName);
        StoredIsLast(bus, AddressOf(busDbcFiles, bus, msgName, sigName));
      }
    }

    /** Whatever frames came, in whatever order, `get` and `getRaw` answer for a signal that is alone under its
        names what decoding the last frame with its address on that bus gives, if the source gives
        that decoding a meaning; before the first such frame they answer 0 and false. */
    lemma AnswersForDefined(bus: int, msgName: string, sigName: string, address: nat, view: View)
      requires Built() && FilesOK(busDbcFiles) && Defined(busDbcFiles, bus, msgName, sigName, address, view)
      requires Alone(busDbcFiles, bus, msgName, sigName) && Decodes(view, LastFrame(seen, bus, address))
      ensures forall i: nat | LastFrom(seen, bus, address, i) ::
                && Get(bus, msgName, sigName) == Reading(view, Some(seen[i].data))
                && GetRaw(bus, msgName, sigName) == RawReading(view, Some(seen[i].data))
      ensures (forall i: nat :: !LastFrom(seen, bus, address, i)) ==>
                Get(bus, msgName, sigName) == 0.0 && GetRaw(bus, msgName, sigName) == None
    {
      MeansDefinition(busDbcFiles, bus, msgName, sigName, address, view);
      Answers(bus, msgName, sigName);
      LastFromOrNone(seen, bus, address);
    }

    /** For any pair of names that define nothing, with colons or not, they answer 0 and false. */
    lemma AnswersForUnknown(bus: int, msgName: string, sigName: string)
      requires Built() && FilesOK(busDbcFiles)
      requires forall address, view :: !Defined(busDbcFiles, bus, msgName, sigName, address, view)
      ensures Get(bus, msgName, sigName) == 0.0 && GetRaw(bus, msgName, sigName) == None
    {
      ExactIffAlone(busDbcFiles, bus, msgName, sigName);
      Answers(bus, msgName, sigName);
    }
  }

  /** `LastFrame` is what its name says. */
  lemma {:induction false} LastFrameIsLast(seen: seq<Frame>, bus: int, address: nat)
    ensures LastFrame(seen, bus, address) == None <==>
              forall i | 0 <= i < |seen| :: !(seen[i].bus % 4 == bus % 4 && seen[i].address == address)
    ensures LastFrame(seen, bus, address).Some? ==>
              exists i :: 0 <= i < |seen| && seen[i].bus % 4 == bus % 4 && seen[i].address == address
                          && seen[i].data == LastFrame(seen, bus, address).value
                          && forall j | i < j < |seen| :: !(seen[j].bus % 4 == bus % 4 && seen[j].address == address)
  {
    if seen != [] {
      var n := |seen| - 1;
      LastFrameIsLast(seen[..n], bus, address);
      if Matches(seen[n], bus, address) {
        assert LastFrame(seen, bus, address) == Some(seen[n].data);
      } else if LastFrame(seen, bus, address).Some? {
        var i :| 0 <= i < n && Matches(seen[..n][i], bus, address) && seen[..n][i].data == LastFrame(seen, bus, address).value
                 && forall j | i < j < n :: !Matches(seen[..n][j], bus, address);
        assert Matches(seen[i], bus, address);
        assert forall j | i < j < |seen| :: !Matches(seen[j], bus, address) by {
          assert forall j | i < j < n :: seen[..n][j] == seen[j];
        }
      }
    }
  }

  // ----- an input -----

  /** An eight-bit signal `S` in byte `i`. */
  function ByteLine(i: nat): DbcFile.Line {
    DbcFile.SG("S", DbcFile.Plain, Some(DbcFile.Numbers(Layout(8 * i, 8, true), false, 1.0, 0.0)), "")
  }

  function ByteFields(i: nat): Fields {
    Updated(DbcFile.SignalOf(ByteLine(i)), false)
  }

  function BoLine(address: nat): DbcFile.Line {
    DbcFile.BO(Some(address), "M", Some(8), "")
  }

  /** Two messages named `M`, each with a signal named `S`. */
  function SameNames(): seq<DbcFile.Line> {
    [BoLine(1), ByteLine(0), BoLine(2), ByteLine(1)]
  }

  lemma SameNamesGiven()
    ensures DbcFile.SignalsOf(SameNames(), 0, 4) == [DbcFile.SignalOf(ByteLine(0))]
    ensures DbcFile.SignalsOf(SameNames(), 2, 4) == [DbcFile.SignalOf(ByteLine(1))]
  {
    var lines := SameNames();
    assert DbcFile.Governor(lines, 1) == 0 && DbcFile.Governor(lines, 2) == 0 && DbcFile.Governor(lines, 3) == 2;
    assert DbcFile.SignalsOf(lines, 0, 1) == [] && DbcFile.SignalsOf(lines, 2, 3) == [];
    assert DbcFile.SignalsOf(lines, 0, 2) == [DbcFile.SignalOf(ByteLine(0))] == DbcFile.SignalsOf(lines, 0, 3);
  }

  lemma SameNamesFaultless()
    ensures DbcFile.Faultless(SameNames(), |SameNames()|)
  {
    var lines := SameNames();
    assert DbcFile.Governor(lines, 1) == 0 && DbcFile.Governor(lines, 3) == 2;
    assert DbcFile.SignalsOf(lines, 0, 1) == [] && DbcFile.SignalsOf(lines, 2, 3) == [];
    forall i | 0 <= i < 4 ensures DbcFile.Fault(lines, i) == None {
    }
  }

  lemma OnlySignal(m: Message, a: nat, t: DbcFile.Text, i: nat)
    requires MessageSays(m, a, t) && t.fields == [DbcFile.SignalOf(ByteLine(i))]
    ensures m.sigs == [View(ByteFields(i), None)]
  {
    var has := DbcFile.SwitchIn(t.fields);
    assert DbcFile.UpdatedAll(t.fields, has) == [ByteFields(i)];
    assert |multiset(SaidBy(m))| == |SaidBy(m)| == 1;
    assert SaidBy(m)[0] in multiset(SaidBy(m));
    assert SaidBy(m)[0] in multiset([ByteFields(i)]);
    assert m.sigs[0] in m.sigs;
  }

  lemma SameNamesTold(said: map<nat, DbcFile.Text>)
    requires DbcFile.Tells(SameNames(), 4, said)
    ensures said.Keys == {1, 2} && said[1].name == "M" && said[2].name == "M"
    ensures said[1].fields == [DbcFile.SignalOf(ByteLine(0))] && said[2].fields == [DbcFile.SignalOf(ByteLine(1))]
  {
    SameNamesGiven();
    var first := ToldOf(said, 0);
    var second := ToldOf(said, 2);
    forall a | a in said ensures a == 1 || a == 2 {
      assert DbcFile.TextAt(SameNames(), 4, a, said[a]);
    }
  }

  lemma ToldOf(said: map<nat, DbcFile.Text>, j: nat) returns (a: nat)
    requires DbcFile.Tells(SameNames(), 4, said) && (j == 0 || j == 2)
    ensures a == (if j == 0 then 1 else 2) && a in said && said[a].name == "M"
    ensures said[a].fields == DbcFile.SignalsOf(SameNames(), j, 4)
  {
    var lines := SameNames();
    assert lines[j] == BoLine(if j == 0 then 1 else 2);
    a :| a in said && said[a].line == j;
    assert DbcFile.TextAt(lines, 4, a, said[a]);
    assert DbcFile.Begins(lines, j, a);
  }

  /** The file's messages, as values. */
  function SameNamesDbc(): Dbc {
    map[1 := Message(1, "M", [View(ByteFields(0), None)]), 2 := Message(2, "M", [View(ByteFields(1), None)])]
  }

  lemma SameNamesSay(said: map<nat, DbcFile.Text>, dbc: Dbc)
    requires !Unsaid(SameNames(), said, dbc)
    ensures dbc == SameNamesDbc()
  {
    SameNamesTold(said);
    OnlySignal(dbc[1], 1, said[1], 0);
    OnlySignal(dbc[2], 2, said[2], 1);
  }

  /** `said` is not what the lines say, or `dbc` is not what was said. */
  ghost predicate Unsaid(lines: seq<DbcFile.Line>, said: map<nat, DbcFile.Text>, dbc: Dbc) {
    !(DbcFile.Tells(lines, |lines|, said) && DbcSays(dbc, said))
  }

  /** `dbc` is not what the lines spell, or its keys are not those of their names. */
  ghost predicate Misspelt(lines: seq<DbcFile.Line>, dbc: Dbc) {
    !(DbcSpells(dbc, lines)
      && (NamesAreWords(lines) ==>
            (forall a | a in dbc :: MessageOK(dbc[a], a)) && (KeysApart(dbc) <==> SignalsDiffer(lines))))
  }

  /** Parsers for one file. */
  method OneFile(bus: int, lines: seq<DbcFile.Line>) returns (ok: bool, cp: Parsers, ghost said: map<nat, DbcFile.Text>)
    ensures fresh(cp) && cp.Built() && cp.seen == [] && (ok <==> DbcFile.Faultless(lines, |lines|))
    ensures ok ==> bus in cp.busDbcFiles && cp.busDbcFiles == map[bus := cp.busDbcFiles[bus]]
    ensures ok ==> !Unsaid(lines, said, cp.busDbcFiles[bus]) && !Misspelt(lines, cp.busDbcFiles[bus])
  {
    cp := new Parsers();
    var r;
    r, said := cp.AddBus(bus, lines);
    ok := r.Parsed?;
    cp.BuildCache();
  }

  /** What a file alone on its bus means by the names of an SG line and the BO line above it. */
  lemma FileMeans(bus: int, lines: seq<DbcFile.Line>, dbc: Dbc, i: nat, j: nat) returns (v: View)
    requires !Misspelt(lines, dbc) && NamesAreWords(lines) && SignalsDiffer(lines) && DbcFile.Under(lines, i, j)
    ensures lines[j].address.Some? && ViewOfLine(lines, i, j, v)
    ensures Meaning(map[bus := dbc], bus, lines[j].name, lines[i].name) ==
              Some(Cached(lines[j].address.value % 0x1_0000_0000, v))
  {
    v := LineMeans(map[bus := dbc], bus, lines, i, j);
  }

  method SameNamesParsers() returns (cp: Parsers)
    ensures fresh(cp) && cp.Built() && cp.busDbcFiles == map[0 := SameNamesDbc()] && cp.seen == []
  {
    SameNamesFaultless();
    ghost var said;
    var ok;
    ok, cp, said := OneFile(0, SameNames());
    SameNamesSay(said, cp.busDbcFiles[0]);
  }

  lemma LastOfTwo()
    ensures Meaning(map[0 := SameNamesDbc()], 0, "M", "S") == Some(Cached(2, View(ByteFields(1), None)))
  {
    var dbcs, dbc, key := map[0 := SameNamesDbc()], SameNamesDbc(), Key("M", "S");
    assert dbcs.Keys == {0} && dbc.Keys == {1, 2} && {1, 2} - {1} == {2};
    NextBus(dbcs, 0, {0}, 0, key);
    NextMessage(dbc, {1, 2}, 1, key);
    NextMessage(dbc, {2}, 2, key);
    assert KeyAt(dbc[2], 0) == key;
  }

  lemma SameNamesDefine()
    ensures FilesOK(map[0 := SameNamesDbc()])
    ensures Defined(map[0 := SameNamesDbc()], 0, "M", "S", 1, View(ByteFields(0), None))
  {
    DefinedHere(map[0 := SameNamesDbc()], 0, 1, 0);
  }

  function TwoFrames(): seq<Frame> {
    [Frame(0, 1, [5, 0]), Frame(0, 2, [0, 7])]
  }

  lemma TwoReadings()
    ensures Reading(View(ByteFields(0), None), LastFrame(TwoFrames(), 0, 1)) == 5.0
    ensures Reading(View(ByteFields(1), None), LastFrame(TwoFrames(), 0, 2)) == 7.0
  {
    assert TwoFrames()[..1] == [Frame(0, 1, [5, 0])];
    ByteReading(ByteFields(0), [5, 0], 0);
    ByteReading(ByteFields(1), [0, 7], 1);
  }

  lemma WrongAnswer()
    ensures Reading(View(ByteFields(0), None), LastFrame(TwoFrames(), 0, 1)) == 5.0
    ensures var dbcs := map[0 := SameNamesDbc()];
      Answer(dbcs, 0, "M", "S", LastFrame(TwoFrames(), 0, AddressOf(dbcs, 0, "M", "S"))) == 7.0
  {
    LastOfTwo();
    TwoReadings();
  }

  /** Asked for a signal of message 1, whose last frame shows 5, the cache answers 7: it knows only the
      signal of that name in the other message of that name. */
  method WrongSignal() returns (cp: Parsers)
    ensures cp.Built() && FilesOK(cp.busDbcFiles)
    ensures Defined(cp.busDbcFiles, 0, "M", "S", 1, View(ByteFields(0), None))
    ensures Reading(View(ByteFields(0), None), LastFrame(cp.seen, 0, 1)) == 5.0
    ensures cp.Get(0, "M", "S") == 7.0
  {
    cp := SameNamesParsers();
    cp.UpdateFrame(0, 1, [5, 0]);
    cp.UpdateFrame(0, 2, [0, 7]);
    assert cp.seen == TwoFrames();
    SameNamesDefine();
    WrongAnswer();
    cp.Answers(0, "M", "S");
  }
}
