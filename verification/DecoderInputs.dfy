/** Inputs followed from DBC lines to answers and to the state of the car. */
module DecoderInputs {
  import opened Words
  import opened Extraction
  import opened Messages
  import opened CanParsers
  import DbcFile

  const ENERGIES := "BMS_energyStatus"
  const INDEX := "BMS_energyStatusIndex"
  const PACK := "BMS_nominalFullPackEnergy"
  const BUFFER := "BMS_energyBuffer"

  function ByteOf(name: string, indicator: DbcFile.Indicator, i: nat, factor: real, offset: real): DbcFile.Line {
    DbcFile.SG(name, indicator, Some(DbcFile.Numbers(Layout(8 * i, 8, true), false, factor, offset)), "")
  }

  /** A message at 850 with an `M` line for byte 0, and `m0` and `m1` lines that share byte 1. */
  function EnergyLines(): seq<DbcFile.Line> {
    [DbcFile.BO(Some(850), ENERGIES, Some(8), "X"),
     ByteOf(INDEX, DbcFile.Switch, 0, 1.0, 0.0),
     ByteOf(PACK, DbcFile.Numbered(Some(0)), 1, 1.0, 0.0),
     ByteOf(BUFFER, DbcFile.Numbered(Some(1)), 1, 0.5, -0.25)]
  }

  /** The signals they mean. */
  function IndexView(): View {
    View(IndexFields(), None)
  }

  function IndexFields(): Fields {
    Fields(Multiplexor, INDEX, Layout(0, 8, true), false, 1.0, 0.0, 0, "XXX")
  }

  function PackView(): View {
    View(Fields(Multiplexed, PACK, Layout(8, 8, true), false, 1.0, 0.0, 0, "XXX"), Some(IndexFields()))
  }

  function BufferView(): View {
    View(Fields(Multiplexed, BUFFER, Layout(8, 8, true), false, 0.5, -0.25, 1, "XXX"), Some(IndexFields()))
  }

  lemma EnergyLinesFaultless()
    ensures DbcFile.Faultless(EnergyLines(), |EnergyLines()|)
  {
    var lines := EnergyLines();
    assert DbcFile.Governor(lines, 1) == 0 && DbcFile.Governor(lines, 2) == 0 && DbcFile.Governor(lines, 3) == 0;
    assert DbcFile.SignalsOf(lines, 0, 1) == [];
    assert DbcFile.SignalsOf(lines, 0, 2) == [DbcFile.SignalOf(lines[1])];
    assert DbcFile.SignalsOf(lines, 0, 3) == [DbcFile.SignalOf(lines[1]), DbcFile.SignalOf(lines[2])];
    NamesDiffer();
    forall i | 0 <= i < 4 ensures DbcFile.Fault(lines, i) == None {
    }
  }

  lemma NamesDiffer()
    ensures INDEX != PACK && INDEX != BUFFER && PACK != BUFFER
  {
    assert |INDEX| == 21 && |PACK| == 25 && |BUFFER| == 16;
  }

  lemma EnergyLinesWords()
    ensures NamesAreWords(EnergyLines()) && SignalsDiffer(EnergyLines())
  {
    NamesColonFree();
    forall i, i', j, j' ensures !MixesUp(EnergyLines(), i, i', j, j') {
      assert forall k: nat | 0 < k < 4 :: !EnergyLines()[k].BO?;
    }
  }

  lemma NamesColonFree()
    ensures ColonFree(ENERGIES) && ColonFree(INDEX) && ColonFree(PACK) && ColonFree(BUFFER)
  {
  }

  lemma EnergyLinesStand()
    ensures DbcFile.Under(EnergyLines(), 1, 0) && DbcFile.Under(EnergyLines(), 2, 0) && DbcFile.Under(EnergyLines(), 3, 0)
    ensures DbcFile.SaysM(EnergyLines(), 0)
  {
    assert DbcFile.Under(EnergyLines(), 1, 0);
  }

  lemma ViewIs(i: nat, v: View)
    requires 1 <= i < 4 && ViewOfLine(EnergyLines(), i, 0, v)
    ensures v == if i == 1 then IndexView() else if i == 2 then PackView() else BufferView()
  {
    EnergyLinesStand();
  }

  /** What the three names mean on bus 1. */
  ghost predicate EnergiesMeant(dbcs: map<int, Dbc>) {
    && Meaning(dbcs, 1, ENERGIES, INDEX) == Some(Cached(850, IndexView()))
    && Meaning(dbcs, 1, ENERGIES, PACK) == Some(Cached(850, PackView()))
    && Meaning(dbcs, 1, ENERGIES, BUFFER) == Some(Cached(850, BufferView()))
  }

  lemma EnergyMeanings(dbc: Dbc)
    requires !Misspelt(EnergyLines(), dbc)
    ensures EnergiesMeant(map[1 := dbc])
  {
    EnergyLinesWords();
    EnergyLinesStand();
    var v := FileMeans(1, EnergyLines(), dbc, 1, 0);
    ViewIs(1, v);
    v := FileMeans(1, EnergyLines(), dbc, 2, 0);
    ViewIs(2, v);
    v := FileMeans(1, EnergyLines(), dbc, 3, 0);
    ViewIs(3, v);
  }

  method EnergyParsers() returns (cp: Parsers)
    ensures fresh(cp) && cp.Built() && cp.seen == [] && EnergiesMeant(cp.busDbcFiles)
  {
    EnergyLinesFaultless();
    ghost var said;
    var ok;
    ok, cp, said := OneFile(1, EnergyLines());
    EnergyMeanings(cp.busDbcFiles[1]);
  }

  lemma EnergyReadings()
    ensures Reading(IndexView(), Some([1, 7])) == 1.0 && Reading(PackView(), Some([1, 7])) == 0.0
    ensures Reading(BufferView(), Some([1, 7])) == 3.25 && RawReading(BufferView(), Some([1, 7])) == Some(7)
    ensures RawReading(PackView(), Some([1, 7])) == None
  {
    ByteReading(IndexFields(), [1, 7], 0);
    ByteReading(BufferView().fields, [1, 7], 1);
    ByteRaw([1, 7], 1);
  }

  /** The answers while the message's last frame is `[1, 7]`. */
  predicate ShowsBuffer(cp: Parsers)
    reads cp
  {
    && cp.Get(1, ENERGIES, INDEX) == 1.0 && cp.Get(1, ENERGIES, PACK) == 0.0
    && cp.Get(1, ENERGIES, BUFFER) == 3.25 && cp.GetRaw(1, ENERGIES, BUFFER) == Some(7)
    && cp.GetRaw(1, ENERGIES, PACK) == None
  }

  /** A frame of the message, seen from one of its names. */
  method TakeFrame(cp: Parsers, data: seq<byte>)
    requires cp.Built()
    modifies cp`latestFrames, cp`seen
    ensures cp.Built() && forall n: string, v: View | Meaning(cp.busDbcFiles, 1, ENERGIES, n) == Some(Cached(850, v)) ::
              && cp.Get(1, ENERGIES, n) == Reading(v, Some(data))
              && cp.GetRaw(1, ENERGIES, n) == RawReading(v, Some(data))
  {
    label before:
    cp.UpdateFrame(1, 850, data);
    forall n: string, v: View | Meaning(cp.busDbcFiles, 1, ENERGIES, n) == Some(Cached(850, v))
      ensures cp.Get(1, ENERGIES, n) == Reading(v, Some(data)) && cp.GetRaw(1, ENERGIES, n) == RawReading(v, Some(data))
    {
      assert cp.AnsweredAfter(1, ENERGIES, n, Frame(1, 850, data),
                              old@before(cp.Get(1, ENERGIES, n)), old@before(cp.GetRaw(1, ENERGIES, n)));
    }
  }

  method OneFrame(cp: Parsers, data: seq<byte>, index: View, pack: View, buffer: View)
    requires cp.Built()
    requires Meaning(cp.busDbcFiles, 1, ENERGIES, INDEX) == Some(Cached(850, index)) && Reading(index, Some(data)) == 1.0
    requires Meaning(cp.busDbcFiles, 1, ENERGIES, PACK) == Some(Cached(850, pack)) && Reading(pack, Some(data)) == 0.0
    requires Meaning(cp.busDbcFiles, 1, ENERGIES, BUFFER) == Some(Cached(850, buffer)) && Reading(buffer, Some(data)) == 3.25
    requires RawReading(buffer, Some(data)) == Some(7) && RawReading(pack, Some(data)) == None
    modifies cp`latestFrames, cp`seen
    ensures cp.Built() && ShowsBuffer(cp)
  {
    TakeFrame(cp, data);
  }

  method OtherFrame(cp: Parsers, other: int, address: nat, data: seq<byte>)
    requires address < ADDRESSES && (other % 4 != 1 || address != 850)
    requires cp.Built() && EnergiesMeant(cp.busDbcFiles) && ShowsBuffer(cp)
    modifies cp`latestFrames, cp`seen
    ensures cp.Built() && ShowsBuffer(cp)
  {
    ghost var f := Frame(other, address, data);
    label before:
    cp.UpdateFrame(other, address, data);
    forall n: string | n == INDEX || n == PACK || n == BUFFER
      ensures cp.AnsweredAfter(1, ENERGIES, n, f, old@before(cp.Get(1, ENERGIES, n)), old@before(cp.GetRaw(1, ENERGIES, n)))
    {
    }
  }

  /** A frame on bus 1 that shows 1 carries what the `m1` line describes and not what the `m0` line does; frames of
      other buses mod 4, or of bus 1 at other addresses, make no difference. */
  method EnergyAnswers(other: int, address: nat, data: seq<byte>) returns (cp: Parsers)
    requires address < ADDRESSES && (other % 4 != 1 || address != 850)
    ensures ShowsBuffer(cp)
  {
    cp := EnergyParsers();
    EnergyReadings();
    OneFrame(cp, [1, 7], IndexView(), PackView(), BufferView());
    OtherFrame(cp, other, address, data);
  }
}
