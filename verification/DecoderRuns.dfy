/** From DBC lines to the state of the car (bridge/common/vehicle_decoder.h, bridge/bridge_ios.cpp). */
module DecoderRuns {
  import opened Messages
  import opened CanParsers
  import opened TeslaHold
  import opened TeslaMapper
  import DbcFile
  import Vin = TeslaVin

  /** A file's lines and the bus they are for. */
  datatype BusFile = BusFile(bus: int, lines: seq<DbcFile.Line>)

  /** The lines of the last file given for a bus. */
  function LinesFor(files: seq<BusFile>, bus: int): Option<seq<DbcFile.Line>> {
    if files == [] then None
    else if files[|files| - 1].bus == bus then Some(files[|files| - 1].lines)
    else LinesFor(files[..|files| - 1], bus)
  }

  /** `dbc` has the messages and signals that the lines give. */
  ghost predicate SaysLines(dbc: Dbc, lines: seq<DbcFile.Line>) {
    DbcSpells(dbc, lines) && exists said :: DbcFile.Tells(lines, |lines|, said) && DbcSays(dbc, said)
  }

  /** Bus `b` has the messages of the last file given for it. */
  ghost predicate LoadedOn(dbcs: map<int, Dbc>, files: seq<BusFile>, b: int) {
    var lines := LinesFor(files, b);
    if lines.Some? then b in dbcs && SaysLines(dbcs[b], lines.value) else b !in dbcs
  }

  ghost predicate Loaded(dbcs: map<int, Dbc>, files: seq<BusFile>) {
    forall b :: LoadedOn(dbcs, files, b)
  }

  ghost predicate AllFaultless(files: seq<BusFile>) {
    forall f | f in files :: DbcFile.Faultless(f.lines, |f.lines|)
  }

  ghost predicate AllWords(files: seq<BusFile>) {
    forall f | f in files :: NamesAreWords(f.lines)
  }

  lemma LoadedMore(dbcs: map<int, Dbc>, files: seq<BusFile>, f: BusFile, after: map<int, Dbc>)
    requires Loaded(dbcs, files) && f.bus in after && after == dbcs[f.bus := after[f.bus]] && SaysLines(after[f.bus], f.lines)
    ensures Loaded(after, files + [f])
  {
    var more := files + [f];
    forall b ensures LoadedOn(after, more, b) {
      assert more[..|files|] == files;
      assert LoadedOn(dbcs, files, b);
    }
  }

  lemma WordsMore(dbcs: map<int, Dbc>, files: seq<BusFile>, f: BusFile, after: map<int, Dbc>)
    requires (AllWords(files) ==> FilesOK(dbcs)) && AllWords(files + [f])
    requires f.bus in after && after == dbcs[f.bus := after[f.bus]]
    requires NamesAreWords(f.lines) ==> forall a | a in after[f.bus] :: MessageOK(after[f.bus][a], a)
    ensures FilesOK(after)
  {
    assert f in files + [f] && forall g | g in files :: g in files + [f];
  }

  /** One file. */
  method AddFile(cp: Parsers, f: BusFile, ghost files: seq<BusFile>) returns (ok: bool)
    requires cp.Valid() && Loaded(cp.busDbcFiles, files) && (AllWords(files) ==> FilesOK(cp.busDbcFiles))
    modifies cp`busDbcFiles
    ensures cp.Valid() && (ok <==> DbcFile.Faultless(f.lines, |f.lines|))
    ensures ok ==> Loaded(cp.busDbcFiles, files + [f]) && (AllWords(files + [f]) ==> FilesOK(cp.busDbcFiles))
  {
    ghost var before := cp.busDbcFiles;
    var r;
    ghost var said;
    r, said := cp.AddBus(f.bus, f.lines);
    ok := r.Parsed?;
    if ok {
      assert SaysLines(cp.busDbcFiles[f.bus], f.lines);
      LoadedMore(before, files, f, cp.busDbcFiles);
      if AllWords(files + [f]) {
        WordsMore(before, files, f, cp.busDbcFiles);
      }
    }
  }

  /** The loop of `VehicleDecoder`'s constructor; the first file with a fault ends it. */
  method AddFiles(cp: Parsers, files: seq<BusFile>) returns (ok: bool)
    requires cp.Valid() && cp.busDbcFiles == map[]
    modifies cp`busDbcFiles
    ensures cp.Valid() && (ok <==> AllFaultless(files))
    ensures ok ==> Loaded(cp.busDbcFiles, files) && (AllWords(files) ==> FilesOK(cp.busDbcFiles))
  {
    for n := 0 to |files|
      invariant cp.Valid() && AllFaultless(files[..n]) && Loaded(cp.busDbcFiles, files[..n])
      invariant AllWords(files[..n]) ==> FilesOK(cp.busDbcFiles)
    {
      assert files[..n + 1] == files[..n] + [files[n]];
      ok := AddFile(cp, files[n], files[..n]);
      if !ok {
        assert files[n] in files;
        return;
      }
    }
    assert files[..|files|] == files;
    ok := true;
  }

  /** `VehicleDecoder`'s constructor for the DashKit mapper; null where it throws. */
  method Open(files: seq<BusFile>) returns (d: VehicleDecoder?)
    ensures d != null <==> AllFaultless(files)
    ensures d != null ==>
      && fresh(d) && fresh(d.parsers) && fresh(d.state) && fresh(d.vin)
      && d.Valid() && d.Streamed() && d.parsers.seen == []
      && Loaded(d.parsers.busDbcFiles, files) && (AllWords(files) ==> FilesOK(d.parsers.busDbcFiles))
  {
    var cp := new Parsers();
    var ok := AddFiles(cp, files);
    if !ok {
      return null;
    }
    cp.BuildCache();
    d := new VehicleDecoder(cp);
    assert Singles([]) == [];
  }

  /** Every field that a file defines shows the value its signal had in the last of `frames` that carried it. */
  ghost predicate Shows(dbcs: map<int, Dbc>, state: CarState, frames: seq<Frame>)
    reads state
  {
    forall f: Field, at: nat, view: View | DefinedAs(dbcs, f, at, view) && Testable(f, view.selector.value) ::
      state.Value(f) == LastDelivered(f, at, view, frames, Initial(f))
  }

  lemma ShowsAtFirst(d: VehicleDecoder)
    requires d.Valid() && d.Streamed() && d.parsers.seen == [] && FilesOK(d.parsers.busDbcFiles)
    ensures Shows(d.parsers.busDbcFiles, d.state, [])
  {
    forall f: Field, at: nat, view: View | DefinedAs(d.parsers.busDbcFiles, f, at, view) {
      MeansAs(d.parsers.busDbcFiles, f, at, view);
    }
  }

  lemma SpelledSoFar(d: VehicleDecoder, frames: seq<Frame>)
    requires d.Valid() && d.Streamed() && d.parsers.seen == frames
    ensures Vin.Spells(SightsOf(d.parsers.busDbcFiles, Singles(frames)), d.state.vin)
  {
    Vin.VinSpells(SightsOf(d.parsers.busDbcFiles, Singles(frames)));
  }

  /** `bridge_decode_can_frame`, once for each frame. */
  method Feed(d: VehicleDecoder, frames: seq<Frame>)
    requires d.Valid() && d.Streamed() && d.parsers.seen == []
    requires forall i | 0 <= i < |frames| :: frames[i].address < ADDRESSES
    modifies d`batches, d`pending, d.parsers, d.state, d.vin
    ensures d.Valid() && d.Streamed() && d.parsers.seen == frames && d.parsers.busDbcFiles == old(d.parsers.busDbcFiles)
    ensures FilesOK(d.parsers.busDbcFiles) ==> Shows(d.parsers.busDbcFiles, d.state, frames)
  {
    ghost var dbcs := d.parsers.busDbcFiles;
    if FilesOK(dbcs) {
      ShowsAtFirst(d);
    }
    for n := 0 to |frames|
      invariant d.Valid() && d.Streamed() && d.parsers.seen == frames[..n] && d.parsers.busDbcFiles == dbcs
      invariant FilesOK(dbcs) ==> Shows(dbcs, d.state, frames[..n])
    {
      assert frames[..n + 1] == frames[..n] + [frames[n]];
      d.DecodeCanFrame(frames[n].bus, frames[n].address, frames[n].data);
    }
    assert frames[..|frames|] == frames;
  }

  /** From lines and frames to the state of the car: a decoder opened on files without a fault and given frames
      one at a time shows in each field that a file defines the value its signal had in the last frame
      that carried it, and the VIN that the frames spelled. */
  method Drive(files: seq<BusFile>, frames: seq<Frame>) returns (d: VehicleDecoder?)
    requires forall i | 0 <= i < |frames| :: frames[i].address < ADDRESSES
    ensures d != null <==> AllFaultless(files)
    ensures d != null ==> Loaded(d.parsers.busDbcFiles, files)
    ensures d != null ==> Vin.Spells(SightsOf(d.parsers.busDbcFiles, Singles(frames)), d.state.vin)
    ensures d != null && AllWords(files) ==> Shows(d.parsers.busDbcFiles, d.state, frames)
  {
    d := Open(files);
    if d == null {
      return;
    }
    Feed(d, frames);
    SpelledSoFar(d, frames);
  }
}
