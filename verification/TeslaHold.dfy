/** Fields that keep the reading of the last frame that carried them (bridge/car/cars/tesla.h): what an
    update of the mapper offers each field, and what the fields hold after whole runs. */
module TeslaHold {
  import opened Words
  import opened Bits
  import opened Extraction
  import opened SignedValues
  import opened Messages
  import opened CanParsers

  /** The held fields of `CarState`. Wheels are front left, front right, rear left, rear right. */
  datatype Field =
    | FullPack | Remaining | Buffer | TMin | TMax | Door | Buckle
    | Pressure(wheel: nat) | Temperature(wheel: nat)

  const VEHICLE_BUS: int := 1

  const ENERGY_INDEX := "BMS_energyStatusIndex"
  const ENERGY_STATUS := "BMS_energyStatus"
  const FULL_PACK_ENERGY := "BMS_nominalFullPackEnergy"
  const ENERGY_REMAINING := "BMS_nominalEnergyRemaining"
  const ENERGY_BUFFER := "BMS_energyBuffer"
  const MIN_MAX_INDEX := "BMS_bmbMinMaxMultiplexer"
  const MIN_MAX := "BMS_bmbMinMax"
  const THERMISTOR_MIN := "BMS_thermistorTMin"
  const THERMISTOR_MAX := "BMS_thermistorTMax"
  const FRONT_INDEX := "VCFRONT_statusIndex"
  const FRONT_STATUS := "VCFRONT_status"
  const ANY_DOOR_OPEN := "VCFRONT_anyDoorOpen"
  const SWITCH_INDEX := "VCLEFT_switchStatusIndex"
  const SWITCH_STATUS := "VCLEFT_switchStatus"
  const BUCKLE_SWITCH := "VCLEFT_frontBuckleSwitch"
  const TPMS_INDEX := "VCSEC_TPMSDataIndex"
  const TPMS_DATA := "VCSEC_TPMSData"

  function Initial(f: Field): real {
    match f
    case Pressure(_) => -1.0
    case Temperature(_) => -100.0
    case _ => 0.0
  }

  /** The message that carries a field, by its name in the DBC. */
  function MessageOf(f: Field): string {
    match f
    case FullPack => "BMS_energyStatus"
    case Remaining => "BMS_energyStatus"
    case Buffer => "BMS_energyStatus"
    case TMin => "BMS_bmbMinMax"
    case TMax => "BMS_bmbMinMax"
    case Door => "VCFRONT_status"
    case Buckle => "VCLEFT_switchStatus"
    case Pressure(_) => "VCSEC_TPMSData"
    case Temperature(_) => "VCSEC_TPMSData"
  }

  /** `static_cast<int>` of a double: towards zero. */
  function Truncate(r: real): int {
    if r >= 0.0 then r.Floor else -(-r).Floor
  }

  /** Truncation takes the fraction off and keeps the sign. */
  lemma TruncateMeans(r: real)
    ensures var t := Truncate(r) as real;
      if r >= 0.0 then 0.0 <= t <= r && r < t + 1.0 else r <= t <= 0.0 && t - 1.0 < r
  {
  }

  function PressureSignal(wheel: nat): string {
    "VCSEC_TPMSPressure" +
    (if wheel == 0 then "FL" else if wheel == 1 then "FR" else if wheel == 2 then "RL" else "RR")
  }

  function TemperatureSignal(mux: nat): string {
    "VCSEC_TPMSTemperature" + (if mux == 0 then "0" else if mux == 1 then "1" else if mux == 2 then "2" else "3")
  }

  function When(carried: bool, v: real): Option<real> {
    if carried then Some(v) else None
  }

  /** What an update writes to a field, where `get` answers for the signals of the field's message and
      `index` is the raw tyre index: nothing if the message's last frame is of another multiplexor value
      or fails the field's range test. */
  function Written(f: Field, get: string -> real, index: Option<nat>): Option<real> {
    match f
    case FullPack => When(Truncate(get(ENERGY_INDEX)) == 0, get(FULL_PACK_ENERGY))
    case Remaining => When(Truncate(get(ENERGY_INDEX)) == 0, get(ENERGY_REMAINING))
    case Buffer => When(Truncate(get(ENERGY_INDEX)) == 1, get(ENERGY_BUFFER))
    case TMin => When(Truncate(get(MIN_MAX_INDEX)) == 0, get(THERMISTOR_MIN))
    case TMax => When(Truncate(get(MIN_MAX_INDEX)) == 0, get(THERMISTOR_MAX))
    case Door => When(Truncate(get(FRONT_INDEX)) == 0, get(ANY_DOOR_OPEN))
    case Buckle => When(Truncate(get(SWITCH_INDEX)) == 0, if get(BUCKLE_SWITCH) == 2.0 then 1.0 else 0.0)
    case Pressure(wheel) =>
      When(index == Some(5) && 0.5 <= get(PressureSignal(wheel)) < 6.36, get(PressureSignal(wheel)))
    case Temperature(wheel) =>
      if index.Some? && index.value <= 3 && wheel == 3 - index.value
      then When(get(TemperatureSignal(index.value)) < 214.5, get(TemperatureSignal(index.value)))
      else None
  }

  /** What an update writes while `frame` is the last one of the field's message. */
  ghost function Offer(dbcs: map<int, Dbc>, f: Field, frame: Option<seq<byte>>): Option<real> {
    Written(f, s => Answer(dbcs, VEHICLE_BUS, MessageOf(f), s, frame),
            RawAnswer(dbcs, VEHICLE_BUS, MessageOf(f), TPMS_INDEX, frame))
  }

  /** The message's multiplexor. */
  function IndexSignal(f: Field): string {
    match f
    case FullPack => "BMS_energyStatusIndex"
    case Remaining => "BMS_energyStatusIndex"
    case Buffer => "BMS_energyStatusIndex"
    case TMin => "BMS_bmbMinMaxMultiplexer"
    case TMax => "BMS_bmbMinMaxMultiplexer"
    case Door => "VCFRONT_statusIndex"
    case Buckle => "VCLEFT_switchStatusIndex"
    case Pressure(_) => "VCSEC_TPMSDataIndex"
    case Temperature(_) => "VCSEC_TPMSDataIndex"
  }

  /** The field's own signal. The sensors of multiplexor values 0 to 3 sit at the wheels in reverse order. */
  function ReadingSignal(f: Field): string {
    match f
    case FullPack => "BMS_nominalFullPackEnergy"
    case Remaining => "BMS_nominalEnergyRemaining"
    case Buffer => "BMS_energyBuffer"
    case TMin => "BMS_thermistorTMin"
    case TMax => "BMS_thermistorTMax"
    case Door => "VCFRONT_anyDoorOpen"
    case Buckle => "VCLEFT_frontBuckleSwitch"
    case Pressure(wheel) =>
      if wheel == 0 then "VCSEC_TPMSPressureFL"
      else if wheel == 1 then "VCSEC_TPMSPressureFR"
      else if wheel == 2 then "VCSEC_TPMSPressureRL"
      else "VCSEC_TPMSPressureRR"
    case Temperature(wheel) =>
      if wheel == 0 then "VCSEC_TPMSTemperature3"
      else if wheel == 1 then "VCSEC_TPMSTemperature2"
      else if wheel == 2 then "VCSEC_TPMSTemperature1"
      else "VCSEC_TPMSTemperature0"
  }

  /** The car has four wheels. */
  predicate Exists(f: Field) {
    f.Pressure? || f.Temperature? ==> f.wheel < 4
  }

  /** The names the code puts together are the DBC's. */
  lemma WheelNames(wheel: nat)
    requires wheel < 4
    ensures PressureSignal(wheel) == ReadingSignal(Pressure(wheel))
    ensures TemperatureSignal(3 - wheel) == ReadingSignal(Temperature(wheel))
  {
    assert "VCSEC_TPMSPressure" + "FL" == "VCSEC_TPMSPressureFL";
    assert "VCSEC_TPMSPressure" + "FR" == "VCSEC_TPMSPressureFR";
    assert "VCSEC_TPMSPressure" + "RL" == "VCSEC_TPMSPressureRL";
    assert "VCSEC_TPMSPressure" + "RR" == "VCSEC_TPMSPressureRR";
    assert "VCSEC_TPMSTemperature" + "0" == "VCSEC_TPMSTemperature0";
    assert "VCSEC_TPMSTemperature" + "1" == "VCSEC_TPMSTemperature1";
    assert "VCSEC_TPMSTemperature" + "2" == "VCSEC_TPMSTemperature2";
    assert "VCSEC_TPMSTemperature" + "3" == "VCSEC_TPMSTemperature3";
  }

  /** What is written to a field depends on no other signals than its index and its reading: on `index` and `v`, what
      they show, and `raw`, the index's raw bits. */
  function WrittenOn(f: Field, index: real, raw: Option<nat>, v: real): Option<real> {
    match f
    case FullPack => When(Truncate(index) == 0, v)
    case Remaining => When(Truncate(index) == 0, v)
    case Buffer => When(Truncate(index) == 1, v)
    case TMin => When(Truncate(index) == 0, v)
    case TMax => When(Truncate(index) == 0, v)
    case Door => When(Truncate(index) == 0, v)
    case Buckle => When(Truncate(index) == 0, if v == 2.0 then 1.0 else 0.0)
    case Pressure(_) => When(raw == Some(5) && 0.5 <= v < 6.36, v)
    case Temperature(wheel) => When(wheel < 4 && raw == Some(3 - wheel) && v < 214.5, v)
  }

  lemma WrittenIs(f: Field, get: string -> real, raw: Option<nat>)
    requires Exists(f)
    ensures Written(f, get, raw) == WrittenOn(f, get(IndexSignal(f)), raw, get(ReadingSignal(f)))
  {
    if f.Pressure? || f.Temperature? {
      WheelNames(f.wheel);
    }
  }

  /** The index and the reading are signals of one message, if both are defined. */
  ghost predicate OneMessage(dbcs: map<int, Dbc>, f: Field) {
    var i := Meaning(dbcs, VEHICLE_BUS, MessageOf(f), IndexSignal(f));
    var r := Meaning(dbcs, VEHICLE_BUS, MessageOf(f), ReadingSignal(f));
    i.Some? && r.Some? ==> i.value.address == r.value.address
  }

  /** The address of that message. */
  ghost function AddressFor(dbcs: map<int, Dbc>, f: Field): nat {
    if Meaning(dbcs, VEHICLE_BUS, MessageOf(f), IndexSignal(f)).Some?
    then AddressOf(dbcs, VEHICLE_BUS, MessageOf(f), IndexSignal(f))
    else AddressOf(dbcs, VEHICLE_BUS, MessageOf(f), ReadingSignal(f))
  }

  /** A field depends on no other signals than these two. */
  lemma WrittenFrom(f: Field, get: string -> real, other: string -> real, index: Option<nat>)
    requires Exists(f) && get(IndexSignal(f)) == other(IndexSignal(f)) && get(ReadingSignal(f)) == other(ReadingSignal(f))
    ensures Written(f, get, index) == Written(f, other, index)
  {
    WrittenIs(f, get, index);
    WrittenIs(f, other, index);
  }

  // ----- runs -----

  /** Where a field comes from: the address of its message, what an update offers it given that message's
      last frame, and its first value. */
  datatype Source = Source(address: nat, offer: Option<seq<byte>> -> Option<real>, start: real)

  ghost function SourceOf(dbcs: map<int, Dbc>, f: Field): Source {
    Source(AddressFor(dbcs, f), frame => Offer(dbcs, f, frame), Initial(f))
  }

  /** Nothing but the first value is offered before the first frame. */
  ghost predicate Quiet(src: Source) {
    src.offer(None) == None || src.offer(None) == Some(src.start)
  }

  lemma FieldsAreQuiet(dbcs: map<int, Dbc>, f: Field)
    ensures Quiet(SourceOf(dbcs, f))
  {
  }

  /** A run is a sequence of batches of frames; the mapper updates after each batch. */
  function Flat(batches: seq<seq<Frame>>): seq<Frame> {
    if batches == [] then [] else Flat(batches[..|batches| - 1]) + batches[|batches| - 1]
  }

  function LastOf(src: Source, frames: seq<Frame>): Option<seq<byte>> {
    LastFrame(frames, VEHICLE_BUS, src.address)
  }

  function Else(offer: Option<real>, otherwise: real): real {
    if offer.Some? then offer.value else otherwise
  }

  /** What the field holds after a run: each update overwrites it with what it offers. */
  function Held(src: Source, batches: seq<seq<Frame>>): real {
    if batches == [] then src.start
    else Else(src.offer(LastOf(src, Flat(batches))), Held(src, batches[..|batches| - 1]))
  }

  /** The frame is one of the field's message and carries it. */
  predicate CarriesField(src: Source, frame: Frame) {
    Matches(frame, VEHICLE_BUS, src.address) && src.offer(Some(frame.data)).Some?
  }

  /** The reading of the most recent frame that carried the field; `otherwise` if there is none. */
  function LastReading(src: Source, frames: seq<Frame>, otherwise: real): real {
    if frames == [] then otherwise
    else
      var frame := frames[|frames| - 1];
      if CarriesField(src, frame) then src.offer(Some(frame.data)).value
      else LastReading(src, frames[..|frames| - 1], otherwise)
  }

  lemma {:induction false} LastFrameConcat(a: seq<Frame>, b: seq<Frame>, bus: int, address: nat)
    ensures LastFrame(a + b, bus, address) ==
              if LastFrame(b, bus, address).Some? then LastFrame(b, bus, address) else LastFrame(a, bus, address)
  {
    if b == [] {
      assert a + b == a;
    } else {
      assert (a + b)[..|a + b| - 1] == a + b[..|b| - 1];
      LastFrameConcat(a, b[..|b| - 1], bus, address);
    }
  }

  /** After an update, a field that is offered something holds it. */
  lemma Settled(src: Source, batches: seq<seq<Frame>>)
    requires Quiet(src)
    ensures Else(src.offer(LastOf(src, Flat(batches))), Held(src, batches)) == Held(src, batches)
  {
  }

  /** One batch more: only the batch's last frame of the field's message counts, and if there is none
      the field stays. */
  lemma OneBatch(src: Source, batches: seq<seq<Frame>>, b: seq<Frame>)
    requires Quiet(src)
    ensures Held(src, batches + [b]) ==
              if LastOf(src, b).Some? then Else(src.offer(LastOf(src, b)), Held(src, batches)) else Held(src, batches)
  {
    var after := batches + [b];
    assert after[..|after| - 1] == batches;
    LastFrameConcat(Flat(batches), b, VEHICLE_BUS, src.address);
    Settled(src, batches);
  }

  lemma OneFrame(f: Frame, bus: int, address: nat)
    ensures LastFrame([f], bus, address) == if Matches(f, bus, address) then Some(f.data) else None
  {
  }

  function Singles(frames: seq<Frame>): seq<seq<Frame>> {
    seq(|frames|, i requires 0 <= i < |frames| => [frames[i]])
  }

  lemma SinglesGrow(frames: seq<Frame>, f: Frame)
    ensures Singles(frames + [f]) == Singles(frames) + [[f]]
  {
  }

  /** When the mapper updates after each frame, the field always holds the reading of the most recent
      frame that carried it, whatever frames came between. */
  lemma {:induction false} HoldsLastReading(src: Source, frames: seq<Frame>)
    requires Quiet(src)
    ensures Held(src, Singles(frames)) == LastReading(src, frames, src.start)
  {
    if frames != [] {
      var n := |frames| - 1;
      var before := Singles(frames[..n]);
      HoldsLastReading(src, frames[..n]);
      assert Singles(frames) == before + [[frames[n]]];
      OneBatch(src, before, [frames[n]]);
      OneFrame(frames[n], VEHICLE_BUS, src.address);
    }
  }

  /** A frame of the batch carried the field, and the batch's last frame of that message does not. */
  ghost predicate Overtaken(src: Source, b: seq<Frame>) {
    && (exists i :: 0 <= i < |b| && CarriesField(src, b[i]))
    && LastOf(src, b).Some? && src.offer(LastOf(src, b)) == None
  }

  ghost predicate CarriesNowhere(src: Source, b: seq<Frame>) {
    forall i | 0 <= i < |b| :: !CarriesField(src, b[i])
  }

  lemma {:induction false} LastReadingOfBatch(src: Source, b: seq<Frame>, otherwise: real)
    ensures CarriesNowhere(src, b) ==> LastReading(src, b, otherwise) == otherwise
    ensures LastOf(src, b).Some? && src.offer(LastOf(src, b)).Some? ==>
              LastReading(src, b, otherwise) == src.offer(LastOf(src, b)).value
    ensures LastOf(src, b) == None ==> CarriesNowhere(src, b)
  {
    if b != [] {
      var n := |b| - 1;
      LastReadingOfBatch(src, b[..n], otherwise);
      assert forall i | 0 <= i < n :: b[..n][i] == b[i];
    }
  }

  /** When a batch of several frames precedes the update, a reading can be lost: the field ends up with the
      batch's last reading if and only if that reading was not overtaken, or was held already. */
  lemma BatchesMayLose(src: Source, batches: seq<seq<Frame>>, b: seq<Frame>)
    requires Quiet(src)
    ensures
      var before := Held(src, batches);
      var due := LastReading(src, b, before);
      Held(src, batches + [b]) == due <==> !Overtaken(src, b) || due == before
  {
    OneBatch(src, batches, b);
    LastReadingOfBatch(src, b, Held(src, batches));
  }

  /** The same for each field of the car's state. */
  lemma FieldsHoldReading(dbcs: map<int, Dbc>, f: Field, frames: seq<Frame>)
    ensures Held(SourceOf(dbcs, f), Singles(frames)) == LastReading(SourceOf(dbcs, f), frames, Initial(f))
  {
    FieldsAreQuiet(dbcs, f);
    HoldsLastReading(SourceOf(dbcs, f), frames);
  }

  // ----- what the DBC says of a frame -----

  /** The multiplexor value under which the DBC sends a field. */
  function Expected(f: Field): int {
    match f
    case Buffer => 1
    case Pressure(_) => 5
    case Temperature(wheel) => 3 - wheel
    case _ => 0
  }

  /** The range tests on tyre readings. */
  predicate Plausible(f: Field, v: real) {
    match f
    case Pressure(_) => 0.5 <= v < 6.36
    case Temperature(_) => v < 214.5
    case _ => true
  }

  /** What a field shows of a reading. */
  function Shown(f: Field, v: real): real {
    if f.Buckle? then (if v == 2.0 then 1.0 else 0.0) else v
  }

  // ----- the index test -----

  /** What the field's test makes of an index's raw bits. */
  predicate RawTested(f: Field, index: Fields, raw: nat) {
    if f.Pressure? || f.Temperature? then raw == Expected(f)
    else Truncate(IndexReading(index, raw)) == Expected(f)
  }

  /** What the raw bits read. */
  function IndexReading(index: Fields, raw: nat): real {
    Scaled(Interpret(raw, index.place.size, index.signed), index.factor, index.offset)
  }

  /** By the DBC, the raw bits select the field's signal. */
  predicate RawSelects(f: Field, index: Fields, raw: nat) {
    IndexReading(index, raw) == Expected(f) as real
  }

  /** The test does no harm: it passes exactly when the signal is selected. A pressure not selected reads 0 and
      fails the range test, so there it may pass. */
  predicate Harmless(f: Field, tested: bool, selected: bool) {
    if f.Pressure? then selected ==> tested else selected <==> tested
  }

  predicate WellJudged(f: Field, index: Fields, raw: nat) {
    Harmless(f, RawTested(f, index, raw), RawSelects(f, index, raw))
  }

  /** How many raw values an index can have. */
  function RawCount(size: nat): nat {
    Pow2(if size < Word() then size else Word())
  }

  /** None of the raw values that the index can have is misjudged. */
  ghost predicate Testable(f: Field, index: Fields) {
    forall raw: nat | raw < RawCount(index.place.size) :: WellJudged(f, index, raw)
  }

  /** The mapper's test of an index, on the last frame of the message. */
  ghost predicate Tested(f: Field, index: Fields, data: seq<byte>) {
    if f.Pressure? || f.Temperature? then RawBits(data, index.place) % TWO64 == Expected(f)
    else Truncate(Physical(index, data)) == Expected(f)
  }

  ghost predicate TestedWell(f: Field, index: Fields, data: seq<byte>) {
    Harmless(f, Tested(f, index, data), Physical(index, data) == Expected(f) as real)
  }

  lemma RawInCount(data: seq<byte>, s: Layout)
    ensures RawBits(data, s) % TWO64 < RawCount(s.size)
  {
    Pow2Word();
    if s.size < Word() {
      RawBitsFit(data, s);
      FoldBound(data, s, Avail(s, |data|));
      Pow2Monotone(Avail(s, |data|), s.size);
    }
  }

  lemma TestIsSound(f: Field, index: Fields, data: seq<byte>)
    requires Testable(f, index)
    ensures TestedWell(f, index, data)
  {
    RawInCount(data, index.place);
    assert WellJudged(f, index, RawBits(data, index.place) % TWO64);
  }

  lemma CountFits(size: nat)
    ensures RawCount(size) <= TWO64 && RawCount(size) <= Pow2(size)
  {
    Pow2Word();
    if size < Word() {
      Pow2Monotone(size, Word());
    } else {
      Pow2Monotone(Word(), size);
    }
  }

  /** A frame that holds the signal and shows these raw bits. */
  lemma ShowsRaw(data: seq<byte>, s: Layout, raw: nat) returns (d: seq<byte>)
    requires Avail(s, |data|) == s.size && raw < RawCount(s.size)
    ensures |d| == |data| && RawBits(d, s) % TWO64 == raw
  {
    CountFits(s.size);
    if s.size == 0 {
      d := data;
      EmptyIsZero(data, s);
    } else {
      d := Encode(data, s, raw, s.size);
      RawRoundTrip(data, s, raw);
    }
    InWord(raw);
  }

  /** The condition is exact: on frames of a length that holds the index, the test does no harm to any if and
      only if none of the index's raw values is misjudged. */
  lemma TestableIff(f: Field, index: Fields, n: nat)
    requires Avail(index.place, n) == index.place.size
    ensures Testable(f, index) <==> forall data: seq<byte> | |data| == n ::
              TestedWell(f, index, data)
  {
    if Testable(f, index) {
      forall data: seq<byte> | |data| == n ensures TestedWell(f, index, data) {
        TestIsSound(f, index, data);
      }
    } else {
      var raw: nat :| raw < RawCount(index.place.size) && !WellJudged(f, index, raw);
      var d := ShowsRaw(seq(n, _ => 0), index.place, raw);
      assert !TestedWell(f, index, d);
    }
  }

  /** The bus's file defines the field's signal as `view`, in the message at `address`, under the expected value
      of the multiplexor that the mapper asks for; and no other signal has these names. */
  ghost predicate DefinedAs(dbcs: map<int, Dbc>, f: Field, address: nat, view: View) {
    && Exists(f) && view.selector.Some? && view.fields.multiplexValue == Expected(f)
    && Defined(dbcs, 1, MessageOf(f), ReadingSignal(f), address, view)
    && Defined(dbcs, 1, MessageOf(f), IndexSignal(f), address, View(view.selector.value, None))
    && Alone(dbcs, 1, MessageOf(f), ReadingSignal(f)) && Alone(dbcs, 1, MessageOf(f), IndexSignal(f))
  }

  lemma MeansAs(dbcs: map<int, Dbc>, f: Field, address: nat, view: View)
    requires FilesOK(dbcs) && DefinedAs(dbcs, f, address, view)
    ensures OneMessage(dbcs, f) && AddressFor(dbcs, f) == address
    ensures Meaning(dbcs, VEHICLE_BUS, MessageOf(f), ReadingSignal(f)) == Some(Cached(address, view))
    ensures Meaning(dbcs, VEHICLE_BUS, MessageOf(f), IndexSignal(f)) == Some(Cached(address, View(view.selector.value, None)))
  {
    MeansDefinition(dbcs, VEHICLE_BUS, MessageOf(f), ReadingSignal(f), address, view);
    MeansDefinition(dbcs, VEHICLE_BUS, MessageOf(f), IndexSignal(f), address, View(view.selector.value, None));
  }

  lemma OfferedIfTested(dbcs: map<int, Dbc>, f: Field, data: seq<byte>, index: Fields, reading: View)
    requires Exists(f)
    requires Answer(dbcs, VEHICLE_BUS, MessageOf(f), IndexSignal(f), Some(data)) == Physical(index, data)
    requires RawAnswer(dbcs, VEHICLE_BUS, MessageOf(f), IndexSignal(f), Some(data)) == Some(RawBits(data, index.place) % TWO64)
    requires Answer(dbcs, VEHICLE_BUS, MessageOf(f), ReadingSignal(f), Some(data)) == Reading(reading, Some(data))
    ensures
      var v := Reading(reading, Some(data));
      Offer(dbcs, f, Some(data)) == When(Tested(f, index, data) && Plausible(f, v), Shown(f, v))
  {
    WrittenIs(f, s => Answer(dbcs, VEHICLE_BUS, MessageOf(f), s, Some(data)),
              RawAnswer(dbcs, VEHICLE_BUS, MessageOf(f), TPMS_INDEX, Some(data)));
    var v := Reading(reading, Some(data));
    var raw := RawAnswer(dbcs, VEHICLE_BUS, MessageOf(f), TPMS_INDEX, Some(data));
    assert Offer(dbcs, f, Some(data)) == WrittenOn(f, Physical(index, data), raw, v);
  }

  /** What a frame of the field's message brings the field by the DBC: nothing unless its multiplexor selects
      the field's signal and the value is plausible. */
  function Due(f: Field, view: View, data: seq<byte>): Option<real> {
    var v := Physical(view.fields, data);
    When(Carries(view, data) && Plausible(f, v), Shown(f, v))
  }

  lemma OfferedOnTest(dbcs: map<int, Dbc>, f: Field, address: nat, view: View, data: seq<byte>)
    requires FilesOK(dbcs) && DefinedAs(dbcs, f, address, view)
    ensures
      var v := Reading(view, Some(data));
      Offer(dbcs, f, Some(data)) == When(Tested(f, view.selector.value, data) && Plausible(f, v), Shown(f, v))
  {
    MeansAs(dbcs, f, address, view);
    OfferedIfTested(dbcs, f, data, view.selector.value, view);
  }

  /** The mapper's own test against the DBC. A frame of the field's message makes the mapper write the field if
      and only if, by the DBC, the frame carries the field's signal and its value is plausible; what is
      written is that value. */
  lemma OfferedIffCarried(dbcs: map<int, Dbc>, f: Field, address: nat, view: View, data: seq<byte>)
    requires FilesOK(dbcs) && DefinedAs(dbcs, f, address, view) && Testable(f, view.selector.value)
    ensures Offer(dbcs, f, Some(data)) == Due(f, view, data)
  {
    OfferedOnTest(dbcs, f, address, view, data);
    TestIsSound(f, view.selector.value, data);
  }

  /** For a field tested by truncation the condition is exact for what is written, too: on frames of a length
      that holds the index, the mapper always writes what is due if and only if none of the index's
      raw values is misjudged. */
  lemma OffersDueIff(dbcs: map<int, Dbc>, f: Field, address: nat, view: View, n: nat)
    requires FilesOK(dbcs) && DefinedAs(dbcs, f, address, view) && !f.Pressure? && !f.Temperature?
    requires Avail(view.selector.value.place, n) == view.selector.value.place.size
    ensures Testable(f, view.selector.value) <==>
              forall data: seq<byte> | |data| == n :: Offer(dbcs, f, Some(data)) == Due(f, view, data)
  {
    var index := view.selector.value;
    if Testable(f, index) {
      forall data: seq<byte> | |data| == n ensures Offer(dbcs, f, Some(data)) == Due(f, view, data) {
        OfferedIffCarried(dbcs, f, address, view, data);
      }
    } else {
      TestableIff(f, index, n);
      var data: seq<byte> :| |data| == n && !TestedWell(f, index, data);
      OfferedOnTest(dbcs, f, address, view, data);
      assert Offer(dbcs, f, Some(data)) != Due(f, view, data);
    }
  }

  predicate IsWhole(r: real) {
    r == r.Floor as real
  }

  lemma WholeScaled(v: int, a: int, b: int)
    ensures Scaled(v, a as real, b as real) == (v * a + b) as real
  {
    assert (v as real) * (a as real) == (v * a) as real;
  }

  lemma WholeIsHarmless(f: Field, index: Fields, raw: nat)
    requires !f.Pressure? && !f.Temperature? && IsWhole(index.factor) && IsWhole(index.offset)
    ensures WellJudged(f, index, raw)
  {
    WholeScaled(Interpret(raw, index.place.size, index.signed), index.factor.Floor, index.offset.Floor);
  }

  /** An index scaled by whole numbers is testable by truncation, and one that is unsigned and unscaled in any way. */
  lemma PlainIsTestable(f: Field, index: Fields)
    requires Exists(f)
    requires if f.Pressure? || f.Temperature? then !index.signed && index.factor == 1.0 && index.offset == 0.0
             else IsWhole(index.factor) && IsWhole(index.offset)
    ensures Testable(f, index)
  {
    CountFits(index.place.size);
    forall raw: nat | raw < RawCount(index.place.size) ensures WellJudged(f, index, raw) {
      if !f.Pressure? && !f.Temperature? {
        WholeIsHarmless(f, index, raw);
      }
    }
  }

  /** By the DBC, the frame brings the field a reading. */
  predicate Delivers(f: Field, address: nat, view: View, frame: Frame) {
    Matches(frame, 1, address) && Carries(view, frame.data) && Plausible(f, Physical(view.fields, frame.data))
  }

  /** The value of the field's signal in the most recent frame that brought a reading; `otherwise` if none did. */
  function LastDelivered(f: Field, address: nat, view: View, frames: seq<Frame>, otherwise: real): real {
    if frames == [] then otherwise
    else
      var frame := frames[|frames| - 1];
      if Delivers(f, address, view, frame) then Shown(f, Physical(view.fields, frame.data))
      else LastDelivered(f, address, view, frames[..|frames| - 1], otherwise)
  }

  lemma {:induction false} ReadingsAreDelivered(dbcs: map<int, Dbc>, f: Field, address: nat, view: View,
                                                frames: seq<Frame>, otherwise: real)
    requires FilesOK(dbcs) && DefinedAs(dbcs, f, address, view) && Testable(f, view.selector.value)
    ensures LastReading(SourceOf(dbcs, f), frames, otherwise) == LastDelivered(f, address, view, frames, otherwise)
  {
    if frames != [] {
      var n := |frames| - 1;
      MeansAs(dbcs, f, address, view);
      OfferedIffCarried(dbcs, f, address, view, frames[n].data);
      ReadingsAreDelivered(dbcs, f, address, view, frames[..n], otherwise);
    }
  }

  /** Each field of the car's state, updated after each frame, shows the value that its signal had in the most
      recent frame that, by the DBC, carried it. */
  lemma FieldsHoldLastReading(dbcs: map<int, Dbc>, f: Field, address: nat, view: View, frames: seq<Frame>)
    requires FilesOK(dbcs) && DefinedAs(dbcs, f, address, view) && Testable(f, view.selector.value)
    ensures Held(SourceOf(dbcs, f), Singles(frames)) == LastDelivered(f, address, view, frames, Initial(f))
  {
    FieldsHoldReading(dbcs, f, frames);
    ReadingsAreDelivered(dbcs, f, address, view, frames, Initial(f));
  }

  // ----- inputs -----

  function ByteSignal(kind: Kind, name: string, i: nat, factor: real): Fields {
    Fields(kind, name, Layout(8 * i, 8, true), false, factor, 0.0, 0, "XXX")
  }

  /** A message at 850 with the index of the energies in byte 0 and, under index 0, the full pack's in byte 1. */
  function EnergyDbc(factor: real): map<int, Dbc> {
    map[VEHICLE_BUS := map[850 := Message(850, ENERGY_STATUS, [View(EnergyIndex(factor), None), PackEnergy(factor)])]]
  }

  function EnergyIndex(factor: real): Fields {
    ByteSignal(Multiplexor, ENERGY_INDEX, 0, factor)
  }

  function PackEnergy(factor: real): View {
    View(ByteSignal(Multiplexed, FULL_PACK_ENERGY, 1, 1.0), Some(EnergyIndex(factor)))
  }

  lemma EnergyDbcDefines(factor: real)
    ensures FilesOK(EnergyDbc(factor)) && DefinedAs(EnergyDbc(factor), FullPack, 850, PackEnergy(factor))
    ensures AddressFor(EnergyDbc(factor), FullPack) == 850
  {
    var dbcs, m := EnergyDbc(factor), EnergyDbc(factor)[VEHICLE_BUS][850];
    EnergyNamesDiffer();
    DefinedHere(dbcs, VEHICLE_BUS, 850, 0);
    DefinedHere(dbcs, VEHICLE_BUS, 850, 1);
    ApartIsAlone(dbcs, VEHICLE_BUS, m.name, ENERGY_INDEX);
    ApartIsAlone(dbcs, VEHICLE_BUS, m.name, FULL_PACK_ENERGY);
    MeansAs(dbcs, FullPack, 850, PackEnergy(factor));
  }

  lemma EnergyNamesDiffer()
    ensures ColonFree(ENERGY_STATUS) && ColonFree(ENERGY_INDEX) && ColonFree(FULL_PACK_ENERGY)
    ensures ENERGY_INDEX != FULL_PACK_ENERGY
  {
    assert |ENERGY_INDEX| != |FULL_PACK_ENERGY|;
  }

  /** With the index in byte 0 and the reading in byte 1. */
  lemma EnergyOffered(data: seq<byte>)
    requires |data| == 2 && data[0] < 2
    ensures SourceOf(EnergyDbc(1.0), FullPack).offer(Some(data)) == When(data[0] == 0, data[1] as real)
  {
    EnergyDbcDefines(1.0);
    ByteReading(EnergyIndex(1.0), data, 0);
    ByteReading(PackEnergy(1.0).fields, data, 1);
    PlainIsTestable(FullPack, EnergyIndex(1.0));
    OfferedIffCarried(EnergyDbc(1.0), FullPack, 850, PackEnergy(1.0), data);
  }

  lemma PairLosesReading(src: Source, x: Frame, y: Frame, v: real)
    requires Quiet(src) && Matches(x, VEHICLE_BUS, src.address) && Matches(y, VEHICLE_BUS, src.address)
    requires src.offer(Some(x.data)) == Some(v) && src.offer(Some(y.data)) == None
    ensures Overtaken(src, [x, y]) && LastReading(src, [x, y], src.start) == v
    ensures Held(src, [[x, y]]) == src.start && Held(src, Singles([x, y])) == v
  {
    var b := [x, y];
    assert CarriesField(src, b[0]) && !CarriesField(src, b[1]);
    assert b[..1] == [x] && LastReading(src, [x], src.start) == v;
    OneBatch(src, [], b);
    assert [] + [b] == [b];
    HoldsLastReading(src, b);
  }

  /** Two frames in one batch: the full pack energy was 3 when last carried, but a frame with the other energies
      came after it, and the field stays at 0. One frame a batch, it is 3. */
  lemma BatchLosesReading(b: seq<Frame>)
    requires b == [Frame(VEHICLE_BUS, 850, [0, 3]), Frame(VEHICLE_BUS, 850, [1, 0])]
    ensures
      var src := SourceOf(EnergyDbc(1.0), FullPack);
      && Overtaken(src, b) && LastReading(src, b, src.start) == 3.0
      && Held(src, [b]) == 0.0 && Held(src, Singles(b)) == 3.0
  {
    EnergyDbcDefines(1.0);
    EnergyOffered([0, 3]);
    EnergyOffered([1, 0]);
    PairLosesReading(SourceOf(EnergyDbc(1.0), FullPack), b[0], b[1], 3.0);
  }

  /** Why the index must be whole: scaled by a half, an index of 0.5 passes for 0, and a field that by the DBC
      the frame does not carry is overwritten with 0. */
  lemma FractionalIndexMisleads(data: seq<byte>)
    requires data == [1, 3]
    ensures !Carries(PackEnergy(0.5), data) && Offer(EnergyDbc(0.5), FullPack, Some(data)) == Some(0.0)
  {
    EnergyDbcDefines(0.5);
    ByteReading(EnergyIndex(0.5), data, 0);
    OfferedOnTest(EnergyDbc(0.5), FullPack, 850, PackEnergy(0.5), data);
  }
}
