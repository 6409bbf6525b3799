/** The DashKit mapper and the decoder that drives it (bridge/car/cars/tesla.h,
    bridge/common/vehicle_decoder.h): the fields that keep their reading, and the VIN. */
module TeslaMapper {
  import opened Words
  import opened Messages
  import opened CanParsers
  import opened TeslaHold
  import Vin = TeslaVin

  class CarState {
    var fullPackEnergy: real
    var nominalEnergyRemaining: real
    var energyBuffer: real
    var packTMin: real
    var packTMax: real
    var anyDoorOpen: real
    var buckleStatus: real
    var maxRegenPower: real
    var maxDischargePower: real
    var packVoltage: real
    var packCurrent: real
    var powerLevel: real
    var odometer: real
    /** The four wheels' fields, in the order front left, front right, rear left, rear right. */
    var tpmsPressure: seq<real>
    var tpmsTemp: seq<real>
    var vin: string

    predicate Valid()
      reads this
    {
      |tpmsPressure| == 4 && |tpmsTemp| == 4
    }

    function Value(f: Field): real
      reads this
    {
      match f
      case FullPack => fullPackEnergy
      case Remaining => nominalEnergyRemaining
      case Buffer => energyBuffer
      case TMin => packTMin
      case TMax => packTMax
      case Door => anyDoorOpen
      case Buckle => buckleStatus
      case Pressure(w) => if w < |tpmsPressure| then tpmsPressure[w] else -1.0
      case Temperature(w) => if w < |tpmsTemp| then tpmsTemp[w] else -100.0
    }

    constructor ()
      ensures Valid() && vin == "" && forall f :: Value(f) == Initial(f)
    {
      fullPackEnergy, nominalEnergyRemaining, energyBuffer, packTMin, packTMax := 0.0, 0.0, 0.0, 0.0, 0.0;
      anyDoorOpen, buckleStatus := 0.0, 0.0;
      maxRegenPower, maxDischargePower, packVoltage, packCurrent, powerLevel, odometer := 0.0, 0.0, 0.0, 0.0, 0.0, 0.0;
      tpmsPressure, tpmsTemp := [-1.0, -1.0, -1.0, -1.0], [-100.0, -100.0, -100.0, -100.0];
      vin := "";
    }
  }

  /** What one update makes of a field. */
  function Stepped(cp: Parsers, f: Field, before: real): real
    reads cp
  {
    var cache, frames := cp.busSignalCache, cp.latestFrames;
    Else(Written(f, s => GetIn(cache, frames, VEHICLE_BUS, MessageOf(f), s), cp.GetRaw(VEHICLE_BUS, MessageOf(f), TPMS_INDEX)),
         before)
  }

  predicate IsEnergy(f: Field) {
    f.FullPack? || f.Remaining? || f.Buffer?
  }

  predicate IsThermistor(f: Field) {
    f.TMin? || f.TMax?
  }

  predicate IsWheel(f: Field) {
    f.Pressure? || f.Temperature?
  }

  /** Of `updateVehicleBus`: the battery's energies. */
  method UpdateEnergies(cp: Parsers, cs: CarState)
    modifies cs`fullPackEnergy, cs`nominalEnergyRemaining, cs`energyBuffer
    ensures forall f :: cs.Value(f) == if IsEnergy(f) then Stepped(cp, f, old(cs.Value(f))) else old(cs.Value(f))
  {
    var index := cp.Get(VEHICLE_BUS, ENERGY_STATUS, ENERGY_INDEX);
    var muxIdx := Truncate(index);
    if muxIdx == 0 {
      cs.fullPackEnergy := cp.Get(VEHICLE_BUS, ENERGY_STATUS, FULL_PACK_ENERGY);
      cs.nominalEnergyRemaining := cp.Get(VEHICLE_BUS, ENERGY_STATUS, ENERGY_REMAINING);
    } else if muxIdx == 1 {
      cs.energyBuffer := cp.Get(VEHICLE_BUS, ENERGY_STATUS, ENERGY_BUFFER);
    }
  }

  /** Of `updateVehicleBus`: the thermistors. */
  method UpdateThermistors(cp: Parsers, cs: CarState)
    modifies cs`packTMin, cs`packTMax
    ensures forall f :: cs.Value(f) == if IsThermistor(f) then Stepped(cp, f, old(cs.Value(f))) else old(cs.Value(f))
  {
    var index := cp.Get(VEHICLE_BUS, MIN_MAX, MIN_MAX_INDEX);
    if Truncate(index) == 0 {
      cs.packTMin := cp.Get(VEHICLE_BUS, MIN_MAX, THERMISTOR_MIN);
      cs.packTMax := cp.Get(VEHICLE_BUS, MIN_MAX, THERMISTOR_MAX);
    }
  }

  method UpdateBattery(cp: Parsers, cs: CarState)
    modifies cs`fullPackEnergy, cs`nominalEnergyRemaining, cs`energyBuffer, cs`packTMin, cs`packTMax
    ensures forall f ::
              cs.Value(f) == if IsEnergy(f) || IsThermistor(f) then Stepped(cp, f, old(cs.Value(f))) else old(cs.Value(f))
  {
    UpdateEnergies(cp, cs);
    UpdateThermistors(cp, cs);
  }

  const POWER_AVAILABLE := "BMS_powerAvailable"
  const BUS_STATUS := "BMS_hvBusStatus"
  const ODOMETER_STATUS := "DI_odometerStatus"

  /** `powerLevel`: battery power in percent of the limit for its direction. */
  function PowerLevel(voltage: real, current: real, discharge: real, regen: real): real {
    if voltage <= 0.0 || discharge <= 0.0 || regen <= 0.0 then 0.0
    else
      var kw := voltage * current / 1000.0;
      Clamped(kw / if kw >= 0.0 then discharge else regen) * 100.0
  }

  function Clamped(x: real): real {
    if x < -1.0 then -1.0 else if 1.0 < x then 1.0 else x
  }

  lemma Ratio(x: real, limit: real)
    requires 0.0 < limit
    ensures (0.0 <= x / limit <==> 0.0 <= x) && (1.0 <= x / limit <==> limit <= x) && (x / limit <= -1.0 <==> x <= -limit)
    ensures x / limit * limit == x
  {
    var y := x / limit;
    assert y * limit == x;
    assert 0.0 <= y ==> 0.0 <= y * limit;
    assert y < 0.0 ==> y * limit < 0.0;
    assert 1.0 <= y ==> limit <= y * limit;
    assert y < 1.0 ==> y * limit < limit;
    assert y <= -1.0 ==> y * limit <= -limit;
    assert -1.0 < y ==> -limit < y * limit;
  }

  /** The level is a percentage with the power's sign: full when discharging at the discharge limit or above,
      and when charging at the regeneration limit or above, and in proportion between. */
  lemma PowerLevelMeaning(voltage: real, current: real, discharge: real, regen: real)
    ensures
      var p := PowerLevel(voltage, current, discharge, regen);
      var kw := voltage * current / 1000.0;
      && -100.0 <= p <= 100.0
      && (voltage > 0.0 && discharge > 0.0 && regen > 0.0 ==>
        && (0.0 <= p <==> 0.0 <= kw) && (p == 100.0 <==> discharge <= kw) && (p == -100.0 <==> kw <= -regen)
        && (-regen <= kw <= discharge ==> p * (if kw >= 0.0 then discharge else regen) == kw * 100.0))
  {
    var kw := voltage * current / 1000.0;
    var limit := if kw >= 0.0 then discharge else regen;
    if voltage > 0.0 && discharge > 0.0 && regen > 0.0 {
      Ratio(kw, limit);
    }
  }

  /** What is overwritten at each update shows what `cp` answers. */
  predicate ShowsPower(cp: Parsers, cs: CarState)
    reads cp, cs
  {
    && cs.maxRegenPower == cp.Get(VEHICLE_BUS, POWER_AVAILABLE, "BMS_maxRegenPower")
    && cs.maxDischargePower == cp.Get(VEHICLE_BUS, POWER_AVAILABLE, "BMS_maxDischargePower")
    && cs.packVoltage == cp.Get(VEHICLE_BUS, BUS_STATUS, "BMS_packVoltage")
    && cs.packCurrent == cp.Get(VEHICLE_BUS, BUS_STATUS, "BMS_packCurrent")
    && cs.powerLevel == PowerLevel(cs.packVoltage, cs.packCurrent, cs.maxDischargePower, cs.maxRegenPower)
    && cs.odometer == cp.Get(VEHICLE_BUS, ODOMETER_STATUS, "DI_odometer")
  }

  /** Of `updateVehicleBus`: power and odometer. */
  method UpdatePower(cp: Parsers, cs: CarState)
    modifies cs`maxRegenPower, cs`maxDischargePower, cs`packVoltage, cs`packCurrent, cs`powerLevel, cs`odometer
    ensures ShowsPower(cp, cs) && forall f :: cs.Value(f) == old(cs.Value(f))
  {
    cs.maxRegenPower := cp.Get(VEHICLE_BUS, POWER_AVAILABLE, "BMS_maxRegenPower");
    cs.maxDischargePower := cp.Get(VEHICLE_BUS, POWER_AVAILABLE, "BMS_maxDischargePower");
    cs.packVoltage := cp.Get(VEHICLE_BUS, BUS_STATUS, "BMS_packVoltage");
    cs.packCurrent := cp.Get(VEHICLE_BUS, BUS_STATUS, "BMS_packCurrent");
    cs.powerLevel := PowerLevel(cs.packVoltage, cs.packCurrent, cs.maxDischargePower, cs.maxRegenPower);
    cs.odometer := cp.Get(VEHICLE_BUS, ODOMETER_STATUS, "DI_odometer");
  }

  /** `updateVehicleBus`; it reads the odometer after the thermistors, which makes no difference. */
  method UpdateVehicleBus(cp: Parsers, cs: CarState)
    modifies cs`fullPackEnergy, cs`nominalEnergyRemaining, cs`energyBuffer, cs`packTMin, cs`packTMax
    modifies cs`maxRegenPower, cs`maxDischargePower, cs`packVoltage, cs`packCurrent, cs`powerLevel, cs`odometer
    ensures forall f ::
              cs.Value(f) == if IsEnergy(f) || IsThermistor(f) then Stepped(cp, f, old(cs.Value(f))) else old(cs.Value(f))
    ensures ShowsPower(cp, cs)
  {
    UpdateBattery(cp, cs);
    UpdatePower(cp, cs);
  }

  method UpdateDoor(cp: Parsers, cs: CarState)
    modifies cs`anyDoorOpen
    ensures forall f :: cs.Value(f) == if f.Door? then Stepped(cp, f, old(cs.Value(f))) else old(cs.Value(f))
  {
    var index := cp.Get(VEHICLE_BUS, FRONT_STATUS, FRONT_INDEX);
    if Truncate(index) == 0 {
      cs.anyDoorOpen := cp.Get(VEHICLE_BUS, FRONT_STATUS, ANY_DOOR_OPEN);
    }
  }

  method UpdateBuckle(cp: Parsers, cs: CarState)
    modifies cs`buckleStatus
    ensures forall f :: cs.Value(f) == if f.Buckle? then Stepped(cp, f, old(cs.Value(f))) else old(cs.Value(f))
  {
    var index := cp.Get(VEHICLE_BUS, SWITCH_STATUS, SWITCH_INDEX);
    if Truncate(index) == 0 {
      var switch := cp.Get(VEHICLE_BUS, SWITCH_STATUS, BUCKLE_SWITCH);
      cs.buckleStatus := if switch == 2.0 then 1.0 else 0.0;
    }
  }

  method UpdateBody(cp: Parsers, cs: CarState)
    modifies cs`anyDoorOpen, cs`buckleStatus
    ensures forall f :: cs.Value(f) == if f.Door? || f.Buckle? then Stepped(cp, f, old(cs.Value(f))) else old(cs.Value(f))
  {
    UpdateDoor(cp, cs);
    UpdateBuckle(cp, cs);
  }

  /** One wheel's pressure, from multiplexor value 5. */
  method UpdatePressure(cp: Parsers, cs: CarState, w: nat)
    requires cs.Valid() && w < 4
    requires cp.GetRaw(VEHICLE_BUS, TPMS_DATA, TPMS_INDEX) == Some(5)
    modifies cs`tpmsPressure
    ensures cs.Valid()
    ensures cs.tpmsPressure == old(cs.tpmsPressure)[w := Stepped(cp, Pressure(w), old(cs.tpmsPressure[w]))]
  {
    var v := cp.Get(VEHICLE_BUS, TPMS_DATA, PressureSignal(w));
    if 0.5 <= v < 6.36 {
      cs.tpmsPressure := cs.tpmsPressure[w := v];
    }
  }

  lemma TemperatureStep(cp: Parsers, index: nat, before: real)
    requires index <= 3 && cp.GetRaw(VEHICLE_BUS, TPMS_DATA, TPMS_INDEX) == Some(index)
    ensures
      var t := cp.Get(VEHICLE_BUS, TPMS_DATA, TemperatureSignal(index));
      Stepped(cp, Temperature(3 - index), before) == if t < 214.5 then t else before
  {
  }

  /** One wheel's temperature, from multiplexor values 0 to 3. */
  method UpdateTemperature(cp: Parsers, cs: CarState, index: nat)
    requires cs.Valid() && index <= 3
    requires cp.GetRaw(VEHICLE_BUS, TPMS_DATA, TPMS_INDEX) == Some(index)
    modifies cs`tpmsTemp
    ensures cs.Valid()
    ensures cs.tpmsTemp == old(cs.tpmsTemp)[3 - index := Stepped(cp, Temperature(3 - index), old(cs.tpmsTemp[3 - index]))]
  {
    TemperatureStep(cp, index, cs.tpmsTemp[3 - index]);
    var t := cp.Get(VEHICLE_BUS, TPMS_DATA, TemperatureSignal(index));
    if t < 214.5 {
      cs.tpmsTemp := cs.tpmsTemp[3 - index := t];
    }
  }

  /** Tyre pressures and temperatures. */
  method UpdateTyres(cp: Parsers, cs: CarState)
    requires cs.Valid()
    modifies cs`tpmsPressure, cs`tpmsTemp
    ensures cs.Valid()
    ensures forall w: nat | w < 4 :: cs.tpmsPressure[w] == Stepped(cp, Pressure(w), old(cs.tpmsPressure[w]))
    ensures forall w: nat | w < 4 :: cs.tpmsTemp[w] == Stepped(cp, Temperature(w), old(cs.tpmsTemp[w]))
  {
    var index := cp.GetRaw(VEHICLE_BUS, TPMS_DATA, TPMS_INDEX);
    if index == Some(5) {
      for w := 0 to 4
        invariant cs.Valid() && cs.tpmsTemp == old(cs.tpmsTemp)
        invariant forall u: nat | u < w :: cs.tpmsPressure[u] == Stepped(cp, Pressure(u), old(cs.tpmsPressure[u]))
        invariant forall u: nat | w <= u < 4 :: cs.tpmsPressure[u] == old(cs.tpmsPressure[u])
      {
        UpdatePressure(cp, cs, w);
      }
    } else if index.Some? && index.value <= 3 {
      UpdateTemperature(cp, cs, index.value);
    }
  }

  // ----- the VIN -----

  const VIN_INFO := "VIN_info"

  function SegmentSignal(i: nat): string {
    if i == 0 then "VIN_A405" else if i == 1 then "VIN_B405" else "VIN_C405"
  }

  /** What the bus shows of the three segments now. */
  function SightOf(cp: Parsers): Vin.Sight
    reads cp
  {
    [cp.GetRaw(1, "VIN_info", "VIN_A405"), cp.GetRaw(1, "VIN_info", "VIN_B405"), cp.GetRaw(1, "VIN_info", "VIN_C405")]
  }

  /** What the bus shows of one after `frames`: its raw bits, if the last frame of its message carries it. */
  ghost function SegmentAt(dbcs: map<int, Dbc>, frames: seq<Frame>, name: string): Option<nat> {
    RawAnswer(dbcs, 1, "VIN_info", name, LastFrame(frames, 1, AddressOf(dbcs, 1, "VIN_info", name)))
  }

  ghost function SightAt(dbcs: map<int, Dbc>, frames: seq<Frame>): Vin.Sight {
    [SegmentAt(dbcs, frames, "VIN_A405"), SegmentAt(dbcs, frames, "VIN_B405"), SegmentAt(dbcs, frames, "VIN_C405")]
  }

  /** What the updates of a run see, one after each batch. */
  ghost function SightsOf(dbcs: map<int, Dbc>, batches: seq<seq<Frame>>): (log: seq<Vin.Sight>)
    ensures |log| == |batches|
  {
    if batches == [] then []
    else SightsOf(dbcs, batches[..|batches| - 1]) + [SightAt(dbcs, Flat(batches))]
  }

  lemma SeesLastFrame(cp: Parsers)
    requires cp.Built()
    ensures SightOf(cp) == SightAt(cp.busDbcFiles, cp.seen)
  {
    cp.Answers(1, "VIN_info", "VIN_A405");
    cp.Answers(1, "VIN_info", "VIN_B405");
    cp.Answers(1, "VIN_info", "VIN_C405");
  }

  /** Takes a segment's bytes apart and checks them. */
  method ReadSegment(i: nat, raw: nat) returns (valid: bool, text: string)
    requires i < Vin.SEGMENTS
    ensures valid <==> Vin.ValidRaw(i, raw)
    ensures text == Vin.Text(i, raw)
  {
    var chars: seq<nat> := [];
    for b := 0 to 7
      invariant |chars| == b && forall k | 0 <= k < b :: chars[k] == Vin.ByteAt(raw, k)
    {
      chars := chars + [Vin.ByteAt(raw, b)];
    }
    valid := true;
    for b := 0 to Vin.TextStart(i)
      invariant valid <==> forall k | 0 <= k < b :: Vin.ByteAt(raw, k) == 0
    {
      valid := valid && chars[b] == 0;
    }
    text := [];
    for b := Vin.TextStart(i) to 7
      invariant |text| == b - Vin.TextStart(i) && text == Vin.Text(i, raw)[..|text|]
      invariant valid <==> (forall k | 0 <= k < Vin.TextStart(i) :: Vin.ByteAt(raw, k) == 0)
                           && forall k | Vin.TextStart(i) <= k < b :: Vin.IsVinCode(Vin.ByteAt(raw, k))
    {
      valid := valid && Vin.IsVinCode(chars[b]);
      Vin.ByteBound(raw, b);
      text := text + [chars[b] as char];
    }
  }

  /** Where segment `i` goes in the pending VIN. */
  function Slot(pending: string, i: nat): string
    requires |pending| == Vin.VIN_LENGTH && i < Vin.SEGMENTS
  {
    pending[Vin.VinOffset(i)..Vin.VinOffset(i) + Vin.TextLength(i)]
  }

  /** `text` copied into slot `i`. */
  function Put(pending: string, i: nat, text: string): (p: string)
    requires |pending| == Vin.VIN_LENGTH && i < Vin.SEGMENTS && |text| == Vin.TextLength(i)
    ensures |p| == Vin.VIN_LENGTH
  {
    pending[..Vin.VinOffset(i)] + text + pending[Vin.VinOffset(i) + |text|..]
  }

  lemma PutOnlyThere(pending: string, i: nat, text: string, j: nat)
    requires |pending| == Vin.VIN_LENGTH && i < Vin.SEGMENTS && j < Vin.SEGMENTS && |text| == Vin.TextLength(i)
    ensures Slot(Put(pending, i, text), j) == if j == i then text else Slot(pending, j)
  {
  }

  /** Segment `i` is seen if it was valid in `log`, and then its text is in its place. */
  predicate SegmentHeld(seen: seq<bool>, pending: string, i: nat, log: seq<Vin.Sight>)
    requires |seen| == Vin.SEGMENTS && |pending| == Vin.VIN_LENGTH && i < Vin.SEGMENTS
  {
    var t := Vin.FirstText(log, i);
    seen[i] == t.Some? && (seen[i] ==> Slot(pending, i) == t.value)
  }

  /** All three segments together are the VIN. */
  lemma AllHeld(seen: seq<bool>, pending: string, log: seq<Vin.Sight>)
    requires |seen| == Vin.SEGMENTS && |pending| == Vin.VIN_LENGTH
    requires forall i: nat | i < Vin.SEGMENTS :: SegmentHeld(seen, pending, i, log)
    ensures Vin.Vin(log) == if seen == [true, true, true] then pending else ""
  {
    assert SegmentHeld(seen, pending, 0, log) && SegmentHeld(seen, pending, 1, log) && SegmentHeld(seen, pending, 2, log);
    assert pending == Slot(pending, 0) + Slot(pending, 1) + Slot(pending, 2);
    assert seen == [seen[0], seen[1], seen[2]];
  }

  lemma StillHeld(seen: seq<bool>, pending: string, log: seq<Vin.Sight>, more: seq<Vin.Sight>, i: nat)
    requires |seen| == Vin.SEGMENTS && |pending| == Vin.VIN_LENGTH && i < Vin.SEGMENTS
    requires SegmentHeld(seen, pending, i, log) && seen[i]
    ensures SegmentHeld(seen, pending, i, log + more)
  {
    Vin.FirstTextStays(log, more, i);
  }

  lemma SameSlot(seen: seq<bool>, pending: string, seen': seq<bool>, pending': string, i: nat, log: seq<Vin.Sight>)
    requires |seen| == |seen'| == Vin.SEGMENTS && |pending| == |pending'| == Vin.VIN_LENGTH && i < Vin.SEGMENTS
    requires seen'[i] == seen[i] && Slot(pending', i) == Slot(pending, i)
    ensures SegmentHeld(seen', pending', i, log) == SegmentHeld(seen, pending, i, log)
  {
  }

  class VinUpdater {
    /** The bits of `seen_`. */
    var seen: seq<bool>
    var pending: string
    /** What each run saw. */
    ghost var log: seq<Vin.Sight>

    ghost predicate Sized()
      reads this
    {
      |seen| == Vin.SEGMENTS && |pending| == Vin.VIN_LENGTH
    }

    ghost predicate Valid()
      reads this
    {
      Sized() && forall i: nat | i < Vin.SEGMENTS :: SegmentHeld(seen, pending, i, log)
    }

    constructor ()
      ensures Valid() && log == []
    {
      seen, pending, log := [false, false, false], seq(Vin.VIN_LENGTH, _ => ' '), [];
    }

    /** One segment. */
    method UpdateSegment(cp: Parsers, i: nat, ghost after: seq<Vin.Sight>)
      requires Sized() && i < Vin.SEGMENTS && SegmentHeld(seen, pending, i, log) && after == log + [SightOf(cp)]
      modifies this`seen, this`pending
      ensures Sized() && SegmentHeld(seen, pending, i, after)
      ensures forall j: nat | j < Vin.SEGMENTS && j != i :: seen[j] == old(seen[j]) && Slot(pending, j) == old(Slot(pending, j))
    {
      assert after[..|after| - 1] == log && after[|after| - 1] == SightOf(cp);
      if seen[i] {
        StillHeld(seen, pending, log, [SightOf(cp)], i);
        return;
      }
      var raw := cp.GetRaw(VEHICLE_BUS, VIN_INFO, SegmentSignal(i));
      assert raw == SightOf(cp)[i];
      if raw.None? {
        return;
      }
      var valid, text := ReadSegment(i, raw.value);
      if !valid {
        return;
      }
      forall j: nat | j < Vin.SEGMENTS {
        PutOnlyThere(pending, i, text, j);
      }
      pending := Put(pending, i, text);
      seen := seen[i := true];
    }

    /** The loop over the segments. */
    method UpdateSegments(cp: Parsers, ghost after: seq<Vin.Sight>)
      requires Valid() && after == log + [SightOf(cp)]
      modifies this`seen, this`pending
      ensures Sized() && forall i: nat | i < Vin.SEGMENTS :: SegmentHeld(seen, pending, i, after)
    {
      for i := 0 to Vin.SEGMENTS
        invariant Sized()
        invariant forall j: nat | j < i :: SegmentHeld(seen, pending, j, after)
        invariant forall j: nat | i <= j < Vin.SEGMENTS :: SegmentHeld(seen, pending, j, log)
      {
        ghost var seen0, pending0 := seen, pending;
        assert SegmentHeld(seen, pending, i, log);
        UpdateSegment(cp, i, after);
        forall j: nat | j < i ensures SegmentHeld(seen, pending, j, after) {
          assert SegmentHeld(seen0, pending0, j, after);
          SameSlot(seen0, pending0, seen, pending, j, after);
        }
        forall j: nat | i < j < Vin.SEGMENTS ensures SegmentHeld(seen, pending, j, log) {
          assert SegmentHeld(seen0, pending0, j, log);
          SameSlot(seen0, pending0, seen, pending, j, log);
        }
      }
    }

    /** `TeslaVinUpdater::update`. */
    method Update(cp: Parsers, cs: CarState)
      requires Valid() && cs.vin == Vin.Vin(log)
      modifies this, cs`vin
      ensures Valid() && cs.vin == Vin.Vin(log) && log == old(log) + [SightOf(cp)] && !Vin.Misspells(log, cs.vin)
      ensures forall f :: cs.Value(f) == old(cs.Value(f))
    {
      Assemble(cp, cs);
      Vin.VinIsNotMisspelt(log);
    }

    method Assemble(cp: Parsers, cs: CarState)
      requires Valid() && cs.vin == Vin.Vin(log)
      modifies this, cs`vin
      ensures Valid() && cs.vin == Vin.Vin(log) && log == old(log) + [SightOf(cp)]
      ensures forall f :: cs.Value(f) == old(cs.Value(f))
    {
      ghost var after := log + [SightOf(cp)];
      AllHeld(seen, pending, log);
      if seen == [true, true, true] {
        forall i: nat | i < Vin.SEGMENTS ensures SegmentHeld(seen, pending, i, after) {
          StillHeld(seen, pending, log, [SightOf(cp)], i);
        }
        log := after;
        AllHeld(seen, pending, log);
        return;
      }
      UpdateSegments(cp, after);
      log := after;
      AllHeld(seen, pending, log);
      if seen == [true, true, true] {
        cs.vin := pending;
      }
    }
  }

  // ----- the decoder -----

  /** Every field but the wheels'. */
  method UpdateFields(cp: Parsers, cs: CarState)
    modifies cs
    ensures cs.vin == old(cs.vin) && cs.tpmsPressure == old(cs.tpmsPressure) && cs.tpmsTemp == old(cs.tpmsTemp)
    ensures forall f | !IsWheel(f) :: cs.Value(f) == Stepped(cp, f, old(cs.Value(f)))
  {
    UpdateBody(cp, cs);
    UpdateVehicleBus(cp, cs);
  }

  method UpdateWheels(cp: Parsers, cs: CarState)
    requires cs.Valid()
    modifies cs`tpmsPressure, cs`tpmsTemp
    ensures cs.Valid()
    ensures forall f | Exists(f) :: cs.Value(f) == if IsWheel(f) then Stepped(cp, f, old(cs.Value(f))) else old(cs.Value(f))
  {
    UpdateTyres(cp, cs);
  }

  /** `TeslaDashKitMapper::update`, as far as it holds readings. */
  method UpdateState(cp: Parsers, cs: CarState, vin: VinUpdater)
    requires cs.Valid() && vin.Valid() && cs.vin == Vin.Vin(vin.log)
    modifies cs, vin
    ensures cs.Valid() && vin.Valid() && cs.vin == Vin.Vin(vin.log) && vin.log == old(vin.log) + [SightOf(cp)]
    ensures forall f | Exists(f) :: cs.Value(f) == Stepped(cp, f, old(cs.Value(f)))
  {
    UpdateFields(cp, cs);
    vin.Update(cp, cs);
    UpdateWheels(cp, cs);
  }

  /** While `frame` is the last one of the field's message, the parsers answer for its signals from that frame. */
  lemma AnswersFrom(cp: Parsers, f: Field, frame: Option<seq<byte>>)
    requires cp.Built() && OneMessage(cp.busDbcFiles, f)
    requires frame == LastFrame(cp.seen, VEHICLE_BUS, AddressFor(cp.busDbcFiles, f))
    ensures forall s | s == IndexSignal(f) || s == ReadingSignal(f) ::
              && cp.Get(VEHICLE_BUS, MessageOf(f), s) == Answer(cp.busDbcFiles, VEHICLE_BUS, MessageOf(f), s, frame)
              && cp.GetRaw(VEHICLE_BUS, MessageOf(f), s) == RawAnswer(cp.busDbcFiles, VEHICLE_BUS, MessageOf(f), s, frame)
  {
    cp.Answers(VEHICLE_BUS, MessageOf(f), IndexSignal(f));
    cp.Answers(VEHICLE_BUS, MessageOf(f), ReadingSignal(f));
  }

  /** What an update writes is what the last frame of the field's message offers. */
  lemma SteppedByLastFrame(cp: Parsers, f: Field, before: real)
    requires cp.Built() && Exists(f) && OneMessage(cp.busDbcFiles, f)
    ensures Stepped(cp, f, before) ==
              Else(Offer(cp.busDbcFiles, f, LastFrame(cp.seen, VEHICLE_BUS, AddressFor(cp.busDbcFiles, f))), before)
  {
    var cache, frames, dbcs := cp.busSignalCache, cp.latestFrames, cp.busDbcFiles;
    var frame := LastFrame(cp.seen, VEHICLE_BUS, AddressFor(dbcs, f));
    AnswersFrom(cp, f, frame);
    WrittenFrom(f, s => GetIn(cache, frames, VEHICLE_BUS, MessageOf(f), s),
                s => Answer(dbcs, VEHICLE_BUS, MessageOf(f), s, frame),
                cp.GetRaw(VEHICLE_BUS, MessageOf(f), TPMS_INDEX));
    OnlyWheelsReadRaw(f, s => Answer(dbcs, VEHICLE_BUS, MessageOf(f), s, frame),
                      cp.GetRaw(VEHICLE_BUS, MessageOf(f), TPMS_INDEX),
                      RawAnswer(dbcs, VEHICLE_BUS, MessageOf(f), TPMS_INDEX, frame));
  }

  lemma OnlyWheelsReadRaw(f: Field, get: string -> real, index: Option<nat>, other: Option<nat>)
    requires IsWheel(f) ==> index == other
    ensures Written(f, get, index) == Written(f, get, other)
  {
  }

  /** One update more. */
  lemma HeldNext(cp: Parsers, f: Field, batches: seq<seq<Frame>>, b: seq<Frame>)
    requires cp.Built() && cp.seen == Flat(batches) + b && Exists(f) && OneMessage(cp.busDbcFiles, f)
    ensures var src := SourceOf(cp.busDbcFiles, f);
      Stepped(cp, f, Held(src, batches)) == Held(src, batches + [b])
  {
    var after := batches + [b];
    assert after[..|after| - 1] == batches;
    SteppedByLastFrame(cp, f, Held(SourceOf(cp.busDbcFiles, f), batches));
  }

  lemma SightsNext(cp: Parsers, batches: seq<seq<Frame>>, b: seq<Frame>)
    requires cp.Built() && cp.seen == Flat(batches) + b
    ensures Flat(batches + [b]) == cp.seen && SightOf(cp) == SightAt(cp.busDbcFiles, cp.seen)
    ensures SightsOf(cp.busDbcFiles, batches + [b]) == SightsOf(cp.busDbcFiles, batches) + [SightOf(cp)]
    ensures var log := SightsOf(cp.busDbcFiles, batches);
      Vin.Vin(log) != "" ==> Vin.Vin(log + [SightOf(cp)]) == Vin.Vin(log)
  {
    var after, log := batches + [b], SightsOf(cp.busDbcFiles, batches);
    assert after[..|after| - 1] == batches;
    SeesLastFrame(cp);
    if Vin.Vin(log) != "" {
      Vin.NeverChanges(log, [SightOf(cp)]);
    }
  }

  class VehicleDecoder {
    const parsers: Parsers
    const state: CarState
    const vin: VinUpdater
    /** The frames so far: one batch for each update of the mapper, and those since the last. */
    ghost var batches: seq<seq<Frame>>
    ghost var pending: seq<Frame>

    /** Every field, and the VIN, holds what the run so far leads to. */
    ghost predicate Valid()
      reads this, parsers, state, vin
    {
      && parsers.Built() && state.Valid() && vin.Valid()
      && parsers.seen == Flat(batches) + pending
      && (forall f | Exists(f) && OneMessage(parsers.busDbcFiles, f) ::
            state.Value(f) == Held(SourceOf(parsers.busDbcFiles, f), batches))
      && vin.log == SightsOf(parsers.busDbcFiles, batches)
      && state.vin == Vin.Vin(vin.log)
    }

    constructor (parsers: Parsers)
      requires parsers.Built() && parsers.seen == []
      ensures Valid() && this.parsers == parsers && batches == [] && pending == [] && fresh(state) && fresh(vin)
    {
      this.parsers := parsers;
      state := new CarState();
      vin := new VinUpdater();
      batches, pending := [], [];
    }

    /** `updateFrame`. */
    method UpdateFrame(bus: int, address: nat, data: seq<byte>)
      requires Valid() && address < ADDRESSES
      modifies this`pending, parsers
      ensures Valid() && batches == old(batches) && pending == old(pending) + [Frame.Frame(bus, address, data)]
      ensures parsers.seen == old(parsers.seen) + [Frame.Frame(bus, address, data)]
      ensures parsers.busDbcFiles == old(parsers.busDbcFiles)
    {
      parsers.UpdateFrame(bus, address, data);
      pending := pending + [Frame.Frame(bus, address, data)];
    }

    /** `updateMapper`. */
    method UpdateMapper()
      requires Valid()
      modifies this`batches, this`pending, state, vin
      ensures Valid() && batches == old(batches) + [old(pending)] && pending == []
      ensures vin.log == old(vin.log) + [SightAt(parsers.busDbcFiles, parsers.seen)]
      ensures old(state.vin) != "" ==> state.vin == old(state.vin)
    {
      SightsNext(parsers, batches, pending);
      UpdateState(parsers, state, vin);
      forall f | Exists(f) && OneMessage(parsers.busDbcFiles, f)
        ensures state.Value(f) == Held(SourceOf(parsers.busDbcFiles, f), batches + [pending])
      {
        HeldNext(parsers, f, batches, pending);
      }
      batches, pending := batches + [pending], [];
    }

    /** The mapper has been updated after each frame. */
    ghost predicate Streamed()
      reads this, parsers
    {
      batches == Singles(parsers.seen) && pending == []
    }

    /** `bridge_decode_can_frame`: however often it is called and with whatever frames, every held field shows
        the value its signal had in the most recent frame that, by the DBC, carried it; and a VIN once
        complete stays. */
    method DecodeCanFrame(bus: int, address: nat, data: seq<byte>)
      requires Valid() && Streamed() && address < ADDRESSES
      modifies this`batches, this`pending, parsers, state, vin
      ensures Valid() && Streamed() && parsers.seen == old(parsers.seen) + [Frame.Frame(bus, address, data)]
      ensures parsers.busDbcFiles == old(parsers.busDbcFiles)
      ensures forall f | Exists(f) && OneMessage(parsers.busDbcFiles, f) ::
                state.Value(f) == LastReading(SourceOf(parsers.busDbcFiles, f), parsers.seen, Initial(f))
      ensures FilesOK(parsers.busDbcFiles) ==> forall f: Field, at: nat, view: View
                | DefinedAs(parsers.busDbcFiles, f, at, view) && Testable(f, view.selector.value) ::
                state.Value(f) == LastDelivered(f, at, view, parsers.seen, Initial(f))
      ensures vin.log == old(vin.log) + [SightAt(parsers.busDbcFiles, parsers.seen)]
      ensures old(state.vin) != "" ==> state.vin == old(state.vin)
    {
      SinglesGrow(parsers.seen, Frame.Frame(bus, address, data));
      UpdateFrame(bus, address, data);
      assert pending == [Frame.Frame(bus, address, data)];
      UpdateMapper();
      forall f | Exists(f) {
        FieldsHoldReading(parsers.busDbcFiles, f, parsers.seen);
      }
      forall f: Field, at: nat, view: View
        | FilesOK(parsers.busDbcFiles) && DefinedAs(parsers.busDbcFiles, f, at, view) && Testable(f, view.selector.value)
        ensures state.Value(f) == LastDelivered(f, at, view, parsers.seen, Initial(f))
      {
        MeansAs(parsers.busDbcFiles, f, at, view);
        FieldsHoldLastReading(parsers.busDbcFiles, f, at, view, parsers.seen);
      }
    }
  }
}
