/**
 The BLE engine frame (`encodeEngineBle`) and the main loop that keeps it in step
 with the engine state through a dirty flag.
 */
module EngineBle {
  import opened Bytes
  import opened Clock
  import opened N2kValues
  import opened EngineState

  const MAGIC_ENGINE: u8 := 0xDD
  const PAYLOAD_LEN := 27

  /** The conversion to an integer, toward zero, kept to sixteen bits. */
  function Truncate16(x: real): u16 {
    (if x >= 0.0 then x.Floor else -((-x).Floor)) % 0x1_0000
  }

  function Word(val: real, scale: real): u16 {
    if val <= -100000000.0 then NA16 else Truncate16(val * scale + 0.5)
  }

  function LowByte(w: u16): u8 { w % 0x100 }
  function HighByte(w: u16): u8 { w / 0x100 }

  function Bytes16(w: u16): (s: seq<u8>)
    ensures |s| == 2
  {
    [LowByte(w), HighByte(w)]
  }

  function Bytes32(w: u32): (s: seq<u8>)
    ensures |s| == 4
  {
    [w % 0x100, w / 0x100 % 0x100, w / 0x1_0000 % 0x100, w / 0x100_0000]
  }

  function Encode(v: Values): (s: seq<u8>)
    ensures |s| == PAYLOAD_LEN
  {
    [MAGIC_ENGINE] + Bytes16(Word(v.rpm, 4.0)) + Bytes32(v.hours)
    + Bytes16(Word(v.coolant, 100.0)) + Bytes16(Word(v.alternatorTemp, 100.0)) + Bytes16(Word(v.alternatorVolts, 100.0))
    + Bytes16(Word(v.oilPressure, 0.01)) + Bytes16(Word(v.exhaust, 100.0)) + Bytes16(Word(v.engineRoom, 100.0))
    + Bytes16(Word(v.battery, 100.0)) + Bytes16(Word(v.fuel, 250.0)) + Bytes16(v.status1) + Bytes16(v.status2)
  }

  // ---------------------------------------------------------------------------
  // What a client reads

  function ReadWord(s: seq<u8>, at: nat): u16
    requires at + 1 < |s|
  {
    LittleEndian(s[at], s[at + 1])
  }

  /** The offsets documented for the frame hold the words of the state. */
  lemma FrameLayout(v: Values)
    ensures var s := Encode(v);
      && s[0] == MAGIC_ENGINE
      && ReadWord(s, 1) == Word(v.rpm, 4.0)
      && ReadWord(s, 3) + 0x1_0000 * ReadWord(s, 5) == v.hours
      && ReadWord(s, 7) == Word(v.coolant, 100.0) && ReadWord(s, 9) == Word(v.alternatorTemp, 100.0)
      && ReadWord(s, 11) == Word(v.alternatorVolts, 100.0) && ReadWord(s, 13) == Word(v.oilPressure, 0.01)
      && ReadWord(s, 15) == Word(v.exhaust, 100.0) && ReadWord(s, 17) == Word(v.engineRoom, 100.0)
      && ReadWord(s, 19) == Word(v.battery, 100.0) && ReadWord(s, 21) == Word(v.fuel, 250.0)
      && ReadWord(s, 23) == v.status1 && ReadWord(s, 25) == v.status2
  {
    hide Word;
    HoursSplit(v.hours);
  }

  lemma HoursSplit(w: u32)
    ensures w % 0x100 + 0x100 * (w / 0x100 % 0x100) + 0x1_0000 * (w / 0x1_0000 % 0x100 + 0x100 * (w / 0x100_0000)) == w
  {
  }

  lemma NegativeProduct(val: real, scale: real)
    requires scale > 0.0
    ensures val < 0.0 ==> val * scale < 0.0
  {
  }

  /** A value in range is read back within half a unit of its scale. */
  lemma WordAccurate(val: real, scale: real)
    requires scale > 0.0 && 0.0 <= val * scale < 65534.5
    ensures val >= 0.0
    ensures var w := Word(val, scale) as real; w - 0.5 <= val * scale < w + 0.5
    ensures Word(val, scale) != NA16
  {
    NegativeProduct(val, scale);
    var x := val * scale + 0.5;
    assert x.Floor as real <= x < x.Floor as real + 1.0;
  }

  /** The fields of the frame that are measured. */
  datatype Measured = Speed | Coolant | AlternatorT | AlternatorV | Oil | ExhaustT | RoomT | BatteryV | FuelLevel

  function Measure(v: Values, f: Measured): real {
    match f
    case Speed => v.rpm
    case Coolant => v.coolant
    case AlternatorT => v.alternatorTemp
    case AlternatorV => v.alternatorVolts
    case Oil => v.oilPressure
    case ExhaustT => v.exhaust
    case RoomT => v.engineRoom
    case BatteryV => v.battery
    case FuelLevel => v.fuel
  }

  /** Where the documentation of the frame places it. */
  function Offset(f: Measured): (at: nat)
    ensures at <= 21
  {
    match f
    case Speed => 1
    case Coolant => 7
    case AlternatorT => 9
    case AlternatorV => 11
    case Oil => 13
    case ExhaustT => 15
    case RoomT => 17
    case BatteryV => 19
    case FuelLevel => 21
  }

  /** What one unit of its word is worth. */
  function Unit(f: Measured): real {
    match f
    case Speed => 0.25
    case Oil => 100.0
    case FuelLevel => 0.004
    case _ => 0.01
  }

  /** The field has no value, or one that its word has room for. */
  predicate Encodable(v: Values, f: Measured) {
    Measure(v, f) == -1000000000.0 || 0.0 <= Measure(v, f) < 65534.5 * Unit(f)
  }

  /** A client that reads the field at its place sees the mark for "not available" exactly when it has no value, and
      otherwise the value within half a unit. */
  lemma FieldRead(v: Values, f: Measured)
    requires Encodable(v, f)
    ensures var x, w := Measure(v, f), ReadWord(Encode(v), Offset(f));
      && (w == 0xFFFF <==> x == -1000000000.0)
      && (w != 0xFFFF ==> (w as real - 0.5) * Unit(f) <= x < (w as real + 0.5) * Unit(f))
  {
    hide Encode, Word, Measure, ReadWord, Offset, Unit, Scale;
    WordAtOffset(v, f);
    if Measure(v, f) == NA {
      MissingWord(Scale(f));
    } else {
      InUnits(Measure(v, f), Scale(f), Unit(f));
    }
  }

  function Scale(f: Measured): real {
    match f
    case Speed => 4.0
    case Oil => 0.01
    case FuelLevel => 250.0
    case _ => 100.0
  }

  lemma WordAtOffset(v: Values, f: Measured)
    ensures ReadWord(Encode(v), Offset(f)) == Word(Measure(v, f), Scale(f))
    ensures Unit(f) * Scale(f) == 1.0 && Scale(f) > 0.0
  {
    hide Encode, Word;
    FrameLayout(v);
  }

  lemma InUnits(x: real, scale: real, unit: real)
    requires scale > 0.0 && unit * scale == 1.0 && 0.0 <= x < 65534.5 * unit
    ensures var w := Word(x, scale) as real; (w - 0.5) * unit <= x < (w + 0.5) * unit
    ensures Word(x, scale) != 0xFFFF
  {
    hide Word;
    Scaled(x, 65534.5, scale, unit);
    WordAccurate(x, scale);
    Rescaled(Word(x, scale) as real, x, scale, unit);
  }

  lemma Scaled(x: real, limit: real, scale: real, unit: real)
    requires scale > 0.0 && unit * scale == 1.0 && 0.0 <= x < limit * unit
    ensures 0.0 <= x * scale < limit
  {
    assert x * scale < limit * unit * scale;
    assert limit * unit * scale == limit * (unit * scale);
  }

  lemma Rescaled(w: real, x: real, scale: real, unit: real)
    requires scale > 0.0 && unit * scale == 1.0 && w - 0.5 <= x * scale < w + 0.5
    ensures (w - 0.5) * unit <= x < (w + 0.5) * unit
  {
    assert unit > 0.0;
    assert x * scale * unit == x;
  }

  lemma MissingWord(scale: real)
    ensures Word(-1000000000.0, scale) == 0xFFFF
  {
    hide Truncate16;
  }

  /** The frame before any message: every word says "not available". */
  lemma PrimedFrame()
    ensures var s := Encode(ALL_NA);
      s[0] == 0xDD && forall at: nat :: at < 26 && at % 2 == 1 ==> ReadWord(s, at) == 0xFFFF
  {
    hide Encode, Word;
    FrameLayout(ALL_NA);
    MissingWord(4.0);
    MissingWord(100.0);
    MissingWord(0.01);
    MissingWord(250.0);
    forall at: nat | at < 26 && at % 2 == 1
      ensures ReadWord(Encode(ALL_NA), at) == 0xFFFF
    {
      WholeHours(ReadWord(Encode(ALL_NA), 3), ReadWord(Encode(ALL_NA), 5));
      assert at in [1, 3, 5, 7, 9, 11, 13, 15, 17, 19, 21, 23, 25];
    }
  }

  lemma WholeHours(low: u16, high: u16)
    requires low + 0x1_0000 * high == 0xFFFF_FFFF
    ensures low == high == 0xFFFF
  {
  }

  // ---------------------------------------------------------------------------
  // The objects

  class EngineFrame {
    const data: array<u8>
    var dirty: bool

    ghost predicate Valid()
      reads this
    {
      data.Length == PAYLOAD_LEN
    }

    /** `begin` primes the frame with the all-NA payload. */
    constructor ()
      ensures Valid() && fresh(data) && data[..] == Encode(ALL_NA) && !dirty
    {
      data := new u8[PAYLOAD_LEN](_ => 0);
      dirty := false;
      new;
      EncodeEngineBle(ALL_NA);
    }

    method WriteU16(pos: nat, val: real, scale: real) returns (next: nat)
      requires Valid() && pos + 2 <= PAYLOAD_LEN
      modifies data
      ensures next == pos + 2 && data[..next] == old(data[..pos]) + Bytes16(Word(val, scale))
    {
      var v: u16 := if val <= -100000000.0 then 0xFFFF else Truncate16(val * scale + 0.5);
      next := WriteBytes(pos, v);
    }

    method WriteBytes(pos: nat, w: u16) returns (next: nat)
      requires Valid() && pos + 2 <= PAYLOAD_LEN
      modifies data
      ensures next == pos + 2 && data[..next] == old(data[..pos]) + Bytes16(w)
    {
      data[pos] := w % 0x100;
      data[pos + 1] := w / 0x100;
      next := pos + 2;
    }

    method WriteU32(pos: nat, w: u32) returns (next: nat)
      requires Valid() && pos + 4 <= PAYLOAD_LEN
      modifies data
      ensures next == pos + 4 && data[..next] == old(data[..pos]) + Bytes32(w)
    {
      data[pos] := w % 0x100;
      data[pos + 1] := w / 0x100 % 0x100;
      data[pos + 2] := w / 0x1_0000 % 0x100;
      data[pos + 3] := w / 0x100_0000;
      next := pos + 4;
    }

    method EncodeEngineBle(v: Values)
      requires Valid()
      modifies data
      ensures data[..] == Encode(v)
    {
      hide Word, Bytes16, Bytes32;
      data[0] := MAGIC_ENGINE;
      assert data[..1] == [MAGIC_ENGINE];
      var pos := WriteU16(1, v.rpm, 4.0);
      pos := WriteU32(pos, v.hours);
      pos := WriteU16(pos, v.coolant, 100.0);
      pos := WriteU16(pos, v.alternatorTemp, 100.0);
      pos := WriteU16(pos, v.alternatorVolts, 100.0);
      pos := WriteU16(pos, v.oilPressure, 0.01);
      pos := WriteU16(pos, v.exhaust, 100.0);
      pos := WriteU16(pos, v.engineRoom, 100.0);
      pos := WriteU16(pos, v.battery, 100.0);
      pos := WriteU16(pos, v.fuel, 250.0);
      pos := WriteBytes(pos, v.status1);
      pos := WriteBytes(pos, v.status2);
      assert data[..pos] == data[..];
    }

    method SetEngineState(v: Values)
      requires Valid()
      modifies this, data
      ensures data[..] == Encode(v) && dirty
    {
      EncodeEngineBle(v);
      dirty := true;
    }
  }

  class EngineHandler {
    var values: Values
    var stamps: Stamps
    var dirtyEngineState: bool

    function Current(): State
      reads this
    {
      State(values, stamps, dirtyEngineState)
    }

    constructor ()
      ensures Current() == INITIAL
    {
      values, stamps, dirtyEngineState := ALL_NA, Stamps(0, 0, 0, 0, 0, 0, 0), false;
    }

    /** PGN 127488. */
    method EngineRapid(instance: u8, rpm: real, now: u32)
      modifies this
      ensures Current() == Handle(old(Current()), Message.EngineRapid(instance, rpm), now)
    {
      if instance != 0 {
        return;
      }
      var speed, stamp := UpdateWithTimeout(values.rpm, rpm, stamps.speed, now);
      values, stamps := values.(rpm := speed), stamps.(speed := stamp);
      dirtyEngineState := true;
    }

    /** PGN 127489. */
    method EngineDynamic(m: Message, now: u32)
      requires m.EngineDynamic?
      modifies this
      ensures Current() == Handle(old(Current()), m, now)
    {
      if m.instance != 0 {
        return;
      }
      var coolant, stamp := UpdateWithTimeout(values.coolant, m.coolant, stamps.coolant, now);
      values, stamps := values.(coolant := coolant), stamps.(coolant := stamp);
      if m.oilTemp != NA {
        values := values.(alternatorTemp := m.oilTemp);
      }
      if m.oilPressure != NA {
        values := values.(oilPressure := m.oilPressure);
      }
      if m.volts != NA {
        values := values.(alternatorVolts := m.volts);
      }
      if m.hours.Some? {
        values := values.(hours := m.hours.value);
      }
      values := values.(status1 := m.status1, status2 := m.status2);
      stamps := stamps.(dynamic := now);
      dirtyEngineState := true;
    }

    /** PGN 130312 and 130316. */
    method Temperature(source: u8, value: real, now: u32)
      modifies this
      ensures Current() == Handle(old(Current()), Message.Temperature(source, value), now)
    {
      if source == EXHAUST_GAS {
        values := values.(exhaust := value);
        stamps := stamps.(exhaust := now);
        dirtyEngineState := true;
      } else if source == ENGINE_ROOM {
        values := values.(engineRoom := value);
        stamps := stamps.(engineRoom := now);
        dirtyEngineState := true;
      }
    }

    /** PGN 127505. */
    method FluidLevel(instance: u8, isFuel: bool, level: real, now: u32)
      modifies this
      ensures Current() == Handle(old(Current()), Message.FluidLevel(instance, isFuel, level), now)
    {
      if instance == 0 && isFuel && level != NA {
        values := values.(fuel := level);
        stamps := stamps.(fuel := now);
        dirtyEngineState := true;
      }
    }

    /** PGN 127508. */
    method BatteryStatus(instance: u8, voltage: real, now: u32)
      modifies this
      ensures Current() == Handle(old(Current()), Message.BatteryStatus(instance, voltage), now)
    {
      if instance == 0 && voltage != NA {
        values := values.(battery := voltage);
        stamps := stamps.(battery := now);
        dirtyEngineState := true;
      }
    }

    /** `handle`: each message goes to its handler. */
    method HandleMessage(m: Message, now: u32)
      modifies this
      ensures Current() == Handle(old(Current()), m, now)
    {
      hide Handle;
      match m
      case EngineRapid(instance, rpm) => EngineRapid(instance, rpm, now);
      case EngineDynamic(_, _, _, _, _, _, _, _) => EngineDynamic(m, now);
      case Temperature(source, value) => Temperature(source, value, now);
      case FluidLevel(instance, isFuel, level) => FluidLevel(instance, isFuel, level, now);
      case BatteryStatus(instance, voltage) => BatteryStatus(instance, voltage, now);
    }

    method ExpireDynamicReadings() returns (changed: bool)
      modifies this`values
      ensures values == old(values).(coolant := NA, alternatorTemp := NA, alternatorVolts := NA, oilPressure := NA)
      ensures changed <==> values != old(values)
    {
      changed := false;
      if values.coolant != NA { values := values.(coolant := NA); changed := true; }
      if values.alternatorTemp != NA { values := values.(alternatorTemp := NA); changed := true; }
      if values.alternatorVolts != NA { values := values.(alternatorVolts := NA); changed := true; }
      if values.oilPressure != NA { values := values.(oilPressure := NA); changed := true; }
    }

    method ExpireDynamicCounts() returns (changed: bool)
      modifies this`values
      ensures values == old(values).(hours := NA32, status1 := NA16, status2 := NA16)
      ensures changed <==> values != old(values)
    {
      changed := false;
      if values.hours != NA32 { values := values.(hours := NA32); changed := true; }
      if values.status1 != NA16 { values := values.(status1 := NA16); changed := true; }
      if values.status2 != NA16 { values := values.(status2 := NA16); changed := true; }
    }

    method ExpireSlowReadings(now: u32) returns (changed: bool)
      modifies this`values
      ensures values == ExpireSlow(old(values), stamps, now)
      ensures changed <==> values != old(values)
    {
      hide Elapsed;
      changed := false;
      if values.exhaust != NA && Elapsed(now, stamps.exhaust) > SLOW_TIMEOUT_MS {
        values := values.(exhaust := NA);
        changed := true;
      }
      if values.engineRoom != NA && Elapsed(now, stamps.engineRoom) > SLOW_TIMEOUT_MS {
        values := values.(engineRoom := NA);
        changed := true;
      }
      if values.battery != NA && Elapsed(now, stamps.battery) > SLOW_TIMEOUT_MS {
        values := values.(battery := NA);
        changed := true;
      }
      if values.fuel != NA && Elapsed(now, stamps.fuel) > SLOW_TIMEOUT_MS {
        values := values.(fuel := NA);
        changed := true;
      }
    }

    method ExpireStaleEngineData(now: u32)
      modifies this
      ensures Current() == Expire(old(Current()), now)
    {
      hide Elapsed;
      ghost var was := values;
      var changed := false;
      if values.rpm != NA && Elapsed(now, stamps.speed) > FAST_TIMEOUT_MS {
        values := values.(rpm := NA);
        changed := true;
      }
      if Elapsed(now, stamps.dynamic) > FAST_TIMEOUT_MS {
        var readings := ExpireDynamicReadings();
        var counts := ExpireDynamicCounts();
        changed := changed || readings || counts;
      }
      var slow := ExpireSlowReadings(now);
      changed := changed || slow;
      if changed {
        dirtyEngineState := true;
      }
    }

    method IsEngineStateDirty(now: u32) returns (d: bool)
      modifies this
      ensures Current() == Expire(old(Current()), now) && d == dirtyEngineState
    {
      ExpireStaleEngineData(now);
      d := dirtyEngineState;
    }

    method SetCleanEngineState()
      modifies this
      ensures Current() == old(Current()).(dirty := false)
    {
      dirtyEngineState := false;
    }
  }

  /** The engine part of a main-loop pass. */
  method LoopPass(n2k: EngineHandler, ble: EngineFrame, now: u32)
    requires ble.Valid()
    modifies n2k, ble, ble.data
    ensures n2k.Current() == Expire(old(n2k.Current()), now).(dirty := false)
    ensures ble.data[..] == if Expire(old(n2k.Current()), now).dirty then Encode(n2k.values) else old(ble.data[..])
  {
    var d := n2k.IsEngineStateDirty(now);
    if d {
      ble.SetEngineState(n2k.values);
      n2k.SetCleanEngineState();
    }
  }

  // ---------------------------------------------------------------------------
  // The frame over whole runs

  /** The engine state and the frame the BLE server holds. */
  datatype Bridge = Bridge(state: State, frame: seq<u8>)

  /** A message is handled, or a main-loop pass polls and copies. */
  function Advance(b: Bridge, e: Event): Bridge {
    var s := Next(b.state, e);
    if e.Receive? then Bridge(s, b.frame)
    else Bridge(s.(dirty := false), if s.dirty then Encode(s.values) else b.frame)
  }

  function Bridged(es: seq<Event>): Bridge {
    if es == [] then Bridge(INITIAL, Encode(ALL_NA)) else Advance(Bridged(es[..|es| - 1]), es[|es| - 1])
  }

  /** Whatever is not in the frame yet is flagged. */
  lemma {:induction false} ChangesAreFlagged(es: seq<Event>)
    ensures Bridged(es).state.dirty || Bridged(es).frame == Encode(Bridged(es).state.values)
    ensures Bridged(es).state.values == After(es).values && Bridged(es).state.stamps == After(es).stamps
  {
    hide Encode, Millis, Elapsed;
    if es != [] {
      ChangesAreFlagged(es[..|es| - 1]);
    }
  }

  /** After every main-loop pass the frame is the encoding of the current engine state. */
  lemma FrameCoherent(es: seq<Event>, now: nat)
    ensures Bridged(es + [Poll(now)]).frame == Encode(After(es + [Poll(now)]).values)
  {
    hide Encode, Next;
    var run := es + [Poll(now)];
    assert run[..|es|] == es;
    ChangesAreFlagged(run);
    ChangesAreFlagged(es);
    PollLeavesClean(Bridged(es), now);
  }

  lemma PollLeavesClean(b: Bridge, now: nat)
    ensures !Advance(b, Poll(now)).state.dirty
  {
    hide Encode, Next;
  }
}
