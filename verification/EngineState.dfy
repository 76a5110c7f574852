/**
 The engine part of the bus state (`N2KHandler`): what each message stores, and
 how values expire when their message stops coming. Floating-point values are
 reals; parsing the messages is not part of this model.
 */
module EngineState {
  import opened Bytes
  import opened Wrappers
  import opened Clock
  import opened N2kValues

  const FAST_TIMEOUT_MS := 5000
  const SLOW_TIMEOUT_MS := 15000

  const ENGINE_ROOM := 3   // temperature source of the engine room
  const EXHAUST_GAS := 14  // temperature source of the exhaust

  /** What the BLE frame shows. */
  datatype Values = Values(rpm: real, coolant: real, alternatorTemp: real, alternatorVolts: real, oilPressure: real,
                           exhaust: real, engineRoom: real, battery: real, fuel: real,
                           hours: u32, status1: u16, status2: u16)

  const ALL_NA := Values(NA, NA, NA, NA, NA, NA, NA, NA, NA, NA32, NA16, NA16)

  /** When each was last updated, by the 32-bit clock. */
  datatype Stamps = Stamps(speed: u32, coolant: u32, dynamic: u32,
                           exhaust: u32, engineRoom: u32, battery: u32, fuel: u32)

  datatype State = State(values: Values, stamps: Stamps, dirty: bool)

  const INITIAL := State(ALL_NA, Stamps(0, 0, 0, 0, 0, 0, 0), false)

  /** The messages that reach the engine state; a field the sender left out reads as NA. */
  datatype Message =
    | EngineRapid(instance: u8, rpm: real)
    | EngineDynamic(instance: u8, oilPressure: real, oilTemp: real, coolant: real, volts: real, hours: Option<u32>,
                    status1: u16, status2: u16)
    | Temperature(source: u8, value: real)
    | FluidLevel(instance: u8, isFuel: bool, level: real)
    | BatteryStatus(instance: u8, voltage: real)

  function Handle(s: State, m: Message, now: u32): State {
    var v, t := s.values, s.stamps;
    match m
    case EngineRapid(instance, rpm) =>
      if instance != 0 then s
      else
        var (r, stamp) := Update(v.rpm, rpm, t.speed, now);
        State(v.(rpm := r), t.(speed := stamp), true)
    case EngineDynamic(instance, oilPressure, oilTemp, coolant, volts, hours, status1, status2) =>
      if instance != 0 then s
      else
        var (c, stamp) := Update(v.coolant, coolant, t.coolant, now);
        State(v.(coolant := c,
                 alternatorTemp := if oilTemp != NA then oilTemp else v.alternatorTemp,
                 oilPressure := if oilPressure != NA then oilPressure else v.oilPressure,
                 alternatorVolts := if volts != NA then volts else v.alternatorVolts,
                 hours := if hours.Some? then hours.value else v.hours,
                 status1 := status1, status2 := status2),
              t.(coolant := stamp, dynamic := now), true)
    case Temperature(source, value) =>
      if source == EXHAUST_GAS then State(v.(exhaust := value), t.(exhaust := now), true)
      else if source == ENGINE_ROOM then State(v.(engineRoom := value), t.(engineRoom := now), true)
      else s
    case FluidLevel(instance, isFuel, level) =>
      if instance == 0 && isFuel && level != NA then State(v.(fuel := level), t.(fuel := now), true) else s
    case BatteryStatus(instance, voltage) =>
      if instance == 0 && voltage != NA then State(v.(battery := voltage), t.(battery := now), true) else s
  }

  function Expired(value: real, stamp: u32, now: u32, limit: nat): real {
    if Elapsed(now, stamp) > limit then NA else value
  }

  /** The fields of PGN 127489, which expire together. */
  function ExpireGroup(v: Values, t: Stamps, now: u32): Values {
    if Elapsed(now, t.dynamic) > FAST_TIMEOUT_MS then
      v.(coolant := NA, alternatorTemp := NA, alternatorVolts := NA, oilPressure := NA,
         hours := NA32, status1 := NA16, status2 := NA16)
    else v
  }

  /** The fields with the slow timeout. */
  function ExpireSlow(v: Values, t: Stamps, now: u32): Values {
    v.(exhaust := Expired(v.exhaust, t.exhaust, now, SLOW_TIMEOUT_MS),
       engineRoom := Expired(v.engineRoom, t.engineRoom, now, SLOW_TIMEOUT_MS),
       battery := Expired(v.battery, t.battery, now, SLOW_TIMEOUT_MS),
       fuel := Expired(v.fuel, t.fuel, now, SLOW_TIMEOUT_MS))
  }

  /** `expireStaleEngineData`. */
  function Expire(s: State, now: u32): State {
    var v1 := s.values.(rpm := Expired(s.values.rpm, s.stamps.speed, now, FAST_TIMEOUT_MS));
    var v := ExpireSlow(ExpireGroup(v1, s.stamps, now), s.stamps, now);
    State(v, s.stamps, s.dirty || v != s.values)
  }

  // ---------------------------------------------------------------------------
  // Runs

  /** A message arrives, or the main loop polls. */
  datatype Event = Receive(time: nat, message: Message) | Poll(time: nat)

  function Next(s: State, e: Event): State {
    match e
    case Receive(t, m) => Handle(s, m, Millis(t))
    case Poll(t) => Expire(s, Millis(t))
  }

  function After(es: seq<Event>): State {
    if es == [] then INITIAL else Next(After(es[..|es| - 1]), es[|es| - 1])
  }

  predicate Ordered(es: seq<Event>) {
    forall i, j :: 0 <= i < j < |es| ==> es[i].time <= es[j].time
  }

  // ---------------------------------------------------------------------------
  // The fields with a stamp of their own, against the history of their messages

  datatype Field = Rpm | Exhaust | EngineRoom | Battery | Fuel

  function Limit(f: Field): nat {
    if f.Rpm? then 5000 else 15000
  }

  function Shown(v: Values, f: Field): real {
    match f
    case Rpm => v.rpm
    case Exhaust => v.exhaust
    case EngineRoom => v.engineRoom
    case Battery => v.battery
    case Fuel => v.fuel
  }

  function Stamp(t: Stamps, f: Field): u32 {
    match f
    case Rpm => t.speed
    case Exhaust => t.exhaust
    case EngineRoom => t.engineRoom
    case Battery => t.battery
    case Fuel => t.fuel
  }

  /** The value a message gives a field, if it gives it one: the temperatures may be given as NA, the
      others only count when present. */
  function Given(m: Message, f: Field): Option<real> {
    match f
    case Rpm => if m.EngineRapid? && m.instance == 0 && m.rpm != NA then Some(m.rpm) else None
    case Exhaust => if m.Temperature? && m.source == 14 then Some(m.value) else None
    case EngineRoom => if m.Temperature? && m.source == 3 then Some(m.value) else None
    case Battery => if m.BatteryStatus? && m.instance == 0 && m.voltage != NA then Some(m.voltage) else None
    case Fuel => if m.FluidLevel? && m.instance == 0 && m.isFuel && m.level != NA then Some(m.level) else None
  }

  predicate Gives(e: Event, f: Field) {
    e.Receive? && Given(e.message, f).Some?
  }

  /** Event `k` is the latest that gives the field a value. */
  predicate Latest(es: seq<Event>, f: Field, k: nat) {
    k < |es| && Gives(es[k], f) && forall j :: k < j < |es| ==> !Gives(es[j], f)
  }

  predicate NeverGiven(es: seq<Event>, f: Field) {
    forall j :: 0 <= j < |es| ==> !Gives(es[j], f)
  }

  /** Event `j` finds the field's value too old: a poll past the limit, or an engine-speed message
      without a speed past the holding time. */
  predicate Drops(e: Event, f: Field, given: nat) {
    match e
    case Poll(t) => Elapsed(Millis(t), Millis(given)) > Limit(f)
    case Receive(t, m) =>
      f.Rpm? && m.EngineRapid? && m.instance == 0 && m.rpm == NA && Elapsed(Millis(t), Millis(given)) > 10000
  }

  lemma {:induction false} NeverGivenIsNA(es: seq<Event>, f: Field)
    requires NeverGiven(es, f)
    ensures Shown(After(es).values, f) == NA
  {
    if es != [] {
      NeverGivenIsNA(es[..|es| - 1], f);
    }
  }

  /** One event gives a field a new value, drops the one it has, or leaves it. */
  lemma FieldStep(s: State, e: Event, f: Field, given: nat)
    ensures Gives(e, f) ==>
      Shown(Next(s, e).values, f) == Given(e.message, f).value && Stamp(Next(s, e).stamps, f) == Millis(e.time)
    ensures !Gives(e, f) ==> Stamp(Next(s, e).stamps, f) == Stamp(s.stamps, f)
    ensures !Gives(e, f) && Stamp(s.stamps, f) == Millis(given) ==>
      Shown(Next(s, e).values, f) == if Drops(e, f, given) then NA else Shown(s.values, f)
  {
    hide Millis, Elapsed;
  }

  /** The state of a field is exactly its latest message, unless something since found it too old. */
  lemma {:induction false} FieldHistory(es: seq<Event>, f: Field, k: nat)
    requires Latest(es, f, k)
    ensures Stamp(After(es).stamps, f) == Millis(es[k].time)
    ensures Shown(After(es).values, f) ==
      if exists j :: k < j < |es| && Drops(es[j], f, es[k].time) then NA else Given(es[k].message, f).value
  {
    hide Next, Millis, Elapsed, Drops;
    var init, e := es[..|es| - 1], es[|es| - 1];
    FieldStep(After(init), e, f, es[k].time);
    if k < |es| - 1 {
      FieldHistory(init, f, k);
      assert (exists j :: k < j < |es| && Drops(es[j], f, es[k].time))
        <==> (exists j :: k < j < |init| && Drops(init[j], f, es[k].time)) || Drops(e, f, es[k].time);
    }
  }

  /** At a poll, a field shows its latest message's value if that is no older than the limit, and NA
      otherwise; earlier polls make no difference. After 49.7 days without a message, some poll must
      have looked at it in between, as the clock has wrapped. */
  lemma HistoryRefinement(es: seq<Event>, f: Field, k: nat, now: nat)
    requires Latest(es, f, k) && Ordered(es + [Poll(now)])
    requires now - es[k].time < WRAP
      || exists j :: k < j < |es| && es[j].Poll? && Limit(f) < es[j].time - es[k].time < WRAP
    ensures Shown(After(es + [Poll(now)]).values, f) ==
      if now - es[k].time <= Limit(f) then Given(es[k].message, f).value else NA
  {
    hide After, Shown, Given, Millis, Elapsed, Drops;
    var run, given := es + [Poll(now)], es[k].time;
    assert Latest(run, f, k);
    FieldHistory(run, f, k);
    forall j | k < j < |run|
      ensures given <= run[j].time <= now
      ensures Drops(run[j], f, given) ==> now - given > Limit(f)
    {
      assert run[k].time <= run[j].time;
      assert j < |es| ==> run[j].time <= run[|es|].time;
      DropsWhenOld(run[j], f, given);
    }
    if now - given > Limit(f) {
      if now - given < WRAP {
        PollDrops(now, f, given);
        assert Drops(run[|es|], f, given);
      } else {
        var j :| k < j < |es| && es[j].Poll? && Limit(f) < es[j].time - given < WRAP;
        PollDrops(es[j].time, f, given);
        assert Drops(run[j], f, given);
      }
    }
  }

  lemma DropsWhenOld(e: Event, f: Field, given: nat)
    requires given <= e.time
    ensures Drops(e, f, given) ==> e.time - given > Limit(f)
  {
    hide Millis, Elapsed;
    ElapsedMillis(e.time, given);
  }

  lemma PollDrops(time: nat, f: Field, given: nat)
    requires given <= time && Limit(f) < time - given < WRAP
    ensures Drops(Poll(time), f, given)
  {
    hide Millis, Elapsed;
    ElapsedMillis(time, given);
  }

  // ---------------------------------------------------------------------------
  // The fields that share the stamp of PGN 127489

  datatype GroupField = AlternatorTemp | AlternatorVolts | OilPressure | Hours | Status1 | Status2

  function ShownInGroup(v: Values, g: GroupField): real {
    match g
    case AlternatorTemp => v.alternatorTemp
    case AlternatorVolts => v.alternatorVolts
    case OilPressure => v.oilPressure
    case Hours => v.hours as real
    case Status1 => v.status1 as real
    case Status2 => v.status2 as real
  }

  /** How the field shows that it has no value. */
  function Missing(g: GroupField): real {
    match g
    case AlternatorTemp => NA
    case AlternatorVolts => NA
    case OilPressure => NA
    case Hours => NA32 as real
    case Status1 => NA16 as real
    case Status2 => NA16 as real
  }

  function Present(x: real): Option<real> {
    if x == NA then None else Some(x)
  }

  /** The value a message carries for the field; the status words are always there. */
  function Carried(m: Message, g: GroupField): Option<real> {
    if !m.EngineDynamic? || m.instance != 0 then None
    else
      match g
      case AlternatorTemp => Present(m.oilTemp)
      case AlternatorVolts => Present(m.volts)
      case OilPressure => Present(m.oilPressure)
      case Hours => if m.hours.Some? then Some(m.hours.value as real) else None
      case Status1 => Some(m.status1 as real)
      case Status2 => Some(m.status2 as real)
  }

  predicate Carries(e: Event, g: GroupField) {
    e.Receive? && Carried(e.message, g).Some?
  }

  predicate LatestInGroup(es: seq<Event>, g: GroupField, k: nat) {
    k < |es| && Carries(es[k], g) && forall j :: k < j < |es| ==> !Carries(es[j], g)
  }

  /** When the last PGN 127489 of the engine arrived, whatever it carried. */
  function DynamicTime(es: seq<Event>): nat {
    if es == [] then 0
    else
      var e := es[|es| - 1];
      if e.Receive? && e.message.EngineDynamic? && e.message.instance == 0 then e.time
      else DynamicTime(es[..|es| - 1])
  }

  /** Poll `j` found that no PGN 127489 had arrived for the fast timeout. */
  predicate Silence(es: seq<Event>, j: nat) {
    j < |es| && es[j].Poll? && Elapsed(Millis(es[j].time), Millis(DynamicTime(es[..j]))) > 5000
  }

  lemma {:induction false} DynamicStamp(es: seq<Event>)
    ensures After(es).stamps.dynamic == Millis(DynamicTime(es))
  {
    if es != [] {
      DynamicStamp(es[..|es| - 1]);
    }
  }

  /** One event changes a field of the group only by carrying it, or by a poll that finds silence. */
  lemma GroupStep(s: State, e: Event, g: GroupField)
    ensures ShownInGroup(Next(s, e).values, g) ==
      if Carries(e, g) then Carried(e.message, g).value
      else if e.Poll? && Elapsed(Millis(e.time), s.stamps.dynamic) > 5000 then Missing(g)
      else ShownInGroup(s.values, g)
  {
    hide Millis, Elapsed;
  }

  /** A field of the group shows its latest carried value, of whatever age, unless a poll since found
      the whole message silent. */
  lemma {:induction false} GroupHistory(es: seq<Event>, g: GroupField, k: nat)
    requires LatestInGroup(es, g, k)
    ensures ShownInGroup(After(es).values, g) ==
      if exists j :: k < j < |es| && Silence(es, j) then Missing(g) else Carried(es[k].message, g).value
  {
    hide Next, Millis, Elapsed;
    var init, e, n := es[..|es| - 1], es[|es| - 1], |es| - 1;
    if k == n {
      GroupStep(After(init), e, g);
    } else {
      GroupHistory(init, g, k);
      DynamicStamp(init);
      assert forall j :: k < j < n ==> es[..j] == init[..j];
      assert forall j :: k < j < n ==> (Silence(es, j) <==> Silence(init, j));
      assert es[..n] == init;
      assert (exists j :: k < j < |es| && Silence(es, j))
        <==> (exists j :: k < j < n && Silence(init, j)) || Silence(es, n);
      GroupStep(After(init), e, g);
    }
  }

  lemma {:induction false} NeverCarriedMissing(es: seq<Event>, g: GroupField)
    requires forall j :: 0 <= j < |es| ==> !Carries(es[j], g)
    ensures ShownInGroup(After(es).values, g) == Missing(g)
  {
    hide Next, Carries;
    if es != [] {
      NeverCarriedMissing(es[..|es| - 1], g);
      GroupStep(After(es[..|es| - 1]), es[|es| - 1], g);
    }
  }

  // ---------------------------------------------------------------------------
  // The coolant temperature, which has a stamp of its own and expires with the group

  predicate GivesCoolant(e: Event) {
    e.Receive? && e.message.EngineDynamic? && e.message.instance == 0 && e.message.coolant != NA
  }

  predicate LatestCoolant(es: seq<Event>, k: nat) {
    k < |es| && GivesCoolant(es[k]) && forall j :: k < j < |es| ==> !GivesCoolant(es[j])
  }

  /** A message of the engine without a coolant temperature, when the last one has been held for long enough. */
  predicate LetsGo(e: Event, given: nat) {
    && e.Receive? && e.message.EngineDynamic? && e.message.instance == 0 && e.message.coolant == NA
    && Elapsed(Millis(e.time), Millis(given)) > 10000
  }

  lemma CoolantStep(s: State, e: Event, given: nat)
    ensures var s' := Next(s, e);
      if GivesCoolant(e) then s'.values.coolant == e.message.coolant && s'.stamps.coolant == Millis(e.time)
      else
        && s'.stamps.coolant == s.stamps.coolant
        && (s.stamps.coolant == Millis(given) ==>
              s'.values.coolant ==
                if LetsGo(e, given) || (e.Poll? && Elapsed(Millis(e.time), s.stamps.dynamic) > 5000) then NA
                else s.values.coolant)
  {
    hide Millis, Elapsed;
  }

  /** Event `j` took the value of event `k` away: a poll in silence, or a message that let it go. */
  predicate Lost(es: seq<Event>, k: nat, j: nat) {
    k < j < |es| && (Silence(es, j) || LetsGo(es[j], es[k].time))
  }

  ghost predicate LostSince(es: seq<Event>, k: nat) {
    exists j: nat :: Lost(es, k, j)
  }

  lemma LostStep(es: seq<Event>, k: nat)
    requires k < |es| - 1
    ensures LostSince(es, k) <==> LostSince(es[..|es| - 1], k) || Lost(es, k, |es| - 1)
  {
    hide Silence, LetsGo;
    var init := es[..|es| - 1];
    forall j: nat | j < |init|
      ensures Lost(es, k, j) <==> Lost(init, k, j)
    {
      SilenceBefore(es, j);
    }
    if LostSince(init, k) {
      var j: nat :| Lost(init, k, j);
      assert Lost(es, k, j);
    }
    if LostSince(es, k) && !Lost(es, k, |es| - 1) {
      var j: nat :| Lost(es, k, j);
      assert Lost(init, k, j);
    }
  }

  lemma SilenceBefore(es: seq<Event>, j: nat)
    requires j < |es| - 1
    ensures Silence(es, j) <==> Silence(es[..|es| - 1], j)
  {
    assert es[..|es| - 1][..j] == es[..j];
  }

  /** The coolant temperature is the last one given, unless one of the two timers has taken it away since. */
  lemma {:induction false} CoolantHistory(es: seq<Event>, k: nat)
    requires LatestCoolant(es, k)
    ensures After(es).values.coolant == if LostSince(es, k) then NA else es[k].message.coolant
    ensures After(es).stamps.coolant == Millis(es[k].time)
  {
    hide Next, Millis, Elapsed, LetsGo, DynamicTime;
    var n := |es| - 1;
    var init, e := es[..n], es[n];
    CoolantStep(After(init), e, es[k].time);
    if k < n {
      CoolantHistory(init, k);
      DynamicStamp(init);
      LostStep(es, k);
    } else {
      assert !LostSince(es, k);
    }
  }

  /** A poll at the end of the run still shows a value older than the fast timeout. */
  predicate Outlives(es: seq<Event>, g: GroupField, k: nat) {
    && Ordered(es) && LatestInGroup(es, g, k)
    && es[|es| - 1].Poll? && es[|es| - 1].time - es[k].time > 5000
    && Carried(es[k].message, g) == Some(ShownInGroup(After(es).values, g))
  }

  /** Leaving out poll `j` changes what the run shows in the end. */
  predicate PollMatters(es: seq<Event>, g: GroupField, j: nat) {
    && Ordered(es) && j < |es| && es[j].Poll?
    && ShownInGroup(After(es).values, g) != ShownInGroup(After(es[..j] + es[j + 1..]).values, g)
  }

  /** So the five-second rule of the documentation does not hold for them: an oil pressure outlives it
      while messages without one keep coming. */
  lemma OilPressureOutlivesTimeout()
    ensures exists es: seq<Event>, k: nat :: Outlives(es, OilPressure, k)
  {
    var full := EngineDynamic(0, 350000.0, NA, NA, NA, None, 0, 0);
    var bare := full.(oilPressure := NA);
    var es := [Receive(1000, full), Receive(5000, bare), Poll(7000)];
    assert LatestInGroup(es, OilPressure, 0);
    assert es[..2] == [Receive(1000, full), Receive(5000, bare)];
    assert DynamicTime(es[..2]) == 5000;
    assert !Silence(es, 1) && !Silence(es, 2);
    GroupHistory(es, OilPressure, 0);
    assert Outlives(es, OilPressure, 0);
  }

  /** And whether a value survives a gap in the messages depends on whether a poll fell into it. */
  lemma GroupDependsOnPolls()
    ensures exists es: seq<Event>, j: nat :: PollMatters(es, OilPressure, j)
  {
    var full := EngineDynamic(0, 350000.0, NA, NA, NA, None, 0, 0);
    var bare := full.(oilPressure := NA);
    var a, b, c := Receive(1000, full), Poll(7000), Receive(8000, bare);
    var es, fs := [a, b, c], [a, c];
    assert es[..1] == [a] && es[..1] + es[2..] == fs;
    assert DynamicTime(es[..1]) == 1000;
    assert Silence(es, 1);
    GroupHistory(es, OilPressure, 0);
    assert !Silence(fs, 1);
    GroupHistory(fs, OilPressure, 0);
    assert PollMatters(es, OilPressure, 1);
  }
}
