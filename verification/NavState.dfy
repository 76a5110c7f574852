/**
 The navigation part of the bus state (`N2KHandler`): what each message stores, how
 fields expire, and which changes reach the BLE server. Floating-point values are
 reals; parsing the messages is not part of this model.
 */
module NavState {
  import opened Bytes
  import opened Wrappers
  import opened Clock
  import opened N2kValues

  const NAV_TIMEOUT_MS := 15000
  const FAA_MS := 5000   // how long a safe fix keeps unsafe ones out

  datatype Values = Values(latitude: real, longitude: real, cogt: real, cogm: real, sog: real, variation: real,
                           headingMagnetic: real, headingTrue: real, depth: real, awa: real, aws: real, stw: real,
                           log: u32)

  const ALL_NA := Values(NA, NA, NA, NA, NA, NA, NA, NA, NA, NA, NA, NA, NA32)

  datatype Stamps = Stamps(latLon: u32, cogt: u32, cogm: u32, sog: u32, variation: u32, heading: u32, depth: u32,
                           awa: u32, aws: u32, stw: u32, log: u32, faa: u32)

  datatype State = State(values: Values, stamps: Stamps, dirty: bool)

  const INITIAL := State(ALL_NA, Stamps(0, 0, 0, 0, 0, 0, 0, 0, 0, 0, 0, 0), false)

  /** The messages that reach the navigation state; a field the sender left out reads as NA. */
  datatype Message =
    | MagneticVariation(variation: real)
    | VesselHeading(magnetic: bool, heading: real, variation: real)
    | WaterSpeed(speed: real)
    | WaterDepth(depth: real)
    | DistanceLog(log: u32)
    | GnssPosition(latitude: real, longitude: real, isUnsafe: bool)
    | RapidPosition(latitude: real, longitude: real)
    | CogSog(magnetic: bool, cog: real, sog: real)
    | Wind(apparent: bool, angle: real, speed: real)

  function OnVariation(s: State, variation: real, now: u32): State {
    if variation == NA then s
    else
      State(s.values.(variation := variation), s.stamps.(variation := now),
            s.dirty || s.values.variation != variation)
  }

  function OnHeading(s: State, magnetic: bool, heading: real, now: u32): State {
    var v := s.values;
    if magnetic then
      State(if heading == NA then v
            else v.(headingMagnetic := heading,
                    headingTrue := if v.variation != NA then heading - v.variation else v.headingTrue),
            if heading == NA then s.stamps else s.stamps.(heading := now),
            s.dirty || v.headingMagnetic != heading)
    else
      var used := heading != NA && v.headingMagnetic == NA;
      State(if !used then v
            else v.(headingTrue := heading, headingMagnetic := if v.variation != NA then heading + v.variation else NA),
            if used then s.stamps.(heading := now) else s.stamps,
            s.dirty || v.headingTrue != heading)
  }

  /** The true and the magnetic course a message gives. */
  function Courses(v: Values, magnetic: bool, cog: real): (real, real) {
    if cog == NA then (NA, NA)
    else if magnetic then (if v.variation != NA then cog - v.variation else NA, cog)
    else (cog, if v.variation != NA then cog + v.variation else NA)
  }

  function OnCogSog(s: State, magnetic: bool, cog: real, sog: real, now: u32): State {
    var v, t := s.values, s.stamps;
    var (trueCog, magneticCog) := Courses(v, magnetic, cog);
    var (cogt, cogtStamp) := Update(v.cogt, trueCog, t.cogt, now);
    var (cogm, cogmStamp) := Update(v.cogm, magneticCog, t.cogm, now);
    var (newSog, sogStamp) := Update(v.sog, sog, t.sog, now);
    State(v.(cogt := cogt, cogm := cogm, sog := newSog), t.(cogt := cogtStamp, cogm := cogmStamp, sog := sogStamp),
          s.dirty || (if magnetic then v.cogm else v.cogt) != cog || v.sog != sog)
  }

  function OnWind(s: State, angle: real, speed: real, now: u32): State {
    var v, t := s.values, s.stamps;
    var (awa, awaStamp) := Update(v.awa, angle, t.awa, now);
    var (aws, awsStamp) := Update(v.aws, speed, t.aws, now);
    State(v.(awa := awa, aws := aws), t.(awa := awaStamp, aws := awsStamp),
          s.dirty || v.awa != angle || v.aws != speed)
  }

  function OnPosition(s: State, latitude: real, longitude: real, stored: bool, safe: bool, now: u32): State {
    var v, t := s.values, s.stamps;
    var t1 := if safe then t.(faa := now) else t;
    State(if stored then v.(latitude := latitude, longitude := longitude) else v,
          if stored then t1.(latLon := now) else t1,
          s.dirty || v.latitude != latitude || v.longitude != longitude)
  }

  function Handle(s: State, m: Message, now: u32): State {
    var v, t := s.values, s.stamps;
    match m
    case MagneticVariation(variation) =>
      OnVariation(s, variation, now).(dirty := s.dirty || v.variation != variation)
    case VesselHeading(magnetic, heading, variation) =>
      OnHeading(OnVariation(s, variation, now), magnetic, heading, now)
    case WaterSpeed(speed) =>
      var (stw, stamp) := Update(v.stw, speed, t.stw, now);
      State(v.(stw := stw), t.(stw := stamp), s.dirty || v.stw != speed)
    case WaterDepth(depth) =>
      State(v.(depth := depth), if depth != NA then t.(depth := now) else t, s.dirty || v.depth != depth)
    case DistanceLog(log) =>
      State(v.(log := log), if log != NA32 then t.(log := now) else t, s.dirty || v.log != log)
    case GnssPosition(latitude, longitude, isUnsafe) =>
      OnPosition(s, latitude, longitude, !isUnsafe || Elapsed(now, t.faa) > FAA_MS, !isUnsafe, now)
    case RapidPosition(latitude, longitude) => OnPosition(s, latitude, longitude, true, false, now)
    case CogSog(magnetic, cog, sog) => OnCogSog(s, magnetic, cog, sog, now)
    case Wind(apparent, angle, speed) => if apparent then OnWind(s, angle, speed, now) else s
  }

  predicate Stale(stamp: u32, now: u32) {
    Elapsed(now, stamp) > NAV_TIMEOUT_MS
  }

  function Expired(value: real, stamp: u32, now: u32): real {
    if Stale(stamp, now) then NA else value
  }

  /** The position goes by its latitude. */
  function ExpireMotion(v: Values, t: Stamps, now: u32): Values {
    var position := v.latitude != NA && Stale(t.latLon, now);
    v.(latitude := if position then NA else v.latitude, longitude := if position then NA else v.longitude,
       cogt := Expired(v.cogt, t.cogt, now), cogm := Expired(v.cogm, t.cogm, now),
       sog := Expired(v.sog, t.sog, now), variation := Expired(v.variation, t.variation, now))
  }

  /** Both headings go by the magnetic one. */
  function ExpireReadings(v: Values, t: Stamps, now: u32): Values {
    var heading := v.headingMagnetic != NA && Stale(t.heading, now);
    v.(headingMagnetic := if heading then NA else v.headingMagnetic,
       headingTrue := if heading then NA else v.headingTrue,
       depth := Expired(v.depth, t.depth, now), awa := Expired(v.awa, t.awa, now), aws := Expired(v.aws, t.aws, now),
       stw := Expired(v.stw, t.stw, now), log := if Stale(t.log, now) then NA32 else v.log)
  }

  /** `expireStaleNavData`. */
  function ExpireValues(v: Values, t: Stamps, now: u32): Values {
    ExpireReadings(ExpireMotion(v, t, now), t, now)
  }

  function Expire(s: State, now: u32): State {
    var v := ExpireValues(s.values, s.stamps, now);
    State(v, s.stamps, s.dirty || v != s.values)
  }

  // ---------------------------------------------------------------------------
  // Runs

  /** A message arrives, or the main loop polls. */
  datatype Event = Receive(time: nat, message: Message) | Poll(time: nat)

  function Next(s: State, e: Event): State {
    match e
    case Receive(t, m) => Handle(s, m, Millis(t))
    case Poll(t) => Expire(s, Millis(t))
  }

  function After(es: seq<Event>): State {
    if es == [] then INITIAL else Next(After(es[..|es| - 1]), es[|es| - 1])
  }

  predicate Ordered(es: seq<Event>) {
    forall i, j :: 0 <= i < j < |es| ==> es[i].time <= es[j].time
  }

  // ---------------------------------------------------------------------------
  // Every field shown was refreshed within the timeout

  /** The fields with a timeout of their own: all that are published but the longitude, and the magnetic course. */
  datatype Field = Latitude | Cog | CogMagnetic | Sog | Variation | Heading | Depth | Awa | Aws | Stw | Log

  function Valued(x: real): Option<real> {
    if x == NA then None else Some(x)
  }

  function Counted(n: u32): Option<real> {
    if n == NA32 then None else Some(n as real)
  }

  function Shown(v: Values, f: Field): Option<real> {
    match f
    case Latitude => Valued(v.latitude)
    case Cog => Valued(v.cogt)
    case CogMagnetic => Valued(v.cogm)
    case Sog => Valued(v.sog)
    case Variation => Valued(v.variation)
    case Heading => Valued(v.headingMagnetic)
    case Depth => Valued(v.depth)
    case Awa => Valued(v.awa)
    case Aws => Valued(v.aws)
    case Stw => Valued(v.stw)
    case Log => Counted(v.log)
  }

  function Stamp(t: Stamps, f: Field): u32 {
    match f
    case Latitude => t.latLon
    case Cog => t.cogt
    case CogMagnetic => t.cogm
    case Sog => t.sog
    case Variation => t.variation
    case Heading => t.heading
    case Depth => t.depth
    case Awa => t.awa
    case Aws => t.aws
    case Stw => t.stw
    case Log => t.log
  }

  /** The magnetic heading a heading message gives: as sent, or from a true one when there is none yet. */
  function HeadingGiven(v: Values, m: Message): Option<real>
    requires m.VesselHeading?
  {
    var variation := if m.variation != NA then m.variation else v.variation;
    if m.heading == NA then None
    else if m.magnetic then Some(m.heading)
    else if v.headingMagnetic == NA && variation != NA then Valued(m.heading + variation)
    else None
  }

  /** The value a message gives a field in a state, if it gives it one. */
  function Given(s: State, m: Message, f: Field, now: u32): Option<real> {
    match f
    case Latitude =>
      if m.RapidPosition? || (m.GnssPosition? && (!m.isUnsafe || Elapsed(now, s.stamps.faa) > FAA_MS))
        then Valued(m.latitude)
      else None
    case Cog =>
      if !m.CogSog? || m.cog == NA then None
      else if !m.magnetic then Some(m.cog)
      else if s.values.variation == NA then None
      else Valued(m.cog - s.values.variation)
    case CogMagnetic =>
      if !m.CogSog? || m.cog == NA then None
      else if m.magnetic then Some(m.cog)
      else if s.values.variation == NA then None
      else Valued(m.cog + s.values.variation)
    case Sog => if m.CogSog? then Valued(m.sog) else None
    case Variation => if m.MagneticVariation? || m.VesselHeading? then Valued(m.variation) else None
    case Heading => if m.VesselHeading? then HeadingGiven(s.values, m) else None
    case Depth => if m.WaterDepth? then Valued(m.depth) else None
    case Awa => if m.Wind? && m.apparent then Valued(m.angle) else None
    case Aws => if m.Wind? && m.apparent then Valued(m.speed) else None
    case Stw => if m.WaterSpeed? then Valued(m.speed) else None
    case Log => if m.DistanceLog? then Counted(m.log) else None
  }

  function Refresh(s: State, e: Event, f: Field): Option<real> {
    if e.Receive? then Given(s, e.message, f, Millis(e.time)) else None
  }

  /** The message carries a position, and is not kept out by a safe fix. */
  predicate StoresPosition(s: State, e: Event) {
    e.Receive? && (e.message.RapidPosition?
      || (e.message.GnssPosition? && (!e.message.isUnsafe || Elapsed(Millis(e.time), s.stamps.faa) > FAA_MS)))
  }

  /** The event takes away a value last given `age` milliseconds ago: a poll after fifteen seconds; a message of the
      field's own kind that lacks it, at once or after ten seconds; a stored position without a latitude. */
  predicate Takes(s: State, e: Event, f: Field, age: nat) {
    match e
    case Poll(_) => age > 15000
    case Receive(_, m) =>
      Refresh(s, e, f).None? && (
        match f
        case Latitude => StoresPosition(s, e)
        case Depth => m.WaterDepth?
        case Log => m.DistanceLog?
        case Cog => m.CogSog? && age > 10000
        case CogMagnetic => m.CogSog? && age > 10000
        case Sog => m.CogSog? && age > 10000
        case Awa => m.Wind? && m.apparent && age > 10000
        case Aws => m.Wind? && m.apparent && age > 10000
        case Stw => m.WaterSpeed? && age > 10000
        case Variation => false
        case Heading => false)
  }

  /** The field is given a value, loses its value, or keeps value and stamp. */
  predicate Becomes(s: State, s': State, given: Option<real>, taken: bool, f: Field, now: u32) {
    if given.Some? then Shown(s'.values, f) == given && Stamp(s'.stamps, f) == now
    else if taken || Shown(s.values, f) == None then Shown(s'.values, f) == None
    else Shown(s'.values, f) == Shown(s.values, f) && Stamp(s'.stamps, f) == Stamp(s.stamps, f)
  }

  predicate Steps(s: State, e: Event, f: Field) {
    var now := Millis(e.time);
    Becomes(s, Next(s, e), Refresh(s, e, f), Takes(s, e, f, Elapsed(now, Stamp(s.stamps, f))), f, now)
  }

  lemma CourseStep(s: State, e: Event, f: Field)
    requires e.Receive? && e.message.CogSog?
    ensures Steps(s, e, f)
  {
    hide Elapsed, Millis;
  }

  lemma HeadingStep(s: State, e: Event, f: Field)
    requires e.Receive? && e.message.VesselHeading?
    ensures Steps(s, e, f)
  {
    hide Elapsed, Millis;
  }

  lemma StoredStep(s: State, e: Event, f: Field)
    requires e.Receive? && (e.message.GnssPosition? || e.message.RapidPosition?)
    ensures Steps(s, e, f)
  {
    hide Elapsed, Millis;
  }

  lemma OtherStep(s: State, e: Event, f: Field)
    requires e.Receive?
    requires var m := e.message; !m.CogSog? && !m.VesselHeading? && !m.GnssPosition? && !m.RapidPosition?
    ensures Steps(s, e, f)
  {
    hide Elapsed, Millis;
  }

  lemma PollStep(s: State, e: Event, f: Field)
    requires e.Poll?
    ensures Steps(s, e, f)
  {
    hide Elapsed, Millis;
  }

  lemma FieldStep(s: State, e: Event, f: Field)
    ensures Steps(s, e, f)
  {
    hide Steps;
    if e.Poll? {
      PollStep(s, e, f);
    } else if e.message.CogSog? {
      CourseStep(s, e, f);
    } else if e.message.VesselHeading? {
      HeadingStep(s, e, f);
    } else if e.message.GnssPosition? || e.message.RapidPosition? {
      StoredStep(s, e, f);
    } else {
      OtherStep(s, e, f);
    }
  }

  /** Event `k` is the last that gave the field a value. */
  predicate LastGiven(es: seq<Event>, f: Field, k: nat) {
    && k < |es| && Refresh(After(es[..k]), es[k], f).Some?
    && forall j :: k < j < |es| ==> Refresh(After(es[..j]), es[j], f).None?
  }

  predicate NeverGiven(es: seq<Event>, f: Field) {
    forall j :: 0 <= j < |es| ==> Refresh(After(es[..j]), es[j], f).None?
  }

  /** Event `j` takes away what event `k` gave, by the clock. */
  predicate TakesAt(es: seq<Event>, f: Field, k: nat, j: nat) {
    k < j < |es| && Takes(After(es[..j]), es[j], f, Elapsed(Millis(es[j].time), Millis(es[k].time)))
  }

  ghost predicate TakenAway(es: seq<Event>, f: Field, k: nat) {
    exists j: nat :: TakesAt(es, f, k, j)
  }

  lemma TakenStep(es: seq<Event>, f: Field, k: nat)
    requires k < |es| - 1
    ensures TakenAway(es, f, k) <==> TakenAway(es[..|es| - 1], f, k) || TakesAt(es, f, k, |es| - 1)
  {
    hide Takes, After, Elapsed, Millis;
    var init := es[..|es| - 1];
    forall j: nat | j < |init|
      ensures TakesAt(es, f, k, j) <==> TakesAt(init, f, k, j)
    {
      assert es[..j] == init[..j];
    }
    if TakenAway(init, f, k) {
      var j: nat :| TakesAt(init, f, k, j);
      assert TakesAt(es, f, k, j);
    }
    if TakenAway(es, f, k) && !TakesAt(es, f, k, |es| - 1) {
      var j: nat :| TakesAt(es, f, k, j);
      assert TakesAt(init, f, k, j);
    }
  }

  /** The field shows what it was last given, unless some event since took that away. */
  lemma {:induction false} FieldHistory(es: seq<Event>, f: Field, k: nat)
    requires LastGiven(es, f, k)
    ensures Shown(After(es).values, f) == if TakenAway(es, f, k) then None else Refresh(After(es[..k]), es[k], f)
    ensures !TakenAway(es, f, k) ==> Stamp(After(es).stamps, f) == Millis(es[k].time)
  {
    hide Next, Refresh, Takes, Millis, Elapsed, Shown, Stamp;
    var n := |es| - 1;
    var init := es[..n];
    FieldStep(After(init), es[n], f);
    if k < n {
      assert forall j :: 0 <= j < n ==> es[..j] == init[..j];
      FieldHistory(init, f, k);
      TakenStep(es, f, k);
    } else {
      assert !TakenAway(es, f, k);
    }
  }

  lemma {:induction false} NeverGivenNone(es: seq<Event>, f: Field)
    requires NeverGiven(es, f)
    ensures Shown(After(es).values, f) == None
  {
    hide Next, Refresh, Takes, Millis, Elapsed;
    if es != [] {
      var init := es[..|es| - 1];
      assert forall j :: 0 <= j < |init| ==> es[..j] == init[..j];
      NeverGivenNone(init, f);
      FieldStep(After(init), es[|es| - 1], f);
    }
  }

  /** A field has a last value or never had one. */
  lemma {:induction false} FindLast(es: seq<Event>, f: Field) returns (k: nat)
    ensures LastGiven(es, f, k) || NeverGiven(es, f)
  {
    hide After, Refresh;
    k := 0;
    if es != [] {
      var n := |es| - 1;
      if Refresh(After(es[..n]), es[n], f).Some? {
        k := n;
      } else {
        k := FindLast(es[..n], f);
        LastExtends(es, f, k);
      }
    }
  }

  lemma LastExtends(es: seq<Event>, f: Field, k: nat)
    requires es != [] && Refresh(After(es[..|es| - 1]), es[|es| - 1], f).None?
    ensures LastGiven(es[..|es| - 1], f, k) ==> LastGiven(es, f, k)
    ensures NeverGiven(es[..|es| - 1], f) ==> NeverGiven(es, f)
  {
    hide After, Refresh;
    var init := es[..|es| - 1];
    assert forall j :: 0 <= j < |init| ==> es[..j] == init[..j];
  }

  /** A field that shows a value shows the one it was last given, and nothing since has taken that away. */
  lemma ShownIsLive(es: seq<Event>, f: Field) returns (k: nat)
    requires Shown(After(es).values, f).Some?
    ensures LastGiven(es, f, k) && !TakenAway(es, f, k)
    ensures Shown(After(es).values, f) == Refresh(After(es[..k]), es[k], f)
    ensures Stamp(After(es).stamps, f) == Millis(es[k].time)
  {
    hide After, Refresh, Shown, Stamp, LastGiven, NeverGiven, TakenAway;
    k := FindLast(es, f);
    if NeverGiven(es, f) {
      NeverGivenNone(es, f);
    }
    FieldHistory(es, f, k);
  }

  /** The main loop polls at least once in the part of the clock's period in which an age is too old. */
  predicate Polled(es: seq<Event>, now: nat) {
    forall k :: 0 <= k < |es| && now - es[k].time >= WRAP ==>
      exists j :: k < j < |es| && es[j].Poll? && NAV_TIMEOUT_MS < es[j].time - es[k].time < WRAP
  }

  /** A message took away, in real time, what event `k` gave. */
  predicate DropsAt(es: seq<Event>, f: Field, k: nat, j: nat) {
    k < j < |es| && es[j].Receive? && es[k].time <= es[j].time
    && Takes(After(es[..j]), es[j], f, es[j].time - es[k].time)
  }

  ghost predicate Dropped(es: seq<Event>, f: Field, k: nat) {
    exists j: nat :: DropsAt(es, f, k, j)
  }

  /** After a poll, a field shows its last value if and only if that is at most fifteen seconds old and no message
      since took it away. */
  lemma ShownAtPoll(es: seq<Event>, now: nat, f: Field, k: nat)
    requires Ordered(es + [Poll(now)]) && Polled(es, now) && LastGiven(es, f, k)
    ensures Shown(After(es + [Poll(now)]).values, f) ==
      if now - es[k].time <= 15000 && !Dropped(es, f, k) then Refresh(After(es[..k]), es[k], f) else None
  {
    hide After, Refresh, Takes, Millis, Elapsed, Shown, Stamp;
    var run := es + [Poll(now)];
    assert forall j :: 0 <= j < |es| ==> run[..j] == es[..j] && run[j] == es[j];
    assert run[..|es|] == es && run[|es|] == Poll(now);
    assert Refresh(After(es), Poll(now), f) == None by { PollGivesNothing(After(es), now, f); }
    FieldHistory(run, f, k);
    TakenByAge(es, now, f, k);
  }

  lemma PollGivesNothing(s: State, now: nat, f: Field)
    ensures Refresh(s, Poll(now), f) == None
  {
  }

  lemma AgesAgree(given: nat, now: nat)
    requires given <= now
    ensures Elapsed(Millis(now), Millis(given)) <= now - given
    ensures now - given < WRAP ==> Elapsed(Millis(now), Millis(given)) == now - given
  {
    hide Elapsed, Millis;
    ElapsedMillis(now, given);
  }

  lemma TakesOlder(s: State, e: Event, f: Field, age: nat, older: nat)
    requires age <= older
    ensures Takes(s, e, f, age) ==> Takes(s, e, f, older)
    ensures e.Poll? ==> (Takes(s, e, f, older) <==> older > 15000)
  {
    hide Refresh, StoresPosition;
  }

  /** By the clock an event looks no older than it is, and exactly as old within a turn. */
  lemma TakesByAge(run: seq<Event>, f: Field, k: nat, j: nat)
    requires k < j < |run| && run[k].time <= run[j].time
    ensures var s, e, age := After(run[..j]), run[j], run[j].time - run[k].time;
      && (TakesAt(run, f, k, j) ==> Takes(s, e, f, age))
      && (age < WRAP && Takes(s, e, f, age) ==> TakesAt(run, f, k, j))
      && (e.Poll? ==> (Takes(s, e, f, age) <==> age > 15000))
  {
    hide After, Takes, Millis, Elapsed;
    AgesAgree(run[k].time, run[j].time);
    TakesOlder(After(run[..j]), run[j], f, Elapsed(Millis(run[j].time), Millis(run[k].time)),
               run[j].time - run[k].time);
  }

  /** By the clock or in real time, it comes to the same. */
  lemma TakenByAge(es: seq<Event>, now: nat, f: Field, k: nat)
    requires Ordered(es + [Poll(now)]) && Polled(es, now) && k < |es|
    ensures TakenAway(es + [Poll(now)], f, k) <==> now - es[k].time > 15000 || Dropped(es, f, k)
  {
    hide TakesAt, Polled;
    if now - es[k].time > 15000 {
      OldIsTaken(es, now, f, k);
    } else {
      var run := es + [Poll(now)];
      if TakenAway(run, f, k) {
        var j: nat :| TakesAt(run, f, k, j);
        TakenIsDropped(es, now, f, k, j);
      }
      if Dropped(es, f, k) {
        var j: nat :| DropsAt(es, f, k, j);
        DroppedIsTaken(es, now, f, k, j);
      }
    }
  }

  lemma TakenIsDropped(es: seq<Event>, now: nat, f: Field, k: nat, j: nat)
    requires Ordered(es + [Poll(now)]) && k < |es| && now - es[k].time <= 15000
    requires TakesAt(es + [Poll(now)], f, k, j)
    ensures DropsAt(es, f, k, j)
  {
    hide After, Takes, Millis, Elapsed;
    var run := es + [Poll(now)];
    assert run[k].time <= run[j].time;
    assert j < |es| ==> run[j].time <= run[|es|].time && run[..j] == es[..j];
    TakesByAge(run, f, k, j);
  }

  lemma DroppedIsTaken(es: seq<Event>, now: nat, f: Field, k: nat, j: nat)
    requires Ordered(es + [Poll(now)]) && k < |es| && now - es[k].time <= 15000
    requires DropsAt(es, f, k, j)
    ensures TakesAt(es + [Poll(now)], f, k, j)
  {
    hide After, Takes, Millis, Elapsed;
    var run := es + [Poll(now)];
    assert run[j].time <= run[|es|].time && run[..j] == es[..j];
    TakesByAge(run, f, k, j);
  }

  lemma OldIsTaken(es: seq<Event>, now: nat, f: Field, k: nat)
    requires Ordered(es + [Poll(now)]) && Polled(es, now) && k < |es| && now - es[k].time > 15000
    ensures TakenAway(es + [Poll(now)], f, k)
  {
    hide After, Takes, Millis, Elapsed;
    var run, given := es + [Poll(now)], es[k].time;
    var j: nat;
    if now - given < WRAP {
      j := |es|;
    } else {
      j :| k < j < |es| && es[j].Poll? && NAV_TIMEOUT_MS < es[j].time - es[k].time < WRAP;
    }
    assert run[k].time <= run[j].time;
    TakesByAge(run, f, k, j);
    assert TakesAt(run, f, k, j);
  }

  /** Every field a poll leaves showing, the longitude aside, shows what a message gave it in the last 15 seconds. */
  lemma ShownIsFresh(es: seq<Event>, now: nat, f: Field) returns (k: nat)
    requires Ordered(es + [Poll(now)]) && Polled(es, now)
    requires Shown(After(es + [Poll(now)]).values, f).Some?
    ensures LastGiven(es, f, k) && 0 <= now - es[k].time <= 15000
    ensures Shown(After(es + [Poll(now)]).values, f) == Refresh(After(es[..k]), es[k], f)
  {
    hide After, Refresh, Shown, Takes;
    var run := es + [Poll(now)];
    k := FindLast(es, f);
    if NeverGiven(es, f) {
      assert forall j :: 0 <= j < |es| ==> run[..j] == es[..j] && run[j] == es[j];
      assert run[..|es|] == es;
      PollGivesNothing(After(es), now, f);
      NeverGivenNone(run, f);
    }
    ShownAtPoll(es, now, f, k);
    assert run[k].time <= run[|es|].time;
  }

  /** Nothing takes a fresh variation or heading away but a poll. */
  lemma NeverDropped(es: seq<Event>, f: Field, k: nat)
    requires f.Variation? || f.Heading?
    ensures !Dropped(es, f, k)
  {
  }

  lemma NotStaleMeansYoung(given: nat, now: nat)
    requires given <= now
    ensures now - given < WRAP ==> (Stale(Millis(given), Millis(now)) <==> now - given > NAV_TIMEOUT_MS)
  {
    hide Millis, Elapsed;
    ElapsedMillis(now, given);
  }

  // ---------------------------------------------------------------------------
  // Courses and headings

  /** The courses after a message with one: the other follows from the variation, if that is known. */
  lemma CourseGiven(s: State, magnetic: bool, cog: real, sog: real, now: u32)
    requires cog != NA
    ensures var v, v' := s.values, Handle(s, CogSog(magnetic, cog, sog), now).values;
      && (magnetic ==> v'.cogm == cog)
      && (magnetic && v.variation != NA && cog - v.variation != NA ==> v'.cogt == cog - v.variation)
      && (magnetic && v.variation == NA ==> v'.cogt == v.cogt || v'.cogt == NA)
      && (!magnetic ==> v'.cogt == cog)
      && (!magnetic && v.variation != NA && cog + v.variation != NA ==> v'.cogm == cog + v.variation)
      && (!magnetic && v.variation == NA ==> v'.cogm == v.cogm || v'.cogm == NA)
  {
    hide Elapsed;
  }

  /** A variation, then a course: what is published is the true course. */
  lemma CourseAfterVariation(es: seq<Event>, d: real, t: nat, magnetic: bool, cog: real, sog: real, u: nat)
    requires d != NA && cog != NA && cog - d != NA
    ensures var run := es + [Receive(t, MagneticVariation(d)), Receive(u, CogSog(magnetic, cog, sog))];
      After(run).values.cogt == if magnetic then cog - d else cog
  {
    hide Handle, Millis;
    var m, c := Receive(t, MagneticVariation(d)), Receive(u, CogSog(magnetic, cog, sog));
    var run := es + [m, c];
    assert run[..|es| + 1] == es + [m] && (es + [m])[..|es|] == es;
    VariationGiven(After(es), d, Millis(t));
    CourseGiven(After(es + [m]), magnetic, cog, sog, Millis(u));
  }

  lemma VariationGiven(s: State, d: real, now: u32)
    requires d != NA
    ensures Handle(s, MagneticVariation(d), now).values == s.values.(variation := d)
  {
  }

  /** The headings after a message with one. A true heading counts only while there is no magnetic one. */
  lemma HeadingsGiven(s: State, magnetic: bool, heading: real, variation: real, now: u32)
    requires heading != NA
    ensures var v, v' := s.values, Handle(s, VesselHeading(magnetic, heading, variation), now).values;
      var d := if variation != NA then variation else v.variation;
      && v'.variation == d
      && (magnetic ==> v'.headingMagnetic == heading)
      && (magnetic ==> v'.headingTrue == if d != NA then heading - d else v.headingTrue)
      && (!magnetic && v.headingMagnetic != NA ==>
            v'.headingMagnetic == v.headingMagnetic && v'.headingTrue == v.headingTrue)
      && (!magnetic && v.headingMagnetic == NA ==>
            v'.headingTrue == heading && v'.headingMagnetic == if d != NA then heading + d else NA)
  {
  }

  // ---------------------------------------------------------------------------
  // The position, whose two fields share a stamp and go by the latitude

  predicate LastStored(es: seq<Event>, k: nat) {
    && k < |es| && StoresPosition(After(es[..k]), es[k])
    && forall j :: k < j < |es| ==> !StoresPosition(After(es[..j]), es[j])
  }

  predicate NeverStored(es: seq<Event>) {
    forall j :: 0 <= j < |es| ==> !StoresPosition(After(es[..j]), es[j])
  }

  /** A fix the receiver does not call unsafe. */
  predicate SafeFix(e: Event) {
    e.Receive? && e.message.GnssPosition? && !e.message.isUnsafe
  }

  predicate LastSafe(es: seq<Event>, k: nat) {
    k < |es| && SafeFix(es[k]) && forall j :: k < j < |es| ==> !SafeFix(es[j])
  }

  lemma SafeStep(s: State, e: Event)
    ensures Next(s, e).stamps.faa == if SafeFix(e) then Millis(e.time) else s.stamps.faa
  {
    hide Elapsed, Millis;
  }

  lemma {:induction false} SafeStamp(es: seq<Event>, k: nat)
    requires LastSafe(es, k)
    ensures After(es).stamps.faa == Millis(es[k].time)
  {
    hide Next, Millis;
    var n := |es| - 1;
    SafeStep(After(es[..n]), es[n]);
    if k < n {
      SafeStamp(es[..n], k);
    }
  }

  lemma {:induction false} NoSafeStamp(es: seq<Event>)
    requires forall j :: 0 <= j < |es| ==> !SafeFix(es[j])
    ensures After(es).stamps.faa == 0
  {
    hide Next, Millis;
    if es != [] {
      NoSafeStamp(es[..|es| - 1]);
      SafeStep(After(es[..|es| - 1]), es[|es| - 1]);
    }
  }

  /** A safe fix is stored; an unsafe one exactly when the last safe one is more than five seconds old, less whole
      turns of the clock. */
  lemma FixStoredIff(es: seq<Event>, k: nat, now: nat, latitude: real, longitude: real, isUnsafe: bool)
    requires LastSafe(es, k) && es[k].time <= now
    ensures var v, v' := After(es).values,
        After(es + [Receive(now, GnssPosition(latitude, longitude, isUnsafe))]).values;
      if !isUnsafe || (now - es[k].time) % WRAP > 5000 then v'.latitude == latitude && v'.longitude == longitude
      else v'.latitude == v.latitude && v'.longitude == v.longitude
  {
    hide Next, Millis, Elapsed;
    var e := Receive(now, GnssPosition(latitude, longitude, isUnsafe));
    assert (es + [e])[..|es|] == es;
    SafeStamp(es, k);
    ElapsedMillis(now, es[k].time);
    PositionStep(After(es), e);
  }

  /** Before the first safe fix it depends on the time since the start alone. */
  lemma FirstFixStoredIff(es: seq<Event>, now: nat, latitude: real, longitude: real)
    requires forall j :: 0 <= j < |es| ==> !SafeFix(es[j])
    ensures var v, v' := After(es).values, After(es + [Receive(now, GnssPosition(latitude, longitude, true))]).values;
      if now % WRAP > 5000 then v'.latitude == latitude && v'.longitude == longitude
      else v'.latitude == v.latitude && v'.longitude == v.longitude
  {
    hide Next, Millis, Elapsed;
    var e := Receive(now, GnssPosition(latitude, longitude, true));
    assert (es + [e])[..|es|] == es;
    NoSafeStamp(es);
    ElapsedMillis(now, 0);
    ClockStartsAtZero();
    PositionStep(After(es), e);
  }

  lemma ClockStartsAtZero()
    ensures Millis(0) == 0
  {
  }

  /** Event `j` is a poll that finds the position of event `k` too old. */
  predicate FindsStale(es: seq<Event>, k: nat, j: nat) {
    k < j < |es| && es[j].Poll? && Stale(Millis(es[k].time), Millis(es[j].time))
  }

  /** Some poll did. */
  ghost predicate FoundStale(es: seq<Event>, k: nat) {
    exists j: nat :: FindsStale(es, k, j)
  }

  lemma PositionStep(s: State, e: Event)
    ensures var v, v' := s.values, Next(s, e).values;
      if StoresPosition(s, e) then
        && v'.latitude == e.message.latitude && v'.longitude == e.message.longitude
        && Next(s, e).stamps.latLon == Millis(e.time)
      else
        var dropped := e.Poll? && v.latitude != NA && Stale(s.stamps.latLon, Millis(e.time));
        && v'.latitude == (if dropped then NA else v.latitude) && v'.longitude == (if dropped then NA else v.longitude)
        && Next(s, e).stamps.latLon == s.stamps.latLon
  {
    hide Elapsed, Millis;
  }

  /** Latitude and longitude are those of the last stored position, unless a poll since found it too old; without a
      latitude no poll ever does. */
  lemma {:induction false} PositionHistory(es: seq<Event>, k: nat)
    requires LastStored(es, k)
    ensures var m, v := es[k].message, After(es).values;
      var dropped := m.latitude != NA && FoundStale(es, k);
      && v.latitude == (if dropped then NA else m.latitude) && v.longitude == (if dropped then NA else m.longitude)
      && After(es).stamps.latLon == Millis(es[k].time)
  {
    hide Next, Millis, Stale, StoresPosition;
    var n := |es| - 1;
    var init := es[..n];
    PositionStep(After(init), es[n]);
    if k < n {
      assert forall j :: 0 <= j < n ==> es[..j] == init[..j];
      PositionHistory(init, k);
      DroppedStep(es, k);
    } else {
      assert !FoundStale(es, k);
    }
  }

  lemma DroppedStep(es: seq<Event>, k: nat)
    requires k < |es| - 1
    ensures FoundStale(es, k) <==> FoundStale(es[..|es| - 1], k) || FindsStale(es, k, |es| - 1)
  {
    hide Millis, Stale;
    var init := es[..|es| - 1];
    assert forall j: nat :: j < |init| ==> (FindsStale(es, k, j) <==> FindsStale(init, k, j));
    if FoundStale(init, k) {
      var j: nat :| FindsStale(init, k, j);
      assert FindsStale(es, k, j);
    }
    if FoundStale(es, k) && !FindsStale(es, k, |es| - 1) {
      var j: nat :| FindsStale(es, k, j);
      assert FindsStale(init, k, j);
    }
  }

  lemma {:induction false} NoPositionYet(es: seq<Event>)
    requires NeverStored(es)
    ensures After(es).values.latitude == NA && After(es).values.longitude == NA
  {
    hide Next, StoresPosition;
    if es != [] {
      var init := es[..|es| - 1];
      assert forall j :: 0 <= j < |init| ==> es[..j] == init[..j];
      NoPositionYet(init);
      PositionStep(After(init), es[|es| - 1]);
    }
  }

  /** After a poll, the latitude is the one of the last stored position if that is at most 15 seconds old; the
      longitude is its longitude if that is so, or if it carried no latitude, however old it is. */
  lemma PositionAtPoll(es: seq<Event>, now: nat, k: nat)
    requires Ordered(es + [Poll(now)]) && Polled(es, now) && LastStored(es, k)
    ensures var m, v, young := es[k].message, After(es + [Poll(now)]).values, now - es[k].time <= 15000;
      && v.latitude == (if young then m.latitude else NA)
      && v.longitude == (if young || m.latitude == NA then m.longitude else NA)
  {
    hide After, Millis, Stale, StoresPosition;
    var run, given := es + [Poll(now)], es[k].time;
    assert forall j :: 0 <= j < |es| ==> run[..j] == es[..j] && run[j] == es[j];
    assert run[..|es|] == es && run[|es|] == Poll(now);
    assert !StoresPosition(After(es), Poll(now)) by { PollStoresNothing(After(es), now); }
    PositionHistory(run, k);
    PositionAge(run, k);
    if now - given > NAV_TIMEOUT_MS {
      if now - given < WRAP {
        assert run[|es|].Poll? && FoundStale(run, k);
      } else {
        var j :| k < j < |es| && es[j].Poll? && NAV_TIMEOUT_MS < es[j].time - es[k].time < WRAP;
        assert run[j].Poll? && FoundStale(run, k);
      }
    }
  }

  lemma PollStoresNothing(s: State, now: nat)
    ensures !StoresPosition(s, Poll(now))
  {
  }

  lemma PositionAge(run: seq<Event>, k: nat)
    requires Ordered(run) && k < |run| - 1
    ensures var given, now := run[k].time, run[|run| - 1].time;
      && given <= now
      && (FoundStale(run, k) ==> now - given > NAV_TIMEOUT_MS)
      && (forall j :: k < j < |run| && run[j].Poll? && NAV_TIMEOUT_MS < run[j].time - given < WRAP ==>
            FoundStale(run, k))
  {
    hide Millis, Stale;
    forall j | k < j < |run|
      ensures run[k].time <= run[j].time <= run[|run| - 1].time
      ensures Stale(Millis(run[k].time), Millis(run[j].time)) ==> run[j].time - run[k].time > NAV_TIMEOUT_MS
      ensures NAV_TIMEOUT_MS < run[j].time - run[k].time < WRAP ==> Stale(Millis(run[k].time), Millis(run[j].time))
    {
      assert run[k].time <= run[j].time;
      assert j < |run| - 1 ==> run[j].time <= run[|run| - 1].time;
      StaleMeansOld(run[k].time, run[j].time);
      NotStaleMeansYoung(run[k].time, run[j].time);
    }
    forall j: nat | k < j < |run| && run[j].Poll? && NAV_TIMEOUT_MS < run[j].time - run[k].time < WRAP
      ensures FoundStale(run, k)
    {
      assert FindsStale(run, k, j);
    }
  }

  lemma StaleMeansOld(given: nat, now: nat)
    requires given <= now
    ensures Stale(Millis(given), Millis(now)) ==> now - given > NAV_TIMEOUT_MS
  {
    hide Millis, Elapsed;
    ElapsedMillis(now, given);
  }

  /** So a longitude shown after a poll is older than 15 seconds exactly when the message that carried it is, and
      carried no latitude. */
  lemma LongitudeOutlivesIff(es: seq<Event>, now: nat, k: nat)
    requires Ordered(es + [Poll(now)]) && Polled(es, now) && LastStored(es, k)
    ensures var m, v := es[k].message, After(es + [Poll(now)]).values;
      now - es[k].time > 15000 ==> (v.longitude != NA <==> m.longitude != NA && m.latitude == NA)
  {
    hide After, LastStored, Polled, Ordered;
    PositionAtPoll(es, now, k);
  }

  /** It happens: a longitude of a hundred seconds ago. */
  lemma LongitudeOutlives()
    ensures After([Receive(1000, RapidPosition(NA, 5.0)), Poll(100000)]).values.longitude == 5.0
  {
    var es := [Receive(1000, RapidPosition(NA, 5.0))];
    assert es[..0] == [] && [Receive(1000, RapidPosition(NA, 5.0)), Poll(100000)] == es + [Poll(100000)];
    PositionAtPoll(es, 100000, 0);
  }

  /** Poll after poll. */
  function PolledAt(s: State, polls: seq<nat>): State {
    if polls == [] then s else Expire(PolledAt(s, polls[..|polls| - 1]), Millis(polls[|polls| - 1]))
  }

  /** No number of polls, however late, drops a longitude without a latitude. */
  lemma {:induction false} LongitudeNeverExpires(s: State, polls: seq<nat>)
    requires s.values.latitude == NA
    ensures PolledAt(s, polls).values.longitude == s.values.longitude
    ensures PolledAt(s, polls).values.latitude == NA
  {
    if polls != [] {
      LongitudeNeverExpires(s, polls[..|polls| - 1]);
    }
  }

  /** The true heading goes with the magnetic one at a poll; without a magnetic one no poll drops it. */
  lemma TrueHeadingAtPoll(s: State, now: u32)
    ensures var v, v' := s.values, Expire(s, now).values;
      v'.headingTrue ==
        if v.headingMagnetic != NA && Elapsed(now, s.stamps.heading) > 15000 then NA else v.headingTrue
  {
    hide Elapsed;
  }

  lemma {:induction false} TrueHeadingNeverExpires(s: State, polls: seq<nat>)
    requires s.values.headingMagnetic == NA
    ensures PolledAt(s, polls).values.headingTrue == s.values.headingTrue
    ensures PolledAt(s, polls).values.headingMagnetic == NA
  {
    if polls != [] {
      TrueHeadingNeverExpires(s, polls[..|polls| - 1]);
    }
  }

  // ---------------------------------------------------------------------------
  // Which changes are flagged

  /** What the main loop hands to the BLE server. */
  datatype Published = Published(latitude: real, longitude: real, cog: real, sog: real, variation: real, heading: real,
                                 depth: real, awa: real, aws: real, stw: real, log: u32)

  /** `getNavState`. */
  function Publish(v: Values): Published {
    Published(v.latitude, v.longitude, v.cogt, v.sog, v.variation, v.headingMagnetic,
              v.depth, v.awa, v.aws, v.stw, v.log)
  }

  /** A magnetic course that repeats the last one while the true course moves: because the variation has
      changed since, or because there is none and the last true course has been held for ten seconds. */
  predicate CourseMissed(s: State, m: Message, now: u32) {
    var v := s.values;
    && m.CogSog? && m.magnetic && m.cog == v.cogm && m.sog == v.sog
    && (var given := if m.cog != NA && v.variation != NA then m.cog - v.variation else NA;
        if given != NA then given != v.cogt else v.cogt != NA && Elapsed(now, s.stamps.cogt) > 10000)
  }

  /** A true heading that repeats the last one when the variation has since become known, and so gives a magnetic
      one. */
  predicate HeadingMissed(s: State, m: Message) {
    var v := s.values;
    && m.VesselHeading? && !m.magnetic && m.heading == v.headingTrue != NA && v.headingMagnetic == NA
    && v.variation != NA && (m.variation == NA || m.variation == v.variation) && m.heading + v.variation != NA
  }

  predicate Missed(s: State, m: Message, now: u32) {
    CourseMissed(s, m, now) || HeadingMissed(s, m)
  }

  /** Of all messages, exactly these change what is published without setting the flag. */
  lemma MissedIff(s: State, m: Message, now: u32)
    requires !s.dirty
    ensures var s' := Handle(s, m, now);
      Publish(s'.values) != Publish(s.values) && !s'.dirty <==> Missed(s, m, now)
  {
    hide Elapsed;
  }

  /** The state, and what the BLE server was last handed. */
  datatype Bridge = Bridge(state: State, handed: Published)

  /** A message is handled, or a main-loop pass polls and hands over. */
  function Advance(b: Bridge, e: Event): Bridge {
    var s := Next(b.state, e);
    if e.Receive? then Bridge(s, b.handed)
    else Bridge(s.(dirty := false), if s.dirty then Publish(s.values) else b.handed)
  }

  function Bridged(es: seq<Event>): Bridge {
    if es == [] then Bridge(INITIAL, Publish(ALL_NA)) else Advance(Bridged(es[..|es| - 1]), es[|es| - 1])
  }

  /** Whether the server is in step, or the flag will bring it there. */
  predicate InStep(b: Bridge) {
    b.state.dirty || b.handed == Publish(b.state.values)
  }

  /** A message keeps the server in step unless it is one of those the flag misses, arriving while the flag is clear. */
  lemma StepKeepsIff(b: Bridge, e: Event)
    requires InStep(b)
    ensures InStep(Advance(b, e)) <==> !(e.Receive? && !b.state.dirty && Missed(b.state, e.message, Millis(e.time)))
  {
    hide Elapsed, Millis, Publish, Missed, ExpireValues, Handle;
    if e.Receive? {
      FlagStays(b.state, e.message, Millis(e.time));
      if !b.state.dirty {
        MissedIff(b.state, e.message, Millis(e.time));
      }
    }
  }

  lemma FlagStays(s: State, m: Message, now: u32)
    ensures s.dirty ==> Handle(s, m, now).dirty
  {
    hide Elapsed;
  }

  /** No message of the run is missed. */
  predicate NoneMissed(es: seq<Event>) {
    forall k :: 0 <= k < |es| && es[k].Receive? && !Bridged(es[..k]).state.dirty ==>
      !Missed(Bridged(es[..k]).state, es[k].message, Millis(es[k].time))
  }

  lemma {:induction false} RunInStep(es: seq<Event>)
    requires NoneMissed(es)
    ensures InStep(Bridged(es))
  {
    hide Advance, Missed, Millis, InStep;
    if es == [] {
      StartInStep();
    } else {
      var n := |es| - 1;
      assert forall k :: 0 <= k < n ==> es[..n][..k] == es[..k];
      RunInStep(es[..n]);
      StepKeepsIff(Bridged(es[..n]), es[n]);
    }
  }

  lemma StartInStep()
    ensures InStep(Bridge(INITIAL, Publish(ALL_NA)))
  {
  }

  /** Without a missed message, every main-loop pass leaves the server with the current state. */
  lemma HandedIsCurrent(es: seq<Event>, now: nat)
    requires NoneMissed(es)
    ensures var b := Bridged(es + [Poll(now)]); b.handed == Publish(b.state.values)
  {
    hide Next, Missed, Publish, Millis;
    var run := es + [Poll(now)];
    assert run[..|es|] == es;
    RunInStep(es);
    StepKeepsIff(Bridged(es), Poll(now));
  }

  /** The server is left with something other than the current state. */
  predicate LeftBehind(es: seq<Event>) {
    && Ordered(es) && es != [] && es[|es| - 1].Poll?
    && Bridged(es).handed != Publish(Bridged(es).state.values)
  }

  /** It happens: a course repeats under a new variation, and the old true course stays with the server. */
  lemma CourseLeftBehind()
    ensures exists es: seq<Event> :: LeftBehind(es) && Bridged(es).handed.cog == 0.9
  {
    var es1, b1 := OneMore([], Receive(1000, MagneticVariation(0.1)));
    var es2, b2 := OneMore(es1, Receive(2000, CogSog(true, 1.0, 5.0)));
    assert b2.state.values == ALL_NA.(cogt := 0.9, cogm := 1.0, sog := 5.0, variation := 0.1);
    assert b2.state.stamps == INITIAL.stamps.(variation := 1000, cogt := 2000, cogm := 2000, sog := 2000);
    var es3, b3 := OneMore(es2, Receive(3000, MagneticVariation(0.2)));
    var es4, b4 := OneMore(es3, Poll(3500));
    assert b4.handed.cog == 0.9 && !b4.state.dirty && b4.state.values == b3.state.values;
    var es5, b5 := OneMore(es4, Receive(4000, CogSog(true, 1.0, 5.0)));
    assert b5.state.values.cogt == 0.8 && !b5.state.dirty;
    var es6, b6 := OneMore(es5, Poll(4500));
    assert b6.state.values == b5.state.values;
    assert LeftBehind(es6) && b6.handed.cog == 0.9;
  }

  /** And a true heading repeats once the variation is known, and the server goes without a heading. */
  lemma HeadingLeftBehind()
    ensures exists es: seq<Event> :: LeftBehind(es) && Bridged(es).handed.heading == NA
  {
    var es1, b1 := OneMore([], Receive(1000, VesselHeading(false, 1.0, NA)));
    assert b1.state.values == ALL_NA.(headingTrue := 1.0);
    var es2, b2 := OneMore(es1, Receive(2000, MagneticVariation(0.1)));
    assert b2.state.stamps == INITIAL.stamps.(heading := 1000, variation := 2000);
    var es3, b3 := OneMore(es2, Poll(2500));
    assert b3.handed.heading == NA && !b3.state.dirty && b3.state.values == b2.state.values;
    var es4, b4 := OneMore(es3, Receive(3000, VesselHeading(false, 1.0, NA)));
    assert b4.state.values.headingMagnetic == 1.1 && !b4.state.dirty;
    var es5, b5 := OneMore(es4, Poll(3500));
    assert b5.state.values == b4.state.values;
    assert LeftBehind(es5) && b5.handed.heading == NA;
  }

  lemma OneMore(es: seq<Event>, e: Event) returns (es': seq<Event>, b: Bridge)
    ensures es' == es + [e] && b == Bridged(es') == Advance(Bridged(es), e)
  {
    es' := es + [e];
    b := Bridged(es');
    assert es'[..|es|] == es;
  }
}
