/**
 The request scheduler at the end of `JdbBMS::update`: which register is asked
 for, and when. A run is the sequence of `update` calls, each with its real
 time and whether the bytes it read released the next request.
 */
module BmsSchedule {
  import opened Bytes
  import opened Wrappers
  import opened Clock

  const FIRST_REGISTER: u8 := 3
  const LAST_REGISTER: u8 := 4
  const NAME_REGISTER: u8 := 5
  const NAME_INTERVAL: u8 := 200
  const MIN_GAP := 250
  const TIMEOUT := 2000

  datatype Schedule = Schedule(lastSend: u32, sendNext: bool, reg: u8, requestReg05: u8)

  function Initial(now: u32): Schedule {
    Schedule(now, true, FIRST_REGISTER, 0)
  }

  /** One call at clock reading `now`, after the replies it read have been processed. */
  function Tick(s: Schedule, now: u32): (Schedule, Option<u8>)
  {
    var sendNext := s.sendNext || Elapsed(now, s.lastSend) > TIMEOUT;
    if !(sendNext && Elapsed(now, s.lastSend) > MIN_GAP) then (s.(sendNext := sendNext), None)
    else if s.requestReg05 == 0 then (Schedule(now, false, s.reg, NAME_INTERVAL), Some(NAME_REGISTER))
    else
      var r: u8 := if s.reg > LAST_REGISTER then FIRST_REGISTER else s.reg;
      (Schedule(now, false, r + 1, s.requestReg05 - 1), Some(r))
  }

  datatype Call = Call(time: nat, released: bool)

  predicate Ordered(start: nat, calls: seq<Call>) {
    && (forall i :: 0 <= i < |calls| ==> start <= calls[i].time)
    && (forall i, j :: 0 <= i < j < |calls| ==> calls[i].time <= calls[j].time)
  }

  /** The schedule before call `n`. */
  function Before(start: nat, calls: seq<Call>, n: nat): Schedule
    requires n <= |calls|
    decreases n, 0
  {
    if n == 0 then Initial(Millis(start)) else Answer(start, calls, n - 1).0
  }

  /** What call `n` does. */
  function Answer(start: nat, calls: seq<Call>, n: nat): (Schedule, Option<u8>)
    requires n < |calls|
    decreases n, 1
  {
    var s := Before(start, calls, n);
    Tick(s.(sendNext := s.sendNext || calls[n].released), Millis(calls[n].time))
  }

  predicate Sends(start: nat, calls: seq<Call>, n: nat)
    requires n < |calls|
  {
    Answer(start, calls, n).1.Some?
  }

  /** How many requests the calls before `n` have sent. */
  function Count(start: nat, calls: seq<Call>, n: nat): nat
    requires n <= |calls|
  {
    if n == 0 then 0 else Count(start, calls, n - 1) + if Sends(start, calls, n - 1) then 1 else 0
  }

  /** The register the documentation of the driver promises for request `k`, counted from zero. */
  function Cycle(k: nat): u8 {
    var place := k % 201;
    if place == 0 then 0x05 else if place % 2 == 1 then 0x03 else 0x04
  }

  /** Request `k` of any run asks for register `Cycle(k)`. */
  lemma {:induction false} RequestCycle(start: nat, calls: seq<Call>, n: nat)
    requires n < |calls|
    ensures Sends(start, calls, n) ==> Answer(start, calls, n).1 == Some(Cycle(Count(start, calls, n)))
  {
    CyclePosition(start, calls, n);
  }

  /** `reg` and `requestReg05` encode the position in the cycle. */
  lemma {:induction false} CyclePosition(start: nat, calls: seq<Call>, n: nat)
    requires n <= |calls|
    ensures var s, place := Before(start, calls, n), Count(start, calls, n) % 201;
      && s.requestReg05 == (if place == 0 then 0 else (201 - place) as int)
      && FIRST_REGISTER <= s.reg <= LAST_REGISTER + 1
      && (s.reg == LAST_REGISTER <==> place != 0 && place % 2 == 0)
  {
    if n > 0 {
      CyclePosition(start, calls, n - 1);
      NextPlace(Count(start, calls, n - 1));
    }
  }

  lemma NextPlace(c: nat)
    ensures (c + 1) % 201 == if c % 201 == 200 then 0 else c % 201 + 1
  {
  }

  /** Call `n` was the last to send before call `m`. */
  predicate LastSender(start: nat, calls: seq<Call>, n: nat, m: nat)
    requires n < m <= |calls|
  {
    Sends(start, calls, n) && forall i :: n < i < m ==> !Sends(start, calls, i)
  }

  /** No call before `m` has sent. */
  predicate NoneSent(start: nat, calls: seq<Call>, m: nat)
    requires m <= |calls|
  {
    forall i :: 0 <= i < m ==> !Sends(start, calls, i)
  }

  /** The first request goes out with the first call more than 250 ms after the start, less whole turns of the clock. */
  lemma {:induction false} FirstSendsIff(start: nat, calls: seq<Call>, m: nat)
    requires m < |calls| && Ordered(start, calls) && NoneSent(start, calls, m)
    ensures Before(start, calls, m).lastSend == Millis(start) && Before(start, calls, m).sendNext
    ensures Sends(start, calls, m) <==> (calls[m].time - start) % WRAP > 250
  {
    hide Millis, Elapsed;
    if m > 0 {
      FirstSendsIff(start, calls, m - 1);
      assert !Sends(start, calls, m - 1);
    }
    ElapsedMillis(calls[m].time, start);
  }

  /** Between requests, the schedule remembers when the last one went out, and allows the next
      only if something released it or it timed out. */
  lemma {:induction false} SinceLastSend(start: nat, calls: seq<Call>, n: nat, m: nat)
    requires n < m <= |calls| && Ordered(start, calls) && LastSender(start, calls, n, m)
    ensures var s := Before(start, calls, m);
      && s.lastSend == Millis(calls[n].time)
      && (s.sendNext ==> exists i :: n < i < m && (calls[i].released || calls[i].time - calls[n].time > 2000))
      && ((exists i :: n < i < m && calls[i].released) ==> s.sendNext)
    decreases m
  {
    if n + 1 < m {
      SinceLastSend(start, calls, n, m - 1);
      assert !Sends(start, calls, m - 1);
      ElapsedMillis(calls[m - 1].time, calls[n].time);
    }
  }

  /** Two requests in a row are more than 250 ms apart; within 2000 ms of the first, the second
      goes out only because a call after the first read something that released it. The wrap of the
      clock changes neither. */
  lemma RequestSpacing(start: nat, calls: seq<Call>, n: nat, m: nat)
    requires n < m < |calls| && Ordered(start, calls)
    requires LastSender(start, calls, n, m) && Sends(start, calls, m)
    ensures calls[m].time - calls[n].time > 250
    ensures calls[m].time - calls[n].time <= 2000 ==> exists i :: n < i <= m && calls[i].released
  {
    SinceLastSend(start, calls, n, m);
    ElapsedMillis(calls[m].time, calls[n].time);
  }

  /** A call sends exactly when the measured time since the last request exceeds 250 ms and the
      request was released, or exceeds 2000 ms. */
  lemma SendsIff(start: nat, calls: seq<Call>, n: nat, m: nat)
    requires n < m < |calls| && Ordered(start, calls) && LastSender(start, calls, n, m)
    requires calls[m].time - calls[n].time < WRAP
    ensures Sends(start, calls, m) <==>
      var gap := calls[m].time - calls[n].time;
      gap > 2000 || (gap > 250 && exists i :: n < i <= m && calls[i].released)
  {
    SinceLastSend(start, calls, n, m);
    ElapsedMillis(calls[m].time, calls[n].time);
  }
}
