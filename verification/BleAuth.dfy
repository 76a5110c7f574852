/**
 Authentication of BLE clients (`BoatWatchBLE`). Everything that touches the
 client table or the global failure state runs under one mutex, so a run of the
 two tasks is a sequence of the locked sections below, each with its real time.
 */
module BleAuth {
  import opened Bytes
  import opened Clock

  const AUTH_LOCKOUT_FAILURES := 5
  const AUTH_LOCKOUT_MS := 30000
  const AUTH_MAX_FAILURES := 10
  const AUTH_GLOBAL_LOCKOUT_FAILURES := 30
  const AUTH_GLOBAL_LOCKOUT_MS := 300000
  const UNAUTH_IDLE_TIMEOUT_MS := 30000
  const MAX_CLIENTS := 6

  datatype Client = Client(authed: bool, failures: u8, blockUntil: u32, connectedAt: u32)

  datatype Auth = Auth(clients: map<u16, Client>, globalFailures: u16, globalBlock: u32)

  const EMPTY := Auth(map[], 0, 0)

  /** What one attempt comes to: no such client, rejected unevaluated, the right PIN, or a wrong
      one that may also end the connection. */
  datatype Outcome = Unknown | Locked | Accepted | Wrong(disconnect: bool)

  /** The locked section of an AUTH command. */
  function Attempt(a: Auth, h: u16, pinOk: bool, now: u32): (Auth, Outcome) {
    if h !in a.clients then (a, Unknown)
    else if a.globalBlock != 0 && Ahead(a.globalBlock, now) then (a, Locked)
    else
      var a1 := if a.globalBlock != 0 then a.(globalBlock := 0, globalFailures := 0) else a;
      var c := a.clients[h];
      if c.blockUntil != 0 && Ahead(c.blockUntil, now) then (a1, Locked)
      else if pinOk then
        (Auth(a.clients[h := c.(authed := true, failures := 0, blockUntil := 0)], 0, 0), Accepted)
      else
        var failures: u8 := (c.failures + 1) % 0x100;
        var globalFailures: u16 := (a1.globalFailures + 1) % 0x1_0000;
        var disconnect := failures >= AUTH_MAX_FAILURES;
        var blockUntil := if !disconnect && failures % AUTH_LOCKOUT_FAILURES == 0
                          then (now + AUTH_LOCKOUT_MS) % WRAP else c.blockUntil;
        var globalBlock := if globalFailures >= AUTH_GLOBAL_LOCKOUT_FAILURES
                           then (now + AUTH_GLOBAL_LOCKOUT_MS) % WRAP else a1.globalBlock;
        (Auth(a.clients[h := c.(failures := failures, blockUntil := blockUntil)], globalFailures, globalBlock),
         Wrong(disconnect))
  }

  datatype Event =
    | Connect(time: nat, handle: u16)
    | Disconnect(time: nat, handle: u16)
    | ClearAll(time: nat)
    | TryPin(time: nat, handle: u16, pinOk: bool)
    | Command(time: nat, handle: u16)

  function Next(a: Auth, e: Event): Auth {
    match e
    case Connect(t, h) => a.(clients := a.clients[h := Client(false, 0, 0, Millis(t))])
    case Disconnect(_, h) => a.(clients := a.clients - {h})
    case ClearAll(_) => a.(clients := map[])
    case TryPin(t, h, pinOk) => Attempt(a, h, pinOk, Millis(t)).0
    case Command(_, _) => a
  }

  /** The state after a run. */
  function After(a: Auth, es: seq<Event>): Auth {
    if es == [] then a else Next(After(a, es[..|es| - 1]), es[|es| - 1])
  }

  /** What the attempt that is event `i` of the run comes to. */
  function OutcomeAt(a: Auth, es: seq<Event>, i: nat): Outcome
    requires i < |es| && es[i].TryPin?
  {
    Attempt(After(a, es[..i]), es[i].handle, es[i].pinOk, Millis(es[i].time)).1
  }

  /** Event `i` is an attempt whose PIN was compared. */
  predicate Evaluated(a: Auth, es: seq<Event>, i: nat)
    requires i < |es|
  {
    es[i].TryPin? && (OutcomeAt(a, es, i).Accepted? || OutcomeAt(a, es, i).Wrong?)
  }

  predicate Ordered(start: nat, es: seq<Event>) {
    && (forall i :: 0 <= i < |es| ==> start <= es[i].time)
    && (forall i, j :: 0 <= i < j < |es| ==> es[i].time <= es[j].time)
  }

  // ---------------------------------------------------------------------------
  // How fast PINs can be guessed

  /** The wrong PINs compared in a run. */
  function WrongGuesses(a: Auth, es: seq<Event>): nat {
    if es == [] then 0
    else WrongGuesses(a, es[..|es| - 1]) + if GuessedWrong(After(a, es[..|es| - 1]), es[|es| - 1]) then 1 else 0
  }

  predicate GuessedWrong(a: Auth, e: Event) {
    e.TryPin? && Attempt(a, e.handle, e.pinOk, Millis(e.time)).1.Wrong?
  }

  predicate NoneAccepted(a: Auth, es: seq<Event>) {
    forall i :: 0 <= i < |es| && es[i].TryPin? ==> !OutcomeAt(a, es, i).Accepted?
  }

  /** A wrong PIN reaches the global threshold, but leaves no deadline: the one computed is the value that reads as
      "no deadline", or the 16-bit count has just wrapped to zero. */
  predicate LeavesOpen(a: Auth, e: Event) {
    GuessedWrong(a, e) && (
      var (a', _) := Attempt(a, e.handle, false, Millis(e.time));
      a'.globalBlock == 0 && (a'.globalFailures >= AUTH_GLOBAL_LOCKOUT_FAILURES || a'.globalFailures == 0))
  }

  predicate WrapsCount(a: Auth, e: Event) {
    GuessedWrong(a, e) && Attempt(a, e.handle, false, Millis(e.time)).0.globalFailures == 0
  }

  /** How often that happens in a run. */
  function LeftOpen(a: Auth, es: seq<Event>): nat {
    if es == [] then 0
    else LeftOpen(a, es[..|es| - 1]) + if LeavesOpen(After(a, es[..|es| - 1]), es[|es| - 1]) then 1 else 0
  }

  function Wraps(a: Auth, es: seq<Event>): nat {
    if es == [] then 0
    else Wraps(a, es[..|es| - 1]) + if WrapsCount(After(a, es[..|es| - 1]), es[|es| - 1]) then 1 else 0
  }

  /** The global state between attempts: open, or closed until real time `free`. */
  predicate Guarded(a: Auth, now: nat, free: nat) {
    a.globalBlock == 0 || (a.globalBlock == Millis(free) && free <= now + AUTH_GLOBAL_LOCKOUT_MS)
  }

  /** How many more wrong PINs can be compared before the threshold is reached. */
  function Room(a: Auth): nat {
    if a.globalFailures < AUTH_GLOBAL_LOCKOUT_FAILURES then AUTH_GLOBAL_LOCKOUT_FAILURES - a.globalFailures as int
    else 1
  }

  /** How many wrong PINs can still be compared up to real time `end`, while none leaves the door open. */
  function Budget(a: Auth, now: nat, free: nat, end: nat): int
    requires now <= end
  {
    if a.globalBlock == 0 then
      Room(a) + AUTH_GLOBAL_LOCKOUT_FAILURES * ((end - now) / AUTH_GLOBAL_LOCKOUT_MS)
    else if end < free then 0
    else AUTH_GLOBAL_LOCKOUT_FAILURES * (1 + (end - Max(now, free)) / AUTH_GLOBAL_LOCKOUT_MS)
  }

  lemma Monotone(x: nat, y: nat)
    requires x <= y
    ensures x / AUTH_GLOBAL_LOCKOUT_MS <= y / AUTH_GLOBAL_LOCKOUT_MS
  {
  }

  /** Within five minutes of a deadline it is seen as ahead, however the clock wraps. */
  lemma AheadUntil(free: nat, now: nat)
    requires now < free <= now + AUTH_GLOBAL_LOCKOUT_MS
    ensures Ahead(Millis(free), Millis(now))
  {
    ElapsedMillis(free, now);
  }

  lemma DeadlineMillis(now: nat, period: nat)
    ensures (Millis(now) + period) % WRAP == Millis(now + period)
  {
  }

  /** What an event adds to the budget: one if it leaves the door open, and a whole threshold if the count wraps. */
  function Credit(a: Auth, e: Event): nat {
    (if LeavesOpen(a, e) then 1 else 0) + (if WrapsCount(a, e) then AUTH_GLOBAL_LOCKOUT_FAILURES - 1 else 0)
  }

  /** A section that starts open to guesses: each one costs one of the budget, and the last closes it. */
  lemma OpenStep(a: Auth, e: Event, end: nat)
    requires a.globalBlock == 0 && GuessedWrong(a, e) && e.time <= end
    ensures var a', free := Next(a, e), e.time + AUTH_GLOBAL_LOCKOUT_MS;
      && Guarded(a', e.time, free)
      && 1 + Budget(a', e.time, free, end) <= Budget(a, e.time, free, end) + Credit(a, e)
  {
    DeadlineMillis(e.time, AUTH_GLOBAL_LOCKOUT_MS);
  }

  /** Every event keeps the guess it compares within the budget and its credit. */
  lemma GuessStep(a: Auth, now: nat, free: nat, e: Event, end: nat) returns (free': nat)
    requires Guarded(a, now, free) && now <= e.time <= end
    requires e.TryPin? ==> !Attempt(a, e.handle, e.pinOk, Millis(e.time)).1.Accepted?
    ensures Guarded(Next(a, e), e.time, free')
    ensures Budget(Next(a, e), e.time, free', end) + (if GuessedWrong(a, e) then 1 else 0)
      <= Budget(a, now, free, end) + Credit(a, e)
  {
    free' := free;
    var s := e.time;
    Monotone(end - s, end - now);
    if a.globalBlock != 0 && end >= free {
      Monotone(end - Max(s, free), end - Max(now, free));
    }
    if e.TryPin? && e.handle in a.clients {
      if a.globalBlock != 0 && Ahead(a.globalBlock, Millis(s)) {
      } else if a.globalBlock != 0 {
        free' := ReopenedStep(a, now, free, e, end);
      } else if GuessedWrong(a, e) {
        OpenStep(a, e, end);
        free' := s + AUTH_GLOBAL_LOCKOUT_MS;
      }
    }
  }

  /** The first attempt after a deadline starts the count over. */
  lemma ReopenedStep(a: Auth, now: nat, free: nat, e: Event, end: nat) returns (free': nat)
    requires Guarded(a, now, free) && now <= e.time <= end
    requires e.TryPin? && e.handle in a.clients && !Attempt(a, e.handle, e.pinOk, Millis(e.time)).1.Accepted?
    requires a.globalBlock != 0 && !Ahead(a.globalBlock, Millis(e.time))
    ensures free' == if GuessedWrong(a, e) then e.time + AUTH_GLOBAL_LOCKOUT_MS else free
    ensures Guarded(Next(a, e), e.time, free')
    ensures Budget(Next(a, e), e.time, free', end) + (if GuessedWrong(a, e) then 1 else 0)
      <= Budget(a, now, free, end) + Credit(a, e)
  {
    free' := free;
    var s := e.time;
    if s < free {
      AheadUntil(free, s);
      assert false;
    }
    Monotone(end - s, end - Max(now, free));
    var open := a.(globalBlock := 0, globalFailures := 0);
    assert Budget(open, s, free, end) <= Budget(a, now, free, end);
    if GuessedWrong(a, e) {
      assert Attempt(a, e.handle, false, Millis(s)) == Attempt(open, e.handle, false, Millis(s));
      assert Next(a, e) == Next(open, e) && Credit(a, e) == Credit(open, e);
      OpenStep(open, e, end);
      free' := s + AUTH_GLOBAL_LOCKOUT_MS;
    }
  }

  function LastTime(start: nat, es: seq<Event>): nat {
    if es == [] then start else es[|es| - 1].time
  }

  lemma {:induction false} GuessBudget(a: Auth, start: nat, free: nat, es: seq<Event>, end: nat) returns (free': nat)
    requires Guarded(a, start, free) && Ordered(start, es) && NoneAccepted(a, es)
    requires start <= end && LastTime(start, es) <= end
    ensures var last := LastTime(start, es);
      && Guarded(After(a, es), last, free')
      && WrongGuesses(a, es) + Budget(After(a, es), last, free', end)
         <= Budget(a, start, free, end) + LeftOpen(a, es) + 29 * Wraps(a, es)
  {
    if es == [] {
      free' := free;
    } else {
      hide Budget, Guarded, Attempt, Next, LeavesOpen, WrapsCount;
      var init, e := es[..|es| - 1], es[|es| - 1];
      assert forall i :: 0 <= i < |init| ==> es[..i] == init[..i];
      assert forall i :: 0 <= i < |init| && init[i].TryPin? ==> OutcomeAt(a, es, i) == OutcomeAt(a, init, i);
      var mid := GuessBudget(a, start, free, init, end);
      if e.TryPin? {
        assert !OutcomeAt(a, es, |es| - 1).Accepted?;
      }
      free' := GuessStep(After(a, init), LastTime(start, init), mid, e, end);
    }
  }

  /** In any window of a run in which no PIN is accepted, over any connections and reconnections, at most thirty
      wrong PINs are compared per started five minutes, whatever the clock reads; to these come the guesses that
      leave the door open at the threshold, and a threshold less one for every wrap of the count. */
  lemma GuessRate(a: Auth, start: nat, free: nat, es: seq<Event>, end: nat)
    requires Guarded(a, start, free) && Ordered(start, es) && NoneAccepted(a, es)
    requires start <= end && LastTime(start, es) <= end
    ensures WrongGuesses(a, es) <= 30 * (1 + (end - start) / 300000) + LeftOpen(a, es) + 29 * Wraps(a, es)
  {
    hide Budget, Guarded, WrongGuesses, LeftOpen, Wraps, After;
    var free' := GuessBudget(a, start, free, es, end);
    BudgetBounds(a, start, free, end);
    BudgetBounds(After(a, es), LastTime(start, es), free', end);
  }

  lemma BudgetBounds(a: Auth, now: nat, free: nat, end: nat)
    requires Guarded(a, now, free) && now <= end
    ensures 0 <= Budget(a, now, free, end) <= 30 * (1 + (end - now) / 300000)
  {
    Monotone(0, end - now);
    if a.globalBlock != 0 && end >= free {
      Monotone(end - Max(now, free), end - now);
    }
  }

  /** Every state a run reaches is open or has a deadline at most five minutes ahead. */
  lemma {:induction false} AlwaysGuarded(start: nat, es: seq<Event>) returns (free: nat)
    requires Ordered(start, es)
    ensures Guarded(After(EMPTY, es), LastTime(start, es), free)
  {
    if es == [] {
      free := 0;
    } else {
      hide After;
      var init, e := es[..|es| - 1], es[|es| - 1];
      free := AlwaysGuarded(start, init);
      var a := After(EMPTY, init);
      assert After(EMPTY, es) == Next(a, e) by { AfterLast(EMPTY, es); }
      if e.TryPin? && Attempt(a, e.handle, e.pinOk, Millis(e.time)).1.Accepted? {
      } else {
        free := GuessStep(a, LastTime(start, init), free, e, e.time);
      }
    }
  }

  lemma AfterLast(a: Auth, es: seq<Event>)
    requires es != []
    ensures After(a, es) == Next(After(a, es[..|es| - 1]), es[|es| - 1])
  {
  }

  /** So after any run at all, any window without an accepted PIN has that bound. */
  lemma GuessRateInRuns(start: nat, run: seq<Event>, es: seq<Event>, end: nat)
    requires Ordered(start, run) && Ordered(LastTime(start, run), es)
    requires NoneAccepted(After(EMPTY, run), es)
    requires LastTime(start, run) <= end && LastTime(start, es) <= end
    ensures var a := After(EMPTY, run);
      WrongGuesses(a, es) <= 30 * (1 + (end - LastTime(start, run)) / 300000) + LeftOpen(a, es) + 29 * Wraps(a, es)
  {
    hide Guarded, WrongGuesses, LeftOpen, Wraps, After, NoneAccepted, Ordered;
    var free := AlwaysGuarded(start, run);
    GuessRate(After(EMPTY, run), LastTime(start, run), free, es, end);
  }

  /** How many guesses in a row have left the door open at the threshold. */
  function Streak(a: Auth): nat {
    if a.globalBlock == 0 && a.globalFailures >= AUTH_GLOBAL_LOCKOUT_FAILURES then a.globalFailures as int - 29 else 0
  }

  lemma NoStreak()
    ensures Streak(EMPTY) == 0
  {
  }

  /** A wrap takes 65506 guesses that leave the door open. */
  lemma {:induction false} WrapsAreRare(es: seq<Event>)
    ensures 65506 * Wraps(EMPTY, es) + Streak(After(EMPTY, es)) <= LeftOpen(EMPTY, es)
  {
    hide Streak, Next, WrapsCount, LeavesOpen;
    if es == [] {
      NoStreak();
    }
    if es != [] {
      var init := es[..|es| - 1];
      WrapsAreRare(init);
      StreakStep(After(EMPTY, init), es[|es| - 1]);
    }
  }

  lemma StreakStep(a: Auth, e: Event)
    ensures Streak(Next(a, e)) + (if WrapsCount(a, e) then 65506 else 0)
      <= Streak(a) + (if LeavesOpen(a, e) then 1 else 0)
  {
  }

  /** Without a threshold guess that leaves the door open the count never wraps either. */
  lemma {:induction false} NoneOpenNoWrap(a: Auth, es: seq<Event>)
    ensures Wraps(a, es) <= LeftOpen(a, es)
  {
    if es != [] {
      NoneOpenNoWrap(a, es[..|es| - 1]);
    }
  }

  /** A guess leaves the door open exactly when it is a wrong one at the threshold whose deadline, five minutes on,
      reads zero, or the one that wraps the count. */
  lemma LeavesOpenIff(a: Auth, e: Event)
    ensures var failures := if a.globalBlock != 0 then 1 else a.globalFailures + 1;
      LeavesOpen(a, e) <==>
        GuessedWrong(a, e) && (failures == 0x1_0000 || (failures >= 30 && Millis(e.time + 300000) == 0))
  {
    if e.TryPin? {
      DeadlineMillis(e.time, AUTH_GLOBAL_LOCKOUT_MS);
    }
  }

  /** While the door is closed nothing opens it or evaluates a PIN, whoever connects or leaves. */
  lemma {:induction false} LockStays(a: Auth, lock: nat, es: seq<Event>)
    requires a.globalBlock == Millis(lock + AUTH_GLOBAL_LOCKOUT_MS) != 0 && Ordered(lock, es)
    requires forall i :: 0 <= i < |es| ==> es[i].time < lock + AUTH_GLOBAL_LOCKOUT_MS
    ensures After(a, es).globalBlock == a.globalBlock && After(a, es).globalFailures == a.globalFailures
    ensures forall i :: 0 <= i < |es| ==> !Evaluated(a, es, i)
  {
    if es != [] {
      var init, e := es[..|es| - 1], es[|es| - 1];
      assert forall i :: 0 <= i < |init| ==> es[..i] == init[..i];
      LockStays(a, lock, init);
      assert forall i :: 0 <= i < |init| ==> (Evaluated(a, es, i) <==> Evaluated(a, init, i));
      AheadUntil(lock + AUTH_GLOBAL_LOCKOUT_MS, e.time);
    }
  }

  /** The five minutes after `lock`, whatever happens in them. */
  ghost predicate ClosedAfter(a: Auth, lock: nat) {
    forall es: seq<Event> :: FiveMinutes(es, lock) ==> NoneEvaluated(a, es)
  }

  predicate FiveMinutes(es: seq<Event>, lock: nat) {
    Ordered(lock, es) && forall i :: 0 <= i < |es| ==> es[i].time < lock + AUTH_GLOBAL_LOCKOUT_MS
  }

  predicate NoneEvaluated(a: Auth, es: seq<Event>) {
    forall i :: 0 <= i < |es| ==> !Evaluated(a, es, i)
  }

  /** The failure that reaches the threshold keeps every PIN from being compared for five minutes, over any connects
      and disconnects, exactly when its deadline does not read zero. */
  lemma LockHoldsIff(a: Auth, h: u16, lock: nat)
    requires Attempt(a, h, false, Millis(lock)).1.Wrong?
    requires Attempt(a, h, false, Millis(lock)).0.globalFailures >= AUTH_GLOBAL_LOCKOUT_FAILURES
    ensures ClosedAfter(Attempt(a, h, false, Millis(lock)).0, lock) <==> Millis(lock + AUTH_GLOBAL_LOCKOUT_MS) != 0
  {
    var a' := Attempt(a, h, false, Millis(lock)).0;
    DeadlineMillis(lock, AUTH_GLOBAL_LOCKOUT_MS);
    if Millis(lock + AUTH_GLOBAL_LOCKOUT_MS) != 0 {
      forall es: seq<Event> | FiveMinutes(es, lock)
        ensures NoneEvaluated(a', es)
      {
        LockStays(a', lock, es);
      }
    } else {
      FreshConnectionEvaluated(a', lock);
    }
  }

  /** While the door is open, a new connection gets its first PIN compared. */
  lemma FreshConnectionEvaluated(a: Auth, lock: nat)
    requires a.globalBlock == 0
    ensures !ClosedAfter(a, lock)
  {
    var es := [Connect(lock, 0), TryPin(lock, 0, false)];
    assert es[..1] == [Connect(lock, 0)] && es[..1][..0] == [];
    assert After(a, es[..1]) == Next(After(a, []), Connect(lock, 0)) == Next(a, Connect(lock, 0));
    assert Evaluated(a, es, 1);
    assert FiveMinutes(es, lock) && !NoneEvaluated(a, es);
  }

  /** One connection after the other, each with one wrong PIN. */
  function Hammer(time: nat, n: nat): seq<Event> {
    if n == 0 then [] else Hammer(time, n - 1) + [Connect(time, 1)] + [TryPin(time, 1, false)]
  }

  lemma {:induction false} HammerCounts(time: nat, n: nat)
    requires n < 30 || (Millis(time + AUTH_GLOBAL_LOCKOUT_MS) == 0 && n < 0x1_0000)
    ensures var a := After(EMPTY, Hammer(time, n)); a.globalBlock == 0 && a.globalFailures == n
    ensures WrongGuesses(EMPTY, Hammer(time, n)) == n
  {
    hide Next, GuessedWrong;
    if n > 0 {
      HammerCounts(time, n - 1);
      var before := Hammer(time, n - 1);
      var connected := before + [Connect(time, 1)];
      assert connected[..|before|] == before;
      assert Hammer(time, n)[..|connected|] == connected;
      HammerStep(After(EMPTY, before), time);
    }
  }

  lemma HammerStep(a: Auth, time: nat)
    requires a.globalBlock == 0
    requires a.globalFailures < 29 || (Millis(time + AUTH_GLOBAL_LOCKOUT_MS) == 0 && a.globalFailures < 0xffff)
    ensures var b := Next(a, Connect(time, 1));
      && !GuessedWrong(a, Connect(time, 1)) && GuessedWrong(b, TryPin(time, 1, false))
      && Next(b, TryPin(time, 1, false)).globalBlock == 0
      && Next(b, TryPin(time, 1, false)).globalFailures == a.globalFailures + 1
  {
    DeadlineMillis(time, AUTH_GLOBAL_LOCKOUT_MS);
  }

  /** It happens: five minutes before the clock wraps, any number of wrong PINs up to 65535 are compared in one
      millisecond. */
  lemma AllCompared(n: nat)
    requires 30 <= n < 0x1_0000
    ensures var es := Hammer(4294667296, n); WrongGuesses(EMPTY, es) == n && LeftOpen(EMPTY, es) >= n - 29
  {
    HammerCounts(4294667296, n);
    WrapsAreRare(Hammer(4294667296, n));
  }

  // ---------------------------------------------------------------------------
  // The lockout of one connection

  /** The event leaves the connection of `h` as it is. */
  predicate KeepsConnection(e: Event, h: u16) {
    match e
    case Connect(_, g) => g != h
    case Disconnect(_, g) => g != h
    case ClearAll(_) => false
    case TryPin(_, _, _) => true
    case Command(_, _) => true
  }

  predicate ConnectionKept(es: seq<Event>, h: u16) {
    forall i :: 0 <= i < |es| ==> KeepsConnection(es[i], h)
  }

  /** While a connection is blocked, nothing that happens evaluates a PIN from it or changes its state. */
  lemma {:induction false} BlockedStays(a: Auth, h: u16, lock: nat, es: seq<Event>)
    requires h in a.clients && a.clients[h].blockUntil == Millis(lock + AUTH_LOCKOUT_MS) != 0
    requires Ordered(lock, es) && ConnectionKept(es, h)
    requires forall i :: 0 <= i < |es| ==> es[i].time < lock + AUTH_LOCKOUT_MS
    ensures h in After(a, es).clients && After(a, es).clients[h] == a.clients[h]
    ensures forall i :: 0 <= i < |es| && es[i].TryPin? && es[i].handle == h ==> OutcomeAt(a, es, i) == Locked
  {
    if es != [] {
      var init, e := es[..|es| - 1], es[|es| - 1];
      assert forall i :: 0 <= i < |init| ==> es[..i] == init[..i];
      BlockedStays(a, h, lock, init);
      assert forall i :: 0 <= i < |init| && init[i].TryPin? && init[i].handle == h ==>
        OutcomeAt(a, es, i) == OutcomeAt(a, init, i);
      AheadUntil(lock + AUTH_LOCKOUT_MS, e.time);
    }
  }

  /** After the fifth failure on a connection, the next PIN from it is compared no sooner than thirty
      seconds later, whatever happens on other connections. */
  lemma ConnectionLockout(a: Auth, h: u16, lock: nat, es: seq<Event>, i: nat)
    requires h in a.clients && a.clients[h].failures == 4 && Millis(lock + AUTH_LOCKOUT_MS) != 0
    requires Attempt(a, h, false, Millis(lock)).1.Wrong?
    requires Ordered(lock, es) && ConnectionKept(es, h)
    requires i < |es| && es[i].TryPin? && es[i].handle == h
    requires Evaluated(Attempt(a, h, false, Millis(lock)).0, es, i)
    ensures es[i].time >= lock + 30000
  {
    var a' := Attempt(a, h, false, Millis(lock)).0;
    DeadlineMillis(lock, AUTH_LOCKOUT_MS);
    if es[i].time < lock + 30000 {
      var before := es[..i + 1];
      assert es[..i] == before[..i] && before[i] == es[i];
      BlockedStays(a', h, lock, before);
    }
  }

  /** No PIN from `h` is compared for thirty seconds after `lock`, whatever happens elsewhere. */
  ghost predicate ConnectionClosedAfter(a: Auth, h: u16, lock: nat) {
    forall es: seq<Event> :: ThirtySeconds(es, h, lock) ==> NoneEvaluatedFrom(a, es, h)
  }

  predicate ThirtySeconds(es: seq<Event>, h: u16, lock: nat) {
    && Ordered(lock, es) && ConnectionKept(es, h)
    && forall i :: 0 <= i < |es| ==> es[i].time < lock + AUTH_LOCKOUT_MS
  }

  predicate NoneEvaluatedFrom(a: Auth, es: seq<Event>, h: u16) {
    forall i :: 0 <= i < |es| && es[i].TryPin? && es[i].handle == h ==> !Evaluated(a, es, i)
  }

  /** The fifth failure does that exactly when its deadline does not read zero, or it has closed the door for
      everyone. */
  lemma ConnectionLockoutIff(a: Auth, h: u16, lock: nat)
    requires h in a.clients && a.clients[h].failures == 4
    requires Attempt(a, h, false, Millis(lock)).1.Wrong?
    ensures var a' := Attempt(a, h, false, Millis(lock)).0;
      ConnectionClosedAfter(a', h, lock) <==> Millis(lock + AUTH_LOCKOUT_MS) != 0 || a'.globalBlock != 0
  {
    var a' := Attempt(a, h, false, Millis(lock)).0;
    DeadlineMillis(lock, AUTH_LOCKOUT_MS);
    DeadlineMillis(lock, AUTH_GLOBAL_LOCKOUT_MS);
    if Millis(lock + AUTH_LOCKOUT_MS) != 0 || a'.globalBlock != 0 {
      forall es: seq<Event> | ThirtySeconds(es, h, lock)
        ensures NoneEvaluatedFrom(a', es, h)
      {
        if Millis(lock + AUTH_LOCKOUT_MS) != 0 {
          BlockedStays(a', h, lock, es);
        } else {
          LockStays(a', lock, es);
        }
      }
    } else {
      var es := [TryPin(lock, h, false)];
      assert es[..0] == [];
      assert Evaluated(a', es, 0);
      assert ThirtySeconds(es, h, lock) && !NoneEvaluatedFrom(a', es, h);
    }
  }

  /** A connection and its wrong PINs. */
  function Failing(time: nat, n: nat): seq<Event> {
    if n == 0 then [Connect(time, 1)] else Failing(time, n - 1) + [TryPin(time, 1, false)]
  }

  lemma {:induction false} FailingCounts(time: nat, n: nat)
    requires n < AUTH_LOCKOUT_FAILURES
    ensures After(EMPTY, Failing(time, n)) == Auth(map[1 := Client(false, n, 0, Millis(time))], n, 0)
  {
    hide Next;
    if n == 0 {
      assert [Connect(time, 1)][..0] == [];
      ConnectFirst(time);
    } else {
      FailingCounts(time, n - 1);
      assert Failing(time, n)[..|Failing(time, n - 1)|] == Failing(time, n - 1);
      FailingStep(time, n - 1);
    }
  }

  lemma ConnectFirst(time: nat)
    ensures Next(EMPTY, Connect(time, 1)) == Auth(map[1 := Client(false, 0, 0, Millis(time))], 0, 0)
  {
    hide Millis;
  }

  lemma FailingStep(time: nat, n: nat)
    requires n + 1 < AUTH_LOCKOUT_FAILURES
    ensures Next(Auth(map[1 := Client(false, n, 0, Millis(time))], n, 0), TryPin(time, 1, false))
         == Auth(map[1 := Client(false, n + 1, 0, Millis(time))], n + 1, 0)
  {
    hide Millis;
    var c := Client(false, n, 0, Millis(time));
    assert map[1 := c][1 := c.(failures := n + 1)] == map[1 := c.(failures := n + 1)];
  }

  /** It happens: thirty seconds before the clock wraps, the fifth failure does not close the connection. */
  lemma FifthFailureOpen()
    ensures var a := After(EMPTY, Failing(4294937296, 4));
      && 1 in a.clients && a.clients[1].failures == 4
      && Attempt(a, 1, false, Millis(4294937296)).1.Wrong?
      && !ConnectionClosedAfter(Attempt(a, 1, false, Millis(4294937296)).0, 1, 4294937296)
  {
    FailingCounts(4294937296, 4);
    ConnectionLockoutIff(After(EMPTY, Failing(4294937296, 4)), 1, 4294937296);
  }

  // ---------------------------------------------------------------------------
  // What an attempt comes to

  /** No deadline keeps the PIN from being compared. */
  predicate Open(a: Auth, h: u16, now: u32) {
    && h in a.clients
    && !(a.globalBlock != 0 && Ahead(a.globalBlock, now))
    && !(a.clients[h].blockUntil != 0 && Ahead(a.clients[h].blockUntil, now))
  }

  /** On a known handle a PIN is compared exactly when neither the global deadline nor that of the connection lies
      ahead; the right one is then accepted, which starts all counts over, and no other ever is. */
  lemma AcceptedIff(a: Auth, h: u16, pinOk: bool, now: u32)
    ensures var (a', outcome) := Attempt(a, h, pinOk, now);
      && (outcome.Accepted? <==> Open(a, h, now) && pinOk)
      && (outcome.Wrong? <==> Open(a, h, now) && !pinOk)
      && (outcome.Unknown? <==> h !in a.clients)
      && (outcome.Accepted? ==>
            a' == Auth(a.clients[h := Client(true, 0, 0, a.clients[h].connectedAt)], 0, 0))
  {
    hide Ahead;
  }

  /** A deadline lies ahead until it is reached, and again from half a turn of the clock after it, for half a turn. */
  lemma AheadIff(deadline: nat, now: nat)
    ensures now < deadline < now + WRAP / 2 ==> Ahead(Millis(deadline), Millis(now))
    ensures deadline <= now ==> (Ahead(Millis(deadline), Millis(now)) <==> (now - deadline) % WRAP > 0x8000_0000)
  {
    if deadline <= now {
      ModDifference(now, deadline);
      Negated(Millis(now) - Millis(deadline));
    } else {
      ModDifference(deadline, now);
      ModAtMost(deadline - now);
    }
  }

  lemma Negated(d: int)
    ensures (-d) % WRAP == if d % WRAP == 0 then 0 else WRAP - d % WRAP
  {
    var q := d / WRAP;
    assert d == q * WRAP + d % WRAP;
    if d % WRAP != 0 {
      assert -d == (-q - 1) * WRAP + (WRAP - d % WRAP);
    }
  }

  /** A deadline that no attempt has met yet. */
  predicate Deadline(stamp: u32, at: nat) {
    stamp == 0 || stamp == Millis(at)
  }

  /** Once both deadlines are over, the right PIN is accepted, unless one of them has not been met for more than half a
      turn of the clock and lies ahead again. */
  lemma AcceptedWhenOver(a: Auth, h: u16, everyone: nat, own: nat, now: nat)
    requires h in a.clients && Deadline(a.globalBlock, everyone) && Deadline(a.clients[h].blockUntil, own)
    requires everyone <= now && own <= now
    ensures Attempt(a, h, true, Millis(now)).1.Accepted? <==>
      && (a.globalBlock == 0 || (now - everyone) % WRAP <= 0x8000_0000)
      && (a.clients[h].blockUntil == 0 || (now - own) % WRAP <= 0x8000_0000)
  {
    hide Ahead, Millis, Attempt;
    AcceptedIff(a, h, true, Millis(now));
    AheadIff(everyone, now);
    AheadIff(own, now);
  }

  /** It happens: nobody tries for 25 days after a lockout, and then the right PIN is rejected. */
  lemma LockoutComesBack()
    ensures var a, t := After(EMPTY, Hammer(1000, 30)), 25 * 24 * 3600 * 1000;
      && a.globalBlock == 301000
      && Attempt(Next(a, Connect(301000, 1)), 1, true, Millis(301000)).1 == Accepted
      && Attempt(Next(a, Connect(t, 1)), 1, true, Millis(t)).1 == Locked
  {
    hide Attempt, Hammer, After, Ahead;
    var a, t := After(EMPTY, Hammer(1000, 30)), 25 * 24 * 3600 * 1000;
    ThirtyLock();
    AcceptedWhenOver(Next(a, Connect(301000, 1)), 1, 301000, 0, 301000);
    AcceptedWhenOver(Next(a, Connect(t, 1)), 1, 301000, 0, t);
    AcceptedIff(Next(a, Connect(t, 1)), 1, true, Millis(t));
    RightIsNotWrong(Next(a, Connect(t, 1)), 1, Millis(t));
  }

  lemma RightIsNotWrong(a: Auth, h: u16, now: u32)
    requires h in a.clients
    ensures Attempt(a, h, true, now).1 in {Accepted, Locked}
  {
    hide Ahead;
  }

  lemma ThirtyLock()
    ensures After(EMPTY, Hammer(1000, 30)).globalBlock == 301000
  {
    hide Next, Ahead;
    HammerCounts(1000, 29);
    var before := Hammer(1000, 29);
    var connected := before + [Connect(1000, 1)];
    assert connected[..|before|] == before && Hammer(1000, 30)[..|connected|] == connected;
    ThirtiethStep(After(EMPTY, before));
  }

  lemma ThirtiethStep(a: Auth)
    requires a.globalBlock == 0 && a.globalFailures == 29
    ensures Next(Next(a, Connect(1000, 1)), TryPin(1000, 1, false)).globalBlock == 301000
  {
    hide Ahead;
  }

  /** The failures of a connection that its count has seen: the wrong PINs since it connected or was accepted. */
  function FailedSince(es: seq<Event>, h: u16): nat {
    if es == [] then 0
    else
      var init, e := es[..|es| - 1], es[|es| - 1];
      if !KeepsConnection(e, h) then 0
      else if !e.TryPin? || e.handle != h then FailedSince(init, h)
      else
        match Attempt(After(EMPTY, init), h, e.pinOk, Millis(e.time)).1
        case Accepted => 0
        case Wrong(_) => FailedSince(init, h) + 1
        case _ => FailedSince(init, h)
  }

  lemma {:induction false} FailuresCounted(es: seq<Event>, h: u16)
    ensures h in After(EMPTY, es).clients ==> After(EMPTY, es).clients[h].failures == FailedSince(es, h) % 0x100
  {
    hide Attempt, Next, Millis;
    if es != [] {
      var init, e := es[..|es| - 1], es[|es| - 1];
      FailuresCounted(init, h);
      CountStep(After(EMPTY, init), e, h);
    }
  }

  /** The count of a connection goes up with each of its wrong PINs, and starts over when it connects or is accepted. */
  lemma CountStep(a: Auth, e: Event, h: u16)
    ensures var a' := Next(a, e);
      h in a'.clients ==>
        if !KeepsConnection(e, h) then a'.clients[h].failures == 0
        else
          && h in a.clients
          && a'.clients[h].failures ==
              if !e.TryPin? || e.handle != h then a.clients[h].failures
              else
                match Attempt(a, h, e.pinOk, Millis(e.time)).1
                case Accepted => 0
                case Wrong(_) => (a.clients[h].failures + 1) % 0x100
                case _ => a.clients[h].failures
  {
    hide Ahead, Millis;
  }

  /** The fifth wrong PIN in a row blocks its connection for thirty seconds; from the tenth on each drops it. */
  lemma FailureEffects(es: seq<Event>, h: u16, now: u32)
    requires Attempt(After(EMPTY, es), h, false, now).1.Wrong? && FailedSince(es, h) < 255
    ensures var (a', outcome) := Attempt(After(EMPTY, es), h, false, now);
      var n := FailedSince(es, h) + 1;
      && (outcome == Wrong(true) <==> n >= 10)
      && h in After(EMPTY, es).clients
      && a'.clients[h].blockUntil == if n == 5 then (now + 30000) % WRAP else After(EMPTY, es).clients[h].blockUntil
  {
    hide Attempt, After, FailedSince;
    FailuresCounted(es, h);
    AcceptedIff(After(EMPTY, es), h, false, now);
    WrongEffects(After(EMPTY, es), h, FailedSince(es, h), now);
  }

  lemma WrongEffects(a: Auth, h: u16, n: nat, now: u32)
    requires Attempt(a, h, false, now).1.Wrong? && n < 255 && h in a.clients && a.clients[h].failures == n
    ensures var (a', outcome) := Attempt(a, h, false, now);
      && (outcome == Wrong(true) <==> n + 1 >= 10)
      && a'.clients[h].blockUntil == if n + 1 == 5 then (now + 30000) % WRAP else a.clients[h].blockUntil
  {
    hide Ahead;
  }

  /** A handle is known from its connect until it goes. */
  predicate ConnectedBy(es: seq<Event>, h: u16, i: nat) {
    && i < |es| && es[i].Connect? && es[i].handle == h
    && forall j :: i < j < |es| ==> KeepsConnection(es[j], h)
  }

  ghost predicate Connected(es: seq<Event>, h: u16) {
    exists i :: ConnectedBy(es, h, i)
  }

  lemma {:induction false} KnownIff(es: seq<Event>, h: u16)
    ensures h in After(EMPTY, es).clients <==> Connected(es, h)
  {
    hide Attempt;
    if es != [] {
      var n := |es| - 1;
      var init, e := es[..n], es[n];
      KnownIff(init, h);
      KnownStep(After(EMPTY, init), e, h);
      forall i: nat | i < n
        ensures ConnectedBy(es, h, i) <==> ConnectedBy(init, h, i) && KeepsConnection(e, h)
      {
      }
      if Connected(init, h) && KeepsConnection(e, h) {
        var i: nat :| ConnectedBy(init, h, i);
        assert ConnectedBy(es, h, i);
      }
      if e.Connect? && e.handle == h {
        assert ConnectedBy(es, h, n);
      }
    }
  }

  lemma KnownStep(a: Auth, e: Event, h: u16)
    ensures h in Next(a, e).clients <==> (e.Connect? && e.handle == h) || (h in a.clients && KeepsConnection(e, h))
  {
    hide Ahead, Millis;
  }

  // ---------------------------------------------------------------------------
  // Authorisation over whole runs

  /** Event `i` accepted the right PIN from `h`, and `h` has neither connected nor gone since. */
  predicate AuthorisedBy(es: seq<Event>, h: u16, i: nat) {
    && i < |es| && es[i].TryPin? && es[i].handle == h && es[i].pinOk
    && OutcomeAt(EMPTY, es, i).Accepted?
    && forall j :: i < j < |es| ==> KeepsConnection(es[j], h)
  }

  ghost predicate Authorised(es: seq<Event>, h: u16) {
    exists i :: AuthorisedBy(es, h, i)
  }

  lemma AuthorisedExtends(init: seq<Event>, e: Event, h: u16, i: nat)
    requires i < |init|
    ensures AuthorisedBy(init + [e], h, i) <==> AuthorisedBy(init, h, i) && KeepsConnection(e, h)
  {
    hide Attempt, After;
    var es := init + [e];
    assert es[..i] == init[..i];
    assert forall j :: i < j < |init| ==> es[j] == init[j];
    assert es[|init|] == e;
  }

  /** In every reachable state the flag of a handle is set exactly when the run since its latest
      connect holds an accepted correct PIN from it. */
  lemma {:induction false} FlagIffAuthorised(es: seq<Event>, h: u16)
    ensures h in After(EMPTY, es).clients && After(EMPTY, es).clients[h].authed <==> Authorised(es, h)
  {
    if es != [] {
      var init, e, n := es[..|es| - 1], es[|es| - 1], |es| - 1;
      FlagIffAuthorised(init, h);
      assert es == init + [e];
      forall i: nat | i < n
        ensures AuthorisedBy(es, h, i) <==> AuthorisedBy(init, h, i) && KeepsConnection(e, h)
      {
        AuthorisedExtends(init, e, h, i);
      }
      assert AuthorisedBy(es, h, n) <==> e.TryPin? && e.handle == h && e.pinOk && OutcomeAt(EMPTY, es, n).Accepted?;
      var a := After(EMPTY, init);
      if e.TryPin? && e.handle == h && Attempt(a, h, e.pinOk, Millis(e.time)).1.Accepted? {
        assert AuthorisedBy(es, h, n);
      }
    }
  }

  /** A command reaches the application: its flag was read as set in its locked section. */
  predicate Reaches(es: seq<Event>, i: nat)
    requires i < |es| && es[i].Command?
  {
    var a := After(EMPTY, es[..i]);
    es[i].handle in a.clients && a.clients[es[i].handle].authed
  }

  /** Exactly the commands from handles authorised since their latest connect reach the application. */
  lemma CommandsAuthorised(es: seq<Event>, i: nat)
    requires i < |es| && es[i].Command?
    ensures Reaches(es, i) <==> Authorised(es[..i], es[i].handle)
  {
    FlagIffAuthorised(es[..i], es[i].handle);
  }

  /** A connected client that sends the right PIN while no deadline lies ahead has every command it sends reach the
      application, until it connects again or goes. */
  lemma RightPinAuthorises(es: seq<Event>, h: u16, k: nat, i: nat)
    requires k < i < |es| && es[i].Command? && es[i].handle == h
    requires Connected(es[..k], h)
    requires es[k].TryPin? && es[k].handle == h && es[k].pinOk && Open(After(EMPTY, es[..k]), h, Millis(es[k].time))
    requires forall j :: k < j < i ==> KeepsConnection(es[j], h)
    ensures Reaches(es, i)
  {
    hide Attempt, After, Millis, Open;
    AcceptedIff(After(EMPTY, es[..k]), h, true, Millis(es[k].time));
    assert es[..i][..k] == es[..k];
    assert AuthorisedBy(es[..i], h, k);
    CommandsAuthorised(es, i);
  }

  /** Where nobody has sent a wrong PIN, nobody is kept out. */
  lemma {:induction false} OpenWithoutFailures(es: seq<Event>, h: u16, now: u32)
    requires WrongGuesses(EMPTY, es) == 0
    ensures After(EMPTY, es).globalBlock == 0 && After(EMPTY, es).globalFailures == 0
    ensures Connected(es, h) ==> Open(After(EMPTY, es), h, now)
  {
    hide Ahead, Millis, After;
    NoneBlocked(es, h);
    KnownIff(es, h);
  }

  lemma {:induction false} NoneBlocked(es: seq<Event>, h: u16)
    requires WrongGuesses(EMPTY, es) == 0
    ensures var a := After(EMPTY, es);
      a.globalBlock == 0 && a.globalFailures == 0 && (h in a.clients ==> a.clients[h].blockUntil == 0)
  {
    hide Ahead, Millis;
    if es != [] {
      NoneBlocked(es[..|es| - 1], h);
    }
  }

  /** A handle that connects again inherits nothing from whoever used it before. */
  lemma ReusedHandleStartsUnauthorised(es: seq<Event>, h: u16, t: nat, fs: seq<Event>)
    requires forall i :: 0 <= i < |fs| ==> !(fs[i].TryPin? && fs[i].handle == h && fs[i].pinOk)
    ensures !Authorised(es + [Connect(t, h)] + fs, h)
  {
    var run := es + [Connect(t, h)] + fs;
    assert run[|es|] == Connect(t, h);
    assert forall i :: 0 <= i < |fs| ==> run[|es| + 1 + i] == fs[i];
    forall i: nat
      ensures !AuthorisedBy(run, h, i)
    {
      if |es| < i < |run| {
        assert run[i] == fs[i - |es| - 1];
      }
    }
  }
}
