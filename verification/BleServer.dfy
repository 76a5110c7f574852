/** The `BoatWatchBLE` server object: its client table and global failure state, updated in place. */
module BleServer {
  import opened Bytes
  import opened CStrings
  import opened Wrappers
  import opened Clock
  import opened BleAuth

  const MAGIC_AUTOPILOT: u8 := 0xAA
  const CMD_AUTH: u8 := 0xF0

  /** The PIN an AUTH command carries, compared as the firmware compares it. */
  predicate PinMatches(pin: seq<u8>, data: seq<u8>) {
    |data| >= 6 && Cut(data[2..6], 0, 4) == pin
  }

  /** A PIN of four characters is matched by exactly the commands that carry those four bytes. */
  lemma FourDigitPin(pin: seq<u8>, data: seq<u8>)
    requires |pin| == 4 && 0 !in pin
    ensures PinMatches(pin, data) <==> |data| >= 6 && data[2..6] == pin
  {
    if |data| >= 6 && data[2..6] == pin {
      CutEnds(pin, 0, 4, |Cut(pin, 0, 4)|);
    }
  }

  /** An unauthenticated client that has been connected for too long. */
  predicate Idle(c: Client, now: u32) {
    !c.authed && Elapsed(now, c.connectedAt) > UNAUTH_IDLE_TIMEOUT_MS
  }

  /** A connection is idle exactly when it has not authenticated for more than thirty seconds,
      less whole turns of the clock. */
  lemma IdleMeans(c: Client, connected: nat, now: nat)
    requires connected <= now && c.connectedAt == Millis(connected)
    ensures Idle(c, Millis(now)) <==> !c.authed && (now - connected) % WRAP > 30000
  {
    ElapsedMillis(now, connected);
  }

  class BleServer {
    const pin: seq<u8>
    var clients: map<u16, Client>
    var globalAuthFailures: u16
    var globalBlockUntilMs: u32

    constructor (pin: seq<u8>)
      ensures State() == EMPTY && this.pin == pin
    {
      this.pin := pin;
      clients, globalAuthFailures, globalBlockUntilMs := map[], 0, 0;
    }

    function State(): Auth
      reads this
    {
      Auth(clients, globalAuthFailures, globalBlockUntilMs)
    }

    method OnConnect(h: u16, ghost time: nat, now: u32)
      requires now == Millis(time)
      modifies this
      ensures State() == Next(old(State()), Connect(time, h))
    {
      clients := clients[h := Client(false, 0, 0, now)];
    }

    method OnDisconnect(h: u16, ghost time: nat)
      modifies this
      ensures State() == Next(old(State()), Disconnect(time, h))
    {
      clients := clients - {h};
    }

    /** `notify` when the server reports no connection: a disconnect was missed, so the table is cleared. */
    method ClearMissed(ghost time: nat)
      modifies this
      ensures State() == Next(old(State()), ClearAll(time))
    {
      if clients != map[] {
        clients := map[];
      }
    }

    /** `notify` with connections: the handles to disconnect, in table order and at most one per slot. */
    method CollectIdle(now: u32) returns (idle: seq<u16>)
      ensures |idle| <= 6
      ensures forall i :: 0 <= i < |idle| ==> idle[i] in clients && Idle(clients[idle[i]], now)
      ensures forall i, j :: 0 <= i < j < |idle| ==> idle[i] < idle[j]
      ensures forall h :: h in clients && Idle(clients[h], now) && h !in idle ==>
        |idle| == 6 && forall i :: 0 <= i < |idle| ==> idle[i] < h
    {
      idle := [];
      var rest := clients.Keys;
      while rest != {}
        invariant rest <= clients.Keys && |idle| <= MAX_CLIENTS
        invariant forall i :: 0 <= i < |idle| ==> idle[i] in clients && Idle(clients[idle[i]], now)
        invariant forall i, j :: 0 <= i < j < |idle| ==> idle[i] < idle[j]
        invariant forall i, h :: 0 <= i < |idle| && h in rest ==> idle[i] < h
        invariant forall h :: h in clients && h !in rest && Idle(clients[h], now) && h !in idle ==>
          |idle| == MAX_CLIENTS && forall i :: 0 <= i < |idle| ==> idle[i] < h
      {
        LeastExists(rest);
        var h :| IsLeast(h, rest);
        rest := rest - {h};
        if !clients[h].authed && (now - clients[h].connectedAt) % 0x1_0000_0000 > UNAUTH_IDLE_TIMEOUT_MS
           && |idle| < MAX_CLIENTS {
          idle := idle + [h];
        }
      }
    }

    /** `handleCommand`: what is sent back, whether the connection is to be dropped, and the command
        passed to the application. */
    method HandleCommand(h: u16, data: seq<u8>, ghost time: nat, now: u32)
      returns (response: Option<bool>, disconnect: bool, callback: Option<(u8, seq<u8>)>)
      requires now == Millis(time)
      modifies this
      ensures |data| < 2 || data[0] != 0xAA ==>
        State() == old(State()) && response == None && !disconnect && callback == None
      ensures |data| >= 2 && data[0] == 0xAA && data[1] == 0xF0 ==>
        var pinOk := PinMatches(pin, data);
        var outcome := Attempt(old(State()), h, pinOk, now).1;
        && State() == Next(old(State()), TryPin(time, h, pinOk))
        && response == (if outcome.Unknown? then None else Some(outcome.Accepted?))
        && (disconnect <==> outcome == Wrong(true))
        && callback == None
      ensures |data| >= 2 && data[0] == 0xAA && data[1] != 0xF0 ==>
        && State() == Next(old(State()), Command(time, h))
        && response == None && !disconnect
        && callback == if h in clients && clients[h].authed then Some((data[1], data[2..])) else None
    {
      response, disconnect, callback := None, false, None;
      if |data| < 2 || data[0] != MAGIC_AUTOPILOT {
        return;
      }
      var cmd := data[1];
      if cmd == CMD_AUTH {
        var pinOk := PinMatches(pin, data);
        if h !in clients {
          return;
        }
        var state := clients[h];
        if globalBlockUntilMs != 0 && Ahead(globalBlockUntilMs, now) {
          response := Some(false);
        } else {
          if globalBlockUntilMs != 0 {
            globalBlockUntilMs := 0;
            globalAuthFailures := 0;
          }
          if state.blockUntil != 0 && Ahead(state.blockUntil, now) {
            response := Some(false);
          } else if pinOk {
            clients := clients[h := state.(authed := true, failures := 0, blockUntil := 0)];
            globalAuthFailures := 0;
            globalBlockUntilMs := 0;
            response := Some(true);
          } else {
            state := state.(failures := (state.failures + 1) % 0x100);
            globalAuthFailures := (globalAuthFailures + 1) % 0x1_0000;
            response := Some(false);
            if state.failures >= AUTH_MAX_FAILURES {
              disconnect := true;
            } else if state.failures % AUTH_LOCKOUT_FAILURES == 0 {
              state := state.(blockUntil := (now + AUTH_LOCKOUT_MS) % 0x1_0000_0000);
            }
            if globalAuthFailures >= AUTH_GLOBAL_LOCKOUT_FAILURES {
              globalBlockUntilMs := (now + AUTH_GLOBAL_LOCKOUT_MS) % 0x1_0000_0000;
            }
            clients := clients[h := state];
          }
        }
        return;
      }
      if h !in clients || !clients[h].authed {
        return;
      }
      callback := Some((cmd, data[2..]));
    }
  }

  predicate IsLeast(h: u16, s: set<u16>) {
    h in s && forall k :: k in s ==> h <= k
  }

  lemma {:induction false} LeastExists(s: set<u16>)
    requires s != {}
    ensures exists h :: IsLeast(h, s)
  {
    var x :| x in s;
    var t := s - {x};
    if t == {} {
      assert s == {x} && IsLeast(x, s);
    } else {
      LeastExists(t);
      var y :| IsLeast(y, t);
      assert forall k :: k in s ==> k == x || k in t;
      assert IsLeast(if x <= y then x else y, s);
    }
  }
}
