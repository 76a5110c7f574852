/**
 The BMS side of the link as `simulator/bmssim.js` plays it: a byte-at-a-time
 request parser that, on an unexpected byte, falls back to its start state and
 looks at that byte again.
 */
module RequestParser {
  import opened Bytes
  import opened Wrappers
  import opened BmsFrame
  import opened BmsStream
  import opened JdbBms

  datatype Mode = Read | Write

  /** `rstate`, by what the next byte should be. */
  datatype Stage = Start | Operation | Register | Length | Payload | ChecksumHigh | ChecksumLow | End

  /** The parser's variables; `left` is how much payload is still to come. */
  datatype Parser = Parser(stage: Stage, mode: Mode, register: u8, payload: seq<u8>, left: nat, csum: u16)

  const IDLE := Parser(Start, Read, 0, [], 0, 0)

  /** A complete request, as `processFrame` sees it. */
  datatype Request = Request(register: u8, payload: seq<u8>, csum: u16)

  ghost predicate Sound(p: Parser) {
    && p.left <= 0xff
    && (p.stage.Payload? <==> p.left > 0)
  }

  /** One turn of the parser's loop: the new state, a completed request, and whether to look at the byte again. */
  function Turn(p: Parser, val: u8): (Parser, Option<Request>, bool) {
    match p.stage
    case Start => (if val == 0xdd then p.(stage := Operation) else p, None, false)
    case Operation =>
      if val == 0xa5 then (p.(stage := Register, mode := Read), None, false)
      else if val == 0x5a then (p.(stage := Register, mode := Write), None, false)
      else (p.(stage := Start), None, true)
    case Register => (p.(stage := Length, register := val), None, false)
    case Length =>
      if val == 0 then (p.(stage := ChecksumHigh, payload := [], left := 0), None, false)
      else (p.(stage := Payload, payload := [], left := val), None, false)
    case Payload =>
      (p.(stage := if p.left <= 1 then ChecksumHigh else Payload, payload := p.payload + [val],
          left := if p.left == 0 then 0 else p.left - 1), None, false)
    case ChecksumHigh => (p.(stage := ChecksumLow, csum := val * 0x100), None, false)
    case ChecksumLow => (p.(stage := End, csum := p.csum / 0x100 * 0x100 + val), None, false)
    case End =>
      if val == 0x77 then (p.(stage := Start), Some(Request(p.register, p.payload, p.csum)), false)
      else (p.(stage := Start), None, true)
  }

  /** A byte: at most one further turn, from the start state. */
  function Feed(p: Parser, val: u8): (Parser, Option<Request>) {
    var (q, r, again) := Turn(p, val);
    if again then var (q', r', _) := Turn(q, val); (q', r') else (q, r)
  }

  function FeedAll(p: Parser, bytes: seq<u8>): (Parser, seq<Request>) {
    if bytes == [] then (p, [])
    else
      var (q, rs) := FeedAll(p, bytes[..|bytes| - 1]);
      var (q', r) := Feed(q, bytes[|bytes| - 1]);
      (q', if r.Some? then rs + [r.value] else rs)
  }

  /** The checksum `processFrame` computes: a 17-bit number when the sum is zero. */
  function Wanted(r: Request): nat {
    0x1_0000 - (if r.payload == [] then r.register else (r.register + |r.payload| + Total(r.payload)) % 0x1_0000)
  }

  predicate Answered(r: Request) {
    r.csum == Wanted(r)
  }

  lemma FeedSound(p: Parser, val: u8)
    requires Sound(p)
    ensures Sound(Feed(p, val).0)
  {
  }

  lemma {:induction false} FeedAllSound(p: Parser, bytes: seq<u8>)
    requires Sound(p)
    ensures Sound(FeedAll(p, bytes).0)
  {
    if bytes != [] {
      FeedAllSound(p, bytes[..|bytes| - 1]);
      FeedSound(FeedAll(p, bytes[..|bytes| - 1]).0, bytes[|bytes| - 1]);
    }
  }

  // ---------------------------------------------------------------------------
  // The loop

  class Simulator {
    var stage: Stage
    var mode: Mode
    var register: u8
    var inBuffer: seq<u8>
    var inBufferLen: u8
    var csum: u16

    /** The payload collected so far is shorter than announced exactly while payload is expected. */
    ghost predicate Valid()
      reads this
    {
      stage.Payload? ==> |inBuffer| < inBufferLen
    }

    ghost function State(): Parser
      reads this
      requires Valid()
    {
      Parser(stage, mode, register, inBuffer, if stage.Payload? then inBufferLen as int - |inBuffer| else 0, csum)
    }

    constructor ()
      ensures Valid() && State() == IDLE
    {
      stage, mode, register, inBuffer, inBufferLen, csum := Start, Read, 0, [], 0, 0;
    }

    /** The `switch` in the loop of the data handler. */
    method Dispatch(val: u8) returns (done: Option<Request>, step: bool)
      requires Valid()
      modifies this
      ensures Valid() && (State(), done, step) == Turn(old(State()), val)
    {
      done, step := None, false;
      match stage
      case Start =>
        if val == 0xdd {
          stage := Operation;
        }
      case Operation =>
        if val == 0xa5 {
          mode, stage := Read, Register;
        } else if val == 0x5a {
          mode, stage := Write, Register;
        } else {
          stage, step := Start, true;
        }
      case Register =>
        register := val;
        stage := Length;
      case Length =>
        inBuffer := [];
        inBufferLen := val;
        stage := if val == 0x00 then ChecksumHigh else Payload;
      case Payload =>
        inBuffer := inBuffer + [val];
        if inBufferLen as int == |inBuffer| {
          stage := ChecksumHigh;
        }
      case ChecksumHigh =>
        csum := val * 0x100;
        stage := ChecksumLow;
      case ChecksumLow =>
        csum := csum / 0x100 * 0x100 + val;
        stage := End;
      case End =>
        if val == 0x77 {
          done := Some(Request(register, inBuffer, csum));
          stage := Start;
        } else {
          stage, step := Start, true;
        }
    }

    /** The data handler for one byte: the loop turns at most twice. */
    method OnByte(val: u8) returns (done: Option<Request>, ghost turns: nat)
      requires Valid()
      modifies this
      ensures Valid() && (State(), done) == Feed(old(State()), val)
      ensures turns <= 2
    {
      var step := true;
      done, turns := None, 0;
      while step
        invariant Valid() && 0 <= turns <= 2
        invariant turns == 0 ==> step && State() == old(State())
        invariant turns == 1 ==> (State(), done, step) == Turn(old(State()), val)
        invariant turns == 2 ==> !step && (State(), done) == Feed(old(State()), val)
        decreases 2 - turns
      {
        done, step := Dispatch(val);
        turns := turns + 1;
      }
    }
  }

  // ---------------------------------------------------------------------------
  // Resynchronisation

  predicate Ready(p: Parser) {
    p.stage.Start? || p.stage.Operation?
  }

  /** The most bytes that can go by before the parser is ready for a new request. */
  function Pending(p: Parser): nat {
    match p.stage
    case Start => 0
    case Operation => 0
    case Register => 260
    case Length => 259
    case Payload => p.left + 3
    case ChecksumHigh => 3
    case ChecksumLow => 2
    case End => 1
  }

  lemma FeedProgress(p: Parser, val: u8)
    requires Sound(p) && !Ready(p)
    ensures Pending(Feed(p, val).0) < Pending(p)
  {
  }

  /** From any state, somewhere within the next 260 bytes the parser is ready for a new request. */
  lemma {:induction false} ReadyWithin(p: Parser, bytes: seq<u8>) returns (n: nat)
    requires Sound(p) && Pending(p) <= |bytes|
    ensures n <= Pending(p) <= 260 && Ready(FeedAll(p, bytes[..n]).0)
  {
    hide Feed, FeedAll;
    n := 0;
    var q, rs: seq<Request> := p, [];
    FeedNone(p, bytes);
    while !Ready(q)
      invariant n <= |bytes| && Sound(q) && n + Pending(q) <= Pending(p) && FeedAll(p, bytes[..n]) == (q, rs)
      decreases Pending(p) - n
    {
      FeedProgress(q, bytes[n]);
      FeedSound(q, bytes[n]);
      FeedNext(p, bytes, n, q, rs);
      q, rs := Feed(q, bytes[n]).0, rs + List(Feed(q, bytes[n]).1);
      n := n + 1;
    }
  }

  // ---------------------------------------------------------------------------
  // The firmware's requests

  function List<T>(r: Option<T>): seq<T> {
    if r.Some? then [r.value] else []
  }

  lemma FeedNext(p: Parser, bytes: seq<u8>, n: nat, q: Parser, rs: seq<Request>)
    requires n < |bytes| && FeedAll(p, bytes[..n]) == (q, rs)
    ensures FeedAll(p, bytes[..n + 1]) == (Feed(q, bytes[n]).0, rs + List(Feed(q, bytes[n]).1))
  {
    hide Feed;
    assert bytes[..n + 1][..n] == bytes[..n];
    assert rs + [] == rs;
  }

  /** Seven bytes, one at a time. */
  lemma FeedSeven(p: Parser, b: seq<u8>)
    requires |b| == 7
    ensures var (p1, r1) := Feed(p, b[0]); var (p2, r2) := Feed(p1, b[1]); var (p3, r3) := Feed(p2, b[2]);
      var (p4, r4) := Feed(p3, b[3]); var (p5, r5) := Feed(p4, b[4]); var (p6, r6) := Feed(p5, b[5]);
      var (p7, r7) := Feed(p6, b[6]);
      FeedAll(p, b) == (p7, [] + List(r1) + List(r2) + List(r3) + List(r4) + List(r5) + List(r6) + List(r7))
  {
    hide Feed, FeedAll;
    var (p1, r1) := Feed(p, b[0]);
    var (p2, r2) := Feed(p1, b[1]);
    var (p3, r3) := Feed(p2, b[2]);
    var (p4, r4) := Feed(p3, b[3]);
    var (p5, r5) := Feed(p4, b[4]);
    var (p6, r6) := Feed(p5, b[5]);
    FeedNone(p, b);
    FeedNext(p, b, 0, p, []);
    FeedNext(p, b, 1, p1, [] + List(r1));
    FeedNext(p, b, 2, p2, [] + List(r1) + List(r2));
    FeedNext(p, b, 3, p3, [] + List(r1) + List(r2) + List(r3));
    FeedNext(p, b, 4, p4, [] + List(r1) + List(r2) + List(r3) + List(r4));
    FeedNext(p, b, 5, p5, [] + List(r1) + List(r2) + List(r3) + List(r4) + List(r5));
    FeedNext(p, b, 6, p6, [] + List(r1) + List(r2) + List(r3) + List(r4) + List(r5) + List(r6));
    assert b[..7] == b;
  }

  lemma FeedNone(p: Parser, b: seq<u8>)
    ensures FeedAll(p, b[..0]) == (p, [])
  {
  }

  /** What the parser makes of a firmware request it recognises. */
  function Recognised(regNo: u8): Request {
    Request(regNo, [], (0x1_0000 - regNo) % 0x1_0000)
  }

  /** It is answered for every register but zero, whose checksum does not fit sixteen bits. */
  lemma AnsweredIff(regNo: u8)
    ensures Answered(Recognised(regNo)) <==> regNo != 0
  {
  }

  /** The request after its first byte. */
  lemma FromOperation(p: Parser, regNo: u8)
    requires p.stage.Operation?
    ensures var b := ReadRequest(regNo);
      var p2 := Feed(p, b[1]).0; var p3 := Feed(p2, b[2]).0; var p4 := Feed(p3, b[3]).0;
      var p5 := Feed(p4, b[4]).0; var p6 := Feed(p5, b[5]).0;
      && Feed(p, b[1]).1 == Feed(p2, b[2]).1 == Feed(p3, b[3]).1 == Feed(p4, b[4]).1 == Feed(p5, b[5]).1 == None
      && Feed(p6, b[6]).1 == Some(Recognised(regNo)) && Feed(p6, b[6]).0.stage.Start?
  {
  }

  lemma FromReady(p: Parser, regNo: u8)
    requires p.stage.Start? || p.stage.Operation? || p.stage.End?
    ensures FeedAll(p, ReadRequest(regNo)).1 == [Recognised(regNo)]
    ensures FeedAll(p, ReadRequest(regNo)).0.stage.Start?
  {
    FirstByte(p);
    hide FeedAll, Feed, Recognised;
    FeedSeven(p, ReadRequest(regNo));
    FromOperation(p.(stage := Operation), regNo);
  }

  lemma FirstByte(p: Parser)
    requires p.stage.Start? || p.stage.Operation? || p.stage.End?
    ensures Feed(p, 0xdd) == (p.(stage := Operation), None)
  {
  }

  lemma FromHeader(p: Parser, regNo: u8)
    requires p.stage.Register? || p.stage.Length?
    ensures FeedAll(p, ReadRequest(regNo)).1 == []
  {
    hide FeedAll;
    FeedSeven(p, ReadRequest(regNo));
  }

  // Too little payload is left for the request to fit, or so much that it is all taken as payload.

  lemma FromShortPayload(p: Parser, regNo: u8)
    requires Sound(p) && p.stage.Payload? && p.left <= 2
    ensures FeedAll(p, ReadRequest(regNo)).1 == []
  {
    hide FeedAll;
    FeedSeven(p, ReadRequest(regNo));
  }

  lemma FromMediumPayload(p: Parser, regNo: u8)
    requires Sound(p) && p.stage.Payload? && 5 <= p.left <= 6
    ensures FeedAll(p, ReadRequest(regNo)).1 == []
  {
    hide FeedAll;
    FeedSeven(p, ReadRequest(regNo));
  }

  lemma FromLongPayload(p: Parser, regNo: u8)
    requires Sound(p) && p.stage.Payload? && p.left >= 7
    ensures FeedAll(p, ReadRequest(regNo)).1 == []
  {
    hide FeedAll;
    FeedSeven(p, ReadRequest(regNo));
  }

  /** A request that ends inside a payload still open, if any ends, has that payload. */
  lemma FromPayload(p: Parser, regNo: u8)
    requires Sound(p) && p.stage.Payload? && 3 <= p.left <= 4
    ensures |FeedAll(p, ReadRequest(regNo)).1| == 1 ==> FeedAll(p, ReadRequest(regNo)).1[0].payload != []
  {
    hide FeedAll;
    FeedSeven(p, ReadRequest(regNo));
  }

  /** A request that ends on a checksum already expected, if any ends, has the wrong one. */
  lemma FromChecksumHigh(p: Parser, regNo: u8)
    requires p.stage.ChecksumHigh?
    ensures var rs := FeedAll(p, ReadRequest(regNo)).1; |rs| == 1 ==> rs[0].csum == 0xdda5 && regNo == 0x77
  {
    hide FeedAll;
    FeedSeven(p, ReadRequest(regNo));
  }

  lemma FromChecksumLow(p: Parser, regNo: u8)
    requires p.stage.ChecksumLow?
    ensures FeedAll(p, ReadRequest(regNo)).1 == []
  {
    hide FeedAll;
    FeedSeven(p, ReadRequest(regNo));
  }

  /** A firmware request is recognised, once and as itself, exactly when it arrives while the parser is
      at the start, waits for an operation, or waits for the end of a request that never comes. */
  lemma RequestRecognisedIff(p: Parser, regNo: u8)
    requires Sound(p)
    ensures FeedAll(p, ReadRequest(regNo)).1 == [Recognised(regNo)]
      <==> p.stage.Start? || p.stage.Operation? || p.stage.End?
  {
    hide FeedAll;
    match p.stage
    case Start => FromReady(p, regNo);
    case Operation => FromReady(p, regNo);
    case End => FromReady(p, regNo);
    case Register => FromHeader(p, regNo);
    case Length => FromHeader(p, regNo);
    case Payload =>
      if 3 <= p.left <= 4 {
        FromPayload(p, regNo);
      } else if p.left <= 2 {
        FromShortPayload(p, regNo);
      } else if p.left <= 6 {
        FromMediumPayload(p, regNo);
      } else {
        FromLongPayload(p, regNo);
      }
    case ChecksumHigh => FromChecksumHigh(p, regNo);
    case ChecksumLow => FromChecksumLow(p, regNo);
  }

  /** After the idle timeout the parser is at the start, whatever it was doing. */
  function IdleTimeout(p: Parser, idleMs: nat): Parser {
    if !p.stage.Start? && idleMs > 1000 then p.(stage := Start, left := 0) else p
  }

  /** Up to a second, and at the start, nothing is reset. */
  lemma TimeoutIff(p: Parser, idleMs: nat)
    requires Sound(p)
    ensures IdleTimeout(p, idleMs) == p <==> idleMs <= 1000 || p.stage.Start?
    ensures idleMs > 1000 ==> IdleTimeout(p, idleMs).stage.Start?
  {
  }

  lemma RequestAfterTimeout(p: Parser, idleMs: nat, regNo: u8)
    requires Sound(p) && idleMs > 1000
    ensures FeedAll(IdleTimeout(p, idleMs), ReadRequest(regNo)).1 == [Recognised(regNo)]
  {
    RequestRecognisedIff(IdleTimeout(p, idleMs), regNo);
  }

  // ---------------------------------------------------------------------------
  // Any request

  function Operator(mode: Mode): u8 {
    if mode.Read? then 0xa5 else 0x5a
  }

  /** A request up to its checksum, or to a part of its payload. */
  ghost function Opening(mode: Mode, register: u8, length: u8, payload: seq<u8>): seq<u8> {
    [0xdd, Operator(mode), register, length] + payload
  }

  /** A request as it is sent. */
  ghost function Wire(mode: Mode, r: Request): seq<u8>
    requires |r.payload| <= 0xff
  {
    Opening(mode, r.register, |r.payload|, r.payload) + [r.csum / 0x100] + [r.csum % 0x100] + [0x77]
  }

  /** The part of a request the parser has seen. */
  ghost function Seen(p: Parser): seq<u8>
    requires Bounded(p)
  {
    var opening := Opening(p.mode, p.register, |p.payload| + p.left, p.payload);
    match p.stage
    case Start => []
    case Operation => [0xdd]
    case Register => [0xdd, Operator(p.mode)]
    case Length => [0xdd, Operator(p.mode), p.register]
    case Payload => opening
    case ChecksumHigh => opening
    case ChecksumLow => opening + [p.csum / 0x100]
    case End => opening + [p.csum / 0x100] + [p.csum % 0x100]
  }

  ghost predicate Bounded(p: Parser) {
    Sound(p) && |p.payload| + p.left <= 0xff
  }

  ghost predicate EndsIn(bytes: seq<u8>, tail: seq<u8>) {
    |tail| <= |bytes| && bytes[|bytes| - |tail|..] == tail
  }

  lemma EndsInNext(bytes: seq<u8>, tail: seq<u8>, val: u8)
    requires EndsIn(bytes, tail)
    ensures EndsIn(bytes + [val], tail + [val]) && EndsIn(bytes + [val], [val]) && EndsIn(bytes + [val], [])
  {
  }

  lemma OpeningNext(mode: Mode, register: u8, length: u8, payload: seq<u8>, val: u8)
    ensures Opening(mode, register, length, payload) + [val] == Opening(mode, register, length, payload + [val])
    ensures [0xdd, Operator(mode), register] + [length] == Opening(mode, register, length, [])
  {
  }

  lemma TurnSeen(p: Parser, val: u8)
    requires Bounded(p)
    ensures var (q, r, again) := Turn(p, val);
      && Bounded(q)
      && (if again then q.stage.Start? && r == None
          else Seen(q) == Seen(p) + [val] || (q.stage.Start? && Seen(q) == []))
      && (r.Some? ==> |r.value.payload| <= 0xff && Seen(p) + [val] == Wire(p.mode, r.value))
  {
    hide Opening, Operator;
    if p.stage.Length? {
      OpeningNext(p.mode, p.register, val, [], val);
    } else if p.stage.Payload? {
      OpeningNext(p.mode, p.register, |p.payload| + p.left, p.payload, val);
    } else if p.stage.Operation? {
      assert Operator(Read) == 0xa5 && Operator(Write) == 0x5a by { Operators(); }
    }
  }

  lemma Operators()
    ensures Operator(Read) == 0xa5 && Operator(Write) == 0x5a
  {
  }

  lemma FeedSeen(bytes: seq<u8>, p: Parser, val: u8)
    requires Bounded(p) && EndsIn(bytes, Seen(p))
    ensures var (q, r) := Feed(p, val);
      && Bounded(q) && EndsIn(bytes + [val], Seen(q))
      && (r.Some? ==> |r.value.payload| <= 0xff && EndsIn(bytes + [val], Wire(p.mode, r.value)))
  {
    hide Turn, Seen, Wire, EndsIn;
    TurnSeen(p, val);
    EndsInNext(bytes, Seen(p), val);
    var q := Turn(p, val).0;
    if Turn(p, val).2 {
      SeenAtStart(q);
      EndsInNext(bytes + [val], [], val);
      TurnSeen(q, val);
      NoneFromStart(q, val);
    }
  }

  lemma SeenAtStart(p: Parser)
    requires Bounded(p) && p.stage.Start?
    ensures Seen(p) == []
  {
  }

  lemma NoneFromStart(p: Parser, val: u8)
    requires p.stage.Start?
    ensures !Turn(p, val).2 && Turn(p, val).1 == None
  {
  }

  lemma {:induction false} AllSeen(bytes: seq<u8>)
    ensures Bounded(FeedAll(IDLE, bytes).0) && EndsIn(bytes, Seen(FeedAll(IDLE, bytes).0))
  {
    hide Feed, Seen;
    if bytes == [] {
      SeenAtStart(IDLE);
    } else {
      var n := |bytes| - 1;
      AllSeen(bytes[..n]);
      FeedSeen(bytes[..n], FeedAll(IDLE, bytes[..n]).0, bytes[n]);
      assert bytes[..n] + [bytes[n]] == bytes;
    }
  }

  /** No request is made up: whatever came before, one is recognised only on the last byte of just that request. */
  lemma OnlyWhatWasSent(bytes: seq<u8>, val: u8)
    ensures var (p, r) := (FeedAll(IDLE, bytes).0, Feed(FeedAll(IDLE, bytes).0, val).1);
      r.Some? ==> |r.value.payload| <= 0xff && EndsIn(bytes + [val], Wire(p.mode, r.value))
  {
    hide Feed, FeedAll, Wire, EndsIn, Seen;
    AllSeen(bytes);
    FeedSeen(bytes, FeedAll(IDLE, bytes).0, val);
  }

  lemma {:induction false} FeedJoin(p: Parser, a: seq<u8>, b: seq<u8>)
    ensures var (q, rs) := FeedAll(p, a); FeedAll(p, a + b) == (FeedAll(q, b).0, rs + FeedAll(q, b).1)
  {
    hide Feed;
    var (q, rs) := FeedAll(p, a);
    if b == [] {
      assert a + b == a && rs + [] == rs;
    } else {
      var init, last := b[..|b| - 1], b[|b| - 1];
      FeedJoin(p, a, init);
      assert (a + b)[..|a + b| - 1] == a + init;
      var (q', rs') := FeedAll(q, init);
      var r := Feed(q', last).1;
      assert r.Some? ==> rs + (rs' + [r.value]) == rs + rs' + [r.value];
    }
  }

  /** Anything without a start byte goes by. */
  lemma {:induction false} NoiseIgnored(p: Parser, noise: seq<u8>)
    requires p.stage.Start? && 0xdd !in noise
    ensures FeedAll(p, noise) == (p, [])
  {
    if noise != [] {
      NoiseIgnored(p, noise[..|noise| - 1]);
    }
  }

  lemma {:induction false} PayloadRead(p: Parser, bytes: seq<u8>)
    requires p.stage.Payload? && |bytes| == p.left > 0
    ensures FeedAll(p, bytes) == (p.(stage := ChecksumHigh, payload := p.payload + bytes, left := 0), [])
  {
    PayloadPart(p, bytes[..|bytes| - 1]);
    assert p.payload + bytes == p.payload + bytes[..|bytes| - 1] + [bytes[|bytes| - 1]];
  }

  lemma {:induction false} PayloadPart(p: Parser, bytes: seq<u8>)
    requires p.stage.Payload? && |bytes| < p.left
    ensures FeedAll(p, bytes) == (p.(payload := p.payload + bytes, left := p.left - |bytes|), [])
  {
    if bytes == [] {
      assert p.payload + [] == p.payload;
    } else {
      PayloadPart(p, bytes[..|bytes| - 1]);
      assert p.payload + bytes == p.payload + bytes[..|bytes| - 1] + [bytes[|bytes| - 1]];
    }
  }

  lemma HeaderRead(p: Parser, mode: Mode, register: u8, length: u8)
    requires p.stage.Start?
    ensures var q := p.(mode := mode, register := register, payload := [], left := length);
      FeedAll(p, [0xdd, Operator(mode), register, length])
      == (q.(stage := if length == 0 then ChecksumHigh else Payload), [])
  {
    hide FeedAll;
    var b := [0xdd, Operator(mode), register, length];
    var p1 := Feed(p, b[0]).0;
    var p2 := Feed(p1, b[1]).0;
    var p3 := Feed(p2, b[2]).0;
    FeedNone(p, b);
    FeedNext(p, b, 0, p, []);
    FeedNext(p, b, 1, p1, []);
    FeedNext(p, b, 2, p2, []);
    FeedNext(p, b, 3, p3, []);
    assert b[..4] == b;
  }

  lemma TrailerRead(p: Parser, csum: u16)
    requires p.stage.ChecksumHigh?
    ensures FeedAll(p, [csum / 0x100, csum % 0x100, 0x77])
         == (p.(stage := Start, csum := csum), [Request(p.register, p.payload, csum)])
  {
    hide FeedAll;
    var b: seq<u8> := [csum / 0x100, csum % 0x100, 0x77];
    var p1 := Feed(p, b[0]).0;
    var p2 := Feed(p1, b[1]).0;
    FeedNone(p, b);
    FeedNext(p, b, 0, p, []);
    FeedNext(p, b, 1, p1, []);
    FeedNext(p, b, 2, p2, []);
    assert b[..3] == b;
    assert p1.csum == csum / 0x100 * 0x100 && p2.csum == csum;
    assert Feed(p2, b[2]) == (p.(stage := Start, csum := csum), Some(Request(p.register, p.payload, csum)));
    assert [] + [Request(p.register, p.payload, csum)] == [Request(p.register, p.payload, csum)];
  }

  /** Every request that starts while the parser is at the start is recognised, once and as itself, read or write and
      whatever its payload, and leaves it at the start. */
  lemma EveryRequestRead(p: Parser, mode: Mode, r: Request)
    requires p.stage.Start? && |r.payload| <= 0xff
    ensures FeedAll(p, Wire(mode, r)).0.stage.Start? && FeedAll(p, Wire(mode, r)).0.mode == mode
    ensures FeedAll(p, Wire(mode, r)).1 == [r]
  {
    hide FeedAll;
    var header := [0xdd, Operator(mode), r.register, |r.payload|];
    var trailer := [r.csum / 0x100, r.csum % 0x100, 0x77];
    HeaderRead(p, mode, r.register, |r.payload|);
    var q := FeedAll(p, header).0;
    if r.payload == [] {
      assert header + r.payload == header;
    } else {
      PayloadRead(q, r.payload);
      assert [] + r.payload == r.payload;
      FeedJoin(p, header, r.payload);
    }
    var q' := FeedAll(p, header + r.payload).0;
    TrailerRead(q', r.csum);
    FeedJoin(p, header + r.payload, trailer);
    assert Wire(mode, r) == header + r.payload + trailer;
    assert [] + [r] == [r];
  }

  /** A request with a payload has the wanted checksum exactly when everything but the operation sums to nothing, and
      its bytes alone do not. */
  lemma PayloadAnsweredIff(r: Request)
    requires r.payload != [] && |r.payload| <= 0xff
    ensures var sum := r.register as int + |r.payload| + Total(r.payload);
      Answered(r) <==> (sum + r.csum as int) % 0x1_0000 == 0 && sum % 0x1_0000 != 0
  {
    hide Total;
    SumsToTurn(r.register as int + |r.payload| + Total(r.payload), r.csum);
  }

  lemma SumsToTurn(n: nat, w: u16)
    ensures w == 0x1_0000 - n % 0x1_0000 <==> (n + w) % 0x1_0000 == 0 && n % 0x1_0000 != 0
  {
    Complement(n, w);
  }

  // ---------------------------------------------------------------------------
  // The replies

  /** `send`: what the simulator writes. */
  function Sent(regNo: u8, response: u8, data: seq<u8>): (s: seq<u8>)
    requires |data| <= 0xff
  {
    var sum := (response + |data| + Total(data)) % 0x1_0000;
    var csum := 0x1_0000 - sum;
    [0xdd, regNo, response, |data|] + data + [csum / 0x100 % 0x100, csum % 0x100, 0x77]
  }

  /** The simulator's reply is the frame the firmware's driver accepts. */
  lemma SentIsEncode(f: Reply)
    ensures Sent(f.register, RESPONSE_OK, f.payload) == Encode(f)
    ensures Inspect(Sent(f.register, RESPONSE_OK, f.payload)) == Verdict.Accepted(f, |Encode(f)|)
  {
    hide Inspect, Total;
    var body := [RESPONSE_OK, |f.payload|] + f.payload;
    ChecksumBytes(Total(body));
    TotalJoin([RESPONSE_OK, |f.payload|], f.payload);
    TotalPair(RESPONSE_OK, |f.payload|);
    AcceptedAlone(f);
  }

  /** The 17-bit difference and its sixteen bits have the same two bytes. */
  lemma ChecksumBytes(total: nat)
    ensures var d, c := 0x1_0000 - total % 0x1_0000, (0x1_0000 - total % 0x1_0000) % 0x1_0000;
      d / 0x100 % 0x100 == c / 0x100 && d % 0x100 == c % 0x100
  {
  }

  lemma AcceptedAlone(f: Reply)
    ensures Inspect(Encode(f)) == Verdict.Accepted(f, |Encode(f)|)
  {
    hide Encode, Inspect;
    EncodeAccepted(f, []);
    assert Encode(f) + [] == Encode(f);
  }

  lemma TotalPair(a: u8, b: u8)
    ensures Total([a, b]) == a + b
  {
    assert [a, b][..1] == [a] && [a][..0] == [];
    assert Total([a]) == a;
  }
}
