/**
 The simulated BMS built into the firmware (`JBDBmsSimulator`): it reads requests
 a byte at a time, without looking back, and queues the replies.
 */
module BmsSimulator {
  import opened Bytes
  import opened BmsFrame
  import opened BmsStream
  import opened JdbBms

  const RESPONSE_ERROR: u8 := 0x80
  const SIMULATOR_BUFFER := 255

  /** The contents of the registers. */
  datatype Device = Device(reg03: seq<u8>, reg04: seq<u8>, reg05: seq<u8>)

  ghost predicate Fits(d: Device) {
    |d.reg03| <= MAX_PAYLOAD && |d.reg04| <= MAX_PAYLOAD && |d.reg05| <= MAX_PAYLOAD
  }

  /** The receiving state, and the bytes queued to be read. */
  datatype Sim = Sim(rstate: nat, reg: u8, csum: u16, out: seq<u8>)

  /** The reply to a request that ended with this register and checksum. */
  ghost function ReplyTo(d: Device, reg: u8, csum: u16): (s: seq<u8>)
    requires Fits(d)
    ensures |s| >= 7 && s[1] == reg
  {
    if reg == 0x03 && csum == 0xfffd then Finished(0x03, RESPONSE_OK, d.reg03)
    else if reg == 0x04 && csum == 0xfffc then Finished(0x04, RESPONSE_OK, d.reg04)
    else if reg == 0x05 && csum == 0xfffb then Finished(0x05, RESPONSE_OK, d.reg05)
    else Finished(reg, RESPONSE_ERROR, [])
  }

  /** One byte written. */
  ghost function Write(s: Sim, val: u8, d: Device): Sim
    requires Fits(d)
  {
    if s.rstate == 0 && val == 0xdd then s.(rstate := 1)
    else if s.rstate == 1 then s.(rstate := if val == 0xa5 then 2 else 0)
    else if s.rstate == 2 then s.(rstate := 3, reg := val)
    else if s.rstate == 3 && val == 0x00 then s.(rstate := 4)
    else if s.rstate == 4 then s.(rstate := 5, csum := val * 0x100)
    else if s.rstate == 5 then s.(rstate := 6, csum := s.csum / 0x100 * 0x100 + val)
    else if s.rstate == 6 then s.(rstate := 0, out := if val == 0x77 then s.out + ReplyTo(d, s.reg, s.csum) else s.out)
    else s
  }

  ghost function WriteAll(s: Sim, bytes: seq<u8>, d: Device): Sim
    requires Fits(d)
  {
    if bytes == [] then s else Write(WriteAll(s, bytes[..|bytes| - 1], d), bytes[|bytes| - 1], d)
  }

  lemma WriteSeven(s: Sim, b: seq<u8>, d: Device)
    requires Fits(d) && |b| == 7
    ensures WriteAll(s, b, d) ==
      Write(Write(Write(Write(Write(Write(Write(s, b[0], d), b[1], d), b[2], d), b[3], d), b[4], d), b[5], d), b[6], d)
  {
    hide Write;
    assert b[..6][..5] == b[..5] && b[..5][..4] == b[..4] && b[..4][..3] == b[..3];
    assert b[..3][..2] == b[..2] && b[..2][..1] == b[..1] && b[..1][..0] == [];
    assert WriteAll(s, b[..1], d) == Write(s, b[0], d);
    assert WriteAll(s, b[..2], d) == Write(WriteAll(s, b[..1], d), b[1], d);
    assert WriteAll(s, b[..3], d) == Write(WriteAll(s, b[..2], d), b[2], d);
    assert WriteAll(s, b[..4], d) == Write(WriteAll(s, b[..3], d), b[3], d);
    assert WriteAll(s, b[..5], d) == Write(WriteAll(s, b[..4], d), b[4], d);
    assert WriteAll(s, b[..6], d) == Write(WriteAll(s, b[..5], d), b[5], d);
  }

  /** The data a register is answered with. */
  function Answer(d: Device, regNo: u8): seq<u8> {
    if regNo == 0x03 then d.reg03 else if regNo == 0x04 then d.reg04 else d.reg05
  }

  /** A firmware request is answered with the frame the driver accepts for that register exactly when it
      arrives while the simulator is idle, or while it waits for the length of a request for the same register. */
  lemma RequestAnsweredIff(s: Sim, regNo: u8, d: Device)
    requires Fits(d) && s.rstate <= 6 && 3 <= regNo <= 5
    ensures WriteAll(s, ReadRequest(regNo), d).out == s.out + Encode(Frame(regNo, Answer(d, regNo)))
      <==> s.rstate == 0 || (s.rstate == 3 && s.reg == regNo)
    ensures s.rstate == 0 ==> WriteAll(s, ReadRequest(regNo), d).rstate == 0
  {
    hide ReplyTo, WriteAll, Encode;
    WriteSeven(s, ReadRequest(regNo), d);
    ReplyIs(d, regNo);
    RepliesDiffer(s.out, ReplyTo(d, 0xdd, 0x1_0000 - regNo), Encode(Frame(regNo, Answer(d, regNo))));
    RepliesDiffer(s.out, ReplyTo(d, s.reg, 0x1_0000 - regNo), Encode(Frame(regNo, Answer(d, regNo))));
  }

  /** Any other read request that arrives while it is idle is answered with an error reply for the register it named. */
  lemma OtherwiseError(s: Sim, regNo: u8, csum: u16, d: Device)
    requires Fits(d) && s.rstate == 0
    requires !(3 <= regNo <= 5 && csum as int + regNo as int == 0x1_0000)
    ensures var b := [0xdd, 0xa5, regNo, 0x00, csum / 0x100, csum % 0x100, 0x77];
      WriteAll(s, b, d).out == s.out + Finished(regNo, 0x80, []) && WriteAll(s, b, d).rstate == 0
    ensures Inspect(Finished(regNo, 0x80, [])) == ErrorReply
  {
    hide WriteAll, Checksum, Finished;
    var b: seq<u8> := [0xdd, 0xa5, regNo, 0x00, csum / 0x100, csum % 0x100, 0x77];
    WriteSeven(s, b, d);
    ErrorIsSound(regNo);
  }

  lemma ErrorIsSound(regNo: u8)
    ensures Inspect(Finished(regNo, 0x80, [])) == ErrorReply
  {
    hide Checksum;
    var s := Finished(regNo, 0x80, []);
    assert s[2..4] == [0x80, 0] + [];
  }

  lemma ReplyIs(d: Device, regNo: u8)
    requires Fits(d) && 3 <= regNo <= 5
    ensures ReplyTo(d, regNo, 0x1_0000 - regNo) == Encode(Frame(regNo, Answer(d, regNo)))
    ensures Encode(Frame(regNo, Answer(d, regNo)))[1] == regNo
  {
  }

  lemma RepliesDiffer(out: seq<u8>, a: seq<u8>, b: seq<u8>)
    requires |a| >= 7 && |b| >= 7
    ensures a[1] != b[1] ==> out + a != out + b
    ensures out != out + b
  {
    assert (out + a)[|out| + 1] == a[1] && (out + b)[|out| + 1] == b[1];
  }

  /** A whole exchange: the driver's request, written to an idle simulator, brings back exactly the register asked for,
      releases the next request, and leaves both sides as they were. */
  lemma ExchangeDelivers(s: Sim, b: Buffer, regNo: u8, d: Device)
    requires Fits(d) && s.rstate == 0 && s.out == [] && b.Valid() && b.wpos == 0 && 3 <= regNo <= 5
    ensures var s' := WriteAll(s, ReadRequest(regNo), d);
      && s'.rstate == 0 && |s'.out| <= BUFFER_LENGTH
      && (var (b', p) := Receive(b, s'.out);
          b'.wpos == 0 && p.frames == [Frame(regNo, Answer(d, regNo))] && p.answered && !p.corrupt)
  {
    hide WriteAll, Encode, Scan, ScanBuffer, Settle, Fill, ReadRequest;
    var f := Frame(regNo, Answer(d, regNo));
    RequestAnsweredIff(s, regNo, d);
    var e := Encode(f);
    assert [] + e == e == e + [];
    ScanFirst(f, [], 0, NOTHING);
    assert b.Data() == [];
    ScanStep([], |e|, Pass(NOTHING.frames + [f], |e|, false, true));
    WholeScanned(Fill(b, e), e, f);
    SettleShifts(Fill(b, e), ScanBuffer(Fill(b, e)));
  }

  lemma WholeScanned(b: Buffer, e: seq<u8>, f: Frame)
    requires b.Valid() && b.Data() == e && Scan(e, 0, NOTHING) == Pass([f], |e|, false, true)
    ensures ScanBuffer(b) == Pass([f], |e|, false, true)
  {
    hide Scan;
  }

  class JBDBmsSimulator {
    const buffer: array<u8>
    const device: Device
    var rstate: nat
    var bend: u8
    var reg: u8
    var csum: u16

    ghost predicate Valid()
      reads this
    {
      buffer.Length == SIMULATOR_BUFFER && bend <= SIMULATOR_BUFFER && rstate <= 6 && Fits(device)
    }

    ghost function State(): Sim
      reads this, buffer
      requires Valid()
    {
      Sim(rstate, reg, csum, buffer[..bend])
    }

    constructor (device: Device)
      requires Fits(device)
      ensures Valid() && fresh(buffer) && State() == Sim(0, 0, 0, []) && this.device == device
    {
      buffer := new u8[SIMULATOR_BUFFER](_ => 0);
      this.device := device;
      rstate, bend, reg, csum := 0, 0, 0, 0;
    }

    /** The summing loop of `finish`. */
    method Sum(from: nat, to: nat) returns (sum: u16)
      requires from <= to <= buffer.Length
      ensures sum == Total(buffer[from..to]) % 0x1_0000
    {
      sum := 0;
      var i := from;
      while i < to
        invariant from <= i <= to && sum == Total(buffer[from..i]) % 0x1_0000
      {
        assert buffer[from..i + 1][..i - from] == buffer[from..i];
        sum := (sum + buffer[i]) % 0x1_0000;
        i := i + 1;
      }
    }

    /** `finish`, for the reply whose header and data start at `at`. */
    method Finish(at: nat) returns (size: nat)
      requires Valid() && at + 7 <= SIMULATOR_BUFFER && at + 7 + buffer[at + 3] as int <= SIMULATOR_BUFFER
      modifies buffer
      ensures size == 7 + old(buffer[at + 3]) as int && buffer[..at + size - 3] == old(buffer[..at + size - 3])
      ensures var c := Checksum(old(buffer[at + 2..at + size - 3]));
        buffer[at + size - 3..at + size] == [c / 0x100, c % 0x100, END_OF_PACKET]
    {
      hide Total;
      var checkSumPos: nat := at + buffer[at + 3] as int + 4;
      var sum := Sum(at + 2, checkSumPos);
      sum := (0x1_0000 - sum as int) % 0x1_0000;
      assert sum == Checksum(buffer[at + 2..checkSumPos]);
      buffer[checkSumPos] := sum / 0x100;
      buffer[checkSumPos + 1] := sum % 0x100;
      buffer[checkSumPos + 2] := END_OF_PACKET;
      size := checkSumPos + 3 - at;
    }

    /** The header and the data of a reply. */
    method Prepare(regNo: u8, response: u8, data: seq<u8>)
      requires Valid() && |data| <= MAX_PAYLOAD && bend as int + 7 + |data| <= SIMULATOR_BUFFER
      modifies buffer
      ensures buffer[..bend as int + 4 + |data|] ==
        old(buffer[..bend]) + [START_OF_PACKET, regNo, response, |data|] + data
    {
      ghost var head := buffer[..bend] + [START_OF_PACKET, regNo, response, |data|];
      var from: nat := bend as int + 4;
      buffer[bend] := START_OF_PACKET;
      buffer[bend + 1] := regNo;
      buffer[bend + 2] := response;
      buffer[bend + 3] := |data|;
      assert buffer[..from] == head;
      var i := 0;
      while i < |data|
        invariant 0 <= i <= |data| && buffer[..from] == head
        invariant forall k :: from <= k < from + i ==> buffer[k] == data[k - from]
      {
        buffer[from + i] := data[i];
        i := i + 1;
      }
      assert buffer[..from + |data|] == head + data;
    }

    /** The `create…Response` methods: a reply behind the ones already queued. */
    method Respond(regNo: u8, response: u8, data: seq<u8>)
      requires Valid() && |data| <= MAX_PAYLOAD && bend as int + 7 + |data| <= SIMULATOR_BUFFER
      modifies this`bend, buffer
      ensures Valid() && State() == old(State()).(out := old(buffer[..bend]) + Finished(regNo, response, data))
    {
      hide Checksum;
      ghost var was := buffer[..bend];
      ghost var at: nat := bend;
      Prepare(regNo, response, data);
      ghost var head := buffer[..at + 4 + |data|];
      HeadParts(was, head, regNo, response, data);
      assert buffer[at + 3] == head[at + 3];
      var size := Finish(bend);
      bend := bend + size;
      assert buffer[..bend] == buffer[..at + size - 3] + buffer[at + size - 3..at + size];
      Assembled(was, head, buffer[at + size - 3..at + size], regNo, response, data);
    }

    /** `write`. The queue must have room for the reply, which the source does not check. */
    method WriteByte(val: u8)
      requires Valid() && (rstate == 6 && val == 0x77 ==> bend + |ReplyTo(device, reg, csum)| <= SIMULATOR_BUFFER)
      modifies this, buffer
      ensures Valid() && State() == Write(old(State()), val, device)
    {
      hide Finished;
      if rstate == 0 && val == 0xdd {
        rstate := 1;
      } else if rstate == 1 {
        rstate := if val == 0xa5 then 2 else 0;
      } else if rstate == 2 {
        reg := val;
        rstate := 3;
      } else if rstate == 3 && val == 0x00 {
        rstate := 4;
      } else if rstate == 4 {
        csum := val * 0x100;
        rstate := 5;
      } else if rstate == 5 {
        csum := csum / 0x100 * 0x100 + val;
        rstate := 6;
      } else if rstate == 6 {
        if val == 0x77 {
          if reg == 0x03 && csum == 0xfffd {
            Respond(0x03, RESPONSE_OK, device.reg03);
          } else if reg == 0x04 && csum == 0xfffc {
            Respond(0x04, RESPONSE_OK, device.reg04);
          } else if reg == 0x05 && csum == 0xfffb {
            Respond(0x05, RESPONSE_OK, device.reg05);
          } else {
            Respond(reg, RESPONSE_ERROR, []);
          }
        }
        rstate := 0;
      }
    }

    /** The shifting loop of `read`. */
    method ShiftQueue()
      requires Valid() && bend > 0
      modifies buffer
      ensures [old(buffer[0])] + buffer[..bend - 1] == old(buffer[..bend])
    {
      ghost var was := buffer[..bend];
      var i := 0;
      while i < bend as int - 1
        invariant 0 <= i <= bend as int - 1
        invariant forall k :: 0 <= k < i ==> buffer[k] == was[k + 1]
        invariant forall k :: i <= k < bend ==> buffer[k] == was[k]
      {
        buffer[i] := buffer[i + 1];
        i := i + 1;
      }
      assert buffer[..bend - 1] == was[1..];
    }

    /** `read`: the first queued byte. When there is none, the eight-bit count wraps, and the whole buffer is queued. */
    method Read() returns (b: u8)
      requires Valid()
      modifies this`bend, buffer
      ensures Valid() && b == old(buffer[0])
      ensures if old(bend) > 0 then [b] + State().out == old(State().out) else State().out == old(buffer[..])
      ensures State() == old(State()).(out := State().out)
    {
      b := buffer[0];
      if bend > 0 {
        ShiftQueue();
      }
      bend := (bend as int - 1) % 0x100;
      assert bend == if old(bend) == 0 then buffer.Length else old(bend) - 1;
    }
  }

  lemma HeadParts(was: seq<u8>, head: seq<u8>, regNo: u8, response: u8, data: seq<u8>)
    requires |data| <= MAX_PAYLOAD && head == was + [START_OF_PACKET, regNo, response, |data|] + data
    ensures head[|was| + 3] == |data| && head[|was| + 2..] == [response, |data|] + data
  {
  }

  lemma Assembled(was: seq<u8>, head: seq<u8>, tail: seq<u8>, regNo: u8, response: u8, data: seq<u8>)
    requires |data| <= MAX_PAYLOAD && head == was + [START_OF_PACKET, regNo, response, |data|] + data
    requires var c := Checksum([response, |data|] + data); tail == [c / 0x100, c % 0x100, END_OF_PACKET]
    ensures head + tail == was + Finished(regNo, response, data)
  {
    hide Checksum;
  }
}
