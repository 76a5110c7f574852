/** The `JdbBMS` driver object: its buffer, its register copies and its request schedule, updated in place. */
module JdbBms {
  import opened Bytes
  import opened Wrappers
  import opened BmsFrame
  import opened BmsRegisters
  import opened BmsSchedule

  /** The register copies and the lengths of the replies they came from. */
  datatype Registers = Registers(reg03: seq<u8>, length03: u8, reg04: seq<u8>, length04: u8,
                                 reg05: seq<u8>, length05: u8, dirty: bool)
  {
    ghost predicate Valid() {
      && |reg03| == 64
      && |reg04| == 32
      && |reg05| == 32
    }
  }

  /** The reply is stored inside the register copies: a register 0x03 reply depends on the one before it. */
  ghost predicate Storable(r: Registers, f: Frame)
    requires r.Valid()
  {
    |f.payload| <= 0xff && (f.register == 0x03 ==> Fits03(r.reg03, r.length03, f.payload))
  }

  /** What an accepted reply does to the register copies. */
  ghost function Apply(r: Registers, f: Frame): (r': Registers)
    requires r.Valid() && Storable(r, f)
    ensures r'.Valid()
  {
    if f.register == 0x03 then
      r.(reg03 := Next03(r.reg03, r.length03, f.payload), length03 := |f.payload|, dirty := true)
    else if f.register == 0x04 then
      r.(reg04 := Next04(r.reg04, f.payload), length04 := |f.payload|, dirty := true)
    else if f.register == 0x05 then
      r.(reg05 := Next05(r.reg05, f.payload), length05 := |f.payload|)
    else r
  }

  /** All of the replies are stored inside the register copies, one after the other. */
  ghost predicate AllStorable(r: Registers, fs: seq<Frame>)
    requires r.Valid()
    decreases |fs|, 0
  {
    fs == [] ||
    (AllStorable(r, fs[..|fs| - 1]) && Storable(ApplyAll(r, fs[..|fs| - 1]), fs[|fs| - 1]))
  }

  ghost function ApplyAll(r: Registers, fs: seq<Frame>): (r': Registers)
    requires r.Valid() && AllStorable(r, fs)
    ensures r'.Valid()
    decreases |fs|, 1
  {
    if fs == [] then r else Apply(ApplyAll(r, fs[..|fs| - 1]), fs[|fs| - 1])
  }

  /** A reply longer than register 0x03 is itself stored inside it, but no register 0x03 reply after it is. */
  lemma LongReplyThenOutside(r: Registers, f: Frame, g: Frame)
    requires r.Valid() && f.register == 0x03 && |f.payload| <= 0xff && Storable(r, f) && g.register == 0x03
    ensures |f.payload| > REGISTER03_LENGTH ==> !Storable(Apply(r, f), g)
    ensures |f.payload| < REGISTER03_LENGTH && |g.payload| <= 0xff ==> Storable(Apply(r, f), g)
  {
  }

  /** It happens from the start: the first reply of 65 bytes is stored, and the next one writes outside. */
  lemma SecondReplyOutside(r: Registers, f: Frame, g: Frame)
    requires r.Valid() && r.length03 == 0
    requires f.register == 0x03 && |f.payload| == 65 && g.register == 0x03
    ensures AllStorable(r, [f]) && !AllStorable(r, [f, g])
  {
    ApplyNone(r);
    assert [f][..0] == [] && [f, g][..1] == [f];
    assert ApplyAll(r, [f]) == Apply(r, f);
    LongReplyThenOutside(r, f, g);
  }

  lemma SliceOfSlice<T>(a: seq<T>, n: nat, from: nat, i: nat, j: nat)
    requires from <= n <= |a| && i <= j <= n - from
    ensures a[..n][from..][i..j] == a[from + i..from + j]
  {
    assert forall k :: 0 <= k < j - i ==> a[..n][from..][i..j][k] == a[from + i + k];
  }

  /** The verdict on the candidate frame at offset `from`, read off the cells of the buffer. */
  lemma InspectCells(cells: seq<u8>, wpos: nat, from: nat)
    requires from + 4 < wpos <= |cells|
    ensures var n := cells[from + 3] as int;
      Inspect(cells[..wpos][from..]) == (
        if wpos < from + 7 + n then Incomplete
        else if cells[from + 6 + n] != END_OF_PACKET then Corrupt
        else if BigEndian(cells[from + 4 + n], cells[from + 5 + n]) != Checksum(cells[from + 2..from + 4 + n])
          then Corrupt
        else if cells[from + 2] != RESPONSE_OK then ErrorReply
        else Accepted(Frame(cells[from + 1], cells[from + 4..from + 4 + n]), 7 + n))
  {
    hide Checksum;
    var n := cells[from + 3] as int;
    if from + 7 + n <= wpos {
      SliceOfSlice(cells, wpos, from, 2, 4 + n);
      SliceOfSlice(cells, wpos, from, 4, 4 + n);
    }
  }

  /** The cells from `from` to `to` have moved to the front. */
  lemma Shifted(was: seq<u8>, now: seq<u8>, from: nat, to: nat)
    requires from <= to <= |was| == |now|
    requires forall k :: 0 <= k < to - from ==> now[k] == was[k + from]
    requires forall k :: to - from <= k < |now| ==> now[k] == was[k]
    ensures now == was[from..to] + was[to - from..]
  {
  }

  lemma FillNone(b: Buffer)
    requires b.Valid()
    ensures Fill(b, []) == b
  {
  }

  lemma FillNext(b: Buffer, bytes: seq<u8>, x: u8)
    requires b.Valid() && b.wpos + |bytes| < BUFFER_LENGTH
    ensures var f := Fill(b, bytes);
      f.wpos == b.wpos + |bytes| && Fill(b, bytes + [x]) == Buffer(f.cells[f.wpos := x], f.wpos + 1)
  {
  }

  lemma ApplyNone(r: Registers)
    requires r.Valid()
    ensures AllStorable(r, []) && ApplyAll(r, []) == r
  {
  }

  lemma ApplyNext(r: Registers, fs: seq<Frame>, f: Frame)
    requires r.Valid() && AllStorable(r, fs)
    ensures AllStorable(r, fs + [f]) <==> Storable(ApplyAll(r, fs), f)
    ensures AllStorable(r, fs + [f]) ==> ApplyAll(r, fs + [f]) == Apply(ApplyAll(r, fs), f)
  {
    assert (fs + [f])[..|fs|] == fs;
  }

  /** What comes before storable replies is storable. */
  lemma {:induction false} StorablePrefix(r: Registers, fs: seq<Frame>, n: nat)
    requires r.Valid() && AllStorable(r, fs) && n <= |fs|
    ensures AllStorable(r, fs[..n])
  {
    if n == |fs| {
      assert fs[..n] == fs;
    } else {
      StorablePrefix(r, fs[..|fs| - 1], n);
      assert fs[..|fs| - 1][..n] == fs[..n];
    }
  }

  // ---------------------------------------------------------------------------
  // The register copies after any replies

  /** A reply for the register, that has a byte at `k`. */
  predicate Reaches(f: Frame, register: u8, k: nat) {
    f.register == register && k < |f.payload|
  }

  predicate LastReaching(fs: seq<Frame>, register: u8, k: nat, i: nat) {
    i < |fs| && Reaches(fs[i], register, k) && forall j :: i < j < |fs| ==> !Reaches(fs[j], register, k)
  }

  predicate NoneReaching(fs: seq<Frame>, register: u8, k: nat) {
    forall j :: 0 <= j < |fs| ==> !Reaches(fs[j], register, k)
  }

  /** The partner of a byte in its pair. */
  function Partner(k: nat): nat {
    if k % 2 == 0 then k + 1 else k - 1
  }

  lemma CellStep(r: Registers, f: Frame, k: nat)
    requires r.Valid() && Storable(r, f) && k < 32
    ensures Apply(r, f).reg05[k] == if Reaches(f, 0x05, k) then f.payload[k] else r.reg05[k]
    ensures Apply(r, f).reg04[k] ==
      if Reaches(f, 0x04, Max(k, Partner(k))) then f.payload[Partner(k)] else r.reg04[k]
  {
    hide Next03, Next04, Next05, Fits03;
    if f.register == 0x05 {
      Cell05(r.reg05, f.payload, k);
    } else if f.register == 0x04 {
      CellOf04(r.reg04, f.payload, k);
    }
  }

  /** A cell of register 0x05 is the byte of the latest reply that reached it. */
  lemma {:induction false} Register05History(r: Registers, fs: seq<Frame>, k: nat, i: nat)
    requires r.Valid() && AllStorable(r, fs) && k < 32 && LastReaching(fs, 0x05, k, i)
    ensures ApplyAll(r, fs).reg05[k] == fs[i].payload[k]
  {
    hide Apply, Storable;
    var n := |fs| - 1;
    CellStep(ApplyAll(r, fs[..n]), fs[n], k);
    if i < n {
      Register05History(r, fs[..n], k, i);
    }
  }

  /** A cell of register 0x04 is the byte its partner was in the latest reply that reached the pair. */
  lemma {:induction false} Register04History(r: Registers, fs: seq<Frame>, k: nat, i: nat)
    requires r.Valid() && AllStorable(r, fs) && k < 32 && LastReaching(fs, 0x04, Max(k, Partner(k)), i)
    ensures ApplyAll(r, fs).reg04[k] == fs[i].payload[Partner(k)]
  {
    hide Apply, Storable;
    var n := |fs| - 1;
    CellStep(ApplyAll(r, fs[..n]), fs[n], k);
    if i < n {
      Register04History(r, fs[..n], k, i);
    }
  }

  /** A cell that no reply reached is as it was. */
  lemma {:induction false} CellsUntouched(r: Registers, fs: seq<Frame>, k: nat)
    requires r.Valid() && AllStorable(r, fs) && k < 32
    ensures NoneReaching(fs, 0x05, k) ==> ApplyAll(r, fs).reg05[k] == r.reg05[k]
    ensures NoneReaching(fs, 0x04, Max(k, Partner(k))) ==> ApplyAll(r, fs).reg04[k] == r.reg04[k]
  {
    hide Apply, Storable;
    if fs != [] {
      var n := |fs| - 1;
      CellStep(ApplyAll(r, fs[..n]), fs[n], k);
      CellsUntouched(r, fs[..n], k);
    }
  }

  predicate LastFor(fs: seq<Frame>, register: u8, i: nat) {
    i < |fs| && fs[i].register == register && forall j :: i < j < |fs| ==> fs[j].register != register
  }

  /** The length kept for a register is that of its latest reply. */
  lemma {:induction false} LengthHistory(r: Registers, fs: seq<Frame>, register: u8, i: nat)
    requires r.Valid() && AllStorable(r, fs) && LastFor(fs, register, i)
    ensures var now := ApplyAll(r, fs);
      && (register == 0x03 ==> now.length03 == |fs[i].payload|)
      && (register == 0x04 ==> now.length04 == |fs[i].payload|)
      && (register == 0x05 ==> now.length05 == |fs[i].payload|)
  {
    hide Next03, Next04, Next05, Fits03;
    if i < |fs| - 1 {
      LengthHistory(r, fs[..|fs| - 1], register, i);
    }
  }

  class JdbBms {
    const buffer: array<u8>
    const register03: array<u8>
    const register04: array<u8>
    const register05: array<u8>
    var wpos: u8
    var register03Length: u8
    var register04Length: u8
    var register05Length: u8
    var dirty: bool
    var lastSend: u32
    var sendNext: bool
    var reg: u8
    var requestReg05: u8

    ghost predicate Valid()
      reads this, register03
    {
      && buffer.Length == BUFFER_LENGTH
      && register03.Length == REGISTER03_LENGTH
      && register04.Length == REGISTER04_LENGTH
      && register05.Length == REGISTER05_LENGTH
      && buffer != register03 && buffer != register04 && buffer != register05
      && register03 != register04 && register03 != register05 && register04 != register05
    }

    ghost function Received(): (b: Buffer)
      reads this, buffer, register03
      requires Valid()
      ensures b.Valid()
    {
      Buffer(buffer[..], wpos)
    }

    ghost function Copies(): (r: Registers)
      reads this, register03, register04, register05
      requires Valid()
      ensures r.Valid()
    {
      Registers(register03[..], register03Length, register04[..], register04Length,
                register05[..], register05Length, dirty)
    }

    ghost function Plan(): Schedule
      reads this
    {
      Schedule(lastSend, sendNext, reg, requestReg05)
    }

    /** A driver object in static storage, which starts zeroed. */
    constructor (now: u32)
      ensures Valid() && fresh(buffer) && fresh(register03) && fresh(register04) && fresh(register05)
      ensures Received().wpos == 0 && Plan() == Initial(now)
      ensures register03Length == register04Length == register05Length == 0 && dirty
    {
      buffer := new u8[BUFFER_LENGTH](_ => 0);
      register03 := new u8[REGISTER03_LENGTH](_ => 0);
      register04 := new u8[REGISTER04_LENGTH](_ => 0);
      register05 := new u8[REGISTER05_LENGTH](_ => 0);
      wpos := 0;
      register03Length, register04Length, register05Length := 0, 0, 0;
      dirty := true;
      lastSend, sendNext, reg, requestReg05 := now, true, FIRST_REGISTER, 0;
    }

    method SwapBytes(i: nat)
      requires i + 1 < register03.Length
      modifies register03
      ensures register03[..] == SwapAt(old(register03[..]), i)
    {
      register03[i], register03[i + 1] := register03[i + 1], register03[i];
    }

    /** One of the byte-swapping loops of `copyReg03`. */
    method SwapFields(from: nat, to: nat)
      requires from < to ==> to < register03.Length || (to == register03.Length && (to - from) % 2 == 0)
      modifies register03
      ensures register03[..] == SwapPairs(old(register03[..]), from, to)
    {
      var i := from;
      while i < to
        invariant i < to ==> to < register03.Length || (to == register03.Length && (to - i) % 2 == 0)
        invariant SwapPairs(register03[..], i, to) == SwapPairs(old(register03[..]), from, to)
        decreases if i < to then to - i else 0
      {
        SwapBytes(i);
        i := i + 2;
      }
    }

    /** The copying loop of `copyReg03`. */
    method CopyBytes(from: nat, dataLength: nat)
      requires Valid() && from + dataLength <= buffer.Length
      requires Fits03(register03[..], register03Length, buffer[from..from + dataLength])
      modifies register03
      ensures Valid()
      ensures register03[..] == Copied03(old(register03[..]), register03Length, buffer[from..from + dataLength])
    {
      ghost var data := buffer[from..from + dataLength];
      ghost var was := register03[..];
      var i := 0;
      while i < dataLength && i < register03Length
        invariant 0 <= i <= Min(dataLength, register03Length)
        invariant forall k :: 0 <= k < REGISTER03_LENGTH ==> register03[k] == if k < i then data[k] else was[k]
      {
        register03[i] := buffer[from + i];
        i := i + 1;
      }
      assert register03[..] == Copied03(was, register03Length, data);
    }

    method CopyReg03(from: nat, dataLength: nat)
      requires Valid() && from + dataLength <= buffer.Length
      requires Fits03(register03[..], register03Length, buffer[from..from + dataLength])
      modifies this`dirty, register03
      ensures Valid() && dirty
      ensures register03[..] == Next03(old(register03[..]), register03Length, buffer[from..from + dataLength])
    {
      hide SwapPairs, Copied03;
      CopyBytes(from, dataLength);
      ghost var copied := register03[..];
      SensorsKept(copied, register03Length);
      FixedWordsKeepSensors(copied, register03Length);
      SwapFields(0, Min(SOFTWARE_VERSION, register03Length));
      var nNTC: nat := if NTC_COUNT < register03Length then register03[NTC_COUNT] else 0xff;
      SwapFields(NTC_READINGS, Min(NTC_READINGS + 2 * nNTC, register03Length));
      SwapFields(NTC_READINGS + 2 * nNTC + 1, register03Length);
      dirty := true;
    }

    method CopyReg04(from: nat, dataLength: nat)
      requires Valid() && from + dataLength <= buffer.Length
      modifies this`dirty, register04
      ensures Valid() && dirty
      ensures register04[..] == Next04(old(register04[..]), buffer[from..from + dataLength])
    {
      ghost var data := buffer[from..from + dataLength];
      ghost var was := register04[..];
      if dataLength > 0 {
        var i := 0;
        while i < dataLength - 1 && i < REGISTER04_LENGTH - 1
          invariant 0 <= i <= REGISTER04_LENGTH && i % 2 == 0 && i <= dataLength
          invariant forall k :: 0 <= k < i ==> register04[k] == Cell04(was, data, k)
          invariant forall k :: i <= k < REGISTER04_LENGTH ==> register04[k] == was[k]
        {
          assert Cell04(was, data, i) == data[i + 1] && Cell04(was, data, i + 1) == data[i];
          register04[i] := buffer[from + i + 1];
          register04[i + 1] := buffer[from + i];
          i := i + 2;
        }
        assert forall k :: i <= k < REGISTER04_LENGTH ==> Cell04(was, data, k) == was[k];
      }
      dirty := true;
    }

    method CopyReg05(from: nat, dataLength: nat)
      requires Valid() && from + dataLength <= buffer.Length
      modifies register05
      ensures Valid()
      ensures register05[..] == Next05(old(register05[..]), buffer[from..from + dataLength])
    {
      ghost var data := buffer[from..from + dataLength];
      ghost var was := register05[..];
      var i := 0;
      while i < dataLength && i < REGISTER05_LENGTH
        invariant 0 <= i <= Min(dataLength, REGISTER05_LENGTH)
        invariant forall k :: 0 <= k < REGISTER05_LENGTH ==> register05[k] == if k < i then data[k] else was[k]
      {
        register05[i] := buffer[from + i];
        i := i + 1;
      }
    }

    method SumBytes(from: nat, to: nat) returns (sum: u16)
      requires from <= to <= buffer.Length
      ensures sum == Total(buffer[from..to]) % 0x1_0000
    {
      sum := 0;
      var i := from;
      while i < to
        invariant from <= i <= to
        invariant sum == Total(buffer[from..i]) % 0x1_0000
      {
        assert buffer[from..i + 1][..i - from] == buffer[from..i];
        sum := (sum + buffer[i]) % 0x1_0000;
        i := i + 1;
      }
    }

    /** The checksum part of `processFrame`. */
    method ChecksumMatches(from: nat, checkSumPos: nat) returns (ok: bool)
      requires from <= checkSumPos && checkSumPos + 1 < buffer.Length
      ensures ok <==> BigEndian(buffer[checkSumPos], buffer[checkSumPos + 1]) == Checksum(buffer[from..checkSumPos])
    {
      var sum := SumBytes(from, checkSumPos);
      sum := (0x1_0000 - sum as int) % 0x1_0000;
      ok := sum / 0x100 == buffer[checkSumPos] && sum % 0x100 == buffer[checkSumPos + 1];
    }

    /** The storing part of `processFrame`. */
    method Store(responseReg: u8, from: nat, dataLength: u8)
      requires Valid() && from + dataLength <= buffer.Length
      requires Storable(Copies(), Frame(responseReg, buffer[from..from + dataLength]))
      modifies this`dirty, this`register03Length, this`register04Length, this`register05Length
      modifies register03, register04, register05
      ensures Valid()
      ensures Copies() == Apply(old(Copies()), Frame(responseReg, buffer[from..from + dataLength]))
    {
      hide Next03, Next04, Next05;
      if responseReg == 0x03 {
        CopyReg03(from, dataLength);
        register03Length := dataLength;
      } else if responseReg == 0x04 {
        CopyReg04(from, dataLength);
        register04Length := dataLength;
      } else if responseReg == 0x05 {
        CopyReg05(from, dataLength);
        register05Length := dataLength;
      }
    }

    /** `processFrame`: the offset behind an accepted frame, or the reason there is none. */
    method ProcessFrame(from: nat) returns (next: int)
      requires Valid() && from + 4 < wpos
      requires Inspect(Received().Data()[from..]).Accepted? ==>
        Storable(Copies(), Inspect(Received().Data()[from..]).frame)
      modifies this, register03, register04, register05
      ensures Valid() && Received() == old(Received())
      ensures match old(Inspect(Received().Data()[from..]))
        case Incomplete => next == -1 && Copies() == old(Copies()) && Plan() == old(Plan())
        case Corrupt => -3 <= next <= -2 && Copies() == old(Copies()) && Plan() == old(Plan()).(sendNext := true)
        case ErrorReply => next == -4 && Copies() == old(Copies()) && Plan() == old(Plan()).(sendNext := true)
        case Accepted(f, size) =>
          next == from + size && Copies() == Apply(old(Copies()), f) && Plan() == old(Plan()).(sendNext := true)
    {
      hide Apply, Checksum, Inspect, Storable;
      InspectCells(buffer[..], wpos, from);
      var responseReg := buffer[from + 1];
      var errorCode := buffer[from + 2];
      var dataLength: nat := buffer[from + 3];
      var checkSumPos := from + 4 + dataLength;
      var endPacketPos := from + 6 + dataLength;
      if !(endPacketPos < wpos) {
        return -1;
      }
      if buffer[endPacketPos] != END_OF_PACKET {
        sendNext := true;
        return -2;
      }
      assert buffer[..][from + 2..checkSumPos] == buffer[from + 2..checkSumPos];
      assert buffer[..][from + 4..checkSumPos] == buffer[from + 4..checkSumPos];
      var ok := ChecksumMatches(from + 2, checkSumPos);
      if !ok {
        sendNext := true;
        return -3;
      }
      if errorCode != RESPONSE_OK {
        sendNext := true;
        return -4;
      }
      Store(responseReg, from + 4, dataLength);
      sendNext := true;
      return endPacketPos + 1;
    }

    /** The reading loop of `update`: takes bytes until none is left or the buffer is full. */
    method Read(available: seq<u8>) returns (taken: nat)
      requires Valid() && available != [] && wpos < BUFFER_LENGTH
      modifies this`wpos, buffer
      ensures Valid() && taken == Min(|available|, 255 - old(wpos))
      ensures Received() == Fill(old(Received()), available[..taken])
    {
      hide Fill;
      ghost var was := Received();
      FillNone(was);
      var i := 0;
      assert available[..0] == [];
      while i < |available|
        invariant Valid() && 0 <= i <= |available| && wpos == was.wpos + i && wpos <= BUFFER_LENGTH
        invariant i < |available| ==> wpos < BUFFER_LENGTH
        invariant Received() == Fill(was, available[..i])
      {
        FillNext(was, available[..i], available[i]);
        assert available[..i + 1] == available[..i] + [available[i]];
        buffer[wpos] := available[i];
        wpos := wpos + 1;
        i := i + 1;
        if wpos == BUFFER_LENGTH {
          break;
        }
      }
      taken := i;
    }

    /** The scanning loop of `update`. */
    method ScanFrames() returns (processedTo: nat)
      requires Valid() && AllStorable(Copies(), ScanBuffer(Received()).frames)
      modifies this, register03, register04, register05
      ensures Valid() && buffer[..] == old(buffer[..])
      ensures var p := ScanBuffer(old(Received()));
        && processedTo == p.processedTo
        && wpos == (if p.corrupt then 0 else old(wpos))
        && Copies() == ApplyAll(old(Copies()), p.frames)
        && Plan() == old(Plan()).(sendNext := old(sendNext) || p.answered)
    {
      hide Apply, ApplyAll, AllStorable, Storable, Inspect, Scan;
      ApplyNone(Copies());
      ghost var data := Received().Data();
      ghost var all := ScanBuffer(Received());
      ghost var p := NOTHING;
      var frameStart := 0;
      processedTo := 0;
      while frameStart < wpos
        invariant Valid() && buffer[..] == old(buffer[..])
        invariant 0 <= frameStart
        invariant p.processedTo == processedTo
        invariant p.corrupt ==> wpos == 0 && p == all
        invariant !p.corrupt ==>
          wpos == |data| && frameStart <= |data| && Scan(data[frameStart..], frameStart, p) == all
        invariant p.frames <= all.frames && AllStorable(old(Copies()), p.frames)
        invariant Copies() == ApplyAll(old(Copies()), p.frames)
        invariant Plan() == old(Plan()).(sendNext := old(sendNext) || p.answered)
        decreases wpos - frameStart
      {
        ghost var s := data[frameStart..];
        assert s[1..] == data[frameStart + 1..];
        ScanStep(s, frameStart, p);
        if buffer[frameStart] == START_OF_PACKET && frameStart + 4 < wpos {
          assert Received().Data() == data;
          ghost var v := Inspect(s);
          if v.Accepted? {
            FramesGrow(s[v.size..], frameStart + v.size,
                       Pass(p.frames + [v.frame], frameStart + v.size, p.corrupt, true));
            assert all.frames[..|p.frames| + 1] == p.frames + [v.frame];
            StorablePrefix(old(Copies()), all.frames, |p.frames| + 1);
            assert data[frameStart..][v.size..] == data[frameStart + v.size..];
            ApplyNext(old(Copies()), p.frames, v.frame);
          }
          var next := ProcessFrame(frameStart);
          if next > 0 {
            processedTo := next;
            frameStart := next;
            p := Pass(p.frames + [v.frame], next, p.corrupt, true);
          } else if next == -1 {
            frameStart := frameStart + 1;
          } else if next == -2 || next == -3 {
            wpos := 0;
            p := p.(corrupt := true, answered := true);
          } else {
            frameStart := frameStart + 1;
            p := p.(answered := true);
          }
        } else {
          frameStart := frameStart + 1;
        }
      }
      if !p.corrupt {
        ScanStep(data[frameStart..], frameStart, p);
      }
    }

    /** The shifting loop of `update`. */
    method ShiftCells(processedTo: nat)
      requires Valid() && processedTo < wpos
      modifies buffer
      ensures buffer[..] == Shift(Buffer(old(buffer[..]), wpos), processedTo).cells
    {
      ghost var was := buffer[..];
      var i := 0;
      while i + processedTo < wpos
        invariant 0 <= i && i + processedTo <= wpos
        invariant forall k :: 0 <= k < i ==> buffer[k] == was[k + processedTo]
        invariant forall k :: i <= k < BUFFER_LENGTH ==> buffer[k] == was[k]
      {
        buffer[i] := buffer[i + processedTo];
        i := i + 1;
      }
      Shifted(was, buffer[..], processedTo, wpos);
    }

    /** Shifts the unprocessed data to the start of the buffer. The new length is an eight-bit difference. */
    method ShiftOut(processedTo: nat)
      requires Valid() && processedTo <= BUFFER_LENGTH
      modifies this`wpos, buffer
      ensures Valid()
      ensures Received() == Shift(old(Received()), processedTo)
    {
      hide Shift;
      ShiftParts(Received(), processedTo);
      if processedTo > 0 {
        if processedTo < wpos {
          ShiftCells(processedTo);
        }
        wpos := (wpos as int - processedTo) % 0x100;
      }
    }

    /** `requestRegister`: the seven bytes of a read request. */
    method RequestRegister(regNo: u8) returns (cmd: seq<u8>)
      ensures cmd == ReadRequest(regNo)
    {
      var checkSum: u16 := (0x1_0000 - regNo) % 0x1_0000;
      cmd := [0xdd, 0xa5, regNo, 0x0, checkSum / 0x100, checkSum % 0x100, 0x77];
    }

    /** The timeout and request part of `update`. */
    method SendRequest(now: u32) returns (request: Option<seq<u8>>)
      requires Valid()
      modifies this`lastSend, this`sendNext, this`reg, this`requestReg05
      ensures Valid() && Plan() == Tick(old(Plan()), now).0
      ensures request == match Tick(old(Plan()), now).1 case None => None case Some(r) => Some(ReadRequest(r))
    {
      request := None;
      if (now - lastSend) % 0x1_0000_0000 > TIMEOUT {
        sendNext := true;
      }
      if (now - lastSend) % 0x1_0000_0000 > MIN_GAP && sendNext {
        lastSend := now;
        sendNext := false;
        var cmd: seq<u8>;
        if requestReg05 == 0 {
          cmd := RequestRegister(NAME_REGISTER);
          requestReg05 := NAME_INTERVAL;
        } else {
          if reg > LAST_REGISTER {
            reg := FIRST_REGISTER;
          }
          cmd := RequestRegister(reg);
          requestReg05 := requestReg05 - 1;
          reg := reg + 1;
        }
        request := Some(cmd);
      }
    }

    /** The receiving part of `update`. The buffer must have room for what is read. */
    method ReceiveBytes(available: seq<u8>) returns (taken: nat)
      requires Valid() && available != [] && wpos < BUFFER_LENGTH
      requires AllStorable(Copies(), Receive(Received(), available[..Min(|available|, 255 - wpos)]).1.frames)
      modifies this, buffer, register03, register04, register05
      ensures Valid() && taken == Min(|available|, 255 - old(wpos))
      ensures var (b, p) := Receive(old(Received()), available[..taken]);
        && Received() == b
        && Copies() == ApplyAll(old(Copies()), p.frames)
        && Plan() == old(Plan()).(sendNext := old(sendNext) || p.answered)
    {
      hide Fill, ScanBuffer, Shift, Apply, ApplyAll, AllStorable, Storable;
      taken := Read(available);
      var processedTo := ScanFrames();
      ShiftOut(processedTo);
    }

    /** `update`: reads what is available, processes the frames it completes, and keeps the rest;
        then sends the next request if it is due. */
    method Update(available: seq<u8>, now: u32) returns (taken: nat, request: Option<seq<u8>>)
      requires Valid()
      requires available != [] ==> wpos < BUFFER_LENGTH
      requires available != [] ==>
        AllStorable(Copies(), Receive(Received(), available[..Min(|available|, 255 - wpos)]).1.frames)
      modifies this, buffer, register03, register04, register05
      ensures Valid()
      ensures taken == if available == [] then 0 else Min(|available|, 255 - old(wpos))
      ensures var (b, p) := if available == [] then (old(Received()), NOTHING)
                            else Receive(old(Received()), available[..taken]);
        var (plan, r) := Tick(old(Plan()).(sendNext := old(sendNext) || p.answered), now);
        && Received() == b
        && Copies() == ApplyAll(old(Copies()), p.frames)
        && Plan() == plan
        && request == match r case None => None case Some(regNo) => Some(ReadRequest(regNo))
    {
      hide Receive, Apply, Tick;
      taken := 0;
      if |available| > 0 {
        taken := ReceiveBytes(available);
      }
      request := SendRequest(now);
    }
  }

  /** The read request for a register, as the BMS expects it. */
  function ReadRequest(regNo: u8): seq<u8> {
    var checkSum := (0x1_0000 - regNo) % 0x1_0000;
    [0xdd, 0xa5, regNo, 0x00, checkSum / 0x100, checkSum % 0x100, 0x77]
  }
}
