/**
 The BLE battery frame: `BoatWatchBLE::setBatteryState` packs it from the
 register copies, and the table in docs/ble-transport.md says how a client
 reads it.
 */
module BatteryState {
  import opened Bytes
  import opened BmsFrame
  import opened BmsStream
  import opened BmsRegisters
  import opened JdbBms

  const MAGIC_BATTERY: u8 := 0xBB
  const BATTERY_BUFFER := 64
  const MAX_CELLS := 16
  const MAX_NTC := 5
  const MIN_REGISTER03 := 23

  ghost function CellCount(reg03: seq<u8>): nat
    requires |reg03| > 21
  {
    Min(reg03[21], MAX_CELLS)
  }

  ghost function NtcCount(reg03: seq<u8>): nat
    requires |reg03| > 22
  {
    Min(reg03[22], MAX_NTC)
  }

  /** The sixteen bytes before the cell voltages. */
  ghost function Header(reg03: seq<u8>): (s: seq<u8>)
    requires |reg03| == REGISTER03_LENGTH
    ensures |s| == 16
  {
    [MAGIC_BATTERY] + reg03[0..8] + [reg03[19]] + reg03[8..10] + reg03[16..18] + [reg03[20], CellCount(reg03)]
  }

  /** The frame for two register copies. Cells or readings that the replies did not carry are left out of it. */
  ghost function Pack(reg03: seq<u8>, length03: nat, reg04: seq<u8>, length04: nat): (s: seq<u8>)
    requires |reg03| == REGISTER03_LENGTH && |reg04| == REGISTER04_LENGTH
    ensures |s| <= 64
  {
    var cells, ntc := 2 * CellCount(reg03), 2 * NtcCount(reg03);
    Header(reg03)
    + (if cells <= length04 then reg04[..cells] else [])
    + [NtcCount(reg03)]
    + (if 23 + ntc <= length03 then reg03[23..23 + ntc] else [])
  }

  class BatteryBuffer {
    const data: array<u8>
    var len: u8
    var dirty: bool

    constructor ()
      ensures fresh(data) && data.Length == 64 && len == 0 && !dirty
    {
      data := new u8[BATTERY_BUFFER](_ => 0);
      len := 0;
      dirty := false;
    }

    /** `memcpy` into the frame at `pos`. */
    method Append(pos: nat, bytes: seq<u8>) returns (next: nat)
      requires pos + |bytes| <= data.Length
      modifies data
      ensures next == pos + |bytes|
      ensures data[..next] == old(data[..pos]) + bytes
    {
      var i := 0;
      while i < |bytes|
        invariant 0 <= i <= |bytes|
        invariant data[..pos] == old(data[..pos]) && data[pos..pos + i] == bytes[..i]
      {
        data[pos + i] := bytes[i];
        i := i + 1;
      }
      next := pos + |bytes|;
      assert data[..next] == data[..pos] + data[pos..next];
    }

    /** The fixed fields of the frame. */
    method PackHeader(reg03: seq<u8>, nCells: u8) returns (pos: nat)
      requires data.Length == 64 && |reg03| == REGISTER03_LENGTH && nCells == CellCount(reg03)
      modifies data
      ensures pos == 16 && data[..pos] == Header(reg03)
    {
      data[0] := MAGIC_BATTERY;
      assert data[..1] == [MAGIC_BATTERY];
      pos := Append(1, reg03[0..8]);
      pos := Append(pos, [reg03[19]]);
      pos := Append(pos, reg03[8..10]);
      pos := Append(pos, reg03[16..18]);
      pos := Append(pos, [reg03[20], nCells]);
    }

    method SetBatteryState(reg03: seq<u8>, reg03Len: nat, reg04: seq<u8>, reg04Len: nat)
      requires data.Length == 64
      requires |reg03| == REGISTER03_LENGTH && |reg04| == REGISTER04_LENGTH
      modifies this, data
      ensures reg03Len < 23 ==> data[..] == old(data[..]) && len == old(len) && dirty == old(dirty)
      ensures reg03Len >= 23 ==>
        len <= data.Length && data[..len] == Pack(reg03, reg03Len, reg04, reg04Len) && dirty
    {
      hide Header;
      if reg03Len < MIN_REGISTER03 {
        return;
      }
      var nCells: u8, nNtc: u8 := reg03[21], reg03[22];
      if nCells > 16 {
        nCells := 16;
      }
      if nNtc > 5 {
        nNtc := 5;
      }
      var totalLen := 16 + nCells as int * 2 + 1 + nNtc as int * 2;
      if totalLen > data.Length {
        assert false;
      }
      var pos := PackHeader(reg03, nCells);
      var cellBytes := nCells as int * 2;
      if cellBytes <= reg04Len {
        pos := Append(pos, reg04[..cellBytes]);
      }
      pos := Append(pos, [nNtc]);
      var ntcBytes := nNtc as int * 2;
      if 23 + ntcBytes <= reg03Len {
        pos := Append(pos, reg03[23..23 + ntcBytes]);
      }
      len := pos;
      dirty := true;
    }
  }

  // ---------------------------------------------------------------------------
  // What a client reads

  datatype Battery = Battery(packVoltage: u16, current: u16, remaining: u16, full: u16, soc: u8, cycles: u16,
                             errors: u16, fet: u8, cells: seq<u16>, ntc: seq<u16>)

  datatype Decoded = Malformed | Decoded(battery: Battery)

  function Words(s: seq<u8>, from: nat, count: nat): (w: seq<u16>)
    requires from + 2 * count <= |s|
    ensures |w| == count
  {
    seq(count, (i: nat) requires i < count => LittleEndian(s[from + 2 * i], s[from + 2 * i + 1]))
  }

  /** The documented layout, read strictly: the counts in the frame must account for its length. */
  function Decode(s: seq<u8>): Decoded {
    if |s| < 17 || s[0] != 0xBB then Malformed
    else
      var n: nat := s[15];
      if |s| < 17 + 2 * n then Malformed
      else
        var m: nat := s[16 + 2 * n];
        if |s| != 17 + 2 * n + 2 * m then Malformed
        else Decoded(Battery(LittleEndian(s[1], s[2]), LittleEndian(s[3], s[4]), LittleEndian(s[5], s[6]),
                             LittleEndian(s[7], s[8]), s[9], LittleEndian(s[10], s[11]), LittleEndian(s[12], s[13]),
                             s[14], Words(s, 16, n), Words(s, 17 + 2 * n, m)))
  }

  function BigWords(s: seq<u8>, from: nat, count: nat): (w: seq<u16>)
    requires from + 2 * count <= |s|
    ensures |w| == count
  {
    seq(count, (i: nat) requires i < count => BigEndian(s[from + 2 * i], s[from + 2 * i + 1]))
  }

  /** What the BMS said in its two replies, read big-endian as it sends them. */
  ghost function Said(p03: seq<u8>, p04: seq<u8>): Battery
    requires Whole03Replies(p03, p04)
  {
    var n, m := Min(p03[21], MAX_CELLS), Min(p03[22], MAX_NTC);
    Battery(BigEndian(p03[0], p03[1]), BigEndian(p03[2], p03[3]), BigEndian(p03[4], p03[5]), BigEndian(p03[6], p03[7]),
            p03[19], BigEndian(p03[8], p03[9]), BigEndian(p03[16], p03[17]), p03[20],
            BigWords(p04, 0, n), BigWords(p03, NTC_READINGS, m))
  }

  /** A register 0x03 reply with all its fields, and a register 0x04 reply with a voltage for every cell reported. */
  ghost predicate Whole03Replies(p03: seq<u8>, p04: seq<u8>) {
    Whole03(p03) && 2 * CellCount(p03) <= |p04|
  }

  /** The replies carried a voltage for every cell, and every temperature. */
  ghost predicate CellsCarried(reg03: seq<u8>, length04: nat)
    requires |reg03| == REGISTER03_LENGTH
  {
    2 * CellCount(reg03) <= length04
  }

  ghost predicate SensorsCarried(reg03: seq<u8>, length03: nat)
    requires |reg03| == REGISTER03_LENGTH
  {
    23 + 2 * NtcCount(reg03) <= length03
  }

  /** A frame without the voltages it announces, which a client takes for one: the sensor count and the temperatures
      pass for voltages, and one byte of a temperature for the sensor count. */
  ghost predicate Misread(reg03: seq<u8>, length03: nat, length04: nat)
    requires |reg03| == REGISTER03_LENGTH
  {
    var n, m := CellCount(reg03), NtcCount(reg03);
    && !CellsCarried(reg03, length04) && SensorsCarried(reg03, length03)
    && n <= m && reg03[22 + 2 * n] == m - n
  }

  /** The frame has the length its counts call for exactly when the replies carried every cell and reading. */
  lemma WholeIff(reg03: seq<u8>, length03: nat, reg04: seq<u8>, length04: nat)
    requires |reg03| == REGISTER03_LENGTH && |reg04| == REGISTER04_LENGTH && length03 >= 23
    ensures |Pack(reg03, length03, reg04, length04)| == 17 + 2 * CellCount(reg03) + 2 * NtcCount(reg03)
      <==> CellsCarried(reg03, length04) && SensorsCarried(reg03, length03)
  {
  }

  /** A client can read the frame exactly when the replies carried every cell and reading, or it misreads it. */
  lemma DecodableIff(reg03: seq<u8>, length03: nat, reg04: seq<u8>, length04: nat)
    requires |reg03| == REGISTER03_LENGTH && |reg04| == REGISTER04_LENGTH && length03 >= 23
    ensures Decode(Pack(reg03, length03, reg04, length04)).Decoded? <==>
      (CellsCarried(reg03, length04) && SensorsCarried(reg03, length03)) || Misread(reg03, length03, length04)
  {
    hide Header;
    var s := Pack(reg03, length03, reg04, length04);
    var n, m := CellCount(reg03), NtcCount(reg03);
    HeaderBytes(reg03);
    assert forall i :: 0 <= i < 16 ==> s[i] == Header(reg03)[i];
    if CellsCarried(reg03, length04) {
      assert s[16 + 2 * n] == m;
    } else {
      PackedWithoutCells(reg03, length03, reg04, length04);
    }
  }

  lemma PackedWithoutCells(reg03: seq<u8>, length03: nat, reg04: seq<u8>, length04: nat)
    requires |reg03| == REGISTER03_LENGTH && |reg04| == REGISTER04_LENGTH && length03 >= 23
    requires !CellsCarried(reg03, length04)
    ensures var s := Pack(reg03, length03, reg04, length04);
      var r := if SensorsCarried(reg03, length03) then NtcCount(reg03) else 0;
      && |s| == 17 + 2 * r && s[16] == NtcCount(reg03)
      && forall i :: 17 <= i < 17 + 2 * r ==> s[i] == reg03[i + 6]
  {
    hide Header;
  }

  /** What a client then takes for the first cell voltage. */
  lemma MisreadVoltage(reg03: seq<u8>, length03: nat, reg04: seq<u8>, length04: nat)
    requires |reg03| == REGISTER03_LENGTH && |reg04| == REGISTER04_LENGTH && length03 >= 23
    requires Misread(reg03, length03, length04)
    ensures var d := Decode(Pack(reg03, length03, reg04, length04));
      && d.Decoded? && |d.battery.cells| == CellCount(reg03) > 0
      && d.battery.cells[0] == LittleEndian(NtcCount(reg03), reg03[NTC_READINGS])
  {
    hide Header;
    DecodableIff(reg03, length03, reg04, length04);
    PackedWithoutCells(reg03, length03, reg04, length04);
    var s := Pack(reg03, length03, reg04, length04);
    HeaderBytes(reg03);
    assert forall i :: 0 <= i < 16 ==> s[i] == Header(reg03)[i];
  }

  /** A battery warmer than 128 K, in tenths of a kelvin, is never misread. */
  lemma WarmNeverMisread(reg03: seq<u8>, length03: nat, length04: nat)
    requires |reg03| == REGISTER03_LENGTH
    requires forall i :: 0 <= i < NtcCount(reg03) ==> LittleEndian(reg03[23 + 2 * i], reg03[24 + 2 * i]) >= 1280
    ensures !Misread(reg03, length03, length04)
  {
    var n, m := CellCount(reg03), NtcCount(reg03);
    if 0 < n <= m {
      assert LittleEndian(reg03[23 + 2 * (n - 1)], reg03[24 + 2 * (n - 1)]) >= 1280;
    }
  }

  /** It happens: one cell, one sensor, no register 0x04 reply yet, and a temperature below 25.6 K. */
  lemma MisreadHappens(reg03: seq<u8>, reg04: seq<u8>)
    requires |reg03| == REGISTER03_LENGTH && |reg04| == REGISTER04_LENGTH
    requires reg03[21] == 1 && reg03[22] == 1 && reg03[24] == 0
    ensures Decode(Pack(reg03, 25, reg04, 0)).Decoded?
  {
    DecodableIff(reg03, 25, reg04, 0);
  }

  /** The offsets of the frame, for copies that carry everything. */
  lemma PackedBytes(reg03: seq<u8>, length03: nat, reg04: seq<u8>, length04: nat)
    requires |reg03| == REGISTER03_LENGTH && |reg04| == REGISTER04_LENGTH
    requires 2 * CellCount(reg03) <= length04 && 23 + 2 * NtcCount(reg03) <= length03
    ensures var s, n, m := Pack(reg03, length03, reg04, length04), CellCount(reg03), NtcCount(reg03);
      && |s| == 17 + 2 * n + 2 * m
      && s[0] == 0xBB && s[15] == n && s[16 + 2 * n] == m
      && s[1..9] == reg03[0..8] && s[9] == reg03[19] && s[10..12] == reg03[8..10] && s[12..14] == reg03[16..18]
      && s[14] == reg03[20]
      && s[16..16 + 2 * n] == reg04[..2 * n] && s[17 + 2 * n..] == reg03[23..23 + 2 * m]
  {
    var s, n := Pack(reg03, length03, reg04, length04), CellCount(reg03);
    HeaderBytes(reg03);
    assert s[..16] == Header(reg03);
    assert forall i :: 0 <= i < 16 ==> s[i] == Header(reg03)[i];
    assert forall a, b :: 0 <= a <= b <= 16 ==> s[a..b] == Header(reg03)[a..b];
  }

  lemma HeaderBytes(reg03: seq<u8>)
    requires |reg03| == REGISTER03_LENGTH
    ensures var h := Header(reg03);
      && h[0] == 0xBB && h[15] == CellCount(reg03)
      && h[1..9] == reg03[0..8] && h[9] == reg03[19] && h[10..12] == reg03[8..10] && h[12..14] == reg03[16..18]
      && h[14] == reg03[20]
  {
  }

  /** Words read from bytes copied out of a register are the words of the reply it holds. */
  lemma WordsAgree(s: seq<u8>, from: nat, reg: seq<u8>, data: seq<u8>, at: nat, count: nat)
    requires from + 2 * count <= |s| && at + 2 * count <= |reg| && at + 2 * count <= |data|
    requires s[from..from + 2 * count] == reg[at..at + 2 * count]
    requires forall o :: at <= o < at + 2 * count - 1 && (o - at) % 2 == 0 ==>
      LittleEndian(reg[o], reg[o + 1]) == BigEndian(data[o], data[o + 1])
    ensures Words(s, from, count) == BigWords(data, at, count)
  {
    hide LittleEndian, BigEndian;
    forall i | 0 <= i < count
      ensures Words(s, from, count)[i] == BigWords(data, at, count)[i]
    {
      ByteAgrees(s, from, reg, at, 2 * count, 2 * i);
      ByteAgrees(s, from, reg, at, 2 * count, 2 * i + 1);
      var o := at + 2 * i;
      EvenOffset(i);
      assert LittleEndian(reg[o], reg[o + 1]) == BigEndian(data[o], data[o + 1]);
    }
  }

  lemma EvenOffset(i: nat)
    ensures 2 * i % 2 == 0
  {
  }

  lemma ByteAgrees(s: seq<u8>, from: nat, reg: seq<u8>, at: nat, size: nat, i: nat)
    requires from + size <= |s| && at + size <= |reg| && i < size
    requires s[from..from + size] == reg[at..at + size]
    ensures s[from + i] == reg[at + i]
  {
    assert s[from + i] == s[from..from + size][i] == reg[at..at + size][i];
  }

  /** The fixed fields read from the frame are the ones in the reply. */
  lemma FixedFieldsDelivered(p03: seq<u8>, reg03: seq<u8>, s: seq<u8>)
    requires Whole03(p03) && |reg03| == REGISTER03_LENGTH && SameFields03(p03, reg03) && |s| >= 16
    requires s[1..9] == reg03[0..8] && s[10..12] == reg03[8..10] && s[12..14] == reg03[16..18]
    ensures LittleEndian(s[1], s[2]) == BigEndian(p03[0], p03[1])
    ensures LittleEndian(s[3], s[4]) == BigEndian(p03[2], p03[3])
    ensures LittleEndian(s[5], s[6]) == BigEndian(p03[4], p03[5])
    ensures LittleEndian(s[7], s[8]) == BigEndian(p03[6], p03[7])
    ensures LittleEndian(s[10], s[11]) == BigEndian(p03[8], p03[9])
    ensures LittleEndian(s[12], s[13]) == BigEndian(p03[16], p03[17])
  {
    var n := Sensors(p03);
    assert forall i :: 0 <= i < 8 ==> s[1 + i] == s[1..9][i] == reg03[i];
    assert s[10] == s[10..12][0] && s[11] == s[10..12][1] && s[12] == s[12..14][0] && s[13] == s[12..14][1];
    assert WordAt(0, n) && WordAt(2, n) && WordAt(4, n) && WordAt(6, n) && WordAt(8, n) && WordAt(16, n);
  }

  lemma ReadingsAgree(p03: seq<u8>, reg03: seq<u8>, m: nat)
    requires Whole03(p03) && |reg03| == REGISTER03_LENGTH && SameFields03(p03, reg03) && m <= Sensors(p03)
    ensures forall o :: NTC_READINGS <= o < NTC_READINGS + 2 * m - 1 && (o - NTC_READINGS) % 2 == 0 ==>
      LittleEndian(reg03[o], reg03[o + 1]) == BigEndian(p03[o], p03[o + 1])
  {
    assert forall o :: NTC_READINGS <= o < NTC_READINGS + 2 * m - 1 && (o - NTC_READINGS) % 2 == 0 ==>
      WordAt(o, Sensors(p03));
  }

  lemma BytesKept(p03: seq<u8>, reg03: seq<u8>, o: nat)
    requires Whole03(p03) && |reg03| == REGISTER03_LENGTH && SameFields03(p03, reg03) && 18 <= o < 23
    ensures reg03[o] == p03[o]
  {
    assert ByteAt(o, Sensors(p03));
  }

  /** Copies that have the fields of the two replies give the client what the BMS said. */
  lemma FieldsDelivered(p03: seq<u8>, p04: seq<u8>, reg03: seq<u8>, reg04: seq<u8>)
    requires Whole03Replies(p03, p04) && |reg03| == REGISTER03_LENGTH && |reg04| == REGISTER04_LENGTH
    requires SameFields03(p03, reg03) && SameCells04(p04, reg04)
    ensures Decode(Pack(reg03, |p03|, reg04, |p04|)) == Decoded(Said(p03, p04))
  {
    hide SameFields03, Pack, LittleEndian, BigEndian, Words, BigWords;
    var n, m := CellCount(p03), NtcCount(p03);
    BytesKept(p03, reg03, 19);
    BytesKept(p03, reg03, 20);
    BytesKept(p03, reg03, 21);
    BytesKept(p03, reg03, 22);
    PackedBytes(reg03, |p03|, reg04, |p04|);
    var s := Pack(reg03, |p03|, reg04, |p04|);
    FixedFieldsDelivered(p03, reg03, s);
    WordsAgree(s, 16, reg04, p04, 0, n);
    ReadingsAgree(p03, reg03, m);
    WordsAgree(s, 17 + 2 * n, reg03, p03, NTC_READINGS, m);
  }

  /** From the wire to the client: once a register 0x03 reply at least as long, that fits it, has been seen before,
      the next pair of replies, in whatever chunks its bytes arrive, makes the register copies pack a
      frame from which a client reads exactly what the BMS said. */
  lemma WireToClient(p03: seq<u8>, p04: seq<u8>, chunks: seq<seq<u8>>, polls: nat, cells: seq<u8>, was: Registers)
    requires Whole03Replies(p03, p04) && |p04| <= MAX_PAYLOAD
    requires AllTransparent([Frame(0x03, p03), Frame(0x04, p04)]) && |cells| == BUFFER_LENGTH
    requires Flatten(chunks) == Stream([Frame(0x03, p03), Frame(0x04, p04)])
    requires polls >= |Flatten(chunks)|
    requires was.Valid() && |p03| <= was.length03 <= REGISTER03_LENGTH
    ensures var decoded := Run(Run(Start(cells), chunks), Idle(polls)).decoded;
      AllStorable(was, decoded) &&
      var now := ApplyAll(was, decoded);
      Decode(Pack(now.reg03, now.length03, now.reg04, now.length04)) == Decoded(Said(p03, p04))
  {
    hide Run, Encode, Stream, Next03, Next04, Pack, Decode, Said;
    var f03, f04 := Frame(0x03, p03), Frame(0x04, p04);
    var frames: seq<Reply> := [f03, f04];
    assert frames[0] == f03 && frames[1] == f04 && Transparent(f03) && Transparent(f04);
    assert AllTransparent(frames + [f04]);
    assert Stream(frames) + [] == Stream(frames);
    StartsInside(f04);
    PollingCompletes(frames, f04, [], chunks, cells, polls);
    var r := Apply(was, f03);
    ApplyNone(was);
    ApplyNext(was, [], f03);
    ApplyNext(was, [f03], f04);
    assert [] + [f03] == [f03] && [f03] + [f04] == frames;
    FieldsCopied(p03, was.length03, was.reg03);
    CellsCopied(r.reg04, p04);
    FieldsDelivered(p03, p04, Apply(r, f04).reg03, Apply(r, f04).reg04);
  }

  lemma StartsInside(f: Reply)
    ensures Inside([], f)
  {
  }

  // ---------------------------------------------------------------------------
  // The main loop

  /** The register copies, with their dirty flag, and the frame the BLE server holds. */
  datatype Board = Board(copies: Registers, frame: seq<u8>)

  /** A reply is accepted, or the main loop passes. */
  datatype BoardEvent = Stored(reply: Frame) | Passed

  /** The battery part of a main-loop pass: a short register 0x03 reply clears the flag too, but makes no frame. */
  ghost function Packed(b: Board): (b': Board)
    requires b.copies.Valid()
    ensures b'.copies.Valid()
  {
    var c := b.copies;
    if !c.dirty then b
    else Board(c.(dirty := false), if c.length03 < MIN_REGISTER03 then b.frame else Shown(c))
  }

  ghost function Shown(c: Registers): seq<u8>
    requires c.Valid()
  {
    Pack(c.reg03, c.length03, c.reg04, c.length04)
  }

  /** Every reply of the run is stored inside the register copies. */
  ghost predicate Feasible(b: Board, es: seq<BoardEvent>)
    requires b.copies.Valid()
    decreases |es|, 0
  {
    es == [] ||
    (Feasible(b, es[..|es| - 1])
     && (es[|es| - 1].Stored? ==> Storable(After(b, es[..|es| - 1]).copies, es[|es| - 1].reply)))
  }

  ghost function After(b: Board, es: seq<BoardEvent>): (b': Board)
    requires b.copies.Valid() && Feasible(b, es)
    ensures b'.copies.Valid()
    decreases |es|, 1
  {
    if es == [] then b
    else
      var before := After(b, es[..|es| - 1]);
      match es[|es| - 1]
      case Stored(f) => Board(Apply(before.copies, f), before.frame)
      case Passed => Packed(before)
  }

  /** What is not in the frame yet is flagged, or was short. */
  ghost predicate InStep(b: Board)
    requires b.copies.Valid()
  {
    b.copies.dirty || b.copies.length03 < MIN_REGISTER03 || b.frame == Shown(b.copies)
  }

  lemma ReplyKeepsStep(b: Board, f: Frame)
    requires b.copies.Valid() && Storable(b.copies, f) && InStep(b)
    ensures InStep(Board(Apply(b.copies, f), b.frame))
  {
    hide Next03, Next04, Next05, Pack, Fits03;
  }

  lemma {:induction false} RunInStep(b: Board, es: seq<BoardEvent>)
    requires b.copies.Valid() && Feasible(b, es) && InStep(b)
    ensures InStep(After(b, es))
  {
    hide Apply, Storable, InStep, Packed;
    if es != [] {
      var before := After(b, es[..|es| - 1]);
      RunInStep(b, es[..|es| - 1]);
      match es[|es| - 1]
      case Stored(f) => ReplyKeepsStep(before, f);
      case Passed => PassKeepsStep(before);
    }
  }

  lemma PassKeepsStep(b: Board)
    requires b.copies.Valid() && InStep(b)
    ensures InStep(Packed(b)) && !Packed(b).copies.dirty
    ensures Packed(b).copies.length03 < 23 ==> Packed(b).frame == b.frame
  {
    hide Pack;
  }

  /** After every pass the flag is clear, and the frame is that of the current copies, unless the last register 0x03
      reply was too short: then it is the frame of before. */
  lemma FrameAfterPass(b: Board, es: seq<BoardEvent>)
    requires b.copies.Valid() && Feasible(b, es) && InStep(b)
    ensures Feasible(b, es + [Passed])
    ensures var b', before := After(b, es + [Passed]), After(b, es);
      && !b'.copies.dirty
      && b'.frame == if b'.copies.length03 < 23 then before.frame else Shown(b'.copies)
  {
    hide InStep, Packed, Shown;
    assert (es + [Passed])[..|es|] == es;
    RunInStep(b, es);
    PassKeepsStep(After(b, es));
    StepMeans(Packed(After(b, es)));
  }

  lemma StepMeans(b: Board)
    requires b.copies.Valid() && InStep(b) && !b.copies.dirty
    ensures b.copies.length03 < 23 || b.frame == Shown(b.copies)
  {
    hide Shown;
  }

  /** The battery part of the main loop. */
  method LoopPass(bms: JdbBms, ble: BatteryBuffer)
    requires bms.Valid() && ble.data.Length == 64 && ble.len <= 64
    requires ble.data != bms.register03 && ble.data != bms.register04 && ble.data != bms.register05
    requires ble.data != bms.buffer
    modifies bms`dirty, ble, ble.data
    ensures bms.Valid() && ble.len <= 64
    ensures Board(bms.Copies(), ble.data[..ble.len]) == Packed(old(Board(bms.Copies(), ble.data[..ble.len])))
  {
    hide Pack;
    if bms.dirty {
      ble.SetBatteryState(bms.register03[..], bms.register03Length, bms.register04[..], bms.register04Length);
      bms.dirty := false;
    }
  }
}
