/**
 JBD response frames as `JdbBMS::update` and `JdbBMS::processFrame` see them:
 the verdict on one candidate frame, the scan of one receive buffer, and what
 is left in the buffer afterwards.
 */
module BmsFrame {
  import opened Bytes

  const BUFFER_LENGTH := 255
  const START_OF_PACKET: u8 := 0xDD
  const END_OF_PACKET: u8 := 0x77
  const RESPONSE_OK: u8 := 0x00
  const MAX_PAYLOAD := 248

  /** An accepted reply: the register it answers for, and its data. */
  datatype Frame = Frame(register: u8, payload: seq<u8>)

  datatype Verdict =
    | Incomplete
    | Corrupt
    | ErrorReply
    | Accepted(frame: Frame, size: nat)

  function Total(s: seq<u8>): nat {
    if s == [] then 0 else Total(s[..|s| - 1]) + s[|s| - 1]
  }

  ghost function Checksum(s: seq<u8>): u16 {
    (0x1_0000 - Total(s) % 0x1_0000) % 0x1_0000
  }

  /** The verdict on the candidate frame that starts `s`; `s` runs to the end of the data received. */
  ghost function Inspect(s: seq<u8>): (v: Verdict)
    requires |s| > 4
    ensures v.Accepted? ==> 7 <= v.size <= |s| && v.size == 7 + |v.frame.payload|
  {
    var size := s[3] as int + 7;
    if |s| < size then Incomplete
    else if s[size - 1] != END_OF_PACKET then Corrupt
    else if BigEndian(s[size - 3], s[size - 2]) != Checksum(s[2..size - 3]) then Corrupt
    else if s[2] != RESPONSE_OK then ErrorReply
    else Accepted(Frame(s[1], s[4..size - 3]), size)
  }

  /** The checksum is the word that makes the sum of the bytes come to nothing. */
  lemma ChecksumCancels(s: seq<u8>, w: u16)
    ensures w == Checksum(s) <==> (Total(s) + w) % 0x1_0000 == 0
  {
    hide Total;
    Complement(Total(s), w);
  }

  lemma Complement(n: nat, w: u16)
    ensures w == (0x1_0000 - n % 0x1_0000) % 0x1_0000 <==> (n + w) % 0x1_0000 == 0
  {
    var q, r := n / 0x1_0000, n % 0x1_0000;
    assert n == 0x1_0000 * q + r;
    if r + w < 0x1_0000 {
      Remainder(n + w, q, r + w);
    } else {
      Remainder(n + w, q + 1, r + w - 0x1_0000);
    }
  }

  lemma Remainder(n: nat, q: nat, r: u16)
    requires n == 0x1_0000 * q + r
    ensures n % 0x1_0000 == r
  {
  }

  lemma {:induction false} TotalJoin(s: seq<u8>, t: seq<u8>)
    ensures Total(s + t) == Total(s) + Total(t)
  {
    if t == [] {
      assert s + t == s;
    } else {
      assert (s + t)[..|s + t| - 1] == s + t[..|t| - 1];
      TotalJoin(s, t[..|t| - 1]);
    }
  }

  lemma TotalOne(b: u8)
    ensures Total([b]) == b as int
  {
    assert [b][..0] == [];
  }

  lemma ChecksumChanges(s: seq<u8>, k: nat, b: u8)
    requires k < |s| && b != s[k]
    ensures Checksum(s[k := b]) != Checksum(s)
  {
    hide Checksum, Total;
    TotalChanges(s, k, b);
    ChecksumCancels(s, Checksum(s));
    ChecksumCancels(s[k := b], Checksum(s));
    NotTwice(Total(s) + Checksum(s), b - s[k]);
  }

  lemma NotTwice(n: int, d: int)
    requires -0x100 < d < 0x100 && d != 0 && n % 0x1_0000 == 0
    ensures (n + d) % 0x1_0000 != 0
  {
  }

  lemma TotalChanges(s: seq<u8>, k: nat, b: u8)
    requires k < |s|
    ensures Total(s[k := b]) == Total(s) - s[k] + b
  {
    hide Total;
    assert s == s[..k] + [s[k]] + s[k + 1..];
    assert s[k := b] == s[..k] + [b] + s[k + 1..];
    TotalJoin(s[..k] + [s[k]], s[k + 1..]);
    TotalJoin(s[..k] + [b], s[k + 1..]);
    TotalJoin(s[..k], [s[k]]);
    TotalJoin(s[..k], [b]);
    TotalOne(s[k]);
    TotalOne(b);
  }

  /** A candidate is accepted exactly when all of it is there, it ends as it should, it reports no error, and what is
      summed and the checksum word add up to nothing. */
  lemma AcceptedIff(s: seq<u8>)
    requires |s| > 4
    ensures var n := s[3] as int;
      && (Inspect(s).Incomplete? <==> |s| < 7 + n)
      && (|s| >= 7 + n ==>
            var sound := s[6 + n] == 0x77
              && (Total(s[2..4 + n]) + 0x100 * s[4 + n] as int + s[5 + n] as int) % 0x1_0000 == 0;
            && (Inspect(s).Corrupt? <==> !sound)
            && (Inspect(s).ErrorReply? <==> sound && s[2] != 0)
            && (sound && s[2] == 0 ==> Inspect(s) == Accepted(Frame(s[1], s[4..4 + n]), 7 + n)))
  {
    hide Checksum;
    var n := s[3] as int;
    if |s| >= 7 + n {
      ChecksumCancels(s[2..4 + n], BigEndian(s[4 + n], s[5 + n]));
    }
  }

  /** One changed byte: behind the length byte, or in the status byte, it makes a sound reply corrupt; in the register
      byte, which the checksum does not cover, it makes it a sound reply for another register. */
  lemma OneByteChanged(s: seq<u8>, k: nat, b: u8)
    requires |s| > 4 && Inspect(s).Accepted? && k < Inspect(s).size && b != s[k]
    ensures k == 2 || k > 3 ==> Inspect(s[k := b]).Corrupt?
    ensures k == 1 ==> Inspect(s[k := b]) == Accepted(Frame(b, Inspect(s).frame.payload), Inspect(s).size)
  {
    hide Checksum;
    var n, t := s[3] as int, s[k := b];
    if 2 <= k < 4 + n {
      assert t[2..4 + n] == s[2..4 + n][k - 2 := b];
      ChecksumChanges(s[2..4 + n], k - 2, b);
    } else {
      assert t[2..4 + n] == s[2..4 + n];
      assert k == 1 ==> t[4..4 + n] == s[4..4 + n];
    }
  }

  /** What one scan has found: the frames in order, the offset after the last of them,
      whether it met corrupt data, and whether anything arrived that releases the next request. */
  datatype Pass = Pass(frames: seq<Frame>, processedTo: nat, corrupt: bool, answered: bool)

  const NOTHING := Pass([], 0, false, false)

  /** The scan from offset `at`, where `s` is the unscanned data and `p` what was found before. */
  ghost function Scan(s: seq<u8>, at: nat, p: Pass): Pass
    decreases |s|
  {
    if |s| == 0 then p
    else if s[0] == START_OF_PACKET && |s| > 4 then
      match Inspect(s)
      case Incomplete => Scan(s[1..], at + 1, p)
      case Corrupt => p.(corrupt := true, answered := true)
      case ErrorReply => Scan(s[1..], at + 1, p.(answered := true))
      case Accepted(f, size) => Scan(s[size..], at + size, Pass(p.frames + [f], at + size, p.corrupt, true))
    else Scan(s[1..], at + 1, p)
  }

  lemma ScanStep(s: seq<u8>, at: nat, p: Pass)
    ensures Scan(s, at, p) == (
      if |s| == 0 then p
      else if s[0] != START_OF_PACKET || |s| <= 4 then Scan(s[1..], at + 1, p)
      else match Inspect(s)
        case Incomplete => Scan(s[1..], at + 1, p)
        case Corrupt => p.(corrupt := true, answered := true)
        case ErrorReply => Scan(s[1..], at + 1, p.(answered := true))
        case Accepted(f, size) => Scan(s[size..], at + size, Pass(p.frames + [f], at + size, p.corrupt, true)))
  {
  }

  /** The receive buffer: all of its cells, and how many of them hold data. */
  datatype Buffer = Buffer(cells: seq<u8>, wpos: nat) {
    ghost predicate Valid() {
      |cells| == BUFFER_LENGTH && wpos <= BUFFER_LENGTH
    }

    ghost function Data(): seq<u8>
      requires Valid()
    {
      cells[..wpos]
    }
  }

  /** The buffer after `bytes` have been stored behind the data it holds. */
  ghost function Fill(b: Buffer, bytes: seq<u8>): (b': Buffer)
    requires b.Valid() && b.wpos + |bytes| <= BUFFER_LENGTH
    ensures b'.Valid() && b'.Data() == b.Data() + bytes
  {
    Buffer(b.cells[..b.wpos] + bytes + b.cells[b.wpos + |bytes|..], b.wpos + |bytes|)
  }

  /** The data from `from` on moves to the front, and the new length is an eight-bit difference. */
  ghost function Shift(b: Buffer, from: nat): (b': Buffer)
    requires b.Valid() && from <= BUFFER_LENGTH
    ensures b'.Valid()
  {
    if from == 0 then b
    else if from < b.wpos then Buffer(b.cells[from..b.wpos] + b.cells[b.wpos - from..], b.wpos - from)
    else Buffer(b.cells, (b.wpos - from) % 0x100)
  }

  lemma ShiftParts(b: Buffer, from: nat)
    requires b.Valid() && from <= BUFFER_LENGTH
    ensures from == 0 ==> Shift(b, from) == b
    ensures from > 0 ==> Shift(b, from).wpos == (b.wpos - from) % 0x100
    ensures from >= b.wpos ==> Shift(b, from).cells == b.cells
  {
  }

  /** The buffer after the scan found `p`: corrupt data empties it, and processed data is shifted out. */
  ghost function Settle(b: Buffer, p: Pass): (b': Buffer)
    requires b.Valid() && p.processedTo <= b.wpos
    ensures b'.Valid()
  {
    Shift(Buffer(b.cells, if p.corrupt then 0 else b.wpos), p.processedTo)
  }

  /** Every offset the scan reports lies within the data, and frames have at least seven bytes. */
  lemma {:induction false} ScanBounds(s: seq<u8>, at: nat, p: Pass)
    requires p.processedTo <= at
    ensures Scan(s, at, p).processedTo <= at + |s|
    ensures Scan(s, at, p).processedTo == p.processedTo || Scan(s, at, p).processedTo >= at + 7
    ensures Scan(s, at, p).corrupt && !p.corrupt ==> Scan(s, at, p).processedTo + 7 <= at + |s|
    decreases |s|
  {
    if |s| == 0 {
    } else if s[0] == START_OF_PACKET && |s| > 4 {
      match Inspect(s)
      case Incomplete => ScanBounds(s[1..], at + 1, p);
      case Corrupt =>
      case ErrorReply => ScanBounds(s[1..], at + 1, p.(answered := true));
      case Accepted(f, size) =>
        ScanBounds(s[size..], at + size, Pass(p.frames + [f], at + size, p.corrupt, true));
    } else {
      ScanBounds(s[1..], at + 1, p);
    }
  }

  /** Frames once accepted stay accepted. */
  lemma {:induction false} FramesGrow(s: seq<u8>, at: nat, p: Pass)
    ensures p.frames <= Scan(s, at, p).frames
    decreases |s|
  {
    if |s| == 0 {
    } else if s[0] == START_OF_PACKET && |s| > 4 {
      match Inspect(s)
      case Incomplete => FramesGrow(s[1..], at + 1, p);
      case Corrupt =>
      case ErrorReply => FramesGrow(s[1..], at + 1, p.(answered := true));
      case Accepted(f, size) =>
        FramesGrow(s[size..], at + size, Pass(p.frames + [f], at + size, p.corrupt, true));
    } else {
      FramesGrow(s[1..], at + 1, p);
    }
  }

  ghost function ScanBuffer(b: Buffer): (p: Pass)
    requires b.Valid()
    ensures p.processedTo <= b.wpos
  {
    ScanBounds(b.Data(), 0, NOTHING);
    Scan(b.Data(), 0, NOTHING)
  }

  /** One pass of `update` over newly read bytes. */
  ghost function Receive(b: Buffer, bytes: seq<u8>): (r: (Buffer, Pass))
    requires b.Valid() && b.wpos + |bytes| <= BUFFER_LENGTH
    ensures r.0.Valid()
  {
    var filled := Fill(b, bytes);
    var p := ScanBuffer(filled);
    (Settle(filled, p), p)
  }

  lemma {:induction false} ScanProgress(s: seq<u8>, at: nat, p: Pass)
    requires p.processedTo <= at && (p.processedTo > 0 <==> p.frames != [])
    ensures Scan(s, at, p).processedTo > 0 <==> Scan(s, at, p).frames != []
    decreases |s|
  {
    if |s| == 0 {
    } else if s[0] == START_OF_PACKET && |s| > 4 {
      match Inspect(s)
      case Incomplete => ScanProgress(s[1..], at + 1, p);
      case Corrupt =>
      case ErrorReply => ScanProgress(s[1..], at + 1, p.(answered := true));
      case Accepted(f, size) =>
        ScanProgress(s[size..], at + size, Pass(p.frames + [f], at + size, p.corrupt, true));
    } else {
      ScanProgress(s[1..], at + 1, p);
    }
  }

  // ---------------------------------------------------------------------------
  // What corrupt data does to the length of the buffer

  /** A candidate frame starts at `j` that is complete, and either sound or corrupt. */
  ghost predicate Decisive(s: seq<u8>, j: nat) {
    j + 4 < |s| && s[j] == START_OF_PACKET && (Inspect(s[j..]).Accepted? || Inspect(s[j..]).Corrupt?)
  }

  ghost predicate FirstDecisive(s: seq<u8>, j: nat) {
    Decisive(s, j) && forall i :: 0 <= i < j ==> !Decisive(s, i)
  }

  ghost predicate NoneDecisive(s: seq<u8>) {
    forall i :: 0 <= i < |s| ==> !Decisive(s, i)
  }

  lemma DecisiveTail(s: seq<u8>, i: nat)
    requires s != []
    ensures Decisive(s[1..], i) <==> Decisive(s, i + 1)
  {
    if i + 4 < |s| - 1 {
      assert s[1..][i..] == s[i + 1..];
    }
  }

  lemma FirstDecisiveTail(s: seq<u8>, j: nat)
    requires j > 0 && FirstDecisive(s, j)
    ensures FirstDecisive(s[1..], j - 1) && s[1..][j - 1..] == s[j..]
  {
    assert j + 4 < |s|;
    hide Decisive;
    DecisiveTail(s, j - 1);
    forall i: nat | i < j - 1
      ensures !Decisive(s[1..], i)
    {
      DecisiveTail(s, i);
    }
  }

  lemma NoneDecisiveTail(s: seq<u8>)
    requires s != [] && NoneDecisive(s)
    ensures NoneDecisive(s[1..])
  {
    hide Decisive;
    forall i: nat | i < |s| - 1
      ensures !Decisive(s[1..], i)
    {
      DecisiveTail(s, i);
    }
  }

  /** The first decisive candidate decides whether the pass accepts a reply before it meets corrupt data. */
  lemma {:induction false} FirstDecides(s: seq<u8>, at: nat, p: Pass, j: nat)
    requires FirstDecisive(s, j)
    ensures Inspect(s[j..]).Corrupt? ==> Scan(s, at, p) == p.(corrupt := true, answered := true)
    ensures Inspect(s[j..]).Accepted? ==> |Scan(s, at, p).frames| > |p.frames|
    decreases j
  {
    hide Inspect, Scan;
    ScanStep(s, at, p);
    if j == 0 {
      assert s[0..] == s;
      match Inspect(s)
      case Corrupt =>
      case Accepted(f, size) =>
        FramesGrow(s[size..], at + size, Pass(p.frames + [f], at + size, p.corrupt, true));
    } else {
      FirstDecisiveTail(s, j);
      assert !Decisive(s, 0) && s[0..] == s;
      FirstDecides(s[1..], at + 1, p, j - 1);
      FirstDecides(s[1..], at + 1, p.(answered := true), j - 1);
    }
  }

  lemma {:induction false} NoneDecides(s: seq<u8>, at: nat, p: Pass)
    requires NoneDecisive(s)
    ensures Scan(s, at, p).frames == p.frames && Scan(s, at, p).corrupt == p.corrupt
    decreases |s|
  {
    hide Inspect, Scan;
    ScanStep(s, at, p);
    if s != [] {
      NoneDecisiveTail(s);
      assert !Decisive(s, 0) && s[0..] == s;
      NoneDecides(s[1..], at + 1, p);
      NoneDecides(s[1..], at + 1, p.(answered := true));
    }
  }

  lemma FindDecisive(s: seq<u8>) returns (j: nat)
    ensures FirstDecisive(s, j) || NoneDecisive(s)
  {
    hide Decisive;
    j := 0;
    while j < |s| && !Decisive(s, j)
      invariant j <= |s| && forall i :: 0 <= i < j ==> !Decisive(s, i)
    {
      j := j + 1;
    }
    if j == |s| {
      assert NoneDecisive(s);
    }
  }

  /** The first complete candidate of the data that is not an error reply is corrupt. */
  ghost predicate CorruptFirst(data: seq<u8>) {
    exists j: nat :: FirstDecisive(data, j) && Inspect(data[j..]).Corrupt?
  }

  /** The length and the cells a pass leaves behind. */
  lemma SettledLength(b: Buffer, p: Pass)
    requires b.Valid() && p.processedTo <= b.wpos
    ensures var w := if p.corrupt then 0 else b.wpos;
      Settle(b, p).wpos == (w - p.processedTo) % 0x100 || (p.processedTo == 0 && Settle(b, p).wpos == w)
    ensures p.processedTo == 0 ==> Settle(b, p).wpos == if p.corrupt then 0 else b.wpos
    ensures p.corrupt ==> Settle(b, p).cells == b.cells
  {
  }

  /** A pass that meets corrupt data empties the buffer exactly when that is the first complete candidate; when a
      sound reply comes first, the eight-bit difference leaves a length of at least one, and the cells as they are. */
  lemma CorruptionEmptiesBuffer(b: Buffer, bytes: seq<u8>)
    requires b.Valid() && b.wpos + |bytes| <= BUFFER_LENGTH
    ensures var (b', p) := Receive(b, bytes);
      && (CorruptFirst(b.Data() + bytes) <==> p.corrupt && b'.wpos == 0)
      && (p.corrupt && !CorruptFirst(b.Data() + bytes) ==>
            p.frames != [] && b'.wpos == 0x100 - p.processedTo > 0 && b'.cells == Fill(b, bytes).cells)
  {
    hide Inspect, Scan, Decisive, Settle, Fill;
    SettledLength(Fill(b, bytes), ScanBuffer(Fill(b, bytes)));
    var filled := Fill(b, bytes);
    var data := filled.Data();
    ScanBounds(data, 0, NOTHING);
    ScanProgress(data, 0, NOTHING);
    var j := FindDecisive(data);
    if FirstDecisive(data, j) {
      FirstDecides(data, 0, NOTHING, j);
      FirstDecisiveUnique(data, j);
    } else {
      NoneDecides(data, 0, NOTHING);
      assert !CorruptFirst(data) by {
        NoneMeansNoFirst(data);
      }
    }
  }

  /** A buffer with no room, in which the next byte would be stored past its end, is left behind exactly when the
      data fills it and no candidate in it is complete but for error replies. */
  lemma FullBufferStays(b: Buffer, bytes: seq<u8>)
    requires b.Valid() && b.wpos + |bytes| <= BUFFER_LENGTH
    ensures Receive(b, bytes).0.wpos == 255 <==>
      b.wpos + |bytes| == 255 && NoneDecisive(b.Data() + bytes)
  {
    hide Inspect, Scan, Decisive, Settle, Fill;
    SettledLength(Fill(b, bytes), ScanBuffer(Fill(b, bytes)));
    var data := Fill(b, bytes).Data();
    ScanBounds(data, 0, NOTHING);
    ScanProgress(data, 0, NOTHING);
    var j := FindDecisive(data);
    if FirstDecisive(data, j) {
      FirstDecides(data, 0, NOTHING, j);
      FirstDecisiveUnique(data, j);
      DecisiveInside(data, j);
    } else {
      NoneDecides(data, 0, NOTHING);
    }
  }

  /** It happens: 255 bytes without a start byte, into an empty buffer. */
  lemma BufferFills(b: Buffer, bytes: seq<u8>)
    requires b.Valid() && b.wpos == 0 && |bytes| == 255 && 0xDD !in bytes
    ensures Receive(b, bytes).0.wpos == 255
  {
    hide Inspect, Receive;
    assert b.Data() + bytes == bytes;
    assert NoneDecisive(bytes);
    FullBufferStays(b, bytes);
  }

  lemma DecisiveInside(s: seq<u8>, j: nat)
    requires Decisive(s, j)
    ensures j < |s|
  {
  }

  lemma FirstDecisiveUnique(data: seq<u8>, j: nat)
    requires FirstDecisive(data, j)
    ensures CorruptFirst(data) <==> Inspect(data[j..]).Corrupt?
    ensures Inspect(data[j..]).Corrupt? || Inspect(data[j..]).Accepted?
  {
    hide Inspect;
    if CorruptFirst(data) {
      var i: nat :| FirstDecisive(data, i) && Inspect(data[i..]).Corrupt?;
      assert !(i < j) && !(j < i);
    }
  }

  lemma NoneMeansNoFirst(data: seq<u8>)
    requires NoneDecisive(data)
    ensures !CorruptFirst(data)
  {
    hide Inspect;
    assert forall i: nat :: FirstDecisive(data, i) ==> Decisive(data, i) && i < |data|;
  }

  /** An empty reply, and another whose end byte is wrong. */
  const SOUND_THEN_CORRUPT: seq<u8> := [0xDD, 0x04, 0, 0, 0, 0, 0x77, 0xDD, 0x04, 0, 0, 0, 0, 0x00]

  /** It happens: after these fourteen bytes an empty buffer is left with 249 bytes that nobody sent. */
  lemma LengthUnderflows(b: Buffer)
    requires b.Valid() && b.wpos == 0
    ensures var (b', p) := Receive(b, SOUND_THEN_CORRUPT); p.corrupt && p.processedTo == 7 && b'.wpos == 249
  {
    hide Inspect, Scan, Fill, Settle;
    var s := SOUND_THEN_CORRUPT;
    assert b.Data() + s == s;
    ScanSoundThenCorrupt(s);
    SettledLength(Fill(b, s), ScanBuffer(Fill(b, s)));
  }

  lemma ScanSoundThenCorrupt(s: seq<u8>)
    requires s == SOUND_THEN_CORRUPT
    ensures Scan(s, 0, NOTHING) == Pass([Frame(0x04, [])], 7, true, true)
  {
    hide Inspect, Scan;
    assert s[0] == START_OF_PACKET && s[7..][0] == START_OF_PACKET;
    assert [] + [Frame(0x04, [])] == [Frame(0x04, [])];
    EmptyReplySound(s);
    CutShort(s[7..]);
    ScanStep(s, 0, NOTHING);
    ScanStep(s[7..], 7, Pass([Frame(0x04, [])], 7, false, true));
  }

  lemma EmptyReplySound(s: seq<u8>)
    requires |s| >= 7 && s[1] == 0x04 && s[2] == s[3] == s[4] == s[5] == 0 && s[6] == 0x77
    ensures Inspect(s) == Accepted(Frame(0x04, []), 7)
  {
    hide Checksum;
    ZeroSum(s[2..4]);
    assert s[4..4] == [];
  }

  lemma CutShort(s: seq<u8>)
    requires |s| == 7 && s[3] == 0 && s[6] != END_OF_PACKET
    ensures Inspect(s) == Corrupt
  {
  }

  lemma ZeroSum(s: seq<u8>)
    requires |s| == 2 && s[0] == 0 && s[1] == 0
    ensures Checksum(s) == 0
  {
    assert Total(s) == Total(s[..1]) && Total(s[..1]) == Total(s[..1][..0]);
  }
}
