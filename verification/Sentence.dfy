/**
 NMEA 0183 sentences: built by `NMEA0183Encoder`, and read back a character at a
 time by `AsyncTcpClient`, which checks the checksum at each line end.
 */
module Sentence {
  import opened CStrings

  type Char = bv8

  const NUL: Char := 0
  const NEWLINE: Char := 10
  const DOLLAR: Char := 36
  const STAR: Char := 42
  const COMMA: Char := 44

  const OUTBUF_LEN := 255
  const MAX_INPUTBUFFER := 80

  function Mix(checksum: Char, c: Char): Char {
    checksum ^ c
  }

  function Xor(s: seq<Char>): Char {
    if s == [] then 0 else Mix(Xor(s[..|s| - 1]), s[|s| - 1])
  }

  lemma XorEmpty()
    ensures Xor([]) == 0
  {
  }

  lemma XorNext(s: seq<Char>, i: nat)
    requires 1 <= i < |s|
    ensures Xor(s[1..i + 1]) == Mix(Xor(s[1..i]), s[i])
  {
    assert s[1..i + 1][..i - 1] == s[1..i];
  }

  /** A hexadecimal digit, upper case. */
  function Hex(n: Char): Char
    requires n < 16
  {
    if n < 10 then 48 + n else 55 + n
  }

  lemma HexDigits(n: Char)
    requires n < 16
    ensures Hex(n) as char == "0123456789ABCDEF"[n as int]
  {
  }

  function High(c: Char): (n: Char)
    ensures n < 16
  {
    (c >> 4) & 0x0f
  }

  function Low(c: Char): (n: Char)
    ensures n < 16
  {
    c & 0x0f
  }

  /** The mark and the two digits that end a sentence. */
  function Suffix(checksum: Char): (s: seq<Char>)
    ensures |s| == 3
  {
    [STAR, Hex(High(checksum)), Hex(Low(checksum))]
  }

  /** The checksum is written as two hexadecimal digits, upper case, the high one first. */
  lemma SuffixReads(checksum: Char)
    ensures var n := checksum as int;
      Suffix(checksum)[0] == '*' as Char
      && Suffix(checksum)[1] as char == "0123456789ABCDEF"[n / 16]
      && Suffix(checksum)[2] as char == "0123456789ABCDEF"[n % 16]
  {
    hide Hex, High, Low;
    NibblesOf(checksum);
    HexDigits(High(checksum));
    HexDigits(Low(checksum));
  }

  lemma NibblesOf(c: Char)
    ensures High(c) as int == c as int / 16 && Low(c) as int == c as int % 16
  {
    assert High(c) == c / 16 && Low(c) == c % 16;
  }

  lemma SuffixCells(cells: seq<Char>, i: nat, checksum: Char)
    requires i + 3 <= |cells|
    ensures cells[i..i + 3] == Suffix(checksum) <==>
      cells[i] == STAR && cells[i + 1] == Hex(High(checksum)) && cells[i + 2] == Hex(Low(checksum))
  {
    hide Hex, High, Low;
    assert cells[i..i + 3] == [cells[i], cells[i + 1], cells[i + 2]];
  }

  lemma HexInjective(m: Char, n: Char)
    requires m < 16 && n < 16 && Hex(m) == Hex(n)
    ensures m == n
  {
  }

  lemma NibblesInjective(c: Char, d: Char)
    requires High(c) == High(d) && Low(c) == Low(d)
    ensures c == d
  {
  }

  lemma SuffixInjective(c: Char, d: Char)
    requires Suffix(c) == Suffix(d)
    ensures c == d
  {
    hide Hex, High, Low;
    assert Suffix(c)[1] == Hex(High(c)) && Suffix(d)[1] == Hex(High(d));
    assert Suffix(c)[2] == Hex(Low(c)) && Suffix(d)[2] == Hex(Low(d));
    HexInjective(High(c), High(d));
    HexInjective(Low(c), Low(d));
    NibblesInjective(c, d);
  }

  // ---------------------------------------------------------------------------
  // Building a sentence

  /** The text after a further field. */
  function Appended(text: seq<Char>, field: seq<Char>): seq<Char> {
    text + [COMMA] + Cut(field, NUL, OUTBUF_LEN - 5 - |text| - 1)
  }

  /** The text of a sentence with all its fields. */
  function Text(key: seq<Char>, fields: seq<seq<Char>>): seq<Char> {
    if fields == [] then Cut(key, NUL, OUTBUF_LEN - 5)
    else Appended(Text(key, fields[..|fields| - 1]), fields[|fields| - 1])
  }

  /** Every field is stored inside the buffer, with the end of the text behind it, exactly when the last one is. */
  lemma {:induction false} StoredInsideIff(key: seq<Char>, fields: seq<seq<Char>>)
    ensures (forall n :: 0 <= n <= |fields| ==> |Text(key, fields[..n])| < 255)
      <==> |Text(key, fields)| < 255
  {
    hide Text;
    forall n | 0 <= n <= |fields|
      ensures |Text(key, fields[..n])| <= |Text(key, fields)|
    {
      TextGrows(key, fields, n);
    }
    assert fields[..|fields|] == fields;
  }

  lemma {:induction false} TextGrows(key: seq<Char>, fields: seq<seq<Char>>, n: nat)
    requires n <= |fields|
    ensures |Text(key, fields[..n])| <= |Text(key, fields)|
  {
    if n == |fields| {
      assert fields[..n] == fields;
    } else {
      var init := fields[..|fields| - 1];
      TextGrows(key, init, n);
      assert init[..n] == fields[..n];
    }
  }

  /** It happens: behind a text of 250 characters every further field still adds its comma. */
  lemma {:induction false} CommasGoOn(key: seq<Char>, n: nat)
    requires |key| == 250 && NUL !in key
    ensures |Text(key, seq(n, _ => []))| == 250 + n
  {
    if n > 0 {
      var fields: seq<seq<Char>> := seq(n, _ => []);
      assert fields[..n - 1] == seq(n - 1, _ => []);
      CommasGoOn(key, n - 1);
    }
  }

  /** Key and fields with a comma before each. */
  function Joined(key: seq<Char>, fields: seq<seq<Char>>): seq<Char> {
    if fields == [] then key else Joined(key, fields[..|fields| - 1]) + [',' as Char] + fields[|fields| - 1]
  }

  ghost predicate NoNul(key: seq<Char>, fields: seq<seq<Char>>) {
    0 !in key && forall i :: 0 <= i < |fields| ==> 0 !in fields[i]
  }

  /** Up to 250 characters nothing is cut. */
  lemma {:induction false} TextJoined(key: seq<Char>, fields: seq<seq<Char>>)
    requires NoNul(key, fields) && |Joined(key, fields)| <= 250
    ensures Text(key, fields) == Joined(key, fields)
  {
    hide Cut, Appended;
    if fields == [] {
      WholeCut(key, 250);
    } else {
      var init, last := fields[..|fields| - 1], fields[|fields| - 1];
      TextJoined(key, init);
      AppendedWhole(Joined(key, init), last);
    }
  }

  lemma AppendedWhole(text: seq<Char>, field: seq<Char>)
    requires 0 !in field && |text| + 1 + |field| <= 250
    ensures Appended(text, field) == text + [',' as Char] + field
  {
    hide Cut;
    WholeCut(field, 249 - |text|);
  }

  lemma WholeCut(s: seq<Char>, room: int)
    requires 0 !in s && |s| <= room
    ensures Cut(s, NUL, room) == s
  {
    CutEnds(s, NUL, room, |Cut(s, NUL, room)|);
  }

  /** The text of a sentence as it is sent: an overlong one is cut. */
  function Ended(text: seq<Char>): seq<Char> {
    if |text| > OUTBUF_LEN - 4 then text[..OUTBUF_LEN - 4] else text
  }

  /** With its three last characters and the end of the text it fits the buffer. */
  lemma EndedFits(text: seq<Char>)
    ensures Ended(text) <= text && (|text| <= 251 ==> Ended(text) == text) && (|text| > 251 ==> |Ended(text)| == 251)
  {
  }

  class NMEA0183Encoder {
    const buffer: array<Char>
    var p: nat

    ghost predicate Valid()
      reads this, buffer
    {
      && buffer.Length == OUTBUF_LEN && p < OUTBUF_LEN
      && buffer[p] == NUL && NUL !in buffer[..p]
    }

    ghost function Contents(): seq<Char>
      reads this, buffer
      requires Valid()
    {
      buffer[..p]
    }

    constructor ()
      ensures Valid() && Contents() == [] && fresh(buffer)
    {
      buffer := new Char[OUTBUF_LEN](_ => 0);
      p := 0;
    }

    /** Starts a sentence over, whatever the buffer holds. */
    method Start(key: seq<Char>)
      requires buffer.Length == OUTBUF_LEN
      modifies this, buffer
      ensures Valid() && Contents() == Cut(key, NUL, 250) == Text(key, [])
    {
      ghost var cut := Cut(key, NUL, OUTBUF_LEN - 5);
      p := 0;
      while p < |key| && key[p] != NUL && p < OUTBUF_LEN - 5
        invariant p <= |cut| && buffer[..p] == cut[..p]
        decreases |key| - p
      {
        CutNext(key, NUL, OUTBUF_LEN - 5, p);
        buffer[p] := key[p];
        p := p + 1;
      }
      CutEnds(key, NUL, OUTBUF_LEN - 5, p);
      buffer[p] := NUL;
    }

    /** Adds a field. The comma is stored without a bounds check, so there must be room for it. */
    method Append(field: seq<Char>)
      requires Valid() && p < OUTBUF_LEN - 1
      modifies this, buffer
      ensures Valid() && Contents() == Appended(old(Contents()), field)
    {
      hide Cut;
      ghost var text := buffer[..p];
      ghost var cut := Cut(field, NUL, OUTBUF_LEN - 5 - p - 1);
      ghost var start := p + 1;
      buffer[p] := COMMA;
      p := p + 1;
      var n := 0;
      while n < |field| && field[n] != NUL && p < OUTBUF_LEN - 5
        invariant n <= |cut| && p == start + n < OUTBUF_LEN
        invariant forall j :: 0 <= j < |text| ==> buffer[j] == text[j]
        invariant buffer[start - 1] == COMMA
        invariant forall j :: 0 <= j < n ==> buffer[start + j] == cut[j]
        decreases |field| - n
      {
        CutNext(field, NUL, OUTBUF_LEN - 5 - start, n);
        buffer[p] := field[n];
        p := p + 1;
        n := n + 1;
      }
      CutEnds(field, NUL, OUTBUF_LEN - 5 - start, n);
      assert buffer[..p] == text + [COMMA] + cut;
      buffer[p] := NUL;
    }

    /** The summing loop of `end`: where it stops, and the sum. */
    method SumText() returns (i: nat, checkSum: Char)
      requires p < buffer.Length && NUL !in buffer[..p]
      ensures i == if p == 0 then 1 else p
      ensures p > 0 ==> checkSum == Xor(buffer[..p][1..])
    {
      hide Xor, Mix;
      ghost var text := buffer[..p];
      checkSum := 0;
      i := 1;
      XorEmpty();
      assert p > 0 ==> text[1..1] == [];
      while i < p && buffer[i] != NUL
        invariant if p > 0 then 1 <= i <= p && checkSum == Xor(text[1..i]) else i == 1
        decreases p - i
      {
        XorNext(text, i);
        checkSum := Mix(checkSum, buffer[i]);
        i := i + 1;
      }
      assert p > 0 ==> i == p && text[1..i] == text[1..];
    }

    /** Ends the sentence, cut to fit the buffer, and returns it: nothing when there is none. */
    method End() returns (sentence: seq<Char>)
      requires Valid()
      modifies this, buffer
      ensures old(Contents()) == [] ==> sentence == []
      ensures old(Contents()) != [] ==>
        var text := Ended(old(Contents())); sentence == text + Suffix(Xor(text[1..]))
      ensures buffer[..|sentence|] == sentence && buffer[|sentence|] == NUL
    {
      hide Xor, Suffix, Hex, High, Low;
      if p > OUTBUF_LEN - 4 {
        p := OUTBUF_LEN - 4;
      }
      ghost var text := buffer[..p];
      assert text == Ended(old(Contents()));
      var i, checkSum := SumText();
      buffer[i] := STAR;
      buffer[i + 1] := Hex(High(checkSum));
      buffer[i + 2] := Hex(Low(checkSum));
      buffer[i + 3] := NUL;
      if p == 0 {
        return [];
      }
      assert buffer[..i] == text;
      SuffixCells(buffer[..], i, checkSum);
      assert buffer[..][i..i + 3] == buffer[i..i + 3];
      sentence := buffer[..i + 3];
    }
  }

  // ---------------------------------------------------------------------------
  // Reading a line

  /** The input buffer: all of its cells, and how many hold the line so far. */
  datatype Line = Line(cells: seq<Char>, pos: nat)

  ghost predicate ValidLine(l: Line) {
    |l.cells| == MAX_INPUTBUFFER && l.pos <= MAX_INPUTBUFFER - 2
  }

  predicate Printable(c: Char) {
    32 <= c <= 126
  }

  /** A character other than a line end. */
  function Typed(l: Line, c: Char): Line
    requires ValidLine(l)
  {
    if Printable(c) && l.pos < MAX_INPUTBUFFER - 2 then Line(l.cells[l.pos := c][l.pos + 1 := NUL], l.pos + 1) else l
  }

  /** A character is kept if it can be printed and there is room for it. */
  lemma TypedIff(l: Line, c: Char)
    requires ValidLine(l)
    ensures Typed(l, c) ==
      if 32 <= c <= 126 && l.pos < 78 then Line(l.cells[l.pos := c][l.pos + 1 := 0], l.pos + 1) else l
  {
  }

  /** Where the scan for the checksum stops. */
  function Stop(cells: seq<Char>, i: nat): (n: nat)
    requires i <= |cells|
    ensures i <= n <= |cells|
    decreases |cells| - i
  {
    if i < |cells| && cells[i] != STAR && cells[i] != NUL && cells[i] != DOLLAR then Stop(cells, i + 1) else i
  }

  lemma StopStep(cells: seq<Char>, i: nat)
    requires i <= |cells|
    ensures Stop(cells, i) ==
      (if i < |cells| && cells[i] != STAR && cells[i] != NUL && cells[i] != DOLLAR then Stop(cells, i + 1) else i)
  {
  }

  /** `checkChecksum`: the scan starts behind the first cell, whatever that holds. */
  predicate Checks(cells: seq<Char>)
    requires |cells| == MAX_INPUTBUFFER
  {
    var i := Stop(cells, 1);
    i < MAX_INPUTBUFFER - 3 && cells[i..i + 3] == Suffix(Xor(cells[1..i])) && cells[i + 3] == NUL
  }

  lemma ChecksAt(cells: seq<Char>, i: nat, checksum: Char)
    requires |cells| == MAX_INPUTBUFFER && i == Stop(cells, 1) && checksum == Xor(cells[1..i])
    ensures Checks(cells) <==>
      (i < MAX_INPUTBUFFER - 3 && cells[i] == STAR
       && cells[i + 1] == Hex(High(checksum)) && cells[i + 2] == Hex(Low(checksum)) && cells[i + 3] == NUL)
  {
    hide Mix, Stop, Suffix, Hex, High, Low, Xor;
    if i < MAX_INPUTBUFFER - 3 {
      SuffixCells(cells, i, checksum);
    }
  }

  class AsyncTcpClient {
    const inputBuffer: array<Char>
    var bpos: nat

    ghost predicate Valid()
      reads this
    {
      inputBuffer.Length == MAX_INPUTBUFFER && bpos <= MAX_INPUTBUFFER - 2
    }

    ghost function Input(): Line
      reads this, inputBuffer
    {
      Line(inputBuffer[..], bpos)
    }

    constructor ()
      ensures Valid() && fresh(inputBuffer) && Input().pos == 0
    {
      inputBuffer := new Char[MAX_INPUTBUFFER](_ => 0);
      bpos := 0;
    }

    method CheckChecksum() returns (ok: bool)
      requires Valid()
      ensures ok <==> Checks(inputBuffer[..])
    {
      hide Xor, Mix, Stop, Suffix, Hex, High, Low, Checks;
      ghost var cells := inputBuffer[..];
      assert cells[1..1] == [] && Xor([]) == 0 by { XorEmpty(); }
      var checkSum: Char := 0;
      var i := 1;
      while i < MAX_INPUTBUFFER && inputBuffer[i] != STAR && inputBuffer[i] != NUL && inputBuffer[i] != DOLLAR
        invariant 1 <= i <= MAX_INPUTBUFFER && Stop(cells, i) == Stop(cells, 1) && checkSum == Xor(cells[1..i])
      {
        XorNext(cells, i);
        StopStep(cells, i);
        checkSum := Mix(checkSum, inputBuffer[i]);
        i := i + 1;
      }
      StopStep(cells, i);
      ChecksAt(cells, i, checkSum);
      if i < MAX_INPUTBUFFER - 3 {
        ok := inputBuffer[i] == STAR
          && inputBuffer[i + 1] == Hex(High(checkSum)) && inputBuffer[i + 2] == Hex(Low(checkSum))
          && inputBuffer[i + 3] == NUL;
      } else {
        ok := false;
      }
    }

    /** `readInput`: the verdicts on the lines that end in the data, in order. */
    method ReadInput(data: seq<Char>) returns (verdicts: seq<bool>)
      requires Valid()
      modifies this, inputBuffer
      ensures Valid() && (Input(), verdicts) == Lines(old(Input()), data)
    {
      hide Checks;
      verdicts := [];
      var i := 0;
      assert data[..0] == [];
      while i < |data|
        invariant Valid() && 0 <= i <= |data| && (Input(), verdicts) == Lines(old(Input()), data[..i])
      {
        var c := data[i];
        ghost var was := Input();
        if c == NEWLINE {
          var ok := CheckChecksum();
          verdicts := verdicts + [ok];
          bpos := 0;
          inputBuffer[bpos] := NUL;
        } else if 32 <= c <= 126 && bpos < MAX_INPUTBUFFER - 2 {
          inputBuffer[bpos] := c;
          bpos := bpos + 1;
          inputBuffer[bpos] := NUL;
        }
        assert data[..i + 1][..i] == data[..i];
        i := i + 1;
      }
      assert data[..i] == data;
    }
  }

  /** The buffer and the verdicts after some input. */
  ghost function Lines(l: Line, data: seq<Char>): (r: (Line, seq<bool>))
    requires ValidLine(l)
    ensures ValidLine(r.0)
  {
    if data == [] then (l, [])
    else
      var (k, verdicts) := Lines(l, data[..|data| - 1]);
      if data[|data| - 1] == NEWLINE then (Line(k.cells[0 := NUL], 0), verdicts + [Checks(k.cells)])
      else (Typed(k, data[|data| - 1]), verdicts)
  }

  // ---------------------------------------------------------------------------
  // Round trip and detection

  ghost predicate AllPrintable(s: seq<Char>) {
    forall i :: 0 <= i < |s| ==> Printable(s[i])
  }

  /** A printable line is in the buffer as far as it fits, and the buffer's text ends there. */
  lemma {:induction false} LineStored(l: Line, s: seq<Char>)
    requires ValidLine(l) && l.pos == 0 && AllPrintable(s) && 0 < |s|
    ensures var (k, verdicts) := Lines(l, s);
      var n := if |s| < MAX_INPUTBUFFER - 2 then |s| else MAX_INPUTBUFFER - 2;
      k.pos == n && k.cells[..n] == s[..n] && k.cells[n] == NUL && verdicts == []
  {
    var init := s[..|s| - 1];
    if |s| == 1 {
      assert init == [];
    } else {
      LineStored(l, init);
    }
    assert s == init + [s[|s| - 1]];
  }

  /** A body is a sentence's text behind its first character. */
  ghost predicate PlainBody(s: seq<Char>) {
    forall i :: 0 <= i < |s| ==> Printable(s[i]) && s[i] != STAR && s[i] != DOLLAR
  }

  lemma {:induction false} StopAt(cells: seq<Char>, i: nat, n: nat)
    requires i <= n < |cells| && PlainBody(cells[i..n])
    requires cells[n] == STAR || cells[n] == NUL || cells[n] == DOLLAR
    ensures Stop(cells, i) == n
    decreases n - i
  {
    if i < n {
      assert cells[i..n][0] == cells[i];
      assert cells[i..n][1..] == cells[i + 1..n];
      StopAt(cells, i + 1, n);
    }
  }

  /** A line of a plain body and any three-character ending with a mark is accepted exactly when the
      ending is the checksum of the body. */
  lemma AcceptedIff(l: Line, text: seq<Char>, ending: seq<Char>)
    requires ValidLine(l) && l.pos == 0 && 1 <= |text| <= MAX_INPUTBUFFER - 5
    requires Printable(text[0]) && PlainBody(text[1..]) && |ending| == 3 && AllPrintable(ending) && ending[0] == STAR
    ensures Lines(l, text + ending + [NEWLINE]).1 == [ending == Suffix(Xor(text[1..]))]
  {
    hide Suffix, Xor, Stop, Printable;
    var s := text + ending;
    assert forall i :: 1 <= i < |text| ==> text[i] == text[1..][i - 1];
    LineStored(l, s);
    var k := Lines(l, s).0;
    assert s[..|s|] == s == (s + [NEWLINE])[..|s|];
    CellsChecked(k.cells, text, ending);
  }

  lemma CellsChecked(cells: seq<Char>, text: seq<Char>, ending: seq<Char>)
    requires 1 <= |text| <= MAX_INPUTBUFFER - 5 && PlainBody(text[1..]) && |ending| == 3 && ending[0] == STAR
    requires |cells| == MAX_INPUTBUFFER && cells[..|text| + 3] == text + ending && cells[|text| + 3] == NUL
    ensures Checks(cells) <==> ending == Suffix(Xor(text[1..]))
  {
    hide Suffix, Xor, Stop, Printable;
    var n := |text|;
    assert cells[1..n] == cells[..n + 3][1..n] == text[1..];
    assert cells[n..n + 3] == cells[..n + 3][n..] == ending;
    assert cells[n] == ending[0];
    StopAt(cells, 1, n);
  }

  /** A sentence is accepted exactly when all of it fits the client's buffer. */
  lemma AcceptedIffFits(l: Line, text: seq<Char>)
    requires ValidLine(l) && l.pos == 0 && 1 <= |text|
    requires Printable(text[0]) && PlainBody(text[1..])
    ensures Lines(l, text + Suffix(Xor(text[1..])) + [NEWLINE]).1 == [|text| <= 75]
  {
    hide Suffix, Xor;
    SuffixPrintable(Xor(text[1..]));
    if |text| <= 75 {
      AcceptedIff(l, text, Suffix(Xor(text[1..])));
    } else {
      LongRejected(l, text, Suffix(Xor(text[1..])));
    }
  }

  lemma LongRejected(l: Line, text: seq<Char>, ending: seq<Char>)
    requires ValidLine(l) && l.pos == 0 && 75 < |text|
    requires Printable(text[0]) && PlainBody(text[1..]) && |ending| == 3 && AllPrintable(ending) && ending[0] == STAR
    ensures Lines(l, text + ending + [NEWLINE]).1 == [false]
  {
    hide Suffix, Xor, Stop, Printable;
    var s := text + ending;
    assert forall i :: 1 <= i < |text| ==> text[i] == text[1..][i - 1];
    LineStored(l, s);
    var k := Lines(l, s).0;
    assert (s + [NEWLINE])[..|s|] == s;
    LongCells(k.cells, text, ending);
  }

  lemma LongCells(cells: seq<Char>, text: seq<Char>, ending: seq<Char>)
    requires 75 < |text| && PlainBody(text[1..]) && |ending| == 3 && ending[0] == STAR
    requires |cells| == MAX_INPUTBUFFER && cells[..78] == (text + ending)[..78] && cells[78] == NUL
    ensures !Checks(cells)
  {
    hide Suffix, Xor, Stop, Printable;
    var n := if |text| < 78 then |text| else 78;
    var line := text + ending;
    assert forall j :: 0 <= j < 78 ==> cells[j] == cells[..78][j] == line[j];
    assert cells[1..n] == text[1..n] == text[1..][..n - 1];
    if n < 78 {
      assert cells[n] == line[n] == ending[0];
    }
    StopAt(cells, 1, n);
    if n == 76 {
      SuffixPrintable(Xor(cells[1..n]));
      assert cells[n..n + 3][2] == NUL;
    }
  }

  lemma SuffixPrintable(c: Char)
    ensures AllPrintable(Suffix(c)) && Suffix(c)[0] == STAR && Suffix(c)[2] != NUL
  {
    hide High, Low;
    HexPrintable(High(c));
    HexPrintable(Low(c));
  }

  lemma HexPrintable(n: Char)
    requires n < 16
    ensures Printable(Hex(n))
  {
  }

  lemma {:induction false} XorJoin(a: seq<Char>, b: seq<Char>)
    ensures Xor(a + b) == Xor(a) ^ Xor(b)
  {
    if b == [] {
      assert a + b == a;
    } else {
      assert (a + b)[..|a + b| - 1] == a + b[..|b| - 1];
      XorJoin(a, b[..|b| - 1]);
      XorAssociates(Xor(a), Xor(b[..|b| - 1]), b[|b| - 1]);
    }
  }

  lemma XorAssociates(a: Char, b: Char, c: Char)
    ensures (a ^ b) ^ c == a ^ (b ^ c)
  {
  }

  lemma XorInjective(a: Char, c: Char, d: Char, b: Char)
    ensures (a ^ c) ^ b == (a ^ d) ^ b ==> c == d
  {
  }

  // ---------------------------------------------------------------------------
  // From the encoder to the client

  lemma AppendedPlain(text: seq<Char>, field: seq<Char>)
    requires |text| > 0 && PlainBody(text[1..]) && PlainBody(field)
    ensures |Appended(text, field)| > 0 && PlainBody(Appended(text, field)[1..]) && Appended(text, field)[0] == text[0]
  {
    assert Printable(COMMA);
    hide Cut, Printable;
    var cut := Cut(field, NUL, OUTBUF_LEN - 5 - |text| - 1);
    assert Appended(text, field)[1..] == text[1..] + [COMMA] + cut;
    assert PlainBody(cut);
  }

  lemma {:induction false} TextPlain(key: seq<Char>, fields: seq<seq<Char>>)
    requires |key| > 0 && key[0] == DOLLAR && PlainBody(key[1..])
    requires forall i :: 0 <= i < |fields| ==> PlainBody(fields[i])
    ensures var t := Text(key, fields); |t| > 0 && t[0] == DOLLAR && PlainBody(t[1..])
  {
    hide Appended, Printable, Cut;
    if fields == [] {
      assert Cut(key, NUL, OUTBUF_LEN - 5) != [] by { CutNext(key, NUL, OUTBUF_LEN - 5, 0); }
      var t := Cut(key, NUL, OUTBUF_LEN - 5);
      assert |t| > 0;
      assert forall i :: 1 <= i < |t| ==> t[i] == key[1..][i - 1];
    } else {
      var last := fields[|fields| - 1];
      var t := Text(key, fields[..|fields| - 1]);
      TextPlain(key, fields[..|fields| - 1]);
      AppendedPlain(t, last);
    }
  }

  /** A sentence of plain fields behind a `$` passes the client's check exactly when it fits the client's buffer. One
      that does is also stored inside the encoder's. */
  lemma SentenceRoundTrip(l: Line, key: seq<Char>, fields: seq<seq<Char>>)
    requires ValidLine(l) && l.pos == 0
    requires |key| > 0 && key[0] == DOLLAR && PlainBody(key[1..])
    requires forall i :: 0 <= i < |fields| ==> PlainBody(fields[i])
    ensures var text := Ended(Text(key, fields));
      |text| > 0 && Lines(l, text + Suffix(Xor(text[1..])) + [NEWLINE]).1 == [|Text(key, fields)| <= 75]
  {
    hide Suffix, Xor, Lines, Text;
    TextPlain(key, fields);
    var text := Ended(Text(key, fields));
    assert text[1..] == Text(key, fields)[1..|text|] == Text(key, fields)[1..][..|text| - 1];
    AcceptedIffFits(l, text);
  }

  lemma {:induction false} LinesJoin(l: Line, a: seq<Char>, b: seq<Char>)
    requires ValidLine(l)
    ensures var (k, before) := Lines(l, a); Lines(l, a + b) == (Lines(k, b).0, before + Lines(k, b).1)
  {
    hide Checks, Typed;
    if b == [] {
      assert a + b == a;
      assert Lines(l, a).1 + [] == Lines(l, a).1;
    } else {
      var init := b[..|b| - 1];
      assert (a + b)[..|a + b| - 1] == a + init;
      LinesJoin(l, a, init);
      var (k, before) := Lines(l, a);
      var mid := Lines(k, init);
      var ok := [Checks(mid.0.cells)];
      assert before + (mid.1 + ok) == before + mid.1 + ok;
    }
  }

  /** After any line whatever, a sentence that fits passes, and one that does not fails. */
  lemma SentenceInStream(l: Line, before: seq<Char>, key: seq<Char>, fields: seq<seq<Char>>)
    requires ValidLine(l)
    requires |key| > 0 && key[0] == '$' as Char && PlainBody(key[1..])
    requires forall i :: 0 <= i < |fields| ==> PlainBody(fields[i])
    ensures var text, lines := Ended(Text(key, fields)), before + [10];
      && |text| > 0
      && Lines(l, lines + (text + Suffix(Xor(text[1..])) + [10])).1
         == Lines(l, lines).1 + [|Text(key, fields)| <= 75]
  {
    hide Suffix, Xor, Text, Ended, Checks;
    var k := Lines(l, before + [10]).0;
    assert (before + [10])[..|before|] == before;
    assert k.pos == 0;
    SentenceRoundTrip(k, key, fields);
    var text := Ended(Text(key, fields));
    LinesJoin(l, before + [10], text + Suffix(Xor(text[1..])) + [10]);
  }

  /** Changing one character changes the checksum. */
  lemma ChangeOne(s: seq<Char>, k: nat, c: Char)
    requires k < |s| && s[k] != c
    ensures Xor(s[k := c]) != Xor(s)
  {
    var a, b := s[..k], s[k + 1..];
    assert s == a + [s[k]] + b && s[k := c] == a + [c] + b;
    XorJoin(a + [s[k]], b);
    XorJoin(a + [c], b);
    XorOne(a, s[k]);
    XorOne(a, c);
    XorInjective(Xor(a), s[k], c, Xor(b));
  }

  lemma XorOne(a: seq<Char>, c: Char)
    ensures Xor(a + [c]) == Xor(a) ^ c
  {
    assert (a + [c])[..|a|] == a;
  }

  /** A mark before the ending stops the check there. That is a wrong verdict only where the input buffer ends three
      characters later. */
  lemma EarlyMark(cells: seq<Char>, s: seq<Char>, k: nat)
    requires AllPrintable(s) && 1 <= k < |s| - 3 && PlainBody(s[1..k]) && (s[k] == STAR || s[k] == DOLLAR)
    requires |cells| == MAX_INPUTBUFFER
    requires var n := if |s| < 78 then |s| else 78; cells[..n] == s[..n] && cells[n] == NUL
    ensures Checks(cells) <==> k == 75 && s[75..78] == Suffix(Xor(s[1..75]))
  {
    hide Suffix, Xor, Stop;
    var n := if |s| < 78 then |s| else 78;
    var i := if k < n then k else n;
    assert forall j :: 0 <= j < n ==> cells[j] == cells[..n][j] == s[j];
    assert forall j :: 1 <= j < i ==> cells[j] == s[1..k][j - 1];
    assert cells[1..i] == s[1..i];
    StopAt(cells, 1, i);
    SuffixPrintable(Xor(cells[1..i]));
    if k == 75 {
      assert cells[75..78] == s[75..78] && cells[1..75] == s[1..75];
    } else if k < 75 {
      assert Printable(s[k + 3]);
    } else if k == 76 {
      assert cells[76..79][2] == NUL;
    }
  }

  /** A control character is dropped. */
  lemma {:induction false} ControlSkipped(l: Line, before: seq<Char>, c: Char, after: seq<Char>)
    requires ValidLine(l) && !Printable(c) && c != NEWLINE
    ensures Lines(l, before + [c] + after) == Lines(l, before + after)
    decreases |after|
  {
    hide Checks, Printable;
    if after == [] {
      assert before + [c] + after == before + [c] && before + after == before;
      assert (before + [c])[..|before|] == before;
      assert Typed(Lines(l, before).0, c) == Lines(l, before).0;
    } else {
      var init := after[..|after| - 1];
      assert (before + [c] + after)[..|before| + |after|] == before + [c] + init;
      assert (before + after)[..|before| + |after| - 1] == before + init;
      ControlSkipped(l, before, c, init);
    }
  }

  /** Leaving out a character changes the checksum. */
  lemma DropOne(s: seq<Char>, k: nat)
    requires k < |s| && s[k] != 0
    ensures Xor(s[..k] + s[k + 1..]) != Xor(s)
  {
    var a, b := s[..k], s[k + 1..];
    assert s == a + [s[k]] + b;
    XorJoin(a + [s[k]], b);
    XorJoin(a, b);
    XorOne(a, s[k]);
    XorZero(Xor(a), s[k], Xor(b));
  }

  lemma XorZero(a: Char, c: Char, b: Char)
    ensures (a ^ c) ^ b == a ^ b ==> c == 0
  {
  }

  lemma DroppedRejected(l: Line, text: seq<Char>, k: nat, c: Char)
    requires ValidLine(l) && l.pos == 0 && 1 <= k < |text| && Printable(text[0]) && PlainBody(text[1..])
    requires !Printable(c) && c != NEWLINE
    ensures Lines(l, text[k := c] + Suffix(Xor(text[1..])) + [NEWLINE]).1 == [false]
  {
    hide Suffix, Lines, Xor;
    var ending := Suffix(Xor(text[1..]));
    var short, rest := text[..k] + text[k + 1..], text[k + 1..] + ending + [NEWLINE];
    assert text[k := c] + ending + [NEWLINE] == text[..k] + [c] + rest;
    assert short + ending + [NEWLINE] == text[..k] + rest;
    ControlSkipped(l, text[..k], c, rest);
    SuffixPrintable(Xor(text[1..]));
    assert text[1..][k - 1] == text[k];
    assert short[1..] == text[1..][..k - 1] + text[1..][k..];
    if |short| <= 75 {
      AcceptedIff(l, short, ending);
      DropOne(text[1..], k - 1);
      if ending == Suffix(Xor(short[1..])) {
        SuffixInjective(Xor(text[1..]), Xor(short[1..]));
      }
    } else {
      LongRejected(l, short, ending);
    }
  }

  lemma MarkRejected(l: Line, text: seq<Char>, k: nat, c: Char)
    requires ValidLine(l) && l.pos == 0 && 1 <= k < |text| && Printable(text[0]) && PlainBody(text[1..])
    requires c == STAR || c == DOLLAR
    ensures var s := text[k := c] + Suffix(Xor(text[1..]));
      Lines(l, s + [NEWLINE]).1 == [k == 75 && s[75..78] == Suffix(Xor(text[1..75]))]
  {
    hide Suffix, Xor, Stop, Checks;
    var changed, ending := text[k := c], Suffix(Xor(text[1..]));
    var s := changed + ending;
    SuffixPrintable(Xor(text[1..]));
    assert forall i :: 1 <= i < |text| ==> text[i] == text[1..][i - 1];
    LineStored(l, s);
    assert (s + [NEWLINE])[..|s|] == s;
    assert s[1..k] == text[1..][..k - 1];
    EarlyMark(Lines(l, s).0.cells, s, k);
    if k == 75 {
      assert s[1..75] == text[1..75];
    }
  }

  /** A sentence with one body character replaced by any other but a line end is rejected, with one exception: in a
      sentence that does not fit the client's buffer, a `*` in front of the last two characters that do, if these
      happen to be the checksum of what is before it. */
  lemma ReplacedCharacterRejected(l: Line, text: seq<Char>, k: nat, c: Char)
    requires ValidLine(l) && l.pos == 0 && 1 <= |text|
    requires Printable(text[0]) && PlainBody(text[1..])
    requires 1 <= k < |text| && c != NEWLINE && c != text[k]
    ensures var s := text[k := c] + Suffix(Xor(text[1..]));
      Lines(l, s + [NEWLINE]).1 == [c == STAR && k == 75 && s[75..78] == Suffix(Xor(text[1..75]))]
  {
    hide Lines, Suffix, Xor;
    if c == STAR || c == DOLLAR {
      MarkRejected(l, text, k, c);
      SuffixPrintable(Xor(if |text| > 75 then text[1..75] else []));
    } else if !Printable(c) {
      DroppedRejected(l, text, k, c);
    } else {
      PlainRejected(l, text, k, c);
    }
  }

  /** It happens: the line is cut behind the `*` and two zeros. */
  lemma CutLineAccepted(l: Line)
    requires ValidLine(l) && l.pos == 0
    ensures var text := [DOLLAR] + seq(74, _ => 65) + [66, 48, 48];
      PlainBody(text[1..]) && Lines(l, text[75 := STAR] + Suffix(Xor(text[1..])) + [NEWLINE]).1 == [true]
  {
    hide Lines, Suffix, Xor;
    var text: seq<Char> := [DOLLAR] + seq(74, _ => 65) + [66, 48, 48];
    var s := text[75 := STAR] + Suffix(Xor(text[1..]));
    assert text[1..75] == seq(74, _ => 65);
    PairsCancel(37, 65);
    assert s[75..78] == [STAR, 48, 48];
    ZeroSuffix();
    ReplacedCharacterRejected(l, text, 75, STAR);
  }

  lemma ZeroSuffix()
    ensures Suffix(0) == [STAR, 48, 48]
  {
  }

  lemma {:induction false} PairsCancel(n: nat, c: Char)
    ensures Xor(seq(2 * n, _ => c)) == 0
  {
    if n > 0 {
      PairsCancel(n - 1, c);
      XorOne(seq(2 * n - 2, _ => c), c);
      XorOne(seq(2 * n - 1, _ => c), c);
      assert seq(2 * n - 1, _ => c) == seq(2 * n - 2, _ => c) + [c];
      assert seq(2 * n, _ => c) == seq(2 * n - 1, _ => c) + [c];
    }
  }

  lemma PlainRejected(l: Line, text: seq<Char>, k: nat, c: Char)
    requires ValidLine(l) && l.pos == 0 && 1 <= |text|
    requires Printable(text[0]) && PlainBody(text[1..])
    requires 1 <= k < |text| && Printable(c) && c != STAR && c != DOLLAR && c != text[k]
    ensures Lines(l, text[k := c] + Suffix(Xor(text[1..])) + [NEWLINE]).1 == [false]
  {
    hide Suffix, Lines, Xor;
    var body, changed := text[1..], text[k := c];
    assert changed[1..] == body[k - 1 := c];
    SuffixPrintable(Xor(body));
    if |text| <= 75 {
      AcceptedIff(l, changed, Suffix(Xor(body)));
      ChangeOne(body, k - 1, c);
      if Suffix(Xor(body)) == Suffix(Xor(changed[1..])) {
        SuffixInjective(Xor(body), Xor(changed[1..]));
      }
    } else {
      LongRejected(l, changed, Suffix(Xor(body)));
    }
  }

  /** Whatever was typed, an empty line gets the verdict of the line before it: the scan starts behind the first
      cell, and only that one was cleared. */
  lemma EmptyLineRepeatsVerdict(l: Line, data: seq<Char>)
    requires ValidLine(l)
    ensures var v := Lines(l, data + [NEWLINE]).1;
      |v| > 0 && Lines(l, data + [NEWLINE] + [NEWLINE]).1 == v + [v[|v| - 1]]
  {
    hide Checks;
    var once, twice := data + [NEWLINE], data + [NEWLINE] + [NEWLINE];
    assert once[..|data|] == data && twice[..|once|] == once;
    FirstCellUnread(Lines(l, data).0.cells, NUL);
  }

  /** So it is rejected, as it should be, exactly when that line was. */
  lemma EmptyLineRejectedIff(l: Line, data: seq<Char>)
    requires ValidLine(l)
    ensures var v, w := Lines(l, data + [NEWLINE]).1, Lines(l, data + [NEWLINE] + [NEWLINE]).1;
      |v| > 0 && |w| > 0 && (!w[|w| - 1] <==> !v[|v| - 1])
  {
    hide Lines;
    EmptyLineRepeatsVerdict(l, data);
  }

  /** After a sentence that was accepted it is accepted. */
  lemma EmptyLineAccepted(l: Line, text: seq<Char>)
    requires ValidLine(l) && l.pos == 0 && 1 <= |text| <= 75
    requires Printable(text[0]) && PlainBody(text[1..])
    ensures Lines(l, text + Suffix(Xor(text[1..])) + [NEWLINE] + [NEWLINE]).1 == [true, true]
  {
    hide Lines, Suffix, Xor;
    AcceptedIffFits(l, text);
    EmptyLineRepeatsVerdict(l, text + Suffix(Xor(text[1..])));
  }

  lemma FirstCellUnread(cells: seq<Char>, c: Char)
    requires |cells| == MAX_INPUTBUFFER
    ensures Checks(cells[0 := c]) <==> Checks(cells)
  {
    StopUnread(cells, c, 1);
    var i := Stop(cells, 1);
    assert cells[0 := c][1..i] == cells[1..i];
  }

  lemma {:induction false} StopUnread(cells: seq<Char>, c: Char, i: nat)
    requires 1 <= i <= |cells|
    ensures Stop(cells[0 := c], i) == Stop(cells, i)
    decreases |cells| - i
  {
    if i < |cells| {
      StopUnread(cells, c, i + 1);
    }
  }
}
