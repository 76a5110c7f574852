/** The SeaSmart response streams: a ring buffer each, and the linked list of those that are open. */
module SeasmartStreams {
  import opened Bytes
  import opened CStrings
  import opened Ring

  const SEASMART_BUFFER_LEN := 4096

  /** How often a line of `n` bytes finds the write position on the read position, when `lag` bytes are unread. */
  ghost function Meetings(lag: nat, n: nat): nat {
    if n <= 1 then 0 else Meetings(lag, n - 1) + if (lag + (n - 1)) % SEASMART_BUFFER_LEN == 0 then 1 else 0
  }

  /** At most once, and exactly when the line runs past what looks free. */
  lemma {:induction false} MeetingsIff(lag: nat, n: nat)
    requires n <= SEASMART_BUFFER_LEN
    ensures Meetings(lag, n) == if lag % SEASMART_BUFFER_LEN + n > SEASMART_BUFFER_LEN then 1 else 0
  {
    if n > 1 {
      MeetingsIff(lag, n - 1);
      ModSmallAdd(lag, n - 1);
    }
  }

  lemma MeetingsNext(lag: nat, i: nat)
    ensures Meetings(lag, 0) == 0
    ensures Meetings(lag, i + 1) == Meetings(lag, i) + if i > 0 && (lag + i) % SEASMART_BUFFER_LEN == 0 then 1 else 0
  {
  }

  lemma ModSmallAdd(lag: nat, i: nat)
    requires 0 < i < SEASMART_BUFFER_LEN
    ensures (lag + i) % SEASMART_BUFFER_LEN == 0 <==> lag % SEASMART_BUFFER_LEN + i == SEASMART_BUFFER_LEN
  {
  }

  /** The byte at place `k` of the log is still in its cell, not read, and `m` more bytes store another into that
      cell. */
  predicate StoredOver(written: nat, at: nat, m: nat, k: nat) {
    at <= k && written - SEASMART_BUFFER_LEN <= k && k + SEASMART_BUFFER_LEN < written + m
  }

  /** Writing `m` more bytes overwrites one that was not read. */
  ghost predicate Overwrites(written: nat, at: nat, m: nat) {
    exists k: nat :: StoredOver(written, at, m, k)
  }

  lemma OverwritesIff(written: nat, at: nat, m: nat)
    requires at <= written && m > 0
    ensures Overwrites(written, at, m) <==> written - at + m > SEASMART_BUFFER_LEN
  {
    if written - at + m > SEASMART_BUFFER_LEN {
      assert StoredOver(written, at, m, Max(at, written - SEASMART_BUFFER_LEN));
    }
  }

  /** What a reader is given if it now reads to the end. */
  function Rest(log: seq<u8>, at: nat): seq<u8>
    requires at <= |log|
  {
    Taken(log, at, SEASMART_BUFFER_LEN, |log|)
  }

  /** The line costs the reader something: it is no longer given what it would have been, followed by the line. */
  predicate Loses(log: seq<u8>, at: nat, bytes: seq<u8>)
    requires at <= |log|
  {
    Rest(log + bytes, at) != Rest(log, at) + bytes
  }

  lemma LosesIff(log: seq<u8>, at: nat, bytes: seq<u8>)
    requires at <= |log|
    ensures Loses(log, at, bytes) <==> (|log| - at) % SEASMART_BUFFER_LEN + |bytes| >= SEASMART_BUFFER_LEN
  {
    var lag, m := |log| - at, |bytes|;
    ModSum(lag, m);
    ResumesBounds(log, at, SEASMART_BUFFER_LEN);
    ResumesBounds(log + bytes, at, SEASMART_BUFFER_LEN);
    var from := Resumes(log, at, SEASMART_BUFFER_LEN);
    if lag % SEASMART_BUFFER_LEN + m < SEASMART_BUFFER_LEN {
      assert (log + bytes)[from..] == log[from..] + bytes;
    } else {
      assert |Rest(log + bytes, at)| < SEASMART_BUFFER_LEN <= |Rest(log, at) + bytes|;
    }
  }

  lemma ModSum(lag: nat, m: nat)
    ensures var sum := lag % SEASMART_BUFFER_LEN + m;
      sum < SEASMART_BUFFER_LEN ==> (lag + m) % SEASMART_BUFFER_LEN == sum
    ensures (lag + m) % SEASMART_BUFFER_LEN < SEASMART_BUFFER_LEN
  {
  }

  /** A counted overflow means that unread data was overwritten, and that the reader loses some. */
  lemma CountedMeansOverwritten(log: seq<u8>, at: nat, line: seq<u8>)
    requires at <= |log|
    requires Meetings(|log| - at, |Body(line, SEASMART_BUFFER_LEN)|) > 0
    ensures var bytes := LineBytes(line, SEASMART_BUFFER_LEN);
      Overwrites(|log|, at, |bytes|) && Loses(log, at, bytes)
  {
    var n := |Body(line, SEASMART_BUFFER_LEN)|;
    MeetingsIff(|log| - at, n);
    ModAtMostLag(|log| - at);
    OverwritesIff(|log|, at, n + 1);
    LosesIff(log, at, LineBytes(line, SEASMART_BUFFER_LEN));
  }

  lemma ModAtMostLag(lag: nat)
    ensures lag % SEASMART_BUFFER_LEN <= lag
  {
  }

  /** The count misses an overwrite when only the newline does not fit and, for a reader overrun before, whenever
      the line seems to fit; never otherwise. */
  lemma MissedIff(written: nat, at: nat, n: nat)
    requires at <= written && n <= SEASMART_BUFFER_LEN
    ensures var lag := written - at;
      Overwrites(written, at, n + 1) && Meetings(lag, n) == 0 <==>
        if lag < SEASMART_BUFFER_LEN then lag + n == SEASMART_BUFFER_LEN
        else lag % SEASMART_BUFFER_LEN + n <= SEASMART_BUFFER_LEN
  {
    MeetingsIff(written - at, n);
    OverwritesIff(written, at, n + 1);
  }

  /** The count misses a loss exactly when the line fills all that looks free, or all but one byte of it. */
  lemma LostUncountedIff(log: seq<u8>, at: nat, line: seq<u8>)
    requires at <= |log|
    ensures var n := |Body(line, SEASMART_BUFFER_LEN)|;
      var seen := (|log| - at) % SEASMART_BUFFER_LEN;
      Loses(log, at, LineBytes(line, SEASMART_BUFFER_LEN)) && Meetings(|log| - at, n) == 0 <==>
        SEASMART_BUFFER_LEN - 1 <= seen + n <= SEASMART_BUFFER_LEN
  {
    MeetingsIff(|log| - at, |Body(line, SEASMART_BUFFER_LEN)|);
    LosesIff(log, at, LineBytes(line, SEASMART_BUFFER_LEN));
  }

  /** Ten characters overwrite unread bytes of a reader 4097 behind, uncounted. */
  lemma OverrunReaderUncounted()
    ensures Overwrites(4097, 0, 11) && Meetings(4097, 10) == 0
  {
    MissedIff(4097, 0, 10);
  }

  /** Ten characters and their newline fill the ring of a reader 4085 behind: all of its 4096 bytes are lost,
      uncounted. */
  lemma FullRingLost(log: seq<u8>, at: nat, line: seq<u8>)
    requires at <= |log| && |log| - at == 4085 && |Body(line, SEASMART_BUFFER_LEN)| == 10
    ensures Rest(log + LineBytes(line, SEASMART_BUFFER_LEN), at) == [] && Meetings(4085, 10) == 0
  {
    MeetingsIff(4085, 10);
  }

  class SeasmartStream {
    const cells: array<u8>
    const pgns: seq<u32> // the requested filter; empty accepts everything
    var nextStream: SeasmartStream?
    var wpos: nat
    var start: nat
    var overflows: u16
    var nWrites: u16
    var nReads: u16
    var minFreespace: nat
    var bytesSent: u32
    ghost var log: seq<u8> // everything written so far
    ghost var at: nat      // the reader's place in it

    ghost predicate Valid()
      reads this, cells
    {
      && cells.Length == SEASMART_BUFFER_LEN
      && at <= |log|
      && wpos == |log| % SEASMART_BUFFER_LEN
      && start == at % SEASMART_BUFFER_LEN
      && Mirrors(cells[..], log)
    }

    constructor (pgns: seq<u32>)
      ensures Valid() && fresh(cells) && nextStream == null && log == [] && at == 0 && this.pgns == pgns
      ensures overflows == nWrites == nReads == 0 && bytesSent == 0 && minFreespace == SEASMART_BUFFER_LEN
    {
      cells := new u8[SEASMART_BUFFER_LEN](_ => 0);
      this.pgns := pgns;
      nextStream := null;
      wpos, start, overflows, nWrites, nReads := 0, 0, 0, 0, 0;
      minFreespace, bytesSent := SEASMART_BUFFER_LEN, 0;
      log, at := [], 0;
    }

    predicate Accepts(pgn: u32) {
      pgns == [] || pgn in pgns
    }

    method AcceptPgn(pgn: u32) returns (accepted: bool)
      ensures accepted <==> pgns == [] || pgn in pgns
      ensures accepted <==> Accepts(pgn)
    {
      if |pgns| == 0 {
        return true;
      }
      for i := 0 to |pgns|
        invariant pgn !in pgns[..i]
      {
        if pgns[i] == pgn {
          return true;
        }
      }
      return false;
    }

    method Put(b: u8)
      requires Valid()
      modifies this`wpos, this`log, cells
      ensures Valid() && log == old(log) + [b]
    {
      PutMirrors(cells[..], log, b);
      ModPlusOneWrap(|log|, SEASMART_BUFFER_LEN);
      cells[wpos] := b;
      wpos := (wpos + 1) % SEASMART_BUFFER_LEN;
      log := log + [b];
    }

    /** The loop of `writeLine`, which watches for the read position. */
    method WriteBody(line: seq<u8>)
      requires Valid()
      modifies this`wpos, this`log, this`overflows, cells
      ensures Valid() && log == old(log) + Body(line, SEASMART_BUFFER_LEN)
      ensures overflows ==
        (old(overflows) + Meetings(old(|log| - at), |Body(line, SEASMART_BUFFER_LEN)|)) % 0x1_0000
    {
      hide Mirrors, Meetings, Body;
      ghost var body := Body(line, SEASMART_BUFFER_LEN);
      ghost var lag := |log| - at;
      ghost var met: nat := 0;
      MeetingsNext(lag, 0);
      var i := 0;
      while i < |line| && line[i] != 0 && i < SEASMART_BUFFER_LEN
        invariant Valid() && 0 <= i <= |body| && log == old(log) + body[..i]
        invariant met == Meetings(lag, i) && overflows == (old(overflows) + met) % 0x1_0000
      {
        CutNext(line, 0, SEASMART_BUFFER_LEN, i);
        MeetingsNext(lag, i);
        SamePlace(|log|, at);
        if i > 0 && wpos == start {
          CountOne(old(overflows), met);
          overflows := (overflows + 1) % 0x1_0000;
          met := met + 1;
        }
        Put(line[i]);
        i := i + 1;
      }
      assert i == |body| && body[..i] == body;
    }

    method WriteLine(line: seq<u8>)
      requires Valid()
      modifies this`wpos, this`log, this`overflows, this`nWrites, this`minFreespace, cells
      ensures Valid() && log == old(log) + LineBytes(line, SEASMART_BUFFER_LEN)
      ensures overflows ==
        (old(overflows) + Meetings(old(|log| - at), |Body(line, SEASMART_BUFFER_LEN)|)) % 0x1_0000
      ensures nWrites == (old(nWrites) + 1) % 0x1_0000
      ensures minFreespace ==
        Min(old(minFreespace), if start < wpos then wpos - start else SEASMART_BUFFER_LEN - start + wpos)
    {
      hide Mirrors, Meetings;
      WriteBody(line);
      Put(NEWLINE);
      if start < wpos {
        minFreespace := Min(minFreespace, wpos - start);
      } else {
        minFreespace := Min(minFreespace, SEASMART_BUFFER_LEN - start + wpos);
      }
      nWrites := (nWrites + 1) % 0x1_0000;
    }

    /** The copying loop of `_fillBuffer`. */
    method CopyOut(out: array<u8>, maxLen: nat) returns (count: nat)
      requires Valid() && maxLen <= out.Length && out != cells
      modifies this`start, this`at, out
      ensures Valid() && at == old(Moved(log, at, SEASMART_BUFFER_LEN, maxLen))
      ensures count <= maxLen && out[..count] == old(Taken(log, at, SEASMART_BUFFER_LEN, maxLen))
      ensures out[count..] == old(out[count..])
    {
      hide Mirrors, Resumes, Taken;
      ghost var was := out[..];
      ghost var from := Resumes(log, at, SEASMART_BUFFER_LEN);
      ResumesBounds(log, at, SEASMART_BUFFER_LEN);
      count := 0;
      while count < maxLen && start != wpos
        invariant 0 <= count <= maxLen && from + count <= |log| && at == old(at)
        invariant start == (from + count) % SEASMART_BUFFER_LEN
        invariant forall k :: 0 <= k < count ==> out[k] == log[from..][k]
        invariant forall k :: count <= k < out.Length ==> out[k] == was[k]
      {
        ModPlusOneWrap(from + count, SEASMART_BUFFER_LEN);
        CellHolds(cells[..], log, from + count);
        out[count] := cells[start];
        count := count + 1;
        start := (start + 1) % SEASMART_BUFFER_LEN;
      }
      if start == wpos && from + count < |log| {
        ModDistinct(from + count, |log|, SEASMART_BUFFER_LEN);
        assert false;
      }
      assert out[..count] == log[from..][..count];
      TakenIs(log, at, SEASMART_BUFFER_LEN, maxLen);
      at := from + count;
    }

    /** `_fillBuffer`: zero bytes stand for the library's "try again". */
    method FillBuffer(out: array<u8>, maxLen: nat) returns (count: nat)
      requires Valid() && maxLen <= out.Length && out != cells
      modifies this`start, this`at, this`nReads, this`bytesSent, out
      ensures Valid() && at == old(Moved(log, at, SEASMART_BUFFER_LEN, maxLen))
      ensures count <= maxLen && out[..count] == old(Taken(log, at, SEASMART_BUFFER_LEN, maxLen))
      ensures out[count..] == old(out[count..])
      ensures nReads == (if count == 0 then old(nReads) else (old(nReads) + 1) % 0x1_0000)
      ensures bytesSent == (old(bytesSent) + count) % 0x1_0000_0000
    {
      count := CopyOut(out, maxLen);
      if count == 0 {
        return;
      }
      nReads := (nReads + 1) % 0x1_0000;
      bytesSent := (bytesSent + count) % 0x1_0000_0000;
    }
  }

  lemma CountOne(count: u16, met: nat)
    ensures ((count + met) % 0x1_0000 + 1) % 0x1_0000 == (count + (met + 1)) % 0x1_0000
  {
  }

  /** The write position meets the read position exactly when a multiple of the capacity is unread. */
  lemma SamePlace(written: nat, at: nat)
    requires at <= written
    ensures written % SEASMART_BUFFER_LEN == at % SEASMART_BUFFER_LEN <==> (written - at) % SEASMART_BUFFER_LEN == 0
  {
  }
}
