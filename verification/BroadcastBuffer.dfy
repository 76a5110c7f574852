/** The broadcast ring of the HTTP streams: one writer, readers that keep their own place. */
module BroadcastBuffer {
  import opened Bytes
  import opened CStrings
  import opened Ring

  const BROADCAST_BUFFER_LEN := 2048

  class BroadcastBuffer {
    const cells: array<u8>
    var wpos: nat
    ghost var log: seq<u8> // everything written so far

    ghost predicate Valid()
      reads this, cells
    {
      && cells.Length == BROADCAST_BUFFER_LEN
      && wpos == |log| % BROADCAST_BUFFER_LEN
      && Mirrors(cells[..], log)
    }

    constructor ()
      ensures Valid() && fresh(cells) && log == []
    {
      cells := new u8[BROADCAST_BUFFER_LEN](_ => 0);
      wpos := 0;
      log := [];
    }

    method Put(b: u8)
      requires Valid()
      modifies this, cells
      ensures Valid() && log == old(log) + [b]
    {
      PutMirrors(cells[..], log, b);
      ModPlusOneWrap(|log|, BROADCAST_BUFFER_LEN);
      cells[wpos] := b;
      wpos := (wpos + 1) % BROADCAST_BUFFER_LEN;
      log := log + [b];
    }

    method WriteLine(line: seq<u8>)
      requires Valid()
      modifies this, cells
      ensures Valid() && log == old(log) + LineBytes(line, 2048)
    {
      hide Mirrors;
      ghost var body := Body(line, BROADCAST_BUFFER_LEN);
      var i := 0;
      while i < |line| && line[i] != 0 && i < BROADCAST_BUFFER_LEN
        invariant Valid() && 0 <= i <= |body| && log == old(log) + body[..i]
      {
        CutNext(line, 0, BROADCAST_BUFFER_LEN, i);
        Put(line[i]);
        i := i + 1;
      }
      assert i == |body| && body[..i] == body;
      Put(NEWLINE);
    }

    /** Fills `out` for a reader at place `at` of the log, of which it knows only the cell `start`. */
    method Read(start: nat, ghost at: nat, out: array<u8>, maxLen: nat) returns (count: nat, start': nat)
      requires Valid() && at <= |log| && start == at % 2048
      requires maxLen <= out.Length && out != cells
      modifies out
      ensures Valid()
      ensures count == |Taken(log, at, 2048, maxLen)|
      ensures count <= maxLen && out[..count] == Taken(log, at, 2048, maxLen)
      ensures out[count..] == old(out[count..])
      ensures start' == Moved(log, at, 2048, maxLen) % 2048
    {
      hide Mirrors, Resumes, Taken;
      ghost var was := out[..];
      ghost var from := Resumes(log, at, BROADCAST_BUFFER_LEN);
      ResumesBounds(log, at, BROADCAST_BUFFER_LEN);
      count := 0;
      start' := start;
      while start' != wpos && count < maxLen
        invariant Valid() && 0 <= count <= maxLen && from + count <= |log|
        invariant start' == (from + count) % BROADCAST_BUFFER_LEN
        invariant forall k :: 0 <= k < count ==> out[k] == log[from..][k]
        invariant forall k :: count <= k < out.Length ==> out[k] == was[k]
        decreases maxLen - count
      {
        ModPlusOneWrap(from + count, BROADCAST_BUFFER_LEN);
        CellHolds(cells[..], log, from + count);
        out[count] := cells[start'];
        start' := (start' + 1) % BROADCAST_BUFFER_LEN;
        count := count + 1;
      }
      if start' == wpos && from + count < |log| {
        ModDistinct(from + count, |log|, BROADCAST_BUFFER_LEN);
        assert false;
      }
      assert out[..count] == log[from..][..count];
      TakenIs(log, at, BROADCAST_BUFFER_LEN, maxLen);
    }

    method GetStart() returns (start: nat)
      requires Valid()
      ensures start == |log| % 2048
    {
      start := wpos;
    }
  }
}
