/**
 Circular buffers against the log of everything ever written to them. A reader
 is a place in that log; the buffer knows it only modulo its capacity.
 */
module Ring {
  import opened Bytes
  import opened CStrings

  const NEWLINE: u8 := 10

  /** The cells hold the last bytes of the log, each at its position modulo the capacity. */
  ghost predicate Mirrors(cells: seq<u8>, log: seq<u8>) {
    && |cells| > 0
    && forall k :: Max(0, |log| - |cells|) <= k < |log| ==> cells[k % |cells|] == log[k]
  }

  lemma CellHolds(cells: seq<u8>, log: seq<u8>, k: nat)
    requires Mirrors(cells, log) && |log| - |cells| <= k < |log|
    ensures cells[k % |cells|] == log[k]
  {
  }

  lemma ModDistinct(j: nat, k: nat, n: nat)
    requires 0 < n && j < k < j + n
    ensures j % n != k % n
  {
    if j % n == k % n {
      var a, b := j / n, k / n;
      assert j == n * a + j % n && k == n * b + k % n;
      assert k - j == n * (b - a);
      if b - a >= 1 {
        MulAtLeast(n, b - a);
      } else {
        MulAtMost(n, b - a);
      }
      assert false;
    }
  }

  lemma MulAtLeast(n: nat, m: int)
    requires m >= 1
    ensures n * m >= n
  {
  }

  lemma MulAtMost(n: nat, m: int)
    requires m <= 0
    ensures n * m <= 0
  {
  }

  /** Storing one more byte at the write position keeps the mirror. */
  lemma PutMirrors(cells: seq<u8>, log: seq<u8>, b: u8)
    requires Mirrors(cells, log)
    ensures Mirrors(cells[|log| % |cells| := b], log + [b])
  {
    var n := |cells|;
    var cells' := cells[|log| % n := b];
    forall k | Max(0, |log| + 1 - n) <= k < |log| + 1
      ensures cells'[k % n] == (log + [b])[k]
    {
      if k < |log| {
        ModDistinct(k, |log|, n);
      }
    }
  }

  /** The bytes of a line: up to a NUL or the capacity, then a newline. */
  function Body(line: seq<u8>, capacity: nat): (s: seq<u8>)
    ensures |s| <= capacity && s <= line && 0 !in s
    ensures |s| < capacity ==> |s| == |line| || line[|s|] == 0
  {
    Cut(line, 0, capacity)
  }

  function LineBytes(line: seq<u8>, capacity: nat): seq<u8> {
    Body(line, capacity) + [NEWLINE]
  }

  /** Where in the log a reader at `at` really starts: the newest place with its remainder that it has not passed. */
  function Resumes(log: seq<u8>, at: nat, capacity: nat): nat
    requires at <= |log| && capacity > 0
  {
    |log| - (|log| - at) % capacity
  }

  /** What a read of at most `max` bytes returns. */
  function Taken(log: seq<u8>, at: nat, capacity: nat, max: nat): seq<u8>
    requires at <= |log| && capacity > 0
  {
    var from := Resumes(log, at, capacity);
    ResumesBounds(log, at, capacity);
    log[from..Min(|log|, from + max)]
  }

  lemma TakenIs(log: seq<u8>, at: nat, capacity: nat, max: nat)
    requires at <= |log| && capacity > 0
    ensures var from := Resumes(log, at, capacity);
      from <= |log| && Taken(log, at, capacity, max) == log[from..][..Min(|log| - from, max)]
  {
    ResumesBounds(log, at, capacity);
  }

  /** Where the reader is afterwards. */
  function Moved(log: seq<u8>, at: nat, capacity: nat, max: nat): nat
    requires at <= |log| && capacity > 0
  {
    Resumes(log, at, capacity) + |Taken(log, at, capacity, max)|
  }

  lemma ResumesBounds(log: seq<u8>, at: nat, capacity: nat)
    requires at <= |log| && capacity > 0
    ensures at <= Resumes(log, at, capacity) <= |log| && |log| - Resumes(log, at, capacity) < capacity
    ensures Resumes(log, at, capacity) % capacity == at % capacity
    ensures Resumes(log, at, capacity) == at + capacity * ((|log| - at) / capacity)
    ensures |log| - at < capacity ==> Resumes(log, at, capacity) == at
    ensures |log| - at >= capacity ==> Resumes(log, at, capacity) >= at + capacity
  {
    var lag := |log| - at;
    var q := lag / capacity;
    assert lag == capacity * q + lag % capacity;
    assert Resumes(log, at, capacity) == at + capacity * q;
    if q > 0 {
      MulAtLeast(capacity, q);
    }
    ModPlus(at, capacity, q);
  }

  lemma {:induction false} ModPlus(a: nat, n: nat, q: nat)
    requires n > 0
    ensures (a + n * q) % n == a % n
  {
    if q > 0 {
      ModPlus(a, n, q - 1);
      assert a + n * q == a + n * (q - 1) + n;
      ModPlusOne(a + n * (q - 1), n);
    }
  }

  lemma ModPlusOne(a: nat, n: nat)
    requires n > 0
    ensures (a + n) % n == a % n
  {
    var q, r := a / n, a % n;
    assert a == n * q + r && a + n == n * (q + 1) + r;
    ModUnique(a + n, n, q + 1, r);
  }

  lemma MulNext(n: nat, q: int)
    ensures n * (q + 1) == n * q + n
  {
  }

  lemma ModPlusOneWrap(a: nat, n: nat)
    requires n > 1
    ensures (a % n + 1) % n == (a + 1) % n
  {
    var r := a % n;
    if r + 1 < n {
      ModUnique(a + 1, n, a / n, r + 1);
      ModUnique(r + 1, n, 0, r + 1);
    } else {
      MulNext(n, a / n);
      ModUnique(a + 1, n, a / n + 1, 0);
      ModUnique(r + 1, n, 1, 0);
    }
  }

  lemma MulBelow(n: int, m: int)
    requires n >= 0 && m <= -1
    ensures n * m <= -n
  {
  }

  lemma ModUnique(a: nat, n: nat, q: int, r: nat)
    requires n > 0 && a == n * q + r && r < n
    ensures a % n == r
  {
    var d := a / n - q;
    assert n * d == r - a % n by {
      assert a == n * (a / n) + a % n;
      assert n * (a / n) - n * q == n * d;
    }
    if d >= 1 {
      MulAtLeast(n, d);
    } else if d <= -1 {
      MulBelow(n, d);
    }
  }

  // ---------------------------------------------------------------------------
  // One writer, any number of readers, in any order

  /** A stretch of the log. */
  datatype Span = Span(from: nat, to: nat)

  /** A reader: where it opened, where it is, what it has been given, how many times it was lapped, and where
      in the log each read took its bytes from. */
  datatype Reader = Reader(since: nat, at: nat, got: seq<u8>, laps: nat, spans: seq<Span>)

  datatype Hub = Hub(log: seq<u8>, readers: map<nat, Reader>)

  datatype Op = WriteLine(line: seq<u8>) | Open(reader: nat) | Read(reader: nat, max: nat)

  function Serve(h: Hub, op: Op, capacity: nat): Hub
    requires capacity > 0 && forall r :: r in h.readers ==> h.readers[r].at <= |h.log|
  {
    match op
    case WriteLine(line) => h.(log := h.log + LineBytes(line, capacity))
    case Open(r) => h.(readers := h.readers[r := Reader(|h.log|, |h.log|, [], 0, [])])
    case Read(r, max) =>
      if r !in h.readers then h
      else
        var c := h.readers[r];
        h.(readers := h.readers[r := AfterRead(c, h.log, capacity, max)])
  }

  function AfterRead(c: Reader, log: seq<u8>, capacity: nat, max: nat): Reader
    requires capacity > 0 && c.at <= |log|
  {
    Reader(c.since, Moved(log, c.at, capacity, max), c.got + Taken(log, c.at, capacity, max),
           c.laps + (|log| - c.at) / capacity,
           c.spans + [Span(Resumes(log, c.at, capacity), Moved(log, c.at, capacity, max))])
  }

  /** Where a chain of spans from `since` ends. */
  function ChainEnd(since: nat, spans: seq<Span>): nat {
    if spans == [] then since else spans[|spans| - 1].to
  }

  /** Every span lies in the log and starts where the one before it ended, or whole capacities further on. */
  ghost predicate Chained(since: nat, spans: seq<Span>, written: nat, capacity: nat) {
    spans == [] ||
    var last, before := spans[|spans| - 1], ChainEnd(since, spans[..|spans| - 1]);
    && Chained(since, spans[..|spans| - 1], written, capacity)
    && before <= last.from <= last.to <= written && WholeLaps(before, last.from, capacity)
  }

  ghost predicate WholeLaps(before: nat, from: nat, capacity: nat) {
    exists laps: nat :: from == before + capacity * laps
  }

  /** The spans of the log, one after the other. */
  function Spliced(log: seq<u8>, spans: seq<Span>): seq<u8>
    requires forall i :: 0 <= i < |spans| ==> spans[i].from <= spans[i].to <= |log|
  {
    if spans == [] then []
    else
      var last := spans[|spans| - 1];
      Spliced(log, spans[..|spans| - 1]) + log[last.from..last.to]
  }

  lemma {:induction false} ChainedInside(since: nat, spans: seq<Span>, written: nat, capacity: nat)
    requires Chained(since, spans, written, capacity)
    ensures forall i :: 0 <= i < |spans| ==> spans[i].from <= spans[i].to <= written
  {
    if spans != [] {
      ChainedInside(since, spans[..|spans| - 1], written, capacity);
    }
  }

  lemma {:induction false} ChainGrows(since: nat, spans: seq<Span>, log: seq<u8>, more: seq<u8>, capacity: nat)
    requires Chained(since, spans, |log|, capacity)
    ensures Chained(since, spans, |log + more|, capacity)
    ensures forall i :: 0 <= i < |spans| ==> spans[i].from <= spans[i].to <= |log|
    ensures Spliced(log + more, spans) == Spliced(log, spans)
  {
    ChainedInside(since, spans, |log|, capacity);
    if spans != [] {
      var last := spans[|spans| - 1];
      ChainGrows(since, spans[..|spans| - 1], log, more, capacity);
      assert (log + more)[last.from..last.to] == log[last.from..last.to];
    }
  }

  /** What every reader has received, given what was written: the log from where it opened to where it is, with
      blocks of whole capacities taken out, as many as it has laps. */
  ghost predicate Accounted(c: Reader, log: seq<u8>, capacity: nat) {
    && c.at <= |log|
    && c.at == c.since + |c.got| + capacity * c.laps
    && (c.laps == 0 ==> c.got == log[c.since..c.at])
    && Chained(c.since, c.spans, |log|, capacity) && ChainEnd(c.since, c.spans) == c.at
    && (forall i :: 0 <= i < |c.spans| ==> c.spans[i].from <= c.spans[i].to <= |log|)
    && c.got == Spliced(log, c.spans)
  }

  ghost predicate AllAccounted(h: Hub, capacity: nat) {
    forall r :: r in h.readers ==> Accounted(h.readers[r], h.log, capacity)
  }

  /** A read adds one span. */
  lemma SpanAdded(since: nat, spans: seq<Span>, log: seq<u8>, from: nat, to: nat, capacity: nat)
    requires Chained(since, spans, |log|, capacity)
    requires ChainEnd(since, spans) <= from <= to <= |log| && WholeLaps(ChainEnd(since, spans), from, capacity)
    ensures var spans' := spans + [Span(from, to)];
      && Chained(since, spans', |log|, capacity) && ChainEnd(since, spans') == to
      && (forall i :: 0 <= i < |spans'| ==> spans'[i].from <= spans'[i].to <= |log|)
      && Spliced(log, spans') == Spliced(log, spans) + log[from..to]
  {
    hide WholeLaps;
    ChainedInside(since, spans, |log|, capacity);
    assert (spans + [Span(from, to)])[..|spans|] == spans;
  }

  lemma Resumption(log: seq<u8>, at: nat, capacity: nat, max: nat)
    requires capacity > 0 && at <= |log|
    ensures var from, to := Resumes(log, at, capacity), Moved(log, at, capacity, max);
      && at <= from <= to <= |log| && from == at + capacity * ((|log| - at) / capacity)
      && Taken(log, at, capacity, max) == log[from..to]
      && WholeLaps(at, from, capacity)
  {
    ResumesBounds(log, at, capacity);
    hide Resumes;
  }

  lemma ReadAccounted(c: Reader, log: seq<u8>, capacity: nat, max: nat)
    requires capacity > 0 && Accounted(c, log, capacity)
    ensures Accounted(AfterRead(c, log, capacity, max), log, capacity)
  {
    hide Resumes, Moved, Taken, WholeLaps, Chained, ChainEnd, Spliced;
    Resumption(log, c.at, capacity, max);
    var q := (|log| - c.at) / capacity;
    LapsAdd(capacity, c.laps, q);
    var from, to := Resumes(log, c.at, capacity), Moved(log, c.at, capacity, max);
    SpanAdded(c.since, c.spans, log, from, to, capacity);
    if c.laps == 0 && q == 0 {
      assert capacity * q == 0;
      assert log[c.since..c.at] + log[c.at..to] == log[c.since..to];
    }
  }

  lemma LapsAdd(n: nat, laps: nat, q: int)
    ensures n * (laps + q) == n * laps + n * q
  {
  }

  function Hubs(ops: seq<Op>, capacity: nat): (h: Hub)
    requires capacity > 0
    ensures forall r :: r in h.readers ==> h.readers[r].at <= |h.log|
  {
    if ops == [] then Hub([], map[])
    else
      var h := Hubs(ops[..|ops| - 1], capacity);
      ServeBounds(h, ops[|ops| - 1], capacity);
      Serve(h, ops[|ops| - 1], capacity)
  }

  lemma ServeBounds(h: Hub, op: Op, capacity: nat)
    requires capacity > 0 && forall r :: r in h.readers ==> h.readers[r].at <= |h.log|
    ensures var h' := Serve(h, op, capacity); forall r :: r in h'.readers ==> h'.readers[r].at <= |h'.log|
  {
    if op.Read? && op.reader in h.readers {
      ResumesBounds(h.log, h.readers[op.reader].at, capacity);
    }
  }

  /** Everything written: each line as far as there is room for it, and a newline. */
  function Written(ops: seq<Op>, capacity: nat): seq<u8> {
    if ops == [] then []
    else
      var op := ops[|ops| - 1];
      Written(ops[..|ops| - 1], capacity) + if op.WriteLine? then Cut(op.line, 0, capacity) + [10] else []
  }

  lemma {:induction false} LogIsWritten(ops: seq<Op>, capacity: nat)
    requires capacity > 0
    ensures Hubs(ops, capacity).log == Written(ops, capacity)
  {
    hide Moved, Taken, Cut;
    if ops != [] {
      LogIsWritten(ops[..|ops| - 1], capacity);
    }
  }

  predicate LastOpen(ops: seq<Op>, r: nat, k: nat) {
    k < |ops| && ops[k] == Open(r) && forall j :: k < j < |ops| ==> ops[j] != Open(r)
  }

  /** A reader starts where the log ended when it opened. */
  lemma {:induction false} StartsWhereOpened(ops: seq<Op>, capacity: nat, r: nat, k: nat)
    requires capacity > 0 && LastOpen(ops, r, k)
    ensures var h := Hubs(ops, capacity); r in h.readers && h.readers[r].since == |Written(ops[..k], capacity)|
  {
    hide Moved, Taken, Written;
    var n := |ops| - 1;
    if k < n {
      StartsWhereOpened(ops[..n], capacity, r, k);
      assert ops[..n][..k] == ops[..k];
    } else {
      LogIsWritten(ops[..n], capacity);
    }
  }

  /** How much a read returns: what is unread, less whole capacities, as far as it asks for it. */
  lemma ReadTakes(log: seq<u8>, at: nat, capacity: nat, max: nat)
    requires at <= |log| && capacity > 0
    ensures |Taken(log, at, capacity, max)| == Min(max, (|log| - at) % capacity)
    ensures Taken(log, at, capacity, max) <= log[|log| - (|log| - at) % capacity..]
  {
    ResumesBounds(log, at, capacity);
  }

  /** A reader that was never lapped, and now reads all it can, has everything written since it opened. */
  lemma DrainedReader(ops: seq<Op>, capacity: nat, r: nat, k: nat, max: nat)
    requires capacity > 0 && LastOpen(ops, r, k) && max >= capacity
    ensures var h, log := Hubs(ops + [Read(r, max)], capacity), Written(ops, capacity);
      var from := |Written(ops[..k], capacity)|;
      r in h.readers && from <= |log| && (h.readers[r].laps == 0 ==> h.readers[r].got == log[from..])
  {
    hide AfterRead, Written, Accounted, LineBytes;
    var run := ops + [Read(r, max)];
    assert run[..|ops|] == ops && run[..k] == ops[..k];
    StartsWhereOpened(ops, capacity, r, k);
    LogIsWritten(ops, capacity);
    EveryReaderAccounted(ops, capacity);
    Drained(Hubs(ops, capacity).readers[r], Written(ops, capacity), capacity, max);
  }

  lemma Drained(c: Reader, log: seq<u8>, capacity: nat, max: nat)
    requires capacity > 0 && c.at <= |log| && Accounted(c, log, capacity) && max >= capacity
    ensures var c' := AfterRead(c, log, capacity, max);
      c.since <= |log| && (c'.laps == 0 ==> c'.got == log[c.since..])
  {
    hide Resumes, Moved, Taken, Chained, Spliced, ChainEnd;
    ReadAccounted(c, log, capacity, max);
    CatchesUp(c, log, capacity, max);
    LapsAtLeast(capacity, c.laps);
  }

  lemma LapsAtLeast(n: nat, laps: nat)
    ensures n * laps >= 0
  {
  }

  lemma CatchesUp(c: Reader, log: seq<u8>, capacity: nat, max: nat)
    requires capacity > 0 && c.at <= |log| && max >= capacity
    ensures AfterRead(c, log, capacity, max).at == |log|
  {
    ResumesBounds(log, c.at, capacity);
  }

  /** In every run, a reader has received the log from where it opened to where it is, less blocks of whole
      capacities; a reader never lapped has received every byte of it, in order and without a gap. */
  lemma {:induction false} EveryReaderAccounted(ops: seq<Op>, capacity: nat)
    requires capacity > 0
    ensures AllAccounted(Hubs(ops, capacity), capacity)
  {
    if ops != [] {
      var h, op := Hubs(ops[..|ops| - 1], capacity), ops[|ops| - 1];
      EveryReaderAccounted(ops[..|ops| - 1], capacity);
      if op.Read? && op.reader in h.readers {
        ReadAccounted(h.readers[op.reader], h.log, capacity, op.max);
      } else if op.WriteLine? {
        forall r | r in h.readers
          ensures Accounted(h.readers[r], h.log + LineBytes(op.line, capacity), capacity)
        {
          WriteAccounted(h.readers[r], h.log, LineBytes(op.line, capacity), capacity);
        }
      }
    }
  }

  lemma WriteAccounted(c: Reader, log: seq<u8>, more: seq<u8>, capacity: nat)
    requires Accounted(c, log, capacity)
    ensures Accounted(c, log + more, capacity)
  {
    ChainGrows(c.since, c.spans, log, more, capacity);
    if c.laps == 0 {
      assert (log + more)[c.since..c.at] == log[c.since..c.at];
    }
  }

  /** A read laps its reader exactly when a whole capacity has been written since the reader's place. */
  lemma LappedIff(h: Hub, r: nat, max: nat, capacity: nat)
    requires capacity > 0 && forall r :: r in h.readers ==> h.readers[r].at <= |h.log|
    requires r in h.readers
    ensures Serve(h, Read(r, max), capacity).readers[r].laps == h.readers[r].laps
      <==> |h.log| - h.readers[r].at < capacity
  {
    ResumesBounds(h.log, h.readers[r].at, capacity);
  }
}
