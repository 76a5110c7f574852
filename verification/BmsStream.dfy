/**
 Reassembly of the reply stream: `JdbBMS::update` called on bytes that arrive in
 arbitrary chunks, against the frames the BMS sent (`JBDBmsSimulator::finish`).
 */
module BmsStream {
  import opened Bytes
  import opened BmsFrame

  /** A reply that fits the receive buffer. */
  type Reply = f: Frame | |f.payload| <= MAX_PAYLOAD witness Frame(0, [])

  /** What `finish` makes of a header and data: the checksum and the end byte come behind them. */
  ghost function Finished(register: u8, response: u8, data: seq<u8>): (s: seq<u8>)
    requires |data| <= 0xff
    ensures |s| == 7 + |data|
  {
    var body := [response, |data|] + data;
    [START_OF_PACKET, register] + body + [Checksum(body) / 0x100, Checksum(body) % 0x100, END_OF_PACKET]
  }

  /** The bytes the BMS sends for a reply. */
  ghost function Encode(f: Reply): (s: seq<u8>)
    ensures |s| == 7 + |f.payload|
  {
    Finished(f.register, RESPONSE_OK, f.payload)
  }

  ghost function Stream(fs: seq<Reply>): seq<u8> {
    if fs == [] then [] else Encode(fs[0]) + Stream(fs[1..])
  }

  ghost predicate Harmless(s: seq<u8>)
    requires |s| > 4
  {
    Inspect(s).Incomplete? || Inspect(s).ErrorReply?
  }

  /** No start byte inside the frame opens a candidate that is complete, and is more than an
      error reply, before the frame itself is complete. */
  ghost predicate Transparent(f: Reply) {
    var s := Encode(f);
    forall j :: 1 <= j < |s| - 5 && s[j] == START_OF_PACKET ==> Harmless(s[j..|s| - 1])
  }

  ghost predicate AllTransparent(fs: seq<Reply>) {
    forall i :: 0 <= i < |fs| ==> Transparent(fs[i])
  }

  /** The link between the UART and the decoded replies: bytes received but not yet read, the
      receive buffer, the replies accepted so far, and whether a byte was stored past the buffer. */
  datatype Link = Link(queue: seq<u8>, buffer: Buffer, decoded: seq<Frame>, overrun: bool)

  ghost function Start(cells: seq<u8>): Link {
    Link([], Buffer(cells, 0), [], false)
  }

  /** `chunk` arrives, then `update` runs once. It reads until the buffer is full. */
  ghost function Step(k: Link, chunk: seq<u8>): (k': Link)
    requires k.buffer.Valid()
    ensures k'.buffer.Valid()
  {
    var queue := k.queue + chunk;
    if queue == [] then k
    else if k.buffer.wpos == BUFFER_LENGTH then k.(queue := queue, overrun := true)
    else
      var n := Min(|queue|, BUFFER_LENGTH - k.buffer.wpos);
      var (buffer, pass) := Receive(k.buffer, queue[..n]);
      Link(queue[n..], buffer, k.decoded + pass.frames, k.overrun)
  }

  ghost function Run(k: Link, chunks: seq<seq<u8>>): (k': Link)
    requires k.buffer.Valid()
    ensures k'.buffer.Valid()
    decreases |chunks|
  {
    if chunks == [] then k else Run(Step(k, chunks[0]), chunks[1..])
  }

  ghost function Flatten(chunks: seq<seq<u8>>): seq<u8> {
    if chunks == [] then [] else chunks[0] + Flatten(chunks[1..])
  }

  /** `polls` calls of `update` during which nothing arrives. */
  ghost function Idle(polls: nat): seq<seq<u8>> {
    seq(polls, _ => [])
  }

  // ---------------------------------------------------------------------------
  // A frame is recognised where it starts, and nowhere inside itself

  /** What `finish` builds, `processFrame` accepts with the same register and payload. */
  lemma EncodeAccepted(f: Reply, rest: seq<u8>)
    ensures Inspect(Encode(f) + rest) == Accepted(f, |Encode(f)|)
  {
    var s := Encode(f) + rest;
    assert s[2..4 + |f.payload|] == [RESPONSE_OK, |f.payload|] + f.payload;
    assert s[4..4 + |f.payload|] == f.payload;
  }

  /** A candidate that is harmless stays so on less data. */
  lemma HarmlessPrefix(s: seq<u8>, m: nat)
    requires 4 < m <= |s| && Harmless(s)
    ensures Harmless(s[..m])
  {
    var size := s[3] as int + 7;
    if size <= m {
      assert s[..m][2..size - 3] == s[2..size - 3];
    }
  }

  /** `s` is an unfinished frame `f`. */
  ghost predicate Inside(s: seq<u8>, f: Reply) {
    s < Encode(f)
  }

  lemma UnfinishedIncomplete(f: Reply, s: seq<u8>)
    requires Inside(s, f) && |s| > 4
    ensures Inspect(s).Incomplete?
  {
    assert s[3] == Encode(f)[3];
  }

  lemma {:induction false} ScanInside(f: Reply, s: seq<u8>, j: nat, at: nat, p: Pass)
    requires Transparent(f) && Inside(s, f) && j <= |s|
    ensures var r := Scan(s[j..], at, p); r == p.(answered := r.answered)
    decreases |s| - j
  {
    hide Encode, Inspect;
    var t := s[j..];
    if j < |s| {
      assert t[1..] == s[j + 1..];
      ScanInside(f, s, j + 1, at + 1, p);
      if t[0] == START_OF_PACKET && |t| > 4 {
        var e := Encode(f);
        if j > 0 {
          HarmlessPrefix(e[j..|e| - 1], |t|);
          assert e[j..|e| - 1][..|t|] == t;
        } else {
          assert t == s;
          UnfinishedIncomplete(f, s);
        }
        ScanInside(f, s, j + 1, at + 1, p.(answered := true));
      }
    }
  }

  /** The data is `n` whole frames of the stream and part of the next. */
  ghost predicate Holds(data: seq<u8>, fs: seq<Reply>, n: nat) {
    && n < |fs|
    && Stream(fs[..n]) <= data
    && Inside(data[|Stream(fs[..n])|..], fs[n])
  }

  lemma {:induction false} WholeFrames(data: seq<u8>, fs: seq<Reply>) returns (n: nat)
    requires data < Stream(fs)
    ensures Holds(data, fs, n)
  {
    var e := Encode(fs[0]);
    if |data| < |e| {
      n := 0;
      assert fs[..0] == [] && data[0..] == data;
    } else {
      var m := WholeFrames(data[|e|..], fs[1..]);
      n := m + 1;
      HoldsOne(data, fs, n);
    }
  }

  /** The first whole frame can be split off. */
  lemma HoldsOne(data: seq<u8>, fs: seq<Reply>, n: nat)
    requires 0 < n < |fs| && Encode(fs[0]) <= data
    ensures Stream(fs[..n]) == Encode(fs[0]) + Stream(fs[1..][..n - 1])
    ensures Holds(data, fs, n) <==> Holds(data[|Encode(fs[0])|..], fs[1..], n - 1)
  {
    var e := Encode(fs[0]);
    assert fs[..n][1..] == fs[1..][..n - 1];
    assert data == e + data[|e|..];
    if Stream(fs[1..][..n - 1]) <= data[|e|..] {
      assert data[|Stream(fs[..n])|..] == data[|e|..][|Stream(fs[1..][..n - 1])|..];
    }
  }

  /** A whole frame is taken off the front of the data. */
  lemma ScanFirst(f: Reply, rest: seq<u8>, at: nat, p: Pass)
    ensures Scan(Encode(f) + rest, at, p)
         == Scan(rest, at + |Encode(f)|, Pass(p.frames + [f], at + |Encode(f)|, p.corrupt, true))
  {
    EncodeAccepted(f, rest);
    assert (Encode(f) + rest)[|Encode(f)|..] == rest;
  }

  /** Scanning whole frames and an unfinished one accepts exactly the whole ones, in order. */
  lemma {:induction false} ScanHolds(data: seq<u8>, fs: seq<Reply>, n: nat, at: nat, p: Pass)
    requires AllTransparent(fs) && Holds(data, fs, n) && !p.corrupt
    ensures var r := Scan(data, at, p);
      && r.frames == p.frames + fs[..n]
      && r.processedTo == (if n == 0 then p.processedTo else at + |Stream(fs[..n])|)
      && !r.corrupt
    decreases n
  {
    hide Encode, Scan;
    if n == 0 {
      assert data[0..] == data;
      ScanInside(fs[0], data, 0, at, p);
    } else {
      var size := |Encode(fs[0])|;
      HoldsFirst(data, fs, n);
      HoldsOne(data, fs, n);
      assert data == Encode(fs[0]) + data[size..];
      ScanFirst(fs[0], data[size..], at, p);
      var p1 := Pass(p.frames + [fs[0]], at + size, false, true);
      ScanHolds(data[size..], fs[1..], n - 1, at + size, p1);
      assert p1.frames + fs[1..][..n - 1] == p.frames + fs[..n];
    }
  }

  lemma HoldsFirst(data: seq<u8>, fs: seq<Reply>, n: nat)
    requires 0 < n && Holds(data, fs, n)
    ensures Encode(fs[0]) <= data
  {
    assert fs[..n][0] == fs[0];
  }

  // ---------------------------------------------------------------------------
  // Every run keeps the undecoded part of the stream in the buffer and the queue

  ghost function Undecoded(k: Link): seq<u8>
    requires k.buffer.Valid()
  {
    k.buffer.Data() + k.queue
  }

  /** What is undecoded and still to come continues the stream at a frame boundary. */
  ghost predicate Pending(k: Link, coming: seq<u8>, fs: seq<Reply>)
    requires k.buffer.Valid()
  {
    && fs != [] && AllTransparent(fs)
    && Undecoded(k) + coming < Stream(fs)
    && Inside(k.buffer.Data(), fs[0])
    && !k.overrun
  }

  lemma {:induction false} StreamSplit(fs: seq<Reply>, n: nat)
    requires n <= |fs|
    ensures Stream(fs) == Stream(fs[..n]) + Stream(fs[n..])
  {
    hide Encode;
    if n == 0 {
      assert fs[..0] == [] && fs[0..] == fs;
    } else {
      StreamSplit(fs[1..], n - 1);
      assert fs[..n][1..] == fs[1..][..n - 1];
      assert fs[n..] == fs[1..][n - 1..];
    }
  }

  lemma SettleShifts(b: Buffer, p: Pass)
    requires b.Valid() && p.processedTo <= b.wpos && !p.corrupt
    ensures Settle(b, p).Data() == b.Data()[p.processedTo..]
  {
  }

  /** After the pass the buffer holds exactly what followed the whole frames. */
  lemma ReceiveHolds(b: Buffer, bytes: seq<u8>, fs: seq<Reply>, n: nat)
    requires b.Valid() && b.wpos + |bytes| <= BUFFER_LENGTH
    requires AllTransparent(fs) && Holds(b.Data() + bytes, fs, n)
    ensures var (b', p) := Receive(b, bytes);
      && p.frames == fs[..n]
      && b.Data() + bytes == Stream(fs[..n]) + b'.Data()
      && Inside(b'.Data(), fs[n])
  {
    hide Encode, Stream, Scan, Settle, Fill;
    var data := b.Data() + bytes;
    var (b', p) := Receive(b, bytes);
    ScanHolds(data, fs, n, 0, NOTHING);
    assert [] + fs[..n] == fs[..n];
    SettleShifts(Fill(b, bytes), p);
    var whole := Stream(fs[..n]);
    if n == 0 {
      StreamSplit(fs, 0);
      assert fs[0..] == fs && whole == [];
      assert data[0..] == data;
    } else {
      HoldsFirst(data, fs, n);
      HoldsOne(data, fs, n);
    }
  }

  lemma PrefixRest<T>(a: seq<T>, b: seq<T>, c: seq<T>)
    requires a + b < a + c
    ensures b < c
  {
    assert forall i :: 0 <= i < |b| ==> b[i] == (a + b)[|a| + i] == (a + c)[|a| + i] == c[i];
  }

  lemma Cancel<T>(a: seq<T>, b: seq<T>, c: seq<T>)
    requires a + b == a + c
    ensures b == c
  {
    assert b == (a + b)[|a|..];
  }

  /** What one call of `update` does when there is something to read and room for it. */
  lemma StepReceives(k: Link, chunk: seq<u8>, fs: seq<Reply>, n: nat, m: nat)
    requires k.buffer.Valid() && AllTransparent(fs)
    requires 0 < m == Min(|k.queue + chunk|, BUFFER_LENGTH - k.buffer.wpos)
    requires Holds(k.buffer.Data() + (k.queue + chunk)[..m], fs, n)
    ensures var k' := Step(k, chunk);
      && k'.decoded == k.decoded + fs[..n]
      && k.buffer.Data() + (k.queue + chunk)[..m] == Stream(fs[..n]) + k'.buffer.Data()
      && k'.queue == (k.queue + chunk)[m..]
      && k'.overrun == k.overrun
      && Inside(k'.buffer.Data(), fs[n])
  {
    hide Encode, Stream, Scan;
    ReceiveHolds(k.buffer, (k.queue + chunk)[..m], fs, n);
  }

  /** One call of `update` decodes some frames and keeps the rest of the stream. */
  lemma StepPending(k: Link, chunk: seq<u8>, coming: seq<u8>, fs: seq<Reply>) returns (n: nat)
    requires k.buffer.Valid() && Pending(k, chunk + coming, fs)
    ensures n < |fs| && Step(k, chunk).decoded == k.decoded + fs[..n]
    ensures Pending(Step(k, chunk), coming, fs[n..])
    ensures Undecoded(k) + chunk == Stream(fs[..n]) + Undecoded(Step(k, chunk))
    ensures k.queue + chunk == [] || |Step(k, chunk).queue| < |k.queue + chunk|
  {
    hide Encode, Stream, Receive, Holds;
    var queue := k.queue + chunk;
    if queue == [] {
      n := 0;
      StreamSplit(fs, 0);
      assert fs[..0] == [] && fs[0..] == fs;
      assert chunk + coming == coming;
    } else {
      BufferHasRoom(k, fs[0]);
      var m := Min(|queue|, BUFFER_LENGTH - k.buffer.wpos);
      ReadPart(k.buffer.Data(), k.queue, chunk, coming, m, Stream(fs));
      n := WholeFrames(k.buffer.Data() + queue[..m], fs);
      StepReceives(k, chunk, fs, n, m);
      StreamSplit(fs, n);
      RestOfStream(k.buffer.Data(), k.queue, chunk, coming, m,
                   Stream(fs[..n]), Step(k, chunk).buffer.Data(), Stream(fs[n..]));
    }
  }

  /** Reading `m` bytes of the queue behind the data in the buffer. */
  lemma ReadPart<T>(data: seq<T>, queue: seq<T>, chunk: seq<T>, coming: seq<T>, m: nat, all: seq<T>)
    requires data + queue + (chunk + coming) < all && m <= |queue + chunk|
    ensures data + (queue + chunk)[..m] < all
  {
    assert data + queue + (chunk + coming) == (data + (queue + chunk)[..m]) + ((queue + chunk)[m..] + coming);
  }

  lemma RestOfStream<T>(data: seq<T>, queue: seq<T>, chunk: seq<T>, coming: seq<T>, m: nat,
                        whole: seq<T>, left: seq<T>, rest: seq<T>)
    requires data + queue + (chunk + coming) < whole + rest && m <= |queue + chunk|
    requires data + (queue + chunk)[..m] == whole + left
    ensures left + (queue + chunk)[m..] + coming < rest
    ensures data + queue + chunk == whole + (left + (queue + chunk)[m..])
  {
    var q := (queue + chunk)[m..];
    assert data + queue + (chunk + coming) == (data + (queue + chunk)[..m]) + (q + coming);
    assert (whole + left) + (q + coming) == whole + (left + q + coming);
    PrefixRest(whole, left + q + coming, rest);
    assert data + queue + chunk == (data + (queue + chunk)[..m]) + q;
    assert (whole + left) + q == whole + (left + q);
  }

  lemma BufferHasRoom(k: Link, f: Reply)
    requires k.buffer.Valid() && Inside(k.buffer.Data(), f)
    ensures k.buffer.wpos < BUFFER_LENGTH
  {
  }

  lemma {:induction false} StreamJoin(fs: seq<Reply>, m: nat, l: nat)
    requires m + l <= |fs|
    ensures Stream(fs[..m + l]) == Stream(fs[..m]) + Stream(fs[m..][..l])
    ensures fs[..m + l] == fs[..m] + fs[m..][..l]
  {
    StreamSplit(fs[..m + l], m);
    assert fs[..m + l][..m] == fs[..m];
    assert fs[..m + l][m..] == fs[m..m + l] == fs[m..][..l];
  }

  lemma {:induction false} RunPending(k: Link, chunks: seq<seq<u8>>, fs: seq<Reply>) returns (n: nat)
    requires k.buffer.Valid() && Pending(k, Flatten(chunks), fs)
    ensures n < |fs| && Run(k, chunks).decoded == k.decoded + fs[..n]
    ensures Pending(Run(k, chunks), [], fs[n..])
    ensures Undecoded(k) + Flatten(chunks) == Stream(fs[..n]) + Undecoded(Run(k, chunks))
    decreases |chunks|
  {
    hide Encode, Stream, Step, Undecoded;
    if chunks == [] {
      n := 0;
      StreamSplit(fs, 0);
      assert fs[..0] == [] && fs[0..] == fs;
    } else {
      var m := StepPending(k, chunks[0], Flatten(chunks[1..]), fs);
      var l := RunPending(Step(k, chunks[0]), chunks[1..], fs[m..]);
      n := m + l;
      assert fs[m..][l..] == fs[n..];
      StreamJoin(fs, m, l);
      Regroup(Undecoded(k), chunks[0], Flatten(chunks[1..]), Stream(fs[..m]), Undecoded(Step(k, chunks[0])),
              Stream(fs[m..][..l]), Undecoded(Run(k, chunks)));
      assert k.decoded + fs[..m] + fs[m..][..l] == k.decoded + (fs[..m] + fs[m..][..l]);
    }
  }

  lemma Regroup<T>(before: seq<T>, first: seq<T>, rest: seq<T>, m: seq<T>, between: seq<T>, l: seq<T>, after: seq<T>)
    requires before + first == m + between && between + rest == l + after
    ensures before + (first + rest) == m + l + after
  {
    assert before + (first + rest) == (before + first) + rest;
    assert (m + between) + rest == m + (between + rest);
    assert m + (l + after) == m + l + after;
  }

  /** Calls of `update` with nothing arriving read the queue empty. */
  lemma {:induction false} IdleDrains(k: Link, polls: nat, fs: seq<Reply>)
    requires k.buffer.Valid() && Pending(k, [], fs) && |k.queue| <= polls
    ensures Run(k, Idle(polls)).queue == []
    decreases polls
  {
    hide Encode, Stream, Receive;
    if polls > 0 {
      assert Idle(polls)[0] == [] && Idle(polls)[1..] == Idle(polls - 1);
      var none: seq<u8> := [];
      assert none + none == none && k.queue + none == k.queue;
      var n := StepPending(k, none, none, fs);
      IdleDrains(Step(k, none), polls - 1, fs[n..]);
    }
  }

  lemma StreamGrows(fs: seq<Reply>, n: nat, m: nat)
    requires n < m <= |fs|
    ensures |Stream(fs[..m])| >= |Stream(fs[..n])| + |Encode(fs[n])|
  {
    StreamSplit(fs[..m], n);
    assert fs[..m][..n] == fs[..n] && fs[..m][n..][0] == fs[n];
  }

  /** A stream is cut into whole frames and an unfinished one in only one way. */
  lemma WholeFramesUnique(fs: seq<Reply>, n: nat, m: nat, s: seq<u8>, t: seq<u8>)
    requires n < |fs| && m < |fs| && Inside(s, fs[n]) && Inside(t, fs[m])
    requires Stream(fs[..n]) + s == Stream(fs[..m]) + t
    ensures n == m && s == t
  {
    assert |Stream(fs[..n])| + |s| == |Stream(fs[..m])| + |t|;
    if n < m {
      StreamGrows(fs, n, m);
    } else if m < n {
      StreamGrows(fs, m, n);
    } else {
      assert s == (Stream(fs[..n]) + s)[|Stream(fs[..n])|..];
    }
  }

  /** A run that has read the whole stream has decoded it. */
  lemma ReadMeansDecoded(k: Link, frames: seq<Reply>, next: Reply, tail: seq<u8>, n: nat)
    requires k.buffer.Valid() && n <= |frames|
    requires Pending(k, [], (frames + [next])[n..]) && k.queue == [] && Inside(tail, next)
    requires Stream(frames[..n]) + Undecoded(k) == Stream(frames) + tail
    ensures n == |frames| && k.buffer.Data() == tail
  {
    var fs := frames + [next];
    assert Undecoded(k) == k.buffer.Data();
    assert fs[..n] == frames[..n] && fs[..|frames|] == frames;
    WholeFramesUnique(fs, n, |frames|, k.buffer.Data(), tail);
  }

  lemma StartPending(frames: seq<Reply>, next: Reply, tail: seq<u8>, cells: seq<u8>)
    requires AllTransparent(frames + [next]) && Inside(tail, next) && |cells| == BUFFER_LENGTH
    ensures Pending(Start(cells), Stream(frames) + tail, frames + [next])
    ensures Undecoded(Start(cells)) == []
  {
    var fs := frames + [next];
    StreamSplit(fs, |frames|);
    assert fs[..|frames|] == frames && fs[|frames|..] == [next];
    assert Stream([next]) == Encode(next);
    assert Undecoded(Start(cells)) + (Stream(frames) + tail) == Stream(frames) + tail;
  }

  /** Every split of the stream into chunks decodes the frames sent, in order and once each, never
      stores past the buffer, and keeps the undecoded bytes. When all bytes have been read,
      everything whole is decoded and the buffer is the unfinished frame. */
  lemma ChunkingInvariance(frames: seq<Reply>, next: Reply, tail: seq<u8>, chunks: seq<seq<u8>>, cells: seq<u8>)
    returns (n: nat)
    requires AllTransparent(frames + [next]) && Inside(tail, next) && |cells| == BUFFER_LENGTH
    requires Flatten(chunks) == Stream(frames) + tail
    ensures var k := Run(Start(cells), chunks);
      && !k.overrun
      && n <= |frames| && k.decoded == frames[..n]
      && k.buffer.Data() + k.queue == Stream(frames[n..]) + tail
      && (k.queue == [] ==> k.decoded == frames && k.buffer.Data() == tail)
    ensures Pending(Run(Start(cells), chunks), [], (frames + [next])[n..])
  {
    hide Encode, Stream, Step, Run;
    var fs := frames + [next];
    StartPending(frames, next, tail, cells);
    n := RunPending(Start(cells), chunks, fs);
    var k := Run(Start(cells), chunks);
    assert fs[..n] == frames[..n];
    assert Start(cells).decoded + frames[..n] == frames[..n];
    StreamSplit(frames, n);
    assert Stream(frames) + tail == Stream(frames[..n]) + (Stream(frames[n..]) + tail);
    Cancel(Stream(frames[..n]), Undecoded(k), Stream(frames[n..]) + tail);
    if k.queue == [] {
      ReadMeansDecoded(k, frames, next, tail, n);
    }
  }

  /** After the last chunk, polling reads and decodes whatever is left in the queue. */
  lemma PollingCompletes(frames: seq<Reply>, next: Reply, tail: seq<u8>, chunks: seq<seq<u8>>,
                         cells: seq<u8>, polls: nat)
    requires AllTransparent(frames + [next]) && Inside(tail, next) && |cells| == BUFFER_LENGTH
    requires Flatten(chunks) == Stream(frames) + tail
    requires polls >= |Stream(frames) + tail|
    ensures var k := Run(Run(Start(cells), chunks), Idle(polls));
      k.queue == [] && k.decoded == frames && k.buffer.Data() == tail && !k.overrun
  {
    hide Encode, Stream, Step, Run;
    var fs := frames + [next];
    var n := ChunkingInvariance(frames, next, tail, chunks, cells);
    var k := Run(Start(cells), chunks);
    StreamSplit(frames, n);
    IdleDrains(k, polls, fs[n..]);
    FlattenIdle(polls);
    var l := RunPending(k, Idle(polls), fs[n..]);
    var k' := Run(k, Idle(polls));
    assert fs[n..] == frames[n..] + [next] && fs[n..][..l] == frames[n..][..l];
    assert Undecoded(k) + Flatten(Idle(polls)) == Undecoded(k);
    ReadMeansDecoded(k', frames[n..], next, tail, l);
    assert frames == frames[..n] + frames[n..];
  }

  lemma {:induction false} FlattenIdle(polls: nat)
    ensures Flatten(Idle(polls)) == []
  {
    if polls > 0 {
      assert Idle(polls)[1..] == Idle(polls - 1);
      FlattenIdle(polls - 1);
    }
  }

  // ---------------------------------------------------------------------------
  // Transparency is exactly what chunking invariance needs

  lemma {:induction false} DecodedGrows(k: Link, chunks: seq<seq<u8>>)
    requires k.buffer.Valid()
    ensures k.decoded <= Run(k, chunks).decoded
    decreases |chunks|
  {
    hide Receive;
    if chunks != [] {
      DecodedGrows(Step(k, chunks[0]), chunks[1..]);
    }
  }

  lemma {:induction false} IdleChangesNothing(k: Link, polls: nat)
    requires k.buffer.Valid() && k.queue == []
    ensures Run(k, Idle(polls)) == k
    decreases polls
  {
    if polls > 0 {
      assert Idle(polls)[0] == [] && Idle(polls)[1..] == Idle(polls - 1);
      IdleChangesNothing(k, polls - 1);
    }
  }

  /** A harmful candidate at offset `j` of the unfinished frame. */
  ghost predicate HarmfulAt(f: Reply, j: nat) {
    var s := Encode(f);
    1 <= j < |s| - 5 && s[j] == START_OF_PACKET && !Harmless(s[j..|s| - 1])
  }

  /** The scan of all but the last byte ends corrupt, or accepts a shorter frame than the one sent. */
  lemma {:induction false} ScanHarmful(f: Reply, i: nat, j: nat, answered: bool)
    requires i <= j && HarmfulAt(f, j) && forall k :: 1 <= k < j ==> !HarmfulAt(f, k)
    ensures var s := Encode(f);
      var r := Scan(s[i..|s| - 1], i, NOTHING.(answered := answered));
      if r.frames == [] then r.corrupt && r.processedTo == 0
      else |r.frames[0].payload| < |f.payload|
    decreases j - i
  {
    hide Encode, Inspect;
    var s := Encode(f);
    var t := s[i..|s| - 1];
    if i == j {
      HarmfulHere(f, t, i, answered);
    } else {
      assert t[1..] == s[i + 1..|s| - 1];
      ScanHarmful(f, i + 1, j, answered);
      ScanHarmful(f, i + 1, j, true);
      if i == 0 {
        UnfinishedIncomplete(f, t);
      } else {
        assert !HarmfulAt(f, i);
      }
    }
  }

  lemma HarmfulHere(f: Reply, t: seq<u8>, at: nat, answered: bool)
    requires 4 < |t| < |Encode(f)| && t[0] == START_OF_PACKET && !Harmless(t)
    ensures var r := Scan(t, at, NOTHING.(answered := answered));
      if r.frames == [] then r.corrupt && r.processedTo == 0
      else |r.frames[0].payload| < |f.payload|
  {
    hide Encode, Inspect;
    ScanStep(t, at, NOTHING.(answered := answered));
    match Inspect(t)
    case Corrupt =>
    case Accepted(g, size) =>
      FramesGrow(t[size..], at + size, Pass([] + [g], at + size, false, true));
  }

  /** Withholding the last byte of such a frame loses it. */
  lemma HarmfulFrameIsLost(f: Reply, j: nat, cells: seq<u8>)
    requires |cells| == BUFFER_LENGTH
    requires HarmfulAt(f, j) && forall k :: 1 <= k < j ==> !HarmfulAt(f, k)
    ensures var s := Encode(f);
      Run(Run(Start(cells), [s[..|s| - 1], [END_OF_PACKET]]), Idle(|s|)).decoded != [f]
  {
    hide Encode, Inspect, Scan;
    var s := Encode(f);
    var most := s[..|s| - 1];
    assert s[0..|s| - 1] == most;
    ScanHarmful(f, 0, j, false);
    var k1 := Step(Start(cells), most);
    assert [] + most == most && most[..|most|] == most;
    var pass := Scan(most, 0, NOTHING);
    assert k1.queue == [] && k1.decoded == [] + pass.frames == pass.frames;
    var k2 := Run(Start(cells), [most, [END_OF_PACKET]]);
    assert [most, [END_OF_PACKET]][1..] == [[END_OF_PACKET]];
    assert Run(k1, [[END_OF_PACKET]]) == Step(k1, [END_OF_PACKET]) by {
      assert [[END_OF_PACKET]][1..] == [];
    }
    if pass.frames == [] {
      LastByteAlone(k1);
      IdleChangesNothing(k2, |s|);
    } else {
      DecodedGrows(k1, [[END_OF_PACKET]]);
      DecodedGrows(k2, Idle(|s|));
    }
  }

  lemma LastByteAlone(k: Link)
    requires k.buffer.Valid() && k.buffer.wpos == 0 && k.queue == []
    ensures var k' := Step(k, [END_OF_PACKET]); k'.decoded == k.decoded && k'.queue == []
  {
    var one := [END_OF_PACKET];
    assert [] + one == one && one[..1] == one && one[1..] == [];
    assert Fill(k.buffer, one).Data() == one;
    assert Scan(one, 0, NOTHING) == Scan(one[1..], 1, NOTHING) == NOTHING;
    assert Receive(k.buffer, one).1 == NOTHING;
  }

  /** The frame is decoded, and nothing else is, however its bytes are split. */
  ghost predicate SurvivesChunking(f: Reply, cells: seq<u8>)
    requires |cells| == BUFFER_LENGTH
  {
    forall chunks: seq<seq<u8>>, polls: nat :: Flatten(chunks) == Encode(f) && polls >= |Encode(f)| ==>
      Run(Run(Start(cells), chunks), Idle(polls)).decoded == [f]
  }

  /** A reply survives every split of its bytes exactly when it is transparent. */
  lemma TransparentIffSurvivesChunking(f: Reply, cells: seq<u8>)
    requires |cells| == BUFFER_LENGTH
    ensures Transparent(f) <==> SurvivesChunking(f, cells)
  {
    hide Encode, Scan, Step, Run;
    if Transparent(f) {
      forall chunks: seq<seq<u8>>, polls: nat | Flatten(chunks) == Encode(f) && polls >= |Encode(f)|
        ensures Run(Run(Start(cells), chunks), Idle(polls)).decoded == [f]
      {
        assert Stream([f]) + [] == Encode(f);
        PollingCompletes([f], f, [], chunks, cells, polls);
      }
    } else {
      var j := FirstHarmful(f);
      HarmfulFrameIsLost(f, j, cells);
      var s := Encode(f);
      var chunks := [s[..|s| - 1], [END_OF_PACKET]];
      assert Flatten(chunks) == s by {
        LastByte(f);
        assert chunks[1..] == [[END_OF_PACKET]];
        assert Flatten(chunks[1..]) == [END_OF_PACKET] + Flatten([]);
      }
    }
  }

  lemma LastByte(f: Reply)
    ensures Encode(f)[|Encode(f)| - 1] == END_OF_PACKET && START_OF_PACKET == Encode(f)[0]
  {
  }

  lemma FirstHarmful(f: Reply) returns (j: nat)
    requires !Transparent(f)
    ensures HarmfulAt(f, j) && forall k :: 1 <= k < j ==> !HarmfulAt(f, k)
  {
    hide Encode, Inspect;
    j := 1;
    while !HarmfulAt(f, j)
      invariant 1 <= j && forall k :: 1 <= k < j ==> !HarmfulAt(f, k)
      decreases |Encode(f)| - j
    {
      assert exists k :: HarmfulAt(f, k) by {
        var s := Encode(f);
        var k :| 1 <= k < |s| - 5 && s[k] == START_OF_PACKET && !Harmless(s[k..|s| - 1]);
        assert HarmfulAt(f, k);
      }
      j := j + 1;
    }
  }

  /** A frame with no second start byte is transparent. */
  lemma NoInnerStart(f: Reply)
    requires forall j :: 1 <= j < |Encode(f)| ==> Encode(f)[j] != START_OF_PACKET
    ensures Transparent(f)
  {
  }

  /** A payload that holds a whole empty reply is not: that reply would be decoded in its place. */
  lemma NestedFrameNotTransparent()
    ensures !Transparent(Frame(0x05, [0xDD, 0x04, 0x00, 0x00, 0x00, 0x00, 0x77, 0x00]))
  {
    var f: Reply := Frame(0x05, [0xDD, 0x04, 0x00, 0x00, 0x00, 0x00, 0x77, 0x00]);
    var s := Encode(f);
    assert s[4..14] == f.payload + [s[12], s[13]];
    WholeEmptyReply(s[4..14]);
    assert HarmfulAt(f, 4) by { hide Encode, Inspect; }
  }

  lemma WholeEmptyReply(t: seq<u8>)
    requires |t| == 10 && t[..8] == [0xDD, 0x04, 0x00, 0x00, 0x00, 0x00, 0x77, 0x00]
    ensures Inspect(t).Accepted?
  {
    hide Checksum;
    assert t[2] == t[..8][2] && t[3] == t[..8][3] && t[4] == t[..8][4] && t[5] == t[..8][5] && t[6] == t[..8][6];
    ZeroSum(t[2..4]);
  }

  /** Noise without a start byte fills the buffer, and the next byte is stored past its end. */
  lemma NoiseOverruns(cells: seq<u8>, noise: seq<u8>, x: u8)
    requires |cells| == 255 && |noise| == 255 && 0xDD !in noise
    ensures Run(Start(cells), [noise, [x]]).overrun
  {
    hide Receive;
    var k := Start(cells);
    BufferFills(k.buffer, noise);
    assert k.queue + noise == noise && noise[..BUFFER_LENGTH] == noise;
    assert [noise, [x]][1..] == [[x]] && [[x]][1..] == [];
    assert Run(k, [noise, [x]]) == Run(Step(k, noise), [[x]]) == Step(Step(k, noise), [x]);
  }
}
