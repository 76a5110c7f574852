/** The driver called again and again on what the serial line delivers. */
module BmsDriver {
  import opened Bytes
  import opened Wrappers
  import opened BmsFrame
  import opened BmsStream
  import opened JdbBms

  lemma {:induction false} OverrunStays(k: Link, chunks: seq<seq<u8>>)
    requires k.buffer.Valid()
    ensures k.overrun ==> Run(k, chunks).overrun
    decreases |chunks|
  {
    hide Receive;
    if chunks != [] {
      OverrunStays(Step(k, chunks[0]), chunks[1..]);
    }
  }

  /** What the first call decodes comes first. */
  lemma FirstDecoded(k: Link, chunks: seq<seq<u8>>)
    requires k.buffer.Valid() && chunks != []
    ensures Step(k, chunks[0]).decoded <= Run(k, chunks).decoded
    ensures !Run(k, chunks).overrun ==> !Step(k, chunks[0]).overrun
  {
    hide Step;
    DecodedGrows(Step(k, chunks[0]), chunks[1..]);
    OverrunStays(Step(k, chunks[0]), chunks[1..]);
  }

  /** Applying replies one after the other. */
  lemma {:induction false} ApplyJoin(r: Registers, fs: seq<Frame>, gs: seq<Frame>)
    requires r.Valid() && AllStorable(r, fs + gs)
    ensures AllStorable(r, fs) && AllStorable(ApplyAll(r, fs), gs)
    ensures ApplyAll(r, fs + gs) == ApplyAll(ApplyAll(r, fs), gs)
    decreases |gs|
  {
    hide Apply, Storable;
    assert (fs + gs)[..|fs|] == fs;
    StorablePrefix(r, fs + gs, |fs|);
    if gs == [] {
      assert fs + gs == fs;
      ApplyNone(ApplyAll(r, fs));
    } else {
      assert (fs + gs)[..|fs + gs| - 1] == fs + gs[..|gs| - 1];
      ApplyJoin(r, fs, gs[..|gs| - 1]);
    }
  }

  /** Chunk after chunk arrives, and `update` is called after each. As long as no byte is stored past the buffer and
      every reply is stored inside its register copy, the object goes through the run of the link, and its register
      copies are the replies decoded in it. */
  method Serve(bms: JdbBms, chunks: seq<seq<u8>>, times: seq<u32>) returns (queue: seq<u8>)
    requires bms.Valid() && |times| == |chunks|
    requires var k := Run(Link([], bms.Received(), [], false), chunks);
      !k.overrun && AllStorable(bms.Copies(), k.decoded)
    modifies bms, bms.buffer, bms.register03, bms.register04, bms.register05
    ensures bms.Valid()
    ensures var k := Run(Link([], old(bms.Received()), [], false), chunks);
      queue == k.queue && bms.Received() == k.buffer && bms.Copies() == ApplyAll(old(bms.Copies()), k.decoded)
  {
    hide Run, Step, ApplyAll, AllStorable;
    queue := [];
    ghost var copies := bms.Copies();
    ghost var k := Link([], bms.Received(), [], false);
    ghost var end := Run(k, chunks);
    ApplyNone(copies);
    var i := 0;
    assert chunks[0..] == chunks;
    while i < |chunks|
      invariant 0 <= i <= |chunks| && bms.Valid()
      invariant k.buffer == bms.Received() && k.queue == queue
      invariant Run(k, chunks[i..]) == end
      invariant AllStorable(copies, k.decoded) && bms.Copies() == ApplyAll(copies, k.decoded)
    {
      RunNext(k, chunks[i..]);
      assert chunks[i..][1..] == chunks[i + 1..];
      FirstDecoded(k, chunks[i..]);
      ghost var k' := Step(k, chunks[i]);
      StorableSoFar(copies, k'.decoded, end.decoded);
      ghost var fs := Decodes(k, chunks[i]);
      ApplyJoin(copies, k.decoded, fs);
      queue := Arrive(bms, queue, chunks[i], times[i], k, fs);
      k := k';
      i := i + 1;
    }
    RunNext(k, chunks[i..]);
  }

  lemma RunNext(k: Link, chunks: seq<seq<u8>>)
    requires k.buffer.Valid()
    ensures Run(k, chunks) == if chunks == [] then k else Run(Step(k, chunks[0]), chunks[1..])
  {
  }

  /** A chunk arrives, and `update` is called once. */
  method Arrive(bms: JdbBms, queue: seq<u8>, chunk: seq<u8>, now: u32, ghost k: Link, ghost fs: seq<Frame>)
    returns (left: seq<u8>)
    requires bms.Valid() && k.queue == queue && k.buffer == bms.Received() && !Step(k, chunk).overrun
    requires Step(k, chunk).decoded == k.decoded + fs && AllStorable(bms.Copies(), fs)
    modifies bms, bms.buffer, bms.register03, bms.register04, bms.register05
    ensures bms.Valid() && bms.Copies() == ApplyAll(old(bms.Copies()), fs)
    ensures left == Step(k, chunk).queue && bms.Received() == Step(k, chunk).buffer
  {
    hide Step, ApplyAll, AllStorable, Receive;
    StepIs(k, chunk, fs);
    ApplyNone(bms.Copies());
    var all := queue + chunk;
    var taken, request := bms.Update(all, now);
    left := all[taken..];
  }

  /** One call that overruns nothing: what it reads and decodes. */
  lemma StepIs(k: Link, chunk: seq<u8>, fs: seq<Frame>)
    requires k.buffer.Valid() && !Step(k, chunk).overrun && Step(k, chunk).decoded == k.decoded + fs
    ensures var queue := k.queue + chunk;
      if queue == [] then Step(k, chunk) == k && fs == []
      else
        var n := Min(|queue|, 255 - k.buffer.wpos);
        && k.buffer.wpos < 255
        && Step(k, chunk).queue == queue[n..] && Step(k, chunk).buffer == Receive(k.buffer, queue[..n]).0
        && fs == Receive(k.buffer, queue[..n]).1.frames
  {
    hide Receive;
    assert fs == Step(k, chunk).decoded[|k.decoded|..];
  }

  /** The replies one call decodes. */
  lemma Decodes(k: Link, chunk: seq<u8>) returns (fs: seq<Frame>)
    requires k.buffer.Valid()
    ensures Step(k, chunk).decoded == k.decoded + fs
  {
    hide Receive;
    fs := Step(k, chunk).decoded[|k.decoded|..];
  }

  /** A prefix of storable replies is storable. */
  lemma StorableSoFar(r: Registers, fs: seq<Frame>, all: seq<Frame>)
    requires r.Valid() && AllStorable(r, all) && fs <= all
    ensures AllStorable(r, fs)
  {
    StorablePrefix(r, all, |fs|);
    assert all[..|fs|] == fs;
  }
}
