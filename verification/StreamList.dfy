/** The web server's linked list of open SeaSmart streams, each operation one section under its mutex. */
module StreamList {
  import opened Bytes
  import opened Wrappers
  import opened Ring
  import opened SeasmartStreams

  /** The list with its one occurrence of `x` taken out. */
  function Without<T(==)>(s: seq<T>, x: T): seq<T> {
    if s == [] then [] else if s[0] == x then s[1..] else [s[0]] + Without(s[1..], x)
  }

  lemma {:induction false} WithoutAbsent<T>(s: seq<T>, x: T)
    requires x !in s
    ensures Without(s, x) == s
  {
    if s != [] {
      WithoutAbsent(s[1..], x);
    }
  }

  lemma WithoutFirst<T>(s: seq<T>)
    requires s != []
    ensures Without(s, s[0]) == s[1..]
  {
  }

  lemma {:induction false} WithoutAt<T>(s: seq<T>, k: nat)
    requires k < |s| && forall j :: 0 <= j < k ==> s[j] != s[k]
    ensures Without(s, s[k]) == s[..k] + s[k + 1..]
  {
    if k > 0 {
      assert forall j :: 0 <= j < k ==> s[1..][j] == s[j + 1];
      WithoutAt(s[1..], k - 1);
      assert s[1..][k..] == s[k + 1..];
      assert s[..k] == [s[0]] + s[1..][..k - 1];
    } else {
      assert s[..0] == [];
    }
  }

  /** Removing the stream just added restores the list. */
  lemma AddThenRemove<T>(s: seq<T>, x: T)
    requires x !in s
    ensures Without(s + [x], x) == s
  {
    WithoutAt(s + [x], |s|);
    assert (s + [x])[..|s|] == s && (s + [x])[|s| + 1..] == [];
  }

  /** Removing a stream removes it alone, and keeps the others in order. */
  lemma WithoutMembers<T>(s: seq<T>, x: T, k: nat)
    requires Distinct(s) && k < |s| && s[k] == x
    ensures Without(s, x) == s[..k] + s[k + 1..]
    ensures Distinct(Without(s, x)) && x !in Without(s, x)
    ensures forall y :: y in Without(s, x) <==> y in s && y != x
  {
    assert forall i :: 0 <= i < k ==> s[i] != s[k];
    WithoutAt(s, k);
    hide Without;
    var r := s[..k] + s[k + 1..];
    assert forall i :: 0 <= i < |r| ==> r[i] == s[if i < k then i else i + 1];
    MembersSplit(s, k);
  }

  lemma MembersSplit<T>(s: seq<T>, k: nat)
    requires Distinct(s) && k < |s|
    ensures forall y :: y in s[..k] + s[k + 1..] <==> y in s && y != s[k]
  {
    var r := s[..k] + s[k + 1..];
    forall y | y in r
      ensures y in s && y != s[k]
    {
      var i :| 0 <= i < |r| && r[i] == y;
      assert y == s[if i < k then i else i + 1];
    }
    forall y | y in s && y != s[k]
      ensures y in r
    {
      var i :| 0 <= i < |s| && s[i] == y;
      assert y == r[if i < k then i else i - 1];
    }
  }

  class WebServer {
    var seasmartStreamsHead: SeasmartStream?
    ghost var streams: seq<SeasmartStream> // the list, from its head

    ghost function Nodes(): set<SeasmartStream>
      reads this
    {
      set s | s in streams
    }

    /** The pointers spell out `streams`: no cycle, nothing behind the last. */
    ghost predicate Linked()
      reads this, streams
    {
      && Distinct(streams)
      && seasmartStreamsHead == (if streams == [] then null else streams[0])
      && (forall i :: 0 <= i < |streams| - 1 ==> streams[i].nextStream == streams[i + 1])
      && (streams != [] ==> streams[|streams| - 1].nextStream == null)
    }

    constructor ()
      ensures Linked() && streams == []
    {
      seasmartStreamsHead := null;
      streams := [];
    }

    lemma LastHasNoNext(i: nat)
      requires Linked() && i < |streams|
      ensures streams[i].nextStream == null <==> i == |streams| - 1
    {
      if i < |streams| - 1 {
        assert streams[i].nextStream == streams[i + 1];
      }
    }

    /** Adds a stream that is in no list, as every newly created one is. */
    method AddSeasmartResponse(response: SeasmartStream)
      requires Linked() && response !in streams && response.nextStream == null
      modifies this, Nodes()`nextStream
      ensures Linked() && streams == old(streams) + [response]
    {
      if seasmartStreamsHead == null {
        seasmartStreamsHead := response;
      } else {
        var headStream := seasmartStreamsHead;
        ghost var i := 0;
        while headStream.nextStream != null
          invariant Linked() && streams == old(streams) && response.nextStream == null
          invariant 0 <= i < |streams| && headStream == streams[i]
          decreases |streams| - i
        {
          headStream := headStream.nextStream;
          i := i + 1;
        }
        LastHasNoNext(i);
        headStream.nextStream := response;
      }
      streams := streams + [response];
    }

    method UnlinkHead()
      requires Linked() && seasmartStreamsHead != null
      modifies this
      ensures Linked() && streams == old(streams[1..])
    {
      if |streams| > 1 {
        assert streams[0].nextStream == streams[1];
      }
      seasmartStreamsHead := seasmartStreamsHead.nextStream;
      streams := streams[1..];
    }

    /** Unlinks the stream behind position `i`. */
    method UnlinkAfter(headStream: SeasmartStream, ghost i: nat)
      requires Linked() && i + 1 < |streams| && headStream == streams[i]
      modifies this`streams, headStream`nextStream
      ensures Linked() && streams == old(streams[..i + 1] + streams[i + 2..])
      ensures old(streams[i + 1]).nextStream == old(streams[i + 1].nextStream)
    {
      assert streams[i].nextStream == streams[i + 1];
      headStream.nextStream := headStream.nextStream.nextStream;
      streams := streams[..i + 1] + streams[i + 2..];
    }

    /** Takes a stream out of the list; the stream keeps its own pointer. */
    method RemoveSeasmartResponse(response: SeasmartStream)
      requires Linked()
      modifies this, Nodes()`nextStream
      ensures Linked() && streams == Without(old(streams), response)
      ensures response.nextStream == old(response.nextStream)
    {
      hide Without;
      if seasmartStreamsHead != null {
        if seasmartStreamsHead == response {
          WithoutFirst(streams);
          UnlinkHead();
          return;
        }
        var headStream := seasmartStreamsHead;
        ghost var i := 0;
        while headStream.nextStream != null
          invariant Linked() && streams == old(streams) && response.nextStream == old(response.nextStream)
          invariant 0 <= i < |streams| && headStream == streams[i]
          invariant forall j :: 0 <= j <= i ==> streams[j] != response
          decreases |streams| - i
        {
          if headStream.nextStream == response {
            WithoutAt(streams, i + 1);
            UnlinkAfter(headStream, i);
            return;
          }
          headStream := headStream.nextStream;
          i := i + 1;
        }
        assert i == |streams| - 1 by { LastHasNoNext(i); }
      }
      WithoutAbsent(streams, response);
    }

    method AcceptSeaSmart(pgn: u32) returns (accepted: bool)
      requires Linked()
      ensures accepted <==> exists s :: s in streams && s.Accepts(pgn)
    {
      var headStream := seasmartStreamsHead;
      accepted := false;
      ghost var i := 0;
      while headStream != null
        invariant 0 <= i <= |streams| && headStream == (if i < |streams| then streams[i] else null)
        invariant forall j :: 0 <= j < i ==> !streams[j].Accepts(pgn)
        decreases |streams| - i
      {
        var a := headStream.AcceptPgn(pgn);
        if a {
          accepted := true;
          return;
        }
        headStream := headStream.nextStream;
        i := i + 1;
      }
    }

    ghost function Rings(): set<array<u8>>
      reads this, streams
    {
      set s | s in streams :: s.cells
    }

    /** Every open stream is sound and has its own ring. */
    ghost predicate Ready()
      reads this, streams, Rings()
    {
      && Linked()
      && (forall s :: s in streams ==> s.Valid())
      && (forall i, j :: 0 <= i < j < |streams| ==> streams[i].cells != streams[j].cells)
    }

    /** Writing to one stream leaves the others and the list as they are. */
    method WriteTo(stream: SeasmartStream, ghost i: nat, line: seq<u8>)
      requires Ready() && i < |streams| && stream == streams[i]
      modifies stream`wpos, stream`log, stream`overflows, stream`nWrites, stream`minFreespace, stream.cells
      ensures Ready() && stream.log == old(stream.log) + LineBytes(line, SEASMART_BUFFER_LEN)
    {
      hide Mirrors, LineBytes, Meetings;
      stream.WriteLine(line);
      forall j | 0 <= j < |streams|
        ensures streams[j].Valid()
      {
        if j != i {
          assert streams[j] != stream && streams[j].cells != stream.cells;
        }
      }
    }

    /** One turn of the loop of `sendSeaSmart`. */
    method Offer(stream: SeasmartStream, ghost i: nat, pgn: u32, line: seq<u8>)
      requires Ready() && i < |streams| && stream == streams[i]
      modifies stream`wpos, stream`log, stream`overflows, stream`nWrites, stream`minFreespace, stream.cells
      ensures Ready()
      ensures stream.log == old(stream.log) + if stream.Accepts(pgn) then LineBytes(line, SEASMART_BUFFER_LEN) else []
    {
      var accepted := stream.AcceptPgn(pgn);
      if accepted {
        WriteTo(stream, i, line);
      }
    }

    lemma ReadyHead()
      requires Ready()
      ensures seasmartStreamsHead == (if streams == [] then null else streams[0])
    {
    }

    lemma ReadyNext(i: nat)
      requires Ready() && i < |streams|
      ensures streams[i].nextStream == if i + 1 < |streams| then streams[i + 1] else null
      ensures forall j :: 0 <= j < |streams| && j != i ==> streams[j] != streams[i]
    {
    }

    /** Writes the line once to every open stream that accepts the PGN, and to no other. */
    method SendSeaSmart(pgn: u32, line: seq<u8>)
      requires Ready()
      modifies Nodes()`wpos, Nodes()`log, Nodes()`overflows, Nodes()`nWrites, Nodes()`minFreespace, Rings()
      ensures Ready() && streams == old(streams)
      ensures forall s :: s in streams ==>
        s.log == old(s.log) + if s.Accepts(pgn) then LineBytes(line, SEASMART_BUFFER_LEN) else []
    {
      hide Ready, Linked, Mirrors, LineBytes;
      ReadyHead();
      var headStream := seasmartStreamsHead;
      ghost var i := 0;
      while headStream != null
        invariant Ready() && 0 <= i <= |streams| && headStream == (if i < |streams| then streams[i] else null)
        invariant forall j :: 0 <= j < i ==>
          streams[j].log == old(streams[j].log)
            + if streams[j].Accepts(pgn) then LineBytes(line, SEASMART_BUFFER_LEN) else []
        invariant forall j :: i <= j < |streams| ==> streams[j].log == old(streams[j].log)
        decreases |streams| - i
      {
        Offer(headStream, i, pgn, line);
        ReadyNext(i);
        headStream := headStream.nextStream;
        i := i + 1;
      }
    }
  }
}
