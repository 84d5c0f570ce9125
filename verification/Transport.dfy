// common/trans.c: a transport that queues what its socket does not take.
module Transport {
  import opened Unicode
  import opened Sockets
  import opened WaitQueues
  import opened Streams

  const MAX_SBYTES := 0

  // struct source_info: one for all the transports of a program.
  class SourceInfo {
    var curSource: Source
    const source: array<int>

    constructor ()
      ensures curSource == XRDP_SOURCE_NONE && fresh(source) && source.Length == XRDP_SOURCE_MAX_COUNT
      ensures forall k: Source :: source[k] == 0
    {
      curSource := XRDP_SOURCE_NONE;
      source := new int[7](_ => 0);
    }
  }

  // header_size - read_so_far, as an unsigned int
  function ToRead(headerSize: nat, readSoFar: nat): int {
    (headerSize - readSoFar) % 0x1_0000_0000
  }

  // The size that is asked for fits behind what has been read exactly if that is not
  // more than the header size.
  lemma {:induction false} ReadFits(headerSize: nat, readSoFar: nat, size: nat)
    requires headerSize <= size < 0x8000_0000 && readSoFar <= size
    ensures readSoFar + ToRead(headerSize, readSoFar) <= size <==> readSoFar <= headerSize
    ensures readSoFar <= headerSize ==> ToRead(headerSize, readSoFar) == headerSize - readSoFar
  {
  }

  // One byte more than the header size has been read.
  lemma {:induction false} ReadWraps()
    ensures ToRead(8, 9) == 0xffff_ffff
  {
  }

  // A queue whose unsent bytes are the last of `before` and `data`, where those of `data`
  // are counted against `source` and the others as before.
  ghost predicate LeftOver(before: Queue, data: Bytes, source: Source, queue: Queue) {
    var n := |Unsent(queue)|;
    && n <= |Unsent(before)| + |data|
    && Unsent(queue) == Last(Unsent(before) + data, n)
    && Tags(queue) == Last(Tags(before) + Repeat(source, |data|), n)
  }

  // The number of bytes counted against a source in a queue goes into its count, and
  // nothing else does.
  twostate lemma {:induction false} CountsTags(new t: Trans)
    requires old(allocated(t)) && old(t.Valid()) && t.Valid() && t.si != null
    requires t.Elsewhere() == old(t.Elsewhere())
    ensures forall k: Source :: k != XRDP_SOURCE_NONE ==>
      t.si.source[k] == old(t.si.source[k]) - multiset(old(Tags(t.waitS)))[k] + multiset(Tags(t.waitS))[k]
  {
    forall k: Source | k != XRDP_SOURCE_NONE
      ensures t.si.source[k] == old(t.si.source[k]) - multiset(old(Tags(t.waitS)))[k] + multiset(Tags(t.waitS))[k]
    {
      TaggedIs(t.waitS, k);
      TaggedIs(old(t.waitS), k);
      assert t.Elsewhere()[k] == old(t.Elsewhere())[k];
    }
  }

  class Trans {
    const sock: Socket
    const si: SourceInfo?
    const mySource: Source
    const inS: Stream
    var up: bool
    var waitS: Queue
    var headerSize: nat

    ghost var accepted: Bytes // the writes that returned 0, in order
    ghost var partial: Bytes  // the part of a failed forced write that was sent

    constructor (sock: Socket, si: SourceInfo?, mySource: Source, inSize: nat, headerSize: nat)
      requires si == null || si.source.Length == XRDP_SOURCE_MAX_COUNT
      requires sock.wire == [] && inSize < 0x8000_0000
      ensures Valid() && up && waitS.End? && accepted == [] && partial == []
      ensures this.sock == sock && this.si == si && this.mySource == mySource && this.headerSize == headerSize
      ensures fresh(inS) && fresh(inS.data) && inS.data.Length == inSize && inS.end == 0
    {
      this.sock, this.si, this.mySource, this.headerSize := sock, si, mySource, headerSize;
      inS := new Stream(inSize);
      up, waitS := true, End;
      accepted, partial := [], [];
    }

    // The objects of a transport; `si` is shared with other transports.
    ghost function Repr(): set<object> {
      {this, sock, inS, inS.data}
    }

    ghost function Counters(): set<object> {
      if si == null then {} else {si.source}
    }

    // What has been sent and what is queued are the accepted writes in order;
    // beyond them at most a part of one failed write was sent, and then the
    // transport is down with nothing queued.
    ghost predicate Conserved()
      reads this, sock
    {
      && sock.wire + Unsent(waitS) == accepted + partial
      && (partial != [] ==> !up && waitS.End?)
      && Good(waitS, si != null)
    }

    ghost predicate Valid()
      reads Repr()
    {
      && Conserved()
      && inS.Valid() && inS.data.Length < 0x8000_0000
      && (si != null ==> si.source.Length == XRDP_SOURCE_MAX_COUNT && si.source as object != inS.data)
    }

    // For every source the bytes counted against it in other transports.
    ghost function Elsewhere(): seq<int>
      reads this, Counters()
    {
      if si == null || si.source.Length != XRDP_SOURCE_MAX_COUNT then [] else OtherCounts(si.source[..], waitS)
    }

    // The source that queued output is counted against: that of the input
    // being processed, unless it is the transport's own.
    function Charged(): Source
      reads this, si
    {
      if si == null || si.curSource == mySource then XRDP_SOURCE_NONE else si.curSource
    }

    // The socket took `sent` bytes of the first stream in the list.
    method TakeSent(sent: nat)
      requires waitS.Waiting? && 0 < sent <= |waitS.unsent| && Good(waitS, si != null)
      requires si != null ==> si.source.Length == XRDP_SOURCE_MAX_COUNT
      modifies this`waitS, Counters()
      ensures waitS == Sent(old(waitS), sent)
      ensures Elsewhere() == old(Elsewhere())
    {
      if si != null {
        SentCounts(si.source[..], waitS, sent, true);
      }
      if waitS.source != XRDP_SOURCE_NONE {
        si.source[waitS.source] := si.source[waitS.source] - sent;
      }
      var unsent := waitS.unsent[sent..];
      if unsent == [] {
        waitS := waitS.next;
      } else {
        waitS := waitS.(unsent := unsent);
      }
    }

    // trans_send_waiting: sends from the queue, all of it if `block` is set.
    // The result is 1 if the connection is lost or the program is to stop.
    method SendWaiting(block: bool) returns (rv: int)
      requires Conserved()
      requires si != null ==> si.source.Length == XRDP_SOURCE_MAX_COUNT
      modifies this`waitS, sock`wire, sock`refusals, Counters()
      ensures Conserved() && (rv == 0 || rv == 1) && (rv == 0 && block ==> waitS.End?)
      ensures Rest(old(waitS), waitS)
      ensures sock.refusals <= old(sock.refusals)
      ensures Elsewhere() == old(Elsewhere())
    {
      var cont := true;
      while cont
        invariant Conserved() && (!cont ==> !block)
        invariant Rest(old(waitS), waitS)
        invariant sock.refusals <= old(sock.refusals)
        invariant Elsewhere() == old(Elsewhere())
        decreases sock.refusals, |Unsent(waitS)|, cont
      {
        if waitS.End? {
          break;
        }
        ghost var now := waitS;
        var failed := SendFirst(block);
        RestOfRest(old(waitS), now, waitS);
        if failed {
          return 1;
        }
        cont := block;
      }
      return 0;
    }

    // The body of its loop.
    method SendFirst(block: bool) returns (failed: bool)
      requires Conserved() && waitS.Waiting?
      requires si != null ==> si.source.Length == XRDP_SOURCE_MAX_COUNT
      modifies this`waitS, sock`wire, sock`refusals, Counters()
      ensures Conserved()
      ensures Rest(old(waitS), waitS)
      ensures sock.refusals <= old(sock.refusals)
      ensures sock.refusals < old(sock.refusals) || |Unsent(waitS)| <= |old(Unsent(waitS))|
      ensures !failed && block ==> sock.refusals < old(sock.refusals) || |Unsent(waitS)| < |old(Unsent(waitS))|
      ensures Elsewhere() == old(Elsewhere())
    {
      var ready := sock.Poll();
      if ready {
        ghost var wire, queue := sock.wire, waitS;
        var sent, wouldBlock := sock.Send(waitS.unsent);
        if sent > 0 {
          SentFirst(wire, queue, sent);
          TakeSent(sent);
        }
        return sent == 0 || (sent < 0 && !wouldBlock);
      } else if block {
        // check for term here
        var isTerm: bool := *;
        return isTerm;
      }
      return false;
    }

    // trans_write_copy_s
    method WriteCopyS(out: Bytes) returns (rv: int)
      requires Valid()
      modifies this`up, this`waitS, this`accepted, sock`wire, sock`refusals, Counters()
      ensures Valid() && (rv == 0 || rv == 1)
      ensures rv == 0 ==> old(up) && up && accepted == old(accepted) + out
      ensures rv == 1 ==> accepted == old(accepted)
      ensures !old(up) ==> sock.wire == old(sock.wire)
      ensures rv == 0 ==> Rest(Appended(old(waitS), out, old(Charged())), waitS)
      ensures rv == 1 ==> Rest(old(waitS), waitS)
      ensures Elsewhere() == old(Elsewhere())
      // What is left is the end of what was queued and of `out`; the bytes of `out` are
      // counted against the source whose input is processed, unless it is its own.
      ensures rv == 0 && si != null && si.curSource != XRDP_SOURCE_NONE && si.curSource != mySource ==>
                LeftOver(old(waitS), out, si.curSource, waitS)
      ensures rv == 0 && (si == null || si.curSource == XRDP_SOURCE_NONE || si.curSource == mySource) ==>
                LeftOver(old(waitS), out, XRDP_SOURCE_NONE, waitS)
      ensures rv == 1 ==> LeftOver(old(waitS), [], XRDP_SOURCE_NONE, waitS)
    {
      ghost var before, charged := waitS, Charged();
      rv := TryWriteCopyS(out);
      if rv == 0 {
        WrittenTags(before, out, charged, waitS);
      } else {
        WrittenTags(before, [], XRDP_SOURCE_NONE, waitS);
      }
    }

    // The body of trans_write_copy_s.
    method TryWriteCopyS(out: Bytes) returns (rv: int)
      requires Valid()
      modifies this`up, this`waitS, this`accepted, sock`wire, sock`refusals, Counters()
      ensures Valid() && (rv == 0 || rv == 1)
      ensures rv == 0 ==> old(up) && up && accepted == old(accepted) + out
      ensures rv == 1 ==> accepted == old(accepted)
      ensures !old(up) ==> sock.wire == old(sock.wire)
      ensures rv == 0 ==> Rest(Appended(old(waitS), out, old(Charged())), waitS)
      ensures rv == 1 ==> Rest(old(waitS), waitS)
      ensures Elsewhere() == old(Elsewhere())
    {
      if !up {
        return 1;
      }
      ghost var first := waitS;
      // try to send any left over
      var failed := SendWaiting(false);
      if failed != 0 {
        up := false;
        return 1;
      }
      rv := WriteNew(out, first);
    }

    // trans_write_copy_s once what was left over has been tried
    method WriteNew(out: Bytes, ghost first: Queue) returns (rv: int)
      requires Conserved() && partial == [] && Rest(first, waitS)
      requires si != null ==> si.source.Length == XRDP_SOURCE_MAX_COUNT
      modifies this`waitS, this`accepted, sock`wire, sock`refusals, Counters()
      ensures Conserved() && (rv == 0 || rv == 1)
      ensures rv == 0 ==> accepted == old(accepted) + out
      ensures rv == 1 ==> accepted == old(accepted)
      ensures rv == 0 ==> Rest(Appended(first, out, old(Charged())), waitS)
      ensures rv == 1 ==> waitS == old(waitS) && sock.wire == old(sock.wire)
      ensures Elsewhere() == old(Elsewhere())
    {
      assert accepted + [] == accepted;
      var outData := out;
      if waitS.End? {
        assert sock.wire + [] == sock.wire;
        var failed;
        failed, outData := TrySend(out);
        if failed != 0 {
          return 1;
        }
        assert sock.wire + [] == sock.wire;
      }
      RestQueued(first, waitS, out, outData, Charged(), sock.wire, accepted, si != null);
      QueueRest(out, outData, Appended(waitS, outData, Charged()));
      return 0;
    }

    // What the socket did not take of accepted data is queued.
    method QueueRest(out: Bytes, outData: Bytes, ghost queued: Queue)
      requires Good(waitS, si != null) && queued == Appended(waitS, outData, Charged())
      requires Good(queued, si != null) && sock.wire + Unsent(queued) == (accepted + out) + [] && partial == []
      requires si != null ==> si.source.Length == XRDP_SOURCE_MAX_COUNT
      modifies this`waitS, this`accepted, Counters()
      ensures Conserved() && accepted == old(accepted) + out && waitS == queued
      ensures Elsewhere() == old(Elsewhere())
    {
      if |outData| >= 1 {
        CopyToWait(outData);
      }
      accepted := accepted + out;
    }

    // The attempt to send new data at once; outData is what remains of it.
    method TrySend(out: Bytes) returns (rv: int, outData: Bytes)
      modifies sock`wire, sock`refusals
      ensures rv == 0 || rv == 1
      ensures rv == 1 ==> sock.wire == old(sock.wire)
      ensures rv == 0 ==> sock.wire + outData == old(sock.wire) + out && |outData| <= |out|
                          && outData == out[|out| - |outData|..]
    {
      outData := out;
      var ready := sock.Poll();
      if ready {
        var sent, wouldBlock := sock.Send(out);
        if sent > 0 {
          outData := out[sent..];
          assert out == out[..sent] + out[sent..];
        } else if sent == 0 {
          return 1, out;
        } else {
          if !wouldBlock {
            return 1, out;
          }
        }
      }
      return 0, outData;
    }

    // What was not sent right away has to be copied.
    method CopyToWait(outData: Bytes)
      requires outData != [] && Good(waitS, si != null)
      requires si != null ==> si.source.Length == XRDP_SOURCE_MAX_COUNT
      modifies this`waitS, Counters()
      ensures waitS == Appended(old(waitS), outData, Charged())
      ensures Elsewhere() == old(Elsewhere())
    {
      if si != null {
        AppendCounts(si.source[..], waitS, outData, Charged());
      }
      ghost var charged := Charged();
      var source := XRDP_SOURCE_NONE;
      if si != null {
        if si.curSource != XRDP_SOURCE_NONE && si.curSource != mySource {
          si.source[si.curSource] := si.source[si.curSource] + |outData|;
          source := si.curSource;
        }
      }
      assert source == charged;
      waitS := Appended(waitS, outData, source);
    }

    // trans_force_write_s
    method ForceWriteS(out: Bytes) returns (rv: int)
      requires Valid()
      modifies this`up, this`waitS, this`accepted, this`partial, sock`wire, sock`refusals, Counters()
      ensures Valid() && (rv == 0 || rv == 1)
      ensures rv == 0 ==> old(up) && up && waitS.End? && accepted == old(accepted) + out
      ensures rv == 1 ==> !up && accepted == old(accepted)
      ensures !old(up) ==> sock.wire == old(sock.wire) && partial == old(partial)
      ensures old(up) ==> partial <= out
      ensures Rest(old(waitS), waitS)
      ensures Elsewhere() == old(Elsewhere())
    {
      if !up {
        return 1;
      }
      var failed := SendWaiting(true);
      if failed != 0 {
        up := false;
        return 1;
      }
      assert sock.wire + [] == sock.wire && accepted + [] == accepted;
      var sent := SendAll(out);
      assert sock.wire + [] == sock.wire;
      if sent < |out| {
        up := false;
        partial := out[..sent];
        return 1;
      }
      assert out[..sent] == out;
      accepted := accepted + out;
      assert accepted + [] == accepted;
      return 0;
    }

    // Its loop: how much of `out` was sent before an error or the end of the program.
    method SendAll(out: Bytes) returns (total: nat)
      modifies sock`wire, sock`refusals
      ensures total <= |out| && sock.wire == old(sock.wire) + out[..total]
    {
      total := 0;
      assert sock.wire + out[..0] == sock.wire;
      while total < |out|
        invariant total <= |out| && sock.wire == old(sock.wire) + out[..total]
        decreases sock.refusals, |out| - total
      {
        var sent, wouldBlock := sock.Send(out[total..]);
        assert sent > 0 ==> out[..total + sent] == out[..total] + out[total..][..sent];
        if sent == -1 {
          if !wouldBlock {
            return;
          }
          var ready := sock.Poll();
          var isTerm: bool := *;
          if !ready && isTerm {
            return;
          }
        } else if sent == 0 {
          return;
        } else {
          total := total + sent;
        }
      }
    }

    // The reading part of trans_check_wait_objs: at most what is still missing
    // from headerSize bytes is put after what has been read. If more has been read
    // already, then the size asked for goes beyond the buffer: the call is not
    // `inside`, and what it does then is not modelled.
    method ReadInput() returns (inside: bool, ghost chunk: Bytes)
      requires Valid() && up && headerSize <= inS.data.Length
      modifies this`up, inS`end, inS.data, sock`incoming, sock`refusals
      ensures inside <==> old(inS.end) <= headerSize
      ensures Valid() && inS.Contents() == old(inS.Contents()) + chunk
      ensures old(sock.incoming) == chunk + sock.incoming
      ensures !up || !inside ==> chunk == []
      ensures inside ==> inS.end <= headerSize
      ensures !inside ==> up
      ensures sock.refusals <= old(sock.refusals)
      ensures inside && old(inS.end) < headerSize ==> chunk != [] || !up || sock.refusals < old(sock.refusals)
    {
      chunk := [];
      var toRead := ToRead(headerSize, inS.end);
      ReadFits(headerSize, inS.end, inS.data.Length);
      inside := inS.end + toRead <= inS.data.Length;
      if inside && toRead > 0 {
        var readBytes, bytes, wouldBlock := sock.Recv(toRead);
        ghost var had := inS.Contents();
        chunk := bytes;
        if readBytes > 0 {
          forall i | 0 <= i < readBytes {
            inS.data[inS.end + i] := bytes[i];
          }
          inS.end := inS.end + readBytes;
          assert inS.Contents() == had + chunk;
        } else if readBytes == 0 || !wouldBlock {
          up := false;
        }
      }
    }

    // The first bytes of the queue have been put on the wire.
    lemma {:induction false} SentFirst(wire: Bytes, queue: Queue, sent: nat)
      requires queue.Waiting? && 0 < sent <= |queue.unsent| && Good(queue, si != null)
      ensures var now := Sent(queue, sent);
              && wire + Unsent(queue) == (wire + queue.unsent[..sent]) + Unsent(now)
              && |Unsent(now)| < |Unsent(queue)| && Good(now, si != null) && Rest(queue, now)
    {
      SentBytes(queue, sent, XRDP_SOURCE_NONE, si != null);
      SentRest(queue, sent);
      assert wire + (queue.unsent[..sent] + Unsent(Sent(queue, sent)))
          == (wire + queue.unsent[..sent]) + Unsent(Sent(queue, sent));
    }
  }
}
