// The output queue of a transport (common/trans.c) and the accounting of its
// bytes to the input sources that caused them.
module WaitQueues {
  import opened Sockets

  const XRDP_SOURCE_NONE: Source := 0
  const XRDP_SOURCE_MAX_COUNT := 7

  type Source = k: nat | k < 7

  // The list of streams that wait to be sent: what is still to be sent of each,
  // and the source it is counted against (XRDP_SOURCE_NONE for none).
  datatype Queue = End | Waiting(unsent: Bytes, source: Source, next: Queue)

  function Unsent(queue: Queue): Bytes {
    match queue
    case End => []
    case Waiting(unsent, _, next) => unsent + Unsent(next)
  }

  // The unsent bytes counted against source k.
  function Tagged(queue: Queue, k: Source): nat {
    match queue
    case End => 0
    case Waiting(unsent, source, next) => (if source == k then |unsent| else 0) + Tagged(next, k)
  }

  // For every unsent byte the source that it is counted against.
  function Tags(queue: Queue): (tags: seq<Source>)
    ensures |tags| == |Unsent(queue)|
  {
    match queue
    case End => []
    case Waiting(unsent, source, next) => Repeat(source, |unsent|) + Tags(next)
  }

  function Repeat(source: Source, n: nat): seq<Source> {
    seq(n, _ => source)
  }

  // The last n elements.
  function Last<T>(s: seq<T>, n: nat): seq<T>
    requires n <= |s|
  {
    s[|s| - n..]
  }

  // For every source the bytes counted against it that are not in this queue.
  function OtherCounts(source: seq<int>, queue: Queue): seq<int>
    requires |source| == XRDP_SOURCE_MAX_COUNT
  {
    seq(XRDP_SOURCE_MAX_COUNT, k requires 0 <= k < XRDP_SOURCE_MAX_COUNT =>
      if k == XRDP_SOURCE_NONE then source[k] else source[k] - Tagged(queue, k))
  }

  // No stream is empty; without counters none is counted.
  predicate Good(queue: Queue, counted: bool) {
    match queue
    case End => true
    case Waiting(unsent, source, next) =>
      unsent != [] && (counted || source == XRDP_SOURCE_NONE) && Good(next, counted)
  }

  // The queue with `data` put last; nothing is put there for no data.
  function Appended(queue: Queue, data: Bytes, source: Source): Queue {
    if data == [] then queue
    else match queue
      case End => Waiting(data, source, End)
      case Waiting(_, _, next) => queue.(next := Appended(next, data, source))
  }

  // The queue after n bytes of its first stream have been sent.
  function Sent(queue: Queue, n: nat): Queue
    requires queue.Waiting? && n <= |queue.unsent|
  {
    if n == |queue.unsent| then queue.next else queue.(unsent := queue.unsent[n..])
  }

  // Whether `after` is what is left of `before` when some bytes have been sent
  // from its front.
  predicate Rest(before: Queue, after: Queue) {
    before == after
    || (before.Waiting? && (Partly(before, after) || Rest(before.next, after)))
  }

  predicate Partly(before: Queue, after: Queue)
    requires before.Waiting?
  {
    && after.Waiting? && after.source == before.source && after.next == before.next
    && |after.unsent| <= |before.unsent|
    && after.unsent == before.unsent[|before.unsent| - |after.unsent|..]
  }

  lemma {:induction false} RestNext(queue: Queue, later: Queue)
    requires queue.Waiting? && Rest(queue.next, later)
    ensures Rest(queue, later)
  {
  }

  lemma {:induction false} SentRest(queue: Queue, n: nat)
    requires queue.Waiting? && n <= |queue.unsent|
    ensures Rest(queue, Sent(queue, n))
  {
    if n == |queue.unsent| {
      RestNext(queue, queue.next);
    } else {
      assert Partly(queue, Sent(queue, n));
    }
  }

  lemma {:induction false} RestOfRest(queue: Queue, now: Queue, later: Queue)
    requires Rest(queue, now) && Rest(now, later)
    ensures Rest(queue, later)
  {
    if queue != now {
      if Partly(queue, now) {
        if now != later && Partly(now, later) {
          var u, v, w := queue.unsent, now.unsent, later.unsent;
          assert v[|v| - |w|..] == u[|u| - |w|..];
          assert Partly(queue, later);
        } else if now != later {
          RestNext(queue, later);
        }
      } else {
        RestOfRest(queue.next, now, later);
        RestNext(queue, later);
      }
    }
  }

  lemma {:induction false} RestAppended(queue: Queue, now: Queue, data: Bytes, source: Source)
    requires Rest(queue, now)
    ensures Rest(Appended(queue, data, source), Appended(now, data, source))
  {
    if queue != now {
      var q := Appended(queue, data, source);
      if Partly(queue, now) {
        assert Partly(q, Appended(now, data, source));
      } else {
        RestAppended(queue.next, now, data, source);
        RestNext(q, Appended(now, data, source));
      }
    }
  }

  // Send some, append, and send some more: what is left is what would be left if the
  // data had been appended first.
  lemma {:induction false} RestWritten(queue: Queue, now: Queue, data: Bytes, source: Source, later: Queue)
    requires Rest(queue, now) && Rest(Appended(now, data, source), later)
    ensures Rest(Appended(queue, data, source), later)
  {
    RestAppended(queue, now, data, source);
    RestOfRest(Appended(queue, data, source), Appended(now, data, source), later);
  }

  // What is left are the last bytes, with their tags.
  lemma {:induction false} RestTags(queue: Queue, now: Queue)
    requires Rest(queue, now)
    ensures |Tags(now)| <= |Tags(queue)|
    ensures Tags(now) == Last(Tags(queue), |Tags(now)|) && Unsent(now) == Last(Unsent(queue), |Tags(now)|)
  {
    if queue != now {
      if Partly(queue, now) {
        var u, v := queue.unsent, now.unsent;
        assert Repeat(queue.source, |v|) == Last(Repeat(queue.source, |u|), |v|);
        LastOfSum(Repeat(queue.source, |u|), Tags(queue.next), |v|);
        LastOfSum(u, Unsent(queue.next), |v|);
      } else {
        RestTags(queue.next, now);
        LastOfLast(Repeat(queue.source, |queue.unsent|), Tags(queue.next), |Tags(now)|);
        LastOfLast(queue.unsent, Unsent(queue.next), |Tags(now)|);
      }
    }
  }

  lemma {:induction false} LastOfSum<T>(a: seq<T>, b: seq<T>, n: nat)
    requires n <= |a|
    ensures Last(a + b, n + |b|) == Last(a, n) + b
  {
  }

  lemma {:induction false} LastOfLast<T>(a: seq<T>, b: seq<T>, n: nat)
    requires n <= |b|
    ensures Last(a + b, n) == Last(b, n)
  {
  }

  lemma {:induction false} AppendedTags(queue: Queue, data: Bytes, source: Source)
    ensures Tags(Appended(queue, data, source)) == Tags(queue) + Repeat(source, |data|)
    ensures Unsent(Appended(queue, data, source)) == Unsent(queue) + data
  {
    if data == [] {
      assert Tags(queue) + Repeat(source, 0) == Tags(queue) && Unsent(queue) + [] == Unsent(queue);
    } else if queue.End? {
      assert Repeat(source, |data|) + [] == [] + Repeat(source, |data|) && data + [] == [] + data;
    } else {
      AppendedTags(queue.next, data, source);
      var first := Repeat(queue.source, |queue.unsent|);
      assert first + (Tags(queue.next) + Repeat(source, |data|)) == (first + Tags(queue.next)) + Repeat(source, |data|);
      assert queue.unsent + (Unsent(queue.next) + data) == (queue.unsent + Unsent(queue.next)) + data;
    }
  }

  // After a write: the last bytes of what was queued and all of `data`, and their tags.
  lemma {:induction false} WrittenTags(queue: Queue, data: Bytes, source: Source, now: Queue)
    requires Rest(Appended(queue, data, source), now)
    ensures |Tags(now)| <= |Tags(queue)| + |data|
    ensures Tags(now) == Last(Tags(queue) + Repeat(source, |data|), |Tags(now)|)
    ensures Unsent(now) == Last(Unsent(queue) + data, |Tags(now)|)
  {
    AppendedTags(queue, data, source);
    RestTags(Appended(queue, data, source), now);
  }

  // The number of bytes counted against a source is the number of tags with it.
  lemma {:induction false} TaggedIs(queue: Queue, k: Source)
    ensures Tagged(queue, k) == multiset(Tags(queue))[k]
  {
    if queue.Waiting? {
      TaggedIs(queue.next, k);
      CountRepeat(queue.source, |queue.unsent|, k);
    }
  }

  lemma {:induction false} CountRepeat(source: Source, n: nat, k: Source)
    ensures multiset(Repeat(source, n))[k] == if source == k then n else 0
  {
    if n > 0 {
      CountRepeat(source, n - 1, k);
      assert Repeat(source, n) == Repeat(source, n - 1) + [source];
    }
  }

  // Whether the last unsent byte, if there is one, is counted against k.
  predicate EndsWith(queue: Queue, k: Source) {
    queue.Waiting? ==> if queue.next.End? then queue.source == k else EndsWith(queue.next, k)
  }

  lemma {:induction false} RestEnds(queue: Queue, now: Queue, k: Source)
    requires EndsWith(queue, k) && Rest(queue, now)
    ensures EndsWith(now, k)
  {
    if queue != now && !Partly(queue, now) {
      RestEnds(queue.next, now, k);
    }
  }

  // Data put last and counted against k is the last to leave.
  lemma {:induction false} AppendedEnds(queue: Queue, data: Bytes, k: Source)
    requires data != [] || EndsWith(queue, k)
    ensures EndsWith(Appended(queue, data, k), k)
  {
    if data != [] && queue.Waiting? {
      AppendedEnds(queue.next, data, k);
    }
  }

  lemma {:induction false} WrittenEnds(queue: Queue, data: Bytes, k: Source, now: Queue)
    requires Rest(Appended(queue, data, k), now) && (data != [] || EndsWith(queue, k))
    ensures EndsWith(now, k)
  {
    AppendedEnds(queue, data, k);
    RestEnds(Appended(queue, data, k), now, k);
  }

  // As long as anything is queued, something is counted against the source of the
  // last byte.
  lemma {:induction false} EndsCounted(queue: Queue, k: Source, counted: bool)
    requires queue.Waiting? && EndsWith(queue, k) && Good(queue, counted)
    ensures Tagged(queue, k) > 0
  {
    if queue.next.Waiting? {
      EndsCounted(queue.next, k, counted);
    }
  }

  // What is left has no more bytes counted against a source.
  lemma {:induction false} RestLowers(queue: Queue, now: Queue, k: Source)
    requires Rest(queue, now)
    ensures Tagged(now, k) <= Tagged(queue, k)
  {
    if queue != now && !Partly(queue, now) {
      RestLowers(queue.next, now, k);
    }
  }

  // Sending n bytes of the first stream takes them off the unsent bytes, and
  // off the count of its source.
  lemma {:induction false} SentBytes(queue: Queue, n: nat, k: Source, counted: bool)
    requires Good(queue, counted) && queue.Waiting? && n <= |queue.unsent|
    ensures Unsent(queue) == queue.unsent[..n] + Unsent(Sent(queue, n))
    ensures Tagged(queue, k) == (if queue.source == k then n else 0) + Tagged(Sent(queue, n), k)
    ensures Good(Sent(queue, n), counted)
  {
    var first := queue.unsent;
    if n < |first| {
      assert first[..n] + (first[n..] + Unsent(queue.next)) == first + Unsent(queue.next);
    } else {
      assert first[..n] == first;
    }
  }

  lemma {:induction false} AppendUnsent(queue: Queue, data: Bytes, source: Source, k: Source, counted: bool)
    requires Good(queue, counted) && (counted || source == XRDP_SOURCE_NONE)
    ensures Unsent(Appended(queue, data, source)) == Unsent(queue) + data
    ensures Tagged(Appended(queue, data, source), k) == Tagged(queue, k) + if source == k then |data| else 0
    ensures Good(Appended(queue, data, source), counted)
  {
    if queue.End? {
      assert data + [] == data && [] + data == data;
    } else {
      AppendUnsent(queue.next, data, source, k, counted);
      assert queue.unsent + (Unsent(queue.next) + data) == (queue.unsent + Unsent(queue.next)) + data;
    }
  }

  // The queue after a write: what is left of it with all of `out` put last.
  lemma {:induction false} Queued(queue: Queue, out: Bytes, outData: Bytes, source: Source)
    requires |outData| <= |out| && outData == out[|out| - |outData|..]
    requires outData == out || queue.End?
    ensures Rest(Appended(queue, out, source), Appended(queue, outData, source))
  {
    if queue.End? && outData != out {
      if outData == [] {
        RestNext(Appended(queue, out, source), End);
      } else {
        assert Partly(Appended(queue, out, source), Appended(queue, outData, source));
      }
    }
  }

  lemma {:induction false} AcceptedNow(queue: Queue, outData: Bytes, source: Source, out: Bytes,
                                       wire: Bytes, before: Bytes, counted: bool)
    requires Good(queue, counted) && (counted || source == XRDP_SOURCE_NONE)
    requires (wire + Unsent(queue)) + outData == before + out
    ensures wire + Unsent(Appended(queue, outData, source)) == before + out
    ensures Good(Appended(queue, outData, source), counted)
  {
    AppendUnsent(queue, outData, source, source, counted);
    assert wire + (Unsent(queue) + outData) == (wire + Unsent(queue)) + outData;
  }

  // What the socket did not take of `out` is appended, when `queue` is what is left
  // of what was queued at first.
  lemma {:induction false} RestQueued(first: Queue, queue: Queue, out: Bytes, outData: Bytes, source: Source,
                                      wire: Bytes, before: Bytes, counted: bool)
    requires Rest(first, queue) && Good(queue, counted) && (counted || source == XRDP_SOURCE_NONE)
    requires |outData| <= |out| && outData == out[|out| - |outData|..] && (outData == out || queue.End?)
    requires (wire + Unsent(queue)) + outData == before + out
    ensures Rest(Appended(first, out, source), Appended(queue, outData, source))
    ensures wire + Unsent(Appended(queue, outData, source)) == (before + out) + []
    ensures Good(Appended(queue, outData, source), counted)
  {
    Queued(queue, out, outData, source);
    RestWritten(first, queue, out, source, Appended(queue, outData, source));
    AcceptedNow(queue, outData, source, out, wire, before, counted);
  }

  // A write can raise the count of the charged source only.
  lemma {:induction false} WriteCharges(queue: Queue, now: Queue, out: Bytes, source: Source, k: Source)
    requires Good(queue, true) && Rest(Appended(queue, out, source), now)
    ensures Tagged(now, k) <= Tagged(queue, k) + if k == source then |out| else 0
  {
    AppendUnsent(queue, out, source, k, true);
    RestLowers(Appended(queue, out, source), now, k);
  }

  // Taking n bytes of the first stream off the count of its source leaves the
  // other counts as they are; so does counting an appended stream.
  lemma {:induction false} SentCounts(source: seq<int>, queue: Queue, n: nat, counted: bool)
    requires |source| == XRDP_SOURCE_MAX_COUNT && queue.Waiting? && n <= |queue.unsent|
    requires Good(queue, counted)
    ensures var s := queue.source;
            OtherCounts(if s == XRDP_SOURCE_NONE then source else source[s := source[s] - n], Sent(queue, n))
              == OtherCounts(source, queue)
  {
    var s := queue.source;
    var now := if s == XRDP_SOURCE_NONE then source else source[s := source[s] - n];
    forall k: Source
      ensures OtherCounts(now, Sent(queue, n))[k] == OtherCounts(source, queue)[k]
    {
      SentBytes(queue, n, k, counted);
    }
  }

  lemma {:induction false} AppendCounts(source: seq<int>, queue: Queue, data: Bytes, s: Source)
    requires |source| == XRDP_SOURCE_MAX_COUNT && Good(queue, true)
    ensures OtherCounts(if s == XRDP_SOURCE_NONE then source else source[s := source[s] + |data|],
                        Appended(queue, data, s)) == OtherCounts(source, queue)
  {
    var now := if s == XRDP_SOURCE_NONE then source else source[s := source[s] + |data|];
    forall k: Source
      ensures OtherCounts(now, Appended(queue, data, s))[k] == OtherCounts(source, queue)[k]
    {
      AppendUnsent(queue, data, s, k, true);
    }
  }

  // ---------- Several transports ----------

  // The bytes counted against source k in all queues together.
  function Total(queues: seq<Queue>, k: Source): nat {
    if queues == [] then 0 else Tagged(queues[0], k) + Total(queues[1..], k)
  }

  lemma {:induction false} TotalUpdate(queues: seq<Queue>, i: nat, queue: Queue, k: Source)
    requires i < |queues|
    ensures Total(queues[i := queue], k) == Total(queues, k) - Tagged(queues[i], k) + Tagged(queue, k)
    decreases i
  {
    if i == 0 {
      assert queues[0 := queue][1..] == queues[1..];
    } else {
      TotalUpdate(queues[1..], i - 1, queue, k);
      assert queues[i := queue][1..] == queues[1..][i - 1 := queue];
    }
  }

  lemma {:induction false} TotalAtLeast(queues: seq<Queue>, i: nat, k: Source)
    requires i < |queues|
    ensures Total(queues, k) >= Tagged(queues[i], k)
    decreases i
  {
    if i > 0 {
      TotalAtLeast(queues[1..], i - 1, k);
    }
  }

  // Whether some stream of the queue is counted against k.
  predicate CountedIn(queue: Queue, k: Source) {
    queue.Waiting? && (queue.source == k || CountedIn(queue.next, k))
  }

  // A count of zero means that no stream of any queue is counted against k.
  lemma {:induction false} NoneTagged(queue: Queue, k: Source, counted: bool)
    requires Good(queue, counted)
    ensures Tagged(queue, k) == 0 <==> !CountedIn(queue, k)
  {
    if queue.Waiting? {
      NoneTagged(queue.next, k, counted);
    }
  }

  lemma {:induction false} NoneCounted(queues: seq<Queue>, i: nat, k: Source)
    requires i < |queues| && Good(queues[i], true) && Total(queues, k) == 0
    ensures !CountedIn(queues[i], k)
    decreases i
  {
    if i == 0 {
      NoneTagged(queues[0], k, true);
    } else {
      NoneCounted(queues[1..], i - 1, k);
    }
  }
}
