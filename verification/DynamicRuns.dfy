// The dynamic channel dechunker of common/dechunker.c (section 2.2.3 of
// [MS-RDPEDYC]): what runs of fragments deliver, and when a ready PDU survives.
module DynamicRuns {
  import opened Unicode

  type Bytes = seq<Byte>

  datatype Status = InlineChunk | InProgress | Ready | Error

  // Nothing under way; or a buffer of the announced size, filled up to p, whose
  // `end` is set when it has become ready.
  datatype State = Idle | Buffer(data: Bytes, p: nat, end: nat)

  datatype Result = Result(state: State, status: Status)

  // A DYNVC_DATA_FIRST fragment leads from st to st'. The part of a new buffer
  // that is not filled yet may hold anything.
  ghost predicate First(st: State, frag: Bytes, totalSize: int, st': State, status: Status) {
    if totalSize <= 1590 || |frag| > totalSize || st.Buffer? then status == Error && st' == st
    else if |frag| == totalSize then status == InlineChunk && st' == st
    else && status == InProgress
         && st'.Buffer? && |st'.data| == totalSize && frag <= st'.data && st'.p == |frag| && st'.end == 0
  }

  // A DYNVC_DATA fragment.
  function Data(st: State, frag: Bytes): Result {
    match st
    case Idle => Result(Idle, InlineChunk)
    case Buffer(data, p, end) =>
      if p + |frag| > |data| then Result(st, Error)
      else
        var data' := data[..p] + frag + data[p + |frag|..];
        if p + |frag| == |data| then Result(Buffer(data', 0, |data|), Ready)
        else Result(Buffer(data', p + |frag|, end), InProgress)
  }

  // dyn_dechunker_get_stream has something to give.
  predicate Available(st: State) {
    st.Buffer? && st.end != 0
  }

  function Join(frags: seq<Bytes>): Bytes {
    if frags == [] then [] else frags[0] + Join(frags[1..])
  }

  // The state after a run of data fragments.
  function Feed(st: State, frags: seq<Bytes>): State
    decreases |frags|
  {
    if frags == [] then st else Feed(Data(st, frags[0]).state, frags[1..])
  }

  // While fragments do not fill the buffer, they are in progress, nothing is
  // available, and the buffer holds their bytes in order.
  lemma {:induction false} Filling(st: State, frags: seq<Bytes>)
    requires st.Buffer? && st.end == 0 && st.p + |Join(frags)| < |st.data|
    ensures var st' := Feed(st, frags);
            && st'.Buffer? && |st'.data| == |st.data| && st'.end == 0 && !Available(st')
            && st'.p == st.p + |Join(frags)| && st'.data[..st'.p] == st.data[..st.p] + Join(frags)
    ensures frags != [] ==> Data(st, frags[0]).status == InProgress
    decreases |frags|
  {
    if frags != [] {
      var next := Data(st, frags[0]).state;
      Filling(next, frags[1..]);
      assert next.data[..next.p] == st.data[..st.p] + frags[0];
      assert (st.data[..st.p] + frags[0]) + Join(frags[1..]) == st.data[..st.p] + (frags[0] + Join(frags[1..]));
    } else {
      assert st.data[..st.p] + [] == st.data[..st.p];
    }
  }

  // A legal split is reassembled: a first fragment, any further ones, and a last
  // one that completes the announced size leave exactly their bytes, ready.
  lemma {:induction false} Reassembled(first: Bytes, middle: seq<Bytes>, last: Bytes, st: State, status: Status)
    requires |first| + |Join(middle)| + |last| > 1590 && |first| + |Join(middle)| < |first| + |Join(middle)| + |last|
    requires First(Idle, first, |first| + |Join(middle)| + |last|, st, status)
    ensures status == InProgress
    ensures Data(Feed(st, middle), last) == Result(Buffer(first + Join(middle) + last, 0, |first| + |Join(middle)| + |last|), Ready)
  {
    Filling(st, middle);
    assert st.data[..|first|] == first;
    var full := Feed(st, middle);
    assert full.data[full.p + |last|..] == [];
    assert full.data[..full.p] + last + [] == first + Join(middle) + last;
  }

  // A ready PDU that has not been taken is handed over intact after another data
  // fragment exactly when that fragment is empty, too large to be stored, or the
  // same bytes again.
  lemma {:induction false} ReadySurvives(pdu: Bytes, frag: Bytes)
    requires pdu != []
    ensures Data(Buffer(pdu, 0, |pdu|), frag).state == Buffer(pdu, 0, |pdu|)
            <==> frag == [] || |frag| > |pdu| || frag == pdu
  {
    var after := Data(Buffer(pdu, 0, |pdu|), frag);
    if |frag| <= |pdu| {
      assert pdu[..0] + frag + pdu[|frag|..] == frag + pdu[|frag|..];
      if |frag| == |pdu| {
        assert frag + pdu[|frag|..] == frag;
      }
      if frag == [] {
        assert frag + pdu[0..] == pdu;
      }
    }
  }

  function Zeros(n: nat): Bytes {
    seq(n, _ => 0)
  }

  // A PDU of 1591 bytes arrives in two fragments and is ready. Before it is taken
  // one byte more arrives, which replaces its first; the buffer is still available.
  lemma {:induction false} ReadyOverwritten(st: State, status: Status)
    requires First(Idle, Zeros(1590), 1591, st, status)
    ensures status == InProgress && Data(st, [0]) == Result(Buffer(Zeros(1591), 0, 1591), Ready)
    ensures Data(Data(st, [0]).state, [1]) == Result(Buffer([1] + Zeros(1590), 1, 1591), InProgress)
    ensures Available(Buffer([1] + Zeros(1590), 1, 1591))
  {
    assert st.data[..1590] == Zeros(1590);
    assert st.data[..1590] + [0] + st.data[1591..] == Zeros(1591);
    assert Zeros(1591)[1..] == Zeros(1590);
    assert Zeros(1591)[..0] + [1] + Zeros(1590) == [1] + Zeros(1590);
  }

  lemma {:induction false} ReadyOverwrittenReached()
    ensures First(Idle, Zeros(1590), 1591, Buffer(Zeros(1591), 1590, 0), InProgress)
  {
    assert Zeros(1591)[..1590] == Zeros(1590);
  }

  // ---------- Every history ----------

  datatype Event =
    | FirstFragment(frag: Bytes, totalSize: int, status: Status)
    | DataFragment(frag: Bytes, status: Status)
    | Take

  // What the PDU under way was announced to hold, and everything accepted since.
  datatype Received = Nothing | Received(size: nat, bytes: Bytes)

  ghost predicate Step(st: State, e: Event, st': State) {
    match e
    case FirstFragment(frag, totalSize, status) => First(st, frag, totalSize, st', status)
    case DataFragment(frag, status) => Data(st, frag) == Result(st', status)
    case Take => st' == if Available(st) then Idle else st
  }

  // A run of the dechunker: states[i] is the state before event i.
  ghost predicate History(states: seq<State>, events: seq<Event>) {
    && |states| == |events| + 1 && states[0] == Idle
    && forall i :: 0 <= i < |events| ==> Step(states[i], events[i], states[i + 1])
  }

  // What has been received, from the events and their results alone.
  function Log(events: seq<Event>): Received {
    if events == [] then Nothing else LogNext(Log(events[..|events| - 1]), events[|events| - 1])
  }

  function LogNext(before: Received, e: Event): Received {
    match e
    case FirstFragment(frag, totalSize, InProgress) => if totalSize < 0 then Nothing else Received(totalSize, frag)
    case DataFragment(frag, InProgress) => Grown(before, frag)
    case DataFragment(frag, Ready) => Grown(before, frag)
    case Take => if before.Received? && |before.bytes| >= before.size then Nothing else before
    case _ => before
  }

  function Grown(r: Received, frag: Bytes): Received {
    match r
    case Nothing => Nothing
    case Received(size, bytes) => Received(size, bytes + frag)
  }

  // The last n bytes.
  function Last(bytes: Bytes, n: nat): Bytes
    requires n <= |bytes|
  {
    bytes[|bytes| - n..]
  }

  // The buffer against what has been received. Until the PDU is complete the
  // buffer holds its bytes so far. From then on it holds the last bytes received,
  // as many as were announced, the oldest of them at the cursor.
  ghost predicate Holds(st: State, r: Received) {
    match r
    case Nothing => st == Idle
    case Received(size, bytes) =>
      && st.Buffer? && size > 0 && |st.data| == size && st.p < size
      && if |bytes| < size then st.p == |bytes| && st.end == 0 && st.data[..st.p] == bytes
         else st.end == size && st.data[st.p..] + st.data[..st.p] == Last(bytes, size)
  }

  lemma {:induction false} Grow(data: Bytes, p: nat, frag: Bytes, bytes: Bytes)
    requires p + |frag| <= |data| <= |bytes| && data[p..] + data[..p] == Last(bytes, |data|)
    ensures data[p + |frag|..] + (data[..p] + frag) == Last(bytes + frag, |data|)
  {
    assert data[p + |frag|..] + data[..p] == (data[p..] + data[..p])[|frag|..];
    assert Last(bytes + frag, |data|) == Last(bytes, |data|)[|frag|..] + frag;
  }

  lemma {:induction false} DataHolds(st: State, frag: Bytes, r: Received)
    requires Holds(st, r)
    ensures var result := Data(st, frag);
            if result.status == InProgress || result.status == Ready then Holds(result.state, Grown(r, frag))
            else result.state == st
    ensures Data(st, frag).status == Ready ==>
              r.Received? && |r.bytes + frag| >= r.size && Data(st, frag).state.data == Last(r.bytes + frag, r.size)
  {
    if st.Buffer? && st.p + |frag| <= |st.data| {
      var p, q := st.p, st.p + |frag|;
      var data' := st.data[..p] + frag + st.data[q..];
      assert data'[..q] == st.data[..p] + frag && data'[q..] == st.data[q..];
      if |r.bytes| >= r.size {
        Grow(st.data, p, frag, r.bytes);
      }
      if q == |st.data| {
        assert data'[0..] + data'[..0] == data' == [] + (st.data[..p] + frag);
      }
    }
  }

  // Over every history of fragments and takings, the buffer is as the log says;
  // and whenever Ready is returned it holds the last bytes received, as many as
  // were announced: the whole PDU, or what has overwritten one that was not taken.
  lemma {:induction false} ReadySound(states: seq<State>, events: seq<Event>)
    requires History(states, events)
    ensures Holds(states[|events|], Log(events))
    ensures events != [] && events[|events| - 1].DataFragment? && events[|events| - 1].status == Ready ==>
              var r, st := Log(events), states[|events|];
              r.Received? && r.size <= |r.bytes| && st == Buffer(Last(r.bytes, r.size), 0, r.size)
    decreases |events|
  {
    if events != [] {
      var n := |events| - 1;
      ReadySound(states[..|events|], events[..n]);
      assert Step(states[n], events[n], states[n + 1]);
      StepHolds(states[n], events[n], states[n + 1], Log(events[..n]));
    }
  }

  lemma {:induction false} StepHolds(st: State, e: Event, st': State, before: Received)
    requires Holds(st, before) && Step(st, e, st')
    ensures Holds(st', LogNext(before, e))
    ensures e.DataFragment? && e.status == Ready ==>
              var r := LogNext(before, e);
              r.Received? && r.size <= |r.bytes| && st' == Buffer(Last(r.bytes, r.size), 0, r.size)
  {
    if e.DataFragment? {
      DataHolds(st, e.frag, before);
    } else if e.FirstFragment? && e.status == InProgress {
      assert st'.data[..|e.frag|] == e.frag;
    }
  }

  // ---------- Delivery ----------

  // When each status of a first fragment is returned.
  lemma {:induction false} FirstStatus(st: State, frag: Bytes, totalSize: int, st': State, status: Status)
    requires First(st, frag, totalSize, st', status)
    ensures status == InlineChunk <==> st.Idle? && totalSize >= 1591 && |frag| == totalSize
    ensures status == InProgress <==> st.Idle? && totalSize >= 1591 && |frag| < totalSize
    ensures status != Ready && (status != InProgress ==> st' == st)
  {
  }

  // A fragment of either kind.
  datatype Fragment = FirstOf(frag: Bytes, totalSize: int) | More(frag: Bytes)

  // A client that takes each PDU as soon as it is there: what one fragment gives it.
  ghost predicate Gives(st: State, f: Fragment, st': State, pdus: seq<Bytes>) {
    match f
    case FirstOf(frag, totalSize) =>
      if First(st, frag, totalSize, st', InlineChunk) then pdus == [frag]
      else (First(st, frag, totalSize, st', InProgress) || First(st, frag, totalSize, st', Error)) && pdus == []
    case More(frag) =>
      var r := Data(st, frag);
      match r.status
      case InlineChunk => st' == r.state && pdus == [frag]
      case Ready => st' == Idle && pdus == [r.state.data]
      case _ => st' == r.state && pdus == []
  }

  // What a run of fragments gives it, in order.
  ghost predicate Delivers(st: State, frags: seq<Fragment>, st': State, pdus: seq<Bytes>)
    decreases |frags|
  {
    if frags == [] then st' == st && pdus == []
    else exists mid, now, later ::
      Gives(st, frags[0], mid, now) && Delivers(mid, frags[1..], st', later) && pdus == now + later
  }

  lemma {:induction false} DeliversMore(st: State, frags: seq<Fragment>, mid: State, now: seq<Bytes>,
                                        st': State, later: seq<Bytes>)
    requires frags != [] && Gives(st, frags[0], mid, now) && Delivers(mid, frags[1..], st', later)
    ensures Delivers(st, frags, st', now + later)
  {
  }

  lemma {:induction false} Regroup<T>(a: seq<T>, b: seq<T>, c: seq<T>)
    ensures a + (b + c) == (a + b) + c
  {
  }

  lemma {:induction false} DeliversFirst(st: State, frags: seq<Fragment>, st': State, pdus: seq<Bytes>)
    returns (mid: State, now: seq<Bytes>, later: seq<Bytes>)
    requires frags != [] && Delivers(st, frags, st', pdus)
    ensures Gives(st, frags[0], mid, now) && Delivers(mid, frags[1..], st', later) && pdus == now + later
  {
    mid, now, later :| Gives(st, frags[0], mid, now) && Delivers(mid, frags[1..], st', later) && pdus == now + later;
  }

  lemma {:induction false} DeliverySplits(st: State, a: seq<Fragment>, b: seq<Fragment>, st': State, pdus: seq<Bytes>)
    returns (mid: State, now: seq<Bytes>, later: seq<Bytes>)
    requires Delivers(st, a + b, st', pdus)
    ensures Delivers(st, a, mid, now) && Delivers(mid, b, st', later) && pdus == now + later
    decreases |a|
  {
    if a == [] {
      mid, now, later := st, [], pdus;
      assert a + b == b && [] + pdus == pdus;
    } else {
      assert (a + b)[0] == a[0] && (a + b)[1..] == a[1..] + b;
      var m, n, l := DeliversFirst(st, a + b, st', pdus);
      var n';
      mid, n', later := DeliverySplits(m, a[1..], b, st', l);
      now := n + n';
      DeliversMore(st, a, m, n, mid, n');
      Regroup(n, n', later);
    }
  }

  // The rest of a split PDU, when `got` of `size` bytes have been sent.
  predicate LegalRest(size: nat, got: nat, frags: seq<Fragment>)
    decreases |frags|
  {
    && frags != [] && frags[0].More?
    && if |frags| == 1 then got + |frags[0].frag| == size
       else got + |frags[0].frag| < size && LegalRest(size, got + |frags[0].frag|, frags[1..])
  }

  // A PDU is sent in a DYNVC_DATA fragment; if it is longer than 1590 bytes it may be
  // sent in a DYNVC_DATA_FIRST fragment, or split.
  predicate LegalPdu(frags: seq<Fragment>) {
    && frags != []
    && if frags[0].More? then |frags| == 1
       else && frags[0].totalSize >= 1591
            && (if |frags| == 1 then |frags[0].frag| == frags[0].totalSize
                else && |frags[0].frag| < frags[0].totalSize
                     && LegalRest(frags[0].totalSize, |frags[0].frag|, frags[1..]))
  }

  function Sent(frags: seq<Fragment>): Bytes {
    if frags == [] then [] else frags[0].frag + Sent(frags[1..])
  }

  // A buffer of `size` bytes that holds the first ones, and is not ready.
  ghost predicate Partial(st: State, size: nat, got: Bytes) {
    st.Buffer? && |st.data| == size && st.p == |got| < size && st.end == 0 && st.data[..st.p] == got
  }

  lemma {:induction false} OneDelivered(st: State, f: Fragment, st': State, pdus: seq<Bytes>)
    requires Delivers(st, [f], st', pdus)
    ensures Gives(st, f, st', pdus)
  {
    var m, n, l := DeliversFirst(st, [f], st', pdus);
    assert n + [] == n;
  }

  lemma {:induction false} PartialGives(st: State, size: nat, got: Bytes, frag: Bytes, st': State, pdus: seq<Bytes>)
    requires Partial(st, size, got) && |got| + |frag| <= size && Gives(st, More(frag), st', pdus)
    ensures |got| + |frag| == size ==> st' == Idle && pdus == [got + frag]
    ensures |got| + |frag| < size ==> Partial(st', size, got + frag) && pdus == []
  {
    var p, q := st.p, st.p + |frag|;
    var data' := st.data[..p] + frag + st.data[q..];
    assert data'[..q] == got + frag;
    if q == size {
      assert data' == got + frag + [] == got + frag;
    }
  }

  lemma {:induction false} RestDelivered(st: State, size: nat, got: Bytes, frags: seq<Fragment>, st': State, pdus: seq<Bytes>)
    requires Partial(st, size, got) && LegalRest(size, |got|, frags) && Delivers(st, frags, st', pdus)
    ensures st' == Idle && pdus == [got + Sent(frags)]
    decreases |frags|
  {
    var f := frags[0];
    if |frags| == 1 {
      assert frags == [f] && frags[1..] == [] && f.frag + [] == f.frag;
      OneDelivered(st, f, st', pdus);
      PartialGives(st, size, got, f.frag, st', pdus);
    } else {
      var m, n, l := DeliversFirst(st, frags, st', pdus);
      PartialGives(st, size, got, f.frag, m, n);
      RestDelivered(m, size, got + f.frag, frags[1..], st', l);
      assert [] + l == l && (got + f.frag) + Sent(frags[1..]) == got + (f.frag + Sent(frags[1..]));
    }
  }

  // Every legal PDU is delivered intact, whatever a new buffer holds.
  lemma {:induction false} PduDelivered(frags: seq<Fragment>, st': State, pdus: seq<Bytes>)
    requires LegalPdu(frags) && Delivers(Idle, frags, st', pdus)
    ensures st' == Idle && pdus == [Sent(frags)]
  {
    var f := frags[0];
    if |frags| == 1 {
      assert frags == [f] && frags[1..] == [] && f.frag + [] == f.frag;
      OneDelivered(Idle, f, st', pdus);
    } else {
      var m, n, l := DeliversFirst(Idle, frags, st', pdus);
      assert m.data[..|f.frag|] == f.frag;
      RestDelivered(m, f.totalSize, f.frag, frags[1..], st', l);
      assert [] + l == l;
    }
  }

  function Flatten(pdus: seq<seq<Fragment>>): seq<Fragment> {
    if pdus == [] then [] else pdus[0] + Flatten(pdus[1..])
  }

  function SentEach(pdus: seq<seq<Fragment>>): seq<Bytes> {
    if pdus == [] then [] else [Sent(pdus[0])] + SentEach(pdus[1..])
  }

  // A stream of PDUs, fragmented or not, is delivered completely and in order.
  lemma {:induction false} StreamDelivered(pdus: seq<seq<Fragment>>, st': State, delivered: seq<Bytes>)
    requires forall i :: 0 <= i < |pdus| ==> LegalPdu(pdus[i])
    requires Delivers(Idle, Flatten(pdus), st', delivered)
    ensures st' == Idle && delivered == SentEach(pdus)
    decreases |pdus|
  {
    if pdus != [] {
      var mid, now, later := DeliverySplits(Idle, pdus[0], Flatten(pdus[1..]), st', delivered);
      PduDelivered(pdus[0], mid, now);
      StreamDelivered(pdus[1..], st', later);
    }
  }

  // Every run of fragments does give the client something, legal or not.
  lemma {:induction false} DeliveryExists(st: State, frags: seq<Fragment>) returns (st': State, pdus: seq<Bytes>)
    ensures Delivers(st, frags, st', pdus)
    decreases |frags|
  {
    if frags == [] {
      st', pdus := st, [];
    } else {
      var mid, now := OneExists(st, frags[0]);
      var later;
      st', later := DeliveryExists(mid, frags[1..]);
      pdus := now + later;
      DeliversMore(st, frags, mid, now, st', later);
    }
  }

  lemma {:induction false} OneExists(st: State, f: Fragment) returns (st': State, pdus: seq<Bytes>)
    ensures Gives(st, f, st', pdus)
  {
    match f
    case FirstOf(frag, totalSize) =>
      st', pdus := st, [];
      if st.Idle? && totalSize > 1590 && |frag| == totalSize {
        pdus := [frag];
      } else if st.Idle? && totalSize > 1590 && |frag| < totalSize {
        st' := Buffer(frag + Zeros(totalSize - |frag|), |frag|, 0);
      }
    case More(frag) =>
      var r := Data(st, frag);
      st' := if r.status == Ready then Idle else r.state;
      pdus := if r.status == InlineChunk then [frag] else if r.status == Ready then [r.state.data] else [];
  }
}
