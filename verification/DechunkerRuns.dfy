// common/dechunker.c as a state machine: one step per chunk, what whole
// histories of chunks deliver, and how the machine resynchronises (sections
// 3.1.5.2.1 and 3.1.5.2.2.1 of [MS-RDPBCGR]).
module DechunkerRuns {
  import opened Unicode

  type Bytes = seq<Byte>

  // The two low bits of the flags: CHANNEL_FLAG_FIRST and CHANNEL_FLAG_LAST. What is
  // proved speaks of the bits themselves: flags % 2 and flags / 2 % 2.
  datatype ChunkType = Intermediate | First | Last | FirstLast

  function TypeOf(flags: int): ChunkType {
    match flags % 4
    case 0 => Intermediate
    case 1 => First
    case 2 => Last
    case _ => FirstLast
  }

  datatype Chunk = Chunk(flags: int, totalSize: int, payload: Bytes) {
    function Type(): ChunkType { TypeOf(flags) }
  }

  datatype Status = InlineChunk | InProgress | Ready | Error

  lemma {:induction false} TypeBits(flags: int)
    ensures TypeOf(flags) == First <==> flags % 2 == 1 && flags / 2 % 2 == 0
    ensures TypeOf(flags) == Last <==> flags % 2 == 0 && flags / 2 % 2 == 1
    ensures TypeOf(flags) == FirstLast <==> flags % 2 == 1 && flags / 2 % 2 == 1
    ensures TypeOf(flags) == Intermediate <==> flags % 4 == 0
  {
    assert flags == 4 * (flags / 4) + flags % 4;
  }

  // What a dechunker knows: `got` is the part received of a PDU of `size` bytes.
  datatype State = NoData | Reading(size: nat, got: Bytes) | Data(pdu: Bytes) | Skipping

  // The new state, the status returned, and whether the payload was read.
  datatype Result = Result(state: State, status: Status, consumed: bool)

  function StepNoData(maxChunk: int, c: Chunk): Result {
    match c.Type()
    case First =>
      if c.totalSize <= maxChunk then Result(Skipping, Error, false)
      else if |c.payload| >= c.totalSize then Result(Skipping, Error, false)
      else Result(Reading(c.totalSize, c.payload), InProgress, true)
    case FirstLast => Result(NoData, InlineChunk, false)
    case _ => Result(Skipping, Error, false)
  }

  function StepReading(size: nat, got: Bytes, c: Chunk): Result {
    if c.Type() != Intermediate && c.Type() != Last then Result(Skipping, Error, false)
    else if |got| + |c.payload| > size then Result(Skipping, Error, false)
    else if c.Type() == Intermediate then Result(Reading(size, got + c.payload), InProgress, true)
    else if |got| + |c.payload| == size then Result(Data(got + c.payload), Ready, true)
    else Result(Skipping, Error, true)
  }

  // vc_dechunker_process_chunk
  function Step(maxChunk: int, st: State, c: Chunk): Result {
    if c.totalSize < 0 || |c.payload| > maxChunk then Result(Skipping, Error, false)
    else
      var st' := if st.Skipping? && (c.Type() == First || c.Type() == FirstLast) then NoData else st;
      match st'
      case NoData => StepNoData(maxChunk, c)
      case Reading(size, got) => StepReading(size, got, c)
      case Data(_) => Result(st', Error, false)
      case Skipping => Result(st', InProgress, false)
  }

  // When each status is returned, and an error in all other cases.
  lemma {:induction false} StatusExact(maxChunk: int, st: State, c: Chunk)
    ensures var status := Step(maxChunk, st, c).status;
            var size := |c.payload|;
            var inRange := c.totalSize >= 0 && size <= maxChunk;
            var first, last := c.flags % 2 == 1, c.flags / 2 % 2 == 1;
            var idle := st.NoData? || st.Skipping?;
            var starts := idle && first && !last && c.totalSize > maxChunk && size < c.totalSize;
            var continues := st.Reading? && !first && !last && |st.got| + size <= st.size;
            var ignored := st.Skipping? && !first;
            && (status == InlineChunk <==> inRange && idle && first && last)
            && (status == Ready <==> inRange && st.Reading? && !first && last && |st.got| + size == st.size)
            && (status == InProgress <==> inRange && (starts || continues || ignored))
  {
    TypeBits(c.flags);
  }

  // The payload is read exactly if it is put into the buffer; then the buffer grows by it.
  lemma {:induction false} ConsumedExact(maxChunk: int, st: State, c: Chunk)
    ensures var r := Step(maxChunk, st, c);
            var inRange := c.totalSize >= 0 && |c.payload| <= maxChunk;
            var fits := st.Reading? && c.flags % 2 == 0 && |st.got| + |c.payload| <= st.size;
            && (r.consumed <==> inRange && (fits || (r.status == InProgress && c.flags % 2 == 1)))
            && (r.consumed && r.status == InProgress ==> r.state.Reading?)
            && (r.state.Reading? ==> r.state.got == (if st.Reading? then st.got else []) + c.payload)
            && (r.state.Data? && !st.Data? ==> st.Reading? && r.state.pdu == st.got + c.payload)
  {
    TypeBits(c.flags);
    assert [] + c.payload == c.payload;
  }

  // vc_dechunker_get_stream leaves the dechunker ready for the next PDU.
  function Take(st: State): State {
    if st.Data? then NoData else st
  }

  // ---------- Histories ----------

  datatype Event = Arrive(c: Chunk) | GetStream

  function After(maxChunk: int, st: State, e: Event): State {
    match e
    case Arrive(c) => Step(maxChunk, st, c).state
    case GetStream => Take(st)
  }

  // The state after a history that starts with a new dechunker.
  function Run(maxChunk: int, history: seq<Event>): State {
    if history == [] then NoData
    else After(maxChunk, Run(maxChunk, history[..|history| - 1]), history[|history| - 1])
  }

  // The payloads of a history, in order.
  function Payloads(history: seq<Event>): Bytes {
    if history == [] then []
    else Payloads(history[..|history| - 1]) + PayloadOf(history[|history| - 1])
  }

  // From position i on, the history holds one PDU: its FIRST chunk, then only
  // intermediate chunks (and requests for a stream that is not ready yet).
  ghost predicate PduFrom(maxChunk: int, history: seq<Event>, i: nat, size: nat) {
    && i < |history|
    && history[i].Arrive? && history[i].c.flags % 2 == 1 && history[i].c.flags / 2 % 2 == 0
    && history[i].c.totalSize == size > maxChunk
    && Run(maxChunk, history[..i]) in {NoData, Skipping}
    && forall j :: i < j < |history| && history[j].Arrive? ==> history[j].c.flags % 4 == 0
  }

  function PayloadOf(e: Event): Bytes {
    match e
    case Arrive(c) => c.payload
    case GetStream => []
  }

  // The machine is reading after an event: it has been, or a FIRST chunk was accepted.
  lemma {:induction false} ReadingAfter(maxChunk: int, st: State, e: Event)
    requires After(maxChunk, st, e).Reading?
    ensures st.Reading? ==> (e.Arrive? ==> e.c.flags % 4 == 0)
                            && After(maxChunk, st, e) == Reading(st.size, st.got + PayloadOf(e))
    ensures !st.Reading? ==> st in {NoData, Skipping} && e.Arrive? && e.c.flags % 2 == 1 && e.c.flags / 2 % 2 == 0
                             && e.c.totalSize > maxChunk && e.c.totalSize >= 0 && After(maxChunk, st, e) == Reading(e.c.totalSize, e.c.payload)
  {
    if e.Arrive? {
      TypeBits(e.c.flags);
    } else {
      assert st.Reading? ==> st.got + [] == st.got;
    }
  }

  // A history grows by an event.
  lemma {:induction false} Snoc(maxChunk: int, history: seq<Event>, e: Event)
    ensures Run(maxChunk, history + [e]) == After(maxChunk, Run(maxChunk, history), e)
    ensures Payloads(history + [e]) == Payloads(history) + PayloadOf(e)
  {
    assert (history + [e])[..|history|] == history;
  }

  lemma {:induction false} OriginStays(maxChunk: int, history: seq<Event>, e: Event, i: nat, size: nat)
    requires PduFrom(maxChunk, history, i, size) && (e.Arrive? ==> e.c.flags % 4 == 0)
    ensures PduFrom(maxChunk, history + [e], i, size)
    ensures Payloads((history + [e])[i..]) == Payloads(history[i..]) + PayloadOf(e)
  {
    assert (history + [e])[..i] == history[..i] && (history + [e])[i..] == history[i..] + [e];
    Snoc(maxChunk, history[i..], e);
  }

  lemma {:induction false} OriginHere(maxChunk: int, history: seq<Event>, e: Event)
    requires Run(maxChunk, history) in {NoData, Skipping}
    requires e.Arrive? && e.c.flags % 2 == 1 && e.c.flags / 2 % 2 == 0 && e.c.totalSize > maxChunk && e.c.totalSize >= 0
    ensures PduFrom(maxChunk, history + [e], |history|, e.c.totalSize)
    ensures Payloads((history + [e])[|history|..]) == e.c.payload
  {
    assert (history + [e])[..|history|] == history && (history + [e])[|history|..] == [] + [e];
    Snoc(maxChunk, [], e);
  }

  lemma {:induction false} ReadingOrigin(maxChunk: int, history: seq<Event>) returns (i: nat)
    requires Run(maxChunk, history).Reading?
    ensures PduFrom(maxChunk, history, i, Run(maxChunk, history).size)
    ensures Payloads(history[i..]) == Run(maxChunk, history).got
    decreases |history|
  {
    var n := |history| - 1;
    var before, e := history[..n], history[n];
    assert history == before + [e];
    Snoc(maxChunk, before, e);
    ReadingAfter(maxChunk, Run(maxChunk, before), e);
    if Run(maxChunk, before).Reading? {
      i := ReadingOrigin(maxChunk, before);
      OriginStays(maxChunk, before, e, i, Run(maxChunk, before).size);
    } else {
      i := n;
      OriginHere(maxChunk, before, e);
    }
  }

  // Whenever a PDU is announced, the buffer is exactly the payloads of the chunks
  // from the last accepted FIRST chunk to the LAST one, and has the length that
  // FIRST chunk announced.
  lemma {:induction false} ReadySound(maxChunk: int, history: seq<Event>, c: Chunk) returns (i: nat)
    requires Step(maxChunk, Run(maxChunk, history), c).status == Ready
    ensures c.flags % 2 == 0 && c.flags / 2 % 2 == 1 && i < |history|
    ensures var pdu := Payloads(history[i..]) + c.payload;
            && PduFrom(maxChunk, history, i, |pdu|)
            && Step(maxChunk, Run(maxChunk, history), c).state == Data(pdu)
  {
    StatusExact(maxChunk, Run(maxChunk, history), c);
    TypeBits(c.flags);
    i := ReadingOrigin(maxChunk, history);
  }

  // ---------- Delivery ----------

  // A client that takes each stream as soon as it is ready: the state and the
  // PDUs delivered, in order.
  datatype Delivery = Delivery(state: State, pdus: seq<Bytes>)

  function DeliverOne(maxChunk: int, st: State, c: Chunk): Delivery {
    var r := Step(maxChunk, st, c);
    if r.status == InlineChunk then Delivery(r.state, [c.payload])
    else if r.status == Ready then Delivery(Take(r.state), [r.state.pdu])
    else Delivery(r.state, [])
  }

  function Deliver(maxChunk: int, st: State, chunks: seq<Chunk>): Delivery
    decreases |chunks|
  {
    if chunks == [] then Delivery(st, [])
    else
      var one := DeliverOne(maxChunk, st, chunks[0]);
      var rest := Deliver(maxChunk, one.state, chunks[1..]);
      Delivery(rest.state, one.pdus + rest.pdus)
  }

  lemma {:induction false} DeliverConcat(maxChunk: int, st: State, a: seq<Chunk>, b: seq<Chunk>)
    ensures var da := Deliver(maxChunk, st, a);
            var db := Deliver(maxChunk, da.state, b);
            Deliver(maxChunk, st, a + b) == Delivery(db.state, da.pdus + db.pdus)
    decreases |a|
  {
    if a == [] {
      var db := Deliver(maxChunk, st, b);
      assert a + b == b && [] + db.pdus == db.pdus;
    } else {
      var one := DeliverOne(maxChunk, st, a[0]);
      DeliverConcat(maxChunk, one.state, a[1..], b);
      assert (a + b)[1..] == a[1..] + b;
      var db := Deliver(maxChunk, Deliver(maxChunk, st, a).state, b);
      var rest := Deliver(maxChunk, one.state, a[1..]);
      Regroup(one.pdus, rest.pdus, db.pdus);
    }
  }

  lemma {:induction false} Regroup<T>(a: seq<T>, b: seq<T>, c: seq<T>)
    ensures a + (b + c) == (a + b) + c
  {
  }

  // The rest of a split PDU: chunks with neither flag and one with CHANNEL_FLAG_LAST
  // only, each in range.
  predicate LegalRest(maxChunk: int, chunks: seq<Chunk>) {
    && chunks != []
    && chunks[0].totalSize >= 0 && |chunks[0].payload| <= maxChunk
    && (if |chunks| == 1 then chunks[0].flags % 2 == 0 && chunks[0].flags / 2 % 2 == 1
        else chunks[0].flags % 4 == 0 && LegalRest(maxChunk, chunks[1..]))
  }

  function Join(chunks: seq<Chunk>): Bytes {
    if chunks == [] then [] else chunks[0].payload + Join(chunks[1..])
  }

  // A PDU is sent as one chunk with both flags, or split when it is larger than a
  // chunk may be; then the first one has CHANNEL_FLAG_FIRST only.
  predicate LegalPdu(maxChunk: int, chunks: seq<Chunk>) {
    && chunks != [] && chunks[0].totalSize >= 0 && |chunks[0].payload| <= maxChunk
    && chunks[0].flags % 2 == 1
    && (if |chunks| == 1 then chunks[0].flags / 2 % 2 == 1
        else && chunks[0].flags / 2 % 2 == 0 && chunks[0].totalSize == |Join(chunks)| > maxChunk
             && LegalRest(maxChunk, chunks[1..]))
  }

  lemma {:induction false} RestDelivered(maxChunk: int, size: nat, got: Bytes, chunks: seq<Chunk>)
    requires LegalRest(maxChunk, chunks) && |got| + |Join(chunks)| == size
    ensures Deliver(maxChunk, Reading(size, got), chunks) == Delivery(NoData, [got + Join(chunks)])
    decreases |chunks|
  {
    var c := chunks[0];
    TypeBits(c.flags);
    assert (got + c.payload) + Join(chunks[1..]) == got + (c.payload + Join(chunks[1..]));
    if |chunks| == 1 {
      assert chunks[1..] == [];
      assert got + c.payload + [] == got + c.payload;
    } else {
      RestDelivered(maxChunk, size, got + c.payload, chunks[1..]);
    }
  }

  // Every legal PDU is delivered intact when no other PDU is under way.
  lemma {:induction false} PduDelivered(maxChunk: int, st: State, chunks: seq<Chunk>)
    requires LegalPdu(maxChunk, chunks) && (st.NoData? || st.Skipping?)
    ensures Deliver(maxChunk, st, chunks) == Delivery(NoData, [Join(chunks)])
  {
    var c := chunks[0];
    TypeBits(c.flags);
    if |chunks| == 1 {
      assert chunks[1..] == [] && c.payload + [] == c.payload;
    } else {
      RestDelivered(maxChunk, c.totalSize, c.payload, chunks[1..]);
    }
  }

  lemma {:induction false} RestSkipped(maxChunk: int, chunks: seq<Chunk>)
    requires LegalRest(maxChunk, chunks)
    ensures Deliver(maxChunk, Skipping, chunks) == Delivery(Skipping, [])
    decreases |chunks|
  {
    TypeBits(chunks[0].flags);
    if |chunks| > 1 {
      RestSkipped(maxChunk, chunks[1..]);
    } else {
      assert chunks[1..] == [];
    }
  }

  // A PDU that arrives while another is unfinished is lost whole, and both are.
  lemma {:induction false} PduLost(maxChunk: int, st: State, chunks: seq<Chunk>)
    requires LegalPdu(maxChunk, chunks) && st.Reading?
    ensures Deliver(maxChunk, st, chunks) == Delivery(Skipping, [])
  {
    TypeBits(chunks[0].flags);
    if |chunks| > 1 {
      RestSkipped(maxChunk, chunks[1..]);
    } else {
      assert chunks[1..] == [];
    }
  }

  // A client that takes each ready stream never leaves data behind.
  lemma {:induction false} NeverData(maxChunk: int, st: State, chunks: seq<Chunk>)
    requires !st.Data?
    ensures !Deliver(maxChunk, st, chunks).state.Data?
    decreases |chunks|
  {
    if chunks != [] {
      NeverData(maxChunk, DeliverOne(maxChunk, st, chunks[0]).state, chunks[1..]);
    }
  }

  function Flatten(pdus: seq<seq<Chunk>>): seq<Chunk> {
    if pdus == [] then [] else pdus[0] + Flatten(pdus[1..])
  }

  function JoinEach(pdus: seq<seq<Chunk>>): seq<Bytes> {
    if pdus == [] then [] else [Join(pdus[0])] + JoinEach(pdus[1..])
  }

  // A stream of legal PDUs is delivered completely and in order.
  lemma {:induction false} StreamDelivered(maxChunk: int, st: State, pdus: seq<seq<Chunk>>)
    requires forall i :: 0 <= i < |pdus| ==> LegalPdu(maxChunk, pdus[i])
    requires st.NoData? || st.Skipping?
    ensures Deliver(maxChunk, st, Flatten(pdus)).pdus == JoinEach(pdus)
    decreases |pdus|
  {
    if pdus != [] {
      PduDelivered(maxChunk, st, pdus[0]);
      StreamDelivered(maxChunk, NoData, pdus[1..]);
      DeliverConcat(maxChunk, st, pdus[0], Flatten(pdus[1..]));
    }
  }

  // Resynchronisation: after any chunks whatever, a stream of legal PDUs is
  // delivered completely and in order, except for the first one exactly when
  // another PDU was under way.
  lemma {:induction false} Resynchronises(maxChunk: int, garbage: seq<Chunk>, pdus: seq<seq<Chunk>>)
    requires pdus != [] && forall i :: 0 <= i < |pdus| ==> LegalPdu(maxChunk, pdus[i])
    ensures var before := Deliver(maxChunk, NoData, garbage);
            Deliver(maxChunk, NoData, garbage + Flatten(pdus)).pdus
            == before.pdus + if before.state.Reading? then JoinEach(pdus[1..]) else JoinEach(pdus)
  {
    var before := Deliver(maxChunk, NoData, garbage);
    NeverData(maxChunk, NoData, garbage);
    DeliverConcat(maxChunk, NoData, garbage, Flatten(pdus));
    if before.state.Reading? {
      PduLost(maxChunk, before.state, pdus[0]);
      StreamDelivered(maxChunk, Skipping, pdus[1..]);
      DeliverConcat(maxChunk, before.state, pdus[0], Flatten(pdus[1..]));
      assert [] + JoinEach(pdus[1..]) == JoinEach(pdus[1..]);
    } else {
      StreamDelivered(maxChunk, before.state, pdus);
    }
  }

  // Data that has not been taken stays, but only while chunks are in range: an
  // oversize chunk or a negative total size discards it.
  lemma {:induction false} DataStays(maxChunk: int, pdu: Bytes, c: Chunk)
    ensures Step(maxChunk, Data(pdu), c).state == Data(pdu) <==> c.totalSize >= 0 && |c.payload| <= maxChunk
    ensures Step(maxChunk, Data(pdu), c).status == Error
  {
  }
}
