// The framing of libipm messages (libipm/libipm_recv.c), as a function of what
// is received: the state of the input stream and what is reported.
module MessageRuns {
  import opened Unicode
  import opened Sockets

  const LIBIPM_MAX_MSG_SIZE := 8192
  const LIBIPM_VERSION := 2
  const HEADER_SIZE := 12

  // A little-endian 16-bit field.
  function Field(buf: Bytes, at: nat): nat
    requires at + 2 <= |buf|
  {
    buf[at] + buf[at + 1] as int * 0x100
  }

  function MsgSize(buf: Bytes): nat
    requires |buf| >= HEADER_SIZE
  {
    Field(buf, 2)
  }

  predicate GoodHeader(buf: Bytes, facility: nat)
    requires |buf| >= HEADER_SIZE
  {
    && Field(buf, 0) == LIBIPM_VERSION
    && HEADER_SIZE <= MsgSize(buf) <= LIBIPM_MAX_MSG_SIZE
    && Field(buf, 4) == facility
    && Field(buf, 8) == 0 && Field(buf, 10) == 0
  }

  predicate GoodMessage(m: Bytes, facility: nat) {
    |m| >= HEADER_SIZE && GoodHeader(m, facility) && MsgSize(m) == |m|
  }

  predicate GoodMessages(ms: seq<Bytes>, facility: nat) {
    ms == [] || (GoodMessage(ms[0], facility) && GoodMessages(ms[1..], facility))
  }

  // What has been read of a message, how much of it is to be read before the
  // next check (header_size), and whether its header has been checked (extra_flags).
  datatype MsgIn = MsgIn(buf: Bytes, need: nat, checked: bool)

  datatype Status = Waiting | Available | BadHeader

  const START := MsgIn([], HEADER_SIZE, false)

  predicate Sound(s: MsgIn, facility: nat) {
    && |s.buf| <= s.need <= LIBIPM_MAX_MSG_SIZE
    && if s.checked
       then HEADER_SIZE <= |s.buf| && GoodHeader(s.buf, facility) && s.need == MsgSize(s.buf)
       else s.need == HEADER_SIZE
  }

  // libipm_msg_in_check_available
  function Check(s: MsgIn, facility: nat): (r: (MsgIn, Status))
    requires |s.buf| <= s.need && (!s.checked ==> s.need == HEADER_SIZE)
  {
    if |s.buf| != s.need then (s, Waiting)
    else if s.checked then (s, Available)
    else if GoodHeader(s.buf, facility) then
      (MsgIn(s.buf, MsgSize(s.buf), true), if MsgSize(s.buf) == HEADER_SIZE then Available else Waiting)
    else (s, BadHeader)
  }

  // A receive of the next bytes of the stream, and the check after it.
  function Receive(s: MsgIn, chunk: Bytes, facility: nat): (r: (MsgIn, Status))
    requires |s.buf| + |chunk| <= s.need && (!s.checked ==> s.need == HEADER_SIZE)
  {
    Check(s.(buf := s.buf + chunk), facility)
  }

  // What a sequence of receives delivers, where the receiver takes every
  // message and resets, and stops at a bad header.
  datatype Outcome = Outcome(messages: seq<Bytes>, state: MsgIn, bad: bool)

  // No receive asks for more than is needed.
  predicate Fits(s: MsgIn, chunks: seq<Bytes>, facility: nat)
    requires Sound(s, facility)
    decreases |chunks|
  {
    chunks == [] ||
    (|s.buf| + |chunks[0]| <= s.need &&
     var (next, status) := Receive(s, chunks[0], facility);
     StaysSound(s, chunks[0], facility);
     match status
     case Waiting => Fits(next, chunks[1..], facility)
     case Available => Fits(START, chunks[1..], facility)
     case BadHeader => true)
  }

  function Deliver(s: MsgIn, chunks: seq<Bytes>, facility: nat): Outcome
    requires Sound(s, facility) && Fits(s, chunks, facility)
    decreases |chunks|
  {
    if chunks == [] then Outcome([], s, false)
    else
      var (next, status) := Receive(s, chunks[0], facility);
      StaysSound(s, chunks[0], facility);
      match status
      case Waiting => Deliver(next, chunks[1..], facility)
      case Available =>
        var rest := Deliver(START, chunks[1..], facility);
        rest.(messages := [next.buf] + rest.messages)
      case BadHeader => Outcome([], next, true)
  }

  // Whatever is received, the buffer is never overrun, and only a message
  // with a good header and of the size it states is available.
  lemma {:induction false} StaysSound(s: MsgIn, chunk: Bytes, facility: nat)
    requires Sound(s, facility) && |s.buf| + |chunk| <= s.need
    ensures var (next, status) := Receive(s, chunk, facility);
            && (status != BadHeader ==> Sound(next, facility))
            && (status == Available ==> GoodMessage(next.buf, facility))
            && (status == Waiting ==> |next.buf| < next.need)
            && next.buf == s.buf + chunk && |next.buf| <= LIBIPM_MAX_MSG_SIZE
  {
    if s.checked {
      assert forall i :: 0 <= i < HEADER_SIZE ==> (s.buf + chunk)[i] == s.buf[i];
    }
  }

  function Concat(chunks: seq<Bytes>): Bytes {
    if chunks == [] then [] else chunks[0] + Concat(chunks[1..])
  }

  // What a stream of bytes comes to, read off the whole of it at once.
  function Parse(bytes: Bytes, facility: nat): (r: Outcome)
    ensures |r.state.buf| <= r.state.need && (!r.state.checked ==> r.state.need == HEADER_SIZE)
    decreases |bytes|
  {
    if |bytes| < HEADER_SIZE then Outcome([], MsgIn(bytes, HEADER_SIZE, false), false)
    else if !GoodHeader(bytes, facility) then Outcome([], MsgIn(bytes[..HEADER_SIZE], HEADER_SIZE, false), true)
    else
      var size := MsgSize(bytes);
      if |bytes| < size then Outcome([], MsgIn(bytes, size, true), false)
      else
        var rest := Parse(bytes[size..], facility);
        rest.(messages := [bytes[..size]] + rest.messages)
  }

  // For every stream, well formed or not, and every way of cutting it into
  // receives, what is delivered, what is left in the buffer and whether a bad
  // header stops the receiver are those of the stream as a whole.
  lemma {:induction false} SegmentationIndependent(s: MsgIn, chunks: seq<Bytes>, facility: nat)
    requires Sound(s, facility) && |s.buf| < s.need && Fits(s, chunks, facility)
    ensures Deliver(s, chunks, facility) == Parse(s.buf + Concat(chunks), facility)
    decreases |chunks|
  {
    if chunks == [] {
      assert s.buf + [] == s.buf;
    } else {
      var c, more := chunks[0], Concat(chunks[1..]);
      var (next, status) := Receive(s, c, facility);
      StaysSound(s, c, facility);
      assert s.buf + (c + more) == next.buf + more;
      match status
      case Waiting =>
        SegmentationIndependent(next, chunks[1..], facility);
      case Available =>
        SegmentationIndependent(START, chunks[1..], facility);
        ParseMessage(next.buf, more, facility);
        assert START.buf + more == more;
      case BadHeader =>
        SameHeader(next.buf, more, facility);
    }
  }

  lemma {:induction false} SameHeader(buf: Bytes, more: Bytes, facility: nat)
    requires |buf| >= HEADER_SIZE
    ensures GoodHeader(buf + more, facility) == GoodHeader(buf, facility) && MsgSize(buf + more) == MsgSize(buf)
    ensures (buf + more)[..HEADER_SIZE] == buf[..HEADER_SIZE]
    ensures |buf| == HEADER_SIZE ==> (buf + more)[..HEADER_SIZE] == buf
  {
  }

  lemma {:induction false} ParseMessage(m: Bytes, more: Bytes, facility: nat)
    requires GoodMessage(m, facility)
    ensures var rest := Parse(more, facility);
            Parse(m + more, facility) == rest.(messages := [m] + rest.messages)
  {
    SameHeader(m, more, facility);
    assert (m + more)[..|m|] == m && (m + more)[|m|..] == more;
  }

  // The next receive, where the bytes before it have been parsed already.
  lemma {:induction false} ParseNext(bytes: Bytes, chunk: Bytes, facility: nat)
    requires var was := Parse(bytes, facility); !was.bad && |was.state.buf| + |chunk| <= was.state.need
    ensures var was := Parse(bytes, facility);
            var (next, status) := Receive(was.state, chunk, facility);
            Parse(bytes + chunk, facility) ==
              match status
              case Waiting => was.(state := next)
              case Available => Outcome(was.messages + [next.buf], START, false)
              case BadHeader => was.(state := next, bad := true)
    decreases |bytes|
  {
    if |bytes| < HEADER_SIZE || |bytes| < MsgSize(bytes) {
      var state := Parse(bytes, facility).state;
      SegmentationIndependent(state, [chunk], facility);
      assert Concat([chunk]) == chunk + [];
      assert chunk + [] == chunk;
    } else {
      var size := MsgSize(bytes);
      SameHeader(bytes, chunk, facility);
      assert (bytes + chunk)[..size] == bytes[..size];
      assert (bytes + chunk)[size..] == bytes[size..] + chunk;
      ParseNext(bytes[size..], chunk, facility);
    }
  }

  lemma {:induction false} ParseSound(bytes: Bytes, facility: nat)
    ensures var out := Parse(bytes, facility);
            !out.bad ==> Sound(out.state, facility) && |out.state.buf| < out.state.need
    decreases |bytes|
  {
    if |bytes| >= HEADER_SIZE && GoodHeader(bytes, facility) && |bytes| >= MsgSize(bytes) {
      ParseSound(bytes[MsgSize(bytes)..], facility);
    }
  }

  // The messages that are complete in the first n bytes of a stream of
  // messages, and what is in the buffer of the one that is not.
  function After(ms: seq<Bytes>, n: nat): (r: (seq<Bytes>, MsgIn)) {
    if ms == [] then ([], START)
    else if n < |ms[0]| then
      ([], MsgIn(ms[0][..n], if n < HEADER_SIZE then HEADER_SIZE else |ms[0]|, n >= HEADER_SIZE))
    else
      var (complete, state) := After(ms[1..], n - |ms[0]|);
      ([ms[0]] + complete, state)
  }

  // Of a stream of good messages exactly the complete ones are delivered, each
  // with its own bytes, and nothing is ever taken for a bad header.
  lemma {:induction false} ExactlyTheMessages(ms: seq<Bytes>, n: nat, chunks: seq<Bytes>, facility: nat)
    requires GoodMessages(ms, facility) && n <= |Concat(ms)|
    requires Fits(START, chunks, facility) && Concat(chunks) == Concat(ms)[..n]
    ensures var (complete, state) := After(ms, n);
            Deliver(START, chunks, facility) == Outcome(complete, state, false)
  {
    SegmentationIndependent(START, chunks, facility);
    assert START.buf + Concat(chunks) == Concat(ms)[..n];
    ParseMessages(ms, n, facility);
  }

  lemma {:induction false} ParseMessages(ms: seq<Bytes>, n: nat, facility: nat)
    requires GoodMessages(ms, facility) && n <= |Concat(ms)|
    ensures var (complete, state) := After(ms, n);
            Parse(Concat(ms)[..n], facility) == Outcome(complete, state, false)
  {
    if ms != [] {
      var m, more := ms[0], Concat(ms[1..]);
      if n < |m| {
        assert (m + more)[..n] == m[..n];
        if n >= HEADER_SIZE {
          assert m[..n] + m[n..] == m;
          SameHeader(m[..n], m[n..], facility);
        }
      } else {
        assert (m + more)[..n] == m + more[..n - |m|];
        ParseMessages(ms[1..], n - |m|, facility);
        ParseMessage(m, more[..n - |m|], facility);
      }
    }
  }
}
