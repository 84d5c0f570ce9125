// The frames of libipm (libipm/libipm_send.c:558-562) byte by byte: what a receiver
// makes of a stream of them, and which headers stop it.
module Frames {
  import opened Unicode
  import opened Sockets
  import opened MessageRuns

  datatype Message = Message(msgno: Char16, payload: Bytes)

  // A frame: version, size, facility and number of the message, each in two bytes with
  // the low one first, four zero bytes, and the payload.
  function Frame(m: Message, facility: Char16): (frame: Bytes)
    requires 12 + |m.payload| <= 8192
    ensures |frame| == 12 + |m.payload|
  {
    var n := 12 + |m.payload|;
    [2, 0, n % 256, n / 256, facility % 256, facility / 256, m.msgno % 256, m.msgno / 256, 0, 0, 0, 0] + m.payload
  }

  predicate Sendable(ms: seq<Message>) {
    forall i :: 0 <= i < |ms| ==> 12 + |ms[i].payload| <= 8192
  }

  function FramesOf(ms: seq<Message>, facility: Char16): (frames: seq<Bytes>)
    requires Sendable(ms)
    ensures |frames| == |ms|
    ensures forall i :: 0 <= i < |ms| ==> frames[i] == Frame(ms[i], facility)
  {
    if ms == [] then [] else [Frame(ms[0], facility)] + FramesOf(ms[1..], facility)
  }

  // The message number of a frame.
  function Number(frame: Bytes): nat
    requires |frame| >= 12
  {
    frame[6] + 256 * frame[7] as int
  }

  // A frame is different for every message.
  lemma {:induction false} FrameUnique(m: Message, facility: Char16)
    requires 12 + |m.payload| <= 8192
    ensures Number(Frame(m, facility)) == m.msgno && Frame(m, facility)[12..] == m.payload
  {
  }

  lemma {:induction false} FrameGood(m: Message, facility: Char16)
    requires 12 + |m.payload| <= 8192
    ensures GoodMessage(Frame(m, facility), facility)
  {
    var n := 12 + |m.payload|;
    assert n == n / 256 * 256 + n % 256 && facility == facility / 256 * 256 + facility % 256;
  }

  lemma {:induction false} FramesGood(ms: seq<Message>, facility: Char16)
    requires Sendable(ms)
    ensures GoodMessages(FramesOf(ms, facility), facility)
  {
    if ms != [] {
      FrameGood(ms[0], facility);
      FramesGood(ms[1..], facility);
    }
  }

  // What is delivered of the first n bytes are the first frames, whole, and the buffer
  // holds the rest, which is less than the frame after them.
  lemma {:induction false} AfterIs(frames: seq<Bytes>, n: nat)
    requires n <= |Concat(frames)| && forall i :: 0 <= i < |frames| ==> |frames[i]| >= 12
    ensures var (complete, state) := After(frames, n);
            && |complete| <= |frames| && complete == frames[..|complete|]
            && Concat(complete) + state.buf == Concat(frames)[..n]
            && (if |complete| == |frames| then state.buf == [] else |state.buf| < |frames[|complete|]|)
  {
    if frames != [] {
      var m, more := frames[0], Concat(frames[1..]);
      if n < |m| {
        assert (m + more)[..n] == m[..n] == [] + m[..n];
      } else {
        AfterIs(frames[1..], n - |m|);
        var (rest, state) := After(frames[1..], n - |m|);
        assert ([m] + rest)[1..] == rest && frames[..|rest| + 1] == [m] + frames[1..][..|rest|];
        assert (m + more)[..n] == m + more[..n - |m|];
        assert m + (Concat(rest) + state.buf) == (m + Concat(rest)) + state.buf;
      }
    }
  }

  // A receiver of any part of a stream of frames, cut in any way, takes exactly the
  // frames that are complete, in order, and is not stopped.
  lemma {:induction false} FramesDelivered(ms: seq<Message>, facility: Char16, n: nat, chunks: seq<Bytes>)
    requires Sendable(ms) && n <= |Concat(FramesOf(ms, facility))|
    requires Fits(START, chunks, facility) && Concat(chunks) == Concat(FramesOf(ms, facility))[..n]
    ensures var frames, out := FramesOf(ms, facility), Deliver(START, chunks, facility);
            && !out.bad && |out.messages| <= |ms| && out.messages == frames[..|out.messages|]
            && Concat(out.messages) + out.state.buf == Concat(frames)[..n]
            && (if |out.messages| == |ms| then out.state.buf == [] else |out.state.buf| < |frames[|out.messages|]|)
  {
    var frames := FramesOf(ms, facility);
    FramesGood(ms, facility);
    ExactlyTheMessages(frames, n, chunks, facility);
    AfterIs(frames, n);
  }

  // The same about the bytes received, however they were.
  lemma {:induction false} FramesParsed(ms: seq<Message>, facility: Char16, n: nat)
    requires Sendable(ms) && n <= |Concat(FramesOf(ms, facility))|
    ensures var frames := FramesOf(ms, facility);
            var out := Parse(Concat(frames)[..n], facility);
            && !out.bad && |out.messages| <= |ms| && out.messages == frames[..|out.messages|]
            && Concat(out.messages) + out.state.buf == Concat(frames)[..n]
            && (if |out.messages| == |ms| then out.state.buf == [] else |out.state.buf| < |frames[|out.messages|]|)
  {
    FramesGood(ms, facility);
    ParseMessages(FramesOf(ms, facility), n, facility);
    AfterIs(FramesOf(ms, facility), n);
  }

  // A header is refused if and only if it differs in the version, the range of the size,
  // the facility or the reserved bytes; nothing is delivered from there on.
  lemma {:induction false} HeaderRefused(bytes: Bytes, facility: Char16)
    requires |bytes| >= 12
    ensures var good := && bytes[0] == 2 && bytes[1] == 0
                        && 12 <= bytes[2] + 256 * bytes[3] as int <= 8192
                        && bytes[4] == facility % 256 && bytes[5] == facility / 256
                        && bytes[8] == 0 && bytes[9] == 0 && bytes[10] == 0 && bytes[11] == 0;
            && (!good ==> Parse(bytes, facility) == Outcome([], MsgIn(bytes[..12], 12, false), true))
            && (good ==> Parse(bytes, facility).messages != [] || !Parse(bytes, facility).bad)
  {
    assert facility == facility / 256 * 256 + facility % 256;
  }

  // The message numbers in the frames.
  function Numbers(messages: seq<Bytes>): seq<nat> {
    if messages == [] then []
    else [if |messages[0]| >= 12 then Number(messages[0]) else 0] + Numbers(messages[1..])
  }

  lemma {:induction false} NumbersSnoc(messages: seq<Bytes>, m: Bytes)
    ensures Numbers(messages + [m]) == Numbers(messages) + [if |m| >= 12 then Number(m) else 0]
  {
    if messages == [] {
      assert [] + [m] == [m];
    } else {
      assert (messages + [m])[1..] == messages[1..] + [m];
      NumbersSnoc(messages[1..], m);
    }
  }

  // Of the first bytes of a stream of frames: what TakeMessages takes are the messages
  // of the complete ones, each with its payload and its number.
  lemma {:induction false} FramesTaken(ms: seq<Message>, facility: Char16, n: nat, out: Outcome)
    requires Sendable(ms) && n <= |Concat(FramesOf(ms, facility))|
    requires out == Parse(Concat(FramesOf(ms, facility))[..n], facility)
    ensures !out.bad && |out.messages| <= |ms| && |Numbers(out.messages)| == |out.messages|
    ensures forall i :: 0 <= i < |out.messages| ==> IsFrameOf(out.messages, i, ms[i])
    ensures n == |Concat(FramesOf(ms, facility))| ==> |out.messages| == |ms| && out.state.buf == []
  {
    FramesParsed(ms, facility, n);
    NumbersLength(out.messages);
    forall i | 0 <= i < |out.messages|
      ensures IsFrameOf(out.messages, i, ms[i])
    {
      FrameTaken(ms, facility, out.messages, i);
    }
    AllTaken(FramesOf(ms, facility), n, out.messages, out.state.buf);
  }

  predicate IsFrameOf(messages: seq<Bytes>, i: nat, m: Message)
    requires i < |messages| == |Numbers(messages)|
  {
    |messages[i]| >= 12 && messages[i][12..] == m.payload && Numbers(messages)[i] == m.msgno
  }

  lemma {:induction false} FrameTaken(ms: seq<Message>, facility: Char16, messages: seq<Bytes>, i: nat)
    requires Sendable(ms) && i < |messages| <= |ms| && messages == FramesOf(ms, facility)[..|messages|]
    ensures |Numbers(messages)| == |messages| && IsFrameOf(messages, i, ms[i])
  {
    assert messages[i] == Frame(ms[i], facility);
    FrameUnique(ms[i], facility);
    NumbersAt(messages, i);
  }

  lemma {:induction false} AllTaken(frames: seq<Bytes>, n: nat, messages: seq<Bytes>, rest: Bytes)
    requires |messages| <= |frames| && messages == frames[..|messages|] && n <= |Concat(frames)|
    requires Concat(messages) + rest == Concat(frames)[..n]
    requires if |messages| == |frames| then rest == [] else |rest| < |frames[|messages|]|
    ensures n == |Concat(frames)| ==> |messages| == |frames|
  {
    if |messages| < |frames| {
      CompleteFrames(frames, |messages|, rest);
    }
  }

  lemma {:induction false} NumbersLength(messages: seq<Bytes>)
    ensures |Numbers(messages)| == |messages|
  {
    if messages != [] {
      NumbersLength(messages[1..]);
    }
  }

  lemma {:induction false} NumbersAt(messages: seq<Bytes>, i: nat)
    requires i < |messages| && |messages[i]| >= 12
    ensures |Numbers(messages)| == |messages| && Numbers(messages)[i] == Number(messages[i])
  {
    NumbersLength(messages);
    if i > 0 {
      NumbersAt(messages[1..], i - 1);
    }
  }

  // Fewer frames and less than the next one are not all.
  lemma {:induction false} CompleteFrames(frames: seq<Bytes>, k: nat, rest: Bytes)
    requires k < |frames| && |rest| < |frames[k]|
    ensures |Concat(frames[..k]) + rest| < |Concat(frames)|
  {
    if k > 0 {
      assert frames[..k][1..] == frames[1..][..k - 1];
      CompleteFrames(frames[1..], k - 1, rest);
    }
  }
}
