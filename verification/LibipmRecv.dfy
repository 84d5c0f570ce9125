// libipm/libipm_recv.c: a receiver of messages over a transport.
module LibipmRecv {
  import opened Unicode
  import opened Streams
  import opened Sockets
  import opened Transport
  import opened MessageRuns
  import Frames

  datatype LibipmStatus = SUCCESS | PROGRAM_ERROR | BAD_HEADER | TRANSPORT_ERROR

  // The callback trans_data_in, or none.
  type Callback = nat

  const NULL: Callback := 0

  // A struct trans with its struct libipm_priv.
  class MsgReceiver {
    const trans: Trans
    const facility: nat
    var extraFlags: nat
    var inMsgno: nat
    var eraseAfterUse: bool // LIBIPM_E_MSG_IN_ERASE_AFTER_USE
    var dataIn: Callback

    constructor (trans: Trans, facility: nat)
      requires trans.Valid() && trans.inS.data.Length >= LIBIPM_MAX_MSG_SIZE
      modifies trans, trans.inS
      ensures Valid() && State() == START && trans.up == old(trans.up)
      ensures this.trans == trans && this.facility == facility
    {
      this.trans, this.facility, dataIn := trans, facility, NULL;
      extraFlags, inMsgno, eraseAfterUse := 0, 0, false;
      trans.headerSize := HEADER_SIZE;
      trans.inS.p, trans.inS.end := 0, 0;
    }

    ghost predicate Valid()
      reads this, trans.Repr()
    {
      && trans.Valid() && trans.inS.data.Length >= LIBIPM_MAX_MSG_SIZE
      && Sound(State(), facility)
      && (extraFlags == 0 ==> trans.inS.p == 0)
      && (extraFlags != 0 ==> inMsgno == Frames.Number(State().buf))
    }

    // What the receiver holds of the current message.
    ghost function State(): MsgIn
      reads this, trans, trans.inS, trans.inS.data
    {
      MsgIn(trans.inS.Contents(), trans.headerSize, extraFlags != 0)
    }

    // validate_msg_header
    method ValidateMsgHeader() returns (rv: LibipmStatus, size: nat)
      requires trans.inS.Valid() && trans.inS.p == 0 && trans.inS.end == HEADER_SIZE
      modifies trans.inS`p, this`inMsgno
      ensures trans.inS.Valid()
      ensures var header := trans.inS.Contents();
              && size == header[2] + 256 * header[3] as int && inMsgno == Frames.Number(header)
              && rv == if (&& header[0] == 2 && header[1] == 0 && 12 <= size <= 8192
                           && header[4] + 256 * header[5] as int == facility
                           && header[8] == header[9] == header[10] == header[11] == 0) then SUCCESS else BAD_HEADER
    {
      var s := trans.inS;
      var version := s.InUint16Le();
      size := s.InUint16Le();
      var inFacility := s.InUint16Le();
      inMsgno := s.InUint16Le();
      var low := s.InUint16Le();
      var high := s.InUint16Le();
      var reserved := low + high as int * 0x10000;
      rv := BAD_HEADER;
      if version != LIBIPM_VERSION {
      } else if size < HEADER_SIZE || size > LIBIPM_MAX_MSG_SIZE {
      } else if inFacility != facility {
      } else if reserved != 0 {
      } else {
        rv := SUCCESS;
      }
    }

    // libipm_msg_in_check_available
    method CheckAvailable() returns (rv: LibipmStatus, available: bool)
      requires Valid()
      modifies this`extraFlags, this`inMsgno, trans`headerSize, trans.inS`p
      ensures !trans.up ==> rv == PROGRAM_ERROR && !available && State() == old(State())
      ensures trans.up ==>
        var (next, status) := Check(old(State()), facility);
        && State() == next
        && rv == (if status == BadHeader then BAD_HEADER else SUCCESS)
        && available == (status == Available)
      ensures rv != BAD_HEADER ==> Valid()
    {
      rv, available := SUCCESS, false;
      if !trans.up {
        rv := PROGRAM_ERROR;
      } else {
        var len := trans.inS.end;
        if len == trans.headerSize {
          if extraFlags == 0 {
            var size;
            rv, size := ValidateMsgHeader();
            if rv == SUCCESS {
              extraFlags := 1;
              trans.headerSize := size;
              available := size == HEADER_SIZE;
            }
          } else {
            available := true;
          }
        }
      }
    }

    // libipm_msg_in_reset
    method MsgInReset()
      requires Valid()
      modifies this`extraFlags, this`inMsgno, this`eraseAfterUse, trans`headerSize
      modifies trans.inS`p, trans.inS`end, trans.inS.data
      ensures Valid() && State() == START && !eraseAfterUse && inMsgno == 0
      ensures old(eraseAfterUse) ==> forall i :: 0 <= i < old(trans.inS.end) ==> trans.inS.data[i] == 0
      ensures !old(eraseAfterUse) ==> trans.inS.data[..] == old(trans.inS.data[..])
    {
      if eraseAfterUse {
        forall i | 0 <= i < trans.inS.end {
          trans.inS.data[i] := 0;
        }
        eraseAfterUse := false;
      }
      inMsgno := 0;
      extraFlags := 0;
      trans.headerSize := HEADER_SIZE;
      trans.inS.p, trans.inS.end := 0, 0;
    }

    // One read of trans_check_wait_objs, which has no data callback here, and
    // the check after it.
    method ReadAndCheck(ghost read: Bytes) returns (rv: LibipmStatus, available: bool, ghost now: Bytes)
      requires Valid() && trans.up
      requires Parse(read, facility) == Outcome(Parse(read, facility).messages, State(), false)
      modifies this`extraFlags, this`inMsgno, trans`up, trans`headerSize
      modifies trans.inS`p, trans.inS`end, trans.inS.data, trans.sock`incoming, trans.sock`refusals
      ensures rv != BAD_HEADER ==> Valid()
      ensures now + trans.sock.incoming == read + old(trans.sock.incoming)
      ensures !trans.up <==> rv == PROGRAM_ERROR
      ensures rv == PROGRAM_ERROR ==> now == read && State() == old(State()) && !available
      ensures available ==> rv == SUCCESS && State().checked
      ensures rv != PROGRAM_ERROR ==>
        var was := Parse(read, facility).messages;
        Parse(now, facility) ==
          if available then Outcome(was + [State().buf], START, false)
          else Outcome(was, State(), rv == BAD_HEADER)
    {
      ghost var chunk;
      now, chunk := ReadMore(read);
      ParseNext(read, chunk, facility);
      rv, available := CheckAvailable();
    }

    // One read.
    method ReadMore(ghost read: Bytes) returns (ghost now: Bytes, ghost chunk: Bytes)
      requires Valid() && trans.up
      modifies trans`up, trans.inS`end, trans.inS.data, trans.sock`incoming, trans.sock`refusals
      ensures Valid() && State() == old(State()).(buf := old(State()).buf + chunk)
      ensures now == read + chunk && now + trans.sock.incoming == read + old(trans.sock.incoming)
      ensures !trans.up ==> chunk == [] && now == read && State() == old(State())
      ensures trans.sock.refusals <= old(trans.sock.refusals)
      ensures chunk != [] ==> |trans.sock.incoming| < old(|trans.sock.incoming|)
      ensures chunk == [] ==> trans.sock.incoming == old(trans.sock.incoming) && State() == old(State())
      ensures old(|State().buf| < State().need) ==>
                chunk != [] || !trans.up || trans.sock.refusals < old(trans.sock.refusals)
    {
      var inside;
      inside, chunk := trans.ReadInput();
      now := read + chunk;
      assert now + trans.sock.incoming == read + (chunk + trans.sock.incoming);
      StaysSound(old(State()), chunk, facility);
    }

    // libipm_msg_in_wait_available: waits for a message, with the callback put aside
    // so that none is called. It ends, as the socket refuses only so often.
    method WaitAvailable(ghost read: Bytes) returns (rv: LibipmStatus, ghost now: Bytes)
      requires Valid()
      requires Parse(read, facility) == Outcome(Parse(read, facility).messages, State(), false)
      modifies this`extraFlags, this`inMsgno, this`dataIn, trans`up, trans`headerSize
      modifies trans.inS`p, trans.inS`end, trans.inS.data, trans.sock`incoming, trans.sock`refusals
      ensures dataIn == old(dataIn)
      ensures rv == PROGRAM_ERROR <==> !old(trans.up)
      ensures rv != BAD_HEADER ==> Valid()
      ensures now + trans.sock.incoming == read + old(trans.sock.incoming)
      ensures rv == SUCCESS ==> State().checked && inMsgno == Frames.Number(State().buf)
      ensures var was := Parse(read, facility).messages;
              Parse(now, facility) ==
                if rv == SUCCESS then Outcome(was + [State().buf], START, false)
                else Outcome(was, State(), rv == BAD_HEADER)
    {
      rv, now := SUCCESS, read;
      var waitObjs: bool := *;
      if !trans.up {
        return PROGRAM_ERROR, read;
      } else if !waitObjs {
        return TRANSPORT_ERROR, read;
      }
      var gotmsg := false;
      var savedDataIn := dataIn;
      dataIn := NULL;
      while rv == SUCCESS && !gotmsg
        invariant rv != BAD_HEADER ==> Valid()
        invariant rv == SUCCESS ==> trans.up
        invariant rv != PROGRAM_ERROR && dataIn == NULL && (gotmsg ==> rv == SUCCESS && State().checked)
        invariant now + trans.sock.incoming == read + old(trans.sock.incoming)
        invariant var was := Parse(read, facility).messages;
                  Parse(now, facility) ==
                    if gotmsg then Outcome(was + [State().buf], START, false)
                    else Outcome(was, State(), rv == BAD_HEADER)
        decreases rv == SUCCESS, !gotmsg, trans.sock.refusals, |trans.sock.incoming|, |State().buf| == State().need
      {
        rv, gotmsg, now := WaitOnce(now);
      }
      dataIn := savedDataIn;
    }

    // The body of its loop: g_obj_wait, trans_check_wait_objs and the check.
    method WaitOnce(ghost read: Bytes) returns (rv: LibipmStatus, available: bool, ghost now: Bytes)
      requires Valid() && trans.up && dataIn == NULL
      requires Parse(read, facility) == Outcome(Parse(read, facility).messages, State(), false)
      modifies this`extraFlags, this`inMsgno, trans`up, trans`headerSize
      modifies trans.inS`p, trans.inS`end, trans.inS.data, trans.sock`incoming, trans.sock`refusals
      ensures rv != BAD_HEADER ==> Valid()
      ensures rv != PROGRAM_ERROR && (rv == SUCCESS ==> trans.up) && (available ==> rv == SUCCESS && State().checked)
      ensures now + trans.sock.incoming == read + old(trans.sock.incoming)
      ensures var was := Parse(read, facility).messages;
              Parse(now, facility) ==
                if available then Outcome(was + [State().buf], START, false)
                else Outcome(was, State(), rv == BAD_HEADER)
      ensures trans.sock.refusals <= old(trans.sock.refusals)
      ensures rv == SUCCESS && !available && trans.sock.refusals == old(trans.sock.refusals) ==>
                || |trans.sock.incoming| < old(|trans.sock.incoming|)
                || (trans.sock.incoming == old(trans.sock.incoming)
                    && old(|State().buf| == State().need) && |State().buf| != State().need)
    {
      var waited: bool := *;
      if !waited {
        return TRANSPORT_ERROR, false, read;
      }
      ghost var chunk;
      now, chunk := PollAndRead(read);
      if !trans.up {
        return TRANSPORT_ERROR, false, now;
      }
      rv, available := CheckRead(old(State()), read, chunk);
    }

    // The poll and the read of trans_check_wait_objs.
    method PollAndRead(ghost read: Bytes) returns (ghost now: Bytes, ghost chunk: Bytes)
      requires Valid() && trans.up
      modifies trans`up, trans.inS`end, trans.inS.data, trans.sock`incoming, trans.sock`refusals
      ensures Valid() && State() == old(State()).(buf := old(State()).buf + chunk)
      ensures now == read + chunk && now + trans.sock.incoming == read + old(trans.sock.incoming)
      ensures !trans.up ==> chunk == [] && now == read && State() == old(State())
      ensures trans.sock.refusals <= old(trans.sock.refusals)
      ensures chunk != [] ==> |trans.sock.incoming| < old(|trans.sock.incoming|)
      ensures chunk == [] ==> trans.sock.incoming == old(trans.sock.incoming) && State() == old(State())
      ensures old(|State().buf| < State().need) ==>
                chunk != [] || !trans.up || trans.sock.refusals < old(trans.sock.refusals)
    {
      now, chunk := read, [];
      var ready := trans.sock.Poll();
      if ready {
        now, chunk := ReadMore(read);
      } else {
        assert State().buf + chunk == State().buf && read + chunk == now;
      }
    }

    // The check, when `chunk` has been read after `before`.
    method CheckRead(ghost before: MsgIn, ghost read: Bytes, ghost chunk: Bytes) returns (rv: LibipmStatus, available: bool)
      requires Valid() && trans.up && Sound(before, facility)
      requires Parse(read, facility) == Outcome(Parse(read, facility).messages, before, false)
      requires |before.buf + chunk| <= before.need && State() == before.(buf := before.buf + chunk)
      modifies this`extraFlags, this`inMsgno, trans`headerSize, trans.inS`p
      ensures rv != BAD_HEADER ==> Valid()
      ensures (rv == SUCCESS || rv == BAD_HEADER) && (available ==> rv == SUCCESS && State().checked)
      ensures rv == SUCCESS && !available ==> |State().buf| < State().need
      ensures var was := Parse(read, facility).messages;
              Parse(read + chunk, facility) ==
                if available then Outcome(was + [State().buf], START, false)
                else Outcome(was, State(), rv == BAD_HEADER)
    {
      StaysSound(before, chunk, facility);
      ParseNext(read, chunk, facility);
      rv, available := CheckAvailable();
    }

    // A receiver that takes every message and resets: after any number of
    // rounds, whatever each read brought, it has taken exactly the messages of
    // the bytes read, with their numbers, and holds what is left of them.
    method TakeMessages(rounds: nat) returns (messages: seq<Bytes>, numbers: seq<nat>, bad: bool, ghost read: Bytes)
      requires Valid() && trans.up && State() == START
      modifies this, trans`up, trans`headerSize, trans.inS`p, trans.inS`end, trans.inS.data
      modifies trans.sock`incoming, trans.sock`refusals
      ensures read + trans.sock.incoming == old(trans.sock.incoming)
      ensures Outcome(messages, State(), bad) == Parse(read, facility)
      ensures numbers == Frames.Numbers(messages)
    {
      messages, numbers, read, bad := [], [], [], false;
      assert [] + trans.sock.incoming == trans.sock.incoming;
      for i := 0 to rounds
        invariant Valid() && trans.up
        invariant read + trans.sock.incoming == old(trans.sock.incoming)
        invariant Outcome(messages, State(), false) == Parse(read, facility)
        invariant numbers == Frames.Numbers(messages)
      {
        var rv, available;
        rv, available, read := ReadAndCheck(read);
        if rv != SUCCESS {
          bad := rv == BAD_HEADER;
          return;
        }
        if available {
          Frames.NumbersSnoc(messages, State().buf);
          messages := messages + [trans.inS.data[..trans.inS.end]];
          numbers := numbers + [inMsgno];
          MsgInReset();
        }
      }
    }
  }
}
