// libipm/libipm_send.c: the frame around the parameters of a message.
module LibipmSend {
  import opened Unicode
  import opened Transcoding
  import opened Streams
  import opened Sockets
  import opened Frames

  // The output side of a struct trans with its struct libipm_priv.
  class MsgSender {
    const outS: Stream
    const facility: Char16
    var outMsgno: Char16
    var isoHdr: nat // where the header is to be put

    constructor (facility: Char16)
      ensures fresh(outS) && fresh(outS.data) && outS.data.Length == 8192 && this.facility == facility
    {
      outS := new Stream(8192);
      this.facility, outMsgno, isoHdr := facility, 0, 0;
    }

    // The parameters appended so far.
    function Payload(): Bytes
      requires 12 <= outS.p <= outS.data.Length
      reads this, outS, outS.data
    {
      outS.data[12..outS.p]
    }

    // init_output_buffer
    method InitOutputBuffer(msgno: Char16)
      requires outS.data.Length == 8192
      modifies this, outS
      ensures outMsgno == msgno && isoHdr == 0 && outS.p == 12 && Payload() == []
    {
      outS.p, outS.end := 0, 0;
      isoHdr := outS.p;
      outS.p := outS.p + 12;
      outMsgno := msgno;
    }

    // libipm_msg_out_mark_end
    method MarkEnd()
      requires isoHdr == 0 && 12 <= outS.p <= outS.data.Length <= 8192
      modifies outS, outS.data
      ensures outS.end == outS.p == old(outS.p)
      ensures outS.data[..outS.end] == Frame(Message(outMsgno, old(Payload())), facility)
    {
      var s := outS;
      ghost var payload, mem := Payload(), s.data[..];
      s.end := s.p;
      s.p := isoHdr;
      WriteHeader(s.end, mem);
      HeaderBefore(mem, outMsgno, payload, facility);
      assert s.data[..s.end] == s.data[..][..s.end];
      s.p := s.end;
    }

    method WriteHeader(size: Char16, ghost mem: Bytes)
      requires outS.p == 0 && 12 <= outS.data.Length && mem == outS.data[..]
      modifies outS`p, outS.data
      ensures outS.p == 12
      ensures outS.data[..] == Header(size, facility, outMsgno) + mem[12..]
    {
      ghost var h2: Bytes := [2, 0, size % 256, size / 256];
      ghost var h4 := h2 + LittleEndian(facility) + LittleEndian(outMsgno);
      HeaderParts(size, facility, outMsgno);
      Put(2, mem, [], [2, 0]);
      Put(size, mem, [2, 0], h2);
      Put(facility, mem, h2, h2 + LittleEndian(facility));
      Put(outMsgno, mem, h2 + LittleEndian(facility), h4);
      Put(0, mem, h4, h4 + [0, 0]); // Reserved
      Put(0, mem, h4 + [0, 0], Header(size, facility, outMsgno));
    }

    // out_uint16_le, where `written` has been put at the start of the buffer
    method Put(w: Char16, ghost mem: Bytes, ghost written: Bytes, ghost now: Bytes)
      requires outS.p == |written| && outS.p + 2 <= outS.data.Length == |mem|
      requires now == written + LittleEndian(w) && outS.data[..] == written + mem[|written|..]
      modifies outS`p, outS.data
      ensures outS.p == |now| && outS.data[..] == now + mem[|now|..]
    {
      assert mem[..0] + written == written && mem[..0] + now == now;
      outS.OutWord(w, mem, 0, written);
    }
  }

  lemma {:induction false} HeaderParts(size: Char16, facility: Char16, msgno: Char16)
    ensures var h2: Bytes := [2, 0, size % 256, size / 256];
            var h4 := h2 + LittleEndian(facility) + LittleEndian(msgno);
            && [2, 0] == [] + LittleEndian(2) && h2 == [2, 0] + LittleEndian(size) && |h4| == 8
            && LittleEndian(0) == [0, 0] && Header(size, facility, msgno) == h4 + [0, 0] + LittleEndian(0)
  {
  }

  function Header(size: Char16, facility: Char16, msgno: Char16): Bytes {
    [2, 0, size % 256, size / 256, facility % 256, facility / 256, msgno % 256, msgno / 256, 0, 0, 0, 0]
  }

  lemma {:induction false} HeaderBefore(mem: Bytes, msgno: Char16, payload: Bytes, facility: Char16)
    requires 12 + |payload| <= |mem| <= 8192 && mem[12..12 + |payload|] == payload
    ensures (Header(12 + |payload|, facility, msgno) + mem[12..])[..12 + |payload|] == Frame(Message(msgno, payload), facility)
  {
  }
}
