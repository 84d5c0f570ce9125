// The environment of a transport: a non-blocking socket that may take or give
// any part of what is asked, refuse, or fail.
module Sockets {
  import opened Unicode

  type Bytes = seq<Byte>

  class Socket {
    var wire: Bytes      // everything that has been sent to the peer
    var incoming: Bytes  // everything the peer has still to give
    var refusals: nat    // how often the socket will still refuse, in a run that returns

    constructor (incoming: Bytes, refusals: nat)
      ensures wire == [] && this.incoming == incoming && this.refusals == refusals
    {
      wire, this.incoming, this.refusals := [], incoming, refusals;
    }

    // g_tcp_can_send and trans_can_recv
    method Poll() returns (ready: bool)
      modifies this`refusals
      ensures if ready then refusals == old(refusals) else refusals < old(refusals)
    {
      ready := *;
      if refusals == 0 {
        ready := true;
      }
      if !ready {
        refusals := refusals - 1;
      }
    }

    // trans_send: the number of bytes taken, 0 when the connection is closed, or
    // -1 with an error, which may be that the call would block.
    method Send(data: Bytes) returns (sent: int, wouldBlock: bool)
      modifies this`wire, this`refusals
      ensures -1 <= sent <= |data|
      ensures wire == old(wire) + if sent > 0 then data[..sent] else []
      ensures if sent == -1 && wouldBlock then refusals < old(refusals) else refusals == old(refusals)
    {
      sent :| -1 <= sent <= |data|;
      wouldBlock := *;
      if refusals == 0 {
        wouldBlock := false;
      }
      if sent > 0 {
        wire := wire + data[..sent];
      } else if sent == -1 && wouldBlock {
        refusals := refusals - 1;
      }
      assert old(wire) + [] == old(wire);
    }

    // trans_recv: the bytes received, at most n of those still to come.
    method Recv(n: nat) returns (rcvd: int, chunk: Bytes, wouldBlock: bool)
      modifies this`incoming, this`refusals
      ensures -1 <= rcvd <= n && |chunk| == if rcvd > 0 then rcvd else 0
      ensures old(incoming) == chunk + incoming
      ensures if rcvd == -1 && wouldBlock then refusals < old(refusals) else refusals == old(refusals)
    {
      rcvd :| -1 <= rcvd <= n && rcvd <= |incoming|;
      wouldBlock := *;
      if refusals == 0 {
        wouldBlock := false;
      }
      chunk := [];
      if rcvd > 0 {
        chunk := incoming[..rcvd];
        incoming := incoming[rcvd..];
      } else if rcvd == -1 && wouldBlock {
        refusals := refusals - 1;
      }
    }
  }
}
