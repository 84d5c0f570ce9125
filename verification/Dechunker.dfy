// The dechunkers of common/dechunker.c, which reassemble a PDU in a stream of
// their own, proved against the state machines of DechunkerRuns and DynamicRuns.
module Dechunker {
  import opened Unicode
  import opened Streams
  import opened DechunkerRuns
  import DynamicRuns

  datatype VcState = E_NO_DATA | E_READING | E_DATA | E_SKIPPING

  const MAX_VC_CHUNK_SIZE_LOWER_LIMIT := 50

  // A static virtual channel dechunker.
  class VcDechunker {
    const maxChunkSize: int
    var state: VcState
    var reassemblyS: Stream?

    ghost function Repr(): set<object>
      reads this
    {
      if reassemblyS == null then {this} else {this, reassemblyS, reassemblyS.data}
    }

    // A stream left over in E_SKIPPING is freed when the next PDU starts.
    ghost predicate Valid()
      reads this, Repr()
    {
      match state
      case E_NO_DATA => reassemblyS == null
      case E_READING => reassemblyS != null && reassemblyS.p <= reassemblyS.data.Length
      case E_DATA => reassemblyS != null && reassemblyS.p == 0 && reassemblyS.end == reassemblyS.data.Length
      case E_SKIPPING => true
    }

    ghost function View(): State
      requires Valid()
      reads this, Repr()
    {
      match state
      case E_NO_DATA => NoData
      case E_READING => Reading(reassemblyS.data.Length, reassemblyS.data[..reassemblyS.p])
      case E_DATA => Data(reassemblyS.data[..])
      case E_SKIPPING => Skipping
    }

    constructor Init(maxChunkSize: int)
      ensures Valid() && View() == NoData && this.maxChunkSize == maxChunkSize && Repr() == {this}
    {
      this.maxChunkSize := maxChunkSize;
      state := E_NO_DATA;
      reassemblyS := null;
    }

    // vc_dechunker_reset
    method Reset()
      modifies this
      ensures Valid() && View() == NoData && reassemblyS == null
    {
      reassemblyS := null;
      state := E_NO_DATA;
    }

    // handle_no_data_state
    method HandleNoData(s: Stream, chunkSize: nat, totalSize: int, ct: ChunkType, ghost c: Chunk) returns (rv: Status)
      requires Valid() && state == E_NO_DATA
      requires s.Valid() && chunkSize == s.end - s.p && c.payload == s.data[s.p..s.end]
      requires ct == c.Type() && totalSize == c.totalSize >= 0
      modifies this, s`p
      ensures Valid() && s.Valid() && fresh(Repr() - {this})
      ensures var r := StepNoData(maxChunkSize, c);
              View() == r.state && rv == r.status && s.p == if r.consumed then s.end else old(s.p)
    {
      rv := Error;
      match ct {
        case First =>
          if totalSize <= maxChunkSize {
            state := E_SKIPPING; // short first chunk
          } else if chunkSize >= totalSize {
            state := E_SKIPPING; // malformed first chunk
          } else {
            reassemblyS := new Stream(totalSize);
            reassemblyS.OutUint8p(s, chunkSize);
            s.p := s.p + chunkSize;
            state := E_READING;
            rv := InProgress;
          }
        case FirstLast =>
          rv := InlineChunk;
        case _ =>
          state := E_SKIPPING;
      }
    }

    // handle_reading_state
    method HandleReading(s: Stream, chunkSize: nat, ct: ChunkType, ghost c: Chunk) returns (rv: Status)
      requires Valid() && state == E_READING
      requires s.Valid() && chunkSize == s.end - s.p && c.payload == s.data[s.p..s.end]
      requires ct == c.Type() && s !in Repr() && s.data !in Repr()
      modifies this`state, s`p, reassemblyS, reassemblyS.data
      ensures Valid() && s.Valid()
      ensures var r := StepReading(old(reassemblyS.data.Length), old(reassemblyS.data[..reassemblyS.p]), c);
              View() == r.state && rv == r.status && s.p == if r.consumed then s.end else old(s.p)
    {
      rv := Error;
      if ct == Intermediate || ct == Last {
        if chunkSize > reassemblyS.RemOut() {
          state := E_SKIPPING; // oversized chunk
        } else {
          reassemblyS.OutUint8p(s, chunkSize);
          s.p := s.p + chunkSize;
          if ct == Last {
            if reassemblyS.RemOut() == 0 {
              assert reassemblyS.data[..reassemblyS.p] == reassemblyS.data[..];
              reassemblyS.end := reassemblyS.p; // make the stream ready for reading
              reassemblyS.p := 0;
              state := E_DATA;
              rv := Ready;
            } else {
              state := E_SKIPPING; // undersized last chunk
            }
          } else {
            rv := InProgress;
          }
        }
      } else {
        state := E_SKIPPING;
      }
    }

    // vc_dechunker_process_chunk, on what remains of stream s.
    method ProcessChunk(s: Stream, flags: int, totalSize: int) returns (rv: Status)
      requires Valid() && s.Valid() && s !in Repr() && s.data !in Repr()
      modifies Repr(), s`p
      ensures Valid() && s.Valid() && fresh(Repr() - old(Repr()))
      ensures var r := Step(maxChunkSize, old(View()), Chunk(flags, totalSize, old(s.data[s.p..s.end])));
              View() == r.state && rv == r.status && s.p == if r.consumed then s.end else old(s.p)
    {
      rv := Error;
      var ct := TypeOf(flags);
      var chunkSize := s.end - s.p; // Chunk is remainder of stream
      ghost var c := Chunk(flags, totalSize, s.data[s.p..s.end]);
      if totalSize < 0 {
        state := E_SKIPPING;
      } else if chunkSize > maxChunkSize {
        state := E_SKIPPING;
      } else {
        // Check for a restart after an error
        if state == E_SKIPPING {
          match ct {
            case First => Reset();
            case FirstLast => Reset();
            case _ =>
          }
        }
        match state {
          case E_NO_DATA => rv := HandleNoData(s, chunkSize, totalSize, ct, c);
          case E_READING => rv := HandleReading(s, chunkSize, ct, c);
          case E_DATA => // the existing buffer has not been taken
          case E_SKIPPING => rv := InProgress; // Ignore this chunk
        }
      }
    }

    // vc_dechunker_get_stream: the caller becomes the owner of the stream.
    method TakeStream() returns (s: Stream?)
      requires Valid()
      modifies this
      ensures Valid() && View() == Take(old(View()))
      ensures s == null <==> !old(View()).Data?
      ensures s != null ==> s.Valid() && s.p == 0 && s.data[s.p..s.end] == old(View()).pdu && s !in Repr() && s.data !in Repr()
    {
      if state != E_DATA {
        s := null;
      } else {
        s := reassemblyS;
        reassemblyS := null;
        Reset();
      }
    }
  }

  // vc_dechunker_init refuses a chunk size that cannot be right.
  method VcDechunkerInit(maxChunkSize: int) returns (d: VcDechunker?)
    ensures d == null <==> maxChunkSize < 50
    ensures d != null ==> fresh(d) && d.Valid() && d.View() == NoData && d.maxChunkSize == maxChunkSize
  {
    if maxChunkSize < MAX_VC_CHUNK_SIZE_LOWER_LIMIT {
      d := null;
    } else {
      d := new VcDechunker.Init(maxChunkSize);
    }
  }

  // A dynamic virtual channel dechunker.
  class DynDechunker {
    var reassemblyS: Stream?

    ghost function Repr(): set<object>
      reads this
    {
      if reassemblyS == null then {this} else {this, reassemblyS, reassemblyS.data}
    }

    ghost predicate Valid()
      reads this, Repr()
    {
      reassemblyS != null ==> reassemblyS.p <= reassemblyS.data.Length && reassemblyS.end <= reassemblyS.data.Length
    }

    ghost function View(): DynamicRuns.State
      reads this, Repr()
    {
      if reassemblyS == null then DynamicRuns.Idle
      else DynamicRuns.Buffer(reassemblyS.data[..], reassemblyS.p, reassemblyS.end)
    }

    constructor Init()
      ensures Valid() && View() == DynamicRuns.Idle && Repr() == {this}
    {
      reassemblyS := null;
    }

    // dyn_dechunker_process_first_chunk. What the new buffer holds beyond the
    // first fragment is whatever the allocator left there.
    method ProcessFirstChunk(s: Stream, totalSize: int) returns (status: DynamicRuns.Status)
      requires Valid() && s.Valid() && s !in Repr() && s.data !in Repr()
      modifies this, s`p
      ensures Valid() && s.Valid() && fresh(Repr() - old(Repr()))
      ensures DynamicRuns.First(old(View()), old(s.data[s.p..s.end]), totalSize, View(), status)
      ensures s.p == if status == DynamicRuns.InProgress then s.end else old(s.p)
    {
      status := DynamicRuns.Error;
      var fragSize := s.end - s.p;
      if totalSize <= 1590 || fragSize > totalSize {
        // Badly sized DYNVC_DATA_FIRST PDU
      } else if reassemblyS != null {
        // unexpected DYNVC_DATA_FIRST
      } else if fragSize == totalSize {
        status := DynamicRuns.InlineChunk;
      } else {
        reassemblyS := new Stream(totalSize);
        reassemblyS.OutUint8p(s, fragSize);
        s.p := s.p + fragSize;
        status := DynamicRuns.InProgress;
      }
    }

    // dyn_dechunker_process_data_chunk
    method ProcessDataChunk(s: Stream) returns (rv: DynamicRuns.Status)
      requires Valid() && s.Valid() && s !in Repr() && s.data !in Repr()
      modifies reassemblyS, if reassemblyS == null then {} else {reassemblyS.data}, s`p
      ensures Valid() && s.Valid()
      ensures View() == DynamicRuns.Data(old(View()), old(s.data[s.p..s.end])).state
      ensures rv == DynamicRuns.Data(old(View()), old(s.data[s.p..s.end])).status
      ensures s.p == if rv == DynamicRuns.InProgress || rv == DynamicRuns.Ready then s.end else old(s.p)
    {
      if reassemblyS == null {
        rv := DynamicRuns.InlineChunk;
      } else {
        var fragSize := s.end - s.p;
        ghost var buf, p := reassemblyS.data[..], reassemblyS.p;
        if fragSize > reassemblyS.RemOut() {
          rv := DynamicRuns.Error;
        } else {
          reassemblyS.OutUint8p(s, fragSize);
          s.p := s.p + fragSize;
          assert reassemblyS.data[..] == reassemblyS.data[..reassemblyS.p] + reassemblyS.data[reassemblyS.p..];
          if reassemblyS.RemOut() == 0 {
            reassemblyS.end := reassemblyS.p;
            reassemblyS.p := 0;
            rv := DynamicRuns.Ready;
          } else {
            rv := DynamicRuns.InProgress;
          }
        }
      }
    }

    // dyn_dechunker_get_stream
    method TakeStream() returns (s: Stream?)
      requires Valid()
      modifies this
      ensures Valid()
      ensures s == null <==> !DynamicRuns.Available(old(View()))
      ensures s == null ==> View() == old(View())
      ensures s != null ==> View() == DynamicRuns.Idle && DynamicRuns.Buffer(s.data[..], s.p, s.end) == old(View())
    {
      if reassemblyS == null || reassemblyS.end == 0 {
        s := null;
      } else {
        s := reassemblyS;
        reassemblyS := null;
      }
    }

    // dyn_dechunker_pending
    method Pending() returns (b: bool)
      ensures b <==> View() != DynamicRuns.Idle
    {
      b := reassemblyS != null;
    }
  }
}
