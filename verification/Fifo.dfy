// common/fifo.c: a queue of items kept in a chain of chunks.
module Fifo {
  const ITEMS_PER_CHUNK := 31

  // A stored pointer; NULL cannot be stored.
  type Item = int

  const NULL: Item := 0

  class Chunk {
    var next: Chunk?
    const items: array<Item>

    constructor ()
      ensures next == null && fresh(items) && items.Length == ITEMS_PER_CHUNK
    {
      next := null;
      items := new Item[ITEMS_PER_CHUNK];
    }
  }

  // The chain of chunks, from the first to the last.
  ghost predicate Chain(chunks: seq<Chunk>)
    reads chunks
  {
    && (forall i :: 0 <= i < |chunks| ==> chunks[i].items.Length == ITEMS_PER_CHUNK)
    && (forall i :: 0 <= i < |chunks| - 1 ==> chunks[i].next == chunks[i + 1])
    && (chunks != [] ==> chunks[|chunks| - 1].next == null)
    && (forall i, j :: 0 <= i < j < |chunks| ==> chunks[i] != chunks[j] && chunks[i].items != chunks[j].items)
  }

  // The slots from `reader` of the first chunk on hold the items in order.
  ghost predicate Holds(chunks: seq<Chunk>, reader: nat, contents: seq<Item>)
    requires forall i :: 0 <= i < |chunks| ==> chunks[i].items.Length == ITEMS_PER_CHUNK
    reads set c | c in chunks :: c.items
  {
    forall i, k ::
      0 <= i < |chunks| && 0 <= k < ITEMS_PER_CHUNK && 0 <= ITEMS_PER_CHUNK * i + k - reader < |contents| ==>
        chunks[i].items[k] == contents[ITEMS_PER_CHUNK * i + k - reader]
  }

  class Queue {
    const hasDestructor: bool // item_destructor is not NULL
    var firstChunk: Chunk
    var lastChunk: Chunk
    var writer: nat
    var reader: nat

    ghost var chunks: seq<Chunk>
    ghost var contents: seq<Item>

    ghost predicate Valid()
      reads this, chunks, set c | c in chunks :: c.items
    {
      ValidBut(1)
    }

    // The last of several chunks has at least `used` items.
    ghost predicate ValidBut(used: nat)
      reads this, chunks, set c | c in chunks :: c.items
    {
      && chunks != [] && Chain(chunks)
      && firstChunk == chunks[0] && lastChunk == chunks[|chunks| - 1]
      && writer <= ITEMS_PER_CHUNK && reader < ITEMS_PER_CHUNK
      && (if |chunks| == 1 then reader < writer || reader == writer == 0 else writer >= used)
      && |contents| == ITEMS_PER_CHUNK * (|chunks| - 1) + writer - reader
      && Holds(chunks, reader, contents)
      && NULL !in contents
    }

    // fifo_create
    constructor (hasDestructor: bool)
      ensures this.hasDestructor == hasDestructor
      ensures Valid() && contents == [] && fresh(chunks) && fresh(firstChunk.items)
    {
      var cptr := new Chunk();
      this.hasDestructor := hasDestructor;
      firstChunk, lastChunk := cptr, cptr;
      reader, writer := 0, 0;
      chunks, contents := [cptr], [];
    }

    lemma {:induction false} ChunkCount()
      requires Valid() && contents != []
      ensures |chunks| == (reader + |contents| - 1) / 31 + 1
    {
      var n := |chunks| - 1;
      assert reader + |contents| - 1 == ITEMS_PER_CHUNK * n + (writer - 1);
    }

    // fifo_is_empty
    predicate IsEmpty()
      requires Valid()
      reads this, chunks, set c | c in chunks :: c.items
      ensures IsEmpty() == (contents == [])
    {
      firstChunk == lastChunk && reader == writer
    }

    // fifo_add_item
    method AddItem(item: Item) returns (rv: int)
      requires Valid()
      modifies this, lastChunk, lastChunk.items
      ensures Valid() && rv == if item == NULL then 0 else 1
      ensures item == NULL ==> contents == old(contents)
      ensures item != NULL ==> contents == old(contents) + [item]
      ensures old(chunks) <= chunks && forall i :: |old(chunks)| <= i < |chunks| ==> fresh(chunks[i]) && fresh(chunks[i].items)
    {
      rv := 0;
      if item != NULL {
        if writer == ITEMS_PER_CHUNK {
          AddChunk();
        }
        PutItem(item);
        rv := 1;
      }
    }

    method PutItem(item: Item)
      requires ValidBut(0) && writer < ITEMS_PER_CHUNK && item != NULL
      modifies this`writer, this`contents, lastChunk.items
      ensures Valid() && contents == old(contents) + [item]
    {
      lastChunk.items[writer] := item;
      writer := writer + 1;
      contents := contents + [item];
    }

    // Add another chunk to the chain.
    method AddChunk()
      requires Valid() && writer == ITEMS_PER_CHUNK
      modifies this, lastChunk
      ensures ValidBut(0) && writer == 0 && contents == old(contents) && reader == old(reader)
      ensures chunks == old(chunks) + [lastChunk] && fresh(lastChunk) && fresh(lastChunk.items)
    {
      var cptr := new Chunk();
      lastChunk.next := cptr;
      lastChunk := cptr;
      writer := 0;
      chunks := chunks + [cptr];
    }

    // fifo_remove_item
    method RemoveItem() returns (item: Item)
      requires Valid()
      modifies this
      ensures Valid() && lastChunk == old(lastChunk)
      ensures old(contents) == [] ==> item == NULL && contents == []
      ensures old(contents) != [] ==> [item] + contents == old(contents)
    {
      item := NULL;
      if firstChunk != lastChunk {
        // not reading the last chunk: there must be something in the fifo
        item := TakeFirst();
      } else if reader < writer {
        item := firstChunk.items[reader];
        assert item == chunks[0].items[reader] == contents[0];
        NextItem(chunks, reader, contents);
        reader := reader + 1;
        contents := contents[1..];
        if reader == writer {
          reader, writer := 0, 0;
        }
      }
    }

    method TakeFirst() returns (item: Item)
      requires Valid() && firstChunk != lastChunk
      modifies this`firstChunk, this`reader, this`chunks, this`contents
      ensures Valid() && old(contents) != [] && [item] + contents == old(contents)
    {
      assert |chunks| > 1 && firstChunk.next == chunks[1];
      item := firstChunk.items[reader];
      assert item == chunks[0].items[reader] == contents[0];
      NextItem(chunks, reader, contents);
      reader := reader + 1;
      contents := contents[1..];
      if reader == ITEMS_PER_CHUNK {
        firstChunk := firstChunk.next;
        NextChunk(chunks, contents);
        chunks := chunks[1..];
        reader := 0;
      }
    }

    // call_item_destructor: the items it is called for, in order
    method CallItemDestructor() returns (visited: seq<Item>)
      requires Valid()
      ensures visited == if hasDestructor then contents else []
    {
      visited := [];
      if hasDestructor {
        var cptr, i := firstChunk, reader;
        ghost var at := 0;
        // all the chunks up to the last one
        while cptr != lastChunk
          invariant 0 <= at < |chunks| && cptr == chunks[at] && 0 <= i < ITEMS_PER_CHUNK
          invariant at < |chunks| - 1 || i == 0 || |chunks| == 1
          invariant |visited| == ITEMS_PER_CHUNK * at + i - reader <= |contents| && visited == contents[..|visited|]
          decreases |chunks| - at, ITEMS_PER_CHUNK - i
        {
          assert at < |chunks| - 1 && chunks[at].next == chunks[at + 1];
          assert chunks[at].items.Length == ITEMS_PER_CHUNK;
          assert chunks[at].items[i] == contents[ITEMS_PER_CHUNK * at + i - reader];
          visited := visited + [cptr.items[i]];
          i := i + 1;
          if i == ITEMS_PER_CHUNK {
            cptr, i, at := cptr.next, 0, at + 1;
          }
        }
        var more := VisitLast(i, visited);
        visited := more;
      }
    }

    // All the items in the last chunk.
    method VisitLast(from: nat, before: seq<Item>) returns (visited: seq<Item>)
      requires Valid() && from <= writer
      requires |before| == ITEMS_PER_CHUNK * (|chunks| - 1) + from - reader <= |contents|
      requires before == contents[..|before|]
      ensures visited == contents
    {
      visited := before;
      var i := from;
      while i < writer
        invariant i <= writer && |visited| == ITEMS_PER_CHUNK * (|chunks| - 1) + i - reader
        invariant visited == contents[..|visited|]
      {
        assert lastChunk == chunks[|chunks| - 1] && lastChunk.items[i] == contents[|visited|];
        visited := visited + [lastChunk.items[i]];
        i := i + 1;
      }
    }

    // fifo_clear: the items destroyed, and the chunks that are freed
    method Clear() returns (visited: seq<Item>, ghost freed: seq<Chunk>)
      requires Valid()
      modifies this
      ensures Valid() && contents == [] && lastChunk == old(lastChunk)
      ensures visited == if hasDestructor then old(contents) else []
      ensures freed + chunks == old(chunks)
    {
      visited := CallItemDestructor();
      var cptr := firstChunk;
      freed := [];
      while cptr.next != null
        invariant |freed| < |chunks| && cptr == chunks[|freed|] && freed == chunks[..|freed|]
        invariant cptr.next == if |freed| + 1 < |chunks| then chunks[|freed| + 1] else null
        decreases |chunks| - |freed|
      {
        freed := freed + [cptr];
        cptr := cptr.next;
      }
      assert cptr == lastChunk;
      firstChunk, lastChunk := cptr, cptr;
      reader, writer := 0, 0;
      chunks, contents := [cptr], [];
    }

    // fifo_delete: the items destroyed, and the chunks that are freed
    method Delete() returns (visited: seq<Item>, ghost freed: seq<Chunk>)
      requires Valid()
      ensures visited == if hasDestructor then contents else []
      ensures freed == chunks
    {
      visited := CallItemDestructor();
      var cptr: Chunk? := firstChunk;
      freed := [];
      while cptr != null
        invariant |freed| <= |chunks| && freed == chunks[..|freed|]
        invariant cptr == if |freed| < |chunks| then chunks[|freed|] else null
        decreases |chunks| - |freed|
      {
        freed := freed + [cptr];
        cptr := cptr.next;
      }
    }
  }

  lemma {:induction false} NextItem(chunks: seq<Chunk>, reader: nat, contents: seq<Item>)
    requires contents != [] && Chain(chunks) && Holds(chunks, reader, contents)
    ensures Holds(chunks, reader + 1, contents[1..])
  {
  }

  lemma {:induction false} NextChunk(chunks: seq<Chunk>, contents: seq<Item>)
    requires chunks != [] && Chain(chunks) && Holds(chunks, ITEMS_PER_CHUNK, contents)
    ensures Chain(chunks[1..]) && Holds(chunks[1..], 0, contents)
  {
    var rest := chunks[1..];
    forall i, k | 0 <= i < |rest| && 0 <= k < ITEMS_PER_CHUNK && 0 <= ITEMS_PER_CHUNK * i + k < |contents|
      ensures rest[i].items[k] == contents[ITEMS_PER_CHUNK * i + k]
    {
      assert rest[i] == chunks[i + 1];
      assert chunks[i + 1].items[k] == contents[ITEMS_PER_CHUNK * (i + 1) + k - ITEMS_PER_CHUNK];
    }
  }
}
