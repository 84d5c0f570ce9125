// common/pixman-region.c: regions of the screen as y-x banded rectangle arrays,
// with union, intersection and subtraction by one band sweep.
module Regions {
  import opened RegionSpans
  import opened RegionBands
  import opened RegionSweep
  import opened RegionBoxes

  // An allocated block of data: room for `size` rectangles, `rects` in use.
  class Block {
    var size: nat
    var rects: seq<Box>
    ghost var live: bool // it has not been freed

    constructor (size: nat, rects: seq<Box>)
      ensures this.size == size && this.rects == rects && live
    {
      this.size, this.rects, live := size, rects, true;
    }

    // free
    method Free()
      requires live
      modifies this`live
      ensures !live
    {
      live := false;
    }
  }

  // The `data` pointer of a region: NULL (the single rectangle is `extents`),
  // one of the two shared empty blocks, or an allocated block.
  datatype Data =
    | Single
    | EmptyData
    | BrokenData
    | Rects(block: Block)

  // A pair of box pointers such as r1 and r1_end into a block, which other
  // pointers may write.
  datatype Slice = Slice(block: Block, start: nat, end: nat) {
    function Count(): nat
      requires start <= end
    {
      end - start
    }
  }

  // The pointers into two operands, and what they have pointed to throughout.
  datatype Operands = Operands(p1: Slice, r1: seq<Box>, p2: Slice, r2: seq<Box>) {
    // r is what p points to: the first rectangles of an operand.
    ghost predicate Sees(p: Slice, r: seq<Box>) {
      Starts(p1, r1, p, r) || Starts(p2, r2, p, r)
    }

    lemma {:induction false} Shorter(p: Slice, r: seq<Box>, end: nat)
      requires Sees(p, r) && p.start <= end <= p.end
      ensures Sees(p.(end := end), r[..end - p.start])
    {
    }
  }

  ghost predicate Starts(whole: Slice, all: seq<Box>, p: Slice, r: seq<Box>) {
    && p.block == whole.block && p.start == whole.start && p.start <= p.end <= whole.end
    && |r| == p.Count() <= |all| && r == all[..|r|]
  }

  class Region {
    var extents: Box
    var data: Data

    const scarce: bool // an allocation for this region may fail
    ghost var failures: nat // how many have failed

    // The block a region owns; no other region points to it.
    ghost function Owned(): set<object>
      reads this
    {
      if data.Rects? then {data.block} else {}
    }

    ghost predicate Apart(r: Region)
      reads this, r
    {
      this != r && data.Rects? && r.data.Rects? ==> data.block != r.data.block
    }

    // PIXREGION_RECTS and PIXREGION_NUMRECTS
    function Boxes(): seq<Box>
      reads this, Owned()
    {
      match data
      case Single => [extents]
      case EmptyData => []
      case BrokenData => []
      case Rects(block) => block.rects
    }

    // PIXREGION_NIL
    predicate Nil()
      reads this, Owned()
    {
      !data.Single? && |Boxes()| == 0
    }

    // PIXREGION_NAR
    predicate Broken()
      reads this
    {
      data == BrokenData
    }

    // The documented representation.
    ghost predicate Valid()
      reads this, Owned()
    {
      match data
      case Single => GoodBox(extents)
      case EmptyData => extents.x1 == extents.x2 && extents.y1 == extents.y2
      case BrokenData => extents.x1 == extents.x2 && extents.y1 == extents.y2
      case Rects(block) =>
        block.live && 2 <= |block.rects| <= block.size && Canonical(block.rects) && IsHull(extents, block.rects)
    }

    // The bands of a well-formed region.
    ghost function Bands(): (bs: seq<Band>)
      requires Valid()
      reads this, Owned()
      ensures GoodBands(bs) && Flat(bs) == Boxes()
    {
      if data.Single? then SingleCovers(extents); WitnessBands(Boxes())
      else if data.Rects? then WitnessBands(Boxes())
      else []
    }

    // Under construction: an allocated block, not yet canonical.
    ghost predicate Growing()
      reads this, Owned()
    {
      data.Rects? && data.block.live && |data.block.rects| <= data.block.size && 0 < data.block.size
    }

    ghost predicate Failed()
      reads this
    {
      data == BrokenData && extents == EMPTY_BOX
    }

    // The pointers point to r, in memory that has not been freed and is not being
    // written.
    ghost predicate Reads(p: Slice, r: seq<Box>)
      reads this, p.block
    {
      && p.block.live && p.start <= p.end <= |p.block.rects| && p.block.rects[p.start..p.end] == r
      && (data.Rects? ==> p.block != data.block)
    }

    ghost predicate ReadsBoth(q: Operands)
      reads this, q.p1.block, q.p2.block
    {
      Reads(q.p1, q.r1) && Reads(q.p2, q.r2)
    }

    // The block is the one there was, or a new one.
    twostate predicate OwnBlock()
      reads this
    {
      data.Rects? ==> fresh(data.block) || (old(data.Rects?) && data.block == old(data.block))
    }

    // The result of a step that has written to the block, and of one that has
    // run out of memory.
    twostate predicate Grew()
      reads this, Owned()
    {
      Growing() && extents == old(extents) && failures == old(failures) && OwnBlock()
    }

    twostate predicate Starved()
      reads this
    {
      Failed() && RanOut()
    }

    // An allocation for this region has failed.
    twostate predicate RanOut()
      reads this
    {
      scarce && failures > old(failures)
    }

    // ---------- Initialization ----------

    // pixman_region_init
    constructor Init(scarce: bool := true)
      ensures Valid() && !Broken() && Boxes() == [] && failures == 0 && this.scarce == scarce
    {
      this.scarce := scarce;
      extents := EMPTY_BOX;
      data := EmptyData;
      failures := 0;
    }

    // pixman_region_init_rect. A rectangle that is not a good one once its sides
    // have been stored in 16 bits gives the empty region.
    constructor InitRect(x: int, y: int, width: nat, height: nat, scarce: bool := true)
      ensures Valid() && !data.Rects? && !Broken() && failures == 0 && this.scarce == scarce
      ensures forall px, py :: Covers(Boxes(), px, py) <==> InBox(StoredBox(x, y, width, height), px, py)
    {
      this.scarce := scarce;
      var box := StoredBox(x, y, width, height);
      extents := if GoodBox(box) then box else EMPTY_BOX;
      data := if GoodBox(box) then Single else EmptyData;
      failures := 0;
      new;
      if GoodBox(box) {
        SingleCovers(box);
      }
    }

    // ---------- Memory ----------

    // r[i], as it is now
    method Read(p: Slice, i: nat, ghost r: seq<Box>, ghost q: Operands) returns (b: Box)
      requires ReadsBoth(q) && q.Sees(p, r) && i < |r|
      ensures b == r[i]
    {
      b := p.block.rects[p.start + i];
      assert q.p1.block.rects[q.p1.start..q.p1.end] == q.r1 && q.p2.block.rects[q.p2.start..q.p2.end] == q.r2;
    }

    // FREE_DATA
    method FreeData()
      requires data.Rects? ==> data.block.live
      modifies if data.Rects? then {data.block} else {}
      ensures data.Rects? ==> data.block.rects == old(data.block.rects)
    {
      if data.Rects? {
        data.block.Free();
      }
    }

    // pixman_break
    method Break() returns (ok: bool)
      requires data.Rects? ==> data.block.live
      modifies this`extents, this`data, Owned()
      ensures !ok && Failed()
    {
      FreeData();
      extents := EMPTY_BOX;
      data := BrokenData;
      return false;
    }

    // Whether malloc succeeds.
    method Available() returns (available: bool)
      ensures !available ==> scarce
    {
      available := *;
      if !scarce {
        available := true;
      }
    }

    // An allocation that has failed.
    method Starve() returns (ok: bool)
      requires scarce
      requires data.Rects? ==> data.block.live
      modifies this, Owned()
      ensures !ok && Starved()
    {
      failures := failures + 1;
      ok := Break();
    }

    // pixman_rect_alloc. Any allocation may fail, and then the region is broken.
    // Otherwise it has a new block with the same rectangles.
    method RectAlloc(n: nat, ghost q: Operands) returns (ok: bool)
      requires n > 0 && (data.Rects? ==> data.block.live) && ReadsBoth(q)
      requires data.Rects? && n == 1 ==> |data.block.rects| > 0
      modifies this, Owned()
      ensures !ok ==> Starved()
      ensures ok ==> extents == old(extents) && failures == old(failures)
      ensures ok ==> data.Rects? && fresh(data.block) && data.block.live && ReadsBoth(q)
      ensures ok ==> data.block.rects == old(Boxes()) && |data.block.rects| + n <= data.block.size
    {
      var n := n;
      var available := Available();
      if !available {
        ok := Starve();
        return;
      }
      var rects := Boxes();
      match data {
        case Single =>
          n := n + 1;
        case EmptyData =>
        case BrokenData =>
        case Rects(block) =>
          if n == 1 {
            n := |rects|;
            if n > 500 {
              n := 250;
            }
          }
          n := n + |rects|;
          block.Free(); // realloc may move it
      }
      var block := new Block(n, rects);
      data := Rects(block);
      return true;
    }

    // ADDRECT
    method AddRect(b: Box, ghost q: Operands)
      requires Growing() && |data.block.rects| < data.block.size && ReadsBoth(q)
      modifies data.block
      ensures Grew() && ReadsBoth(q)
      ensures data.block.rects == old(data.block.rects) + [b] && data.block.size == old(data.block.size)
    {
      data.block.rects := data.block.rects + [b];
    }

    // NEWRECT, adding to the spans `out` of a band that starts after `base`.
    method NewRect(x1: Coord, y1: Coord, x2: Coord, y2: Coord, ghost base: seq<Box>, ghost out: seq<Span>, ghost q: Operands)
      returns (ok: bool)
      requires Growing() && ReadsBoth(q) && data.block.rects == base + BandBoxes(Band(y1, y2, out))
      modifies this, data.block
      ensures !ok ==> Starved()
      ensures ok ==> Grew() && ReadsBoth(q)
      ensures ok ==> data.block.rects == base + BandBoxes(Band(y1, y2, out + [Span(x1, x2)]))
    {
      if |data.block.rects| == data.block.size {
        ok := RectAlloc(1, q);
        if !ok {
          return;
        }
      }
      AddRect(Box(x1, y1, x2, y2), q);
      BandBoxesSnoc(y1, y2, out, Span(x1, x2));
      return true;
    }

    // DOWNSIZE: give memory back, if the reallocation succeeds.
    method DownSize()
      requires Growing() && data.block.rects != []
      modifies this`data, data.block
      ensures Grew() && data.block.rects == old(data.block.rects)
    {
      if |data.block.rects| < data.block.size / 2 && data.block.size > 50 {
        var available := Available();
        if available {
          var block := new Block(|data.block.rects|, data.block.rects);
          data.block.Free();
          data := Rects(block);
        }
      }
    }

    // pixman_region_copy
    method Copy(src: Region) returns (ok: bool)
      requires Valid() && src.Valid() && Apart(src)
      modifies this, Owned()
      ensures Valid() && OwnBlock()
      ensures !ok ==> Broken() && RanOut()
      ensures ok ==> failures == old(failures)
      ensures old(!src.data.Rects? || this == src) ==> ok
      ensures ok ==> extents == old(src.extents) && Boxes() == old(src.Boxes())
      ensures ok ==> Broken() == old(src.Broken()) && Nil() == old(src.Nil())
    {
      if this == src {
        return true;
      }
      extents := src.extents;
      match src.data {
        case Rects(from) =>
          if !data.Rects? || data.block.size < |from.rects| {
            FreeData();
            var available := Available();
            if !available {
              data := Single; // NULL, as it was returned
              ok := Starve();
              return;
            }
            var block := new Block(|from.rects|, []);
            data := Rects(block);
          }
          data.block.rects := from.rects;
        case _ =>
          FreeData();
          data := src.data;
      }
      return true;
    }

    // ---------- Coalescing ----------

    // pixman_coalesce. Bands of equally many boxes start at prevStart and at
    // curStart, and the second one ends the array.
    method PixmanCoalesce(prevStart: nat, curStart: nat) returns (start: nat)
      requires Growing() && prevStart <= curStart
      requires curStart - prevStart == |data.block.rects| - curStart
      modifies data.block
      ensures Grew()
      ensures start == if SamePlaces(old(data.block.rects), prevStart, curStart) then prevStart else curStart
      ensures var was := old(data.block.rects);
              data.block.rects == if SamePlaces(was, prevStart, curStart)
                                  then was[..prevStart] + Lowered(was[prevStart..curStart], was[curStart].y2)
                                  else was
    {
      var block := data.block;
      ghost var rs := block.rects;
      ghost var prevSpans, curSpans := SpansOf(rs[prevStart..curStart]), SpansOf(rs[curStart..]);
      var numRects := curStart - prevStart;
      if numRects == 0 {
        return curStart;
      }
      var prevBox, curBox := prevStart, curStart;
      if block.rects[prevBox].y2 != block.rects[curBox].y1 {
        return curStart;
      }
      var y2 := block.rects[curBox].y2;
      while numRects != 0
        invariant prevBox == curStart - numRects && curBox == |rs| - numRects
        invariant prevStart <= prevBox <= curStart
        invariant forall i :: 0 <= i < prevBox - prevStart ==> prevSpans[i] == curSpans[i]
        decreases numRects
      {
        if block.rects[prevBox].x1 != block.rects[curBox].x1 || block.rects[prevBox].x2 != block.rects[curBox].x2 {
          assert prevSpans[prevBox - prevStart] != curSpans[prevBox - prevStart];
          return curStart;
        }
        prevBox := prevBox + 1;
        curBox := curBox + 1;
        numRects := numRects - 1;
      }
      numRects := curStart - prevStart;
      block.rects := block.rects[..|block.rects| - numRects];
      while numRects != 0
        invariant 0 <= numRects && prevBox == prevStart + numRects <= curStart
        invariant Grew() && data.block == block && |block.rects| == curStart
        invariant forall i :: 0 <= i < curStart ==> block.rects[i] == if i < prevBox then rs[i] else rs[i].(y2 := y2)
        decreases numRects
      {
        prevBox := prevBox - 1;
        block.rects := block.rects[prevBox := block.rects[prevBox].(y2 := y2)];
        numRects := numRects - 1;
      }
      return prevStart;
    }

    // COALESCE, after the boxes of `band` have been appended at curBand.
    method Coalesce(prevBand: nat, curBand: nat, ghost out: seq<Band>, ghost band: Band, ghost q: Operands)
      returns (start: nat)
      requires Growing() && ReadsBoth(q) && data.block.rects == Flat(out) + BandBoxes(band) && curBand == |Flat(out)|
      requires EndsBy(out, band.y1) && band.y1 < band.y2 && PrevBand(out, prevBand, band.y1)
      modifies data.block
      ensures Grew() && ReadsBoth(q) && data.block.rects == Flat(AddBand(out, band))
      ensures PrevBand(AddBand(out, band), start, band.y2)
    {
      LastBand(out);
      if curBand - prevBand == |data.block.rects| - curBand {
        CoalesceMerges(out, band, prevBand);
        start := PixmanCoalesce(prevBand, curBand);
      } else {
        AppendUnmerged(out, band);
        start := curBand;
      }
    }

    // ---------- One band of output ----------
    //
    // What an operand's pointers point into is read while the result is written:
    // `p` is the pair of pointers, and `r` what they have pointed to throughout.

    // pixman_region_append_non_o
    method AppendNonO(p: Slice, ghost r: seq<Box>, y1: Coord, y2: Coord, ghost q: Operands) returns (ok: bool)
      requires Growing() && ReadsBoth(q) && q.Sees(p, r) && y1 < y2 && r != [] && GoodSpans(SpansOf(r))
      modifies this, data.block
      ensures !ok ==> Starved()
      ensures ok ==> Grew() && ReadsBoth(q)
      ensures ok ==> data.block.rects == old(data.block.rects) + BandBoxes(Band(y1, y2, SpansOf(r)))
    {
      var newRects := p.Count();
      if |data.block.rects| + newRects > data.block.size {
        ok := RectAlloc(newRects, q);
        if !ok {
          return;
        }
      }
      ghost var base, out := data.block.rects, BandBoxes(Band(y1, y2, SpansOf(r)));
      var i := 0;
      while i != newRects
        invariant 0 <= i <= newRects && ReadsBoth(q)
        invariant Grew() && |base| + newRects <= data.block.size
        invariant data.block.rects == base + out[..i]
        decreases newRects - i
      {
        var b := Read(p, i, r, q);
        AddRect(Box(b.x1, y1, b.x2, y2), q);
        CopyNext(r, y1, y2, i, base);
        i := i + 1;
      }
      return true;
    }

    // pixman_region_intersect_o
    method IntersectO(p1: Slice, ghost r1: seq<Box>, p2: Slice, ghost r2: seq<Box>, y1: Coord, y2: Coord, ghost q: Operands)
      returns (ok: bool)
      requires Growing() && ReadsBoth(q) && q.Sees(p1, r1) && q.Sees(p2, r2) && y1 < y2 && r1 != [] && r2 != []
      modifies this, data.block
      ensures !ok ==> Starved()
      ensures ok ==> Grew() && ReadsBoth(q)
      ensures ok ==> data.block.rects == old(data.block.rects)
                                         + BandBoxes(Band(y1, y2, IntersectSpans(SpansOf(r1), SpansOf(r2))))
    {
      ghost var s1, s2, base, out := SpansOf(r1), SpansOf(r2), data.block.rects, [];
      var i, j := 0, 0;
      while i != p1.Count() && j != p2.Count()
        invariant 0 <= i <= |r1| && 0 <= j <= |r2| && ReadsBoth(q)
        invariant Grew() && data.block.rects == base + BandBoxes(Band(y1, y2, out))
        invariant out + IntersectSpans(s1[i..], s2[j..]) == IntersectSpans(s1, s2)
        decreases |r1| - i + |r2| - j
      {
        ok, i, j, out := IntersectNext(p1, r1, p2, r2, i, j, y1, y2, base, out, q);
        if !ok {
          return;
        }
      }
      return true;
    }

    // The body of its loop.
    method IntersectNext(p1: Slice, ghost r1: seq<Box>, p2: Slice, ghost r2: seq<Box>, i: nat, j: nat, y1: Coord, y2: Coord,
                         ghost base: seq<Box>, ghost out: seq<Span>, ghost q: Operands)
      returns (ok: bool, i': nat, j': nat, ghost out': seq<Span>)
      requires Growing() && ReadsBoth(q) && q.Sees(p1, r1) && q.Sees(p2, r2)
      requires i < |r1| && j < |r2| && data.block.rects == base + BandBoxes(Band(y1, y2, out))
      modifies this, data.block
      ensures !ok ==> Starved()
      ensures ok ==> Grew() && ReadsBoth(q) && data.block.rects == base + BandBoxes(Band(y1, y2, out'))
      ensures ok ==> i <= i' <= |r1| && j <= j' <= |r2| && i + j < i' + j'
      ensures ok ==> (out' + IntersectSpans(SpansOf(r1)[i'..], SpansOf(r2)[j'..])
                      == out + IntersectSpans(SpansOf(r1)[i..], SpansOf(r2)[j..]))
    {
      i', j', out' := i, j, out;
      var b1 := Read(p1, i, r1, q);
      var b2 := Read(p2, j, r2, q);
      var x1 := Max(b1.x1, b2.x1);
      var x2 := Min(b1.x2, b2.x2);
      IntersectAdvance(SpansOf(r1), SpansOf(r2), i, j, out);
      if x1 < x2 {
        ok := NewRect(x1, y1, x2, y2, base, out, q);
        if !ok {
          return;
        }
        out' := out + [Span(x1, x2)];
      }
      b1 := Read(p1, i, r1, q);
      b2 := Read(p2, j, r2, q);
      if b1.x2 == x2 {
        i' := i + 1;
      }
      if b2.x2 == x2 {
        j' := j + 1;
      }
      ok := true;
    }

    // MERGERECT: extend the current rectangle x1..x2 by r, or output it and start
    // again. `out` is what this band has output so far.
    method MergeRect(r: Box, x1: Coord, x2: Coord, y1: Coord, y2: Coord, ghost base: seq<Box>, ghost out: seq<Span>,
                     ghost q: Operands) returns (ok: bool, x1': Coord, x2': Coord, ghost out': seq<Span>)
      requires Growing() && ReadsBoth(q) && data.block.rects == base + BandBoxes(Band(y1, y2, out))
      modifies this, data.block
      ensures !ok ==> Starved()
      ensures ok ==> Grew() && ReadsBoth(q) && data.block.rects == base + BandBoxes(Band(y1, y2, out'))
      ensures Merged(out, x1, x2, SpanOf(r), out', x1', x2')
    {
      ok, x1', x2', out' := true, x1, x2, out;
      if r.x1 <= x2 {
        if x2 < r.x2 {
          x2' := r.x2;
        }
      } else {
        ok := NewRect(x1, y1, x2, y2, base, out, q);
        x1', x2', out' := r.x1, r.x2, out + [Span(x1, x2)];
      }
    }

    // pixman_region_union_o
    method UnionO(p1: Slice, ghost r1: seq<Box>, p2: Slice, ghost r2: seq<Box>, y1: Coord, y2: Coord, ghost q: Operands)
      returns (ok: bool)
      requires Growing() && ReadsBoth(q) && q.Sees(p1, r1) && q.Sees(p2, r2)
      requires y1 < y2 && r1 != [] && r2 != []
      modifies this, data.block
      ensures !ok ==> Starved()
      ensures ok ==> Grew() && ReadsBoth(q)
      ensures ok ==> data.block.rects == old(data.block.rects)
                                         + BandBoxes(Band(y1, y2, UnionBand(SpansOf(r1), SpansOf(r2))))
    {
      ghost var s1, s2, base, out := SpansOf(r1), SpansOf(r2), data.block.rects, [];
      var i, j := 0, 0;
      var x1: Coord, x2: Coord;
      var b1 := Read(p1, 0, r1, q);
      var b2 := Read(p2, 0, r2, q);
      if b1.x1 < b2.x1 {
        x1, x2, i := b1.x1, b1.x2, 1;
      } else {
        x1, x2, j := b2.x1, b2.x2, 1;
      }
      while i != p1.Count() && j != p2.Count()
        invariant 0 <= i <= |r1| && 0 <= j <= |r2| && ReadsBoth(q)
        invariant Grew() && data.block.rects == base + BandBoxes(Band(y1, y2, out))
        invariant out + UnionSpans(x1, x2, s1[i..], s2[j..]) == UnionBand(s1, s2)
        decreases |r1| - i + |r2| - j
      {
        ok, i, j, x1, x2, out := UnionNext(p1, r1, p2, r2, i, j, x1, x2, y1, y2, base, out, q);
        if !ok {
          return;
        }
      }
      ok := UnionRest(p1, r1, p2, r2, i, j, x1, x2, y1, y2, base, out, q);
    }

    // What follows the loop.
    method UnionRest(p1: Slice, ghost r1: seq<Box>, p2: Slice, ghost r2: seq<Box>, i: nat, j: nat, x1: Coord, x2: Coord,
                     y1: Coord, y2: Coord, ghost base: seq<Box>, ghost out: seq<Span>, ghost q: Operands) returns (ok: bool)
      requires Growing() && ReadsBoth(q) && q.Sees(p1, r1) && q.Sees(p2, r2)
      requires i <= |r1| && j <= |r2| && (i == |r1| || j == |r2|)
      requires data.block.rects == base + BandBoxes(Band(y1, y2, out))
      modifies this, data.block
      ensures !ok ==> Starved()
      ensures ok ==> Grew() && ReadsBoth(q)
      ensures ok ==> data.block.rects == base + BandBoxes(Band(y1, y2,
                                                out + UnionSpans(x1, x2, SpansOf(r1)[i..], SpansOf(r2)[j..])))
    {
      ghost var out' := out;
      var x1, x2 := x1, x2;
      if i != p1.Count() {
        ok, x1, x2, out' := MergeRest(p1, r1, i, x1, x2, y1, y2, base, out, q);
      } else if j != p2.Count() {
        UnionRestSymmetric(x1, x2, SpansOf(r2)[j..]);
        ok, x1, x2, out' := MergeRest(p2, r2, j, x1, x2, y1, y2, base, out, q);
      } else {
        ok := true;
      }
      if !ok {
        return;
      }
      ok := NewRect(x1, y1, x2, y2, base, out', q);
    }

    // The body of its loop.
    method UnionNext(p1: Slice, ghost r1: seq<Box>, p2: Slice, ghost r2: seq<Box>, i: nat, j: nat, x1: Coord, x2: Coord,
                     y1: Coord, y2: Coord, ghost base: seq<Box>, ghost out: seq<Span>, ghost q: Operands)
      returns (ok: bool, i': nat, j': nat, x1': Coord, x2': Coord, ghost out': seq<Span>)
      requires Growing() && ReadsBoth(q) && q.Sees(p1, r1) && q.Sees(p2, r2)
      requires i < |r1| && j < |r2| && data.block.rects == base + BandBoxes(Band(y1, y2, out))
      modifies this, data.block
      ensures !ok ==> Starved()
      ensures ok ==> Grew() && ReadsBoth(q) && data.block.rects == base + BandBoxes(Band(y1, y2, out'))
      ensures i <= i' <= |r1| && j <= j' <= |r2| && i + j < i' + j'
      ensures out' + UnionSpans(x1', x2', SpansOf(r1)[i'..], SpansOf(r2)[j'..])
           == out + UnionSpans(x1, x2, SpansOf(r1)[i..], SpansOf(r2)[j..])
    {
      ghost var s1, s2 := SpansOf(r1), SpansOf(r2);
      DropNext(s1, i);
      DropNext(s2, j);
      i', j' := i, j;
      var b1 := Read(p1, i, r1, q);
      var b2 := Read(p2, j, r2, q);
      if b1.x1 < b2.x1 {
        ok, x1', x2', out' := MergeRect(b1, x1, x2, y1, y2, base, out, q);
        UnionStep(out, x1, x2, s1[i..], s2[j..], true, out', x1', x2');
        i' := i + 1;
      } else {
        ok, x1', x2', out' := MergeRect(b2, x1, x2, y1, y2, base, out, q);
        UnionStep(out, x1, x2, s1[i..], s2[j..], false, out', x1', x2');
        j' := j + 1;
      }
    }

    // The loops that finish off whichever band is left.
    method MergeRest(p: Slice, ghost r: seq<Box>, start: nat, x1: Coord, x2: Coord, y1: Coord, y2: Coord,
                     ghost base: seq<Box>, ghost out: seq<Span>,
                     ghost q: Operands) returns (ok: bool, x1': Coord, x2': Coord, ghost out': seq<Span>)
      requires Growing() && ReadsBoth(q) && q.Sees(p, r) && start <= |r|
      requires data.block.rects == base + BandBoxes(Band(y1, y2, out))
      modifies this, data.block
      ensures !ok ==> Starved()
      ensures ok ==> Grew() && ReadsBoth(q) && data.block.rects == base + BandBoxes(Band(y1, y2, out'))
      ensures ok ==> out' + [Span(x1', x2')] == out + UnionSpans(x1, x2, SpansOf(r)[start..], [])
    {
      ghost var ss := SpansOf(r);
      var i := start;
      ok, x1', x2', out' := true, x1, x2, out;
      while i != p.Count()
        invariant start <= i <= |r| && ok && ReadsBoth(q)
        invariant Grew() && data.block.rects == base + BandBoxes(Band(y1, y2, out'))
        invariant out' + UnionSpans(x1', x2', ss[i..], []) == out + UnionSpans(x1, x2, ss[start..], [])
        decreases |r| - i
      {
        DropNext(ss, i);
        ghost var out0, x10, x20 := out', x1', x2';
        var b := Read(p, i, r, q);
        ok, x1', x2', out' := MergeRect(b, x1', x2', y1, y2, base, out', q);
        UnionStep(out0, x10, x20, ss[i..], [], true, out', x1', x2');
        i := i + 1;
        if !ok {
          return;
        }
      }
    }

    // pixman_region_subtract_o
    method SubtractO(p1: Slice, ghost r1: seq<Box>, p2: Slice, ghost r2: seq<Box>, y1: Coord, y2: Coord, ghost q: Operands)
      returns (ok: bool)
      requires Growing() && ReadsBoth(q) && q.Sees(p1, r1) && q.Sees(p2, r2)
      requires y1 < y2 && r1 != [] && r2 != [] && GoodSpans(SpansOf(r1))
      modifies this, data.block
      ensures !ok ==> Starved()
      ensures ok ==> Grew() && ReadsBoth(q)
      ensures ok ==> data.block.rects == old(data.block.rects)
                                         + BandBoxes(Band(y1, y2, SubtractSpans(r1[0].x1, SpansOf(r1), SpansOf(r2))))
    {
      ghost var s1, s2, base, out := SpansOf(r1), SpansOf(r2), data.block.rects, [];
      GoodSpansEach(s1);
      var i, j := 0, 0;
      var b1 := Read(p1, 0, r1, q);
      var x1: Coord := b1.x1;
      while i != p1.Count() && j != p2.Count()
        invariant 0 <= i <= |r1| && 0 <= j <= |r2| && (i < |r1| ==> x1 < s1[i].x2) && ReadsBoth(q)
        invariant Grew() && data.block.rects == base + BandBoxes(Band(y1, y2, out))
        invariant out + SubtractSpans(x1, s1[i..], s2[j..]) == SubtractSpans(r1[0].x1, s1, s2)
        decreases |r1| - i + |r2| - j
      {
        ok, i, j, x1, out := SubtractStep(p1, r1, p2, r2, i, j, x1, y1, y2, base, out, q);
        if !ok {
          return;
        }
      }
      ok := SubtractRest(p1, r1, i, x1, y1, y2, base, out, q);
    }

    // The body of its loop.
    method SubtractStep(p1: Slice, ghost r1: seq<Box>, p2: Slice, ghost r2: seq<Box>, i: nat, j: nat, x1: Coord,
                        y1: Coord, y2: Coord, ghost base: seq<Box>, ghost out: seq<Span>, ghost q: Operands)
      returns (ok: bool, i': nat, j': nat, x1': Coord, ghost out': seq<Span>)
      requires Growing() && ReadsBoth(q) && q.Sees(p1, r1) && q.Sees(p2, r2) && GoodSpans(SpansOf(r1))
      requires i < |r1| && j < |r2| && x1 < r1[i].x2 && data.block.rects == base + BandBoxes(Band(y1, y2, out))
      modifies this, data.block
      ensures !ok ==> Starved()
      ensures ok ==> Grew() && ReadsBoth(q) && data.block.rects == base + BandBoxes(Band(y1, y2, out'))
      ensures ok ==> i <= i' <= |r1| && j <= j' <= |r2| && i + j < i' + j' && (i' < |r1| ==> x1' < r1[i'].x2)
      ensures ok ==> (out' + SubtractSpans(x1', SpansOf(r1)[i'..], SpansOf(r2)[j'..])
                      == out + SubtractSpans(x1, SpansOf(r1)[i..], SpansOf(r2)[j..]))
    {
      ghost var s1, s2 := SpansOf(r1), SpansOf(r2);
      ok, i', j', x1', out' := true, i, j, x1, out;
      var b1 := Read(p1, i, r1, q);
      var b2 := Read(p2, j, r2, q);
      if b2.x2 <= x1 {
        j' := j + 1;
        SubtractSkip(s1, s2, i, j, x1);
      } else if b2.x1 <= x1 {
        i', j', x1' := NextMinuend(p1, r1, i, j, b1, b2, q);
        SubtractPast(s1, s2, i, j, x1');
      } else if b2.x1 < b1.x2 {
        ok, i', j', x1' := CutMinuend(p1, r1, p2, r2, i, j, x1, y1, y2, base, out, q);
        out' := out + [Span(x1, b2.x1)];
        if ok {
          SubtractCut(s1, s2, i, j, x1, x1', out);
        }
      } else {
        ok, x1', out' := KeepMinuend(p1, r1, i, x1, y1, y2, base, out, q);
        i' := i + 1;
        if ok {
          SubtractKeep(s1, s2, i, j, x1, x1', out);
        }
      }
    }

    // The left part of the minuend, before the subtrahend j.
    method CutMinuend(p1: Slice, ghost r1: seq<Box>, p2: Slice, ghost r2: seq<Box>, i: nat, j: nat, x1: Coord,
                      y1: Coord, y2: Coord, ghost base: seq<Box>, ghost out: seq<Span>, ghost q: Operands)
      returns (ok: bool, i': nat, j': nat, x1': Coord)
      requires Growing() && ReadsBoth(q) && q.Sees(p1, r1) && q.Sees(p2, r2) && GoodSpans(SpansOf(r1))
      requires i < |r1| && j < |r2| && data.block.rects == base + BandBoxes(Band(y1, y2, out))
      modifies this, data.block
      ensures !ok ==> Starved()
      ensures ok ==> Grew() && ReadsBoth(q)
      ensures ok ==> data.block.rects == base + BandBoxes(Band(y1, y2, out + [Span(x1, r2[j].x1)]))
      ensures ok ==> i' == (if r2[j].x2 >= r1[i].x2 then i + 1 else i) && j' == if r2[j].x2 >= r1[i].x2 then j else j + 1
      ensures ok ==> x1' == if r2[j].x2 >= r1[i].x2 && i + 1 < |r1| then r1[i + 1].x1 else r2[j].x2
      ensures ok && i' < |r1| ==> x1' < r1[i'].x2
    {
      i', j', x1' := i, j, x1;
      var b2 := Read(p2, j, r2, q);
      ok := NewRect(x1, y1, b2.x1, y2, base, out, q);
      if ok {
        var b1 := Read(p1, i, r1, q);
        b2 := Read(p2, j, r2, q);
        i', j', x1' := NextMinuend(p1, r1, i, j, b1, b2, q);
      }
    }

    // What is left of the minuend, which ends before the subtrahend.
    method KeepMinuend(p: Slice, ghost r: seq<Box>, i: nat, x1: Coord, y1: Coord, y2: Coord,
                       ghost base: seq<Box>, ghost out: seq<Span>, ghost q: Operands)
      returns (ok: bool, x1': Coord, ghost out': seq<Span>)
      requires Growing() && ReadsBoth(q) && q.Sees(p, r) && GoodSpans(SpansOf(r))
      requires i < |r| && data.block.rects == base + BandBoxes(Band(y1, y2, out))
      modifies this, data.block
      ensures !ok ==> Starved()
      ensures ok ==> Grew() && ReadsBoth(q) && data.block.rects == base + BandBoxes(Band(y1, y2, out'))
      ensures out' == out + if r[i].x2 > x1 then [Span(x1, r[i].x2)] else []
      ensures ok && i + 1 < |r| ==> x1' == r[i + 1].x1 < r[i + 1].x2
    {
      GoodSpansEach(SpansOf(r));
      ok, x1', out' := true, x1, out;
      var b := Read(p, i, r, q);
      if b.x2 > x1 {
        ok := NewRect(x1, y1, b.x2, y2, base, out, q);
        out' := out + [Span(x1, b.x2)];
      }
      if ok && i + 1 != p.Count() {
        b := Read(p, i + 1, r, q);
        x1' := b.x1;
        assert SpansOf(r)[i + 1].x1 < SpansOf(r)[i + 1].x2;
      }
    }

    // The subtrahend b2 ends at or beyond x1: the left edge moves to its end, and
    // whichever of the two rectangles is used up is left behind.
    method NextMinuend(p1: Slice, ghost r1: seq<Box>, i: nat, j: nat, b1: Box, b2: Box, ghost q: Operands)
      returns (i': nat, j': nat, x1': Coord)
      requires ReadsBoth(q) && q.Sees(p1, r1) && GoodSpans(SpansOf(r1)) && i < |r1| && b1 == r1[i]
      ensures i' == (if b2.x2 >= b1.x2 then i + 1 else i) && j' == if b2.x2 >= b1.x2 then j else j + 1
      ensures x1' == if b2.x2 >= b1.x2 && i + 1 < |r1| then r1[i + 1].x1 else b2.x2
      ensures i' < |r1| ==> x1' < r1[i'].x2
    {
      GoodSpansEach(SpansOf(r1));
      i', j', x1' := i, j, b2.x2;
      if x1' >= b1.x2 {
        i' := i + 1;
        if i' != p1.Count() {
          var b := Read(p1, i', r1, q);
          x1' := b.x1;
          assert SpansOf(r1)[i'].x1 < SpansOf(r1)[i'].x2;
        }
      } else {
        j' := j + 1;
      }
    }

    // Add the remaining minuend rectangles.
    method SubtractRest(p: Slice, ghost r: seq<Box>, start: nat, left: Coord, y1: Coord, y2: Coord,
                        ghost base: seq<Box>, ghost out: seq<Span>, ghost q: Operands) returns (ok: bool)
      requires Growing() && ReadsBoth(q) && q.Sees(p, r) && start <= |r|
      requires data.block.rects == base + BandBoxes(Band(y1, y2, out))
      modifies this, data.block
      ensures !ok ==> Starved()
      ensures ok ==> Grew() && ReadsBoth(q)
      ensures ok ==> data.block.rects == base + BandBoxes(Band(y1, y2, out + SubtractSpans(left, SpansOf(r)[start..], [])))
    {
      ghost var ss, out' := SpansOf(r), out;
      var i := start;
      var x1: Coord := left;
      while i != p.Count()
        invariant start <= i <= |r| && ReadsBoth(q)
        invariant Grew() && data.block.rects == base + BandBoxes(Band(y1, y2, out'))
        invariant out' + SubtractSpans(x1, ss[i..], []) == out + SubtractSpans(left, ss[start..], [])
        decreases |r| - i
      {
        ghost var x0 := x1;
        ok, x1 := KeepRest(p, r, i, x1, y1, y2, base, out', q);
        if !ok {
          return;
        }
        SubtractRestNext(ss, i, out', x0, x1);
        out' := out' + [Span(x0, ss[i].x2)];
        i := i + 1;
      }
      return true;
    }

    // The body of its loop.
    method KeepRest(p: Slice, ghost r: seq<Box>, i: nat, x1: Coord, y1: Coord, y2: Coord,
                    ghost base: seq<Box>, ghost out: seq<Span>, ghost q: Operands) returns (ok: bool, x1': Coord)
      requires Growing() && ReadsBoth(q) && q.Sees(p, r) && data.block.rects == base + BandBoxes(Band(y1, y2, out)) && i < |r|
      modifies this, data.block
      ensures !ok ==> Starved()
      ensures ok ==> Grew() && ReadsBoth(q)
      ensures ok ==> data.block.rects == base + BandBoxes(Band(y1, y2, out + [Span(x1, r[i].x2)]))
      ensures ok && i + 1 < |r| ==> x1' == r[i + 1].x1
    {
      x1' := x1;
      var b := Read(p, i, r, q);
      ok := NewRect(x1, y1, b.x2, y2, base, out, q);
      if ok && i + 1 != p.Count() {
        b := Read(p, i + 1, r, q);
        x1' := b.x1;
      }
    }

    // The pattern shared by the four places where one band is copied.
    method AppendBand(p: Slice, ghost r: seq<Box>, y1: Coord, y2: Coord, prevBand: nat, ghost out: seq<Band>, ghost q: Operands)
      returns (ok: bool, start: nat)
      requires Growing() && ReadsBoth(q) && q.Sees(p, r) && data.block.rects == Flat(out)
      requires y1 < y2 && r != [] && GoodSpans(SpansOf(r))
      requires EndsBy(out, y1) && PrevBand(out, prevBand, y1)
      modifies this, data.block
      ensures !ok ==> Starved()
      ensures ok ==> Grew() && ReadsBoth(q) && data.block.rects == Flat(AddBand(out, Band(y1, y2, SpansOf(r))))
      ensures ok ==> PrevBand(AddBand(out, Band(y1, y2, SpansOf(r))), start, y2)
    {
      start := prevBand;
      var curBand := |data.block.rects|;
      ok := AppendNonO(p, r, y1, y2, q);
      if ok {
        start := Coalesce(prevBand, curBand, out, Band(y1, y2, SpansOf(r)), q);
      }
    }

    // The overlap function handed to pixman_op.
    method OverlapO(op: Overlap, p1: Slice, ghost r1: seq<Box>, p2: Slice, ghost r2: seq<Box>,
                    y1: Coord, y2: Coord, ghost q: Operands)
      returns (ok: bool)
      requires Growing() && ReadsBoth(q) && q.Sees(p1, r1) && q.Sees(p2, r2)
      requires y1 < y2 && r1 != [] && r2 != [] && GoodSpans(SpansOf(r1))
      modifies this, data.block
      ensures !ok ==> Starved()
      ensures ok ==> Grew() && ReadsBoth(q)
      ensures ok ==> data.block.rects == old(data.block.rects)
                                         + BandBoxes(Band(y1, y2, OverlapSpans(op, SpansOf(r1), SpansOf(r2))))
    {
      match op
      case Union => ok := UnionO(p1, r1, p2, r2, y1, y2, q);
      case Intersect => ok := IntersectO(p1, r1, p2, r2, y1, y2, q);
      case Subtract => ok := SubtractO(p1, r1, p2, r2, y1, y2, q);
    }

    // The rows where only r has a band, above row y and below ybot.
    method CopyRows(keep: bool, p: Slice, ghost r: seq<Box>, y: Coord, ybot: Coord, prevBand: nat,
                    ghost out: seq<Band>, ghost a0: Band, ghost q: Operands) returns (ok: bool, start: nat)
      requires Growing() && ReadsBoth(q) && q.Sees(p, r)
      requires data.block.rects == Flat(out) && PrevBand(out, prevBand, ybot) && EndsBy(out, ybot)
      requires GoodBand(a0) && r == BandBoxes(a0) && a0.y1 < y && ybot < a0.y2 && ybot <= y
      modifies this, data.block
      ensures !ok ==> Starved()
      ensures ok ==> var out' := AddNonOverlap(keep, out, a0, y, ybot);
                     && Grew() && ReadsBoth(q) && data.block.rects == Flat(out')
                     && PrevBand(out', start, Min(a0.y2, y)) && EndsBy(out', Min(a0.y2, y))
    {
      SpansOfBand(a0);
      ok, start := true, prevBand;
      if keep {
        var b := Read(p, 0, r, q);
        var top, bot := Max(b.y1, ybot), Min(b.y2, y);
        if top != bot {
          ok, start := AppendBand(p, r, top, bot, prevBand, out, q);
        }
      }
    }

    // The rows where only one operand has a band, in one iteration of pixman_op.
    method NonOverlapRows(op: Overlap, appendNon1: bool, appendNon2: bool, p1: Slice, ghost r1: seq<Box>,
                          p2: Slice, ghost r2: seq<Box>, ybot: Coord, prevBand: nat,
                          ghost out: seq<Band>, ghost a0: Band, ghost b0: Band, ghost q: Operands)
      returns (ok: bool, ytop: Coord, start: nat)
      requires appendNon1 == Apply(op, true, false) && appendNon2 == Apply(op, false, true)
      requires Growing() && ReadsBoth(q) && q.Sees(p1, r1) && q.Sees(p2, r2)
      requires data.block.rects == Flat(out) && PrevBand(out, prevBand, ybot)
      requires GoodBand(a0) && GoodBand(b0) && SweepInv(out, [a0], [b0], ybot)
      requires r1 == BandBoxes(a0) && r2 == BandBoxes(b0)
      modifies this, data.block
      ensures !ok ==> Starved()
      ensures ytop == Max(a0.y1, b0.y1)
      ensures ok ==> Grew() && ReadsBoth(q)
      ensures ok ==> var out', y := NonOverlap(op, out, a0, b0, ybot), Min(ytop, Min(a0.y2, b0.y2));
                     data.block.rects == Flat(out') && PrevBand(out', start, y) && EndsBy(out', y)
    {
      ok, start := true, prevBand;
      var b1 := Read(p1, 0, r1, q);
      var b2 := Read(p2, 0, r2, q);
      var r1y1, r2y1 := b1.y1, b2.y1;
      if r1y1 < r2y1 {
        ok, start := CopyRows(appendNon1, p1, r1, r2y1, ybot, prevBand, out, a0, q);
        ytop := r2y1;
      } else if r2y1 < r1y1 {
        ok, start := CopyRows(appendNon2, p2, r2, r1y1, ybot, prevBand, out, b0, q);
        ytop := r1y1;
      } else {
        ytop := r1y1;
      }
    }

    // One iteration of pixman_op on the current bands r1 and r2.
    method SweepStep(op: Overlap, appendNon1: bool, appendNon2: bool, p1: Slice, ghost r1: seq<Box>,
                     p2: Slice, ghost r2: seq<Box>, ybot: Coord, prevBand: nat,
                     ghost out: seq<Band>, ghost a0: Band, ghost b0: Band, ghost q: Operands)
      returns (ok: bool, ybot': Coord, start: nat)
      requires appendNon1 == Apply(op, true, false) && appendNon2 == Apply(op, false, true)
      requires Growing() && ReadsBoth(q) && q.Sees(p1, r1) && q.Sees(p2, r2)
      requires data.block.rects == Flat(out) && PrevBand(out, prevBand, ybot)
      requires GoodBand(a0) && GoodBand(b0) && SweepInv(out, [a0], [b0], ybot)
      requires r1 == BandBoxes(a0) && r2 == BandBoxes(b0)
      modifies this, data.block
      ensures !ok ==> Starved()
      ensures ybot' == Min(a0.y2, b0.y2)
      ensures ok ==> Grew() && ReadsBoth(q) && data.block.rects == Flat(AddStep(op, out, a0, b0, ybot))
      ensures ok ==> PrevBand(AddStep(op, out, a0, b0, ybot), start, ybot') && EndsBy(AddStep(op, out, a0, b0, ybot), ybot')
    {
      var b1 := Read(p1, 0, r1, q);
      var b2 := Read(p2, 0, r2, q);
      ybot' := Min(b1.y2, b2.y2);
      var ytop;
      ok, ytop, start := NonOverlapRows(op, appendNon1, appendNon2, p1, r1, p2, r2, ybot, prevBand, out, a0, b0, q);
      if !ok {
        return;
      }
      ghost var out1 := NonOverlap(op, out, a0, b0, ybot);
      if ybot' > ytop {
        ok, start := OverlapRows(op, p1, r1, p2, r2, ytop, ybot', start, out1, a0, b0, q);
      }
    }

    // The rows where both have a band.
    method OverlapRows(op: Overlap, p1: Slice, ghost r1: seq<Box>, p2: Slice, ghost r2: seq<Box>,
                       ytop: Coord, ybot: Coord, prevBand: nat,
                       ghost out: seq<Band>, ghost a0: Band, ghost b0: Band, ghost q: Operands)
      returns (ok: bool, start: nat)
      requires Growing() && ReadsBoth(q) && q.Sees(p1, r1) && q.Sees(p2, r2)
      requires data.block.rects == Flat(out) && PrevBand(out, prevBand, ytop) && EndsBy(out, ytop)
      requires GoodBand(a0) && GoodBand(b0) && ytop < ybot
      requires r1 == BandBoxes(a0) && r2 == BandBoxes(b0)
      modifies this, data.block
      ensures !ok ==> Starved()
      ensures var out' := AddBand(out, Band(ytop, ybot, OverlapSpans(op, a0.spans, b0.spans)));
              ok ==> Grew() && ReadsBoth(q) && data.block.rects == Flat(out') && PrevBand(out', start, ybot)
    {
      start := prevBand;
      var curBand := |data.block.rects|;
      SpansOfBand(a0);
      SpansOfBand(b0);
      ok := OverlapO(op, p1, r1, p2, r2, ytop, ybot, q);
      if !ok {
        return;
      }
      start := Coalesce(start, curBand, out, Band(ytop, ybot, OverlapSpans(op, a0.spans, b0.spans)), q);
    }

    // The end of pixman_op: the first band left of the operand that is not
    // exhausted may coalesce, the others are appended in one go.
    method AppendRemainder(p: Slice, ghost r: seq<Box>, ybot: Coord, prevBand: nat, ghost out: seq<Band>, ghost bs: seq<Band>,
                           ghost q: Operands) returns (ok: bool)
      requires Growing() && ReadsBoth(q) && q.Sees(p, r)
      requires data.block.rects == Flat(out) && PrevBand(out, prevBand, ybot) && EndsBy(out, ybot)
      requires r == Flat(bs) && GoodBands(bs) && bs != [] && ybot < bs[0].y2
      modifies this, data.block
      ensures !ok ==> Starved()
      ensures ok ==> Grew() && data.block.rects == Flat(AddRest(true, out, bs, ybot))
    {
      TopOfRects(bs);
      var bandEnd, b := FindBand(p, r, q);
      BandEnd(r, bs, bandEnd - p.start);
      var start;
      ghost var first := Band(Max(b.y1, ybot), bs[0].y2, bs[0].spans);
      SpansOfBand(bs[0]);
      q.Shorter(p, r, bandEnd);
      ok, start := AppendBand(p.(end := bandEnd), BandBoxes(bs[0]), Max(b.y1, ybot), b.y2, prevBand, out, q);
      if !ok {
        return;
      }
      ok := AppendRegions(p.(start := bandEnd), p, r, q);
      FlatConcat(AddBand(out, first), bs[1..]);
    }

    // APPEND_REGIONS: what is left of p when its first rectangles are done.
    method AppendRegions(rest: Slice, ghost p: Slice, ghost r: seq<Box>, ghost q: Operands) returns (ok: bool)
      requires Growing() && ReadsBoth(q) && q.Sees(p, r)
      requires p.start <= rest.start <= rest.end && rest == p.(start := rest.start)
      modifies this, data.block
      ensures !ok ==> Starved()
      ensures ok ==> Grew() && data.block.rects == old(data.block.rects) + r[rest.start - p.start..]
    {
      var newRects := rest.Count();
      if newRects != 0 {
        if |data.block.rects| + newRects > data.block.size {
          ok := RectAlloc(newRects, q);
          if !ok {
            return;
          }
        }
        Rest(p, r, rest.start, q);
        data.block.rects := data.block.rects + rest.block.rects[rest.start..rest.end];
      }
      return true;
    }

    lemma {:induction false} Rest(p: Slice, r: seq<Box>, at: nat, q: Operands)
      requires ReadsBoth(q) && q.Sees(p, r) && p.start <= at <= p.end
      ensures p.end <= |p.block.rects| && p.block.rects[at..p.end] == r[at - p.start..]
    {
      if Starts(q.p1, q.r1, p, r) {
        SubRange(p.block.rects, q.p1.start, q.p1.end, p.end, at);
      } else {
        SubRange(p.block.rects, q.p2.start, q.p2.end, p.end, at);
      }
    }

    // FIND_BAND: the end of the band that starts at r, and its first rectangle.
    method FindBand(p: Slice, ghost r: seq<Box>, ghost q: Operands) returns (bandEnd: nat, b: Box)
      requires ReadsBoth(q) && q.Sees(p, r) && r != []
      ensures p.start < bandEnd <= p.end && SameTop(r, bandEnd - p.start) && b == r[0]
    {
      b := Read(p, 0, r, q);
      var i := 1;
      while i != p.Count()
        invariant 1 <= i <= |r| && forall k :: 0 <= k < i ==> r[k].y1 == b.y1
        decreases |r| - i
      {
        var next := Read(p, i, r, q);
        if next.y1 != b.y1 {
          break;
        }
        i := i + 1;
      }
      bandEnd := p.start + i;
    }

    // ---------- pixman_op ----------

    // What pixman_op leaves behind: everything but the extents of a larger region.
    ghost predicate Shaped()
      reads this, Owned()
    {
      match data
      case Single => GoodBox(extents)
      case EmptyData => true
      case BrokenData => false
      case Rects(block) => block.live && 2 <= |block.rects| <= block.size
    }

    // r = PIXREGION_RECTS, r_end = r + PIXREGION_NUMRECTS. The extents of a single
    // rectangle are not written before the operation ends (see Grew), so a block
    // with a copy of them stands for the place where they are.
    method Pointers() returns (p: Slice)
      requires Valid() && !Nil()
      ensures p.start == 0 && p.end == |Boxes()| && p.block.live && p.block.rects == Boxes()
      ensures if data.Rects? then p.block == data.block else fresh(p.block)
    {
      if data.Single? {
        var block := new Block(1, [extents]);
        p := Slice(block, 0, 1);
      } else {
        p := Slice(data.block, 0, |data.block.rects|);
      }
    }

    // Before the initialization: pointers into this region's own block belong to
    // an operand that is this region.
    ghost predicate Points(reg: Region, p: Slice, r: seq<Box>)
      reads this, p.block
    {
      && p.block.live && p.start <= p.end <= |p.block.rects| && p.block.rects[p.start..p.end] == r
      && (data.Rects? && p.block == data.block ==> this == reg && |r| > 1)
      && (this == reg && |r| > 1 ==> data.Rects?)
    }

    // The initialization: an empty block, with room for a first guess. If this
    // region is an operand with a block, then that is put aside.
    method StartResult(reg1: Region, reg2: Region, p1: Slice, p2: Slice, ghost q: Operands)
      returns (ok: bool, oldData: Block?)
      requires (data.Rects? ==> data.block.live) && p1 == q.p1 && p2 == q.p2 && q.r1 != []
      requires Points(reg1, p1, q.r1) && Points(reg2, p2, q.r2)
      modifies this, Owned()
      ensures !ok ==> Starved()
      ensures ok ==> Growing() && extents == old(extents) && failures == old(failures) && OwnBlock()
      ensures ok ==> data.block.rects == [] && ReadsBoth(q)
      ensures oldData != null ==> oldData.live && old(data.Rects?) && oldData == old(data.block)
      ensures oldData != null && ok ==> oldData != data.block
    {
      var newSize;
      oldData, newSize := PutAside(reg1, reg2, p1, p2, q);
      if data.Single? {
        data := EmptyData;
      } else if data.Rects? {
        data.block.rects := [];
      }
      if !data.Rects? || newSize > data.block.size {
        ok := RectAlloc(newSize, q);
      } else {
        ok := true;
      }
    }

    method PutAside(reg1: Region, reg2: Region, p1: Slice, p2: Slice, ghost q: Operands)
      returns (oldData: Block?, newSize: nat)
      requires p1 == q.p1 && p2 == q.p2 && q.r1 != []
      requires Points(reg1, p1, q.r1) && Points(reg2, p2, q.r2)
      modifies this`data
      ensures ReadsBoth(q) && newSize > 1
      ensures if oldData == null then data == old(data) else old(data.Rects?) && oldData == old(data.block) && data == EmptyData
    {
      oldData := null;
      newSize := p1.Count();
      var numRects := p2.Count();
      if (this == reg1 && newSize > 1) || (this == reg2 && numRects > 1) {
        oldData := data.block;
        data := EmptyData;
      }
      if numRects > newSize {
        newSize := numRects;
      }
      newSize := newSize * 2;
    }

    // The loop and what follows it.
    method SweepRects(op: Overlap, appendNon1: bool, appendNon2: bool, start1: Slice, start2: Slice,
                      ghost a: seq<Band>, ghost b: seq<Band>) returns (ok: bool)
      requires appendNon1 == Apply(op, true, false) && appendNon2 == Apply(op, false, true)
      requires Growing() && data.block.rects == [] && Reads(start1, Flat(a)) && Reads(start2, Flat(b))
      requires GoodBands(a) && GoodBands(b) && NonEmpty(a) && NonEmpty(b) && a != [] && b != []
      modifies this, data.block
      ensures !ok ==> Starved()
      ensures ok ==> Grew() && data.block.rects == Flat(Sweep(op, [], a, b, Min(a[0].y1, b[0].y1)))
    {
      ok := true;
      var p1, p2 := start1, start2;
      ghost var q := Operands(p1, Flat(a), p2, Flat(b));
      TopOfRects(a);
      TopOfRects(b);
      var b1 := Read(p1, 0, q.r1, q);
      var b2 := Read(p2, 0, q.r2, q);
      var ybot: Coord := Min(b1.y1, b2.y1);
      var prevBand := 0;
      ghost var y0, a', b', out := ybot, a, b, [];
      while p1.start != p1.end && p2.start != p2.end
        invariant q == Operands(p1, Flat(a'), p2, Flat(b')) && ReadsBoth(q) && ok
        invariant GoodBands(a') && GoodBands(b') && NonEmpty(a') && NonEmpty(b')
        invariant SweepInv(out, a', b', ybot) && PrevBand(out, prevBand, ybot)
        invariant Grew() && data.block.rects == Flat(out)
        invariant Sweep(op, out, a', b', ybot) == Sweep(op, [], a, b, y0)
        decreases p1.end - p1.start + p2.end - p2.start
      {
        ok, p1, p2, ybot, prevBand, out, a', b', q :=
          SweepOne(op, appendNon1, appendNon2, p1, p2, ybot, prevBand, out, a', b', q);
        if !ok {
          return;
        }
      }
      ok := SweepEnd(op, appendNon1, appendNon2, p1, p2, ybot, prevBand, out, a', b', q);
    }

    // What follows the loop: at most one operand is left.
    method SweepEnd(op: Overlap, appendNon1: bool, appendNon2: bool, p1: Slice, p2: Slice, ybot: Coord, prevBand: nat,
                    ghost out: seq<Band>, ghost a: seq<Band>, ghost b: seq<Band>, ghost q: Operands) returns (ok: bool)
      requires appendNon1 == Apply(op, true, false) && appendNon2 == Apply(op, false, true)
      requires Growing() && q == Operands(p1, Flat(a), p2, Flat(b)) && ReadsBoth(q) && data.block.rects == Flat(out)
      requires GoodBands(a) && GoodBands(b) && NonEmpty(a) && NonEmpty(b) && (p1.start == p1.end || p2.start == p2.end)
      requires SweepInv(out, a, b, ybot) && PrevBand(out, prevBand, ybot)
      modifies this, data.block
      ensures !ok ==> Starved()
      ensures ok ==> Grew() && data.block.rects == Flat(Sweep(op, out, a, b, ybot))
    {
      TopOfRects(a);
      TopOfRects(b);
      ok := true;
      if p1.start != p1.end && appendNon1 {
        ok := AppendRemainder(p1, Flat(a), ybot, prevBand, out, a, q);
      } else if p2.start != p2.end && appendNon2 {
        ok := AppendRemainder(p2, Flat(b), ybot, prevBand, out, b, q);
      }
    }

    // The body of the loop: the next bands, and then skip those that are done.
    method SweepOne(op: Overlap, appendNon1: bool, appendNon2: bool, p1: Slice, p2: Slice, ybot: Coord, prevBand: nat,
                    ghost out: seq<Band>, ghost a: seq<Band>, ghost b: seq<Band>, ghost q: Operands)
      returns (ok: bool, p1': Slice, p2': Slice, ybot': Coord, prevBand': nat,
               ghost out': seq<Band>, ghost a': seq<Band>, ghost b': seq<Band>, ghost q': Operands)
      requires appendNon1 == Apply(op, true, false) && appendNon2 == Apply(op, false, true)
      requires Growing() && q == Operands(p1, Flat(a), p2, Flat(b)) && ReadsBoth(q) && data.block.rects == Flat(out)
      requires GoodBands(a) && GoodBands(b) && NonEmpty(a) && NonEmpty(b) && p1.start != p1.end && p2.start != p2.end
      requires SweepInv(out, a, b, ybot) && PrevBand(out, prevBand, ybot)
      modifies this, data.block
      ensures !ok ==> Starved()
      ensures ok ==> Grew() && q' == Operands(p1', Flat(a'), p2', Flat(b')) && ReadsBoth(q') && data.block.rects == Flat(out')
      ensures ok ==> GoodBands(a') && GoodBands(b') && NonEmpty(a') && NonEmpty(b')
      ensures ok ==> SweepInv(out', a', b', ybot') && PrevBand(out', prevBand', ybot')
      ensures ok ==> Sweep(op, out', a', b', ybot') == Sweep(op, out, a, b, ybot)
      ensures ok ==> p1'.end - p1'.start + p2'.end - p2'.start < p1.end - p1.start + p2.end - p2.start
    {
      TopOfRects(a);
      TopOfRects(b);
      var r1BandEnd, r2BandEnd;
      ok, r1BandEnd, r2BandEnd, ybot', prevBand' :=
        NextBands(op, appendNon1, appendNon2, p1, p2, ybot, prevBand, out, a, b, q);
      p1', p2', out', a', b', q' := p1, p2, AddStep(op, out, a[0], b[0], ybot), a, b, q;
      if !ok {
        return;
      }
      SweepNext(out', a, b, ybot');
      var done1, done2;
      p1', done1 := SkipBand(p1, r1BandEnd, ybot', q.r1, q);
      p2', done2 := SkipBand(p2, r2BandEnd, ybot', q.r2, q);
      a', b' := if done1 then a[1..] else a, if done2 then b[1..] else b;
      q' := Operands(p1', Flat(a'), p2', Flat(b'));
    }

    // Find the next bands and merge them.
    method NextBands(op: Overlap, appendNon1: bool, appendNon2: bool, p1: Slice, p2: Slice, ybot: Coord, prevBand: nat,
                     ghost out: seq<Band>, ghost a: seq<Band>, ghost b: seq<Band>, ghost q: Operands)
      returns (ok: bool, r1BandEnd: nat, r2BandEnd: nat, ybot': Coord, prevBand': nat)
      requires appendNon1 == Apply(op, true, false) && appendNon2 == Apply(op, false, true)
      requires Growing() && q == Operands(p1, Flat(a), p2, Flat(b)) && ReadsBoth(q) && data.block.rects == Flat(out)
      requires GoodBands(a) && GoodBands(b) && a != [] && b != [] && q.r1 != [] && q.r2 != []
      requires SweepInv(out, a, b, ybot) && PrevBand(out, prevBand, ybot)
      modifies this, data.block
      ensures !ok ==> Starved()
      ensures ybot' == Min(a[0].y2, b[0].y2)
      ensures p1.start < r1BandEnd <= p1.end && Flat(a)[r1BandEnd - p1.start..] == Flat(a[1..])
      ensures p2.start < r2BandEnd <= p2.end && Flat(b)[r2BandEnd - p2.start..] == Flat(b[1..])
      ensures ok ==> var out' := AddStep(op, out, a[0], b[0], ybot);
                     && Grew() && ReadsBoth(q) && data.block.rects == Flat(out')
                     && PrevBand(out', prevBand', ybot') && EndsBy(out', ybot')
    {
      var b1, b2;
      r1BandEnd, b1 := FindBand(p1, q.r1, q);
      r2BandEnd, b2 := FindBand(p2, q.r2, q);
      BandEnd(q.r1, a, r1BandEnd - p1.start);
      BandEnd(q.r2, b, r2BandEnd - p2.start);
      q.Shorter(p1, q.r1, r1BandEnd);
      q.Shorter(p2, q.r2, r2BandEnd);
      ok, ybot', prevBand' := SweepStep(op, appendNon1, appendNon2, p1.(end := r1BandEnd), BandBoxes(a[0]),
                                        p2.(end := r2BandEnd), BandBoxes(b[0]), ybot, prevBand, out, a[0], b[0], q);
    }

    // If the current band has been dealt with down to its bottom, go on behind it.
    method SkipBand(p: Slice, bandEnd: nat, ybot: Coord, ghost r: seq<Box>, ghost q: Operands)
      returns (p': Slice, done: bool)
      requires ReadsBoth(q) && q.Sees(p, r) && Reads(p, r) && r != [] && p.start < bandEnd <= p.end
      ensures done <==> r[0].y2 == ybot
      ensures p' == if done then p.(start := bandEnd) else p
      ensures done ==> Reads(p', r[bandEnd - p.start..])
      ensures !done ==> Reads(p', r)
    {
      p', done := p, false;
      var b := Read(p, 0, r, q);
      if b.y2 == ybot {
        ReadsRest(p, r, bandEnd);
        p', done := p.(start := bandEnd), true;
      }
    }

    lemma {:induction false} ReadsRest(p: Slice, r: seq<Box>, at: nat)
      requires Reads(p, r) && p.start <= at <= p.end
      ensures Reads(p.(start := at), r[at - p.start..])
    {
    }

    // The end: choose the representation.
    method FinishResult()
      requires Growing() && (|data.block.rects| == 1 ==> GoodBox(data.block.rects[0]))
      modifies this`extents, this`data, data.block
      ensures Shaped() && OwnBlock() && Boxes() == old(data.block.rects)
      ensures !data.Single? ==> extents == old(extents)
    {
      var numRects := |data.block.rects|;
      if numRects == 0 {
        FreeData();
        data := EmptyData;
      } else if numRects == 1 {
        extents := data.block.rects[0];
        FreeData();
        data := Single;
      } else {
        DownSize();
      }
    }

    // pixman_op. Any of the three regions may be the same object, except that the
    // two operands differ. Their rectangles are read where they are while the
    // result is written.
    method PixmanOp(reg1: Region, reg2: Region, op: Overlap, appendNon1: bool, appendNon2: bool) returns (ok: bool)
      requires reg1 != reg2 && Apart(reg1) && Apart(reg2)
      requires Valid() && reg1.Valid() && reg2.Valid()
      requires (reg1.Broken() || !reg1.Nil()) && (reg2.Broken() || !reg2.Nil())
      requires appendNon1 == Apply(op, true, false) && appendNon2 == Apply(op, false, true)
      modifies this, Owned()
      ensures OwnBlock()
      ensures old(reg1.Broken() || reg2.Broken()) ==> !ok
      ensures !ok ==> Failed()
      ensures !ok && !old(reg1.Broken() || reg2.Broken()) ==> RanOut()
      ensures ok ==> Shaped() && failures == old(failures)
      ensures ok ==> IsResult(op, Boxes(), old(reg1.Boxes()), old(reg2.Boxes()))
      ensures ok && !data.Single? ==> extents == old(extents)
    {
      if reg1.Broken() || reg2.Broken() {
        ok := Break();
        return;
      }
      ok := OperateOn(reg1, reg2, op, appendNon1, appendNon2);
    }

    // The operands are not broken.
    method OperateOn(reg1: Region, reg2: Region, op: Overlap, appendNon1: bool, appendNon2: bool) returns (ok: bool)
      requires reg1 != reg2 && Apart(reg1) && Apart(reg2)
      requires Valid() && reg1.Valid() && reg2.Valid() && !reg1.Nil() && !reg2.Nil()
      requires appendNon1 == Apply(op, true, false) && appendNon2 == Apply(op, false, true)
      modifies this, Owned()
      ensures OwnBlock() && (!ok ==> Starved())
      ensures ok ==> Shaped() && failures == old(failures)
      ensures ok ==> IsResult(op, Boxes(), old(reg1.Boxes()), old(reg2.Boxes()))
      ensures ok && !data.Single? ==> extents == old(extents)
    {
      ghost var a, b := reg1.Bands(), reg2.Bands();
      var p1 := reg1.Pointers();
      var p2 := reg2.Pointers();
      GoodNonEmpty(a);
      GoodNonEmpty(b);
      SweepResult(op, a, b);
      ok := SweepInto(reg1, reg2, p1, p2, op, appendNon1, appendNon2, a, b);
    }

    // The sweep, and the choice of the representation.
    method SweepInto(reg1: Region, reg2: Region, p1: Slice, p2: Slice, op: Overlap, appendNon1: bool, appendNon2: bool,
                     ghost a: seq<Band>, ghost b: seq<Band>) returns (ok: bool)
      requires data.Rects? ==> data.block.live
      requires Points(reg1, p1, Flat(a)) && Points(reg2, p2, Flat(b))
      requires GoodBands(a) && GoodBands(b) && NonEmpty(a) && NonEmpty(b) && a != [] && b != []
      requires appendNon1 == Apply(op, true, false) && appendNon2 == Apply(op, false, true)
      modifies this, Owned()
      ensures OwnBlock() && (!ok ==> Starved())
      ensures ok ==> Shaped() && failures == old(failures) && IsResult(op, Boxes(), Flat(a), Flat(b))
      ensures ok && !data.Single? ==> extents == old(extents)
    {
      SweepResult(op, a, b);
      ok := BuildResult(reg1, reg2, p1, p2, op, appendNon1, appendNon2, a, b);
      if ok {
        FinishResult();
      }
    }

    // The sweep with the block of an operand put aside, and freed at the end.
    method BuildResult(reg1: Region, reg2: Region, p1: Slice, p2: Slice, op: Overlap, appendNon1: bool, appendNon2: bool,
                       ghost a: seq<Band>, ghost b: seq<Band>) returns (ok: bool)
      requires data.Rects? ==> data.block.live
      requires Points(reg1, p1, Flat(a)) && Points(reg2, p2, Flat(b))
      requires GoodBands(a) && GoodBands(b) && NonEmpty(a) && NonEmpty(b) && a != [] && b != []
      requires appendNon1 == Apply(op, true, false) && appendNon2 == Apply(op, false, true)
      modifies this, Owned()
      ensures OwnBlock() && (!ok ==> Starved())
      ensures ok ==> Growing() && extents == old(extents) && failures == old(failures)
      ensures ok ==> data.block.rects == Flat(Sweep(op, [], a, b, Min(a[0].y1, b[0].y1)))
    {
      TopOfRects(a);
      var oldData;
      ok, oldData := StartResult(reg1, reg2, p1, p2, Operands(p1, Flat(a), p2, Flat(b)));
      if ok {
        ok := SweepRects(op, appendNon1, appendNon2, p1, p2, a, b);
      }
      if oldData != null {
        oldData.Free();
      }
    }

    // pixman_set_extents
    method SetExtents()
      requires Shaped() && Canonical(Boxes())
      modifies this`extents
      ensures Valid() && !Broken() && Boxes() == old(Boxes())
    {
      if data.Single? {
        return;
      }
      if data.EmptyData? {
        extents := extents.(x2 := extents.x1);
        extents := extents.(y2 := extents.y1);
        return;
      }
      var rs := data.block.rects;
      var box, boxEnd := 0, |rs| - 1;
      extents := Box(rs[0].x1, rs[0].y1, rs[boxEnd].x2, rs[boxEnd].y2);
      CanonicalOrder(rs);
      assert extents.y1 < extents.y2;
      ghost var left, right := 0, boxEnd; // where the sides reached so far come from
      while box <= boxEnd
        invariant 0 <= box <= |rs| && data == old(data)
        invariant extents.y1 == rs[0].y1 && extents.y2 == rs[boxEnd].y2
        invariant forall k :: 0 <= k < box ==> extents.x1 <= rs[k].x1 && rs[k].x2 <= extents.x2
        invariant 0 <= left < |rs| && rs[left].x1 == extents.x1
        invariant 0 <= right < |rs| && rs[right].x2 == extents.x2
      {
        if rs[box].x1 < extents.x1 {
          extents := extents.(x1 := rs[box].x1);
          left := box;
        }
        if rs[box].x2 > extents.x2 {
          extents := extents.(x2 := rs[box].x2);
          right := box;
        }
        box := box + 1;
      }
      assert extents.x1 < extents.x2;
      BoundsAreHull(extents, rs);
    }

    // ---------- The operations ----------

    lemma {:induction false} ValidFacts()
      requires Valid()
      ensures Canonical(Boxes())
      ensures !Nil() ==> IsHull(extents, Boxes())
    {
      EmptyCovers();
      if data.Single? {
        SingleCovers(extents);
      }
    }

    // FREE_DATA and an empty block, in the trivial cases
    method MakeEmpty(broken: bool)
      requires data.Rects? ==> data.block.live
      modifies this`extents, this`data, Owned()
      ensures Valid() && data == if broken then BrokenData else EmptyData
    {
      extents := extents.(x2 := extents.x1);
      extents := extents.(y2 := extents.y1);
      FreeData();
      data := if broken then BrokenData else EmptyData;
    }

    method IntersectSingles(reg1: Region, reg2: Region)
      requires reg1.data.Single? && reg2.data.Single? && reg1.Valid() && reg2.Valid()
      requires ExtentCheck(reg1.extents, reg2.extents) && Valid()
      modifies this`extents, this`data, Owned()
      ensures Valid() && data.Single? && IsResult(Intersect, Boxes(), old(reg1.Boxes()), old(reg2.Boxes()))
    {
      ghost var e1, e2 := reg1.extents, reg2.extents;
      extents := extents.(x1 := Max(reg1.extents.x1, reg2.extents.x1));
      extents := extents.(y1 := Max(reg1.extents.y1, reg2.extents.y1));
      extents := extents.(x2 := Min(reg1.extents.x2, reg2.extents.x2));
      extents := extents.(y2 := Min(reg1.extents.y2, reg2.extents.y2));
      FreeData();
      data := Single;
      SingleOperands(e1, e2, extents);
    }

    // pixman_region_intersect
    method IntersectWith(reg1: Region, reg2: Region) returns (ok: bool)
      requires Valid() && reg1.Valid() && reg2.Valid() && Apart(reg1) && Apart(reg2)
      modifies this, Owned()
      ensures Valid() && OwnBlock()
      ensures old(reg1.Broken() || reg2.Broken()) ==> Broken() && !ok
      ensures !ok ==> Broken()
      ensures failures == old(failures) || RanOut()
      ensures RanOut() <==> !ok && !old(reg1.Broken() || reg2.Broken())
      ensures ok ==> !Broken() && IsResult(Intersect, Boxes(), old(reg1.Boxes()), old(reg2.Boxes()))
    {
      reg1.ValidFacts();
      reg2.ValidFacts();
      ghost var e1, e2, a, b := reg1.extents, reg2.extents, reg1.Boxes(), reg2.Boxes();
      if reg1.Nil() || reg2.Nil() || !ExtentCheck(reg1.extents, reg2.extents) {
        ok := RejectIntersect(reg1, reg2);
      } else if reg1.data.Single? && reg2.data.Single? {
        IntersectSingles(reg1, reg2);
        ok := true;
      } else if reg2.data.Single? && Subsumes(reg2.extents, reg1.extents) {
        SubsumedOperand(e2, e1, a);
        ok := Copy(reg1);
      } else if reg1.data.Single? && Subsumes(reg1.extents, reg2.extents) {
        SubsumedOperand(e1, e2, b);
        ok := Copy(reg2);
      } else if reg1 == reg2 {
        SameOperand(a);
        ok := Copy(reg1);
      } else {
        ok := GeneralCase(reg1, reg2, Intersect, false, false);
      }
    }

    // The trivial reject.
    method RejectIntersect(reg1: Region, reg2: Region) returns (ok: bool)
      requires Valid() && reg1.Valid() && reg2.Valid()
      requires reg1.Nil() || reg2.Nil() || !ExtentCheck(reg1.extents, reg2.extents)
      modifies this`extents, this`data, Owned()
      ensures Valid() && OwnBlock()
      ensures ok == !old(reg1.Broken() || reg2.Broken())
      ensures if ok then data == EmptyData && IsResult(Intersect, [], old(reg1.Boxes()), old(reg2.Boxes())) else Broken()
    {
      reg1.ValidFacts();
      reg2.ValidFacts();
      ghost var e1, e2, a, b := reg1.extents, reg2.extents, reg1.Boxes(), reg2.Boxes();
      if reg1.Broken() || reg2.Broken() {
        MakeEmpty(true);
        return false;
      }
      if a == [] {
        EmptyOperand(b);
      } else if b == [] {
        EmptyOperand(a);
      } else {
        ApartOperands(e1, a, e2, b);
      }
      MakeEmpty(false);
      return true;
    }

    // pixman_op and pixman_set_extents, for two distinct operands.
    method GeneralCase(reg1: Region, reg2: Region, op: Overlap, appendNon1: bool, appendNon2: bool) returns (ok: bool)
      requires reg1 != reg2 && Apart(reg1) && Apart(reg2)
      requires Valid() && reg1.Valid() && reg2.Valid()
      requires !reg1.Nil() && !reg2.Nil()
      requires appendNon1 == Apply(op, true, false) && appendNon2 == Apply(op, false, true)
      modifies this, Owned()
      ensures Valid() && OwnBlock()
      ensures !ok ==> Broken() && RanOut()
      ensures ok ==> !Broken() && failures == old(failures)
      ensures ok ==> IsResult(op, Boxes(), old(reg1.Boxes()), old(reg2.Boxes()))
    {
      ok := PixmanOp(reg1, reg2, op, appendNon1, appendNon2);
      if ok {
        SetExtents();
      }
    }

    // pixman_region_union. A broken operand breaks the result, but when it is
    // copied the call still returns true.
    method UnionWith(reg1: Region, reg2: Region) returns (ok: bool)
      requires Valid() && reg1.Valid() && reg2.Valid() && Apart(reg1) && Apart(reg2)
      modifies this, Owned()
      ensures Valid() && OwnBlock()
      ensures old(reg1.Broken() || reg2.Broken()) ==>
                Broken() && (ok <==> reg1 == reg2 || old(reg1.Nil() && !reg1.Broken()))
      ensures !ok ==> Broken()
      ensures failures == old(failures) || RanOut()
      ensures RanOut() <==> !ok && !old(reg1.Broken() || reg2.Broken())
      ensures ok && !old(reg1.Broken() || reg2.Broken()) ==>
                !Broken() && IsResult(Union, Boxes(), old(reg1.Boxes()), old(reg2.Boxes()))
    {
      reg1.ValidFacts();
      reg2.ValidFacts();
      ghost var e1, e2, a, b := reg1.extents, reg2.extents, reg1.Boxes(), reg2.Boxes();
      if reg1 == reg2 {
        SameOperand(a);
        ok := Copy(reg1);
        return;
      }
      if reg1.Nil() {
        if reg1.Broken() {
          ok := Break();
          return;
        }
        EmptyOperand(b);
        if this != reg2 {
          ok := Copy(reg2);
          return;
        }
        return true;
      }
      if reg2.Nil() {
        if reg2.Broken() {
          ok := Break();
          return;
        }
        EmptyOperand(a);
        if this != reg1 {
          ok := Copy(reg1);
          return;
        }
        return true;
      }
      if reg1.data.Single? && Subsumes(reg1.extents, reg2.extents) {
        SubsumedOperand(e1, e2, b);
        if this != reg1 {
          ok := Copy(reg1);
          return;
        }
        return true;
      }
      if reg2.data.Single? && Subsumes(reg2.extents, reg1.extents) {
        SubsumedOperand(e2, e1, a);
        if this != reg2 {
          ok := Copy(reg2);
          return;
        }
        return true;
      }
      ok := UnionSweep(reg1, reg2);
    }

    // The general case of pixman_region_union: sweep, then join the extents.
    method UnionSweep(reg1: Region, reg2: Region) returns (ok: bool)
      requires reg1 != reg2 && Valid() && reg1.Valid() && reg2.Valid() && Apart(reg1) && Apart(reg2)
      requires !reg1.Nil() && !reg2.Nil()
      modifies this, Owned()
      ensures Valid() && OwnBlock()
      ensures !ok ==> Broken() && RanOut()
      ensures ok ==> failures == old(failures)
      ensures ok ==> !Broken() && IsResult(Union, Boxes(), old(reg1.Boxes()), old(reg2.Boxes()))
    {
      reg1.ValidFacts();
      reg2.ValidFacts();
      ghost var e1, e2, a, b := reg1.extents, reg2.extents, reg1.Boxes(), reg2.Boxes();
      assert reg1 !in Owned() && reg2 !in Owned();
      ok := PixmanOp(reg1, reg2, Union, true, true);
      if ok {
        assert reg1 == this || reg1.extents == e1;
        assert reg2 == this || reg2.extents == e2;
        CloseUnion(reg1, reg2, e1, e2, a, b);
      }
    }

    // After the sweep the extents are still those from before, unless the result
    // is a single rectangle.
    method CloseUnion(reg1: Region, reg2: Region, ghost e1: Box, ghost e2: Box, ghost a: seq<Box>, ghost b: seq<Box>)
      requires Shaped() && IsHull(e1, a) && IsHull(e2, b) && IsResult(Union, Boxes(), a, b)
      requires reg1.extents == e1 || (reg1 == this && data.Single?)
      requires reg2.extents == e2 || (reg2 == this && data.Single?)
      modifies this`extents
      ensures Valid() && !Broken() && Boxes() == old(Boxes())
    {
      ghost var r := Boxes();
      UnionExtents(e1, e2, r, a, b);
      JoinExtents(reg1, reg2, e1, e2, r);
    }

    // When this region is an operand, the sweep may already have replaced its
    // extents by the single resulting rectangle; joining them again changes nothing.
    method JoinExtents(reg1: Region, reg2: Region, ghost e1: Box, ghost e2: Box, ghost r: seq<Box>)
      requires Shaped() && Boxes() == r != [] && IsHull(HullOf(e1, e2), r) && GoodBox(HullOf(e1, e2)) && Canonical(r)
      requires data.Single? ==> extents == HullOf(e1, e2)
      requires reg1.extents == e1 || (reg1 == this && extents == HullOf(e1, e2))
      requires reg2.extents == e2 || (reg2 == this && extents == HullOf(e1, e2))
      modifies this`extents
      ensures Valid() && Boxes() == r
    {
      extents := extents.(x1 := Min(reg1.extents.x1, reg2.extents.x1));
      extents := extents.(y1 := Min(reg1.extents.y1, reg2.extents.y1));
      extents := extents.(x2 := Max(reg1.extents.x2, reg2.extents.x2));
      extents := extents.(y2 := Max(reg1.extents.y2, reg2.extents.y2));
    }

    // pixman_region_subtract
    method SubtractFrom(regM: Region, regS: Region) returns (ok: bool)
      requires Valid() && regM.Valid() && regS.Valid() && Apart(regM) && Apart(regS)
      modifies this, Owned()
      ensures Valid() && OwnBlock()
      ensures old(regM.Broken() || regS.Broken()) ==> Broken() && (ok <==> !old(regS.Broken()))
      ensures !ok ==> Broken()
      ensures failures == old(failures) || RanOut()
      ensures RanOut() <==> !ok && !old(regM.Broken() || regS.Broken())
      ensures ok && !old(regM.Broken() || regS.Broken()) ==>
                !Broken() && IsResult(Subtract, Boxes(), old(regM.Boxes()), old(regS.Boxes()))
    {
      regM.ValidFacts();
      if regM.Nil() || regS.Nil() || !ExtentCheck(regM.extents, regS.extents) {
        ok := RejectSubtract(regM, regS);
        return;
      } else if regM == regS {
        SameOperand(regM.Boxes());
        MakeEmpty(false);
        return true;
      }
      ok := GeneralCase(regM, regS, Subtract, true, false);
    }

    // The trivial rejects.
    method RejectSubtract(regM: Region, regS: Region) returns (ok: bool)
      requires Valid() && regM.Valid() && regS.Valid() && Apart(regM)
      requires regM.Nil() || regS.Nil() || !ExtentCheck(regM.extents, regS.extents)
      modifies this, Owned()
      ensures Valid() && OwnBlock()
      ensures old(regM.Broken() || regS.Broken()) ==> Broken() && (ok <==> !old(regS.Broken()))
      ensures !ok ==> Broken()
      ensures failures == old(failures) || RanOut()
      ensures RanOut() <==> !ok && !old(regM.Broken() || regS.Broken())
      ensures ok && !old(regM.Broken() || regS.Broken()) ==>
                !Broken() && IsResult(Subtract, Boxes(), old(regM.Boxes()), old(regS.Boxes()))
    {
      if regS.Broken() {
        ok := Break();
        return;
      }
      regM.ValidFacts();
      regS.ValidFacts();
      ghost var a, b := regM.Boxes(), regS.Boxes();
      if a == [] {
        EmptyOperand(b);
      } else if b == [] {
        EmptyOperand(a);
      } else {
        ApartOperands(regM.extents, a, regS.extents, b);
      }
      ok := Copy(regM);
    }
  }
}
