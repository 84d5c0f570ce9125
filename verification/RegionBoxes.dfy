// Facts about the rectangle arrays of regions (common/pixman-region.c) that the
// operations rely on: bounding boxes, fast paths, and the bands in an array.
module RegionBoxes {
  import opened RegionSpans
  import opened RegionBands
  import opened RegionSweep

  // Conversion to the 16-bit coordinate type keeps the low bits.
  function ToCoord(v: int): Coord { (v + 0x8000) % 0x10000 - 0x8000 }

  function StoredBox(x: int, y: int, width: nat, height: nat): Box {
    Box(ToCoord(x), ToCoord(y), ToCoord(x + width), ToCoord(y + height))
  }

  const EMPTY_BOX: Box := Box(0, 0, 0, 0)

  // EXTENTCHECK: the two boxes overlap.
  predicate ExtentCheck(r1: Box, r2: Box) {
    !(r1.x2 <= r2.x1 || r1.x1 >= r2.x2 || r1.y2 <= r2.y1 || r1.y1 >= r2.y2)
  }

  // SUBSUMES: r1 contains r2.
  predicate Subsumes(r1: Box, r2: Box) {
    r1.x1 <= r2.x1 && r1.x2 >= r2.x2 && r1.y1 <= r2.y1 && r1.y2 >= r2.y2
  }

  ghost predicate TouchesColumn(rs: seq<Box>, x: int) {
    exists y :: Covers(rs, x, y)
  }

  ghost predicate TouchesRow(rs: seq<Box>, y: int) {
    exists x :: Covers(rs, x, y)
  }

  // e is the smallest box that contains every covered point.
  ghost predicate IsHull(e: Box, rs: seq<Box>) {
    && (forall x, y :: Covers(rs, x, y) ==> InBox(e, x, y))
    && TouchesColumn(rs, e.x1) && TouchesColumn(rs, e.x2 - 1)
    && TouchesRow(rs, e.y1) && TouchesRow(rs, e.y2 - 1)
  }

  // r is the canonical form of the operation applied to the point sets of a and b.
  ghost predicate IsResult(op: Overlap, r: seq<Box>, a: seq<Box>, b: seq<Box>) {
    && Canonical(r)
    && forall x, y :: Covers(r, x, y) <==> Apply(op, Covers(a, x, y), Covers(b, x, y))
  }

  function SpanOf(b: Box): Span { Span(b.x1, b.x2) }

  function SpansOf(rs: seq<Box>): (ss: seq<Span>)
    ensures |ss| == |rs|
    ensures forall i :: 0 <= i < |rs| ==> ss[i] == SpanOf(rs[i])
  {
    seq(|rs|, i requires 0 <= i < |rs| => SpanOf(rs[i]))
  }

  // `start` is where the last band of the output begins; or it is the end of
  // the output, and then the last band does not reach row y.
  ghost predicate PrevBand(out: seq<Band>, start: nat, y: int) {
    || (out != [] && start == |Flat(out[..|out| - 1])|)
    || (start == |Flat(out)| && (out != [] ==> out[|out| - 1].y2 < y))
  }

  lemma {:induction false} BandBoxesSnoc(y1: Coord, y2: Coord, ss: seq<Span>, s: Span)
    ensures BandBoxes(Band(y1, y2, ss + [s])) == BandBoxes(Band(y1, y2, ss)) + [SpanBox(s, y1, y2)]
  {
  }

  // One rectangle more of a band has been copied behind `base`.
  lemma {:induction false} CopyNext(r: seq<Box>, y1: Coord, y2: Coord, i: nat, base: seq<Box>)
    requires i < |r|
    ensures var out := BandBoxes(Band(y1, y2, SpansOf(r)));
            (base + out[..i]) + [Box(r[i].x1, y1, r[i].x2, y2)] == base + out[..i + 1]
  {
    var out := BandBoxes(Band(y1, y2, SpansOf(r)));
    assert out[..i + 1] == out[..i] + [out[i]];
  }

  lemma {:induction false} SingleCovers(b: Box)
    requires GoodBox(b)
    ensures Canonical([b]) && IsHull(b, [b])
    ensures forall x, y :: Covers([b], x, y) <==> InBox(b, x, y)
  {
    var band := Band(b.y1, b.y2, [Span(b.x1, b.x2)]);
    assert Flat([band]) == [b];
    assert band.spans[1..] == [] && [band][1..] == [];
    assert GoodSpans(band.spans);
    assert GoodBand([band][0]);
    assert GoodBands([band]);
    forall x, y ensures Covers([b], x, y) <==> InBox(b, x, y) {
      assert [b][0] == b;
    }
    assert Covers([b], b.x1, b.y1) && Covers([b], b.x2 - 1, b.y2 - 1);
  }

  ghost function WitnessBands(rs: seq<Box>): (bs: seq<Band>)
    requires Canonical(rs)
    ensures GoodBands(bs) && Flat(bs) == rs
  {
    var bs :| GoodBands(bs) && Flat(bs) == rs;
    bs
  }

  lemma {:induction false} EmptyCovers()
    ensures Canonical([])
    ensures forall x, y :: !Covers([], x, y)
  {
    assert GoodBands([]) && Flat([]) == [];
  }

  lemma {:induction false} TopOfRects(bs: seq<Band>)
    requires GoodBands(bs)
    ensures bs != [] <==> Flat(bs) != []
    ensures bs != [] ==> Flat(bs)[0].y1 == bs[0].y1
  {
    if bs != [] {
      assert Flat(bs)[0] == BandBoxes(bs[0])[0];
    }
  }

  // The invariant of the sweep holds again after an iteration.
  lemma {:induction false} SweepNext(out: seq<Band>, a: seq<Band>, b: seq<Band>, ybot: Coord)
    requires GoodBands(a) && GoodBands(b) && a != [] && b != []
    requires ybot == Min(a[0].y2, b[0].y2) && EndsBy(out, ybot)
    ensures SweepInv(out, if a[0].y2 == ybot then a[1..] else a, if b[0].y2 == ybot then b[1..] else b, ybot)
    ensures GoodBands(a[1..]) && GoodBands(b[1..])
    ensures NonEmpty(a) && NonEmpty(b) && NonEmpty(a[1..]) && NonEmpty(b[1..])
  {
    GoodNonEmpty(a);
    GoodNonEmpty(b);
  }

  // The whole sweep computes the canonical form of the operation.
  lemma {:induction false} SweepResult(op: Overlap, a: seq<Band>, b: seq<Band>)
    requires GoodBands(a) && GoodBands(b) && NonEmpty(a) && NonEmpty(b) && a != [] && b != []
    ensures var rs := Flat(Sweep(op, [], a, b, Min(a[0].y1, b[0].y1)));
            && IsResult(op, rs, Flat(a), Flat(b))
            && (|rs| == 1 ==> GoodBox(rs[0]))
  {
    var y0 := Min(a[0].y1, b[0].y1);
    var result := Sweep(op, [], a, b, y0);
    var rs := Flat(result);
    SweepCorrect(op, [], a, b, y0, 0, 0);
    forall x, y ensures Covers(rs, x, y) <==> Apply(op, Covers(Flat(a), x, y), Covers(Flat(b), x, y)) {
      SweepCorrect(op, [], a, b, y0, x, y);
      FlatCovers(result, x, y);
      FlatCovers(a, x, y);
      FlatCovers(b, x, y);
      HeadBand(a, x, y);
      HeadBand(b, x, y);
    }
    if |rs| == 1 {
      assert rs[0] == BandBoxes(result[0])[0];
    }
  }

  // ---------- Extents ----------

  lemma {:induction false} FlatOrder(bs: seq<Band>, k: nat)
    requires GoodBands(bs) && k < |Flat(bs)|
    ensures bs != [] && GoodBox(Flat(bs)[k])
    ensures bs[0].y1 <= Flat(bs)[k].y1 && Flat(bs)[k].y2 <= bs[|bs| - 1].y2
    ensures Flat(bs)[0].y1 == bs[0].y1 && Flat(bs)[|Flat(bs)| - 1].y2 == bs[|bs| - 1].y2
    decreases |bs|
  {
    var n := |bs[0].spans|;
    var rest := Flat(bs[1..]);
    GoodSpansEach(bs[0].spans);
    if |bs| > 1 {
      TopOfRects(bs[1..]);
      FlatOrder(bs[1..], if k < n then 0 else k - n);
      assert Flat(bs)[|Flat(bs)| - 1] == rest[|rest| - 1];
      assert bs[1..][|bs| - 2] == bs[|bs| - 1];
    }
  }

  lemma {:induction false} GoodSpansEach(ss: seq<Span>)
    requires GoodSpans(ss)
    ensures forall i :: 0 <= i < |ss| ==> ss[i].x1 < ss[i].x2
    decreases |ss|
  {
    if ss != [] {
      GoodSpansEach(ss[1..]);
      assert forall i :: 0 < i < |ss| ==> ss[i] == ss[1..][i - 1];
    }
  }

  // The first rectangle of a region has its top, and the last one its bottom.
  lemma {:induction false} CanonicalOrder(rs: seq<Box>)
    requires Canonical(rs)
    ensures forall k :: 0 <= k < |rs| ==> GoodBox(rs[k]) && rs[0].y1 <= rs[k].y1 && rs[k].y2 <= rs[|rs| - 1].y2
  {
    var bs := WitnessBands(rs);
    forall k | 0 <= k < |rs| ensures GoodBox(rs[k]) && rs[0].y1 <= rs[k].y1 && rs[k].y2 <= rs[|rs| - 1].y2 {
      FlatOrder(bs, k);
    }
  }

  // A box that bounds every rectangle and touches one on each side is the hull.
  lemma {:induction false} BoundsAreHull(e: Box, rs: seq<Box>)
    requires rs != [] && forall k :: 0 <= k < |rs| ==> GoodBox(rs[k]) && Subsumes(e, rs[k])
    requires rs[0].y1 == e.y1 && rs[|rs| - 1].y2 == e.y2
    requires exists k :: 0 <= k < |rs| && rs[k].x1 == e.x1
    requires exists k :: 0 <= k < |rs| && rs[k].x2 == e.x2
    ensures IsHull(e, rs)
  {
    var k1 :| 0 <= k1 < |rs| && rs[k1].x1 == e.x1;
    var k2 :| 0 <= k2 < |rs| && rs[k2].x2 == e.x2;
    assert InBox(rs[k1], e.x1, rs[k1].y1) && Covers(rs, e.x1, rs[k1].y1);
    assert InBox(rs[k2], e.x2 - 1, rs[k2].y1) && Covers(rs, e.x2 - 1, rs[k2].y1);
    assert InBox(rs[0], rs[0].x1, e.y1) && Covers(rs, rs[0].x1, e.y1);
    assert InBox(rs[|rs| - 1], rs[|rs| - 1].x1, e.y2 - 1) && Covers(rs, rs[|rs| - 1].x1, e.y2 - 1);
  }

  function HullOf(e1: Box, e2: Box): Box {
    Box(Min(e1.x1, e2.x1), Min(e1.y1, e2.y1), Max(e1.x2, e2.x2), Max(e1.y2, e2.y2))
  }

  lemma {:induction false} UnionInside(e1: Box, e2: Box, r: seq<Box>, a: seq<Box>, b: seq<Box>)
    requires IsHull(e1, a) && IsHull(e2, b)
    requires forall x, y :: Covers(r, x, y) <==> Covers(a, x, y) || Covers(b, x, y)
    ensures forall x, y :: Covers(r, x, y) ==> InBox(HullOf(e1, e2), x, y)
  {
    forall x, y | Covers(r, x, y) ensures InBox(HullOf(e1, e2), x, y) {
      assert InBox(e1, x, y) || InBox(e2, x, y);
    }
  }

  lemma {:induction false} UnionHull(e1: Box, e2: Box, r: seq<Box>, a: seq<Box>, b: seq<Box>)
    requires IsHull(e1, a) && IsHull(e2, b)
    requires forall x, y :: Covers(r, x, y) <==> Covers(a, x, y) || Covers(b, x, y)
    ensures IsHull(HullOf(e1, e2), r)
  {
    UnionInside(e1, e2, r, a, b);
    UnionColumns(e1, e2, r, a, b);
    UnionRows(e1, e2, r, a, b);
  }

  lemma {:induction false} UnionColumns(e1: Box, e2: Box, r: seq<Box>, a: seq<Box>, b: seq<Box>)
    requires IsHull(e1, a) && IsHull(e2, b)
    requires forall x, y :: Covers(r, x, y) <==> Covers(a, x, y) || Covers(b, x, y)
    ensures TouchesColumn(r, HullOf(e1, e2).x1) && TouchesColumn(r, HullOf(e1, e2).x2 - 1)
  {
    UnionTouchesColumn(r, a, b, e1.x1, e2.x1, HullOf(e1, e2).x1);
    UnionTouchesColumn(r, a, b, e1.x2 - 1, e2.x2 - 1, HullOf(e1, e2).x2 - 1);
  }

  lemma {:induction false} UnionRows(e1: Box, e2: Box, r: seq<Box>, a: seq<Box>, b: seq<Box>)
    requires IsHull(e1, a) && IsHull(e2, b)
    requires forall x, y :: Covers(r, x, y) <==> Covers(a, x, y) || Covers(b, x, y)
    ensures TouchesRow(r, HullOf(e1, e2).y1) && TouchesRow(r, HullOf(e1, e2).y2 - 1)
  {
    UnionTouchesRow(r, a, b, e1.y1, e2.y1, HullOf(e1, e2).y1);
    UnionTouchesRow(r, a, b, e1.y2 - 1, e2.y2 - 1, HullOf(e1, e2).y2 - 1);
  }

  lemma {:induction false} UnionTouchesColumn(r: seq<Box>, a: seq<Box>, b: seq<Box>, x1: int, x2: int, x: int)
    requires forall x, y :: Covers(r, x, y) <==> Covers(a, x, y) || Covers(b, x, y)
    requires TouchesColumn(a, x1) && TouchesColumn(b, x2) && (x == x1 || x == x2)
    ensures TouchesColumn(r, x)
  {
    var y1 :| Covers(a, x1, y1);
    var y2 :| Covers(b, x2, y2);
    assert Covers(r, x1, y1) && Covers(r, x2, y2);
  }

  lemma {:induction false} UnionTouchesRow(r: seq<Box>, a: seq<Box>, b: seq<Box>, y1: int, y2: int, y: int)
    requires forall x, y :: Covers(r, x, y) <==> Covers(a, x, y) || Covers(b, x, y)
    requires TouchesRow(a, y1) && TouchesRow(b, y2) && (y == y1 || y == y2)
    ensures TouchesRow(r, y)
  {
    var x1 :| Covers(a, x1, y1);
    var x2 :| Covers(b, x2, y2);
    assert Covers(r, x1, y1) && Covers(r, x2, y2);
  }

  lemma {:induction false} HullNonEmpty(e: Box, rs: seq<Box>)
    requires IsHull(e, rs)
    ensures rs != []
  {
    var y :| Covers(rs, e.x1, y);
  }

  // The smallest box around a non-empty set of points is unique.
  lemma {:induction false} HullUnique(e: Box, e': Box, rs: seq<Box>)
    requires IsHull(e, rs) && IsHull(e', rs)
    ensures e == e'
  {
    HullInside(e, e', rs);
    HullInside(e', e, rs);
  }

  lemma {:induction false} HullInside(e: Box, e': Box, rs: seq<Box>)
    requires IsHull(e, rs) && IsHull(e', rs)
    ensures Subsumes(e', e)
  {
    var y1 :| Covers(rs, e.x1, y1);
    var y2 :| Covers(rs, e.x2 - 1, y2);
    var x1 :| Covers(rs, x1, e.y1);
    var x2 :| Covers(rs, x2, e.y2 - 1);
    assert InBox(e', e.x1, y1) && InBox(e', e.x2 - 1, y2) && InBox(e', x1, e.y1) && InBox(e', x2, e.y2 - 1);
  }

  // The extents that a union is given are those of its rectangles.
  lemma {:induction false} UnionExtents(e1: Box, e2: Box, r: seq<Box>, a: seq<Box>, b: seq<Box>)
    requires IsHull(e1, a) && IsHull(e2, b) && IsResult(Union, r, a, b)
    ensures IsHull(HullOf(e1, e2), r) && GoodBox(HullOf(e1, e2)) && r != []
    ensures forall e :: GoodBox(e) && r == [e] ==> e == HullOf(e1, e2)
  {
    UnionHull(e1, e2, r, a, b);
    HullNonEmpty(HullOf(e1, e2), r);
    forall e | GoodBox(e) && r == [e]
      ensures e == HullOf(e1, e2)
    {
      SingleCovers(e);
      HullUnique(e, HullOf(e1, e2), r);
    }
  }

  // ---------- The fast paths ----------

  // An empty operand.
  lemma {:induction false} EmptyOperand(a: seq<Box>)
    requires Canonical(a)
    ensures IsResult(Union, a, a, []) && IsResult(Union, a, [], a)
    ensures IsResult(Intersect, [], a, []) && IsResult(Intersect, [], [], a)
    ensures IsResult(Subtract, a, a, []) && IsResult(Subtract, [], [], a)
  {
    EmptyCovers();
  }

  // Twice the same operand.
  lemma {:induction false} SameOperand(a: seq<Box>)
    requires Canonical(a)
    ensures IsResult(Union, a, a, a) && IsResult(Intersect, a, a, a) && IsResult(Subtract, [], a, a)
  {
    EmptyCovers();
  }

  // Extents that do not overlap.
  lemma {:induction false} ApartOperands(e1: Box, a: seq<Box>, e2: Box, b: seq<Box>)
    requires Canonical(a) && IsHull(e1, a) && IsHull(e2, b) && !ExtentCheck(e1, e2)
    ensures IsResult(Intersect, [], a, b) && IsResult(Subtract, a, a, b)
  {
    EmptyCovers();
    forall x, y | Covers(a, x, y) ensures !Covers(b, x, y) {
      assert InBox(e1, x, y);
    }
  }

  // A single rectangle that contains the other operand's extents.
  lemma {:induction false} SubsumedOperand(e: Box, eb: Box, b: seq<Box>)
    requires GoodBox(e) && Canonical(b) && IsHull(eb, b) && Subsumes(e, eb)
    ensures IsResult(Union, [e], [e], b) && IsResult(Union, [e], b, [e])
    ensures IsResult(Intersect, b, [e], b) && IsResult(Intersect, b, b, [e])
  {
    SingleCovers(e);
    forall x, y | Covers(b, x, y) ensures Covers([e], x, y) {
      assert InBox(eb, x, y);
    }
  }

  // Two single rectangles that overlap.
  lemma {:induction false} SingleOperands(e1: Box, e2: Box, e: Box)
    requires GoodBox(e1) && GoodBox(e2) && ExtentCheck(e1, e2)
    requires e == Box(Max(e1.x1, e2.x1), Max(e1.y1, e2.y1), Min(e1.x2, e2.x2), Min(e1.y2, e2.y2))
    ensures GoodBox(e) && IsResult(Intersect, [e], [e1], [e2])
  {
    SingleCovers(e1);
    SingleCovers(e2);
    SingleCovers(e);
  }

  // The first n rectangles are all that have the top of the first one, before any other.
  ghost predicate SameTop(r: seq<Box>, n: nat) {
    && 0 < n <= |r| && (forall i :: 0 <= i < n ==> r[i].y1 == r[0].y1)
    && (n < |r| ==> r[n].y1 != r[0].y1)
  }

  // They are the first band.
  lemma {:induction false} BandEnd(r: seq<Box>, bs: seq<Band>, n: nat)
    requires r != [] && r == Flat(bs) && GoodBands(bs) && SameTop(r, n)
    ensures r[0].y1 == bs[0].y1 && r[0].y2 == bs[0].y2
    ensures r[..n] == BandBoxes(bs[0]) && r[n..] == Flat(bs[1..])
  {
    var m := |bs[0].spans|;
    assert forall i :: 0 <= i < m ==> r[i] == BandBoxes(bs[0])[i];
    TopOfRects(bs[1..]);
    assert m < |r| ==> r[m] == Flat(bs[1..])[0];
    assert m == n;
  }

  lemma {:induction false} SubRange(rects: seq<Box>, start: nat, end: nat, stop: nat, at: nat)
    requires start <= at <= stop <= end <= |rects|
    ensures rects[at..stop] == rects[start..end][..stop - start][at - start..]
  {
    assert rects[start..end][..stop - start] == rects[start..stop];
    assert rects[start..stop][at - start..] == rects[at..stop];
  }

  lemma {:induction false} SpansOfBand(b: Band)
    ensures SpansOf(BandBoxes(b)) == b.spans
  {
  }

  // The last band ends the array.
  lemma {:induction false} LastBand(out: seq<Band>)
    ensures out != [] ==> Flat(out) == Flat(out[..|out| - 1]) + BandBoxes(out[|out| - 1])
  {
    if out != [] {
      FlatSnoc(out[..|out| - 1], out[|out| - 1]);
      assert out == out[..|out| - 1] + [out[|out| - 1]];
    }
  }

  // A band that is not merged starts where the output ended.
  lemma {:induction false} AppendUnmerged(out: seq<Band>, band: Band)
    requires EndsBy(out, band.y1) && band.y1 < band.y2
    requires AddBand(out, band) == if band.spans == [] then out else out + [band]
    ensures Flat(AddBand(out, band)) == Flat(out) + BandBoxes(band)
    ensures PrevBand(AddBand(out, band), |Flat(out)|, band.y2)
  {
    FlatSnoc(out, band);
    assert (out + [band])[..|out|] == out;
  }

  lemma {:induction false} CoalesceMerges(out: seq<Band>, band: Band, prev: nat)
    requires EndsBy(out, band.y1) && band.y1 < band.y2 && PrevBand(out, prev, band.y1)
    requires |Flat(out)| - prev == |band.spans|
    ensures var rs, cur := Flat(out) + BandBoxes(band), |Flat(out)|;
            var merged := SamePlaces(rs, prev, cur);
            && PrevBand(AddBand(out, band), if merged then prev else cur, band.y2)
            && Flat(AddBand(out, band)) == if merged then rs[..prev] + Lowered(rs[prev..cur], rs[cur].y2) else rs
  {
    var rs, cur, n := Flat(out) + BandBoxes(band), |Flat(out)|, |out| - 1;
    LastBand(out);
    if band.spans == [] {
      AppendUnmerged(out, band);
    } else {
      var last := out[n];
      assert rs[prev..cur] == BandBoxes(last) && rs[cur..] == BandBoxes(band);
      SpansOfBand(last);
      SpansOfBand(band);
      if SamePlaces(rs, prev, cur) {
        var merged := Band(last.y1, band.y2, band.spans);
        assert AddBand(out, band) == out[..n] + [merged];
        FlatSnoc(out[..n], merged);
        assert (out[..n] + [merged])[..n] == out[..n];
        assert rs[..prev] == Flat(out[..n]);
        assert Lowered(rs[prev..cur], band.y2) == BandBoxes(merged);
      } else {
        AppendUnmerged(out, band);
      }
    }
  }

  ghost predicate SamePlaces(rs: seq<Box>, prevStart: nat, curStart: nat)
    requires prevStart <= curStart && curStart - prevStart == |rs| - curStart
  {
    && prevStart < curStart
    && rs[prevStart].y2 == rs[curStart].y1
    && SpansOf(rs[prevStart..curStart]) == SpansOf(rs[curStart..])
  }

  function Lowered(rs: seq<Box>, y2: Coord): seq<Box> {
    seq(|rs|, i requires 0 <= i < |rs| => rs[i].(y2 := y2))
  }
}
