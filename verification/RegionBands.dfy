// Vertical structure of a region: the y-x banded list of rectangles, the band
// list it flattens, and uniqueness of the canonical form.
module RegionBands {
  import opened RegionSpans

  datatype Box = Box(x1: Coord, y1: Coord, x2: Coord, y2: Coord)

  predicate GoodBox(b: Box) {
    b.x1 < b.x2 && b.y1 < b.y2
  }

  predicate InBox(b: Box, x: int, y: int) {
    b.x1 <= x < b.x2 && b.y1 <= y < b.y2
  }

  // The set of points covered by an array of rectangles.
  predicate Covers(rs: seq<Box>, x: int, y: int) {
    exists i :: 0 <= i < |rs| && InBox(rs[i], x, y)
  }

  // Bands are implicit in the source: a maximal run of rectangles with the same y1.
  datatype Band = Band(y1: Coord, y2: Coord, spans: seq<Span>)

  function SpanBox(s: Span, y1: Coord, y2: Coord): Box {
    Box(s.x1, y1, s.x2, y2)
  }

  function BandBoxes(b: Band): (rs: seq<Box>)
    ensures |rs| == |b.spans|
    ensures forall i :: 0 <= i < |rs| ==> rs[i] == SpanBox(b.spans[i], b.y1, b.y2)
  {
    seq(|b.spans|, i requires 0 <= i < |b.spans| => SpanBox(b.spans[i], b.y1, b.y2))
  }

  // The rectangle array of a list of bands, top band first.
  function Flat(bs: seq<Band>): seq<Box> {
    if bs == [] then [] else BandBoxes(bs[0]) + Flat(bs[1..])
  }

  // A band has some height and at least one rectangle, and its rectangles do not touch.
  predicate GoodBand(b: Band) {
    b.y1 < b.y2 && b.spans != [] && GoodSpans(b.spans)
  }

  // The next band lies below, and if it touches this one then its rectangles are
  // in different places (otherwise the two would have been merged).
  predicate Follows(b: Band, c: Band) {
    b.y2 <= c.y1 && (b.y2 == c.y1 ==> b.spans != c.spans)
  }

  // The documented form of a region.
  predicate GoodBands(bs: seq<Band>) {
    bs == [] ||
    (&& GoodBand(bs[0])
     && (|bs| > 1 ==> Follows(bs[0], bs[1]))
     && GoodBands(bs[1..]))
  }

  ghost predicate Canonical(rs: seq<Box>) {
    exists bs :: GoodBands(bs) && Flat(bs) == rs
  }

  predicate InBand(b: Band, x: int, y: int) {
    b.y1 <= y < b.y2 && InSpans(b.spans, x)
  }

  // The points of a list of bands.
  predicate InBands(bs: seq<Band>, x: int, y: int) {
    bs != [] && (InBand(bs[0], x, y) || InBands(bs[1..], x, y))
  }

  // ---------- Flattening ----------

  lemma {:induction false} CoversConcat(a: seq<Box>, b: seq<Box>, x: int, y: int)
    ensures Covers(a + b, x, y) <==> Covers(a, x, y) || Covers(b, x, y)
  {
    var c := a + b;
    if Covers(a, x, y) {
      var i :| 0 <= i < |a| && InBox(a[i], x, y);
      assert c[i] == a[i];
    }
    if Covers(b, x, y) {
      var i :| 0 <= i < |b| && InBox(b[i], x, y);
      assert c[|a| + i] == b[i];
    }
  }

  lemma {:induction false} BandCovers(b: Band, x: int, y: int)
    ensures Covers(BandBoxes(b), x, y) <==> InBand(b, x, y)
  {
    var rs := BandBoxes(b);
    if InBand(b, x, y) {
      var i :| 0 <= i < |b.spans| && InSpan(b.spans[i], x);
      assert InBox(rs[i], x, y);
    }
    if Covers(rs, x, y) {
      var i :| 0 <= i < |rs| && InBox(rs[i], x, y);
      assert InSpan(b.spans[i], x);
    }
  }

  // The rectangles of a band list cover its points.
  lemma {:induction false} FlatCovers(bs: seq<Band>, x: int, y: int)
    ensures Covers(Flat(bs), x, y) <==> InBands(bs, x, y)
    decreases |bs|
  {
    if bs != [] {
      FlatCovers(bs[1..], x, y);
      CoversConcat(BandBoxes(bs[0]), Flat(bs[1..]), x, y);
      BandCovers(bs[0], x, y);
    }
  }

  lemma {:induction false} FlatConcat(a: seq<Band>, b: seq<Band>)
    ensures Flat(a + b) == Flat(a) + Flat(b)
    decreases |a|
  {
    if a == [] {
      assert a + b == b;
    } else {
      FlatConcat(a[1..], b);
      assert (a + b)[1..] == a[1..] + b;
    }
  }

  lemma {:induction false} FlatSnoc(bs: seq<Band>, b: Band)
    ensures Flat(bs + [b]) == Flat(bs) + BandBoxes(b)
  {
    FlatConcat(bs, [b]);
    assert Flat([b]) == BandBoxes(b);
  }

  // ---------- Points of a list of bands ----------

  // Everything in a good list is at or below its top; the rest is below the first band.
  lemma {:induction false} HeadBand(bs: seq<Band>, x: int, y: int)
    requires bs != [] && GoodBands(bs)
    ensures InBands(bs, x, y) ==> bs[0].y1 <= y
    ensures InBands(bs[1..], x, y) ==> bs[0].y2 <= y
    decreases |bs|
  {
    if |bs| > 1 {
      HeadBand(bs[1..], x, y);
    } else {
      assert !InBands(bs[1..], x, y);
    }
  }

  lemma {:induction false} InBandsConcat(a: seq<Band>, b: seq<Band>, x: int, y: int)
    ensures InBands(a + b, x, y) <==> InBands(a, x, y) || InBands(b, x, y)
    decreases |a|
  {
    if a == [] {
      assert a + b == b;
    } else {
      InBandsConcat(a[1..], b, x, y);
      assert (a + b)[1..] == a[1..] + b;
    }
  }

  lemma {:induction false} GoodBandsConcat(a: seq<Band>, b: seq<Band>)
    requires GoodBands(a) && GoodBands(b)
    requires a != [] && b != [] ==> Follows(a[|a| - 1], b[0])
    ensures GoodBands(a + b)
    decreases |a|
  {
    if a == [] {
      assert a + b == b;
    } else {
      GoodBandsConcat(a[1..], b);
      assert (a + b)[1..] == a[1..] + b;
    }
  }

  lemma {:induction false} GoodBandsPrefix(bs: seq<Band>, n: nat)
    requires GoodBands(bs) && n <= |bs|
    ensures GoodBands(bs[..n])
    ensures 0 < n < |bs| ==> Follows(bs[n - 1], bs[n])
    ensures n < |bs| ==> GoodBand(bs[n])
    decreases n
  {
    if n > 0 {
      GoodBandsPrefix(bs[1..], n - 1);
      assert bs[..n][1..] == bs[1..][..n - 1];
    }
  }

  // ---------- Uniqueness of the canonical form ----------

  lemma {:induction false} TopCovered(bs: seq<Band>)
    requires bs != [] && GoodBands(bs)
    ensures InBands(bs, bs[0].spans[0].x1, bs[0].y1)
    ensures forall x, y :: InBands(bs, x, y) ==> bs[0].y1 <= y
  {
    FirstSpan(bs[0].spans);
    forall x, y | InBands(bs, x, y) ensures bs[0].y1 <= y {
      HeadBand(bs, x, y);
    }
  }

  // The rows of the first band hold exactly its spans.
  lemma {:induction false} FirstRows(bs: seq<Band>, y: int)
    requires bs != [] && GoodBands(bs) && bs[0].y1 <= y < bs[0].y2
    ensures forall x :: InBands(bs, x, y) <==> InSpans(bs[0].spans, x)
  {
    forall x ensures InBands(bs, x, y) <==> InSpans(bs[0].spans, x) {
      HeadBand(bs, x, y);
    }
  }

  // With equal tops, the first band of one list cannot end before the other's.
  lemma {:induction false} TopBandLasts(a: seq<Band>, b: seq<Band>)
    requires a != [] && b != [] && GoodBands(a) && GoodBands(b)
    requires a[0].y1 == b[0].y1
    requires forall x, y :: InBands(a, x, y) <==> InBands(b, x, y)
    ensures a[0].spans == b[0].spans && b[0].y2 <= a[0].y2
  {
    FirstRows(a, a[0].y1);
    FirstRows(b, a[0].y1);
    forall x ensures InSpans(a[0].spans, x) <==> InSpans(b[0].spans, x) {
      assert InBands(a, x, a[0].y1) <==> InBands(b, x, a[0].y1);
    }
    SpansUnique(a[0].spans, b[0].spans);
    if a[0].y2 < b[0].y2 {
      NextRowRepeats(a, b);
    }
  }

  // If a list covers the same spans again in the row below its first band, then
  // its second band touches the first and repeats it.
  lemma {:induction false} NextRowRepeats(a: seq<Band>, b: seq<Band>)
    requires a != [] && b != [] && GoodBand(a[0]) && GoodBands(a[1..]) && GoodBands(b)
    requires |a| > 1 ==> a[0].y2 <= a[1].y1
    requires b[0].y1 <= a[0].y2 < b[0].y2 && a[0].spans == b[0].spans
    requires forall x, y :: InBands(a, x, y) <==> InBands(b, x, y)
    ensures |a| > 1 && a[1].y1 == a[0].y2 && a[1].spans == a[0].spans
  {
    var y, ss := a[0].y2, b[0].spans;
    FirstSpan(ss);
    FirstRows(b, y);
    assert InBands(b, ss[0].x1, y);
    assert InBands(a, ss[0].x1, y);
    assert InBands(a[1..], ss[0].x1, y);
    HeadBand(a[1..], ss[0].x1, y);
    FirstRows(a[1..], y);
    forall x ensures InSpans(a[1].spans, x) <==> InSpans(ss, x) {
      assert InBands(a, x, y) <==> InBands(b, x, y);
      assert InBands(a, x, y) <==> InBands(a[1..], x, y);
    }
    SpansUnique(a[1].spans, ss);
  }

  // A set of points has at most one banded representation.
  lemma {:induction false} BandsUnique(a: seq<Band>, b: seq<Band>)
    requires GoodBands(a) && GoodBands(b)
    requires forall x, y :: InBands(a, x, y) <==> InBands(b, x, y)
    ensures a == b
    decreases |a|
  {
    if a == [] || b == [] {
      if a != [] { TopCovered(a); }
      if b != [] { TopCovered(b); }
    } else {
      TopCovered(a);
      TopCovered(b);
      TopBandLasts(a, b);
      TopBandLasts(b, a);
      forall x, y ensures InBands(a[1..], x, y) <==> InBands(b[1..], x, y) {
        assert InBands(a, x, y) <==> InBands(b, x, y);
        HeadBand(a, x, y);
        HeadBand(b, x, y);
      }
      BandsUnique(a[1..], b[1..]);
      assert a == [a[0]] + a[1..] && b == [b[0]] + b[1..];
    }
  }

  // Two canonical rectangle arrays that cover the same points are identical.
  lemma {:induction false} CanonicalUnique(r: seq<Box>, s: seq<Box>)
    requires Canonical(r) && Canonical(s)
    requires forall x, y :: Covers(r, x, y) <==> Covers(s, x, y)
    ensures r == s
  {
    var a :| GoodBands(a) && Flat(a) == r;
    var b :| GoodBands(b) && Flat(b) == s;
    forall x, y ensures InBands(a, x, y) <==> InBands(b, x, y) {
      FlatCovers(a, x, y);
      FlatCovers(b, x, y);
    }
    BandsUnique(a, b);
  }
}
