// The band sweep of pixman_op as a function on lists of bands, and its meaning.
module RegionSweep {
  import opened RegionSpans
  import opened RegionBands

  // ---------- The coalescing append ----------

  // Add a band below the others, merging it into the last one when they touch
  // and have their rectangles in the same places. An empty band adds nothing.
  function AddBand(out: seq<Band>, b: Band): (r: seq<Band>) {
    var n := |out|;
    if b.spans == [] then out
    else if n > 0 && out[n - 1].y2 == b.y1 && out[n - 1].spans == b.spans then
      out[..n - 1] + [Band(out[n - 1].y1, b.y2, b.spans)]
    else out + [b]
  }

  predicate EndsBy(out: seq<Band>, y: int) {
    out != [] ==> out[|out| - 1].y2 <= y
  }

  lemma {:induction false} AddBandGood(out: seq<Band>, b: Band)
    requires GoodBands(out) && EndsBy(out, b.y1)
    requires b.y1 < b.y2 && GoodSpans(b.spans)
    ensures GoodBands(AddBand(out, b)) && EndsBy(AddBand(out, b), b.y2)
  {
    var n := |out|;
    if b.spans != [] {
      if n > 0 && out[n - 1].y2 == b.y1 && out[n - 1].spans == b.spans {
        GoodBandsPrefix(out, n - 1);
        GoodBandsConcat(out[..n - 1], [Band(out[n - 1].y1, b.y2, b.spans)]);
      } else {
        GoodBandsConcat(out, [b]);
      }
    }
  }

  lemma {:induction false} AddBandCovers(out: seq<Band>, b: Band, x: int, y: int)
    requires GoodBands(out) && EndsBy(out, b.y1) && b.y1 < b.y2
    ensures InBands(AddBand(out, b), x, y) <==> InBands(out, x, y) || InBand(b, x, y)
  {
    var n := |out|;
    if b.spans != [] {
      if n > 0 && out[n - 1].y2 == b.y1 && out[n - 1].spans == b.spans {
        var merged := Band(out[n - 1].y1, b.y2, b.spans);
        GoodBandsPrefix(out, n - 1);
        assert out == out[..n - 1] + [out[n - 1]];
        InBandsConcat(out[..n - 1], [out[n - 1]], x, y);
        InBandsConcat(out[..n - 1], [merged], x, y);
        assert InBands([merged], x, y) <==> InBand(merged, x, y);
        assert InBands([out[n - 1]], x, y) <==> InBand(out[n - 1], x, y);
      } else {
        InBandsConcat(out, [b], x, y);
        assert InBands([b], x, y) <==> InBand(b, x, y);
      }
    }
  }

  // ---------- The sweep ----------

  // The part of band a0 above b0 and below ybot, if the operation keeps it.
  function AddNonOverlap(keep: bool, out: seq<Band>, a0: Band, y: Coord, ybot: Coord): seq<Band> {
    var top, bot := Max(a0.y1, ybot), Min(a0.y2, y);
    if keep && top != bot then AddBand(out, Band(top, bot, a0.spans)) else out
  }

  function NonOverlap(op: Overlap, out: seq<Band>, a0: Band, b0: Band, ybot: Coord): seq<Band> {
    if a0.y1 < b0.y1 then AddNonOverlap(Apply(op, true, false), out, a0, b0.y1, ybot)
    else if b0.y1 < a0.y1 then AddNonOverlap(Apply(op, false, true), out, b0, a0.y1, ybot)
    else out
  }

  // One iteration: first the rows where only one operand has a band, then the
  // rows where both have.
  function AddStep(op: Overlap, out: seq<Band>, a0: Band, b0: Band, ybot: Coord): seq<Band>
    requires a0.spans != [] && b0.spans != []
  {
    var out1 := NonOverlap(op, out, a0, b0, ybot);
    var ytop, ybot' := Max(a0.y1, b0.y1), Min(a0.y2, b0.y2);
    if ybot' > ytop then AddBand(out1, Band(ytop, ybot', OverlapSpans(op, a0.spans, b0.spans))) else out1
  }

  // What is left of one operand when the other is exhausted.
  function AddRest(keep: bool, out: seq<Band>, a: seq<Band>, ybot: Coord): seq<Band> {
    if keep && a != [] then AddBand(out, Band(Max(a[0].y1, ybot), a[0].y2, a[0].spans)) + a[1..]
    else out
  }

  predicate NonEmpty(bs: seq<Band>) {
    bs == [] || (bs[0].spans != [] && NonEmpty(bs[1..]))
  }

  function Sweep(op: Overlap, out: seq<Band>, a: seq<Band>, b: seq<Band>, ybot: Coord): seq<Band>
    requires NonEmpty(a) && NonEmpty(b)
    decreases |a| + |b|
  {
    if a != [] && b != [] then
      var ybot' := Min(a[0].y2, b[0].y2);
      Sweep(op, AddStep(op, out, a[0], b[0], ybot),
            if a[0].y2 == ybot' then a[1..] else a, if b[0].y2 == ybot' then b[1..] else b, ybot')
    else if a != [] then AddRest(Apply(op, true, false), out, a, ybot)
    else AddRest(Apply(op, false, true), out, b, ybot)
  }

  lemma {:induction false} GoodNonEmpty(bs: seq<Band>)
    requires GoodBands(bs)
    ensures NonEmpty(bs)
  {
    if bs != [] {
      GoodNonEmpty(bs[1..]);
    }
  }

  // The state of the sweep between iterations: everything above ybot is done,
  // the current bands reach below it, and at most one of them has begun.
  predicate SweepInv(out: seq<Band>, a: seq<Band>, b: seq<Band>, ybot: int) {
    && EndsBy(out, ybot)
    && (a != [] ==> ybot < a[0].y2)
    && (b != [] ==> ybot < b[0].y2)
    && (a != [] && b != [] ==> ybot <= Max(a[0].y1, b[0].y1))
  }

  // The rows where only a0 has a band, when it starts first.
  lemma {:induction false} NonOverlapCorrect(keep: bool, out: seq<Band>, a0: Band, y1: Coord, ybot: Coord, x: int, y: int)
    requires GoodBand(a0) && GoodBands(out) && EndsBy(out, ybot) && ybot < a0.y2 && a0.y1 < y1 && ybot <= y1
    ensures var r := AddNonOverlap(keep, out, a0, y1, ybot);
            && GoodBands(r) && EndsBy(r, Min(a0.y2, y1))
            && (InBands(r, x, y) <==> InBands(out, x, y) || (ybot <= y < y1 && keep && InBand(a0, x, y)))
  {
    var top, bot := Max(a0.y1, ybot), Min(a0.y2, y1);
    if keep && top != bot {
      AddBandGood(out, Band(top, bot, a0.spans));
      AddBandCovers(out, Band(top, bot, a0.spans), x, y);
    }
  }

  // The rows where both have a band.
  lemma {:induction false} OverlapRowsCorrect(op: Overlap, out: seq<Band>, a0: Band, b0: Band, x: int, y: int)
    requires GoodBand(a0) && GoodBand(b0) && GoodBands(out) && EndsBy(out, Max(a0.y1, b0.y1))
    requires Max(a0.y1, b0.y1) < Min(a0.y2, b0.y2)
    ensures var r := AddBand(out, Band(Max(a0.y1, b0.y1), Min(a0.y2, b0.y2), OverlapSpans(op, a0.spans, b0.spans)));
            && GoodBands(r) && EndsBy(r, Min(a0.y2, b0.y2))
            && (InBands(r, x, y) <==>
                (InBands(out, x, y) ||
                 (Max(a0.y1, b0.y1) <= y < Min(a0.y2, b0.y2) && Apply(op, InBand(a0, x, y), InBand(b0, x, y)))))
  {
    var band := Band(Max(a0.y1, b0.y1), Min(a0.y2, b0.y2), OverlapSpans(op, a0.spans, b0.spans));
    OverlapCorrect(op, a0.spans, b0.spans);
    AddBandGood(out, band);
    AddBandCovers(out, band, x, y);
  }

  // One iteration adds exactly the operation on the rows from ybot to the new ybot.
  lemma {:induction false} AddStepCorrect(op: Overlap, out: seq<Band>, a0: Band, b0: Band, ybot: Coord, x: int, y: int)
    requires GoodBand(a0) && GoodBand(b0) && GoodBands(out) && SweepInv(out, [a0], [b0], ybot)
    ensures var r, ybot' := AddStep(op, out, a0, b0, ybot), Min(a0.y2, b0.y2);
            && GoodBands(r) && EndsBy(r, ybot')
            && (InBands(r, x, y) <==>
                (InBands(out, x, y) ||
                 (ybot <= y < ybot' && Apply(op, InBand(a0, x, y), InBand(b0, x, y)))))
  {
    var out1 := NonOverlap(op, out, a0, b0, ybot);
    if a0.y1 < b0.y1 {
      NonOverlapCorrect(Apply(op, true, false), out, a0, b0.y1, ybot, x, y);
    } else if b0.y1 < a0.y1 {
      NonOverlapCorrect(Apply(op, false, true), out, b0, a0.y1, ybot, x, y);
    }
    if Min(a0.y2, b0.y2) > Max(a0.y1, b0.y1) {
      OverlapRowsCorrect(op, out1, a0, b0, x, y);
    }
  }

  lemma {:induction false} AddRestCorrect(keep: bool, out: seq<Band>, a: seq<Band>, ybot: Coord, x: int, y: int)
    requires GoodBands(a) && GoodBands(out) && EndsBy(out, ybot)
    requires a != [] ==> ybot < a[0].y2
    ensures GoodBands(AddRest(keep, out, a, ybot))
    ensures InBands(AddRest(keep, out, a, ybot), x, y) <==>
            InBands(out, x, y) || (ybot <= y && keep && InBands(a, x, y))
  {
    if keep && a != [] {
      var first := Band(Max(a[0].y1, ybot), a[0].y2, a[0].spans);
      AddBandGood(out, first);
      AddBandCovers(out, first, x, y);
      GoodBandsConcat(AddBand(out, first), a[1..]);
      InBandsConcat(AddBand(out, first), a[1..], x, y);
      HeadBand(a, x, y);
    }
  }

  // The sweep keeps what it has and adds exactly the operation from ybot down.
  lemma {:induction false} SweepCorrect(op: Overlap, out: seq<Band>, a: seq<Band>, b: seq<Band>, ybot: Coord, x: int, y: int)
    requires GoodBands(a) && GoodBands(b) && NonEmpty(a) && NonEmpty(b)
    requires GoodBands(out) && SweepInv(out, a, b, ybot)
    ensures GoodBands(Sweep(op, out, a, b, ybot))
    ensures InBands(Sweep(op, out, a, b, ybot), x, y) <==>
            InBands(out, x, y) || (ybot <= y && Apply(op, InBands(a, x, y), InBands(b, x, y)))
    decreases |a| + |b|
  {
    if a != [] && b != [] {
      var ybot' := Min(a[0].y2, b[0].y2);
      AddStepCorrect(op, out, a[0], b[0], ybot, x, y);
      HeadBand(a, x, y);
      HeadBand(b, x, y);
      SweepCorrect(op, AddStep(op, out, a[0], b[0], ybot),
                   if a[0].y2 == ybot' then a[1..] else a, if b[0].y2 == ybot' then b[1..] else b, ybot', x, y);
    } else if a != [] {
      AddRestCorrect(Apply(op, true, false), out, a, ybot, x, y);
    } else {
      AddRestCorrect(Apply(op, false, true), out, b, ybot, x, y);
    }
  }
}
