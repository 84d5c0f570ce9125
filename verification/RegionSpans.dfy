// Horizontal structure of a region: the x-intervals ("spans") of one band of
// rectangles, and the three per-band merges as functions on lists of spans.
module RegionSpans {

  // The source stores every coordinate in a signed 16-bit field.
  type Coord = x: int | -0x8000 <= x <= 0x7fff

  function Min(a: Coord, b: Coord): Coord { if a < b then a else b }

  function Max(a: Coord, b: Coord): Coord { if a > b then a else b }

  datatype Span = Span(x1: Coord, x2: Coord)

  predicate InSpan(s: Span, x: int) {
    s.x1 <= x < s.x2
  }

  predicate InSpans(ss: seq<Span>, x: int) {
    exists i :: 0 <= i < |ss| && InSpan(ss[i], x)
  }

  // Non-empty intervals, left to right, no two of which overlap or touch.
  predicate GoodSpans(ss: seq<Span>) {
    ss == [] ||
    (&& ss[0].x1 < ss[0].x2
     && (|ss| > 1 ==> ss[0].x2 < ss[1].x1)
     && GoodSpans(ss[1..]))
  }

  datatype Overlap = Union | Intersect | Subtract

  // Whether a point belongs to the result, given whether it is in each operand.
  predicate Apply(op: Overlap, in1: bool, in2: bool) {
    match op
    case Union => in1 || in2
    case Intersect => in1 && in2
    case Subtract => in1 && !in2
  }

  // out is the canonical form of the operation on the points of two span lists.
  ghost predicate SpansResult(op: Overlap, out: seq<Span>, a: seq<Span>, b: seq<Span>) {
    && GoodSpans(out)
    && forall x :: InSpans(out, x) <==> Apply(op, InSpans(a, x), InSpans(b, x))
  }

  // Adjacent spans being apart, any two are.
  lemma {:induction false} GoodSpansApart(ss: seq<Span>, i: nat, j: nat)
    requires GoodSpans(ss) && i < j < |ss|
    ensures ss[i].x2 < ss[j].x1
    decreases j
  {
    if i > 0 {
      GoodSpansApart(ss[1..], i - 1, j - 1);
    } else if j > 1 {
      GoodSpansApart(ss[1..], 0, j - 1);
    }
  }

  // A point is in the first span, or further right in the rest.
  lemma {:induction false} Head(ss: seq<Span>, x: int)
    requires ss != [] && GoodSpans(ss)
    ensures InSpans(ss, x) <==> InSpan(ss[0], x) || InSpans(ss[1..], x)
    ensures InSpans(ss, x) ==> ss[0].x1 <= x
    ensures InSpans(ss[1..], x) ==> ss[0].x2 < x
    decreases |ss|
  {
    if |ss| > 1 {
      Head(ss[1..], x);
    }
    if InSpans(ss, x) {
      var i :| 0 <= i < |ss| && InSpan(ss[i], x);
      assert i > 0 ==> ss[1..][i - 1] == ss[i];
    }
    if InSpans(ss[1..], x) {
      var i :| 0 <= i < |ss[1..]| && InSpan(ss[1..][i], x);
      assert InSpan(ss[i + 1], x);
    }
  }

  lemma {:induction false} Cons(s: Span, ss: seq<Span>, x: int)
    ensures InSpans([s] + ss, x) <==> InSpan(s, x) || InSpans(ss, x)
  {
    var t := [s] + ss;
    if InSpan(s, x) {
      assert InSpan(t[0], x);
    }
    if InSpans(ss, x) {
      var i :| 0 <= i < |ss| && InSpan(ss[i], x);
      assert InSpan(t[i + 1], x);
    }
  }

  // The leftmost span is determined by the points.
  lemma {:induction false} FirstSpan(ss: seq<Span>)
    requires ss != [] && GoodSpans(ss)
    ensures InSpans(ss, ss[0].x1) && !InSpans(ss, ss[0].x2)
    ensures forall x :: ss[0].x1 <= x < ss[0].x2 ==> InSpans(ss, x)
  {
    Head(ss, ss[0].x2);
    forall x | ss[0].x1 <= x < ss[0].x2 ensures InSpans(ss, x) {
      assert InSpan(ss[0], x);
    }
  }

  // A set of points on a line has at most one representation as good spans.
  lemma {:induction false} SpansUnique(a: seq<Span>, b: seq<Span>)
    requires GoodSpans(a) && GoodSpans(b)
    requires forall x :: InSpans(a, x) <==> InSpans(b, x)
    ensures a == b
    decreases |a|
  {
    if a == [] || b == [] {
      if a != [] { FirstSpan(a); }
      if b != [] { FirstSpan(b); }
    } else {
      FirstSpan(a);
      FirstSpan(b);
      Head(a, b[0].x1);
      Head(b, a[0].x1);
      assert !InSpans(b, a[0].x2) && !InSpans(a, b[0].x2);
      assert a[0] == b[0];
      forall x ensures InSpans(a[1..], x) <==> InSpans(b[1..], x) {
        Head(a, x);
        Head(b, x);
      }
      SpansUnique(a[1..], b[1..]);
      assert a == [a[0]] + a[1..] && b == [b[0]] + b[1..];
    }
  }

  // ---------- Intersection ----------

  // Output the overlap of the two leading spans, then drop whichever ends first.
  function IntersectSpans(a: seq<Span>, b: seq<Span>): seq<Span>
    decreases |a| + |b|
  {
    if a == [] || b == [] then [] else
    var x1, x2 := Max(a[0].x1, b[0].x1), Min(a[0].x2, b[0].x2);
    var rest := IntersectSpans(if a[0].x2 == x2 then a[1..] else a, if b[0].x2 == x2 then b[1..] else b);
    if x1 < x2 then [Span(x1, x2)] + rest else rest
  }

  // The next step of the merge, in two places of the bands.
  lemma {:induction false} IntersectAdvance(s1: seq<Span>, s2: seq<Span>, i: nat, j: nat, out: seq<Span>)
    requires i < |s1| && j < |s2|
    ensures var x1, x2 := Max(s1[i].x1, s2[j].x1), Min(s1[i].x2, s2[j].x2);
            var i', j' := if s1[i].x2 == x2 then i + 1 else i, if s2[j].x2 == x2 then j + 1 else j;
            (if x1 < x2 then out + [Span(x1, x2)] else out) + IntersectSpans(s1[i'..], s2[j'..])
              == out + IntersectSpans(s1[i..], s2[j..])
  {
    DropNext(s1, i);
    DropNext(s2, j);
  }

  lemma {:induction false} IntersectGood(a: seq<Span>, b: seq<Span>)
    requires GoodSpans(a) && GoodSpans(b)
    ensures var r := IntersectSpans(a, b);
            && GoodSpans(r)
            && (r != [] ==> a != [] && b != [] && Max(a[0].x1, b[0].x1) <= r[0].x1)
    decreases |a| + |b|
  {
    if a != [] && b != [] {
      var x2 := Min(a[0].x2, b[0].x2);
      var a' := if a[0].x2 == x2 then a[1..] else a;
      var b' := if b[0].x2 == x2 then b[1..] else b;
      IntersectGood(a', b');
      var rest := IntersectSpans(a', b');
      var s := Span(Max(a[0].x1, b[0].x1), x2);
      assert ([s] + rest)[1..] == rest;
    }
  }

  lemma {:induction false} IntersectCovers(a: seq<Span>, b: seq<Span>, x: int)
    requires GoodSpans(a) && GoodSpans(b)
    ensures InSpans(IntersectSpans(a, b), x) <==> InSpans(a, x) && InSpans(b, x)
    decreases |a| + |b|
  {
    if a != [] && b != [] {
      var x2 := Min(a[0].x2, b[0].x2);
      var a' := if a[0].x2 == x2 then a[1..] else a;
      var b' := if b[0].x2 == x2 then b[1..] else b;
      IntersectCovers(a', b', x);
      Cons(Span(Max(a[0].x1, b[0].x1), x2), IntersectSpans(a', b'), x);
      Head(a, x);
      Head(b, x);
    }
  }

  // ---------- Union ----------

  // Take the leftmost span next: extend the current span x1..x2 by it when they
  // meet, otherwise output the current span and start again.
  function UnionSpans(x1: Coord, x2: Coord, a: seq<Span>, b: seq<Span>): (r: seq<Span>)
    decreases |a| + |b|
  {
    if a == [] && b == [] then [Span(x1, x2)]
    else if a != [] && (b == [] || a[0].x1 < b[0].x1) then
      if a[0].x1 <= x2 then UnionSpans(x1, if x2 < a[0].x2 then a[0].x2 else x2, a[1..], b)
      else [Span(x1, x2)] + UnionSpans(a[0].x1, a[0].x2, a[1..], b)
    else
      if b[0].x1 <= x2 then UnionSpans(x1, if x2 < b[0].x2 then b[0].x2 else x2, a, b[1..])
      else [Span(x1, x2)] + UnionSpans(b[0].x1, b[0].x2, a, b[1..])
  }

  // Nothing still to come starts left of x1.
  predicate StartsFrom(ss: seq<Span>, x1: int) {
    ss != [] ==> x1 <= ss[0].x1
  }

  lemma {:induction false} UnionGood(x1: Coord, x2: Coord, a: seq<Span>, b: seq<Span>)
    requires GoodSpans(a) && GoodSpans(b) && x1 < x2
    ensures var r := UnionSpans(x1, x2, a, b); GoodSpans(r) && r != [] && r[0].x1 == x1
    decreases |a| + |b|
  {
    if a != [] && (b == [] || a[0].x1 < b[0].x1) {
      if a[0].x1 <= x2 {
        UnionGood(x1, if x2 < a[0].x2 then a[0].x2 else x2, a[1..], b);
      } else {
        UnionGood(a[0].x1, a[0].x2, a[1..], b);
        assert ([Span(x1, x2)] + UnionSpans(a[0].x1, a[0].x2, a[1..], b))[1..] == UnionSpans(a[0].x1, a[0].x2, a[1..], b);
      }
    } else if b != [] {
      if b[0].x1 <= x2 {
        UnionGood(x1, if x2 < b[0].x2 then b[0].x2 else x2, a, b[1..]);
      } else {
        UnionGood(b[0].x1, b[0].x2, a, b[1..]);
        assert ([Span(x1, x2)] + UnionSpans(b[0].x1, b[0].x2, a, b[1..]))[1..] == UnionSpans(b[0].x1, b[0].x2, a, b[1..]);
      }
    }
  }

  lemma {:induction false} UnionCovers(x1: Coord, x2: Coord, a: seq<Span>, b: seq<Span>, x: int)
    requires GoodSpans(a) && GoodSpans(b) && x1 < x2
    requires StartsFrom(a, x1) && StartsFrom(b, x1)
    ensures InSpans(UnionSpans(x1, x2, a, b), x) <==> x1 <= x < x2 || InSpans(a, x) || InSpans(b, x)
    decreases |a| + |b|
  {
    if a == [] && b == [] {
      Cons(Span(x1, x2), [], x);
      assert [Span(x1, x2)] + [] == [Span(x1, x2)];
    } else if a != [] && (b == [] || a[0].x1 < b[0].x1) {
      Head(a, x);
      if a[0].x1 <= x2 {
        UnionCovers(x1, if x2 < a[0].x2 then a[0].x2 else x2, a[1..], b, x);
      } else {
        UnionCovers(a[0].x1, a[0].x2, a[1..], b, x);
        Cons(Span(x1, x2), UnionSpans(a[0].x1, a[0].x2, a[1..], b), x);
      }
    } else {
      Head(b, x);
      if b[0].x1 <= x2 {
        UnionCovers(x1, if x2 < b[0].x2 then b[0].x2 else x2, a, b[1..], x);
      } else {
        UnionCovers(b[0].x1, b[0].x2, a, b[1..], x);
        Cons(Span(x1, x2), UnionSpans(b[0].x1, b[0].x2, a, b[1..]), x);
      }
    }
  }

  // One MERGERECT step: span s extends the current span, or the current span is output.
  predicate Merged(out: seq<Span>, x1: Coord, x2: Coord, s: Span, out': seq<Span>, x1': Coord, x2': Coord) {
    if s.x1 <= x2 then out' == out && x1' == x1 && x2' == if x2 < s.x2 then s.x2 else x2
    else out' == out + [Span(x1, x2)] && x1' == s.x1 && x2' == s.x2
  }

  lemma {:induction false} UnionStep(out: seq<Span>, x1: Coord, x2: Coord, a: seq<Span>, b: seq<Span>, first: bool,
                  out': seq<Span>, x1': Coord, x2': Coord)
    requires if first then a != [] && (b == [] || a[0].x1 < b[0].x1) else b != [] && (a == [] || b[0].x1 <= a[0].x1)
    requires Merged(out, x1, x2, if first then a[0] else b[0], out', x1', x2')
    ensures out + UnionSpans(x1, x2, a, b)
         == out' + UnionSpans(x1', x2', if first then a[1..] else a, if first then b else b[1..])
  {
    Assoc(out, Span(x1, x2), UnionSpans(x1', x2', if first then a[1..] else a, if first then b else b[1..]));
  }

  lemma {:induction false} UnionRestSymmetric(x1: Coord, x2: Coord, a: seq<Span>)
    ensures UnionSpans(x1, x2, [], a) == UnionSpans(x1, x2, a, [])
    decreases |a|
  {
    if a != [] {
      UnionRestSymmetric(x1, if x2 < a[0].x2 then a[0].x2 else x2, a[1..]);
      UnionRestSymmetric(a[0].x1, a[0].x2, a[1..]);
    }
  }

  lemma {:induction false} Assoc(out: seq<Span>, s: Span, rest: seq<Span>)
    ensures (out + [s]) + rest == out + ([s] + rest)
  {
  }

  lemma {:induction false} DropNext(ss: seq<Span>, i: nat)
    requires i < |ss|
    ensures ss[i..] != [] && ss[i..][0] == ss[i] && ss[i..][1..] == ss[i + 1..]
  {
  }

  // The union of two non-empty bands starts with the leftmost span.
  function UnionBand(a: seq<Span>, b: seq<Span>): seq<Span>
    requires a != [] && b != []
  {
    if a[0].x1 < b[0].x1 then UnionSpans(a[0].x1, a[0].x2, a[1..], b)
    else UnionSpans(b[0].x1, b[0].x2, a, b[1..])
  }

  // ---------- Subtraction ----------

  // What is left of a, from x1 in its first span on, when b is taken away.
  function SubtractSpans(x1: Coord, a: seq<Span>, b: seq<Span>): seq<Span>
    decreases |a| + |b|
  {
    if a == [] then []
    else if b == [] then [Span(x1, a[0].x2)] + SubtractNext(a, b)
    else if b[0].x2 <= x1 then SubtractSpans(x1, a, b[1..])
    else if b[0].x1 <= x1 then SubtractBeyond(a, b)
    else if b[0].x1 < a[0].x2 then [Span(x1, b[0].x1)] + SubtractBeyond(a, b)
    else (if a[0].x2 > x1 then [Span(x1, a[0].x2)] else []) + SubtractNext(a, b)
  }

  // The first span of a is used up.
  function SubtractNext(a: seq<Span>, b: seq<Span>): seq<Span>
    requires a != []
    decreases |a| + |b|, 0
  {
    if |a| == 1 then [] else SubtractSpans(a[1].x1, a[1..], b)
  }

  // Everything up to the end of the first span of b has been dealt with.
  function SubtractBeyond(a: seq<Span>, b: seq<Span>): seq<Span>
    requires a != [] && b != []
    decreases |a| + |b|, 1
  {
    if b[0].x2 >= a[0].x2 then SubtractNext(a, b) else SubtractSpans(b[0].x2, a, b[1..])
  }

  // Where the minuend goes on when its span i is used up; x1 does not matter at its end.
  lemma {:induction false} SubtractAdvance(s1: seq<Span>, i: nat, b: seq<Span>, x1: Coord)
    requires i < |s1| && (i + 1 < |s1| ==> x1 == s1[i + 1].x1)
    ensures SubtractNext(s1[i..], b) == SubtractSpans(x1, s1[i + 1..], b)
  {
    DropNext(s1, i);
    if i + 1 < |s1| {
      assert s1[i..][1] == s1[i + 1];
    }
  }

  // When the subtrahend is used up, the rest of each span of the minuend stays.
  lemma {:induction false} SubtractRestNext(ss: seq<Span>, i: nat, out: seq<Span>, x1: Coord, x1': Coord)
    requires i < |ss| && (i + 1 < |ss| ==> x1' == ss[i + 1].x1)
    ensures out + SubtractSpans(x1, ss[i..], []) == out + [Span(x1, ss[i].x2)] + SubtractSpans(x1', ss[i + 1..], [])
  {
    Assoc(out, Span(x1, ss[i].x2), SubtractNext(ss[i..], []));
    SubtractAdvance(ss, i, [], x1');
  }

  // Past the end of span j of the subtrahend, whichever span is used up.
  lemma {:induction false} SubtractPast(s1: seq<Span>, s2: seq<Span>, i: nat, j: nat, x1: Coord)
    requires i < |s1| && j < |s2|
    requires x1 == if s2[j].x2 >= s1[i].x2 && i + 1 < |s1| then s1[i + 1].x1 else s2[j].x2
    ensures SubtractBeyond(s1[i..], s2[j..]) ==
      if s2[j].x2 >= s1[i].x2 then SubtractSpans(x1, s1[i + 1..], s2[j..]) else SubtractSpans(x1, s1[i..], s2[j + 1..])
  {
    DropNext(s1, i);
    DropNext(s2, j);
    if s2[j].x2 >= s1[i].x2 {
      SubtractAdvance(s1, i, s2[j..], x1);
    }
  }

  // The other three cases: span j ends before x1, it cuts span i, it begins behind it.
  lemma {:induction false} SubtractSkip(s1: seq<Span>, s2: seq<Span>, i: nat, j: nat, x1: Coord)
    requires i < |s1| && j < |s2| && s2[j].x2 <= x1
    ensures SubtractSpans(x1, s1[i..], s2[j..]) == SubtractSpans(x1, s1[i..], s2[j + 1..])
  {
    DropNext(s1, i);
    DropNext(s2, j);
  }

  lemma {:induction false} SubtractCut(s1: seq<Span>, s2: seq<Span>, i: nat, j: nat, x1: Coord, x1': Coord, out: seq<Span>)
    requires i < |s1| && j < |s2| && x1 < s2[j].x1 < s1[i].x2 && x1 < s2[j].x2
    requires x1' == if s2[j].x2 >= s1[i].x2 && i + 1 < |s1| then s1[i + 1].x1 else s2[j].x2
    ensures out + SubtractSpans(x1, s1[i..], s2[j..]) == out + [Span(x1, s2[j].x1)] +
      (if s2[j].x2 >= s1[i].x2 then SubtractSpans(x1', s1[i + 1..], s2[j..]) else SubtractSpans(x1', s1[i..], s2[j + 1..]))
  {
    DropNext(s1, i);
    DropNext(s2, j);
    SubtractPast(s1, s2, i, j, x1');
    Assoc(out, Span(x1, s2[j].x1), SubtractBeyond(s1[i..], s2[j..]));
  }

  lemma {:induction false} SubtractKeep(s1: seq<Span>, s2: seq<Span>, i: nat, j: nat, x1: Coord, x1': Coord, out: seq<Span>)
    requires i < |s1| && j < |s2| && x1 < s1[i].x2 <= s2[j].x1 && x1 < s2[j].x2
    requires i + 1 < |s1| ==> x1' == s1[i + 1].x1
    ensures out + SubtractSpans(x1, s1[i..], s2[j..])
         == out + [Span(x1, s1[i].x2)] + SubtractSpans(x1', s1[i + 1..], s2[j..])
  {
    DropNext(s1, i);
    DropNext(s2, j);
    SubtractAdvance(s1, i, s2[j..], x1');
    Assoc(out, Span(x1, s1[i].x2), SubtractNext(s1[i..], s2[j..]));
  }

  lemma {:induction false} SubtractGood(x1: Coord, a: seq<Span>, b: seq<Span>)
    requires GoodSpans(a) && GoodSpans(b)
    requires a != [] ==> a[0].x1 <= x1 < a[0].x2
    ensures var r := SubtractSpans(x1, a, b); GoodSpans(r) && StartsFrom(r, x1)
    decreases |a| + |b|
  {
    if a != [] {
      if |a| > 1 {
        SubtractGood(a[1].x1, a[1..], b);
      }
      assert ([Span(x1, a[0].x2)] + SubtractNext(a, b))[1..] == SubtractNext(a, b);
      if b != [] && b[0].x2 <= x1 {
        SubtractGood(x1, a, b[1..]);
      } else if b != [] && b[0].x1 < a[0].x2 {
        if b[0].x2 < a[0].x2 {
          SubtractGood(b[0].x2, a, b[1..]);
        }
        assert ([Span(x1, b[0].x1)] + SubtractBeyond(a, b))[1..] == SubtractBeyond(a, b);
      }
    }
  }

  lemma {:induction false} SubtractCovers(x1: Coord, a: seq<Span>, b: seq<Span>, x: int)
    requires GoodSpans(a) && GoodSpans(b)
    requires a != [] ==> a[0].x1 <= x1 < a[0].x2
    ensures InSpans(SubtractSpans(x1, a, b), x) <==> x1 <= x && InSpans(a, x) && !InSpans(b, x)
    decreases |a| + |b|
  {
    if a != [] {
      Head(a, x);
      if |a| > 1 {
        SubtractCovers(a[1].x1, a[1..], b, x);
        Head(a[1..], x);
      }
      Cons(Span(x1, a[0].x2), SubtractNext(a, b), x);
      if b != [] {
        Head(b, x);
        if b[0].x2 <= x1 {
          SubtractCovers(x1, a, b[1..], x);
        } else if b[0].x1 < a[0].x2 {
          if b[0].x2 < a[0].x2 {
            SubtractCovers(b[0].x2, a, b[1..], x);
          }
          Cons(Span(x1, b[0].x1), SubtractBeyond(a, b), x);
        }
      }
    }
  }

  // ---------- The merge chosen by the operation ----------

  function OverlapSpans(op: Overlap, a: seq<Span>, b: seq<Span>): seq<Span>
    requires a != [] && b != []
  {
    match op
    case Union => UnionBand(a, b)
    case Intersect => IntersectSpans(a, b)
    case Subtract => SubtractSpans(a[0].x1, a, b)
  }

  // Each merge gives the canonical form of its operation.
  lemma {:induction false} OverlapCorrect(op: Overlap, a: seq<Span>, b: seq<Span>)
    requires a != [] && b != [] && GoodSpans(a) && GoodSpans(b)
    ensures SpansResult(op, OverlapSpans(op, a, b), a, b)
  {
    match op
    case Union =>
      if a[0].x1 < b[0].x1 {
        UnionGood(a[0].x1, a[0].x2, a[1..], b);
      } else {
        UnionGood(b[0].x1, b[0].x2, a, b[1..]);
      }
      forall x ensures InSpans(OverlapSpans(op, a, b), x) <==> InSpans(a, x) || InSpans(b, x) {
        Head(a, x);
        Head(b, x);
        if a[0].x1 < b[0].x1 {
          UnionCovers(a[0].x1, a[0].x2, a[1..], b, x);
        } else {
          UnionCovers(b[0].x1, b[0].x2, a, b[1..], x);
        }
      }
    case Intersect =>
      IntersectGood(a, b);
      forall x ensures InSpans(OverlapSpans(op, a, b), x) <==> InSpans(a, x) && InSpans(b, x) {
        IntersectCovers(a, b, x);
      }
    case Subtract =>
      SubtractGood(a[0].x1, a, b);
      forall x ensures InSpans(OverlapSpans(op, a, b), x) <==> InSpans(a, x) && !InSpans(b, x) {
        SubtractCovers(a[0].x1, a, b, x);
        Head(a, x);
      }
  }
}
