// What the three region operations satisfy as exact representations, and over
// whole programs of operations on a pool of regions.
module RegionLaws {
  import opened RegionSpans
  import opened RegionBands
  import opened RegionSweep
  import opened RegionBoxes
  import opened Regions

  // The rectangle array of a result is determined by the operands.
  lemma {:induction false} ResultUnique(op: Overlap, a: seq<Box>, b: seq<Box>, r: seq<Box>, s: seq<Box>)
    requires IsResult(op, r, a, b) && IsResult(op, s, a, b)
    ensures r == s
  {
    CanonicalUnique(r, s);
  }

  // Every two arrays have a result: the one that the operations compute.
  ghost function Result(op: Overlap, a: seq<Box>, b: seq<Box>): (r: seq<Box>)
    requires Canonical(a) && Canonical(b)
    ensures IsResult(op, r, a, b)
  {
    if a == [] then
      EmptyOperand(b);
      if op == Union then b else []
    else if b == [] then
      EmptyOperand(a);
      if op == Intersect then [] else a
    else
      var bs, cs := WitnessBands(a), WitnessBands(b);
      GoodNonEmpty(bs);
      GoodNonEmpty(cs);
      SweepResult(op, bs, cs);
      Flat(Sweep(op, [], bs, cs, Min(bs[0].y1, cs[0].y1)))
  }

  lemma {:induction false} Commutes(op: Overlap, a: seq<Box>, b: seq<Box>)
    requires op != Subtract && Canonical(a) && Canonical(b)
    ensures Result(op, a, b) == Result(op, b, a)
  {
    CanonicalUnique(Result(op, a, b), Result(op, b, a));
  }

  lemma {:induction false} Associates(op: Overlap, a: seq<Box>, b: seq<Box>, c: seq<Box>)
    requires op != Subtract && Canonical(a) && Canonical(b) && Canonical(c)
    ensures Result(op, Result(op, a, b), c) == Result(op, a, Result(op, b, c))
  {
    CanonicalUnique(Result(op, Result(op, a, b), c), Result(op, a, Result(op, b, c)));
  }

  // Cutting a region in two along another and joining the parts restores it.
  lemma {:induction false} CutAndJoin(a: seq<Box>, b: seq<Box>)
    requires Canonical(a) && Canonical(b)
    ensures Result(Union, Result(Subtract, a, b), Result(Intersect, a, b)) == a
  {
    CanonicalUnique(Result(Union, Result(Subtract, a, b), Result(Intersect, a, b)), a);
  }

  // Subtracting a union is subtracting one region after the other.
  lemma {:induction false} SubtractUnion(a: seq<Box>, b: seq<Box>, c: seq<Box>)
    requires Canonical(a) && Canonical(b) && Canonical(c)
    ensures Result(Subtract, a, Result(Union, b, c)) == Result(Subtract, Result(Subtract, a, b), c)
  {
    CanonicalUnique(Result(Subtract, a, Result(Union, b, c)), Result(Subtract, Result(Subtract, a, b), c));
  }

  // ---------- All laws at once ----------

  datatype Expr = Leaf(i: nat) | Node(op: Overlap, left: Expr, right: Expr)

  predicate Uses(e: Expr, n: nat) {
    match e
    case Leaf(i) => i < n
    case Node(_, left, right) => Uses(left, n) && Uses(right, n)
  }

  ghost predicate AllCanonical(env: seq<seq<Box>>) {
    forall i :: 0 <= i < |env| ==> Canonical(env[i])
  }

  // The expression computed by the operations.
  ghost function Eval(e: Expr, env: seq<seq<Box>>): (r: seq<Box>)
    requires Uses(e, |env|) && AllCanonical(env)
    ensures Canonical(r)
  {
    match e
    case Leaf(i) => env[i]
    case Node(op, left, right) => Result(op, Eval(left, env), Eval(right, env))
  }

  // The expression as a condition on which of the regions hold a point.
  ghost predicate Holds(e: Expr, has: seq<bool>)
    requires Uses(e, |has|)
  {
    match e
    case Leaf(i) => has[i]
    case Node(op, left, right) => Apply(op, Holds(left, has), Holds(right, has))
  }

  ghost function Having(env: seq<seq<Box>>, x: int, y: int): (has: seq<bool>)
    ensures |has| == |env| && forall i :: 0 <= i < |has| ==> has[i] == Covers(env[i], x, y)
  {
    seq(|env|, i requires 0 <= i < |env| => Covers(env[i], x, y))
  }

  lemma {:induction false} EvalCovers(e: Expr, env: seq<seq<Box>>, x: int, y: int)
    requires Uses(e, |env|) && AllCanonical(env)
    ensures Covers(Eval(e, env), x, y) <==> Holds(e, Having(env, x, y))
  {
    match e
    case Leaf(i) =>
    case Node(op, left, right) =>
      EvalCovers(left, env, x, y);
      EvalCovers(right, env, x, y);
  }

  // Two expressions give the same array exactly if they agree at every point.
  lemma {:induction false} EvalEqual(e: Expr, f: Expr, env: seq<seq<Box>>)
    requires Uses(e, |env|) && Uses(f, |env|) && AllCanonical(env)
    ensures (Eval(e, env) == Eval(f, env)
             <==> forall x, y :: Holds(e, Having(env, x, y)) == Holds(f, Having(env, x, y)))
  {
    forall x, y
      ensures Covers(Eval(e, env), x, y) <==> Holds(e, Having(env, x, y))
      ensures Covers(Eval(f, env), x, y) <==> Holds(f, Having(env, x, y))
    {
      EvalCovers(e, env, x, y);
      EvalCovers(f, env, x, y);
    }
    if forall x, y :: Holds(e, Having(env, x, y)) == Holds(f, Having(env, x, y)) {
      forall x, y ensures Covers(Eval(e, env), x, y) <==> Covers(Eval(f, env), x, y) {
        assert Holds(e, Having(env, x, y)) == Holds(f, Having(env, x, y));
      }
      CanonicalUnique(Eval(e, env), Eval(f, env));
    }
  }

  // Every law of sets is a law of rectangle arrays.
  lemma {:induction false} SetLaw(e: Expr, f: Expr, env: seq<seq<Box>>)
    requires Uses(e, |env|) && Uses(f, |env|) && AllCanonical(env)
    requires forall has: seq<bool> :: |has| == |env| ==> Holds(e, has) == Holds(f, has)
    ensures Eval(e, env) == Eval(f, env)
  {
    EvalEqual(e, f, env);
  }

  // A rectangle whose sides fit in 16 bits is stored as it is.
  lemma {:induction false} StoredBoxExact(x: int, y: int, width: nat, height: nat, px: int, py: int)
    requires -0x8000 <= x && x + width <= 0x7fff && -0x8000 <= y && y + height <= 0x7fff
    ensures InBox(StoredBox(x, y, width, height), px, py) <==> x <= px < x + width && y <= py < y + height
  {
  }

  // Any other is stored with its sides taken modulo 2^16.
  lemma {:induction false} StoredSides(x: int, y: int, width: nat, height: nat)
    ensures var box := StoredBox(x, y, width, height);
            && (box.x1 - x) % 0x10000 == 0 && (box.x2 - (x + width)) % 0x10000 == 0
            && (box.y1 - y) % 0x10000 == 0 && (box.y2 - (y + height)) % 0x10000 == 0
  {
    Wrapped(x);
    Wrapped(y);
    Wrapped(x + width);
    Wrapped(y + height);
  }

  lemma {:induction false} Wrapped(v: int)
    ensures (ToCoord(v) - v) % 0x10000 == 0
  {
    var w := v + 0x8000;
    assert w == w / 0x10000 * 0x10000 + w % 0x10000;
    assert ToCoord(v) - v == -(w / 0x10000) * 0x10000;
  }

  // ---------- Broken operands ----------

  method NewBroken() returns (r: Region)
    ensures fresh(r) && r.Broken() && r.Valid()
  {
    r := new Region.Init();
    var ok := r.Break();
  }

  // Each of these calls returns TRUE (the first result), although an operand is
  // broken and so the result is.

  method UnionWithBroken() returns (ok: bool, broken: bool)
    ensures ok && broken
  {
    var r := new Region.Init();
    var empty := new Region.Init();
    var b := NewBroken();
    ok := r.UnionWith(empty, b);
    broken := r.Broken();
  }

  method SubtractFromBroken() returns (ok: bool, broken: bool)
    ensures ok && broken
  {
    var r := new Region.Init();
    var b := NewBroken();
    var s := new Region.InitRect(0, 0, 2, 2);
    ok := r.SubtractFrom(b, s);
    broken := r.Broken();
  }

  method CopyBroken() returns (ok: bool, broken: bool)
    ensures ok && broken
  {
    var r := new Region.Init();
    var b := NewBroken();
    ok := r.Copy(b);
    broken := r.Broken();
  }

  // With the operands of the union exchanged, the call returns FALSE.
  method BrokenUnionWith() returns (ok: bool, broken: bool)
    ensures !ok && broken
  {
    var r := new Region.Init();
    var empty := new Region.Init();
    var b := NewBroken();
    ok := r.UnionWith(b, empty);
    broken := r.Broken();
  }

  // ---------- Whole programs ----------

  datatype Command = Command(op: Overlap, dst: nat, src1: nat, src2: nat)

  type Points = iset<(int, int)>

  ghost function PointsOf(rs: seq<Box>): Points {
    iset x, y | Covers(rs, x, y) :: (x, y)
  }

  ghost function ApplySets(op: Overlap, a: Points, b: Points): Points {
    match op
    case Union => a + b
    case Intersect => a * b
    case Subtract => a - b
  }

  predicate InPool(c: Command, n: nat) {
    c.dst < n && c.src1 < n && c.src2 < n
  }

  // The program run on mathematical sets of points.
  ghost function RunSets(sets: seq<Points>, program: seq<Command>): (r: seq<Points>)
    requires forall i :: 0 <= i < |program| ==> InPool(program[i], |sets|)
    ensures |r| == |sets|
    decreases |program|
  {
    if program == [] then sets
    else
      var c := program[0];
      assert InPool(c, |sets|);
      RunSets(sets[c.dst := ApplySets(c.op, sets[c.src1], sets[c.src2])], program[1..])
  }

  // Regions that share no memory.
  ghost predicate Disjoint(r: Region, s: Region)
    reads r, s
  {
    r != s && r.Apart(s)
  }

  ghost predicate Separate(pool: seq<Region>)
    reads pool
  {
    forall i, j {:trigger Disjoint(pool[i], pool[j])} ::
      0 <= i < |pool| && 0 <= j < |pool| && i != j ==> Disjoint(pool[i], pool[j])
  }

  ghost function Blocks(pool: seq<Region>): set<object>
    reads pool
  {
    set r <- pool | r.data.Rects? :: r.data.block
  }

  // A well-formed region, which holds exactly the set unless it is broken.
  ghost predicate Holding(r: Region, s: Points)
    reads r, r.Owned()
  {
    r.Valid() && (!r.Broken() ==> PointsOf(r.Boxes()) == s)
  }

  twostate lemma {:induction false} Kept(new r: Region, new s: Points)
    requires old(allocated(r)) && old(allocated(s)) && old(Holding(r, s))
    requires r.extents == old(r.extents) && r.data == old(r.data)
    requires r.data.Rects? ==> unchanged(r.data.block)
    ensures Holding(r, s)
  {
  }

  twostate lemma {:induction false} StillDisjoint(new r: Region, new s: Region)
    requires old(allocated(r)) && old(allocated(s)) && old(Disjoint(r, s))
    requires r.data == old(r.data) && s.OwnBlock()
    ensures Disjoint(r, s) && Disjoint(s, r)
  {
  }

  twostate lemma {:induction false} StillSeparate(new pool: seq<Region>, new dst: nat)
    requires old(allocated(pool)) && old(Separate(pool))
    requires dst < |pool| && pool[dst].OwnBlock()
    requires forall i :: 0 <= i < |pool| && i != dst ==> pool[i].data == old(pool[i].data)
    ensures Separate(pool)
  {
    forall i, j | 0 <= i < |pool| && 0 <= j < |pool| && i != j ensures Disjoint(pool[i], pool[j]) {
      assert old(allocated(pool[i])) && old(allocated(pool[j]));
      assert old(Disjoint(pool[i], pool[j])) && old(Disjoint(pool[j], pool[i]));
      if i == dst {
        StillDisjoint(pool[j], pool[i]);
      } else {
        StillDisjoint(pool[i], pool[j]);
      }
    }
  }

  ghost predicate Represents(pool: seq<Region>, sets: seq<Points>)
    reads pool, Blocks(pool)
  {
    |pool| == |sets| && forall i :: 0 <= i < |pool| ==> Holding(pool[i], sets[i])
  }

  ghost predicate NoneBroken(pool: seq<Region>)
    reads pool
  {
    forall i :: 0 <= i < |pool| ==> !pool[i].Broken()
  }

  lemma {:induction false} ResultPoints(op: Overlap, r: seq<Box>, a: seq<Box>, b: seq<Box>)
    requires IsResult(op, r, a, b)
    ensures PointsOf(r) == ApplySets(op, PointsOf(a), PointsOf(b))
  {
  }

  // One operation: a region that is not broken afterwards is the exact result, and
  // it is not broken unless an operand was or an allocation has failed.
  method Operate(op: Overlap, dst: Region, src1: Region, src2: Region)
    requires dst.Valid() && src1.Valid() && src2.Valid() && dst.Apart(src1) && dst.Apart(src2)
    modifies dst, dst.Owned()
    ensures dst.Valid() && dst.OwnBlock() && (dst.failures == old(dst.failures) || dst.RanOut())
    ensures old(src1.Broken() || src2.Broken()) ==> dst.Broken()
    ensures dst.Broken() ==> old(src1.Broken() || src2.Broken()) || dst.RanOut()
    ensures !dst.Broken() ==> PointsOf(dst.Boxes()) == ApplySets(op, PointsOf(old(src1.Boxes())), PointsOf(old(src2.Boxes())))
  {
    ghost var a, b, broken := src1.Boxes(), src2.Boxes(), src1.Broken() || src2.Broken();
    var ok;
    match op {
      case Union => ok := dst.UnionWith(src1, src2);
      case Intersect => ok := dst.IntersectWith(src1, src2);
      case Subtract => ok := dst.SubtractFrom(src1, src2);
    }
    if ok && !broken {
      ResultPoints(op, dst.Boxes(), a, b);
    }
  }

  // One command, whatever the aliasing between its three regions.
  method Execute(pool: seq<Region>, c: Command, ghost sets: seq<Points>)
    requires InPool(c, |pool|) && Represents(pool, sets) && Separate(pool)
    modifies pool[c.dst], pool[c.dst].Owned()
    ensures Represents(pool, sets[c.dst := ApplySets(c.op, sets[c.src1], sets[c.src2])]) && Separate(pool)
    ensures pool[c.dst].OwnBlock() && (pool[c.dst].failures == old(pool[c.dst].failures) || pool[c.dst].RanOut())
    ensures old(NoneBroken(pool)) && pool[c.dst].failures == old(pool[c.dst].failures) ==> NoneBroken(pool)
  {
    var dst, src1, src2 := pool[c.dst], pool[c.src1], pool[c.src2];
    assert dst == src1 || Disjoint(dst, src1);
    assert dst == src2 || Disjoint(dst, src2);
    assert Holding(dst, sets[c.dst]) && Holding(src1, sets[c.src1]) && Holding(src2, sets[c.src2]);
    Operate(c.op, dst, src1, src2);
    ghost var now := sets[c.dst := ApplySets(c.op, sets[c.src1], sets[c.src2])];
    forall i | 0 <= i < |pool| ensures Holding(pool[i], now[i]) && (i != c.dst ==> pool[i].data == old(pool[i].data)) {
      if i != c.dst {
        assert old(Disjoint(dst, pool[i])) && old(Holding(pool[i], sets[i]));
        Kept(pool[i], sets[i]);
      }
    }
    StillSeparate(pool, c.dst);
  }

  // Any program, from any pool of well-formed regions: every region that is not
  // broken at the end is the exact result, and unless one was broken at the start
  // or an allocation has failed (for the regions in `failed`), none is.
  method Run(pool: seq<Region>, program: seq<Command>, ghost sets: seq<Points>) returns (ghost failed: set<nat>)
    requires Represents(pool, sets) && Separate(pool)
    requires forall i :: 0 <= i < |program| ==> InPool(program[i], |pool|)
    modifies pool, Blocks(pool)
    ensures Represents(pool, RunSets(sets, program)) && Separate(pool)
    ensures forall i :: 0 <= i < |pool| ==> pool[i].failures >= old(pool[i].failures)
    ensures forall i :: i in failed ==> i < |pool| && pool[i].RanOut()
    ensures old(NoneBroken(pool)) && failed == {} ==> NoneBroken(pool)
    decreases |program|
  {
    failed := {};
    if program != [] {
      var c := program[0];
      assert InPool(c, |pool|) && pool[c.dst] in pool;
      Execute(pool, c, sets);
      ghost var now := if pool[c.dst].failures > old(pool[c.dst].failures) then {c.dst} else {};
      failed := Run(pool, program[1..], sets[c.dst := ApplySets(c.op, sets[c.src1], sets[c.src2])]);
      failed := failed + now;
    }
  }
}
