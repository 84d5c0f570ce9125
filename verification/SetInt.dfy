// common/set_int.c: a set of integers in [min, max] as a bitmap.
module SetInt {
  import opened BitWords

  const INT_MAX := 0x7fff_ffff

  // What an int holds after arithmetic in size_t.
  function ToInt(x: int): int {
    (x + 0x8000_0000) % 0x1_0000_0000 - 0x8000_0000
  }

  function WordCount(min: int, max: int): nat
    requires min <= max
  {
    (max - min) / BITS_PER_WORD + 1
  }

  // The members of [min, max] that a bitmap stands for.
  predicate Has(words: seq<Word>, min: int, max: int, v: int)
    requires min <= max && |words| == WordCount(min, max)
  {
    min <= v <= max && In(words, v - min)
  }

  // What set_int_get_next answers after `val`.
  function Next(words: seq<Word>, min: int, max: int, val: int): (r: (bool, int))
    requires min <= max && |words| == WordCount(min, max)
  {
    if val >= max then (false, val)
    else
      var p := First(words, if val < min then 0 else val + 1 - min);
      if p == BITS_PER_WORD * |words| then (false, val)
      else if ToInt(min + p) <= max then (true, ToInt(min + p))
      else (false, val)
  }

  // The right answer after `val`: the least member above it, or none.
  ghost predicate LeastAbove(words: seq<Word>, min: int, max: int, val: int, r: (bool, int))
    requires min <= max && |words| == WordCount(min, max)
  {
    if r.0 then
      val < r.1 && Has(words, min, max, r.1) && forall v :: val < v < r.1 ==> !Has(words, min, max, v)
    else
      r.1 == val && forall v :: val < v ==> !Has(words, min, max, v)
  }

  // The bits above max, which only the *_all operations write, are all alike.
  predicate SpareAlike(words: seq<Word>, min: int, max: int)
    requires min <= max && |words| == WordCount(min, max)
  {
    forall p: nat :: max - min < p < BITS_PER_WORD * |words| ==>
      In(words, p) == In(words, BITS_PER_WORD * |words| - 1)
  }

  // Whether the value after max, if there is a bit for it, is an int.
  predicate SpareFits(min: int, max: int) {
    max < INT_MAX || (max - min) % BITS_PER_WORD == BITS_PER_WORD - 1
  }

  // If a spare bit is the first one set then it is the first of them.
  lemma {:induction false} SpareFirst(words: seq<Word>, min: int, max: int, start: nat)
    requires min <= max && |words| == WordCount(min, max) && SpareAlike(words, min, max)
    requires start <= max - min
    ensures First(words, start) <= max - min + 1 || First(words, start) == BITS_PER_WORD * |words|
  {
    if max - min + 1 < First(words, start) < BITS_PER_WORD * |words| {
      NoneBefore(words, start, max - min + 1);
    }
  }

  lemma {:induction false} NextIsLeast(words: seq<Word>, min: int, max: int, val: int)
    requires -0x8000_0000 <= min <= max <= INT_MAX && |words| == WordCount(min, max)
    requires SpareAlike(words, min, max) && SpareFits(min, max)
    ensures LeastAbove(words, min, max, val, Next(words, min, max, val))
  {
    if val < max {
      var start := if val < min then 0 else val + 1 - min;
      NoMemberBefore(words, min, max, val, start);
      SpareFirst(words, min, max, start);
    }
  }

  lemma {:induction false} NoMemberBefore(words: seq<Word>, min: int, max: int, val: int, start: nat)
    requires min <= max && |words| == WordCount(min, max) && start <= max - min
    requires start == if val < min then 0 else val + 1 - min
    ensures forall v :: val < v < min + First(words, start) ==> !Has(words, min, max, v)
  {
    forall v | val < v < min + First(words, start)
      ensures !Has(words, min, max, v)
    {
      if min <= v <= max {
        NoneBefore(words, start, v - min);
      }
    }
  }

  // All bits but those of the members.
  function OnlySpare(min: int, max: int): (words: seq<Word>)
    requires min <= max
    ensures |words| == WordCount(min, max)
  {
    seq(WordCount(min, max), i requires 0 <= i < WordCount(min, max) =>
      seq(32, j requires 0 <= j < 32 => i * BITS_PER_WORD + j > max - min))
  }

  // A spare bit left by set_int_add_all can be taken for a member: an empty set
  // answers with the least int.
  lemma {:induction false} NextWraps(min: int, max: int) returns (words: seq<Word>)
    requires -0x8000_0000 <= min <= max <= INT_MAX && !SpareFits(min, max)
    ensures |words| == WordCount(min, max) && SpareAlike(words, min, max)
    ensures forall v :: !Has(words, min, max, v)
    ensures Next(words, min, max, max - 1) == (true, -0x8000_0000)
  {
    words := OnlySpare(min, max);
    forall p: nat | p < BITS_PER_WORD * |words|
      ensures In(words, p) == (p > max - min)
    {
      assert p / BITS_PER_WORD * BITS_PER_WORD + p % BITS_PER_WORD == p;
    }
    assert First(words, max - min) == First(words, max - min + 1) == max - min + 1;
  }

  // For a given range every bitmap is answered for rightly if and only if
  // SpareFits holds of the range.
  lemma {:induction false} NextRightIff(min: int, max: int)
    requires -0x8000_0000 <= min <= max <= INT_MAX
    ensures SpareFits(min, max) <==>
      forall words: seq<Word>, val: int | |words| == WordCount(min, max) && SpareAlike(words, min, max) ::
        LeastAbove(words, min, max, val, Next(words, min, max, val))
  {
    if SpareFits(min, max) {
      forall words: seq<Word>, val: int | |words| == WordCount(min, max) && SpareAlike(words, min, max)
        ensures LeastAbove(words, min, max, val, Next(words, min, max, val))
      {
        NextIsLeast(words, min, max, val);
      }
    } else {
      var words := NextWraps(min, max);
      assert !LeastAbove(words, min, max, max - 1, Next(words, min, max, max - 1));
    }
  }

  class IntSet {
    const min: int
    const max: int
    const bits: array<Word>

    // set_int_init for a range that is not empty
    constructor (min: int, max: int)
      requires min <= max
      ensures Valid() && fresh(bits) && this.min == min && this.max == max
      ensures forall v :: !Contents(v)
    {
      this.min, this.max := min, max;
      bits := new Word[(max - min) / BITS_PER_WORD + 1](_ => ZERO);
    }

    predicate Valid()
      reads this, bits
    {
      && min <= max && bits.Length == WordCount(min, max)
      && SpareAlike(bits[..], min, max)
    }

    predicate Contents(v: int)
      requires Valid()
      reads this, bits
    {
      Has(bits[..], min, max, v)
    }

    // set_int_add
    method Add(val: int)
      requires Valid()
      modifies bits
      ensures Valid()
      ensures forall v :: Contents(v) == (old(Contents(v)) || (v == val && min <= val <= max))
    {
      if min <= val && val <= max {
        Write(val, true);
      }
    }

    // set_int_remove
    method Remove(val: int)
      requires Valid()
      modifies bits
      ensures Valid()
      ensures forall v :: Contents(v) == (old(Contents(v)) && v != val)
    {
      if min <= val && val <= max {
        Write(val, false);
      }
    }

    // The word of val with its bit set by |= or cleared by &=.
    method Write(val: int, b: bool)
      requires Valid() && min <= val <= max
      modifies bits
      ensures Valid()
      ensures forall v :: Contents(v) == if v == val then b else old(Contents(v))
    {
      var index, bit := (val - min) / BITS_PER_WORD, (val - min) % BITS_PER_WORD;
      ghost var was := bits[..];
      bits[index] := bits[index][bit := b];
      assert bits[..] == was[index := was[index][bit := b]];
      forall q: nat | q < BITS_PER_WORD * |was|
        ensures In(bits[..], q) == if q == val - min then b else In(was, q)
      {
        UpdatedIn(was, val - min, b, q);
      }
    }

    // set_int_contains
    method ContainsValue(val: int) returns (result: bool)
      requires Valid()
      ensures result == Contents(val)
    {
      result := false;
      if min <= val && val <= max {
        var index, bit := (val - min) / BITS_PER_WORD, (val - min) % BITS_PER_WORD;
        result := bits[index][bit];
      }
    }

    // set_int_add_all
    method AddAll()
      requires Valid()
      modifies bits
      ensures Valid()
      ensures forall v :: Contents(v) == (min <= v <= max)
    {
      forall i | 0 <= i < bits.Length {
        bits[i] := ONES;
      }
    }

    // set_int_remove_all
    method RemoveAll()
      requires Valid()
      modifies bits
      ensures Valid()
      ensures forall v :: !Contents(v)
    {
      forall i | 0 <= i < bits.Length {
        bits[i] := ZERO;
      }
    }

    // set_int_get_next
    method GetNext(val: int) returns (result: bool, next: int)
      requires Valid()
      ensures (result, next) == Next(bits[..], min, max, val)
    {
      next := val;
      if val >= max {
        return false, val;
      }
      // work out the next likely value
      var likely := if val < min then min else val + 1;
      var p := FirstBit(likely - min);
      if p == BITS_PER_WORD * bits.Length {
        return false, val;
      }
      // the index and bit of the next set bit turned back into a value
      var value := ToInt(min + p);
      result := value <= max;
      if result {
        next := value;
      }
    }

    // The search of set_int_get_next, through the words and in the word found.
    method FirstBit(start: nat) returns (p: nat)
      requires start < BITS_PER_WORD * bits.Length
      ensures p == First(bits[..], start)
    {
      var index, bit := start / BITS_PER_WORD, start % BITS_PER_WORD;
      var w := Shifted(bits[index], bit);
      if IsZero(w) {
        PassOver(bits[..], index, bit);
        index := FirstWord(index + 1);
        if index >= bits.Length {
          return BITS_PER_WORD * bits.Length;
        }
        bit := 0;
        assert Shifted(bits[index], 0) == bits[index];
      }
      p := FirstInWord(index, bit);
    }

    method FirstWord(from: nat) returns (index: nat)
      requires from <= bits.Length
      ensures index <= bits.Length && (index < bits.Length ==> !IsZero(bits[index]))
      ensures First(bits[..], from * BITS_PER_WORD) == First(bits[..], index * BITS_PER_WORD)
    {
      index := from;
      while index < bits.Length && IsZero(bits[index])
        invariant index <= bits.Length
        invariant First(bits[..], from * BITS_PER_WORD) == First(bits[..], index * BITS_PER_WORD)
      {
        PassZero(bits[..], index);
        index := index + 1;
      }
    }

    // The word has at least one bit set from `from` on.
    method FirstInWord(index: nat, from: nat) returns (p: nat)
      requires index < bits.Length && from < BITS_PER_WORD && !IsZero(Shifted(bits[index], from))
      ensures p == First(bits[..], index * BITS_PER_WORD + from)
    {
      ghost var words, at := bits[..], First(bits[..], index * BITS_PER_WORD + from);
      var bit, word, w := from, bits[index], Shifted(bits[index], from);
      assert word == words[index];
      while !w[0]
        invariant bit < BITS_PER_WORD && w == Shifted(word, bit) && !IsZero(w)
        invariant at == First(words, index * BITS_PER_WORD + bit)
        decreases BITS_PER_WORD - bit
      {
        PassBit(words, index, bit);
        w := Shifted(w, 1);
        bit := bit + 1;
      }
      FoundBit(words, index, bit);
      return index * BITS_PER_WORD + bit;
    }

    // Asking for one member after the other from below min lists all of them in
    // increasing order, and comes to an end.
    method Members() returns (members: seq<int>)
      requires Valid() && -0x8000_0000 <= min && max <= INT_MAX && SpareFits(min, max)
      ensures forall i, j :: 0 <= i < j < |members| ==> members[i] < members[j]
      ensures forall v :: v in members <==> Contents(v)
    {
      members := [];
      var at, more := min - 1, true;
      while more
        invariant at <= max || !more
        invariant members == [] || members[|members| - 1] <= at
        invariant forall i, j :: 0 <= i < j < |members| ==> members[i] < members[j]
        invariant forall v :: v in members <==> Contents(v) && v <= at
        invariant !more ==> forall v :: v > at ==> !Contents(v)
        decreases if more then 1 else 0, max - at
      {
        NextIsLeast(bits[..], min, max, at);
        var next;
        more, next := GetNext(at);
        if more {
          members := members + [next];
          at := next;
        }
      }
    }
  }
}
