// The words of a bitmap (common/set_int.c): single bits of them, and the first
// bit that is set from a position on.
module BitWords {
  const BITS_PER_WORD := 32

  // A word is its bits, the lowest first.
  type Word = w: seq<bool> | |w| == 32 witness seq(32, _ => false)

  const ZERO: Word := seq(32, _ => false)
  const ONES: Word := seq(32, _ => true) // all bytes 0xff

  predicate IsZero(w: Word) {
    true !in w
  }

  // w >> bit
  function Shifted(w: Word, bit: nat): Word
    requires bit <= 32
  {
    seq(32, i requires 0 <= i < 32 => i + bit < 32 && w[i + bit])
  }

  // Whether the bit at position p is set.
  predicate In(words: seq<Word>, p: nat)
    requires p < BITS_PER_WORD * |words|
  {
    words[p / BITS_PER_WORD][p % BITS_PER_WORD]
  }

  // Writing the bit at position p changes nothing else.
  lemma {:induction false} UpdatedIn(words: seq<Word>, p: nat, b: bool, q: nat)
    requires p < BITS_PER_WORD * |words| && q < BITS_PER_WORD * |words|
    ensures var i := p / BITS_PER_WORD;
            In(words[i := words[i][p % BITS_PER_WORD := b]], q) == if q == p then b else In(words, q)
  {
    if q / BITS_PER_WORD == p / BITS_PER_WORD && q % BITS_PER_WORD == p % BITS_PER_WORD {
      assert q == p;
    }
  }

  // The first position from p on that is set, or the end.
  function First(words: seq<Word>, p: nat): (q: nat)
    requires p <= BITS_PER_WORD * |words|
    ensures p <= q <= BITS_PER_WORD * |words|
    ensures q < BITS_PER_WORD * |words| ==> In(words, q)
    decreases BITS_PER_WORD * |words| - p
  {
    if p == BITS_PER_WORD * |words| || In(words, p) then p else First(words, p + 1)
  }

  lemma {:induction false} NoneBefore(words: seq<Word>, p: nat, q: nat)
    requires p <= BITS_PER_WORD * |words| && p <= q < First(words, p)
    ensures !In(words, q)
    decreases q - p
  {
    if p < q {
      NoneBefore(words, p + 1, q);
    }
  }

  // A word that is zero from a bit on is passed over.
  lemma {:induction false} PassOver(words: seq<Word>, i: nat, bit: nat)
    requires i < |words| && bit < BITS_PER_WORD && IsZero(Shifted(words[i], bit))
    ensures First(words, i * BITS_PER_WORD + bit) == First(words, (i + 1) * BITS_PER_WORD)
    decreases BITS_PER_WORD - bit
  {
    assert words[i][bit] == Shifted(words[i], bit)[0];
    assert !In(words, i * BITS_PER_WORD + bit);
    if bit < 31 {
      ShiftOne(words[i], bit);
      PassOver(words, i, bit + 1);
    }
  }

  lemma {:induction false} PassZero(words: seq<Word>, i: nat)
    requires i < |words| && IsZero(words[i])
    ensures First(words, i * BITS_PER_WORD) == First(words, (i + 1) * BITS_PER_WORD)
  {
    assert Shifted(words[i], 0) == words[i];
    PassOver(words, i, 0);
  }

  // A bit that is not set is passed over, and leaves some that are.
  lemma {:induction false} PassBit(words: seq<Word>, i: nat, bit: nat)
    requires i < |words| && bit < BITS_PER_WORD
    requires !IsZero(Shifted(words[i], bit)) && !Shifted(words[i], bit)[0]
    ensures bit + 1 < BITS_PER_WORD && !IsZero(Shifted(words[i], bit + 1))
    ensures Shifted(Shifted(words[i], bit), 1) == Shifted(words[i], bit + 1)
    ensures First(words, i * BITS_PER_WORD + bit) == First(words, i * BITS_PER_WORD + (bit + 1))
  {
    ShiftOne(words[i], bit);
    assert !In(words, i * BITS_PER_WORD + bit);
  }

  lemma {:induction false} FoundBit(words: seq<Word>, i: nat, bit: nat)
    requires i < |words| && bit < BITS_PER_WORD && Shifted(words[i], bit)[0]
    ensures First(words, i * BITS_PER_WORD + bit) == i * BITS_PER_WORD + bit
  {
    assert In(words, i * BITS_PER_WORD + bit);
  }

  lemma {:induction false} ShiftOne(w: Word, bit: nat)
    requires bit < 32
    ensures Shifted(Shifted(w, bit), 1) == Shifted(w, bit + 1)
    ensures IsZero(Shifted(w, bit)) ==> IsZero(Shifted(w, bit + 1))
    ensures !IsZero(Shifted(w, bit)) && !w[bit] ==> bit < 31 && !IsZero(Shifted(w, bit + 1))
  {
    var s, t := Shifted(w, bit), Shifted(w, bit + 1);
    assert forall i :: 0 <= i < 31 ==> t[i] == s[i + 1];
    if !IsZero(s) && !w[bit] {
      var i :| 0 <= i < 32 && s[i];
      assert t[i - 1];
    }
  }
}
