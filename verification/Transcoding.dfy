// Whole strings: UTF-8 and UTF-16LE decoding and encoding, the sanitising round
// trip between them, bounded output, and editing a string in place.
module Transcoding {
  import opened Unicode

  // ---------- UTF-8 strings ----------

  function DecodeUtf8(s: seq<Byte>): seq<Char32>
    decreases |s|
  {
    if s == [] then [] else [NextChar(s).c] + DecodeUtf8(s[NextChar(s).len..])
  }

  function EncodeUtf8(cs: seq<Char32>): seq<Byte> {
    if cs == [] then [] else EncodeChar(cs[0]) + EncodeUtf8(cs[1..])
  }

  predicate AllValid(cs: seq<Char32>) {
    cs == [] || (!Invalid(cs[0]) && AllValid(cs[1..]))
  }

  function SanitizeAll(cs: seq<Char32>): seq<Char32> {
    if cs == [] then [] else [Sanitize(cs[0])] + SanitizeAll(cs[1..])
  }

  // The string with every ill-formed sequence replaced.
  function SanitizeUtf8(s: seq<Byte>): seq<Byte> {
    EncodeUtf8(DecodeUtf8(s))
  }

  // The string is the encoding of some characters that may be exchanged.
  ghost predicate WellFormedUtf8(s: seq<Byte>) {
    exists cs :: AllValid(cs) && s == EncodeUtf8(cs)
  }

  lemma {:induction false} DecodedAllValid(s: seq<Byte>)
    ensures AllValid(DecodeUtf8(s))
    decreases |s|
  {
    if s != [] {
      NextCharValid(s);
      DecodedAllValid(s[NextChar(s).len..]);
    }
  }

  lemma {:induction false} SanitizeValid(cs: seq<Char32>)
    requires AllValid(cs)
    ensures SanitizeAll(cs) == cs
  {
    if cs != [] {
      SanitizeValid(cs[1..]);
    }
  }

  // Decoding an encoded string gives back its sanitised characters.
  lemma {:induction false} DecodeEncodedUtf8(cs: seq<Char32>)
    ensures DecodeUtf8(EncodeUtf8(cs)) == SanitizeAll(cs)
  {
    if cs != [] {
      var e, rest := EncodeChar(cs[0]), EncodeUtf8(cs[1..]);
      DecodeEncoded(cs[0], rest);
      assert (e + rest)[|e|..] == rest;
      DecodeEncodedUtf8(cs[1..]);
    }
  }

  // Sanitising goes sequence by sequence: what decodes is kept byte for byte,
  // and what does not is replaced by the three bytes of U+FFFD.
  lemma {:induction false} SanitizeSequence(s: seq<Byte>)
    requires s != []
    ensures SanitizeUtf8(s) == (if NextChar(s).c == REPLACEMENT then [0xef, 0xbf, 0xbd] else s[..NextChar(s).len])
                               + SanitizeUtf8(s[NextChar(s).len..])
  {
    if NextChar(s).c == REPLACEMENT {
      assert EncodeChar(REPLACEMENT) == [0xef, 0xbf, 0xbd];
    } else {
      EncodeDecoded(s);
    }
  }

  lemma {:induction false} SanitizeIdempotent(s: seq<Byte>)
    ensures SanitizeUtf8(SanitizeUtf8(s)) == SanitizeUtf8(s)
    ensures WellFormedUtf8(SanitizeUtf8(s))
  {
    var cs := DecodeUtf8(s);
    DecodedAllValid(s);
    DecodeEncodedUtf8(cs);
    SanitizeValid(cs);
  }

  // Sanitising changes nothing exactly on well-formed strings.
  lemma {:induction false} SanitizeIdentity(s: seq<Byte>)
    ensures SanitizeUtf8(s) == s <==> WellFormedUtf8(s)
  {
    SanitizeIdempotent(s);
    if WellFormedUtf8(s) {
      var cs :| AllValid(cs) && s == EncodeUtf8(cs);
      DecodeEncodedUtf8(cs);
      SanitizeValid(cs);
    }
  }

  // ---------- UTF-16LE ----------

  function LittleEndian(w: Char16): seq<Byte> { [w % 0x100, w / 0x100] }

  function Word(s: seq<Byte>): Char16
    requires |s| >= 2
  {
    s[1] as int * 0x100 + s[0]
  }

  // The words written for one character: a surrogate pair starts with the high one.
  function Words(c: Char32): seq<Char16> {
    if c < 0x10000 then [c] else [HighSurrogate(c), LowSurrogate(c)]
  }

  function WordBytes(ws: seq<Char16>): seq<Byte> {
    if ws == [] then [] else LittleEndian(ws[0]) + WordBytes(ws[1..])
  }

  function EncodeUtf16(cs: seq<Char32>): seq<Byte> {
    if cs == [] then [] else WordBytes(Words(cs[0])) + EncodeUtf16(cs[1..])
  }

  // utf8_as_utf16_word_count
  function WordCount(cs: seq<Char32>): nat {
    if cs == [] then 0 else |Words(cs[0])| + WordCount(cs[1..])
  }

  // get_c32_from_stream. A low surrogate that does not follow is left unread.
  function NextC32(s: seq<Byte>): (d: Decoded)
    requires |s| >= 2
    ensures 2 <= d.len <= |s|
  {
    var w := Word(s);
    if IsHighSurrogate(w) then
      if |s| >= 4 && IsLowSurrogate(Word(s[2..])) then Decoded(FromSurrogatePair(Word(s[2..]), w), 4)
      else Decoded(REPLACEMENT, 2)
    else if IsLowSurrogate(w) || IsPlaneEndNonCharacter(w) || IsArabicNonCharacter(w) then Decoded(REPLACEMENT, 2)
    else Decoded(w, 2)
  }

  function DecodeUtf16(s: seq<Byte>): seq<Char32>
    decreases |s|
  {
    if |s| < 2 then [] else [NextC32(s).c] + DecodeUtf16(s[NextC32(s).len..])
  }

  lemma {:induction false} WordsBytes(c: Char32)
    ensures |WordBytes(Words(c))| == 2 * |Words(c)|
    ensures c < 0x10000 ==> WordBytes(Words(c)) == LittleEndian(c)
    ensures c >= 0x10000 ==> WordBytes(Words(c)) == LittleEndian(HighSurrogate(c)) + LittleEndian(LowSurrogate(c))
  {
    var ws := Words(c);
    assert ws[1..] == if c < 0x10000 then [] else [ws[1]];
    if c >= 0x10000 {
      assert [ws[1]][1..] == [];
      assert WordBytes([ws[1]]) == LittleEndian(ws[1]);
    }
  }

  // The output takes exactly two bytes a word.
  lemma {:induction false} EncodedUtf16Length(cs: seq<Char32>)
    ensures |EncodeUtf16(cs)| == 2 * WordCount(cs)
  {
    if cs != [] {
      WordsBytes(cs[0]);
      EncodedUtf16Length(cs[1..]);
    }
  }

  lemma {:induction false} SurrogatePairInverse(c: Char32)
    requires 0x10000 <= c <= 0x10ffff
    ensures IsHighSurrogate(HighSurrogate(c)) && IsLowSurrogate(LowSurrogate(c))
    ensures FromSurrogatePair(LowSurrogate(c), HighSurrogate(c)) == c
  {
  }

  lemma {:induction false} NextC32Encoded(c: Char32, rest: seq<Byte>)
    requires !Invalid(c)
    ensures NextC32(WordBytes(Words(c)) + rest) == Decoded(c, |WordBytes(Words(c))|)
  {
    WordsBytes(c);
    if c < 0x10000 {
      WordRead(c, rest);
      ReadWord(c, LittleEndian(c) + rest);
    } else {
      var high, low := LittleEndian(HighSurrogate(c)), LittleEndian(LowSurrogate(c));
      assert (high + low) + rest == high + (low + rest);
      WordRead(HighSurrogate(c), low + rest);
      WordRead(LowSurrogate(c), rest);
      ReadPair(c, high + (low + rest));
    }
  }

  lemma {:induction false} ReadWord(c: Char16, s: seq<Byte>)
    requires |s| >= 2 && Word(s) == c && !Invalid(c)
    ensures NextC32(s) == Decoded(c, 2)
  {
  }

  lemma {:induction false} ReadPair(c: Char32, s: seq<Byte>)
    requires 0x10000 <= c <= 0x10ffff && |s| >= 4 && Word(s) == HighSurrogate(c) && Word(s[2..]) == LowSurrogate(c)
    ensures NextC32(s) == Decoded(c, 4)
  {
    SurrogatePairInverse(c);
  }

  // A word that has been written is read back.
  lemma {:induction false} WordRead(w: Char16, rest: seq<Byte>)
    ensures |LittleEndian(w)| == 2 && Word(LittleEndian(w) + rest) == w && (LittleEndian(w) + rest)[2..] == rest
  {
    assert (LittleEndian(w) + rest)[0] == w % 0x100 && (LittleEndian(w) + rest)[1] == w / 0x100;
  }

  lemma {:induction false} DecodeEncodedUtf16(cs: seq<Char32>)
    requires AllValid(cs)
    ensures DecodeUtf16(EncodeUtf16(cs)) == cs
  {
    if cs != [] {
      var e, rest := WordBytes(Words(cs[0])), EncodeUtf16(cs[1..]);
      NextC32Encoded(cs[0], rest);
      assert (e + rest)[|e|..] == rest;
      DecodeEncodedUtf16(cs[1..]);
    }
  }

  // UTF-8 to UTF-16LE and back sanitises the string, for any bytes.
  lemma {:induction false} RoundTrip(s: seq<Byte>)
    ensures EncodeUtf8(DecodeUtf16(EncodeUtf16(DecodeUtf8(s)))) == SanitizeUtf8(s)
  {
    DecodedAllValid(s);
    DecodeEncodedUtf16(DecodeUtf8(s));
  }

  // Reading UTF-16 lets an invalid character through exactly when a plane-end
  // non-character is written as a surrogate pair: the test that should stop it
  // looks at another variable.
  lemma {:induction false} NextC32Invalid(s: seq<Byte>)
    requires |s| >= 2
    ensures Invalid(NextC32(s).c) <==>
            (&& |s| >= 4 && IsHighSurrogate(Word(s)) && IsLowSurrogate(Word(s[2..]))
             && IsPlaneEndNonCharacter(FromSurrogatePair(Word(s[2..]), Word(s))))
  {
  }

  lemma {:induction false} NextC32InvalidExample()
    ensures NextC32([0x3f, 0xd8, 0xfe, 0xdf]) == Decoded(0x1fffe, 4) && Invalid(0x1fffe)
  {
    assert [0x3f, 0xd8, 0xfe, 0xdf][2..] == [0xfe, 0xdf];
  }

  // It is replaced when it is written as UTF-8: from any UTF-16 input the output
  // is well formed, and reads as the sanitised characters.
  lemma {:induction false} Utf16ToUtf8Valid(s: seq<Byte>)
    ensures WellFormedUtf8(EncodeUtf8(DecodeUtf16(s)))
    ensures DecodeUtf8(EncodeUtf8(DecodeUtf16(s))) == SanitizeAll(DecodeUtf16(s))
  {
    var cs := DecodeUtf16(s);
    DecodeEncodedUtf8(cs);
    EncodeSanitized(cs);
    DecodedAllValid(EncodeUtf8(cs));
  }

  lemma {:induction false} EncodeSanitized(cs: seq<Char32>)
    ensures EncodeUtf8(SanitizeAll(cs)) == EncodeUtf8(cs)
  {
    if cs != [] {
      EncodeSanitized(cs[1..]);
      assert EncodeChar(Sanitize(cs[0])) == EncodeChar(cs[0]);
    }
  }

  // ---------- Bounded output ----------

  // What fits in a buffer of vn bytes with a terminator: once a character does
  // not fit, no later one is written either.
  function Fit(cs: seq<Char32>, vn: nat): seq<Byte> {
    if cs == [] || |EncodeChar(cs[0])| + 1 > vn then []
    else EncodeChar(cs[0]) + Fit(cs[1..], vn - |EncodeChar(cs[0])|)
  }

  // The output is the longest prefix of whole characters that fits.
  lemma {:induction false} FitLongest(cs: seq<Char32>, vn: nat) returns (k: nat)
    ensures k <= |cs| && Fit(cs, vn) == EncodeUtf8(cs[..k])
    ensures vn > 0 ==> |Fit(cs, vn)| + 1 <= vn
    ensures k < |cs| ==> |EncodeUtf8(cs[..k + 1])| + 1 > vn
  {
    if cs == [] || |EncodeChar(cs[0])| + 1 > vn {
      k := 0;
      if cs != [] {
        assert cs[..1] == [cs[0]] && cs[..1][1..] == [];
        assert EncodeUtf8(cs[..1]) == EncodeChar(cs[0]) + EncodeUtf8([]);
      }
    } else {
      var k' := FitLongest(cs[1..], vn - |EncodeChar(cs[0])|);
      k := k' + 1;
      assert cs[..k][1..] == cs[1..][..k'];
      if k < |cs| {
        assert cs[..k + 1][1..] == cs[1..][..k' + 1];
      }
    }
  }

  // Nothing is lost exactly when the whole string and its terminator fit.
  lemma {:induction false} FitComplete(cs: seq<Char32>, vn: nat)
    ensures Fit(cs, vn) == EncodeUtf8(cs) && vn > 0 <==> |EncodeUtf8(cs)| + 1 <= vn
  {
    if cs != [] {
      var e := EncodeChar(cs[0]);
      if |e| + 1 <= vn {
        FitComplete(cs[1..], vn - |e|);
        assert (e + Fit(cs[1..], vn - |e|))[|e|..] == Fit(cs[1..], vn - |e|);
        assert (e + EncodeUtf8(cs[1..]))[|e|..] == EncodeUtf8(cs[1..]);
      }
    }
  }

  // Characters up to the first NUL.
  function UntilNul(cs: seq<Char32>): seq<Char32> {
    if cs == [] || cs[0] == 0 then [] else [cs[0]] + UntilNul(cs[1..])
  }

  lemma {:induction false} UntilNulIs(cs: seq<Char32>)
    ensures UntilNul(cs) <= cs && 0 !in UntilNul(cs)
    ensures UntilNul(cs) == cs || cs[|UntilNul(cs)|] == 0
  {
    if cs != [] && cs[0] != 0 {
      UntilNulIs(cs[1..]);
      assert cs == [cs[0]] + cs[1..];
    }
  }

  // ---------- Editing ----------

  // The byte position of character number `index`, or the end of the string.
  function Walk(s: seq<Byte>, index: nat): (pos: nat)
    ensures pos <= |s|
    decreases index
  {
    if index == 0 || s == [] then 0
    else NextChar(s).len + Walk(s[NextChar(s).len..], index - 1)
  }

  function InsertAt(s: seq<Byte>, c: Char32, index: nat): seq<Byte> {
    s[..Walk(s, index)] + EncodeChar(c) + s[Walk(s, index)..]
  }

  function RemoveAt(s: seq<Byte>, index: nat): seq<Byte>
    requires Walk(s, index) < |s|
  {
    var pos := Walk(s, index);
    s[..pos] + s[pos + NextChar(s[pos..]).len..]
  }

  // A run of continuation bytes does not depend on what follows its end.
  lemma {:induction false} ContinuationsLocal(e: seq<Byte>, r1: seq<Byte>, r2: seq<Byte>, n: nat)
    requires Continuations(e + r1, n) <= |e|
    requires r2 != [] ==> !IsContinuation(r2[0])
    ensures Continuations(e + r2, n) == Continuations(e + r1, n)
    decreases n
  {
    if n > 0 && e != [] {
      assert (e + r1)[1..] == e[1..] + r1 && (e + r2)[1..] == e[1..] + r2;
      if IsContinuation(e[0]) {
        ContinuationsLocal(e[1..], r1, r2, n - 1);
      }
    } else if n > 0 {
      assert e + r1 == r1 && e + r2 == r2;
    }
  }

  // A character read within e is read the same whatever follows e, unless a
  // continuation byte does.
  lemma {:induction false} NextCharLocal(e: seq<Byte>, r1: seq<Byte>, r2: seq<Byte>)
    requires e != [] && NextChar(e + r1).len <= |e|
    requires r2 != [] ==> !IsContinuation(r2[0])
    ensures NextChar(e + r2) == NextChar(e + r1)
  {
    assert (e + r1)[1..] == e[1..] + r1 && (e + r2)[1..] == e[1..] + r2;
    var lead := LeadOf(e[0]);
    if lead.Multi? {
      ContinuationsLocal(e[1..], r1, r2, lead.n);
      var k := Continuations(e[1..] + r1, lead.n);
      assert k == lead.n ==> (e + r1)[1..k + 1] == (e + r2)[1..k + 1];
    }
  }

  // Walking over e stays the same when the bytes after it change.
  lemma {:induction false} WalkLocal(e: seq<Byte>, r1: seq<Byte>, r2: seq<Byte>, index: nat)
    requires index <= |DecodeUtf8(e + r1)| && Walk(e + r1, index) == |e|
    requires r2 != [] ==> !IsContinuation(r2[0])
    ensures Walk(e + r2, index) == |e|
    ensures |DecodeUtf8(e + r2)| == index + |DecodeUtf8(r2)|
    decreases index
  {
    if index == 0 {
      assert e + r2 == r2;
    } else {
      var len := NextChar(e + r1).len;
      NextCharLocal(e, r1, r2);
      WalkStep(e, r1, index);
      WalkStep(e, r2, index);
      WalkLocal(e[len..], r1, r2, index - 1);
    }
  }

  // The first step, over a character within e.
  lemma {:induction false} WalkStep(e: seq<Byte>, r: seq<Byte>, index: nat)
    requires e != [] && index > 0 && NextChar(e + r).len <= |e|
    ensures var len := NextChar(e + r).len;
            && Walk(e + r, index) == len + Walk(e[len..] + r, index - 1)
            && |DecodeUtf8(e + r)| == 1 + |DecodeUtf8(e[len..] + r)|
  {
    var len := NextChar(e + r).len;
    assert (e + r)[len..] == e[len..] + r;
  }

  // It passes `index` characters.
  lemma {:induction false} WalkCounts(s: seq<Byte>, index: nat)
    requires index <= |DecodeUtf8(s)|
    ensures |DecodeUtf8(s)| == index + |DecodeUtf8(s[Walk(s, index)..])|
    decreases index
  {
    if index == 0 {
      assert s[0..] == s;
    } else {
      var len := NextChar(s).len;
      WalkCounts(s[len..], index - 1);
      assert s[len..][Walk(s, index) - len..] == s[Walk(s, index)..];
    }
  }

  lemma {:induction false} EncodeStart(c: Char32)
    ensures !IsContinuation(EncodeChar(c)[0])
    ensures Sanitize(c) != 0 ==> forall i :: 0 <= i < |EncodeChar(c)| ==> EncodeChar(c)[i] != 0
  {
  }

  // Inserting a character and removing the one at the same index restores the
  // string, even a malformed one; in between it has one character more.
  lemma {:induction false} InsertThenRemove(s: seq<Byte>, c: Char32, index: nat)
    requires index <= |DecodeUtf8(s)|
    ensures var t := InsertAt(s, c, index);
            && |DecodeUtf8(t)| == |DecodeUtf8(s)| + 1
            && Walk(t, index) < |t|
            && NextChar(t[Walk(t, index)..]).c == Sanitize(c)
            && RemoveAt(t, index) == s
  {
    var pos, e := Walk(s, index), EncodeChar(c);
    var front, back := s[..pos], s[pos..];
    EncodeStart(c);
    assert s == front + back && InsertAt(s, c, index) == front + (e + back);
    WalkLocal(front, back, e + back, index);
    WalkCounts(s, index);
    InsertedFirst(c, back);
    assert (front + (e + back))[pos..] == e + back;
    assert (front + (e + back))[pos + |e|..] == back && (front + (e + back))[..pos] == front;
  }

  // In characters, an insertion puts the sanitised character at the index and changes
  // no other, in a malformed string too.
  lemma {:induction false} InsertedCharacters(s: seq<Byte>, c: Char32, index: nat)
    requires index <= |DecodeUtf8(s)|
    ensures var cs := DecodeUtf8(s); DecodeUtf8(InsertAt(s, c, index)) == cs[..index] + [Sanitize(c)] + cs[index..]
  {
    var pos, e := Walk(s, index), EncodeChar(c);
    var front, back := s[..pos], s[pos..];
    EncodeStart(c);
    assert s == front + back && InsertAt(s, c, index) == front + (e + back);
    CharactersLocal(front, back, e + back, index);
    InsertedTail(c, back);
    Regroup(DecodeUtf8(s)[..index], [Sanitize(c)], DecodeUtf8(back));
  }

  lemma {:induction false} InsertedTail(c: Char32, back: seq<Byte>)
    ensures DecodeUtf8(EncodeChar(c) + back) == [Sanitize(c)] + DecodeUtf8(back)
  {
    DecodeEncoded(c, back);
    assert (EncodeChar(c) + back)[|EncodeChar(c)|..] == back;
  }

  lemma {:induction false} Regroup<T>(a: seq<T>, b: seq<T>, c: seq<T>)
    ensures a + (b + c) == (a + b) + c
  {
  }

  // The characters within e stay the same when the bytes after it change.
  lemma {:induction false} CharactersLocal(e: seq<Byte>, r1: seq<Byte>, r2: seq<Byte>, index: nat)
    requires index <= |DecodeUtf8(e + r1)| && Walk(e + r1, index) == |e|
    requires r2 != [] ==> !IsContinuation(r2[0])
    ensures DecodeUtf8(e + r1)[index..] == DecodeUtf8(r1)
    ensures DecodeUtf8(e + r2) == DecodeUtf8(e + r1)[..index] + DecodeUtf8(r2)
    decreases index
  {
    if index == 0 {
      assert e + r1 == r1 && e + r2 == r2;
    } else {
      var d := NextChar(e + r1);
      NextCharLocal(e, r1, r2);
      WalkStep(e, r1, index);
      FirstCharacter(e, r1);
      FirstCharacter(e, r2);
      CharactersLocal(e[d.len..], r1, r2, index - 1);
      PastFirst(d.c, DecodeUtf8(e[d.len..] + r1), DecodeUtf8(e[d.len..] + r2), DecodeUtf8(r1), DecodeUtf8(r2), index);
    }
  }

  lemma {:induction false} FirstCharacter(e: seq<Byte>, r: seq<Byte>)
    requires e != [] && NextChar(e + r).len <= |e|
    ensures DecodeUtf8(e + r) == [NextChar(e + r).c] + DecodeUtf8(e[NextChar(e + r).len..] + r)
  {
    assert (e + r)[NextChar(e + r).len..] == e[NextChar(e + r).len..] + r;
  }

  lemma {:induction false} PastFirst(c: Char32, m1: seq<Char32>, m2: seq<Char32>, t1: seq<Char32>, t2: seq<Char32>, index: nat)
    requires 0 < index <= |m1| + 1 && m1[index - 1..] == t1 && m2 == m1[..index - 1] + t2
    ensures ([c] + m1)[index..] == t1 && [c] + m2 == ([c] + m1)[..index] + t2
  {
    assert ([c] + m1)[..index] == [c] + m1[..index - 1];
  }

  // The inserted character is read back, and the rest after it is unchanged.
  lemma {:induction false} InsertedFirst(c: Char32, back: seq<Byte>)
    ensures NextChar(EncodeChar(c) + back) == Decoded(Sanitize(c), |EncodeChar(c)|)
    ensures |DecodeUtf8(EncodeChar(c) + back)| == 1 + |DecodeUtf8(back)|
  {
    DecodeEncoded(c, back);
    assert (EncodeChar(c) + back)[|EncodeChar(c)|..] == back;
  }
}
