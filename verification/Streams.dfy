// Streams (common/parse.h): a buffer, a cursor and the end of the data in it;
// and the procedures of common/parse.c that move UTF-16 in and out of them.
module Streams {
  import opened Unicode
  import opened Transcoding
  import opened Utf8Calls

  // Writing w right after what has been written at p0..q.
  lemma {:induction false} Splice(mem: seq<Byte>, p0: nat, q: nat, written: seq<Byte>, w: seq<Byte>)
    requires p0 + |written| == q && q + |w| <= |mem|
    ensures var now := mem[..p0] + written + mem[q..];
            now[..q] + w + now[q + |w|..] == mem[..p0] + (written + w) + mem[q + |w|..]
  {
    var now := mem[..p0] + written + mem[q..];
    assert now[..q] == mem[..p0] + written;
    assert now[q + |w|..] == mem[q + |w|..];
  }

  // One character more has been written.
  lemma {:induction false} OutStep(rest: seq<Char32>, written: seq<Byte>)
    requires rest != []
    ensures WordCount(rest) == |Words(rest[0])| + WordCount(rest[1..])
    ensures |WordBytes(Words(rest[0]))| == 2 * |Words(rest[0])|
    ensures written + EncodeUtf16(rest) == (written + WordBytes(Words(rest[0]))) + EncodeUtf16(rest[1..])
  {
    WordsBytes(rest[0]);
    assert written + (WordBytes(Words(rest[0])) + EncodeUtf16(rest[1..]))
        == (written + WordBytes(Words(rest[0]))) + EncodeUtf16(rest[1..]);
  }

  class Stream {
    const data: array<Byte>
    var p: nat
    var end: nat

    predicate Valid()
      reads this
    {
      p <= end <= data.Length
    }

    // What the stream holds, from its start to its end.
    ghost function Contents(): seq<Byte>
      reads this, data
    {
      if end <= data.Length then data[..end] else []
    }

    // make_stream and init_stream
    constructor (size: nat)
      ensures p == 0 && end == 0 && fresh(data) && data.Length == size
    {
      data := new Byte[size];
      p, end := 0, 0;
    }

    // s_rem_out
    function RemOut(): int
      reads this
    {
      data.Length - p
    }

    // out_uint8p of the next n bytes of another stream
    method OutUint8p(s: Stream, n: nat)
      requires s.Valid() && s.CheckRem(n) && p + n <= data.Length && s.data != data
      modifies this`p, data
      ensures p == old(p) + n
      ensures data[..p] == old(data[..p]) + s.data[s.p..s.p + n]
      ensures data[p..] == old(data[..])[p..]
    {
      ghost var from := s.data[s.p..s.p + n];
      forall i | 0 <= i < n {
        data[p + i] := s.data[s.p + i];
      }
      p := p + n;
      assert data[old(p)..p] == from;
      assert data[..p] == data[..old(p)] + data[old(p)..p];
    }

    // s_check_rem
    predicate CheckRem(n: nat)
      requires Valid()
      reads this
    {
      n <= end - p
    }

    // out_uint16_le_unchecked
    method OutUint16Le(w: Char16)
      requires p + 2 <= data.Length
      modifies this`p, data
      ensures p == old(p) + 2
      ensures data[..] == old(data[..])[..old(p)] + LittleEndian(w) + old(data[..])[p..]
    {
      data[p] := w % 0x100;
      data[p + 1] := w / 0x100;
      p := p + 2;
    }

    // out_utf8_as_utf16_le_proc. The caller checks that there is room.
    method OutUtf8AsUtf16Le(v: seq<Byte>)
      requires p + 2 * WordCount(DecodeUtf8(v)) <= data.Length
      modifies this`p, data
      ensures p == old(p) + 2 * WordCount(DecodeUtf8(v))
      ensures data[..] == old(data[..])[..old(p)] + EncodeUtf16(DecodeUtf8(v)) + old(data[..])[p..]
    {
      ghost var p0, mem, written, rest := p, data[..], [], DecodeUtf8(v);
      var pos := 0;
      assert v[0..] == v;
      while pos < |v|
        invariant 0 <= pos <= |v| && rest == DecodeUtf8(v[pos..])
        invariant p0 <= p && p + 2 * WordCount(rest) == p0 + 2 * WordCount(DecodeUtf8(v))
        invariant |written| == p - p0 && data[..] == mem[..p0] + written + mem[p..]
        invariant written + EncodeUtf16(rest) == EncodeUtf16(DecodeUtf8(v))
      {
        var c32;
        c32, pos := NextOfString(v, pos);
        OutStep(rest, written);
        OutC32(c32, mem, p0, written);
        written := written + WordBytes(Words(c32));
        rest := rest[1..];
      }
      assert written + [] == written;
    }

    // The body of its loop: one word, or a surrogate pair, after what has been
    // written from p0 on.
    method OutC32(c32: Char32, ghost mem: seq<Byte>, ghost p0: nat, ghost written: seq<Byte>)
      requires p + 2 * |Words(c32)| <= data.Length == |mem|
      requires p0 + |written| == p && data[..] == mem[..p0] + written + mem[p..]
      modifies this`p, data
      ensures p == old(p) + 2 * |Words(c32)|
      ensures data[..] == mem[..p0] + (written + WordBytes(Words(c32))) + mem[p..]
    {
      WordsBytes(c32);
      ghost var written := written;
      var low: Char16;
      if c32 < 0x10000 {
        low := c32;
      } else {
        low := LowSurrogate(c32);
        var high := HighSurrogate(c32);
        OutWord(high, mem, p0, written);
        assert written + (LittleEndian(high) + LittleEndian(low)) == (written + LittleEndian(high)) + LittleEndian(low);
        written := written + LittleEndian(high);
      }
      OutWord(low, mem, p0, written);
    }

    // out_uint16_le_unchecked, after what has been written from p0 on
    method OutWord(w: Char16, ghost mem: seq<Byte>, ghost p0: nat, ghost written: seq<Byte>)
      requires p + 2 <= data.Length == |mem| && p0 + |written| == p && data[..] == mem[..p0] + written + mem[p..]
      modifies this`p, data
      ensures p == old(p) + 2 && data[..] == mem[..p0] + (written + LittleEndian(w)) + mem[p..]
    {
      Splice(mem, p0, p, written, LittleEndian(w));
      OutUint16Le(w);
    }

    // in_uint16_le_unchecked
    method InUint16Le() returns (w: Char16)
      requires Valid() && CheckRem(2)
      modifies this`p
      ensures p == old(p) + 2 && w == Word(data[old(p)..end])
    {
      w := data[p] + data[p + 1] as int * 0x100;
      p := p + 2;
    }

    // get_c32_from_stream
    method GetC32() returns (c32: Char32)
      requires Valid() && CheckRem(2)
      modifies this`p
      ensures Valid() && old(p) <= p
      ensures Decoded(c32, p - old(p)) == NextC32(data[old(p)..end])
    {
      c32 := REPLACEMENT; // Assume failure
      var w := InUint16Le();
      assert data[old(p)..end][2..] == data[p..end];
      if IsHighSurrogate(w) {
        if CheckRem(2) {
          var low := InUint16Le();
          if IsLowSurrogate(low) {
            var v := FromSurrogatePair(low, w);
            if !IsPlaneEndNonCharacter(c32) {
              c32 := v;
            }
          } else {
            p := p - 2; // Invalid low surrogate - pop character back
          }
        }
      } else if !IsLowSurrogate(w) && !IsPlaneEndNonCharacter(w) && !IsArabicNonCharacter(w) {
        c32 := w; // Character from the Basic Multilingual Plane
      }
    }

    // The next character of a UTF-16 string.
    method NextOfStream() returns (c32: Char32, ghost words: nat)
      requires Valid() && CheckRem(2)
      modifies this`p
      ensures Valid() && p == old(p) + 2 * words && words > 0
      ensures DecodeUtf16(data[old(p)..end]) == [c32] + DecodeUtf16(data[p..end])
      ensures AfterNul(data[old(p)..end]) == p - old(p) + if c32 == 0 then 0 else AfterNul(data[p..end])
    {
      c32 := GetC32();
      words := if p == old(p) + 2 then 1 else 2;
      assert data[old(p)..end][p - old(p)..] == data[p..end];
    }

    // in_utf16_le_fixed_as_utf8_proc: at most n words, as UTF-8 in v[..vn].
    method InUtf16LeFixedAsUtf8(n: nat, v: array<Byte>, vn: nat) returns (rv: nat)
      requires Valid() && v != data && vn <= v.Length
      modifies this, v
      ensures Valid() && end == old(end)
      ensures var words := if 2 * n < old(end - p) then 2 * n else old(end - p);
              var cs := DecodeUtf16(data[old(p)..old(p) + words]);
              && p == old(p) + words - words % 2
              && rv == |EncodeUtf8(cs)| + 1
              && v[..] == Stored(old(v[..]), cs, vn)
    {
      var savedEnd := end;
      ghost var words := if 2 * n < end - p then 2 * n else end - p;
      if end - p > n * 2 {
        end := p + n * 2;
      }
      assert end == p + words;
      ghost var k;
      rv, k := InUtf16LeRest(v, vn);
      Parity(k, end - p);
      end := savedEnd;
    }

    // Its loop, to the (possibly moved) end of the stream.
    method InUtf16LeRest(v: array<Byte>, vn: nat) returns (rv: nat, ghost words: nat)
      requires Valid() && v != data && vn <= v.Length
      modifies this`p, v
      ensures Valid() && p == old(p) + 2 * words && end - p < 2
      ensures var cs := DecodeUtf16(data[old(p)..end]);
              rv == |EncodeUtf8(cs)| + 1 && v[..] == Stored(old(v[..]), cs, vn)
    {
      var chars, vo: nat, vn': nat := 0, 0, vn;
      ghost var cs := DecodeUtf16(data[p..end]);
      ghost var mem, written, rest := v[..], [], cs;
      words := 0;
      while CheckRem(2)
        invariant Valid() && p == old(p) + 2 * words
        invariant rest == DecodeUtf16(data[p..end])
        invariant chars + |EncodeUtf8(rest)| == |EncodeUtf8(cs)|
        invariant InBuffer(v, vo, vn', vn, mem, written) && written + Fit(rest, vn') == Fit(cs, vn)
        decreases end - p
      {
        var c32, n := NextOfStream();
        var u8len;
        u8len, vo, vn', written := PutChar(c32, v, vo, vn', vn, mem, written, rest);
        chars := chars + u8len;
        words := words + n;
        rest := rest[1..];
      }
      PutTerminator(v, vo, vn', vn, mem, written, cs);
      rv := chars + 1;
    }

    // in_utf16_le_fixed_as_utf8_length: the same with no buffer, leaving the position.
    method InUtf16LeFixedAsUtf8Length(n: nat) returns (rv: nat)
      requires Valid()
      modifies this
      ensures Valid() && p == old(p) && end == old(end)
      ensures var words := if 2 * n < old(end - p) then 2 * n else old(end - p);
              rv == |EncodeUtf8(DecodeUtf16(data[p..p + words]))| + 1
    {
      var savedP := p;
      var none := new Byte[0];
      rv := InUtf16LeFixedAsUtf8(n, none, 0);
      p := savedP;
    }

    // in_utf16_le_terminated_as_utf8: up to a NUL or the end of the stream.
    method InUtf16LeTerminatedAsUtf8(v: array<Byte>, vn: nat) returns (rv: nat)
      requires Valid() && v != data && vn <= v.Length
      modifies this`p, v
      ensures Valid() && p == old(p) + AfterNul(data[old(p)..end])
      ensures var cs := UntilNul(DecodeUtf16(data[old(p)..end]));
              && rv == |EncodeUtf8(cs)| + 1
              && v[..] == Stored(old(v[..]), cs, vn)
    {
      var chars, vo: nat, vn': nat := 0, 0, vn;
      ghost var cs := UntilNul(DecodeUtf16(data[p..end]));
      ghost var p0, mem, written, rest := p + AfterNul(data[p..end]), v[..], [], cs;
      while CheckRem(2)
        invariant Valid() && p + AfterNul(data[p..end]) == p0
        invariant rest == UntilNul(DecodeUtf16(data[p..end]))
        invariant chars + |EncodeUtf8(rest)| == |EncodeUtf8(cs)|
        invariant InBuffer(v, vo, vn', vn, mem, written) && written + Fit(rest, vn') == Fit(cs, vn)
        decreases end - p
      {
        var c32, _ := NextOfStream();
        if c32 == 0 {
          break; // Terminator encountered
        }
        var u8len;
        u8len, vo, vn', written := PutChar(c32, v, vo, vn', vn, mem, written, rest);
        chars := chars + u8len;
        rest := rest[1..];
      }
      PutTerminator(v, vo, vn', vn, mem, written, cs);
      return chars + 1;
    }

    // in_utf16_le_terminated_as_utf8_length
    method InUtf16LeTerminatedAsUtf8Length() returns (rv: nat)
      requires Valid()
      modifies this
      ensures Valid() && p == old(p) && end == old(end)
      ensures rv == |EncodeUtf8(UntilNul(DecodeUtf16(data[p..end])))| + 1
    {
      var savedP := p;
      var none := new Byte[0];
      rv := InUtf16LeTerminatedAsUtf8(none, 0);
      p := savedP;
    }
  }

  // Where reading up to the first NUL ends.
  function AfterNul(s: seq<Byte>): (n: nat)
    ensures n <= |s|
    decreases |s|
  {
    if |s| < 2 then 0
    else if NextC32(s).c == 0 then NextC32(s).len
    else NextC32(s).len + AfterNul(s[NextC32(s).len..])
  }

  // It is just behind that NUL, or where fewer than two bytes are left.
  lemma {:induction false} AfterNulIs(s: seq<Byte>)
    ensures var cs, rest := DecodeUtf16(s), s[AfterNul(s)..];
            if 0 in cs then cs == UntilNul(cs) + [0] + DecodeUtf16(rest) else |rest| < 2
    decreases |s|
  {
    if |s| >= 2 && NextC32(s).c != 0 {
      var t := s[NextC32(s).len..];
      AfterNulIs(t);
      assert t[AfterNul(t)..] == s[AfterNul(s)..];
      if 0 in DecodeUtf16(t) {
        BehindNul(NextC32(s).c, DecodeUtf16(t), DecodeUtf16(s[AfterNul(s)..]));
      }
    }
  }

  lemma {:induction false} BehindNul(c: Char32, cs: seq<Char32>, rest: seq<Char32>)
    requires c != 0 && cs == UntilNul(cs) + [0] + rest
    ensures [c] + cs == UntilNul([c] + cs) + [0] + rest
  {
    assert ([c] + cs)[1..] == cs;
    assert [c] + (UntilNul(cs) + [0] + rest) == ([c] + UntilNul(cs)) + [0] + rest;
  }

  lemma {:induction false} Parity(k: nat, d: nat)
    requires d < 2
    ensures (2 * k + d) % 2 == d
  {
  }

  // A buffer of vn bytes after a bounded read: what fits, and a terminator.
  function Stored(mem: seq<Byte>, cs: seq<Char32>, vn: nat): seq<Byte>
    requires vn <= |mem|
  {
    if vn == 0 then mem
    else FitShort(cs, vn); Fit(cs, vn) + [0] + mem[|Fit(cs, vn)| + 1..]
  }

  lemma {:induction false} FitShort(cs: seq<Char32>, vn: nat)
    requires vn > 0
    ensures |Fit(cs, vn)| + 1 <= vn
  {
    var k := FitLongest(cs, vn);
  }

  // It is the longest prefix of whole characters that fits with its terminator; what is
  // behind that stays as it was.
  lemma {:induction false} StoredLongest(mem: seq<Byte>, cs: seq<Char32>, vn: nat) returns (k: nat)
    requires vn <= |mem|
    ensures vn == 0 ==> Stored(mem, cs, vn) == mem
    ensures k <= |cs| && (vn > 0 ==> |EncodeUtf8(cs[..k])| + 1 <= vn)
    ensures vn > 0 ==> Stored(mem, cs, vn) == EncodeUtf8(cs[..k]) + [0] + mem[|EncodeUtf8(cs[..k])| + 1..]
    ensures k < |cs| ==> |EncodeUtf8(cs[..k + 1])| + 1 > vn
  {
    k := FitLongest(cs, vn);
  }

  // One character more has been considered.
  lemma {:induction false} FitStep(rest: seq<Char32>, vn: nat, written: seq<Byte>)
    requires rest != []
    ensures |EncodeUtf8(rest)| == |EncodeChar(rest[0])| + |EncodeUtf8(rest[1..])|
    ensures |EncodeChar(rest[0])| + 1 <= vn ==>
              written + Fit(rest, vn) == (written + EncodeChar(rest[0])) + Fit(rest[1..], vn - |EncodeChar(rest[0])|)
    ensures |EncodeChar(rest[0])| + 1 > vn ==> Fit(rest, vn) == Fit(rest[1..], if vn > 1 then 1 else vn)
  {
    var e := EncodeChar(rest[0]);
    if |e| + 1 <= vn {
      assert written + (e + Fit(rest[1..], vn - |e|)) == (written + e) + Fit(rest[1..], vn - |e|);
    }
  }

  // `written` has been put at the front of a buffer that held mem; vn of its
  // first vn0 bytes are left, at least one for the terminator.
  ghost predicate InBuffer(v: array<Byte>, vo: nat, vn: nat, vn0: nat, mem: seq<Byte>, written: seq<Byte>)
    reads v
  {
    && vo + vn <= vn0 <= v.Length == |mem| && (vn0 > 0 ==> vn > 0)
    && |written| == vo && v[..] == written + mem[vo..]
  }

  // Append one character; one that does not fit fills the buffer.
  method PutChar(c32: Char32, v: array<Byte>, vo: nat, vn: nat, ghost vn0: nat,
                 ghost mem: seq<Byte>, ghost written: seq<Byte>, ghost rest: seq<Char32>)
    returns (u8len: nat, vo': nat, vn': nat, ghost written': seq<Byte>)
    requires InBuffer(v, vo, vn, vn0, mem, written) && rest != [] && rest[0] == c32
    modifies v
    ensures InBuffer(v, vo', vn', vn0, mem, written')
    ensures u8len + |EncodeUtf8(rest[1..])| == |EncodeUtf8(rest)|
    ensures written' + Fit(rest[1..], vn') == written + Fit(rest, vn)
  {
    var u8str := new Byte[4];
    u8len := UtfChar32ToUtf8(c32, u8str);
    vo', vn', written' := vo, vn, written;
    FitStep(rest, vn, written);
    if u8len + 1 <= vn {
      // Room for this character and a terminator
      CopyBytes(v, vo, u8str, u8len, mem, written);
      vn' := vn - u8len;
      vo' := vo + u8len;
      written' := written + EncodeChar(c32);
    } else if vn > 1 {
      vn' := 1;
    }
  }

  method CopyBytes(v: array<Byte>, vo: nat, u8str: array<Byte>, u8len: nat, ghost mem: seq<Byte>, ghost written: seq<Byte>)
    requires v != u8str && u8len <= u8str.Length && vo + u8len <= v.Length == |mem|
    requires |written| == vo && v[..] == written + mem[vo..]
    modifies v
    ensures v[..] == written + u8str[..u8len] + mem[vo + u8len..]
  {
    var i := 0;
    while i < u8len
      invariant 0 <= i <= u8len
      invariant v[..] == written + u8str[..i] + mem[vo + i..]
    {
      v[vo + i] := u8str[i];
      assert u8str[..i + 1] == u8str[..i] + [u8str[i]];
      i := i + 1;
    }
  }

  method PutTerminator(v: array<Byte>, vo: nat, vn: nat, ghost vn0: nat,
                       ghost mem: seq<Byte>, ghost written: seq<Byte>, ghost cs: seq<Char32>)
    requires InBuffer(v, vo, vn, vn0, mem, written) && written + [] == Fit(cs, vn0)
    modifies v
    ensures v[..] == Stored(mem, cs, vn0)
  {
    assert written + [] == written;
    if vn > 0 {
      v[vo] := 0;
    }
  }
}
