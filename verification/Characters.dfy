// What the transcoders do to single characters and to text, in the numbers of
// section 3 of RFC 3629 and section 2 of RFC 2781. The characters that are exchanged
// are those of common/unicode_defines.h.
module Characters {
  import opened Unicode
  import opened Transcoding

  // Neither a surrogate nor a non-character.
  predicate Exchanged(c: Char32) {
    || c <= 0xd7ff
    || 0xe000 <= c <= 0xfdcf
    || 0xfdf0 <= c <= 0xfffd
    || (0x10000 <= c <= 0x10ffff && c % 0x10000 <= 0xfffd)
  }

  function Utf8Bytes(c: Char32): (s: seq<Byte>)
    requires Exchanged(c)
    ensures 1 <= |s| <= 4
  {
    if c <= 0x7f then [c]
    else if c <= 0x7ff then [0xc0 + c / 64, 0x80 + c % 64]
    else if c <= 0xffff then [0xe0 + c / 4096, 0x80 + c / 64 % 64, 0x80 + c % 64]
    else [0xf0 + c / 262144, 0x80 + c / 4096 % 64, 0x80 + c / 64 % 64, 0x80 + c % 64]
  }

  function Utf16Bytes(c: Char32): (s: seq<Byte>)
    requires Exchanged(c)
    ensures |s| == if c <= 0xffff then 2 else 4
  {
    if c <= 0xffff then [c % 256, c / 256]
    else
      var high, low := 0xd800 + (c - 0x10000) / 1024, 0xdc00 + c % 1024;
      [high % 256, high / 256, low % 256, low / 256]
  }

  // ---------- UTF-8 ----------

  // utf_char32_to_utf8 writes these bytes, or those of U+FFFD.
  lemma {:induction false} Utf8Written(c: Char32)
    ensures Exchanged(c) ==> EncodeChar(c) == Utf8Bytes(c)
    ensures !Exchanged(c) ==> EncodeChar(c) == [0xef, 0xbf, 0xbd]
  {
    if Exchanged(c) {
      LeadInRange(c);
    }
  }

  lemma {:induction false} LeadInRange(c: Char32)
    ensures c <= 0x7ff ==> c / 64 % 32 == c / 64
    ensures c <= 0xffff ==> c / 4096 % 16 == c / 4096
    ensures c <= 0x10ffff ==> c / 262144 % 8 == c / 262144
  {
  }

  // utf8_get_next_char reads every exchanged character from them, whatever follows.
  lemma {:induction false} Utf8Read(c: Char32, rest: seq<Byte>)
    requires Exchanged(c)
    ensures NextChar(Utf8Bytes(c) + rest) == Decoded(c, |Utf8Bytes(c)|)
  {
    Utf8Written(c);
    DecodeEncoded(c, rest);
  }

  // And only from them; everything else reads as U+FFFD.
  lemma {:induction false} Utf8ReadIff(s: seq<Byte>, c: Char32)
    requires s != [] && c != 0xfffd
    ensures NextChar(s).c == c <==> Exchanged(c) && Utf8Bytes(c) <= s
  {
    if NextChar(s).c == c {
      NextCharValid(s);
      EncodeDecoded(s);
      Utf8Written(c);
    } else if Exchanged(c) && Utf8Bytes(c) <= s {
      var rest := s[|Utf8Bytes(c)|..];
      assert s == Utf8Bytes(c) + rest;
      Utf8Read(c, rest);
    }
  }

  // A lead byte and the continuation bytes it announces.
  predicate Announces(b: Byte, n: nat) {
    || (n == 1 && 0xc0 <= b <= 0xdf)
    || (n == 2 && 0xe0 <= b <= 0xef)
    || (n == 3 && 0xf0 <= b <= 0xf7)
    || (n == 4 && 0xf8 <= b <= 0xfb)
    || (n == 5 && 0xfc <= b <= 0xfd)
  }

  // Every byte is read as part of a sequence of a lead byte and m of the n
  // continuation bytes announced, or else on its own.
  lemma {:induction false} SequenceLength(s: seq<Byte>, n: nat, m: nat)
    requires s != [] && Announces(s[0], n) && m <= n && m < |s|
    requires forall i :: 1 <= i <= m ==> 0x80 <= s[i] <= 0xbf
    requires m < n && m + 1 < |s| ==> !(0x80 <= s[m + 1] <= 0xbf)
    ensures NextChar(s).len == m + 1 && (m < n ==> NextChar(s).c == 0xfffd)
  {
    var t, k := s[1..], Continuations(s[1..], n);
    ContinuationsAre(t, n);
    assert forall i :: 0 <= i < |t| ==> t[i] == s[i + 1];
  }

  lemma {:induction false} SingleByte(s: seq<Byte>)
    requires s != [] && (s[0] <= 0xbf || 0xfe <= s[0])
    ensures NextChar(s) == Decoded(if s[0] <= 0x7f then s[0] else 0xfffd, 1)
  {
  }

  // ---------- UTF-16LE ----------

  lemma {:induction false} Utf16Written(c: Char32)
    requires Exchanged(c)
    ensures WordBytes(Words(c)) == Utf16Bytes(c)
  {
    WordsBytes(c);
    if c > 0xffff {
      var v := c - 0x10000;
      assert v / 1024 < 1024 && v % 1024 == c % 1024;
    }
  }

  lemma {:induction false} Utf16Read(c: Char32, rest: seq<Byte>)
    requires Exchanged(c)
    ensures NextC32(Utf16Bytes(c) + rest) == Decoded(c, |Utf16Bytes(c)|)
  {
    Utf16Written(c);
    NextC32Encoded(c, rest);
  }

  // What get_c32_from_stream makes of any two or four bytes.
  lemma {:induction false} Utf16ReadExact(s: seq<Byte>)
    requires |s| >= 2
    ensures var w := s[1] as int * 256 + s[0];
            if w <= 0xd7ff || 0xe000 <= w then NextC32(s) == Decoded(if Exchanged(w) then w else 0xfffd, 2)
            else if w <= 0xdbff && |s| >= 4 && 0xdc <= s[3] <= 0xdf then
              NextC32(s) == Decoded(0x10000 + (w - 0xd800) * 1024 + (s[3] as int * 256 + s[2] - 0xdc00), 4)
            else NextC32(s) == Decoded(0xfffd, 2)
  {
    var w := Word(s);
    if |s| >= 4 {
      var low := Word(s[2..]);
      assert low == s[3] as int * 256 + s[2];
      Low10(w, 0xd800);
      Low10(low, 0xdc00);
    }
  }

  lemma {:induction false} Low10(w: Char16, base: nat)
    ensures base == 0xd800 || base == 0xdc00 ==> (base <= w < base + 1024 ==> w % 1024 == w - base)
  {
  }

  // ---------- Text ----------

  function Utf8Text(cs: seq<Char32>): seq<Byte>
    requires forall i :: 0 <= i < |cs| ==> Exchanged(cs[i])
  {
    if cs == [] then [] else Utf8Bytes(cs[0]) + Utf8Text(cs[1..])
  }

  function Utf16Text(cs: seq<Char32>): seq<Byte>
    requires forall i :: 0 <= i < |cs| ==> Exchanged(cs[i])
  {
    if cs == [] then [] else Utf16Bytes(cs[0]) + Utf16Text(cs[1..])
  }

  lemma {:induction false} TextWritten(cs: seq<Char32>)
    requires forall i :: 0 <= i < |cs| ==> Exchanged(cs[i])
    ensures EncodeUtf8(cs) == Utf8Text(cs) && EncodeUtf16(cs) == Utf16Text(cs) && AllValid(cs)
  {
    if cs != [] {
      Utf8Written(cs[0]);
      Utf16Written(cs[0]);
      TextWritten(cs[1..]);
    }
  }

  // Any text of exchanged characters goes from UTF-8 to UTF-16LE and back unchanged.
  lemma {:induction false} TextTranscoded(cs: seq<Char32>)
    requires forall i :: 0 <= i < |cs| ==> Exchanged(cs[i])
    ensures DecodeUtf8(Utf8Text(cs)) == cs && DecodeUtf16(Utf16Text(cs)) == cs
    ensures EncodeUtf16(DecodeUtf8(Utf8Text(cs))) == Utf16Text(cs)
    ensures EncodeUtf8(DecodeUtf16(Utf16Text(cs))) == Utf8Text(cs)
  {
    TextWritten(cs);
    DecodeEncodedUtf8(cs);
    SanitizeValid(cs);
    DecodeEncodedUtf16(cs);
  }
}
