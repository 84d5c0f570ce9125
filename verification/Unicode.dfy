// common/unicode_defines.h, and the encodings of common/string_calls.c and
// common/parse.c as functions on sequences: UTF-8 (section 3 of RFC 3629) and
// little-endian UTF-16 (sections 2.1 and 2.2 of RFC 2781). Bit operations are
// written as division and remainder by powers of two.
module Unicode {

  type Byte = x: int | 0 <= x < 0x100
  type Char16 = x: int | 0 <= x < 0x10000
  type Char32 = x: int | 0 <= x < 0x1_0000_0000

  const REPLACEMENT: Char32 := 0xfffd

  // ---------- unicode_defines.h ----------

  predicate IsContinuation(c: Byte) { 0x80 <= c < 0xc0 }

  predicate IsPlaneEndNonCharacter(c: Char32) { c % 0x10000 >= 0xfffe }

  predicate IsArabicNonCharacter(c: Char32) { 0xfdd0 <= c <= 0xfdef }

  predicate IsHighSurrogate(c: Char32) { 0xd800 <= c < 0xdc00 }

  predicate IsLowSurrogate(c: Char32) { 0xdc00 <= c < 0xe000 }

  // Surrogates, non-characters and values out of range are not exchanged.
  predicate Invalid(c: Char32) {
    0xd800 <= c <= 0xdfff || IsArabicNonCharacter(c) || IsPlaneEndNonCharacter(c) || c > 0x10ffff
  }

  function HighSurrogate(c: Char32): Char16
    requires c >= 0x10000
  {
    (c - 0x10000) / 0x400 % 0x400 + 0xd800
  }

  function LowSurrogate(c: Char32): Char16 { c % 0x400 + 0xdc00 }

  function FromSurrogatePair(low: Char16, high: Char16): Char32 {
    high % 0x400 * 0x400 + low % 0x400 + 0x10000
  }

  function Sanitize(c: Char32): Char32 { if Invalid(c) then REPLACEMENT else c }

  // ---------- UTF-8, one character ----------

  // A character and the number of bytes it was read from.
  datatype Decoded = Decoded(c: Char32, len: nat)

  // How many continuation bytes, up to n, stand at the front of s.
  function Continuations(s: seq<Byte>, n: nat): (k: nat)
    ensures k <= n && k <= |s|
  {
    if n == 0 || s == [] || !IsContinuation(s[0]) then 0 else 1 + Continuations(s[1..], n - 1)
  }

  function Low6(b: Byte): nat { b % 0x40 }

  // Append the six-bit digits of a run of continuation bytes to v.
  function Accumulate(v: nat, s: seq<Byte>): nat
    decreases |s|
  {
    if s == [] then v else Accumulate(v * 0x40 + Low6(s[0]), s[1..])
  }

  // A sequence of one lead byte and n continuation bytes. The lead contributes
  // `high`; the least character such a sequence may encode is `least`. An
  // incomplete sequence is replaced as one character, up to where it breaks off.
  function MultiByte(s: seq<Byte>, high: nat, n: nat, least: nat): (d: Decoded)
    requires s != []
  {
    var k := Continuations(s[1..], n);
    if k < n then Decoded(REPLACEMENT, 1 + k)
    else
      var v := Accumulate(high, s[1..n + 1]);
      Decoded(if v < least || v > 0x10ffff || Invalid(v) then REPLACEMENT else v, n + 1)
  }

  // What a lead byte announces: a character of one byte, or n continuation bytes
  // after its own `high` bits, for a character of at least `least`. No character
  // is large enough for five or six bytes.
  datatype Lead = Single(c: Char32) | Multi(high: nat, n: nat, least: nat)

  function LeadOf(c0: Byte): Lead {
    if c0 < 0x80 then Single(c0)
    else if c0 < 0xc0 then Single(REPLACEMENT)
    else if c0 < 0xe0 then Multi(c0 % 0x20, 1, 0x80)
    else if c0 < 0xf0 then Multi(c0 % 0x10, 2, 0x800)
    else if c0 < 0xf8 then Multi(c0 % 8, 3, 0x10000)
    else if c0 < 0xfc then Multi(c0 % 4, 4, 0x110000)
    else if c0 < 0xfe then Multi(c0 % 2, 5, 0x110000)
    else Single(REPLACEMENT)
  }

  // utf8_get_next_char on the remaining bytes of a string.
  function NextChar(s: seq<Byte>): (d: Decoded)
    requires s != []
    ensures 1 <= d.len <= |s|
  {
    match LeadOf(s[0])
    case Single(c) => Decoded(c, 1)
    case Multi(high, n, least) => MultiByte(s, high, n, least)
  }

  // utf_char32_to_utf8
  function EncodeChar(c: Char32): (r: seq<Byte>)
    ensures 1 <= |r| <= 4
  {
    var v := Sanitize(c);
    if v < 0x80 then [v]
    else if v < 0x800 then [v / 0x40 % 0x20 + 0xc0, v % 0x40 + 0x80]
    else if v < 0xffff then [v / 0x1000 % 0x10 + 0xe0, v / 0x40 % 0x40 + 0x80, v % 0x40 + 0x80]
    else [v / 0x40000 % 8 + 0xf0, v / 0x1000 % 0x40 + 0x80, v / 0x40 % 0x40 + 0x80, v % 0x40 + 0x80]
  }

  // ---------- UTF-8, one character: properties ----------

  lemma {:induction false} ContinuationsOf(s: seq<Byte>, n: nat)
    requires forall i :: 0 <= i < n && i < |s| ==> IsContinuation(s[i])
    ensures Continuations(s, n) == if n <= |s| then n else |s|
    decreases n
  {
    if n > 0 && s != [] {
      ContinuationsOf(s[1..], n - 1);
    }
  }

  lemma {:induction false} ContinuationsAre(s: seq<Byte>, n: nat)
    ensures forall i :: 0 <= i < Continuations(s, n) ==> IsContinuation(s[i])
    ensures Continuations(s, n) < n && Continuations(s, n) < |s| ==> !IsContinuation(s[Continuations(s, n)])
    decreases n
  {
    if n > 0 && s != [] && IsContinuation(s[0]) {
      ContinuationsAre(s[1..], n - 1);
      forall i | 0 <= i < Continuations(s, n) ensures IsContinuation(s[i]) {
        if i > 0 { assert s[i] == s[1..][i - 1]; }
      }
    }
  }

  lemma {:induction false} Accumulate1(v: nat, s: seq<Byte>)
    requires |s| == 1
    ensures Accumulate(v, s) == v * 0x40 + Low6(s[0])
  {
  }

  lemma {:induction false} Accumulate2(v: nat, s: seq<Byte>)
    requires |s| == 2
    ensures Accumulate(v, s) == v * 0x1000 + Low6(s[0]) * 0x40 + Low6(s[1])
  {
    Accumulate1(v * 0x40 + Low6(s[0]), s[1..]);
  }

  lemma {:induction false} Accumulate3(v: nat, s: seq<Byte>)
    requires |s| == 3
    ensures Accumulate(v, s) == v * 0x40000 + Low6(s[0]) * 0x1000 + Low6(s[1]) * 0x40 + Low6(s[2])
  {
    Accumulate2(v * 0x40 + Low6(s[0]), s[1..]);
  }

  // Splitting a number into base-64 digits and putting it together again.
  lemma {:induction false} SplitDigits(v: nat)
    ensures v == v / 0x40 * 0x40 + v % 0x40
    ensures v == v / 0x1000 * 0x1000 + v / 0x40 % 0x40 * 0x40 + v % 0x40
    ensures v == v / 0x40000 * 0x40000 + v / 0x1000 % 0x40 * 0x1000 + v / 0x40 % 0x40 * 0x40 + v % 0x40
  {
    assert v / 0x40 / 0x40 == v / 0x1000;
    assert v / 0x1000 / 0x40 == v / 0x40000;
  }

  lemma {:induction false} JoinDigits(h: nat, d1: nat, d2: nat, d3: nat, v: nat)
    requires d1 < 0x40 && d2 < 0x40 && d3 < 0x40
    requires v == h * 0x40000 + d1 * 0x1000 + d2 * 0x40 + d3
    ensures v / 0x40000 == h && v / 0x1000 % 0x40 == d1 && v / 0x40 % 0x40 == d2 && v % 0x40 == d3
    ensures v / 0x1000 == h * 0x40 + d1 && v / 0x40 == h * 0x1000 + d1 * 0x40 + d2
  {
    assert v / 0x40 == h * 0x1000 + d1 * 0x40 + d2;
    assert v / 0x1000 == h * 0x40 + d1;
  }

  // A multi-byte sequence of n continuation bytes, whatever follows it.
  lemma {:induction false} MultiByteComplete(e: seq<Byte>, rest: seq<Byte>, high: nat, n: nat, least: nat)
    requires |e| == n + 1 && n <= 3
    requires forall i :: 1 <= i <= n ==> IsContinuation(e[i])
    ensures MultiByte(e + rest, high, n, least) == MultiByte(e, high, n, least)
    ensures Continuations(e[1..], n) == n
  {
    var s := e + rest;
    assert s[1..] == e[1..] + rest;
    forall i | 0 <= i < n ensures IsContinuation(e[1..][i]) && IsContinuation(s[1..][i]) {
      assert e[1..][i] == e[i + 1] && s[1..][i] == e[i + 1];
    }
    ContinuationsOf(s[1..], n);
    ContinuationsOf(e[1..], n);
    assert s[1..n + 1] == e[1..n + 1];
  }

  // Decoding an encoding gives the sanitised character and takes exactly its bytes.
  lemma {:induction false} DecodeEncoded(c: Char32, rest: seq<Byte>)
    ensures NextChar(EncodeChar(c) + rest) == Decoded(Sanitize(c), |EncodeChar(c)|)
  {
    var v, e := Sanitize(c), EncodeChar(c);
    assert (e + rest)[0] == e[0];
    var n := |e| - 1;
    if n > 0 {
      DecodeEncodedValue(c);
      var lead := LeadOf(e[0]);
      assert lead.Multi? && lead.n == n && lead.least <= v;
      MultiByteComplete(e, rest, lead.high, n, lead.least);
    }
  }

  // The bits a lead byte contributes.
  function LeadBits(c0: Byte): nat {
    if LeadOf(c0).Multi? then LeadOf(c0).high else 0
  }

  lemma {:induction false} DecodeEncodedValue(c: Char32)
    requires |EncodeChar(c)| > 1
    ensures Accumulate(LeadBits(EncodeChar(c)[0]), EncodeChar(c)[1..]) == Sanitize(c)
  {
    var v, e := Sanitize(c), EncodeChar(c);
    if |e| == 2 {
      DecodeEncoded2(v, e);
    } else if |e| == 3 {
      DecodeEncoded3(v, e);
    } else {
      DecodeEncoded4(v, e);
    }
  }

  lemma {:induction false} DecodeEncoded2(v: nat, e: seq<Byte>)
    requires v < 0x800 && e == [v / 0x40 % 0x20 + 0xc0, v % 0x40 + 0x80]
    ensures Accumulate(LeadBits(e[0]), e[1..]) == v
  {
    SplitDigits(v);
    DecodeLead(v / 0x40, e[0]);
    Accumulate1(v / 0x40, e[1..]);
  }

  lemma {:induction false} DecodeEncoded3(v: nat, e: seq<Byte>)
    requires v < 0x10000 && e == [v / 0x1000 % 0x10 + 0xe0, v / 0x40 % 0x40 + 0x80, v % 0x40 + 0x80]
    ensures Accumulate(LeadBits(e[0]), e[1..]) == v
  {
    Low6Of(v / 0x40 % 0x40);
    Low6Of(v % 0x40);
    assert v / 0x1000 < 0x10;
    SplitDigits(v);
    DecodeLead(v / 0x1000, e[0]);
    Accumulate2(v / 0x1000, e[1..]);
  }

  lemma {:induction false} DecodeEncoded4(v: nat, e: seq<Byte>)
    requires v < 0x200000
    requires e == [v / 0x40000 % 8 + 0xf0, v / 0x1000 % 0x40 + 0x80, v / 0x40 % 0x40 + 0x80, v % 0x40 + 0x80]
    ensures Accumulate(LeadBits(e[0]), e[1..]) == v
  {
    Low6Of(v / 0x1000 % 0x40);
    Low6Of(v / 0x40 % 0x40);
    Low6Of(v % 0x40);
    assert v / 0x40000 < 8;
    SplitDigits(v);
    DecodeLead(v / 0x40000, e[0]);
    Accumulate3(v / 0x40000, e[1..]);
  }

  lemma {:induction false} Low6Of(d: nat)
    requires d < 0x40
    ensures Low6(d + 0x80) == d
  {
  }

  lemma {:induction false} DecodeLead(h: nat, c0: Byte)
    requires (h < 0x20 && c0 == h + 0xc0) || (h < 0x10 && c0 == h + 0xe0) || (h < 8 && c0 == h + 0xf0)
    ensures LeadBits(c0) == h
  {
  }

  // What is decoded is never an invalid character.
  lemma {:induction false} NextCharValid(s: seq<Byte>)
    requires s != []
    ensures !Invalid(NextChar(s).c)
  {
  }

  // No overlong forms: anything decoded other than the replacement character
  // encodes to exactly the bytes that were read.
  lemma {:induction false} EncodeDecoded(s: seq<Byte>)
    requires s != [] && NextChar(s).c != REPLACEMENT
    ensures EncodeChar(NextChar(s).c) == s[..NextChar(s).len]
  {
    var lead := LeadOf(s[0]);
    if lead.Multi? {
      var t := s[1..lead.n + 1];
      ContinuationsAre(s[1..], lead.n);
      assert forall i :: 0 <= i < lead.n ==> t[i] == s[1..][i];
      EncodeAccumulated(s[0], t, NextChar(s).c);
      assert s[..lead.n + 1] == [s[0]] + t;
    }
  }

  lemma {:induction false} EncodeAccumulated(c0: Byte, t: seq<Byte>, v: Char32)
    requires LeadOf(c0).Multi? && |t| == LeadOf(c0).n
    requires forall i :: 0 <= i < |t| ==> IsContinuation(t[i])
    requires v == Accumulate(LeadBits(c0), t) && LeadOf(c0).least <= v && !Invalid(v)
    ensures EncodeChar(v) == [c0] + t
  {
    if |t| == 1 {
      EncodeAccumulated1(c0, t, v);
    } else if |t| == 2 {
      EncodeAccumulated2(c0, t, v);
    } else {
      EncodeAccumulated3(c0, t, v);
    }
  }

  lemma {:induction false} EncodeAccumulated1(c0: Byte, t: seq<Byte>, v: Char32)
    requires 0xc0 <= c0 < 0xe0 && |t| == 1 && IsContinuation(t[0])
    requires v == Accumulate(LeadBits(c0), t) && 0x80 <= v && !Invalid(v)
    ensures EncodeChar(v) == [c0] + t
  {
    var h := LeadBits(c0);
    Accumulate1(h, t);
    JoinDigits(0, 0, h, Low6(t[0]), v);
    assert c0 == h + 0xc0;
    assert EncodeChar(v) == [h + 0xc0, Low6(t[0]) + 0x80];
  }

  lemma {:induction false} EncodeAccumulated2(c0: Byte, t: seq<Byte>, v: Char32)
    requires 0xe0 <= c0 < 0xf0 && |t| == 2 && IsContinuation(t[0]) && IsContinuation(t[1])
    requires v == Accumulate(LeadBits(c0), t) && 0x800 <= v && !Invalid(v)
    ensures EncodeChar(v) == [c0] + t
  {
    var h := LeadBits(c0);
    Accumulate2(h, t);
    JoinDigits(0, h, Low6(t[0]), Low6(t[1]), v);
    assert v / 0x1000 == h && c0 == h + 0xe0;
    assert EncodeChar(v) == [h + 0xe0, Low6(t[0]) + 0x80, Low6(t[1]) + 0x80];
  }

  lemma {:induction false} EncodeAccumulated3(c0: Byte, t: seq<Byte>, v: Char32)
    requires 0xf0 <= c0 < 0xf8 && |t| == 3 && IsContinuation(t[0]) && IsContinuation(t[1]) && IsContinuation(t[2])
    requires v == Accumulate(LeadBits(c0), t) && 0x10000 <= v && !Invalid(v)
    ensures EncodeChar(v) == [c0] + t
  {
    var h := c0 - 0xf0;
    Accumulate3(h, t);
    JoinDigits(h, Low6(t[0]), Low6(t[1]), Low6(t[2]), v);
    Low6Continuation(t[0]);
    Low6Continuation(t[1]);
    Low6Continuation(t[2]);
    EncodeLarge(v, h, Low6(t[0]), Low6(t[1]), Low6(t[2]));
    assert [c0] + t == [c0, t[0], t[1], t[2]];
  }

  lemma {:induction false} Low6Continuation(b: Byte)
    requires IsContinuation(b)
    ensures b == Low6(b) + 0x80 && Low6(b) < 0x40
  {
  }

  lemma {:induction false} EncodeLarge(v: Char32, h: nat, d1: nat, d2: nat, d3: nat)
    requires 0x10000 <= v && !Invalid(v) && h < 8 && d1 < 0x40 && d2 < 0x40 && d3 < 0x40
    requires v / 0x40000 == h && v / 0x1000 % 0x40 == d1 && v / 0x40 % 0x40 == d2 && v % 0x40 == d3
    ensures EncodeChar(v) == [h + 0xf0, d1 + 0x80, d2 + 0x80, d3 + 0x80]
  {
  }
}
