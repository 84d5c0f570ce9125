// The UTF-8 procedures of common/string_calls.c that move a cursor over a string,
// proved against the functions of Transcoding.
module Utf8Calls {
  import opened Unicode
  import opened Transcoding

  lemma {:induction false} AccumulateSnoc(v: nat, s: seq<Byte>, b: Byte)
    ensures Accumulate(v, s + [b]) == Accumulate(v, s) * 0x40 + Low6(b)
    decreases |s|
  {
    if s == [] {
      assert [] + [b] == [b];
    } else {
      assert (s + [b])[1..] == s[1..] + [b];
      AccumulateSnoc(v * 0x40 + Low6(s[0]), s[1..], b);
    }
  }

  // n uses of PARSE_CONTINUATION_CHARACTER, stopping at the first that fails.
  method ParseContinuations(str: seq<Byte>, start: nat, end: nat, high: nat, n: nat) returns (ok: bool, cp: nat, value: nat)
    requires start <= end <= |str|
    ensures cp == start + Continuations(str[start..end], n)
    ensures ok <==> Continuations(str[start..end], n) == n
    ensures ok ==> value == Accumulate(high, str[start..cp])
  {
    cp, value := start, high;
    var i := 0;
    while i < n
      invariant 0 <= i <= n && cp == start + i <= end
      invariant i + Continuations(str[cp..end], n - i) == Continuations(str[start..end], n)
      invariant value == Accumulate(high, str[start..cp])
    {
      if cp == end || !IsContinuation(str[cp]) {
        return false, cp, value;
      }
      assert str[cp..end][1..] == str[cp + 1..end];
      AccumulateSnoc(high, str[start..cp], str[cp]);
      assert str[start..cp + 1] == str[start..cp] + [str[cp]];
      value := value * 0x40 + Low6(str[cp]);
      cp := cp + 1;
      i := i + 1;
    }
    return true, cp, value;
  }

  lemma {:induction false} SubSlice(str: seq<Byte>, pos: nat, end: nat, n: nat)
    requires pos + 1 + n <= end <= |str|
    ensures str[pos..end][1..n + 1] == str[pos + 1..pos + 1 + n]
  {
    var a, b := str[pos..end][1..n + 1], str[pos + 1..pos + 1 + n];
    assert |a| == n == |b|;
    assert forall i :: 0 <= i < n ==> a[i] == str[pos + 1 + i] == b[i];
  }

  // The value of at most three continuation bytes is in range.
  lemma {:induction false} AccumulateBound(high: nat, s: seq<Byte>)
    requires 1 <= |s| <= 3
    ensures Accumulate(high, s) < (high + 1) * (if |s| == 1 then 0x40 else if |s| == 2 then 0x1000 else 0x40000)
  {
    if |s| == 1 {
      Accumulate1(high, s);
    } else if |s| == 2 {
      Accumulate2(high, s);
    } else {
      Accumulate3(high, s);
    }
  }

  // The continuation bytes of a sequence that starts at pos, after a lead byte.
  method ParseSequence(str: seq<Byte>, pos: nat, end: nat, high: nat, n: nat) returns (ok: bool, cp: nat, value: nat)
    requires pos < end <= |str| && high < 0x20 && 1 <= n <= 5
    ensures cp == pos + 1 + Continuations(str[pos..end][1..], n)
    ensures ok <==> Continuations(str[pos..end][1..], n) == n
    ensures ok ==> value == Accumulate(high, str[pos..end][1..n + 1])
    ensures ok && n <= 3 ==> value < (high + 1) * (if n == 1 then 0x40 else if n == 2 then 0x1000 else 0x40000)
  {
    assert str[pos..end][1..] == str[pos + 1..end];
    ok, cp, value := ParseContinuations(str, pos + 1, end, high, n);
    if ok {
      SubSlice(str, pos, end, n);
      if n <= 3 {
        AccumulateBound(high, str[pos + 1..cp]);
      }
    }
  }

  // utf8_get_next_char. When the caller gives no length, the string has a
  // terminator, which stops the parse, and `end` is the end of its buffer.
  method Utf8GetNextChar(str: seq<Byte>, pos: nat, end: nat) returns (rv: Char32, cp: nat)
    requires pos <= end <= |str|
    ensures pos == end ==> rv == 0 && cp == pos
    ensures pos < end ==> cp == pos + NextChar(str[pos..end]).len && rv == NextChar(str[pos..end]).c
  {
    cp := pos;
    if cp == end {
      return 0, cp; // Pathological case
    }
    var c0 := str[cp];
    cp := cp + 1;
    var ok, value := true, 0;
    if c0 < 0x80 {
      rv := c0;
    } else if c0 < 0xc0 {
      rv := REPLACEMENT;
    } else if c0 < 0xe0 {
      ok, cp, value := ParseSequence(str, pos, end, c0 % 0x20, 1);
      rv := if !ok || value < 0x80 then REPLACEMENT else value;
    } else if c0 < 0xf0 {
      ok, cp, value := ParseSequence(str, pos, end, c0 % 0x10, 2);
      rv := if !ok || value < 0x800 || Invalid(value) then REPLACEMENT else value;
    } else if c0 < 0xf8 {
      ok, cp, value := ParseSequence(str, pos, end, c0 % 8, 3);
      rv := if !ok || value < 0x10000 || value > 0x10ffff || Invalid(value) then REPLACEMENT else value;
    } else if c0 < 0xfc {
      ok, cp, value := ParseSequence(str, pos, end, c0 % 4, 4);
      rv := REPLACEMENT; // These values are currently unsupported
    } else if c0 < 0xfe {
      ok, cp, value := ParseSequence(str, pos, end, c0 % 2, 5);
      rv := REPLACEMENT;
    } else {
      rv := REPLACEMENT;
    }
  }

  // The next character of a string with a length.
  method NextOfString(str: seq<Byte>, pos: nat) returns (c: Char32, cp: nat)
    requires pos < |str|
    ensures pos < cp <= |str|
    ensures DecodeUtf8(str[pos..]) == [c] + DecodeUtf8(str[cp..])
  {
    c, cp := Utf8GetNextChar(str, pos, |str|);
    assert str[pos..|str|] == str[pos..] && str[pos..][cp - pos..] == str[cp..];
  }

  // utf_char32_to_utf8, into a buffer of at least four bytes.
  method UtfChar32ToUtf8(c: Char32, u8str: array<Byte>) returns (rv: nat)
    requires u8str.Length >= 4
    modifies u8str
    ensures 1 <= rv <= 4 && u8str[..rv] == EncodeChar(c)
  {
    var c32 := c;
    if Invalid(c32) {
      c32 := REPLACEMENT;
    }
    if c32 < 0x80 {
      rv := 1;
      u8str[0] := c32;
    } else if c32 < 0x800 {
      rv := 2;
      u8str[1] := c32 % 0x40 + 0x80;
      c32 := c32 / 0x40;
      u8str[0] := c32 % 0x20 + 0xc0;
    } else if c32 < 0xffff {
      rv := 3;
      u8str[2] := c32 % 0x40 + 0x80;
      c32 := c32 / 0x40;
      u8str[1] := c32 % 0x40 + 0x80;
      c32 := c32 / 0x40;
      assert c32 == Sanitize(c) / 0x1000;
      u8str[0] := c32 % 0x10 + 0xe0;
    } else {
      rv := 4;
      u8str[3] := c32 % 0x40 + 0x80;
      c32 := c32 / 0x40;
      u8str[2] := c32 % 0x40 + 0x80;
      c32 := c32 / 0x40;
      assert c32 == Sanitize(c) / 0x1000;
      u8str[1] := c32 % 0x40 + 0x80;
      c32 := c32 / 0x40;
      assert c32 == Sanitize(c) / 0x40000;
      u8str[0] := c32 % 8 + 0xf0;
    }
    assert u8str[..rv] == EncodeChar(c);
  }

  // utf8_as_utf16_word_count
  method Utf8AsUtf16WordCount(str: seq<Byte>) returns (rv: nat)
    ensures rv == WordCount(DecodeUtf8(str))
    ensures 2 * rv == |EncodeUtf16(DecodeUtf8(str))|
  {
    rv := 0;
    var pos := 0;
    assert str[0..] == str;
    while pos < |str|
      invariant 0 <= pos <= |str|
      invariant rv + WordCount(DecodeUtf8(str[pos..])) == WordCount(DecodeUtf8(str))
    {
      var c;
      c, pos := NextOfString(str, pos);
      rv := rv + if c >= 0x10000 then 2 else 1;
    }
    EncodedUtf16Length(DecodeUtf8(str));
  }
}
