// utf8_char_count, utf8_add_char_at and utf8_remove_char_at of
// common/string_calls.c, on NUL-terminated strings edited in place.
module UnicodeEdit {
  import opened Unicode
  import opened Transcoding
  import opened Utf8Calls
  import opened Streams

  // The buffer holds string s, its terminator, and whatever comes after.
  ghost predicate Holds(mem: seq<Byte>, s: seq<Byte>, tail: seq<Byte>) {
    mem == s + [0] + tail && 0 !in s
  }

  // Only the NUL byte decodes to NUL.
  lemma {:induction false} NextCharNul(s: seq<Byte>)
    requires s != []
    ensures NextChar(s).c == 0 <==> s[0] == 0
  {
  }

  // Reading from the buffer is reading from the string.
  lemma {:induction false} NextCharInBuffer(s: seq<Byte>, tail: seq<Byte>, pos: nat)
    requires pos < |s| && 0 !in s
    ensures NextChar((s + [0] + tail)[pos..|s| + 1 + |tail|]) == NextChar(s[pos..])
    ensures NextChar(s[pos..]).c != 0
  {
    var e, r := s[pos..], [0] + tail;
    assert e + [] == e && (s + [0] + tail)[pos..|s| + 1 + |tail|] == e + r;
    NextCharLocal(e, [], r);
    NextCharNul(e);
  }

  // Step over the character at pos of a NUL-terminated string, of which k more
  // may have to be passed.
  method NextInString(mem: seq<Byte>, pos: nat, ghost s: seq<Byte>, ghost tail: seq<Byte>, ghost k: nat)
    returns (c: Char32, cp: nat)
    requires Holds(mem, s, tail) && pos <= |s|
    ensures pos == |s| ==> c == 0 && cp == |s| + 1
    ensures pos < |s| ==> c != 0 && pos < cp <= |s| && Decoded(c, cp - pos) == NextChar(s[pos..])
    ensures pos < |s| ==> DecodeUtf8(s[pos..]) == [c] + DecodeUtf8(s[cp..])
    ensures pos < |s| && k > 0 ==> Walk(s[pos..], k) == cp - pos + Walk(s[cp..], k - 1)
  {
    c, cp := Utf8GetNextChar(mem, pos, |mem|);
    if pos < |s| {
      NextCharInBuffer(s, tail, pos);
      assert s[pos..][cp - pos..] == s[cp..];
    } else {
      NextCharNul(mem[pos..|mem|]);
    }
  }

  // utf8_char_count
  method Utf8CharCount(mem: seq<Byte>, ghost s: seq<Byte>, ghost tail: seq<Byte>) returns (rv: nat)
    requires Holds(mem, s, tail)
    ensures rv == |DecodeUtf8(s)|
  {
    rv := 0;
    var pos := 0;
    assert s[0..] == s;
    while true
      invariant 0 <= pos <= |s|
      invariant rv + |DecodeUtf8(s[pos..])| == |DecodeUtf8(s)|
      decreases |s| - pos
    {
      var c, cp := NextInString(mem, pos, s, tail, 0);
      if c == 0 {
        break;
      }
      rv := rv + 1;
      pos := cp;
    }
  }

  // The first NUL of the buffer is the terminator.
  lemma {:induction false} AtTerminator(s: seq<Byte>, tail: seq<Byte>, pos: nat)
    requires 0 !in s && pos <= |s|
    ensures (s + [0] + tail)[pos] == 0 <==> pos == |s|
  {
    assert pos < |s| ==> (s + [0] + tail)[pos] == s[pos];
  }

  // The string that starts a piece of memory: the bytes before the first NUL.
  function UpToNul(mem: seq<Byte>): seq<Byte> {
    if mem == [] || mem[0] == 0 then [] else [mem[0]] + UpToNul(mem[1..])
  }

  lemma {:induction false} UpToNulSplits(mem: seq<Byte>)
    ensures |UpToNul(mem)| <= |mem| && (|UpToNul(mem)| < |mem| <==> 0 in mem)
    ensures 0 in mem ==> Holds(mem, UpToNul(mem), mem[|UpToNul(mem)| + 1..])
  {
    if mem != [] && mem[0] != 0 {
      var m := mem[1..];
      var u := UpToNul(m);
      UpToNulSplits(m);
      assert mem == [mem[0]] + m;
      if 0 in m {
        HoldsCons(mem[0], m, u, m[|u| + 1..]);
        assert mem[|u| + 2..] == m[|u| + 1..];
      }
    }
  }

  lemma {:induction false} HoldsCons(b: Byte, mem: seq<Byte>, s: seq<Byte>, tail: seq<Byte>)
    requires b != 0 && Holds(mem, s, tail)
    ensures Holds([b] + mem, [b] + s, tail)
  {
    assert [b] + (s + [0] + tail) == ([b] + s) + [0] + tail;
  }

  lemma {:induction false} UpToNulHolds(s: seq<Byte>, tail: seq<Byte>)
    requires 0 !in s
    ensures UpToNul(s + [0] + tail) == s
  {
    if s != [] {
      UpToNulHolds(s[1..], tail);
      assert (s + [0] + tail)[1..] == s[1..] + [0] + tail;
    }
  }

  // strlen of the string that starts at pos. It runs past the end of memory that
  // holds no NUL from there on; then it is not `inside`.
  method Strlen(mem: seq<Byte>, pos: nat) returns (n: nat, inside: bool)
    requires pos <= |mem|
    ensures inside <==> 0 in mem[pos..]
    ensures n == |UpToNul(mem[pos..])|
  {
    n := 0;
    while pos + n < |mem| && mem[pos + n] != 0
      invariant pos + n <= |mem| && n + |UpToNul(mem[pos + n..])| == |UpToNul(mem[pos..])|
      decreases |mem| - n
    {
      assert mem[pos + n..][1..] == mem[pos + n + 1..];
      n := n + 1;
    }
    inside := pos + n < |mem|;
    UpToNulSplits(mem[pos..]);
  }

  // memmove within one buffer
  method MemMove(a: array<Byte>, dst: nat, src: nat, n: nat)
    requires dst + n <= a.Length && src + n <= a.Length
    modifies a
    ensures a[..] == old(a[..])[..dst] + old(a[..])[src..src + n] + old(a[..])[dst + n..]
  {
    forall i | 0 <= i < n {
      a[dst + i] := a[src + i];
    }
  }

  // Both editing procedures walk to the character at `index`; `left` of the
  // steps remain when the string is too short.
  method WalkTo(mem: seq<Byte>, index: nat, ghost s: seq<Byte>, ghost tail: seq<Byte>) returns (pos: nat, left: nat)
    requires Holds(mem, s, tail)
    ensures pos == Walk(s, index) <= |s|
    ensures left == 0 <==> index <= |DecodeUtf8(s)|
    ensures left == 0 ==> (pos == |s| <==> index == |DecodeUtf8(s)|)
  {
    pos, left := 0, index;
    assert s[0..] == s;
    while left > 0 && mem[pos] != 0
      invariant 0 <= pos <= |s| && left <= index
      invariant Walk(s, index) == pos + Walk(s[pos..], left)
      invariant |DecodeUtf8(s)| == index - left + |DecodeUtf8(s[pos..])|
      decreases left
    {
      var _, cp := NextInString(mem, pos, s, tail, left);
      pos := cp;
      left := left - 1;
    }
    AtTerminator(s, tail, pos);
    NothingLeft(s, pos);
  }

  lemma {:induction false} NothingLeft(s: seq<Byte>, pos: nat)
    requires pos <= |s|
    ensures |DecodeUtf8(s[pos..])| == 0 <==> pos == |s|
    ensures pos == |s| ==> forall k: nat :: Walk(s[pos..], k) == 0
    ensures Walk(s[pos..], 0) == 0
  {
  }

  // utf8_add_char_at. It succeeds exactly when the string has that many
  // characters and there is room in the buffer's len bytes.
  method Utf8AddCharAt(utf8str: array<Byte>, len: nat, c32: Char32, index: nat, ghost s: seq<Byte>, ghost tail: seq<Byte>)
    returns (rv: int)
    requires Holds(utf8str[..], s, tail) && len <= utf8str.Length
    modifies utf8str
    ensures rv == 1 || (rv == 0 && utf8str[..] == old(utf8str[..]))
    ensures rv == 1 <==> index <= |DecodeUtf8(s)| && |s| + 1 + |EncodeChar(c32)| <= len
    ensures rv == 1 ==> utf8str[..] == InsertAt(s, c32, index) + [0] + tail[|EncodeChar(c32)|..]
  {
    rv := 0;
    var c8 := new Byte[4];
    var c8len := UtfChar32ToUtf8(c32, c8);
    var insertPos, left := WalkTo(utf8str[..], index, s, tail);
    if left == 0 {
      rv := InsertIfRoom(utf8str, len, insertPos, c8, c8len, c32, index, s, tail);
    }
  }

  // The end of utf8_add_char_at, at the position found.
  method InsertIfRoom(utf8str: array<Byte>, len: nat, insertPos: nat, c8: array<Byte>, c8len: nat,
                      ghost c32: Char32, ghost index: nat, ghost s: seq<Byte>, ghost tail: seq<Byte>) returns (rv: int)
    requires Holds(utf8str[..], s, tail) && len <= utf8str.Length && c8 != utf8str
    requires insertPos == Walk(s, index) && c8len <= c8.Length && c8[..c8len] == EncodeChar(c32)
    modifies utf8str
    ensures rv == if |s| + 1 + |EncodeChar(c32)| <= len then 1 else 0
    ensures rv == 0 ==> utf8str[..] == old(utf8str[..])
    ensures rv == 1 ==> utf8str[..] == InsertAt(s, c32, index) + [0] + tail[|EncodeChar(c32)|..]
  {
    rv := 0;
    LengthFrom(utf8str[..], s, tail, insertPos);
    var bytesToMove, _ := Strlen(utf8str[..], insertPos);
    bytesToMove := bytesToMove + 1; // Include terminator
    if insertPos + bytesToMove + c8len <= len {
      Inserted(utf8str[..], s, tail, c32, index, insertPos, bytesToMove, c8[..c8len]);
      MakeRoom(utf8str, insertPos, bytesToMove, c8, c8len, InsertAt(s, c32, index) + [0] + tail[c8len..]);
      rv := 1;
    }
  }

  lemma {:induction false} SuffixHolds(s: seq<Byte>, tail: seq<Byte>, pos: nat)
    requires pos <= |s| && 0 !in s
    ensures Holds((s + [0] + tail)[pos..], s[pos..], tail)
  {
    assert (s + [0] + tail)[pos..] == s[pos..] + [0] + tail;
  }

  lemma {:induction false} LengthFrom(mem: seq<Byte>, s: seq<Byte>, tail: seq<Byte>, pos: nat)
    requires Holds(mem, s, tail) && pos <= |s|
    ensures |UpToNul(mem[pos..])| == |s| - pos
  {
    SuffixHolds(s, tail, pos);
    UpToNulHolds(s[pos..], tail);
  }

  // Move the rest of the string up and put the new bytes in the gap.
  method MakeRoom(utf8str: array<Byte>, pos: nat, bytesToMove: nat, c8: array<Byte>, n: nat, ghost result: seq<Byte>)
    requires c8 != utf8str && n <= c8.Length && pos + n + bytesToMove <= utf8str.Length
    requires utf8str[..][..pos] + c8[..n] + utf8str[..][pos..pos + bytesToMove] + utf8str[..][pos + n + bytesToMove..] == result
    modifies utf8str
    ensures utf8str[..] == result
  {
    ghost var mem := utf8str[..];
    MemMove(utf8str, pos + n, pos, bytesToMove);
    ghost var moved := utf8str[..];
    MovedUp(mem, pos, bytesToMove, n, moved);
    CopyBytes(utf8str, pos, c8, n, moved, mem[..pos]);
    Concat(mem[..pos] + c8[..n], mem[pos..pos + bytesToMove], mem[pos + n + bytesToMove..]);
  }

  lemma {:induction false} MovedUp(mem: seq<Byte>, pos: nat, b: nat, n: nat, moved: seq<Byte>)
    requires pos + n + b <= |mem| && moved == mem[..pos + n] + mem[pos..pos + b] + mem[pos + n + b..]
    ensures |moved| == |mem| && moved == mem[..pos] + moved[pos..]
    ensures moved[pos + n..] == mem[pos..pos + b] + mem[pos + n + b..]
  {
    assert moved[..pos] == mem[..pos];
    assert moved == moved[..pos] + moved[pos..];
  }

  lemma {:induction false} Inserted(mem: seq<Byte>, s: seq<Byte>, tail: seq<Byte>, c: Char32, index: nat,
                                    pos: nat, b: nat, e: seq<Byte>)
    requires mem == s + [0] + tail && e == EncodeChar(c) && |e| <= |tail|
    requires pos == Walk(s, index) && b == |s| - pos + 1
    ensures mem[..pos] + e + mem[pos..pos + b] + mem[pos + |e| + b..] == InsertAt(s, c, index) + [0] + tail[|e|..]
  {
    assert mem[pos..pos + b] == s[pos..] + [0];
    assert mem[pos + |e| + b..] == tail[|e|..];
    assert mem[..pos] == s[..pos];
  }

  // utf8_remove_char_at. At the index just past the last character it removes
  // the terminator, and so joins the string `next` that follows it in the buffer;
  // if there is none then it runs past the end of the buffer, and is not `inside`.
  method Utf8RemoveCharAt(utf8str: array<Byte>, index: nat, ghost s: seq<Byte>, ghost tail: seq<Byte>)
    returns (rv: Char32, inside: bool)
    requires Holds(utf8str[..], s, tail)
    modifies utf8str
    ensures inside <==> index != |DecodeUtf8(s)| || 0 in tail
    ensures index > |DecodeUtf8(s)| || !inside ==> rv == 0 && utf8str[..] == old(utf8str[..])
    ensures index < |DecodeUtf8(s)| ==> Walk(s, index) < |s| && rv == NextChar(s[Walk(s, index)..]).c
    ensures index < |DecodeUtf8(s)| ==> Overwritten(old(utf8str[..]), RemoveAt(s, index) + [0], utf8str[..])
    ensures index == |DecodeUtf8(s)| && inside ==>
              rv == 0 && Overwritten(old(utf8str[..]), s + UpToNul(tail) + [0], utf8str[..])
  {
    rv, inside := 0, true;
    var removePos, left := WalkTo(utf8str[..], index, s, tail);
    if left == 0 {
      var c, afterPos := NextInString(utf8str[..], removePos, s, tail, 0);
      ghost var next := if removePos < |s| then s[afterPos..] else UpToNul(tail);
      AfterChar(s, tail, removePos, afterPos);
      if removePos < |s| {
        RemoveAtIs(s, index, c, afterPos);
      }
      inside := MoveDown(utf8str, removePos, afterPos, next);
      rv := if inside then c else 0;
    }
  }

  // Only the first bytes of the memory have changed.
  ghost predicate Overwritten(before: seq<Byte>, start: seq<Byte>, after: seq<Byte>) {
    |start| <= |before| && after == start + before[|start|..]
  }

  // A result of 0 means that nothing was removed exactly if the index is beyond the
  // terminator, or an empty string follows that.
  lemma {:induction false} NothingRemoved(s: seq<Byte>, tail: seq<Byte>, index: nat, after: seq<Byte>)
    requires 0 !in s && index >= |DecodeUtf8(s)|
    requires index > |DecodeUtf8(s)| ==> after == s + [0] + tail
    requires index == |DecodeUtf8(s)| ==> 0 in tail && Overwritten(s + [0] + tail, s + UpToNul(tail) + [0], after)
    ensures s + [0] <= after <==> index > |DecodeUtf8(s)| || UpToNul(tail) == []
  {
    if index == |DecodeUtf8(s)| {
      var next := UpToNul(tail);
      UpToNulSplits(tail);
      assert after[|s|] == (next + [0])[0];
      if next == [] {
        assert s + next + [0] == s + [0];
      }
    }
  }

  // Removing the character at index 1 of "A", when "B" follows in the buffer,
  // gives "AB".
  method RemoveJoins() returns (rv: Char32, inside: bool, mem: seq<Byte>)
    ensures rv == 0 && inside && mem == [65, 66, 0, 0]
  {
    var buf := new Byte[] [65, 0, 66, 0];
    ghost var s, tail: seq<Byte> := [65], [66, 0];
    assert buf[..] == s + [0] + tail;
    OneCharacter();
    assert tail[1] == 0 && UpToNul(tail[1..]) == [];
    rv, inside := Utf8RemoveCharAt(buf, 1, s, tail);
    assert s + UpToNul(tail) + [0] == [65, 66, 0];
    mem := buf[..];
  }

  // When the buffer ends with the terminator of "A", the call runs past its end.
  method RemoveRunsOut() returns (inside: bool)
    ensures !inside
  {
    var buf := new Byte[] [65, 0];
    assert buf[..] == [65] + [0] + [];
    OneCharacter();
    var rv;
    rv, inside := Utf8RemoveCharAt(buf, 1, [65], []);
  }

  lemma {:induction false} OneCharacter()
    ensures |DecodeUtf8([65])| == 1
  {
    assert NextChar([65]) == Decoded(65, 1);
    assert [65 as Byte][1..] == [];
  }

  lemma {:induction false} RemoveAtIs(s: seq<Byte>, index: nat, c: Char32, after: nat)
    requires Walk(s, index) < |s| && Walk(s, index) < after <= |s|
    requires NextChar(s[Walk(s, index)..]) == Decoded(c, after - Walk(s, index))
    ensures RemoveAt(s, index) == s[..Walk(s, index)] + s[after..]
    ensures NextChar(s[Walk(s, index)..]).c == c
  {
  }

  // What stands in the buffer before and after the character to remove.
  lemma {:induction false} AfterChar(s: seq<Byte>, tail: seq<Byte>, pos: nat, after: nat)
    requires 0 !in s && pos <= |s|
    requires pos < |s| ==> pos < after <= |s|
    requires pos == |s| ==> after == |s| + 1
    ensures (s + [0] + tail)[..pos] == s[..pos]
    ensures pos == |s| ==> s[..pos] == s && (s + [0] + tail)[after..] == tail
    ensures pos < |s| ==> 0 in (s + [0] + tail)[after..] && UpToNul((s + [0] + tail)[after..]) == s[after..]
  {
    if pos < |s| {
      SuffixHolds(s, tail, after);
      UpToNulHolds(s[after..], tail);
      assert (s[after..] + [0] + tail)[|s| - after] == 0;
    } else {
      assert (s + [0] + tail)[after..] == tail;
    }
  }

  lemma {:induction false} MovedDown(mem: seq<Byte>, after: nat, s: seq<Byte>)
    requires after <= |mem| && 0 in mem[after..] && s == UpToNul(mem[after..])
    ensures after + |s| + 1 <= |mem| && mem[after..after + |s| + 1] == s + [0]
  {
    UpToNulSplits(mem[after..]);
    FrontOf(mem[after..], s, mem[after..][|s| + 1..]);
    SliceOf(mem, after, |s| + 1);
  }

  lemma {:induction false} Concat(a: seq<Byte>, b: seq<Byte>, c: seq<Byte>)
    ensures (a + b) + c == a + (b + c)
  {
  }

  lemma {:induction false} FrontOf(mem: seq<Byte>, s: seq<Byte>, tail: seq<Byte>)
    requires Holds(mem, s, tail)
    ensures mem[..|s| + 1] == s + [0]
  {
  }

  lemma {:induction false} SliceOf(mem: seq<Byte>, from: nat, n: nat)
    requires from + n <= |mem|
    ensures mem[from..from + n] == mem[from..][..n]
  {
  }

  // Move the string that starts at `after` down to pos, if its end is found.
  method MoveDown(utf8str: array<Byte>, pos: nat, after: nat, ghost s: seq<Byte>) returns (inside: bool)
    requires pos <= after <= utf8str.Length && UpToNul(utf8str[..][after..]) == s
    modifies utf8str
    ensures inside <==> 0 in old(utf8str[..])[after..]
    ensures inside ==> Overwritten(old(utf8str[..]), old(utf8str[..])[..pos] + s + [0], utf8str[..])
    ensures !inside ==> utf8str[..] == old(utf8str[..])
  {
    ghost var mem := utf8str[..];
    var n;
    n, inside := Strlen(utf8str[..], after);
    if inside {
      MovedDown(mem, after, s);
      MemMove(utf8str, pos, after, n + 1);
      Concat(mem[..pos], s, [0]);
    }
  }
}
