// common/base64.c: encoding and decoding between buffers. Shifts and disjoint
// bit-ors are written as multiplication, division, remainder and sum.
module Base64Calls {
  import opened Unicode
  import opened Sockets
  import opened Base64

  // ---------- Encoding ----------

  // The six-bit fields of one, two and three bytes.
  lemma {:induction false} OneByte(x: int)
    requires 0 <= x < 0x100
    ensures var v := x * 0x10; v / 0x40 == x / 4 && v % 0x40 == x % 4 * 16
  {
  }

  lemma {:induction false} TwoBytes(x: int, y: int)
    requires 0 <= x < 0x100 && 0 <= y < 0x100
    ensures var v := x * 0x400 + y * 4;
            v / 0x1000 == x / 4 && v / 0x40 % 0x40 == x % 4 * 16 + y / 16 && v % 0x40 == y % 16 * 4
  {
    var v := x * 0x400 + y * 4;
    assert v / 0x40 == x * 16 + y / 16;
    assert v / 0x1000 == (v / 0x40) / 0x40;
  }

  lemma {:induction false} ThreeBytes(x: int, y: int, z: int)
    requires 0 <= x < 0x100 && 0 <= y < 0x100 && 0 <= z < 0x100
    ensures var v := x * 0x10000 + y * 0x100 + z;
            && v / 0x40000 == x / 4 && v / 0x1000 % 0x40 == x % 4 * 16 + y / 16
            && v / 0x40 % 0x40 == y % 16 * 4 + z / 64 && v % 0x40 == z % 64
  {
    var v := x * 0x10000 + y * 0x100 + z;
    assert v / 0x40 == x * 0x400 + y * 4 + z / 64;
    assert v / 0x1000 == (v / 0x40) / 0x40 == x * 16 + y / 16;
    assert v / 0x40000 == (v / 0x1000) / 0x40;
  }

  lemma {:induction false} GroupLegal(src: Bytes)
    requires src != []
    ensures Legal(Group(src)) && Legal(EncodeValues(src[Min(3, |src|)..]))
    ensures Encode(src) == Symbols(Group(src)) + Encode(src[Min(3, |src|)..])
  {
    EncodedLegal(src);
    EncodedLegal(src[Min(3, |src|)..]);
    var g, more := Group(src), EncodeValues(src[Min(3, |src|)..]);
    assert EncodeValues(src) == g + more;
    assert forall i :: 0 <= i < 4 ==> (g + more)[i] == g[i];
  }

  // The body of the loop of base64_encode.
  method EncodeGroup(src: Bytes, dst: array<Byte>, p: nat, ghost mem: Bytes, ghost done: Bytes)
    requires src != [] && Legal(Group(src)) && p == |done| && p + 4 <= dst.Length == |mem|
    requires dst[..] == done + mem[p..]
    modifies dst
    ensures dst[..] == (done + Symbols(Group(src))) + mem[p + 4..]
  {
    ghost var g := Group(src);
    var a: Value, b: Value, c: Value, d: Value := 0, 0, E_PAD, E_PAD;
    if |src| == 1 {
      var v := src[0] as int * 0x10;
      OneByte(src[0]);
      a, b := v / 0x40, v % 0x40;
    } else if |src| == 2 {
      var v := src[0] as int * 0x400 + src[1] as int * 4;
      TwoBytes(src[0], src[1]);
      a, b, c := v / 0x1000, v / 0x40 % 0x40, v % 0x40;
    } else {
      var v := src[0] as int * 0x10000 + src[1] as int * 0x100 + src[2];
      ThreeBytes(src[0], src[1], src[2]);
      a, b, c, d := v / 0x40000, v / 0x1000 % 0x40, v / 0x40 % 0x40, v % 0x40;
    }
    assert g == [a, b, c, d];
    assert dst[..p] == done && dst[p + 4..] == mem[p + 4..];
    PutFour(dst, p, Symbol(a), Symbol(b), Symbol(c), Symbol(d));
    assert Symbols(g) == [Symbol(a), Symbol(b), Symbol(c), Symbol(d)];
  }

  method PutFour(dst: array<Byte>, p: nat, a: Byte, b: Byte, c: Byte, d: Byte)
    requires p + 4 <= dst.Length
    modifies dst
    ensures dst[..] == old(dst[..p]) + [a, b, c, d] + old(dst[p + 4..])
  {
    dst[p], dst[p + 1], dst[p + 2], dst[p + 3] := a, b, c, d;
  }

  lemma {:induction false} EncodeStep(src: Bytes, i: nat, n: nat, done: Bytes, more: Bytes)
    returns (g: Bytes, rest: Bytes)
    requires i < n <= |src| && more == Encode(src[i..n])
    ensures Legal(Group(src[i..n])) && g == Symbols(Group(src[i..n])) && |more| == 4 + |rest|
    ensures rest == Encode(src[i + Min(3, n - i)..n])
    ensures done + more == (done + g) + rest
  {
    var now, next := src[i..n], i + Min(3, n - i);
    GroupLegal(now);
    assert now[Min(3, |now|)..] == src[next..n];
    g, rest := Symbols(Group(now)), Encode(src[next..n]);
    Regroup(done, g, rest);
  }

  lemma {:induction false} Room(src: Bytes, size: nat)
    requires size >= 1 && |src| <= (size - 1) / 4 * 3
    ensures |Encode(src)| < size
  {
    EncodedLegal(src);
  }

  // base64_encode
  method Base64Encode(src: Bytes, dst: array<Byte>) returns (srcLen: nat)
    requires dst.Length >= 1
    modifies dst
    ensures srcLen == Min(|src|, (dst.Length - 1) / 4 * 3)
    ensures var e := Encode(src[..srcLen]);
            |e| < dst.Length && dst[..] == e + [0] + old(dst[|e| + 1..])
  {
    var maxSrcLen := (dst.Length - 1) / 4 * 3;
    srcLen := |src|;
    if srcLen > maxSrcLen {
      srcLen := maxSrcLen;
    }
    ghost var mem, done: Bytes, more := dst[..], [], Encode(src[..srcLen]);
    var p, srcI := 0, 0;
    Room(src[..srcLen], dst.Length);
    assert src[0..srcLen] == src[..srcLen] && mem[0..] == mem && done + more == more && done + mem == mem;
    while srcI < srcLen
      invariant 0 <= srcI <= srcLen && p == |done| && more == Encode(src[srcI..srcLen])
      invariant p + |more| < dst.Length == |mem|
      invariant done + more == Encode(src[..srcLen])
      invariant dst[..] == done + mem[p..]
    {
      ghost var g;
      g, more := EncodeStep(src, srcI, srcLen, done, more);
      EncodeGroup(src[srcI..srcLen], dst, p, mem, done);
      done := done + g;
      p := p + 4;
      srcI := srcI + Min(3, srcLen - srcI);
    }
    assert src[srcLen..srcLen] == [] && done + [] == done;
    Terminate(dst, p, mem, done);
  }

  method Terminate(dst: array<Byte>, p: nat, ghost mem: Bytes, ghost done: Bytes)
    requires p == |done| && p < dst.Length == |mem| && dst[..] == done + mem[p..]
    modifies dst
    ensures dst[..] == done + [0] + mem[p + 1..]
  {
    dst[p] := 0;
  }

  // Repeated calls with any buffer of at least five bytes come to an end, and
  // what they write is the encoding of the whole.
  method EncodeInPieces(src: Bytes, dst: array<Byte>) returns (text: Bytes)
    requires dst.Length >= 5
    modifies dst
    ensures text == Encode(src)
  {
    text := [];
    var at := 0;
    ghost var more := Encode(src);
    assert src[0..] == src && text + more == more;
    while at < |src|
      invariant 0 <= at <= |src| && more == Encode(src[at..]) && text + more == Encode(src)
    {
      var n, piece;
      n, piece, more := EncodePiece(src, at, dst, text, more);
      text := text + piece;
      at := at + n;
    }
    assert src[|src|..] == [] && text + [] == text;
  }

  // One of the calls.
  method EncodePiece(src: Bytes, at: nat, dst: array<Byte>, ghost text: Bytes, ghost more: Bytes)
    returns (n: nat, piece: Bytes, ghost rest: Bytes)
    requires dst.Length >= 5 && at < |src| && more == Encode(src[at..])
    modifies dst
    ensures 0 < n && at + n <= |src| && rest == Encode(src[at + n..])
    ensures text + more == (text + piece) + rest
  {
    n := Base64Encode(src[at..], dst);
    var len := (n + 2) / 3 * 4;
    ghost var expected;
    expected, rest := NextPiece(src, at, n, text, more);
    piece := dst[..len];
    assert piece == expected;
  }

  lemma {:induction false} NextPiece(src: Bytes, at: nat, n: nat, text: Bytes, more: Bytes) returns (piece: Bytes, rest: Bytes)
    requires at + n <= |src| && (n % 3 == 0 || at + n == |src|) && more == Encode(src[at..])
    ensures piece == Encode(src[at..][..n]) && rest == Encode(src[at + n..])
    ensures |piece| == (n + 2) / 3 * 4 && text + more == (text + piece) + rest
  {
    var now := src[at..];
    piece, rest := Encode(now[..n]), Encode(src[at + n..]);
    EncodedLegal(now[..n]);
    assert now[n..] == src[at + n..];
    if n == |now| {
      assert now[..n] == now && now[n..] == [] && more + [] == more;
    } else {
      EncodeInTwo(now, n);
    }
    Regroup(text, piece, rest);
  }

  // ---------- Decoding ----------

  // A buffer after `bytes` have been written to it, as far as they fit.
  function Stored(mem: Bytes, bytes: Bytes): (r: Bytes)
    ensures |r| == |mem|
  {
    if |bytes| <= |mem| then bytes + mem[|bytes|..] else bytes[..|mem|]
  }

  // OUTPUT_CHAR
  method OutputChar(dst: array<Byte>, dstI: nat, x: Byte, ghost mem: Bytes, ghost done: Bytes)
    requires dstI == |done| && dst[..] == Stored(mem, done)
    modifies dst
    ensures dst[..] == Stored(mem, done + [x])
  {
    if dstI < dst.Length {
      dst[dstI] := x;
      assert dst[..] == Stored(mem, done)[dstI := x];
    }
    assert |done| >= |mem| ==> (done + [x])[..|mem|] == done[..|mem|];
  }

  // The bytes of a quantum as the fields of its 24, 16 or 8 bits.
  lemma {:induction false} Fields(a: int, b: int, c: int, d: int)
    requires 0 <= a < 64 && 0 <= b < 64 && 0 <= c < 64 && 0 <= d < 64
    ensures var v := a * 0x40000 + b * 0x1000 + c * 0x40 + d;
            && v / 0x10000 == a * 4 + b / 16 && v / 0x100 % 0x100 == b % 16 * 16 + c / 4
            && v % 0x100 == c % 4 * 64 + d
    ensures var w := a * 0x400 + b * 0x10 + c / 4;
            w / 0x100 == a * 4 + b / 16 && w % 0x100 == b % 16 * 16 + c / 4
  {
    var v := a * 0x40000 + b * 0x1000 + c * 0x40 + d;
    var w := a * 0x400 + b * 0x10 + c / 4;
    assert v / 0x100 == w;
    assert v / 0x10000 == w / 0x100;
  }

  // What the loop of base64_decode does with a quantum.
  method OutputQuantum(a: Value, b: Value, c: Value, d: Value, dst: array<Byte>, dstI: nat,
                       ghost mem: Bytes, ghost done: Bytes) returns (ok: bool, next: nat)
    requires dstI == |done| && dst[..] == Stored(mem, done)
    modifies dst
    ensures ok == Quantum(a, b, c, d).1 && next == dstI + |Quantum(a, b, c, d).0|
    ensures dst[..] == Stored(mem, done + Quantum(a, b, c, d).0)
  {
    assert done + [] == done;
    next := dstI;
    if a == E_INVALID || b == E_INVALID || c == E_INVALID || d == E_INVALID {
      return false, next;
    }
    if a != E_PAD && b != E_PAD && c != E_PAD && d != E_PAD {
      var v := a as int * 0x40000 + b as int * 0x1000 + c as int * 0x40 + d;
      Fields(a, b, c, d);
      OutputChar(dst, next, v / 0x10000, mem, done);
      OutputChar(dst, next + 1, v / 0x100 % 0x100, mem, done + [v / 0x10000]);
      OutputChar(dst, next + 2, v % 0x100, mem, done + [v / 0x10000] + [v / 0x100 % 0x100]);
      assert done + [v / 0x10000] + [v / 0x100 % 0x100] + [v % 0x100] == done + Quantum(a, b, c, d).0;
      next := next + 3;
    } else if a != E_PAD && b != E_PAD && c != E_PAD {
      // the padding must be at the end
      var v := a as int * 0x400 + b as int * 0x10 + c as int / 4;
      Fields(a, b, c, 0);
      OutputChar(dst, next, v / 0x100, mem, done);
      OutputChar(dst, next + 1, v % 0x100, mem, done + [v / 0x100]);
      assert done + [v / 0x100] + [v % 0x100] == done + Quantum(a, b, c, d).0;
      next := next + 2;
    } else if a != E_PAD && b != E_PAD && c == d {
      // both must be padding
      var v := a as int * 4 + b as int / 0x10;
      OutputChar(dst, next, v, mem, done);
      next := next + 1;
    } else {
      return false, next;
    }
    ok := true;
  }

  // The four characters of a quantum, made up with padding at the end of the text.
  method NextQuantum(src: Bytes, i: nat) returns (a: Value, b: Value, c: Value, d: Value, next: nat)
    requires i < |src|
    ensures var vs := Lookups(src[i..]);
            a == At(vs, 0) && b == At(vs, 1) && c == At(vs, 2) && d == At(vs, 3)
    ensures next == i + Min(4, |src| - i)
  {
    next := i;
    if |src| - i >= 4 {
      a, b, c, d := Lookup(src[i]), Lookup(src[i + 1]), Lookup(src[i + 2]), Lookup(src[i + 3]);
      next := i + 4;
    } else {
      a, b, c, d := Lookup(src[i]), E_PAD, E_PAD, E_PAD;
      next := i + 1;
      if |src| - next > 0 {
        b := Lookup(src[next]);
        next := next + 1;
      }
      if |src| - next > 0 {
        c := Lookup(src[next]);
        next := next + 1;
      }
    }
  }

  // The text from position i on decodes to `more`: a quantum, and the rest.
  lemma {:induction false} DecodeNext(src: Bytes, i: nat, done: Bytes, more: (Bytes, bool))
    returns (q: (Bytes, bool), rest: (Bytes, bool))
    requires i < |src| && more == Decode(src[i..])
    ensures var vs := Lookups(src[i..]); q == Quantum(At(vs, 0), At(vs, 1), At(vs, 2), At(vs, 3))
    ensures rest == Decode(src[i + Min(4, |src| - i)..])
    ensures q.1 ==> more.1 == rest.1 && done + more.0 == (done + q.0) + rest.0
    ensures !q.1 ==> q.0 == [] && more == ([], false)
  {
    var vs, next := Lookups(src[i..]), i + Min(4, |src| - i);
    assert vs[Min(4, |vs|)..] == Lookups(src[next..]);
    q, rest := Quantum(At(vs, 0), At(vs, 1), At(vs, 2), At(vs, 3)), Decode(src[next..]);
    Regroup(done, q.0, rest.0);
  }

  // base64_decode
  method Base64Decode(src: Bytes, dst: array<Byte>) returns (rv: int, actualLen: nat)
    modifies dst
    ensures rv == if Decode(src).1 then 0 else -1
    ensures actualLen == if rv == 0 then |Decode(src).0| else 0
    ensures var bytes := Decode(src).0;
            && (|bytes| <= dst.Length ==> dst[..] == bytes + old(dst[..])[|bytes|..])
            && (|bytes| > dst.Length ==> dst[..] == bytes[..dst.Length])
  {
    var srcI, dstI := 0, 0;
    ghost var mem, done: Bytes, all, more := dst[..], [], Decode(src), Decode(src);
    assert src[0..] == src && done + mem == mem && done + all.0 == all.0;
    while srcI < |src|
      invariant 0 <= srcI <= |src| && dstI == |done| && more == Decode(src[srcI..])
      invariant more.1 == all.1 && done + more.0 == all.0
      invariant dst[..] == Stored(mem, done)
    {
      var a, b, c, d, next := NextQuantum(src, srcI);
      ghost var q, rest := DecodeNext(src, srcI, done, more);
      var ok;
      ok, dstI := OutputQuantum(a, b, c, d, dst, dstI, mem, done);
      if !ok {
        assert done + [] == done;
        return -1, 0;
      }
      done, more := done + q.0, rest;
      srcI := next;
    }
    assert src[|src|..] == [] && done + [] == done;
    return 0, dstI;
  }
}
