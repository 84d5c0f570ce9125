// Base64 as in section 4 of RFC 4648, with the liberties of the decoder of
// common/base64.c: first on the values of the characters, then on characters.
module Base64 {
  import opened Unicode
  import opened Sockets

  const E_INVALID: Value := 0x40
  const E_PAD: Value := 0x80
  const PAD: Byte := 0x3d // '='

  // What a character stands for: six bits, padding, or nothing.
  type Value = v: nat | v <= 0x40 || v == 0x80
  type Values = seq<Value>

  function Min(a: nat, b: nat): nat {
    if a < b then a else b
  }

  // The four values for the first one, two or three bytes.
  function Group(src: Bytes): (r: Values)
    requires src != []
    ensures |r| == 4
  {
    var x, y, z := src[0], if |src| > 1 then src[1] else 0, if |src| > 2 then src[2] else 0;
    [x / 4, x % 4 * 16 + y / 16,
     if |src| > 1 then y % 16 * 4 + z / 64 else E_PAD,
     if |src| > 2 then z % 64 else E_PAD]
  }

  function EncodeValues(src: Bytes): Values {
    if src == [] then [] else Group(src) + EncodeValues(src[Min(3, |src|)..])
  }

  // Value i of a quantum; padding is assumed where there is none.
  function At(vs: Values, i: nat): Value {
    if i < |vs| then vs[i] else E_PAD
  }

  // The bytes of a quantum, and whether it is legal.
  function Quantum(a: Value, b: Value, c: Value, d: Value): (r: (Bytes, bool)) {
    if a >= E_INVALID || b >= E_INVALID || c == E_INVALID || d == E_INVALID then ([], false)
    else if c == E_PAD then if d == E_PAD then ([a * 4 + b / 16], true) else ([], false)
    else if d == E_PAD then ([a * 4 + b / 16, b % 16 * 16 + c / 4], true)
    else ([a * 4 + b / 16, b % 16 * 16 + c / 4, c % 4 * 64 + d], true)
  }

  // What is decoded up to an illegal quantum, and whether there is none.
  function DecodeValues(vs: Values): (r: (Bytes, bool)) {
    if vs == [] then ([], true)
    else
      var (bytes, ok) := Quantum(At(vs, 0), At(vs, 1), At(vs, 2), At(vs, 3));
      if !ok then ([], false)
      else
        var (more, legal) := DecodeValues(vs[Min(4, |vs|)..]);
        (bytes + more, legal)
  }

  lemma {:induction false} Bits(x: int, y: int, z: int)
    requires 0 <= x < 0x100 && 0 <= y < 0x100 && 0 <= z < 0x100
    ensures var a, b, c, d := x / 4, x % 4 * 16 + y / 16, y % 16 * 4 + z / 64, z % 64;
            && a < 64 && b < 64 && c < 64 && d < 64
            && a * 4 + b / 16 == x && b % 16 * 16 + c / 4 == y && c % 4 * 64 + d == z
  {
    assert (x % 4 * 16 + y / 16) / 16 == x % 4;
    assert (y % 16 * 4 + z / 64) / 4 == y % 16;
  }

  lemma {:induction false} GroupQuantum(src: Bytes)
    requires 1 <= |src| <= 3
    ensures var g := Group(src); Quantum(g[0], g[1], g[2], g[3]) == (src, true)
  {
    var x, y, z := src[0], if |src| > 1 then src[1] else 0, if |src| > 2 then src[2] else 0;
    Bits(x, y, z);
    if |src| == 1 {
      assert src == [x];
    } else if |src| == 2 {
      assert src == [x, y];
    } else {
      assert src == [x, y, z];
    }
  }

  // One group, and what the decoder makes of the rest.
  lemma {:induction false} DecodeGroup(src: Bytes, g: Values, t: Values)
    requires 1 <= |src| <= 3 && |g| == 4 && Quantum(g[0], g[1], g[2], g[3]) == (src, true)
    ensures DecodeValues(g + t) == (src + DecodeValues(t).0, DecodeValues(t).1)
  {
    var vs := g + t;
    assert At(vs, 0) == g[0] && At(vs, 1) == g[1] && At(vs, 2) == g[2] && At(vs, 3) == g[3];
    assert vs[4..] == t;
  }

  lemma {:induction false} GroupHead(src: Bytes)
    requires src != []
    ensures Group(src[..Min(3, |src|)]) == Group(src)
  {
    var head := src[..Min(3, |src|)];
    assert head[0] == src[0];
    assert |src| > 1 ==> head[1] == src[1];
    assert |src| > 2 ==> head[2] == src[2];
  }

  // The encoding begins with a group that decodes to the first bytes.
  lemma {:induction false} FirstGroup(src: Bytes) returns (g: Values, head: Bytes, rest: Bytes)
    requires src != []
    ensures EncodeValues(src) == g + EncodeValues(rest) && src == head + rest
    ensures 1 <= |head| <= 3 && |g| == 4 && Quantum(g[0], g[1], g[2], g[3]) == (head, true)
    ensures |head| == Min(3, |src|)
  {
    var n := Min(3, |src|);
    GroupHead(src);
    GroupQuantum(src[..n]);
    g, head, rest := Group(src), src[..n], src[n..];
  }

  lemma {:induction false} Regroup<T>(a: seq<T>, b: seq<T>, c: seq<T>)
    ensures (a + b) + c == a + (b + c)
  {
  }

  // Encodings can be put one after the other.
  lemma {:induction false} DecodeEncodedValues(src: Bytes, t: Values)
    ensures DecodeValues(EncodeValues(src) + t) == (src + DecodeValues(t).0, DecodeValues(t).1)
    decreases |src|
  {
    if src == [] {
      assert [] + t == t && [] + DecodeValues(t).0 == DecodeValues(t).0;
    } else {
      var g, head, rest := FirstGroup(src);
      DecodeEncodedValues(rest, t);
      DecodeGroup(head, g, EncodeValues(rest) + t);
      Regroup(g, EncodeValues(rest), t);
      Regroup(head, rest, DecodeValues(t).0);
    }
  }

  function PadCount(src: Bytes): nat {
    (3 - |src| % 3) % 3
  }

  // The last values of a short group are padding, with or without which it decodes.
  lemma {:induction false} GroupStripped(src: Bytes, k: nat)
    requires 1 <= |src| <= 3 && k <= PadCount(src)
    ensures |EncodeValues(src)| == 4 && (k > 0 ==> EncodeValues(src)[4 - k] == E_PAD)
    ensures DecodeValues(EncodeValues(src)[..4 - k]) == (src, true)
  {
    var g, vs := Group(src), Group(src)[..4 - k];
    assert src[|src|..] == [] && EncodeValues(src) == g;
    GroupQuantum(src);
    assert At(vs, 0) == g[0] && At(vs, 1) == g[1] && At(vs, 2) == g[2] && At(vs, 3) == g[3];
    assert vs[|vs|..] == [] && src + [] == src;
  }

  lemma {:induction false} PadRest(src: Bytes, rest: Bytes)
    requires |src| == |rest| + 3
    ensures PadCount(src) == PadCount(rest)
  {
  }

  lemma {:induction false} ValuesStripped(src: Bytes, k: nat)
    requires k <= PadCount(src)
    ensures k <= |EncodeValues(src)| && (k > 0 ==> EncodeValues(src)[|EncodeValues(src)| - k] == E_PAD)
    ensures DecodeValues(EncodeValues(src)[..|EncodeValues(src)| - k]) == (src, true)
    decreases |src|
  {
    if src == [] {
    } else if |src| <= 3 {
      GroupStripped(src, k);
    } else {
      var g, head, rest := FirstGroup(src);
      PadRest(src, rest);
      ValuesStripped(rest, k);
      var more := EncodeValues(rest);
      DecodeGroup(head, g, more[..|more| - k]);
      PrefixOfSum(g, more, k);
    }
  }

  lemma {:induction false} PrefixOfSum<T>(a: seq<T>, b: seq<T>, k: nat)
    requires k <= |b|
    ensures (a + b)[..|a + b| - k] == a + b[..|b| - k]
    ensures k > 0 ==> (a + b)[|a + b| - k] == b[|b| - k]
  {
  }

  // Encoding whole groups first and the rest later comes to the same.
  lemma {:induction false} ValuesInTwo(src: Bytes, n: nat)
    requires n <= |src| && n % 3 == 0
    ensures EncodeValues(src) == EncodeValues(src[..n]) + EncodeValues(src[n..])
    decreases n
  {
    if n == 0 {
      assert src[0..] == src && [] + EncodeValues(src) == EncodeValues(src);
    } else {
      GroupHead(src);
      GroupHead(src[..n]);
      assert src[..n][..3] == src[..3] && src[..n][3..] == src[3..][..n - 3] && src[3..][n - 3..] == src[n..];
      ValuesInTwo(src[3..], n - 3);
      Regroup(Group(src), EncodeValues(src[3..][..n - 3]), EncodeValues(src[n..]));
    }
  }

  // ---------- Characters ----------

  // b64chr, where E_PAD stands for its last character
  function Symbol(v: Value): Byte
    requires v != E_INVALID
  {
    if v < 26 then 0x41 + v
    else if v < 52 then 0x61 + (v - 26)
    else if v < 62 then 0x30 + (v - 52)
    else if v == 62 then 0x2b
    else if v == 63 then 0x2f
    else PAD
  }

  // CM_LOOKUP
  function Lookup(c: Byte): Value {
    if c == 0x2b then 0x3e
    else if c == 0x2f then 0x3f
    else if 0x30 <= c <= 0x39 then c - 0x30 + 0x34
    else if c == PAD then E_PAD
    else if 0x41 <= c <= 0x5a then c - 0x41
    else if 0x61 <= c <= 0x7a then c - 0x61 + 0x1a
    else E_INVALID
  }

  lemma {:induction false} LookupSymbol(v: Value)
    requires v != E_INVALID
    ensures Lookup(Symbol(v)) == v
  {
  }

  function Lookups(src: Bytes): (r: Values)
    ensures |r| == |src|
  {
    seq(|src|, i requires 0 <= i < |src| => Lookup(src[i]))
  }

  predicate Legal(vs: Values) {
    E_INVALID !in vs
  }

  function Symbols(vs: Values): (r: Bytes)
    requires Legal(vs)
    ensures |r| == |vs|
  {
    seq(|vs|, i requires 0 <= i < |vs| => Symbol(vs[i]))
  }

  lemma {:induction false} EncodedLegal(src: Bytes)
    ensures Legal(EncodeValues(src)) && |EncodeValues(src)| == (|src| + 2) / 3 * 4
    decreases |src|
  {
    if src != [] {
      var g, head, rest := FirstGroup(src);
      EncodedLegal(rest);
    }
  }

  function Encode(src: Bytes): Bytes {
    EncodedLegal(src);
    Symbols(EncodeValues(src))
  }

  function Decode(src: Bytes): (Bytes, bool) {
    DecodeValues(Lookups(src))
  }

  lemma {:induction false} LookupsEncoded(src: Bytes)
    ensures Lookups(Encode(src)) == EncodeValues(src)
  {
    var vs := EncodeValues(src);
    EncodedLegal(src);
    forall i | 0 <= i < |vs|
      ensures Lookups(Symbols(vs))[i] == vs[i]
    {
      LookupSymbol(vs[i]);
    }
  }

  lemma {:induction false} LookupsConcat(a: Bytes, b: Bytes)
    ensures Lookups(a + b) == Lookups(a) + Lookups(b)
  {
  }

  // For every byte string, decoding undoes encoding, and encodings can be put
  // one after the other.
  lemma {:induction false} DecodeEncoded(src: Bytes, t: Bytes)
    ensures Decode(Encode(src)) == (src, true)
    ensures Decode(Encode(src) + t) == (src + Decode(t).0, Decode(t).1)
  {
    LookupsEncoded(src);
    LookupsConcat(Encode(src), t);
    DecodeEncodedValues(src, Lookups(t));
    DecodeEncodedValues(src, []);
    assert EncodeValues(src) + [] == EncodeValues(src) && src + [] == src;
  }

  // Excess padding is not ignored, whatever comes after it.
  lemma {:induction false} ExcessPadding(src: Bytes, t: Bytes)
    ensures Decode(Encode(src) + ([PAD] + t)) == (src, false)
  {
    DecodeEncoded(src, [PAD] + t);
    assert At(Lookups([PAD] + t), 0) == E_PAD;
    assert src + [] == src;
  }

  // The padding is the last characters of the encoding; any of it can be left out.
  lemma {:induction false} PaddingStripped(src: Bytes, k: nat)
    requires k <= PadCount(src)
    ensures k <= |Encode(src)| && (k > 0 ==> Encode(src)[|Encode(src)| - k] == PAD)
    ensures Decode(Encode(src)[..|Encode(src)| - k]) == (src, true)
  {
    EncodedLegal(src);
    ValuesStripped(src, k);
    LookupsEncoded(src);
    var n := |Encode(src)| - k;
    assert Lookups(Encode(src)[..n]) == Lookups(Encode(src))[..n];
  }

  function Pads(k: nat): Bytes {
    seq(k, _ => PAD)
  }

  // The encoding without its padding.
  function Unpadded(src: Bytes): Bytes {
    PaddingStripped(src, PadCount(src));
    Encode(src)[..|Encode(src)| - PadCount(src)]
  }

  lemma {:induction false} UnpaddedPads(src: Bytes, k: nat)
    requires k <= PadCount(src)
    ensures PadCount(src) - k <= |Encode(src)|
    ensures Unpadded(src) + Pads(k) == Encode(src)[..|Encode(src)| - (PadCount(src) - k)]
  {
    PadsLast(src);
    PadsAtEnd(Encode(src), PadCount(src), k);
  }

  lemma {:induction false} PadsLast(src: Bytes)
    ensures PadCount(src) <= 2 && PadCount(src) <= |Encode(src)|
    ensures PadCount(src) > 0 ==> Encode(src)[|Encode(src)| - PadCount(src)] == PAD == Encode(src)[|Encode(src)| - 1]
  {
    PaddingStripped(src, PadCount(src));
    PaddingStripped(src, Min(PadCount(src), 1));
  }

  lemma {:induction false} PadsAtEnd(e: Bytes, p: nat, k: nat)
    requires k <= p <= 2 && p <= |e| && (p > 0 ==> e[|e| - p] == PAD == e[|e| - 1])
    ensures e[..|e| - p] + Pads(k) == e[..|e| - (p - k)]
  {
  }

  // Text without its padding decodes with k padding characters exactly if those are
  // no more than belong there.
  lemma {:induction false} PaddingExact(src: Bytes, k: nat)
    ensures Decode(Unpadded(src) + Pads(k)).1 <==> k <= PadCount(src)
    ensures Decode(Unpadded(src) + Pads(k)).0 == src
  {
    var p := PadCount(src);
    if k <= p {
      UnpaddedPads(src, k);
      PaddingStripped(src, p - k);
    } else {
      UnpaddedPads(src, p);
      assert Pads(k) == Pads(p) + ([PAD] + Pads(k - p - 1));
      assert Unpadded(src) + Pads(k) == Encode(src) + ([PAD] + Pads(k - p - 1));
      ExcessPadding(src, Pads(k - p - 1));
    }
  }

  // Encoding whole groups first and the rest later comes to the same.
  lemma {:induction false} EncodeInTwo(src: Bytes, n: nat)
    requires n <= |src| && n % 3 == 0
    ensures Encode(src) == Encode(src[..n]) + Encode(src[n..])
  {
    EncodedLegal(src);
    EncodedLegal(src[..n]);
    EncodedLegal(src[n..]);
    ValuesInTwo(src, n);
  }
}
