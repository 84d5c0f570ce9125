// Base64 against the alphabet and the bit groups of section 4 of RFC 4648: which
// characters an encoding consists of, which texts are decoded, and to what.
module Base64Text {
  import opened Unicode
  import opened Sockets
  import opened Base64
  import Base64Calls

  const ALPHABET := "ABCDEFGHIJKLMNOPQRSTUVWXYZ" + "abcdefghijklmnopqrstuvwxyz" + "0123456789+/"

  // ---------- The alphabet ----------

  // The value i stands for the character at position i of the alphabet.
  lemma {:induction false} SymbolIs(i: nat)
    requires i < 64
    ensures |ALPHABET| == 64 && Symbol(i) as char == ALPHABET[i] && Lookup(Symbol(i)) == i
  {
    LookupSymbol(i);
  }

  // Every byte is one of the alphabet, the padding, or illegal.
  lemma {:induction false} LookupExact(c: Byte)
    ensures |ALPHABET| == 64
    ensures Lookup(c) < 64 ==> ALPHABET[Lookup(c)] == c as char
    ensures Lookup(c) < 64 <==> c as char in ALPHABET
    ensures Lookup(c) == E_PAD <==> c as char == '='
  {
    if Lookup(c) < 64 {
      SymbolIs(Lookup(c));
    } else {
      SymbolIs(0);
      forall i | 0 <= i < 64
        ensures ALPHABET[i] != c as char
      {
        SymbolIs(i);
      }
    }
  }

  // ---------- Encoding ----------

  // Bit m of a byte, the highest one first.
  function BitOf(x: Byte, m: nat): nat {
    if m == 0 then x / 128 % 2 else if m == 1 then x / 64 % 2 else if m == 2 then x / 32 % 2
    else if m == 3 then x / 16 % 2 else if m == 4 then x / 8 % 2 else if m == 5 then x / 4 % 2
    else if m == 6 then x / 2 % 2 else x % 2
  }

  // Bit k of the bytes; zero behind their end.
  function Bit(src: Bytes, k: nat): nat {
    if k / 8 < |src| then BitOf(src[k / 8], k % 8) else 0
  }

  // The number formed by six bits from bit k on.
  function SixFrom(bit: nat -> nat, k: nat): nat {
    32 * bit(k) + 16 * bit(k + 1) + 8 * bit(k + 2) + 4 * bit(k + 3) + 2 * bit(k + 4) + bit(k + 5)
  }

  // The number formed by bits 6 * i to 6 * i + 5.
  function SixBits(src: Bytes, i: nat): nat {
    SixFrom(Bits(src), 6 * i)
  }

  function Bits(src: Bytes): nat -> nat {
    k => Bit(src, k)
  }

  lemma {:induction false} SixBitsInRange(src: Bytes, i: nat)
    ensures SixBits(src, i) < 64
  {
    assert forall k :: 0 <= Bit(src, k) <= 1;
  }

  // A byte as the numbers formed by its bits.
  lemma {:induction false} ByteBits(x: Byte)
    ensures x / 64 == 2 * BitOf(x, 0) + BitOf(x, 1)
    ensures x % 64 == 32 * BitOf(x, 2) + 16 * BitOf(x, 3) + 8 * BitOf(x, 4) + 4 * BitOf(x, 5) + 2 * BitOf(x, 6) + BitOf(x, 7)
    ensures x / 16 == 8 * BitOf(x, 0) + 4 * BitOf(x, 1) + 2 * BitOf(x, 2) + BitOf(x, 3)
    ensures x % 16 == 8 * BitOf(x, 4) + 4 * BitOf(x, 5) + 2 * BitOf(x, 6) + BitOf(x, 7)
    ensures x / 4 == 32 * BitOf(x, 0) + 16 * BitOf(x, 1) + 8 * BitOf(x, 2) + 4 * BitOf(x, 3) + 2 * BitOf(x, 4) + BitOf(x, 5)
    ensures x % 4 == 2 * BitOf(x, 6) + BitOf(x, 7)
  {
    assert x / 4 == (x / 2) / 2 && x / 8 == (x / 4) / 2 && x / 16 == (x / 8) / 2;
    assert x / 32 == (x / 16) / 2 && x / 64 == (x / 32) / 2 && x / 128 == (x / 64) / 2;
  }

  lemma {:induction false} BitsDropped(src: Bytes, k: nat)
    requires |src| >= 3 && k >= 24
    ensures Bit(src, k) == Bit(src[3..], k - 24)
  {
    assert (k - 24) / 8 == k / 8 - 3 && (k - 24) % 8 == k % 8;
  }

  lemma {:induction false} AllBitsDropped(src: Bytes)
    requires |src| >= 3
    ensures forall n: nat :: n >= 24 ==> Bits(src)(n) == Bits(src[3..])(n - 24)
  {
    forall n: nat | n >= 24
      ensures Bits(src)(n) == Bits(src[3..])(n - 24)
    {
      BitsDropped(src, n);
    }
  }

  lemma {:induction false} SixBitsDropped(src: Bytes, i: nat)
    requires |src| >= 3 && i >= 4
    ensures SixBits(src, i) == SixBits(src[3..], i - 4)
  {
    AllBitsDropped(src);
    SixFromEqual(Bits(src), Bits(src[3..]), 6 * i);
  }

  lemma {:induction false} SixFromEqual(f: nat -> nat, g: nat -> nat, k: nat)
    requires k >= 24 && forall n: nat :: n >= 24 ==> f(n) == g(n - 24)
    ensures SixFrom(f, k) == SixFrom(g, k - 24)
  {
  }

  lemma {:induction false} BitAt(src: Bytes, j: nat, m: nat)
    requires m < 8
    ensures Bit(src, 8 * j + m) == if j < |src| then BitOf(src[j], m) else 0
  {
  }

  // The numbers formed by the bits of x, y and z.
  lemma {:induction false} FourNumbers(x: Byte, y: Byte, z: Byte)
    ensures x / 4 == 32 * BitOf(x, 0) + 16 * BitOf(x, 1) + 8 * BitOf(x, 2) + 4 * BitOf(x, 3) + 2 * BitOf(x, 4) + BitOf(x, 5)
    ensures x % 4 * 16 + y / 16
         == 32 * BitOf(x, 6) + 16 * BitOf(x, 7) + 8 * BitOf(y, 0) + 4 * BitOf(y, 1) + 2 * BitOf(y, 2) + BitOf(y, 3)
    ensures y % 16 * 4 + z / 64
         == 32 * BitOf(y, 4) + 16 * BitOf(y, 5) + 8 * BitOf(y, 6) + 4 * BitOf(y, 7) + 2 * BitOf(z, 0) + BitOf(z, 1)
    ensures z % 64 == 32 * BitOf(z, 2) + 16 * BitOf(z, 3) + 8 * BitOf(z, 4) + 4 * BitOf(z, 5) + 2 * BitOf(z, 6) + BitOf(z, 7)
  {
    ByteBits(x);
    ByteBits(y);
    ByteBits(z);
  }

  // The first four groups of six bits, of three bytes padded with zeros.
  lemma {:induction false} FirstSixBits(src: Bytes, x: Byte, y: Byte, z: Byte)
    requires src != [] && x == src[0] && y == (if |src| > 1 then src[1] else 0) && z == if |src| > 2 then src[2] else 0
    ensures SixBits(src, 0) == 32 * BitOf(x, 0) + 16 * BitOf(x, 1) + 8 * BitOf(x, 2) + 4 * BitOf(x, 3) + 2 * BitOf(x, 4) + BitOf(x, 5)
    ensures SixBits(src, 1) == 32 * BitOf(x, 6) + 16 * BitOf(x, 7) + 8 * BitOf(y, 0) + 4 * BitOf(y, 1) + 2 * BitOf(y, 2) + BitOf(y, 3)
    ensures SixBits(src, 2) == 32 * BitOf(y, 4) + 16 * BitOf(y, 5) + 8 * BitOf(y, 6) + 4 * BitOf(y, 7) + 2 * BitOf(z, 0) + BitOf(z, 1)
    ensures SixBits(src, 3) == 32 * BitOf(z, 2) + 16 * BitOf(z, 3) + 8 * BitOf(z, 4) + 4 * BitOf(z, 5) + 2 * BitOf(z, 6) + BitOf(z, 7)
  {
    forall m: nat | m < 8
      ensures Bit(src, m) == BitOf(x, m) && Bit(src, 8 + m) == BitOf(y, m) && Bit(src, 16 + m) == BitOf(z, m)
    {
      BitAt(src, 0, m);
      BitAt(src, 1, m);
      BitAt(src, 2, m);
    }
  }

  lemma {:induction false} FirstNumbers(src: Bytes, x: Byte, y: Byte, z: Byte)
    requires src != [] && x == src[0] && y == (if |src| > 1 then src[1] else 0) && z == if |src| > 2 then src[2] else 0
    ensures SixBits(src, 0) == x / 4 && SixBits(src, 1) == x % 4 * 16 + y / 16
    ensures SixBits(src, 2) == y % 16 * 4 + z / 64 && SixBits(src, 3) == z % 64
  {
    FirstSixBits(src, x, y, z);
    FourNumbers(x, y, z);
  }

  lemma {:induction false} GroupBits(src: Bytes, i: nat)
    requires src != [] && i < 4
    ensures Group(src)[i] == if 6 * i < 8 * |src| then SixBits(src, i) else E_PAD
  {
    var x, y, z := src[0], if |src| > 1 then src[1] else 0, if |src| > 2 then src[2] else 0;
    FirstNumbers(src, x, y, z);
    assert i == 0 || i == 1 || i == 2 || i == 3;
    var g := Group(src);
    assert g[0] == x / 4 && g[1] == x % 4 * 16 + y / 16;
  }

  lemma {:induction false} EncodedValue(src: Bytes, i: nat)
    requires i < |EncodeValues(src)|
    ensures EncodeValues(src)[i] == if 6 * i < 8 * |src| then SixBits(src, i) else E_PAD
    decreases |src|
  {
    var rest := src[Min(3, |src|)..];
    if i < 4 {
      GroupBits(src, i);
    } else {
      assert rest != [] && EncodeValues(src)[i] == EncodeValues(rest)[i - 4];
      EncodedValue(rest, i - 4);
      SixBitsDropped(src, i);
    }
  }

  // Each character stands for the next six bits, zero-filled; padding follows up to a
  // multiple of four.
  lemma {:induction false} EncodedText(src: Bytes, i: nat)
    ensures |ALPHABET| == 64 && |Encode(src)| == (|src| + 2) / 3 * 4 && SixBits(src, i) < 64
    ensures i < |Encode(src)| && 6 * i < 8 * |src| ==> Encode(src)[i] as char == ALPHABET[SixBits(src, i)]
    ensures i < |Encode(src)| && 6 * i >= 8 * |src| ==> Encode(src)[i] as char == '='
  {
    EncodedLegal(src);
    SixBitsInRange(src, i);
    SymbolIs(SixBits(src, i));
    if i < |Encode(src)| {
      EncodedValue(src, i);
    }
  }

  // ---------- Decoding ----------

  // A character that may stand at position i: a letter, or padding in the last two of
  // four, where only padding may follow it.
  predicate LegalAt(t: Bytes, i: nat)
    requires i < |t|
  {
    || t[i] as char in ALPHABET
    || (t[i] as char == '=' && i % 4 >= 2 && (i % 4 == 2 && i + 1 < |t| ==> t[i + 1] as char == '='))
  }

  predicate LegalText(t: Bytes) {
    |t| % 4 != 1 && forall i :: 0 <= i < |t| ==> LegalAt(t, i)
  }

  // The same about the values of the characters.
  predicate OkAt(vs: Values, i: nat)
    requires i < |vs|
  {
    || vs[i] < 64
    || (vs[i] == E_PAD && i % 4 >= 2 && (i % 4 == 2 && i + 1 < |vs| ==> vs[i + 1] == E_PAD))
  }

  predicate OkValues(vs: Values) {
    |vs| % 4 != 1 && forall i :: 0 <= i < |vs| ==> OkAt(vs, i)
  }

  lemma {:induction false} LegalValues(t: Bytes)
    ensures LegalText(t) <==> OkValues(Lookups(t))
  {
    forall i | 0 <= i < |t|
      ensures LegalAt(t, i) <==> OkAt(Lookups(t), i)
    {
      LookupExact(t[i]);
      if i + 1 < |t| {
        LookupExact(t[i + 1]);
      }
    }
  }

  // The first four values, or those there are.
  predicate OkStart(vs: Values)
    requires vs != []
  {
    OkAt(vs, 0) && (|vs| > 1 ==> OkAt(vs, 1)) && (|vs| > 2 ==> OkAt(vs, 2)) && (|vs| > 3 ==> OkAt(vs, 3))
  }

  lemma {:induction false} OkQuantum(vs: Values)
    requires vs != []
    ensures Quantum(At(vs, 0), At(vs, 1), At(vs, 2), At(vs, 3)).1 <==> |vs| != 1 && OkStart(vs)
  {
  }

  lemma {:induction false} OkRest(vs: Values)
    requires |vs| >= 4
    ensures OkValues(vs) <==> OkStart(vs) && OkValues(vs[4..])
  {
    var rest := vs[4..];
    assert forall i :: 0 <= i < |rest| ==> OkAt(rest, i) == OkAt(vs, i + 4);
    if OkStart(vs) && OkValues(rest) {
      forall i | 0 <= i < |vs| ensures OkAt(vs, i) {
        if i >= 4 {
          assert OkAt(rest, i - 4);
        }
      }
    }
  }

  lemma {:induction false} OkShort(vs: Values)
    requires 1 <= |vs| <= 3
    ensures OkValues(vs) <==> |vs| != 1 && OkStart(vs)
  {
    if OkStart(vs) {
      forall i | 0 <= i < |vs| ensures OkAt(vs, i) {
        assert i == 0 || i == 1 || i == 2;
      }
    }
  }

  lemma {:induction false} DecodeOk(vs: Values)
    ensures DecodeValues(vs).1 <==> OkValues(vs)
    decreases |vs|
  {
    if vs != [] {
      OkQuantum(vs);
      if |vs| >= 4 {
        OkRest(vs);
        DecodeOk(vs[4..]);
      } else {
        OkShort(vs);
        assert vs[|vs|..] == [];
      }
    }
  }

  // The texts that are decoded are exactly the legal ones.
  lemma {:induction false} DecodeLegal(t: Bytes)
    ensures Decode(t).1 <==> LegalText(t)
  {
    LegalValues(t);
    DecodeOk(Lookups(t));
  }

  // The decoder takes the first four characters, or those there are, and goes on.
  lemma {:induction false} DecodeFirst(t: Bytes)
    requires t != []
    ensures var vs := Lookups(t);
            var (bytes, ok) := Quantum(At(vs, 0), At(vs, 1), At(vs, 2), At(vs, 3));
            var more := Decode(t[Min(4, |t|)..]);
            if ok then Decode(t) == (bytes + more.0, more.1) else Decode(t) == ([], false)
  {
    assert Lookups(t)[Min(4, |t|)..] == Lookups(t[Min(4, |t|)..]);
  }

  // ---------- What is decoded ----------

  // Four letters stand for the three bytes of the number that they form; with padding
  // for the last one or two, for the first bytes of it. Bits left over are ignored.
  lemma {:induction false} DecodeNumber(a: nat, b: nat, c: nat, d: nat, t: Bytes, pads: nat)
    requires a < 64 && b < 64 && c < 64 && d < 64 && |ALPHABET| == 64 && |t| == 4 && pads <= 2
    requires t[0] as char == ALPHABET[a] && t[1] as char == ALPHABET[b]
    requires t[2] as char == if pads == 2 then '=' else ALPHABET[c]
    requires t[3] as char == if pads >= 1 then '=' else ALPHABET[d]
    ensures var n := a * 0x40000 + b * 0x1000 + (if pads == 2 then 0 else c * 0x40) + if pads >= 1 then 0 else d;
            Decode(t) == ([n / 0x10000, n / 0x100 % 0x100, n % 0x100][..3 - pads], true)
  {
    LetterValue(t[0], a);
    LetterValue(t[1], b);
    if pads < 2 {
      LetterValue(t[2], c);
    }
    if pads < 1 {
      LetterValue(t[3], d);
    }
    DecodeFour(t);
    QuantumNumber(a, b, if pads == 2 then 0 else c, if pads >= 1 then 0 else d, pads);
  }

  lemma {:induction false} DecodeFour(t: Bytes)
    requires |t| == 4
    ensures Decode(t) == Quantum(Lookup(t[0]), Lookup(t[1]), Lookup(t[2]), Lookup(t[3]))
  {
    DecodeFirst(t);
    assert t[4..] == [];
    var bytes := Quantum(Lookup(t[0]), Lookup(t[1]), Lookup(t[2]), Lookup(t[3])).0;
    assert bytes + [] == bytes;
  }

  lemma {:induction false} LetterValue(c: Byte, i: nat)
    requires i < 64 && |ALPHABET| == 64 && c as char == ALPHABET[i]
    ensures Lookup(c) == i
  {
    SymbolIs(i);
  }

  lemma {:induction false} QuantumNumber(a: nat, b: nat, c: nat, d: nat, pads: nat)
    requires a < 64 && b < 64 && c < 64 && d < 64 && pads <= 2
    requires (pads == 2 ==> c == 0) && (pads >= 1 ==> d == 0)
    ensures var n := a * 0x40000 + b * 0x1000 + c * 0x40 + d;
            && n < 0x1000000
            && Quantum(a, b, if pads == 2 then E_PAD else c, if pads >= 1 then E_PAD else d)
               == ([n / 0x10000, n / 0x100 % 0x100, n % 0x100][..3 - pads], true)
  {
    Base64Calls.Fields(a, b, c, d);
    QuantumBytes(a, b, c, d, pads, a * 4 + b / 16, b % 16 * 16 + c / 4, c % 4 * 64 + d);
  }

  lemma {:induction false} QuantumBytes(a: nat, b: nat, c: nat, d: nat, pads: nat, p: Byte, q: Byte, r: Byte)
    requires a < 64 && b < 64 && c < 64 && d < 64 && pads <= 2
    requires p == a * 4 + b / 16 && q == b % 16 * 16 + c / 4 && r == c % 4 * 64 + d
    ensures Quantum(a, b, if pads == 2 then E_PAD else c, if pads >= 1 then E_PAD else d) == ([p, q, r][..3 - pads], true)
  {
    Prefixes(p, q, r);
  }

  lemma {:induction false} Prefixes(p: Byte, q: Byte, r: Byte)
    ensures [p, q, r][..3] == [p, q, r] && [p, q, r][..2] == [p, q] && [p, q, r][..1] == [p]
  {
  }

  // A legal text of whole quanta and the text after it are decoded one after the other.
  lemma {:induction false} DecodeInTwo(t: Bytes, u: Bytes)
    requires |t| % 4 == 0 && Decode(t).1
    ensures Decode(t + u) == (Decode(t).0 + Decode(u).0, Decode(u).1)
    decreases |t|
  {
    if t == [] {
      assert t + u == u && [] + Decode(u).0 == Decode(u).0;
    } else {
      var rest := t[4..];
      assert (t + u)[Min(4, |t + u|)..] == rest + u && t[Min(4, |t|)..] == rest;
      DecodeFirst(t);
      DecodeFirst(t + u);
      var vs, ws := Lookups(t), Lookups(t + u);
      assert At(ws, 0) == At(vs, 0) && At(ws, 1) == At(vs, 1) && At(ws, 2) == At(vs, 2) && At(ws, 3) == At(vs, 3);
      DecodeInTwo(rest, u);
      Regroup(Quantum(At(vs, 0), At(vs, 1), At(vs, 2), At(vs, 3)).0, Decode(rest).0, Decode(u).0);
    }
  }

  // ---------- Examples ----------

  function Text(s: string): Bytes
    requires forall i :: 0 <= i < |s| ==> s[i] as int < 0x100
  {
    seq(|s|, i requires 0 <= i < |s| => s[i] as int)
  }

  lemma {:induction false} EncodeShort(src: Bytes)
    requires 1 <= |src| <= 3
    ensures Legal(Group(src)) && Encode(src) == Symbols(Group(src))
  {
    EncodedLegal(src);
    assert src[|src|..] == [] && Group(src) + [] == Group(src);
  }

  // The test vectors of section 10 of RFC 4648.
  lemma {:induction false} Vectors()
    ensures Encode(Text("")) == Text("") && Encode(Text("f")) == Text("Zg==") && Encode(Text("fo")) == Text("Zm8=")
    ensures Encode(Text("foo")) == Text("Zm9v") && Encode(Text("foob")) == Text("Zm9vYg==")
    ensures Encode(Text("fooba")) == Text("Zm9vYmE=") && Encode(Text("foobar")) == Text("Zm9vYmFy")
  {
    VectorsShort();
    VectorFoo();
    VectorEnds();
    VectorInTwo("foob", "b", "Zm9vYg==", "Yg==");
    VectorInTwo("fooba", "ba", "Zm9vYmE=", "YmE=");
    VectorInTwo("foobar", "bar", "Zm9vYmFy", "YmFy");
  }

  predicate IsText(s: string) {
    forall i :: 0 <= i < |s| ==> s[i] as int < 0x100
  }

  lemma {:induction false} VectorsShort()
    ensures Encode(Text("")) == Text("") && Encode(Text("f")) == Text("Zg==") && Encode(Text("fo")) == Text("Zm8=")
  {
    EncodeShort(Text("f"));
    EncodeShort(Text("fo"));
  }

  lemma {:induction false} VectorFoo()
    ensures Encode(Text("foo")) == Text("Zm9v")
  {
    EncodeShort(Text("foo"));
  }

  lemma {:induction false} VectorEnds()
    ensures Encode(Text("b")) == Text("Yg==")
    ensures Encode(Text("ba")) == Text("YmE=") && Encode(Text("bar")) == Text("YmFy")
  {
    EncodeShort(Text("b"));
    EncodeShort(Text("ba"));
    EncodeShort(Text("bar"));
  }

  lemma {:induction false} VectorInTwo(src: string, end: string, text: string, endText: string)
    requires IsText(src) && IsText(end) && IsText(text) && IsText(endText)
    requires src == "foo" + end && text == "Zm9v" + endText && Encode(Text(end)) == Text(endText)
    requires Encode(Text("foo")) == Text("Zm9v")
    ensures Encode(Text(src)) == Text(text)
  {
    EncodeInTwo(Text(src), 3);
    assert Text(src)[..3] == Text("foo") && Text(src)[3..] == Text(end) && Text(text) == Text("Zm9v") + Text(endText);
  }

  // A character that is not of the alphabet is an error.
  lemma {:induction false} IllegalExample()
    ensures Decode(Text("TWFu")) == (Text("Man"), true) && !Decode(Text("TWE*")).1
  {
    DecodeFour(Text("TWFu"));
    DecodeFour(Text("TWE*"));
    assert Quantum(19, 22, 5, 46) == ([0x4d, 0x61, 0x6e], true) && [0x4d, 0x61, 0x6e] == Text("Man");
  }
}
