/**
 * UTF-8 as written and read by src/vector/embedding.c:25-72 (section 3 of RFC 3629): decoding gives back the code
 * points encoded, and the byte order of encoded texts is the order of their code points.
 */
module Utf8 {
  import opened Keys

  /** What up to four bytes can carry: the code points of section 3 of RFC 3629 and those above them. */
  type Cp = n: int | 0 <= n <= 0x1FFFFF

  /** cp_to_utf8 */
  function Encode(c: Cp): (b: Bytes)
    ensures 1 <= |b| <= 4
  {
    if c < 0x80 then [c]
    else if c < 0x800 then [0xC0 + c / 64, 0x80 + c % 64]
    else if c < 0x10000 then [0xE0 + c / 4096, 0x80 + c / 64 % 64, 0x80 + c % 64]
    else [0xF0 + c / 262144, 0x80 + c / 4096 % 64, 0x80 + c / 64 % 64, 0x80 + c % 64]
  }

  /** The value bits of a byte. */
  function Bits(b: Byte, m: nat): (n: nat)
    requires m > 0
    ensures n < m
  {
    b as int % m
  }

  /** utf8_decode_cp: the code point and the bytes it takes, 0 bytes for an invalid start. */
  function Decode(b: Bytes): (r: (nat, nat)) {
    if |b| == 0 then (0, 0)
    else if b[0] < 0x80 then (b[0], 1)
    else if 0xC0 <= b[0] < 0xE0 && |b| >= 2 then (Bits(b[0], 32) * 64 + Bits(b[1], 64), 2)
    else if 0xE0 <= b[0] < 0xF0 && |b| >= 3 then (Bits(b[0], 16) * 4096 + Bits(b[1], 64) * 64 + Bits(b[2], 64), 3)
    else if 0xF0 <= b[0] < 0xF8 && |b| >= 4 then
      (Bits(b[0], 8) * 262144 + Bits(b[1], 64) * 4096 + Bits(b[2], 64) * 64 + Bits(b[3], 64), 4)
    else (0, 0)
  }

  /** The value bits under each of the four prefixes. */
  lemma BitsUnder(q: nat)
    ensures q < 64 ==> Bits(0x80 + q, 64) == q
    ensures q < 32 ==> Bits(0xC0 + q, 32) == q
    ensures q < 16 ==> Bits(0xE0 + q, 16) == q
    ensures q < 8 ==> Bits(0xF0 + q, 8) == q
  {
  }

  lemma Decode2(c: nat, rest: Bytes)
    requires 0x80 <= c < 0x800
    ensures Decode([0xC0 + c / 64, 0x80 + c % 64] + rest) == (c, 2)
  {
    var b := [0xC0 + c / 64, 0x80 + c % 64] + rest;
    assert b[0] == 0xC0 + c / 64 && b[1] == 0x80 + c % 64;
    BitsUnder(c / 64);
    BitsUnder(c % 64);
  }

  lemma Decode3(c: nat, rest: Bytes)
    requires 0x800 <= c < 0x10000
    ensures Decode([0xE0 + c / 4096, 0x80 + c / 64 % 64, 0x80 + c % 64] + rest) == (c, 3)
  {
    Digits3(c);
    var b := [0xE0 + c / 4096, 0x80 + c / 64 % 64, 0x80 + c % 64] + rest;
    assert b[0] == 0xE0 + c / 4096 && b[1] == 0x80 + c / 64 % 64 && b[2] == 0x80 + c % 64;
    BitsUnder(c / 4096);
    BitsUnder(c / 64 % 64);
    BitsUnder(c % 64);
  }

  lemma Decode4(c: nat, rest: Bytes)
    requires 0x10000 <= c < 0x200000
    ensures Decode([0xF0 + c / 262144, 0x80 + c / 4096 % 64, 0x80 + c / 64 % 64, 0x80 + c % 64] + rest) == (c, 4)
  {
    Digits4(c);
    var b := [0xF0 + c / 262144, 0x80 + c / 4096 % 64, 0x80 + c / 64 % 64, 0x80 + c % 64] + rest;
    assert b[0] == 0xF0 + c / 262144 && b[1] == 0x80 + c / 4096 % 64 && b[2] == 0x80 + c / 64 % 64 && b[3] == 0x80 + c % 64;
    BitsUnder(c / 262144);
    BitsUnder(c / 4096 % 64);
    BitsUnder(c / 64 % 64);
    BitsUnder(c % 64);
  }

  /** Decoding the encoding of a code point gives it back, whatever follows. */
  lemma DecodeEncode(c: Cp, rest: Bytes)
    ensures Decode(Encode(c) + rest) == (c, |Encode(c)|)
  {
    if c >= 0x10000 { Decode4(c, rest); } else if c >= 0x800 { Decode3(c, rest); } else if c >= 0x80 { Decode2(c, rest); }
  }

  /** How many bytes any bytes decode to: the top bits of the first one say it, if there are as many. */
  lemma DecodeIff(b: Bytes)
    ensures Decode(b).1 <= 4 && Decode(b).1 <= |b|
    ensures Decode(b).1 == 1 <==> |b| >= 1 && b[0] / 128 == 0
    ensures Decode(b).1 == 2 <==> |b| >= 2 && b[0] / 32 == 6
    ensures Decode(b).1 == 3 <==> |b| >= 3 && b[0] / 16 == 14
    ensures Decode(b).1 == 4 <==> |b| >= 4 && b[0] / 8 == 30
  {
  }

  /** A code point of this size is not encoded with fewer bytes. */
  predicate Shortest(c: nat, n: nat) {
    n <= 1 || (n == 2 && c >= 0x80) || (n == 3 && c >= 0x800) || (n == 4 && c >= 0x10000)
  }

  /** What was decoded encodes to the bytes it was read from exactly if those after the first start with the bits 10 and no
      shorter form exists. */
  lemma EncodeDecodeIff(b: Bytes)
    requires Decode(b).1 > 0
    ensures Decode(b).0 <= 0x1FFFFF && Decode(b).1 <= |b|
    ensures Encode(Decode(b).0) == b[..Decode(b).1] <==>
            (forall i :: 0 < i < Decode(b).1 ==> b[i] / 64 == 2) && Shortest(Decode(b).0, Decode(b).1)
  {
    var (c, n) := Decode(b);
    DecodeIff(b);
    if n == 2 { Encode2Iff(b); } else if n == 3 { Encode3Iff(b); } else if n == 4 { Encode4Iff(b); }
  }

  lemma Encode2Iff(b: Bytes)
    requires Decode(b).1 == 2
    ensures Decode(b).0 < 0x800 && |b| >= 2
    ensures Encode(Decode(b).0) == b[..2] <==> b[1] / 64 == 2 && Decode(b).0 >= 0x80
  {
    var c := Decode(b).0;
    DecodeIff(b);
    assert c / 64 == Bits(b[0], 32) && c % 64 == Bits(b[1], 64);
    assert b[..2] == [b[0], b[1]];
  }

  lemma Encode3Iff(b: Bytes)
    requires Decode(b).1 == 3
    ensures Decode(b).0 < 0x10000 && |b| >= 3
    ensures Encode(Decode(b).0) == b[..3] <==> b[1] / 64 == 2 && b[2] / 64 == 2 && Decode(b).0 >= 0x800
  {
    var c := Decode(b).0;
    DecodeIff(b);
    Digits3(c);
    assert c / 4096 == Bits(b[0], 16) && c / 64 % 64 == Bits(b[1], 64) && c % 64 == Bits(b[2], 64);
    assert b[..3] == [b[0], b[1], b[2]];
  }

  lemma Encode4Iff(b: Bytes)
    requires Decode(b).1 == 4
    ensures Decode(b).0 < 0x200000 && |b| >= 4
    ensures Encode(Decode(b).0) == b[..4] <==>
            b[1] / 64 == 2 && b[2] / 64 == 2 && b[3] / 64 == 2 && Decode(b).0 >= 0x10000
  {
    var c := Decode(b).0;
    DecodeIff(b);
    Digits4(c);
    assert c / 262144 == Bits(b[0], 8) && c / 4096 % 64 == Bits(b[1], 64) && c / 64 % 64 == Bits(b[2], 64) && c % 64 == Bits(b[3], 64);
    assert b[..4] == [b[0], b[1], b[2], b[3]];
  }

  lemma Digits3(c: nat)
    requires c < 0x10000
    ensures c == c / 4096 * 4096 + c / 64 % 64 * 64 + c % 64 && c / 4096 < 16
  {
    assert c / 64 / 64 == c / 4096;
  }

  lemma Digits4(c: nat)
    requires c < 0x200000
    ensures c == c / 262144 * 262144 + c / 4096 % 64 * 4096 + c / 64 % 64 * 64 + c % 64 && c / 262144 < 8
  {
    assert c / 64 / 64 == c / 4096 && c / 4096 / 64 == c / 262144;
  }

  // ---- texts ---------------------------------------------------------------------------------------

  function EncodeAll(cs: seq<Cp>): (b: Bytes) {
    if cs == [] then [] else Encode(cs[0]) + EncodeAll(cs[1..])
  }

  /** Reading code points one after the other; None if a byte is not a valid start. */
  function DecodeAll(b: Bytes): (r: Option<seq<nat>>)
    decreases |b|
  {
    if b == [] then Some([])
    else
      var (c, n) := Decode(b);
      if n == 0 || n > |b| then None
      else
        var rest := DecodeAll(b[n..]);
        if rest == None then None else Some([c] + rest.value)
  }

  lemma {:induction false} TextRoundTrip(cs: seq<Cp>)
    ensures DecodeAll(EncodeAll(cs)) == Some(cs)
  {
    if cs != [] {
      var x, rest := Encode(cs[0]), EncodeAll(cs[1..]);
      DecodeEncode(cs[0], rest);
      TextRoundTrip(cs[1..]);
      assert (x + rest)[|x|..] == rest;
      assert cs == [cs[0]] + cs[1..];
    }
  }

  lemma EncodeInjective(a: seq<Cp>, b: seq<Cp>)
    requires EncodeAll(a) == EncodeAll(b)
    ensures a == b
  {
    TextRoundTrip(a);
    TextRoundTrip(b);
  }

  // ---- order ---------------------------------------------------------------------------------------

  /** Code-point order of texts: by the first difference, a prefix first. */
  function CpCmp(a: seq<Cp>, b: seq<Cp>): (r: int)
    ensures r == 0 <==> a == b
  {
    if a == [] && b == [] then 0
    else if a == [] then -1
    else if b == [] then 1
    else if a[0] != b[0] then a[0] - b[0]
    else
      assert a == [a[0]] + a[1..] && b == [b[0]] + b[1..];
      CpCmp(a[1..], b[1..])
  }

  /** Where the encodings of two different code points first differ, the smaller code point has the smaller byte. */
  lemma FirstDifference(c: Cp, d: Cp) returns (p: nat)
    requires c < d
    ensures p < |Encode(c)| && p < |Encode(d)| && Encode(c)[..p] == Encode(d)[..p] && Encode(c)[p] < Encode(d)[p]
  {
    var x, y := Encode(c), Encode(d);
    p := 0;
    if x[0] < y[0] { return; }
    if d >= 0x10000 {
      SameClass4(c, d);
      p := if x[1] < y[1] then 1 else if x[2] < y[2] then 2 else 3;
    } else if d >= 0x800 {
      SameClass3(c, d);
      p := if x[1] < y[1] then 1 else 2;
    } else {
      p := 1;
    }
  }

  lemma SameClass3(c: Cp, d: Cp)
    requires c < d && 0x800 <= d < 0x10000 && Encode(c)[0] >= Encode(d)[0]
    ensures |Encode(c)| == 3 && Encode(c)[0] == Encode(d)[0] && Encode(c)[1] <= Encode(d)[1]
    ensures Encode(c)[1] == Encode(d)[1] ==> Encode(c)[2] < Encode(d)[2]
  {
    assert c >= 0x800;
    Digits3(c);
    Digits3(d);
  }

  lemma SameClass4(c: Cp, d: Cp)
    requires c < d && 0x10000 <= d && Encode(c)[0] >= Encode(d)[0]
    ensures |Encode(c)| == 4 && Encode(c)[0] == Encode(d)[0] && Encode(c)[1] <= Encode(d)[1]
    ensures Encode(c)[1] == Encode(d)[1] ==> Encode(c)[2] <= Encode(d)[2]
    ensures Encode(c)[1] == Encode(d)[1] && Encode(c)[2] == Encode(d)[2] ==> Encode(c)[3] < Encode(d)[3]
  {
    assert c >= 0x10000;
    Digits4(c);
    Digits4(d);
  }

  lemma {:induction false} SamePrefix(x: Bytes, a: Bytes, b: Bytes)
    ensures Rank(x + a) < Rank(x + b) <==> Rank(a) < Rank(b)
  {
    if x != [] {
      SamePrefix(x[1..], a, b);
      assert (x + a)[1..] == x[1..] + a && (x + b)[1..] == x[1..] + b;
    } else {
      assert x + a == a && x + b == b;
    }
  }

  /** The byte order of encoded texts is their code-point order. */
  lemma {:induction false} OrderIsCodePointOrder(a: seq<Cp>, b: seq<Cp>)
    ensures CpCmp(a, b) < 0 <==> Rank(EncodeAll(a)) < Rank(EncodeAll(b))
  {
    if a == [] || b == [] {
      if b != [] { NonEmptyAbove(EncodeAll(b)); }
      if a != [] { NonEmptyAbove(EncodeAll(a)); }
    } else if a[0] == b[0] {
      OrderIsCodePointOrder(a[1..], b[1..]);
      SamePrefix(Encode(a[0]), EncodeAll(a[1..]), EncodeAll(b[1..]));
    } else if a[0] < b[0] {
      Differ(a[0], EncodeAll(a[1..]), b[0], EncodeAll(b[1..]));
    } else {
      Differ(b[0], EncodeAll(b[1..]), a[0], EncodeAll(a[1..]));
    }
  }

  lemma NonEmptyAbove(b: Bytes)
    requires b != []
    ensures Rank(b) > Rank([])
  {
    var _ := KeyCmp([], b);
  }

  lemma Differ(c: Cp, a: Bytes, d: Cp, b: Bytes)
    requires c < d
    ensures Rank(Encode(c) + a) < Rank(Encode(d) + b)
  {
    var p := FirstDifference(c, d);
    var x, y := Encode(c) + a, Encode(d) + b;
    assert x[..p] == Encode(c)[..p] && y[..p] == Encode(d)[..p];
    assert x[p] == Encode(c)[p] && y[p] == Encode(d)[p];
    KeyOrderIsLexicographic(x, y, p);
  }
}
