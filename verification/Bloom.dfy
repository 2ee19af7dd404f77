/**
 * The Bloom filter of src/util/bloom.c. The two hash functions are arbitrary; `added` is the set of keys
 * inserted so far, and Valid() says that the bits set are exactly the bits of those keys.
 */
module Bloom {
  import opened Keys
  import opened Records

  const U32: nat := 0x1_0000_0000

  datatype Hashes = Hashes(h1: Bytes -> nat, h2: Bytes -> nat)

  // ---- bits ----------------------------------------------------------------------------------------

  function Mask(k: nat): (m: bv8)
    requires k < 8
    ensures m != 0 && m == 1 << k
  {
    match k
    case 0 => 1
    case 1 => 2
    case 2 => 4
    case 3 => 8
    case 4 => 16
    case 5 => 32
    case 6 => 64
    case _ => 128
  }

  lemma OrSetsOneBit(b: bv8, k: nat, j: nat)
    requires k < 8 && j < 8
    ensures (b | Mask(k)) & Mask(j) != 0 <==> b & Mask(j) != 0 || j == k
  {
    OrAndMask(b, Mask(k), Mask(j));
    if j != k { assert Mask(k) & Mask(j) == 0; }
  }

  lemma OrAndMask(b: bv8, m: bv8, n: bv8)
    ensures (b | m) & n == (b & n) | (m & n)
    ensures m & m == m
  {
  }

  predicate BitAt(bits: seq<bv8>, p: nat)
    requires p < 8 * |bits|
  {
    bits[p / 8] & Mask(p % 8) != 0
  }

  function SetBit(bits: seq<bv8>, p: nat): (r: seq<bv8>)
    requires p < 8 * |bits|
  {
    bits[p / 8 := bits[p / 8] | Mask(p % 8)]
  }

  lemma SetBitAt(bits: seq<bv8>, p: nat, q: nat)
    requires p < 8 * |bits| && q < 8 * |bits|
    ensures BitAt(SetBit(bits, p), q) <==> BitAt(bits, q) || q == p
  {
    if p / 8 == q / 8 { OrSetsOneBit(bits[p / 8], p % 8, q % 8); }
  }

  // ---- the filter as a value -----------------------------------------------------------------------

  datatype Shape = Shape(hashes: Hashes, numBits: nat, numHashes: nat, numKeys: nat)

  predicate ShapeOk(s: Shape) {
    0 < s.numBits <= U32 - 8 && s.numHashes < U32 && s.numKeys < U32
  }

  /** Bytes of the bit array, in 32-bit arithmetic. */
  function ByteCount(s: Shape): (n: nat)
    ensures s.numBits <= U32 - 8 ==> s.numBits <= 8 * n < s.numBits + 8
  {
    (s.numBits + 7) % U32 / 8
  }

  /** The bit of the i-th hash; the sum wraps at 64 bits. */
  function Bit(s: Shape, key: Bytes, i: nat): (p: nat)
    requires s.numBits > 0
    ensures p < s.numBits
  {
    (s.hashes.h1(key) + i * s.hashes.h2(key)) % U64 % s.numBits
  }

  ghost predicate HitBy(s: Shape, key: Bytes, n: nat, p: nat)
    requires s.numBits > 0
  {
    exists i: nat :: i < n && Bit(s, key, i) == p
  }

  ghost predicate HitByAny(s: Shape, keys: set<Bytes>, p: nat)
    requires s.numBits > 0
  {
    exists k :: k in keys && HitBy(s, k, s.numHashes, p)
  }

  /** The bits set are exactly the bits of the keys. */
  ghost predicate Exactly(s: Shape, bits: seq<bv8>, keys: set<Bytes>) {
    ShapeOk(s) && |bits| == ByteCount(s) &&
    forall p: nat {:trigger HitByAny(s, keys, p)} :: p < s.numBits ==> (BitAt(bits, p) <==> HitByAny(s, keys, p))
  }

  ghost predicate AllSet(s: Shape, bits: seq<bv8>, key: Bytes)
    requires ShapeOk(s) && |bits| == ByteCount(s)
  {
    forall i: nat :: i < s.numHashes ==> BitAt(bits, Bit(s, key, i))
  }

  /** Hash i of one key and hash j of another fall on the same bit. */
  ghost predicate SameBit(s: Shape, key: Bytes, i: nat, k: Bytes, j: nat)
    requires s.numBits > 0
  {
    (s.hashes.h1(key) + i * s.hashes.h2(key)) % 0x1_0000_0000_0000_0000 % s.numBits ==
    (s.hashes.h1(k) + j * s.hashes.h2(k)) % 0x1_0000_0000_0000_0000 % s.numBits
  }

  /** Hash i of the key falls on a bit that some hash of some of the keys falls on. */
  ghost predicate CoveredAt(s: Shape, keys: set<Bytes>, key: Bytes, i: nat)
    requires s.numBits > 0
  {
    exists k, j: nat :: k in keys && j < s.numHashes && SameBit(s, key, i, k, j)
  }

  ghost predicate Covered(s: Shape, keys: set<Bytes>, key: Bytes)
    requires s.numBits > 0
  {
    forall i: nat {:trigger CoveredAt(s, keys, key, i)} :: i < s.numHashes ==> CoveredAt(s, keys, key, i)
  }

  /** A key passes exactly when all its bits are bits of inserted keys. */
  lemma PassesIff(s: Shape, bits: seq<bv8>, keys: set<Bytes>, key: Bytes)
    requires Exactly(s, bits, keys)
    ensures AllSet(s, bits, key) <==> Covered(s, keys, key)
  {
    forall i: nat {:trigger CoveredAt(s, keys, key, i)} | i < s.numHashes
      ensures BitAt(bits, Bit(s, key, i)) <==> CoveredAt(s, keys, key, i)
    {
      HitIff(s, keys, key, i);
    }
    if AllSet(s, bits, key) {
      forall i: nat {:trigger CoveredAt(s, keys, key, i)} | i < s.numHashes ensures CoveredAt(s, keys, key, i) {
        assert BitAt(bits, Bit(s, key, i));
      }
    }
    if Covered(s, keys, key) {
      forall i: nat | i < s.numHashes ensures BitAt(bits, Bit(s, key, i)) { assert CoveredAt(s, keys, key, i); }
    }
  }

  lemma HitIff(s: Shape, keys: set<Bytes>, key: Bytes, i: nat)
    requires s.numBits > 0
    ensures HitByAny(s, keys, Bit(s, key, i)) <==> CoveredAt(s, keys, key, i)
  {
    if HitByAny(s, keys, Bit(s, key, i)) {
      var k :| k in keys && HitBy(s, k, s.numHashes, Bit(s, key, i));
      var j: nat :| j < s.numHashes && Bit(s, k, j) == Bit(s, key, i);
      assert SameBit(s, key, i, k, j);
    }
    if CoveredAt(s, keys, key, i) {
      var k, j: nat :| k in keys && j < s.numHashes && SameBit(s, key, i, k, j);
      assert Bit(s, k, j) == Bit(s, key, i);
      assert HitBy(s, k, s.numHashes, Bit(s, key, i));
    }
  }

  /** No false negatives: every inserted key passes. */
  lemma MemberPasses(s: Shape, bits: seq<bv8>, keys: set<Bytes>, key: Bytes)
    requires Exactly(s, bits, keys) && key in keys
    ensures AllSet(s, bits, key)
  {
    forall i: nat | i < s.numHashes ensures BitAt(bits, Bit(s, key, i)) {
      assert HitBy(s, key, s.numHashes, Bit(s, key, i));
      assert HitByAny(s, keys, Bit(s, key, i));
    }
  }

  /** `bits` is `was` with the first n bits of the key set. */
  ghost predicate Added(s: Shape, key: Bytes, n: nat, was: seq<bv8>, bits: seq<bv8>) {
    ShapeOk(s) && |was| == |bits| == ByteCount(s) &&
    forall p: nat {:trigger AddedAt(s, key, n, was, bits, p)} :: p < s.numBits ==> AddedAt(s, key, n, was, bits, p)
  }

  lemma InsertedExactly(s: Shape, was: seq<bv8>, bits: seq<bv8>, keys: set<Bytes>, key: Bytes)
    requires Exactly(s, was, keys) && |bits| == |was|
    requires Added(s, key, s.numHashes, was, bits)
    ensures Exactly(s, bits, keys + {key})
  {
    forall p: nat {:trigger HitByAny(s, keys + {key}, p)} | p < s.numBits
      ensures BitAt(bits, p) <==> HitByAny(s, keys + {key}, p)
    {
      assert AddedAt(s, key, s.numHashes, was, bits, p);
      assert HitBy(s, key, s.numHashes, p) ==> HitByAny(s, keys + {key}, p);
      assert HitByAny(s, keys, p) ==> HitByAny(s, keys + {key}, p);
    }
  }

  // ---- sizes ---------------------------------------------------------------------------------------

  lemma RatioBound(x: real, n: real)
    requires x >= 0.0 && n >= 1.0
    ensures 0.0 <= x / n <= x
  {
    var q := x / n;
    assert q * n == x;
    assert q < 0.0 ==> q * n < 0.0;
    assert q >= 0.0 ==> q * n >= q;
  }

  /** optimal_k, over the reals. */
  function OptimalK(numBits: nat, numKeys: nat): (k: nat)
    ensures k >= 1
    ensures numBits < U32 ==> k < U32
    ensures numKeys > 0 ==> numBits as real / numKeys as real * 0.69314718 < k as real + 0.5
    ensures numKeys > 0 && k > 1 ==> k as real - 0.5 <= numBits as real / numKeys as real * 0.69314718
  {
    if numKeys == 0 then 1
    else
      RatioBound(numBits as real, numKeys as real);
      var k := (numBits as real / numKeys as real * 0.69314718 + 0.5).Floor;
      if k < 1 then 1 else k
  }

  /** At least 64, rounded up to a multiple of 64 in 32-bit arithmetic. */
  function RoundBits(raw: nat): (n: nat)
    requires raw < U32
    ensures n < U32 && n % 64 == 0 && (n == 0 <==> raw > U32 - 64)
    ensures raw <= U32 - 64 ==> raw <= n && 64 <= n && (n == 64 || n < raw + 64)
  {
    (if raw < 64 then 127 else raw + 63) % U32 / 64 * 64
  }

  /** The number of bits of kanbudb_bloom_create, in 32-bit arithmetic: a multiple of 64. */
  function NumBits(numKeys: nat, bitsPerKey: nat): (n: nat)
    ensures n < U32 && n % 64 == 0 && (n == 0 <==> numKeys * bitsPerKey % U32 > U32 - 64)
    ensures numKeys * bitsPerKey <= U32 - 64 ==> numKeys * bitsPerKey <= n && 64 <= n && (n == 64 || n < numKeys * bitsPerKey + 64)
  {
    var product := numKeys * bitsPerKey;
    RoundBits(product % U32)
  }

  // ---- serialized form -----------------------------------------------------------------------------

  function ToBytes(bits: seq<bv8>): (b: Bytes)
    ensures |b| == |bits|
  {
    seq<Byte>(|bits|, i requires 0 <= i < |bits| => bits[i] as Byte)
  }

  function FromBytes(b: Bytes): (bits: seq<bv8>)
    ensures |bits| == |b|
  {
    seq(|b|, i requires 0 <= i < |b| => b[i] as bv8)
  }

  lemma ByteRoundTrip(x: bv8)
    ensures (x as Byte) as bv8 == x
  {
  }

  lemma BitsRoundTrip(bits: seq<bv8>)
    ensures FromBytes(ToBytes(bits)) == bits
  {
    forall i | 0 <= i < |bits| ensures FromBytes(ToBytes(bits))[i] == bits[i] {
      ByteRoundTrip(bits[i]);
    }
  }

  function Serialized(s: Shape, bits: seq<bv8>): (b: Bytes)
    ensures |b| == 12 + |bits|
  {
    LE(s.numBits, 4) + LE(s.numHashes, 4) + LE(s.numKeys, 4) + ToBytes(bits)
  }

  /** kanbudb_bloom_load: the shape and the bits, if the buffer is long enough. */
  function Loaded(h: Hashes, buf: Bytes): (r: Option<(Shape, seq<bv8>)>)
  {
    if |buf| < 12 then None
    else
      var s := Shape(h, FromLE(buf[..4]), FromLE(buf[4..8]), FromLE(buf[8..12]));
      if |buf| < 12 + ByteCount(s) then None else Some((s, FromBytes(buf[12..12 + ByteCount(s)])))
  }

  /** A filter reads back as it was written, whatever follows it in the file. */
  lemma LoadsBack(s: Shape, bits: seq<bv8>, rest: Bytes)
    requires ShapeOk(s) && |bits| == ByteCount(s)
    ensures Loaded(s.hashes, Serialized(s, bits) + rest) == Some((s, bits))
  {
    var buf := Serialized(s, bits) + rest;
    Pow256Values();
    LERoundTrip(s.numBits, 4);
    LERoundTrip(s.numHashes, 4);
    LERoundTrip(s.numKeys, 4);
    assert buf[..4] == LE(s.numBits, 4);
    assert buf[4..8] == LE(s.numHashes, 4);
    assert buf[8..12] == LE(s.numKeys, 4);
    assert buf[12..12 + ByteCount(s)] == ToBytes(bits);
    BitsRoundTrip(bits);
  }

  class Filter {
    const shape: Shape
    const bits: array<bv8>
    ghost var added: set<Bytes>

    ghost predicate Valid()
      reads this, bits
    {
      Exactly(shape, bits[..], added)
    }

    /** The filter of that many bits, all clear. A product that rounds up to 0 in 32 bits gives a filter of no bits, which
        cannot be used: its first use would divide by zero. */
    constructor (hashes: Hashes, numKeys: nat, bitsPerKey: nat)
      requires 0 < numKeys < U32 && 0 < bitsPerKey < 256
      ensures Valid() <==> numKeys * bitsPerKey % U32 <= U32 - 64
      ensures added == {} && fresh(bits) && bits.Length == ByteCount(shape)
      ensures shape == Shape(hashes, NumBits(numKeys, bitsPerKey), OptimalK(NumBits(numKeys, bitsPerKey), numKeys), numKeys)
    {
      var n := NumBits(numKeys, bitsPerKey);
      shape := Shape(hashes, n, OptimalK(n, numKeys), numKeys);
      bits := new bv8[(n + 7) / 8](_ => 0);
      added := {};
    }

    /** kanbudb_bloom_insert */
    method Insert(key: Bytes)
      requires Valid()
      modifies this`added, bits
      ensures Valid() && added == old(added) + {key}
    {
      ghost var was := bits[..];
      assert Exactly(shape, was, added);
      for i := 0 to shape.numHashes
        invariant Added(shape, key, i, was, bits[..]) && added == old(added)
      {
        var b := Bit(shape, key, i);
        ghost var mid := bits[..];
        bits[b / 8] := bits[b / 8] | Mask(b % 8);
        assert bits[..] == SetBit(mid, b);
        OneHash(shape, key, was, mid, bits[..], i);
      }
      ghost var now := bits[..];
      InsertedExactly(shape, was, now, added, key);
      added := added + {key};
    }

    /** kanbudb_bloom_maybe: true exactly if all bits of the key are bits of inserted keys; so false only for a key that was never
        inserted. */
    method Maybe(key: Bytes) returns (r: bool)
      requires Valid()
      ensures r <==> Covered(shape, added, key)
      ensures key in added ==> r
    {
      PassesIff(shape, bits[..], added, key);
      if key in added { MemberPasses(shape, bits[..], added, key); }
      r := Check(shape, bits[..], key);
    }
  }

  /** kanbudb_bloom_create: no filter without keys or bits; otherwise one that can be used exactly if its number of bits does
      not round up to 0 in 32 bits. */
  method Create(hashes: Hashes, numKeys: nat, bitsPerKey: nat) returns (f: Filter?)
    requires numKeys < U32 && bitsPerKey < 256
    ensures f == null <==> numKeys == 0 || bitsPerKey == 0
    ensures f != null ==> fresh(f) && fresh(f.bits) && f.added == {} && f.shape.hashes == hashes
    ensures f != null ==> f.shape.numBits == NumBits(numKeys, bitsPerKey) && f.shape.numKeys == numKeys
    ensures f != null ==> (f.Valid() <==> numKeys * bitsPerKey % U32 <= U32 - 64)
  {
    if numKeys == 0 || bitsPerKey == 0 { return null; }
    f := new Filter(hashes, numKeys, bitsPerKey);
  }

  lemma HitStep(s: Shape, key: Bytes, i: nat, p: nat)
    requires s.numBits > 0
    ensures HitBy(s, key, i + 1, p) <==> HitBy(s, key, i, p) || Bit(s, key, i) == p
  {
  }

  ghost predicate AddedAt(s: Shape, key: Bytes, n: nat, was: seq<bv8>, bits: seq<bv8>, p: nat)
    requires ShapeOk(s) && |was| == |bits| == ByteCount(s) && p < s.numBits
  {
    BitAt(bits, p) <==> BitAt(was, p) || HitBy(s, key, n, p)
  }

  lemma OneHashAt(s: Shape, key: Bytes, was: seq<bv8>, mid: seq<bv8>, now: seq<bv8>, i: nat, p: nat)
    requires ShapeOk(s) && |was| == |mid| == ByteCount(s) && p < s.numBits && now == SetBit(mid, Bit(s, key, i))
    requires AddedAt(s, key, i, was, mid, p)
    ensures |now| == |mid| && AddedAt(s, key, i + 1, was, now, p)
  {
    SetBitAt(mid, Bit(s, key, i), p);
    HitStep(s, key, i, p);
  }

  lemma OneHash(s: Shape, key: Bytes, was: seq<bv8>, mid: seq<bv8>, now: seq<bv8>, i: nat)
    requires ShapeOk(s) && |mid| == ByteCount(s)
    requires Added(s, key, i, was, mid) && now == SetBit(mid, Bit(s, key, i))
    ensures Added(s, key, i + 1, was, now)
  {
    var n := i + 1;
    assert |now| == |mid|;
    forall p: nat {:trigger AddedAt(s, key, n, was, now, p)} | p < s.numBits ensures AddedAt(s, key, n, was, now, p) {
      OneHashAt(s, key, was, mid, now, i, p);
    }
  }

  /** The loop of kanbudb_bloom_maybe. */
  method Check(s: Shape, bits: seq<bv8>, key: Bytes) returns (r: bool)
    requires ShapeOk(s) && |bits| == ByteCount(s)
    ensures r <==> AllSet(s, bits, key)
  {
    for i := 0 to s.numHashes
      invariant forall j: nat :: j < i ==> BitAt(bits, Bit(s, key, j))
    {
      var b := Bit(s, key, i);
      if bits[b / 8] & Mask(b % 8) == 0 {
        assert !BitAt(bits, Bit(s, key, i));
        return false;
      }
    }
    r := true;
  }
}
