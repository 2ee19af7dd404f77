/** Little-endian integers and the log record layout shared by the write-ahead log
    (src/storage/wal.c:50-78) and the shared mapped log (src/storage/wal_mmap.c:13-35). */
module Records {
  import opened Keys

  const U64 := 0x1_0000_0000_0000_0000

  // ---------- Integers ----------

  function Pow256(w: nat): nat {
    if w == 0 then 1 else 256 * Pow256(w - 1)
  }

  function LE(n: nat, w: nat): (b: Bytes)
    ensures |b| == w
  {
    if w == 0 then [] else [n % 256] + LE(n / 256, w - 1)
  }

  function FromLE(b: Bytes): nat {
    if b == [] then 0 else b[0] + 256 * FromLE(b[1..])
  }

  lemma {:induction false} LERoundTrip(n: nat, w: nat)
    requires n < Pow256(w)
    ensures FromLE(LE(n, w)) == n
  {
    if w > 0 {
      LERoundTrip(n / 256, w - 1);
      assert LE(n, w)[1..] == LE(n / 256, w - 1);
    }
  }

  /** Every byte string is the form of its value. */
  lemma {:induction false} FromLEInverse(b: Bytes)
    ensures LE(FromLE(b), |b|) == b && FromLE(b) < Pow256(|b|)
  {
    if b != [] {
      FromLEInverse(b[1..]);
      assert FromLE(b) / 256 == FromLE(b[1..]) && FromLE(b) % 256 == b[0] as int;
      assert b == [b[0]] + b[1..];
    }
  }

  lemma Pow256Values()
    ensures Pow256(4) == 0x1_0000_0000 && Pow256(8) == U64
  {
    assert Pow256(2) == 65536;
    assert Pow256(4) == 256 * (256 * Pow256(2));
    assert Pow256(6) == 256 * (256 * Pow256(4));
    assert Pow256(8) == 256 * (256 * Pow256(6));
  }

  lemma U64RoundTrip(n: nat)
    requires n < U64
    ensures FromLE(LE(n, 8)) == n
  {
    Pow256Values();
    LERoundTrip(n, 8);
  }

  // ---------- Records ----------

  /** A record as appended. A delete stores the length of its value argument but not the value. */
  datatype Record = Record(seqno: nat, delete: bool, table: nat, key: Bytes, val: Bytes)

  /** A record as delivered to a reader. */
  datatype Delivery = Delivery(seqno: nat, delete: bool, table: nat, key: Bytes, val: Bytes, valLen: nat)

  const FIXED := 33

  predicate Fits64(r: Record) {
    r.seqno < U64 && r.table < U64 && |r.key| < U64 && |r.val| < U64
  }

  function Canon(r: Record): Delivery {
    Delivery(r.seqno, r.delete, r.table, r.key, if r.delete then [] else r.val, |r.val|)
  }

  function Payload(r: Record): Bytes {
    r.key + if r.delete then [] else r.val
  }

  function Head(r: Record): (b: Bytes)
    ensures |b| == FIXED
  {
    LE(r.seqno, 8) + [if r.delete then 1 else 0] + LE(r.table, 8) + LE(|r.key|, 8) + LE(|r.val|, 8)
  }

  function Encode(r: Record): (b: Bytes)
    ensures |b| == FIXED + |r.key| + if r.delete then 0 else |r.val|
  {
    Head(r) + Payload(r)
  }

  function EncodeAll(rs: seq<Record>): Bytes {
    if rs == [] then [] else EncodeAll(rs[..|rs| - 1]) + Encode(rs[|rs| - 1])
  }

  lemma {:induction false} EncodeAllAppend(a: seq<Record>, b: seq<Record>)
    ensures EncodeAll(a + b) == EncodeAll(a) + EncodeAll(b)
  {
    if b == [] {
      assert a + b == a;
    } else {
      var b0, last := b[..|b| - 1], b[|b| - 1];
      EncodeAllAppend(a, b0);
      assert (a + b)[..|a + b| - 1] == a + b0 && (a + b)[|a + b| - 1] == last;
      Assoc(EncodeAll(a), EncodeAll(b0), Encode(last));
    }
  }

  lemma Assoc(a: Bytes, b: Bytes, c: Bytes)
    ensures (a + b) + c == a + (b + c)
  {
  }

  /** The fixed part read back field by field. */
  lemma HeadFields(r: Record, b: Bytes)
    requires Fits64(r) && |b| >= FIXED && b[..FIXED] == Head(r)
    ensures FromLE(b[0..8]) == r.seqno
    ensures b[8] == if r.delete then 1 else 0
    ensures FromLE(b[9..17]) == r.table
    ensures FromLE(b[17..25]) == |r.key|
    ensures FromLE(b[25..33]) == |r.val|
  {
    var h := Head(r);
    assert b[0..8] == h[0..8] == LE(r.seqno, 8);
    assert b[8] == h[8];
    assert b[9..17] == h[9..17] == LE(r.table, 8);
    assert b[17..25] == h[17..25] == LE(|r.key|, 8);
    assert b[25..33] == h[25..33] == LE(|r.val|, 8);
    U64RoundTrip(r.seqno);
    U64RoundTrip(r.table);
    U64RoundTrip(|r.key|);
    U64RoundTrip(|r.val|);
  }
}
