/** Byte strings and the key order shared by every storage layer.

    All layers compare keys byte by byte and then by length
    (src/storage/lsm.c:28-35, src/storage/btree.c:30-37, src/storage/compaction.c:29-40).
    `Rank` embeds that order into the reals of [0, 1), so that proofs about sorted
    structures can use linear arithmetic instead of explicit transitivity steps. */
module Keys {

  type Byte = b: int | 0 <= b < 256
  type Bytes = seq<Byte>

  datatype Option<+T> = None | Some(value: T)

  /** The three-way comparison: `memcmp` on the common prefix, then the lengths. */
  function KeyCmp(a: Bytes, b: Bytes): (r: int)
    ensures r < 0 <==> Rank(a) < Rank(b)
    ensures r > 0 <==> Rank(a) > Rank(b)
    ensures r == 0 <==> a == b
    decreases |a|
  {
    if a == [] && b == [] then 0
    else if a == [] then -1
    else if b == [] then 1
    else if a[0] != b[0] then a[0] - b[0]
    else
      var r := KeyCmp(a[1..], b[1..]);
      assert a == [a[0]] + a[1..] && b == [b[0]] + b[1..];
      r
  }

  /** Position of a key in [0, 1): digits 1..256 in base 257, so a prefix comes first. */
  ghost function Rank(k: Bytes): (x: real)
    ensures 0.0 <= x < 1.0
  {
    if k == [] then 0.0 else (k[0] as real + 1.0 + Rank(k[1..])) / 257.0
  }

  /** The order is total: any two keys are equal or strictly ordered one way. */
  lemma RankTotal(a: Bytes, b: Bytes)
    ensures a != b ==> Rank(a) < Rank(b) || Rank(b) < Rank(a)
  {
    var _ := KeyCmp(a, b);
  }

  /** `p` is where the two keys first differ, or where the shorter one ends. */
  ghost predicate DivergeAt(a: Bytes, b: Bytes, p: nat)
  {
    && p <= |a| && p <= |b| && a[..p] == b[..p]
    && (p < |a| && p < |b| ==> a[p] != b[p])
  }

  /** What `memcmp` and the length test say together: at the point where two keys
      diverge, the one that ended or has the smaller byte comes first. */
  lemma {:induction false} KeyOrderIsLexicographic(a: Bytes, b: Bytes, p: nat)
    requires DivergeAt(a, b, p)
    ensures Rank(a) < Rank(b) <==> p < |b| && (p == |a| || a[p] < b[p])
  {
    if p > 0 {
      assert a[0] == a[..p][0] == b[..p][0] == b[0];
      assert a[1..][..p - 1] == a[..p][1..] == b[..p][1..] == b[1..][..p - 1];
      KeyOrderIsLexicographic(a[1..], b[1..], p - 1);
    }
  }
}
