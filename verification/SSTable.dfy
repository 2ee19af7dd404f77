/**
 * The sorted table file of src/storage/sstable.c: its byte layout and the writer (lines 45-282). Entries are
 * added in the order they are to be stored; the checksum and the creation time are parameters.
 */
module SSTable {
  import opened Keys
  import opened Records
  import Bloom

  const MAGIC := 0x4B534E54
  const VERSION := 2
  const INTERVAL := 32
  const TOMBSTONE := 2
  const MAX_LEN := 1048576
  const HEADER := 56
  const U32 := Bloom.U32

  datatype Entry = Entry(key: Bytes, flag: Byte, val: Bytes)
  datatype Slot = Slot(key: Bytes, off: nat)

  predicate Fits(e: Entry) {
    |e.key| <= MAX_LEN && |e.val| <= MAX_LEN
  }

  ghost predicate AllFit(es: seq<Entry>) {
    forall i :: 0 <= i < |es| ==> Fits(es[i])
  }

  // ---- parts laid end to end -----------------------------------------------------------------------

  function EncodeEntry(e: Entry): (b: Bytes)
    ensures |b| == 9 + |e.key| + |e.val|
  {
    LE(|e.key|, 4) + e.key + [e.flag] + LE(|e.val|, 4) + e.val
  }

  function EncodeSlot(s: Slot): (b: Bytes)
    ensures |b| == 12 + |s.key|
  {
    LE(|s.key|, 4) + s.key + LE(s.off, 8)
  }

  function Data(es: seq<Entry>): Bytes {
    if es == [] then [] else Data(es[..|es| - 1]) + EncodeEntry(es[|es| - 1])
  }

  function IndexBytes(ss: seq<Slot>): Bytes {
    if ss == [] then [] else IndexBytes(ss[..|ss| - 1]) + EncodeSlot(ss[|ss| - 1])
  }

  /** Where entry i starts in the file. */
  function EntryOff(es: seq<Entry>, i: nat): (p: nat)
    requires i <= |es|
  {
    HEADER + |Data(es[..i])|
  }

  function SlotOff(ss: seq<Slot>, i: nat): (p: nat)
    requires i <= |ss|
  {
    |IndexBytes(ss[..i])|
  }

  lemma Cut(f: Bytes, a: Bytes, x: Bytes, c: Bytes)
    requires f == a + x + c
    ensures f[|a|..|a| + |x|] == x
  {
  }

  lemma Regroup(pre: Bytes, a: Bytes, x: Bytes, post: Bytes)
    ensures pre + (a + x) + post == pre + a + (x + post)
    ensures pre + (a + x) + post == (pre + a) + x + post
  {
  }

  /** Entry i of the data block is found whole at its offset. */
  lemma {:induction false} EntryAt(pre: Bytes, es: seq<Entry>, post: Bytes, i: nat)
    requires |pre| == HEADER && i < |es|
    ensures EntryOff(es, i + 1) == EntryOff(es, i) + |EncodeEntry(es[i])| <= |pre + Data(es) + post|
    ensures (pre + Data(es) + post)[EntryOff(es, i)..EntryOff(es, i + 1)] == EncodeEntry(es[i])
  {
    var init, x := es[..|es| - 1], EncodeEntry(es[|es| - 1]);
    Regroup(pre, Data(init), x, post);
    assert es[..i + 1][..i] == es[..i];
    if i == |es| - 1 {
      assert es[..i + 1] == es;
      Cut(pre + Data(es) + post, pre + Data(init), x, post);
    } else {
      EntryAt(pre, init, x + post, i);
      assert init[..i] == es[..i] && init[..i + 1] == es[..i + 1];
    }
  }

  lemma {:induction false} SlotAt(pre: Bytes, ss: seq<Slot>, post: Bytes, i: nat)
    requires i < |ss|
    ensures SlotOff(ss, i + 1) == SlotOff(ss, i) + |EncodeSlot(ss[i])|
    ensures |pre| + SlotOff(ss, i + 1) <= |pre + IndexBytes(ss) + post|
    ensures (pre + IndexBytes(ss) + post)[|pre| + SlotOff(ss, i)..|pre| + SlotOff(ss, i + 1)] == EncodeSlot(ss[i])
  {
    var init, x := ss[..|ss| - 1], EncodeSlot(ss[|ss| - 1]);
    Regroup(pre, IndexBytes(init), x, post);
    assert ss[..i + 1][..i] == ss[..i];
    if i == |ss| - 1 {
      assert ss[..i + 1] == ss;
      Cut(pre + IndexBytes(ss) + post, pre + IndexBytes(init), x, post);
    } else {
      SlotAt(pre, init, x + post, i);
      assert init[..i] == ss[..i] && init[..i + 1] == ss[..i + 1];
    }
  }

  lemma DataAppend(es: seq<Entry>, e: Entry)
    ensures Data(es + [e]) == Data(es) + EncodeEntry(e)
  {
    assert (es + [e])[..|es|] == es;
  }

  lemma IndexAppend(ss: seq<Slot>, s: Slot)
    ensures IndexBytes(ss + [s]) == IndexBytes(ss) + EncodeSlot(s)
  {
    assert (ss + [s])[..|ss|] == ss;
  }

  // ---- reading one part ----------------------------------------------------------------------------

  function U32At(b: Bytes, p: nat): (n: nat)
    requires p + 4 <= |b|
  {
    FromLE(b[p..p + 4])
  }

  function U64At(b: Bytes, p: nat): (n: nat)
    requires p + 8 <= |b|
  {
    FromLE(b[p..p + 8])
  }

  lemma U32Field(b: Bytes, p: nat, n: nat)
    requires p + 4 <= |b| && b[p..p + 4] == LE(n, 4) && n < U32
    ensures U32At(b, p) == n
  {
    Pow256Values();
    LERoundTrip(n, 4);
  }

  lemma U64Field(b: Bytes, p: nat, n: nat)
    requires p + 8 <= |b| && b[p..p + 8] == LE(n, 8) && n < U64
    ensures U64At(b, p) == n
  {
    U64RoundTrip(n);
  }

  lemma SubWindow(b: Bytes, p: nat, x: Bytes, i: nat, j: nat)
    requires p + |x| <= |b| && b[p..p + |x|] == x && i <= j <= |x|
    ensures b[p + i..p + j] == x[i..j]
  {
    var w := b[p + i..p + j];
    assert |w| == |x[i..j]|;
    forall k | 0 <= k < |w| ensures w[k] == x[i..j][k] {
      assert b[p..p + |x|][i + k] == b[p + (i + k)];
    }
  }

  /** The fields of an entry read back at its place in a file. */
  lemma EntryFields(b: Bytes, p: nat, e: Entry)
    requires Fits(e) && p + |EncodeEntry(e)| <= |b| && b[p..p + |EncodeEntry(e)|] == EncodeEntry(e)
    ensures U32At(b, p) == |e.key|
    ensures b[p + 4..p + 4 + |e.key|] == e.key
    ensures b[p + 4 + |e.key|] == e.flag
    ensures U32At(b, p + 5 + |e.key|) == |e.val|
    ensures b[p + 9 + |e.key|..p + 9 + |e.key| + |e.val|] == e.val
  {
    var x, k, n := EncodeEntry(e), |e.key|, |e.key| + |e.val| + 9;
    SubWindow(b, p, x, 0, 4);
    SubWindow(b, p, x, 4, 4 + k);
    SubWindow(b, p, x, 4 + k, 5 + k);
    SubWindow(b, p, x, 5 + k, 9 + k);
    SubWindow(b, p, x, 9 + k, n);
    assert x[0..4] == LE(k, 4);
    assert x[4..4 + k] == e.key;
    assert x[4 + k..5 + k] == [e.flag];
    assert x[5 + k..9 + k] == LE(|e.val|, 4);
    assert x[9 + k..n] == e.val;
    assert b[p + 4 + k] == b[p + 4 + k..p + 5 + k][0];
    U32Field(b, p, k);
    U32Field(b, p + 5 + k, |e.val|);
  }

  lemma SlotFields(b: Bytes, p: nat, s: Slot)
    requires |s.key| <= MAX_LEN && s.off < U64 && p + |EncodeSlot(s)| <= |b| && b[p..p + |EncodeSlot(s)|] == EncodeSlot(s)
    ensures U32At(b, p) == |s.key|
    ensures b[p + 4..p + 4 + |s.key|] == s.key
    ensures U64At(b, p + 4 + |s.key|) == s.off
  {
    var x, k := EncodeSlot(s), |s.key|;
    SubWindow(b, p, x, 0, 4);
    SubWindow(b, p, x, 4, 4 + k);
    SubWindow(b, p, x, 4 + k, 12 + k);
    assert x[0..4] == LE(k, 4);
    assert x[4..4 + k] == s.key;
    assert x[4 + k..12 + k] == LE(s.off, 8);
    U32Field(b, p, k);
    U64Field(b, p + 4 + k, s.off);
  }

  // ---- the sparse index ----------------------------------------------------------------------------

  /** One slot for every 32nd entry, starting with the first. */
  function Sparse(es: seq<Entry>): (ss: seq<Slot>) {
    if es == [] then []
    else
      var init, n := es[..|es| - 1], |es| - 1;
      if n % INTERVAL == 0 then Sparse(init) + [Slot(es[n].key, EntryOff(es, n))] else Sparse(init)
  }

  lemma {:induction false} SparseAt(es: seq<Entry>, j: nat)
    ensures |Sparse(es)| == (|es| + INTERVAL - 1) / INTERVAL
    ensures j < |Sparse(es)| ==> INTERVAL * j < |es| && Sparse(es)[j] == Slot(es[INTERVAL * j].key, EntryOff(es, INTERVAL * j))
  {
    if es != [] {
      var init := es[..|es| - 1];
      SparseAt(init, j);
      if j < |Sparse(init)| { assert init[..INTERVAL * j] == es[..INTERVAL * j]; }
    }
  }

  lemma SparseAppend(es: seq<Entry>, e: Entry)
    ensures Sparse(es + [e]) ==
            if |es| % INTERVAL == 0 then Sparse(es) + [Slot(e.key, HEADER + |Data(es)|)] else Sparse(es)
  {
    assert (es + [e])[..|es|] == es;
  }

  // ---- the file ------------------------------------------------------------------------------------

  function KeySet(es: seq<Entry>): (r: set<Bytes>) {
    set e | e in es :: e.key
  }

  datatype Trailer = Trailer(sequence: nat, created: nat, shape: Bloom.Shape, bits: seq<bv8>, checksum: nat)

  function IndexOffset(es: seq<Entry>): (n: nat) {
    HEADER + |Data(es)|
  }

  function BloomOffset(es: seq<Entry>): (n: nat) {
    if es == [] then 0 else IndexOffset(es) + 4 + |IndexBytes(Sparse(es))|
  }

  function HeaderBytes(n: nat, dataLen: nat, indexOffset: nat, bloomOffset: nat, sequence: nat, created: nat): (b: Bytes)
    ensures |b| == HEADER
  {
    LE(MAGIC, 4) + LE(VERSION, 4) + LE(n, 8) + LE(dataLen, 8) + LE(indexOffset, 8) + LE(bloomOffset, 8)
    + LE(sequence, 8) + LE(created, 8)
  }

  function Header(es: seq<Entry>, t: Trailer): (b: Bytes)
    ensures |b| == HEADER
  {
    HeaderBytes(|es|, |Data(es)|, IndexOffset(es), BloomOffset(es), t.sequence, t.created)
  }

  function BloomBytes(es: seq<Entry>, t: Trailer): (b: Bytes) {
    if es == [] then [] else Bloom.Serialized(t.shape, t.bits)
  }

  function FileBytes(header: Bytes, data: Bytes, slots: nat, index: Bytes, bloom: Bytes, checksum: nat): (f: Bytes) {
    header + data + (LE(slots, 4) + (index + (bloom + LE(checksum, 4))))
  }

  /** The finished file: header, data, index count, index, filter, checksum. */
  function FileOf(es: seq<Entry>, t: Trailer): (f: Bytes) {
    FileBytes(Header(es, t), Data(es), |Sparse(es)|, IndexBytes(Sparse(es)), BloomBytes(es, t), t.checksum)
  }

  /** A file the writer can produce: its sizes fit their fields, and the filter holds exactly the keys. */
  ghost predicate TableOk(es: seq<Entry>, t: Trailer, hashes: Bloom.Hashes) {
    AllFit(es) && |es| < U32 - 64 && |FileOf(es, t)| < U64 && t.sequence < U64 && t.created < U64 && t.checksum < U32 &&
    (es != [] ==> t.shape.hashes == hashes && Bloom.Exactly(t.shape, t.bits, KeySet(es)))
  }

  /** The file of these entries, with a filter that holds exactly their keys. */
  ghost predicate IsFileOf(f: Bytes, es: seq<Entry>, hashes: Bloom.Hashes, sequence: nat, created: nat, checksum: nat) {
    exists t: Trailer ::
      f == FileOf(es, t) && t.sequence == sequence && t.created == created && t.checksum == checksum &&
      (es != [] ==> t.shape == FilterShape(hashes) && Bloom.Exactly(t.shape, t.bits, KeySet(es)))
  }

  /** The filter of every table: made for 65536 keys of 10 bits, with 7 hashes. */
  function FilterShape(hashes: Bloom.Hashes): (s: Bloom.Shape) {
    Bloom.Shape(hashes, 655360, 7, 65536)
  }

  datatype Status = Ok | Invalid

  /** The placeholder that finish replaces by the header. */
  function Blank(): (b: Bytes)
    ensures |b| == HEADER
  {
    seq<Byte>(HEADER, _ => 0)
  }

  /** The writer's buffers and counters after the entries es. */
  ghost predicate Written(file: Bytes, indexBuf: Bytes, sinceIndex: nat, es: seq<Entry>) {
    file == Blank() + Data(es) && indexBuf == IndexBytes(Sparse(es)) && AllFit(es) && sinceIndex == |es| % INTERVAL
  }

  lemma NextMod(n: nat, m: nat)
    requires m == n % INTERVAL
    ensures (if m + 1 >= INTERVAL then 0 else m + 1) == (n + 1) % INTERVAL
  {
  }

  lemma AllFitAppend(es: seq<Entry>, e: Entry)
    requires AllFit(es) && Fits(e)
    ensures AllFit(es + [e])
  {
  }

  lemma DataGrows(file: Bytes, es: seq<Entry>, e: Entry, x: Bytes)
    requires file == Blank() + Data(es) && x == EncodeEntry(e)
    ensures file + x == Blank() + Data(es + [e])
  {
    DataAppend(es, e);
    Assoc(Blank(), Data(es), x);
  }

  lemma WrittenAppend(file: Bytes, indexBuf: Bytes, sinceIndex: nat, es: seq<Entry>, e: Entry)
    requires Written(file, indexBuf, sinceIndex, es) && Fits(e)
    ensures Written(file + EncodeEntry(e), if sinceIndex == 0 then indexBuf + EncodeSlot(Slot(e.key, |file|)) else indexBuf,
                    if sinceIndex + 1 >= INTERVAL then 0 else sinceIndex + 1, es + [e])
  {
    DataGrows(file, es, e, EncodeEntry(e));
    IndexGrows(es, e, |file|);
    AllFitAppend(es, e);
    NextMod(|es|, sinceIndex);
  }

  lemma IndexGrows(es: seq<Entry>, e: Entry, size: nat)
    requires size == HEADER + |Data(es)|
    ensures IndexBytes(Sparse(es + [e])) ==
            if |es| % INTERVAL == 0 then IndexBytes(Sparse(es)) + EncodeSlot(Slot(e.key, size)) else IndexBytes(Sparse(es))
  {
    SparseAppend(es, e);
    IndexAppend(Sparse(es), Slot(e.key, size));
  }

  class Writer {
    const hashes: Bloom.Hashes
    const sequence: nat
    var file: Bytes
    var indexBuf: Bytes
    var numEntries: nat
    var sinceIndex: nat
    var bloom: Bloom.Filter?
    ghost var added: seq<Entry>

    ghost predicate Valid()
      reads this, bloom, if bloom == null then null else bloom.bits
    {
      BytesOk() && (bloom == null <==> added == []) &&
      FilterHolds(KeySet(added))
    }

    /** sstable_writer_create: a zeroed header comes first. */
    constructor (hashes: Bloom.Hashes, sequence: nat)
      ensures Valid() && added == [] && this.hashes == hashes && this.sequence == sequence
    {
      this.hashes, this.sequence := hashes, sequence;
      file, indexBuf, numEntries, sinceIndex, bloom, added := Blank(), [], 0, 0, null, [];
      Assoc(Blank(), [], []);
    }

    /** sstable_writer_add; a null key is refused whatever its length. */
    method Add(e: Entry, present: bool) returns (status: Status)
      requires Valid()
      modifies this, bloom, if bloom == null then null else bloom.bits
      ensures Valid()
      ensures bloom == old(bloom) || fresh(bloom)
      ensures bloom != null ==> bloom == old(bloom) || fresh(bloom.bits)
      ensures status == if present && Fits(e) then Ok else Invalid
      ensures added == if present && Fits(e) then old(added) + [e] else old(added)
    {
      if !present || |e.key| > MAX_LEN || |e.val| > MAX_LEN { return Invalid; }
      KeysAppend(added, e);
      AddKey(e.key);
      AddBytes(e);
      status := Ok;
    }

    ghost predicate BytesOk()
      reads this
    {
      Written(file, indexBuf, sinceIndex, added) && numEntries == |added|
    }

    /** Lines 115-150 and 163: the entry, and an index entry if it is due. */
    method AddBytes(e: Entry)
      requires BytesOk() && Fits(e)
      modifies this`file, this`indexBuf, this`sinceIndex, this`numEntries, this`added
      ensures BytesOk() && added == old(added) + [e]
    {
      WrittenAppend(file, indexBuf, sinceIndex, added, e);
      var due := sinceIndex == 0;
      var slot := EncodeSlot(Slot(e.key, |file|));
      var next := if sinceIndex + 1 >= INTERVAL then 0 else sinceIndex + 1;
      var index := if due then indexBuf + slot else indexBuf;
      var data := file + EncodeEntry(e);
      ghost var es := added + [e];
      assert Written(data, index, next, es);
      file, indexBuf, sinceIndex, numEntries, added := data, index, next, numEntries + 1, es;
    }

    ghost predicate FilterHolds(keys: set<Bytes>)
      reads this, bloom, if bloom == null then null else bloom.bits
    {
      bloom != null ==> bloom.Valid() && bloom.shape == FilterShape(hashes) && bloom.added == keys
    }

    /** Lines 152-161: the filter is made with the first key. */
    method AddKey(key: Bytes)
      requires FilterHolds(KeySet(added)) && (bloom == null ==> added == [])
      modifies this`bloom, bloom, if bloom == null then null else bloom.bits
      ensures bloom != null && FilterHolds(KeySet(added) + {key})
      ensures bloom == old(bloom) || fresh(bloom)
      ensures bloom == old(bloom) || fresh(bloom.bits)
    {
      if bloom == null {
        bloom := new Bloom.Filter(hashes, 65536, 10);
        assert KeySet(added) == {};
      }
      bloom.Insert(key);
    }

    /** The count of index entries that finish takes from the index bytes (lines 184-193). */
    method CountSlots() returns (cnt: nat)
      requires Valid()
      ensures cnt == |Sparse(added)|
    {
      ghost var ss := Sparse(added);
      var p := 0;
      cnt := 0;
      while p < |indexBuf|
        invariant cnt <= |ss| && p == SlotOff(ss, cnt)
        decreases |indexBuf| - p
      {
        SlotStep(added, cnt);
        if p + 4 > |indexBuf| { break; }
        p := p + 4 + U32At(indexBuf, p) + 8;
        cnt := cnt + 1;
      }
      AllSlots(ss, cnt);
    }

    /** sstable_writer_finish: the bytes of the finished file. */
    method Finish(created: nat, checksum: nat) returns (f: Bytes)
      requires Valid()
      ensures IsFileOf(f, added, hashes, sequence, created, checksum)
    {
      var cnt := CountSlots();
      var bloomOffset, shape, bits, bloomBytes := FilterPart();
      ghost var t := Trailer(sequence, created, shape, bits, checksum);
      f := Assemble(file, indexBuf, numEntries, cnt, bloomOffset, bloomBytes, sequence, created, checksum, added, t, hashes);
    }

    /** Lines 203-215: the filter, if any entry was added, and its place. */
    method FilterPart() returns (offset: nat, shape: Bloom.Shape, bits: seq<bv8>, bytes: Bytes)
      requires Valid()
      ensures offset == BloomOffset(added)
      ensures bytes == if added == [] then [] else Bloom.Serialized(shape, bits)
      ensures added != [] ==> shape == FilterShape(hashes) && Bloom.Exactly(shape, bits, KeySet(added))
    {
      if bloom != null && numEntries > 0 {
        return |file| + 4 + |indexBuf|, bloom.shape, bloom.bits[..], Bloom.Serialized(bloom.shape, bloom.bits[..]);
      }
      offset, shape, bits, bytes := 0, Bloom.Shape(hashes, 0, 0, 0), [], [];
    }
  }

  /** Lines 195-240: the header in place of the zeroed one, then data, index, filter and checksum. */
  method Assemble(file: Bytes, index: Bytes, n: nat, cnt: nat, offset: nat, bloom: Bytes, sequence: nat, created: nat, checksum: nat,
                  ghost es: seq<Entry>, ghost t: Trailer, ghost hashes: Bloom.Hashes) returns (f: Bytes)
    requires file == Blank() + Data(es) && index == IndexBytes(Sparse(es)) && n == |es| && cnt == |Sparse(es)|
    requires offset == BloomOffset(es) && bloom == BloomBytes(es, t)
    requires t.sequence == sequence && t.created == created && t.checksum == checksum
    requires es != [] ==> t.shape == FilterShape(hashes) && Bloom.Exactly(t.shape, t.bits, KeySet(es))
    ensures IsFileOf(f, es, hashes, sequence, created, checksum)
  {
    TailIs(Blank(), Data(es), file);
    var data := file[HEADER..];
    var header := HeaderBytes(n, |data|, |file|, offset, sequence, created);
    assert header == Header(es, t);
    f := FileBytes(header, data, cnt, index, bloom, checksum);
    assert f == FileOf(es, t);
  }

  lemma TailIs(a: Bytes, b: Bytes, f: Bytes)
    requires f == a + b
    ensures f[|a|..] == b
  {
  }

  lemma KeysAppend(es: seq<Entry>, e: Entry)
    ensures KeySet(es + [e]) == KeySet(es) + {e.key}
  {
  }

  lemma LengthField(b: Bytes, p: nat, s: Slot)
    requires |s.key| <= MAX_LEN && p + |EncodeSlot(s)| <= |b| && b[p..p + |EncodeSlot(s)|] == EncodeSlot(s)
    ensures U32At(b, p) == |s.key|
  {
    SubWindow(b, p, EncodeSlot(s), 0, 4);
    assert EncodeSlot(s)[0..4] == LE(|s.key|, 4);
    U32Field(b, p, |s.key|);
  }

  /** Reading the key length of slot n from the index bytes leads to slot n + 1. */
  lemma SlotStep(es: seq<Entry>, n: nat)
    requires AllFit(es) && n <= |Sparse(es)| && SlotOff(Sparse(es), n) < |IndexBytes(Sparse(es))|
    ensures n < |Sparse(es)| && SlotOff(Sparse(es), n) + 4 <= |IndexBytes(Sparse(es))|
    ensures SlotOff(Sparse(es), n + 1) ==
            SlotOff(Sparse(es), n) + 12 + U32At(IndexBytes(Sparse(es)), SlotOff(Sparse(es), n))
  {
    var ss := Sparse(es);
    var b, p := IndexBytes(ss), SlotOff(ss, n);
    SlotsLeft(ss, n);
    SlotAt([], ss, [], n);
    assert [] + b + [] == b;
    SparseAt(es, n);
    LengthField(b, p, ss[n]);
  }

  lemma AllSlots(ss: seq<Slot>, n: nat)
    requires n <= |ss| && SlotOff(ss, n) >= |IndexBytes(ss)|
    ensures n == |ss|
  {
    if n < |ss| { SlotAt([], ss, [], n); }
  }

  lemma SlotsLeft(ss: seq<Slot>, n: nat)
    requires n <= |ss| && SlotOff(ss, n) < |IndexBytes(ss)|
    ensures n < |ss|
  {
    assert ss[..|ss|] == ss;
  }
}
