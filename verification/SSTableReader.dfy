/**
 * Reading a sorted table file (src/storage/sstable.c:320-558): opening, point lookup through the filter and
 * the sparse index, and the full scan. Any bytes can be opened; lookup and scan are for files that SSTable.Writer
 * produced for some list of entries.
 */
module SSTableReader {
  import opened Keys
  import opened Records
  import opened SSTable
  import Bloom

  /** Keys strictly increase. */
  ghost predicate Ascending(es: seq<Entry>) {
    forall i, j :: 0 <= i < j < |es| ==> Rank(es[i].key) < Rank(es[j].key)
  }

  datatype Answer = Missing | Deleted(flag: Byte) | Found(val: Bytes, flag: Byte)

  predicate IsTombstone(e: Entry) {
    e.flag / 2 % 2 == 1
  }

  function AnswerOf(e: Entry): (a: Answer) {
    if IsTombstone(e) then Deleted(e.flag) else Found(e.val, e.flag)
  }

  /** The plain reading of a table: the first entry with the key. */
  function Lookup(es: seq<Entry>, key: Bytes): (a: Answer) {
    if es == [] then Missing
    else if es[0].key == key then AnswerOf(es[0])
    else Lookup(es[1..], key)
  }

  lemma {:induction false} LookupAt(es: seq<Entry>, key: Bytes, m: nat)
    requires Ascending(es) && m < |es| && es[m].key == key
    ensures Lookup(es, key) == AnswerOf(es[m])
  {
    if m > 0 {
      assert Rank(es[0].key) < Rank(es[m].key);
      LookupAt(es[1..], key, m - 1);
    }
  }

  lemma {:induction false} LookupNone(es: seq<Entry>, key: Bytes)
    requires forall i :: 0 <= i < |es| ==> es[i].key != key
    ensures Lookup(es, key) == Missing
  {
    if es != [] { LookupNone(es[1..], key); }
  }

  /** What a lookup means: the value of the entry with the key, unless the entry carries the tombstone bit. */
  ghost predicate Answers(es: seq<Entry>, key: Bytes, a: Answer) {
    (forall v, f :: a == Found(v, f) <==> Entry(key, f, v) in es && f / 2 % 2 == 0) &&
    (forall f :: a == Deleted(f) <==> f / 2 % 2 == 1 && exists v :: Entry(key, f, v) in es) &&
    (a == Missing <==> forall e :: e in es ==> e.key != key)
  }

  lemma LookupAnswers(es: seq<Entry>, key: Bytes)
    requires Ascending(es)
    ensures Answers(es, key, Lookup(es, key))
  {
    if m :| 0 <= m < |es| && es[m].key == key {
      LookupAt(es, key, m);
      OneEntry(es, m);
      assert Entry(key, es[m].flag, es[m].val) in es;
    } else {
      LookupNone(es, key);
    }
  }

  lemma OneEntry(es: seq<Entry>, m: nat)
    requires Ascending(es) && m < |es|
    ensures forall e :: e in es && e.key == es[m].key ==> e == es[m]
  {
    forall e | e in es && e.key == es[m].key ensures e == es[m] {
      var i :| 0 <= i < |es| && es[i] == e;
    }
  }

  // ---- the fields of the header --------------------------------------------------------------------

  lemma HeaderFields(f: Bytes, es: seq<Entry>, t: Trailer)
    requires |f| >= HEADER && f[..HEADER] == Header(es, t) && t.sequence < U64
    requires |es| < U64 && IndexOffset(es) < U64 && BloomOffset(es) < U64
    ensures U32At(f, 0) == MAGIC && U32At(f, 4) == VERSION && U64At(f, 8) == |es|
    ensures U64At(f, 24) == IndexOffset(es) && U64At(f, 32) == BloomOffset(es) && U64At(f, 40) == t.sequence
  {
    var h := Header(es, t);
    assert f[0..0 + |h|] == h;
    SubWindow(f, 0, h, 0, 4);
    SubWindow(f, 0, h, 4, 8);
    SubWindow(f, 0, h, 8, 16);
    SubWindow(f, 0, h, 24, 32);
    SubWindow(f, 0, h, 32, 40);
    SubWindow(f, 0, h, 40, 48);
    HeaderWindows(|es|, |Data(es)|, IndexOffset(es), BloomOffset(es), t.sequence, t.created);
    U32Field(f, 0, MAGIC);
    U32Field(f, 4, VERSION);
    U64Field(f, 8, |es|);
    U64Field(f, 24, IndexOffset(es));
    U64Field(f, 32, BloomOffset(es));
    U64Field(f, 40, t.sequence);
  }

  lemma HeaderWindows(n: nat, d: nat, i: nat, b: nat, s: nat, c: nat)
    ensures var h := HeaderBytes(n, d, i, b, s, c);
            h[0..4] == LE(MAGIC, 4) && h[4..8] == LE(VERSION, 4) && h[8..16] == LE(n, 8) &&
            h[24..32] == LE(i, 8) && h[32..40] == LE(b, 8) && h[40..48] == LE(s, 8)
  {
    Windows(LE(MAGIC, 4), LE(VERSION, 4), LE(n, 8), LE(d, 8), LE(i, 8), LE(b, 8), LE(s, 8), LE(c, 8));
  }

  lemma Windows(m: Bytes, v: Bytes, n: Bytes, d: Bytes, i: Bytes, b: Bytes, s: Bytes, c: Bytes)
    requires |m| == |v| == 4 && |n| == |d| == |i| == |b| == |s| == 8
    ensures var h := m + v + n + d + i + b + s + c;
            h[0..4] == m && h[4..8] == v && h[8..16] == n && h[24..32] == i && h[32..40] == b && h[40..48] == s
  {
  }

  // ---- where the parts of a file are ---------------------------------------------------------------

  /** The entries are in place. */
  ghost predicate EntriesPlaced(f: Bytes, es: seq<Entry>) {
    EntryOff(es, 0) == HEADER && AllFit(es) &&
    forall i {:trigger EntryPlaced(f, es, i)} :: 0 <= i < |es| ==> EntryPlaced(f, es, i)
  }

  ghost predicate EntryPlaced(f: Bytes, es: seq<Entry>, i: nat)
    requires i < |es|
  {
    EntryOff(es, i + 1) == EntryOff(es, i) + |EncodeEntry(es[i])| <= |f| &&
    f[EntryOff(es, i)..EntryOff(es, i) + |EncodeEntry(es[i])|] == EncodeEntry(es[i])
  }

  lemma FilePlaces(es: seq<Entry>, t: Trailer)
    requires AllFit(es)
    ensures EntriesPlaced(FileOf(es, t), es)
  {
    var post := LE(|Sparse(es)|, 4) + (IndexBytes(Sparse(es)) + (BloomBytes(es, t) + LE(t.checksum, 4)));
    assert es[..0] == [];
    var f := FileOf(es, t);
    forall i {:trigger EntryPlaced(f, es, i)} | 0 <= i < |es| ensures EntryPlaced(f, es, i) {
      EntryAt(Header(es, t), es, post, i);
    }
  }

  ghost predicate SlotPlaced(f: Bytes, base: nat, ss: seq<Slot>, i: nat)
    requires i < |ss|
  {
    SlotOff(ss, i + 1) == SlotOff(ss, i) + |EncodeSlot(ss[i])| && base + SlotOff(ss, i + 1) <= |f| &&
    f[base + SlotOff(ss, i)..base + SlotOff(ss, i) + |EncodeSlot(ss[i])|] == EncodeSlot(ss[i])
  }

  lemma SlotPlaces(es: seq<Entry>, t: Trailer, i: nat)
    requires i < |Sparse(es)|
    ensures SlotPlaced(FileOf(es, t), IndexOffset(es) + 4, Sparse(es), i)
  {
    var ss := Sparse(es);
    var a, n, ib, post := Header(es, t) + Data(es), LE(|ss|, 4), IndexBytes(ss), BloomBytes(es, t) + LE(t.checksum, 4);
    Shift(a, n, ib, post);
    SlotAt(a + n, ss, post, i);
  }

  lemma Shift(a: Bytes, n: Bytes, ib: Bytes, post: Bytes)
    ensures a + (n + (ib + post)) == (a + n) + ib + post
    ensures a + (n + (ib + post)) == a + n + (ib + post)
  {
  }

  lemma Drop(a: Bytes, n: Bytes, ib: Bytes, b: Bytes, c: Bytes)
    ensures |a + (n + (ib + (b + c)))| == |a| + |n| + |ib| + |b| + |c|
    ensures (a + (n + (ib + (b + c))))[|a| + |n| + |ib|..] == b + c
  {
    var f := a + (n + (ib + (b + c)));
    assert f == (a + n + ib) + (b + c);
    TailIs(a + n + ib, b + c, f);
  }

  /** The count before the index and the filter after it. */
  lemma CountAndFilter(es: seq<Entry>, t: Trailer)
    ensures IndexOffset(es) + 4 <= |FileOf(es, t)|
    ensures FileOf(es, t)[IndexOffset(es)..IndexOffset(es) + 4] == LE(|Sparse(es)|, 4)
    ensures FileOf(es, t)[..HEADER] == Header(es, t)
    ensures es != [] ==> BloomOffset(es) + |BloomBytes(es, t)| + 4 == |FileOf(es, t)| &&
                         FileOf(es, t)[BloomOffset(es)..] == Bloom.Serialized(t.shape, t.bits) + LE(t.checksum, 4)
  {
    var ss := Sparse(es);
    var h, d, n, ib, b, c := Header(es, t), Data(es), LE(|ss|, 4), IndexBytes(ss), BloomBytes(es, t), LE(t.checksum, 4);
    Shift(h + d, n, ib, b + c);
    Cut(FileOf(es, t), h + d, n, ib + (b + c));
    Drop(h + d, n, ib, b, c);
    Assoc(h, d, n + (ib + (b + c)));
  }

  // ---- the open table ------------------------------------------------------------------------------

  datatype Reader = Reader(mapped: Bytes, numEntries: nat, sequence: nat, index: seq<Slot>, bloom: Option<(Bloom.Shape, seq<bv8>)>)

  /** A reader on the file of these entries. */
  ghost predicate Reads(r: Reader, es: seq<Entry>) {
    EntriesPlaced(r.mapped, es) && r.numEntries == |es| < U32 - 64 && r.index == Sparse(es) &&
    (r.bloom.Some? ==> Bloom.Exactly(r.bloom.value.0, r.bloom.value.1, KeySet(es)))
  }

  /** An entry in place reads back, and its end is where the next one starts. */
  lemma EntryRead(f: Bytes, es: seq<Entry>, i: nat, p: nat, e: Entry)
    requires EntriesPlaced(f, es) && i < |es| && p == EntryOff(es, i) && e == es[i]
    ensures EntryOff(es, i + 1) == p + |EncodeEntry(e)| <= |f| && f[p..p + |EncodeEntry(e)|] == EncodeEntry(e) && Fits(e)
  {
    assert EntryPlaced(f, es, i);
  }

  /** Lines 474-486 and 533-551: one entry and the place after it. */
  method ReadEntry(f: Bytes, p: nat, ghost es: seq<Entry>, ghost i: nat) returns (e: Entry, next: nat)
    requires EntriesPlaced(f, es) && i < |es| && p == EntryOff(es, i)
    ensures e == es[i] && next == EntryOff(es, i + 1) && p + 9 + |e.key| <= next <= |f|
  {
    ghost var want := es[i];
    EntryRead(f, es, i, p, want);
    EntryFields(f, p, want);
    var kl := U32At(f, p);
    var key := f[p + 4..p + 4 + kl];
    var flag, vl := f[p + 4 + kl], U32At(f, p + 5 + kl);
    e, next := Entry(key, flag, f[p + 9 + kl..p + 9 + kl + vl]), p + 9 + kl + vl;
  }

  // ---- opening any file ----------------------------------------------------------------------------

  /** The mapped memory: the file, and zeros up to the end of its last page. */
  function Memory(f: Bytes, page: nat): (m: Bytes)
    requires page > 0
    ensures |m| >= |f| && m[..|f|] == f && (f != [] ==> |m| >= page)
  {
    PadFills(|f|, page);
    f + seq<Byte>((page - |f| % page) % page, _ => 0)
  }

  lemma PadFills(n: nat, page: nat)
    requires page > 0
    ensures n > 0 ==> n + (page - n % page) % page >= page
  {
    if n < page { assert n % page == n; }
  }

  /** The index entries from p on, or None if they do not lie inside the memory (lines 363-372). */
  function SlotsFrom(m: Bytes, p: nat, n: nat): (r: Option<seq<Slot>>)
    decreases n
  {
    if n == 0 then Some([])
    else if p + 4 > |m| || p + 12 + U32At(m, p) > |m| then None
    else
      var kl := U32At(m, p);
      match SlotsFrom(m, p + 12 + kl, n - 1)
      case None => None
      case Some(rest) => Some([Slot(m[p + 4..p + 4 + kl], U64At(m, p + 4 + kl))] + rest)
  }

  function IndexFrom(m: Bytes, offset: nat): (r: Option<seq<Slot>>) {
    if offset + 4 > |m| then None else SlotsFrom(m, offset + 4, U32At(m, offset))
  }

  function Joined(a: seq<Slot>, b: Option<seq<Slot>>): (r: Option<seq<Slot>>) {
    match b
    case None => None
    case Some(rest) => Some(a + rest)
  }

  lemma JoinedSnoc(a: seq<Slot>, s: Slot, b: Option<seq<Slot>>)
    ensures Joined(a, Joined([s], b)) == Joined(a + [s], b)
  {
    if b.Some? { assert a + ([s] + b.value) == (a + [s]) + b.value; }
  }

  lemma SlotsStep(m: Bytes, p: nat, n: nat, kl: nat, s: Slot, ss: seq<Slot>)
    requires n > 0 && p + 4 <= |m| && kl == U32At(m, p) && p + 12 + kl <= |m| && s == Slot(m[p + 4..p + 4 + kl], U64At(m, p + 4 + kl))
    ensures Joined(ss, SlotsFrom(m, p, n)) == Joined(ss + [s], SlotsFrom(m, p + 12 + kl, n - 1))
  {
    assert SlotsFrom(m, p, n) == Joined([s], SlotsFrom(m, p + 12 + kl, n - 1));
    JoinedSnoc(ss, s, SlotsFrom(m, p + 12 + kl, n - 1));
  }

  /** That loop. */
  method ReadIndex(m: Bytes, offset: nat) returns (index: Option<seq<Slot>>)
    ensures index == IndexFrom(m, offset)
  {
    if offset + 4 > |m| { return None; }
    var n := U32At(m, offset);
    var p: nat, ss := offset + 4, [];
    assert SlotsFrom(m, p, n).Some? ==> [] + SlotsFrom(m, p, n).value == SlotsFrom(m, p, n).value;
    for i := 0 to n
      invariant Joined(ss, SlotsFrom(m, p, n - i)) == IndexFrom(m, offset)
    {
      if p + 4 > |m| { return None; }
      var kl := U32At(m, p);
      if p + 12 + kl > |m| { return None; }
      var s := Slot(m[p + 4..p + 4 + kl], U64At(m, p + 4 + kl));
      SlotsStep(m, p, n - i, kl, s, ss);
      ss, p := ss + [s], p + 12 + kl;
    }
    assert ss + [] == ss;
    index := Some(ss);
  }

  datatype FilterPart = Outside | Filter(bloom: Option<(Bloom.Shape, seq<bv8>)>)

  /** The filter, when there is one and it lies inside the file (lines 375-388); its first 12 bytes are read unchecked. */
  function FilterFrom(m: Bytes, size: nat, hashes: Bloom.Hashes, version: nat, offset: nat): (r: FilterPart) {
    if version < 2 || offset == 0 then Filter(None)
    else if offset + 12 > |m| then Outside
    else
      var n := 12 + Bloom.ByteCount(Bloom.Shape(hashes, U32At(m, offset), 0, 0));
      Filter(if offset + n <= size <= |m| then Bloom.Loaded(hashes, m[offset..offset + n]) else None)
  }

  // ---- opening a written file ----------------------------------------------------------------------

  lemma SlotRead(f: Bytes, base: nat, ss: seq<Slot>, i: nat, p: nat, s: Slot)
    requires i < |ss| && SlotPlaced(f, base, ss, i) && p == base + SlotOff(ss, i) && s == ss[i]
    ensures base + SlotOff(ss, i + 1) == p + |EncodeSlot(s)| <= |f| && f[p..p + |EncodeSlot(s)|] == EncodeSlot(s)
  {
  }

  lemma SlotSmall(es: seq<Entry>, t: Trailer, i: nat)
    requires AllFit(es) && |FileOf(es, t)| < U64 && i < |Sparse(es)|
    ensures |Sparse(es)[i].key| <= MAX_LEN && Sparse(es)[i].off < U64
  {
    SparseAt(es, i);
    FilePlaces(es, t);
    assert EntryPlaced(FileOf(es, t), es, INTERVAL * i);
  }

  lemma SameWindow(f: Bytes, m: Bytes, p: nat, q: nat)
    requires p <= q <= |f| <= |m| && m[..|f|] == f
    ensures m[p..q] == f[p..q]
  {
    forall i | p <= i < q ensures m[i] == f[i] { assert m[i] == m[..|f|][i]; }
  }

  /** Slot i lies at its place in the memory and reads back. */
  ghost predicate SlotIn(m: Bytes, base: nat, ss: seq<Slot>, i: nat)
    requires i < |ss|
  {
    var p, s := base + SlotOff(ss, i), ss[i];
    && p + 12 + |s.key| == base + SlotOff(ss, i + 1) <= |m| && U32At(m, p) == |s.key|
    && m[p + 4..p + 4 + |s.key|] == s.key && U64At(m, p + 4 + |s.key|) == s.off
  }

  lemma OneSlot(f: Bytes, m: Bytes, base: nat, ss: seq<Slot>, i: nat)
    requires |f| <= |m| && m[..|f|] == f && i < |ss| && SlotPlaced(f, base, ss, i) && |ss[i].key| <= MAX_LEN && ss[i].off < U64
    ensures SlotIn(m, base, ss, i)
  {
    var p, s := base + SlotOff(ss, i), ss[i];
    SlotRead(f, base, ss, i, p, s);
    SameWindow(f, m, p, p + |EncodeSlot(s)|);
    SlotFields(m, p, s);
  }

  ghost predicate SlotsIn(m: Bytes, base: nat, ss: seq<Slot>) {
    forall i {:trigger SlotIn(m, base, ss, i)} :: 0 <= i < |ss| ==> SlotIn(m, base, ss, i)
  }

  lemma WrittenSlots(es: seq<Entry>, t: Trailer, m: Bytes)
    requires AllFit(es) && |FileOf(es, t)| < U64 && |FileOf(es, t)| <= |m| && m[..|FileOf(es, t)|] == FileOf(es, t)
    ensures SlotsIn(m, IndexOffset(es) + 4, Sparse(es))
  {
    var base, ss := IndexOffset(es) + 4, Sparse(es);
    forall i {:trigger SlotIn(m, base, ss, i)} | 0 <= i < |ss| ensures SlotIn(m, base, ss, i) {
      SlotSmall(es, t, i);
      SlotPlaces(es, t, i);
      OneSlot(FileOf(es, t), m, base, ss, i);
    }
  }

  /** From any slot on, slots in place are read back. */
  lemma {:induction false} SlotsBack(m: Bytes, base: nat, ss: seq<Slot>, i: nat, p: nat)
    requires SlotsIn(m, base, ss) && i <= |ss| && p == base + SlotOff(ss, i)
    ensures SlotsFrom(m, p, |ss| - i) == Some(ss[i..])
    decreases |ss| - i
  {
    if i < |ss| {
      assert SlotIn(m, base, ss, i);
      SlotsBack(m, base, ss, i + 1, base + SlotOff(ss, i + 1));
      assert [ss[i]] + ss[i + 1..] == ss[i..];
    } else {
      assert ss[i..] == [];
    }
  }

  lemma WrittenCount(es: seq<Entry>, t: Trailer, m: Bytes)
    requires |es| < U32 && |FileOf(es, t)| <= |m| && m[..|FileOf(es, t)|] == FileOf(es, t)
    ensures IndexOffset(es) + 4 <= |m| && U32At(m, IndexOffset(es)) == |Sparse(es)|
  {
    CountAndFilter(es, t);
    SparseAt(es, 0);
    SameWindow(FileOf(es, t), m, IndexOffset(es), IndexOffset(es) + 4);
    U32Field(m, IndexOffset(es), |Sparse(es)|);
  }

  /** The index comes back as it was written. */
  lemma WrittenIndex(es: seq<Entry>, t: Trailer, m: Bytes)
    requires AllFit(es) && |FileOf(es, t)| < U64 && |es| < U32
    requires |FileOf(es, t)| <= |m| && m[..|FileOf(es, t)|] == FileOf(es, t)
    ensures IndexFrom(m, IndexOffset(es)) == Some(Sparse(es))
  {
    var ss := Sparse(es);
    WrittenCount(es, t, m);
    WrittenSlots(es, t, m);
    assert ss[0..] == ss && ss[..0] == [];
    SlotsBack(m, IndexOffset(es) + 4, ss, 0, IndexOffset(es) + 4);
  }

  lemma FilterBytes(f: Bytes, p: nat, s: Bloom.Shape, bits: seq<bv8>, c: Bytes)
    requires Bloom.ShapeOk(s) && |bits| == Bloom.ByteCount(s)
    requires p <= |f| && f[p..] == Bloom.Serialized(s, bits) + c
    ensures p + 12 + |bits| <= |f| && U32At(f, p) == s.numBits
    ensures f[p..p + (12 + |bits|)] == Bloom.Serialized(s, bits)
  {
    var x := Bloom.Serialized(s, bits);
    assert f[p..][..|x|] == x;
    assert f[p..p + |x|] == f[p..][..|x|];
    assert x[0..4] == LE(s.numBits, 4);
    SubWindow(f, p, x, 0, 4);
    U32Field(f, p, s.numBits);
  }

  lemma FilterAt(f: Bytes, p: nat, s: Bloom.Shape, bits: seq<bv8>, c: Bytes)
    requires Bloom.ShapeOk(s) && |bits| == Bloom.ByteCount(s) && p <= |f| && f[p..] == Bloom.Serialized(s, bits) + c
    ensures p + 12 + |bits| <= |f| && U32At(f, p) == s.numBits
    ensures Bloom.Loaded(s.hashes, f[p..p + (12 + |bits|)]) == Some((s, bits))
  {
    FilterBytes(f, p, s, bits, c);
    Bloom.LoadsBack(s, bits, []);
    var x := Bloom.Serialized(s, bits);
    assert x + [] == x;
  }

  lemma FilterWindow(f: Bytes, m: Bytes, hashes: Bloom.Hashes, p: nat, s: Bloom.Shape, bits: seq<bv8>)
    requires |f| <= |m| && m[..|f|] == f && p > 0 && s.hashes == hashes
    requires p + 12 + Bloom.ByteCount(s) <= |f| && U32At(f, p) == s.numBits
    requires Bloom.Loaded(hashes, f[p..p + (12 + Bloom.ByteCount(s))]) == Some((s, bits))
    ensures FilterFrom(m, |f|, hashes, VERSION, p) == Filter(Some((s, bits)))
  {
    SameWindow(f, m, p, p + 4);
    SameWindow(f, m, p, p + (12 + Bloom.ByteCount(s)));
  }

  /** The filter comes back as it was written. */
  lemma WrittenFilter(es: seq<Entry>, t: Trailer, m: Bytes, hashes: Bloom.Hashes, f: Bytes, p: nat)
    requires TableOk(es, t, hashes) && f == FileOf(es, t) && |f| <= |m| && m[..|f|] == f && p == BloomOffset(es)
    ensures FilterFrom(m, |f|, hashes, VERSION, p) == Filter(if es != [] then Some((t.shape, t.bits)) else None)
  {
    if es == [] {
      NoFilter(m, |f|, hashes);
    } else {
      SomeFilter(es, t, m, hashes, f, p);
    }
  }

  lemma NoFilter(m: Bytes, size: nat, hashes: Bloom.Hashes)
    ensures FilterFrom(m, size, hashes, VERSION, 0) == Filter(None)
  {
  }

  lemma FilterBack(f: Bytes, p: nat, m: Bytes, hashes: Bloom.Hashes, s: Bloom.Shape, bits: seq<bv8>, c: Bytes)
    requires Bloom.ShapeOk(s) && |bits| == Bloom.ByteCount(s) && s.hashes == hashes && 0 < p <= |f| <= |m| && m[..|f|] == f
    requires f[p..] == Bloom.Serialized(s, bits) + c
    ensures FilterFrom(m, |f|, hashes, VERSION, p) == Filter(Some((s, bits)))
  {
    FilterAt(f, p, s, bits, c);
    FilterWindow(f, m, hashes, p, s, bits);
  }

  lemma SomeFilter(es: seq<Entry>, t: Trailer, m: Bytes, hashes: Bloom.Hashes, f: Bytes, p: nat)
    requires es != [] && Bloom.ShapeOk(t.shape) && |t.bits| == Bloom.ByteCount(t.shape) && t.shape.hashes == hashes
    requires f == FileOf(es, t) && |f| <= |m| && m[..|f|] == f && p == BloomOffset(es)
    ensures FilterFrom(m, |f|, hashes, VERSION, p) == Filter(Some((t.shape, t.bits)))
  {
    CountAndFilter(es, t);
    FilterBack(f, p, m, hashes, t.shape, t.bits, LE(t.checksum, 4));
  }

  lemma WrittenHeader(es: seq<Entry>, t: Trailer, m: Bytes, hashes: Bloom.Hashes)
    requires TableOk(es, t, hashes) && |FileOf(es, t)| <= |m| && m[..|FileOf(es, t)|] == FileOf(es, t)
    ensures |m| >= HEADER && U32At(m, 0) == MAGIC && U32At(m, 4) == VERSION && U64At(m, 8) == |es|
    ensures U64At(m, 24) == IndexOffset(es) && U64At(m, 32) == BloomOffset(es) && U64At(m, 40) == t.sequence
  {
    CountAndFilter(es, t);
    SameWindow(FileOf(es, t), m, 0, HEADER);
    assert m[..HEADER] == m[0..HEADER] && FileOf(es, t)[..HEADER] == FileOf(es, t)[0..HEADER];
    HeaderFields(m, es, t);
  }

  /** What opening a file gives: nothing for a file it does not know, or a reader; it reads where the header points, and
      what happens when that lies outside the mapping is not determined. */
  datatype Opened = Refused | Fault | Opened(reader: Reader)

  predicate Known(f: Bytes, m: Bytes)
    requires |m| >= HEADER || f == []
  {
    f != [] && U32At(m, 0) == MAGIC && U32At(m, 4) <= VERSION
  }

  function OpenedAs(f: Bytes, m: Bytes, hashes: Bloom.Hashes): (o: Opened)
    requires |m| >= HEADER
  {
    var index, filter := IndexFrom(m, U64At(m, 24)), FilterFrom(m, |f|, hashes, U32At(m, 4), U64At(m, 32));
    if index.None? || filter.Outside? then Fault
    else Opened(Reader(f, U64At(m, 8), U64At(m, 40), index.value, filter.bloom))
  }

  /** A file the writer produced opens, to a reader of its entries. */
  lemma WrittenFileOpens(es: seq<Entry>, t: Trailer, m: Bytes, hashes: Bloom.Hashes)
    requires TableOk(es, t, hashes) && |FileOf(es, t)| <= |m| && m[..|FileOf(es, t)|] == FileOf(es, t)
    ensures |m| >= HEADER && Known(FileOf(es, t), m)
    ensures var o := OpenedAs(FileOf(es, t), m, hashes);
            o.Opened? && Reads(o.reader, es) && o.reader.sequence == t.sequence
  {
    WrittenHeader(es, t, m, hashes);
    WrittenIndex(es, t, m);
    WrittenFilter(es, t, m, hashes, FileOf(es, t), BloomOffset(es));
    FilePlaces(es, t);
  }

  /** A file of a header alone whose index lies outside the mapping is taken, and read there. */
  lemma OutsideIndexFaults(page: nat, offset: nat, hashes: Bloom.Hashes, f: Bytes, m: Bytes)
    requires HEADER <= page <= offset < U64 && f == HeaderBytes(0, 0, offset, 0, 0, 0) && m == Memory(f, page)
    ensures Known(f, m) && OpenedAs(f, m, hashes) == Fault
  {
    BareHeader(f, m, offset);
    MemorySize(f, page);
  }

  lemma BareHeader(f: Bytes, m: Bytes, offset: nat)
    requires offset < U64 && f == HeaderBytes(0, 0, offset, 0, 0, 0) && |f| <= |m| && m[..|f|] == f
    ensures U32At(m, 0) == MAGIC && U32At(m, 4) == VERSION && U64At(m, 24) == offset
  {
    HeaderWindows(0, 0, offset, 0, 0, 0);
    SameWindow(f, m, 0, 4);
    SameWindow(f, m, 4, 8);
    SameWindow(f, m, 24, 32);
    U32Field(m, 0, MAGIC);
    U32Field(m, 4, VERSION);
    U64Field(m, 24, offset);
  }

  lemma MemorySize(f: Bytes, page: nat)
    requires 0 < |f| <= page
    ensures |Memory(f, page)| == page
  {
    SmallMod(|f|, page);
    SmallMod(page - |f|, page);
  }

  lemma SmallMod(n: nat, page: nat)
    requires n <= page && page > 0
    ensures n % page == if n < page then n else 0
  {
  }

  /** sstable_reader_open on any bytes: an empty file, another magic number or a newer version is refused; a file the writer
      produced opens to a reader of its entries. */
  method Open(f: Bytes, hashes: Bloom.Hashes, page: nat) returns (o: Opened)
    requires page >= HEADER
    ensures var m := Memory(f, page); o == if Known(f, m) then OpenedAs(f, m, hashes) else Refused
    ensures forall es, t {:trigger FileOf(es, t)} :: TableOk(es, t, hashes) && f == FileOf(es, t) ==>
              o.Opened? && Reads(o.reader, es) && o.reader.sequence == t.sequence
  {
    var m := Memory(f, page);
    forall es, t {:trigger FileOf(es, t)} | TableOk(es, t, hashes) && f == FileOf(es, t)
      ensures Known(f, m) && OpenedAs(f, m, hashes).Opened? && Reads(OpenedAs(f, m, hashes).reader, es) &&
              OpenedAs(f, m, hashes).reader.sequence == t.sequence
    {
      WrittenFileOpens(es, t, m, hashes);
    }
    if f == [] || U32At(m, 0) != MAGIC || U32At(m, 4) > VERSION { return Refused; }
    var index := ReadIndex(m, U64At(m, 24));
    if index.None? { return Fault; }
    var filter := FilterFrom(m, |f|, hashes, U32At(m, 4), U64At(m, 32));
    if filter.Outside? { return Fault; }
    o := Opened(Reader(f, U64At(m, 8), U64At(m, 40), index.value, filter.bloom));
  }

  // ---- lookup and scan -----------------------------------------------------------------------------

  ghost predicate SlotsAscend(ss: seq<Slot>) {
    forall i, j :: 0 <= i < j < |ss| ==> Rank(ss[i].key) < Rank(ss[j].key)
  }

  /** index_lower_bound: the first slot whose key is not below the one sought. */
  method IndexLowerBound(ss: seq<Slot>, key: Bytes) returns (lo: nat)
    requires SlotsAscend(ss)
    ensures lo <= |ss|
    ensures forall i :: 0 <= i < lo ==> Rank(ss[i].key) < Rank(key)
    ensures forall i :: lo <= i < |ss| ==> Rank(key) <= Rank(ss[i].key)
  {
    var hi := |ss|;
    lo := 0;
    while lo < hi
      invariant 0 <= lo <= hi <= |ss|
      invariant forall i :: 0 <= i < lo ==> Rank(ss[i].key) < Rank(key)
      invariant forall i :: hi <= i < |ss| ==> Rank(key) <= Rank(ss[i].key)
      decreases hi - lo
    {
      var mid := lo + (hi - lo) / 2;
      if KeyCmp(key, ss[mid].key) <= 0 { hi := mid; } else { lo := mid + 1; }
    }
  }

  lemma SparseAscends(es: seq<Entry>)
    requires Ascending(es)
    ensures SlotsAscend(Sparse(es))
  {
    var ss := Sparse(es);
    forall i, j | 0 <= i < j < |ss| ensures Rank(ss[i].key) < Rank(ss[j].key) {
      SparseAt(es, i);
      SparseAt(es, j);
    }
  }

  /** All entries before i are below the key. */
  ghost predicate Below(es: seq<Entry>, key: Bytes, i: nat) {
    i <= |es| && forall m :: 0 <= m < i ==> Rank(es[m].key) < Rank(key)
  }

  lemma BelowAll(es: seq<Entry>, key: Bytes, i: nat)
    requires Ascending(es) && Below(es, key, i) && (i < |es| ==> Rank(key) < Rank(es[i].key))
    ensures Lookup(es, key) == Missing
  {
    LookupNone(es, key);
  }

  /** Starting one slot below the lower bound skips only smaller keys, and the key cannot lie past the 64 entries
      scanned from there. */
  lemma StartAndEnd(es: seq<Entry>, key: Bytes, lo: nat, start: nat)
    requires Ascending(es) && lo <= |Sparse(es)| && start == (if lo > 0 then INTERVAL * (lo - 1) else 0)
    requires forall i :: 0 <= i < lo ==> Rank(Sparse(es)[i].key) < Rank(key)
    requires forall i :: lo <= i < |Sparse(es)| ==> Rank(key) <= Rank(Sparse(es)[i].key)
    ensures Below(es, key, start)
    ensures start + 2 * INTERVAL < |es| ==> !Below(es, key, start + 2 * INTERVAL)
  {
    SparseAt(es, lo);
    if lo > 0 {
      SparseAt(es, lo - 1);
      assert Rank(Sparse(es)[lo - 1].key) < Rank(key);
    }
    if start + 2 * INTERVAL < |es| {
      assert lo < |Sparse(es)|;
      assert Rank(key) <= Rank(es[INTERVAL * lo].key);
    }
  }

  /** sstable_reader_get: what a search of the entries one by one finds. */
  method Get(r: Reader, key: Bytes, ghost es: seq<Entry>) returns (a: Answer)
    requires Reads(r, es) && Ascending(es)
    ensures a == Lookup(es, key) && Answers(es, key, a)
  {
    LookupAnswers(es, key);
    if r.bloom.Some? {
      var maybe := Bloom.Check(r.bloom.value.0, r.bloom.value.1, key);
      if !maybe {
        FilterRight(r, es, key);
        return Missing;
      }
    }
    SparseAscends(es);
    SparseAt(es, 0);
    var lo := IndexLowerBound(r.index, key);
    var p, start := HEADER, 0;
    if |r.index| > 0 {
      if lo > 0 {
        SparseAt(es, lo - 1);
        p, start := r.index[lo - 1].off, INTERVAL * (lo - 1);
      } else {
        p, start := r.index[0].off, 0;
      }
    }
    StartAndEnd(es, key, lo, start);
    a := ScanFor(r, key, p, start, es);
  }

  lemma FilterRight(r: Reader, es: seq<Entry>, key: Bytes)
    requires Reads(r, es) && r.bloom.Some? && !Bloom.AllSet(r.bloom.value.0, r.bloom.value.1, key)
    ensures Lookup(es, key) == Missing
  {
    if key in KeySet(es) { Bloom.MemberPasses(r.bloom.value.0, r.bloom.value.1, KeySet(es), key); }
    forall i | 0 <= i < |es| ensures es[i].key != key {
      assert es[i] in es;
    }
    LookupNone(es, key);
  }

  /** The scan of lines 466-519. */
  method ScanFor(r: Reader, key: Bytes, start: nat, first: nat, ghost es: seq<Entry>) returns (a: Answer)
    requires Reads(r, es) && Ascending(es) && first <= |es| && start == EntryOff(es, first)
    requires Below(es, key, first) && (first + 2 * INTERVAL < |es| ==> !Below(es, key, first + 2 * INTERVAL))
    ensures a == Lookup(es, key)
  {
    var limit := first + 2 * INTERVAL;
    if limit > r.numEntries { limit := r.numEntries; }
    var p := start;
    for i := first to limit
      invariant p == EntryOff(es, i) && Below(es, key, i)
    {
      var e, next := ReadEntry(r.mapped, p, es, i);
      var cmp := KeyCmp(key, e.key);
      if cmp == 0 {
        LookupAt(es, key, i);
        return AnswerOf(e);
      }
      if cmp < 0 {
        BelowAll(es, key, i);
        return Missing;
      }
      p := next;
    }
    BelowAll(es, key, limit);
    a := Missing;
  }

  /** sstable_reader_scan, with a callback that takes every entry: the entries as written. */
  method Scan(r: Reader, ghost es: seq<Entry>) returns (out: seq<Entry>)
    requires Reads(r, es)
    ensures out == es
  {
    var p, end := HEADER, |r.mapped|;
    out := [];
    for i := 0 to r.numEntries
      invariant p == EntryOff(es, i) && out == es[..i]
    {
      var e, next := ReadEntry(r.mapped, p, es, i);
      if p + 4 > end { break; }
      if p + 4 + |e.key| + 5 > end { break; }
      assert es[..i + 1] == es[..i] + [es[i]];
      out, p := out + [e], next;
    }
    assert es[..|es|] == es;
  }
}
