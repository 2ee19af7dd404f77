/**
 * A memtable on its way into a table file and back (src/core/db.c:45-77 and 487-520): the listing of the skip list,
 * written with a flag for every entry, finished, opened, looked up, loaded and merged.
 */
module MemtableFlush {
  import opened Keys
  import opened SSTable
  import opened SSTableReader
  import BTreeRuns
  import Bloom
  import History
  import Merge
  import Recovery
  import SkipList

  /** flush_write_cb: flag 2 for a deleted entry, 1 for a live one. */
  function Flushed(e: (Bytes, SkipList.Entry)): (r: Entry) {
    Entry(e.0, if e.1.deleted then 2 else 1, e.1.val)
  }

  function FlushedAll(out: seq<(Bytes, SkipList.Entry)>): (es: seq<Entry>)
    ensures |es| == |out| && forall i :: 0 <= i < |out| ==> es[i] == Flushed(out[i])
  {
    seq(|out|, i requires 0 <= i < |out| => Flushed(out[i]))
  }

  /** What Memtable.Iterate lists. */
  ghost predicate ListingOf(out: seq<(Bytes, SkipList.Entry)>, model: map<Bytes, SkipList.Entry>) {
    (forall i, j :: 0 <= i < j < |out| ==> Rank(out[i].0) < Rank(out[j].0)) &&
    (forall i :: 0 <= i < |out| ==> out[i].0 in model && model[out[i].0] == out[i].1) &&
    (forall k :: k in model ==> (k, model[k]) in out)
  }

  // ---- what a table of a memtable holds ------------------------------------------------------------

  lemma FlushedMembers(out: seq<(Bytes, SkipList.Entry)>, model: map<Bytes, SkipList.Entry>, e: Entry)
    requires ListingOf(out, model)
    ensures e in FlushedAll(out) <==> e.key in model && e == Flushed((e.key, model[e.key]))
  {
    var es := FlushedAll(out);
    if e in es {
      var i :| 0 <= i < |es| && es[i] == e;
      assert out[i] == (e.key, model[e.key]);
    }
    if e.key in model && e == Flushed((e.key, model[e.key])) {
      var i :| 0 <= i < |out| && out[i] == (e.key, model[e.key]);
      assert es[i] == e;
    }
  }

  lemma FlushedAscends(out: seq<(Bytes, SkipList.Entry)>, model: map<Bytes, SkipList.Entry>)
    requires ListingOf(out, model)
    ensures Ascending(FlushedAll(out))
  {
    var es := FlushedAll(out);
    forall i, j | 0 <= i < j < |es| ensures Rank(es[i].key) < Rank(es[j].key) {
      assert es[i] == Flushed(out[i]) && es[j] == Flushed(out[j]);
    }
  }

  /** A table that answers lookups as the entries of a memtable do gives its live values, and knows its tombstones. */
  lemma MemtableAnswers(out: seq<(Bytes, SkipList.Entry)>, model: map<Bytes, SkipList.Entry>, key: Bytes, a: Answer)
    requires ListingOf(out, model) && Answers(FlushedAll(out), key, a)
    ensures a == if key !in model then Missing else if model[key].deleted then Deleted(2) else Found(model[key].val, 1)
  {
    var es := FlushedAll(out);
    if key in model {
      var e := Flushed((key, model[key]));
      FlushedMembers(out, model, e);
      assert e == Entry(key, e.flag, e.val);
      if model[key].deleted { assert Entry(key, 2, e.val) in es; }
    } else {
      forall e | e in es ensures e.key != key { FlushedMembers(out, model, e); }
    }
  }

  /** Loading an entry of the file is loading the entry of the memtable (src/core/db.c:68-77): flag 2 deletes, flag 1 puts. */
  function LoadOp(e: Entry): (op: BTreeRuns.Op) {
    if IsTombstone(e) then BTreeRuns.DeleteOp(e.key) else BTreeRuns.PutOp(e.key, e.val)
  }

  lemma LoadsAsListed(e: (Bytes, SkipList.Entry))
    ensures LoadOp(Flushed(e)) == if e.1.deleted then BTreeRuns.DeleteOp(e.0) else BTreeRuns.PutOp(e.0, e.1.val)
    ensures LoadOp(Flushed(e)) == History.EntryOp(Recovery.FlushEntry(e))
  {
  }

  // ---- the flush as it runs ------------------------------------------------------------------------

  /** Lines 511-520: passes the entries to the writer one after the other, until one is refused. */
  method WriteEntries(es: seq<Entry>, hashes: Bloom.Hashes, sequence: nat) returns (w: Writer, ok: bool)
    ensures fresh(w) && w.Valid() && w.hashes == hashes && w.sequence == sequence
    ensures ok <==> AllFit(es)
    ensures ok ==> w.added == es
  {
    w := new Writer(hashes, sequence);
    for i := 0 to |es|
      invariant fresh(w) && w.Valid() && (w.bloom != null ==> fresh(w.bloom) && fresh(w.bloom.bits))
      invariant w.added == es[..i] && w.hashes == hashes && w.sequence == sequence && AllFit(es[..i])
    {
      assert es[..i + 1] == es[..i] + [es[i]];
      var status := w.Add(es[i], true);
      if status != Ok { return w, false; }
    }
    assert es[..|es|] == es;
    ok := true;
  }

  lemma FlushedFits(out: seq<(Bytes, SkipList.Entry)>)
    ensures AllFit(FlushedAll(out)) <==> forall i :: 0 <= i < |out| ==> |out[i].0| <= 1048576 && |out[i].1.val| <= 1048576
  {
    var es := FlushedAll(out);
    forall i | 0 <= i < |out| ensures Fits(es[i]) <==> |out[i].0| <= 1048576 && |out[i].1.val| <= 1048576 {
      assert es[i] == Flushed(out[i]);
    }
    if AllFit(es) { assert forall i :: 0 <= i < |out| ==> Fits(es[i]); }
  }

  /** Writes the table, unless a key or a value is longer than 1048576 bytes. */
  method WriteTable(out: seq<(Bytes, SkipList.Entry)>, hashes: Bloom.Hashes, sequence: nat, created: nat, checksum: nat)
    returns (f: Option<Bytes>)
    ensures f.Some? <==> forall i :: 0 <= i < |out| ==> |out[i].0| <= 1048576 && |out[i].1.val| <= 1048576
    ensures f.Some? ==> IsFileOf(f.value, FlushedAll(out), hashes, sequence, created, checksum)
  {
    FlushedFits(out);
    var w, ok := WriteEntries(FlushedAll(out), hashes, sequence);
    if !ok { return None; }
    var bytes := w.Finish(created, checksum);
    f := Some(bytes);
  }

  lemma {:induction false} DataSmall(es: seq<Entry>)
    requires AllFit(es)
    ensures |Data(es)| <= 2097161 * |es|
  {
    if es != [] {
      assert Fits(es[|es| - 1]);
      DataSmall(es[..|es| - 1]);
    }
  }

  lemma {:induction false} IndexSmall(ss: seq<Slot>)
    requires forall i :: 0 <= i < |ss| ==> |ss[i].key| <= 1048576
    ensures |IndexBytes(ss)| <= 1048588 * |ss|
  {
    if ss != [] { IndexSmall(ss[..|ss| - 1]); }
  }

  /** A file of less than 2^32 entries stays below 2^64 bytes. */
  lemma FileSmall(es: seq<Entry>, t: Trailer)
    requires AllFit(es) && |es| < 0x1_0000_0000 && (es != [] ==> Bloom.ShapeOk(t.shape) && |t.bits| == Bloom.ByteCount(t.shape))
    ensures |FileOf(es, t)| < 0x1_0000_0000_0000_0000
  {
    DataSmall(es);
    forall i | 0 <= i < |Sparse(es)| ensures |Sparse(es)[i].key| <= 1048576 {
      SparseAt(es, i);
      assert Fits(es[INTERVAL * i]);
    }
    SparseAt(es, 0);
    IndexSmall(Sparse(es));
  }

  lemma WrittenIsOk(f: Bytes, es: seq<Entry>, hashes: Bloom.Hashes, sequence: nat, created: nat, checksum: nat) returns (t: Trailer)
    requires IsFileOf(f, es, hashes, sequence, created, checksum) && AllFit(es) && |es| < 0x1_0000_0000 - 64
    requires sequence < 0x1_0000_0000_0000_0000 && created < 0x1_0000_0000_0000_0000 && checksum < 0x1_0000_0000
    ensures f == FileOf(es, t) && TableOk(es, t, hashes)
  {
    t :| f == FileOf(es, t) && t.sequence == sequence && t.created == created && t.checksum == checksum &&
         (es != [] ==> t.shape == FilterShape(hashes) && Bloom.Exactly(t.shape, t.bits, KeySet(es)));
    if es != [] { FilterFits(t, hashes, KeySet(es)); }
    FileSmall(es, t);
  }

  lemma FilterFits(t: Trailer, hashes: Bloom.Hashes, keys: set<Bytes>)
    requires t.shape == FilterShape(hashes) && Bloom.Exactly(t.shape, t.bits, keys)
    ensures Bloom.ShapeOk(t.shape) && |t.bits| == Bloom.ByteCount(t.shape) && t.shape.hashes == hashes
  {
  }

  /** A memtable of fewer than 2^32 - 64 entries, flushed, opened and asked for a key: its live value, or its tombstone. */
  method FlushAndGet(out: seq<(Bytes, SkipList.Entry)>, hashes: Bloom.Hashes, sequence: nat, created: nat, checksum: nat, page: nat,
                     key: Bytes, ghost model: map<Bytes, SkipList.Entry>) returns (a: Option<Answer>)
    requires ListingOf(out, model) && |out| < 0x1_0000_0000 - 64 && page >= HEADER
    requires sequence < 0x1_0000_0000_0000_0000 && created < 0x1_0000_0000_0000_0000 && checksum < 0x1_0000_0000
    ensures a == None <==> exists k :: k in model && (|k| > 1048576 || |model[k].val| > 1048576)
    ensures a != None ==>
              a.value == if key !in model then Missing else if model[key].deleted then Deleted(2) else Found(model[key].val, 1)
  {
    var f := WriteTable(out, hashes, sequence, created, checksum);
    if f == None { return None; }
    ghost var es := FlushedAll(out);
    FlushedAscends(out, model);
    forall i | 0 <= i < |es| ensures Fits(es[i]) { assert es[i] == Flushed(out[i]); }
    ghost var t := WrittenIsOk(f.value, es, hashes, sequence, created, checksum);
    var o := Open(f.value, hashes, page);
    var got := Get(o.reader, key, es);
    MemtableAnswers(out, model, key, got);
    a := Some(got);
  }

  // ---- the merge of flushed memtables --------------------------------------------------------------

  /** Each table is the flush of the memtable beside it. */
  ghost predicate Flushes(ts: seq<Merge.Table>, outs: seq<seq<(Bytes, SkipList.Entry)>>, models: seq<map<Bytes, SkipList.Entry>>) {
    |ts| == |outs| == |models| &&
    forall i :: 0 <= i < |ts| ==> ListingOf(outs[i], models[i]) && ts[i].entries == FlushedAll(outs[i])
  }

  /** Memtable i is the newest of those that have the key. */
  ghost predicate NewestMemtable(ts: seq<Merge.Table>, models: seq<map<Bytes, SkipList.Entry>>, key: Bytes, i: nat) {
    i < |ts| == |models| && key in models[i] &&
    forall j :: 0 <= j < |ts| && key in models[j] ==> ts[j].sequence <= ts[i].sequence
  }

  lemma HasKey(out: seq<(Bytes, SkipList.Entry)>, model: map<Bytes, SkipList.Entry>, key: Bytes)
    requires ListingOf(out, model)
    ensures Merge.Has(FlushedAll(out), key) <==> key in model
  {
    if key in model { FlushedMembers(out, model, Flushed((key, model[key]))); }
    if e :| e in FlushedAll(out) && e.key == key { FlushedMembers(out, model, e); }
  }

  /** In the merge of flushed memtables a key has the value the newest of them that has the key gives it, and is absent if
      that one has deleted it. */
  lemma MergedMemtables(ts: seq<Merge.Table>, outs: seq<seq<(Bytes, SkipList.Entry)>>, models: seq<map<Bytes, SkipList.Entry>>,
                        merged: seq<Entry>, key: Bytes, i: nat)
    requires Merge.TablesOk(ts) && Flushes(ts, outs, models) && Merge.IsOverlay(ts, merged) && NewestMemtable(ts, models, key, i)
    ensures if models[i][key].deleted then forall e :: e in merged ==> e.key != key
            else forall e :: e in merged && e.key == key <==> e == Entry(key, 1, models[i][key].val)
  {
    forall j | 0 <= j < |ts| ensures Merge.Has(ts[j].entries, key) <==> key in models[j] { HasKey(outs[j], models[j], key); }
    assert Merge.NewestTable(ts, key, i);
    Merge.LookupInMerged(ts, merged, key, i);
    LookupAnswers(ts[i].entries, key);
    LookupAnswers(merged, key);
    MemtableAnswers(outs[i], models[i], key, Lookup(ts[i].entries, key));
    var a := Lookup(merged, key);
    if models[i][key].deleted {
      assert a == Missing;
    } else {
      assert a == Found(models[i][key].val, 1);
      OnlyEntry(merged, key, models[i][key].val, 1);
    }
  }

  lemma OnlyEntry(es: seq<Entry>, key: Bytes, val: Bytes, flag: Byte)
    requires Ascending(es) && Lookup(es, key) == Found(val, flag) && Answers(es, key, Found(val, flag))
    ensures forall e :: e in es && e.key == key <==> e == Entry(key, flag, val)
  {
    assert Entry(key, flag, val) in es;
    var m :| 0 <= m < |es| && es[m] == Entry(key, flag, val);
    OneEntry(es, m);
  }
}
