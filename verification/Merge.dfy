/**
 * The merge of sorted tables (src/storage/compaction.c:29-73 and 211-305): collect the entries of all inputs,
 * sort them by key with the newest table first, keep the first entry of each key unless it is a tombstone.
 */
module Merge {
  import opened Keys
  import opened SSTable
  import opened SSTableReader
  import Bloom

  /** An input table and its sequence number. */
  datatype Table = Table(sequence: nat, entries: seq<Entry>)

  datatype Item = Item(entry: Entry, sequence: nat)

  /** Keys are unique within each table, and no two tables share a sequence number. */
  ghost predicate TablesOk(ts: seq<Table>) {
    (forall i :: 0 <= i < |ts| ==> Ascending(ts[i].entries) && AllFit(ts[i].entries)) &&
    (forall i, j :: 0 <= i < j < |ts| ==> ts[i].sequence != ts[j].sequence)
  }

  // ---- what a merge should give --------------------------------------------------------------------

  ghost predicate Occurs(ts: seq<Table>, x: Item) {
    exists i :: 0 <= i < |ts| && ts[i].sequence == x.sequence && x.entry in ts[i].entries
  }

  /** The item comes from the newest of the tables that have its key. */
  ghost predicate Newest(ts: seq<Table>, x: Item) {
    Occurs(ts, x) && forall y :: Occurs(ts, y) && y.entry.key == x.entry.key ==> y.sequence <= x.sequence
  }

  /** The overlay of the tables: ascending, the newest entry of every key, unless it carries the tombstone bit. */
  ghost predicate IsOverlay(ts: seq<Table>, out: seq<Entry>) {
    Ascending(out) &&
    forall e :: e in out <==> e.flag / 2 % 2 == 0 && exists q :: Newest(ts, Item(e, q))
  }

  /** The overlay does not depend on the order of the tables. */
  lemma OverlayOrderFree(ts: seq<Table>, us: seq<Table>, a: seq<Entry>, b: seq<Entry>)
    requires multiset(ts) == multiset(us) && IsOverlay(ts, a) && IsOverlay(us, b)
    ensures a == b
  {
    forall x ensures Occurs(ts, x) <==> Occurs(us, x) {
      if Occurs(ts, x) { OccursMoves(ts, us, x); }
      if Occurs(us, x) { OccursMoves(us, ts, x); }
    }
    assert forall x :: Newest(ts, x) <==> Newest(us, x);
    assert forall e :: e in a <==> e in b;
    AscendingUnique(a, b);
  }

  lemma OccursMoves(ts: seq<Table>, us: seq<Table>, x: Item)
    requires multiset(ts) == multiset(us) && Occurs(ts, x)
    ensures Occurs(us, x)
  {
    var i :| 0 <= i < |ts| && ts[i].sequence == x.sequence && x.entry in ts[i].entries;
    assert ts[i] in multiset(us);
    var j :| 0 <= j < |us| && us[j] == ts[i];
  }

  lemma {:induction false} AscendingUnique(a: seq<Entry>, b: seq<Entry>)
    requires Ascending(a) && Ascending(b) && forall e :: e in a <==> e in b
    ensures a == b
  {
    if a == [] {
      assert forall k :: 0 <= k < |b| ==> b[k] in a;
    } else {
      assert a[0] in b;
      var n, m := |a| - 1, |b| - 1;
      SameLast(a, b);
      SameInits(a, b, a[..n], b[..m]);
      AscendingUnique(a[..n], b[..m]);
      assert a == a[..n] + [a[n]] && b == b[..m] + [b[m]];
    }
  }

  lemma SameInits(a: seq<Entry>, b: seq<Entry>, a0: seq<Entry>, b0: seq<Entry>)
    requires a != [] && b != [] && Ascending(a) && Ascending(b) && a[|a| - 1] == b[|b| - 1] && forall e :: e in a <==> e in b
    requires a0 == a[..|a| - 1] && b0 == b[..|b| - 1]
    ensures forall e :: e in a0 <==> e in b0
  {
    forall e ensures e in a0 <==> e in b0 {
      InitMembers(a, e);
      InitMembers(b, e);
    }
  }

  lemma InitMembers(a: seq<Entry>, e: Entry)
    requires a != [] && Ascending(a)
    ensures e in a[..|a| - 1] <==> e in a && e != a[|a| - 1]
  {
    var n := |a| - 1;
    if e in a[..n] {
      var i :| 0 <= i < n && a[i] == e;
      assert Rank(a[i].key) < Rank(a[n].key);
    }
  }

  lemma SameLast(a: seq<Entry>, b: seq<Entry>)
    requires Ascending(a) && Ascending(b) && a != [] && b != [] && forall e :: e in a <==> e in b
    ensures a[|a| - 1] == b[|b| - 1]
  {
    var n, m := |a| - 1, |b| - 1;
    assert a[n] in b && b[m] in a;
    var i :| 0 <= i < |b| && b[i] == a[n];
    var j :| 0 <= j < |a| && a[j] == b[m];
    assert Rank(a[n].key) <= Rank(b[m].key) <= Rank(a[n].key);
  }

  // ---- collect -------------------------------------------------------------------------------------

  function Tagged(es: seq<Entry>, q: nat): (r: seq<Item>) {
    seq(|es|, i requires 0 <= i < |es| => Item(es[i], q))
  }

  function Collected(ts: seq<Table>): (r: seq<Item>) {
    if ts == [] then [] else Collected(ts[..|ts| - 1]) + Tagged(ts[|ts| - 1].entries, ts[|ts| - 1].sequence)
  }

  ghost predicate SameSlot(x: Item, y: Item) {
    x.entry.key == y.entry.key && x.sequence == y.sequence
  }

  ghost predicate Distinct(s: seq<Item>) {
    forall i, j :: 0 <= i < j < |s| ==> !SameSlot(s[i], s[j])
  }

  lemma OccursSnoc(init: seq<Table>, last: Table, x: Item)
    ensures Occurs(init + [last], x) <==> Occurs(init, x) || (x.sequence == last.sequence && x.entry in last.entries)
  {
    var ts := init + [last];
    if i :| 0 <= i < |init| && init[i].sequence == x.sequence && x.entry in init[i].entries { assert ts[i] == init[i]; }
    assert ts[|init|] == last;
  }

  lemma {:induction false} CollectedItems(ts: seq<Table>, x: Item)
    ensures x in Collected(ts) <==> Occurs(ts, x)
  {
    if ts != [] {
      var init, last := ts[..|ts| - 1], ts[|ts| - 1];
      CollectedItems(init, x);
      TaggedItems(last.entries, last.sequence, x);
      assert ts == init + [last];
      OccursSnoc(init, last, x);
    }
  }

  lemma TaggedItems(es: seq<Entry>, q: nat, x: Item)
    ensures x in Tagged(es, q) <==> x.sequence == q && x.entry in es
  {
    if x.sequence == q && x.entry in es {
      var i :| 0 <= i < |es| && es[i] == x.entry;
      assert Tagged(es, q)[i] == x;
    }
  }

  lemma {:induction false} CollectedDistinct(ts: seq<Table>)
    requires TablesOk(ts)
    ensures Distinct(Collected(ts))
  {
    if ts != [] {
      var init, last := ts[..|ts| - 1], ts[|ts| - 1];
      CollectedDistinct(init);
      var a, b := Collected(init), Tagged(last.entries, last.sequence);
      forall i, j | 0 <= i < j < |a + b| ensures !SameSlot((a + b)[i], (a + b)[j]) {
        if i < |a| <= j {
          CollectedItems(init, a[i]);
          assert a[i] in a;
        } else if |a| <= i {
          assert Rank(last.entries[i - |a|].key) < Rank(last.entries[j - |a|].key);
        }
      }
    }
  }

  // ---- sort ----------------------------------------------------------------------------------------

  /** merge_entry_compare: by key, then the newer table first. */
  function MergeCompare(x: Item, y: Item): (r: int)
    ensures r < 0 <==> Precedes(x, y)
    ensures r == 0 <==> SameSlot(x, y)
    ensures r > 0 <==> Precedes(y, x)
  {
    var c := KeyCmp(x.entry.key, y.entry.key);
    if c != 0 then c
    else if x.sequence > y.sequence then -1
    else if x.sequence < y.sequence then 1
    else 0
  }

  ghost predicate Precedes(x: Item, y: Item) {
    Rank(x.entry.key) < Rank(y.entry.key) || (x.entry.key == y.entry.key && x.sequence > y.sequence)
  }

  ghost predicate InOrder(s: seq<Item>) {
    forall i, j :: 0 <= i < j < |s| ==> Precedes(s[i], s[j])
  }

  /** Stands for the library sort: any sorted arrangement; the items are distinct, so there is only one. */
  method Sort(s: seq<Item>) returns (r: seq<Item>)
    requires Distinct(s)
    ensures InOrder(r) && forall x :: x in r <==> x in s
  {
    r := [];
    for n := 0 to |s|
      invariant InOrder(r) && forall x :: x in r <==> x in s[..n]
    {
      var k := 0;
      while k < |r| && MergeCompare(r[k], s[n]) < 0
        invariant 0 <= k <= |r| && forall i :: 0 <= i < k ==> Precedes(r[i], s[n])
      {
        k := k + 1;
      }
      forall i | k <= i < |r| ensures Precedes(s[n], r[i]) {
        assert r[k] in s[..n] && Precedes(s[n], r[k]);
      }
      ghost var was := r;
      r := r[..k] + [s[n]] + r[k..];
      InsertedOrder(was, k, s[n]);
      assert s[..n + 1] == s[..n] + [s[n]];
      InsertedItems(was, k, s[n]);
    }
    assert s[..|s|] == s;
  }

  lemma InsertedOrder(r: seq<Item>, k: nat, x: Item)
    requires InOrder(r) && k <= |r|
    requires forall i :: 0 <= i < k ==> Precedes(r[i], x)
    requires forall i :: k <= i < |r| ==> Precedes(x, r[i])
    ensures InOrder(r[..k] + [x] + r[k..])
  {
  }

  lemma InsertedItems(r: seq<Item>, k: nat, x: Item)
    requires k <= |r|
    ensures forall y :: y in r[..k] + [x] + r[k..] <==> y in r || y == x
  {
    assert r == r[..k] + r[k..];
  }

  // ---- keep the first of each key ------------------------------------------------------------------

  /** The entries written by the loop of lines 270-292 over the first items. */
  function Kept(s: seq<Item>): (r: seq<Entry>) {
    if s == [] then []
    else
      var n := |s| - 1;
      if (n > 0 && s[n - 1].entry.key == s[n].entry.key) || IsTombstone(s[n].entry) then Kept(s[..n])
      else Kept(s[..n]) + [s[n].entry]
  }

  lemma {:induction false} KeptBound(s: seq<Item>, e: Entry)
    requires InOrder(s) && e in Kept(s)
    ensures s != [] && Rank(e.key) <= Rank(s[|s| - 1].entry.key)
  {
    var n := |s| - 1;
    if e in Kept(s[..n]) {
      KeptBound(s[..n], e);
      assert Precedes(s[n - 1], s[n]);
    }
  }

  lemma {:induction false} KeptAscends(s: seq<Item>)
    requires InOrder(s)
    ensures Ascending(Kept(s))
  {
    if s != [] {
      var n := |s| - 1;
      var a := Kept(s[..n]);
      KeptAscends(s[..n]);
      if Kept(s) != a {
        forall i | 0 <= i < |a| ensures Rank(a[i].key) < Rank(s[n].entry.key) {
          KeptBound(s[..n], a[i]);
          assert Precedes(s[n - 1], s[n]);
        }
      }
    }
  }

  /** An item at the head of its key's run. */
  ghost predicate HeadAt(s: seq<Item>, j: nat) {
    j < |s| && !(j > 0 && s[j - 1].entry.key == s[j].entry.key)
  }

  /** The entry heads the run of its key. */
  ghost predicate IsHead(s: seq<Item>, e: Entry) {
    exists j: nat :: HeadAt(s, j) && s[j].entry == e
  }

  lemma IsHeadSnoc(s: seq<Item>, e: Entry)
    requires s != []
    ensures IsHead(s, e) <==> IsHead(s[..|s| - 1], e) || (HeadAt(s, |s| - 1) && s[|s| - 1].entry == e)
  {
    var n := |s| - 1;
    forall j: nat | j < n ensures HeadAt(s, j) <==> HeadAt(s[..n], j) {}
    if IsHead(s[..n], e) {
      var j: nat :| HeadAt(s[..n], j) && s[..n][j].entry == e;
      assert HeadAt(s, j) && s[j].entry == e;
    }
    if j: nat :| HeadAt(s, j) && s[j].entry == e {
      assert j < n ==> HeadAt(s[..n], j) && s[..n][j].entry == e;
    }
  }

  lemma {:induction false} KeptItems(s: seq<Item>, e: Entry)
    ensures e in Kept(s) <==> !IsTombstone(e) && IsHead(s, e)
  {
    if s != [] {
      KeptItems(s[..|s| - 1], e);
      IsHeadSnoc(s, e);
    }
  }

  /** In sorted order the heads are the newest items. */
  lemma HeadIsNewest(s: seq<Item>, j: nat)
    requires InOrder(s) && j < |s|
    ensures HeadAt(s, j) <==> forall i :: 0 <= i < |s| && s[i].entry.key == s[j].entry.key ==> s[i].sequence <= s[j].sequence
  {
    if j > 0 {
      assert Precedes(s[j - 1], s[j]);
      assert forall i :: 0 <= i < j - 1 ==> Precedes(s[i], s[j - 1]);
    }
    assert forall i :: j < i < |s| ==> Precedes(s[j], s[i]);
  }

  /** The merge of the collected items is the overlay of the tables. */
  lemma KeptIsOverlay(ts: seq<Table>, s: seq<Item>)
    requires InOrder(s) && forall x :: x in s <==> Occurs(ts, x)
    ensures IsOverlay(ts, Kept(s))
  {
    KeptAscends(s);
    forall e ensures e in Kept(s) <==> !IsTombstone(e) && exists q :: Newest(ts, Item(e, q)) {
      KeptItems(s, e);
      if j: nat :| HeadAt(s, j) && s[j].entry == e {
        HeadIsNewest(s, j);
        assert s[j] in s;
        assert Newest(ts, Item(e, s[j].sequence)) by { NewestAt(ts, s, j); }
      }
      if q :| Newest(ts, Item(e, q)) {
        assert Item(e, q) in s;
        var j: nat :| j < |s| && s[j] == Item(e, q);
        NewestAt(ts, s, j);
        HeadIsNewest(s, j);
      }
    }
  }

  lemma NewestAt(ts: seq<Table>, s: seq<Item>, j: nat)
    requires j < |s| && forall x :: x in s <==> Occurs(ts, x)
    ensures Newest(ts, s[j]) <==>
            forall i :: 0 <= i < |s| && s[i].entry.key == s[j].entry.key ==> s[i].sequence <= s[j].sequence
  {
    assert s[j] in s;
    if Newest(ts, s[j]) {
      forall i | 0 <= i < |s| && s[i].entry.key == s[j].entry.key ensures s[i].sequence <= s[j].sequence {
        assert s[i] in s;
      }
    } else {
      var y :| Occurs(ts, y) && y.entry.key == s[j].entry.key && y.sequence > s[j].sequence;
      var i :| 0 <= i < |s| && s[i] == y;
    }
  }

  // ---- what a lookup in the merged table finds -----------------------------------------------------

  ghost predicate Has(es: seq<Entry>, key: Bytes) {
    exists e :: e in es && e.key == key
  }

  lemma LookupFinds(es: seq<Entry>, e: Entry)
    requires Ascending(es) && e in es
    ensures Lookup(es, e.key) == AnswerOf(e)
  {
    var m :| 0 <= m < |es| && es[m] == e;
    LookupAt(es, e.key, m);
  }

  lemma LookupMisses(es: seq<Entry>, key: Bytes)
    requires !Has(es, key)
    ensures Lookup(es, key) == Missing
  {
    forall i | 0 <= i < |es| ensures es[i].key != key { assert es[i] in es; }
    LookupNone(es, key);
  }

  /** Table i is the newest of those that have the key. */
  ghost predicate NewestTable(ts: seq<Table>, key: Bytes, i: nat) {
    i < |ts| && Has(ts[i].entries, key) &&
    forall j :: 0 <= j < |ts| && Has(ts[j].entries, key) ==> ts[j].sequence <= ts[i].sequence
  }

  function Visible(a: Answer): (r: Answer) {
    if a.Deleted? then Missing else a
  }

  /** A lookup in the merged table is the lookup in the newest input that has the key, with deletions forgotten. */
  lemma LookupInMerged(ts: seq<Table>, out: seq<Entry>, key: Bytes, i: nat)
    requires TablesOk(ts) && IsOverlay(ts, out) && NewestTable(ts, key, i)
    ensures Lookup(out, key) == Visible(Lookup(ts[i].entries, key))
  {
    var e :| e in ts[i].entries && e.key == key;
    var x := Item(e, ts[i].sequence);
    assert Occurs(ts, x);
    LookupFinds(ts[i].entries, e);
    forall y | Occurs(ts, y) && y.entry.key == key ensures y.sequence <= x.sequence {
      var j :| 0 <= j < |ts| && ts[j].sequence == y.sequence && y.entry in ts[j].entries;
      assert Has(ts[j].entries, key);
    }
    assert Newest(ts, x);
    if !IsTombstone(e) {
      assert e in out;
      LookupFinds(out, e);
    } else {
      if Has(out, key) {
        var o :| o in out && o.key == key;
        var q :| Newest(ts, Item(o, q));
        OneNewest(ts, x, Item(o, q));
        assert false;
      }
      LookupMisses(out, key);
    }
  }

  lemma OneNewest(ts: seq<Table>, x: Item, y: Item)
    requires TablesOk(ts) && Newest(ts, x) && Newest(ts, y) && x.entry.key == y.entry.key
    ensures x == y
  {
    var i :| 0 <= i < |ts| && ts[i].sequence == x.sequence && x.entry in ts[i].entries;
    var j :| 0 <= j < |ts| && ts[j].sequence == y.sequence && y.entry in ts[j].entries;
    assert i == j;
    LookupKey(ts[i].entries, x.entry, y.entry);
  }

  lemma LookupKey(es: seq<Entry>, a: Entry, b: Entry)
    requires Ascending(es) && a in es && b in es && a.key == b.key
    ensures a == b
  {
    var i :| 0 <= i < |es| && es[i] == a;
    var j :| 0 <= j < |es| && es[j] == b;
  }

  lemma OutFromInput(ts: seq<Table>, out: seq<Entry>, o: Entry)
    requires IsOverlay(ts, out) && o in out
    ensures exists i :: 0 <= i < |ts| && Has(ts[i].entries, o.key)
  {
    var q :| Newest(ts, Item(o, q));
    var i :| 0 <= i < |ts| && ts[i].sequence == q && o in ts[i].entries;
    assert Has(ts[i].entries, o.key);
  }

  /** A key no input has is not in the merged table. */
  lemma NotInMerged(ts: seq<Table>, out: seq<Entry>, key: Bytes)
    requires IsOverlay(ts, out) && forall i :: 0 <= i < |ts| ==> !Has(ts[i].entries, key)
    ensures Lookup(out, key) == Missing
  {
    forall o | o in out ensures o.key != key { OutFromInput(ts, out, o); }
    LookupMisses(out, key);
  }

  // ---- the merge as it runs ------------------------------------------------------------------------

  ghost predicate ReadersOf(rs: seq<Reader>, ts: seq<Table>) {
    |rs| == |ts| && forall i :: 0 <= i < |rs| ==> Reads(rs[i], ts[i].entries) && rs[i].sequence == ts[i].sequence
  }

  /** Lines 218-238 */
  method Collect(rs: seq<Reader>, ghost ts: seq<Table>) returns (items: seq<Item>)
    requires ReadersOf(rs, ts)
    ensures items == Collected(ts)
  {
    items := [];
    for i := 0 to |rs|
      invariant items == Collected(ts[..i])
    {
      var es := Scan(rs[i], ts[i].entries);
      items := items + Tagged(es, rs[i].sequence);
      assert ts[..i + 1][..i] == ts[..i];
    }
    assert ts[..|ts|] == ts;
  }

  /** The newest entry of the empty key is a live one. */
  ghost predicate BlankLive(ts: seq<Table>) {
    exists x :: Newest(ts, x) && x.entry.key == [] && x.entry.flag / 2 % 2 == 0
  }

  /** compaction_merge_to_level: it needs an input, and writes the overlay of the tables it can open unless the newest
      entry of the empty key is a live one; then it writes nothing. */
  method MergeTables(inputs: nat, rs: seq<Reader>, hashes: Bloom.Hashes, sequence: nat, created: nat, checksum: nat, ghost ts: seq<Table>)
    returns (status: Status, f: Option<Bytes>)
    requires |rs| <= inputs && TablesOk(ts) && ReadersOf(rs, ts)
    ensures status == Ok <==> inputs > 0 && !BlankLive(ts)
    ensures status == Ok ==> f.Some? && exists out :: IsOverlay(ts, out) && IsFileOf(f.value, out, hashes, sequence, created, checksum)
    ensures status != Ok ==> status == Invalid && f == None
  {
    if inputs == 0 { return Invalid, None; }
    var items := Collect(rs, ts);
    CollectedDistinct(ts);
    forall x ensures x in Collected(ts) <==> Occurs(ts, x) { CollectedItems(ts, x); }
    var s := Sort(items);
    BlankIff(ts, s);
    var w;
    w, status := WriteKept(s, hashes, sequence, ts);
    if status != Ok { return status, None; }
    KeptIsOverlay(ts, s);
    var bytes := w.Finish(created, checksum);
    assert IsOverlay(ts, Kept(s)) && IsFileOf(bytes, Kept(s), hashes, sequence, created, checksum);
    f := Some(bytes);
  }

  /** The first item in the order is a live one with the empty key. */
  ghost predicate BlankFirst(s: seq<Item>) {
    s != [] && s[0].entry.key == [] && !IsTombstone(s[0].entry)
  }

  /** The empty key comes first, and its newest entry before the others. */
  lemma BlankIff(ts: seq<Table>, s: seq<Item>)
    requires InOrder(s) && forall x :: x in s <==> Occurs(ts, x)
    ensures BlankLive(ts) <==> BlankFirst(s)
  {
    if BlankFirst(s) {
      HeadIsNewest(s, 0);
      NewestAt(ts, s, 0);
    }
    if x :| Newest(ts, x) && x.entry.key == [] && !IsTombstone(x.entry) {
      assert x in s;
      var j: nat :| j < |s| && s[j] == x;
      NewestAt(ts, s, j);
      HeadIsNewest(s, j);
      BlankHead(s, j);
    }
  }

  /** The empty key comes first in the order. */
  lemma BlankHead(s: seq<Item>, j: nat)
    requires InOrder(s) && HeadAt(s, j) && s[j].entry.key == []
    ensures j == 0
  {
    assert j > 0 ==> Precedes(s[j - 1], s[j]);
  }

  /** The loop of lines 265-292: an empty key is passed to the writer as a null pointer, which ends the loop. */
  method WriteKept(s: seq<Item>, hashes: Bloom.Hashes, sequence: nat, ghost ts: seq<Table>) returns (w: Writer, status: Status)
    requires TablesOk(ts) && InOrder(s) && forall x :: x in s ==> Occurs(ts, x)
    ensures fresh(w) && w.Valid() && w.hashes == hashes && w.sequence == sequence
    ensures status == if BlankFirst(s) then Invalid else Ok
    ensures status == Ok ==> w.added == Kept(s)
  {
    w := new Writer(hashes, sequence);
    status := Ok;
    for i := 0 to |s|
      invariant fresh(w) && w.Valid() && (w.bloom != null ==> fresh(w.bloom) && fresh(w.bloom.bits))
      invariant w.added == Kept(s[..i]) && w.hashes == hashes && w.sequence == sequence
      invariant status == Ok && (i > 0 ==> !BlankFirst(s))
    {
      assert s[..i + 1][..i] == s[..i];
      if i > 0 && s[i - 1].entry.key == s[i].entry.key { continue; }
      if IsTombstone(s[i].entry) { continue; }
      ItemFits(ts, s[i]);
      if s[i].entry.key == [] { BlankHead(s, i); }
      status := w.Add(s[i].entry, s[i].entry.key != []);
      if status != Ok { return; }
    }
    assert s[..|s|] == s;
  }

  lemma ItemFits(ts: seq<Table>, x: Item)
    requires TablesOk(ts) && Occurs(ts, x)
    ensures Fits(x.entry)
  {
  }

  /** A single good table whose merge is refused: it holds a live entry under the empty key. */
  lemma BlankKeyStopsTheMerge(val: Bytes, sequence: nat)
    requires |val| <= MAX_LEN
    ensures var e := Entry([], 1, val); var ts := [Table(sequence, [e])]; TablesOk(ts) && IsOverlay(ts, [e]) && BlankLive(ts)
  {
    var e := Entry([], 1, val);
    var ts := [Table(sequence, [e])];
    var x := Item(e, sequence);
    assert ts[0].sequence == sequence && e in ts[0].entries;
    forall y ensures Occurs(ts, y) <==> y == x {}
    assert Newest(ts, x);
    forall o ensures o in [e] <==> !IsTombstone(o) && exists q :: Newest(ts, Item(o, q)) {}
  }
}
