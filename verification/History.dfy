/** Histories of puts and deletes, memtables laid over maps, and tables loaded in some order: the values that the
    flush and recovery of src/core/db.c work on. */
module History {
  import opened Keys
  import BTree
  import opened BTreeRuns

  /** Contents of a memtable; None is a tombstone. */
  type Mem = map<Bytes, Option<Bytes>>
  type Table = seq<(Bytes, Option<Bytes>)>
  type KV = map<Bytes, Bytes>

  function MemStep(m: Mem, op: Op): Mem {
    match op
    case PutOp(k, v) => m[k := Some(v)]
    case DeleteOp(k) => m[k := None]
  }

  function MemRun(ops: seq<Op>): Mem {
    if ops == [] then map[] else MemStep(MemRun(ops[..|ops| - 1]), ops[|ops| - 1])
  }

  /** The history folded into a map. */
  function Fold(ops: seq<Op>): KV {
    if ops == [] then map[] else MapStep(Fold(ops[..|ops| - 1]), ops[|ops| - 1])
  }

  /** The memtable laid over the tree. */
  function Overlay(m: Mem, b: KV): KV {
    map k | k in m.Keys + b.Keys && !(k in m && m[k] == None) :: if k in m then m[k].value else b[k]
  }

  // ---------- Tables ----------

  /** A listing of a memtable as the flush writes it (src/core/db.c:45-53, 512). */
  ghost predicate Lists(t: Table, m: Mem) {
    && (forall i, j :: 0 <= i < j < |t| ==> t[i].0 != t[j].0)
    && (forall i :: 0 <= i < |t| ==> t[i].0 in m && m[t[i].0] == t[i].1)
    && (forall k :: k in m ==> (k, m[k]) in t)
  }

  /** sstable_load_cb: a tombstone deletes, a live entry is put (src/core/db.c:68-77). */
  function EntryOp(e: (Bytes, Option<Bytes>)): (op: Op) {
    if e.1 == None then DeleteOp(e.0) else PutOp(e.0, e.1.value)
  }

  function TableOps(t: Table): (ops: seq<Op>)
    ensures |ops| == |t|
  {
    seq(|t|, i requires 0 <= i < |t| => EntryOp(t[i]))
  }

  /** A table loaded into a map entry by entry. */
  function Load(b: KV, t: Table): KV {
    if t == [] then b else MapStep(Load(b, t[..|t| - 1]), EntryOp(t[|t| - 1]))
  }

  /** Tables loaded into an empty map in the given order. */
  function LoadAll(ts: seq<Table>): KV {
    if ts == [] then map[] else Load(LoadAll(ts[..|ts| - 1]), ts[|ts| - 1])
  }

  ghost predicate DistinctKeys(t: Table) {
    forall i, j :: 0 <= i < j < |t| ==> t[i].0 != t[j].0
  }

  /** What loading leaves under a key: the table's entry if it has one, else the old value. */
  lemma {:induction false} LoadLookup(b: KV, t: Table, k: Bytes)
    requires DistinctKeys(t)
    ensures forall i :: 0 <= i < |t| && t[i].0 == k ==> Get(Load(b, t), k) == t[i].1
    ensures (forall i :: 0 <= i < |t| ==> t[i].0 != k) ==> Get(Load(b, t), k) == Get(b, k)
  {
    if t != [] {
      LoadLookup(b, t[..|t| - 1], k);
    }
  }

  lemma GetExt(a: KV, b: KV)
    requires forall k {:trigger Get(a, k)} :: Get(a, k) == Get(b, k)
    ensures a == b
  {
    forall k | k in a.Keys + b.Keys ensures k in a && k in b && a[k] == b[k] {
      assert Get(a, k) == Get(b, k);
    }
    assert a.Keys == b.Keys;
  }

  function Under(m: Mem, k: Bytes, old_: Option<Bytes>): Option<Bytes> {
    if k in m then m[k] else old_
  }

  lemma OverlayLookup(m: Mem, b: KV, k: Bytes)
    ensures Get(Overlay(m, b), k) == Under(m, k, Get(b, k))
  {
  }

  /** Loading the table of a memtable entry by entry is overlaying the memtable. */
  lemma LoadIsOverlay(b: KV, t: Table, m: Mem)
    requires Lists(t, m)
    ensures Load(b, t) == Overlay(m, b)
  {
    forall k ensures Get(Load(b, t), k) == Get(Overlay(m, b), k) {
      LoadLookup(b, t, k);
      OverlayLookup(m, b, k);
      if k in m {
        assert (k, m[k]) in t;
      }
    }
    GetExt(Load(b, t), Overlay(m, b));
  }

  // ---------- Replay ----------

  lemma {:induction false} FoldAppend(a: seq<Op>, b: seq<Op>, k: Bytes)
    ensures Get(Fold(a + b), k) == Under(MemRun(b), k, Get(Fold(a), k))
  {
    if b == [] {
      assert a + b == a;
    } else {
      var b0 := b[..|b| - 1];
      FoldAppend(a, b0, k);
      assert (a + b)[..|a + b| - 1] == a + b0;
    }
  }

  lemma {:induction false} MemAppend(a: seq<Op>, b: seq<Op>, k: Bytes)
    ensures Under(MemRun(a + b), k, None) == if k in MemRun(b) then MemRun(b)[k] else Under(MemRun(a), k, None)
    ensures k in MemRun(a + b) <==> k in MemRun(a) || k in MemRun(b)
  {
    if b == [] {
      assert a + b == a;
    } else {
      var b0 := b[..|b| - 1];
      MemAppend(a, b0, k);
      assert (a + b)[..|a + b| - 1] == a + b0;
    }
  }

  lemma ReplayLookup(a: seq<Op>, b: seq<Op>, c: seq<Op>, k: Bytes)
    ensures Get(Overlay(MemRun(b + c), Fold(a + b)), k) == Get(Fold(a + (b + c)), k)
  {
    OverlayLookup(MemRun(b + c), Fold(a + b), k);
    FoldAppend(a, b + c, k);
    FoldAppend(a, b, k);
    MemAppend(b, c, k);
  }

  /** Replaying operations the tables already cover changes nothing: replay from any earlier
      point m of the log over the state after n operations gives the whole history. */
  lemma ReplayIsIdempotent(hist: seq<Op>, m: nat, n: nat)
    requires m <= n <= |hist|
    ensures Overlay(MemRun(hist[m..]), Fold(hist[..n])) == Fold(hist)
  {
    Slices(hist, m, n);
    ReplayParts(hist[..m], hist[m..n], hist[n..]);
  }

  lemma Slices(hist: seq<Op>, m: nat, n: nat)
    requires m <= n <= |hist|
    ensures hist[m..] == hist[m..n] + hist[n..] && hist[..n] == hist[..m] + hist[m..n]
    ensures hist == hist[..m] + (hist[m..n] + hist[n..])
  {
  }

  lemma ReplayParts(a: seq<Op>, b: seq<Op>, c: seq<Op>)
    ensures Overlay(MemRun(b + c), Fold(a + b)) == Fold(a + (b + c))
  {
    forall k ensures Get(Overlay(MemRun(b + c), Fold(a + b)), k) == Get(Fold(a + (b + c)), k) {
      ReplayLookup(a, b, c, k);
    }
    GetExt(Overlay(MemRun(b + c), Fold(a + b)), Fold(a + (b + c)));
  }

  // ---------- Tables and the tree ----------

  lemma {:induction false} MapRunSnoc(m: KV, ops: seq<Op>, op: Op)
    ensures MapRun(m, ops + [op]) == MapStep(MapRun(m, ops), op)
    decreases |ops|
  {
    if ops == [] {
      assert ops + [op] == [op] && [op][1..] == [];
    } else {
      assert (ops + [op])[0] == ops[0] && (ops + [op])[1..] == ops[1..] + [op];
      MapRunSnoc(MapStep(m, ops[0]), ops[1..], op);
    }
  }

  /** Loading is what a run of puts and deletes does to a map. */
  lemma {:induction false} LoadIsRun(b: KV, t: Table)
    ensures Load(b, t) == MapRun(b, TableOps(t))
  {
    if t == [] {
      assert TableOps(t) == [];
    } else {
      var n := |t| - 1;
      LoadIsRun(b, t[..n]);
      assert TableOps(t) == TableOps(t[..n]) + [EntryOp(t[n])];
      MapRunSnoc(b, TableOps(t[..n]), EntryOp(t[n]));
    }
  }

  /** The tree after the tables were loaded into it in the given order. */
  function LoadTree(r: Root, ts: seq<Table>): (r': Root)
    requires BTree.Shape(r.tree, r.depth)
    ensures BTree.Shape(r'.tree, r'.depth)
  {
    if ts == [] then r else Run(LoadTree(r, ts[..|ts| - 1]), TableOps(ts[|ts| - 1]))
  }

  /** No put of the loading is misrouted by the tree. */
  predicate CleanLoad(r: Root, ts: seq<Table>)
    requires BTree.Shape(r.tree, r.depth)
  {
    ts == [] || (CleanLoad(r, ts[..|ts| - 1]) && Clean(LoadTree(r, ts[..|ts| - 1]), TableOps(ts[|ts| - 1])))
  }

  /** A tree whose lookups are those of the map. */
  ghost predicate TreeIs(r: Root, m: KV) {
    Valid(r) && Refines(r, m)
  }

  /** What the tree shows after loading the tables: misrouted puts count for nothing. */
  function SeenLoad(ts: seq<Table>): (m: KV) {
    if ts == [] then map[] else SeenRun(LoadTree(Empty(), ts[..|ts| - 1]), SeenLoad(ts[..|ts| - 1]), TableOps(ts[|ts| - 1]))
  }

  lemma {:induction false} SeenLoadIs(ts: seq<Table>)
    ensures TreeIs(LoadTree(Empty(), ts), SeenLoad(ts))
  {
    if ts != [] {
      SeenLoadIs(ts[..|ts| - 1]);
      RunIsSeen(LoadTree(Empty(), ts[..|ts| - 1]), SeenLoad(ts[..|ts| - 1]), TableOps(ts[|ts| - 1]));
    }
  }

  /** Without misrouted puts the tree shows what the tables say in that order. */
  lemma {:induction false} CleanLoadIs(ts: seq<Table>)
    requires CleanLoad(Empty(), ts)
    ensures SeenLoad(ts) == LoadAll(ts)
  {
    if ts != [] {
      CleanLoadIs(ts[..|ts| - 1]);
      CleanIsSeen(LoadTree(Empty(), ts[..|ts| - 1]), LoadAll(ts[..|ts| - 1]), TableOps(ts[|ts| - 1]));
      LoadIsRun(LoadAll(ts[..|ts| - 1]), ts[|ts| - 1]);
    }
  }

  // ---------- Load order ----------

  /** What the last table in the order that has the key says of it; None if no table has it. */
  function LastSays(ts: seq<Table>, k: Bytes): (r: Option<Option<Bytes>>) {
    if ts == [] then None
    else
      var e := Says(ts[|ts| - 1], k);
      if e.Some? then e else LastSays(ts[..|ts| - 1], k)
  }

  function Says(t: Table, k: Bytes): (r: Option<Option<Bytes>>) {
    if t == [] then None else if t[|t| - 1].0 == k then Some(t[|t| - 1].1) else Says(t[..|t| - 1], k)
  }

  lemma {:induction false} SaysLookup(b: KV, t: Table, k: Bytes)
    ensures Get(Load(b, t), k) == if Says(t, k).Some? then Says(t, k).value else Get(b, k)
  {
    if t != [] { SaysLookup(b, t[..|t| - 1], k); }
  }

  /** After loading in any order, a key has the value that its last holder gives it. */
  lemma {:induction false} LoadAllLookup(ts: seq<Table>, k: Bytes)
    ensures Get(LoadAll(ts), k) == if LastSays(ts, k).Some? then LastSays(ts, k).value else None
  {
    if ts != [] {
      LoadAllLookup(ts[..|ts| - 1], k);
      SaysLookup(LoadAll(ts[..|ts| - 1]), ts[|ts| - 1], k);
    }
  }

  lemma {:induction false} LastSaysHeld(ts: seq<Table>, k: Bytes)
    ensures LastSays(ts, k).Some? <==> exists t :: t in ts && Says(t, k).Some?
  {
    if ts != [] {
      var n := |ts| - 1;
      LastSaysHeld(ts[..n], k);
      forall t ensures t in ts <==> t in ts[..n] || t == ts[n] { assert ts == ts[..n] + [ts[n]]; }
      if Says(ts[n], k).Some? { assert ts[n] in ts; }
      if t :| t in ts && Says(t, k).Some? { assert t in ts[..n] || t == ts[n]; }
    }
  }

  /** The last holder of the key in either order leaves the same value. */
  ghost predicate SameLast(us: seq<Table>, ts: seq<Table>, k: Bytes) {
    LastSays(us, k) == LastSays(ts, k)
  }

  /** The same tables in another order load to the same contents exactly when for every key the last holders of the two
      orders leave the same value. */
  lemma LoadOrderIff(us: seq<Table>, ts: seq<Table>)
    requires multiset(us) == multiset(ts)
    ensures LoadAll(us) == LoadAll(ts) <==> forall k :: SameLast(us, ts, k)
  {
    forall k ensures Get(LoadAll(us), k) == Get(LoadAll(ts), k) <==> SameLast(us, ts, k) {
      LoadAllLookup(us, k);
      LoadAllLookup(ts, k);
      LastSaysHeld(us, k);
      LastSaysHeld(ts, k);
      forall t ensures t in us <==> t in ts { assert t in multiset(us) <==> t in us; }
    }
    if forall k :: SameLast(us, ts, k) {
      forall k ensures Get(LoadAll(us), k) == Get(LoadAll(ts), k) { assert SameLast(us, ts, k); }
      GetExt(LoadAll(us), LoadAll(ts));
    }
  }

  // ---------- Replacing a table ----------

  /** A table file and the number in its name. */
  datatype File = File(number: nat, table: Table)

  function TablesOf(fs: seq<File>): (ts: seq<Table>)
    ensures |ts| == |fs|
  {
    seq(|fs|, i requires 0 <= i < |fs| => fs[i].table)
  }

  /** The files with other numbers. */
  function Others(fs: seq<File>, n: nat): (r: seq<File>) {
    if fs == [] then []
    else Others(fs[..|fs| - 1], n) + if fs[|fs| - 1].number == n then [] else [fs[|fs| - 1]]
  }

  ghost predicate NumbersDiffer(fs: seq<File>) {
    forall i, j :: 0 <= i < j < |fs| ==> fs[i].number != fs[j].number
  }

  lemma {:induction false} OthersMembers(fs: seq<File>, n: nat)
    requires NumbersDiffer(fs)
    ensures NumbersDiffer(Others(fs, n)) && forall f :: f in Others(fs, n) <==> f in fs && f.number != n
  {
    if fs != [] {
      var m := |fs| - 1;
      OthersMembers(fs[..m], n);
      assert fs == fs[..m] + [fs[m]];
      var r := Others(fs[..m], n);
      forall i | 0 <= i < |r| ensures r[i].number != fs[m].number {
        assert r[i] in r;
        var j :| 0 <= j < m && fs[j] == r[i];
      }
    }
  }

  lemma {:induction false} OthersNone(fs: seq<File>, n: nat)
    requires forall i :: 0 <= i < |fs| ==> fs[i].number != n
    ensures Others(fs, n) == fs
  {
    if fs != [] { OthersNone(fs[..|fs| - 1], n); }
  }

  /** Taking out the one file of the number. */
  lemma {:induction false} OthersSplit(fs: seq<File>, n: nat, i: nat)
    requires NumbersDiffer(fs) && i < |fs| && fs[i].number == n
    ensures Others(fs, n) == fs[..i] + fs[i + 1..]
  {
    var m := |fs| - 1;
    if i == m {
      OthersNone(fs[..m], n);
    } else {
      OthersSplit(fs[..m], n, i);
      assert fs[i + 1..] == fs[..m][i + 1..] + [fs[m]] && fs[..m][..i] == fs[..i];
    }
  }

  lemma {:induction false} LastSaysAppend(a: seq<Table>, b: seq<Table>, k: Bytes)
    ensures LastSays(a + b, k) == if LastSays(b, k).Some? then LastSays(b, k) else LastSays(a, k)
  {
    if b == [] {
      assert a + b == a;
    } else {
      LastSaysAppend(a, b[..|b| - 1], k);
      assert (a + b)[..|a + b| - 1] == a + b[..|b| - 1];
    }
  }

  /** Taking table x out from between older and newer ones leaves the value of a key exactly when x does not have it, a
      newer table has it, or the older ones leave the same value. */
  lemma TakenOutIff(older: seq<Table>, x: Table, newer: seq<Table>, k: Bytes)
    ensures Get(LoadAll(older + newer), k) == Get(LoadAll(older + [x] + newer), k) <==>
            (Says(x, k).Some? ==> LastSays(newer, k).Some? || Get(LoadAll(older), k) == Says(x, k).value)
  {
    LastSaysAppend(older, newer, k);
    LastSaysAppend(older + [x], newer, k);
    assert (older + [x])[..|older|] == older;
    LoadAllLookup(older + newer, k);
    LoadAllLookup(older + [x] + newer, k);
    LoadAllLookup(older, k);
  }

  /** The key is not in file i, is in the table that takes its place or in a newer one, or has the same value in the older
      ones. */
  ghost predicate SupersededAt(fs: seq<File>, i: nat, m: Mem, k: Bytes)
    requires i < |fs|
  {
    Says(fs[i].table, k).Some? ==>
      k in m || LastSays(TablesOf(fs[i + 1..]), k).Some? || Get(LoadAll(TablesOf(fs[..i])), k) == Says(fs[i].table, k).value
  }

  /** No file has the number, or a table with these entries may take its place. */
  ghost predicate Replaceable(fs: seq<File>, n: nat, m: Mem) {
    forall i: nat, k {:trigger SupersededAt(fs, i, m, k)} :: i < |fs| && fs[i].number == n ==> SupersededAt(fs, i, m, k)
  }

  /** The files with other numbers leave the key the value that all files leave it, unless the entries have it. */
  ghost predicate KeptAt(fs: seq<File>, n: nat, m: Mem, k: Bytes) {
    k in m || Get(LoadAll(TablesOf(Others(fs, n))), k) == Get(LoadAll(TablesOf(fs)), k)
  }

  lemma KeptAtIff(fs: seq<File>, n: nat, m: Mem, i: nat, k: Bytes)
    requires NumbersDiffer(fs) && i < |fs| && fs[i].number == n
    ensures SupersededAt(fs, i, m, k) <==> KeptAt(fs, n, m, k)
  {
    OthersSplit(fs, n, i);
    FilesAround(fs, i);
    TakenOutIff(TablesOf(fs[..i]), fs[i].table, TablesOf(fs[i + 1..]), k);
  }

  /** The two say the same. */
  lemma ReplaceableIff(fs: seq<File>, n: nat, m: Mem)
    requires NumbersDiffer(fs)
    ensures Replaceable(fs, n, m) <==> forall k :: KeptAt(fs, n, m, k)
  {
    if i: nat :| i < |fs| && fs[i].number == n {
      forall k ensures SupersededAt(fs, i, m, k) <==> KeptAt(fs, n, m, k) { KeptAtIff(fs, n, m, i, k); }
    } else {
      OthersNone(fs, n);
    }
  }

  lemma FilesAround(fs: seq<File>, i: nat)
    requires i < |fs|
    ensures TablesOf(fs) == TablesOf(fs[..i]) + [fs[i].table] + TablesOf(fs[i + 1..])
    ensures TablesOf(fs[..i] + fs[i + 1..]) == TablesOf(fs[..i]) + TablesOf(fs[i + 1..])
  {
  }
}
