/**
 * The flat vector index and its recovery (src/vector/vector.c:18-46, 245-297, 348-400 and
 * src/vector/persistence.c:24-314, 372-532). The log is a list of records. A checkpoint writes three files one
 * after the other and may be cut off in any of them; it does not shorten the log, which is reopened for appending.
 */
module FlatIndex {
  import opened Keys
  import opened Slots

  datatype Op = Insert(id: nat, vector: Vector) | Delete(id: nat)

  // ---- histories -----------------------------------------------------------------------------------

  function Apply(m: map<nat, Vector>, op: Op): (r: map<nat, Vector>) {
    match op
    case Insert(id, v) => m[id := v]
    case Delete(id) => m - {id}
  }

  function Fold(m: map<nat, Vector>, ops: seq<Op>): (r: map<nat, Vector>) {
    if ops == [] then m else Apply(Fold(m, ops[..|ops| - 1]), ops[|ops| - 1])
  }

  function Lookup(m: map<nat, Vector>, id: nat): (r: Option<Vector>) {
    if id in m then Some(m[id]) else None
  }

  /** The value the last operation on the id leaves, if any operation is about it. */
  function LastEffect(ops: seq<Op>, id: nat): (r: Option<Option<Vector>>) {
    if ops == [] then None
    else
      var op := ops[|ops| - 1];
      if op.id == id then Some(if op.Insert? then Some(op.vector) else None) else LastEffect(ops[..|ops| - 1], id)
  }

  lemma {:induction false} FoldLookup(m: map<nat, Vector>, ops: seq<Op>, id: nat)
    ensures Lookup(Fold(m, ops), id) == if LastEffect(ops, id).Some? then LastEffect(ops, id).value else Lookup(m, id)
  {
    if ops != [] { FoldLookup(m, ops[..|ops| - 1], id); }
  }

  lemma {:induction false} FoldAppend(m: map<nat, Vector>, a: seq<Op>, b: seq<Op>)
    ensures Fold(m, a + b) == Fold(Fold(m, a), b)
  {
    if b == [] {
      assert a + b == a;
    } else {
      var n := |b| - 1;
      FoldAppend(m, a, b[..n]);
      assert (a + b)[..|a + b| - 1] == a + b[..n];
    }
  }

  /** Replaying operations that are already in the state does not change it. */
  lemma ReplayAgain(m: map<nat, Vector>, ops: seq<Op>)
    ensures Fold(Fold(m, ops), ops) == Fold(m, ops)
  {
    var once, twice := Fold(m, ops), Fold(Fold(m, ops), ops);
    forall id ensures Lookup(twice, id) == Lookup(once, id) {
      FoldLookup(m, ops, id);
      FoldLookup(once, ops, id);
    }
    SameMap(twice, once);
  }

  lemma SameMap(a: map<nat, Vector>, b: map<nat, Vector>)
    requires forall id :: Lookup(a, id) == Lookup(b, id)
    ensures a == b
  {
    assert forall id :: id in a <==> Lookup(a, id).Some?;
    assert forall id :: id in b <==> Lookup(b, id).Some?;
    forall id | id in a ensures a[id] == b[id] { assert Lookup(a, id) == Lookup(b, id); }
  }

  lemma RecoverParts(a: seq<Op>, b: seq<Op>, c: seq<Op>)
    ensures Fold(Fold(map[], a + b), b + c) == Fold(map[], (a + b) + c)
  {
    var m := Fold(map[], a);
    FoldAppend(map[], a, b);
    FoldAppend(map[], a + b, c);
    FoldAppend(Fold(m, b), b, c);
    ReplayAgain(m, b);
  }

  /** The state at t, with the log replayed from any earlier point s, is the state of the whole history. */
  lemma RecoveryIsExact(h: seq<Op>, s: nat, t: nat)
    requires s <= t <= |h|
    ensures Fold(Fold(map[], h[..t]), h[s..]) == Fold(map[], h)
  {
    Slices(h, s, t);
    RecoverParts(h[..s], h[s..t], h[t..]);
  }

  lemma Slices(h: seq<Op>, s: nat, t: nat)
    requires s <= t <= |h|
    ensures h[..t] == h[..s] + h[s..t] && h[s..] == h[s..t] + h[t..] && h == (h[..s] + h[s..t]) + h[t..]
  {
  }

  ghost predicate Mentioned(h: seq<Op>, id: nat) {
    exists op :: op in h && op.id == id
  }

  lemma {:induction false} EffectIff(h: seq<Op>, id: nat)
    ensures LastEffect(h, id).Some? <==> Mentioned(h, id)
  {
    if h != [] {
      var n := |h| - 1;
      EffectIff(h[..n], id);
      assert h == h[..n] + [h[n]];
      if op :| op in h && op.id == id { assert op in h[..n] || op == h[n]; }
    }
  }

  /** Replaying the whole history over any map of ids it mentions gives the state of the history. */
  lemma AnyStart(m: map<nat, Vector>, h: seq<Op>)
    requires forall id :: id in m ==> Mentioned(h, id)
    ensures Fold(m, h) == Fold(map[], h)
  {
    forall id ensures Lookup(Fold(m, h), id) == Lookup(Fold(map[], h), id) {
      FoldLookup(m, h, id);
      FoldLookup(map[], h, id);
      EffectIff(h, id);
    }
    SameMap(Fold(m, h), Fold(map[], h));
  }

  lemma LiveIsMentioned(h: seq<Op>, id: nat)
    requires id in Fold(map[], h)
    ensures Mentioned(h, id)
  {
    FoldLookup(map[], h, id);
    EffectIff(h, id);
  }

  // ---- slots ---------------------------------------------------------------------------------------

  /** Insert into the slots (vector.c:263-285 and persistence.c:125-162): update a live slot, or append, growing first. */
  method InsertSlot(nodes: seq<Node>, capacity: nat, id: nat, v: Vector, ghost model: map<nat, Vector>) returns (now: seq<Node>, cap: nat)
    requires NodesOk(nodes, model) && |nodes| <= capacity
    ensures NodesOk(now, model[id := v]) && |now| <= cap
    ensures cap == if |now| <= capacity then capacity else if capacity == 0 then 1024 else 2 * capacity
    ensures |now| == if id in model then |nodes| else |nodes| + 1
  {
    cap := capacity;
    var existing := FindSlot(nodes, id, model);
    if existing.Some? {
      UpdateNodes(nodes, model, existing.value, v);
      now := nodes[existing.value := nodes[existing.value].(vector := v)];
    } else {
      if |nodes| >= cap { cap := if cap != 0 then 2 * cap else 1024; }
      AppendNode(nodes, model, Node(id, v, false));
      now := nodes + [Node(id, v, false)];
    }
  }

  method DeleteSlot(nodes: seq<Node>, id: nat, ghost model: map<nat, Vector>) returns (now: seq<Node>, found: bool)
    requires NodesOk(nodes, model)
    ensures NodesOk(now, model - {id}) && |now| == |nodes| && (found <==> id in model)
  {
    var pos := FindSlot(nodes, id, model);
    found := pos.Some?;
    if found {
      DropNode(nodes, model, pos.value);
      now := nodes[pos.value := nodes[pos.value].(deleted := true)];
    } else {
      now := nodes;
      assert model - {id} == model;
    }
  }

  // ---- snapshot ------------------------------------------------------------------------------------

  /** The slots a snapshot is read into: none is deleted. */
  function AsNodes(snap: seq<(nat, Vector)>): (r: seq<Node>) {
    seq(|snap|, i requires 0 <= i < |snap| => Node(snap[i].0, snap[i].1, false))
  }

  /** at[j] is the slot that pair j of the snapshot was taken from. */
  ghost predicate TakenFrom(nodes: seq<Node>, n: nat, snap: seq<(nat, Vector)>, at: seq<nat>) {
    n <= |nodes| && |at| == |snap| && (forall i, j :: 0 <= i < j < |at| ==> at[i] < at[j]) &&
    (forall j :: 0 <= j < |at| ==> at[j] < n && Live(nodes, at[j]) && snap[j] == (nodes[at[j]].id, nodes[at[j]].vector)) &&
    (forall i: nat :: i < n && Live(nodes, i) ==> i in at)
  }

  lemma SnapshotOk(nodes: seq<Node>, model: map<nat, Vector>, snap: seq<(nat, Vector)>, at: seq<nat>)
    requires NodesOk(nodes, model) && TakenFrom(nodes, |nodes|, snap, at)
    ensures NodesOk(AsNodes(snap), model)
  {
    var now := AsNodes(snap);
    forall i: nat, j: nat | Live(now, i) && Live(now, j) && now[i].id == now[j].id ensures i == j {
      assert at[i] == at[j];
    }
    forall id | id in model ensures HasLive(now, id) {
      assert HasLive(nodes, id);
      var i: nat :| Live(nodes, i) && nodes[i].id == id;
      var j :| 0 <= j < |at| && at[j] == i;
      assert Live(now, j) && now[j].id == id;
    }
  }

  /** persist_write_flat: the live pairs in slot order. */
  method TakeSnapshot(nodes: seq<Node>, ghost model: map<nat, Vector>) returns (snap: seq<(nat, Vector)>)
    requires NodesOk(nodes, model)
    ensures NodesOk(AsNodes(snap), model) && exists at :: TakenFrom(nodes, |nodes|, snap, at)
  {
    snap := [];
    ghost var at: seq<nat> := [];
    for i := 0 to |nodes|
      invariant TakenFrom(nodes, i, snap, at)
    {
      if nodes[i].deleted { continue; }
      ghost var more := at + [i];
      forall k: nat | k < i + 1 && Live(nodes, k) ensures k in more {
        if k == i { assert more[|at|] == i; }
      }
      snap, at := snap + [(nodes[i].id, nodes[i].vector)], more;
    }
    SnapshotOk(nodes, model, snap, at);
  }

  // ---- replay --------------------------------------------------------------------------------------

  /** The capacity after doubling it until n slots fit. */
  ghost function Doubled(capacity: nat, n: nat): (c: nat)
    requires capacity > 0
    ensures capacity <= c && n <= c && (c == capacity || c < 2 * n)
    decreases n - capacity
  {
    if n <= capacity then capacity else Doubled(2 * capacity, n)
  }

  lemma {:induction false} DoubledNext(capacity: nat, n: nat)
    requires capacity > 0
    ensures Doubled(capacity, n + 1) == if n + 1 <= Doubled(capacity, n) then Doubled(capacity, n) else 2 * Doubled(capacity, n)
    decreases n - capacity
  {
    if n > capacity { DoubledNext(2 * capacity, n); }
  }

  /** vec_wal_replay, on the records of the log. */
  method Replay(nodes: seq<Node>, capacity: nat, log: seq<Op>, ghost model: map<nat, Vector>) returns (now: seq<Node>, cap: nat)
    requires NodesOk(nodes, model) && |nodes| <= capacity && capacity > 0
    ensures NodesOk(now, Fold(model, log)) && cap == Doubled(capacity, |now|)
  {
    now, cap := nodes, capacity;
    for i := 0 to |log|
      invariant NodesOk(now, Fold(model, log[..i])) && cap == Doubled(capacity, |now|)
    {
      DoubledNext(capacity, |now|);
      ghost var m := Fold(model, log[..i]);
      assert log[..i + 1][..i] == log[..i];
      match log[i] {
        case Insert(id, v) => now, cap := InsertSlot(now, cap, id, v, m);
        case Delete(id) =>
          var found;
          now, found := DeleteSlot(now, id, m);
      }
    }
    assert log[..|log|] == log;
  }

  // ---- the three files of a checkpoint -------------------------------------------------------------

  datatype Meta = NoFile | Torn | Count(n: nat)
  datatype Files = Files(meta: Meta, vectors: seq<Vector>, ids: seq<nat>)

  function IdsOf(snap: seq<(nat, Vector)>): (r: seq<nat>) {
    seq<nat>(|snap|, i requires 0 <= i < |snap| => snap[i].0)
  }

  function VectorsOf(snap: seq<(nat, Vector)>): (r: seq<Vector>) {
    seq(|snap|, i requires 0 <= i < |snap| => snap[i].1)
  }

  /** What a whole checkpoint leaves. */
  function Whole(snap: seq<(nat, Vector)>): (f: Files) {
    Files(Count(|snap|), VectorsOf(snap), IdsOf(snap))
  }

  /** Where a checkpoint was cut off: each file is emptied when its writing starts, and the others are still the old ones. */
  datatype Cut = InMeta | BeforeVectors | InVectors(n: nat) | InIds(n: nat)

  function Partly(f: Files, snap: seq<(nat, Vector)>, cut: Cut): (r: Files) {
    match cut
    case InMeta => f.(meta := Torn)
    case BeforeVectors => f.(meta := Count(|snap|))
    case InVectors(n) => Files(Count(|snap|), if n <= |snap| then VectorsOf(snap)[..n] else VectorsOf(snap), f.ids)
    case InIds(n) => Files(Count(|snap|), VectorsOf(snap), if n <= |snap| then IdsOf(snap)[..n] else IdsOf(snap))
  }

  /** The files hold as many vectors and ids as the first one says. */
  predicate Readable(f: Files) {
    f.meta.Count? && f.meta.n <= |f.vectors| && f.meta.n <= |f.ids|
  }

  function Pairs(f: Files): (r: seq<(nat, Vector)>)
    requires Readable(f)
  {
    seq(f.meta.n, i requires 0 <= i < f.meta.n => (f.ids[i], f.vectors[i]))
  }

  ghost predicate NoRepeats(ids: seq<nat>) {
    forall i, j :: 0 <= i < j < |ids| ==> ids[i] != ids[j]
  }

  /** The ids in the files are distinct and occur in the history. */
  ghost predicate FilesOk(f: Files, h: seq<Op>) {
    NoRepeats(f.ids) && forall i :: 0 <= i < |f.ids| ==> Mentioned(h, f.ids[i])
  }

  lemma FilesGrow(f: Files, h: seq<Op>, op: Op)
    requires FilesOk(f, h)
    ensures FilesOk(f, h + [op])
  {
    forall i | 0 <= i < |f.ids| ensures Mentioned(h + [op], f.ids[i]) {
      var o :| o in h && o.id == f.ids[i];
      assert o in h + [op];
    }
  }

  lemma SnapshotFiles(snap: seq<(nat, Vector)>, h: seq<Op>)
    requires NodesOk(AsNodes(snap), Fold(map[], h))
    ensures FilesOk(Whole(snap), h)
  {
    var now, ids := AsNodes(snap), IdsOf(snap);
    forall i, j | 0 <= i < j < |ids| ensures ids[i] != ids[j] { assert Live(now, i) && Live(now, j); }
    forall i | 0 <= i < |ids| ensures Mentioned(h, ids[i]) {
      assert Live(now, i);
      LiveIsMentioned(h, ids[i]);
    }
  }

  /** Wherever it is cut off, a checkpoint leaves files of that kind. */
  lemma PartlyOk(f: Files, snap: seq<(nat, Vector)>, cut: Cut, h: seq<Op>)
    requires FilesOk(f, h) && FilesOk(Whole(snap), h)
    ensures FilesOk(Partly(f, snap, cut), h)
  {
  }

  /** A cut inside a checkpoint leaves readable files exactly when the file being written was complete, and the old files
      behind it are long enough. */
  lemma PartlyReadableIff(f: Files, snap: seq<(nat, Vector)>, cut: Cut)
    ensures Readable(Partly(f, snap, cut)) <==>
            match cut
            case InMeta => false
            case BeforeVectors => |snap| <= |f.vectors| && |snap| <= |f.ids|
            case InVectors(n) => |snap| <= n && |snap| <= |f.ids|
            case InIds(n) => |snap| <= n
  {
  }

  /** An index of one vector that grew to two: a checkpoint cut off after its first file leaves files that do not open,
      although the log holds both insertions. */
  lemma GrownIndexDoesNotOpen(a: Vector, b: Vector)
    ensures var f, snap := Partly(Whole([(1, a)]), [(1, a), (2, b)], BeforeVectors), [(1, a), (2, b)];
            FilesOk(f, [Insert(1, a), Insert(2, b)]) && NodesOk(AsNodes(snap), Fold(map[], [Insert(1, a), Insert(2, b)])) &&
            !f.meta.NoFile? && !Readable(f)
  {
    var h, snap := [Insert(1, a), Insert(2, b)], [(1, a), (2, b)];
    var old_ := Whole([(1, a)]);
    PartlyReadableIff(old_, snap, BeforeVectors);
    assert h[0] in h && Mentioned(h, 1);
    assert h[..1] == [Insert(1, a)] && h[..1][..0] == [];
    assert Fold(map[], h[..1]) == Apply(Fold(map[], []), Insert(1, a));
    var m: map<nat, Vector> := map[1 := a, 2 := b];
    assert Fold(map[], h) == m;
    var now := AsNodes(snap);
    assert Live(now, 0) && Live(now, 1) && now[0].id == 1 && now[1].id == 2;
  }

  ghost function MapOf(pairs: seq<(nat, Vector)>): (m: map<nat, Vector>) {
    if pairs == [] then map[] else MapOf(pairs[..|pairs| - 1])[pairs[|pairs| - 1].0 := pairs[|pairs| - 1].1]
  }

  lemma {:induction false} MapOfKeys(pairs: seq<(nat, Vector)>, id: nat)
    ensures id in MapOf(pairs) <==> id in IdsOf(pairs)
  {
    if pairs != [] {
      var n := |pairs| - 1;
      MapOfKeys(pairs[..n], id);
      assert IdsOf(pairs) == IdsOf(pairs[..n]) + [pairs[n].0];
    }
  }

  lemma {:induction false} PairsNodes(pairs: seq<(nat, Vector)>)
    requires forall i, j :: 0 <= i < j < |pairs| ==> pairs[i].0 != pairs[j].0
    ensures NodesOk(AsNodes(pairs), MapOf(pairs))
  {
    if pairs != [] {
      var n := |pairs| - 1;
      PairsNodes(pairs[..n]);
      MapOfKeys(pairs[..n], pairs[n].0);
      AppendNode(AsNodes(pairs[..n]), MapOf(pairs[..n]), Node(pairs[n].0, pairs[n].1, false));
      assert AsNodes(pairs) == AsNodes(pairs[..n]) + [Node(pairs[n].0, pairs[n].1, false)];
    }
  }

  /** Old and new files mixed by a cut still lead to the state of the whole history. */
  lemma MixtureIsExact(f: Files, h: seq<Op>)
    requires Readable(f) && FilesOk(f, h)
    ensures NodesOk(AsNodes(Pairs(f)), MapOf(Pairs(f))) && Fold(MapOf(Pairs(f)), h) == Fold(map[], h)
  {
    var pairs := Pairs(f);
    PairsNodes(pairs);
    forall id | id in MapOf(pairs) ensures Mentioned(h, id) {
      MapOfKeys(pairs, id);
      var i :| 0 <= i < |pairs| && IdsOf(pairs)[i] == id;
      assert f.ids[i] == id;
    }
    AnyStart(MapOf(pairs), h);
  }

  datatype Status = Ok | NotFound | Corrupt

  /** Room for half as many vectors again as the files hold, and for 1024 at least. */
  ghost function StartCapacity(f: Files): (c: nat)
    ensures c >= 1024 && (f.meta.Count? ==> 2 * c >= 3 * f.meta.n - 1)
  {
    if f.meta.Count? && 2 * 1024 < 3 * f.meta.n - 1 then 3 * f.meta.n / 2 else 1024
  }

  /** vec_persist_read for the flat index: the files, then the log. It fails exactly when there is no first file, or the files
      are not readable; otherwise the state is that of the whole history. */
  method Recover(f: Files, log: seq<Op>) returns (status: Status, now: seq<Node>, cap: nat)
    requires FilesOk(f, log)
    ensures status == if f.meta.NoFile? then NotFound else if Readable(f) then Ok else Corrupt
    ensures status == Ok ==> NodesOk(now, Fold(map[], log)) && cap == Doubled(StartCapacity(f), |now|)
  {
    now, cap := [], 0;
    if f.meta.NoFile? { return NotFound, now, cap; }
    if f.meta.Torn? { return Corrupt, now, cap; }
    var count := f.meta.n;
    if count > |f.vectors| || count > |f.ids| { return Corrupt, now, cap; }
    var c := if count > 0 then count + count / 2 else 1024;
    if c < 1024 { c := 1024; }
    MixtureIsExact(f, log);
    now, cap := Replay(AsNodes(Pairs(f)), c, log, MapOf(Pairs(f)));
    status := Ok;
  }

  const AUTO_CHECKPOINT := 10 * 1024 * 1024

  /** Bytes of a record: operation, id, dimension, vector and time, or operation and id. */
  function RecordSize(op: Op, dim: nat): (n: nat) {
    if op.Insert? then 24 + 4 * dim else 12
  }

  ghost function Inserts(log: seq<Op>): (n: nat)
    ensures n <= |log|
  {
    if log == [] then 0 else Inserts(log[..|log| - 1]) + if log[|log| - 1].Insert? then 1 else 0
  }

  /** The log takes 24 bytes and 4 for each coordinate for an insert, and 12 bytes for a delete. */
  lemma {:induction false} LogSizeIs(log: seq<Op>, dim: nat)
    ensures LogSize(log, dim) == (24 + 4 * dim) * Inserts(log) + 12 * (|log| - Inserts(log))
  {
    if log != [] {
      var n := |log| - 1;
      LogSizeIs(log[..n], dim);
      var k := Inserts(log[..n]);
      assert (24 + 4 * dim) * (k + 1) == (24 + 4 * dim) * k + (24 + 4 * dim);
    }
  }

  function LogSize(log: seq<Op>, dim: nat): (n: nat) {
    if log == [] then 0 else LogSize(log[..|log| - 1], dim) + RecordSize(log[|log| - 1], dim)
  }

  class Index {
    const dim: nat
    var nodes: seq<Node>
    var capacity: nat
    var walBytes: nat
    var log: seq<Op>
    var files: Files

    /** What survives a crash: all operations so far are in the log. */
    ghost predicate DiskValid()
      reads this
    {
      FilesOk(files, log)
    }

    /** The live slots are the fold of all operations. */
    ghost predicate Valid()
      reads this
    {
      DiskValid() && |nodes| <= capacity && NodesOk(nodes, Fold(map[], log))
    }

    constructor (initialCapacity: nat, dimension: nat)
      ensures Valid() && log == [] && files.meta == NoFile && dim == dimension && walBytes == 0
    {
      dim := dimension;
      nodes, capacity, walBytes, log, files := [], initialCapacity, 0, [], Files(NoFile, [], []);
    }

    /** kanbudb_vec_insert on a flat index: one more operation, and a checkpoint once enough has been logged since the last. */
    method InsertVector(id: nat, v: Vector)
      requires Valid() && |v| == dim
      modifies this
      ensures Valid() && log == old(log) + [Insert(id, v)]
      ensures capacity == if |nodes| <= old(capacity) then old(capacity) else if old(capacity) == 0 then 1024 else 2 * old(capacity)
      ensures old(walBytes) + 24 + 4 * dim < 10485760 ==> files == old(files) && walBytes == old(walBytes) + 24 + 4 * dim
      ensures old(walBytes) + 24 + 4 * dim >= 10485760 ==>
                walBytes == 0 && Readable(files) && NodesOk(AsNodes(Pairs(files)), Fold(map[], log))
    {
      var now, cap := InsertSlot(nodes, capacity, id, v, Fold(map[], log));
      Append(Insert(id, v), now, cap);
      if walBytes >= AUTO_CHECKPOINT { Checkpoint(); }
    }

    /** kanbudb_vec_delete: only a delete that finds its id is logged. */
    method DeleteVector(id: nat) returns (status: Status)
      requires Valid()
      modifies this
      ensures Valid() && files == old(files)
      ensures status == if id in Fold(map[], old(log)) then Ok else NotFound
      ensures log == if status == Ok then old(log) + [Delete(id)] else old(log)
      ensures walBytes == old(walBytes) + if status == Ok then 12 else 0
    {
      var now, found := DeleteSlot(nodes, id, Fold(map[], log));
      if !found { return NotFound; }
      Append(Delete(id), now, capacity);
      status := Ok;
    }

    method Append(op: Op, now: seq<Node>, cap: nat)
      requires Valid() && NodesOk(now, Apply(Fold(map[], log), op)) && |now| <= cap
      modifies this
      ensures Valid() && log == old(log) + [op] && files == old(files) && walBytes == old(walBytes) + RecordSize(op, dim)
      ensures nodes == now && capacity == cap
    {
      FilesGrow(files, log, op);
      assert (log + [op])[..|log + [op]| - 1] == log;
      nodes, capacity, log, walBytes := now, cap, log + [op], walBytes + RecordSize(op, dim);
    }

    /** kanbudb_vec_get */
    method GetVector(id: nat) returns (r: Option<Vector>)
      requires Valid()
      ensures r == Lookup(Fold(map[], log), id)
    {
      var pos := FindSlot(nodes, id, Fold(map[], log));
      r := if pos == None then None else Some(nodes[pos.value].vector);
    }

    /** vec_checkpoint: three files with the live pairs; the log stays as it is. */
    method Checkpoint()
      requires Valid()
      modifies this`files, this`walBytes
      ensures Valid() && walBytes == 0 && Readable(files) && NodesOk(AsNodes(Pairs(files)), Fold(map[], log))
    {
      var snap := TakeSnapshot(nodes, Fold(map[], log));
      SnapshotFiles(snap, log);
      files := files.(meta := Count(|snap|));
      files := files.(vectors := VectorsOf(snap));
      files := files.(ids := IdsOf(snap));
      assert files == Whole(snap);
      assert Pairs(files) == snap;
      walBytes := 0;
    }

    /** A crash inside a checkpoint. */
    method CutOff(cut: Cut) returns (ghost snap: seq<(nat, Vector)>)
      requires Valid()
      modifies this`files
      ensures DiskValid() && NodesOk(AsNodes(snap), Fold(map[], log)) && files == Partly(old(files), snap, cut)
    {
      var pairs := TakeSnapshot(nodes, Fold(map[], log));
      SnapshotFiles(pairs, log);
      PartlyOk(files, pairs, cut, log);
      files, snap := Partly(files, pairs, cut), pairs;
    }

    /** kanbudb_vec_open after closing or crashing, also inside a checkpoint: it succeeds exactly when the files are readable,
        and then the live map is that of all operations logged. */
    method Reopen() returns (status: Status)
      requires DiskValid()
      modifies this`nodes, this`capacity, this`walBytes
      ensures DiskValid() && (status == Ok ==> Valid() && capacity == Doubled(StartCapacity(files), |nodes|))
      ensures status == Ok ==> walBytes == (24 + 4 * dim) * Inserts(log) + 12 * (|log| - Inserts(log))
      ensures status == if files.meta.NoFile? then NotFound else if Readable(files) then Ok else Corrupt
    {
      var now, cap;
      status, now, cap := Recover(files, log);
      LogSizeIs(log, dim);
      if status == Ok { nodes, capacity, walBytes := now, cap, LogSize(log, dim); }
    }
  }
}
