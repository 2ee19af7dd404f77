/** Runs of the database (src/core/db.c) that lose data, from an empty database on. */
module RecoveryRuns {
  import opened Keys
  import BTree
  import opened BTreeRuns
  import opened Records
  import Wal
  import opened History
  import opened Recovery

  ghost predicate Steps(states: seq<State>, moves: seq<Move>) {
    && |states| == |moves| + 1 && states[0] == Initial()
    && forall i {:trigger Succeeds(states, moves, i)} :: 0 <= i < |moves| ==> Succeeds(states, moves, i)
  }

  ghost predicate Succeeds(states: seq<State>, moves: seq<Move>, i: nat)
    requires i < |moves| && |states| == |moves| + 1
  {
    Can(states[i], moves[i]) && states[i + 1] == After(states[i], moves[i])
  }

  /** Some run from the empty database, whether its moves fit or not, ends here. */
  ghost predicate Reachable(s: State) {
    exists states, moves :: Steps(states, moves) && states[|states| - 1] == s
  }

  lemma Start()
    ensures Reachable(Initial())
  {
    assert Steps([Initial()], []) && [Initial()][|[Initial()]| - 1] == Initial();
  }

  lemma Extend(s: State, m: Move)
    requires Reachable(s) && Can(s, m)
    ensures Reachable(After(s, m))
  {
    var states, moves :| Steps(states, moves) && states[|states| - 1] == s;
    StepsAppend(states, moves, m, After(s, m));
    assert (states + [After(s, m)])[|states + [After(s, m)]| - 1] == After(s, m);
  }

  lemma StepsAppend(states: seq<State>, moves: seq<Move>, m: Move, t: State)
    requires Steps(states, moves) && Can(states[|states| - 1], m) && t == After(states[|states| - 1], m)
    ensures Steps(states + [t], moves + [m])
  {
    var r, n := states + [t], moves + [m];
    forall i {:trigger Succeeds(r, n, i)} | 0 <= i < |n| ensures Succeeds(r, n, i) {
      if i < |moves| { Same(states, moves, r, n, i); } else { Last(r, n, i, states[i], m, t); }
    }
  }

  lemma Last(r: seq<State>, n: seq<Move>, i: nat, s: State, m: Move, t: State)
    requires |r| == |n| + 1 && i == |n| - 1 && r[i] == s && n[i] == m && r[i + 1] == t && Can(s, m) && t == After(s, m)
    ensures Succeeds(r, n, i)
  {
  }

  lemma Same(states: seq<State>, moves: seq<Move>, r: seq<State>, n: seq<Move>, i: nat)
    requires Steps(states, moves) && i < |moves| && states <= r && moves <= n && |r| == |n| + 1
    ensures Succeeds(r, n, i)
  {
    assert Succeeds(states, moves, i);
    assert r[i] == states[i] && r[i + 1] == states[i + 1] && n[i] == moves[i];
  }

  // ---------- Stretches of a run ----------

  lemma LogStep(s: State, op: Op, id: nat) returns (t: State)
    requires Reachable(s) && s.Up? && s.pc == Idle && Wal.Accepted(NextRecord(s, op, id))
    ensures Reachable(t) && t == After(s, Log(op, id))
  {
    Extend(s, Log(op, id));
    t := After(s, Log(op, id));
  }

  /** An operation that finds room is stored and acknowledged. */
  lemma StoreStep(a: State) returns (t: State)
    requires Reachable(a) && a.Up? && a.pc.Logged? && !a.full
    ensures Reachable(t) && t == a.(active := MemStep(a.active, a.pc.op), pc := Idle, spec := a.spec.(committed := |a.spec.hist|))
  {
    Extend(a, Insert(false));
    var b := After(a, Insert(false));
    Extend(b, Acknowledge);
    t := After(b, Acknowledge);
  }

  lemma Acknowledged(s: State, op: Op, id: nat) returns (t: State)
    requires Reachable(s) && s.Up? && s.pc == Idle && !s.full && Wal.Accepted(NextRecord(s, op, id))
    ensures Reachable(t) && t.Up? && t.pc == Idle && !t.full && t.active == MemStep(s.active, op)
    ensures t.flushing == s.flushing && t.tree == s.tree && t.shown == s.shown && t.seqno == (s.seqno + 1) % U64
    ensures t.disk == WithLog(s.disk, Encode(NextRecord(s, op, id)))
    ensures t.spec.hist == s.spec.hist + [op] && t.spec.committed == |t.spec.hist|
  {
    var a := LogStep(s, op, id);
    t := StoreStep(a);
  }

  /** The rotation, and the number of the table. */
  lemma Named(s: State) returns (t: State)
    requires Reachable(s) && s.Up? && ((s.pc == Stored && s.full) || (s.pc == Idle && s.active != map[]))
    ensures Reachable(t) && t == s.(disk := s.disk.(counter := Some(NextNumber(s.disk))), flushing := s.active, active := map[],
                                    full := false, pc := Counted(NextNumber(s.disk)))
  {
    Extend(s, Rotate(false));
    var a := After(s, Rotate(false));
    Extend(a, TakeNumber);
    var b := After(a, TakeNumber);
    Extend(b, StoreNumber);
    t := After(b, StoreNumber);
  }

  /** The table, whole under its temporary name. */
  lemma Filled(s: State, table: Table) returns (t: State)
    requires Reachable(s) && s.Up? && s.pc.Counted? && Lists(table, s.flushing)
    ensures Reachable(t) && t == s.(disk := s.disk.(temps := Others(s.disk.temps, s.pc.n) + [File(s.pc.n, table)]), pc := Written(s.pc.n, table))
  {
    Extend(s, BeginTable);
    var a := After(s, BeginTable);
    Extend(a, FinishTable(table));
    t := After(a, FinishTable(table));
  }

  lemma Placed(s: State) returns (t: State)
    requires Reachable(s) && s.Up? && s.pc.Written? && TreeShaped(s)
    ensures Reachable(t) && t.Up? && t.pc == Loaded && t.flushing == s.flushing && t.active == s.active && t.full == s.full
    ensures t.disk == s.disk.(tables := Others(s.disk.tables, s.pc.n) + [File(s.pc.n, s.pc.t)], temps := Others(s.disk.temps, s.pc.n))
    ensures t.tree == Run(s.tree, TableOps(s.pc.t)) && t.seqno == s.seqno && t.spec == s.spec.(covered := |s.spec.hist|)
  {
    Extend(s, Rename);
    var a := After(s, Rename);
    Extend(a, LoadTable);
    t := After(a, LoadTable);
  }

  lemma Ended(s: State) returns (t: State)
    requires Reachable(s) && s.Up? && s.pc == Loaded
    ensures Reachable(t) && t == s.(disk := s.disk.(head := Whole(s.seqno), area := []), flushing := map[], pc := Idle,
                                    spec := s.spec.(start := |s.spec.hist|, committed := |s.spec.hist|))
  {
    Extend(s, DropFlushing);
    var a := After(s, DropFlushing);
    Extend(a, EmptyLog);
    var b := After(a, EmptyLog);
    Extend(b, WriteHead);
    var c := After(b, WriteHead);
    Extend(c, Acknowledge);
    t := After(c, Acknowledge);
  }

  ghost predicate CanFlush(s: State, table: Table) {
    && s.Up? && TreeShaped(s) && ((s.pc == Stored && s.full) || (s.pc == Idle && s.active != map[]))
    && Lists(table, s.active)
  }

  /** The files after a flush. */
  function FlushedFiles(d: Disk, table: Table, seqno: nat): (r: Disk) {
    var n := NextNumber(d);
    Disk(Others(d.tables, n) + [File(n, table)], Others(Others(d.temps, n) + [File(n, table)], n), Some(n), Whole(seqno), [])
  }

  lemma FlushToEnd(s: State, table: Table) returns (t: State)
    requires Reachable(s) && CanFlush(s, table)
    ensures Reachable(t) && t.Up? && t.pc == Idle && !t.full && t.active == t.flushing == map[] && t.seqno == s.seqno
    ensures t.disk == FlushedFiles(s.disk, table, s.seqno)
    ensures t.tree == Run(s.tree, TableOps(table)) && t.spec.hist == s.spec.hist && t.spec.committed == |s.spec.hist|
  {
    var a := Named(s);
    var b := Filled(a, table);
    var c := Placed(b);
    t := Ended(c);
  }

  /** Any memtable with entries can be flushed to the end: from an insertion that found it full, or when closing. The tables
      of other numbers and the new one are then on disk, the log is empty, and everything logged counts as acknowledged. */
  lemma FlushCompletes(s: State, table: Table) returns (t: State)
    requires Reachable(s) && CanFlush(s, table)
    ensures Reachable(t) && t.Up? && t.pc == Idle && t.disk == FlushedFiles(s.disk, table, s.seqno)
    ensures t.spec.hist == s.spec.hist && t.spec.committed == |s.spec.hist|
    ensures Recovered(t.disk) == Overlay(s.active, Rest(s.disk))
  {
    t := FlushToEnd(s, table);
    FlushedHolds(s.disk, table, s.seqno, s.active);
  }

  lemma FlushedHolds(d: Disk, table: Table, seqno: nat, m: Mem)
    requires Lists(table, m)
    ensures Recovered(FlushedFiles(d, table, seqno)) == Overlay(m, Rest(d))
  {
    RenamedBase(d.tables, NextNumber(d), table, m);
    assert Replayed([]) == [];
    OverlayEmpty(Base(FlushedFiles(d, table, seqno)));
  }

  lemma NoTemps(n: nat, table: Table)
    ensures Others(Others([], n) + [File(n, table)], n) == []
  {
    LeftoverFiles([], n, table);
  }

  /** A crash, and an opening that replays the log into one memtable. */
  lemma Reopened(s: State, order: seq<Table>, full: bool) returns (t: State)
    requires Reachable(s) && s.Up? && s.disk.head.Whole? && multiset(order) == multiset(TablesOf(s.disk.tables) + TablesOf(s.disk.temps))
    ensures Reachable(t) && t.Up? && t.pc == Idle && t.full == full && t.active == MemRun(Replayed(s.disk.area)) && t.flushing == map[]
    ensures t.disk == s.disk && t.tree == LoadTree(Empty(), order) && t.seqno == LastSeqno(s.disk)
    ensures t.spec.hist == s.spec.hist && t.spec.committed == |s.spec.hist|
  {
    Extend(s, Crash);
    t := OpenedWhole(After(s, Crash), order, full);
  }

  lemma OpenedWhole(d: State, order: seq<Table>, full: bool) returns (t: State)
    requires Reachable(d) && d.Down? && d.disk.head.Whole? && multiset(order) == multiset(TablesOf(d.disk.tables) + TablesOf(d.disk.temps))
    ensures Reachable(t) && t.Up? && t.pc == Idle && t.full == full && t.active == MemRun(Replayed(d.disk.area)) && t.flushing == map[]
    ensures t.disk == d.disk && t.tree == LoadTree(Empty(), order) && t.seqno == LastSeqno(d.disk)
    ensures t.spec.hist == d.spec.hist && t.spec.committed == |d.spec.hist|
  {
    var ops := Replayed(d.disk.area);
    assert ops[0..] == ops && ops[0..0] == [];
    Extend(d, Open(order, [], full));
    t := After(d, Open(order, [], full));
  }

  // ---------- Small trees ----------

  /** As long as a tree is one leaf with room, no put is misrouted. */
  lemma {:induction false} FewOpsClean(r: Root, ops: seq<Op>)
    requires BTree.Shape(r.tree, r.depth) && r.tree.Leaf? && |r.tree.keys| + |ops| <= BTree.MAX_KEYS
    ensures Clean(r, ops) && Run(r, ops).tree.Leaf? && |Run(r, ops).tree.keys| <= |r.tree.keys| + |ops|
    decreases |ops|
  {
    if ops != [] {
      assert Step(r, ops[0]).tree.Leaf? && |Step(r, ops[0]).tree.keys| <= |r.tree.keys| + 1;
      FewOpsClean(Step(r, ops[0]), ops[1..]);
    }
  }

  lemma OneEntryTable(k: Bytes, v: Bytes)
    ensures var t: Table, m: Mem := [(k, Some(v))], map[k := Some(v)]; Lists(t, m) && TableOps(t) == [PutOp(k, v)]
    ensures forall b: KV :: Load(b, [(k, Some(v))]) == b[k := v]
  {
    var t: Table := [(k, Some(v))];
    assert t[..0] == [];
  }

  /** One table in an empty tree. */
  lemma OneTableTree(k: Bytes, v: Bytes)
    ensures TreeIs(Run(Empty(), [PutOp(k, v)]), map[k := v])
  {
    FewOpsClean(Empty(), [PutOp(k, v)]);
    RunRefinesMap(Empty(), map[], [PutOp(k, v)]);
    assert [PutOp(k, v)][1..] == [];
    assert MapRun(map[], [PutOp(k, v)]) == map[k := v];
  }

  // ---------- Losses ----------

  lemma OneRecord(r: Record)
    requires Wal.Accepted(r)
    ensures Replayed([] + Encode(r)) == [OpOf(Canon(r))]
  {
    var e := Encode(r);
    assert [] + e == e && e + [] == e;
    Wal.ParseWhole(r, []);
    assert e[|e|..] == [];
    OneReplayed(e, OpOf(Canon(r)));
  }

  lemma SmallRecord(r: Record)
    requires r.seqno < U64 && r.table < U64 && |r.key| <= 1 && |r.val| <= 1
    ensures Wal.Accepted(r)
  {
  }

  /** The first record of a database. */
  lemma FirstPut(op: Op, id: nat) returns (t: State)
    requires id < U64 && |op.key| <= 1 && (op.PutOp? ==> |op.val| <= 1)
    ensures Reachable(t) && t.Up? && t.pc == Idle && !t.full && t.active == MemStep(map[], op) && t.flushing == map[] && t.tree == Empty()
    ensures t.disk == Initial().disk.(area := t.disk.area) && Replayed(t.disk.area) == [op] && t.seqno == 1
    ensures t.spec.hist == [op] && t.spec.committed == 1
  {
    Start();
    var s := Initial();
    var r := NextRecord(s, op, id);
    SmallRecord(r);
    t := FirstAcknowledged(s, op, id, r);
  }

  lemma FirstAcknowledged(s: State, op: Op, id: nat, r: Record) returns (t: State)
    requires Reachable(s) && s.Up? && s.pc == Idle && !s.full && s.disk.area == [] && r == NextRecord(s, op, id) && Wal.Accepted(r)
    ensures Reachable(t) && t.Up? && t.pc == Idle && !t.full && t.active == MemStep(s.active, op) && t.flushing == s.flushing && t.tree == s.tree
    ensures t.disk == s.disk.(area := t.disk.area) && Replayed(t.disk.area) == [op] && t.seqno == (s.seqno + 1) % U64
    ensures t.spec.hist == s.spec.hist + [op] && t.spec.committed == |t.spec.hist|
  {
    t := Acknowledged(s, op, id);
    OneRecord(r);
  }

  lemma SeqnoFits(d: Disk, op: Op, id: nat)
    requires (d.head.Whole? ==> d.head.seqno < U64) && id < U64 && |op.key| <= 1 && (op.PutOp? ==> |op.val| <= 1)
    ensures LastSeqno(d) < U64 && Wal.Accepted(RecordOf(op, id, (LastSeqno(d) + 1) % U64))
  {
    var ds := Wal.ParseAll(d.area).0;
    if ds != [] { Wal.DeliveredSeqno(d.area, |ds| - 1); }
    SmallRecord(RecordOf(op, id, (LastSeqno(d) + 1) % U64));
  }

  /** A put whose replay fills the memtable. */
  lemma Refilled(op: Op, id: nat) returns (t: State)
    requires id < U64 && |op.key| <= 1 && (op.PutOp? ==> |op.val| <= 1)
    ensures Reachable(t) && t.Up? && t.pc == Idle && t.full && t.active == MemRun([op]) && TreeShaped(t)
    ensures t.disk == Initial().disk.(area := t.disk.area) && t.seqno == LastSeqno(t.disk) && t.spec.hist == [op] && t.spec.committed == 1
  {
    var s := FirstPut(op, id);
    assert TablesOf([]) + TablesOf([]) == [];
    t := Reopened(s, [], true);
  }

  /** A put that finds the memtable full, and the flush that follows: what the memtable held is not flushed. */
  lemma OverFull(s: State, k: Bytes, v: Bytes, id: nat) returns (t: State)
    requires Reachable(s) && TreeShaped(s) && s.Up? && s.pc == Idle && s.full && Wal.Accepted(NextRecord(s, PutOp(k, v), id))
    ensures Reachable(t) && t.spec.hist == s.spec.hist + [PutOp(k, v)] && t.spec.committed == |t.spec.hist|
    ensures Recovered(t.disk) == Overlay(map[k := Some(v)], Rest(s.disk))
  {
    var a := LogStep(s, PutOp(k, v), id);
    var b := InsertOverFull(a);
    OneEntryTable(k, v);
    SameFiles(b.disk, s.disk);
    t := FlushCompletes(b, [(k, Some(v))]);
  }

  lemma InsertOverFull(a: State) returns (b: State)
    requires Reachable(a) && a.Up? && a.pc.Logged? && a.full
    ensures Reachable(b) && b == a.(active := MemStep(map[], a.pc.op), flushing := a.active, full := true, pc := Stored)
  {
    Extend(a, Insert(true));
    b := After(a, Insert(true));
  }

  /** An acknowledged put, a crash, a replay that fills the memtable, and one more put that is flushed: the first put is
      gone for good. */
  lemma AcknowledgedPutCanBeLost(id: nat) returns (s: State)
    requires id < U64
    ensures Reachable(s) && s.spec.hist == [PutOp([1], [1])] + [PutOp([2], [2])] && s.spec.committed == 2
    ensures Recovered(s.disk) == map[[2] := [2]]
  {
    var a := Refilled(PutOp([1], [1]), id);
    SeqnoFits(a.disk, PutOp([2], [2]), id);
    s := OverFull(a, [2], [2], id);
    assert Others([], NextNumber(a.disk)) == [] && TablesOf([]) == [];
    assert Overlay(map[[2] := Some([2])], LoadAll([])) == map[[2] := [2]];
  }

  /** A put and the flush of its memtable. */
  lemma FlushedPut(s: State, k: Bytes, v: Bytes, id: nat) returns (t: State)
    requires Reachable(s) && TreeShaped(s) && s.Up? && s.pc == Idle && !s.full && s.active == map[] && Wal.Accepted(NextRecord(s, PutOp(k, v), id))
    ensures Reachable(t) && t.Up? && t.pc == Idle && !t.full && t.active == t.flushing == map[] && t.tree == Run(s.tree, [PutOp(k, v)])
    ensures t.disk == FlushedFiles(s.disk, [(k, Some(v))], t.seqno) && t.seqno == (s.seqno + 1) % U64
    ensures t.spec.hist == s.spec.hist + [PutOp(k, v)] && t.spec.committed == |t.spec.hist|
  {
    var a := Acknowledged(s, PutOp(k, v), id);
    assert k in a.active;
    OneEntryTable(k, v);
    t := FlushToEnd(a, [(k, Some(v))]);
    SameFlush(a.disk, s.disk, [(k, Some(v))], t.seqno);
  }

  lemma SameFlush(d: Disk, e: Disk, table: Table, seqno: nat)
    requires d.tables == e.tables && d.temps == e.temps && d.counter == e.counter
    ensures FlushedFiles(d, table, seqno) == FlushedFiles(e, table, seqno)
  {
  }

  lemma FirstFlushedPut(k: Bytes, v: Bytes, id: nat) returns (t: State)
    requires id < U64 && |k| <= 1 && |v| <= 1
    ensures Reachable(t) && t.Up? && t.pc == Idle && !t.full && t.active == t.flushing == map[] && t.tree == Run(Empty(), [PutOp(k, v)])
    ensures t.disk == Disk([File(1, [(k, Some(v))])], [], Some(1), Whole(1), []) && t.seqno == 1
    ensures t.spec.hist == [PutOp(k, v)] && t.spec.committed == 1
  {
    Start();
    var s := Initial();
    SmallRecord(NextRecord(s, PutOp(k, v), id));
    t := FlushedPut(s, k, v, id);
    FirstFile(s.disk, [(k, Some(v))]);
  }

  lemma FirstFile(d: Disk, table: Table)
    requires d.tables == [] && d.temps == [] && d.counter == None
    ensures FlushedFiles(d, table, 1) == Disk([File(1, table)], [], Some(1), Whole(1), [])
  {
    NoTemps(1, table);
    assert Others([], 1) + [File(1, table)] == [File(1, table)];
  }

  lemma TwoFlushes(id: nat) returns (t: State)
    requires id < U64
    ensures Reachable(t) && t.Up? && t.disk.area == [] && t.disk.head.Whole? && t.disk.temps == []
    ensures t.disk.tables == [File(1, [([1], Some([1]))])] + [File(2, [([1], Some([2]))])]
    ensures t.spec.hist == [PutOp([1], [1])] + [PutOp([1], [2])] && t.spec.committed == 2
  {
    var s := FirstFlushedPut([1], [1], id);
    SmallRecord(NextRecord(s, PutOp([1], [2]), id));
    t := FlushedPut(s, [1], [2], id);
    SecondFile(s.disk, [([1], Some([1]))], [([1], Some([2]))], t.seqno);
  }

  lemma SecondFile(d: Disk, ta: Table, tb: Table, seqno: nat)
    requires d.tables == [File(1, ta)] && d.temps == [] && d.counter == Some(1)
    ensures FlushedFiles(d, tb, seqno) == Disk([File(1, ta)] + [File(2, tb)], [], Some(2), Whole(seqno), [])
  {
    OthersNone(d.tables, 2);
    NoTemps(2, tb);
  }

  /** Two flushes of the same key, and an opening that lists the newer table first: the older value is back. */
  lemma SwappedTablesLoseAPut(id: nat) returns (s: State)
    requires id < U64
    ensures Reachable(s) && s.Up? && s.pc == Idle && TreeShaped(s)
    ensures s.spec.hist == [PutOp([1], [1])] + [PutOp([1], [2])] && s.spec.committed == 2 && Fold(s.spec.hist) == map[[1] := [2]]
    ensures View(s, [1]) == DbGet(s, [1]) == Some([1])
  {
    s := SwappedRun([([1], Some([1]))], [([1], Some([2]))], id);
    FoldTwo(PutOp([1], [1]), PutOp([1], [2]));
    SwappedView(s, [([1], Some([1]))], [([1], Some([2]))]);
  }

  lemma SwappedRun(ta: Table, tb: Table, id: nat) returns (s: State)
    requires id < U64 && ta == [([1], Some([1]))] && tb == [([1], Some([2]))]
    ensures Reachable(s) && s.Up? && s.pc == Idle && s.active == MemRun(Replayed([])) && s.flushing == map[]
    ensures s.tree == LoadTree(Empty(), [tb] + [ta])
    ensures s.spec.hist == [PutOp([1], [1])] + [PutOp([1], [2])] && s.spec.committed == 2
  {
    var a := TwoFlushes(id);
    TwoListed(File(1, ta), File(2, tb));
    s := Reopened(a, [tb] + [ta], false);
  }

  lemma TwoListed(x: File, y: File)
    ensures multiset([y.table] + [x.table]) == multiset(TablesOf([x] + [y]) + TablesOf([]))
  {
    assert TablesOf([x] + [y]) == [x.table] + [y.table] && TablesOf([]) == [];
    assert [x.table] + [y.table] + [] == [x.table] + [y.table];
  }

  lemma SwappedView(s: State, ta: Table, tb: Table)
    requires ta == [([1], Some([1]))] && tb == [([1], Some([2]))]
    requires s.Up? && s.active == MemRun(Replayed([])) && s.flushing == map[] && s.tree == LoadTree(Empty(), [tb] + [ta])
    ensures View(s, [1]) == DbGet(s, [1]) == Some([1])
  {
    assert Replayed([]) == [];
    SwappedLoad(ta, tb);
    assert Lookup(s.tree, [1]) == Get(map[[1] := [1]], [1]);
  }

  lemma FoldTwo(a: Op, b: Op)
    ensures Fold([a] + [b]) == MapStep(MapStep(map[], a), b) && [a] + [b] == [a, b]
  {
    assert ([a] + [b])[..1] == [a] && [a][..0] == [];
    assert Fold([a]) == MapStep(Fold([]), a);
  }

  lemma SwappedLoad(ta: Table, tb: Table)
    requires ta == [([1], Some([1]))] && tb == [([1], Some([2]))]
    ensures TreeIs(LoadTree(Empty(), [tb] + [ta]), map[[1] := [1]])
  {
    OneEntryTable([1], [1]);
    OneEntryTable([1], [2]);
    assert [tb] + [ta] == [tb, ta];
    LoadAllTwo(tb, ta);
    SmallLoad(tb, ta);
    CleanLoadIs([tb, ta]);
    SeenLoadIs([tb, ta]);
  }

  lemma LoadAllTwo(x: Table, y: Table)
    ensures LoadAll([x, y]) == Load(Load(map[], x), y)
  {
    assert [x, y][..1] == [x] && [x][..0] == [];
    assert LoadAll([x]) == Load(LoadAll([]), x);
  }

  lemma SmallLoad(x: Table, y: Table)
    requires |x| == |y| == 1
    ensures CleanLoad(Empty(), [x, y])
  {
    assert [x, y][..1] == [x] && [x][..0] == [];
    FewOpsClean(Empty(), TableOps(x));
    FewOpsClean(Run(Empty(), TableOps(x)), TableOps(y));
    assert LoadTree(Empty(), [x]) == Run(LoadTree(Empty(), []), TableOps(x));
  }

  /** Put, flush, delete, get: the deleted value is still read. */
  lemma DeletedKeyCanBeRead(id: nat) returns (s: State)
    requires id < U64
    ensures Reachable(s) && s.Up? && s.pc == Idle && TreeShaped(s)
    ensures s.spec.hist == [PutOp([1], [2])] + [DeleteOp([1])] && s.spec.committed == 2
    ensures DbGet(s, [1]) == Some([2]) && View(s, [1]) == None == Get(Fold(s.spec.hist), [1])
  {
    OneTableTree([1], [2]);
    var a := FirstFlushedPut([1], [2], id);
    SmallRecord(NextRecord(a, DeleteOp([1]), id));
    s := Acknowledged(a, DeleteOp([1]), id);
    assert Lookup(s.tree, [1]) == Get(map[[1] := [2]], [1]);
    FoldTwo(PutOp([1], [2]), DeleteOp([1]));
  }

  // ---------- The number of a table ----------

  /** A put and a rotation, and a crash that leaves the counting file empty; the opening finds the put in the log. */
  lemma CounterEmptied(s: State, k: Bytes, v: Bytes, id: nat) returns (t: State)
    requires Reachable(s) && TreeShaped(s) && s.Up? && s.pc == Idle && !s.full && s.active == map[] && s.disk.area == []
    requires s.disk.head.Whole? && s.disk.temps == [] && Wal.Accepted(NextRecord(s, PutOp(k, v), id))
    ensures Reachable(t) && t.Up? && t.pc == Idle && !t.full && t.active == map[k := Some(v)] && TreeShaped(t)
    ensures t.disk.tables == s.disk.tables && t.disk.counter == None && t.disk.temps == []
    ensures t.spec.hist == s.spec.hist + [PutOp(k, v)] && t.spec.committed == |t.spec.hist|
  {
    var a := Acknowledged(s, PutOp(k, v), id);
    assert k in a.active;
    Extend(a, Rotate(false));
    var b := After(a, Rotate(false));
    Extend(b, TakeNumber);
    var c := After(b, TakeNumber);
    OneRecord(NextRecord(s, PutOp(k, v), id));
    OneOp(PutOp(k, v));
    assert TablesOf(c.disk.tables) + TablesOf([]) == TablesOf(c.disk.tables);
    t := Reopened(c, TablesOf(c.disk.tables), false);
  }

  /** A flushed put; a second flush that a crash cuts off while the counting file is empty; and the flush after the reopening,
      which takes the first number again: its table replaces the one that held the first put. */
  lemma ReusedNumberLosesAPut(id: nat) returns (s: State)
    requires id < U64
    ensures Reachable(s) && s.Up? && s.pc == Idle
    ensures s.spec.hist == [PutOp([1], [1])] + [PutOp([2], [2])] && s.spec.committed == 2
    ensures Recovered(s.disk) == map[[2] := [2]]
  {
    var a := FirstFlushedPut([1], [1], id);
    SmallRecord(NextRecord(a, PutOp([2], [2]), id));
    var b := CounterEmptied(a, [2], [2], id);
    s := FlushedAgain(b, [2], [2]);
    ReplacedAlone(b.disk, [([1], Some([1]))]);
    assert Overlay(map[[2] := Some([2])], map[]) == map[[2] := [2]];
  }

  lemma FlushedAgain(b: State, k: Bytes, v: Bytes) returns (s: State)
    requires Reachable(b) && TreeShaped(b) && b.Up? && b.pc == Idle && b.active == map[k := Some(v)]
    ensures Reachable(s) && s.Up? && s.pc == Idle && s.spec.hist == b.spec.hist && s.spec.committed == |b.spec.hist|
    ensures Recovered(s.disk) == Overlay(map[k := Some(v)], Rest(b.disk))
  {
    assert k in b.active;
    OneEntryTable(k, v);
    s := FlushCompletes(b, [(k, Some(v))]);
  }

  lemma ReplacedAlone(d: Disk, t: Table)
    requires d.tables == [File(1, t)] && d.counter == None
    ensures Rest(d) == map[]
  {
    assert d.tables[..0] == [] && Others([], 1) == [];
    assert Others(d.tables, 1) == [] && TablesOf([]) == [];
  }

  /** A table that was whole under its temporary name when a crash struck stays there: an opening that lists it last shows
      its value instead of a newer one. */
  lemma LeftoverTableLosesAPut(id: nat) returns (s: State)
    requires id < U64
    ensures Reachable(s) && s.Up? && s.pc == Idle && TreeShaped(s)
    ensures s.spec.hist == [PutOp([1], [1])] + [PutOp([1], [2])] && s.spec.committed == 2
    ensures View(s, [1]) == DbGet(s, [1]) == Some([1])
  {
    var a := LeftoverStart([([1], Some([1]))], id);
    var b := LeftoverFlushed(a, [([1], Some([1]))], id);
    LeftoverListed(b.disk, [([1], Some([1]))], [([1], Some([2]))]);
    s := Reopened(b, [[([1], Some([2]))]] + [[([1], Some([1]))]], false);
    SwappedView(s, [([1], Some([1]))], [([1], Some([2]))]);
  }

  lemma LeftoverStart(ta: Table, id: nat) returns (t: State)
    requires id < U64 && ta == [([1], Some([1]))]
    ensures Reachable(t) && t.Up? && t.pc == Idle && !t.full && t.active == map[[1] := Some([1])] && TreeShaped(t)
    ensures t.disk.tables == [] && t.disk.temps == [File(1, ta)] && t.disk.counter == Some(1) && t.disk.head == Whole(0)
    ensures t.spec.hist == [PutOp([1], [1])] && t.seqno == LastSeqno(t.disk)
  {
    var a := FirstPut(PutOp([1], [1]), id);
    OneEntryTable([1], [1]);
    var c := LeftBehind(a, [1], ta);
    OneOp(PutOp([1], [1]));
    t := LeftoverOpened(c, ta);
  }

  /** A flush up to the whole table under its temporary name. */
  lemma LeftBehind(a: State, k: Bytes, ta: Table) returns (c: State)
    requires Reachable(a) && a.Up? && a.pc == Idle && k in a.active && Lists(ta, a.active) && a.disk.temps == []
    ensures Reachable(c) && c.Up? && c.disk == a.disk.(counter := Some(NextNumber(a.disk)), temps := [File(NextNumber(a.disk), ta)])
    ensures c.spec == a.spec
  {
    var b := Named(a);
    c := Filled(b, ta);
    assert Others([], b.pc.n) + [File(b.pc.n, ta)] == [File(b.pc.n, ta)];
  }

  lemma LeftoverOpened(c: State, ta: Table) returns (t: State)
    requires Reachable(c) && c.Up? && c.disk.tables == [] && c.disk.temps == [File(1, ta)] && c.disk.head == Whole(0)
    ensures Reachable(t) && t.Up? && t.pc == Idle && !t.full && t.active == MemRun(Replayed(c.disk.area)) && TreeShaped(t)
    ensures t.disk == c.disk && t.spec.hist == c.spec.hist && t.seqno == LastSeqno(t.disk)
  {
    assert TablesOf([]) + TablesOf([File(1, ta)]) == [ta];
    t := Reopened(c, [ta], false);
  }

  lemma LeftoverFlushed(s: State, ta: Table, id: nat) returns (t: State)
    requires id < U64 && Reachable(s) && s.Up? && s.pc == Idle && !s.full && s.active == map[[1] := Some([1])] && TreeShaped(s)
    requires s.disk.tables == [] && s.disk.temps == [File(1, ta)] && s.disk.counter == Some(1) && s.disk.head == Whole(0)
    requires s.spec.hist == [PutOp([1], [1])] && s.seqno == LastSeqno(s.disk)
    ensures Reachable(t) && t.Up? && t.disk.head.Whole? && t.disk.area == []
    ensures t.disk.tables == [File(2, [([1], Some([2]))])] && t.disk.temps == [File(1, ta)]
    ensures t.spec.hist == [PutOp([1], [1])] + [PutOp([1], [2])] && t.spec.committed == 2
  {
    SeqnoFits(s.disk, PutOp([1], [2]), id);
    var a := Acknowledged(s, PutOp([1], [2]), id);
    assert a.active == map[[1] := Some([2])];
    OneEntryTable([1], [2]);
    t := FlushedBeside(a, ta, [([1], Some([2]))], [1]);
  }

  lemma FlushedBeside(a: State, ta: Table, tb: Table, k: Bytes) returns (t: State)
    requires Reachable(a) && a.Up? && a.pc == Idle && k in a.active && Lists(tb, a.active) && TreeShaped(a)
    requires a.disk.tables == [] && a.disk.temps == [File(1, ta)] && a.disk.counter == Some(1)
    ensures Reachable(t) && t.Up? && t.disk.head.Whole? && t.disk.area == [] && t.spec.hist == a.spec.hist && t.spec.committed == |a.spec.hist|
    ensures t.disk.tables == [File(2, tb)] && t.disk.temps == [File(1, ta)]
  {
    BesideFiles(a.disk, ta, tb, a.seqno);
    t := FlushToEnd(a, tb);
  }

  lemma BesideFiles(d: Disk, ta: Table, tb: Table, seqno: nat)
    requires d.tables == [] && d.temps == [File(1, ta)] && d.counter == Some(1)
    ensures FlushedFiles(d, tb, seqno) == Disk([File(2, tb)], [File(1, ta)], Some(2), Whole(seqno), [])
  {
    LeftoverFiles(d.temps, 2, tb);
    assert Others([], 2) + [File(2, tb)] == [File(2, tb)];
  }

  lemma LeftoverFiles(fs: seq<File>, n: nat, tb: Table)
    requires forall i :: 0 <= i < |fs| ==> fs[i].number != n
    ensures Others(Others(fs, n) + [File(n, tb)], n) == fs
  {
    OthersNone(fs, n);
    OthersSnoc(fs, File(n, tb), n);
  }

  lemma OthersSnoc(fs: seq<File>, f: File, n: nat)
    ensures Others(fs + [f], n) == Others(fs, n) + if f.number == n then [] else [f]
  {
    assert (fs + [f])[..|fs|] == fs;
  }

  lemma LeftoverListed(d: Disk, ta: Table, tb: Table)
    requires d.tables == [File(2, tb)] && d.temps == [File(1, ta)]
    ensures multiset([tb] + [ta]) == multiset(TablesOf(d.tables) + TablesOf(d.temps))
  {
    assert TablesOf(d.tables) == [tb] && TablesOf(d.temps) == [ta];
  }

  /** A flush that a crash cuts off inside the new log header: the put is on disk, and no move is possible any more. */
  lemma TornHeadStopsTheDatabase(id: nat, n: nat) returns (s: State)
    requires id < U64 && 0 < n < HEAD_SIZE
    ensures Reachable(s) && s.spec.hist == [PutOp([1], [1])] && s.spec.committed == 1 && Recovered(s.disk) == map[[1] := [1]]
    ensures forall m :: !Can(s, m)
  {
    var a := FirstPut(PutOp([1], [1]), id);
    assert [1] in a.active;
    OneEntryTable([1], [1]);
    s := HeadCut(a, [([1], Some([1]))], n);
    FirstTableHolds(s.disk, a.disk, [([1], Some([1]))]);
  }

  lemma HeadCut(a: State, table: Table, n: nat) returns (s: State)
    requires Reachable(a) && CanFlush(a, table) && a.pc == Idle && 0 < n < HEAD_SIZE
    ensures Reachable(s) && s.Down? && s.spec.hist == a.spec.hist && s.spec.committed == a.spec.committed
    ensures s.disk.tables == Others(a.disk.tables, NextNumber(a.disk)) + [File(NextNumber(a.disk), table)]
    ensures s.disk.area == [] && s.disk.head == Stub(n)
  {
    var b := Named(a);
    var c := Filled(b, table);
    var d := Placed(c);
    s := CutAfterLoading(d, n);
  }

  lemma CutAfterLoading(d: State, n: nat) returns (s: State)
    requires Reachable(d) && d.Up? && d.pc == Loaded && 0 < n < HEAD_SIZE
    ensures Reachable(s) && s.Down? && s.spec.hist == d.spec.hist && s.spec.committed == d.spec.committed
    ensures s.disk == d.disk.(area := [], head := Stub(n))
  {
    Extend(d, DropFlushing);
    var e := After(d, DropFlushing);
    Extend(e, EmptyLog);
    var f := After(e, EmptyLog);
    Extend(f, TearHead(n));
    s := After(f, TearHead(n));
  }

  lemma FirstTableHolds(d: Disk, before: Disk, table: Table)
    requires before.tables == [] && table == [([1], Some([1]))] && d.area == []
    requires d.tables == Others(before.tables, NextNumber(before)) + [File(NextNumber(before), table)]
    ensures Recovered(d) == map[[1] := [1]]
  {
    OneEntryTable([1], [1]);
    RenamedBase(before.tables, NextNumber(before), table, map[[1] := Some([1])]);
    assert Others([], NextNumber(before)) == [] && TablesOf([]) == [] && Replayed([]) == [];
    assert Overlay(map[[1] := Some([1])], map[]) == map[[1] := [1]];
    OverlayEmpty(Base(d));
  }

  // ---------- Behind a torn record ----------

  /** A put of one key torn after its fixed part, and a put of another behind it: replay delivers a put of the key 1, which
      is the low byte of the second sequence number, and stops. */
  lemma MisreadTail(x: Byte, y: Byte, table: nat, lost: Record, next: Record, b: Bytes)
    requires y > 0 && table < U64 && lost == Record(1, false, table, [x], []) && next == Record(1, false, table, [y], [])
    requires b == Encode(lost)[..FIXED] + Encode(next)
    ensures Wal.ParseAll(b) == ([Delivery(1, false, table, [1], [], 0)], Wal.Corrupt)
  {
    MisreadFirst(x, table, lost, next, b);
    ShiftedIsBad(next, y, Encode(next)[1..]);
    AfterFirst(Encode(lost)[..FIXED], Encode(next), b);
    TwoParsed(b, Encode(next)[1..]);
  }

  lemma TwoParsed(b: Bytes, rest: Bytes)
    requires Wal.ParseOne(b).Whole? && b[Wal.ParseOne(b).size..] == rest && Wal.ParseOne(rest).Bad?
    ensures Wal.ParseAll(b) == ([Wal.ParseOne(b).d], Wal.Corrupt)
  {
    var d := Wal.ParseOne(b).d;
    assert Wal.ParseAll(rest) == ([], Wal.Corrupt);
    assert Wal.ParseAll(b) == ([d] + Wal.ParseAll(rest).0, Wal.ParseAll(rest).1);
    assert [d] + [] == [d];
  }

  lemma AfterFirst(h: Bytes, e: Bytes, b: Bytes)
    requires |h| == FIXED && |e| == FIXED + 1 && b == h + e
    ensures b[FIXED + 1..] == e[1..]
  {
  }

  lemma MisreadFirst(x: Byte, table: nat, lost: Record, next: Record, b: Bytes)
    requires table < U64 && lost == Record(1, false, table, [x], []) && next.seqno == 1
    requires b == Encode(lost)[..FIXED] + Encode(next)
    ensures Wal.ParseOne(b) == Wal.Whole(Delivery(1, false, table, [1], [], 0), FIXED + 1)
  {
    assert Encode(lost)[..FIXED] == Head(lost);
    Wal.FirstByte(next);
    Wal.JoinAt(Head(lost), Encode(next));
    HeadFields(lost, b);
  }

  /** Such a put read from its second byte on: the length of its value has the key as its highest byte. */
  lemma ShiftedIsBad(r: Record, y: Byte, rest: Bytes)
    requires y > 0 && !r.delete && r.key == [y] && r.val == [] && rest == Encode(r)[1..]
    ensures Wal.ParseOne(rest).Bad?
  {
    Wal.EncodeWindows(r);
    ShiftedValue(Encode(r), rest);
    HighKey(y, rest[25..33]);
  }

  lemma HighKey(y: Byte, b: Bytes)
    requires y > 0 && b == LE(0, 8)[1..] + [y]
    ensures FromLE(b) > Wal.MAX_LEN
  {
    assert LE(0, 8)[1..] == LE(0, 7);
    TopByte(7, y);
    assert Pow256(3) == 16777216 && Pow256(7) >= Pow256(3);
  }

  lemma ShiftedValue(e: Bytes, rest: Bytes)
    requires |e| == 34 && rest == e[1..]
    ensures rest[25..33] == e[25..33][1..] + [e[33..34][0]]
  {
    var x, y := rest[25..33], e[25..33][1..] + [e[33..34][0]];
    forall i | 0 <= i < 8 ensures x[i] == y[i] {
      assert x[i] == e[26 + i];
      assert i < 7 ==> y[i] == e[25..33][i + 1] == e[26 + i];
    }
  }

  lemma {:induction false} TopByte(n: nat, y: Byte)
    ensures FromLE(LE(0, n) + [y]) == y as int * Pow256(n)
  {
    if n > 0 {
      TopByte(n - 1, y);
      assert (LE(0, n) + [y])[1..] == LE(0, n - 1) + [y];
    } else {
      assert LE(0, 0) + [y] == [y] && [y][1..] == [];
    }
  }

  /** The put that follows the torn one. */
  lemma PutBehind(t: State, op: Op, id: nat, next: Record, area: Bytes) returns (s: State)
    requires Reachable(t) && t.Up? && t.pc == Idle && !t.full && t.disk.tables == [] && t.spec.hist == []
    requires next == NextRecord(t, op, id) && Wal.Accepted(next) && area == t.disk.area + Encode(next)
    ensures Reachable(s) && s.Up? && s.pc == Idle && s.spec.hist == [op] && s.spec.committed == 1 && s.disk.tables == []
    ensures s.disk.area == area
  {
    s := Acknowledged(t, op, id);
    assert [] + [op] == [op];
  }

  /** A crash inside the first append, an opening that finds nothing, and a put. */
  lemma TornRun(first: Op, op: Op, id: nat, lost: Record, next: Record, torn: Bytes, area: Bytes) returns (s: State)
    requires Wal.Accepted(lost) && |Encode(lost)| > FIXED
    requires lost.seqno == next.seqno == 1 && lost == RecordOf(first, id, lost.seqno) && next == RecordOf(op, id, next.seqno)
    requires Wal.Accepted(next)
    requires torn == Encode(lost)[..FIXED] && area == torn + Encode(next)
    ensures Reachable(s) && s.Up? && s.pc == Idle && s.spec.hist == [op] && s.spec.committed == 1 && s.disk.tables == []
    ensures s.disk.area == area
  {
    var t := TornStart(first, id, lost, torn);
    FirstRecord(t, op, id, next);
    s := PutBehind(t, op, id, next, area);
  }

  /** What replay makes of the two records. */
  lemma MisreadRecords(id: nat) returns (lost: Record, next: Record, area: Bytes)
    requires id < U64
    ensures lost.seqno == next.seqno == 1 && Wal.Accepted(next) && Wal.Accepted(lost) && |Encode(lost)| > FIXED
    ensures lost == RecordOf(PutOp([5], []), id, lost.seqno) && next == RecordOf(PutOp([2], []), id, next.seqno)
    ensures area == Encode(lost)[..FIXED] + Encode(next)
    ensures Wal.ParseAll(area).0 == [Delivery(1, false, id, [1], [], 0)]
  {
    lost, next := RecordOf(PutOp([5], []), id, 1), RecordOf(PutOp([2], []), id, 1);
    SmallRecord(next);
    SmallRecord(lost);
    area := Encode(lost)[..FIXED] + Encode(next);
    MisreadTail(5, 2, id, lost, next, area);
  }

  /** Although the put behind the torn record is acknowledged, it is lost, and a put nobody asked for takes its place. */
  lemma PutBehindTornRecordIsLost(id: nat) returns (s: State)
    requires id < U64
    ensures Reachable(s) && s.Up? && s.pc == Idle && s.spec.hist == [PutOp([2], [])] && s.spec.committed == 1
    ensures Recovered(s.disk) == map[[1] := []] && Fold(s.spec.hist) == map[[2] := []]
  {
    var lost, next, area := MisreadRecords(id);
    s := TornRun(PutOp([5], []), PutOp([2], []), id, lost, next, Encode(lost)[..FIXED], area);
    RecoveredOne(s.disk, id);
    OneOp(PutOp([2], []));
  }

  lemma FirstRecord(s: State, op: Op, id: nat, r: Record)
    requires s.Up? && s.seqno == 0 && r.seqno == 1 && r == RecordOf(op, id, r.seqno)
    ensures r == NextRecord(s, op, id)
  {
  }

  lemma RecoveredOne(d: Disk, id: nat)
    requires d.tables == [] && Wal.ParseAll(d.area).0 == [Delivery(1, false, id, [1], [], 0)]
    ensures Recovered(d) == map[[1] := []]
  {
    var op := PutOp([1], []);
    assert Replayed(d.area) == [op] && TablesOf([]) == [];
    OneOp(op);
    assert Overlay(MemStep(map[], op), map[]) == map[[1] := []];
  }

  lemma OneOp(op: Op)
    ensures MemRun([op]) == MemStep(map[], op) && Fold([op]) == MapStep(map[], op)
  {
    assert [op][..0] == [];
  }

  /** A crash inside the first append, after the fixed part of the record. */
  lemma TornStart(op: Op, id: nat, r: Record, torn: Bytes) returns (t: State)
    requires r.seqno == 1 && r == RecordOf(op, id, r.seqno) && Wal.Accepted(r) && |Encode(r)| > FIXED && torn == Encode(r)[..FIXED]
    ensures Reachable(t) && t.Up? && t.pc == Idle && !t.full && t.seqno == 0 && t.spec.hist == [] && t.disk.tables == []
    ensures t.disk.area == torn
  {
    Start();
    FirstRecord(Initial(), op, id, r);
    var d := TearStep(Initial(), op, id, r, torn);
    Wal.ParseTorn(r, FIXED);
    t := TornOpen(d);
  }

  lemma TornOpen(d: State) returns (t: State)
    requires Reachable(d) && d.Down? && d.disk.tables == [] && d.disk.temps == [] && d.disk.head == Whole(0) && d.spec.hist == []
    requires !Wal.ParseOne(d.disk.area).Whole?
    ensures Reachable(t) && t.Up? && t.pc == Idle && !t.full && t.seqno == 0 && t.spec.hist == [] && t.disk == d.disk
  {
    assert TablesOf([]) + TablesOf([]) == [];
    t := OpenedWhole(d, [], false);
  }

  lemma TearStep(s: State, op: Op, id: nat, r: Record, torn: Bytes) returns (d: State)
    requires Reachable(s) && s.Up? && s.pc == Idle && s.disk.area == []
    requires r == NextRecord(s, op, id) && Wal.Accepted(r) && |Encode(r)| > FIXED && torn == Encode(r)[..FIXED]
    ensures Reachable(d) && d == Down(s.disk.(area := torn), s.spec)
  {
    Extend(s, Tear(op, id, FIXED));
    d := After(s, Tear(op, id, FIXED));
    assert [] + torn == torn;
  }
}
