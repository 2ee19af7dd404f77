/** Runs of the database whose moves all fit, by conditions that a caller can see (src/core/db.c). */
module QuietRuns {
  import opened Keys
  import BTree
  import opened BTreeRuns
  import opened Records
  import Wal
  import opened History
  import opened Recovery

  /** No append is cut off, no crash strikes while the counting file is empty, and its number does not wrap; an opening loads
      the tables oldest first, behind any under temporary names, and its replay finds no full memtable; and no put is misrouted
      while tables are loaded. */
  ghost predicate Quiet(s: State, m: Move)
    requires Can(s, m)
  {
    match m
    case Tear(_, _, _) => false
    case Crash => !s.pc.Numbered?
    case TakeNumber => s.disk.counter != Some(U64 - 1)
    case LoadTable => Clean(s.tree, TableOps(s.pc.t))
    case Open(order, cuts, full) =>
      && order == TablesOf(s.disk.temps) + TablesOf(s.disk.tables) && CleanLoad(Empty(), order)
      && cuts == [] && (full ==> Replayed(s.disk.area) == [])
    case _ => true
  }

  // ---------- What such runs keep ----------

  ghost predicate InLog(d: Disk, k: Bytes) {
    k in MemRun(Replayed(d.area))
  }

  ghost predicate InTables(d: Disk, k: Bytes) {
    LastSays(TablesOf(d.tables), k).Some?
  }

  ghost predicate InTemps(d: Disk, k: Bytes) {
    LastSays(TablesOf(d.temps), k).Some?
  }

  ghost predicate KeyTracked(d: Disk, k: Bytes) {
    InTemps(d, k) ==> InLog(d, k) || InTables(d, k)
  }

  /** The log ends with a whole record, and what a temporary name holds is also in the log or in a table. */
  ghost predicate QuietDisk(d: Disk) {
    Wal.Unread(d.area) == [] && forall k :: KeyTracked(d, k)
  }

  /** Every table has a number up to n. */
  ghost predicate UpTo(fs: seq<File>, n: nat) {
    forall i :: 0 <= i < |fs| ==> fs[i].number <= n
  }

  function CounterOf(d: Disk): (n: nat) {
    if d.counter.Some? then d.counter.value else 0
  }

  ghost predicate NumbersOk(d: Disk, pc: PC) {
    if pc.Numbered? then 0 < pc.n < U64 && UpTo(d.tables, pc.n - 1)
    else if pc.Counted? || pc.Filling? || pc.Written? then d.counter == Some(pc.n) && 0 < pc.n < U64 && UpTo(d.tables, pc.n - 1)
    else CountOk(d)
  }

  ghost predicate CountOk(d: Disk) {
    CounterOf(d) < U64 && UpTo(d.tables, CounterOf(d))
  }

  ghost predicate KeyOk(s: State, k: Bytes)
    requires s.Up?
  {
    && (k in s.active || k in s.flushing ==> InLog(s.disk, k) || InTables(s.disk, k))
    && (InLog(s.disk, k) ==> k in s.active || k in s.flushing || InTables(s.disk, k) || (s.pc.Logged? && k == s.pc.op.key))
    && (s.pc.Logged? && k == s.pc.op.key ==> InLog(s.disk, k))
    && (s.pc.Renamed? || s.pc == Loaded ==> k in s.flushing ==> InTables(s.disk, k))
  }

  /** No memtable waits behind the active one unless it is being flushed, and a full one is empty between operations. */
  ghost predicate OneMemtable(s: State)
    requires s.Up?
  {
    && (s.pc == Idle || s.pc.Logged? || s.pc == Stored || Cleaning(s.pc) ==> s.flushing == map[])
    && ((s.pc == Idle || s.pc.Logged?) && s.full ==> s.active == map[])
    && (Flushing(s.pc) ==> s.active == map[])
  }

  ghost predicate Settled(s: State) {
    && QuietDisk(s.disk)
    && (s.Down? ==> CountOk(s.disk))
    && (s.Up? ==> TreeShaped(s) && NumbersOk(s.disk, s.pc) && OneMemtable(s) && forall k :: KeyOk(s, k))
  }

  lemma InitSettled()
    ensures Settled(Initial())
  {
    var s := Initial();
    assert TablesOf([]) == [] && Replayed([]) == [];
    forall k ensures KeyOk(s, k) && KeyTracked(s.disk, k) {}
  }

  // ---------- Every quiet move ----------

  lemma WholeRecordReads(area: Bytes, r: Record, op: Op, x: Bytes)
    requires Wal.Unread(area) == [] && Wal.Accepted(r) && OpOf(Canon(r)) == op && x == Encode(r)
    ensures ReadsOp(Wal.Unread(area) + x, op) && Wal.Unread(area + x) == []
  {
    assert [] + x == x && x + [] == x;
    Wal.ParseWhole(r, []);
    assert x[|x|..] == [];
    Wal.ParseAppend(area, x);
    assert Wal.Unread([] + x) == Wal.Unread(x[|x|..]);
  }

  lemma RunOne(ops: seq<Op>, op: Op, k: Bytes)
    ensures k in MemRun(ops + [op]) <==> k in MemRun(ops) || k == op.key
  {
    assert (ops + [op])[..|ops|] == ops;
  }

  lemma LogSettled(s: State, op: Op, id: nat)
    requires Settled(s) && Can(s, Log(op, id))
    ensures Fits(s, Log(op, id)) && Settled(After(s, Log(op, id)))
  {
    var t, r := After(s, Log(op, id)), NextRecord(s, op, id);
    WholeRecordReads(s.disk.area, r, op, Encode(r));
    AppendIff(s.disk.area, Encode(r), op);
    LogKeys(s, t, op);
  }

  lemma LogKeys(s: State, t: State, op: Op)
    requires s.Up? && t.Up? && s.pc == Idle && t.pc == Logged(op) && t.active == s.active && t.flushing == s.flushing
    requires t.disk.tables == s.disk.tables && t.disk.temps == s.disk.temps && Replayed(t.disk.area) == Replayed(s.disk.area) + [op]
    requires Wal.Unread(t.disk.area) == [] && QuietDisk(s.disk) && forall k :: KeyOk(s, k)
    ensures QuietDisk(t.disk) && forall k :: KeyOk(t, k)
  {
    forall k ensures KeyOk(t, k) && KeyTracked(t.disk, k) {
      assert KeyOk(s, k) && KeyTracked(s.disk, k);
      RunOne(Replayed(s.disk.area), op, k);
    }
  }

  lemma InsertSettled(s: State, full: bool)
    requires Settled(s) && Can(s, Insert(full))
    ensures Fits(s, Insert(full)) && Settled(After(s, Insert(full)))
  {
    var t := After(s, Insert(full));
    forall k ensures KeyOk(t, k) { assert KeyOk(s, k); }
  }

  lemma RotateSettled(s: State, full: bool)
    requires Settled(s) && Can(s, Rotate(full))
    ensures Fits(s, Rotate(full)) && Settled(After(s, Rotate(full)))
  {
    var t := After(s, Rotate(full));
    forall k ensures KeyOk(t, k) { assert KeyOk(s, k); }
  }

  lemma {:induction false} OthersSay(fs: seq<File>, n: nat, k: Bytes)
    ensures LastSays(TablesOf(Others(fs, n)), k).Some? ==> LastSays(TablesOf(fs), k).Some?
  {
    if fs != [] {
      var m := |fs| - 1;
      OthersSay(fs[..m], n, k);
      SaysSnoc(fs[..m], fs[m], k);
      SaysSnoc(Others(fs[..m], n), fs[m], k);
      assert fs == fs[..m] + [fs[m]];
      assert Others(fs[..m], n) + [] == Others(fs[..m], n);
    }
  }

  lemma SaysSnoc(fs: seq<File>, f: File, k: Bytes)
    ensures LastSays(TablesOf(fs + [f]), k).Some? <==> LastSays(TablesOf(fs), k).Some? || Says(f.table, k).Some?
  {
    assert TablesOf(fs + [f]) == TablesOf(fs) + [f.table];
    assert (TablesOf(fs) + [f.table])[..|fs|] == TablesOf(fs);
  }

  lemma {:induction false} SaysIff(t: Table, k: Bytes)
    ensures Says(t, k).Some? <==> k in KeysOf(t)
  {
    if t != [] {
      var n := |t| - 1;
      SaysIff(t[..n], k);
      assert t == t[..n] + [t[n]];
    }
  }

  ghost function KeysOf(t: Table): (r: set<Bytes>) {
    set e | e in t :: e.0
  }

  lemma ListedSays(t: Table, m: Mem, k: Bytes)
    requires Lists(t, m)
    ensures Says(t, k).Some? <==> k in m
  {
    SaysIff(t, k);
    if k in m { assert (k, m[k]) in t; }
  }

  lemma CountSettled(s: State, m: Move)
    requires Settled(s) && Can(s, m) && Quiet(s, m) && (m == TakeNumber || m == StoreNumber)
    ensures Settled(After(s, m))
  {
    var t := After(s, m);
    SameKeys(s, t);
  }

  lemma SameKeys(s: State, t: State)
    requires s.Up? && t.Up? && QuietDisk(s.disk) && (forall k :: KeyOk(s, k)) && !s.pc.Renamed? && s.pc != Loaded && !s.pc.Logged?
    requires t.disk.area == s.disk.area && t.disk.tables == s.disk.tables && t.disk.temps == s.disk.temps
    requires t.active == s.active && t.flushing == s.flushing && !t.pc.Renamed? && t.pc != Loaded && !t.pc.Logged?
    ensures QuietDisk(t.disk) && forall k :: KeyOk(t, k)
  {
    forall k ensures KeyOk(t, k) && KeyTracked(t.disk, k) { assert KeyOk(s, k) && KeyTracked(s.disk, k); }
  }

  lemma BeginSettled(s: State)
    requires Settled(s) && Can(s, BeginTable)
    ensures Settled(After(s, BeginTable))
  {
    var t := After(s, BeginTable);
    forall k ensures KeyOk(t, k) && KeyTracked(t.disk, k) {
      assert KeyOk(s, k) && KeyTracked(s.disk, k);
      OthersSay(s.disk.temps, s.pc.n, k);
    }
  }

  lemma FinishSettled(s: State, table: Table)
    requires Settled(s) && Can(s, FinishTable(table))
    ensures Settled(After(s, FinishTable(table)))
  {
    var t := After(s, FinishTable(table));
    forall k ensures KeyOk(t, k) && KeyTracked(t.disk, k) {
      assert KeyOk(s, k) && KeyTracked(s.disk, k);
      SaysSnoc(s.disk.temps, File(s.pc.n, table), k);
      ListedSays(table, s.flushing, k);
    }
  }

  lemma RenameSettled(s: State)
    requires Settled(s) && Can(s, Rename) && Lists(s.pc.t, s.flushing)
    ensures Fits(s, Rename) && Settled(After(s, Rename))
  {
    var t := After(s, Rename);
    OthersNone(s.disk.tables, s.pc.n);
    forall k ensures KeyOk(t, k) && KeyTracked(t.disk, k) {
      assert KeyOk(s, k) && KeyTracked(s.disk, k);
      OthersSay(s.disk.temps, s.pc.n, k);
      SaysSnoc(s.disk.tables, File(s.pc.n, s.pc.t), k);
      ListedSays(s.pc.t, s.flushing, k);
    }
  }

  lemma LoadSettled(s: State)
    requires Settled(s) && Can(s, LoadTable) && Quiet(s, LoadTable)
    ensures Fits(s, LoadTable) && Settled(After(s, LoadTable))
  {
    var t := After(s, LoadTable);
    CleanIsSeen(s.tree, s.shown, TableOps(s.pc.t));
    forall k ensures KeyOk(t, k) { assert KeyOk(s, k); }
  }

  lemma EndSettled(s: State, m: Move)
    requires Settled(s) && Can(s, m) && (m == DropFlushing || m == WriteHead || m == Acknowledge)
    ensures Settled(After(s, m))
  {
    var t := After(s, m);
    forall k ensures KeyOk(t, k) && KeyTracked(t.disk, k) { assert KeyOk(s, k) && KeyTracked(s.disk, k); }
  }

  lemma EmptySettled(s: State)
    requires Settled(s) && Can(s, EmptyLog)
    ensures Settled(After(s, EmptyLog))
  {
    var t := After(s, EmptyLog);
    assert Replayed([]) == [];
    forall k ensures KeyOk(t, k) && KeyTracked(t.disk, k) { assert KeyOk(s, k) && KeyTracked(s.disk, k); }
  }

  lemma DownSettled(s: State, m: Move)
    requires Settled(s) && Can(s, m) && Quiet(s, m) && (m == Crash || m.TearHead?)
    ensures Settled(After(s, m))
  {
    var t := After(s, m);
    forall k ensures KeyTracked(t.disk, k) { assert KeyTracked(s.disk, k); }
  }

  lemma OpenFitsQuietly(s: State, order: seq<Table>, full: bool)
    requires Settled(s) && Can(s, Open(order, [], full)) && Quiet(s, Open(order, [], full))
    ensures Fits(s, Open(order, [], full))
  {
    var ops := Replayed(s.disk.area);
    assert ops[0..] == ops && ops[..0] == [];
    CleanLoadIs(order);
    forall k ensures OpenFitsAt(s.disk, order, MemRun(ops[..0]), MemRun(ops[0..]), k) {
      assert KeyTracked(s.disk, k);
      LastSaysAppend(TablesOf(s.disk.temps), TablesOf(s.disk.tables), k);
      LoadAllLookup(order, k);
      LoadAllLookup(TablesOf(s.disk.tables), k);
    }
  }

  lemma OpenKeys(d: Disk, t: State)
    requires t.Up? && t.pc == Idle && t.disk.area == d.area && t.disk.tables == d.tables && t.disk.temps == d.temps
    requires t.active == MemRun(Replayed(d.area)) && t.flushing == map[] && QuietDisk(d)
    ensures QuietDisk(t.disk) && forall k :: KeyOk(t, k)
  {
    forall k ensures KeyOk(t, k) && KeyTracked(t.disk, k) { assert KeyTracked(d, k); }
  }

  lemma OpenSettled(s: State, order: seq<Table>, full: bool)
    requires Settled(s) && Can(s, Open(order, [], full)) && Quiet(s, Open(order, [], full))
    ensures Settled(After(s, Open(order, [], full)))
  {
    var t, ops := After(s, Open(order, [], full)), Replayed(s.disk.area);
    assert ops[0..] == ops && ops[0..0] == [];
    OpenKeys(s.disk, t);
  }

  /** Every quiet move fits, and leaves a state from which quiet moves fit. */
  lemma QuietFits(s: State, m: Move)
    requires Inv(s) && Settled(s) && Can(s, m) && Quiet(s, m)
    ensures TreeShaped(s) && Fits(s, m) && Settled(After(s, m))
  {
    match m
    case Log(op, id) => LogSettled(s, op, id);
    case Tear(_, _, _) =>
    case Insert(full) => InsertSettled(s, full);
    case Rotate(full) => RotateSettled(s, full);
    case TakeNumber => CountSettled(s, m);
    case StoreNumber => CountSettled(s, m);
    case BeginTable => BeginSettled(s);
    case FinishTable(table) => FinishSettled(s, table);
    case Rename => RenameSettled(s);
    case LoadTable => LoadSettled(s);
    case EmptyLog => EmptySettled(s);
    case TearHead(_) => DownSettled(s, m);
    case Crash => DownSettled(s, m);
    case Open(order, _, full) => OpenFitsQuietly(s, order, full); OpenSettled(s, order, full);
    case _ => EndSettled(s, m);
  }

  // ---------- Whole runs ----------

  ghost predicate QuietAt(states: seq<State>, moves: seq<Move>, i: nat)
    requires i < |moves| && |states| == |moves| + 1
  {
    Can(states[i], moves[i]) && Quiet(states[i], moves[i]) && states[i + 1] == After(states[i], moves[i])
  }

  ghost predicate QuietRun(states: seq<State>, moves: seq<Move>) {
    && |states| == |moves| + 1 && states[0] == Initial()
    && forall i {:trigger QuietAt(states, moves, i)} :: 0 <= i < |moves| ==> QuietAt(states, moves, i)
  }

  ghost predicate Sound(s: State) {
    Inv(s) && Settled(s)
  }

  lemma QuietMove(states: seq<State>, moves: seq<Move>, i: nat, s: State, t: State)
    requires QuietRun(states, moves) && i < |moves| && s == states[i] && t == states[i + 1] && Sound(s)
    ensures Guarded(s, moves[i], t) && Sound(t)
  {
    assert QuietAt(states, moves, i);
    QuietFits(s, moves[i]);
    GuardedInv(s, moves[i], t);
  }

  lemma InitSound()
    ensures Sound(Initial())
  {
    InitInv();
    InitSettled();
  }

  lemma {:induction false} QuietSound(states: seq<State>, moves: seq<Move>, i: nat, t: State)
    requires QuietRun(states, moves) && i < |states| && t == states[i]
    ensures Sound(t)
  {
    if i == 0 {
      InitSound();
    } else {
      QuietSound(states, moves, i - 1, states[i - 1]);
      QuietKeeps(states, moves, i - 1, states[i - 1], t);
    }
  }

  lemma QuietKeeps(states: seq<State>, moves: seq<Move>, i: nat, s: State, t: State)
    requires QuietRun(states, moves) && i < |moves| && s == states[i] && t == states[i + 1] && Sound(s)
    ensures Sound(t)
  {
    QuietMove(states, moves, i, s, t);
  }

  /** Every quiet run is one in which all moves fit, so that crash safety holds for it. */
  lemma QuietIsGuarded(states: seq<State>, moves: seq<Move>)
    requires QuietRun(states, moves)
    ensures GuardedRun(states, moves)
  {
    forall i {:trigger GuardedAt(states, moves, i)} | 0 <= i < |moves| ensures GuardedAt(states, moves, i) {
      QuietSound(states, moves, i, states[i]);
      QuietMove(states, moves, i, states[i], states[i + 1]);
    }
  }

  /** In every quiet run, a crash after any move j leaves on disk the fold of a history that starts with everything committed
      at any earlier point i and has at most one operation more. */
  lemma QuietCrashSafety(states: seq<State>, moves: seq<Move>, i: nat, j: nat)
    requires QuietRun(states, moves) && i <= j < |states|
    ensures Recovered(states[j].disk) == Fold(states[j].spec.hist)
    ensures states[i].spec.committed <= |states[i].spec.hist|
    ensures states[i].spec.hist[..states[i].spec.committed] <= states[j].spec.hist
    ensures states[j].spec.committed <= |states[j].spec.hist| <= states[j].spec.committed + 1
  {
    QuietIsGuarded(states, moves);
    CrashSafety(states, moves, i, j, []);
  }
}
