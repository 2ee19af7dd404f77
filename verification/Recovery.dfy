/** Writes, flush, crash and recovery of the database (src/core/db.c) as a state machine.

    One writer, every record handed to the file at once, no compaction and no I/O error. The log is bytes. A crash may strike
    between any two moves, inside the write of a record, between the emptying and the rewriting of the file that counts the
    tables, and inside the rewriting of the log header; it leaves only what is on disk. The tree is the B+tree of BTreeRuns.
    Whether a memtable counts as full depends on its random tower heights, so `full` is a free choice after every insertion;
    the order in which a directory lists the tables is free, too. */
module Recovery {
  import opened Keys
  import BTree
  import opened BTreeRuns
  import opened Records
  import Wal
  import opened History
  import SkipList

  // ---------- The log ----------

  /** The record that wal_append writes for an operation. */
  function RecordOf(op: Op, table: nat, seqno: nat): (r: Record) {
    Record(seqno, op.DeleteOp?, table, op.key, if op.PutOp? then op.val else [])
  }

  /** wal_replay_cb (src/core/db.c:55-66) */
  function OpOf(d: Delivery): (op: Op) {
    if d.delete then DeleteOp(d.key) else PutOp(d.key, d.val)
  }

  function OpsOf(ds: seq<Delivery>): (ops: seq<Op>)
    ensures |ops| == |ds|
  {
    seq(|ds|, i requires 0 <= i < |ds| => OpOf(ds[i]))
  }

  /** The operations that a replay of these bytes performs. */
  function Replayed(area: Bytes): (ops: seq<Op>) {
    OpsOf(Wal.ParseAll(area).0)
  }

  /** The bytes read as the operation, and what is left is no whole record. */
  predicate ReadsOp(b: Bytes, op: Op) {
    var p := Wal.ParseOne(b);
    p.Whole? && OpOf(p.d) == op && !Wal.ParseOne(b[p.size..]).Whole?
  }

  lemma OpsAppend(a: seq<Delivery>, b: seq<Delivery>)
    ensures OpsOf(a + b) == OpsOf(a) + OpsOf(b)
  {
  }

  lemma OneReplayed(b: Bytes, op: Op)
    ensures Replayed(b) == [op] <==> ReadsOp(b, op)
    ensures Replayed(b) == [] <==> !Wal.ParseOne(b).Whole?
  {
    var p := Wal.ParseOne(b);
    if p.Whole? {
      var rest := b[p.size..];
      assert Wal.ParseAll(b).0 == [p.d] + Wal.ParseAll(rest).0;
      OpsAppend([p.d], Wal.ParseAll(rest).0);
      assert OpsOf([p.d]) == [OpOf(p.d)];
      NothingRead(rest);
      HeadAndRest(OpOf(p.d), Replayed(rest), op);
    }
  }

  lemma NothingRead(b: Bytes)
    ensures Replayed(b) == [] <==> !Wal.ParseOne(b).Whole?
  {
  }

  lemma HeadAndRest(a: Op, rest: seq<Op>, b: Op)
    ensures [a] + rest == [b] <==> a == b && rest == []
  {
    assert ([a] + rest)[0] == a && ([a] + rest)[1..] == rest;
  }

  lemma SameFront(a: seq<Op>, b: seq<Op>, c: seq<Op>)
    ensures a + b == a + c <==> b == c
  {
    assert (a + b)[|a|..] == b && (a + c)[|a|..] == c;
  }

  /** Appended bytes add exactly this operation to what any log replays if and only if the unread bytes followed by them
      read as it; they add nothing if and only if no whole record appears. */
  lemma AppendIff(area: Bytes, x: Bytes, op: Op)
    ensures Replayed(area + x) == Replayed(area) + [op] <==> ReadsOp(Wal.Unread(area) + x, op)
    ensures Replayed(area + x) == Replayed(area) <==> !Wal.ParseOne(Wal.Unread(area) + x).Whole?
  {
    var more := Wal.Unread(area) + x;
    Wal.ParseAppend(area, x);
    OpsAppend(Wal.ParseAll(area).0, Wal.ParseAll(more).0);
    SameFront(Replayed(area), Replayed(more), [op]);
    SameFront(Replayed(area), Replayed(more), []);
    assert Replayed(area) + [] == Replayed(area);
    OneReplayed(more, op);
  }

  // ---------- The machine ----------

  const HEAD_SIZE := Wal.HEADER_SIZE

  /** The header of the log file: whole, or the first n bytes of one. */
  datatype LogHead = Whole(seqno: nat) | Stub(n: nat)

  /** What survives a crash: the level-0 tables, with the oldest first, the tables under temporary names that are complete, the
      number in the counting file (None if it is missing or not whole), the header of the log and its record area. */
  datatype Disk = Disk(tables: seq<File>, temps: seq<File>, counter: Option<nat>, head: LogHead, area: Bytes)

  /** Where the one writer stands between two moves. */
  datatype PC =
    | Idle
    | Logged(op: Op)              // record appended, memtable not yet changed
    | Stored                      // memtable changed, fullness not yet looked at
    | Rotated                     // active memtable became the flushing one
    | Numbered(n: nat)            // number taken, the counting file is empty
    | Counted(n: nat)             // the counting file is written
    | Filling(n: nat)             // the table under its temporary name is not complete
    | Written(n: nat, t: Table)   // it is
    | Renamed(t: Table)           // it has its name
    | Loaded                      // it is in the tree
    | Dropped                     // the flushing memtable is freed
    | Emptied                     // the log file is empty
    | Truncated                   // it has a header

  /** Specification only. `hist` are all operations whose records are complete and `committed` how many of them the client
      knows to be in: those acknowledged, and those found by the last recovery. `covered` operations are in the tables, and
      the log holds the operations from `start` on. */
  datatype Spec = Spec(hist: seq<Op>, committed: nat, covered: nat, start: nat)

  /** `shown` is for the specification: the map of the lookups in the tree. */
  datatype State =
    | Up(disk: Disk, active: Mem, full: bool, flushing: Mem, tree: Root, shown: KV, pc: PC, seqno: nat, spec: Spec)
    | Down(disk: Disk, spec: Spec)

  datatype Move =
    | Log(op: Op, id: nat)
    | Tear(op: Op, id: nat, n: nat)
    | Insert(full: bool)
    | Acknowledge
    | Rotate(full: bool)
    | TakeNumber
    | StoreNumber
    | BeginTable
    | FinishTable(t: Table)
    | Rename
    | LoadTable
    | DropFlushing
    | EmptyLog
    | WriteHead
    | TearHead(n: nat)
    | Crash
    | Open(order: seq<Table>, cuts: seq<nat>, full: bool)

  function NextRecord(s: State, op: Op, id: nat): (r: Record)
    requires s.Up?
  {
    RecordOf(op, id, (s.seqno + 1) % U64)
  }

  /** Where the last two memtables of a replay start: `cuts` are the points at which it found the memtable full. */
  function LastCut(cuts: seq<nat>): (n: nat) {
    if cuts == [] then 0 else cuts[|cuts| - 1]
  }

  function PrevCut(cuts: seq<nat>): (n: nat) {
    if |cuts| < 2 then 0 else cuts[|cuts| - 2]
  }

  ghost predicate Ascending(cuts: seq<nat>, n: nat) {
    && (forall i :: 0 <= i < |cuts| ==> cuts[i] <= n)
    && (forall i, j :: 0 <= i < j < |cuts| ==> cuts[i] < cuts[j])
  }

  /** The headers with which wal_create opens the log; an empty file gets a new one. */
  predicate Opens(h: LogHead) {
    h.Whole? || h.n == 0
  }

  function LastSeqno(d: Disk): (n: nat) {
    var ds := Wal.ParseAll(d.area).0;
    if ds != [] then ds[|ds| - 1].seqno else if d.head.Whole? then d.head.seqno else 0
  }

  ghost predicate TreeShaped(s: State) {
    s.Up? ==> BTree.Shape(s.tree.tree, s.tree.depth)
  }

  /** The moves of each state. */
  ghost predicate Can(s: State, m: Move) {
    match m
    case Log(op, id) => s.Up? && s.pc == Idle && Wal.Accepted(NextRecord(s, op, id))
    case Tear(op, id, n) => s.Up? && s.pc == Idle && Wal.Accepted(NextRecord(s, op, id)) && n < |Encode(NextRecord(s, op, id))|
    case Insert(_) => s.Up? && s.pc.Logged?
    case Acknowledge => s.Up? && (s.pc == Truncated || (s.pc == Stored && !s.full))
    case Rotate(_) => s.Up? && ((s.pc == Stored && s.full) || (s.pc == Idle && s.active != map[]))
    case TakeNumber => s.Up? && s.pc == Rotated
    case StoreNumber => s.Up? && s.pc.Numbered?
    case BeginTable => s.Up? && s.pc.Counted?
    case FinishTable(t) => s.Up? && s.pc.Filling? && Lists(t, s.flushing)
    case Rename => s.Up? && s.pc.Written?
    case LoadTable => s.Up? && s.pc.Renamed? && TreeShaped(s)
    case DropFlushing => s.Up? && s.pc == Loaded
    case EmptyLog => s.Up? && s.pc == Dropped
    case WriteHead => s.Up? && s.pc == Emptied
    case TearHead(n) => 0 < n < HEAD_SIZE && ((s.Up? && s.pc == Emptied) || (s.Down? && s.disk.head == Stub(0)))
    case Crash => s.Up?
    case Open(order, cuts, _) =>
      && s.Down? && Opens(s.disk.head)
      && multiset(order) == multiset(TablesOf(s.disk.tables) + TablesOf(s.disk.temps))
      && Ascending(cuts, |Replayed(s.disk.area)|) && PrevCut(cuts) <= LastCut(cuts) <= |Replayed(s.disk.area)|
  }

  function WithLog(d: Disk, bytes: Bytes): (r: Disk) {
    d.(area := d.area + bytes)
  }

  /** The number db_persistent_seq returns: one more than the file holds, or 1 (src/core/db.c:467-486). */
  function NextNumber(d: Disk): (n: nat) {
    ((if d.counter.Some? then d.counter.value else 0) + 1) % U64
  }

  /** Log and Tear: wal_append (src/core/db.c:832, 943), whole or cut off by a crash. Insert: lsm_put and lsm_delete, which
      rotate a full memtable away first (src/storage/lsm.c:287-291, 318-322). Rotate: lsm_flush at the start of
      db_flush_memtable, after an insertion that found the memtable full or when the database is closed with entries in it
      (src/core/db.c:493, 680-682). TakeNumber and StoreNumber: db_persistent_seq, which empties its file before it writes it.
      BeginTable, FinishTable and Rename: the table under a temporary name, which the listing of an opening takes as well,
      and its renaming, which replaces a table of the same number (src/core/db.c:505-521, src/storage/sstable.c:264). EmptyLog, WriteHead
      and TearHead: wal_truncate, cut off by a crash in the last case, which can also strike when an opening gives an empty log its
      header. Open: db_open, which loads the tables in the order of the directory and replays the log,
      rotating full memtables (src/core/db.c:595-623, src/storage/compaction.c:109-146, src/storage/lsm.c:325-331). */
  ghost function After(s: State, m: Move): (t: State)
    requires Can(s, m)
  {
    match m
    case Log(op, id) =>
      s.(disk := WithLog(s.disk, Encode(NextRecord(s, op, id))), seqno := (s.seqno + 1) % U64, pc := Logged(op),
         spec := s.spec.(hist := s.spec.hist + [op]))
    case Tear(op, id, n) => Down(WithLog(s.disk, Encode(NextRecord(s, op, id))[..n]), s.spec)
    case Insert(full) =>
      s.(active := MemStep(if s.full then map[] else s.active, s.pc.op), flushing := if s.full then s.active else s.flushing,
         full := full, pc := Stored)
    case Acknowledge => s.(pc := Idle, spec := s.spec.(committed := |s.spec.hist|))
    case Rotate(full) => s.(flushing := s.active, active := map[], full := full, pc := Rotated)
    case TakeNumber => s.(disk := s.disk.(counter := None), pc := Numbered(NextNumber(s.disk)))
    case StoreNumber => s.(disk := s.disk.(counter := Some(s.pc.n)), pc := Counted(s.pc.n))
    case BeginTable => s.(disk := s.disk.(temps := Others(s.disk.temps, s.pc.n)), pc := Filling(s.pc.n))
    case FinishTable(t) => s.(disk := s.disk.(temps := s.disk.temps + [File(s.pc.n, t)]), pc := Written(s.pc.n, t))
    case Rename =>
      s.(disk := s.disk.(tables := Others(s.disk.tables, s.pc.n) + [File(s.pc.n, s.pc.t)], temps := Others(s.disk.temps, s.pc.n)),
         spec := s.spec.(covered := |s.spec.hist|), pc := Renamed(s.pc.t))
    case LoadTable =>
      s.(tree := Run(s.tree, TableOps(s.pc.t)), shown := SeenRun(s.tree, s.shown, TableOps(s.pc.t)), pc := Loaded)
    case DropFlushing => s.(flushing := map[], pc := Dropped)
    case EmptyLog => s.(disk := s.disk.(head := Stub(0), area := []), spec := s.spec.(start := |s.spec.hist|), pc := Emptied)
    case WriteHead => s.(disk := s.disk.(head := Whole(s.seqno)), pc := Truncated)
    case TearHead(n) => Down(s.disk.(head := Stub(n)), s.spec)
    case Crash => Down(s.disk, s.spec)
    case Open(order, cuts, full) =>
      var ops := Replayed(s.disk.area);
      Up(s.disk.(head := if s.disk.head.Whole? then s.disk.head else Whole(0)), MemRun(ops[LastCut(cuts)..]), full,
         MemRun(ops[PrevCut(cuts)..LastCut(cuts)]), LoadTree(Empty(), order), SeenLoad(order), Idle, LastSeqno(s.disk),
         s.spec.(committed := |s.spec.hist|))
  }

  function Initial(): (s: State) {
    Up(Disk([], [], None, Whole(0), []), map[], false, map[], Empty(), map[], Idle, 0, Spec([], 0, 0, 0))
  }

  // ---------- The branches that lose data, and their guards ----------

  /** What the tables hold, the newer ones over the older. */
  function Base(d: Disk): (m: KV) {
    LoadAll(TablesOf(d.tables))
  }

  /** Each entry of the dropped memtable is hidden by newer ones, or its value is in the map already. */
  ghost predicate Covered(dropped: Mem, newer: Mem, base: KV) {
    forall k {:trigger Get(base, k)} :: k in dropped ==> k in newer || dropped[k] == Get(base, k)
  }

  /** The same of the lookups in the tree. */
  ghost predicate Harmless(dropped: Mem, newer: Mem, tree: Root)
    requires BTree.Shape(tree.tree, tree.depth)
  {
    forall k {:trigger Lookup(tree, k)} :: k in dropped ==> k in newer || dropped[k] == Lookup(tree, k)
  }

  /** Nothing of this memtable is needed any more: tree and tables have what newer entries do not hide. */
  ghost predicate Saved(s: State, dropped: Mem, newer: Mem)
    requires s.Up? && TreeShaped(s)
  {
    Harmless(dropped, newer, s.tree) && Covered(dropped, newer, Base(s.disk))
  }

  /** Where the opening keeps nothing of a key in memory, the tree shows what the tables hold, and so did the part of the log
      that it drops. */
  ghost predicate OpenFits(d: Disk, order: seq<Table>, cuts: seq<nat>)
    requires PrevCut(cuts) <= |Replayed(d.area)|
  {
    var ops, n := Replayed(d.area), PrevCut(cuts);
    forall k {:trigger OpenFitsAt(d, order, MemRun(ops[..n]), MemRun(ops[n..]), k)} ::
      OpenFitsAt(d, order, MemRun(ops[..n]), MemRun(ops[n..]), k)
  }

  ghost predicate OpenFitsAt(d: Disk, order: seq<Table>, dropped: Mem, kept: Mem, k: Bytes) {
    k in kept || (Get(SeenLoad(order), k) == Get(Base(d), k) && (k in dropped ==> dropped[k] == Get(Base(d), k)))
  }

  /** The guard of each move; most moves need none. */
  ghost predicate Fits(s: State, m: Move)
    requires TreeShaped(s) && Can(s, m)
  {
    match m
    case Log(op, id) => ReadsOp(Wal.Unread(s.disk.area) + Encode(NextRecord(s, op, id)), op)
    case Tear(op, id, n) => !Wal.ParseOne(Wal.Unread(s.disk.area) + Encode(NextRecord(s, op, id))[..n]).Whole?
    case Insert(_) => s.full ==> Saved(s, s.flushing, MemStep(s.active, s.pc.op))
    case Rotate(_) => Saved(s, s.flushing, s.active)
    case Rename => Replaceable(s.disk.tables, s.pc.n, s.flushing)
    case LoadTable => SeenRun(s.tree, s.shown, TableOps(s.pc.t)) == MapRun(s.shown, TableOps(s.pc.t))
    case Open(order, cuts, _) => OpenFits(s.disk, order, cuts)
    case _ => true
  }

  // ---------- The invariant ----------

  ghost predicate DiskInv(d: Disk, p: Spec) {
    && p.start <= p.covered <= |p.hist| && p.committed <= |p.hist| <= p.committed + 1
    && Replayed(d.area) == p.hist[p.start..]
    && NumbersDiffer(d.tables) && Base(d) == Fold(p.hist[..p.covered])
  }

  /** How many operations the memory state reflects. */
  function Seen(s: State): nat
    requires s.Up?
  {
    if s.pc.Logged? && |s.spec.hist| > 0 then |s.spec.hist| - 1 else |s.spec.hist|
  }

  /** What the running database holds under a key: active over flushing over tree. */
  function View(s: State, k: Bytes): (v: Option<Bytes>)
    requires s.Up? && BTree.Shape(s.tree.tree, s.tree.depth)
  {
    Under(s.active, k, Under(s.flushing, k, Lookup(s.tree, k)))
  }

  /** The memory shows the map, and the tree has what the tables hold wherever the memtables have nothing. */
  ghost predicate ShowsAt(active: Mem, flushing: Mem, shown: KV, base: KV, want: KV, k: Bytes) {
    && Under(active, k, Under(flushing, k, Get(shown, k))) == Get(want, k)
    && (k in active || k in flushing || Get(shown, k) == Get(base, k))
  }

  ghost predicate Shows(active: Mem, flushing: Mem, shown: KV, base: KV, want: KV) {
    forall k {:trigger ShowsAt(active, flushing, shown, base, want, k)} :: ShowsAt(active, flushing, shown, base, want, k)
  }

  predicate Flushing(pc: PC) {
    pc == Rotated || pc.Numbered? || pc.Counted? || pc.Filling? || pc.Written? || pc.Renamed? || Saving(pc)
  }

  predicate Saving(pc: PC) {
    pc == Loaded || Cleaning(pc)
  }

  predicate Cleaning(pc: PC) {
    pc == Dropped || pc == Emptied || pc == Truncated
  }

  ghost predicate PcInv(pc: PC, active: Mem, flushing: Mem, shown: KV, base: KV, p: Spec) {
    && (pc == Idle ==> p.committed == |p.hist|)
    && (pc.Logged? ==> p.covered < |p.hist| && p.hist[|p.hist| - 1] == pc.op)
    && (Flushing(pc) ==> active == map[])
    && (pc.Written? || pc.Renamed? ==> Lists(pc.t, flushing))
    && (pc.Renamed? || Saving(pc) ==> p.covered == |p.hist|)
    && (Saving(pc) ==> shown == base)
    && (Cleaning(pc) ==> flushing == map[])
  }

  ghost predicate MemInv(s: State)
    requires s.Up?
  {
    var base := Base(s.disk);
    && TreeIs(s.tree, s.shown) && PcInv(s.pc, s.active, s.flushing, s.shown, base, s.spec)
    && Shows(s.active, s.flushing, s.shown, base, Fold(s.spec.hist[..Seen(s)]))
  }

  ghost predicate Inv(s: State) {
    DiskInv(s.disk, s.spec) && (s.Up? ==> MemInv(s))
  }

  /** What the disk holds: the operations of the log over the tables. */
  function Recovered(d: Disk): KV {
    Overlay(MemRun(Replayed(d.area)), Base(d))
  }

  /** On disk, nothing logged is ever missing and nothing else appears, wherever the crash strikes. */
  lemma RecoveryIsExact(d: Disk, p: Spec)
    requires DiskInv(d, p)
    ensures Recovered(d) == Fold(p.hist)
  {
    ReplayIsIdempotent(p.hist, p.start, p.covered);
  }

  /** The running database shows exactly the operations its memory has seen, at every step. */
  lemma LiveIsExact(s: State, k: Bytes)
    requires Inv(s) && s.Up?
    ensures View(s, k) == Get(Fold(s.spec.hist[..Seen(s)]), k)
  {
    assert ShowsAt(s.active, s.flushing, s.shown, Base(s.disk), Fold(s.spec.hist[..Seen(s)]), k);
    assert Lookup(s.tree, k) == Get(s.shown, k);
  }

  // ---------- A move keeps the invariant exactly when it fits ----------

  lemma LogSpec(h: seq<Op>, op: Op, start: nat, covered: nat)
    requires start <= covered <= |h|
    ensures (h + [op])[start..] == h[start..] + [op] && (h + [op])[..covered] == h[..covered] && (h + [op])[..|h|] == h[..|h|] == h
  {
  }

  lemma LoggedMem(t: State, base: KV, h: seq<Op>, op: Op)
    requires t.Up? && t.pc == Logged(op) && t.spec.hist == h + [op] && t.spec.covered <= |h| && base == Base(t.disk)
    requires TreeIs(t.tree, t.shown) && Shows(t.active, t.flushing, t.shown, base, Fold(h))
    ensures MemInv(t)
  {
    assert (h + [op])[..|h|] == h;
    MemIs(t, base, Fold(h));
  }

  lemma LogMem(s: State, op: Op, id: nat)
    requires Inv(s) && Can(s, Log(op, id))
    ensures After(s, Log(op, id)).Up? && MemInv(After(s, Log(op, id)))
  {
    var t, h := After(s, Log(op, id)), s.spec.hist;
    assert h[..Seen(s)] == h && t.disk.tables == s.disk.tables;
    LoggedMem(t, Base(s.disk), h, op);
  }

  lemma LogIff(s: State, op: Op, id: nat)
    requires Inv(s) && Can(s, Log(op, id))
    ensures Inv(After(s, Log(op, id))) <==> Fits(s, Log(op, id))
  {
    LogMem(s, op, id);
    LogSpec(s.spec.hist, op, s.spec.start, s.spec.covered);
    AppendIff(s.disk.area, Encode(NextRecord(s, op, id)), op);
  }

  lemma TearIff(s: State, op: Op, id: nat, n: nat)
    requires Inv(s) && Can(s, Tear(op, id, n))
    ensures Inv(After(s, Tear(op, id, n))) <==> Fits(s, Tear(op, id, n))
  {
    AppendIff(s.disk.area, Encode(NextRecord(s, op, id))[..n], op);
  }

  ghost predicate SavedAt(dropped: Mem, newer: Mem, shown: KV, base: KV, k: Bytes) {
    k in dropped ==> k in newer || (dropped[k] == Get(shown, k) && dropped[k] == Get(base, k))
  }

  lemma SavedIff(s: State, dropped: Mem, newer: Mem)
    requires s.Up? && TreeIs(s.tree, s.shown)
    ensures Saved(s, dropped, newer) <==> forall k :: SavedAt(dropped, newer, s.shown, Base(s.disk), k)
  {
    forall k ensures Lookup(s.tree, k) == Get(s.shown, k) {}
    if forall k :: SavedAt(dropped, newer, s.shown, Base(s.disk), k) {
      forall k | k in dropped ensures k in newer || (dropped[k] == Lookup(s.tree, k) && dropped[k] == Get(Base(s.disk), k)) {
        assert SavedAt(dropped, newer, s.shown, Base(s.disk), k);
      }
    }
  }

  lemma FoldSnoc(h: seq<Op>, k: Bytes)
    requires h != []
    ensures var op := h[|h| - 1];
            Get(Fold(h), k) == if k == op.key then MemStep(map[], op)[k] else Get(Fold(h[..|h| - 1]), k)
  {
  }

  lemma StoreAt(active: Mem, flushing: Mem, shown: KV, base: KV, before: KV, after_: KV, op: Op, k: Bytes)
    requires ShowsAt(active, flushing, shown, base, before, k)
    requires Get(after_, k) == if k == op.key then MemStep(map[], op)[k] else Get(before, k)
    ensures ShowsAt(MemStep(active, op), flushing, shown, base, after_, k)
    ensures ShowsAt(MemStep(map[], op), active, shown, base, after_, k) <==> SavedAt(flushing, MemStep(active, op), shown, base, k)
  {
  }

  lemma InsertShows(active: Mem, flushing: Mem, shown: KV, base: KV, h: seq<Op>, op: Op)
    requires h != [] && h[|h| - 1] == op && Shows(active, flushing, shown, base, Fold(h[..|h| - 1]))
    ensures Shows(MemStep(active, op), flushing, shown, base, Fold(h))
    ensures Shows(MemStep(map[], op), active, shown, base, Fold(h)) <==>
            forall k :: SavedAt(flushing, MemStep(active, op), shown, base, k)
  {
    forall k ensures ShowsAt(MemStep(active, op), flushing, shown, base, Fold(h), k)
             ensures ShowsAt(MemStep(map[], op), active, shown, base, Fold(h), k) <==>
                     SavedAt(flushing, MemStep(active, op), shown, base, k)
    {
      assert ShowsAt(active, flushing, shown, base, Fold(h[..|h| - 1]), k);
      FoldSnoc(h, k);
      StoreAt(active, flushing, shown, base, Fold(h[..|h| - 1]), Fold(h), op, k);
    }
  }

  lemma SameDisk(d: Disk, p: Spec, e: Disk, q: Spec)
    requires DiskInv(d, p) && e.tables == d.tables && e.area == d.area && q.hist == p.hist && q.covered == p.covered
    requires q.start == p.start && p.committed <= q.committed <= |q.hist|
    ensures DiskInv(e, q) && Base(e) == Base(d)
  {
  }

  lemma MemIs(t: State, base: KV, want: KV)
    requires t.Up? && base == Base(t.disk) && want == Fold(t.spec.hist[..Seen(t)])
    ensures MemInv(t) <==> TreeIs(t.tree, t.shown) && PcInv(t.pc, t.active, t.flushing, t.shown, base, t.spec) &&
                           Shows(t.active, t.flushing, t.shown, base, want)
  {
  }

  lemma RestingMem(t: State, base: KV, h: seq<Op>)
    requires t.Up? && TreeIs(t.tree, t.shown) && base == Base(t.disk) && h == t.spec.hist
    requires (t.pc == Idle && t.spec.committed == |h|) || t.pc == Stored
    ensures MemInv(t) <==> Shows(t.active, t.flushing, t.shown, base, Fold(h))
  {
    assert h[..|h|] == h;
    MemIs(t, base, Fold(h));
  }

  lemma RestingParts(d: Disk, p: Spec, t: State)
    requires DiskInv(d, p) && t.Up? && t.disk.tables == d.tables && t.disk.area == d.area && TreeIs(t.tree, t.shown)
    requires (t.pc == Idle && t.spec == p.(committed := |p.hist|)) || (t.pc == Stored && t.spec == p)
    ensures Inv(t) <==> Shows(t.active, t.flushing, t.shown, Base(d), Fold(p.hist))
  {
    SameDisk(d, p, t.disk, t.spec);
    RestingMem(t, Base(d), p.hist);
  }

  lemma InsertIff(s: State, full: bool)
    requires Inv(s) && Can(s, Insert(full))
    ensures Inv(After(s, Insert(full))) <==> Fits(s, Insert(full))
  {
    var h := s.spec.hist;
    assert h[..Seen(s)] == h[..|h| - 1] && h[..|h|] == h;
    InsertShows(s.active, s.flushing, s.shown, Base(s.disk), h, s.pc.op);
    SavedIff(s, s.flushing, MemStep(s.active, s.pc.op));
    InsertParts(s, full, After(s, Insert(full)));
  }

  lemma InsertParts(s: State, full: bool, t: State)
    requires Inv(s) && Can(s, Insert(full)) && t == After(s, Insert(full))
    ensures Inv(t) <==> Shows(t.active, t.flushing, s.shown, Base(s.disk), Fold(s.spec.hist))
  {
    RestingParts(s.disk, s.spec, t);
  }

  lemma RotateAt(active: Mem, flushing: Mem, shown: KV, base: KV, want: KV, k: Bytes)
    requires ShowsAt(active, flushing, shown, base, want, k)
    ensures ShowsAt(map[], active, shown, base, want, k) <==> SavedAt(flushing, active, shown, base, k)
  {
  }

  lemma RotateShows(active: Mem, flushing: Mem, shown: KV, base: KV, want: KV)
    requires Shows(active, flushing, shown, base, want)
    ensures Shows(map[], active, shown, base, want) <==> forall k :: SavedAt(flushing, active, shown, base, k)
  {
    forall k ensures ShowsAt(map[], active, shown, base, want, k) <==> SavedAt(flushing, active, shown, base, k) {
      assert ShowsAt(active, flushing, shown, base, want, k);
      RotateAt(active, flushing, shown, base, want, k);
    }
  }

  lemma RotateIff(s: State, full: bool)
    requires Inv(s) && Can(s, Rotate(full))
    ensures Inv(After(s, Rotate(full))) <==> Fits(s, Rotate(full))
  {
    RotateShows(s.active, s.flushing, s.shown, Base(s.disk), Fold(s.spec.hist[..Seen(s)]));
    SavedIff(s, s.flushing, s.active);
  }

  /** What the tables hold after the renaming. */
  lemma RenamedBase(fs: seq<File>, n: nat, t: Table, m: Mem)
    requires Lists(t, m)
    ensures LoadAll(TablesOf(Others(fs, n) + [File(n, t)])) == Overlay(m, LoadAll(TablesOf(Others(fs, n))))
  {
    var rest := Others(fs, n);
    assert TablesOf(rest + [File(n, t)]) == TablesOf(rest) + [t];
    NewTable(TablesOf(rest), t, m);
  }

  lemma NewTable(tables: seq<Table>, table: Table, m: Mem)
    requires Lists(table, m)
    ensures LoadAll(tables + [table]) == Overlay(m, LoadAll(tables))
  {
    assert (tables + [table])[..|tables|] == tables;
    LoadIsOverlay(LoadAll(tables), table, m);
  }

  /** A table that holds the memory over what the tables held takes their place exactly when the old table of its number, if
      there is one, is not needed. */
  lemma RenamedIff(fs: seq<File>, n: nat, t: Table, m: Mem, want: KV)
    requires NumbersDiffer(fs) && Lists(t, m)
    requires forall k {:trigger Get(want, k)} :: Get(want, k) == Under(m, k, Get(LoadAll(TablesOf(fs)), k))
    ensures LoadAll(TablesOf(Others(fs, n) + [File(n, t)])) == want <==> Replaceable(fs, n, m)
  {
    var now, rest := LoadAll(TablesOf(Others(fs, n) + [File(n, t)])), LoadAll(TablesOf(Others(fs, n)));
    RenamedBase(fs, n, t, m);
    ReplaceableIff(fs, n, m);
    forall k ensures Get(now, k) == Get(want, k) <==> KeptAt(fs, n, m, k) {
      OverlayLookup(m, rest, k);
      assert Get(want, k) == Under(m, k, Get(LoadAll(TablesOf(fs)), k));
    }
    if Replaceable(fs, n, m) {
      forall k ensures Get(now, k) == Get(want, k) { assert KeptAt(fs, n, m, k); }
      GetExt(now, want);
    }
  }

  /** With an empty active memtable, the history is the flushing one over the tables. */
  lemma FlushingIsRest(s: State, k: Bytes)
    requires Inv(s) && s.Up? && Flushing(s.pc)
    ensures Get(Fold(s.spec.hist), k) == Under(s.flushing, k, Get(Base(s.disk), k)) == Under(s.flushing, k, Get(s.shown, k))
  {
    assert s.spec.hist[..Seen(s)] == s.spec.hist;
    assert ShowsAt(s.active, s.flushing, s.shown, Base(s.disk), Fold(s.spec.hist), k);
  }

  /** Once the tables hold everything, the memory shows it from the flushing memtable and any tree that has the rest. */
  lemma RestShows(flushing: Mem, shown: KV, want: KV)
    requires forall k {:trigger Get(want, k)} :: Get(want, k) == Under(flushing, k, Get(shown, k))
    ensures Shows(map[], flushing, shown, want, want)
  {
    forall k ensures ShowsAt(map[], flushing, shown, want, want, k) {
      assert Get(want, k) == Under(flushing, k, Get(shown, k));
    }
  }

  lemma RenameIff(s: State)
    requires Inv(s) && Can(s, Rename)
    ensures Inv(After(s, Rename)) <==> Fits(s, Rename)
  {
    var want, n, table := Fold(s.spec.hist), s.pc.n, s.pc.t;
    forall k ensures Get(want, k) == Under(s.flushing, k, Get(Base(s.disk), k)) == Under(s.flushing, k, Get(s.shown, k)) {
      FlushingIsRest(s, k);
    }
    RenamedIff(s.disk.tables, n, table, s.flushing, want);
    RenamedNumbers(s.disk.tables, n, table);
    RestShows(s.flushing, s.shown, want);
    RenameParts(s, want);
  }

  lemma RenamedMem(t: State, want: KV)
    requires t.Up? && t.pc.Renamed? && t.active == map[] && Lists(t.pc.t, t.flushing) && t.spec.covered == |t.spec.hist|
    requires TreeIs(t.tree, t.shown) && Base(t.disk) == want == Fold(t.spec.hist) && Shows(map[], t.flushing, t.shown, want, want)
    ensures MemInv(t)
  {
    assert t.spec.hist[..Seen(t)] == t.spec.hist;
    MemIs(t, want, want);
  }

  lemma RenamedDisk(d: Disk, p: Spec, e: Disk, q: Spec, want: KV)
    requires DiskInv(d, p) && e.area == d.area && q == p.(covered := |p.hist|) && NumbersDiffer(e.tables) && want == Fold(p.hist)
    ensures DiskInv(e, q) <==> Base(e) == want
  {
    assert p.hist[..|p.hist|] == p.hist;
  }

  lemma RenameParts(s: State, want: KV)
    requires Inv(s) && Can(s, Rename) && want == Fold(s.spec.hist)
    requires NumbersDiffer(Others(s.disk.tables, s.pc.n) + [File(s.pc.n, s.pc.t)])
    requires Shows(map[], s.flushing, s.shown, want, want)
    ensures Inv(After(s, Rename)) <==> LoadAll(TablesOf(Others(s.disk.tables, s.pc.n) + [File(s.pc.n, s.pc.t)])) == want
  {
    var t := After(s, Rename);
    RenamedDisk(s.disk, s.spec, t.disk, t.spec, want);
    if Base(t.disk) == want { RenamedMem(t, want); }
  }

  lemma RenamedNumbers(fs: seq<File>, n: nat, t: Table)
    requires NumbersDiffer(fs)
    ensures NumbersDiffer(Others(fs, n) + [File(n, t)])
  {
    OthersMembers(fs, n);
    var r := Others(fs, n);
    forall i | 0 <= i < |r| ensures r[i].number != n { assert r[i] in r; }
  }

  lemma LoadTableIff(s: State)
    requires Inv(s) && Can(s, LoadTable)
    ensures Inv(After(s, LoadTable)) <==> Fits(s, LoadTable)
  {
    var ops, want := TableOps(s.pc.t), Fold(s.spec.hist);
    RunIsSeen(s.tree, s.shown, ops);
    LoadIsRun(s.shown, s.pc.t);
    LoadIsOverlay(s.shown, s.pc.t, s.flushing);
    forall k ensures Get(MapRun(s.shown, ops), k) == Get(want, k) == Under(s.flushing, k, Get(want, k)) {
      FlushingIsRest(s, k);
      OverlayLookup(s.flushing, s.shown, k);
    }
    GetExt(MapRun(s.shown, ops), want);
    RestShows(s.flushing, want, want);
    LoadTableParts(s, want);
  }

  lemma LoadedMem(t: State, want: KV)
    requires t.Up? && t.pc == Loaded && t.active == map[] && t.spec.covered == |t.spec.hist| && TreeIs(t.tree, t.shown)
    requires Base(t.disk) == want == Fold(t.spec.hist) && Shows(map[], t.flushing, want, want, want)
    ensures MemInv(t) <==> t.shown == want
  {
    assert t.spec.hist[..Seen(t)] == t.spec.hist;
    MemIs(t, want, want);
  }

  lemma LoadTableParts(s: State, want: KV)
    requires Inv(s) && Can(s, LoadTable) && want == Fold(s.spec.hist) && Shows(map[], s.flushing, want, want, want)
    requires TreeIs(Run(s.tree, TableOps(s.pc.t)), SeenRun(s.tree, s.shown, TableOps(s.pc.t)))
    ensures Inv(After(s, LoadTable)) <==> SeenRun(s.tree, s.shown, TableOps(s.pc.t)) == want
  {
    var t := After(s, LoadTable);
    assert s.spec.hist[..|s.spec.hist|] == s.spec.hist;
    SameDisk(s.disk, s.spec, t.disk, t.spec);
    LoadedMem(t, want);
  }

  lemma DropInv(s: State)
    requires Inv(s) && Can(s, DropFlushing)
    ensures Inv(After(s, DropFlushing))
  {
    var t := After(s, DropFlushing);
    assert s.spec.hist[..|s.spec.hist|] == s.spec.hist && Base(s.disk) == Fold(s.spec.hist);
    forall k ensures ShowsAt(t.active, t.flushing, t.shown, Base(t.disk), Fold(t.spec.hist), k) {}
  }

  lemma EmptyInv(s: State)
    requires Inv(s) && Can(s, EmptyLog)
    ensures Inv(After(s, EmptyLog))
  {
    assert Replayed([]) == s.spec.hist[|s.spec.hist|..];
  }

  /** The two memtables a replay leaves hold the log from the last cut but one on. */
  lemma CutView(ops: seq<Op>, prev: nat, last: nat, k: Bytes, v: Option<Bytes>)
    requires prev <= last <= |ops|
    ensures Under(MemRun(ops[last..]), k, Under(MemRun(ops[prev..last]), k, v)) == Under(MemRun(ops[prev..]), k, v)
    ensures k in MemRun(ops[prev..]) <==> k in MemRun(ops[last..]) || k in MemRun(ops[prev..last])
  {
    assert ops[prev..] == ops[prev..last] + ops[last..];
    MemAppend(ops[prev..last], ops[last..], k);
  }

  /** What the log over the tables gives a key, by the part of the log that has it last. */
  lemma LogView(ops: seq<Op>, n: nat, base: KV, k: Bytes)
    requires n <= |ops|
    ensures Get(Overlay(MemRun(ops), base), k) == Under(MemRun(ops[n..]), k, Under(MemRun(ops[..n]), k, Get(base, k)))
  {
    OverlayLookup(MemRun(ops), base, k);
    assert ops == ops[..n] + ops[n..];
    MemAppend(ops[..n], ops[n..], k);
  }

  lemma OpenAt(d: Disk, order: seq<Table>, prev: nat, last: nat, want: KV, k: Bytes)
    requires prev <= last <= |Replayed(d.area)| && want == Overlay(MemRun(Replayed(d.area)), Base(d))
    ensures var ops := Replayed(d.area);
            ShowsAt(MemRun(ops[last..]), MemRun(ops[prev..last]), SeenLoad(order), Base(d), want, k) <==>
            OpenFitsAt(d, order, MemRun(ops[..prev]), MemRun(ops[prev..]), k)
  {
    var ops := Replayed(d.area);
    CutView(ops, prev, last, k, Get(SeenLoad(order), k));
    LogView(ops, prev, Base(d), k);
  }

  lemma OpenShows(d: Disk, order: seq<Table>, cuts: seq<nat>, want: KV)
    requires PrevCut(cuts) <= LastCut(cuts) <= |Replayed(d.area)| && want == Overlay(MemRun(Replayed(d.area)), Base(d))
    ensures var ops := Replayed(d.area);
            Shows(MemRun(ops[LastCut(cuts)..]), MemRun(ops[PrevCut(cuts)..LastCut(cuts)]), SeenLoad(order), Base(d), want) <==>
            OpenFits(d, order, cuts)
  {
    var ops, prev, last := Replayed(d.area), PrevCut(cuts), LastCut(cuts);
    forall k ensures ShowsAt(MemRun(ops[last..]), MemRun(ops[prev..last]), SeenLoad(order), Base(d), want, k) <==>
                     OpenFitsAt(d, order, MemRun(ops[..prev]), MemRun(ops[prev..]), k)
    {
      OpenAt(d, order, prev, last, want, k);
    }
  }

  lemma OpenIff(s: State, order: seq<Table>, cuts: seq<nat>, full: bool)
    requires Inv(s) && Can(s, Open(order, cuts, full))
    ensures Inv(After(s, Open(order, cuts, full))) <==> Fits(s, Open(order, cuts, full))
  {
    RecoveryIsExact(s.disk, s.spec);
    SeenLoadIs(order);
    OpenShows(s.disk, order, cuts, Fold(s.spec.hist));
    OpenParts(s, order, cuts, full, After(s, Open(order, cuts, full)));
  }

  lemma OpenParts(s: State, order: seq<Table>, cuts: seq<nat>, full: bool, t: State)
    requires Inv(s) && Can(s, Open(order, cuts, full)) && t == After(s, Open(order, cuts, full)) && TreeIs(t.tree, t.shown)
    ensures Inv(t) <==> Shows(t.active, t.flushing, t.shown, Base(s.disk), Fold(s.spec.hist))
  {
    RestingParts(s.disk, s.spec, t);
  }

  /** The guards are exact: a move keeps the invariant if and only if it fits. */
  lemma StepIff(s: State, m: Move)
    requires Inv(s) && Can(s, m)
    ensures Inv(After(s, m)) <==> Fits(s, m)
  {
    match m
    case Log(op, id) => LogIff(s, op, id);
    case Tear(op, id, n) => TearIff(s, op, id, n);
    case Insert(full) => InsertIff(s, full);
    case Rotate(full) => RotateIff(s, full);
    case Rename => RenameIff(s);
    case LoadTable => LoadTableIff(s);
    case DropFlushing => DropInv(s);
    case EmptyLog => EmptyInv(s);
    case Open(order, cuts, full) => OpenIff(s, order, cuts, full);
    case _ => OtherInv(s, m);
  }

  /** Memory and tables as before: only the position of the writer counts. */
  lemma SameMemory(s: State, t: State)
    requires Inv(s) && s.Up? && t.Up? && !s.pc.Logged? && !t.pc.Logged?
    requires t.disk.tables == s.disk.tables && t.disk.area == s.disk.area && t.active == s.active && t.flushing == s.flushing
    requires t.tree == s.tree && t.shown == s.shown && t.spec.hist == s.spec.hist && t.spec.covered == s.spec.covered
    requires t.spec.start == s.spec.start && s.spec.committed <= t.spec.committed <= |t.spec.hist|
    requires PcInv(t.pc, t.active, t.flushing, t.shown, Base(s.disk), t.spec)
    ensures Inv(t)
  {
    SameDisk(s.disk, s.spec, t.disk, t.spec);
    MemIs(t, Base(s.disk), Fold(s.spec.hist[..Seen(s)]));
  }

  lemma OtherInv(s: State, m: Move)
    requires Inv(s) && Can(s, m)
    requires m == Acknowledge || m == TakeNumber || m == StoreNumber || m == BeginTable || m.FinishTable? || m == WriteHead ||
             m.TearHead? || m == Crash
    ensures Inv(After(s, m))
  {
    if m.TearHead? || m == Crash {
      DownInv(s, m);
    } else {
      OtherPc(s, m);
      SameMemory(s, After(s, m));
    }
  }

  lemma DownInv(s: State, m: Move)
    requires Inv(s) && Can(s, m) && (m.TearHead? || m == Crash)
    ensures Inv(After(s, m))
  {
  }

  lemma OtherPc(s: State, m: Move)
    requires Inv(s) && Can(s, m)
    requires m == Acknowledge || m == TakeNumber || m == StoreNumber || m == BeginTable || m.FinishTable? || m == WriteHead
    ensures var t := After(s, m);
            t.Up? && !s.pc.Logged? && !t.pc.Logged? && PcInv(t.pc, t.active, t.flushing, t.shown, Base(s.disk), t.spec)
  {
    if m == Acknowledge || m == WriteHead {
      EndPc(s, m);
    } else {
      FilePc(s, m);
    }
  }

  lemma EndPc(s: State, m: Move)
    requires Inv(s) && Can(s, m) && (m == Acknowledge || m == WriteHead)
    ensures var t := After(s, m);
            t.Up? && !s.pc.Logged? && !t.pc.Logged? && PcInv(t.pc, t.active, t.flushing, t.shown, Base(s.disk), t.spec)
  {
    if m == WriteHead { HeadPc(s); } else { IdlePc(s); }
  }

  lemma IdlePc(s: State)
    requires Inv(s) && Can(s, Acknowledge)
    ensures var t := After(s, Acknowledge);
            t.Up? && !s.pc.Logged? && t.pc == Idle && PcInv(t.pc, t.active, t.flushing, t.shown, Base(s.disk), t.spec)
  {
  }

  lemma HeadPc(s: State)
    requires Inv(s) && Can(s, WriteHead)
    ensures var t := After(s, WriteHead);
            t.Up? && s.pc == Emptied && t.pc == Truncated && PcInv(t.pc, t.active, t.flushing, t.shown, Base(s.disk), t.spec)
  {
    assert Cleaning(Emptied) && Cleaning(Truncated);
  }

  lemma EarlyPc(pc: PC, flushing: Mem, shown: KV, base: KV, p: Spec)
    requires pc.Numbered? || pc.Counted? || pc.Filling? || (pc.Written? && Lists(pc.t, flushing))
    ensures PcInv(pc, map[], flushing, shown, base, p)
  {
  }

  lemma FilePc(s: State, m: Move)
    requires Inv(s) && Can(s, m) && (m == TakeNumber || m == StoreNumber || m == BeginTable || m.FinishTable?)
    ensures var t := After(s, m);
            t.Up? && !s.pc.Logged? && !t.pc.Logged? && PcInv(t.pc, t.active, t.flushing, t.shown, Base(s.disk), t.spec)
  {
    var t := After(s, m);
    assert Flushing(s.pc);
    EarlyPc(t.pc, t.flushing, t.shown, Base(s.disk), t.spec);
  }

  // ---------- Whole runs ----------

  /** One move of a run in which every move fits. */
  ghost predicate Guarded(s: State, m: Move, t: State) {
    Can(s, m) && TreeShaped(s) && Fits(s, m) && t == After(s, m)
  }

  ghost predicate GuardedRun(states: seq<State>, moves: seq<Move>) {
    && |states| == |moves| + 1 && states[0] == Initial()
    && forall i {:trigger GuardedAt(states, moves, i)} :: 0 <= i < |moves| ==> GuardedAt(states, moves, i)
  }

  ghost predicate GuardedAt(states: seq<State>, moves: seq<Move>, i: nat)
    requires i < |moves| && |states| == |moves| + 1
  {
    Guarded(states[i], moves[i], states[i + 1])
  }

  lemma InitInv()
    ensures Inv(Initial())
  {
    var s := Initial();
    assert Replayed([]) == [] && TablesOf([]) == [];
    forall k ensures ShowsAt(s.active, s.flushing, s.shown, Base(s.disk), map[], k) {}
  }

  /** Histories only grow, and so does what is committed. */
  lemma MoveGrows(s: State, m: Move)
    requires Can(s, m) && s.spec.committed <= |s.spec.hist|
    ensures var t := After(s, m); s.spec.hist <= t.spec.hist && s.spec.committed <= t.spec.committed
  {
  }

  lemma GuardedInv(s: State, m: Move, t: State)
    requires Inv(s) && Guarded(s, m, t)
    ensures Inv(t) && s.spec.hist <= t.spec.hist && s.spec.committed <= t.spec.committed
  {
    StepIff(s, m);
    MoveGrows(s, m);
  }

  lemma RunMove(states: seq<State>, moves: seq<Move>, i: nat, s: State, m: Move, t: State)
    requires GuardedRun(states, moves) && i < |moves| && s == states[i] && m == moves[i] && t == states[i + 1]
    ensures Guarded(s, m, t)
  {
    assert GuardedAt(states, moves, i);
  }

  lemma RunKeeps(states: seq<State>, moves: seq<Move>, i: nat, s: State, t: State)
    requires GuardedRun(states, moves) && i < |moves| && s == states[i] && t == states[i + 1] && Inv(s)
    ensures Inv(t) && s.spec.hist <= t.spec.hist && s.spec.committed <= t.spec.committed
  {
    RunMove(states, moves, i, s, moves[i], t);
    GuardedInv(s, moves[i], t);
  }

  lemma {:induction false} RunInv(states: seq<State>, moves: seq<Move>, i: nat)
    requires GuardedRun(states, moves) && i < |states|
    ensures Inv(states[i])
  {
    if i == 0 {
      InitInv();
    } else {
      RunInv(states, moves, i - 1);
      RunKeeps(states, moves, i - 1, states[i - 1], states[i]);
    }
  }

  lemma GrowsOnce(states: seq<State>, moves: seq<Move>, i: nat)
    requires GuardedRun(states, moves) && i < |moves|
    ensures states[i].spec.hist <= states[i + 1].spec.hist && states[i].spec.committed <= states[i + 1].spec.committed
  {
    RunInv(states, moves, i);
    RunKeeps(states, moves, i, states[i], states[i + 1]);
  }

  lemma {:induction false} HistoryGrows(states: seq<State>, moves: seq<Move>, i: nat, j: nat)
    requires GuardedRun(states, moves) && i <= j < |states|
    ensures states[i].spec.hist <= states[j].spec.hist && states[i].spec.committed <= states[j].spec.committed
    decreases j - i
  {
    if i < j {
      HistoryGrows(states, moves, i, j - 1);
      GrowsOnce(states, moves, j - 1);
    }
  }

  /** Crash safety: in every run whose moves fit, a crash after any move j, also inside the write of a record, of the counting
      file or of the log header, leaves on disk the fold of a history that starts with everything committed at any earlier
      point i and has at most one operation beyond what is committed at j; and the running database shows the operations it
      has seen. */
  lemma CrashSafety(states: seq<State>, moves: seq<Move>, i: nat, j: nat, k: Bytes)
    requires GuardedRun(states, moves) && i <= j < |states|
    ensures Recovered(states[j].disk) == Fold(states[j].spec.hist)
    ensures states[i].spec.committed <= |states[i].spec.hist|
    ensures states[i].spec.hist[..states[i].spec.committed] <= states[j].spec.hist
    ensures states[j].spec.committed <= |states[j].spec.hist| <= states[j].spec.committed + 1
    ensures states[j].Up? ==> TreeShaped(states[j]) && View(states[j], k) == Get(Fold(states[j].spec.hist[..Seen(states[j])]), k)
  {
    RunInv(states, moves, i);
    RunInv(states, moves, j);
    HistoryGrows(states, moves, i, j);
    StateIsExact(states[j], k);
  }

  lemma StateIsExact(s: State, k: Bytes)
    requires Inv(s)
    ensures Recovered(s.disk) == Fold(s.spec.hist)
    ensures s.Up? ==> View(s, k) == Get(Fold(s.spec.hist[..Seen(s)]), k)
  {
    RecoveryIsExact(s.disk, s.spec);
    if s.Up? { LiveIsExact(s, k); }
  }

  // ---------- What a whole flush keeps ----------

  ghost predicate Leads(s: State, moves: seq<Move>, u: State)
    decreases |moves|
  {
    if moves == [] then u == s else Can(s, moves[0]) && Leads(After(s, moves[0]), moves[1..], u)
  }

  /** db_flush_memtable, from the rotation of the active memtable to the new log header. */
  function FlushMoves(full: bool, table: Table): (r: seq<Move>) {
    NamingMoves(full) + [BeginTable, FinishTable(table), Rename, LoadTable] + [DropFlushing, EmptyLog, WriteHead]
  }

  function NamingMoves(full: bool): (r: seq<Move>) {
    [Rotate(full), TakeNumber, StoreNumber]
  }

  lemma {:induction false} LeadsSplit(s: State, a: seq<Move>, b: seq<Move>, u: State) returns (t: State)
    requires Leads(s, a + b, u)
    ensures Leads(s, a, t) && Leads(t, b, u)
    decreases |a|
  {
    if a == [] {
      assert a + b == b;
      t := s;
    } else {
      assert (a + b)[0] == a[0] && (a + b)[1..] == a[1..] + b;
      t := LeadsSplit(After(s, a[0]), a[1..], b, u);
    }
  }

  lemma LeadsOne(s: State, m: Move, u: State)
    ensures Leads(s, [m], u) <==> Can(s, m) && u == After(s, m)
  {
    assert [m][1..] == [];
  }

  lemma LeadsFront(s: State, m: Move, rest: seq<Move>, u: State) returns (t: State)
    requires Leads(s, [m] + rest, u)
    ensures Can(s, m) && t == After(s, m) && Leads(t, rest, u)
  {
    assert ([m] + rest)[1..] == rest;
    t := After(s, m);
  }

  /** The rotation, and the number of the table. */
  lemma NamingLeaves(s: State, full: bool, u: State)
    requires Leads(s, NamingMoves(full), u)
    ensures u.Up? && u.pc == Counted(NextNumber(s.disk)) && u.flushing == s.active && u.spec == s.spec
    ensures u.disk.tables == s.disk.tables
  {
    assert NamingMoves(full) == [Rotate(full)] + [TakeNumber, StoreNumber];
    var a := LeadsFront(s, Rotate(full), [TakeNumber, StoreNumber], u);
    assert [TakeNumber, StoreNumber] == [TakeNumber] + [StoreNumber];
    var b := LeadsFront(a, TakeNumber, [StoreNumber], u);
    LeadsOne(b, StoreNumber, u);
  }

  lemma TableLeaves(s: State, table: Table, u: State)
    requires s.Up? && s.pc.Counted? && Leads(s, [BeginTable, FinishTable(table), Rename, LoadTable], u)
    ensures u.Up? && u.pc == Loaded && u.spec == s.spec.(covered := |s.spec.hist|) && Lists(table, s.flushing)
    ensures u.disk.tables == Others(s.disk.tables, s.pc.n) + [File(s.pc.n, table)]
  {
    assert [BeginTable, FinishTable(table), Rename, LoadTable] == [BeginTable] + [FinishTable(table), Rename, LoadTable];
    var a := LeadsFront(s, BeginTable, [FinishTable(table), Rename, LoadTable], u);
    assert [FinishTable(table), Rename, LoadTable] == [FinishTable(table)] + [Rename, LoadTable];
    var b := LeadsFront(a, FinishTable(table), [Rename, LoadTable], u);
    assert [Rename, LoadTable] == [Rename] + [LoadTable];
    var c := LeadsFront(b, Rename, [LoadTable], u);
    LeadsOne(c, LoadTable, u);
  }

  lemma EndLeaves(s: State, u: State)
    requires s.Up? && s.pc == Loaded && Leads(s, [DropFlushing, EmptyLog, WriteHead], u)
    ensures u.Up? && u.disk.tables == s.disk.tables && u.disk.area == [] && u.spec.hist == s.spec.hist
  {
    assert [DropFlushing, EmptyLog, WriteHead] == [DropFlushing] + [EmptyLog, WriteHead];
    var a := LeadsFront(s, DropFlushing, [EmptyLog, WriteHead], u);
    assert [EmptyLog, WriteHead] == [EmptyLog] + [WriteHead];
    var b := LeadsFront(a, EmptyLog, [WriteHead], u);
    LeadsOne(b, WriteHead, u);
  }

  lemma OverlayEmpty(b: KV)
    ensures Overlay(map[], b) == b
  {
  }

  /** What the tables of other numbers hold. */
  function Rest(d: Disk): (m: KV) {
    LoadAll(TablesOf(Others(d.tables, NextNumber(d))))
  }

  /** After a flush the tables alone hold the active memtable over the tables with other numbers; nothing of a memtable that
      was still waiting to be flushed, and nothing of a table that had the number. */
  lemma FlushLeaves(s: State, full: bool, table: Table, u: State)
    requires Leads(s, FlushMoves(full, table), u)
    ensures s.Up? && u.Up? && u.spec.hist == s.spec.hist && Recovered(u.disk) == Overlay(s.active, Rest(s.disk))
  {
    var a := LeadsSplit(s, NamingMoves(full) + [BeginTable, FinishTable(table), Rename, LoadTable], [DropFlushing, EmptyLog, WriteHead], u);
    var b := LeadsSplit(s, NamingMoves(full), [BeginTable, FinishTable(table), Rename, LoadTable], a);
    NamingLeaves(s, full, b);
    TableLeaves(b, table, a);
    EndLeaves(a, u);
    RenamedBase(s.disk.tables, NextNumber(s.disk), table, s.active);
    assert Replayed([]) == [];
    OverlayEmpty(Base(u.disk));
    RotateNeedsUp(s, full, NamingMoves(full), b);
  }

  lemma RotateNeedsUp(s: State, full: bool, moves: seq<Move>, u: State)
    requires moves == NamingMoves(full) && Leads(s, moves, u)
    ensures s.Up?
  {
    assert moves[0] == Rotate(full);
  }

  /** Nothing is lost of a key: the active memtable has it, or the tables with other numbers give it what the waiting entries
      over all tables gave it. */
  ghost predicate StaysAt(active: Mem, waiting: Mem, rest: KV, base: KV, k: Bytes) {
    k in active || Get(rest, k) == Under(waiting, k, Get(base, k))
  }

  /** Whatever waits in memory behind the active memtable: after the flush the disk holds the history exactly when nothing is
      lost of any key. */
  lemma FlushIff(s: State, full: bool, table: Table, u: State, waiting: Mem)
    requires Leads(s, FlushMoves(full, table), u) && s.Up?
    requires forall k {:trigger Get(Fold(s.spec.hist), k)} ::
               Get(Fold(s.spec.hist), k) == Under(s.active, k, Under(waiting, k, Get(Base(s.disk), k)))
    ensures Recovered(u.disk) == Fold(u.spec.hist) <==> forall k :: StaysAt(s.active, waiting, Rest(s.disk), Base(s.disk), k)
  {
    FlushLeaves(s, full, table, u);
    var now, want := Recovered(u.disk), Fold(s.spec.hist);
    forall k ensures Get(now, k) == Get(want, k) <==> StaysAt(s.active, waiting, Rest(s.disk), Base(s.disk), k) {
      OverlayLookup(s.active, Rest(s.disk), k);
      assert Get(want, k) == Under(s.active, k, Under(waiting, k, Get(Base(s.disk), k)));
    }
    if forall k :: StaysAt(s.active, waiting, Rest(s.disk), Base(s.disk), k) {
      forall k ensures Get(now, k) == Get(want, k) { assert StaysAt(s.active, waiting, Rest(s.disk), Base(s.disk), k); }
      GetExt(now, want);
    }
  }

  /** No table has the number that the next flush takes. */
  ghost predicate NumberIsNew(d: Disk) {
    forall i :: 0 <= i < |d.tables| ==> d.tables[i].number != NextNumber(d)
  }

  /** With a new number that is so exactly when the tables have what waits and is not in the active memtable; */
  lemma StaysNewIff(d: Disk, active: Mem, waiting: Mem)
    requires NumberIsNew(d)
    ensures (forall k :: StaysAt(active, waiting, Rest(d), Base(d), k)) <==> Covered(waiting, active, Base(d))
  {
    OthersNone(d.tables, NextNumber(d));
    if Covered(waiting, active, Base(d)) {
      forall k ensures StaysAt(active, waiting, Rest(d), Base(d), k) {}
    }
    if forall k :: StaysAt(active, waiting, Rest(d), Base(d), k) {
      forall k | k in waiting ensures k in active || waiting[k] == Get(Base(d), k) {
        assert StaysAt(active, waiting, Rest(d), Base(d), k);
      }
    }
  }

  /** and when nothing waits, exactly when the table of that number, if there is one, is not needed. */
  lemma StaysAloneIff(d: Disk, active: Mem)
    requires NumbersDiffer(d.tables)
    ensures (forall k :: StaysAt(active, map[], Rest(d), Base(d), k)) <==> Replaceable(d.tables, NextNumber(d), active)
  {
    ReplaceableIff(d.tables, NextNumber(d), active);
    forall k ensures StaysAt(active, map[], Rest(d), Base(d), k) <==> KeptAt(d.tables, NextNumber(d), active, k) {}
  }

  /** The memory of the invariant: what waits is the flushing memtable. */
  lemma WaitingView(s: State, k: Bytes)
    requires Inv(s) && s.Up?
    ensures Get(Fold(s.spec.hist[..Seen(s)]), k) == Under(s.active, k, Under(s.flushing, k, Get(Base(s.disk), k)))
  {
    assert ShowsAt(s.active, s.flushing, s.shown, Base(s.disk), Fold(s.spec.hist[..Seen(s)]), k);
  }

  /** From any state of the invariant, a whole flush leaves the history on disk exactly when its number is new and the tables
      have what the flushing memtable alone has, or, with any number, when nothing is lost of any key. */
  lemma InvFlushIff(s: State, full: bool, table: Table, u: State)
    requires Inv(s) && Leads(s, FlushMoves(full, table), u)
    ensures s.Up?
    ensures Recovered(u.disk) == Fold(u.spec.hist) <==> forall k :: StaysAt(s.active, s.flushing, Rest(s.disk), Base(s.disk), k)
    ensures NumberIsNew(s.disk) ==> (Recovered(u.disk) == Fold(u.spec.hist) <==> Covered(s.flushing, s.active, Base(s.disk)))
    ensures s.flushing == map[] ==>
              (Recovered(u.disk) == Fold(u.spec.hist) <==> Replaceable(s.disk.tables, NextNumber(s.disk), s.active))
  {
    FlushLeaves(s, full, table, u);
    FlushStarts(s, full, table, u);
    assert s.spec.hist[..Seen(s)] == s.spec.hist;
    forall k ensures Get(Fold(s.spec.hist), k) == Under(s.active, k, Under(s.flushing, k, Get(Base(s.disk), k))) { WaitingView(s, k); }
    FlushIff(s, full, table, u, s.flushing);
    if NumberIsNew(s.disk) { StaysNewIff(s.disk, s.active, s.flushing); }
    StaysAloneIff(s.disk, s.active);
  }

  lemma FlushStarts(s: State, full: bool, table: Table, u: State)
    requires Leads(s, FlushMoves(full, table), u)
    ensures s.Up? && (s.pc == Stored || s.pc == Idle)
  {
    assert FlushMoves(full, table)[0] == Rotate(full);
  }

  /** A full memtable is rotated away by an insertion and not flushed: after the flush that follows, under a new number, the
      disk holds the history exactly when every key still in memory before is the inserted one or has its value in the tables
      already. */
  lemma InsertThenFlushIff(s: State, full: bool, more: bool, table: Table, u: State)
    requires Inv(s) && Can(s, Insert(full)) && s.full && NumberIsNew(s.disk)
    requires Leads(After(s, Insert(full)), FlushMoves(more, table), u)
    ensures Recovered(u.disk) == Fold(u.spec.hist) <==>
            Covered(s.flushing + s.active, MemStep(map[], s.pc.op), Base(s.disk))
  {
    var t, h, waiting := After(s, Insert(full)), s.spec.hist, s.flushing + s.active;
    forall k ensures Get(Fold(h), k) == Under(t.active, k, Under(waiting, k, Get(Base(s.disk), k))) { InsertedView(s, k); }
    FlushIff(t, more, table, u, waiting);
    FlushLeaves(t, more, table, u);
    StaysNewIff(s.disk, t.active, waiting);
  }

  lemma InsertedView(s: State, k: Bytes)
    requires Inv(s) && s.Up? && s.pc.Logged?
    ensures Get(Fold(s.spec.hist), k) ==
            Under(MemStep(map[], s.pc.op), k, Under(s.flushing + s.active, k, Get(Base(s.disk), k)))
  {
    var h := s.spec.hist;
    FoldSnoc(h, k);
    assert h[..Seen(s)] == h[..|h| - 1];
    WaitingView(s, k);
  }

  /** A replay that rotates full memtables, and the flush that follows, under a new number: the disk holds the history exactly
      when every key in the part of the log before the last cut is in the rest, or has its value in the tables already. */
  lemma OpenThenFlushIff(s: State, order: seq<Table>, cuts: seq<nat>, full: bool, more: bool, table: Table, u: State)
    requires Inv(s) && Can(s, Open(order, cuts, full)) && NumberIsNew(s.disk)
    requires Leads(After(s, Open(order, cuts, full)), FlushMoves(more, table), u)
    ensures var ops, n := Replayed(s.disk.area), LastCut(cuts);
            Recovered(u.disk) == Fold(u.spec.hist) <==> Covered(MemRun(ops[..n]), MemRun(ops[n..]), Base(s.disk))
  {
    var ops, n := Replayed(s.disk.area), LastCut(cuts);
    forall k ensures Get(Fold(s.spec.hist), k) == Under(MemRun(ops[n..]), k, Under(MemRun(ops[..n]), k, Get(Base(s.disk), k))) {
      RecoveryIsExact(s.disk, s.spec);
      LogView(ops, n, Base(s.disk), k);
    }
    OpenedFlushIff(s.disk, After(s, Open(order, cuts, full)), MemRun(ops[..n]), more, table, u);
  }

  lemma OpenedFlushIff(d: Disk, t: State, dropped: Mem, more: bool, table: Table, u: State)
    requires NumberIsNew(d) && Leads(t, FlushMoves(more, table), u)
    requires t.Up? && t.disk.tables == d.tables && t.disk.counter == d.counter
    requires forall k {:trigger Get(Fold(t.spec.hist), k)} ::
               Get(Fold(t.spec.hist), k) == Under(t.active, k, Under(dropped, k, Get(Base(d), k)))
    ensures Recovered(u.disk) == Fold(u.spec.hist) <==> Covered(dropped, t.active, Base(d))
  {
    SameFiles(t.disk, d);
    FlushIff(t, more, table, u, dropped);
    StaysNewIff(d, t.active, dropped);
  }

  lemma SameFiles(d: Disk, e: Disk)
    requires d.tables == e.tables && d.counter == e.counter
    ensures Base(d) == Base(e) && Rest(d) == Rest(e)
  {
  }

  /** What the running database shows after an insertion into a full memtable, and after a rotation: the history exactly when
      the tree has what the dropped memtable alone has. */
  lemma RotationShowsIff(s: State, full: bool)
    requires Inv(s) && (Can(s, Insert(full)) ==> s.full) && (Can(s, Insert(full)) || Can(s, Rotate(full)))
    ensures TreeShaped(s)
    ensures var m := if Can(s, Insert(full)) then Insert(full) else Rotate(full);
            TreeShaped(After(s, m)) &&
            ((forall k {:trigger View(After(s, m), k)} :: View(After(s, m), k) == Get(Fold(s.spec.hist), k)) <==>
             Harmless(s.flushing, if Can(s, Insert(full)) then MemStep(s.active, s.pc.op) else s.active, s.tree))
  {
    if Can(s, Insert(full)) {
      InsertShowsIff(s, full, After(s, Insert(full)));
    } else {
      RotateShowsIff(s, full, After(s, Rotate(full)));
    }
  }

  lemma InsertShowsIff(s: State, full: bool, t: State)
    requires Inv(s) && Can(s, Insert(full)) && s.full && t == After(s, Insert(full))
    ensures TreeShaped(s) && TreeShaped(t)
    ensures (forall k {:trigger View(t, k)} :: View(t, k) == Get(Fold(s.spec.hist), k)) <==>
            Harmless(s.flushing, MemStep(s.active, s.pc.op), s.tree)
  {
    forall k ensures View(t, k) == Get(Fold(s.spec.hist), k) <==>
                     (k in s.flushing ==> k in MemStep(s.active, s.pc.op) || s.flushing[k] == Lookup(s.tree, k))
    {
      InsertViewAt(s, full, t, k);
    }
    ViewsIff(t, Fold(s.spec.hist), s.flushing, MemStep(s.active, s.pc.op), s.tree);
  }

  lemma InsertViewAt(s: State, full: bool, t: State, k: Bytes)
    requires Inv(s) && Can(s, Insert(full)) && s.full && t == After(s, Insert(full))
    ensures View(t, k) == Get(Fold(s.spec.hist), k) <==>
            (k in s.flushing ==> k in MemStep(s.active, s.pc.op) || s.flushing[k] == Lookup(s.tree, k))
  {
    var h := s.spec.hist;
    FoldSnoc(h, k);
    assert h[..Seen(s)] == h[..|h| - 1];
    LiveIsExact(s, k);
  }

  lemma ViewsIff(t: State, want: KV, dropped: Mem, newer: Mem, tree: Root)
    requires t.Up? && TreeShaped(t) && BTree.Shape(tree.tree, tree.depth)
    requires forall k {:trigger View(t, k)} ::
               View(t, k) == Get(want, k) <==> (k in dropped ==> k in newer || dropped[k] == Lookup(tree, k))
    ensures (forall k {:trigger View(t, k)} :: View(t, k) == Get(want, k)) <==> Harmless(dropped, newer, tree)
  {
    if forall k {:trigger View(t, k)} :: View(t, k) == Get(want, k) {
      forall k | k in dropped ensures k in newer || dropped[k] == Lookup(tree, k) { assert View(t, k) == Get(want, k); }
    }
    if Harmless(dropped, newer, tree) {
      forall k ensures View(t, k) == Get(want, k) { assert Lookup(tree, k) == Lookup(tree, k); }
    }
  }

  lemma RotateShowsIff(s: State, full: bool, t: State)
    requires Inv(s) && Can(s, Rotate(full)) && t == After(s, Rotate(full))
    ensures TreeShaped(s) && TreeShaped(t)
    ensures (forall k {:trigger View(t, k)} :: View(t, k) == Get(Fold(s.spec.hist), k)) <==> Harmless(s.flushing, s.active, s.tree)
  {
    var h := s.spec.hist;
    forall k ensures View(t, k) == Get(Fold(h), k) <==> (k in s.flushing ==> k in s.active || s.flushing[k] == Lookup(s.tree, k)) {
      assert h[..Seen(s)] == h;
      LiveIsExact(s, k);
    }
    ViewsIff(t, Fold(h), s.flushing, s.active, s.tree);
  }

  // ---------- The log header ----------

  /** The bytes of the log file; `cut` is the number in a header that was cut off. */
  function LogBytes(d: Disk, cut: nat): (b: Bytes)
    requires d.head.Stub? ==> d.head.n < HEAD_SIZE
  {
    if d.head.Whole? then Wal.Header(d.head.seqno) + d.area else Wal.Header(cut)[..d.head.n] + d.area
  }

  /** wal_create takes the file exactly when its header is whole or it is empty. */
  lemma OpensIff(d: Disk, cut: nat)
    requires if d.head.Whole? then d.head.seqno < U64 else d.head.n < HEAD_SIZE && d.area == []
    ensures Opens(d.head) <==> LogBytes(d, cut) == [] || Wal.HeaderOk(LogBytes(d, cut))
  {
    if d.head.Whole? { Wal.HeaderWritten(d.head.seqno, d.area); }
  }

  /** After a crash inside the rewriting of the header everything is on disk, but the database never opens again. */
  lemma TornHeadIsForever(s: State, n: nat, m: Move)
    requires Inv(s) && Can(s, TearHead(n))
    ensures var t := After(s, TearHead(n)); Recovered(t.disk) == Fold(t.spec.hist) && !Can(t, m)
  {
    DownInv(s, TearHead(n));
    var t := After(s, TearHead(n));
    RecoveryIsExact(t.disk, t.spec);
  }

  // ---------- Reading ----------

  /** lsm_get and then btree_get (src/storage/lsm.c:294-313, src/core/db.c:904-924): a tombstone in a
      memtable does not stop the search. */
  function DbGet(s: State, k: Bytes): Option<Bytes>
    requires s.Up? && BTree.Shape(s.tree.tree, s.tree.depth)
  {
    if k in s.active && s.active[k] != None then s.active[k]
    else if k !in s.active && k in s.flushing && s.flushing[k] != None then s.flushing[k]
    else Lookup(s.tree, k)
  }

  predicate Tombstoned(s: State, k: Bytes)
    requires s.Up?
  {
    (k in s.active && s.active[k] == None) || (k !in s.active && k in s.flushing && s.flushing[k] == None)
  }

  /** db_get reads what the operations so far leave exactly when no memtable tombstone hides a key of the tree. */
  lemma DbGetIff(s: State, k: Bytes)
    requires Inv(s) && s.Up?
    ensures DbGet(s, k) == Get(Fold(s.spec.hist[..Seen(s)]), k) <==> !(Tombstoned(s, k) && Lookup(s.tree, k).Some?)
  {
    LiveIsExact(s, k);
  }

  // ---------- The memtable of src/storage/lsm.c ----------

  /** The contents of a skip list as the machine sees them. */
  function ViewOf(model: map<Bytes, SkipList.Entry>): Mem {
    map k | k in model :: if model[k].deleted then None else Some(model[k].val)
  }

  /** What Memtable.Put and Memtable.Delete do to their model is one step of the machine's memtable. */
  lemma SkipListSteps(model: map<Bytes, SkipList.Entry>, key: Bytes, val: Bytes, seqno: nat)
    ensures ViewOf(model[key := SkipList.Entry(seqno, val, false)]) == MemStep(ViewOf(model), PutOp(key, val))
    ensures ViewOf(model[key := SkipList.Entry(seqno, [], true)]) == MemStep(ViewOf(model), DeleteOp(key))
  {
  }

  function FlushEntry(e: (Bytes, SkipList.Entry)): (Bytes, Option<Bytes>) {
    (e.0, if e.1.deleted then None else Some(e.1.val))
  }

  /** The listing of Memtable.Iterate, written by flush_write_cb, is the table of its contents. */
  lemma SkipListFlush(model: map<Bytes, SkipList.Entry>, out: seq<(Bytes, SkipList.Entry)>)
    requires forall i, j :: 0 <= i < j < |out| ==> Rank(out[i].0) < Rank(out[j].0)
    requires forall i :: 0 <= i < |out| ==> out[i].0 in model && model[out[i].0] == out[i].1
    requires forall k :: k in model ==> (k, model[k]) in out
    ensures Lists(seq(|out|, i requires 0 <= i < |out| => FlushEntry(out[i])), ViewOf(model))
  {
    var t: Table := seq(|out|, i requires 0 <= i < |out| => FlushEntry(out[i]));
    forall k | k in ViewOf(model) ensures (k, ViewOf(model)[k]) in t {
      var i :| 0 <= i < |out| && out[i] == (k, model[k]);
      assert t[i] == (k, ViewOf(model)[k]);
    }
  }
}
