/** The shared mapped log: one writer, any number of readers, every interleaving
    (src/storage/wal_mmap.c:82-138).

    The writer copies the bytes of a record behind the published part, in any order, and then
    publishes the new write position. A reader first loads the write position and then reads the
    bytes of one record one by one, in any order within its fixed part and then within the rest;
    between any two bytes the writer and the other readers may move. Offsets count from the end
    of the 64-byte header. */
module WalMmap {
  import opened Keys
  import opened Records

  /** What a reader reports: a delete carries no value length (src/storage/wal_mmap.c:127-134). */
  function Report(r: Record): Delivery {
    Delivery(r.seqno, r.delete, r.table, r.key, if r.delete then [] else r.val, if r.delete then 0 else |r.val|)
  }

  /** wal_mmap_read_entry on the bytes from its position up to the loaded write position. */
  datatype Read = Entry(d: Delivery, size: nat) | Nothing

  function ReadEntry(b: Bytes, limit: nat): Read {
    if limit < FIXED || |b| < FIXED then Nothing
    else
      var put := b[8] == 0;
      var kl, vl := FromLE(b[17..25]), FromLE(b[25..33]);
      var size := FIXED + kl + if put then vl else 0;
      if |b| < size then Nothing
      else Entry(Delivery(FromLE(b[0..8]), !put, FromLE(b[9..17]), b[FIXED..FIXED + kl],
                          if put then b[FIXED + kl..size] else [], if put then vl else 0), size)
  }

  lemma ReadWhole(b: Bytes, r: Record, rest: Bytes, limit: nat)
    requires Fits64(r) && limit >= |Encode(r)| && b == Encode(r) + rest
    ensures ReadEntry(b, limit) == Entry(Report(r), |Encode(r)|)
  {
    assert b[..FIXED] == Head(r);
    HeadFields(r, b);
    assert b[FIXED..FIXED + |r.key|] == r.key;
    if !r.delete {
      assert b[FIXED + |r.key|..|Encode(r)|] == r.val;
    }
  }

  // ---------- The protocol ----------

  datatype Writer = Resting | Copying(r: Record, done: set<nat>)

  /** Between two entries, or gathering the bytes of one below the loaded write position. */
  datatype Phase = Ready | Reading(limit: nat, got: map<nat, Byte>)

  /** A reader: its position, what it has delivered, and, for the specification, how many records
      that is and how many its loaded position covers. */
  datatype Reader = Reader(pos: nat, phase: Phase, delivered: seq<Delivery>, count: nat, covered: nat)

  datatype State = State(data: Bytes, writePos: nat, writer: Writer, readers: seq<Reader>, log: seq<Record>)

  ghost predicate StartAppend(s: State, t: State, r: Record) {
    && s.writer == Resting && Fits64(r) && s.writePos + |Encode(r)| <= |s.data|
    && t == s.(writer := Copying(r, {}))
  }

  ghost predicate CopyByte(s: State, t: State, i: nat) {
    && s.writer.Copying? && i < |Encode(s.writer.r)| && s.writePos + i < |s.data|
    && t == s.(data := s.data[s.writePos + i := Encode(s.writer.r)[i]], writer := s.writer.(done := s.writer.done + {i}))
  }

  ghost predicate Publish(s: State, t: State) {
    && s.writer.Copying? && (forall i :: 0 <= i < |Encode(s.writer.r)| ==> i in s.writer.done)
    && t == s.(writePos := s.writePos + |Encode(s.writer.r)|, writer := Resting, log := s.log + [s.writer.r])
  }

  ghost predicate LoadPos(s: State, t: State, j: nat) {
    && j < |s.readers| && s.readers[j].phase == Ready
    && t == s.(readers := s.readers[j := s.readers[j].(phase := Reading(s.writePos, map[]), covered := |s.log|)])
  }

  ghost predicate Has(got: map<nat, Byte>, n: nat) {
    forall i :: 0 <= i < n ==> i in got
  }

  function Gathered(got: map<nat, Byte>, n: nat): (b: Bytes)
    requires forall i :: 0 <= i < n ==> i in got
    ensures |b| == n && forall i :: 0 <= i < n ==> b[i] == got[i]
  {
    seq<Byte>(n, i requires 0 <= i < n => got[i])
  }

  /** The size of the entry with this fixed part. */
  function SizeOf(head: Bytes): (n: nat)
    requires |head| == FIXED
  {
    FIXED + FromLE(head[17..25]) + if head[8] == 0 then FromLE(head[25..33]) else 0
  }

  /** Nothing to read: too few bytes up to the loaded position (src/storage/wal_mmap.c:105-109). */
  predicate NoEntry(rd: Reader) {
    rd.phase.Reading? && (rd.pos >= rd.phase.limit || rd.phase.limit - rd.pos < FIXED)
  }

  ghost predicate GiveUp(s: State, t: State, j: nat) {
    && j < |s.readers| && NoEntry(s.readers[j])
    && t == s.(readers := s.readers[j := s.readers[j].(phase := Ready)])
  }

  /** Byte i of the entry: of its fixed part, or of the rest once the fixed part is read. */
  ghost predicate ReadByte(s: State, t: State, j: nat, i: nat) {
    && j < |s.readers| && s.readers[j].phase.Reading? && !NoEntry(s.readers[j])
    && var rd := s.readers[j];
    && (i < FIXED || (Has(rd.phase.got, FIXED) && i < SizeOf(Gathered(rd.phase.got, FIXED))))
    && rd.pos + i < |s.data|
    && t == s.(readers := s.readers[j := rd.(phase := Reading(rd.phase.limit, rd.phase.got[i := s.data[rd.pos + i]]))])
  }

  ghost predicate Complete(rd: Reader) {
    && rd.phase.Reading? && !NoEntry(rd) && Has(rd.phase.got, FIXED)
    && Has(rd.phase.got, SizeOf(Gathered(rd.phase.got, FIXED)))
  }

  /** The entry made of the gathered bytes. */
  ghost function Result(rd: Reader): (r: Read)
    requires Complete(rd)
  {
    ReadEntry(Gathered(rd.phase.got, SizeOf(Gathered(rd.phase.got, FIXED))), rd.phase.limit - rd.pos)
  }

  ghost predicate Deliver(s: State, t: State, j: nat) {
    && j < |s.readers| && Complete(s.readers[j])
    && var rd := s.readers[j];
    && t == s.(readers := s.readers[j := match Result(rd)
                                         case Nothing => rd.(phase := Ready)
                                         case Entry(d, size) => Reader(rd.pos + size, Ready, rd.delivered + [d], rd.count + 1, rd.covered)])
  }

  ghost predicate Next(s: State, t: State) {
    || (exists r :: StartAppend(s, t, r)) || (exists i :: CopyByte(s, t, i)) || Publish(s, t)
    || (exists j :: LoadPos(s, t, j)) || (exists j :: GiveUp(s, t, j)) || (exists j, i :: ReadByte(s, t, j, i))
    || (exists j :: Deliver(s, t, j))
  }

  ghost predicate Init(s: State) {
    && s.writePos == 0 && s.writer == Resting && s.log == []
    && forall j :: 0 <= j < |s.readers| ==> s.readers[j] == Reader(0, Ready, [], 0, 0)
  }

  // ---------- The invariant ----------

  function Reports(rs: seq<Record>): (ds: seq<Delivery>)
    ensures |ds| == |rs| && forall i :: 0 <= i < |rs| ==> ds[i] == Report(rs[i])
  {
    seq(|rs|, i requires 0 <= i < |rs| => Report(rs[i]))
  }

  /** The bytes of the record being copied are in place as far as they are copied. */
  ghost predicate WriterInv(s: State) {
    match s.writer
    case Resting => true
    case Copying(r, done) =>
      && Fits64(r) && s.writePos + |Encode(r)| <= |s.data|
      && forall i :: 0 <= i < |Encode(r)| && i in done ==> s.data[s.writePos + i] == Encode(r)[i]
  }

  ghost predicate ReaderInv(rd: Reader, log: seq<Record>) {
    && rd.count <= |log| && rd.pos == |EncodeAll(log[..rd.count])| && rd.delivered == Reports(log[..rd.count])
    && rd.covered <= |log|
    && (rd.phase.Reading? ==> rd.phase.limit == |EncodeAll(log[..rd.covered])| && rd.count <= rd.covered && GotInv(rd.phase.got, rd.count, rd.covered, log))
  }

  /** The bytes gathered so far are those of the next record. */
  ghost predicate GotInv(got: map<nat, Byte>, count: nat, covered: nat, log: seq<Record>) {
    && (got != map[] ==> count < covered <= |log|)
    && (count < covered <= |log| ==> forall i :: i in got ==> i < |Encode(log[count])| && got[i] == Encode(log[count])[i])
  }

  ghost predicate Published(s: State) {
    && s.writePos <= |s.data| && s.data[..s.writePos] == EncodeAll(s.log)
    && forall i :: 0 <= i < |s.log| ==> Fits64(s.log[i])
  }

  ghost predicate Inv(s: State) {
    Published(s) && WriterInv(s) && forall j :: 0 <= j < |s.readers| ==> ReaderInv(s.readers[j], s.log)
  }

  lemma CopyInv(s: State, t: State, i: nat)
    requires Inv(s) && CopyByte(s, t, i)
    ensures Inv(t)
  {
    assert t.data[..t.writePos] == s.data[..s.writePos];
  }

  lemma EncodeSnoc(rs: seq<Record>, r: Record)
    ensures EncodeAll(rs + [r]) == EncodeAll(rs) + Encode(r)
  {
    assert (rs + [r])[..|rs + [r]| - 1] == rs;
  }

  lemma ReaderKeeps(rd: Reader, log: seq<Record>, r: Record)
    requires ReaderInv(rd, log)
    ensures ReaderInv(rd, log + [r])
  {
    assert (log + [r])[..rd.count] == log[..rd.count];
    assert (log + [r])[..rd.covered] == log[..rd.covered];
    if rd.phase.Reading? && rd.count < rd.covered { assert (log + [r])[rd.count] == log[rd.count]; }
  }

  lemma PublishInv(s: State, t: State)
    requires Inv(s) && Publish(s, t)
    ensures Inv(t)
  {
    var r := s.writer.r;
    EncodeSnoc(s.log, r);
    assert t.data[..t.writePos] == s.data[..s.writePos] + Encode(r);
    forall j | 0 <= j < |t.readers| ensures ReaderInv(t.readers[j], t.log) {
      ReaderKeeps(s.readers[j], s.log, r);
    }
  }

  lemma LoadInv(s: State, t: State, j: nat)
    requires Inv(s) && LoadPos(s, t, j)
    ensures Inv(t)
  {
    assert s.log[..|s.log|] == s.log;
    assert ReaderInv(s.readers[j], s.log);
    OneReaderMoves(s, t, j, s.readers[j].(phase := Reading(s.writePos, map[]), covered := |s.log|));
  }

  lemma OneReaderMoves(s: State, t: State, j: nat, rd: Reader)
    requires Inv(s) && j < |s.readers| && t == s.(readers := s.readers[j := rd]) && ReaderInv(rd, s.log)
    ensures Inv(t)
  {
    forall i | 0 <= i < |t.readers| ensures ReaderInv(t.readers[i], t.log) {
      assert i != j ==> t.readers[i] == s.readers[i];
    }
  }

  /** Every record has at least its fixed part, so positions tell counts. */
  lemma {:induction false} LongerIsMore(log: seq<Record>, a: nat, b: nat)
    requires a < b <= |log|
    ensures |EncodeAll(log[..a])| + FIXED <= |EncodeAll(log[..b])|
    decreases b - a
  {
    assert log[..b] == log[..b - 1] + [log[b - 1]];
    EncodeSnoc(log[..b - 1], log[b - 1]);
    if a < b - 1 {
      LongerIsMore(log, a, b - 1);
    }
  }

  lemma Window(data: Bytes, w: nat, a: Bytes, e: Bytes, b: Bytes)
    requires w <= |data| && data[..w] == a + e + b
    ensures |a| + |e| <= w && data[|a|..] == e + data[|a| + |e|..]
  {
    assert |data[..w]| == |a| + |e| + |b|;
    forall i | 0 <= i < |e| ensures data[|a| + i] == e[i] {
      assert data[..w][|a| + i] == (a + e + b)[|a| + i];
    }
  }

  /** At a reader's position the published bytes hold exactly the next record. */
  lemma AtPosition(s: State, c: nat)
    requires Published(s) && c < |s.log|
    ensures var p, e := |EncodeAll(s.log[..c])|, Encode(s.log[c]);
            p + |e| <= s.writePos && s.data[p..] == e + s.data[p + |e|..] && |EncodeAll(s.log[..c + 1])| == p + |e|
  {
    assert s.log[..c + 1] == s.log[..c] + [s.log[c]];
    EncodeSnoc(s.log[..c], s.log[c]);
    assert s.log == s.log[..c + 1] + s.log[c + 1..];
    EncodeAllAppend(s.log[..c + 1], s.log[c + 1..]);
    Window(s.data, s.writePos, EncodeAll(s.log[..c]), Encode(s.log[c]), EncodeAll(s.log[c + 1..]));
  }

  lemma Monotone(log: seq<Record>, a: nat, b: nat)
    requires a <= b <= |log|
    ensures |EncodeAll(log[..a])| <= |EncodeAll(log[..b])|
  {
    if a < b {
      LongerIsMore(log, a, b);
    }
  }

  lemma LimitCovers(s: State, c: nat, m: nat)
    requires Published(s) && c < m <= |s.log|
    ensures |EncodeAll(s.log[..c + 1])| <= |EncodeAll(s.log[..m])| <= s.writePos
  {
    Monotone(s.log, c + 1, m);
    Monotone(s.log, m, |s.log|);
    assert s.log[..|s.log|] == s.log;
  }

  /** A reader has an entry to read exactly when its position is behind the loaded one. */
  lemma NoEntryIff(rd: Reader, log: seq<Record>)
    requires ReaderInv(rd, log) && rd.phase.Reading?
    ensures NoEntry(rd) <==> rd.count == rd.covered
  {
    if rd.count < rd.covered { LongerIsMore(log, rd.count, rd.covered); }
  }

  /** The fixed part, gathered, tells the size of the record. */
  lemma GatheredSize(got: map<nat, Byte>, r: Record)
    requires Fits64(r) && Has(got, FIXED) && forall i :: i in got ==> i < |Encode(r)| && got[i] == Encode(r)[i]
    ensures SizeOf(Gathered(got, FIXED)) == |Encode(r)|
  {
    var h := Gathered(got, FIXED);
    assert h == Head(r) by { assert Encode(r)[..FIXED] == Head(r); }
    assert h[..FIXED] == Head(r);
    HeadFields(r, h);
  }

  /** A reader that has gathered an entry has exactly the next record: never a torn one, none skipped, none twice. */
  lemma ReadNext(s: State, j: nat)
    requires Inv(s) && j < |s.readers| && Complete(s.readers[j])
    ensures var rd := s.readers[j];
            rd.count < |s.log| && Result(rd) == Entry(Report(s.log[rd.count]), |Encode(s.log[rd.count])|)
  {
    var rd := s.readers[j];
    assert ReaderInv(rd, s.log);
    NoEntryIff(rd, s.log);
    GatheredEntry(rd, s.log[rd.count]);
    LimitCovers(s, rd.count, rd.covered);
    assert s.log[..rd.count + 1] == s.log[..rd.count] + [s.log[rd.count]];
    EncodeSnoc(s.log[..rd.count], s.log[rd.count]);
  }

  lemma GatheredEntry(rd: Reader, r: Record)
    requires Complete(rd) && Fits64(r) && forall i :: i in rd.phase.got ==> i < |Encode(r)| && rd.phase.got[i] == Encode(r)[i]
    ensures rd.phase.limit - rd.pos >= |Encode(r)| ==> Result(rd) == Entry(Report(r), |Encode(r)|)
  {
    var e := Encode(r);
    GatheredSize(rd.phase.got, r);
    var b := Gathered(rd.phase.got, |e|);
    assert b == e && b == e + [];
    if rd.phase.limit - rd.pos >= |e| { ReadWhole(b, r, [], rd.phase.limit - rd.pos); }
  }

  /** A byte read below the loaded position is a byte of the next record, whatever the writer does. */
  lemma ByteIs(s: State, rd: Reader, i: nat)
    requires Published(s) && ReaderInv(rd, s.log) && rd.phase.Reading? && rd.count < rd.covered && i < |Encode(s.log[rd.count])|
    ensures rd.pos + i < |s.data| && s.data[rd.pos + i] == Encode(s.log[rd.count])[i]
  {
    AtPosition(s, rd.count);
    var e := Encode(s.log[rd.count]);
    assert s.data[rd.pos..][i] == (e + s.data[rd.pos + |e|..])[i];
  }

  lemma ByteInv(s: State, t: State, j: nat, i: nat)
    requires Inv(s) && ReadByte(s, t, j, i)
    ensures Inv(t)
  {
    var rd := s.readers[j];
    assert ReaderInv(rd, s.log);
    NoEntryIff(rd, s.log);
    var r := s.log[rd.count];
    if i >= FIXED { GatheredSize(rd.phase.got, r); }
    ByteIs(s, rd, i);
    OneReaderMoves(s, t, j, t.readers[j]);
  }

  /** A reader that does not give up can always go on: it has gathered its entry, or there is a byte it may read. */
  lemma ReaderGoesOn(s: State, j: nat) returns (t: State, i: nat)
    requires Inv(s) && j < |s.readers| && s.readers[j].phase.Reading? && !NoEntry(s.readers[j]) && !Complete(s.readers[j])
    ensures ReadByte(s, t, j, i) && i !in s.readers[j].phase.got
  {
    var rd := s.readers[j];
    assert ReaderInv(rd, s.log);
    NoEntryIff(rd, s.log);
    if !Has(rd.phase.got, FIXED) {
      i :| 0 <= i < FIXED && i !in rd.phase.got;
    } else {
      GatheredSize(rd.phase.got, s.log[rd.count]);
      i :| 0 <= i < SizeOf(Gathered(rd.phase.got, FIXED)) && i !in rd.phase.got;
    }
    ByteIs(s, rd, i);
    t := s.(readers := s.readers[j := rd.(phase := Reading(rd.phase.limit, rd.phase.got[i := s.data[rd.pos + i]]))]);
  }

  lemma DeliverKeeps(rd: Reader, log: seq<Record>)
    requires ReaderInv(rd, log) && rd.count < rd.covered
    ensures ReaderInv(Reader(rd.pos + |Encode(log[rd.count])|, Ready, rd.delivered + [Report(log[rd.count])], rd.count + 1, rd.covered), log)
  {
    assert log[..rd.count + 1] == log[..rd.count] + [log[rd.count]];
    EncodeSnoc(log[..rd.count], log[rd.count]);
    assert Reports(log[..rd.count + 1]) == Reports(log[..rd.count]) + [Report(log[rd.count])];
  }

  lemma DeliverInv(s: State, t: State, j: nat)
    requires Inv(s) && Deliver(s, t, j)
    ensures Inv(t)
  {
    var rd := s.readers[j];
    assert ReaderInv(rd, s.log);
    NoEntryIff(rd, s.log);
    ReadNext(s, j);
    DeliverKeeps(rd, s.log);
    OneReaderMoves(s, t, j, t.readers[j]);
  }

  lemma GiveUpInv(s: State, t: State, j: nat)
    requires Inv(s) && GiveUp(s, t, j)
    ensures Inv(t)
  {
    assert ReaderInv(s.readers[j], s.log);
    OneReaderMoves(s, t, j, t.readers[j]);
  }

  lemma StepInv(s: State, t: State)
    requires Inv(s) && Next(s, t)
    ensures Inv(t)
  {
    if r :| StartAppend(s, t, r) {
    } else if i :| CopyByte(s, t, i) {
      CopyInv(s, t, i);
    } else if Publish(s, t) {
      PublishInv(s, t);
    } else if j :| LoadPos(s, t, j) {
      LoadInv(s, t, j);
    } else if j :| GiveUp(s, t, j) {
      GiveUpInv(s, t, j);
    } else if j, i :| ReadByte(s, t, j, i) {
      ByteInv(s, t, j, i);
    } else if j :| Deliver(s, t, j) {
      DeliverInv(s, t, j);
    }
  }

  /** Published bytes never change. */
  lemma PublishedStay(s: State, t: State)
    requires Inv(s) && Next(s, t)
    ensures s.writePos <= t.writePos && s.writePos <= |t.data| && t.data[..s.writePos] == s.data[..s.writePos]
  {
  }

  // ---------- Whole runs ----------

  ghost predicate Run(states: seq<State>) {
    && states != [] && Init(states[0])
    && forall i {:trigger RunStep(states, i)} :: 0 <= i < |states| - 1 ==> RunStep(states, i)
  }

  ghost predicate RunStep(states: seq<State>, i: nat)
    requires i + 1 < |states|
  {
    Next(states[i], states[i + 1])
  }

  lemma {:induction false} RunInv(states: seq<State>, i: nat)
    requires Run(states) && i < |states|
    ensures Inv(states[i])
  {
    if i > 0 {
      RunInv(states, i - 1);
      assert RunStep(states, i - 1);
      StepInv(states[i - 1], states[i]);
    } else {
      assert states[0].data[..0] == [] && states[0].log[..0] == [];
    }
  }

  /** Under every interleaving, what a reader has delivered is a prefix of the appended records. */
  lemma DeliveredIsPrefix(states: seq<State>, i: nat, j: nat)
    requires Run(states) && i < |states| && j < |states[i].readers|
    ensures states[i].readers[j].delivered <= Reports(states[i].log)
  {
    RunInv(states, i);
    var s := states[i];
    var rd := s.readers[j];
    assert ReaderInv(rd, s.log);
    assert Reports(s.log[..rd.count]) == Reports(s.log)[..rd.count];
  }

  /** A reader that finds nothing more after loading the current write position has delivered everything. */
  lemma DrainedHasAll(states: seq<State>, i: nat, j: nat)
    requires Run(states) && i < |states| && j < |states[i].readers|
    requires var s, rd := states[i], states[i].readers[j]; NoEntry(rd) && rd.phase.limit == s.writePos
    ensures states[i].readers[j].delivered == Reports(states[i].log)
  {
    RunInv(states, i);
    var s := states[i];
    var rd := s.readers[j];
    assert ReaderInv(rd, s.log);
    assert s.log[..|s.log|] == s.log;
    NoEntryIff(rd, s.log);
    if rd.covered < |s.log| {
      LongerIsMore(s.log, rd.covered, |s.log|);
      assert false;
    }
  }
}
