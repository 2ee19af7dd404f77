/**
 * Nobody waits in the shared mapped log (src/storage/wal_mmap.c:82-138): from any state a run may reach, the writer alone
 * can append a record that fits, and every reader alone can catch up with all that is published, whatever the writer is
 * copying and wherever the other readers are.
 */
module MmapRuns {
  import opened Keys
  import opened Records
  import opened WalMmap

  /** One step after the other, from any state. */
  ghost predicate Path(states: seq<State>) {
    states != [] && forall i {:trigger RunStep(states, i)} :: 0 <= i < |states| - 1 ==> RunStep(states, i)
  }

  lemma PathStep(states: seq<State>, t: State)
    requires Path(states) && Next(states[|states| - 1], t)
    ensures Path(states + [t])
  {
    var now := states + [t];
    forall i {:trigger RunStep(now, i)} | 0 <= i < |now| - 1 ensures RunStep(now, i) {
      if i < |states| - 1 { assert RunStep(states, i); }
    }
  }

  lemma {:induction false} PathInv(states: seq<State>)
    requires Path(states) && Inv(states[0])
    ensures Inv(states[|states| - 1])
  {
    if |states| > 1 {
      var n := |states| - 1;
      var init := states[..n];
      forall i {:trigger RunStep(init, i)} | 0 <= i < |init| - 1 ensures RunStep(init, i) { assert RunStep(states, i); }
      PathInv(init);
      assert RunStep(states, n - 1);
      StepInv(states[n - 1], states[n]);
    }
  }

  lemma PathJoin(a: seq<State>, b: seq<State>)
    requires Path(a) && Path(b) && a[|a| - 1] == b[0]
    ensures Path(a + b[1..]) && (a + b[1..])[0] == a[0] && (a + b[1..])[|a + b[1..]| - 1] == b[|b| - 1]
  {
    var now := a + b[1..];
    forall i {:trigger RunStep(now, i)} | 0 <= i < |now| - 1 ensures RunStep(now, i) {
      if i < |a| - 1 { assert RunStep(a, i); } else { assert RunStep(b, i - (|a| - 1)); }
    }
  }

  // ---------- The writer ----------

  ghost function Upto(n: nat): (r: set<nat>)
    ensures forall i: nat :: i in r <==> i < n
  {
    if n == 0 then {} else Upto(n - 1) + {n - 1}
  }

  /** The first n bytes of the record are in place. */
  ghost function Copied(s: State, r: Record, n: nat): (t: State)
    requires n <= |Encode(r)| && s.writePos + |Encode(r)| <= |s.data|
  {
    s.(data := s.data[..s.writePos] + Encode(r)[..n] + s.data[s.writePos + n..], writer := Copying(r, Upto(n)))
  }

  /** The record stands behind what was published, and is published, too; nothing else has changed. */
  ghost function Appended(s: State, r: Record): (t: State)
    requires s.writePos + |Encode(r)| <= |s.data|
  {
    s.(data := s.data[..s.writePos] + Encode(r) + s.data[s.writePos + |Encode(r)|..],
       writePos := s.writePos + |Encode(r)|, writer := Resting, log := s.log + [r])
  }

  lemma CopyOne(s: State, r: Record, n: nat)
    requires n < |Encode(r)| && s.writePos + |Encode(r)| <= |s.data|
    ensures Next(Copied(s, r, n), Copied(s, r, n + 1))
  {
    var a, b, w, e := Copied(s, r, n), Copied(s, r, n + 1), s.writePos, Encode(r);
    assert b.data == a.data[w + n := e[n]];
    assert b.writer.done == a.writer.done + {n};
    assert CopyByte(a, b, n);
  }

  /** A resting writer can append a record that fits, with the readers standing still. */
  lemma AppendCompletes(s: State, r: Record) returns (states: seq<State>)
    requires s.writer == Resting && Fits64(r) && s.writePos + |Encode(r)| <= |s.data|
    ensures Path(states) && states[0] == s && states[|states| - 1] == Appended(s, r)
  {
    var w, e := s.writePos, Encode(r);
    states := [s];
    var first := s.(writer := Copying(r, {}));
    assert StartAppend(s, first, r);
    assert Copied(s, r, 0) == first by {
      assert s.data[..w] + e[..0] + s.data[w + 0..] == s.data;
    }
    PathStep(states, first);
    states := states + [first];
    for n := 0 to |e|
      invariant Path(states) && states[0] == s && states[|states| - 1] == Copied(s, r, n)
    {
      CopyOne(s, r, n);
      PathStep(states, Copied(s, r, n + 1));
      states := states + [Copied(s, r, n + 1)];
    }
    assert e[..|e|] == e;
    assert Publish(Copied(s, r, |e|), Appended(s, r));
    PathStep(states, Appended(s, r));
    states := states + [Appended(s, r)];
  }

  // ---------- A reader ----------

  ghost function Moved(s: State, j: nat, rd: Reader): (t: State)
    requires j < |s.readers|
  {
    s.(readers := s.readers[j := rd])
  }

  /** The reader has the first n bytes of its next record. */
  ghost function Gathering(rd: Reader, e: Bytes, n: nat): (g: Reader)
    requires rd.phase.Reading? && n <= |e|
  {
    rd.(phase := Reading(rd.phase.limit, map i: nat | i < n :: e[i]))
  }

  lemma GatherOne(s: State, j: nat, rd: Reader, n: nat, states: seq<State>)
    requires Inv(s) && j < |s.readers| && rd.phase.Reading? && ReaderInv(rd, s.log) && rd.count < rd.covered
    requires n < |Encode(s.log[rd.count])|
    requires Path(states) && states[|states| - 1] == Moved(s, j, Gathering(rd, Encode(s.log[rd.count]), n))
    ensures Path(states + [Moved(s, j, Gathering(rd, Encode(s.log[rd.count]), n + 1))])
  {
    var r := s.log[rd.count];
    var e := Encode(r);
    var g := Gathering(rd, e, n);
    NoEntryIff(rd, s.log);
    ByteIs(s, rd, n);
    assert Gathering(rd, e, n + 1).phase.got == g.phase.got[n := e[n]];
    if n >= FIXED { GatheredSize(g.phase.got, r); }
    ReadStep(s, j, g, Gathering(rd, e, n + 1), n);
    PathStep(states, Moved(s, j, Gathering(rd, e, n + 1)));
  }

  lemma ReadStep(s: State, j: nat, g: Reader, h: Reader, n: nat)
    requires j < |s.readers| && g.phase.Reading? && !NoEntry(g) && g.pos + n < |s.data|
    requires n < FIXED || (Has(g.phase.got, FIXED) && n < SizeOf(Gathered(g.phase.got, FIXED)))
    requires h == g.(phase := Reading(g.phase.limit, g.phase.got[n := s.data[g.pos + n]]))
    ensures Next(Moved(s, j, g), Moved(s, j, h))
  {
    var a, b := Moved(s, j, g), Moved(s, j, h);
    assert a.readers[j] == g && b == a.(readers := a.readers[j := h]);
    assert ReadByte(a, b, j, n);
  }

  /** The reader after its next record. */
  ghost function Further(rd: Reader, log: seq<Record>): (g: Reader)
    requires rd.count < |log|
  {
    Reader(rd.pos + |Encode(log[rd.count])|, Ready, rd.delivered + [Report(log[rd.count])], rd.count + 1, |log|)
  }

  lemma WholeEntry(rd: Reader, log: seq<Record>, e: Bytes)
    requires rd.phase.Reading? && ReaderInv(rd, log) && rd.count < rd.covered == |log| && e == Encode(log[rd.count]) && Fits64(log[rd.count])
    ensures ReaderInv(Gathering(rd, e, |e|), log) && Complete(Gathering(rd, e, |e|))
  {
    var g := Gathering(rd, e, |e|);
    NoEntryIff(rd, log);
    assert NoEntry(g) <==> NoEntry(rd);
    GatheredSize(g.phase.got, log[rd.count]);
  }

  lemma DeliverOne(s: State, j: nat, rd: Reader, e: Bytes, states: seq<State>)
    requires Inv(s) && j < |s.readers| && rd.phase.Reading? && ReaderInv(rd, s.log) && rd.count < rd.covered == |s.log|
    requires e == Encode(s.log[rd.count]) && Path(states) && states[|states| - 1] == Moved(s, j, Gathering(rd, e, |e|))
    ensures Path(states + [Moved(s, j, Further(rd, s.log))])
  {
    var g := Gathering(rd, e, |e|);
    var a := Moved(s, j, g);
    WholeEntry(rd, s.log, e);
    OneReaderMoves(s, a, j, g);
    ReadNext(a, j);
    DeliverStep(s, j, g, Further(rd, s.log));
    PathStep(states, Moved(s, j, Further(rd, s.log)));
  }

  lemma DeliverStep(s: State, j: nat, g: Reader, h: Reader)
    requires j < |s.readers| && Complete(g) && Result(g).Entry?
    requires h == Reader(g.pos + Result(g).size, Ready, g.delivered + [Result(g).d], g.count + 1, g.covered)
    ensures Next(Moved(s, j, g), Moved(s, j, h))
  {
    var a, b := Moved(s, j, g), Moved(s, j, h);
    assert a.readers[j] == g && b == a.(readers := a.readers[j := h]);
    assert Deliver(a, b, j);
  }

  /** The reader with the write position loaded. */
  ghost function Loading(s: State, rd: Reader): (g: Reader) {
    rd.(phase := Reading(s.writePos, map[]), covered := |s.log|)
  }

  lemma LoadOne(s: State, j: nat)
    requires Inv(s) && j < |s.readers| && s.readers[j].phase == Ready && s.readers[j].count < |s.log|
    ensures var rd := Loading(s, s.readers[j]);
            ReaderInv(rd, s.log) && Path([s, Moved(s, j, rd)]) && Gathering(rd, Encode(s.log[rd.count]), 0) == rd
  {
    var rd := Loading(s, s.readers[j]);
    var t := Moved(s, j, rd);
    assert LoadPos(s, t, j);
    LoadInv(s, t, j);
    assert t.readers[j] == rd;
    assert Gathering(rd, Encode(s.log[rd.count]), 0).phase.got == map[];
    PathStep([s], t);
    assert [s] + [t] == [s, t];
  }

  /** A reader at rest that is behind can read one more record, with everything else standing still. */
  lemma ReadOne(s: State, j: nat) returns (states: seq<State>)
    requires Inv(s) && j < |s.readers| && s.readers[j].phase == Ready && s.readers[j].count < |s.log|
    ensures Path(states) && states[0] == s && states[|states| - 1] == Moved(s, j, Further(s.readers[j], s.log))
  {
    var rd := Loading(s, s.readers[j]);
    var e := Encode(s.log[rd.count]);
    LoadOne(s, j);
    states := GatherAll(s, j, rd, e, [s, Moved(s, j, rd)]);
    DeliverOne(s, j, rd, e, states);
    states := states + [Moved(s, j, Further(rd, s.log))];
  }

  lemma GatherAll(s: State, j: nat, rd: Reader, e: Bytes, start: seq<State>) returns (states: seq<State>)
    requires Inv(s) && j < |s.readers| && rd.phase.Reading? && ReaderInv(rd, s.log) && rd.count < rd.covered
    requires e == Encode(s.log[rd.count]) && Path(start) && start[|start| - 1] == Moved(s, j, Gathering(rd, e, 0))
    ensures Path(states) && states[0] == start[0] && states[|states| - 1] == Moved(s, j, Gathering(rd, e, |e|))
  {
    states := start;
    for n := 0 to |e|
      invariant Path(states) && states[0] == start[0] && states[|states| - 1] == Moved(s, j, Gathering(rd, e, n))
    {
      GatherOne(s, j, rd, n, states);
      states := states + [Moved(s, j, Gathering(rd, e, n + 1))];
    }
  }

  ghost predicate CaughtUp(s: State, j: nat, t: State)
    requires j < |s.readers|
  {
    |t.readers| == |s.readers| && t == Moved(s, j, t.readers[j]) && t.readers[j].phase == Ready && t.readers[j].delivered == Reports(s.log)
  }

  /** A reader at rest can catch up with everything published, with everything else standing still. */
  lemma {:induction false} CatchesUp(s: State, j: nat) returns (states: seq<State>)
    requires Inv(s) && j < |s.readers| && s.readers[j].phase == Ready
    ensures Path(states) && states[0] == s
    ensures CaughtUp(s, j, states[|states| - 1])
    decreases |s.log| - s.readers[j].count
  {
    var rd := s.readers[j];
    assert ReaderInv(rd, s.log);
    if rd.count == |s.log| {
      states := [s];
      assert s.log[..|s.log|] == s.log;
    } else {
      states := ReadOne(s, j);
      var t := states[|states| - 1];
      PathInv(states);
      assert t.readers[j].count == rd.count + 1;
      var rest := CatchesUp(t, j);
      PathJoin(states, rest);
      states := states + rest[1..];
    }
  }

  /** A reader gives up exactly when it has delivered all that its loaded position covers. */
  lemma GivesUpIff(s: State, j: nat)
    requires Inv(s) && j < |s.readers| && s.readers[j].phase.Reading?
    ensures (exists t :: GiveUp(s, t, j) && t.readers[j].phase == Ready) <==> s.readers[j].delivered == Reports(s.log[..s.readers[j].covered])
  {
    var rd := s.readers[j];
    assert ReaderInv(rd, s.log);
    NoEntryIff(rd, s.log);
    if rd.count == rd.covered {
      var t := Moved(s, j, rd.(phase := Ready));
      assert GiveUp(s, t, j) && t.readers[j].phase == Ready;
    }
    if rd.delivered == Reports(s.log[..rd.covered]) { assert |rd.delivered| == rd.count; }
  }
}
