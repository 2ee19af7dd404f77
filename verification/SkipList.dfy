/** The skip-list memtable (src/storage/lsm.c:7-249).

    Memory is a map from addresses to nodes: allocating picks any unused address,
    freeing removes it, and following a pointer to a freed node would be an error.
    The random tower height is a parameter, so every result holds for all choices.

    A longer overwrite replaces the node but copies only `forward[0]`
    (src/storage/lsm.c:147-152), so upper levels lose part of their chain. What stays
    true is kept in the ghost field `lanes`: lane i holds, in key order, the nodes that
    a descent can visit on level i. A forward pointer names the next node of the lane, or it is
    NULL and the next node of the lane, if any, is also on the lane above. */
module SkipList {
  import opened Keys

  const MAX_LEVEL := 12
  const NODE_HEADER := 32
  const POINTER_SIZE := 8

  type Ptr = nat
  const NULL: Ptr := 0

  datatype Node = Node(seqno: nat, key: Bytes, val: Bytes, deleted: bool, level: nat, forward: seq<Ptr>)
  type Memory = map<Ptr, Node>

  /** What the table holds for a key; a deleted entry is a tombstone. */
  datatype Entry = Entry(seqno: nat, val: Bytes, deleted: bool)

  function EntryOf(n: Node): Entry {
    Entry(n.seqno, n.val, n.deleted)
  }

  function NodeSize(n: Node): nat {
    NODE_HEADER + (n.level + 1) * POINTER_SIZE + |n.key| + |n.val|
  }

  // ---------- Lanes ----------

  /** Place of a node in the key order; the header comes before every key. */
  ghost function At(mem: Memory, header: Ptr, n: Ptr): real
    requires n in mem
  {
    if n == header then -1.0 else Rank(mem[n].key)
  }

  /** Forward pointers of lane `lane` on level i lead to the next node or are NULL. */
  ghost predicate Chained(mem: Memory, header: Ptr, lane: seq<Ptr>, i: nat)
  {
    && |lane| > 0 && lane[0] == header
    && (forall p :: 0 <= p < |lane| ==> lane[p] in mem && lane[p] != NULL && i < |mem[lane[p]].forward|)
    && (forall p, q :: 0 <= p < q < |lane| ==> At(mem, header, lane[p]) < At(mem, header, lane[q]))
    && (forall p {:trigger NextOrNull(mem, lane, p, i)} :: 0 <= p < |lane| ==> NextOrNull(mem, lane, p, i))
  }

  ghost predicate NextOrNull(mem: Memory, lane: seq<Ptr>, p: nat, i: nat)
    requires p < |lane| && lane[p] in mem && i < |mem[lane[p]].forward|
  {
    var f := mem[lane[p]].forward[i];
    f == NULL || (p + 1 < |lane| && f == lane[p + 1])
  }

  /** A NULL pointer inside a lane is harmless: the next node is also on the lane above. */
  ghost predicate Covered(mem: Memory, lane: seq<Ptr>, i: nat, above: seq<Ptr>)
    requires forall p :: 0 <= p < |lane| ==> lane[p] in mem && i < |mem[lane[p]].forward|
  {
    forall p {:trigger GapOk(mem, lane, i, above, p)} :: 0 <= p < |lane| ==> GapOk(mem, lane, i, above, p)
  }

  ghost predicate GapOk(mem: Memory, lane: seq<Ptr>, i: nat, above: seq<Ptr>, p: nat)
    requires p < |lane| && lane[p] in mem && i < |mem[lane[p]].forward|
  {
    mem[lane[p]].forward[i] == NULL && p + 1 < |lane| ==> lane[p + 1] in above
  }

  ghost predicate LaneOk(mem: Memory, header: Ptr, lane: seq<Ptr>, i: nat, above: seq<Ptr>)
  {
    Chained(mem, header, lane, i) && Covered(mem, lane, i, above)
  }

  /** Level 0 may have no gap at all; the top level has nothing above it. */
  ghost function Above(lanes: seq<seq<Ptr>>, i: nat): seq<Ptr>
  {
    if 0 < i && i + 1 < |lanes| then lanes[i + 1] else []
  }

  ghost predicate LanesOk(mem: Memory, header: Ptr, lanes: seq<seq<Ptr>>)
  {
    && |lanes| == MAX_LEVEL
    && (forall i :: 0 <= i < MAX_LEVEL ==> LaneOk(mem, header, lanes[i], i, Above(lanes, i)))
    && (forall i {:trigger Nested(lanes, i)} :: 0 <= i < MAX_LEVEL - 1 ==> Nested(lanes, i))
  }

  /** What is on a lane is also on the lane below. */
  ghost predicate Nested(lanes: seq<seq<Ptr>>, i: nat)
    requires i + 1 < |lanes|
  {
    Sub(lanes[i + 1], lanes[i])
  }

  /** Memory holds the nodes of the lane and nothing else: no node is lost or freed twice. */
  ghost predicate NodesOf(mem: Memory, lane: seq<Ptr>)
  {
    forall n :: n in mem <==> n in lane
  }

  ghost predicate Sub(a: seq<Ptr>, b: seq<Ptr>)
  {
    forall n :: n in a ==> n in b
  }

  /** Lane position p is the last one below r. */
  ghost predicate IsFloor(mem: Memory, header: Ptr, lane: seq<Ptr>, p: nat, r: real)
    requires forall q :: 0 <= q < |lane| ==> lane[q] in mem
  {
    && p < |lane| && At(mem, header, lane[p]) < r
    && (p + 1 < |lane| ==> r <= At(mem, header, lane[p + 1]))
  }

  // ---------- Contents and size ----------

  /** The nodes of the table, other than the header, hold exactly the entries of `model`. */
  ghost predicate Holds(mem: Memory, header: Ptr, model: map<Bytes, Entry>)
  {
    && (forall n :: n in mem && n != header ==> mem[n].key in model && model[mem[n].key] == EntryOf(mem[n]))
    && (forall k {:trigger HasKey(mem, header, k)} :: k in model ==> HasKey(mem, header, k))
  }

  ghost predicate HasKey(mem: Memory, header: Ptr, k: Bytes)
  {
    exists n :: n in mem && n != header && mem[n].key == k
  }

  ghost function Sizes(mem: Memory, s: seq<Ptr>): nat
    requires forall p :: 0 <= p < |s| ==> s[p] in mem
  {
    if s == [] then 0 else NodeSize(mem[s[0]]) + Sizes(mem, s[1..])
  }

  lemma {:induction false} SizesAppend(mem: Memory, a: seq<Ptr>, b: seq<Ptr>)
    requires forall p :: 0 <= p < |a| ==> a[p] in mem
    requires forall p :: 0 <= p < |b| ==> b[p] in mem
    ensures forall p :: 0 <= p < |a + b| ==> (a + b)[p] in mem
    ensures Sizes(mem, a + b) == Sizes(mem, a) + Sizes(mem, b)
  {
    if a == [] {
      assert a + b == b;
    } else {
      SizesAppend(mem, a[1..], b);
      assert (a + b)[1..] == a[1..] + b;
    }
  }

  lemma {:induction false} SizesFrame(mem: Memory, mem': Memory, s: seq<Ptr>)
    requires forall p :: 0 <= p < |s| ==> s[p] in mem && s[p] in mem' && NodeSize(mem[s[p]]) == NodeSize(mem'[s[p]])
    ensures Sizes(mem, s) == Sizes(mem', s)
  {
    if s != [] {
      SizesFrame(mem, mem', s[1..]);
    }
  }

  // ---------- The descent ----------

  /** Where the walk on a lane stops on a NULL pointer, the lane has no further node below r,
      because such a node would be on the lane above and past the floor found there. */
  lemma GapIsFloor(mem: Memory, header: Ptr, lane: seq<Ptr>, above: seq<Ptr>, i: nat, q: nat, up: nat, r: real)
    requires LaneOk(mem, header, lane, i, above) && q < |lane|
    requires mem[lane[q]].forward[i] == NULL && At(mem, header, lane[q]) < r
    requires above != [] ==> Chained(mem, header, above, i + 1) && IsFloor(mem, header, above, up, r)
    requires above != [] ==> At(mem, header, above[up]) <= At(mem, header, lane[q])
    ensures IsFloor(mem, header, lane, q, r)
  {
    if q + 1 < |lane| {
      assert GapOk(mem, lane, i, above, q);
      var s :| 0 <= s < |above| && above[s] == lane[q + 1];
      assert At(mem, header, lane[q]) < At(mem, header, lane[q + 1]);
      assert s > up;
    }
  }

  // ---------- Effect of relinking on one lane ----------

  /** A lane is unaffected when its own keys and its own level's pointers are. */
  lemma FrameLane(mem: Memory, mem': Memory, header: Ptr, lane: seq<Ptr>, i: nat, above: seq<Ptr>, above': seq<Ptr>)
    requires LaneOk(mem, header, lane, i, above) && Sub(above, above')
    requires forall n :: n in lane ==> n in mem' && mem'[n].key == mem[n].key && i < |mem'[n].forward|
    requires forall n :: n in lane ==> mem'[n].forward[i] == mem[n].forward[i]
    ensures LaneOk(mem', header, lane, i, above')
  {
    forall p | 0 <= p < |lane| ensures lane[p] in mem' && mem'[lane[p]].key == mem[lane[p]].key
                                       && mem'[lane[p]].forward[i] == mem[lane[p]].forward[i] {
      assert lane[p] in lane;
    }
    forall p | 0 <= p < |lane| ensures NextOrNull(mem', lane, p, i) && GapOk(mem', lane, i, above', p) {
      assert NextOrNull(mem, lane, p, i) && GapOk(mem, lane, i, above, p);
    }
  }

  ghost function Spliced(lane: seq<Ptr>, p: nat, new_: Ptr): seq<Ptr>
    requires p < |lane|
  {
    lane[..p + 1] + [new_] + lane[p + 1..]
  }

  /** On level i, `new_` has been linked behind position p of the lane, which is the floor of its key. */
  ghost predicate Splices(mem: Memory, mem': Memory, header: Ptr, lane: seq<Ptr>, i: nat, p: nat, new_: Ptr)
  {
    && Chained(mem, header, lane, i) && p < |lane|
    && new_ in mem' && new_ != NULL && new_ !in lane && i < |mem'[new_].forward|
    && (forall q :: 0 <= q < |lane| ==> lane[q] in mem' && mem'[lane[q]].key == mem[lane[q]].key)
    && (forall q :: 0 <= q < |lane| ==> i < |mem'[lane[q]].forward|)
    && (forall q :: 0 <= q < |lane| && q != p ==> mem'[lane[q]].forward[i] == mem[lane[q]].forward[i])
    && IsFloor(mem, header, lane, p, Rank(mem'[new_].key))
    && (p + 1 < |lane| ==> At(mem, header, lane[p + 1]) != Rank(mem'[new_].key))
    && mem'[lane[p]].forward[i] == new_ && mem'[new_].forward[i] == mem[lane[p]].forward[i]
  }

  lemma SplicedSorted(mem: Memory, mem': Memory, header: Ptr, lane: seq<Ptr>, i: nat, p: nat, new_: Ptr, q: nat, s: nat)
    requires Splices(mem, mem', header, lane, i, p, new_)
    requires q < s <= |lane|
    ensures var l := Spliced(lane, p, new_);
            l[q] in mem' && l[s] in mem' && At(mem', header, l[q]) < At(mem', header, l[s])
  {
    var l := Spliced(lane, p, new_);
    assert new_ != header by { assert lane[0] in lane; }
    if s == p + 1 {
      assert l[s] == new_ && l[q] == lane[q];
      assert q == p || At(mem, header, lane[q]) < At(mem, header, lane[p]);
    } else if q == p + 1 {
      assert l[q] == new_ && l[s] == lane[s - 1];
      assert s - 1 == p + 1 || At(mem, header, lane[p + 1]) < At(mem, header, lane[s - 1]);
    } else {
      var q0, s0 := if q <= p then q else q - 1, if s <= p then s else s - 1;
      assert l[q] == lane[q0] && l[s] == lane[s0];
      assert At(mem, header, lane[q0]) < At(mem, header, lane[s0]);
    }
  }

  lemma SplicedNext(mem: Memory, mem': Memory, header: Ptr, lane: seq<Ptr>, i: nat, p: nat, new_: Ptr, q: nat)
    requires Splices(mem, mem', header, lane, i, p, new_)
    requires q <= |lane|
    ensures var l := Spliced(lane, p, new_);
            l[q] in mem' && l[q] != NULL && i < |mem'[l[q]].forward| && NextOrNull(mem', l, q, i)
  {
    var l := Spliced(lane, p, new_);
    if q == p + 1 {
      assert l[q] == new_;
      assert NextOrNull(mem, lane, p, i);
    } else if q == p {
      assert l[q] == lane[p] && l[q + 1] == new_;
    } else {
      var q0 := if q < p then q else q - 1;
      assert l[q] == lane[q0];
      assert NextOrNull(mem, lane, q0, i);
    }
  }

  /** Linking a new node behind the floor of its key keeps the lane well formed. */
  lemma SpliceLane(mem: Memory, mem': Memory, header: Ptr, lane: seq<Ptr>, i: nat, above: seq<Ptr>, above': seq<Ptr>,
                   p: nat, new_: Ptr)
    requires Splices(mem, mem', header, lane, i, p, new_)
    requires Covered(mem, lane, i, above) && Sub(above, above')
    ensures LaneOk(mem', header, Spliced(lane, p, new_), i, above')
  {
    var l := Spliced(lane, p, new_);
    forall q | 0 <= q < |l|
      ensures l[q] in mem' && l[q] != NULL && i < |mem'[l[q]].forward| && NextOrNull(mem', l, q, i)
    {
      SplicedNext(mem, mem', header, lane, i, p, new_, q);
    }
    forall q, s | 0 <= q < s < |l| ensures At(mem', header, l[q]) < At(mem', header, l[s]) {
      SplicedSorted(mem, mem', header, lane, i, p, new_, q, s);
    }
    forall q | 0 <= q < |l| ensures GapOk(mem', l, i, above', q) {
      SplicedGap(mem, mem', header, lane, i, above, above', p, new_, q);
    }
  }

  lemma SplicedGap(mem: Memory, mem': Memory, header: Ptr, lane: seq<Ptr>, i: nat, above: seq<Ptr>, above': seq<Ptr>,
                   p: nat, new_: Ptr, q: nat)
    requires Splices(mem, mem', header, lane, i, p, new_) && q <= |lane|
    requires Covered(mem, lane, i, above) && Sub(above, above')
    ensures var l := Spliced(lane, p, new_);
            l[q] in mem' && i < |mem'[l[q]].forward| && GapOk(mem', l, i, above', q)
  {
    var l := Spliced(lane, p, new_);
    if q > p {
      assert GapOk(mem, lane, i, above, q - 1);
      assert l[q] == if q == p + 1 then new_ else lane[q - 1];
      assert q < |lane| ==> l[q + 1] == lane[q];
    } else if q < p {
      assert GapOk(mem, lane, i, above, q);
      assert l[q] == lane[q] && l[q + 1] == lane[q + 1];
    }
  }

  // ---------- What a longer overwrite leaves reachable ----------

  ghost predicate Sorted(mem: Memory, header: Ptr, r: seq<Ptr>, i: nat)
  {
    && (forall q :: 0 <= q < |r| ==> r[q] in mem && r[q] != NULL && i < |mem[r[q]].forward|)
    && (forall q, s :: 0 <= q < s < |r| ==> At(mem, header, r[q]) < At(mem, header, r[s]))
  }

  /** The pointer of position p leads to the next kept node, or is NULL before a node of `keep`. */
  ghost predicate LinkOrGap(mem: Memory, r: seq<Ptr>, i: nat, keep: seq<Ptr>, p: nat)
    requires p + 1 < |r| && r[p] in mem && i < |mem[r[p]].forward|
  {
    mem[r[p]].forward[i] == r[p + 1] || (mem[r[p]].forward[i] == NULL && r[p + 1] in keep)
  }

  /** `r` holds those of the first m nodes of the lane that a descent still visits: those
      visited on the lane above (`keep`), and those an unbroken pointer leads to. */
  ghost predicate Reached(mem: Memory, header: Ptr, lane: seq<Ptr>, i: nat, keep: seq<Ptr>, m: nat, r: seq<Ptr>)
    requires Chained(mem, header, lane, i) && 1 <= m <= |lane|
  {
    && r != [] && r[0] == header && Sorted(mem, header, r, i) && Sub(r, lane)
    && At(mem, header, r[|r| - 1]) <= At(mem, header, lane[m - 1])
    && (forall p :: 0 <= p && p + 1 < |r| ==> LinkOrGap(mem, r, i, keep, p))
    && (r[|r| - 1] == lane[m - 1] || mem[r[|r| - 1]].forward[i] == NULL)
    && (forall q :: 0 <= q < m && lane[q] in keep ==> lane[q] in r)
  }

  lemma ReachedStep(mem: Memory, header: Ptr, lane: seq<Ptr>, i: nat, keep: seq<Ptr>, m: nat, r: seq<Ptr>)
    requires Chained(mem, header, lane, i) && 1 <= m < |lane| && Reached(mem, header, lane, i, keep, m, r)
    requires lane[m] in keep || mem[r[|r| - 1]].forward[i] == lane[m]
    ensures Reached(mem, header, lane, i, keep, m + 1, r + [lane[m]])
  {
    var r' := r + [lane[m]];
    assert NextOrNull(mem, lane, m - 1, i);
    assert At(mem, header, lane[m - 1]) < At(mem, header, lane[m]);
    forall q, s | 0 <= q < s < |r'| ensures At(mem, header, r'[q]) < At(mem, header, r'[s]) {
      if s == |r| && q < |r| - 1 {
        assert At(mem, header, r[q]) < At(mem, header, r[|r| - 1]);
      }
    }
    forall p | 0 <= p && p + 1 < |r'| ensures LinkOrGap(mem, r', i, keep, p) {
      if p + 1 < |r| {
        assert LinkOrGap(mem, r, i, keep, p);
      }
    }
  }

  lemma ReachedSkip(mem: Memory, header: Ptr, lane: seq<Ptr>, i: nat, keep: seq<Ptr>, m: nat, r: seq<Ptr>)
    requires Chained(mem, header, lane, i) && 1 <= m < |lane| && Reached(mem, header, lane, i, keep, m, r)
    requires lane[m] !in keep && mem[r[|r| - 1]].forward[i] != lane[m]
    ensures Reached(mem, header, lane, i, keep, m + 1, r)
  {
    assert NextOrNull(mem, lane, m - 1, i);
    assert At(mem, header, lane[m - 1]) < At(mem, header, lane[m]);
  }

  lemma ReachedIsLane(mem: Memory, header: Ptr, lane: seq<Ptr>, i: nat, keep: seq<Ptr>, r: seq<Ptr>)
    requires Chained(mem, header, lane, i) && Reached(mem, header, lane, i, keep, |lane|, r)
    ensures LaneOk(mem, header, r, i, keep)
  {
    assert NextOrNull(mem, lane, |lane| - 1, i);
    forall q | 0 <= q < |r| ensures NextOrNull(mem, r, q, i)
                            ensures GapOk(mem, r, i, keep, q) {
      if q + 1 < |r| {
        assert LinkOrGap(mem, r, i, keep, q);
      }
    }
  }

  /** Every node but the last points on. */
  ghost predicate Unbroken(mem: Memory, lane: seq<Ptr>, i: nat)
    requires forall p :: 0 <= p < |lane| ==> lane[p] in mem && i < |mem[lane[p]].forward|
  {
    forall p {:trigger lane[p]} :: 0 <= p < |lane| - 1 ==> mem[lane[p]].forward[i] != NULL
  }

  /** The next node of the lane is kept if it can be reached. */
  lemma CutStep(mem: Memory, header: Ptr, lane: seq<Ptr>, i: nat, keep: seq<Ptr>, m: nat, r: seq<Ptr>) returns (r': seq<Ptr>)
    requires Chained(mem, header, lane, i) && 1 <= m < |lane| && Reached(mem, header, lane, i, keep, m, r)
    requires Unbroken(mem, lane, i) ==> r == lane[..m]
    ensures Reached(mem, header, lane, i, keep, m + 1, r') && (Unbroken(mem, lane, i) ==> r' == lane[..m + 1])
  {
    assert NextOrNull(mem, lane, m - 1, i);
    if lane[m] in keep || mem[r[|r| - 1]].forward[i] == lane[m] {
      ReachedStep(mem, header, lane, i, keep, m, r);
      r' := r + [lane[m]];
    } else {
      ReachedSkip(mem, header, lane, i, keep, m, r);
      r' := r;
    }
  }

  /** The part of a lane that is still reachable is a well-formed lane below `keep`;
      a lane without gaps loses nothing. */
  lemma CutLane(mem: Memory, header: Ptr, lane: seq<Ptr>, i: nat, keep: seq<Ptr>) returns (r: seq<Ptr>)
    requires Chained(mem, header, lane, i)
    ensures LaneOk(mem, header, r, i, keep) && Sub(r, lane)
    ensures forall n :: n in lane && n in keep ==> n in r
    ensures Unbroken(mem, lane, i) ==> r == lane
  {
    r := [header];
    var m := 1;
    while m < |lane|
      invariant 1 <= m <= |lane|
      invariant Reached(mem, header, lane, i, keep, m, r)
      invariant Unbroken(mem, lane, i) ==> r == lane[..m]
    {
      r := CutStep(mem, header, lane, i, keep, m, r);
      m := m + 1;
    }
    ReachedIsLane(mem, header, lane, i, keep, r);
  }

  /** Lanes i and up are well formed in r, which keeps only nodes of the given lanes. */
  ghost predicate CutFrom(mem: Memory, header: Ptr, lanes: seq<seq<Ptr>>, r: seq<seq<Ptr>>, i: nat)
  {
    && |lanes| == |r| == MAX_LEVEL
    && (forall j :: i <= j < MAX_LEVEL ==> LaneOk(mem, header, r[j], j, Above(r, j)))
    && (forall j :: i <= j < MAX_LEVEL ==> Sub(r[j], lanes[j]))
    && (forall j {:trigger Nested(r, j)} :: i <= j < MAX_LEVEL - 1 ==> Nested(r, j))
  }

  lemma CutFromStep(mem: Memory, header: Ptr, lanes: seq<seq<Ptr>>, r: seq<seq<Ptr>>, i: nat, c: seq<Ptr>)
    requires CutFrom(mem, header, lanes, r, i + 1) && i < MAX_LEVEL
    requires LaneOk(mem, header, c, i, Above(r, i)) && Sub(c, lanes[i])
    requires i + 1 < MAX_LEVEL ==> Sub(r[i + 1], c)
    ensures CutFrom(mem, header, lanes, r[i := c], i)
  {
    var r' := r[i := c];
    forall j | i <= j < MAX_LEVEL ensures LaneOk(mem, header, r'[j], j, Above(r', j)) {
      assert Above(r', j) == Above(r, j);
    }
    forall j | i <= j < MAX_LEVEL - 1 ensures Nested(r', j) {
      assert j > i ==> Nested(r, j);
    }
  }

  lemma NoGap(mem: Memory, lane: seq<Ptr>, i: nat, q: nat)
    requires forall p :: 0 <= p < |lane| ==> lane[p] in mem && i < |mem[lane[p]].forward|
    requires Covered(mem, lane, i, []) && q + 1 < |lane|
    ensures mem[lane[q]].forward[i] != NULL
  {
    var none: seq<Ptr> := [];
    assert GapOk(mem, lane, i, none, q);
  }

  lemma CutNext(mem: Memory, header: Ptr, lane: seq<Ptr>, higher: seq<Ptr>, i: nat, keep: seq<Ptr>, up: seq<Ptr>)
    returns (c: seq<Ptr>)
    requires Chained(mem, header, lane, i) && Sub(higher, lane) && Sub(up, higher)
    requires if i == 0 then LaneOk(mem, header, lane, 0, []) && keep == [] else keep == up
    ensures LaneOk(mem, header, c, i, keep) && Sub(c, lane) && Sub(up, c)
    ensures i == 0 ==> c == lane
  {
    c := CutLane(mem, header, lane, i, keep);
    if i == 0 {
      forall p | 0 <= p < |lane| - 1 ensures mem[lane[p]].forward[i] != NULL {
        NoGap(mem, lane, i, p);
      }
    }
  }

  ghost predicate Cuttable(mem: Memory, header: Ptr, lanes: seq<seq<Ptr>>)
  {
    && |lanes| == MAX_LEVEL
    && (forall j :: 0 <= j < MAX_LEVEL ==> Chained(mem, header, lanes[j], j))
    && (forall j {:trigger Nested(lanes, j)} :: 0 <= j < MAX_LEVEL - 1 ==> Nested(lanes, j))
    && LaneOk(mem, header, lanes[0], 0, [])
  }

  lemma CutOneMore(mem: Memory, header: Ptr, lanes: seq<seq<Ptr>>, r: seq<seq<Ptr>>, i: nat) returns (r': seq<seq<Ptr>>)
    requires Cuttable(mem, header, lanes) && i < MAX_LEVEL && CutFrom(mem, header, lanes, r, i + 1)
    ensures CutFrom(mem, header, lanes, r', i) && (i == 0 ==> r'[0] == lanes[0])
  {
    var c;
    if i + 1 < MAX_LEVEL {
      assert Nested(lanes, i);
      c := CutNext(mem, header, lanes[i], lanes[i + 1], i, Above(r, i), r[i + 1]);
    } else {
      c := CutNext(mem, header, lanes[i], [], i, [], []);
    }
    CutFromStep(mem, header, lanes, r, i, c);
    r' := r[i := c];
  }

  /** Cutting every lane from the top down gives well-formed lanes again; level 0 is untouched. */
  lemma CutLanes(mem: Memory, header: Ptr, lanes: seq<seq<Ptr>>) returns (r: seq<seq<Ptr>>)
    requires Cuttable(mem, header, lanes)
    ensures LanesOk(mem, header, r) && r[0] == lanes[0]
    ensures forall j :: 0 <= j < MAX_LEVEL ==> Sub(r[j], lanes[j])
  {
    r := lanes;
    var i := MAX_LEVEL;
    while i > 0
      invariant 0 <= i <= MAX_LEVEL && CutFrom(mem, header, lanes, r, i)
      invariant i == 0 ==> r[0] == lanes[0]
    {
      i := i - 1;
      r := CutOneMore(mem, header, lanes, r, i);
    }
  }

  // ---------- The table as a whole ----------

  /** Lanes and towers fit together. */
  ghost predicate ShapeOk(mem: Memory, header: Ptr, level: nat, lanes: seq<seq<Ptr>>)
  {
    && header in mem && level < MAX_LEVEL && LanesOk(mem, header, lanes)
    && (forall i :: level < i < MAX_LEVEL ==> lanes[i] == [header])
    && (forall n :: n in mem ==> |mem[n].forward| == mem[n].level + 1 <= MAX_LEVEL)
    && |mem[header].forward| == MAX_LEVEL
  }

  ghost predicate TableOk(mem: Memory, header: Ptr, level: nat, lanes: seq<seq<Ptr>>, model: map<Bytes, Entry>, used: nat)
  {
    && ShapeOk(mem, header, level, lanes)
    && NodesOf(mem, lanes[0])
    && Holds(mem, header, model)
    && (forall p :: 0 <= p < |lanes[0]| ==> lanes[0][p] in mem)
    && used == Sizes(mem, lanes[0][1..])
  }

  /** The positions of a completed descent: the floor of r on every level. */
  ghost predicate Floors(mem: Memory, header: Ptr, lanes: seq<seq<Ptr>>, update: seq<Ptr>, pos: seq<nat>, r: real, low: nat)
    requires LanesOk(mem, header, lanes)
  {
    && |update| == |pos| == MAX_LEVEL
    && (forall i :: low <= i < MAX_LEVEL ==> pos[i] < |lanes[i]| && update[i] == lanes[i][pos[i]])
    && (forall i :: low <= i < MAX_LEVEL ==> LaneOk(mem, header, lanes[i], i, Above(lanes, i)))
    && (forall i :: low <= i < MAX_LEVEL ==> IsFloor(mem, header, lanes[i], pos[i], r))
  }

  ghost predicate SameNode(a: Node, b: Node) {
    b == a.(forward := b.forward) && |a.forward| == |b.forward|
  }

  ghost predicate PointersAfter(f: seq<Ptr>, f': seq<Ptr>, n: Ptr, update: seq<Ptr>, new_: Ptr, upto: nat)
    requires upto <= |update|
  {
    |f| == |f'| && forall j :: 0 <= j < |f| ==> f'[j] == if j < upto && n == update[j] then new_ else f[j]
  }

  /** `new_` has been linked behind update[j] on every level j below `upto`, and nothing else changed. */
  ghost predicate LinkedIn(mem: Memory, mem': Memory, update: seq<Ptr>, new_: Ptr, upto: nat)
    requires upto <= |update|
  {
    && new_ !in mem && mem'.Keys == mem.Keys + {new_}
    && upto <= |mem'[new_].forward|
    && (forall n :: n in mem ==> SameNode(mem[n], mem'[n]))
    && (forall n :: n in mem ==> PointersAfter(mem[n].forward, mem'[n].forward, n, update, new_, upto))
    && (forall j :: 0 <= j < upto ==> update[j] in mem && j < |mem[update[j]].forward|)
    && (forall j :: 0 <= j < upto ==> mem'[new_].forward[j] == mem[update[j]].forward[j])
  }

  /** No node of the table has rank r. */
  ghost predicate Absent(mem: Memory, header: Ptr, lane: seq<Ptr>, r: real)
    requires forall p :: 0 <= p < |lane| ==> lane[p] in mem
  {
    forall p :: 0 <= p < |lane| ==> At(mem, header, lane[p]) != r
  }

  lemma InsertLevel(mem: Memory, mem': Memory, header: Ptr, lane: seq<Ptr>, i: nat, above: seq<Ptr>, above': seq<Ptr>,
                    update: seq<Ptr>, new_: Ptr, lvl: nat, p: nat)
    requires LaneOk(mem, header, lane, i, above) && i <= lvl < |update|
    requires LinkedIn(mem, mem', update, new_, lvl + 1) && new_ != NULL
    requires p < |lane| && update[i] == lane[p] && IsFloor(mem, header, lane, p, Rank(mem'[new_].key))
    requires Absent(mem, header, lane, Rank(mem'[new_].key)) && Sub(above, above')
    ensures LaneOk(mem', header, Spliced(lane, p, new_), i, above')
  {
    forall q | 0 <= q < |lane| && q != p ensures lane[q] != lane[p] {
      assert if q < p then At(mem, header, lane[q]) < At(mem, header, lane[p])
             else At(mem, header, lane[p]) < At(mem, header, lane[q]);
    }
    assert Splices(mem, mem', header, lane, i, p, new_);
    SpliceLane(mem, mem', header, lane, i, above, above', p, new_);
  }

  lemma InsertOtherLevel(mem: Memory, mem': Memory, header: Ptr, lane: seq<Ptr>, i: nat, above: seq<Ptr>,
                         update: seq<Ptr>, new_: Ptr, lvl: nat)
    requires LaneOk(mem, header, lane, i, above) && lvl < i && lvl < |update|
    requires LinkedIn(mem, mem', update, new_, lvl + 1)
    ensures LaneOk(mem', header, lane, i, above)
  {
    forall n | n in lane ensures n in mem && i < |mem[n].forward| && mem'[n].forward[i] == mem[n].forward[i] {
      var p :| 0 <= p < |lane| && lane[p] == n;
      assert lane[p] in mem && i < |mem[lane[p]].forward|;
      assert SameNode(mem[n], mem'[n]);
    }
    FrameLane(mem, mem', header, lane, i, above, above);
  }

  ghost function InsertLanes(lanes: seq<seq<Ptr>>, pos: seq<nat>, new_: Ptr, lvl: nat): seq<seq<Ptr>>
    requires |lanes| == |pos| && forall i :: 0 <= i < |lanes| && i <= lvl ==> pos[i] < |lanes[i]|
  {
    seq(|lanes|, i requires 0 <= i < |lanes| => if i <= lvl then Spliced(lanes[i], pos[i], new_) else lanes[i])
  }

  lemma SplicedMembers(lane: seq<Ptr>, p: nat, new_: Ptr)
    requires p < |lane|
    ensures forall n :: n in Spliced(lane, p, new_) <==> n == new_ || n in lane
  {
    var l := Spliced(lane, p, new_);
    assert lane == lane[..p + 1] + lane[p + 1..];
    assert l[p + 1] == new_;
  }

  lemma InsertSub(lanes: seq<seq<Ptr>>, pos: seq<nat>, new_: Ptr, lvl: nat, i: nat)
    requires |lanes| == |pos| && forall i :: 0 <= i < |lanes| && i <= lvl ==> pos[i] < |lanes[i]|
    requires i + 1 < |lanes| && Nested(lanes, i)
    ensures var l := InsertLanes(lanes, pos, new_, lvl);
            Nested(l, i) && Sub(lanes[i], l[i]) && Sub(lanes[i + 1], l[i + 1])
  {
    if i <= lvl { SplicedMembers(lanes[i], pos[i], new_); }
    if i + 1 <= lvl { SplicedMembers(lanes[i + 1], pos[i + 1], new_); }
  }

  lemma InsertLanesOk(mem: Memory, mem': Memory, header: Ptr, lanes: seq<seq<Ptr>>, update: seq<Ptr>, pos: seq<nat>,
                      new_: Ptr, lvl: nat)
    requires LanesOk(mem, header, lanes) && lvl < MAX_LEVEL && new_ != NULL
    requires |update| == MAX_LEVEL && LinkedIn(mem, mem', update, new_, lvl + 1)
    requires Floors(mem, header, lanes, update, pos, Rank(mem'[new_].key), 0)
    requires Absent(mem, header, lanes[0], Rank(mem'[new_].key))
    ensures LanesOk(mem', header, InsertLanes(lanes, pos, new_, lvl))
  {
    var l := InsertLanes(lanes, pos, new_, lvl);
    forall i | 0 <= i < MAX_LEVEL ensures LaneOk(mem', header, l[i], i, Above(l, i)) {
      if i + 1 < MAX_LEVEL { InsertSub(lanes, pos, new_, lvl, i); }
      if i <= lvl {
        SubAbsent(mem, header, lanes, i, Rank(mem'[new_].key));
        InsertLevel(mem, mem', header, lanes[i], i, Above(lanes, i), Above(l, i), update, new_, lvl, pos[i]);
      } else {
        InsertOtherLevel(mem, mem', header, lanes[i], i, Above(lanes, i), update, new_, lvl);
      }
    }
    forall i | 0 <= i < MAX_LEVEL - 1 ensures Nested(l, i) {
      InsertSub(lanes, pos, new_, lvl, i);
    }
  }

  lemma {:induction false} SubAbsent(mem: Memory, header: Ptr, lanes: seq<seq<Ptr>>, i: nat, r: real)
    requires LanesOk(mem, header, lanes) && i < MAX_LEVEL && Absent(mem, header, lanes[0], r)
    ensures forall p :: 0 <= p < |lanes[i]| ==> lanes[i][p] in mem && At(mem, header, lanes[i][p]) != r
  {
    if i > 0 {
      SubAbsent(mem, header, lanes, i - 1, r);
      forall p | 0 <= p < |lanes[i]| ensures lanes[i][p] in mem && At(mem, header, lanes[i][p]) != r {
        assert Nested(lanes, i - 1);
        assert lanes[i][p] in lanes[i - 1];
        var q :| 0 <= q < |lanes[i - 1]| && lanes[i - 1][q] == lanes[i][p];
      }
    }
  }

  // ---------- Contents after an insertion ----------

  lemma SizesSplit(mem: Memory, a: seq<Ptr>, n: Ptr, b: seq<Ptr>)
    requires forall p :: 0 <= p < |a| ==> a[p] in mem
    requires forall p :: 0 <= p < |b| ==> b[p] in mem
    requires n in mem
    ensures forall p :: 0 <= p < |a + [n] + b| ==> (a + [n] + b)[p] in mem
    ensures Sizes(mem, a + [n] + b) == Sizes(mem, a) + NodeSize(mem[n]) + Sizes(mem, b)
  {
    SizesAppend(mem, a, [n]);
    SizesAppend(mem, a + [n], b);
    assert [n][1..] == [];
  }

  lemma SplicedSizes(mem: Memory, mem': Memory, lane: seq<Ptr>, p: nat, new_: Ptr)
    requires p < |lane| && new_ in mem'
    requires forall q :: 0 <= q < |lane| ==> lane[q] in mem && lane[q] in mem' && NodeSize(mem[lane[q]]) == NodeSize(mem'[lane[q]])
    ensures forall q :: 0 <= q < |Spliced(lane, p, new_)| ==> Spliced(lane, p, new_)[q] in mem'
    ensures Sizes(mem', Spliced(lane, p, new_)[1..]) == Sizes(mem, lane[1..]) + NodeSize(mem'[new_])
  {
    var a, b := lane[1..p + 1], lane[p + 1..];
    SplicedParts(lane, p, new_, a, b);
    AroundSizes(mem, mem', a, new_, b);
  }

  lemma SplicedParts(lane: seq<Ptr>, p: nat, new_: Ptr, a: seq<Ptr>, b: seq<Ptr>)
    requires p < |lane| && a == lane[1..p + 1] && b == lane[p + 1..]
    ensures lane[1..] == a + b && Spliced(lane, p, new_)[1..] == a + [new_] + b
  {
  }

  lemma AroundSizes(mem: Memory, mem': Memory, a: seq<Ptr>, new_: Ptr, b: seq<Ptr>)
    requires new_ in mem'
    requires forall q :: 0 <= q < |a| ==> a[q] in mem && a[q] in mem' && NodeSize(mem[a[q]]) == NodeSize(mem'[a[q]])
    requires forall q :: 0 <= q < |b| ==> b[q] in mem && b[q] in mem' && NodeSize(mem[b[q]]) == NodeSize(mem'[b[q]])
    ensures Sizes(mem', a + [new_] + b) == Sizes(mem, a + b) + NodeSize(mem'[new_])
  {
    SizesAppend(mem, a, b);
    SizesSplit(mem', a, new_, b);
    SizesFrame(mem, mem', a);
    SizesFrame(mem, mem', b);
  }

  lemma InsertHolds(mem: Memory, mem': Memory, header: Ptr, new_: Ptr, model: map<Bytes, Entry>)
    requires Holds(mem, header, model) && new_ !in mem && mem'.Keys == mem.Keys + {new_} && new_ != header
    requires forall n :: n in mem ==> SameNode(mem[n], mem'[n])
    requires forall n :: n in mem && n != header ==> mem[n].key != mem'[new_].key
    ensures Holds(mem', header, model[mem'[new_].key := EntryOf(mem'[new_])])
  {
    var model' := model[mem'[new_].key := EntryOf(mem'[new_])];
    forall k | k in model' ensures HasKey(mem', header, k) {
      if k == mem'[new_].key {
        assert new_ in mem';
      } else {
        assert HasKey(mem, header, k);
        var n :| n in mem && n != header && mem[n].key == k;
        assert n in mem' && SameNode(mem[n], mem'[n]);
      }
    }
  }

  lemma InsertShape(mem: Memory, mem': Memory, header: Ptr, level: nat, lanes: seq<seq<Ptr>>,
                    update: seq<Ptr>, pos: seq<nat>, new_: Ptr, lvl: nat)
    requires ShapeOk(mem, header, level, lanes)
    requires lvl < MAX_LEVEL && |update| == MAX_LEVEL && new_ != NULL && LinkedIn(mem, mem', update, new_, lvl + 1)
    requires |mem'[new_].forward| == lvl + 1 && mem'[new_].level == lvl
    requires Floors(mem, header, lanes, update, pos, Rank(mem'[new_].key), 0)
    requires Absent(mem, header, lanes[0], Rank(mem'[new_].key))
    ensures ShapeOk(mem', header, if lvl > level then lvl else level, InsertLanes(lanes, pos, new_, lvl))
  {
    InsertLanesOk(mem, mem', header, lanes, update, pos, new_, lvl);
    assert SameNode(mem[header], mem'[header]);
    forall n | n in mem' ensures |mem'[n].forward| == mem'[n].level + 1 <= MAX_LEVEL {
      if n in mem { assert SameNode(mem[n], mem'[n]); }
    }
  }

  lemma InsertContents(mem: Memory, mem': Memory, header: Ptr, lane: seq<Ptr>, model: map<Bytes, Entry>,
                       update: seq<Ptr>, new_: Ptr, lvl: nat)
    requires Holds(mem, header, model) && lvl < |update| && LinkedIn(mem, mem', update, new_, lvl + 1)
    requires header in mem && NodesOf(mem, lane)
    requires Absent(mem, header, lane, Rank(mem'[new_].key))
    ensures Holds(mem', header, model[mem'[new_].key := EntryOf(mem'[new_])])
  {
    forall n | n in mem && n != header ensures mem[n].key != mem'[new_].key {
      var q :| 0 <= q < |lane| && lane[q] == n;
    }
    InsertHolds(mem, mem', header, new_, model);
  }

  lemma InsertSizes(mem: Memory, mem': Memory, lane: seq<Ptr>, update: seq<Ptr>, p: nat, new_: Ptr, lvl: nat)
    requires lvl < |update| && LinkedIn(mem, mem', update, new_, lvl + 1) && p < |lane|
    requires forall q :: 0 <= q < |lane| ==> lane[q] in mem
    ensures forall q :: 0 <= q < |Spliced(lane, p, new_)| ==> Spliced(lane, p, new_)[q] in mem'
    ensures Sizes(mem', Spliced(lane, p, new_)[1..]) == Sizes(mem, lane[1..]) + NodeSize(mem'[new_])
  {
    forall q | 0 <= q < |lane| ensures NodeSize(mem[lane[q]]) == NodeSize(mem'[lane[q]]) {
      assert SameNode(mem[lane[q]], mem'[lane[q]]);
    }
    SplicedSizes(mem, mem', lane, p, new_);
  }

  /** Linking a fresh node in at its floors inserts its entry: the whole table stays well formed. */
  lemma InsertTableOk(mem: Memory, mem': Memory, header: Ptr, level: nat, lanes: seq<seq<Ptr>>, model: map<Bytes, Entry>,
                      used: nat, update: seq<Ptr>, pos: seq<nat>, new_: Ptr, lvl: nat)
    requires TableOk(mem, header, level, lanes, model, used)
    requires lvl < MAX_LEVEL && |update| == MAX_LEVEL && new_ != NULL && LinkedIn(mem, mem', update, new_, lvl + 1)
    requires |mem'[new_].forward| == lvl + 1 && mem'[new_].level == lvl
    requires Floors(mem, header, lanes, update, pos, Rank(mem'[new_].key), 0)
    requires Absent(mem, header, lanes[0], Rank(mem'[new_].key))
    ensures TableOk(mem', header, if lvl > level then lvl else level, InsertLanes(lanes, pos, new_, lvl),
                    model[mem'[new_].key := EntryOf(mem'[new_])], used + NodeSize(mem'[new_]))
  {
    InsertShape(mem, mem', header, level, lanes, update, pos, new_, lvl);
    InsertRest(mem, mem', header, lanes[0], model, used, update, pos[0], new_, lvl, InsertLanes(lanes, pos, new_, lvl)[0]);
  }

  /** The parts of the invariant that look at the bottom lane only. */
  lemma InsertRest(mem: Memory, mem': Memory, header: Ptr, bottom: seq<Ptr>, model: map<Bytes, Entry>,
                   used: nat, update: seq<Ptr>, p: nat, new_: Ptr, lvl: nat, lane: seq<Ptr>)
    requires header in mem && NodesOf(mem, bottom) && Holds(mem, header, model) && p < |bottom|
    requires (forall q :: 0 <= q < |bottom| ==> bottom[q] in mem) && used == Sizes(mem, bottom[1..])
    requires lvl < |update| && LinkedIn(mem, mem', update, new_, lvl + 1) && lane == Spliced(bottom, p, new_)
    requires Absent(mem, header, bottom, Rank(mem'[new_].key))
    ensures NodesOf(mem', lane) && Holds(mem', header, model[mem'[new_].key := EntryOf(mem'[new_])])
    ensures lane != [] && (forall q :: 0 <= q < |lane| ==> lane[q] in mem') && used + NodeSize(mem'[new_]) == Sizes(mem', lane[1..])
  {
    SplicedMembers(bottom, p, new_);
    InsertContents(mem, mem', header, bottom, model, update, new_, lvl);
    InsertSizes(mem, mem', bottom, update, p, new_, lvl);
  }

  // ---------- Contents after a replacement ----------

  ghost function Subst(lane: seq<Ptr>, x: Ptr, new_: Ptr): (r: seq<Ptr>)
    ensures |r| == |lane| && forall p :: 0 <= p < |lane| ==> r[p] == if lane[p] == x then new_ else lane[p]
  {
    seq(|lane|, p requires 0 <= p < |lane| => if lane[p] == x then new_ else lane[p])
  }

  ghost predicate PointersRedirected(f: seq<Ptr>, f': seq<Ptr>, n: Ptr, update: seq<Ptr>, x: Ptr, new_: Ptr, upto: nat)
    requires upto <= |update|
  {
    |f| == |f'| && forall j :: 0 <= j < |f| ==> f'[j] == if j < upto && n == update[j] && f[j] == x then new_ else f[j]
  }

  /** x has been replaced by `new_`: pointers of update[j] on levels below `upto` were redirected, and
      only the level-0 pointer of x was copied. */
  ghost predicate Replaced(mem: Memory, mem': Memory, update: seq<Ptr>, x: Ptr, new_: Ptr, upto: nat)
    requires upto <= |update|
  {
    && x in mem && x != NULL && new_ !in mem && new_ != NULL && mem'.Keys == mem.Keys - {x} + {new_}
    && (forall n :: n in mem && n != x ==> SameNode(mem[n], mem'[n]))
    && (forall n :: n in mem && n != x ==>
          PointersRedirected(mem[n].forward, mem'[n].forward, n, update, x, new_, upto))
    && |mem[x].forward| > 0 && |mem'[new_].forward| == |mem[x].forward|
    && mem'[new_].forward[0] == mem[x].forward[0]
    && (forall j :: 1 <= j < |mem[x].forward| ==> mem'[new_].forward[j] == NULL)
    && mem'[new_].key == mem[x].key && mem'[new_].level == mem[x].level
  }

  lemma ReplacedLevel(mem: Memory, mem': Memory, header: Ptr, lane: seq<Ptr>, i: nat, update: seq<Ptr>, p: nat,
                      x: Ptr, new_: Ptr, upto: nat)
    requires Chained(mem, header, lane, i) && upto <= |update| && Replaced(mem, mem', update, x, new_, upto)
    requires lane == [header] || i < upto
    requires x != header && i < |update| && p < |lane| && update[i] == lane[p] && IsFloor(mem, header, lane, p, Rank(mem[x].key))
    ensures Chained(mem', header, Subst(lane, x, new_), i)
  {
    var l := Subst(lane, x, new_);
    forall q | 0 <= q < |l|
      ensures l[q] in mem' && l[q] != NULL && i < |mem'[l[q]].forward|
      ensures At(mem', header, l[q]) == At(mem, header, lane[q])
    {
      if lane[q] != x { assert SameNode(mem[lane[q]], mem'[lane[q]]); }
      assert header in mem by { assert lane[0] in mem; }
    }
    forall q | 0 <= q < |l| ensures NextOrNull(mem', l, q, i) {
      ReplacedNext(mem, mem', header, lane, i, update, p, x, new_, upto, q);
    }
  }

  lemma ReplacedNext(mem: Memory, mem': Memory, header: Ptr, lane: seq<Ptr>, i: nat, update: seq<Ptr>, p: nat,
                     x: Ptr, new_: Ptr, upto: nat, q: nat)
    requires Chained(mem, header, lane, i) && upto <= |update| && Replaced(mem, mem', update, x, new_, upto)
    requires lane == [header] || i < upto
    requires x != header && i < |update| && p < |lane| && update[i] == lane[p] && IsFloor(mem, header, lane, p, Rank(mem[x].key))
    requires q < |lane|
    ensures var l := Subst(lane, x, new_);
            l[q] in mem' && i < |mem'[l[q]].forward| && NextOrNull(mem', l, q, i)
    ensures i == 0 && mem[lane[q]].forward[0] != NULL ==> mem'[Subst(lane, x, new_)[q]].forward[0] != NULL
  {
    assert NextOrNull(mem, lane, q, i);
    if q + 1 < |lane| { assert At(mem, header, lane[q]) < At(mem, header, lane[q + 1]); }
    if lane[q] != x {
      assert SameNode(mem[lane[q]], mem'[lane[q]]);
      assert PointersRedirected(mem[lane[q]].forward, mem'[lane[q]].forward, lane[q], update, x, new_, upto);
      if q + 1 < |lane| && lane[q + 1] == x {
        assert p == q;
      }
    }
  }

  ghost function SubstAll(lanes: seq<seq<Ptr>>, x: Ptr, new_: Ptr): (r: seq<seq<Ptr>>)
    ensures |r| == |lanes| && forall i :: 0 <= i < |lanes| ==> r[i] == Subst(lanes[i], x, new_)
  {
    seq(|lanes|, i requires 0 <= i < |lanes| => Subst(lanes[i], x, new_))
  }

  lemma SubstSub(a: seq<Ptr>, b: seq<Ptr>, x: Ptr, new_: Ptr)
    requires Sub(a, b)
    ensures Sub(Subst(a, x, new_), Subst(b, x, new_))
  {
    forall n | n in Subst(a, x, new_) ensures n in Subst(b, x, new_) {
      var p :| 0 <= p < |a| && Subst(a, x, new_)[p] == n;
      assert a[p] in b;
      var q :| 0 <= q < |b| && b[q] == a[p];
      assert Subst(b, x, new_)[q] == n;
    }
  }

  lemma ReplacedCovered(mem: Memory, mem': Memory, header: Ptr, lane: seq<Ptr>, update: seq<Ptr>, p: nat,
                        x: Ptr, new_: Ptr, upto: nat)
    requires LaneOk(mem, header, lane, 0, []) && upto <= |update| && Replaced(mem, mem', update, x, new_, upto)
    requires x != header && 0 < upto && p < |lane| && update[0] == lane[p] && IsFloor(mem, header, lane, p, Rank(mem[x].key))
    ensures LaneOk(mem', header, Subst(lane, x, new_), 0, [])
  {
    ReplacedLevel(mem, mem', header, lane, 0, update, p, x, new_, upto);
    var l := Subst(lane, x, new_);
    forall q | 0 <= q < |l| ensures GapOk(mem', l, 0, [], q) {
      ReplacedNext(mem, mem', header, lane, 0, update, p, x, new_, upto, q);
      if q + 1 < |lane| { NoGap(mem, lane, 0, q); }
    }
  }

  lemma SubstTop(lanes: seq<seq<Ptr>>, header: Ptr, level: nat, x: Ptr, new_: Ptr)
    requires forall i :: level < i < |lanes| ==> lanes[i] == [header]
    requires x != header
    ensures forall i :: level < i < |lanes| ==> SubstAll(lanes, x, new_)[i] == [header]
  {
    forall i | level < i < |lanes| ensures SubstAll(lanes, x, new_)[i] == [header] {
      assert Subst(lanes[i], x, new_) == [header];
    }
  }

  lemma ReplacedCuttable(mem: Memory, mem': Memory, header: Ptr, level: nat, lanes: seq<seq<Ptr>>, update: seq<Ptr>,
                         pos: seq<nat>, x: Ptr, new_: Ptr)
    requires ShapeOk(mem, header, level, lanes) && |update| == MAX_LEVEL && x != header
    requires Replaced(mem, mem', update, x, new_, level + 1)
    requires Floors(mem, header, lanes, update, pos, Rank(mem[x].key), 0)
    ensures Cuttable(mem', header, SubstAll(lanes, x, new_))
  {
    var l := SubstAll(lanes, x, new_);
    forall i | 0 <= i < MAX_LEVEL ensures Chained(mem', header, l[i], i) {
      ReplacedLevel(mem, mem', header, lanes[i], i, update, pos[i], x, new_, level + 1);
    }
    forall i | 0 <= i < MAX_LEVEL - 1 ensures Nested(l, i) {
      assert Nested(lanes, i);
      SubstSub(lanes[i + 1], lanes[i], x, new_);
    }
    ReplacedCovered(mem, mem', header, lanes[0], update, pos[0], x, new_, level + 1);
  }

  lemma OnlyHeader(mem: Memory, header: Ptr, lane: seq<Ptr>, i: nat)
    requires Chained(mem, header, lane, i) && Sub(lane, [header])
    ensures lane == [header]
  {
    assert lane[|lane| - 1] in lane;
    assert At(mem, header, lane[|lane| - 1]) == At(mem, header, lane[0]);
  }

  lemma ReplacedTowers(mem: Memory, mem': Memory, header: Ptr, update: seq<Ptr>, x: Ptr, new_: Ptr, upto: nat)
    requires upto <= |update| && Replaced(mem, mem', update, x, new_, upto) && header in mem && x != header
    requires forall n :: n in mem ==> |mem[n].forward| == mem[n].level + 1 <= MAX_LEVEL
    ensures forall n :: n in mem' ==> |mem'[n].forward| == mem'[n].level + 1 <= MAX_LEVEL
    ensures header in mem' && |mem'[header].forward| == |mem[header].forward|
  {
    assert SameNode(mem[header], mem'[header]);
    forall n | n in mem' ensures |mem'[n].forward| == mem'[n].level + 1 <= MAX_LEVEL {
      if n != new_ { assert SameNode(mem[n], mem'[n]); }
    }
  }

  lemma CutKeepsTop(mem: Memory, header: Ptr, lanes: seq<seq<Ptr>>, cut: seq<seq<Ptr>>, level: nat)
    requires LanesOk(mem, header, cut) && |lanes| == MAX_LEVEL
    requires forall i :: 0 <= i < MAX_LEVEL ==> Sub(cut[i], lanes[i])
    requires forall i :: level < i < MAX_LEVEL ==> lanes[i] == [header]
    ensures forall i :: level < i < MAX_LEVEL ==> cut[i] == [header]
  {
    forall i | level < i < MAX_LEVEL ensures cut[i] == [header] {
      assert LaneOk(mem, header, cut[i], i, Above(cut, i));
      OnlyHeader(mem, header, cut[i], i);
    }
  }

  lemma ReplaceLanes(mem: Memory, mem': Memory, header: Ptr, level: nat, lanes: seq<seq<Ptr>>, update: seq<Ptr>,
                     pos: seq<nat>, x: Ptr, new_: Ptr) returns (lanes': seq<seq<Ptr>>)
    requires ShapeOk(mem, header, level, lanes) && |update| == MAX_LEVEL && x != header
    requires Replaced(mem, mem', update, x, new_, level + 1)
    requires Floors(mem, header, lanes, update, pos, Rank(mem[x].key), 0)
    ensures LanesOk(mem', header, lanes') && lanes'[0] == Subst(lanes[0], x, new_)
    ensures forall i :: level < i < MAX_LEVEL ==> lanes'[i] == [header]
  {
    assert Cuttable(mem', header, SubstAll(lanes, x, new_)) by {
      ReplacedCuttable(mem, mem', header, level, lanes, update, pos, x, new_);
    }
    lanes' := CutLanes(mem', header, SubstAll(lanes, x, new_));
    SubstTop(lanes, header, level, x, new_);
    CutKeepsTop(mem', header, SubstAll(lanes, x, new_), lanes', level);
  }

  lemma ReplaceShape(mem: Memory, mem': Memory, header: Ptr, level: nat, lanes: seq<seq<Ptr>>, update: seq<Ptr>,
                     pos: seq<nat>, x: Ptr, new_: Ptr) returns (lanes': seq<seq<Ptr>>)
    requires ShapeOk(mem, header, level, lanes) && |update| == MAX_LEVEL && x != header
    requires Replaced(mem, mem', update, x, new_, level + 1)
    requires Floors(mem, header, lanes, update, pos, Rank(mem[x].key), 0)
    ensures ShapeOk(mem', header, level, lanes') && lanes'[0] == Subst(lanes[0], x, new_)
  {
    lanes' := ReplaceLanes(mem, mem', header, level, lanes, update, pos, x, new_);
    ReplacedTowers(mem, mem', header, update, x, new_, level + 1);
  }

  lemma ReplacedMembers(mem: Memory, mem': Memory, lane: seq<Ptr>, x: Ptr, new_: Ptr)
    requires NodesOf(mem, lane)
    requires x in mem && new_ !in mem && mem'.Keys == mem.Keys - {x} + {new_}
    ensures NodesOf(mem', Subst(lane, x, new_))
  {
    var l := Subst(lane, x, new_);
    forall n | n in mem' ensures n in l {
      var q :| 0 <= q < |lane| && lane[q] == if n == new_ then x else n;
      assert l[q] == n;
    }
    forall n | n in l ensures n in mem' {
      var q :| 0 <= q < |l| && l[q] == n;
      assert lane[q] in lane;
    }
  }

  lemma ReplacedHolds(mem: Memory, mem': Memory, header: Ptr, model: map<Bytes, Entry>, x: Ptr, new_: Ptr)
    requires Holds(mem, header, model)
    requires header in mem && x in mem && x != header && new_ !in mem && mem'.Keys == mem.Keys - {x} + {new_}
    requires forall n :: n in mem && n != x ==> SameNode(mem[n], mem'[n])
    requires forall n :: n in mem && n != header && n != x ==> mem[n].key != mem[x].key
    requires mem'[new_].key == mem[x].key
    ensures Holds(mem', header, model[mem[x].key := EntryOf(mem'[new_])])
  {
    forall k | k in model && k != mem[x].key ensures HasKey(mem', header, k) {
      assert HasKey(mem, header, k);
      var n :| n in mem && n != header && mem[n].key == k;
      assert n in mem' && SameNode(mem[n], mem'[n]);
    }
    assert new_ in mem' && new_ != header && HasKey(mem', header, mem[x].key);
  }

  lemma ReplacedContents(mem: Memory, mem': Memory, header: Ptr, lane: seq<Ptr>, model: map<Bytes, Entry>,
                         update: seq<Ptr>, x: Ptr, new_: Ptr, upto: nat)
    requires Holds(mem, header, model) && Chained(mem, header, lane, 0)
    requires NodesOf(mem, lane)
    requires header in mem && x != header && upto <= |update| && Replaced(mem, mem', update, x, new_, upto)
    ensures Holds(mem', header, model[mem[x].key := EntryOf(mem'[new_])])
  {
    forall n | n in mem && n != header && n != x ensures mem[n].key != mem[x].key {
      DistinctKeys(mem, header, lane, 0, n, x);
    }
    ReplacedHolds(mem, mem', header, model, x, new_);
  }

  lemma DistinctKeys(mem: Memory, header: Ptr, lane: seq<Ptr>, i: nat, n: Ptr, x: Ptr)
    requires Chained(mem, header, lane, i) && n in lane && x in lane && n != x && n != header && x != header
    ensures mem[n].key != mem[x].key
  {
    var p :| 0 <= p < |lane| && lane[p] == n;
    var q :| 0 <= q < |lane| && lane[q] == x;
    if p < q {
      assert At(mem, header, lane[p]) < At(mem, header, lane[q]);
    } else {
      assert At(mem, header, lane[q]) < At(mem, header, lane[p]);
    }
  }

  lemma SubstSizes(mem: Memory, mem': Memory, lane: seq<Ptr>, lane': seq<Ptr>, q: nat, new_: Ptr)
    requires 1 <= q < |lane| && new_ in mem' && forall p :: 0 <= p < |lane| ==> lane[p] in mem
    requires forall p :: 0 <= p < |lane| && p != q ==> lane[p] in mem' && NodeSize(mem[lane[p]]) == NodeSize(mem'[lane[p]])
    requires lane' == lane[q := new_]
    ensures forall p :: 0 <= p < |lane'| ==> lane'[p] in mem'
    ensures Sizes(mem', lane'[1..]) + NodeSize(mem[lane[q]]) == Sizes(mem, lane[1..]) + NodeSize(mem'[new_])
  {
    var a, b := lane[1..q], lane[q + 1..];
    assert lane[1..] == a + [lane[q]] + b;
    assert lane'[1..] == a + [new_] + b;
    SizesSplit(mem, a, lane[q], b);
    SizesSplit(mem', a, new_, b);
    SizesFrame(mem, mem', a);
    SizesFrame(mem, mem', b);
  }

  lemma ReplacedSizes(mem: Memory, mem': Memory, header: Ptr, lane: seq<Ptr>, update: seq<Ptr>, x: Ptr, new_: Ptr, upto: nat)
    requires Chained(mem, header, lane, 0) && x in lane && x != header
    requires upto <= |update| && Replaced(mem, mem', update, x, new_, upto)
    ensures forall q :: 0 <= q < |lane| ==> Subst(lane, x, new_)[q] in mem'
    ensures Sizes(mem', Subst(lane, x, new_)[1..]) + NodeSize(mem[x]) == Sizes(mem, lane[1..]) + NodeSize(mem'[new_])
  {
    var q :| 0 <= q < |lane| && lane[q] == x;
    forall p | 0 <= p < |lane| && p != q ensures lane[p] != x && NodeSize(mem[lane[p]]) == NodeSize(mem'[lane[p]]) {
      assert if p < q then At(mem, header, lane[p]) < At(mem, header, lane[q])
             else At(mem, header, lane[q]) < At(mem, header, lane[p]);
      assert SameNode(mem[lane[p]], mem'[lane[p]]);
    }
    assert Subst(lane, x, new_) == lane[q := new_];
    SubstSizes(mem, mem', lane, Subst(lane, x, new_), q, new_);
  }

  /** The parts of the invariant that look at the bottom lane only. */
  lemma ReplaceRest(mem: Memory, mem': Memory, header: Ptr, bottom: seq<Ptr>, model: map<Bytes, Entry>,
                    used: nat, update: seq<Ptr>, x: Ptr, new_: Ptr, upto: nat, lane: seq<Ptr>)
    requires header in mem && Chained(mem, header, bottom, 0) && NodesOf(mem, bottom) && Holds(mem, header, model)
    requires used == Sizes(mem, bottom[1..]) && x != header
    requires upto <= |update| && Replaced(mem, mem', update, x, new_, upto) && lane == Subst(bottom, x, new_)
    ensures NodesOf(mem', lane) && Holds(mem', header, model[mem[x].key := EntryOf(mem'[new_])])
    ensures forall p :: 0 <= p < |lane| ==> lane[p] in mem'
    ensures lane != [] && used + NodeSize(mem'[new_]) == Sizes(mem', lane[1..]) + NodeSize(mem[x])
  {
    ReplacedMembers(mem, mem', bottom, x, new_);
    ReplacedContents(mem, mem', header, bottom, model, update, x, new_, upto);
    ReplacedSizes(mem, mem', header, bottom, update, x, new_, upto);
  }

  /** Replacing a node keeps the table well formed although its upper pointers are lost. */
  lemma ReplaceTableOk(mem: Memory, mem': Memory, header: Ptr, level: nat, lanes: seq<seq<Ptr>>, model: map<Bytes, Entry>,
                       used: nat, update: seq<Ptr>, pos: seq<nat>, x: Ptr, new_: Ptr) returns (lanes': seq<seq<Ptr>>)
    requires TableOk(mem, header, level, lanes, model, used) && |update| == MAX_LEVEL && x != header
    requires Replaced(mem, mem', update, x, new_, level + 1)
    requires Floors(mem, header, lanes, update, pos, Rank(mem[x].key), 0)
    ensures used + NodeSize(mem'[new_]) >= NodeSize(mem[x])
    ensures TableOk(mem', header, level, lanes', model[mem[x].key := EntryOf(mem'[new_])],
                    used - NodeSize(mem[x]) + NodeSize(mem'[new_]))
  {
    lanes' := ReplaceShape(mem, mem', header, level, lanes, update, pos, x, new_);
    assert LaneOk(mem, header, lanes[0], 0, Above(lanes, 0));
    ReplaceRest(mem, mem', header, lanes[0], model, used, update, x, new_, level + 1, lanes'[0]);
  }

  // ---------- Changing an entry in its node ----------

  lemma UpdateShape(mem: Memory, mem': Memory, header: Ptr, level: nat, lanes: seq<seq<Ptr>>, x: Ptr, n': Node)
    requires ShapeOk(mem, header, level, lanes) && x in mem && mem' == mem[x := n']
    requires n'.key == mem[x].key && n'.level == mem[x].level && n'.forward == mem[x].forward
    ensures ShapeOk(mem', header, level, lanes)
  {
    forall i | 0 <= i < MAX_LEVEL ensures LaneOk(mem', header, lanes[i], i, Above(lanes, i)) {
      assert LaneOk(mem, header, lanes[i], i, Above(lanes, i));
      FrameLane(mem, mem', header, lanes[i], i, Above(lanes, i), Above(lanes, i));
    }
  }

  lemma UpdateContents(mem: Memory, mem': Memory, header: Ptr, lane: seq<Ptr>, model: map<Bytes, Entry>, x: Ptr, n': Node)
    requires Holds(mem, header, model) && Chained(mem, header, lane, 0) && NodesOf(mem, lane)
    requires x in mem && x != header && mem' == mem[x := n'] && n'.key == mem[x].key
    ensures Holds(mem', header, model[mem[x].key := EntryOf(n')])
  {
    forall n | n in mem && n != header && n != x ensures mem[n].key != mem[x].key {
      DistinctKeys(mem, header, lane, 0, n, x);
    }
    forall k | k in model[mem[x].key := EntryOf(n')] ensures HasKey(mem', header, k) {
      if k == mem[x].key {
        assert mem'[x].key == k;
      } else {
        assert HasKey(mem, header, k);
        var n :| n in mem && n != header && mem[n].key == k;
        assert mem'[n].key == k;
      }
    }
  }

  lemma UpdateSizes(mem: Memory, mem': Memory, header: Ptr, lane: seq<Ptr>, x: Ptr, n': Node)
    requires Chained(mem, header, lane, 0) && NodesOf(mem, lane) && x in mem && x != header && mem' == mem[x := n']
    ensures forall p :: 0 <= p < |lane| ==> lane[p] in mem'
    ensures Sizes(mem', lane[1..]) + NodeSize(mem[x]) == Sizes(mem, lane[1..]) + NodeSize(n')
  {
    var q :| 0 <= q < |lane| && lane[q] == x;
    forall p | 0 <= p < |lane| && p != q ensures lane[p] != x {
      assert if p < q then At(mem, header, lane[p]) < At(mem, header, lane[q])
             else At(mem, header, lane[q]) < At(mem, header, lane[p]);
    }
    SubstSizes(mem, mem', lane, lane, q, x);
  }

  /** Rewriting value, sequence and tombstone flag of one node changes exactly its entry. */
  lemma UpdateTableOk(mem: Memory, mem': Memory, header: Ptr, level: nat, lanes: seq<seq<Ptr>>, model: map<Bytes, Entry>,
                      used: nat, x: Ptr, n': Node)
    requires TableOk(mem, header, level, lanes, model, used) && x in mem && x != header && mem' == mem[x := n']
    requires n'.key == mem[x].key && n'.level == mem[x].level && n'.forward == mem[x].forward
    ensures used + NodeSize(n') >= NodeSize(mem[x])
    ensures TableOk(mem', header, level, lanes, model[mem[x].key := EntryOf(n')],
                    used - NodeSize(mem[x]) + NodeSize(n'))
  {
    UpdateShape(mem, mem', header, level, lanes, x, n');
    assert Chained(mem, header, lanes[0], 0) by { assert LaneOk(mem, header, lanes[0], 0, Above(lanes, 0)); }
    UpdateContents(mem, mem', header, lanes[0], model, x, n');
    UpdateSizes(mem, mem', header, lanes[0], x, n');
  }

  // ---------- The memtable ----------

  /** The node behind the level-0 floor has the searched key, or no node has. */
  lemma FloorDecides(mem: Memory, header: Ptr, lane: seq<Ptr>, p: nat, key: Bytes)
    requires LaneOk(mem, header, lane, 0, []) && IsFloor(mem, header, lane, p, Rank(key))
    ensures var x := mem[lane[p]].forward[0];
            if p + 1 < |lane| then x == lane[p + 1] && x in mem && x != header else x == NULL
    ensures p + 1 == |lane| || mem[lane[p + 1]].key != key ==> Absent(mem, header, lane, Rank(key))
  {
    assert NextOrNull(mem, lane, p, 0);
    if p + 1 < |lane| {
      NoGap(mem, lane, 0, p);
      assert At(mem, header, lane[0]) < At(mem, header, lane[p + 1]);
      RankTotal(mem[lane[p + 1]].key, key);
    }
    if p + 1 == |lane| || mem[lane[p + 1]].key != key {
      forall q | 0 <= q < |lane| ensures At(mem, header, lane[q]) != Rank(key) {
        assert q < p ==> At(mem, header, lane[q]) < At(mem, header, lane[p]);
        assert p + 1 < q ==> At(mem, header, lane[p + 1]) < At(mem, header, lane[q]);
      }
    }
  }

  function HeaderNode(): Node {
    Node(0, [], [], false, MAX_LEVEL - 1, seq(MAX_LEVEL, _ => NULL))
  }

  lemma EmptyTable()
    ensures TableOk(map[1 := HeaderNode()], 1, 0, seq(MAX_LEVEL, _ => [1]), map[], 0)
  {
    var mem := map[1 := HeaderNode()];
    var lanes: seq<seq<Ptr>> := seq(MAX_LEVEL, _ => [1]);
    forall i | 0 <= i < MAX_LEVEL ensures LaneOk(mem, 1, lanes[i], i, Above(lanes, i)) {
      assert lanes[i] == [1];
    }
    assert lanes[0][1..] == [];
  }

  /** The inner loop of a descent: along one lane to the last node before the key. */
  method WalkLane(mem: Memory, ghost header: Ptr, i: nat, start: Ptr, key: Bytes, ghost lane: seq<Ptr>, ghost above: seq<Ptr>, ghost up: nat)
    returns (x: Ptr, ghost q: nat)
    requires LaneOk(mem, header, lane, i, above) && start in lane && At(mem, header, start) < Rank(key)
    requires above != [] ==> Chained(mem, header, above, i + 1) && IsFloor(mem, header, above, up, Rank(key))
    requires above != [] ==> At(mem, header, above[up]) <= At(mem, header, start)
    ensures q < |lane| && x == lane[q] && IsFloor(mem, header, lane, q, Rank(key))
  {
    q :| 0 <= q < |lane| && lane[q] == start;
    x := start;
    while true
      invariant q < |lane| && x == lane[q] && At(mem, header, x) < Rank(key)
      invariant At(mem, header, start) <= At(mem, header, x)
      decreases |lane| - q
    {
      assert NextOrNull(mem, lane, q, i);
      var next := mem[x].forward[i];
      if next == NULL {
        GapIsFloor(mem, header, lane, above, i, q, up, Rank(key));
        return;
      }
      assert At(mem, header, lane[0]) < At(mem, header, lane[q + 1]);
      assert At(mem, header, lane[q]) < At(mem, header, lane[q + 1]);
      if KeyCmp(key, mem[next].key) <= 0 { return; }
      x := next;
      q := q + 1;
    }
  }

  class Memtable {
    var mem: Memory
    var header: Ptr
    const sizeLimit: nat
    var used: nat
    var level: nat
    ghost var lanes: seq<seq<Ptr>>
    ghost var model: map<Bytes, Entry>

    ghost predicate Valid()
      reads this
    {
      TableOk(mem, header, level, lanes, model, used)
    }

    /** memtable_create */
    constructor (maxSize: nat)
      ensures Valid() && model == map[] && used == 0 && sizeLimit == maxSize
    {
      EmptyTable();
      mem := map[1 := HeaderNode()];
      header := 1;
      sizeLimit := maxSize;
      used := 0;
      level := 0;
      lanes := seq(MAX_LEVEL, _ => [1]);
      model := map[];
    }

    /** One level of the descent (src/storage/lsm.c:108-117): the last node of the lane before the key. */
    method Walk(i: nat, start: Ptr, key: Bytes, ghost up: nat) returns (x: Ptr, ghost q: nat)
      requires Valid() && i < MAX_LEVEL && start in lanes[i]
      requires start in mem && At(mem, header, start) < Rank(key)
      requires Above(lanes, i) != [] ==> LaneOk(mem, header, Above(lanes, i), i + 1, Above(lanes, i + 1))
      requires Above(lanes, i) != [] ==> IsFloor(mem, header, Above(lanes, i), up, Rank(key))
      requires Above(lanes, i) != [] ==> At(mem, header, Above(lanes, i)[up]) <= At(mem, header, start)
      ensures q < |lanes[i]| && x == lanes[i][q]
      ensures LaneOk(mem, header, lanes[i], i, Above(lanes, i)) && IsFloor(mem, header, lanes[i], q, Rank(key))
    {
      assert LaneOk(mem, header, lanes[i], i, Above(lanes, i));
      x, q := WalkLane(mem, header, i, start, key, lanes[i], Above(lanes, i), up);
    }


    method DescendLevel(i: nat, start: Ptr, key: Bytes, update: seq<Ptr>, ghost pos: seq<nat>)
      returns (x: Ptr, update': seq<Ptr>, ghost pos': seq<nat>)
      requires Valid() && i < MAX_LEVEL && Floors(mem, header, lanes, update, pos, Rank(key), i + 1)
      requires start == if i + 1 < MAX_LEVEL then update[i + 1] else header
      ensures Floors(mem, header, lanes, update', pos', Rank(key), i) && x == update'[i]
    {
      StartOnLane(mem, header, level, lanes, update, pos, Rank(key), i, start);
      ghost var q;
      x, q := Walk(i, start, key, if i + 1 < MAX_LEVEL then pos[i + 1] else 0);
      ExtendFloors(mem, header, lanes, update, pos, Rank(key), i, x, q);
      update' := update[i := x];
      pos' := pos[i := q];
    }

    /** The descent of memtable_put: on every level, the last node before the key. */
    method Descend(key: Bytes) returns (update: seq<Ptr>, ghost pos: seq<nat>)
      requires Valid()
      ensures Floors(mem, header, lanes, update, pos, Rank(key), 0)
    {
      var x := header;
      update, pos := AllHeader(mem, header, level, lanes, Rank(key));
      for i := level + 1 downto 0
        invariant Floors(mem, header, lanes, update, pos, Rank(key), i)
        invariant x == if i < MAX_LEVEL then update[i] else header
      {
        x, update, pos := DescendLevel(i, x, key, update, pos);
      }
    }

    /** Links a fresh node in on levels 0..lvl (src/storage/lsm.c:155-176). */
    method InsertNode(seqno: nat, key: Bytes, val: Bytes, lvl: nat, addr: Ptr, update: seq<Ptr>, ghost pos: seq<nat>)
      requires Valid() && lvl < MAX_LEVEL && addr != NULL && addr !in mem
      requires Floors(mem, header, lanes, update, pos, Rank(key), 0)
      requires Absent(mem, header, lanes[0], Rank(key))
      modifies this
      ensures Valid() && header == old(header)
      ensures model == old(model)[key := Entry(seqno, val, false)]
      ensures used == old(used) + NODE_HEADER + (lvl + 1) * POINTER_SIZE + |key| + |val|
    {
      var m, u, top; ghost var ls;
      m, u, top, ls := Insertion(mem, header, level, lanes, model, used, seqno, key, val, lvl, addr, update, pos);
      mem, used, lanes, model, level := m, u, ls, model[key := Entry(seqno, val, false)], top;
    }

    /** Replaces the node x by a larger one at `addr` and frees x (src/storage/lsm.c:133-152). */
    method ReplaceNode(seqno: nat, val: Bytes, addr: Ptr, x: Ptr, update: seq<Ptr>, ghost pos: seq<nat>)
      requires Valid() && x in mem && x != header && x != NULL && addr != NULL && addr !in mem
      requires Floors(mem, header, lanes, update, pos, Rank(mem[x].key), 0)
      modifies this
      ensures Valid() && header == old(header)
      ensures model == old(model)[old(mem[x].key) := Entry(seqno, val, false)]
      ensures x !in mem && mem.Keys == old(mem.Keys) - {x} + {addr}
    {
      var m, u, lanes' := Replacement(mem, header, level, lanes, model, used, seqno, val, addr, x, update, pos);
      mem, used, lanes, model := m, u, lanes', model[mem[x].key := Entry(seqno, val, false)];
    }

    /** Rewrites the entry of node x without moving it (src/storage/lsm.c:124-131, 192). */
    method RewriteNode(seqno: nat, val: Bytes, deleted: bool, x: Ptr)
      requires Valid() && x in mem && x != header
      modifies this
      ensures Valid() && header == old(header) && mem.Keys == old(mem.Keys)
      ensures model == old(model)[old(mem[x].key) := Entry(seqno, val, deleted)]
    {
      var n := mem[x].(seqno := seqno, val := val, deleted := deleted);
      UpdateTableOk(mem, mem[x := n], header, level, lanes, model, used, x, n);
      var u := used - |mem[x].val| + |val|;
      assert u == used - NodeSize(mem[x]) + NodeSize(n);
      mem, used, model := mem[x := n], u, model[mem[x].key := EntryOf(n)];
    }

    /** memtable_put: afterwards the table maps the key to the new live entry and is otherwise unchanged,
        for every tower height and every address the allocator may return. */
    method Put(seqno: nat, key: Bytes, val: Bytes, lvl: nat, addr: Ptr)
      requires Valid() && lvl < MAX_LEVEL && addr != NULL && addr !in mem
      modifies this
      ensures Valid() && header == old(header)
      ensures model == old(model)[key := Entry(seqno, val, false)]
    {
      var update, pos := Descend(key);
      FloorDecides(mem, header, lanes[0], pos[0], key);
      var x := mem[update[0]].forward[0];
      if x != NULL && KeyCmp(key, mem[x].key) == 0 {
        if |val| <= |mem[x].val| {
          RewriteNode(seqno, val, false, x);
        } else {
          ReplaceNode(seqno, val, addr, x, update, pos);
        }
      } else {
        InsertNode(seqno, key, val, lvl, addr, update, pos);
      }
    }

    /** The level-0 walk shared by memtable_get and memtable_delete: the node with the key, or NULL. */
    method Find(key: Bytes) returns (x: Ptr)
      requires Valid()
      ensures if x == NULL then key !in model else x in mem && x != header && mem[x].key == key && key in model
    {
      assert LaneOk(mem, header, lanes[0], 0, []);
      x := header;
      ghost var q := 0;
      while true
        invariant q < |lanes[0]| && x == lanes[0][q] && At(mem, header, x) < Rank(key)
        decreases |lanes[0]| - q
      {
        NextOnLane(mem, header, lanes[0], q);
        x := mem[x].forward[0];
        if x == NULL {
          NotHeld(mem, header, lanes[0], model, q, key);
          return;
        }
        var cmp := KeyCmp(key, mem[x].key);
        if cmp == 0 { return; }
        if cmp < 0 {
          NotHeld(mem, header, lanes[0], model, q, key);
          x := NULL;
          return;
        }
        q := q + 1;
      }
    }

    /** memtable_delete: leaves a tombstone under the key, whether or not it was present. */
    method Delete(seqno: nat, key: Bytes, lvl: nat, addr: Ptr)
      requires Valid() && lvl < MAX_LEVEL && addr != NULL && addr !in mem
      modifies this
      ensures Valid() && header == old(header)
      ensures model == old(model)[key := Entry(seqno, [], true)]
    {
      Put(seqno, key, [], lvl, addr);
      var x := Find(key);
      HeldEntry(mem, header, model, x);
      RewriteNode(mem[x].seqno, mem[x].val, true, x);
    }

    /** memtable_get: found exactly when the table holds a live entry. */
    method Get(key: Bytes) returns (found: bool, val: Bytes, deleted: bool)
      requires Valid()
      ensures found <==> key in model && !model[key].deleted
      ensures deleted <==> key in model && model[key].deleted
      ensures found ==> val == model[key].val
    {
      var x := Find(key);
      if x == NULL {
        return false, [], false;
      }
      return !mem[x].deleted, mem[x].val, mem[x].deleted;
    }

    /** memtable_iterate: every entry once, in strictly increasing key order. */
    method Iterate() returns (out: seq<(Bytes, Entry)>)
      requires Valid()
      ensures forall i, j :: 0 <= i < j < |out| ==> Rank(out[i].0) < Rank(out[j].0)
      ensures forall i :: 0 <= i < |out| ==> out[i].0 in model && model[out[i].0] == out[i].1
      ensures forall k :: k in model ==> (k, model[k]) in out
    {
      assert LaneOk(mem, header, lanes[0], 0, []);
      out := ListLane(mem, header, lanes[0]);
      ListingComplete(mem, header, lanes[0], model, out);
    }
  }

  /** e is the entry of the i-th node behind the header. */
  ghost predicate Listed(mem: Memory, lane: seq<Ptr>, i: nat, e: (Bytes, Entry))
  {
    i + 1 < |lane| && lane[i + 1] in mem && e == (mem[lane[i + 1]].key, EntryOf(mem[lane[i + 1]]))
  }

  /** The memory, size and level after a new tower is linked in. */
  method Insertion(mem: Memory, header: Ptr, level: nat, ghost lanes: seq<seq<Ptr>>, ghost model: map<Bytes, Entry>,
                   used: nat, seqno: nat, key: Bytes, val: Bytes, lvl: nat, addr: Ptr, update: seq<Ptr>, ghost pos: seq<nat>)
    returns (m: Memory, u: nat, top: nat, ghost ls: seq<seq<Ptr>>)
    requires TableOk(mem, header, level, lanes, model, used) && lvl < MAX_LEVEL && addr != NULL && addr !in mem
    requires Floors(mem, header, lanes, update, pos, Rank(key), 0)
    requires Absent(mem, header, lanes[0], Rank(key))
    ensures TableOk(m, header, top, ls, model[key := Entry(seqno, val, false)], u)
    ensures u == used + NODE_HEADER + (lvl + 1) * POINTER_SIZE + |key| + |val|
  {
    UsableUpdate(mem, header, lanes, update, pos, Rank(key));
    m := LinkAll(mem, update, lvl, addr, Node(seqno, key, val, false, lvl, seq(lvl + 1, _ => NULL)));
    InsertTableOk(mem, m, header, level, lanes, model, used, update, pos, addr, lvl);
    u := used + NODE_HEADER + (lvl + 1) * POINTER_SIZE + |key| + |val|;
    top := if lvl > level then lvl else level;
    ls := InsertLanes(lanes, pos, addr, lvl);
    NewSize(m[addr], seqno, key, val, lvl);
  }

  lemma NewSize(n: Node, seqno: nat, key: Bytes, val: Bytes, lvl: nat)
    requires n.key == key && n.val == val && n.level == lvl && n.seqno == seqno && !n.deleted
    ensures NodeSize(n) == NODE_HEADER + (lvl + 1) * POINTER_SIZE + |key| + |val| && EntryOf(n) == Entry(seqno, val, false)
  {
  }

  /** Memory and size after replacing x, with the lanes that show the table is still well formed. */
  method Replacement(mem: Memory, header: Ptr, level: nat, ghost lanes: seq<seq<Ptr>>, ghost model: map<Bytes, Entry>,
                     used: nat, seqno: nat, val: Bytes, addr: Ptr, x: Ptr, update: seq<Ptr>, ghost pos: seq<nat>)
    returns (m: Memory, u: nat, ghost lanes': seq<seq<Ptr>>)
    requires TableOk(mem, header, level, lanes, model, used)
    requires x in mem && x != header && x != NULL && addr != NULL && addr !in mem
    requires Floors(mem, header, lanes, update, pos, Rank(mem[x].key), 0)
    ensures TableOk(m, header, level, lanes', model[mem[x].key := Entry(seqno, val, false)], u)
    ensures m.Keys == mem.Keys - {x} + {addr}
  {
    UsableUpdate(mem, header, lanes, update, pos, Rank(mem[x].key));
    UpdateBelow(mem, header, lanes, update, pos, x);
    var n := mem[x].(seqno := seqno, val := val, deleted := false, forward := seq(mem[x].level + 1, _ => NULL));
    m := RedirectAll(mem, update, level, x, addr, n);
    lanes' := ReplaceTableOk(mem, m, header, level, lanes, model, used, update, pos, x, addr);
    u := used - NodeSize(mem[x]) + NodeSize(m[addr]);
    assert EntryOf(m[addr]) == Entry(seqno, val, false);
  }

  lemma NextOnLane(mem: Memory, header: Ptr, lane: seq<Ptr>, q: nat)
    requires LaneOk(mem, header, lane, 0, []) && q < |lane|
    ensures mem[lane[q]].forward[0] == if q + 1 < |lane| then lane[q + 1] else NULL
    ensures q + 1 < |lane| ==> lane[q + 1] != header && lane[q + 1] != NULL
  {
    assert NextOrNull(mem, lane, q, 0);
    if q + 1 < |lane| {
      NoGap(mem, lane, 0, q);
      assert At(mem, header, lane[0]) < At(mem, header, lane[q + 1]);
    }
  }

  lemma NotHeld(mem: Memory, header: Ptr, lane: seq<Ptr>, model: map<Bytes, Entry>, q: nat, key: Bytes)
    requires LaneOk(mem, header, lane, 0, []) && NodesOf(mem, lane) && Holds(mem, header, model)
    requires IsFloor(mem, header, lane, q, Rank(key)) && (q + 1 < |lane| ==> At(mem, header, lane[q + 1]) != Rank(key))
    ensures key !in model
  {
    forall p | 0 <= p < |lane| ensures At(mem, header, lane[p]) != Rank(key) { OffTheFloor(mem, header, lane, q, Rank(key), p); }
    forall n | n in mem && n != header ensures mem[n].key != key {
      var p :| 0 <= p < |lane| && lane[p] == n;
      assert At(mem, header, lane[p]) != Rank(key);
    }
    assert !HasKey(mem, header, key);
  }

  /** A lane has a node at r only right after the floor of r. */
  lemma OffTheFloor(mem: Memory, header: Ptr, lane: seq<Ptr>, q: nat, r: real, p: nat)
    requires Chained(mem, header, lane, 0) && p < |lane|
    requires IsFloor(mem, header, lane, q, r) && (q + 1 < |lane| ==> At(mem, header, lane[q + 1]) != r)
    ensures At(mem, header, lane[p]) != r
  {
    if p <= q {
      assert p < q ==> At(mem, header, lane[p]) < At(mem, header, lane[q]);
    } else {
      assert p > q + 1 ==> At(mem, header, lane[q + 1]) < At(mem, header, lane[p]);
    }
  }

  /** The walk along the bottom lane. */
  method ListLane(mem: Memory, header: Ptr, ghost lane: seq<Ptr>) returns (out: seq<(Bytes, Entry)>)
    requires LaneOk(mem, header, lane, 0, [])
    ensures |out| + 1 == |lane| && forall i :: 0 <= i < |out| ==> Listed(mem, lane, i, out[i])
  {
    out := [];
    NextOnLane(mem, header, lane, 0);
    var x := mem[header].forward[0];
    while x != NULL
      invariant |out| < |lane|
      invariant x == if |out| + 1 < |lane| then lane[|out| + 1] else NULL
      invariant forall i :: 0 <= i < |out| ==> Listed(mem, lane, i, out[i])
      decreases |lane| - |out|
    {
      out := out + [(mem[x].key, Entry(mem[x].seqno, mem[x].val, mem[x].deleted))];
      NextOnLane(mem, header, lane, |out|);
      x := mem[x].forward[0];
    }
  }

  lemma HeldEntry(mem: Memory, header: Ptr, model: map<Bytes, Entry>, x: Ptr)
    requires Holds(mem, header, model) && x in mem && x != header
    ensures mem[x].key in model && model[mem[x].key] == Entry(mem[x].seqno, mem[x].val, mem[x].deleted)
  {
  }

  lemma ListingComplete(mem: Memory, header: Ptr, lane: seq<Ptr>, model: map<Bytes, Entry>, out: seq<(Bytes, Entry)>)
    requires LaneOk(mem, header, lane, 0, []) && NodesOf(mem, lane) && Holds(mem, header, model)
    requires |out| + 1 == |lane| && forall i :: 0 <= i < |out| ==> Listed(mem, lane, i, out[i])
    ensures forall i, j :: 0 <= i < j < |out| ==> Rank(out[i].0) < Rank(out[j].0)
    ensures forall i :: 0 <= i < |out| ==> out[i].0 in model && model[out[i].0] == out[i].1
    ensures forall k :: k in model ==> (k, model[k]) in out
  {
    forall i | 0 <= i < |out|
      ensures At(mem, header, lane[i + 1]) == Rank(out[i].0) && out[i].0 in model && model[out[i].0] == out[i].1
    {
      assert Listed(mem, lane, i, out[i]);
      assert At(mem, header, lane[0]) < At(mem, header, lane[i + 1]);
    }
    forall i, j | 0 <= i < j < |out| ensures Rank(out[i].0) < Rank(out[j].0) {
      assert At(mem, header, lane[i + 1]) < At(mem, header, lane[j + 1]);
    }
    forall k | k in model ensures (k, model[k]) in out {
      assert HasKey(mem, header, k);
      var n :| n in mem && n != header && mem[n].key == k;
      var p :| 0 <= p < |lane| && lane[p] == n;
      assert Listed(mem, lane, p - 1, out[p - 1]);
    }
  }

  lemma UpdateBelow(mem: Memory, header: Ptr, lanes: seq<seq<Ptr>>, update: seq<Ptr>, pos: seq<nat>, x: Ptr)
    requires LanesOk(mem, header, lanes) && x in mem && x != header
    requires Floors(mem, header, lanes, update, pos, Rank(mem[x].key), 0)
    ensures forall j :: 0 <= j < |update| ==> update[j] != x
  {
    forall j | 0 <= j < |update| ensures update[j] != x {
      assert IsFloor(mem, header, lanes[j], pos[j], Rank(mem[x].key));
    }
  }

  /** State of the redirecting loop: pointers to x on levels below `upto` already lead to `new_`. */
  ghost predicate Redirected(mem: Memory, m: Memory, update: seq<Ptr>, x: Ptr, new_: Ptr, n: Node, upto: nat)
    requires upto <= |update|
  {
    && new_ !in mem && m.Keys == mem.Keys + {new_} && m[new_] == n
    && (forall k :: k in mem ==> SameNode(mem[k], m[k]))
    && (forall k :: k in mem ==> PointersRedirected(mem[k].forward, m[k].forward, k, update, x, new_, upto))
  }

  /** The redirecting loop, the copy of `forward[0]` and the release of x. */
  method RedirectAll(mem: Memory, update: seq<Ptr>, level: nat, x: Ptr, addr: Ptr, n: Node) returns (m: Memory)
    requires level < |update| && Usable(mem, update) && x in mem && x != NULL && addr !in mem && addr != NULL
    requires forall j :: 0 <= j < |update| ==> update[j] != x
    requires |mem[x].forward| == mem[x].level + 1
    requires n.forward == seq(mem[x].level + 1, _ => NULL) && n.key == mem[x].key && n.level == mem[x].level
    ensures Replaced(mem, m, update, x, addr, level + 1)
    ensures SameNode(n, m[addr])
  {
    m := mem[addr := n];
    for i := 0 to level + 1
      invariant Redirected(mem, m, update, x, addr, n, i)
    {
      RedirectStep(mem, m, update, x, addr, n, i);
      if m[update[i]].forward[i] == x {
        m := m[update[i] := m[update[i]].(forward := m[update[i]].forward[i := addr])];
      }
    }
    assert PointersRedirected(mem[x].forward, m[x].forward, x, update, x, addr, level + 1);
    m := m[addr := m[addr].(forward := m[addr].forward[0 := m[x].forward[0]])];
    m := m - {x};
  }

  lemma RedirectStep(mem: Memory, m: Memory, update: seq<Ptr>, x: Ptr, new_: Ptr, n: Node, i: nat)
    requires i < |update| && Usable(mem, update) && Redirected(mem, m, update, x, new_, n, i)
    ensures update[i] in m && i < |m[update[i]].forward| && update[i] != new_
    ensures var u := update[i];
            Redirected(mem, if m[u].forward[i] == x then m[u := m[u].(forward := m[u].forward[i := new_])] else m,
                       update, x, new_, n, i + 1)
  {
    var u := update[i];
    assert SameNode(mem[u], m[u]) && PointersRedirected(mem[u].forward, m[u].forward, u, update, x, new_, i);
    var m' := if m[u].forward[i] == x then m[u := m[u].(forward := m[u].forward[i := new_])] else m;
    forall k | k in mem
      ensures SameNode(mem[k], m'[k]) && PointersRedirected(mem[k].forward, m'[k].forward, k, update, x, new_, i + 1)
    {
      assert SameNode(mem[k], m[k]) && PointersRedirected(mem[k].forward, m[k].forward, k, update, x, new_, i);
    }
  }

  /** Every update[j] is a live node whose tower reaches level j. */
  ghost predicate Usable(mem: Memory, update: seq<Ptr>)
  {
    forall j :: 0 <= j < |update| ==> update[j] in mem && j < |mem[update[j]].forward|
  }

  lemma UsableUpdate(mem: Memory, header: Ptr, lanes: seq<seq<Ptr>>, update: seq<Ptr>, pos: seq<nat>, r: real)
    requires LanesOk(mem, header, lanes) && Floors(mem, header, lanes, update, pos, r, 0)
    ensures Usable(mem, update)
  {
    forall j | 0 <= j < |update| ensures update[j] in mem && j < |mem[update[j]].forward| {
      assert LaneOk(mem, header, lanes[j], j, Above(lanes, j));
    }
  }

  /** The linking loop: level by level, the new node takes over the pointer of update[i]. */
  method LinkAll(mem: Memory, update: seq<Ptr>, lvl: nat, addr: Ptr, n: Node) returns (m: Memory)
    requires lvl < |update| && Usable(mem, update) && addr !in mem && |n.forward| == lvl + 1
    ensures LinkedIn(mem, m, update, addr, lvl + 1) && SameNode(n, m[addr])
  {
    m := mem[addr := n];
    for i := 0 to lvl + 1
      invariant LinkedIn(mem, m, update, addr, i) && SameNode(n, m[addr])
    {
      LinkStep(mem, m, update, addr, i);
      var f := m[update[i]].forward[i];
      m := m[addr := m[addr].(forward := m[addr].forward[i := f])];
      m := m[update[i] := m[update[i]].(forward := m[update[i]].forward[i := addr])];
    }
  }

  /** One round of the linking loop redirects update[i] on level i, whatever the earlier rounds did. */
  lemma LinkStep(mem: Memory, m: Memory, update: seq<Ptr>, new_: Ptr, i: nat)
    requires i < |update| && Usable(mem, update) && LinkedIn(mem, m, update, new_, i) && i < |m[new_].forward|
    ensures update[i] in mem && update[i] in m && update[i] != new_ && i < |m[update[i]].forward|
    ensures m[update[i]].forward[i] == mem[update[i]].forward[i]
    ensures var m1 := m[new_ := m[new_].(forward := m[new_].forward[i := m[update[i]].forward[i]])];
            var m2 := m1[update[i] := m1[update[i]].(forward := m1[update[i]].forward[i := new_])];
            LinkedIn(mem, m2, update, new_, i + 1)
  {
    var u := update[i];
    assert SameNode(mem[u], m[u]) && PointersAfter(mem[u].forward, m[u].forward, u, update, new_, i);
    var m1 := m[new_ := m[new_].(forward := m[new_].forward[i := m[u].forward[i]])];
    var m2 := m1[u := m1[u].(forward := m1[u].forward[i := new_])];
    forall n | n in mem
      ensures SameNode(mem[n], m2[n]) && PointersAfter(mem[n].forward, m2[n].forward, n, update, new_, i + 1)
    {
      assert SameNode(mem[n], m[n]) && PointersAfter(mem[n].forward, m[n].forward, n, update, new_, i);
    }
  }

  method AllHeader(ghost mem: Memory, header: Ptr, level: nat, ghost lanes: seq<seq<Ptr>>, ghost r: real) returns (update: seq<Ptr>, ghost pos: seq<nat>)
    requires ShapeOk(mem, header, level, lanes) && 0.0 <= r
    ensures Floors(mem, header, lanes, update, pos, r, level + 1)
    ensures level + 1 < MAX_LEVEL ==> update[level + 1] == header
  {
    update := seq(MAX_LEVEL, _ => header);
    pos := seq(MAX_LEVEL, _ => 0);
    FloorsAboveLevel(mem, header, level, lanes, update, pos, r);
  }

  lemma FloorsAboveLevel(mem: Memory, header: Ptr, level: nat, lanes: seq<seq<Ptr>>, update: seq<Ptr>, pos: seq<nat>, r: real)
    requires ShapeOk(mem, header, level, lanes) && |update| == |pos| == MAX_LEVEL && 0.0 <= r
    requires forall i :: 0 <= i < MAX_LEVEL ==> update[i] == header && pos[i] == 0
    ensures Floors(mem, header, lanes, update, pos, r, level + 1)
  {
    forall i | level + 1 <= i < MAX_LEVEL ensures IsFloor(mem, header, lanes[i], pos[i], r) {
      assert lanes[i] == [header];
    }
  }

  /** Going down a level: the node reached above is on the next lane too, at its floor or before. */
  lemma StartOnLane(mem: Memory, header: Ptr, level: nat, lanes: seq<seq<Ptr>>, update: seq<Ptr>, pos: seq<nat>, r: real,
                    i: nat, x: Ptr)
    requires ShapeOk(mem, header, level, lanes) && i < MAX_LEVEL && 0.0 <= r
    requires Floors(mem, header, lanes, update, pos, r, i + 1)
    requires x == if i + 1 < MAX_LEVEL then update[i + 1] else header
    ensures x in lanes[i] && x in mem && At(mem, header, x) < r
    ensures i + 1 < MAX_LEVEL ==> LaneOk(mem, header, lanes[i + 1], i + 1, Above(lanes, i + 1))
    ensures i + 1 < MAX_LEVEL ==> IsFloor(mem, header, lanes[i + 1], pos[i + 1], r) && lanes[i + 1][pos[i + 1]] == x
  {
    assert LaneOk(mem, header, lanes[i], i, Above(lanes, i));
    if i + 1 < MAX_LEVEL {
      assert Nested(lanes, i);
      assert x in lanes[i + 1];
    } else {
      assert lanes[i][0] == header;
    }
  }

  lemma ExtendFloors(mem: Memory, header: Ptr, lanes: seq<seq<Ptr>>, update: seq<Ptr>, pos: seq<nat>, r: real,
                     i: nat, x: Ptr, q: nat)
    requires LanesOk(mem, header, lanes) && i < MAX_LEVEL && Floors(mem, header, lanes, update, pos, r, i + 1)
    requires q < |lanes[i]| && x == lanes[i][q]
    requires LaneOk(mem, header, lanes[i], i, Above(lanes, i)) && IsFloor(mem, header, lanes[i], q, r)
    ensures Floors(mem, header, lanes, update[i := x], pos[i := q], r, i)
  {
  }
}
