/** The whole B+tree through any run of puts and deletes, and its in-order listing
    (src/storage/btree.c:212-297). */
module BTreeRuns {
  import opened Keys
  import opened BTree

  /** The tree with the depth of its leaves and the next unused node address. */
  datatype Root = Root(tree: Tree, depth: nat, fresh_: nat)

  ghost predicate Formed(r: Root, stray: bool) {
    Shape(r.tree, r.depth) && Ordered(r.tree, -1.0, 2.0, stray)
  }

  /** What every run of puts and deletes keeps: leaves may hold stray keys, left behind by misrouted puts. */
  ghost predicate Valid(r: Root) {
    Formed(r, true)
  }

  /** No stray keys: what a run keeps as long as no put is misrouted. */
  ghost predicate Tidy(r: Root) {
    Formed(r, false)
  }

  /** btree_create */
  function Empty(): (r: Root)
    ensures Tidy(r) && Valid(r) && forall k :: Lookup(r, k) == None
  {
    Root(Leaf(0, [], []), 0, 1)
  }

  function Lookup(r: Root, k: Bytes): Option<Bytes>
    requires Shape(r.tree, r.depth)
  {
    Search(r.tree, k, r.depth)
  }

  /** A full root is split under a new root first (src/storage/btree.c:241-248). */
  function Grown(r: Root): (g: Root)
    requires Shape(r.tree, r.depth)
    ensures Shape(g.tree, g.depth) && !Full(g.tree)
  {
    if Full(r.tree) then
      Root(SplitChild(Inner(r.fresh_, [], [r.tree]), 0, r.depth + 1, r.fresh_ + 1), r.depth + 1, r.fresh_ + 2)
    else r
  }

  /** btree_put */
  function Put(r: Root, k: Bytes, v: Bytes): (r': Root)
    requires Shape(r.tree, r.depth)
    ensures Shape(r'.tree, r'.depth)
  {
    var g := Grown(r);
    var (t, f) := InsertNonfull(g.tree, k, v, g.depth, g.fresh_);
    Root(t, g.depth, f)
  }

  /** btree_delete */
  function Delete(r: Root, k: Bytes): (r': Root)
    requires Shape(r.tree, r.depth)
    ensures Shape(r'.tree, r'.depth)
  {
    r.(tree := Remove(r.tree, k, r.depth))
  }

  /** Something the caller can check before the put: on the way down, a full child below the root
      has k as the key its split promotes. */
  predicate PutMisroutes(r: Root, k: Bytes)
    requires Shape(r.tree, r.depth)
  {
    Misroutes(Grown(r).tree, k, Grown(r).depth)
  }

  lemma NewRootSame(t: Tree, d: nat, id: nat, stray: bool, j: Bytes)
    requires Shape(t, d) && Ordered(t, -1.0, 2.0, stray)
    ensures var n := Inner(id, [], [t]);
            Shape(n, d + 1) && Ordered(n, -1.0, 2.0, stray) && Search(n, j, d + 1) == Search(t, j, d)
  {
    var n := Inner(id, [], [t]);
    assert n.kids[0] == t;
    SearchVia(n, d + 1, j, 0);
  }

  lemma GrownSame(r: Root, stray: bool, j: Bytes)
    requires Formed(r, stray)
    ensures Formed(Grown(r), stray) && Lookup(Grown(r), j) == Lookup(r, j)
  {
    if Full(r.tree) {
      var n := Inner(r.fresh_, [], [r.tree]);
      NewRootSame(r.tree, r.depth, r.fresh_, stray, j);
      RootSplit(n, r.depth + 1, r.fresh_ + 1, stray, j);
      assert Grown(r).tree == SplitChild(n, 0, r.depth + 1, r.fresh_ + 1);
    }
  }

  lemma RootSplit(n: Tree, d: nat, fresh_: nat, stray: bool, j: Bytes)
    requires Shape(n, d) && n.Inner? && |n.kids| == 1 && Full(n.kids[0]) && Ordered(n, -1.0, 2.0, stray)
    ensures var s := SplitChild(n, 0, d, fresh_); Ordered(s, -1.0, 2.0, stray) && Search(s, j, d) == Search(n, j, d)
  {
    SplitChildOrdered(n, 0, -1.0, 2.0, stray, d, fresh_);
    SplitChildSearch(n, 0, -1.0, 2.0, stray, d, fresh_, j);
  }

  /** What a put does to every lookup of any tree a run can make, exactly: it is lost if and only if it is misrouted. */
  lemma PutLookup(r: Root, k: Bytes, v: Bytes, j: Bytes)
    requires Valid(r)
    ensures Lookup(Put(r, k, v), j) == if j == k && !PutMisroutes(r, k) then Some(v) else Lookup(r, j)
    ensures Valid(Put(r, k, v))
  {
    var g := Grown(r);
    GrownSame(r, true, j);
    if j == k {
      InsertSelf(g.tree, k, v, g.depth, g.fresh_, -1.0, 2.0, true);
    } else {
      InsertOther(g.tree, k, v, g.depth, g.fresh_, -1.0, 2.0, true, j);
    }
    InsertOrdered(g.tree, k, v, g.depth, g.fresh_, -1.0, 2.0, true);
  }

  lemma PutTidy(r: Root, k: Bytes, v: Bytes)
    requires Tidy(r) && !PutMisroutes(r, k)
    ensures Tidy(Put(r, k, v))
  {
    var g := Grown(r);
    GrownSame(r, false, k);
    InsertOrdered(g.tree, k, v, g.depth, g.fresh_, -1.0, 2.0, false);
  }

  /** Reading back what was put works exactly when the put is not misrouted, or changes nothing. */
  lemma PutVisibleIff(r: Root, k: Bytes, v: Bytes)
    requires Valid(r)
    ensures Lookup(Put(r, k, v), k) == Some(v) <==> !PutMisroutes(r, k) || Lookup(r, k) == Some(v)
  {
    PutLookup(r, k, v, k);
  }

  lemma DeleteLookup(r: Root, k: Bytes, j: Bytes)
    requires Valid(r)
    ensures Valid(Delete(r, k)) && Lookup(Delete(r, k), j) == if j == k then None else Lookup(r, j)
  {
    RemoveSearch(r.tree, k, r.depth, -1.0, 2.0, true, j);
    RemoveOrdered(r.tree, k, r.depth, -1.0, 2.0, true);
  }

  lemma DeleteTidy(r: Root, k: Bytes)
    requires Tidy(r)
    ensures Tidy(Delete(r, k))
  {
    RemoveOrdered(r.tree, k, r.depth, -1.0, 2.0, false);
  }

  // ---------- Runs ----------

  datatype Op = PutOp(key: Bytes, val: Bytes) | DeleteOp(key: Bytes)

  function Step(r: Root, op: Op): (r': Root)
    requires Shape(r.tree, r.depth)
    ensures Shape(r'.tree, r'.depth)
  {
    match op
    case PutOp(k, v) => Put(r, k, v)
    case DeleteOp(k) => Delete(r, k)
  }

  function Run(r: Root, ops: seq<Op>): (r': Root)
    requires Shape(r.tree, r.depth)
    ensures Shape(r'.tree, r'.depth)
    decreases |ops|
  {
    if ops == [] then r else Run(Step(r, ops[0]), ops[1..])
  }

  /** No put of the run is misrouted. */
  predicate Clean(r: Root, ops: seq<Op>)
    requires Shape(r.tree, r.depth)
    decreases |ops|
  {
    ops == [] || (!(ops[0].PutOp? && PutMisroutes(r, ops[0].key)) && Clean(Step(r, ops[0]), ops[1..]))
  }

  /** The simple form: a map. */
  function MapStep(m: map<Bytes, Bytes>, op: Op): map<Bytes, Bytes> {
    match op
    case PutOp(k, v) => m[k := v]
    case DeleteOp(k) => m - {k}
  }

  function MapRun(m: map<Bytes, Bytes>, ops: seq<Op>): map<Bytes, Bytes>
    decreases |ops|
  {
    if ops == [] then m else MapRun(MapStep(m, ops[0]), ops[1..])
  }

  function Get(m: map<Bytes, Bytes>, k: Bytes): Option<Bytes> {
    if k in m then Some(m[k]) else None
  }

  ghost predicate Refines(r: Root, m: map<Bytes, Bytes>)
    requires Shape(r.tree, r.depth)
  {
    forall j {:trigger Lookup(r, j)} :: Lookup(r, j) == Get(m, j)
  }

  predicate Misrouted(r: Root, op: Op)
    requires Shape(r.tree, r.depth)
  {
    op.PutOp? && PutMisroutes(r, op.key)
  }

  /** The map a run leaves to be seen: misrouted puts count for nothing. */
  function SeenRun(r: Root, m: map<Bytes, Bytes>, ops: seq<Op>): map<Bytes, Bytes>
    requires Shape(r.tree, r.depth)
    decreases |ops|
  {
    if ops == [] then m
    else SeenRun(Step(r, ops[0]), if Misrouted(r, ops[0]) then m else MapStep(m, ops[0]), ops[1..])
  }

  lemma StepSeen(r: Root, m: map<Bytes, Bytes>, op: Op)
    requires Valid(r) && Refines(r, m)
    ensures Valid(Step(r, op)) && Refines(Step(r, op), if Misrouted(r, op) then m else MapStep(m, op))
  {
    match op {
      case PutOp(k, v) => PutLookup(r, k, v, k);
      case DeleteOp(k) => DeleteLookup(r, k, k);
    }
    forall j ensures Lookup(Step(r, op), j) == Get(if Misrouted(r, op) then m else MapStep(m, op), j) {
      match op {
        case PutOp(k, v) => PutLookup(r, k, v, j);
        case DeleteOp(k) => DeleteLookup(r, k, j);
      }
      assert Lookup(r, j) == Get(m, j);
    }
  }

  /** Every run of puts and deletes, with misrouted puts or without, leaves a tree of the kind above, and its lookups are
      those of the map in which the misrouted puts did not happen. */
  lemma {:induction false} RunIsSeen(r: Root, m: map<Bytes, Bytes>, ops: seq<Op>)
    requires Valid(r) && Refines(r, m)
    ensures Valid(Run(r, ops)) && Refines(Run(r, ops), SeenRun(r, m, ops))
    decreases |ops|
  {
    if ops != [] {
      StepSeen(r, m, ops[0]);
      RunIsSeen(Step(r, ops[0]), if Misrouted(r, ops[0]) then m else MapStep(m, ops[0]), ops[1..]);
    }
  }

  lemma {:induction false} CleanIsSeen(r: Root, m: map<Bytes, Bytes>, ops: seq<Op>)
    requires Shape(r.tree, r.depth) && Clean(r, ops)
    ensures SeenRun(r, m, ops) == MapRun(m, ops)
    decreases |ops|
  {
    if ops != [] { CleanIsSeen(Step(r, ops[0]), MapStep(m, ops[0]), ops[1..]); }
  }

  /** Every clean run of puts and deletes leaves a tree whose lookups are those of the map. */
  lemma RunRefinesMap(r: Root, m: map<Bytes, Bytes>, ops: seq<Op>)
    requires Valid(r) && Refines(r, m) && Clean(r, ops)
    ensures Valid(Run(r, ops)) && Refines(Run(r, ops), MapRun(m, ops))
  {
    RunIsSeen(r, m, ops);
    CleanIsSeen(r, m, ops);
  }

  /** A clean run leaves no stray keys. */
  lemma {:induction false} CleanIsTidy(r: Root, ops: seq<Op>)
    requires Tidy(r) && Clean(r, ops)
    ensures Tidy(Run(r, ops))
    decreases |ops|
  {
    if ops != [] {
      match ops[0] {
        case PutOp(k, v) => PutTidy(r, k, v);
        case DeleteOp(k) => DeleteTidy(r, k);
      }
      CleanIsTidy(Step(r, ops[0]), ops[1..]);
    }
  }

  lemma RefinesOne(r: Root, m: map<Bytes, Bytes>, n: map<Bytes, Bytes>)
    requires Shape(r.tree, r.depth) && Refines(r, m)
    ensures Refines(r, n) <==> m == n
  {
    if Refines(r, n) {
      forall k ensures k in m <==> k in n {
        assert Lookup(r, k) == Get(m, k) == Get(n, k);
      }
      forall k | k in m ensures m[k] == n[k] {
        assert Lookup(r, k) == Get(m, k) == Get(n, k);
      }
    }
  }

  /** After any run, one more put or delete is seen exactly when it is not a misrouted put that changes its key. */
  lemma StepRefinesIff(r: Root, m: map<Bytes, Bytes>, op: Op)
    requires Valid(r) && Refines(r, m)
    ensures Refines(Step(r, op), MapStep(m, op)) <==> !(Misrouted(r, op) && Get(m, op.key) != Some(op.val))
  {
    StepSeen(r, m, op);
    RefinesOne(Step(r, op), if Misrouted(r, op) then m else MapStep(m, op), MapStep(m, op));
  }

  /** A run refines the map exactly when ignoring its misrouted puts changes nothing in the end. */
  lemma RunRefinesIff(r: Root, m: map<Bytes, Bytes>, ops: seq<Op>)
    requires Valid(r) && Refines(r, m)
    ensures Refines(Run(r, ops), MapRun(m, ops)) <==> SeenRun(r, m, ops) == MapRun(m, ops)
  {
    RunIsSeen(r, m, ops);
    RefinesOne(Run(r, ops), SeenRun(r, m, ops), MapRun(m, ops));
  }

  // ---------- A put that is lost ----------

  /** The one-byte keys from a up to b - 1. */
  function OneByte(a: nat, b: nat): (ks: seq<Bytes>)
    requires a <= b <= 256
    ensures |ks| == b - a
  {
    seq<Bytes>(b - a, i requires 0 <= i < b - a => [a + i])
  }

  function Zeros(n: nat): (vs: seq<Bytes>)
    ensures |vs| == n
  {
    seq<Bytes>(n, _ => [0])
  }

  /** Puts of the keys 1 to n. */
  function Fill(n: nat): (ops: seq<Op>)
    requires n < 256
  {
    seq(n, i requires 0 <= i < n => PutOp([1 + i], [0]))
  }

  /** Two leaves, the right one with the keys from 9 up to m - 1. */
  function TwoLeaves(m: nat): (r: Root)
    requires 9 <= m <= 25
  {
    Root(Inner(1, [[9]], [Leaf(0, OneByte(1, 9), Zeros(8)), Leaf(2, OneByte(9, m), Zeros(m - 9))]), 1, 3)
  }

  lemma OneByteOrder(a: Byte, b: Byte)
    ensures Rank([a]) < Rank([b]) <==> a < b
  {
    var _ := KeyCmp([a], [b]);
  }

  lemma OneByteSorted(a: nat, b: nat)
    requires a <= b <= 256
    ensures Sorted(OneByte(a, b))
  {
    var ks := OneByte(a, b);
    forall i, j | 0 <= i < j < |ks| ensures Rank(ks[i]) < Rank(ks[j]) { OneByteOrder(a + i, a + j); }
  }

  /** A larger key goes to the end of a leaf. */
  lemma AppendLargest(id: nat, a: nat, b: nat)
    requires a <= b < 256 && b - a < MAX_KEYS
    ensures LeafInsert(Leaf(id, OneByte(a, b), Zeros(b - a)), [b], [0]) == Leaf(id, OneByte(a, b + 1), Zeros(b + 1 - a))
  {
    var ks := OneByte(a, b);
    OneByteSorted(a, b);
    if b > a { OneByteOrder(b - 1, b); }
    RouteIs(ks, [b], |ks|);
    assert InsertAt(ks, |ks|, [b]) == OneByte(a, b + 1);
    assert InsertAt(Zeros(b - a), |ks|, [0]) == Zeros(b + 1 - a);
  }

  lemma {:induction false} RunSnoc(r: Root, ops: seq<Op>, op: Op)
    requires Shape(r.tree, r.depth)
    ensures Run(r, ops + [op]) == Step(Run(r, ops), op)
    decreases |ops|
  {
    if ops == [] {
      assert ops + [op] == [op] && [op][1..] == [];
    } else {
      assert (ops + [op])[0] == ops[0] && (ops + [op])[1..] == ops[1..] + [op];
      RunSnoc(Step(r, ops[0]), ops[1..], op);
    }
  }

  lemma FillSnoc(n: nat)
    requires n < 255
    ensures Run(Empty(), Fill(n + 1)) == Put(Run(Empty(), Fill(n)), [1 + n], [0])
  {
    assert Fill(n + 1) == Fill(n) + [PutOp([1 + n], [0])];
    RunSnoc(Empty(), Fill(n), PutOp([1 + n], [0]));
  }

  lemma {:induction false} FillOneLeaf(n: nat)
    requires n <= MAX_KEYS
    ensures Run(Empty(), Fill(n)) == Root(Leaf(0, OneByte(1, 1 + n), Zeros(n)), 0, 1)
  {
    if n == 0 {
      assert OneByte(1, 1) == [] && Zeros(0) == [];
    } else {
      FillOneLeaf(n - 1);
      FillSnoc(n - 1);
      AppendLargest(0, 1, n);
    }
  }

  /** A larger key goes to the end of the right leaf. */
  lemma AppendRight(m: nat)
    requires 9 < m < 25
    ensures Put(TwoLeaves(m), [m], [0]) == TwoLeaves(m + 1)
  {
    var r := TwoLeaves(m);
    OneByteOrder(9, m);
    assert Sorted(r.tree.keys);
    RouteIs(r.tree.keys, [m], 1);
    AppendLargest(2, 9, m);
    assert r.tree.kids[1] == Leaf(2, OneByte(9, m), Zeros(m - 9));
    assert r.tree.kids[1 := TwoLeaves(m + 1).tree.kids[1]] == TwoLeaves(m + 1).tree.kids;
  }

  /** The seventeenth key splits the root. */
  lemma RootSplits()
    ensures Grown(Root(Leaf(0, OneByte(1, 17), Zeros(16)), 0, 1)) == TwoLeaves(17)
  {
    var l := Leaf(0, OneByte(1, 17), Zeros(16));
    var n := Inner(1, [], [l]);
    assert l.keys[HALF_KEYS] == [9];
    assert l.keys[..HALF_KEYS] == OneByte(1, 9) && l.keys[HALF_KEYS..] == OneByte(9, 17);
    assert l.vals[..HALF_KEYS] == Zeros(8) && l.vals[HALF_KEYS..] == Zeros(8);
    var s := SplitChild(n, 0, 1, 2);
    assert s.keys == [[9]];
    assert s.kids == TwoLeaves(17).tree.kids;
  }

  lemma {:induction false} FillTwoLeaves(n: nat)
    requires MAX_KEYS < n <= 24
    ensures Run(Empty(), Fill(n)) == TwoLeaves(n + 1)
  {
    FillSnoc(n - 1);
    if n == MAX_KEYS + 1 {
      FillOneLeaf(MAX_KEYS);
      RootSplits();
      assert Put(Root(Leaf(0, OneByte(1, 17), Zeros(16)), 0, 1), [17], [0]) == Put(TwoLeaves(17), [17], [0]);
    } else {
      FillTwoLeaves(n - 1);
    }
    AppendRight(n);
  }

  /** After puts of the keys 1 to 24 into an empty tree, overwriting key 17 is lost: the old value is still read. */
  lemma PutCanBeLost()
    ensures var r := Run(Empty(), Fill(24));
            PutMisroutes(r, [17]) && Lookup(r, [17]) == Some([0]) == Lookup(Put(r, [17], [1]), [17])
  {
    var r := Run(Empty(), Fill(24));
    FillTwoLeaves(24);
    RunIsSeen(Empty(), map[], Fill(24));
    var full := r.tree.kids[1];
    OneByteOrder(9, 17);
    assert Sorted(r.tree.keys);
    RouteIs(r.tree.keys, [17], 1);
    OneByteSorted(9, 25);
    LeafSearch(full, [17], 8);
    PutLookup(r, [17], [1], [17]);
  }

  // ---------- The in-order listing ----------

  type Pair = (Bytes, Bytes)

  function Zip(keys: seq<Bytes>, vals: seq<Bytes>): (r: seq<Pair>)
    requires |keys| == |vals|
    ensures |r| == |keys| && forall i :: 0 <= i < |r| ==> r[i] == (keys[i], vals[i])
  {
    seq(|keys|, i requires 0 <= i < |keys| => (keys[i], vals[i]))
  }

  function Listing(t: Tree, d: nat): seq<Pair>
    requires Shape(t, d)
    decreases d, 0
  {
    match t
    case Leaf(_, keys, vals) => Zip(keys, vals)
    case Inner(_, _, kids) => ListingFrom(kids, d - 1, 0)
  }

  function ListingFrom(kids: seq<Tree>, d: nat, i: nat): seq<Pair>
    requires i <= |kids| && forall p :: 0 <= p < |kids| ==> Shape(kids[p], d)
    decreases d, 1, |kids| - i
  {
    if i == |kids| then [] else Listing(kids[i], d) + ListingFrom(kids, d, i + 1)
  }

  ghost predicate SortedPairs(s: seq<Pair>, lo: real, hi: real, stray: bool) {
    && (forall i :: 0 <= i < |s| ==> InRange(Rank(s[i].0), lo, hi, stray))
    && (forall i, j :: 0 <= i < j < |s| ==> Rank(s[i].0) < Rank(s[j].0) || (stray && s[i].0 == s[j].0))
  }

  /** Concatenating sorted listings whose ranges meet. */
  lemma SortedJoin(a: seq<Pair>, b: seq<Pair>, lo: real, mid: real, hi: real, stray: bool)
    requires SortedPairs(a, lo, mid, stray) && SortedPairs(b, mid, hi, stray) && mid <= hi && (b != [] ==> lo <= mid)
    ensures SortedPairs(a + b, lo, hi, stray)
  {
    var s := a + b;
    forall i, j | 0 <= i < j < |s| ensures Rank(s[i].0) < Rank(s[j].0) || (stray && s[i].0 == s[j].0) {
      if i < |a| <= j { RankTotal(a[i].0, b[j - |a|].0); }
    }
  }

  lemma {:induction false} ListingSorted(t: Tree, d: nat, lo: real, hi: real, stray: bool)
    requires Shape(t, d) && Ordered(t, lo, hi, stray)
    ensures SortedPairs(Listing(t, d), lo, hi, stray)
    decreases d, 0
  {
    if t.Inner? {
      ListingFromSorted(t, d, 0, lo, hi, stray);
    }
  }

  lemma {:induction false} ListingFromSorted(t: Tree, d: nat, i: nat, lo: real, hi: real, stray: bool)
    requires Shape(t, d) && t.Inner? && Ordered(t, lo, hi, stray) && i <= |t.kids|
    ensures SortedPairs(ListingFrom(t.kids, d - 1, i), if i < |t.kids| then Lo(t.keys, lo, i) else hi, hi, stray)
    decreases d - 1, 1, |t.kids| - i
  {
    if i < |t.kids| {
      var l, h := Lo(t.keys, lo, i), Hi(t.keys, hi, i);
      ListingSorted(t.kids[i], d - 1, l, h, stray);
      ListingFromSorted(t, d, i + 1, lo, hi, stray);
      SortedJoin(Listing(t.kids[i], d - 1), ListingFrom(t.kids, d - 1, i + 1), l, h, hi, stray);
    }
  }

  /** The listing holds everything lookups find; without stray keys it holds nothing else. */
  lemma {:induction false} ListingIsLookup(t: Tree, d: nat, lo: real, hi: real, stray: bool, k: Bytes, v: Bytes)
    requires Shape(t, d) && Ordered(t, lo, hi, stray)
    ensures Search(t, k, d) == Some(v) ==> (k, v) in Listing(t, d)
    ensures !stray && (k, v) in Listing(t, d) ==> Search(t, k, d) == Some(v)
    decreases d, 0
  {
    if t.Leaf? {
      if k in t.keys {
        var p :| 0 <= p < |t.keys| && t.keys[p] == k;
        LeafSearch(t, k, p);
        assert Listing(t, d)[p] == (k, t.vals[p]);
      } else {
        LeafSearch(t, k, 0);
      }
    } else {
      ListingFromIsLookup(t, d, 0, lo, hi, stray, k, v);
    }
  }

  lemma {:induction false} ListingFromIsLookup(t: Tree, d: nat, i: nat, lo: real, hi: real, stray: bool, k: Bytes, v: Bytes)
    requires Shape(t, d) && t.Inner? && Ordered(t, lo, hi, stray) && i <= |t.kids|
    ensures i <= Route(t.keys, k) && Search(t, k, d) == Some(v) ==> (k, v) in ListingFrom(t.kids, d - 1, i)
    ensures !stray && (k, v) in ListingFrom(t.kids, d - 1, i) ==> i <= Route(t.keys, k) && Search(t, k, d) == Some(v)
    decreases d - 1, 1, |t.kids| - i
  {
    if i < |t.kids| {
      var l, h := Lo(t.keys, lo, i), Hi(t.keys, hi, i);
      ListingIsLookup(t.kids[i], d - 1, l, h, stray, k, v);
      ListingSorted(t.kids[i], d - 1, l, h, stray);
      ListingFromIsLookup(t, d, i + 1, lo, hi, stray, k, v);
      if !stray { InItsChild(t, d, i, lo, hi, k, v); }
    }
  }

  /** A pair listed by child i has a key that routes to child i, unless it is a stray. */
  lemma InItsChild(t: Tree, d: nat, i: nat, lo: real, hi: real, k: Bytes, v: Bytes)
    requires Shape(t, d) && t.Inner? && Ordered(t, lo, hi, false) && i < |t.kids|
    requires SortedPairs(Listing(t.kids[i], d - 1), Lo(t.keys, lo, i), Hi(t.keys, hi, i), false)
    ensures (k, v) in Listing(t.kids[i], d - 1) ==> Route(t.keys, k) == i
  {
    if (k, v) in Listing(t.kids[i], d - 1) { RouteIs(t.keys, k, i); }
  }

  // ---------- What a cursor lists after a misrouted put ----------

  lemma {:induction false} KidListed(kids: seq<Tree>, d: nat, i: nat, q: nat, x: Pair)
    requires i <= q < |kids| && (forall p :: 0 <= p < |kids| ==> Shape(kids[p], d)) && x in Listing(kids[q], d)
    ensures x in ListingFrom(kids, d, i)
    decreases q - i
  {
    if i < q { KidListed(kids, d, i + 1, q, x); }
  }

  lemma LeafInsertListed(t: Tree, k: Bytes, v: Bytes)
    requires Shape(t, 0) && !Full(t)
    ensures (k, v) in Listing(LeafInsert(t, k, v), 0)
  {
    var i, r := Route(t.keys, k), LeafInsert(t, k, v);
    var p := if i > 0 && t.keys[i - 1] == k then i - 1 else i;
    assert Listing(r, 0)[p] == (k, v);
  }

  /** Wherever a put goes, the pair is listed. */
  lemma {:induction false} InsertListed(t: Tree, k: Bytes, v: Bytes, d: nat, fresh_: nat)
    requires Shape(t, d) && !Full(t)
    ensures (k, v) in Listing(InsertNonfull(t, k, v, d, fresh_).0, d)
    decreases d
  {
    if t.Leaf? {
      LeafInsertListed(t, k, v);
    } else {
      var s, q := Prepared(t, k, d, fresh_), Target(t, k, d, fresh_);
      var f := NextFresh(t, k, d, fresh_);
      var c := InsertNonfull(s.kids[q], k, v, d - 1, f).0;
      InsertListed(s.kids[q], k, v, d - 1, f);
      InsertIsReplaced(t, k, v, d, fresh_);
      assert Replaced(s, q, c).kids[q] == c;
      KidListed(Replaced(s, q, c).kids, d - 1, 0, q, (k, v));
    }
  }

  /** After any put a cursor lists the pair; after a misrouted one that changes its key, it lists the key twice, with the
      value that lookups still find and with the one they do not. */
  lemma PutListing(r: Root, k: Bytes, v: Bytes, w: Bytes)
    requires Valid(r)
    ensures var p := Put(r, k, v);
            (k, v) in Listing(p.tree, p.depth) &&
            (PutMisroutes(r, k) && Lookup(r, k) == Some(w) ==> Lookup(p, k) == Some(w) && (k, w) in Listing(p.tree, p.depth))
  {
    var g, p := Grown(r), Put(r, k, v);
    InsertListed(g.tree, k, v, g.depth, g.fresh_);
    PutLookup(r, k, v, k);
    ListingIsLookup(p.tree, p.depth, -1.0, 2.0, true, k, w);
  }
}
