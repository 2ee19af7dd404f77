/** The B+tree in memory: nodes with key arrays, child pointers and the chain of leaves
    (src/storage/btree.c:9-361). A pointer is an index into the node store. */
module BTreeStore {
  import opened Keys
  import opened BTree
  import opened BTreeRuns

  datatype Node = Node(isLeaf: bool, keys: seq<Bytes>, vals: seq<Bytes>, children: seq<nat>, next: Option<nat>)
  type Store = seq<Node>

  // ---------- What the store represents ----------

  /** Address of the leftmost leaf. */
  ghost function First(t: Tree, d: nat): nat
    requires Shape(t, d)
    decreases d
  {
    if t.Leaf? then t.id else First(t.kids[0], d - 1)
  }

  /** What follows child i in the leaf chain. */
  ghost function After(t: Tree, d: nat, i: nat, after: Option<nat>): Option<nat>
    requires Shape(t, d) && t.Inner? && i < |t.kids|
  {
    if i + 1 < |t.kids| then Some(First(t.kids[i + 1], d - 1)) else after
  }

  /** The nodes at the addresses of t hold its keys, values and children, and its leaves are
      chained in order, the last one to `after`. */
  ghost predicate Rep(store: Store, t: Tree, d: nat, after: Option<nat>)
    requires Shape(t, d)
    decreases d, 1
  {
    && t.id < |store| && store[t.id].keys == t.keys
    && match t
       case Leaf(id, _, vals) => store[id].isLeaf && store[id].vals == vals && store[id].next == after
       case Inner(id, _, kids) =>
         && !store[id].isLeaf && |store[id].children| == |kids|
         && forall i {:trigger RepKid(store, t, d, i, after)} :: 0 <= i < |kids| ==> RepKid(store, t, d, i, after)
  }

  ghost predicate RepKid(store: Store, t: Tree, d: nat, i: nat, after: Option<nat>)
    requires Shape(t, d) && t.Inner? && i < |t.kids|
    decreases d, 0
  {
    && t.id < |store| && i < |store[t.id].children| && store[t.id].children[i] == t.kids[i].id
    && Rep(store, t.kids[i], d - 1, After(t, d, i, after))
  }

  ghost function Ids(t: Tree): set<nat> {
    match t
    case Leaf(id, _, _) => {id}
    case Inner(id, _, kids) => {id} + KidIds(kids)
  }

  ghost function KidIds(kids: seq<Tree>): set<nat> {
    set i, x | 0 <= i < |kids| && x in Ids(kids[i]) :: x
  }

  /** No address is used twice. */
  ghost predicate Disjoint(t: Tree) {
    match t
    case Leaf(_, _, _) => true
    case Inner(id, _, kids) =>
      && (forall i :: 0 <= i < |kids| ==> Disjoint(kids[i]) && id !in Ids(kids[i]))
      && (forall i, j :: 0 <= i < j < |kids| ==> Ids(kids[i]) !! Ids(kids[j]))
  }

  ghost predicate Below(t: Tree, n: nat) {
    forall x :: x in Ids(t) ==> x < n
  }

  ghost predicate Agree(store: Store, store': Store, ids: set<nat>) {
    forall x :: x in ids && x < |store| ==> x < |store'| && store'[x] == store[x]
  }

  lemma {:induction false} RepFrame(store: Store, store': Store, t: Tree, d: nat, after: Option<nat>)
    requires Shape(t, d) && Rep(store, t, d, after) && Agree(store, store', Ids(t))
    ensures Rep(store', t, d, after)
    decreases d
  {
    assert t.id in Ids(t);
    if t.Inner? {
      forall i | 0 <= i < |t.kids| ensures RepKid(store', t, d, i, after) {
        assert RepKid(store, t, d, i, after);
        assert Ids(t.kids[i]) <= Ids(t);
        RepFrame(store, store', t.kids[i], d - 1, After(t, d, i, after));
      }
    }
  }

  /** Putting a changed child back: siblings are untouched because addresses are distinct. */
  lemma ReplacedRep(store: Store, store': Store, s: Tree, d: nat, q: nat, c: Tree, after: Option<nat>)
    requires Shape(s, d) && s.Inner? && Rep(store, s, d, after) && Disjoint(s) && q < |s.kids| && Shape(c, d - 1)
    requires Agree(store, store', Ids(s) - Ids(s.kids[q]))
    requires Rep(store', c, d - 1, After(s, d, q, after)) && c.id == s.kids[q].id && First(c, d - 1) == First(s.kids[q], d - 1)
    ensures Shape(Replaced(s, q, c), d) && Rep(store', Replaced(s, q, c), d, after)
    ensures First(Replaced(s, q, c), d) == First(s, d)
  {
    var r := Replaced(s, q, c);
    assert s.id in Ids(s) && s.id !in Ids(s.kids[q]);
    forall i | 0 <= i < |r.kids| ensures RepKid(store', r, d, i, after) {
      assert RepKid(store, s, d, i, after);
      assert After(r, d, i, after) == After(s, d, i, after);
      if i != q {
        assert Ids(s.kids[i]) <= Ids(s) - Ids(s.kids[q]) by {
          assert Ids(s.kids[i]) !! Ids(s.kids[q]);
        }
        RepFrame(store, store', s.kids[i], d - 1, After(s, d, i, after));
      }
    }
  }

  // ---------- split_child on the store ----------

  predicate CanSplit(store: Store, p: nat, i: nat) {
    && p < |store| && !store[p].isLeaf && i < |store[p].children| && i <= |store[p].keys|
    && var c := store[p].children[i];
    && c < |store| && c != p && |store[c].keys| == MAX_KEYS
    && (if store[c].isLeaf then |store[c].vals| == MAX_KEYS else |store[c].children| == MAX_KEYS + 1)
  }

  function LowerHalf(n: Node, fresh_: nat): Node
    requires |n.keys| == MAX_KEYS && (if n.isLeaf then |n.vals| == MAX_KEYS else |n.children| == MAX_KEYS + 1)
  {
    if n.isLeaf then n.(keys := n.keys[..HALF_KEYS], vals := n.vals[..HALF_KEYS], next := Some(fresh_))
    else n.(keys := n.keys[..HALF_KEYS], children := n.children[..HALF_KEYS + 1])
  }

  function UpperHalf(n: Node): Node
    requires |n.keys| == MAX_KEYS && (if n.isLeaf then |n.vals| == MAX_KEYS else |n.children| == MAX_KEYS + 1)
  {
    if n.isLeaf then Node(true, n.keys[HALF_KEYS..], n.vals[HALF_KEYS..], [], n.next)
    else Node(false, n.keys[HALF_KEYS + 1..], [], n.children[HALF_KEYS + 1..], None)
  }

  /** The store after splitting child i of node p; the new node gets the next address. */
  function SplitStore(store: Store, p: nat, i: nat): (r: Store)
    requires CanSplit(store, p, i)
    ensures |r| == |store| + 1
  {
    var c := store[p].children[i];
    var parent := store[p].(keys := InsertAt(store[p].keys, i, store[c].keys[HALF_KEYS]),
                            children := InsertAt(store[p].children, i + 1, |store|));
    store[c := LowerHalf(store[c], |store|)][p := parent] + [UpperHalf(store[c])]
  }

  lemma SplitLeftIds(c: Tree, d: nat, l: Tree)
    requires Shape(c, d) && Full(c) && Disjoint(c) && l == SplitLeft(c, d)
    ensures l.id == c.id && First(l, d) == First(c, d) && Ids(l) <= Ids(c) && Disjoint(l)
    ensures c.Inner? ==> forall x :: x in KidIds(l.kids) ==> exists i :: 0 <= i <= HALF_KEYS && x in Ids(c.kids[i])
  {
    if c.Inner? {
      assert forall i :: 0 <= i < |l.kids| ==> l.kids[i] == c.kids[i];
      forall x | x in KidIds(l.kids) ensures exists i :: 0 <= i <= HALF_KEYS && x in Ids(c.kids[i]) {}
    }
  }

  lemma SplitRightIds(c: Tree, d: nat, fresh_: nat, r: Tree)
    requires Shape(c, d) && Full(c) && Disjoint(c) && fresh_ !in Ids(c) && r == SplitRight(c, d, fresh_)
    ensures Ids(r) <= Ids(c) + {fresh_} && c.id !in Ids(r) && Disjoint(r)
    ensures c.Inner? ==> forall x :: x in KidIds(r.kids) ==> exists i :: HALF_KEYS < i < |c.kids| && x in Ids(c.kids[i])
  {
    if c.Inner? {
      var n := HALF_KEYS + 1;
      assert forall i :: 0 <= i < |r.kids| ==> r.kids[i] == c.kids[i + n];
      forall x | x in KidIds(r.kids) ensures exists i :: HALF_KEYS < i < |c.kids| && x in Ids(c.kids[i]) {
        var i :| 0 <= i < |r.kids| && x in Ids(r.kids[i]);
        assert x in Ids(c.kids[i + n]);
      }
      forall i | 0 <= i < |r.kids| ensures Disjoint(r.kids[i]) && fresh_ !in Ids(r.kids[i]) {
        assert r.kids[i] == c.kids[i + n];
      }
      forall i, j | 0 <= i < j < |r.kids| ensures Ids(r.kids[i]) !! Ids(r.kids[j]) {
        assert r.kids[i] == c.kids[i + n] && r.kids[j] == c.kids[j + n];
      }
    }
  }

  lemma SplitIds(c: Tree, d: nat, fresh_: nat)
    requires Shape(c, d) && Full(c) && Disjoint(c) && fresh_ !in Ids(c)
    ensures var l, r := SplitLeft(c, d), SplitRight(c, d, fresh_);
            && l.id == c.id && First(l, d) == First(c, d)
            && Ids(l) <= Ids(c) && Ids(r) <= Ids(c) + {fresh_} && Ids(l) !! Ids(r)
            && Disjoint(l) && Disjoint(r)
  {
    SplitLeftIds(c, d, SplitLeft(c, d));
    SplitRightIds(c, d, fresh_, SplitRight(c, d, fresh_));
  }

  lemma SplitLeftRep(store: Store, store': Store, c: Tree, d: nat, after: Option<nat>)
    requires Shape(c, d) && Full(c) && Rep(store, c, d, after) && Disjoint(c) && Below(c, |store|)
    requires |store'| > |store| && Agree(store, store', Ids(c) - {c.id})
    requires store'[c.id] == LowerHalf(store[c.id], |store|)
    ensures Rep(store', SplitLeft(c, d), d, Some(First(SplitRight(c, d, |store|), d)))
  {
    if c.Inner? {
      var l := SplitLeft(c, d);
      var after' := Some(First(SplitRight(c, d, |store|), d));
      forall i | 0 <= i < |l.kids| ensures RepKid(store', l, d, i, after') {
        SplitLeftKid(store, store', c, d, after, l, after', i);
      }
    }
  }

  lemma SplitLeftKid(store: Store, store': Store, c: Tree, d: nat, after: Option<nat>, l: Tree, after': Option<nat>, i: nat)
    requires Shape(c, d) && Full(c) && c.Inner? && Rep(store, c, d, after) && Disjoint(c) && Below(c, |store|)
    requires |store'| > |store| && Agree(store, store', Ids(c) - {c.id})
    requires store'[c.id] == LowerHalf(store[c.id], |store|)
    requires l == SplitLeft(c, d) && Shape(l, d) && i < |l.kids| && after' == Some(First(SplitRight(c, d, |store|), d))
    ensures RepKid(store', l, d, i, after')
  {
    assert RepKid(store, c, d, i, after);
    assert Ids(c.kids[i]) <= Ids(c) - {c.id};
    assert After(l, d, i, after') == After(c, d, i, after);
    RepFrame(store, store', c.kids[i], d - 1, After(c, d, i, after));
  }

  lemma SplitRightRep(store: Store, store': Store, c: Tree, d: nat, after: Option<nat>)
    requires Shape(c, d) && Full(c) && Rep(store, c, d, after) && Disjoint(c) && Below(c, |store|)
    requires |store'| > |store| && Agree(store, store', Ids(c) - {c.id})
    requires store'[|store|] == UpperHalf(store[c.id])
    ensures Rep(store', SplitRight(c, d, |store|), d, after)
  {
    if c.Inner? {
      var r := SplitRight(c, d, |store|);
      forall i | 0 <= i < |r.kids| ensures RepKid(store', r, d, i, after) {
        var o := i + HALF_KEYS + 1;
        assert r.kids[i] == c.kids[o];
        assert RepKid(store, c, d, o, after);
        assert Ids(c.kids[o]) <= Ids(c) - {c.id};
        assert i + 1 < |r.kids| ==> r.kids[i + 1] == c.kids[o + 1];
        assert After(r, d, i, after) == After(c, d, o, after);
        RepFrame(store, store', c.kids[o], d - 1, After(c, d, o, after));
      }
    }
  }

  ghost predicate Splittable(store: Store, t: Tree, d: nat, i: nat, after: Option<nat>) {
    && Shape(t, d) && t.Inner? && i < |t.kids| && Full(t.kids[i]) && !Full(t)
    && Rep(store, t, d, after) && Disjoint(t) && Below(t, |store|)
  }

  lemma SplittableStore(store: Store, t: Tree, d: nat, i: nat, after: Option<nat>)
    requires Splittable(store, t, d, i, after)
    ensures CanSplit(store, t.id, i) && store[t.id].children[i] == t.kids[i].id
    ensures Rep(store, t.kids[i], d - 1, After(t, d, i, after)) && Below(t.kids[i], |store|) && Disjoint(t.kids[i])
    ensures t.id !in Ids(t.kids[i]) && t.kids[i].id in Ids(t.kids[i])
  {
    assert RepKid(store, t, d, i, after);
    var c := t.kids[i];
    assert Shape(c, d - 1) && Rep(store, c, d - 1, After(t, d, i, after));
    assert store[c.id].keys == c.keys && Ids(c) <= Ids(t);
  }

  lemma SplitStoreHalves(store: Store, t: Tree, d: nat, i: nat, after: Option<nat>)
    requires Splittable(store, t, d, i, after) && CanSplit(store, t.id, i)
    ensures var s, store' := SplitChild(t, i, d, |store|), SplitStore(store, t.id, i);
            RepKid(store', s, d, i, after) && RepKid(store', s, d, i + 1, after)
  {
    SplittableStore(store, t, d, i, after);
    var c, s, store' := t.kids[i], SplitChild(t, i, d, |store|), SplitStore(store, t.id, i);
    assert Agree(store, store', Ids(c) - {c.id});
    assert s.kids[i] == SplitLeft(c, d - 1) && s.kids[i + 1] == SplitRight(c, d - 1, |store|);
    assert i + 1 < |t.kids| ==> s.kids[i + 2] == t.kids[i + 1];
    SplitLeftRep(store, store', c, d - 1, After(t, d, i, after));
    SplitRightRep(store, store', c, d - 1, After(t, d, i, after));
    assert After(s, d, i, after) == Some(First(s.kids[i + 1], d - 1));
    assert After(s, d, i + 1, after) == After(t, d, i, after);
  }

  lemma SplitAfter(t: Tree, d: nat, i: nat, fresh_: nat, after: Option<nat>, p: nat)
    requires Shape(t, d) && t.Inner? && i < |t.kids| && Full(t.kids[i]) && !Full(t) && Disjoint(t.kids[i])
    requires fresh_ !in Ids(t.kids[i]) && p <= |t.kids| && p != i && p != i + 1
    ensures var s, o := SplitChild(t, i, d, fresh_), if p < i then p else p - 1;
            s.kids[p] == t.kids[o] && After(s, d, p, after) == After(t, d, o, after)
  {
    var s, o := SplitChild(t, i, d, fresh_), if p < i then p else p - 1;
    SplitIds(t.kids[i], d - 1, fresh_);
    SplitKids(t, d, i, fresh_, p);
    if p + 1 < |s.kids| && p + 1 != i { SplitKids(t, d, i, fresh_, p + 1); }
  }

  lemma SplitKids(t: Tree, d: nat, i: nat, fresh_: nat, p: nat)
    requires Shape(t, d) && t.Inner? && i < |t.kids| && Full(t.kids[i]) && !Full(t) && p <= |t.kids|
    ensures var s := SplitChild(t, i, d, fresh_);
            |s.kids| == |t.kids| + 1 && s.kids[i] == SplitLeft(t.kids[i], d - 1) && s.kids[i + 1] == SplitRight(t.kids[i], d - 1, fresh_) &&
            (p < i ==> s.kids[p] == t.kids[p]) && (p > i + 1 ==> s.kids[p] == t.kids[p - 1])
  {
  }

  lemma SplitStoreOther(store: Store, t: Tree, d: nat, i: nat, after: Option<nat>, p: nat)
    requires Splittable(store, t, d, i, after) && CanSplit(store, t.id, i) && p <= |t.kids| && p != i && p != i + 1
    ensures RepKid(SplitStore(store, t.id, i), SplitChild(t, i, d, |store|), d, p, after)
  {
    SplittableStore(store, t, d, i, after);
    var c, store', o := t.kids[i], SplitStore(store, t.id, i), if p < i then p else p - 1;
    SplitAfter(t, d, i, |store|, after, p);
    assert RepKid(store, t, d, o, after);
    assert Ids(t.kids[o]) !! Ids(c) && t.id !in Ids(t.kids[o]);
    assert Agree(store, store', Ids(t.kids[o]));
    RepFrame(store, store', t.kids[o], d - 1, After(t, d, o, after));
  }

  /** Splitting in the store is splitting in the tree: the leaf chain gains the new leaf in place. */
  lemma SplitStoreRep(store: Store, t: Tree, d: nat, i: nat, after: Option<nat>)
    requires Splittable(store, t, d, i, after)
    ensures CanSplit(store, t.id, i)
    ensures var s := SplitChild(t, i, d, |store|);
            Rep(SplitStore(store, t.id, i), s, d, after) && First(s, d) == First(t, d)
  {
    SplittableStore(store, t, d, i, after);
    var s, store' := SplitChild(t, i, d, |store|), SplitStore(store, t.id, i);
    SplitIds(t.kids[i], d - 1, |store|);
    forall p | 0 <= p < |s.kids| ensures RepKid(store', s, d, p, after) {
      if p == i || p == i + 1 {
        SplitStoreHalves(store, t, d, i, after);
      } else {
        SplitStoreOther(store, t, d, i, after, p);
      }
    }
    assert s.kids[0] == if i == 0 then SplitLeft(t.kids[i], d - 1) else t.kids[0];
  }

  ghost function SplitKid(t: Tree, d: nat, i: nat, fresh_: nat, p: nat): Tree
    requires Shape(t, d) && t.Inner? && i < |t.kids| && Full(t.kids[i]) && p <= |t.kids|
  {
    if p < i then t.kids[p] else if p == i then SplitLeft(t.kids[i], d - 1)
    else if p == i + 1 then SplitRight(t.kids[i], d - 1, fresh_) else t.kids[p - 1]
  }

  lemma SplitKidIds(t: Tree, d: nat, i: nat, fresh_: nat, p: nat)
    requires Shape(t, d) && t.Inner? && i < |t.kids| && Full(t.kids[i]) && Disjoint(t) && fresh_ !in Ids(t) && p <= |t.kids|
    ensures var k := SplitKid(t, d, i, fresh_, p);
            Disjoint(k) && t.id !in Ids(k) && Ids(k) <= Ids(t.kids[if p <= i then p else p - 1]) + {fresh_}
    ensures fresh_ in Ids(SplitKid(t, d, i, fresh_, p)) ==> p == i + 1
    ensures Ids(SplitKid(t, d, i, fresh_, p)) <= Ids(t) + {fresh_}
  {
    assert t.id in Ids(t);
    assert fresh_ !in Ids(t.kids[i]);
    SplitIds(t.kids[i], d - 1, fresh_);
    var o := if p <= i then p else p - 1;
    assert Ids(t.kids[o]) <= Ids(t);
  }

  lemma SplitChildIds(t: Tree, d: nat, i: nat, fresh_: nat)
    requires Shape(t, d) && t.Inner? && i < |t.kids| && Full(t.kids[i]) && !Full(t) && Disjoint(t) && fresh_ !in Ids(t)
    ensures var s := SplitChild(t, i, d, fresh_);
            s.id == t.id && Ids(s) <= Ids(t) + {fresh_} && Disjoint(s)
  {
    var c, s := t.kids[i], SplitChild(t, i, d, fresh_);
    forall p | 0 <= p < |s.kids|
      ensures s.kids[p] == SplitKid(t, d, i, fresh_, p)
      ensures Disjoint(s.kids[p]) && t.id !in Ids(s.kids[p]) && Ids(s.kids[p]) <= Ids(t) + {fresh_}
    {
      SplitKidIds(t, d, i, fresh_, p);
    }
    forall p, q | 0 <= p < q < |s.kids| ensures Ids(s.kids[p]) !! Ids(s.kids[q]) {
      SplitKidsApart(t, d, i, fresh_, p, q);
    }
  }

  lemma SplitKidsApart(t: Tree, d: nat, i: nat, fresh_: nat, p: nat, q: nat)
    requires Shape(t, d) && t.Inner? && i < |t.kids| && Full(t.kids[i]) && Disjoint(t) && fresh_ !in Ids(t) && p < q <= |t.kids|
    ensures Ids(SplitKid(t, d, i, fresh_, p)) !! Ids(SplitKid(t, d, i, fresh_, q))
  {
    if p == i && q == i + 1 {
      assert fresh_ !in Ids(t.kids[i]);
      SplitIds(t.kids[i], d - 1, fresh_);
    } else {
      SplitKidIds(t, d, i, fresh_, p);
      SplitKidIds(t, d, i, fresh_, q);
      var op, oq := if p <= i then p else p - 1, if q <= i then q else q - 1;
      assert Ids(t.kids[op]) !! Ids(t.kids[oq]);
    }
  }

  // ---------- Addresses through an insertion ----------

  /** The addresses of r are those of t and fresh ones between a and b. */
  ghost predicate IdsFrom(r: Tree, t: Tree, a: nat, b: nat) {
    forall x :: x in Ids(r) ==> x in Ids(t) || a <= x < b
  }

  lemma ReplacedIds(s: Tree, q: nat, c: Tree, a: nat, b: nat)
    requires s.Inner? && q < |s.kids| && Disjoint(s) && Disjoint(c)
    requires IdsFrom(c, s.kids[q], a, b) && Below(s, a)
    ensures IdsFrom(Replaced(s, q, c), s, a, b) && Disjoint(Replaced(s, q, c))
  {
    var r := Replaced(s, q, c);
    assert s.id in Ids(s);
    forall i | 0 <= i < |r.kids|
      ensures IdsFrom(r.kids[i], s.kids[i], a, b) && Disjoint(r.kids[i]) && s.id !in Ids(r.kids[i])
      ensures Ids(s.kids[i]) <= Ids(s)
    {}
    forall i, j | 0 <= i < j < |r.kids| ensures Ids(r.kids[i]) !! Ids(r.kids[j]) {
      assert Ids(s.kids[i]) !! Ids(s.kids[j]);
    }
  }

  lemma PreparedIds(t: Tree, k: Bytes, d: nat, fresh_: nat)
    requires Shape(t, d) && t.Inner? && !Full(t) && Disjoint(t) && Below(t, fresh_)
    ensures var s, f := Prepared(t, k, d, fresh_), NextFresh(t, k, d, fresh_);
            s.id == t.id && Disjoint(s) && Below(s, f) && IdsFrom(s, t, fresh_, f)
  {
    var i := Route(t.keys, k);
    if Full(t.kids[i]) {
      SplitChildIds(t, d, i, fresh_);
    }
  }

  /** An insertion takes addresses only from the fresh ones, and no address twice. */
  lemma {:induction false} InsertIds(t: Tree, k: Bytes, v: Bytes, d: nat, fresh_: nat)
    requires Shape(t, d) && !Full(t) && Disjoint(t) && Below(t, fresh_)
    ensures var (r, f) := InsertNonfull(t, k, v, d, fresh_);
            f >= fresh_ && r.id == t.id && Disjoint(r) && IdsFrom(r, t, fresh_, f)
    decreases d
  {
    if t.Inner? {
      var s, q, f0 := Prepared(t, k, d, fresh_), Target(t, k, d, fresh_), NextFresh(t, k, d, fresh_);
      PreparedIds(t, k, d, fresh_);
      assert Below(s.kids[q], f0) by { assert Ids(s.kids[q]) <= Ids(s); }
      InsertIds(s.kids[q], k, v, d - 1, f0);
      InsertIdsInner(t, k, v, d, fresh_, s, q, f0);
    }
  }

  lemma InsertIdsInner(t: Tree, k: Bytes, v: Bytes, d: nat, fresh_: nat, s: Tree, q: nat, f0: nat)
    requires Shape(t, d) && !Full(t) && Disjoint(t) && Below(t, fresh_) && t.Inner?
    requires s == Prepared(t, k, d, fresh_) && q == Target(t, k, d, fresh_) && f0 == NextFresh(t, k, d, fresh_)
    requires var (c, f) := InsertNonfull(s.kids[q], k, v, d - 1, f0);
             f >= f0 && c.id == s.kids[q].id && Disjoint(c) && IdsFrom(c, s.kids[q], f0, f)
    ensures var (r, f) := InsertNonfull(t, k, v, d, fresh_);
            f >= fresh_ && r.id == t.id && Disjoint(r) && IdsFrom(r, t, fresh_, f)
  {
    var (c, f) := InsertNonfull(s.kids[q], k, v, d - 1, f0);
    PreparedIds(t, k, d, fresh_);
    ReplacedIds(s, q, c, f0, f);
    InsertIsReplaced(t, k, v, d, fresh_);
  }

  // ---------- The array loops ----------

  /** Everything from position i on has been moved up by one. */
  ghost predicate Shifted<T>(s: seq<T>, r: seq<T>, i: nat) {
    && i <= |s| && |r| == |s| + 1
    && (forall p :: 0 <= p < i ==> r[p] == s[p])
    && (forall p :: i < p < |r| ==> r[p] == s[p - 1])
  }

  lemma ShiftStep<T>(s: seq<T>, r: seq<T>, i: nat)
    requires Shifted(s, r, i) && i > 0
    ensures Shifted(s, r[i := r[i - 1]], i - 1)
  {
  }

  lemma ShiftDone<T>(s: seq<T>, r: seq<T>, i: nat, x: T)
    requires Shifted(s, r, i)
    ensures r[i := x] == InsertAt(s, i, x)
  {
  }

  /** The shift that makes room at position i (src/storage/btree.c:109-113, 132-136). */
  method ShiftInsert<T>(s: seq<T>, i: nat, x: T) returns (r: seq<T>)
    requires i <= |s|
    ensures r == InsertAt(s, i, x)
  {
    r := s + [x];
    var j := |s|;
    while j > i
      invariant i <= j && Shifted(s, r, j)
    {
      ShiftStep(s, r, j);
      r := r[j := r[j - 1]];
      j := j - 1;
    }
    ShiftDone(s, r, i, x);
    r := r[i := x];
  }

  /** The copy of the upper half (src/storage/btree.c:101-106, 124-129). */
  method CopyFrom<T>(s: seq<T>, start: nat) returns (r: seq<T>)
    requires start <= |s|
    ensures r == s[start..]
  {
    r := [];
    while start + |r| < |s|
      invariant start + |r| <= |s| && r == s[start..start + |r|]
    {
      r := r + [s[start + |r|]];
    }
  }

  /** Shifting both arrays and inserting in sorted order (src/storage/btree.c:162-174). */
  method LeafShift(keys: seq<Bytes>, vals: seq<Bytes>, k: Bytes, v: Bytes) returns (keys': seq<Bytes>, vals': seq<Bytes>)
    requires |keys| == |vals| && Sorted(keys)
    ensures var i := Route(keys, k); keys' == InsertAt(keys, i, k) && vals' == InsertAt(vals, i, v)
  {
    keys', vals' := keys + [k], vals + [v];
    var i := |keys|;
    while i > 0 && KeyCmp(k, keys'[i - 1]) < 0
      invariant 0 <= i && Shifted(keys, keys', i) && Shifted(vals, vals', i)
      invariant i < |keys| ==> Rank(k) < Rank(keys[i])
    {
      ShiftStep(keys, keys', i);
      ShiftStep(vals, vals', i);
      keys' := keys'[i := keys'[i - 1]];
      vals' := vals'[i := vals'[i - 1]];
      i := i - 1;
    }
    RouteIs(keys, k, i);
    ShiftDone(keys, keys', i, k);
    ShiftDone(vals, vals', i, v);
    keys' := keys'[i := k];
    vals' := vals'[i := v];
  }

  /** The leaf case of node_insert_nonfull: scan for the key, else shift and insert. */
  method LeafUpsert(keys: seq<Bytes>, vals: seq<Bytes>, k: Bytes, v: Bytes) returns (keys': seq<Bytes>, vals': seq<Bytes>)
    requires |keys| == |vals| < MAX_KEYS && Sorted(keys)
    ensures var r := LeafInsert(Leaf(0, keys, vals), k, v); keys' == r.keys && vals' == r.vals
  {
    for j := 0 to |keys|
      invariant k !in keys[..j]
    {
      if KeyCmp(k, keys[j]) == 0 {
        RouteIs(keys, k, j + 1);
        return keys, vals[j := v];
      }
    }
    assert keys[..|keys|] == keys;
    keys', vals' := LeafShift(keys, vals, k, v);
  }

  /** The downward scan for the child (src/storage/btree.c:176-179). */
  method ChildIndex(keys: seq<Bytes>, k: Bytes) returns (r: nat)
    requires Sorted(keys)
    ensures r == Route(keys, k)
  {
    var i := |keys| - 1;
    while i >= 0 && KeyCmp(k, keys[i]) < 0
      invariant -1 <= i < |keys|
      invariant i + 1 < |keys| ==> Rank(k) < Rank(keys[i + 1])
    {
      i := i - 1;
    }
    r := i + 1;
    RouteIs(keys, k, r);
  }

  // ---------- One step of the descending insertion ----------

  ghost predicate Placed(store: Store, t: Tree, d: nat, after: Option<nat>) {
    Shape(t, d) && Rep(store, t, d, after) && Disjoint(t) && Below(t, |store|)
  }

  ghost predicate Untouched(store: Store, store': Store, t: Tree) {
    forall x :: 0 <= x < |store| && x !in Ids(t) ==> x < |store'| && store'[x] == store[x]
  }

  /** store' is store with the put of k carried out below t. */
  ghost predicate Inserted(store: Store, store': Store, t: Tree, k: Bytes, v: Bytes, d: nat, after: Option<nat>)
    requires Shape(t, d) && !Full(t)
  {
    var (r, f) := InsertNonfull(t, k, v, d, |store|);
    |store'| == f && Rep(store', r, d, after) && First(r, d) == First(t, d) && Untouched(store, store', t)
  }

  lemma LeafInserted(store: Store, store': Store, t: Tree, k: Bytes, v: Bytes, after: Option<nat>)
    requires Placed(store, t, 0, after) && t.Leaf? && !Full(t)
    requires store' == store[t.id := store[t.id].(keys := LeafInsert(t, k, v).keys, vals := LeafInsert(t, k, v).vals)]
    ensures Inserted(store, store', t, k, v, 0, after)
  {
  }

  lemma KidPlaced(store: Store, s: Tree, d: nat, q: nat, after: Option<nat>)
    requires Placed(store, s, d, after) && s.Inner? && q < |s.kids|
    ensures q < |store[s.id].children| && store[s.id].children[q] == s.kids[q].id
    ensures Placed(store, s.kids[q], d - 1, After(s, d, q, after))
  {
    assert RepKid(store, s, d, q, after);
    assert Ids(s.kids[q]) <= Ids(s);
  }

  /** After the split, if one was needed, the store holds the prepared node. */
  lemma PreparedPlaced(store: Store, store': Store, t: Tree, k: Bytes, d: nat, after: Option<nat>)
    requires Placed(store, t, d, after) && t.Inner? && !Full(t)
    requires var i := Route(t.keys, k);
             if Full(t.kids[i]) then CanSplit(store, t.id, i) && store' == SplitStore(store, t.id, i) else store' == store
    ensures var s := Prepared(t, k, d, |store|);
            && Placed(store', s, d, after) && First(s, d) == First(t, d) && |store'| == NextFresh(t, k, d, |store|)
            && Untouched(store, store', t) && s.id == t.id && IdsFrom(s, t, |store|, |store'|)
  {
    var i := Route(t.keys, k);
    PreparedIds(t, k, d, |store|);
    if Full(t.kids[i]) {
      SplitStoreRep(store, t, d, i, after);
      SplittableStore(store, t, d, i, after);
      assert t.id in Ids(t) && Ids(t.kids[i]) <= Ids(t);
    }
  }

  /** Inserting below the prepared node completes the insertion below t. */
  lemma InnerInserted(store: Store, store1: Store, store2: Store, t: Tree, k: Bytes, v: Bytes, d: nat, after: Option<nat>)
    requires Placed(store, t, d, after) && t.Inner? && !Full(t)
    requires var s := Prepared(t, k, d, |store|);
             && Placed(store1, s, d, after) && First(s, d) == First(t, d) && |store1| == NextFresh(t, k, d, |store|)
             && Untouched(store, store1, t) && s.id == t.id && IdsFrom(s, t, |store|, |store1|)
    requires var s, q := Prepared(t, k, d, |store|), Target(t, k, d, |store|);
             Inserted(store1, store2, s.kids[q], k, v, d - 1, After(s, d, q, after))
    ensures Inserted(store, store2, t, k, v, d, after)
  {
    var s, q := Prepared(t, k, d, |store|), Target(t, k, d, |store|);
    KidPlaced(store1, s, d, q, after);
    var (c, f) := InsertNonfull(s.kids[q], k, v, d - 1, |store1|);
    InsertIds(s.kids[q], k, v, d - 1, |store1|);
    InsertIsReplaced(t, k, v, d, |store|);
    assert Agree(store1, store2, Ids(s) - Ids(s.kids[q]));
    ReplacedRep(store1, store2, s, d, q, c, after);
    assert Ids(s.kids[q]) <= Ids(s);
  }

  // ---------- Deletion on the store ----------

  lemma {:induction false} RemoveIds(t: Tree, k: Bytes, d: nat)
    requires Shape(t, d)
    ensures var r := Remove(t, k, d); Ids(r) == Ids(t) && (Disjoint(t) ==> Disjoint(r)) && First(r, d) == First(t, d)
    decreases d
  {
    if t.Inner? {
      var i := Route(t.keys, k);
      RemoveIds(t.kids[i], k, d - 1);
      var r := Remove(t, k, d);
      assert forall p :: 0 <= p < |t.kids| ==> Ids(r.kids[p]) == Ids(t.kids[p]);
      assert Disjoint(t) ==> forall p :: 0 <= p < |t.kids| ==> Disjoint(r.kids[p]);
    }
  }

  lemma KidRemoved(store: Store, store': Store, t: Tree, k: Bytes, d: nat, after: Option<nat>)
    requires Placed(store, t, d, after) && t.Inner?
    requires var i := Route(t.keys, k);
             Rep(store', Remove(t.kids[i], k, d - 1), d - 1, After(t, d, i, after)) && Untouched(store, store', t.kids[i])
    ensures Rep(store', Remove(t, k, d), d, after) && Untouched(store, store', t)
  {
    var i := Route(t.keys, k);
    RemoveIds(t.kids[i], k, d - 1);
    assert Ids(t.kids[i]) <= Ids(t);
    assert Agree(store, store', Ids(t) - Ids(t.kids[i]));
    ReplacedRep(store, store', t, d, i, Remove(t.kids[i], k, d - 1), after);
  }

  /** The closing shift of node_delete (src/storage/btree.c:273-279). */
  method ShiftRemove<T>(s: seq<T>, i: nat) returns (r: seq<T>)
    requires i < |s|
    ensures r == RemoveAt(s, i)
  {
    r := s;
    var j := i;
    while j < |s| - 1
      invariant i <= j < |s| == |r|
      invariant forall p :: 0 <= p < i ==> r[p] == s[p]
      invariant forall p :: i <= p < j ==> r[p] == s[p + 1]
      invariant forall p :: j <= p < |s| ==> r[p] == s[p]
    {
      r := r[j := r[j + 1]];
      j := j + 1;
    }
    r := r[..|s| - 1];
  }

  // ---------- The leaf chain ----------

  ghost function LeafSeq(t: Tree, d: nat): (r: seq<Tree>)
    requires Shape(t, d)
    ensures r != [] && r[0].Leaf? && r[0].id == First(t, d)
    decreases d, 0
  {
    if t.Leaf? then [t] else LeafSeq(t.kids[0], d - 1) + LeafSeqFrom(t.kids, d - 1, 1)
  }

  ghost function LeafSeqFrom(kids: seq<Tree>, d: nat, i: nat): seq<Tree>
    requires i <= |kids| && forall p :: 0 <= p < |kids| ==> Shape(kids[p], d)
    decreases d, 1, |kids| - i
  {
    if i == |kids| then [] else LeafSeq(kids[i], d) + LeafSeqFrom(kids, d, i + 1)
  }

  /** The leaves are stored one after the other along `next`. */
  ghost predicate LeafChain(store: Store, ls: seq<Tree>, after: Option<nat>) {
    ls == [] ||
    (&& ls[0].Leaf? && ls[0].id < |store| && |ls[0].keys| == |ls[0].vals|
     && store[ls[0].id].keys == ls[0].keys && store[ls[0].id].vals == ls[0].vals
     && store[ls[0].id].next == (if |ls| == 1 then after else Some(ls[1].id))
     && LeafChain(store, ls[1..], after))
  }

  lemma {:induction false} LeafChainAppend(store: Store, a: seq<Tree>, b: seq<Tree>, after: Option<nat>)
    requires b != [] ==> LeafChain(store, a, Some(b[0].id))
    requires b == [] ==> LeafChain(store, a, after)
    requires LeafChain(store, b, after)
    ensures LeafChain(store, a + b, after)
  {
    if a == [] {
      assert a + b == b;
    } else {
      LeafChainAppend(store, a[1..], b, after);
      assert (a + b)[1..] == a[1..] + b;
      assert |a + b| > 1 ==> (a + b)[1] == if |a| > 1 then a[1] else b[0];
    }
  }

  lemma {:induction false} RepChain(store: Store, t: Tree, d: nat, after: Option<nat>)
    requires Shape(t, d) && Rep(store, t, d, after)
    ensures LeafChain(store, LeafSeq(t, d), after)
    decreases d, 0
  {
    if t.Inner? {
      RepChainFrom(store, t, d, 0, after);
    } else {
      assert [t][1..] == [];
    }
  }

  lemma {:induction false} RepChainFrom(store: Store, t: Tree, d: nat, i: nat, after: Option<nat>)
    requires Shape(t, d) && t.Inner? && Rep(store, t, d, after) && i < |t.kids|
    ensures LeafChain(store, LeafSeqFrom(t.kids, d - 1, i), after)
    decreases d - 1, 1, |t.kids| - i
  {
    assert RepKid(store, t, d, i, after);
    RepChain(store, t.kids[i], d - 1, After(t, d, i, after));
    if i + 1 < |t.kids| {
      RepChainFrom(store, t, d, i + 1, after);
      assert LeafSeqFrom(t.kids, d - 1, i + 1)[0] == LeafSeq(t.kids[i + 1], d - 1)[0];
    }
    LeafChainAppend(store, LeafSeq(t.kids[i], d - 1), LeafSeqFrom(t.kids, d - 1, i + 1), after);
  }

  ghost function Entries(ls: seq<Tree>): seq<Pair>
    requires forall i :: 0 <= i < |ls| ==> ls[i].Leaf? && |ls[i].keys| == |ls[i].vals|
  {
    if ls == [] then [] else Zip(ls[0].keys, ls[0].vals) + Entries(ls[1..])
  }

  ghost predicate AllLeaves(ls: seq<Tree>) {
    forall i :: 0 <= i < |ls| ==> ls[i].Leaf? && |ls[i].keys| == |ls[i].vals|
  }

  lemma {:induction false} EntriesAppend(a: seq<Tree>, b: seq<Tree>)
    requires AllLeaves(a) && AllLeaves(b)
    ensures AllLeaves(a + b) && Entries(a + b) == Entries(a) + Entries(b)
  {
    if a == [] {
      assert a + b == b;
    } else {
      EntriesAppend(a[1..], b);
      assert (a + b)[1..] == a[1..] + b;
    }
  }

  /** The leaves in chain order hold exactly the in-order listing. */
  lemma {:induction false} ChainIsListing(t: Tree, d: nat)
    requires Shape(t, d)
    ensures AllLeaves(LeafSeq(t, d)) && Entries(LeafSeq(t, d)) == Listing(t, d)
    decreases d, 0
  {
    if t.Inner? {
      ChainIsListingFrom(t.kids, d - 1, 0);
    } else {
      assert [t][1..] == [];
    }
  }

  lemma {:induction false} ChainIsListingFrom(kids: seq<Tree>, d: nat, i: nat)
    requires i <= |kids| && forall p :: 0 <= p < |kids| ==> Shape(kids[p], d)
    ensures AllLeaves(LeafSeqFrom(kids, d, i)) && Entries(LeafSeqFrom(kids, d, i)) == ListingFrom(kids, d, i)
    decreases d, 1, |kids| - i
  {
    if i < |kids| {
      ChainIsListing(kids[i], d);
      ChainIsListingFrom(kids, d, i + 1);
      EntriesAppend(LeafSeq(kids[i], d), LeafSeqFrom(kids, d, i + 1));
    }
  }

  // ---------- The tree object ----------

  class BPlusTree {
    var store: Store
    var root: nat
    ghost var model: Root

    /** The store represents `model`, which is a tree as puts and deletes make them. */
    ghost predicate Valid()
      reads this
    {
      Placed(store, model.tree, model.depth, None) && root == model.tree.id && model.fresh_ == |store| && BTreeRuns.Valid(model)
    }

    /** btree_create */
    constructor ()
      ensures Valid() && model == Empty()
    {
      store := [Node(true, [], [], [], None)];
      root := 0;
      model := Empty();
    }

    /** split_child (src/storage/btree.c:92-144) */
    method SplitChildAt(p: nat, i: nat)
      requires CanSplit(store, p, i)
      modifies this`store
      ensures store == SplitStore(old(store), p, i)
    {
      var c := store[p].children[i];
      var child := store[c];
      var fresh_ := |store|;
      var upper;
      if child.isLeaf {
        var keys := CopyFrom(child.keys, HALF_KEYS);
        var vals := CopyFrom(child.vals, HALF_KEYS);
        upper := Node(true, keys, vals, [], child.next);
      } else {
        var keys := CopyFrom(child.keys, HALF_KEYS + 1);
        var children := CopyFrom(child.children, HALF_KEYS + 1);
        upper := Node(false, keys, [], children, None);
      }
      var pkeys := ShiftInsert(store[p].keys, i, child.keys[HALF_KEYS]);
      var pkids := ShiftInsert(store[p].children, i + 1, fresh_);
      store := store[c := LowerHalf(child, fresh_)];
      store := store[p := store[p].(keys := pkeys, children := pkids)];
      store := store + [upper];
    }

    /** The child that takes the key, after splitting it if it is full (src/storage/btree.c:176-187). */
    method PrepareChild(n: nat, k: Bytes, ghost t: Tree, ghost d: nat, ghost lo: real, ghost hi: real, ghost after: Option<nat>)
      returns (c: nat)
      requires Placed(store, t, d, after) && t.id == n && t.Inner? && !Full(t) && Ordered(t, lo, hi, true)
      modifies this`store
      ensures var s, q := Prepared(t, k, d, |old(store)|), Target(t, k, d, |old(store)|);
              && Placed(store, s, d, after) && First(s, d) == First(t, d) && |store| == NextFresh(t, k, d, |old(store)|)
              && Untouched(old(store), store, t) && s.id == t.id && IdsFrom(s, t, |old(store)|, |store|)
              && c == s.kids[q].id
    {
      ghost var fresh_ := |store|;
      var i := SplitIfFull(n, k, t, d, lo, hi, after);
      KidPlaced(store, Prepared(t, k, d, fresh_), d, Target(t, k, d, fresh_), after);
      c := store[n].children[i];
    }

    method SplitIfFull(n: nat, k: Bytes, ghost t: Tree, ghost d: nat, ghost lo: real, ghost hi: real, ghost after: Option<nat>)
      returns (i: nat)
      requires Placed(store, t, d, after) && t.id == n && t.Inner? && !Full(t) && Ordered(t, lo, hi, true)
      modifies this`store
      ensures var s := Prepared(t, k, d, |old(store)|);
              && Placed(store, s, d, after) && First(s, d) == First(t, d) && |store| == NextFresh(t, k, d, |old(store)|)
              && Untouched(old(store), store, t) && s.id == t.id && IdsFrom(s, t, |old(store)|, |store|)
      ensures i == Target(t, k, d, |old(store)|)
    {
      ghost var store0 := store;
      i := ChildIndex(store[n].keys, k);
      KidPlaced(store, t, d, i, after);
      var split := |store[store[n].children[i]].keys| == MAX_KEYS;
      if split {
        SplittableStore(store, t, d, i, after);
        SplitChildAt(n, i);
      }
      PreparedPlaced(store0, store, t, k, d, after);
      if split && KeyCmp(k, store[n].keys[i]) > 0 {
        i := i + 1;
      }
    }

    /** node_insert_nonfull: the store after the call represents the tree after the put. */
    method InsertInto(n: nat, k: Bytes, v: Bytes, ghost t: Tree, ghost d: nat, ghost lo: real, ghost hi: real, ghost after: Option<nat>)
      requires Placed(store, t, d, after) && t.id == n && !Full(t) && Ordered(t, lo, hi, true)
      modifies this`store
      ensures Inserted(old(store), store, t, k, v, d, after)
      decreases d
    {
      if store[n].isLeaf {
        var keys, vals := LeafUpsert(store[n].keys, store[n].vals, k, v);
        LeafInserted(store, store[n := store[n].(keys := keys, vals := vals)], t, k, v, after);
        store := store[n := store[n].(keys := keys, vals := vals)];
      } else {
        ghost var store0 := store;
        ghost var s, q := Prepared(t, k, d, |store|), Target(t, k, d, |store|);
        var c := PrepareChild(n, k, t, d, lo, hi, after);
        PreparedOrdered(t, k, d, |store0|, lo, hi, true);
        KidPlaced(store, s, d, q, after);
        ghost var store1 := store;
        InsertInto(c, k, v, s.kids[q], d - 1, Lo(s.keys, lo, q), Hi(s.keys, hi, q), After(s, d, q, after));
        InnerInserted(store0, store1, store, t, k, v, d, after);
      }
    }

    /** The root split of btree_put (src/storage/btree.c:241-248). */
    method Grow()
      requires Valid()
      modifies this
      ensures Valid() && model == Grown(old(model))
    {
      GrownSame(model, true, []);
      if |store[root].keys| == MAX_KEYS {
        GrowPlaced(store, model, store + [Node(false, [], [], [root], None)]);
        store := store + [Node(false, [], [], [root], None)];
        root := |store| - 1;
        SplitChildAt(root, 0);
        model := Grown(model);
      }
    }

    /** btree_put: the model takes the same put, lost or not. */
    method Put(k: Bytes, v: Bytes)
      requires Valid()
      modifies this
      ensures Valid() && model == BTreeRuns.Put(old(model), k, v)
    {
      ghost var m0 := model;
      PutLookup(model, k, v, k);
      Grow();
      InsertIds(model.tree, k, v, model.depth, model.fresh_);
      InsertInto(root, k, v, model.tree, model.depth, -1.0, 2.0, None);
      model := BTreeRuns.Put(m0, k, v);
    }

    /** node_search: follows the child pointers and compares along the way. */
    method GetFrom(n: nat, k: Bytes, ghost t: Tree, ghost d: nat, ghost after: Option<nat>) returns (v: Option<Bytes>)
      requires Placed(store, t, d, after) && t.id == n
      ensures v == Search(t, k, d)
      decreases d
    {
      var i := 0;
      while i < |store[n].keys| && KeyCmp(k, store[n].keys[i]) >= 0
        invariant 0 <= i <= |store[n].keys|
        invariant forall p :: 0 <= p < i ==> Rank(store[n].keys[p]) <= Rank(k)
        invariant RouteFrom(store[n].keys, k, i) == Route(store[n].keys, k)
      {
        i := i + 1;
      }
      if store[n].isLeaf {
        if i > 0 && KeyCmp(k, store[n].keys[i - 1]) == 0 {
          return Some(store[n].vals[i - 1]);
        }
        return None;
      }
      KidPlaced(store, t, d, i, after);
      v := GetFrom(store[n].children[i], k, t.kids[i], d - 1, After(t, d, i, after));
    }

    /** btree_get */
    method Get(k: Bytes) returns (v: Option<Bytes>)
      requires Valid()
      ensures v == Lookup(model, k)
    {
      v := GetFrom(root, k, model.tree, model.depth, None);
    }

    /** The scan of a leaf (src/storage/btree.c:267-283). */
    method DeleteInLeaf(n: nat, k: Bytes, ghost t: Tree, ghost lo: real, ghost hi: real, ghost after: Option<nat>)
      requires Placed(store, t, 0, after) && t.id == n && t.Leaf? && Ordered(t, lo, hi, true)
      modifies this`store
      ensures |store| == |old(store)| && Rep(store, Remove(t, k, 0), 0, after) && Untouched(old(store), store, t)
    {
      for i := 0 to |store[n].keys|
        invariant store == old(store) && k !in t.keys[..i]
      {
        if KeyCmp(k, store[n].keys[i]) == 0 {
          RouteIs(t.keys, k, i + 1);
          var keys := ShiftRemove(store[n].keys, i);
          var vals := ShiftRemove(store[n].vals, i);
          store := store[n := store[n].(keys := keys, vals := vals)];
          return;
        }
      }
      assert t.keys[..|t.keys|] == t.keys;
    }

    /** node_delete */
    method DeleteFrom(n: nat, k: Bytes, ghost t: Tree, ghost d: nat, ghost lo: real, ghost hi: real, ghost after: Option<nat>)
      requires Placed(store, t, d, after) && t.id == n && Ordered(t, lo, hi, true)
      modifies this`store
      ensures |store| == |old(store)| && Rep(store, Remove(t, k, d), d, after) && Untouched(old(store), store, t)
      decreases d
    {
      if store[n].isLeaf {
        DeleteInLeaf(n, k, t, lo, hi, after);
      } else {
        ghost var store0 := store;
        var i := ChildIndex(store[n].keys, k);
        KidPlaced(store, t, d, i, after);
        DeleteFrom(store[n].children[i], k, t.kids[i], d - 1, Lo(t.keys, lo, i), Hi(t.keys, hi, i), After(t, d, i, after));
        KidRemoved(store0, store, t, k, d, after);
      }
    }

    /** btree_delete */
    method Delete(k: Bytes)
      requires Valid()
      modifies this
      ensures Valid() && model == BTreeRuns.Delete(old(model), k)
    {
      DeleteLookup(model, k, k);
      RemoveIds(model.tree, k, model.depth);
      DeleteFrom(root, k, model.tree, model.depth, -1.0, 2.0, None);
      model := BTreeRuns.Delete(model, k);
    }

    method LeftmostLeaf(n: nat, ghost t: Tree, ghost d: nat, ghost after: Option<nat>) returns (r: nat)
      requires Placed(store, t, d, after) && t.id == n
      ensures r == First(t, d)
      decreases d
    {
      if store[n].isLeaf {
        r := n;
      } else {
        KidPlaced(store, t, d, 0, after);
        r := LeftmostLeaf(store[n].children[0], t.kids[0], d - 1, After(t, d, 0, after));
      }
    }

    /** btree_cursor_create: following the leaf chain yields the in-order listing. */
    method Collect() returns (items: seq<Pair>)
      requires Valid()
      ensures items == Listing(model.tree, model.depth)
    {
      var first := LeftmostLeaf(root, model.tree, model.depth, None);
      ghost var rest := LeafSeq(model.tree, model.depth);
      RepChain(store, model.tree, model.depth, None);
      ChainIsListing(model.tree, model.depth);
      items := [];
      var n := Some(first);
      while n != None
        invariant AllLeaves(rest) && LeafChain(store, rest, None)
        invariant n == if rest == [] then None else Some(rest[0].id)
        invariant items + Entries(rest) == Listing(model.tree, model.depth)
        decreases |rest|
      {
        var leaf := store[n.value];
        var got := LeafPairs(leaf.keys, leaf.vals);
        items := items + got;
        n := leaf.next;
        rest := rest[1..];
      }
    }
  }

  lemma PreparedOrdered(t: Tree, k: Bytes, d: nat, fresh_: nat, lo: real, hi: real, stray: bool)
    requires Shape(t, d) && t.Inner? && !Full(t) && Ordered(t, lo, hi, stray)
    ensures var s, q := Prepared(t, k, d, fresh_), Target(t, k, d, fresh_);
            Ordered(s, lo, hi, stray) && Ordered(s.kids[q], Lo(s.keys, lo, q), Hi(s.keys, hi, q), stray)
  {
    PreparedSame(t, k, d, fresh_, lo, hi, stray, k);
  }

  /** The pairs of one leaf (src/storage/btree.c:315-333). */
  method LeafPairs(keys: seq<Bytes>, vals: seq<Bytes>) returns (got: seq<Pair>)
    requires |keys| == |vals|
    ensures got == Zip(keys, vals)
  {
    got := [];
    for i := 0 to |keys|
      invariant got == Zip(keys, vals)[..i]
    {
      got := got + [(keys[i], vals[i])];
    }
  }

  /** The new root above a full one, before its split. */
  lemma NewRootPlaced(store: Store, m: Root, store': Store, t: Tree)
    requires Placed(store, m.tree, m.depth, None) && m.fresh_ == |store| && Full(m.tree)
    requires store' == store + [Node(false, [], [], [m.tree.id], None)] && t == Inner(|store|, [], [m.tree])
    ensures Placed(store', t, m.depth + 1, None)
  {
    assert t.kids[0] == m.tree && Ids(t) == {|store|} + Ids(m.tree) by {
      assert KidIds(t.kids) == Ids(t.kids[0]);
    }
    RepFrame(store, store', m.tree, m.depth, None);
    assert RepKid(store', t, m.depth + 1, 0, None);
  }

  /** And after it. */
  lemma GrowPlaced(store: Store, m: Root, store': Store)
    requires Placed(store, m.tree, m.depth, None) && m.fresh_ == |store| && Full(m.tree)
    requires store' == store + [Node(false, [], [], [m.tree.id], None)]
    ensures CanSplit(store', |store|, 0)
    ensures var g := Grown(m); Placed(SplitStore(store', |store|, 0), g.tree, g.depth, None) && g.tree.id == |store|
  {
    var t := Inner(|store|, [], [m.tree]);
    NewRootPlaced(store, m, store', t);
    SplitStoreRep(store', t, m.depth + 1, 0, None);
    SplitChildIds(t, m.depth + 1, 0, |store'|);
  }

  // ---------- Cursor ----------

  /** btree_cursor_seek: binary search for the first item not below the key; where a stray copy makes a key occur twice,
      one of the two. */
  method Seek(items: seq<Pair>, key: Bytes, ghost stray: bool) returns (pos: nat)
    requires SortedPairs(items, -1.0, 2.0, stray)
    ensures pos <= |items|
    ensures forall i :: 0 <= i < pos ==> Rank(items[i].0) < Rank(key) || (stray && items[i].0 == key)
    ensures forall i :: pos <= i < |items| ==> Rank(key) <= Rank(items[i].0)
    ensures (exists i :: 0 <= i < |items| && items[i].0 == key) ==> pos < |items| && items[pos].0 == key
  {
    var lo, hi := 0, |items| - 1;
    while lo <= hi
      invariant 0 <= lo <= hi + 1 <= |items|
      invariant forall i :: 0 <= i < lo ==> Rank(items[i].0) < Rank(key)
      invariant forall i :: hi < i < |items| ==> Rank(key) < Rank(items[i].0)
    {
      var mid := (lo + hi) / 2;
      var cmp := KeyCmp(key, items[mid].0);
      if cmp == 0 {
        return mid;
      } else if cmp < 0 {
        hi := mid - 1;
      } else {
        lo := mid + 1;
      }
    }
    pos := lo;
  }
}
