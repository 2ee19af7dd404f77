/** The B+tree (src/storage/btree.c) as a function on values: what the routing, splitting and
    inserting code computes, and what that means for lookups.

    After splitting a full child, `node_insert_nonfull` sends a key equal to the promoted
    separator to the left (src/storage/btree.c:183), while `node_search` and `node_delete` send it
    to the right (lines 196 and 287). The model keeps the code as written; `Misroutes` says when
    a put takes that branch. */
module BTree {
  import opened Keys

  const MAX_KEYS := 16
  const HALF_KEYS := 8

  /** A node with its address; the address plays no part in lookups. */
  datatype Tree =
    | Leaf(id: nat, keys: seq<Bytes>, vals: seq<Bytes>)
    | Inner(id: nat, keys: seq<Bytes>, kids: seq<Tree>)

  // ---------- Routing ----------

  ghost predicate Sorted(keys: seq<Bytes>) {
    forall p, q :: 0 <= p < q < |keys| ==> Rank(keys[p]) < Rank(keys[q])
  }

  /** Index of the first key greater than k: the child that search and insertion descend into. */
  function Route(keys: seq<Bytes>, k: Bytes): (r: nat)
    ensures r <= |keys|
    ensures forall p :: 0 <= p < r ==> Rank(keys[p]) <= Rank(k)
    ensures r < |keys| ==> Rank(k) < Rank(keys[r])
  {
    RouteFrom(keys, k, 0)
  }

  function RouteFrom(keys: seq<Bytes>, k: Bytes, i: nat): (r: nat)
    requires i <= |keys| && forall p :: 0 <= p < i ==> Rank(keys[p]) <= Rank(k)
    ensures r <= |keys|
    ensures forall p :: 0 <= p < r ==> Rank(keys[p]) <= Rank(k)
    ensures r < |keys| ==> Rank(k) < Rank(keys[r])
    decreases |keys| - i
  {
    if i < |keys| && KeyCmp(k, keys[i]) >= 0 then RouteFrom(keys, k, i + 1) else i
  }

  /** Routing in sorted keys is determined by the two neighbours. */
  lemma RouteIs(keys: seq<Bytes>, k: Bytes, r: nat)
    requires Sorted(keys) && r <= |keys|
    requires r > 0 ==> Rank(keys[r - 1]) <= Rank(k)
    requires r < |keys| ==> Rank(k) < Rank(keys[r])
    ensures Route(keys, k) == r
  {
    var i := Route(keys, k);
    if i < r {
      assert false;
    }
  }

  // ---------- Shape and order ----------

  /** Every leaf is at depth d, and no node holds more than MAX_KEYS keys. */
  predicate Shape(t: Tree, d: nat) {
    && |t.keys| <= MAX_KEYS
    && match t
       case Leaf(_, keys, vals) => d == 0 && |vals| == |keys|
       case Inner(_, keys, kids) => d > 0 && |kids| == |keys| + 1 && forall i :: 0 <= i < |kids| ==> Shape(kids[i], d - 1)
  }

  ghost function Lo(keys: seq<Bytes>, lo: real, i: nat): real
    requires i <= |keys|
  {
    if i == 0 then lo else Rank(keys[i - 1])
  }

  ghost function Hi(keys: seq<Bytes>, hi: real, i: nat): real
    requires i <= |keys|
  {
    if i == |keys| then hi else Rank(keys[i])
  }

  /** Between the bounds; a stray key may equal the upper one. */
  ghost predicate InRange(r: real, lo: real, hi: real, stray: bool) {
    lo <= r && (r < hi || (stray && r == hi))
  }

  ghost predicate Within(keys: seq<Bytes>, lo: real, hi: real, stray: bool) {
    forall p :: 0 <= p < |keys| ==> InRange(Rank(keys[p]), lo, hi, stray)
  }

  /** Keys are sorted and separators bound their subtrees. A separator need not be a stored key:
      deletion leaves it in place. With `stray`, a leaf may hold a key equal to the separator on its right: that is
      where a misrouted put leaves it. */
  ghost predicate Ordered(t: Tree, lo: real, hi: real, stray: bool)
    decreases t
  {
    && Sorted(t.keys) && Within(t.keys, lo, hi, stray && t.Leaf?)
    && match t
       case Leaf(_, _, _) => true
       case Inner(_, keys, kids) =>
         |kids| == |keys| + 1 &&
         forall i :: 0 <= i < |kids| ==> Ordered(kids[i], Lo(keys, lo, i), Hi(keys, hi, i), stray)
  }

  // ---------- The operations ----------

  function InsertAt<T>(s: seq<T>, i: nat, x: T): (r: seq<T>)
    requires i <= |s|
    ensures |r| == |s| + 1 && r[i] == x
    ensures forall p :: 0 <= p < i ==> r[p] == s[p]
    ensures forall p :: i < p < |r| ==> r[p] == s[p - 1]
  {
    s[..i] + [x] + s[i..]
  }

  function RemoveAt<T>(s: seq<T>, i: nat): (r: seq<T>)
    requires i < |s|
    ensures |r| == |s| - 1
    ensures forall p :: 0 <= p < i ==> r[p] == s[p]
    ensures forall p :: i <= p < |r| ==> r[p] == s[p + 1]
  {
    s[..i] + s[i + 1..]
  }

  /** btree_get (src/storage/btree.c:192-210, 253-257) */
  function Search(t: Tree, k: Bytes, d: nat): Option<Bytes>
    requires Shape(t, d)
    decreases d
  {
    var i := Route(t.keys, k);
    match t
    case Leaf(_, keys, vals) => if i > 0 && keys[i - 1] == k then Some(vals[i - 1]) else None
    case Inner(_, _, kids) => Search(kids[i], k, d - 1)
  }

  predicate Full(t: Tree) {
    |t.keys| == MAX_KEYS
  }

  /** The lower half, which keeps the address (src/storage/btree.c:107, 130). */
  function SplitLeft(c: Tree, d: nat): (l: Tree)
    requires Shape(c, d) && Full(c)
    ensures Shape(l, d) && !Full(l)
  {
    match c
    case Leaf(id, keys, vals) => Leaf(id, keys[..HALF_KEYS], vals[..HALF_KEYS])
    case Inner(id, keys, kids) => Inner(id, keys[..HALF_KEYS], kids[..HALF_KEYS + 1])
  }

  /** The upper half, at the fresh address (src/storage/btree.c:100-106, 123-129). */
  function SplitRight(c: Tree, d: nat, fresh_: nat): (r: Tree)
    requires Shape(c, d) && Full(c)
    ensures Shape(r, d) && !Full(r)
  {
    match c
    case Leaf(id, keys, vals) => Leaf(fresh_, keys[HALF_KEYS..], vals[HALF_KEYS..])
    case Inner(id, keys, kids) => Inner(fresh_, keys[HALF_KEYS + 1..], kids[HALF_KEYS + 1..])
  }

  /** split_child: the middle key becomes a separator of the parent (src/storage/btree.c:92-144). */
  function SplitChild(t: Tree, i: nat, d: nat, fresh_: nat): (r: Tree)
    requires Shape(t, d) && t.Inner? && i < |t.kids| && Full(t.kids[i]) && !Full(t)
    ensures Shape(r, d)
  {
    var c := t.kids[i];
    Inner(t.id, InsertAt(t.keys, i, c.keys[HALF_KEYS]),
          InsertAt(t.kids[i := SplitLeft(c, d - 1)], i + 1, SplitRight(c, d - 1, fresh_)))
  }

  /** The child an insertion descends into, after a split at i if one was needed: with `>`, as written. */
  function Descend(t: Tree, i: nat, k: Bytes, split: bool): (j: nat)
    requires i <= |t.keys| && (split ==> i < |t.keys|)
    ensures j <= |t.keys|
  {
    if split && KeyCmp(k, t.keys[i]) > 0 then i + 1 else i
  }

  /** The node in which an insertion picks its child: split first if that child is full. */
  function Prepared(t: Tree, k: Bytes, d: nat, fresh_: nat): (s: Tree)
    requires Shape(t, d) && !Full(t) && t.Inner?
    ensures Shape(s, d) && s.Inner?
  {
    var i := Route(t.keys, k);
    if Full(t.kids[i]) then SplitChild(t, i, d, fresh_) else t
  }

  function Target(t: Tree, k: Bytes, d: nat, fresh_: nat): (j: nat)
    requires Shape(t, d) && !Full(t) && t.Inner?
    ensures j < |Prepared(t, k, d, fresh_).kids| && !Full(Prepared(t, k, d, fresh_).kids[j])
  {
    var i := Route(t.keys, k);
    Descend(Prepared(t, k, d, fresh_), i, k, Full(t.kids[i]))
  }

  /** The leaf case: overwrite in place or insert in order (src/storage/btree.c:151-174). */
  function LeafInsert(t: Tree, k: Bytes, v: Bytes): (r: Tree)
    requires Shape(t, 0) && !Full(t)
    ensures Shape(r, 0)
  {
    var i := Route(t.keys, k);
    if i > 0 && t.keys[i - 1] == k then Leaf(t.id, t.keys, t.vals[i - 1 := v])
    else Leaf(t.id, InsertAt(t.keys, i, k), InsertAt(t.vals, i, v))
  }

  /** node_insert_nonfull (src/storage/btree.c:146-190); the second result is the next fresh address. */
  function InsertNonfull(t: Tree, k: Bytes, v: Bytes, d: nat, fresh_: nat): (r: (Tree, nat))
    requires Shape(t, d) && !Full(t)
    ensures Shape(r.0, d)
    decreases d
  {
    match t
    case Leaf(_, _, _) => (LeafInsert(t, k, v), fresh_)
    case Inner(_, _, _) =>
      var s := Prepared(t, k, d, fresh_);
      var q := Target(t, k, d, fresh_);
      var (c, f) := InsertNonfull(s.kids[q], k, v, d - 1, NextFresh(t, k, d, fresh_));
      (Replaced(s, q, c), f)
  }

  function NextFresh(t: Tree, k: Bytes, d: nat, fresh_: nat): nat
    requires Shape(t, d) && t.Inner?
  {
    if Full(t.kids[Route(t.keys, k)]) then fresh_ + 1 else fresh_
  }

  function Replaced(t: Tree, q: nat, c: Tree): Tree
    requires t.Inner? && q < |t.kids|
  {
    Inner(t.id, t.keys, t.kids[q := c])
  }

  /** The put reaches a full child whose promoted separator is k itself. */
  predicate Misroutes(t: Tree, k: Bytes, d: nat)
    requires Shape(t, d)
    decreases d
  {
    t.Inner? &&
    var c := t.kids[Route(t.keys, k)];
    if !Full(c) then Misroutes(c, k, d - 1)
    else if k == c.keys[HALF_KEYS] then true
    else Misroutes(if KeyCmp(k, c.keys[HALF_KEYS]) > 0 then SplitRight(c, d - 1, 0) else SplitLeft(c, d - 1), k, d - 1)
  }

  // ---------- Splitting changes nothing a lookup can see ----------

  lemma SplitLeftOrdered(c: Tree, l: Tree, lo: real, hi: real, stray: bool, d: nat, m: real)
    requires Shape(c, d) && Full(c) && Ordered(c, lo, hi, stray) && l == SplitLeft(c, d) && m == Rank(c.keys[HALF_KEYS])
    ensures Ordered(l, lo, m, stray)
  {
    assert forall p :: 0 <= p < HALF_KEYS ==> l.keys[p] == c.keys[p];
    if c.Inner? {
      forall i | 0 <= i < |l.kids| ensures Ordered(l.kids[i], Lo(l.keys, lo, i), Hi(l.keys, m, i), stray) {
        assert Ordered(c.kids[i], Lo(c.keys, lo, i), Hi(c.keys, hi, i), stray);
      }
    }
  }

  lemma SplitRightOrdered(c: Tree, r: Tree, lo: real, hi: real, stray: bool, d: nat, fresh_: nat, m: real)
    requires Shape(c, d) && Full(c) && Ordered(c, lo, hi, stray) && r == SplitRight(c, d, fresh_) && m == Rank(c.keys[HALF_KEYS])
    ensures Ordered(r, m, hi, stray)
  {
    if c.Inner? {
      var n := HALF_KEYS + 1;
      assert forall p :: 0 <= p < |r.keys| ==> r.keys[p] == c.keys[p + n];
      forall i | 0 <= i < |r.kids| ensures Ordered(r.kids[i], Lo(r.keys, m, i), Hi(r.keys, hi, i), stray) {
        assert Ordered(c.kids[i + n], Lo(c.keys, lo, i + n), Hi(c.keys, hi, i + n), stray);
      }
    } else {
      assert forall p :: 0 <= p < |r.keys| ==> r.keys[p] == c.keys[p + HALF_KEYS];
    }
  }

  lemma SplitOrdered(c: Tree, lo: real, hi: real, stray: bool, d: nat, fresh_: nat)
    requires Shape(c, d) && Full(c) && Ordered(c, lo, hi, stray)
    ensures var m := Rank(c.keys[HALF_KEYS]);
            lo < m < hi && Ordered(SplitLeft(c, d), lo, m, stray) && Ordered(SplitRight(c, d, fresh_), m, hi, stray)
  {
    var m := Rank(c.keys[HALF_KEYS]);
    assert lo <= Rank(c.keys[0]) < m < Rank(c.keys[MAX_KEYS - 1]) <= hi;
    SplitLeftOrdered(c, SplitLeft(c, d), lo, hi, stray, d, m);
    SplitRightOrdered(c, SplitRight(c, d, fresh_), lo, hi, stray, d, fresh_, m);
  }

  lemma SplitSearchLeft(c: Tree, d: nat, j: Bytes)
    requires Shape(c, d) && Full(c) && Sorted(c.keys) && Rank(j) < Rank(c.keys[HALF_KEYS])
    ensures Search(c, j, d) == Search(SplitLeft(c, d), j, d)
  {
    var i := Route(c.keys, j);
    RouteIs(c.keys[..HALF_KEYS], j, i);
  }

  lemma SuffixRoute(keys: seq<Bytes>, n: nat, j: Bytes)
    requires Sorted(keys) && n <= |keys| && Route(keys, j) >= n
    ensures Route(keys[n..], j) == Route(keys, j) - n
  {
    var i, tail := Route(keys, j), keys[n..];
    assert forall p :: 0 <= p < |tail| ==> tail[p] == keys[p + n];
    RouteIs(tail, j, i - n);
  }

  lemma SplitSearchRight(c: Tree, d: nat, fresh_: nat, j: Bytes)
    requires Shape(c, d) && Full(c) && Sorted(c.keys) && Rank(c.keys[HALF_KEYS]) <= Rank(j)
    ensures Search(c, j, d) == Search(SplitRight(c, d, fresh_), j, d)
  {
    var i, r := Route(c.keys, j), SplitRight(c, d, fresh_);
    assert i > HALF_KEYS;
    if c.Leaf? {
      SuffixRoute(c.keys, HALF_KEYS, j);
      assert r.keys[i - HALF_KEYS - 1] == c.keys[i - 1] && r.vals[i - HALF_KEYS - 1] == c.vals[i - 1];
    } else {
      SuffixRoute(c.keys, HALF_KEYS + 1, j);
      assert r.kids[i - HALF_KEYS - 1] == c.kids[i];
    }
  }

  lemma SplitChildOrdered(t: Tree, i: nat, lo: real, hi: real, stray: bool, d: nat, fresh_: nat)
    requires Shape(t, d) && t.Inner? && i < |t.kids| && Full(t.kids[i]) && !Full(t) && Ordered(t, lo, hi, stray)
    ensures Ordered(SplitChild(t, i, d, fresh_), lo, hi, stray)
  {
    var c := t.kids[i];
    var s := SplitChild(t, i, d, fresh_);
    SplitOrdered(c, Lo(t.keys, lo, i), Hi(t.keys, hi, i), stray, d - 1, fresh_);
    InsertSorted(t.keys, i, c.keys[HALF_KEYS], lo, hi, false);
    forall p | 0 <= p < |s.kids| ensures Ordered(s.kids[p], Lo(s.keys, lo, p), Hi(s.keys, hi, p), stray) {
      SplitKidOrdered(t, s, i, lo, hi, stray, d, fresh_, p);
    }
  }

  /** The bounds of the children after a separator was inserted at i. */
  lemma BoundsAfterInsert(keys: seq<Bytes>, i: nat, m: Bytes, lo: real, hi: real, p: nat)
    requires i <= |keys| && p <= |keys| + 1
    ensures Lo(InsertAt(keys, i, m), lo, p) == if p <= i then Lo(keys, lo, p) else if p == i + 1 then Rank(m) else Lo(keys, lo, p - 1)
    ensures Hi(InsertAt(keys, i, m), hi, p) == if p < i then Hi(keys, hi, p) else if p == i then Rank(m) else Hi(keys, hi, p - 1)
  {
  }

  lemma SplitKidOrdered(t: Tree, s: Tree, i: nat, lo: real, hi: real, stray: bool, d: nat, fresh_: nat, p: nat)
    requires Shape(t, d) && t.Inner? && i < |t.kids| && Full(t.kids[i]) && !Full(t) && Ordered(t, lo, hi, stray)
    requires s == SplitChild(t, i, d, fresh_) && p < |s.kids|
    ensures Ordered(s.kids[p], Lo(s.keys, lo, p), Hi(s.keys, hi, p), stray)
  {
    var c := t.kids[i];
    BoundsAfterInsert(t.keys, i, c.keys[HALF_KEYS], lo, hi, p);
    var q := if p <= i then p else p - 1;
    assert Ordered(t.kids[q], Lo(t.keys, lo, q), Hi(t.keys, hi, q), stray);
    if p == i || p == i + 1 {
      HalvesOrdered(c, s.kids[i], s.kids[i + 1], Lo(t.keys, lo, i), Hi(t.keys, hi, i), stray, d - 1, fresh_);
    } else {
      assert s.kids[p] == t.kids[q];
    }
  }

  lemma HalvesOrdered(c: Tree, l: Tree, r: Tree, lo: real, hi: real, stray: bool, d: nat, fresh_: nat)
    requires Shape(c, d) && Full(c) && Ordered(c, lo, hi, stray) && l == SplitLeft(c, d) && r == SplitRight(c, d, fresh_)
    ensures Ordered(l, lo, Rank(c.keys[HALF_KEYS]), stray) && Ordered(r, Rank(c.keys[HALF_KEYS]), hi, stray)
  {
    SplitOrdered(c, lo, hi, stray, d, fresh_);
  }

  lemma InsertWithin(keys: seq<Bytes>, i: nat, k: Bytes, lo: real, hi: real, stray: bool)
    requires Within(keys, lo, hi, stray) && i <= |keys| && InRange(Rank(k), lo, hi, stray)
    ensures Within(InsertAt(keys, i, k), lo, hi, stray)
  {
    var r := InsertAt(keys, i, k);
    forall p | 0 <= p < |r| ensures InRange(Rank(r[p]), lo, hi, stray) {
      assert r[p] == if p < i then keys[p] else if p == i then k else keys[p - 1];
    }
  }

  lemma InsertPair(keys: seq<Bytes>, i: nat, k: Bytes, p: nat, q: nat)
    requires Sorted(keys) && i <= |keys| && p < q <= |keys|
    requires i > 0 ==> Rank(keys[i - 1]) < Rank(k)
    requires i < |keys| ==> Rank(k) < Rank(keys[i])
    ensures Rank(InsertAt(keys, i, k)[p]) < Rank(InsertAt(keys, i, k)[q])
  {
    var r := InsertAt(keys, i, k);
    if p == i {
      assert r[q] == keys[q - 1] && Rank(keys[i]) <= Rank(keys[q - 1]);
    } else if q == i {
      assert r[p] == keys[p] && Rank(keys[p]) <= Rank(keys[i - 1]);
    } else {
      assert r[p] == keys[if p < i then p else p - 1] && r[q] == keys[if q < i then q else q - 1];
    }
  }

  lemma InsertSorted(keys: seq<Bytes>, i: nat, k: Bytes, lo: real, hi: real, stray: bool)
    requires Sorted(keys) && Within(keys, lo, hi, stray) && i <= |keys| && InRange(Rank(k), lo, hi, stray)
    requires i > 0 ==> Rank(keys[i - 1]) < Rank(k)
    requires i < |keys| ==> Rank(k) < Rank(keys[i])
    ensures Sorted(InsertAt(keys, i, k)) && Within(InsertAt(keys, i, k), lo, hi, stray)
  {
    var r := InsertAt(keys, i, k);
    forall p, q | 0 <= p < q < |r| ensures Rank(r[p]) < Rank(r[q]) { InsertPair(keys, i, k, p, q); }
    InsertWithin(keys, i, k, lo, hi, stray);
  }

  lemma SearchVia(t: Tree, d: nat, j: Bytes, r: nat)
    requires Shape(t, d) && t.Inner? && Sorted(t.keys) && r <= |t.keys|
    requires r > 0 ==> Rank(t.keys[r - 1]) <= Rank(j)
    requires r < |t.keys| ==> Rank(j) < Rank(t.keys[r])
    ensures Search(t, j, d) == Search(t.kids[r], j, d - 1)
  {
    RouteIs(t.keys, j, r);
  }

  lemma SplitChildElsewhere(t: Tree, i: nat, d: nat, fresh_: nat, j: Bytes)
    requires Shape(t, d) && t.Inner? && i < |t.kids| && Full(t.kids[i]) && !Full(t)
    requires Sorted(t.keys) && Sorted(SplitChild(t, i, d, fresh_).keys)
    requires Route(t.keys, j) != i
    ensures Search(SplitChild(t, i, d, fresh_), j, d) == Search(t, j, d)
  {
    var s, r := SplitChild(t, i, d, fresh_), Route(t.keys, j);
    SearchVia(t, d, j, r);
    if r < i {
      SearchVia(s, d, j, r);
      assert s.kids[r] == t.kids[r];
    } else {
      SearchVia(s, d, j, r + 1);
      assert s.kids[r + 1] == t.kids[r];
    }
  }

  lemma SplitChildHere(t: Tree, i: nat, d: nat, fresh_: nat, j: Bytes)
    requires Shape(t, d) && t.Inner? && i < |t.kids| && Full(t.kids[i]) && !Full(t)
    requires Sorted(t.keys) && Sorted(SplitChild(t, i, d, fresh_).keys)
    requires Route(t.keys, j) == i && Sorted(t.kids[i].keys)
    ensures Search(SplitChild(t, i, d, fresh_), j, d) == Search(t, j, d)
  {
    var q := if Rank(j) < Rank(t.kids[i].keys[HALF_KEYS]) then i else i + 1;
    SearchVia(t, d, j, i);
    SplitHalf(t, SplitChild(t, i, d, fresh_), i, d, fresh_, j, q);
    HalfSearch(t.kids[i], d - 1, fresh_, j);
  }

  /** A lookup in a full node is the lookup in the half it belongs to. */
  lemma HalfSearch(c: Tree, d: nat, fresh_: nat, j: Bytes)
    requires Shape(c, d) && Full(c) && Sorted(c.keys)
    ensures Search(c, j, d) ==
            if Rank(j) < Rank(c.keys[HALF_KEYS]) then Search(SplitLeft(c, d), j, d) else Search(SplitRight(c, d, fresh_), j, d)
  {
    if Rank(j) < Rank(c.keys[HALF_KEYS]) { SplitSearchLeft(c, d, j); } else { SplitSearchRight(c, d, fresh_, j); }
  }

  lemma SplitHalf(t: Tree, s: Tree, i: nat, d: nat, fresh_: nat, j: Bytes, q: nat)
    requires Shape(t, d) && t.Inner? && i < |t.kids| && Full(t.kids[i]) && !Full(t) && s == SplitChild(t, i, d, fresh_)
    requires Sorted(t.keys) && Sorted(s.keys) && Route(t.keys, j) == i
    requires q == if Rank(j) < Rank(t.kids[i].keys[HALF_KEYS]) then i else i + 1
    ensures Shape(s.kids[q], d - 1) && Search(s, j, d) == Search(s.kids[q], j, d - 1)
    ensures s.kids[q] == if q == i then SplitLeft(t.kids[i], d - 1) else SplitRight(t.kids[i], d - 1, fresh_)
  {
    assert s.keys[i] == t.kids[i].keys[HALF_KEYS];
    assert i > 0 ==> s.keys[i - 1] == t.keys[i - 1];
    assert i < |t.keys| ==> s.keys[i + 1] == t.keys[i];
    SearchVia(s, d, j, q);
  }

  lemma SplitChildSearch(t: Tree, i: nat, lo: real, hi: real, stray: bool, d: nat, fresh_: nat, j: Bytes)
    requires Shape(t, d) && t.Inner? && i < |t.kids| && Full(t.kids[i]) && !Full(t) && Ordered(t, lo, hi, stray)
    ensures Search(SplitChild(t, i, d, fresh_), j, d) == Search(t, j, d)
  {
    SplitChildOrdered(t, i, lo, hi, stray, d, fresh_);
    if Route(t.keys, j) == i {
      SplitChildHere(t, i, d, fresh_, j);
    } else {
      SplitChildElsewhere(t, i, d, fresh_, j);
    }
  }

  // ---------- What a put does to lookups ----------

  lemma PreparedSame(t: Tree, k: Bytes, d: nat, fresh_: nat, lo: real, hi: real, stray: bool, j: Bytes)
    requires Shape(t, d) && !Full(t) && t.Inner? && Ordered(t, lo, hi, stray)
    ensures Ordered(Prepared(t, k, d, fresh_), lo, hi, stray)
    ensures Search(Prepared(t, k, d, fresh_), j, d) == Search(t, j, d)
  {
    var i := Route(t.keys, k);
    if Full(t.kids[i]) {
      SplitChildOrdered(t, i, lo, hi, stray, d, fresh_);
      SplitChildSearch(t, i, lo, hi, stray, d, fresh_, j);
    }
  }

  /** In a sorted leaf a key is found exactly where it is stored. */
  lemma LeafSearch(t: Tree, j: Bytes, p: nat)
    requires Shape(t, 0) && t.Leaf? && Sorted(t.keys)
    ensures p < |t.keys| && t.keys[p] == j ==> Search(t, j, 0) == Some(t.vals[p])
    ensures j !in t.keys ==> Search(t, j, 0) == None
  {
    if p < |t.keys| && t.keys[p] == j {
      RouteIs(t.keys, j, p + 1);
    }
  }

  lemma LeafInsertSorted(t: Tree, k: Bytes, v: Bytes)
    requires Shape(t, 0) && t.Leaf? && Sorted(t.keys) && !Full(t)
    ensures Sorted(LeafInsert(t, k, v).keys)
  {
    var i := Route(t.keys, k);
    if i > 0 { RankTotal(t.keys[i - 1], k); }
    if !(i > 0 && t.keys[i - 1] == k) { InsertSorted(t.keys, i, k, -1.0, 2.0, false); }
  }

  lemma LeafInsertFound(t: Tree, k: Bytes, v: Bytes, p: nat)
    requires Shape(t, 0) && t.Leaf? && Sorted(t.keys) && !Full(t) && p < |t.keys| && t.keys[p] != k
    ensures Search(LeafInsert(t, k, v), t.keys[p], 0) == Some(t.vals[p])
  {
    var r := LeafInsert(t, k, v);
    LeafInsertSorted(t, k, v);
    var q := LeafInsertPlace(t, k, v, p);
    LeafSearch(r, t.keys[p], q);
  }

  /** Where pair p of the leaf is after an insertion. */
  lemma LeafInsertPlace(t: Tree, k: Bytes, v: Bytes, p: nat) returns (q: nat)
    requires Shape(t, 0) && t.Leaf? && Sorted(t.keys) && !Full(t) && p < |t.keys| && t.keys[p] != k
    ensures var r := LeafInsert(t, k, v); q < |r.keys| && r.keys[q] == t.keys[p] && r.vals[q] == t.vals[p]
  {
    var i := Route(t.keys, k);
    q := if (i > 0 && t.keys[i - 1] == k) || p < i then p else p + 1;
  }

  lemma LeafInsertNew(t: Tree, k: Bytes, v: Bytes)
    requires Shape(t, 0) && t.Leaf? && Sorted(t.keys) && !Full(t)
    ensures Search(LeafInsert(t, k, v), k, 0) == Some(v)
  {
    var r, i := LeafInsert(t, k, v), Route(t.keys, k);
    LeafInsertSorted(t, k, v);
    LeafSearch(r, k, if i > 0 && t.keys[i - 1] == k then i - 1 else i);
  }

  lemma LeafInsertMissing(t: Tree, k: Bytes, v: Bytes, j: Bytes)
    requires Shape(t, 0) && t.Leaf? && Sorted(t.keys) && !Full(t) && j !in t.keys && j != k
    ensures Search(LeafInsert(t, k, v), j, 0) == None
  {
    var r := LeafInsert(t, k, v);
    LeafInsertSorted(t, k, v);
    assert j !in r.keys;
    LeafSearch(r, j, 0);
  }

  /** Where a key of the leaf is found after an insertion. */
  lemma LeafInsertSearch(t: Tree, k: Bytes, v: Bytes, j: Bytes)
    requires Shape(t, 0) && t.Leaf? && Sorted(t.keys) && !Full(t) && j != k
    ensures Search(LeafInsert(t, k, v), j, 0) == Search(t, j, 0)
  {
    if j in t.keys {
      var p :| 0 <= p < |t.keys| && t.keys[p] == j;
      LeafSearch(t, j, p);
      LeafInsertFound(t, k, v, p);
    } else {
      LeafSearch(t, j, 0);
      LeafInsertMissing(t, k, v, j);
    }
  }

  lemma ReplacedSearch(s: Tree, q: nat, c: Tree, d: nat, j: Bytes)
    requires Shape(s, d) && s.Inner? && q < |s.kids| && Shape(c, d - 1)
    ensures Shape(Replaced(s, q, c), d)
    ensures Search(Replaced(s, q, c), j, d) == if Route(s.keys, j) == q then Search(c, j, d - 1) else Search(s, j, d)
    ensures Route(s.keys, j) == q ==> Search(s, j, d) == Search(s.kids[q], j, d - 1)
  {
  }

  lemma InsertIsReplaced(t: Tree, k: Bytes, v: Bytes, d: nat, fresh_: nat)
    requires Shape(t, d) && !Full(t) && t.Inner?
    ensures var s, q := Prepared(t, k, d, fresh_), Target(t, k, d, fresh_);
            InsertNonfull(t, k, v, d, fresh_).0 ==
            Replaced(s, q, InsertNonfull(s.kids[q], k, v, d - 1, NextFresh(t, k, d, fresh_)).0)
  {
  }

  lemma InsertOtherInner(t: Tree, k: Bytes, v: Bytes, d: nat, fresh_: nat, lo: real, hi: real, stray: bool, j: Bytes)
    requires Shape(t, d) && !Full(t) && t.Inner? && Ordered(t, lo, hi, stray)
    requires var s, q := Prepared(t, k, d, fresh_), Target(t, k, d, fresh_);
             Search(InsertNonfull(s.kids[q], k, v, d - 1, NextFresh(t, k, d, fresh_)).0, j, d - 1) == Search(s.kids[q], j, d - 1)
    ensures Search(InsertNonfull(t, k, v, d, fresh_).0, j, d) == Search(t, j, d)
  {
    var s, q := Prepared(t, k, d, fresh_), Target(t, k, d, fresh_);
    PreparedSame(t, k, d, fresh_, lo, hi, stray, j);
    InsertIsReplaced(t, k, v, d, fresh_);
    ReplacedSearch(s, q, InsertNonfull(s.kids[q], k, v, d - 1, NextFresh(t, k, d, fresh_)).0, d, j);
  }

  /** A put never changes the lookup of another key, misrouted or not. */
  lemma {:induction false} InsertOther(t: Tree, k: Bytes, v: Bytes, d: nat, fresh_: nat, lo: real, hi: real, stray: bool, j: Bytes)
    requires Shape(t, d) && !Full(t) && Ordered(t, lo, hi, stray) && j != k
    ensures Search(InsertNonfull(t, k, v, d, fresh_).0, j, d) == Search(t, j, d)
    decreases d
  {
    if t.Leaf? {
      LeafInsertSearch(t, k, v, j);
    } else {
      var s, q := Prepared(t, k, d, fresh_), Target(t, k, d, fresh_);
      PreparedKid(t, k, d, fresh_, lo, hi, stray);
      InsertOther(s.kids[q], k, v, d - 1, NextFresh(t, k, d, fresh_), Lo(s.keys, lo, q), Hi(s.keys, hi, q), stray, j);
      InsertOtherInner(t, k, v, d, fresh_, lo, hi, stray, j);
    }
  }

  /** The child an insertion descends into is within its separators. */
  lemma PreparedKid(t: Tree, k: Bytes, d: nat, fresh_: nat, lo: real, hi: real, stray: bool)
    requires Shape(t, d) && !Full(t) && t.Inner? && Ordered(t, lo, hi, stray)
    ensures var s, q := Prepared(t, k, d, fresh_), Target(t, k, d, fresh_);
            Shape(s.kids[q], d - 1) && !Full(s.kids[q]) && Ordered(s.kids[q], Lo(s.keys, lo, q), Hi(s.keys, hi, q), stray)
  {
    PreparedSame(t, k, d, fresh_, lo, hi, stray, k);
  }

  lemma TargetIsRoute(t: Tree, k: Bytes, d: nat, fresh_: nat, lo: real, hi: real, stray: bool)
    requires Shape(t, d) && !Full(t) && t.Inner? && Ordered(t, lo, hi, stray)
    ensures var s, q := Prepared(t, k, d, fresh_), Target(t, k, d, fresh_);
            var c := t.kids[Route(t.keys, k)];
            && Ordered(s, lo, hi, stray)
            && (Route(s.keys, k) == q <==> !(Full(c) && k == c.keys[HALF_KEYS]))
            && (Route(s.keys, k) == q ==> Misroutes(t, k, d) == Misroutes(s.kids[q], k, d - 1))
  {
    var i := Route(t.keys, k);
    if Full(t.kids[i]) { TargetAfterSplit(t, k, d, fresh_, lo, hi, stray, i, t.kids[i], Prepared(t, k, d, fresh_)); }
  }

  lemma TargetAfterSplit(t: Tree, k: Bytes, d: nat, fresh_: nat, lo: real, hi: real, stray: bool, i: nat, c: Tree, s: Tree)
    requires Shape(t, d) && !Full(t) && t.Inner? && Ordered(t, lo, hi, stray) && i == Route(t.keys, k) && c == t.kids[i] && Full(c)
    requires s == SplitChild(t, i, d, fresh_)
    ensures Ordered(s, lo, hi, stray)
    ensures Route(s.keys, k) == if Rank(k) < Rank(c.keys[HALF_KEYS]) then i else i + 1
  {
    SplitChildOrdered(t, i, lo, hi, stray, d, fresh_);
    assert s.keys[i] == c.keys[HALF_KEYS];
    assert i > 0 ==> s.keys[i - 1] == t.keys[i - 1];
    assert i < |t.keys| ==> s.keys[i + 1] == t.keys[i];
    RouteIs(s.keys, k, if Rank(k) < Rank(c.keys[HALF_KEYS]) then i else i + 1);
  }

  /** A put is visible afterwards unless it was misrouted; then the lookup of its key is unchanged too. */
  lemma {:induction false} InsertSelf(t: Tree, k: Bytes, v: Bytes, d: nat, fresh_: nat, lo: real, hi: real, stray: bool)
    requires Shape(t, d) && !Full(t) && Ordered(t, lo, hi, stray)
    ensures Search(InsertNonfull(t, k, v, d, fresh_).0, k, d) == if Misroutes(t, k, d) then Search(t, k, d) else Some(v)
    decreases d
  {
    if t.Leaf? {
      LeafInsertNew(t, k, v);
    } else {
      var s, q := Prepared(t, k, d, fresh_), Target(t, k, d, fresh_);
      var f := NextFresh(t, k, d, fresh_);
      PreparedSame(t, k, d, fresh_, lo, hi, stray, k);
      TargetIsRoute(t, k, d, fresh_, lo, hi, stray);
      InsertIsReplaced(t, k, v, d, fresh_);
      ReplacedSearch(s, q, InsertNonfull(s.kids[q], k, v, d - 1, f).0, d, k);
      if Route(s.keys, k) == q {
        InsertSelf(s.kids[q], k, v, d - 1, f, Lo(s.keys, lo, q), Hi(s.keys, hi, q), stray);
      }
    }
  }

  lemma ReplacedOrdered(s: Tree, q: nat, c: Tree, lo: real, hi: real, stray: bool)
    requires s.Inner? && Ordered(s, lo, hi, stray) && q < |s.kids| && Ordered(c, Lo(s.keys, lo, q), Hi(s.keys, hi, q), stray)
    ensures Ordered(Replaced(s, q, c), lo, hi, stray)
  {
    var r := Replaced(s, q, c);
    forall i | 0 <= i < |r.kids| ensures Ordered(r.kids[i], Lo(r.keys, lo, i), Hi(r.keys, hi, i), stray) {
      assert Ordered(s.kids[i], Lo(s.keys, lo, i), Hi(s.keys, hi, i), stray);
    }
  }

  lemma LeafInsertOrdered(t: Tree, k: Bytes, v: Bytes, lo: real, hi: real, stray: bool)
    requires Shape(t, 0) && t.Leaf? && !Full(t) && Ordered(t, lo, hi, stray) && InRange(Rank(k), lo, hi, stray)
    ensures Ordered(LeafInsert(t, k, v), lo, hi, stray)
  {
    LeafInsertSorted(t, k, v);
    InsertWithin(t.keys, Route(t.keys, k), k, lo, hi, stray);
  }

  /** A put that is not misrouted keeps the order of the tree; a misrouted one leaves at most a stray key. */
  lemma {:induction false} InsertOrdered(t: Tree, k: Bytes, v: Bytes, d: nat, fresh_: nat, lo: real, hi: real, stray: bool)
    requires Shape(t, d) && !Full(t) && Ordered(t, lo, hi, stray)
    requires InRange(Rank(k), lo, hi, stray) && (stray || !Misroutes(t, k, d))
    ensures Ordered(InsertNonfull(t, k, v, d, fresh_).0, lo, hi, stray)
    decreases d
  {
    if t.Leaf? {
      LeafInsertOrdered(t, k, v, lo, hi, stray);
    } else {
      var s, q := Prepared(t, k, d, fresh_), Target(t, k, d, fresh_);
      TargetKid(t, k, d, fresh_, lo, hi, stray);
      InsertOrdered(s.kids[q], k, v, d - 1, NextFresh(t, k, d, fresh_), Lo(s.keys, lo, q), Hi(s.keys, hi, q), stray);
      InsertOrderedInner(t, k, v, d, fresh_, lo, hi, stray);
    }
  }

  lemma TargetKid(t: Tree, k: Bytes, d: nat, fresh_: nat, lo: real, hi: real, stray: bool)
    requires Shape(t, d) && !Full(t) && t.Inner? && Ordered(t, lo, hi, stray)
    requires InRange(Rank(k), lo, hi, stray) && (stray || !Misroutes(t, k, d))
    ensures var s, q := Prepared(t, k, d, fresh_), Target(t, k, d, fresh_);
            Ordered(s.kids[q], Lo(s.keys, lo, q), Hi(s.keys, hi, q), stray) &&
            InRange(Rank(k), Lo(s.keys, lo, q), Hi(s.keys, hi, q), stray) && (stray || !Misroutes(s.kids[q], k, d - 1))
  {
    TargetIsRoute(t, k, d, fresh_, lo, hi, stray);
    var i := Route(t.keys, k);
    if Full(t.kids[i]) && k == t.kids[i].keys[HALF_KEYS] {
      TargetAfterSplit(t, k, d, fresh_, lo, hi, stray, i, t.kids[i], Prepared(t, k, d, fresh_));
      assert Prepared(t, k, d, fresh_).keys[i] == k;
    }
  }

  lemma InsertOrderedInner(t: Tree, k: Bytes, v: Bytes, d: nat, fresh_: nat, lo: real, hi: real, stray: bool)
    requires Shape(t, d) && !Full(t) && t.Inner? && Ordered(t, lo, hi, stray)
    requires var s, q := Prepared(t, k, d, fresh_), Target(t, k, d, fresh_);
             Ordered(InsertNonfull(s.kids[q], k, v, d - 1, NextFresh(t, k, d, fresh_)).0, Lo(s.keys, lo, q), Hi(s.keys, hi, q), stray)
    ensures Ordered(InsertNonfull(t, k, v, d, fresh_).0, lo, hi, stray)
  {
    var s, q := Prepared(t, k, d, fresh_), Target(t, k, d, fresh_);
    PreparedSame(t, k, d, fresh_, lo, hi, stray, k);
    InsertIsReplaced(t, k, v, d, fresh_);
    ReplacedOrdered(s, q, InsertNonfull(s.kids[q], k, v, d - 1, NextFresh(t, k, d, fresh_)).0, lo, hi, stray);
  }

  // ---------- Deletion ----------

  /** node_delete (src/storage/btree.c:263-292): removes the key from its leaf, separators stay. */
  function Remove(t: Tree, k: Bytes, d: nat): (r: Tree)
    requires Shape(t, d)
    ensures Shape(r, d) && r.id == t.id
    decreases d
  {
    var i := Route(t.keys, k);
    match t
    case Leaf(id, keys, vals) =>
      if i > 0 && keys[i - 1] == k then Leaf(id, RemoveAt(keys, i - 1), RemoveAt(vals, i - 1)) else t
    case Inner(_, _, kids) => Replaced(t, i, Remove(kids[i], k, d - 1))
  }

  lemma RemoveSorted(keys: seq<Bytes>, x: nat)
    requires Sorted(keys) && x < |keys|
    ensures Sorted(RemoveAt(keys, x)) && forall j :: j in RemoveAt(keys, x) <==> j in keys && j != keys[x]
  {
    var r := RemoveAt(keys, x);
    assert forall p :: 0 <= p < |r| ==> r[p] == keys[if p < x then p else p + 1];
    forall j | j in keys && j != keys[x] ensures j in r {
      var p :| 0 <= p < |keys| && keys[p] == j;
      assert r[if p < x then p else p - 1] == j;
    }
  }

  lemma LeafRemoveGone(t: Tree, r: Tree, x: nat)
    requires Shape(t, 0) && t.Leaf? && Sorted(t.keys) && x < |t.keys|
    requires r == Leaf(t.id, RemoveAt(t.keys, x), RemoveAt(t.vals, x))
    ensures Sorted(r.keys) && Shape(r, 0) && Search(r, t.keys[x], 0) == None
  {
    RemoveSorted(t.keys, x);
    LeafSearch(r, t.keys[x], 0);
  }

  lemma LeafRemoveSearch(t: Tree, k: Bytes, j: Bytes)
    requires Shape(t, 0) && t.Leaf? && Sorted(t.keys)
    ensures Sorted(Remove(t, k, 0).keys)
    ensures Search(Remove(t, k, 0), j, 0) == if j == k then None else Search(t, j, 0)
  {
    var i, r := Route(t.keys, k), Remove(t, k, 0);
    if i > 0 && t.keys[i - 1] == k {
      if j == k {
        LeafRemoveGone(t, r, i - 1);
      } else {
        LeafRemoveOther(t, r, i - 1, j);
      }
    }
  }

  lemma LeafRemoveOther(t: Tree, r: Tree, x: nat, j: Bytes)
    requires Shape(t, 0) && t.Leaf? && Sorted(t.keys) && x < |t.keys| && t.keys[x] != j
    requires r == Leaf(t.id, RemoveAt(t.keys, x), RemoveAt(t.vals, x))
    ensures Sorted(r.keys) && Shape(r, 0) && Search(r, j, 0) == Search(t, j, 0)
  {
    RemoveSorted(t.keys, x);
    if j in t.keys {
      var p :| 0 <= p < |t.keys| && t.keys[p] == j;
      var q := if p < x then p else p - 1;
      assert r.keys[q] == j && r.vals[q] == t.vals[p];
      LeafSearch(t, j, p);
      LeafSearch(r, j, q);
    } else {
      LeafSearch(t, j, 0);
      LeafSearch(r, j, 0);
    }
  }

  /** Deleting removes exactly one key from what lookups see. */
  lemma {:induction false} RemoveSearch(t: Tree, k: Bytes, d: nat, lo: real, hi: real, stray: bool, j: Bytes)
    requires Shape(t, d) && Ordered(t, lo, hi, stray)
    ensures Search(Remove(t, k, d), j, d) == if j == k then None else Search(t, j, d)
    decreases d
  {
    if t.Leaf? {
      LeafRemoveSearch(t, k, j);
    } else {
      var i := Route(t.keys, k);
      RemoveSearch(t.kids[i], k, d - 1, Lo(t.keys, lo, i), Hi(t.keys, hi, i), stray, j);
      ReplacedSearch(t, i, Remove(t.kids[i], k, d - 1), d, j);
    }
  }

  lemma {:induction false} RemoveOrdered(t: Tree, k: Bytes, d: nat, lo: real, hi: real, stray: bool)
    requires Shape(t, d) && Ordered(t, lo, hi, stray)
    ensures Ordered(Remove(t, k, d), lo, hi, stray)
    decreases d
  {
    if t.Leaf? {
      LeafRemoveSearch(t, k, k);
    } else {
      var i := Route(t.keys, k);
      RemoveOrdered(t.kids[i], k, d - 1, Lo(t.keys, lo, i), Hi(t.keys, hi, i), stray);
      ReplacedOrdered(t, i, Remove(t.kids[i], k, d - 1), lo, hi, stray);
    }
  }
}
