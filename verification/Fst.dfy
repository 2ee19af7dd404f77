/** The trie and its prefix and fuzzy searches (src/util/fst.c).

    A node pointer is an index into `nodes`. Children are created after their parents, so a child
    always has a larger index. The ghost field `paths` gives the key that leads to each node. */
module Fst {
  import opened Keys
  import opened EditDistance

  const MAX_KEY_LEN := 256

  datatype Node = Node(children: map<Byte, nat>, value: Option<nat>)
  type Trie = seq<Node>

  // ---------- Shape ----------

  ghost predicate TrieOk(nodes: Trie, paths: seq<Bytes>) {
    && |nodes| == |paths| && |nodes| > 0 && paths[0] == []
    && (forall i, c :: 0 <= i < |nodes| && c in nodes[i].children ==> ChildOk(nodes, paths, i, c))
    && (forall i, j :: 0 <= i < j < |paths| ==> paths[i] != paths[j])
  }

  ghost predicate ChildOk(nodes: Trie, paths: seq<Bytes>, i: nat, c: Byte)
    requires |nodes| == |paths| && i < |nodes| && c in nodes[i].children
  {
    var j := nodes[i].children[c];
    i < j < |nodes| && paths[j] == paths[i] + [c]
  }

  /** The node a key leads to. */
  ghost function Walk(nodes: Trie, i: nat, key: Bytes): Option<nat>
    decreases |key|
  {
    if i >= |nodes| then None
    else if key == [] then Some(i)
    else if key[0] in nodes[i].children then Walk(nodes, nodes[i].children[key[0]], key[1..])
    else None
  }

  /** The stored value of a key: the trie as a map. */
  ghost function Lookup(nodes: Trie, key: Bytes): Option<nat> {
    match Walk(nodes, 0, key)
    case Some(j) => if j < |nodes| then nodes[j].value else None
    case None => None
  }

  lemma {:induction false} WalkPath(nodes: Trie, paths: seq<Bytes>, i: nat, key: Bytes)
    requires TrieOk(nodes, paths) && i < |nodes|
    ensures var r := Walk(nodes, i, key); r.Some? ==> r.value < |nodes| && paths[r.value] == paths[i] + key
    decreases |key|
  {
    if key == [] {
      assert paths[i] + key == paths[i];
    } else if key[0] in nodes[i].children {
      assert ChildOk(nodes, paths, i, key[0]);
      WalkPath(nodes, paths, nodes[i].children[key[0]], key[1..]);
      assert paths[i] + [key[0]] + key[1..] == paths[i] + key;
    }
  }

  lemma {:induction false} WalkAppend(nodes: Trie, i: nat, a: Bytes, b: Bytes)
    ensures Walk(nodes, i, a + b) == match Walk(nodes, i, a) case Some(j) => Walk(nodes, j, b) case None => None
    decreases |a|
  {
    if a == [] {
      assert a + b == b;
    } else if i < |nodes| && a[0] in nodes[i].children {
      assert (a + b)[0] == a[0] && (a + b)[1..] == a[1..] + b;
      WalkAppend(nodes, nodes[i].children[a[0]], a[1..], b);
    } else if i < |nodes| {
      assert (a + b)[0] == a[0];
    }
  }

  // ---------- The preorder listing of a subtree ----------

  /** Nodes of the subtree of i that hold a value and whose key is wanted, in the order a depth-first
      walk over the bytes 0..255 meets them. */
  ghost function Hits(nodes: Trie, paths: seq<Bytes>, i: nat, want: Bytes -> bool): seq<nat>
    requires TrieOk(nodes, paths) && i < |nodes|
    decreases |nodes| - i, 257
  {
    (if nodes[i].value != None && want(paths[i]) then [i] else []) + HitsFrom(nodes, paths, i, want, 0)
  }

  ghost function HitsFrom(nodes: Trie, paths: seq<Bytes>, i: nat, want: Bytes -> bool, c: nat): seq<nat>
    requires TrieOk(nodes, paths) && i < |nodes| && c <= 256
    decreases |nodes| - i, 256 - c
  {
    if c == 256 then []
    else HitsAt(nodes, paths, i, want, c) + HitsFrom(nodes, paths, i, want, c + 1)
  }

  ghost function HitsAt(nodes: Trie, paths: seq<Bytes>, i: nat, want: Bytes -> bool, c: Byte): seq<nat>
    requires TrieOk(nodes, paths) && i < |nodes|
    decreases |nodes| - i, 0
  {
    if c in nodes[i].children then
      assert ChildOk(nodes, paths, i, c);
      Hits(nodes, paths, nodes[i].children[c], want)
    else []
  }

  // ---------- What the listing contains ----------

  ghost predicate StartsWith(s: Bytes, p: Bytes) {
    |p| <= |s| && s[..|p|] == p
  }

  /** A wanted stored node below i. */
  ghost predicate Hit(nodes: Trie, paths: seq<Bytes>, i: nat, want: Bytes -> bool, h: nat)
    requires |nodes| == |paths| && i < |nodes|
  {
    h < |nodes| && nodes[h].value != None && want(paths[h]) && StartsWith(paths[h], paths[i])
  }

  /** A wanted stored node below a child of i whose byte is at least c. */
  ghost predicate HitBeyond(nodes: Trie, paths: seq<Bytes>, i: nat, want: Bytes -> bool, c: nat, h: nat)
    requires |nodes| == |paths| && i < |nodes|
  {
    Hit(nodes, paths, i, want, h) && |paths[h]| > |paths[i]| && paths[h][|paths[i]|] >= c
  }

  lemma {:induction false} HitsSound(nodes: Trie, paths: seq<Bytes>, i: nat, want: Bytes -> bool, h: nat)
    requires TrieOk(nodes, paths) && i < |nodes| && h in Hits(nodes, paths, i, want)
    ensures Hit(nodes, paths, i, want, h)
    decreases |nodes| - i, 257
  {
    if h in HitsFrom(nodes, paths, i, want, 0) {
      HitsFromSound(nodes, paths, i, want, 0, h);
    }
  }

  lemma {:induction false} HitsFromSound(nodes: Trie, paths: seq<Bytes>, i: nat, want: Bytes -> bool, c: nat, h: nat)
    requires TrieOk(nodes, paths) && i < |nodes| && c <= 256 && h in HitsFrom(nodes, paths, i, want, c)
    ensures HitBeyond(nodes, paths, i, want, c, h)
    decreases |nodes| - i, 256 - c
  {
    if h in HitsAt(nodes, paths, i, want, c) {
      HitsAtSound(nodes, paths, i, want, c, h);
    } else {
      HitsFromSound(nodes, paths, i, want, c + 1, h);
    }
  }

  lemma {:induction false} HitsAtSound(nodes: Trie, paths: seq<Bytes>, i: nat, want: Bytes -> bool, c: Byte, h: nat)
    requires TrieOk(nodes, paths) && i < |nodes| && h in HitsAt(nodes, paths, i, want, c)
    ensures HitBeyond(nodes, paths, i, want, c, h) && paths[h][|paths[i]|] == c
    decreases |nodes| - i, 0
  {
    assert ChildOk(nodes, paths, i, c);
    var j := nodes[i].children[c];
    HitsSound(nodes, paths, j, want, h);
    var p, s := paths[j], paths[h];
    assert s[|paths[i]|] == s[..|p|][|paths[i]|];
    assert s[..|paths[i]|] == s[..|p|][..|paths[i]|] == p[..|paths[i]|];
  }

  /** Every wanted stored key below i is listed. */
  lemma {:induction false} HitsComplete(nodes: Trie, paths: seq<Bytes>, i: nat, want: Bytes -> bool, x: Bytes, j: nat)
    requires TrieOk(nodes, paths) && i < |nodes| && Walk(nodes, i, x) == Some(j) && j < |nodes|
    requires nodes[j].value != None && want(paths[j])
    ensures j in Hits(nodes, paths, i, want)
    decreases |x|
  {
    if x != [] {
      assert ChildOk(nodes, paths, i, x[0]);
      HitsComplete(nodes, paths, nodes[i].children[x[0]], want, x[1..], j);
      HitsFromHas(nodes, paths, i, want, 0, x[0], j);
    }
  }

  lemma {:induction false} HitsFromHas(nodes: Trie, paths: seq<Bytes>, i: nat, want: Bytes -> bool, c: nat, d: Byte, j: nat)
    requires TrieOk(nodes, paths) && i < |nodes| && c <= d && j in HitsAt(nodes, paths, i, want, d)
    ensures j in HitsFrom(nodes, paths, i, want, c)
    decreases 256 - c
  {
    if c < d {
      HitsFromHas(nodes, paths, i, want, c + 1, d, j);
    }
  }

  // ---------- Its order ----------

  ghost predicate SortedHits(paths: seq<Bytes>, hs: seq<nat>) {
    && (forall a :: 0 <= a < |hs| ==> hs[a] < |paths|)
    && (forall a, b :: 0 <= a < b < |hs| ==> Rank(paths[hs[a]]) < Rank(paths[hs[b]]))
  }

  lemma SortedConcat(paths: seq<Bytes>, xs: seq<nat>, ys: seq<nat>)
    requires SortedHits(paths, xs) && SortedHits(paths, ys)
    requires forall a, b :: 0 <= a < |xs| && 0 <= b < |ys| ==> Rank(paths[xs[a]]) < Rank(paths[ys[b]])
    ensures SortedHits(paths, xs + ys)
  {
  }

  lemma BytesDiverge(p: Bytes, s: Bytes, t: Bytes)
    requires StartsWith(s, p) && StartsWith(t, p) && |p| < |t|
    requires |s| == |p| || s[|p|] < t[|p|]
    ensures Rank(s) < Rank(t)
  {
    KeyOrderIsLexicographic(s, t, |p|);
  }

  lemma {:induction false} HitsSorted(nodes: Trie, paths: seq<Bytes>, i: nat, want: Bytes -> bool)
    requires TrieOk(nodes, paths) && i < |nodes|
    ensures SortedHits(paths, Hits(nodes, paths, i, want))
    decreases |nodes| - i, 257
  {
    var own := if nodes[i].value != None && want(paths[i]) then [i] else [];
    var below := HitsFrom(nodes, paths, i, want, 0);
    HitsFromSorted(nodes, paths, i, want, 0);
    forall a, b | 0 <= a < |own| && 0 <= b < |below| ensures Rank(paths[own[a]]) < Rank(paths[below[b]]) {
      HitsFromSound(nodes, paths, i, want, 0, below[b]);
      BytesDiverge(paths[i], paths[i], paths[below[b]]);
    }
    SortedConcat(paths, own, below);
  }

  lemma HitsApart(nodes: Trie, paths: seq<Bytes>, i: nat, want: Bytes -> bool, c: Byte, x: nat, y: nat)
    requires TrieOk(nodes, paths) && i < |nodes| && x in HitsAt(nodes, paths, i, want, c) && y in HitsFrom(nodes, paths, i, want, c + 1)
    ensures x < |paths| && y < |paths| && Rank(paths[x]) < Rank(paths[y])
  {
    HitsAtSound(nodes, paths, i, want, c, x);
    HitsFromSound(nodes, paths, i, want, c + 1, y);
    BytesDiverge(paths[i], paths[x], paths[y]);
  }

  lemma {:induction false} HitsFromSorted(nodes: Trie, paths: seq<Bytes>, i: nat, want: Bytes -> bool, c: nat)
    requires TrieOk(nodes, paths) && i < |nodes| && c <= 256
    ensures SortedHits(paths, HitsFrom(nodes, paths, i, want, c))
    decreases |nodes| - i, 256 - c
  {
    if c < 256 {
      var here, later := HitsAt(nodes, paths, i, want, c), HitsFrom(nodes, paths, i, want, c + 1);
      if c in nodes[i].children {
        assert ChildOk(nodes, paths, i, c);
        HitsSorted(nodes, paths, nodes[i].children[c], want);
      }
      HitsFromSorted(nodes, paths, i, want, c + 1);
      forall a, b | 0 <= a < |here| && 0 <= b < |later| ensures Rank(paths[here[a]]) < Rank(paths[later[b]]) {
        HitsApart(nodes, paths, i, want, c, here[a], later[b]);
      }
      SortedConcat(paths, here, later);
    }
  }

  // ---------- Pruning ----------

  /** The keys within the edit limit of the query. */
  ghost function Near(query: Bytes, maxEdits: nat): Bytes -> bool {
    p => Lev(p, query) <= maxEdits
  }

  /** A subtree whose row minimum exceeds the limit holds no match at all. */
  lemma PrunedIsEmpty(nodes: Trie, paths: seq<Bytes>, i: nat, query: Bytes, maxEdits: nat, row: seq<nat>)
    requires TrieOk(nodes, paths) && i < |nodes| && IsRow(row, paths[i], query)
    requires forall j :: 0 <= j < |row| ==> row[j] > maxEdits
    ensures Hits(nodes, paths, i, Near(query, maxEdits)) == []
  {
    var hs := Hits(nodes, paths, i, Near(query, maxEdits));
    if hs != [] {
      var h := hs[0];
      HitsSound(nodes, paths, i, Near(query, maxEdits), h);
      var x := paths[h][|paths[i]|..];
      assert paths[h] == paths[i] + x;
      var j := RowMinimumBounds(paths[i], x, query);
      assert false;
    }
  }

  // ---------- The trie as a map ----------

  /** Every node is reached by its own key. */
  ghost predicate Reachable(nodes: Trie, paths: seq<Bytes>) {
    forall j :: 0 <= j < |paths| ==> Walk(nodes, 0, paths[j]) == Some(j)
  }

  lemma LookupAt(nodes: Trie, paths: seq<Bytes>, j: nat)
    requires TrieOk(nodes, paths) && Reachable(nodes, paths) && j < |nodes|
    ensures Lookup(nodes, paths[j]) == nodes[j].value
  {
  }

  lemma LookupMissing(nodes: Trie, paths: seq<Bytes>, key: Bytes)
    requires TrieOk(nodes, paths) && forall j :: 0 <= j < |paths| ==> paths[j] != key
    ensures Lookup(nodes, key) == None && Walk(nodes, 0, key) == None
  {
    WalkPath(nodes, paths, 0, key);
  }

  function Linked(nodes: Trie, n: nat, c: Byte): Trie
    requires n < |nodes|
  {
    nodes[n := nodes[n].(children := nodes[n].children[c := |nodes|])] + [Node(map[], None)]
  }

  lemma {:induction false} WalkLinked(nodes: Trie, n: nat, c: Byte, i: nat, key: Bytes)
    requires n < |nodes| && c !in nodes[n].children && Walk(nodes, i, key).Some?
    ensures Walk(Linked(nodes, n, c), i, key) == Walk(nodes, i, key)
    decreases |key|
  {
    if key != [] {
      WalkLinked(nodes, n, c, nodes[i].children[key[0]], key[1..]);
    }
  }

  lemma NewPath(nodes: Trie, paths: seq<Bytes>, n: nat, c: Byte, j: nat)
    requires TrieOk(nodes, paths) && Reachable(nodes, paths) && n < |nodes| && c !in nodes[n].children && j < |paths|
    ensures paths[j] != paths[n] + [c]
  {
    WalkAppend(nodes, 0, paths[n], [c]);
    assert Walk(nodes, 0, paths[n] + [c]) == None;
    assert Walk(nodes, 0, paths[j]) == Some(j);
  }

  lemma LinkedShape(nodes: Trie, paths: seq<Bytes>, n: nat, c: Byte)
    requires TrieOk(nodes, paths) && Reachable(nodes, paths) && n < |nodes| && c !in nodes[n].children
    ensures TrieOk(Linked(nodes, n, c), paths + [paths[n] + [c]])
  {
    var nodes', paths' := Linked(nodes, n, c), paths + [paths[n] + [c]];
    forall i, d | 0 <= i < |nodes'| && d in nodes'[i].children ensures ChildOk(nodes', paths', i, d) {
      if i < |nodes| && d in nodes[i].children {
        assert ChildOk(nodes, paths, i, d);
      }
    }
    forall i, j | 0 <= i < j < |paths'| ensures paths'[i] != paths'[j] {
      NewPath(nodes, paths, n, c, i);
    }
  }

  lemma LinkedReach(nodes: Trie, paths: seq<Bytes>, n: nat, c: Byte)
    requires Reachable(nodes, paths) && |nodes| == |paths| && n < |nodes| && c !in nodes[n].children
    ensures Reachable(Linked(nodes, n, c), paths + [paths[n] + [c]])
  {
    var nodes' := Linked(nodes, n, c);
    forall j | 0 <= j < |paths| ensures Walk(nodes', 0, paths[j]) == Some(j) {
      WalkLinked(nodes, n, c, 0, paths[j]);
    }
    WalkAppend(nodes', 0, paths[n], [c]);
    assert [c][1..] == [] && Walk(nodes', n, [c]) == Some(|nodes|);
  }

  /** Creating a child keeps the trie well formed. */
  lemma LinkedOk(nodes: Trie, paths: seq<Bytes>, n: nat, c: Byte)
    requires TrieOk(nodes, paths) && Reachable(nodes, paths) && n < |nodes| && c !in nodes[n].children
    ensures TrieOk(Linked(nodes, n, c), paths + [paths[n] + [c]]) && Reachable(Linked(nodes, n, c), paths + [paths[n] + [c]])
  {
    LinkedShape(nodes, paths, n, c);
    LinkedReach(nodes, paths, n, c);
  }

  lemma LinkedLookup(nodes: Trie, paths: seq<Bytes>, n: nat, c: Byte, key: Bytes)
    requires TrieOk(nodes, paths) && Reachable(nodes, paths) && n < |nodes| && c !in nodes[n].children
    ensures Lookup(Linked(nodes, n, c), key) == Lookup(nodes, key)
  {
    var nodes', paths' := Linked(nodes, n, c), paths + [paths[n] + [c]];
    LinkedOk(nodes, paths, n, c);
    if j :| 0 <= j < |paths'| && paths'[j] == key {
      LookupAt(nodes', paths', j);
      if j < |nodes| {
        LookupAt(nodes, paths, j);
      } else {
        LookupMissing(nodes, paths, key);
      }
    } else {
      forall j | 0 <= j < |paths| ensures paths[j] != key { assert paths'[j] == paths[j]; }
      LookupMissing(nodes, paths, key);
      LookupMissing(nodes', paths', key);
    }
  }

  function Valued(nodes: Trie, n: nat, v: nat): Trie
    requires n < |nodes|
  {
    nodes[n := nodes[n].(value := Some(v))]
  }

  lemma {:induction false} WalkValued(nodes: Trie, n: nat, v: nat, i: nat, key: Bytes)
    requires n < |nodes|
    ensures Walk(Valued(nodes, n, v), i, key) == Walk(nodes, i, key)
    decreases |key|
  {
    if i < |nodes| && key != [] && key[0] in nodes[i].children {
      WalkValued(nodes, n, v, nodes[i].children[key[0]], key[1..]);
    }
  }

  lemma ValuedOk(nodes: Trie, paths: seq<Bytes>, n: nat, v: nat)
    requires TrieOk(nodes, paths) && Reachable(nodes, paths) && n < |nodes|
    ensures TrieOk(Valued(nodes, n, v), paths) && Reachable(Valued(nodes, n, v), paths)
  {
    var nodes' := Valued(nodes, n, v);
    forall i, d | 0 <= i < |nodes'| && d in nodes'[i].children ensures ChildOk(nodes', paths, i, d) {
      assert ChildOk(nodes, paths, i, d);
    }
    forall j | 0 <= j < |paths| ensures Walk(nodes', 0, paths[j]) == Some(j) {
      WalkValued(nodes, n, v, 0, paths[j]);
    }
  }

  lemma ValuedLookup(nodes: Trie, paths: seq<Bytes>, n: nat, v: nat, key: Bytes)
    requires TrieOk(nodes, paths) && Reachable(nodes, paths) && n < |nodes|
    ensures Lookup(Valued(nodes, n, v), key) == if key == paths[n] then Some(v) else Lookup(nodes, key)
  {
    WalkValued(nodes, n, v, 0, key);
    WalkPath(nodes, paths, 0, key);
  }

  // ---------- Truncated result lists ----------

  function Take<T>(s: seq<T>, n: nat): seq<T> {
    if |s| <= n then s else s[..n]
  }

  lemma TakeTake<T>(a: seq<T>, b: seq<T>, n: nat)
    ensures Take(Take(a, n) + b, n) == Take(a + b, n)
  {
    if |a| > n {
      assert (a + b)[..n] == a[..n];
      assert (a[..n] + b)[..n] == a[..n];
    }
  }

  lemma TakeAppend<T>(r: seq<T>, a: seq<T>, b: seq<T>, n: nat)
    ensures Take(Take(r + a, n) + b, n) == Take(r + (a + b), n)
  {
    TakeTake(r + a, b, n);
    assert r + a + b == r + (a + b);
  }

  lemma TakeFull<T>(s: seq<T>, b: seq<T>, n: nat)
    requires |s| == n
    ensures Take(s + b, n) == s
  {
  }

  function ValueAt(nodes: Trie, h: nat): nat {
    if h < |nodes| && nodes[h].value != None then nodes[h].value.value else 0
  }

  ghost function Values(nodes: Trie, hs: seq<nat>): (vs: seq<nat>)
    ensures |vs| == |hs| && forall a :: 0 <= a < |hs| ==> vs[a] == ValueAt(nodes, hs[a])
  {
    seq<nat>(|hs|, a requires 0 <= a < |hs| => ValueAt(nodes, hs[a]))
  }

  lemma ValuesAppend(nodes: Trie, a: seq<nat>, b: seq<nat>)
    ensures Values(nodes, a + b) == Values(nodes, a) + Values(nodes, b)
  {
  }

  // ---------- The trie object ----------

  /** One step of that walk: the child for the byte, created if it is missing. No lookup changes. */
  method ChildFor(nodes: Trie, n: nat, c: Byte, ghost paths: seq<Bytes>) returns (now: Trie, m: nat, ghost ps: seq<Bytes>)
    requires TrieOk(nodes, paths) && Reachable(nodes, paths) && n < |nodes|
    ensures TrieOk(now, ps) && Reachable(now, ps) && m < |now| && ps[m] == paths[n] + [c]
    ensures SameLookups(nodes, now)
  {
    now, ps := nodes, paths;
    if c !in nodes[n].children {
      LinkedOk(nodes, paths, n, c);
      forall k ensures Lookup(Linked(nodes, n, c), k) == Lookup(nodes, k) {
        LinkedLookup(nodes, paths, n, c, k);
      }
      now, ps := Linked(nodes, n, c), paths + [paths[n] + [c]];
    }
    assert ChildOk(now, ps, n, c);
    m := now[n].children[c];
  }

  ghost predicate SameLookups(a: Trie, b: Trie) {
    forall k :: Lookup(b, k) == Lookup(a, k)
  }

  lemma SameTrans(a: Trie, b: Trie, c: Trie)
    requires SameLookups(a, b) && SameLookups(b, c)
    ensures SameLookups(a, c)
  {
    forall k ensures Lookup(c, k) == Lookup(a, k) { assert Lookup(c, k) == Lookup(b, k); }
  }

  lemma OneMoreByte(key: Bytes, i: nat)
    requires i < |key|
    ensures key[..i + 1] == key[..i] + [key[i]]
  {
  }

  /** The walk of fst_insert on the trie, creating missing nodes (src/util/fst.c:57-66). */
  method DescendPath(nodes: Trie, key: Bytes, ghost paths: seq<Bytes>) returns (now: Trie, n: nat, ghost ps: seq<Bytes>)
    requires TrieOk(nodes, paths) && Reachable(nodes, paths)
    ensures TrieOk(now, ps) && Reachable(now, ps) && n < |now| && ps[n] == key && SameLookups(nodes, now)
  {
    now, n, ps := nodes, 0, paths;
    for i := 0 to |key|
      invariant TrieOk(now, ps) && Reachable(now, ps) && n < |now| && ps[n] == key[..i]
      invariant SameLookups(nodes, now)
    {
      ghost var was := now;
      now, n, ps := ChildFor(now, n, key[i], ps);
      SameTrans(nodes, was, now);
      OneMoreByte(key, i);
    }
    assert key[..|key|] == key;
  }

  class FstIndex {
    var nodes: Trie
    var size: nat
    ghost var paths: seq<Bytes>

    ghost predicate Valid()
      reads this
    {
      TrieOk(nodes, paths) && Reachable(nodes, paths)
    }

    constructor ()
      ensures Valid() && size == 0 && forall k :: Lookup(nodes, k) == None
    {
      nodes := [Node(map[], None)];
      size := 0;
      paths := [[]];
    }

    /** fst_insert: keys longer than 256 bytes are refused, otherwise the key maps to the value and every
        other key keeps its own; `size` counts the keys. */
    method Insert(key: Bytes, value: nat) returns (ok: bool)
      requires Valid()
      modifies this
      ensures Valid() && (ok <==> |key| <= 256)
      ensures forall k :: Lookup(nodes, k) == if ok && k == key then Some(value) else old(Lookup(nodes, k))
      ensures size == old(size) + if ok && old(Lookup(nodes, key)) == None then 1 else 0
    {
      if |key| > MAX_KEY_LEN { return false; }
      var n := Descend(key);
      LookupAt(nodes, paths, n);
      if nodes[n].value == None { size := size + 1; }
      ValuedOk(nodes, paths, n, value);
      forall k ensures Lookup(Valued(nodes, n, value), k) == if k == key then Some(value) else Lookup(nodes, k) {
        ValuedLookup(nodes, paths, n, value, k);
      }
      nodes := Valued(nodes, n, value);
      return true;
    }

    /** The walk of fst_insert, creating missing nodes (src/util/fst.c:57-66). */
    method Descend(key: Bytes) returns (n: nat)
      requires Valid()
      modifies this`nodes, this`paths
      ensures Valid() && n < |nodes| && paths[n] == key
      ensures forall k :: Lookup(nodes, k) == old(Lookup(nodes, k))
    {
      var now, m, ps := DescendPath(nodes, key, paths);
      nodes, paths, n := now, ps, m;
    }

    /** The walk of fst_get and fst_prefix_search (src/util/fst.c:77-83, 105-111). */
    method Find(key: Bytes) returns (r: Option<nat>)
      requires Valid()
      ensures r == Walk(nodes, 0, key)
      ensures r.Some? ==> r.value < |nodes| && paths[r.value] == key
    {
      var n: nat := 0;
      WalkPath(nodes, paths, 0, key);
      for i := 0 to |key|
        invariant n < |nodes| && Walk(nodes, 0, key) == Walk(nodes, n, key[i..])
      {
        assert key[i..][0] == key[i] && key[i..][1..] == key[i + 1..];
        if key[i] !in nodes[n].children { return None; }
        assert ChildOk(nodes, paths, n, key[i]);
        n := nodes[n].children[key[i]];
      }
      r := Some(n);
    }

    /** fst_get */
    method Get(key: Bytes) returns (r: Option<nat>)
      requires Valid()
      ensures r == Lookup(nodes, key)
    {
      var n := Find(key);
      if n == None { return None; }
      r := nodes[n.value].value;
    }

    /** dfs_collect: appends the values of the subtree in order, up to the limit. */
    method Collect(i: nat, results: seq<nat>, maxResults: nat) returns (out: seq<nat>)
      requires Valid() && i < |nodes| && |results| <= maxResults
      ensures out == Take(results + Values(nodes, Hits(nodes, paths, i, All)), maxResults)
      decreases |nodes| - i
    {
      if |results| >= maxResults {
        TakeFull(results, Values(nodes, Hits(nodes, paths, i, All)), maxResults);
        return results;
      }
      out := results;
      if nodes[i].value != None { out := out + [nodes[i].value.value]; }
      ghost var done := StartDfs(nodes, paths, i, All, results, out, maxResults);
      var c: int := 0;
      while c < 256 && |out| < maxResults
        invariant 0 <= c <= 256 && |out| <= maxResults && Progress(nodes, paths, i, All, c, done, results, out, maxResults)
        decreases 256 - c
      {
        ghost var out0 := out;
        if c in nodes[i].children {
          assert ChildOk(nodes, paths, i, c);
          out := Collect(nodes[i].children[c], out, maxResults);
        }
        done := Advance(nodes, paths, i, All, c, done, results, out0, out, maxResults);
        c := c + 1;
      }
      FinishDfs(nodes, paths, i, All, c, done, results, out, maxResults);
    }

    /** fst_prefix_search: the values of the stored keys with the prefix, in byte order of key, up to the limit. */
    method PrefixSearch(prefix: Bytes, maxResults: int) returns (out: seq<nat>, ghost hs: seq<nat>)
      requires Valid()
      ensures maxResults <= 0 ==> out == []
      ensures maxResults > 0 ==> out == Take(Values(nodes, hs), maxResults) && ListsKeys(nodes, paths, hs, p => StartsWith(p, prefix))
    {
      hs := [];
      if maxResults <= 0 { return [], []; }
      var n := Find(prefix);
      if n == None {
        NoKeyBelow(nodes, paths, prefix);
        return [], [];
      }
      hs := Hits(nodes, paths, n.value, All);
      out := Collect(n.value, [], maxResults);
      assert [] + Values(nodes, hs) == Values(nodes, hs);
      PrefixHits(nodes, paths, n.value, prefix);
    }

    /** fuzzy_dfs: as Collect, but only keys within the edit limit, skipping subtrees by the row minimum. */
    method FuzzyDfs(i: nat, query: Bytes, maxEdits: nat, row: seq<nat>, results: seq<nat>, maxResults: nat) returns (out: seq<nat>)
      requires Valid() && i < |nodes| && |results| <= maxResults && IsRow(row, paths[i], query)
      ensures out == Take(results + Values(nodes, Hits(nodes, paths, i, Near(query, maxEdits))), maxResults)
      decreases |nodes| - i
    {
      ghost var want := Near(query, maxEdits);
      if |results| >= maxResults {
        TakeFull(results, Values(nodes, Hits(nodes, paths, i, want)), maxResults);
        return results;
      }
      assert query[..|query|] == query;
      out := results;
      if nodes[i].value != None && row[|query|] <= maxEdits { out := out + [nodes[i].value.value]; }
      ghost var done := StartDfs(nodes, paths, i, want, results, out, maxResults);
      var c: int := 0;
      while c < 256 && |out| < maxResults
        invariant 0 <= c <= 256 && |out| <= maxResults && Progress(nodes, paths, i, want, c, done, results, out, maxResults)
        decreases 256 - c
      {
        ghost var out0 := out;
        out := FuzzyChild(i, c, query, maxEdits, row, out, maxResults);
        done := Advance(nodes, paths, i, want, c, done, results, out0, out, maxResults);
        c := c + 1;
      }
      FinishDfs(nodes, paths, i, want, c, done, results, out, maxResults);
    }

    /** One round of the loop in fuzzy_dfs (src/util/fst.c:128-152). */
    method FuzzyChild(i: nat, c: Byte, query: Bytes, maxEdits: nat, row: seq<nat>, results: seq<nat>, maxResults: nat)
      returns (out: seq<nat>)
      requires Valid() && i < |nodes| && |results| <= maxResults && IsRow(row, paths[i], query)
      ensures out == Take(results + Values(nodes, HitsAt(nodes, paths, i, Near(query, maxEdits), c)), maxResults)
      decreases |nodes| - i, 0
    {
      if c !in nodes[i].children {
        assert results + [] == results;
        return results;
      }
      assert ChildOk(nodes, paths, i, c);
      var j := nodes[i].children[c];
      var next := NextRow(row, c, query, paths[i]);
      var m := RowMin(next);
      if m > maxEdits {
        PrunedIsEmpty(nodes, paths, j, query, maxEdits, next);
        assert results + [] == results;
        return results;
      }
      out := FuzzyDfs(j, query, maxEdits, next, results, maxResults);
    }

    /** fst_fuzzy_search: the values of the first `maxResults` stored keys, in byte order, whose Levenshtein
        distance to the query (cut to 256 bytes) is at most `maxEdits`. */
    method FuzzySearch(key: Bytes, maxEdits: int, maxResults: int) returns (out: seq<nat>, ghost hs: seq<nat>)
      requires Valid()
      ensures maxResults <= 0 || maxEdits < 0 ==> out == []
      ensures maxResults > 0 && maxEdits >= 0 ==>
                && out == Take(Values(nodes, hs), maxResults)
                && ListsKeys(nodes, paths, hs, Near(Take(key, 256), maxEdits))
    {
      hs := [];
      if maxResults <= 0 || maxEdits < 0 { return [], []; }
      var query := if |key| > MAX_KEY_LEN then key[..MAX_KEY_LEN] else key;
      var row := FirstRow(query);
      hs := Hits(nodes, paths, 0, Near(query, maxEdits));
      out := FuzzyDfs(0, query, maxEdits, row, [], maxResults);
      assert [] + Values(nodes, hs) == Values(nodes, hs);
      RootHits(nodes, paths, Near(query, maxEdits));
    }
  }

  ghost function All(p: Bytes): bool {
    true
  }

  /** hs lists, in byte order of key and each once, exactly the stored keys that are wanted. */
  ghost predicate ListsKeys(nodes: Trie, paths: seq<Bytes>, hs: seq<nat>, want: Bytes -> bool) {
    && SortedHits(paths, hs) && |nodes| == |paths|
    && (forall a :: 0 <= a < |hs| ==> want(paths[hs[a]]) && Lookup(nodes, paths[hs[a]]) == Some(ValueAt(nodes, hs[a])))
    && (forall k :: want(k) && Lookup(nodes, k) != None ==> exists a :: 0 <= a < |hs| && paths[hs[a]] == k)
  }

  lemma RootHits(nodes: Trie, paths: seq<Bytes>, want: Bytes -> bool)
    requires TrieOk(nodes, paths) && Reachable(nodes, paths)
    ensures ListsKeys(nodes, paths, Hits(nodes, paths, 0, want), want)
  {
    var hs := Hits(nodes, paths, 0, want);
    HitsSorted(nodes, paths, 0, want);
    forall a | 0 <= a < |hs| ensures want(paths[hs[a]]) && Lookup(nodes, paths[hs[a]]) == Some(ValueAt(nodes, hs[a])) {
      HitsSound(nodes, paths, 0, want, hs[a]);
      LookupAt(nodes, paths, hs[a]);
    }
    forall k | want(k) && Lookup(nodes, k) != None ensures exists a :: 0 <= a < |hs| && paths[hs[a]] == k {
      WalkPath(nodes, paths, 0, k);
      var j := Walk(nodes, 0, k).value;
      assert paths[0] + k == k;
      HitsComplete(nodes, paths, 0, want, k, j);
      var a :| 0 <= a < |hs| && hs[a] == j;
    }
  }

  lemma PrefixHits(nodes: Trie, paths: seq<Bytes>, n: nat, prefix: Bytes)
    requires TrieOk(nodes, paths) && Reachable(nodes, paths) && n < |nodes| && paths[n] == prefix
    ensures ListsKeys(nodes, paths, Hits(nodes, paths, n, All), p => StartsWith(p, prefix))
  {
    var hs := Hits(nodes, paths, n, All);
    HitsSorted(nodes, paths, n, All);
    forall a | 0 <= a < |hs| ensures StartsWith(paths[hs[a]], prefix) && Lookup(nodes, paths[hs[a]]) == Some(ValueAt(nodes, hs[a])) {
      HitsSound(nodes, paths, n, All, hs[a]);
      LookupAt(nodes, paths, hs[a]);
    }
    forall k | StartsWith(k, prefix) && Lookup(nodes, k) != None ensures exists a :: 0 <= a < |hs| && paths[hs[a]] == k {
      WalkPath(nodes, paths, 0, k);
      var j, x := Walk(nodes, 0, k).value, k[|prefix|..];
      assert paths[0] + k == k && k == prefix + x;
      WalkAppend(nodes, 0, prefix, x);
      HitsComplete(nodes, paths, n, All, x, j);
      var a :| 0 <= a < |hs| && hs[a] == j;
    }
  }

  lemma NoKeyBelow(nodes: Trie, paths: seq<Bytes>, prefix: Bytes)
    requires TrieOk(nodes, paths) && Walk(nodes, 0, prefix) == None
    ensures ListsKeys(nodes, paths, [], p => StartsWith(p, prefix))
  {
    forall k | StartsWith(k, prefix) ensures Lookup(nodes, k) == None {
      assert k == prefix + k[|prefix|..];
      WalkAppend(nodes, 0, prefix, k[|prefix|..]);
    }
  }

  /** State of a depth-first loop before byte c: `done` are the hits met so far, and `out` their values behind
      the earlier results, cut at the limit. */
  ghost predicate Progress(nodes: Trie, paths: seq<Bytes>, i: nat, want: Bytes -> bool, c: nat, done: seq<nat>,
                           results: seq<nat>, out: seq<nat>, n: nat)
    requires TrieOk(nodes, paths) && i < |nodes| && c <= 256
  {
    && done + HitsFrom(nodes, paths, i, want, c) == Hits(nodes, paths, i, want)
    && out == Take(results + Values(nodes, done), n)
  }

  lemma StartDfs(nodes: Trie, paths: seq<Bytes>, i: nat, want: Bytes -> bool, results: seq<nat>, out: seq<nat>, n: nat)
    returns (done: seq<nat>)
    requires TrieOk(nodes, paths) && i < |nodes| && |results| < n
    requires out == if nodes[i].value != None && want(paths[i]) then results + [nodes[i].value.value] else results
    ensures Progress(nodes, paths, i, want, 0, done, results, out, n)
  {
    done := if nodes[i].value != None && want(paths[i]) then [i] else [];
    assert out == results + Values(nodes, done);
  }

  lemma Advance(nodes: Trie, paths: seq<Bytes>, i: nat, want: Bytes -> bool, c: nat, done: seq<nat>,
                results: seq<nat>, out: seq<nat>, out': seq<nat>, n: nat) returns (done': seq<nat>)
    requires TrieOk(nodes, paths) && i < |nodes| && c < 256 && Progress(nodes, paths, i, want, c, done, results, out, n)
    requires out' == Take(out + Values(nodes, HitsAt(nodes, paths, i, want, c)), n) || (out' == out && |out| <= n && HitsAt(nodes, paths, i, want, c) == [])
    ensures Progress(nodes, paths, i, want, c + 1, done', results, out', n)
  {
    var here, rest := HitsAt(nodes, paths, i, want, c), HitsFrom(nodes, paths, i, want, c + 1);
    done' := done + here;
    assert done + (here + rest) == done' + rest;
    ExtendTake(nodes, results, done, here, n);
    if here == [] {
      assert out + Values(nodes, here) == out;
    }
  }

  lemma FinishDfs(nodes: Trie, paths: seq<Bytes>, i: nat, want: Bytes -> bool, c: nat, done: seq<nat>,
                  results: seq<nat>, out: seq<nat>, n: nat)
    requires TrieOk(nodes, paths) && i < |nodes| && c <= 256 && Progress(nodes, paths, i, want, c, done, results, out, n)
    requires c == 256 || |out| >= n
    ensures out == Take(results + Values(nodes, Hits(nodes, paths, i, want)), n)
  {
    FinishTake(nodes, results, done, HitsFrom(nodes, paths, i, want, c), n);
  }

  lemma ExtendTake(nodes: Trie, results: seq<nat>, done: seq<nat>, here: seq<nat>, n: nat)
    ensures Take(Take(results + Values(nodes, done), n) + Values(nodes, here), n) == Take(results + Values(nodes, done + here), n)
  {
    ValuesAppend(nodes, done, here);
    TakeAppend(results, Values(nodes, done), Values(nodes, here), n);
  }

  /** When the limit is reached or the bytes are exhausted, the rest makes no difference. */
  lemma FinishTake(nodes: Trie, results: seq<nat>, done: seq<nat>, rest: seq<nat>, n: nat)
    requires |Take(results + Values(nodes, done), n)| >= n || rest == []
    ensures Take(results + Values(nodes, done), n) == Take(results + Values(nodes, done + rest), n)
  {
    var out := Take(results + Values(nodes, done), n);
    ExtendTake(nodes, results, done, rest, n);
    if rest == [] {
      assert done + rest == done;
    } else {
      TakeFull(out, Values(nodes, rest), n);
    }
  }
}
