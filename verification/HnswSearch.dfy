/**
 * Search on one layer of the HNSW graph (src/vector/hnsw.c:145-254): the greedy descent and the best-first
 * search on two heaps. A layer is the list of link lists of its slots; distances are reals and the metric
 * is any function.
 */
module HnswSearch {
  import opened Heaps
  import opened Slots

  type Layer = seq<seq<nat>>

  /** What a search sees besides the links. */
  datatype Space = Space(nodes: seq<Node>, metric: (Vector, Vector) -> real, query: Vector)

  function Dist(sp: Space, i: nat): (d: real) {
    if i < |sp.nodes| then sp.metric(sp.query, sp.nodes[i].vector) else 0.0
  }

  /** Every link names an existing slot. */
  ghost predicate LayerOk(adj: Layer, n: nat) {
    n <= |adj| && forall x, k :: 0 <= x < |adj| && 0 <= k < |adj[x]| ==> adj[x][k] < n
  }

  // ---- reachability --------------------------------------------------------------------------------

  ghost predicate Hop(sp: Space, adj: Layer, x: nat, y: nat) {
    x < |adj| && y in adj[x] && Live(sp.nodes, y)
  }

  ghost predicate IsPath(sp: Space, adj: Layer, entry: nat, p: seq<nat>) {
    |p| > 0 && p[0] == entry &&
    (|p| > 1 ==> IsPath(sp, adj, entry, p[..|p| - 1]) && Hop(sp, adj, p[|p| - 2], p[|p| - 1]))
  }

  /** A path of live nodes leads from the entry to i. */
  ghost predicate Reaches(sp: Space, adj: Layer, entry: nat, i: nat) {
    exists p :: IsPath(sp, adj, entry, p) && p[|p| - 1] == i
  }

  lemma ReachesEntry(sp: Space, adj: Layer, entry: nat)
    ensures Reaches(sp, adj, entry, entry)
  {
    assert IsPath(sp, adj, entry, [entry]);
  }

  lemma ReachesHop(sp: Space, adj: Layer, entry: nat, x: nat, y: nat)
    requires Reaches(sp, adj, entry, x) && Hop(sp, adj, x, y)
    ensures Reaches(sp, adj, entry, y)
  {
    var p :| IsPath(sp, adj, entry, p) && p[|p| - 1] == x;
    var q := p + [y];
    assert q[..|q| - 1] == p;
    assert IsPath(sp, adj, entry, q);
  }

  ghost predicate ClosedAt(sp: Space, adj: Layer, x: nat, seen: set<nat>) {
    forall y :: Hop(sp, adj, x, y) ==> y in seen
  }

  lemma {:induction false} ClosedCovers(sp: Space, adj: Layer, entry: nat, seen: set<nat>, p: seq<nat>)
    requires entry in seen && IsPath(sp, adj, entry, p)
    requires forall x :: x in seen ==> ClosedAt(sp, adj, x, seen)
    ensures p[|p| - 1] in seen
    decreases |p|
  {
    if |p| > 1 {
      var q := p[..|p| - 1];
      ClosedCovers(sp, adj, entry, seen, q);
      assert q[|q| - 1] == p[|p| - 2];
      assert ClosedAt(sp, adj, p[|p| - 2], seen);
    }
  }

  // ---- the nodes a heap holds ----------------------------------------------------------------------

  ghost function Cands(sp: Space, ns: set<nat>): (r: set<Cand>) {
    set i | i in ns :: Cand(Dist(sp, i), i)
  }

  /** The sequence lists each node of ns once, with its distance, and nothing else. */
  ghost predicate Holds(s: seq<Cand>, sp: Space, ns: set<nat>) {
    multiset(s) == multiset(Cands(sp, ns))
  }

  lemma HoldsMember(s: seq<Cand>, sp: Space, ns: set<nat>, c: Cand)
    requires Holds(s, sp, ns)
    ensures c in s <==> c.node in ns && c.dist == Dist(sp, c.node)
  {
    assert c in s <==> c in multiset(s);
    assert c in multiset(Cands(sp, ns)) <==> c in Cands(sp, ns);
  }

  lemma {:induction false} CandsSize(sp: Space, ns: set<nat>)
    ensures |Cands(sp, ns)| == |ns|
  {
    if ns != {} {
      var i :| i in ns;
      CandsSize(sp, ns - {i});
      assert Cands(sp, ns) == Cands(sp, ns - {i}) + {Cand(Dist(sp, i), i)};
    }
  }

  lemma HoldsSize(s: seq<Cand>, sp: Space, ns: set<nat>)
    requires Holds(s, sp, ns)
    ensures |s| == |ns|
  {
    CandsSize(sp, ns);
    assert |multiset(s)| == |s|;
    assert |multiset(Cands(sp, ns))| == |Cands(sp, ns)|;
  }

  lemma HoldsAdd(s: seq<Cand>, t: seq<Cand>, sp: Space, ns: set<nat>, i: nat)
    requires Holds(s, sp, ns) && i !in ns
    requires multiset(t) == multiset(s) + multiset{Cand(Dist(sp, i), i)}
    ensures Holds(t, sp, ns + {i})
  {
    var c := Cand(Dist(sp, i), i);
    assert c !in Cands(sp, ns);
    assert Cands(sp, ns + {i}) == Cands(sp, ns) + {c};
    assert multiset(Cands(sp, ns) + {c}) == multiset(Cands(sp, ns)) + multiset{c};
  }

  lemma HoldsRemove(s: seq<Cand>, t: seq<Cand>, sp: Space, ns: set<nat>, c: Cand)
    requires Holds(s, sp, ns) && multiset(t) + multiset{c} == multiset(s)
    ensures c.node in ns && c.dist == Dist(sp, c.node) && Holds(t, sp, ns - {c.node})
  {
    assert c in multiset(s);
    HoldsMember(s, sp, ns, c);
    var rest := Cands(sp, ns - {c.node});
    assert Cands(sp, ns) == rest + {c};
    assert c !in rest;
    assert multiset(rest + {c}) == multiset(rest) + multiset{c};
    assert multiset(t) == multiset(s) - multiset{c};
  }

  // ---- the nearest of the nodes seen ---------------------------------------------------------------

  ghost predicate Nearest(sp: Space, seen: set<nat>, kept: set<nat>, ef: nat) {
    kept <= seen && |kept| == (if |seen| < ef then |seen| else ef) &&
    forall x, y :: x in kept && y in seen && y !in kept ==> Dist(sp, x) <= Dist(sp, y)
  }

  lemma SameCard(a: set<nat>, b: set<nat>)
    requires a <= b && |a| == |b|
    ensures a == b
  {
    assert |b - a| == |b| - |a|;
    assert b - a == {};
  }

  lemma KeepMore(sp: Space, seen: set<nat>, kept: set<nat>, ef: nat, i: nat)
    requires Nearest(sp, seen, kept, ef) && i !in seen && |kept| < ef
    ensures Nearest(sp, seen + {i}, kept + {i}, ef)
  {
    SameCard(kept, seen);
  }

  /** Dropping a farthest node from the nearest ef and one more leaves the nearest ef. */
  lemma DropFarthest(sp: Space, seen: set<nat>, kept: set<nat>, ef: nat, i: nat, w: nat)
    requires Nearest(sp, seen, kept, ef) && i !in seen && |kept| == ef && w in kept + {i}
    requires forall x :: x in kept + {i} ==> Dist(sp, x) <= Dist(sp, w)
    ensures Nearest(sp, seen + {i}, kept + {i} - {w}, ef)
  {
    var more, all := kept + {i} - {w}, seen + {i};
    assert |kept + {i}| == ef + 1;
    assert |more| == ef;
    assert |kept| <= |seen| by { assert |seen - kept| == |seen| - |kept|; }
    assert |all| == |seen| + 1;
    forall x, y | x in more && y in all && y !in more ensures Dist(sp, x) <= Dist(sp, y) {
      if y != w && x == i {
        assert w in kept;
        assert Dist(sp, w) <= Dist(sp, y);
      }
    }
  }

  lemma {:induction false} BoundedCard(s: set<nat>, n: nat)
    requires forall i :: i in s ==> i < n
    ensures |s| <= n
  {
    if n == 0 {
      assert s == {};
    } else {
      BoundedCard(s - {n - 1}, n - 1);
    }
  }

  // ---- the search ----------------------------------------------------------------------------------

  /** The visited cells with the current tag are the nodes seen; the other cells hold older tags. */
  ghost predicate Marked(visited: seq<int>, tag: int, seen: set<nat>) {
    forall i: nat :: i < |visited| ==> 0 <= visited[i] <= tag && (visited[i] == tag <==> i in seen)
  }

  /** What the search knows between two rounds. */
  ghost predicate Frontier(sp: Space, adj: Layer, entry: nat, seen: set<nat>, open: set<nat>) {
    entry in seen && open <= seen &&
    (forall i :: i in seen ==> i < |sp.nodes| && Reaches(sp, adj, entry, i)) &&
    (forall x :: x in seen && x !in open ==> ClosedAt(sp, adj, x, seen))
  }

  /** The same while the links of the node cur are read; the first k of them are done. */
  ghost predicate Scanning(sp: Space, adj: Layer, entry: nat, seen: set<nat>, open: set<nat>, cur: nat, k: nat) {
    entry in seen && open <= seen && cur in seen && cur !in open && cur < |adj| && k <= |adj[cur]| &&
    (forall i :: i in seen ==> i < |sp.nodes| && Reaches(sp, adj, entry, i)) &&
    (forall x :: x in seen && x !in open && x != cur ==> ClosedAt(sp, adj, x, seen)) &&
    (forall j :: 0 <= j < k && Live(sp.nodes, adj[cur][j]) ==> adj[cur][j] in seen)
  }

  lemma ScanStep(sp: Space, adj: Layer, entry: nat, seen: set<nat>, open: set<nat>, cur: nat, k: nat)
    requires Scanning(sp, adj, entry, seen, open, cur, k) && k < |adj[cur]| && Live(sp.nodes, adj[cur][k])
    ensures Scanning(sp, adj, entry, seen + {adj[cur][k]}, open + {adj[cur][k]}, cur, k + 1) || adj[cur][k] in seen
  {
    var y := adj[cur][k];
    if y !in seen {
      assert Hop(sp, adj, cur, y);
      ReachesHop(sp, adj, entry, cur, y);
      var more := seen + {y};
      forall x | x in more && x !in open + {y} && x != cur ensures ClosedAt(sp, adj, x, more) {
        assert ClosedAt(sp, adj, x, seen);
      }
    }
  }

  lemma ScanDone(sp: Space, adj: Layer, entry: nat, seen: set<nat>, open: set<nat>, cur: nat)
    requires cur < |adj| && Scanning(sp, adj, entry, seen, open, cur, |adj[cur]|)
    ensures Frontier(sp, adj, entry, seen, open)
  {
    forall x | x in seen && x !in open ensures ClosedAt(sp, adj, x, seen) {
      if x == cur {
        forall y | Hop(sp, adj, x, y) ensures y in seen {
          var j :| 0 <= j < |adj[cur]| && adj[cur][j] == y;
        }
      }
    }
  }

  /** Both heaps and the sets of nodes they hold. */
  ghost predicate HeapsOk(cands: Heap, results: Heap, sp: Space, open: set<nat>, kept: set<nat>, ef: nat)
    reads cands, cands.data, results, results.data
  {
    cands != results && cands.data != results.data &&
    cands.Valid() && !cands.max && Holds(cands.Contents(), sp, open) &&
    results.Valid() && results.max && results.data.Length == ef + 1 && Holds(results.Contents(), sp, kept)
  }

  /** Lines 219-227: the new node becomes a candidate and, if near enough, a result. */
  method Consider(cands: Heap, results: Heap, sp: Space, ef: nat, i: nat,
                  ghost seen: set<nat>, ghost open: set<nat>, ghost kept: set<nat>) returns (ghost now: set<nat>)
    requires ef >= 1 && HeapsOk(cands, results, sp, open, kept, ef) && cands.size < cands.data.Length
    requires Nearest(sp, seen, kept, ef) && i !in seen && open <= seen
    modifies cands, cands.data, results, results.data
    ensures HeapsOk(cands, results, sp, open + {i}, now, ef)
    ensures Nearest(sp, seen + {i}, now, ef)
  {
    var c := Cand(Dist(sp, i), i);
    HoldsSize(results.Contents(), sp, kept);
    ghost var before := cands.Contents();
    cands.Push(c);
    HoldsAdd(before, cands.Contents(), sp, open, i);
    now := KeepResult(results, sp, ef, i, seen, kept);
  }

  /** The result half of Consider, lines 223-227. */
  method KeepResult(results: Heap, sp: Space, ef: nat, i: nat, ghost seen: set<nat>, ghost kept: set<nat>)
    returns (ghost now: set<nat>)
    requires ef >= 1 && results.Valid() && results.max && results.data.Length == ef + 1
    requires Holds(results.Contents(), sp, kept)
    requires Nearest(sp, seen, kept, ef) && i !in seen
    modifies results, results.data
    ensures results.Valid() && Holds(results.Contents(), sp, now)
    ensures Nearest(sp, seen + {i}, now, ef)
  {
    var c := Cand(Dist(sp, i), i);
    ghost var s := results.Contents();
    HoldsSize(s, sp, kept);
    if results.size < ef {
      results.Push(c);
      HoldsAdd(s, results.Contents(), sp, kept, i);
      KeepMore(sp, seen, kept, ef, i);
      return kept + {i};
    }
    if c.dist < results.data[0].dist {
      results.Push(c);
      ghost var t := results.Contents();
      HoldsAdd(s, t, sp, kept, i);
      var w := results.Pop();
      HoldsRemove(t, results.Contents(), sp, kept + {i}, w);
      forall x | x in kept + {i} ensures Dist(sp, x) <= Dist(sp, w.node) {
        HoldsMember(t, sp, kept + {i}, Cand(Dist(sp, x), x));
      }
      DropFarthest(sp, seen, kept, ef, i, w.node);
      return kept + {i} - {w.node};
    }
    RejectFar(results, sp, ef, i, seen, kept);
    return kept;
  }

  lemma RejectFar(results: Heap, sp: Space, ef: nat, i: nat, seen: set<nat>, kept: set<nat>)
    requires results.Valid() && results.max && Holds(results.Contents(), sp, kept) && results.size > 0
    requires Nearest(sp, seen, kept, ef) && i !in seen && |kept| == ef
    requires results.data[0].dist <= Dist(sp, i)
    ensures Nearest(sp, seen + {i}, kept, ef)
  {
    var s := results.Contents();
    forall x | x in kept + {i} ensures Dist(sp, x) <= Dist(sp, i) {
      if x != i {
        var c := Cand(Dist(sp, x), x);
        HoldsMember(s, sp, kept, c);
        var j :| 0 <= j < |s| && s[j] == c;
        RootAbove(true, s, j);
        assert s[0] == results.data[0];
      }
    }
    DropFarthest(sp, seen, kept, ef, i, i);
    assert kept + {i} - {i} == kept;
  }

  lemma RootIsFarthest(s: seq<Cand>, sp: Space, kept: set<nat>)
    requires IsHeap(true, s) && |s| > 0 && Holds(s, sp, kept)
    ensures forall x :: x in kept ==> Dist(sp, x) <= s[0].dist
  {
    forall x | x in kept ensures Dist(sp, x) <= s[0].dist {
      var c := Cand(Dist(sp, x), x);
      HoldsMember(s, sp, kept, c);
      var j :| 0 <= j < |s| && s[j] == c;
      RootAbove(true, s, j);
    }
  }

  /** Sets the search is about: nodes met, candidates, results. */
  datatype Sets = Sets(seen: set<nat>, open: set<nat>, kept: set<nat>)

  ghost predicate Searching(cands: Heap, results: Heap, sp: Space, adj: Layer, visited: seq<int>, tag: int, ef: nat, f: Sets)
    reads cands, cands.data, results, results.data
  {
    ef >= 1 && LayerOk(adj, |sp.nodes|) && |adj| == |visited| == cands.data.Length &&
    HeapsOk(cands, results, sp, f.open, f.kept, ef) && Nearest(sp, f.seen, f.kept, ef) && Marked(visited, tag, f.seen)
  }

  /** The live ones among the first k neighbours. */
  ghost function Hops(sp: Space, adj: Layer, cur: nat, k: nat): (r: set<nat>)
    requires cur < |adj| && k <= |adj[cur]|
  {
    set j: nat | j < k && Live(sp.nodes, adj[cur][j]) :: adj[cur][j]
  }

  lemma HopsStep(sp: Space, adj: Layer, cur: nat, k: nat)
    requires cur < |adj| && k < |adj[cur]|
    ensures Hops(sp, adj, cur, k + 1) == Hops(sp, adj, cur, k) + if Live(sp.nodes, adj[cur][k]) then {adj[cur][k]} else {}
  {
    forall y | y in Hops(sp, adj, cur, k + 1) ensures y in Hops(sp, adj, cur, k) || (y == adj[cur][k] && Live(sp.nodes, y)) {
      var j: nat :| j < k + 1 && Live(sp.nodes, adj[cur][j]) && y == adj[cur][j];
    }
  }

  /** Of a node all live neighbours among the first k are met, and those new are candidates. */
  ghost predicate Spread(sp: Space, adj: Layer, cur: nat, k: nat, f: Sets, g: Sets) {
    cur < |adj| && k <= |adj[cur]| && g.seen == f.seen + Hops(sp, adj, cur, k) && g.open == f.open + (Hops(sp, adj, cur, k) - f.seen)
  }

  /** The neighbour at place k is met, if it is live and new. */
  ghost predicate Met(sp: Space, adj: Layer, cur: nat, k: nat, f: Sets, g: Sets)
    requires cur < |adj| && k < |adj[cur]|
  {
    var y := adj[cur][k];
    if Live(sp.nodes, y) && y !in f.seen then g.seen == f.seen + {y} && g.open == f.open + {y}
    else g.seen == f.seen && g.open == f.open
  }

  lemma SpreadStep(sp: Space, adj: Layer, cur: nat, k: nat, f0: Sets, f: Sets, g: Sets)
    requires cur < |adj| && k < |adj[cur]| && Spread(sp, adj, cur, k, f0, f) && Met(sp, adj, cur, k, f, g)
    ensures Spread(sp, adj, cur, k + 1, f0, g)
  {
    HopsStep(sp, adj, cur, k);
  }

  lemma SpreadNone(sp: Space, adj: Layer, cur: nat, f: Sets)
    requires cur < |adj|
    ensures Spread(sp, adj, cur, 0, f, f)
  {
    assert Hops(sp, adj, cur, 0) == {};
  }

  /** Lines 213-228: the live neighbours of the node that were not met before become candidates. */
  method Expand(cands: Heap, results: Heap, sp: Space, adj: Layer, visited0: seq<int>, tag: int, ef: nat, cur: nat,
                ghost entry: nat, ghost f0: Sets)
    returns (visited: seq<int>, ghost f: Sets)
    requires Searching(cands, results, sp, adj, visited0, tag, ef, f0)
    requires Scanning(sp, adj, entry, f0.seen, f0.open, cur, 0)
    modifies cands, cands.data, results, results.data
    ensures Searching(cands, results, sp, adj, visited, tag, ef, f)
    ensures Frontier(sp, adj, entry, f.seen, f.open)
    ensures f0.seen - f0.open <= f.seen - f.open && Spread(sp, adj, cur, |adj[cur]|, f0, f)
  {
    f, visited := f0, visited0;
    SpreadNone(sp, adj, cur, f0);
    for k := 0 to |adj[cur]|
      invariant Searching(cands, results, sp, adj, visited, tag, ef, f)
      invariant Scanning(sp, adj, entry, f.seen, f.open, cur, k)
      invariant f0.seen - f0.open <= f.seen - f.open && Spread(sp, adj, cur, k, f0, f)
    {
      ghost var was := f;
      visited, f := Meet(cands, results, sp, adj, visited, tag, ef, cur, k, entry, f);
      SpreadStep(sp, adj, cur, k, f0, was, f);
    }
    ScanDone(sp, adj, entry, f.seen, f.open, cur);
  }

  /** One round of that loop. */
  method Meet(cands: Heap, results: Heap, sp: Space, adj: Layer, visited0: seq<int>, tag: int, ef: nat, cur: nat, k: nat,
              ghost entry: nat, ghost f0: Sets)
    returns (visited: seq<int>, ghost f: Sets)
    requires Searching(cands, results, sp, adj, visited0, tag, ef, f0)
    requires Scanning(sp, adj, entry, f0.seen, f0.open, cur, k) && k < |adj[cur]|
    modifies cands, cands.data, results, results.data
    ensures Searching(cands, results, sp, adj, visited, tag, ef, f)
    ensures Scanning(sp, adj, entry, f.seen, f.open, cur, k + 1)
    ensures f0.seen - f0.open <= f.seen - f.open
    ensures Met(sp, adj, cur, k, f0, f)
  {
    var y := adj[cur][k];
    f, visited := f0, visited0;
    if visited[y] == tag { return; }
    if sp.nodes[y].deleted { return; }
    ScanStep(sp, adj, entry, f.seen, f.open, cur, k);
    CandidatesFit(cands.Contents(), sp, adj, entry, f.seen, f.open, cur, k, y);
    ghost var kept := Consider(cands, results, sp, ef, y, f.seen, f.open, f.kept);
    f, visited := Sets(f.seen + {y}, f.open + {y}, kept), visited[y := tag];
  }

  /** The candidate heap holds fewer nodes than there are slots. */
  lemma CandidatesFit(s: seq<Cand>, sp: Space, adj: Layer, entry: nat, seen: set<nat>, open: set<nat>, cur: nat, k: nat, y: nat)
    requires Holds(s, sp, open) && Scanning(sp, adj, entry, seen, open, cur, k) && y < |sp.nodes| && y !in seen
    ensures |s| < |sp.nodes|
  {
    HoldsSize(s, sp, open);
    BoundedCard(open + {y}, |sp.nodes|);
  }

  predicate SortedByDist(s: seq<Cand>) {
    forall i, j :: 0 <= i < j < |s| ==> s[i].dist <= s[j].dist
  }

  /** r is s with element i moved left to place j. */
  ghost predicate Moved(s: seq<Cand>, r: seq<Cand>, i: nat, j: nat) {
    j <= i < |s| == |r| && r[j] == s[i] &&
    (forall k :: 0 <= k < j || i < k < |s| ==> r[k] == s[k]) &&
    (forall k :: j < k <= i ==> r[k] == s[k - 1])
  }

  lemma Rotated(a: seq<Cand>, b: seq<Cand>, c: seq<Cand>, x: Cand)
    ensures multiset(a + b + [x] + c) == multiset(a + [x] + b + c)
  {
  }

  lemma MovedSame(s: seq<Cand>, r: seq<Cand>, i: nat, j: nat)
    requires Moved(s, r, i, j)
    ensures multiset(r) == multiset(s)
  {
    var a, b, c := s[..j], s[j..i], s[i + 1..];
    assert r[..j] == a;
    assert r[j + 1..i + 1] == b;
    assert r[i + 1..] == c;
    assert r == r[..j] + [r[j]] + r[j + 1..i + 1] + r[i + 1..];
    assert s == s[..j] + s[j..i] + [s[i]] + s[i + 1..];
    Rotated(a, b, c, s[i]);
  }

  lemma MovedSorted(s: seq<Cand>, r: seq<Cand>, i: nat, j: nat)
    requires Moved(s, r, i, j) && SortedByDist(s[..i])
    requires j > 0 ==> s[j - 1].dist <= s[i].dist
    requires forall k :: j <= k < i ==> s[k].dist > s[i].dist
    ensures SortedByDist(r[..i + 1])
  {
    forall x, y | 0 <= x < y < i + 1 ensures r[x].dist <= r[y].dist {
      var x', y' := if x > j then x - 1 else x, if y > j then y - 1 else y;
      if x == j {
        assert s[y'].dist > s[i].dist;
      } else if y == j {
        assert s[..i][x] == s[x] && s[..i][j - 1] == s[j - 1];
      } else {
        assert s[..i][x'] == s[x'] && s[..i][y'] == s[y'];
      }
    }
  }

  /** One round of the insertion sort (lines 239-248): element i moves left past the larger ones. */
  method InsertLeft(s: seq<Cand>, i: nat) returns (r: seq<Cand>)
    requires i < |s| && SortedByDist(s[..i])
    ensures |r| == |s| && SortedByDist(r[..i + 1]) && multiset(r) == multiset(s)
  {
    r := s;
    var j := i - 1;
    while j >= 0 && r[j].dist > s[i].dist
      invariant -1 <= j < i && |r| == |s|
      invariant forall k :: 0 <= k <= j + 1 || i < k < |s| ==> r[k] == s[k]
      invariant forall k :: j + 1 < k <= i ==> r[k] == s[k - 1]
      invariant forall k :: j < k < i ==> s[k].dist > s[i].dist
    {
      r := r[j + 1 := r[j]];
      j := j - 1;
    }
    r := r[j + 1 := s[i]];
    MovedSame(s, r, i, j + 1);
    MovedSorted(s, r, i, j + 1);
  }

  method SortResults(s: seq<Cand>) returns (r: seq<Cand>)
    ensures SortedByDist(r) && multiset(r) == multiset(s)
  {
    r := s;
    if |r| == 0 { return; }
    for i := 1 to |s|
      invariant |r| == |s| && SortedByDist(r[..i]) && multiset(r) == multiset(s)
    {
      r := InsertLeft(r, i);
    }
    assert r[..|r|] == r;
  }

  /** A nearest candidate, with which the search goes on: there are fewer than ef results, or one of them is no nearer. */
  ghost predicate Taken(sp: Space, ef: nat, f: Sets, cur: nat) {
    cur in f.open && (forall y :: y in f.open ==> Dist(sp, cur) <= Dist(sp, y)) &&
    (|f.kept| < ef || exists x :: x in f.kept && Dist(sp, cur) <= Dist(sp, x))
  }

  /** One round: a nearest candidate is taken, and its neighbours are met. */
  ghost predicate Round(sp: Space, adj: Layer, ef: nat, f: Sets, g: Sets, cur: nat) {
    Taken(sp, ef, f, cur) && cur < |adj| && Spread(sp, adj, cur, |adj[cur]|, f.(open := f.open - {cur}), g) && Nearest(sp, g.seen, g.kept, ef)
  }

  ghost predicate GoesTo(sp: Space, adj: Layer, ef: nat, f: Sets, g: Sets) {
    exists cur :: Round(sp, adj, ef, f, g, cur)
  }

  ghost predicate RoundAt(sp: Space, adj: Layer, ef: nat, trace: seq<Sets>, i: nat) {
    0 < i < |trace| && GoesTo(sp, adj, ef, trace[i - 1], trace[i])
  }

  ghost predicate Rounds(sp: Space, adj: Layer, entry: nat, ef: nat, trace: seq<Sets>) {
    |trace| > 0 && trace[0] == Sets({entry}, {entry}, {entry}) &&
    forall i: nat {:trigger RoundAt(sp, adj, ef, trace, i)} :: 0 < i < |trace| ==> RoundAt(sp, adj, ef, trace, i)
  }

  /** The search is over: no candidate is left, or a nearest one is farther than all of ef results. */
  ghost predicate Over(sp: Space, ef: nat, f: Sets) {
    f.open == {} || (exists cur :: cur in f.open && Passed(sp, ef, f, cur))
  }

  ghost predicate Passed(sp: Space, ef: nat, f: Sets, cur: nat) {
    |f.kept| >= ef && (forall y :: y in f.open ==> Dist(sp, cur) <= Dist(sp, y)) && forall x :: x in f.kept ==> Dist(sp, x) < Dist(sp, cur)
  }

  /** The nodes met and kept are those of a best-first search: a nearest candidate in every round, until it is over. */
  ghost predicate BestFirst(sp: Space, adj: Layer, entry: nat, ef: nat, seen: set<nat>, kept: set<nat>) {
    exists trace, open :: Rounds(sp, adj, entry, ef, trace) && trace[|trace| - 1] == Sets(seen, open, kept) && Over(sp, ef, Sets(seen, open, kept))
  }

  lemma OneMoreRound(sp: Space, adj: Layer, entry: nat, ef: nat, trace: seq<Sets>, g: Sets, cur: nat)
    requires Rounds(sp, adj, entry, ef, trace) && Round(sp, adj, ef, trace[|trace| - 1], g, cur)
    ensures Rounds(sp, adj, entry, ef, trace + [g])
  {
    var now := trace + [g];
    assert GoesTo(sp, adj, ef, trace[|trace| - 1], g);
    forall i: nat {:trigger RoundAt(sp, adj, ef, now, i)} | 0 < i < |now| ensures RoundAt(sp, adj, ef, now, i) {
      if i < |trace| { assert RoundAt(sp, adj, ef, trace, i); }
    }
  }

  /** What hnsw_search_layer promises: sorted, no repeats, the ef nearest of the nodes seen, all of them reachable,
      and every live neighbour of a result was seen. */
  ghost predicate LayerResult(sp: Space, adj: Layer, entry: nat, ef: nat, out: seq<Cand>, seen: set<nat>, kept: set<nat>) {
    SortedByDist(out) && Holds(out, sp, kept) && Nearest(sp, seen, kept, ef) && entry in seen &&
    (forall i :: i in seen ==> i < |sp.nodes| && Reaches(sp, adj, entry, i)) &&
    (forall x :: x in kept ==> ClosedAt(sp, adj, x, seen))
  }

  lemma ToScan(sp: Space, adj: Layer, entry: nat, f: Sets, cur: nat)
    requires LayerOk(adj, |sp.nodes|) && Frontier(sp, adj, entry, f.seen, f.open) && cur in f.open
    ensures Scanning(sp, adj, entry, f.seen, f.open - {cur}, cur, 0)
  {
  }

  lemma OneMoreClosed(sp: Space, adj: Layer, entry: nat, f: Sets, cur: nat, g: Sets)
    requires Frontier(sp, adj, entry, f.seen, f.open) && cur in f.open && Frontier(sp, adj, entry, g.seen, g.open)
    requires f.seen - (f.open - {cur}) <= g.seen - g.open
    ensures |f.seen - f.open| < |g.seen - g.open| <= |sp.nodes|
  {
    var a, b := f.seen - f.open, g.seen - g.open;
    assert a + {cur} <= b && cur !in a;
    assert |b - (a + {cur})| == |b| - |a + {cur}|;
    BoundedCard(b, |sp.nodes|);
  }

  /** Lines 204-207: takes the nearest candidate, and stops if it is farther than ef results are. */
  method NextCandidate(cands: Heap, results: Heap, sp: Space, adj: Layer, visited: seq<int>, tag: int, ef: nat, ghost f: Sets)
    returns (stop: bool, cur: nat)
    requires Searching(cands, results, sp, adj, visited, tag, ef, f) && cands.size > 0
    modifies cands, cands.data
    ensures stop ==> f.kept !! f.open && HeapsOk(cands, results, sp, f.open - {cur}, f.kept, ef)
    ensures !stop ==> Searching(cands, results, sp, adj, visited, tag, ef, f.(open := f.open - {cur}))
    ensures cur in f.open
    ensures if stop then Passed(sp, ef, f, cur) else Taken(sp, ef, f, cur)
  {
    ghost var s := cands.Contents();
    var cand := cands.Pop();
    HoldsRemove(s, cands.Contents(), sp, f.open, cand);
    HoldsSize(results.Contents(), sp, f.kept);
    cur := cand.node;
    stop := results.size >= ef && cand.dist > results.data[0].dist;
    OpenIsFar(s, sp, f.open, cand);
    if stop { RootIsFarthest(results.Contents(), sp, f.kept); }
    if !stop && results.size >= ef { HoldsMember(results.Contents(), sp, f.kept, results.data[0]); }
  }

  /** Lines 191-201: both heaps with the entry point. */
  method StartSearch(sp: Space, adj: Layer, visited0: seq<int>, tag: int, entry: nat, ef: nat)
    returns (cands: Heap, results: Heap, visited: seq<int>, ghost f: Sets)
    requires ef >= 1 && entry < |sp.nodes| && LayerOk(adj, |sp.nodes|) && |adj| == |visited0|
    requires Marked(visited0, tag, {})
    ensures fresh(cands) && fresh(cands.data) && fresh(results) && fresh(results.data)
    ensures Searching(cands, results, sp, adj, visited, tag, ef, f) && Frontier(sp, adj, entry, f.seen, f.open)
    ensures f == Sets({entry}, {entry}, {entry})
  {
    cands := new Heap(false, |visited0|);
    results := new Heap(true, ef + 1);
    assert Cands(sp, {}) == {};
    ghost var kept := Consider(cands, results, sp, ef, entry, {}, {}, {});
    assert {} + {entry} == {entry};
    SameCard(kept, {entry});
    f, visited := Sets({entry}, {entry}, kept), visited0[entry := tag];
    ReachesEntry(sp, adj, entry);
  }

  lemma EndSearch(sp: Space, adj: Layer, entry: nat, ef: nat, f: Sets, s: seq<Cand>, out: seq<Cand>)
    requires Frontier(sp, adj, entry, f.seen, f.open) && f.kept !! f.open && Nearest(sp, f.seen, f.kept, ef)
    requires Holds(s, sp, f.kept) && SortedByDist(out) && multiset(out) == multiset(s)
    ensures LayerResult(sp, adj, entry, ef, out, f.seen, f.kept)
  {
  }

  /** hnsw_search_layer, given the visited array and a tag no cell of it holds. */
  method SearchLayer(sp: Space, adj: Layer, visited0: seq<int>, tag: int, entry: nat, ef: nat)
    returns (out: seq<Cand>, visited: seq<int>, ghost seen: set<nat>, ghost kept: set<nat>)
    requires ef >= 1 && entry < |sp.nodes| && LayerOk(adj, |sp.nodes|) && |adj| == |visited0|
    requires Marked(visited0, tag, {})
    ensures LayerResult(sp, adj, entry, ef, out, seen, kept) && BestFirst(sp, adj, entry, ef, seen, kept)
    ensures |visited| == |visited0| && Marked(visited, tag, seen)
  {
    var cands, results, marks, f := StartSearch(sp, adj, visited0, tag, entry, ef);
    visited := marks;
    ghost var trace := [f];
    ghost var over := false;
    while cands.size > 0
      invariant fresh(cands) && fresh(cands.data) && fresh(results) && fresh(results.data)
      invariant Searching(cands, results, sp, adj, visited, tag, ef, f)
      invariant Frontier(sp, adj, entry, f.seen, f.open)
      invariant Rounds(sp, adj, entry, ef, trace) && trace[|trace| - 1] == f
      decreases |sp.nodes| - |f.seen - f.open|
    {
      var stop, cur := NextCandidate(cands, results, sp, adj, visited, tag, ef, f);
      if stop {
        over := true;
        break;
      }
      ghost var f0 := f;
      ToScan(sp, adj, entry, f, cur);
      visited, f := Expand(cands, results, sp, adj, visited, tag, ef, cur, entry, f.(open := f.open - {cur}));
      OneMoreClosed(sp, adj, entry, f0, cur, f);
      OneMoreRound(sp, adj, entry, ef, trace, f, cur);
      trace := trace + [f];
    }
    seen, kept := f.seen, f.kept;
    assert kept !! f.open && Over(sp, ef, f) by {
      if !over { HoldsSize(cands.Contents(), sp, f.open); }
    }
    assert BestFirst(sp, adj, entry, ef, seen, kept) by { assert f == Sets(seen, f.open, kept); }
    out := SortResults(results.data[..results.size]);
    EndSearch(sp, adj, entry, ef, f, results.Contents(), out);
  }

  lemma OpenIsFar(s: seq<Cand>, sp: Space, open: set<nat>, cand: Cand)
    requires Holds(s, sp, open) && (forall c :: c in s ==> Above(false, cand, c))
    ensures forall x :: x in open ==> cand.dist <= Dist(sp, x)
  {
    forall x | x in open ensures cand.dist <= Dist(sp, x) {
      HoldsMember(s, sp, open, Cand(Dist(sp, x), x));
    }
  }

  ghost function ReachSet(sp: Space, adj: Layer, entry: nat): (r: set<nat>) {
    set i: nat | i < |sp.nodes| && Reaches(sp, adj, entry, i)
  }

  /** A search that is not cut short by ef returns exactly the nodes reachable from the entry. */
  lemma SearchIsComplete(sp: Space, adj: Layer, entry: nat, ef: nat, out: seq<Cand>, seen: set<nat>, kept: set<nat>)
    requires LayerOk(adj, |sp.nodes|) && LayerResult(sp, adj, entry, ef, out, seen, kept)
    requires |out| < ef || |ReachSet(sp, adj, entry)| <= ef
    ensures kept == ReachSet(sp, adj, entry)
  {
    var all := ReachSet(sp, adj, entry);
    HoldsSize(out, sp, kept);
    assert seen <= all;
    assert |all - seen| == |all| - |seen|;
    SameCard(kept, seen);
    forall i | i in all ensures i in seen {
      var p :| IsPath(sp, adj, entry, p) && p[|p| - 1] == i;
      ClosedCovers(sp, adj, entry, seen, p);
    }
  }

  // ---- greedy descent ------------------------------------------------------------------------------

  ghost function Closer(sp: Space, d: real): (r: set<nat>) {
    set i: nat | i < |sp.nodes| && Dist(sp, i) < d
  }

  lemma CloserShrinks(sp: Space, x: nat, y: nat)
    requires y < |sp.nodes| && Dist(sp, y) < Dist(sp, x)
    ensures |Closer(sp, Dist(sp, y))| < |Closer(sp, Dist(sp, x))|
  {
    var a, b := Closer(sp, Dist(sp, y)), Closer(sp, Dist(sp, x));
    assert a + {y} <= b && y !in a;
    assert |b - (a + {y})| == |b| - |a + {y}|;
  }

  /** Link k of x leads to the first nearest of its live neighbours, which is closer than x itself. */
  ghost predicate FirstNearest(sp: Space, adj: Layer, x: nat, k: nat) {
    x < |adj| && k < |adj[x]| && Live(sp.nodes, adj[x][k]) && Dist(sp, adj[x][k]) < Dist(sp, x) &&
    forall j :: 0 <= j < |adj[x]| && Live(sp.nodes, adj[x][j]) ==>
      Dist(sp, adj[x][k]) <= Dist(sp, adj[x][j]) && (j < k ==> Dist(sp, adj[x][k]) < Dist(sp, adj[x][j]))
  }

  ghost predicate GreedyStep(sp: Space, adj: Layer, x: nat, y: nat) {
    exists k: nat :: FirstNearest(sp, adj, x, k) && adj[x][k] == y
  }

  /** Every node of the path is followed by its first nearest neighbour. */
  ghost predicate GreedyPath(sp: Space, adj: Layer, p: seq<nat>) {
    |p| > 0 && forall i :: 0 <= i < |p| - 1 ==> GreedyStep(sp, adj, p[i], p[i + 1])
  }

  /** No live neighbour is strictly closer. */
  ghost predicate Nearby(sp: Space, adj: Layer, x: nat) {
    forall y :: Hop(sp, adj, x, y) ==> Dist(sp, x) <= Dist(sp, y)
  }

  /** The greedy search from one node ends at the other. */
  ghost predicate GreedyEnd(sp: Space, adj: Layer, from: nat, to: nat) {
    Nearby(sp, adj, to) && exists p :: GreedyPath(sp, adj, p) && p[0] == from && p[|p| - 1] == to
  }

  lemma StepIsHop(sp: Space, adj: Layer, x: nat, y: nat)
    requires GreedyStep(sp, adj, x, y)
    ensures Hop(sp, adj, x, y) && Dist(sp, y) < Dist(sp, x)
  {
  }

  lemma StepUnique(sp: Space, adj: Layer, x: nat, y: nat, z: nat)
    requires GreedyStep(sp, adj, x, y) && GreedyStep(sp, adj, x, z)
    ensures y == z
  {
    var k: nat :| FirstNearest(sp, adj, x, k) && adj[x][k] == y;
    var j: nat :| FirstNearest(sp, adj, x, j) && adj[x][j] == z;
    assert j == k;
  }

  /** The last node of a greedy path is reachable from the first, and no farther from the query. */
  lemma {:induction false} PathReaches(sp: Space, adj: Layer, p: seq<nat>)
    requires GreedyPath(sp, adj, p)
    ensures Reaches(sp, adj, p[0], p[|p| - 1]) && Dist(sp, p[|p| - 1]) <= Dist(sp, p[0])
    ensures Live(sp.nodes, p[0]) ==> Live(sp.nodes, p[|p| - 1])
    decreases |p|
  {
    if |p| == 1 {
      ReachesEntry(sp, adj, p[0]);
    } else {
      var q, n := p[..|p| - 1], |p| - 2;
      assert q[|q| - 1] == p[n] && GreedyStep(sp, adj, p[n], p[n + 1]);
      PathReaches(sp, adj, q);
      StepIsHop(sp, adj, p[n], p[n + 1]);
      ReachesHop(sp, adj, p[0], p[n], p[n + 1]);
    }
  }

  lemma {:induction false} PathsMeet(sp: Space, adj: Layer, p: seq<nat>, q: seq<nat>)
    requires GreedyPath(sp, adj, p) && GreedyPath(sp, adj, q) && p[0] == q[0]
    requires Nearby(sp, adj, p[|p| - 1]) && Nearby(sp, adj, q[|q| - 1])
    ensures p == q
    decreases |p|
  {
    if |p| == 1 && |q| > 1 { StepIsHop(sp, adj, q[0], q[1]); }
    if |p| > 1 && |q| == 1 { StepIsHop(sp, adj, p[0], p[1]); }
    if |p| > 1 && |q| > 1 {
      StepUnique(sp, adj, p[0], p[1], q[1]);
      Steps(sp, adj, p);
      Steps(sp, adj, q);
      PathsMeet(sp, adj, p[1..], q[1..]);
      assert p == [p[0]] + p[1..] && q == [q[0]] + q[1..];
    }
  }

  lemma Steps(sp: Space, adj: Layer, p: seq<nat>)
    requires GreedyPath(sp, adj, p) && |p| > 1
    ensures GreedyPath(sp, adj, p[1..])
  {
    var q := p[1..];
    forall i | 0 <= i < |q| - 1 ensures GreedyStep(sp, adj, q[i], q[i + 1]) {
      assert GreedyStep(sp, adj, p[i + 1], p[i + 2]);
    }
  }

  /** Where a greedy search ends is determined by where it starts. */
  lemma GreedyUnique(sp: Space, adj: Layer, from: nat, a: nat, b: nat)
    requires GreedyEnd(sp, adj, from, a) && GreedyEnd(sp, adj, from, b)
    ensures a == b
  {
    var p :| GreedyPath(sp, adj, p) && p[0] == from && p[|p| - 1] == a;
    var q :| GreedyPath(sp, adj, q) && q[0] == from && q[|q| - 1] == b;
    PathsMeet(sp, adj, p, q);
  }

  lemma GreedyReaches(sp: Space, adj: Layer, from: nat, to: nat)
    requires GreedyEnd(sp, adj, from, to)
    ensures Reaches(sp, adj, from, to) && Dist(sp, to) <= Dist(sp, from) && (Live(sp.nodes, from) ==> Live(sp.nodes, to))
  {
    var p :| GreedyPath(sp, adj, p) && p[0] == from && p[|p| - 1] == to;
    PathReaches(sp, adj, p);
  }

  /** hnsw_greedy_search: goes on to the first nearest live neighbour until none is strictly closer. */
  method Greedy(sp: Space, adj: Layer, entry: nat) returns (best: nat)
    requires LayerOk(adj, |sp.nodes|) && Live(sp.nodes, entry)
    ensures Live(sp.nodes, best) && GreedyEnd(sp, adj, entry, best)
  {
    best := entry;
    ghost var p := [entry];
    var changed := true;
    while changed
      invariant Live(sp.nodes, best) && GreedyPath(sp, adj, p) && p[0] == entry && p[|p| - 1] == best
      invariant changed || Nearby(sp, adj, best)
      decreases |Closer(sp, Dist(sp, best))| + if changed then 1 else 0
    {
      var node := best;
      best, changed := ScanLinks(sp, adj, node);
      if changed {
        StepIsHop(sp, adj, node, best);
        CloserShrinks(sp, node, best);
        p := p + [best];
      }
    }
  }

  /** Lines 156-169: the first nearest of the live neighbours, if it is closer than the node. */
  method ScanLinks(sp: Space, adj: Layer, node: nat) returns (best: nat, changed: bool)
    requires LayerOk(adj, |sp.nodes|) && Live(sp.nodes, node)
    ensures changed ==> GreedyStep(sp, adj, node, best)
    ensures !changed ==> best == node && Nearby(sp, adj, node)
  {
    best, changed := node, false;
    ghost var at: nat := 0;
    for k := 0 to |adj[node]|
      invariant Dist(sp, best) <= Dist(sp, node) && (!changed ==> best == node)
      invariant changed ==> at < k && adj[node][at] == best && Live(sp.nodes, best) && Dist(sp, best) < Dist(sp, node)
      invariant forall j :: 0 <= j < k && Live(sp.nodes, adj[node][j]) ==> Dist(sp, best) <= Dist(sp, adj[node][j])
      invariant changed ==> forall j :: 0 <= j < at && Live(sp.nodes, adj[node][j]) ==> Dist(sp, best) < Dist(sp, adj[node][j])
    {
      var y := adj[node][k];
      if sp.nodes[y].deleted { continue; }
      if Dist(sp, y) < Dist(sp, best) {
        best, changed, at := y, true, k;
      }
    }
    if changed { assert FirstNearest(sp, adj, node, at); }
  }
}
