/**
 * The HNSW index of src/vector/hnsw.c:113-139, 289-340 and 346-581: links of every layer, one slot per
 * element, an entry point, and the visited tags shared by all searches. The level of a new element, which
 * the source draws at random, is a parameter. Allocation never fails.
 */
module Hnsw {
  import opened Heaps
  import opened Slots
  import opened HnswSearch

  datatype Status = Ok | Full | NotFound

  const MAX_INT: int := 0x7fff_ffff

  // ---- link lists ----------------------------------------------------------------------------------

  /** How many links a slot keeps: M on the upper layers, 2 M on layer 0. */
  function Keep(M: nat, layer: nat): (k: nat)
    ensures layer == 0 ==> k == M + M
    ensures layer > 0 ==> k == M
  {
    if layer == 0 then 2 * M else M
  }

  ghost predicate LinksAt(links: seq<Layer>, M: nat, cap: nat, n: nat, l: nat)
    requires l < |links|
  {
    |links[l]| == cap && LayerOk(links[l], n) &&
    (forall x :: 0 <= x < cap ==> |links[l][x]| <= Keep(M, l)) &&
    (forall x :: n <= x < cap ==> links[l][x] == [])
  }

  ghost predicate LinksOk(links: seq<Layer>, M: nat, cap: nat, n: nat) {
    forall l: nat {:trigger LinksAt(links, M, cap, n, l)} :: l < |links| ==> LinksAt(links, M, cap, n, l)
  }

  // ---- pruning -------------------------------------------------------------------------------------

  function Links(s: seq<Cand>): (r: seq<nat>) {
    seq<nat>(|s|, i requires 0 <= i < |s| => s[i].node)
  }

  /** One exchange of the bubble sort: the larger of the two ends up on the right. */
  function Bubbled(s: seq<Cand>, j: nat): (r: seq<Cand>)
    requires j + 1 < |s|
    ensures |r| == |s| && multiset(r) == multiset(s)
    ensures r[j].dist <= r[j + 1].dist && s[j].dist <= r[j + 1].dist
    ensures forall k :: 0 <= k < |s| && k != j && k != j + 1 ==> r[k] == s[k]
  {
    if s[j].dist > s[j + 1].dist then Swapped(s, j, j + 1) else s
  }

  /** s[n..] is sorted and no element before it is larger. */
  ghost predicate TailDone(s: seq<Cand>, n: nat) {
    n <= |s| && forall x, y :: 0 <= x < y < |s| && n <= y ==> s[x].dist <= s[y].dist
  }

  /** Lines 326-331: one pass carries the largest of the first n elements to place n - 1. */
  method BubblePass(s: seq<Cand>, n: nat) returns (r: seq<Cand>)
    requires 0 < n <= |s| && TailDone(s, n)
    ensures multiset(r) == multiset(s) && |r| == |s| && TailDone(r, n - 1)
  {
    r := s;
    for j := 0 to n - 1
      invariant |r| == |s| && multiset(r) == multiset(s) && TailDone(r, n)
      invariant forall x :: 0 <= x < j ==> r[x].dist <= r[j].dist
    {
      ghost var q := r;
      r := Bubbled(r, j);
    }
  }

  /** The sort of lines 323-332. */
  method BubbleSort(s: seq<Cand>) returns (r: seq<Cand>)
    ensures SortedByDist(r) && multiset(r) == multiset(s) && |r| == |s|
  {
    r := s;
    var n := |s|;
    while n > 1
      invariant 0 <= n <= |s| == |r| && multiset(r) == multiset(s) && TailDone(r, n)
    {
      r := BubblePass(r, n);
      n := n - 1;
    }
  }

  function Measured(sp: Space, ns: seq<nat>): (r: seq<Cand>) {
    seq(|ns|, i requires 0 <= i < |ns| => Cand(Dist(sp, ns[i]), ns[i]))
  }

  /** r is the first keep of ns in some order of ascending distance. */
  ghost predicate Pruned(sp: Space, ns: seq<nat>, keep: nat, r: seq<nat>, order: seq<Cand>) {
    keep <= |order| && SortedByDist(order) && multiset(order) == multiset(Measured(sp, ns)) && r == Links(order[..keep])
  }

  method Prune(sp: Space, ns: seq<nat>, keep: nat) returns (r: seq<nat>, ghost order: seq<Cand>)
    requires keep <= |ns|
    ensures Pruned(sp, ns, keep, r, order)
  {
    var s := BubbleSort(Measured(sp, ns));
    order := s;
    r := Links(s[..keep]);
  }

  lemma PrunedMembers(sp: Space, ns: seq<nat>, keep: nat, r: seq<nat>, order: seq<Cand>)
    requires Pruned(sp, ns, keep, r, order)
    ensures |r| == keep && forall x :: x in r ==> x in ns
  {
    forall k | 0 <= k < |r| ensures r[k] in ns {
      assert order[k] in multiset(order);
      assert order[k] in Measured(sp, ns);
    }
  }

  /** The links of a node after src was offered to it (lines 300-336). */
  ghost predicate Offered(sp: Space, was: seq<nat>, src: nat, keep: nat, now: seq<nat>, order: seq<Cand>) {
    if |was| < keep then now == was + [src] else Pruned(sp, was + [src], keep, now, order)
  }

  lemma OfferedMembers(sp: Space, was: seq<nat>, src: nat, keep: nat, now: seq<nat>, order: seq<Cand>)
    requires Offered(sp, was, src, keep, now, order) && |was| <= keep
    ensures |was| <= |now| <= keep && forall x :: x in now ==> x in was || x == src
  {
    if |was| >= keep { PrunedMembers(sp, was + [src], keep, now, order); }
  }

  method Offer(sp: Space, was: seq<nat>, src: nat, keep: nat) returns (now: seq<nat>, ghost order: seq<Cand>)
    ensures Offered(sp, was, src, keep, now, order)
  {
    if |was| < keep { return was + [src], []; }
    now, order := Prune(sp, was + [src], keep);
  }

  ghost predicate DegreesOk(adj: Layer, keep: nat) {
    forall x :: 0 <= x < |adj| ==> |adj[x]| <= keep
  }

  /** hnsw_add_bidirectional_link */
  method AddLink(nodes: seq<Node>, metric: (Vector, Vector) -> real, adj: Layer, src: nat, dst: nat, keep: nat)
    returns (r: Layer, ghost order: seq<Cand>)
    requires LayerOk(adj, |nodes|) && DegreesOk(adj, keep) && src < |nodes| && dst < |nodes| && |adj[src]| < keep
    ensures |r| == |adj| && LayerOk(r, |nodes|) && DegreesOk(r, keep)
    ensures forall x :: 0 <= x < |adj| && x != src && x != dst ==> r[x] == adj[x]
    ensures src != dst ==> r[src] == adj[src] + [dst]
    ensures src == dst ==> |r[src]| > 0 && forall x :: x in r[src] ==> x in adj[src] || x == src
    ensures Offered(Space(nodes, metric, nodes[dst].vector), if src == dst then adj[src] + [dst] else adj[dst], src, keep, r[dst], order)
  {
    r := adj[src := adj[src] + [dst]];
    var sp := Space(nodes, metric, nodes[dst].vector);
    var was := r[dst];
    var now;
    now, order := Offer(sp, was, src, keep);
    OfferedMembers(sp, was, src, keep, now, order);
    ghost var mid := r;
    assert LayerOk(mid, |nodes|);
    r := r[dst := now];
    forall x, k | 0 <= x < |r| && 0 <= k < |r[x]| ensures r[x][k] < |nodes| {
      if x == dst {
        assert now[k] in now;
        if now[k] in was { var m :| 0 <= m < |was| && was[m] == now[k]; assert mid[dst][m] < |nodes|; }
      }
    }
  }

  /** The node dst was offered a link to src: it took it, or kept the nearest of its links and the new one. */
  ghost predicate OfferedTo(nodes: seq<Node>, metric: (Vector, Vector) -> real, was: seq<nat>, src: nat, dst: nat, keep: nat, now: seq<nat>) {
    dst < |nodes| && exists order :: Offered(Space(nodes, metric, nodes[dst].vector), was, src, keep, now, order)
  }

  /** How a layer changes when the slot is linked: each node it links to was offered the link back, no other changes. */
  ghost predicate LayerLinked(nodes: seq<Node>, metric: (Vector, Vector) -> real, was: Layer, now: Layer, slot: nat, keep: nat) {
    slot < |was| == |now| &&
    forall x: nat :: x < |was| && x != slot ==>
      if x in now[slot] then OfferedTo(nodes, metric, was[x], slot, x, keep, now[x]) else now[x] == was[x]
  }

  ghost predicate NoRepeats(s: seq<nat>) {
    forall i, j :: 0 <= i < j < |s| ==> s[i] != s[j]
  }

  /** Lines 477-478: the new slot is linked with each node chosen. */
  method ConnectAll(nodes: seq<Node>, metric: (Vector, Vector) -> real, adj: Layer, slot: nat, dsts: seq<nat>, keep: nat)
    returns (r: Layer)
    requires LayerOk(adj, |nodes|) && DegreesOk(adj, keep) && slot < |nodes| && adj[slot] == [] && |dsts| <= keep
    requires forall i :: 0 <= i < |dsts| ==> dsts[i] < |nodes|
    requires NoRepeats(dsts) && (slot in dsts ==> |dsts| == 1)
    ensures |r| == |adj| && LayerOk(r, |nodes|) && DegreesOk(r, keep)
    ensures slot !in dsts ==> LayerLinked(nodes, metric, adj, r, slot, keep)
    ensures forall x: nat :: x < |adj| && x != slot && x !in dsts ==> r[x] == adj[x]
    ensures slot !in dsts ==> r[slot] == dsts
    ensures slot in dsts ==> |r[slot]| > 0 && forall x :: x in r[slot] ==> x == slot
  {
    r := adj;
    for i := 0 to |dsts|
      invariant |r| == |adj| && LayerOk(r, |nodes|) && DegreesOk(r, keep)
      invariant forall x: nat :: x < |adj| && x != slot && x !in dsts ==> r[x] == adj[x]
      invariant slot !in dsts ==> r[slot] == dsts[..i]
      invariant slot !in dsts ==> forall j :: 0 <= j < i ==> OfferedTo(nodes, metric, adj[dsts[j]], slot, dsts[j], keep, r[dsts[j]])
      invariant slot !in dsts ==> forall j :: i <= j < |dsts| ==> r[dsts[j]] == adj[dsts[j]]
      invariant slot in dsts ==> (i == 0 ==> r[slot] == []) && (i > 0 ==> |r[slot]| > 0) && forall x :: x in r[slot] ==> x == slot
    {
      assert dsts[i] in dsts;
      ghost var order;
      ghost var was := r;
      r, order := AddLink(nodes, metric, r, slot, dsts[i], keep);
      assert dsts[..i + 1] == dsts[..i] + [dsts[i]];
      if slot !in dsts {
        assert OfferedTo(nodes, metric, adj[dsts[i]], slot, dsts[i], keep, r[dsts[i]]);
        forall j | 0 <= j < i ensures OfferedTo(nodes, metric, adj[dsts[j]], slot, dsts[j], keep, r[dsts[j]]) {
          assert dsts[j] in dsts && r[dsts[j]] == was[dsts[j]];
        }
      }
    }
    assert dsts[..|dsts|] == dsts;
  }

  // ---- what the new slot can meet ------------------------------------------------------------------

  lemma {:induction false} OldStaysOld(sp: Space, adj: Layer, n: nat, entry: nat, p: seq<nat>)
    requires LayerOk(adj, n) && entry < n && IsPath(sp, adj, entry, p)
    ensures p[|p| - 1] < n
    decreases |p|
  {
    if |p| > 1 {
      OldStaysOld(sp, adj, n, entry, p[..|p| - 1]);
      var x := p[|p| - 2];
      var k :| 0 <= k < |adj[x]| && adj[x][k] == p[|p| - 1];
    }
  }

  lemma {:induction false} LonelyPath(sp: Space, adj: Layer, slot: nat, p: seq<nat>)
    requires slot < |adj| && adj[slot] == [] && IsPath(sp, adj, slot, p)
    ensures p == [slot]
    decreases |p|
  {
    if |p| > 1 { LonelyPath(sp, adj, slot, p[..|p| - 1]); }
  }

  /** A search from an old entry does not return the new slot: no link names it yet. */
  lemma NewSlotUnseen(sp: Space, adj: Layer, n: nat, entry: nat, ef: nat, out: seq<Cand>, seen: set<nat>, kept: set<nat>)
    requires LayerOk(adj, n) && entry < n && LayerResult(sp, adj, entry, ef, out, seen, kept)
    ensures forall k :: 0 <= k < |out| ==> out[k].node < n
  {
    forall k | 0 <= k < |out| ensures out[k].node < n {
      HoldsMember(out, sp, kept, out[k]);
      var p :| IsPath(sp, adj, entry, p) && p[|p| - 1] == out[k].node;
      OldStaysOld(sp, adj, n, entry, p);
    }
  }

  /** A search from the unlinked slot returns that slot alone. */
  lemma LonelySearch(sp: Space, adj: Layer, slot: nat, ef: nat, out: seq<Cand>, seen: set<nat>, kept: set<nat>)
    requires ef >= 1 && slot < |adj| && adj[slot] == [] && LayerResult(sp, adj, slot, ef, out, seen, kept)
    ensures |out| == 1 && out[0].node == slot
  {
    forall i | i in seen ensures i == slot {
      var p :| IsPath(sp, adj, slot, p) && p[|p| - 1] == i;
      LonelyPath(sp, adj, slot, p);
    }
    assert seen == {slot};
    SameCard(kept, seen);
    HoldsSize(out, sp, kept);
    HoldsMember(out, sp, kept, out[0]);
  }
}
