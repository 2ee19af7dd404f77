/**
 * The operations of the HNSW index (src/vector/hnsw.c:113-139 and 346-595) as one object. Valid() is what
 * every run of inserts, deletes and searches keeps; `model` is the map of live ids to vectors.
 */
module HnswIndex {
  import opened Keys
  import opened Slots
  import opened Heaps
  import opened HnswSearch
  import opened Hnsw

  /** The entry point is a live slot, or -1 and no slot is live. */
  ghost predicate EntryOk(nodes: seq<Node>, entry: int) {
    if entry == -1 then forall i: nat :: !Live(nodes, i) else entry >= 0 && Live(nodes, entry)
  }

  /** Layers added by hnsw_ensure_layers: no links at all. */
  function Grown(links: seq<Layer>, cap: nat, level: nat): (r: seq<Layer>)
    ensures |r| == (if level < |links| then |links| else level + 1)
    ensures forall l :: 0 <= l < |links| ==> r[l] == links[l]
    ensures forall l, x :: |links| <= l < |r| && 0 <= x < cap ==> |r[l]| == cap && r[l][x] == []
    ensures forall l :: |links| <= l < |r| ==> |r[l]| == cap
  {
    if level < |links| then links
    else links + seq(level + 1 - |links|, _ => seq<seq<nat>>(cap, _ => []))
  }

  lemma LayerFits(links: seq<Layer>, M: nat, cap: nat, n: nat, l: nat)
    requires LinksOk(links, M, cap, n) && l < |links|
    ensures LayerOk(links[l], n) && |links[l]| == cap
  {
    assert LinksAt(links, M, cap, n, l);
  }

  lemma MarkedTags(marks: seq<int>, tag: int, cap: nat, seen: set<nat>)
    requires Marked(marks, tag, seen) && |marks| == cap && 0 <= tag <= 0x7fff_ffff
    ensures TagsOk(marks, tag, cap)
  {
  }

  lemma GrownOk(links: seq<Layer>, M: nat, cap: nat, n: nat, level: nat)
    requires LinksOk(links, M, cap, n) && n <= cap
    ensures LinksOk(Grown(links, cap, level), M, cap, n)
  {
    var g := Grown(links, cap, level);
    forall l: nat {:trigger LinksAt(g, M, cap, n, l)} | l < |g| ensures LinksAt(g, M, cap, n, l) {
      if l < |links| {
        assert LinksAt(links, M, cap, n, l);
      }
    }
  }

  lemma MoreSlots(links: seq<Layer>, M: nat, cap: nat, n: nat)
    requires LinksOk(links, M, cap, n) && n < cap
    ensures LinksOk(links, M, cap, n + 1)
  {
    forall l: nat {:trigger LinksAt(links, M, cap, n + 1, l)} | l < |links| ensures LinksAt(links, M, cap, n + 1, l) {
      assert LinksAt(links, M, cap, n, l);
    }
  }

  lemma LayerReplaced(links: seq<Layer>, M: nat, cap: nat, n: nat, l: nat, adj: Layer)
    requires LinksOk(links, M, cap, n) && l < |links| && |adj| == cap && LayerOk(adj, n) && DegreesOk(adj, Keep(M, l))
    requires forall x :: n <= x < cap ==> adj[x] == []
    ensures LinksOk(links[l := adj], M, cap, n)
  {
    var now := links[l := adj];
    forall k: nat {:trigger LinksAt(now, M, cap, n, k)} | k < |now| ensures LinksAt(now, M, cap, n, k) {
      if k != l { assert LinksAt(links, M, cap, n, k); }
    }
  }

  /**
   * What an insert of a new element at `level` does to the links: the layer of its level is searched and linked;
   * on the layers below the new slot is linked only with itself, and no other slot is touched, because the
   * search there starts from the slot itself (line 483).
   */
  ghost predicate Linked(was: seq<Layer>, now: seq<Layer>, slot: nat, level: nat) {
    |was| == |now| && level < |now| &&
    (forall l :: level < l < |now| ==> now[l] == was[l]) &&
    (forall l: nat :: l < level ==> SelfLinked(was, now, slot, l))
  }

  ghost predicate SelfLinked(was: seq<Layer>, now: seq<Layer>, slot: nat, l: nat)
    requires l < |was| == |now|
  {
    slot < |was[l]| == |now[l]| && |now[l][slot]| > 0 && (forall x :: x in now[l][slot] ==> x == slot) &&
    forall x: nat :: x < |now[l]| && x != slot ==> now[l][x] == was[l][x]
  }

  ghost predicate StepAt(sp: Space, links: seq<Layer>, trail: seq<nat>, i: nat) {
    0 < i < |trail| <= |links| + 1 && GreedyEnd(sp, links[|links| - i], trail[i - 1], trail[i])
  }

  /** Each node of the trail is where the greedy search from the one before ends, one layer further down. */
  ghost predicate Trail(sp: Space, links: seq<Layer>, trail: seq<nat>) {
    0 < |trail| <= |links| + 1 &&
    forall i: nat {:trigger StepAt(sp, links, trail, i)} :: 0 < i < |trail| ==> StepAt(sp, links, trail, i)
  }

  /** The trail of a descent: from the entry point on the top layer down to the bottom one. */
  ghost predicate Descent(sp: Space, links: seq<Layer>, entry: int, bottom: nat, trail: seq<nat>) {
    Trail(sp, links, trail) && trail[0] == entry && |trail| == 1 + if bottom < |links| then |links| - bottom else 0
  }

  lemma TrailGrows(sp: Space, links: seq<Layer>, trail: seq<nat>, best: nat)
    requires Trail(sp, links, trail) && |trail| <= |links| && GreedyEnd(sp, links[|links| - |trail|], trail[|trail| - 1], best)
    ensures Trail(sp, links, trail + [best])
  {
    var now := trail + [best];
    forall i: nat {:trigger StepAt(sp, links, now, i)} | 0 < i < |now| ensures StepAt(sp, links, now, i) {
      if i < |trail| { assert StepAt(sp, links, trail, i); }
    }
  }

  /** A descent takes the only trail there is. */
  lemma {:induction false} DescentUnique(sp: Space, links: seq<Layer>, a: seq<nat>, b: seq<nat>, i: nat)
    requires Trail(sp, links, a) && Trail(sp, links, b) && a[0] == b[0] && i < |a| && i < |b|
    ensures a[i] == b[i]
  {
    if i > 0 {
      DescentUnique(sp, links, a, b, i - 1);
      assert StepAt(sp, links, a, i) && StepAt(sp, links, b, i);
      GreedyUnique(sp, links[|links| - i], a[i - 1], a[i], b[i]);
    }
  }

  /** On its way down a descent comes no farther from the query, by live nodes. */
  lemma {:induction false} DescentCloser(sp: Space, links: seq<Layer>, trail: seq<nat>, i: nat)
    requires Trail(sp, links, trail) && Live(sp.nodes, trail[0]) && i < |trail|
    ensures Live(sp.nodes, trail[i]) && Dist(sp, trail[i]) <= Dist(sp, trail[0])
  {
    if i > 0 {
      DescentCloser(sp, links, trail, i - 1);
      assert StepAt(sp, links, trail, i);
      GreedyReaches(sp, links[|links| - i], trail[i - 1], trail[i]);
    }
  }

  /** A layer-0 search from where the descent from the entry point ends. */
  ghost predicate FoundFrom(sp: Space, links: seq<Layer>, entry: int, ef: nat, out: seq<Cand>, trail: seq<nat>, seen: set<nat>, kept: set<nat>) {
    |links| > 0 && Descent(sp, links, entry, 1, trail) && Live(sp.nodes, trail[|trail| - 1]) &&
    LayerResult(sp, links[0], trail[|trail| - 1], ef, out, seen, kept) && BestFirst(sp, links[0], trail[|trail| - 1], ef, seen, kept)
  }

  /** Distinct live nodes, in ascending order of their distances. */
  ghost predicate FoundLive(sp: Space, out: seq<Cand>) {
    |out| > 0 && SortedByDist(out) &&
    (forall k :: 0 <= k < |out| ==> Live(sp.nodes, out[k].node) && out[k].dist == Dist(sp, out[k].node)) &&
    forall i, j :: 0 <= i < j < |out| ==> out[i].node != out[j].node
  }

  class Index {
    const M: nat
    const cap: nat
    const efConstruction: nat
    const efSearch: int
    const metric: (Vector, Vector) -> real
    var nodes: seq<Node>
    var links: seq<Layer>
    var entry: int
    var visited: seq<int>
    var visitTag: int
    ghost var model: map<nat, Vector>

    ghost predicate Valid()
      reads this
    {
      M > 0 && efConstruction > 0 && |nodes| <= cap && LinksOk(links, M, cap, |nodes|) &&
      NodesOk(nodes, model) && EntryOk(nodes, entry) && (|nodes| > 0 ==> |links| > 0) &&
      TagsOk(visited, visitTag, cap)
    }

    function View(q: Vector): (sp: Space)
      reads this
    {
      Space(nodes, metric, q)
    }

    /** hnsw_create */
    constructor (M: nat, efConstruction: nat, efSearch: int, cap: nat, metric: (Vector, Vector) -> real)
      requires M > 0 && cap > 0 && efConstruction > 0
      ensures Valid() && model == map[] && this.cap == cap
    {
      this.M, this.cap, this.efConstruction, this.efSearch, this.metric := M, cap, efConstruction, efSearch, metric;
      nodes, links, entry, visited, visitTag, model := [], [], -1, seq(cap, _ => 0), 0, map[];
    }

    /** Lines 185-189: a tag that no cell holds; when the 32-bit counter wraps, the cells are cleared. */
    method FreshTag()
      requires TagsOk(visited, visitTag, cap)
      modifies this`visited, this`visitTag
      ensures TagsOk(visited, visitTag, cap) && Marked(visited, visitTag, {})
    {
      visitTag := if visitTag == MAX_INT then -MAX_INT - 1 else visitTag + 1;
      if visitTag <= 0 {
        visited, visitTag := seq(cap, _ => 0), 1;
      }
    }

    /** hnsw_search_layer on one of the layers */
    method SearchAt(l: nat, from: nat, q: Vector, ef: nat) returns (out: seq<Cand>, ghost seen: set<nat>, ghost kept: set<nat>)
      requires Valid() && ef >= 1 && from < |nodes| && l < |links|
      modifies this`visited, this`visitTag
      ensures Valid() && Marked(visited, visitTag, seen)
      ensures LayerResult(View(q), links[l], from, ef, out, seen, kept) && BestFirst(View(q), links[l], from, ef, seen, kept)
    {
      FreshTag();
      LayerFits(links, M, cap, |nodes|, l);
      var marks;
      out, marks, seen, kept := SearchLayer(View(q), links[l], visited, visitTag, from, ef);
      MarkedTags(marks, visitTag, cap, seen);
      visited := marks;
    }

    /** hnsw_get */
    method Get(id: nat) returns (r: Option<Vector>)
      requires Valid()
      ensures r == if id in model then Some(model[id]) else None
    {
      var s := FindSlot(nodes, id, model);
      r := if s == None then None else Some(nodes[s.value].vector);
    }

    /** hnsw_count */
    method Count() returns (c: nat)
      requires Valid()
      ensures c == |model|
    {
      c := 0;
      ghost var ids: set<nat> := {};
      for i := 0 to |nodes|
        invariant |ids| == c
        invariant forall id :: id in ids ==> exists j: nat :: j < i && Live(nodes, j) && nodes[j].id == id
        invariant forall j: nat :: j < i && Live(nodes, j) ==> nodes[j].id in ids
      {
        if !nodes[i].deleted {
          assert Live(nodes, i);
          assert nodes[i].id !in ids;
          ids := ids + {nodes[i].id};
          c := c + 1;
        }
      }
      forall id | id in model ensures id in ids { assert HasLive(nodes, id); }
      assert ids == model.Keys;
      assert |model.Keys| == |model|;
    }

    /** hnsw_delete: a deleted entry point is replaced by the first live slot. */
    method Delete(id: nat) returns (status: Status)
      requires Valid()
      modifies this`nodes, this`entry, this`model
      ensures Valid()
      ensures status == if id in old(model) then Ok else NotFound
      ensures model == old(model) - {id}
      ensures DeletedAt(old(nodes), nodes, old(entry), entry, id)
    {
      var s := FindSlot(nodes, id, model);
      if s == None {
        assert model == model - {id};
        return NotFound;
      }
      var i := s.value;
      DropNode(nodes, model, i);
      var now, next := nodes[i := nodes[i].(deleted := true)], entry;
      if i == entry { next := FirstLive(now); }
      nodes, entry, model := now, next, model - {id};
      status := Ok;
    }

    /** The greedy descent through the layers from the top to the given bottom (lines 457-458, 512-513); it stays
        among the slots that links name. */
    method DescendTo(bottom: nat, q: Vector, ghost n: nat) returns (at: nat, ghost trail: seq<nat>)
      requires Valid() && 0 <= entry < n <= |nodes| && LinksOk(links, M, cap, n)
      ensures Live(nodes, at) && at < n
      ensures Descent(View(q), links, entry, bottom, trail) && trail[|trail| - 1] == at
    {
      at := entry;
      var l := |links|;
      trail := [at];
      while l > bottom
        invariant Live(nodes, at) && at < n && 0 <= l <= |links| && (l < bottom ==> l == |links|)
        invariant |trail| == |links| - l + 1 && trail[0] == entry && trail[|trail| - 1] == at
        invariant Trail(View(q), links, trail)
      {
        l := l - 1;
        var best := StepDown(l, at, q, n);
        TrailGrows(View(q), links, trail, best);
        trail := trail + [best];
        at := best;
      }
    }

    /** One layer of the descent. */
    method StepDown(l: nat, at: nat, q: Vector, ghost n: nat) returns (best: nat)
      requires Valid() && l < |links| && n <= |nodes| && LinksOk(links, M, cap, n) && Live(nodes, at) && at < n
      ensures Live(nodes, best) && best < n && GreedyEnd(View(q), links[l], at, best)
    {
      LayerFits(links, M, cap, |nodes|, l);
      LayerFits(links, M, cap, n, l);
      best := Greedy(View(q), links[l], at);
      StaysOld(View(q), links[l], n, at, best);
    }

    /** Lines 508-525: a layer-0 search from the node the descent ends at; it finds live nodes, at least one. */
    method SearchDown(q: Vector, ef: nat) returns (out: seq<Cand>, ghost trail: seq<nat>, ghost seen: set<nat>, ghost kept: set<nat>)
      requires Valid() && entry >= 0 && ef >= 1
      modifies this`visited, this`visitTag
      ensures Valid()
      ensures FoundFrom(View(q), links, entry, ef, out, trail, seen, kept) && FoundLive(View(q), out)
    {
      var at;
      at, trail := DescendTo(1, q, |nodes|);
      out, seen, kept := SearchAt(0, at, q, ef);
      AllLive(View(q), links[0], at, ef, out, seen, kept);
      AllDistinct(out, View(q), kept);
    }

    /** hnsw_search: the nearest k of what is found, by id. */
    method Search(q: Vector, k: int)
      returns (r: seq<(nat, real)>, ghost out: seq<Cand>, ghost trail: seq<nat>, ghost seen: set<nat>, ghost kept: set<nat>)
      requires Valid()
      modifies this`visited, this`visitTag
      ensures Valid()
      ensures r == [] <==> k <= 0 || model == map[]
      ensures r != [] ==> FoundFrom(View(q), links, entry, if efSearch < k then k else efSearch, out, trail, seen, kept) &&
                          |r| == (if |out| < k then |out| else k) &&
                          forall i :: 0 <= i < |r| ==> out[i].node < |nodes| && r[i] == (nodes[out[i].node].id, out[i].dist)
      ensures forall i :: 0 <= i < |r| ==> r[i].0 in model && r[i].1 == metric(q, model[r[i].0])
      ensures forall i, j :: 0 <= i < j < |r| ==> r[i].0 != r[j].0 && r[i].1 <= r[j].1
    {
      r, out, trail, seen, kept := [], [], [], {}, {};
      if k <= 0 { return; }
      if entry < 0 {
        EmptyModel(nodes, model);
        return;
      }
      assert nodes[entry].id in model;
      var found;
      found, trail, seen, kept := SearchDown(q, if efSearch < k then k else efSearch);
      out := found;
      var n := if |found| < k then |found| else k;
      r := FirstIds(nodes, found, n);
    }

    /** Lines 470-478: searches a layer and links the newest slot with the nearest nodes found. */
    method ConnectAt(l: nat, from: nat, v: Vector, ghost slot: nat)
      returns (ghost out: seq<Cand>, ghost seen: set<nat>, ghost kept: set<nat>)
      requires Valid() && |nodes| == slot + 1 && l < |links| && from <= slot && LinksAt(links, M, cap, slot, l)
      modifies this`links, this`visited, this`visitTag
      ensures Valid() && |links| == |old(links)|
      ensures forall k :: 0 <= k < |links| && k != l ==> links[k] == old(links)[k]
      ensures from == slot ==> SelfLinked(old(links), links, slot, l)
      ensures LayerResult(View(v), old(links)[l], from, efConstruction, out, seen, kept)
      ensures BestFirst(View(v), old(links)[l], from, efConstruction, seen, kept)
      ensures from < slot ==> LinksToNearest(links[l], slot, out, Keep(M, l))
      ensures from < slot ==> LayerLinked(nodes, metric, old(links)[l], links[l], slot, Keep(M, l))
    {
      ghost var was := links;
      var sp := View(v);
      var found;
      found, seen, kept := SearchAt(l, from, v, efConstruction);
      out := found;
      assert BestFirst(sp, was[l], from, efConstruction, seen, kept);
      var now := LinkNewest(sp, links, M, cap, l, from, efConstruction, found, seen, kept);
      links := now;
      assert View(v) == sp;
    }

    /** Lines 460-484: the layers from the level of the newest slot down to 0. */
    method ConnectDown(level: nat, at: nat, v: Vector, ghost slot: nat)
      returns (ghost out: seq<Cand>, ghost seen: set<nat>, ghost kept: set<nat>)
      requires Valid() && |nodes| == slot + 1 && level < |links| && at < slot && LinksOk(links, M, cap, slot)
      modifies this`links, this`visited, this`visitTag
      ensures Valid() && Linked(old(links), links, slot, level)
      ensures LayerResult(View(v), old(links)[level], at, efConstruction, out, seen, kept)
      ensures BestFirst(View(v), old(links)[level], at, efConstruction, seen, kept)
      ensures LinksToNearest(links[level], slot, out, Keep(M, level))
      ensures LayerLinked(nodes, metric, old(links)[level], links[level], slot, Keep(M, level))
    {
      assert LinksAt(links, M, cap, slot, level);
      out, seen, kept := ConnectAt(level, at, v, slot);
      var l := level;
      while l > 0
        invariant 0 <= l <= level && Valid() && |links| == |old(links)|
        invariant forall k :: 0 <= k < l || level < k < |links| ==> links[k] == old(links)[k]
        invariant forall k: nat {:trigger SelfLinked(old(links), links, slot, k)} :: l <= k < level ==> SelfLinked(old(links), links, slot, k)
        invariant LinksToNearest(links[level], slot, out, Keep(M, level))
        invariant LayerLinked(nodes, metric, old(links)[level], links[level], slot, Keep(M, level))
      {
        l := l - 1;
        ghost var mid := links;
        assert links[l] == old(links)[l];
        assert LinksAt(old(links), M, cap, slot, l);
        var o, s, k := ConnectAt(l, |nodes| - 1, v, slot);
        forall k: nat {:trigger SelfLinked(old(links), links, slot, k)} | l <= k < level ensures SelfLinked(old(links), links, slot, k) {
          if k > l { assert SelfLinked(old(links), mid, slot, k); } else { assert SelfLinked(mid, links, slot, l); }
        }
      }
    }

    /** hnsw_insert */
    method Insert(id: nat, v: Vector, level: nat)
      returns (status: Status, ghost out: seq<Cand>, ghost trail: seq<nat>, ghost seen: set<nat>, ghost kept: set<nat>)
      requires Valid()
      modifies this
      ensures Valid()
      ensures status == if id in old(model) || |old(nodes)| < cap then Ok else Full
      ensures model == if status == Ok then old(model)[id := v] else old(model)
      ensures status == Full || id in old(model) ==> links == old(links) && |nodes| == |old(nodes)| && entry == old(entry)
      ensures id !in old(model) && status == Ok ==> nodes == old(nodes) + [Node(id, v, false)]
      ensures id !in old(model) && status == Ok ==> entry == if old(entry) < 0 then |old(nodes)| else old(entry)
      ensures id !in old(model) && status == Ok && old(entry) < 0 ==> links == Grown(old(links), cap, level)
      ensures id !in old(model) && status == Ok && old(entry) >= 0 ==>
                NewLinks(Grown(old(links), cap, level), links, View(v), entry, |old(nodes)|, level, M, efConstruction, out, trail, seen, kept)
    {
      out, trail, seen, kept := [], [], {}, {};
      var s := FindSlot(nodes, id, model);
      if s.Some? {
        UpdateNodes(nodes, model, s.value, v);
        nodes, model := nodes[s.value := nodes[s.value].(vector := v)], model[id := v];
        status := Ok;
      } else if |nodes| >= cap {
        status := Full;
      } else {
        status := Ok;
        AppendNode(nodes, model, Node(id, v, false));
        out, trail, seen, kept := InsertNew(Node(id, v, false), level);
      }
    }

    /** Lines 429-492 */
    method InsertNew(x: Node, level: nat) returns (ghost out: seq<Cand>, ghost trail: seq<nat>, ghost seen: set<nat>, ghost kept: set<nat>)
      requires Valid() && x.id !in model && !x.deleted && |nodes| < cap
      modifies this
      ensures Valid() && model == old(model)[x.id := x.vector] && nodes == old(nodes) + [x]
      ensures entry == if old(entry) < 0 then |old(nodes)| else old(entry)
      ensures old(entry) < 0 ==> links == Grown(old(links), cap, level)
      ensures old(entry) >= 0 ==>
                NewLinks(Grown(old(links), cap, level), links, View(x.vector), entry, |old(nodes)|, level, M, efConstruction, out, trail, seen, kept)
    {
      out, trail, seen, kept := [], [], {}, {};
      AppendNode(nodes, model, x);
      GrownOk(links, M, cap, |nodes|, level);
      var grown := Grown(links, cap, level);
      MoreSlots(grown, M, cap, |nodes|);
      if entry < 0 {
        nodes, model, links, entry := nodes + [x], model[x.id := x.vector], grown, |nodes|;
        return;
      }
      AtOld(nodes, x, entry);
      nodes, model, links := nodes + [x], model[x.id := x.vector], grown;
      out, trail, seen, kept := LinkIn(level, x.vector, |nodes| - 1);
    }

    /** Lines 454-484: the descent, and the links of the newest slot. */
    method LinkIn(level: nat, v: Vector, ghost slot: nat)
      returns (ghost out: seq<Cand>, ghost trail: seq<nat>, ghost seen: set<nat>, ghost kept: set<nat>)
      requires Valid() && 0 <= entry < slot && |nodes| == slot + 1 && level < |links| && LinksOk(links, M, cap, slot)
      modifies this`links, this`visited, this`visitTag
      ensures Valid() && NewLinks(old(links), links, View(v), entry, slot, level, M, efConstruction, out, trail, seen, kept)
    {
      var at;
      at, trail := DescendTo(level + 1, v, slot);
      out, seen, kept := ConnectDown(level, at, v, slot);
    }
  }

  /** What the insertion of a further element does to the links: from where the descent ends, the layer of its level is
      searched, and the slot is linked with the nearest results, 2 M of them on layer 0 and M above. */
  ghost predicate NewLinks(was: seq<Layer>, now: seq<Layer>, sp: Space, entry: int, slot: nat, level: nat, M: nat, ef: nat,
                           out: seq<Cand>, trail: seq<nat>, seen: set<nat>, kept: set<nat>)
  {
    var keep := if level == 0 then 2 * M else M;
    Linked(was, now, slot, level) && Descent(sp, was, entry, level + 1, trail) && trail[|trail| - 1] < slot &&
    LayerResult(sp, was[level], trail[|trail| - 1], ef, out, seen, kept) &&
    BestFirst(sp, was[level], trail[|trail| - 1], ef, seen, kept) && LinksToNearest(now[level], slot, out, keep) &&
    LayerLinked(sp.nodes, sp.metric, was[level], now[level], slot, keep)
  }

  /** The slot is linked with the nearest results, as many as it may keep. */
  ghost predicate LinksToNearest(adj: Layer, slot: nat, out: seq<Cand>, keep: nat) {
    slot < |adj| && adj[slot] == Links(out[..if |out| < keep then |out| else keep])
  }

  lemma StaysOld(sp: Space, adj: Layer, n: nat, entry: nat, i: nat)
    requires LayerOk(adj, n) && entry < n && GreedyEnd(sp, adj, entry, i)
    ensures i < n
  {
    GreedyReaches(sp, adj, entry, i);
    var p :| IsPath(sp, adj, entry, p) && p[|p| - 1] == i;
    OldStaysOld(sp, adj, n, entry, p);
  }

  /** Lines 474-478: the newest slot is linked with the results of the search. */
  method LinkNewest(sp: Space, links: seq<Layer>, M: nat, cap: nat, l: nat, from: nat, ghost ef: nat, found: seq<Cand>,
                    ghost seen: set<nat>, ghost kept: set<nat>) returns (r: seq<Layer>)
    requires M > 0 && ef > 0 && 0 < |sp.nodes| <= cap && l < |links| && from < |sp.nodes|
    requires LinksOk(links, M, cap, |sp.nodes|) && LinksAt(links, M, cap, |sp.nodes| - 1, l)
    requires LayerResult(sp, links[l], from, ef, found, seen, kept)
    ensures |r| == |links| && LinksOk(r, M, cap, |sp.nodes|)
    ensures forall k :: 0 <= k < |links| && k != l ==> r[k] == links[k]
    ensures from == |sp.nodes| - 1 ==> SelfLinked(links, r, from, l)
    ensures from < |sp.nodes| - 1 ==> LinksToNearest(r[l], |sp.nodes| - 1, found, Keep(M, l))
    ensures from < |sp.nodes| - 1 ==> LayerLinked(sp.nodes, sp.metric, links[l], r[l], |sp.nodes| - 1, Keep(M, l))
  {
    AllDistinct(found, sp, kept);
    var slot := |sp.nodes| - 1;
    var n := if |found| < Keep(M, l) then |found| else Keep(M, l);
    var dsts := Links(found[..n]);
    if from == slot {
      LonelySearch(sp, links[l], slot, ef, found, seen, kept);
      assert dsts == [slot];
    } else {
      NewSlotUnseen(sp, links[l], slot, from, ef, found, seen, kept);
      assert slot !in dsts;
    }
    assert LinksAt(links, M, cap, |sp.nodes|, l);
    var adj := ConnectAll(sp.nodes, sp.metric, links[l], slot, dsts, Keep(M, l));
    LayerReplaced(links, M, cap, |sp.nodes|, l, adj);
    r := links[l := adj];
  }

  lemma AtOld(nodes: seq<Node>, x: Node, entry: int)
    requires 0 <= entry && Live(nodes, entry)
    ensures Live(nodes + [x], entry)
  {
  }

  ghost predicate TagsOk(visited: seq<int>, tag: int, cap: nat) {
    |visited| == cap && 0 <= tag <= 0x7fff_ffff && forall i :: 0 <= i < cap ==> 0 <= visited[i] <= tag
  }

  /** Lines 551-557 */
  method FirstLive(nodes: seq<Node>) returns (j: int)
    ensures EntryOk(nodes, j) && IsFirstLive(nodes, j)
  {
    for i := 0 to |nodes|
      invariant forall j: nat :: j < i ==> !Live(nodes, j)
    {
      if !nodes[i].deleted { return i; }
    }
    j := -1;
  }

  ghost predicate IsFirstLive(nodes: seq<Node>, j: int) {
    forall i: nat :: Live(nodes, i) ==> 0 <= j <= i
  }

  /** The live slot of the id, if there is one, is marked; the entry point moves only if it was there. */
  ghost predicate DeletedAt(was: seq<Node>, now: seq<Node>, entry0: int, entry: int, id: nat) {
    |now| == |was| &&
    (forall i :: 0 <= i < |was| ==> now[i] == if was[i].id == id then was[i].(deleted := true) else was[i]) &&
    if 0 <= entry0 < |was| && was[entry0].id == id then IsFirstLive(now, entry) else entry == entry0
  }

  lemma EmptyModel(nodes: seq<Node>, model: map<nat, Vector>)
    requires NodesOk(nodes, model) && forall i: nat :: !Live(nodes, i)
    ensures model == map[]
  {
    assert forall id :: !HasLive(nodes, id);
    assert forall id :: id !in model;
  }

  lemma {:induction false} PathLive(sp: Space, adj: Layer, entry: nat, p: seq<nat>)
    requires Live(sp.nodes, entry) && IsPath(sp, adj, entry, p)
    ensures Live(sp.nodes, p[|p| - 1])
  {
  }

  /** The ids and distances of the first n results. */
  method FirstIds(nodes: seq<Node>, found: seq<Cand>, n: nat) returns (r: seq<(nat, real)>)
    requires n <= |found| && forall i :: 0 <= i < |found| ==> found[i].node < |nodes|
    ensures |r| == n && forall i :: 0 <= i < n ==> r[i] == (nodes[found[i].node].id, found[i].dist)
  {
    r := [];
    for i := 0 to n
      invariant |r| == i && forall j :: 0 <= j < i ==> r[j] == (nodes[found[j].node].id, found[j].dist)
    {
      r := r + [(nodes[found[i].node].id, found[i].dist)];
    }
  }

  /** A search from a live node returns live nodes only, at least one. */
  lemma AllLive(sp: Space, adj: Layer, entry: nat, ef: nat, out: seq<Cand>, seen: set<nat>, kept: set<nat>)
    requires ef >= 1 && Live(sp.nodes, entry) && LayerResult(sp, adj, entry, ef, out, seen, kept)
    ensures |out| > 0
    ensures forall k :: 0 <= k < |out| ==> Live(sp.nodes, out[k].node) && out[k].dist == Dist(sp, out[k].node)
  {
    HoldsSize(out, sp, kept);
    assert {entry} <= seen;
    assert |seen - {entry}| == |seen| - 1;
    forall k | 0 <= k < |out| ensures Live(sp.nodes, out[k].node) && out[k].dist == Dist(sp, out[k].node) {
      HoldsMember(out, sp, kept, out[k]);
      var p :| IsPath(sp, adj, entry, p) && p[|p| - 1] == out[k].node;
      PathLive(sp, adj, entry, p);
    }
  }

  lemma AllDistinct(out: seq<Cand>, sp: Space, kept: set<nat>)
    requires Holds(out, sp, kept)
    ensures forall i, j :: 0 <= i < j < |out| ==> out[i].node != out[j].node
  {
    forall i, j | 0 <= i < j < |out| ensures out[i].node != out[j].node {
      HoldsMember(out, sp, kept, out[i]);
      HoldsMember(out, sp, kept, out[j]);
      var a, b := out[..j], out[j..];
      assert out == a + b && a[i] == out[i] && b[0] == out[j];
      assert out[i] in a && out[j] in b;
      assert multiset(out)[out[j]] == multiset(a)[out[j]] + multiset(b)[out[j]];
      assert multiset(Cands(sp, kept))[out[j]] <= 1;
    }
  }
}
