/**
 * Numbered slots with a deletion mark, as both vector indexes keep them (src/vector/hnsw.c:413-581 and
 * src/vector/vector.c:40-46, 245-400): an id has at most one live slot, found by a scan.
 */
module Slots {
  import opened Keys

  type Vector = seq<real>

  datatype Node = Node(id: nat, vector: Vector, deleted: bool)

  predicate Live(nodes: seq<Node>, i: nat) {
    i < |nodes| && !nodes[i].deleted
  }

  ghost predicate HasLive(nodes: seq<Node>, id: nat) {
    exists i: nat :: Live(nodes, i) && nodes[i].id == id
  }

  /** The live slots hold exactly the pairs of the map, one slot per id. */
  ghost predicate NodesOk(nodes: seq<Node>, model: map<nat, Vector>) {
    (forall i: nat :: Live(nodes, i) ==> nodes[i].id in model && model[nodes[i].id] == nodes[i].vector) &&
    (forall i: nat, j: nat :: Live(nodes, i) && Live(nodes, j) && nodes[i].id == nodes[j].id ==> i == j) &&
    (forall id :: id in model ==> HasLive(nodes, id))
  }

  lemma UpdateNodes(nodes: seq<Node>, model: map<nat, Vector>, i: nat, v: Vector)
    requires NodesOk(nodes, model) && Live(nodes, i)
    ensures NodesOk(nodes[i := nodes[i].(vector := v)], model[nodes[i].id := v])
  {
    var now, m := nodes[i := nodes[i].(vector := v)], model[nodes[i].id := v];
    forall id | id in m ensures HasLive(now, id) {
      assert HasLive(nodes, id);
      var j: nat :| Live(nodes, j) && nodes[j].id == id;
      assert Live(now, j) && now[j].id == id;
    }
    assert forall j: nat :: Live(now, j) ==> Live(nodes, j) && nodes[j].id == now[j].id;
  }

  lemma AppendNode(nodes: seq<Node>, model: map<nat, Vector>, x: Node)
    requires NodesOk(nodes, model) && x.id !in model && !x.deleted
    ensures NodesOk(nodes + [x], model[x.id := x.vector])
  {
    var now, m := nodes + [x], model[x.id := x.vector];
    assert Live(now, |nodes|);
    forall id | id in m ensures HasLive(now, id) {
      if id == x.id {
        assert now[|nodes|].id == id;
      } else {
        assert HasLive(nodes, id);
        var j: nat :| Live(nodes, j) && nodes[j].id == id;
        assert Live(now, j) && now[j].id == id;
      }
    }
    assert forall j: nat :: Live(now, j) && j != |nodes| ==> Live(nodes, j) && nodes[j] == now[j];
  }

  lemma DropNode(nodes: seq<Node>, model: map<nat, Vector>, i: nat)
    requires NodesOk(nodes, model) && Live(nodes, i)
    ensures NodesOk(nodes[i := nodes[i].(deleted := true)], model - {nodes[i].id})
  {
    var now, m := nodes[i := nodes[i].(deleted := true)], model - {nodes[i].id};
    forall id | id in m ensures HasLive(now, id) {
      assert HasLive(nodes, id);
      var j: nat :| Live(nodes, j) && nodes[j].id == id;
      assert Live(now, j) && now[j].id == id;
    }
    assert forall j: nat :: Live(now, j) ==> Live(nodes, j) && nodes[j] == now[j] && j != i;
  }

  /** The scan for a live slot with the id (vec_find_idx; src/vector/hnsw.c:418-424, 546-547, 573-574). */
  method FindSlot(nodes: seq<Node>, id: nat, ghost model: map<nat, Vector>) returns (r: Option<nat>)
    requires NodesOk(nodes, model)
    ensures r == None <==> id !in model
    ensures r.Some? ==> Live(nodes, r.value) && nodes[r.value].id == id && model[id] == nodes[r.value].vector
  {
    for i := 0 to |nodes|
      invariant forall j: nat :: j < i && Live(nodes, j) ==> nodes[j].id != id
    {
      if nodes[i].id == id && !nodes[i].deleted {
        assert Live(nodes, i);
        return Some(i);
      }
    }
    r := None;
    assert id in model ==> HasLive(nodes, id);
  }
}
