/** The workflow graph records the sort consumes: nodes and the directed connections
    between them, plus the id-to-node lookup the sort uses to turn ids back into nodes. */
module Workflow {
  import opened Wrappers
  import opened Seqs

  /** The kinds of node an editor can place, assumed from the persisted schema (not part of
      this model); the sort never inspects them. */
  datatype NodeType = Initial | ManualTrigger | HttpRequest

  /** A workflow node. Only `id` matters to the sort; the other fields are assumed from the
      persisted schema and travel through unchanged. */
  datatype Node = Node(
    id: string,
    workflowId: string,
    name: string,
    nodeType: NodeType,
    data: map<string, string>,
    position: (int, int))

  /** A directed connection: the output of `fromNodeId` feeds `toNodeId`. */
  datatype Connection = Connection(
    id: string,
    workflowId: string,
    fromNodeId: string,
    toNodeId: string)

  /** The ids of `ns`, position by position. */
  function Ids(ns: seq<Node>): (r: seq<string>)
    ensures |r| == |ns|
    ensures forall k :: 0 <= k < |ns| ==> r[k] == ns[k].id
  {
    seq(|ns|, k requires 0 <= k < |ns| => ns[k].id)
  }

  /** The set of ids of `ns`. */
  function IdSet(ns: seq<Node>): set<string> {
    set n | n in ns :: n.id
  }

  /** No two nodes share an id. */
  predicate DistinctIds(ns: seq<Node>) {
    NoDups(Ids(ns))
  }

  /** The node a `Map` built from `[node.id, node]` pairs returns for `id`: when several
      nodes share the id, the later entry overwrote the earlier ones, so the last one wins. */
  function Lookup(nodes: seq<Node>, id: string): (r: Option<Node>)
    ensures r.Some? <==> id in IdSet(nodes)
    ensures r.Some? ==> r.value in nodes && r.value.id == id
    ensures r.Some? ==> exists k :: 0 <= k < |nodes| && nodes[k] == r.value &&
                          forall j :: k < j < |nodes| ==> nodes[j].id != id
  {
    if nodes == [] then None
    else if nodes[|nodes| - 1].id == id then Some(nodes[|nodes| - 1])
    else
      var init := nodes[..|nodes| - 1];
      assert forall n :: n in nodes <==> n in init || n == nodes[|nodes| - 1];
      Lookup(init, id)
  }

  /** Maps each id to its node and drops the ids no node carries. */
  function ToNodes(ids: seq<string>, nodes: seq<Node>): (r: seq<Node>)
    ensures forall n :: n in r ==> n in nodes
    ensures forall k :: 0 <= k < |r| ==> Lookup(nodes, r[k].id) == Some(r[k])
    ensures |r| <= |ids|
  {
    if ids == [] then []
    else
      match Lookup(nodes, ids[0])
      case Some(n) => [n] + ToNodes(ids[1..], nodes)
      case None => ToNodes(ids[1..], nodes)
  }

  /** With distinct ids, the lookup of a node's id finds that very node. */
  lemma {:induction false} LookupDistinct(nodes: seq<Node>, k: nat)
    requires DistinctIds(nodes)
    requires k < |nodes|
    ensures Lookup(nodes, nodes[k].id) == Some(nodes[k])
  {
    var id := nodes[k].id;
    assert nodes[k] in nodes;
    var r := Lookup(nodes, id);
    var j :| 0 <= j < |nodes| && nodes[j] == r.value &&
             forall j' :: j < j' < |nodes| ==> nodes[j'].id != id;
    assert !(j < k);
    assert Ids(nodes)[k] == id && Ids(nodes)[j] == id;
    assert j == k;
  }

  /** The ids of the mapped nodes are exactly the known ids, in their original order. */
  lemma {:induction false} ToNodesIds(ids: seq<string>, nodes: seq<Node>)
    ensures Ids(ToNodes(ids, nodes)) == Restrict(ids, IdSet(nodes))
  {
    if ids != [] {
      ToNodesIds(ids[1..], nodes);
      var rest := ToNodes(ids[1..], nodes);
      match Lookup(nodes, ids[0])
      case Some(n) =>
        assert ToNodes(ids, nodes) == [n] + rest;
        assert Ids([n] + rest) == [n.id] + Ids(rest);
      case None =>
    }
  }

  /** When the nodes have distinct ids, a selection of them that carries every id holds
      every node. */
  lemma {:induction false} IdsDetermineNodes(out: seq<Node>, nodes: seq<Node>)
    requires DistinctIds(nodes)
    requires forall n :: n in out ==> n in nodes
    requires forall n :: n in nodes ==> n.id in Ids(out)
    ensures forall n :: n in nodes ==> n in out
  {
    forall n | n in nodes
      ensures n in out
    {
      var k :| 0 <= k < |nodes| && nodes[k] == n;
      var j := IndexOf(Ids(out), n.id);
      assert out[j] in nodes && out[j].id == n.id;
      var k' :| 0 <= k' < |nodes| && nodes[k'] == out[j];
      assert Ids(nodes)[k] == Ids(nodes)[k'];
    }
  }

  /** Nodes with distinct ids are distinct nodes. */
  lemma {:induction false} DistinctIdsNoDups(ns: seq<Node>)
    requires DistinctIds(ns)
    ensures NoDups(ns)
  {
    forall i, j | 0 <= i < j < |ns|
      ensures ns[i] != ns[j]
    {
      assert Ids(ns)[i] != Ids(ns)[j];
    }
  }
}
