/** `topologicalSort(nodes, connections)` from src/inngest/utils.ts: the linearizer that turns
    a workflow graph into an execution order.

    With no connections the nodes come back as given. Otherwise every connection becomes an
    edge, and every node that no connection mentions is added as a plain vertex. (The code
    adds a self-edge `[id, id]` instead, which is a cycle; see `TopologicalSortAsWritten`.)
    The ids are sorted topologically, duplicates are removed, and each id is mapped back to
    its node, dropping ids that no node carries. A cycle makes the sort fail. */
module TopoSort {
  import opened Wrappers
  import opened Seqs
  import opened Graph
  import opened Workflow

  /** One edge `fromNodeId -> toNodeId` per connection, in connection order. */
  function EdgesOf(connections: seq<Connection>): (es: seq<Edge>)
    ensures |es| == |connections|
    ensures forall k :: 0 <= k < |es| ==> es[k] == Edge(connections[k].fromNodeId, connections[k].toNodeId)
    ensures forall c :: c in connections ==> Edge(c.fromNodeId, c.toNodeId) in es
  {
    if connections == [] then []
    else [Edge(connections[0].fromNodeId, connections[0].toNodeId)] + EdgesOf(connections[1..])
  }

  /** The ids of the nodes that no edge mentions, in node order. */
  function IsolatedIds(nodes: seq<Node>, connected: seq<string>): (r: seq<string>)
    ensures forall x :: x in r <==> x in IdSet(nodes) && x !in connected
  {
    if nodes == [] then []
    else
      assert forall n :: n in nodes <==> n == nodes[0] || n in nodes[1..];
      var rest := IsolatedIds(nodes[1..], connected);
      if nodes[0].id in connected then rest else [nodes[0].id] + rest
  }

  /** An id is an endpoint of the connections' edges exactly when some connection mentions it. */
  lemma {:induction false} EndpointsOfConnections(connections: seq<Connection>, x: string)
    ensures x in Endpoints(EdgesOf(connections)) <==>
            exists c :: c in connections && (x == c.fromNodeId || x == c.toNodeId)
  {
    if connections != [] {
      EndpointsOfConnections(connections[1..], x);
      var c0 := connections[0];
      assert EdgesOf(connections) == [Edge(c0.fromNodeId, c0.toNodeId)] + EdgesOf(connections[1..]);
      assert Endpoints(EdgesOf(connections)) == [c0.fromNodeId, c0.toNodeId] + Endpoints(EdgesOf(connections[1..]));
      assert forall c :: c in connections <==> c == c0 || c in connections[1..];
    }
  }

  /** Scanning the nodes one more step appends that node's id when it is isolated. */
  lemma {:induction false} IsolatedIdsSnoc(nodes: seq<Node>, n: Node, connected: seq<string>)
    ensures IsolatedIds(nodes + [n], connected) ==
            IsolatedIds(nodes, connected) + (if n.id in connected then [] else [n.id])
  {
    if nodes == [] {
      assert [n][1..] == [];
    } else {
      assert (nodes + [n])[1..] == nodes[1..] + [n];
      IsolatedIdsSnoc(nodes[1..], n, connected);
    }
  }

  /** Appending a connection appends its edge. */
  lemma {:induction false} EdgesOfSnoc(connections: seq<Connection>, c: Connection)
    ensures EdgesOf(connections + [c]) == EdgesOf(connections) + [Edge(c.fromNodeId, c.toNodeId)]
  {
    if connections != [] {
      assert (connections + [c])[1..] == connections[1..] + [c];
      EdgesOfSnoc(connections[1..], c);
    }
  }

  /** Appending an edge appends its two endpoints. */
  lemma {:induction false} EndpointsSnoc(es: seq<Edge>, e: Edge)
    ensures Endpoints(es + [e]) == Endpoints(es) + [e.from, e.to]
  {
    if es != [] {
      assert (es + [e])[1..] == es[1..] + [e];
      EndpointsSnoc(es[1..], e);
    }
  }

  /** One more node scanned: its id is appended when it is isolated. */
  lemma {:induction false} IsolatedIdsPrefix(nodes: seq<Node>, j: nat, connected: seq<string>)
    requires j < |nodes|
    ensures IsolatedIds(nodes[..j + 1], connected) ==
            IsolatedIds(nodes[..j], connected) + (if nodes[j].id in connected then [] else [nodes[j].id])
  {
    assert nodes[..j + 1] == nodes[..j] + [nodes[j]];
    IsolatedIdsSnoc(nodes[..j], nodes[j], connected);
  }

  /** The first injection loop: the set of every id some connection mentions. */
  method ConnectedIds(connections: seq<Connection>) returns (connected: set<string>)
    ensures forall x :: x in connected <==> x in Endpoints(EdgesOf(connections))
  {
    connected := {};
    for i := 0 to |connections|
      invariant forall x :: x in connected <==> x in Endpoints(EdgesOf(connections[..i]))
    {
      var c := connections[i];
      assert connections[..i + 1] == connections[..i] + [c];
      EdgesOfSnoc(connections[..i], c);
      EndpointsSnoc(EdgesOf(connections[..i]), Edge(c.fromNodeId, c.toNodeId));
      connected := connected + {c.fromNodeId, c.toNodeId};
    }
    assert connections[..|connections|] == connections;
  }

  /** The second injection loop: in node order, the ids of the nodes that no connection
      mentions. */
  method CollectIsolated(nodes: seq<Node>, connections: seq<Connection>) returns (isolated: seq<string>)
    ensures isolated == IsolatedIds(nodes, Endpoints(EdgesOf(connections)))
    ensures forall x :: x in isolated <==>
              x in IdSet(nodes) && forall c :: c in connections ==> x != c.fromNodeId && x != c.toNodeId
  {
    var connected := ConnectedIds(connections);
    ghost var endpoints := Endpoints(EdgesOf(connections));
    isolated := [];
    for j := 0 to |nodes|
      invariant isolated == IsolatedIds(nodes[..j], endpoints)
    {
      IsolatedIdsPrefix(nodes, j, endpoints);
      if nodes[j].id !in connected {
        isolated := isolated + [nodes[j].id];
      }
    }
    assert nodes[..|nodes|] == nodes;
    IsolatedMeansUnmentioned(nodes, connections);
  }

  /** An id is isolated exactly when it belongs to a node and no connection mentions it. */
  lemma {:induction false} IsolatedMeansUnmentioned(nodes: seq<Node>, connections: seq<Connection>)
    ensures forall x :: x in IsolatedIds(nodes, Endpoints(EdgesOf(connections))) <==>
              x in IdSet(nodes) && forall c :: c in connections ==> x != c.fromNodeId && x != c.toNodeId
  {
    forall x
      ensures x in Endpoints(EdgesOf(connections)) <==>
              exists c :: c in connections && (x == c.fromNodeId || x == c.toNodeId)
    {
      EndpointsOfConnections(connections, x);
    }
  }

  /** The vertex list handed to the sorter: the edges' endpoints in first-appearance
      order, then the isolated node ids, each id once. */
  function SortInput(nodes: seq<Node>, edges: seq<Edge>): (vs: seq<string>)
    ensures NoDups(vs)
    ensures forall e :: e in edges ==> e.from in vs && e.to in vs
    ensures forall n :: n in nodes ==> n.id in vs
    ensures forall x :: x in vs ==> x in Endpoints(edges) || x in IdSet(nodes)
  {
    var connected := Endpoints(edges);
    var vs := Dedup(connected + IsolatedIds(nodes, connected));
    assert forall n :: n in nodes ==> n.id in IdSet(nodes);
    vs
  }

  /** The linearizer. On success the nodes come back in an order that respects every
      connection; on a cycle it fails and carries the cycle it found. */
  function TopologicalSort(nodes: seq<Node>, connections: seq<Connection>): (r: Result<seq<Node>, CycleError>)
    ensures |connections| == 0 ==> r == Success(nodes)
    ensures r.Success? ==> forall n :: n in r.value ==> n in nodes
    ensures r.Failure? ==> IsCycle(EdgesOf(connections), r.error.cycle)
  {
    if |connections| == 0 then Success(nodes)
    else
      var edges := EdgesOf(connections);
      match Kahn(SortInput(nodes, edges), edges)
      case Failure(err) => Failure(err)
      case Success(sorted) => Success(ToNodes(Dedup(sorted), nodes))
  }

  /** What a successful sort of the ids looks like: the ids it produced, after de-duplication,
      are the sorted ids, and the returned nodes are those ids restricted to known ones. */
  lemma {:induction false} SuccessShape(nodes: seq<Node>, connections: seq<Connection>)
    requires |connections| > 0
    requires TopologicalSort(nodes, connections).Success?
    ensures var edges := EdgesOf(connections);
            var k := Kahn(SortInput(nodes, edges), edges);
            && k.Success?
            && NoDups(k.value)
            && Ids(TopologicalSort(nodes, connections).value) == Restrict(k.value, IdSet(nodes))
  {
    var edges := EdgesOf(connections);
    var vs := SortInput(nodes, edges);
    var sorted := Kahn(vs, edges).value;
    KahnDistinct(vs, edges);
    DedupOfDistinct(sorted);
    ToNodesIds(sorted, nodes);
  }

  /** Every connection between known nodes is respected: the node it leaves comes before
      the node it enters. */
  lemma {:induction false} SortOrdersConnections(nodes: seq<Node>, connections: seq<Connection>, c: Connection)
    requires TopologicalSort(nodes, connections).Success?
    requires c in connections
    requires c.fromNodeId in IdSet(nodes) && c.toNodeId in IdSet(nodes)
    ensures Before(Ids(TopologicalSort(nodes, connections).value), c.fromNodeId, c.toNodeId)
  {
    var edges := EdgesOf(connections);
    var vs := SortInput(nodes, edges);
    SuccessShape(nodes, connections);
    var e := Edge(c.fromNodeId, c.toNodeId);
    KahnRespectsEdges(vs, edges, e);
    RestrictBefore(Kahn(vs, edges).value, IdSet(nodes), e.from, e.to);
  }

  /** Every input node's id appears in the result, whether it was reached through a
      connection or added as an isolated vertex. */
  lemma {:induction false} SortCoversNodes(nodes: seq<Node>, connections: seq<Connection>)
    requires TopologicalSort(nodes, connections).Success?
    ensures forall n :: n in nodes ==> n.id in Ids(TopologicalSort(nodes, connections).value)
  {
    var out := TopologicalSort(nodes, connections).value;
    if |connections| == 0 {
      forall n | n in nodes
        ensures n.id in Ids(out)
      {
        var k :| 0 <= k < |nodes| && nodes[k] == n;
        assert Ids(out)[k] == n.id;
      }
    } else {
      var edges := EdgesOf(connections);
      var vs := SortInput(nodes, edges);
      SuccessShape(nodes, connections);
      RestrictMembers(Kahn(vs, edges).value, IdSet(nodes));
      assert forall n :: n in nodes ==> n.id in IdSet(nodes);
    }
  }

  /** Once the graph has connections, no id occurs twice in the result. */
  lemma {:induction false} SortUniqueIds(nodes: seq<Node>, connections: seq<Connection>)
    requires |connections| > 0
    requires TopologicalSort(nodes, connections).Success?
    ensures DistinctIds(TopologicalSort(nodes, connections).value)
  {
    var edges := EdgesOf(connections);
    SuccessShape(nodes, connections);
    RestrictNoDups(Kahn(SortInput(nodes, edges), edges).value, IdSet(nodes));
  }

  /** With distinct node ids, a successful sort is a permutation of the input nodes,
      each one the unchanged input node. */
  lemma {:induction false} SortPermutation(nodes: seq<Node>, connections: seq<Connection>)
    requires DistinctIds(nodes)
    requires TopologicalSort(nodes, connections).Success?
    ensures multiset(TopologicalSort(nodes, connections).value) == multiset(nodes)
  {
    var out := TopologicalSort(nodes, connections).value;
    if |connections| > 0 {
      SortUniqueIds(nodes, connections);
      SortCoversNodes(nodes, connections);
      DistinctIdsNoDups(out);
      DistinctIdsNoDups(nodes);
      IdsDetermineNodes(out, nodes);
      DistinctSameElementsArePermutations(out, nodes);
    }
  }

  /** A cycle among the connections makes the sort fail; together with the failure
      clause of TopologicalSort, the sort fails exactly when the connections hold a cycle. */
  lemma {:induction false} SortFailsOnCycle(nodes: seq<Node>, connections: seq<Connection>, c: seq<string>)
    requires IsCycle(EdgesOf(connections), c)
    ensures TopologicalSort(nodes, connections).Failure?
  {
    var edges := EdgesOf(connections);
    assert Edge(c[0], c[1]) in edges;
    var vs := SortInput(nodes, edges);
    forall x | x in c
      ensures x in vs
    {
      var k :| 0 <= k < |c| && c[k] == x;
      if k < |c| - 1 {
        assert Edge(c[k], c[k + 1]).from in vs;
      } else {
        assert Edge(c[k - 1], c[k]).to in vs;
      }
    }
    KahnRejectsCycles(vs, edges, c);
  }

  /** Edges `id -> id`, one per id: how the source injects unconnected nodes. */
  function SelfEdges(ids: seq<string>): (es: seq<Edge>)
    ensures |es| == |ids|
    ensures forall id :: id in ids ==> Edge(id, id) in es
  {
    if ids == [] then [] else [Edge(ids[0], ids[0])] + SelfEdges(ids[1..])
  }

  /** The linearizer as written: unconnected nodes are injected as self-edges, so the
      vertex list is the endpoints of connections and self-edges together. */
  function TopologicalSortAsWritten(nodes: seq<Node>, connections: seq<Connection>): (r: Result<seq<Node>, CycleError>)
    ensures |connections| == 0 ==> r == Success(nodes)
    ensures r.Success? ==> forall n :: n in r.value ==> n in nodes
  {
    if |connections| == 0 then Success(nodes)
    else
      var edges := EdgesOf(connections);
      var injected := edges + SelfEdges(IsolatedIds(nodes, Endpoints(edges)));
      match Kahn(Dedup(Endpoints(injected)), injected)
      case Failure(err) => Failure(err)
      case Success(sorted) => Success(ToNodes(Dedup(sorted), nodes))
  }

  /** As written, a single node without connections in a graph that has connections makes
      the whole sort fail: its self-edge is a cycle. */
  lemma {:induction false} AsWrittenRejectsIsolatedNode(nodes: seq<Node>, connections: seq<Connection>, n: Node)
    requires |connections| > 0
    requires n in nodes
    requires n.id !in Endpoints(EdgesOf(connections))
    ensures TopologicalSortAsWritten(nodes, connections).Failure?
  {
    var edges := EdgesOf(connections);
    var iso := IsolatedIds(nodes, Endpoints(edges));
    var injected := edges + SelfEdges(iso);
    assert n.id in IdSet(nodes);
    assert Edge(n.id, n.id) in injected;
    var vs := Dedup(Endpoints(injected));
    assert IsCycle(injected, [n.id, n.id]);
    KahnRejectsCycles(vs, injected, [n.id, n.id]);
  }

  /** When every node id is connected, no id is isolated. */
  lemma {:induction false} NothingIsolated(nodes: seq<Node>, connected: seq<string>)
    requires forall n :: n in nodes ==> n.id in connected
    ensures IsolatedIds(nodes, connected) == []
  {
    if nodes != [] {
      assert nodes[0] in nodes;
      NothingIsolated(nodes[1..], connected);
    }
  }

  /** When every node is mentioned by some connection there is nothing to inject, and the
      source's behaviour coincides with the corrected sort. */
  lemma {:induction false} AsWrittenAgreesWithoutIsolatedNodes(nodes: seq<Node>, connections: seq<Connection>)
    requires forall n :: n in nodes ==> n.id in Endpoints(EdgesOf(connections))
    ensures TopologicalSortAsWritten(nodes, connections) == TopologicalSort(nodes, connections)
  {
    if |connections| > 0 {
      var edges := EdgesOf(connections);
      var iso := IsolatedIds(nodes, Endpoints(edges));
      NothingIsolated(nodes, Endpoints(edges));
      assert edges + SelfEdges(iso) == edges;
      assert Endpoints(edges) + iso == Endpoints(edges);
    }
  }

  /** One edge between two different vertices closes no cycle. */
  lemma {:induction false} SingleEdgeIsAcyclic(a: string, b: string, cy: seq<string>)
    requires a != b
    ensures !IsCycle([Edge(a, b)], cy)
  {
    if |cy| >= 2 && IsPath([Edge(a, b)], cy) {
      assert Edge(cy[0], cy[1]) in [Edge(a, b)];
      assert Edge(cy[|cy| - 2], cy[|cy| - 1]) in [Edge(a, b)];
    }
  }

  /** A single connection between two different nodes is acyclic, so the sort succeeds. */
  lemma {:induction false} SortSucceedsOnSingleEdge(nodes: seq<Node>, c: Connection)
    requires c.fromNodeId != c.toNodeId
    ensures TopologicalSort(nodes, [c]).Success?
  {
    var edges := EdgesOf([c]);
    assert edges == [Edge(c.fromNodeId, c.toNodeId)];
    var r := TopologicalSort(nodes, [c]);
    SingleEdgeIsAcyclic(c.fromNodeId, c.toNodeId, if r.Failure? then r.error.cycle else []);
  }

  /** A trigger feeding an HTTP request, plus one unconnected node: the source fails on it,
      the corrected sort orders it. */
  lemma {:induction false} IsolatedNodeCounterexample()
    ensures var nodes := [
              Node("trigger", "wf", "Trigger", ManualTrigger, map[], (0, 0)),
              Node("http", "wf", "HTTP", HttpRequest, map[], (1, 0)),
              Node("spare", "wf", "Spare", HttpRequest, map[], (2, 0))];
            var connections := [Connection("c1", "wf", "trigger", "http")];
            && TopologicalSortAsWritten(nodes, connections).Failure?
            && TopologicalSort(nodes, connections).Success?
  {
    var spare := Node("spare", "wf", "Spare", HttpRequest, map[], (2, 0));
    var nodes := [
      Node("trigger", "wf", "Trigger", ManualTrigger, map[], (0, 0)),
      Node("http", "wf", "HTTP", HttpRequest, map[], (1, 0)),
      spare];
    var connections := [Connection("c1", "wf", "trigger", "http")];
    var edges := EdgesOf(connections);
    assert edges == [Edge("trigger", "http")];
    assert Endpoints(edges) == ["trigger", "http"];
    assert "spare" != "trigger" && "spare" != "http";
    AsWrittenRejectsIsolatedNode(nodes, connections, spare);
    SortSucceedsOnSingleEdge(nodes, connections[0]);
  }
}
