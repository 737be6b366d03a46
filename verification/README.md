# Workflow graph linearizer

A Dafny model of `topologicalSort(nodes, connections)` from `src/inngest/utils.ts`. This
function turns a persisted workflow graph into the order its nodes execute in. A node carries
an id and opaque editor data. A connection is a directed edge `fromNodeId -> toNodeId`: the
output of the first node feeds the second.

The function works as follows:

- With no connections at all, it returns the nodes exactly as given. All of them are treated
  as independent.
- Otherwise every connection becomes an edge. The code then adds every node that no
  connection mentions as a self-edge `[id, id]`. The model adds such a node as a plain vertex
  instead, because a self-edge is a cycle (see Findings).
- The vertex ids are then sorted topologically and duplicates are removed.
- Each sorted id is mapped back to its node object. Ids that no node carries are dropped.
- A cyclic graph makes the function fail.

The topological sort itself comes from the `toposort` npm package, which is not part of this
model. It is written here as Kahn's algorithm over the vertex list:

- The vertex list holds the edges' endpoints in order of first appearance, followed by the
  isolated node ids.
- The algorithm repeatedly emits the first remaining vertex that no remaining vertex points to.
- When no such vertex is left while vertices remain, every remaining vertex has a predecessor
  among them. Walking predecessors backwards then yields a cycle. The failure result carries
  that cycle as evidence.

Files:

- `wrappers.dfy` (`Wrappers`): `Option` and `Result`.
- `seqs.dfy` (`Seqs`): duplicate-freedom, first positions and "comes before". It also holds
  the first-occurrence de-duplication that `[...new Set(ids)]` performs, and order-keeping
  filtering.
- `graph.dfy` (`Graph`): edges, paths, cycles, Kahn's algorithm, cycle extraction, and the
  correctness lemmas of the sort.
- `workflow.dfy` (`Workflow`): `Node`, `Connection`, and the id-to-node map built by
  `new Map(nodes.map(n => [n.id, n]))`. Within that map, the last node with a given id wins.
- `toposort.dfy` (`TopoSort`): the linearizer, the loops that find the isolated nodes, the
  properties of the whole function, and the behaviour of the code as written (see Findings).

Two behaviours of the code the model keeps:

- The code leaves the order among unconstrained nodes to the library. The model picks the
  first ready vertex in vertex-list order. Every property below holds for that rule.
- With no connections the code returns `nodes` unchanged, so duplicate ids pass through
  there. The model does the same: `TopoSort.SortUniqueIds` assumes at least one connection.

## Model

| member | source | states |
|---|---|---|
| `TopoSort.TopologicalSort` | src/inngest/utils.ts:7-55 | With no connections the result is exactly `nodes`, in order, with no cycle check. A successful result contains only input nodes. A failure carries a cycle made of the connections' edges. |
| `TopoSort.SortOrdersConnections` | src/inngest/utils.ts:17-54 | For every connection whose endpoints are both input node ids, the `fromNodeId` node comes before the `toNodeId` node in a successful result. |
| `TopoSort.SortCoversNodes` | src/inngest/utils.ts:22-33 | Every input node's id appears in a successful result. This holds for connected nodes and for nodes that no connection mentions. |
| `TopoSort.SortUniqueIds` | src/inngest/utils.ts:39-40 | Once there is at least one connection, no id occurs twice in a successful result. |
| `TopoSort.SortPermutation` | src/inngest/utils.ts:51-54 | With distinct node ids, a successful result is a permutation of `nodes` (same multiset), made of the unchanged input node objects. |
| `TopoSort.SortFailsOnCycle` | src/inngest/utils.ts:37-49 | If the connections contain a cycle, the function fails and returns no ordering. With the failure clause of `TopologicalSort`, it fails exactly when the connections hold a cycle. |
| `TopoSort.EdgesOf` | src/inngest/utils.ts:17-20 | There is exactly one edge per connection, at the same position: edge `k` is connection `k`'s `fromNodeId -> toNodeId`. |
| `TopoSort.IsolatedIds` | src/inngest/utils.ts:22-33 | An id is isolated exactly when some node carries it and it is not among the connected ids. |
| `TopoSort.IsolatedMeansUnmentioned` | src/inngest/utils.ts:23-33 | An id is isolated exactly when it belongs to a node and no connection names it as `fromNodeId` or `toNodeId`. |
| `TopoSort.ConnectedIds` | src/inngest/utils.ts:23-27 | The loop over connections builds the set of exactly the ids that are endpoints of the connections' edges. |
| `TopoSort.CollectIsolated` | src/inngest/utils.ts:29-33 | The loop over nodes collects, in node order, the isolated ids of the functional definition. These are exactly the node ids that no connection mentions. |
| `TopoSort.SortInput` | src/inngest/utils.ts:17-33 | The vertex list given to the sort is duplicate-free. It contains both endpoints of every edge and the id of every node, and nothing else. |
| `Graph.Kahn` | src/inngest/utils.ts:38 | A successful sort has the length and the elements of the vertex list. A failure carries a cycle of the edges that runs through listed vertices only. |
| `Graph.KahnDistinct` | src/inngest/utils.ts:38 | On a duplicate-free vertex list, a successful sort is duplicate-free and a permutation of that list. |
| `Graph.KahnRespectsEdges` | src/inngest/utils.ts:38 | For any vertex list, duplicates included, a successful sort puts the source of every edge between listed vertices before its target. |
| `Graph.KahnRejectsCycles` | src/inngest/utils.ts:37-49 | For any vertex list, a cycle through listed vertices makes the sort fail. |
| `Graph.WalkBack` | src/inngest/utils.ts:38 | When every remaining vertex has a predecessor among them, walking predecessors yields a genuine cycle: non-empty, closed, and following edges. It stays within the remaining vertices. |
| `Seqs.Dedup` | src/inngest/utils.ts:39-40 | The result is duplicate-free, has exactly the elements of the input, keeps them in order of first occurrence, and is no longer than the input. |
| `Seqs.DedupOfDistinct` | src/inngest/utils.ts:39-40 | De-duplicating a duplicate-free list changes nothing, so line 40 never reorders or shortens the sort's output. |
| `Workflow.Lookup` | src/inngest/utils.ts:52 | The map finds a node exactly for the ids that some node carries. The node found carries that id, and no later node in the list carries it (later entries overwrite). |
| `Workflow.LookupDistinct` | src/inngest/utils.ts:52 | With distinct ids, looking up a node's id returns that very node. |
| `Workflow.ToNodes` | src/inngest/utils.ts:54 | Mapping ids back yields only input nodes, each one the node the map returns for its id (the last node carrying it), and never more nodes than ids. |
| `Workflow.ToNodesIds` | src/inngest/utils.ts:54 | The ids of the mapped nodes are the sorted ids restricted to known ids, in sorted order. Unknown ids are dropped and nothing is reordered. |
| `Seqs.RestrictBefore` | src/inngest/utils.ts:54 | Dropping unknown ids keeps the relative order of the ids that remain. |
| `TopoSort.TopologicalSortAsWritten` | src/inngest/utils.ts:29-33 | The code as written, which injects unconnected nodes as self-edges. It shares the fallback and the only-input-nodes clauses with the corrected function. |
| `TopoSort.AsWrittenRejectsIsolatedNode` | src/inngest/utils.ts:29-33 | As written, a graph with at least one connection and at least one unconnected node always fails. |
| `TopoSort.AsWrittenAgreesWithoutIsolatedNodes` | src/inngest/utils.ts:29-33 | When every node is mentioned by a connection, the code as written and the corrected function give the same result. |
| `TopoSort.IsolatedNodeCounterexample` | src/inngest/utils.ts:31 | Take trigger → http plus one unconnected node. The code as written fails on it, and the corrected function succeeds. |
| `TopoSort.SortSucceedsOnSingleEdge` | src/inngest/utils.ts:17-38 | A single connection between two different nodes never makes the sort fail. |

## Findings

| source | as written | input that shows it | evidently intended | confidence | as-written member | corrected member |
|---|---|---|---|---|---|---|
| src/inngest/utils.ts:29-33 | Each node that no connection mentions is added as a self-edge `[id, id]`. A self-edge is a cycle, so `toposort` rejects it. The `catch` then rethrows, so the whole call fails. | Nodes `trigger`, `http`, `spare` and one connection `trigger -> http`. | Unconnected nodes are added to the sort as plain vertices, which is the purpose the comment on line 22 gives: to ensure they are included in the toposort. A plain vertex achieves that; a self-edge defeats it. They then appear exactly once in the result. | medium; not executed (the library's rejection of self-edges is its documented cycle behaviour; the library's code is not part of this model) | `TopoSort.TopologicalSortAsWritten`, `TopoSort.AsWrittenRejectsIsolatedNode` | `TopoSort.TopologicalSort`, `TopoSort.SortCoversNodes` |

The code as written is `TopoSort.TopologicalSortAsWritten`. `TopoSort.IsolatedNodeCounterexample`
states what both versions do on the input above. The rest of the model uses the corrected
`TopoSort.TopologicalSort`.

## Left out

- The `toposort` library: the library's own code is not part of this model. Kahn's
  algorithm stands in for it. Among nodes that no path of connections relates, the order
  may differ from the library's depth-first order. The ordering, exactly-once and cycle
  properties hold for either.
- The thrown values on failure: the `catch` on lines 41-49 tests the imported
  `console.error` function `error` rather than the caught `e`. The "Cyclic dependency detected
  in workflow nodes" branch is therefore unreachable, and the code rethrows `error` itself.
  The model does not reproduce which value is thrown. Every failure of the sort is
  `Failure(CycleError(cycle))`, carrying a cycle found in the connections.
- The library's "unknown node" error: it cannot arise, because the vertex list is built
  from the edges themselves.
- `filter(Boolean)` on line 54 would also drop falsy values. Node objects are always truthy,
  so the model drops only ids with no node.
- Node fields other than `id` (`workflowId`, `name`, `nodeType`, `data`, `position`) and the
  `NodeType` cases are assumed from the persisted schema, which is not part of this model.
  The sort carries them through unchanged and never inspects them. Connection `workflowId`
  consistency is not checked by the code and is not modelled.
- `src/inngest/functions.ts`: AI SDK calls, durable `step.sleep` / `step.ai.wrap` and
  telemetry are foreign calls and runtime plumbing. `src/inngest/functions.ts` contains no
  node dispatch, durable execution engine or `{{path}}` template resolver, so none is
  modelled.
- The React dialogs and nodes, tRPC/react-query hooks, routing, database, auth and billing
  configuration are UI and I/O with no logic to model.
