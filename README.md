# graphite.js in Dafny

A model of the core of graphite.js, a small in-memory graph library:

- nodes and edges with attribute and meta slot maps;
- the per-type id allocator;
- the graph container, which keeps the node and edge arrays ordered by an
  id search, id-keyed maps for both, and an adjacency list per node id;
- Dijkstra's shortest-path search, which uses the node meta slots as its
  scratch space.

The model follows the code as written, including its faults. The id search
`binarySearchById` does not check the window it closes on, so an element is
sometimes reported missing, or inserted out of order. The removals then
splice the wrong element out of `_nodes` and `_edges`, and `removeNode`
walks a live array that shrinks under it. The structural invariant
`GraphState.ValidStore` holds through all of this and is proved for every
operation. The stronger `GraphState.ConsistentStore` holds for graphs built
by insertions, and it survives `removeEdge`. It is preserved by `addNode`,
by `addEdge`, by `removeEdge` and by the constructor, and the shortest-path
guarantees are proved under it. `removeNode` does not preserve it.

Modules, one per file:

- `Slots` (slots.dfy): `has`, `objAttr` and `objRemoveAttr` on `map<string, V>`.
- `Ids` (ids.dfy): `generateID`, JavaScript's `<` on strings, and decimal formatting.
- `Entities` (entities.dfy): the `Node` and `Edge` classes, and the `Dist` and `Value` types.
- `Search` (search.dfy): `binarySearchById`, and `splice` with JavaScript's index clamping.
- `GraphState` (store.dfy): every graph operation as a function on a `Store` value. This is the specification the `Graph` methods are proved against.
- `Paths` (paths.dfy): chains of edges, path weight, relaxation, and Dijkstra's invariant.
- `Dijkstra` (dijkstra.dfy): the loops of `getShortestPath` over node meta.
- `Graphs` (graph.dfy): the `Graph` class, whose methods update its fields in place.

Calls into the outside world become parameters:

- The process-wide `__idCache` is an `Ids.IdCache` object handed to each constructor.
- The edge-weight callback is a function `(Node, Node) -> nat`.

A thrown exception is a result value: `Threw`, `Failed`, `None` or `false`,
depending on the operation.

An undirected graph lists each edge under both of its ends, so that
"outgoing" there means "incident". The search, however, always steps to
`getToNode()` of an edge listed under the current node. It therefore
crosses an undirected edge only from its from-node to its to-node. The model
follows the code; `Paths.UndirectedEdgeOneWay` shows the asymmetry.

## Model

| member | source | states |
|---|---|---|
| Slots.Lookup | graphite.js:6-18 | `has(obj, key) ? obj[key] : undefined`: a value exactly when the key is present, and then the stored one |
| Slots.Write | graphite.js:33-35 | the slot is written only when a value is supplied; every other key reads as before |
| Slots.Attr | graphite.js:20-41 | `objAttr` returns the slot's value after the optional write, which is the given value when one is given |
| Slots.Remove | graphite.js:43-51 | `objRemoveAttr` leaves the key unset and every other key unchanged; it is a no-op for an absent key |
| Slots.LastWriteWins | graphite.js:20-41 | a value written under a key is read back after any sequence of writes to other keys |
| Ids.LexLessIrreflexive | graphite.js:104 | the string `<` the search uses is irreflexive |
| Ids.LexLessTrichotomy | graphite.js:104 | for two strings, exactly one of `a < b`, `a == b` and `b < a` holds |
| Ids.LexLessTransitive | graphite.js:104 | the string `<` is transitive |
| Ids.NumericSuffixOrder | graphite.js:66 | issued ids are not ordered by counter: `Node_10 < Node_2` |
| Ids.Decimal | graphite.js:66 | `String(n)` is a non-empty string of decimal digits |
| Ids.DecimalRoundTrip | graphite.js:66 | the counter can be read back from its decimal form |
| Ids.MakeIdInjective | graphite.js:66 | `objType + '_' + n` determines both the type name and the counter |
| Ids.IssuedAfterBump | graphite.js:62-66 | bumping one counter issues exactly one id, never issued before |
| Ids.IdCache.GenerateId | graphite.js:53-67 | the type's counter (starting from 0) goes up by one; the id is `objType_<counter>`; it is new, and it is the only id added to the issued set |
| Entities.NumLessThan | graphite.js:698 | `total < neighbor.meta('distance')`: never true of `undefined`, `null` or an object; a number compares as itself, a boolean as 0 or 1, a string as `ToNumber` reads it |
| Entities.ToNumberDecimal | graphite.js:698 | a decimal string converts back to the number it spells, which ties `ToNumber` to `String(n)` |
| Entities.ToNumberBlank | graphite.js:698 | an empty or all-white-space string converts to 0 |
| Entities.NumLessThanDigits | graphite.js:698 | a slot holding the digits of `n` compares as `n`: `3 < "100"` |
| Entities.PaddedDecimal | graphite.js:698 | white space around a decimal string is ignored: `" 7\n"` reads as 7 |
| Entities.FractionDecimal | graphite.js:698 | `String(n) + "." + String(m)` reads as `n` with a non-zero fraction exactly when `m` is not 0 |
| Entities.FractionCompares | graphite.js:698 | `n` is below `String(n) + "." + String(m)` exactly when `m` is not 0 (`2 < "2.5"`), and `n + 1` never is (`3 < "2.5"` is false) |
| Entities.NegativeText | graphite.js:698 | `"-" + String(n)` reads as minus `n` and is below every total |
| Entities.WordText | graphite.js:698 | a string that starts with a lower-case letter reads as NaN, so no total is below it |
| Entities.Plus | graphite.js:696 | `distance + step` never decreases, and is Infinity exactly when the distance is |
| Entities.Node.constructor | graphite.js:118-135 | takes the next `Node` id; a missing attribute object becomes empty; meta starts empty |
| Entities.Node.Attr | graphite.js:143-155 | `attrs` becomes the written map; returns the slot's value; meta unchanged |
| Entities.Node.RemoveAttr | graphite.js:156-162 | the key is gone from `attrs`; meta unchanged |
| Entities.Node.Meta | graphite.js:163-175 | `meta` becomes the written map; returns the slot's value; attrs unchanged |
| Entities.Node.RemoveMeta | graphite.js:176-182 | the key is gone from `meta`; attrs unchanged |
| Entities.Node.ResetMeta | graphite.js:183-187 | `meta` is empty; attrs unchanged |
| Entities.Edge.constructor | graphite.js:198-219 | takes the next `Edge` id; the endpoints are fixed; attributes and meta are set as for a node |
| Entities.Edge.Attr | graphite.js:227-239 | as for a node |
| Entities.Edge.RemoveAttr | graphite.js:240-246 | as for a node |
| Entities.Edge.Meta | graphite.js:247-259 | as for a node |
| Entities.Edge.RemoveMeta | graphite.js:260-266 | as for a node |
| Entities.Edge.ResetMeta | graphite.js:267-271 | as for a node |
| Search.BinarySearchById | graphite.js:69-116 | the loop computes exactly what the recursive `Search.BinarySearch` computes |
| Search.SearchFrom | graphite.js:95-115 | the loop from a given window: a hit is an index of the window holding `obj`; a miss is at least `start + 1`, and at most `end + 1` when the window is not empty |
| Search.BinarySearch | graphite.js:92-115 | the reported index is never negative |
| Search.SearchFromResult | graphite.js:95-115 | a hit is the position of `obj` itself; a miss is `start + 1`, which is at most the length (1 when the collection is empty) |
| Search.SearchHit | graphite.js:98-102 | a hit reports an index holding `obj` |
| Search.SearchMissRange | graphite.js:112-115 | a miss reports an index in 1..length, and 1 for an empty collection; never 0 |
| Search.SearchShortCollection | graphite.js:95 | on zero or one elements the loop never runs: a miss at 1, even when the one element is `obj` |
| Search.DocumentedIndexCounterexample | graphite.js:69-90 | against its documentation, the search misses `c` in the sorted `[a, b, c]` and puts `a` after `b` |
| Search.RemovesWrongElement | graphite.js:396-433 | three insertions at line 396 build `[a, c, b]`; removing `b` through the search at line 433 then takes out `c` |
| Search.SpliceInsert | graphite.js:396 | `splice(i, 0, x)` inserts `x` at `min(i, length)`: the length grows by one, the multiset gains `x`, and the rest is kept in order |
| Search.SpliceRemove | graphite.js:433 | `splice(i, 1)` removes the element at `i`, or nothing past the end |
| GraphState.AddNodeTo | graphite.js:486-507 | a new id: `nodesById` gains it, the adjacency map gains an empty list, `_nodes` gains the node; a known id changes nothing |
| GraphState.AddEndpoints | graphite.js:400-403 | the edges are untouched and both endpoints' ids become known |
| GraphState.AddEndpointsFacts | graphite.js:400-403 | nodes already known keep their objects and lists; only a fresh endpoint gets a new, empty list |
| GraphState.InsertListed | graphite.js:405-413 | the edge is in the list afterwards, added at most once; other lists are unchanged |
| GraphState.ListEdge | graphite.js:405-414 | listed under its from-node, and also its to-node when undirected; false when such a list is missing |
| GraphState.WithEdge | graphite.js:395-398 | `_edges` gains the edge and `edgesById` maps its id to it |
| GraphState.AddEdgeTo | graphite.js:378-415 | a known id changes nothing; otherwise the edge is stored, both endpoints become known, and it is listed under its endpoints |
| GraphState.UnlistFrom | graphite.js:440-448 | the list is unchanged or loses exactly one copy of the edge |
| GraphState.RemoveListed | graphite.js:440-448 | only the list under the given key changes, losing at most the edge |
| GraphState.ShortListKeepsEdge | graphite.js:440-443 | a list of at most one edge is never shortened by the search, even when it holds the edge |
| GraphState.DropEdge | graphite.js:432-435 | `edgesById` loses the id; `_edges` loses at most one element |
| GraphState.UnlistEdge | graphite.js:437-449 | only the endpoints' lists change and they only shrink; false when a list it reads is missing |
| GraphState.RemoveEdgeFrom | graphite.js:416-450 | an unknown id changes nothing; otherwise the id is gone, lists only shrink, and a missing list is a throw |
| GraphState.RemoveIteration | graphite.js:534-535 | past the live list's end the pass throws; otherwise it drops at most the edge at `i` |
| GraphState.RemoveLoop | graphite.js:534-536 | the node maps, `_nodes` and the adjacency keys are unchanged |
| GraphState.RemoveLoopEdges | graphite.js:534-536 | every surviving edge id keeps its edge, and every dropped one was in the node's list |
| GraphState.RemoveLoopShrinks | graphite.js:534-536 | the adjacency lists only shrink |
| GraphState.RemoveLoopStuck | graphite.js:534-536 | after a throw, later passes change nothing |
| GraphState.WithoutNode | graphite.js:528-531 | `nodesById` loses the id; `_nodes` loses at most one element |
| GraphState.RemoveNodeFrom | graphite.js:508-540 | unknown: `undefined`; otherwise the id is gone and edges are only lost; the returned array is drawn from the node's list, and its key is deleted |
| GraphState.AddNodeValid | graphite.js:486-507 | `addNode` preserves the structural invariant |
| GraphState.AddEdgeValid | graphite.js:378-415 | `addEdge` preserves it and never throws on a valid graph |
| GraphState.RemoveEdgeValid | graphite.js:416-450 | `removeEdge` preserves it |
| GraphState.RemoveEdgeConsistent | graphite.js:416-450 | `removeEdge` preserves consistency, also when it throws: the node collections are untouched and the lists only shrink |
| GraphState.RemoveNodeValid | graphite.js:508-540 | `removeNode` preserves it, even when it throws midway |
| GraphState.RemoveNodeKeepsUnlisted | graphite.js:508-540 | an edge not listed under the node survives its removal |
| GraphState.IncomingEdgeSurvives | graphite.js:533-536 | in a directed graph, an edge into the node from another node survives in `edgesById` |
| GraphState.TwoOutgoingEdgesThrow | graphite.js:533-536 | a node with two outgoing edges: the first pass shortens the live list, the second reads `undefined` and throws, and one edge is left behind |
| GraphState.Outgoing | graphite.js:554-574 | the list under the node's id, or a throw; never a throw for a known node of a consistent graph, always one for an unknown node |
| GraphState.AddNodesTo | graphite.js:722-724 | the node loop: edges untouched, known ids kept, every node's id known afterwards |
| GraphState.AddEdgesTo | graphite.js:726-728 | the edge loop: known node and edge ids are kept; without a throw, every edge's id is known afterwards |
| GraphState.Build | graphite.js:720-728 | after the two loops every node's id is known, and without a throw every edge's id too |
| GraphState.BuildValid | graphite.js:720-728 | the constructor's loops yield a valid graph and never throw |
| GraphState.NoDupInsert | graphite.js:502 | inserting a new element keeps an array free of duplicates |
| GraphState.AddNodeConsistent | graphite.js:486-507 | `addNode` preserves consistency: a duplicate-free `_nodes` listing exactly the nodes known by id, lists for exactly those ids, and edges between listed nodes |
| GraphState.AddEdgeConsistent | graphite.js:378-415 | `addEdge` preserves consistency when its endpoints do not clash by id with different known nodes |
| GraphState.AddNodesConsistent | graphite.js:722-724 | the node loop preserves consistency |
| GraphState.AddEdgesConsistent | graphite.js:726-728 | the edge loop preserves consistency when ids are unique |
| GraphState.BuildConsistent | graphite.js:720-728 | a graph built from entities with distinct ids is consistent |
| GraphState.AddEdgeListed | graphite.js:378-415 | `_edges` stays a duplicate-free listing of `edgesById` |
| GraphState.AddEdgesListed | graphite.js:726-728 | so does the edge loop |
| GraphState.BuildListed | graphite.js:720-728 | so does the constructor |
| Graphs.Graph.constructor | graphite.js:295-345 | a `directed` that is not `false` means directed; takes the next `Graph` id, which `getId()` returns; the state is what the setup loops build; valid; consistent for distinct ids |
| Graphs.Graph.Setup | graphite.js:720-728 | runs the node loop, then the edge loop |
| Graphs.Graph.AddNodes | graphite.js:722-724 | the node loop, one `addNode` per element |
| Graphs.Graph.AddEdges | graphite.js:726-728 | the edge loop, one `addEdge` per element |
| Graphs.Graph.GetNode | graphite.js:474-485 | a node exactly when its id is known; that node has the id, and is listed in `_nodes` when the graph is consistent |
| Graphs.Graph.HasNode | graphite.js:451-465 | exactly when `getNode` finds one |
| Graphs.Graph.GetEdge | graphite.js:362-377 | an edge exactly when its id is known; that edge has the id, and is in `_edges` in a graph built by insertions |
| Graphs.Graph.HasEdge | graphite.js:346-361 | exactly when `getEdge` finds one |
| Graphs.Graph.GetNodes | graphite.js:466-473 | in a consistent graph: no duplicates, every element is found by `getNode`, and every known node is included |
| Graphs.Graph.GetEdges | graphite.js:541-548 | the same for edges |
| Graphs.Graph.AddNode | graphite.js:486-507 | the state becomes `AddNodeTo`; validity and consistency are preserved; the edges are unchanged |
| Graphs.Graph.AddEdge | graphite.js:378-415 | the state becomes `AddEdgeTo`; validity is preserved, and so are edge listing and consistency |
| Graphs.Graph.InsertInto | graphite.js:405-413 | one guarded splice into an adjacency list |
| Graphs.Graph.RemoveFrom | graphite.js:440-448 | one guarded splice out of an adjacency list |
| Graphs.Graph.RemoveEdge | graphite.js:416-450 | the state and the throw flag are `RemoveEdgeFrom`'s; validity and consistency are preserved |
| Graphs.Graph.RemoveNode | graphite.js:508-540 | the state and the outcome are `RemoveNodeFrom`'s; validity is preserved |
| Graphs.Graph.RemoveEdgesOf | graphite.js:533-536 | the removal loop over the live list, with its length read once |
| Graphs.Graph.GetOutgoingEdges | graphite.js:549-575 | throws exactly when the node is unknown (or its list is missing); otherwise a copy of its list |
| Graphs.Graph.GetIncomingEdges | graphite.js:576-608 | throws for an unknown node; directed: the scan of `_edges` for edges into the node; undirected: the outgoing list |
| Graphs.IncomingOf | graphite.js:599-607 | the edges of `_edges` whose to-node is the node: each such edge as often as in `_edges`, and no other |
| Graphs.IncomingOfAppend | graphite.js:599-607 | the scan keeps `_edges` order: scanning a concatenation concatenates the scans |
| Graphs.IncomingOfSingle | graphite.js:602-604 | one edge is kept exactly when its to-node is the node |
| Graphs.Graph.GetShortestPath | graphite.js:616-718 | throws when an endpoint is unknown; a returned path is a chain from the start, and all meta is reset; no node's `attrs` change; a `null` return leaves every listed node's distance and best-edge slots in place; in a consistent graph it never throws, returns `[]` when the two endpoints are the same node, returns `null` exactly when no chain reaches the end, and otherwise returns a lightest chain to the end |
| Dijkstra.ShortestPath | graphite.js:616-718 | the same, on a snapshot of the graph's fields; its frame lets only the `meta` field of the listed nodes, the edge targets and the start node change |
| Dijkstra.Prepare | graphite.js:654-662 | the initialisation establishes the loop invariant |
| Dijkstra.MainLoop | graphite.js:680-717 | from the loop invariant, the result meets the whole promise above, the `[]` and unreset-`null` clauses included |
| Dijkstra.Visit | graphite.js:681-702 | one turn: stop with a result that meets the whole promise (a `null` with the scratch slots still set, or the path rebuilt from the end node, empty when it is the start), or go on with a shorter queue and the invariant kept |
| Dijkstra.Initialized | graphite.js:657-659 | afterwards the slots read distance Infinity, visited false and best incoming edge null |
| Dijkstra.MetaDistance | graphite.js:669 | a finite result is the number in the distance slot; an unset slot or Infinity reads as Infinity, which `x < minDistance` never beats |
| Dijkstra.ComparableDistance | graphite.js:669 | on such a slot `MetaDistance` loses nothing: the slot is unset or holds exactly that number |
| Dijkstra.InitAll | graphite.js:654-662 | every listed node's meta is initialised; then the start distance is 0; attrs unchanged; the meta mirrors the initial scratch values |
| Dijkstra.QueueAll | graphite.js:656-661 | the queue is `_nodes`, and each node's meta is written by the three initial writes |
| Dijkstra.InitNode | graphite.js:657-659 | distance Infinity, visited false, best incoming edge null |
| Dijkstra.InitializedTwice | graphite.js:657-659 | initialising twice is initialising once, so a node listed twice ends up the same |
| Dijkstra.PopMin | graphite.js:664-678 | removes and returns the first element of least distance: none is smaller, and each one before it is strictly larger |
| Dijkstra.PopNext | graphite.js:681-685 | the popped node is Infinity-distant exactly when the search stops; then, in a consistent graph, the end node is unreachable; otherwise the popped-node invariant holds |
| Dijkstra.RelaxEdge | graphite.js:693-701 | one step of relaxation, mirrored in the meta; the neighbour's distance and best edge are written exactly when `total < distance` holds in JavaScript's sense, for a neighbour of any kind |
| Dijkstra.RelaxEdges | graphite.js:692-702 | the meta ends up mirroring the scratch map relaxed along the whole list |
| Dijkstra.RelaxFrom | graphite.js:692-702 | relaxing the popped node's list restores the loop invariant |
| Dijkstra.RelaxCurrent | graphite.js:692-702 | throws exactly when `getOutgoingEdges` does; otherwise relaxes and keeps the loop invariant |
| Dijkstra.Reconstruct | graphite.js:706-710 | the walk back ends at the start; the edges form a chain to the last node, and its weight is that node's distance |
| Dijkstra.ResetAll | graphite.js:713-715 | every listed node's meta is empty; attrs unchanged |
| Dijkstra.Finish | graphite.js:706-717 | the rebuilt path is a chain to the last node, with weight equal to its distance, empty when the last node is the start, and all meta is empty |
| Dijkstra.ShortestWhenConsistent | graphite.js:687-690 | when the end node is popped, its distance is at most the weight of any chain to it |
| Dijkstra.ListedEnds | graphite.js:692-694 | with distinct ids, the list under a node holds only edges from or to it |
| Paths.ChainEndIsTarget | graphite.js:706-710 | a chain ends where its last edge leads |
| Paths.ChainSnoc | graphite.js:706-710 | a chain minus its last edge is a chain to that edge's from-node, and the weights add up |
| Paths.UndirectedEdgeOneWay | graphite.js:694 | an undirected edge a-b lets the search reach b from a, not a from b |
| Paths.RelaxAllLowers | graphite.js:698-701 | relaxation only lowers distances, and each one that changed was lowered through an edge of the list |
| Paths.RelaxAllBound | graphite.js:695-701 | after relaxation, each target's distance is at most the current distance plus the step |
| Paths.InitialInv | graphite.js:654-662 | the initial scratch values satisfy Dijkstra's invariant |
| Paths.LowerBound | graphite.js:680-703 | every chain to an unpopped node weighs at least the least unpopped distance |
| Paths.NoDupRemove | graphite.js:676 | removing one element keeps the queue duplicate-free, and only that element leaves |
| Paths.PopStep | graphite.js:681-686 | popping a nearest node keeps the invariant |
| Paths.RelaxStep | graphite.js:692-702 | relaxing keeps the invariant |
| Paths.RelaxStepCons | graphite.js:692-702 | relaxing re-establishes that popped nodes are relaxed and their distances are lower bounds |
| Paths.NoChainWhenUnreachable | graphite.js:683-685 | when the least distance is Infinity, no chain reaches the end node |

## Left out

- `drawRaphaelGraph` (graphite.js:731-870), the module export and every `toString`: they are rendering and packaging, and have no state worth proving.
- `searchHeuristicCallback`: the code never reads it.
- The `visited` meta slot: it is written at initialisation and is part of the model, but the code never reads it.
- The string-id forms of `hasEdge`, `getEdge`, `hasNode` and `getNode`: the model passes the entity and uses its id. `removeEdge` and `removeNode` on a string are also out: they throw on `.getId()` of a string.
- Property names inherited from `Object.prototype` (`has` checks own properties, while `edgesById[id]` also sees inherited ones): issued ids never collide with them.
- Exception messages: a throw is a result value, and its text is not modelled.
- Ids.LexLess: compares Unicode scalar values, where JavaScript compares UTF-16 code units; the two orders differ only for characters outside the Basic Multilingual Plane.
- Ids.Decimal: `String(n)` switches to exponent form at 1e21; counters that large are not modelled.
- Floating point: distances are `Inf | Fin(nat)` and weights are `nat`. Negative, fractional and NaN weights are not modelled; nor is rounding in `distance + step`.
- Entities.ToNumber: reads signed decimals with an optional fraction, `Infinity` and white space as ECMA-262 section 7.1.4.1.1 does. Exponents, and hexadecimal, octal and binary literals, are read as NaN here, where JavaScript gives them a value; a comparison with such a string in a distance slot is therefore not modelled.
- Attribute values: a slot holds `null`, a boolean, a distance (`Inf | Fin(nat)`), an edge or a string. Objects, arrays, functions and negative or fractional numbers stored by users are not modelled.
- The weight callback is a pure function; side effects it might have on the graph are not modelled.
- Graphs.Graph.GetShortestPath: requires that the listed nodes, the edge ends and the two endpoints have pairwise distinct ids, as the allocator guarantees. With two objects sharing an id, the walk back may not terminate, and that case is not modelled.
- Dijkstra.PopMin: requires every queued distance slot to be unset or numeric. A slot holding a string would compare as a number parsed from text, and the search never writes one.
- GraphState.RemoveNodeFrom: states that the returned array is drawn from the node's list (`Within`), not its exact contents after the loop has spliced it.
- Graphs.Graph.GetNodes, Graphs.Graph.GetEdges: the ordering guarantee is out, because the faulty search does not keep the arrays sorted.
- Entities.Node.constructor: copies the caller's attribute object into the node's map. The code keeps the object itself (`attrs = attrs || {}` at graphite.js:124), so later writes through `attr` are seen by the caller and by every entity given the same object; that aliasing is not modelled.
- Entities.Edge.constructor: the same copy of the attribute object where graphite.js:208 shares it; the aliasing is not modelled.
- Concurrency and reentrancy of the meta scratch space: the model is sequential.
