/** The graphite.js `Graph` class (lines 295-729): its five collections are
    fields that the methods update in place, and each method is proved to
    leave them exactly as the matching function of `GraphState` says. */
module Graphs {
  import opened Slots
  import opened Ids
  import opened Search
  import opened Entities
  import opened Paths
  import opened GraphState
  import opened Dijkstra

  class Graph {
    const id: string
    const directed: bool
    var nodes: seq<Node>
    var edges: seq<Edge>
    var nodesById: map<string, Node>
    var edgesById: map<string, Edge>
    var edgesByNodeId: map<string, seq<Edge>>

    /** The five collections as one value. */
    function State(): Store
      reads this
    {
      Store(nodes, edges, nodesById, edgesById, edgesByNodeId)
    }

    ghost predicate Valid()
      reads this
    {
      ValidStore(State(), directed)
    }

    ghost predicate Consistent()
      reads this
    {
      ConsistentStore(State())
    }

    /** `new Graph(nodes, edges, directed)`: anything but a boolean flag
        means directed; then every node and every edge is added in order. */
    constructor (initialNodes: seq<Node>, initialEdges: seq<Edge>, directedFlag: Option<Value>, ids: IdCache)
      modifies ids
      ensures ids.counts == old(ids.counts)["Graph" := Count(old(ids.counts), "Graph") + 1]
      ensures id == MakeId("Graph", ids.counts["Graph"]) && id !in old(ids.Issued())
      ensures directed == (directedFlag != Some(Bool(false)))
      ensures State() == Build(initialNodes, initialEdges, directed).0
      ensures Valid() && EdgesListed(State())
      ensures UniqueIds(Elems(initialNodes) + EdgeEnds(initialEdges)) ==> Consistent()
    {
      var newId := ids.GenerateId("Graph");
      id := newId;
      directed := directedFlag != Some(Bool(false));
      nodes := [];
      edges := [];
      nodesById := map[];
      edgesById := map[];
      edgesByNodeId := map[];
      new;
      Setup(initialNodes, initialEdges);
    }

    /** The setup loops (lines 720-728) on an empty graph. */
    method Setup(ns: seq<Node>, es: seq<Edge>)
      requires State() == EmptyStore
      modifies this
      ensures State() == Build(ns, es, directed).0
      ensures Valid() && EdgesListed(State())
      ensures UniqueIds(Elems(ns) + EdgeEnds(es)) ==> Consistent()
    {
      assert Valid();
      AddNodes(ns);
      AddEdges(es);
      BuildValid(ns, es, directed);
      BuildListed(ns, es, directed);
      if UniqueIds(Elems(ns) + EdgeEnds(es)) {
        BuildConsistent(ns, es, directed);
      }
    }

    /** The first setup loop (lines 722-724). */
    method AddNodes(ns: seq<Node>)
      requires Valid()
      modifies this
      ensures State() == AddNodesTo(old(State()), ns)
      ensures Valid()
    {
      ghost var st := State();
      var i := 0;
      while i < |ns|
        invariant 0 <= i <= |ns|
        invariant State() == AddNodesTo(st, ns[..i])
        invariant Valid()
      {
        assert ns[..i + 1][..i] == ns[..i];
        AddNode(ns[i]);
        i := i + 1;
      }
      assert ns[..i] == ns;
    }

    /** The second setup loop (lines 726-728); in a valid graph no
        `addEdge` throws. */
    method AddEdges(es: seq<Edge>)
      requires Valid()
      modifies this
      ensures (State(), true) == AddEdgesTo(old(State()), directed, es)
      ensures Valid()
    {
      ghost var st := State();
      var j := 0;
      while j < |es|
        invariant 0 <= j <= |es|
        invariant (State(), true) == AddEdgesTo(st, directed, es[..j])
        invariant Valid()
      {
        AddNextEdge(st, es, j);
        j := j + 1;
      }
      assert es[..j] == es;
    }

    /** One iteration of the second setup loop. */
    method AddNextEdge(ghost st: Store, es: seq<Edge>, j: nat)
      requires j < |es| && Valid()
      requires (State(), true) == AddEdgesTo(st, directed, es[..j])
      modifies this
      ensures (State(), true) == AddEdgesTo(st, directed, es[..j + 1])
      ensures Valid()
    {
      assert es[..j + 1][..j] == es[..j];
      AddEdge(es[j]);
    }

    /** `getId()` (lines 339-345): the id issued at construction. */
    function GetId(): string
    {
      id
    }

    /** `getNode(node)` (lines 474-485), for a node object: the node the
        graph knows under that node's id, or `undefined`. */
    function GetNode(node: Node): (r: Option<Node>)
      reads this
      ensures r.Some? <==> node.id in nodesById
      ensures Valid() && r.Some? ==> r.value.id == node.id
      ensures Consistent() && r.Some? ==> r.value in nodes
    {
      if node.id in nodesById then Some(nodesById[node.id]) else None
    }

    /** `hasNode(node)` (lines 451-465): whether `getNode` finds something. */
    function HasNode(node: Node): (r: bool)
      reads this
      ensures r <==> GetNode(node).Some?
    {
      node.id in nodesById
    }

    /** `getEdge(edge)` (lines 362-377). */
    function GetEdge(edge: Edge): (r: Option<Edge>)
      reads this
      ensures r.Some? <==> edge.id in edgesById
      ensures Valid() && r.Some? ==> r.value.id == edge.id
      ensures EdgesListed(State()) && r.Some? ==> r.value in edges
    {
      if edge.id in edgesById then Some(edgesById[edge.id]) else None
    }

    /** `hasEdge(edge)` (lines 346-361). */
    function HasEdge(edge: Edge): (r: bool)
      reads this
      ensures r <==> GetEdge(edge).Some?
    {
      edge.id in edgesById
    }

    /** `getNodes()` (lines 466-473): a copy of `_nodes`, which in a
        consistent graph lists every node the graph knows, once. */
    function GetNodes(): (r: seq<Node>)
      reads this
      ensures Consistent() ==>
        && NoDup(r)
        && (forall i :: 0 <= i < |r| ==> GetNode(r[i]) == Some(r[i]))
        && (forall k :: k in nodesById ==> nodesById[k] in r)
    {
      nodes
    }

    /** `getEdges()` (lines 541-548). */
    function GetEdges(): (r: seq<Edge>)
      reads this
      ensures EdgesListed(State()) ==>
        && NoDup(r)
        && (forall i :: 0 <= i < |r| ==> GetEdge(r[i]) == Some(r[i]))
        && (forall k :: k in edgesById ==> edgesById[k] in r)
    {
      edges
    }

    /** `addNode(node)` (lines 486-507). */
    method AddNode(node: Node)
      requires Valid()
      modifies this
      ensures State() == AddNodeTo(old(State()), node)
      ensures Valid()
      ensures old(Consistent()) ==> Consistent()
      ensures edges == old(edges) && edgesById == old(edgesById)
    {
      AddNodeValid(State(), directed, node);
      if Consistent() {
        AddNodeConsistent(State(), node);
      }
      if HasNode(node) {
        return;
      }
      var sr := BinarySearchById(nodes, node, NodeId);
      nodes := SpliceInsert(nodes, sr.index, node);
      nodesById := nodesById[node.id := node];
      edgesByNodeId := edgesByNodeId[node.id := []];
    }

    /** `addEdge(edge)` (lines 378-415). In a valid graph the adjacency
        lists it reads always exist, so it never throws. */
    method AddEdge(edge: Edge)
      requires Valid()
      modifies this
      ensures (State(), true) == AddEdgeTo(old(State()), directed, edge)
      ensures Valid()
      ensures old(EdgesListed(State())) ==> EdgesListed(State())
      ensures (old(Consistent()) && old(Fits(State(), edge.from)) && old(Fits(State(), edge.to))
               && (edge.from.id == edge.to.id ==> edge.from == edge.to)) ==> Consistent()
    {
      ghost var st := State();
      PutEdge(edge);
      AddEdgeValid(st, directed, edge);
      if EdgesListed(st) {
        AddEdgeListed(st, directed, edge);
      }
      if ConsistentStore(st) && Fits(st, edge.from) && Fits(st, edge.to) && (edge.from.id == edge.to.id ==> edge.from == edge.to) {
        AddEdgeConsistent(st, directed, edge);
      }
    }

    /** The statements of `addEdge`, in order. */
    method PutEdge(edge: Edge)
      requires Valid()
      modifies this
      ensures (State(), true) == AddEdgeTo(old(State()), directed, edge)
    {
      if HasEdge(edge) {
        return;
      }
      ghost var st := State();
      AddEdgeSteps(st, directed, edge);
      AppendEdge(edge);
      WithEdgeValid(st, directed, edge);
      ghost var st1 := State();
      var fromNode := edge.from;
      var toNode := edge.to;
      AddNode(fromNode);
      AddNode(toNode);
      AddEndpointsFacts(st1, fromNode, toNode);
      ListUnder(edge);
    }

    /** Lines 395-398: `_edges` gains the edge at the search index and
        `_edgesById` maps its id to it. */
    method AppendEdge(edge: Edge)
      modifies this
      ensures State() == WithEdge(old(State()), edge)
    {
      var sr := BinarySearchById(edges, edge, EdgeId);
      edges := SpliceInsert(edges, sr.index, edge);
      edgesById := edgesById[edge.id := edge];
    }

    /** Lines 405-414: list the edge under its source and, in an
        undirected graph, under its target. */
    method ListUnder(edge: Edge)
      requires edge.from.id in edgesByNodeId && edge.to.id in edgesByNodeId
      modifies this
      ensures (State(), true) == ListEdge(old(State()), directed, edge)
    {
      ListEdgeSteps(State(), directed, edge);
      InsertInto(edge.from.id, edge);
      if !directed {
        InsertInto(edge.to.id, edge);
      }
    }

    /** Lines 405-408 (and 410-413): list `edge` under `k` unless the
        search finds it there. */
    method InsertInto(k: string, edge: Edge)
      requires k in edgesByNodeId
      modifies this
      ensures State() == InsertListed(old(State()), k, edge)
    {
      var list := edgesByNodeId[k];
      var sr := BinarySearchById(list, edge, EdgeId);
      if sr.obj.None? {
        edgesByNodeId := edgesByNodeId[k := SpliceInsert(list, sr.index, edge)];
      }
    }

    /** Lines 440-443 (and 445-448): take `edge` out of the list under `k`
        when the search finds it there. */
    method RemoveFrom(k: string, edge: Edge)
      requires k in edgesByNodeId
      modifies this
      ensures State() == RemoveListed(old(State()), k, edge)
    {
      var list := edgesByNodeId[k];
      var sr := BinarySearchById(list, edge, EdgeId);
      if sr.obj.Some? {
        edgesByNodeId := edgesByNodeId[k := SpliceRemove(list, sr.index)];
      } else {
        assert edgesByNodeId[k := UnlistFrom(list, edge)] == edgesByNodeId;
      }
    }

    /** `removeEdge(edge)` (lines 416-450). The flag is false when the code
        throws on a missing adjacency list; the changes made before that
        point remain. */
    method RemoveEdge(edge: Edge) returns (ok: bool)
      requires Valid()
      modifies this
      ensures (State(), ok) == RemoveEdgeFrom(old(State()), directed, edge)
      ensures Valid()
      ensures old(Consistent()) ==> Consistent()
    {
      RemoveEdgeValid(State(), directed, edge);
      if Consistent() {
        RemoveEdgeConsistent(State(), directed, edge);
      }
      if !HasEdge(edge) {
        return true;
      }
      ghost var st := State();
      var sr := BinarySearchById(edges, edge, EdgeId);
      edges := SpliceRemove(edges, sr.index);
      edgesById := edgesById - {edge.id};
      assert State() == DropEdge(st, edge);
      var fromNode := edge.from;
      var toNode := edge.to;
      if fromNode.id !in edgesByNodeId {
        return false;
      }
      RemoveFrom(fromNode.id, edge);
      if !directed {
        if toNode.id !in edgesByNodeId {
          return false;
        }
        RemoveFrom(toNode.id, edge);
      }
      return true;
    }

    /** `removeNode(node)` (lines 508-540). The loop bound is the length of
        the node's list before the loop, while `edges[i]` reads the list as
        `removeEdge` leaves it. */
    method RemoveNode(node: Node) returns (r: Removal)
      requires Valid()
      modifies this
      ensures (State(), r) == RemoveNodeFrom(old(State()), directed, node)
      ensures Valid()
    {
      ghost var st := State();
      if !HasNode(node) {
        return Absent;
      }
      RemoveNodeSteps(st, directed, node);
      var sr := BinarySearchById(nodes, node, NodeId);
      nodes := SpliceRemove(nodes, sr.index);
      nodesById := nodesById - {node.id};
      ghost var st1 := State();
      assert st1 == WithoutNode(st, node);
      ShrinkKeepsValid(st, st1, directed);
      if node.id !in edgesByNodeId {
        return Threw;
      }
      var ok := RemoveEdgesOf(node.id);
      if !ok {
        return Threw;
      }
      var removed := edgesByNodeId[node.id];
      edgesByNodeId := edgesByNodeId - {node.id};
      RemoveNodeValid(st, directed, node);
      return Removed(removed);
    }

    /** The loop at lines 533-535: as many passes as the list under `key`
        had edges before the loop; false when a pass throws. */
    method RemoveEdgesOf(key: string) returns (ok: bool)
      requires Valid() && key in edgesByNodeId
      modifies this
      ensures (State(), ok) == RemoveLoop(old(State()), directed, key, |old(edgesByNodeId[key])|)
      ensures Valid()
    {
      ghost var st1 := State();
      var length := |edgesByNodeId[key]|;
      var i := 0;
      while i < length
        invariant 0 <= i <= length
        invariant (State(), true) == RemoveLoop(st1, directed, key, i)
        invariant Valid()
      {
        ok := RemoveNext(st1, key, i);
        if !ok {
          RemoveLoopStuck(st1, directed, key, i + 1, length);
          return;
        }
        i := i + 1;
      }
      return true;
    }

    /** One iteration of that loop, measured against the state before it. */
    method RemoveNext(ghost st1: Store, key: string, i: nat) returns (ok: bool)
      requires Valid() && key in st1.adj
      requires (State(), true) == RemoveLoop(st1, directed, key, i)
      modifies this
      ensures (State(), ok) == RemoveLoop(st1, directed, key, i + 1)
      ensures Valid()
    {
      RemoveLoopStep(st1, directed, key, i + 1);
      ok := RemovePass(key, i);
    }

    /** One pass of that loop: `removeEdge(edges[i])`, which throws when
        `i` is past the live list's end. */
    method RemovePass(key: string, i: nat) returns (ok: bool)
      requires Valid() && key in edgesByNodeId
      modifies this
      ensures (State(), ok) == RemoveIteration(old(State()), directed, key, i)
      ensures Valid()
    {
      var list := edgesByNodeId[key];
      if i >= |list| {
        return false;
      }
      ok := RemoveEdge(list[i]);
    }

    /** `getOutgoingEdges(node)` (lines 549-575): a copy of the node's
        adjacency list, or an exception when the graph does not hold the
        node. */
    method GetOutgoingEdges(node: Node) returns (r: Option<seq<Edge>>)
      ensures r == Outgoing(State(), node)
      ensures r.None? <==> !(HasNode(node) && node.id in edgesByNodeId)
      ensures r.Some? ==> r.value == edgesByNodeId[node.id]
      ensures Valid() && r.None? ==> !HasNode(node)
    {
      if !HasNode(node) || node.id !in edgesByNodeId {
        return None;
      }
      var outgoing: seq<Edge> := [];
      var nodeEdges := edgesByNodeId[node.id];
      var i := 0;
      while i < |nodeEdges|
        invariant 0 <= i <= |nodeEdges|
        invariant outgoing == nodeEdges[..i]
      {
        outgoing := outgoing + [nodeEdges[i]];
        i := i + 1;
      }
      assert nodeEdges[..i] == nodeEdges;
      return Some(outgoing);
    }

    /** `getIncomingEdges(node)` (lines 576-608): in an undirected graph the
        outgoing edges; otherwise the edges of `_edges` whose to-node is
        `node` itself, in order. */
    method GetIncomingEdges(node: Node) returns (r: Option<seq<Edge>>)
      ensures !HasNode(node) ==> r.None?
      ensures HasNode(node) && directed ==> r == Some(IncomingOf(edges, node))
      ensures HasNode(node) && !directed ==>
        r == (if node.id in edgesByNodeId then Some(edgesByNodeId[node.id]) else None)
    {
      if !HasNode(node) {
        return None;
      }
      if !directed {
        r := GetOutgoingEdges(node);
        return;
      }
      var incoming: seq<Edge> := [];
      var i := 0;
      while i < |edges|
        invariant 0 <= i <= |edges|
        invariant incoming == IncomingOf(edges[..i], node)
      {
        assert edges[..i + 1][..i] == edges[..i];
        if edges[i].to == node {
          incoming := incoming + [edges[i]];
        }
        i := i + 1;
      }
      assert edges[..i] == edges;
      return Some(incoming);
    }


    /** `getShortestPath(startNode, endNode, edgeWeightCallback)` (lines
        616-718) on this graph's collections, which the search only reads. */
    method GetShortestPath(startNode: Node, endNode: Node, w: Weight) returns (result: PathResult)
      requires Valid()
      requires UniqueIds(Elems(nodes) + Sources(edgesByNodeId) + Targets(edgesByNodeId) + {startNode, endNode})
      modifies Elems(nodes)`meta, Targets(edgesByNodeId)`meta, startNode`meta
      ensures !HasNode(startNode) || !HasNode(endNode) ==> result == Failed
      ensures result.Path? ==> IsChain(edgesByNodeId, result.edges, startNode, ChainEnd(result.edges, startNode))
      ensures result.Path? ==> forall i :: 0 <= i < |nodes| ==> nodes[i].meta == map[]
      ensures result == NoPath ==> forall i :: 0 <= i < |nodes| ==>
        "distance" in nodes[i].meta && "best_incoming_edge" in nodes[i].meta
      ensures forall n :: n in Elems(nodes) + Targets(edgesByNodeId) + {startNode} ==> n.attrs == old(n.attrs)
      ensures Consistent() && HasNode(startNode) && HasNode(endNode) ==>
        && result != Failed
        && (startNode == endNode ==> result == Path([]))
        && (result == NoPath <==> !Reachable(edgesByNodeId, startNode, endNode))
        && (result.Path? ==> IsChain(edgesByNodeId, result.edges, startNode, endNode))
        && (result.Path? ==> forall c :: IsChain(edgesByNodeId, c, startNode, endNode) ==>
              PathWeight(w, result.edges) <= PathWeight(w, c))
    {
      result := ShortestPath(State(), directed, startNode, endNode, w);
    }
  }

  /** The edges of `es` that end at `n`, in order. */
  function IncomingOf(es: seq<Edge>, n: Node): (r: seq<Edge>)
    ensures forall i :: 0 <= i < |r| ==> r[i] in es && r[i].to == n
    ensures forall i :: 0 <= i < |es| && es[i].to == n ==> es[i] in r
    ensures multiset(r) <= multiset(es)
    ensures forall i :: 0 <= i < |es| ==>
      multiset(r)[es[i]] == (if es[i].to == n then multiset(es)[es[i]] else 0)
    ensures |r| <= |es|
    decreases |es|
  {
    if es == [] then []
    else
      var pre := IncomingOf(es[..|es| - 1], n);
      var last := es[|es| - 1];
      assert es == es[..|es| - 1] + [last];
      if last.to == n then pre + [last] else pre
  }

  /** The filter keeps `_edges` order: filtering a concatenation is
      concatenating the filtered parts. */
  lemma {:induction false} IncomingOfAppend(a: seq<Edge>, b: seq<Edge>, n: Node)
    ensures IncomingOf(a + b, n) == IncomingOf(a, n) + IncomingOf(b, n)
    decreases |b|
  {
    if b == [] {
      assert a + b == a;
    } else {
      var b' := b[..|b| - 1];
      var last := b[|b| - 1];
      assert (a + b)[..|a + b| - 1] == a + b';
      assert (a + b)[|a + b| - 1] == last;
      IncomingOfAppend(a, b', n);
    }
  }

  /** The filter of one edge is that edge exactly when it ends at `n`. */
  lemma IncomingOfSingle(x: Edge, n: Node)
    ensures IncomingOf([x], n) == (if x.to == n then [x] else [])
  {
    assert [x][..0] == [];
  }
}
