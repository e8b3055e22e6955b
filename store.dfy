/** The state of a graphite.js `Graph` (lines 295-729) as a value: the two
    arrays `_nodes` and `_edges`, the id maps `nodesById` and `edgesById`,
    and the adjacency map `edgesByNodeId`. There is one function per
    state-changing operation, following the source statement by statement,
    with its error paths; the `Graph` class is proved to change its fields
    exactly as these functions say. */
module GraphState {
  import opened Slots
  import opened Search
  import opened Entities
  import opened Paths

  datatype Store = Store(nodes: seq<Node>, edges: seq<Edge>, nodesById: map<string, Node>,
                         edgesById: map<string, Edge>, adj: map<string, seq<Edge>>)

  const EmptyStore := Store([], [], map[], map[], map[])

  /** `getId()`, the key `binarySearchById` compares. */
  function NodeId(n: Node): string
  {
    n.id
  }

  function EdgeId(e: Edge): string
  {
    e.id
  }

  /** What every operation keeps, whatever order operations come in and
      even when one of them throws half-way: the id maps hold each object
      under its own id, every node known by id has an adjacency list, and
      a list holds only edges that start at its node (or, when the graph
      is undirected, end there). */
  ghost predicate ValidStore(st: Store, directed: bool)
  {
    && IdsKeyed(st)
    && st.nodesById.Keys <= st.adj.Keys
    && (forall k :: k in st.adj ==> ListOk(k, st.adj[k], directed))
  }

  ghost predicate IdsKeyed(st: Store)
  {
    && (forall k :: k in st.nodesById ==> st.nodesById[k].id == k)
    && (forall k :: k in st.edgesById ==> st.edgesById[k].id == k)
  }

  /** The list under `k` holds edges that start at `k` or, when the graph is
      undirected, end there. */
  ghost predicate ListOk(k: string, list: seq<Edge>, directed: bool)
  {
    forall x :: x in list ==> x.from.id == k || (!directed && x.to.id == k)
  }

  /** What holds in addition for a graph built by insertions only: the
      array `_nodes` lists exactly the nodes known by id, once each, the
      adjacency lists belong to exactly those nodes and every listed edge
      runs between listed nodes. */
  ghost predicate ConsistentStore(st: Store)
  {
    && NoDup(st.nodes)
    && (forall i :: 0 <= i < |st.nodes| ==> st.nodes[i].id in st.nodesById && st.nodesById[st.nodes[i].id] == st.nodes[i])
    && (forall k :: k in st.nodesById ==> st.nodesById[k] in st.nodes)
    && st.adj.Keys == st.nodesById.Keys
    && EdgesWithin(st.adj, Elems(st.nodes))
  }

  /** No two distinct objects of `S` share an id, as `generateID` ensures. */
  ghost predicate UniqueIds(S: set<Node>)
  {
    forall a, b :: a in S && b in S && a.id == b.id ==> a == b
  }

  /** `n` is the node the graph knows under `n`'s id, if any. */
  ghost predicate Fits(st: Store, n: Node)
  {
    n.id in st.nodesById ==> st.nodesById[n.id] == n
  }

  lemma InMultisetSubset<T>(a: seq<T>, b: seq<T>, x: T)
    requires multiset(a) <= multiset(b) && x in a
    ensures x in b
  {
    assert x in multiset(a);
  }

  /** `addNode(node)` (lines 486-507). */
  function AddNodeTo(st: Store, n: Node): (r: Store)
    ensures n.id in st.nodesById ==> r == st
    ensures n.id !in st.nodesById ==>
      && r.nodesById == st.nodesById[n.id := n]
      && r.adj == st.adj[n.id := []]
      && |r.nodes| == |st.nodes| + 1
      && multiset(r.nodes) == multiset(st.nodes) + multiset{n}
      && r.edges == st.edges && r.edgesById == st.edgesById
  {
    if n.id in st.nodesById then st
    else
      var sr := BinarySearch(st.nodes, n, NodeId);
      st.(nodes := SpliceInsert(st.nodes, sr.index, n), nodesById := st.nodesById[n.id := n], adj := st.adj[n.id := []])
  }

  /** Lines 405-408 (and 410-413): insert `e` into the list under `k`
      unless the search finds it there. */
  function InsertListed(st: Store, k: string, e: Edge): (r: Store)
    requires k in st.adj
    ensures r.nodes == st.nodes && r.edges == st.edges && r.nodesById == st.nodesById && r.edgesById == st.edgesById
    ensures r.adj.Keys == st.adj.Keys && e in r.adj[k]
    ensures forall j :: j in st.adj && j != k ==> r.adj[j] == st.adj[j]
    ensures multiset(r.adj[k]) == multiset(st.adj[k]) || multiset(r.adj[k]) == multiset(st.adj[k]) + multiset{e}
    ensures forall x :: x in r.adj[k] ==> x in st.adj[k] || x == e
  {
    var list := st.adj[k];
    var sr := BinarySearch(list, e, EdgeId);
    if sr.obj.None? then st.(adj := st.adj[k := SpliceInsert(list, sr.index, e)])
    else SearchHit(list, e, EdgeId); st
  }

  /** Lines 400-403: `addNode` on both endpoints of an edge. */
  function AddEndpoints(st: Store, a: Node, b: Node): (r: Store)
    ensures r.edges == st.edges && r.edgesById == st.edgesById
    ensures r.nodesById.Keys == st.nodesById.Keys + {a.id, b.id}
  {
    AddNodeTo(AddNodeTo(st, a), b)
  }

  /** Adding the endpoints adds their ids, keeps every node already known,
      and leaves every list alone except the fresh empty ones. */
  lemma AddEndpointsFacts(st: Store, a: Node, b: Node)
    ensures var r := AddEndpoints(st, a, b);
      && r.edges == st.edges && r.edgesById == st.edgesById
      && r.nodesById.Keys == st.nodesById.Keys + {a.id, b.id}
      && (forall k :: k in st.nodesById ==> r.nodesById[k] == st.nodesById[k])
      && (forall k :: k in r.adj <==> k in st.adj || (k in {a.id, b.id} && k !in st.nodesById))
      && (forall k :: k in st.adj ==>
            r.adj[k] == (if (k == a.id || k == b.id) && k !in st.nodesById then [] else st.adj[k]))
      && multiset(st.nodes) <= multiset(r.nodes)
  {
    EndpointIds(st, a, b);
    EndpointKeys(st, a, b);
    EndpointLists(st, a, b);
  }

  lemma EndpointIds(st: Store, a: Node, b: Node)
    ensures var r := AddEndpoints(st, a, b);
      && r.edges == st.edges && r.edgesById == st.edgesById
      && r.nodesById.Keys == st.nodesById.Keys + {a.id, b.id}
      && (forall k :: k in st.nodesById ==> r.nodesById[k] == st.nodesById[k])
  {
    var m := AddNodeTo(st, a);
    assert m.nodesById.Keys == st.nodesById.Keys + {a.id};
    assert forall k :: k in st.nodesById ==> m.nodesById[k] == st.nodesById[k];
  }

  lemma EndpointKeys(st: Store, a: Node, b: Node)
    ensures var r := AddEndpoints(st, a, b);
      forall k :: k in r.adj <==> k in st.adj || (k in {a.id, b.id} && k !in st.nodesById)
  {
  }

  lemma EndpointLists(st: Store, a: Node, b: Node)
    ensures var r := AddEndpoints(st, a, b);
      forall k :: k in st.adj ==>
        r.adj[k] == (if (k == a.id || k == b.id) && k !in st.nodesById then [] else st.adj[k])
  {
  }

  /** Lines 405-414: list `e` under its from-node and, in an undirected
      graph, under its to-node. False when a list is missing. */
  function ListEdge(st: Store, directed: bool, e: Edge): (r: (Store, bool))
    ensures r.0.nodes == st.nodes && r.0.edges == st.edges
    ensures r.0.nodesById == st.nodesById && r.0.edgesById == st.edgesById
    ensures r.0.adj.Keys == st.adj.Keys
    ensures r.1 <==> e.from.id in st.adj && (directed || e.to.id in st.adj)
    ensures r.1 ==> e in r.0.adj[e.from.id] && (!directed ==> e in r.0.adj[e.to.id])
    ensures forall k :: k in st.adj && k != e.from.id && (directed || k != e.to.id) ==> r.0.adj[k] == st.adj[k]
    ensures forall k :: k in st.adj ==> multiset(st.adj[k]) <= multiset(r.0.adj[k])
  {
    if e.from.id !in st.adj then (st, false)
    else
      var st3 := InsertListed(st, e.from.id, e);
      if directed then (st3, true)
      else if e.to.id !in st3.adj then (st3, false)
      else
        var st4 := InsertListed(st3, e.to.id, e);
        assert e in st4.adj[e.from.id] by {
          if e.to.id == e.from.id {
            InMultisetSubset(st3.adj[e.from.id], st4.adj[e.from.id], e);
          }
        }
        (st4, true)
  }

  /** Lines 395-398: `_edges` gains `e` at the search index and
      `edgesById` maps its id to it. */
  function WithEdge(st: Store, e: Edge): (r: Store)
    ensures r.edgesById == st.edgesById[e.id := e]
    ensures multiset(r.edges) == multiset(st.edges) + multiset{e}
    ensures r.nodes == st.nodes && r.nodesById == st.nodesById && r.adj == st.adj
  {
    var sr := BinarySearch(st.edges, e, EdgeId);
    st.(edges := SpliceInsert(st.edges, sr.index, e), edgesById := st.edgesById[e.id := e])
  }

  lemma WithEdgeValid(st: Store, directed: bool, e: Edge)
    requires ValidStore(st, directed)
    ensures ValidStore(WithEdge(st, e), directed)
  {
  }

  /** With both lists present, `ListEdge` is one or two insertions. */
  lemma ListEdgeSteps(st: Store, directed: bool, e: Edge)
    requires e.from.id in st.adj && e.to.id in st.adj
    ensures var st3 := InsertListed(st, e.from.id, e);
      ListEdge(st, directed, e) == if directed then (st3, true) else (InsertListed(st3, e.to.id, e), true)
  {
  }

  /** `addEdge(edge)` (lines 378-415). The second component is false when
      the code throws: an adjacency list it reads is missing. */
  function AddEdgeTo(st: Store, directed: bool, e: Edge): (r: (Store, bool))
    ensures e.id in st.edgesById ==> r == (st, true)
    ensures e.id !in st.edgesById ==>
      && r.0.edgesById == st.edgesById[e.id := e]
      && multiset(r.0.edges) == multiset(st.edges) + multiset{e}
      && r.0.nodesById.Keys == st.nodesById.Keys + {e.from.id, e.to.id}
      && (forall k :: k in st.nodesById ==> r.0.nodesById[k] == st.nodesById[k])
    ensures e.id !in st.edgesById && r.1 ==>
      && e.from.id in r.0.adj && (!directed ==> e.to.id in r.0.adj)
      && e in r.0.adj[e.from.id]
      && (!directed ==> e in r.0.adj[e.to.id])
      && (forall k :: k in st.adj && k != e.from.id && (directed || k != e.to.id) ==>
            k in r.0.adj && r.0.adj[k] == (if k == e.to.id && k !in st.nodesById then [] else st.adj[k]))
    ensures e.id !in st.edgesById && directed && e.to.id != e.from.id && e.to.id !in st.nodesById ==>
      e.to.id in r.0.adj && r.0.adj[e.to.id] == []
  {
    if e.id in st.edgesById then (st, true)
    else
      var st1 := WithEdge(st, e);
      AddEndpointsFacts(st1, e.from, e.to);
      ListEdge(AddEndpoints(st1, e.from, e.to), directed, e)
  }

  /** `getOutgoingEdges(n)` (lines 549-575): the list under `n`'s id, or an
      exception (None) when the graph does not hold `n` or has no list
      for it. */
  function Outgoing(st: Store, n: Node): (r: Option<seq<Edge>>)
    ensures r.Some? ==> n.id in st.adj && r.value == st.adj[n.id]
    ensures ConsistentStore(st) && n.id in st.nodesById ==> r.Some?
    ensures n.id !in st.nodesById ==> r.None?
  {
    if n.id in st.nodesById && n.id in st.adj then Some(st.adj[n.id]) else None
  }

  /** A new edge is stored, its endpoints added, then it is listed. */
  lemma AddEdgeSteps(st: Store, directed: bool, e: Edge)
    requires e.id !in st.edgesById
    ensures AddEdgeTo(st, directed, e) == ListEdge(AddEndpoints(WithEdge(st, e), e.from, e.to), directed, e)
  {
  }

  /** Lines 440-443 (and 445-448): remove `e` from the list under `k` when
      the search finds it there. */
  function RemoveListed(st: Store, k: string, e: Edge): (r: Store)
    requires k in st.adj
    ensures r.nodes == st.nodes && r.edges == st.edges && r.nodesById == st.nodesById && r.edgesById == st.edgesById
    ensures r.adj.Keys == st.adj.Keys
    ensures forall j :: j in st.adj && j != k ==> r.adj[j] == st.adj[j]
    ensures r.adj[k] == st.adj[k] || (e in st.adj[k] && multiset(r.adj[k]) == multiset(st.adj[k]) - multiset{e})
    ensures r.adj == st.adj[k := UnlistFrom(st.adj[k], e)]
  {
    st.(adj := st.adj[k := UnlistFrom(st.adj[k], e)])
  }

  /** The list without `e` when the search finds it, else the list itself. */
  function UnlistFrom(list: seq<Edge>, e: Edge): (r: seq<Edge>)
    ensures r == list || (e in list && multiset(r) == multiset(list) - multiset{e})
    ensures multiset(r) <= multiset(list)
  {
    var sr := BinarySearch(list, e, EdgeId);
    if sr.obj.Some? then SearchHit(list, e, EdgeId); SpliceRemove(list, sr.index)
    else list
  }

  lemma ShrinksUpdate(a: map<string, seq<Edge>>, k: string, l: seq<Edge>)
    requires k in a && multiset(l) <= multiset(a[k])
    ensures Shrinks(a, a[k := l])
  {
    forall x | x in l
      ensures x in a[k]
    {
      InMultisetSubset(l, a[k], x);
    }
  }

  /** Every list of `b` holds only edges of the list under the same key
      in `a`. */
  ghost predicate Shrinks(a: map<string, seq<Edge>>, b: map<string, seq<Edge>>)
  {
    forall k :: k in b ==> k in a && Within(b[k], a[k])
  }

  ghost predicate Within(l1: seq<Edge>, l2: seq<Edge>)
  {
    forall x :: x in l1 ==> x in l2
  }

  lemma ShrinksTrans(a: map<string, seq<Edge>>, b: map<string, seq<Edge>>, c: map<string, seq<Edge>>)
    requires Shrinks(a, b) && Shrinks(b, c)
    ensures Shrinks(a, c)
  {
  }

  /** A list of one edge is never shortened: the search misses it. */
  lemma ShortListKeepsEdge(st: Store, k: string, e: Edge)
    requires k in st.adj && |st.adj[k]| <= 1
    ensures RemoveListed(st, k, e) == st
  {
    SearchShortCollection(st.adj[k], e, EdgeId);
    assert st.adj[k := st.adj[k]] == st.adj;
  }

  /** `removeEdge(edge)` (lines 416-450). `_edges` is spliced at the search
      index whether or not the search found the edge. The second component
      is false when the code throws: an adjacency list it reads is missing,
      by which time `edgesById` has already lost the edge. */
  function RemoveEdgeFrom(st: Store, directed: bool, e: Edge): (r: (Store, bool))
    ensures r.0.adj.Keys == st.adj.Keys
    ensures e.id !in st.edgesById ==> r == (st, true)
    ensures e.id in st.edgesById ==>
      && r.0.edgesById == st.edgesById - {e.id}
      && r.0.nodesById == st.nodesById && r.0.nodes == st.nodes
      && multiset(r.0.edges) <= multiset(st.edges) && |r.0.edges| >= |st.edges| - 1
      && (r.1 <==> e.from.id in st.adj && (directed || e.to.id in st.adj))
    ensures Shrinks(st.adj, r.0.adj)
    ensures forall k :: k in st.adj && k != e.from.id && (directed || k != e.to.id) ==> r.0.adj[k] == st.adj[k]
  {
    if e.id !in st.edgesById then (st, true)
    else UnlistEdge(DropEdge(st, e), directed, e)
  }

  /** Lines 432-435: `_edges` loses the element at the search index and
      `edgesById` loses the edge. */
  function DropEdge(st: Store, e: Edge): (r: Store)
    ensures r.edgesById == st.edgesById - {e.id}
    ensures r.nodesById == st.nodesById && r.nodes == st.nodes && r.adj == st.adj
    ensures multiset(r.edges) <= multiset(st.edges) && |r.edges| >= |st.edges| - 1
  {
    var sr := BinarySearch(st.edges, e, EdgeId);
    st.(edges := SpliceRemove(st.edges, sr.index), edgesById := st.edgesById - {e.id})
  }

  /** Lines 440-448: take `e` out of its from-node's list and, in an
      undirected graph, its to-node's list. False when a list is missing. */
  function UnlistEdge(st: Store, directed: bool, e: Edge): (r: (Store, bool))
    ensures r.0.nodes == st.nodes && r.0.edges == st.edges
    ensures r.0.nodesById == st.nodesById && r.0.edgesById == st.edgesById
    ensures r.0.adj.Keys == st.adj.Keys
    ensures r.1 <==> e.from.id in st.adj && (directed || e.to.id in st.adj)
    ensures Shrinks(st.adj, r.0.adj)
    ensures forall k :: k in st.adj && k != e.from.id && (directed || k != e.to.id) ==> r.0.adj[k] == st.adj[k]
  {
    if e.from.id !in st.adj then (st, false)
    else
      var st2 := RemoveListed(st, e.from.id, e);
      ShrinksUpdate(st.adj, e.from.id, UnlistFrom(st.adj[e.from.id], e));
      if directed then (st2, true)
      else if e.to.id !in st2.adj then (st2, false)
      else
        var st3 := RemoveListed(st2, e.to.id, e);
        ShrinksUpdate(st2.adj, e.to.id, UnlistFrom(st2.adj[e.to.id], e));
        ShrinksTrans(st.adj, st2.adj, st3.adj);
        (st3, true)
  }

  /** The outcome of `removeNode(node)`: `undefined` for a node the graph
      does not hold, the node's adjacency array on a normal return, or an
      exception. */
  datatype Removal = Absent | Removed(edges: seq<Edge>) | Threw

  /** One pass of the loop at lines 533-535: `edges[i]` reads the live
      array, so past its current end it is `undefined` and `removeEdge`
      throws on `undefined.getId()`. */
  function RemoveIteration(st: Store, directed: bool, id: string, i: nat): (r: (Store, bool))
    requires id in st.adj
    ensures r.0.adj.Keys == st.adj.Keys && r.0.nodesById == st.nodesById && r.0.nodes == st.nodes
    ensures forall k :: k in r.0.edgesById ==> k in st.edgesById && r.0.edgesById[k] == st.edgesById[k]
    ensures Shrinks(st.adj, r.0.adj)
    ensures i >= |st.adj[id]| ==> r == (st, false)
    ensures i < |st.adj[id]| ==> forall k :: k in st.edgesById && k !in r.0.edgesById ==> k == st.adj[id][i].id
  {
    var list := st.adj[id];
    if i < |list| then RemoveEdgeFrom(st, directed, list[i]) else (st, false)
  }

  /** The first `n` passes of that loop; false once a pass has thrown. */
  function RemoveLoop(st: Store, directed: bool, id: string, n: nat): (r: (Store, bool))
    requires id in st.adj
    ensures r.0.adj.Keys == st.adj.Keys && r.0.nodesById == st.nodesById && r.0.nodes == st.nodes
    decreases n
  {
    if n == 0 then (st, true)
    else
      var p := RemoveLoop(st, directed, id, n - 1);
      if !p.1 then p else RemoveIteration(p.0, directed, id, n - 1)
  }

  /** What the passes leave: fewer edges, only ones listed under `id`,
      and shorter lists. */
  lemma RemoveLoopFacts(st: Store, directed: bool, id: string, n: nat)
    requires id in st.adj
    ensures var r := RemoveLoop(st, directed, id, n);
      && (forall k :: k in r.0.edgesById ==> k in st.edgesById && r.0.edgesById[k] == st.edgesById[k])
      && Shrinks(st.adj, r.0.adj)
      && (forall k :: k in st.edgesById && k !in r.0.edgesById ==> exists x :: x in st.adj[id] && x.id == k)
  {
    RemoveLoopShrinks(st, directed, id, n);
    RemoveLoopEdges(st, directed, id, n);
  }

  lemma {:induction false} RemoveLoopShrinks(st: Store, directed: bool, id: string, n: nat)
    requires id in st.adj
    ensures Shrinks(st.adj, RemoveLoop(st, directed, id, n).0.adj)
    decreases n
  {
    if n > 0 {
      RemoveLoopShrinks(st, directed, id, n - 1);
      var p := RemoveLoop(st, directed, id, n - 1);
      if p.1 {
        var q := RemoveIteration(p.0, directed, id, n - 1);
        ShrinksTrans(st.adj, p.0.adj, q.0.adj);
      }
    }
  }

  lemma {:induction false} RemoveLoopEdges(st: Store, directed: bool, id: string, n: nat)
    requires id in st.adj
    ensures var r := RemoveLoop(st, directed, id, n);
      && (forall k :: k in r.0.edgesById ==> k in st.edgesById && r.0.edgesById[k] == st.edgesById[k])
      && (forall k :: k in st.edgesById && k !in r.0.edgesById ==> exists x :: x in st.adj[id] && x.id == k)
    decreases n
  {
    if n > 0 {
      RemoveLoopEdges(st, directed, id, n - 1);
      RemoveLoopShrinks(st, directed, id, n - 1);
      var p := RemoveLoop(st, directed, id, n - 1);
      if p.1 {
        var list := p.0.adj[id];
        if n - 1 < |list| {
          assert Within(list, st.adj[id]);
          assert list[n - 1] in st.adj[id];
        }
      }
    }
  }

  lemma RemoveLoopStep(st: Store, directed: bool, id: string, n: nat)
    requires id in st.adj && n > 0
    ensures var p := RemoveLoop(st, directed, id, n - 1);
      RemoveLoop(st, directed, id, n) == if !p.1 then p else RemoveIteration(p.0, directed, id, n - 1)
  {
  }

  /** Once a pass has thrown, later passes change nothing. */
  lemma {:induction false} RemoveLoopStuck(st: Store, directed: bool, id: string, n: nat, m: nat)
    requires id in st.adj && n <= m && !RemoveLoop(st, directed, id, n).1
    ensures RemoveLoop(st, directed, id, m) == RemoveLoop(st, directed, id, n)
    decreases m
  {
    if m > n {
      RemoveLoopStuck(st, directed, id, n, m - 1);
      RemoveLoopStep(st, directed, id, m);
    }
  }

  /** Lines 528-531: `_nodes` loses the element at the search index and
      `nodesById` loses the node. */
  function WithoutNode(st: Store, n: Node): (r: Store)
    ensures r.nodesById == st.nodesById - {n.id}
    ensures multiset(r.nodes) <= multiset(st.nodes) && |r.nodes| >= |st.nodes| - 1
    ensures r.edges == st.edges && r.edgesById == st.edgesById && r.adj == st.adj
  {
    var sr := BinarySearch(st.nodes, n, NodeId);
    st.(nodes := SpliceRemove(st.nodes, sr.index), nodesById := st.nodesById - {n.id})
  }

  /** The outcomes of `removeNode` for a node the graph holds. */
  lemma RemoveNodeSteps(st: Store, directed: bool, n: Node)
    requires n.id in st.nodesById
    ensures var st1 := WithoutNode(st, n);
      && (n.id !in st1.adj ==> RemoveNodeFrom(st, directed, n) == (st1, Threw))
      && (n.id in st1.adj ==>
            var p := RemoveLoop(st1, directed, n.id, |st1.adj[n.id]|);
            && (!p.1 ==> RemoveNodeFrom(st, directed, n) == (p.0, Threw))
            && (p.1 ==> RemoveNodeFrom(st, directed, n) == (p.0.(adj := p.0.adj - {n.id}), Removed(p.0.adj[n.id]))))
  {
  }

  /** `removeNode(node)` (lines 508-540). The node leaves `nodesById`
      before its edges are removed, whatever happens to them. */
  function RemoveNodeFrom(st: Store, directed: bool, n: Node): (r: (Store, Removal))
    ensures n.id !in st.nodesById ==> r == (st, Absent)
    ensures n.id in st.nodesById ==>
      && r.1 != Absent && r.0.nodesById == st.nodesById - {n.id}
      && multiset(r.0.nodes) <= multiset(st.nodes) && |r.0.nodes| >= |st.nodes| - 1
    ensures r.1.Removed? ==>
      && n.id in st.adj && r.0.adj.Keys == st.adj.Keys - {n.id}
      && Within(r.1.edges, st.adj[n.id])
    ensures forall k :: k in r.0.edgesById ==> k in st.edgesById && r.0.edgesById[k] == st.edgesById[k]
    ensures Shrinks(st.adj, r.0.adj)
    ensures forall k :: k in r.0.nodesById ==> k in st.nodesById && r.0.nodesById[k] == st.nodesById[k]
    ensures st.nodesById.Keys <= st.adj.Keys ==> r.0.nodesById.Keys <= r.0.adj.Keys
  {
    if n.id !in st.nodesById then (st, Absent)
    else
      var st1 := WithoutNode(st, n);
      if n.id !in st1.adj then (st1, Threw)
      else
        var p := RemoveLoop(st1, directed, n.id, |st1.adj[n.id]|);
        RemoveLoopFacts(st1, directed, n.id, |st1.adj[n.id]|);
        if !p.1 then (p.0, Threw)
        else (p.0.(adj := p.0.adj - {n.id}), Removed(p.0.adj[n.id]))
  }

  lemma AddNodeValid(st: Store, directed: bool, n: Node)
    requires ValidStore(st, directed)
    ensures ValidStore(AddNodeTo(st, n), directed)
  {
  }

  /** `e` may be listed under its from-node and, undirected, its to-node. */
  lemma ListEdgeKeepsLists(st: Store, directed: bool, e: Edge)
    requires forall k :: k in st.adj ==> ListOk(k, st.adj[k], directed)
    ensures var r := ListEdge(st, directed, e).0;
      forall k :: k in r.adj ==> ListOk(k, r.adj[k], directed)
  {
    if e.from.id in st.adj {
      InsertKeepsLists(st, directed, e.from.id, e);
      var st3 := InsertListed(st, e.from.id, e);
      if !directed && e.to.id in st3.adj {
        InsertKeepsLists(st3, directed, e.to.id, e);
      }
    }
  }

  lemma InsertKeepsLists(st: Store, directed: bool, k: string, e: Edge)
    requires k in st.adj && (e.from.id == k || (!directed && e.to.id == k))
    requires forall j :: j in st.adj ==> ListOk(j, st.adj[j], directed)
    ensures var r := InsertListed(st, k, e);
      forall j :: j in r.adj ==> ListOk(j, r.adj[j], directed)
  {
    var r := InsertListed(st, k, e);
    assert ListOk(k, r.adj[k], directed);
  }

  /** Under the invariant `addEdge` never throws, and it keeps the invariant. */
  lemma AddEdgeValid(st: Store, directed: bool, e: Edge)
    requires ValidStore(st, directed)
    ensures AddEdgeTo(st, directed, e).1 && ValidStore(AddEdgeTo(st, directed, e).0, directed)
  {
    if e.id !in st.edgesById {
      var st1 := WithEdge(st, e);
      assert ValidStore(st1, directed);
      AddNodeValid(st1, directed, e.from);
      AddNodeValid(AddNodeTo(st1, e.from), directed, e.to);
      var st2 := AddEndpoints(st1, e.from, e.to);
      AddEndpointsFacts(st1, e.from, e.to);
      ListEdgeKeepsLists(st2, directed, e);
    }
  }

  /** Dropping objects from the id maps and edges from the lists keeps the
      invariant, as long as every node still known keeps its list. */
  lemma ShrinkKeepsValid(st: Store, r: Store, directed: bool)
    requires ValidStore(st, directed)
    requires forall k :: k in r.nodesById ==> k in st.nodesById && r.nodesById[k] == st.nodesById[k]
    requires forall k :: k in r.edgesById ==> k in st.edgesById && r.edgesById[k] == st.edgesById[k]
    requires r.nodesById.Keys <= r.adj.Keys
    requires Shrinks(st.adj, r.adj)
    ensures ValidStore(r, directed)
  {
    forall k | k in r.adj
      ensures ListOk(k, r.adj[k], directed)
    {
      assert Within(r.adj[k], st.adj[k]);
    }
  }

  /** `removeEdge` keeps the invariant, also when it throws. */
  lemma RemoveEdgeValid(st: Store, directed: bool, e: Edge)
    requires ValidStore(st, directed)
    ensures ValidStore(RemoveEdgeFrom(st, directed, e).0, directed)
  {
    ShrinkKeepsValid(st, RemoveEdgeFrom(st, directed, e).0, directed);
  }

  /** `removeEdge` keeps an insert-built graph consistent, also when it
      throws: the node collections are untouched and the lists only shrink. */
  lemma RemoveEdgeConsistent(st: Store, directed: bool, e: Edge)
    requires ConsistentStore(st)
    ensures ConsistentStore(RemoveEdgeFrom(st, directed, e).0)
  {
    if e.id in st.edgesById {
      ShrinkKeepsConsistent(st, RemoveEdgeFrom(st, directed, e).0);
    }
  }

  /** Shrinking the adjacency lists of a consistent graph, and nothing
      about its nodes, keeps it consistent. */
  lemma ShrinkKeepsConsistent(st: Store, r: Store)
    requires ConsistentStore(st) && Shrinks(st.adj, r.adj)
    requires r.nodes == st.nodes && r.nodesById == st.nodesById && r.adj.Keys == st.adj.Keys
    ensures ConsistentStore(r)
  {
    forall k, x | k in r.adj && x in r.adj[k]
      ensures x.from in Elems(r.nodes) && x.to in Elems(r.nodes)
    {
      assert Within(r.adj[k], st.adj[k]);
      assert x in st.adj[k];
    }
  }

  /** `removeNode` keeps the invariant, also when it throws. */
  lemma RemoveNodeValid(st: Store, directed: bool, n: Node)
    requires ValidStore(st, directed)
    ensures ValidStore(RemoveNodeFrom(st, directed, n).0, directed)
  {
    ShrinkKeepsValid(st, RemoveNodeFrom(st, directed, n).0, directed);
  }

  /** An edge whose id occurs in none of the node's listed edges survives
      `removeNode`, whatever the outcome. */
  lemma RemoveNodeKeepsUnlisted(st: Store, directed: bool, n: Node, key: string)
    requires key in st.edgesById
    requires n.id in st.adj ==> forall x :: x in st.adj[n.id] ==> x.id != key
    ensures var r := RemoveNodeFrom(st, directed, n).0;
      key in r.edgesById && r.edgesById[key] == st.edgesById[key]
  {
    if n.id in st.nodesById && n.id in st.adj {
      var sr := BinarySearch(st.nodes, n, NodeId);
      var st1 := st.(nodes := SpliceRemove(st.nodes, sr.index), nodesById := st.nodesById - {n.id});
      RemoveLoopFacts(st1, directed, n.id, |st1.adj[n.id]|);
    }
  }

  /** In a directed graph the adjacency lists hold outgoing edges only,
      so `removeNode(node)` leaves every edge into `node` in the graph. */
  lemma IncomingEdgeSurvives(st: Store, n: Node, key: string)
    requires ValidStore(st, true)
    requires key in st.edgesById && st.edgesById[key].to.id == n.id && st.edgesById[key].from.id != n.id
    requires forall k, x :: k in st.adj && x in st.adj[k] && x.id == key ==> x == st.edgesById[key]
    ensures var r := RemoveNodeFrom(st, true, n).0;
      key in r.edgesById && r.edgesById[key] == st.edgesById[key]
  {
    if n.id in st.adj {
      forall x | x in st.adj[n.id]
        ensures x.id != key
      {
        assert x.from.id == n.id;
      }
    }
    RemoveNodeKeepsUnlisted(st, true, n, key);
  }

  /** Removing a node with two outgoing edges: the first `removeEdge`
      shortens the live list to one edge, so the second pass reads past
      its end and throws. The node has left `nodesById`, yet `_nodes`
      still holds it (the one-element search misses) and the second edge
      stays in the graph. */
  lemma TwoOutgoingEdgesThrow(a: Node, e1: Edge, e2: Edge)
    requires e1.from == a && e2.from == a
    requires a.id == "Node_1" && e1.id == "Edge_1" && e2.id == "Edge_2"
    ensures ValidStore(Store([a], [e1, e2], map["Node_1" := a], map["Edge_1" := e1, "Edge_2" := e2], map["Node_1" := [e1, e2]]), true)
    ensures RemoveNodeFrom(Store([a], [e1, e2], map["Node_1" := a], map["Edge_1" := e1, "Edge_2" := e2], map["Node_1" := [e1, e2]]), true, a)
         == (Store([a], [e2], map[], map["Edge_2" := e2], map["Node_1" := [e2]]), Threw)
  {
    var st := Store([a], [e1, e2], map["Node_1" := a], map["Edge_1" := e1, "Edge_2" := e2], map["Node_1" := [e1, e2]]);
    SearchShortCollection([a], a, NodeId);
    assert SpliceRemove([a], 1) == [a];
    var st1 := Store([a], [e1, e2], map[], map["Edge_1" := e1, "Edge_2" := e2], map["Node_1" := [e1, e2]]);
    assert st.nodesById - {a.id} == map[];
    assert st1 == st.(nodes := SpliceRemove(st.nodes, 1), nodesById := st.nodesById - {a.id});
    FirstPass(a, e1, e2);
    RemoveLoopStep(st1, true, "Node_1", 1);
    RemoveLoopStep(st1, true, "Node_1", 2);
    TwoEdgeStoreValid(a, e1, e2);
  }

  lemma TwoEdgeStoreValid(a: Node, e1: Edge, e2: Edge)
    requires e1.from == a && e2.from == a
    requires a.id == "Node_1" && e1.id == "Edge_1" && e2.id == "Edge_2"
    ensures ValidStore(Store([a], [e1, e2], map["Node_1" := a], map["Edge_1" := e1, "Edge_2" := e2], map["Node_1" := [e1, e2]]), true)
  {
    var st := Store([a], [e1, e2], map["Node_1" := a], map["Edge_1" := e1, "Edge_2" := e2], map["Node_1" := [e1, e2]]);
    assert st.adj.Keys == {"Node_1"} && st.adj["Node_1"] == [e1, e2];
    assert ListOk("Node_1", [e1, e2], true);
    assert st.edgesById.Keys == {"Edge_1", "Edge_2"};
    assert IdsKeyed(st);
  }

  /** The first pass of that loop removes `e1`, found at 0 in both `_edges`
      and the node's list. */
  lemma FirstPass(a: Node, e1: Edge, e2: Edge)
    requires e1.from == a && e2.from == a
    requires a.id == "Node_1" && e1.id == "Edge_1" && e2.id == "Edge_2"
    ensures var st1 := Store([a], [e1, e2], map[], map["Edge_1" := e1, "Edge_2" := e2], map["Node_1" := [e1, e2]]);
      RemoveIteration(st1, true, "Node_1", 0) == (Store([a], [e2], map[], map["Edge_2" := e2], map["Node_1" := [e2]]), true)
  {
    FirstDrop(a, e1, e2);
    FirstUnlist(a, e1, e2);
  }

  /** `e1` leaves `_edges` and `edgesById`. */
  lemma FirstDrop(a: Node, e1: Edge, e2: Edge)
    requires e1.id == "Edge_1" && e2.id == "Edge_2"
    ensures DropEdge(Store([a], [e1, e2], map[], map["Edge_1" := e1, "Edge_2" := e2], map["Node_1" := [e1, e2]]), e1)
         == Store([a], [e2], map[], map["Edge_2" := e2], map["Node_1" := [e1, e2]])
  {
    assert SearchFrom([e1, e2], e1, EdgeId, 0, 1) == SearchResult(0, Some(e1));
    assert SpliceRemove([e1, e2], 0) == [e2];
    assert map["Edge_1" := e1, "Edge_2" := e2] - {"Edge_1"} == map["Edge_2" := e2];
  }

  /** `e1` leaves the list of its from-node. */
  lemma FirstUnlist(a: Node, e1: Edge, e2: Edge)
    requires e1.from == a && a.id == "Node_1" && e1.id == "Edge_1" && e2.id == "Edge_2"
    ensures UnlistEdge(Store([a], [e2], map[], map["Edge_2" := e2], map["Node_1" := [e1, e2]]), true, e1)
         == (Store([a], [e2], map[], map["Edge_2" := e2], map["Node_1" := [e2]]), true)
  {
    var mid := Store([a], [e2], map[], map["Edge_2" := e2], map["Node_1" := [e1, e2]]);
    assert SearchFrom([e1, e2], e1, EdgeId, 0, 1) == SearchResult(0, Some(e1));
    assert SpliceRemove([e1, e2], 0) == [e2];
    assert map["Node_1" := [e1, e2]]["Node_1" := [e2]] == map["Node_1" := [e2]];
    assert UnlistFrom([e1, e2], e1) == [e2];
    assert RemoveListed(mid, "Node_1", e1) == Store([a], [e2], map[], map["Edge_2" := e2], map["Node_1" := [e2]]);
  }

  /** The setup loops of the constructor (lines 720-728). */
  function AddNodesTo(st: Store, ns: seq<Node>): (r: Store)
    ensures r.edges == st.edges && r.edgesById == st.edgesById
    ensures st.nodesById.Keys <= r.nodesById.Keys
    ensures forall i :: 0 <= i < |ns| ==> ns[i].id in r.nodesById
    decreases |ns|
  {
    if ns == [] then st else AddNodeTo(AddNodesTo(st, ns[..|ns| - 1]), ns[|ns| - 1])
  }

  function AddEdgesTo(st: Store, directed: bool, es: seq<Edge>): (r: (Store, bool))
    ensures st.nodesById.Keys <= r.0.nodesById.Keys
    ensures st.edgesById.Keys <= r.0.edgesById.Keys
    ensures r.1 ==> forall i :: 0 <= i < |es| ==> es[i].id in r.0.edgesById
    decreases |es|
  {
    if es == [] then (st, true)
    else
      var p := AddEdgesTo(st, directed, es[..|es| - 1]);
      if !p.1 then p
      else
        var q := AddEdgeTo(p.0, directed, es[|es| - 1]);
        assert p.0.edgesById.Keys <= q.0.edgesById.Keys && es[|es| - 1].id in q.0.edgesById;
        assert forall i :: 0 <= i < |es| - 1 ==> es[i] == es[..|es| - 1][i];
        q
  }

  function Build(ns: seq<Node>, es: seq<Edge>, directed: bool): (r: (Store, bool))
    ensures forall i :: 0 <= i < |ns| ==> ns[i].id in r.0.nodesById
    ensures r.1 ==> forall i :: 0 <= i < |es| ==> es[i].id in r.0.edgesById
  {
    AddEdgesTo(AddNodesTo(EmptyStore, ns), directed, es)
  }

  lemma {:induction false} AddNodesValid(st: Store, directed: bool, ns: seq<Node>)
    requires ValidStore(st, directed)
    ensures ValidStore(AddNodesTo(st, ns), directed)
    decreases |ns|
  {
    if ns != [] {
      AddNodesValid(st, directed, ns[..|ns| - 1]);
      AddNodeValid(AddNodesTo(st, ns[..|ns| - 1]), directed, ns[|ns| - 1]);
    }
  }

  lemma {:induction false} AddEdgesValid(st: Store, directed: bool, es: seq<Edge>)
    requires ValidStore(st, directed)
    ensures AddEdgesTo(st, directed, es).1 && ValidStore(AddEdgesTo(st, directed, es).0, directed)
    decreases |es|
  {
    if es != [] {
      AddEdgesValid(st, directed, es[..|es| - 1]);
      AddEdgeValid(AddEdgesTo(st, directed, es[..|es| - 1]).0, directed, es[|es| - 1]);
    }
  }

  /** The constructor never throws and yields a valid graph. */
  lemma BuildValid(ns: seq<Node>, es: seq<Edge>, directed: bool)
    ensures Build(ns, es, directed).1 && ValidStore(Build(ns, es, directed).0, directed)
  {
    assert ValidStore(EmptyStore, directed);
    AddNodesValid(EmptyStore, directed, ns);
    AddEdgesValid(AddNodesTo(EmptyStore, ns), directed, es);
  }

  /** Inserting an element that is not there keeps a sequence free of
      duplicates. */
  lemma {:induction false} NoDupInsert<T>(s: seq<T>, index: nat, x: T)
    requires NoDup(s) && x !in s
    ensures NoDup(SpliceInsert(s, index, x))
  {
    var r := SpliceInsert(s, index, x);
    var m := Min(index, |s|);
    forall i, j | 0 <= i < j < |r|
      ensures r[i] != r[j]
    {
      assert r[..m] == s[..m] && r[m + 1..] == s[m..];
      if j < m {
        assert r[i] == s[..m][i] && r[j] == s[..m][j];
      } else if j == m {
        assert r[i] == s[..m][i];
      } else if i == m {
        assert r[j] == s[m..][j - m - 1];
      } else if i < m {
        assert r[i] == s[..m][i] && r[j] == s[m..][j - m - 1];
      } else {
        assert r[i] == s[m..][i - m - 1] && r[j] == s[m..][j - m - 1];
      }
    }
  }

  /** `addNode` keeps an insert-only graph consistent. */
  lemma AddNodeConsistent(st: Store, n: Node)
    requires ConsistentStore(st)
    ensures ConsistentStore(AddNodeTo(st, n))
  {
    if n.id !in st.nodesById {
      var r := AddNodeTo(st, n);
      InsertedNodes(st, n);
      InsertedKeyed(st, n);
      assert forall k :: k in r.nodesById ==> r.nodesById[k] in r.nodes;
      assert EdgesWithin(r.adj, Elems(r.nodes)) by {
        InsertedWithin(st, n);
      }
    }
  }

  /** A fresh node joins `_nodes` once. */
  lemma InsertedNodes(st: Store, n: Node)
    requires ConsistentStore(st) && n.id !in st.nodesById
    ensures var r := AddNodeTo(st, n);
      NoDup(r.nodes) && Elems(r.nodes) == Elems(st.nodes) + {n}
  {
    var r := AddNodeTo(st, n);
    var sr := BinarySearch(st.nodes, n, NodeId);
    assert r.nodes == SpliceInsert(st.nodes, sr.index, n);
    assert n !in st.nodes;
    NoDupInsert(st.nodes, sr.index, n);
    forall x | x in r.nodes
      ensures x in st.nodes || x == n
    {
      assert x in multiset(r.nodes);
    }
    forall x | x in st.nodes || x == n
      ensures x in r.nodes
    {
      assert x in multiset(r.nodes);
    }
  }

  lemma InsertedKeyed(st: Store, n: Node)
    requires ConsistentStore(st) && n.id !in st.nodesById
    requires Elems(AddNodeTo(st, n).nodes) == Elems(st.nodes) + {n}
    ensures var r := AddNodeTo(st, n);
      forall i :: 0 <= i < |r.nodes| ==> r.nodes[i].id in r.nodesById && r.nodesById[r.nodes[i].id] == r.nodes[i]
  {
    var r := AddNodeTo(st, n);
    forall i | 0 <= i < |r.nodes|
      ensures r.nodes[i].id in r.nodesById && r.nodesById[r.nodes[i].id] == r.nodes[i]
    {
      var x := r.nodes[i];
      assert x in Elems(r.nodes);
      if x != n {
        assert x in Elems(st.nodes);
        var j :| 0 <= j < |st.nodes| && st.nodes[j] == x;
      }
    }
  }

  lemma InsertedWithin(st: Store, n: Node)
    requires ConsistentStore(st) && n.id !in st.nodesById
    requires Elems(AddNodeTo(st, n).nodes) == Elems(st.nodes) + {n}
    ensures EdgesWithin(AddNodeTo(st, n).adj, Elems(AddNodeTo(st, n).nodes))
  {
  }

  /** Listing `e` keeps every listed edge between nodes of `V`. */
  lemma ListEdgeWithin(st: Store, directed: bool, e: Edge, V: set<Node>)
    requires EdgesWithin(st.adj, V) && e.from in V && e.to in V
    ensures EdgesWithin(ListEdge(st, directed, e).0.adj, V)
  {
    if e.from.id in st.adj {
      InsertWithin(st, e.from.id, e, V);
      var st3 := InsertListed(st, e.from.id, e);
      if !directed && e.to.id in st3.adj {
        InsertWithin(st3, e.to.id, e, V);
      }
    }
  }

  lemma InsertWithin(st: Store, k: string, e: Edge, V: set<Node>)
    requires k in st.adj && EdgesWithin(st.adj, V) && e.from in V && e.to in V
    ensures EdgesWithin(InsertListed(st, k, e).adj, V)
  {
  }

  /** `addEdge` keeps an insert-only graph consistent when its endpoints
      are the nodes the graph knows under their ids. */
  lemma AddEdgeConsistent(st: Store, directed: bool, e: Edge)
    requires ConsistentStore(st) && Fits(st, e.from) && Fits(st, e.to)
    requires e.from.id == e.to.id ==> e.from == e.to
    ensures ConsistentStore(AddEdgeTo(st, directed, e).0)
  {
    if e.id !in st.edgesById {
      var st1 := WithEdge(st, e);
      EndpointsListed(st1, e);
      ListEdgeConsistent(AddEndpoints(st1, e.from, e.to), directed, e);
    }
  }

  lemma EndpointsListed(st: Store, e: Edge)
    requires ConsistentStore(st) && Fits(st, e.from) && Fits(st, e.to)
    requires e.from.id == e.to.id ==> e.from == e.to
    ensures var r := AddEndpoints(st, e.from, e.to);
      ConsistentStore(r) && e.from in r.nodes && e.to in r.nodes
  {
    var m := AddNodeTo(st, e.from);
    AddNodeConsistent(st, e.from);
    AddNodeConsistent(m, e.to);
    var r := AddNodeTo(m, e.to);
    assert e.from in m.nodes by { KnownIsListed(m, e.from); }
    assert e.to in r.nodes by { KnownIsListed(r, e.to); }
    assert e.from in r.nodes by {
      if e.to.id != e.from.id {
        assert r.nodesById[e.from.id] == e.from;
        KnownIsListed(r, e.from);
      }
    }
  }

  lemma ListEdgeConsistent(st: Store, directed: bool, e: Edge)
    requires ConsistentStore(st) && e.from in st.nodes && e.to in st.nodes
    ensures ConsistentStore(ListEdge(st, directed, e).0)
  {
    ListEdgeWithin(st, directed, e, Elems(st.nodes));
  }

  lemma KnownIsListed(st: Store, n: Node)
    requires ConsistentStore(st) && n.id in st.nodesById && st.nodesById[n.id] == n
    ensures n in st.nodes
  {
  }

  /** Every node the graph knows by id is drawn from `S`. */
  ghost predicate KnownFrom(st: Store, S: set<Node>)
  {
    forall k :: k in st.nodesById ==> st.nodesById[k] in S && st.nodesById[k].id == k
  }

  lemma FitsFromUnique(st: Store, S: set<Node>, n: Node)
    requires KnownFrom(st, S) && UniqueIds(S) && n in S
    ensures Fits(st, n)
  {
  }

  lemma AddNodeKnown(st: Store, n: Node, S: set<Node>)
    requires KnownFrom(st, S) && n in S
    ensures KnownFrom(AddNodeTo(st, n), S)
  {
  }

  ghost function EdgeEnds(es: seq<Edge>): set<Node>
  {
    (set e | e in es :: e.from) + (set e | e in es :: e.to)
  }

  lemma {:induction false} AddNodesConsistent(st: Store, ns: seq<Node>, S: set<Node>)
    requires ConsistentStore(st) && KnownFrom(st, S) && Elems(ns) <= S
    ensures ConsistentStore(AddNodesTo(st, ns)) && KnownFrom(AddNodesTo(st, ns), S)
    decreases |ns|
  {
    if ns != [] {
      var pre := ns[..|ns| - 1];
      assert Elems(pre) <= Elems(ns);
      AddNodesConsistent(st, pre, S);
      AddNodeConsistent(AddNodesTo(st, pre), ns[|ns| - 1]);
    }
  }

  lemma {:induction false} AddEdgesConsistent(st: Store, directed: bool, es: seq<Edge>, S: set<Node>)
    requires ConsistentStore(st) && KnownFrom(st, S) && UniqueIds(S) && EdgeEnds(es) <= S
    ensures ConsistentStore(AddEdgesTo(st, directed, es).0) && KnownFrom(AddEdgesTo(st, directed, es).0, S)
    decreases |es|
  {
    if es != [] {
      var pre := es[..|es| - 1];
      var e := es[|es| - 1];
      assert EdgeEnds(pre) <= EdgeEnds(es);
      assert e.from in EdgeEnds(es) && e.to in EdgeEnds(es);
      AddEdgesConsistent(st, directed, pre, S);
      var p := AddEdgesTo(st, directed, pre);
      if p.1 {
        FitsFromUnique(p.0, S, e.from);
        FitsFromUnique(p.0, S, e.to);
        AddEdgeConsistent(p.0, directed, e);
        AddEdgeKnown(p.0, directed, e, S);
      }
    }
  }

  lemma AddEdgeKnown(st: Store, directed: bool, e: Edge, S: set<Node>)
    requires KnownFrom(st, S) && e.from in S && e.to in S
    ensures KnownFrom(AddEdgeTo(st, directed, e).0, S)
  {
    if e.id !in st.edgesById {
      var st1 := WithEdge(st, e);
      AddNodeKnown(st1, e.from, S);
      AddNodeKnown(AddNodeTo(st1, e.from), e.to, S);
    }
  }

  /** The constructor, given nodes and edge endpoints with distinct ids,
      builds a consistent graph. */
  lemma BuildConsistent(ns: seq<Node>, es: seq<Edge>, directed: bool)
    requires UniqueIds(Elems(ns) + EdgeEnds(es))
    ensures ConsistentStore(Build(ns, es, directed).0)
  {
    var S := Elems(ns) + EdgeEnds(es);
    assert ConsistentStore(EmptyStore) && KnownFrom(EmptyStore, S);
    AddNodesConsistent(EmptyStore, ns, S);
    AddEdgesConsistent(AddNodesTo(EmptyStore, ns), directed, es, S);
  }

  /** `_edges` lists exactly the edges known by id, once each. */
  ghost predicate EdgesListed(st: Store)
  {
    ListsById(st.edges, st.edgesById)
  }

  ghost predicate ListsById(es: seq<Edge>, byId: map<string, Edge>)
  {
    && NoDup(es)
    && (forall i :: 0 <= i < |es| ==> es[i].id in byId && byId[es[i].id] == es[i])
    && (forall k :: k in byId ==> byId[k] in es)
  }

  /** `addNode` leaves the edge collections alone. */
  lemma AddNodeKeepsEdges(st: Store, n: Node)
    ensures AddNodeTo(st, n).edges == st.edges && AddNodeTo(st, n).edgesById == st.edgesById
  {
  }

  /** What `addEdge` does to `_edges` and `edgesById` for a new edge. */
  lemma AddEdgeEdges(st: Store, directed: bool, e: Edge)
    requires e.id !in st.edgesById
    ensures var r := AddEdgeTo(st, directed, e).0;
      && r.edges == SpliceInsert(st.edges, BinarySearch(st.edges, e, EdgeId).index, e)
      && r.edgesById == st.edgesById[e.id := e]
  {
    var st1 := WithEdge(st, e);
    AddEndpointsFacts(st1, e.from, e.to);
  }

  lemma InsertById(es: seq<Edge>, byId: map<string, Edge>, index: nat, e: Edge)
    requires ListsById(es, byId) && e.id !in byId
    ensures ListsById(SpliceInsert(es, index, e), byId[e.id := e])
  {
    var r := SpliceInsert(es, index, e);
    var m := byId[e.id := e];
    assert e !in es;
    NoDupInsert(es, index, e);
    forall i | 0 <= i < |r|
      ensures r[i].id in m && m[r[i].id] == r[i]
    {
      var x := r[i];
      assert x in multiset(r);
      if x != e {
        assert x in es;
      }
    }
    forall k | k in m
      ensures m[k] in r
    {
      assert m[k] in multiset(r);
    }
  }

  /** `addEdge` keeps `_edges` and `edgesById` in step. */
  lemma AddEdgeListed(st: Store, directed: bool, e: Edge)
    requires EdgesListed(st)
    ensures EdgesListed(AddEdgeTo(st, directed, e).0)
  {
    if e.id !in st.edgesById {
      AddEdgeEdges(st, directed, e);
      InsertById(st.edges, st.edgesById, BinarySearch(st.edges, e, EdgeId).index, e);
    }
  }

  lemma {:induction false} AddEdgesListed(st: Store, directed: bool, es: seq<Edge>)
    requires EdgesListed(st)
    ensures EdgesListed(AddEdgesTo(st, directed, es).0)
    decreases |es|
  {
    if es != [] {
      AddEdgesListed(st, directed, es[..|es| - 1]);
      var p := AddEdgesTo(st, directed, es[..|es| - 1]);
      if p.1 {
        AddEdgeListed(p.0, directed, es[|es| - 1]);
      }
    }
  }

  lemma {:induction false} AddNodesKeepEdges(st: Store, ns: seq<Node>)
    ensures AddNodesTo(st, ns).edges == st.edges && AddNodesTo(st, ns).edgesById == st.edgesById
    decreases |ns|
  {
    if ns != [] {
      AddNodesKeepEdges(st, ns[..|ns| - 1]);
      AddNodeKeepsEdges(AddNodesTo(st, ns[..|ns| - 1]), ns[|ns| - 1]);
    }
  }

  /** The constructor leaves `_edges` and `edgesById` in step. */
  lemma BuildListed(ns: seq<Node>, es: seq<Edge>, directed: bool)
    ensures EdgesListed(Build(ns, es, directed).0)
  {
    AddNodesKeepEdges(EmptyStore, ns);
    AddEdgesListed(AddNodesTo(EmptyStore, ns), directed, es);
  }
}
