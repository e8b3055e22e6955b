/** The loops of `Graph.getShortestPath` (graphite.js lines 616-718) that
    read and write node meta: initialisation, `popMin`, relaxation, path
    reconstruction and the final reset. Each is proved against the ghost
    `Scratch` values of module `Paths`, which the meta slots mirror. */
module Dijkstra {
  import opened Slots
  import opened Search
  import opened Entities
  import opened Paths
  import opened GraphState

  /** What `getShortestPath` yields: the array of edges, `null`, or an
      exception. */
  datatype PathResult = Path(edges: seq<Edge>) | NoPath | Failed

  /** The `distance` slot of `n` as a number: a numeric slot holds its
      number; `undefined` behaves as Infinity in `x < minDistance`. */
  function MetaDistance(n: Node): (r: Dist)
    reads n
    ensures r.Fin? ==> Lookup(n.meta, "distance") == Some(Num(r))
    ensures Lookup(n.meta, "distance") == Some(Num(Inf)) || Lookup(n.meta, "distance").None? ==> r.Inf?
  {
    var v := Lookup(n.meta, "distance");
    if v.Some? && v.value.Num? then v.value.d else Inf
  }

  /** The `distance` slot is unset or a number. */
  predicate ComparableDistance(n: Node)
    reads n
    ensures ComparableDistance(n) ==>
      Lookup(n.meta, "distance").None? || Lookup(n.meta, "distance") == Some(Num(MetaDistance(n)))
  {
    var v := Lookup(n.meta, "distance");
    v.None? || v.value.Num?
  }

  /** The meta slots of every node of `V` hold the scratch values. */
  ghost predicate Mirrors(s: Scratch, V: set<Node>)
    reads V
  {
    forall n :: n in V ==>
      && n in s.dist && n in s.best
      && Lookup(n.meta, "distance") == Some(Num(s.dist[n]))
      && Lookup(n.meta, "best_incoming_edge") == Some(s.best[n])
  }

  lemma MirroredDistance(s: Scratch, V: set<Node>, n: Node)
    requires Mirrors(s, V) && n in V
    ensures n in s.dist && MetaDistance(n) == s.dist[n] && ComparableDistance(n)
  {
  }

  /** The three writes of the initialisation loop (lines 657-659). */
  function Initialized(m: map<string, Value>): (r: map<string, Value>)
    ensures Lookup(r, "distance") == Some(Num(Inf)) && Lookup(r, "visited") == Some(Bool(false))
    ensures Lookup(r, "best_incoming_edge") == Some(Null)
  {
    m["distance" := Num(Inf)]["visited" := Bool(false)]["best_incoming_edge" := Null]
  }

  /** Initialising a node twice is initialising it once. */
  lemma InitializedTwice(m: map<string, Value>)
    ensures Initialized(Initialized(m)) == Initialized(m)
  {
    assert Initialized(Initialized(m)).Keys == Initialized(m).Keys;
  }

  /** Lines 654-662: every listed node gets distance Infinity, visited
      false and no best incoming edge and is queued; then the start node
      gets distance 0. */
  method InitAll(ns: seq<Node>, start: Node) returns (unvisited: seq<Node>)
    modifies Elems(ns)`meta, start`meta
    ensures unvisited == ns
    ensures forall j :: 0 <= j < |ns| && ns[j] != start ==> ns[j].meta == Initialized(old(ns[j].meta))
    ensures start.meta == Write(if start in ns then Initialized(old(start.meta)) else old(start.meta),
                                "distance", Some(Num(Fin(0))))
    ensures forall j :: 0 <= j < |ns| ==> ns[j].attrs == old(ns[j].attrs)
    ensures start.attrs == old(start.attrs)
    ensures Mirrors(InitialScratch(Elems(ns), start), Elems(ns))
  {
    unvisited := QueueAll(ns);
    var v := start.Meta("distance", Some(Num(Fin(0))));
    InitialMirrors(ns, start);
  }

  /** The initialisation loop proper (lines 656-661). A node listed twice
      is initialised twice, to the same effect. */
  method QueueAll(ns: seq<Node>) returns (unvisited: seq<Node>)
    modifies Elems(ns)`meta
    ensures unvisited == ns
    ensures forall j :: 0 <= j < |ns| ==> ns[j].meta == Initialized(old(ns[j].meta)) && ns[j].attrs == old(ns[j].attrs)
  {
    unvisited := [];
    var i := 0;
    while i < |ns|
      invariant 0 <= i <= |ns| && unvisited == ns[..i]
      invariant forall j :: 0 <= j < i ==> ns[j].meta == Initialized(old(ns[j].meta))
      invariant forall j :: 0 <= j < |ns| ==>
        (ns[j].meta == old(ns[j].meta) || ns[j].meta == Initialized(old(ns[j].meta))) && ns[j].attrs == old(ns[j].attrs)
    {
      var n := ns[i];
      InitializedTwice(old(n.meta));
      InitNode(n);
      unvisited := unvisited + [n];
      assert unvisited == ns[..i + 1] by {
        assert ns[..i + 1] == ns[..i] + [n];
      }
      i := i + 1;
    }
  }

  /** After those writes the slots hold the initial scratch values. */
  lemma InitialMirrors(ns: seq<Node>, start: Node)
    requires forall j :: 0 <= j < |ns| && ns[j] != start ==>
      Lookup(ns[j].meta, "distance") == Some(Num(Inf)) && Lookup(ns[j].meta, "best_incoming_edge") == Some(Null)
    requires start in ns ==>
      Lookup(start.meta, "distance") == Some(Num(Fin(0))) && Lookup(start.meta, "best_incoming_edge") == Some(Null)
    ensures Mirrors(InitialScratch(Elems(ns), start), Elems(ns))
  {
    forall n | n in Elems(ns)
      ensures Lookup(n.meta, "distance") == Some(Num(if n == start then Fin(0) else Inf))
      ensures Lookup(n.meta, "best_incoming_edge") == Some(Null)
    {
      var j :| 0 <= j < |ns| && ns[j] == n;
    }
  }

  /** One iteration of the initialisation loop (lines 657-659). */
  method InitNode(n: Node)
    modifies n`meta
    ensures n.meta == Initialized(old(n.meta)) && n.attrs == old(n.attrs)
  {
    var v := n.Meta("distance", Some(Num(Inf)));
    v := n.Meta("visited", Some(Bool(false)));
    v := n.Meta("best_incoming_edge", Some(Null));
  }

  /** `popMin()` (lines 664-678): the first node of least distance is
      taken out of the queue; when every distance is Infinity that is the
      first node. */
  method PopMin(unvisited: seq<Node>) returns (result: Node, rest: seq<Node>, index: nat)
    requires |unvisited| > 0
    requires forall i :: 0 <= i < |unvisited| ==> ComparableDistance(unvisited[i])
    ensures index < |unvisited| && result == unvisited[index]
    ensures rest == SpliceRemove(unvisited, index)
    ensures forall j :: 0 <= j < |unvisited| ==> Le(MetaDistance(result), MetaDistance(unvisited[j]))
    ensures forall j :: 0 <= j < index ==> Lt(MetaDistance(result), MetaDistance(unvisited[j]))
  {
    var minDistance := Inf;
    var minIndex := 0;
    var i := 0;
    while i < |unvisited|
      invariant 0 <= i <= |unvisited| && minIndex < |unvisited|
      invariant minDistance.Inf? ==> minIndex == 0
      invariant minDistance.Fin? ==> minIndex < i && minDistance == MetaDistance(unvisited[minIndex])
      invariant forall j :: 0 <= j < i ==> Le(minDistance, MetaDistance(unvisited[j]))
      invariant forall j :: 0 <= j < minIndex ==> Lt(minDistance, MetaDistance(unvisited[j]))
    {
      var d := MetaDistance(unvisited[i]);
      if Lt(d, minDistance) {
        forall j | 0 <= j < i
          ensures Lt(d, MetaDistance(unvisited[j]))
        {
          LtLeTrans(d, minDistance, MetaDistance(unvisited[j]));
        }
        minDistance := d;
        minIndex := i;
      } else {
        LtLeTrans(d, minDistance, d);
      }
      i := i + 1;
    }
    result := unvisited[minIndex];
    if minDistance.Inf? {
      assert Le(minDistance, MetaDistance(result));
    }
    rest := SpliceRemove(unvisited, minIndex);
    index := minIndex;
  }

  /** Lines 692-702: relax every edge of `list` out of `current`. The
      target's distance is compared with JavaScript's `<`, so a target
      whose slot holds no number is never lowered. */
  method RelaxEdges(current: Node, list: seq<Edge>, w: Weight, ghost V: set<Node>, ghost s0: Scratch)
    returns (ghost s: Scratch)
    requires Mirrors(s0, V) && current in V && s0.dist.Keys == V && s0.best.Keys == V
    requires s0.dist[current].Fin?
    modifies (set e | e in list :: e.to)`meta
    ensures s == RelaxAll(s0, current, s0.dist[current].n, list, w)
    ensures Mirrors(s, V)
  {
    var du := s0.dist[current].n;
    s := s0;
    var i := 0;
    while i < |list|
      invariant 0 <= i <= |list|
      invariant s == RelaxAll(s0, current, du, list[..i], w)
      invariant s.dist.Keys == V && s.best.Keys == V && s.dist[current] == Fin(du)
      invariant Mirrors(s, V)
    {
      assert list[..i + 1][..i] == list[..i];
      s := RelaxEdge(current, du, list[i], w, V, s);
      i := i + 1;
    }
    assert list[..i] == list;
  }

  /** One iteration of the relaxation loop (lines 693-701). */
  method RelaxEdge(current: Node, ghost du: nat, e: Edge, w: Weight, ghost V: set<Node>, ghost s0: Scratch)
    returns (ghost s: Scratch)
    requires Mirrors(s0, V) && current in V && s0.dist.Keys == V && s0.best.Keys == V
    requires s0.dist[current] == Fin(du)
    modifies e.to`meta
    ensures s == RelaxOne(s0, current, du, e, w)
    ensures s.dist.Keys == V && s.best.Keys == V && s.dist[current] == Fin(du)
    ensures Mirrors(s, V)
    ensures NumLessThan(du + w(current, e.to), old(Lookup(e.to.meta, "distance"))) ==>
      e.to.meta == old(e.to.meta)["distance" := Num(Fin(du + w(current, e.to)))]["best_incoming_edge" := EdgeRef(e)]
    ensures !NumLessThan(du + w(current, e.to), old(Lookup(e.to.meta, "distance"))) ==> e.to.meta == old(e.to.meta)
  {
    var neighbor := e.to;
    var stepDistance := w(current, neighbor);
    var d := Lookup(current.meta, "distance");
    assert d == Some(Num(Fin(du)));
    var total := d.value.d.n + stepDistance;
    ghost var before := neighbor.meta;
    if NumLessThan(total, Lookup(neighbor.meta, "distance")) {
      var v := neighbor.Meta("distance", Some(Num(Fin(total))));
      v := neighbor.Meta("best_incoming_edge", Some(EdgeRef(e)));
    }
    s := RelaxOne(s0, current, du, e, w);
    forall n | n in V
      ensures n in s.dist && n in s.best
      ensures Lookup(n.meta, "distance") == Some(Num(s.dist[n]))
      ensures Lookup(n.meta, "best_incoming_edge") == Some(s.best[n])
    {
      if n != neighbor {
        assert n.meta == old(n.meta);
      }
    }
  }

  /** Lines 705-710: follow the best incoming edges back from `last` to
      the start node. Every node popped so far has a finite distance that
      its best incoming edge accounts for, so the walk ends at `start`. */
  method Reconstruct(start: Node, last: Node, ghost adj: Adjacency, ghost w: Weight, ghost V: set<Node>,
                     ghost popped: set<Node>, ghost order: map<Node, nat>, ghost s: Scratch,
                     ghost m: Dist, ghost unvisited: seq<Node>, ghost k: nat)
    returns (path: seq<Edge>)
    requires DijkstraInv(adj, w, V, start, popped, order, s, m, unvisited, k)
    requires Mirrors(s, V) && last in popped
    ensures IsChain(adj, path, start, last)
    ensures s.dist[last] == Fin(PathWeight(w, path))
    ensures last == start ==> path == []
  {
    var current := last;
    path := [];
    while current != start
      invariant current in popped
      invariant IsChain(adj, path, current, last)
      invariant s.dist[last] == Plus(s.dist[current], PathWeight(w, path))
      invariant current == last ==> path == []
      decreases order[current]
    {
      assert BestOk(adj, w, start, popped, order, s, current);
      var b := Lookup(current.meta, "best_incoming_edge");
      assert b == Some(s.best[current]) && b.value.EdgeRef?;
      path := [b.value.e] + path;
      current := path[0].from;
    }
  }

  /** Lines 713-715: `resetMeta()` on every listed node. */
  method ResetAll(ns: seq<Node>)
    modifies Elems(ns)`meta
    ensures forall i :: 0 <= i < |ns| ==> ns[i].meta == map[]
  {
    var i := 0;
    while i < |ns|
      invariant 0 <= i <= |ns|
      invariant forall j :: 0 <= j < i ==> ns[j].meta == map[]
    {
      ns[i].ResetMeta();
      i := i + 1;
    }
  }

  /** The ghost state of the search between two statements of the main
      loop: the nodes popped so far, the pop at which each was first
      popped, the scratch values, the last popped distance and the number
      of pops. */
  datatype Progress = Progress(popped: set<Node>, order: map<Node, nat>, s: Scratch, m: Dist, k: nat)

  /** What holds at the head of the main loop (line 680). */
  ghost predicate LoopInv(adj: Adjacency, w: Weight, V: set<Node>, start: Node, end: Node, cons: bool,
                          unvisited: seq<Node>, p: Progress)
    reads V
  {
    && Mirrors(p.s, V)
    && DijkstraInv(adj, w, V, start, p.popped, p.order, p.s, p.m, unvisited, p.k)
    && (cons ==> ConsInv(adj, w, V, start, end, p.popped, p.s, unvisited) && end !in p.popped && end in unvisited)
  }

  /** What holds once `u` has been popped with a finite distance. */
  ghost predicate PoppedInv(adj: Adjacency, w: Weight, V: set<Node>, start: Node, end: Node, cons: bool,
                            u: Node, rest: seq<Node>, p: Progress)
    reads V
  {
    && Mirrors(p.s, V) && u in V && u in p.popped && p.s.dist.Keys == V && p.s.dist[u].Fin? && p.m == p.s.dist[u]
    && DijkstraInv(adj, w, V, start, p.popped, p.order, p.s, p.m, rest, p.k)
    && (cons ==>
          && start in V && end in V && EdgesWithin(adj, V) && NoDup(rest)
          && (forall y :: y in V ==> (y in p.popped <==> y !in rest))
          && Relaxed(adj, w, p.popped - {u}, p.s.dist)
          && LowerBounds(adj, w, p.popped, p.s.dist, start)
          && (end in p.popped ==> end == u))
  }

  /** Lines 681-685: pop the nearest node and stop with `null` when it is
      at distance Infinity. */
  method PopNext(ghost adj: Adjacency, ghost w: Weight, ghost V: set<Node>, ghost start: Node, ghost end: Node,
                 ghost cons: bool, unvisited: seq<Node>, ghost p: Progress)
    returns (u: Node, rest: seq<Node>, unreachable: bool, ghost p': Progress)
    requires |unvisited| > 0 && LoopInv(adj, w, V, start, end, cons, unvisited, p)
    ensures u in unvisited && |rest| == |unvisited| - 1
    ensures unreachable <==> Lookup(u.meta, "distance") == Some(Num(Inf))
    ensures unreachable && cons ==> !Reachable(adj, start, end)
    ensures !unreachable ==> PoppedInv(adj, w, V, start, end, cons, u, rest, p') && p'.popped == p.popped + {u}
  {
    QueueDistances(p.s, V, unvisited);
    var index;
    u, rest, index := PopMin(unvisited);
    MirroredDistance(p.s, V, u);
    unreachable := Lookup(u.meta, "distance") == Some(Num(Inf));
    p' := p;
    if unreachable {
      if cons {
        NoChainWhenUnreachable(adj, w, V, start, end, p.popped, p.order, p.s, p.m, unvisited, p.k, index);
      }
      return;
    }
    PoppedAfterPop(adj, w, V, start, end, cons, unvisited, p, index);
    p' := Advance(p, u);
  }

  /** Every queued node's distance slot mirrors the scratch distance. */
  lemma QueueDistances(s: Scratch, V: set<Node>, unvisited: seq<Node>)
    requires Mirrors(s, V) && forall i :: 0 <= i < |unvisited| ==> unvisited[i] in V
    ensures forall i :: 0 <= i < |unvisited| ==>
      ComparableDistance(unvisited[i]) && MetaDistance(unvisited[i]) == s.dist[unvisited[i]]
  {
    forall i | 0 <= i < |unvisited|
      ensures ComparableDistance(unvisited[i]) && MetaDistance(unvisited[i]) == s.dist[unvisited[i]]
    {
      MirroredDistance(s, V, unvisited[i]);
    }
  }

  /** The ghost state once `u` has been popped. */
  function Advance(p: Progress, u: Node): Progress
    requires u in p.s.dist
  {
    Progress(p.popped + {u}, if u in p.popped then p.order else p.order[u := p.k], p.s, p.s.dist[u], p.k + 1)
  }

  /** Popping a nearest queued node at a finite distance leads from the
      loop invariant to the popped-node invariant. */
  lemma PoppedAfterPop(adj: Adjacency, w: Weight, V: set<Node>, start: Node, end: Node, cons: bool,
                       unvisited: seq<Node>, p: Progress, i: nat)
    requires LoopInv(adj, w, V, start, end, cons, unvisited, p)
    requires i < |unvisited| && p.s.dist[unvisited[i]].Fin?
    requires forall j :: 0 <= j < |unvisited| ==> Le(p.s.dist[unvisited[i]], p.s.dist[unvisited[j]])
    ensures PoppedInv(adj, w, V, start, end, cons, unvisited[i], SpliceRemove(unvisited, i), Advance(p, unvisited[i]))
  {
    PopStep(adj, w, V, start, end, p.popped, p.order, p.s, p.m, unvisited, p.k, i, cons);
  }

  /** Lines 688-702 for a popped node `u` other than the end node: relax
      the edges listed under `u`, which the graph hands out as `out`. */
  method RelaxFrom(ghost adj: Adjacency, w: Weight, ghost V: set<Node>, ghost start: Node, ghost end: Node,
                   ghost cons: bool, u: Node, out: seq<Edge>, ghost rest: seq<Node>, ghost p: Progress)
    returns (ghost p': Progress)
    requires PoppedInv(adj, w, V, start, end, cons, u, rest, p) && u != end
    requires u.id in adj && out == adj[u.id]
    requires forall e :: e in out ==> e.from == u || e.to == u
    modifies (set e | e in out :: e.to)`meta
    ensures LoopInv(adj, w, V, start, end, cons, rest, p') && p'.popped == p.popped
  {
    RelaxStep(adj, w, V, start, p.popped, p.order, p.s, u, rest, p.k, out);
    if cons {
      RelaxStepCons(adj, w, V, start, end, p.popped, p.order, p.s, u, rest, p.k, out);
    }
    if cons {
      assert end in V && end !in p.popped;
    }
    var s' := RelaxEdges(u, out, w, V, p.s);
    p' := p.(s := s');
  }

  /** Lines 688-702 on the graph: look up the list under the current node
      (a missing list makes `getOutgoingEdges` return null and the loop
      throw), then relax it. */
  method RelaxCurrent(st: Store, directed: bool, w: Weight, ghost V: set<Node>, ghost start: Node, ghost end: Node,
                      ghost cons: bool, ghost S: set<Node>, u: Node, ghost rest: seq<Node>, ghost p: Progress)
    returns (failed: bool, ghost p': Progress)
    requires ValidStore(st, directed) && UniqueIds(S) && u in S && Sources(st.adj) + Targets(st.adj) <= S
    requires PoppedInv(st.adj, w, V, start, end, cons, u, rest, p) && u != end
    modifies Targets(st.adj)`meta
    ensures failed <==> Outgoing(st, u).None?
    ensures !failed ==> LoopInv(st.adj, w, V, start, end, cons, rest, p') && p'.popped == p.popped
  {
    var outgoing := Outgoing(st, u);
    if outgoing.None? {
      return true, p;
    }
    ListedEnds(st, directed, u, S);
    ListedTargets(st.adj, u.id);
    p' := RelaxFrom(st.adj, w, V, start, end, cons, u, outgoing.value, rest, p);
    failed := false;
  }

  /** Lines 705-717: rebuild the path to `last`, then reset the meta of
      every listed node. */
  method Finish(start: Node, last: Node, ns: seq<Node>, ghost adj: Adjacency, ghost w: Weight, ghost V: set<Node>,
                ghost unvisited: seq<Node>, ghost p: Progress)
    returns (path: seq<Edge>)
    requires DijkstraInv(adj, w, V, start, p.popped, p.order, p.s, p.m, unvisited, p.k)
    requires Mirrors(p.s, V) && last in p.popped
    modifies Elems(ns)`meta
    ensures IsChain(adj, path, start, last) && p.s.dist[last] == Fin(PathWeight(w, path))
    ensures ChainEnd(path, start) == last
    ensures last == start ==> path == []
    ensures forall i :: 0 <= i < |ns| ==> ns[i].meta == map[]
  {
    path := Reconstruct(start, last, adj, w, V, p.popped, p.order, p.s, p.m, unvisited, p.k);
    ChainEndIsTarget(adj, path, start, last);
    ResetAll(ns);
  }

  /** Mirrored nodes hold a distance slot and a best-edge slot. */
  lemma MirroredSlots(s: Scratch, ns: seq<Node>)
    requires Mirrors(s, Elems(ns))
    ensures forall i :: 0 <= i < |ns| ==> "distance" in ns[i].meta && "best_incoming_edge" in ns[i].meta
  {
    forall i | 0 <= i < |ns|
      ensures "distance" in ns[i].meta && "best_incoming_edge" in ns[i].meta
    {
      assert ns[i] in Elems(ns);
    }
  }

  /** A chain shows that `t` can be reached from `s`. */
  lemma ChainWitness(adj: Adjacency, c: seq<Edge>, s: Node, t: Node)
    requires IsChain(adj, c, s, t)
    ensures Reachable(adj, s, t)
  {
  }

  /** When the search stops at the end node of a consistent graph, the
      rebuilt path is a lightest chain to it. */
  lemma ShortestWhenConsistent(adj: Adjacency, w: Weight, V: set<Node>, start: Node, end: Node, cons: bool,
                               rest: seq<Node>, p: Progress, path: seq<Edge>)
    requires end in p.popped && p.s.dist.Keys == V
    requires cons ==> LowerBounds(adj, w, p.popped, p.s.dist, start)
    requires end in p.s.dist && p.s.dist[end] == Fin(PathWeight(w, path))
    ensures cons ==> forall c :: IsChain(adj, c, start, end) ==> PathWeight(w, path) <= PathWeight(w, c)
  {
    if cons {
      forall c | IsChain(adj, c, start, end)
        ensures PathWeight(w, path) <= PathWeight(w, c)
      {
        assert Le(p.s.dist[end], Fin(PathWeight(w, c)));
      }
    }
  }

  /** In a valid graph whose listed nodes and edge ends have distinct ids,
      the list under a listed node's id holds only edges from or to it. */
  lemma ListedEnds(st: Store, directed: bool, u: Node, S: set<Node>)
    requires ValidStore(st, directed) && u.id in st.adj
    requires UniqueIds(S) && u in S && Sources(st.adj) + Targets(st.adj) <= S
    ensures forall e :: e in st.adj[u.id] ==> e.from == u || e.to == u
  {
    forall e | e in st.adj[u.id]
      ensures e.from == u || e.to == u
    {
      assert e.from in Sources(st.adj) && e.to in Targets(st.adj);
    }
  }

  /** The to-nodes of the edges listed under one key are targets of the
      adjacency lists. */
  lemma ListedTargets(adj: Adjacency, k: string)
    requires k in adj
    ensures (set e | e in adj[k] :: e.to) <= Targets(adj)
  {
  }

  /** In a consistent graph, a node known by id is the listed node of that
      id, and every listed node has an adjacency list. */
  lemma ConsistentListing(st: Store, directed: bool, start: Node, end: Node, S: set<Node>)
    requires ValidStore(st, directed) && ConsistentStore(st)
    requires UniqueIds(S) && Elems(st.nodes) + {start, end} <= S
    requires start.id in st.nodesById && end.id in st.nodesById
    ensures start in Elems(st.nodes) && end in Elems(st.nodes)
    ensures EdgesWithin(st.adj, Elems(st.nodes)) && NoDup(st.nodes)
    ensures forall n :: n in Elems(st.nodes) ==> n.id in st.nodesById && n.id in st.adj
  {
    assert st.nodesById[start.id] in st.nodes && st.nodesById[end.id] in st.nodes;
    forall n | n in Elems(st.nodes)
      ensures n.id in st.nodesById && n.id in st.adj
    {
      var i :| 0 <= i < |st.nodes| && st.nodes[i] == n;
    }
  }

  /** What `getShortestPath` promises of a result it hands back once both
      endpoints are known by id. */
  ghost predicate Answer(st: Store, startNode: Node, endNode: Node, w: Weight, result: PathResult)
    reads Elems(st.nodes)
  {
    && (result.Path? ==> IsChain(st.adj, result.edges, startNode, ChainEnd(result.edges, startNode)))
    && (result.Path? ==> forall i :: 0 <= i < |st.nodes| ==> st.nodes[i].meta == map[])
    && (result == NoPath ==> forall i :: 0 <= i < |st.nodes| ==>
          "distance" in st.nodes[i].meta && "best_incoming_edge" in st.nodes[i].meta)
    && (ConsistentStore(st) ==>
          && result != Failed
          && (startNode == endNode ==> result == Path([]))
          && (result == NoPath <==> !Reachable(st.adj, startNode, endNode))
          && (result.Path? ==> IsChain(st.adj, result.edges, startNode, endNode))
          && (result.Path? ==> forall c :: IsChain(st.adj, c, startNode, endNode) ==>
                PathWeight(w, result.edges) <= PathWeight(w, c)))
  }

  /** `getShortestPath(startNode, endNode, edgeWeightCallback)` (lines
      616-718), Dijkstra's algorithm over the node meta slots. It throws
      when an endpoint is missing, when a popped node has no adjacency
      list, or when nothing was popped; it returns `null` as soon as the
      least remaining distance is Infinity, without resetting the meta.
      Each step follows an edge listed under the current node towards its
      to-node. In a consistent graph the result is a lightest chain to
      `endNode`, or `null` exactly when no chain reaches it. */
  method ShortestPath(st: Store, directed: bool, startNode: Node, endNode: Node, w: Weight) returns (result: PathResult)
    requires ValidStore(st, directed)
    requires UniqueIds(Elems(st.nodes) + Sources(st.adj) + Targets(st.adj) + {startNode, endNode})
    modifies Elems(st.nodes)`meta, Targets(st.adj)`meta, startNode`meta
    ensures startNode.id !in st.nodesById || endNode.id !in st.nodesById ==> result == Failed
    ensures startNode.id in st.nodesById && endNode.id in st.nodesById ==> Answer(st, startNode, endNode, w, result)
  {
    if startNode.id !in st.nodesById || endNode.id !in st.nodesById {
      return Failed;
    }
    ghost var S := Elems(st.nodes) + Sources(st.adj) + Targets(st.adj) + {startNode, endNode};
    var unvisited, p := Prepare(st, directed, startNode, endNode, w, S);
    result := MainLoop(st, directed, w, startNode, endNode, ConsistentStore(st), S, unvisited, p);
  }

  /** Lines 654-662: the initialisation loop and the start distance. */
  method Prepare(st: Store, directed: bool, startNode: Node, endNode: Node, w: Weight, ghost S: set<Node>)
    returns (unvisited: seq<Node>, ghost p: Progress)
    requires ValidStore(st, directed)
    requires UniqueIds(S) && Elems(st.nodes) + {startNode, endNode} <= S
    requires startNode.id in st.nodesById && endNode.id in st.nodesById
    modifies Elems(st.nodes)`meta, startNode`meta
    ensures LoopInv(st.adj, w, Elems(st.nodes), startNode, endNode, ConsistentStore(st), unvisited, p)
  {
    ghost var V := Elems(st.nodes);
    ghost var cons := ConsistentStore(st);
    if cons {
      ConsistentListing(st, directed, startNode, endNode, S);
    }
    unvisited := InitAll(st.nodes, startNode);
    InitialInv(st.adj, w, V, startNode, endNode, unvisited, cons);
    p := Progress({}, map[], InitialScratch(V, startNode), Fin(0), 0);
  }

  /** Lines 680-717: the main loop, then the path rebuilt from the last
      popped node when the queue runs out. */
  method MainLoop(st: Store, directed: bool, w: Weight, startNode: Node, endNode: Node, ghost cons: bool,
                  ghost S: set<Node>, unvisited0: seq<Node>, ghost p0: Progress)
    returns (result: PathResult)
    requires ValidStore(st, directed) && cons == ConsistentStore(st)
    requires UniqueIds(S) && Elems(st.nodes) + Sources(st.adj) + Targets(st.adj) <= S
    requires LoopInv(st.adj, w, Elems(st.nodes), startNode, endNode, cons, unvisited0, p0)
    modifies Elems(st.nodes)`meta, Targets(st.adj)`meta
    ensures Answer(st, startNode, endNode, w, result)
  {
    var unvisited := unvisited0;
    ghost var p := p0;
    var current: Option<Node> := None;
    while |unvisited| > 0
      invariant LoopInv(st.adj, w, Elems(st.nodes), startNode, endNode, cons, unvisited, p)
      invariant current.Some? ==> current.value in p.popped
      decreases |unvisited|
    {
      var done, r, u;
      done, r, u, unvisited, p := Visit(st, directed, w, startNode, endNode, cons, S, unvisited, p);
      if done {
        return r;
      }
      current := Some(u);
    }
    if current.None? {
      return Failed;
    }
    assert !cons;
    var path := Finish(startNode, current.value, st.nodes, st.adj, w, Elems(st.nodes), unvisited, p);
    return Path(path);
  }

  /** One turn of the main loop (lines 681-702): pop the nearest node, then
      stop with `null` when it is unreachable, stop with the rebuilt path
      when it is the end node, throw when it has no list, or relax its
      list and go on. */
  method Visit(st: Store, directed: bool, w: Weight, startNode: Node, endNode: Node, ghost cons: bool,
               ghost S: set<Node>, unvisited: seq<Node>, ghost p: Progress)
    returns (done: bool, result: PathResult, u: Node, rest: seq<Node>, ghost p': Progress)
    requires ValidStore(st, directed) && cons == ConsistentStore(st)
    requires UniqueIds(S) && Elems(st.nodes) + Sources(st.adj) + Targets(st.adj) <= S
    requires |unvisited| > 0 && LoopInv(st.adj, w, Elems(st.nodes), startNode, endNode, cons, unvisited, p)
    modifies Elems(st.nodes)`meta, Targets(st.adj)`meta
    ensures done ==> Answer(st, startNode, endNode, w, result)
    ensures !done ==> |rest| < |unvisited| && u in p'.popped
    ensures !done ==> LoopInv(st.adj, w, Elems(st.nodes), startNode, endNode, cons, rest, p')
  {
    ghost var V := Elems(st.nodes);
    var unreachable;
    ghost var p1;
    u, rest, unreachable, p1 := PopNext(st.adj, w, V, startNode, endNode, cons, unvisited, p);
    p' := p1;
    if unreachable {
      MirroredSlots(p.s, st.nodes);
      if startNode == endNode {
        ChainWitness(st.adj, [], startNode, endNode);
      }
      return true, NoPath, u, rest, p';
    }
    if u == endNode {
      var path := Finish(startNode, u, st.nodes, st.adj, w, V, rest, p1);
      ShortestWhenConsistent(st.adj, w, V, startNode, endNode, cons, rest, p1, path);
      ChainWitness(st.adj, path, startNode, endNode);
      return true, Path(path), u, rest, p';
    }
    var failed;
    failed, p' := RelaxCurrent(st, directed, w, V, startNode, endNode, cons, S, u, rest, p1);
    done := failed;
    result := Failed;
  }
}
