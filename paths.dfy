/** The theory behind `Graph.getShortestPath` (graphite.js lines 616-718):
    chains of adjacency edges, their weight, one round of relaxation, and
    the invariant that Dijkstra's algorithm keeps between two pops. */
module Paths {
  import opened Slots
  import opened Search
  import opened Entities

  /** `edgesByNodeId`: node id to the edges listed under that node. */
  type Adjacency = map<string, seq<Edge>>

  /** `edgeWeightCallback(current, neighbor)`. */
  type Weight = (Node, Node) -> nat

  /** `c` leads from `s` to `t` through edges that the algorithm can follow:
      each edge starts where the previous one ended and is listed in the
      adjacency list of the node it starts from. */
  predicate IsChain(adj: Adjacency, older c: seq<Edge>, s: Node, t: Node)
    decreases |c|
  {
    if c == [] then s == t
    else c[0].from == s && s.id in adj && c[0] in adj[s.id] && IsChain(adj, c[1..], c[0].to, t)
  }

  /** The end of a chain of `c` that starts at `s`. */
  function ChainEnd(c: seq<Edge>, s: Node): Node
  {
    if c == [] then s else c[|c| - 1].to
  }

  /** A chain from `s` to `t` ends at `t`. */
  lemma {:induction false} ChainEndIsTarget(adj: Adjacency, c: seq<Edge>, s: Node, t: Node)
    requires IsChain(adj, c, s, t)
    ensures ChainEnd(c, s) == t
    decreases |c|
  {
    if |c| > 1 {
      ChainEndIsTarget(adj, c[1..], c[0].to, t);
    }
  }

  /** Some chain of listed edges leads from `s` to `t`. */
  ghost predicate Reachable(adj: Adjacency, s: Node, t: Node)
  {
    exists c :: IsChain(adj, c, s, t)
  }

  /** In an undirected graph one edge `a`-`b` is listed under both ends,
      yet a chain only follows an edge from its from-node: `b` does not
      reach `a` through it. */
  lemma UndirectedEdgeOneWay(a: Node, b: Node, e: Edge)
    requires e.from == a && e.to == b && a.id != b.id
    ensures Reachable(map[a.id := [e], b.id := [e]], a, b)
    ensures !Reachable(map[a.id := [e], b.id := [e]], b, a)
  {
    var adj := map[a.id := [e], b.id := [e]];
    assert IsChain(adj, [e], a, b);
  }

  /** The start and end nodes of every listed edge. */
  ghost function Sources(adj: Adjacency): set<Node>
  {
    set k, e | k in adj && e in adj[k] :: e.from
  }

  ghost function Targets(adj: Adjacency): set<Node>
  {
    set k, e | k in adj && e in adj[k] :: e.to
  }

  /** The total of the callback's weights along a chain. */
  function PathWeight(w: Weight, c: seq<Edge>): nat
    decreases |c|
  {
    if c == [] then 0 else w(c[0].from, c[0].to) + PathWeight(w, c[1..])
  }

  /** Taking the last edge off a chain leaves a chain to that edge's start. */
  lemma {:induction false} ChainSnoc(adj: Adjacency, w: Weight, c: seq<Edge>, s: Node, t: Node)
    requires IsChain(adj, c, s, t) && c != []
    ensures var last := c[|c| - 1];
      && IsChain(adj, c[..|c| - 1], s, last.from)
      && last.to == t && last.from.id in adj && last in adj[last.from.id]
      && PathWeight(w, c) == PathWeight(w, c[..|c| - 1]) + w(last.from, last.to)
    decreases |c|
  {
    if |c| > 1 {
      ChainSnoc(adj, w, c[1..], c[0].to, t);
      assert c[1..][..|c| - 2] == c[..|c| - 1][1..];
    }
  }

  /** Per-node scratch values the search keeps in node meta:
      `distance` and `best_incoming_edge`. */
  datatype Scratch = Scratch(dist: map<Node, Dist>, best: map<Node, Value>)

  /** One iteration of the inner loop at lines 693-702: relax `e.to`
      through `e` when the new total is smaller. */
  function RelaxOne(s: Scratch, u: Node, du: nat, e: Edge, w: Weight): Scratch
  {
    var v := e.to;
    if v in s.dist && Lt(Fin(du + w(u, v)), s.dist[v])
    then Scratch(s.dist[v := Fin(du + w(u, v))], s.best[v := EdgeRef(e)])
    else s
  }

  /** The inner loop over all outgoing edges of `u`, whose distance is `du`. */
  function RelaxAll(s: Scratch, u: Node, du: nat, out: seq<Edge>, w: Weight): Scratch
    decreases |out|
  {
    if out == [] then s else RelaxOne(RelaxAll(s, u, du, out[..|out| - 1], w), u, du, out[|out| - 1], w)
  }

  /** `v` was lowered by some edge of `out`. */
  ghost predicate Lowered(r: Scratch, s: Scratch, u: Node, du: nat, out: seq<Edge>, w: Weight, v: Node)
    requires v in r.dist && v in r.best && v in s.dist
  {
    && r.best[v].EdgeRef? && r.best[v].e in out && r.best[v].e.to == v
    && r.dist[v] == Fin(du + w(u, v)) && Lt(r.dist[v], s.dist[v])
  }

  lemma LtLeTrans(a: Dist, b: Dist, c: Dist)
    ensures Le(a, b) && Le(b, c) ==> Le(a, c)
    ensures Lt(a, b) && Le(b, c) ==> Lt(a, c)
    ensures Le(a, b) && Lt(b, c) ==> Lt(a, c)
    ensures !Lt(a, b) ==> Le(b, a)
  {
  }

  /** Relaxation only lowers distances, changes a node only through an edge
      that leads to it, and leaves every target within `du + w` of `u`. */
  lemma RelaxAllFacts(s: Scratch, u: Node, du: nat, out: seq<Edge>, w: Weight)
    requires s.best.Keys == s.dist.Keys
    ensures var r := RelaxAll(s, u, du, out, w);
      && r.dist.Keys == s.dist.Keys && r.best.Keys == s.best.Keys
      && (forall v :: v in s.dist ==> Le(r.dist[v], s.dist[v]))
      && (forall v :: v in s.dist ==>
            (r.dist[v] == s.dist[v] && r.best[v] == s.best[v]) || Lowered(r, s, u, du, out, w, v))
      && (forall e :: e in out && e.to in s.dist ==> Le(r.dist[e.to], Fin(du + w(u, e.to))))
  {
    RelaxAllKeys(s, u, du, out, w);
    RelaxAllLowers(s, u, du, out, w);
    RelaxAllBound(s, u, du, out, w);
  }

  lemma {:induction false} RelaxAllKeys(s: Scratch, u: Node, du: nat, out: seq<Edge>, w: Weight)
    requires s.best.Keys == s.dist.Keys
    ensures var r := RelaxAll(s, u, du, out, w);
      r.dist.Keys == s.dist.Keys && r.best.Keys == s.best.Keys
    decreases |out|
  {
    if out != [] {
      RelaxAllKeys(s, u, du, out[..|out| - 1], w);
    }
  }

  lemma {:induction false} RelaxAllLowers(s: Scratch, u: Node, du: nat, out: seq<Edge>, w: Weight)
    requires s.best.Keys == s.dist.Keys
    ensures var r := RelaxAll(s, u, du, out, w);
      && r.dist.Keys == s.dist.Keys && r.best.Keys == s.best.Keys
      && (forall v :: v in s.dist ==> Le(r.dist[v], s.dist[v]))
      && (forall v :: v in s.dist ==>
            (r.dist[v] == s.dist[v] && r.best[v] == s.best[v]) || Lowered(r, s, u, du, out, w, v))
    decreases |out|
  {
    RelaxAllKeys(s, u, du, out, w);
    if out != [] {
      var pre := out[..|out| - 1];
      var e := out[|out| - 1];
      RelaxAllLowers(s, u, du, pre, w);
      var r1 := RelaxAll(s, u, du, pre, w);
      var r := RelaxOne(r1, u, du, e, w);
      assert r == RelaxAll(s, u, du, out, w);
      forall v | v in s.dist
        ensures Le(r.dist[v], s.dist[v])
        ensures (r.dist[v] == s.dist[v] && r.best[v] == s.best[v]) || Lowered(r, s, u, du, out, w, v)
      {
        LtLeTrans(r.dist[v], r1.dist[v], s.dist[v]);
        if r.dist[v] == r1.dist[v] && r.best[v] == r1.best[v] {
          if !(r1.dist[v] == s.dist[v] && r1.best[v] == s.best[v]) {
            assert Lowered(r1, s, u, du, pre, w, v);
            assert r1.best[v].e in out;
          }
        } else {
          assert v == e.to && r.best[v] == EdgeRef(e);
        }
      }
    }
  }

  lemma {:induction false} RelaxAllBound(s: Scratch, u: Node, du: nat, out: seq<Edge>, w: Weight)
    requires s.best.Keys == s.dist.Keys
    ensures var r := RelaxAll(s, u, du, out, w);
      && r.dist.Keys == s.dist.Keys
      && (forall e :: e in out && e.to in s.dist ==> Le(r.dist[e.to], Fin(du + w(u, e.to))))
    decreases |out|
  {
    RelaxAllKeys(s, u, du, out, w);
    if out != [] {
      var pre := out[..|out| - 1];
      var e := out[|out| - 1];
      RelaxAllBound(s, u, du, pre, w);
      RelaxAllKeys(s, u, du, pre, w);
      var r1 := RelaxAll(s, u, du, pre, w);
      var r := RelaxOne(r1, u, du, e, w);
      assert r == RelaxAll(s, u, du, out, w);
      forall f | f in out && f.to in s.dist
        ensures Le(r.dist[f.to], Fin(du + w(u, f.to)))
      {
        LtLeTrans(r.dist[f.to], r1.dist[f.to], Fin(du + w(u, f.to)));
        if f != e {
          assert f in pre;
        } else {
          LtLeTrans(Fin(du + w(u, f.to)), r1.dist[f.to], r1.dist[f.to]);
        }
      }
    }
  }

  /** The nodes of a sequence, as a set. */
  ghost function Elems(s: seq<Node>): set<Node>
  {
    set x | x in s
  }

  /** No element occurs twice. */
  ghost predicate NoDup<T>(s: seq<T>)
  {
    forall i, j :: 0 <= i < j < |s| ==> s[i] != s[j]
  }

  /** Every edge listed anywhere starts and ends at a node of `V`. */
  ghost predicate EdgesWithin(adj: Adjacency, V: set<Node>)
  {
    forall k, e :: k in adj && e in adj[k] ==> e.from in V && e.to in V
  }

  /** Every node of `popped` has had its outgoing edges relaxed. */
  ghost predicate Relaxed(adj: Adjacency, w: Weight, popped: set<Node>, D: map<Node, Dist>)
  {
    forall x, e :: x in popped && x.id in adj && e in adj[x.id] ==>
      x in D && e.to in D && Le(D[e.to], Plus(D[x], w(x, e.to)))
  }

  /** The distance of every node of `popped` is at most the weight of any
      chain that reaches it from `start`. */
  ghost predicate LowerBounds(adj: Adjacency, w: Weight, popped: set<Node>, D: map<Node, Dist>, start: Node)
  {
    forall x, c :: x in popped && IsChain(adj, c, start, x) ==> x in D && Le(D[x], Fin(PathWeight(w, c)))
  }

  /** The best-incoming-edge slot of `n`: `null`, or an edge from a node
      popped earlier that accounts for `n`'s distance. */
  ghost predicate BestOk(adj: Adjacency, w: Weight, start: Node, popped: set<Node>, order: map<Node, nat>, s: Scratch, n: Node)
    requires n in s.dist && n in s.best && order.Keys == popped
  {
    && (n != start && s.dist[n].Fin? ==> s.best[n].EdgeRef?)
    && (s.best[n] == Null || (s.best[n].EdgeRef? &&
          var e := s.best[n].e;
          && e.to == n && e.from in popped && e.from in s.dist
          && e.from.id in adj && e in adj[e.from.id]
          && s.dist[n] == Plus(s.dist[e.from], w(e.from, n))
          && (n in popped ==> order[e.from] < order[n])))
  }

  /** What holds of the scratch values at the head of the main loop
      (lines 680-703) in every graph: `popped` are the nodes popped so far,
      `order` says when each was first popped, `m` is the last popped
      distance, `k` the number of pops. */
  ghost predicate DijkstraInv(adj: Adjacency, w: Weight, V: set<Node>, start: Node, popped: set<Node>,
                              order: map<Node, nat>, s: Scratch, m: Dist, unvisited: seq<Node>, k: nat)
  {
    && s.dist.Keys == V && s.best.Keys == V
    && popped <= V && order.Keys == popped
    && (forall x :: x in popped ==> order[x] < k)
    && (forall i :: 0 <= i < |unvisited| ==> unvisited[i] in V)
    && (forall x :: x in popped ==> s.dist[x].Fin? && Le(s.dist[x], m))
    && (forall i :: 0 <= i < |unvisited| ==> Le(m, s.dist[unvisited[i]]))
    && (start in V ==> s.dist[start] == Fin(0))
    && (forall n :: n in V ==> BestOk(adj, w, start, popped, order, s, n))
  }

  /** What holds in addition when the node list is a duplicate-free listing
      of the graph's nodes and every listed edge stays within them. */
  ghost predicate ConsInv(adj: Adjacency, w: Weight, V: set<Node>, start: Node, end: Node,
                          popped: set<Node>, s: Scratch, unvisited: seq<Node>)
  {
    && start in V && end in V && EdgesWithin(adj, V)
    && NoDup(unvisited)
    && (forall y :: y in V ==> (y in popped <==> y !in unvisited))
    && Relaxed(adj, w, popped, s.dist)
    && LowerBounds(adj, w, popped, s.dist, start)
  }

  /** The state right after the initialisation loop (lines 654-662). */
  function InitialScratch(V: set<Node>, start: Node): Scratch
  {
    Scratch(map n | n in V :: if n == start then Fin(0) else Inf, map n | n in V :: Null)
  }

  lemma InitialInv(adj: Adjacency, w: Weight, V: set<Node>, start: Node, end: Node, unvisited: seq<Node>, cons: bool)
    requires forall i :: 0 <= i < |unvisited| ==> unvisited[i] in V
    requires cons ==>
      && start in V && end in V && EdgesWithin(adj, V) && NoDup(unvisited)
      && (forall y :: y in V ==> y in unvisited)
    ensures DijkstraInv(adj, w, V, start, {}, map[], InitialScratch(V, start), Fin(0), unvisited, 0)
    ensures cons ==> ConsInv(adj, w, V, start, end, {}, InitialScratch(V, start), unvisited)
  {
  }

  /** The heart of Dijkstra's algorithm: when every remaining node is at
      least `mmin` away, so is every chain into a remaining node. */
  lemma {:induction false} LowerBound(adj: Adjacency, w: Weight, V: set<Node>, popped: set<Node>, D: map<Node, Dist>,
                                      start: Node, mmin: Dist, c: seq<Edge>, t: Node)
    requires popped <= V && D.Keys == V && start in V && D[start] == Fin(0)
    requires EdgesWithin(adj, V)
    requires Relaxed(adj, w, popped, D) && LowerBounds(adj, w, popped, D, start)
    requires forall y :: y in V && y !in popped ==> Le(mmin, D[y])
    requires t in V && t !in popped
    requires IsChain(adj, c, start, t)
    ensures Le(mmin, Fin(PathWeight(w, c)))
    decreases |c|
  {
    if c != [] {
      var last := c[|c| - 1];
      var pre := c[..|c| - 1];
      var y := last.from;
      ChainSnoc(adj, w, c, start, t);
      assert y in V;
      if y in popped {
        assert Le(D[y], Fin(PathWeight(w, pre)));
        assert Le(D[t], Plus(D[y], w(y, t)));
        LtLeTrans(D[t], Plus(D[y], w(y, t)), Fin(PathWeight(w, c)));
        LtLeTrans(mmin, D[t], Fin(PathWeight(w, c)));
      } else {
        LowerBound(adj, w, V, popped, D, start, mmin, pre, y);
        LtLeTrans(mmin, Fin(PathWeight(w, pre)), Fin(PathWeight(w, c)));
      }
    }
  }

  lemma NoDupRemove(s: seq<Node>, i: nat)
    requires NoDup(s) && i < |s|
    ensures NoDup(SpliceRemove(s, i))
    ensures forall y :: y in SpliceRemove(s, i) <==> y in s && y != s[i]
  {
    var r := SpliceRemove(s, i);
    assert r == s[..i] + s[i + 1..];
    forall y | y in s && y != s[i]
      ensures y in r
    {
      var j :| 0 <= j < |s| && s[j] == y;
      if j < i { assert r[j] == y; } else { assert r[j - 1] == y; }
    }
    forall y | y in r
      ensures y in s && y != s[i]
    {
      var j :| 0 <= j < |r| && r[j] == y;
      if j < i { assert s[j] == y; } else { assert s[j + 1] == y; }
    }
  }

  lemma RemoveKeepsElements(s: seq<Node>, i: nat)
    requires i < |s|
    ensures forall j :: 0 <= j < |SpliceRemove(s, i)| ==> SpliceRemove(s, i)[j] in s
  {
    var r := SpliceRemove(s, i);
    forall j | 0 <= j < |r|
      ensures r[j] in s
    {
      if j < i { assert r[j] == s[j]; } else { assert r[j] == s[j + 1]; }
    }
  }

  /** Popping the first node of least distance `u` (lines 664-678) keeps the
      invariant; in a consistent graph `u` is then at most as far as any
      chain into it. */
  lemma PopStep(adj: Adjacency, w: Weight, V: set<Node>, start: Node, end: Node, popped: set<Node>,
                order: map<Node, nat>, s: Scratch, m: Dist, unvisited: seq<Node>, k: nat, i: nat, cons: bool)
    requires DijkstraInv(adj, w, V, start, popped, order, s, m, unvisited, k)
    requires cons ==> ConsInv(adj, w, V, start, end, popped, s, unvisited)
    requires i < |unvisited| && s.dist[unvisited[i]].Fin?
    requires forall j :: 0 <= j < |unvisited| ==> Le(s.dist[unvisited[i]], s.dist[unvisited[j]])
    ensures var u := unvisited[i];
      var popped' := popped + {u};
      var order' := if u in popped then order else order[u := k];
      var rest := SpliceRemove(unvisited, i);
      && DijkstraInv(adj, w, V, start, popped', order', s, s.dist[u], rest, k + 1)
      && (cons ==>
            && start in V && end in V && EdgesWithin(adj, V) && NoDup(rest)
            && (forall y :: y in V ==> (y in popped' <==> y !in rest))
            && Relaxed(adj, w, popped, s.dist)
            && LowerBounds(adj, w, popped', s.dist, start)
            && u !in popped)
  {
    var u := unvisited[i];
    var popped' := popped + {u};
    var order' := if u in popped then order else order[u := k];
    var rest := SpliceRemove(unvisited, i);
    RemoveKeepsElements(unvisited, i);
    forall x | x in popped'
      ensures s.dist[x].Fin? && Le(s.dist[x], s.dist[u])
    {
      if x != u {
        LtLeTrans(s.dist[x], m, s.dist[u]);
      }
    }
    forall j | 0 <= j < |rest|
      ensures Le(s.dist[u], s.dist[rest[j]])
    {
      if j < i { assert rest[j] == unvisited[j]; } else { assert rest[j] == unvisited[j + 1]; }
    }
    forall n | n in V
      ensures BestOk(adj, w, start, popped', order', s, n)
    {
      assert BestOk(adj, w, start, popped, order, s, n);
    }
    if cons {
      NoDupRemove(unvisited, i);
      forall x, c | x in popped' && IsChain(adj, c, start, x)
        ensures x in s.dist && Le(s.dist[x], Fin(PathWeight(w, c)))
      {
        if x == u && u !in popped {
          forall y | y in V && y !in popped
            ensures Le(s.dist[u], s.dist[y])
          {
            var j :| 0 <= j < |unvisited| && unvisited[j] == y;
          }
          LowerBound(adj, w, V, popped, s.dist, start, s.dist[u], c, u);
        }
      }
    }
  }

  /** Relaxing from `u`, whose distance is at most `bound`, leaves every
      node at or below `bound` as it was. */
  lemma RelaxKeepsClose(s: Scratch, u: Node, out: seq<Edge>, w: Weight, x: Node)
    requires s.best.Keys == s.dist.Keys && u in s.dist && s.dist[u].Fin?
    requires x in s.dist && Le(s.dist[x], s.dist[u])
    ensures var r := RelaxAll(s, u, s.dist[u].n, out, w);
      x in r.dist && x in r.best && r.dist[x] == s.dist[x] && r.best[x] == s.best[x]
  {
    var du := s.dist[u].n;
    var r := RelaxAll(s, u, du, out, w);
    RelaxAllFacts(s, u, du, out, w);
    if !(r.dist[x] == s.dist[x] && r.best[x] == s.best[x]) {
      assert Lowered(r, s, u, du, out, w, x);
      LtLeTrans(r.dist[x], s.dist[x], Fin(du));
      assert false;
    }
  }

  /** Relaxing the outgoing edges of the node just popped (lines 692-702)
      keeps the invariant. */
  lemma RelaxStep(adj: Adjacency, w: Weight, V: set<Node>, start: Node, popped: set<Node>,
                  order: map<Node, nat>, s: Scratch, u: Node, unvisited: seq<Node>, k: nat, out: seq<Edge>)
    requires u in popped && u in s.dist
    requires DijkstraInv(adj, w, V, start, popped, order, s, s.dist[u], unvisited, k)
    requires u.id in adj && out == adj[u.id]
    requires forall e :: e in out ==> e.from == u || e.to == u
    ensures DijkstraInv(adj, w, V, start, popped, order, RelaxAll(s, u, s.dist[u].n, out, w), s.dist[u], unvisited, k)
  {
    var du := s.dist[u].n;
    var s' := RelaxAll(s, u, du, out, w);
    RelaxAllFacts(s, u, du, out, w);
    forall x | x in popped
      ensures s'.dist[x] == s.dist[x] && s'.best[x] == s.best[x]
    {
      RelaxKeepsClose(s, u, out, w, x);
    }
    forall j | 0 <= j < |unvisited|
      ensures Le(s.dist[u], s'.dist[unvisited[j]])
    {
      var y := unvisited[j];
      if s'.dist[y] != s.dist[y] {
        assert Lowered(s', s, u, du, out, w, y);
      }
    }
    if start in V {
      RelaxKeepsClose(s, u, out, w, start);
    }
    forall n | n in V
      ensures BestOk(adj, w, start, popped, order, s', n)
    {
      assert BestOk(adj, w, start, popped, order, s, n);
      if !(s'.dist[n] == s.dist[n] && s'.best[n] == s.best[n]) {
        assert Lowered(s', s, u, du, out, w, n);
        var e := s'.best[n].e;
        assert e.from == u;
        assert n !in popped;
      } else if s.best[n].EdgeRef? {
        assert s.best[n].e.from in popped;
      }
    }
  }

  /** In a consistent graph, relaxing from the node just popped makes it
      relaxed and keeps the lower bounds of every popped node. */
  lemma RelaxStepCons(adj: Adjacency, w: Weight, V: set<Node>, start: Node, end: Node, popped: set<Node>,
                      order: map<Node, nat>, s: Scratch, u: Node, unvisited: seq<Node>, k: nat, out: seq<Edge>)
    requires u in popped && u in s.dist
    requires DijkstraInv(adj, w, V, start, popped, order, s, s.dist[u], unvisited, k)
    requires u.id in adj && out == adj[u.id]
    requires start in V && end in V && EdgesWithin(adj, V) && NoDup(unvisited)
    requires forall y :: y in V ==> (y in popped <==> y !in unvisited)
    requires Relaxed(adj, w, popped - {u}, s.dist)
    requires LowerBounds(adj, w, popped, s.dist, start)
    ensures ConsInv(adj, w, V, start, end, popped, RelaxAll(s, u, s.dist[u].n, out, w), unvisited)
  {
    var du := s.dist[u].n;
    var s' := RelaxAll(s, u, du, out, w);
    RelaxAllFacts(s, u, du, out, w);
    forall x | x in popped
      ensures s'.dist[x] == s.dist[x]
    {
      RelaxKeepsClose(s, u, out, w, x);
    }
    forall x, e | x in popped && x.id in adj && e in adj[x.id]
      ensures x in s'.dist && e.to in s'.dist && Le(s'.dist[e.to], Plus(s'.dist[x], w(x, e.to)))
    {
      if x == u {
        assert e in out;
      } else {
        assert x in popped - {u};
        LtLeTrans(s'.dist[e.to], s.dist[e.to], Plus(s.dist[x], w(x, e.to)));
      }
    }
  }


  /** When the least distance left is infinite, no chain reaches a node
      that has not been popped: `getShortestPath` may return `null`. */
  lemma NoChainWhenUnreachable(adj: Adjacency, w: Weight, V: set<Node>, start: Node, end: Node, popped: set<Node>,
                               order: map<Node, nat>, s: Scratch, m: Dist, unvisited: seq<Node>, k: nat, i: nat)
    requires DijkstraInv(adj, w, V, start, popped, order, s, m, unvisited, k)
    requires ConsInv(adj, w, V, start, end, popped, s, unvisited)
    requires i < |unvisited| && s.dist[unvisited[i]] == Inf
    requires forall j :: 0 <= j < |unvisited| ==> Le(s.dist[unvisited[i]], s.dist[unvisited[j]])
    requires end !in popped
    ensures !Reachable(adj, start, end)
  {
    forall c | IsChain(adj, c, start, end)
      ensures false
    {
      forall y | y in V && y !in popped
        ensures Le(Inf, s.dist[y])
      {
        var j :| 0 <= j < |unvisited| && unvisited[j] == y;
      }
      LowerBound(adj, w, V, popped, s.dist, start, Inf, c, end);
    }
  }
}
