/**
 * ShortestPathService.GetShortestPathFromNodes: Dijkstra's search from a start node with a
 * sorted-set frontier, early exit when the destination is extracted, and reconstruction of
 * the path from the predecessor table.
 *
 * The search state is kept as the source keeps it: `dist` is the distance table (a node
 * absent from it still has its initial distance int.MaxValue), `prev` is the predecessor
 * table and `queue` the frontier. The ghost map `settled` records the nodes extracted so
 * far (other than the destination) with the order in which they were extracted.
 */
module ShortestPathService {
  import opened Wrappers
  import opened Models
  import opened Graphs

  /** A frontier entry: a tentative distance and the node it belongs to. */
  datatype Entry = Entry(distance: nat, node: nat)

  /** The frontier's comparer: by distance, ties broken by node (index order stands in for Node.CompareTo). */
  predicate EntryLe(a: Entry, b: Entry)
  {
    a.distance < b.distance || (a.distance == b.distance && a.node <= b.node)
  }

  /**
   * The comparer is a total order on entries, as a SortedSet needs: reflexive, total,
   * antisymmetric (two entries comparing equal are the same entry) and transitive.
   */
  lemma EntryOrderIsTotal(a: Entry, b: Entry, c: Entry)
    ensures EntryLe(a, a)
    ensures EntryLe(a, b) || EntryLe(b, a)
    ensures EntryLe(a, b) && EntryLe(b, a) ==> a == b
    ensures EntryLe(a, b) && EntryLe(b, c) ==> EntryLe(a, c)
  {
  }

  /** distances[v] as the source reads it: int.MaxValue for a node the search has not reached. */
  function DistanceOf(dist: map<nat, nat>, v: nat): nat
  {
    if v in dist then dist[v] else INT_MAX_VALUE
  }

  /**
   * The sparse table stands for the dictionary the source fills with int.MaxValue for every
   * node and then sets to 0 for the start: the table {start: 0} reads so, and writing one
   * distance changes what that node reads and nothing else.
   */
  lemma DistanceTable(dist: map<nat, nat>, start: nat, u: nat, d: nat, v: nat)
    ensures DistanceOf(map[start := 0], v) == (if v == start then 0 else INT_MAX_VALUE)
    ensures DistanceOf(dist[u := d], v) == (if v == u then d else DistanceOf(dist, v))
  {
  }

  /** The node names along a sequence of node positions. */
  function NamesAlong(g: Graph, route: seq<nat>): (names: seq<string>)
    requires forall i :: 0 <= i < |route| ==> route[i] < |g|
  {
    seq(|route|, i requires 0 <= i < |route| => g[route[i]].name)
  }

  /** priorityQueue.Min: the least entry of a non-empty frontier. */
  method FrontierMin(queue: set<Entry>) returns (m: Entry)
    requires queue != {}
    ensures m in queue
    ensures forall e :: e in queue ==> EntryLe(m, e)
  {
    m :| m in queue;
    var rest := queue - {m};
    while rest != {}
      invariant rest <= queue && m in queue && m !in rest
      invariant forall e :: e in queue && e !in rest ==> EntryLe(m, e)
      decreases rest
    {
      var e :| e in rest;
      if !EntryLe(m, e) {
        m := e;
      }
      rest := rest - {e};
    }
  }

  // ----- Invariants of the search -----

  /** The distance table: only graph nodes are reached, and the start is reached at distance 0. */
  ghost predicate DistTable(g: Graph, start: nat, dist: map<nat, nat>)
  {
    && WellFormed(g) && start < |g|
    && (forall v :: v in dist ==> v < |g|)
    && start in dist && dist[start] == 0
  }

  /** p and v are reached and an edge from p to v weighs the difference of their distances. */
  ghost predicate PrevEdge(g: Graph, dist: map<nat, nat>, p: nat, v: nat)
  {
    p in dist && v in dist && dist[p] <= dist[v] && HasEdge(g, p, v, dist[v] - dist[p])
  }

  ghost predicate PrevEdges(g: Graph, dist: map<nat, nat>, prev: map<nat, nat>)
  {
    forall v {:trigger prev[v]} :: v in prev ==> PrevEdge(g, dist, prev[v], v)
  }

  /**
   * The predecessor table: the start has no predecessor, every other reached node has one,
   * and a predecessor is a settled node joined by an edge.
   */
  ghost predicate PrevTable(g: Graph, start: nat, dist: map<nat, nat>, prev: map<nat, nat>, settled: map<nat, nat>)
  {
    && start !in prev
    && (forall v {:trigger dist[v]} :: v in dist && v != start ==> v in prev)
    && (forall v {:trigger prev[v]} :: v in prev ==> v in dist && prev[v] in settled)
    && PrevEdges(g, dist, prev)
  }

  /** Settled nodes are numbered below count in extraction order, and a settled node's predecessor was settled before it. */
  ghost predicate SettleOrder(dist: map<nat, nat>, prev: map<nat, nat>, settled: map<nat, nat>, count: nat)
  {
    && (forall x :: x in settled ==> x in dist && settled[x] < count)
    && (forall v {:trigger settled[v], prev[v]} :: v in prev && v in settled && prev[v] in settled ==> settled[prev[v]] < settled[v])
  }

  ghost predicate Tables(g: Graph, start: nat, dist: map<nat, nat>, prev: map<nat, nat>,
                         settled: map<nat, nat>, count: nat)
  {
    DistTable(g, start, dist) && PrevTable(g, start, dist, prev, settled) && SettleOrder(dist, prev, settled, count)
  }

  /** The frontier holds exactly one entry (distances[v], v) per reached node not yet settled. */
  ghost predicate QueueMatches(dist: map<nat, nat>, settled: map<nat, nat>, queue: set<Entry>)
  {
    && (forall e :: e in queue ==> e.node in dist && e.node !in settled && e.distance == dist[e.node])
    && (forall v :: v in dist && v !in settled ==> Entry(dist[v], v) in queue)
  }

  /** Every edge out of x has been relaxed. */
  ghost predicate RelaxedFrom(g: Graph, dist: map<nat, nat>, x: nat)
  {
    && x < |g| && x in dist
    && forall e :: 0 <= e < |g[x].neighbors| ==>
         && g[x].neighbors[e].neighbor in dist
         && dist[g[x].neighbors[e].neighbor] <= dist[x] + g[x].neighbors[e].weight
  }

  ghost predicate Relaxed(g: Graph, dist: map<nat, nat>, settled: map<nat, nat>)
  {
    forall x :: x in settled ==> RelaxedFrom(g, dist, x)
  }

  /**
   * The level separates the settled nodes from the frontier: no settled node is farther than
   * it and no reached node still on the frontier is nearer.
   */
  ghost predicate Level(dist: map<nat, nat>, settled: map<nat, nat>, level: nat)
  {
    && (forall x :: x in settled ==> x in dist && dist[x] <= level)
    && (forall v :: v in dist && v !in settled ==> level <= dist[v])
  }

  /** The distance of a settled node is no greater than the weight of any walk from the start to it. */
  ghost predicate SettledOptimal(g: Graph, start: nat, dist: map<nat, nat>, settled: map<nat, nat>)
  {
    forall nodes, weights ::
      IsWalk(g, nodes, weights) && nodes[0] == start && nodes[|nodes| - 1] in settled ==>
        nodes[|nodes| - 1] in dist && dist[nodes[|nodes| - 1]] <= Sum(weights)
  }

  // ----- Lemmas of the search -----

  /** The frontier invariant: no node has two entries in the frontier. */
  lemma QueueHasOneEntryPerNode(dist: map<nat, nat>, settled: map<nat, nat>, queue: set<Entry>)
    requires QueueMatches(dist, settled, queue)
    ensures forall a, b :: a in queue && b in queue && a.node == b.node ==> a == b
  {
  }

  /**
   * A walk from the start to a node that is not settled passes through a reached,
   * unsettled node whose recorded distance is no greater than the walk's weight.
   */
  lemma {:induction false} FrontierBound(g: Graph, start: nat, dist: map<nat, nat>, settled: map<nat, nat>,
                                         nodes: seq<nat>, weights: seq<nat>)
    requires start in dist && dist[start] == 0
    requires Relaxed(g, dist, settled)
    requires SettledOptimal(g, start, dist, settled)
    requires IsWalk(g, nodes, weights) && nodes[0] == start && nodes[|nodes| - 1] !in settled
    ensures exists y :: y in dist && y !in settled && dist[y] <= Sum(weights)
    decreases |nodes|
  {
    var k := |nodes| - 1;
    if k == 0 {
      assert start in dist && start !in settled && dist[start] <= Sum(weights);
    } else {
      var front, frontWeights := nodes[..k], weights[..k - 1];
      assert IsWalk(g, front, frontWeights) by {
        forall i | 0 <= i < |frontWeights|
          ensures HasEdge(g, front[i], front[i + 1], frontWeights[i])
        {
          assert HasEdge(g, nodes[i], nodes[i + 1], weights[i]);
        }
      }
      assert weights == frontWeights + [weights[k - 1]];
      SumSnoc(frontWeights, weights[k - 1]);
      var x := nodes[k - 1];
      if x in settled {
        assert dist[x] <= Sum(frontWeights);
        assert HasEdge(g, x, nodes[k], weights[k - 1]);
        var e :| 0 <= e < |g[x].neighbors| && g[x].neighbors[e] == Edge(nodes[k], weights[k - 1]);
        assert RelaxedFrom(g, dist, x);
        assert nodes[k] in dist && dist[nodes[k]] <= dist[x] + weights[k - 1];
      } else {
        FrontierBound(g, start, dist, settled, front, frontWeights);
      }
    }
  }

  /** The least frontier entry carries the true shortest distance of its node. */
  lemma MinIsShortest(g: Graph, start: nat, dist: map<nat, nat>, settled: map<nat, nat>,
                      queue: set<Entry>, m: Entry)
    requires start in dist && dist[start] == 0
    requires Relaxed(g, dist, settled)
    requires SettledOptimal(g, start, dist, settled)
    requires QueueMatches(dist, settled, queue)
    requires m in queue && forall e :: e in queue ==> EntryLe(m, e)
    ensures m.node in dist && m.distance == dist[m.node]
    ensures NoShorterWalk(g, start, m.node, m.distance)
  {
    forall nodes, weights | IsWalk(g, nodes, weights) && nodes[0] == start && nodes[|nodes| - 1] == m.node
      ensures m.distance <= Sum(weights)
    {
      FrontierBound(g, start, dist, settled, nodes, weights);
      var y :| y in dist && y !in settled && dist[y] <= Sum(weights);
      assert EntryLe(m, Entry(dist[y], y));
    }
  }

  /** When the frontier is empty and the destination was never settled, no walk reaches it. */
  lemma DrainedMeansUnreachable(g: Graph, start: nat, target: nat, dist: map<nat, nat>, settled: map<nat, nat>)
    requires start in dist && dist[start] == 0
    requires Relaxed(g, dist, settled)
    requires SettledOptimal(g, start, dist, settled)
    requires QueueMatches(dist, settled, {})
    requires target !in settled
    ensures target !in dist
    ensures !Reachable(g, start, target)
  {
    if Reachable(g, start, target) {
      var nodes, weights :| IsWalk(g, nodes, weights) && nodes[0] == start && nodes[|nodes| - 1] == target;
      FrontierBound(g, start, dist, settled, nodes, weights);
      assert false;
    }
  }

  /** Following the predecessor links backwards from a reached node retraces a walk from the start. */
  lemma {:induction false} ChainIsWalk(g: Graph, dist: map<nat, nat>, prev: map<nat, nat>, route: seq<nat>)
    returns (weights: seq<nat>)
    requires PrevEdges(g, dist, prev)
    requires |route| >= 1 && forall i :: 0 <= i < |route| ==> route[i] in dist && route[i] < |g|
    requires forall i :: 1 <= i < |route| ==> route[i] in prev && prev[route[i]] == route[i - 1]
    ensures IsWalk(g, route, weights)
    ensures dist[route[0]] + Sum(weights) == dist[route[|route| - 1]]
  {
    if |route| == 1 {
      weights := [];
      assert IsWalk(g, route, []);
    } else {
      var rest := route[1..];
      var restWeights := ChainIsWalk(g, dist, prev, rest);
      var a, b := route[0], route[1];
      assert prev[b] == a;
      var w: nat := dist[b] - dist[a];
      weights := [w] + restWeights;
      assert weights[1..] == restWeights;
      assert IsWalk(g, route, weights) by {
        forall i | 0 <= i < |weights|
          ensures HasEdge(g, route[i], route[i + 1], weights[i])
        {
          if i > 0 {
            assert HasEdge(g, rest[i - 1], rest[i], restWeights[i - 1]);
          }
        }
      }
    }
  }

  /** A sequence of distinct positions below n has at most n elements. */
  lemma {:induction false} DistinctBounded(s: seq<nat>, n: nat)
    requires forall i :: 0 <= i < |s| ==> s[i] < n
    requires forall i, j :: 0 <= i < j < |s| ==> s[i] != s[j]
    ensures |s| <= n
    decreases n
  {
    if s != [] {
      assert s[0] < n;
      if k :| 0 <= k < |s| && s[k] == n - 1 {
        var t := s[..k] + s[k + 1..];
        assert forall i :: 0 <= i < |t| ==> t[i] == (if i < k then s[i] else s[i + 1]);
        DistinctBounded(t, n - 1);
      } else {
        DistinctBounded(s, n - 1);
      }
    }
  }

  /** A set of positions below n has at most n elements. */
  lemma {:induction false} SetBounded(positions: set<nat>, n: nat)
    requires forall x :: x in positions ==> x < n
    ensures |positions| <= n
    decreases n
  {
    if positions != {} {
      var x :| x in positions;
      assert x < n;
      SetBounded(positions - {n - 1}, n - 1);
    }
  }

  /**
   * Giving v the distance d + w and the predecessor u, for a reached u at distance d that is
   * joined to v by an edge of weight w, keeps every predecessor link an edge of the right weight.
   */
  lemma RelaxKeepsPrevEdges(g: Graph, dist: map<nat, nat>, prev: map<nat, nat>, settled: map<nat, nat>,
                            u: nat, d: nat, v: nat, w: nat, nd: nat)
    requires PrevEdges(g, dist, prev)
    requires forall y {:trigger prev[y]} :: y in prev ==> prev[y] in settled
    requires v !in settled && u in settled && u in dist && dist[u] == d
    requires HasEdge(g, u, v, w) && nd == d + w
    ensures PrevEdges(g, dist[v := nd], prev[v := u])
  {
    var dist', prev' := dist[v := nd], prev[v := u];
    assert dist'[u] == d && dist'[v] == d + w;
    assert PrevEdge(g, dist', u, v);
    forall y | y in prev' ensures PrevEdge(g, dist', prev'[y], y) {
      if y != v {
        var p := prev[y];
        assert PrevEdge(g, dist, p, y);
        assert p in settled && p != v;
        assert dist'[p] == dist[p] && dist'[y] == dist[y];
      }
    }
  }

  /**
   * An improving relaxation of the edge u -> v of weight w (the neighbour is unreached or
   * d + w beats its distance) keeps the tables: v is neither settled nor the start, and it
   * takes distance d + w and predecessor u.
   */
  lemma RelaxKeepsTables(g: Graph, start: nat, dist: map<nat, nat>, prev: map<nat, nat>,
                         settled: map<nat, nat>, count: nat, u: nat, d: nat, v: nat, w: nat, nd: nat)
    requires Tables(g, start, dist, prev, settled, count)
    requires u in settled && u in dist && dist[u] == d
    requires forall x :: x in settled ==> x in dist && dist[x] <= d
    requires HasEdge(g, u, v, w)
    requires nd == d + w && (v !in dist || nd < dist[v])
    ensures v !in settled && v != start && v < |g|
    ensures Tables(g, start, dist[v := nd], prev[v := u], settled, count)
  {
    var dist', prev' := dist[v := nd], prev[v := u];
    assert v < |g| && v !in settled && v != start;
    RelaxKeepsPrevEdges(g, dist, prev, settled, u, d, v, w, nd);
    assert DistTable(g, start, dist');
    assert PrevTable(g, start, dist', prev', settled);
    assert SettleOrder(dist', prev', settled, count);
  }

  /** Replacing v's frontier entry by one for its new distance keeps the frontier invariant. */
  lemma RelaxKeepsQueue(dist: map<nat, nat>, settled: map<nat, nat>, queue: set<Entry>, v: nat, nd: nat)
    requires QueueMatches(dist, settled, queue)
    requires v !in settled
    ensures QueueMatches(dist[v := nd], settled, queue - {Entry(DistanceOf(dist, v), v)} + {Entry(nd, v)})
  {
    var dist', queue' := dist[v := nd], queue - {Entry(DistanceOf(dist, v), v)} + {Entry(nd, v)};
    forall x | x in dist' && x !in settled ensures Entry(dist'[x], x) in queue' {
      if x != v {
        assert Entry(dist[x], x) in queue;
      }
    }
  }

  /**
   * Lowering distances of unsettled nodes keeps the relaxation of the other settled nodes'
   * edges and the optimality of the settled distances.
   */
  lemma LoweringKeepsSettled(g: Graph, start: nat, dist0: map<nat, nat>, dist: map<nat, nat>,
                             settled: map<nat, nat>, u: nat)
    requires forall v :: v in dist0 ==> v in dist && dist[v] <= dist0[v]
    requires forall x :: x in settled ==> x in dist0 && x in dist && dist[x] == dist0[x]
    requires forall x :: x in settled && x != u ==> RelaxedFrom(g, dist0, x)
    requires SettledOptimal(g, start, dist0, settled)
    ensures forall x :: x in settled && x != u ==> RelaxedFrom(g, dist, x)
    ensures SettledOptimal(g, start, dist, settled)
  {
    forall x | x in settled && x != u ensures RelaxedFrom(g, dist, x) {
      assert RelaxedFrom(g, dist0, x);
      forall e | 0 <= e < |g[x].neighbors|
        ensures g[x].neighbors[e].neighbor in dist
        ensures dist[g[x].neighbors[e].neighbor] <= dist[x] + g[x].neighbors[e].weight
      {
        assert g[x].neighbors[e].neighbor in dist0;
      }
    }
  }

  /** Settling a reached, not yet settled node with the next rank keeps the tables. */
  lemma SettleKeepsTables(g: Graph, start: nat, dist: map<nat, nat>, prev: map<nat, nat>,
                          settled: map<nat, nat>, count: nat, v: nat)
    requires Tables(g, start, dist, prev, settled, count)
    requires v in dist && v !in settled
    ensures settled[v := count].Keys == settled.Keys + {v}
    ensures Tables(g, start, dist, prev, settled[v := count], count + 1)
  {
    var settled' := settled[v := count];
    assert settled'.Keys == settled.Keys + {v};
    assert PrevTable(g, start, dist, prev, settled');
    assert SettleOrder(dist, prev, settled', count + 1);
  }

  /**
   * Settling the least frontier entry m with the next rank keeps the tables and the frontier
   * invariant (without m), raises the level to m's distance, and keeps the settled distances
   * optimal; only m's own edges remain to be relaxed.
   */
  lemma SettleKeepsInvariants(g: Graph, start: nat, dist: map<nat, nat>, prev: map<nat, nat>, queue: set<Entry>,
                              settled: map<nat, nat>, count: nat, level: nat, m: Entry)
    requires Tables(g, start, dist, prev, settled, count)
    requires QueueMatches(dist, settled, queue)
    requires Relaxed(g, dist, settled)
    requires Level(dist, settled, level)
    requires SettledOptimal(g, start, dist, settled)
    requires m in queue && forall e :: e in queue ==> EntryLe(m, e)
    ensures m.node in dist && m.distance == dist[m.node] && m.node !in settled
    ensures settled[m.node := count].Keys == settled.Keys + {m.node}
    ensures Tables(g, start, dist, prev, settled[m.node := count], count + 1)
    ensures QueueMatches(dist, settled[m.node := count], queue - {m})
    ensures Level(dist, settled[m.node := count], m.distance)
    ensures forall x :: x in settled[m.node := count] && x != m.node ==> RelaxedFrom(g, dist, x)
    ensures SettledOptimal(g, start, dist, settled[m.node := count])
  {
    var settled' := settled[m.node := count];
    MinIsShortest(g, start, dist, settled, queue, m);
    SettleKeepsTables(g, start, dist, prev, settled, count, m.node);
    assert QueueMatches(dist, settled', queue - {m});
    assert Level(dist, settled', m.distance) by {
      forall v | v in dist && v !in settled' ensures m.distance <= dist[v] {
        assert Entry(dist[v], v) in queue;
      }
    }
    assert SettledOptimal(g, start, dist, settled') by {
      forall nodes, weights | IsWalk(g, nodes, weights) && nodes[0] == start && nodes[|nodes| - 1] in settled'
        ensures dist[nodes[|nodes| - 1]] <= Sum(weights)
      {
        if nodes[|nodes| - 1] in settled {
        }
      }
    }
  }

  // ----- The algorithm -----

  /**
   * One iteration of the foreach over currentNode.Neighbors: when the candidate distance
   * currentDistance + weight is strictly smaller than the neighbour's recorded distance
   * (or the neighbour is unreached), the neighbour's frontier entry is removed, its distance
   * and predecessor are replaced and the new entry is added; otherwise nothing changes.
   */
  method RelaxEdge(g: Graph, u: nat, currentDistance: nat, edge: Edge,
                   dist0: map<nat, nat>, prev0: map<nat, nat>, queue0: set<Entry>,
                   ghost start: nat, ghost settled: map<nat, nat>, ghost count: nat)
    returns (dist: map<nat, nat>, prev: map<nat, nat>, queue: set<Entry>)
    requires Tables(g, start, dist0, prev0, settled, count)
    requires QueueMatches(dist0, settled, queue0)
    requires u in settled && u in dist0 && dist0[u] == currentDistance
    requires Level(dist0, settled, currentDistance)
    requires HasEdge(g, u, edge.neighbor, edge.weight)
    ensures edge.neighbor !in dist0 || currentDistance + edge.weight < dist0[edge.neighbor] ==>
              && dist == dist0[edge.neighbor := currentDistance + edge.weight]
              && prev == prev0[edge.neighbor := u]
              && queue == queue0 - {Entry(DistanceOf(dist0, edge.neighbor), edge.neighbor)}
                                 + {Entry(currentDistance + edge.weight, edge.neighbor)}
    ensures edge.neighbor in dist0 && currentDistance + edge.weight >= dist0[edge.neighbor] ==>
              dist == dist0 && prev == prev0 && queue == queue0
    ensures Tables(g, start, dist, prev, settled, count)
    ensures QueueMatches(dist, settled, queue)
    ensures Level(dist, settled, currentDistance)
    ensures edge.neighbor in dist && dist[edge.neighbor] <= currentDistance + edge.weight
    ensures forall v :: v in dist0 ==> v in dist && dist[v] <= dist0[v]
    ensures forall x :: x in settled ==> x in dist && dist[x] == dist0[x]
  {
    dist, prev, queue := dist0, prev0, queue0;
    var neighbor, weight := edge.neighbor, edge.weight;
    var distance: nat := currentDistance + weight;
    if neighbor !in dist || distance < dist[neighbor] {
      RelaxKeepsTables(g, start, dist0, prev0, settled, count, u, currentDistance, neighbor, weight, distance);
      RelaxKeepsQueue(dist0, settled, queue0, neighbor, distance);
      queue := queue - {Entry(DistanceOf(dist, neighbor), neighbor)};
      dist := dist[neighbor := distance];
      prev := prev[neighbor := u];
      queue := queue + {Entry(distance, neighbor)};
    }
  }

  /**
   * The foreach over currentNode.Neighbors: every edge is relaxed in turn. Afterwards all
   * edges out of u are relaxed, and the settled nodes keep their distances and optimality.
   */
  method RelaxNeighbors(g: Graph, u: nat, currentDistance: nat,
                        dist0: map<nat, nat>, prev0: map<nat, nat>, queue0: set<Entry>,
                        ghost start: nat, ghost settled: map<nat, nat>, ghost count: nat)
    returns (dist: map<nat, nat>, prev: map<nat, nat>, queue: set<Entry>)
    requires Tables(g, start, dist0, prev0, settled, count)
    requires QueueMatches(dist0, settled, queue0)
    requires u in settled && u in dist0 && dist0[u] == currentDistance
    requires Level(dist0, settled, currentDistance)
    requires forall x :: x in settled && x != u ==> RelaxedFrom(g, dist0, x)
    requires SettledOptimal(g, start, dist0, settled)
    ensures Tables(g, start, dist, prev, settled, count)
    ensures QueueMatches(dist, settled, queue)
    ensures Relaxed(g, dist, settled)
    ensures Level(dist, settled, currentDistance)
    ensures SettledOptimal(g, start, dist, settled)
    ensures forall v :: v in dist0 ==> v in dist && dist[v] <= dist0[v]
    ensures forall x :: x in settled ==> x in dist && dist[x] == dist0[x]
  {
    dist, prev, queue := dist0, prev0, queue0;
    var edges := g[u].neighbors;
    var j := 0;
    while j < |edges|
      invariant 0 <= j <= |edges|
      invariant Tables(g, start, dist, prev, settled, count)
      invariant QueueMatches(dist, settled, queue)
      invariant forall x :: x in settled ==> x in dist && dist[x] == dist0[x]
      invariant forall v :: v in dist0 ==> v in dist && dist[v] <= dist0[v]
      invariant forall e :: 0 <= e < j ==> edges[e].neighbor in dist
                                           && dist[edges[e].neighbor] <= currentDistance + edges[e].weight
      invariant Level(dist, settled, currentDistance)
    {
      assert HasEdge(g, u, edges[j].neighbor, edges[j].weight);
      dist, prev, queue := RelaxEdge(g, u, currentDistance, edges[j], dist, prev, queue, start, settled, count);
      j := j + 1;
    }
    LoweringKeepsSettled(g, start, dist0, dist, settled, u);
    assert RelaxedFrom(g, dist, u);
  }

  /**
   * The path rebuild: starting from the destination, prepend the current node's name and
   * move to its predecessor until a node without one is reached.
   */
  method ReconstructPath(g: Graph, prev: map<nat, nat>, endNode: nat, ghost settled: map<nat, nat>, ghost count: nat)
    returns (path: seq<string>, ghost route: seq<nat>)
    requires endNode < |g|
    requires forall v :: v in prev ==> prev[v] in settled
    requires forall x :: x in settled ==> x < |g| && settled[x] < count
    requires forall v :: v in prev && v in settled ==> settled[prev[v]] < settled[v]
    ensures 1 <= |route| <= |g|
    ensures route[|route| - 1] == endNode && route[0] !in prev
    ensures forall i :: 1 <= i < |route| ==> route[i] in prev && prev[route[i]] == route[i - 1]
    ensures forall i :: 0 <= i < |route| ==> route[i] < |g|
    ensures forall i, j :: 0 <= i < j < |route| ==> route[i] != route[j]
    ensures path == NamesAlong(g, route)
    ensures 1 <= |path| <= |g| && path[|path| - 1] == g[endNode].name
    ensures endNode !in prev ==> path == [g[endNode].name]
  {
    path, route := [], [];
    var current: Option<nat> := Some(endNode);
    while current.Some?
      invariant current.Some? ==> current.value < |g|
      invariant route == [] ==> current == Some(endNode)
      invariant route != [] ==> route[|route| - 1] == endNode
      invariant route != [] && current.Some? ==> route[0] in prev && prev[route[0]] == current.value
      invariant current.None? ==> route != [] && route[0] !in prev
      invariant forall i :: 1 <= i < |route| ==> route[i] in prev && prev[route[i]] == route[i - 1]
      invariant forall i :: 0 <= i < |route| ==> route[i] < |g|
      invariant forall i, j :: 0 <= i < j < |route| ==>
                  route[i] in settled && (route[j] in settled ==> settled[route[i]] < settled[route[j]])
      invariant path == NamesAlong(g, route)
      decreases if current.None? then 0
                else if current.value in settled then settled[current.value] + 1
                else count + 1
    {
      var node := current.value;
      path := [g[node].name] + path;
      route := [node] + route;
      current := if node in prev then Some(prev[node]) else None;
    }
    DistinctBounded(route, |g|);
  }

  /** The dictionary from node name to node, filled in graph order so a repeated name keeps its last node. */
  method BuildNodeDict(g: Graph) returns (nodeDict: map<string, nat>)
    ensures nodeDict == NodeDict(g)
  {
    nodeDict := map[];
    var i := 0;
    while i < |g|
      invariant 0 <= i <= |g|
      invariant nodeDict == NodeDict(g[..i])
    {
      assert g[..i + 1][..i] == g[..i];
      nodeDict := nodeDict[g[i].name := i];
      i := i + 1;
    }
    assert g[..|g|] == g;
  }

  /**
   * The while loop over the frontier: take the least entry, stop when it is the destination,
   * otherwise settle it and relax its edges. When the loop stops at the destination, its
   * distance is that of a shortest walk; when the frontier runs dry, no walk reaches it.
   */
  method Search(g: Graph, startNode: nat, endNode: nat)
    returns (dist: map<nat, nat>, prev: map<nat, nat>, ghost settled: map<nat, nat>, ghost count: nat, ghost reached: bool)
    requires WellFormed(g) && startNode < |g| && endNode < |g|
    ensures Tables(g, startNode, dist, prev, settled, count)
    ensures reached ==> endNode in dist && NoShorterWalk(g, startNode, endNode, dist[endNode])
    ensures !reached ==> endNode !in dist && !Reachable(g, startNode, endNode)
    ensures startNode in dist && dist[startNode] == 0 && startNode !in prev
    ensures endNode in dist ==> NoShorterWalk(g, startNode, endNode, dist[endNode])
    ensures endNode !in dist ==> !Reachable(g, startNode, endNode)
  {
    dist := map[startNode := 0];
    prev := map[];
    var queue: set<Entry> := {Entry(0, startNode)};
    settled, count, reached := map[], 0, false;
    ghost var level: nat := 0;

    while |queue| > 0
      invariant Tables(g, startNode, dist, prev, settled, count)
      invariant QueueMatches(dist, settled, queue)
      invariant Relaxed(g, dist, settled)
      invariant Level(dist, settled, level)
      invariant SettledOptimal(g, startNode, dist, settled)
      invariant endNode !in settled
      invariant !reached
      invariant |settled.Keys| <= |g|
      decreases |g| - |settled.Keys|
    {
      var m := FrontierMin(queue);
      MinIsShortest(g, startNode, dist, settled, queue, m);
      ghost var queueBefore := queue;
      queue := queue - {m};
      var currentDistance, currentNode := m.distance, m.node;
      if currentNode == endNode {
        reached := true;
        break;
      }
      SettleKeepsInvariants(g, startNode, dist, prev, queueBefore, settled, count, level, m);
      SetBounded(settled.Keys + {currentNode}, |g|);
      settled, count, level := settled[currentNode := count], count + 1, currentDistance;
      dist, prev, queue := RelaxNeighbors(g, currentNode, currentDistance, dist, prev, queue, startNode, settled, count);
    }
    if !reached {
      DrainedMeansUnreachable(g, startNode, endNode, dist, settled);
    }
  }

  /**
   * When the destination was reached, the rebuilt route starts at the start node and is a
   * walk whose weight is the destination's distance; a self-query rebuilds the start alone.
   */
  lemma ReachedRoute(g: Graph, start: nat, end: nat, dist: map<nat, nat>, prev: map<nat, nat>,
                     settled: map<nat, nat>, count: nat, route: seq<nat>)
    returns (weights: seq<nat>)
    requires Tables(g, start, dist, prev, settled, count) && end in dist
    requires 1 <= |route| && route[|route| - 1] == end && route[0] !in prev
    requires forall i :: 1 <= i < |route| ==> route[i] in prev && prev[route[i]] == route[i - 1]
    requires forall i :: 0 <= i < |route| ==> route[i] < |g|
    ensures route[0] == start && IsWalk(g, route, weights) && Sum(weights) == dist[end]
    ensures Reachable(g, start, end)
    ensures start == end ==> route == [start]
  {
    forall k | 0 <= k < |route| ensures route[k] in dist {
      if k < |route| - 1 {
        assert prev[route[k + 1]] == route[k];
      }
    }
    assert route[0] == start;
    weights := ChainIsWalk(g, dist, prev, route);
  }

  /** When the destination was never reached, the rebuilt route is the destination alone. */
  lemma UnreachedRoute(g: Graph, start: nat, end: nat, dist: map<nat, nat>, prev: map<nat, nat>,
                       settled: map<nat, nat>, count: nat, route: seq<nat>)
    requires Tables(g, start, dist, prev, settled, count) && end !in dist
    requires 1 <= |route| && route[|route| - 1] == end
    requires forall i :: 1 <= i < |route| ==> route[i] in prev && prev[route[i]] == route[i - 1]
    ensures route == [end]
  {
  }

  /**
   * The promised answer for two known names: a path of distinct nodes ending at the
   * destination and named along it; when the destination is reachable the path starts at the
   * start and is a walk whose weight is the distance, which no walk undercuts; when it is
   * not, the path is the destination alone at distance int.MaxValue; and the same name twice
   * gives that name alone at distance 0.
   */
  ghost predicate IsShortestAnswer(g: Graph, fromNodeName: string, toNodeName: string, r: ServiceOutcome,
                                   route: seq<nat>, weights: seq<nat>)
    requires fromNodeName in NodeDict(g) && toNodeName in NodeDict(g)
  {
    var s, t := NodeDict(g)[fromNodeName], NodeDict(g)[toNodeName];
    && r.Computed?
    && 1 <= |route| <= |g|
    && (forall i :: 0 <= i < |route| ==> route[i] < |g|)
    && (forall i, j :: 0 <= i < j < |route| ==> route[i] != route[j])
    && route[|route| - 1] == t
    && r.data.nodeNames == NamesAlong(g, route)
    && r.data.nodeNames[|r.data.nodeNames| - 1] == toNodeName
    && (Reachable(g, s, t) ==>
          && route[0] == s && r.data.nodeNames[0] == fromNodeName
          && IsWalk(g, route, weights)
          && r.data.distance == Sum(weights)
          && NoShorterWalk(g, s, t, r.data.distance))
    && (!Reachable(g, s, t) ==> r == Computed(ShortestPathData([toNodeName], INT_MAX_VALUE)) && route == [t])
    && (fromNodeName == toNodeName ==> r == Computed(ShortestPathData([fromNodeName], 0)))
  }

  /**
   * The answer assembled from the search and the path rebuild has the promised shape.
   */
  lemma ResultFacts(g: Graph, fromNodeName: string, toNodeName: string, startNode: nat, endNode: nat,
                    dist: map<nat, nat>, reached: bool, r: ServiceOutcome, route: seq<nat>, weights: seq<nat>)
    requires WellFormed(g) && fromNodeName in NodeDict(g) && toNodeName in NodeDict(g)
    requires startNode == NodeDict(g)[fromNodeName] && endNode == NodeDict(g)[toNodeName]
    requires 1 <= |route| <= |g| && route[|route| - 1] == endNode
    requires forall i :: 0 <= i < |route| ==> route[i] < |g|
    requires forall i, j :: 0 <= i < j < |route| ==> route[i] != route[j]
    requires r == Computed(ShortestPathData(NamesAlong(g, route), DistanceOf(dist, endNode)))
    requires reached ==> && endNode in dist && NoShorterWalk(g, startNode, endNode, dist[endNode])
                         && route[0] == startNode && IsWalk(g, route, weights) && Sum(weights) == dist[endNode]
                         && (startNode == endNode ==> route == [startNode])
    requires !reached ==> endNode !in dist && !Reachable(g, startNode, endNode) && route == [endNode]
    ensures IsShortestAnswer(g, fromNodeName, toNodeName, r, route, weights)
  {
    var names := NamesAlong(g, route);
    assert g[startNode].name == fromNodeName && g[endNode].name == toNodeName;
    assert names[|names| - 1] == toNodeName;
    if reached {
      assert Reachable(g, startNode, endNode);
      assert names[0] == fromNodeName && r.data.distance == dist[endNode];
      if startNode == endNode {
        assert names == [fromNodeName] && dist[endNode] == 0;
      }
    } else {
      assert IsWalk(g, [startNode], []);
      assert names == [toNodeName] && r.data.distance == INT_MAX_VALUE;
    }
  }

  /**
   * The search. Unknown endpoint names fail as the dictionary indexer does (the start name
   * is looked up first). Otherwise the result's path ends at the destination, retraces a
   * walk from the start whose weight is the distance and which no walk undercuts, or, when
   * no walk reaches the destination, is the destination alone with distance int.MaxValue.
   */
  method GetShortestPathFromNodes(g: Graph, fromNodeName: string, toNodeName: string)
    returns (r: ServiceOutcome, ghost route: seq<nat>, ghost weights: seq<nat>)
    requires WellFormed(g)
    ensures fromNodeName !in NodeDict(g) ==> r == Threw(KeyNotFoundMessage(fromNodeName))
    ensures fromNodeName in NodeDict(g) && toNodeName !in NodeDict(g) ==> r == Threw(KeyNotFoundMessage(toNodeName))
    ensures fromNodeName in NodeDict(g) && toNodeName in NodeDict(g) ==>
              IsShortestAnswer(g, fromNodeName, toNodeName, r, route, weights)
  {
    var nodeDict := BuildNodeDict(g);
    if fromNodeName !in nodeDict {
      return Threw(KeyNotFoundMessage(fromNodeName)), [], [];
    }
    if toNodeName !in nodeDict {
      return Threw(KeyNotFoundMessage(toNodeName)), [], [];
    }
    var startNode := nodeDict[fromNodeName];
    var endNode := nodeDict[toNodeName];
    var dist, prev, settled, count, reached := Search(g, startNode, endNode);
    var shortestPath;
    shortestPath, route := ReconstructPath(g, prev, endNode, settled, count);
    if reached {
      weights := ReachedRoute(g, startNode, endNode, dist, prev, settled, count, route);
    } else {
      UnreachedRoute(g, startNode, endNode, dist, prev, settled, count, route);
      weights := [];
    }
    r := Computed(ShortestPathData(shortestPath, DistanceOf(dist, endNode)));
    ResultFacts(g, fromNodeName, toNodeName, startNode, endNode, dist, reached, r, route, weights);
  }
}
