/**
 * The graph the repository supplies: a list of nodes, each with a name and its outgoing
 * weighted edges. A neighbour is referred to by its position in the list, which plays the
 * role of the C# object reference. Walks, their total weight and reachability are the
 * reference notions against which the search is proved.
 */
module Graphs {

  /** An outgoing edge: the position of the neighbour in the node list and the edge weight. */
  datatype Edge = Edge(neighbor: nat, weight: nat)

  /** A graph node: its name and its outgoing edges in the order the repository lists them. */
  datatype Node = Node(name: string, neighbors: seq<Edge>)

  type Graph = seq<Node>

  /** Every edge leads to a node of the same graph. */
  ghost predicate WellFormed(g: Graph)
  {
    forall v, e :: 0 <= v < |g| && 0 <= e < |g[v].neighbors| ==> g[v].neighbors[e].neighbor < |g|
  }

  /** Node u has an edge of weight w to node v. */
  ghost predicate HasEdge(g: Graph, u: nat, v: nat, w: nat)
  {
    u < |g| && exists e :: 0 <= e < |g[u].neighbors| && g[u].neighbors[e] == Edge(v, w)
  }

  /** nodes is a walk through g whose i-th step uses an edge of weight weights[i]. */
  ghost predicate IsWalk(g: Graph, nodes: seq<nat>, weights: seq<nat>)
  {
    && |nodes| == |weights| + 1
    && (forall i :: 0 <= i < |nodes| ==> nodes[i] < |g|)
    && (forall i :: 0 <= i < |weights| ==> HasEdge(g, nodes[i], nodes[i + 1], weights[i]))
  }

  /** The total weight of a walk. */
  function Sum(weights: seq<nat>): nat
  {
    if weights == [] then 0 else weights[0] + Sum(weights[1..])
  }

  lemma {:induction false} SumSnoc(weights: seq<nat>, w: nat)
    ensures Sum(weights + [w]) == Sum(weights) + w
  {
    if weights != [] {
      assert (weights + [w])[1..] == weights[1..] + [w];
      SumSnoc(weights[1..], w);
    }
  }

  /** Some walk leads from s to t. */
  ghost predicate Reachable(g: Graph, s: nat, t: nat)
  {
    exists nodes, weights :: IsWalk(g, nodes, weights) && nodes[0] == s && nodes[|nodes| - 1] == t
  }

  /** No walk from s to t weighs less than d. */
  ghost predicate NoShorterWalk(g: Graph, s: nat, t: nat, d: nat)
  {
    forall nodes, weights ::
      IsWalk(g, nodes, weights) && nodes[0] == s && nodes[|nodes| - 1] == t ==> d <= Sum(weights)
  }

  /**
   * The name -> node table built by visiting the nodes in order and assigning
   * table[node.Name] = node: every name is present, it maps to a node of that name, and to no node
   * earlier than any other node of that name (the last one wins).
   */
  function NodeDict(g: Graph): (table: map<string, nat>)
    ensures forall i :: 0 <= i < |g| ==> g[i].name in table && i <= table[g[i].name]
    ensures forall name :: name in table ==> table[name] < |g| && g[table[name]].name == name
  {
    if g == [] then map[]
    else
      var init, last := g[..|g| - 1], |g| - 1;
      var table := NodeDict(init)[g[last].name := last];
      assert forall i :: 0 <= i < last ==> init[i] == g[i];
      table
  }

  /** With unique names, the table maps each node's name back to that node. */
  lemma UniqueNamesIndex(g: Graph, i: nat)
    requires forall a, b :: 0 <= a < b < |g| ==> g[a].name != g[b].name
    requires i < |g|
    ensures NodeDict(g)[g[i].name] == i
  {
  }
}
