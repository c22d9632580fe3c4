/** NodesService.GetNodesNamesFromGraph: the names of the repository's nodes, in order. */
module NodesService {
  import opened Wrappers
  import opened Graphs

  /** Select(x => x.Name) over the node list. */
  function SelectNames(nodes: seq<Node>): (names: seq<string>)
    ensures |names| == |nodes|
    ensures forall i :: 0 <= i < |nodes| ==> names[i] == nodes[i].name
  {
    if nodes == [] then [] else [nodes[0].name] + SelectNames(nodes[1..])
  }

  /** A graph the repository did not supply (null) gives no names; otherwise one name per node, in order. */
  function GetNodesNamesFromGraph(graph: Option<Graph>): (names: seq<string>)
    ensures graph.None? ==> names == []
    ensures graph.Some? ==> |names| == |graph.value|
    ensures graph.Some? ==> forall i :: 0 <= i < |names| ==> names[i] == graph.value[i].name
  {
    match graph
    case None => []
    case Some(nodes) => SelectNames(nodes)
  }

  /** Duplicate names are kept: two nodes with one name give two equal entries at their own positions. */
  lemma DuplicatesKept(g: Graph, i: nat, j: nat)
    requires i < j < |g| && g[i].name == g[j].name
    ensures var names := GetNodesNamesFromGraph(Some(g)); names[i] == names[j] == g[i].name
  {
  }

  /** The listed names are exactly the names the shortest-path search accepts as endpoints. */
  lemma ListedNamesAreEndpoints(g: Graph, name: string)
    ensures name in GetNodesNamesFromGraph(Some(g)) <==> name in NodeDict(g)
  {
    var names := GetNodesNamesFromGraph(Some(g));
    if name in NodeDict(g) {
      var i := NodeDict(g)[name];
      assert names[i] == name;
    }
  }
}
