/** `graph(nodes, edges)` of src/utils.js: the node values listed by their
    keys in sorted order, with the edges passed through. */
module Graphs {
  import opened Sequences
  import opened StringOrder

  datatype Graph<N, E> = Graph(nodes: seq<N>, edges: E)

  /** `{ nodes: Object.keys(nodes).sort().map(id => nodes[id]), edges }` */
  function BuildGraph<N, E>(nodes: map<string, N>, edges: E): (g: Graph<N, E>)
    ensures g.edges == edges
    ensures |g.nodes| == |nodes|
    ensures forall i :: 0 <= i < |g.nodes| ==>
      SortedKeys(nodes.Keys)[i] in nodes && g.nodes[i] == nodes[SortedKeys(nodes.Keys)[i]]
  {
    var ks := SortedKeys(nodes.Keys);
    assert forall i :: 0 <= i < |ks| ==> ks[i] in Elements(ks);
    Graph(seq(|ks|, i requires 0 <= i < |ks| => nodes[ks[i]]), edges)
  }

  /** Listing the keys in any strictly ascending order gives the graph's
      nodes: one value per key, in key order, whatever order the map was
      built in. */
  lemma BuildGraphByAscendingKeys<N, E>(nodes: map<string, N>, edges: E, ks: seq<string>)
    requires StrictlyAscending(ks) && Elements(ks) == nodes.Keys
    ensures |BuildGraph(nodes, edges).nodes| == |ks|
    ensures forall i :: 0 <= i < |ks| ==> ks[i] in nodes && BuildGraph(nodes, edges).nodes[i] == nodes[ks[i]]
  {
    AscendingUnique(ks, nodes.Keys);
  }

  /** A dictionary of two keys lists the value of the smaller key first,
      whichever key was inserted first. */
  lemma BuildGraphTwoKeys<N, E>(nodes: map<string, N>, lo: string, hi: string, edges: E)
    requires Less(lo, hi) && nodes.Keys == {lo, hi}
    ensures BuildGraph(nodes, edges) == Graph([nodes[lo], nodes[hi]], edges)
  {
    var ks := [lo, hi];
    var g := BuildGraph(nodes, edges);
    assert g.nodes[0] == nodes[lo] && g.nodes[1] == nodes[hi] by {
      assert StrictlyAscending(ks);
      assert Elements(ks) == nodes.Keys;
      BuildGraphByAscendingKeys(nodes, edges, ks);
      assert ks[0] == lo && ks[1] == hi;
    }
    assert g.nodes == [nodes[lo], nodes[hi]];
  }

  /** The nodes of `{b: "B", a: "A"}` come out as `["A", "B"]`. */
  lemma BuildGraphExample(edges: seq<string>)
    ensures BuildGraph(map["b" := "B", "a" := "A"], edges) == Graph(["A", "B"], edges)
  {
    var nodes := map["b" := "B", "a" := "A"];
    assert Less("a", "b");
    assert nodes.Keys == {"a", "b"};
    BuildGraphTwoKeys(nodes, "a", "b", edges);
  }
}
