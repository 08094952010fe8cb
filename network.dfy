/**
 * The node and edge lists `create_interactive_network`
 * (genepathwaygenerator.py:79-110) hands to the graph library: one node per
 * gene, coloured by its position, and one edge per interaction, its width
 * growing with the confidence.
 */
module PathwayNetwork {
  import opened Wrappers
  import opened StringDb

  /** The seven pastel colours nodes cycle through. */
  const Palette: seq<string> := ["#FFB3BA", "#FFDFBA", "#FFFFBA", "#BAFFC9", "#BAE1FF", "#E2BAFF", "#FFC3E1"]
  const NodeSize := 24
  const EdgeColor := "#9e9e9e"

  /** A node; `caption` is the label drawn on it. */
  datatype Node = Node(id: string, caption: string, color: string, size: int)

  /** The hover text of an edge: empty when labels are off, otherwise the
      confidence it shows. */
  datatype Title = NoTitle | ConfidenceTitle(score: real)

  datatype Edge = Edge(source: string, target: string, title: Title, width: real, color: string)

  /** The graph under construction, as far as the nodes and edges added to it. */
  class Network {
    var nodes: seq<Node>
    var edges: seq<Edge>

    constructor ()
      ensures nodes == [] && edges == []
    {
      nodes, edges := [], [];
    }

    method AddNode(n: Node)
      modifies this
      ensures nodes == old(nodes) + [n] && edges == old(edges)
    {
      nodes := nodes + [n];
    }

    method AddEdge(e: Edge)
      modifies this
      ensures edges == old(edges) + [e] && nodes == old(nodes)
    {
      edges := edges + [e];
    }
  }

  /** The node for the gene at position `i`. */
  function GeneNode(gene: string, i: nat): Node
  {
    Node(gene, gene, Palette[i % |Palette|], NodeSize)
  }

  /** The edge for one interaction. */
  function InteractionEdge(x: Interaction, showLabels: bool): Edge
  {
    Edge(x.geneA, x.geneB, if showLabels then ConfidenceTitle(x.score) else NoTitle, 1.0 + x.score * 2.0, EdgeColor)
  }

  /** The nodes the first loop adds, in order. */
  function GeneNodes(genes: seq<string>): (r: seq<Node>)
    ensures |r| == |genes|
    ensures forall i :: 0 <= i < |genes| ==>
      && r[i].id == genes[i] && r[i].caption == genes[i]
      && r[i].color == Palette[i % 7] && r[i].size == NodeSize
  {
    if genes == [] then []
    else GeneNodes(genes[..|genes| - 1]) + [GeneNode(genes[|genes| - 1], |genes| - 1)]
  }

  /** The edges the second loop adds, in order. */
  function InteractionEdges(interactions: seq<Interaction>, showLabels: bool): (r: seq<Edge>)
    ensures |r| == |interactions|
    ensures forall k :: 0 <= k < |interactions| ==>
      && r[k].source == interactions[k].geneA && r[k].target == interactions[k].geneB
      && r[k].width == 1.0 + 2.0 * interactions[k].score
      && (interactions[k].score >= 0.0 ==> r[k].width >= 1.0)
      && r[k].title == (if showLabels then ConfidenceTitle(interactions[k].score) else NoTitle)
      && r[k].color == EdgeColor
  {
    if interactions == [] then []
    else
      InteractionEdges(interactions[..|interactions| - 1], showLabels)
        + [InteractionEdge(interactions[|interactions| - 1], showLabels)]
  }

  /** `create_interactive_network(genes, edges)` up to the graph options and
      the HTML file. */
  method CreateInteractiveNetwork(genes: seq<string>, interactions: seq<Interaction>, showLabels: bool)
    returns (net: Network)
    ensures fresh(net)
    ensures net.nodes == GeneNodes(genes)
    ensures net.edges == InteractionEdges(interactions, showLabels)
  {
    net := new Network();
    var i := 0;
    while i < |genes|
      invariant 0 <= i <= |genes|
      invariant net.nodes == GeneNodes(genes[..i]) && net.edges == []
    {
      assert genes[..i + 1][..i] == genes[..i];
      net.AddNode(GeneNode(genes[i], i));
      i := i + 1;
    }
    assert genes[..|genes|] == genes;
    var k := 0;
    while k < |interactions|
      invariant 0 <= k <= |interactions|
      invariant net.nodes == GeneNodes(genes)
      invariant net.edges == InteractionEdges(interactions[..k], showLabels)
    {
      assert interactions[..k + 1][..k] == interactions[..k];
      net.AddEdge(InteractionEdge(interactions[k], showLabels));
      k := k + 1;
    }
    assert interactions[..|interactions|] == interactions;
  }

  /** Two genes get the same colour exactly when their positions differ by
      a multiple of seven. */
  lemma ColorsCycle(genes: seq<string>, i: nat, j: nat)
    requires i < |genes| && j < |genes|
    ensures GeneNodes(genes)[i].color == GeneNodes(genes)[j].color <==> i % 7 == j % 7
  {
    var a, b := i % 7, j % 7;
    if a != b {
      assert Palette[a] != Palette[b] by {
        PaletteDistinct(a, b);
      }
    }
  }

  /** The colours differ pairwise: their fourth and sixth characters alone tell them apart. */
  lemma PaletteDistinct(a: nat, b: nat)
    requires a < 7 && b < 7 && a != b
    ensures Palette[a] != Palette[b]
  {
    var keys := [('B', 'B'), ('D', 'B'), ('F', 'B'), ('F', 'C'), ('E', 'F'), ('B', 'F'), ('C', 'E')];
    assert forall c :: 0 <= c < 7 ==> (Palette[c][3], Palette[c][5]) == keys[c];
    assert keys[a] != keys[b];
  }

  /** With the edges the fetcher returns, every edge joins two nodes of the
      graph: the double-membership filter keeps the picture to the genes
      asked for. */
  lemma EdgesJoinNodes(genes: seq<string>, threshold: real, service: Request -> Response, showLabels: bool)
    requires FetchOutcome(genes, threshold, service).Returned?
    ensures forall e :: e in InteractionEdges(FetchOutcome(genes, threshold, service).edges, showLabels) ==>
      e.source in NodeIds(GeneNodes(genes)) && e.target in NodeIds(GeneNodes(genes))
  {
    var interactions := FetchOutcome(genes, threshold, service).edges;
    var edges := InteractionEdges(interactions, showLabels);
    assert NodeIds(GeneNodes(genes)) == genes;
    forall k | 0 <= k < |edges|
      ensures edges[k].source in genes && edges[k].target in genes
    {
      assert interactions[k] in interactions;
    }
  }

  /** The identifiers of a node list, in order. */
  function NodeIds(nodes: seq<Node>): (r: seq<string>)
    ensures |r| == |nodes| && forall i :: 0 <= i < |nodes| ==> r[i] == nodes[i].id
  {
    seq(|nodes|, i requires 0 <= i < |nodes| => nodes[i].id)
  }
}
