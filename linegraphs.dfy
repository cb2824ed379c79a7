/** The s-line-graphs of a hypergraph: the graph on its nodes (or edges)
    given by the s-adjacency matrix of the incidence matrix, with the matrix
    rows relabelled by the node (or edge) ids. Two nodes are s-adjacent when
    they share at least s edges; two edges when they share at least s nodes. */
module LineGraphs {
  import opened Values
  import opened Seqs
  import opened Matrices
  import opened Incidence

  /** A graph built from an adjacency matrix, vertex k named labels[k]. */
  datatype Graph = Graph(labels: seq<Value>, adj: Matrix)

  /** The node line graph (`get_linegraph(s, edges=False)`) of fresh rows. */
  function NodeLineGraph(cells: seq<Cell>, s: int): (g: Graph)
    requires s != 0
    ensures g.labels == NodeLabels(cells)
    ensures Shaped(g.adj) && g.adj.height == |g.labels| && g.adj.width == |g.labels|
  {
    Graph(NodeLabels(cells), IncidenceToAdjacency(IncidenceOf(cells), s))
  }

  /** The edge line graph (`get_linegraph(s, edges=True)`) of fresh rows. */
  function EdgeLineGraph(cells: seq<Cell>, s: int): (g: Graph)
    requires s != 0
    ensures g.labels == EdgeLabels(cells)
    ensures Shaped(g.adj) && g.adj.height == |g.labels| && g.adj.width == |g.labels|
  {
    Graph(EdgeLabels(cells), EdgeAdjacency(IncidenceOf(cells), s))
  }

  /** `g.neighbors(v)` as a set; None when v is not a vertex of g (networkx
      raises). */
  function GraphNeighbors(g: Graph, v: Value): (r: Option<set<Value>>)
    ensures r.Some? <==> v in g.labels && IndexOf(g.labels, v) < |g.adj.at|
    ensures r.Some? ==> forall x :: x in r.value ==> x in g.labels
  {
    if v in g.labels && IndexOf(g.labels, v) < |g.adj.at| then
      var i := IndexOf(g.labels, v);
      Some(set k | 0 <= k < |g.labels| && k < |g.adj.at[i]| && g.adj.at[i][k] != 0 :: g.labels[k])
    else None
  }

  /** The edges that nodes u and v share. */
  function SharedEdges(cells: seq<Cell>, u: Value, v: Value): set<Value>
  {
    set e | e in Memberships(cells, u) && e in Memberships(cells, v)
  }

  /** The nodes that edges e and f share. */
  function SharedNodes(cells: seq<Cell>, e: Value, f: Value): set<Value>
  {
    set n | n in Members(cells, e) && n in Members(cells, f)
  }

  /** The columns two incidence rows share are the edges their nodes share. */
  lemma SharedColumnsCount(cells: seq<Cell>, i: nat, k: nat)
    requires CellsOk(cells) && i < |NodeLabels(cells)| && k < |NodeLabels(cells)|
    ensures |SharedColumns(IncidenceOf(cells), i, k)| == |SharedEdges(cells, NodeLabels(cells)[i], NodeLabels(cells)[k])|
  {
    var el := EdgeLabels(cells);
    var nl := NodeLabels(cells);
    var S := SharedEdges(cells, nl[i], nl[k]);
    SharedColumnsAre(cells, i, k);
    IndexCount(el, S);
    forall x | x in S ensures x in el {
      LabelsAreIncident(cells, x, nl[i]);
    }
    assert ValuesIn(el, S) == S;
  }

  /** The columns two incidence rows share are the positions of the edges
      their nodes share. */
  lemma SharedColumnsAre(cells: seq<Cell>, i: nat, k: nat)
    requires CellsOk(cells) && i < |NodeLabels(cells)| && k < |NodeLabels(cells)|
    ensures SharedColumns(IncidenceOf(cells), i, k)
            == PositionsIn(EdgeLabels(cells), SharedEdges(cells, NodeLabels(cells)[i], NodeLabels(cells)[k]))
  {
    var m := IncidenceOf(cells);
    var el := EdgeLabels(cells);
    var nl := NodeLabels(cells);
    forall j | 0 <= j < |el|
      ensures (m.at[i][j] != 0 && m.at[k][j] != 0) <==> el[j] in SharedEdges(cells, nl[i], nl[k])
    {
      assert m.at[i][j] != 0 <==> nl[i] in Members(cells, el[j]);
      assert m.at[k][j] != 0 <==> nl[k] in Members(cells, el[j]);
    }
  }

  /** The rows two incidence columns share are the positions of the nodes
      their edges share. */
  lemma SharedRowsAre(cells: seq<Cell>, j: nat, l: nat)
    requires CellsOk(cells) && j < |EdgeLabels(cells)| && l < |EdgeLabels(cells)|
    ensures SharedRows(IncidenceOf(cells), j, l)
            == PositionsIn(NodeLabels(cells), SharedNodes(cells, EdgeLabels(cells)[j], EdgeLabels(cells)[l]))
  {
    var m := IncidenceOf(cells);
    var el := EdgeLabels(cells);
    var nl := NodeLabels(cells);
    forall i | 0 <= i < |nl|
      ensures (m.at[i][j] != 0 && m.at[i][l] != 0) <==> nl[i] in SharedNodes(cells, el[j], el[l])
    {
      assert m.at[i][j] != 0 <==> nl[i] in Members(cells, el[j]);
      assert m.at[i][l] != 0 <==> nl[i] in Members(cells, el[l]);
    }
  }

  /** The rows two incidence columns share are the nodes their edges share. */
  lemma SharedRowsCount(cells: seq<Cell>, j: nat, l: nat)
    requires CellsOk(cells) && j < |EdgeLabels(cells)| && l < |EdgeLabels(cells)|
    ensures |SharedRows(IncidenceOf(cells), j, l)| == |SharedNodes(cells, EdgeLabels(cells)[j], EdgeLabels(cells)[l])|
  {
    var el := EdgeLabels(cells);
    var nl := NodeLabels(cells);
    var S := SharedNodes(cells, el[j], el[l]);
    SharedRowsAre(cells, j, l);
    IndexCount(nl, S);
    forall x | x in S ensures x in nl {
      LabelsAreIncident(cells, el[j], x);
    }
    assert ValuesIn(nl, S) == S;
  }

  /** `adjacency_matrix(s)` for s >= 1: nodes i and k are adjacent exactly
      when they are different nodes sharing at least s edges. */
  lemma NodeAdjacencyMeaning(cells: seq<Cell>, s: int, i: nat, k: nat)
    requires CellsOk(cells) && s >= 1 && i < |NodeLabels(cells)| && k < |NodeLabels(cells)|
    ensures IncidenceToAdjacency(IncidenceOf(cells), s).at[i][k] == 1 <==>
              i != k && |SharedEdges(cells, NodeLabels(cells)[i], NodeLabels(cells)[k])| >= s
  {
    AdjacencyEntry(IncidenceOf(cells), s, i, k);
    SharedColumnsCount(cells, i, k);
  }

  /** `edge_adjacency_matrix(s)` for s >= 1: edges j and l are adjacent
      exactly when they are different edges sharing at least s nodes. */
  lemma EdgeAdjacencyMeaning(cells: seq<Cell>, s: int, j: nat, l: nat)
    requires CellsOk(cells) && s >= 1 && j < |EdgeLabels(cells)| && l < |EdgeLabels(cells)|
    ensures EdgeAdjacency(IncidenceOf(cells), s).at[j][l] == 1 <==>
              j != l && |SharedNodes(cells, EdgeLabels(cells)[j], EdgeLabels(cells)[l])| >= s
  {
    EdgeAdjacencyEntry(IncidenceOf(cells), s, j, l);
    SharedRowsCount(cells, j, l);
  }

  /** `neighbors(v, s)` on a fresh node line graph, s >= 1: the other nodes
      sharing at least s edges with v. */
  lemma NodeNeighborsMeaning(cells: seq<Cell>, s: int, v: Value)
    requires CellsOk(cells) && s >= 1 && v in NodeLabels(cells)
    ensures GraphNeighbors(NodeLineGraph(cells, s), v).Some?
    ensures forall x :: x in GraphNeighbors(NodeLineGraph(cells, s), v).value <==>
              x in NodeLabels(cells) && x != v && |SharedEdges(cells, v, x)| >= s
  {
    var g := NodeLineGraph(cells, s);
    var nl := g.labels;
    var i := IndexOf(nl, v);
    var r := GraphNeighbors(g, v).value;
    forall x ensures x in r <==> x in nl && x != v && |SharedEdges(cells, v, x)| >= s {
      if x in r {
        var k :| 0 <= k < |nl| && k < |g.adj.at[i]| && g.adj.at[i][k] != 0 && nl[k] == x;
        NodeAdjacencyMeaning(cells, s, i, k);
      }
      if x in nl && x != v && |SharedEdges(cells, v, x)| >= s {
        var k := IndexOf(nl, x);
        NodeAdjacencyMeaning(cells, s, i, k);
        assert g.adj.at[i][k] == 1;
      }
    }
  }

  /** `edge_neighbors(e, s)` on a fresh edge line graph, s >= 1: the other
      edges sharing at least s nodes with e. */
  lemma EdgeNeighborsMeaning(cells: seq<Cell>, s: int, e: Value)
    requires CellsOk(cells) && s >= 1 && e in EdgeLabels(cells)
    ensures GraphNeighbors(EdgeLineGraph(cells, s), e).Some?
    ensures forall x :: x in GraphNeighbors(EdgeLineGraph(cells, s), e).value <==>
              x in EdgeLabels(cells) && x != e && |SharedNodes(cells, e, x)| >= s
  {
    var g := EdgeLineGraph(cells, s);
    var el := g.labels;
    var j := IndexOf(el, e);
    var r := GraphNeighbors(g, e).value;
    forall x ensures x in r <==> x in el && x != e && |SharedNodes(cells, e, x)| >= s {
      if x in r {
        var l :| 0 <= l < |el| && l < |g.adj.at[j]| && g.adj.at[j][l] != 0 && el[l] == x;
        EdgeAdjacencyMeaning(cells, s, j, l);
      }
      if x in el && x != e && |SharedNodes(cells, e, x)| >= s {
        var l := IndexOf(el, x);
        EdgeAdjacencyMeaning(cells, s, j, l);
        assert g.adj.at[j][l] == 1;
      }
    }
  }
}
