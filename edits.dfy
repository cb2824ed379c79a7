/** Edits of the edge table behind the hypergraph's removal and addition
    operations: dropping a node's rows, dropping an edge's rows, keeping
    only some edges, and appending the rows of a new edge. */
module IncidenceEdits {
  import opened Values
  import opened Seqs
  import opened Incidence

  /** The rows that do not mention node n. */
  function DropNode(cells: seq<Cell>, n: Value): (r: seq<Cell>)
    ensures forall c :: c in r <==> c in cells && c.node != n
    decreases |cells|
  {
    if cells == [] then []
    else
      var p := DropNode(cells[..|cells| - 1], n);
      var last := cells[|cells| - 1];
      assert forall c :: c in cells <==> c in cells[..|cells| - 1] || c == last;
      if last.node == n then p else p + [last]
  }

  /** The rows that do not belong to edge e. */
  function DropEdge(cells: seq<Cell>, e: Value): (r: seq<Cell>)
    ensures forall c :: c in r <==> c in cells && c.edge != e
    decreases |cells|
  {
    if cells == [] then []
    else
      var p := DropEdge(cells[..|cells| - 1], e);
      var last := cells[|cells| - 1];
      assert forall c :: c in cells <==> c in cells[..|cells| - 1] || c == last;
      if last.edge == e then p else p + [last]
  }

  /** The rows of edge e whose node is in R removed, all else kept. */
  function Keep(cells: seq<Cell>, e: Value, R: set<Value>): (r: seq<Cell>)
    ensures forall c :: c in r <==> c in cells && !(c.edge == e && c.node in R)
    decreases |cells|
  {
    if cells == [] then []
    else
      var p := Keep(cells[..|cells| - 1], e, R);
      var last := cells[|cells| - 1];
      assert forall c :: c in cells <==> c in cells[..|cells| - 1] || c == last;
      if last.edge == e && last.node in R then p else p + [last]
  }

  /** `restrict_to_edges`: the rows of the edges in S. */
  function RestrictToEdges(cells: seq<Cell>, S: set<Value>): (r: seq<Cell>)
    ensures forall c :: c in r <==> c in cells && c.edge in S
    decreases |cells|
  {
    if cells == [] then []
    else
      var p := RestrictToEdges(cells[..|cells| - 1], S);
      var last := cells[|cells| - 1];
      assert forall c :: c in cells <==> c in cells[..|cells| - 1] || c == last;
      if last.edge in S then p + [last] else p
  }

  /** A filter of the rows is still canonical. */
  lemma {:induction false} SubRowsOk(cells: seq<Cell>, r: seq<Cell>)
    requires CellsOk(cells)
    requires forall c :: c in r ==> c in cells
    requires forall i, j :: 0 <= i < j < |r| ==> r[i] != r[j]
    ensures CellsOk(r)
  {
    forall i, j | 0 <= i < j < |r| ensures r[i].edge != r[j].edge || r[i].node != r[j].node {
      assert r[i] in cells && r[j] in cells;
      var a :| 0 <= a < |cells| && cells[a] == r[i];
      var b :| 0 <= b < |cells| && cells[b] == r[j];
    }
    forall i | 0 <= i < |r| ensures r[i].edge != Missing && r[i].node != Missing {
      assert r[i] in cells;
    }
  }

  /** Canonical rows are pairwise distinct. */
  lemma RowsDistinct(cells: seq<Cell>)
    requires CellsOk(cells)
    ensures forall i, j :: 0 <= i < j < |cells| ==> cells[i] != cells[j]
  {
  }

  /** A filtered prefix-recursion of distinct rows has distinct rows. */
  lemma {:induction false} DropNodeDistinct(cells: seq<Cell>, n: Value)
    requires forall i, j :: 0 <= i < j < |cells| ==> cells[i] != cells[j]
    ensures forall i, j :: 0 <= i < j < |DropNode(cells, n)| ==> DropNode(cells, n)[i] != DropNode(cells, n)[j]
    decreases |cells|
  {
    if cells != [] {
      var q := cells[..|cells| - 1];
      DropNodeDistinct(q, n);
      var last := cells[|cells| - 1];
      assert last !in q;
    }
  }

  lemma {:induction false} DropEdgeDistinct(cells: seq<Cell>, e: Value)
    requires forall i, j :: 0 <= i < j < |cells| ==> cells[i] != cells[j]
    ensures forall i, j :: 0 <= i < j < |DropEdge(cells, e)| ==> DropEdge(cells, e)[i] != DropEdge(cells, e)[j]
    decreases |cells|
  {
    if cells != [] {
      var q := cells[..|cells| - 1];
      DropEdgeDistinct(q, e);
      var last := cells[|cells| - 1];
      assert last !in q;
    }
  }

  lemma {:induction false} KeepDistinct(cells: seq<Cell>, e: Value, R: set<Value>)
    requires forall i, j :: 0 <= i < j < |cells| ==> cells[i] != cells[j]
    ensures forall i, j :: 0 <= i < j < |Keep(cells, e, R)| ==> Keep(cells, e, R)[i] != Keep(cells, e, R)[j]
    decreases |cells|
  {
    if cells != [] {
      var q := cells[..|cells| - 1];
      KeepDistinct(q, e, R);
      var last := cells[|cells| - 1];
      assert last !in q;
    }
  }

  lemma {:induction false} RestrictDistinct(cells: seq<Cell>, S: set<Value>)
    requires forall i, j :: 0 <= i < j < |cells| ==> cells[i] != cells[j]
    ensures forall i, j :: 0 <= i < j < |RestrictToEdges(cells, S)| ==> RestrictToEdges(cells, S)[i] != RestrictToEdges(cells, S)[j]
    decreases |cells|
  {
    if cells != [] {
      var q := cells[..|cells| - 1];
      RestrictDistinct(q, S);
      var last := cells[|cells| - 1];
      assert last !in q;
    }
  }

  lemma DropNodeOk(cells: seq<Cell>, n: Value)
    requires CellsOk(cells)
    ensures CellsOk(DropNode(cells, n))
  {
    RowsDistinct(cells);
    DropNodeDistinct(cells, n);
    SubRowsOk(cells, DropNode(cells, n));
  }

  lemma DropEdgeOk(cells: seq<Cell>, e: Value)
    requires CellsOk(cells)
    ensures CellsOk(DropEdge(cells, e))
  {
    RowsDistinct(cells);
    DropEdgeDistinct(cells, e);
    SubRowsOk(cells, DropEdge(cells, e));
  }

  lemma KeepOk(cells: seq<Cell>, e: Value, R: set<Value>)
    requires CellsOk(cells)
    ensures CellsOk(Keep(cells, e, R))
  {
    RowsDistinct(cells);
    KeepDistinct(cells, e, R);
    SubRowsOk(cells, Keep(cells, e, R));
  }

  lemma RestrictOk(cells: seq<Cell>, S: set<Value>)
    requires CellsOk(cells)
    ensures CellsOk(RestrictToEdges(cells, S))
  {
    RowsDistinct(cells);
    RestrictDistinct(cells, S);
    SubRowsOk(cells, RestrictToEdges(cells, S));
  }

  /** A row-level fact lifts to HasCell. */
  lemma HasCellIff(cells: seq<Cell>, e: Value, n: Value)
    ensures HasCell(cells, e, n) <==> exists c :: c in cells && c.edge == e && c.node == n
  {
    if HasCell(cells, e, n) {
      var i :| 0 <= i < |cells| && cells[i].edge == e && cells[i].node == n;
      assert cells[i] in cells;
    }
  }

  /** After dropping node n, it belongs to no edge and the other incidences stay. */
  lemma DropNodeIncidence(cells: seq<Cell>, n: Value, e: Value, x: Value)
    ensures HasCell(DropNode(cells, n), e, x) <==> HasCell(cells, e, x) && x != n
  {
    HasCellIff(cells, e, x);
    HasCellIff(DropNode(cells, n), e, x);
  }

  /** After dropping edge e, it holds no node and the other incidences stay. */
  lemma DropEdgeIncidence(cells: seq<Cell>, e: Value, f: Value, x: Value)
    ensures HasCell(DropEdge(cells, e), f, x) <==> HasCell(cells, f, x) && f != e
  {
    HasCellIff(cells, f, x);
    HasCellIff(DropEdge(cells, e), f, x);
  }

  lemma KeepIncidence(cells: seq<Cell>, e: Value, R: set<Value>, f: Value, x: Value)
    ensures HasCell(Keep(cells, e, R), f, x) <==> HasCell(cells, f, x) && !(f == e && x in R)
  {
    HasCellIff(cells, f, x);
    HasCellIff(Keep(cells, e, R), f, x);
  }

  lemma RestrictIncidence(cells: seq<Cell>, S: set<Value>, f: Value, x: Value)
    ensures HasCell(RestrictToEdges(cells, S), f, x) <==> HasCell(cells, f, x) && f in S
  {
    HasCellIff(cells, f, x);
    HasCellIff(RestrictToEdges(cells, S), f, x);
  }

  // ---------------------------------------------------------------------------
  // remove_edge: the nodes whose only edge is the removed one

  /** The nodes of edge e that belong to no other edge. */
  function SoleNodes(cells: seq<Cell>, e: Value): (r: set<Value>)
    ensures forall n :: n in r <==> n in Members(cells, e) && |Memberships(cells, n)| == 1
  {
    set n | n in Members(cells, e) && |Memberships(cells, n)| == 1
  }

  /** A node of e with a single membership has every row in edge e. */
  lemma SoleMembership(cells: seq<Cell>, e: Value, n: Value)
    requires n in Members(cells, e) && |Memberships(cells, n)| == 1
    ensures forall c :: c in cells && c.node == n ==> c.edge == e
  {
    var ms := Memberships(cells, n);
    assert e in ms;
    forall c | c in cells && c.node == n ensures c.edge == e {
      var i :| 0 <= i < |cells| && cells[i] == c;
      assert HasCell(cells, c.edge, n);
      assert c.edge in ms;
    }
  }

  /** Removing rows of edge e for nodes in R leaves the memberships of the
      other nodes as they were. */
  lemma {:induction false} KeepMemberships(cells: seq<Cell>, e: Value, R: set<Value>, n: Value)
    requires n !in R
    ensures Memberships(Keep(cells, e, R), n) == Memberships(cells, n)
    decreases |cells|
  {
    if cells != [] {
      KeepMemberships(cells[..|cells| - 1], e, R, n);
    }
  }

  /** Dropping a node all of whose rows are in edge e is removing its row of e. */
  lemma {:induction false} DropSole(cells: seq<Cell>, e: Value, R: set<Value>, n: Value)
    requires forall c :: c in cells && c.node == n ==> c.edge == e
    ensures DropNode(Keep(cells, e, R), n) == Keep(cells, e, R + {n})
    decreases |cells|
  {
    if cells != [] {
      var p := cells[..|cells| - 1];
      assert forall c :: c in p ==> c in cells;
      DropSole(p, e, R, n);
    }
  }

  /** Removing the whole edge makes the earlier partial removals irrelevant. */
  lemma {:induction false} DropEdgeAfterKeep(cells: seq<Cell>, e: Value, R: set<Value>)
    ensures DropEdge(Keep(cells, e, R), e) == DropEdge(cells, e)
    decreases |cells|
  {
    if cells != [] {
      DropEdgeAfterKeep(cells[..|cells| - 1], e, R);
    }
  }

  lemma KeepNothing(cells: seq<Cell>, e: Value)
    ensures Keep(cells, e, {}) == cells
    decreases |cells|
  {
    if cells != [] {
      KeepNothing(cells[..|cells| - 1], e);
      assert cells == cells[..|cells| - 1] + [cells[|cells| - 1]];
    }
  }

  /** `remove_edge`: removing edge e drops from the node list exactly the
      nodes whose only edge was e. */
  lemma RemoveEdgeNodes(cells: seq<Cell>, e: Value, x: Value)
    requires CellsOk(cells)
    ensures x in NodeLabels(DropEdge(cells, e)) <==> x in NodeLabels(cells) && x !in SoleNodes(cells, e)
  {
    var d := DropEdge(cells, e);
    DropEdgeOk(cells, e);
    if x in NodeLabels(d) {
      LabelsAreIncident(d, x, x);
      var f :| HasCell(d, f, x);
      DropEdgeIncidence(cells, e, f, x);
      LabelsAreIncident(cells, f, x);
      NotSole(cells, e, x, f);
    }
    if x in NodeLabels(cells) && x !in SoleNodes(cells, e) {
      LabelsAreIncident(cells, x, x);
      var f :| HasCell(cells, f, x);
      var g := StayingEdge(cells, e, x, f);
      DropEdgeIncidence(cells, e, g, x);
      LabelsAreIncident(d, g, x);
    }
  }

  /** A node with a row outside e is not a sole node of e. */
  lemma NotSole(cells: seq<Cell>, e: Value, x: Value, f: Value)
    requires HasCell(cells, f, x) && f != e
    ensures x !in SoleNodes(cells, e)
  {
    var ms := Memberships(cells, x);
    assert f in ms;
    if x in Members(cells, e) {
      assert e in ms;
    }
  }

  /** A node of some edge that is not a sole node of e has an edge other than e. */
  lemma StayingEdge(cells: seq<Cell>, e: Value, x: Value, f: Value) returns (g: Value)
    requires CellsOk(cells) && HasCell(cells, f, x) && x !in SoleNodes(cells, e)
    ensures HasCell(cells, g, x) && g != e
  {
    var ms := Memberships(cells, x);
    MembershipsNoDup(cells, x);
    if x !in Members(cells, e) {
      g := f;
    } else {
      assert f in ms;
      assert |ms| != 1;
      assert ms[0] != ms[1];
      g := if ms[0] != e then ms[0] else ms[1];
      assert g in ms;
    }
  }

  /** `remove_edge`: the edge list loses exactly e. */
  lemma RemoveEdgeEdges(cells: seq<Cell>, e: Value, x: Value)
    requires CellsOk(cells)
    ensures x in EdgeLabels(DropEdge(cells, e)) <==> x in EdgeLabels(cells) && x != e
  {
    var d := DropEdge(cells, e);
    DropEdgeOk(cells, e);
    LabelsAreIncident(d, x, x);
    LabelsAreIncident(cells, x, x);
    if x in EdgeLabels(d) {
      var m :| HasCell(d, x, m);
      DropEdgeIncidence(cells, e, x, m);
    }
    if x in EdgeLabels(cells) && x != e {
      var m :| HasCell(cells, x, m);
      DropEdgeIncidence(cells, e, x, m);
    }
  }

  /** `remove_node`: the node leaves every edge and the node list; an edge
      keeps its other nodes. */
  lemma RemoveNodeLabels(cells: seq<Cell>, n: Value, e: Value, x: Value)
    requires CellsOk(cells)
    ensures x in Members(DropNode(cells, n), e) <==> x in Members(cells, e) && x != n
    ensures x in NodeLabels(DropNode(cells, n)) <==> x in NodeLabels(cells) && x != n
  {
    DropNodeIncidence(cells, n, e, x);
    DropNodeOk(cells, n);
    var d := DropNode(cells, n);
    LabelsAreIncident(d, x, x);
    LabelsAreIncident(cells, x, x);
    if x in NodeLabels(d) {
      var f :| HasCell(d, f, x);
      DropNodeIncidence(cells, n, f, x);
    }
    if x in NodeLabels(cells) && x != n {
      var f :| HasCell(cells, f, x);
      DropNodeIncidence(cells, n, f, x);
    }
  }

  // ---------------------------------------------------------------------------
  // add_edge

  /** The rows after adding edge `key` with `nodes`: one row of weight 1 per
      node not yet paired with the key. */
  function AddCells(cells: seq<Cell>, key: Value, nodes: seq<Value>): (r: seq<Cell>)
    ensures |r| >= |cells| && r[..|cells|] == cells
    decreases |nodes|
  {
    if nodes == [] then cells
    else
      var p := AddCells(cells, key, nodes[..|nodes| - 1]);
      var n := nodes[|nodes| - 1];
      if HasCell(p, key, n) then p else p + [Cell(key, n, 1)]
  }

  /** Adding keeps the rows canonical, makes every given node a member of the
      key, and adds no other incidence. */
  lemma {:induction false} AddCellsIncidence(cells: seq<Cell>, key: Value, nodes: seq<Value>)
    requires CellsOk(cells) && key != Missing && Missing !in nodes
    ensures CellsOk(AddCells(cells, key, nodes))
    ensures forall f, x :: HasCell(AddCells(cells, key, nodes), f, x) <==> HasCell(cells, f, x) || (f == key && x in nodes)
    decreases |nodes|
  {
    if nodes != [] {
      var q := nodes[..|nodes| - 1];
      var n := nodes[|nodes| - 1];
      AddCellsIncidence(cells, key, q);
      var p := AddCells(cells, key, q);
      var r := AddCells(cells, key, nodes);
      assert forall x :: x in nodes <==> x in q || x == n;
      if !HasCell(p, key, n) {
        assert r == p + [Cell(key, n, 1)];
        forall i | 0 <= i < |p| ensures p[i].edge != key || p[i].node != n {
        }
        forall f, x ensures HasCell(r, f, x) <==> HasCell(p, f, x) || (f == key && x == n) {
          if HasCell(p, f, x) {
            var i :| 0 <= i < |p| && p[i].edge == f && p[i].node == x;
            assert r[i] == p[i];
          }
          if HasCell(r, f, x) {
            var i :| 0 <= i < |r| && r[i].edge == f && r[i].node == x;
            if i < |p| {
              assert p[i] == r[i];
            }
          }
          if f == key && x == n {
            assert r[|p|] == Cell(key, n, 1);
          }
        }
      }
    }
  }

  // ---------------------------------------------------------------------------
  // Removing an absent id, and removing several ids

  /** Dropping a node no row mentions changes nothing. */
  lemma {:induction false} DropNodeUntouched(cells: seq<Cell>, n: Value)
    requires forall i :: 0 <= i < |cells| ==> cells[i].node != n
    ensures DropNode(cells, n) == cells
    decreases |cells|
  {
    if cells != [] {
      DropNodeUntouched(cells[..|cells| - 1], n);
      assert cells[..|cells| - 1] + [cells[|cells| - 1]] == cells;
    }
  }

  /** Dropping an edge no row mentions changes nothing. */
  lemma {:induction false} DropEdgeUntouched(cells: seq<Cell>, e: Value)
    requires forall i :: 0 <= i < |cells| ==> cells[i].edge != e
    ensures DropEdge(cells, e) == cells
    decreases |cells|
  {
    if cells != [] {
      DropEdgeUntouched(cells[..|cells| - 1], e);
      assert cells[..|cells| - 1] + [cells[|cells| - 1]] == cells;
    }
  }

  /** A node that is not a label has no rows, so dropping it is the identity. */
  lemma DropAbsentNode(cells: seq<Cell>, n: Value)
    requires CellsOk(cells) && n !in NodeLabels(cells)
    ensures DropNode(cells, n) == cells
  {
    forall i | 0 <= i < |cells| ensures cells[i].node != n {
      assert NodeColumn(cells)[i] == cells[i].node;
    }
    DropNodeUntouched(cells, n);
  }

  /** An edge that is not a label has no rows, so dropping it is the identity. */
  lemma DropAbsentEdge(cells: seq<Cell>, e: Value)
    requires CellsOk(cells) && e !in EdgeLabels(cells)
    ensures DropEdge(cells, e) == cells
  {
    forall i | 0 <= i < |cells| ensures cells[i].edge != e {
      assert EdgeColumn(cells)[i] == cells[i].edge;
    }
    DropEdgeUntouched(cells, e);
  }

  /** `remove_nodes`: the nodes dropped one after another. */
  function DropNodes(cells: seq<Cell>, ns: seq<Value>): (r: seq<Cell>)
    ensures forall c :: c in r <==> c in cells && c.node !in ns
    decreases |ns|
  {
    if ns == [] then cells
    else
      assert forall x :: x in ns <==> x in ns[..|ns| - 1] || x == ns[|ns| - 1];
      DropNode(DropNodes(cells, ns[..|ns| - 1]), ns[|ns| - 1])
  }

  /** `remove_edges`: the edges dropped one after another. */
  function DropEdges(cells: seq<Cell>, es: seq<Value>): (r: seq<Cell>)
    ensures forall c :: c in r <==> c in cells && c.edge !in es
    decreases |es|
  {
    if es == [] then cells
    else
      assert forall x :: x in es <==> x in es[..|es| - 1] || x == es[|es| - 1];
      DropEdge(DropEdges(cells, es[..|es| - 1]), es[|es| - 1])
  }

  /** Each fold keeps the rows canonical. */
  lemma {:induction false} DropNodesOk(cells: seq<Cell>, ns: seq<Value>)
    requires CellsOk(cells)
    ensures CellsOk(DropNodes(cells, ns))
    decreases |ns|
  {
    if ns != [] {
      DropNodesOk(cells, ns[..|ns| - 1]);
      DropNodeOk(DropNodes(cells, ns[..|ns| - 1]), ns[|ns| - 1]);
    }
  }

  lemma {:induction false} DropEdgesOk(cells: seq<Cell>, es: seq<Value>)
    requires CellsOk(cells)
    ensures CellsOk(DropEdges(cells, es))
    decreases |es|
  {
    if es != [] {
      DropEdgesOk(cells, es[..|es| - 1]);
      DropEdgeOk(DropEdges(cells, es[..|es| - 1]), es[|es| - 1]);
    }
  }

  /** `add_edges_from`: the edges (key and node list) added one after another. */
  function AddAllCells(cells: seq<Cell>, edges: seq<(Value, seq<Value>)>): (r: seq<Cell>)
    ensures |r| >= |cells| && r[..|cells|] == cells
    decreases |edges|
  {
    if edges == [] then cells
    else
      var p := AddAllCells(cells, edges[..|edges| - 1]);
      var last := edges[|edges| - 1];
      var r := AddCells(p, last.0, last.1);
      assert r[..|cells|] == r[..|p|][..|cells|];
      r
  }

  /** Some edge in the list pairs key f with node x. */
  predicate Adds(edges: seq<(Value, seq<Value>)>, f: Value, x: Value)
  {
    exists k :: 0 <= k < |edges| && edges[k].0 == f && x in edges[k].1
  }

  /** Adding several edges keeps the rows canonical and adds exactly the
      given incidences. */
  lemma {:induction false} AddAllCellsIncidence(cells: seq<Cell>, edges: seq<(Value, seq<Value>)>)
    requires CellsOk(cells)
    requires forall k :: 0 <= k < |edges| ==> edges[k].0 != Missing && Missing !in edges[k].1
    ensures CellsOk(AddAllCells(cells, edges))
    ensures forall f, x :: HasCell(AddAllCells(cells, edges), f, x) <==>
              HasCell(cells, f, x) || Adds(edges, f, x)
    decreases |edges|
  {
    if edges != [] {
      var q := edges[..|edges| - 1];
      var last := edges[|edges| - 1];
      assert forall k :: 0 <= k < |q| ==> q[k] == edges[k];
      AddAllCellsIncidence(cells, q);
      var p := AddAllCells(cells, q);
      AddCellsIncidence(p, last.0, last.1);
      AddsStep(edges);
    }
  }

  /** The incidences a list adds: those of all but its last edge, and the last's. */
  lemma AddsStep(edges: seq<(Value, seq<Value>)>)
    requires edges != []
    ensures forall f, x :: Adds(edges, f, x) <==>
              Adds(edges[..|edges| - 1], f, x) || (f == edges[|edges| - 1].0 && x in edges[|edges| - 1].1)
  {
    var q := edges[..|edges| - 1];
    var last := edges[|edges| - 1];
    forall f, x ensures Adds(edges, f, x) <==> Adds(q, f, x) || (f == last.0 && x in last.1) {
      if exists k :: 0 <= k < |edges| && edges[k].0 == f && x in edges[k].1 {
        var k :| 0 <= k < |edges| && edges[k].0 == f && x in edges[k].1;
        if k < |q| {
          assert q[k] == edges[k];
        }
      }
      if exists k :: 0 <= k < |q| && q[k].0 == f && x in q[k].1 {
        var k :| 0 <= k < |q| && q[k].0 == f && x in q[k].1;
        assert edges[k] == q[k];
      }
    }
  }
}
