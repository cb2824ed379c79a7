/** The incidence relation of a hypergraph, held as the rows of its edge
    table: each row names an edge, one of its nodes and the cell weight. The
    edge and node lists, memberships, the incidence matrix and the code
    arrays are all derived from these rows. */
module Incidence {
  import opened Values
  import opened Seqs
  import opened CategoryCodes
  import opened Matrices

  /** One row of the edge table. */
  datatype Cell = Cell(edge: Value, node: Value, weight: int)

  /** Some row pairs edge e with node n. */
  predicate HasCell(cells: seq<Cell>, e: Value, n: Value)
  {
    exists i :: 0 <= i < |cells| && cells[i].edge == e && cells[i].node == n
  }

  /** Canonical rows: no missing ids, and each (edge, node) pair at most once
      (duplicates were collapsed when the table was built). */
  predicate CellsOk(cells: seq<Cell>)
  {
    (forall i :: 0 <= i < |cells| ==> cells[i].edge != Missing && cells[i].node != Missing)
    && forall i, j :: 0 <= i < j < |cells| ==> cells[i].edge != cells[j].edge || cells[i].node != cells[j].node
  }

  function EdgeColumn(cells: seq<Cell>): (col: seq<Value>)
    ensures |col| == |cells| && forall i :: 0 <= i < |cells| ==> col[i] == cells[i].edge
  {
    seq(|cells|, i requires 0 <= i < |cells| => cells[i].edge)
  }

  function NodeColumn(cells: seq<Cell>): (col: seq<Value>)
    ensures |col| == |cells| && forall i :: 0 <= i < |cells| ==> col[i] == cells[i].node
  {
    seq(|cells|, i requires 0 <= i < |cells| => cells[i].node)
  }

  /** The edge ids in the order of the edge column's categories. */
  function EdgeLabels(cells: seq<Cell>): (labels: seq<Value>)
    ensures NoDup(labels)
    ensures forall v :: v in labels <==> v in EdgeColumn(cells) && v != Missing
  {
    Categories(EdgeColumn(cells))
  }

  /** The node ids in the order of the node column's categories. */
  function NodeLabels(cells: seq<Cell>): (labels: seq<Value>)
    ensures NoDup(labels)
    ensures forall v :: v in labels <==> v in NodeColumn(cells) && v != Missing
  {
    Categories(NodeColumn(cells))
  }

  /** `edges[e]`: the nodes of edge e, in row order. */
  function Members(cells: seq<Cell>, e: Value): (r: seq<Value>)
    ensures forall n :: n in r <==> HasCell(cells, e, n)
    decreases |cells|
  {
    if cells == [] then []
    else
      var p := cells[..|cells| - 1];
      var last := cells[|cells| - 1];
      var q := Members(p, e);
      assert forall n :: HasCell(cells, e, n) <==> HasCell(p, e, n) || (last.edge == e && last.node == n) by {
        forall n ensures HasCell(cells, e, n) <==> HasCell(p, e, n) || (last.edge == e && last.node == n) {
          if HasCell(p, e, n) {
            var i :| 0 <= i < |p| && p[i].edge == e && p[i].node == n;
            assert cells[i] == p[i];
          }
          if HasCell(cells, e, n) {
            var i :| 0 <= i < |cells| && cells[i].edge == e && cells[i].node == n;
            if i < |p| {
              assert p[i] == cells[i];
            }
          }
        }
      }
      q + (if last.edge == e then [last.node] else [])
  }

  /** `memberships[n]`: the edges holding node n, in row order. */
  function Memberships(cells: seq<Cell>, n: Value): (r: seq<Value>)
    ensures forall e :: e in r <==> HasCell(cells, e, n)
    decreases |cells|
  {
    if cells == [] then []
    else
      var p := cells[..|cells| - 1];
      var last := cells[|cells| - 1];
      var q := Memberships(p, n);
      assert forall e :: HasCell(cells, e, n) <==> HasCell(p, e, n) || (last.edge == e && last.node == n) by {
        forall e ensures HasCell(cells, e, n) <==> HasCell(p, e, n) || (last.edge == e && last.node == n) {
          if HasCell(p, e, n) {
            var i :| 0 <= i < |p| && p[i].edge == e && p[i].node == n;
            assert cells[i] == p[i];
          }
          if HasCell(cells, e, n) {
            var i :| 0 <= i < |cells| && cells[i].edge == e && cells[i].node == n;
            if i < |p| {
              assert p[i] == cells[i];
            }
          }
        }
      }
      q + (if last.node == n then [last.edge] else [])
  }

  /** Every listed edge has a row, so its member list is not empty; every
      member of an edge is a listed node. */
  lemma LabelsAreIncident(cells: seq<Cell>, e: Value, n: Value)
    requires CellsOk(cells)
    ensures e in EdgeLabels(cells) <==> exists m :: HasCell(cells, e, m)
    ensures n in NodeLabels(cells) <==> exists f :: HasCell(cells, f, n)
    ensures HasCell(cells, e, n) ==> e in EdgeLabels(cells) && n in NodeLabels(cells)
  {
    if e in EdgeLabels(cells) {
      var i :| 0 <= i < |cells| && EdgeColumn(cells)[i] == e;
      assert HasCell(cells, e, cells[i].node);
    }
    if n in NodeLabels(cells) {
      var i :| 0 <= i < |cells| && NodeColumn(cells)[i] == n;
      assert HasCell(cells, cells[i].edge, n);
    }
    if exists m :: HasCell(cells, e, m) {
      var m :| HasCell(cells, e, m);
      var i :| 0 <= i < |cells| && cells[i].edge == e && cells[i].node == m;
      assert EdgeColumn(cells)[i] == e;
    }
    if exists f :: HasCell(cells, f, n) {
      var f :| HasCell(cells, f, n);
      var i :| 0 <= i < |cells| && cells[i].edge == f && cells[i].node == n;
      assert NodeColumn(cells)[i] == n;
    }
  }

  /** With canonical rows an edge lists each of its nodes once. */
  lemma {:induction false} MembersNoDup(cells: seq<Cell>, e: Value)
    requires CellsOk(cells)
    ensures NoDup(Members(cells, e))
    decreases |cells|
  {
    if cells != [] {
      var p := cells[..|cells| - 1];
      var last := cells[|cells| - 1];
      assert CellsOk(p);
      MembersNoDup(p, e);
      if last.edge == e {
        forall i | 0 <= i < |p| ensures !(p[i].edge == e && p[i].node == last.node) {
          assert cells[i] == p[i];
        }
        assert !HasCell(p, e, last.node);
        var q := Members(p, e);
        assert last.node !in q;
        assert Members(cells, e) == q + [last.node];
      }
    }
  }

  /** With canonical rows a node lists each of its edges once. */
  lemma {:induction false} MembershipsNoDup(cells: seq<Cell>, n: Value)
    requires CellsOk(cells)
    ensures NoDup(Memberships(cells, n))
    decreases |cells|
  {
    if cells != [] {
      var p := cells[..|cells| - 1];
      var last := cells[|cells| - 1];
      assert CellsOk(p);
      MembershipsNoDup(p, n);
      if last.node == n {
        forall i | 0 <= i < |p| ensures !(p[i].edge == last.edge && p[i].node == n) {
          assert cells[i] == p[i];
        }
        assert !HasCell(p, last.edge, n);
        var q := Memberships(p, n);
        assert last.edge !in q;
        assert Memberships(cells, n) == q + [last.edge];
      }
    }
  }

  // ---------------------------------------------------------------------------
  // Incidence matrices and the code arrays

  /** `edges.incidence_matrix()`: rows are nodes and columns edges, in label
      order; an entry is 1 when the node belongs to the edge. */
  function IncidenceOf(cells: seq<Cell>): (m: Matrix)
    ensures Shaped(m) && Binary(m)
    ensures m.height == |NodeLabels(cells)| && m.width == |EdgeLabels(cells)|
  {
    var nl := NodeLabels(cells);
    var el := EdgeLabels(cells);
    Matrix(|nl|, |el|,
           seq(|nl|, i requires 0 <= i < |nl| =>
             seq(|el|, j requires 0 <= j < |el| => if nl[i] in Members(cells, el[j]) then 1 else 0)))
  }

  /** The weight of the row pairing e with n, or 0 when there is none. */
  function WeightOf(cells: seq<Cell>, e: Value, n: Value): (w: int)
    ensures w != 0 ==> HasCell(cells, e, n)
    decreases |cells|
  {
    if cells == [] then 0
    else if cells[0].edge == e && cells[0].node == n then cells[0].weight
    else
      var w := WeightOf(cells[1..], e, n);
      assert w != 0 ==> HasCell(cells, e, n) by {
        if w != 0 {
          var i :| 0 <= i < |cells[1..]| && cells[1..][i].edge == e && cells[1..][i].node == n;
          assert cells[i + 1] == cells[1..][i];
        }
      }
      w
  }

  /** `edges.incidence_matrix(weights=True)`: the cell weights in place of the ones. */
  function WeightedIncidenceOf(cells: seq<Cell>): (m: Matrix)
    ensures Shaped(m)
    ensures m.height == |NodeLabels(cells)| && m.width == |EdgeLabels(cells)|
  {
    var nl := NodeLabels(cells);
    var el := EdgeLabels(cells);
    Matrix(|nl|, |el|,
           seq(|nl|, i requires 0 <= i < |nl| =>
             seq(|el|, j requires 0 <= j < |el| => WeightOf(cells, el[j], nl[i]))))
  }

  /** A weighted entry is nonzero only where the unweighted one is 1. */
  lemma WeightedWithinIncidence(cells: seq<Cell>, i: nat, j: nat)
    requires i < |NodeLabels(cells)| && j < |EdgeLabels(cells)|
    ensures WeightedIncidenceOf(cells).at[i][j] != 0 ==> IncidenceOf(cells).at[i][j] == 1
  {
  }

  /** The (edge codes, node codes, ones) triple of `update_state`. */
  datatype CodeTriple = CodeTriple(rows: seq<int>, cols: seq<int>, ones: seq<int>)

  function DataOf(cells: seq<Cell>): (d: CodeTriple)
    ensures |d.rows| == |cells| && |d.cols| == |cells| && |d.ones| == |cells|
    ensures forall k :: 0 <= k < |cells| ==> d.ones[k] == 1
  {
    CodeTriple(EncodeColumn(EdgeColumn(cells)), EncodeColumn(NodeColumn(cells)),
               seq(|cells|, k requires 0 <= k < |cells| => 1))
  }

  /** The codes of `update_state`'s data triple read back, through the labels,
      as row k's edge and node. */
  lemma DataOfDecodes(cells: seq<Cell>, k: nat)
    requires CellsOk(cells) && k < |cells|
    ensures 0 <= DataOf(cells).rows[k] < |EdgeLabels(cells)|
    ensures EdgeLabels(cells)[DataOf(cells).rows[k]] == cells[k].edge
    ensures 0 <= DataOf(cells).cols[k] < |NodeLabels(cells)|
    ensures NodeLabels(cells)[DataOf(cells).cols[k]] == cells[k].node
  {
    assert EdgeColumn(cells)[k] == cells[k].edge && NodeColumn(cells)[k] == cells[k].node;
  }

  // ---------------------------------------------------------------------------
  // Row and column sums of the incidence matrix count memberships

  /** The positions of xs holding a value of S. */
  function PositionsIn(xs: seq<Value>, S: set<Value>): set<nat>
  {
    set k | 0 <= k < |xs| && xs[k] in S
  }

  /** The values of xs that lie in S. */
  function ValuesIn(xs: seq<Value>, S: set<Value>): set<Value>
  {
    set x | x in xs && x in S
  }

  /** The number of positions of a duplicate-free list holding a value of S
      is the number of its values in S. */
  lemma {:induction false} IndexCount(xs: seq<Value>, S: set<Value>)
    requires NoDup(xs)
    ensures |PositionsIn(xs, S)| == |ValuesIn(xs, S)|
    decreases |xs|
  {
    if xs != [] {
      var p := xs[..|xs| - 1];
      var last := xs[|xs| - 1];
      assert NoDup(p);
      IndexCount(p, S);
      assert last !in p;
      PositionsStep(xs, S);
      ValuesStep(xs, S);
    }
  }

  lemma PositionsStep(xs: seq<Value>, S: set<Value>)
    requires xs != []
    ensures PositionsIn(xs, S) == PositionsIn(xs[..|xs| - 1], S) + (if xs[|xs| - 1] in S then {|xs| - 1} else {})
  {
    var p := xs[..|xs| - 1];
    forall k ensures k in PositionsIn(xs, S) <==> k in PositionsIn(p, S) || (k == |p| && xs[|p|] in S) {
      if 0 <= k < |p| {
        assert xs[k] == p[k];
      }
    }
  }

  lemma ValuesStep(xs: seq<Value>, S: set<Value>)
    requires xs != []
    ensures ValuesIn(xs, S) == ValuesIn(xs[..|xs| - 1], S) + (if xs[|xs| - 1] in S then {xs[|xs| - 1]} else {})
  {
    var p := xs[..|xs| - 1];
    assert xs == p + [xs[|xs| - 1]];
  }

  /** A duplicate-free list has as many elements as its set. */
  lemma {:induction false} NoDupCard(xs: seq<Value>)
    requires NoDup(xs)
    ensures |set x | x in xs| == |xs|
    decreases |xs|
  {
    if xs != [] {
      var p := xs[..|xs| - 1];
      var last := xs[|xs| - 1];
      assert NoDup(p);
      NoDupCard(p);
      assert last !in p;
      assert (set x | x in xs) == (set x | x in p) + {last};
    }
  }

  /** Column j of the incidence matrix sums to the size of edge j. */
  lemma ColSumIsSize(cells: seq<Cell>, j: nat)
    requires CellsOk(cells) && j < |EdgeLabels(cells)|
    ensures ColSum(IncidenceOf(cells), j) == |Members(cells, EdgeLabels(cells)[j])|
  {
    var e := EdgeLabels(cells)[j];
    var S := set x | x in Members(cells, e);
    BinarySumIsSupportSize(Column(IncidenceOf(cells), j));
    ColumnSupport(cells, j, S);
    IndexCount(NodeLabels(cells), S);
    MembersAreNodes(cells, e, S);
    MembersNoDup(cells, e);
    NoDupCard(Members(cells, e));
  }

  lemma ColumnSupport(cells: seq<Cell>, j: nat, S: set<Value>)
    requires CellsOk(cells) && j < |EdgeLabels(cells)|
    requires S == set x | x in Members(cells, EdgeLabels(cells)[j])
    ensures Support(Column(IncidenceOf(cells), j)) == PositionsIn(NodeLabels(cells), S)
  {
  }

  lemma MembersAreNodes(cells: seq<Cell>, e: Value, S: set<Value>)
    requires CellsOk(cells) && e in EdgeLabels(cells)
    requires S == set x | x in Members(cells, e)
    ensures ValuesIn(NodeLabels(cells), S) == S
  {
    forall x | x in S ensures x in NodeLabels(cells) {
      LabelsAreIncident(cells, e, x);
    }
  }

  /** Row i of the incidence matrix sums to the number of edges of node i. */
  lemma RowSumIsDegree(cells: seq<Cell>, i: nat)
    requires CellsOk(cells) && i < |NodeLabels(cells)|
    ensures RowSum(IncidenceOf(cells), i) == |Memberships(cells, NodeLabels(cells)[i])|
  {
    var n := NodeLabels(cells)[i];
    var S := set x | x in Memberships(cells, n);
    BinarySumIsSupportSize(IncidenceOf(cells).at[i]);
    RowSupport(cells, i, S);
    IndexCount(EdgeLabels(cells), S);
    MembershipsAreEdges(cells, n, S);
    MembershipsNoDup(cells, n);
    NoDupCard(Memberships(cells, n));
  }

  lemma RowSupport(cells: seq<Cell>, i: nat, S: set<Value>)
    requires CellsOk(cells) && i < |NodeLabels(cells)|
    requires S == set x | x in Memberships(cells, NodeLabels(cells)[i])
    ensures Support(IncidenceOf(cells).at[i]) == PositionsIn(EdgeLabels(cells), S)
  {
  }

  lemma MembershipsAreEdges(cells: seq<Cell>, n: Value, S: set<Value>)
    requires CellsOk(cells) && n in NodeLabels(cells)
    requires S == set x | x in Memberships(cells, n)
    ensures ValuesIn(EdgeLabels(cells), S) == S
  {
    forall x | x in S ensures x in EdgeLabels(cells) {
      LabelsAreIncident(cells, x, n);
    }
  }
}
