/** Dense integer matrices standing in for the sparse incidence and adjacency
    matrices of a hypergraph, and the s-adjacency construction on them: the
    product of an incidence matrix with its transpose, its diagonal cleared,
    thresholded at s. */
module Matrices {
  import opened Values
  import opened Seqs

  /** A `height` x `width` matrix stored row by row. */
  datatype Matrix = Matrix(height: nat, width: nat, at: seq<seq<int>>)

  predicate Shaped(m: Matrix)
  {
    |m.at| == m.height && forall i :: 0 <= i < |m.at| ==> |m.at[i]| == m.width
  }

  /** Every entry is 0 or 1 (an unweighted incidence matrix). */
  predicate Binary(m: Matrix)
    requires Shaped(m)
  {
    forall i, j :: 0 <= i < m.height && 0 <= j < m.width ==> m.at[i][j] == 0 || m.at[i][j] == 1
  }

  function Transpose(m: Matrix): (t: Matrix)
    requires Shaped(m)
    ensures Shaped(t) && t.height == m.width && t.width == m.height
    ensures forall j, i :: 0 <= j < m.width && 0 <= i < m.height ==> t.at[j][i] == m.at[i][j]
  {
    Matrix(m.width, m.height,
           seq(m.width, j requires 0 <= j < m.width =>
             seq(m.height, i requires 0 <= i < m.height => m.at[i][j])))
  }

  lemma TransposeTwice(m: Matrix)
    requires Shaped(m)
    ensures Transpose(Transpose(m)) == m
  {
    var t := Transpose(Transpose(m));
    forall i | 0 <= i < m.height ensures t.at[i] == m.at[i] {
    }
  }

  lemma TransposeBinary(m: Matrix)
    requires Shaped(m) && Binary(m)
    ensures Binary(Transpose(m))
  {
  }

  // ---------------------------------------------------------------------------
  // Row and column sums

  function Column(m: Matrix, j: nat): (col: seq<int>)
    requires Shaped(m) && j < m.width
    ensures |col| == m.height && forall i :: 0 <= i < m.height ==> col[i] == m.at[i][j]
  {
    seq(m.height, i requires 0 <= i < m.height => m.at[i][j])
  }

  function RowSum(m: Matrix, i: nat): int
    requires Shaped(m) && i < m.height
  {
    SumInts(m.at[i])
  }

  function ColSum(m: Matrix, j: nat): int
    requires Shaped(m) && j < m.width
  {
    SumInts(Column(m, j))
  }

  /** `np.sum(M, axis=0)`: one sum per column. */
  function ColumnSums(m: Matrix): (sums: seq<int>)
    requires Shaped(m)
    ensures |sums| == m.width && forall j :: 0 <= j < m.width ==> sums[j] == ColSum(m, j)
  {
    seq(m.width, j requires 0 <= j < m.width => ColSum(m, j))
  }

  /** The positions of the nonzero entries of a sequence. */
  function Support(s: seq<int>): set<nat>
  {
    set k | 0 <= k < |s| && s[k] != 0
  }

  /** A 0/1 sequence sums to the number of its ones. */
  lemma {:induction false} BinarySumIsSupportSize(s: seq<int>)
    requires forall k :: 0 <= k < |s| ==> s[k] == 0 || s[k] == 1
    ensures SumInts(s) == |Support(s)|
    decreases |s|
  {
    if s != [] {
      var p := s[..|s| - 1];
      BinarySumIsSupportSize(p);
      var last := |s| - 1;
      if s[last] == 1 {
        assert Support(s) == Support(p) + {last};
        assert last !in Support(p);
      } else {
        assert Support(s) == Support(p);
      }
    }
  }

  /** A 0/1 sequence summing to 1 has exactly one nonzero entry. */
  lemma SumOneHasOneEntry(s: seq<int>)
    requires forall k :: 0 <= k < |s| ==> s[k] == 0 || s[k] == 1
    requires SumInts(s) == 1
    ensures exists k :: 0 <= k < |s| && s[k] == 1
    ensures forall k, l :: 0 <= k < |s| && 0 <= l < |s| && s[k] != 0 && s[l] != 0 ==> k == l
  {
    BinarySumIsSupportSize(s);
    var sup := Support(s);
    assert |sup| == 1;
    var k :| k in sup;
    assert s[k] == 1;
    forall a, b | 0 <= a < |s| && 0 <= b < |s| && s[a] != 0 && s[b] != 0 ensures a == b {
      assert a in sup && b in sup;
      if a != b {
        assert {a, b} <= sup;
        assert |{a, b}| == 2;
        SubsetCardinality({a, b}, sup);
      }
    }
  }

  lemma SubsetCardinality(a: set<nat>, b: set<nat>)
    requires a <= b
    ensures |a| <= |b|
  {
    assert b == a + (b - a);
  }

  /** `np.argmax`: the first position of the largest entry. */
  function ArgMax(s: seq<int>): (k: nat)
    requires |s| > 0
    ensures k < |s|
    ensures forall i :: 0 <= i < |s| ==> s[i] <= s[k]
    ensures forall i :: 0 <= i < k ==> s[i] < s[k]
    decreases |s|
  {
    if |s| == 1 then 0
    else
      var k := ArgMax(s[..|s| - 1]);
      if s[|s| - 1] > s[k] then |s| - 1 else k
  }

  /** In a 0/1 sequence with a single one, `argmax` finds that one. */
  lemma ArgMaxOfSingleOne(s: seq<int>, k: nat)
    requires forall i :: 0 <= i < |s| ==> s[i] == 0 || s[i] == 1
    requires k < |s| && s[k] == 1
    ensures s[ArgMax(s)] == 1
  {
  }

  // ---------------------------------------------------------------------------
  // s-adjacency

  /** The dot product of the first `n` entries of two rows. */
  function Dot(a: seq<int>, b: seq<int>, n: nat): int
    requires n <= |a| && n <= |b|
  {
    if n == 0 then 0 else Dot(a, b, n - 1) + a[n - 1] * b[n - 1]
  }

  lemma {:induction false} DotCommutes(a: seq<int>, b: seq<int>, n: nat)
    requires n <= |a| && n <= |b|
    ensures Dot(a, b, n) == Dot(b, a, n)
  {
    if n > 0 {
      DotCommutes(a, b, n - 1);
    }
  }

  /** The columns in which both rows are nonzero, among the first `n`. */
  function SharedPrefix(a: seq<int>, b: seq<int>, n: nat): set<nat>
    requires n <= |a| && n <= |b|
  {
    set j | 0 <= j < n && a[j] != 0 && b[j] != 0
  }

  /** For 0/1 rows the dot product counts the shared nonzero columns. */
  lemma {:induction false} DotCountsShared(a: seq<int>, b: seq<int>, n: nat)
    requires n <= |a| && n <= |b|
    requires forall j :: 0 <= j < n ==> (a[j] == 0 || a[j] == 1) && (b[j] == 0 || b[j] == 1)
    ensures Dot(a, b, n) == |SharedPrefix(a, b, n)|
  {
    if n > 0 {
      DotCountsShared(a, b, n - 1);
      var last := n - 1;
      var p := SharedPrefix(a, b, n - 1);
      if a[last] != 0 && b[last] != 0 {
        assert a[last] * b[last] == 1;
        assert SharedPrefix(a, b, n) == p + {last};
        assert last !in p;
      } else {
        assert a[last] * b[last] == 0;
        assert SharedPrefix(a, b, n) == p;
      }
    }
  }

  /** `M.dot(M.transpose())`. */
  function Gram(m: Matrix): (g: Matrix)
    requires Shaped(m)
    ensures Shaped(g) && g.height == m.height && g.width == m.height
  {
    Matrix(m.height, m.height,
           seq(m.height, i requires 0 <= i < m.height =>
             seq(m.height, k requires 0 <= k < m.height => Dot(m.at[i], m.at[k], m.width))))
  }

  /** `A.setdiag(0)` on a square matrix. */
  function ClearDiagonal(a: Matrix): (d: Matrix)
    requires Shaped(a) && a.height == a.width
    ensures Shaped(d) && d.height == a.height && d.width == a.width
  {
    Matrix(a.height, a.width,
           seq(a.height, i requires 0 <= i < a.height =>
             seq(a.width, k requires 0 <= k < a.width => if i == k then 0 else a.at[i][k])))
  }

  /** `(A >= s) * 1`. */
  function Threshold(a: Matrix, s: int): (t: Matrix)
    requires Shaped(a)
    ensures Shaped(t) && t.height == a.height && t.width == a.width && Binary(t)
  {
    Matrix(a.height, a.width,
           seq(a.height, i requires 0 <= i < a.height =>
             seq(a.width, k requires 0 <= k < a.width => if a.at[i][k] >= s then 1 else 0)))
  }

  /** The message of the NotImplementedError the sparse comparison `A >= s`
      raises for s = 0; for any other s it compares every entry. */
  const ZeroThresholdMsg := " >= and <= don't work with 0."

  /** `_incidence_to_adjacency(M, s)`: rows i and k are adjacent when they
      share at least s nonzero columns; self loops are cleared. For s = 0 the
      sparse comparison raises instead (see `Hypergraph.AdjacencyMatrix`). */
  function IncidenceToAdjacency(m: Matrix, s: int): (a: Matrix)
    requires Shaped(m) && s != 0
    ensures Shaped(a) && a.height == m.height && a.width == m.height && Binary(a)
  {
    Threshold(ClearDiagonal(Gram(m)), s)
  }

  /** The columns in which rows i and k of `m` are both nonzero. */
  function SharedColumns(m: Matrix, i: nat, k: nat): set<nat>
    requires Shaped(m) && i < m.height && k < m.height
  {
    set j | 0 <= j < m.width && m.at[i][j] != 0 && m.at[k][j] != 0
  }

  /** The rows in which columns j and l of `m` are both nonzero. */
  function SharedRows(m: Matrix, j: nat, l: nat): set<nat>
    requires Shaped(m) && j < m.width && l < m.width
  {
    set i | 0 <= i < m.height && m.at[i][j] != 0 && m.at[i][l] != 0
  }

  /** For s >= 1 and a 0/1 incidence matrix, entry (i, k) of the
      s-adjacency matrix is 1 exactly when i and k are different rows with
      at least s shared nonzero columns. */
  lemma AdjacencyEntry(m: Matrix, s: int, i: nat, k: nat)
    requires Shaped(m) && Binary(m) && s >= 1 && i < m.height && k < m.height
    ensures IncidenceToAdjacency(m, s).at[i][k] == 1 <==> i != k && |SharedColumns(m, i, k)| >= s
  {
    DotCountsShared(m.at[i], m.at[k], m.width);
    assert SharedPrefix(m.at[i], m.at[k], m.width) == SharedColumns(m, i, k);
  }

  /** The s-adjacency matrix is symmetric. */
  lemma AdjacencySymmetric(m: Matrix, s: int, i: nat, k: nat)
    requires Shaped(m) && s != 0 && i < m.height && k < m.height
    ensures IncidenceToAdjacency(m, s).at[i][k] == IncidenceToAdjacency(m, s).at[k][i]
  {
    DotCommutes(m.at[i], m.at[k], m.width);
  }

  /** For s >= 1 there are no self loops. */
  lemma AdjacencyZeroDiagonal(m: Matrix, s: int, i: nat)
    requires Shaped(m) && s >= 1 && i < m.height
    ensures IncidenceToAdjacency(m, s).at[i][i] == 0
  {
  }

  /** For s < 0 the threshold lets every entry through, the cleared
      diagonal included. */
  lemma AdjacencyBelowOne(m: Matrix, s: int, i: nat, k: nat)
    requires Shaped(m) && Binary(m) && s < 0 && i < m.height && k < m.height
    ensures IncidenceToAdjacency(m, s).at[i][k] == 1
  {
    if i != k {
      DotCountsShared(m.at[i], m.at[k], m.width);
    }
  }

  /** Raising the threshold only removes adjacencies. */
  lemma AdjacencyMonotone(m: Matrix, s1: int, s2: int, i: nat, k: nat)
    requires Shaped(m) && s1 != 0 && s2 != 0 && s1 <= s2 && i < m.height && k < m.height
    ensures IncidenceToAdjacency(m, s2).at[i][k] == 1 ==> IncidenceToAdjacency(m, s1).at[i][k] == 1
  {
  }

  /** `edge_adjacency_matrix`: the same construction on the transpose. */
  function EdgeAdjacency(m: Matrix, s: int): (a: Matrix)
    requires Shaped(m) && s != 0
    ensures Shaped(a) && a.height == m.width && a.width == m.width && Binary(a)
  {
    IncidenceToAdjacency(Transpose(m), s)
  }

  /** Columns j and l (edges) are s-adjacent exactly when they are different
      and share at least s nonzero rows (nodes). */
  lemma EdgeAdjacencyEntry(m: Matrix, s: int, j: nat, l: nat)
    requires Shaped(m) && Binary(m) && s >= 1 && j < m.width && l < m.width
    ensures EdgeAdjacency(m, s).at[j][l] == 1 <==> j != l && |SharedRows(m, j, l)| >= s
  {
    var t := Transpose(m);
    AdjacencyEntry(t, s, j, l);
    assert SharedColumns(t, j, l) == SharedRows(m, j, l);
  }

  // ---------------------------------------------------------------------------
  // Singletons

  /** Column j holds a single one, in a row that holds a single one: an edge
      of size 1 whose node has degree 1. */
  predicate IsSingleton(m: Matrix, j: nat)
    requires Shaped(m) && j < m.width
  {
    ColSum(m, j) == 1 && exists r :: 0 <= r < m.height && m.at[r][j] != 0 && RowSum(m, r) == 1
  }

  /** The labels of the singleton columns among the first n, in column order. */
  function SingletonLabels(m: Matrix, labels: seq<Value>, n: nat): (r: seq<Value>)
    requires Shaped(m) && n <= m.width && |labels| == m.width
    ensures forall v :: v in r <==> exists j :: 0 <= j < n && IsSingleton(m, j) && labels[j] == v
  {
    if n == 0 then []
    else SingletonLabels(m, labels, n - 1) + (if IsSingleton(m, n - 1) then [labels[n - 1]] else [])
  }

  /** A column with a single one: its row is the one `argmax` finds. */
  lemma SingleOneInColumn(m: Matrix, j: nat)
    requires Shaped(m) && Binary(m) && j < m.width && ColSum(m, j) == 1
    ensures m.height > 0
    ensures m.at[ArgMax(Column(m, j))][j] == 1
    ensures forall r :: 0 <= r < m.height && m.at[r][j] != 0 ==> r == ArgMax(Column(m, j))
  {
    var col := Column(m, j);
    SumOneHasOneEntry(col);
    var k :| 0 <= k < |col| && col[k] == 1;
    ArgMaxOfSingleOne(col, k);
  }

  /** A row with a single one: its column is the one `argmax` finds. */
  lemma SingleOneInRow(m: Matrix, i: nat)
    requires Shaped(m) && Binary(m) && i < m.height && RowSum(m, i) == 1
    ensures m.width > 0
    ensures m.at[i][ArgMax(m.at[i])] == 1
    ensures forall j :: 0 <= j < m.width && m.at[i][j] != 0 ==> j == ArgMax(m.at[i])
  {
    var row := m.at[i];
    SumOneHasOneEntry(row);
    var k :| 0 <= k < |row| && row[k] == 1;
    ArgMaxOfSingleOne(row, k);
  }

  /** Among the first c rows, some row holding a single one has it in a
      column holding a single one, labelled v. */
  predicate FoundInRows(m: Matrix, cdict: seq<Value>, c: nat, v: Value)
    requires Shaped(m) && |cdict| == m.width && c <= m.height
  {
    exists j, r :: 0 <= j < m.width && 0 <= r < c && m.at[r][j] != 0 && RowSum(m, r) == 1
                   && ColSum(m, j) == 1 && cdict[j] == v
  }

  /** One more row: row c contributes its column's label when the row and
      that column both hold a single one. */
  lemma FoundInRowsStep(m: Matrix, cdict: seq<Value>, c: nat, v: Value)
    requires Shaped(m) && Binary(m) && |cdict| == m.width && c < m.height
    ensures FoundInRows(m, cdict, c + 1, v) <==>
              FoundInRows(m, cdict, c, v)
              || (RowSum(m, c) == 1 && ColSum(m, ArgMax(m.at[c])) == 1 && cdict[ArgMax(m.at[c])] == v)
  {
    if RowSum(m, c) == 1 {
      SingleOneInRow(m, c);
    }
  }

  /** Over all rows, the row walk finds exactly the singleton columns. */
  lemma FoundInRowsMeaning(m: Matrix, cdict: seq<Value>, v: Value)
    requires Shaped(m) && |cdict| == m.width
    ensures FoundInRows(m, cdict, m.height, v) <==> exists j :: 0 <= j < m.width && IsSingleton(m, j) && cdict[j] == v
  {
    if FoundInRows(m, cdict, m.height, v) {
      var j, r :| 0 <= j < m.width && 0 <= r < m.height && m.at[r][j] != 0 && RowSum(m, r) == 1
                  && ColSum(m, j) == 1 && cdict[j] == v;
      assert IsSingleton(m, j);
    }
  }

  /** The walk over the columns: a column with a single one whose row also
      holds a single one is a singleton. */
  method ScanColumns(m: Matrix, cdict: seq<Value>) returns (singles: seq<Value>)
    requires Shaped(m) && Binary(m) && |cdict| == m.width
    ensures singles == SingletonLabels(m, cdict, m.width)
  {
    singles := [];
    var c := 0;
    while c < m.width
      invariant 0 <= c <= m.width
      invariant singles == SingletonLabels(m, cdict, c)
    {
      if ColSum(m, c) == 1 {
        SingleOneInColumn(m, c);
        var r := ArgMax(Column(m, c));
        if RowSum(m, r) == 1 {
          singles := singles + [cdict[c]];
        }
      }
      c := c + 1;
    }
  }

  /** The walk over the rows: a row with a single one whose column also
      holds a single one reports that column's label. */
  method ScanRows(m: Matrix, cdict: seq<Value>) returns (singles: seq<Value>)
    requires Shaped(m) && Binary(m) && |cdict| == m.width
    ensures forall v :: v in singles <==> FoundInRows(m, cdict, m.height, v)
  {
    singles := [];
    var c := 0;
    while c < m.height
      invariant 0 <= c <= m.height
      invariant forall v :: v in singles <==> FoundInRows(m, cdict, c, v)
    {
      forall v {
        FoundInRowsStep(m, cdict, c, v);
      }
      if RowSum(m, c) == 1 {
        SingleOneInRow(m, c);
        var r := ArgMax(m.at[c]);
        if ColSum(m, r) == 1 {
          singles := singles + [cdict[r]];
        }
      }
      c := c + 1;
    }
  }

  /** `singletons` on an incidence matrix with its column labels. When there
      are at least as many rows as columns it walks the columns; otherwise
      it walks the rows and reports the column of each singleton entry. Both
      walks report exactly the singleton columns; the first does so in
      column order. */
  method Singletons(m: Matrix, cdict: seq<Value>) returns (singles: seq<Value>)
    requires Shaped(m) && Binary(m) && |cdict| == m.width
    ensures forall v :: v in singles <==> exists j :: 0 <= j < m.width && IsSingleton(m, j) && cdict[j] == v
    ensures m.height >= m.width ==> singles == SingletonLabels(m, cdict, m.width)
  {
    if m.height >= m.width {
      singles := ScanColumns(m, cdict);
    } else {
      singles := ScanRows(m, cdict);
      forall v {
        FoundInRowsMeaning(m, cdict, v);
      }
    }
  }
}
