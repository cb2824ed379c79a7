/** A table as the table engine holds it: named columns and rows of cells.
    This module gives the row-level meaning of the two engine operations the
    core leans on: dropping rows with a repeated key (`drop_duplicates`, which
    keeps the first occurrence) and grouping rows by a key and reducing each
    group (`groupby(..., sort=False, dropna=True).agg(...)`). */
module Frames {
  import opened Values
  import opened Seqs
  import opened CategoryCodes

  type Row = seq<Value>

  datatype Frame = Frame(columns: seq<Value>, rows: seq<Row>)

  predicate RowsOfWidth(rows: seq<Row>, w: nat)
  {
    forall i :: 0 <= i < |rows| ==> |rows[i]| == w
  }

  predicate IdxBelow(idx: seq<nat>, w: nat)
  {
    forall k :: 0 <= k < |idx| ==> idx[k] < w
  }

  /** The shape every table has: distinct column names, one cell per column in each row. */
  predicate WellFormed(f: Frame)
  {
    NoDup(f.columns) && RowsOfWidth(f.rows, |f.columns|)
  }

  /** `df.empty`: no rows or no columns. */
  predicate IsEmpty(f: Frame)
  {
    |f.rows| == 0 || |f.columns| == 0
  }

  function ColumnAt(rows: seq<Row>, w: nat, c: nat): (col: seq<Value>)
    requires RowsOfWidth(rows, w) && c < w
    ensures |col| == |rows|
    ensures forall i :: 0 <= i < |rows| ==> col[i] == rows[i][c]
  {
    seq(|rows|, i requires 0 <= i < |rows| => rows[i][c])
  }

  /** `df[name]`, or None (a KeyError) when there is no such column. */
  function Column(f: Frame, name: Value): (r: Option<seq<Value>>)
    requires WellFormed(f)
    ensures r.Some? <==> name in f.columns
    ensures r.Some? ==> |r.value| == |f.rows|
  {
    if name in f.columns then Some(ColumnAt(f.rows, |f.columns|, IndexOf(f.columns, name)))
    else None
  }

  /** The rows with cell k of each row replaced by the matching value. */
  function ReplaceCells(rows: seq<Row>, w: nat, k: nat, vals: seq<Value>): (out: seq<Row>)
    requires RowsOfWidth(rows, w) && k < w && |vals| == |rows|
    ensures RowsOfWidth(out, w) && |out| == |rows|
    ensures ColumnAt(out, w, k) == vals
    ensures forall c :: 0 <= c < w && c != k ==> ColumnAt(out, w, c) == ColumnAt(rows, w, c)
  {
    var out := seq(|rows|, i requires 0 <= i < |rows| => rows[i][k := vals[i]]);
    assert ColumnAt(out, w, k) == vals;
    assert forall c :: 0 <= c < w && c != k ==> ColumnAt(out, w, c) == ColumnAt(rows, w, c);
    out
  }

  /** The rows with the matching value appended to each row as a new last cell. */
  function AppendCells(rows: seq<Row>, w: nat, vals: seq<Value>): (out: seq<Row>)
    requires RowsOfWidth(rows, w) && |vals| == |rows|
    ensures RowsOfWidth(out, w + 1) && |out| == |rows|
    ensures ColumnAt(out, w + 1, w) == vals
    ensures forall c :: 0 <= c < w ==> ColumnAt(out, w + 1, c) == ColumnAt(rows, w, c)
  {
    var out := seq(|rows|, i requires 0 <= i < |rows| => rows[i] + [vals[i]]);
    assert ColumnAt(out, w + 1, w) == vals;
    assert forall c :: 0 <= c < w ==> ColumnAt(out, w + 1, c) == ColumnAt(rows, w, c);
    out
  }

  /** `df[name] = vals`: replaces the column in place or appends a new one. */
  function SetColumn(f: Frame, name: Value, vals: seq<Value>): (g: Frame)
    requires WellFormed(f) && |vals| == |f.rows|
    ensures WellFormed(g) && |g.rows| == |f.rows|
    ensures name in f.columns ==> g.columns == f.columns
    ensures name !in f.columns ==> g.columns == f.columns + [name]
    ensures Column(g, name) == Some(vals)
    ensures forall c :: c in f.columns && c != name ==> Column(g, c) == Column(f, c)
  {
    var w := |f.columns|;
    if name in f.columns then
      var k := IndexOf(f.columns, name);
      var g := Frame(f.columns, ReplaceCells(f.rows, w, k, vals));
      assert forall c :: c in f.columns && c != name ==> IndexOf(f.columns, c) != k;
      g
    else
      var g := Frame(f.columns + [name], AppendCells(f.rows, w, vals));
      assert IndexOf(g.columns, name) == w by {
        assert g.columns[w] == name;
      }
      forall c | c in f.columns && c != name
        ensures Column(g, c) == Column(f, c)
      {
        var j := IndexOf(f.columns, c);
        assert g.columns[j] == c;
        assert IndexOf(g.columns, c) == j;
      }
      g
  }

  /** The positions of the named columns, or None (a KeyError) if one is absent. */
  function Positions(columns: seq<Value>, names: seq<Value>): (r: Option<seq<nat>>)
    ensures r.Some? <==> forall k :: 0 <= k < |names| ==> names[k] in columns
    ensures r.Some? ==> |r.value| == |names| && IdxBelow(r.value, |columns|)
    ensures r.Some? ==> forall k :: 0 <= k < |names| ==> columns[r.value[k]] == names[k]
  {
    if forall k :: 0 <= k < |names| ==> names[k] in columns then
      Some(seq(|names|, k requires 0 <= k < |names| => IndexOf(columns, names[k])))
    else None
  }

  // ---------------------------------------------------------------------------
  // Keys

  /** The tuple of a row's cells at the key positions. */
  function Key(row: Row, idx: seq<nat>): (k: Row)
    requires IdxBelow(idx, |row|)
    ensures |k| == |idx|
    ensures forall j :: 0 <= j < |idx| ==> k[j] == row[idx[j]]
  {
    seq(|idx|, j requires 0 <= j < |idx| => row[idx[j]])
  }

  function Keys(rows: seq<Row>, w: nat, idx: seq<nat>): (ks: seq<Row>)
    requires RowsOfWidth(rows, w) && IdxBelow(idx, w)
    ensures |ks| == |rows|
    ensures forall i :: 0 <= i < |rows| ==> ks[i] == Key(rows[i], idx)
  {
    seq(|rows|, i requires 0 <= i < |rows| => Key(rows[i], idx))
  }

  lemma KeysPrefix(rows: seq<Row>, w: nat, idx: seq<nat>, n: nat)
    requires RowsOfWidth(rows, w) && IdxBelow(idx, w) && n <= |rows|
    ensures RowsOfWidth(rows[..n], w)
    ensures Keys(rows[..n], w, idx) == Keys(rows, w, idx)[..n]
  {
  }

  lemma KeysAppend(rows: seq<Row>, r: Row, w: nat, idx: seq<nat>)
    requires RowsOfWidth(rows, w) && IdxBelow(idx, w) && |r| == w
    ensures RowsOfWidth(rows + [r], w)
    ensures Keys(rows + [r], w, idx) == Keys(rows, w, idx) + [Key(r, idx)]
  {
  }

  // ---------------------------------------------------------------------------
  // drop_duplicates(subset=idx): keep the first row of each key

  function DropDuplicates(rows: seq<Row>, w: nat, idx: seq<nat>): (r: seq<Row>)
    requires RowsOfWidth(rows, w) && IdxBelow(idx, w)
    ensures RowsOfWidth(r, w)
    ensures |r| <= |rows|
    decreases |rows|
  {
    if rows == [] then []
    else
      var prefix := rows[..|rows| - 1];
      var last := rows[|rows| - 1];
      var p := DropDuplicates(prefix, w, idx);
      if Key(last, idx) in Keys(prefix, w, idx) then p else p + [last]
  }

  lemma IndexOfAppend<T>(s: seq<T>, t: seq<T>, x: T)
    requires x in s
    ensures IndexOf(s + t, x) == IndexOf(s, x)
  {
    var i := IndexOf(s, x);
    assert (s + t)[i] == x;
    assert forall j :: 0 <= j < i ==> (s + t)[j] == s[j];
  }

  /** The keys that survive are the distinct keys, in order of first appearance. */
  lemma {:induction false} DropDuplicatesKeys(rows: seq<Row>, w: nat, idx: seq<nat>)
    requires RowsOfWidth(rows, w) && IdxBelow(idx, w)
    ensures Keys(DropDuplicates(rows, w, idx), w, idx) == Unique(Keys(rows, w, idx))
    decreases |rows|
  {
    if rows != [] {
      var prefix := rows[..|rows| - 1];
      var last := rows[|rows| - 1];
      DropDuplicatesKeys(prefix, w, idx);
      var ks := Keys(rows, w, idx);
      assert ks[..|ks| - 1] == Keys(prefix, w, idx);
      var p := DropDuplicates(prefix, w, idx);
      if Key(last, idx) !in Keys(prefix, w, idx) {
        KeysAppend(p, last, w, idx);
      }
    }
  }

  /** Every surviving row is the first row of the input that carries its key. */
  lemma {:induction false} DropDuplicatesFirstOccurrence(rows: seq<Row>, w: nat, idx: seq<nat>, j: nat)
    requires RowsOfWidth(rows, w) && IdxBelow(idx, w)
    requires j < |DropDuplicates(rows, w, idx)|
    ensures Key(DropDuplicates(rows, w, idx)[j], idx) in Keys(rows, w, idx)
    ensures DropDuplicates(rows, w, idx)[j] == rows[IndexOf(Keys(rows, w, idx), Key(DropDuplicates(rows, w, idx)[j], idx))]
    decreases |rows|
  {
    var prefix := rows[..|rows| - 1];
    var last := rows[|rows| - 1];
    var p := DropDuplicates(prefix, w, idx);
    var ks := Keys(rows, w, idx);
    var kp := Keys(prefix, w, idx);
    assert ks == kp + [Key(last, idx)];
    if j < |p| {
      DropDuplicatesFirstOccurrence(prefix, w, idx, j);
      var k := Key(p[j], idx);
      IndexOfAppend(kp, [Key(last, idx)], k);
    } else {
      assert Key(last, idx) !in kp;
      assert DropDuplicates(rows, w, idx)[j] == last;
      assert IndexOf(ks, Key(last, idx)) == |rows| - 1;
    }
  }

  /** Dropping duplicates twice is the same as dropping them once. */
  lemma DropDuplicatesIdempotent(rows: seq<Row>, w: nat, idx: seq<nat>)
    requires RowsOfWidth(rows, w) && IdxBelow(idx, w)
    ensures DropDuplicates(DropDuplicates(rows, w, idx), w, idx) == DropDuplicates(rows, w, idx)
  {
    var d := DropDuplicates(rows, w, idx);
    DropDuplicatesKeys(rows, w, idx);
    DropDuplicatesOfDistinct(d, w, idx);
  }

  lemma {:induction false} DropDuplicatesOfDistinct(rows: seq<Row>, w: nat, idx: seq<nat>)
    requires RowsOfWidth(rows, w) && IdxBelow(idx, w)
    requires NoDup(Keys(rows, w, idx))
    ensures DropDuplicates(rows, w, idx) == rows
    decreases |rows|
  {
    if rows != [] {
      var prefix := rows[..|rows| - 1];
      var ks := Keys(rows, w, idx);
      assert Keys(prefix, w, idx) == ks[..|rows| - 1];
      assert NoDup(Keys(prefix, w, idx));
      DropDuplicatesOfDistinct(prefix, w, idx);
      assert ks[|rows| - 1] !in ks[..|rows| - 1];
      assert rows == prefix + [rows[|rows| - 1]];
    }
  }

  // ---------------------------------------------------------------------------
  // groupby(idx, sort=False, dropna=True).agg(...)

  /** The reductions the model knows by name. */
  datatype Reduction = SumOf | FirstOf | LastOf | CountOf

  function ParseReduction(name: string): (r: Option<Reduction>)
    ensures r == Some(SumOf) <==> name == "sum"
    ensures r == Some(FirstOf) <==> name == "first"
  {
    if name == "sum" then Some(SumOf)
    else if name == "first" then Some(FirstOf)
    else if name == "last" then Some(LastOf)
    else if name == "count" then Some(CountOf)
    else None
  }

  function IntPart(v: Value): int
  {
    if v.Int? then v.i else 0
  }

  /** Sum of the integer cells (missing cells are skipped). */
  function SumOfInts(vs: seq<Value>): int
  {
    if vs == [] then 0 else SumOfInts(vs[..|vs| - 1]) + IntPart(vs[|vs| - 1])
  }

  /** First non-missing cell (`first` skips missing cells), Missing if none. */
  function FirstPresent(vs: seq<Value>): (v: Value)
    ensures v != Missing ==> v in vs
    ensures (exists i :: 0 <= i < |vs| && vs[i] != Missing) ==> v != Missing
  {
    if vs == [] then Missing else if vs[0] != Missing then vs[0] else FirstPresent(vs[1..])
  }

  function LastPresent(vs: seq<Value>): Value
  {
    if vs == [] then Missing
    else if vs[|vs| - 1] != Missing then vs[|vs| - 1]
    else LastPresent(vs[..|vs| - 1])
  }

  function Reduce(m: Reduction, vs: seq<Value>): Value
  {
    match m
    case SumOf => Int(SumOfInts(vs))
    case FirstOf => FirstPresent(vs)
    case LastOf => LastPresent(vs)
    case CountOf => Int(|NonMissing(vs)|)
  }

  predicate Complete(k: Row)
  {
    Missing !in k
  }

  /** The rows whose key holds no missing cell (groupby drops the others). */
  function CompleteRows(rows: seq<Row>, w: nat, idx: seq<nat>): (r: seq<Row>)
    requires RowsOfWidth(rows, w) && IdxBelow(idx, w)
    ensures RowsOfWidth(r, w)
    ensures forall i :: 0 <= i < |r| ==> Complete(Key(r[i], idx))
    decreases |rows|
  {
    if rows == [] then []
    else
      var p := CompleteRows(rows[..|rows| - 1], w, idx);
      var last := rows[|rows| - 1];
      if Complete(Key(last, idx)) then p + [last] else p
  }

  /** The cells of column c in the rows of one group, in row order. */
  function GroupValues(rows: seq<Row>, w: nat, idx: seq<nat>, k: Row, c: nat): (vs: seq<Value>)
    requires RowsOfWidth(rows, w) && IdxBelow(idx, w) && c < w
    decreases |rows|
  {
    if rows == [] then []
    else
      var last := rows[|rows| - 1];
      GroupValues(rows[..|rows| - 1], w, idx, k, c) + (if Key(last, idx) == k then [last[c]] else [])
  }

  /** The distinct complete keys, in order of first appearance. */
  function Groups(rows: seq<Row>, w: nat, idx: seq<nat>): (gs: seq<Row>)
    requires RowsOfWidth(rows, w) && IdxBelow(idx, w)
    ensures NoDup(gs)
    ensures forall k :: k in gs <==> k in Keys(CompleteRows(rows, w, idx), w, idx)
    ensures forall g :: 0 <= g < |gs| ==> |gs[g]| == |idx| && Complete(gs[g])
  {
    var comp := CompleteRows(rows, w, idx);
    var ks := Keys(comp, w, idx);
    var gs := Unique(ks);
    assert forall g :: 0 <= g < |gs| ==> gs[g] in ks;
    assert forall k :: k in ks ==> |k| == |idx| && Complete(k);
    gs
  }

  /** The key positions that are not also aggregated: the engine puts these
      grouping columns first and then one column per aggregated column. */
  function KeptKeyPositions(idx: seq<nat>, aggCols: seq<nat>): (r: seq<nat>)
    ensures forall t :: 0 <= t < |r| ==> r[t] < |idx| && idx[r[t]] !in aggCols
    ensures forall j :: 0 <= j < |idx| && idx[j] !in aggCols ==> j in r
    decreases |idx|
  {
    if idx == [] then []
    else
      var p := KeptKeyPositions(idx[..|idx| - 1], aggCols);
      if idx[|idx| - 1] in aggCols then p else p + [|idx| - 1]
  }

  function AggColumns(aggs: seq<(nat, Reduction)>): (r: seq<nat>)
    ensures |r| == |aggs| && forall a :: 0 <= a < |aggs| ==> r[a] == aggs[a].0
  {
    seq(|aggs|, a requires 0 <= a < |aggs| => aggs[a].0)
  }

  predicate AggsBelow(aggs: seq<(nat, Reduction)>, w: nat)
  {
    forall a :: 0 <= a < |aggs| ==> aggs[a].0 < w
  }

  /** One output row: the kept key cells, then one reduced cell per aggregation. */
  function GroupRow(rows: seq<Row>, w: nat, idx: seq<nat>, aggs: seq<(nat, Reduction)>, k: Row): (r: Row)
    requires RowsOfWidth(rows, w) && IdxBelow(idx, w) && AggsBelow(aggs, w) && |k| == |idx|
  {
    var kept := KeptKeyPositions(idx, AggColumns(aggs));
    seq(|kept|, t requires 0 <= t < |kept| => k[kept[t]])
      + seq(|aggs|, a requires 0 <= a < |aggs| => Reduce(aggs[a].1, GroupValues(rows, w, idx, k, aggs[a].0)))
  }

  function GroupAggregate(rows: seq<Row>, w: nat, idx: seq<nat>, aggs: seq<(nat, Reduction)>): (r: seq<Row>)
    requires RowsOfWidth(rows, w) && IdxBelow(idx, w) && AggsBelow(aggs, w)
    ensures |r| == |Groups(rows, w, idx)|
    ensures RowsOfWidth(r, |KeptKeyPositions(idx, AggColumns(aggs))| + |aggs|)
  {
    var comp := CompleteRows(rows, w, idx);
    var gs := Groups(rows, w, idx);
    seq(|gs|, g requires 0 <= g < |gs| => GroupRow(comp, w, idx, aggs, gs[g]))
  }

  // ---------------------------------------------------------------------------
  // Facts about groups

  lemma {:induction false} CompleteRowsOfComplete(rows: seq<Row>, w: nat, idx: seq<nat>)
    requires RowsOfWidth(rows, w) && IdxBelow(idx, w)
    requires forall i :: 0 <= i < |rows| ==> Complete(Key(rows[i], idx))
    ensures CompleteRows(rows, w, idx) == rows
    decreases |rows|
  {
    if rows != [] {
      CompleteRowsOfComplete(rows[..|rows| - 1], w, idx);
      assert rows == rows[..|rows| - 1] + [rows[|rows| - 1]];
    }
  }

  /** The values of a group are the cells of the rows carrying its key. */
  lemma {:induction false} GroupValuesMembers(rows: seq<Row>, w: nat, idx: seq<nat>, k: Row, c: nat, v: Value)
    requires RowsOfWidth(rows, w) && IdxBelow(idx, w) && c < w
    requires v in GroupValues(rows, w, idx, k, c)
    ensures exists i :: 0 <= i < |rows| && Key(rows[i], idx) == k && rows[i][c] == v
    decreases |rows|
  {
    var last := rows[|rows| - 1];
    var p := GroupValues(rows[..|rows| - 1], w, idx, k, c);
    if v in p {
      GroupValuesMembers(rows[..|rows| - 1], w, idx, k, c, v);
      var i :| 0 <= i < |rows| - 1 && Key(rows[..|rows| - 1][i], idx) == k && rows[..|rows| - 1][i][c] == v;
      assert rows[i] == rows[..|rows| - 1][i];
    } else {
      assert Key(last, idx) == k && last[c] == v;
    }
  }

  /** A key that occurs in the rows has a non-empty group. */
  lemma {:induction false} GroupValuesNonEmpty(rows: seq<Row>, w: nat, idx: seq<nat>, k: Row, c: nat)
    requires RowsOfWidth(rows, w) && IdxBelow(idx, w) && c < w
    requires k in Keys(rows, w, idx)
    ensures |GroupValues(rows, w, idx, k, c)| > 0
    decreases |rows|
  {
    var last := rows[|rows| - 1];
    if Key(last, idx) != k {
      KeysPrefix(rows, w, idx, |rows| - 1);
      var ks := Keys(rows, w, idx);
      assert k in ks[..|rows| - 1] by {
        var i := IndexOf(ks, k);
        assert i != |rows| - 1;
      }
      GroupValuesNonEmpty(rows[..|rows| - 1], w, idx, k, c);
    }
  }

  /** In a group, a key column holds the key's own cell in every row, so its
      first cell is the key cell. */
  lemma GroupValuesOfKeyColumn(rows: seq<Row>, w: nat, idx: seq<nat>, k: Row, j: nat)
    requires RowsOfWidth(rows, w) && IdxBelow(idx, w) && j < |idx| && |k| == |idx|
    requires k in Keys(rows, w, idx) && k[j] != Missing
    ensures FirstPresent(GroupValues(rows, w, idx, k, idx[j])) == k[j]
  {
    var vs := GroupValues(rows, w, idx, k, idx[j]);
    GroupValuesNonEmpty(rows, w, idx, k, idx[j]);
    forall v | v in vs ensures v == k[j] {
      GroupValuesMembers(rows, w, idx, k, idx[j], v);
    }
    assert vs[0] in vs;
  }

  /** When every key is distinct, each group holds exactly its one row. */
  lemma {:induction false} GroupValuesOfDistinct(rows: seq<Row>, w: nat, idx: seq<nat>, i: nat, c: nat)
    requires RowsOfWidth(rows, w) && IdxBelow(idx, w) && c < w && i < |rows|
    requires NoDup(Keys(rows, w, idx))
    ensures GroupValues(rows, w, idx, Key(rows[i], idx), c) == [rows[i][c]]
    decreases |rows|
  {
    var n := |rows| - 1;
    var prefix := rows[..n];
    var ks := Keys(rows, w, idx);
    KeysPrefix(rows, w, idx, n);
    assert NoDup(Keys(prefix, w, idx));
    if i < n {
      GroupValuesOfDistinct(prefix, w, idx, i, c);
      assert prefix[i] == rows[i];
      assert ks[i] != ks[n];
    } else {
      GroupValuesAbsent(prefix, w, idx, Key(rows[n], idx), c);
    }
  }

  lemma {:induction false} GroupValuesAbsent(rows: seq<Row>, w: nat, idx: seq<nat>, k: Row, c: nat)
    requires RowsOfWidth(rows, w) && IdxBelow(idx, w) && c < w
    requires k !in Keys(rows, w, idx)
    ensures GroupValues(rows, w, idx, k, c) == []
    decreases |rows|
  {
    if rows != [] {
      KeysPrefix(rows, w, idx, |rows| - 1);
      assert Keys(rows, w, idx)[|rows| - 1] == Key(rows[|rows| - 1], idx);
      GroupValuesAbsent(rows[..|rows| - 1], w, idx, k, c);
    }
  }

  // ---------------------------------------------------------------------------
  // Conservation of total weight under sum aggregation

  function ColumnTotal(rows: seq<Row>, w: nat, c: nat): int
    requires RowsOfWidth(rows, w) && c < w
    decreases |rows|
  {
    if rows == [] then 0 else ColumnTotal(rows[..|rows| - 1], w, c) + IntPart(rows[|rows| - 1][c])
  }

  /** Sum over a list of groups of each group's summed cells. */
  function GroupsTotal(gs: seq<Row>, rows: seq<Row>, w: nat, idx: seq<nat>, c: nat): int
    requires RowsOfWidth(rows, w) && IdxBelow(idx, w) && c < w
    decreases |gs|
  {
    if gs == [] then 0
    else GroupsTotal(gs[..|gs| - 1], rows, w, idx, c) + SumOfInts(GroupValues(rows, w, idx, gs[|gs| - 1], c))
  }

  lemma SumOfIntsAppend(vs: seq<Value>, x: Value)
    ensures SumOfInts(vs + [x]) == SumOfInts(vs) + IntPart(x)
  {
    assert (vs + [x])[..|vs|] == vs;
  }

  /** Adding one row adds its cell to exactly the group of its key. */
  lemma {:induction false} GroupsTotalAppendRow(gs: seq<Row>, rows: seq<Row>, r: Row, w: nat, idx: seq<nat>, c: nat)
    requires RowsOfWidth(rows, w) && IdxBelow(idx, w) && c < w && |r| == w
    requires NoDup(gs)
    ensures RowsOfWidth(rows + [r], w)
    ensures GroupsTotal(gs, rows + [r], w, idx, c)
         == GroupsTotal(gs, rows, w, idx, c) + (if Key(r, idx) in gs then IntPart(r[c]) else 0)
    decreases |gs|
  {
    if gs != [] {
      var g := gs[|gs| - 1];
      var init := gs[..|gs| - 1];
      assert NoDup(init);
      assert gs == init + [g];
      GroupsTotalAppendRow(init, rows, r, w, idx, c);
      GroupSumAppendRow(rows, r, w, idx, g, c);
      if Key(r, idx) == g {
        assert g !in init;
      }
    }
  }

  /** Adding one row adds its cell to the sum of the group of its key only. */
  lemma GroupSumAppendRow(rows: seq<Row>, r: Row, w: nat, idx: seq<nat>, g: Row, c: nat)
    requires RowsOfWidth(rows, w) && IdxBelow(idx, w) && c < w && |r| == w
    ensures RowsOfWidth(rows + [r], w)
    ensures SumOfInts(GroupValues(rows + [r], w, idx, g, c))
         == SumOfInts(GroupValues(rows, w, idx, g, c)) + (if Key(r, idx) == g then IntPart(r[c]) else 0)
  {
    var rows' := rows + [r];
    assert rows'[..|rows'| - 1] == rows;
    var before := GroupValues(rows, w, idx, g, c);
    if Key(r, idx) == g {
      SumOfIntsAppend(before, r[c]);
    } else {
      assert GroupValues(rows', w, idx, g, c) == before;
    }
  }

  lemma {:induction false} GroupsTotalCovers(gs: seq<Row>, rows: seq<Row>, w: nat, idx: seq<nat>, c: nat)
    requires RowsOfWidth(rows, w) && IdxBelow(idx, w) && c < w
    requires NoDup(gs)
    requires forall i :: 0 <= i < |rows| ==> Key(rows[i], idx) in gs
    ensures GroupsTotal(gs, rows, w, idx, c) == ColumnTotal(rows, w, c)
    decreases |rows|
  {
    if rows == [] {
      GroupsTotalOfNoRows(gs, w, idx, c);
    } else {
      var prefix := rows[..|rows| - 1];
      var last := rows[|rows| - 1];
      GroupsTotalCovers(gs, prefix, w, idx, c);
      GroupsTotalAppendRow(gs, prefix, last, w, idx, c);
      assert prefix + [last] == rows;
    }
  }

  lemma {:induction false} GroupsTotalOfNoRows(gs: seq<Row>, w: nat, idx: seq<nat>, c: nat)
    requires IdxBelow(idx, w) && c < w
    ensures GroupsTotal(gs, [], w, idx, c) == 0
    decreases |gs|
  {
    if gs != [] {
      GroupsTotalOfNoRows(gs[..|gs| - 1], w, idx, c);
    }
  }

  /** Summing each group's weights and adding up the groups gives the total
      weight of the rows that have a complete key. */
  lemma GroupsConserveTotal(rows: seq<Row>, w: nat, idx: seq<nat>, c: nat)
    requires RowsOfWidth(rows, w) && IdxBelow(idx, w) && c < w
    ensures GroupsTotal(Groups(rows, w, idx), CompleteRows(rows, w, idx), w, idx, c)
         == ColumnTotal(CompleteRows(rows, w, idx), w, c)
  {
    var comp := CompleteRows(rows, w, idx);
    var gs := Groups(rows, w, idx);
    var ks := Keys(comp, w, idx);
    forall i | 0 <= i < |comp| ensures Key(comp[i], idx) in gs {
      assert ks[i] in ks;
    }
    GroupsTotalCovers(gs, comp, w, idx, c);
  }

  /** The engine's column layout after `as_index=False` aggregation: the
      grouping columns that are not aggregated, then the aggregated columns. */
  function GroupAggregateColumns(columns: seq<Value>, idx: seq<nat>, aggs: seq<(nat, Reduction)>): (r: seq<Value>)
    requires IdxBelow(idx, |columns|) && AggsBelow(aggs, |columns|)
    ensures |r| == |KeptKeyPositions(idx, AggColumns(aggs))| + |aggs|
  {
    var kept := KeptKeyPositions(idx, AggColumns(aggs));
    seq(|kept|, t requires 0 <= t < |kept| => columns[idx[kept[t]]])
      + seq(|aggs|, a requires 0 <= a < |aggs| => columns[aggs[a].0])
  }

  lemma {:induction false} KeptKeyPositionsAllAggregated(idx: seq<nat>, aggCols: seq<nat>)
    requires forall j :: 0 <= j < |idx| ==> idx[j] in aggCols
    ensures KeptKeyPositions(idx, aggCols) == []
    decreases |idx|
  {
    if idx != [] {
      KeptKeyPositionsAllAggregated(idx[..|idx| - 1], aggCols);
    }
  }

  function Range(n: nat): (r: seq<nat>)
    ensures |r| == n && forall j :: 0 <= j < n ==> r[j] == j
  {
    seq(n, j requires 0 <= j < n => j)
  }

  lemma {:induction false} KeptKeyPositionsNoneAggregated(idx: seq<nat>, aggCols: seq<nat>)
    requires forall j :: 0 <= j < |idx| ==> idx[j] !in aggCols
    ensures KeptKeyPositions(idx, aggCols) == Range(|idx|)
    decreases |idx|
  {
    if idx != [] {
      KeptKeyPositionsNoneAggregated(idx[..|idx| - 1], aggCols);
    }
  }

  /** A key column reduced by `first` holds, in each output row, that group's key cell. */
  lemma GroupAggregateFirstOfKey(rows: seq<Row>, w: nat, idx: seq<nat>, aggs: seq<(nat, Reduction)>, g: nat, a: nat, j: nat)
    requires RowsOfWidth(rows, w) && IdxBelow(idx, w) && AggsBelow(aggs, w)
    requires g < |Groups(rows, w, idx)| && a < |aggs| && j < |idx|
    requires aggs[a] == (idx[j], FirstOf)
    ensures GroupAggregate(rows, w, idx, aggs)[g][|KeptKeyPositions(idx, AggColumns(aggs))| + a]
         == Groups(rows, w, idx)[g][j]
  {
    var comp := CompleteRows(rows, w, idx);
    var gs := Groups(rows, w, idx);
    assert gs[g] in Keys(comp, w, idx);
    GroupValuesOfKeyColumn(comp, w, idx, gs[g], j);
  }

  /** The cells of one group's output row: the kept key cells, then one
      reduced cell per aggregation. */
  lemma GroupRowCells(rows: seq<Row>, w: nat, idx: seq<nat>, aggs: seq<(nat, Reduction)>, k: Row)
    requires RowsOfWidth(rows, w) && IdxBelow(idx, w) && AggsBelow(aggs, w) && |k| == |idx|
    ensures |GroupRow(rows, w, idx, aggs, k)| == |KeptKeyPositions(idx, AggColumns(aggs))| + |aggs|
    ensures forall t :: 0 <= t < |KeptKeyPositions(idx, AggColumns(aggs))| ==>
              GroupRow(rows, w, idx, aggs, k)[t] == k[KeptKeyPositions(idx, AggColumns(aggs))[t]]
    ensures forall p :: |KeptKeyPositions(idx, AggColumns(aggs))| <= p < |GroupRow(rows, w, idx, aggs, k)| ==>
              GroupRow(rows, w, idx, aggs, k)[p]
              == Reduce(aggs[p - |KeptKeyPositions(idx, AggColumns(aggs))|].1,
                        GroupValues(rows, w, idx, k, aggs[p - |KeptKeyPositions(idx, AggColumns(aggs))|].0))
  {
  }

  /** One output cell of an aggregated column is the reduction of that group's cells. */
  lemma GroupAggregateCell(rows: seq<Row>, w: nat, idx: seq<nat>, aggs: seq<(nat, Reduction)>, g: nat, a: nat)
    requires RowsOfWidth(rows, w) && IdxBelow(idx, w) && AggsBelow(aggs, w)
    requires g < |Groups(rows, w, idx)| && a < |aggs|
    ensures GroupAggregate(rows, w, idx, aggs)[g][|KeptKeyPositions(idx, AggColumns(aggs))| + a]
         == Reduce(aggs[a].1, GroupValues(CompleteRows(rows, w, idx), w, idx, Groups(rows, w, idx)[g], aggs[a].0))
  {
    var comp := CompleteRows(rows, w, idx);
    var k := Groups(rows, w, idx)[g];
    assert GroupAggregate(rows, w, idx, aggs)[g] == GroupRow(comp, w, idx, aggs, k);
    GroupRowCells(comp, w, idx, aggs, k);
    assert |KeptKeyPositions(idx, AggColumns(aggs))| + a - |KeptKeyPositions(idx, AggColumns(aggs))| == a;
  }

  lemma {:induction false} TotalsMatch(out: seq<Row>, width: nat, p: nat, gs: seq<Row>, comp: seq<Row>, w: nat, idx: seq<nat>, c: nat, n: nat)
    requires RowsOfWidth(out, width) && p < width && RowsOfWidth(comp, w) && IdxBelow(idx, w) && c < w
    requires |out| == |gs| && n <= |gs|
    requires forall g :: 0 <= g < |gs| ==> IntPart(out[g][p]) == SumOfInts(GroupValues(comp, w, idx, gs[g], c))
    ensures RowsOfWidth(out[..n], width)
    ensures ColumnTotal(out[..n], width, p) == GroupsTotal(gs[..n], comp, w, idx, c)
    decreases n
  {
    if n > 0 {
      TotalsMatch(out, width, p, gs, comp, w, idx, c, n - 1);
      assert out[..n][..n - 1] == out[..n - 1];
      assert gs[..n][..n - 1] == gs[..n - 1];
    }
  }

  /** Every output cell of a summed column is the sum of its group's cells. */
  lemma SummedCells(rows: seq<Row>, w: nat, idx: seq<nat>, aggs: seq<(nat, Reduction)>, a: nat, pos: nat, c: nat)
    requires RowsOfWidth(rows, w) && IdxBelow(idx, w) && AggsBelow(aggs, w)
    requires a < |aggs| && aggs[a].1 == SumOf && c == aggs[a].0
    requires pos == |KeptKeyPositions(idx, AggColumns(aggs))| + a
    ensures forall g :: 0 <= g < |Groups(rows, w, idx)| ==>
              IntPart(GroupAggregate(rows, w, idx, aggs)[g][pos])
              == SumOfInts(GroupValues(CompleteRows(rows, w, idx), w, idx, Groups(rows, w, idx)[g], c))
  {
    forall g | 0 <= g < |Groups(rows, w, idx)|
      ensures IntPart(GroupAggregate(rows, w, idx, aggs)[g][pos])
              == SumOfInts(GroupValues(CompleteRows(rows, w, idx), w, idx, Groups(rows, w, idx)[g], c))
    {
      var vs := GroupValues(CompleteRows(rows, w, idx), w, idx, Groups(rows, w, idx)[g], aggs[a].0);
      GroupAggregateCell(rows, w, idx, aggs, g, a);
      assert GroupAggregate(rows, w, idx, aggs)[g][pos] == Reduce(SumOf, vs) == Int(SumOfInts(vs));
    }
  }

  /** The conservation of sums, with the output width, the output position
      and the input column named by the caller. */
  lemma ConservedSumAt(rows: seq<Row>, w: nat, idx: seq<nat>, aggs: seq<(nat, Reduction)>, a: nat,
                       width: nat, pos: nat, c: nat)
    requires RowsOfWidth(rows, w) && IdxBelow(idx, w) && AggsBelow(aggs, w)
    requires a < |aggs| && aggs[a].1 == SumOf && c == aggs[a].0
    requires width == |KeptKeyPositions(idx, AggColumns(aggs))| + |aggs|
    requires pos == |KeptKeyPositions(idx, AggColumns(aggs))| + a
    ensures RowsOfWidth(GroupAggregate(rows, w, idx, aggs), width) && pos < width && c < w
    ensures ColumnTotal(GroupAggregate(rows, w, idx, aggs), width, pos) == ColumnTotal(CompleteRows(rows, w, idx), w, c)
  {
    var out := GroupAggregate(rows, w, idx, aggs);
    var gs := Groups(rows, w, idx);
    var comp := CompleteRows(rows, w, idx);
    SummedCells(rows, w, idx, aggs, a, pos, c);
    TotalsMatch(out, width, pos, gs, comp, w, idx, c, |gs|);
    assert out[..|gs|] == out;
    assert gs[..|gs|] == gs;
    GroupsConserveTotal(rows, w, idx, c);
  }

  /** Summing a column per group keeps the total of the column over the rows
      with a complete key. */
  lemma GroupAggregateConservesSum(rows: seq<Row>, w: nat, idx: seq<nat>, aggs: seq<(nat, Reduction)>, a: nat)
    requires RowsOfWidth(rows, w) && IdxBelow(idx, w) && AggsBelow(aggs, w)
    requires a < |aggs| && aggs[a].1 == SumOf
    ensures ColumnTotal(GroupAggregate(rows, w, idx, aggs), |KeptKeyPositions(idx, AggColumns(aggs))| + |aggs|,
                        |KeptKeyPositions(idx, AggColumns(aggs))| + a)
         == ColumnTotal(CompleteRows(rows, w, idx), w, aggs[a].0)
  {
    ConservedSumAt(rows, w, idx, aggs, a, |KeptKeyPositions(idx, AggColumns(aggs))| + |aggs|,
                   |KeptKeyPositions(idx, AggColumns(aggs))| + a, aggs[a].0);
  }

  /** Reductions that give back a lone cell unchanged. */
  predicate Stable(m: Reduction, v: Value)
  {
    match m
    case SumOf => v.Int?
    case FirstOf => true
    case LastOf => true
    case CountOf => false
  }

  lemma ReduceSingleton(m: Reduction, v: Value)
    requires Stable(m, v)
    ensures Reduce(m, [v]) == v
  {
    if m == SumOf {
      assert [v][..0] == [];
      assert SumOfInts([v]) == SumOfInts([]) + IntPart(v);
    } else if m == LastOf && v == Missing {
      assert [v][..0] == [];
      assert LastPresent([v]) == LastPresent([]);
    }
  }

  /** One row laid out as aggregation lays out its group: the kept key
      cells, then the aggregated cells. */
  function Relaid(row: Row, idx: seq<nat>, aggs: seq<(nat, Reduction)>): (r: Row)
    requires IdxBelow(idx, |row|) && AggsBelow(aggs, |row|)
    ensures |r| == |KeptKeyPositions(idx, AggColumns(aggs))| + |aggs|
  {
    var kept := KeptKeyPositions(idx, AggColumns(aggs));
    seq(|kept| + |aggs|, p requires 0 <= p < |kept| + |aggs| =>
          if p < |kept| then row[idx[kept[p]]] else row[aggs[p - |kept|].0])
  }

  /** A row is its own layout when the kept key positions and the aggregated
      columns, in order, name its cells one after another. */
  lemma RelaidInPlace(row: Row, idx: seq<nat>, aggs: seq<(nat, Reduction)>, kept: seq<nat>)
    requires IdxBelow(idx, |row|) && AggsBelow(aggs, |row|)
    requires kept == KeptKeyPositions(idx, AggColumns(aggs)) && |kept| + |aggs| == |row|
    requires forall t :: 0 <= t < |kept| ==> idx[kept[t]] == t
    requires forall a :: 0 <= a < |aggs| ==> aggs[a].0 == |kept| + a
    ensures Relaid(row, idx, aggs) == row
  {
    var r := Relaid(row, idx, aggs);
    forall p | 0 <= p < |r| ensures r[p] == row[p] {
      if p >= |kept| {
        assert aggs[p - |kept|].0 == |kept| + (p - |kept|);
      }
    }
  }

  /** The output row of the group of a row whose key no other row shares is
      that row, laid out. */
  lemma GroupRowOfDistinct(rows: seq<Row>, w: nat, idx: seq<nat>, aggs: seq<(nat, Reduction)>, i: nat)
    requires RowsOfWidth(rows, w) && IdxBelow(idx, w) && AggsBelow(aggs, w) && i < |rows|
    requires NoDup(Keys(rows, w, idx))
    requires forall a :: 0 <= a < |aggs| ==> Stable(aggs[a].1, rows[i][aggs[a].0])
    ensures GroupRow(rows, w, idx, aggs, Key(rows[i], idx)) == Relaid(rows[i], idx, aggs)
  {
    var r := GroupRow(rows, w, idx, aggs, Key(rows[i], idx));
    var l := Relaid(rows[i], idx, aggs);
    GroupRowCells(rows, w, idx, aggs, Key(rows[i], idx));
    var kept := |KeptKeyPositions(idx, AggColumns(aggs))|;
    forall p | kept <= p < |r| ensures r[p] == l[p] {
      GroupValuesOfDistinct(rows, w, idx, i, aggs[p - kept].0);
      ReduceSingleton(aggs[p - kept].1, rows[i][aggs[p - kept].0]);
    }
  }

  /** On rows whose complete keys are already distinct, aggregation with
      stable reductions only rearranges each row into the output layout. */
  lemma GroupAggregateOfDistinct(rows: seq<Row>, w: nat, idx: seq<nat>, aggs: seq<(nat, Reduction)>)
    requires RowsOfWidth(rows, w) && IdxBelow(idx, w) && AggsBelow(aggs, w)
    requires forall i :: 0 <= i < |rows| ==> Complete(Key(rows[i], idx))
    requires NoDup(Keys(rows, w, idx))
    requires forall i, a :: 0 <= i < |rows| && 0 <= a < |aggs| ==> Stable(aggs[a].1, rows[i][aggs[a].0])
    ensures |GroupAggregate(rows, w, idx, aggs)| == |rows|
    ensures forall i :: 0 <= i < |rows| ==> GroupAggregate(rows, w, idx, aggs)[i] == Relaid(rows[i], idx, aggs)
  {
    CompleteRowsOfComplete(rows, w, idx);
    UniqueOfDistinct(Keys(rows, w, idx));
    var out := GroupAggregate(rows, w, idx, aggs);
    forall i | 0 <= i < |rows|
      ensures out[i] == Relaid(rows[i], idx, aggs)
    {
      GroupRowOfDistinct(rows, w, idx, aggs, i);
    }
  }
}
