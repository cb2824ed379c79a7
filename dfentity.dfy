/** The static entity of `hypernetx/classes/dfentity.py`: a table of
    incidence rows (one column per dimension plus a weight column), cleaned
    of duplicate rows when it is built, with memoised views of it (category
    codes and labels, cell weights, dimension sizes, uid sets, and
    element/membership dictionaries). */
module DfEntity {
  import opened Values
  import opened Seqs
  import opened CategoryCodes
  import opened Frames
  import H = Helpers

  const DefaultWeightCol: Value := Str("cell_weights")

  // ---------------------------------------------------------------------------
  // assign_weights (the module-level version in dfentity.py)

  /** The `weights` argument: a list or array of values, or any hashable
      value (None is `Missing`). */
  datatype EntityWeights = WeightSeq(vals: seq<Value>) | WeightName(name: Value)

  function Ones(n: nat): (r: seq<Value>)
    ensures |r| == n && forall i :: 0 <= i < n ==> r[i] == Int(1)
  {
    seq(n, _ => Int(1))
  }

  /** A list with one value per row becomes the weight column; the name of an
      existing column makes that column the weight column; anything else
      gives a new (or overwritten) weight column of ones. */
  function AssignWeights(df: Frame, weights: EntityWeights, weightCol: Value): (r: (Frame, Value))
    requires WellFormed(df)
    ensures WellFormed(r.0) && |r.0.rows| == |df.rows| && r.1 in r.0.columns
    ensures r.0.columns == df.columns || r.0.columns == df.columns + [r.1]
    ensures forall c :: c in df.columns && c != r.1 ==> Column(r.0, c) == Column(df, c)
    ensures weights.WeightSeq? && |weights.vals| == |df.rows| ==>
              r.1 == weightCol && Column(r.0, weightCol) == Some(weights.vals)
    ensures weights.WeightName? && weights.name in df.columns ==> r == (df, weights.name)
    ensures !(weights.WeightSeq? && |weights.vals| == |df.rows|) && !(weights.WeightName? && weights.name in df.columns) ==>
              r.1 == weightCol && Column(r.0, weightCol) == Some(Ones(|df.rows|))
  {
    if weights.WeightSeq? && |weights.vals| == |df.rows| then (SetColumn(df, weightCol, weights.vals), weightCol)
    else if weights.WeightName? && weights.name in df.columns then (df, weights.name)
    else (SetColumn(df, weightCol, Ones(|df.rows|)), weightCol)
  }

  // ---------------------------------------------------------------------------
  // remove_row_duplicates (the module-level version in dfentity.py)

  /** Without an aggregation method the first row of each `dataCols` key is
      kept and no weight column is reported; with one, the rows are grouped
      by the key (rows with a missing key cell are dropped) and only the
      weight column is aggregated, giving the key columns followed by the
      weight column. */
  function RemoveRowDuplicates(df: Frame, dataCols: seq<Value>, weights: EntityWeights, aggregateby: Option<string>)
    : (r: Result<(Frame, Option<Value>)>)
    requires WellFormed(df)
    ensures aggregateby.None? && r.Ok? ==> r.value.1 == None && r.value.0.columns == df.columns && WellFormed(r.value.0)
    ensures aggregateby.Some? && r.Ok? ==> r.value.1 == Some(AssignWeights(df, weights, DefaultWeightCol).1)
    ensures r.Ok? && NoDup(dataCols) ==> WellFormed(r.value.0)
    ensures aggregateby.None? ==> (r.Err? <==> exists j :: 0 <= j < |dataCols| && dataCols[j] !in df.columns)
    ensures aggregateby.Some? && dataCols == [] ==> r.Err?
    ensures aggregateby.Some? && ParseReduction(aggregateby.value).None? ==> r.Err?
  {
    match aggregateby
    case None =>
      if Positions(df.columns, dataCols).None? then Err(KeyError)
      else Ok((Frame(df.columns, DropDuplicates(df.rows, |df.columns|, Positions(df.columns, dataCols).value)), None))
    case Some(m) =>
      var (g, wc) := AssignWeights(df, weights, DefaultWeightCol);
      if Positions(g.columns, dataCols).None? then Err(KeyError)
      else if dataCols == [] then Err(ValueError)
      else if ParseReduction(m).None? then Err(AggregationError)
      else
        Ok((Aggregated(g, dataCols, wc, ParseReduction(m).value), Some(wc)))
  }

  /** Grouping by the data columns and reducing only the weight column. */
  function Aggregated(g: Frame, dataCols: seq<Value>, wc: Value, red: Reduction): (out: Frame)
    requires WellFormed(g) && wc in g.columns && Positions(g.columns, dataCols).Some?
    ensures NoDup(dataCols) ==> WellFormed(out)
    ensures |out.rows| == |Groups(g.rows, |g.columns|, Positions(g.columns, dataCols).value)|
  {
    var idx := Positions(g.columns, dataCols).value;
    var aggs := [(IndexOf(g.columns, wc), red)];
    var out := Frame(GroupAggregateColumns(g.columns, idx, aggs), GroupAggregate(g.rows, |g.columns|, idx, aggs));
    assert NoDup(dataCols) ==> WellFormed(out) by {
      if NoDup(dataCols) {
        GroupedLayout(g.columns, dataCols, idx, wc, red);
      }
    }
    out
  }

  /** With the weight column not a key, the aggregated table is the key
      columns followed by the weight column, one row per distinct complete
      key in order of first appearance, each row's weight the reduction of
      its group's weights. */
  lemma AggregatedRows(g: Frame, dataCols: seq<Value>, wc: Value, red: Reduction)
    requires WellFormed(g) && wc in g.columns && Positions(g.columns, dataCols).Some?
    requires NoDup(dataCols) && wc !in dataCols
    ensures var out := Aggregated(g, dataCols, wc, red);
            var w := |g.columns|;
            var idx := Positions(g.columns, dataCols).value;
            var n := |dataCols|;
            out.columns == dataCols + [wc]
            && RowsOfWidth(out.rows, n + 1)
            && forall q :: 0 <= q < |out.rows| ==>
                 Key(out.rows[q], Range(n)) == Groups(g.rows, w, idx)[q]
                 && out.rows[q][n] == Reduce(red, GroupValues(CompleteRows(g.rows, w, idx), w, idx,
                                                             Groups(g.rows, w, idx)[q], IndexOf(g.columns, wc)))
  {
    var w := |g.columns|;
    var idx := Positions(g.columns, dataCols).value;
    var p := IndexOf(g.columns, wc);
    var n := |dataCols|;
    var aggs := [(p, red)];
    GroupedLayout(g.columns, dataCols, idx, wc, red);
    var rows := GroupAggregate(g.rows, w, idx, aggs);
    var gs := Groups(g.rows, w, idx);
    forall q | 0 <= q < |rows|
      ensures Key(rows[q], Range(n)) == gs[q]
      ensures rows[q][n] == Reduce(red, GroupValues(CompleteRows(g.rows, w, idx), w, idx, gs[q], p))
    {
      GroupAggregateCell(g.rows, w, idx, aggs, q, 0);
      var comp := CompleteRows(g.rows, w, idx);
      assert rows[q] == GroupRow(comp, w, idx, aggs, gs[q]);
      assert forall t :: 0 <= t < n ==> rows[q][t] == gs[q][t];
    }
  }

  /** The keys of the aggregated table are the groups. */
  lemma AggregatedKeys(g: Frame, dataCols: seq<Value>, wc: Value, red: Reduction)
    requires WellFormed(g) && wc in g.columns && Positions(g.columns, dataCols).Some?
    requires NoDup(dataCols) && wc !in dataCols
    ensures var out := Aggregated(g, dataCols, wc, red);
            var n := |dataCols|;
            RowsOfWidth(out.rows, n + 1)
            && Keys(out.rows, n + 1, Range(n)) == Groups(g.rows, |g.columns|, Positions(g.columns, dataCols).value)
  {
    AggregatedRows(g, dataCols, wc, red);
  }

  /** Summing keeps the total weight of the rows with a complete key. */
  lemma AggregatedSum(g: Frame, dataCols: seq<Value>, wc: Value)
    requires WellFormed(g) && wc in g.columns && Positions(g.columns, dataCols).Some?
    requires NoDup(dataCols) && wc !in dataCols
    ensures var out := Aggregated(g, dataCols, wc, SumOf);
            var w := |g.columns|;
            var n := |dataCols|;
            RowsOfWidth(out.rows, n + 1)
            && ColumnTotal(out.rows, n + 1, n)
               == ColumnTotal(CompleteRows(g.rows, w, Positions(g.columns, dataCols).value), w, IndexOf(g.columns, wc))
  {
    var idx := Positions(g.columns, dataCols).value;
    var p := IndexOf(g.columns, wc);
    GroupedLayout(g.columns, dataCols, idx, wc, SumOf);
    assert AggColumns([(p, SumOf)]) == [p];
    assert |KeptKeyPositions(idx, [p])| == |dataCols|;
    SingleSumConserves(g.rows, |g.columns|, idx, p);
  }

  lemma SingleSumConserves(rows: seq<Row>, w: nat, idx: seq<nat>, p: nat)
    requires RowsOfWidth(rows, w) && IdxBelow(idx, w) && p < w
    ensures var k := |KeptKeyPositions(idx, [p])|;
            RowsOfWidth(GroupAggregate(rows, w, idx, [(p, SumOf)]), k + 1)
            && ColumnTotal(GroupAggregate(rows, w, idx, [(p, SumOf)]), k + 1, k)
               == ColumnTotal(CompleteRows(rows, w, idx), w, p)
  {
    assert AggColumns([(p, SumOf)]) == [p];
    GroupAggregateConservesSum(rows, w, idx, [(p, SumOf)], 0);
  }

  /** The layout when only the weight column is aggregated: the key columns
      that are not the weight column, then the weight column; with the weight
      column not a key, that is the key columns followed by it. */
  lemma GroupedLayout(columns: seq<Value>, dataCols: seq<Value>, idx: seq<nat>, wc: Value, m: Reduction)
    requires NoDup(columns) && NoDup(dataCols) && wc in columns
    requires Positions(columns, dataCols) == Some(idx)
    ensures NoDup(GroupAggregateColumns(columns, idx, [(IndexOf(columns, wc), m)]))
    ensures wc !in dataCols ==>
              KeptKeyPositions(idx, AggColumns([(IndexOf(columns, wc), m)])) == Range(|idx|)
              && GroupAggregateColumns(columns, idx, [(IndexOf(columns, wc), m)]) == dataCols + [wc]
  {
    var p := IndexOf(columns, wc);
    var aggs := [(p, m)];
    assert AggColumns(aggs) == [p];
    GroupedLayoutDistinct(columns, dataCols, idx, p);
    if wc !in dataCols {
      GroupedLayoutOfNonKey(columns, dataCols, idx, wc, m);
    }
  }

  lemma GroupedLayoutOfNonKey(columns: seq<Value>, dataCols: seq<Value>, idx: seq<nat>, wc: Value, m: Reduction)
    requires NoDup(columns) && wc in columns && wc !in dataCols
    requires Positions(columns, dataCols) == Some(idx)
    ensures KeptKeyPositions(idx, AggColumns([(IndexOf(columns, wc), m)])) == Range(|idx|)
    ensures GroupAggregateColumns(columns, idx, [(IndexOf(columns, wc), m)]) == dataCols + [wc]
  {
    var p := IndexOf(columns, wc);
    assert AggColumns([(p, m)]) == [p];
    forall j | 0 <= j < |idx| ensures idx[j] !in [p] {
      assert columns[idx[j]] == dataCols[j];
    }
    KeptKeyPositionsNoneAggregated(idx, [p]);
    KeysThenAggregated(columns, dataCols, idx, p, m);
  }

  lemma KeysThenAggregated(columns: seq<Value>, dataCols: seq<Value>, idx: seq<nat>, p: nat, m: Reduction)
    requires p < |columns| && Positions(columns, dataCols) == Some(idx)
    requires KeptKeyPositions(idx, [p]) == Range(|idx|)
    ensures GroupAggregateColumns(columns, idx, [(p, m)]) == dataCols + [columns[p]]
  {
    assert AggColumns([(p, m)]) == [p];
    var out := GroupAggregateColumns(columns, idx, [(p, m)]);
    assert |out| == |dataCols| + 1;
    forall t | 0 <= t < |out| ensures out[t] == (dataCols + [columns[p]])[t] {
      if t < |dataCols| {
        assert out[t] == columns[idx[t]];
      } else {
        assert out[t] == columns[p];
      }
    }
  }

  lemma GroupedLayoutDistinct(columns: seq<Value>, dataCols: seq<Value>, idx: seq<nat>, p: nat)
    requires NoDup(columns) && NoDup(dataCols) && p < |columns|
    requires Positions(columns, dataCols) == Some(idx)
    ensures NoDup(GroupAggregateColumns(columns, idx, [(p, SumOf)]))
    ensures forall m: Reduction :: GroupAggregateColumns(columns, idx, [(p, m)]) == GroupAggregateColumns(columns, idx, [(p, SumOf)])
  {
    var ac := [p];
    assert AggColumns([(p, SumOf)]) == ac;
    var kept := KeptKeyPositions(idx, ac);
    var front := seq(|kept|, t requires 0 <= t < |kept| => columns[idx[kept[t]]]);
    var out := front + [columns[p]];
    forall m: Reduction ensures GroupAggregateColumns(columns, idx, [(p, m)]) == out {
      assert AggColumns([(p, m)]) == ac;
    }
    forall s, t | 0 <= s < t < |out| ensures out[s] != out[t] {
      assert out[s] == columns[idx[kept[s]]] == dataCols[kept[s]];
      if t < |kept| {
        KeptIncreasing(idx, ac, s, t);
        assert out[t] == dataCols[kept[t]];
      } else {
        assert idx[kept[s]] != p;
      }
    }
  }

  lemma {:induction false} KeptIncreasing(idx: seq<nat>, ac: seq<nat>, s: nat, t: nat)
    requires s < t < |KeptKeyPositions(idx, ac)|
    ensures KeptKeyPositions(idx, ac)[s] < KeptKeyPositions(idx, ac)[t]
    decreases |idx|
  {
    var p := KeptKeyPositions(idx[..|idx| - 1], ac);
    if idx[|idx| - 1] in ac || t < |p| {
      KeptIncreasing(idx[..|idx| - 1], ac, s, t);
    }
  }

  /** Drop mode: the keys that remain are distinct, in order of first
      appearance, each row the first one carrying its key; no weight column
      is reported. */
  lemma DropModeKeepsFirst(df: Frame, dataCols: seq<Value>, weights: EntityWeights)
    requires WellFormed(df) && RemoveRowDuplicates(df, dataCols, weights, None).Ok?
    ensures var (out, wcol) := RemoveRowDuplicates(df, dataCols, weights, None).value;
            var w := |df.columns|;
            var idx := Positions(df.columns, dataCols).value;
            wcol == None
            && Keys(out.rows, w, idx) == Unique(Keys(df.rows, w, idx))
            && NoDup(Keys(out.rows, w, idx))
            && forall j :: 0 <= j < |out.rows| ==>
                 out.rows[j] == df.rows[IndexOf(Keys(df.rows, w, idx), Key(out.rows[j], idx))]
  {
    var w := |df.columns|;
    var idx := Positions(df.columns, dataCols).value;
    DropDuplicatesKeys(df.rows, w, idx);
    forall j | 0 <= j < |DropDuplicates(df.rows, w, idx)| {
      DropDuplicatesFirstOccurrence(df.rows, w, idx, j);
    }
  }

  /** Aggregation mode, with the weight column not a key. */
  lemma AggregateModeGroups(df: Frame, dataCols: seq<Value>, weights: EntityWeights, m: string)
    requires WellFormed(df) && NoDup(dataCols)
    requires RemoveRowDuplicates(df, dataCols, weights, Some(m)).Ok?
    requires AssignWeights(df, weights, DefaultWeightCol).1 !in dataCols
    ensures var (g, wc) := AssignWeights(df, weights, DefaultWeightCol);
            Positions(g.columns, dataCols).Some? && ParseReduction(m).Some?
            && RemoveRowDuplicates(df, dataCols, weights, Some(m))
               == Ok((Aggregated(g, dataCols, wc, ParseReduction(m).value), Some(wc)))
  {
  }

  /** Aggregating by "sum" a second time changes nothing: every key is
      already complete and distinct and every weight a single integer. */
  lemma SumAggregationIdempotent(df: Frame, dataCols: seq<Value>, weights: EntityWeights)
    requires WellFormed(df) && NoDup(dataCols)
    requires RemoveRowDuplicates(df, dataCols, weights, Some("sum")).Ok?
    requires AssignWeights(df, weights, DefaultWeightCol).1 !in dataCols
    ensures var out := RemoveRowDuplicates(df, dataCols, weights, Some("sum")).value.0;
            var wc := AssignWeights(df, weights, DefaultWeightCol).1;
            WellFormed(out)
            && RemoveRowDuplicates(out, dataCols, WeightName(wc), Some("sum")) == Ok((out, Some(wc)))
  {
    var (g, wc) := AssignWeights(df, weights, DefaultWeightCol);
    AggregateModeGroups(df, dataCols, weights, "sum");
    AggregatedTwice(g, dataCols, wc);
  }

  lemma AggregatedTwice(g: Frame, dataCols: seq<Value>, wc: Value)
    requires WellFormed(g) && wc in g.columns && Positions(g.columns, dataCols).Some?
    requires NoDup(dataCols) && wc !in dataCols && dataCols != []
    ensures var out := Aggregated(g, dataCols, wc, SumOf);
            WellFormed(out) && RemoveRowDuplicates(out, dataCols, WeightName(wc), Some("sum")) == Ok((out, Some(wc)))
  {
    var out := Aggregated(g, dataCols, wc, SumOf);
    SummedLayout(g, dataCols, wc);
    AggregatedOfDistinct(out, dataCols, wc);
    assert AssignWeights(out, WeightName(wc), DefaultWeightCol) == (out, wc);
  }

  /** A table aggregated by "sum" has complete, distinct keys in front and
      an integer weight last. */
  lemma SummedLayout(g: Frame, dataCols: seq<Value>, wc: Value)
    requires WellFormed(g) && wc in g.columns && Positions(g.columns, dataCols).Some?
    requires NoDup(dataCols) && wc !in dataCols
    ensures var out := Aggregated(g, dataCols, wc, SumOf);
            var n := |dataCols|;
            WellFormed(out) && out.columns == dataCols + [wc]
            && (forall i :: 0 <= i < |out.rows| ==> Complete(Key(out.rows[i], Range(n))) && out.rows[i][n].Int?)
            && NoDup(Keys(out.rows, n + 1, Range(n)))
  {
    var out := Aggregated(g, dataCols, wc, SumOf);
    var n := |dataCols|;
    AggregatedRows(g, dataCols, wc, SumOf);
    var gs := Groups(g.rows, |g.columns|, Positions(g.columns, dataCols).value);
    forall i | 0 <= i < |out.rows| ensures Complete(Key(out.rows[i], Range(n))) && out.rows[i][n].Int? {
      assert Key(out.rows[i], Range(n)) == gs[i];
    }
    assert Keys(out.rows, n + 1, Range(n)) == gs;
  }

  /** In a table laid out as the key columns followed by the weight column,
      the keys sit at the front and the weight column last. */
  lemma PositionsOfPrefix(dataCols: seq<Value>, wc: Value)
    requires NoDup(dataCols + [wc])
    ensures Positions(dataCols + [wc], dataCols) == Some(Range(|dataCols|))
    ensures IndexOf(dataCols + [wc], wc) == |dataCols|
  {
    var cols := dataCols + [wc];
    var n := |dataCols|;
    assert forall k :: 0 <= k < n ==> cols[k] == dataCols[k];
    var r := Positions(cols, dataCols);
    assert r.Some?;
    forall k | 0 <= k < n ensures r.value[k] == k {
      assert cols[r.value[k]] == dataCols[k] == cols[k];
    }
    assert r.value == Range(n);
    assert cols[n] == wc;
    IndexOfDistinct(cols, n);
  }

  /** A table whose keys are complete and distinct and whose weights are
      integers is left as it is by summing. */
  lemma AggregatedOfDistinct(f: Frame, dataCols: seq<Value>, wc: Value)
    requires WellFormed(f) && f.columns == dataCols + [wc]
    requires forall i :: 0 <= i < |f.rows| ==> Complete(Key(f.rows[i], Range(|dataCols|))) && f.rows[i][|dataCols|].Int?
    requires NoDup(Keys(f.rows, |dataCols| + 1, Range(|dataCols|)))
    ensures Positions(f.columns, dataCols).Some? && Aggregated(f, dataCols, wc, SumOf) == f
  {
    var n := |dataCols|;
    PositionsOfPrefix(dataCols, wc);
    PrefixLayout(dataCols, wc, SumOf);
    SumIdentityLayout(f.rows, n);
    AggregatedUnfold(f, dataCols, wc, SumOf, Range(n), n);
  }

  lemma SumIdentityLayout(rows: seq<Row>, n: nat)
    requires RowsOfWidth(rows, n + 1)
    requires forall i :: 0 <= i < |rows| ==> Complete(Key(rows[i], Range(n))) && rows[i][n].Int?
    requires NoDup(Keys(rows, n + 1, Range(n)))
    ensures GroupAggregate(rows, n + 1, Range(n), [(n, SumOf)]) == rows
  {
    forall i | 0 <= i < |rows| ensures Stable(SumOf, rows[i][n]) {
    }
    IdentityLayout(rows, n, SumOf);
  }

  lemma PrefixLayout(dataCols: seq<Value>, wc: Value, m: Reduction)
    requires NoDup(dataCols + [wc])
    ensures GroupAggregateColumns(dataCols + [wc], Range(|dataCols|), [(|dataCols|, m)]) == dataCols + [wc]
  {
    PositionsOfPrefix(dataCols, wc);
    assert wc !in dataCols;
    GroupedLayout(dataCols + [wc], dataCols, Range(|dataCols|), wc, m);
  }

  lemma AggregatedUnfold(g: Frame, dataCols: seq<Value>, wc: Value, red: Reduction, idx: seq<nat>, p: nat)
    requires WellFormed(g) && wc in g.columns
    requires Positions(g.columns, dataCols) == Some(idx) && IndexOf(g.columns, wc) == p
    ensures Aggregated(g, dataCols, wc, red)
         == Frame(GroupAggregateColumns(g.columns, idx, [(p, red)]), GroupAggregate(g.rows, |g.columns|, idx, [(p, red)]))
  {
  }

  lemma IdentityLayout(rows: seq<Row>, n: nat, m: Reduction)
    requires RowsOfWidth(rows, n + 1)
    requires forall i :: 0 <= i < |rows| ==> Complete(Key(rows[i], Range(n))) && Stable(m, rows[i][n])
    requires NoDup(Keys(rows, n + 1, Range(n)))
    ensures GroupAggregate(rows, n + 1, Range(n), [(n, m)]) == rows
  {
    var again := GroupAggregate(rows, n + 1, Range(n), [(n, m)]);
    forall i | 0 <= i < |rows| ensures |again| == |rows| && again[i] == rows[i] {
      IdentityRow(rows, n, m, i);
    }
    CompleteRowsOfComplete(rows, n + 1, Range(n));
    UniqueOfDistinct(Keys(rows, n + 1, Range(n)));
  }

  lemma IdentityRow(rows: seq<Row>, n: nat, m: Reduction, i: nat)
    requires RowsOfWidth(rows, n + 1) && i < |rows|
    requires forall i :: 0 <= i < |rows| ==> Complete(Key(rows[i], Range(n))) && Stable(m, rows[i][n])
    requires NoDup(Keys(rows, n + 1, Range(n)))
    ensures |GroupAggregate(rows, n + 1, Range(n), [(n, m)])| == |rows|
    ensures GroupAggregate(rows, n + 1, Range(n), [(n, m)])[i] == rows[i]
  {
    var aggs := [(n, m)];
    GroupAggregateOfDistinct(rows, n + 1, Range(n), aggs);
    RelaidIdentity(rows[i], n, m);
  }

  /** Laying out a row by all its leading columns as key and its last column
      as the one aggregate gives the row back. */
  lemma RelaidIdentity(row: Row, n: nat, m: Reduction)
    requires |row| == n + 1
    ensures Relaid(row, Range(n), [(n, m)]) == row
  {
    var aggs := [(n, m)];
    assert AggColumns(aggs) == [n];
    KeptKeyPositionsNoneAggregated(Range(n), [n]);
    var kept := KeptKeyPositions(Range(n), AggColumns(aggs));
    assert kept == Range(n);
    RelaidInPlace(row, Range(n), aggs, kept);
  }

  // ---------------------------------------------------------------------------
  // Building the table from the raw data

  /** The accepted shapes of raw data: a table, a dictionary of lists, a list
      of lists, or a 2-dimensional integer array of the given width. */
  datatype RawData =
    | Table(frame: Frame)
    | DictOfLists(entries: seq<(Value, seq<Value>)>)
    | ListOfLists(lists: seq<seq<Value>>)
    | Array(width: nat, cells: seq<seq<int>>)

  /** The `labels` argument: absent, or a dictionary of label lists. */
  datatype LabelArg = NoLabels | LabelDict(keys: seq<Value>, lists: seq<seq<Value>>)

  /** What the types guarantee: a table is well formed, an array is
      rectangular, a dictionary has distinct keys. */
  predicate RawValid(raw: RawData, labels: LabelArg)
  {
    (raw.Table? ==> WellFormed(raw.frame))
    && (raw.Array? ==> forall i :: 0 <= i < |raw.cells| ==> |raw.cells[i]| == raw.width)
    && (labels.LabelDict? ==> NoDup(labels.keys) && |labels.keys| == |labels.lists|)
  }

  /** One row per list element, labelled with the list's key; an empty list
      gives one row with a missing element. */
  function Explode(entries: seq<(Value, seq<Value>)>): (rows: seq<Row>)
    ensures RowsOfWidth(rows, 2)
    decreases |entries|
  {
    if entries == [] then []
    else
      var (k, vs) := entries[0];
      (if vs == [] then [[k, Missing]] else seq(|vs|, i requires 0 <= i < |vs| => [k, vs[i]]))
        + Explode(entries[1..])
  }

  function IntColumns(n: nat): (cols: seq<Value>)
    ensures |cols| == n && NoDup(cols)
  {
    seq(n, i requires 0 <= i < n => Int(i))
  }

  predicate LabelsMatch(raw: RawData, labels: LabelArg)
  {
    raw.Array? && labels.LabelDict? && |labels.keys| == raw.width
  }

  function ArrayRows(cells: seq<seq<int>>): (rows: seq<Row>)
    ensures |rows| == |cells|
    ensures forall i :: 0 <= i < |cells| ==> |rows[i]| == |cells[i]|
  {
    seq(|cells|, i requires 0 <= i < |cells| => seq(|cells[i]|, j requires 0 <= j < |cells[i]| => Int(cells[i][j])))
  }

  function InitialFrame(raw: RawData, labels: LabelArg): (f: Frame)
    requires RawValid(raw, labels)
    ensures WellFormed(f)
  {
    match raw
    case Table(frame) => frame
    case DictOfLists(entries) => Frame(IntColumns(2), Explode(entries))
    case ListOfLists(lists) =>
      Frame(IntColumns(2), Explode(seq(|lists|, i requires 0 <= i < |lists| => (Int(i), lists[i]))))
    case Array(width, cells) =>
      Frame(if LabelsMatch(raw, labels) then labels.keys else IntColumns(width), ArrayRows(cells))
  }

  function LabelMap(labels: LabelArg): map<Value, seq<Value>>
    requires labels.LabelDict? && NoDup(labels.keys) && |labels.keys| == |labels.lists|
  {
    map i | 0 <= i < |labels.keys| :: labels.keys[i] := labels.lists[i]
  }

  /** The sequence without the given element. */
  function Without(s: seq<Value>, x: Value): (r: seq<Value>)
    ensures forall v :: v in r <==> v in s && v != x
    ensures NoDup(s) ==> NoDup(r)
    ensures x !in s ==> r == s
    ensures NoDup(s) && x in s ==> |r| == |s| - 1
    decreases |s|
  {
    if s == [] then []
    else
      var q := s[..|s| - 1];
      var p := Without(q, x);
      assert s == q + [s[|s| - 1]];
      assert NoDup(s) ==> NoDup(q) && s[|s| - 1] !in q;
      if s[|s| - 1] == x then p else p + [s[|s| - 1]]
  }

  lemma WithoutOfAppend(s: seq<Value>, x: Value)
    requires x !in s
    ensures Without(s + [x], x) == s
  {
    assert (s + [x])[..|s|] == s;
  }

  /** The state the constructor leaves behind. */
  datatype Built = Built(
    frame: Frame,
    dataCols: seq<Value>,
    weightCol: Value,
    seededData: Option<seq<seq<int>>>,
    seededLabels: Option<map<Value, seq<Value>>>)

  /** `StaticEntity.__init__`: build the table, assign the weight column,
      take every other column as a data column, then remove duplicate rows
      (aggregating the weights by `aggregateby`). An array also seeds the
      `data` cache with itself and, when the label dictionary has one entry
      per column, renames the columns and seeds the `labels` cache. */
  function Init(raw: RawData, labels: LabelArg, weights: EntityWeights, aggregateby: Option<string>): (r: Result<Built>)
    requires RawValid(raw, labels)
    ensures r.Ok? ==> (r.value.seededData.Some? <==> raw.Array?)
    ensures r.Ok? && raw.Array? ==> r.value.seededData == Some(raw.cells)
    ensures r.Ok? ==> (r.value.seededLabels.Some? <==> LabelsMatch(raw, labels))
  {
    var f0 := InitialFrame(raw, labels);
    var (f1, wc) := AssignWeights(f0, weights, DefaultWeightCol);
    var dataCols := Without(f1.columns, wc);
    match RemoveRowDuplicates(f1, dataCols, WeightName(wc), aggregateby)
    case Err(e) => Err(e)
    case Ok((f2, _)) =>
      Ok(Built(f2, dataCols, wc,
               if raw.Array? then Some(raw.cells) else None,
               if LabelsMatch(raw, labels) then Some(LabelMap(labels)) else None))
  }

  /** What construction guarantees about the shape of the table: the weight
      column is one of its columns, the data columns are all the others,
      distinct, and labels are only ever seeded together with the data. */
  predicate BuiltShape(b: Built)
  {
    WellFormed(b.frame) && b.weightCol in b.frame.columns && b.weightCol !in b.dataCols
    && NoDup(b.dataCols) && b.dataCols == Without(b.frame.columns, b.weightCol)
    && (b.seededLabels.Some? ==> b.seededData.Some?)
  }

  lemma InitShape(raw: RawData, labels: LabelArg, weights: EntityWeights, aggregateby: Option<string>)
    requires RawValid(raw, labels) && Init(raw, labels, weights, aggregateby).Ok?
    ensures BuiltShape(Init(raw, labels, weights, aggregateby).value)
  {
    var f0 := InitialFrame(raw, labels);
    var (f1, wc) := AssignWeights(f0, weights, DefaultWeightCol);
    var dataCols := Without(f1.columns, wc);
    var f2 := RemoveRowDuplicates(f1, dataCols, WeightName(wc), aggregateby).value.0;
    assert f2.columns == f1.columns || f2.columns == dataCols + [wc] by {
      if aggregateby.Some? {
        var idx := Positions(f1.columns, dataCols).value;
        var m := ParseReduction(aggregateby.value).value;
        assert AssignWeights(f1, WeightName(wc), DefaultWeightCol) == (f1, wc);
        GroupedLayout(f1.columns, dataCols, idx, wc, m);
      }
    }
    assert f2.columns == dataCols + [wc] ==> dataCols == Without(f2.columns, wc) by {
      if f2.columns == dataCols + [wc] {
        WithoutOfAppend(dataCols, wc);
      }
    }
  }

  /** `dimsize`: the number of columns other than the weight column; the
      weight column is either a column of the input or the one added. */
  lemma InitDimsize(raw: RawData, labels: LabelArg, weights: EntityWeights, aggregateby: Option<string>)
    requires RawValid(raw, labels) && Init(raw, labels, weights, aggregateby).Ok?
    ensures var b := Init(raw, labels, weights, aggregateby).value;
            |b.dataCols| == |b.frame.columns| - 1
    ensures var b := Init(raw, labels, weights, aggregateby).value;
            var f0 := InitialFrame(raw, labels);
            |b.dataCols| == |f0.columns| - (if AssignWeights(f0, weights, DefaultWeightCol).0.columns == f0.columns then 1 else 0)
  {
    InitShape(raw, labels, weights, aggregateby);
    var b := Init(raw, labels, weights, aggregateby).value;
    assert b.weightCol in b.frame.columns;
    var f0 := InitialFrame(raw, labels);
    var (f1, wc) := AssignWeights(f0, weights, DefaultWeightCol);
    assert b.dataCols == Without(f1.columns, wc);
  }

  /** After construction no two rows share a data-column key. */
  lemma InitKeysDistinct(raw: RawData, labels: LabelArg, weights: EntityWeights, aggregateby: Option<string>)
    requires RawValid(raw, labels) && Init(raw, labels, weights, aggregateby).Ok?
    ensures var b := Init(raw, labels, weights, aggregateby).value;
            Positions(b.frame.columns, b.dataCols).Some?
            && NoDup(Keys(b.frame.rows, |b.frame.columns|, Positions(b.frame.columns, b.dataCols).value))
  {
    var f0 := InitialFrame(raw, labels);
    var (f1, wc) := AssignWeights(f0, weights, DefaultWeightCol);
    DeduplicatedKeysDistinct(f1, wc, aggregateby);
  }

  lemma DeduplicatedKeysDistinct(f: Frame, wc: Value, aggregateby: Option<string>)
    requires WellFormed(f) && wc in f.columns
    requires RemoveRowDuplicates(f, Without(f.columns, wc), WeightName(wc), aggregateby).Ok?
    ensures var dataCols := Without(f.columns, wc);
            var out := RemoveRowDuplicates(f, dataCols, WeightName(wc), aggregateby).value.0;
            Positions(out.columns, dataCols).Some?
            && NoDup(Keys(out.rows, |out.columns|, Positions(out.columns, dataCols).value))
  {
    var dataCols := Without(f.columns, wc);
    if aggregateby.None? {
      DropModeKeepsFirst(f, dataCols, WeightName(wc));
    } else {
      assert AssignWeights(f, WeightName(wc), DefaultWeightCol) == (f, wc);
      AggregateModeGroups(f, dataCols, WeightName(wc), aggregateby.value);
      var red := ParseReduction(aggregateby.value).value;
      AggregatedKeys(f, dataCols, wc, red);
      AggregatedRows(f, dataCols, wc, red);
      var out := Aggregated(f, dataCols, wc, red);
      PositionsOfPrefix(dataCols, wc);
      assert |out.columns| == |dataCols| + 1;
    }
  }

  // ---------------------------------------------------------------------------
  // The views

  /** The positions of the data columns. */
  function DataPositions(f: Frame, dataCols: seq<Value>): (idx: seq<nat>)
    requires forall c :: c in dataCols ==> c in f.columns
    ensures |idx| == |dataCols| && IdxBelow(idx, |f.columns|)
    ensures forall k :: 0 <= k < |dataCols| ==> f.columns[idx[k]] == dataCols[k]
  {
    Positions(f.columns, dataCols).value
  }

  /** `df[dataCols]`: the data columns only. */
  function DataFrameOf(f: Frame, dataCols: seq<Value>): (d: Frame)
    requires WellFormed(f) && NoDup(dataCols) && forall c :: c in dataCols ==> c in f.columns
    ensures WellFormed(d) && d.columns == dataCols && |d.rows| == |f.rows|
    ensures forall i, k :: 0 <= i < |f.rows| && 0 <= k < |dataCols| ==>
              d.rows[i][k] == f.rows[i][DataPositions(f, dataCols)[k]]
  {
    var idx := DataPositions(f, dataCols);
    Frame(dataCols, Keys(f.rows, |f.columns|, idx))
  }

  /** `labels`: each data column's category list. */
  function LabelsOf(f: Frame, dataCols: seq<Value>): map<Value, seq<Value>>
    requires WellFormed(f) && NoDup(dataCols) && forall c :: c in dataCols ==> c in f.columns
  {
    var cats := H.ColumnCategories(DataFrameOf(f, dataCols));
    assert |cats| == |dataCols|;
    assert forall k, l :: 0 <= k < |dataCols| && 0 <= l < |dataCols| && dataCols[k] == dataCols[l] ==> k == l;
    map k | 0 <= k < |dataCols| :: dataCols[k] := cats[k]
  }

  /** The labels cover exactly the data columns, each with its column's
      categories. */
  lemma LabelsOfCategories(f: Frame, dataCols: seq<Value>)
    requires WellFormed(f) && NoDup(dataCols) && forall c :: c in dataCols ==> c in f.columns
    ensures forall c :: c in LabelsOf(f, dataCols) <==> c in dataCols
    ensures forall k :: 0 <= k < |dataCols| ==>
              LabelsOf(f, dataCols)[dataCols[k]] == Categories(ColumnAt(DataFrameOf(f, dataCols).rows, |dataCols|, k))
  {
    forall k | 0 <= k < |dataCols|
      ensures LabelsOf(f, dataCols)[dataCols[k]] == Categories(ColumnAt(DataFrameOf(f, dataCols).rows, |dataCols|, k))
    {
      LabelAt(f, dataCols, k);
    }
  }

  lemma LabelAt(f: Frame, dataCols: seq<Value>, k: nat)
    requires WellFormed(f) && NoDup(dataCols) && forall c :: c in dataCols ==> c in f.columns
    requires k < |dataCols|
    ensures dataCols[k] in LabelsOf(f, dataCols)
    ensures LabelsOf(f, dataCols)[dataCols[k]] == Categories(ColumnAt(DataFrameOf(f, dataCols).rows, |dataCols|, k))
  {
    var cats := H.ColumnCategories(DataFrameOf(f, dataCols));
    IndexOfDistinct(dataCols, k);
    assert LabelsOf(f, dataCols)[dataCols[k]] == cats[k];
  }

  /** `data`: the category codes of the data columns. */
  function EncodeData(f: Frame, dataCols: seq<Value>): seq<seq<int>>
    requires WellFormed(f) && NoDup(dataCols) && forall c :: c in dataCols ==> c in f.columns
  {
    H.Encode(DataFrameOf(f, dataCols))
  }

  /** One row of codes per table row and one code per data column: -1
      exactly for a missing cell, otherwise a position in that column's
      label list that reads the cell back. */
  lemma EncodeDataDecodes(f: Frame, dataCols: seq<Value>)
    requires WellFormed(f) && NoDup(dataCols) && forall c :: c in dataCols ==> c in f.columns
    ensures var codes := EncodeData(f, dataCols);
            var labels := LabelsOf(f, dataCols);
            var idx := DataPositions(f, dataCols);
            |codes| == |f.rows|
            && (forall i :: 0 <= i < |codes| ==> |codes[i]| == |dataCols|)
            && (forall i, k :: 0 <= i < |codes| && 0 <= k < |dataCols| ==>
                  (codes[i][k] == -1 <==> f.rows[i][idx[k]] == Missing))
            && (forall i, k :: 0 <= i < |codes| && 0 <= k < |dataCols| && codes[i][k] != -1 ==>
                  0 <= codes[i][k] < |labels[dataCols[k]]| && labels[dataCols[k]][codes[i][k]] == f.rows[i][idx[k]])
  {
    LabelsOfCategories(f, dataCols);
  }

  /** `cell_weights`: each key's weight; a later row with the same key
      would overwrite an earlier one. */
  function CellWeightMap(rows: seq<Row>, w: nat, idx: seq<nat>, p: nat): map<Row, Value>
    requires RowsOfWidth(rows, w) && IdxBelow(idx, w) && p < w
    decreases |rows|
  {
    if rows == [] then map[]
    else
      var last := rows[|rows| - 1];
      CellWeightMap(rows[..|rows| - 1], w, idx, p)[Key(last, idx) := last[p]]
  }

  /** The keys of the weight dictionary are the rows' keys. */
  lemma {:induction false} CellWeightMapKeys(rows: seq<Row>, w: nat, idx: seq<nat>, p: nat)
    requires RowsOfWidth(rows, w) && IdxBelow(idx, w) && p < w
    ensures forall k :: k in CellWeightMap(rows, w, idx, p) <==> k in Keys(rows, w, idx)
    decreases |rows|
  {
    if rows != [] {
      var n := |rows| - 1;
      KeysPrefix(rows, w, idx, n);
      CellWeightMapKeys(rows[..n], w, idx, p);
      assert Keys(rows, w, idx) == Keys(rows[..n], w, idx) + [Key(rows[n], idx)];
    }
  }

  /** With distinct keys every row's key maps to that row's weight. */
  lemma {:induction false} CellWeightOfDistinct(rows: seq<Row>, w: nat, idx: seq<nat>, p: nat, i: nat)
    requires RowsOfWidth(rows, w) && IdxBelow(idx, w) && p < w && i < |rows|
    requires NoDup(Keys(rows, w, idx))
    ensures Key(rows[i], idx) in CellWeightMap(rows, w, idx, p)
            && CellWeightMap(rows, w, idx, p)[Key(rows[i], idx)] == rows[i][p]
    decreases |rows|
  {
    var n := |rows| - 1;
    KeysPrefix(rows, w, idx, n);
    if i < n {
      assert Keys(rows, w, idx)[i] != Keys(rows, w, idx)[n];
      assert NoDup(Keys(rows[..n], w, idx));
      CellWeightOfDistinct(rows[..n], w, idx, p, i);
      assert rows[..n][i] == rows[i];
    }
  }

  function CellWeightsOf(f: Frame, dataCols: seq<Value>, weightCol: Value): map<Row, Value>
    requires WellFormed(f) && weightCol in f.columns && forall c :: c in dataCols ==> c in f.columns
  {
    CellWeightMap(f.rows, |f.columns|, DataPositions(f, dataCols), IndexOf(f.columns, weightCol))
  }

  /** The distinct non-missing values of a column (`dropna().unique()` as a set). */
  function UidSetOf(f: Frame, c: nat): set<Value>
    requires WellFormed(f) && c < |f.columns|
  {
    set v | v in Categories(ColumnAt(f.rows, |f.columns|, c))
  }

  /** A value is in a column's uid set exactly when it is not missing and
      some row holds it there. */
  lemma UidSetOfMembers(f: Frame, c: nat)
    requires WellFormed(f) && c < |f.columns|
    ensures forall v :: v in UidSetOf(f, c) <==> v != Missing && exists i :: 0 <= i < |f.rows| && f.rows[i][c] == v
  {
    var col := ColumnAt(f.rows, |f.columns|, c);
    forall v | v in col ensures exists i :: 0 <= i < |f.rows| && f.rows[i][c] == v {
      var i :| 0 <= i < |col| && col[i] == v;
    }
    forall v | exists i :: 0 <= i < |f.rows| && f.rows[i][c] == v ensures v in col {
      var i :| 0 <= i < |f.rows| && f.rows[i][c] == v;
      assert col[i] == v;
    }
  }

  lemma {:induction false} DistinctCardinality(s: seq<Value>)
    requires NoDup(s)
    ensures |set v | v in s| == |s|
    decreases |s|
  {
    if s != [] {
      var p := s[..|s| - 1];
      assert NoDup(p);
      DistinctCardinality(p);
      assert (set v | v in s) == (set v | v in p) + {s[|s| - 1]} by {
        assert s == p + [s[|s| - 1]];
      }
      assert s[|s| - 1] !in p;
    }
  }

  /** `dimensions`: the number of distinct non-missing values of each data
      column, which is the size of its uid set. */
  function DimensionsOf(f: Frame, dataCols: seq<Value>): seq<nat>
    requires WellFormed(f) && forall c :: c in dataCols ==> c in f.columns
  {
    var idx := DataPositions(f, dataCols);
    seq(|dataCols|, k requires 0 <= k < |dataCols| => NUnique(ColumnAt(f.rows, |f.columns|, idx[k])))
  }

  /** One size per data column, the size of that column's uid set. */
  lemma DimensionsAreUidSetSizes(f: Frame, dataCols: seq<Value>)
    requires WellFormed(f) && forall c :: c in dataCols ==> c in f.columns
    ensures |DimensionsOf(f, dataCols)| == |dataCols|
    ensures forall k :: 0 <= k < |dataCols| ==>
              DimensionsOf(f, dataCols)[k] == |UidSetOf(f, DataPositions(f, dataCols)[k])|
  {
    var idx := DataPositions(f, dataCols);
    forall k | 0 <= k < |dataCols| ensures DimensionsOf(f, dataCols)[k] == |UidSetOf(f, idx[k])| {
      DistinctCardinality(Categories(ColumnAt(f.rows, |f.columns|, idx[k])));
    }
  }

  /** The cells of column c2 in the rows whose c1 cell is k, in row order. */
  function CellsWhere(rows: seq<Row>, w: nat, c1: nat, k: Value, c2: nat): seq<Value>
    requires RowsOfWidth(rows, w) && c1 < w && c2 < w
    decreases |rows|
  {
    if rows == [] then []
    else
      var last := rows[|rows| - 1];
      CellsWhere(rows[..|rows| - 1], w, c1, k, c2) + (if last[c1] == k then [last[c2]] else [])
  }

  /** The listed cells are exactly the c2 cells of the rows whose c1 cell is k. */
  lemma {:induction false} CellsWhereMembers(rows: seq<Row>, w: nat, c1: nat, k: Value, c2: nat)
    requires RowsOfWidth(rows, w) && c1 < w && c2 < w
    ensures forall v :: v in CellsWhere(rows, w, c1, k, c2) <==>
              exists i :: 0 <= i < |rows| && rows[i][c1] == k && rows[i][c2] == v
    decreases |rows|
  {
    if rows != [] {
      var n := |rows| - 1;
      var q := rows[..n];
      CellsWhereMembers(q, w, c1, k, c2);
      assert forall i :: 0 <= i < n ==> q[i] == rows[i];
      forall v | exists i :: 0 <= i < |rows| && rows[i][c1] == k && rows[i][c2] == v
        ensures v in CellsWhere(rows, w, c1, k, c2)
      {
        var i :| 0 <= i < |rows| && rows[i][c1] == k && rows[i][c2] == v;
        if i < n {
          assert q[i][c1] == k && q[i][c2] == v;
        }
      }
    }
  }

  /** `groupby(c1)[c2].apply(list).to_dict()`. */
  function ElementsOf(f: Frame, c1: nat, c2: nat): map<Value, seq<Value>>
    requires WellFormed(f) && c1 < |f.columns| && c2 < |f.columns|
  {
    map k | k in UidSetOf(f, c1) :: CellsWhere(f.rows, |f.columns|, c1, k, c2)
  }

  /** Every non-missing value of c1 is a key, mapped to the c2 cells of its
      rows in row order; a value is listed under k exactly when some row
      holds k and that value. */
  lemma ElementsOfMembers(f: Frame, c1: nat, c2: nat)
    requires WellFormed(f) && c1 < |f.columns| && c2 < |f.columns|
    ensures forall k :: k in ElementsOf(f, c1, c2) <==>
              k != Missing && exists i :: 0 <= i < |f.rows| && f.rows[i][c1] == k
    ensures forall k :: k in ElementsOf(f, c1, c2) ==> ElementsOf(f, c1, c2)[k] == CellsWhere(f.rows, |f.columns|, c1, k, c2)
    ensures forall k, v :: k in ElementsOf(f, c1, c2) ==>
              (v in ElementsOf(f, c1, c2)[k] <==> exists i :: 0 <= i < |f.rows| && f.rows[i][c1] == k && f.rows[i][c2] == v)
  {
    UidSetOfMembers(f, c1);
    forall k {
      CellsWhereMembers(f.rows, |f.columns|, c1, k, c2);
    }
  }

  /** Memberships are elements read the other way round: a non-missing `v`
      is listed under `k` exactly when `k` is listed under `v`. */
  lemma ElementsMembershipsConverse(f: Frame, c1: nat, c2: nat, k: Value, v: Value)
    requires WellFormed(f) && c1 < |f.columns| && c2 < |f.columns| && k != Missing && v != Missing
    ensures (k in ElementsOf(f, c1, c2) && v in ElementsOf(f, c1, c2)[k])
        <==> (v in ElementsOf(f, c2, c1) && k in ElementsOf(f, c2, c1)[v])
  {
    ElementsOfMembers(f, c1, c2);
    ElementsOfMembers(f, c2, c1);
  }

  // ---------------------------------------------------------------------------
  // The entity object and its memoised views

  /** A static entity: the table never changes after construction, and each
      view is computed on first access and kept in the state dictionary
      (modelled as one optional field per dictionary entry). */
  class StaticEntity {
    const frame: Frame
    const dataCols: seq<Value>
    const cellWeightCol: Value
    const dimsize: nat
    const seededData: Option<seq<seq<int>>>
    const seededLabels: Option<map<Value, seq<Value>>>

    var data: Option<seq<seq<int>>>
    var labels: Option<map<Value, seq<Value>>>
    var cellWeights: Option<map<Row, Value>>
    var dimensions: Option<seq<nat>>
    var uidset: Option<map<Value, set<Value>>>
    var elements: Option<map<Value, map<Value, map<Value, seq<Value>>>>>

    /** The table's shape, and every cached view equal to what computing it
        afresh would give (an array passed to the constructor stands in for
        the codes, and its label dictionary for the labels). */
    predicate Valid()
      reads this
    {
      Shape()
      && (seededData.Some? ==> data == seededData)
      && (seededLabels.Some? ==> labels == seededLabels)
      && (data.Some? && seededData.None? ==> labels.Some? && DataCoherent(frame, dataCols, data.value))
      && (labels.Some? && seededLabels.None? ==> LabelsCoherent(frame, dataCols, labels.value))
      && (cellWeights.Some? ==> WeightsCoherent(frame, dataCols, cellWeightCol, cellWeights.value))
      && (dimensions.Some? ==> DimensionsCoherent(frame, dataCols, dimensions.value))
      && (uidset.Some? ==> UidsetCoherent(frame, uidset.value))
      && (elements.Some? ==> ElementsCoherent(frame, elements.value))
    }

    /** What construction fixes for good: the table's shape and the data
        columns, every column but the weight column. */
    predicate Shape()
    {
      WellFormed(frame) && cellWeightCol in frame.columns
      && dataCols == Without(frame.columns, cellWeightCol) && NoDup(dataCols)
      && dimsize == |dataCols|
      && (seededLabels.Some? ==> seededData.Some?)
    }

    /** `StaticEntity(data, labels=..., weights=..., aggregateby=...)`: the
        table built by `Init` is installed with empty caches (apart from
        the seeded ones). `InitShape` shows every table `Init` builds meets
        the precondition. */
    constructor (b: Built)
      requires BuiltShape(b)
      ensures Valid()
      ensures frame == b.frame && dataCols == b.dataCols && cellWeightCol == b.weightCol
              && data == b.seededData && labels == b.seededLabels
      ensures cellWeights == None && dimensions == None && uidset == None && elements == None
    {
      frame := b.frame;
      dataCols := b.dataCols;
      cellWeightCol := b.weightCol;
      dimsize := |b.dataCols|;
      seededData := b.seededData;
      seededLabels := b.seededLabels;
      data := b.seededData;
      labels := b.seededLabels;
      cellWeights := None;
      dimensions := None;
      uidset := None;
      elements := None;
    }

    /** `data`: the category codes of the data columns; the first access
        also caches the labels. */
    method Data() returns (d: seq<seq<int>>)
      requires Valid()
      modifies this
      ensures Valid()
      ensures d == (if seededData.Some? then seededData.value else EncodeData(frame, dataCols))
      ensures data == Some(d)
      ensures old(data).Some? ==> labels == old(labels)
      ensures old(data).None? ==> labels == Some(LabelsOf(frame, dataCols))
      ensures cellWeights == old(cellWeights) && dimensions == old(dimensions)
      ensures uidset == old(uidset) && elements == old(elements)
    {
      if data.None? {
        data := Some(EncodeData(frame, dataCols));
        labels := Some(LabelsOf(frame, dataCols));
      }
      d := data.value;
    }

    /** `cell_weights`: each data-column key's weight. */
    method CellWeights() returns (cw: map<Row, Value>)
      requires Valid()
      modifies this
      ensures Valid()
      ensures cw == CellWeightsOf(frame, dataCols, cellWeightCol) && cellWeights == Some(cw)
      ensures data == old(data) && labels == old(labels) && dimensions == old(dimensions)
      ensures uidset == old(uidset) && elements == old(elements)
    {
      if cellWeights.None? {
        cellWeights := Some(CellWeightsOf(frame, dataCols, cellWeightCol));
      }
      cw := cellWeights.value;
    }

    /** `dimensions`: the number of distinct values of each data column. */
    method Dimensions() returns (dims: seq<nat>)
      requires Valid()
      modifies this
      ensures Valid()
      ensures dims == DimensionsOf(frame, dataCols) && dimensions == Some(dims)
      ensures |dims| == dimsize
      ensures data == old(data) && labels == old(labels) && cellWeights == old(cellWeights)
      ensures uidset == old(uidset) && elements == old(elements)
    {
      if dimensions.None? {
        dimensions := Some(DimensionsOf(frame, dataCols));
      }
      dims := dimensions.value;
    }

    /** `uidset_by_column`: the distinct values of a column; the cache
        dictionary is created even when the column does not exist. */
    method UidsetByColumn(column: Value) returns (r: Result<set<Value>>)
      requires Valid()
      modifies this
      ensures Valid()
      ensures column in frame.columns ==> r == Ok(UidSetOf(frame, IndexOf(frame.columns, column)))
      ensures column !in frame.columns ==> r == Err(KeyError)
      ensures uidset == Some(UidsetAfter(frame, if old(uidset).Some? then old(uidset).value else map[], column))
      ensures data == old(data) && labels == old(labels) && cellWeights == old(cellWeights)
      ensures dimensions == old(dimensions) && elements == old(elements)
    {
      var before := if uidset.Some? then uidset.value else map[];
      if column !in before && column in frame.columns {
        UidsetCoherentUpdate(frame, before, column);
        before := before[column := UidSetOf(frame, IndexOf(frame.columns, column))];
      }
      StoreUidset(before);
      r := if column in before then Ok(before[column]) else Err(KeyError);
    }

    /** Replaces the uid-set cache by one that agrees with the table. */
    method StoreUidset(cache: map<Value, set<Value>>)
      requires Valid() && UidsetCoherent(frame, cache)
      modifies this
      ensures Valid() && uidset == Some(cache)
      ensures data == old(data) && labels == old(labels) && cellWeights == old(cellWeights)
      ensures dimensions == old(dimensions) && elements == old(elements)
    {
      uidset := Some(cache);
    }

    /** `uidset_by_level`: the distinct values of the data column at a
        Python index (negative counts from the end). */
    method UidsetByLevel(level: int) returns (r: Result<set<Value>>)
      requires Valid()
      modifies this
      ensures Valid()
      ensures PyIndex(|dataCols|, level).None? ==> r == Err(IndexError) && uidset == old(uidset)
      ensures PyIndex(|dataCols|, level).Some? ==>
                r == Ok(UidSetOf(frame, DataPositions(frame, dataCols)[PyIndex(|dataCols|, level).value]))
      ensures data == old(data) && labels == old(labels) && cellWeights == old(cellWeights)
      ensures dimensions == old(dimensions) && elements == old(elements)
    {
      var i := PyIndex(|dataCols|, level);
      if i.None? {
        return Err(IndexError);
      }
      var c := dataCols[i.value];
      assert DataPositions(frame, dataCols)[i.value] == IndexOf(frame.columns, c);
      r := UidsetByColumn(c);
    }

    /** `uidset`: the distinct values at level 0. */
    method Uidset() returns (r: Result<set<Value>>)
      requires Valid()
      modifies this
      ensures Valid()
      ensures |dataCols| == 0 ==> r == Err(IndexError)
      ensures |dataCols| > 0 ==> r == Ok(UidSetOf(frame, DataPositions(frame, dataCols)[0]))
      ensures data == old(data) && labels == old(labels) && cellWeights == old(cellWeights)
      ensures dimensions == old(dimensions) && elements == old(elements)
    {
      r := UidsetByLevel(0);
    }

    /** `children`: the distinct values at level 1. */
    method Children() returns (r: Result<set<Value>>)
      requires Valid()
      modifies this
      ensures Valid()
      ensures |dataCols| < 2 ==> r == Err(IndexError)
      ensures |dataCols| >= 2 ==> r == Ok(UidSetOf(frame, DataPositions(frame, dataCols)[1]))
      ensures data == old(data) && labels == old(labels) && cellWeights == old(cellWeights)
      ensures dimensions == old(dimensions) && elements == old(elements)
    {
      r := UidsetByLevel(1);
    }

    /** `elements_by_column`: for each value of `col1`, the `col2` cells of
        its rows. */
    method ElementsByColumn(col1: Value, col2: Value) returns (r: Result<map<Value, seq<Value>>>)
      requires Valid()
      modifies this
      ensures Valid()
      ensures col1 in frame.columns && col2 in frame.columns ==>
                r == Ok(ElementsOf(frame, IndexOf(frame.columns, col1), IndexOf(frame.columns, col2)))
      ensures !(col1 in frame.columns && col2 in frame.columns) ==> r == Err(KeyError)
      ensures elements == Some(ElementsAfter(frame, if old(elements).Some? then old(elements).value else map[], col1, col2))
      ensures data == old(data) && labels == old(labels) && cellWeights == old(cellWeights)
      ensures dimensions == old(dimensions) && uidset == old(uidset)
    {
      var es0: map<Value, map<Value, map<Value, seq<Value>>>> := if elements.None? then map[] else elements.value;
      var es := CacheElements(frame, es0, col1, col2);
      StoreElements(es);
      r := if col1 in frame.columns && col2 in frame.columns then Ok(es[col1][col2]) else Err(KeyError);
    }

    /** Replaces the element cache by one that agrees with the table. */
    method StoreElements(cache: map<Value, map<Value, map<Value, seq<Value>>>>)
      requires Valid() && ElementsCoherent(frame, cache)
      modifies this
      ensures Valid() && elements == Some(cache)
      ensures data == old(data) && labels == old(labels) && cellWeights == old(cellWeights)
      ensures dimensions == old(dimensions) && uidset == old(uidset)
    {
      elements := Some(cache);
    }

    /** `elements_by_level`: the columns are picked among the data columns
        by Python index. */
    method ElementsByLevel(level1: int, level2: int) returns (r: Result<map<Value, seq<Value>>>)
      requires Valid()
      modifies this
      ensures Valid()
      ensures PyIndex(|dataCols|, level1).None? || PyIndex(|dataCols|, level2).None? ==>
                r == Err(IndexError) && elements == old(elements)
      ensures PyIndex(|dataCols|, level1).Some? && PyIndex(|dataCols|, level2).Some? ==>
                r == Ok(ElementsOf(frame, DataPositions(frame, dataCols)[PyIndex(|dataCols|, level1).value],
                                   DataPositions(frame, dataCols)[PyIndex(|dataCols|, level2).value]))
      ensures data == old(data) && labels == old(labels) && cellWeights == old(cellWeights)
      ensures dimensions == old(dimensions) && uidset == old(uidset)
    {
      var i := PyIndex(|dataCols|, level1);
      var j := PyIndex(|dataCols|, level2);
      if i.None? || j.None? {
        return Err(IndexError);
      }
      var idx := DataPositions(frame, dataCols);
      IndexOfDistinct(frame.columns, idx[i.value]);
      IndexOfDistinct(frame.columns, idx[j.value]);
      r := ElementsByColumn(dataCols[i.value], dataCols[j.value]);
    }

    /** `elements`: the second data column's values grouped by the first's. */
    method Elements() returns (r: Result<map<Value, seq<Value>>>)
      requires Valid()
      modifies this
      ensures Valid()
      ensures |dataCols| < 2 ==> r == Err(IndexError)
      ensures |dataCols| >= 2 ==>
                r == Ok(ElementsOf(frame, DataPositions(frame, dataCols)[0], DataPositions(frame, dataCols)[1]))
      ensures data == old(data) && labels == old(labels) && cellWeights == old(cellWeights)
      ensures dimensions == old(dimensions) && uidset == old(uidset)
    {
      r := ElementsByLevel(0, 1);
    }

    /** `memberships`: the same grouping with the levels swapped. */
    method Memberships() returns (r: Result<map<Value, seq<Value>>>)
      requires Valid()
      modifies this
      ensures Valid()
      ensures |dataCols| < 2 ==> r == Err(IndexError)
      ensures |dataCols| >= 2 ==>
                r == Ok(ElementsOf(frame, DataPositions(frame, dataCols)[1], DataPositions(frame, dataCols)[0]))
      ensures data == old(data) && labels == old(labels) && cellWeights == old(cellWeights)
      ensures dimensions == old(dimensions) && uidset == old(uidset)
    {
      r := ElementsByLevel(1, 0);
    }

    /** `size(level)`: the number of distinct values at a level. */
    method Size(level: int) returns (r: Result<nat>)
      requires Valid()
      modifies this
      ensures Valid()
      ensures PyIndex(dimsize, level).None? ==> r == Err(IndexError)
      ensures PyIndex(dimsize, level).Some? ==>
                r == Ok(|UidSetOf(frame, DataPositions(frame, dataCols)[PyIndex(dimsize, level).value])|)
      ensures dimensions == Some(DimensionsOf(frame, dataCols))
      ensures data == old(data) && labels == old(labels) && cellWeights == old(cellWeights)
      ensures uidset == old(uidset) && elements == old(elements)
    {
      var dims := Dimensions();
      DimensionsAreUidSetSizes(frame, dataCols);
      var i := PyIndex(|dims|, level);
      if i.None? {
        return Err(IndexError);
      }
      r := Ok(dims[i.value]);
    }

    /** `is_empty(level)`: whether a level has no values. */
    method IsEmpty(level: int) returns (r: Result<bool>)
      requires Valid()
      modifies this
      ensures Valid()
      ensures PyIndex(dimsize, level).None? ==> r == Err(IndexError)
      ensures PyIndex(dimsize, level).Some? ==>
                r == Ok(UidSetOf(frame, DataPositions(frame, dataCols)[PyIndex(dimsize, level).value]) == {})
      ensures dimensions == Some(DimensionsOf(frame, dataCols))
      ensures data == old(data) && labels == old(labels) && cellWeights == old(cellWeights)
      ensures uidset == old(uidset) && elements == old(elements)
    {
      var s := Size(level);
      if s.Err? {
        return Err(s.error);
      }
      r := Ok(s.value == 0);
    }

    /** `len(entity)`: the number of distinct values at level 0. */
    method Len() returns (r: Result<nat>)
      requires Valid()
      modifies this
      ensures Valid()
      ensures dimsize == 0 ==> r == Err(IndexError)
      ensures dimsize > 0 ==> r == Ok(|UidSetOf(frame, DataPositions(frame, dataCols)[0])|)
      ensures dimensions == Some(DimensionsOf(frame, dataCols))
      ensures data == old(data) && labels == old(labels) && cellWeights == old(cellWeights)
      ensures uidset == old(uidset) && elements == old(elements)
    {
      var dims := Dimensions();
      DimensionsAreUidSetSizes(frame, dataCols);
      if |dims| == 0 {
        return Err(IndexError);
      }
      r := Ok(dims[0]);
    }

    /** `entity[item]`: the elements of one level-0 value. */
    method GetItem(item: Value) returns (r: Result<seq<Value>>)
      requires Valid()
      modifies this
      ensures Valid()
      ensures |dataCols| < 2 ==> r == Err(IndexError)
      ensures |dataCols| >= 2 ==>
                var e := ElementsOf(frame, DataPositions(frame, dataCols)[0], DataPositions(frame, dataCols)[1]);
                r == (if item in e then Ok(e[item]) else Err(KeyError))
      ensures data == old(data) && labels == old(labels) && cellWeights == old(cellWeights)
      ensures dimensions == old(dimensions) && uidset == old(uidset)
    {
      var es := Elements();
      if es.Err? {
        return Err(es.error);
      }
      if item !in es.value {
        return Err(KeyError);
      }
      r := Ok(es.value[item]);
    }
  }

  /** Every cached uid set is that of its column. */
  predicate UidsetCoherent(f: Frame, cache: map<Value, set<Value>>)
    requires WellFormed(f)
  {
    forall c :: c in cache ==> c in f.columns && cache[c] == UidSetOf(f, IndexOf(f.columns, c))
  }

  /** Every cached element dictionary is that of its pair of columns. */
  predicate ElementsCoherent(f: Frame, cache: map<Value, map<Value, map<Value, seq<Value>>>>)
    requires WellFormed(f)
  {
    forall c1, c2 :: c1 in cache && c2 in cache[c1] ==>
      c1 in f.columns && c2 in f.columns
      && cache[c1][c2] == ElementsOf(f, IndexOf(f.columns, c1), IndexOf(f.columns, c2))
  }

  lemma UidsetCoherentUpdate(f: Frame, cache: map<Value, set<Value>>, c: Value)
    requires WellFormed(f) && UidsetCoherent(f, cache) && c in f.columns
    ensures UidsetCoherent(f, cache[c := UidSetOf(f, IndexOf(f.columns, c))])
  {
  }

  lemma ElementsCached(f: Frame, cache: map<Value, map<Value, map<Value, seq<Value>>>>, c1: Value, c2: Value)
    requires WellFormed(f) && ElementsCoherent(f, cache) && c1 in cache && c2 in cache[c1]
    ensures c1 in f.columns && c2 in f.columns
    ensures cache[c1][c2] == ElementsOf(f, IndexOf(f.columns, c1), IndexOf(f.columns, c2))
  {
  }

  lemma ElementsCoherentUpdate(f: Frame, cache: map<Value, map<Value, map<Value, seq<Value>>>>, c1: Value, c2: Value,
                                next: map<Value, map<Value, map<Value, seq<Value>>>>)
    requires WellFormed(f) && ElementsCoherent(f, cache) && c1 in f.columns && c2 in f.columns
    requires next == cache[c1 := (if c1 in cache then cache[c1] else map[])[c2 := ElementsOf(f, IndexOf(f.columns, c1), IndexOf(f.columns, c2))]]
    ensures ElementsCoherent(f, next)
  {
    forall a, b | a in next && b in next[a]
      ensures a in f.columns && b in f.columns
      ensures next[a][b] == ElementsOf(f, IndexOf(f.columns, a), IndexOf(f.columns, b))
    {
      if a != c1 || b != c2 {
        assert a in cache && b in cache[a] && next[a][b] == cache[a][b];
        ElementsCached(f, cache, a, b);
      }
    }
  }

  predicate DataCoherent(f: Frame, dataCols: seq<Value>, codes: seq<seq<int>>)
    requires WellFormed(f) && NoDup(dataCols) && forall c :: c in dataCols ==> c in f.columns
  {
    codes == EncodeData(f, dataCols)
  }

  predicate LabelsCoherent(f: Frame, dataCols: seq<Value>, labels: map<Value, seq<Value>>)
    requires WellFormed(f) && NoDup(dataCols) && forall c :: c in dataCols ==> c in f.columns
  {
    labels == LabelsOf(f, dataCols)
  }

  predicate WeightsCoherent(f: Frame, dataCols: seq<Value>, weightCol: Value, weights: map<Row, Value>)
    requires WellFormed(f) && weightCol in f.columns && forall c :: c in dataCols ==> c in f.columns
  {
    weights == CellWeightsOf(f, dataCols, weightCol)
  }

  predicate DimensionsCoherent(f: Frame, dataCols: seq<Value>, dims: seq<nat>)
    requires WellFormed(f) && forall c :: c in dataCols ==> c in f.columns
  {
    dims == DimensionsOf(f, dataCols)
  }

  /** The uid-set cache after a lookup of `c`: a new column is added, a
      cached or unknown one leaves it as it was. */
  function UidsetAfter(f: Frame, before: map<Value, set<Value>>, c: Value): map<Value, set<Value>>
    requires WellFormed(f)
  {
    if c in before || c !in f.columns then before
    else before[c := UidSetOf(f, IndexOf(f.columns, c))]
  }

  /** The element cache after a lookup of `(c1, c2)`. */
  function ElementsAfter(f: Frame, before: map<Value, map<Value, map<Value, seq<Value>>>>, c1: Value, c2: Value)
    : map<Value, map<Value, map<Value, seq<Value>>>>
    requires WellFormed(f)
  {
    if c1 in before && c2 in before[c1] then before
    else if !(c1 in f.columns && c2 in f.columns) then before
    else before[c1 := (if c1 in before then before[c1] else map[])[c2 := ElementsOf(f, IndexOf(f.columns, c1), IndexOf(f.columns, c2))]]
  }

  /** The element cache after one `elements_by_column` call: a cached entry
      is reused, a missing one is computed and stored, unknown columns
      leave the cache as it was. */
  method CacheElements(f: Frame, cache: map<Value, map<Value, map<Value, seq<Value>>>>, c1: Value, c2: Value)
    returns (next: map<Value, map<Value, map<Value, seq<Value>>>>)
    requires WellFormed(f) && ElementsCoherent(f, cache)
    ensures next == ElementsAfter(f, cache, c1, c2) && ElementsCoherent(f, next)
    ensures c1 in f.columns && c2 in f.columns ==>
              c1 in next && c2 in next[c1]
              && next[c1][c2] == ElementsOf(f, IndexOf(f.columns, c1), IndexOf(f.columns, c2))
  {
    next := cache;
    if c1 in cache && c2 in cache[c1] {
      ElementsCached(f, cache, c1, c2);
    } else if c1 in f.columns && c2 in f.columns {
      var inner: map<Value, map<Value, seq<Value>>> := if c1 in cache then cache[c1] else map[];
      next := cache[c1 := inner[c2 := ElementsOf(f, IndexOf(f.columns, c1), IndexOf(f.columns, c2))]];
      ElementsCoherentUpdate(f, cache, c1, c2, next);
    }
  }
}
