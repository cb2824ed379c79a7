/** The table helpers of `hypernetx/classes/helpers.py`: weight-column
    assignment, duplicate-row removal or aggregation, categorical encoding,
    and the small dictionary utilities. */
module Helpers {
  import opened Values
  import opened Seqs
  import opened CategoryCodes
  import opened Frames

  const DefaultWeightCol: Value := Str("cell_weights")

  // ---------------------------------------------------------------------------
  // encode

  /** `data.apply(lambda x: x.cat.codes).to_numpy()`: the category codes of
      every cell, one row per table row and one entry per column. */
  function Encode(df: Frame): (m: seq<seq<int>>)
    requires WellFormed(df)
    ensures |m| == |df.rows|
    ensures forall i :: 0 <= i < |m| ==> |m[i]| == |df.columns|
    ensures forall i, c :: 0 <= i < |m| && 0 <= c < |df.columns| ==>
              (m[i][c] == -1 <==> df.rows[i][c] == Missing)
    ensures forall i, c :: 0 <= i < |m| && 0 <= c < |df.columns| && m[i][c] != -1 ==>
              var cats := Categories(ColumnAt(df.rows, |df.columns|, c));
              0 <= m[i][c] < |cats| && cats[m[i][c]] == df.rows[i][c]
  {
    var w := |df.columns|;
    var codes := seq(w, c requires 0 <= c < w => EncodeColumn(ColumnAt(df.rows, w, c)));
    seq(|df.rows|, i requires 0 <= i < |df.rows| => seq(w, c requires 0 <= c < w => codes[c][i]))
  }

  /** Each column's category list, in column order. */
  function ColumnCategories(df: Frame): (cats: seq<seq<Value>>)
    requires WellFormed(df)
    ensures |cats| == |df.columns|
    ensures forall c :: 0 <= c < |cats| ==> NoDup(cats[c])
  {
    var w := |df.columns|;
    seq(w, c requires 0 <= c < w => Categories(ColumnAt(df.rows, w, c)))
  }

  /** Reading codes back through per-column category lists. */
  function DecodeMatrix(cats: seq<seq<Value>>, m: seq<seq<int>>): (rows: seq<Row>)
    ensures |rows| == |m|
  {
    seq(|m|, i requires 0 <= i < |m| =>
      seq(|m[i]|, c requires 0 <= c < |m[i]| =>
        if c < |cats| && 0 <= m[i][c] < |cats[c]| then cats[c][m[i][c]] else Missing))
  }

  /** The encoding loses nothing: decoding it gives the table's rows back. */
  lemma DecodeEncode(df: Frame)
    requires WellFormed(df)
    ensures DecodeMatrix(ColumnCategories(df), Encode(df)) == df.rows
  {
    var d := DecodeMatrix(ColumnCategories(df), Encode(df));
    forall i | 0 <= i < |df.rows| ensures d[i] == df.rows[i] {
    }
  }

  // ---------------------------------------------------------------------------
  // assign_weights

  /** The `weights` argument: a list (or array) of per-row weights, or any
      other value. */
  datatype Weights = WeightList(vals: seq<Value>) | WeightScalar(v: Value)

  /** A list replaces (or adds) the weight column and must have one entry per
      row (the engine raises ValueError otherwise); a scalar fills a new weight
      column only when that column does not exist yet. The weight column's
      name is always the one passed in. */
  function AssignWeights(df: Frame, weights: Weights, weightCol: Value): (r: Result<(Frame, Value)>)
    requires WellFormed(df)
    ensures r.Ok? ==> WellFormed(r.value.0) && r.value.1 == weightCol
    ensures r.Ok? ==> weightCol in r.value.0.columns && |r.value.0.rows| == |df.rows|
    ensures r.Ok? ==> r.value.0.columns == df.columns || r.value.0.columns == df.columns + [weightCol]
    ensures r.Ok? ==> forall c :: c in df.columns && c != weightCol ==> Column(r.value.0, c) == Column(df, c)
    ensures weights.WeightList? ==>
              (r.Ok? <==> |weights.vals| == |df.rows|) &&
              (r.Ok? ==> Column(r.value.0, weightCol) == Some(weights.vals))
    ensures weights.WeightScalar? ==> r.Ok?
    ensures weights.WeightScalar? && weightCol in df.columns ==> r.value.0 == df
    ensures weights.WeightScalar? && weightCol !in df.columns ==>
              Column(r.value.0, weightCol) == Some(seq(|df.rows|, _ => weights.v))
  {
    match weights
    case WeightList(vals) =>
      if |vals| == |df.rows| then Ok((SetColumn(df, weightCol, vals), weightCol)) else Err(ValueError)
    case WeightScalar(v) =>
      if weightCol in df.columns then Ok((df, weightCol))
      else Ok((SetColumn(df, weightCol, seq(|df.rows|, _ => v)), weightCol))
  }

  // ---------------------------------------------------------------------------
  // remove_row_duplicates

  /** The `aggregateby` argument: absent, one method name for the weight
      column, or a mapping from column names to method names. */
  datatype AggregateBy = NoAggregation | ByName(name: string) | ByColumn(methods: seq<(Value, string)>)

  /** Python truthiness of `aggregateby`. */
  predicate Truthy(agg: AggregateBy)
  {
    match agg
    case NoAggregation => false
    case ByName(name) => name != ""
    case ByColumn(methods) => methods != []
  }

  /** `aggby = {col: "first" for col in columns}` followed by the update with
      `aggregateby`: existing keys keep their place, new keys go to the end. */
  function UpdateMethods(methods: seq<(Value, string)>, updates: seq<(Value, string)>): (r: seq<(Value, string)>)
    ensures |r| >= |methods|
    ensures forall i :: 0 <= i < |methods| ==> r[i].0 == methods[i].0
    ensures NoDup(EntryKeys(methods)) ==> NoDup(EntryKeys(r))
    decreases |updates|
  {
    if updates == [] then methods
    else
      var (c, m) := updates[0];
      var keys := EntryKeys(methods);
      var next := if c in keys then methods[IndexOf(keys, c) := (c, m)] else methods + [(c, m)];
      assert EntryKeys(next) == if c in keys then keys else keys + [c];
      UpdateMethods(next, updates[1..])
  }

  /** The keys of an ordered list of dict entries, in entry order. */
  function EntryKeys<T>(entries: seq<(Value, T)>): (ks: seq<Value>)
    ensures |ks| == |entries| && forall i :: 0 <= i < |entries| ==> ks[i] == entries[i].0
  {
    seq(|entries|, i requires 0 <= i < |entries| => entries[i].0)
  }

  function AggregationMethods(columns: seq<Value>, weightCol: Value, agg: AggregateBy): seq<(Value, string)>
  {
    var firsts := seq(|columns|, i requires 0 <= i < |columns| => (columns[i], "first"));
    match agg
    case NoAggregation => firsts
    case ByName(name) => UpdateMethods(firsts, [(weightCol, name)])
    case ByColumn(methods) => UpdateMethods(firsts, methods)
  }

  /** Resolves the method table into column positions and reductions: a name
      that is not a column is a KeyError, an unknown method an aggregation
      error. */
  function ResolveMethods(columns: seq<Value>, methods: seq<(Value, string)>): (r: Result<seq<(nat, Reduction)>>)
    ensures r.Ok? ==> |r.value| == |methods| && AggsBelow(r.value, |columns|)
    ensures r.Ok? ==> forall a :: 0 <= a < |methods| ==>
              columns[r.value[a].0] == methods[a].0 && ParseReduction(methods[a].1) == Some(r.value[a].1)
    ensures r.Err? <==> (exists a :: 0 <= a < |methods| &&
                          (methods[a].0 !in columns || ParseReduction(methods[a].1).None?))
  {
    if exists a :: 0 <= a < |methods| && methods[a].0 !in columns then Err(KeyError)
    else if exists a :: 0 <= a < |methods| && ParseReduction(methods[a].1).None? then Err(AggregationError)
    else Ok(seq(|methods|, a requires 0 <= a < |methods| =>
              (IndexOf(columns, methods[a].0), ParseReduction(methods[a].1).value)))
  }

  /** Drops or aggregates rows that repeat the same `dataCols` key. An empty
      table comes back unchanged with no weight column. With a falsy
      `aggregateby` the first row of each key is kept; otherwise the rows are
      grouped by the key (rows with a missing key cell are dropped), the
      weight column is reduced by the named method and every other column
      keeps its first value. */
  function RemoveRowDuplicates(df: Frame, dataCols: seq<Value>, weights: Weights, weightCol: Value, agg: AggregateBy)
    : (r: Result<(Frame, Option<Value>)>)
    requires WellFormed(df)
    ensures r.Ok? ==> WellFormed(r.value.0)
    ensures IsEmpty(df) ==> r == Ok((df, None))
    ensures !IsEmpty(df) && r.Ok? ==> r.value.1 == Some(weightCol)
    ensures !IsEmpty(df) && (exists j :: 0 <= j < |dataCols| && dataCols[j] !in df.columns) ==> r == Err(KeyError)
  {
    if IsEmpty(df) then Ok((df, None))
    else if Positions(df.columns, dataCols).None? then Err(KeyError)
    else
      match AssignWeights(df, weights, weightCol)
      case Err(e) => Err(e)
      case Ok((g, wc)) =>
        assert Positions(g.columns, dataCols).Some?;
        match Deduplicate(g, Positions(g.columns, dataCols).value, wc, agg)
        case Err(e) => Err(e)
        case Ok(out) => Ok((out, Some(wc)))
  }

  /** The step after the weights are in place, on key positions `idx`. */
  function Deduplicate(g: Frame, idx: seq<nat>, wc: Value, agg: AggregateBy): (r: Result<Frame>)
    requires WellFormed(g) && IdxBelow(idx, |g.columns|)
    ensures r.Ok? ==> WellFormed(r.value)
  {
    var w := |g.columns|;
    if !Truthy(agg) then
      Ok(Frame(g.columns, DropDuplicates(g.rows, w, idx)))
    else
      match ResolveMethods(g.columns, AggregationMethods(g.columns, wc, agg))
      case Err(e) => Err(e)
      case Ok(aggs) =>
        if idx == [] then Err(ValueError)
        else
          // every column is in the method table, so the layout is the input's
          AggregationLayout(g.columns, wc, agg, idx, aggs);
          Ok(Frame(GroupAggregateColumns(g.columns, idx, aggs), GroupAggregate(g.rows, w, idx, aggs)))
  }

  lemma AggregationMethodsKeys(columns: seq<Value>, weightCol: Value, agg: AggregateBy)
    requires NoDup(columns)
    ensures var methods := AggregationMethods(columns, weightCol, agg);
            |methods| >= |columns| && NoDup(EntryKeys(methods))
            && forall i :: 0 <= i < |columns| ==> methods[i].0 == columns[i]
  {
    var firsts := seq(|columns|, i requires 0 <= i < |columns| => (columns[i], "first"));
    assert EntryKeys(firsts) == columns;
  }

  /** A method table that resolves and starts with every column names each
      column once, in column order. */
  lemma ResolvedTableIsIdentity(columns: seq<Value>, methods: seq<(Value, string)>, aggs: seq<(nat, Reduction)>)
    requires NoDup(columns) && NoDup(EntryKeys(methods)) && |methods| >= |columns|
    requires forall i :: 0 <= i < |columns| ==> methods[i].0 == columns[i]
    requires ResolveMethods(columns, methods) == Ok(aggs)
    ensures |aggs| == |columns| && forall a :: 0 <= a < |aggs| ==> aggs[a].0 == a
  {
    if |aggs| > 0 {
      var last := |aggs| - 1;
      assert columns[aggs[last].0] == methods[last].0;
      assert methods[last].0 in columns;
    }
    forall a | 0 <= a < |aggs| ensures aggs[a].0 == a {
      IndexOfDistinct(columns, a);
    }
  }

  /** When every column carries a method, no grouping column is re-inserted
      and the output columns are the input columns in their order. */
  lemma AggregationLayout(columns: seq<Value>, weightCol: Value, agg: AggregateBy, idx: seq<nat>, aggs: seq<(nat, Reduction)>)
    requires NoDup(columns) && IdxBelow(idx, |columns|)
    requires ResolveMethods(columns, AggregationMethods(columns, weightCol, agg)) == Ok(aggs)
    ensures KeptKeyPositions(idx, AggColumns(aggs)) == []
    ensures |aggs| == |columns|
    ensures GroupAggregateColumns(columns, idx, aggs) == columns
  {
    AggregationMethodsKeys(columns, weightCol, agg);
    ResolvedTableIsIdentity(columns, AggregationMethods(columns, weightCol, agg), aggs);
    var ac := AggColumns(aggs);
    forall j | 0 <= j < |idx| ensures idx[j] in ac {
      assert ac[idx[j]] == idx[j];
    }
    KeptKeyPositionsAllAggregated(idx, ac);
  }

  /** With one method name, the method table is `first` everywhere except the
      weight column. */
  lemma ByNameMethods(columns: seq<Value>, weightCol: Value, name: string)
    requires weightCol in columns
    ensures AggregationMethods(columns, weightCol, ByName(name))
         == seq(|columns|, i requires 0 <= i < |columns| =>
              (columns[i], if i == IndexOf(columns, weightCol) then name else "first"))
  {
    var firsts := seq(|columns|, i requires 0 <= i < |columns| => (columns[i], "first"));
    var keys := seq(|firsts|, i requires 0 <= i < |firsts| => firsts[i].0);
    assert keys == columns;
    var next := firsts[IndexOf(keys, weightCol) := (weightCol, name)];
    assert UpdateMethods(firsts, [(weightCol, name)]) == UpdateMethods(next, []);
  }

  /** Drop mode: the surviving keys are the distinct keys in order of first
      appearance, and each surviving row is the first row with its key. */
  lemma RemoveRowDuplicatesDropMode(df: Frame, dataCols: seq<Value>, weights: Weights, weightCol: Value, agg: AggregateBy)
    requires WellFormed(df) && !IsEmpty(df) && !Truthy(agg)
    requires RemoveRowDuplicates(df, dataCols, weights, weightCol, agg).Ok?
    ensures var (g, _) := AssignWeights(df, weights, weightCol).value;
            var out := RemoveRowDuplicates(df, dataCols, weights, weightCol, agg).value.0;
            var idx := Positions(g.columns, dataCols).value;
            out.columns == g.columns
            && Keys(out.rows, |g.columns|, idx) == Unique(Keys(g.rows, |g.columns|, idx))
            && forall j :: 0 <= j < |out.rows| ==>
                 out.rows[j] == g.rows[IndexOf(Keys(g.rows, |g.columns|, idx), Key(out.rows[j], idx))]
  {
    var (g, _) := AssignWeights(df, weights, weightCol).value;
    var idx := Positions(g.columns, dataCols).value;
    var w := |g.columns|;
    DropDuplicatesKeys(g.rows, w, idx);
    forall j | 0 <= j < |DropDuplicates(g.rows, w, idx)| {
      DropDuplicatesFirstOccurrence(g.rows, w, idx, j);
    }
  }

  /** Aggregation by one method name, the weight column not being a key:
      the output has the input's columns, one row per distinct complete key
      in order of first appearance (so no key repeats), and for "sum" the
      weight total of the complete-key rows is kept. */
  lemma RemoveRowDuplicatesByName(df: Frame, dataCols: seq<Value>, weights: Weights, weightCol: Value, name: string)
    requires WellFormed(df) && !IsEmpty(df) && name != "" && weightCol !in dataCols
    requires RemoveRowDuplicates(df, dataCols, weights, weightCol, ByName(name)).Ok?
    ensures var (g, _) := AssignWeights(df, weights, weightCol).value;
            var out := RemoveRowDuplicates(df, dataCols, weights, weightCol, ByName(name)).value.0;
            var w := |g.columns|;
            var idx := Positions(g.columns, dataCols).value;
            var p := IndexOf(g.columns, weightCol);
            out.columns == g.columns
            && Keys(out.rows, w, idx) == Groups(g.rows, w, idx)
            && NoDup(Keys(out.rows, w, idx))
            && (name == "sum" ==> ColumnTotal(out.rows, w, p) == ColumnTotal(CompleteRows(g.rows, w, idx), w, p))
  {
    var (g, wc) := AssignWeights(df, weights, weightCol).value;
    var idx := Positions(g.columns, dataCols).value;
    var p := IndexOf(g.columns, weightCol);
    forall j | 0 <= j < |idx| ensures idx[j] != p {
      assert g.columns[idx[j]] == dataCols[j];
    }
    DeduplicateByName(g, idx, wc, name);
  }

  lemma DeduplicateByName(g: Frame, idx: seq<nat>, wc: Value, name: string)
    requires WellFormed(g) && IdxBelow(idx, |g.columns|) && name != "" && wc in g.columns
    requires forall j :: 0 <= j < |idx| ==> idx[j] != IndexOf(g.columns, wc)
    requires Deduplicate(g, idx, wc, ByName(name)).Ok?
    ensures var out := Deduplicate(g, idx, wc, ByName(name)).value;
            var w := |g.columns|;
            var p := IndexOf(g.columns, wc);
            out.columns == g.columns
            && Keys(out.rows, w, idx) == Groups(g.rows, w, idx)
            && NoDup(Keys(out.rows, w, idx))
            && (name == "sum" ==> ColumnTotal(out.rows, w, p) == ColumnTotal(CompleteRows(g.rows, w, idx), w, p))
  {
    var w := |g.columns|;
    var aggs := ResolveMethods(g.columns, AggregationMethods(g.columns, wc, ByName(name))).value;
    DeduplicateByNameShape(g, idx, wc, name, aggs);
    ByNameAggs(g.columns, wc, name, aggs);
    GroupedKeys(g.rows, w, idx, aggs);
    if name == "sum" {
      SumColumnTotal(g.rows, w, idx, aggs, IndexOf(g.columns, wc));
    }
  }

  lemma SumColumnTotal(rows: seq<Row>, w: nat, idx: seq<nat>, aggs: seq<(nat, Reduction)>, p: nat)
    requires RowsOfWidth(rows, w) && IdxBelow(idx, w) && AggsBelow(aggs, w)
    requires |aggs| == w && p < w && aggs[p] == (p, SumOf)
    requires KeptKeyPositions(idx, AggColumns(aggs)) == []
    ensures RowsOfWidth(GroupAggregate(rows, w, idx, aggs), w)
    ensures ColumnTotal(GroupAggregate(rows, w, idx, aggs), w, p) == ColumnTotal(CompleteRows(rows, w, idx), w, p)
  {
    ConservedSumAt(rows, w, idx, aggs, p, w, p, p);
  }

  lemma DeduplicateByNameShape(g: Frame, idx: seq<nat>, wc: Value, name: string, aggs: seq<(nat, Reduction)>)
    requires WellFormed(g) && IdxBelow(idx, |g.columns|) && name != ""
    requires Deduplicate(g, idx, wc, ByName(name)).Ok?
    requires aggs == ResolveMethods(g.columns, AggregationMethods(g.columns, wc, ByName(name))).value
    ensures ResolveMethods(g.columns, AggregationMethods(g.columns, wc, ByName(name))).Ok?
    ensures AggsBelow(aggs, |g.columns|) && KeptKeyPositions(idx, AggColumns(aggs)) == []
    ensures Deduplicate(g, idx, wc, ByName(name)).value
         == Frame(g.columns, GroupAggregate(g.rows, |g.columns|, idx, aggs))
  {
    AggregationLayout(g.columns, wc, ByName(name), idx, aggs);
  }

  /** The resolved table for one method name: each column by position,
      `first` except the weight column, which gets the named method. */
  lemma ByNameAggs(columns: seq<Value>, wc: Value, name: string, aggs: seq<(nat, Reduction)>)
    requires NoDup(columns) && wc in columns
    requires ResolveMethods(columns, AggregationMethods(columns, wc, ByName(name))) == Ok(aggs)
    ensures |aggs| == |columns|
    ensures forall c :: 0 <= c < |aggs| ==> aggs[c].0 == c
    ensures forall c :: 0 <= c < |aggs| && c != IndexOf(columns, wc) ==> aggs[c].1 == FirstOf
    ensures ParseReduction(name) == Some(aggs[IndexOf(columns, wc)].1)
  {
    var methods := AggregationMethods(columns, wc, ByName(name));
    AggregationMethodsKeys(columns, wc, ByName(name));
    ResolvedTableIsIdentity(columns, methods, aggs);
    ByNameMethods(columns, wc, name);
  }

  /** When every key column is reduced by `first`, the output rows carry the
      groups' keys, in order. */
  lemma GroupedKeys(rows: seq<Row>, w: nat, idx: seq<nat>, aggs: seq<(nat, Reduction)>)
    requires RowsOfWidth(rows, w) && IdxBelow(idx, w) && AggsBelow(aggs, w)
    requires |aggs| == w && forall c :: 0 <= c < w ==> aggs[c].0 == c
    requires forall j :: 0 <= j < |idx| ==> aggs[idx[j]].1 == FirstOf
    requires KeptKeyPositions(idx, AggColumns(aggs)) == []
    ensures RowsOfWidth(GroupAggregate(rows, w, idx, aggs), w)
    ensures Keys(GroupAggregate(rows, w, idx, aggs), w, idx) == Groups(rows, w, idx)
  {
    var out := GroupAggregate(rows, w, idx, aggs);
    var gs := Groups(rows, w, idx);
    assert RowsOfWidth(out, w);
    forall q | 0 <= q < |gs| ensures Key(out[q], idx) == gs[q] {
      GroupedKey(rows, w, idx, aggs, q);
    }
    KeysOfRows(out, w, idx, gs);
  }

  /** Rows whose keys are `ks`, one by one, have `ks` as their keys. */
  lemma KeysOfRows(rows: seq<Row>, w: nat, idx: seq<nat>, ks: seq<Row>)
    requires RowsOfWidth(rows, w) && IdxBelow(idx, w) && |rows| == |ks|
    requires forall q :: 0 <= q < |rows| ==> Key(rows[q], idx) == ks[q]
    ensures Keys(rows, w, idx) == ks
  {
  }

  lemma GroupedKey(rows: seq<Row>, w: nat, idx: seq<nat>, aggs: seq<(nat, Reduction)>, q: nat)
    requires RowsOfWidth(rows, w) && IdxBelow(idx, w) && AggsBelow(aggs, w)
    requires |aggs| == w && forall c :: 0 <= c < w ==> aggs[c].0 == c
    requires forall j :: 0 <= j < |idx| ==> aggs[idx[j]].1 == FirstOf
    requires KeptKeyPositions(idx, AggColumns(aggs)) == []
    requires q < |Groups(rows, w, idx)|
    ensures |GroupAggregate(rows, w, idx, aggs)[q]| == w
    ensures Key(GroupAggregate(rows, w, idx, aggs)[q], idx) == Groups(rows, w, idx)[q]
  {
    var row := GroupAggregate(rows, w, idx, aggs)[q];
    var k := Groups(rows, w, idx)[q];
    forall j | 0 <= j < |idx| ensures row[idx[j]] == k[j] {
      GroupedKeyCell(rows, w, idx, aggs, q, j);
    }
    KeyOfCells(row, idx, k);
  }

  lemma GroupedKeyCell(rows: seq<Row>, w: nat, idx: seq<nat>, aggs: seq<(nat, Reduction)>, q: nat, j: nat)
    requires RowsOfWidth(rows, w) && IdxBelow(idx, w) && AggsBelow(aggs, w)
    requires |aggs| == w && j < |idx| && aggs[idx[j]] == (idx[j], FirstOf)
    requires KeptKeyPositions(idx, AggColumns(aggs)) == []
    requires q < |Groups(rows, w, idx)|
    ensures |GroupAggregate(rows, w, idx, aggs)[q]| == w
    ensures GroupAggregate(rows, w, idx, aggs)[q][idx[j]] == Groups(rows, w, idx)[q][j]
  {
    GroupAggregateFirstOfKey(rows, w, idx, aggs, q, idx[j], j);
  }

  /** A row whose key cells are those of `k` has `k` as its key. */
  lemma KeyOfCells(row: Row, idx: seq<nat>, k: Row)
    requires IdxBelow(idx, |row|) && |k| == |idx|
    requires forall j :: 0 <= j < |idx| ==> row[idx[j]] == k[j]
    ensures Key(row, idx) == k
  {
  }

  // ---------------------------------------------------------------------------
  // Nested dictionaries

  /** A value that is either a leaf or a dictionary with its keys in insertion
      order (`keys[i]` maps to `vals[i]`). */
  datatype NVal = Leaf(v: Value) | Dict(keys: seq<Value>, vals: seq<NVal>)

  predicate ValidDict(d: NVal)
  {
    d.Dict? ==> |d.keys| == |d.vals| && NoDup(d.keys) && forall i :: 0 <= i < |d.vals| ==> ValidDict(d.vals[i])
  }

  /** `a[k]` for a key of `a`. */
  function Lookup(a: NVal, k: Value): NVal
    requires a.Dict? && |a.keys| == |a.vals| && k in a.keys
  {
    a.vals[IndexOf(a.keys, k)]
  }

  /** Merging one value of `b` into the value `a` already has under that key:
      two dictionaries merge recursively; otherwise (an equal leaf or a
      conflict) `a` keeps its value. */
  function MergeValue(av: NVal, bv: NVal): (r: NVal)
    requires ValidDict(av) && ValidDict(bv)
    ensures ValidDict(r)
    ensures r.Dict? <==> av.Dict?
    decreases bv, 1, 0
  {
    if av.Dict? && bv.Dict? then MergeFrom(av, bv, 0) else av
  }

  /** Merging one key-value pair of `b` into `a`. */
  function MergeKey(a: NVal, k: Value, bv: NVal): (r: NVal)
    requires a.Dict? && ValidDict(a) && ValidDict(bv)
    ensures r.Dict? && ValidDict(r)
    ensures r.keys == if k in a.keys then a.keys else a.keys + [k]
    decreases bv, 2, 0
  {
    if k in a.keys then
      var i := IndexOf(a.keys, k);
      var r := Dict(a.keys, a.vals[i := MergeValue(a.vals[i], bv)]);
      assert forall j :: 0 <= j < |r.vals| ==> ValidDict(r.vals[j]) by {
        forall j | 0 <= j < |r.vals| ensures ValidDict(r.vals[j]) {
          if j != i { assert r.vals[j] == a.vals[j]; }
        }
      }
      r
    else
      var r := Dict(a.keys + [k], a.vals + [bv]);
      assert forall j :: 0 <= j < |r.vals| ==> ValidDict(r.vals[j]) by {
        forall j | 0 <= j < |r.vals| ensures ValidDict(r.vals[j]) {
          if j < |a.vals| { assert r.vals[j] == a.vals[j]; }
        }
      }
      r
  }

  /** Merging the pairs of `b` from position `j` on, in `b`'s order. */
  function MergeFrom(a: NVal, b: NVal, j: nat): (r: NVal)
    requires a.Dict? && b.Dict? && ValidDict(a) && ValidDict(b) && j <= |b.keys|
    ensures r.Dict? && ValidDict(r)
    ensures |r.keys| >= |a.keys| && r.keys[..|a.keys|] == a.keys
    ensures forall k :: k in r.keys <==> k in a.keys || k in b.keys[j..]
    decreases b, 0, |b.keys| - j
  {
    if j == |b.keys| then a
    else
      var a' := MergeKey(a, b.keys[j], b.vals[j]);
      var r := MergeFrom(a', b, j + 1);
      assert b.keys[j..] == [b.keys[j]] + b.keys[j + 1..];
      assert r.keys[..|a.keys|] == r.keys[..|a'.keys|][..|a.keys|];
      r
  }

  /** `merge_nested_dicts(a, b)`: walks the keys of `b` in order, adding the
      missing ones to `a` and merging nested dictionaries in place of the
      existing ones. */
  method MergeNestedDicts(a: NVal, b: NVal) returns (r: NVal)
    requires a.Dict? && b.Dict? && ValidDict(a) && ValidDict(b)
    ensures r == MergeFrom(a, b, 0)
    decreases b, 1
  {
    r := a;
    var j := 0;
    while j < |b.keys|
      invariant 0 <= j <= |b.keys|
      invariant r.Dict? && ValidDict(r)
      invariant MergeFrom(r, b, j) == MergeFrom(a, b, 0)
      decreases |b.keys| - j
    {
      MergeFromUnfold(r, b, j);
      r := MergeStep(r, b, j);
      j := j + 1;
    }
  }

  lemma MergeFromUnfold(r: NVal, b: NVal, j: nat)
    requires r.Dict? && ValidDict(r) && b.Dict? && ValidDict(b) && j < |b.keys|
    ensures MergeFrom(r, b, j) == MergeFrom(MergeKey(r, b.keys[j], b.vals[j]), b, j + 1)
  {
  }

  /** One pass of the loop: key j of `b` is added to `r`, or its value merged
      into `r`'s when both are dictionaries. */
  method MergeStep(r: NVal, b: NVal, j: nat) returns (next: NVal)
    requires r.Dict? && ValidDict(r) && b.Dict? && ValidDict(b) && j < |b.keys|
    ensures next == MergeKey(r, b.keys[j], b.vals[j])
    decreases b, 0
  {
    var k := b.keys[j];
    var bv := b.vals[j];
    if k in r.keys {
      var i := IndexOf(r.keys, k);
      var av := r.vals[i];
      if av.Dict? && bv.Dict? {
        var merged := MergeNestedDicts(av, bv);
        next := Dict(r.keys, r.vals[i := merged]);
      } else {
        assert r.vals[i := av] == r.vals;
        next := r;
      }
    } else {
      next := Dict(r.keys + [k], r.vals + [bv]);
    }
  }

  /** The keys of the merge are those of `a` (in their order) followed by the
      new keys of `b`. */
  lemma MergeKeys(a: NVal, b: NVal)
    requires a.Dict? && b.Dict? && ValidDict(a) && ValidDict(b)
    ensures MergeFrom(a, b, 0).keys[..|a.keys|] == a.keys
    ensures forall k :: k in MergeFrom(a, b, 0).keys <==> k in a.keys || k in b.keys
  {
    assert b.keys[0..] == b.keys;
  }

  /** One merge step: the merged key gets the merged value (or `b`'s value
      when it is new); every other key keeps its value. */
  lemma MergeKeyLookup(a: NVal, k0: Value, bv: NVal, k: Value)
    requires a.Dict? && ValidDict(a) && ValidDict(bv) && (k in a.keys || k == k0)
    ensures k in MergeKey(a, k0, bv).keys
    ensures k != k0 ==> Lookup(MergeKey(a, k0, bv), k) == Lookup(a, k)
    ensures k == k0 && k in a.keys ==> Lookup(MergeKey(a, k0, bv), k) == MergeValue(Lookup(a, k), bv)
    ensures k == k0 && k !in a.keys ==> Lookup(MergeKey(a, k0, bv), k) == bv
  {
    if k in a.keys {
      MergeKeyLookupKept(a, k0, bv, k);
    } else {
      MergeKeyLookupAdded(a, k0, bv);
    }
  }

  lemma MergeKeyLookupKept(a: NVal, k0: Value, bv: NVal, k: Value)
    requires a.Dict? && ValidDict(a) && ValidDict(bv) && k in a.keys
    ensures k in MergeKey(a, k0, bv).keys
    ensures k != k0 ==> Lookup(MergeKey(a, k0, bv), k) == Lookup(a, k)
    ensures k == k0 ==> Lookup(MergeKey(a, k0, bv), k) == MergeValue(Lookup(a, k), bv)
  {
    var a' := MergeKey(a, k0, bv);
    var i := IndexOf(a.keys, k);
    assert IndexOf(a'.keys, k) == i by {
      assert a'.keys[..|a.keys|] == a.keys;
      assert a'.keys[i] == k;
      assert forall t :: 0 <= t < i ==> a'.keys[t] == a.keys[t];
    }
  }

  lemma MergeKeyLookupAdded(a: NVal, k0: Value, bv: NVal)
    requires a.Dict? && ValidDict(a) && ValidDict(bv) && k0 !in a.keys
    ensures k0 in MergeKey(a, k0, bv).keys
    ensures Lookup(MergeKey(a, k0, bv), k0) == bv
  {
    var a' := MergeKey(a, k0, bv);
    assert a'.keys == a.keys + [k0];
    assert IndexOf(a'.keys, k0) == |a.keys|;
  }

  /** Keys only `a` has keep their values; keys only `b` has bring `b`'s. */
  lemma MergeFromLookup(a: NVal, b: NVal, j: nat, k: Value)
    requires a.Dict? && b.Dict? && ValidDict(a) && ValidDict(b) && j <= |b.keys|
    requires k in a.keys || k in b.keys[j..]
    ensures k in MergeFrom(a, b, j).keys
    ensures k in a.keys && k !in b.keys[j..] ==> Lookup(MergeFrom(a, b, j), k) == Lookup(a, k)
    ensures k !in a.keys ==> Lookup(MergeFrom(a, b, j), k) == Lookup(b, k)
    ensures k in a.keys && !(Lookup(a, k).Dict?) ==> Lookup(MergeFrom(a, b, j), k) == Lookup(a, k)
  {
    if k in a.keys {
      MergeFromKeeps(a, b, j, k);
    } else {
      MergeFromBrings(a, b, j, k);
    }
  }

  /** A key `a` has keeps its value when no later key of `b` repeats it, or
      when its value is a leaf. */
  lemma {:induction false} MergeFromKeeps(a: NVal, b: NVal, j: nat, k: Value)
    requires a.Dict? && b.Dict? && ValidDict(a) && ValidDict(b) && j <= |b.keys| && k in a.keys
    ensures k in MergeFrom(a, b, j).keys
    ensures k !in b.keys[j..] ==> Lookup(MergeFrom(a, b, j), k) == Lookup(a, k)
    ensures !(Lookup(a, k).Dict?) ==> Lookup(MergeFrom(a, b, j), k) == Lookup(a, k)
    decreases |b.keys| - j
  {
    if j < |b.keys| {
      var k0 := b.keys[j];
      var a' := MergeKey(a, k0, b.vals[j]);
      assert b.keys[j..] == [k0] + b.keys[j + 1..];
      MergeKeyLookup(a, k0, b.vals[j], k);
      MergeFromKeeps(a', b, j + 1, k);
    }
  }

  /** A key only `b` has, from position j on, arrives with `b`'s value. */
  lemma {:induction false} MergeFromBrings(a: NVal, b: NVal, j: nat, k: Value)
    requires a.Dict? && b.Dict? && ValidDict(a) && ValidDict(b) && j <= |b.keys|
    requires k !in a.keys && k in b.keys[j..]
    ensures k in MergeFrom(a, b, j).keys
    ensures Lookup(MergeFrom(a, b, j), k) == Lookup(b, k)
    decreases |b.keys| - j
  {
    var k0 := b.keys[j];
    var a' := MergeKey(a, k0, b.vals[j]);
    assert b.keys[j..] == [k0] + b.keys[j + 1..];
    if k == k0 {
      MergeKeyLookup(a, k0, b.vals[j], k);
      IndexOfDistinct(b.keys, j);
      assert k !in b.keys[j + 1..] by {
        forall t | j + 1 <= t < |b.keys| ensures b.keys[t] != k { }
      }
      MergeFromKeeps(a', b, j + 1, k);
    } else {
      assert k !in a'.keys;
      MergeFromBrings(a', b, j + 1, k);
    }
  }

  /** Merging a dictionary into itself changes nothing. */
  lemma {:induction false} MergeValueSelf(v: NVal)
    requires ValidDict(v)
    ensures MergeValue(v, v) == v
    decreases v, 1
  {
    if v.Dict? {
      MergeIdempotent(v);
    }
  }

  lemma {:induction false} MergeFromSelf(a: NVal, b: NVal, j: nat)
    requires a.Dict? && b.Dict? && ValidDict(a) && ValidDict(b) && j <= |b.keys|
    requires a.keys == b.keys && forall t :: j <= t < |b.vals| ==> a.vals[t] == b.vals[t]
    requires forall t :: 0 <= t < j ==> a.vals[t] == MergeValue(b.vals[t], b.vals[t])
    ensures MergeFrom(a, b, j) == Dict(b.keys, seq(|b.vals|, t requires 0 <= t < |b.vals| => MergeValue(b.vals[t], b.vals[t])))
    decreases b, 0, |b.keys| - j
  {
    var target := Dict(b.keys, seq(|b.vals|, t requires 0 <= t < |b.vals| => MergeValue(b.vals[t], b.vals[t])));
    if j == |b.keys| {
      assert a == target;
    } else {
      IndexOfDistinct(a.keys, j);
      var a' := MergeKey(a, b.keys[j], b.vals[j]);
      assert a' == Dict(a.keys, a.vals[j := MergeValue(b.vals[j], b.vals[j])]);
      MergeFromSelf(a', b, j + 1);
    }
  }

  lemma {:induction false} MergeIdempotent(d: NVal)
    requires d.Dict? && ValidDict(d)
    ensures MergeFrom(d, d, 0) == d
    decreases d, 0
  {
    MergeFromSelf(d, d, 0);
    var target := Dict(d.keys, seq(|d.vals|, t requires 0 <= t < |d.vals| => MergeValue(d.vals[t], d.vals[t])));
    forall t | 0 <= t < |d.vals| ensures target.vals[t] == d.vals[t] {
      MergeValueSelf(d.vals[t]);
    }
    assert target.vals == d.vals;
  }

  // ---------------------------------------------------------------------------
  // dict_depth

  /** `dict_depth(dic, level)`: stops at levels above 2; a leaf or an empty
      dictionary is at the current level; otherwise the smallest depth
      among the values. */
  function DictDepth(d: NVal, level: nat): (r: nat)
    decreases d
  {
    if level > 2 then level
    else if !d.Dict? || |d.vals| == 0 then level
    else MinDepth(d, d.vals, level + 1)
  }

  function MinDepth(d: NVal, vs: seq<NVal>, level: nat): nat
    requires |vs| > 0 && forall i :: 0 <= i < |vs| ==> vs[i] < d
    decreases d, |vs|
  {
    if |vs| == 1 then DictDepth(vs[0], level)
    else Min(DictDepth(vs[0], level), MinDepth(d, vs[1..], level))
  }

  function Min(a: nat, b: nat): nat
  {
    if a <= b then a else b
  }

  /** Reference definition: how many dictionaries deep the shallowest branch
      goes (0 for a leaf or an empty dictionary). */
  function Shallowest(d: NVal): nat
  {
    if !d.Dict? || |d.vals| == 0 then 0
    else 1 + ShallowestOf(d, d.vals)
  }

  function ShallowestOf(d: NVal, vs: seq<NVal>): nat
    requires |vs| > 0 && forall i :: 0 <= i < |vs| ==> vs[i] < d
    decreases d, |vs|
  {
    if |vs| == 1 then Shallowest(vs[0])
    else Min(Shallowest(vs[0]), ShallowestOf(d, vs[1..]))
  }

  /** `dict_depth` is the shallowest nesting depth counted from `level`, capped at 3. */
  lemma {:induction false} DictDepthIsCappedShallowest(d: NVal, level: nat)
    requires level <= 3
    ensures DictDepth(d, level) == Min(level + Shallowest(d), 3)
    decreases d, 1
  {
    if level <= 2 && d.Dict? && |d.vals| > 0 {
      MinDepthIsCapped(d, d.vals, level + 1);
    }
  }

  lemma {:induction false} MinDepthIsCapped(d: NVal, vs: seq<NVal>, level: nat)
    requires |vs| > 0 && forall i :: 0 <= i < |vs| ==> vs[i] < d
    requires 1 <= level <= 3
    ensures MinDepth(d, vs, level) == Min(level + ShallowestOf(d, vs), 3)
    decreases d, 0, |vs|
  {
    DictDepthIsCappedShallowest(vs[0], level);
    if |vs| > 1 {
      assert forall i :: 0 <= i < |vs[1..]| ==> vs[1..][i] == vs[i + 1];
      MinDepthIsCapped(d, vs[1..], level);
    }
  }

  // ---------------------------------------------------------------------------
  // validate_mapping_for_dataframe

  /** A value of the mapping: an iterable of items, or a single object (a
      string iterates over its characters; an integer or None is not
      iterable). */
  datatype Item = Items(elems: seq<Value>) | Atom(v: Value)

  /** The argument: a mapping (its keys with their values) or something else. */
  datatype MappingArg = NotMapping | Mapping(entries: seq<(Value, Item)>)

  const NotMappingMsg := "data must be a Mapping type, i.e. dictionary"
  const KeyTypeMsg := "keys must be a string or int"
  const NotIterableMsg := "The value of a key must be an Iterable type, i.e. list"
  const ItemTypeMsg := "The items in each value must be a string or int"

  /** The set of types of a collection is exactly {str} or exactly {int}. */
  predicate OneScalarType(vs: seq<Value>)
  {
    |vs| > 0 && (AllInts(vs) || AllStrs(vs))
  }

  predicate Iterable(item: Item)
  {
    item.Items? || item.v.Str?
  }

  /** What iterating a value yields. */
  function Elements(item: Item): seq<Value>
    requires Iterable(item)
  {
    match item
    case Items(elems) => elems
    case Atom(v) => seq(|v.s|, i requires 0 <= i < |v.s| => Str([v.s[i]]))
  }

  predicate ValidItem(item: Item)
  {
    Iterable(item) && OneScalarType(Elements(item))
  }

  /** The first value error in mapping order, if any. */
  function FirstItemError(entries: seq<(Value, Item)>): (r: Option<Error>)
    ensures r.None? <==> forall i :: 0 <= i < |entries| ==> ValidItem(entries[i].1)
    ensures r.Some? ==> r.value == TypeError(NotIterableMsg) || r.value == TypeError(ItemTypeMsg)
  {
    if entries == [] then None
    else if !Iterable(entries[0].1) then Some(TypeError(NotIterableMsg))
    else if !OneScalarType(Elements(entries[0].1)) then Some(TypeError(ItemTypeMsg))
    else
      var rest := FirstItemError(entries[1..]);
      assert forall i :: 1 <= i < |entries| ==> entries[i] == entries[1..][i - 1];
      rest
  }

  /** None when the mapping is acceptable, otherwise the TypeError the first
      failing check raises. */
  function ValidateMappingForDataframe(data: MappingArg): (r: Option<Error>)
    ensures r.None? <==>
              data.Mapping? && OneScalarType(EntryKeys(data.entries))
              && forall i :: 0 <= i < |data.entries| ==> ValidItem(data.entries[i].1)
    ensures data.NotMapping? ==> r == Some(TypeError(NotMappingMsg))
    ensures data.Mapping? && !OneScalarType(EntryKeys(data.entries)) ==> r == Some(TypeError(KeyTypeMsg))
    ensures r.Some? ==> r.value.TypeError?
  {
    match data
    case NotMapping => Some(TypeError(NotMappingMsg))
    case Mapping(entries) =>
      if !OneScalarType(EntryKeys(entries)) then Some(TypeError(KeyTypeMsg))
      else FirstItemError(entries)
  }
}
