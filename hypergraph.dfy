/** The Hypergraph object: its edge table (the incidence rows) and its
    `state_dict`, a keyed memo table of derived values (the code triple, the
    s-line-graphs by s, the incidence matrices, the edge sizes) with a single
    reset operation, `update_state`. Queries read the rows; the cached views
    fill the table on a miss and return the stored value on a hit. */
module Hypergraphs {
  import opened Values
  import opened Seqs
  import opened Matrices
  import opened Incidence
  import opened IncidenceEdits
  import opened LineGraphs
  import opened Toplexes

  /** `state_dict`, one field per key the object writes. "data", "snodelg"
      and "sedgelg" are always present; "incidence_matrix",
      "weighted_incidence_matrix" and "edge_size_dist" are Some once
      computed and None after `update_state` pops them. */
  datatype State = State(
    data: CodeTriple,
    nodeGraphs: map<int, Graph>,
    edgeGraphs: map<int, Graph>,
    incidence: Option<Matrix>,
    weightedIncidence: Option<Matrix>,
    sizes: Option<seq<int>>)

  /** The incidence matrix `edges.incidence_matrix(weights)` computes. */
  function FreshIncidence(cells: seq<Cell>, weights: bool): (m: Matrix)
    ensures Shaped(m)
  {
    if weights then WeightedIncidenceOf(cells) else IncidenceOf(cells)
  }

  /** Every stored matrix has rows of one width, and no line graph is
      stored under s = 0 (building one raises there). */
  predicate StateShaped(st: State)
  {
    && (st.incidence.Some? ==> Shaped(st.incidence.value))
    && (st.weightedIncidence.Some? ==> Shaped(st.weightedIncidence.value))
    && 0 !in st.nodeGraphs && 0 !in st.edgeGraphs
  }

  predicate NodeGraphsCoherent(cells: seq<Cell>, graphs: map<int, Graph>)
  {
    forall s :: s in graphs ==> s != 0 && graphs[s] == NodeLineGraph(cells, s)
  }

  predicate EdgeGraphsCoherent(cells: seq<Cell>, graphs: map<int, Graph>)
  {
    forall s :: s in graphs ==> s != 0 && graphs[s] == EdgeLineGraph(cells, s)
  }

  /** Every cached value equals what would be computed from the rows now.
      (A removal with `update_state=False` leaves the cache stale.) */
  predicate StateCoherent(cells: seq<Cell>, st: State)
  {
    && st.data == DataOf(cells)
    && NodeGraphsCoherent(cells, st.nodeGraphs)
    && EdgeGraphsCoherent(cells, st.edgeGraphs)
    && (st.incidence.Some? ==> st.incidence.value == IncidenceOf(cells))
    && (st.weightedIncidence.Some? ==> st.weightedIncidence.value == WeightedIncidenceOf(cells))
    && (st.sizes.Some? ==> st.sizes.value == ColumnSums(IncidenceOf(cells)))
  }

  /** The state after `update_state`: the data triple of the rows, two empty
      line-graph tables, nothing else. It is coherent with the rows. */
  function FreshState(cells: seq<Cell>): (st: State)
    ensures StateShaped(st) && StateCoherent(cells, st)
  {
    State(DataOf(cells), map[], map[], None, None, None)
  }

  // ---------------------------------------------------------------------------
  // incidence_matrix

  /** The slot `incidence_matrix(weights)` reads and fills. */
  function StoredIncidence(st: State, weights: bool): Option<Matrix>
  {
    if weights then st.weightedIncidence else st.incidence
  }

  function WithIncidence(st: State, weights: bool, m: Matrix): State
  {
    if weights then st.(weightedIncidence := Some(m)) else st.(incidence := Some(m))
  }

  /** The matrix `incidence_matrix(weights)` returns from state st. */
  function CachedIncidence(st: State, cells: seq<Cell>, weights: bool): (m: Matrix)
    requires StateShaped(st)
    ensures Shaped(m)
  {
    if StoredIncidence(st, weights).Some? then StoredIncidence(st, weights).value else FreshIncidence(cells, weights)
  }

  /** The state `incidence_matrix(weights)` leaves behind. */
  function CacheIncidence(st: State, cells: seq<Cell>, weights: bool): State
  {
    if StoredIncidence(st, weights).Some? then st else WithIncidence(st, weights, FreshIncidence(cells, weights))
  }

  /** `incidence_matrix` is memoised: a hit returns the stored matrix and
      leaves the state alone; a miss stores the fresh matrix in its slot and
      changes nothing else. */
  lemma IncidenceMemo(st: State, cells: seq<Cell>, weights: bool)
    requires StateShaped(st)
    ensures StateShaped(CacheIncidence(st, cells, weights))
    ensures StoredIncidence(st, weights).Some? ==>
              CacheIncidence(st, cells, weights) == st && CachedIncidence(st, cells, weights) == StoredIncidence(st, weights).value
    ensures StoredIncidence(st, weights).None? ==> CachedIncidence(st, cells, weights) == FreshIncidence(cells, weights)
    ensures StoredIncidence(CacheIncidence(st, cells, weights), weights) == Some(CachedIncidence(st, cells, weights))
    ensures var next := CacheIncidence(st, cells, weights);
            && next.data == st.data && next.nodeGraphs == st.nodeGraphs && next.edgeGraphs == st.edgeGraphs
            && next.sizes == st.sizes && StoredIncidence(next, !weights) == StoredIncidence(st, !weights)
  {
  }

  /** On a coherent state, `incidence_matrix` returns the fresh matrix and
      the state stays coherent. */
  lemma IncidenceMemoCoherent(st: State, cells: seq<Cell>, weights: bool)
    requires StateShaped(st) && StateCoherent(cells, st)
    ensures StateShaped(CacheIncidence(st, cells, weights))
    ensures StateCoherent(cells, CacheIncidence(st, cells, weights))
    ensures CachedIncidence(st, cells, weights) == FreshIncidence(cells, weights)
  {
  }

  // ---------------------------------------------------------------------------
  // get_linegraph

  /** The table `get_linegraph(s, edges)` reads and fills. */
  function Graphs(st: State, edges: bool): map<int, Graph>
  {
    if edges then st.edgeGraphs else st.nodeGraphs
  }

  function WithGraphs(st: State, edges: bool, graphs: map<int, Graph>): State
  {
    if edges then st.(edgeGraphs := graphs) else st.(nodeGraphs := graphs)
  }

  /** The graph `get_linegraph(s, edges)` returns from state st: the stored
      one on a hit, otherwise the one built from the (possibly cached)
      incidence matrix and the current labels. */
  function CachedLineGraph(st: State, cells: seq<Cell>, s: int, edges: bool): Graph
    requires StateShaped(st) && s != 0
  {
    if s in Graphs(st, edges) then Graphs(st, edges)[s]
    else
      var m := CachedIncidence(st, cells, false);
      if edges then Graph(EdgeLabels(cells), EdgeAdjacency(m, s))
      else Graph(NodeLabels(cells), IncidenceToAdjacency(m, s))
  }

  /** The state `get_linegraph(s, edges)` leaves behind. */
  function CacheLineGraph(st: State, cells: seq<Cell>, s: int, edges: bool): State
    requires StateShaped(st) && s != 0
  {
    if s in Graphs(st, edges) then st
    else WithGraphs(CacheIncidence(st, cells, false), edges, Graphs(st, edges)[s := CachedLineGraph(st, cells, s, edges)])
  }

  /** `get_linegraph` is memoised: a hit changes nothing; a miss stores the
      graph under s in its table (caching the incidence matrix on the way)
      and keeps every other stored graph. */
  lemma LineGraphMemo(st: State, cells: seq<Cell>, s: int, edges: bool)
    requires StateShaped(st) && s != 0
    ensures StateShaped(CacheLineGraph(st, cells, s, edges))
    ensures s in Graphs(st, edges) ==> CacheLineGraph(st, cells, s, edges) == st
    ensures var next := CacheLineGraph(st, cells, s, edges);
            && Graphs(next, edges) == Graphs(st, edges)[s := CachedLineGraph(st, cells, s, edges)]
            && Graphs(next, !edges) == Graphs(st, !edges)
            && next.data == st.data && next.sizes == st.sizes && next.weightedIncidence == st.weightedIncidence
  {
    if s in Graphs(st, edges) {
      assert Graphs(st, edges)[s := Graphs(st, edges)[s]] == Graphs(st, edges);
    }
  }

  /** On a coherent state, `get_linegraph` returns the fresh line graph and
      the state stays coherent. */
  lemma LineGraphMemoCoherent(st: State, cells: seq<Cell>, s: int, edges: bool)
    requires StateShaped(st) && StateCoherent(cells, st) && s != 0
    ensures StateShaped(CacheLineGraph(st, cells, s, edges))
    ensures StateCoherent(cells, CacheLineGraph(st, cells, s, edges))
    ensures CachedLineGraph(st, cells, s, edges) == (if edges then EdgeLineGraph(cells, s) else NodeLineGraph(cells, s))
  {
    if s !in Graphs(st, edges) {
      var g := CachedLineGraph(st, cells, s, edges);
      var graphs := Graphs(st, edges)[s := g];
      if edges {
        assert EdgeGraphsCoherent(cells, graphs);
      } else {
        assert NodeGraphsCoherent(cells, graphs);
      }
    }
  }

  // ---------------------------------------------------------------------------
  // edge_size_dist

  /** The list `edge_size_dist()` returns from state st. */
  function CachedSizes(st: State, cells: seq<Cell>): seq<int>
    requires StateShaped(st)
  {
    if st.sizes.Some? then st.sizes.value else ColumnSums(CachedIncidence(st, cells, false))
  }

  /** The state `edge_size_dist()` leaves behind. */
  function CacheSizes(st: State, cells: seq<Cell>): State
    requires StateShaped(st)
  {
    if st.sizes.Some? then st
    else CacheIncidence(st, cells, false).(sizes := Some(ColumnSums(CachedIncidence(st, cells, false))))
  }

  /** `edge_size_dist` is memoised in its slot (caching the incidence matrix
      on a miss). */
  lemma SizesMemo(st: State, cells: seq<Cell>)
    requires StateShaped(st)
    ensures StateShaped(CacheSizes(st, cells))
    ensures st.sizes.Some? ==> CacheSizes(st, cells) == st && CachedSizes(st, cells) == st.sizes.value
    ensures CacheSizes(st, cells).sizes == Some(CachedSizes(st, cells))
    ensures var next := CacheSizes(st, cells);
            next.data == st.data && next.nodeGraphs == st.nodeGraphs && next.edgeGraphs == st.edgeGraphs
  {
  }

  /** On a coherent state `edge_size_dist` lists the size of every edge, in
      label order, and the state stays coherent. */
  lemma SizesMemoCoherent(st: State, cells: seq<Cell>)
    requires CellsOk(cells) && StateShaped(st) && StateCoherent(cells, st)
    ensures StateShaped(CacheSizes(st, cells)) && StateCoherent(cells, CacheSizes(st, cells))
    ensures |CachedSizes(st, cells)| == |EdgeLabels(cells)|
    ensures forall j :: 0 <= j < |EdgeLabels(cells)| ==> CachedSizes(st, cells)[j] == |Members(cells, EdgeLabels(cells)[j])|
  {
    IncidenceMemoCoherent(st, cells, false);
    forall j | 0 <= j < |EdgeLabels(cells)| ensures CachedSizes(st, cells)[j] == |Members(cells, EdgeLabels(cells)[j])| {
      ColSumIsSize(cells, j);
    }
  }

  // ---------------------------------------------------------------------------
  // Queries that read the rows

  /** The exceptions of `neighbors`: a node the hypergraph has but the
      (stale) cached line graph lacks makes networkx raise. */
  function NeighborsResult(g: Graph, v: Value): (r: Result<Option<set<Value>>>)
    ensures r.Ok? <==> GraphNeighbors(g, v).Some?
    ensures r.Ok? ==> r.value == Some(GraphNeighbors(g, v).value)
  {
    match GraphNeighbors(g, v)
    case None => Err(NetworkXError)
    case Some(ns) => Ok(Some(ns))
  }

  const EdgeExistsWarning := "Cannot add edge. Edge already in hypergraph"
  const NodeExistsWarning := "Cannot add edge. Edge is already a Node"

  /** The size test of `degree`: at least s, and at most max_size when given. */
  predicate SizeInRange(size: int, s: int, maxSize: Option<int>)
  {
    size >= s && (maxSize.None? || size <= maxSize.value)
  }

  /** The edges `degree(node, s, max_size)` counts. */
  function QualifyingEdges(cells: seq<Cell>, node: Value, s: int, maxSize: Option<int>): set<Value>
  {
    QualifyingAmong(cells, Memberships(cells, node), s, maxSize)
  }

  /** The edges among `es` whose size is in range. */
  function QualifyingAmong(cells: seq<Cell>, es: seq<Value>, s: int, maxSize: Option<int>): set<Value>
  {
    set e | e in es && SizeInRange(|Members(cells, e)|, s, maxSize)
  }

  lemma QualifyingAmongStep(cells: seq<Cell>, es: seq<Value>, k: nat, s: int, maxSize: Option<int>)
    requires k < |es|
    ensures QualifyingAmong(cells, es[..k + 1], s, maxSize)
            == QualifyingAmong(cells, es[..k], s, maxSize)
               + (if SizeInRange(|Members(cells, es[k])|, s, maxSize) then {es[k]} else {})
  {
    assert es[..k + 1] == es[..k] + [es[k]];
  }

  /** The degree counts a subset of the node's memberships, and with the
      default bounds (s = 1, no max_size) it counts all of them: every edge
      a node belongs to holds at least that node. */
  lemma DegreeBounds(cells: seq<Cell>, node: Value, s: int, maxSize: Option<int>)
    requires CellsOk(cells)
    ensures |QualifyingEdges(cells, node, s, maxSize)| <= |Memberships(cells, node)|
    ensures s <= 1 && maxSize.None? ==> |QualifyingEdges(cells, node, s, maxSize)| == |Memberships(cells, node)|
  {
    MembershipsNoDup(cells, node);
    NoDupCard(Memberships(cells, node));
    var all := set e | e in Memberships(cells, node);
    SubsetCard(QualifyingEdges(cells, node, s, maxSize), all);
    if s <= 1 && maxSize.None? {
      forall e | e in all ensures e in QualifyingEdges(cells, node, s, maxSize) {
        assert node in Members(cells, e);
      }
      assert QualifyingEdges(cells, node, s, maxSize) == all;
    }
  }

  lemma {:induction false} SubsetCard<T>(a: set<T>, b: set<T>)
    requires a <= b
    ensures |a| <= |b|
  {
    if a != {} {
      var x :| x in a;
      SubsetCard(a - {x}, b - {x});
    }
  }

  /** The items of xs that lie in ns, in order (a list comprehension with a
      membership filter). */
  function FilterIn(xs: seq<Value>, ns: seq<Value>): (r: seq<Value>)
    ensures |r| <= |xs|
    ensures forall x :: x in r <==> x in xs && x in ns
  {
    if xs == [] then []
    else FilterIn(xs[..|xs| - 1], ns) + (if xs[|xs| - 1] in ns then [xs[|xs| - 1]] else [])
  }

  /** Filtering by a list that holds every item keeps them all. */
  lemma {:induction false} FilterInAll(xs: seq<Value>, ns: seq<Value>)
    requires forall x :: x in xs ==> x in ns
    ensures FilterIn(xs, ns) == xs
  {
    if xs != [] {
      var p := xs[..|xs| - 1];
      var last := xs[|xs| - 1];
      assert last in xs;
      assert forall x :: x in p ==> x in xs;
      FilterInAll(p, ns);
      assert p + [last] == xs;
    }
  }

  /** Filtering by the empty list keeps nothing. */
  lemma {:induction false} FilterInNone(xs: seq<Value>)
    ensures FilterIn(xs, []) == []
  {
    if xs != [] {
      FilterInNone(xs[..|xs| - 1]);
    }
  }

  /** The state after the node pass of `remove_edge`: untouched when no node
      of the edge is a sole member, else reset on the remaining rows. */
  function SoleRemovalState(cells: seq<Cell>, edge: Value, st: State): State
  {
    if SoleNodes(cells, edge) == {} then st else FreshState(Keep(cells, edge, SoleNodes(cells, edge)))
  }

  /** One pass of `remove_node`'s loop: the node is in each of its edges
      until its rows are dropped, and in none after. */
  lemma RemovalPass(cells: seq<Cell>, node: Value, e: Value)
    requires e in Memberships(cells, node)
    ensures node in Members(cells, e)
    ensures node !in Members(DropNode(cells, node), e)
  {
    DropNodeIncidence(cells, node, e, node);
  }

  /** The loop of `remove_node`: for each edge of the node, drop the node's
      rows if it is still in that edge. */
  method NodeRemovalPass(cells: seq<Cell>, node: Value) returns (rows: seq<Cell>)
    requires CellsOk(cells) && node in NodeLabels(cells)
    ensures rows == DropNode(cells, node)
  {
    rows := cells;
    var ms := Memberships(rows, node);
    LabelsAreIncident(cells, node, node);
    ghost var f :| HasCell(cells, f, node);
    assert f in ms;
    var k := 0;
    while k < |ms|
      invariant 0 <= k <= |ms|
      invariant rows == (if k == 0 then cells else DropNode(cells, node))
    {
      RemovalPass(cells, node, ms[k]);
      if node in Members(rows, ms[k]) {
        rows := DropNode(rows, node);
      }
      k := k + 1;
    }
  }

  lemma SoleAmongAll(cells: seq<Cell>, edge: Value, ns: seq<Value>)
    requires ns == Members(cells, edge)
    ensures SoleAmong(cells, ns[..|ns|]) == SoleNodes(cells, edge)
  {
    assert ns[..|ns|] == ns;
  }

  /** One step of `remove_edge`'s node pass: a sole-member node not yet
      removed is still a node, and removing it removes its one row. */
  lemma SoleStep(cells: seq<Cell>, edge: Value, R: set<Value>, n: Value)
    requires CellsOk(cells) && n in Members(cells, edge) && n !in R && |Memberships(cells, n)| == 1
    ensures n in NodeLabels(Keep(cells, edge, R))
    ensures DropNode(Keep(cells, edge, R), n) == Keep(cells, edge, R + {n})
    ensures CellsOk(Keep(cells, edge, R + {n}))
  {
    SoleMembership(cells, edge, n);
    DropSole(cells, edge, R, n);
    KeepIncidence(cells, edge, R, edge, n);
    KeepOk(cells, edge, R);
    LabelsAreIncident(Keep(cells, edge, R), edge, n);
    KeepOk(cells, edge, R + {n});
  }

  function SoleRemovalPartial(cells: seq<Cell>, edge: Value, R: set<Value>, st: State): State
  {
    if R == {} then st else FreshState(Keep(cells, edge, R))
  }

  /** The nodes among xs whose only membership is one edge. */
  function SoleAmong(cells: seq<Cell>, xs: seq<Value>): set<Value>
  {
    set x | x in xs && |Memberships(cells, x)| == 1
  }

  lemma SoleAmongStep(cells: seq<Cell>, ns: seq<Value>, k: nat)
    requires NoDup(ns) && k < |ns|
    ensures ns[k] !in SoleAmong(cells, ns[..k])
    ensures SoleAmong(cells, ns[..k + 1]) ==
              SoleAmong(cells, ns[..k]) + (if |Memberships(cells, ns[k])| == 1 then {ns[k]} else {})
  {
    assert ns[..k + 1] == ns[..k] + [ns[k]];
    forall i | 0 <= i < k ensures ns[..k][i] != ns[k] {
    }
  }

  // ---------------------------------------------------------------------------
  // toplexes

  /** The node set of edge e. */
  function MemberSet(cells: seq<Cell>, e: Value): set<Value>
  {
    set x | x in Members(cells, e)
  }

  /** `thdict`: the node set of each edge, in label order. */
  function EdgeSets(cells: seq<Cell>): (sets: seq<set<Value>>)
    ensures |sets| == |EdgeLabels(cells)|
    ensures forall j :: 0 <= j < |sets| ==> sets[j] == MemberSet(cells, EdgeLabels(cells)[j])
  {
    var el := EdgeLabels(cells);
    seq(|el|, j requires 0 <= j < |el| => MemberSet(cells, el[j]))
  }

  /** The ids of the toplex edges, taking the edges in label order. */
  function ToplexLabels(cells: seq<Cell>): set<Value>
  {
    var el := EdgeLabels(cells);
    set j | 0 <= j < |el| && IsToplex(EdgeSets(cells), j) :: el[j]
  }

  /** No edge's node set strictly contains e's. */
  predicate Maximal(cells: seq<Cell>, e: Value)
  {
    forall f :: f in EdgeLabels(cells) && MemberSet(cells, e) <= MemberSet(cells, f) ==> MemberSet(cells, f) <= MemberSet(cells, e)
  }

  /** No edge listed before e has e's node set. */
  predicate FirstOfItsSet(cells: seq<Cell>, e: Value)
    requires e in EdgeLabels(cells)
  {
    forall f :: f in EdgeLabels(cells) && IndexOf(EdgeLabels(cells), f) < IndexOf(EdgeLabels(cells), e) ==> MemberSet(cells, f) != MemberSet(cells, e)
  }

  lemma ToplexIsMaximal(cells: seq<Cell>, j: nat)
    requires j < |EdgeLabels(cells)| && IsToplex(EdgeSets(cells), j)
    ensures Maximal(cells, EdgeLabels(cells)[j]) && FirstOfItsSet(cells, EdgeLabels(cells)[j])
  {
    var el := EdgeLabels(cells);
    var sets := EdgeSets(cells);
    var e := el[j];
    IndexOfDistinct(el, j);
    forall f | f in el && MemberSet(cells, e) <= MemberSet(cells, f) ensures MemberSet(cells, f) <= MemberSet(cells, e) {
      var d := IndexOf(el, f);
      assert sets[j] <= sets[d];
    }
    forall f | f in el && IndexOf(el, f) < IndexOf(el, e) ensures MemberSet(cells, f) != MemberSet(cells, e) {
      var d := IndexOf(el, f);
      assert !(sets[d] <= sets[j] && sets[j] <= sets[d]);
    }
  }

  lemma MaximalIsToplex(cells: seq<Cell>, e: Value)
    requires e in EdgeLabels(cells) && Maximal(cells, e) && FirstOfItsSet(cells, e)
    ensures IsToplex(EdgeSets(cells), IndexOf(EdgeLabels(cells), e))
  {
    var el := EdgeLabels(cells);
    var sets := EdgeSets(cells);
    var j := IndexOf(el, e);
    forall d | 0 <= d < |sets| && sets[j] <= sets[d] ensures sets[d] <= sets[j] {
      IndexOfDistinct(el, d);
      assert el[d] in el;
    }
    forall d | 0 <= d < j ensures !(sets[d] <= sets[j] && sets[j] <= sets[d]) {
      IndexOfDistinct(el, d);
      assert el[d] in el;
    }
  }

  /** An edge is a toplex exactly when no edge's node set strictly contains
      its own and no edge listed before it has the same node set. */
  lemma ToplexLabelsMeaning(cells: seq<Cell>, e: Value)
    ensures e in ToplexLabels(cells) <==> e in EdgeLabels(cells) && Maximal(cells, e) && FirstOfItsSet(cells, e)
  {
    var el := EdgeLabels(cells);
    if e in ToplexLabels(cells) {
      var j :| 0 <= j < |el| && IsToplex(EdgeSets(cells), j) && el[j] == e;
      ToplexIsMaximal(cells, j);
    }
    if e in el && Maximal(cells, e) && FirstOfItsSet(cells, e) {
      MaximalIsToplex(cells, e);
    }
  }

  /** The scan's result, as edge ids. */
  predicate ScanResult(cells: seq<Cell>, tops: seq<nat>, ids: seq<Value>)
  {
    && (forall a :: 0 <= a < |tops| ==> tops[a] < |EdgeLabels(cells)|)
    && |ids| == |tops|
    && (forall a :: 0 <= a < |tops| ==> ids[a] == EdgeLabels(cells)[tops[a]])
  }

  /** The ids of the scan's result are the toplex labels. */
  lemma ScanIds(cells: seq<Cell>, tops: seq<nat>, ids: seq<Value>)
    requires ScanResult(cells, tops, ids)
    requires forall i :: 0 <= i < |EdgeSets(cells)| ==> (i in tops <==> IsToplex(EdgeSets(cells), i))
    ensures forall e :: e in ids ==> e in EdgeLabels(cells)
    ensures (set e | e in ids) == ToplexLabels(cells)
  {
    var el := EdgeLabels(cells);
    var sets := EdgeSets(cells);
    forall e ensures e in ids <==> e in ToplexLabels(cells) {
      if e in ids {
        var a :| 0 <= a < |ids| && ids[a] == e;
        assert IsToplex(sets, tops[a]);
      }
      if e in ToplexLabels(cells) {
        var j :| 0 <= j < |el| && IsToplex(sets, j) && el[j] == e;
        assert j in tops;
        var a :| 0 <= a < |tops| && tops[a] == j;
        assert ids[a] == e;
      }
    }
  }

  /** No toplex's node set lies inside another's. */
  lemma ScanAntichain(cells: seq<Cell>, tops: seq<nat>, ids: seq<Value>)
    requires ScanResult(cells, tops, ids)
    requires Antichain(EdgeSets(cells), tops)
    requires (set e | e in ids) == ToplexLabels(cells)
    ensures forall t, u :: t in ToplexLabels(cells) && u in ToplexLabels(cells) && t != u
              ==> !(MemberSet(cells, t) <= MemberSet(cells, u))
  {
    var sets := EdgeSets(cells);
    forall t, u | t in ToplexLabels(cells) && u in ToplexLabels(cells) && t != u
      ensures !(MemberSet(cells, t) <= MemberSet(cells, u))
    {
      assert t in (set e | e in ids) && u in (set e | e in ids);
      var a :| 0 <= a < |ids| && ids[a] == t;
      var b :| 0 <= b < |ids| && ids[b] == u;
      var ta, tb := tops[a], tops[b];
      assert ta < |sets| && tb < |sets| && a != b;
      assert sets[ta] == MemberSet(cells, t) && sets[tb] == MemberSet(cells, u);
      assert !(sets[ta] <= sets[tb]);
    }
  }

  /** Every edge's node set lies inside some toplex's. */
  lemma ScanCovers(cells: seq<Cell>, tops: seq<nat>, ids: seq<Value>)
    requires ScanResult(cells, tops, ids)
    requires forall d :: 0 <= d < |EdgeSets(cells)| ==> Covered(EdgeSets(cells), tops, d)
    requires (set e | e in ids) == ToplexLabels(cells)
    ensures forall e :: e in EdgeLabels(cells)
              ==> exists t :: t in ToplexLabels(cells) && MemberSet(cells, e) <= MemberSet(cells, t)
  {
    var el := EdgeLabels(cells);
    var sets := EdgeSets(cells);
    forall e | e in el ensures exists t :: t in ToplexLabels(cells) && MemberSet(cells, e) <= MemberSet(cells, t) {
      var d := IndexOf(el, e);
      assert Covered(sets, tops, d);
      var a :| 0 <= a < |tops| && sets[d] <= sets[tops[a]] && (tops[a] <= d || !(sets[tops[a]] <= sets[d]));
      assert ids[a] in (set e | e in ids);
    }
  }

  // ---------------------------------------------------------------------------
  // singletons

  /** An edge of size 1 whose single node has degree 1. */
  predicate IsSingletonEdge(cells: seq<Cell>, e: Value)
  {
    e in EdgeLabels(cells) && |Members(cells, e)| == 1 && |Memberships(cells, Members(cells, e)[0])| == 1
  }

  /** Entry (i, j) of the incidence matrix says whether node i is in edge j. */
  lemma IncidenceEntry(cells: seq<Cell>, i: nat, j: nat)
    requires i < |NodeLabels(cells)| && j < |EdgeLabels(cells)|
    ensures IncidenceOf(cells).at[i][j] == (if NodeLabels(cells)[i] in Members(cells, EdgeLabels(cells)[j]) then 1 else 0)
  {
  }

  lemma OnlyElement<T>(s: seq<T>, x: T)
    requires |s| == 1 && x in s
    ensures s[0] == x
  {
  }

  lemma SingletonColumnEdge(cells: seq<Cell>, j: nat)
    requires CellsOk(cells) && j < |EdgeLabels(cells)|
    requires IsSingleton(IncidenceOf(cells), j)
    ensures IsSingletonEdge(cells, EdgeLabels(cells)[j])
  {
    var m := IncidenceOf(cells);
    var e := EdgeLabels(cells)[j];
    ColSumIsSize(cells, j);
    var r :| 0 <= r < m.height && m.at[r][j] != 0 && RowSum(m, r) == 1;
    RowSumIsDegree(cells, r);
    IncidenceEntry(cells, r, j);
    var n := NodeLabels(cells)[r];
    assert n in Members(cells, e);
    OnlyElement(Members(cells, e), n);
  }

  lemma SingletonEdgeColumn(cells: seq<Cell>, j: nat)
    requires CellsOk(cells) && j < |EdgeLabels(cells)|
    requires IsSingletonEdge(cells, EdgeLabels(cells)[j])
    ensures IsSingleton(IncidenceOf(cells), j)
  {
    var m := IncidenceOf(cells);
    var nl := NodeLabels(cells);
    var e := EdgeLabels(cells)[j];
    ColSumIsSize(cells, j);
    var n := Members(cells, e)[0];
    LabelsAreIncident(cells, e, n);
    var r := IndexOf(nl, n);
    RowSumIsDegree(cells, r);
    IncidenceEntry(cells, r, j);
    assert m.at[r][j] != 0 && RowSum(m, r) == 1;
  }

  /** A singleton column of the incidence matrix is a singleton edge. */
  lemma SingletonColumn(cells: seq<Cell>, j: nat)
    requires CellsOk(cells) && j < |EdgeLabels(cells)|
    ensures IsSingleton(IncidenceOf(cells), j) <==> IsSingletonEdge(cells, EdgeLabels(cells)[j])
  {
    if IsSingleton(IncidenceOf(cells), j) {
      SingletonColumnEdge(cells, j);
    }
    if IsSingletonEdge(cells, EdgeLabels(cells)[j]) {
      SingletonEdgeColumn(cells, j);
    }
  }

  /** The labels of the singleton columns are the singleton edges. */
  lemma SingletonLabelsMeaning(cells: seq<Cell>, v: Value)
    requires CellsOk(cells)
    ensures (exists j :: 0 <= j < |EdgeLabels(cells)| && IsSingleton(IncidenceOf(cells), j) && EdgeLabels(cells)[j] == v)
            <==> IsSingletonEdge(cells, v)
  {
    var el := EdgeLabels(cells);
    if exists j :: 0 <= j < |el| && IsSingleton(IncidenceOf(cells), j) && el[j] == v {
      var j :| 0 <= j < |el| && IsSingleton(IncidenceOf(cells), j) && el[j] == v;
      SingletonColumn(cells, j);
    }
    if IsSingletonEdge(cells, v) {
      SingletonColumn(cells, IndexOf(el, v));
    }
  }

  // ---------------------------------------------------------------------------
  // s_connected_components

  /** The components the generator yields from `comps`, in order: all of
      them with `return_singletons`, otherwise those not of size 1. */
  function YieldedComponents(comps: seq<set<Value>>, returnSingletons: bool): (r: seq<set<Value>>)
    ensures |r| <= |comps|
    ensures forall c :: c in r <==> c in comps && (returnSingletons || |c| != 1)
    decreases |comps|
  {
    if comps == [] then []
    else
      var p := YieldedComponents(comps[..|comps| - 1], returnSingletons);
      var last := comps[|comps| - 1];
      assert forall c :: c in comps <==> c in comps[..|comps| - 1] || c == last;
      if returnSingletons || |last| != 1 then p + [last] else p
  }

  /** With `return_singletons` every component is yielded, in order. */
  lemma {:induction false} YieldAll(comps: seq<set<Value>>)
    ensures YieldedComponents(comps, true) == comps
    decreases |comps|
  {
    if comps != [] {
      YieldAll(comps[..|comps| - 1]);
    }
  }

  /** The loop of `s_connected_components` over the components of the
      s-line-graph, skipping single-element ones unless asked for. */
  method SConnectedComponents(comps: seq<set<Value>>, returnSingletons: bool) returns (r: seq<set<Value>>)
    ensures r == YieldedComponents(comps, returnSingletons)
  {
    r := [];
    var k := 0;
    while k < |comps|
      invariant 0 <= k <= |comps|
      invariant r == YieldedComponents(comps[..k], returnSingletons)
    {
      assert comps[..k + 1][..k] == comps[..k];
      var c := comps[k];
      if !returnSingletons && |c| == 1 {
        k := k + 1;
        continue;
      }
      r := r + [c];
      k := k + 1;
    }
    assert comps[..k] == comps;
  }

  // ---------------------------------------------------------------------------
  // The Hypergraph object

  class Hypergraph {
    /** The incidence rows shared by the edge and node views. */
    var cells: seq<Cell>
    /** `state_dict`. */
    var state: State

    predicate Valid()
      reads this
    {
      CellsOk(cells) && StateShaped(state)
    }

    /** The cache agrees with the rows. */
    predicate Coherent()
      reads this
    {
      Valid() && StateCoherent(cells, state)
    }

    /** `Hypergraph(setsystem)`: the rows, then `update_state`. */
    constructor (rows: seq<Cell>)
      requires CellsOk(rows)
      ensures cells == rows && state == FreshState(rows)
      ensures Coherent()
    {
      cells := rows;
      state := FreshState(rows);
      new;
      UpdateState();
    }

    /** `update_state`: set the three default keys, then pop every other key. */
    method UpdateState()
      modifies this
      ensures cells == old(cells) && state == FreshState(cells)
      ensures CellsOk(cells) ==> Coherent()
    {
      state := state.(data := DataOf(cells), nodeGraphs := map[], edgeGraphs := map[]);
      state := state.(incidence := None, weightedIncidence := None, sizes := None);
    }

    /** `incidence_matrix(weights, index=True)`: the memoised matrix with its
        row (node) and column (edge) labels. */
    method IncidenceMatrix(weights: bool) returns (m: Matrix, rdict: seq<Value>, cdict: seq<Value>)
      requires Valid()
      modifies this
      ensures cells == old(cells) && Valid()
      ensures state == CacheIncidence(old(state), cells, weights) && m == CachedIncidence(old(state), cells, weights)
      ensures rdict == NodeLabels(cells) && cdict == EdgeLabels(cells)
      ensures old(Coherent()) ==> Coherent() && m == FreshIncidence(cells, weights)
    {
      ghost var st0 := state;
      IncidenceMemo(st0, cells, weights);
      if old(Coherent()) {
        IncidenceMemoCoherent(st0, cells, weights);
      }
      if StoredIncidence(state, weights).None? {
        state := WithIncidence(state, weights, FreshIncidence(cells, weights));
      }
      m := StoredIncidence(state, weights).value;
      rdict := NodeLabels(cells);
      cdict := EdgeLabels(cells);
    }

    /** `adjacency_matrix(s, index=True)`: the node s-adjacency matrix of the
        (cached) unweighted incidence matrix, with the node labels. The
        incidence matrix is cached first, so it stays cached when the
        threshold raises at s = 0. */
    method AdjacencyMatrix(s: int) returns (r: Result<(Matrix, seq<Value>)>)
      requires Valid()
      modifies this
      ensures cells == old(cells) && Valid()
      ensures state == CacheIncidence(old(state), cells, false)
      ensures s == 0 ==> r == Err(NotImplementedError(ZeroThresholdMsg))
      ensures s != 0 ==> r == Ok((IncidenceToAdjacency(CachedIncidence(old(state), cells, false), s), NodeLabels(cells)))
      ensures old(Coherent()) ==> Coherent()
      ensures old(Coherent()) && s != 0 ==> r.value.0 == IncidenceToAdjacency(IncidenceOf(cells), s)
    {
      var m, rdict, _ := IncidenceMatrix(false);
      if s == 0 {
        return Err(NotImplementedError(ZeroThresholdMsg));
      }
      r := Ok((IncidenceToAdjacency(m, s), rdict));
    }

    /** `edge_adjacency_matrix(s, index=True)`: the s-adjacency matrix of the
        transposed incidence matrix, with the edge labels; s = 0 raises as
        for `adjacency_matrix`. */
    method EdgeAdjacencyMatrix(s: int) returns (r: Result<(Matrix, seq<Value>)>)
      requires Valid()
      modifies this
      ensures cells == old(cells) && Valid()
      ensures state == CacheIncidence(old(state), cells, false)
      ensures s == 0 ==> r == Err(NotImplementedError(ZeroThresholdMsg))
      ensures s != 0 ==> r == Ok((EdgeAdjacency(CachedIncidence(old(state), cells, false), s), EdgeLabels(cells)))
      ensures old(Coherent()) ==> Coherent()
      ensures old(Coherent()) && s != 0 ==> r.value.0 == EdgeAdjacency(IncidenceOf(cells), s)
    {
      var m, _, cdict := IncidenceMatrix(false);
      if s == 0 {
        return Err(NotImplementedError(ZeroThresholdMsg));
      }
      r := Ok((EdgeAdjacency(m, s), cdict));
    }

    /** `get_linegraph(s, edges)`: the stored graph on a hit; on a miss the
        graph of the adjacency matrix, labelled, stored under s. Nothing is
        ever stored under s = 0, so there the adjacency matrix raises, after
        caching the incidence matrix. */
    method GetLinegraph(s: int, edges: bool) returns (r: Result<Graph>)
      requires Valid()
      modifies this
      ensures cells == old(cells) && Valid()
      ensures s == 0 ==> r == Err(NotImplementedError(ZeroThresholdMsg)) && state == CacheIncidence(old(state), cells, false)
      ensures s != 0 ==> state == CacheLineGraph(old(state), cells, s, edges) && r == Ok(CachedLineGraph(old(state), cells, s, edges))
      ensures old(Coherent()) ==> Coherent()
      ensures old(Coherent()) && s != 0 ==> r.value == (if edges then EdgeLineGraph(cells, s) else NodeLineGraph(cells, s))
    {
      ghost var st0 := state;
      if s != 0 {
        LineGraphMemo(st0, cells, s, edges);
        if old(Coherent()) {
          LineGraphMemoCoherent(st0, cells, s, edges);
        }
      }
      if s in Graphs(state, edges) {
        return Ok(Graphs(state, edges)[s]);
      }
      var a;
      if edges {
        a := EdgeAdjacencyMatrix(s);
      } else {
        a := AdjacencyMatrix(s);
      }
      if a.Err? {
        return Err(a.error);
      }
      var g := Graph(a.value.1, a.value.0);
      IncidenceMemo(st0, cells, false);
      state := WithGraphs(state, edges, Graphs(state, edges)[s := g]);
      r := Ok(g);
    }

    /** `edge_size_dist`: the column sums of the incidence matrix, memoised. */
    method EdgeSizeDist() returns (dist: seq<int>)
      requires Valid()
      modifies this
      ensures cells == old(cells) && Valid()
      ensures state == CacheSizes(old(state), cells) && dist == CachedSizes(old(state), cells)
      ensures old(Coherent()) ==> Coherent() && |dist| == |EdgeLabels(cells)|
      ensures old(Coherent()) ==> forall j :: 0 <= j < |dist| ==> dist[j] == |Members(cells, EdgeLabels(cells)[j])|
    {
      ghost var st0 := state;
      SizesMemo(st0, cells);
      if old(Coherent()) {
        SizesMemoCoherent(st0, cells);
      }
      if state.sizes.None? {
        var m, _, _ := IncidenceMatrix(false);
        state := state.(sizes := Some(ColumnSums(m)));
      }
      dist := state.sizes.value;
    }

    /** `degree(node, s, max_size)`: the number of the node's edges whose size
        is in range; an unknown node is a KeyError. */
    method Degree(node: Value, s: int, maxSize: Option<int>) returns (r: Result<nat>)
      ensures node !in NodeLabels(cells) ==> r == Err(KeyError)
      ensures node in NodeLabels(cells) ==> r == Ok(|QualifyingEdges(cells, node, s, maxSize)|)
    {
      if node !in NodeLabels(cells) {
        return Err(KeyError);
      }
      var c := cells;
      var ms := Memberships(c, node);
      var memberships: set<Value> := {};
      var k := 0;
      while k < |ms|
        invariant 0 <= k <= |ms|
        invariant memberships == QualifyingAmong(c, ms[..k], s, maxSize)
      {
        var e := ms[k];
        var size := |Members(c, e)|;
        QualifyingAmongStep(c, ms, k, s, maxSize);
        if size >= s && (maxSize.None? || size <= maxSize.value) {
          memberships := memberships + {e};
        }
        k := k + 1;
      }
      assert ms[..k] == ms;
      return Ok(|memberships|);
    }

    /** `size(edge, nodeset)`: the number of the edge's nodes (in nodeset,
        when given); an unknown edge is a KeyError. */
    function Size(edge: Value, nodeset: Option<seq<Value>>): (r: Result<nat>)
      reads this
      ensures r.Ok? <==> edge in EdgeLabels(cells)
      ensures r.Ok? && nodeset.Some? ==>
                r.value == |(set x | x in nodeset.value) * (set x | x in Members(cells, edge))|
      ensures r.Ok? && nodeset.None? ==> r.value == |Members(cells, edge)|
    {
      if edge !in EdgeLabels(cells) then Err(KeyError)
      else if nodeset.Some? then Ok(|(set x | x in nodeset.value) * (set x | x in Members(cells, edge))|)
      else Ok(|Members(cells, edge)|)
    }

    /** `dim(edge)`: one less than the size; at least 0 for a known edge. */
    function Dim(edge: Value): (r: Result<int>)
      reads this
      ensures r.Ok? <==> edge in EdgeLabels(cells)
      ensures r.Ok? ==> r.value == |Members(cells, edge)| - 1
      ensures r.Ok? && CellsOk(cells) ==> r.value >= 0
    {
      match Size(edge, None)
      case Err(err) => Err(err)
      case Ok(n) =>
        if CellsOk(cells) then
          LabelsAreIncident(cells, edge, edge);
          var m :| HasCell(cells, edge, m);
          assert m in Members(cells, edge);
          Ok(n - 1)
        else Ok(n - 1)
    }

    /** `number_of_nodes(nodeset)`: None (and only None) means all nodes. */
    function NumberOfNodes(nodeset: Option<seq<Value>>): (r: nat)
      reads this
      ensures r <= |NodeLabels(cells)|
      ensures nodeset.None? ==> r == |NodeLabels(cells)|
      ensures nodeset.Some? ==> r == |FilterIn(NodeLabels(cells), nodeset.value)|
    {
      if nodeset.Some? then |FilterIn(NodeLabels(cells), nodeset.value)| else |NodeLabels(cells)|
    }

    /** `number_of_edges(edgeset)`: an empty (falsy) edgeset also means all edges. */
    function NumberOfEdges(edgeset: Option<seq<Value>>): (r: nat)
      reads this
      ensures r <= |EdgeLabels(cells)|
      ensures edgeset.None? || edgeset == Some([]) ==> r == |EdgeLabels(cells)|
      ensures edgeset.Some? && edgeset.value != [] ==> r == |FilterIn(EdgeLabels(cells), edgeset.value)|
    {
      if edgeset.Some? && edgeset.value != [] then |FilterIn(EdgeLabels(cells), edgeset.value)| else |EdgeLabels(cells)|
    }

    /** `neighbors(node, s)`: None for an unknown node; otherwise the
        neighbours in the (cached) s-line graph, whose construction raises
        at s = 0. On a coherent cache these are the other nodes sharing at
        least s edges with node. */
    method Neighbors(node: Value, s: int) returns (r: Result<Option<set<Value>>>)
      requires Valid()
      modifies this
      ensures cells == old(cells) && Valid()
      ensures node !in NodeLabels(cells) ==> r == Ok(None) && state == old(state)
      ensures node in NodeLabels(cells) && s == 0 ==>
                r == Err(NotImplementedError(ZeroThresholdMsg)) && state == CacheIncidence(old(state), cells, false)
      ensures node in NodeLabels(cells) && s != 0 ==>
                state == CacheLineGraph(old(state), cells, s, false) && r == NeighborsResult(CachedLineGraph(old(state), cells, s, false), node)
      ensures old(Coherent()) ==> Coherent()
      ensures old(Coherent()) && node in NodeLabels(cells) && s >= 1 ==>
                r.Ok? && r.value.Some? && forall x :: x in r.value.value <==> x in NodeLabels(cells) && x != node && |SharedEdges(cells, node, x)| >= s
    {
      if node !in NodeLabels(cells) {
        return Ok(None);
      }
      var g := GetLinegraph(s, false);
      if g.Err? {
        return Err(g.error);
      }
      r := NeighborsResult(g.value, node);
      if old(Coherent()) && s >= 1 {
        NodeNeighborsMeaning(cells, s, node);
      }
    }

    /** `edge_neighbors(edge, s)`: the same on the edge s-line graph. */
    method EdgeNeighbors(edge: Value, s: int) returns (r: Result<Option<set<Value>>>)
      requires Valid()
      modifies this
      ensures cells == old(cells) && Valid()
      ensures edge !in EdgeLabels(cells) ==> r == Ok(None) && state == old(state)
      ensures edge in EdgeLabels(cells) && s == 0 ==>
                r == Err(NotImplementedError(ZeroThresholdMsg)) && state == CacheIncidence(old(state), cells, false)
      ensures edge in EdgeLabels(cells) && s != 0 ==>
                state == CacheLineGraph(old(state), cells, s, true) && r == NeighborsResult(CachedLineGraph(old(state), cells, s, true), edge)
      ensures old(Coherent()) ==> Coherent()
      ensures old(Coherent()) && edge in EdgeLabels(cells) && s >= 1 ==>
                r.Ok? && r.value.Some? && forall x :: x in r.value.value <==> x in EdgeLabels(cells) && x != edge && |SharedNodes(cells, edge, x)| >= s
    {
      if edge !in EdgeLabels(cells) {
        return Ok(None);
      }
      var g := GetLinegraph(s, true);
      if g.Err? {
        return Err(g.error);
      }
      r := NeighborsResult(g.value, edge);
      if old(Coherent()) && s >= 1 {
        EdgeNeighborsMeaning(cells, s, edge);
      }
    }

    /** `remove_node(node, update_state)`: for each edge of the node, drop the
        node's rows (the first pass drops them all); reset the state only when
        the node was present and update_state is set. */
    method RemoveNode(node: Value, updateState: bool)
      requires Valid()
      modifies this
      ensures Valid()
      ensures cells == DropNode(old(cells), node)
      ensures state == (if node in NodeLabels(old(cells)) && updateState then FreshState(cells) else old(state))
    {
      if node !in NodeLabels(cells) {
        DropAbsentNode(cells, node);
        return;
      }
      var rows := NodeRemovalPass(cells, node);
      DropNodeOk(cells, node);
      cells := rows;
      if updateState {
        UpdateState();
      }
    }

    /** `remove_nodes(node_set)`: each node removed without a reset, then one
        reset. */
    method RemoveNodes(nodeSet: seq<Value>)
      requires Valid()
      modifies this
      ensures Coherent()
      ensures cells == DropNodes(old(cells), nodeSet) && state == FreshState(cells)
    {
      var k := 0;
      while k < |nodeSet|
        invariant 0 <= k <= |nodeSet|
        invariant Valid() && cells == DropNodes(old(cells), nodeSet[..k])
      {
        assert nodeSet[..k + 1][..k] == nodeSet[..k];
        RemoveNode(nodeSet[k], false);
        k := k + 1;
      }
      assert nodeSet[..k] == nodeSet;
      UpdateState();
    }

    /** One step of the node pass: remove a node whose only membership is
        the edge, with a reset. */
    method RemoveSoleNode(ghost c0: seq<Cell>, edge: Value, ghost R: set<Value>, n: Value)
      requires Valid() && CellsOk(c0) && cells == Keep(c0, edge, R)
      requires n in Members(c0, edge) && n !in R && |Memberships(c0, n)| == 1
      modifies this
      ensures Valid() && cells == Keep(c0, edge, R + {n}) && state == FreshState(cells)
    {
      SoleStep(c0, edge, R, n);
      RemoveNode(n, true);
    }

    /** One node of the pass: the k-th member of the edge is removed (with a
        reset) when the edge is its only membership in the current rows. */
    method SolePassStep(ghost c0: seq<Cell>, edge: Value, ns: seq<Value>, k: nat, ghost st0: State)
      requires CellsOk(c0) && ns == Members(c0, edge) && NoDup(ns) && k < |ns|
      requires Valid() && cells == Keep(c0, edge, SoleAmong(c0, ns[..k]))
      requires state == SoleRemovalPartial(c0, edge, SoleAmong(c0, ns[..k]), st0)
      modifies this
      ensures Valid() && cells == Keep(c0, edge, SoleAmong(c0, ns[..k + 1]))
      ensures state == SoleRemovalPartial(c0, edge, SoleAmong(c0, ns[..k + 1]), st0)
    {
      var n := ns[k];
      ghost var R := SoleAmong(c0, ns[..k]);
      SoleAmongStep(c0, ns, k);
      KeepMemberships(c0, edge, R, n);
      if |Memberships(cells, n)| == 1 {
        RemoveSoleNode(c0, edge, R, n);
        assert SoleAmong(c0, ns[..k + 1]) == R + {n};
      } else {
        assert SoleAmong(c0, ns[..k + 1]) == R;
      }
    }

    /** The node pass of `remove_edge`: each node of the edge whose only
        membership is this edge is removed with a reset. */
    method RemoveSoleNodes(edge: Value)
      requires Valid() && edge in EdgeLabels(cells)
      modifies this
      ensures Valid()
      ensures cells == Keep(old(cells), edge, SoleNodes(old(cells), edge))
      ensures state == SoleRemovalState(old(cells), edge, old(state))
    {
      ghost var c0 := cells;
      ghost var st0 := state;
      var ns := Members(cells, edge);
      MembersNoDup(c0, edge);
      KeepNothing(c0, edge);
      assert SoleAmong(c0, ns[..0]) == {};
      var k := 0;
      while k < |ns|
        invariant 0 <= k <= |ns|
        invariant Valid() && cells == Keep(c0, edge, SoleAmong(c0, ns[..k]))
        invariant state == SoleRemovalPartial(c0, edge, SoleAmong(c0, ns[..k]), st0)
      {
        SolePassStep(c0, edge, ns, k, st0);
        k := k + 1;
      }
      SoleAmongAll(c0, edge, ns);
    }

    /** `remove_edge(edge, update_state)`: the sole-member nodes of the edge
        are removed (each removal resets the state), then the edge's rows are
        dropped; update_state resets at the end, whether or not the edge was
        present. */
    method RemoveEdge(edge: Value, updateState: bool)
      requires Valid()
      modifies this
      ensures Valid()
      ensures cells == DropEdge(old(cells), edge)
      ensures updateState ==> state == FreshState(cells)
      ensures !updateState ==>
                state == (if edge in EdgeLabels(old(cells)) then SoleRemovalState(old(cells), edge, old(state)) else old(state))
    {
      if edge in EdgeLabels(cells) {
        ghost var c0 := cells;
        RemoveSoleNodes(edge);
        DropEdgeAfterKeep(c0, edge, SoleNodes(c0, edge));
        DropEdgeOk(cells, edge);
        cells := DropEdge(cells, edge);
      } else {
        DropAbsentEdge(cells, edge);
      }
      if updateState {
        UpdateState();
      }
    }

    /** `remove_edges(edge_set)`: each edge removed without a final reset,
        then one reset. */
    method RemoveEdges(edgeSet: seq<Value>)
      requires Valid()
      modifies this
      ensures Coherent()
      ensures cells == DropEdges(old(cells), edgeSet) && state == FreshState(cells)
    {
      var k := 0;
      while k < |edgeSet|
        invariant 0 <= k <= |edgeSet|
        invariant Valid() && cells == DropEdges(old(cells), edgeSet[..k])
      {
        assert edgeSet[..k + 1][..k] == edgeSet[..k];
        RemoveEdge(edgeSet[k], false);
        k := k + 1;
      }
      assert edgeSet[..k] == edgeSet;
      UpdateState();
    }

    /** `add_edge({key: nodes})`: warn when the key is already an edge or a
        node, add the rows regardless, reset when update_state is set. */
    method AddEdge(key: Value, nodes: seq<Value>, updateState: bool) returns (warning: Option<string>)
      requires Valid() && key != Missing && Missing !in nodes
      modifies this
      ensures Valid()
      ensures warning == (if key in EdgeLabels(old(cells)) then Some(EdgeExistsWarning)
                          else if key in NodeLabels(old(cells)) then Some(NodeExistsWarning)
                          else None)
      ensures cells == AddCells(old(cells), key, nodes)
      ensures state == (if updateState then FreshState(cells) else old(state))
    {
      if key in EdgeLabels(cells) {
        warning := Some(EdgeExistsWarning);
      } else if key in NodeLabels(cells) {
        warning := Some(NodeExistsWarning);
      } else {
        warning := None;
      }
      AddCellsIncidence(cells, key, nodes);
      cells := AddCells(cells, key, nodes);
      if updateState {
        UpdateState();
      }
    }

    /** `add_edges_from(edge_set)`: each edge added without a reset, then one
        reset. */
    method AddEdgesFrom(edgeSet: seq<(Value, seq<Value>)>)
      requires Valid()
      requires forall k :: 0 <= k < |edgeSet| ==> edgeSet[k].0 != Missing && Missing !in edgeSet[k].1
      modifies this
      ensures Coherent()
      ensures cells == AddAllCells(old(cells), edgeSet) && state == FreshState(cells)
    {
      var k := 0;
      while k < |edgeSet|
        invariant 0 <= k <= |edgeSet|
        invariant Valid() && cells == AddAllCells(old(cells), edgeSet[..k])
      {
        assert edgeSet[..k + 1][..k] == edgeSet[..k];
        var _ := AddEdge(edgeSet[k].0, edgeSet[k].1, false);
        k := k + 1;
      }
      assert edgeSet[..k] == edgeSet;
      UpdateState();
    }

    /** `add_node_to_edge(node, edge)`: only for an existing edge, whose
        "already in hypergraph" warning is suppressed. */
    method AddNodeToEdge(node: Value, edge: Value, updateState: bool)
      requires Valid() && node != Missing
      modifies this
      ensures Valid()
      ensures cells == (if edge in EdgeLabels(old(cells)) then AddCells(old(cells), edge, [node]) else old(cells))
      ensures state == (if edge in EdgeLabels(old(cells)) && updateState then FreshState(cells) else old(state))
    {
      if edge in EdgeLabels(cells) {
        var _ := AddEdge(edge, [node], updateState);
      }
    }

    /** `toplexes()`: the scan over the edges in label order, then
        `restrict_to_edges` of the kept ones. The new hypergraph holds the
        rows of exactly the toplexes; no toplex's node set lies inside
        another's, and every edge's node set lies inside some toplex's. */
    method Toplexes() returns (h: Hypergraph)
      requires Valid()
      ensures fresh(h) && h.Coherent()
      ensures h.cells == RestrictToEdges(cells, ToplexLabels(cells))
      ensures forall t, u :: t in ToplexLabels(cells) && u in ToplexLabels(cells) && t != u
                ==> !(MemberSet(cells, t) <= MemberSet(cells, u))
      ensures forall e :: e in EdgeLabels(cells)
                ==> exists t :: t in ToplexLabels(cells) && MemberSet(cells, e) <= MemberSet(cells, t)
    {
      var el := EdgeLabels(cells);
      var tops := ToplexScan(EdgeSets(cells));
      var ids := seq(|tops|, a requires 0 <= a < |tops| => el[tops[a]]);
      ScanIds(cells, tops, ids);
      ScanAntichain(cells, tops, ids);
      ScanCovers(cells, tops, ids);
      h := RestrictToEdgeSet(ids);
    }

    /** `singletons()`: the singleton columns of the (cached) incidence
        matrix, by whichever walk its shape selects; they are exactly the
        edges of size 1 whose node has degree 1. */
    method Singletons() returns (singles: seq<Value>)
      requires Coherent()
      modifies this
      ensures cells == old(cells) && Coherent()
      ensures state == CacheIncidence(old(state), cells, false)
      ensures forall v :: v in singles <==> IsSingletonEdge(cells, v)
    {
      var m, _, cdict := IncidenceMatrix(false);
      singles := Matrices.Singletons(m, cdict);
      forall v ensures v in singles <==> IsSingletonEdge(cells, v) {
        SingletonLabelsMeaning(cells, v);
      }
    }

    /** `restrict_to_edges(edgeset)`: a new hypergraph on the rows of the
        given edges. */
    method RestrictToEdgeSet(edgeset: seq<Value>) returns (h: Hypergraph)
      requires Valid()
      requires forall e :: e in edgeset ==> e in EdgeLabels(cells)
      ensures fresh(h) && h.Coherent()
      ensures h.cells == RestrictToEdges(cells, set e | e in edgeset) && h.state == FreshState(h.cells)
    {
      RestrictOk(cells, set e | e in edgeset);
      h := new Hypergraph(RestrictToEdges(cells, set e | e in edgeset));
    }
  }
}
