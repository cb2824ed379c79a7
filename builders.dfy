/** The two alternative constructors that do more than hand their input to
    the edge table: `from_numpy_array`, which validates a matrix and its
    name lists and lists the nonzero (edge, node) positions, and
    `from_bipartite`, which splits a 2-coloured graph into edge and node
    sides and orients every link edge-first. Both produce the rows the edge
    table is then built from. */
module Builders {
  import opened Values
  import opened Seqs
  import opened Matrices

  // ---------------------------------------------------------------------------
  // from_numpy_array

  /** A number of dimensions other than two. */
  type OtherNdim = n: nat | n != 2 witness 0

  /** `np.array(M)`: a two-dimensional array, or one of any other number of
      dimensions (whose entries the model does not hold). */
  datatype NdArray = Grid(m: Matrix) | OtherRank(ndim: OtherNdim)

  /** What `from_numpy_array` hands to the edge table: the (column, row)
      positions of the nonzero entries and the edge and node names. */
  datatype NumpyData = NumpyData(pairs: seq<(nat, nat)>, edgeNames: seq<Value>, nodeNames: seq<Value>)

  /** Position order of `M.T.nonzero()`: by edge (column), then by node (row). */
  predicate PairLess(p: (nat, nat), q: (nat, nat))
  {
    p.0 < q.0 || (p.0 == q.0 && p.1 < q.1)
  }

  predicate PairsIncreasing(ps: seq<(nat, nat)>)
  {
    forall a, b :: 0 <= a < b < |ps| ==> PairLess(ps[a], ps[b])
  }

  /** The nonzero rows of column j among the first n, as (j, row) pairs, in
      row order. */
  function ColumnPairs(m: Matrix, j: nat, n: nat): (r: seq<(nat, nat)>)
    requires Shaped(m) && j < m.width && n <= m.height
    ensures forall p :: p in r <==> p.0 == j && p.1 < n && m.at[p.1][j] != 0
    ensures forall a :: 0 <= a < |r| ==> r[a].0 == j && r[a].1 < n
    ensures PairsIncreasing(r)
  {
    if n == 0 then []
    else
      var p := ColumnPairs(m, j, n - 1);
      if m.at[n - 1][j] != 0 then p + [(j, n - 1)] else p
  }

  /** `M.T.nonzero()` over the first w columns: exactly the positions of the
      nonzero entries, each once, ordered by column and then by row. An
      all-zero column contributes no pair. */
  function NonzeroPairs(m: Matrix, w: nat): (r: seq<(nat, nat)>)
    requires Shaped(m) && w <= m.width
    ensures forall p :: p in r <==> p.0 < w && p.1 < m.height && m.at[p.1][p.0] != 0
    ensures forall a :: 0 <= a < |r| ==> r[a].0 < w && r[a].1 < m.height
    ensures PairsIncreasing(r)
  {
    if w == 0 then []
    else
      var p := NonzeroPairs(m, w - 1);
      var c := ColumnPairs(m, w - 1, m.height);
      var r := p + c;
      assert forall a :: 0 <= a < |r| ==> r[a] == (if a < |p| then p[a] else c[a - |p|]);
      r
  }

  /** Ordered positions are pairwise distinct, so no row is repeated. */
  lemma IncreasingDistinct(ps: seq<(nat, nat)>)
    requires PairsIncreasing(ps)
    ensures NoDup(ps)
  {
    forall a, b | 0 <= a < b < |ps| ensures ps[a] != ps[b] {
      assert PairLess(ps[a], ps[b]);
    }
  }

  /** `[f"{prefix}{idx}" for idx in range(n)]`. */
  function DefaultNames(prefix: string, n: nat): (names: seq<Value>)
    ensures |names| == n
  {
    seq(n, i requires 0 <= i < n => PrefixedName(prefix, i))
  }

  /** Generated names are distinct and never missing. */
  lemma DefaultNamesDistinct(prefix: string, n: nat)
    ensures NoDup(DefaultNames(prefix, n))
    ensures Missing !in DefaultNames(prefix, n)
  {
    var names := DefaultNames(prefix, n);
    forall i, j | 0 <= i < j < n ensures names[i] != names[j] {
      if names[i] == names[j] {
        PrefixedNameInjective(prefix, i, j);
      }
    }
  }

  /** An element of a numpy string array: a string stays, an int prints in
      decimal. */
  function AsNumpyStr(v: Value): (r: Value)
    requires !v.Missing?
    ensures r.Str?
    ensures v.Str? ==> r == v
    ensures v.Int? ==> r == Str(IntToString(v.i))
  {
    match v
    case Str(_) => v
    case Int(i) => Str(IntToString(i))
  }

  /** numpy turns the whole list into a string array: it holds a string and
      no missing value (a missing value, taken as None, makes an object
      array that keeps every element as it is). */
  predicate NumpyStrings(names: seq<Value>)
  {
    (exists k :: 0 <= k < |names| && names[k].Str?) && forall k :: 0 <= k < |names| ==> !names[k].Missing?
  }

  /** `np.array(names)`: numpy gives the array one element type. A list of
      strings and ints becomes a string array, each int its decimal string;
      any other list keeps its elements. */
  function NumpyNames(names: seq<Value>): (r: seq<Value>)
    ensures |r| == |names|
    ensures NumpyStrings(names) ==> forall k :: 0 <= k < |r| ==> r[k].Str?
    ensures forall k :: 0 <= k < |r| && names[k].Str? ==> r[k] == names[k]
    ensures forall k :: 0 <= k < |r| && names[k].Int? ==>
              r[k] == (if NumpyStrings(names) then Str(IntToString(names[k].i)) else names[k])
    ensures !NumpyStrings(names) ==> r == names
  {
    if NumpyStrings(names) then seq(|names|, k requires 0 <= k < |names| => AsNumpyStr(names[k]))
    else names
  }

  /** Converting twice changes nothing more: a string array stays as it is. */
  lemma NumpyNamesIdempotent(names: seq<Value>)
    ensures NumpyNames(NumpyNames(names)) == NumpyNames(names)
  {
    var r := NumpyNames(names);
    if NumpyStrings(names) {
      assert forall k :: 0 <= k < |r| ==> r[k].Str?;
      assert NumpyNames(r) == r;
    }
  }

  /** The conversion merges two different names only when one is an int and
      the other its decimal string, as `[1, "1"]` becomes `["1", "1"]`. */
  lemma NumpyNamesMerges(names: seq<Value>, a: nat, b: nat)
    requires a < |names| && b < |names| && names[a] != names[b]
    requires NumpyNames(names)[a] == NumpyNames(names)[b]
    ensures || (names[a].Int? && names[b] == Str(IntToString(names[a].i)))
            || (names[b].Int? && names[a] == Str(IntToString(names[b].i)))
  {
    if names[a].Int? && names[b].Int? {
      IntToStringInjective(names[a].i, names[b].i);
    }
  }

  /** The given names as numpy holds them, or the generated ones; an error
      when given names do not match the extent. */
  function NamesFor(given: Option<seq<Value>>, prefix: string, n: nat, msg: string): (r: Result<seq<Value>>)
    ensures r.Err? <==> given.Some? && |given.value| != n
    ensures r.Err? ==> r.error == HyperNetXError(msg)
    ensures r.Ok? ==> |r.value| == n
    ensures r.Ok? && given.Some? ==> r.value == NumpyNames(given.value)
    ensures r.Ok? && given.None? ==> r.value == DefaultNames(prefix, n)
  {
    match given
    case Some(names) => if |names| != n then Err(HyperNetXError(msg)) else Ok(NumpyNames(names))
    case None => Ok(DefaultNames(prefix, n))
  }

  const RankError := "Input requires a 2 dimensional numpy array"
  const NodeNamesError := "Number of node names does not match number of rows."
  const EdgeNamesError := "Number of edge_names does not match number of columns."

  /** `from_numpy_array(M, node_names, edge_names)`: rows of M are nodes and
      columns edges. The checks run in the source's order: the rank, then
      the node names, then the edge names. On success the positions are the
      nonzero entries, edge first, and the names are the given ones as numpy
      holds them or `v<i>` / `e<j>`. */
  function FromNumpyArray(arr: NdArray, nodeNames: Option<seq<Value>>, edgeNames: Option<seq<Value>>): (r: Result<NumpyData>)
    requires arr.Grid? ==> Shaped(arr.m)
    ensures arr.OtherRank? ==> r == Err(HyperNetXError(RankError))
    ensures arr.Grid? && nodeNames.Some? && |nodeNames.value| != arr.m.height
            ==> r == Err(HyperNetXError(NodeNamesError))
    ensures arr.Grid? && (nodeNames.None? || |nodeNames.value| == arr.m.height)
            && edgeNames.Some? && |edgeNames.value| != arr.m.width
            ==> r == Err(HyperNetXError(EdgeNamesError))
    ensures r.Ok? <==> arr.Grid? && (nodeNames.None? || |nodeNames.value| == arr.m.height)
                       && (edgeNames.None? || |edgeNames.value| == arr.m.width)
    ensures r.Ok? ==> |r.value.nodeNames| == arr.m.height && |r.value.edgeNames| == arr.m.width
    ensures r.Ok? ==> forall p :: p in r.value.pairs <==>
                        p.0 < arr.m.width && p.1 < arr.m.height && arr.m.at[p.1][p.0] != 0
    ensures r.Ok? ==> PairsIncreasing(r.value.pairs)
    ensures r.Ok? && nodeNames.Some? ==> r.value.nodeNames == NumpyNames(nodeNames.value)
    ensures r.Ok? && edgeNames.Some? ==> r.value.edgeNames == NumpyNames(edgeNames.value)
    ensures r.Ok? && nodeNames.None? ==> r.value.nodeNames == DefaultNames("v", arr.m.height)
    ensures r.Ok? && edgeNames.None? ==> r.value.edgeNames == DefaultNames("e", arr.m.width)
  {
    match arr
    case OtherRank(_) => Err(HyperNetXError(RankError))
    case Grid(m) =>
      match NamesFor(nodeNames, "v", m.height, NodeNamesError)
      case Err(e) => Err(e)
      case Ok(nodes) =>
        match NamesFor(edgeNames, "e", m.width, EdgeNamesError)
        case Err(e) => Err(e)
        case Ok(edges) => Ok(NumpyData(NonzeroPairs(m, m.width), edges, nodes))
  }

  // ---------------------------------------------------------------------------
  // from_bipartite

  /** A networkx graph: its nodes with their "bipartite" attribute (None
      when the node has none), and its links. */
  datatype Graph2 = Graph2(nodes: seq<(Value, Option<Value>)>, links: seq<(Value, Value)>)

  /** The graph is well formed: node ids are distinct and every link joins
      two of them. */
  predicate GraphOk(b: Graph2)
  {
    && (forall k, l :: 0 <= k < l < |b.nodes| ==> b.nodes[k].0 != b.nodes[l].0)
    && (forall k :: 0 <= k < |b.links| ==> IsNode(b, b.links[k].0) && IsNode(b, b.links[k].1))
  }

  predicate IsNode(b: Graph2, v: Value)
  {
    exists k :: 0 <= k < |b.nodes| && b.nodes[k].0 == v
  }

  /** Every node carries the attribute. */
  predicate Coloured(b: Graph2)
  {
    forall k :: 0 <= k < |b.nodes| ==> b.nodes[k].1.Some?
  }

  /** Some entry of `ns` is node v with colour 0 (`zero`) or another colour. */
  predicate HasColour(ns: seq<(Value, Option<Value>)>, v: Value, zero: bool)
  {
    exists k :: 0 <= k < |ns| && ns[k].0 == v && ns[k].1.Some? && (ns[k].1 == Some(Int(0)) <==> zero)
  }

  lemma HasColourStep(ns: seq<(Value, Option<Value>)>, v: Value, zero: bool)
    requires ns != []
    ensures HasColour(ns, v, zero) <==>
              HasColour(ns[..|ns| - 1], v, zero)
              || (ns[|ns| - 1].0 == v && ns[|ns| - 1].1.Some? && (ns[|ns| - 1].1 == Some(Int(0)) <==> zero))
  {
    var p := ns[..|ns| - 1];
    if HasColour(ns, v, zero) {
      var k :| 0 <= k < |ns| && ns[k].0 == v && ns[k].1.Some? && (ns[k].1 == Some(Int(0)) <==> zero);
      if k < |p| {
        assert p[k] == ns[k];
      }
    }
    if HasColour(p, v, zero) {
      var k :| 0 <= k < |p| && p[k].0 == v && p[k].1.Some? && (p[k].1 == Some(Int(0)) <==> zero);
      assert ns[k] == p[k];
    }
  }

  /** The loop of `from_bipartite` over the graph's nodes: those coloured 0
      (`zero`, the hypergraph's nodes) or those coloured otherwise (its
      edges), in graph order. */
  function Side(ns: seq<(Value, Option<Value>)>, zero: bool): (r: seq<Value>)
    ensures forall v :: v in r <==> HasColour(ns, v, zero)
    decreases |ns|
  {
    if ns == [] then []
    else
      var last := ns[|ns| - 1];
      var q := Side(ns[..|ns| - 1], zero);
      assert forall v :: HasColour(ns, v, zero) <==>
        HasColour(ns[..|ns| - 1], v, zero) || (last.0 == v && last.1.Some? && (last.1 == Some(Int(0)) <==> zero)) by {
        forall v ensures HasColour(ns, v, zero) <==>
          HasColour(ns[..|ns| - 1], v, zero) || (last.0 == v && last.1.Some? && (last.1 == Some(Int(0)) <==> zero)) {
          HasColourStep(ns, v, zero);
        }
      }
      q + (if last.1.Some? && (last.1 == Some(Int(0)) <==> zero) then [last.0] else [])
  }

  function NodeSide(ns: seq<(Value, Option<Value>)>): seq<Value>
  {
    Side(ns, true)
  }

  function EdgeSide(ns: seq<(Value, Option<Value>)>): seq<Value>
  {
    Side(ns, false)
  }

  /** `is_bipartite_node_set(B, nodes)`: no link joins two nodes of the
      same side. */
  predicate TwoColouring(b: Graph2, nodes: seq<Value>)
  {
    forall k :: 0 <= k < |b.links| ==> (b.links[k].0 in nodes <==> b.links[k].1 !in nodes)
  }

  const ColouringError := "Error: Method requires a 2-coloring of a bipartite graph."

  /** Link k as the row it becomes: its endpoint on the edge side first. */
  function Oriented(link: (Value, Value), edges: seq<Value>): (Value, Value)
  {
    if link.0 in edges then (link.0, link.1) else (link.1, link.0)
  }

  /** Node ids are distinct, so every node of a coloured graph is on
      exactly one side. */
  lemma SidesSplit(b: Graph2, v: Value)
    requires Coloured(b) && GraphOk(b) && IsNode(b, v)
    ensures v in NodeSide(b.nodes) <==> v !in EdgeSide(b.nodes)
  {
    var k :| 0 <= k < |b.nodes| && b.nodes[k].0 == v;
    forall c | 0 <= c < |b.nodes| && b.nodes[c].0 == v ensures c == k {
    }
    if b.nodes[k].1 == Some(Int(0)) {
      assert v in NodeSide(b.nodes);
    } else {
      assert v in EdgeSide(b.nodes);
    }
  }

  /** Each oriented row has its first endpoint on the edge side and its
      second on the node side, and joins the same two nodes as its link. */
  lemma OrientedSides(b: Graph2, k: nat)
    requires Coloured(b) && GraphOk(b) && k < |b.links|
    requires TwoColouring(b, NodeSide(b.nodes))
    ensures var row := Oriented(b.links[k], EdgeSide(b.nodes));
            row.0 in EdgeSide(b.nodes) && row.1 in NodeSide(b.nodes)
            && ({row.0, row.1} == {b.links[k].0, b.links[k].1})
  {
    SidesSplit(b, b.links[k].0);
    SidesSplit(b, b.links[k].1);
  }

  /** The first loop of `from_bipartite`: the graph's nodes split by colour,
      stopping at the first node without one. */
  method SplitByColour(ns: seq<(Value, Option<Value>)>) returns (coloured: bool, nodes: seq<Value>, edges: seq<Value>)
    ensures coloured <==> forall k :: 0 <= k < |ns| ==> ns[k].1.Some?
    ensures coloured ==> nodes == NodeSide(ns) && edges == EdgeSide(ns)
  {
    nodes, edges := [], [];
    var k := 0;
    while k < |ns|
      invariant 0 <= k <= |ns|
      invariant forall a :: 0 <= a < k ==> ns[a].1.Some?
      invariant nodes == NodeSide(ns[..k]) && edges == EdgeSide(ns[..k])
    {
      assert ns[..k + 1][..k] == ns[..k];
      var (n, d) := ns[k];
      if d.None? {
        return false, nodes, edges;
      }
      if d.value == Int(0) {
        nodes := nodes + [n];
      } else {
        edges := edges + [n];
      }
      k := k + 1;
    }
    assert ns[..k] == ns;
    coloured := true;
  }

  /** The second loop of `from_bipartite`: every link as an (edge, node) row. */
  method OrientLinks(links: seq<(Value, Value)>, edges: seq<Value>) returns (elist: seq<(Value, Value)>)
    ensures |elist| == |links|
    ensures forall k :: 0 <= k < |links| ==> elist[k] == Oriented(links[k], edges)
  {
    elist := [];
    var k := 0;
    while k < |links|
      invariant 0 <= k <= |links|
      invariant |elist| == k
      invariant forall a :: 0 <= a < k ==> elist[a] == Oriented(links[a], edges)
    {
      var (u, v) := links[k];
      if u in edges {
        elist := elist + [(u, v)];
      } else {
        elist := elist + [(v, u)];
      }
      k := k + 1;
    }
  }

  /** `from_bipartite(B)`: the nodes coloured 0 become the hypergraph's
      nodes and the rest its edges; a node without the attribute is a
      KeyError; the colouring must have no link inside a side; then every
      link becomes an (edge, node) row, edge side first (`OrientedSides`). */
  method FromBipartite(b: Graph2) returns (r: Result<seq<(Value, Value)>>)
    requires GraphOk(b)
    ensures r == Err(KeyError) <==> !Coloured(b)
    ensures r == Err(HyperNetXError(ColouringError)) <==> Coloured(b) && !TwoColouring(b, NodeSide(b.nodes))
    ensures r.Ok? <==> Coloured(b) && TwoColouring(b, NodeSide(b.nodes))
    ensures r.Ok? ==> (|r.value| == |b.links|
                       && forall k :: 0 <= k < |b.links| ==> r.value[k] == Oriented(b.links[k], EdgeSide(b.nodes)))
  {
    var coloured, nodes, edges := SplitByColour(b.nodes);
    if !coloured {
      return Err(KeyError);
    }
    if !TwoColouring(b, nodes) {
      return Err(HyperNetXError(ColouringError));
    }
    var elist := OrientLinks(b.links, edges);
    r := Ok(elist);
  }
}
