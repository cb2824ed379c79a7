# HyperNetX hypergraph core in Dafny

This project models the deterministic core of HyperNetX's `classes` package
and proves properties of the model.

A hypergraph is held as a finite incidence relation: a table of
`(edge, node, weight)` rows, called cells. Three layers are modelled.

- **Row canonicalisation** (`helpers.py`, `dfentity.py`).
  - `assign_weights` picks or creates the weight column.
  - `remove_row_duplicates` drops rows with a repeated data tuple, or groups
    them and aggregates their weights.
  - Categorical encoding maps each column to codes and a list of labels.
  - Frames are columns plus rows of `Value`s. A `Value` is an int, a string or
    a missing value. `drop_duplicates` and `groupby(sort=False).agg` are
    written out over those rows.
- **`StaticEntity`**, a class whose `_state_dict` caches lazily computed
  views:
  - `data` and `labels`;
  - `cell_weights` and `dimensions`;
  - `uidset` per column;
  - `elements` per pair of columns.

  Each view method fills its cache slot and leaves every other slot
  unchanged. The returned value equals the fresh computation.
- **`Hypergraph`**, a class holding the cells and its `state_dict`.
  - The state dict is a keyed memo table with one reset, `update_state`. It
    holds the code triple, the s-line-graphs keyed by s, the plain and weighted
    incidence matrices, and the edge sizes.
  - Queries: degree, size, dim, the node and edge counts, neighbours,
    s-adjacency (node and edge), toplexes, singletons, and the singleton filter
    of `s_connected_components`.
  - Edits: `remove_node(s)`, `remove_edge(s)`, `add_edge(s_from)`,
    `add_node_to_edge`, `restrict_to_edges`.
  - Builders that produce the rows: `from_numpy_array` and `from_bipartite`.
- **Dictionary utilities**: `merge_nested_dicts`, `dict_depth`,
  `validate_mapping_for_dataframe`.

Matrices are dense: `Matrix(height, width, at: seq<seq<int>>)`. Weights are
integers. Errors the source raises are `Err(...)` values of a `Result`, or
`Option<Error>` for validators.

Modules, one per file:

| module | contents |
|---|---|
| `Values` | values, errors, Python index resolution, value order |
| `Seqs` | sequence utilities |
| `CategoryCodes` | pandas categorical codes |
| `Frames` | the frame, `drop_duplicates`, `groupby().agg` |
| `Helpers` | `helpers.py` |
| `DfEntity` | `dfentity.py` |
| `Matrices` | dense matrices, s-adjacency, the singleton scan |
| `Incidence` | labels, members, memberships, incidence matrices of the cells |
| `IncidenceEdits` | row edits behind removals and additions |
| `LineGraphs` | s-line-graphs |
| `Toplexes` | the toplex sweep |
| `Hypergraphs` | the `Hypergraph` class and its state dict |
| `Builders` | `from_numpy_array`, `from_bipartite` |

Decisions on how the source is read:

- Hypergraph labels follow the category order of the edge and node columns
  (see the next point). The edge/node index a matrix row or column stands for
  is the position of a label in that list. `EntitySet` is not part of this
  model; that it orders its labels this way is an assumption of the model.
- Category lists follow pandas: the distinct non-missing values in ascending
  order. A column mixing ints and strings lists the ints ascending, then the
  strings ascending. A missing value has code -1.
- pandas is taken at its documented behaviour:
  - "sum" adds the integer cells of a group, and "first" takes the group's
    first non-missing value;
  - `groupby` drops groups whose key has a missing value;
  - groups appear in first-appearance order.

## Model

| member | source | states |
|---|---|---|
| Values.PyIndex | hypernetx/classes/dfentity.py:125-128 | a level resolves iff -n <= level < n; a negative level counts from the end, like Python list indexing |
| CategoryCodes.Categories | hypernetx/classes/dfentity.py:74-76 | a category list holds exactly the column's non-missing values, each once |
| CategoryCodes.CategoriesSorted | hypernetx/classes/dfentity.py:74-76 | the categories of every column are in ascending order, and in a mixed column every int comes before every string |
| CategoryCodes.EncodeColumn | hypernetx/classes/helpers.py:24 | one code per row; a missing value gets -1; any other value gets the index of its category |
| CategoryCodes.DecodeEncodeColumn | hypernetx/classes/dfentity.py:84-91 | reading each code back through the category list gives back the original column |
| CategoryCodes.EncodeColumnInjective | hypernetx/classes/helpers.py:24 | two rows get the same code iff they hold the same value |
| Frames.Column | hypernetx/classes/helpers.py:168-170 | a column lookup succeeds iff the name is a column; the result has one entry per row |
| Frames.SetColumn | hypernetx/classes/helpers.py:59-64 | setting a column replaces it, or appends it when new; every other column is unchanged |
| Frames.Positions | hypernetx/classes/helpers.py:175 | the data columns resolve iff every name is a column, each to a position holding that name |
| Frames.DropDuplicatesKeys | hypernetx/classes/helpers.py:175 | the keys of the result are the keys of the input with repeats removed, in first-appearance order |
| Frames.DropDuplicatesFirstOccurrence | hypernetx/classes/helpers.py:175 | each surviving row is the first input row with its key |
| Frames.DropDuplicatesIdempotent | hypernetx/classes/helpers.py:175 | dropping duplicates twice is the same as dropping them once |
| Frames.DropDuplicatesOfDistinct | hypernetx/classes/helpers.py:175 | rows whose keys are already distinct are returned unchanged |
| Frames.ParseReduction | hypernetx/classes/helpers.py:182 | "sum" and "first" name the sum and first-value reductions |
| Frames.FirstPresent | hypernetx/classes/helpers.py:180 | "first" returns a non-missing value of the group whenever the group has one |
| Frames.Groups | hypernetx/classes/helpers.py:186 | the group keys are distinct, complete, and exactly the keys of the rows whose key has no missing value |
| Frames.GroupsConserveTotal | hypernetx/classes/helpers.py:186 | the per-group totals of a column add up to the column's total over the grouped rows |
| Frames.GroupAggregateFirstOfKey | hypernetx/classes/helpers.py:180-186 | "first" on a key column yields the group's key value |
| Frames.GroupAggregateCell | hypernetx/classes/helpers.py:186 | each aggregated cell is its reduction applied to the group's values, in row order |
| Frames.GroupAggregateConservesSum | hypernetx/classes/helpers.py:186 | a "sum" column keeps its total weight through the aggregation |
| Frames.GroupAggregateOfDistinct | hypernetx/classes/helpers.py:186 | on distinct, complete keys with stable cells, aggregation returns one row per input row with the same values |
| Helpers.Encode | hypernetx/classes/helpers.py:11-25 | each code is -1 for a missing cell; otherwise it is a valid index into its column's categories and names the cell's value |
| Helpers.DecodeEncode | hypernetx/classes/helpers.py:24 | decoding the encoded matrix through the per-column categories gives back the rows |
| Helpers.AssignWeights | hypernetx/classes/helpers.py:28-64 | a list becomes the weight column verbatim, and a list whose length is not the frame's is a ValueError; a scalar fills an absent weight column with that scalar and leaves an existing one untouched; other columns are unchanged |
| Helpers.UpdateMethods | hypernetx/classes/helpers.py:183-184 | `dict.update` keeps every existing key in place and its keys stay distinct |
| Helpers.ResolveMethods | hypernetx/classes/helpers.py:186 | the method table resolves iff every named column exists and every method name is known; each entry lands on its column |
| Helpers.RemoveRowDuplicates | hypernetx/classes/helpers.py:162-192 | an empty frame comes back unchanged with weight column None; otherwise the weight column is reported; an unknown data column is a KeyError |
| Helpers.RemoveRowDuplicatesDropMode | hypernetx/classes/helpers.py:174-177 | with a falsy `aggregateby`, the result is the weighted frame with later duplicates of each data tuple dropped |
| Helpers.RemoveRowDuplicatesByName | hypernetx/classes/helpers.py:180-190 | with a method name, the columns are kept, the data tuples are the distinct complete groups in first-appearance order, and a "sum" keeps the total weight |
| Helpers.DeduplicateByName | hypernetx/classes/helpers.py:180-186 | the aggregated frame's keys are the groups, and its weight total equals the grouped rows' total under "sum" |
| Helpers.ByNameAggs | hypernetx/classes/helpers.py:180-182 | every column is reduced by "first" except the weight column, which is reduced by the named method |
| Helpers.GroupedKeys | hypernetx/classes/helpers.py:186 | when the key columns take "first", the output keys are exactly the groups, in order |
| Helpers.MergeNestedDicts | hypernetx/classes/helpers.py:196-212 | the loop over b's keys computes the recursive merge `MergeFrom(a, b, 0)` |
| Helpers.MergeKeys | hypernetx/classes/helpers.py:196-212 | a's keys keep their order at the front, and the merged keys are exactly the keys of a or b |
| Helpers.MergeFromLookup | hypernetx/classes/helpers.py:200-211 | keys only in a keep a's value; keys only in b take b's value; a leaf of a wins in a conflict; two dicts merge recursively |
| Helpers.MergeKeyLookup | hypernetx/classes/helpers.py:200-211 | one merge step changes only the merged key, with the same three rules |
| Helpers.MergeIdempotent | hypernetx/classes/helpers.py:196-212 | merging a dict into itself leaves it unchanged |
| Helpers.DictDepthIsCappedShallowest | hypernetx/classes/helpers.py:216-222 | `dict_depth(d, level)` is `level` plus the depth of the shallowest path, capped at 3 |
| Helpers.MinDepthIsCapped | hypernetx/classes/helpers.py:222 | the minimum over a dict's values is the capped depth of its shallowest value |
| Helpers.FirstItemError | hypernetx/classes/helpers.py:232-238 | no error iff every value is an iterable whose items are all str or all int; otherwise a TypeError with one of the two value messages |
| Helpers.ValidateMappingForDataframe | hypernetx/classes/helpers.py:225-238 | passes iff the input is a mapping, its keys are all str or all int, and every value is a non-empty iterable of one item type; each failure raises its own TypeError |
| DfEntity.Ones | hypernetx/classes/dfentity.py:225 | the default weight column is n ones |
| DfEntity.AssignWeights | hypernetx/classes/dfentity.py:198-227 | a sequence of the frame's length is installed as `cell_weights`; a name of an existing column is used as is; otherwise a column of ones is added |
| DfEntity.RemoveRowDuplicates | hypernetx/classes/dfentity.py:230-263 | with `aggregateby=None`, the weight column is None and the columns are kept; otherwise the assigned weight column is reported; a missing data column or an unknown method is an error |
| DfEntity.Aggregated | hypernetx/classes/dfentity.py:259-261 | the aggregated frame has one row per complete group |
| DfEntity.AggregatedRows | hypernetx/classes/dfentity.py:259-261 | each output row is a group key followed by its reduced weight |
| DfEntity.AggregatedKeys | hypernetx/classes/dfentity.py:259-261 | the output data tuples are the groups: distinct, in first-appearance order |
| DfEntity.AggregatedSum | hypernetx/classes/dfentity.py:259-261 | "sum" keeps the total weight of the grouped rows |
| DfEntity.DropModeKeepsFirst | hypernetx/classes/dfentity.py:253-255 | in drop mode the data tuples are distinct, each row is the first occurrence of its tuple, and the weight column is None |
| DfEntity.AggregateModeGroups | hypernetx/classes/dfentity.py:257-261 | in aggregate mode the columns are the data columns plus the weight column, with one row per group |
| DfEntity.SumAggregationIdempotent | hypernetx/classes/dfentity.py:257-261 | summing an already summed frame again returns it unchanged |
| DfEntity.AggregatedTwice | hypernetx/classes/dfentity.py:259-261 | aggregating the aggregate is the identity |
| DfEntity.AggregatedOfDistinct | hypernetx/classes/dfentity.py:259-261 | a frame with distinct complete keys and integer weights is its own aggregate |
| DfEntity.Explode | hypernetx/classes/dfentity.py:39-43 | a dict or list of lists becomes two-column rows |
| DfEntity.InitialFrame | hypernetx/classes/dfentity.py:32-55 | the constructor's input becomes a well-formed frame |
| DfEntity.Init | hypernetx/classes/dfentity.py:9-78 | the data array is seeded iff the input was an array; labels are seeded iff the label dict matches the columns |
| DfEntity.InitShape | hypernetx/classes/dfentity.py:57-78 | a successful init has its weight column in the frame and data columns that are the other columns |
| DfEntity.InitDimsize | hypernetx/classes/dfentity.py:61-65 | `dimsize` is the number of columns other than the weight column |
| DfEntity.InitKeysDistinct | hypernetx/classes/dfentity.py:67-73 | after init, the data tuples of the rows are distinct |
| DfEntity.DeduplicatedKeysDistinct | hypernetx/classes/dfentity.py:230-263 | both modes of `remove_row_duplicates` leave distinct data tuples |
| DfEntity.DataFrameOf | hypernetx/classes/dfentity.py:84-86 | the data-column projection keeps the row count and each cell |
| DfEntity.LabelsOfCategories | hypernetx/classes/dfentity.py:87-91 | the labels map has exactly the data columns as keys, each mapped to its category list |
| DfEntity.EncodeDataDecodes | hypernetx/classes/dfentity.py:81-93 | every non-missing code in column c lies in [0, number of labels[c]), and labels[c][code] is the row's value |
| DfEntity.CellWeightMapKeys | hypernetx/classes/dfentity.py:96-102 | the cell-weight dict has exactly the rows' data tuples as keys |
| DfEntity.CellWeightOfDistinct | hypernetx/classes/dfentity.py:96-102 | with distinct tuples, each tuple maps to its row's weight |
| DfEntity.UidSetOfMembers | hypernetx/classes/dfentity.py:130-138 | the uid set of a column is exactly its non-missing values |
| DfEntity.DimensionsAreUidSetSizes | hypernetx/classes/dfentity.py:105-111 | `dimensions[k]` is the number of distinct values in data column k |
| DfEntity.CellsWhereMembers | hypernetx/classes/dfentity.py:157-168 | the list for a key holds exactly the c2 values of the rows whose c1 value is the key |
| DfEntity.ElementsOfMembers | hypernetx/classes/dfentity.py:157-168 | `elements_by_column(c1, c2)` has exactly the non-missing c1 values as keys, each mapped to its c2 values in row order |
| DfEntity.ElementsMembershipsConverse | hypernetx/classes/dfentity.py:141-155 | v is listed under k in elements(c1, c2) iff k is listed under v in elements(c2, c1) |
| DfEntity.StaticEntity.constructor | hypernetx/classes/dfentity.py:9-78 | the entity holds the built frame, its data and weight columns and the seeded data and labels, with every other cache empty |
| DfEntity.StaticEntity.Data | hypernetx/classes/dfentity.py:81-93 | returns the seeded array or the encoded data columns; fills `labels` on a miss; nothing else changes |
| DfEntity.StaticEntity.CellWeights | hypernetx/classes/dfentity.py:96-102 | returns and caches the tuple-to-weight dict; nothing else changes |
| DfEntity.StaticEntity.Dimensions | hypernetx/classes/dfentity.py:105-111 | returns and caches one distinct-value count per data column, `dimsize` of them |
| DfEntity.StaticEntity.UidsetByColumn | hypernetx/classes/dfentity.py:130-138 | an existing column returns its uid set, stored under that column alone; an unknown column is a KeyError |
| DfEntity.StaticEntity.UidsetByLevel | hypernetx/classes/dfentity.py:125-128 | an out-of-range level is an IndexError; otherwise it is the uid set of that data column |
| DfEntity.StaticEntity.Uidset | hypernetx/classes/dfentity.py:118-119 | the uid set of level 0, or an IndexError without data columns |
| DfEntity.StaticEntity.Children | hypernetx/classes/dfentity.py:122-123 | the uid set of level 1, or an IndexError with fewer than two data columns |
| DfEntity.StaticEntity.ElementsByColumn | hypernetx/classes/dfentity.py:157-168 | for two existing columns, returns the grouping dict and stores it under (c1, c2) alone; otherwise a KeyError |
| DfEntity.StaticEntity.ElementsByLevel | hypernetx/classes/dfentity.py:152-155 | resolves both levels, then groups those columns; a bad level is an IndexError |
| DfEntity.StaticEntity.Elements | hypernetx/classes/dfentity.py:141-142 | the grouping of level 0 by level 1 |
| DfEntity.StaticEntity.Memberships | hypernetx/classes/dfentity.py:149-150 | the same grouping with the levels swapped, (1, 0) |
| DfEntity.StaticEntity.Size | hypernetx/classes/dfentity.py:174-175 | `dimensions[level]`, or an IndexError |
| DfEntity.StaticEntity.IsEmpty | hypernetx/classes/dfentity.py:177-178 | true iff `size(level) == 0` |
| DfEntity.StaticEntity.Len | hypernetx/classes/dfentity.py:180-181 | `dimensions[0]`, which is the size of the level-0 uid set |
| DfEntity.StaticEntity.GetItem | hypernetx/classes/dfentity.py:187-188 | `elements[item]`: a KeyError for an absent item |
| DfEntity.UidsetCoherentUpdate | hypernetx/classes/dfentity.py:132-138 | storing a fresh uid set keeps every cached uid set equal to its fresh computation |
| DfEntity.ElementsCached | hypernetx/classes/dfentity.py:159-168 | a cached elements dict equals the fresh computation, so a hit returns the same value |
| DfEntity.CacheElements | hypernetx/classes/dfentity.py:158-166 | a cached (c1, c2) entry is reused, a missing one for existing columns is computed and stored, and the cache stays coherent with the table |
| DfEntity.ElementsCoherentUpdate | hypernetx/classes/dfentity.py:159-166 | storing under (c1, c2) keeps every other nested entry and keeps the cache coherent |
| Matrices.Transpose | hypernetx/classes/hypergraph.py:1200 | transposition swaps the dimensions and the indices |
| Matrices.TransposeTwice | hypernetx/classes/hypergraph.py:1263-1274 | transposing twice is the identity |
| Matrices.TransposeBinary | hypernetx/classes/hypergraph.py:1263-1274 | the transpose of a 0/1 matrix is 0/1 |
| Matrices.IncidenceToAdjacency | hypernetx/classes/hypergraph.py:1196-1203 | for s != 0 the result is square over the rows and 0/1; at s = 0 the sparse comparison raises, which the Hypergraph methods return as an error |
| Matrices.AdjacencyEntry | hypernetx/classes/hypergraph.py:1196-1203 | for a 0/1 matrix, entry (i, k) is 1 iff i != k and rows i and k share at least s nonzero columns |
| Matrices.AdjacencySymmetric | hypernetx/classes/hypergraph.py:1200-1202 | for every s != 0 the s-adjacency matrix is symmetric |
| Matrices.AdjacencyZeroDiagonal | hypernetx/classes/hypergraph.py:1201 | the diagonal is zero |
| Matrices.AdjacencyBelowOne | hypernetx/classes/hypergraph.py:1201-1202 | for s < 0 every entry is 1, the cleared diagonal included, since scipy compares every entry and every count passes the threshold; s = 0 raises, and s >= 1 is AdjacencyEntry's |
| Matrices.AdjacencyMonotone | hypernetx/classes/hypergraph.py:1202 | for nonzero s1 <= s2, every 1 of the s2-adjacency matrix is a 1 of the s1-adjacency matrix |
| Matrices.EdgeAdjacency | hypernetx/classes/hypergraph.py:1263-1274 | for s != 0, edge adjacency is the node construction on the transpose: square over the columns and 0/1 |
| Matrices.EdgeAdjacencyEntry | hypernetx/classes/hypergraph.py:1263-1274 | entry (j, l) is 1 iff j != l and columns j and l share at least s nonzero rows |
| Matrices.SingletonLabels | hypernetx/classes/hypergraph.py:1712-1738 | holds exactly the labels of singleton columns |
| Matrices.Singletons | hypernetx/classes/hypergraph.py:1712-1738 | in both shapes, the scan lists exactly the labels of columns with one 1 whose row also has one 1; when rows >= columns it lists them in column order |
| Incidence.EdgeLabels | hypernetx/classes/hypergraph.py:1164-1166 | the edge labels are distinct and are exactly the non-missing edge ids of the rows |
| Incidence.NodeLabels | hypernetx/classes/hypergraph.py:1164-1165 | the node labels are distinct and are exactly the non-missing node ids of the rows |
| Incidence.Members | hypernetx/classes/hypergraph.py:824-827 | the members of e are exactly the nodes some row pairs with e |
| Incidence.Memberships | hypernetx/classes/hypergraph.py:801-803 | the memberships of n are exactly the edges some row pairs with n |
| Incidence.LabelsAreIncident | hypernetx/classes/hypergraph.py:1164-1166 | a label is listed iff some row carries it |
| Incidence.MembersNoDup | hypernetx/classes/hypergraph.py:824-827 | an edge's member list has no repeats |
| Incidence.MembershipsNoDup | hypernetx/classes/hypergraph.py:801-807 | a node's membership list has no repeats |
| Incidence.IncidenceOf | hypernetx/classes/hypergraph.py:1160-1161 | the incidence matrix is 0/1, nodes by edges |
| Incidence.WeightedIncidenceOf | hypernetx/classes/hypergraph.py:1157-1161 | the weighted matrix has the same shape |
| Incidence.WeightedWithinIncidence | hypernetx/classes/hypergraph.py:1157-1161 | a nonzero weighted entry is an incidence |
| Incidence.DataOf | hypernetx/classes/hypergraph.py:573-579 | the `data` triple has rows, cols and ones of the same length as the edge rows, and ones is all 1 |
| Incidence.DataOfDecodes | hypernetx/classes/hypergraph.py:573-579 | each row code indexes the edge labels at the row's edge, and each col code the node labels at its node |
| Incidence.ColSumIsSize | hypernetx/classes/hypergraph.py:661-662 | the column sum of edge j is the number of members of edge j |
| Incidence.RowSumIsDegree | hypernetx/classes/hypergraph.py:801-807 | the row sum of node i is the number of edges node i belongs to |
| IncidenceEdits.DropNode | hypernetx/classes/hypergraph.py:947-951 | removing a node keeps exactly the rows of other nodes |
| IncidenceEdits.DropEdge | hypernetx/classes/hypergraph.py:1105 | removing an edge keeps exactly the rows of other edges |
| IncidenceEdits.Keep | hypernetx/classes/hypergraph.py:1101-1104 | removing some nodes from one edge drops exactly those rows |
| IncidenceEdits.RestrictToEdges | hypernetx/classes/hypergraph.py:1573-1575 | restriction keeps exactly the rows of the given edges |
| IncidenceEdits.DropNodeOk | hypernetx/classes/hypergraph.py:947-951 | removing a node keeps the rows canonical |
| IncidenceEdits.DropEdgeOk | hypernetx/classes/hypergraph.py:1105 | removing an edge keeps the rows canonical |
| IncidenceEdits.RestrictOk | hypernetx/classes/hypergraph.py:1573-1575 | restriction keeps the rows canonical |
| IncidenceEdits.DropNodeIncidence | hypernetx/classes/hypergraph.py:947-951 | after removing n, (e, x) is incident iff it was and x != n |
| IncidenceEdits.DropEdgeIncidence | hypernetx/classes/hypergraph.py:1105 | after removing e, (f, x) is incident iff it was and f != e |
| IncidenceEdits.KeepIncidence | hypernetx/classes/hypergraph.py:1101-1104 | dropping R from e removes exactly the incidences (e, x) with x in R |
| IncidenceEdits.RestrictIncidence | hypernetx/classes/hypergraph.py:1573-1575 | after restriction, (f, x) is incident iff it was and f is kept |
| IncidenceEdits.SoleNodes | hypernetx/classes/hypergraph.py:1102-1103 | the nodes removed with an edge are exactly its members whose only membership is that edge |
| IncidenceEdits.SoleMembership | hypernetx/classes/hypergraph.py:1103 | every row of such a node belongs to that edge |
| IncidenceEdits.RemoveEdgeNodes | hypernetx/classes/hypergraph.py:1098-1109 | after `remove_edge(e)`, a node remains iff it was present and e was not its only edge |
| IncidenceEdits.RemoveEdgeEdges | hypernetx/classes/hypergraph.py:1098-1109 | after `remove_edge(e)`, the edges are the old edges minus e |
| IncidenceEdits.RemoveNodeLabels | hypernetx/classes/hypergraph.py:947-951 | after `remove_node(n)`, n is gone from every edge and from the nodes, and nothing else is |
| IncidenceEdits.AddCells | hypernetx/classes/hypergraph.py:1025-1028 | adding an edge appends rows and keeps the old rows in front |
| IncidenceEdits.AddCellsIncidence | hypernetx/classes/hypergraph.py:1025-1028 | after the add, (f, x) is incident iff it was or f is the key and x a given node; the rows stay canonical |
| IncidenceEdits.DropAbsentNode | hypernetx/classes/hypergraph.py:947 | removing an absent node changes nothing |
| IncidenceEdits.DropAbsentEdge | hypernetx/classes/hypergraph.py:1101 | removing an absent edge changes nothing |
| IncidenceEdits.DropNodes | hypernetx/classes/hypergraph.py:972-974 | removing a node set keeps exactly the rows of nodes outside it |
| IncidenceEdits.DropEdges | hypernetx/classes/hypergraph.py:1124-1127 | removing an edge set keeps exactly the rows of edges outside it |
| IncidenceEdits.DropNodesOk | hypernetx/classes/hypergraph.py:972-974 | removing a node set keeps the rows canonical |
| IncidenceEdits.DropEdgesOk | hypernetx/classes/hypergraph.py:1124-1127 | removing an edge set keeps the rows canonical |
| IncidenceEdits.AddAllCells | hypernetx/classes/hypergraph.py:1047-1048 | adding edges in order only appends rows |
| IncidenceEdits.AddAllCellsIncidence | hypernetx/classes/hypergraph.py:1047-1048 | after adding edges, (f, x) is incident iff it was or some added edge f lists x; the rows stay canonical |
| LineGraphs.NodeLineGraph | hypernetx/classes/hypergraph.py:548-552 | for s != 0 the node s-line-graph is labelled by the node labels, with a square adjacency |
| LineGraphs.EdgeLineGraph | hypernetx/classes/hypergraph.py:546-552 | for s != 0 the edge s-line-graph is labelled by the edge labels, with a square adjacency |
| LineGraphs.GraphNeighbors | hypernetx/classes/hypergraph.py:898-904 | neighbours exist iff the vertex is in the graph, and are vertices of the graph |
| LineGraphs.NodeAdjacencyMeaning | hypernetx/classes/hypergraph.py:1196-1203 | nodes i and k are s-adjacent iff they differ and share at least s edges |
| LineGraphs.EdgeAdjacencyMeaning | hypernetx/classes/hypergraph.py:1263-1274 | edges j and l are s-adjacent iff they differ and share at least s nodes |
| LineGraphs.NodeNeighborsMeaning | hypernetx/classes/hypergraph.py:898-904 | the s-neighbours of a present node are exactly the other nodes sharing at least s edges with it |
| LineGraphs.EdgeNeighborsMeaning | hypernetx/classes/hypergraph.py:922-929 | the s-neighbours of a present edge are exactly the other edges sharing at least s nodes with it |
| Toplexes.Kept | hypernetx/classes/hypergraph.py:1656-1660 | the tops kept while sweeping e are exactly those whose set is not within e's set |
| Toplexes.KeptAntichain | hypernetx/classes/hypergraph.py:1656-1660 | dropping tops keeps the antichain |
| Toplexes.CoveredCharacterises | hypernetx/classes/hypergraph.py:1651-1664 | for an increasing antichain covering every set, membership is exactly the toplex test |
| Toplexes.SweepTops | hypernetx/classes/hypergraph.py:1653-1660 | the inner loop either finds a top covering e and leaves the tops unchanged, or removes the tops inside e |
| Toplexes.ToplexScan | hypernetx/classes/hypergraph.py:1651-1664 | loop invariant: no kept set is within another; at the end every set is within a kept one, and an index is kept iff it is a toplex |
| Hypergraphs.FreshState | hypernetx/classes/hypergraph.py:571-579 | after `update_state` the state has exactly the data triple and two empty line-graph tables, and agrees with the rows |
| Hypergraphs.IncidenceMemo | hypernetx/classes/hypergraph.py:1156-1161 | a hit returns the stored matrix and changes nothing; a miss stores the fresh matrix under its own key and no other |
| Hypergraphs.IncidenceMemoCoherent | hypernetx/classes/hypergraph.py:1156-1161 | on a coherent state, the memoised matrix is the fresh one and the state stays coherent |
| Hypergraphs.LineGraphMemo | hypernetx/classes/hypergraph.py:541-556 | for s != 0 a hit on s leaves the state unchanged; a miss stores under s in `sedgelg` or `snodelg` only, and no graph is ever stored under 0 |
| Hypergraphs.LineGraphMemoCoherent | hypernetx/classes/hypergraph.py:541-556 | on a coherent state, the returned graph is the fresh s-line-graph |
| Hypergraphs.SizesMemo | hypernetx/classes/hypergraph.py:661-665 | `edge_size_dist` is computed once and then returned unchanged |
| Hypergraphs.SizesMemoCoherent | hypernetx/classes/hypergraph.py:661-665 | on a coherent state, the size list holds each edge's member count, in edge order |
| Hypergraphs.NeighborsResult | hypernetx/classes/hypergraph.py:898-904 | a present vertex gives its neighbours |
| Hypergraphs.DegreeBounds | hypernetx/classes/hypergraph.py:801-807 | the degree never exceeds the number of memberships, and equals it with s <= 1 and no max_size |
| Hypergraphs.FilterIn | hypernetx/classes/hypergraph.py:843-844 | keeps exactly the listed items that are in the given set |
| Hypergraphs.NodeRemovalPass | hypernetx/classes/hypergraph.py:947-951 | the loop over the node's memberships removes exactly that node's rows |
| Hypergraphs.ToplexLabelsMeaning | hypernetx/classes/hypergraph.py:1647-1664 | e is a toplex iff it is an edge, no edge's node set strictly contains e's, and no earlier edge has the same node set |
| Hypergraphs.SingletonColumn | hypernetx/classes/hypergraph.py:1712-1738 | column j is a singleton column iff edge j has one node and that node has degree 1 |
| Hypergraphs.SingletonLabelsMeaning | hypernetx/classes/hypergraph.py:1701-1738 | a label belongs to a singleton column iff it is a singleton edge |
| Hypergraphs.YieldedComponents | hypernetx/classes/hypergraph.py:1806-1810 | yields exactly the components that are not singletons, unless singletons are asked for |
| Hypergraphs.YieldAll | hypernetx/classes/hypergraph.py:1806-1810 | with `return_singletons` every component is yielded, in order |
| Hypergraphs.SConnectedComponents | hypernetx/classes/hypergraph.py:1806-1810 | the loop with `continue` yields the filtered components |
| Hypergraphs.Hypergraph.constructor | hypernetx/classes/hypergraph.py:262-318 | the object holds the rows and a freshly reset state |
| Hypergraphs.Hypergraph.UpdateState | hypernetx/classes/hypergraph.py:571-579 | the rows are unchanged and the state is reset to the fresh state |
| Hypergraphs.Hypergraph.IncidenceMatrix | hypernetx/classes/hypergraph.py:1156-1170 | returns the memoised matrix with the node and edge labels; it is the fresh matrix when the state is coherent |
| Hypergraphs.Hypergraph.AdjacencyMatrix | hypernetx/classes/hypergraph.py:1196-1233 | caches the incidence matrix; s = 0 is a NotImplementedError; otherwise the s-adjacency of the cached incidence matrix, with node labels |
| Hypergraphs.Hypergraph.EdgeAdjacencyMatrix | hypernetx/classes/hypergraph.py:1260-1274 | caches the incidence matrix; s = 0 is a NotImplementedError; otherwise the edge s-adjacency of the cached incidence matrix, with edge labels |
| Hypergraphs.Hypergraph.GetLinegraph | hypernetx/classes/hypergraph.py:516-556 | s = 0 is a NotImplementedError that caches the incidence matrix and stores no graph; otherwise returns the memoised s-line-graph, which is the fresh one when the state is coherent |
| Hypergraphs.Hypergraph.EdgeSizeDist | hypernetx/classes/hypergraph.py:651-665 | returns the memoised size list, one member count per edge |
| Hypergraphs.Hypergraph.Degree | hypernetx/classes/hypergraph.py:782-807 | the number of the node's edges with size at least s and at most max_size; an absent node is a KeyError |
| Hypergraphs.Hypergraph.Size | hypernetx/classes/hypergraph.py:809-827 | the member count of the edge, restricted to the nodeset when given; an absent edge is a KeyError |
| Hypergraphs.Hypergraph.Dim | hypernetx/classes/hypergraph.py:876-880 | size minus one, at least 0, for a present edge; an absent edge is a KeyError |
| Hypergraphs.Hypergraph.NumberOfNodes | hypernetx/classes/hypergraph.py:829-846 | counts all nodes when nodeset is None, else the nodes in the nodeset, including an empty nodeset |
| Hypergraphs.Hypergraph.NumberOfEdges | hypernetx/classes/hypergraph.py:848-864 | counts all edges when edgeset is falsy (None or empty), else the edges in the edgeset |
| Hypergraphs.Hypergraph.Neighbors | hypernetx/classes/hypergraph.py:882-904 | an absent node gives None and leaves the state alone; a present node gives a NotImplementedError for s = 0, and otherwise its s-neighbours in the node line graph |
| Hypergraphs.Hypergraph.EdgeNeighbors | hypernetx/classes/hypergraph.py:906-929 | an absent edge gives None; a present edge gives a NotImplementedError for s = 0, and otherwise its s-neighbours in the edge line graph |
| Hypergraphs.Hypergraph.RemoveNode | hypernetx/classes/hypergraph.py:932-956 | the node's rows are gone; the state is reset iff the node was present and `update_state` is set |
| Hypergraphs.Hypergraph.RemoveNodes | hypernetx/classes/hypergraph.py:958-975 | the rows of the listed nodes are gone and the state is reset |
| Hypergraphs.Hypergraph.RemoveSoleNodes | hypernetx/classes/hypergraph.py:1101-1104 | removes from the edge exactly the nodes whose only edge it is |
| Hypergraphs.Hypergraph.RemoveEdge | hypernetx/classes/hypergraph.py:1081-1109 | an edge's rows are gone, together with the nodes whose only edge it was |
| Hypergraphs.Hypergraph.RemoveEdges | hypernetx/classes/hypergraph.py:1111-1128 | the listed edges are gone, each taking its sole nodes with it, and the state is reset |
| Hypergraphs.Hypergraph.AddEdge | hypernetx/classes/hypergraph.py:989-1031 | warns when the key is already an edge or a node, and adds the rows all the same |
| Hypergraphs.Hypergraph.AddEdgesFrom | hypernetx/classes/hypergraph.py:1033-1051 | adds each edge in order, then resets the state |
| Hypergraphs.Hypergraph.AddNodeToEdge | hypernetx/classes/hypergraph.py:1053-1079 | adds a node to a present edge; an absent edge changes nothing |
| Hypergraphs.Hypergraph.Toplexes | hypernetx/classes/hypergraph.py:1597-1664 | the result is restricted to the toplexes; no toplex's node set is within another's, and every edge's node set is within some toplex's |
| Hypergraphs.Hypergraph.Singletons | hypernetx/classes/hypergraph.py:1701-1738 | lists exactly the edges of size 1 whose single node has degree 1; only the incidence key is stored |
| Hypergraphs.Hypergraph.RestrictToEdgeSet | hypernetx/classes/hypergraph.py:1557-1575 | a new hypergraph of the rows of the given edges, with a fresh state |
| Builders.NonzeroPairs | hypernetx/classes/hypergraph.py:2306 | holds (j, i) exactly when M[i][j] != 0, ordered by edge then node, so an all-zero column gives no edge |
| Builders.DefaultNamesDistinct | hypernetx/classes/hypergraph.py:2294-2304 | the default names `v{i}` and `e{j}` are distinct and never missing |
| Builders.NumpyNames | hypernetx/classes/hypergraph.py:2289-2298 | `np.array(names)` keeps the length and every string; a list of strings and ints becomes all strings, each int its decimal string; any other list is kept as it is |
| Builders.NumpyNamesIdempotent | hypernetx/classes/hypergraph.py:2289-2298 | converting the converted names again changes nothing |
| Builders.NumpyNamesMerges | hypernetx/classes/hypergraph.py:2289-2298 | two different names become equal only when one is an int and the other its decimal string |
| Values.IntToStringInjective | hypernetx/classes/hypergraph.py:2289-2298 | different ints print as different decimal strings, so converted int names stay apart |
| Builders.NamesFor | hypernetx/classes/hypergraph.py:2287-2303 | given names must match the length, or raise with that message; then they are the numpy-converted names; otherwise the default names are used |
| Builders.FromNumpyArray | hypernetx/classes/hypergraph.py:2281-2309 | fails first on a non-2-D array, then on a node-name mismatch, then on an edge-name mismatch; otherwise returns the increasing nonzero pairs, the numpy-converted given names or the default ones |
| Builders.Side | hypernetx/classes/hypergraph.py:2202-2206 | the side list holds exactly the vertices of that colour |
| Builders.SidesSplit | hypernetx/classes/hypergraph.py:2202-2206 | on a coloured graph every vertex is on exactly one side |
| Builders.OrientedSides | hypernetx/classes/hypergraph.py:2213-2218 | under a 2-colouring each oriented link runs from an edge-side vertex to a node-side vertex, with the same endpoints |
| Builders.SplitByColour | hypernetx/classes/hypergraph.py:2200-2206 | the split succeeds iff every vertex is coloured, and then yields the two sides |
| Builders.OrientLinks | hypernetx/classes/hypergraph.py:2213-2218 | one oriented row per link, in link order |
| Builders.FromBipartite | hypernetx/classes/hypergraph.py:2200-2222 | a vertex without a colour is a KeyError; a colouring that is not a 2-colouring is the HyperNetXError; otherwise one row per link, each with an edge-side vertex first |

## Left out

- Saving and recovering the state with pickle (`save_state`, `recover_from_state`): these are file I/O.
- networkx.
  - The graph algorithms `from_scipy_sparse_matrix`, `relabel_nodes`, `connected_components`, `diameter` and `shortest_path_length` belong to an external library.
  - A line graph is modelled as its labels plus its adjacency matrix.
  - `s_connected_components` takes the component list as a parameter.
  - `diameter` and `distance` are networkx calls with a thin wrapper, and are not modelled.
  - `is_bipartite_node_set` is modelled as "each link has exactly one end on the node side".
  - A networkx graph's own invariant (distinct vertices, links between vertices) is a precondition of FromBipartite.
- scipy sparse storage: matrices are dense.
- Weighted adjacency: it is switched off in `_incidence_to_adjacency`, `adjacency_matrix` and `edge_adjacency_matrix`.
- Floating-point weights: weights are integers. pandas "sum" over a group adds its integer cells and skips other values.
- pandas internals are not modelled:
  - categorical dtypes, including `observed=False` grouping over categorical inputs and the restoring of input categories;
  - `create_properties`;
  - the `dataframe()` pivot;
  - the transforms and key callables of `from_dataframe`, and the `key` of `from_numpy_array`;
  - aggregation methods other than "sum" and "first". An unknown name is an error in the model.
- `EntitySet` is not part of this model.
  - The builders return the rows or arrays they would hand to it.
  - The hypergraph's edge and node views are the shared cell table.
  - Operations that exist only through it are not modelled: `collapse_*`, `restrict_to_nodes`, `auxiliary_matrix`, `get_cell_properties`, `dual`, `bipartite`, `remove_singletons`, component subgraphs.
- `set_state`, `index=False` return forms (the model always returns the labels), `use_nwhy` and the deprecated `collapse` options of `toplexes`.
- `warnings.warn` and `print` side effects. `AddEdge` returns its warning text instead.
- The broken `StaticEntity.__contains__` and `__call__` are not modelled.
- Helpers.MergeNestedDicts: a conflicting leaf reaches `warnings.warn` in `helpers.py`, which is never imported, so the source raises NameError when reached; the model gives the intended behaviour and keeps a's value.
- DfEntity.AssignWeights: the module-level function names `self._dataframe`, so it raises NameError when reached. That happens whenever `weights` is not a list or array of the frame's length; None is hashable, so every default `StaticEntity` construction reaches it. The model gives the intended behaviour: the column-name branch tests the frame that was passed in.
- DfEntity.InitialFrame: `StaticEntity` input other than a DataFrame, a dict, a list or a 2-D array (a 1-D array, None) leaves `_dataframe` unset, and the source fails with AttributeError when it assigns the weights. The model's input type cannot express such input.
- Hypergraphs.Hypergraph.constructor: `Hypergraph(setsystem=None)` passes a `uid` keyword to `np.empty`, which numpy does not accept, so the source raises TypeError. The model takes the rows themselves, and an empty row list builds an empty hypergraph; the None path is not modelled.
- Builders.FromBipartite: when the links admit no 2-colouring at all (an odd cycle or a self-loop), `is_bipartite_node_set` raises networkx's NetworkXError ("Graph is not bipartite.") before the HyperNetXError check. The model returns the HyperNetXError for every graph whose colouring puts a link inside one side; it does not tell the two failures apart.
- LineGraphs.GraphNeighbors: after a removal with `update_state=False`, the cached incidence matrix can have more rows (or columns) than there are labels. networkx's `relabel_nodes` then keeps each unmapped row as a vertex named by its integer index, and `neighbors` can return those integers. The model keeps only the labelled vertices, so `Hypergraphs.Hypergraph.Neighbors` and `Hypergraphs.Hypergraph.EdgeNeighbors` drop them on such a stale cache.
- Builders.NumpyNames: a missing name is taken as None, for which numpy keeps an object array unchanged. A float NaN among strings, which numpy turns into the string "nan", is not modelled. Nor is the float array numpy makes of ints with a NaN; its values equal the ints as keys.
- Hypergraphs.Hypergraph.Singletons: requires a coherent state. After a removal with `update_state=False`, the source reads a stale matrix; that case is not modelled.
- Hypergraphs.Hypergraph.AddEdge: requires ids that are not missing. A missing id would never become a label.
- Hypergraphs.Hypergraph.AddNodeToEdge: requires a node id that is not missing.
- Hypergraphs.Hypergraph.AddEdgesFrom: requires ids that are not missing.
- Hypergraphs.Hypergraph.RestrictToEdgeSet: requires every id to be an edge. The entity-level restriction of unknown ids is not modelled.
- Aliasing of the dict objects that `merge_nested_dicts` mutates in place: dicts are values, and the method returns the merged dict.
