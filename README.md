# Vehicle parts graph analytics, modelled in Dafny

This project models the hand-written analytics of `src/graph_ops.py` in the
vehicle-parts-graph repository and proves what they compute. The analytics run
over a bipartite "car uses part" graph B: cars on one side, parts on the
other, one edge per usage pair.

- **Projection to a car–car graph P.** Two cars are linked when their part
  sets intersect. The edge weight is the number of shared parts.
- **Degree ranking.** P's degrees, and the part criticality ranking of B,
  each sorted by non-increasing score with a stable sort.
- **Failure simulations.**
  - one part (`simulate_part_failure`);
  - a supplier's parts all at once (`simulate_supplier_collapse`);
  - parts failing one after the other (`simulate_cumulative_failure`), which
    tracks the giant component of the rebuilt projection.
- **Stock-savings accounting** (`analyze_stock_savings`).
- **Market-segment labels** from brand names in the car name.
- **Community map.** The loop that flattens a community partition into a
  node→index map.
- **Demand-gap prediction** (`predict_demand`). Standard parts are those used
  by at least 70% of a community. A member lacking some of them is suggested
  exactly those.

Modules follow the source's structure:

| file | module | models |
|---|---|---|
| bipartite.dfy | `Bipartite` | the catalog, B, neighbours, degree, node removal |
| ranking.dfy | `Ranking` | `sorted(..., key=score, reverse=True)` as a stable sort |
| projection.dfy | `Projection` | `build_projected_graph`, `get_degrees` |
| components.dfy | `Components` | connected components, their number, the giant component |
| criticality.dfy | `Criticality` | `get_part_criticality` |
| failure.dfy | `Failure` | the three failure simulations |
| stock.dfy | `Stock` | `analyze_stock_savings` |
| segments.dfy | `Segments` | `get_vehicle_segments` |
| communities.dfy | `Communities` | the map-building loop of `detect_communities` |
| demand.dfy | `Demand` | `predict_demand` |

Representation:

- **The catalog.** The module globals `V_CARROS`, `V_PECAS` and
  `EDGES_BIPARTIDO` are a `Catalog` value passed as a parameter.
- **Graphs.** A networkx graph is a value: node lists in insertion order plus
  an edge set. B stores each edge as (car, part). P stores each edge keyed
  (u, v) in the orientation it was added.
- **Copies.** `B.copy()` followed by removals is a new value, so the caller's
  B is unchanged by construction.
- **Loops.** Loops that build state (the projection, the criticality list, the
  stock sum, the cumulative records, the three dictionaries) are methods with
  loop invariants. Each is proved equal to a specification function.
- **Connected components.** A component is the fixpoint of a breadth step
  (`Components.Closure`). It is proved equal to path reachability.
- **Sets.** The shared parts are a set intersection, and the communities
  are sets, so the part counts, standard parts and missing parts have no
  fixed order. The model keeps all of these as sets. It also keeps a part's
  affected cars as a set: see "## Left out".

Behaviour of the code worth knowing:

- **Giant component after all parts fail.** The projection always keeps
  every car as a node, so a cascade that removes every part ends with giant
  component 1 (`Failure.AllPartsFailed`). It is 0 only when there are no
  cars.
- **Zero parts needed.** The reduction factor is 0 when no parts are needed.
- **Usage pairs naming unknown nodes.** `add_edges_from` would add such a
  name as a node of its own. The model requires a well-formed catalog
  (`Catalog.WellFormed`) instead: distinct names, no name both a car and a
  part, and every usage pair naming a listed car and a listed part.

## Model

| member | source | states |
|---|---|---|
| `Bipartite.BuildBipartite` | src/graph_ops.py:6-12 | for a well-formed catalog, the edges of B are exactly the usage pairs and a name is a node iff it is a listed car or part |
| `Bipartite.BuildBipartiteNodes` | src/graph_ops.py:8-11 | for a well-formed catalog B is a valid bipartite graph on the catalog's cars with one node per listed car and part |
| `Bipartite.PartDegreeIsUserCount` | src/graph_ops.py:95-97 | a part's degree equals the number of distinct cars joined to it, and its neighbours are exactly those cars |
| `Bipartite.CarDegreeSum` | src/graph_ops.py:142-143 | the car degrees of a valid B add up to the number of edges |
| `Bipartite.PartDegreeSum` | src/graph_ops.py:94-98 | the part degrees of a valid B add up to the number of edges |
| `Bipartite.DegreeSumTouching` | src/graph_ops.py:142-143 | over distinct, pairwise non-adjacent nodes the degrees add up to the number of edges touching them |
| `Bipartite.RemoveNode` | src/graph_ops.py:168 | removal keeps B valid, drops exactly that node, and keeps exactly the edges not at it |
| `Bipartite.RemoveNodeSet` | src/graph_ops.py:168 | removal takes exactly that name out of the node set |
| `Bipartite.RemoveNodes` | src/graph_ops.py:123 | removes the listed names one after the other, skipping absent ones, keeps B valid, and leaves exactly the unlisted nodes |
| `Bipartite.RemoveAbsent` | src/graph_ops.py:123 | removing a name that is not a node changes nothing |
| `Bipartite.RemoveNodesEdges` | src/graph_ops.py:122-123 | removing a list of non-car names keeps every car and keeps exactly the edges whose part is not listed |
| `Ranking.SortByScore` | src/graph_ops.py:100 | the sorted list is a permutation of the input, non-increasing in score, keeps the input order among equal scores, and keeps the score total |
| `Ranking.InsertWithScore` | src/graph_ops.py:100 | insertion puts the new entry after every entry of equal score and leaves other scores' entries untouched |
| `Ranking.SortedUnique` | src/graph_ops.py:100 | a stable sort is determined by its input: two non-increasing lists with the same entries per score are equal |
| `Projection.BuildProjectedGraph` | src/graph_ops.py:14-31 | the nested loops build exactly the projection of B over the catalog cars |
| `Projection.AddCarEdges` | src/graph_ops.py:21-29 | the inner loop adds, for car i, an edge to each later car it shares parts with |
| `Projection.RowEdges` | src/graph_ops.py:23-29 | the edges added for car i go to later cars sharing a part and carry the shared parts and their number |
| `Projection.RowsEdges` | src/graph_ops.py:20-29 | after i outer rounds there is an edge (u, v) iff u is among the first i cars, precedes v and shares a part with it |
| `Projection.ProjectionEdges` | src/graph_ops.py:17-29 | every car is a node; (u, v) is an edge iff u precedes v and they share a part; its weight and shared parts are the intersection's size and contents |
| `Projection.ProjectionAdjacency` | src/graph_ops.py:20-29 | cars are linked iff they are distinct catalog cars whose part sets intersect; no self-loops; one orientation per edge; weight at least 1 |
| `Projection.TwoSharedParts` | src/graph_ops.py:27-29 | two cars sharing exactly parts a and b get one edge of weight 2 carrying {a, b} |
| `Projection.ProjectionShrinks` | src/graph_ops.py:123-126 | removing a non-car node keeps P's nodes and can only remove P's edges |
| `Projection.GetDegrees` | src/graph_ops.py:50-53 | the (node, degree) pairs of P, one per node, sorted non-increasing with ties in node order |
| `Projection.ProjectionDegree` | src/graph_ops.py:20-29 | a car's degree in P is the number of other catalog cars it shares a part with |
| `Components.Closure` | src/graph_ops.py:130 | the closure contains its seed and stays within P's nodes |
| `Components.ClosureClosed` | src/graph_ops.py:130 | the closure is closed under one more breadth step |
| `Components.ComponentIsReachable` | src/graph_ops.py:129-130 | v is in u's component iff a path of P leads from u to v |
| `Components.ClosureLeast` | src/graph_ops.py:130 | the closure lies inside every closed set containing the seed |
| `Components.ComponentMonotone` | src/graph_ops.py:126-130 | with fewer edges every component shrinks or stays |
| `Components.MaxOfIsMax` | src/graph_ops.py:130 | the largest component size is an upper bound attained by some component |
| `Components.GiantMonotone` | src/graph_ops.py:126-130 | removing edges never enlarges the giant component |
| `Components.GiantBounds` | src/graph_ops.py:130 | the giant component has at most as many nodes as P and at least one when P has nodes |
| `Components.EdgelessGiant` | src/graph_ops.py:130 | a non-empty edgeless P has giant component 1 |
| `Components.ComponentCountBounds` | src/graph_ops.py:129 | the number of components is at most the number of nodes and is 0 iff there are none |
| `Criticality.GetPartCriticality` | src/graph_ops.py:84-100 | one entry per part, scored by the number of cars using it, sorted non-increasing with ties in part order, scores summing to the number of usage pairs |
| `Criticality.PartScoresTotal` | src/graph_ops.py:94-98 | the scores of the unsorted list add up to the parts' degree sum |
| `Criticality.RankedEntries` | src/graph_ops.py:94-100 | the sorted list holds exactly the parts, each scored by its number of users |
| `Criticality.ScoresAreUsers` | src/graph_ops.py:95-98 | each unsorted entry scores its part by its distinct users |
| `Failure.SimulatePartFailure` | src/graph_ops.py:102-114 | a non-node gives (empty, 0); a node gives its neighbours, with severity times car count equal to their number (0 without cars) |
| `Failure.PartFailureOfPart` | src/graph_ops.py:112-113 | for a part: the affected cars are exactly its users, severity lies in [0, 1], and is 1 iff every car uses it |
| `Failure.SimulateSupplierCollapse` | src/graph_ops.py:116-132 | returns the projection of B minus the listed names, its component count and giant size, both between 1 and the car count when there are cars |
| `Failure.ProjectionSub` | src/graph_ops.py:122-126 | fewer usage edges give a projection whose edges are a subset |
| `Failure.CollapseEffect` | src/graph_ops.py:122-130 | after a collapse two cars stay linked iff they share an unlisted part; the giant component is no larger than before |
| `Failure.CarNeighborsAfter` | src/graph_ops.py:123 | after removing non-car names a car keeps exactly its unlisted parts |
| `Failure.SimulateCumulativeFailure` | src/graph_ops.py:148-182 | the baseline record followed by one record per listed part still present, each from the rebuilt projection |
| `Failure.FailPart` | src/graph_ops.py:168-180 | removes the part from the working copy, grows the failed set by one, keeps the failed names off the copy, and records the rebuilt projection's node count and giant size |
| `Failure.FailedCounts` | src/graph_ops.py:153-180 | the k-th record of the result, the baseline being record 0, counts k failed parts |
| `Failure.CascadeLength` | src/graph_ops.py:163-169 | one record per distinct listed name that is a node; absent and repeated names add nothing |
| `Failure.RecordBounds` | src/graph_ops.py:172-180 | a record keeps every car as a node and has a giant component of at most the car count |
| `Failure.RemovalGiant` | src/graph_ops.py:168-176 | losing usage edges, as a part's removal does, never enlarges the giant component |
| `Failure.TrailLast` | src/graph_ops.py:163-168 | the last working copy is B with the whole list removed |
| `Failure.CascadeCars` | src/graph_ops.py:163-180 | every appended record has all cars remaining and a giant of at most the car count |
| `Failure.CascadeMonotone` | src/graph_ops.py:157-180 | the giant component never grows from one record to the next, starting from the baseline |
| `Failure.CumulativeFailureBounds` | src/graph_ops.py:153-182 | over the whole result: cars remaining equals the car count, giant at most the car count and non-increasing |
| `Failure.CascadeEmpty` | src/graph_ops.py:163-164 | a cascade with no records leaves B unchanged |
| `Failure.CascadeEndsInCollapse` | src/graph_ops.py:163-176 | the last record's giant equals that of a supplier collapse of the whole list |
| `Failure.EdgelessProjection` | src/graph_ops.py:17-29 | with no usage edges the projection's giant component is one car |
| `Failure.AllPartsFailed` | src/graph_ops.py:163-180 | once every part has failed the last record's giant component is 1 |
| `Stock.Reduction` | src/graph_ops.py:145 | the factor times the parts needed is needed − unique; 0 when nothing is needed; in [0, 1) when 0 < unique ≤ needed |
| `Stock.AnalyzeStockSavings` | src/graph_ops.py:134-146 | parts needed is the summed car degrees (the number of usage pairs when B fits the catalog), unique parts the catalog's parts |
| `Stock.StockOfCatalog` | src/graph_ops.py:139-145 | for the built graph parts needed equals the usage pairs; the factor is non-negative when every part is used |
| `Stock.UsedPartsBound` | src/graph_ops.py:139-145 | when every part is used there are at least as many usage pairs as parts |
| `Stock.SharedPartSaving` | src/graph_ops.py:141-145 | three cars sharing one part need 3 parts, a factor of 2/3 |
| `Segments.ContainsIsSubstring` | src/graph_ops.py:190 | the substring search succeeds iff the name occurs contiguously |
| `Segments.AnyContainedIff` | src/graph_ops.py:190 | `any` over the brand list holds iff some brand occurs in the name |
| `Segments.GetVehicleSegments` | src/graph_ops.py:186-194 | every car gets exactly one label, Premium iff a brand name occurs in it, else Economy |
| `Segments.PremiumExample` | src/graph_ops.py:190-191 | "BMW X3" is Premium |
| `Segments.NoBrandInitial` | src/graph_ops.py:190-193 | a name holding no brand's first letter is Economy |
| `Segments.EconomyExample` | src/graph_ops.py:190-193 | "Fiat Toro" is Economy |
| `Communities.FlattenMeaning` | src/graph_ops.py:79-81 | a node is mapped iff some community holds it, and then to the last such index |
| `Communities.CommunityMap` | src/graph_ops.py:78-82 | the map's keys are the communities' union, each mapped to the last community holding it |
| `Communities.PartitionIndex` | src/graph_ops.py:79-81 | for disjoint communities every node maps to its own community |
| `Demand.PredictDemand` | src/graph_ops.py:223-253 | the two dictionaries are the fold over communities of standard parts and gap suggestions |
| `Demand.CountParts` | src/graph_ops.py:236-240 | part_counts has a key per part used by a member, counting its users |
| `Demand.CountCar` | src/graph_ops.py:237-240 | one member's round adds one to each of its parts |
| `Demand.UsageAdd` | src/graph_ops.py:239-240 | adding a member adds one to the usage count of exactly its parts |
| `Demand.AddGaps` | src/graph_ops.py:247-251 | the gap loop adds each member's missing standard parts, if non-empty, over the earlier suggestions |
| `Demand.StandardIff` | src/graph_ops.py:243 | a part is standard iff 10 × its usage count ≥ 7 × the community size |
| `Demand.UniversalPartIsStandard` | src/graph_ops.py:243 | a part every member uses is standard |
| `Demand.StandardsMeaning` | src/graph_ops.py:232-244 | comm_standards has an entry exactly for the communities of at least two members, holding their standard parts |
| `Demand.SuggestedIff` | src/graph_ops.py:246-251 | a car is suggested iff it lacks a standard part of some community of at least two members it belongs to |
| `Demand.SuggestionValue` | src/graph_ops.py:246-251 | a suggestion is the car's non-empty gaps in its last such community, none of which it uses |
| `Demand.SuggestionsAt` | src/graph_ops.py:246-251 | a community sets a member's entry to its gaps there when it has any, and otherwise leaves the entry alone |
| `Demand.SmallCommunityIgnored` | src/graph_ops.py:233 | a community of fewer than two members changes neither output |
| `Demand.LargeCommunity` | src/graph_ops.py:233-251 | a community of at least two members records its standard parts and adds its members' gaps over the earlier ones |

## Left out

- networkx library algorithms with no visible code: `greedy_modularity_communities`, `maximum_spanning_tree` (with `get_mst`), `core_number`/`k_core`, the assortativity functions, `get_graph_info` and `get_bridges_and_cuts`. The community partition is an input to `Communities.CommunityMap` and `Demand.PredictDemand`.
- Floating point: severity and the reduction factor are exact `real`s. The 70% threshold `count >= len * 0.7` is stated as `10 * count >= 7 * len`. For integer counts both forms give the same result. When 7 × len / 10 is a whole number N, the exact product of len and the double 0.7 lies just below N. N is itself a double, so rounding gives N or less, and `count >= len * 0.7` holds exactly when count ≥ N. Otherwise 7 × len / 10 is at least 0.1 away from every integer, far more than the rounding error for any list size.
- Order of lists. `affected_cars` (src/graph_ops.py:112) lists a part's users in the order their usage pairs were added to B. `Failure.SimulatePartFailure` returns the set of those users and drops that order. B's edges are a set, so the model does not record insertion order.
- Order of the community loops. The shared parts, part counts, standard parts and missing parts come from sets, which Python iterates in no fixed order. The model keeps them as sets.
- Node attributes (`bipartite`, `type`) and edge attributes other than weight and shared parts: part nodes are B's part list, which is what the `type == 'part'` filter selects in a graph built from a well-formed catalog.
- Bipartite.BuildBipartite: requires a well-formed catalog. On a usage pair naming an unlisted name, `add_edges_from` (src/graph_ops.py:11) adds that name as a node with no side. The model's graph, a car list and a part list, cannot hold such a node.
- Errors raised on a missing node, as preconditions. `B.neighbors` raises on a missing node. `B.degree` of a missing node returns a degree view, so `analyze_stock_savings` raises when it adds that view to its sum (src/graph_ops.py:143). So every catalog car, and every member of a community of at least two, must be a node. A listed name that is a car must not be failed, since the rebuilt projection would then query a missing car.
- Duplicates in the car list: `Failure.Initial` uses the list's length, as `len(V_CARROS)` does. The lemmas about car counts assume distinct cars.
- `src/data.py` (constant data), the visualizer, the report and article generators, `main.py` and the tests: no analytics logic.
