# Towns and roads: a verified model

This project models a small road-map library. Towns are the vertices of an
undirected graph and named, weighted roads are its edges. The graph stores a
set of towns and a set of roads. It answers shortest-path queries with
Dijkstra's algorithm and lists a route as lines of the form
"Town1 via Road to Town2 12 mi". A manager works on town and road names: it
builds Town values from the names and forwards each call to the graph.

Modules:

- `Wrappers`: `Option` stands for a reference that may be null; `Obj` is the argument of `equals(Object)`.
- `JavaStrings`: `String.compareTo`, `String.hashCode`, `Objects.hash` with 32-bit wrap-around, and the decimal rendering of a weight.
- `Towns`: a town is identified by its name. The `TownObject` class models a Town object with its adjacency list and that list's getter and setter. The search keeps the adjacency lists it computes in a map inside the graph.
- `Roads`: a road is identified by its unordered pair of endpoints. This module holds the hash-code finding below.
- `Sorting`: `Collections.sort` by a name key, as a stable insertion sort.
- `Walks`: walks along roads, their weights, reachability and shortest walks. Every search result is measured against these.
- `Searches`, `SearchSteps`: the loop invariant of the search, stated on values, and one lemma for each kind of step. The steps are the start, settling a town, and relaxing one road.
- `Graphs`: the class `Graph`. Its sets and maps are fields that its methods update in place, as in the source.
- `Managers`: the class `TownGraphManager`.

The main result concerns `Graphs.Graph.DijkstraShortestPath`. When the search
from `s` ends, the towns that have a distance are exactly those reachable from
`s`. Each distance is the weight of a shortest walk, and the predecessor links
spell out such a walk. `ShortestPath` and `TownGraphManager.GetPath` then
return that walk's lines, in walking order. The list is empty exactly when
the target is the source or cannot be reached.

## Model

| member | source | states |
|---|---|---|
| JavaStrings.CompareTo | Town.java:25-28 | String.compareTo, which towns and roads compare by, is zero exactly on equal strings |
| JavaStrings.CompareToAntisymmetric | Town.java:25-28 | swapping the arguments of compareTo negates the result |
| JavaStrings.CompareToTransitive | Town.java:25-28 | "compareTo <= 0" is transitive, as Collections.sort needs |
| JavaStrings.CompareToIsLexicographic | Town.java:25-28 | a negative compareTo means exactly that the first string comes first in lexicographic order (an independent definition) |
| JavaStrings.ToInt32 | Town.java:59-62 | Java int arithmetic: the result is a 32-bit value congruent to the input modulo 2^32, and in-range values are unchanged |
| JavaStrings.HashCode | Town.java:59-62 | String.hashCode is a 32-bit int |
| JavaStrings.ObjectsHash | Road.java:117-120 | Objects.hash of hash codes is a 32-bit int |
| JavaStrings.NatToString | Graph.java:158-159 | the weight written into a path line is a non-empty string of decimal digits, with no leading zero unless it is 0 |
| JavaStrings.DecimalRoundTrip | Graph.java:158-159 | reading the digits of a written weight back gives the weight |
| Towns.CompareTo | Town.java:24-28 | Town.compareTo is zero exactly for towns of the same name, and negative or positive by the lexicographic order of the names |
| Towns.HashCode | Town.java:59-62 | Town.hashCode (Objects.hash of the name) is a 32-bit int |
| Towns.Equals | Town.java:64-77 | Town.equals is true exactly for a town of the same name; it is false for null and for other classes |
| Towns.HashCodeAgreesWithEquals | Town.java:59-77 | equal towns have equal hash codes |
| Towns.TownObject.constructor | Town.java:18-22 | a new town has the given name and an empty adjacency list |
| Towns.TownObject.GetAdjacentTowns | Town.java:47-49 | returns the stored adjacency list |
| Towns.TownObject.SetAdjacentTowns | Town.java:54-56 | replaces the adjacency list and nothing else |
| Towns.TownObject.EqualsObject | Town.java:64-77 | two town objects are equal exactly when they have the same name, whatever their adjacency lists hold |
| Roads.Unweighted | Road.java:39-44 | the three-argument constructor keeps the endpoints and name, and leaves the weight at 0 |
| Roads.Contains | Road.java:57-59 | Road.contains is true exactly when the town has the name of an endpoint |
| Roads.CompareTo | Road.java:46-49 | Road.compareTo orders roads by name: zero exactly on equal names, negative exactly when the name comes first lexicographically, positive exactly when it comes second |
| Roads.Equals | Road.java:126-142 | Road.equals is true exactly for a road with the same unordered pair of endpoints; it is false for null and other classes |
| Roads.EqualIffSameEndpoints | Road.java:137-141 | the two-way endpoint comparison in equals is the same as comparing endpoint sets |
| Roads.EqualIgnoresDirectionWeightAndName | Road.java:122-141 | a road equals its reverse, and equality ignores weight and name |
| Roads.EqualIsEquivalence | Road.java:126-142 | road equality is reflexive, symmetric and transitive |
| Roads.HashCodeAsWritten | Road.java:117-120 | Road.hashCode as written (Objects.hash(destination, source)) is a 32-bit int |
| Roads.HashCodeAsWrittenDisagreesWithEquals | Road.java:117-142 | Road(A, B) equals Road(B, A), yet their hash codes as written are 4064 and 4034 |
| Roads.HashCode | Road.java:117-120 | the corrected hash code, symmetric in the endpoints, is a 32-bit int |
| Roads.HashCodeAgreesWithEquals | Road.java:117-142 | under the corrected hash code, equal roads hash alike |
| Sorting.Insert | TownGraphManager.java:61 | inserting into a list sorted by name gives a sorted list with one more occurrence of the element |
| Sorting.SortBy | TownGraphManager.java:61 | Collections.sort returns a permutation of its input, sorted by compareTo on the names |
| Sorting.StrictlyAscendingUnique | TownGraphManager.java:80-88 | two strictly ascending lists of the same names are equal, so allTowns does not depend on the set's iteration order |
| Walks.Across | Graph.java:249-255 | the town across a road from `t`: the road joins `t` to it whenever `t` is an endpoint |
| Walks.WalkAppend | Graph.java:229-238 | a walk extended by one road is a walk, heavier by that road's weight |
| Searches.OneRoadBetween | Graph.java:71-77 | a well-formed edge set holds at most one road between two towns |
| Searches.Escape | Graph.java:187-199 | a walk leaving the settled towns enters an unsettled town that is no farther than the walk's weight |
| Searches.RelaxedAfterDecrease | Graph.java:229-238 | a relaxed town stays relaxed when other distances only decrease |
| Searches.SettleKeepsStep | Graph.java:218-221 | a sound predecessor link stays sound when one more town is settled |
| Searches.SettleTree | Graph.java:218-221 | settling a town keeps the predecessor tree sound, with the new town ranked last |
| Searches.SettleRanks | Graph.java:218-221 | the settlement ranks stay within the number of settled towns |
| Searches.SettleOptimal | Graph.java:176-178 | the nearest unsettled town's distance is a lower bound on every walk to it |
| Searches.SettleFrontier | Graph.java:218-221 | moving a town from unsettled to settled keeps the two sets disjoint and covering the distance map |
| Searches.SettleOrdered | Graph.java:176-178 | after settling the nearest town, no settled town is farther than it and no unsettled town is nearer |
| Searches.SettleRelaxed | Graph.java:218-221 | all settled towns but the new one remain relaxed |
| Searches.RelaxTree | Graph.java:233-236 | recording the improved distance and predecessor of `t` keeps the predecessor tree sound |
| Searches.RelaxFrontier | Graph.java:234-236 | adding `t` to the unsettled towns with a distance keeps the sets consistent |
| Searches.RelaxOrdered | Graph.java:234-236 | an improved distance through the last-settled town is no nearer than that town |
| Searches.RelaxOptimal | Graph.java:234-236 | changing an unsettled distance leaves the settled lower bounds intact |
| Searches.RelaxRelaxed | Graph.java:233-236 | lowering an unsettled distance keeps the other settled towns relaxed |
| Searches.RelaxedAlongStep | Graph.java:229-238 | after one pass of the relaxation loop, the roads from `u` to the towns seen so far are relaxed |
| Searches.RelaxedAlongAll | Graph.java:229-238 | when the loop has covered every town across a road at `u`, `u` is relaxed |
| Searches.RelaxedAlongPrefix | Graph.java:229-238 | the towns seen so far grow by one entry of the adjacency list per pass |
| Searches.SettleCount | Graph.java:175-179 | settling adds one town and never more than the graph holds, so the search ends |
| Searches.PredecessorWalk | Graph.java:150-160 | the walk spelt out by the predecessor links is empty exactly for the source |
| Searches.PredecessorWalkSound | Graph.java:150-160 | the predecessor walk to `t` is a walk from the source to `t` whose weight is `t`'s distance |
| Searches.SearchDone | Graph.java:175-181 | when no unsettled town is left, exactly the reachable towns have a distance, and each predecessor walk is a shortest walk |
| Searches.PredecessorWalkStep | Graph.java:151-156 | the predecessor walk to `t` is the walk to its predecessor plus the one road between them |
| Searches.PredecessorWalkBack | Graph.java:151-156 | stepping back one predecessor keeps the predecessor walk to the destination split as "walk so far + hops collected" |
| SearchSteps.SearchStart | Graph.java:172-173 | the source at distance 0, alone among the unsettled towns, satisfies the search invariant |
| SearchSteps.SettleStep | Graph.java:176-177 | settling an unsettled town of least distance keeps the search invariant, with only that town left to relax |
| SearchSteps.RelaxStep | Graph.java:233-236 | lowering `t`'s distance through the settled `u` keeps the invariant, never raises a distance and leaves settled distances alone |
| SearchSteps.RelaxEdge | Graph.java:230-237 | one pass of the relaxation loop, whether it improves or not: the new state is the relaxation of the old one, keeps the invariant, never raises a distance, keeps settled distances, points the predecessor of every town whose distance dropped at `u` and leaves the other predecessors alone, and relaxes the road from `u` to `t` |
| SearchSteps.RelaxationByEdge | Graph.java:230-236 | deciding the pass by the road getEdge returns gives the same outcome as any road joining `u` and `t`, and nothing changes when `t` is `u`; no distance grows, no town leaves the unsettled set, and only towns whose distance dropped get `u` as predecessor |
| Searches.LessMatchesSentinel | Graph.java:206-213 | the Distance order is the int comparison of getDistance's results, with Integer.MAX_VALUE for a missing distance, for every distance below MAX_VALUE |
| Searches.DistanceIn | Graph.java:206-213 | getDistance on a distance map: infinity exactly for an unrecorded town, else its distance |
| Searches.Descend | Graph.java:229-238 | two passes that each only lower distances, keep the unsettled towns and the settled distances, and reroute predecessors through `u` exactly where distances dropped, do all of that taken together |
| Searches.Reroute | Graph.java:233-236 | over two passes at `u`, a town whose distance dropped has `u` as predecessor and a town whose distance stayed keeps its predecessor, as after a single pass |
| Graphs.Reverse | Graph.java:162 | Collections.reverse: the element at position i comes from position n-1-i |
| Graphs.ReverseReverse | Graph.java:162 | reversing twice gives back the list |
| Graphs.ReverseCons | Graph.java:162 | the reverse of a list that starts with `x` ends with `x` |
| Graphs.SegmentLayout | Graph.java:153-159 | Segment, the path line of one hop: the line starts with the name of the town the hop leaves and ends with the road's weight in decimal digits followed by " mi"; reading those digits back gives the weight |
| Graphs.Segments | Graph.java:158-159 | one path line per hop, in the same order |
| Graphs.Graph.constructor | Graph.java:49-57 | a new graph is empty, with an empty search state |
| Graphs.Graph.FromSets | Graph.java:34-43 | a graph over the given sets, with an empty search state |
| Graphs.Graph.GetEdge | Graph.java:59-68 | getEdge returns null exactly when no road touches both towns; otherwise a stored road touching both; between two different towns it is the unique such road |
| Graphs.Graph.AddEdge | Graph.java:70-77 | addEdge adds both towns; it stores the new road unless a road between the towns exists; it returns the new road either way and leaves the search state alone |
| Graphs.Graph.AddVertex | Graph.java:79-82 | addVertex adds the town and returns true exactly when it was absent |
| Graphs.Graph.ContainsEdge | Graph.java:84-87 | containsEdge is true exactly when a road joins the towns, in either argument order |
| Graphs.Graph.ContainsVertex | Graph.java:89-92 | containsVertex is set membership |
| Graphs.Graph.EdgesOf | Graph.java:99-108 | edgesOf returns exactly the roads with the town as an endpoint |
| Graphs.Graph.RemoveEdge | Graph.java:110-117 | removeEdge removes the road between the towns (whatever weight and name are passed) and returns the road it built; it returns null when there is none |
| Graphs.Graph.RemoveVertex | Graph.java:119-138 | removeVertex removes the town and every road at it; it returns true exactly when the town was present |
| Graphs.Graph.DistanceOf | Graph.java:206-213 | getDistance is the recorded distance, or infinity when none is recorded |
| Graphs.Graph.GetLowestDistanceVertex | Graph.java:187-199 | returns an unsettled town with no unsettled town strictly nearer |
| Graphs.Graph.SettleVertex | Graph.java:218-221 | settleVertex moves the town from the unsettled to the settled set |
| Graphs.Graph.FindAndSetAdjacentVertices | Graph.java:246-257 | the town's adjacency list gets one entry per road at it, each the town across that road, so each entry is a vertex linked to the town; the other towns' lists are unchanged |
| Graphs.Graph.RelaxToward | Graph.java:230-237 | one pass of the relaxation loop: when the distance through `u` is below getDistance(t), `t` gets that distance, `u` as predecessor and a place among the unsettled towns; otherwise, and always when `t` is `u`, distances, predecessors and unsettled towns stay as they were. The search invariant holds afterwards, no distance grows, settled distances stay, and the road to `t` is relaxed |
| Graphs.Graph.RelaxAll | Graph.java:229-238 | after the loop over the adjacency list, every settled town is relaxed; no recorded distance grows or disappears, no town leaves the unsettled set, settled distances are unchanged, every town whose distance dropped or was first recorded has `u` as predecessor, and every other town keeps its predecessor or keeps having none |
| Graphs.Graph.FindMinimalDistances | Graph.java:226-239 | findMinimalDistances keeps the search invariant and relaxes the town just settled. `u`'s adjacency list becomes one entry per road at `u` and the other lists stay. No recorded distance grows or disappears, no town leaves the unsettled set, settled distances are unchanged, and the predecessors are rerouted through `u` exactly where distances dropped |
| Graphs.Graph.SearchedOutcome | Graph.java:167-181 | after a finished search, exactly the reachable towns have a distance, and each predecessor walk is a shortest walk weighing that distance |
| Graphs.Graph.SettleNearest | Graph.java:176-178 | one round of the search loop settles `u`, an unsettled town that no unsettled town beats on getDistance, and only `u`. Only `u` leaves the unsettled set, and its adjacency list becomes one entry per road at it. The invariant holds again, no distance grows, settled distances stay, and predecessors change exactly for the towns whose distance dropped, to `u` |
| Graphs.Graph.DijkstraShortestPath | Graph.java:167-181 | the search terminates; then the towns with a distance are exactly those reachable from the source, and each distance is the weight of a shortest walk spelt out by the predecessors |
| Graphs.Graph.CollectPath | Graph.java:149-163 | the loop over predecessors plus the reversal yield the lines of the predecessor walk to the destination; the list is empty exactly when it is the source or has no distance |
| Graphs.Graph.ShortestPath | Graph.java:146-164 | shortestPath returns the lines of a shortest walk to the destination, in walking order; the list is empty exactly when the destination is the source or is unreachable |
| Managers.ToList | TownGraphManager.java:60 | new ArrayList<>(set) holds each element of the set once |
| Managers.NamesOf | TownGraphManager.java:62-64 | the names list has one entry per element, in the same order |
| Managers.SortedRoadNames | TownGraphManager.java:58-66 | the names read from roads sorted by name are in compareTo order |
| Managers.SortedTownNames | TownGraphManager.java:80-88 | the names read from the sorted towns are strictly ascending and are exactly the towns' names |
| Managers.TownGraphManager.constructor | TownGraphManager.java:14 | a new manager has an empty graph |
| Managers.TownGraphManager.AddRoad | TownGraphManager.java:16-20 | adds both towns and the road (unless the towns are already joined) and returns true |
| Managers.TownGraphManager.GetRoad | TownGraphManager.java:22-29 | the name of a stored road touching both towns; null exactly when there is none |
| Managers.TownGraphManager.AddTown | TownGraphManager.java:31-34 | adds the town; true exactly when no town of that name was present |
| Managers.TownGraphManager.GetTown | TownGraphManager.java:36-44 | the town of that name, or null exactly when the graph has none |
| Managers.TownGraphManager.ContainsTown | TownGraphManager.java:46-49 | true exactly when a town of that name is present |
| Managers.TownGraphManager.ContainsRoadConnection | TownGraphManager.java:51-55 | true exactly when a road joins the two towns |
| Managers.TownGraphManager.AllRoads | TownGraphManager.java:57-66 | the names of all roads, one entry per stored road, in compareTo order |
| Managers.TownGraphManager.DeleteRoadConnection | TownGraphManager.java:68-72 | removes the road between the towns, whatever name is given; true exactly when there was one |
| Managers.TownGraphManager.DeleteTown | TownGraphManager.java:74-77 | removes the town and its roads; true exactly when it was present |
| Managers.TownGraphManager.AllTowns | TownGraphManager.java:79-88 | the names of the towns, strictly ascending, each town's name exactly once |
| Managers.TownGraphManager.GetPath | TownGraphManager.java:90-93 | the lines of a shortest route between the two towns; empty exactly when the towns are the same or unconnected |

## Left out

- JavaStrings.CompareTo: names are sequences of Unicode scalar values, while String.compareTo compares UTF-16 code units. The results agree when every character is at most U+FFFF. Above that, the sign can differ: for "\u{1F600}" against "\u{FFFF}" Java's result is negative and the model's is positive. Lone surrogates cannot be represented.
- JavaStrings.HashCode: the 31·h + c recurrence runs over scalar values, not UTF-16 code units, so hash codes differ from Java's for characters above U+FFFF.
- Towns.CompareTo: inherits the scalar-value order of JavaStrings.CompareTo.
- Roads.CompareTo: inherits the scalar-value order of JavaStrings.CompareTo.
- Towns.HashCode: inherits the scalar-value hash of JavaStrings.HashCode.
- Managers.TownGraphManager.AllTowns: the order is that of JavaStrings.CompareTo, so names with characters above U+FFFF may be listed in a different order than Java's.
- Managers.TownGraphManager.AllRoads: same as AllTowns for road names with characters above U+FFFF.
- Graphs.Graph.DijkstraShortestPath: requires the search state as the constructors leave it. The source never clears that state, so a second search on the same graph starts from stale distances and predecessors. For example, after shortestPath(A, C) on roads A–B(1) and B–C(1), shortestPath(C, A) returns an empty list. Searches after the first are not modelled.
- Graphs.Graph.ShortestPath: same restriction as DijkstraShortestPath. Only the first query on a graph is modelled.
- Managers.TownGraphManager.GetPath: same restriction. Only the first getPath on a manager is modelled.
- Roads.Road: weights are natural numbers. Negative weights, which Dijkstra's algorithm does not handle, and int overflow of a summed distance are not modelled. getDistance's Integer.MAX_VALUE stands in for infinity; the model uses a separate value, so a real distance of MAX_VALUE is not confused with "none".
- Searches.WellFormed: the edge set is modelled by Road.equals alone, not by hash buckets. Because of the hash-code finding below, a real HashSet may hold Road(A, B) and Road(B, A) side by side, or miss a road on removal. The model keeps the equals semantics.
- Graphs.Graph.FromSets: takes the sets by value. The Java constructor keeps the caller's set objects, so it aliases them.
- Graphs.Graph.GetEdge: when both towns are the same, any road touching that town may be returned. The set's iteration order decides which.
- Graphs.Graph.GetLowestDistanceVertex: among towns at equal distance, any may be returned. The set's iteration order decides which.
- Graphs.Graph.FindAndSetAdjacentVertices: the adjacency list is kept in a map in the graph, keyed by town. The source stores it on the Town object that was passed in. The adjacency list of `TownObject` is modelled separately.
- edgeSet and vertexSet (Graph.java:94-97 and 140-143) return the fields themselves. The model reads the `edges` and `vertices` fields directly.
- populateTownGraph (TownGraphManager.java:101-115) reads a file. File I/O is not modelled.
- Town.setName (Town.java:40-42), Road.setName, setSource, setDestination and setWeight (Road.java:71-115), and both toString methods are not modelled. Roads and towns are values here, and renaming a town or moving a road inside a set would break the set. The getters are the fields of the `Town` and `Road` datatypes.
- Null towns, road names and strings are not modelled: every argument is a value.
- Managers.TownGraphManager.AllRoads: when several roads share a name, their order depends on the set's iteration order and on the stability of the sort. The contract states only sortedness and that every stored road appears exactly once.
- Managers.TownGraphManager.GetTown: returns the town's value. The identity of the stored Town object is not modelled.

## Findings

| source | as written | input that shows it | evidently intended | confidence | as-written member | corrected member |
|---|---|---|---|---|---|---|
| Road.java:117-120 | hashCode is Objects.hash(destination, source), which depends on the order of the endpoints, while equals ignores that order | Road(A, B, 1, "r") and Road(B, A, 1, "r") are equal, but their hash codes are 4064 and 4034 | a hash code that is symmetric in the endpoints, so equal roads hash alike and a hash set treats a road and its reverse as one road | not executed | Roads.HashCodeAsWritten, Roads.HashCodeAsWrittenDisagreesWithEquals | Roads.HashCode, Roads.HashCodeAgreesWithEquals |
