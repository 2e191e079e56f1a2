# A model of the OSRM routing engine's algorithmic core

The project models the parts of OSRM (the `osrm-backend` tree) in which a fast algorithm stands in for a simple one,
and proves that the two agree. It is written in Dafny 4.11; `dafny verify dfyconfig.toml` checks all of it. Code that
changes state in the source is a class or a method with loops here, and is proved against specification functions and
predicates on plain values; what the source promises is then proved about those. Automatic induction is switched off
on every lemma, so an induction is always the one written in the body.

What is proved, in the system's own terms:

1. **Contraction hierarchy and table query.** `EndToEnd.ContractAndQuery` contracts a graph with the contractor's
   rounds, lays the result out as the static query graph and fills a distance table with the bucket search and its
   stall-on-demand. Every entry is the length of a shortest path of the input graph, or "infinite" if there is none,
   for all priorities, tie hashes and thresholds, as long as the contracted distances fit their 30-bit field. The
   heart is `Hierarchy.RoundPreserves`: all nodes of a round are contracted against the same old graph, the witness
   for one may run through another, and still no distance between survivors changes, in either direction
   (`ContractionTheory.RoundKeepsDistances` states it for the stored edges, and every round of the contractor promises
   it). Shortcuts unpack to input edges of the same length across the renumbering flush, and an edge that is no
   shortcut keeps the number of an input edge. The witness search is exact up to its cut-off, so a shortcut is made
   exactly when no other way is as short. Threads that delete edges in parallel write disjoint cells, so every
   interleaving gives the same graph.
2. **Strongly connected components.** The iterative Tarjan algorithm, with its duplicate frames and skipped low-link
   updates, numbers exactly the classes of mutual reachability; the trip plugin's counting sort turns them into ranges
   of a permutation of the locations.
3. **Graph compression.** Removing degree-2 nodes keeps routes (one to one, at equal cost) and geometry. One pass is
   enough: it leaves nothing to merge but at barriers and via nodes (`GraphCompressor.PassIsEnough`). The segments
   laid out afterwards are the original roads, each of them once, with their original weights in both directions
   (`EdgeBasedNodes.GenerateEdgeExpandedNodes`); only next to a removed traffic light a segment may weigh one penalty
   more. Turn restrictions are kept if and only if no step merges the roads of a node v over its neighbour u while a
   restriction leads from v over u back to v (`GraphCompressor.CarriedIff`); which neighbour is u follows from the
   order of the stored roads. The turns generated afterwards comply with roads, barriers and restrictions
   (`TurnFilter.GeneratedComplies`). They are the original ones at surviving nodes, one for one, if and only if no
   restriction lost in this way decides about a way back that is otherwise open (`LostReturns.TurnsIff`).
   `LostReturns.ReturnLostHere` is the smallest network with one that does, from its storage over compression to the
   turns.
4. **Map matching.** The loop that jumps back in the trace terminates and cuts it where it has to: each segment starts
   at the first timestamp that can start one, and is split at its first breakage as soon as the last good timestamp is
   too far away, by the wrapping clock or by number (right after a restart the source does not ask). There is one
   sub-matching for every segment with two unbroken timestamps, in order, and no other. The recurrence turns an offer
   down early, before the transition is added. That is safe for all scores if and only if no transition raises the
   score of a candidate that an earlier predecessor can reach (`HiddenMarkov.RefusalIsSafeIff`); a sub-matching is the
   most probable path over its timestamps whenever this holds along it, and `MapMatching.MatchLosing` is a trace for
   which the answer is not. The source's score -log(beta) - d/beta raises one exactly when d is below -beta log(beta),
   so never when beta is at least 1 (`HiddenMarkov.TransitionGains`); beta comes with the request and may be smaller.
5. **Spatial indexes.** The k-d tree returns what a linear scan returns; the packed R-tree holds every segment once
   under nested rectangles, each as small as can be, and best-first search visits segments in order of distance, from
   which the three geospatial queries get exactly the segments they promise. The search needs a lower bound for each
   rectangle of the tree; the one of the source bounds every rectangle if and only if distances grow on the way to a
   point (`RTreeQuery.MinDistBoundsIff`). Its distance formula does not, because a degree of longitude shrinks towards
   the poles: it bounds a rectangle exactly when the longitudes include that of the query, or no point of the near
   edge is nearer than the one it picks (`RTreeQuery.FormulaBoundsIff`, with a failing rectangle in
   `RTreeQuery.MinDistOverestimates`).
6. **Packed and simplified geometry.** Douglas-Peucker keeps every dropped point within the threshold, keeps no point
   without need, and a second run adds nothing; the range table equals plain prefix sums; the polyline codec returns
   the encoded points if and only if all differences fit in 31 signed bits, as they do for all points on the earth.

Two debug assertions of the source do not always hold, and the model says exactly when: the size assertion of
`SCC_Component` (`Trip.SplitLocations`, broken by `Trip.TwoSeparateLocations`) and the bound in `RangeTable::GetRange`
(`RangeTables.RangeTable.GetRange`, broken by `RangeTables.EmptyRange`).

The contractor can loop for ever. When priorities are read from a file instead of computed, they stay the same in all
rounds, and two neighbours whose priorities differ by less than the float epsilon may both be refused, round after
round: the one ahead loses the tie. For any number of nodes above two, such priorities, tie hash and flush threshold,
some graph makes the run stop before its renumbering flush if and only if there is a pair of nodes of this kind and no
more nodes than the threshold come before it (`NearTies.NeverStuckIff`). `NearTies.ContractNearTie` contracts a graph
of three nodes with float priorities and the thresholds of the source, whatever the tie hash, and reports that it got
stuck. In every run, before and after the flush, decided near-ties rule it out (`ContractionRuns.StuckIsUndecided`).

The files fall into groups: `Walks` to `EndToEnd` with `ContractionRuns`, `NearTies` and `Interleaving` (group 1),
`TarjanScc` and `Trip` (2), `RoadNetwork`, `RestrictionMap`, `RestrictionCarry`, `CompressedGeometry`, `RoadGeometry`,
`RoadWeights`, `FullCompression`, `GraphCompressor`, `RoadStorage`, `RoadPartition`, `EdgeBasedNodes`, `TurnFilter`
and `LostReturns` (3), `HiddenMarkov` and `MapMatching` (4), `KdTree`, `RTree`, `RTreeQuery` and `GeospatialQuery`
(5), `DouglasPeucker`, `RangeTable` and `Polyline` (6). `Basics` holds what several of them share.

## Model

| member | source | states |
|---|---|---|
| Hierarchy.ThroughChosen | osrm-backend/contractor/contractor.hpp:509-567 | a way through a contracted node survives the round, although the detour found for it may run through other nodes contracted in the same round |
| Hierarchy.RoundPreserves | osrm-backend/contractor/contractor.hpp:509-567 | contracting an independent set against one old graph, with new edges that stand for ways of it, changes no distance between surviving nodes: a length is within reach after the round if and only if it was before |
| Hierarchy.CoveredStep | osrm-backend/contractor/contractor.hpp:365-615 | a route that climbs through contracted nodes, crosses the rest and descends survives a round at no greater length |
| Hierarchy.CoveredMeets | osrm-backend/routing_algorithms/many_to_many.hpp:117-166 | such a route is found by two searches over stored edges, one from each end, that meet |
| ContractionTheory.Unpack | osrm-backend/contractor/contractor.hpp:871-938 | recursive unpacking of any stored edge ends in input edges of exactly the same total length |
| ContractionTheory.Sound | osrm-backend/contractor/contractor.hpp:669-723 | every arc a search may follow is a walk of the input graph of that length |
| ContractionTheory.RoundConsistent | osrm-backend/contractor/contractor.hpp:460-587 | a round keeps: shortcuts are two edges stored at their middle node, edges at contracted nodes lead to later ones, remaining edges are mirrored |
| ContractionTheory.RoundIsStep | osrm-backend/contractor/contractor.hpp:509-567 | what a round of the contractor does meets the hypotheses of the distance theorem |
| ContractionTheory.RoundComplete | osrm-backend/contractor/contractor.hpp:509-567 | after a round every walk of the input is still matched by a climb-cross-descend route, unless a distance outgrew its field |
| ContractionTheory.RoundKeepsDistances | osrm-backend/contractor/contractor.hpp:509-567 | for the edges as stored: among the nodes left, exactly the same lengths are within reach before and after a round |
| ContractionTheory.CoreDistances | osrm-backend/contractor/contractor.hpp:509-567 | at any time, a length is within reach among the remaining nodes exactly when it is in the input graph |
| ContractionTheory.StartConsistent | osrm-backend/contractor/contractor.hpp:166-268 | the prepared input graph satisfies the invariant of the rounds |
| ContractionTheory.StartComplete | osrm-backend/contractor/contractor.hpp:166-268 | before the first round every input walk is matched |
| BinaryHeaps.BinaryHeap.constructor | osrm-backend/data_structures/binary_heap.hpp:124-132 | the new heap is the empty map with no queued node |
| BinaryHeaps.BinaryHeap.Clear | osrm-backend/data_structures/binary_heap.hpp:126-132 | the abstract map and queue are empty again although index entries stay stale; the sentinel is restored |
| BinaryHeaps.BinaryHeap.Insert | osrm-backend/data_structures/binary_heap.hpp:138-149 | adds one node with key and data to map and queue, heap order and the links between slots and records kept |
| BinaryHeaps.BinaryHeap.WasInserted | osrm-backend/data_structures/binary_heap.hpp:176-184 | true exactly for the nodes inserted since the last Clear, in spite of stale index entries |
| BinaryHeaps.BinaryHeap.Empty | osrm-backend/data_structures/binary_heap.hpp:134-136 | true exactly when no inserted node is still queued |
| BinaryHeaps.BinaryHeap.GetKey | osrm-backend/data_structures/binary_heap.hpp:163-167 | the key of an inserted node, also after its removal |
| BinaryHeaps.BinaryHeap.GetData | osrm-backend/data_structures/binary_heap.hpp:151-161 | the data of an inserted node, also after its removal |
| BinaryHeaps.BinaryHeap.SetData | osrm-backend/data_structures/binary_heap.hpp:151-155 | writing through the data reference changes that node's data and nothing else |
| BinaryHeaps.BinaryHeap.DeleteMin | osrm-backend/data_structures/binary_heap.hpp:197-210 | removes a queued node of minimum key and nothing else; keys and data stay |
| BinaryHeaps.BinaryHeap.DecreaseKey | osrm-backend/data_structures/binary_heap.hpp:223-234 | lowers the key of a queued node and nothing else |
| BinaryHeaps.BinaryHeap.Upheap | osrm-backend/data_structures/binary_heap.hpp:286-302 | repairs an order violation above one slot, records unchanged but for positions |
| BinaryHeaps.BinaryHeap.Downheap | osrm-backend/data_structures/binary_heap.hpp:259-284 | repairs an order violation below one slot, records unchanged but for positions |
| BinaryHeaps.RootIsMin | osrm-backend/data_structures/binary_heap.hpp:186-210 | under heap order the first slot holds the minimum |
| DynamicGraphs.DynamicGraph.FromSorted | osrm-backend/data_structures/dynamic_graph.hpp:91-127 | every node owns exactly its edges of the sorted list, in order, in disjoint ranges |
| DynamicGraphs.DynamicGraph.CountEdges | osrm-backend/data_structures/dynamic_graph.hpp:96-112 | the counting pass cuts the sorted list into consecutive ranges, one per node |
| DynamicGraphs.DynamicGraph.InsertEdge | osrm-backend/data_structures/dynamic_graph.hpp:182-222 | adds one edge to the named node and leaves all other adjacency lists as they were, whichever of the three ways of finding room is taken |
| DynamicGraphs.DynamicGraph.ShiftLeft | osrm-backend/data_structures/dynamic_graph.hpp:188-192 | taking the free slot on the left keeps the node's multiset of edges and makes room |
| DynamicGraphs.DynamicGraph.Relocate | osrm-backend/data_structures/dynamic_graph.hpp:193-214 | moving a range to the end of the list changes no adjacency list and makes room |
| DynamicGraphs.DynamicGraph.MoveRange | osrm-backend/data_structures/dynamic_graph.hpp:195-212 | the copied range equals the old one and nothing outside it changes |
| DynamicGraphs.DynamicGraph.Append | osrm-backend/data_structures/dynamic_graph.hpp:216-221 | appends one edge in a slot nobody owns |
| DynamicGraphs.DynamicGraph.DeleteEdge | osrm-backend/data_structures/dynamic_graph.hpp:225-236 | drops exactly the named edge of the node; a stale id costs the node its last edge instead; others are untouched |
| DynamicGraphs.DynamicGraph.DeleteEdgesTo | osrm-backend/data_structures/dynamic_graph.hpp:239-259 | removes exactly the edges to the target, keeps the multiplicity of all others and counts them |
| DynamicGraphs.DynamicGraph.Prune | osrm-backend/data_structures/dynamic_graph.hpp:241-253 | the in-place loop computes the reference pruning of the range and touches nothing else |
| DynamicGraphs.PrunedKeeps | osrm-backend/data_structures/dynamic_graph.hpp:239-253 | the reference pruning loses exactly the edges to the target |
| DynamicGraphs.DynamicGraph.FindEdge | osrm-backend/data_structures/dynamic_graph.hpp:262-272 | the first slot with that target, or none if there is no such edge |
| DynamicGraphs.OtherSlices | osrm-backend/data_structures/dynamic_graph.hpp:182-259 | rewriting one range within slots nobody else owns keeps ranges disjoint and all other lists equal |
| EdgeMerging.BothDirections | osrm-backend/contractor/contractor.hpp:174-198 | the doubled list holds both directions of every input edge and nothing else |
| EdgeMerging.ScanParallel | osrm-backend/contractor/contractor.hpp:229-242 | finds the run of parallel edges and the smallest forward and backward distance in it |
| EdgeMerging.PrepareEdges | osrm-backend/contractor/contractor.hpp:171-266 | sorted edges without loops that stand for input edges and carry the number of one between the same ends; every input arc is offered from both ends at no greater distance; two edges between the same ends differ in length and serve different directions |
| WitnessSearch.Dijkstra | osrm-backend/contractor/contractor.hpp:726-790 | every key is the length of a real walk avoiding the middle node; unless more than maxNodes nodes are settled no walk to a target within maxDistance is shorter than the key |
| WitnessSearch.SettleAndRelax | osrm-backend/contractor/contractor.hpp:740-788 | one round of the search either ends it with that promise or expands one more node |
| WitnessSearch.Relax | osrm-backend/contractor/contractor.hpp:765-787 | after the loop every edge of the node has been followed, and settled keys have not changed |
| WitnessSearch.RelaxEdge | osrm-backend/contractor/contractor.hpp:767-786 | one edge is followed or rightly skipped |
| WitnessSearch.Reach | osrm-backend/contractor/contractor.hpp:777-786 | a node becomes known, or cheaper, or stays; the heap is never asked to decrease a removed node |
| WitnessSearch.Improves | osrm-backend/contractor/contractor.hpp:777-786 | a settled node is never reached more cheaply, so DecreaseKey only meets queued nodes |
| WitnessSearch.KeysAreShortest | osrm-backend/contractor/contractor.hpp:738-788 | below the smallest key of an unexpanded node no walk beats the keys |
| WitnessSearch.Stopping | osrm-backend/contractor/contractor.hpp:744-761 | each of the three reasons to stop leaves the keys exact for the targets, or means that the node limit was passed |
| NodeContraction.ContractNode | osrm-backend/contractor/contractor.hpp:818-940 | every way through the node gets a shortcut or has a way round as short; shortcuts are two edges of the node, listed from both ends, and none is superfluous unless its search was cut off |
| NodeContraction.SeedHeap | osrm-backend/contractor/contractor.hpp:841-861 | source at 0, all forward targets known, counted and covered by maxDistance |
| NodeContraction.CollectShortcuts | osrm-backend/contractor/contractor.hpp:871-901 | shortcuts are emitted exactly where the path over the node beats the key |
| NodeContraction.MergeDirections | osrm-backend/contractor/contractor.hpp:903-938 | folding twins offers the same directed shortcuts as before |
| NodeContraction.FindLaterTwin | osrm-backend/contractor/contractor.hpp:908-931 | the first later entry with the same ends, distance and kind |
| NodeContraction.NecessaryMore | osrm-backend/contractor/contractor.hpp:871-901 | with an exact search, an emitted shortcut has no way round that is as short |
| ContractionRound.OneOfTwoIsBeaten | osrm-backend/contractor/contractor.hpp:1015-1073 | of two different nodes at least one forbids the other, for any priorities and hash |
| ContractionRound.WhoGoesFirst | osrm-backend/contractor/contractor.hpp:1015-1073 | the lower priority goes first; of equal priorities the larger hash, and of equal hashes the larger number |
| ContractionRound.ChosenIsLowest | osrm-backend/contractor/contractor.hpp:997-1058 | a chosen node has the lowest priority within two hops, and the tie rule decides between equal ones |
| ContractionRound.LowestIsChosen | osrm-backend/contractor/contractor.hpp:997-1058 | a node whose priority is lowest within two hops, by at least the float epsilon, is chosen |
| ContractionRound.ChosenAreIndependent | osrm-backend/contractor/contractor.hpp:997-1073 | no two chosen nodes are adjacent or share a neighbour, for any priorities and tie hash |
| ContractionRound.SomeNodeIsUnbeaten | osrm-backend/contractor/contractor.hpp:460-481 | if near-ties are decided, some remaining node is refused by nobody within two hops |
| ContractionRuns.StuckPair | osrm-backend/contractor/contractor.hpp:997-1073 | a round that refuses everybody does so for a near-tie that is not decided, between the foremost of the remaining nodes and another one |
| ContractionRuns.StuckIsUndecided | osrm-backend/contractor/contractor.hpp:365-615 | a run gets stuck only in a round in which near-ties are not decided |
| NearTies.StarGood | osrm-backend/contractor/contractor.hpp:365-587 | a star, with or without the isolated nodes beside it, is a state of the contractor in any round |
| NearTies.StarRefuses | osrm-backend/contractor/contractor.hpp:460-481 | a round on a star whose centre is in a near-tie chooses exactly the isolated nodes |
| NearTies.StarRunIsStuck | osrm-backend/contractor/contractor.hpp:298-615 | every run on the star gets stuck before its flush |
| NearTies.StuckMeansTrouble | osrm-backend/contractor/contractor.hpp:298-615 | a run with cached priorities that gets stuck before its flush has an undecided pair with no more nodes before it than the threshold |
| NearTies.NeverStuckIff | osrm-backend/contractor/contractor.hpp:298-615 | with given cached priorities, no run on any graph of so many nodes gets stuck before its flush if and only if there is no such pair |
| NearTies.UnflushedIff | osrm-backend/contractor/contractor.hpp:298-615 | if the flush cannot come before two nodes are left, that is: near-ties among the nodes of the graph are decided |
| NearTies.ContractStar | osrm-backend/contractor/contractor.hpp:298-657 | the contractor itself gets stuck on the star |
| NearTies.ContractNearTie | osrm-backend/contractor/contractor.hpp:298-657 | for every tie hash, three nodes with cached float priorities, two of them one float step apart, and the thresholds of the source: the contractor gets stuck after one round |
| ContractionRound.WitnessesFollow | osrm-backend/contractor/contractor.hpp:726-790 | the witness search for a node stays among the other remaining nodes |
| ContractionRound.RoundIsGood | osrm-backend/contractor/contractor.hpp:509-520 | the collected shortcuts of a round bridge every way through every chosen node |
| ContractionRound.DeletedAll | osrm-backend/contractor/contractor.hpp:522-532 | afterwards survivors have lost exactly their edges into the chosen set |
| ContractionRound.ListsAreReplaced | osrm-backend/contractor/contractor.hpp:522-567 | deleting and inserting freeze contracted nodes and keep or improve every other edge |
| ContractionRound.NextState | osrm-backend/contractor/contractor.hpp:460-587 | one whole round on the adjacency lists keeps the contractor's invariant |
| ContractionRound.NextDistances | osrm-backend/contractor/contractor.hpp:460-587 | one whole round on the adjacency lists changes no distance between surviving nodes |
| ContractionRound.NextShortcuts | osrm-backend/contractor/contractor.hpp:509-567 | one whole round adds only shortcuts: any other edge was there before, with the same number |
| ContractionRound.RenamedTranslates | osrm-backend/contractor/contractor.hpp:404-433 | renaming an edge is undone by the translation to original numbers |
| ContractionRound.FlushKeepsEdges | osrm-backend/contractor/contractor.hpp:368-458 | the flush hands out exactly the same edges as before |
| ContractionRound.FlushKeepsState | osrm-backend/contractor/contractor.hpp:368-458 | the flush keeps the contractor's invariant under the new numbers |
| Contractors.Contractor.constructor | osrm-backend/contractor/contractor.hpp:166-294 | the new contractor satisfies the invariant over the plain input graph; it holds no shortcut, and every edge carries the number of an input edge between its ends |
| Contractors.Contractor.IsNodeIndependent | osrm-backend/contractor/contractor.hpp:997-1058 | true exactly when no node within two hops forbids the choice |
| Contractors.Contractor.FirstHop | osrm-backend/contractor/contractor.hpp:1006-1030 | decides the first hop and collects exactly the neighbours |
| Contractors.Contractor.Partition | osrm-backend/contractor/contractor.hpp:460-481 | splits the remaining nodes into chosen and others, none lost or doubled |
| Contractors.Contractor.ChooseNodes | osrm-backend/contractor/contractor.hpp:460-481 | the chosen nodes are apart; somebody is chosen exactly when some remaining node is refused by nobody |
| Contractors.Contractor.ContractAll | osrm-backend/contractor/contractor.hpp:509-520 | the shortcuts of all chosen nodes, made against one unchanged graph |
| Contractors.Contractor.DeleteIncomingEdges | osrm-backend/contractor/contractor.hpp:942-964 | exactly the edges to the node stored at its neighbours are gone |
| Contractors.Contractor.Neighbours | osrm-backend/contractor/contractor.hpp:944-958 | each neighbour other than the node itself, once |
| Contractors.Contractor.DeleteAll | osrm-backend/contractor/contractor.hpp:522-532 | exactly the edges into chosen nodes stored at their neighbours are gone |
| Contractors.Contractor.InsertShortcut | osrm-backend/contractor/contractor.hpp:547-564 | the shortcut is stored; an edge that disappears was a longer one with the same ends and flags |
| Contractors.Contractor.InsertShortcuts | osrm-backend/contractor/contractor.hpp:544-567 | every shortcut of the round is stored or replaced a longer duplicate |
| Contractors.Contractor.WriteLevels | osrm-backend/contractor/contractor.hpp:483-507 | levels of chosen nodes become the round, under original numbers, others stay |
| Contractors.Contractor.ContractChosen | osrm-backend/contractor/contractor.hpp:509-567 | contracting, deleting and inserting keep the invariant for the next round and every distance between surviving nodes |
| Contractors.Contractor.ContractRound | osrm-backend/contractor/contractor.hpp:460-614 | a round keeps the invariant and all distances between surviving nodes; exactly the refused nodes remain, so they shrink exactly when somebody may be chosen, and always when near-ties are decided |
| Contractors.Contractor.TakeTurn | osrm-backend/contractor/contractor.hpp:365-615 | one turn of the loop: the flush exactly when it is due, then a round that leaves exactly the refused nodes |
| Contractors.Contractor.ContractRounds | osrm-backend/contractor/contractor.hpp:365-615 | the loop: every round starts with the nodes the one before refused, and the loop ends when enough are gone or nobody was chosen |
| Contractors.Contractor.Flush | osrm-backend/contractor/contractor.hpp:368-458 | renumbering changes none of the edges the contractor would hand out |
| Contractors.Contractor.CollectEdges | osrm-backend/contractor/contractor.hpp:404-433 | edges of remaining nodes are renamed, those of contracted nodes moved out, none lost and none doubled |
| Contractors.Contractor.Run | osrm-backend/contractor/contractor.hpp:298-657 | on return the edges are consistent and complete over the input graph, and only shortcuts were added; the rounds, the flush and the end are as the loop says; it cannot get stuck when near-ties are decided; core markers name exactly the remaining nodes |
| Contractors.Contractor.MarkCore | osrm-backend/contractor/contractor.hpp:617-651 | marks exactly the remaining nodes, or clears the markers when at most two remain |
| Contractors.Contractor.GetEdges | osrm-backend/contractor/contractor.hpp:669-723 | exactly the stored edges, under original numbers, as many as there are |
| QueryGraphs.StaticGraph.constructor | osrm-backend/data_structures/static_graph.hpp:91-122 | every node owns exactly its edges of the sorted list |
| SearchTheory.StallIsRight | osrm-backend/routing_algorithms/many_to_many.hpp:260-283 | a stalled node is reached earlier some other way |
| SearchTheory.FindsOptimal | osrm-backend/routing_algorithms/many_to_many.hpp:227-283 | stalling never hides an optimal route: its end gets exactly the optimal key |
| ManyToMany.StallAtNode | osrm-backend/routing_algorithms/many_to_many.hpp:260-283 | stalls exactly when an edge of the opposite direction from a known node beats the key |
| ManyToMany.RelaxOutgoingEdges | osrm-backend/routing_algorithms/many_to_many.hpp:227-257 | all edges of the direction are relaxed, keys stay sound, settled keys stay |
| ManyToMany.RelaxEdge | osrm-backend/routing_algorithms/many_to_many.hpp:235-255 | one edge is relaxed; DecreaseKey only meets queued nodes |
| ManyToMany.InsertSeeds | osrm-backend/routing_algorithms/many_to_many.hpp:91-115 | the heap holds exactly the seeds with their offsets |
| ManyToMany.BackwardRoutingStep | osrm-backend/routing_algorithms/many_to_many.hpp:209-225 | settles one node, adds exactly its bucket entry and stalls or relaxes |
| ManyToMany.SearchTarget | osrm-backend/routing_algorithms/many_to_many.hpp:86-123 | buckets hold exactly the final keys of the search from this target |
| ManyToMany.ScanBucket | osrm-backend/routing_algorithms/many_to_many.hpp:186-200 | improves the entries of one row to the best non-negative sum and touches no other row |
| ManyToMany.ForwardRoutingStep | osrm-backend/routing_algorithms/many_to_many.hpp:171-207 | settles one node and keeps every entry of the row the best sum over nodes both searches settled |
| ManyToMany.SearchSource | osrm-backend/routing_algorithms/many_to_many.hpp:127-166 | the row is the best sum over all nodes settled from both sides |
| ManyToMany.EntryIsRoute | osrm-backend/routing_algorithms/many_to_many.hpp:186-200 | a finite entry is the length of a route of the plain graph |
| ManyToMany.ShortestIsFound | osrm-backend/routing_algorithms/many_to_many.hpp:117-166 | the two searches meet on a shortest route |
| ManyToMany.EntryIsRight | osrm-backend/routing_algorithms/many_to_many.hpp:69-169 | the best meeting sum is the shortest distance, or infinite if there is no route |
| ManyToMany.FillBuckets | osrm-backend/routing_algorithms/many_to_many.hpp:85-123 | all searches from targets finish with their keys in the buckets |
| ManyToMany.DistanceTable | osrm-backend/routing_algorithms/many_to_many.hpp:69-169 | over a hierarchy every table entry is the shortest distance of the plain graph |
| EndToEnd.ContractedIsHierarchy | osrm-backend/contractor/contractor.hpp:298-723 | what the contractor leaves is a hierarchy over the input, if distances fit their field |
| EndToEnd.Contract | osrm-backend/contractor/contractor.hpp:298-723 | contracting any input yields a hierarchy over it; every edge that is not a shortcut carries the number of an input edge between the same two ends |
| EndToEnd.ContractAndQuery | osrm-backend/routing_algorithms/many_to_many.hpp:69-169 | contraction and table query give the shortest distances of the input graph, for all priorities, hashes and thresholds; edges that are not shortcuts keep the number of an input edge |
| Interleaving.WritesDisjoint | osrm-backend/contractor/contractor.hpp:522-532 | threads of a round write different nodes' lists |
| Interleaving.OrderIrrelevant | osrm-backend/contractor/contractor.hpp:571-582 | every interleaving of the per-neighbour writes of a round leaves the same cells |
| Interleaving.DeletionOrderIrrelevant | osrm-backend/contractor/contractor.hpp:522-532 | every interleaving of the parallel deletions leaves the same graph, and it is what the loop over the chosen nodes promises: exactly the edges into chosen nodes are gone |
| TarjanScc.BeginVisit | osrm-backend/algorithms/tarjan_scc.hpp:117-147 | a visit starts: index, stack entry, low link over visited successors, frames for the others |
| TarjanScc.PopComponent | osrm-backend/algorithms/tarjan_scc.hpp:157-176 | pops exactly the stack down to the root into a new component of that size |
| TarjanScc.EndVisit | osrm-backend/algorithms/tarjan_scc.hpp:148-178 | after the recursion the invariant holds for the shorter path |
| TarjanScc.HandleFrame | osrm-backend/algorithms/tarjan_scc.hpp:103-179 | one popped frame is skipped, begun or ended; visits grow or the stack shrinks |
| TarjanScc.Explore | osrm-backend/algorithms/tarjan_scc.hpp:98-179 | the search from one root terminates with everything reached in finished components |
| TarjanScc.EnterInv | osrm-backend/algorithms/tarjan_scc.hpp:117-147 | starting a visit keeps the invariant, duplicate frames included |
| TarjanScc.LeaveInv | osrm-backend/algorithms/tarjan_scc.hpp:148-155 | ending a visit whose low link is below its index keeps the invariant |
| TarjanScc.PopInv | osrm-backend/algorithms/tarjan_scc.hpp:155-177 | ending a visit at a root keeps the invariant: the popped nodes are one class of mutual reachability |
| TarjanScc.RootCloses | osrm-backend/algorithms/tarjan_scc.hpp:155-166 | no edge leaves the popped nodes except into finished components |
| TarjanScc.SizesSum | osrm-backend/algorithms/tarjan_scc.hpp:167-199 | component sizes add up to the number of nodes |
| TarjanScc.TarjanSCC.constructor | osrm-backend/algorithms/tarjan_scc.hpp:75-80 | no node has a component yet |
| TarjanScc.TarjanSCC.Run | osrm-backend/algorithms/tarjan_scc.hpp:82-190 | two nodes share a component id if and only if each reaches the other; sizes are exact and positive, sum to the node count, and singletons are counted |
| Trip.AdjacentEdgeRange | osrm-backend/data_structures/matrix_graph_wrapper.hpp:48-61 | the successors are exactly the locations with a valid table entry |
| Trip.PlaceAll | osrm-backend/plugins/trip.hpp:188-192 | each step of the counting sort keeps ranges filled in increasing order |
| Trip.SortedIsGrouped | osrm-backend/plugins/trip.hpp:178-194 | the finished sort is a permutation whose ranges are the classes of mutual reachability |
| Trip.CompleteTable | osrm-backend/plugins/trip.hpp:156-163 | a table without invalid entries connects all locations |
| Trip.CountingSort | osrm-backend/plugins/trip.hpp:171-194 | ranges and permutation group the locations by component |
| Trip.SplitLocations | osrm-backend/plugins/trip.hpp:152-195 | on both branches the result is a permutation whose ranges are exactly the classes of mutual reachability of the table; with an unreachable entry, the asserted comparison of sizes holds if and only if some two locations are connected |
| Trip.RangeAssertion | osrm-backend/plugins/trip.hpp:118-133 | there are more locations than components if and only if some two locations are connected |
| Trip.TwoSeparateLocations | osrm-backend/plugins/trip.hpp:118-195 | two locations that cannot reach each other get three range bounds, which breaks the assertion |
| RoadNetwork.StartCompressed | osrm-backend/algorithms/graph_compressor.cpp:28-48 | the original network stands for itself |
| RoadNetwork.OriginalNeighbours | osrm-backend/algorithms/graph_compressor.cpp:32-36 | a surviving degree-2 node had exactly two original neighbours |
| RoadNetwork.MergedIsGood | osrm-backend/algorithms/graph_compressor.cpp:128-141 | a merged road is a chain of compatible original roads of the same cost, light penalties included |
| RoadNetwork.StepCompressed | osrm-backend/algorithms/graph_compressor.cpp:106-145 | one more removal keeps the network simple, symmetric and in correspondence with the original |
| RoadNetwork.ExpandedRoute | osrm-backend/algorithms/graph_compressor.cpp:28-163 | every compressed route expands to an original route of equal cost that does not turn round at a removed node |
| RoadNetwork.CompressedRoute | osrm-backend/algorithms/graph_compressor.cpp:28-163 | every original route that does not turn round at a removed node is the expansion of its surviving nodes |
| FullCompression.MergeableBefore | osrm-backend/algorithms/graph_compressor.cpp:32-106 | a node that can be merged after another one is gone could be merged before |
| FullCompression.StaysSettled | osrm-backend/algorithms/graph_compressor.cpp:28-163 | a node where nothing can be merged stays so when another node is merged away |
| FullCompression.SettledLeavesNothing | osrm-backend/algorithms/graph_compressor.cpp:32-106 | in terms of roads: where names, travel modes and directions of both roads agree, the two neighbours are joined already |
| FullCompression.CompressedIsLike | osrm-backend/data_structures/node_based_graph.hpp:65-69 | a compressed road has name, travel mode and direction of every original road on its chain, and the chain has one name in both directions |
| RestrictionMaps.RestrictionMap.constructor | osrm-backend/data_structures/restriction_map.cpp:30-75 | each (start, via) pair lists all its targets, or only the first forced one; the count is the total |
| RestrictionMaps.Add | osrm-backend/data_structures/restriction_map.cpp:34-74 | one more restriction extends or replaces the bucket as specified |
| RestrictionMaps.BuiltForbidden | osrm-backend/data_structures/restriction_map.cpp:30-75 | a turn is forbidden if a restriction names it and nothing is forced, or if the first forced turn leads elsewhere |
| RestrictionCarry.SettledUniform | osrm-backend/data_structures/restriction_map.cpp:56-72 | a bucket as built holds plain restrictions only, or one forced turn |
| RestrictionMaps.RestrictionMap.CheckIfTurnIsRestricted | osrm-backend/data_structures/restriction_map.cpp:138-174 | true exactly when some target of the pair blocks the turn |
| RestrictionMaps.RestrictionMap.CheckForEmanatingIsOnlyTurn | osrm-backend/data_structures/restriction_map.cpp:111-135 | the first forced turn of the pair, if any |
| RestrictionMaps.RestrictionMap.FixupStartingTurnRestriction | osrm-backend/data_structures/restriction_map.cpp:83-107 | moves the bucket of (v, w) to (u, w) and nothing else |
| RestrictionMaps.RestrictionMap.FixupArrivingTurnRestriction | osrm-backend/data_structures/restriction_map.hpp:98-144 | renames target v to w in exactly the buckets of roads into u other than from v |
| RestrictionMaps.RedirectAll | osrm-backend/data_structures/restriction_map.hpp:125-143 | the loop over predecessors rewrites exactly their buckets |
| RestrictionCarry.StartCarried | osrm-backend/algorithms/graph_compressor.cpp:28-48 | before compression the restrictions are the original ones |
| RestrictionCarry.SameTurns | osrm-backend/algorithms/graph_compressor.cpp:147-152 | a turn over compressed roads is forbidden exactly when the original turn is |
| RestrictionCarry.SameOnlyTurn | osrm-backend/algorithms/graph_compressor.cpp:147-152 | the forced turn from a compressed road stands for the original forced turn |
| RestrictionCarry.FixedUpAt | osrm-backend/algorithms/graph_compressor.cpp:147-152 | what the four fixups of a step do, key by key |
| RestrictionCarry.StepCarried | osrm-backend/algorithms/graph_compressor.cpp:147-152 | a step carries all restrictions along if none leads from v over u back to v |
| RestrictionCarry.NoReturnAt | osrm-backend/algorithms/graph_compressor.cpp:147-152 | restrictions that do not lead back never get a target that does |
| RestrictionCarry.ReturnIsLost | osrm-backend/algorithms/graph_compressor.cpp:147-152 | if one does lead from v over u back to v, the answer for the renamed turn is wrong after the step |
| CompressedGeometry.TakeFree | osrm-backend/data_structures/compressed_edge_container.cpp:135-147 | taking a bucket keeps live and free indices a partition of the store |
| CompressedGeometry.Release | osrm-backend/data_structures/compressed_edge_container.cpp:181-188 | returning a bucket keeps the partition and forgets exactly that edge |
| CompressedGeometry.CompressedEdgeContainer.IncreaseFreeList | osrm-backend/data_structures/compressed_edge_container.cpp:46-54 | a hundred more free buckets, no geometry changed |
| CompressedGeometry.CompressedEdgeContainer.TakeBucket | osrm-backend/data_structures/compressed_edge_container.cpp:135-147 | the edge gets an empty bucket, other geometries stay |
| CompressedGeometry.CompressedTakesOver | osrm-backend/data_structures/compressed_edge_container.cpp:133-195 | by position: first the segments of edge 1, or one to the via node, then those of edge 2, or one to the target, with their weights; edge 2 is forgotten and all others stay |
| CompressedGeometry.CompressedEdgeContainer.CompressEdge | osrm-backend/data_structures/compressed_edge_container.cpp:113-195 | in terms of buckets and free list, edge 1 takes over the geometry of edge 2 as CompressedTakesOver says |
| RoadGeometry.StartMatches | osrm-backend/data_structures/compressed_edge_container.cpp:40-60 | at first every road is its own segment |
| RoadGeometry.MergedFits | osrm-backend/algorithms/graph_compressor.cpp:154-161 | the merged geometry runs through the merged chain; weights sum to at most the distance, exactly if no removed node is a light |
| RoadGeometry.StepMatches | osrm-backend/algorithms/graph_compressor.cpp:113-161 | a step keeps geometries and roads in agreement, edge by edge |
| RoadGeometry.MirrorNodes | osrm-backend/extractor/edge_based_graph_factory.cpp:152-179 | the geometries of the two directions visit the same nodes in opposite order |
| RoadWeights.StartWeighed | osrm-backend/algorithms/graph_compressor.cpp:28-48 | at first every segment weighs what its road does |
| RoadWeights.MergedWeighs | osrm-backend/algorithms/graph_compressor.cpp:113-161 | after a merge every hop weighs its original distance, or one light penalty more next to a removed light |
| RoadWeights.MergedAlike | osrm-backend/algorithms/graph_compressor.cpp:113-161 | the two directions of a hop carry the same penalty |
| RoadWeights.StepWeighed | osrm-backend/algorithms/graph_compressor.cpp:113-161 | compressing one more node keeps both for all roads |
| GraphCompressor.FindEnds | osrm-backend/algorithms/graph_compressor.cpp:64-92 | finds the two neighbours of a degree-2 node and the ids of its four roads; w is the neighbour of the first slot, unless that road is reversed, and u the other |
| RoadStorage.StoreRoads | osrm-backend/data_structures/node_based_graph.hpp:77-102 | the graph built from roads sorted by source and target holds exactly these, the slots of each node in the order of targets |
| GraphCompressor.CanCompress | osrm-backend/algorithms/graph_compressor.cpp:32-106 | accepts a node exactly when it is no barrier, no via node, and its roads may be merged without doubling another |
| GraphCompressor.MergeRoads | osrm-backend/algorithms/graph_compressor.cpp:128-145 | the stored graph holds exactly the contracted network afterwards |
| GraphCompressor.DeleteBoth | osrm-backend/algorithms/graph_compressor.cpp:143-145 | both roads of the node are gone although the second id may be out of date |
| GraphCompressor.FixupRestrictions | osrm-backend/algorithms/graph_compressor.cpp:147-152 | the restriction map after the four fixups |
| GraphCompressor.StoreGeometry | osrm-backend/algorithms/graph_compressor.cpp:154-161 | the geometry store after both calls |
| GraphCompressor.StepFaithful | osrm-backend/algorithms/graph_compressor.cpp:106-162 | a step keeps roads, geometry and weights faithful to the original |
| GraphCompressor.CompressNode | osrm-backend/algorithms/graph_compressor.cpp:28-163 | one turn of the loop removes an eligible node faithfully, with the fixups of the restrictions, and leaves any other alone |
| GraphCompressor.Compress | osrm-backend/algorithms/graph_compressor.cpp:28-163 | whatever is removed, roads and geometry keep their meaning, with the weight of every hop and the name, mode and direction of every original road; restrictions keep theirs if and only if every step met the guard, as it does when no restriction leads back; barriers and via nodes stay, and nothing else is left to merge |
| GraphCompressor.PassSettles | osrm-backend/algorithms/graph_compressor.cpp:28-163 | a node that the pass has been at can never be merged later in the pass |
| GraphCompressor.PassIsEnough | osrm-backend/algorithms/graph_compressor.cpp:28-163 | one pass is enough: a second one would find nothing to merge |
| GraphCompressor.CarriedNotDangling | osrm-backend/algorithms/graph_compressor.cpp:147-152 | carried restrictions never name a removed node |
| GraphCompressor.LostDangles | osrm-backend/algorithms/graph_compressor.cpp:147-152 | a step that does not meet the guard leaves a restriction that names the removed node |
| GraphCompressor.StepDangles | osrm-backend/algorithms/graph_compressor.cpp:147-152 | no later step repairs that |
| GraphCompressor.CarriedIff | osrm-backend/algorithms/graph_compressor.cpp:28-163 | over a whole run: the restrictions are the original ones, renamed, if and only if every step met the guard |
| RoadPartition.StepPartitions | osrm-backend/algorithms/graph_compressor.cpp:106-162 | a step keeps every original road on exactly one road, in one place |
| RoadPartition.RunPartitions | osrm-backend/algorithms/graph_compressor.cpp:28-163 | after any number of steps every original road lies on exactly one road, in one place |
| EdgeBasedNodes.ForwardOffsets | osrm-backend/extractor/edge_based_graph_factory.cpp:127-140 | each offset is the weight before the segment |
| EdgeBasedNodes.ReverseOffsets | osrm-backend/extractor/edge_based_graph_factory.cpp:142-148 | each offset is the distance minus the weight from the far end |
| EdgeBasedNodes.MatchedIsOpposite | osrm-backend/extractor/edge_based_graph_factory.cpp:111-123 | after compression the two geometries of a road have equal length and opposite order |
| EdgeBasedNodes.LayRoad | osrm-backend/extractor/edge_based_graph_factory.cpp:111-181 | the segments lead from u to v, their offsets telescope in both directions and stay within the distances; each starts where the opposite geometry says |
| EdgeBasedNodes.HopsAreProper | osrm-backend/extractor/edge_based_graph_factory.cpp:152-177 | a segment is an original road between different nodes, and neither the compressed road nor its opposite |
| EdgeBasedNodes.InsertEdgeBasedNode | osrm-backend/extractor/edge_based_graph_factory.cpp:86-215 | for a road of the compressed network: nothing if neither direction can be driven, else its original roads in order, with the weights these have in the original network in both directions (next to a removed light one penalty more at most) and telescoping offsets; all assertions of the loop hold |
| EdgeBasedNodes.InsertFrom | osrm-backend/extractor/edge_based_graph_factory.cpp:308-336 | all roads that one node is the lower end of are inserted, once, in a direction that can be driven |
| EdgeBasedNodes.AllInserted | osrm-backend/extractor/edge_based_graph_factory.cpp:301-340 | once all nodes are handled, every original road that can be driven is in the list in exactly one direction |
| EdgeBasedNodes.GenerateEdgeExpandedNodes | osrm-backend/extractor/edge_based_graph_factory.cpp:301-340 | the list holds the segments of one road after the other, with their original weights; every original road that can be driven is exactly one of them; a road is laid from its lower end unless that way is closed |
| EdgeBasedNodes.CompressAndExpand | osrm-backend/extractor/edge_based_graph_factory.cpp:301-340 | the same weights, order and completeness for the network that compression leaves, with nothing assumed but the original network |
| EdgeBasedNodes.TurnEnds | osrm-backend/extractor/edge_based_graph_factory.cpp:471-481 | the nodes looked up for the turn angle are the original neighbours of the via node |
| TurnFilter.TurnPasses | osrm-backend/extractor/edge_based_graph_factory.cpp:403-449 | the filter for one turn: forced turn, barrier, U-turn outside dead ends, restriction |
| TurnFilter.GenerateTurns | osrm-backend/extractor/edge_based_graph_factory.cpp:396-452 | every usable turn that passes the filter, once, and no other: none leads through a barrier, none turns round where another road leaves, none is forbidden, and all others over open roads are there |
| TurnFilter.PassesIsAllowed | osrm-backend/extractor/edge_based_graph_factory.cpp:415-449 | for buckets as the restriction map builds them, the two restriction tests amount to the turn not being forbidden |
| TurnFilter.GeneratedComplies | osrm-backend/extractor/edge_based_graph_factory.cpp:396-452 | the filter in terms of roads, barriers and restrictions alone, in both directions |
| TurnFilter.SameDegree | osrm-backend/extractor/edge_based_graph_factory.cpp:434-438 | a surviving node has several roads exactly when it had several originally |
| TurnFilter.SameGenerated | osrm-backend/extractor/edge_based_graph_factory.cpp:396-452 | a compressed turn is generated exactly when the original turn would have been, if the restrictions of its first road are carried |
| TurnFilter.SamePassage | osrm-backend/extractor/edge_based_graph_factory.cpp:403-438 | direction of the roads and barrier test give the same answer for a compressed turn and its original |
| TurnFilter.FilteredTurns | osrm-backend/extractor/edge_based_graph_factory.cpp:396-452 | if every answer is the original one, the list holds the original turns at surviving nodes, one for one |
| LostReturns.StepLoses | osrm-backend/algorithms/graph_compressor.cpp:147-152 | a step that does not meet the guard makes the ways back of one bucket name the removed node, and nothing else |
| LostReturns.StepLost | osrm-backend/algorithms/graph_compressor.cpp:147-152 | such a bucket stays as it is in later steps |
| LostReturns.LostAnswers | osrm-backend/extractor/edge_based_graph_factory.cpp:415-449 | from a road with such a bucket, exactly the answer for the way back is wrong, if the restrictions decide about it |
| LostReturns.RunHurts | osrm-backend/algorithms/graph_compressor.cpp:28-163 | over a whole run, a lost way back matters in the end if and only if some step was harmful |
| LostReturns.TurnsIff | osrm-backend/extractor/edge_based_graph_factory.cpp:396-452 | the generated turns are the original ones at surviving nodes, one for one, if and only if no step of the run was harmful |
| LostReturns.CompressAndGenerate | osrm-backend/extractor/edge_based_graph_factory.cpp:396-452 | compression followed by turn generation: each turn of the compressed network once if it complies with roads, barriers and restrictions, and no other; they are the original ones if and only if no step was harmful, and so whenever every step met the guard or no restriction leads back |
| LostReturns.ReturnLostHere | osrm-backend/algorithms/graph_compressor.cpp:64-152 | the roads 0 - 1 - 2, stored as the source stores them, with turning round at 2 forbidden: after node 1 is removed, the turn is generated |
| HiddenMarkov.HiddenMarkovModel.constructor | osrm-backend/data_structures/hidden_markov_model.hpp:89-115 | all columns are blank and broken |
| HiddenMarkov.HiddenMarkovModel.Clear | osrm-backend/data_structures/hidden_markov_model.hpp:117-131 | columns before the timestamp stay, the others are blank |
| HiddenMarkov.HiddenMarkovModel.Initialize | osrm-backend/data_structures/hidden_markov_model.hpp:133-167 | finds the first timestamp that can start a matching, never the last one, or shows that none can |
| HiddenMarkov.RelaxedCell | osrm-backend/routing_algorithms/map_matching.hpp:222-275 | candidates of a column do not influence each other |
| HiddenMarkov.RelaxedSteps | osrm-backend/routing_algorithms/map_matching.hpp:222-275 | every live score is earned by its back pointer |
| HiddenMarkov.RelaxedExhausted | osrm-backend/routing_algorithms/map_matching.hpp:222-275 | a candidate is left pruned only if no live predecessor can reach it |
| HiddenMarkov.CellBest | osrm-backend/routing_algorithms/map_matching.hpp:230-274 | if no transition gains late, no predecessor so far has a better offer than the score |
| HiddenMarkov.LateGainLoses | osrm-backend/routing_algorithms/map_matching.hpp:237-240 | a transition that raises a score of a candidate some earlier predecessor can reach loses the better offer for some scores |
| HiddenMarkov.RefusalIsSafeIff | osrm-backend/routing_algorithms/map_matching.hpp:230-274 | for fixed timestamps and candidate counts: the new scores are the best offers for all previous scores and emissions if and only if no transition gains late |
| HiddenMarkov.TransitionGains | osrm-backend/data_structures/hidden_markov_model.hpp:68-75 | the score -log(beta) - d/beta is positive exactly when d is below -beta log(beta), and never when beta is at least 1 |
| HiddenMarkov.LargeBetaIsSafe | osrm-backend/data_structures/hidden_markov_model.hpp:68-75 | with a beta of at least 1 the early refusal is safe |
| HiddenMarkov.Relax | osrm-backend/routing_algorithms/map_matching.hpp:222-275 | the loops compute the recurrence; live scores are earned by their back pointers and, if no transition gains late, are the best offers; pruned candidates are unreachable |
| MapMatching.ColumnFacts | osrm-backend/routing_algorithms/map_matching.hpp:204-292 | in a segment back pointers lead to live candidates of unbroken timestamps, and a broken timestamp is out of reach of the last good one before it |
| MapMatching.TopIsLastGood | osrm-backend/routing_algorithms/map_matching.hpp:277-292 | the timestamp a step starts from is the last good one that no breakage has cancelled, counted over the timestamps in between |
| MapMatching.LastGoodUnique | osrm-backend/routing_algorithms/map_matching.hpp:277-292 | there is only one such timestamp |
| MapMatching.AdvanceRunning | osrm-backend/routing_algorithms/map_matching.hpp:204-292 | a forward step extends the segment; the stack of good timestamps and the start of the breakage are what the columns say |
| MapMatching.Restart | osrm-backend/routing_algorithms/map_matching.hpp:177-202 | a split ends the segment at its first breakage and restarts at the first timestamp that can start, strictly later than the last start, or nothing after it can start |
| MapMatching.Viterbi | osrm-backend/routing_algorithms/map_matching.hpp:158-300 | the back-jumping loop terminates; every segment but the last was split as soon as, and only when, no good timestamp was left or the last one was out of reach, at its first breakage if it had one; the last segment runs to the end of the trace or nothing can start after it |
| MapMatching.ChainScore | osrm-backend/routing_algorithms/map_matching.hpp:334-352 | the table's score at the end of a chain of back pointers is the log probability of that path |
| MapMatching.NoRivalWins | osrm-backend/routing_algorithms/map_matching.hpp:222-275 | if no transition along the chain gains late, no other choice of candidates at the same timestamps beats the score in the table |
| MapMatching.ChainIsOptimal | osrm-backend/routing_algorithms/map_matching.hpp:326-352 | if no transition along it gains late, the chain that ends at the best candidate is the most probable path over its timestamps |
| MapMatching.BestCandidate | osrm-backend/routing_algorithms/map_matching.hpp:326-332 | a candidate with the best score of the column |
| MapMatching.Trim | osrm-backend/routing_algorithms/map_matching.hpp:307-317 | the first and the last unbroken timestamp of the range |
| MapMatching.Follow | osrm-backend/routing_algorithms/map_matching.hpp:334-352 | following back pointers reaches the start of the segment; no broken timestamp and no standing pointer is ever met |
| MapMatching.Rebuild | osrm-backend/routing_algorithms/map_matching.hpp:303-376 | one sub-matching of at least two points, or none if the segment has one unbroken timestamp |
| MapMatching.RangesDisjoint | osrm-backend/routing_algorithms/map_matching.hpp:302-376 | any two sub-matchings use disjoint, increasing ranges of timestamps |
| MapMatching.AnswerIsGood | osrm-backend/routing_algorithms/map_matching.hpp:302-376 | sub-matchings are possible paths of at least two points in disjoint increasing ranges, each optimal if no transition along it gains late |
| MapMatching.RebuildAll | osrm-backend/routing_algorithms/map_matching.hpp:302-376 | one sub-matching for every segment with two unbroken timestamps, from its first to its last, in order, and no other |
| MapMatching.EmptyIff | osrm-backend/routing_algorithms/map_matching.hpp:302-376 | there is no sub-matching exactly when no segment has two unbroken timestamps |
| MapMatching.ChainSteps | osrm-backend/routing_algorithms/map_matching.hpp:158-202 | from one point to the next at most max_broken_time passes by the wrapping clock, or ten timestamps without one; only the first step after a restart is not checked |
| MapMatching.EndedUnbroken | osrm-backend/routing_algorithms/map_matching.hpp:177-187 | a segment that was split holds no breakage |
| MapMatching.Match | osrm-backend/routing_algorithms/map_matching.hpp:136-378 | the whole matching: no segment if no timestamp can start one, else the segments of the loop; nothing exactly when none of them has two unbroken timestamps, else good paths in disjoint ranges, whose consecutive points are within reach of each other by the clock or by number, but for the first step after a restart |
| MapMatching.MatchLosing | osrm-backend/routing_algorithms/map_matching.hpp:222-352 | for a trace of two timestamps, with gains 0 and 2 from candidates that score 1 and 0, the answer is the less probable path |
| KdTree.BoxIsLowerBound | osrm-backend/data_structures/static_kdtree.hpp:64-92 | the distance to a box is a lower bound for every point in it |
| KdTree.PlaneDistance | osrm-backend/data_structures/static_kdtree.hpp:64-76 | in two dimensions the distance is the square of the Euclidean one |
| KdTree.NthElement | osrm-backend/data_structures/static_kdtree.hpp:140-142 | the range is split at its middle and holds the same points |
| KdTree.BuiltShuffled | osrm-backend/data_structures/static_kdtree.hpp:132-145 | reordering a part that is still on the stack spoils no finished part |
| KdTree.BuiltSplit | osrm-backend/data_structures/static_kdtree.hpp:137-144 | a split part leaves exactly its halves to do |
| KdTree.StaticKDTree.Build | osrm-backend/data_structures/static_kdtree.hpp:130-145 | the array is a permutation of the points and a k-d tree throughout |
| KdTree.StaticKDTree.BoundPoints | osrm-backend/data_structures/static_kdtree.hpp:119-129 | the box holds all points |
| KdTree.StaticKDTree.constructor | osrm-backend/data_structures/static_kdtree.hpp:113-146 | the finished tree is valid and holds exactly the given points |
| KdTree.SearchStep | osrm-backend/data_structures/static_kdtree.hpp:157-209 | one turn skips, scans or halves the top range without losing a nearer point |
| KdTree.NearestNeighbor | osrm-backend/data_structures/static_kdtree.hpp:150-211 | finds a point of minimum distance if and only if some point lies below the initial bound |
| RTree.BoundSegments | osrm-backend/data_structures/static_rtree.hpp:489-509 | the least rectangle that holds all segments of a leaf |
| RTree.PackLeaves | osrm-backend/data_structures/static_rtree.hpp:183-214 | leaves of 1024 segments, the last one of at most that many, whose concatenation is the input; each has the least rectangle |
| RTree.AdoptStep | osrm-backend/data_structures/static_rtree.hpp:231-244 | entering a child keeps rectangles nested and the segments in order |
| RTree.LeastMerged | osrm-backend/data_structures/static_rtree.hpp:238-240 | merging least rectangles gives the least one over both lists |
| RTree.PackLevel | osrm-backend/data_structures/static_rtree.hpp:222-248 | a level of fewer parents over the same segments, all but the last with 64 children, and with least rectangles |
| RTree.PackTree | osrm-backend/data_structures/static_rtree.hpp:183-253 | the packed array ends in a root over all segments |
| RTree.SameBelow | osrm-backend/data_structures/static_rtree.hpp:255-272 | reversal and renumbering keep what lies under every node |
| RTree.NestedBelow | osrm-backend/data_structures/static_rtree.hpp:238-240 | everything under a node lies in its rectangle |
| RTree.BuildTree | osrm-backend/data_structures/static_rtree.hpp:181-272 | the root comes first and under it lies every element exactly once, in order; every rectangle is the least one around the segments below it; leaves are full and inner nodes have 1 to 64 children |
| RTreeQuery.ExploreLeafNode | osrm-backend/data_structures/static_rtree.hpp:432-454 | queues exactly the segments of the leaf, keyed by distance |
| RTreeQuery.MinDistIsClamped | osrm-backend/data_structures/rectangle.hpp:87-162 | all nine cases pick the point of the rectangle that is nearest in both coordinates |
| RTreeQuery.MinDistBoundsIff | osrm-backend/data_structures/rectangle.hpp:87-162 | the result bounds the distance of every point of every rectangle if and only if distances grow on the way to any point |
| RTreeQuery.MinDistBoundsSegments | osrm-backend/data_structures/rectangle.hpp:87-162 | if it bounds the points of the rectangles of the tree, it bounds the distances of the segments they hold, as the search requires |
| RTreeQuery.FormulaBoundsIff | osrm-backend/algorithms/coordinate_calculation.cpp:94-112 | with the formula of the source it bounds a given rectangle if and only if the longitudes include that of the location, or no point of the near edge is nearer than the one it picks |
| RTreeQuery.MinDistOverestimates | osrm-backend/algorithms/coordinate_calculation.cpp:94-112 | from 45 degrees north, for a rectangle 10 degrees to the east that reaches one degree to the north, it exceeds the distance of a point of the rectangle |
| RTreeQuery.ExploreTreeNode | osrm-backend/data_structures/static_rtree.hpp:456-469 | queues exactly the children, keyed by a lower bound of everything under them |
| RTreeQuery.KeyBounds | osrm-backend/data_structures/static_rtree.hpp:377-386 | nothing in the queue is nearer than its least key |
| RTreeQuery.Nearest | osrm-backend/data_structures/static_rtree.hpp:363-429 | segments are shown to the filter in order of distance, each as often as stored, until the termination test holds for everything left |
| GeospatialQuery.NearestSegments | osrm-backend/algorithms/geospatial_query.hpp:51-70 | the k closest accepted segments in order; fewer only if there are no more |
| GeospatialQuery.SegmentsInRange | osrm-backend/algorithms/geospatial_query.hpp:29-49 | exactly the accepted segments within the distance, in order |
| GeospatialQuery.AlternativeRun | osrm-backend/algorithms/geospatial_query.hpp:79-105 | the stateful filter is in one of four situations after any segments |
| GeospatialQuery.NearestWithAlternative | osrm-backend/algorithms/geospatial_query.hpp:72-115 | front is the nearest accepted segment and back the nearest accepted one of a big component if there is any |
| DouglasPeucker.FarthestIsFarthest | osrm-backend/algorithms/douglas_peucker.cpp:133-147 | a found point exceeds the threshold and none is farther; without one, none exceeds it |
| DouglasPeucker.KeepIsNear | osrm-backend/algorithms/douglas_peucker.cpp:120-163 | between consecutive kept points of a range every dropped point is within the threshold |
| DouglasPeucker.KeepIsNeeded | osrm-backend/algorithms/douglas_peucker.cpp:120-163 | every point kept in a range is the first of the farthest, beyond the threshold, between two other kept points |
| DouglasPeucker.ResultSimplified | osrm-backend/algorithms/douglas_peucker.cpp:89-164 | the result of a run is simplified for every set of preselected points |
| DouglasPeucker.ResultNeeded | osrm-backend/algorithms/douglas_peucker.cpp:89-164 | a run keeps nothing without need beside what was preselected |
| DouglasPeucker.SecondRun | osrm-backend/algorithms/douglas_peucker.cpp:89-164 | a run on a simplified line marks nothing new |
| DouglasPeucker.FindFarthest | osrm-backend/algorithms/douglas_peucker.cpp:133-147 | the sweep finds the reference farthest point |
| DouglasPeucker.CollectRanges | osrm-backend/algorithms/douglas_peucker.cpp:100-118 | the ranges on the stack stand for everything the run will add |
| DouglasPeucker.SplitRange | osrm-backend/algorithms/douglas_peucker.cpp:121-163 | one turn keeps flags plus pending points constant and the stack shrinks |
| DouglasPeucker.Run | osrm-backend/algorithms/douglas_peucker.cpp:89-164 | the flags end on exactly the points plain recursion keeps; ends and preselected points are kept; every dropped point is near, and every other kept point is the farthest one, beyond the threshold, between two kept points |
| RangeTables.RangeTable.Fill | osrm-backend/data_structures/range_table.hpp:106-137 | the main pass leaves exact offsets and blocks at every position |
| RangeTables.RangeTable.Pad | osrm-backend/data_structures/range_table.hpp:151-157 | the last block is completed with zeros |
| RangeTables.RangeTable.constructor | osrm-backend/data_structures/range_table.hpp:85-163 | offsets are prefix sums, blocks hold the lengths, the sentinel is in place |
| RangeTables.RangeTable.PrefixSumAtIndex | osrm-backend/data_structures/range_table.hpp:211-224 | the sum of the first entries of a block |
| RangeTables.BlockSums | osrm-backend/data_structures/range_table.hpp:174-193 | offset plus block entries is the plain prefix sum |
| RangeTables.RangeTable.GetRange | osrm-backend/data_structures/range_table.hpp:165-199 | the range is given by plain prefix sums, at block borders and at the sentinel too; the asserted bound holds if and only if some length from there on is positive |
| RangeTables.EmptyRange | osrm-backend/data_structures/range_table.hpp:165-199 | a table of one empty range breaks the asserted bound |
| Polyline.FoldRoundTrip | osrm-backend/algorithms/polyline_compressor.cpp:37-44 | a 32-bit difference survives sign folding if and only if it fits in 31 bits |
| Polyline.FoldMeaning | osrm-backend/algorithms/polyline_compressor.cpp:37-44 | non-negative differences become even numbers, negative ones odd numbers |
| Polyline.EncodeNumber | osrm-backend/algorithms/polyline_compressor.cpp:52-65 | by position: character i holds the i-th five bits, all but the last are marked, and there are as few as possible |
| Polyline.NumberRoundTrip | osrm-backend/algorithms/polyline_compressor.cpp:52-65 | reading a written number gives it back and stops right behind it |
| Polyline.DecodeNumber | osrm-backend/algorithms/polyline_compressor.cpp:100-107 | the loop reads the reference number, or reports that the string ends too early |
| Polyline.EncodeVector | osrm-backend/algorithms/polyline_compressor.cpp:33-50 | folds all numbers, then writes them |
| Polyline.DeltasAt | osrm-backend/algorithms/polyline_compressor.cpp:77-84 | by position: two numbers for each point, latitude before longitude, counted from the point before |
| Polyline.LocationsAt | osrm-backend/algorithms/polyline_compressor.cpp:77-84 | a necessary segment has its location in the place that the necessary ones before it leave to it, and there are no others |
| Polyline.Encode | osrm-backend/algorithms/polyline_compressor.cpp:67-90 | the differences of the necessary points, folded and written |
| Polyline.Decode | osrm-backend/algorithms/polyline_compressor.cpp:92-128 | the integer sums of the points in the string, or failure if it ends inside a point |
| Polyline.ReadBack | osrm-backend/algorithms/polyline_compressor.cpp:92-128 | decoding reads back every pair of written numbers |
| Polyline.RoundTrip | osrm-backend/algorithms/polyline_compressor.cpp:33-128 | decoding an encoded polyline returns its necessary points in order if and only if all differences fit in 31 signed bits |
| Polyline.RoundTripFailsHere | osrm-backend/algorithms/polyline_compressor.cpp:33-128 | as an input of the encoder, though no coordinate on the earth, a point 2^30 away does not come back |
| Polyline.EarthRoundTrip | osrm-backend/algorithms/polyline_compressor.cpp:33-128 | points on the earth always come back |

## Left out

- EvaluateNodePriority and UpdateNodeNeighbours: priorities are an arbitrary function per round, so all results hold for every evaluation; the simulated contraction would only add a second instance of ContractNode.
- NearTies.NeverStuckIff: runs that get stuck after the flush, under the new numbers, are covered by StuckIsUndecided in one direction only; computed priorities, which change from round to round, are not cached ones.
- Contractors.Contractor.Run: thresholds (core_factor) are arbitrary numbers; a round that chooses nobody, after which the source would loop for ever, ends the model with `stuck`; the count of original edges per shortcut is dropped.
- Threads of the contractor: loops over chosen nodes are sequential in Contractor; Interleaving covers every order of their writes, but the unsynchronised edge counter of the graph is not modelled.
- Overflow of int: weights are unbounded; results hold when contracted distances fit the 30-bit field of the query edge, and input weights of at least INT_MAX count as absent.
- EdgeMerging.SortEdges: stands for tbb::parallel_sort, of which callers see only a sorted permutation; in the same way neighbour lists are given as distinct collections instead of by std::sort and std::unique.
- DynamicGraphs.DynamicGraph.CopyToEnd: the growth factor 1.1 of the reserved capacity is not modelled, only that at least two more slots than edges exist.
- XORFastHashStorage and the timestamp wrap of the heap storage: the heap is modelled over ArrayStorage.
- ManyToMany.DistanceTable: query seeds of one location are distinct nodes; where offsets make the value of some route negative an entry is only shown to be a non-negative route, since the source skips negative sums; phantom nodes themselves are not modelled.
- TarjanScc.TarjanSCC.Run: on a freshly constructed object, for at most 2^32 - 1 nodes.
- Trip routes: BruteForceTrip, FarthestInsertion and the assembly of routes from components.
- GraphCompressor.Compress: assumes what the extractor delivers, a network without loops and parallel roads that is stored at both ends with positive distances, and restrictions whose legs are roads. Edge attributes other than distance, direction, name and travel mode are dropped.
- RoadWeights.StepWeighed: a hop next to a removed light carries the penalty at most once, in both directions alike; which of the two hops takes it depends on the order of removal and is stated only step by step, by CompressEdge and the two calls of a step.
- EdgeBasedNodes.InsertEdgeBasedNode: ids, names and travel modes of the segments are dropped; a direction has an id exactly if it is not reversed, as RenumberEdges leaves it.
- RenumberEdges, the edge weights of turns, turn penalties and turn instructions of the edge-based graph: numbering and scripted values only.
- HiddenMarkov.Relax: scores are exact reals with a value for minus infinity; path lengths and the suspicious flag are dropped, and the network distance behind a transition is an arbitrary function.
- MapMatching.Match: the bound on broken time is a parameter (the source derives it from the median sample time), and traces are shorter than 2^32.
- KdTree.NearestNeighbor: squared distances are exact integers where the source uses doubles; std::nth_element is represented by its contract.
- RTreeQuery.Nearest: distances are abstract, with the hypothesis that a rectangle's bound never exceeds the distance of a segment it holds, which MinDistBoundsSegments and FormulaBoundsIff reduce to its near edges; the priority queue is represented by its contract, and a leaf is a list instead of a disk block.
- RTree.BuildTree: the order of the input elements is arbitrary, so Hilbert codes are not modelled.
- GeospatialQuery: bearings are an arbitrary filter; construction of phantom nodes is left out.
- DouglasPeucker.Run: the distance of a point from a pair of borders is an arbitrary integer function.
- RangeTables.RangeTable.constructor: lengths of at most 255, as the source demands, and sums without 32-bit overflow; loading from shared memory is left out.
- Polyline.DecodeNumber: the number is unbounded where the source fills an int, whose shifts have no defined value after seven chunks; Encode never writes such a number.
- Polyline.Decode: numbers and sums are unbounded as in DecodeNumber; it stops at the integer sums, and the scaling by a double is left out.
- File, shared-memory and HTTP handling, Lua profiles, parsing of map data, JSON output and logging: input and output only.
