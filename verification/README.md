# Smart city traffic simulation: a Dafny model of the road graph

The program simulates traffic on a city map. Intersections are integer
ids. Roads are stored as pairs of directed edges, each edge carrying a
base travel time and a congestion multiplier. The model covers:

- the graph of `Graph.java`: intersections, adding and removing roads,
  loading a layout, random congestion refreshes, redistribution of heavy
  traffic, live edge weights and Dijkstra's shortest path;
- the non-visual logic of `MainGUI.java`: the add-road and edit-road
  commands with their input checks, the 5×10 starting grid, the
  total-travel-time report, and the emergency simulation. The emergency
  simulation relieves the route, slows the roads leaving it, records the
  original weights and puts them back afterwards.

Modules:

| file | module | contents |
|---|---|---|
| `roads.dfy` | `Roads` | edges, live weight (`(int)` truncation of base × factor), `roadExists`, `getLiveWeightBetween`, the graph invariants |
| `network.dfy` | `Network` | `addIntersection`, `addRoad`, `removeRoad`, `loadCityLayout` and their algebra |
| `congestion.dfy` | `Congestion` | `updateTrafficConditions`, `redistributeTraffic` |
| `pathfinder.dfy` | `PathFinder` | `findShortestPath`: lazy-deletion Dijkstra plus path reconstruction |
| `layout.dfy` | `Layout` | the grid `placeIntersectionsAndRoads` builds |
| `controls.dfy` | `Controls` | integer parsing, add-road, edit-road, total travel time |
| `emergency.dfy` | `Emergency` | the emergency perturbation, its snapshot, and the restore |

Invariants used throughout:

- `Closed`: every edge leads to a stored id.
- `Symmetric`: an edge a→b exists exactly when b→a does.
- `Simple`: at most one edge per ordered pair.
- `WellFormed`: all three of the above.
- `ValidWeights`: base weight at least 5 and factor at least 1, which are the only weights the program builds.
- `PositiveWeights`: every live weight is at least 1.

Randomness is a parameter:

- `Congestion.UpdateTrafficConditions` takes one draw in [0, 1) per edge.
- `Layout.InitialCity` takes one draw in 0..9 per grid connection.

## Model

| member | source | states |
|---|---|---|
| Roads.NewEdge | Graph.java:8-12 | a new edge keeps its destination and base weight and starts at the neutral factor 1.0 |
| Roads.UpdateCongestion | Graph.java:18-20 | only the factor changes; destination and base weight stay |
| Roads.Truncate | Graph.java:14-16 | the `(int)` cast rounds toward zero: the result is within 1 of the real value, on the side of zero |
| Roads.Weight | Graph.java:14-16 | for a non-negative base and factor, the live weight is the largest integer not above base × factor |
| Roads.LiveWeightAtLeastBase | Graph.java:14-16 | with a factor of at least 1, the live weight is never below the base weight |
| Roads.ValidWeightsArePositive | Graph.java:14-16 | when every base weight is at least 5 and every factor at least 1, every live weight is at least 1 |
| Roads.FindFirst | Graph.java:122-128 | gives the index of the first edge to the destination; absent exactly when no edge leads there |
| Roads.RoadExistsIff | Graph.java:60-63 | `roadExists` holds exactly when some edge in the list of src leads to the destination; an unknown id has no edges |
| Roads.LiveWeightOfEdge | Graph.java:122-128 | in a simple graph, the live weight between an id and an edge's destination is that edge's live weight |
| Roads.ZeroMeansNoRoad | Graph.java:122-128 | when live weights are positive, `getLiveWeightBetween` is 0 exactly when no road exists |
| Roads.SameLayoutPreservesWellFormed | Graph.java:18-20 | changing only weights and factors keeps the graph closed, symmetric and simple |
| Network.AddIntersection | Graph.java:47-49 | `putIfAbsent`: adds the id with an empty list when it is new; every existing list is kept |
| Network.AddIntersectionIdempotent | Graph.java:47-49 | registering an id twice is the same as once; an existing id changes nothing |
| Network.AddIntersectionPreservesWellFormed | Graph.java:47-49 | adding an intersection keeps the invariants |
| Network.AddIntersectionKeepsValid | Graph.java:47-49 | adding an intersection keeps the weights valid |
| Network.AddRoad | Graph.java:51-58 | the ids of the result are the old ids plus both endpoints |
| Network.AddRoadEdges | Graph.java:51-58 | every list is the old list followed by the new edges: none when src→dest is already stored, otherwise src→dest appended to src's list and dest→src to dest's |
| Network.AddRoadExisting | Graph.java:51-58 | adding a road whose forward edge is stored leaves the graph unchanged |
| Network.AddRoadStoresForward | Graph.java:51-58 | afterwards an edge src→dest is stored |
| Network.AddRoadConnects | Graph.java:51-58 | on a symmetric graph, afterwards both directions are stored |
| Network.AddRoadTwice | Graph.java:51-58 | a second add on the same ordered pair changes nothing, whatever its weight |
| Network.AddRoadReversedIsNoOp | Graph.java:51-63 | on a symmetric graph, adding the reversed pair afterwards changes nothing |
| Network.AddRoadKeepsRoads | Graph.java:51-58 | no stored edge is lost |
| Network.AddRoadOnlyConnects | Graph.java:51-58 | the only new roads are src→dest and dest→src |
| Network.AddRoadNewWeight | Graph.java:51-58 | on a simple symmetric graph, a new road between different ids reads back the given weight in both directions |
| Network.AddRoadPreservesWellFormed | Graph.java:51-58 | adding a road between different ids keeps the graph closed, symmetric and simple |
| Network.RemoveTo | Graph.java:42-43 | `removeIf` keeps exactly the edges that do not lead to the given id, and never lengthens the list |
| Network.RemoveRoad | Graph.java:41-45 | the ids are unchanged; other lists are unchanged; src's list loses exactly its edges to dest and dest's list its edges to src; neither direction remains |
| Network.RemoveRoadPreservesWellFormed | Graph.java:41-45 | removing a road keeps the invariants |
| Network.RemoveRoadClearsLiveWeight | Graph.java:41-45 | afterwards the live weight reads 0 in both directions |
| Network.RemoveToConcat | Graph.java:42-43 | `removeIf` filters piece by piece: removing from a concatenation is removing from each part, so the kept edges stay in order |
| Network.RemoveToFirst | Graph.java:42-43 | removing the edges to d leaves the first edge to any other destination unchanged |
| Network.RemoveRoadKeepsOthers | Graph.java:41-45 | every other ordered pair keeps its road and its live weight |
| Network.RemoveRoadKeepsValid | Graph.java:41-45 | removing a road keeps every base weight at least 5 and every factor at least 1 |
| Network.AddThenRemove | Graph.java:41-58 | on a symmetric graph, removing a road that was just added between two present ids, with no road before, restores the original graph |
| Network.AddIntersections | Graph.java:33-35 | every listed id is registered and every existing list is kept |
| Network.AddRoadsOnlyConnects | Graph.java:36-38 | every road the connections create joins the endpoints of one connection |
| Network.AddRoadsKeepsRoads | Graph.java:36-38 | adding connections never loses a road |
| Network.AddRoadsConnects | Graph.java:36-38 | on a symmetric graph, every connection without a self-loop ends up stored in both directions |
| Network.AddRoadsKeys | Graph.java:36-38 | the ids after adding connections are the old ids plus the connection endpoints |
| Network.LoadCityLayoutWellFormed | Graph.java:31-39 | a layout without self-loops loads into a well-formed graph that holds every connection in both directions |
| Network.LoadCityLayoutKeys | Graph.java:31-39 | the loaded ids are the listed ids plus the connection endpoints |
| Layout.GridPairsExact | MainGUI.java:296-304 | the listed pairs are exactly the right-hand and lower neighbours on the 5×10 grid |
| Layout.GridIdsRange | MainGUI.java:279-282 | the grid ids are exactly 1..50 |
| Layout.InitialCityIds | MainGUI.java:271-307 | the initial city holds exactly the ids 1..50 |
| Layout.InitialCityWellFormed | MainGUI.java:271-307 | the initial city is closed, symmetric and simple |
| Layout.InitialCityFresh | MainGUI.java:296-307 | every edge of the initial city has a base weight in 5..14 and factor 1.0 |
| Layout.InitialCityValid | MainGUI.java:271-307 | the initial city meets the shortest-path preconditions: one edge per ordered pair, valid weights, and live weights of at least 1 |
| Layout.LoadedRoads | Graph.java:31-39 | a road of a loaded layout without self-loops is exactly a pair some connection joins |
| Layout.InitialCityRoads | MainGUI.java:294-307 | the roads of the initial city join exactly the grid neighbours, in both directions |
| Congestion.UpdateTrafficConditions | Graph.java:65-73 | every edge gets factor 1.0 + 1.5·d from its own draw d, so the factor lies in [1, 2.5); the layout and base weights are unchanged |
| Congestion.UpdatePreservesInvariants | Graph.java:65-73 | a refresh keeps the graph well formed and the weights valid |
| Congestion.RedistributeTraffic | Graph.java:111-120 | an edge with live weight above 20 gets factor 1.0; every other edge is untouched |
| Congestion.RedistributePreservesInvariants | Graph.java:111-120 | redistribution keeps the graph well formed and the weights valid |
| Congestion.RedistributeBoundsLoad | Graph.java:111-120 | afterwards each edge carries at most 20 or runs at its base weight |
| Congestion.RedistributeIdempotent | Graph.java:111-120 | a second redistribution changes nothing |
| PathFinder.MinIndex | Graph.java:78-85 | the polled entry has the least cost in the queue |
| PathFinder.Relax | Graph.java:89-96 | relaxing the edges of u only adds or lowers labels; afterwards the destination of every edge of u is labelled at most c plus that edge's live weight; each changed label has u as predecessor and a matching queue entry; the queue only grows, by entries no cheaper than c; nothing changes when no edge improves a label |
| PathFinder.Search | Graph.java:75-97 | when the loop stops by taking `end`, its label is at most the cost of every walk to it; when the queue runs dry, `end` has no label and cannot be reached; every labelled id other than the start has a predecessor, joined to it by a stored edge, whose label plus that edge's live weight is its own label |
| PathFinder.Reconstruct | Graph.java:99-104 | following predecessors from `end` gives a walk along stored edges that visits no id twice, and whose cost is the difference of the labels at its two ends |
| PathFinder.FindShortestPath | Graph.java:75-105 | the result is empty exactly when `end` is unreachable; otherwise it is a walk from start to end of least total live weight, with no repeated id; start == end gives [start] |
| Controls.NatDigitsValue | MainGUI.java:586-588 | reading back the decimal digits written for a natural number gives that number |
| Controls.ParseIntToString | MainGUI.java:586-588 | `Integer.parseInt` of the decimal text of n gives back n for every 32-bit n, so the ids written into a snapshot key are read back unchanged |
| Controls.ParseIntSigned | MainGUI.java:164 | a `-` or `+` followed by a run of digits reads as minus or plus the digits' value when that fits in 32 bits, and as no number otherwise |
| Controls.ParseInt | MainGUI.java:164 | empty text, a sign alone, a leading character that is neither digit nor sign, or a later non-digit is not a number; a run of digits reads as its value when it fits in 32 bits; no value outside the 32-bit range is read |
| Controls.ReadTravelTime | MainGUI.java:160-168 | a cancelled dialog or a non-number is refused with its reason; otherwise the value is accepted exactly when it lies in 5..30 |
| Controls.SetBase | MainGUI.java:171-176 | only the base weight of edges from a to b changes, to w; the layout is unchanged |
| Controls.EditRoadEffect | MainGUI.java:154-192 | the same id twice, a cancelled dialog, a non-number or an out-of-range value changes nothing; otherwise both directions between the two ids get the new base weight and nothing else changes |
| Controls.EditRoadKeepsRoads | MainGUI.java:154-192 | an accepted edit keeps every road, and keeps a well-formed graph well formed |
| Controls.EditRoadKeepsValid | MainGUI.java:154-192 | an accepted edit keeps the weights valid |
| Controls.EditRoadLiveWeight | MainGUI.java:154-192 | on a simple graph, the live weight becomes the truncation of the new base weight times the edge's factor |
| Controls.EditRoadIdempotent | MainGUI.java:154-192 | entering the same value twice is the same as entering it once |
| Controls.AddRoadCommandChecks | MainGUI.java:113-150 | the checks run in order: same id, existing road in either direction, then the dialog; the graph changes exactly when all pass |
| Controls.AddRoadCommandAdds | MainGUI.java:129-137 | an accepted add stores both directions with the entered weight as their live weight and keeps the graph well formed |
| Controls.AddRoadCommandValid | MainGUI.java:129-137 | an accepted add keeps the weights valid |
| Controls.PathCostSnoc | MainGUI.java:475-488 | extending a route by one id adds the live weight of the last step |
| Controls.TravelTime | MainGUI.java:475-488 | the loop total is the sum of the live weights between consecutive ids |
| Controls.ShortestTravelTime | MainGUI.java:463-500 | with no route the report is empty with time 0; otherwise it is a route from s to e whose total is its cost, and no other walk costs less |
| Emergency.Record | MainGUI.java:517-519 | only the first weight recorded for a pair is kept |
| Emergency.LowerDirection | MainGUI.java:515-522 | ids, list lengths, destinations and factors are unchanged; the snapshot keeps its entries and gains at most the pair (a, b) |
| Emergency.LowerDirectionEdge | MainGUI.java:515-522 | every edge from a to b drops to max(5, w − 10); every other edge is untouched |
| Emergency.RelieveEffect | MainGUI.java:511-532 | on a route without repeats, exactly the edges joining consecutive ids, in either direction, are lowered, each once |
| Emergency.RelieveRecords | MainGUI.java:511-532 | the relief phase records only pairs of ids on the route |
| Emergency.Relieve | MainGUI.java:511-532 | the relief phase keeps the layout and every factor, and every earlier snapshot entry |
| Emergency.BumpEdges | MainGUI.java:536-545 | the list keeps its length, destinations and factors |
| Emergency.RecordDetours | MainGUI.java:536-545 | existing entries stay; new entries are pairs from the node to ids off the route |
| Emergency.BumpNode | MainGUI.java:536-545 | the detour at one id keeps the layout and every factor, and every earlier snapshot entry |
| Emergency.Detours | MainGUI.java:535-546 | the detour phase keeps the layout and every factor, and every earlier snapshot entry |
| Emergency.DetoursEffect | MainGUI.java:535-546 | exactly the edges from a route id to an id off the route, whose pair was not yet recorded, gain 5 |
| Emergency.Perturb | MainGUI.java:506-546 | the perturbation keeps every id, list length and destination, and every congestion factor |
| Emergency.PerturbEffect | MainGUI.java:506-546 | on a route without repeats, each edge ends up lowered if it joins consecutive route ids, plus 5 if it leaves the route, and unchanged otherwise |
| Emergency.PerturbKeepsValidWeights | MainGUI.java:520-542 | no base weight drops below 5, so valid weights stay valid |
| Emergency.Restore | MainGUI.java:585-596 | each edge whose pair is recorded gets the recorded base weight; every other edge is untouched |
| Emergency.RestoreTracked | MainGUI.java:585-596 | when a graph differs from the original only in recorded base weights, restoring gives the original back |
| Emergency.PerturbRestores | MainGUI.java:506-596 | restoring the snapshot undoes the whole perturbation |
| Emergency.RestoreKeepsValid | MainGUI.java:580-596 | the restore after an emergency keeps valid weights when the graph in between had valid weights and only its factors changed |
| Emergency.RestoreAfterRefresh | MainGUI.java:580-596 | if only factors change while the ambulance drives, restoring brings back every original base weight and keeps the factors of that moment |
| Emergency.SimulateEmergency | MainGUI.java:502-546 | with no route nothing changes; otherwise the route is a walk from s to e with no repeated id that no other walk undercuts; layout and factors are kept, base weights change as PerturbEffect states, valid weights stay valid, and restoring the snapshot gives back the original graph |

## Left out

- The JavaFX interface is not modelled: drawing, colours, positions, the ambulance animation, timers and free-click placement. Intersection positions only supply the ids.
- `System.out.println` logging is left out.
- `Random` is replaced by explicit draw parameters: one real in [0, 1) per edge for `updateTrafficConditions`, and one integer in 0..9 per grid connection.
- Java `double` arithmetic is modelled with exact reals. Rounding of `baseWeight * congestionFactor` before the `(int)` cast is not modelled. Roads.Truncate also leaves out the cast's other cases from section 5.1.3 of the Java Language Specification: a value beyond the 32-bit range clamps to `Integer.MIN_VALUE` or `Integer.MAX_VALUE`, and NaN becomes 0. A live weight never gets near 2^31, and base weights and factors are finite.
- `HashMap` and `HashSet` iteration orders are not modelled:
  - The ids of a layout are a sequence.
  - The detour phase visits route ids in route order. Each id touches only its own list and its own snapshot keys, so the order does not change the result.
  - Restore applies every snapshot entry at once. Entries have distinct keys, so the order does not matter.
- `PriorityQueue` tie-breaking is not modelled: `PathFinder.MinIndex` picks the first entry of least cost. The proved properties hold for any choice among equal costs, but the exact path returned among equally short ones may differ.
- PathFinder.Search: once `end` is taken, the loop stops without removing the entry from the queue. The program polls it first, but the queue is never read again.
- PathFinder.FindShortestPath and Controls.ShortestTravelTime require every live weight to be at least 1 and at most one edge per ordered pair; Emergency.SimulateEmergency also requires `Closed` (every edge leads to a stored id). `Closed` is kept by AddIntersectionPreservesWellFormed, AddRoadPreservesWellFormed and RemoveRoadPreservesWellFormed, holds for the initial city by InitialCityWellFormed, and survives weight changes by SameLayoutPreservesWellFormed. The program's graphs meet both requirements: Layout.InitialCityValid covers the start; AddRoadPreservesSimple, RemoveRoadPreservesSimple, AddRoadValid, RemoveRoadKeepsValid, AddIntersectionKeepsValid, EditRoadKeepsRoads, EditRoadKeepsValid, UpdatePreservesInvariants, RedistributePreservesInvariants, PerturbKeepsValidWeights and RestoreKeepsValid cover every later change; and ValidWeightsArePositive turns valid weights into live weights of at least 1. The program's search still finds shortest paths when some live weights are 0, because it relaxes only on a strict improvement. The model does not prove that case: `Reconstruct` terminates because labels strictly decrease along predecessors, which needs positive weights.
- Controls.TravelTime and PathFinder.Search: sums are unbounded integers. The 32-bit overflow of `totalTime` and of the search's `newDist` is not modelled. Place mode registers a new id on every click, so the number of ids has no fixed bound. As long as emergencies do not overlap, a live weight stays below 100 (base at most 35, factor below 2.5), so overflow needs a route of more than 20 million roads; overlapping emergencies lift that bound (see the Emergency.SimulateEmergency line below).
- Controls.ParseInt accepts an optional `+` or `-` and ASCII digits. `Integer.parseInt` also accepts other Unicode decimal digits, which are not modelled.
- The add-road guard asks the GUI's map of drawn roads whether a road exists. The model asks the graph instead (`RoadExists` in either direction). The two checks agree because the GUI's road map and the graph hold the same roads, in both directions: every road is drawn when it is added to the graph, and the graph stores both directions of it.
- Emergency snapshot keys are the strings `from + "-" + to`, split on `-` when restored. The model keys the snapshot by the pair `(from, to)` directly. Splitting such a string breaks for negative ids; the program only ever creates positive ids.
- Calls that would throw `NullPointerException` are not modelled as errors. They become preconditions instead: `removeRoad`, or an edit, on an id that is not present. Emergency.SimulateEmergency requires the start to be an intersection when start and end coincide.
- The restore runs when the animation finishes. The model returns the snapshot and proves that `Restore` undoes the perturbation. Timer ticks in between are not interleaved. Emergency.RestoreAfterRefresh covers any graph that differs from the perturbed one only in factors.
- Emergency.SimulateEmergency: the input dialogs say travel times lie in 5..30, but the code adds 5 to every road leaving the route without a cap. A base weight of 30 can therefore reach 35 while an emergency runs. The model follows the code, so `ValidWeights` only promises a lower bound of 5.
- Emergency.SimulateEmergency: a second emergency, or an add, edit or remove of a road, started before the previous emergency's restore is not modelled. The emergency button stays enabled during the animation and the restore runs only when the animation ends, so overlapping emergencies stack: each lowers or raises base weights again, and the restores, run in start order, can leave a base weight raised for good or the two directions of a road with different base weights. Likewise a restore writes recorded weights back over an edit made in between. The model proves the restore exact only when nothing but congestion factors changes in between (Emergency.RestoreAfterRefresh).
