# Campus navigation: registry and shortest routes

This project models the core of a console campus-navigation assistant. The
assistant keeps a registry of campus buildings. Each building is filed under
its normalised name (trimmed, lower-cased) and owns a map from its neighbours
to walking distances. The user can add, remove, connect and disconnect
buildings, list them, list the connections, and ask for the shortest route
between two buildings. The route is found with Dijkstra's algorithm over a
priority queue, then read back along the recorded predecessors.

The model has five modules:

- `Names` (names.dfy): the registry key of a name, `Normalize(name) = ToLower(Trim(name))`, and what it
  guarantees. Keys have no surrounding blanks and no upper-case letters. Normalising twice changes
  nothing. Blanks around a name, or the case of its letters, never change its key.
- `Graphs` (graphs.dfy): the campus as a value `map<K, map<K, int>>` and the four edits the registry
  makes to it. It states the registry invariant (every edge is listed by both ends with one
  distance) and shows that each edit preserves it. It also relates the edits to each other and
  holds the theory of routes: walks, weights, fixpoints of the relaxation, and shortest routes.
- `Campus` (campus.dfy): the classes `Building` and `CampusMap`, whose methods update the neighbour
  maps and the registry in place. Every edit is proved to perform the matching value-level edit
  on `Adjacency()`, the adjacency read off the heap, and to keep `Valid()`.
- `Router` (router.dfy): `findShortestRoute` as imperative code. The priority queue is a multiset
  from which any element may be taken next, so the proofs cover every order the queue could produce
  (a Java `PriorityQueue` whose keys change after insertion gives no reliable order). The search is
  proved to terminate with non-negative distances. It reaches a fixpoint of the relaxation, and the
  walk back along the predecessors spells a shortest route. The answer is "no path" exactly when the
  destination cannot be reached.
- `Sample` (sample.dfy): the five-building campus built at start-up, and the proof that the route
  it gives from the Library to the Auditorium is Library, Cafeteria, Auditorium.

## Model

| member | source | states |
|---|---|---|
| `Names.LowerChar` | Main.java:9 | lower-casing leaves no upper-case letter, keeps blanks blank and leaves every other character alone |
| `Names.ToLower` | Main.java:9 | the result has the input's length and is lower-cased character by character |
| `Names.SkipLeading` | Main.java:9 | trim's forward scan stops at the first non-blank character, or at the end |
| `Names.SkipTrailing` | Main.java:9 | trim's backward scan stops after the last non-blank character and never passes the start |
| `Names.Trim` | Main.java:9 | trim's result is no longer than its input and neither starts nor ends with a blank |
| `Names.Normalize` | Main.java:9 | a key has no blank at either end and is no longer than the name it came from |
| `Names.TrimSplit` | Main.java:9 | trim returns the core of any split into blanks, a core without a blank at either end, and blanks |
| `Names.TrimParts` | Main.java:9 | every name splits into the blanks trim drops, the core it keeps, and blanks |
| `Names.NormalizeLowerCase` | Main.java:9 | a key has no upper-case letter |
| `Names.NormalizeIdempotent` | Main.java:9 | normalising a key again gives the same key |
| `Names.TrimIgnoresPadding` | Main.java:9 | blanks added around a name do not change what trim keeps |
| `Names.NormalizeIgnoresPadding` | Main.java:9 | blanks added around a name do not change its key |
| `Names.TrimCommutesWithLower` | Main.java:9 | trimming and lower-casing can be done in either order |
| `Names.NormalizeIgnoresCase` | Main.java:9 | names that differ only in letter case share one key |
| `Graphs.AddNode` | Main.java:14 | the new key is registered with no neighbours and every other entry is unchanged |
| `Graphs.RemoveNode` | Main.java:22-23 | the key leaves the registry and every neighbour map; every other edge keeps its distance |
| `Graphs.Connect` | Main.java:30-31 | both directions get the distance, replacing an earlier one; every other edge is unchanged and none appears |
| `Graphs.Disconnect` | Main.java:40-41 | neither direction remains; every other edge is unchanged and none appears |
| `Graphs.AddNodeKeepsConsistent` | Main.java:11-16 | adding a building keeps every edge listed by both ends with one distance |
| `Graphs.RemoveNodeKeepsConsistent` | Main.java:18-25 | removing a building keeps the registry invariant |
| `Graphs.ConnectKeepsConsistent` | Main.java:27-34 | connecting keeps the registry invariant |
| `Graphs.DisconnectKeepsConsistent` | Main.java:36-43 | disconnecting keeps the registry invariant |
| `Graphs.RemoveNodeUndoesAddNode` | Main.java:11-25 | removing a building just added gives back the campus before it was added |
| `Graphs.ReconnectOverwrites` | Main.java:96 | connecting a pair twice is connecting it once with the second distance |
| `Graphs.DisconnectIdempotent` | Main.java:40-41 | disconnecting twice is disconnecting once |
| `Graphs.DisconnectUndoesConnect` | Main.java:27-43 | disconnecting a pair that was just connected, without an edge before, restores the campus |
| `Graphs.WeightPrepend` | Main.java:117 | a route's weight is its first edge plus the weight of the rest |
| `Graphs.WalkPrepend` | Main.java:129 | an edge into the start of a route extends the route |
| `Graphs.FixpointBoundsPaths` | Main.java:114-124 | at a fixpoint of the relaxation, every key on a route from the start has a distance no larger than the route's weight |
| `Graphs.ReachableHasDistance` | Main.java:128 | at such a fixpoint every reachable building has a distance |
| `Graphs.BoundedRouteIsShortest` | Main.java:126-130 | a route no heavier than the fixpoint distance is a shortest route |
| `Graphs.OptimalPathIsTight` | Main.java:114-124 | a route that meets the fixpoint distance uses only edges that meet it exactly |
| `Campus.Building.constructor` | Main.java:95 | a new building keeps its name and coordinates, has no neighbours, and is keyed by its normalised name |
| `Campus.Building.AddNeighbor` | Main.java:96 | records or replaces the distance to the neighbour, nothing else |
| `Campus.Building.RemoveNeighbor` | Main.java:40-41 | forgets the neighbour, nothing else |
| `Campus.LabelsOf` | Main.java:97 | every registered key is labelled with its building's display name |
| `Campus.LabelsOfFile` | Main.java:14 | filing a building under a new key adds exactly its label |
| `Campus.NamedFile` | Main.java:12-14 | filing under a new key keeps every key the normalised name of its building exactly when the new key is |
| `Campus.CampusMap.constructor` | Main.java:7 | the registry starts empty and valid |
| `Campus.CampusMap.AddBuilding` | Main.java:11-16 | a taken key changes nothing; otherwise a fresh building with the given name and coordinates is filed under the key, the adjacency gains an isolated key, and validity is kept |
| `Campus.CampusMap.RemoveBuilding` | Main.java:18-25 | an unknown name changes nothing; otherwise every building forgets the removed one, its key leaves the registry, the adjacency loses the key, and validity is kept |
| `Campus.CampusMap.ForgetEverywhere` | Main.java:22 | every registered building forgets the given building as a neighbour, and keeps every other neighbour |
| `Campus.CampusMap.ConnectBuildings` | Main.java:27-34 | with both names registered the adjacency gets the edge in both directions; otherwise nothing changes; validity is kept |
| `Campus.CampusMap.DisconnectBuildings` | Main.java:36-43 | with both names registered both directions are gone; otherwise nothing changes; validity is kept |
| `Campus.CampusMap.GetBuilding` | Main.java:45 | a building is returned exactly when the normalised name is registered, and it is the one filed there |
| `Campus.CampusMap.GetAllBuildings` | Main.java:47-51 | exactly the display names of the registered buildings, each of which finds its own building |
| `Campus.CampusMap.ShowAllConnections` | Main.java:55-89 | every edge is listed once, in one direction, with both display names and its distance, and no line is repeated or reversed |
| `Campus.LookupIgnoresPadding` | Main.java:45 | a lookup ignores blanks around the name |
| `Campus.LookupIgnoresCase` | Main.java:45 | a lookup ignores letter case |
| `Campus.ListedAsWritten` | Main.java:71-88 | the listing as written keeps at most one line per entry, each from the entries; a listed line's string and its reverse were not recorded before; no two listed lines share a string, or one's reverse the other's string; every entry not listed had its string or its reverse recorded |
| `Campus.NameKeysCollide` | Main.java:73-76 | with buildings "a-b", "c", "a" and "b-c", the listing as written prints one line for two edges; in the iteration order the lemma fixes, the edge a -- b-c is dropped |
| `Router.ProgressDecreases` | Main.java:114-124 | each round of the outer loop lowers the measure (unreached keys, sum of distances, queue size) |
| `Router.LowerMakesProgress` | Main.java:118-121 | lowering a distance and queueing the key is progress |
| `Router.LowerKeepsTree` | Main.java:118-120 | a lowered distance with its new predecessor keeps the distance and predecessor records consistent |
| `Router.LowerKeepsSettled` | Main.java:118-121 | a lowered key that is queued again leaves every settled key settled |
| `Router.RelaxedStep` | Main.java:117-121 | handling one edge, lowering or not, leaves that edge relaxed |
| `Router.SettleLast` | Main.java:116-123 | once all its edges are relaxed, the key taken from the queue is settled |
| `Router.Dequeue` | Main.java:115 | the key taken from the queue has a distance, and the queue is unchanged as a multiset |
| `Router.SettledIsFixpoint` | Main.java:114 | an empty queue means no edge can improve any distance |
| `Router.RelaxEdge` | Main.java:117-121 | one relaxation keeps the records, the queue and the settled keys consistent, relaxes the edge and makes progress |
| `Router.Relax` | Main.java:116-123 | relaxing every edge out of the taken key settles it and makes progress |
| `Router.Search` | Main.java:111-124 | the loop ends with consistent distance and predecessor records whose distances are a fixpoint |
| `Router.StepBack` | Main.java:129 | one step back along the predecessors extends the route and lowers the distance or reaches an older update |
| `Router.Rebuild` | Main.java:126-130 | the walk back ends at the start; the names spell a route from the start to the end no heavier than its distance, that never visits a key twice, and that is just the start when the end is the start |
| `Router.AscendingPrepend` | Main.java:129 | a key earlier than the head of an ascending walk back extends it |
| `Router.AscendingDistinct` | Main.java:126-130 | a walk back ordered by distance and update time never repeats a key |
| `Router.RouteBetween` | Main.java:111-130 | "no path" exactly when the end is unreachable; otherwise the names along a shortest route that never repeats a building; from a building to itself the answer is that one building |
| `Router.FindShortestRoute` | Main.java:103-131 | an unknown name is reported; otherwise "no path" exactly when the end is unreachable, else the display names along a shortest route that never repeats a building; when both names give the same key the answer is that one building's name |
| `Sample.SampleKeys` | Main.java:165-169 | the five sample names normalise to their lower-case spellings |
| `Sample.InitializeSampleMap` | Main.java:163-176 | the start-up campus is valid, with the five buildings and the five connections |
| `Sample.AddSample` | Main.java:165-169 | one addBuilding of a new name adds an isolated key and its label |
| `Sample.AddSampleBuildings` | Main.java:165-169 | the five additions give five isolated keys with their labels |
| `Sample.AddLibraryAndCafeteria` | Main.java:165-166 | adding the Library and the Cafeteria to the empty registry gives two isolated keys |
| `Sample.AddLabAndAuditorium` | Main.java:167-168 | adding the Lab and the Auditorium gives four isolated keys |
| `Sample.AddAdmin` | Main.java:169 | adding the Admin completes the five keys |
| `Sample.ConnectSampleBuildings` | Main.java:170-174 | the five connections give the sample adjacency |
| `Sample.ConnectLibraryCafeteria` | Main.java:170 | the first connection's effect |
| `Sample.ConnectLibraryLab` | Main.java:171 | the second connection's effect |
| `Sample.ConnectCafeteriaAuditorium` | Main.java:172 | the third connection's effect |
| `Sample.ConnectLabAuditorium` | Main.java:173 | the fourth connection's effect |
| `Sample.ConnectAdminLibrary` | Main.java:174 | the fifth connection gives the sample adjacency |
| `Sample.SampleDistancesAreFixpoint` | Main.java:114-124 | the distances 0, 5, 10, 20, 25 from the Library are a fixpoint on the sample |
| `Sample.SampleTightEdges` | Main.java:114-124 | the edges that meet those distances exactly leave the Library or run Cafeteria to Auditorium, and none enters the Library |
| `Sample.SampleBestRoute` | Main.java:170-172 | Library, Cafeteria, Auditorium is a route of weight 20 |
| `Sample.TightSampleRoute` | Main.java:126-130 | a Library-to-Auditorium route of tight edges is Library, Cafeteria, Auditorium |
| `Sample.OnlyShortestSampleRoute` | Main.java:126-130 | the one shortest Library-to-Auditorium route is Library, Cafeteria, Auditorium, of weight 20 |
| `Sample.SampleAnswer` | Main.java:103-131 | what the finder promises about the sample leaves it one answer |
| `Sample.SampleRoute` | Main.java:163-182 | on the start-up campus the route from "Library" to "Auditorium" is Library, Cafeteria, Auditorium |

## Left out

- The console menu, its `Scanner` input and `Integer.parseInt` (Main.java:135-161, 178-209) are not modelled: they are I/O around the core.
- `displayMiniMap` (Main.java:211-223), the ANSI colour codes and the `Random` colour choice in `showAllConnections` are presentation only.
- Console messages are not printed. Each edit returns a `Status` naming the message it prints. `showAllConnections` returns its lines as a sequence of `Connection` values.
- The coordinates x and y are stored and never read by the core. Only the `Building` constructor and `AddBuilding` state them, as the values the new building keeps.
- `getAllBuildingObjects` (Main.java:53) is not a separate member. The search reads the registry's adjacency directly as the value `Adjacency()`.
- The finder's `IllegalArgumentException` (Main.java:109) is the result `UnknownBuilding`. The single-element list `["No path found."]` (Main.java:128) is the result `NoPathFound`, so it cannot be confused with a building that happens to be named "No path found.".
- `Integer.MAX_VALUE` as "not reached yet" (Main.java:111) is modelled as a key absent from the distance map. The 32-bit overflow of `distances.get(current) + distance` with very large distances is not modelled: distances are unbounded integers.
- Router.FindShortestRoute: requires non-negative distances. With a negative distance the Java loop may not terminate, or may stop with a route that is not shortest, and the model does not describe that behaviour.
- The `PriorityQueue` ordering and `HashMap` iteration order are not modelled. Every loop takes any pending element, so the proofs hold for every order.
- Java neighbour maps are keyed by `Building` object identity. The model keys them by the neighbour's registry key; `Valid()` keeps key and object in one-to-one correspondence.
- `trim()` is modelled exactly (characters up to U+0020). `toLowerCase()` is modelled on the ASCII letters A-Z only; locale-dependent and non-ASCII case mappings are left out.
- Campus.CampusMap.GetAllBuildings: the promise that each listed name finds its own building is stated under `Named(buildings)`, which says every key is the normalised name of its building. The constructor starts with it, `AddBuilding` and `RemoveBuilding` keep it, and the connection edits do not touch the registry map. It is kept apart from `Valid()` so that the proofs that do not need it stay small.
- The start-up campus is built in five addition steps spread over three small methods. Each method performs the same `addBuilding` calls in the source's order. The split keeps each proof small.

## Findings

| source | as written | input that shows it | evidently intended | confidence | as-written member | corrected member |
|---|---|---|---|---|---|---|
| Main.java:73-76 | a connection is skipped when the string `from + "-" + to`, or its reverse, was recorded before | buildings "a-b", "c", "a", "b-c" with edges a-b -- c and a -- b-c: both give the string "a-b-c", so one of the two edges is never listed; which one depends on the iteration order, and `NameKeysCollide` fixes one order | each undirected connection is listed exactly once | not executed | `Campus.NameKeysCollide` | `Campus.CampusMap.ShowAllConnections` |
