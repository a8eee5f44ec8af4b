# BMSCE campus path finder — verified model of the routing core

The BMSCE Campus Path Finder answers one question: what is the shortest route
between two named locations on the campus, and which turn instructions
("Take right", "Go straight", ...) does it imply? The campus is a directed
graph. Each location name maps to an ordered list of `(target, instruction)`
edges. A query goes through four steps:

1. **Validation.** The query is refused when an endpoint is empty or is not a
   location of the graph.
2. **Search.** A uniform-cost search with unit edge weights, which is
   breadth-first search run through a heap. Heap entries are
   `(cost, location, path-so-far)`. A location that was already visited is
   skipped when popped. The first popped entry for the destination is the
   answer. An empty heap means there is no route.
3. **Directions.** For each hop of the route, take the instruction of the
   first edge from the hop's source that leads to its target.
4. **Formatting.** One line `A -> instruction -> B` per hop, then a last line
   naming the destination, joined with newlines.

This project models those four steps in Dafny and proves what they promise.

Modules, one per component:

- `CampusGraph` (graph.dfy): the graph store. It defines locations, the
  graph, neighbour lookup and walks. `Neighbors` is `graph.get(u, [])`:
  a location that is not a key has no edges. Edge targets need not be keys
  (the campus data has the target `"LAW"`).
- `PathSearch` (search.dfy): the search loop, as an imperative `while`
  loop. The heap is a `seq<Entry>` and the visited set is a `set`. A pop
  removes any least-cost entry, chosen with `:|`, so ties are left open.
  A ghost map `dist` records the cost at which each location was visited.
  The loop invariant `SearchInv` has two halves:
  - every edge leaving a visited location reaches a visited location, or
    has a queued entry at most one hop past its source's cost (`Closed`);
  - each visited location's cost is a lower bound on every walk from the
    start to it (`Settled`).

  Together they give minimality, and completeness once the heap is empty.
  Termination uses the finite set of keys, edge targets and the start, minus
  the visited set, then the heap length.
- `Directions` (directions.dfy): the reconstruction loop, proved against the
  function `DirectionsOf`.
- `Display` (display.dfy): the formatting loop, plus a newline join/split pair
  that states the line structure of the output.
- `RouteQuery` (query.dfy): the "Find Path" action without its widgets:
  validate, search, reconstruct.
- `CampusRoutes` (campus.dfy): the shipped campus graph. It proves that
  Entrance → Administrative Block yields
  `[Entrance, Trust Office, Administrative Block]` with directions
  `["Take right", "Go straight"]`.

Three behaviours of the code that a reader might not expect, all modelled as
the code has them:

- The heap does not break cost ties by insertion order. `heapq` compares
  whole tuples, so ties go by location name, then by path. The model leaves
  the choice among least-cost entries open. Every property holds for any
  choice.
- Reconstruction has no failure result. When no edge of `path[i]` leads to
  `path[i+1]`, the source appends nothing and carries on. `DirectionsOf`
  models that. `DirectionsCountHops` shows this drops a hop exactly when the
  path is not a walk, and `DirectionsAlongWalk` shows it never happens for a
  path the search returns.
- The endpoint check is not part of the search function. It sits in the
  button handler, before the search. `find_shortest_path` accepts any names,
  so `FindShortestPath` has no precondition.

## Model

| member | source | states |
|---|---|---|
| `CampusGraph.Neighbors` | bmse_path_finder.py:62 | The edges of a location are its own configured list when it is a key of the graph, and no edges at all otherwise (`graph.get(current, [])`). |
| `PathSearch.FindShortestPath` | bmse_path_finder.py:34-65 | A returned path is a walk from start to end. No walk from start to end is shorter. No location repeats. No path is returned exactly when end cannot be reached from start. From a location to itself the result is `[start]`. |
| `PathSearch.PushNeighbors` | bmse_path_finder.py:62-63 | One entry per outgoing edge, in edge order, each at cost+1 with the extended path. Earlier heap entries are unchanged. |
| `PathSearch.MinExists` | bmse_path_finder.py:49-50 | A non-empty heap always has a least-cost entry to pop. |
| `PathSearch.PopIsMinimal` | bmse_path_finder.py:50-58 | A least-cost entry popped for an unvisited location has a cost no greater than the hop count of any walk from the start to that location. |
| `PathSearch.SkipPreserves` | bmse_path_finder.py:52-53 | Discarding a popped entry for a visited location keeps the search invariant. |
| `PathSearch.VisitPreserves` | bmse_path_finder.py:55-63 | Marking the popped location visited and pushing its neighbours keeps the search invariant. The set of unvisited candidate locations shrinks. |
| `PathSearch.FoundIsShortest` | bmse_path_finder.py:55-58 | The path returned on popping the end is a shortest walk with no repeated location. It is `[start]` when start equals end. |
| `PathSearch.ExhaustedUnreachable` | bmse_path_finder.py:49-65 | When the heap runs dry, no walk leads from start to end, so returning `None` is correct. |
| `Directions.FirstInstruction` | bmse_path_finder.py:143-146 | There is no result exactly when no edge leads to the target. Otherwise the result is the instruction of the first edge in list order that does. |
| `Directions.FirstInstructionAt` | bmse_path_finder.py:143-146 | When edge i is the first edge to the target, the scan yields that edge's instruction. |
| `Directions.InstructionIffEdge` | bmse_path_finder.py:143-145 | A location has an instruction towards `v` exactly when one of its edges leads to `v`. |
| `Directions.WalkKeysAlong` | bmse_path_finder.py:143 | On a walk, every hop's source is a key, so the lookup `campus_graph[path[i]]` cannot fail. |
| `Directions.DirectionsOf` | bmse_path_finder.py:141-146 | Reference definition of the directions: hop by hop, the first matching edge's instruction, or nothing when no edge matches. Each hop contributes at most one instruction, so there are at most `len(path)-1`. |
| `Directions.DirectionsAlongWalk` | bmse_path_finder.py:141-146 | For a walk, there are exactly `len(path)-1` instructions. Entry i is the first matching edge's instruction for hop i. |
| `Directions.DirectionsCountHops` | bmse_path_finder.py:141-146 | There are never more than `len(path)-1` instructions. There are exactly that many if and only if every hop is an edge. |
| `Directions.ReconstructDirections` | bmse_path_finder.py:141-146 | The nested loop with `break` computes `DirectionsOf`, hop by hop, taking the first matching edge. |
| `Display.FormatSteps` | bmse_path_finder.py:78-81 | Exactly `len(path)` steps. Step i is `path[i] + " -> " + directions[i] + " -> " + path[i+1]`. The last step is `path[-1]`. |
| `Display.JoinLines` | bmse_path_finder.py:82 | `"\n".join(steps)`: the text starts with the first line and ends with the last. Its length is the lines' total length plus one separator between each consecutive pair. |
| `Display.SplitJoinLines` | bmse_path_finder.py:82 | Splitting the newline-joined text at newlines gives back the lines, provided no line contains a newline. |
| `Display.DisplayPathAndDirections` | bmse_path_finder.py:67-82 | When no location name and no printed instruction contains a newline, the text reads back as exactly `len(path)` lines: one `A -> instr -> B` line per hop, then the destination. |
| `RouteQuery.Validate` | bmse_path_finder.py:130-136 | "Missing endpoint" exactly when start or end is empty. "Unknown location" exactly when both are non-empty and one is not a key. Accepted exactly when both are non-empty keys. |
| `RouteQuery.FindPath` | bmse_path_finder.py:130-149 | A query is rejected before any search exactly when validation fails, and with the same reason. "No path" exactly when the endpoints are valid and end is unreachable. A route is a shortest walk with no repeats, with one direction per hop, each from the first matching edge. A location to itself gives `[start]` and no directions. |
| `CampusRoutes.EntranceTargets` | bmse_path_finder.py:17 | The Entrance's edges lead only to the Trust Office, the Sports complex and the B S Narayan Platinum Jubilee Block. |
| `CampusRoutes.AdministrativeBlockEntries` | bmse_path_finder.py:17-24 | None of the Entrance, the Sports complex and the B S Narayan Platinum Jubilee Block has an edge into the Administrative Block. |
| `CampusRoutes.EntranceToAdministrativeBlockIsUnique` | bmse_path_finder.py:16-32 | The only walk of at most two hops from the Entrance to the Administrative Block goes through the Trust Office. |
| `CampusRoutes.AdministrativeBlockReachable` | bmse_path_finder.py:17-18 | Entrance → Trust Office → Administrative Block is a walk of the campus graph. |
| `CampusRoutes.AdministrativeBlockInstructions` | bmse_path_finder.py:17-18 | The directions along that route are `["Take right", "Go straight"]`. |
| `CampusRoutes.EntranceToAdministrativeBlock` | bmse_path_finder.py:138-146 | Querying Entrance → Administrative Block on the campus graph yields that route with directions `["Take right", "Go straight"]`, whichever least-cost entry the heap pops. |

## Left out

- The Tk interface is not modelled: the window, canvas, heading, option menus, buttons, popup, message boxes, result label, `clear_fields` and `main`. It is presentation only.
- Background image loading and resizing is not modelled. It is file I/O and image resampling in a foreign library.
- Reading the endpoints from the option menus, including `.strip()`, is not modelled. `FindPath` takes the endpoints as given strings.
- The "Path found:" prefix and the popup that show the formatted text are not modelled.
- The heap's array layout and its exact tie-breaking among equal-cost entries are not modelled. A pop may return any least-cost entry.
- `ReconstructDirections` requires every hop's source to be a key of the graph. The source indexes `campus_graph[path[i]]` and would raise `KeyError` otherwise. Paths from the search always meet this (`WalkKeysAlong`).
- `FormatSteps` and `DisplayPathAndDirections` require a non-empty path and at least one instruction per hop. The source would raise `IndexError` otherwise.
- `DisplayPathAndDirections` states the line structure only when no location name and no printed instruction contains a newline. Otherwise the text has more lines, and the model says nothing about how they split.
- In the source, the button handler reads the global `campus_graph` for validation, search and directions. `FindPath` takes that graph as a parameter instead.
- There is no graph construction step. The source's graph is a literal, reproduced as `CampusRoutes.Campus`.
