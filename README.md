# Fastest-route engine of the metro route API

This project is a Dafny model of the route engine behind `GET /api/route?from=<code>&to=<code>`, together with the timeline builder `flattenRoute` of the route page. It proves properties of that model.

The handler works as follows.

- It trims the two station codes and rejects a missing or blank code. It then rejects identical codes.
- It resolves each code to the ids of every station_line that carries it. A station on several lines has several ids.
- It builds a directed adjacency from the operational connection rows.
- It runs Dijkstra from all `from` ids at once. The frontier is an array scanned linearly for its least entry and removed with `splice`. Entries of already settled nodes are skipped through a `visited` set. Relaxation uses a strict `<`. The search stops at the first settled target.
- It picks the target with the least distance, the first in `toIds` order on a tie.
- It backtracks the predecessor links, reverses them, and maps the ids to stop metadata. Ids without metadata are dropped.

The two database query results are model inputs: `seq<NodeRow>` (station_lines joined with stations and lines) and `seq<Connection>` (the operational connections).

The reply is a datatype:
- `MissingParameters` and `SameStation`, both status 400;
- `StationNotFound(code)` and `NoRoute`, both status 404;
- `Found(from, to, totalTimeMin, path)`.

Modules:
- `Graph` holds the shared vocabulary: node ids, arcs, the `Inf | Fin(n)` distance with INF above every finite value, and walks with their total travel time.
- `GraphBuilder` builds `nodeMap`, resolves codes to ids and builds the adjacency.
- `Solver` holds the multi-source search and the choice of the best target.
- `Path` holds backtracking, reversal and the mapping to stop metadata.
- `RouteHandler` holds trimming, validation and the whole handler.
- `FlattenRoute` holds `flattenRoute`.

The dictionaries that the source fills step by step are `map`s, and the queue is a `seq`. The methods that update them use loops with invariants, as the source does. Each method is proved against reference functions (`NodeMapOf`, `AdjacencyOf`, `OutArcs`, `Chain`, `Reverse`, `Placements`) or against the shortest-walk predicates of `Graph`.

The main result is `RouteHandler.FindRoute`. When a route is found:
- `totalTimeMin` is the least travel time over all walks from any stop of the `from` station to any stop of the `to` station;
- the ids behind `path` are the nodes of such a walk, of exactly that travel time;
- when row ids are unique, `path` starts at a stop of `from` and ends at a stop of `to`.

`NoRoute` is answered exactly when no walk connects the two stations.

## Model

| member | source | states |
|---|---|---|
| RouteHandler.Trim | src/app/api/route/route.js:20-21 | `trim()` returns the slice of the value after its leading whitespace (the ECMAScript WhiteSpace and LineTerminator set); only whitespace follows that slice, and the slice neither starts nor ends with whitespace |
| RouteHandler.TrimIdempotent | src/app/api/route/route.js:20-21 | trimming a trimmed code changes nothing |
| RouteHandler.TrimEmpty | src/app/api/route/route.js:20-24 | a value trims to the empty string exactly when every character of it is whitespace |
| RouteHandler.Code | src/app/api/route/route.js:20-24 | `!code` holds exactly when the parameter is missing or consists of whitespace only; otherwise the code is the trimmed, non-empty value |
| RouteHandler.FindRoute | src/app/api/route/route.js:19-185 | missing or blank code ⇔ `MissingParameters`; equal codes ⇔ `SameStation`, decided before any lookup; a code with no rows ⇔ `StationNotFound` naming `from` when `from` has no rows, otherwise `to`; with both resolved, `NoRoute` ⇔ no walk from a `from` id to a `to` id; a `Found` reply carries the trimmed codes and a shortest route (`RouteFound`); in terms of the inputs, the status is 400 exactly when a code is missing, blank or equal to the other, 404 exactly when a code resolves to no id or no walk links the two stations, and 200 exactly when both resolve and a walk links them |
| RouteHandler.ErrorText | src/app/api/route/route.js:24-162 | each error reply's text is the handler's message; only the not-found texts start with `Station not found: `, followed by the code, which `FindRoute` fixes as the trimmed code that resolved to no id |
| RouteHandler.ErrorTextInjective | src/app/api/route/route.js:24-76 | different error replies have different texts, so a text tells which check failed and, for a missing station, which code |
| RouteHandler.SearchRoute | src/app/api/route/route.js:47-185 | with both codes resolved, the reply is `NoRoute` exactly when no walk links them, and otherwise a `Found` reply whose total is the shortest travel time, whose ids form a walk of that weight, and whose path is their metadata |
| RouteHandler.BestIsShortest | src/app/api/route/route.js:148-171 | the least distance over `toIds` is the true shortest travel time from the source set to the target set, also after the early exit; backtracking from the best target yields the nodes of a walk from a source of exactly that weight |
| RouteHandler.PathStations | src/app/api/route/route.js:165-185 | with unique row ids, the path is non-empty, its first stop belongs to the `from` station and its last to the `to` station |
| RouteHandler.KnownRow | src/app/api/route/route.js:47-55 | with unique row ids, the metadata of every row's id is that row's |
| GraphBuilder.BuildNodeMap | src/app/api/route/route.js:47-55 | the `forEach` loop produces `NodeMapOf(rows)` and gives an entry to every row's id |
| GraphBuilder.NodeMapLastRowWins | src/app/api/route/route.js:47-55 | an id has an entry iff some row carries it, and the entry is the metadata of the last row carrying it |
| GraphBuilder.IdsWithCode | src/app/api/route/route.js:58-63 | an id is resolved for a code iff some row with that `station_code` carries it |
| GraphBuilder.IdsWithCodeAppend | src/app/api/route/route.js:58-63 | resolution keeps row order; it distributes over concatenation of row lists |
| GraphBuilder.MultiLineStation | src/app/api/route/route.js:58-63 | a station with two rows resolves to both ids, in row order |
| GraphBuilder.BuildAdjacency | src/app/api/route/route.js:83-91 | the `forEach` loop with `if (!adj[a]) adj[a] = []` and `push` produces `AdjacencyOf(conns)` |
| GraphBuilder.AdjacencyInRowOrder | src/app/api/route/route.js:83-91 | `adj[a]` is exactly the arcs of the rows leaving `a`, in row order |
| GraphBuilder.AdjacencyIsDirected | src/app/api/route/route.js:83-91 | an arc `b` of weight `w` leaves `a` iff there is a connection row `a → b` with travel time `w` |
| GraphBuilder.OneWayConnection | src/app/api/route/route.js:83-91 | with no row `b → a`, no arc out of `b` leads to `a`; no reverse arc is added |
| Graph.WalkPrefix | src/app/api/route/route.js:130-144 | a walk without its last step is a walk ending where that step starts |
| Graph.WalkExtend | src/app/api/route/route.js:130-144 | a walk extended by an arc out of its end is a walk whose weight grows by the arc's weight |
| Solver.InitSearch | src/app/api/route/route.js:94-112 | `dist` and `prev` are defined exactly on `Object.keys(adj)`, `fromIds` and `toIds`; sources are at 0 and every other node at INF; every predecessor is null; the queue is one `{ node: id, d: 0 }` per source, in `fromIds` order |
| Solver.InitialInvariant | src/app/api/route/route.js:105-113 | the initial state satisfies every loop invariant, with nothing settled |
| Solver.FindMin | src/app/api/route/route.js:116-119 | the index found holds a least `d`, and every earlier entry is strictly larger: the first minimum wins |
| Solver.RemoveAt | src/app/api/route/route.js:122 | `splice(k, 1)` keeps the entries before `k` and shifts those after it down by one |
| Solver.RemoveAtMembers | src/app/api/route/route.js:122 | removal adds no entry and keeps every entry other than the removed one |
| Solver.Relax | src/app/api/route/route.js:130-144 | after the arcs of `u`: distances only go down; `dist[u]` is unchanged; each arc `u → v` leaves `dist[v] <= dist[u] + w`; a changed node was strictly lowered through `u` (predecessor `u`, an arc of that weight, its entry queued); other predecessors are untouched; the queue only gains the entries pushed |
| Solver.FrontierCrossing | src/app/api/route/route.js:115-145 | every walk from a source to an unsettled node passes an unsettled node with a finite distance at most the walk's weight |
| Solver.PopIsOptimal | src/app/api/route/route.js:115-128 | the least queued distance is no larger than any walk from a source to an unsettled node |
| Solver.PoppedIsCurrent | src/app/api/route/route.js:121-125 | the least entry is not stale: for an unsettled node it carries the node's current distance |
| Solver.SettleIsOptimal | src/app/api/route/route.js:124-125 | settling the popped node keeps every settled distance a lower bound on walks from the sources |
| Solver.SettleKeepsOrder | src/app/api/route/route.js:124-125 | nodes are settled in non-decreasing distance order |
| Solver.SettledKeepDistance | src/app/api/route/route.js:130-144 | relaxation never changes the distance of a settled node |
| Solver.ExhaustedUnreachable | src/app/api/route/route.js:115 | once the queue is empty, every node reachable from a source is settled |
| Solver.NoTargetReachable | src/app/api/route/route.js:115-145 | a queue exhausted before any target is settled means no walk reaches a target, and every target is at INF |
| Solver.ReachedTarget | src/app/api/route/route.js:124-128 | at the early exit, the settled target's distance is a lower bound on every walk from a source to any target |
| Solver.ExpandOnce | src/app/api/route/route.js:124-130 | a node is expanded (its arcs relaxed) at most once |
| Solver.Search | src/app/api/route/route.js:115-145 | the main loop terminates. Sources stay at 0 with no predecessor. No walk from a source to a settled node is shorter than its distance (with the predecessor links below, `Path.SettledIsShortest` shows that distance is attained). Every predecessor link is an arc whose weight is the difference of the two distances, from a node settled earlier. Nodes settle in non-decreasing order, each expanded at most once. Either a target was settled and no walk to any target is shorter, or no target is reachable and all are at INF |
| Solver.ShortestPaths | src/app/api/route/route.js:94-145 | the same guarantees for the whole multi-source Dijkstra, starting from the set-up |
| Solver.PickBest | src/app/api/route/route.js:148-155 | no best target ⇔ best distance INF ⇔ every target at INF; the best distance is at most every target's; the chosen target is the first in `toIds` order carrying it |
| Path.Backtrack | src/app/api/route/route.js:165-170 | the `while (cur != null)` loop terminates and collects `Chain(prev, bestEnd)`: `bestEnd`, its predecessor, and so on up to a node with no predecessor |
| Path.Reverse | src/app/api/route/route.js:171 | element `i` of the result is element `n-1-i` of the input |
| Path.Reconstruct | src/app/api/route/route.js:165-171 | the path ids are the reversed chain: they end at `bestEnd` and start at a node with no predecessor |
| Path.PathEnds | src/app/api/route/route.js:165-171 | the reversed chain ends at the node backtracked from and starts at a node without a predecessor |
| Path.ChainIsWalk | src/app/api/route/route.js:165-171 | backtracking from any node with a finite distance ends at a source. The reversed chain is the node list of a walk whose consecutive ids are arcs of `adj` and whose weights sum to that node's distance |
| Path.SettledIsShortest | src/app/api/route/route.js:115-145 | a settled node's distance is the shortest travel time from the sources to it: it is a lower bound on every walk, and the predecessor links give a walk of exactly that weight |
| Path.NodesEnds | src/app/api/route/route.js:165-171 | a walk's node list starts at its start and ends at its end |
| Path.StopsOf | src/app/api/route/route.js:173-185 | the mapped path is no longer than the ids, and every stop is the metadata of one of the ids |
| Path.StopsOfAppend | src/app/api/route/route.js:173-185 | mapping keeps order: it distributes over concatenation |
| Path.StopsOfDropsUnknown | src/app/api/route/route.js:173-185 | an id without a `nodeMap` entry is dropped, wherever it stands, and the other ids map as if it were absent |
| Path.StopsOfKeepsKnown | src/app/api/route/route.js:173-185 | an id with an entry contributes that entry in its place, between the stops of the ids before it and those after it |
| Path.StopsOfAllKnown | src/app/api/route/route.js:173-185 | when every id has metadata nothing is dropped: stop `i` is the metadata of id `i` |
| Path.StopsOfEnds | src/app/api/route/route.js:173-185 | when the first and last ids have metadata, the first and last stops are theirs |
| FlattenRoute.Flatten | src/app/route/page.js:100-122 | one step per station, in leg order then station order, each carrying its station and its leg's line; only the very first step is `isFirst`; exactly the last step is `isLast`; `hasLineBelow` is true exactly for the steps before the last |
| FlattenRoute.PlacementsCount | src/app/route/page.js:102-113 | the number of steps is the total number of stations over all legs |
| FlattenRoute.PlacementsAppend | src/app/route/page.js:102-113 | the steps of two consecutive groups of legs are those of the first group followed by those of the second |
| FlattenRoute.EmptyLegAddsNothing | src/app/route/page.js:102-113 | a leg without stations contributes no step |
| FlattenRoute.OnLine | src/app/route/page.js:103-108 | each station of a leg is placed on that leg's line, in order |

## Left out

- The database layer is not modelled. The two query results are inputs. The `is_operational = true` filter belongs to the query, so the connection rows are taken as already filtered. The joins of `station_lines` with `stations` and `lines` are not modelled either.
- The HTTP layer is not modelled: `NextResponse`, the CORS headers, the `OPTIONS` handler, the JSON body layout and the `catch` path that answers 500. Replies are the `Reply` datatype; `Status` gives their status and `ErrorText` their messages.
- URL parsing and `URLSearchParams` decoding are not modelled. Each parameter is an `Option<string>` that is already decoded.
- The INF sentinel `Number.MAX_SAFE_INTEGER` is the `Inf` constructor. Floating-point addition is unbounded `nat` addition, so totals at or above 2^53 − 1, where the sentinel and real sums would collide, are not modelled.
- `Number(row.travel_time_min)` is taken to be a natural number. NaN, negative and fractional travel times are not modelled.
- `pathIds.reverse()` reverses the array in place. Here it is the function `Path.Reverse` on a value.
- JavaScript object keys are not modelled as strings distinct from ids. Node ids are strings and the dictionaries are maps.
- RouteHandler.PathStations: the property that the path starts at the `from` station and ends at the `to` station assumes unique `station_lines` ids, as the table's primary key guarantees. With duplicate ids a later row's metadata overwrites an earlier one (`GraphBuilder.NodeMapLastRowWins`), so the property can fail.
- No `EmptySourceOrTarget` failure is modelled: the handler answers 404 before the search whenever a code resolves to no id, so the search always starts with non-empty source and target lists.
- The best target may differ from the target settled at the early exit. The code scans all of `toIds`, so it picks the first target in `toIds` order with the least distance, which may be an unsettled target tied with the settled one. `RouteHandler.BestIsShortest` proves this choice is still a shortest target.
- The unused local `isLastInLeg` of `flattenRoute` is not modelled.
- The `...station` spread in `flattenRoute` is not modelled field by field. The station is kept whole as a value of a generic type.
- The API cache (`src/lib/api-cache.js`), the React components and the placeholder route data are not modelled.
