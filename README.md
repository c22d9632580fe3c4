# ShortRouteOptimizerAPI — a verified model of the routing core

ShortRouteOptimizerAPI is an ASP.NET Core service. It answers
`GET api/ShortestPaths/{from}/{to}` with the cheapest route between two named nodes of a
weighted directed graph, and it lists the node names. This project models three parts of it
in Dafny:

- the shortest-path search `ShortestPathService.GetShortestPathFromNodes`. It is Dijkstra's
  algorithm over a sorted-set frontier, with an early exit at the destination and a path
  rebuilt from the predecessor table;
- the cache-aside action `ShortestPathsController.GetShortestPath`. It has a null guard, a
  cache key built by `string.Format`, a hit returned from the memory cache, and a miss that
  is computed, stored and returned. An exception becomes `BadRequest`;
- the name listing `NodesService.GetNodesNamesFromGraph`.

Files:

| file | contents |
|---|---|
| `wrappers.dfy` | `Option`, standing for a nullable reference |
| `models.dfy` | the records `ShortestPathData` and `CacheSettings`, `int.MaxValue`, the outcome of a service call (value or exception), the text of `KeyNotFoundException` |
| `graphs.dfy` | the graph as the repository supplies it: nodes with names and weighted edges to other nodes (by position). Walks, their weight, reachability, and the name → node dictionary |
| `shortest_path_service.dfy` | the search, written imperatively as the C# is: the main loop, the relaxation loop and the path rebuild loop, with the invariants that prove it |
| `nodes_service.dfy` | the name listing |
| `shortest_paths_controller.dfy` | the key format, one request as a function over the cache, and the controller class whose method is proved against it |

The search keeps the source's state:

- `dist` is the distance table. A node missing from it still has its initial distance `int.MaxValue`.
- `prev` is the predecessor table.
- `queue` is the frontier, a set of (distance, node) entries.

The ghost map `settled` records the order in which nodes left the frontier.

The proof shows what the search promises:

- Unknown names raise `KeyNotFoundException`; the start name is looked up first.
- The returned names always end with the destination's name.
- When the destination can be reached, the returned route is a walk from the start, its weight
  is the returned distance, and no walk is lighter.
- When it cannot be reached, the answer is the destination alone with distance `int.MaxValue`.
- A query from a node to itself answers `[from]` with distance 0.
- Rebuilding the path terminates, and the route is at most as long as the node list.

The key lemmas are stated for the template the controller tests configure, `ShortestPath_{0}_{1}`
(ShortRouteOptimizerAPI.Tests/ShortestPathsControllerTests.cs:37); the application reads its
template from configuration:

- Keys are ordered and injective for names without `_`.
- Names containing `_` can share a key: `("A_", "B")` and `("A", "_B")` both give
  `ShortestPath_A__B`. `CollidingNamesShareEntry` states the consequence: the second request is
  answered with the first one's data.
- With names without `_` and a positive `CacheDurationMinutes`, a cache filled by the action
  answers exactly as the service would (`CacheTransparent`).
- With `CacheDurationMinutes` of 0 or less, building the entry options throws
  `ArgumentOutOfRangeException` inside the try block, so every miss the service answers
  becomes `BadRequest` with that exception's message and nothing is ever stored.

## Model

| member | source | states |
|---|---|---|
| Graphs.NodeDict | ShortRouteOptimizerAPI.Services/ShortestPathService.cs:53-57 | every node's name is a key; each key maps to a node of that name, and to the last node carrying it |
| Graphs.UniqueNamesIndex | ShortRouteOptimizerAPI.Services/ShortestPathService.cs:56 | with unique names, looking up a node's name gives back that node |
| ShortestPathService.BuildNodeDict | ShortRouteOptimizerAPI.Services/ShortestPathService.cs:51-57 | the foreach that fills the dictionary in list order produces exactly the name → node table |
| ShortestPathService.EntryLe | ShortRouteOptimizerAPI.Services/ShortestPathService.cs:43-50 | the frontier's comparer: entries ordered by distance, ties by node (see EntryOrderIsTotal) |
| ShortestPathService.EntryOrderIsTotal | ShortRouteOptimizerAPI.Services/ShortestPathService.cs:43-50 | the comparer is reflexive, total, antisymmetric and transitive: a total order on entries, so two entries comparing equal are the same entry |
| ShortestPathService.DistanceOf | ShortRouteOptimizerAPI.Services/ShortestPathService.cs:78-100 | the reads distances[neighbor] and distances[endNode]: the recorded distance, or int.MaxValue for a node never reached (see DistanceTable) |
| ShortestPathService.DistanceTable | ShortRouteOptimizerAPI.Services/ShortestPathService.cs:53-62 | the table {start: 0} reads 0 at the start and int.MaxValue everywhere else, as the dictionary filled at line 55 and set at line 62; writing one node's distance changes what that node reads and nothing else |
| ShortestPathService.FrontierMin | ShortRouteOptimizerAPI.Services/ShortestPathService.cs:43-50 | the entry taken from a non-empty frontier belongs to it and is least under (distance, node) order |
| ShortestPathService.QueueHasOneEntryPerNode | ShortRouteOptimizerAPI.Services/ShortestPathService.cs:80-83 | while the frontier matches the distance table, no node has two entries in it |
| ShortestPathService.MinIsShortest | ShortRouteOptimizerAPI.Services/ShortestPathService.cs:67-68 | the least frontier entry carries its node's recorded distance, and no walk from the start to that node is lighter |
| ShortestPathService.FrontierBound | ShortRouteOptimizerAPI.Services/ShortestPathService.cs:65-86 | every walk from the start to a node not yet settled passes a reached, unsettled node whose distance is at most the walk's weight |
| ShortestPathService.DrainedMeansUnreachable | ShortRouteOptimizerAPI.Services/ShortestPathService.cs:65 | when the frontier is empty before the destination is taken, the destination has no distance and no walk reaches it |
| ShortestPathService.ChainIsWalk | ShortRouteOptimizerAPI.Services/ShortestPathService.cs:88-95 | following predecessor links gives a walk; its weight is the difference of the endpoints' distances |
| ShortestPathService.RelaxKeepsPrevEdges | ShortRouteOptimizerAPI.Services/ShortestPathService.cs:81-82 | after an improvement, every predecessor is joined to its node by an edge whose weight is the difference of their distances |
| ShortestPathService.RelaxKeepsTables | ShortRouteOptimizerAPI.Services/ShortestPathService.cs:78-83 | an improvement never touches a settled node or the start. It keeps the start at 0, keeps every reached non-start node with a predecessor, and keeps predecessors settled earlier |
| ShortestPathService.RelaxKeepsQueue | ShortRouteOptimizerAPI.Services/ShortestPathService.cs:80-83 | removing the old entry and adding the new one leaves exactly one entry per reached unsettled node, at its new distance |
| ShortestPathService.SettleKeepsTables | ShortRouteOptimizerAPI.Services/ShortestPathService.cs:67-68 | taking a reached node off the frontier adds exactly it to the settled nodes and keeps the tables consistent |
| ShortestPathService.SettleKeepsInvariants | ShortRouteOptimizerAPI.Services/ShortestPathService.cs:67-73 | settling the least entry keeps the frontier matched and the settled distances optimal. Settled distances stay at most the new level and unsettled ones at least it |
| ShortestPathService.LoweringKeepsSettled | ShortRouteOptimizerAPI.Services/ShortestPathService.cs:75-85 | lowering only unsettled distances keeps the settled nodes' edges relaxed and their distances optimal |
| ShortestPathService.RelaxEdge | ShortRouteOptimizerAPI.Services/ShortestPathService.cs:77-84 | a strictly better candidate (or an unreached neighbour) replaces the distance, the predecessor and the frontier entry; otherwise nothing changes. Distances never increase, and the search invariants are kept |
| ShortestPathService.RelaxNeighbors | ShortRouteOptimizerAPI.Services/ShortestPathService.cs:75-85 | after the foreach, every edge out of the current node is relaxed; settled distances are unchanged and optimal; every distance is at most its old value |
| ShortestPathService.ReconstructPath | ShortRouteOptimizerAPI.Services/ShortestPathService.cs:88-95 | the loop terminates. It yields the names of a route of distinct nodes that ends at the destination, starts at a node without a predecessor, follows the predecessor links, and is no longer than the node list. The last name is the destination's; a destination without a predecessor gives its name alone |
| ShortestPathService.Search | ShortRouteOptimizerAPI.Services/ShortestPathService.cs:62-86 | the start keeps distance 0 and no predecessor. If the loop stops at the destination, its distance is that of a lightest walk. If the frontier runs dry, the destination is unreached and unreachable |
| ShortestPathService.ReachedRoute | ShortRouteOptimizerAPI.Services/ShortestPathService.cs:88-95 | for a reached destination, the rebuilt route starts at the start node, is a walk whose weight is the destination's distance, and is the start alone for a self-query |
| ShortestPathService.UnreachedRoute | ShortRouteOptimizerAPI.Services/ShortestPathService.cs:91-95 | for an unreached destination, the rebuilt route is the destination alone |
| ShortestPathService.IsShortestAnswer | ShortRouteOptimizerAPI.Services/ShortestPathService.cs:88-101 | the promised answer for two known names, written once: a path of distinct nodes ending at to and named along it; a lightest walk from from whose weight is the distance when to is reachable; [to] at int.MaxValue when not; [from] at 0 when from = to |
| ShortestPathService.ResultFacts | ShortRouteOptimizerAPI.Services/ShortestPathService.cs:88-101 | the answer assembled from the search and the rebuilt route is an IsShortestAnswer |
| ShortestPathService.GetShortestPathFromNodes | ShortRouteOptimizerAPI.Services/ShortestPathService.cs:34-102 | an unknown from or to name throws KeyNotFoundException (from first). Otherwise the answer is an IsShortestAnswer: the path ends at to, and is a lightest walk starting at from whose weight is the distance when to is reachable, [to] at int.MaxValue when not, [from] at 0 when from = to |
| NodesService.SelectNames | ShortRouteOptimizerAPI.Services/NodesService.cs:28 | one name per node, the i-th name being the i-th node's |
| NodesService.GetNodesNamesFromGraph | ShortRouteOptimizerAPI.Services/NodesService.cs:22-34 | a null graph gives no names; otherwise the names of all nodes, in list order |
| NodesService.DuplicatesKept | ShortRouteOptimizerAPI.Services/NodesService.cs:28 | two nodes sharing a name give two equal entries at their own positions |
| NodesService.ListedNamesAreEndpoints | ShortRouteOptimizerAPI.Services/NodesService.cs:28 | a name is listed exactly when the shortest-path search accepts it as an endpoint |
| ShortestPathsController.FormatKey | ShortRouteOptimizerAPI/Controllers/ShortestPathsController.cs:47 | string.Format(template, from, to): {0} becomes from, {1} becomes to, {{ and }} become one brace, other text is copied, any other brace is a FormatException (None); its cases are the lemmas LiteralPrefix, FormatItemPrefix, EscapedBraces and StrayBraceFails |
| ShortestPathsController.EscapedBraces | ShortRouteOptimizerAPI/Controllers/ShortestPathsController.cs:47 | {{ and }} in front of a template each give one brace in front of the formatted rest |
| ShortestPathsController.StrayBraceFails | ShortRouteOptimizerAPI/Controllers/ShortestPathsController.cs:47 | a } not followed by }, a { not followed by {, 0 or 1, and a {0 or {1 not closed at once each make the format fail, whatever follows |
| ShortestPathsController.LiteralPrefix | ShortRouteOptimizerAPI/Controllers/ShortestPathsController.cs:47 | brace-free text in front of a template is copied in front of the formatted rest, and a failure of the rest stays a failure |
| ShortestPathsController.LiteralCopied | ShortRouteOptimizerAPI/Controllers/ShortestPathsController.cs:47 | a template without braces formats to itself |
| ShortestPathsController.FormatItemPrefix | ShortRouteOptimizerAPI/Controllers/ShortestPathsController.cs:47 | the items {0} and {1} are replaced by from and to |
| ShortestPathsController.TestKeyShape | ShortRouteOptimizerAPI.Tests/ShortestPathsControllerTests.cs:37 | string.Format with the template the controller tests configure gives the key "ShortestPath_" + from + "_" + to (TestKey) |
| ShortestPathsController.KeyInjective | ShortRouteOptimizerAPI/Controllers/ShortestPathsController.cs:47 | for from names without '_', equal keys under that template mean equal (from, to) pairs |
| ShortestPathsController.KeysAreOrdered | ShortRouteOptimizerAPI/Controllers/ShortestPathsController.cs:47 | swapping two different names without '_' changes the key |
| ShortestPathsController.KeyCollision | ShortRouteOptimizerAPI/Controllers/ShortestPathsController.cs:47 | (a + "_", b) and (a, "_" + b) have the same key |
| ShortestPathsController.SlidingExpirationMessage | ShortRouteOptimizerAPI/Controllers/ShortestPathsController.cs:60-61 | the Message of the ArgumentOutOfRangeException thrown when the sliding expiration is not positive, which starts with "The sliding expiration value must be positive." and goes on with the parameter name and the value |
| ShortestPathsController.MissAnswer | ShortRouteOptimizerAPI/Controllers/ShortestPathsController.cs:56-74 | on a miss the action answers as the service would exactly when the duration is positive or the service throws; otherwise it answers BadRequest with the sliding-expiration message; it is never an Ok other than the service's data |
| ShortestPathsController.Handle | ShortRouteOptimizerAPI/Controllers/ShortestPathsController.cs:42-75 | one request never overwrites or removes an entry. Any entry it adds is under its own key, holds what the service returned, and is the answer. When it calls the service, it answers MissAnswer of the duration and the service's outcome. A duration of 0 or less never changes the cache |
| ShortestPathsController.NullInputRejected | ShortRouteOptimizerAPI/Controllers/ShortestPathsController.cs:44-45 | a null from or to is answered BadRequest("Invalid input parameters"), with the cache unchanged and no service call |
| ShortestPathsController.CacheAside | ShortRouteOptimizerAPI/Controllers/ShortestPathsController.cs:49-73 | a hit answers the cached data and changes nothing. A successful miss with a positive duration stores the service's data under the key and answers it; with a duration of 0 or less it answers BadRequest with the sliding-expiration message and stores nothing. A throwing miss answers BadRequest(message) and stores nothing |
| ShortestPathsController.OnlyOwnKeyChanges | ShortRouteOptimizerAPI/Controllers/ShortestPathsController.cs:63 | every cache entry under another key is present afterwards exactly when it was before, with the same data |
| ShortestPathsController.Idempotent | ShortRouteOptimizerAPI/Controllers/ShortestPathsController.cs:49-67 | after a successful call, the same call answers the same and neither calls the service nor changes the cache |
| ShortestPathsController.CacheTransparent | ShortRouteOptimizerAPI/Controllers/ShortestPathsController.cs:49-67 | with the test template and a from name without '_', a hit on a cache filled by earlier calls answers as the service would and a miss answers MissAnswer, so with a positive duration every answer is the service's; the cache stays so |
| ShortestPathsController.CollidingNamesShareEntry | ShortRouteOptimizerAPI/Controllers/ShortestPathsController.cs:47-53 | with a positive duration, once (a + "_", b) is cached, a request for (a, "_" + b) is answered with that data, whatever the service would say; with a duration of 0 or less the first call stores nothing |
| ShortestPathsController.ShortestPathsController.constructor | ShortRouteOptimizerAPI/Controllers/ShortestPathsController.cs:28-33 | the controller keeps the service, the settings and the shared cache it is given |
| ShortestPathsController.ShortestPathsController.GetShortestPath | ShortRouteOptimizerAPI/Controllers/ShortestPathsController.cs:42-75 | the answer, the new cache and the service-call log are those of Handle. A null is rejected untouched; a hit returns the cached data; a miss calls the service once and stores its data when the duration is positive; it answers BadRequest with the sliding-expiration message when the duration is not, and stores nothing then or when the service throws |

## Left out

- Program.cs, the exception middleware, ExceptionDetails and NodesController are wiring: dependency injection, a global error handler and a thin try/log/Ok wrapper. Logging is a side effect only. None of it is part of this model.
- IShortestPathService, INodesService and IShortestPathRepository are declarations without logic. The repository's graph is a parameter of the model.
- ShortestPathService.GetShortestPathFromNodes: `new List<Node>()` followed by `Count == 0` (lines 36-39) always fetches the graph, so the model takes the graph directly.
- ShortestPathService.GetShortestPathFromNodes: a null graph from the repository would raise NullReferenceException at line 53. It is not modelled: the graph is always present.
- ShortestPathService.GetShortestPathFromNodes: requires every neighbour to be a node of the list. A foreign neighbour would raise KeyNotFoundException at line 78, and that case is not modelled.
- ShortestPathService.RelaxEdge: distances and weights are unbounded naturals. The C# `int` sum can overflow, and a candidate of int.MaxValue or more is never recorded there. Negative weights cannot be expressed.
- ShortestPathService.FrontierMin: ties on distance are broken by node position. `Node.CompareTo` lives in a file that is not part of this model. Which of two equally distant nodes is taken first can change the route returned, but not its weight.
- ShortestPathsController.FormatKey: handles `{0}`, `{1}`, `{{` and `}}`. Any other brace use is a FormatException. `string.Format` also accepts alignment and format strings (`{0,5}`, `{0:x}`), spaces and leading zeros, which the model reports as a failure. A null template (missing configuration) is not modelled.
- ShortestPathsController.GetShortestPath: a FormatException escapes the action (the format call is outside the try block). The model returns `FormatFailed`; what the middleware then answers is not modelled.
- ShortestPathsController.GetShortestPath: the expiry of entries over time (sliding expiration, lines 60-61) is not modelled. Time and IMemoryCache internals are library behaviour, so the cache is a map whose entries stay. The refusal of a duration of 0 or less is modelled.
- ShortestPathsController.SlidingExpirationMessage: the new line inside the exception's Message is `Environment.NewLine`. It is taken as "\n", as on Linux; on Windows it is "\r\n".
- ShortestPathsController.GetShortestPath: the service is a total function of (from, to), standing for the search over a fixed graph. The search model above is a method, and a function cannot call it.
- Concurrent requests sharing the memory cache are not modelled; calls are sequential.
- The controller tests read the BadRequest value back as an Exception (ShortRouteOptimizerAPI.Tests/ShortestPathsControllerTests.cs:153-154), but the action passes `ex.Message`, a string. The model follows the code.
