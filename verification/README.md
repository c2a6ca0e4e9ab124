# DataDock, modelled

DataDock is a web front end for SQL databases. Most of it carries requests to a database and results
back; some of it computes. This project models the parts that compute, keeps the shape of the code
(loops, arrays, classes with fields that change), and proves what those parts are for:

- **Routing** (`RoutingGraph`, `RoutingCosts`, `RoutingQueue`, `RoutingSearch`, `RoutingPath`,
  `RouteGeometry`, `HullGeometry`, `ConvexHull`): shortest paths over a binary heap with lazy deletion and a cost bound,
  reconstruction of routes, the line drawn for a route, and the hull drawn around reachable nodes.
- **Pipeline executor** (`PipelineExecutor`, `PipelineProgress`, `PipelineLineage`, `PipelineOrder`,
  `PipelineFailure`): feeder, workers, results channel, collector and cancellation as a transition
  system in which any enabled event may come next.
- **Pipeline store** (`PipelineDefinition`, `PipelineRows`, `PipelineImport`, `PipelineStore`,
  `PipelineLimits`): validation, immutable versions, export, and import without duplicates.
- **Map export** (`LineSimplify`, `LineRings`, `Geometry`, `DbfNames`): Douglas-Peucker, exploding
  nested geometries, bounding boxes, and field names for shapefiles.
- **Logic search** (`LogicTable`, `LogicIndex`, `LogicReindex`, `LogicFaults`, `LogicSearch`): incremental
  re-embedding against a rebuild, and windowed search against exact search.
- **Vector tiles** (`MapTileScanner`, `MapTileEncoding`): a varint reader and field scanner, and the
  printer it inverts.
- **Fixed-width import** (`FixedWidth`): inferring columns and slicing lines.
- **Connections** (`ConnectionRegistry`, `ConnectionManager`): the registry of database connections
  shared by all sessions.

`Wrappers`, `Whitespace`, `Decimal`, `Pigeonhole`, `Plane` and `Sorting` hold what these share. Methods
that change state are proved against functions (`ConnectionManager` against `ConnectionRegistry.Apply`,
`LogicIndex.Table` against `Run.Reindex`, `PipelineStore` against `PipelineImport.Imported`), and the
properties are proved of those functions over all inputs, runs and interleavings. Costs, coordinates,
distances and similarities are real numbers. Great-circle distance, perpendicular distance, cosine
similarity, embeddings, digests, lower-casing and session tags are arbitrary functions; where a proof
needs one to be symmetric or injective, it says so.

`dafny verify dfyconfig.toml` checks everything.

## Where the code does not do what one would expect

These are theorems below. Where a property holds only sometimes, its exact condition is proved.

- Re-indexing leaves the rows of a rebuild exactly when no skipped object has changed its kind, since
  the stored hash covers the text and not the kind (`ReindexEqualsRebuildIff`, `KindChangeIsMissed`). The
  same decides whether it recovers from earlier runs of other definitions, models and connections that
  failed in any way (`RecoversIff`).
- Repeating a successful run changes nothing exactly when definitions of one qualified name have one
  hash (`ReindexIdempotentIff`), although the design calls a reindex incremental. A PostgreSQL view and
  a routine can share a name, and so can a MySQL procedure and a function; they then replace each other
  at every run (`SharedNamesAlternate`). Overloads in PostgreSQL do not: all are fetched with one text.
- The failure of a step stops the steps after it for certain only when there are none: whatever the
  parallelism, even with one worker, a run that reports the failure of step k may have run any number of
  steps from k + 1 to all of them (`FailsAfterIff`, `LaterStepMayRunIff`). When a step is on offer and
  the run is cancelled, either may win (`StartsLateIff`, `FailureMayNotStopTheNextStep`).
- An export can be imported again exactly when it takes at most 16 MiB and the store holds at most 512
  versions (`ExportIsImportable`); neither limit holds when saving (`ManyVersionsAreRefused`,
  `LargeVersionsAreRefused`).
- Stored versions keep their meaning exactly until their pipeline is deleted (`StepKeepsVersionsIff`,
  `VersionsAlwaysKeptIff`): deleting restarts the numbering, so a version that a run recorded can come to
  mean another definition (`DeleteReusesVersions`), while the comment on saving promises that version
  references stay reproducible.
- A run keeps private connections out of other sessions' sight exactly when none of its operations is
  one that `Exposes` describes (`IsolationEndsIff`, `AlwaysIsolatedIff`): a private connection added
  under a shared connection's ID replaces it, also where other sessions fall back on it or have chosen it.
- The built-in connection cannot be removed but can be replaced: a connection added under the ID
  `default` takes its place, a private one unless another session's private one is there already. The
  built-in database stays for the whole of a run exactly when no other is added there (`BuiltInKeptIff`,
  `AlwaysBuiltInIff`, `AddUnderBuiltInId`), and nothing but a further add changes it again
  (`BuiltInIsLastAdded`).
- The method `Add`, given an object that is registered already under the ID it ends up with, keeps that
  object and closes its database, save under the built-in ID. Requests do not get there, since they add only connections they have just opened.
- A varint is read with its value exactly when that fits into 64 bits; a larger one is read modulo 2 to
  the 64 rather than refused (`VarintKeepsValueIff`, `ExcessBitsAreLost`).
- Simplifying does not reach into geometry collections. It commutes with exploding exactly for what is
  not a collection or what it leaves alone (`ExplodeAndSimplifyCommuteIff`), so collections have to be
  exploded first (`CollectionsMustBeExplodedFirst`).
- An open line simplified as a ring is closed exactly under the guards that keep it from falling back on
  the line as it was (`RingClosedIff`).
- The arcs of a route driven back are drawn in reverse exactly when each one's direction can be told from
  the ends of its edge or does not matter (`SegmentsReversedIff`, `UndecidedLineIsKept`); then so is the
  whole line (`RouteDrivenBack`).

## Model

| member | source | states |
|---|---|---|
| RoutingGraph.LoadGraph | routing.go:239-272 | loading fails exactly when there are no nodes or edges, or no edge joins two nodes; otherwise every node has the arcs of its edges in order, and of incoming edges too if undirected |
| RoutingGraph.ArcsOfEdgesMembers | routing.go:255-266 | which arcs a node has, independent of the order of loading |
| RoutingGraph.UndirectedPathsReverse | routing.go:263-265 | in an undirected graph every path can be travelled back at the same cost |
| RoutingCosts.CostIs | routing.go:362-431 | an arc costs exactly what its edge records under the field; where a cost or distance is not recorded, the great-circle distance from the longitude and latitude of its first node to those of its last; a property has no substitute |
| RoutingCosts.UsableIff | routing.go:343-346 | an arc is usable exactly when that is known and not negative |
| RoutingQueue.PriorityQueue.Push | routing.go:73-83 | pushing keeps the heap and adds exactly one item |
| RoutingQueue.PriorityQueue.Pop | routing.go:73-83 | popping removes exactly one item, of least cost |
| RoutingSearch.ShortestPaths | routing.go:327-360 | fails exactly when an arc without a usable cost leaves a node with an admissible path; otherwise returns exactly the nodes with admissible paths, each with its least cost, and predecessors that form a tree accounting for every distance; terminates |
| RoutingSearch.Expand | routing.go:336-345 | a live item's node has not been expanded before, so each node is expanded at most once |
| RoutingSearch.RelaxImproving | routing.go:347-356 | recording a strict improvement keeps the search invariant: expanded nodes are final, zero-cost cycles included |
| RoutingSearch.TreePathIsShortest | routing.go:350-354 | following predecessors from a recorded node is a path from the source of usable arcs within the bound, costing exactly the recorded distance |
| RoutingPath.ShortestDistancesUnique | routing.go:327-360 | the defining property of the distances determines them |
| RoutingPath.BoundRestricts | routing.go:341-350 | the bounded search returns the unbounded distances restricted to those within the bound |
| RoutingPath.BoundNeverBlocks | routing.go:341-350 | a search that succeeds without a bound succeeds with every bound |
| RoutingPath.UnboundedBlockedIff | routing.go:343-346 | an unbounded search fails exactly when some arc leaving a reachable node has no cost or a negative one |
| RoutingPath.UnboundedReachesAll | routing.go:327-360 | an unbounded search that succeeds reaches exactly the reachable nodes, and no path at all is cheaper |
| RoutingPath.UndirectedDistanceSymmetric | routing.go:327-360 | in an undirected graph the distance from a to b is the distance from b to a |
| RoutingPath.ReverseInPlace | routing.go:453-458 | swapping from both ends reverses the list |
| RoutingPath.ReconstructRoutingPath | routing.go:441-460 | terminates on every predecessor tree and returns the chain it describes, or reports it incomplete exactly when it is |
| RoutingPath.ChainOfTree | routing.go:441-460 | for a node with a distance the chain is complete and is its tree path |
| RoutingPath.PathGivesRoute | routing.go:441-460 | the route is contiguous from source to target, of existing arcs, and its costs sum to the path's cost |
| RoutingPath.FindRoute | routing.go:327-460 | a reachable target yields a contiguous route of existing arcs whose charges, as their edges record them, sum to the reported distance, and no path charges less; an incomplete path is never reported |
| RoutingCosts.CheapestByCost | routing.go:327-370 | a route found by cost whose arcs record costs totals their sum, and no path of recorded costs has a smaller one |
| RoutingCosts.CheapestByDistance | routing.go:327-374 | the same by recorded distance |
| RoutingCosts.CheapestByProperty | routing.go:327-380 | the same by a numeric property |
| RoutingCosts.CheapestByPosition | routing.go:327-431 | where nothing is recorded, the total is the sum of great-circle distances, and no such path has a smaller one |
| RoutingPath.DistancesAreSums | routing.go:327-431 | every distance of a search, bounded or not, is a sum of what edges record along a path, and no admissible path has a smaller one |
| RouteGeometry.ArcCoordinates | routing.go:488-506 | an arc's points: the recorded line in the better-fitting direction, else the straight connection |
| RouteGeometry.StraightArc | routing.go:488-495 | without a recorded line an arc is drawn from its first node's position to its last one's, or not at all |
| RouteGeometry.ArcLineFitsBest | routing.go:496-504 | a recorded line is drawn as recorded or reversed; its ends are then at least as near to the arc's nodes as the other way round, and it is reversed only if they are nearer |
| RouteGeometry.ArcLineJoins | routing.go:496-504 | a recorded line that joins the arc's nodes in either direction is drawn from the first to the last |
| RouteGeometry.OppositeIsReversedIff | routing.go:488-506 | the opposite arc is drawn as the reverse line exactly when its direction can be told or does not matter |
| RouteGeometry.UndecidedLineIsKept | routing.go:488-506 | an instance in which it is not: an edge with a recorded line between loaded nodes without coordinates |
| RouteGeometry.DrawRoute | routing.go:462-480 | the loop draws the stitched arc lines, or the nodes' points when there are none |
| RouteGeometry.StitchRunsThrough | routing.go:464-473 | the drawn line runs through every arc's points in order; only a shared joint is drawn once |
| RouteGeometry.StitchAdvances | routing.go:466-473 | every arc adds all its points but a first one that is drawn already |
| RouteGeometry.RouteVisitsNodes | routing.go:462-480 | a route whose arcs are drawn between their nodes is drawn from its first node to its last, through every node on the way, and every joint once |
| RouteGeometry.StraightRoute | routing.go:462-495 | without recorded lines a route is drawn as the positions of its nodes, in order and each once |
| RouteGeometry.NodePointsAre | routing.go:474-480 | a route that falls back on its nodes passes each one that has coordinates, in order |
| RouteGeometry.SegmentsReversedIff | routing.go:488-506 | the arcs of a route driven back are drawn in reverse, last to first, exactly when each one's direction can be told or does not matter |
| RouteGeometry.RouteDrivenBack | routing.go:462-506 | then the route driven back is drawn as the same line in reverse, joints and fall-back included |
| HullGeometry.TurnTransitive | routing.go:577-579 | the turn test is transitive among directions within a half-turn |
| HullGeometry.CrossIsCounterClockwise | routing.go:577-579 | a positive cross product is a counter-clockwise turn with longitude to the right and latitude upwards |
| HullGeometry.StraightJunction | routing.go:580-606 | a straight angle where the two chains meet leaves no room for any other point |
| HullGeometry.NotOnBoth | routing.go:580-606 | no point is an inner vertex of both the lower and the upper chain |
| ConvexHull.MonotoneChain | routing.go:580-605 | one pass over sorted points gives a chain of strict left turns with every point on its left |
| ConvexHull.BeyondAfterPop | routing.go:583-585 | dropping a right turn loses no enclosed point |
| ConvexHull.RoutingConvexHull | routing.go:563-607 | the hull consists of different input points, every input point is on or left of every edge, it has three or more vertices exactly when the points are not collinear, and then every vertex is a strict left turn |
| ConvexHull.HullDiffers | routing.go:590-606 | the two chains joined pass every vertex once |
| PipelineExecutor.EveryRunKeeps | pipelines.go:502-568 | in every interleaving each step is in exactly one place: unfed, with one worker, in the results, or completed |
| PipelineProgress.SendNeverBlocks | pipelines.go:515-543 | the results channel always has room for a worker that reports |
| PipelineProgress.NeverStuck | pipelines.go:502-568 | until the executor returns some event other than the caller's cancellation is enabled |
| PipelineProgress.EveryEventCounts | pipelines.go:502-568 | every event decreases a measure |
| PipelineProgress.RunsAreBounded | pipelines.go:502-568 | no interleaving is longer than the initial measure |
| PipelineProgress.EveryRunCanReturn | pipelines.go:502-568 | every partial run can be completed without help from the caller |
| PipelineLineage.AssembleLineage | pipelines.go:570-579 | the final loop builds the lineage from the completed steps |
| PipelineLineage.ReturnedLineage | pipelines.go:553-580 | on return there is one entry per step in definition order, the steps that ran are a prefix, a nil error means that all ran and succeeded, and any other error names what failed |
| PipelineLineage.FirstFailureIsReturned | pipelines.go:556-568 | the error is that of the failure the collector takes first, whatever fails after it; without a failure that the caller gave up, if so, and else none |
| PipelineOrder.StartsInOrder | pipelines.go:545-552 | steps start in definition order, each at most once, whatever the parallelism |
| PipelineOrder.BoundedParallelism | pipelines.go:503-543 | at most as many steps run at once as the parallelism and the number of steps allow |
| PipelineOrder.ParallelismIff | pipelines.go:503-543 | n steps can be under way at once exactly when there are n and the parallelism, at least one, allows them |
| PipelineOrder.OneWorkerIsSequential | pipelines.go:503-543 | with one worker a step starts only when all earlier ones have ended |
| PipelineFailure.FailsAfterIff | pipelines.go:502-580 | for any parallelism, there is a run that returns the failure of step k after exactly the first m steps have run exactly when k < m and there are m steps |
| PipelineFailure.LaterStepMayRunIff | pipelines.go:502-580 | a run that returns the failure of step k can have run a later step exactly when k is not the last |
| PipelineFailure.StartsLateIff | pipelines.go:521-568 | after the failure of step k is collected and the run cancelled, step j can still start exactly when it is a later one |
| PipelineFailure.FailureMayNotStopTheNextStep | pipelines.go:521-552 | an instance of that: two steps and one worker |
| PipelineDefinition.Validate | pipelines.go:125-177 | accepts exactly the acceptable definitions and returns their normal form; otherwise the error names a rule the definition breaks, the first of them in the order of checking |
| PipelineDefinition.ValidatedIff | pipelines.go:125-177 | a definition is accepted exactly when its trimmed parts are within the limits, every step has a name and a result-producing statement, and no two step names agree in lower case; the result differs in trimming and defaults only |
| PipelineDefinition.FirstBreachIsReported | pipelines.go:125-177 | validation fails with an error exactly when the definition breaks the rule it names and none that is checked before |
| PipelineDefinition.NormalMeaning | pipelines.go:126-158 | the normal form trims names, description and statements, sets a parallelism below one to one, and changes nothing else |
| PipelineDefinition.ValidationIdempotent | pipelines.go:125-177 | what validation accepts it accepts again unchanged |
| PipelineRows.HistoryIsRows | pipelines.go:262-276 | a name's history is its rows in the order of saving |
| PipelineRows.ListedMeaning | pipelines.go:424-428 | listing changes nothing but a parallelism below one, which it reads as one |
| PipelineRows.SaveKeeps | pipelines.go:181-215 | saving continues its own name's numbering and leaves other names alone |
| PipelineRows.DeleteKeeps | pipelines.go:438-448 | deleting keeps the numbering of every other name |
| PipelineRows.LoadedIs | pipelines.go:217-234 | a name has exactly the versions 1 to n, and each loads the row saved at that turn |
| PipelineRows.LatestIs | pipelines.go:225-227 | without a number the row saved last under the name is loaded |
| PipelineRows.SavedIsLoaded | pipelines.go:181-234 | what was just saved is loaded, by its number and without one |
| PipelineRows.DeleteReusesVersions | pipelines.go:436-448 | an instance of a version that changes: save, delete and save again |
| PipelineImport.ImportAddsNew | pipelines.go:352-388 | an import of acceptable definitions appends exactly those not stored yet, each once, in candidate order, and counts the others as skipped |
| PipelineImport.ImportKeeps | pipelines.go:352-388 | whatever a bundle holds, an import only appends and keeps versions consecutive and definitions valid |
| PipelineImport.ImportStopsAt | pipelines.go:354-358 | the first unacceptable definition stops the import with its error, and what came before it stays saved |
| PipelineImport.ReimportAddsNothing | pipelines.go:308-389 | receiving an accepted bundle again, also after other saves, adds nothing and skips everything |
| PipelineImport.ImportRestoresOrder | pipelines.go:345-351 | however an export orders its rows, sorting for the import restores each name's versions |
| PipelineImport.ReceivedInOrder | pipelines.go:345-388 | what an import adds comes by lower-cased name, however the bundle is ordered and however the import ends |
| PipelineImport.RefusalMeaning | pipelines.go:311-343 | which bundles are refused, why, and which reason goes before which |
| PipelineImport.ImportOfExport | pipelines.go:278-389 | an export received by an empty store gives every name its old definitions, each once, in order of first version, numbered from 1, if it is within both limits, and is refused without effect otherwise |
| PipelineImport.ExportIsImportable | pipelines.go:311-343 | an export is accepted exactly when it takes at most 16 MiB and the store holds at most 512 versions; otherwise which limit is reported |
| PipelineLimits.ManyVersionsAreRefused | pipelines.go:181-343 | after 513 or more saves of a small pipeline the export is refused for their number |
| PipelineLimits.LargeStore | pipelines.go:125-215 | a pipeline of 32 queries of 65,536 characters is acceptable and can be saved any number of times |
| PipelineLimits.LargeVersionsAreRefused | pipelines.go:278-321 | with 8 or more versions of it the export is refused for its size |
| PipelineStore.PipelineStore.ListVersions | pipelines.go:262-276 | lists exactly the listed rows of the trimmed name, each as often as it is stored, in order of their versions; none for a blank name |
| PipelineStore.HistoryMeaning | pipelines.go:262-276 | a history is in order of versions and holds exactly the rows of its name |
| PipelineStore.LoadedMeaning | pipelines.go:217-234 | in any table, without a number a row of the name's greatest version, else one of the version asked for, and nothing exactly if there is none |
| PipelineStore.PipelineStore.LoadPipeline | pipelines.go:217-234 | without a number the name's greatest version, else the version asked for, and nothing exactly if there is none |
| PipelineStore.PipelineStore.SavePipeline | pipelines.go:181-215 | refuses an invalid definition, else appends one row with the normal form, the next version and the time of saving, and changes none; in a good table that row is then loaded by its number and without one |
| PipelineStore.PipelineStore.DeletePipeline | pipelines.go:438-448 | removes every version of the name and nothing else |
| PipelineStore.PipelineStore.WriteBundle | pipelines.go:282-306 | the bundle holds exactly the stored rows, by lower-cased name and then by version |
| PipelineStore.PipelineStore.LookUp | pipelines.go:363-379 | the cache of known definitions always agrees with the table |
| PipelineStore.PipelineStore.ReadBundle | pipelines.go:311-389 | a reader that is missing or fails, more than 16 MiB, text that does not decode or does not end after one value, another format or schema version, and more than 512 definitions are refused, in that order, and change nothing; otherwise the table, the rows reported and the skip count are those of the specified import, and an error keeps what was saved before it |
| PipelineStore.EveryRunKeeps | pipelines.go:181-448 | in every run of saves, imports and deletes each name's versions are 1 to n and all definitions are valid |
| PipelineStore.EveryRunKeepsDates | pipelines.go:181-448 | in every run all versions of a name have one time of creation, that of writing the first |
| PipelineStore.StoredVersionsNeverChange | pipelines.go:179-234 | as long as its name is not deleted, a stored version loads the same row after any run |
| PipelineStore.StepKeepsVersionsIff | pipelines.go:181-448 | an operation leaves all stored versions of a name loading the same rows exactly when it is not a delete of that name |
| PipelineStore.VersionsAlwaysKeptIff | pipelines.go:179-448 | throughout a run they load the same rows exactly when the run never deletes the name |
| LineSimplify.Simplifier.KeptWithinTolerance | map_export.go:625-643 | every dropped point is within the tolerance of the line through the kept points around it |
| LineSimplify.Simplifier.EndsOnlyIff | map_export.go:625-643 | only the ends of a stretch are kept exactly when every inner point is within the tolerance of the line through them |
| LineSimplify.Simplifier.KeptDivides | map_export.go:625-643 | every inner point kept is out of tolerance of the line between two other points kept, and the first to be farthest from it of those between them |
| LineSimplify.Simplifier.KeptPointsIdempotent | map_export.go:625-643 | keeping again keeps everything |
| LineSimplify.Simplifier.FindFarthest | map_export.go:629-637 | the scan finds the first inner point of greatest distance |
| LineSimplify.Simplifier.DouglasPeucker | map_export.go:625-643 | the recursion sets exactly the flags of the points kept strictly inside its range and clears none |
| LineRings.SimplifyLine | map_export.go:584-615 | keeps positions such that every dropped point is within the tolerance and every inner kept one was needed, closes rings, and falls back on the line as it was exactly when the tolerance is not positive or too few points come in or remain |
| LineRings.SimplifiedExactly | map_export.go:584-615 | that, for the specified line |
| LineRings.StraightenedIff | map_export.go:584-643 | an open line is simplified to its two ends exactly when every inner point is within the tolerance of the line through them |
| LineRings.SimplifyPolygon | map_export.go:617-623 | every ring is simplified as a closed ring of at least four points |
| LineRings.SimplifyKeepsShape | map_export.go:584-643 | the result is a subsequence of the input with both ends, within the tolerance everywhere |
| LineRings.RingStaysRing | map_export.go:584-615 | a closed ring of four or more points stays one |
| LineRings.RingClosedIff | map_export.go:594-614 | simplified as a ring, a line ends up closed exactly when it was closed, or the tolerance is positive, it has more than the least number of points, and enough of them are kept |
| LineRings.SimplifyIdempotent | map_export.go:584-643 | simplifying again changes nothing |
| Geometry.PositionRead | map_export.go:658-674 | a position is an array that begins with its x and its y |
| Geometry.ItemRead | map_export.go:676-728 | an item that does not read as a position, or as a line or polygon with something in it, is skipped |
| Geometry.ItemsRead | map_export.go:676-728 | items are read one by one, in order |
| Geometry.PointsOf | map_export.go:551-578 | the points of a geometry are those of all its lines, all rings of all its polygons, and all its children |
| Geometry.ExplodeConservesPoints | map_export.go:419-458 | exploding conserves the sequence of points at any depth |
| Geometry.ExplodeParts | map_export.go:419-458 | exploding gives one point, line or polygon, with all its rings, for each that a multi-part geometry has |
| Geometry.ExplodeIsSimple | map_export.go:419-458 | no multi-part geometry and no collection is left |
| Geometry.ExplodeIdempotent | map_export.go:419-458 | exploding again changes nothing |
| Geometry.GeometryBBox | map_export.go:535-578 | there is a box exactly when there is a point, and it is the tight one |
| Geometry.ExplodeKeepsBBox | map_export.go:419-549 | exploding keeps the bounding box |
| Geometry.SimplifyActs | map_export.go:472-495 | simplifying keeps the kind and acts on each line as an open line of two points or more and on each ring as a closed one of four |
| Geometry.PolygonStaysPolygon | map_export.go:472-495 | a polygon of closed rings of four points keeps as many of them |
| Geometry.SimplifyKeepsSomePoints | map_export.go:472-495 | simplifying a geometry adds no point and leaves some if there were any |
| Geometry.SimplifyNeverEnlarges | map_export.go:472-549 | simplifying never enlarges the bounding box |
| Geometry.ExplodeAndSimplifyCommute | map_export.go:419-495 | for anything but a collection the two transformations commute |
| Geometry.ExplodeAndSimplifyCommuteIff | map_export.go:419-495 | they commute exactly for what is no collection or has only parts that simplifying leaves alone |
| Geometry.CollectionsMustBeExplodedFirst | map_export.go:472-495 | an instance in which they do not: a collection of one straight line of three points |
| DbfNames.FieldNamer.SafeDBFFieldName | map_export.go:1043-1072 | always terminates with an unused name, the cleaned one if that is free, else the one with the first free suffix from 2 on; at most ten bytes while fewer than ninety names are in use |
| DbfNames.CleanedRune | map_export.go:1043-1049 | cleaning drops a rune that is no letter, digit or underscore and upper-cases any other where it stands |
| DbfNames.BaseOfClean | map_export.go:1050-1056 | a clean name is used up to ten bytes; one of which nothing is left is FIELD |
| DbfNames.CandidateFits | map_export.go:1060-1067 | a candidate is the name and a suffix, the name cut only as far as ten bytes demand |
| DbfNames.FreeTwoDigitSuffix | map_export.go:1058-1070 | fewer than ninety names cannot use up the candidates with a two-digit suffix |
| DbfNames.CandidatesDiffer | map_export.go:1060-1067 | suffixes leaving the same room give different names |
| DbfNames.ShapefileFields | map_export.go:1032-1041 | one name per property, its own cleaned name as far as the names before it leave that free; all different, of at most ten bytes for up to 64 properties |
| DbfNames.ShapefileFieldNames | map_export.go:1014-1030 | the property names have a sorted order without repetitions, and the first 64 in it are returned |
| DbfNames.SortedKeysUnique | map_export.go:1022-1026 | there is only one such order |
| LogicIndex.Table.ApplyLogicIndex | logic_search.go:223-305 | the loops over definitions, batches and stale names leave the specified rows, whatever calls fail; the numbers of skipped, indexed and removed objects and of errors, that of warming the vector index included, are exact |
| LogicIndex.NoErrorsIff | logic_search.go:249-285 | storing reports no error exactly when everything pending was indexed |
| LogicIndex.Table.StoreBatches | logic_search.go:249-285 | batches of sixteen store every pending definition whose calls succeed and leave those of a failed batch alone |
| LogicReindex.ReindexLeavesOthers | logic_search.go:223-305 | whatever fails, rows of other connections stay as they are, in order |
| LogicReindex.ReindexKeepsOneRowEach | logic_search.go:262-283 | whatever fails, no object ends up with two rows, on any connection |
| LogicReindex.ViewOfReindexed | logic_search.go:223-285 | a defined object keeps its row if its hash matches, has a fresh one if nothing fails, and never anything else |
| LogicReindex.ViewOfGone | logic_search.go:287-302 | an object no longer defined loses its row |
| LogicFaults.PendingIff | logic_search.go:237-246 | an object is embedded unless its look-up succeeds and finds its hash under the model in use |
| LogicFaults.PendingAfter | logic_search.go:249-285 | whatever fails, it then keeps its row, loses it or has a fresh one, as its batch of sixteen, its encoding, its delete and its insert went |
| LogicFaults.GoneAfter | logic_search.go:287-302 | whatever fails, an object no longer defined keeps its row only if the names cannot be listed or its delete fails |
| LogicFaults.IndexedAreFresh | logic_search.go:249-285 | if every look-up succeeds, the objects counted as indexed are the pending ones that have a fresh row afterwards |
| LogicFaults.RemovedAreGone | logic_search.go:287-302 | the rows counted as removed are those no longer there |
| LogicReindex.ReindexEqualsRebuildIff | logic_search.go:223-305 | starting from at most one row per object, distinct names and vectors that belong to their hashes, a run without failures leaves the rows of a rebuild exactly when no skipped object has changed its kind |
| LogicReindex.SameRowsMeans | logic_search.go:223-305 | agreeing object by object means having the same rows |
| LogicReindex.KindChangeIsMissed | logic_search.go:237-243 | an object whose kind alone changed keeps the old kind |
| LogicReindex.ReindexIdempotent | logic_search.go:223-305 | with distinct names, repeating a successful run leaves the table exactly as it is |
| LogicReindex.ReindexIdempotentIff | logic_search.go:223-305 | from at most one row per object, repeating a successful run changes nothing exactly when definitions of one name have one hash |
| LogicReindex.RecoversIff | logic_search.go:223-305 | from such a start, after any number of runs of any definitions, models and connections with any failures, one successful run leaves the rows of a rebuild exactly when it skips no object that has changed its kind |
| LogicReindex.RecoversFromFailures | logic_search.go:223-305 | in particular it does if the kinds agree at first and no definition of an earlier run differs in its kind alone |
| LogicReindex.SharedNamesAlternate | logic_search.go:237-283 | an instance in which it does: two definitions of one name and different hashes replace each other for ever |
| LogicSearch.SearchObjectLogic | logic_search.go:334-362 | the widened window with its fall-back returns the top k of the scoped exact search, with the name, kind and score of the row at each rank |
| LogicSearch.WindowIsPrefix | queries.go:256-265 | what a window finds in scope is the beginning of the exact scoped ranking |
| LogicSearch.WindowIsExact | logic_search.go:347-354 | a window with enough hits agrees with the exact search |
| LogicSearch.TopKMeaning | queries.go:247-254 | only rows in scope, best first, as many as there are up to k, and none left out is better |
| MapTileScanner.ReadVarint | map_tiles.go:299-313 | reads at most ten bytes from the shared cursor, never beyond the buffer, and moves the cursor over exactly what the specification reads |
| MapTileScanner.ReadBytes | map_tiles.go:315-323 | a length and that many bytes, refused when they do not fit |
| MapTileScanner.SkipField | map_tiles.go:325-341 | skips wire types 0, 1, 2 and 5 and refuses others |
| MapTileScanner.LayerName | map_tiles.go:278-297 | the first field 1 of wire type 2 in a layer, empty if there is none or the bytes are malformed |
| MapTileScanner.LayerNames | map_tiles.go:251-276 | on arbitrary bytes terminates with the names of the specified scan |
| MapTileScanner.FieldAt | map_tiles.go:254-273 | every successful field advances the cursor within the buffer |
| MapTileScanner.TruncationKeepsAPrefix | map_tiles.go:251-276 | the names found in a truncated tile are a prefix of those found in the whole |
| MapTileEncoding.BitsStayDisjoint | map_tiles.go:299-313 | or-ing a digit in leaves the bits below the next shift |
| MapTileEncoding.OrIsSum | map_tiles.go:306 | so the bitwise or with a shifted digit, cut off at 64 bits, is a sum |
| MapTileEncoding.VarintRoundTrip | map_tiles.go:299-313 | reading recovers every 64-bit value and consumes exactly its encoding |
| MapTileEncoding.VarintReads | map_tiles.go:299-313 | any varint of up to ten bytes, canonical or not, is read as its value modulo 2 to the 64 |
| MapTileEncoding.VarintKeepsValueIff | map_tiles.go:299-313 | such a varint is read with its value exactly when that is below 2 to the 64 |
| MapTileEncoding.ExcessBitsAreLost | map_tiles.go:299-313 | an instance: ten bytes that stand for 2 to the 64 are read as zero without an error |
| MapTileEncoding.VarintReadIff | map_tiles.go:299-313 | reading succeeds exactly when one of the next ten bytes ends a varint |
| MapTileEncoding.FieldRoundTrip | map_tiles.go:254-273 | scanning recovers any encoded field and consumes exactly its encoding |
| MapTileEncoding.UnknownWireEnds | map_tiles.go:325-341 | wire types other than 0, 1, 2 and 5 end a scan |
| MapTileEncoding.CutFieldEnds | map_tiles.go:299-341 | so does a field that is cut off |
| MapTileEncoding.LayerNameOfEncoded | map_tiles.go:278-297 | the name of a layer is its first name field's, of those before its bytes end or stop being fields |
| MapTileEncoding.TileRoundTrip | map_tiles.go:251-297 | an encoded tile, with unrelated fields anywhere and rubbish at the end of it or of any layer, gives its distinct non-empty layer names in order of first occurrence |
| FixedWidth.InferFixedWidthFields | internal/importer/fixedwidth.go:74-109 | the nested loops and the scan compute the specified fields |
| FixedWidth.SliceFixedWidthFields | internal/importer/fixedwidth.go:111-128 | each cell is its field's part of the line, trimmed, empty beyond its end |
| FixedWidth.FieldsPartition | internal/importer/fixedwidth.go:74-109 | fields are ordered, disjoint, non-empty and cover exactly the positions where some line is not blank |
| FixedWidth.InkedMeans | internal/importer/fixedwidth.go:74-92 | a position is inside a field exactly when some line goes on there and has neither a blank nor a tab |
| FixedWidth.SliceMeaning | internal/importer/fixedwidth.go:111-128 | a cell is the trimmed part of the line between the field's ends, as far as the line goes |
| FixedWidth.SameCoverage | internal/importer/fixedwidth.go:74-109 | separated fields are determined by what they cover |
| FixedWidth.SlicingKeepsInk | internal/importer/fixedwidth.go:74-128 | slicing any of the lines keeps every rune that is not white space, in order |
| FixedWidth.RenderRoundTrip | internal/importer/fixedwidth.go:74-128 | rendering records with one blank between columns and re-slicing returns the columns and the records |
| ConnectionRegistry.EveryRunIsSound | connections.go:175-429 | in every run some connection has the built-in ID and everything named (active, default, choices, persisted) is an existing open connection under its own ID |
| ConnectionRegistry.AddedAsBuiltInIff | connections.go:334-371 | a connection ends up under the built-in ID exactly when it asks for it and is shared or sees the one there |
| ConnectionRegistry.BuiltInKeptIff | connections.go:205-429 | an operation keeps the database under the built-in ID exactly when it adds no other one there |
| ConnectionRegistry.AlwaysBuiltInIff | connections.go:205-429 | a run keeps it throughout exactly when none of its operations adds another there |
| ConnectionRegistry.BuiltInIsLastAdded | connections.go:205-429 | after any run it is that of the last connection added there, so no other operation brings the first one back |
| ConnectionRegistry.AddUnderBuiltInId | connections.go:334-348 | an instance: added first, it leaves no trace of the built-in connection |
| ConnectionRegistry.FirstFree | connections.go:363-370 | the loop over variants of an ID ends, at the first that is not taken |
| ConnectionRegistry.VariantNames | connections.go:363-370 | the variants are the ID with the session's tag, then with a number from 2 on |
| ConnectionRegistry.FewTaken | connections.go:363-370 | no more variants can be taken than there are connections |
| ConnectionRegistry.PrivateAddSparesOthers | connections.go:334-371 | adding a private connection never replaces one its session cannot see |
| ConnectionRegistry.RepeatedAddReusesId | connections.go:350-371 | adding it again reuses its ID, whatever private connections were added and whichever were chosen in between |
| ConnectionRegistry.PrivateIsPrivate | connections.go:306-323 | a private connection under a trimmed ID is found by its own session and by no other |
| ConnectionRegistry.IsolationEndsIff | connections.go:205-429 | exactly the exposing operations make a private connection a fall-back, a persisted one or another session's choice |
| ConnectionRegistry.AlwaysIsolatedIff | connections.go:205-429 | a run stays isolated throughout exactly when none of its operations is an exposing one |
| ConnectionRegistry.PrivateAddUnderBuiltInId | connections.go:334-371 | an instance of that: a private connection under the built-in ID becomes every session's fall-back |
| ConnectionRegistry.ActiveIsVisible | connections.go:287-296 | every session always has an active connection, which it may see while the registry is isolated |
| ConnectionRegistry.RefusedIff | connections.go:226-429 | which operations are refused, and why |
| ConnectionRegistry.FallBackChanges | connections.go:382-414 | a new active or default connection becomes that of every session without a choice, and of no other |
| ConnectionRegistry.RemovedIsGone | connections.go:226-254 | a removed connection is found by nobody, and whoever had chosen it falls back |
| ConnectionRegistry.PersistShares | connections.go:205-212 | a connection marked as persisted is seen by every session, and no other connection changes |
| ConnectionRegistry.UnmarkKeepsShared | connections.go:217-221 | taking the mark away changes nothing else |
| ConnectionRegistry.ChoiceIsOnesOwn | connections.go:416-429 | a session's choice matters to it alone; without a session the fall-back is chosen |
| ConnectionRegistry.FoundIff | connections.go:306-323 | a look-up finds exactly what is there and shared or the session's own |
| ConnectionRegistry.ChoiceIsActiveIff | connections.go:287-429 | for any text as a session, its choice is found again exactly when the text is trimmed or blank, or nothing changed |
| ConnectionRegistry.SanitizedIsTrimmed | session.go:203-214 | what requests use as a session is trimmed, or empty |
| ConnectionRegistry.ChoiceIsFound | connections.go:287-429 | a request's choice is always found again and exposes no private connection |
| ConnectionRegistry.RebindMovesOneSession | connections.go:268-285 | rebinding hands over what one session owns, sees and has chosen, and nothing of any other |
| ConnectionRegistry.RebindKeepsActive | connections.go:268-296 | a rebound session keeps its active connection |
| ConnectionManager.ConnectionManager.constructor | connections.go:188-197 | starts with the built-in connection alone |
| ConnectionManager.ConnectionManager.MarkPersisted | connections.go:205-212 | marks and shares an existing connection |
| ConnectionManager.ConnectionManager.UnmarkPersisted | connections.go:217-221 | removes only the mark |
| ConnectionManager.ConnectionManager.Remove | connections.go:226-254 | drops and closes the connection and every reference to it; the built-in one cannot be removed |
| ConnectionManager.ConnectionManager.RebindSession | connections.go:268-285 | the loop over connection objects moves exactly the old session's ownership |
| ConnectionManager.ConnectionManager.DisambiguateId | connections.go:359-371 | the unbounded loop terminates with the specified ID |
| ConnectionManager.ConnectionManager.Add | connections.go:334-348 | registers any object under its possibly changed ID and closes what it replaces, save the built-in one and what has no database; the manager stays valid exactly when the object ends up open, and one registered before closes itself if it replaces itself |
| ConnectionManager.ConnectionManager.SetActive | connections.go:382-390 | only an existing connection becomes active |
| ConnectionManager.ConnectionManager.SetDefault | connections.go:401-414 | only an existing shared connection becomes the default |
| ConnectionManager.ConnectionManager.SetActiveFor | connections.go:416-429 | a session chooses among the connections it sees |
| ConnectionManager.ConnectionManager.ActiveFor | connections.go:287-296 | the session's choice, else the fall-back |
| ConnectionManager.ConnectionManager.GetFor | connections.go:315-323 | an existing connection that the session sees, else none |

## Left out

- Reading the routing table: parsing of numbers and JSON, the row limit, and the normalisation of cost
  field names; the model starts from nodes, edges and a cost field.
- Choosing the nearest node for a coordinate, and the GeoJSON around route lines and hulls; a hull of
  fewer than three vertices is proved to be the collinear case, in which no polygon is drawn.
- The route summary's distance in metres, which adds up arc distances along the same route.
- Floating point: rounding, NaN and infinities in costs, coordinates, distances and scores.
- What a pipeline step's statement does and how its lineage row is filled beyond ran, failed or skipped;
  recording and listing runs; the list of latest versions.
- The JSON encoding of bundles: the encoded size and the outcome of decoding are parameters. Definitions
  are compared as values, which takes the digest of their canonical form to be injective.
- Byte lengths against characters: names, descriptions and statements are character sequences, and
  limits count characters.
- RoutingPath.ReconstructRoutingPath: requires acyclic predecessors, which every search result has;
  on a cycle the code would not return.
- LogicIndex.Table.ApplyLogicIndex: of the reported errors the number is stated, not the text.
- The `updated_at` column and creation of the embeddings table; a failing look-up reads as no hash, as
  in the code.
- LogicSearch.SearchObjectLogic: checks of the request, the connection and the model come before it;
  the table's order breaks ties, and the approximate index mode is not modelled.
- Geometry values other than GeoJSON's own nesting: lists already typed by the program, which can hold
  empty lines, and properties of features.
- Opening, pinging and closing of databases, cross-database handles, row count caches and listings of
  connections; a connection's database is a flag for open or closed, and whether it has one.
- The other methods of the connection manager require a valid one, whose connections are open and
  registered once; `Add` says for which objects it stays so.
- Locks: operations on the connection manager and on the stores are atomic. Interleavings are modelled
  in the worker pool only.
- HTTP handlers, sessions, settings, authentication and the other exports, which would add only easy
  members.
