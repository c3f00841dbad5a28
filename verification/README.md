# osgGIS: a verified model of its algorithms

osgGIS compiles geographic features into scene graphs. Most of it calls GDAL and OpenSceneGraph; this project models
the parts whose algorithms are its own, and proves what each is for. Coordinates are exact reals and all points are in
one spatial reference system.

| file | what it models |
|---|---|
| Basics.dfy | options, counts and signs that several files use |
| Geometry.dfy | points, segments and polylines as sets of points |
| CropLine.dfy | clipping a line part to a window (CropFilter) |
| PolygonWalk.dfy, CropPolygon.dfy, PolygonStages.dfy | clipping a polygon part to a window (CropFilter): the walk round a ring, the traversal that joins its pieces, the four stages |
| CropComplete.dfy, JoinedRuns.dfy, NestedRings.dfy | what that clipper keeps of any polygon, what edges its output has, and what the traversal puts together from rings whose crossings do not get in each other's way |
| ConvexCrop.dfy, ConvexRegion.dfy | what that clipper does for a convex polygon given counter-clockwise: it stays in the window, and its region is cut exactly |
| SegmentClip.dfy | clipping a segment to a box (LineSegmentIntersector2) |
| ConvexHull.dfy, HullOrders.dfy | the Graham scan (ConvexHullFilter): the scan and its comparator, and for which points every order the sort may leave gives a hull that holds them all |
| CombineLines.dfy, CombineMixed.dfy, CombineMaximal.dfy | joining lines that share ends (CombineLinesFilter): the worklist and what it conserves, where it does not, and when no two output parts share an end |
| TaskManager.dfy | the task manager and its workers, as a step system and as the classes that perform its steps |
| Metering.dfy, Throughput.dfy | lines of filter states: buffering, grouping and batching (CollectionFilterState, FeatureFilterState), and what comes of each feature |
| Bits.dfy, AlphaBlock.dfy, DxtImage.dfy, PowerOfTwo.dfy | texture encoding and sizes (ImageUtils) |
| SmartReadCallback.dfy | the file cache |
| GridProfile.dfy | the cells, ids and keys of a grid (GriddedMapLayerCompiler) |
| Winding.dfy | area, orientation and winding of rings (Utils, FilterGraph) |
| FeatureCursor.dfy, Densify.dfy, Decimate.dfy | the prefetching cursor and two point filters |

Code that computes is functions and lemmas; code that works step by step is methods over the same loops, proved
against those functions. Where the source states an assumption that the result depends on, the model proves the result
under it and shows what happens without it: a ring that begins with an exit (`CropPolygon.PartsInsideExactlyAfterEntry`,
`PolygonStages.ClockwiseKeepsOutside`), part ends at one position in two dimensions
(`CombineMixed.ConservesExactlyForOneDimension`), a part that joins two others
(`CombineMaximal.VisitKeepsIndexed`, `CombineMaximal.SharedEndpointLeft`), a worker that has not moved on
(`TaskSystem.DispatchIsSafeExactlyWhenSettled`), points on the pivot's vertical, or apart in its lowest direction
(`ConvexHull.StrictWeakExactly`, `HullOrders.HullExactly`), a window without area (`CropLine.ExactExactlyWithArea`), a
cache of capacity below two (`SmartReadCallback.CapacityTwoIsLeast`) or with two entries at one tick
(`SmartReadCallback.ReadCallback.ReadNodeFile`, `SmartReadCallback.TwoNamesAtOneTick`), a block of one alpha
(`AlphaBlock.ConstantAlphaSurvivesExactly`), a word with no power of two above it (`PowerOfTwo.RoundUpToPowerOf2`).
`PolygonStages.CropPolygonPart` answers `Undetermined` where the source would read the front of an emptied list.

Where the source differs from what its names or comments say the model follows the code. The comment that the first
intersection in spatial order is always an entry (src/osgGIS/CropFilter.cpp:416-417) fails for a triangle given
clockwise, of which the clipper puts out the part outside the window; it holds for every convex polygon given
counter-clockwise. The endpoint index of CombineLinesFilter orders points by position, as the vector class they derive
from does, while its joins compare them by an equality that looks at the dimension too: where two parts meet in points
of different dimension a line can be lost and another invented. The comparator of the convex hull is no strict weak
order once a point lies above the pivot and others in two directions from it, and even where it is one all points can
be lost; so can a point of the lowest direction when a nearer one is sorted after it. A cap given to
`roundUpToPowerOf2` (src/osgGIS/ImageUtils.cpp:59) raises the result instead of bounding it.

To check everything: `dafny verify dfyconfig.toml` in this directory.

## Model

| member | source | states |
|---|---|---|
| `CropLine.SideOfLerp` | src/osgGIS/CropFilter.cpp:185-190 | the value whose sign pointInsideOrOnLine tests changes linearly along a segment |
| `CropLine.CrossingExists` | src/osgGIS/CropFilter.cpp:202-232 | between points on different sides getIsectPoint never fails: it gives, in plan, a point of the segment that lies on the line |
| `CropLine.CoherentCrossing` | src/osgGIS/CropFilter.cpp:202-232 | the same in all three coordinates for points of one dimension |
| `CropLine.InsideUpTo` | src/osgGIS/CropFilter.cpp:185-190 | along a segment that crosses the line, the inside points are those up to, or from, the crossing |
| `CropLine.Convex` | src/osgGIS/CropFilter.cpp:185-190 | points between two points on one side are on that side |
| `CropLine.ClipLeaving` | src/osgGIS/CropFilter.cpp:589-602 | replacing the far end by the crossing leaves exactly the part of a leaving segment inside the line |
| `CropLine.ClipEntering` | src/osgGIS/CropFilter.cpp:570-586 | the same for a segment that enters |
| `CropLine.CropPartAgainstLine` | src/osgGIS/CropFilter.cpp:563-611 | one polyline against one line: the pieces cover exactly its points inside, each piece with at least two points; put together they are the points inside and the crossings in the order of the polyline |
| `CropLine.TraceHolds` | src/osgGIS/CropFilter.cpp:563-611 | the points inside a polyline come out of one line in their order |
| `CropLine.SurvivingHas` | src/osgGIS/CropFilter.cpp:548-562 | the points left by the four lines in turn are those inside all of them |
| `CropLine.CropStage` | src/osgGIS/CropFilter.cpp:548-614 | one pass over all working parts: together they cover exactly the points inside the line, with the vertices inside in their order |
| `CropLine.CropLinePart` | src/osgGIS/CropFilter.cpp:541-616 | the output covers exactly the input line intersected with the four boundary half-planes, which for a window with area is the window; no output part has fewer than two points; the vertices inside all lines come out in their order |
| `CropLine.EdgesBoundExtent` | src/osgGIS/CropFilter.cpp:555-562 | for a window with area a point is inside the window just when it is inside all four lines |
| `CropLine.ExactExactlyWithArea` | src/osgGIS/CropFilter.cpp:555-562 | the four lines describe a valid window exactly when it has area: a window of no width or height lets points through |
| `CropLine.ClippedByWindow` | src/osgGIS/CropFilter.cpp:548-562 | clipping by the four lines in turn is intersecting with all of them |
| `SegmentClip.CutAt` | src/osgGIS/LineSegmentIntersector2.cpp:422-432 | the clip expression moves an end to the point of the segment on the face; its divisor is not zero there |
| `SegmentClip.StretchInSlab` | src/osgGIS/LineSegmentIntersector2.cpp:415-450 | the points of the segment in one slab are those between the two clipped ends |
| `SegmentClip.ClipAxis` | src/osgGIS/LineSegmentIntersector2.cpp:412-450 | one axis: a rejected segment misses the slab, any other becomes exactly its intersection with the slab, in the same direction |
| `SegmentClip.IntersectAndClip` | src/osgGIS/LineSegmentIntersector2.cpp:412-533 | false exactly when the segment misses the box; otherwise the new ends are those of its intersection with the box, in the original direction |
| `ConvexHull.LesserIsLeftTurn` | src/osgGIS/ConvexHullFilter.cpp:98-110 | for points beside the pivot the comparator is the left turn about it |
| `ConvexHull.TurnTransitive` | src/osgGIS/ConvexHullFilter.cpp:98-110 | left turns about the pivot are transitive for such points |
| `ConvexHull.StrictWeakExactly` | src/osgGIS/ConvexHullFilter.cpp:98-110 | std::sort gets a strict weak order of the points about their pivot if and only if none of them is on the vertical through it, or all that are not lie in one direction from it |
| `ConvexHull.ComparableExactlyOffVertical` | src/osgGIS/ConvexHullFilter.cpp:98-110 | a point no lower than the pivot is comparable to one of any two points that differ in angle, exactly when it is not on the vertical |
| `ConvexHull.LeftThrough` | src/osgGIS/ConvexHullFilter.cpp:160-163 | a left turn carried over the next point of the fan stays a left turn |
| `ConvexHull.DropKeepsLater` | src/osgGIS/ConvexHullFilter.cpp:165-169 | dropping a point that does not turn left keeps the later points left of the new edge |
| `ConvexHull.LeftKeepsEarlier` | src/osgGIS/ConvexHullFilter.cpp:165-169 | accepting a left turn keeps the earlier points left of the new edge |
| `ConvexHull.NewPointLeftOfEdges` | src/osgGIS/ConvexHullFilter.cpp:147-171 | a new point accepted at the end is left of every edge of the chain |
| `ConvexHull.Accept` | src/osgGIS/ConvexHullFilter.cpp:152-171 | accepting a point keeps: left turns throughout and every point seen on or left of every edge |
| `ConvexHull.Drop` | src/osgGIS/ConvexHullFilter.cpp:165-169 | so does dropping one, and there are always three points to drop from |
| `ConvexHull.Close` | src/osgGIS/ConvexHullFilter.cpp:140-141 | reaching the pivot again closes a hull that encloses all points |
| `ConvexHull.BuildHull` | src/osgGIS/ConvexHullFilter.cpp:147-178 | in place with the retreating index: the result is the scan of the model, without its last point if the loop is left open |
| `ConvexHull.InsertByAngle` | src/osgGIS/ConvexHullFilter.cpp:136-137 | insertion by the comparator keeps the list sorted and its points |
| `ConvexHull.StdSort` | src/osgGIS/ConvexHullFilter.cpp:136-137 | a list sorted by the comparator with the same points, for any list the comparator orders strictly and weakly: what std::sort promises, under its own premise |
| `ConvexHull.FindPivot` | src/osgGIS/ConvexHullFilter.cpp:117-131 | the lowest point, the leftmost of equally low ones |
| `ConvexHull.ScanMakesHull` | src/osgGIS/ConvexHullFilter.cpp:147-178 | for any input the scan leaves some of its points, in order, with the same ends and left turns only; for a closed fan it leaves a ring with every point on or left of each edge |
| `ConvexHull.SortPoints` | src/osgGIS/ConvexHullFilter.cpp:114-142 | a pivot first and last, and between them the other points as sorted by the comparator |
| `HullOrders.ScanIsPushes` | src/osgGIS/ConvexHullFilter.cpp:147-171 | the scan with its retreating position is pushing the points one by one on a stack from which those that do not turn left are taken |
| `HullOrders.FarAfterNear` | src/osgGIS/ConvexHullFilter.cpp:152-171 | a point nearer to the pivot, before a farther one in its direction, makes no difference to the stack |
| `HullOrders.NearAfterFar` | src/osgGIS/ConvexHullFilter.cpp:152-171 | after a farther one it is dropped by the next point, unless the direction is the lowest |
| `HullOrders.RisingIsGood` | src/osgGIS/ConvexHullFilter.cpp:136-171 | points in the order of their angles, equal ones in any order: where not all angles are equal and the points in the lowest direction coincide the scan leaves a hull of all of them |
| `HullOrders.VerticalCollapses` | src/osgGIS/ConvexHullFilter.cpp:98-110 | with a point on the pivot's vertical the sort, where it is defined, may leave an order whose scan loses every point but the pivot |
| `HullOrders.LowestApartIsBad` | src/osgGIS/ConvexHullFilter.cpp:136-171 | with two points of the lowest direction at different distances it may leave an order whose scan loses the farther one |
| `HullOrders.HullExactly` | src/osgGIS/ConvexHullFilter.cpp:136-171 | where the sort is defined every order it may leave the points in gives a hull that encloses them if and only if none is on the vertical of the pivot, not all are in one direction from it, and those in the lowest direction coincide |
| `HullOrders.HullableExactly` | src/osgGIS/ConvexHullFilter.cpp:114-178 | so for the points handed to the filter, any number of them: the same conditions on their pivots hold if and only if the sort is defined and all its orders give a hull that encloses all points |
| `HullOrders.DistinctAnglesSuffice` | src/osgGIS/ConvexHullFilter.cpp:98-110 | the conditions hold if no other point shares the x of the pivot and no two are in one direction from it |
| `HullOrders.Hull` | src/osgGIS/ConvexHullFilter.cpp:196-214 | for all points std::sort can sort: the result is the scan of an order it may leave, closed or not; its corners are input points and turn left, and where the conditions hold every input point is on or left of every edge |
| `HullOrders.VerticalMayBeLost` | src/osgGIS/ConvexHullFilter.cpp:136-171 | a point on the vertical between a and b may be sorted first; the scan drops it, and encloses all points if and only if it is on or left of the edge a-b |
| `CombineLines.JoinFrontKeepsEdges` | src/osgGIS/CombineLinesFilter.cpp:127-139 | joining at the front keeps the undirected edges of both segments if and only if the front is equal to an end of the other, or the segment has no edge |
| `CombineLines.JoinBackKeepsEdges` | src/osgGIS/CombineLinesFilter.cpp:165-177 | the same for joining at the back |
| `CombineLines.JoinsKeepOther` | src/osgGIS/CombineLinesFilter.cpp:126-180 | a join keeps the segment found in the index as it runs, at one end of the result, which has as many points as the two less one |
| `CombineLines.JoinsKeepDirection` | src/osgGIS/CombineLinesFilter.cpp:136-172 | where the two run head to tail it keeps the direction of both |
| `CombineLines.OutputAt` | src/osgGIS/CombineLinesFilter.cpp:209-221 | each active segment comes out in the place that the number of those before it gives |
| `CombineLines.EdgesOfReversed` | src/osgGIS/CombineLinesFilter.cpp:133-134 | reversing a segment keeps its undirected edges |
| `CombineLines.MergeKeeps` | src/osgGIS/CombineLinesFilter.cpp:141-157 | a merge keeps the worklist invariant and takes one from the active count; it keeps the multiset of edges of the active segments if the join keeps those of its two |
| `CombineLines.VisitKeeps` | src/osgGIS/CombineLinesFilter.cpp:109-207 | every visit, of parts of any dimensions, keeps the invariant (each index entry, stale or not, keyed by the position of an end of its segment; no active segment out of the list; the count exact) and makes the measure (active segments, list left) smaller |
| `CombineLines.VisitKeepsEdges` | src/osgGIS/CombineLinesFilter.cpp:109-207 | where the ends at each position have one dimension every visit keeps the edges of the active segments, and makes no new end |
| `CombineLines.InitIsOk` | src/osgGIS/CombineLinesFilter.cpp:85-103 | the collected segments satisfy the invariant |
| `CombineLines.RunKeeps` | src/osgGIS/CombineLinesFilter.cpp:109-207 | so the worklist ends, with the invariant |
| `CombineLines.RunKeepsEdges` | src/osgGIS/CombineLinesFilter.cpp:109-207 | and under that premise with the same edges |
| `CombineLines.CombineConserves` | src/osgGIS/CombineLinesFilter.cpp:72-231 | if the part ends at each position have one dimension, the output has exactly the undirected edges of the input parts, as a multiset |
| `CombineMixed.ConservesExactlyForOneDimension` | src/osgGIS/CombineLinesFilter.cpp:72-231 | the premise is exact: for given ends all parts that end there are combined without loss if and only if the ends at each position have one dimension |
| `CombineMixed.MixedDimensionsMisjoin` | src/osgGIS/CombineLinesFilter.cpp:123-139 | parts p-x and q-y with p and q at one position in different dimensions come out as p-x-y: the edge q-y is lost and x-y invented |
| `CombineMixed.ClippedPartsMisjoin` | src/osgGIS/CombineLinesFilter.cpp:123-139 | such parts of a two-dimensional layer, one end a point that clipping added: as sets of points the output lacks a line of the input and has one that is not there |
| `CombineLines.CombineShrinks` | src/osgGIS/CombineLinesFilter.cpp:72-231 | for all parts the output has no more parts than the input, none empty |
| `CombineMaximal.VisitKeepsIndexed` | src/osgGIS/CombineLinesFilter.cpp:123-206 | a visit keeps every active segment already passed in the index at both its ends if and only if it does not join at the front while the index holds a third segment at the back |
| `CombineMaximal.CombineIsMaximal` | src/osgGIS/CombineLinesFilter.cpp:72-231 | if no visit hides a segment in that way, no two output parts share an end |
| `CombineMaximal.MaximalUnlessBridged` | src/osgGIS/CombineLinesFilter.cpp:72-231 | so no two do if no part goes from one end of earlier parts to another |
| `CombineMaximal.SharedEndpointLeft` | src/osgGIS/CombineLinesFilter.cpp:154-157 | not maximal for all parts: a-b, c-d, c-b with ends at different positions come out as two that still share b |
| `CombineMaximal.HiddenEndTakenUp` | src/osgGIS/CombineLinesFilter.cpp:154-157 | hiding a segment does not mean that ends are shared: with b-e after them a visit hides one, and no two output parts share an end |
| `CombineLines.CollectParts` | src/osgGIS/CombineLinesFilter.cpp:85-103 | one active segment for each non-empty part, in order |
| `CombineLines.MergeSegments` | src/osgGIS/CombineLinesFilter.cpp:141-157 | the merge on segment objects, list, index and counter is the merge of the model |
| `CombineLines.VisitSegment` | src/osgGIS/CombineLinesFilter.cpp:111-206 | the body of the loop on those objects is one visit of the model |
| `CombineLines.Process` | src/osgGIS/CombineLinesFilter.cpp:72-231 | for all parts the loop on those objects ends, and its output is the combination of the parts |
| `CombineLines.CollectOutput` | src/osgGIS/CombineLinesFilter.cpp:209-221 | the points of the active segments in list order: as many as the active count says |
| `TaskSystem.StepKeepsInv` | src/osgGIS/TaskManager.cpp:43-97 | every step of the manager or a worker keeps the system invariant |
| `TaskSystem.RunKeepsInv` | src/osgGIS/TaskManager.cpp:43-97 | so it holds after every run from a world where it holds |
| `TaskSystem.InvConserves` | src/osgGIS/TaskManager.cpp:147-251 | wherever it holds each queued task is in exactly one of pending, held by one thread, completed or handed out, and is started at most once, once by completion |
| `TaskSystem.TasksAreConserved` | src/osgGIS/TaskManager.cpp:147-251 | over every run in which a dispatched or restarted worker moves on before the next update, each queued task is in exactly one of pending, held by one thread, completed or handed out; is started at most once, and once by completion; the running count is the number of threads holding one; dispatch follows queue order |
| `TaskSystem.WaitEndsExactlyWhenDone` | src/osgGIS/TaskManager.cpp:153-193 | wherever the invariant holds the task count that makes wait return false is zero exactly when every queued task has been handed out |
| `TaskSystem.DispatchIsSafeExactlyWhenSettled` | src/osgGIS/TaskManager.cpp:43-82 | the premise is exact: a dispatch followed by the worker's start-up keeps all tasks if and only if the worker had moved on |
| `TaskSystem.StepsMakeProgress` | src/osgGIS/TaskManager.cpp:208-251 | no step but queueing undoes progress: it lowers a measure or moves only the manager's position |
| `TaskSystem.RunMakesProgress` | src/osgGIS/TaskManager.cpp:208-251 | of runs: the steps that change more than the position of the manager, with what is left at the end, are no more than was left at the start and nine for each task queued on the way |
| `TaskSystem.RunsAct` | src/osgGIS/TaskManager.cpp:208-251 | from the start on, with n workers, at most n + 9 * k such steps when k tasks are queued |
| `TaskSystem.NeverStuck` | src/osgGIS/TaskManager.cpp:153-175 | while tasks are left a completed task can be taken, a worker can move, or the next update has something to do, and then does it (`TaskManager.UpdateActs`) |
| `TaskManager.TaskThread.constructor` | src/osgGIS/TaskManager.cpp:42-46 | a thread about to start, with no task |
| `TaskManager.TaskThread.RunTask` | src/osgGIS/TaskManager.cpp:70-82 | the task is set in state READY only, and the state stays READY |
| `TaskManager.TaskThread.RemoveTask` | src/osgGIS/TaskManager.cpp:90-97 | the task held, the thread READY again without it |
| `TaskManager.TaskThread.Perform` | src/osgGIS/TaskManager.cpp:42-68 | one move of the worker loop is one worker step of the model |
| `TaskManager.TaskManager.constructor` | src/osgGIS/TaskManager.cpp:106-145 | an idle manager with the given number of threads, none for zero or fewer |
| `TaskManager.TaskManager.QueueTask` | src/osgGIS/TaskManager.cpp:147-151 | the queueing step |
| `TaskManager.TaskManager.GetNumTasks` | src/osgGIS/TaskManager.cpp:189-193 | pending, running and completed tasks together |
| `TaskManager.TaskManager.GetNextCompletedTask` | src/osgGIS/TaskManager.cpp:195-206 | the first completed task, or none: the taking step |
| `TaskManager.TaskManager.CollectFrom` | src/osgGIS/TaskManager.cpp:221-229 | a finished task is taken off its thread, which is ready again, and is the last completed one: the collecting step |
| `TaskManager.TaskManager.DispatchTo` | src/osgGIS/TaskManager.cpp:231-239 | the first pending task goes to a ready thread, which is signalled: the dispatching step |
| `TaskManager.TaskManager.ReapThread` | src/osgGIS/TaskManager.cpp:241-250 | the task of a dead worker is completed and its thread restarted: the reaping step |
| `TaskManager.TaskManager.VisitThread` | src/osgGIS/TaskManager.cpp:213-251 | one turn of the loop, the workers interleaved at each access to the thread |
| `TaskManager.TaskManager.RunNext` | src/osgGIS/TaskManager.cpp:253-275 | single-threaded mode: the next task is run and completed |
| `TaskManager.TaskManager.Update` | src/osgGIS/TaskManager.cpp:208-276 | update is the run of steps it stands for, whatever the interleaving; one that begins when every worker has moved on takes back each task that a worker is done with |
| `TaskManager.UpdateKeepsInv` | src/osgGIS/TaskManager.cpp:208-251 | an update of settled workers, any interleaving, keeps the invariant and comes to its end |
| `TaskManager.VisitActs` | src/osgGIS/TaskManager.cpp:213-250 | whatever the workers do, visiting a thread on which there is something to do brings the tasks nearer to being handed out, and leaves none due there |
| `TaskManager.UpdateActs` | src/osgGIS/TaskManager.cpp:208-251 | an update with something to do at some thread brings the tasks nearer to being handed out, and completes every task a thread was done with, or had died of, when it began |
| `TaskManager.WorkersMove` | src/osgGIS/TaskManager.cpp:43-97 | given their turns all workers move on, and if any could move the tasks come nearer |
| `TaskManager.RoundActs` | src/osgGIS/TaskManager.cpp:153-175 | with tasks left and none completed, a wait whose workers get their turns brings the tasks nearer |
| `TaskManager.AllDone` | src/osgGIS/TaskManager.cpp:189-193 | with nothing left each task queued was started once and handed out once |
| `TaskManager.TaskManager.Wait` | src/osgGIS/TaskManager.cpp:153-175 | called when every worker has moved on it answers false exactly when, after its first update under any interleaving, every queued task has been handed out; true while a task is completed or left, with one more update after blocking; otherwise it is an update, a while in which the workers run, and another update |
| `TaskManager.TaskManager.Turn` | src/osgGIS/TaskManager.cpp:153-175 | one turn of a loop that waits: what is left never grows, and with tasks left and none completed it shrinks; the answer says whether any are left |
| `TaskManager.TaskManager.RunAll` | src/osgGIS/TaskManager.cpp:153-206 | with worker threads, "wait, then take one completed task" ends, whatever is interleaved with the updates, if each worker gets its turns before and while the manager waits: every queued task is run once and handed out once |
| `TaskManager.TaskManager.RunAllSingleThreaded` | src/osgGIS/TaskManager.cpp:253-275 | single-threaded, "wait, then take one completed task" ends with all tasks run and handed out in queue order |
| `PolygonWalk.ScrubPart` | src/osgGIS/CropFilter.cpp:294-299 | closing duplicates of the first point removed |
| `PolygonWalk.ScrubDefined` | src/osgGIS/CropFilter.cpp:294-299 | scrubbing stays inside the list exactly for a part with two distinct points; what is removed are copies of the first |
| `PolygonWalk.WalkAlternates` | src/osgGIS/CropFilter.cpp:381-406 | walking a closed part: crossings are never next to each other, lie on the line, and the sides before and after each differ |
| `PolygonWalk.StretchOnOneSide` | src/osgGIS/CropFilter.cpp:381-406 | between one crossing and the next all points are on the side the crossing leads to |
| `PolygonWalk.EntriesAlternate` | src/osgGIS/CropFilter.cpp:389-403 | entries and exits alternate |
| `PolygonWalk.EntriesByParity` | src/osgGIS/CropFilter.cpp:389-403 | every second crossing is of the kind of the first |
| `PolygonWalk.ClosedWalkIsEven` | src/osgGIS/CropFilter.cpp:376-406 | a closed part has an even number of crossings |
| `PolygonWalk.WalkStaysInside` | src/osgGIS/CropFilter.cpp:391-405 | inserting crossings puts no point outside a line all vertices are inside of |
| `PolygonWalk.SpatialInsert` | src/osgGIS/CropFilter.cpp:239-271 | insertion before the first crossing not before it along the boundary |
| `PolygonWalk.SpatialInsertedKeepsOrder` | src/osgGIS/CropFilter.cpp:239-271 | insertion keeps the crossings ordered along the boundary and adds just the one |
| `PolygonWalk.SpatialOrderSorts` | src/osgGIS/CropFilter.cpp:376-400 | the spatial order holds the same crossings as the traversal order, sorted along the boundary |
| `PolygonWalk.WalkRing` | src/osgGIS/CropFilter.cpp:372-408 | the loop builds that walk and that order; getIsectPoint never fails in it |
| `CropPolygon.FindIndexOf` | src/osgGIS/CropFilter.cpp:273-280 | the index of a value, zero when absent |
| `CropPolygon.IndexFinds` | src/osgGIS/CropFilter.cpp:273-280 | a value in the list is found where it is |
| `CropPolygon.CutRing.ExitsAreNotFirst` | src/osgGIS/CropFilter.cpp:445-488 | the exit that closes a run is never first in spatial order: next_exit_order - 1 is in range |
| `CropPolygon.RunSide` | src/osgGIS/CropFilter.cpp:450-456 | a run of points between the crossings taken as entry and exit lies inside the line if the first spatial crossing is an entry, and has a point outside if not |
| `CropPolygon.WovenHoldsRuns` | src/osgGIS/CropFilter.cpp:427-499 | at each point of the traversal every run passed is in one output, one deferred part or the part in hand |
| `CropPolygon.EveryRunUsedOnce` | src/osgGIS/CropFilter.cpp:427-509 | each run goes into exactly one output part, but for those of a last part that is never closed |
| `CropPolygon.PartsInsideExactlyAfterEntry` | src/osgGIS/CropFilter.cpp:416-509 | every vertex of every output part is inside the line if and only if the first crossing in spatial order is an entry, or there is no output |
| `CropPolygon.AddStretch` | src/osgGIS/CropFilter.cpp:450-456 | the points from one position round the ring to another |
| `CropPolygon.TraverseParts` | src/osgGIS/CropFilter.cpp:418-509 | the traversal with its pointers, stack and flags ends, keeps all indices in range and puts out the parts of the model |
| `CropPolygon.PopParts` | src/osgGIS/CropFilter.cpp:501-508 | deferred parts left at the end come out from the top, each closed by the crossing it waited on |
| `PolygonStages.ExpandToInclude` | src/osgGIS/GeoExtent.cpp:434-509 | the extent of a list of points |
| `PolygonStages.BoundsAreTight` | src/osgGIS/GeoExtent.cpp:434-509 | it holds all points and each side touches one |
| `PolygonStages.ContainsIsSlack` | src/osgGIS/GeoExtent.cpp:383-405 | contains admits exactly the points less than EPSILON off the window |
| `PolygonStages.ExtentDecides` | src/osgGIS/CropFilter.cpp:193-199 | testing the two corners accepts exactly when all points are inside the line, and reversed rejects exactly when none is strictly inside |
| `PolygonStages.RingIsWalked` | src/osgGIS/CropFilter.cpp:368-414 | a closed part is a walked ring, and without crossings all its points are on one side |
| `PolygonStages.PrepareDecides` | src/osgGIS/CropFilter.cpp:339-414 | a stage keeps a part as it is when it is inside its line; it drops one that has no three points, or a vertex outside and either bounds that miss the window or no vertex strictly inside; the branch for a ring without crossings is never taken, and a ring to be cut comes from a closed walk |
| `PolygonStages.CropAgainstLine` | src/osgGIS/CropFilter.cpp:337-509 | one part at one stage is the model's stage |
| `PolygonStages.CropStage` | src/osgGIS/CropFilter.cpp:321-514 | all parts at one stage, unless scrubbing one is undefined |
| `PolygonStages.CropPolygonPart` | src/osgGIS/CropFilter.cpp:302-527 | rejection, trivial accept and the four stages |
| `PolygonStages.StagePartInside` | src/osgGIS/CropFilter.cpp:337-509 | one stage brings a part inside its line when its ring starts with an entry |
| `PolygonStages.StagePartStaysInside` | src/osgGIS/CropFilter.cpp:337-509 | no stage puts a point outside a line its input is inside of |
| `PolygonStages.CropStaysInWindow` | src/osgGIS/CropFilter.cpp:302-527 | when every ring cut begins with an entry every output vertex is inside all four half-planes, or, on the trivial accept, within EPSILON of the window |
| `CropComplete.InsideIsOnRun` | src/osgGIS/CropFilter.cpp:416-448 | every vertex strictly inside the line is on a run, if the ring begins with an entry |
| `CropComplete.RunsComeOutExactly` | src/osgGIS/CropFilter.cpp:425-509 | every run comes out in one part if and only if the traversal ends with the last part closed; otherwise the part in hand is dropped |
| `CropComplete.InsideComesOut` | src/osgGIS/CropFilter.cpp:416-509 | then every vertex strictly inside the line comes out |
| `CropComplete.StageKeepsVertex` | src/osgGIS/CropFilter.cpp:337-509 | a stage keeps the vertices inside the window of any part of three points whose ring, if it is cut, begins with an entry and is finished |
| `CropComplete.VerticesComeOut` | src/osgGIS/CropFilter.cpp:302-527 | so the whole clipper puts out every vertex inside the window, of any polygon, as long as its stages are given such parts |
| `JoinedRuns.PartsAreLinked` | src/osgGIS/CropFilter.cpp:425-509 | of any ring: the runs of a part are joined where an exit and an entry are neighbours along the line; the last meets the first, or, of a part still put off at the end, the crossing that closes it |
| `JoinedRuns.PartEdges` | src/osgGIS/CropFilter.cpp:425-523 | so every edge of what comes out is an edge of the ring or goes along the line between neighbouring crossings |
| `NestedRings.NestedParts` | src/osgGIS/CropFilter.cpp:425-523 | where the joins do not get in each other's way the traversal finishes with nothing put off: each run is in one part, and the parts are exactly the cycles of runs that meet |
| `NestedRings.TwoLegs` | src/osgGIS/CropFilter.cpp:425-509 | a ring with two legs across the line is such a ring: it comes out as one part |
| `PolygonStages.ExitFirstKeepsOutside` | src/osgGIS/CropFilter.cpp:416-420 | a ring of two crossings that begins with an exit leaves a stage with a vertex outside: the assumption in the source is needed |
| `PolygonStages.ClockwiseKeepsOutside` | src/osgGIS/CropFilter.cpp:302-527 | such a ring: of a clockwise triangle across the southern side the whole clipper puts out exactly the part outside the window |
| `ConvexCrop.WalkStaysConvex` | src/osgGIS/CropFilter.cpp:381-406 | inserting its crossings leaves a convex ring convex |
| `ConvexCrop.PinchedIsFlat` | src/osgGIS/CropFilter.cpp:381-406 | a convex ring that comes to one place twice, leaving it in between, lies in a line |
| `ConvexCrop.TwoCrossingsOnly` | src/osgGIS/CropFilter.cpp:381-406 | a convex ring with area, given counter-clockwise, crosses a line twice |
| `ConvexCrop.ExitBeyondEntry` | src/osgGIS/CropFilter.cpp:385-400 | its exit is strictly beyond its entry in spatial order |
| `ConvexCrop.ConvexStartsWithEntry` | src/osgGIS/CropFilter.cpp:416-420 | so the first crossing in spatial order is an entry, as the source assumes |
| `ConvexCrop.StageKeepsConvex` | src/osgGIS/CropFilter.cpp:337-509 | a stage takes such a part to at most one, again convex and with area |
| `ConvexCrop.ConvexStaysInWindow` | src/osgGIS/CropFilter.cpp:302-527 | for every convex part with area, given counter-clockwise, and every window: at most one part comes out, convex and with area, all inside the four half-planes, or, on the trivial accept, within EPSILON of the window |
| `ConvexCrop.ConvexKeepsInside` | src/osgGIS/CropFilter.cpp:302-527 | and it holds every vertex inside the window: nothing inside is lost |
| `ConvexRegion.InTriangle` | src/osgGIS/CropFilter.cpp:381-406 | a point on or left of all edges of a convex ring with area is at its first corner or in a triangle of that corner and an edge |
| `ConvexRegion.HalfPlane` | src/osgGIS/CropFilter.cpp:185-190 | so a half-plane that holds the corners holds the region |
| `ConvexRegion.WalkKeepsEdges` | src/osgGIS/CropFilter.cpp:381-406 | the crossings put in do not change what is left of all edges |
| `ConvexRegion.CutRegion` | src/osgGIS/CropFilter.cpp:408-505 | the region of what is cut from a ring is exactly that of the ring inside the line |
| `ConvexRegion.StageRegion` | src/osgGIS/CropFilter.cpp:337-509 | one stage: the region of what is left is the region inside the line; where nothing is left no point of it is inside the window |
| `ConvexRegion.ConvexIsClipped` | src/osgGIS/CropFilter.cpp:302-527 | for every convex part with area, given counter-clockwise, that is not accepted as it is, and every window: a point is in the region of what comes out just when it is in that of the input and inside all four lines; if nothing comes out no point of the region is strictly inside |
| `ConvexRegion.ComesOutExactly` | src/osgGIS/CropFilter.cpp:302-527 | for a window with area a part comes out if and only if some point of the region is strictly inside the window |
| `Metering.ThroughConcat` | src/osgGIS/FeatureFilterState.cpp:50-98 | cutting the data in two before a line of per-feature filters makes no difference to what comes out |
| `Metering.KeptCount` | src/osgGIS/CollectionFilterState.cpp:39-45 | a push keeps each feature with shape data as often as it comes, and no other |
| `Throughput.KeptAt` | src/osgGIS/CollectionFilterState.cpp:39-45 | and in their order |
| `Throughput.ProcessAt` | src/osgGIS/FeatureFilter.cpp:43-53 | the outputs for a feature stand together, after those for the features before it |
| `Throughput.ThroughIsPerFeature` | src/osgGIS/FeatureFilterState.cpp:50-98 | filtering a list state by state is filtering feature by feature: what comes of one, at whatever depth, comes before anything that comes of the next |
| `Throughput.OneFilterLosesNothing` | src/osgGIS/FeatureFilterState.cpp:50-98 | of features with shape data a filter that keeps it passes on all it makes of each |
| `Metering.CheckpointDeliversAllInKeyOrder` | src/osgGIS/CollectionFilterState.cpp:152-158 | a checkpoint sends each buffered item once, groups in key order, buffer order inside a group: the stable sort by key |
| `Metering.GroupsAreSorted` | src/osgGIS/CollectionFilterState.cpp:155-158 | the map of groups: keys strictly ascending, each group non-empty and of its key |
| `Metering.LessIsTotal` | src/osgGIS/CollectionFilterState.cpp:28-30 | the order of std::string is total |
| `Metering.BatchesCutInOrder` | src/osgGIS/CollectionFilterState.cpp:92-117 | batches lose, repeat and reorder nothing; for a positive metering each has between one and that many items and all but the last are full |
| `Metering.FilterState.constructor` | src/osgGIS/CollectionFilterState.cpp:34-37 | empty buffers, no environment |
| `Metering.FilterState.Push` | src/osgGIS/CollectionFilterState.cpp:39-81 | each feature with shape data goes to the end of its buffer as often as it comes, and no other; fragments and nodes all |
| `Metering.ProcessFeatures` | src/osgGIS/FeatureFilter.cpp:43-53 | the outputs of the features, joined in order |
| `Metering.GroupItems` | src/osgGIS/CollectionFilterState.cpp:155-158 | the loop fills the groups of the model |
| `Metering.FilterLine.PushAndTraverse` | src/osgGIS/FeatureFilterState.cpp:68-86 | pushing to a state and traversing it lands the filtered data in the next collector and nowhere else |
| `Metering.FilterLine.Traverse` | src/osgGIS/FeatureFilterState.cpp:50-98 | a filter state passes on what it holds and is empty again; a collector only saves the environment advanced; no error results; its environment is the given one advanced |
| `Metering.FilterLine.MeterData` | src/osgGIS/CollectionFilterState.cpp:92-117 | whatever the metering, what lands downstream is what the whole list would land, and the batches sent are those of the model |
| `Metering.FilterLine.MeterGroups` | src/osgGIS/CollectionFilterState.cpp:119-139 | the groups in turn land as their concatenation |
| `Metering.FilterLine.MeterOut` | src/osgGIS/CollectionFilterState.cpp:142-247 | a collector's part of a checkpoint: features first, else fragments, else nodes, in key order and batches, with the saved environment, which is there whenever there is data |
| `Metering.FilterLine.SignalCheckpoint` | src/osgGIS/CollectionFilterState.cpp:142-263 | a checkpoint through the whole line: each collector begins its own with the buffers of the model, the next state is sent the batches of the model, and all buffers end empty |
| `Metering.MeteringIsTransparent` | src/osgGIS/CollectionFilterState.cpp:92-139 | what every collector has buffered when its checkpoint begins is the same for all metering values |
| `Metering.NextCollectorReceives` | src/osgGIS/CollectionFilterState.cpp:142-252 | the next collector receives what the filters between make of the whole buffer in key order |
| `Throughput.CheckpointDelivers` | src/osgGIS/CollectionFilterState.cpp:142-263 | feature by feature: the next collector gets, in key order, all that comes of the features buffered; without any the fragments, if it is the next state, and without these the nodes; nothing else changes |
| `Throughput.SentInBatches` | src/osgGIS/CollectionFilterState.cpp:92-139 | what is sent is all of that, in batches of one key and, for a metering from 1 on, no larger |
| `AlphaBlock.StoredAdds` | src/osgGIS/ImageUtils.cpp:824-832 | storing a code, over a byte boundary or not, adds it at its bit position and touches no bit already set |
| `AlphaBlock.StreamFits` | src/osgGIS/ImageUtils.cpp:818-833 | sixteen codes fill exactly 48 bits |
| `AlphaBlock.StreamUnpacks` | src/osgGIS/ImageUtils.cpp:818-833 | unpacking gives each code back |
| `AlphaBlock.BlockHoldsCodes` | src/osgGIS/ImageUtils.cpp:806-833 | a decoder sees the limits in bytes 0 and 1 and each texel's code in the 48-bit little-endian stream of bytes 2 to 7 |
| `AlphaBlock.LimitsAreTight` | src/osgGIS/ImageUtils.cpp:794-805 | the limits are alphas of the block and bound all of them |
| `AlphaBlock.FindLimits` | src/osgGIS/ImageUtils.cpp:794-805 | the loop finds them |
| `AlphaBlock.LevelOf` | src/osgGIS/ImageUtils.cpp:793 | the code table puts eight evenly spaced levels in the format's order |
| `AlphaBlock.QuantisesClosely` | src/osgGIS/ImageUtils.cpp:819-825 | with distinct limits they decode exactly, any other alpha within a share of 7.9999 of their distance |
| `AlphaBlock.ConstantAlphaSurvivesExactly` | src/osgGIS/ImageUtils.cpp:819-825 | with equal limits an alpha survives exactly when the undefined conversion of not-a-number avoids codes 6 and 7 or those mean the alpha |
| `AlphaBlock.BlockDecodesClosely` | src/osgGIS/ImageUtils.cpp:779-835 | decoding a block encoded with distinct limits: extremes exact, every texel within the bound |
| `AlphaBlock.StoreCode` | src/osgGIS/ImageUtils.cpp:826-831 | the two byte operations |
| `AlphaBlock.CompressAlphaBlock` | src/osgGIS/ImageUtils.cpp:779-835 | the eight bytes are the encoded block |
| `AlphaBlock.WordHasItsBytes` | src/osgGIS/ImageUtils.cpp:806-815 | eight bytes and one number are interchangeable |
| `DxtImage.Image.TexelIsInside` | src/osgGIS/ImageUtils.cpp:341-343 | the indices read lie inside width * height * channels |
| `DxtImage.FillBlock` | src/osgGIS/ImageUtils.cpp:325-361 | every texel of a 4x4 block is filled, with the image's texel or, past its edge, the block's first |
| `DxtImage.ConvertImage` | src/osgGIS/ImageUtils.cpp:292-468 | nothing for senseless sizes; otherwise exactly the allocated number of bytes, in which each block reads as its pixels say |
| `DxtImage.BlocksLieRowByRow` | src/osgGIS/ImageUtils.cpp:320-370 | the code of each block is where a decoder looks for it, and the blocks fill the output |
| `DxtImage.BlockHoldsTexels` | src/osgGIS/ImageUtils.cpp:408-449 | a block holds the colours and alphas of its pixels, row by row; grey three times, opaque without an alpha channel, the first pixel past the edge |
| `DxtImage.AlphaBlockReads` | src/osgGIS/ImageUtils.cpp:450-456 | decoding the first eight bytes of a DXT5 block at the place of a pixel gives its alpha: exactly if it is the highest or lowest, else within a share of 7.9999 of their distance; for equal ones exactly when the undefined conversion allows it |
| `DxtImage.EncodedReads` | src/osgGIS/ImageUtils.cpp:400-467 | in the output every block stands where a decoder looks for it: in DXT5 the alphas of its pixels and then its colour code, in DXT1 the colour code alone |
| `PowerOfTwo.PowerTest` | src/osgGIS/ImageUtils.cpp:57 | x & (x-1) is zero exactly for powers of two and zero |
| `PowerOfTwo.FillStep` | src/osgGIS/ImageUtils.cpp:58 | setting the lowest clear bit goes up and stays below the power above |
| `PowerOfTwo.FillEnds` | src/osgGIS/ImageUtils.cpp:58 | when no gap is left the number is one less than the power above |
| `PowerOfTwo.PowerAboveIsLeast` | src/osgGIS/ImageUtils.cpp:55-60 | the power above is the least power of two not below the argument |
| `PowerOfTwo.PowerAboveFits` | src/osgGIS/ImageUtils.cpp:55-60 | it is a word or the first number past the words |
| `PowerOfTwo.RoundUpToPowerOf2` | src/osgGIS/ImageUtils.cpp:54-60 | ends, with that power for cap 0, wrapped to zero where it is no word; powers of two are returned unchanged; otherwise the larger of the power and the cap |
| `PowerOfTwo.NearestPower` | src/osgGIS/ImageUtils.cpp:63-69 | of the power above and its half the nearer is nearest of all powers of two |
| `PowerOfTwo.RoundToNearestPowerOf2` | src/osgGIS/ImageUtils.cpp:63-69 | a nearest power of two wherever the power above is a word, else zero |
| `SmartReadCallback.MostRecentIsByLastRequest` | src/osgGIS/SmartReadCallback.cpp:35-72 | the reference list: readable names requested, once each, by last request |
| `SmartReadCallback.CachedIsMostRecent` | src/osgGIS/SmartReadCallback.cpp:35-72 | one request keeps: the cache holds the capacity - 1 most recent of them, or all if fewer |
| `SmartReadCallback.ReadCallback.constructor` | src/osgGIS/SmartReadCallback.cpp:10-23 | an empty cache of any capacity, valid from two on |
| `SmartReadCallback.ReadCallback.Find` | src/osgGIS/SmartReadCallback.cpp:46-47 | finding an entry by its timestamp |
| `SmartReadCallback.ReadCallback.Insert` | src/osgGIS/SmartReadCallback.cpp:49 | insertion by timestamp, none where one has the same |
| `SmartReadCallback.ReadCallback.Erase` | src/osgGIS/SmartReadCallback.cpp:47 | the entry and no other is taken out |
| `SmartReadCallback.ReadCallback.Touch` | src/osgGIS/SmartReadCallback.cpp:43-50 | a hit, at any tick: its entry moves to the end where all others are older, and map and set still hold the same entries if and only if no other entry has the tick; otherwise the re-insertion is refused |
| `SmartReadCallback.ReadCallback.Add` | src/osgGIS/SmartReadCallback.cpp:52-61 | a readable miss, at any tick: added to the map, and to the end of the set where all entries are older; they hold the same entries afterwards if and only if no entry has the tick |
| `SmartReadCallback.ReadCallback.Evict` | src/osgGIS/SmartReadCallback.cpp:63-69 | the oldest entry leaves both, which makes no difference to whether they agree |
| `SmartReadCallback.ReadCallback.Look` | src/osgGIS/SmartReadCallback.cpp:40-61 | the first half of a request, at any tick: the entry of a readable file with the new tick; the cache holds the names by use, unless another entry has the tick: then map and set disagree |
| `SmartReadCallback.ReadCallback.Trim` | src/osgGIS/SmartReadCallback.cpp:63-69 | the second half: when full the oldest goes, never the entry just requested, and map and set disagree afterwards if they did before |
| `SmartReadCallback.ReadCallback.ReadNodeFile` | src/osgGIS/SmartReadCallback.cpp:35-72 | with capacity at least 2 and any tick not before the last: the result is that of an uncached read, and the cache invariant is kept if and only if the file is not readable or no entry of another name has the tick; if not, map and set disagree |
| `SmartReadCallback.ValidCacheHolds` | src/osgGIS/SmartReadCallback.cpp:63-69 | map and set hold the same entries, fewer than the capacity |
| `SmartReadCallback.CapacityTwoIsLeast` | src/osgGIS/SmartReadCallback.cpp:63-71 | a capacity of two is the least for which no request drops the entry its answer is then read from, or one that is not there |
| `SmartReadCallback.TwoNamesAtOneTick` | src/osgGIS/SmartReadCallback.cpp:35-72 | two readable names requested at one tick: the second is in the map and map and set do not hold the same entries |
| `GridProfile.BySizeTiles` | src/osgGISProjects/GriddedMapLayerCompiler.cpp:55-75 | cells by size, whatever the bounds and the size, tile an axis exactly when it has length and their number survives its conversion; the last is no larger than the others; without length and with a positive size there are none |
| `GridProfile.SizeAsAsked` | src/osgGISProjects/GriddedMapLayerCompiler.cpp:55-75 | the cells have the size asked for, but for a smaller last one; one cell where none is asked for |
| `GridProfile.ByCountTiles` | src/osgGISProjects/GriddedMapLayerCompiler.cpp:77-87 | cells by count tile any axis exactly when it has length |
| `GridProfile.CellsAreDisjoint` | src/osgGISProjects/GriddedMapLayerCompiler.cpp:104-112 | neighbours meet and inner points are not shared |
| `GridProfile.CellsCover` | src/osgGISProjects/GriddedMapLayerCompiler.cpp:104-112 | every point of the axis is in a cell |
| `GridProfile.Profile.constructor` | src/osgGISProjects/GriddedMapLayerCompiler.cpp:49-53 | a profile of given bounds |
| `GridProfile.Profile.InitByCellSize` | src/osgGISProjects/GriddedMapLayerCompiler.cpp:55-75 | a tiling of the bounds by cell size, the whole side for sizes not positive, exactly when the bounds have area and the numbers of cells survive their conversion |
| `GridProfile.Profile.InitByCellCount` | src/osgGISProjects/GriddedMapLayerCompiler.cpp:77-87 | a tiling by count, at least one each way, exactly when the bounds have area |
| `GridProfile.Profile.CellsCoverBounds` | src/osgGISProjects/GriddedMapLayerCompiler.cpp:114-124 | a point is in the bounds exactly when it is in a cell |
| `GridProfile.Profile.CellsDoNotOverlap` | src/osgGISProjects/GriddedMapLayerCompiler.cpp:114-124 | no point is strictly inside two cells |
| `GridProfile.Profile.AreasAddUp` | src/osgGISProjects/GriddedMapLayerCompiler.cpp:114-124 | the areas of the cells add up to that of the bounds |
| `GridProfile.CellIdIsInjective` | src/osgGISProjects/GriddedMapLayerCompiler.cpp:126-132 | column, row and depth can be read back from a cell id |
| `GridProfile.CellIdReads` | src/osgGISProjects/GriddedMapLayerCompiler.cpp:126-132 | the depth is read after L, the column after X and the row after Y |
| `GridProfile.CollectGeometryKeys` | src/osgGISProjects/GriddedMapLayerCompiler.cpp:264-297 | the two loop nests list the keys of the model |
| `GridProfile.OrdersArePermutations` | src/osgGISProjects/GriddedMapLayerCompiler.cpp:264-297 | both orders list each cell at each level, cols * rows * levels keys, as permutations of each other |
| `GridProfile.DepthFirstAt` | src/osgGISProjects/GriddedMapLayerCompiler.cpp:264-279 | depth first the keys go column by column, row by row and then level by level |
| `GridProfile.BreadthFirstAt` | src/osgGISProjects/GriddedMapLayerCompiler.cpp:281-296 | breadth first level by level, and then column by column and row by row |
| `Winding.GetPolygonArea2D` | src/osgGIS/Utils.cpp:154-168 | half the shoelace sum of the opened ring |
| `Winding.ShoelaceRotates` | src/osgGIS/Utils.cpp:160-167 | the sum does not depend on the starting vertex |
| `Winding.ShoelaceReverses` | src/osgGIS/Utils.cpp:160-167 | it is negated by reversal |
| `Winding.ShoelaceIsFan` | src/osgGIS/Utils.cpp:160-167 | the sum is twice the area of the triangles of a fan, those that turn right counted negative |
| `Winding.TrianglesFit` | src/osgGIS/Utils.cpp:160-167 | no triangle in a convex ring given counter-clockwise has more area than the ring |
| `Winding.RectangleArea` | src/osgGIS/Utils.cpp:154-168 | the area of a rectangle is its width times its height |
| `Winding.ShoelaceOpens` | src/osgGIS/Utils.cpp:182-187 | and unchanged by openPolygon |
| `Winding.OpenPolygon` | src/osgGIS/Utils.cpp:182-187 | closing copies removed while more than three points are left |
| `Winding.OpenedDropsCopies` | src/osgGIS/Utils.cpp:182-187 | only copies of the first vertex are removed |
| `Winding.WoundIsCounterClockwise` | src/osgGIS/FilterGraph.cpp:254-259 | after winding: counter-clockwise, same absolute area, the opened ring or its reverse |
| `Winding.ConvexIsWound` | src/osgGIS/FilterGraph.cpp:251-260 | a convex ring with area given counter-clockwise has a positive area and is left as it is, opened; given clockwise it is turned round |
| `Winding.WoundTwice` | src/osgGIS/FilterGraph.cpp:254-259 | winding twice is winding once |
| `Winding.WindShape` | src/osgGIS/FilterGraph.cpp:251-260 | a shape with a single part is wound, any other unchanged |
| `Winding.Wind` | src/osgGIS/FilterGraph.cpp:245-264 | every shape of a polygon feature is so treated, no other feature changes |
| `FeatureCursor.Cursor.constructor` | src/osgGIS/FeatureCursor.cpp:29-41 | all matching features are to come |
| `FeatureCursor.Cursor.SetPrefetchSize` | src/osgGIS/FeatureCursor.cpp:68-72 | at least one; nothing of what is to come changes |
| `FeatureCursor.Cursor.Prefetch` | src/osgGIS/FeatureCursor.cpp:114-140 | filling the queue, only when one feature or none is left and never past the prefetch size, changes nothing of what is to come, and leaves it empty only at the end |
| `FeatureCursor.Cursor.Reset` | src/osgGIS/FeatureCursor.cpp:74-86 | all features are to come again |
| `FeatureCursor.Cursor.HasNext` | src/osgGIS/FeatureCursor.cpp:88-92 | true exactly while a feature is to come |
| `FeatureCursor.Cursor.Next` | src/osgGIS/FeatureCursor.cpp:94-112 | the next one to come, or none |
| `FeatureCursor.ReadAll` | src/osgGIS/FeatureCursor.cpp:88-112 | for every prefetch size, reading to the end gives each matching feature once in id order |
| `FeatureCursor.MatchingAt` | src/osgGIS/FeatureCursor.cpp:123-137 | the matching features are those of the wanted ids, in their order |
| `FeatureCursor.MatchesAre` | src/osgGIS/FeatureCursor.cpp:117-141 | a feature is to come exactly when the store has it under one of the ids and, if matching is exact, it meets the search extent |
| `Densify.StepDown` | src/osgGIS/DensifyFilter.cpp:91-97 | an inserted point lies on the gap, one threshold from its start, and leaves fewer steps to go |
| `Densify.SpanIsClose` | src/osgGIS/DensifyFilter.cpp:87-104 | filling a gap leaves no gap longer than the threshold |
| `Densify.SpanIsShort` | src/osgGIS/DensifyFilter.cpp:88-107 | with no more points than it takes |
| `Densify.SpanKeepsSegment` | src/osgGIS/DensifyFilter.cpp:87-104 | and covers the same points |
| `Densify.DensifyPart` | src/osgGIS/DensifyFilter.cpp:84-106 | the in-place loop ends with the densified part |
| `Densify.DensifyFillsGaps` | src/osgGIS/DensifyFilter.cpp:80-110 | no gap longer than the threshold, the originals in order, the same set of points |
| `Decimate.DecimatePart` | src/osgGIS/DecimateFilter.cpp:82-114 | the part thinned out, if it has and keeps enough points |
| `Decimate.KeptAreSpread` | src/osgGIS/DecimateFilter.cpp:91-107 | kept points are farther apart than the threshold, the first is kept |
| `Decimate.KeptTwice` | src/osgGIS/DecimateFilter.cpp:82-114 | thinning out twice is thinning out once |
| `Decimate.DroppedAreNear` | src/osgGIS/DecimateFilter.cpp:99-106 | each dropped point is within the threshold of the last one kept before it |

## Left out

- Floating point: doubles and floats are reals, so rounding, not-a-number and infinities are not modelled, except that the division by zero for a block of one alpha has an arbitrary result.
- Integer widths: sizes and indices are unbounded; the word sizes of `roundUpToPowerOf2` and the unsigned metering size are modelled, list lengths of 2^32 and more and image sizes whose product overflows are not.
- Spatial reference systems and reprojection: every point is valid and in one system; two points are equal when their coordinates and dimension are, with a two-dimensional point at height zero.
- GDAL and OGR, files, clocks, locks and reports: foreign calls and I/O; what reading a file or a feature store gives is a function of its name, and the ticks of a timer are parameters.
- Scene graphs, tessellation, textures beyond their encoding, Lua bindings and project files: library behaviour that is not visible, or easy members.
- TaskSystem.TasksAreConserved: under the premise, built into the step that begins an update, that started and dispatched workers have moved on; cancelling pending tasks, null tasks, destruction, STATE_EXIT and the timing of `activity_block` are not modelled.
- TaskManager.TaskManager.Wait: the blocking is a schedule of worker steps given from outside.
- CropComplete.VerticesComeOut: its premise is on what the stages are given; that the crossings of an outline that does not cross itself do not get in each other's way (`NestedRings.NestedBy`) is not derived from the outline.
- TaskManager.TaskManager.RunAll: the schedule of the workers is given from outside, with their turns as its premise.
- ConvexHull.StdSort: an insertion sort stands for std::sort; only what any sort by a strict weak order promises is used.
- HullOrders.Hull: collecting the points of the features and building the output feature are not modelled.
- CombineLines.Process: list positions stand for iterators, with stepping back from the first element and on again as staying there.
- CombineMaximal.CombineIsMaximal: one direction; that no visit hides a segment is not necessary, as `CombineMaximal.HiddenEndTakenUp` shows.
- CropPolygon.TraverseParts: the area of the output is not claimed; a last part that is never closed is dropped, as in the source.
- PolygonStages.CropStaysInWindow: its premise is on the rings cut on the way, and it goes one way; the exact condition is stated for each ring cut, in `CropPolygon.PartsInsideExactlyAfterEntry`, and a premise on the part alone in `ConvexCrop.ConvexStaysInWindow`.
- CropFilter's point parts, `process`, and the unused `findIsectSegmentAndPoint`: they add only easy members.
- Metering.FilterLine.SignalCheckpoint: the line consists of feature filters that depend only on the feature and of collectors; fragment and node filter states, their errors, `preMeter` and the group property are not modelled, and one class with a role stands for the two filter state classes.
- DxtImage.ConvertImage: the colour block encoder (a least-squares fit in floating point) is a function parameter giving eight bytes; the two converters, which differ in the alpha channel only, are one method with a format; a null image pointer and saving to a file are not modelled.
- PowerOfTwo.RoundUpToPowerOf2: nothing beyond the code is claimed for a cap other than zero.
- SmartReadCallback.ReadCallback.ReadNodeFile: capacities below two, where `SmartReadCallback.CapacityTwoIsLeast` shows it fail, and a timer that goes back are outside the contract, and so is what further requests do once map and set disagree; the most recently used node used by intersection tests is not modelled.
- GridProfile.Profile.InitByCellSize: what the source leaves undefined, zero divided by zero and the conversion of a number that is no int, is a parameter.
- GridCellCursor: its `next` ends after the first row; enumeration is not claimed. The quad tree compiler and task creation are not modelled.
- Winding.WindShape: std::reverse is a function on the part.
- Densify.DensifyPart: square roots come from a root function that is given; an empty part, where the source steps before its beginning, is outside the contract; point shapes and a threshold of zero, both left alone, are not modelled.
- Decimate.DecimatePart: the rest of the filter, which drops shapes without parts, is not modelled.
- RTreeSpatialIndex: its tree template is not part of this model.
