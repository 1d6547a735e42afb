# Advent of Code solvers of the JavaFX 3D examples, in Dafny

This project models the puzzle logic behind the 3D animations of the
JavaFX example repository and proves what that logic promises. Seven
source files, solving six puzzles, make up the modelled core:

- **2023 day 8 (Haunted Wasteland)**: walkers follow left/right
  instructions through a node network. Circle detectors record the tick
  at which each (node, instruction index) pair was first seen. The
  answer is the least common multiple of the circle lengths (`ggT`/`kgV`).
  `Y23Day08.java` and `Y23Day08Animation3D.java` share one module. Their
  puzzle logic differs in the zero guard of `kgV`, in `peekNextDir` on
  the first world, and in the bounds of the `printZTicks` loops (unguarded
  in the first file, clamped with `Math.min`/`Math.max` in the second).
  The second file also adds the 3D layout, which is left out below.
- **2023 day 17 (Clumsy Crucible)**: a directed graph over
  (cell, axis) states, with moves of 1..3 cells (normal) or 4..10 cells
  (ultra). The minimal heat loss is found by Dijkstra's search with a
  priority queue.
- **2023 day 18 (Lavaduct Lagoon)**:
  - part one digs the trench cell by cell, floods the outside from a
    corner of the bounding box and counts what is left;
  - part two works on horizontal and vertical border lines, cuts the
    interior into rectangles column by column, and adds the inner
    border segments and the edge lengths;
  - the colour code decodes five hex digits into steps and one digit
    into a direction.
- **2023 day 22 (Sand Slabs)**: bricks with a checking constructor, one
  falling pass that lowers every brick by at most one cell, and the
  disintegration candidates and sum of falling bricks computed by
  removing each brick in turn.
- **2023 day 25 (Snowverload)**: a wiring diagram of named components
  becomes an undirected neighbour relation. Wires are removed by name,
  and the size of the component around a node is counted by a
  breadth-first search.
- **2022 day 22 (Monkey Map)**: a walker on the faces of a cube cut from
  a map. It reads a movement string of step counts and turns, crosses
  face edges through an orientation table, and marks its path.

The model is organised as follows:

- Java objects whose fields change become Dafny classes with `modifies`
  clauses, and Java records become datatypes.
- Loops become methods proved against specification functions: the
  falling pass `Pass`, the relaxation step `RelaxAll`, the walk
  `WalkFrom`, the fold `FoldKgV`, the neighbour relation `Topology`.
- A Java exception becomes an `Option`/`Result` value or an `ok`
  out-parameter that says exactly when the source throws.
- Java's truncating `%` and `/` are modelled by `JavaInt.Rem` and
  `JavaInt.Div`. Java's stable `List.sort` is modelled by
  `Sorting.SortBy`.

## Model

| member | source | states |
|---|---|---|
| JavaInt.Rem | src/main/java/org/openjfx/Y22Day22Animation.java:603 | Java's `%`: agrees with the mathematical remainder on non-negative operands, is smaller than the divisor in magnitude and takes the sign of the dividend |
| JavaInt.Div | src/main/java/org/openjfx/Y22Day22Animation.java:603 | Java's `/`: agrees with floor division on non-negative operands and recombines with `Rem` to the dividend |
| Sorting.SortBy | src/main/java/org/openjfx/Y23Day22.java:167 | the comparator sort returns a permutation of its input of the same length, ordered by the key |
| Sorting.InsertBy | src/main/java/org/openjfx/Y23Day22.java:167 | inserting into a sorted sequence keeps it sorted and adds exactly the one element |
| Sorting.InsertLargestAppends | src/main/java/org/openjfx/Y23Day22.java:167 | an element whose key is at least every key goes last |
| Sorting.InsertByKeepsOrder | src/main/java/org/openjfx/Y23Day22.java:167 | inserting an element puts it behind every element of its key, and keeps the order of the elements of each key |
| Sorting.SortByIsStable | src/main/java/org/openjfx/Y23Day22.java:167 | `List.sort` is stable: for every key, the elements with that key appear in the sorted list in their input order |
| Sorting.WithKeyAppend | src/main/java/org/openjfx/Y23Day22.java:167 | picking the elements of one key distributes over concatenation |
| Sorting.WithKeyAbove | src/main/java/org/openjfx/Y23Day22.java:167 | a list whose keys all exceed `k` holds no element of key `k` |
| Sorting.SortSortedIsIdentity | src/main/java/org/openjfx/Y23Day22.java:167 | sorting an already sorted sequence changes nothing |
| Sorting.DedupSorted | src/main/java/org/openjfx/Y23Day18Animation3D.java:333 | `distinct()` on a sorted stream gives a strictly increasing sequence with the same values and the same first value |
| Sorting.SortedDistinct | src/main/java/org/openjfx/Y23Day18Animation3D.java:333 | `sorted().distinct()` gives a strictly increasing sequence holding exactly the input's values |
| Y23Day08.GgT | src/main/java/org/openjfx/Y23Day08.java:380-392 | `ggT` is zero exactly when both arguments are zero |
| Y23Day08.GgTDivides | src/main/java/org/openjfx/Y23Day08.java:380-392 | on non-negative arguments `ggT` is a non-negative common divisor |
| Y23Day08.GgTGreatest | src/main/java/org/openjfx/Y23Day08.java:380-392 | every common divisor divides `ggT`, so it is the greatest one |
| Y23Day08.KgVUnguarded | src/main/java/org/openjfx/Y23Day08.java:395-404 | the unguarded `kgV` fails (division by zero) exactly when both arguments are zero |
| Y23Day08.KgV | src/main/java/org/openjfx/Y23Day08Animation3D.java:536-548 | the guarded `kgV` returns 0 when either argument is 0 |
| Y23Day08.KgVGuardOnlyForZero | src/main/java/org/openjfx/Y23Day08Animation3D.java:537-539 | the two `kgV` versions agree on non-zero arguments; they differ only at zero, where one fails and the other gives 0 |
| Y23Day08.KgVIsCommonMultiple | src/main/java/org/openjfx/Y23Day08Animation3D.java:536-548 | on positive arguments `kgV` is a positive common multiple and `kgV * ggT == a * b` |
| Y23Day08.DividesTransitive | src/main/java/org/openjfx/Y23Day08.java:395-404 | divisibility is transitive, which carries the common multiple through the fold |
| Y23Day08.FoldIsCommonMultiple | src/main/java/org/openjfx/Y23Day08Animation3D.java:408-414 | folding `kgV` over positive circle lengths gives a positive number that every length divides; the unguarded fold gives the same |
| Y23Day08.FoldUnguardedZeroStart | src/main/java/org/openjfx/Y23Day08.java:363-369 | an unguarded fold starting at a zero length fails on its first step |
| Y23Day08.FoldUnguardedStaysFailed | src/main/java/org/openjfx/Y23Day08.java:363-369 | once the unguarded fold has failed on a prefix, the whole fold fails |
| Y23Day08.Kgv | src/main/java/org/openjfx/Y23Day08Animation3D.java:408-414 | the `kgv` loop computes the guarded fold from the first value; an empty list fails (`get(0)`) |
| Y23Day08.KgvUnguarded | src/main/java/org/openjfx/Y23Day08.java:363-369 | the `kgv` loop of the first file computes the unguarded fold; an empty list fails |
| Y23Day08.Lookup | src/main/java/org/openjfx/Y23Day08.java:176 | `nodes.get` finds the node exactly when the name is a key |
| Y23Day08.CharAt | src/main/java/org/openjfx/Y23Day08.java:169 | reading the instruction fails exactly on an empty movement string |
| Y23Day08.NextIndex | src/main/java/org/openjfx/Y23Day08.java:170 | the instruction index advances cyclically and stays in range |
| Y23Day08.World.constructor | src/main/java/org/openjfx/Y23Day08.java:154-157 | a world with no nodes, no instructions, no current node and zero ticks |
| Y23Day08.World.SetMovements | src/main/java/org/openjfx/Y23Day08.java:158-161 | stores the instructions and restarts at index 0 |
| Y23Day08.World.AddNode | src/main/java/org/openjfx/Y23Day08.java:162-167 | registers the node by name; a node named `AAA` becomes the current node |
| Y23Day08.World.NextMove | src/main/java/org/openjfx/Y23Day08.java:168-172 | returns the instruction at the index (as `peekNextDir` would) and advances the index cyclically |
| Y23Day08.World.Tick | src/main/java/org/openjfx/Y23Day08.java:173-178 | counts the tick and advances the index; succeeds exactly when there are instructions and a current node, and then moves to the named child (absent if unknown) |
| Y23Day08.Detect | src/main/java/org/openjfx/Y23Day08.java:262-276 | once a circle is known the detector answers true and stays put; otherwise it answers true exactly when the (node, index) pair was seen before |
| Y23Day08.DetectStep | src/main/java/org/openjfx/Y23Day08.java:262-276 | a detection step keeps every recorded tick below the current one, reports a circle exactly when its length is positive, and records the new pair |
| Y23Day08.RecordedLater | src/main/java/org/openjfx/Y23Day08.java:262-276 | ticks recorded before `t` stay below any later tick |
| Y23Day08.CircleDetector.constructor | src/main/java/org/openjfx/Y23Day08.java:253-258 | a detector that has seen only its start node at index 0 and tick 0 |
| Y23Day08.CircleDetector.DetectCircle | src/main/java/org/openjfx/Y23Day08.java:262-276 | the detector's new state and answer are those of `Detect` |
| Y23Day08.World2.constructor | src/main/java/org/openjfx/Y23Day08.java:305-310 | a world with no nodes, walkers or detectors |
| Y23Day08.World2.SetMovements | src/main/java/org/openjfx/Y23Day08.java:311-314 | stores the instructions and restarts at index 0 |
| Y23Day08.World2.AddNode | src/main/java/org/openjfx/Y23Day08.java:315-321 | registers the node; a name ending in `A` adds a walker and a fresh detector numbered by the walker count |
| Y23Day08.World2.NextMove | src/main/java/org/openjfx/Y23Day08.java:322-329 | returns `peekNextDir` and advances the index cyclically |
| Y23Day08.World2.Tick | src/main/java/org/openjfx/Y23Day08.java:330-343 | counts the tick, advances the index, and steps every walker whose detector has found no circle yet, feeding its detector; it succeeds exactly when there are instructions and every walker without a circle has a node |
| Y23Day08.World2.StepAll | src/main/java/org/openjfx/Y23Day08.java:333-342 | the loop over the walkers leaves each walker and detector as one `WalkerStep` defines; it succeeds exactly when every walker without a circle has a node |
| Y23Day08.World2.StepWalker | src/main/java/org/openjfx/Y23Day08.java:334-341 | one walker moves to its child and its detector records it; nothing else changes |
| Y23Day08.World2.AllCirclesDetected | src/main/java/org/openjfx/Y23Day08.java:347-354 | true exactly when every detector has a circle |
| Y23Day08.World2.CalcTicksForAllZ | src/main/java/org/openjfx/Y23Day08Animation3D.java:400-407 | the fold of `kgV` over the circle lengths; once every circle is known it is positive and a multiple of every length |
| Y23Day17.WalkCostNonNegative | src/main/java/org/openjfx/Y23Day17Animation3D.java:299-306 | with non-negative heat losses every walk has non-negative cost |
| Y23Day17.ExtendWalk | src/main/java/org/openjfx/Y23Day17Animation3D.java:299-306 | following a move from a walk's end gives a walk whose cost grows by the move's heat loss |
| Y23Day17.WalkPrefix | src/main/java/org/openjfx/Y23Day17Animation3D.java:299-306 | every prefix of a walk is a walk |
| Y23Day17.UniverseClosed | src/main/java/org/openjfx/Y23Day17Animation3D.java:190-198 | every move target lies among the states the search can record |
| Y23Day17.WitnessReaches | src/main/java/org/openjfx/Y23Day17Animation3D.java:303-304 | every queued state carries a walk from a start state of exactly its heat loss |
| Y23Day17.Frontier | src/main/java/org/openjfx/Y23Day17Animation3D.java:288-306 | every walk either has a queued state no dearer than it, or ends at a settled state whose record is no dearer |
| Y23Day17.CheapestIsOptimal | src/main/java/org/openjfx/Y23Day17Animation3D.java:289-298 | when the cheapest queued state costs `v`, no walk to the target cell costs less than `v` |
| Y23Day17.EmptyQueueUnreachable | src/main/java/org/openjfx/Y23Day17Animation3D.java:289 | when the queue runs empty before the target, no walk reaches the target cell |
| Y23Day17.InitialSearch | src/main/java/org/openjfx/Y23Day17Animation3D.java:280-287 | the two start states at cost 0 satisfy the search invariant |
| Y23Day17.MinIndex | src/main/java/org/openjfx/Y23Day17Animation3D.java:289 | `poll` takes an entry of least heat loss |
| Y23Day17.RemoveAt | src/main/java/org/openjfx/Y23Day17Animation3D.java:289 | `poll` removes exactly that entry and keeps the others in order |
| Y23Day17.PollKeepsSynced | src/main/java/org/openjfx/Y23Day17Animation3D.java:289 | polling keeps the records and the queue in step |
| Y23Day17.PollKeepsQueue | src/main/java/org/openjfx/Y23Day17Animation3D.java:289 | polling the least entry keeps every other queued state justified by a walk, and all of them at least as dear |
| Y23Day17.PollBounds | src/main/java/org/openjfx/Y23Day17Animation3D.java:289 | the polled state is recorded, at its record or already settled, and the settled states stay below its cost |
| Y23Day17.World.constructor | src/main/java/org/openjfx/Y23Day17Animation3D.java:115-117 | a world without rows |
| Y23Day17.World.AddRow | src/main/java/org/openjfx/Y23Day17Animation3D.java:118-120 | appends the row and changes nothing else |
| Y23Day17.World.Init | src/main/java/org/openjfx/Y23Day17Animation3D.java:121-131 | succeeds exactly when there is a first row and no row is shorter than it; then the field holds each cell's digit value |
| Y23Day17.World.OutsideSentinel | src/main/java/org/openjfx/Y23Day17Animation3D.java:132-137 | `get` returns `'?'` exactly outside the field, and a digit value inside |
| Y23Day17.World.DigitRowsGiveDigitField | src/main/java/org/openjfx/Y23Day17Animation3D.java:121-131 | rows of digits give a field of values 0..9 |
| Y23Day17.World.CreateMoves | src/main/java/org/openjfx/Y23Day17Animation3D.java:154-189 | the move lists built by the loops are the specification `Moves` |
| Y23Day17.World.InsideBetween | src/main/java/org/openjfx/Y23Day17Animation3D.java:151-153 | cells between two cells of the field along an axis are in the field |
| Y23Day17.World.RayHeatIsCellSum | src/main/java/org/openjfx/Y23Day17Animation3D.java:154-171 | the running heat-loss sum along a ray is the sum of the cells passed |
| Y23Day17.World.RayHeatNonNegative | src/main/java/org/openjfx/Y23Day17Animation3D.java:154-171 | that sum is never negative on a digit field |
| Y23Day17.World.MovesUpToAreRuns | src/main/java/org/openjfx/Y23Day17Animation3D.java:154-189 | every generated move is a run of allowed length along one axis |
| Y23Day17.World.MovesSound | src/main/java/org/openjfx/Y23Day17Animation3D.java:154-250 | every move stays in the field, switches axis, runs `minRun..maxRun` cells along its axis, and costs the sum of the cells entered |
| Y23Day17.World.MovesUpToGrow | src/main/java/org/openjfx/Y23Day17Animation3D.java:154-189 | allowing longer runs keeps all shorter moves |
| Y23Day17.World.MovesComplete | src/main/java/org/openjfx/Y23Day17Animation3D.java:154-250 | every in-field run of allowed length is among the moves, with its cell-sum cost |
| Y23Day17.World.MovesUpToNonNegative | src/main/java/org/openjfx/Y23Day17Animation3D.java:154-189 | every generated move has non-negative heat loss on a digit field |
| Y23Day17.World.CreateDirectionGraph | src/main/java/org/openjfx/Y23Day17Animation3D.java:190-198 | builds, for every cell and both axes, the moves of `minRun..maxRun` cells |
| Y23Day17.World.CreateHeatlossDirectionGraph | src/main/java/org/openjfx/Y23Day17Animation3D.java:190-198 | the graph with runs of 1..3 cells |
| Y23Day17.World.CreateUltraHeatlossDirectionGraph | src/main/java/org/openjfx/Y23Day17Animation3D.java:251-259 | the graph with runs of 4..10 cells |
| Y23Day17.World.GraphClosed | src/main/java/org/openjfx/Y23Day17Animation3D.java:190-259 | every move target is a key of the graph, and a digit field gives non-negative heat losses |
| Y23Day17.World.FindMinimalHeatLoss | src/main/java/org/openjfx/Y23Day17Animation3D.java:279-307 | a returned heat loss is the cost of some walk from a start state to the bottom-right cell and no such walk is cheaper; an empty queue means the cell is unreachable; a missing move list names a reachable state |
| Y23Day17.Dijkstra | src/main/java/org/openjfx/Y23Day17Animation3D.java:280-306 | the search loop over a graph, with the same three outcomes and guarantees |
| Y23Day17.RelaxMoves | src/main/java/org/openjfx/Y23Day17Animation3D.java:300-306 | the loop over the moves computes the relaxation `RelaxAll` |
| Y23Day17.RelaxAllMonotone | src/main/java/org/openjfx/Y23Day17Animation3D.java:300-306 | relaxing never removes or raises a record, and only appends to the queue |
| Y23Day17.RelaxAllTried | src/main/java/org/openjfx/Y23Day17Animation3D.java:300-306 | after relaxing, every move target is recorded at no more than the current cost plus the move |
| Y23Day17.RelaxAllBasics | src/main/java/org/openjfx/Y23Day17Animation3D.java:300-306 | records stay within the reachable states and non-negative |
| Y23Day17.RelaxAllQueueSound | src/main/java/org/openjfx/Y23Day17Animation3D.java:300-306 | every state relaxing queues is justified by a walk of its cost |
| Y23Day17.RelaxAllSynced | src/main/java/org/openjfx/Y23Day17Animation3D.java:300-306 | every unsettled record has a queued state of its cost |
| Y23Day17.RelaxAllKeepsDone | src/main/java/org/openjfx/Y23Day17Animation3D.java:300-306 | settled records are never lowered again |
| Y23Day17.SettledLowered | src/main/java/org/openjfx/Y23Day17Animation3D.java:300-306 | lowering unsettled records keeps the settled ones optimal |
| Y23Day17.RelaxAllQueueAbove | src/main/java/org/openjfx/Y23Day17Animation3D.java:300-306 | with non-negative heat losses nothing queued is cheaper than the polled state |
| Y23Day17.RelaxAllProgress | src/main/java/org/openjfx/Y23Day17Animation3D.java:288-306 | each expansion lowers the search's termination measure |
| Y23Day17.ExpansionKeepsInvariant | src/main/java/org/openjfx/Y23Day17Animation3D.java:288-306 | one poll-and-relax round keeps the whole search invariant |
| Y23Day18.Rot | src/main/java/org/openjfx/Y23Day18Animation3D.java:97 | `rot` gives a direction 0..3, the sum wrapped once |
| Y23Day18.RotLeftRightCancel | src/main/java/org/openjfx/Y23Day18Animation3D.java:94-97 | a left turn undoes a right turn and the other way round |
| Y23Day18.Pos.Min | src/main/java/org/openjfx/Y23Day18Animation3D.java:107-115 | all three branches of `min` give the componentwise minimum |
| Y23Day18.Pos.Max | src/main/java/org/openjfx/Y23Day18Animation3D.java:116-124 | all three branches of `max` give the componentwise maximum |
| Y23Day18.MoveIsOneStep | src/main/java/org/openjfx/Y23Day18Animation3D.java:101-106 | `move(dir)` is `move(dir, 1)` |
| Y23Day18.MoveByAdds | src/main/java/org/openjfx/Y23Day18Animation3D.java:104-106 | moving `a` and then `b` steps is moving `a + b` steps |
| Y23Day18.NeighboursAreAdjacent | src/main/java/org/openjfx/Y23Day18Animation3D.java:126-133 | the neighbours are exactly the cells at Manhattan distance 1 |
| Y23Day18.ToHex | src/main/java/org/openjfx/Y23Day18Animation3D.java:68-75 | the hex digits of a number, padded to the given length |
| Y23Day18.HexValueBound | src/main/java/org/openjfx/Y23Day18Animation3D.java:73 | `n` hex digits are worth less than 16^n |
| Y23Day18.HexValueOfToHex | src/main/java/org/openjfx/Y23Day18Animation3D.java:73 | reading back the hex digits of a number gives the number |
| Y23Day18.ToHexOfHexValue | src/main/java/org/openjfx/Y23Day18Animation3D.java:73 | writing the value of lowercase hex digits gives the digits back |
| Y23Day18.DecodeColor | src/main/java/org/openjfx/Y23Day18Animation3D.java:68-76 | decoding succeeds exactly for five hex digits and a direction digit 0..3, giving steps below 16^5 and a letter of `RDLU` |
| Y23Day18.DecodeEncodedColor | src/main/java/org/openjfx/Y23Day18Animation3D.java:68-76 | encoding steps and a direction and decoding gives them back, with colour `steps * 16 + dir` |
| Y23Day18.DecodedColorDeterminesDigits | src/main/java/org/openjfx/Y23Day18Animation3D.java:68-76 | a decoded colour determines its five hex digits, and the colour is the six-digit value |
| Y23Day18.DirIndex | src/main/java/org/openjfx/Y23Day18Animation3D.java:162 | `indexOf` in `RDLU`: the letter's position, or -1 exactly for other letters |
| Y23Day18.MoveStep | src/main/java/org/openjfx/Y23Day18Animation3D.java:163-164 | one more step from `i` steps is `i + 1` steps |
| Y23Day18.SegmentStep | src/main/java/org/openjfx/Y23Day18Animation3D.java:163-166 | one more iteration digs exactly the next cell |
| Y23Day18.SegmentInBox | src/main/java/org/openjfx/Y23Day18Animation3D.java:167-168 | a straight dig between two cells of a box stays in the box |
| Y23Day18.Dig | src/main/java/org/openjfx/Y23Day18Animation3D.java:163-166 | the dig loop colours exactly the cells after the start, keeps the other cells and ends `steps` cells further (or at the start for no steps) |
| Y23Day18.CellCharWithBorder | src/main/java/org/openjfx/Y23Day18Animation3D.java:215-227 | `getChar(x, y, 1)` is `'.'` exactly on a cell not yet filled, inside the widened box and not dug |
| Y23Day18.CornerIsFree | src/main/java/org/openjfx/Y23Day18Animation3D.java:195 | the flood's start cell before the box is free |
| Y23Day18.FloodFill | src/main/java/org/openjfx/Y23Day18Animation3D.java:192-208 | the fill holds the start corner, only free cells, and every free neighbour of a filled cell |
| Y23Day18.CountInside | src/main/java/org/openjfx/Y23Day18Animation3D.java:228-239 | the counting loops count the box cells not filled from outside |
| Y23Day18.RowInsideBound | src/main/java/org/openjfx/Y23Day18Animation3D.java:230-236 | a row counts at most its width, and all of it when nothing in it was filled |
| Y23Day18.BoxInsideBound | src/main/java/org/openjfx/Y23Day18Animation3D.java:228-239 | the count is at most the box area, and the whole area when nothing in the box was filled |
| Y23Day18.World.constructor | src/main/java/org/openjfx/Y23Day18Animation3D.java:151-160 | an empty field with position and box at the origin |
| Y23Day18.World.Move | src/main/java/org/openjfx/Y23Day18Animation3D.java:161-169 | digs and colours the cells along the direction, keeps the others, moves to the end and widens the box to it |
| Y23Day18.World.FillOutside | src/main/java/org/openjfx/Y23Day18Animation3D.java:192-208 | the filled outside holds the corner before the box, only free cells, and is closed under free neighbours |
| Y23Day18.World.CountCubicmeters | src/main/java/org/openjfx/Y23Day18Animation3D.java:228-239 | the count of box cells not filled from outside |
| Y23Day18.TrenchNeverOutside | src/main/java/org/openjfx/Y23Day18Animation3D.java:228-239 | no dug cell is ever filled, so every trench cell is counted |
| Y23Day18Lines.CellsSize | src/main/java/org/openjfx/Y23Day18Animation3D.java:254-256 | a vertical line of `size()` cells covers that many cells |
| Y23Day18Lines.OverlapsIffSharedCell | src/main/java/org/openjfx/Y23Day18Animation3D.java:251-253 | `overlaps` holds exactly when two vertical lines share a cell, and is symmetric |
| Y23Day18Lines.AreaSizeSplits | src/main/java/org/openjfx/Y23Day18Animation3D.java:266-274 | splitting an area between two columns splits its size |
| Y23Day18Lines.NonEmptyAreaSize | src/main/java/org/openjfx/Y23Day18Animation3D.java:266-274 | a non-empty area has size at least 1 |
| Y23Day18Lines.TotalSizeAppend | src/main/java/org/openjfx/Y23Day18Animation3D.java:359-362 | the summed line sizes add over concatenation |
| Y23Day18Lines.PiecesAreSmaller | src/main/java/org/openjfx/Y23Day18Animation3D.java:406-422 | the pieces left after cutting an overlapping line are ordered and strictly shorter in total |
| Y23Day18Lines.PiecesAreDifference | src/main/java/org/openjfx/Y23Day18Animation3D.java:406-422 | the pieces cover exactly the line's cells outside the cutting line, and overlap it no more |
| Y23Day18Lines.TotalSizeRemove | src/main/java/org/openjfx/Y23Day18Animation3D.java:409 | removing a line removes its size from the total |
| Y23Day18Lines.RemoveOverlaps | src/main/java/org/openjfx/Y23Day18Animation3D.java:406-422 | reports a change exactly when some line overlaps; it then replaces the first overlapping line by its pieces |
| Y23Day18Lines.RemoveFirstEqual | src/main/java/org/openjfx/Y23Day18Animation3D.java:409 | `List.remove(Object)` removes the first equal element |
| Y23Day18Lines.CutShrinks | src/main/java/org/openjfx/Y23Day18Animation3D.java:406-422 | a cut strictly lowers the total size, which ends the splitting loop |
| Y23Day18Lines.CutKeepsCells | src/main/java/org/openjfx/Y23Day18Animation3D.java:406-422 | a cut loses only cells of the cutting line |
| Y23Day18Lines.CellSet | src/main/java/org/openjfx/Y23Day18Animation3D.java:359-362 | the set of cells a list of lines covers |
| Y23Day18Lines.SizeSumCountsCells | src/main/java/org/openjfx/Y23Day18Animation3D.java:359-362 | for ordered, pairwise apart lines the summed sizes count the covered cells |
| Y23Day18Lines.CutKeepsApart | src/main/java/org/openjfx/Y23Day18Animation3D.java:406-422 | cutting keeps the split lines pairwise apart |
| Y23Day18Lines.CutAgainst | src/main/java/org/openjfx/Y23Day18Animation3D.java:388-402 | one pass over the border or inner lines either finds none overlapping or cuts once and shrinks the total |
| Y23Day18Lines.SplitInnerVLine | src/main/java/org/openjfx/Y23Day18Animation3D.java:381-404 | the split pieces cover exactly the new line's cells on no border line and no earlier inner line, and are pairwise apart |
| Y23Day18Lines.CoversAppend | src/main/java/org/openjfx/Y23Day18Animation3D.java:403 | `addAll` covers the cells of both lists |
| Y23Day18Lines.PairwiseApartAppend | src/main/java/org/openjfx/Y23Day18Animation3D.java:403 | appending apart pieces keeps the inner lines pairwise apart |
| Y23Day18Lines.Xs | src/main/java/org/openjfx/Y23Day18Animation3D.java:333 | the x coordinates of the vertical lines, in order |
| Y23Day18Lines.Crossing | src/main/java/org/openjfx/Y23Day18Animation3D.java:339 | the horizontal lines spanning a column |
| Y23Day18Lines.CrossingByY | src/main/java/org/openjfx/Y23Day18Animation3D.java:339 | those lines, sorted by y |
| Y23Day18Lines.NeighboursAreConsecutive | src/main/java/org/openjfx/Y23Day18Animation3D.java:336-338 | neighbouring entries of the sorted distinct x list have no x between them |
| Y23Day18Lines.AreaSumAppend | src/main/java/org/openjfx/Y23Day18Animation3D.java:345-346 | the summed area sizes add over concatenation |
| Y23Day18Lines.AreaSumCountsAreas | src/main/java/org/openjfx/Y23Day18Animation3D.java:345-346 | each non-empty area adds at least 1 |
| Y23Day18Lines.VEdgeSumDropsCorners | src/main/java/org/openjfx/Y23Day18Animation3D.java:366-369 | the vertical-edge sum is the sizes minus one per line |
| Y23Day18Lines.SumSizes | src/main/java/org/openjfx/Y23Day18Animation3D.java:359-362 | the loop sums the inner line sizes |
| Y23Day18Lines.SumVEdges | src/main/java/org/openjfx/Y23Day18Animation3D.java:366-369 | the loop sums `size() - 1` over the vertical lines |
| Y23Day18Lines.SumHEdges | src/main/java/org/openjfx/Y23Day18Animation3D.java:373-376 | the loop sums `size() - 1` over the horizontal lines |
| Y23Day18Lines.BorderJoinsEnds | src/main/java/org/openjfx/Y23Day18Animation3D.java:303-316 | the line built for a move runs between the old and the new position |
| Y23Day18Lines.PutEndpoints | src/main/java/org/openjfx/Y23Day18Animation3D.java:307-322 | both endpoints are stored, stopping after the first clash; it succeeds exactly when neither endpoint was taken and they differ |
| Y23Day18Lines.World2.constructor | src/main/java/org/openjfx/Y23Day18Animation3D.java:289-300 | empty line lists and endpoint maps, all positions at the origin |
| Y23Day18Lines.World2.Move | src/main/java/org/openjfx/Y23Day18Animation3D.java:301-327 | appends the line of the move to the list for its axis, registers its endpoints, and fails exactly on a duplicate endpoint; on failure the endpoint map holds what the `put`s stored before the clash; position and box move only on success |
| Y23Day18Lines.World2.AddInnerVLine | src/main/java/org/openjfx/Y23Day18Animation3D.java:381-405 | the inner lines afterwards cover the old inner cells plus the new line's cells on no border line, and stay pairwise apart |
| Y23Day18Lines.World2.CountCubicmeters | src/main/java/org/openjfx/Y23Day18Animation3D.java:331-380 | fails exactly when some column has an odd number of crossing lines, after filling the columns up to the first such one; the added areas are `AllColumnAreas` of the borders, the inner border cells grow by the cells of `AllColumnInner` on no border, and the result is the area sum plus the distinct inner border cells plus both edge sums |
| Y23Day18Lines.AddInner | src/main/java/org/openjfx/Y23Day18Animation3D.java:381-405 | the inner-line update over values: covers the old cells plus the new cells on no border line |
| Y23Day18Lines.FillColumn | src/main/java/org/openjfx/Y23Day18Animation3D.java:339-354 | the areas added are `ColumnAreas`: one per pair `crossing[2k]`, `crossing[2k+1]` whose rectangle strictly between them is non-empty, each enclosed; the inner borders grow by the cells of the pair rows at `fromX` and `toX` (`ColumnInner`) on no border; the sum is their size; fails exactly on an odd count |
| Y23Day18Lines.CoversGrow | src/main/java/org/openjfx/Y23Day18Animation3D.java:350-353 | adding the uncovered cells of one more batch of inner borders adds the cells of the batches joined |
| Y23Day18Lines.CoversPair | src/main/java/org/openjfx/Y23Day18Animation3D.java:351-352 | the two inner borders of a pair cover exactly the cells of either one |
| Y23Day18Lines.FillColumns | src/main/java/org/openjfx/Y23Day18Animation3D.java:336-355 | the loop over the columns left to right; it stops after the first odd column and fails exactly when some column is odd; the areas added are the column areas of the columns filled, in order (`AllColumnAreas`), and the inner borders grow by the cells of their pair rows on no border (`AllColumnInner`) |
| Y23Day18Lines.FillNextColumn | src/main/java/org/openjfx/Y23Day18Animation3D.java:337-354 | one pass of the outer loop takes the state after `i` columns to the state after `i + 1` columns, and fails exactly when column `i` is odd |
| Y23Day18Lines.FilledStep | src/main/java/org/openjfx/Y23Day18Animation3D.java:336-355 | adding the areas, sizes and inner borders of column `i` to the state after `i` columns gives the state after `i + 1` columns |
| Y23Day18Lines.FilledCells | src/main/java/org/openjfx/Y23Day18Animation3D.java:350-353 | the inner border cells after filling are the old ones plus the cells of `AllColumnInner` on no border |
| Y23Day18Lines.PairedAreasEnclosed | src/main/java/org/openjfx/Y23Day18Animation3D.java:341-349 | every area a column's pairs add is non-empty and lies between neighbouring x positions and two crossing borders |
| Y23Day18Lines.ColumnAreasEnclosed | src/main/java/org/openjfx/Y23Day18Animation3D.java:336-349 | every area of column `i` is non-empty and enclosed |
| Y23Day18Lines.AllColumnAreasEnclosed | src/main/java/org/openjfx/Y23Day18Animation3D.java:336-349 | every area of the first `n` columns is non-empty and enclosed |
| Y23Day18Lines.SumBorders | src/main/java/org/openjfx/Y23Day18Animation3D.java:357-378 | the three closing loops add the distinct inner border cells and `size() - 1` over both kinds of outer border |
| Y23Day22.NewBrickAsWritten | src/main/java/org/openjfx/Y23Day22.java:99-117 | the constructor as written rejects order exactly when `from.x > to.x` or both `from.y > to.y` and `from.z > to.z`, and accepts at most one differing axis |
| Y23Day22.NewBrick | src/main/java/org/openjfx/Y23Day22.java:99-117 | the corrected constructor accepts exactly ordered bricks that differ on at most one axis |
| Y23Day22.AsWrittenAcceptsBackwardsBrick | src/main/java/org/openjfx/Y23Day22.java:101 | the check as written accepts the backwards brick from (0,1,0) to (0,0,0), which then overlaps nothing, not even itself; the corrected check rejects it |
| Y23Day22.CorrectedIsStricter | src/main/java/org/openjfx/Y23Day22.java:101-116 | every brick the corrected check accepts is accepted as written |
| Y23Day22.OverlapsIffSharedCell | src/main/java/org/openjfx/Y23Day22.java:118-125 | for ordered bricks `overlaps` holds exactly when they share a cell (the duplicate position `show3D` rejects), and is symmetric and reflexive |
| Y23Day22.Down | src/main/java/org/openjfx/Y23Day22.java:141-143 | `down` keeps the id and moves the brick |
| Y23Day22.DownShiftsCells | src/main/java/org/openjfx/Y23Day22.java:141-143 | the lowered brick occupies exactly the cells one below, and stays well formed |
| Y23Day22.CheckNoOverlap | src/main/java/org/openjfx/Y23Day22.java:185-192 | true exactly when the brick overlaps none of the others |
| Y23Day22.Sorted | src/main/java/org/openjfx/Y23Day22.java:167 | the bricks sorted by lower z: sorted, a permutation, same length, and bricks of equal lower z in their input order |
| Y23Day22.Pass | src/main/java/org/openjfx/Y23Day22.java:168-181 | the falling pass keeps each brick or lowers it by one, keeping ids and length |
| Y23Day22.ChangedZero | src/main/java/org/openjfx/Y23Day22.java:176 | the changed count is zero exactly when nothing changed, and at most the length |
| Y23Day22.PassPrefix | src/main/java/org/openjfx/Y23Day22.java:168-181 | the pass on a prefix is the prefix of the pass |
| Y23Day22.PassLowersExactly | src/main/java/org/openjfx/Y23Day22.java:171-179 | a brick is lowered exactly when its lowered copy stays above 0 and overlaps none of the bricks already placed |
| Y23Day22.PassUnique | src/main/java/org/openjfx/Y23Day22.java:168-181 | any sequence satisfying that rule brick by brick is the pass |
| Y23Day22.ZeroPassIsFixedPoint | src/main/java/org/openjfx/Y23Day22.java:273 | when a pass lowers nothing the stack is unchanged and the next pass lowers nothing either, so the loop stops |
| Y23Day22.DownStaysClear | src/main/java/org/openjfx/Y23Day22.java:174-178 | lowering a brick keeps it clear of a brick at or above its lower end |
| Y23Day22.PassKeepsDisjoint | src/main/java/org/openjfx/Y23Day22.java:168-181 | on sorted, ordered, non-overlapping bricks the pass keeps them non-overlapping |
| Y23Day22.DisjointOnce | src/main/java/org/openjfx/Y23Day22.java:229-234 | non-overlapping ordered bricks occur at most once |
| Y23Day22.DisjointPermutation | src/main/java/org/openjfx/Y23Day22.java:167 | reordering keeps bricks ordered and non-overlapping |
| Y23Day22.BricksFallKeepsDisjoint | src/main/java/org/openjfx/Y23Day22.java:163-184 | `bricksFall` never makes two bricks overlap |
| Y23Day22.BricksFallKeepsIds | src/main/java/org/openjfx/Y23Day22.java:163-184 | `bricksFall` keeps the number of bricks and their ids |
| Y23Day22.RemoveFirstRemoves | src/main/java/org/openjfx/Y23Day22.java:200 | `List.remove` takes away one occurrence, or nothing for an absent brick |
| Y23Day22.SumZeroIffAllCandidates | src/main/java/org/openjfx/Y23Day22.java:196-215 | the sum of falling bricks is zero exactly when every brick is a disintegration candidate |
| Y23Day22.Place | src/main/java/org/openjfx/Y23Day22.java:170-180 | one iteration places the brick as the pass does, and reports whether it dropped |
| Y23Day22.FallInOrder | src/main/java/org/openjfx/Y23Day22.java:169-181 | the loop computes the pass and counts the bricks it changed |
| Y23Day22.World.constructor | src/main/java/org/openjfx/Y23Day22.java:150-153 | a world without bricks or candidates |
| Y23Day22.World.FromBricks | src/main/java/org/openjfx/Y23Day22.java:154-156 | a world holding a copy of the bricks |
| Y23Day22.World.Copy | src/main/java/org/openjfx/Y23Day22.java:157-159 | a fresh world with the same bricks |
| Y23Day22.World.AddBrick | src/main/java/org/openjfx/Y23Day22.java:160-162 | appends the brick |
| Y23Day22.World.BricksFall | src/main/java/org/openjfx/Y23Day22.java:163-184 | the bricks become the pass over them sorted by lower z, and the result counts the bricks that moved |
| Y23Day22.World.FallWithout | src/main/java/org/openjfx/Y23Day22.java:198-201 | the bricks that move in one pass after removing one brick from a copy; the world is unchanged |
| Y23Day22.World.CalcDisintegrationCandidates | src/main/java/org/openjfx/Y23Day22.java:196-206 | exactly the bricks whose removal lets no brick fall in one pass, without duplicates, stored and returned |
| Y23Day22.World.CalcSumFalling | src/main/java/org/openjfx/Y23Day22.java:207-215 | the number of bricks that move, summed over the removal of each brick |
| Y23Day25.AddEdge | src/main/java/org/openjfx/Y23Day25.java:201-206 | connecting two nodes adds exactly the edge both ways |
| Y23Day25.RemoveEdge | src/main/java/org/openjfx/Y23Day25.java:295-300 | removing a wire takes away exactly the edge both ways |
| Y23Day25.RemoveEdgeKeepsSymmetric | src/main/java/org/openjfx/Y23Day25.java:295-300 | a symmetric neighbour relation stays symmetric |
| Y23Day25.RemoveThenAddRestores | src/main/java/org/openjfx/Y23Day25.java:295-300 | removing an existing wire and connecting it again restores the relation |
| Y23Day25.EmptyAdjacency | src/main/java/org/openjfx/Y23Day25.java:190-194 | one node per name and no edges |
| Y23Day25.ConnectChildren | src/main/java/org/openjfx/Y23Day25.java:196-198 | connecting a node to its children adds exactly those edges both ways |
| Y23Day25.ConnectAll | src/main/java/org/openjfx/Y23Day25.java:195-199 | connecting every node to its children adds exactly the named edges both ways |
| Y23Day25.TopologyEdges | src/main/java/org/openjfx/Y23Day25.java:189-200 | the topology has an edge exactly where the diagram names one in either direction, and is symmetric |
| Y23Day25.SplitOn | src/main/java/org/openjfx/Y23Day25.java:320 | splitting gives at least one part and no part holds the separator |
| Y23Day25.DropTrailingEmpty | src/main/java/org/openjfx/Y23Day25.java:320 | `split` drops exactly the trailing empty parts |
| Y23Day25.SplitOnJoin | src/main/java/org/openjfx/Y23Day25.java:320 | splitting at the first separator peels off the part before it |
| Y23Day25.SplitWireName | src/main/java/org/openjfx/Y23Day25.java:319-322 | the wire name `a-b` splits into `a` and `b` |
| Y23Day25.ReachableStep | src/main/java/org/openjfx/Y23Day25.java:301-318 | a neighbour of a reachable node is reachable |
| Y23Day25.ClosedHoldsPath | src/main/java/org/openjfx/Y23Day25.java:301-318 | a node set closed under neighbours holds every path starting in it |
| Y23Day25.ComponentUnique | src/main/java/org/openjfx/Y23Day25.java:301-318 | the component of a node is unique |
| Y23Day25.QueueNeighbours | src/main/java/org/openjfx/Y23Day25.java:310-315 | the inner loop queues exactly the neighbours not yet in the cluster |
| Y23Day25.CountCluster | src/main/java/org/openjfx/Y23Day25.java:301-318 | succeeds exactly for a known start node and returns the size of its component, between 1 and the node count |
| Y23Day25.SearchStep | src/main/java/org/openjfx/Y23Day25.java:305-316 | one iteration keeps the search invariant |
| Y23Day25.SearchDone | src/main/java/org/openjfx/Y23Day25.java:305 | with an empty queue the cluster is the component |
| Y23Day25.GetOrCreate | src/main/java/org/openjfx/Y23Day25.java:182-184 | `computeIfAbsent` keeps an existing node and adds a childless one otherwise, remembering insertion order |
| Y23Day25.AddChild | src/main/java/org/openjfx/Y23Day25.java:178-179 | appends one child, creating it if new |
| Y23Day25.AddAllKeys | src/main/java/org/openjfx/Y23Day25.java:176-181 | after adding children the nodes are the old ones plus the children |
| Y23Day25.AddAllAppends | src/main/java/org/openjfx/Y23Day25.java:176-181 | the node's children grow by exactly the new list, in order |
| Y23Day25.AddAllKeepsOthers | src/main/java/org/openjfx/Y23Day25.java:176-181 | other nodes keep their children; new ones have none |
| Y23Day25.AddChildren | src/main/java/org/openjfx/Y23Day25.java:177-180 | the loop over the child names computes `AddAll` |
| Y23Day25.ConnectNode | src/main/java/org/openjfx/Y23Day25.java:196-198 | the loop over one node's children computes `ConnectChildren` |
| Y23Day25.AddAllNodes | src/main/java/org/openjfx/Y23Day25.java:190-194 | the first loop creates one node without neighbours per name (`EmptyAdjacency`) |
| Y23Day25.BuildTopology | src/main/java/org/openjfx/Y23Day25.java:189-200 | the two loops compute `Topology` |
| Y23Day25.World.constructor | src/main/java/org/openjfx/Y23Day25.java:172-175 | empty node tables |
| Y23Day25.World.GetOrCreateNode | src/main/java/org/openjfx/Y23Day25.java:182-184 | the node table after `GetOrCreate` |
| Y23Day25.World.AddNode | src/main/java/org/openjfx/Y23Day25.java:176-181 | the node is created if needed and its children appended |
| Y23Day25.World.Create3DTopology | src/main/java/org/openjfx/Y23Day25.java:189-206 | the neighbour relation becomes the topology of the diagram |
| Y23Day25.World.Remove | src/main/java/org/openjfx/Y23Day25.java:295-300 | succeeds exactly when both nodes exist, and then removes the wire both ways; otherwise nothing changes |
| Y23Day25.World.RemoveLine | src/main/java/org/openjfx/Y23Day25.java:319-322 | splits the wire name at `-` and removes that wire; fails exactly when there are fewer than two parts or a node is unknown |
| Y23Day25.World.CountClusterOf | src/main/java/org/openjfx/Y23Day25.java:301-318 | the size of the start node's component, or a failure for an unknown node |
| Y22Day22.TurnDir | src/main/java/org/openjfx/Y22Day22Animation.java:547-554 | `R` turns clockwise, any other letter counter-clockwise, `'\0'` not at all |
| Y22Day22.TurnsCancel | src/main/java/org/openjfx/Y22Day22Animation.java:547-554 | a left turn undoes a right turn and the other way round |
| Y22Day22.Rotate | src/main/java/org/openjfx/Y22Day22Animation.java:584-591 | the quarter-turn of a face keeps a cell on the face |
| Y22Day22.RotateIsMatrixAboutCentre | src/main/java/org/openjfx/Y22Day22Animation.java:135-144 | the integer quarter-turn is the `ROT` matrix applied about the face centre, as `singleStep` computes it |
| Y22Day22.RotateInverse | src/main/java/org/openjfx/Y22Day22Animation.java:584-591 | turning by `rot` and then by the remaining quarter-turns gives back the cell |
| Y22Day22.LocalOf | src/main/java/org/openjfx/Y22Day22Animation.java:289 | the cell on its face lies inside the face |
| Y22Day22.MaxLen | src/main/java/org/openjfx/Y22Day22Animation.java:278-282 | the longest row length: no row is longer and some row has it |
| Y22Day22.MaxRowLength | src/main/java/org/openjfx/Y22Day22Animation.java:278-282 | the loop of `init` computes it |
| Y22Day22.FaceRoundTrip | src/main/java/org/openjfx/Y22Day22Animation.java:287-289 | splitting a map cell into face and cell and mapping back (`rememberPosition`, `get(sf, x, y)`) gives the cell |
| Y22Day22.GlobalRoundTrip | src/main/java/org/openjfx/Y22Day22Animation.java:556-557 | mapping a face cell to the map and splitting again gives the same face and cell |
| Y22Day22.ToDecimal | src/main/java/org/openjfx/Y22Day22Animation.java:624-633 | the decimal digits of a number |
| Y22Day22.DecimalRoundTrip | src/main/java/org/openjfx/Y22Day22Animation.java:624-633 | reading back those digits gives the number |
| Y22Day22.DigitsAtPrefix | src/main/java/org/openjfx/Y22Day22Animation.java:624-633 | the digit run read stops at the first non-digit |
| Y22Day22.ParsesMove | src/main/java/org/openjfx/Y22Day22Animation.java:539-542 | a move written as a number and a turn letter is read back as that number |
| Y22Day22.OrientationDecodes | src/main/java/org/openjfx/Y22Day22Animation.java:468-490 | an entry `10 * to + rot` gives back the face and the quarter-turns |
| Y22Day22.OrientationKeyInjective | src/main/java/org/openjfx/Y22Day22Animation.java:470 | distinct (face, direction) pairs have distinct keys |
| Y22Day22.ReadNumber | src/main/java/org/openjfx/Y22Day22Animation.java:624-633 | the loop reads the longest run of digits, returns its value and stops on a non-digit |
| Y22Day22.Cube.Get | src/main/java/org/openjfx/Y22Day22Animation.java:512-517 | `' '` outside the map or past a short row, else the map character |
| Y22Day22.Cube.SingleStep | src/main/java/org/openjfx/Y22Day22Animation.java:579-604 | one step stays on a face; it fails where the source would throw |
| Y22Day22.Cube.SingleStepMoves | src/main/java/org/openjfx/Y22Day22Animation.java:579-597 | a step never ends on a wall; inside a face it moves by the direction vector; it fails only on a missing table entry or a rotation outside 0..3 |
| Y22Day22.Cube.WalkFrom | src/main/java/org/openjfx/Y22Day22Animation.java:560-578 | a walk ends on a face cell |
| Y22Day22.Cube.WalkStopsAtWall | src/main/java/org/openjfx/Y22Day22Animation.java:563-570 | a walk takes at most the asked steps, and stops early only in front of a wall |
| Y22Day22.Cube.WalkConcatenates | src/main/java/org/openjfx/Y22Day22Animation.java:560-578 | walking `a + b` steps is walking `a` steps and then `b` more, unless a wall stopped the walker |
| Y22Day22.Mark | src/main/java/org/openjfx/Y22Day22Animation.java:556-558 | `rememberPosition` adds exactly the walker's map cell to the path |
| Y22Day22.WalkSteps | src/main/java/org/openjfx/Y22Day22Animation.java:560-578 | the walk loop succeeds exactly when `WalkFrom` does, ends where it ends, and marks the end cell |
| Y22Day22.FindStartPos | src/main/java/org/openjfx/Y22Day22Animation.java:492-501 | the first free cell row by row, or none exactly when the map has no free cell |
| Y22Day22.World.constructor | src/main/java/org/openjfx/Y22Day22Animation.java:263-267 | an empty world of the given face size |
| Y22Day22.World.AddRow | src/main/java/org/openjfx/Y22Day22Animation.java:268-270 | appends the row |
| Y22Day22.World.SetMovements | src/main/java/org/openjfx/Y22Day22Animation.java:271-274 | stores the movement string and restarts at 0 |
| Y22Day22.World.Orientation | src/main/java/org/openjfx/Y22Day22Animation.java:468-482 | stores the entry; true for a new one, false for the same again, a failure after overwriting with a different one; the stored entry reads back as face and quarter-turns |
| Y22Day22.World.HasMoves | src/main/java/org/openjfx/Y22Day22Animation.java:536-538 | there is another character to read |
| Y22Day22.World.NextMovementChar | src/main/java/org/openjfx/Y22Day22Animation.java:612-616 | returns the peeked character and advances by one |
| Y22Day22.World.NextMovementTurn | src/main/java/org/openjfx/Y22Day22Animation.java:617-623 | succeeds exactly on `L`, `R` or the end, and advances by one either way |
| Y22Day22.World.NextMovementInt | src/main/java/org/openjfx/Y22Day22Animation.java:624-633 | reads the decimal value of the digit run and stops on a non-digit |
| Y22Day22.World.RememberPosition | src/main/java/org/openjfx/Y22Day22Animation.java:556-558 | marks the walker's map cell with its direction character |
| Y22Day22.World.Turn | src/main/java/org/openjfx/Y22Day22Animation.java:547-555 | turns as `TurnDir` says and marks the cell, except for `'\0'` |
| Y22Day22.World.Walk | src/main/java/org/openjfx/Y22Day22Animation.java:560-578 | succeeds exactly when `WalkFrom` does, ends where it ends, and marks the end cell; the map is unchanged |
| Y22Day22.World.LoadField | src/main/java/org/openjfx/Y22Day22Animation.java:276-283 | the rows become the map, the width is the longest row, and the faces per face row are `cols / cubeSize` |
| Y22Day22.World.PlaceWalker | src/main/java/org/openjfx/Y22Day22Animation.java:285-292 | the walker faces right on the face and cell of the first free cell; fails exactly without a free cell or on a map narrower than a face |
| Y22Day22.World.Init | src/main/java/org/openjfx/Y22Day22Animation.java:275-292 | loads the map and places the walker, with the same outcomes |
| Y22Day22.World.NextMove | src/main/java/org/openjfx/Y22Day22Animation.java:539-546 | reads a number and a turn, then walks and turns; fails exactly on a bad turn letter or a failing walk |

## Left out

- Graphics and output are not modelled: every `show3D`, `output`, `toString`, `showBorder`, `showMinimalMoves` and `printZTicks`, and every `System.out.println`.
- The force-directed layouts are not modelled: `Pos3D`, `Node3D` positions, `move3DNodes`, `create3DTopology` of the day 8 worlds, and `findLongestLine`. They use floating point and a random generator.
- Input parsing (`InputProcessor` and the regular expressions) is not modelled. Its one computation, the day 18 colour decode, is `Y23Day18.DecodeColor` on the extracted digits.
- The `main` and `mainPart` drivers are not modelled. The `Y23Day22.java:273` loop that repeats `bricksFall` is covered only by `Y23Day22.ZeroPassIsFixedPoint`.
- Java `int`/`long` overflow is not modelled: all arithmetic is on unbounded integers.
- `recursiveGetShortestPath` and the `searchPaths` bookkeeping used only for display are not modelled.
- The 2022 day 22 `autoDefineOrientations`, `initCorners`, `createSD` and `surfaceExists` are not modelled; they build the orientation table and the 3D corners. `Y22Day22.World.Orientation` models the table entry they add, and the walk takes the table as given.
- Y22Day22.World.Init: leaves out the automatic orientation table and the corner set-up that `init` also runs.
- Y22Day22.Cube.SingleStep: replaces the floating-point rotation about the face centre, with its `+ 0.001` and truncation, by the exact integer map `Rotate`. `Y22Day22.RotateIsMatrixAboutCentre` ties that map to the `ROT` matrices.
- Y22Day22.World.Walk: on failure it states only that the walk failed, not on which cell the walker stopped.
- Y23Day08.World2.Tick: on failure (a walker without a node, or no instructions) it does not describe the partly updated walkers.
- Y23Day08.World.Tick: an unset movement string (`null`) is modelled as the empty string; both make `tick` fail.
- Y23Day08.World2.CalcTicksForAllZ: follows `Y23Day08Animation3D.java`. In `Y23Day08.java` the same loop calls the unguarded `kgV`, which is `Y23Day08.KgvUnguarded`. That file's `printZTicks` (Y23Day08.java:289-294), which `calcTicksForAllZ` calls on every detector, also reads the first and the last five recorded node names without bounds. It throws whenever a detector has recorded fewer than five pairs. The model returns a value there, as the clamped loops of `Y23Day08Animation3D.java` do.
- Y23Day17.World.FindMinimalHeatLoss: requires non-negative heat losses, which the input pattern of digits guarantees (`Y23Day17.World.GraphClosed`). Among entries of equal cost, `poll` takes the first, where Java's priority queue may take any one. That choice changes only which state a `NoMoves` failure names.
- Y23Day18.World.Move: requires a direction letter of `RDLU`, which the input pattern guarantees.
- Y23Day18.World.FillOutside: states that the fill holds the corner, only free cells, and every free neighbour of a filled cell. It does not state that the fill holds nothing else.
- Y23Day18.FloodFill: the loop of `FillOutside`, with the same gap: the fill is closed and free, but is not stated to hold only the component of the corner.
- Y23Day18.World.CountCubicmeters: counts the box cells the fill leaves, so it carries the same gap. It is exact only relative to the fill, and the fill is not stated to be minimal.
- Y23Day22.NewBrick: takes the brick id as a parameter. The global `AtomicInteger` counter that numbers bricks is not modelled.
- Y23Day22.World.FromBricks: starts with an empty candidate list where the source leaves the field `null`.
- Y23Day25.World.Create3DTopology: nodes are identified by their unique names, and the random start positions are not modelled.
- `Y23Day24.java`, `GUIOutput3D.java`, `Y23GUIOutput3D18current.java` and `Sample.java` are not part of this model.

## Findings

| source | as written | input that shows it | evidently intended | confidence | as-written member | corrected member |
|---|---|---|---|---|---|---|
| src/main/java/org/openjfx/Y23Day22.java:101 | `(from.x>to.x) \|\| (from.y>to.y) && (from.z>to.z)`: `&&` binds tighter, so a brick backwards in y alone (or z alone) passes | `new Brick(Pos(0,1,0), Pos(0,0,0))` is accepted; the accepted brick overlaps nothing, not even itself | reject a brick that is backwards on any axis (`\|\|` throughout, as the message "from > to" says) | not executed | Y23Day22.NewBrickAsWritten, Y23Day22.AsWrittenAcceptsBackwardsBrick | Y23Day22.NewBrick |
