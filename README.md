# Vehicle simulation core, modelled in Dafny

This project models the core of a grid-based traffic simulation. Electric vehicles move along
paths over a road network. A traffic manager switches signal phases and decides, cell by cell,
whether a vehicle may move. The model proves what that core promises.

The core has these parts:

- **Road cells and signals** (`Node`, `TrafficNode`). A signal phase steps `(signal + 1) % 4` in
  Java `int` arithmetic and is green only in phase 0. `equals` compares the run-time class and
  the coordinates, and `hashCode` agrees with it. `get_pair` looks for a partner signal in the
  same phase.
- **The arbiter** (`TrafficManager.canMoveToPosition`). Near a signal, a move needs two move
  intervals (2 x 500 ms) before the next signal change (every 5000 ms). From a plain cell the
  target must be free. From a signal cell the lights must be green. A grant releases the current
  cell and claims the target. A missing cell gives the `NullPointerException` Java would throw.
- **Vehicles** (`EV`, `NPCVehicle`). They cover moving along the path, heading, charging capped
  at 100 on 32 bits, and the wandering vehicle's random re-routing. The path finder's flat
  `long[]` result is decoded into cells, and decoding undoes the flattening.
- **The vehicle registry and REST operations** (`EVController`). These are create, start, delete,
  step, status, signal listing and signal change, plus the movement loop. The console simulation
  (`TerminalSimulation`) has its own constructor, which registers EV1 and EV2, its own start
  operation and movement loop, and a path decoder that clamps coordinates into the map. The
  console movement loop is proved equal to a run function, `Drive`, over the clock readings.
  Each pass of `Drive` is the arbiter's decision under the flags the earlier passes left, one
  cell per grant, and a crash on a `NullPointerException`.
- **The buffer of tasks** (`TaskAssigner`). It is a first-in first-out queue. Its head goes to the
  first idle vehicle.
- **The road graph** (`RoadMapParser`, `GameMap`).
  - The parser builds the graph from the map grid and the signal grid. The proof shows that the
    graph holds exactly the road cells and the cells they list. Each node is typed by its signal
    cell, and each road cell's node gets its listed neighbours in order.
  - The parser throws exactly when the grids are not well formed.
  - The depth-first searches answer reachability exactly.
  - `parseCoordinates` reads back every cell text the map tools write.
- **The path finder** (`dijkstra.cpp`). Dijkstra's algorithm with unit weights returns a shortest
  walk between two nodes, or nothing exactly when the end cannot be reached.
- **The Python map tools** (`map_generator.py`, `map_editor.py`), covering:
  - adjacency dictionaries that stay symmetric and duplicate free when roads are connected and
    cells erased;
  - the grid generator;
  - reading back the CSV grids both tools write, for the map cells and the signal cells.

Clocks, random draws, the native path finder and the order in which hash maps are iterated are
all parameters. The model takes the CSV files as grids that have already been read and split,
with each cell trimmed.

Where the code and its description disagree, the model follows the code:

- `TaskAssigner.getInstance` never stores its instance. Every call therefore empties the shared
  buffer.
- The generator's signal grid is not shifted to the 1-based keys of its map grid.
- `TrafficNode.get_pair` probes diagonal-like offsets `(1,3)`, `(-3,1)`, `(-1,-3)`, `(3,-1)`.
- `RoadMapParser.getOrCreateNode` returns an existing node whatever its type.

## Model

| member | source | states |
|---|---|---|
| JavaInt.Wrap | src/main/java/radiant/seven/EV.java:279-285 | the 32-bit cast `(int)` of a `long`: identity on the `int` range, `MAX_VALUE + 1` wraps to `MIN_VALUE` and `MIN_VALUE - 1` to `MAX_VALUE` |
| JavaInt.Rem | src/main/java/radiant/seven/TrafficNode.java:31-33 | Java's `%` for a positive divisor: the remainder has the dividend's sign, is smaller than the divisor in magnitude, and leaves small values unchanged |
| JavaInt.Min | src/main/java/radiant/seven/TerminalSimulation.java:118-119 | `Math.min`: a lower bound of both arguments and one of them |
| JavaInt.Max | src/main/java/radiant/seven/TerminalSimulation.java:118-119 | `Math.max`: an upper bound of both arguments and one of them |
| Decimal.NaturalText | src/main/java/radiant/seven/RoadMapParser.java:141 | the numeral of a natural number is non-empty, all digits, with no leading zero |
| Decimal.Text | src/main/java/radiant/seven/RoadMapParser.java:141 | the decimal text Java and Python write: digits with at most a leading minus sign |
| Decimal.DigitsValueOfNaturalText | src/main/java/radiant/seven/RoadMapParser.java:121-122 | a numeral's value is the number it was written from |
| Decimal.ParseJavaInt | src/main/java/radiant/seven/RoadMapParser.java:121-122 | `Integer.parseInt` succeeds exactly on a sign and digits whose value lies in the `int` range, and then gives that value |
| Decimal.SignedValueOfText | src/main/java/radiant/seven/RoadMapParser.java:121-122 | the text of any integer reads as that integer |
| Decimal.ParseJavaIntOfText | src/main/java/radiant/seven/RoadMapParser.java:121-122 | `parseInt` reads back every `int` Java writes |
| Decimal.TextInjective | src/main/java/radiant/seven/RoadMapParser.java:141 | distinct integers have distinct texts |
| Decimal.TrimStart | src/main/java/radiant/seven/RoadMapParser.java:121-122 | the part of `trim` that drops leading characters up to U+0020, and only those |
| Decimal.TrimEnd | src/main/java/radiant/seven/RoadMapParser.java:121-122 | the part of `trim` that drops trailing characters up to U+0020, and only those |
| Decimal.TrimOfText | src/main/java/radiant/seven/RoadMapParser.java:121-122 | `trim` leaves the text of an integer unchanged |
| Decimal.StripPythonSpace | src/tools/map_editor.py:343 | the result is a slice of the text with only whitespace outside it and none at its own ends; text without outer whitespace is kept |
| Decimal.ParsePythonIntOfText | src/tools/map_editor.py:343 | Python's `int` reads back every integer `str` writes |
| Coords.KeyInjective | src/main/java/radiant/seven/RoadMapParser.java:141-149 | distinct cells have distinct `"x,y"` keys, so the string-keyed maps are maps keyed by cells |
| CellFormat.CellTextOfNonEmpty | src/tools/map_generator.py:65-74 | a non-empty neighbour list is written as text that starts with `(` and is never `"0"` |
| CellParsing.DropTrailingEmpty | src/main/java/radiant/seven/RoadMapParser.java:114 | `String.split` drops exactly the trailing empty pieces and keeps the rest in order |
| CellParsing.Reading | src/main/java/radiant/seven/RoadMapParser.java:116-127 | one part of a cell yields at most one coordinate, both numbers in the `int` range |
| CellParsing.Collect | src/main/java/radiant/seven/RoadMapParser.java:116-128 | the parts yield at most one coordinate each, all in the `int` range |
| CellParsing.PartsOfCellText | src/main/java/radiant/seven/RoadMapParser.java:114 | splitting a written cell text at its parentheses gives a leading empty part and then one part per item |
| CellParsing.ParsePartOfInner | src/main/java/radiant/seven/RoadMapParser.java:118-123 | an item `x,y` reads back as the cell it was written from |
| CellParsing.CollectSnoc | src/main/java/radiant/seven/RoadMapParser.java:116-128 | parts are read in order, and each adds its own reading at the end |
| CellParsing.CollectOfEmptyPart | src/main/java/radiant/seven/RoadMapParser.java:117 | the empty leading part adds nothing |
| CellParsing.CollectReadable | src/main/java/radiant/seven/RoadMapParser.java:116-128 | readable parts after the leading empty part give their coordinates in order |
| CellParsing.CoordinatesOfCellText | src/main/java/radiant/seven/RoadMapParser.java:112-130 | `parseCoordinates` inverts the cell text the map tools write, for every list of `int` cells, `"0"` included |
| RoadMaps.RoadMapParser.ParseCoordinates | src/main/java/radiant/seven/RoadMapParser.java:112-130 | the loop returns what `CoordinatesOf` specifies, which `CoordinatesOfCellText` ties to the writer |
| Nodes.Node.constructor | src/main/java/radiant/seven/Node.java:16-22 | a new cell has its coordinates and type, is not stalled and has no neighbours |
| Nodes.Node.Traffic | src/main/java/radiant/seven/TrafficNode.java:22-25 | a new signal starts in the given phase, with group 0 |
| Nodes.Node.SetStalled | src/main/java/radiant/seven/Node.java:36-38 | only the `stalled` flag changes, to the given value |
| Nodes.Node.ChangeSignal | src/main/java/radiant/seven/TrafficNode.java:31-33 | the phase becomes `NextPhase` of the old phase; nothing else changes |
| Nodes.Node.Equals | src/main/java/radiant/seven/Node.java:45-51 | equal exactly when non-null with the same run-time class and coordinates |
| Nodes.Node.ToString | src/main/java/radiant/seven/Node.java:66-68 | a node prints as the map cell text that lists it alone |
| Nodes.ToStringReadsBack | src/main/java/radiant/seven/Node.java:66-68 | `parseCoordinates` reads a node's text back as the node's cell |
| Nodes.EqualsIsIdentity | src/main/java/radiant/seven/Node.java:45-51 | on the nodes of one keyed network, `equals` is object identity |
| Nodes.EqualNodesHashAlike | src/main/java/radiant/seven/Node.java:45-60 | equal nodes have equal hash codes |
| Nodes.RedIsNotGreen | src/main/java/radiant/seven/TrafficNode.java:40-51 | a signal is red exactly when it is not green |
| Nodes.NextPhaseIncrements | src/main/java/radiant/seven/TrafficNode.java:31-33 | a change adds one below phase 3 and wraps 3 to 0 |
| Nodes.AdvanceInCycle | src/main/java/radiant/seven/TrafficNode.java:31-33 | from phases 0..3, `k` changes step `k` places around the four-phase cycle |
| Nodes.GreenEveryFourthChange | src/main/java/radiant/seven/TrafficNode.java:31-42 | a signal shows green exactly once in every four changes, and repeats with period four |
| Nodes.EntersCycle | src/main/java/radiant/seven/TrafficNode.java:31-33 | any start phase, even a negative one, lies in 0..3 after four changes |
| Nodes.Node.GetPair | src/main/java/radiant/seven/TrafficNode.java:61-79 | null exactly when no probed cell holds a "TrafficNode" in the same phase; otherwise the first probe that does |
| Nodes.TrafficNodeAt | src/main/java/radiant/seven/GameMap.java:135-139 | the cell's node exactly when it is a `TrafficNode`, else null |
| Traffic.ViewOf | src/main/java/radiant/seven/TrafficManager.java:65-72 | what the arbiter reads of a cell: absent, a plain cell or a signal, with its occupancy |
| Traffic.Arbitrate | src/main/java/radiant/seven/TrafficManager.java:63-108 | the timing gate near signals; a grant exactly when past the gate the target exists and is free (plain cell) or both lights allow it (signal cell); a NullPointer exactly when a dereferenced cell is missing; the current cell released exactly on a grant or a signal-cell throw; a refusal writes nothing |
| Traffic.PlainCellEntersRedSignal | src/main/java/radiant/seven/TrafficManager.java:84-92 | from a plain cell, a free red signal cell is entered |
| Traffic.SignalCellIgnoresOccupancy | src/main/java/radiant/seven/TrafficManager.java:94-107 | from a signal cell, an occupied target is granted |
| Traffic.PlainCellsIgnoreClock | src/main/java/radiant/seven/TrafficManager.java:72-92 | away from signals the answer does not depend on the clock |
| Traffic.TrafficManager.constructor | src/main/java/radiant/seven/TrafficManager.java:13-22 | no lights are registered, and the next change is at time 0 |
| Traffic.TrafficManager.AddTrafficNode | src/main/java/radiant/seven/TrafficManager.java:43-45 | the light joins the end of the list |
| Traffic.TrafficManager.UpdateSignals | src/main/java/radiant/seven/TrafficManager.java:50-52 | each light advances once for each time it is registered; nothing else changes |
| Traffic.TrafficManager.ChangeSignals | src/main/java/radiant/seven/TrafficManager.java:122-129 | the next change is one interval after `now`, and every light advances |
| Traffic.TrafficManager.CanMoveToPosition | src/main/java/radiant/seven/TrafficManager.java:63-108 | the answer and the `stalled` writes are `Arbitrate`'s on the two cells: the target set iff claimed, the current cell cleared iff released, no other flag changes; no light changes |
| Vehicles.DecodePath | src/main/java/radiant/seven/EV.java:279-285 | defined exactly on even lengths; pair `i` is the cast of values `2i` and `2i+1` |
| Vehicles.Flatten | src/main/cpp/dijkstra_jni.cpp:35-43 | the flat array holds two values per cell |
| Vehicles.DecodeFlatten | src/main/java/radiant/seven/EV.java:279-285 | decoding undoes the path finder's flattening for every path of `int` cells |
| Vehicles.ConvertToPathNodes | src/main/java/radiant/seven/EV.java:279-285 | the loop computes `DecodePath` |
| Vehicles.Heading | src/main/java/radiant/seven/EV.java:194-199 | down or up by the sign of the row change; in the same row, right or left by the sign of the column change; no move keeps the heading |
| Vehicles.StepOfHeading | src/main/java/radiant/seven/EV.java:194-199 | for an adjacent cell the heading names that move exactly |
| Vehicles.HeadingReverses | src/main/java/radiant/seven/EV.java:194-199 | moving back gives the opposite heading |
| Vehicles.ChargedLevel | src/main/java/radiant/seven/EV.java:208-212 | never above 100, and without overflow it is `min(charge + rate, 100)` |
| Vehicles.FirstRoadDraw | src/main/java/radiant/seven/NPCVehicle.java:33-40 | the first draw that names a road cell, with every earlier draw off the road |
| Vehicles.FirstRoadDrawIsFirst | src/main/java/radiant/seven/NPCVehicle.java:33-40 | a draw on the road with none before it is the one chosen |
| Vehicles.EV.constructor | src/main/java/radiant/seven/EV.java:50-59 | an "ambulance" with the given fields, index 0, no task, not moving, heading right |
| Vehicles.EV.OfType | src/main/java/radiant/seven/EV.java:40-49 | the same with the given vehicle type |
| Vehicles.EV.Npc | src/main/java/radiant/seven/NPCVehicle.java:10-13 | type 3, charge 100, rate 0, named `"NPC_"` and the clock reading |
| Vehicles.EV.NpcOfType | src/main/java/radiant/seven/NPCVehicle.java:14-17 | the same with the given vehicle type |
| Vehicles.EV.MoveToNextPosition | src/main/java/radiant/seven/EV.java:169-177 | one step along the path, never past its last cell |
| Vehicles.EV.SetEndLocation | src/main/java/radiant/seven/EV.java:185-188 | the destination becomes `(x, y)` |
| Vehicles.EV.UpdateDirection | src/main/java/radiant/seven/EV.java:194-199 | the heading becomes `Heading` from the current cell |
| Vehicles.EV.Charge | src/main/java/radiant/seven/EV.java:208-218 | the charge becomes `ChargedLevel` |
| Vehicles.EV.FullCharge | src/main/java/radiant/seven/EV.java:225-231 | full exactly when the charge is at least 100, which is then capped at 100 |
| Vehicles.EV.ChangeEnd | src/main/java/radiant/seven/NPCVehicle.java:28-50 | only a wandering vehicle on its destination re-routes, to the first road cell drawn; the new path is the decoded path from the finder, kept when decoding fails |
| Vehicles.EV.PickRandomDestination | src/main/java/radiant/seven/NPCVehicle.java:19-25 | the destination becomes the cell of the drawn node, and is unchanged on an empty network |
| EVControllers.GrantedMoveReroutes | src/main/java/radiant/seven/NPCVehicle.java:28-50 | a granted pass's turn, advance and re-routing, stated on trips, is `Reroute` after `Moved` |
| EVControllers.TravelBounds | src/main/java/radiant/seven/EVController.java:98-113 | a run finishes only where the loop condition fails; a non-wandering vehicle keeps its path and destination, never moves back, moves at most once per reading, stays on its path, crashes only before the last cell and finishes a moving run exactly at it |
| EVControllers.TravelStops | src/main/java/radiant/seven/EVController.java:98 | a stopped vehicle, one on its last cell, or no readings left ends the run at once |
| EVControllers.TravelStep | src/main/java/radiant/seven/EVController.java:99-111 | one pass of the run: a crash on a throw, out of draws on a failed search, otherwise the run on the remaining readings |
| EVControllers.MoveStep | src/main/java/radiant/seven/EVController.java:98-111 | one pass: the answer is the arbiter's on the next cell; the next cell's flag set iff claimed, the current cell's cleared iff released, no other flag changes; a grant turns and advances; after the advance a wanderer on its destination takes the first road draw as its destination and the finder's decoded path from its cell (a crash where decoding fails, out of draws with no road draw), and every other vehicle keeps its route; a refusal changes nothing of the vehicle |
| EVControllers.EVController.constructor | src/main/java/radiant/seven/EVController.java:38-42 | an empty registry sharing the traffic manager |
| EVControllers.EVController.NewEV | src/main/java/radiant/seven/EVController.java:52-85 | fails exactly on an undecodable path; otherwise a fresh moving vehicle of the requested kind and fields, under its name |
| EVControllers.EVController.Pass | src/main/java/radiant/seven/EVController.java:99-111 | one pass is a `MoveStep`: the run from here is a crash where Java throws, out of draws, or this pass followed by the run on the remaining readings; the lights are unchanged |
| EVControllers.EVController.SimulateEVMovement | src/main/java/radiant/seven/EVController.java:95-115 | the final end, path, index, destination, heading and flags are those of `Travel` from the old state, whose passes are `MoveStep`s (a crash exactly where a pass throws); the vehicle is stopped exactly when the run finishes; a non-wandering vehicle keeps its path and destination, only moves forward, at most once per reading, and a finished moving run stops at the last cell |
| EVControllers.EVController.CanMoveToPosition | src/main/java/radiant/seven/EVController.java:170-187 | unknown name gives NotFound; a cell that is not the next path cell gives false; otherwise the arbiter's answer and writes |
| EVControllers.EVController.GetEVStatus | src/main/java/radiant/seven/EVController.java:253-263 | NotFound exactly for unknown names; otherwise the charge and current cell |
| EVControllers.EVController.StartEV | src/main/java/radiant/seven/EVController.java:206-214 | only the named vehicle is set moving, and its path is returned |
| EVControllers.EVController.DeleteEV | src/main/java/radiant/seven/EVController.java:222-229 | the name leaves the registry, and its status is NotFound afterwards |
| EVControllers.EVController.UpdateEVPosition | src/main/java/radiant/seven/EVController.java:237-245 | a moving vehicle short of its last cell advances one cell; otherwise NotFound |
| EVControllers.EVController.GetTrafficSignals | src/main/java/radiant/seven/EVController.java:284-290 | one state per registered light, in order, green exactly in phase 0 |
| EVControllers.EVController.ChangeTrafficSignals | src/main/java/radiant/seven/EVController.java:297-301 | the manager's `changeSignals` at `now` |
| TerminalSimulations.Clamp | src/main/java/radiant/seven/TerminalSimulation.java:118-119 | the value lies in `1..maxDim`, and is unchanged when it is already inside |
| TerminalSimulations.ClampedPath | src/main/java/radiant/seven/TerminalSimulation.java:112-125 | defined exactly on even lengths; pair `i` clamps values `2i` and `2i+1` |
| TerminalSimulations.ClampedPathInside | src/main/java/radiant/seven/TerminalSimulation.java:112-125 | every cell of a clamped path lies in the map |
| TerminalSimulations.ClampingKeepsInside | src/main/java/radiant/seven/TerminalSimulation.java:112-125 | on values inside the map, clamping is the plain decoding of `EV` |
| TerminalSimulations.SixValuesMakeThreeCells | src/test/java/radiant/seven/TerminalSimulationTest.java:98-106 | `{5,10,15,20,25,30}` decodes to three cells, the first being `(5,10)` |
| TerminalSimulations.ClampToPathNodes | src/main/java/radiant/seven/TerminalSimulation.java:112-125 | the loop computes `ClampedPath` |
| TerminalSimulations.TerminalSimulation.constructor | src/main/java/radiant/seven/TerminalSimulation.java:33-49 | "EV1" and "EV2" are registered with their fixed fields, as fresh ambulances that do not wander, stopped at index 0 with no path and heading right; other entries are kept |
| TerminalSimulations.TerminalSimulation.StartEV | src/main/java/radiant/seven/TerminalSimulation.java:87-101 | the clamped path is set and the vehicle is moving, and only its path and moving flag can change; Failed and unchanged where Java throws |
| TerminalSimulations.DriveBounds | src/main/java/radiant/seven/TerminalSimulation.java:137-154 | a run never moves back, advances at most once per reading, stays on the path, crashes only before the last cell and finishes a moving vehicle exactly at it |
| TerminalSimulations.DriveTouchesOnlyPath | src/main/java/radiant/seven/TerminalSimulation.java:137-154 | a run changes only the flags of nodes on the vehicle's path |
| TerminalSimulations.TerminalSimulation.Advance | src/main/java/radiant/seven/TerminalSimulation.java:139-150 | one pass: the index rises by one exactly on a grant; the run from here is a crash (NullPointer) or this pass followed by the run on the remaining readings |
| TerminalSimulations.TravelIsDrive | src/main/java/radiant/seven/TerminalSimulation.java:137-154 | for a vehicle that does not wander, the controller's run and the terminal's run end the same way, on the same index, with the same flags |
| TerminalSimulations.TerminalSimulation.SimulateEVMovement | src/main/java/radiant/seven/TerminalSimulation.java:137-154 | the final end, index and flags are those of `Drive` from the old state; the index only grows, at most once per reading, and stays on the path; a finished run stops at the last cell; the lights are unchanged |
| TaskAssigners.Poll | src/main/java/radiant/seven/TaskAssigner.java:26-30 | no task exactly on an empty queue; otherwise the head and the rest |
| TaskAssigners.DrainedInOrder | src/main/java/radiant/seven/TaskAssigner.java:19-30 | tasks leave the buffer in the order they entered |
| TaskAssigners.AddedLast | src/main/java/radiant/seven/TaskAssigner.java:19-30 | a task added behind others is polled after all of them |
| TaskAssigners.FirstIdle | src/main/java/radiant/seven/TaskAssigner.java:32-41 | every vehicle before the index is moving, and the one at it is not |
| TaskAssigners.IdleFound | src/main/java/radiant/seven/TaskAssigner.java:32-41 | the scan finds a vehicle exactly when some vehicle is idle |
| TaskAssigners.TaskAssigner.constructor | src/main/java/radiant/seven/TaskAssigner.java:7-10 | the buffer starts empty |
| TaskAssigners.TaskAssigner.GetInstance | src/main/java/radiant/seven/TaskAssigner.java:12-17 | each call empties the shared buffer, since no instance is stored |
| TaskAssigners.TaskAssigner.AssignTask | src/main/java/radiant/seven/TaskAssigner.java:26-30 | the buffer is polled |
| TaskAssigners.TaskAssigner.GiveTask | src/main/java/radiant/seven/TaskAssigner.java:32-42 | the first idle vehicle gets the polled task and starts moving; no other vehicle changes |
| TaskAssigners.TaskAssigner.AddTask | src/main/java/radiant/seven/TaskAssigner.java:19-23 | a `Task` built from the arguments joins the tail of the buffer, then `giveTask` runs |
| GameMaps.GameMap.Empty | src/main/java/radiant/seven/GameMap.java:26-28 | a fresh parser, an empty network and zero dimensions |
| GameMaps.GameMap.LoadMap | src/main/java/radiant/seven/GameMap.java:40-54 | on success the network holds exactly the parsed graph under its own coordinates, with the parser's dimensions; on an exception they are unchanged |
| GameMaps.GameMap.KeyNodes | src/main/java/radiant/seven/GameMap.java:47-50 | every node goes under its own key, in any iteration order |
| GameMaps.GameMap.GetRoadNode | src/main/java/radiant/seven/GameMap.java:124-126 | non-null exactly on walkable cells, and then the node with those coordinates |
| GameMaps.GameMap.GetTrafficNode | src/main/java/radiant/seven/GameMap.java:135-139 | non-null exactly on signal cells |
| GameMaps.GameMap.GetObstacleMap | src/main/java/radiant/seven/GameMap.java:86-94 | entry `[y][x]` is true exactly when `(x, y)` is not walkable |
| GameMaps.GameMap.FindReachableNodes | src/main/java/radiant/seven/GameMap.java:165-168 | empty off the road; otherwise exactly the nodes reachable from that cell |
| GameMaps.OwnKey | src/main/java/radiant/seven/GameMap.java:47-50 | a node of a keyed network sits under its own cell, and only there |
| GameMaps.WalkableCells | src/main/java/radiant/seven/GameMap.java:75-78 | the walkable cells are the road cells shifted to 1-based coordinates, plus the cells they list |
| GameMaps.ObstacleEntry | src/main/java/radiant/seven/GameMap.java:86-94 | the obstacle array's `[y][x]` describes grid cell `(x-1, y-1)`, so its first row and column are obstacles unless listed |
| GameMaps.NewGameMap | src/main/java/radiant/seven/GameMap.java:26-30 | a fresh loaded map, or null when the parser throws |
| GameMaps.MapHolder.constructor | src/main/java/radiant/seven/GameMap.java:19 | no instance is stored yet |
| GameMaps.MapHolder.GetInstance | src/main/java/radiant/seven/GameMap.java:61-66 | the stored map when there is one; otherwise a new one, which is stored |
| GameMaps.GetInstanceTwice | bad_test/GameMapIntegrationTest.java:17-21 | two calls of `getInstance` return the same map |
| RoadMaps.ReachesItself | src/main/java/radiant/seven/RoadMapParser.java:213-214 | every node reaches itself |
| RoadMaps.ReachesThrough | src/main/java/radiant/seven/RoadMapParser.java:217-220 | a neighbour's reachable nodes are reachable |
| RoadMaps.WalkStaysInside | src/main/java/radiant/seven/RoadMapParser.java:239-246 | a walk from a set closed under neighbours stays in the set |
| RoadMaps.ClosedKeepsReachable | src/main/java/radiant/seven/RoadMapParser.java:239-246 | whatever a closed set's member reaches is in the set |
| RoadMaps.HoldsIsMembership | src/main/java/radiant/seven/RoadMapParser.java:218 | on a keyed network, `HashSet.contains` is membership |
| RoadMaps.ReadSignal | src/main/java/radiant/seven/RoadMapParser.java:84-85 | `"0"` is a plain cell, an `int` `n` a signal in phase `n - 1`, anything else a `NumberFormatException` |
| RoadMaps.LinksRead | src/main/java/radiant/seven/RoadMapParser.java:80-91 | the scan's lists are what `parseCoordinates` reads from each map cell |
| RoadMaps.SignalsRead | src/main/java/radiant/seven/RoadMapParser.java:81-96 | the scan's signal cells are how each signal cell reads |
| RoadMaps.Registered | src/main/java/radiant/seven/RoadMapParser.java:145-148 | each new signal is registered once with the traffic manager |
| RoadMaps.KeyedCount | src/main/java/radiant/seven/RoadMapParser.java:252-254 | a keyed map holds as many distinct nodes as keys |
| RoadMaps.RoadMapParser.constructor | src/main/java/radiant/seven/RoadMapParser.java:19-21 | the parser starts with no nodes |
| RoadMaps.RoadMapParser.GetOrCreateNode | src/main/java/radiant/seven/RoadMapParser.java:140-150 | the node already under `(x, y)`, or a new one of the given type stored there, with a new signal registered |
| RoadMaps.RoadMapParser.Finished | src/main/java/radiant/seven/RoadMapParser.java:74-104 | the finished scan represents the grids |
| RoadMaps.RoadMapParser.RepresentsIsValid | src/main/java/radiant/seven/RoadMapParser.java:74-104 | a graph built this way is keyed and closed under neighbours |
| RoadMaps.RoadMapParser.BuildGraph | src/main/java/radiant/seven/RoadMapParser.java:45-105 | throws exactly on grids that are not well formed; otherwise the graph has exactly the road cells and their listed cells, typed by the signal grid, with the listed neighbours in order |
| RoadMaps.RoadMapParser.ProcessRow | src/main/java/radiant/seven/RoadMapParser.java:78-103 | one row of the scan, stopping at the first cell that throws |
| RoadMaps.RoadMapParser.ProcessCell | src/main/java/radiant/seven/RoadMapParser.java:80-102 | one cell: throws exactly when it is not readable; a road cell's node is fetched and linked to its listed cells |
| RoadMaps.RoadMapParser.ConnectNeighbours | src/main/java/radiant/seven/RoadMapParser.java:91-101 | each listed cell's node is fetched and appended, in order |
| RoadMaps.RoadMapParser.FetchNode | src/main/java/radiant/seven/RoadMapParser.java:84-99 | the signal cell is read, then the node is found or created, typed by it |
| RoadMaps.RoadMapParser.LinkOne | src/main/java/radiant/seven/RoadMapParser.java:92-100 | one neighbour is appended; every other list is kept |
| RoadMaps.RoadMapParser.GetNode | src/main/java/radiant/seven/RoadMapParser.java:175-178 | the node under `(x, y)` or null; in a keyed graph it has those coordinates |
| RoadMaps.RoadMapParser.GetTrafficNode | src/main/java/radiant/seven/RoadMapParser.java:186-189 | the node under `(x, y)` exactly when it is a `TrafficNode` |
| RoadMaps.RoadMapParser.TotalNodes | src/main/java/radiant/seven/RoadMapParser.java:252-254 | the number of distinct nodes |
| RoadMaps.RoadMapParser.Dfs | src/main/java/radiant/seven/RoadMapParser.java:213-223 | true only when the end is reachable; on false the visited nodes added are closed and miss the end |
| RoadMaps.RoadMapParser.PathExists | src/main/java/radiant/seven/RoadMapParser.java:205-208 | true exactly when the end is reachable |
| RoadMaps.RoadMapParser.DfsReachable | src/main/java/radiant/seven/RoadMapParser.java:239-246 | adds the start and everything reachable from it, and nothing else |
| RoadMaps.RoadMapParser.FindReachableNodes | src/main/java/radiant/seven/RoadMapParser.java:230-234 | exactly the nodes reachable from the start |
| Dijkstra.LastAtUnique | src/main/cpp/dijkstra.cpp:12-15 | a cell has one last index |
| Dijkstra.IndexNodes | src/main/cpp/dijkstra.cpp:12-15 | each cell is indexed at its last position in the list |
| Dijkstra.SearchStarts | src/main/cpp/dijkstra.cpp:43-44 | the initial state satisfies the search invariant |
| Dijkstra.ExhaustedReachesAll | src/main/cpp/dijkstra.cpp:46-70 | an empty queue means every node reachable from the start was reached |
| Dijkstra.PoppedIsNearest | src/main/cpp/dijkstra.cpp:46-58 | the popped least entry's traced walk is a shortest one |
| Dijkstra.MinExists | src/main/cpp/dijkstra.cpp:47 | a non-empty queue has a least entry |
| Dijkstra.ShortWalk | src/main/cpp/dijkstra.cpp:46-70 | a reachable node is reachable by a walk of at most `n` nodes |
| Dijkstra.Relax | src/main/cpp/dijkstra.cpp:60-67 | each neighbour a step brings nearer gets that distance, the parent and one new entry; the others are kept |
| Dijkstra.RelaxKeepsTree | src/main/cpp/dijkstra.cpp:60-67 | relaxing keeps the parent tree |
| Dijkstra.RelaxKeepsQueue | src/main/cpp/dijkstra.cpp:60-67 | relaxing keeps the queue invariant |
| Dijkstra.RelaxKeepsFrontier | src/main/cpp/dijkstra.cpp:60-67 | relaxing keeps every reached node queued or settled |
| Dijkstra.Reverse | src/main/cpp/dijkstra.cpp:56 | the reversed sequence, index by index |
| Dijkstra.Coordinates | src/main/cpp/dijkstra.cpp:51-55 | the cells of a walk's nodes, in order |
| Dijkstra.Trace | src/main/cpp/dijkstra.cpp:50-57 | the reversed parent walk is a walk from the start with at most `dist[e] + 1` nodes |
| Dijkstra.ShortestToItself | src/main/cpp/dijkstra.cpp:50-57 | from a node to itself the shortest walk is the node alone |
| Dijkstra.Search | src/main/cpp/dijkstra.cpp:37-70 | empty exactly when the end is unreachable; otherwise a shortest walk's cells |
| Dijkstra.FindPathInNetwork | src/main/cpp/dijkstra.cpp:4-71 | empty when an endpoint is missing or unreachable; otherwise a shortest path from start to end |
| Adjacency.LinkFacts | src/tools/map_generator.py:51-56 | `a` becomes a key, `b` joins the end of `a`'s list unless present, and no other list changes |
| Adjacency.Touch | src/tools/map_editor.py:211-214 | a key with an empty list is added unless present; other lists are kept |
| Adjacency.LinkKeepsDuplicateFree | src/tools/map_generator.py:51-56 | linking never repeats a cell in a list |
| Adjacency.LinkIdempotent | src/tools/map_generator.py:51-56 | linking twice is linking once |
| Adjacency.LinkIncludes | src/tools/map_generator.py:51-56 | linking loses no link |
| Adjacency.LinkBothKeepsValid | src/tools/map_generator.py:33-36 | linking both ways keeps symmetry and duplicate freedom and adds the link |
| Adjacency.CellOf | src/tools/map_generator.py:65-74 | `"0"` exactly for an empty list, otherwise the list's cell text |
| MapGenerators.SpokesKeepValid | src/tools/map_generator.py:27-36 | an intersection links each neighbour inside the map both ways and keeps the links valid |
| MapGenerators.SegmentCells | src/tools/map_generator.py:38-49 | the cells a segment visits |
| MapGenerators.SegmentShape | src/tools/map_generator.py:38-49 | a segment starts and ends at its endpoints with unit steps between |
| MapGenerators.LinkPathKeepsValid | src/tools/map_generator.py:44-49 | consecutive cells of a segment are linked both ways, and the links stay valid |
| MapGenerators.Range | src/tools/map_generator.py:13-14 | the values of `range(a, b, step)` |
| MapGenerators.RangeHolds | src/tools/map_generator.py:13-14 | `a + k * step` is in the range exactly when it is below `b` |
| MapGenerators.MapGenerator.constructor | src/tools/map_generator.py:5-9 | no links and no signals |
| MapGenerators.MapGenerator.ConnectOneWay | src/tools/map_generator.py:51-56 | the links become `Link` of the old links |
| MapGenerators.MapGenerator.CreateIntersectionWithConnections | src/tools/map_generator.py:27-36 | the cell becomes a signal with its spokes; links stay valid |
| MapGenerators.MapGenerator.CreateRoadSegment | src/tools/map_generator.py:38-49 | the segment is linked both ways; links stay valid |
| MapGenerators.MapGenerator.GenerateGrid | src/tools/map_generator.py:11-25 | every intersection is a signal with its spokes and roads; links only grow and stay valid |
| MapGenerators.MapGenerator.IntersectionRow | src/tools/map_generator.py:14-17 | one row of intersections |
| MapGenerators.MapGenerator.RoadRow | src/tools/map_generator.py:21-25 | one row of roads |
| MapGenerators.MapGenerator.Roads | src/tools/map_generator.py:22-25 | the roads from one intersection |
| MapGenerators.MapGenerator.MapRow | src/tools/map_generator.py:62-76 | one map row of cell texts |
| MapGenerators.MapGenerator.SignalRow | src/tools/map_generator.py:81-88 | `"1"` exactly at signals |
| MapGenerators.MapGenerator.SaveMap | src/tools/map_generator.py:58-88 | the two grids, the map grid keyed 1-based and the signal grid unshifted |
| MapGenerators.GenerateRandomMap | src/tools/map_generator.py:90-93 | a 40 x 40 map with every inner intersection, generated and saved |
| MapEditors.StripParens | src/tools/map_editor.py:341 | parentheses are removed at both ends, and only there |
| MapEditors.ReadParts | src/tools/map_editor.py:340-344 | the parts' coordinates in order, or failure once a part raises |
| MapEditors.ParseCellData | src/tools/map_editor.py:335-345 | the loop computes `CellData` |
| MapEditors.ReadInnerAround | src/tools/map_editor.py:341-344 | a written item, whatever parentheses surround it, reads as its cell |
| MapEditors.CellDataOfCellText | src/tools/map_editor.py:335-345 | `parse_cell_data` inverts the cell text `save_map` writes |
| MapEditors.ConnectFacts | src/tools/map_editor.py:207-224 | both cells become keys, and the one or two new links are added and no other |
| MapEditors.ConnectAppends | src/tools/map_editor.py:207-224 | connecting only appends, so saved order is kept |
| MapEditors.ConnectKeepsDuplicateFree | src/tools/map_editor.py:216-223 | connecting never repeats a cell in a list |
| MapEditors.ConnectTwoWayKeepsSymmetric | src/tools/map_editor.py:216-220 | two-way roads keep every link matched by its way back |
| MapEditors.ConnectIdempotent | src/tools/map_editor.py:207-224 | connecting the same cells again changes nothing |
| MapEditors.RemoveFirst | src/tools/map_editor.py:238-239 | `list.remove`: the list without its first occurrence |
| MapEditors.RemoveFirstMultiset | src/tools/map_editor.py:238-239 | exactly one copy leaves when present, and nothing else changes |
| MapEditors.RemoveFirstIsSplice | src/tools/map_editor.py:238-239 | removal cuts out the entry at the first index |
| MapEditors.RemoveFirstKeepsOthers | src/tools/map_editor.py:238-239 | other cells keep their membership |
| MapEditors.RemoveFirstOfUnique | src/tools/map_editor.py:238-239 | on a duplicate-free list the cell is gone |
| MapEditors.EraseFacts | src/tools/map_editor.py:233-240 | other keys and links to other cells are kept |
| MapEditors.EraseRemovesCell | src/tools/map_editor.py:233-240 | on duplicate-free lists, the cell is gone everywhere |
| MapEditors.EraseKeepsSymmetric | src/tools/map_editor.py:233-240 | erasing keeps symmetry |
| MapEditors.EraseIdempotent | src/tools/map_editor.py:233-240 | erasing twice is erasing once on duplicate-free lists |
| MapEditors.EraseLeavesSecondCopy | src/tools/map_editor.py:238-239 | only the first copy is removed |
| MapEditors.GetCellCoords | src/tools/map_editor.py:330-333 | the cell containing the pointer, by floor division |
| MapEditors.CornerInCell | src/tools/map_editor.py:176-177 | the highlight's corner pixel lies in its own cell |
| MapEditors.LoadedUnique | src/tools/map_editor.py:110-116 | a load's dictionary is determined by the rows |
| MapEditors.SavedSignalsOfLoaded | src/tools/map_editor.py:94-116 | saving loaded signals writes back each loaded cell, and `"0"` elsewhere |
| MapEditors.LoadedSignalsOfSaved | src/tools/map_editor.py:94-116 | loading saved signals gives back each non-`"0"` signal of the grid |
| MapEditors.EntryOfCell | src/tools/map_editor.py:153-157 | a written cell is readable and gives its list when non-empty |
| MapEditors.LoadedMapOfSaved | src/tools/map_editor.py:120-159 | loading a saved map never raises and gives back each non-empty list of the grid |
| MapEditors.RoadMapEditor.constructor | src/tools/map_editor.py:14-22 | no links and no signals |
| MapEditors.RoadMapEditor.ConnectCells | src/tools/map_editor.py:207-224 | the links become `Connect` of the old links |
| MapEditors.RoadMapEditor.EraseCell | src/tools/map_editor.py:233-240 | the links become `Erase` of the old links |
| MapEditors.RoadMapEditor.HandleCell | src/tools/map_editor.py:226-231 | erase mode erases, signal mode places the signal, other modes change nothing |
| MapEditors.RoadMapEditor.ClearMap | src/tools/map_editor.py:312-315 | no links and no signals remain |
| MapEditors.RoadMapEditor.SaveSignals | src/tools/map_editor.py:94-102 | the 50 x 50 grid of signal types, `"0"` where none |
| MapEditors.RoadMapEditor.MapRow | src/tools/map_editor.py:123-137 | one row of cell texts |
| MapEditors.RoadMapEditor.SaveMap | src/tools/map_editor.py:120-139 | the map grid of cell texts and the signal grid |
| MapEditors.RoadMapEditor.LoadSignals | src/tools/map_editor.py:103-118 | the signals become exactly the non-`"0"` cells of the rows |
| MapEditors.RoadMapEditor.LoadMap | src/tools/map_editor.py:141-159 | false exactly when some cell does not parse; otherwise the links are the non-empty lists |

## Left out

- Threads, sleeps and scheduled executors (`TrafficManager.startTrafficCycle`, `shutdown`, the
  movement threads, `EVController.spawnNPCs`'s sleeps) are not modelled. Each loop is modelled as
  a sequential run on given clock readings.
- `TrafficManager.getInstance` is not modelled, because the static state is one `TrafficManager`
  object that every component shares.
- `EVController.spawnNPCs`, `getAllEVs`, the plain getters and the REST and JSON plumbing are not
  modelled: they are random placement over HTTP and field reads.
- File and console I/O are not modelled: reading and quoting the CSV files, `IOException`,
  `printGraph`, `printMap`, `clearScreen`, `start` and `main`. The grids are taken as already read.
- The tkinter user interface is not modelled (`handle_click`, `start_drag`, `handle_drag`,
  `end_drag`, `redraw_roads`, drawing, dialogs and drag throttling); only the operations on the
  editor's data are.
- `auto_place_signals` is not modelled: it calls `.add` on a dictionary and so always raises.
- The JNI bridge and `PathfindingVisualizer` are not modelled. The path finder is a parameter of
  type `Pathfinder`, and the Dijkstra code is modelled on its own.
- `EV.getTask` is not modelled: it is a field read.
- `TrafficNode.group` is never read, so nothing about it is modelled.
- Dijkstra.Search: distances are integers rather than `double`s, and among several shortest paths
  no particular one is promised. The C++ priority queue's tie order is not modelled.
- GameMaps.GameMap.KeyNodes: the iteration order of the Java hash map is a parameter. The same
  holds for `TaskAssigners.TaskAssigner.GiveTask`.
- Decimal.ParseJavaInt: only ASCII digits are accepted, where Java also accepts other Unicode
  digits.
- Decimal.StripPythonSpace: only ASCII whitespace (9-13, 28-31 and 32) is stripped. Python's
  `str.strip` also strips U+0085, U+00A0 and the other Unicode spaces.
- Decimal.ParsePythonInt: only ASCII digits are read. Underscores and Unicode digits are not.
- MapEditors.RoadMapEditor.LoadMap: after `parse_cell_data` raises, the links are left unspecified.
  Python keeps the partial dictionary.
- RoadMaps.RoadMapParser.BuildGraph: after an exception the partial graph is left unspecified.
- MapGenerators.MapGenerator.GenerateGrid: only the links it adds are stated, not that it adds no
  others. It requires a positive spacing.
- MapGenerators.MapGenerator.CreateRoadSegment: it requires an axis-aligned segment, because
  `generate_grid` only builds those. A 45° diagonal segment also ends in Python and is not
  modelled; a segment that is neither axis-aligned nor at 45° makes the Python loop run forever.
- EVControllers.EVController.SimulateEVMovement: the run is bounded by the clock readings and
  destination draws it is given (`OutOfFuel`), where Java would loop on. The index only grows
  for vehicles that do not wander. The 500 ms sleep, the thread and its interruption are not
  modelled.
- TerminalSimulations.TerminalSimulation.SimulateEVMovement: the run is bounded by the clock
  readings it is given (`OutOfFuel`), where the Java thread would loop on. The 500 ms sleep, the
  thread and its interruption are not modelled.
- Vehicles.EV.ChangeEnd: the destination draws are bounded (`NoDestination`), where Java would
  draw forever.
- Python lists and Java lists inside dictionaries and nodes are modelled as values. The source
  never shares one list between two owners.
