/**
 * The game map (`GameMap.java`): the road network of the parsed map, keyed
 * by coordinates, with its dimensions. The map files become the two grids
 * the parser scans; the static `instance` field is the state of one
 * `MapHolder` object.
 */
module GameMaps {
  import opened Coords
  import opened Nodes
  import opened Traffic
  import opened RoadMaps

  class GameMap {
    var width: int
    var height: int
    var roadNetwork: map<Coord, Node>
    /** `roadMapParser`, assigned once by the constructor. */
    const parser: RoadMapParser

    /** `new GameMap()` before its call of `loadMap`. */
    constructor Empty()
      ensures fresh(parser) && parser.nodes == map[] && roadNetwork == map[]
      ensures width == 0 && height == 0
    {
      parser := new RoadMapParser();
      roadNetwork := map[];
      width := 0;
      height := 0;
    }

    /** A loaded map: the parser's graph is built, the road network holds
        exactly its nodes, and the dimensions are the parser's. */
    ghost predicate Valid()
      reads this, parser, parser.nodes.Values
    {
      parser.Valid() && roadNetwork == parser.nodes &&
      height == parser.rows && width == parser.cols && 0 <= width && 0 <= height
    }

    /** `loadMap`: parse the grids, take the dimensions from the parser and
        put every node of the graph under its own coordinates. An exception
        from the parser leaves the dimensions and the network as they were. */
    method LoadMap(grid: seq<seq<string>>, signals: seq<seq<string>>, tm: TrafficManager)
      returns (outcome: BuildOutcome, ghost registered: seq<Node>)
      requires parser.nodes == map[] && roadNetwork == map[] && width == 0 && height == 0
      modifies this`width, this`height, this`roadNetwork
      modifies parser`nodes, parser`rows, parser`cols, tm`trafficLights
      ensures outcome == Built <==> WellFormed(SheetOf(grid, signals))
      ensures outcome == Built ==> Valid() && parser.Represents(SheetOf(grid, signals))
      ensures outcome == Built ==> height == |grid| && width == |grid[0]|
      ensures outcome == Thrown ==> roadNetwork == map[] && width == 0 && height == 0
      ensures forall c :: c in parser.nodes ==> fresh(parser.nodes[c])
      ensures tm.trafficLights == old(tm.trafficLights) + registered
      ensures Registers(map[], parser.nodes, registered)
    {
      hide RoadMapParser.Represents, Registers, WellFormed, SheetOf;
      outcome, registered := parser.BuildGraph(grid, signals, tm);
      if outcome == Thrown {
        return;
      }
      height := parser.rows;
      width := parser.cols;
      KeyNodes();
    }

    /** The loop of `loadMap` over `getAllNodes()`, in the unspecified order
        of the parser's hash map: each node goes under its own "x,y". */
    method KeyNodes()
      requires roadNetwork == map[] && Keyed(parser.nodes)
      modifies this`roadNetwork
      ensures roadNetwork == parser.nodes
    {
      var left := parser.nodes.Values;
      while left != {}
        invariant left <= parser.nodes.Values
        invariant forall c :: c in roadNetwork <==> c in parser.nodes && parser.nodes[c] !in left
        invariant forall c :: c in roadNetwork ==> roadNetwork[c] == parser.nodes[c]
        decreases |left|
      {
        var node :| node in left;
        var key := Coord(node.x, node.y);
        OwnKey(parser.nodes, node);
        roadNetwork := roadNetwork[key := node];
        left := left - {node};
      }
      assert roadNetwork.Keys == parser.nodes.Keys;
    }

    /** `isWalkable(x, y)`: the road network has a node at `(x, y)`. */
    predicate IsWalkable(x: int, y: int)
      reads this
    {
      Coord(x, y) in roadNetwork
    }

    /** `getRoadNode(x, y)`: the node at `(x, y)`, or `null`. */
    function GetRoadNode(x: int, y: int): (n: Node?)
      reads this
      ensures n != null <==> IsWalkable(x, y)
      ensures n != null ==> n == roadNetwork[Coord(x, y)]
      ensures n != null && Keyed(roadNetwork) ==> n.x == x && n.y == y
    {
      if Coord(x, y) in roadNetwork then roadNetwork[Coord(x, y)] else null
    }

    /** `getTrafficNode(x, y)`: the node at `(x, y)` if it is a
        `TrafficNode`, otherwise `null`. */
    function GetTrafficNode(x: int, y: int): (n: Node?)
      reads this
      ensures n != null <==> IsWalkable(x, y) && roadNetwork[Coord(x, y)].isTraffic
      ensures n != null ==> n == GetRoadNode(x, y)
    {
      var node := GetRoadNode(x, y);
      if node != null && node.isTraffic then node else null
    }

    /** `getObstacleMap()`: a `height x width` array whose entry `[y][x]`
        says that `(x, y)` is not walkable, for 0-based `x` and `y`. */
    method GetObstacleMap() returns (obstacles: array2<bool>)
      requires 0 <= width && 0 <= height
      ensures fresh(obstacles) && obstacles.Length0 == height && obstacles.Length1 == width
      ensures forall y, x :: 0 <= y < height && 0 <= x < width ==> obstacles[y, x] == !IsWalkable(x, y)
    {
      obstacles := new bool[height, width];
      for y := 0 to height
        invariant forall y', x :: 0 <= y' < y && 0 <= x < width ==> obstacles[y', x] == !IsWalkable(x, y')
      {
        for x := 0 to width
          invariant forall y', x' :: 0 <= y' < y && 0 <= x' < width ==> obstacles[y', x'] == !IsWalkable(x', y')
          invariant forall x' :: 0 <= x' < x ==> obstacles[y, x'] == !IsWalkable(x', y)
        {
          obstacles[y, x] := !IsWalkable(x, y);
        }
      }
    }

    /** `findReachableNodes(x, y)`: no nodes when `(x, y)` has none,
        otherwise the nodes reachable from the one there. */
    method FindReachableNodes(x: int, y: int) returns (reachable: set<Node>)
      requires Valid()
      ensures !IsWalkable(x, y) ==> reachable == {}
      ensures IsWalkable(x, y) ==> reachable == ReachableSet(roadNetwork, roadNetwork[Coord(x, y)])
    {
      var start := GetRoadNode(x, y);
      if start == null {
        return {};
      }
      reachable := parser.FindReachableNodes(start);
    }
  }

  /** A node of a keyed network sits under its own coordinates only. */
  lemma OwnKey(network: map<Coord, Node>, n: Node)
    requires Keyed(network) && n in network.Values
    ensures Coord(n.x, n.y) in network && network[Coord(n.x, n.y)] == n
    ensures forall c :: c in network && network[c] == n ==> c == Coord(n.x, n.y)
  {
    var c :| c in network && network[c] == n;
    assert c == Coord(n.x, n.y);
  }

  /** On a map loaded from `sh`, the walkable cells are the road cells,
      shifted to 1-based coordinates, and the cells their lists name. */
  lemma WalkableCells(gm: GameMap, sh: Sheet, x: int, y: int)
    requires gm.Valid() && gm.parser.Represents(sh)
    ensures gm.IsWalkable(x, y) <==> Road(sh, x - 1, y - 1) || Listed(sh, Coord(x, y))
  {
    var c := Coord(x, y);
    if Listed(sh, c) {
      var a, b :| Road(sh, a, b) && c in ListAt(sh, a, b);
      var node := Coord(a + 1, b + 1);
      assert Expected(sh, node) == ListAt(sh, a, b);
      assert LinksTo(gm.parser.nodes, gm.parser.nodes[node].neighbors, Expected(sh, node));
    }
  }

  /** The obstacle array is indexed `[y][x]` by node coordinates, whose `x`
      is the grid row plus one: its entry `[y][x]` describes grid row
      `x - 1`, column `y - 1`, so its first row and column are obstacles
      unless some cell lists them. */
  lemma ObstacleEntry(gm: GameMap, sh: Sheet, obstacles: array2<bool>, x: int, y: int)
    requires gm.Valid() && gm.parser.Represents(sh)
    requires obstacles.Length0 == gm.height && obstacles.Length1 == gm.width
    requires forall y', x' :: 0 <= y' < gm.height && 0 <= x' < gm.width ==> obstacles[y', x'] == !gm.IsWalkable(x', y')
    requires 0 <= y < gm.height && 0 <= x < gm.width
    ensures obstacles[y, x] <==> !Road(sh, x - 1, y - 1) && !Listed(sh, Coord(x, y))
    ensures x == 0 || y == 0 ==> (obstacles[y, x] <==> !Listed(sh, Coord(x, y)))
  {
    WalkableCells(gm, sh, x, y);
  }

  /** `new GameMap()`: a fresh map loaded from the two grids, or `null`
      when the parser's exception escapes the constructor. */
  method NewGameMap(grid: seq<seq<string>>, signals: seq<seq<string>>, tm: TrafficManager)
    returns (gm: GameMap?, ghost registered: seq<Node>)
    modifies tm`trafficLights
    ensures gm != null <==> WellFormed(SheetOf(grid, signals))
    ensures gm != null ==> fresh(gm) && fresh(gm.parser) && gm.Valid()
    ensures gm != null ==> gm.parser.Represents(SheetOf(grid, signals))
    ensures gm != null ==> gm.height == |grid| && gm.width == |grid[0]|
    ensures gm != null ==> forall c :: c in gm.roadNetwork ==> fresh(gm.roadNetwork[c])
    ensures tm.trafficLights == old(tm.trafficLights) + registered
  {
    var created := new GameMap.Empty();
    var outcome;
    outcome, registered := created.LoadMap(grid, signals, tm);
    gm := if outcome == Built then created else null;
  }

  /** The static `instance` field of `GameMap`. */
  class MapHolder {
    var instance: GameMap?

    constructor ()
      ensures instance == null
    {
      instance := null;
    }

    /** `getInstance()`: the stored map if there is one; otherwise a new map,
        which is stored (unless its constructor threw). */
    method GetInstance(grid: seq<seq<string>>, signals: seq<seq<string>>, tm: TrafficManager)
      returns (gm: GameMap?)
      modifies this`instance, tm`trafficLights
      ensures old(instance) != null ==> gm == old(instance) && tm.trafficLights == old(tm.trafficLights)
      ensures old(instance) == null ==> (gm != null <==> WellFormed(SheetOf(grid, signals)))
      ensures old(instance) == null && gm != null ==> fresh(gm) && gm.Valid()
      ensures instance == gm
    {
      if instance == null {
        ghost var registered;
        instance, registered := NewGameMap(grid, signals, tm);
      }
      gm := instance;
    }
  }

  /** Two calls of `getInstance` return the same map. */
  method GetInstanceTwice(holder: MapHolder, grid: seq<seq<string>>, signals: seq<seq<string>>, tm: TrafficManager)
    returns (first: GameMap?, second: GameMap?)
    modifies holder`instance, tm`trafficLights
    ensures first == second
  {
    first := holder.GetInstance(grid, signals, tm);
    second := holder.GetInstance(grid, signals, tm);
  }
}
