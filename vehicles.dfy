/**
 * Vehicles (`EV.java`) and their randomly re-routing subclass
 * (`NPCVehicle.java`). One class carries both: `npc` is the run-time class
 * of the Java object and selects which `changeEnd` runs.
 */
module Vehicles {
  import opened Wrappers
  import opened JavaInt
  import opened Decimal
  import opened Coords
  import opened Nodes
  import opened Tasks

  /** Milliseconds between moves (`MOVE_INTERVAL`). */
  const MoveInterval: int := 500

  /** The headings a vehicle reports. */
  const Down: string := "down"
  const Up: string := "up"
  const Right: string := "right"
  const Left: string := "left"

  /** The type code of vehicles that wander (`NPCVehicle` uses it). */
  const NpcKind: Int32 := 3

  /** The native path finder: `findPath(startX, startY, endX, endY)` returns
      the path flattened as `x0, y0, x1, y1, ...`, or an empty array. */
  type Pathfinder = (int, int, int, int) -> seq<int>

  /** `convertToPathNodes`: pairs up a flattened path, casting each `long` to
      `int`; `None` where an odd length makes Java index past the end. */
  function DecodePath(a: seq<int>): (r: Option<seq<Coord>>)
    ensures r.Some? <==> |a| % 2 == 0
    ensures r.Some? ==> |r.value| == |a| / 2
    ensures r.Some? ==> forall i :: 0 <= i < |a| / 2 ==> r.value[i] == Coord(Wrap(a[2 * i]), Wrap(a[2 * i + 1]))
  {
    if |a| == 0 then Some([])
    else if |a| == 1 then None
    else match DecodePath(a[2..])
      case Some(rest) => Some([Coord(Wrap(a[0]), Wrap(a[1]))] + rest)
      case None => None
  }

  /** The flat array the native path finder builds from a path. */
  function Flatten(p: seq<Coord>): (a: seq<int>)
    ensures |a| == 2 * |p|
  {
    if p == [] then [] else [p[0].x, p[0].y] + Flatten(p[1..])
  }

  predicate IsInt32(v: int) { MinInt <= v <= MaxInt }

  /** Decoding undoes the flattening of any path of `int` coordinates. */
  lemma {:induction false} DecodeFlatten(p: seq<Coord>)
    requires forall i :: 0 <= i < |p| ==> IsInt32(p[i].x) && IsInt32(p[i].y)
    ensures DecodePath(Flatten(p)) == Some(p)
  {
    if p != [] {
      DecodeFlatten(p[1..]);
      assert Flatten(p)[2..] == Flatten(p[1..]);
      assert Wrap(p[0].x) == p[0].x && Wrap(p[0].y) == p[0].y;
      assert p == [p[0]] + p[1..];
    }
  }

  /** `convertToPathNodes` as the loop Java runs. */
  method ConvertToPathNodes(a: seq<int>) returns (nodes: Option<seq<Coord>>)
    ensures nodes == DecodePath(a)
  {
    var acc: seq<Coord> := [];
    var i := 0;
    while i < |a|
      invariant 0 <= i <= |a| && i % 2 == 0
      invariant |acc| == i / 2
      invariant forall k :: 0 <= k < |acc| ==> 2 * k + 1 < |a| && acc[k] == Coord(Wrap(a[2 * k]), Wrap(a[2 * k + 1]))
    {
      if i + 1 >= |a| {
        return None;
      }
      acc := acc + [Coord(Wrap(a[i]), Wrap(a[i + 1]))];
      i := i + 2;
    }
    assert acc == DecodePath(a).value;
    return Some(acc);
  }

  /** The heading `updateDirection` sets for a move from `cur` to `next`:
      a change of row wins over a change of column; no move keeps `dir`. */
  function Heading(cur: Coord, next: Coord, dir: string): (d: string)
    ensures cur == next ==> d == dir
    ensures cur != next ==> d in {Down, Up, Right, Left}
    ensures cur.x != next.x ==> d in {Down, Up}
    ensures next.x > cur.x ==> d == Down
    ensures next.x < cur.x ==> d == Up
    ensures next.x == cur.x && next.y > cur.y ==> d == Right
    ensures next.x == cur.x && next.y < cur.y ==> d == Left
  {
    if next.x > cur.x then Down
    else if next.x < cur.x then Up
    else if next.y > cur.y then Right
    else if next.y < cur.y then Left
    else dir
  }

  function Opposite(d: string): string
  {
    if d == Down then Up else if d == Up then Down else if d == Right then Left else if d == Left then Right else d
  }

  /** The cell one step from `c` in heading `d`. */
  function Step(c: Coord, d: string): Coord
  {
    if d == Down then Coord(c.x + 1, c.y)
    else if d == Up then Coord(c.x - 1, c.y)
    else if d == Right then Coord(c.x, c.y + 1)
    else if d == Left then Coord(c.x, c.y - 1)
    else c
  }

  predicate Adjacent(a: Coord, b: Coord)
  {
    Abs(a.x - b.x) + Abs(a.y - b.y) == 1
  }

  /** For a move to an adjacent cell the heading names that move exactly. */
  lemma StepOfHeading(cur: Coord, next: Coord, dir: string)
    requires Adjacent(cur, next)
    ensures Step(cur, Heading(cur, next, dir)) == next
  {
  }

  /** Moving back reverses the heading. */
  lemma HeadingReverses(cur: Coord, next: Coord, dir: string, dir': string)
    requires cur != next
    ensures Heading(next, cur, dir') == Opposite(Heading(cur, next, dir))
  {
  }

  /** The charge after one `charge()`: `charge += chargingRate` on 32 bits,
      then capped at 100. */
  function ChargedLevel(charge: Int32, rate: Int32): (r: Int32)
    ensures r <= 100
    ensures IsInt32(charge + rate) ==> r == Min(charge + rate, 100)
  {
    var c := Wrap(charge + rate);
    if c > 100 then 100 else c
  }

  /** What `changeEnd` did. Only a wandering vehicle standing on its
      destination re-routes; `NoDestination` is the model's name for the
      draws running out before a road cell came up (the Java loop would go on). */
  datatype Rerouting = Kept | Rerouted | BrokenPath | NoDestination

  /** The destination a draw `(a, b)` of two `nextInt(35)` values names. */
  function Candidate(d: Coord): Coord
  {
    Coord(1 + d.x, 1 + d.y)
  }

  /** Index of the first draw that names a road cell, `|draws|` if none does. */
  function FirstRoadDraw(network: map<Coord, Node>, draws: seq<Coord>): (k: nat)
    ensures k <= |draws|
    ensures k < |draws| ==> Candidate(draws[k]) in network
    ensures forall j :: 0 <= j < k ==> Candidate(draws[j]) !in network
  {
    if draws == [] then 0
    else if Candidate(draws[0]) in network then 0
    else 1 + FirstRoadDraw(network, draws[1..])
  }

  class EV {
    var name: string
    const startX: int
    const startY: int
    var endX: int
    var endY: int
    /** The `type` code. */
    const kind: Int32
    var charge: Int32
    const chargingRate: Int32
    var path: seq<Coord>
    var currentPathIndex: int
    var moving: bool
    var task: Option<Task>
    const vehicleType: string
    var currentDirection: string
    /** Whether the object is an `NPCVehicle`. */
    const npc: bool

    /** `EV(x, y, type, charge, chargingRate)`: an "ambulance". */
    constructor (x: int, y: int, kind: Int32, charge: Int32, chargingRate: Int32)
      ensures startX == x && startY == y && this.kind == kind && this.charge == charge
      ensures this.chargingRate == chargingRate && vehicleType == "ambulance" && !npc
      ensures currentPathIndex == 0 && task == None && !moving && currentDirection == Right
      ensures name == "" && path == [] && endX == 0 && endY == 0
    {
      startX, startY := x, y;
      this.kind, this.charge, this.chargingRate := kind, charge, chargingRate;
      vehicleType := "ambulance";
      npc := false;
      name, path, endX, endY := "", [], 0, 0;
      currentPathIndex, task, moving, currentDirection := 0, None, false, Right;
    }

    /** `EV(x, y, type, charge, chargingRate, vehicleType)`. */
    constructor OfType(x: int, y: int, kind: Int32, charge: Int32, chargingRate: Int32, vehicleType: string)
      ensures startX == x && startY == y && this.kind == kind && this.charge == charge
      ensures this.chargingRate == chargingRate && this.vehicleType == vehicleType && !npc
      ensures currentPathIndex == 0 && task == None && !moving && currentDirection == Right
      ensures name == "" && path == [] && endX == 0 && endY == 0
    {
      startX, startY := x, y;
      this.kind, this.charge, this.chargingRate := kind, charge, chargingRate;
      this.vehicleType := vehicleType;
      npc := false;
      name, path, endX, endY := "", [], 0, 0;
      currentPathIndex, task, moving, currentDirection := 0, None, false, Right;
    }

    /** `NPCVehicle(x, y)`: type 3, full charge, no charging, named after the
        clock reading `millis`. */
    constructor Npc(x: int, y: int, millis: int)
      ensures startX == x && startY == y && kind == NpcKind && charge == 100
      ensures chargingRate == 0 && vehicleType == "ambulance" && npc
      ensures name == "NPC_" + Text(millis)
      ensures currentPathIndex == 0 && task == None && !moving && currentDirection == Right
      ensures path == [] && endX == 0 && endY == 0
    {
      startX, startY := x, y;
      kind, charge, chargingRate := NpcKind, 100, 0;
      vehicleType := "ambulance";
      npc := true;
      name, path, endX, endY := "NPC_" + Text(millis), [], 0, 0;
      currentPathIndex, task, moving, currentDirection := 0, None, false, Right;
    }

    /** `NPCVehicle(x, y, vehicleType)`. */
    constructor NpcOfType(x: int, y: int, vehicleType: string, millis: int)
      ensures startX == x && startY == y && kind == NpcKind && charge == 100
      ensures chargingRate == 0 && this.vehicleType == vehicleType && npc
      ensures name == "NPC_" + Text(millis)
      ensures currentPathIndex == 0 && task == None && !moving && currentDirection == Right
      ensures path == [] && endX == 0 && endY == 0
    {
      startX, startY := x, y;
      kind, charge, chargingRate := NpcKind, 100, 0;
      this.vehicleType := vehicleType;
      npc := true;
      name, path, endX, endY := "NPC_" + Text(millis), [], 0, 0;
      currentPathIndex, task, moving, currentDirection := 0, None, false, Right;
    }

    /** The index names a cell of the path. */
    predicate OnPath()
      reads this
    {
      0 <= currentPathIndex < |path|
    }

    function CurrentX(): int
      requires OnPath()
      reads this
    {
      path[currentPathIndex].x
    }

    function CurrentY(): int
      requires OnPath()
      reads this
    {
      path[currentPathIndex].y
    }

    function Position(): Coord
      requires OnPath()
      reads this
    {
      path[currentPathIndex]
    }

    predicate AtDestination()
      requires OnPath()
      reads this
    {
      CurrentX() == endX && CurrentY() == endY
    }

    /** `moveToNextPosition`: one step along the path, never past its last cell. */
    method MoveToNextPosition()
      modifies this`currentPathIndex
      ensures old(currentPathIndex) < |path| - 1 ==> currentPathIndex == old(currentPathIndex) + 1
      ensures old(currentPathIndex) >= |path| - 1 ==> currentPathIndex == old(currentPathIndex)
      ensures 0 <= old(currentPathIndex) <= |path| - 1 ==> 0 <= currentPathIndex <= |path| - 1
    {
      if currentPathIndex < |path| - 1 {
        currentPathIndex := currentPathIndex + 1;
      }
    }

    method SetEndLocation(x: int, y: int)
      modifies this`endX, this`endY
      ensures endX == x && endY == y
    {
      endX, endY := x, y;
    }

    /** `updateDirection(nextX, nextY)`, measured from the current cell. */
    method UpdateDirection(nextX: int, nextY: int)
      requires OnPath()
      modifies this`currentDirection
      ensures currentDirection == Heading(Position(), Coord(nextX, nextY), old(currentDirection))
    {
      if nextX > CurrentX() {
        currentDirection := Down;
      } else if nextX < CurrentX() {
        currentDirection := Up;
      } else if nextY > CurrentY() {
        currentDirection := Right;
      } else if nextY < CurrentY() {
        currentDirection := Left;
      }
    }

    /** `charge()`, without the one-second sleep. */
    method Charge()
      modifies this`charge
      ensures charge == ChargedLevel(old(charge), chargingRate)
    {
      var c := Wrap(charge + chargingRate);
      if c > 100 {
        c := 100;
      }
      charge := c;
    }

    /** `fullCharge()`: reports a charge of at least 100, capping it at 100. */
    method FullCharge() returns (full: bool)
      modifies this`charge
      ensures full <==> old(charge) >= 100
      ensures charge == if full then 100 else old(charge)
    {
      if charge >= 100 {
        charge := 100;
        return true;
      }
      return false;
    }

    /** `changeEnd()`. The base class does nothing; an `NPCVehicle` standing on
        its destination draws cells `1 + nextInt(35)` (from `draws`) until one is
        a road cell, makes it the destination and asks `finder` for a new path. */
    method ChangeEnd(network: map<Coord, Node>, draws: seq<Coord>, finder: Pathfinder) returns (outcome: Rerouting, used: nat)
      requires npc ==> OnPath()
      requires forall k :: 0 <= k < |draws| ==> 0 <= draws[k].x < 35 && 0 <= draws[k].y < 35
      modifies this`endX, this`endY, this`path, this`currentPathIndex
      ensures used <= |draws|
      ensures !(npc && old(AtDestination())) ==>
        outcome == Kept && used == 0 && unchanged(this)
      ensures npc && old(AtDestination()) && FirstRoadDraw(network, draws) == |draws| ==>
        outcome == NoDestination && used == |draws| && unchanged(this)
      ensures npc && old(AtDestination()) && FirstRoadDraw(network, draws) < |draws| ==>
        var dest := Candidate(draws[FirstRoadDraw(network, draws)]);
        var found := DecodePath(finder(old(CurrentX()), old(CurrentY()), dest.x, dest.y));
        && used == FirstRoadDraw(network, draws) + 1
        && endX == dest.x && endY == dest.y
        && 1 <= endX <= 35 && 1 <= endY <= 35 && Coord(endX, endY) in network
        && (outcome == Rerouted <==> found.Some?)
        && (outcome == BrokenPath <==> found.None?)
        && (found.Some? ==> path == found.value && currentPathIndex == 0)
        && (found.None? ==> path == old(path) && currentPathIndex == old(currentPathIndex))
    {
      if !npc || !(CurrentX() == endX && CurrentY() == endY) {
        return Kept, 0;
      }
      var k := 0;
      while k < |draws| && Candidate(draws[k]) !in network
        invariant 0 <= k <= |draws|
        invariant forall j :: 0 <= j < k ==> Candidate(draws[j]) !in network
      {
        k := k + 1;
      }
      if k == |draws| {
        return NoDestination, |draws|;
      }
      assert FirstRoadDraw(network, draws) == k by {
        FirstRoadDrawIsFirst(network, draws, k);
      }
      var dest := Candidate(draws[k]);
      var fromX, fromY := CurrentX(), CurrentY();
      SetEndLocation(dest.x, dest.y);
      var found := ConvertToPathNodes(finder(fromX, fromY, dest.x, dest.y));
      if found == None {
        return BrokenPath, k + 1;
      }
      path := found.value;
      currentPathIndex := 0;
      return Rerouted, k + 1;
    }

    /** `pickRandomDestination()`: a destination drawn from the values of the
        road network, copied in `values` (`draw` is `nextInt(values.size())`). */
    method PickRandomDestination(network: map<Coord, Node>, values: seq<Node>, draw: int)
      requires Keyed(network)
      requires forall n :: n in values <==> n in network.Values
      requires values != [] ==> 0 <= draw < |values|
      modifies this`endX, this`endY
      ensures values == [] ==> endX == old(endX) && endY == old(endY)
      ensures values != [] ==> Coord(endX, endY) in network && network[Coord(endX, endY)] == values[draw]
    {
      if values != [] {
        var dest := values[draw];
        assert dest in network.Values;
        ghost var c :| c in network && network[c] == dest;
        SetEndLocation(dest.x, dest.y);
      }
    }
  }

  lemma FirstRoadDrawIsFirst(network: map<Coord, Node>, draws: seq<Coord>, k: nat)
    requires k < |draws| && Candidate(draws[k]) in network
    requires forall j :: 0 <= j < k ==> Candidate(draws[j]) !in network
    ensures FirstRoadDraw(network, draws) == k
  {
    var f := FirstRoadDraw(network, draws);
    assert !(f < k);
    assert !(k < f);
  }
}
