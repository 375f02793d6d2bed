/**
 * The console simulation (`TerminalSimulation.java`): two test vehicles in
 * the shared registry, a path decoder that clamps every coordinate into the
 * map, and a movement loop that only advances the index.
 */
module TerminalSimulations {
  import opened Wrappers
  import opened JavaInt
  import opened Coords
  import opened Nodes
  import opened Vehicles
  import opened Traffic
  import opened GameMaps
  import opened EVControllers

  /** `Math.min(Math.max((int) v, 1), maxDim)`. */
  function Clamp(v: int, maxDim: int): (c: int)
    ensures 1 <= maxDim ==> 1 <= c <= maxDim
    ensures 1 <= Wrap(v) <= maxDim ==> c == Wrap(v)
  {
    Min(Max(Wrap(v), 1), maxDim)
  }

  /** The clamping `convertToPathNodes`: pairs of the flattened path with
      both coordinates clamped into `1 .. maxDim`; `None` where an odd
      length makes Java index past the end. */
  function ClampedPath(a: seq<int>, maxDim: int): (r: Option<seq<Coord>>)
    ensures r.Some? <==> |a| % 2 == 0
    ensures r.Some? ==> |r.value| == |a| / 2
    ensures r.Some? ==> forall i :: 0 <= i < |a| / 2 ==> r.value[i] == Coord(Clamp(a[2 * i], maxDim), Clamp(a[2 * i + 1], maxDim))
  {
    if |a| == 0 then Some([])
    else if |a| == 1 then None
    else match ClampedPath(a[2..], maxDim)
      case Some(rest) => Some([Coord(Clamp(a[0], maxDim), Clamp(a[1], maxDim))] + rest)
      case None => None
  }

  /** Every cell of a clamped path lies in the `maxDim x maxDim` square. */
  lemma ClampedPathInside(a: seq<int>, maxDim: int)
    requires 1 <= maxDim && ClampedPath(a, maxDim).Some?
    ensures forall c :: c in ClampedPath(a, maxDim).value ==> 1 <= c.x <= maxDim && 1 <= c.y <= maxDim
  {
    var p := ClampedPath(a, maxDim).value;
    forall c | c in p
      ensures 1 <= c.x <= maxDim && 1 <= c.y <= maxDim
    {
      var i :| 0 <= i < |p| && p[i] == c;
      assert c == Coord(Clamp(a[2 * i], maxDim), Clamp(a[2 * i + 1], maxDim));
    }
  }

  /** On coordinates already inside the square, clamping is the plain
      pairing `EV.convertToPathNodes` does. */
  lemma ClampingKeepsInside(a: seq<int>, maxDim: int)
    requires forall i :: 0 <= i < |a| ==> 1 <= a[i] <= maxDim && a[i] <= MaxInt
    ensures ClampedPath(a, maxDim) == DecodePath(a)
  {
    if |a| % 2 == 0 {
      var p, q := ClampedPath(a, maxDim).value, DecodePath(a).value;
      forall i | 0 <= i < |p|
        ensures p[i] == q[i]
      {
        assert Wrap(a[2 * i]) == a[2 * i] && Wrap(a[2 * i + 1]) == a[2 * i + 1];
      }
    }
  }

  /** The conversion on `{5, 10, 15, 20, 25, 30}` in a map 35 wide. */
  lemma SixValuesMakeThreeCells()
    ensures ClampedPath([5, 10, 15, 20, 25, 30], 35) == Some([Coord(5, 10), Coord(15, 20), Coord(25, 30)])
  {
    var r := ClampedPath([5, 10, 15, 20, 25, 30], 35);
    assert r.Some? && |r.value| == 3;
    assert r.value == [Coord(5, 10), Coord(15, 20), Coord(25, 30)];
  }

  /** The clamping `convertToPathNodes`, as the loop Java runs. */
  method ClampToPathNodes(a: seq<int>, maxDim: int) returns (nodes: Option<seq<Coord>>)
    ensures nodes == ClampedPath(a, maxDim)
  {
    var acc: seq<Coord> := [];
    var i := 0;
    while i < |a|
      invariant 0 <= i <= |a| && i % 2 == 0
      invariant |acc| == i / 2
      invariant forall k :: 0 <= k < |acc| ==> 2 * k + 1 < |a| && acc[k] == Coord(Clamp(a[2 * k], maxDim), Clamp(a[2 * k + 1], maxDim))
    {
      if i + 1 >= |a| {
        return None;
      }
      var x := Clamp(a[i], maxDim);
      var y := Clamp(a[i + 1], maxDim);
      acc := acc + [Coord(x, y)];
      i := i + 2;
    }
    assert acc == ClampedPath(a, maxDim).value;
    return Some(acc);
  }

  /** Where the movement loop stops, the index it leaves the vehicle at, and
      the nodes' `stalled` flags then. */
  datatype Outcome = Outcome(end: RunEnd, index: int, flags: map<Node, bool>)

  /** The loop of `simulateEVMovement` from index `i` with the nodes' flags
      `flags`, on the clock readings `clock` (one per pass): while moving and
      not on the last cell, the arbiter decides on the next cell under the
      current flags, its writes are made, a throw ends the run, and a grant
      advances the index by one. */
  function Drive(network: map<Coord, Node>, flags: map<Node, bool>, greens: map<Node, bool>, path: seq<Coord>, i: int,
                 moving: bool, nextChange: int, clock: seq<int>): (r: Outcome)
    requires 0 <= i
    decreases |clock|
  {
    if !moving || i >= |path| - 1 then Outcome(Finished, i, flags)
    else if clock == [] then Outcome(OutOfFuel, i, flags)
    else
      var d := Decide(network, flags, greens, nextChange - clock[0], path[i], path[i + 1]);
      var after := AfterWrites(network, flags, path[i], path[i + 1], d);
      if d.answer == NullPointer then Outcome(Crashed, i, after)
      else Drive(network, after, greens, path, if d.answer == Granted then i + 1 else i, moving, nextChange, clock[1..])
  }

  /** The run never moves backwards nor past the last cell, advances at most
      once per pass, and stops short of the last cell only on a throw or when
      the readings run out. */
  lemma {:induction false} DriveBounds(network: map<Coord, Node>, flags: map<Node, bool>, greens: map<Node, bool>, path: seq<Coord>, i: int,
                                       moving: bool, nextChange: int, clock: seq<int>)
    requires 0 <= i
    decreases |clock|
    ensures var r := Drive(network, flags, greens, path, i, moving, nextChange, clock);
      && (!moving ==> r == Outcome(Finished, i, flags))
      && i <= r.index
      && (i <= |path| - 1 ==> r.index <= |path| - 1)
      && r.index - i <= |clock|
      && (r.end == Crashed ==> r.index < |path| - 1)
      && (r.end == OutOfFuel ==> moving && r.index < |path| - 1)
      && (r.end == Finished && moving && i <= |path| - 1 ==> r.index == |path| - 1)
  {
    if !moving || i >= |path| - 1 || clock == [] {
    } else {
      var d := Decide(network, flags, greens, nextChange - clock[0], path[i], path[i + 1]);
      if d.answer != NullPointer {
        var after := AfterWrites(network, flags, path[i], path[i + 1], d);
        DriveBounds(network, after, greens, path, if d.answer == Granted then i + 1 else i, moving, nextChange, clock[1..]);
      }
    }
  }

  /** The run changes only the flags of nodes on the cells still ahead on
      the path, from the current one on. */
  lemma {:induction false} DriveTouchesOnlyPath(network: map<Coord, Node>, flags: map<Node, bool>, greens: map<Node, bool>, path: seq<Coord>, i: int,
                                                moving: bool, nextChange: int, clock: seq<int>)
    requires 0 <= i
    decreases |clock|
    ensures var r := Drive(network, flags, greens, path, i, moving, nextChange, clock);
      && r.flags.Keys == flags.Keys
      && forall n :: n in flags && r.flags[n] != flags[n] ==>
           exists j :: i <= j < |path| && path[j] in network && network[path[j]] == n
  {
    if !moving || i >= |path| - 1 || clock == [] {
    } else {
      var d := Decide(network, flags, greens, nextChange - clock[0], path[i], path[i + 1]);
      var after := AfterWrites(network, flags, path[i], path[i + 1], d);
      if d.answer != NullPointer {
        var i' := if d.answer == Granted then i + 1 else i;
        DriveTouchesOnlyPath(network, after, greens, path, i', moving, nextChange, clock[1..]);
        var r := Drive(network, flags, greens, path, i, moving, nextChange, clock);
        forall n | n in flags && r.flags[n] != flags[n]
          ensures exists j :: i <= j < |path| && path[j] in network && network[path[j]] == n
        {
          if after[n] != flags[n] {
            if d.claimTarget && path[i + 1] in network && n == network[path[i + 1]] {
              assert i <= i + 1 < |path|;
            } else {
              assert i <= i < |path|;
            }
          } else {
            var j :| i' <= j < |path| && path[j] in network && network[path[j]] == n;
            assert i <= j;
          }
        }
      }
    }
  }

  /** For a vehicle that does not wander, the controller's run (`Travel`,
      which also turns the vehicle) and the terminal's run agree on how the
      run ends, the index it ends on and the flags it leaves. */
  lemma {:induction false} TravelIsDrive(network: map<Coord, Node>, flags: map<Node, bool>, greens: map<Node, bool>, t: Trip,
                                         moving: bool, nextChange: int, clock: seq<int>, draws: seq<seq<Coord>>, finder: Pathfinder)
    requires 0 <= t.index && |draws| == |clock|
    decreases |clock|
    ensures var r := Travel(network, flags, greens, false, t, moving, nextChange, clock, draws, finder);
      var o := Drive(network, flags, greens, t.path, t.index, moving, nextChange, clock);
      r.end == o.end && r.trip.index == o.index && r.flags == o.flags
  {
    hide Decide, AfterWrites, Heading, DecodePath, FirstRoadDraw;
    if moving && t.index < |t.path| - 1 && clock != [] {
      var d := Decide(network, flags, greens, nextChange - clock[0], t.path[t.index], t.path[t.index + 1]);
      var after := AfterWrites(network, flags, t.path[t.index], t.path[t.index + 1], d);
      if d.answer == Refused {
        TravelIsDrive(network, after, greens, t, true, nextChange, clock[1..], draws[1..], finder);
      } else if d.answer == Granted {
        assert Reroute(network, false, Moved(t), draws[0], finder) == (Kept, Moved(t));
        TravelIsDrive(network, after, greens, Moved(t), true, nextChange, clock[1..], draws[1..], finder);
      }
    }
  }

  /** `Drive` once the vehicle has stopped, reached its last cell, or run
      out of readings. */
  lemma DriveStops(network: map<Coord, Node>, flags: map<Node, bool>, greens: map<Node, bool>, path: seq<Coord>, i: int,
                   moving: bool, nextChange: int, clock: seq<int>)
    requires 0 <= i && (!moving || i >= |path| - 1 || clock == [])
    ensures Drive(network, flags, greens, path, i, moving, nextChange, clock)
      == Outcome(if moving && i < |path| - 1 then OutOfFuel else Finished, i, flags)
  {
  }

  /** One pass of `Drive` on a moving vehicle short of its last cell: the
      decision's answer, the flags after its writes, and the index after the
      pass. */
  lemma DriveStep(network: map<Coord, Node>, flags: map<Node, bool>, greens: map<Node, bool>, path: seq<Coord>, i: int,
                  nextChange: int, clock: seq<int>, answer: Admission, after: map<Node, bool>, next: int)
    requires 0 <= i < |path| - 1 && clock != []
    requires var d := Decide(network, flags, greens, nextChange - clock[0], path[i], path[i + 1]);
      answer == d.answer && after == AfterWrites(network, flags, path[i], path[i + 1], d)
    requires next == if answer == Granted then i + 1 else i
    ensures Drive(network, flags, greens, path, i, true, nextChange, clock)
      == if answer == NullPointer then Outcome(Crashed, next, after)
         else Drive(network, after, greens, path, next, true, nextChange, clock[1..])
  {
  }

  class TerminalSimulation {
    const gameMap: GameMap
    const tm: TrafficManager
    /** The controller whose static `evMap` the simulation fills. */
    const registry: EVController

    /** Registers "EV1", an ambulance of type 1 from (4, 35), and "EV2", of
        type 2 from (2, 35), both bound for (35, 2) with charge 100 and
        charging rate 10. */
    constructor (gameMap: GameMap, tm: TrafficManager, registry: EVController)
      modifies registry`evMap
      ensures this.gameMap == gameMap && this.tm == tm && this.registry == registry
      ensures registry.evMap.Keys == old(registry.evMap.Keys) + {"EV1", "EV2"}
      ensures forall k :: k in old(registry.evMap) && k != "EV1" && k != "EV2" ==> registry.evMap[k] == old(registry.evMap[k])
      ensures var ev1, ev2 := registry.evMap["EV1"], registry.evMap["EV2"];
        && fresh(ev1) && fresh(ev2) && ev1 != ev2
        && ev1.name == "EV1" && ev1.startX == 4 && ev1.startY == 35 && ev1.kind == 1
        && ev2.name == "EV2" && ev2.startX == 2 && ev2.startY == 35 && ev2.kind == 2
        && ev1.endX == 35 && ev1.endY == 2 && ev2.endX == 35 && ev2.endY == 2
        && ev1.charge == 100 && ev1.chargingRate == 10 && ev2.charge == 100 && ev2.chargingRate == 10
        && !ev1.moving && !ev2.moving && ev1.path == [] && ev2.path == []
        && ev1.currentPathIndex == 0 && ev2.currentPathIndex == 0 && !ev1.npc && !ev2.npc
        && ev1.vehicleType == "ambulance" && ev2.vehicleType == "ambulance"
        && ev1.currentDirection == Right && ev2.currentDirection == Right
    {
      this.gameMap := gameMap;
      this.tm := tm;
      this.registry := registry;
      new;
      var ev1 := new EV(4, 35, 1, 100, 10);
      ev1.name := "EV1";
      ev1.SetEndLocation(35, 2);
      var ev2 := new EV(2, 35, 2, 100, 10);
      ev2.name := "EV2";
      ev2.SetEndLocation(35, 2);
      registry.evMap := registry.evMap["EV1" := ev1]["EV2" := ev2];
    }

    /** `startEV(evName)`: the path finder's path between the vehicle's
        start and end, clamped into the map's width, becomes its path and it
        is set moving. `Failed` where Java throws: no vehicle of that name,
        or a path of odd length. */
    method StartEV(name: string, finder: Pathfinder) returns (r: Reply<()>)
      modifies (if name in registry.evMap then {registry.evMap[name]} else {})`path
      modifies (if name in registry.evMap then {registry.evMap[name]} else {})`moving
      ensures r == Ok(()) || r == Failed
      ensures name !in registry.evMap ==> r == Failed
      ensures name in registry.evMap ==> var ev := registry.evMap[name];
        var found := ClampedPath(finder(ev.startX, ev.startY, ev.endX, ev.endY), gameMap.width);
        && (r == Ok(()) <==> found.Some?)
        && (found.Some? ==> ev.path == found.value && ev.moving)
        && (found.None? ==> unchanged(ev))
    {
      if name !in registry.evMap {
        return Failed;
      }
      var ev := registry.evMap[name];
      var path := ClampToPathNodes(finder(ev.startX, ev.startY, ev.endX, ev.endY), gameMap.width);
      if path == None {
        return Failed;
      }
      ev.path := path.value;
      ev.moving := true;
      return Ok(());
    }

    /** One pass of the loop of `simulateEVMovement`, at the clock reading
        `clock[0]`: ask the arbiter about the next cell and, on a grant,
        advance the index by one. The run from here is this pass followed
        by the run on the remaining readings. */
    method Advance(ev: EV, network: map<Coord, Node>, clock: seq<int>) returns (answer: Admission)
      requires 0 <= ev.currentPathIndex < |ev.path| - 1 && clock != []
      modifies network.Values`stalled, ev`currentPathIndex
      ensures Greens(network) == old(Greens(network))
      ensures ev.currentPathIndex == old(ev.currentPathIndex) + (if answer == Granted then 1 else 0)
      ensures old(Drive(network, Flags(network), Greens(network), ev.path, ev.currentPathIndex, true, tm.nextSignalChangeTime, clock))
        == if answer == NullPointer then Outcome(Crashed, ev.currentPathIndex, Flags(network))
           else Drive(network, Flags(network), Greens(network), ev.path, ev.currentPathIndex, true, tm.nextSignalChangeTime, clock[1..])
    {
      hide Drive, Decide, AfterWrites, ViewUnder, Arbitrate, ViewOf, Flags, Greens;
      ghost var flags, greens, i := Flags(network), Greens(network), ev.currentPathIndex;
      var next := ev.path[ev.currentPathIndex + 1];
      ghost var d := Decide(network, flags, greens, tm.nextSignalChangeTime - clock[0], ev.Position(), next);
      DecideOwnState(network, tm.nextSignalChangeTime - clock[0], ev.Position(), next);
      ghost var cur, target := ViewOf(network, ev.Position()), ViewOf(network, next);
      assert d == Arbitrate(tm.nextSignalChangeTime - clock[0], cur, target);
      answer := tm.CanMoveToPosition(network, ev, next, clock[0]);
      ghost var after := Flags(network);
      assert d.claimTarget ==> next in network;
      assert d.releaseCurrent ==> ev.Position() in network;
      FlagsOfWrites(network, flags, after, ev.path[i], next, d);
      DriveStep(network, flags, greens, ev.path, i, tm.nextSignalChangeTime, clock, answer, after, if answer == Granted then i + 1 else i);
      label Asked:
      if answer == Granted {
        ev.currentPathIndex := ev.currentPathIndex + 1;
      }
      assert unchanged@Asked(network.Values);
    }

    /** The thread of `simulateEVMovement`, on the clock readings `clock`:
        while the vehicle is moving and not on its last cell, ask the
        arbiter about the next cell and, on a grant, advance the index by
        one. The path is kept; the heading is not updated. */
    method SimulateEVMovement(ev: EV, network: map<Coord, Node>, clock: seq<int>) returns (end: RunEnd)
      requires 0 <= ev.currentPathIndex
      modifies network.Values`stalled, ev`moving, ev`currentPathIndex
      ensures ev.moving == (old(ev.moving) && end != Finished)
      ensures end == Finished ==> !ev.moving && (!old(ev.moving) || ev.currentPathIndex >= |ev.path| - 1)
      ensures old(ev.currentPathIndex) <= ev.currentPathIndex <= old(ev.currentPathIndex) + |clock|
      ensures old(ev.currentPathIndex) <= |ev.path| - 1 ==> ev.currentPathIndex <= |ev.path| - 1
      ensures end == Crashed ==> ev.currentPathIndex < |ev.path| - 1
      ensures end == Finished && old(ev.moving) && old(ev.currentPathIndex) <= |ev.path| - 1 ==> ev.currentPathIndex == |ev.path| - 1
      ensures Greens(network) == old(Greens(network))
      // Each pass is the arbiter's decision under the flags left by the passes before it.
      ensures var r := old(Drive(network, Flags(network), Greens(network), ev.path, ev.currentPathIndex, ev.moving, tm.nextSignalChangeTime, clock));
        end == r.end && ev.currentPathIndex == r.index && Flags(network) == r.flags
    {
      hide *;
      ghost var flags, greens, i, moving := Flags(network), Greens(network), ev.currentPathIndex, ev.moving;
      ghost var path, nc := ev.path, tm.nextSignalChangeTime;
      ghost var goal := Drive(network, flags, greens, path, i, moving, nc, clock);
      DriveBounds(network, flags, greens, path, i, moving, nc, clock);
      end := OutOfFuel;
      var k := 0;
      while k < |clock| && ev.moving && ev.currentPathIndex < |ev.path| - 1
        invariant 0 <= k <= |clock|
        invariant ev.moving == moving
        invariant 0 <= ev.currentPathIndex
        invariant Greens(network) == greens
        invariant Drive(network, Flags(network), greens, path, ev.currentPathIndex, moving, nc, clock[k..]) == goal
      {
        var answer := Advance(ev, network, clock[k..]);
        assert clock[k..][1..] == clock[k + 1..];
        if answer == NullPointer {
          end := Crashed;
          break;
        }
        k := k + 1;
      }
      if end != Crashed {
        DriveStops(network, Flags(network), greens, path, ev.currentPathIndex, moving, nc, clock[k..]);
        if !ev.moving || ev.currentPathIndex >= |ev.path| - 1 {
          label Stopping:
          ev.moving := false;
          end := Finished;
          assert unchanged@Stopping(network.Values);
        }
      }
      assert goal == Outcome(end, ev.currentPathIndex, Flags(network));
    }
  }
}
