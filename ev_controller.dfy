/**
 * The vehicle registry and its REST operations (`EVController.java`). The
 * static `evMap` is a field of one `EVController` object; every reply is
 * `Ok` with a value, `NotFound`, or `Failed` where Java throws.
 */
module EVControllers {
  import opened Wrappers
  import opened JavaInt
  import opened Coords
  import opened Nodes
  import opened Vehicles
  import opened Traffic

  datatype Reply<T> = Ok(value: T) | NotFound | Failed

  /** The fields of an `EVCreateRequest`. */
  datatype Request = Request(name: string, startX: int, startY: int, endX: int, endY: int,
                             kind: Int32, charge: Int32, chargingRate: Int32, vehicleType: string)

  /** An `EVStatus`. */
  datatype Status = Status(charge: Int32, currentX: int, currentY: int)

  /** A `TrafficSignalState`. */
  datatype SignalState = SignalState(x: int, y: int, isGreen: bool)

  /** How a run of the movement loop ends: the loop condition fails and the
      vehicle is stopped; the thread dies of an exception (a missing cell in
      the arbiter, or an odd-length path from the path finder); or the
      clock readings or destination draws the model was given run out. */
  datatype RunEnd = Finished | Crashed | OutOfFuel

  /** Whether `changeEnd` is the re-routing one: the object is an
      `NPCVehicle` and its type is 3, the type the loop tests before calling it. */
  predicate Wanders(ev: EV)
  {
    ev.kind == NpcKind && ev.npc
  }

  /** The part of a vehicle that the movement loop changes: its path, index,
      destination and heading. */
  datatype Trip = Trip(path: seq<Coord>, index: int, endX: int, endY: int, heading: string)

  function TripOf(ev: EV): Trip
    reads ev`path, ev`currentPathIndex, ev`endX, ev`endY, ev`currentDirection
  {
    Trip(ev.path, ev.currentPathIndex, ev.endX, ev.endY, ev.currentDirection)
  }

  /** `updateDirection` towards the next cell, then `currentPathIndex++`. */
  function Moved(t: Trip): Trip
    requires 0 <= t.index < |t.path| - 1
  {
    t.(index := t.index + 1, heading := Heading(t.path[t.index], t.path[t.index + 1], t.heading))
  }

  /** `changeEnd` on a trip: a wandering vehicle standing on its destination
      takes the first road draw as its new destination and the path finder's
      path to it (`BrokenPath` where decoding throws, after the destination
      is set); no road draw among `draws` is `NoDestination`. */
  function Reroute(network: map<Coord, Node>, wanders: bool, t: Trip, draws: seq<Coord>, finder: Pathfinder): (Rerouting, Trip)
    requires 0 <= t.index < |t.path|
  {
    var here := t.path[t.index];
    if !wanders || here != Coord(t.endX, t.endY) then (Kept, t)
    else
      var k := FirstRoadDraw(network, draws);
      if k == |draws| then (NoDestination, t)
      else
        var dest := Candidate(draws[k]);
        var found := DecodePath(finder(here.x, here.y, dest.x, dest.y));
        if found.None? then (BrokenPath, t.(endX := dest.x, endY := dest.y))
        else (Rerouted, t.(endX := dest.x, endY := dest.y, path := found.value, index := 0))
  }

  /** How a run of the movement loop leaves the vehicle and the flags. */
  datatype Ride = Ride(end: RunEnd, trip: Trip, flags: map<Node, bool>)

  /** The loop of `simulateEVMovement` on the clock readings `clock` and the
      destination draws `draws`, under the flags `flags` and the lights
      `greens`: each pass is the arbiter's decision and writes; a grant moves
      the vehicle on and, for a wanderer, re-routes it. */
  function Travel(network: map<Coord, Node>, flags: map<Node, bool>, greens: map<Node, bool>, wanders: bool, t: Trip,
                  moving: bool, nextChange: int, clock: seq<int>, draws: seq<seq<Coord>>, finder: Pathfinder): Ride
    requires 0 <= t.index && |draws| == |clock|
    decreases |clock|
  {
    if !moving || t.index >= |t.path| - 1 then Ride(Finished, t, flags)
    else if clock == [] then Ride(OutOfFuel, t, flags)
    else
      var d := Decide(network, flags, greens, nextChange - clock[0], t.path[t.index], t.path[t.index + 1]);
      var after := AfterWrites(network, flags, t.path[t.index], t.path[t.index + 1], d);
      if d.answer == NullPointer then Ride(Crashed, t, after)
      else if d.answer == Refused then Travel(network, after, greens, wanders, t, true, nextChange, clock[1..], draws[1..], finder)
      else
        var (outcome, t') := Reroute(network, wanders, Moved(t), draws[0], finder);
        if outcome == BrokenPath then Ride(Crashed, t', after)
        else if outcome == NoDestination then Ride(OutOfFuel, t', after)
        else Travel(network, after, greens, wanders, t', true, nextChange, clock[1..], draws[1..], finder)
  }

  /** A run finishes only where the loop condition fails. A vehicle that does
      not wander keeps its path and destination, never moves back, moves at
      most once per clock reading, stays on its path, crashes only before the
      last cell, and finishes there when it was moving. */
  lemma {:induction false} TravelBounds(network: map<Coord, Node>, flags: map<Node, bool>, greens: map<Node, bool>, wanders: bool,
                                        t: Trip, moving: bool, nextChange: int, clock: seq<int>, draws: seq<seq<Coord>>, finder: Pathfinder)
    requires 0 <= t.index && |draws| == |clock|
    decreases |clock|
    ensures var r := Travel(network, flags, greens, wanders, t, moving, nextChange, clock, draws, finder);
      && (!moving || t.index >= |t.path| - 1 ==> r == Ride(Finished, t, flags))
      && (r.end == Finished ==> !moving || r.trip.index >= |r.trip.path| - 1)
      && (r.end == OutOfFuel ==> moving)
      && (!wanders ==> r.trip.path == t.path && r.trip.endX == t.endX && r.trip.endY == t.endY)
      && (!wanders ==> t.index <= r.trip.index <= t.index + |clock|)
      && (!wanders && t.index <= |t.path| - 1 ==> r.trip.index <= |t.path| - 1)
      && (!wanders && r.end == Crashed ==> r.trip.index < |t.path| - 1)
      && (!wanders && r.end == Finished && moving && t.index <= |t.path| - 1 ==> r.trip.index == |t.path| - 1)
  {
    hide Decide, AfterWrites, Heading, DecodePath, FirstRoadDraw;
    if !moving || t.index >= |t.path| - 1 || clock == [] {
    } else {
      var d := Decide(network, flags, greens, nextChange - clock[0], t.path[t.index], t.path[t.index + 1]);
      var after := AfterWrites(network, flags, t.path[t.index], t.path[t.index + 1], d);
      if d.answer == Refused {
        TravelBounds(network, after, greens, wanders, t, true, nextChange, clock[1..], draws[1..], finder);
      } else if d.answer == Granted {
        var (outcome, t') := Reroute(network, wanders, Moved(t), draws[0], finder);
        if outcome != BrokenPath && outcome != NoDestination {
          TravelBounds(network, after, greens, wanders, t', true, nextChange, clock[1..], draws[1..], finder);
        }
      }
    }
  }

  /** The outcome of a granted `MoveStep`, stated on trips, is `Reroute` after `Moved`. */
  lemma GrantedMoveReroutes(network: map<Coord, Node>, wanders: bool, t: Trip, t': Trip, draws: seq<Coord>, finder: Pathfinder, rerouting: Rerouting)
    requires 0 <= t.index < |t.path| - 1
    requires t'.heading == Heading(t.path[t.index], t.path[t.index + 1], t.heading)
    requires rerouting == Kept ==> t'.index == t.index + 1 && t'.path == t.path && t'.endX == t.endX && t'.endY == t.endY
    requires !(wanders && t.path[t.index + 1] == Coord(t.endX, t.endY)) ==> rerouting == Kept
    requires wanders && t.path[t.index + 1] == Coord(t.endX, t.endY) && FirstRoadDraw(network, draws) == |draws| ==>
      rerouting == NoDestination && t'.index == t.index + 1 && t'.path == t.path && t'.endX == t.endX && t'.endY == t.endY
    requires var next := t.path[t.index + 1];
      wanders && next == Coord(t.endX, t.endY) && FirstRoadDraw(network, draws) < |draws| ==>
        var dest := Candidate(draws[FirstRoadDraw(network, draws)]);
        var found := DecodePath(finder(next.x, next.y, dest.x, dest.y));
        && t'.endX == dest.x && t'.endY == dest.y
        && (rerouting == Rerouted <==> found.Some?)
        && (rerouting == BrokenPath <==> found.None?)
        && (found.Some? ==> t'.path == found.value && t'.index == 0)
        && (found.None? ==> t'.path == t.path && t'.index == t.index + 1)
    ensures (rerouting, t') == Reroute(network, wanders, Moved(t), draws, finder)
  {
  }

  /** `Travel` once the vehicle has stopped, reached its last cell, or run
      out of readings. */
  lemma TravelStops(network: map<Coord, Node>, flags: map<Node, bool>, greens: map<Node, bool>, wanders: bool, t: Trip,
                    moving: bool, nextChange: int, clock: seq<int>, draws: seq<seq<Coord>>, finder: Pathfinder)
    requires 0 <= t.index && |draws| == |clock| && (!moving || t.index >= |t.path| - 1 || clock == [])
    ensures Travel(network, flags, greens, wanders, t, moving, nextChange, clock, draws, finder)
      == Ride(if moving && t.index < |t.path| - 1 then OutOfFuel else Finished, t, flags)
  {
  }

  /** One pass of `Travel`, given the pass's answer, writes and re-routing. */
  lemma TravelStep(network: map<Coord, Node>, flags: map<Node, bool>, greens: map<Node, bool>, wanders: bool, t: Trip,
                   nextChange: int, clock: seq<int>, draws: seq<seq<Coord>>, finder: Pathfinder,
                   answer: Admission, rerouting: Rerouting, after: map<Node, bool>, t': Trip)
    requires 0 <= t.index < |t.path| - 1 && clock != [] && |draws| == |clock|
    requires var d := Decide(network, flags, greens, nextChange - clock[0], t.path[t.index], t.path[t.index + 1]);
      answer == d.answer && after == AfterWrites(network, flags, t.path[t.index], t.path[t.index + 1], d)
    requires answer != Granted ==> rerouting == Kept && t' == t
    requires answer == Granted ==> (rerouting, t') == Reroute(network, wanders, Moved(t), draws[0], finder)
    ensures 0 <= t'.index
    ensures Travel(network, flags, greens, wanders, t, true, nextChange, clock, draws, finder)
      == if answer == NullPointer || rerouting == BrokenPath then Ride(Crashed, t', after)
         else if rerouting == NoDestination then Ride(OutOfFuel, t', after)
         else Travel(network, after, greens, wanders, t', true, nextChange, clock[1..], draws[1..], finder)
  {
  }

  /** One pass of the loop body of `simulateEVMovement`, at time `now`:
      ask the arbiter about the next cell of the path; on a grant turn
      towards it, advance the index and, for a wandering vehicle, call
      `changeEnd`. A refusal changes nothing of the vehicle. */
  method MoveStep(ev: EV, tm: TrafficManager, network: map<Coord, Node>, now: int, draws: seq<Coord>, finder: Pathfinder)
    returns (answer: Admission, rerouting: Rerouting)
    requires 0 <= ev.currentPathIndex < |ev.path| - 1
    requires forall k :: 0 <= k < |draws| ==> 0 <= draws[k].x < 35 && 0 <= draws[k].y < 35
    modifies network.Values`stalled
    modifies ev`currentDirection, ev`currentPathIndex, ev`endX, ev`endY, ev`path
    ensures var d := Arbitrate(tm.nextSignalChangeTime - now, old(ViewOf(network, ev.Position())),
                               old(ViewOf(network, ev.path[ev.currentPathIndex + 1])));
      && answer == d.answer
      // The arbiter's writes: the target claimed, the current cell released, no other flag touched.
      && forall n :: n in network.Values ==>
           n.stalled == (if d.claimTarget && n == network[old(ev.path[ev.currentPathIndex + 1])] then true
                         else if d.releaseCurrent && n == network[old(ev.Position())] then false
                         else old(n.stalled))
    ensures answer != Granted ==> unchanged(ev) && rerouting == Kept
    ensures answer == Granted ==>
      ev.currentDirection == Heading(old(ev.Position()), old(ev.path[ev.currentPathIndex + 1]), old(ev.currentDirection))
    ensures answer == Granted && rerouting == Kept ==>
      ev.currentPathIndex == old(ev.currentPathIndex) + 1 && ev.path == old(ev.path) &&
      ev.endX == old(ev.endX) && ev.endY == old(ev.endY)
    ensures rerouting != Kept ==> Wanders(ev) && old(ev.path[ev.currentPathIndex + 1]) == Coord(old(ev.endX), old(ev.endY))
    ensures rerouting == Rerouted ==> ev.currentPathIndex == 0
    // After the advance, a wandering vehicle that has arrived draws a road cell and asks for a path to it.
    ensures var next := old(ev.path[ev.currentPathIndex + 1]);
      answer == Granted && !(Wanders(ev) && next == Coord(old(ev.endX), old(ev.endY))) ==> rerouting == Kept
    ensures var next := old(ev.path[ev.currentPathIndex + 1]);
      answer == Granted && Wanders(ev) && next == Coord(old(ev.endX), old(ev.endY)) && FirstRoadDraw(network, draws) == |draws| ==>
        && rerouting == NoDestination
        && ev.path == old(ev.path) && ev.currentPathIndex == old(ev.currentPathIndex) + 1
        && ev.endX == old(ev.endX) && ev.endY == old(ev.endY)
    ensures var next := old(ev.path[ev.currentPathIndex + 1]);
      answer == Granted && Wanders(ev) && next == Coord(old(ev.endX), old(ev.endY)) && FirstRoadDraw(network, draws) < |draws| ==>
        var dest := Candidate(draws[FirstRoadDraw(network, draws)]);
        var found := DecodePath(finder(next.x, next.y, dest.x, dest.y));
        && ev.endX == dest.x && ev.endY == dest.y && dest in network
        && (rerouting == Rerouted <==> found.Some?)
        && (rerouting == BrokenPath <==> found.None?)
        && (found.Some? ==> ev.path == found.value && ev.currentPathIndex == 0)
        && (found.None? ==> ev.path == old(ev.path) && ev.currentPathIndex == old(ev.currentPathIndex) + 1)
    ensures Greens(network) == old(Greens(network))
  {
    hide Decide, AfterWrites, Flags, ViewUnder;
    var next := ev.path[ev.currentPathIndex + 1];
    answer := tm.CanMoveToPosition(network, ev, next, now);
    label Asked:
    rerouting := Kept;
    if answer == Granted {
      ev.UpdateDirection(next.x, next.y);
      ev.currentPathIndex := ev.currentPathIndex + 1;
      if ev.kind == NpcKind {
        var used;
        rerouting, used := ev.ChangeEnd(network, draws, finder);
      }
    }
    assert unchanged@Asked(network.Values);
  }

  class EVController {
    var evMap: map<string, EV>
    /** The traffic manager; its state is static in Java, so the controller's
        own instance and the singleton share it. */
    const tm: TrafficManager

    constructor (tm: TrafficManager)
      ensures evMap == map[] && this.tm == tm
    {
      evMap := map[];
      this.tm := tm;
    }

    /** `newEV(request)`: an `NPCVehicle` for type 3, otherwise an `EV`; it
        gets the requested destination and name and the decoded path from
        the path finder, is set moving and registered under its name,
        replacing any vehicle of that name. An odd-length path throws before
        the vehicle is registered. (The thread it starts is `SimulateEVMovement`.) */
    method NewEV(request: Request, finder: Pathfinder, millis: int) returns (r: Reply<EV>)
      modifies this`evMap
      ensures r.Ok? || r.Failed?
      ensures r.Failed? <==> DecodePath(finder(request.startX, request.startY, request.endX, request.endY)).None?
      ensures r.Failed? ==> evMap == old(evMap)
      ensures r.Ok? ==> var ev := r.value;
        && fresh(ev) && evMap == old(evMap)[request.name := ev]
        && ev.name == request.name && ev.startX == request.startX && ev.startY == request.startY
        && ev.endX == request.endX && ev.endY == request.endY
        && ev.moving && ev.currentPathIndex == 0
        && Some(ev.path) == DecodePath(finder(request.startX, request.startY, request.endX, request.endY))
        && (request.kind == NpcKind <==> ev.npc)
        && (request.kind == NpcKind ==> ev.kind == NpcKind && ev.charge == 100 && ev.chargingRate == 0 && ev.vehicleType == "ambulance")
        && (request.kind != NpcKind ==> ev.kind == request.kind && ev.charge == request.charge &&
                                        ev.chargingRate == request.chargingRate && ev.vehicleType == request.vehicleType)
    {
      var ev: EV;
      if request.kind == NpcKind {
        ev := new EV.Npc(request.startX, request.startY, millis);
      } else {
        ev := new EV.OfType(request.startX, request.startY, request.kind, request.charge, request.chargingRate, request.vehicleType);
      }
      ev.SetEndLocation(request.endX, request.endY);
      ev.name := request.name;
      var path := ConvertToPathNodes(finder(ev.startX, ev.startY, ev.endX, ev.endY));
      if path == None {
        return Failed;
      }
      ev.path := path.value;
      ev.moving := true;
      evMap := evMap[ev.name := ev];
      return Ok(ev);
    }

    /** One pass of the movement loop at the clock reading `clock[0]`, with
        destination draws `draws[0]`: a `MoveStep`. The run from here is this
        pass followed by the run on the remaining readings, or ends here with
        a crash or an exhausted supply of draws. */
    method Pass(ev: EV, network: map<Coord, Node>, clock: seq<int>, draws: seq<seq<Coord>>, finder: Pathfinder)
      returns (answer: Admission, rerouting: Rerouting)
      requires 0 <= ev.currentPathIndex < |ev.path| - 1 && clock != [] && |draws| == |clock|
      requires forall j :: 0 <= j < |draws[0]| ==> 0 <= draws[0][j].x < 35 && 0 <= draws[0][j].y < 35
      modifies network.Values`stalled
      modifies ev`currentDirection, ev`currentPathIndex, ev`endX, ev`endY, ev`path
      ensures Greens(network) == old(Greens(network))
      ensures 0 <= ev.currentPathIndex
      ensures old(Travel(network, Flags(network), Greens(network), Wanders(ev), TripOf(ev), true, tm.nextSignalChangeTime, clock, draws, finder))
        == if answer == NullPointer || rerouting == BrokenPath then Ride(Crashed, TripOf(ev), Flags(network))
           else if rerouting == NoDestination then Ride(OutOfFuel, TripOf(ev), Flags(network))
           else Travel(network, Flags(network), Greens(network), Wanders(ev), TripOf(ev), true, tm.nextSignalChangeTime, clock[1..], draws[1..], finder)
    {
      hide Travel, Decide, AfterWrites, ViewUnder, Arbitrate, ViewOf, Flags, Greens, Reroute, Heading, DecodePath, FirstRoadDraw;
      ghost var flags, greens, t := Flags(network), Greens(network), TripOf(ev);
      ghost var next := ev.path[ev.currentPathIndex + 1];
      ghost var d := Decide(network, flags, greens, tm.nextSignalChangeTime - clock[0], ev.Position(), next);
      DecideOwnState(network, tm.nextSignalChangeTime - clock[0], ev.Position(), next);
      ghost var cur, target := ViewOf(network, ev.Position()), ViewOf(network, next);
      assert d == Arbitrate(tm.nextSignalChangeTime - clock[0], cur, target);
      answer, rerouting := MoveStep(ev, tm, network, clock[0], draws[0], finder);
      ghost var after := Flags(network);
      assert d.claimTarget ==> next in network;
      assert d.releaseCurrent ==> t.path[t.index] in network;
      FlagsOfWrites(network, flags, after, t.path[t.index], next, d);
      ghost var t' := TripOf(ev);
      assert answer == d.answer;
      assert answer != Granted ==> rerouting == Kept && t' == t;
      if answer == Granted {
        GrantedMoveReroutes(network, Wanders(ev), t, t', draws[0], finder, rerouting);
      }
      TravelStep(network, flags, greens, Wanders(ev), t, tm.nextSignalChangeTime, clock, draws, finder, answer, rerouting, after, t');
    }

    /** The thread of `simulateEVMovement`, run on the clock readings `clock`
        (one per pass; a wandering vehicle draws its next destinations from
        `draws[k]` on pass `k`). While the vehicle is moving and not on the
        last cell of its path, each pass is a `MoveStep`; the whole run is
        `Travel`. When the loop condition fails the vehicle is stopped. */
    method SimulateEVMovement(ev: EV, network: map<Coord, Node>, clock: seq<int>, draws: seq<seq<Coord>>, finder: Pathfinder)
      returns (end: RunEnd)
      requires 0 <= ev.currentPathIndex && |draws| == |clock|
      requires forall k, j :: 0 <= k < |draws| && 0 <= j < |draws[k]| ==> 0 <= draws[k][j].x < 35 && 0 <= draws[k][j].y < 35
      modifies network.Values`stalled, ev`moving
      modifies ev`currentDirection, ev`currentPathIndex, ev`endX, ev`endY, ev`path
      ensures ev.moving == (old(ev.moving) && end != Finished)
      ensures end == Finished ==> !ev.moving
      ensures end == Finished ==> !old(ev.moving) || ev.currentPathIndex >= |ev.path| - 1
      ensures end != Finished ==> ev.moving == old(ev.moving)
      ensures !Wanders(ev) ==> ev.path == old(ev.path) && ev.endX == old(ev.endX) && ev.endY == old(ev.endY)
      ensures !Wanders(ev) ==> old(ev.currentPathIndex) <= ev.currentPathIndex <= old(ev.currentPathIndex) + |clock|
      ensures !Wanders(ev) && old(ev.currentPathIndex) <= |ev.path| - 1 ==> ev.currentPathIndex <= |ev.path| - 1
      ensures !Wanders(ev) && end == Crashed ==> ev.currentPathIndex < |ev.path| - 1
      ensures !Wanders(ev) && end == Finished && old(ev.moving) && old(ev.currentPathIndex) <= |ev.path| - 1 ==>
        ev.currentPathIndex == |ev.path| - 1
      ensures |old(ev.path)| <= 1 ==> end == Finished && ev.currentPathIndex == old(ev.currentPathIndex) && !ev.moving
      ensures Greens(network) == old(Greens(network))
      // Each pass is a `MoveStep` under the flags left by the passes before it.
      ensures var r := old(Travel(network, Flags(network), Greens(network), Wanders(ev), TripOf(ev), ev.moving,
                                  tm.nextSignalChangeTime, clock, draws, finder));
        end == r.end && TripOf(ev) == r.trip && Flags(network) == r.flags
    {
      hide Travel, Reroute, Moved, Decide, AfterWrites, ViewUnder, Arbitrate, ViewOf, Flags, Greens, FirstRoadDraw, Heading, DecodePath;
      ghost var flags, greens, t, moving := Flags(network), Greens(network), TripOf(ev), ev.moving;
      ghost var nc, wanders := tm.nextSignalChangeTime, Wanders(ev);
      ghost var goal := Travel(network, flags, greens, wanders, t, moving, nc, clock, draws, finder);
      TravelBounds(network, flags, greens, wanders, t, moving, nc, clock, draws, finder);
      end := OutOfFuel;
      var cut := false;
      var k := 0;
      while k < |clock| && ev.moving && ev.currentPathIndex < |ev.path| - 1
        invariant 0 <= k <= |clock|
        invariant ev.moving == moving
        invariant 0 <= ev.currentPathIndex
        invariant Greens(network) == greens
        invariant cut ==> end != Finished && goal == Ride(end, TripOf(ev), Flags(network))
        invariant !cut ==> Travel(network, Flags(network), greens, wanders, TripOf(ev), moving, nc, clock[k..], draws[k..], finder) == goal
      {
        var answer, rerouting := Pass(ev, network, clock[k..], draws[k..], finder);
        assert clock[k..][1..] == clock[k + 1..];
        assert draws[k..][1..] == draws[k + 1..];
        if answer == NullPointer || rerouting == BrokenPath {
          end, cut := Crashed, true;
          break;
        }
        if rerouting == NoDestination {
          cut := true;
          break;
        }
        k := k + 1;
      }
      if !cut {
        TravelStops(network, Flags(network), greens, wanders, TripOf(ev), moving, nc, clock[k..], draws[k..], finder);
        if !ev.moving || ev.currentPathIndex >= |ev.path| - 1 {
          label Stopping:
          ev.moving := false;
          end := Finished;
          assert unchanged@Stopping(network.Values);
        }
      }
      assert goal == Ride(end, TripOf(ev), Flags(network));
    }

    /** `canMoveToPosition(evName, x, y)`: `NotFound` for an unknown name;
        `false`, without asking the arbiter, unless `(x, y)` is the next
        cell of the vehicle's path; otherwise the arbiter's answer, `Failed`
        where it throws. */
    method CanMoveToPosition(name: string, x: int, y: int, network: map<Coord, Node>, now: int) returns (r: Reply<bool>)
      requires name in evMap ==> 0 <= evMap[name].currentPathIndex
      modifies network.Values`stalled
      ensures name !in evMap ==> r == NotFound
      ensures name in evMap ==> var ev := evMap[name];
        if ev.currentPathIndex + 1 < |ev.path| && ev.path[ev.currentPathIndex + 1] == Coord(x, y) then
          var d := Arbitrate(tm.nextSignalChangeTime - now, old(ViewOf(network, ev.Position())), old(ViewOf(network, Coord(x, y))));
          && r == (match d.answer case Granted => Ok(true) case Refused => Ok(false) case NullPointer => Failed)
          && forall n :: n in network.Values ==>
               n.stalled == (if d.claimTarget && n == network[Coord(x, y)] then true
                             else if d.releaseCurrent && n == network[ev.Position()] then false
                             else old(n.stalled))
        else r == Ok(false) && forall n :: n in network.Values ==> n.stalled == old(n.stalled)
      ensures name !in evMap ==> forall n :: n in network.Values ==> n.stalled == old(n.stalled)
    {
      if name !in evMap {
        return NotFound;
      }
      var ev := evMap[name];
      if ev.currentPathIndex + 1 < |ev.path| {
        var next := ev.path[ev.currentPathIndex + 1];
        if next.x == x && next.y == y {
          var answer := tm.CanMoveToPosition(network, ev, Coord(x, y), now);
          r := match answer case Granted => Ok(true) case Refused => Ok(false) case NullPointer => Failed;
          return;
        }
      }
      return Ok(false);
    }

    /** `getEVStatus(evName)`: the charge and current cell of the vehicle;
        `Failed` where the index names no cell of its path. */
    function GetEVStatus(name: string): (r: Reply<Status>)
      reads this, evMap.Values
      ensures r == NotFound <==> name !in evMap
      ensures r == Failed <==> name in evMap && !evMap[name].OnPath()
      ensures r.Ok? ==> r.value == Status(evMap[name].charge, evMap[name].Position().x, evMap[name].Position().y)
    {
      if name !in evMap then NotFound
      else if !evMap[name].OnPath() then Failed
      else Ok(Status(evMap[name].charge, evMap[name].CurrentX(), evMap[name].CurrentY()))
    }

    /** `startEV(evName)`: sets the vehicle moving and returns its path. */
    method StartEV(name: string) returns (r: Reply<seq<Coord>>)
      modifies evMap.Values`moving
      ensures name !in evMap ==> r == NotFound
      ensures name in evMap ==> r == Ok(evMap[name].path)
      ensures forall ev :: ev in evMap.Values ==>
        ev.moving == if name in evMap && ev == evMap[name] then true else old(ev.moving)
    {
      if name !in evMap {
        return NotFound;
      }
      var ev := evMap[name];
      ev.moving := true;
      return Ok(ev.path);
    }

    /** `deleteEV(evName)`: removes the vehicle; afterwards its status is
        `NotFound`. */
    method DeleteEV(name: string) returns (r: Reply<()>)
      modifies this`evMap
      ensures r == (if name in old(evMap) then Ok(()) else NotFound)
      ensures evMap == old(evMap) - {name}
      ensures GetEVStatus(name) == NotFound
    {
      if name in evMap {
        evMap := evMap - {name};
        return Ok(());
      }
      return NotFound;
    }

    /** `updateEVPosition(evName)`: one cell further along the path, for a
        moving vehicle not yet on its last cell; otherwise `NotFound`. */
    method UpdateEVPosition(name: string) returns (r: Reply<()>)
      modifies evMap.Values`currentPathIndex
      ensures var go := name in evMap && evMap[name].moving && old(evMap[name].currentPathIndex) < |evMap[name].path| - 1;
        && r == (if go then Ok(()) else NotFound)
        && forall ev :: ev in evMap.Values ==>
             ev.currentPathIndex == if go && ev == evMap[name] then old(ev.currentPathIndex) + 1 else old(ev.currentPathIndex)
    {
      if name in evMap {
        var ev := evMap[name];
        if ev.moving && ev.currentPathIndex < |ev.path| - 1 {
          ev.currentPathIndex := ev.currentPathIndex + 1;
          return Ok(());
        }
      }
      return NotFound;
    }

    /** `getTrafficSignals()`: each registered light, in order, with its
        coordinates and whether it is green. */
    function GetTrafficSignals(): (states: seq<SignalState>)
      requires tm.LightsAreSignals()
      reads this, tm, tm.trafficLights
      ensures |states| == |tm.trafficLights|
      ensures forall i :: 0 <= i < |states| ==>
        states[i] == SignalState(tm.trafficLights[i].x, tm.trafficLights[i].y, tm.trafficLights[i].signal == 0)
    {
      seq(|tm.trafficLights|, i reads tm, tm.trafficLights requires 0 <= i < |tm.trafficLights| && tm.LightsAreSignals() =>
        SignalState(tm.trafficLights[i].x, tm.trafficLights[i].y, tm.trafficLights[i].IsGreen()))
    }

    /** `changeTrafficSignals()` at time `now`. */
    method ChangeTrafficSignals(now: int)
      requires tm.LightsAreSignals()
      modifies tm`nextSignalChangeTime, (set n | n in tm.trafficLights)`signal
      ensures tm.nextSignalChangeTime == now + SignalChangeInterval
      ensures forall n :: n in tm.trafficLights ==> n.signal == Advance(old(n.signal), multiset(tm.trafficLights)[n])
    {
      tm.ChangeSignals(now);
    }
  }
}
