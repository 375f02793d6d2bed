/**
 * The signal controller and cell arbiter (`TrafficManager.java`). Its static
 * state (the list of registered lights and the time of the next signal
 * change) is the state of one `TrafficManager` object; the clock is a
 * parameter.
 */
module Traffic {
  import opened JavaInt
  import opened Coords
  import opened Nodes
  import opened Vehicles

  /** Milliseconds between two signal changes (`SIGNAL_CHANGE_INTERVAL`). */
  const SignalChangeInterval: int := 5000

  /** What the arbiter sees of one cell. */
  datatype CellView = Absent | Plain(stalled: bool) | Signal(stalled: bool, green: bool)

  function ViewOf(network: map<Coord, Node>, c: Coord): (v: CellView)
    reads network.Values
    ensures v.Absent? <==> c !in network
    ensures v.Signal? <==> TrafficNodeAt(network, c) != null
    ensures !v.Absent? ==> v.stalled == network[c].stalled
  {
    if c !in network then Absent
    else if network[c].isTraffic then Signal(network[c].stalled, network[c].signal == 0)
    else Plain(network[c].stalled)
  }

  /** The `stalled` flag of every node of the network. */
  function Flags(network: map<Coord, Node>): (f: map<Node, bool>)
    reads network.Values
    ensures f.Keys == network.Values
    ensures forall n :: n in f ==> f[n] == n.stalled
  {
    map n | n in network.Values :: n.stalled
  }

  /** Whether the light of every node of the network shows green (phase 0). */
  function Greens(network: map<Coord, Node>): (g: map<Node, bool>)
    reads network.Values
    ensures g.Keys == network.Values
    ensures forall n :: n in g ==> g[n] == (n.signal == 0)
  {
    map n | n in network.Values :: n.signal == 0
  }

  /** What the arbiter sees of cell `c` when the nodes' `stalled` flags are
      `flags` and their lights `greens` (a node missing from either reads as
      free, and red). */
  function ViewUnder(network: map<Coord, Node>, flags: map<Node, bool>, greens: map<Node, bool>, c: Coord): (v: CellView)
    ensures v.Absent? <==> c !in network
    ensures v.Signal? <==> TrafficNodeAt(network, c) != null
    ensures !v.Absent? ==> v.stalled == (network[c] in flags && flags[network[c]])
    ensures v.Signal? ==> v.green == (network[c] in greens && greens[network[c]])
  {
    if c !in network then Absent
    else
      var s := network[c] in flags && flags[network[c]];
      if network[c].isTraffic then Signal(s, network[c] in greens && greens[network[c]]) else Plain(s)
  }

  /** Under the network's own flags and lights, `ViewUnder` is `ViewOf`. */
  lemma ViewUnderOwnState(network: map<Coord, Node>, c: Coord)
    ensures ViewUnder(network, Flags(network), Greens(network), c) == ViewOf(network, c)
  {
  }

  /** The arbiter's decision on a move from `cur` to `tgt` under the flags
      `flags` and the lights `greens`. */
  function Decide(network: map<Coord, Node>, flags: map<Node, bool>, greens: map<Node, bool>,
                  timeUntilChange: int, cur: Coord, tgt: Coord): Decision
  {
    Arbitrate(timeUntilChange, ViewUnder(network, flags, greens, cur), ViewUnder(network, flags, greens, tgt))
  }

  /** The flags after the writes of decision `d` on a move from `cur` to
      `tgt`: the target's node claimed, otherwise the current cell's node
      released, every other node as it was. */
  function AfterWrites(network: map<Coord, Node>, flags: map<Node, bool>, cur: Coord, tgt: Coord, d: Decision): (r: map<Node, bool>)
    ensures r.Keys == flags.Keys
    ensures forall n :: n in flags && r[n] != flags[n] ==>
      (d.claimTarget && tgt in network && n == network[tgt]) || (d.releaseCurrent && cur in network && n == network[cur])
  {
    map n | n in flags ::
      if d.claimTarget && tgt in network && n == network[tgt] then true
      else if d.releaseCurrent && cur in network && n == network[cur] then false
      else flags[n]
  }

  /** Under the network's own flags and lights, `Decide` is the arbiter on
      the cells' views. */
  lemma DecideOwnState(network: map<Coord, Node>, timeUntilChange: int, cur: Coord, tgt: Coord)
    ensures Decide(network, Flags(network), Greens(network), timeUntilChange, cur, tgt)
      == Arbitrate(timeUntilChange, ViewOf(network, cur), ViewOf(network, tgt))
  {
    ViewUnderOwnState(network, cur);
    ViewUnderOwnState(network, tgt);
  }

  /** Flags that differ from `before` exactly by the writes of `d` are
      `AfterWrites`. */
  lemma FlagsOfWrites(network: map<Coord, Node>, before: map<Node, bool>, after: map<Node, bool>,
                      cur: Coord, tgt: Coord, d: Decision)
    requires after.Keys == before.Keys
    requires forall n :: n in after ==>
      after[n] == (if d.claimTarget && tgt in network && n == network[tgt] then true
                   else if d.releaseCurrent && cur in network && n == network[cur] then false
                   else before[n])
    ensures after == AfterWrites(network, before, cur, tgt, d)
  {
  }

  /** The answer of `canMoveToPosition`: `true`, `false`, or the
      `NullPointerException` it throws when a cell it dereferences is missing. */
  datatype Admission = Granted | Refused | NullPointer

  /** An answer and the flag writes made before it was given: release of the
      current cell (`setStalled(false)`), claim of the target (`setStalled(true)`). */
  datatype Decision = Decision(answer: Admission, releaseCurrent: bool, claimTarget: bool)

  /** The arbitration rule of `canMoveToPosition`, given the milliseconds left
      before the next signal change and what it sees of the current and the
      target cell. */
  function Arbitrate(timeUntilChange: int, cur: CellView, tgt: CellView): (d: Decision)
    // Near a signal, a crossing needs two move intervals before the next change.
    ensures (cur.Signal? || tgt.Signal?) && timeUntilChange < 2 * MoveInterval ==> d == Decision(Refused, false, false)
    // A grant claims the target and releases the current cell; nothing else writes the target.
    ensures d.answer == Granted <==> d.claimTarget
    ensures d.answer == Granted ==> d.releaseCurrent && !cur.Absent? && !tgt.Absent?
    // A refusal changes nothing.
    ensures d.answer == Refused ==> !d.releaseCurrent && !d.claimTarget
    // Only a vehicle on a signal cell can have its cell released without a grant.
    ensures d.releaseCurrent && d.answer != Granted ==> cur.Signal? && d.answer == NullPointer && tgt.Absent?
    // From a plain cell, a grant needs a free target.
    ensures d.answer == Granted && !cur.Signal? ==> !tgt.stalled
    // From a signal cell, a grant needs green here and, if the target is a signal, green there.
    ensures d.answer == Granted && cur.Signal? ==> cur.green && (tgt.Signal? ==> tgt.green)
    // Past the timing gate, a plain cell is left for a free target, and a green
    // signal cell for any target that is not a red signal.
    ensures d.answer == Granted <==>
      && !((cur.Signal? || tgt.Signal?) && timeUntilChange < 2 * MoveInterval)
      && !tgt.Absent?
      && (if cur.Signal? then cur.green && (tgt.Signal? ==> tgt.green) else !cur.Absent? && !tgt.stalled)
    // Past the timing gate, a missing target throws, from a plain cell at once and
    // from a signal cell once both lights are checked; a missing current cell
    // throws from a plain cell when the target is free.
    ensures d.answer == NullPointer <==>
      && !((cur.Signal? || tgt.Signal?) && timeUntilChange < 2 * MoveInterval)
      && (if cur.Signal? then cur.green && tgt.Absent? else tgt.Absent? || (!tgt.stalled && cur.Absent?))
    // The current cell is released on a grant, and on the throw from a signal cell.
    ensures d.releaseCurrent <==> d.answer == Granted || (d.answer == NullPointer && cur.Signal?)
  {
    if (cur.Signal? || tgt.Signal?) && timeUntilChange < 2 * MoveInterval then Decision(Refused, false, false)
    else if !cur.Signal? then
      if tgt.Absent? then Decision(NullPointer, false, false)
      else if tgt.stalled then Decision(Refused, false, false)
      else if cur.Absent? then Decision(NullPointer, false, false)
      else Decision(Granted, true, true)
    else if tgt.Signal? && !tgt.green then Decision(Refused, false, false)
    else if !cur.green then Decision(Refused, false, false)
    else if tgt.Absent? then Decision(NullPointer, true, false)
    else Decision(Granted, true, true)
  }

  /** From a plain cell the target's signal is never consulted: a free red
      signal cell is entered. */
  lemma PlainCellEntersRedSignal(t: int)
    requires t >= 2 * MoveInterval
    ensures Arbitrate(t, Plain(false), Signal(false, false)).answer == Granted
  {
  }

  /** From a signal cell the target's occupancy is never consulted: an
      occupied target is claimed a second time. */
  lemma SignalCellIgnoresOccupancy(t: int)
    requires t >= 2 * MoveInterval
    ensures Arbitrate(t, Signal(true, true), Plain(true)).answer == Granted
    ensures Arbitrate(t, Signal(true, true), Signal(true, true)).answer == Granted
  {
  }

  /** Away from signals the answer does not depend on the clock. */
  lemma PlainCellsIgnoreClock(t1: int, t2: int, cur: CellView, tgt: CellView)
    requires !cur.Signal? && !tgt.Signal?
    ensures Arbitrate(t1, cur, tgt) == Arbitrate(t2, cur, tgt)
  {
  }

  /** A list holding each light once. */
  predicate Distinct(s: seq<Node>)
  {
    forall n :: n in s ==> multiset(s)[n] == 1
  }

  /** Holding each light once is having no light at two positions. */
  lemma {:induction false} DistinctIsPairwise(s: seq<Node>, i: int, j: int)
    requires Distinct(s) && 0 <= i < j < |s|
    ensures s[i] != s[j]
  {
    var x := s[j];
    assert s == s[..j] + [x] + s[j + 1..];
    assert multiset(s)[x] == multiset(s[..j])[x] + 1 + multiset(s[j + 1..])[x];
    assert x !in s[..j];
    assert s[..j][i] == s[i];
  }

  class TrafficManager {
    /** The registered lights, in registration order. */
    var trafficLights: seq<Node>
    var nextSignalChangeTime: int

    constructor ()
      ensures trafficLights == [] && nextSignalChangeTime == 0
    {
      trafficLights := [];
      nextSignalChangeTime := 0;
    }

    predicate LightsAreSignals()
      reads this
    {
      forall n :: n in trafficLights ==> n.isTraffic
    }

    method AddTrafficNode(n: Node)
      requires n.isTraffic
      modifies this`trafficLights
      ensures trafficLights == old(trafficLights) + [n]
    {
      trafficLights := trafficLights + [n];
    }

    /** `updateSignals`: every registered light changes phase once per time it
        is registered; no other field of any node changes. */
    method UpdateSignals()
      requires LightsAreSignals()
      modifies (set n | n in trafficLights)`signal
      ensures forall n :: n in trafficLights ==> n.signal == Advance(old(n.signal), multiset(trafficLights)[n])
    {
      hide NextPhase;
      for i := 0 to |trafficLights|
        invariant forall n :: n in trafficLights ==> n.signal == Advance(old(n.signal), multiset(trafficLights[..i])[n])
      {
        var light := trafficLights[i];
        assert trafficLights[..i + 1] == trafficLights[..i] + [light];
        ghost var before := multiset(trafficLights[..i]);
        ghost var counted := multiset(trafficLights[..i + 1]);
        assert forall n :: n != light ==> counted[n] == before[n];
        assert counted[light] == before[light] + 1;
        light.ChangeSignal();
        forall n | n in trafficLights
          ensures n.signal == Advance(old(n.signal), counted[n])
        {
          if n == light {
            assert Advance(old(n.signal), counted[n]) == NextPhase(Advance(old(n.signal), before[n]));
          }
        }
      }
      assert trafficLights[..|trafficLights|] == trafficLights;
    }

    /** `changeSignals(now)`: schedules the next change one interval ahead and
        moves every light on. */
    method ChangeSignals(now: int)
      requires LightsAreSignals()
      modifies this`nextSignalChangeTime, (set n | n in trafficLights)`signal
      ensures nextSignalChangeTime == now + SignalChangeInterval
      ensures forall n :: n in trafficLights ==> n.signal == Advance(old(n.signal), multiset(trafficLights)[n])
    {
      nextSignalChangeTime := now + SignalChangeInterval;
      UpdateSignals();
    }

    /** `canMoveToPosition(ev, target)` at time `now`, on the road network of
        the game map. Its answer and its writes to the cells' `stalled` flags
        are those of `Arbitrate`; nothing else changes. */
    method CanMoveToPosition(network: map<Coord, Node>, ev: EV, target: Coord, now: int) returns (answer: Admission)
      requires ev.OnPath()
      modifies network.Values`stalled
      ensures var d := Arbitrate(nextSignalChangeTime - now, old(ViewOf(network, ev.Position())), old(ViewOf(network, target)));
        && answer == d.answer
        && forall n :: n in network.Values ==>
             n.stalled == (if d.claimTarget && n == network[target] then true
                           else if d.releaseCurrent && n == network[ev.Position()] then false
                           else old(n.stalled))
      ensures Greens(network) == old(Greens(network))
    {
      var cur := ev.path[ev.currentPathIndex];
      var currentSignal := TrafficNodeAt(network, cur);
      if currentSignal != null || TrafficNodeAt(network, target) != null {
        var timeUntilChange := nextSignalChangeTime - now;
        if timeUntilChange < 2 * MoveInterval {
          return Refused;
        }
      }
      if currentSignal == null {
        if target !in network {
          return NullPointer;
        }
        if network[target].stalled {
          return Refused;
        }
        if cur !in network {
          return NullPointer;
        }
        network[cur].SetStalled(false);
        network[target].SetStalled(true);
        return Granted;
      }
      var targetSignal := TrafficNodeAt(network, target);
      if targetSignal != null && !targetSignal.IsGreen() {
        return Refused;
      }
      if !currentSignal.IsGreen() {
        return Refused;
      }
      network[cur].SetStalled(false);
      if target !in network {
        return NullPointer;
      }
      network[target].SetStalled(true);
      return Granted;
    }
  }
}
