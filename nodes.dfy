/**
 * Road cells (`Node.java`) and signalised road cells (`TrafficNode.java`).
 * Dafny has no subclassing here, so one class carries both: `isTraffic`
 * is the run-time class of the Java object, and `signal` and `group`
 * are meaningful only when it holds.
 */
module Nodes {
  import opened JavaInt
  import opened Decimal
  import opened Coords
  import opened CellFormat
  import opened CellParsing

  /** The `type` strings the parser gives the two kinds of cell. */
  const PlainType: string := "Node"
  const TrafficType: string := "TrafficNode"

  /** One `changeSignal`: `(signal + 1) % 4` in Java `int` arithmetic. */
  function NextPhase(p: Int32): Int32
  {
    Rem(Wrap(p + 1), 4)
  }

  /** The phase after `k` signal changes. */
  function Advance(p: Int32, k: nat): Int32
  {
    if k == 0 then p else NextPhase(Advance(p, k - 1))
  }

  class Node {
    const x: int
    const y: int
    /** The public `type` field. */
    const kind: string
    /** Whether the object is a `TrafficNode`. */
    const isTraffic: bool
    var stalled: bool
    var neighbors: seq<Node>
    /** Signal phase; 0 is green, anything else red. */
    var signal: Int32
    var group: int

    constructor (x: int, y: int, kind: string)
      ensures this.x == x && this.y == y && this.kind == kind && !isTraffic
      ensures !stalled && neighbors == []
    {
      this.x := x;
      this.y := y;
      this.kind := kind;
      isTraffic := false;
      stalled := false;
      neighbors := [];
      signal := 0;
      group := 0;
    }

    /** `new TrafficNode(x, y, type, trafficType)`: the phase starts at `trafficType`. */
    constructor Traffic(x: int, y: int, kind: string, trafficType: Int32)
      ensures this.x == x && this.y == y && this.kind == kind && isTraffic
      ensures !stalled && neighbors == [] && signal == trafficType && group == 0
    {
      this.x := x;
      this.y := y;
      this.kind := kind;
      isTraffic := true;
      stalled := false;
      neighbors := [];
      signal := trafficType;
      group := 0;
    }

    function Coordinate(): Coord
    {
      Coord(x, y)
    }

    method SetStalled(b: bool)
      modifies this`stalled
      ensures stalled == b
    {
      stalled := b;
    }

    method ChangeSignal()
      requires isTraffic
      modifies this`signal
      ensures signal == NextPhase(old(signal))
    {
      signal := NextPhase(signal);
    }

    predicate IsGreen()
      requires isTraffic
      reads this
    {
      signal == 0
    }

    predicate IsRed()
      requires isTraffic
      reads this
    {
      signal != 0
    }

    /** `equals`: same run-time class and same coordinates; the `type` string,
        the neighbours and the flags play no part. */
    function Equals(o: Node?): (r: bool)
      ensures r <==> o != null && isTraffic == o.isTraffic && x == o.x && y == o.y
    {
      this == o || (o != null && isTraffic == o.isTraffic && x == o.x && y == o.y)
    }

    /** `Objects.hash(x, y)`, which is `31 * (31 + x) + y` on 32 bits. */
    function HashCode(): Int32
    {
      Wrap(31 * Wrap(31 + x) + y)
    }

    /** `"(" + x + "," + y + ")"`: the text of a map cell listing this node alone. */
    function ToString(): (s: string)
      ensures s == CellText([Coordinate()])
    {
      "(" + Text(x) + "," + Text(y) + ")"
    }

    /** `get_pair`: probes four cells around this node, in a fixed order, for a
        `TrafficNode` of type "TrafficNode" in the same phase as `current`. */
    method GetPair(current: Node, network: map<Coord, Node>) returns (pair: Node?)
      requires isTraffic && current.isTraffic
      ensures pair == null <==>
        forall k :: 0 <= k < |PairOffsets| ==> !PairMatches(network, Probe(k), current.signal)
      ensures pair != null ==>
        exists k :: 0 <= k < |PairOffsets| && Probe(k) in network && pair == network[Probe(k)]
          && PairMatches(network, Probe(k), current.signal)
          && forall j :: 0 <= j < k ==> !PairMatches(network, Probe(j), current.signal)
      ensures pair != null ==> pair.isTraffic && pair.kind == TrafficType && pair.signal == current.signal
    {
      for k := 0 to |PairOffsets|
        invariant forall j :: 0 <= j < k ==> !PairMatches(network, Probe(j), current.signal)
      {
        var candidate := TrafficNodeAt(network, Probe(k));
        if candidate != null && candidate.kind == TrafficType && candidate.signal == current.signal {
          return candidate;
        }
      }
      return null;
    }

    /** The `k`-th cell `get_pair` probes, relative to this node. */
    function Probe(k: nat): Coord
      requires k < |PairOffsets|
    {
      Coord(x + PairOffsets[k].x, y + PairOffsets[k].y)
    }
  }

  /** The offsets `get_pair` probes, in order. */
  const PairOffsets: seq<Coord> := [Coord(1, 3), Coord(-3, 1), Coord(-1, -3), Coord(3, -1)]

  /** `GameMap.getTrafficNode`: the cell's node if it is a `TrafficNode`, else `null`. */
  function TrafficNodeAt(network: map<Coord, Node>, c: Coord): (n: Node?)
    ensures n != null <==> c in network && network[c].isTraffic
    ensures n != null ==> n == network[c]
  {
    if c in network && network[c].isTraffic then network[c] else null
  }

  predicate PairMatches(network: map<Coord, Node>, c: Coord, phase: Int32)
    reads network.Values
  {
    TrafficNodeAt(network, c) != null && network[c].kind == TrafficType && network[c].signal == phase
  }

  /** Every network entry sits under its own coordinates. */
  predicate Keyed(network: map<Coord, Node>)
  {
    forall c :: c in network ==> network[c].x == c.x && network[c].y == c.y
  }

  /** On nodes of one network, `equals` is object identity. */
  lemma EqualsIsIdentity(network: map<Coord, Node>, a: Node, b: Node)
    requires Keyed(network) && a in network.Values && b in network.Values
    ensures a.Equals(b) <==> a == b
  {
    var ca :| ca in network && network[ca] == a;
    var cb :| cb in network && network[cb] == b;
  }

  /** `parseCoordinates` reads a node's `toString` back as the node's cell. */
  lemma ToStringReadsBack(n: Node)
    requires MinInt <= n.x <= MaxInt && MinInt <= n.y <= MaxInt
    ensures CoordinatesOf(n.ToString()) == [n.Coordinate()]
  {
    CoordinatesOfCellText([n.Coordinate()]);
  }

  /** `equals` and `hashCode` agree, as `HashMap` and `HashSet` require. */
  lemma EqualNodesHashAlike(a: Node, b: Node)
    requires a.Equals(b)
    ensures a.HashCode() == b.HashCode()
  {
  }

  /** `isRed` and `isGreen` are complementary: a light is red in exactly the
      phases where it is not green. */
  lemma RedIsNotGreen(n: Node)
    requires n.isTraffic
    ensures n.IsRed() <==> !n.IsGreen()
  {
  }

  /** Below 3 a change is a plain increment; from 3 it wraps to 0. */
  lemma NextPhaseIncrements(q: Int32)
    requires -4 < q < 4
    ensures NextPhase(q) == if q == 3 then 0 else q + 1
  {
  }

  lemma ModFourStep(a: nat)
    ensures (a + 1) % 4 == if a % 4 == 3 then 0 else a % 4 + 1
  {
  }

  /** On phases 0..3, `changeSignal` is a step around the four-phase cycle. */
  lemma {:induction false} AdvanceInCycle(p: Int32, k: nat)
    requires 0 <= p < 4
    ensures Advance(p, k) == (p + k) % 4
  {
    if k > 0 {
      AdvanceInCycle(p, k - 1);
      NextPhaseIncrements(Advance(p, k - 1));
      ModFourStep(p + k - 1);
    }
  }

  /** A signal starting in phase 0..3 shows green exactly once in every four changes. */
  lemma GreenEveryFourthChange(p: Int32, k: nat)
    requires 0 <= p < 4
    ensures Advance(p, k) == 0 <==> (p + k) % 4 == 0
    ensures Advance(p, k + 4) == Advance(p, k)
  {
    AdvanceInCycle(p, k);
    AdvanceInCycle(p, k + 4);
    assert (p + k + 4) % 4 == (p + k) % 4;
  }

  /** Any `int` start phase, even a negative one, is inside the cycle 0..3
      after four changes. */
  lemma EntersCycle(p: Int32)
    ensures 0 <= Advance(p, 4) < 4
  {
    var q1 := Advance(p, 1);
    assert -4 < q1 < 4;
    var q2 := Advance(p, 2);
    var q3 := Advance(p, 3);
    NextPhaseIncrements(q1);
    assert q2 == NextPhase(q1);
    NextPhaseIncrements(q2);
    assert q3 == NextPhase(q2);
    NextPhaseIncrements(q3);
    assert Advance(p, 4) == NextPhase(q3);
  }
}
