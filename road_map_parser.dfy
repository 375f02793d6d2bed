/**
 * `RoadMapParser.java`: builds the road graph from the map grid and the
 * signal grid, and answers reachability questions by depth-first search.
 * The two grids are taken as already read and split into trimmed cells;
 * reading the CSV files is I/O and is not modelled.
 */
module RoadMaps {
  import opened Wrappers
  import opened JavaInt
  import opened Decimal
  import opened Coords
  import opened Nodes
  import opened CellParsing
  import opened Traffic

  // ---------------------------------------------------------------------
  // Graphs of nodes and walks through them
  // ---------------------------------------------------------------------

  /** Every neighbour of a node of `s` is in `s`. */
  ghost predicate Closed(s: set<Node>)
    reads s
  {
    forall n, i :: n in s && 0 <= i < |n.neighbors| ==> n.neighbors[i] in s
  }

  /** `w` is a walk of at least one cell along `neighbors` edges of the
      network (walks are written as coordinates, so that they hold no references). */
  ghost predicate IsWalk(network: map<Coord, Node>, w: seq<Coord>)
    reads network.Values
  {
    |w| > 0 && (forall i :: 0 <= i < |w| ==> w[i] in network) &&
    forall i :: 0 <= i < |w| - 1 ==> network[w[i + 1]] in network[w[i]].neighbors
  }

  ghost predicate Reachable(network: map<Coord, Node>, s: Node, t: Node)
    reads network.Values
  {
    exists w :: IsWalk(network, w) && network[w[0]] == s && network[w[|w| - 1]] == t
  }

  ghost function ReachableSet(network: map<Coord, Node>, s: Node): set<Node>
    reads network.Values
  {
    set t | t in network.Values && Reachable(network, s, t)
  }

  lemma ReachesItself(network: map<Coord, Node>, s: Node)
    requires s in network.Values
    ensures Reachable(network, s, s)
  {
    var c :| c in network && network[c] == s;
    assert IsWalk(network, [c]);
  }

  /** One edge followed by a walk is a walk. */
  lemma ReachesThrough(network: map<Coord, Node>, s: Node, m: Node, t: Node)
    requires s in network.Values && m in s.neighbors && Reachable(network, m, t)
    ensures Reachable(network, s, t)
  {
    var w :| IsWalk(network, w) && network[w[0]] == m && network[w[|w| - 1]] == t;
    var c :| c in network && network[c] == s;
    var w' := [c] + w;
    assert forall i :: 0 < i < |w'| ==> w'[i] == w[i - 1];
    assert IsWalk(network, w');
  }

  /** A walk that starts in a set closed under `neighbors` stays in it. */
  lemma {:induction false} WalkStaysInside(network: map<Coord, Node>, s: set<Node>, w: seq<Coord>)
    requires IsWalk(network, w) && network[w[0]] in s
    requires forall n, i :: n in s && 0 <= i < |n.neighbors| ==> n.neighbors[i] in s
    ensures network[w[|w| - 1]] in s
    decreases |w|
  {
    if |w| > 1 {
      var front := w[..|w| - 1];
      assert IsWalk(network, front);
      WalkStaysInside(network, s, front);
      assert network[w[|w| - 1]] in network[w[|w| - 2]].neighbors;
    }
  }

  lemma ClosedKeepsReachable(network: map<Coord, Node>, s: set<Node>, a: Node, t: Node)
    requires a in s && Reachable(network, a, t)
    requires forall n, i :: n in s && 0 <= i < |n.neighbors| ==> n.neighbors[i] in s
    ensures t in s
  {
    var w :| IsWalk(network, w) && network[w[0]] == a && network[w[|w| - 1]] == t;
    WalkStaysInside(network, s, w);
  }

  /** `HashSet.contains`: some element `equals` the node. */
  function Holds(s: set<Node>, n: Node): bool
  {
    exists v :: v in s && v.Equals(n)
  }

  /** Among the nodes of one keyed network, `contains` is membership. */
  lemma HoldsIsMembership(network: map<Coord, Node>, s: set<Node>, n: Node)
    requires Keyed(network) && s <= network.Values && n in network.Values
    ensures Holds(s, n) <==> n in s
  {
    if Holds(s, n) {
      var v :| v in s && v.Equals(n);
      EqualsIsIdentity(network, v, n);
    }
  }

  /** The nodes `nodes` links to from `cs`, in order. */
  ghost predicate LinksTo(network: map<Coord, Node>, ns: seq<Node>, cs: seq<Coord>)
  {
    |ns| == |cs| && forall q :: 0 <= q < |cs| ==> cs[q] in network && ns[q] == network[cs[q]]
  }

  // ---------------------------------------------------------------------
  // The two grids
  // ---------------------------------------------------------------------

  /** A signal cell as `parseCSV` reads it: absent (the list lookup throws),
      not an `int` (`parseInt` throws), "0" (`Ordinary`, a plain `Node`), or the number
      of a `TrafficNode` whose phase starts one below it. */
  datatype Signal = Missing | Unreadable | Ordinary | Phase(start: Int32)

  /** One signal cell text: "0", or what `Integer.parseInt(text) - 1` gives. */
  function ReadSignal(t: string): (r: Signal)
    ensures r.Ordinary? <==> t == "0"
    ensures r.Phase? <==> t != "0" && ParseJavaInt(t).Some?
    ensures r.Phase? ==> r.start == Wrap(ParseJavaInt(t).value as int - 1)
    ensures !r.Missing?
  {
    if t == "0" then Ordinary
    else match ParseJavaInt(t)
      case Some(v) => Phase(Wrap(v as int - 1))
      case None => Unreadable
  }

  /** The signal cell of `c` in the signal grid: `signalGrid.get(x - 1)[y - 1]`,
      `Missing` where that throws. (For `x` equal to the least `int`, Java's
      `x - 1` wraps to the greatest, which no list can index either.) */
  function ReadAt(signals: seq<seq<string>>, c: Coord): Signal
  {
    if 1 <= c.x <= |signals| && 1 <= c.y <= |signals[c.x - 1]| then ReadSignal(signals[c.x - 1][c.y - 1]) else Missing
  }

  /** The two grids as the scan reads them: the text of each map cell, the
      neighbour list `parseCoordinates` reads from it, and each signal cell. */
  datatype Sheet = Sheet(grid: seq<seq<string>>, links: seq<seq<seq<Coord>>>, signals: seq<seq<Signal>>)

  /** The lists read from one row of the map grid. */
  function RowLinks(row: seq<string>): (r: seq<seq<Coord>>)
    ensures |r| == |row|
  {
    if row == [] then [] else RowLinks(row[..|row| - 1]) + [CoordinatesOf(row[|row| - 1])]
  }

  function GridLinks(grid: seq<seq<string>>): (r: seq<seq<seq<Coord>>>)
    ensures |r| == |grid|
  {
    if grid == [] then [] else GridLinks(grid[..|grid| - 1]) + [RowLinks(grid[|grid| - 1])]
  }

  /** The signal cells of one row of the signal grid. */
  function RowSignals(row: seq<string>): (r: seq<Signal>)
    ensures |r| == |row|
  {
    if row == [] then [] else RowSignals(row[..|row| - 1]) + [ReadSignal(row[|row| - 1])]
  }

  function GridSignals(signals: seq<seq<string>>): (r: seq<seq<Signal>>)
    ensures |r| == |signals|
  {
    if signals == [] then [] else GridSignals(signals[..|signals| - 1]) + [RowSignals(signals[|signals| - 1])]
  }

  /** The sheet of a map grid and a signal grid. */
  function SheetOf(grid: seq<seq<string>>, signals: seq<seq<string>>): Sheet
  {
    Sheet(grid, GridLinks(grid), GridSignals(signals))
  }

  lemma {:induction false} RowLinksReads(row: seq<string>, b: int)
    requires 0 <= b < |row|
    ensures RowLinks(row)[b] == CoordinatesOf(row[b])
  {
    if b < |row| - 1 {
      RowLinksReads(row[..|row| - 1], b);
    }
  }

  lemma {:induction false} GridLinksReads(grid: seq<seq<string>>, a: int)
    requires 0 <= a < |grid|
    ensures GridLinks(grid)[a] == RowLinks(grid[a])
  {
    if a < |grid| - 1 {
      GridLinksReads(grid[..|grid| - 1], a);
    }
  }

  lemma {:induction false} RowSignalsReads(row: seq<string>, b: int)
    requires 0 <= b < |row|
    ensures RowSignals(row)[b] == ReadSignal(row[b])
  {
    if b < |row| - 1 {
      RowSignalsReads(row[..|row| - 1], b);
    }
  }

  lemma {:induction false} GridSignalsReads(signals: seq<seq<string>>, a: int)
    requires 0 <= a < |signals|
    ensures GridSignals(signals)[a] == RowSignals(signals[a])
  {
    if a < |signals| - 1 {
      GridSignalsReads(signals[..|signals| - 1], a);
    }
  }

  /** A sheet's lists are what `parseCoordinates` reads from each map cell... */
  lemma LinksRead(grid: seq<seq<string>>, sh: Sheet, a: int, b: int)
    requires sh.links == GridLinks(grid) && 0 <= a < |grid| && 0 <= b < |grid[a]|
    ensures ListAt(sh, a, b) == CoordinatesOf(grid[a][b])
  {
    GridLinksReads(grid, a);
    RowLinksReads(grid[a], b);
  }

  /** ... and its signal cells are how each signal cell reads. */
  lemma SignalsRead(signals: seq<seq<string>>, sh: Sheet, c: Coord)
    requires sh.signals == GridSignals(signals)
    ensures SignalAt(sh, c) == ReadAt(signals, c)
  {
    if 1 <= c.x <= |signals| {
      GridSignalsReads(signals, c.x - 1);
      if 1 <= c.y <= |signals[c.x - 1]| {
        RowSignalsReads(signals[c.x - 1], c.y - 1);
      }
    }
  }

  /** `sh` holds what `parseCoordinates` reads from each cell of the map grid ... */
  ghost predicate ReadsLinks(sh: Sheet, grid: seq<seq<string>>)
  {
    sh.grid == grid &&
    forall a, b {:trigger CoordinatesOf(grid[a][b])} :: 0 <= a < |grid| && 0 <= b < |grid[a]| ==> ListAt(sh, a, b) == CoordinatesOf(grid[a][b])
  }

  /** ... and how each cell of the signal grid reads. */
  ghost predicate ReadsSignals(sh: Sheet, signals: seq<seq<string>>)
  {
    forall c {:trigger ReadAt(signals, c)} :: SignalAt(sh, c) == ReadAt(signals, c)
  }

  /** The sheet of the two grids reads them. */
  lemma SheetReads(grid: seq<seq<string>>, signals: seq<seq<string>>) returns (sh: Sheet)
    ensures sh == SheetOf(grid, signals)
    ensures ReadsLinks(sh, grid) && ReadsSignals(sh, signals)
  {
    sh := SheetOf(grid, signals);
    forall a, b | 0 <= a < |grid| && 0 <= b < |grid[a]|
      ensures ListAt(sh, a, b) == CoordinatesOf(grid[a][b])
    {
      LinksRead(grid, sh, a, b);
    }
    forall c
      ensures SignalAt(sh, c) == ReadAt(signals, c)
    {
      SignalsRead(signals, sh, c);
    }
  }

  /** The neighbour list read from map cell `(a, b)` (0-based). */
  function ListAt(sh: Sheet, a: int, b: int): seq<Coord>
  {
    if 0 <= a < |sh.links| && 0 <= b < |sh.links[a]| then sh.links[a][b] else []
  }

  /** The signal cell of `c` (1-based). */
  function SignalAt(sh: Sheet, c: Coord): Signal
  {
    if 1 <= c.x <= |sh.signals| && 1 <= c.y <= |sh.signals[c.x - 1]| then sh.signals[c.x - 1][c.y - 1] else Missing
  }

  /** The signal cell of `c` is read without an exception. */
  predicate SignalOK(sh: Sheet, c: Coord)
  {
    SignalAt(sh, c).Ordinary? || SignalAt(sh, c).Phase?
  }

  /** The node for `c` is what `getOrCreateNode` makes from the signal cell
      of `c`: a plain `Node` where the cell is "0", otherwise a `TrafficNode`
      whose phase is the cell's number minus one. */
  ghost predicate Typed(sh: Sheet, c: Coord, n: Node)
    reads n`stalled, n`signal
  {
    n.x == c.x && n.y == c.y && !n.stalled &&
    match SignalAt(sh, c)
    case Ordinary => !n.isTraffic && n.kind == PlainType
    case Phase(start) => n.isTraffic && n.kind == TrafficType && n.signal == start
    case _ => false
  }

  /** Cell `(a, b)` (0-based) lies in the `rows x cols` rectangle the parser scans. */
  predicate InGrid(sh: Sheet, a: int, b: int)
  {
    0 <= a < |sh.grid| && 0 <= b < |sh.grid[0]| && b < |sh.grid[a]|
  }

  /** Cell `(a, b)` is a road cell, one whose text is not "0". */
  predicate Road(sh: Sheet, a: int, b: int)
  {
    InGrid(sh, a, b) && sh.grid[a][b] != "0"
  }

  /** Processing cell `(a, b)` of the scan throws nothing: its map cell and
      signal cell exist and, for a road cell, its own signal cell and those of
      all the neighbours it lists read as "0" or an `int`. */
  predicate CellOK(sh: Sheet, a: int, b: int)
    requires 0 <= a < |sh.grid|
  {
    b < |sh.grid[a]| && !SignalAt(sh, Coord(a + 1, b + 1)).Missing? &&
    (sh.grid[a][b] != "0" ==>
      SignalOK(sh, Coord(a + 1, b + 1)) &&
      forall q :: 0 <= q < |ListAt(sh, a, b)| ==> SignalOK(sh, ListAt(sh, a, b)[q]))
  }

  /** The grids `parseCSV` reads without an exception. */
  predicate WellFormed(sh: Sheet)
  {
    |sh.grid| > 0 && forall a, b :: 0 <= a < |sh.grid| && 0 <= b < |sh.grid[0]| ==> CellOK(sh, a, b)
  }

  /** `c` appears in the neighbour list of some road cell. */
  ghost predicate Listed(sh: Sheet, c: Coord)
  {
    exists a, b :: Road(sh, a, b) && c in ListAt(sh, a, b)
  }

  /** The neighbours a node of the finished graph must have: those its own
      cell lists if it is a road cell, none if it only appears in lists. */
  function Expected(sh: Sheet, c: Coord): seq<Coord>
  {
    if Road(sh, c.x - 1, c.y - 1) then ListAt(sh, c.x - 1, c.y - 1) else []
  }

  // ---------------------------------------------------------------------
  // Progress of the scan
  // ---------------------------------------------------------------------

  /** The scan is at cell `(row, col)`; `linked` neighbours of that cell are
      connected, or -1 when its node has not been fetched yet. */
  datatype Progress = Progress(row: int, col: int, linked: int)

  predicate Before(a: int, b: int, p: Progress)
  {
    a < p.row || (a == p.row && b < p.col)
  }

  predicate Started(a: int, b: int, p: Progress)
  {
    Before(a, b, p) || (a == p.row && b == p.col && p.linked >= 0)
  }

  /** How many of the listed neighbours of road cell `(a, b)` are connected. */
  function Count(sh: Sheet, a: int, b: int, p: Progress): nat
    requires Road(sh, a, b)
  {
    var n := |ListAt(sh, a, b)|;
    if Before(a, b, p) then n
    else if a == p.row && b == p.col && 0 <= p.linked <= n then p.linked
    else 0
  }

  /** The neighbours node `c` has at point `p` of the scan. */
  function SoFar(sh: Sheet, c: Coord, p: Progress): seq<Coord>
  {
    if Road(sh, c.x - 1, c.y - 1) then ListAt(sh, c.x - 1, c.y - 1)[..Count(sh, c.x - 1, c.y - 1, p)] else []
  }

  ghost predicate LinkedBy(sh: Sheet, c: Coord, p: Progress)
  {
    exists a, b :: Road(sh, a, b) && c in ListAt(sh, a, b)[..Count(sh, a, b, p)]
  }

  ghost predicate Sane(sh: Sheet, p: Progress)
  {
    0 <= p.row <= |sh.grid| && |sh.grid| > 0 && 0 <= p.col <= |sh.grid[0]| && -1 <= p.linked &&
    (p.linked >= 0 ==> Road(sh, p.row, p.col) && p.linked <= |ListAt(sh, p.row, p.col)|)
  }

  /** Every cell before `p` was processed without an exception. */
  ghost predicate Scanned(sh: Sheet, p: Progress)
  {
    forall a, b :: 0 <= a < |sh.grid| && 0 <= b < |sh.grid[0]| && Before(a, b, p) ==> CellOK(sh, a, b)
  }

  /** What the cell in progress has read so far without an exception. */
  ghost predicate CurrentOK(sh: Sheet, p: Progress)
    requires Sane(sh, p)
  {
    p.linked >= 0 ==>
      SignalOK(sh, Coord(p.row + 1, p.col + 1)) &&
      forall q :: 0 <= q < p.linked ==> SignalOK(sh, ListAt(sh, p.row, p.col)[q])
  }

  lemma CurrentCellOK(sh: Sheet, i: int, j: int)
    requires Road(sh, i, j)
    requires Sane(sh, Progress(i, j, |ListAt(sh, i, j)|))
    requires CurrentOK(sh, Progress(i, j, |ListAt(sh, i, j)|))
    ensures CellOK(sh, i, j)
  {
  }

  lemma ScannedOneMore(sh: Sheet, i: int, j: int, k: int)
    requires Scanned(sh, Progress(i, j, k)) && 0 <= i < |sh.grid| && CellOK(sh, i, j)
    ensures Scanned(sh, Progress(i, j + 1, -1))
  {
  }

  /** Two points of the scan at which every road cell is equally far along. */
  ghost predicate Agree(sh: Sheet, p: Progress, p': Progress)
  {
    forall a, b :: Road(sh, a, b) ==> Started(a, b, p) == Started(a, b, p') && Count(sh, a, b, p) == Count(sh, a, b, p')
  }

  /** Linking neighbour `k` of the cell in progress extends that cell's list by one. */
  lemma SoFarAtCurrent(sh: Sheet, row: int, col: int, k: int)
    requires Road(sh, row, col) && 0 <= k < |ListAt(sh, row, col)|
    ensures SoFar(sh, Coord(row + 1, col + 1), Progress(row, col, k + 1)) ==
      SoFar(sh, Coord(row + 1, col + 1), Progress(row, col, k)) + [ListAt(sh, row, col)[k]]
  {
    TakeOneMore(ListAt(sh, row, col), k);
  }

  /** ... and leaves every other cell's list as it was. */
  lemma SoFarElsewhere(sh: Sheet, row: int, col: int, k: int, c: Coord)
    requires c != Coord(row + 1, col + 1) && 0 <= k
    ensures SoFar(sh, c, Progress(row, col, k + 1)) == SoFar(sh, c, Progress(row, col, k))
  {
  }

  /** Links into a network stay valid when the network gains entries. */
  lemma LinksGrow(m0: map<Coord, Node>, m1: map<Coord, Node>, ns: seq<Node>, cs: seq<Coord>)
    requires LinksTo(m0, ns, cs)
    requires forall c :: c in m0 ==> c in m1 && m1[c] == m0[c]
    ensures LinksTo(m1, ns, cs)
  {
  }

  lemma LinksSnoc(m: map<Coord, Node>, ns: seq<Node>, cs: seq<Coord>, c: Coord)
    requires LinksTo(m, ns, cs) && c in m
    ensures LinksTo(m, ns + [m[c]], cs + [c])
  {
  }

  /** The node of the cell in progress, with `k` neighbours linked, gains neighbour `k`. */
  lemma LinkedAtCurrent(sh: Sheet, row: int, col: int, k: int,
                        m0: map<Coord, Node>, m1: map<Coord, Node>, ns: seq<Node>)
    requires Road(sh, row, col) && 0 <= k < |ListAt(sh, row, col)|
    requires LinksTo(m0, ns, SoFar(sh, Coord(row + 1, col + 1), Progress(row, col, k)))
    requires forall c :: c in m0 ==> c in m1 && m1[c] == m0[c]
    requires ListAt(sh, row, col)[k] in m1
    ensures LinksTo(m1, ns + [m1[ListAt(sh, row, col)[k]]],
                    SoFar(sh, Coord(row + 1, col + 1), Progress(row, col, k + 1)))
  {
    SoFarAtCurrent(sh, row, col, k);
    LinksGrow(m0, m1, ns, SoFar(sh, Coord(row + 1, col + 1), Progress(row, col, k)));
    LinksSnoc(m1, ns, SoFar(sh, Coord(row + 1, col + 1), Progress(row, col, k)), ListAt(sh, row, col)[k]);
  }

  /** Any other node keeps what it had. */
  lemma LinkedElsewhere(sh: Sheet, row: int, col: int, k: int,
                        m0: map<Coord, Node>, m1: map<Coord, Node>, ns: seq<Node>, e: Coord)
    requires e != Coord(row + 1, col + 1) && 0 <= k
    requires LinksTo(m0, ns, SoFar(sh, e, Progress(row, col, k)))
    requires forall c :: c in m0 ==> c in m1 && m1[c] == m0[c]
    ensures LinksTo(m1, ns, SoFar(sh, e, Progress(row, col, k + 1)))
  {
    SoFarElsewhere(sh, row, col, k, e);
    LinksGrow(m0, m1, ns, SoFar(sh, e, Progress(row, col, k)));
  }

  /** A node created for a listed neighbour has no neighbours yet. */
  lemma LinkedNew(sh: Sheet, row: int, col: int, k: int, m0: map<Coord, Node>, e: Coord)
    requires 0 <= k
    requires OriginsIn(m0, sh, Progress(row, col, k))
    requires e !in m0
    ensures SoFar(sh, e, Progress(row, col, k + 1)) == []
  {
    assert !(Road(sh, e.x - 1, e.y - 1) && Started(e.x - 1, e.y - 1, Progress(row, col, k)));
  }

  /** Every road cell the scan has started has a node in `m`. */
  ghost predicate OriginsIn(m: map<Coord, Node>, sh: Sheet, p: Progress)
  {
    forall a, b :: Road(sh, a, b) && Started(a, b, p) ==> Coord(a + 1, b + 1) in m
  }

  /** Every node of `m` is a started road cell or a neighbour linked so far. */
  ghost predicate JustifiedIn(m: map<Coord, Node>, sh: Sheet, p: Progress)
  {
    forall c :: c in m ==> (Road(sh, c.x - 1, c.y - 1) && Started(c.x - 1, c.y - 1, p)) || LinkedBy(sh, c, p)
  }

  lemma OriginsStep(m0: map<Coord, Node>, m1: map<Coord, Node>, sh: Sheet, row: int, col: int, k: int)
    requires OriginsIn(m0, sh, Progress(row, col, k)) && m0.Keys <= m1.Keys && 0 <= k
    ensures OriginsIn(m1, sh, Progress(row, col, k + 1))
  {
    forall a, b | Road(sh, a, b) && Started(a, b, Progress(row, col, k + 1))
      ensures Coord(a + 1, b + 1) in m1
    {
      assert Started(a, b, Progress(row, col, k));
    }
  }

  lemma JustifiedStep(m0: map<Coord, Node>, m1: map<Coord, Node>, sh: Sheet, row: int, col: int, k: int)
    requires Road(sh, row, col) && 0 <= k < |ListAt(sh, row, col)|
    requires JustifiedIn(m0, sh, Progress(row, col, k))
    requires forall c :: c in m1 ==> c in m0 || c == ListAt(sh, row, col)[k]
    ensures JustifiedIn(m1, sh, Progress(row, col, k + 1))
  {
    var p, p' := Progress(row, col, k), Progress(row, col, k + 1);
    var cs := ListAt(sh, row, col);
    forall c | c in m1
      ensures (Road(sh, c.x - 1, c.y - 1) && Started(c.x - 1, c.y - 1, p')) || LinkedBy(sh, c, p')
    {
      if c == cs[k] {
        assert c in cs[..k + 1];
        assert Count(sh, row, col, p') == k + 1;
      } else if LinkedBy(sh, c, p) {
        var a, b :| Road(sh, a, b) && c in ListAt(sh, a, b)[..Count(sh, a, b, p)];
        assert Count(sh, a, b, p) <= Count(sh, a, b, p');
      }
    }
  }

  /** Linking a neighbour whose signal cell reads well keeps the scan's
      record of cells read without an exception. */
  lemma ScanStep(sh: Sheet, row: int, col: int, k: int)
    requires Road(sh, row, col) && 0 <= k < |ListAt(sh, row, col)|
    requires Sane(sh, Progress(row, col, k)) && CurrentOK(sh, Progress(row, col, k))
    requires Scanned(sh, Progress(row, col, k))
    requires SignalOK(sh, ListAt(sh, row, col)[k])
    ensures Sane(sh, Progress(row, col, k + 1)) && CurrentOK(sh, Progress(row, col, k + 1))
    ensures Scanned(sh, Progress(row, col, k + 1))
  {
    CurrentStep(sh, row, col, k);
    ScannedSameRow(sh, row, col, k, k + 1);
  }

  lemma CurrentStep(sh: Sheet, row: int, col: int, k: int)
    requires Road(sh, row, col) && 0 <= k < |ListAt(sh, row, col)|
    requires Sane(sh, Progress(row, col, k)) && CurrentOK(sh, Progress(row, col, k))
    requires SignalOK(sh, ListAt(sh, row, col)[k])
    ensures Sane(sh, Progress(row, col, k + 1)) && CurrentOK(sh, Progress(row, col, k + 1))
  {
    var cs := ListAt(sh, row, col);
    forall q | 0 <= q < k + 1
      ensures SignalOK(sh, cs[q])
    {
    }
  }

  /** Points of the scan within one cell have processed the same cells before it. */
  lemma ScannedSameRow(sh: Sheet, row: int, col: int, k: int, k': int)
    requires Scanned(sh, Progress(row, col, k))
    ensures Scanned(sh, Progress(row, col, k'))
  {
    forall a, b | 0 <= a < |sh.grid| && 0 <= b < |sh.grid[0]| && Before(a, b, Progress(row, col, k'))
      ensures CellOK(sh, a, b)
    {
      assert Before(a, b, Progress(row, col, k));
    }
  }

  /** Fetching the node of the cell in progress connects no neighbour... */
  lemma OriginSoFar(sh: Sheet, i: int, j: int, e: Coord)
    ensures SoFar(sh, e, Progress(i, j, 0)) == SoFar(sh, e, Progress(i, j, -1))
    ensures e == Coord(i + 1, j + 1) ==> SoFar(sh, e, Progress(i, j, -1)) == []
  {
    if Road(sh, e.x - 1, e.y - 1) {
      assert Count(sh, e.x - 1, e.y - 1, Progress(i, j, 0)) == Count(sh, e.x - 1, e.y - 1, Progress(i, j, -1));
    }
  }

  lemma OriginScan(sh: Sheet, i: int, j: int)
    requires Road(sh, i, j) && SignalOK(sh, Coord(i + 1, j + 1))
    requires Sane(sh, Progress(i, j, -1)) && Scanned(sh, Progress(i, j, -1))
    ensures Sane(sh, Progress(i, j, 0)) && CurrentOK(sh, Progress(i, j, 0)) && Scanned(sh, Progress(i, j, 0))
  {
    ScannedSameRow(sh, i, j, -1, 0);
  }

  /** ... and starts that cell. */
  lemma OriginsAt(m0: map<Coord, Node>, m1: map<Coord, Node>, sh: Sheet, i: int, j: int)
    requires OriginsIn(m0, sh, Progress(i, j, -1)) && m0.Keys <= m1.Keys && Coord(i + 1, j + 1) in m1
    ensures OriginsIn(m1, sh, Progress(i, j, 0))
  {
    forall a, b | Road(sh, a, b) && Started(a, b, Progress(i, j, 0))
      ensures Coord(a + 1, b + 1) in m1
    {
      if a != i || b != j {
        assert Started(a, b, Progress(i, j, -1));
      }
    }
  }

  lemma JustifiedAt(m0: map<Coord, Node>, m1: map<Coord, Node>, sh: Sheet, i: int, j: int)
    requires Road(sh, i, j) && JustifiedIn(m0, sh, Progress(i, j, -1))
    requires forall c :: c in m1 ==> c in m0 || c == Coord(i + 1, j + 1)
    ensures JustifiedIn(m1, sh, Progress(i, j, 0))
  {
    var p, p' := Progress(i, j, -1), Progress(i, j, 0);
    forall c | c in m1
      ensures (Road(sh, c.x - 1, c.y - 1) && Started(c.x - 1, c.y - 1, p')) || LinkedBy(sh, c, p')
    {
      if c != Coord(i + 1, j + 1) && LinkedBy(sh, c, p) {
        var a, b :| Road(sh, a, b) && c in ListAt(sh, a, b)[..Count(sh, a, b, p)];
        assert Count(sh, a, b, p) == Count(sh, a, b, p');
      }
    }
  }

  /** `m1` keeps every entry of `m0`. */
  ghost predicate Extends(m1: map<Coord, Node>, m0: map<Coord, Node>)
  {
    forall c :: c in m0 ==> c in m1 && m1[c] == m0[c]
  }

  /** `lights` lists, once each, the `TrafficNode`s that `m0` grew into `m1`. */
  ghost predicate Registers(m0: map<Coord, Node>, m1: map<Coord, Node>, lights: seq<Node>)
  {
    Distinct(lights) &&
    (forall n :: n in lights ==> n in m1.Values && n !in m0.Values && n.isTraffic) &&
    forall c :: c in m1 && m1[c] !in m0.Values && m1[c].isTraffic ==> m1[c] in lights
  }

  /** Two growth steps register the lights of both. */
  lemma Registered(m0: map<Coord, Node>, m1: map<Coord, Node>, m2: map<Coord, Node>, a: seq<Node>, b: seq<Node>)
    requires Extends(m1, m0) && Extends(m2, m1)
    requires Registers(m0, m1, a) && Registers(m1, m2, b)
    ensures Extends(m2, m0) && Registers(m0, m2, a + b)
  {
    forall n | n in a
      ensures n in m2.Values
    {
      var c :| c in m1 && m1[c] == n;
      assert m2[c] == n;
    }
    forall n | n in m0.Values
      ensures n in m1.Values
    {
      var c :| c in m0 && m0[c] == n;
      assert m1[c] == n;
    }
    assert multiset(a + b) == multiset(a) + multiset(b);
    forall n | n in a + b
      ensures multiset(a + b)[n] == 1
    {
      if n in a {
        assert n !in b;
      }
    }
  }

  /** `parseCSV` either returns or throws (an index out of bounds, or a
      `NumberFormatException` from a signal cell). */
  datatype BuildOutcome = Built | Thrown

  class RoadMapParser {
    var nodes: map<Coord, Node>
    var rows: int
    var cols: int

    constructor ()
      ensures nodes == map[] && rows == 0 && cols == 0
    {
      nodes := map[];
      rows := 0;
      cols := 0;
    }

    /** A built graph: each node under its own coordinates, and every
        neighbour a node of the graph. */
    ghost predicate Valid()
      reads this, nodes.Values
    {
      Keyed(nodes) && Closed(nodes.Values)
    }

    /** `parseCoordinates(cellValue)`. */
    method ParseCoordinates(cell: string) returns (coordinates: seq<Coord>)
      ensures coordinates == CoordinatesOf(cell)
    {
      var parts := Parts(cell);
      coordinates := [];
      for i := 0 to |parts|
        invariant coordinates == Collect(parts[..i])
      {
        var part := parts[i];
        TakeOneMore(parts, i);
        CollectSnoc(parts[..i], part);
        if part == "" {
          continue;
        }
        var read := ParsePart(part);
        if read.Some? {
          coordinates := coordinates + [read.value];
        }
      }
      assert parts[..|parts|] == parts;
    }

    /** `getOrCreateNode`: the node already under `(x, y)` whatever its type,
        or a new one stored there; a new `TrafficNode` is registered with the
        traffic manager. */
    method GetOrCreateNode(x: int, y: int, kind: string, trafficType: Int32, tm: TrafficManager) returns (n: Node)
      modifies this`nodes, tm`trafficLights
      ensures Coord(x, y) in old(nodes) ==>
        n == old(nodes)[Coord(x, y)] && nodes == old(nodes) && tm.trafficLights == old(tm.trafficLights)
      ensures Coord(x, y) !in old(nodes) ==>
        fresh(n) && nodes == old(nodes)[Coord(x, y) := n] && n.x == x && n.y == y && !n.stalled && n.neighbors == []
      ensures Coord(x, y) !in old(nodes) && kind == TrafficType ==>
        n.isTraffic && n.kind == TrafficType && n.signal == trafficType && tm.trafficLights == old(tm.trafficLights) + [n]
      ensures Coord(x, y) !in old(nodes) && kind != TrafficType ==>
        !n.isTraffic && n.kind == kind && tm.trafficLights == old(tm.trafficLights)
    {
      var key := Coord(x, y);
      if key in nodes {
        return nodes[key];
      }
      if kind == TrafficType {
        n := new Node.Traffic(x, y, TrafficType, trafficType);
        tm.AddTrafficNode(n);
      } else {
        n := new Node(x, y, kind);
      }
      nodes := nodes[key := n];
    }

    // -------------------------------------------------------------------
    // Building the graph
    // -------------------------------------------------------------------

    /** The nodes of the finished graph are exactly the road cells and the
        cells they list; each is typed by its signal cell, and a road cell's
        node has the listed neighbours, in order, while any other node has none. */
    ghost predicate Represents(sh: Sheet)
      reads this`nodes, nodes.Values`stalled, nodes.Values`signal, nodes.Values`neighbors
    {
      (forall a, b :: Road(sh, a, b) ==> Coord(a + 1, b + 1) in nodes) &&
      (forall c :: c in nodes ==> Road(sh, c.x - 1, c.y - 1) || Listed(sh, c)) &&
      (forall c :: c in nodes ==> Typed(sh, c, nodes[c])) &&
      (forall c {:trigger Expected(sh, c)} :: c in nodes ==> LinksTo(nodes, nodes[c].neighbors, Expected(sh, c)))
    }

    ghost predicate NodesTyped(sh: Sheet)
      reads this`nodes, nodes.Values`stalled, nodes.Values`signal
    {
      forall c :: c in nodes ==> Typed(sh, c, nodes[c])
    }

    ghost predicate OriginsPresent(sh: Sheet, p: Progress)
      reads this`nodes
    {
      OriginsIn(nodes, sh, p)
    }

    ghost predicate LinksSoFar(sh: Sheet, p: Progress)
      reads this`nodes, nodes.Values`neighbors
    {
      forall c {:trigger SoFar(sh, c, p)} :: c in nodes ==> LinksTo(nodes, nodes[c].neighbors, SoFar(sh, c, p))
    }

    ghost predicate Justified(sh: Sheet, p: Progress)
      reads this`nodes
    {
      JustifiedIn(nodes, sh, p)
    }

    /** The state of the scan at point `p`. */
    ghost predicate Inv(sh: Sheet, p: Progress)
      reads this`nodes, nodes.Values`stalled, nodes.Values`signal, nodes.Values`neighbors
    {
      Sane(sh, p) && CurrentOK(sh, p) && Scanned(sh, p) &&
      NodesTyped(sh) && OriginsPresent(sh, p) && LinksSoFar(sh, p) && Justified(sh, p)
    }

    lemma KeepsInv(sh: Sheet, p: Progress, p': Progress)
      requires Inv(sh, p) && Sane(sh, p') && Agree(sh, p, p')
      requires CurrentOK(sh, p') && Scanned(sh, p')
      ensures Inv(sh, p')
    {
      forall c | c in nodes && LinkedBy(sh, c, p)
        ensures LinkedBy(sh, c, p')
      {
        var a, b :| Road(sh, a, b) && c in ListAt(sh, a, b)[..Count(sh, a, b, p)];
      }
      forall c | c in nodes
        ensures LinksTo(nodes, nodes[c].neighbors, SoFar(sh, c, p'))
      {
        assert SoFar(sh, c, p) == SoFar(sh, c, p');
      }
    }

    /** Before the first cell the graph is empty, which is the state of the
        scan at its start. */
    lemma Begun(sh: Sheet)
      requires |sh.grid| > 0 && nodes == map[]
      ensures Inv(sh, Progress(0, 0, -1))
    {
    }

    lemma NonRoadStep(sh: Sheet, i: int, j: int)
      requires Inv(sh, Progress(i, j, -1)) && i < |sh.grid| && j < |sh.grid[0]|
      requires !Road(sh, i, j) && CellOK(sh, i, j)
      ensures Inv(sh, Progress(i, j + 1, -1))
    {
      KeepsInv(sh, Progress(i, j, -1), Progress(i, j + 1, -1));
    }

    lemma RoadDone(sh: Sheet, i: int, j: int)
      requires Road(sh, i, j)
      requires Inv(sh, Progress(i, j, |ListAt(sh, i, j)|))
      ensures Inv(sh, Progress(i, j + 1, -1))
    {
      hide LinksSoFar, Justified, OriginsPresent, NodesTyped;
      var cs := ListAt(sh, i, j);
      CurrentCellOK(sh, i, j);
      ScannedOneMore(sh, i, j, |cs|);
      KeepsInv(sh, Progress(i, j, |cs|), Progress(i, j + 1, -1));
    }

    lemma RowDone(sh: Sheet, i: int)
      requires 0 <= i < |sh.grid| && Inv(sh, Progress(i, |sh.grid[0]|, -1))
      ensures Inv(sh, Progress(i + 1, 0, -1))
    {
      KeepsInv(sh, Progress(i, |sh.grid[0]|, -1), Progress(i + 1, 0, -1));
    }

    lemma Finished(sh: Sheet)
      requires Inv(sh, Progress(|sh.grid|, 0, -1))
      ensures Represents(sh) && WellFormed(sh)
    {
      var p := Progress(|sh.grid|, 0, -1);
      forall c | c in nodes
        ensures SoFar(sh, c, p) == Expected(sh, c)
      {
      }
      forall c | c in nodes && LinkedBy(sh, c, p)
        ensures Listed(sh, c)
      {
        var a, b :| Road(sh, a, b) && c in ListAt(sh, a, b)[..Count(sh, a, b, p)];
      }
    }

    /** A graph built this way is keyed and closed. */
    lemma RepresentsIsValid(sh: Sheet)
      requires Represents(sh)
      ensures Valid()
    {
      forall n, q | n in nodes.Values && 0 <= q < |n.neighbors|
        ensures n.neighbors[q] in nodes.Values
      {
        var c :| c in nodes && nodes[c] == n;
        assert LinksTo(nodes, n.neighbors, Expected(sh, c));
      }
    }

    /** `parseCSV` on a fresh parser, given the two grids split into trimmed
        cells: `rows` and `cols` are set from the map grid, then every cell of
        the `rows x cols` rectangle is processed in row-major order. It throws
        exactly when the grids are not well formed; when it returns, the graph
        is the one the grids describe. Every node is new, and the lights
        registered with the traffic manager are the new `TrafficNode`s, each once. */
    method BuildGraph(grid: seq<seq<string>>, signals: seq<seq<string>>, tm: TrafficManager)
      returns (outcome: BuildOutcome, ghost registered: seq<Node>)
      requires nodes == map[]
      modifies this`nodes, this`rows, this`cols, tm`trafficLights
      ensures outcome == Built <==> WellFormed(SheetOf(grid, signals))
      ensures rows == |grid| && (|grid| > 0 ==> cols == |grid[0]|)
      ensures outcome == Built ==> |grid| > 0
      ensures outcome == Built ==> Represents(SheetOf(grid, signals)) && Valid()
      ensures forall c :: c in nodes ==> fresh(nodes[c])
      ensures tm.trafficLights == old(tm.trafficLights) + registered
      ensures Registers(map[], nodes, registered)
    {
      hide Inv, SheetOf, Represents, Valid;
      ghost var sh := SheetReads(grid, signals);
      registered := [];
      rows := |grid|;
      if |grid| == 0 {
        return Thrown, registered;
      }
      cols := |grid[0]|;
      Begun(sh);
      for i := 0 to |grid|
        invariant Inv(sh, Progress(i, 0, -1))
        invariant rows == |grid| && cols == |grid[0]|
        invariant forall c :: c in nodes ==> fresh(nodes[c])
        invariant tm.trafficLights == old(tm.trafficLights) + registered
        invariant Registers(map[], nodes, registered)
      {
        ghost var before := nodes;
        var ok, more := ProcessRow(grid, signals, sh, i, tm);
        Registered(map[], before, nodes, registered, more);
        AppendAssoc(old(tm.trafficLights), registered, more);
        forall e | e in nodes
          ensures fresh(nodes[e])
        {
          if e in before {
            assert nodes[e] == before[e];
          }
        }
        registered := registered + more;
        if !ok {
          return Thrown, registered;
        }
        RowDone(sh, i);
      }
      Finished(sh);
      RepresentsIsValid(sh);
      outcome := Built;
    }

    /** Row `i` of the scan: the cells `(i, 0)` to `(i, cols - 1)` in order,
        stopping at the first that throws. */
    method ProcessRow(grid: seq<seq<string>>, signals: seq<seq<string>>, ghost sh: Sheet, i: int, tm: TrafficManager)
      returns (ok: bool, ghost added: seq<Node>)
      requires ReadsLinks(sh, grid) && ReadsSignals(sh, signals)
      requires 0 <= i < |grid|
      requires Inv(sh, Progress(i, 0, -1))
      modifies this`nodes, tm`trafficLights, nodes.Values`neighbors
      ensures ok <==> forall b :: 0 <= b < |grid[0]| ==> CellOK(sh, i, b)
      ensures ok ==> Inv(sh, Progress(i, |grid[0]|, -1))
      ensures Extends(nodes, old(nodes))
      ensures forall c :: c in nodes && c !in old(nodes) ==> fresh(nodes[c])
      ensures tm.trafficLights == old(tm.trafficLights) + added
      ensures Registers(old(nodes), nodes, added)
    {
      hide Inv;
      added := [];
      for j := 0 to |grid[0]|
        invariant Inv(sh, Progress(i, j, -1))
        invariant Extends(nodes, old(nodes))
        invariant forall c :: c in nodes && c !in old(nodes) ==> fresh(nodes[c])
        invariant tm.trafficLights == old(tm.trafficLights) + added
        invariant Registers(old(nodes), nodes, added)
        invariant forall b :: 0 <= b < j ==> CellOK(sh, i, b)
      {
        ghost var before := nodes;
        var cellOK, more := ProcessCell(grid, signals, sh, i, j, tm);
        Registered(old(nodes), before, nodes, added, more);
        AppendAssoc(old(tm.trafficLights), added, more);
        forall e | e in nodes && e !in old(nodes)
          ensures fresh(nodes[e])
        {
          if e in before {
            assert nodes[e] == before[e];
          }
        }
        added := added + more;
        if !cellOK {
          return false, added;
        }
      }
      ok := true;
    }

    /** One cell `(i, j)` of the scan: its map cell and signal cell are read
        (either may be missing); a road cell's node is fetched or created,
        typed by its signal cell, and linked to the neighbours its map cell
        lists. Processing throws exactly when the cell is not `CellOK`. */
    method ProcessCell(grid: seq<seq<string>>, signals: seq<seq<string>>, ghost sh: Sheet, i: int, j: int, tm: TrafficManager)
      returns (ok: bool, ghost added: seq<Node>)
      requires ReadsLinks(sh, grid) && ReadsSignals(sh, signals)
      requires 0 <= i < |grid| && 0 <= j < |grid[0]|
      requires Inv(sh, Progress(i, j, -1))
      modifies this`nodes, tm`trafficLights, nodes.Values`neighbors
      ensures ok <==> CellOK(sh, i, j)
      ensures ok ==> Inv(sh, Progress(i, j + 1, -1))
      ensures Extends(nodes, old(nodes))
      ensures forall c :: c in nodes && c !in old(nodes) ==> fresh(nodes[c])
      ensures tm.trafficLights == old(tm.trafficLights) + added
      ensures Registers(old(nodes), nodes, added)
    {
      hide Inv;
      added := [];
      if j >= |grid[i]| || i >= |signals| || j >= |signals[i]| {
        assert SignalAt(sh, Coord(i + 1, j + 1)) == ReadAt(signals, Coord(i + 1, j + 1));
        return false, added;
      }
      var cellValue := grid[i][j];
      if cellValue == "0" {
        assert SignalAt(sh, Coord(i + 1, j + 1)) == ReadAt(signals, Coord(i + 1, j + 1));
        NonRoadStep(sh, i, j);
        return true, added;
      }
      var fetched, current, first := FetchNode(signals, sh, Coord(i + 1, j + 1), tm);
      if !fetched {
        return false, first;
      }
      OriginStep(sh, i, j, current);
      ghost var middle := nodes;
      var coordinates := ParseCoordinates(cellValue);
      ghost var more;
      ok, more := ConnectNeighbours(signals, sh, i, j, current, coordinates, tm);
      Registered(old(nodes), middle, nodes, first, more);
      AppendAssoc(old(tm.trafficLights), first, more);
      forall e | e in nodes && e !in old(nodes)
        ensures fresh(nodes[e])
      {
        if e in middle {
          assert nodes[e] == middle[e];
        }
      }
      added := first + more;
      if ok {
        RoadDone(sh, i, j);
      }
    }

    /** The loop of `parseCSV` over the listed neighbours of road cell
        `(i, j)`: each destination node is fetched or created, typed by its
        own signal cell, and appended to `current.neighbors`. */
    method ConnectNeighbours(signals: seq<seq<string>>, ghost sh: Sheet, i: int, j: int,
                             current: Node, cs: seq<Coord>, tm: TrafficManager)
      returns (ok: bool, ghost added: seq<Node>)
      requires ReadsSignals(sh, signals)
      requires Road(sh, i, j) && cs == ListAt(sh, i, j)
      requires Inv(sh, Progress(i, j, 0))
      requires Coord(i + 1, j + 1) in nodes && current == nodes[Coord(i + 1, j + 1)]
      modifies this`nodes, tm`trafficLights, current`neighbors
      ensures ok <==> forall q :: 0 <= q < |cs| ==> SignalOK(sh, cs[q])
      ensures ok ==> Inv(sh, Progress(i, j, |cs|))
      ensures Extends(nodes, old(nodes))
      ensures forall c :: c in nodes && c !in old(nodes) ==> fresh(nodes[c])
      ensures tm.trafficLights == old(tm.trafficLights) + added
      ensures Registers(old(nodes), nodes, added)
    {
      hide Inv;
      added := [];
      for k := 0 to |cs|
        invariant Inv(sh, Progress(i, j, k))
        invariant Coord(i + 1, j + 1) in nodes && current == nodes[Coord(i + 1, j + 1)]
        invariant Extends(nodes, old(nodes))
        invariant forall c :: c in nodes && c !in old(nodes) ==> fresh(nodes[c])
        invariant tm.trafficLights == old(tm.trafficLights) + added
        invariant Registers(old(nodes), nodes, added)
        invariant forall q :: 0 <= q < k ==> SignalOK(sh, cs[q])
      {
        ghost var before := nodes;
        var linked, more := LinkOne(signals, sh, i, j, current, cs, k, tm);
        Registered(old(nodes), before, nodes, added, more);
        AppendAssoc(old(tm.trafficLights), added, more);
        forall e | e in nodes && e !in old(nodes)
          ensures fresh(nodes[e])
        {
          if e in before {
            assert nodes[e] == before[e];
          }
        }
        added := added + more;
        if !linked {
          return false, added;
        }
      }
      ok := true;
    }

    /** The node of cell `c` as `parseCSV` obtains it, for a road cell and for
        each of its neighbours alike: the signal cell of `c` is read
        (`signalGrid.get(x - 1)[y - 1]`), then `getOrCreateNode` returns the
        node under `c`, creating it typed by that cell if there is none. On
        an exception nothing has changed. */
    method FetchNode(signals: seq<seq<string>>, ghost sh: Sheet, c: Coord, tm: TrafficManager)
      returns (ok: bool, dest: Node?, ghost added: seq<Node>)
      requires ReadsSignals(sh, signals)
      modifies this`nodes, tm`trafficLights
      ensures ok <==> SignalOK(sh, c)
      ensures ok <==> dest != null
      ensures !ok ==> nodes == old(nodes) && added == []
      ensures ok && c in old(nodes) ==> dest == old(nodes)[c] && nodes == old(nodes)
      ensures ok && c !in old(nodes) ==>
        dest != null && fresh(dest) && nodes == old(nodes)[c := dest] && Typed(sh, c, dest) && dest.neighbors == []
      ensures Extends(nodes, old(nodes))
      ensures forall c' :: c' in nodes && c' !in old(nodes) ==> fresh(nodes[c'])
      ensures tm.trafficLights == old(tm.trafficLights) + added
      ensures Registers(old(nodes), nodes, added)
    {
      added := [];
      dest := null;
      assert SignalAt(sh, c) == ReadAt(signals, c);
      if !(1 <= c.x <= |signals| && 1 <= c.y <= |signals[c.x - 1]|) {
        return false, dest, added;
      }
      var destSignal := signals[c.x - 1][c.y - 1];
      ghost var isNew := c !in nodes;
      if destSignal != "0" {
        var t := ParseJavaInt(destSignal);
        if t.None? {
          return false, dest, added;
        }
        dest := GetOrCreateNode(c.x, c.y, TrafficType, Wrap(t.value as int - 1), tm);
      } else {
        dest := GetOrCreateNode(c.x, c.y, PlainType, -1, tm);
      }
      if isNew && dest.isTraffic {
        added := [dest];
      }
      ok := true;
    }

    /** One pass of the neighbour loop: read the destination's signal cell,
        fetch or create its node, append it to `current.neighbors`. */
    method LinkOne(signals: seq<seq<string>>, ghost sh: Sheet, i: int, j: int,
                   current: Node, cs: seq<Coord>, k: int, tm: TrafficManager)
      returns (ok: bool, ghost added: seq<Node>)
      requires ReadsSignals(sh, signals)
      requires Road(sh, i, j) && ListAt(sh, i, j) == cs && 0 <= k < |cs|
      requires Inv(sh, Progress(i, j, k))
      requires Coord(i + 1, j + 1) in nodes && current == nodes[Coord(i + 1, j + 1)]
      modifies this`nodes, tm`trafficLights, current`neighbors
      ensures ok <==> SignalOK(sh, cs[k])
      ensures ok ==> Inv(sh, Progress(i, j, k + 1))
      ensures Coord(i + 1, j + 1) in nodes && current == nodes[Coord(i + 1, j + 1)]
      ensures Extends(nodes, old(nodes))
      ensures forall c :: c in nodes && c !in old(nodes) ==> fresh(nodes[c])
      ensures tm.trafficLights == old(tm.trafficLights) + added
      ensures Registers(old(nodes), nodes, added)
    {
      hide Inv;
      var c := cs[k];
      TypedIsKeyed(sh, Progress(i, j, k));
      var dest: Node?;
      ok, dest, added := FetchNode(signals, sh, c, tm);
      if !ok {
        return;
      }
      current.neighbors := current.neighbors + [dest];
      LinkStep(sh, i, j, k, current, dest);
      ok := true;
    }

    lemma TypedIsKeyed(sh: Sheet, p: Progress)
      requires Inv(sh, p)
      ensures Keyed(nodes)
    {
    }

    /** Linking one neighbour keeps every node typed by its signal cell. */
    twostate lemma TypedStep(new sh: Sheet, new c: Coord, new dest: Node)
      requires old(NodesTyped(sh))
      requires c in old(nodes) ==> nodes == old(nodes)
      requires c !in old(nodes) ==> nodes == old(nodes)[c := dest] && Typed(sh, c, dest)
      requires forall n :: n in old(nodes.Values) ==> n.stalled == old(n.stalled)
      requires forall n :: n in old(nodes.Values) ==> n.signal == old(n.signal)
      ensures NodesTyped(sh)
    {
      forall c' | c' in nodes
        ensures Typed(sh, c', nodes[c'])
      {
        if c' != c || c in old(nodes) {
          assert old(Typed(sh, c', nodes[c']));
        }
      }
    }

    /** Linking neighbour `k` of road cell `(row, col)` to `dest`: the cell's
        node gains one listed neighbour and every other node keeps its list. */
    twostate lemma LinksStep(new sh: Sheet, new row: int, new col: int, new k: int,
                             current: Node, new dest: Node)
      requires Road(sh, row, col) && 0 <= k < |ListAt(sh, row, col)|
      requires old(LinksSoFar(sh, Progress(row, col, k))) && old(OriginsPresent(sh, Progress(row, col, k)))
      requires Keyed(old(nodes))
      requires Coord(row + 1, col + 1) in old(nodes) && current == old(nodes)[Coord(row + 1, col + 1)]
      requires ListAt(sh, row, col)[k] in old(nodes) ==>
        nodes == old(nodes) && dest == old(nodes)[ListAt(sh, row, col)[k]]
      requires ListAt(sh, row, col)[k] !in old(nodes) ==>
        nodes == old(nodes)[ListAt(sh, row, col)[k] := dest] && dest.neighbors == []
      requires current.neighbors == old(current.neighbors) + [dest]
      requires forall n :: n in old(nodes.Values) && n != current ==> n.neighbors == old(n.neighbors)
      ensures LinksSoFar(sh, Progress(row, col, k + 1))
    {
      var p := Progress(row, col, k);
      var o := Coord(row + 1, col + 1);
      forall e | e in nodes
        ensures LinksTo(nodes, nodes[e].neighbors, SoFar(sh, e, Progress(row, col, k + 1)))
      {
        if e == o {
          assert LinksTo(old(nodes), old(current.neighbors), SoFar(sh, o, p));
          LinkedAtCurrent(sh, row, col, k, old(nodes), nodes, old(current.neighbors));
        } else if e in old(nodes) {
          var n := old(nodes)[e];
          assert n != current;
          assert LinksTo(old(nodes), old(n.neighbors), SoFar(sh, e, p));
          LinkedElsewhere(sh, row, col, k, old(nodes), nodes, n.neighbors, e);
        } else {
          LinkedNew(sh, row, col, k, old(nodes), e);
        }
      }
    }

    /** One neighbour linked: the scan moves from `linked = k` to `k + 1`. */
    twostate lemma LinkStep(new sh: Sheet, new row: int, new col: int, new k: int,
                            current: Node, new dest: Node)
      requires old(Inv(sh, Progress(row, col, k))) && Keyed(old(nodes))
      requires Road(sh, row, col) && 0 <= k < |ListAt(sh, row, col)|
      requires SignalOK(sh, ListAt(sh, row, col)[k])
      requires Coord(row + 1, col + 1) in old(nodes) && current == old(nodes)[Coord(row + 1, col + 1)]
      requires ListAt(sh, row, col)[k] in old(nodes) ==>
        nodes == old(nodes) && dest == old(nodes)[ListAt(sh, row, col)[k]]
      requires ListAt(sh, row, col)[k] !in old(nodes) ==>
        nodes == old(nodes)[ListAt(sh, row, col)[k] := dest] &&
        Typed(sh, ListAt(sh, row, col)[k], dest) && dest.neighbors == []
      requires current.neighbors == old(current.neighbors) + [dest]
      requires forall n :: n in old(nodes.Values) ==> n.stalled == old(n.stalled)
      requires forall n :: n in old(nodes.Values) ==> n.signal == old(n.signal)
      requires forall n :: n in old(nodes.Values) && n != current ==> n.neighbors == old(n.neighbors)
      ensures Inv(sh, Progress(row, col, k + 1))
    {
      var p, p' := Progress(row, col, k), Progress(row, col, k + 1);
      var cs := ListAt(sh, row, col);
      var c := cs[k];
      TypedStep(sh, c, dest);
      LinksStep(sh, row, col, k, current, dest);
      OriginsStep(old(nodes), nodes, sh, row, col, k);
      JustifiedStep(old(nodes), nodes, sh, row, col, k);
      ScanStep(sh, row, col, k);
    }

    /** The node of road cell `(i, j)` fetched: the scan moves from
        `linked = -1` to `linked = 0`. */
    twostate lemma OriginStep(new sh: Sheet, new i: int, new j: int, new current: Node)
      requires old(Inv(sh, Progress(i, j, -1)))
      requires Road(sh, i, j) && SignalOK(sh, Coord(i + 1, j + 1))
      requires Coord(i + 1, j + 1) in old(nodes) ==>
        nodes == old(nodes) && current == old(nodes)[Coord(i + 1, j + 1)]
      requires Coord(i + 1, j + 1) !in old(nodes) ==>
        nodes == old(nodes)[Coord(i + 1, j + 1) := current] &&
        Typed(sh, Coord(i + 1, j + 1), current) && current.neighbors == []
      requires forall n :: n in old(nodes.Values) ==> n.stalled == old(n.stalled)
      requires forall n :: n in old(nodes.Values) ==> n.signal == old(n.signal)
      requires forall n :: n in old(nodes.Values) ==> n.neighbors == old(n.neighbors)
      ensures Inv(sh, Progress(i, j, 0))
    {
      var o := Coord(i + 1, j + 1);
      TypedStep(sh, o, current);
      OriginLinks(sh, i, j, current);
      OriginsAt(old(nodes), nodes, sh, i, j);
      JustifiedAt(old(nodes), nodes, sh, i, j);
      OriginScan(sh, i, j);
    }

    /** Fetching the node of the cell in progress keeps every node's links. */
    twostate lemma OriginLinks(new sh: Sheet, new i: int, new j: int, new current: Node)
      requires old(LinksSoFar(sh, Progress(i, j, -1)))
      requires Coord(i + 1, j + 1) in old(nodes) ==> nodes == old(nodes)
      requires Coord(i + 1, j + 1) !in old(nodes) ==>
        nodes == old(nodes)[Coord(i + 1, j + 1) := current] && current.neighbors == []
      requires forall n :: n in old(nodes.Values) ==> n.neighbors == old(n.neighbors)
      ensures LinksSoFar(sh, Progress(i, j, 0))
    {
      var p, p' := Progress(i, j, -1), Progress(i, j, 0);
      forall e | e in nodes
        ensures LinksTo(nodes, nodes[e].neighbors, SoFar(sh, e, p'))
      {
        OriginSoFar(sh, i, j, e);
        if e in old(nodes) {
          var n := old(nodes)[e];
          assert LinksTo(old(nodes), old(n.neighbors), SoFar(sh, e, p));
          LinksGrow(old(nodes), nodes, n.neighbors, SoFar(sh, e, p));
        }
      }
    }

    /** `getNode(x, y)`; in a keyed graph the node found has those coordinates. */
    function GetNode(x: int, y: int): (n: Node?)
      reads this
      ensures n != null <==> Coord(x, y) in nodes
      ensures n != null ==> n == nodes[Coord(x, y)] && n in nodes.Values
      ensures n != null && Keyed(nodes) ==> n.x == x && n.y == y
    {
      if Coord(x, y) in nodes then nodes[Coord(x, y)] else null
    }

    /** `getTrafficNode(x, y)`: the node under `(x, y)` if it is a `TrafficNode`. */
    function GetTrafficNode(x: int, y: int): (n: Node?)
      reads this
      ensures n != null <==> Coord(x, y) in nodes && nodes[Coord(x, y)].isTraffic
      ensures n != null ==> n == nodes[Coord(x, y)] && n.isTraffic
    {
      var node := GetNode(x, y);
      if node != null && node.isTraffic then node else null
    }

    /** `totalNodes()`: in a keyed graph, the number of distinct node objects. */
    function TotalNodes(): (r: int)
      reads this
      ensures r == |nodes|
      ensures Keyed(nodes) ==> r == |nodes.Values|
    {
      KeyedCount(nodes);
      |nodes|
    }

    // -------------------------------------------------------------------
    // Depth-first search
    // -------------------------------------------------------------------

    /** `dfs(current, end, visited)`. On `true` a node equal to `end` is
        reachable from `current`. On `false` the nodes it added to `visited`
        are `current` and nodes all of whose neighbours are now visited, and
        none of them equals `end`. */
    method Dfs(current: Node, end: Node, visited: set<Node>) returns (found: bool, after: set<Node>)
      requires Valid() && current in nodes.Values && visited <= nodes.Values && current !in visited
      ensures found ==> exists m :: m in nodes.Values && m.Equals(end) && Reachable(nodes, current, m)
      ensures !found ==> visited + {current} <= after <= nodes.Values
      ensures !found ==> forall n :: n in after - visited ==> !n.Equals(end)
      ensures !found ==> forall n, i :: n in after - visited && 0 <= i < |n.neighbors| ==> n.neighbors[i] in after
      decreases nodes.Values - visited
    {
      ReachesItself(nodes, current);
      if current.Equals(end) {
        return true, visited;
      }
      after := visited + {current};
      for i := 0 to |current.neighbors|
        invariant visited + {current} <= after <= nodes.Values
        invariant forall n :: n in after - visited ==> !n.Equals(end)
        invariant forall j :: 0 <= j < i ==> current.neighbors[j] in after
        invariant forall n, j :: n in after - visited - {current} && 0 <= j < |n.neighbors| ==> n.neighbors[j] in after
      {
        var neighbor := current.neighbors[i];
        HoldsIsMembership(nodes, after, neighbor);
        if !Holds(after, neighbor) {
          var deeper;
          deeper, after := Dfs(neighbor, end, after);
          if deeper {
            ghost var m :| m in nodes.Values && m.Equals(end) && Reachable(nodes, neighbor, m);
            ReachesThrough(nodes, current, neighbor, m);
            return true, after;
          }
        }
      }
      found := false;
    }

    /** `pathExists(start, end)`: whether a node equal to `end` is reachable
        from `start`; for a node of the graph, whether `end` itself is. */
    method PathExists(start: Node, end: Node) returns (b: bool)
      requires Valid() && start in nodes.Values
      ensures b <==> exists m :: m in nodes.Values && m.Equals(end) && Reachable(nodes, start, m)
      ensures end in nodes.Values ==> (b <==> Reachable(nodes, start, end))
    {
      var after;
      b, after := Dfs(start, end, {});
      if !b {
        forall m | m in nodes.Values && Reachable(nodes, start, m)
          ensures !m.Equals(end)
        {
          ClosedKeepsReachable(nodes, after, start, m);
        }
      }
      if end in nodes.Values {
        EqualsIsIdentity(nodes, end, end);
        forall m | m in nodes.Values && m.Equals(end)
          ensures m == end
        {
          EqualsIsIdentity(nodes, m, end);
        }
      }
    }

    /** `dfsReachable(current, visited)`: adds `current` and every node
        reachable from it that is not yet visited; each node it adds is
        reachable from `current` and has all its neighbours visited. */
    method DfsReachable(current: Node, visited: set<Node>) returns (after: set<Node>)
      requires Valid() && current in nodes.Values && visited <= nodes.Values && current !in visited
      ensures visited + {current} <= after <= nodes.Values
      ensures forall n :: n in after - visited ==> Reachable(nodes, current, n)
      ensures forall n, i :: n in after - visited && 0 <= i < |n.neighbors| ==> n.neighbors[i] in after
      decreases nodes.Values - visited
    {
      ReachesItself(nodes, current);
      after := visited + {current};
      for i := 0 to |current.neighbors|
        invariant visited + {current} <= after <= nodes.Values
        invariant forall n :: n in after - visited ==> Reachable(nodes, current, n)
        invariant forall j :: 0 <= j < i ==> current.neighbors[j] in after
        invariant forall n, j :: n in after - visited - {current} && 0 <= j < |n.neighbors| ==> n.neighbors[j] in after
      {
        var neighbor := current.neighbors[i];
        HoldsIsMembership(nodes, after, neighbor);
        if !Holds(after, neighbor) {
          ghost var before := after;
          after := DfsReachable(neighbor, after);
          forall n | n in after - before
            ensures Reachable(nodes, current, n)
          {
            ReachesThrough(nodes, current, neighbor, n);
          }
        }
      }
    }

    /** `findReachableNodes(start)`: exactly the nodes reachable from `start`. */
    method FindReachableNodes(start: Node) returns (reachable: set<Node>)
      requires Valid() && start in nodes.Values
      ensures reachable == ReachableSet(nodes, start)
    {
      reachable := DfsReachable(start, {});
      forall m | m in nodes.Values && Reachable(nodes, start, m)
        ensures m in reachable
      {
        ClosedKeepsReachable(nodes, reachable, start, m);
      }
    }
  }

  lemma AppendAssoc<T>(a: seq<T>, b: seq<T>, c: seq<T>)
    ensures a + (b + c) == (a + b) + c
  {
  }

  lemma TakeOneMore<T>(s: seq<T>, i: nat)
    requires i < |s|
    ensures s[..i + 1] == s[..i] + [s[i]]
  {
  }

  /** In a keyed map distinct coordinates hold distinct nodes, so there are
      as many nodes as keys. */
  lemma {:induction false} KeyedCount(m: map<Coord, Node>)
    ensures Keyed(m) ==> |m.Values| == |m|
    decreases |m|
  {
    if Keyed(m) && |m| > 0 {
      var c :| c in m;
      var rest := map k | k in m && k != c :: m[k];
      assert Keyed(rest);
      assert m.Keys == rest.Keys + {c};
      assert |rest| < |m|;
      KeyedCount(rest);
      assert m[c] !in rest.Values;
      assert m.Values == rest.Values + {m[c]};
    }
  }
}
