/**
 * The grid map generator (`map_generator.py`): intersections every
 * `spacing` cells, each linked both ways to its neighbours and joined to
 * the next intersections by two-way roads, and the two CSV grids
 * `save_map` writes. The CSV writer and the files are replaced by the rows
 * they would hold.
 */
module MapGenerators {
  import opened JavaInt
  import opened Coords
  import opened CellFormat
  import opened Adjacency

  /** `directions` of `create_intersection_with_connections`. */
  const Directions: seq<(int, int)> := [(0, 1), (1, 0), (0, -1), (-1, 0)]

  /** `0 < x < size and 0 < y < size`. */
  predicate Inside(c: Coord, size: int)
  {
    0 < c.x < size && 0 < c.y < size
  }

  function Neighbour(p: Coord, d: (int, int)): Coord
  {
    Coord(p.x + d.0, p.y + d.1)
  }

  /** The links after the directions `ds` of
      `create_intersection_with_connections(p)`, taken in order. */
  function Spokes(m: Links, p: Coord, size: int, ds: seq<(int, int)>): Links
    decreases |ds|
  {
    if ds == [] then m
    else
      var before := Spokes(m, p, size, ds[..|ds| - 1]);
      var n := Neighbour(p, ds[|ds| - 1]);
      if Inside(n, size) then LinkBoth(before, p, n) else before
  }

  /** `p` and each of its neighbours in `ds` inside the square lead to each
      other. */
  predicate Spoked(m: Links, p: Coord, size: int, ds: seq<(int, int)>)
  {
    forall d :: d in ds && Inside(Neighbour(p, d), size) ==> Linked(m, p, Neighbour(p, d))
  }

  /** The intersection links every neighbour inside the square both ways,
      keeps the links symmetric and duplicate free, and loses nothing. */
  lemma {:induction false} SpokesKeepValid(m: Links, p: Coord, size: int, ds: seq<(int, int)>)
    requires Symmetric(m) && DuplicateFree(m)
    ensures var r := Spokes(m, p, size, ds);
      Symmetric(r) && DuplicateFree(r) && Includes(m, r) && Spoked(r, p, size, ds)
    decreases |ds|
  {
    if ds != [] {
      var init := ds[..|ds| - 1];
      var before := Spokes(m, p, size, init);
      SpokesKeepValid(m, p, size, init);
      var n := Neighbour(p, ds[|ds| - 1]);
      if Inside(n, size) {
        var r := LinkBoth(before, p, n);
        LinkBothKeepsValid(before, p, n);
        IncludesTransitive(m, before, r);
        forall d | d in init && Inside(Neighbour(p, d), size)
          ensures Linked(r, p, Neighbour(p, d))
        {
          LinkedKept(before, r, p, Neighbour(p, d));
        }
        assert forall d :: d in ds ==> d in init || d == ds[|ds| - 1];
      } else {
        assert forall d :: d in ds ==> d in init || d == ds[|ds| - 1];
      }
    }
  }

  /** Links kept from `m1` keep `p`'s spokes. */
  lemma SpokedKept(m1: Links, m2: Links, p: Coord, size: int)
    requires Includes(m1, m2) && Spoked(m1, p, size, Directions)
    ensures Spoked(m2, p, size, Directions)
  {
    forall d | d in Directions && Inside(Neighbour(p, d), size)
      ensures Linked(m2, p, Neighbour(p, d))
    {
      LinkedKept(m1, m2, p, Neighbour(p, d));
    }
  }

  function Sign(v: int): int
  {
    if v > 0 then 1 else if v < 0 then -1 else 0
  }

  /** The cells `create_road_segment` visits from `s` to `e`, both included,
      on a segment along one axis. */
  function SegmentCells(s: Coord, e: Coord): (cells: seq<Coord>)
    requires s.x == e.x || s.y == e.y
    ensures |cells| == Abs(e.x - s.x) + Abs(e.y - s.y) + 1
    decreases Abs(e.x - s.x) + Abs(e.y - s.y)
  {
    if s == e then [s]
    else [s] + SegmentCells(Coord(s.x + Sign(e.x - s.x), s.y + Sign(e.y - s.y)), e)
  }

  /** The coordinate `i` steps from `a` towards `b`. */
  function Toward(a: int, b: int, i: int): int
  {
    if a < b then a + i else if a > b then a - i else a
  }

  /** A segment starts at `s`, ends at `e`, and its `i`-th cell lies `i`
      steps from `s` towards `e`. */
  lemma {:induction false} SegmentShape(s: Coord, e: Coord)
    requires s.x == e.x || s.y == e.y
    ensures var cells := SegmentCells(s, e);
      && cells[0] == s && cells[|cells| - 1] == e
      && forall i :: 0 <= i < |cells| ==> cells[i] == Coord(Toward(s.x, e.x, i), Toward(s.y, e.y, i))
    decreases Abs(e.x - s.x) + Abs(e.y - s.y)
  {
    if s != e {
      var next := Coord(s.x + Sign(e.x - s.x), s.y + Sign(e.y - s.y));
      SegmentShape(next, e);
      var rest := SegmentCells(next, e);
      assert SegmentCells(s, e) == [s] + rest;
      forall i | 0 < i < |rest| + 1
        ensures rest[i - 1] == Coord(Toward(s.x, e.x, i), Toward(s.y, e.y, i))
      {
        assert rest[i - 1] == Coord(Toward(next.x, e.x, i - 1), Toward(next.y, e.y, i - 1));
      }
    }
  }

  /** The links after joining each cell of `cells` to the next both ways,
      from the first pair on. */
  function LinkPath(m: Links, cells: seq<Coord>): Links
    decreases |cells|
  {
    if |cells| < 2 then m else LinkPath(LinkBoth(m, cells[0], cells[1]), cells[1..])
  }

  lemma SegmentStep(cur: Coord, e: Coord)
    requires (cur.x == e.x || cur.y == e.y) && cur != e
    ensures var next := Coord(cur.x + Sign(e.x - cur.x), cur.y + Sign(e.y - cur.y));
      && (next.x == e.x || next.y == e.y)
      && SegmentCells(cur, e) == [cur] + SegmentCells(next, e)
      && SegmentCells(next, e)[0] == next
  {
  }

  lemma LinkPathStep(m: Links, c: Coord, rest: seq<Coord>)
    requires rest != []
    ensures LinkPath(m, [c] + rest) == LinkPath(LinkBoth(m, c, rest[0]), rest)
  {
    assert ([c] + rest)[1..] == rest;
  }

  lemma LinkPathAtEnd(m: Links, e: Coord)
    ensures LinkPath(m, SegmentCells(e, e)) == m
  {
  }

  /** Consecutive cells of `cells` lead to each other. */
  predicate PathLinked(m: Links, cells: seq<Coord>)
  {
    forall i :: 0 <= i < |cells| - 1 ==> Linked(m, cells[i], cells[i + 1])
  }

  lemma {:induction false} LinkPathKeepsValid(m: Links, cells: seq<Coord>)
    requires Symmetric(m) && DuplicateFree(m)
    ensures var r := LinkPath(m, cells);
      Symmetric(r) && DuplicateFree(r) && Includes(m, r) && PathLinked(r, cells)
    decreases |cells|
  {
    if |cells| >= 2 {
      var m1 := LinkBoth(m, cells[0], cells[1]);
      LinkBothKeepsValid(m, cells[0], cells[1]);
      LinkPathKeepsValid(m1, cells[1..]);
      var r := LinkPath(m1, cells[1..]);
      IncludesTransitive(m, m1, r);
      LinkedKept(m1, r, cells[0], cells[1]);
      forall i | 0 <= i < |cells| - 1
        ensures Linked(r, cells[i], cells[i + 1])
      {
        if i > 0 {
          assert cells[1..][i - 1] == cells[i] && cells[1..][i] == cells[i + 1];
        }
      }
    }
  }

  lemma PathLinkedKept(m1: Links, m2: Links, cells: seq<Coord>)
    requires Includes(m1, m2) && PathLinked(m1, cells)
    ensures PathLinked(m2, cells)
  {
    forall i | 0 <= i < |cells| - 1
      ensures Linked(m2, cells[i], cells[i + 1])
    {
      LinkedKept(m1, m2, cells[i], cells[i + 1]);
    }
  }

  /** `range(a, b, step)` for a positive step. */
  function Range(a: int, b: int, step: int): (r: seq<int>)
    requires step > 0
    ensures forall k :: 0 <= k < |r| ==> r[k] == a + k * step && r[k] < b
    decreases b - a
  {
    if a >= b then [] else [a] + Range(a + step, b, step)
  }

  /** The range holds `a + k * step` exactly when that lies below `b`. */
  lemma {:induction false} RangeHolds(a: int, b: int, step: int, k: nat)
    requires step > 0
    ensures a + k * step in Range(a, b, step) <==> a + k * step < b
    decreases k
  {
    var v := a + k * step;
    if a < b && k > 0 {
      assert v == (a + step) + (k - 1) * step && v > a;
      RangeHolds(a + step, b, step, k - 1);
    }
  }

  /** The cells `(i, j)` with `i` in `rows` and `j` in `cols`. */
  function Square(rows: seq<int>, cols: seq<int>): set<Coord>
  {
    set i, j | i in rows && j in cols :: Coord(i, j)
  }

  lemma SquareOfNone(rows: seq<int>, cols: seq<int>)
    ensures Square([], cols) == {} && Square(rows, []) == {}
  {
  }

  lemma SquareNextRow(rows: seq<int>, k: nat)
    requires k < |rows|
    ensures Square(rows[..k + 1], rows) == Square(rows[..k], rows) + Square([rows[k]], rows)
  {
    assert forall i :: i in rows[..k + 1] <==> i in rows[..k] || i == rows[k];
  }

  lemma SquareNextColumn(i: int, cols: seq<int>, k: nat)
    requires k < |cols|
    ensures Square([i], cols[..k + 1]) == Square([i], cols[..k]) + {Coord(i, cols[k])}
  {
    assert forall j :: j in cols[..k + 1] <==> j in cols[..k] || j == cols[k];
  }

  /** The road links of intersection `p`: to the next intersection along
      each axis when that one is inside the map. */
  predicate RoadsBuilt(m: Links, p: Coord, spacing: int, size: int)
  {
    (p.y + spacing < size ==> PathLinked(m, SegmentCells(p, Coord(p.x, p.y + spacing)))) &&
    (p.x + spacing < size ==> PathLinked(m, SegmentCells(p, Coord(p.x + spacing, p.y))))
  }

  lemma RoadsBuiltKept(m1: Links, m2: Links, p: Coord, spacing: int, size: int)
    requires Includes(m1, m2) && RoadsBuilt(m1, p, spacing, size)
    ensures RoadsBuilt(m2, p, spacing, size)
  {
    if p.y + spacing < size {
      PathLinkedKept(m1, m2, SegmentCells(p, Coord(p.x, p.y + spacing)));
    }
    if p.x + spacing < size {
      PathLinkedKept(m1, m2, SegmentCells(p, Coord(p.x + spacing, p.y)));
    }
  }

  class MapGenerator {
    const size: int
    const spacing: int
    var connections: Links
    var trafficSignals: set<Coord>

    /** `MapGenerator(size=40, intersection_spacing=6)` with the given
        arguments. */
    constructor (size: int, spacing: int)
      ensures this.size == size && this.spacing == spacing
      ensures connections == map[] && trafficSignals == {}
    {
      this.size := size;
      this.spacing := spacing;
      connections := map[];
      trafficSignals := {};
    }

    /** The links are symmetric and no list repeats a cell. */
    ghost predicate Valid()
      reads this
    {
      Symmetric(connections) && DuplicateFree(connections)
    }

    /** `connect_one_way(p1, p2)`. */
    method ConnectOneWay(p1: Coord, p2: Coord)
      modifies this`connections
      ensures connections == Link(old(connections), p1, p2)
    {
      var list := if p1 in connections then connections[p1] else [];
      if p2 !in list {
        list := list + [p2];
      }
      connections := connections[p1 := list];
    }

    /** `create_intersection_with_connections(x, y)`. */
    method CreateIntersectionWithConnections(x: int, y: int)
      modifies this`connections
      ensures connections == Spokes(old(connections), Coord(x, y), size, Directions)
    {
      for k := 0 to |Directions|
        invariant connections == Spokes(old(connections), Coord(x, y), size, Directions[..k])
      {
        assert Directions[..k + 1][..k] == Directions[..k];
        var (dx, dy) := Directions[k];
        var next := Coord(x + dx, y + dy);
        if 0 < next.x < size && 0 < next.y < size {
          ConnectOneWay(Coord(x, y), next);
          ConnectOneWay(next, Coord(x, y));
        }
      }
      assert Directions[..|Directions|] == Directions;
    }

    /** `create_road_segment(start_x, start_y, end_x, end_y)` on a segment
        along one axis, the only kind `generate_grid` builds. (A 45° diagonal
        also ends; on any other slope the walk never reaches the end.) */
    method CreateRoadSegment(startX: int, startY: int, endX: int, endY: int)
      requires startX == endX || startY == endY
      modifies this`connections
      ensures connections == LinkPath(old(connections), SegmentCells(Coord(startX, startY), Coord(endX, endY)))
    {
      hide SegmentCells, LinkPath, Link;
      var dx := Sign(endX - startX);
      var dy := Sign(endY - startY);
      var e := Coord(endX, endY);
      var cur := Coord(startX, startY);
      while cur != e
        invariant cur.x == endX || cur.y == endY
        invariant cur != e ==> dx == Sign(endX - cur.x) && dy == Sign(endY - cur.y)
        invariant LinkPath(connections, SegmentCells(cur, e)) == LinkPath(old(connections), SegmentCells(Coord(startX, startY), e))
        decreases Abs(endX - cur.x) + Abs(endY - cur.y)
      {
        var next := Coord(cur.x + dx, cur.y + dy);
        SegmentStep(cur, e);
        LinkPathStep(connections, cur, SegmentCells(next, e));
        ConnectOneWay(cur, next);
        ConnectOneWay(next, cur);
        cur := next;
      }
      LinkPathAtEnd(connections, e);
    }

    /** `generate_grid()` for a positive spacing: every intersection
        `(i, j)`, `i` and `j` in `range(spacing, size - spacing, spacing)`,
        becomes a signal with its links, and the roads to the next
        intersections are built. Links are only added, and they stay
        symmetric and duplicate free. */
    method GenerateGrid()
      requires spacing > 0 && Valid()
      modifies this`connections, this`trafficSignals
      ensures Valid() && Includes(old(connections), connections)
      ensures var rs := Range(spacing, size - spacing, spacing);
        && trafficSignals == old(trafficSignals) + Square(rs, rs)
        && forall a, b :: 0 <= a < |rs| && 0 <= b < |rs| ==>
             Spoked(connections, Coord(rs[a], rs[b]), size, Directions) && RoadsBuilt(connections, Coord(rs[a], rs[b]), spacing, size)
    {
      hide Symmetric, DuplicateFree, Includes, Unique, Linked, ListOf, Link, PathLinked, LinkPath, Spoked, Spokes, SegmentCells, RoadsBuilt, Square;
      var rs := Range(spacing, size - spacing, spacing);
      IncludesItself(connections);
      SquareOfNone(rs, rs);
      for k := 0 to |rs|
        invariant Valid() && Includes(old(connections), connections)
        invariant trafficSignals == old(trafficSignals) + Square(rs[..k], rs)
        invariant forall a, b :: 0 <= a < k && 0 <= b < |rs| ==> Spoked(connections, Coord(rs[a], rs[b]), size, Directions)
      {
        ghost var before := connections;
        IntersectionRow(rs[k], rs);
        IncludesTransitive(old(connections), before, connections);
        forall a, b | 0 <= a < k && 0 <= b < |rs|
          ensures Spoked(connections, Coord(rs[a], rs[b]), size, Directions)
        {
          SpokedKept(before, connections, Coord(rs[a], rs[b]), size);
        }
        SquareNextRow(rs, k);
      }
      assert rs[..|rs|] == rs;
      ghost var spoked := connections;
      IncludesItself(connections);
      for k := 0 to |rs|
        modifies this`connections
        invariant Valid() && Includes(old(connections), connections) && Includes(spoked, connections)
        invariant forall a, b :: 0 <= a < k && 0 <= b < |rs| ==> RoadsBuilt(connections, Coord(rs[a], rs[b]), spacing, size)
      {
        ghost var before := connections;
        RoadRow(rs[k], rs);
        IncludesTransitive(old(connections), before, connections);
        IncludesTransitive(spoked, before, connections);
        forall a, b | 0 <= a < k && 0 <= b < |rs|
          ensures RoadsBuilt(connections, Coord(rs[a], rs[b]), spacing, size)
        {
          RoadsBuiltKept(before, connections, Coord(rs[a], rs[b]), spacing, size);
        }
      }
      forall a, b | 0 <= a < |rs| && 0 <= b < |rs|
        ensures Spoked(connections, Coord(rs[a], rs[b]), size, Directions)
      {
        SpokedKept(spoked, connections, Coord(rs[a], rs[b]), size);
      }
    }

    /** The inner loop of the first pass of `generate_grid`, for row `i`
        and the columns `cols`. */
    method IntersectionRow(i: int, cols: seq<int>)
      requires Valid()
      modifies this`connections, this`trafficSignals
      ensures Valid() && Includes(old(connections), connections)
      ensures trafficSignals == old(trafficSignals) + Square([i], cols)
      ensures forall b :: 0 <= b < |cols| ==> Spoked(connections, Coord(i, cols[b]), size, Directions)
    {
      hide Symmetric, DuplicateFree, Includes, Unique, Linked, ListOf, Link, PathLinked, LinkPath, Spoked, Spokes, SegmentCells, RoadsBuilt, Square;
      IncludesItself(connections);
      SquareOfNone([i], cols);
      for k := 0 to |cols|
        invariant Valid() && Includes(old(connections), connections)
        invariant trafficSignals == old(trafficSignals) + Square([i], cols[..k])
        invariant forall b :: 0 <= b < k ==> Spoked(connections, Coord(i, cols[b]), size, Directions)
      {
        ghost var before := connections;
        CreateIntersectionWithConnections(i, cols[k]);
        SpokesKeepValid(before, Coord(i, cols[k]), size, Directions);
        IncludesTransitive(old(connections), before, connections);
        forall b | 0 <= b < k
          ensures Spoked(connections, Coord(i, cols[b]), size, Directions)
        {
          SpokedKept(before, connections, Coord(i, cols[b]), size);
        }
        trafficSignals := trafficSignals + {Coord(i, cols[k])};
        SquareNextColumn(i, cols, k);
      }
      assert cols[..|cols|] == cols;
    }

    /** The inner loop of the second pass of `generate_grid`, for row `i`
        and the columns `cols`. */
    method RoadRow(i: int, cols: seq<int>)
      requires Valid()
      modifies this`connections
      ensures Valid() && Includes(old(connections), connections)
      ensures forall b :: 0 <= b < |cols| ==> RoadsBuilt(connections, Coord(i, cols[b]), spacing, size)
    {
      hide Symmetric, DuplicateFree, Includes, Unique, Linked, ListOf, Link, PathLinked, LinkPath, Spoked, Spokes, SegmentCells, RoadsBuilt, Square;
      IncludesItself(connections);
      for k := 0 to |cols|
        invariant Valid() && Includes(old(connections), connections)
        invariant forall b :: 0 <= b < k ==> RoadsBuilt(connections, Coord(i, cols[b]), spacing, size)
      {
        ghost var before := connections;
        Roads(i, cols[k]);
        IncludesTransitive(old(connections), before, connections);
        forall b | 0 <= b < k
          ensures RoadsBuilt(connections, Coord(i, cols[b]), spacing, size)
        {
          RoadsBuiltKept(before, connections, Coord(i, cols[b]), spacing, size);
        }
      }
    }

    /** The body of the second pass of `generate_grid` for intersection
        `(i, j)`: a road to `(i, j + spacing)` and one to `(i + spacing, j)`
        where those lie before `size`. */
    method Roads(i: int, j: int)
      requires Valid()
      modifies this`connections
      ensures Valid() && Includes(old(connections), connections)
      ensures RoadsBuilt(connections, Coord(i, j), spacing, size)
    {
      hide Symmetric, DuplicateFree, Includes, Unique, Linked, ListOf, Link, PathLinked, LinkPath, Spoked, Spokes, SegmentCells;
      var p := Coord(i, j);
      IncludesItself(connections);
      if j + spacing < size {
        ghost var before := connections;
        CreateRoadSegment(i, j, i, j + spacing);
        LinkPathKeepsValid(before, SegmentCells(p, Coord(i, j + spacing)));
      }
      ghost var across := connections;
      if i + spacing < size {
        CreateRoadSegment(i, j, i + spacing, j);
        LinkPathKeepsValid(across, SegmentCells(p, Coord(i + spacing, j)));
        IncludesTransitive(old(connections), across, connections);
        if j + spacing < size {
          PathLinkedKept(across, connections, SegmentCells(p, Coord(i, j + spacing)));
        }
      }
    }

    /** Row `i` (from 0) of the map file: the cell texts of keys
        `(i + 1, 1)` to `(i + 1, n)`. */
    method MapRow(i: int, n: nat) returns (row: seq<string>)
      ensures |row| == n
      ensures forall j :: 0 <= j < n ==> row[j] == CellOf(connections, Coord(i + 1, j + 1))
    {
      row := [];
      for j := 0 to n
        invariant |row| == j
        invariant forall j' :: 0 <= j' < j ==> row[j'] == CellOf(connections, Coord(i + 1, j' + 1))
      {
        var key := Coord(i + 1, j + 1);
        var cell := "0";
        if key in connections {
          var list := connections[key];
          if list != [] {
            cell := CellText(list);
          }
        }
        row := row + [cell];
      }
    }

    /** Row `i` (from 0) of the signal file: `"1"` at column `j` exactly
        when `(i, j)` is a signal. */
    method SignalRow(i: int, n: nat) returns (row: seq<string>)
      ensures |row| == n
      ensures forall j :: 0 <= j < n ==> row[j] == (if Coord(i, j) in trafficSignals then "1" else "0")
    {
      row := [];
      for j := 0 to n
        invariant |row| == j
        invariant forall j' :: 0 <= j' < j ==> row[j'] == (if Coord(i, j') in trafficSignals then "1" else "0")
      {
        row := row + [if Coord(i, j) in trafficSignals then "1" else "0"];
      }
    }

    /** `save_map()`: the rows of the map file and of the signal file. Map
        row `i`, column `j` holds the cell text of key `(i + 1, j + 1)`;
        signal row `i`, column `j` is `"1"` exactly when `(i, j)` itself is
        a signal. */
    method SaveMap() returns (mapRows: seq<seq<string>>, signalRows: seq<seq<string>>)
      ensures |mapRows| == |signalRows| == Max(size, 0)
      ensures forall i :: 0 <= i < |mapRows| ==> |mapRows[i]| == |signalRows[i]| == Max(size, 0)
      ensures forall i, j :: 0 <= i < |mapRows| && 0 <= j < |mapRows[i]| ==>
        mapRows[i][j] == CellOf(connections, Coord(i + 1, j + 1))
      ensures forall i, j :: 0 <= i < |signalRows| && 0 <= j < |signalRows[i]| ==>
        signalRows[i][j] == (if Coord(i, j) in trafficSignals then "1" else "0")
    {
      hide CellOf;
      var n := Max(size, 0);
      mapRows := [];
      for i := 0 to n
        invariant |mapRows| == i
        invariant forall i' :: 0 <= i' < i ==> |mapRows[i']| == n
        invariant forall i', j :: 0 <= i' < i && 0 <= j < n ==> mapRows[i'][j] == CellOf(connections, Coord(i' + 1, j + 1))
      {
        var row := MapRow(i, n);
        var next := mapRows + [row];
        assert forall a :: 0 <= a < i ==> next[a] == mapRows[a];
        assert next[i] == row;
        mapRows := next;
      }
      signalRows := [];
      for i := 0 to n
        invariant |signalRows| == i
        invariant forall i' :: 0 <= i' < i ==> |signalRows[i']| == n
        invariant forall i', j :: 0 <= i' < i && 0 <= j < n ==> signalRows[i'][j] == (if Coord(i', j) in trafficSignals then "1" else "0")
      {
        var row := SignalRow(i, n);
        var next := signalRows + [row];
        assert forall a :: 0 <= a < i ==> next[a] == signalRows[a];
        assert next[i] == row;
        signalRows := next;
      }
    }
  }

  /** `generate_random_map()`: a 40 x 40 map with an intersection at every
      inner cell, generated and saved. */
  method GenerateRandomMap() returns (mapRows: seq<seq<string>>, signalRows: seq<seq<string>>, ghost generator: MapGenerator)
    ensures generator.size == 40 && generator.spacing == 1 && generator.Valid()
    ensures generator.trafficSignals == Square(Range(1, 39, 1), Range(1, 39, 1))
    ensures |mapRows| == 40 && forall i, j :: 0 <= i < 40 && 0 <= j < |mapRows[i]| ==>
      mapRows[i][j] == CellOf(generator.connections, Coord(i + 1, j + 1))
    ensures |signalRows| == 40 && forall i, j :: 0 <= i < 40 && 0 <= j < |signalRows[i]| ==>
      signalRows[i][j] == (if 1 <= i < 39 && 1 <= j < 39 then "1" else "0")
  {
    var g := new MapGenerator(40, 1);
    g.GenerateGrid();
    mapRows, signalRows := g.SaveMap();
    generator := g;
    forall i, j | 0 <= i < 40 && 0 <= j < 40
      ensures Coord(i, j) in g.trafficSignals <==> 1 <= i < 39 && 1 <= j < 39
    {
      if 1 <= i {
        RangeHolds(1, 39, 1, i - 1);
      }
      if 1 <= j {
        RangeHolds(1, 39, 1, j - 1);
      }
    }
  }
}
