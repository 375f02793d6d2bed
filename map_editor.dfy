/**
 * The interactive road-map editor (`map_editor.py`): the adjacency lists
 * the editor keeps while cells are connected and erased, the signal types
 * it places, and the CSV grids it saves and loads. The canvas, the dialogs,
 * the CSV writer and reader and the files are replaced by the rows they
 * hold.
 */
module MapEditors {
  import opened Wrappers
  import opened Decimal
  import opened Coords
  import opened CellFormat
  import opened CellParsing
  import opened Adjacency

  /** `self.grid_size`: the editor's grid is 50 by 50 cells. */
  const GridSize := 50
  /** `self.cell_size`: each cell is 20 pixels wide and high. */
  const CellSize := 20

  // ---------------------------------------------------------------------
  // Reading a cell back: `parse_cell_data`
  // ---------------------------------------------------------------------

  /** The pieces of `s` between occurrences of `"),("`, as Python's
      `str.split("),(")` cuts them (leftmost first, no piece dropped);
      `cur` is the piece read so far. */
  function SepPieces(s: string, cur: string): (r: seq<string>)
    ensures |r| >= 1
    decreases |s|
  {
    if s == [] then [cur]
    else if |s| >= 3 && s[0] == ')' && s[1] == ',' && s[2] == '(' then [cur] + SepPieces(s[3..], "")
    else SepPieces(s[1..], cur + [s[0]])
  }

  predicate IsParen(c: char) { c == '(' || c == ')' }

  predicate AllParens(s: string)
  {
    forall i :: 0 <= i < |s| ==> IsParen(s[i])
  }

  /** `part.strip('()')`: parentheses removed from both ends. */
  function StripParens(s: string): (r: string)
    ensures |r| <= |s|
    ensures |r| > 0 ==> !IsParen(r[0]) && !IsParen(r[|r| - 1])
    decreases |s|
  {
    if |s| > 0 && IsParen(s[0]) then StripParens(s[1..])
    else if |s| > 0 && IsParen(s[|s| - 1]) then StripParens(s[..|s| - 1])
    else s
  }

  /** What one part of a cell amounts to in the loop of `parse_cell_data`. */
  datatype PartReading =
    | Skipped      // no comma after stripping: the part is passed over
    | Read(c: Coord)
    | Raises       // `x, y = map(int, ...)` raises `ValueError`

  /** One part: stripped of parentheses, skipped without a comma, otherwise
      split on commas and unpacked into two Python `int`s. */
  function ReadPart(part: string): PartReading
  {
    var p := StripParens(part);
    if ',' !in p then Skipped
    else
      var ps := CommaPieces(p, "");
      if |ps| != 2 then Raises
      else match (ParsePythonInt(ps[0]), ParsePythonInt(ps[1]))
        case (Some(x), Some(y)) => Read(Coord(x, y))
        case _ => Raises
  }

  /** The coordinates read from `parts` in order, or `None` once a part
      raises. */
  function ReadParts(parts: seq<string>): (r: Option<seq<Coord>>)
    ensures r.Some? ==> |r.value| <= |parts|
    ensures r.None? <==> exists i :: 0 <= i < |parts| && ReadPart(parts[i]) == Raises
  {
    if parts == [] then Some([])
    else
      var rest := ReadParts(parts[1..]);
      assert forall i :: 0 <= i < |parts[1..]| ==> parts[1..][i] == parts[i + 1];
      match ReadPart(parts[0])
      case Raises => None
      case Skipped => rest
      case Read(c) => if rest.None? then None else Some([c] + rest.value)
  }

  /** What `parse_cell_data(cell)` returns; `None` where it raises. */
  function CellData(cell: string): Option<seq<Coord>>
  {
    if cell == "" || cell == "0" then Some([]) else ReadParts(SepPieces(cell, ""))
  }

  /** `acc` in front of a list still to be read, or `None` if reading fails. */
  function Prepend(acc: seq<Coord>, o: Option<seq<Coord>>): Option<seq<Coord>>
  {
    if o.None? then None else Some(acc + o.value)
  }

  /** `parse_cell_data(cell)`, as the loop Python runs. */
  method ParseCellData(cell: string) returns (coords: Option<seq<Coord>>)
    ensures coords == CellData(cell)
  {
    if cell == "" || cell == "0" {
      return Some([]);
    }
    var parts := SepPieces(cell, "");
    var acc: seq<Coord> := [];
    var i := 0;
    assert parts[0..] == parts;
    assert ReadParts(parts).Some? ==> acc + ReadParts(parts).value == ReadParts(parts).value;
    while i < |parts|
      invariant 0 <= i <= |parts|
      invariant ReadParts(parts) == Prepend(acc, ReadParts(parts[i..]))
    {
      assert parts[i..][0] == parts[i] && parts[i..][1..] == parts[i + 1..];
      match ReadPart(parts[i]) {
        case Raises =>
          return None;
        case Skipped =>
        case Read(c) =>
          assert forall r: seq<Coord> :: acc + ([c] + r) == (acc + [c]) + r;
          acc := acc + [c];
      }
      i := i + 1;
    }
    assert parts[i..] == [] && acc + [] == acc;
    return Some(acc);
  }

  lemma {:induction false} SepShift(w: string, t: string, cur: string)
    requires ')' !in w
    ensures SepPieces(w + t, cur) == SepPieces(t, cur + w)
    decreases |w|
  {
    if w != [] {
      var s := w + t;
      assert s[0] == w[0] && s[1..] == w[1..] + t;
      assert ')' !in w[1..] by {
        assert forall i :: 0 <= i < |w[1..]| ==> w[1..][i] == w[i + 1];
      }
      SepShift(w[1..], t, cur + [w[0]]);
      assert cur + [w[0]] + w[1..] == cur + w;
    } else {
      assert w + t == t && cur + w == cur;
    }
  }

  lemma SepStep(t: string, cur: string)
    ensures SepPieces("),(" + t, cur) == [cur] + SepPieces(t, "")
  {
    var s := "),(" + t;
    assert s[0] == ')' && s[1] == ',' && s[2] == '(' && s[3..] == t;
  }

  lemma SepOfClose(cur: string)
    ensures SepPieces(")", cur) == [cur + ")"]
  {
    var s := ")";
    assert s[1..] == "";
  }

  /** The pieces `str.split("),(")` cuts from `Wrapped(ws)`: the words, the
      first after `cur` and the last still closed by `)`. */
  function WrappedPieces(ws: seq<string>, cur: string): seq<string>
    requires ws != []
  {
    if |ws| == 1 then [cur + ws[0] + ")"] else [cur + ws[0]] + WrappedPieces(ws[1..], "")
  }

  lemma {:induction false} SepOfWrapped(ws: seq<string>, cur: string)
    requires ws != [] && forall i :: 0 <= i < |ws| ==> ParenFree(ws[i])
    ensures SepPieces(Wrapped(ws), cur) == WrappedPieces(ws, cur)
    decreases |ws|
  {
    if |ws| == 1 {
      SepShift(ws[0], ")", cur);
      SepOfClose(cur + ws[0]);
    } else {
      var rest := "),(" + Wrapped(ws[1..]);
      assert Wrapped(ws) == ws[0] + rest;
      SepShift(ws[0], rest, cur);
      SepStep(Wrapped(ws[1..]), cur + ws[0]);
      SepOfWrapped(ws[1..], "");
    }
  }

  lemma StripStep(s: string)
    requires |s| > 0
    ensures IsParen(s[0]) ==> StripParens(s) == StripParens(s[1..])
    ensures !IsParen(s[0]) && IsParen(s[|s| - 1]) ==> StripParens(s) == StripParens(s[..|s| - 1])
    ensures !IsParen(s[0]) && !IsParen(s[|s| - 1]) ==> StripParens(s) == s
  {
  }

  lemma {:induction false} StripAround(p: string, w: string, q: string)
    requires AllParens(p) && AllParens(q) && ParenFree(w) && w != []
    ensures StripParens(p + w + q) == w
    decreases |p| + |q|
  {
    hide StripParens;
    var s := p + w + q;
    StripStep(s);
    if p != [] {
      assert s[0] == p[0] && s[1..] == p[1..] + w + q;
      assert AllParens(p[1..]) by {
        assert forall i :: 0 <= i < |p[1..]| ==> p[1..][i] == p[i + 1];
      }
      StripAround(p[1..], w, q);
    } else if q != [] {
      assert s == w + q && s[0] == w[0] && s[|s| - 1] == q[|q| - 1];
      assert s[..|s| - 1] == [] + w + q[..|q| - 1];
      assert AllParens(q[..|q| - 1]);
      StripAround([], w, q[..|q| - 1]);
    } else {
      assert s == w && s[0] == w[0] && s[|s| - 1] == w[|w| - 1];
    }
  }

  /** A written item, with any parentheses around it, reads as its cell. */
  lemma ReadInnerAround(p: string, c: Coord, q: string)
    requires AllParens(p) && AllParens(q)
    ensures ReadPart(p + Inner(c) + q) == Read(c)
  {
    InnerParenFree(c);
    StripAround(p, Inner(c), q);
    TextHasNoComma(c.x);
    TextHasNoComma(c.y);
    assert Inner(c)[|Text(c.x)|] == ',';
    CommaPair(Text(c.x), Text(c.y));
    ParsePythonIntOfText(c.x);
    ParsePythonIntOfText(c.y);
  }

  lemma ReadPartsOfNone()
    ensures ReadParts([]) == Some([])
  {
  }

  lemma NoParens()
    ensures AllParens("") && AllParens(")")
  {
  }

  lemma ReadPartsCons(p: string, rest: seq<string>, c: Coord, cs: seq<Coord>)
    requires ReadPart(p) == Read(c) && ReadParts(rest) == Some(cs)
    ensures ReadParts([p] + rest) == Some([c] + cs)
  {
    var ps := [p] + rest;
    assert ps[0] == p && ps[1..] == rest;
  }

  lemma {:induction false} ReadWrappedPieces(cs: seq<Coord>, cur: string)
    requires cs != [] && AllParens(cur)
    ensures ReadParts(WrappedPieces(InnerTexts(cs), cur)) == Some(cs)
    decreases |cs|
  {
    hide ReadParts, ReadPart, AllParens, Inner;
    var ws := InnerTexts(cs);
    NoParens();
    if |cs| == 1 {
      ReadInnerAround(cur, cs[0], ")");
      ReadPartsOfNone();
      ReadPartsCons(cur + ws[0] + ")", [], cs[0], []);
      assert [cur + ws[0] + ")"] + [] == WrappedPieces(ws, cur);
      assert cs == [cs[0]] + [];
    } else {
      ReadInnerAround(cur, cs[0], "");
      assert cur + ws[0] + "" == cur + ws[0];
      assert ws[1..] == InnerTexts(cs[1..]);
      ReadWrappedPieces(cs[1..], "");
      ReadPartsCons(cur + ws[0], WrappedPieces(ws[1..], ""), cs[0], cs[1..]);
      assert cs == [cs[0]] + cs[1..];
    }
  }

  /** `parse_cell_data` inverts the cell text `save_map` writes: every list,
      the empty one ("0") included, is read back exactly. */
  lemma CellDataOfCellText(cs: seq<Coord>)
    ensures CellData(CellText(cs)) == Some(cs)
  {
    if cs != [] {
      var ws := InnerTexts(cs);
      CellTextOfNonEmpty(cs);
      JoinItemsOpens(cs);
      AfterOpenIsWrapped(cs);
      assert CellText(cs) == "(" + Wrapped(ws);
      SepShift("(", Wrapped(ws), "");
      assert "" + "(" == "(";
      forall i | 0 <= i < |ws|
        ensures ParenFree(ws[i])
      {
        InnerParenFree(cs[i]);
      }
      SepOfWrapped(ws, "(");
      ReadWrappedPieces(cs, "(");
    }
  }

  // ---------------------------------------------------------------------
  // Editing the links: `connect_cells` and `erase_cell`
  // ---------------------------------------------------------------------

  /** The links after `connect_cells(c1, c2)`: both cells become keys, `c2`
      joins `c1`'s list and, on a two-way road, `c1` joins `c2`'s; a cell
      already in a list is not added again. */
  function Connect(m: Links, c1: Coord, c2: Coord, twoWay: bool): Links
  {
    var t := Touch(Touch(m, c1), c2);
    if twoWay then LinkBoth(t, c1, c2) else Link(t, c1, c2)
  }

  lemma TouchedLists(m: Links, c1: Coord, c2: Coord)
    ensures var t := Touch(Touch(m, c1), c2);
      t.Keys == m.Keys + {c1, c2} && forall k :: ListOf(t, k) == ListOf(m, k)
  {
  }

  /** `connect_cells` makes both cells keys and adds the one or two new
      links, and no other link. */
  lemma ConnectFacts(m: Links, c1: Coord, c2: Coord, twoWay: bool)
    ensures var r := Connect(m, c1, c2, twoWay);
      && r.Keys == m.Keys + {c1, c2}
      && c2 in r[c1] && (twoWay ==> c1 in r[c2])
      && (forall k :: k in r ==> forall c :: c in r[k] <==>
            c in ListOf(m, k) || (k == c1 && c == c2) || (twoWay && k == c2 && c == c1))
  {
    hide Link;
    var t := Touch(Touch(m, c1), c2);
    TouchedLists(m, c1, c2);
    LinkFacts(t, c1, c2);
    var t1 := Link(t, c1, c2);
    if twoWay {
      LinkFacts(t1, c2, c1);
      var r := Link(t1, c2, c1);
      forall k | k in r
        ensures forall c :: c in r[k] <==> c in ListOf(m, k) || (k == c1 && c == c2) || (k == c2 && c == c1)
      {
        assert k in t1 && ListOf(t1, k) == t1[k];
      }
    }
  }

  /** Every list of `m1` is a prefix of the list under the same key in
      `m2`. */
  ghost predicate Extends(m1: Links, m2: Links)
  {
    forall k :: k in m1 ==> k in m2 && |m1[k]| <= |m2[k]| && m2[k][..|m1[k]|] == m1[k]
  }

  lemma TouchExtends(m: Links, k: Coord)
    ensures Extends(m, Touch(m, k))
  {
  }

  lemma LinkExtends(m: Links, a: Coord, b: Coord)
    ensures Extends(m, Link(m, a, b))
  {
    LinkFacts(m, a, b);
  }

  lemma ExtendsTransitive(m1: Links, m2: Links, m3: Links)
    requires Extends(m1, m2) && Extends(m2, m3)
    ensures Extends(m1, m3)
  {
    forall k | k in m1
      ensures k in m3 && |m1[k]| <= |m3[k]| && m3[k][..|m1[k]|] == m1[k]
    {
      assert m3[k][..|m1[k]|] == m3[k][..|m2[k]|][..|m1[k]|];
    }
  }

  /** `connect_cells` only appends: every old list is a prefix of its new
      list, so the order `save_map` writes is kept. */
  lemma ConnectAppends(m: Links, c1: Coord, c2: Coord, twoWay: bool)
    ensures Extends(m, Connect(m, c1, c2, twoWay))
  {
    hide Link, Touch, Extends;
    var t0 := Touch(m, c1);
    var t := Touch(t0, c2);
    TouchExtends(m, c1);
    TouchExtends(t0, c2);
    ExtendsTransitive(m, t0, t);
    var t1 := Link(t, c1, c2);
    LinkExtends(t, c1, c2);
    ExtendsTransitive(m, t, t1);
    if twoWay {
      LinkExtends(t1, c2, c1);
      ExtendsTransitive(m, t1, Link(t1, c2, c1));
    }
  }

  lemma TouchKeepsValid(m: Links, k: Coord)
    ensures DuplicateFree(m) ==> DuplicateFree(Touch(m, k))
    ensures Symmetric(m) ==> Symmetric(Touch(m, k))
    ensures Includes(m, Touch(m, k))
  {
  }

  /** `connect_cells` never puts a cell twice in a list. */
  lemma ConnectKeepsDuplicateFree(m: Links, c1: Coord, c2: Coord, twoWay: bool)
    requires DuplicateFree(m)
    ensures DuplicateFree(Connect(m, c1, c2, twoWay))
  {
    var t0 := Touch(m, c1);
    TouchKeepsValid(m, c1);
    var t := Touch(t0, c2);
    TouchKeepsValid(t0, c2);
    LinkKeepsDuplicateFree(t, c1, c2);
    if twoWay {
      LinkKeepsDuplicateFree(Link(t, c1, c2), c2, c1);
    }
  }

  /** Two-way roads keep every link matched by its way back. */
  lemma ConnectTwoWayKeepsSymmetric(m: Links, c1: Coord, c2: Coord)
    requires Symmetric(m) && DuplicateFree(m)
    ensures Symmetric(Connect(m, c1, c2, true))
  {
    var t0 := Touch(m, c1);
    TouchKeepsValid(m, c1);
    var t := Touch(t0, c2);
    TouchKeepsValid(t0, c2);
    LinkBothKeepsValid(t, c1, c2);
  }

  lemma LinkPresent(m: Links, a: Coord, b: Coord)
    requires a in m && b in m[a]
    ensures Link(m, a, b) == m
  {
  }

  /** Connecting the same cells again changes nothing. */
  lemma ConnectIdempotent(m: Links, c1: Coord, c2: Coord, twoWay: bool)
    ensures Connect(Connect(m, c1, c2, twoWay), c1, c2, twoWay) == Connect(m, c1, c2, twoWay)
  {
    var r := Connect(m, c1, c2, twoWay);
    ConnectFacts(m, c1, c2, twoWay);
    assert Touch(Touch(r, c1), c2) == r;
    LinkPresent(r, c1, c2);
    if twoWay {
      LinkPresent(r, c2, c1);
    }
  }

  /** `connections.remove(c)`: the first occurrence of `c` taken out. */
  function RemoveFirst(s: seq<Coord>, c: Coord): (r: seq<Coord>)
    ensures c !in s ==> r == s
    ensures c in s ==> |r| == |s| - 1
  {
    if s == [] then []
    else if s[0] == c then s[1..]
    else [s[0]] + RemoveFirst(s[1..], c)
  }

  /** Exactly one `c` leaves the list when it holds one; nothing else changes. */
  lemma {:induction false} RemoveFirstMultiset(s: seq<Coord>, c: Coord)
    ensures multiset(RemoveFirst(s, c)) == multiset(s) - multiset{c}
  {
    if s != [] {
      assert s == [s[0]] + s[1..];
      if s[0] != c {
        RemoveFirstMultiset(s[1..], c);
      }
    }
  }

  /** The position of the first `c` in `s`. */
  function FirstIndex(s: seq<Coord>, c: Coord): (i: nat)
    requires c in s
    ensures i < |s| && s[i] == c && c !in s[..i]
  {
    if s[0] == c then 0 else 1 + FirstIndex(s[1..], c)
  }

  /** Removing the first occurrence is cutting out the entry at its index. */
  lemma {:induction false} RemoveFirstIsSplice(s: seq<Coord>, c: Coord)
    requires c in s
    ensures var i := FirstIndex(s, c); RemoveFirst(s, c) == s[..i] + s[i + 1..]
  {
    if s[0] != c {
      RemoveFirstIsSplice(s[1..], c);
      var i := FirstIndex(s[1..], c);
      assert s[1..][..i] == s[1..i + 1] && s[1..][i + 1..] == s[i + 2..];
      assert [s[0]] + s[1..i + 1] == s[..i + 1];
    }
  }

  lemma RemoveFirstKeepsOthers(s: seq<Coord>, c: Coord, x: Coord)
    requires x != c
    ensures x in RemoveFirst(s, c) <==> x in s
  {
    RemoveFirstMultiset(s, c);
    assert x in multiset(RemoveFirst(s, c)) <==> x in multiset(s);
  }

  lemma {:induction false} RemoveFirstOfUnique(s: seq<Coord>, c: Coord)
    requires Unique(s)
    ensures c !in RemoveFirst(s, c) && Unique(RemoveFirst(s, c))
  {
    if s != [] {
      var t := s[1..];
      assert forall i :: 0 <= i < |t| ==> t[i] == s[i + 1];
      assert Unique(t);
      if s[0] != c {
        assert s[0] !in t;
        RemoveFirstOfUnique(t, c);
        var r' := RemoveFirst(t, c);
        RemoveFirstKeepsOthers(t, c, s[0]);
        var r := [s[0]] + r';
        forall i, j | 0 <= i < j < |r|
          ensures r[i] != r[j]
        {
          assert r[j] == r'[j - 1];
          if i > 0 {
            assert r[i] == r'[i - 1];
          }
        }
      }
    }
  }

  /** The links after `erase_cell(c)`: `c`'s own list is gone and the first
      `c` is taken out of every other list. */
  function Erase(m: Links, c: Coord): Links
  {
    map k | k in m && k != c :: RemoveFirst(m[k], c)
  }

  /** `erase_cell` keeps every other key and every link to another cell. */
  lemma EraseFacts(m: Links, c: Coord)
    ensures var r := Erase(m, c);
      && r.Keys == m.Keys - {c}
      && forall k, x :: k in r && x != c ==> (x in r[k] <==> x in m[k])
  {
    var r := Erase(m, c);
    forall k, x | k in r && x != c
      ensures x in r[k] <==> x in m[k]
    {
      RemoveFirstKeepsOthers(m[k], c, x);
    }
  }

  /** On duplicate-free lists, `c` is gone from the whole dictionary and
      the lists stay duplicate free. */
  lemma EraseRemovesCell(m: Links, c: Coord)
    requires DuplicateFree(m)
    ensures var r := Erase(m, c);
      c !in r && (forall k :: k in r ==> c !in r[k]) && DuplicateFree(r)
  {
    var r := Erase(m, c);
    forall k | k in r
      ensures c !in r[k] && Unique(r[k])
    {
      RemoveFirstOfUnique(m[k], c);
    }
  }

  /** Erasing keeps every link matched by its way back. */
  lemma EraseKeepsSymmetric(m: Links, c: Coord)
    requires DuplicateFree(m) && Symmetric(m)
    ensures Symmetric(Erase(m, c))
  {
    hide Erase;
    var r := Erase(m, c);
    EraseFacts(m, c);
    EraseRemovesCell(m, c);
    forall a, b | a in r && b in r[a]
      ensures b in r && a in r[b]
    {
      assert b != c && a != c;
      assert b in m[a];
    }
  }

  /** Erasing a cell twice is erasing it once, on duplicate-free lists. */
  lemma EraseIdempotent(m: Links, c: Coord)
    requires DuplicateFree(m)
    ensures Erase(Erase(m, c), c) == Erase(m, c)
  {
    EraseRemovesCell(m, c);
  }

  /** Only the first copy goes: a list holding `c` twice keeps one. */
  lemma EraseLeavesSecondCopy(a: Coord, c: Coord)
    requires a != c
    ensures Erase(map[a := [c, c]], c) == map[a := [c]]
  {
    assert RemoveFirst([c, c], c) == [c];
  }

  // ---------------------------------------------------------------------
  // Pixels and grids
  // ---------------------------------------------------------------------

  /** `get_cell_coords(event)`: the row from the pointer's `y`, the column
      from its `x` (Python's `//` is floor division, as Dafny's `/` is for a
      positive divisor). */
  function GetCellCoords(px: int, py: int): (c: Coord)
    ensures CellSize * (c.x - 1) <= py < CellSize * c.x
    ensures CellSize * (c.y - 1) <= px < CellSize * c.y
    ensures 0 <= px && 0 <= py ==> 1 <= c.x && 1 <= c.y
  {
    Coord(py / CellSize + 1, px / CellSize + 1)
  }

  /** The corner pixel `handle_click` computes for a cell's highlight lies
      in that cell again. */
  lemma CornerInCell(c: Coord)
    ensures GetCellCoords(CellSize * (c.y - 1), CellSize * (c.x - 1)) == c
  {
    var r := GetCellCoords(CellSize * (c.y - 1), CellSize * (c.x - 1));
    assert r.x - 1 <= c.x - 1 < r.x;
    assert r.y - 1 <= c.y - 1 < r.y;
  }

  /** A cell of the editor's 50 by 50 grid. */
  predicate InGrid(c: Coord)
  {
    1 <= c.x <= GridSize && 1 <= c.y <= GridSize
  }

  /** `c` names a cell of the CSV rows: row `c.x`, column `c.y`, from 1. */
  predicate InRows(rows: seq<seq<string>>, c: Coord)
  {
    1 <= c.x <= |rows| && 1 <= c.y <= |rows[c.x - 1]|
  }

  /** The rows form the 50 by 50 grid the editor saves. */
  predicate IsGrid(rows: seq<seq<string>>)
  {
    |rows| == GridSize && forall i :: 0 <= i < GridSize ==> |rows[i]| == GridSize
  }

  /** Cell `c` comes before row `i`, column `j` (from 0) in reading order. */
  predicate Before(c: Coord, i: int, j: int)
  {
    c.x - 1 < i || (c.x - 1 == i && c.y - 1 < j)
  }

  /** `m` holds what a load of the cells before row `i`, column `j` puts in
      the dictionary: an entry for each cell `entry` keeps, and no other. */
  ghost predicate LoadedBefore<V>(m: map<Coord, V>, rows: seq<seq<string>>, entry: string -> Option<V>, i: int, j: int)
  {
    && (forall c :: c in m ==> Before(c, i, j) && InRows(rows, c) && entry(rows[c.x - 1][c.y - 1]) == Some(m[c]))
    && (forall a, b :: 0 <= a < |rows| && 0 <= b < |rows[a]| && Before(Coord(a + 1, b + 1), i, j) && entry(rows[a][b]).Some? ==>
          Coord(a + 1, b + 1) in m)
  }

  /** `m` holds what a load of all of `rows` puts in the dictionary. */
  ghost predicate Loaded<V>(m: map<Coord, V>, rows: seq<seq<string>>, entry: string -> Option<V>)
  {
    LoadedBefore(m, rows, entry, |rows|, 0)
  }

  lemma LoadedStart<V>(rows: seq<seq<string>>, entry: string -> Option<V>)
    ensures LoadedBefore(map[], rows, entry, 0, 0)
  {
  }

  /** One more cell read: its entry, if it has one, joins the dictionary. */
  lemma LoadedStep<V>(m: map<Coord, V>, rows: seq<seq<string>>, entry: string -> Option<V>, i: int, j: int)
    requires 0 <= i < |rows| && 0 <= j < |rows[i]| && LoadedBefore(m, rows, entry, i, j)
    ensures var e := entry(rows[i][j]);
      LoadedBefore(if e.Some? then m[Coord(i + 1, j + 1) := e.value] else m, rows, entry, i, j + 1)
  {
  }

  /** The end of a row is the start of the next. */
  lemma LoadedNextRow<V>(m: map<Coord, V>, rows: seq<seq<string>>, entry: string -> Option<V>, i: int)
    requires 0 <= i < |rows| && LoadedBefore(m, rows, entry, i, |rows[i]|)
    ensures LoadedBefore(m, rows, entry, i + 1, 0)
  {
  }

  /** A load has one outcome: the dictionary is determined by the rows. */
  lemma LoadedUnique<V>(m1: map<Coord, V>, m2: map<Coord, V>, rows: seq<seq<string>>, entry: string -> Option<V>)
    requires Loaded(m1, rows, entry) && Loaded(m2, rows, entry)
    ensures m1 == m2
  {
    forall c | c in m1
      ensures c in m2 && m2[c] == m1[c]
    {
      var a, b := c.x - 1, c.y - 1;
      assert Coord(a + 1, b + 1) == c;
    }
    forall c | c in m2
      ensures c in m1
    {
      var a, b := c.x - 1, c.y - 1;
      assert Coord(a + 1, b + 1) == c;
    }
  }

  /** What `load_signals` keeps of a cell: its text, unless it is `"0"`. */
  function SignalEntry(cell: string): Option<string>
  {
    if cell != "0" then Some(cell) else None
  }

  /** What `save_signals` writes for row `i`, column `j` (from 0):
      `signals.get((i+1, j+1), '0')`. */
  function SignalCell(signals: map<Coord, string>, i: int, j: int): string
  {
    var c := Coord(i + 1, j + 1);
    if c in signals then signals[c] else "0"
  }

  /** Saving loaded signals writes every cell of the loaded rows back as it
      was, and `"0"` at every position the rows do not reach. */
  lemma SavedSignalsOfLoaded(s: map<Coord, string>, rows: seq<seq<string>>)
    requires Loaded(s, rows, SignalEntry)
    ensures forall i, j :: 0 <= i < |rows| && 0 <= j < |rows[i]| ==> SignalCell(s, i, j) == rows[i][j]
    ensures forall i, j :: 0 <= i && 0 <= j && !InRows(rows, Coord(i + 1, j + 1)) ==> SignalCell(s, i, j) == "0"
  {
  }

  /** Loading saved signals gives back every signal of the grid whose type
      is not `"0"`, and nothing else. */
  lemma LoadedSignalsOfSaved(s: map<Coord, string>, rows: seq<seq<string>>, loaded: map<Coord, string>)
    requires IsGrid(rows)
    requires forall i, j :: 0 <= i < GridSize && 0 <= j < GridSize ==> rows[i][j] == SignalCell(s, i, j)
    requires Loaded(loaded, rows, SignalEntry)
    ensures forall c :: c in loaded <==> c in s && InGrid(c) && s[c] != "0"
    ensures forall c :: c in loaded ==> loaded[c] == s[c]
  {
    forall c | c in s && InGrid(c) && s[c] != "0"
      ensures c in loaded
    {
      assert rows[c.x - 1][c.y - 1] == SignalCell(s, c.x - 1, c.y - 1);
    }
  }

  /** A map cell `load_map` reads without raising: `"0"`, or a text
      `parse_cell_data` accepts. */
  predicate Readable(cell: string)
  {
    cell == "0" || CellData(cell).Some?
  }

  /** What `load_map` keeps of a readable cell: its non-empty list. */
  function MapEntry(cell: string): Option<seq<Coord>>
  {
    if cell != "0" && CellData(cell).Some? && CellData(cell).value != [] then CellData(cell) else None
  }

  lemma EntryOfCell(cell: string)
    ensures cell == "0" ==> Readable(cell) && MapEntry(cell) == None
    ensures cell != "0" ==> (Readable(cell) <==> CellData(cell).Some?)
    ensures cell != "0" && CellData(cell).Some? ==>
      MapEntry(cell) == if CellData(cell).value == [] then None else CellData(cell)
  {
  }

  /** Every cell before row `i`, column `j` is readable. */
  predicate ReadableBefore(rows: seq<seq<string>>, i: int, j: int)
  {
    forall a, b :: 0 <= a < |rows| && 0 <= b < |rows[a]| && Before(Coord(a + 1, b + 1), i, j) ==> Readable(rows[a][b])
  }

  lemma ReadableStep(rows: seq<seq<string>>, i: int, j: int)
    requires 0 <= i < |rows| && 0 <= j < |rows[i]| && ReadableBefore(rows, i, j)
    ensures Readable(rows[i][j]) ==> ReadableBefore(rows, i, j + 1)
    ensures !Readable(rows[i][j]) ==> exists a, b :: 0 <= a < |rows| && 0 <= b < |rows[a]| && !Readable(rows[a][b])
  {
    hide Readable;
  }

  lemma ReadableStart(rows: seq<seq<string>>)
    ensures ReadableBefore(rows, 0, 0)
  {
    hide Readable;
  }

  lemma ReadableNextRow(rows: seq<seq<string>>, i: int)
    requires 0 <= i < |rows| && ReadableBefore(rows, i, |rows[i]|)
    ensures ReadableBefore(rows, i + 1, 0)
  {
    hide Readable;
    forall a, b | 0 <= a < |rows| && 0 <= b < |rows[a]| && Before(Coord(a + 1, b + 1), i + 1, 0)
      ensures Readable(rows[a][b])
    {
      assert Before(Coord(a + 1, b + 1), i, |rows[i]|);
    }
  }

  lemma ReadableAll(rows: seq<seq<string>>)
    requires ReadableBefore(rows, |rows|, 0)
    ensures forall a, b :: 0 <= a < |rows| && 0 <= b < |rows[a]| ==> Readable(rows[a][b])
  {
    hide Readable;
  }

  /** Loading a saved map raises nowhere and gives back, for every cell of
      the grid, its list when it is not empty; cells outside the grid and
      cells with empty lists are lost. */
  lemma LoadedMapOfSaved(m: Links, rows: seq<seq<string>>, loaded: Links)
    requires IsGrid(rows)
    requires forall i, j :: 0 <= i < GridSize && 0 <= j < GridSize ==> rows[i][j] == CellOf(m, Coord(i + 1, j + 1))
    ensures forall i, j :: 0 <= i < |rows| && 0 <= j < |rows[i]| ==> Readable(rows[i][j])
    ensures Loaded(loaded, rows, MapEntry) ==>
      (forall c :: c in loaded <==> InGrid(c) && ListOf(m, c) != []) &&
      (forall c :: c in loaded ==> loaded[c] == m[c])
  {
    forall i, j | 0 <= i < |rows| && 0 <= j < |rows[i]|
      ensures MapEntry(rows[i][j]) == if ListOf(m, Coord(i + 1, j + 1)) == [] then None else Some(m[Coord(i + 1, j + 1)])
    {
      var k := Coord(i + 1, j + 1);
      var cell := rows[i][j];
      assert cell == CellOf(m, k);
      CellDataOfCellText(ListOf(m, k));
      if ListOf(m, k) != [] {
        assert cell == CellText(m[k]) && cell != "0";
        assert CellData(cell) == Some(m[k]);
      }
    }
    if Loaded(loaded, rows, MapEntry) {
      forall c | InGrid(c) && ListOf(m, c) != []
        ensures c in loaded
      {
        var a, b := c.x - 1, c.y - 1;
        assert Coord(a + 1, b + 1) == c && Before(c, |rows|, 0);
        assert MapEntry(rows[a][b]).Some?;
      }
    }
  }

  // ---------------------------------------------------------------------
  // The editor
  // ---------------------------------------------------------------------

  /** The editing mode of the toolbar (`self.mode`). */
  datatype Mode = Draw | ConnectMode | EraseMode | SignalMode

  class RoadMapEditor {
    /** `self.connections`: each cell's list of the cells it leads to. */
    var connections: Links
    /** `self.signals`: the signal type placed on each cell. */
    var signals: map<Coord, string>

    /** A new editor has no roads and no signals. */
    constructor ()
      ensures connections == map[] && signals == map[]
    {
      connections := map[];
      signals := map[];
    }

    /** `connect_cells(cell1, cell2)`; `twoWay` is the road type selected. */
    method ConnectCells(c1: Coord, c2: Coord, twoWay: bool)
      modifies this`connections
      ensures connections == Connect(old(connections), c1, c2, twoWay)
    {
      if c1 !in connections {
        connections := connections[c1 := []];
      }
      if c2 !in connections {
        connections := connections[c2 := []];
      }
      if c2 !in connections[c1] {
        connections := connections[c1 := connections[c1] + [c2]];
      }
      if twoWay && c1 !in connections[c2] {
        connections := connections[c2 := connections[c2] + [c1]];
      }
    }

    /** `erase_cell(cell)`: the cell's own list is deleted, then the first
        occurrence of the cell is removed from every remaining list. */
    method EraseCell(c: Coord)
      modifies this`connections
      ensures connections == Erase(old(connections), c)
    {
      if c in connections {
        connections := connections - {c};
      }
      var keys := connections.Keys;
      while keys != {}
        invariant keys <= connections.Keys == old(connections).Keys - {c}
        invariant forall k :: k in connections ==>
          connections[k] == if k in keys then old(connections)[k] else RemoveFirst(old(connections)[k], c)
        decreases keys
      {
        var k :| k in keys;
        var list := connections[k];
        if c in list {
          connections := connections[k := RemoveFirst(list, c)];
        }
        keys := keys - {k};
      }
      assert connections.Keys == Erase(old(connections), c).Keys;
    }

    /** `handle_cell(cell)`: erase mode erases the cell, signal mode places
        the selected signal type on it, the other modes change nothing. */
    method HandleCell(cell: Coord, mode: Mode, signalType: string)
      modifies this
      ensures mode == EraseMode ==> connections == Erase(old(connections), cell) && signals == old(signals)
      ensures mode == SignalMode ==> signals == old(signals)[cell := signalType] && connections == old(connections)
      ensures mode != EraseMode && mode != SignalMode ==> connections == old(connections) && signals == old(signals)
    {
      if mode == EraseMode {
        EraseCell(cell);
      } else if mode == SignalMode {
        signals := signals[cell := signalType];
      }
    }

    /** `clear_map()`: no roads and no signals are left. */
    method ClearMap()
      modifies this
      ensures connections == map[] && signals == map[]
    {
      connections := map[];
      signals := map[];
    }

    /** The rows `save_signals` writes: the 50 by 50 grid of signal types,
        `"0"` where no signal is placed. */
    method SaveSignals() returns (rows: seq<seq<string>>)
      ensures IsGrid(rows)
      ensures forall i, j :: 0 <= i < GridSize && 0 <= j < GridSize ==> rows[i][j] == SignalCell(signals, i, j)
    {
      rows := [];
      for i := 0 to GridSize
        invariant |rows| == i
        invariant forall a :: 0 <= a < i ==> |rows[a]| == GridSize
        invariant forall a, b :: 0 <= a < i && 0 <= b < GridSize ==> rows[a][b] == SignalCell(signals, a, b)
      {
        var row := [];
        for j := 0 to GridSize
          invariant |row| == j
          invariant forall b :: 0 <= b < j ==> row[b] == SignalCell(signals, i, b)
        {
          var pos := Coord(i + 1, j + 1);
          row := row + [if pos in signals then signals[pos] else "0"];
        }
        var next := rows + [row];
        assert forall a :: 0 <= a < i ==> next[a] == rows[a];
        assert next[i] == row;
        rows := next;
      }
    }

    /** Row `i` (from 0) of the map `save_map` writes. */
    method MapRow(i: int) returns (row: seq<string>)
      ensures |row| == GridSize
      ensures forall b :: 0 <= b < GridSize ==> row[b] == CellOf(connections, Coord(i + 1, b + 1))
    {
      row := [];
      for j := 0 to GridSize
        invariant |row| == j
        invariant forall b :: 0 <= b < j ==> row[b] == CellOf(connections, Coord(i + 1, b + 1))
      {
        var key := Coord(i + 1, j + 1);
        var cell := "0";
        if key in connections {
          var list := connections[key];
          if list != [] {
            cell := CellText(list);
          }
        }
        row := row + [cell];
      }
    }

    /** The rows `save_map` writes, each cell the text of the cell's list,
        and the signal rows it saves with them. */
    method SaveMap() returns (mapRows: seq<seq<string>>, signalRows: seq<seq<string>>)
      ensures IsGrid(mapRows) && IsGrid(signalRows)
      ensures forall i, j :: 0 <= i < GridSize && 0 <= j < GridSize ==> mapRows[i][j] == CellOf(connections, Coord(i + 1, j + 1))
      ensures forall i, j :: 0 <= i < GridSize && 0 <= j < GridSize ==> signalRows[i][j] == SignalCell(signals, i, j)
    {
      hide CellOf, SignalCell;
      mapRows := [];
      for i := 0 to GridSize
        invariant |mapRows| == i
        invariant forall a :: 0 <= a < i ==> |mapRows[a]| == GridSize
        invariant forall a, b :: 0 <= a < i && 0 <= b < GridSize ==> mapRows[a][b] == CellOf(connections, Coord(a + 1, b + 1))
      {
        var row := MapRow(i);
        var next := mapRows + [row];
        assert forall a :: 0 <= a < i ==> next[a] == mapRows[a];
        assert next[i] == row;
        mapRows := next;
      }
      signalRows := SaveSignals();
    }

    /** `load_signals()` on the rows of the chosen file: the signals are
        cleared, then every cell that is not `"0"` places its text at its
        row and column, counted from 1. */
    method LoadSignals(rows: seq<seq<string>>)
      modifies this`signals
      ensures Loaded(signals, rows, SignalEntry)
    {
      signals := map[];
      LoadedStart(rows, SignalEntry);
      for i := 0 to |rows|
        invariant LoadedBefore(signals, rows, SignalEntry, i, 0)
      {
        for j := 0 to |rows[i]|
          invariant LoadedBefore(signals, rows, SignalEntry, i, j)
        {
          LoadedStep(signals, rows, SignalEntry, i, j);
          var cell := rows[i][j];
          if cell != "0" {
            signals := signals[Coord(i + 1, j + 1) := cell];
          }
        }
        LoadedNextRow(signals, rows, SignalEntry, i);
      }
    }

    /** `load_map()` on the rows of the chosen file: the links are cleared,
        then every cell that is not `"0"` is parsed and, when its list is not
        empty, becomes the list of the cell at its row and column. `false`
        where `parse_cell_data` raises, which happens exactly when some cell
        is unreadable. */
    method LoadMap(rows: seq<seq<string>>) returns (ok: bool)
      modifies this`connections
      ensures ok <==> forall a, b :: 0 <= a < |rows| && 0 <= b < |rows[a]| ==> Readable(rows[a][b])
      ensures ok ==> Loaded(connections, rows, MapEntry)
    {
      hide LoadedBefore, ReadableBefore, Readable, MapEntry, CellData;
      connections := map[];
      LoadedStart(rows, MapEntry);
      ReadableStart(rows);
      for i := 0 to |rows|
        invariant LoadedBefore(connections, rows, MapEntry, i, 0)
        invariant ReadableBefore(rows, i, 0)
      {
        for j := 0 to |rows[i]|
          invariant LoadedBefore(connections, rows, MapEntry, i, j)
          invariant ReadableBefore(rows, i, j)
        {
          LoadedStep(connections, rows, MapEntry, i, j);
          ReadableStep(rows, i, j);
          var cell := rows[i][j];
          EntryOfCell(cell);
          if cell != "0" {
            var coords := ParseCellData(cell);
            if coords.None? {
              return false;
            }
            if coords.value != [] {
              connections := connections[Coord(i + 1, j + 1) := coords.value];
            }
          }
        }
        LoadedNextRow(connections, rows, MapEntry, i);
        ReadableNextRow(rows, i);
      }
      ReadableAll(rows);
      return true;
    }
  }
}
