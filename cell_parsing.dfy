/**
 * How the Java parser reads a cell text back (`RoadMapParser.parseCoordinates`):
 * the text is split on the pattern `\),\(|\(|\)` with `String.split`, each
 * non-empty part is split on commas, and the first two pieces are trimmed
 * and read with `Integer.parseInt`; a part that cannot be read is skipped.
 */
module CellParsing {
  import opened Wrappers
  import opened JavaInt
  import opened Decimal
  import opened Coords
  import opened CellFormat

  /** The pieces of `s` between matches of `\),\(|\(|\)`, the alternatives tried
      in that order at each position; `cur` is the piece read so far. */
  function ParenPieces(s: string, cur: string): (r: seq<string>)
    ensures |r| >= 1
    decreases |s|
  {
    if s == [] then [cur]
    else if |s| >= 3 && s[0] == ')' && s[1] == ',' && s[2] == '(' then [cur] + ParenPieces(s[3..], "")
    else if s[0] == '(' || s[0] == ')' then [cur] + ParenPieces(s[1..], "")
    else ParenPieces(s[1..], cur + [s[0]])
  }

  /** The pieces of `s` between commas; `cur` is the piece read so far. */
  function CommaPieces(s: string, cur: string): (r: seq<string>)
    ensures |r| >= 1
    decreases |s|
  {
    if s == [] then [cur]
    else if s[0] == ',' then [cur] + CommaPieces(s[1..], "")
    else CommaPieces(s[1..], cur + [s[0]])
  }

  function DropTrailingEmpty(ps: seq<string>): (r: seq<string>)
    ensures |r| <= |ps| && r == ps[..|r|]
    ensures |r| > 0 ==> r[|r| - 1] != ""
    ensures forall i :: |r| <= i < |ps| ==> ps[i] == ""
  {
    if ps != [] && ps[|ps| - 1] == "" then DropTrailingEmpty(ps[..|ps| - 1]) else ps
  }

  /** `String.split(regex)` given the pieces between all matches: without a
      match the string is its own only piece; otherwise trailing empty
      pieces are dropped (a leading one stays). */
  function JavaSplit(pieces: seq<string>): seq<string>
  {
    if |pieces| == 1 then pieces else DropTrailingEmpty(pieces)
  }

  /** One part of the cell read as a coordinate, `None` when `parseCoordinates`
      skips it: fewer than two comma pieces, or a piece `parseInt` rejects. */
  function ParsePart(part: string): Option<Coord>
  {
    var pieces := JavaSplit(CommaPieces(part, ""));
    if |pieces| < 2 then None
    else match (ParseJavaInt(Trim(pieces[0])), ParseJavaInt(Trim(pieces[1])))
      case (Some(x), Some(y)) => Some(Coord(x, y))
      case _ => None
  }

  /** What one part contributes: nothing if it is empty or unreadable. */
  function Reading(part: string): (r: seq<Coord>)
    ensures |r| <= 1
    ensures |r| == 1 ==> MinInt <= r[0].x <= MaxInt && MinInt <= r[0].y <= MaxInt
  {
    if part != "" && ParsePart(part).Some? then [ParsePart(part).value] else []
  }

  /** The coordinates read from `parts`, in order. */
  function Collect(parts: seq<string>): (r: seq<Coord>)
    ensures |r| <= |parts|
    ensures forall i :: 0 <= i < |r| ==> MinInt <= r[i].x <= MaxInt && MinInt <= r[i].y <= MaxInt
  {
    if parts == [] then [] else Collect(parts[..|parts| - 1]) + Reading(parts[|parts| - 1])
  }

  function Parts(cell: string): seq<string>
  {
    JavaSplit(ParenPieces(cell, ""))
  }

  /** What `parseCoordinates(cell)` returns. It never fails: parts it cannot
      read are skipped. */
  function CoordinatesOf(cell: string): seq<Coord>
  {
    Collect(Parts(cell))
  }

  /** The `Inner` texts of a list, in order. */
  function InnerTexts(cs: seq<Coord>): (r: seq<string>)
    ensures |r| == |cs| && forall i :: 0 <= i < |cs| ==> r[i] == Inner(cs[i])
  {
    if cs == [] then [] else [Inner(cs[0])] + InnerTexts(cs[1..])
  }

  lemma {:induction false} ParenFreeShift(w: string, t: string, cur: string)
    requires ParenFree(w)
    ensures ParenPieces(w + t, cur) == ParenPieces(t, cur + w)
    decreases |w|
  {
    if w != [] {
      var s := w + t;
      assert s[0] == w[0] && s[1..] == w[1..] + t;
      assert ParenFree(w[1..]) by {
        assert forall i :: 0 <= i < |w[1..]| ==> w[1..][i] == w[i + 1];
      }
      ParenFreeShift(w[1..], t, cur + [w[0]]);
      assert cur + [w[0]] + w[1..] == cur + w;
    } else {
      assert w + t == t && cur + w == cur;
    }
  }

  lemma {:induction false} CommaFreeShift(w: string, t: string, cur: string)
    requires ',' !in w
    ensures CommaPieces(w + t, cur) == CommaPieces(t, cur + w)
    decreases |w|
  {
    if w != [] {
      var s := w + t;
      assert s[0] == w[0] && s[1..] == w[1..] + t;
      assert ',' !in w[1..] by {
        assert forall i :: 0 <= i < |w[1..]| ==> w[1..][i] == w[i + 1];
      }
      CommaFreeShift(w[1..], t, cur + [w[0]]);
      assert cur + [w[0]] + w[1..] == cur + w;
    } else {
      assert w + t == t && cur + w == cur;
    }
  }

  lemma PiecesOfEmpty(cur: string)
    ensures ParenPieces("", cur) == [cur] && CommaPieces("", cur) == [cur]
  {
  }

  lemma CommaStep(t: string, cur: string)
    ensures CommaPieces([','] + t, cur) == [cur] + CommaPieces(t, "")
  {
    var s := [','] + t;
    assert s[0] == ',' && s[1..] == t;
  }

  lemma SeparatorStep(t: string, cur: string)
    ensures ParenPieces("),(" + t, cur) == [cur] + ParenPieces(t, "")
  {
    var s := "),(" + t;
    assert s[0] == ')' && s[1] == ',' && s[2] == '(' && s[3..] == t;
  }

  lemma OpenStep(t: string, cur: string)
    ensures ParenPieces("(" + t, cur) == [cur] + ParenPieces(t, "")
  {
    var s := "(" + t;
    assert s[0] == '(' && s[1..] == t;
    assert !(s[0] == ')');
  }

  lemma CloseAtEnd(cur: string)
    ensures ParenPieces(")", cur) == [cur, ""]
  {
    var s := ")";
    assert s[1..] == "";
    PiecesOfEmpty("");
  }

  /** Paren-free words, each closed by `)`, joined by `,(`. */
  function Wrapped(ws: seq<string>): string
    requires ws != []
  {
    if |ws| == 1 then ws[0] + ")" else ws[0] + "),(" + Wrapped(ws[1..])
  }

  lemma {:induction false} AfterOpenIsWrapped(cs: seq<Coord>)
    requires cs != []
    ensures AfterOpen(cs) == Wrapped(InnerTexts(cs))
    decreases |cs|
  {
    var ws := InnerTexts(cs);
    assert ws[1..] == InnerTexts(cs[1..]);
    if |cs| > 1 {
      AfterOpenIsWrapped(cs[1..]);
      JoinItemsOpens(cs[1..]);
      assert AfterOpen(cs) == Inner(cs[0]) + "),(" + AfterOpen(cs[1..]);
    }
  }

  /** The pieces of wrapped words: the words, then the empty piece after the
      last closing parenthesis. */
  lemma {:induction false} PiecesOfWrapped(ws: seq<string>, cur: string)
    requires ws != [] && forall i :: 0 <= i < |ws| ==> ParenFree(ws[i])
    ensures ParenPieces(Wrapped(ws), cur) == [cur + ws[0]] + ws[1..] + [""]
    decreases |ws|
  {
    if |ws| == 1 {
      ParenFreeShift(ws[0], ")", cur);
      CloseAtEnd(cur + ws[0]);
    } else {
      var rest := "),(" + Wrapped(ws[1..]);
      assert Wrapped(ws) == ws[0] + rest;
      ParenFreeShift(ws[0], rest, cur);
      SeparatorStep(Wrapped(ws[1..]), cur + ws[0]);
      PiecesOfWrapped(ws[1..], "");
      assert "" + ws[1] == ws[1];
      assert ws[1..] == [ws[1]] + ws[2..];
    }
  }

  lemma DropOneTrailing(xs: seq<string>)
    requires xs != [] && xs[|xs| - 1] != ""
    ensures JavaSplit(xs + [""]) == xs
  {
    var ps := xs + [""];
    assert ps[..|ps| - 1] == xs;
  }

  lemma WrappedPartsAreWords(ws: seq<string>)
    requires ws != [] && forall i :: 0 <= i < |ws| ==> ParenFree(ws[i]) && ws[i] != ""
    ensures JavaSplit(ParenPieces("(" + Wrapped(ws), "")) == [""] + ws
  {
    hide ParenPieces, JavaSplit, DropTrailingEmpty, Wrapped, ParenFree;
    OpenStep(Wrapped(ws), "");
    PiecesOfWrapped(ws, "");
    assert "" + ws[0] == ws[0];
    assert ws == [ws[0]] + ws[1..];
    assert ParenPieces("(" + Wrapped(ws), "") == ([""] + ws) + [""];
    DropOneTrailing([""] + ws);
  }

  /** The parts `parseCoordinates` sees in a non-empty cell text: a leading
      empty part, then one part per item. */
  lemma PartsOfCellText(cs: seq<Coord>)
    requires cs != []
    ensures Parts(CellText(cs)) == [""] + InnerTexts(cs)
  {
    var ws := InnerTexts(cs);
    JoinItemsOpens(cs);
    AfterOpenIsWrapped(cs);
    assert CellText(cs) == "(" + Wrapped(ws);
    forall i | 0 <= i < |ws|
      ensures ParenFree(ws[i]) && ws[i] != ""
    {
      InnerParenFree(cs[i]);
    }
    WrappedPartsAreWords(ws);
  }

  lemma CommaPair(a: string, b: string)
    requires ',' !in a && ',' !in b
    ensures CommaPieces(a + "," + b, "") == [a, b]
  {
    var t := [','] + b;
    assert a + "," + b == a + t;
    CommaFreeShift(a, t, "");
    assert "" + a == a;
    CommaStep(b, a);
    CommaFreeShift(b, "", "");
    assert b + "" == b && "" + b == b;
    PiecesOfEmpty(b);
  }

  lemma ParsePartOfPieces(part: string, a: string, b: string, x: Int32, y: Int32)
    requires CommaPieces(part, "") == [a, b] && b != ""
    requires ParseJavaInt(Trim(a)) == Some(x) && ParseJavaInt(Trim(b)) == Some(y)
    ensures ParsePart(part) == Some(Coord(x, y))
  {
    var ps := [a, b];
    assert DropTrailingEmpty(ps) == ps;
    assert JavaSplit(ps) == ps;
  }

  /** An item's two numbers read back as the coordinate they were written from. */
  lemma ParsePartOfInner(c: Coord)
    requires MinInt <= c.x <= MaxInt && MinInt <= c.y <= MaxInt
    ensures ParsePart(Inner(c)) == Some(c)
  {
    TextHasNoComma(c.x);
    TextHasNoComma(c.y);
    CommaPair(Text(c.x), Text(c.y));
    TrimOfText(c.x);
    TrimOfText(c.y);
    ParseJavaIntOfText(c.x);
    ParseJavaIntOfText(c.y);
    ParsePartOfPieces(Inner(c), Text(c.x), Text(c.y), c.x, c.y);
  }

  lemma CollectSnoc(ps: seq<string>, p: string)
    ensures Collect(ps + [p]) == Collect(ps) + Reading(p)
  {
    var all := ps + [p];
    assert all[..|all| - 1] == ps && all[|all| - 1] == p;
  }

  lemma SnocOfLast<T>(s: seq<T>)
    requires s != []
    ensures s == s[..|s| - 1] + [s[|s| - 1]]
  {
  }

  lemma ConsThenSnoc<T>(a: T, s: seq<T>)
    requires s != []
    ensures [a] + s == ([a] + s[..|s| - 1]) + [s[|s| - 1]]
  {
  }

  lemma CollectOfEmptyPart()
    ensures Collect([""]) == []
  {
    assert [""][..0] == [];
    assert Reading("") == [];
  }

  /** Each part reads as the coordinate at the same position. */
  predicate ReadsAs(ps: seq<string>, cs: seq<Coord>)
  {
    |ps| == |cs| && forall i :: 0 <= i < |ps| ==> Reading(ps[i]) == [cs[i]]
  }

  lemma ReadsAsFront(ps: seq<string>, cs: seq<Coord>)
    requires ReadsAs(ps, cs) && ps != []
    ensures ReadsAs(ps[..|ps| - 1], cs[..|cs| - 1])
    ensures Reading(ps[|ps| - 1]) == [cs[|cs| - 1]]
  {
    var front, cfront := ps[..|ps| - 1], cs[..|cs| - 1];
    assert forall i :: 0 <= i < |front| ==> front[i] == ps[i] && cfront[i] == cs[i];
  }

  lemma CollectReadableStep(ps: seq<string>, cs: seq<Coord>)
    requires ps != [] && |ps| == |cs|
    requires Collect([""] + ps[..|ps| - 1]) == cs[..|cs| - 1]
    requires Reading(ps[|ps| - 1]) == [cs[|cs| - 1]]
    ensures Collect([""] + ps) == cs
  {
    var front, last := ps[..|ps| - 1], ps[|ps| - 1];
    ConsThenSnoc("", ps);
    CollectSnoc([""] + front, last);
    SnocOfLast(cs);
  }

  /** Readable parts after a leading empty part are read in order. */
  lemma {:induction false} CollectReadable(ps: seq<string>, cs: seq<Coord>)
    requires ReadsAs(ps, cs)
    ensures Collect([""] + ps) == cs
    decreases |ps|
  {
    if ps == [] {
      assert [""] + ps == [""];
      CollectOfEmptyPart();
    } else {
      ReadsAsFront(ps, cs);
      CollectReadable(ps[..|ps| - 1], cs[..|cs| - 1]);
      CollectReadableStep(ps, cs);
    }
  }

  /** `parseCoordinates` inverts the cell text the map tools write: every list
      of `int` coordinates is read back exactly, and "0" reads as no neighbours. */
  lemma CoordinatesOfCellText(cs: seq<Coord>)
    requires forall i :: 0 <= i < |cs| ==> MinInt <= cs[i].x <= MaxInt && MinInt <= cs[i].y <= MaxInt
    ensures CoordinatesOf(CellText(cs)) == cs
  {
    if cs == [] {
      ParenFreeShift("0", "", "");
      assert "0" + "" == "0" && "" + "0" == "0";
      CommaFreeShift("0", "", "");
      CollectSnoc([], "0");
      assert [] + ["0"] == ["0"];
    } else {
      PartsOfCellText(cs);
      var ws := InnerTexts(cs);
      forall i | 0 <= i < |cs|
        ensures Reading(ws[i]) == [cs[i]]
      {
        InnerParenFree(cs[i]);
        ParsePartOfInner(cs[i]);
      }
      CollectReadable(ws, cs);
    }
  }
}
