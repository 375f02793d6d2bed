/**
 * Grid coordinates and the `"x,y"` string under which both the Java map
 * code and the Python tools key their cells.
 */
module Coords {
  import opened Decimal

  /** A cell: `x` is the 1-based row, `y` the 1-based column. */
  datatype Coord = Coord(x: int, y: int)

  /** The key `x + "," + y` of a cell. */
  function Key(c: Coord): string
  {
    Text(c.x) + "," + Text(c.y)
  }

  lemma TextHasNoComma(n: int)
    ensures ',' !in Text(n)
  {
  }

  /** In `a + "," + b` with `a` comma-free, the first comma is at `|a|`. */
  lemma FirstComma(a: string, b: string)
    requires ',' !in a
    ensures (a + "," + b)[|a|] == ','
    ensures forall i :: 0 <= i < |a| ==> (a + "," + b)[i] != ','
  {
    assert forall i :: 0 <= i < |a| ==> (a + "," + b)[i] == a[i];
  }

  /** Two comma-free heads joined to tails by a comma agree only if the heads agree. */
  lemma SplitAtFirstComma(a1: string, b1: string, a2: string, b2: string)
    requires ',' !in a1 && ',' !in a2
    requires a1 + "," + b1 == a2 + "," + b2
    ensures a1 == a2 && b1 == b2
  {
    FirstComma(a1, b1);
    FirstComma(a2, b2);
    assert |a1| == |a2|;
    var s := a1 + "," + b1;
    assert a1 == s[..|a1|];
    assert a2 == (a2 + "," + b2)[..|a2|];
    assert b1 == s[|a1| + 1..];
    assert b2 == (a2 + "," + b2)[|a2| + 1..];
  }

  /** Distinct cells have distinct keys, so a map keyed by `"x,y"` strings
      is a map keyed by cells. */
  lemma KeyInjective(a: Coord, b: Coord)
    requires Key(a) == Key(b)
    ensures a == b
  {
    TextHasNoComma(a.x);
    TextHasNoComma(b.x);
    SplitAtFirstComma(Text(a.x), Text(a.y), Text(b.x), Text(b.y));
    TextInjective(a.x, b.x);
    TextInjective(a.y, b.y);
  }
}
