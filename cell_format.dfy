/**
 * The text of one cell of the road-map CSV, as both map tools write it:
 * the cell's neighbour list as `(x,y)` items joined by commas, or `"0"`
 * for a cell with no neighbours.
 */
module CellFormat {
  import opened Decimal
  import opened Coords

  /** The two numbers of an item: `f"{x},{y}"`. */
  function Inner(c: Coord): string
  {
    Text(c.x) + "," + Text(c.y)
  }

  /** One item: `f"({x},{y})"`; also what Java's `Node.toString` writes. */
  function Item(c: Coord): string
  {
    "(" + Inner(c) + ")"
  }

  /** `','.join(f"({x},{y})" for x, y in cs)`. */
  function JoinItems(cs: seq<Coord>): string
    requires cs != []
  {
    if |cs| == 1 then Item(cs[0]) else Item(cs[0]) + "," + JoinItems(cs[1..])
  }

  /** The cell text `save_map` writes for a neighbour list. */
  function CellText(cs: seq<Coord>): string
  {
    if cs == [] then "0" else JoinItems(cs)
  }

  predicate ParenFree(s: string)
  {
    '(' !in s && ')' !in s
  }

  lemma InnerParenFree(c: Coord)
    ensures ParenFree(Inner(c)) && |Inner(c)| > 0
  {
  }

  /** The items after the opening parenthesis: `JoinItems(cs) == "(" + AfterOpen(cs)`. */
  function AfterOpen(cs: seq<Coord>): string
    requires cs != []
  {
    if |cs| == 1 then Inner(cs[0]) + ")" else Inner(cs[0]) + ")" + "," + JoinItems(cs[1..])
  }

  lemma JoinItemsOpens(cs: seq<Coord>)
    requires cs != []
    ensures JoinItems(cs) == "(" + AfterOpen(cs)
  {
  }

  /** A non-empty cell text always starts with an opening parenthesis and is never "0". */
  lemma CellTextOfNonEmpty(cs: seq<Coord>)
    requires cs != []
    ensures |CellText(cs)| > 1 && CellText(cs)[0] == '(' && CellText(cs) != "0"
  {
    JoinItemsOpens(cs);
  }
}
