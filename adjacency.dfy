/**
 * The adjacency dictionaries of the two Python map tools: each cell's key
 * `f"{x},{y}"` maps to the list of cells it leads to. Keys are modelled as
 * cells (`Coords.KeyInjective` shows the string key loses nothing).
 */
module Adjacency {
  import opened Coords
  import opened CellFormat

  type Links = map<Coord, seq<Coord>>

  /** The list under `k`, or the empty list when `k` is no key. */
  function ListOf(m: Links, k: Coord): seq<Coord>
  {
    if k in m then m[k] else []
  }

  /** No cell occurs twice in the list. */
  predicate Unique(s: seq<Coord>)
  {
    forall i, j :: 0 <= i < j < |s| ==> s[i] != s[j]
  }

  /** Every list of the dictionary is free of duplicates. */
  ghost predicate DuplicateFree(m: Links)
  {
    forall k :: k in m ==> Unique(m[k])
  }

  /** Every link has its way back: `b` in `a`'s list puts `a` in `b`'s. */
  ghost predicate Symmetric(m: Links)
  {
    forall a, b :: a in m && b in m[a] ==> b in m && a in m[b]
  }

  /** `m2` keeps every key and every link of `m1`. */
  ghost predicate Includes(m1: Links, m2: Links)
  {
    forall k :: k in m1 ==> k in m2 && forall c :: c in m1[k] ==> c in m2[k]
  }

  /** Both cells lead to each other. */
  predicate Linked(m: Links, a: Coord, b: Coord)
  {
    b in ListOf(m, a) && a in ListOf(m, b)
  }

  /** `p1`'s list after `connect_one_way(p1, p2)`: `p2` is appended unless
      it is already there. */
  function Appended(s: seq<Coord>, c: Coord): seq<Coord>
  {
    if c in s then s else s + [c]
  }

  /** The dictionary after `connect_one_way(a, b)`; `LinkFacts` says what
      it holds. */
  function Link(m: Links, a: Coord, b: Coord): Links
  {
    m[a := Appended(ListOf(m, a), b)]
  }

  /** After `connect_one_way(a, b)`, `a` is a key, `b` has joined the end of
      `a`'s list unless it was in it already, and no other list changes. */
  lemma LinkFacts(m: Links, a: Coord, b: Coord)
    ensures var r := Link(m, a, b);
      && r.Keys == m.Keys + {a}
      && (forall k :: k in r ==> forall c :: c in r[k] <==> c in ListOf(m, k) || (k == a && c == b))
      && (forall k :: k in m && k != a ==> r[k] == m[k])
      && |ListOf(m, a)| <= |r[a]| && r[a][..|ListOf(m, a)|] == ListOf(m, a)
  {
  }

  /** The two calls `connect_one_way(a, b)`, `connect_one_way(b, a)`. */
  function LinkBoth(m: Links, a: Coord, b: Coord): Links
  {
    Link(Link(m, a, b), b, a)
  }

  /** `m` with an empty list under `k` unless `k` is a key. */
  function Touch(m: Links, k: Coord): (r: Links)
    ensures r.Keys == m.Keys + {k}
    ensures forall j :: j in r ==> r[j] == ListOf(m, j)
  {
    if k in m then m else m[k := []]
  }

  lemma LinkKeepsDuplicateFree(m: Links, a: Coord, b: Coord)
    requires DuplicateFree(m)
    ensures DuplicateFree(Link(m, a, b))
  {
    var s := ListOf(m, a);
    assert Unique(s);
    if b !in s {
      assert forall i :: 0 <= i < |s| ==> (s + [b])[i] == s[i];
    }
  }

  /** Linking twice is linking once. */
  lemma LinkIdempotent(m: Links, a: Coord, b: Coord)
    ensures Link(Link(m, a, b), a, b) == Link(m, a, b)
  {
    LinkFacts(m, a, b);
  }

  lemma LinkIncludes(m: Links, a: Coord, b: Coord)
    ensures Includes(m, Link(m, a, b))
  {
    LinkFacts(m, a, b);
  }

  /** Linking both ways keeps the links symmetric and the lists duplicate
      free, adds `a <-> b`, and loses nothing. */
  lemma LinkBothKeepsValid(m: Links, a: Coord, b: Coord)
    requires Symmetric(m) && DuplicateFree(m)
    ensures var r := LinkBoth(m, a, b);
      Symmetric(r) && DuplicateFree(r) && Includes(m, r) && Linked(r, a, b)
  {
    var r1 := Link(m, a, b);
    var r := Link(r1, b, a);
    LinkFacts(m, a, b);
    LinkFacts(r1, b, a);
    LinkKeepsDuplicateFree(m, a, b);
    LinkKeepsDuplicateFree(r1, b, a);
    forall x, y | x in r && y in r[x]
      ensures y in r && x in r[y]
    {
      if !(x == a && y == b) && !(x == b && y == a) {
        assert y in ListOf(r1, x);
        assert y in ListOf(m, x);
      }
    }
  }

  lemma IncludesItself(m: Links)
    ensures Includes(m, m)
  {
  }

  lemma IncludesTransitive(m1: Links, m2: Links, m3: Links)
    requires Includes(m1, m2) && Includes(m2, m3)
    ensures Includes(m1, m3)
  {
  }

  lemma LinkedKept(m1: Links, m2: Links, a: Coord, b: Coord)
    requires Includes(m1, m2) && Linked(m1, a, b)
    ensures Linked(m2, a, b)
  {
  }

  /** The text `save_map` writes for the cell under `k`: its list in the
      cell format, or `"0"` when `k` is no key or its list is empty. */
  function CellOf(m: Links, k: Coord): (s: string)
    ensures ListOf(m, k) == [] <==> s == "0"
    ensures ListOf(m, k) != [] ==> s == CellText(ListOf(m, k))
  {
    if k in m && m[k] != [] then
      CellTextOfNonEmpty(m[k]);
      CellText(m[k])
    else "0"
  }
}
