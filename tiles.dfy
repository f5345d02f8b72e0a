/**
 * The tile settings shared by the home screen and the tile editor: the `categories` object of
 * the settings file, keyed by category name, each category holding an ordered row of tiles.
 */
module Tiles {
  import opened Wrappers

  /** A tile launches `command`; its colours and image only affect how it is drawn. */
  datatype Tile = Tile(name: string, category: string, transient: bool, command: string)

  /**
   * A category: `order` positions it on the home screen, `transient` marks the ones built at
   * run time (the System category) rather than read from the settings file.
   */
  datatype Category = Category(name: string, order: int, transient: bool, tiles: seq<Tile>)

  /**
   * The `categories` object is the sequence of its values in key order; the key of each value
   * is its `name`, so no name occurs twice.
   */
  ghost predicate UniqueNames(cats: seq<Category>)
  {
    forall i, j :: 0 <= i < j < |cats| ==> cats[i].name != cats[j].name
  }

  /** Where key `name` sits in the object, if `_.has(categories, name)`. */
  function Find(cats: seq<Category>, name: string): (r: Option<nat>)
    ensures r.Some? ==> r.value < |cats| && cats[r.value].name == name
    ensures r.Some? ==> forall i :: 0 <= i < r.value ==> cats[i].name != name
    ensures r.None? <==> forall i :: 0 <= i < |cats| ==> cats[i].name != name
  {
    if cats == [] then None
    else if cats[0].name == name then Some(0)
    else match Find(cats[1..], name)
      case None => None
      case Some(k) => Some(k + 1)
  }

  /**
   * `categories[c.name] = c`: an existing key keeps its place and gets the new value, a new
   * key goes at the end; every other key keeps its value.
   */
  function Put(cats: seq<Category>, c: Category): (r: seq<Category>)
    ensures Find(cats, c.name).Some? ==> |r| == |cats| && r[Find(cats, c.name).value] == c
    ensures Find(cats, c.name).None? ==> |r| == |cats| + 1 && r[|cats|] == c
    ensures forall i :: 0 <= i < |cats| && cats[i].name != c.name ==> r[i] == cats[i]
    ensures UniqueNames(cats) ==> UniqueNames(r)
  {
    match Find(cats, c.name)
    case Some(k) => cats[k := c]
    case None => cats + [c]
  }

  /** `tiles[i]`, which is `undefined` outside the array. */
  function At(tiles: seq<Tile>, i: int): (r: Option<Tile>)
    ensures r.Some? <==> 0 <= i < |tiles|
    ensures r.Some? ==> r.value == tiles[i]
  {
    if 0 <= i < |tiles| then Some(tiles[i]) else None
  }

  /** `tiles.splice(i, 1)`: the tile at `i` leaves, the later ones shift down by one. */
  function RemoveAt(tiles: seq<Tile>, i: nat): (r: seq<Tile>)
    requires i < |tiles|
    ensures |r| == |tiles| - 1
    ensures forall j :: 0 <= j < i ==> r[j] == tiles[j]
    ensures forall j :: i <= j < |r| ==> r[j] == tiles[j + 1]
    ensures multiset(r) + multiset{tiles[i]} == multiset(tiles)
  {
    assert tiles == tiles[..i] + [tiles[i]] + tiles[i + 1..];
    tiles[..i] + tiles[i + 1..]
  }

  /** `tiles.splice(i, 0, t)`: `t` lands at `i`, the tiles from `i` on shift up by one. */
  function InsertAt(tiles: seq<Tile>, i: nat, t: Tile): (r: seq<Tile>)
    requires i <= |tiles|
    ensures |r| == |tiles| + 1 && r[i] == t
    ensures forall j :: 0 <= j < i ==> r[j] == tiles[j]
    ensures forall j :: i < j < |r| ==> r[j] == tiles[j - 1]
    ensures multiset(r) == multiset(tiles) + multiset{t}
  {
    assert tiles == tiles[..i] + tiles[i..];
    tiles[..i] + [t] + tiles[i..]
  }

  /** Taking out what was just put in gives back the row. */
  lemma RemoveInserted(tiles: seq<Tile>, i: nat, t: Tile)
    requires i <= |tiles|
    ensures RemoveAt(InsertAt(tiles, i, t), i) == tiles
  {
  }

  /** Putting back what was just taken out gives back the row. */
  lemma InsertRemoved(tiles: seq<Tile>, i: nat)
    requires i < |tiles|
    ensures InsertAt(RemoveAt(tiles, i), i, tiles[i]) == tiles
  {
  }

  /** The elements at `i` and `j` trade places. */
  function Swap<T>(s: seq<T>, i: nat, j: nat): (r: seq<T>)
    requires i < |s| && j < |s|
    ensures |r| == |s| && r[i] == s[j] && r[j] == s[i]
    ensures forall k :: 0 <= k < |s| && k != i && k != j ==> r[k] == s[k]
    ensures multiset(r) == multiset(s)
  {
    s[i := s[j]][j := s[i]]
  }

  /** Overwriting one element trades it for the new one. */
  lemma UpdateSwapsOne<T>(s: seq<T>, i: nat, x: T)
    requires i < |s|
    ensures multiset(s[i := x]) + multiset{s[i]} == multiset(s) + multiset{x}
  {
    assert s == s[..i] + [s[i]] + s[i + 1..];
    assert s[i := x] == s[..i] + [x] + s[i + 1..];
  }

  /** Every tile of every category, with multiplicity. */
  function AllTiles(cats: seq<Category>): multiset<Tile>
  {
    if cats == [] then multiset{} else AllTiles(cats[..|cats| - 1]) + multiset(cats[|cats| - 1].tiles)
  }

  /** Replacing one category's row changes the whole collection by exactly that row. */
  lemma {:induction false} AllTilesUpdate(cats: seq<Category>, k: nat, tiles: seq<Tile>)
    requires k < |cats|
    ensures AllTiles(cats[k := cats[k].(tiles := tiles)]) + multiset(cats[k].tiles)
            == AllTiles(cats) + multiset(tiles)
  {
    var upd := cats[k := cats[k].(tiles := tiles)];
    var n := |cats| - 1;
    if k < n {
      var init := cats[..n];
      assert init[k] == cats[k];
      assert upd[..n] == init[k := init[k].(tiles := tiles)];
      AllTilesUpdate(init, k, tiles);
      assert upd[n] == cats[n];
      calc {
        AllTiles(upd) + multiset(cats[k].tiles);
        (AllTiles(upd[..n]) + multiset(cats[n].tiles)) + multiset(cats[k].tiles);
        (AllTiles(upd[..n]) + multiset(cats[k].tiles)) + multiset(cats[n].tiles);
        (AllTiles(init) + multiset(tiles)) + multiset(cats[n].tiles);
        AllTiles(cats) + multiset(tiles);
      }
    } else {
      assert upd[..n] == cats[..n];
    }
  }

  /** Rearranging one category's row keeps the whole collection. */
  lemma RearrangeKeepsAll(cats: seq<Category>, k: nat, tiles: seq<Tile>)
    requires k < |cats| && multiset(tiles) == multiset(cats[k].tiles)
    ensures AllTiles(cats[k := cats[k].(tiles := tiles)]) == AllTiles(cats)
  {
    var a := AllTiles(cats[k := cats[k].(tiles := tiles)]);
    AllTilesUpdate(cats, k, tiles);
    forall x
      ensures a[x] == AllTiles(cats)[x]
    {
      assert (a + multiset(tiles))[x] == (AllTiles(cats) + multiset(tiles))[x];
    }
  }

  /** Taking one tile out of one category's row removes exactly that tile from the collection. */
  lemma RemoveKeepsRest(cats: seq<Category>, k: nat, tiles: seq<Tile>, t: Tile)
    requires k < |cats| && multiset(tiles) + multiset{t} == multiset(cats[k].tiles)
    ensures AllTiles(cats[k := cats[k].(tiles := tiles)]) + multiset{t} == AllTiles(cats)
  {
    var a := AllTiles(cats[k := cats[k].(tiles := tiles)]);
    AllTilesUpdate(cats, k, tiles);
    forall x
      ensures (a + multiset{t})[x] == AllTiles(cats)[x]
    {
      assert (a + multiset(cats[k].tiles))[x] == (AllTiles(cats) + multiset(tiles))[x];
      assert (multiset(tiles) + multiset{t})[x] == multiset(cats[k].tiles)[x];
    }
  }

  /**
   * Replacing one category's row by one that lost the tiles `removed` and gained the tiles
   * `added` changes the collection by exactly that.
   */
  lemma ReplaceRow(cats: seq<Category>, k: nat, tiles: seq<Tile>, removed: multiset<Tile>, added: multiset<Tile>)
    requires k < |cats| && multiset(tiles) + removed == multiset(cats[k].tiles) + added
    ensures AllTiles(cats[k := cats[k].(tiles := tiles)]) + removed == AllTiles(cats) + added
  {
    var a := AllTiles(cats[k := cats[k].(tiles := tiles)]);
    AllTilesUpdate(cats, k, tiles);
    forall x
      ensures (a + removed)[x] == (AllTiles(cats) + added)[x]
    {
      assert (a + multiset(cats[k].tiles))[x] == (AllTiles(cats) + multiset(tiles))[x];
      assert (multiset(tiles) + removed)[x] == (multiset(cats[k].tiles) + added)[x];
    }
  }

  /** Moving a tile out of one row and into another keeps the whole collection. */
  lemma MoveKeepsAll(a0: multiset<Tile>, a1: multiset<Tile>, a2: multiset<Tile>,
                     from: multiset<Tile>, left: multiset<Tile>, into: multiset<Tile>, t: Tile)
    requires a1 + from == a0 + left && left + multiset{t} == from
    requires a2 + into == a1 + (into + multiset{t})
    ensures a2 == a0
  {
    forall x
      ensures a2[x] == a0[x]
    {
      assert (a2 + into)[x] == (a1 + (into + multiset{t}))[x];
      assert (a1 + from)[x] == (a0 + left)[x];
      assert (left + multiset{t})[x] == from[x];
    }
  }
}
