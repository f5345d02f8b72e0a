/**
 * The tile editor: the route chooses the tile to edit, the form edits it, `save` stores it in
 * the category it names, and `addCategory` adds a category. The tile being edited is the very
 * object held in its category's row, so every change of the form shows there too.
 */
module EditTile {
  import opened Wrappers
  import opened Tiles

  /** Where an edited tile lives: position `at` in the `categories` object, index in its row. */
  datatype Slot = Slot(at: nat, index: nat)

  /**
   * The tile the route `/edit-tile/:category/:tile` names: the category parameter is a
   * non-empty existing key and the tile parameter is below that row's length.
   */
  function RouteSlot(cats: seq<Category>, category: Option<string>, tile: Option<nat>): (r: Option<Slot>)
    ensures r.Some? <==> && category.Some? && category.value != "" && Find(cats, category.value).Some?
                         && tile.Some? && tile.value < |cats[Find(cats, category.value).value].tiles|
    ensures r.Some? ==> && r.value.at < |cats| && cats[r.value.at].name == category.value
                        && r.value.index == tile.value && r.value.index < |cats[r.value.at].tiles|
  {
    if category.Some? && category.value != "" && tile.Some? then
      match Find(cats, category.value)
      case Some(k) => if tile.value < |cats[k].tiles| then Some(Slot(k, tile.value)) else None
      case None => None
    else None
  }

  /** How `save` ends: the categories it stores, or the run-time failure that stops it. */
  datatype SaveOutcome =
    | Stored(categories: seq<Category>)
    /** `categories[tile.category]` is `undefined`: reading its `tiles` throws. */
    | NoCategory
    /** An index past the end of the row, which leaves a hole in the array. */
    | PastEnd

  /**
   * `save` as written: with a tile route parameter the tile is written at that index of the
   * row of the category it names, otherwise it is pushed onto that row.
   */
  function SaveAsWritten(cats: seq<Category>, routeTile: Option<nat>, t: Tile): (r: SaveOutcome)
    ensures r.NoCategory? <==> Find(cats, t.category).None?
    ensures r.Stored? ==> var k := Find(cats, t.category).value;
            && |r.categories| == |cats|
            && (forall j :: 0 <= j < |cats| && j != k ==> r.categories[j] == cats[j])
            && r.categories[k].name == cats[k].name && r.categories[k].order == cats[k].order
            && r.categories[k].transient == cats[k].transient
            && if routeTile.Some? && routeTile.value < |cats[k].tiles|
               then r.categories[k].tiles == cats[k].tiles[routeTile.value := t]
               else r.categories[k].tiles == cats[k].tiles + [t]
    ensures r.PastEnd? <==> && Find(cats, t.category).Some? && routeTile.Some?
                            && routeTile.value > |cats[Find(cats, t.category).value].tiles|
  {
    match Find(cats, t.category)
    case None => NoCategory
    case Some(k) =>
      var row := cats[k].tiles;
      if routeTile.None? then Stored(cats[k := cats[k].(tiles := row + [t])])
      else if routeTile.value < |row| then Stored(cats[k := cats[k].(tiles := row[routeTile.value := t])])
      else if routeTile.value == |row| then Stored(cats[k := cats[k].(tiles := row + [t])])
      else PastEnd
  }

  /**
   * The defect: a tile loaded from one category and given another one is written over the
   * tile at the same index of the new category, and stays in the old one as well, so that
   * tile is lost and the edited one is held twice.
   */
  lemma SaveAsWrittenDuplicates(cats: seq<Category>, o: Slot, t: Tile)
    requires o.at < |cats| && o.index < |cats[o.at].tiles| && cats[o.at].tiles[o.index] == t
    requires Find(cats, t.category).Some? && Find(cats, t.category).value != o.at
    requires o.index < |cats[Find(cats, t.category).value].tiles|
    ensures var d := Find(cats, t.category).value;
            var r := SaveAsWritten(cats, Some(o.index), t);
            && r.Stored?
            && r.categories[o.at].tiles[o.index] == t && r.categories[d].tiles[o.index] == t
            && AllTiles(r.categories) + multiset{cats[d].tiles[o.index]} == AllTiles(cats) + multiset{t}
  {
    var d := Find(cats, t.category).value;
    var row := cats[d].tiles;
    var lost := row[o.index];
    assert row == row[..o.index] + [lost] + row[o.index + 1..];
    assert row[o.index := t] == row[..o.index] + [t] + row[o.index + 1..];
    ReplaceRow(cats, d, row[o.index := t], multiset{lost}, multiset{t});
  }

  /** A concrete instance: two one-tile categories, the first tile moved to the second one. */
  lemma SaveAsWrittenExample()
    ensures var a0 := Tile("a0", "A", false, "a");
            var b0 := Tile("b0", "B", false, "b");
            var edited := a0.(category := "B");
            var cats := [Category("A", 1, false, [edited]), Category("B", 2, false, [b0])];
            SaveAsWritten(cats, Some(0), edited)
              == Stored([Category("A", 1, false, [edited]), Category("B", 2, false, [edited])])
  {
    var b0 := Tile("b0", "B", false, "b");
    var edited := Tile("a0", "A", false, "a").(category := "B");
    var cats := [Category("A", 1, false, [edited]), Category("B", 2, false, [b0])];
    assert cats[0].name != "B" && cats[1].name == "B";
    assert Find(cats[1..], "B") == Some(0);
    assert Find(cats, "B") == Some(1);
    assert cats[1].tiles[0 := edited] == [edited];
  }

  /**
   * `save` as evidently intended: a tile that keeps its category is written back in place, one
   * that changes category leaves its old row and joins the end of the new one, and a new tile
   * is pushed onto its category.
   */
  function SaveCorrected(cats: seq<Category>, origin: Option<Slot>, t: Tile): (r: Option<seq<Category>>)
    requires origin.Some? ==> origin.value.at < |cats| && origin.value.index < |cats[origin.value.at].tiles|
    ensures r.None? <==> Find(cats, t.category).None?
    ensures r.Some? ==> |r.value| == |cats|
  {
    match Find(cats, t.category)
    case None => None
    case Some(d) =>
      if origin.Some? && origin.value.at == d then
        Some(cats[d := cats[d].(tiles := cats[d].tiles[origin.value.index := t])])
      else if origin.Some? then
        var o := origin.value;
        var left := cats[o.at := cats[o.at].(tiles := RemoveAt(cats[o.at].tiles, o.index))];
        Some(left[d := left[d].(tiles := left[d].tiles + [t])])
      else Some(cats[d := cats[d].(tiles := cats[d].tiles + [t])])
  }

  /** A tile saved back into the category it was loaded from replaces itself there. */
  lemma SaveInPlace(cats: seq<Category>, o: Slot, t: Tile)
    requires o.at < |cats| && o.index < |cats[o.at].tiles| && Find(cats, t.category) == Some(o.at)
    ensures var r := SaveCorrected(cats, Some(o), t).value;
            && r[o.at].tiles[o.index] == t
            && AllTiles(r) + multiset{cats[o.at].tiles[o.index]} == AllTiles(cats) + multiset{t}
  {
    var row := cats[o.at].tiles;
    UpdateSwapsOne(row, o.index, t);
    ReplaceRow(cats, o.at, row[o.index := t], multiset{row[o.index]}, multiset{t});
  }

  /** A tile saved into another category leaves its old row and joins the end of the new one. */
  lemma SaveMoves(cats: seq<Category>, o: Slot, t: Tile)
    requires o.at < |cats| && o.index < |cats[o.at].tiles|
    requires Find(cats, t.category).Some? && Find(cats, t.category).value != o.at
    ensures var r := SaveCorrected(cats, Some(o), t).value;
            var d := Find(cats, t.category).value;
            && r[d].tiles == cats[d].tiles + [t]
            && r[o.at].tiles == RemoveAt(cats[o.at].tiles, o.index)
            && AllTiles(r) + multiset{cats[o.at].tiles[o.index]} == AllTiles(cats) + multiset{t}
  {
    var d := Find(cats, t.category).value;
    var row := cats[d].tiles;
    var old_ := cats[o.at].tiles[o.index];
    var removed := RemoveAt(cats[o.at].tiles, o.index);
    var left := cats[o.at := cats[o.at].(tiles := removed)];
    RemoveKeepsRest(cats, o.at, removed, old_);
    assert left[d].tiles == row;
    var r := left[d := left[d].(tiles := row + [t])];
    assert SaveCorrected(cats, Some(o), t).value == r;
    ReplaceRow(left, d, row + [t], multiset{}, multiset{t});
    assert AllTiles(r) + multiset{} == AllTiles(r);
    calc {
      AllTiles(r) + multiset{old_};
      (AllTiles(left) + multiset{t}) + multiset{old_};
      (AllTiles(left) + multiset{old_}) + multiset{t};
      AllTiles(cats) + multiset{t};
    }
  }

  /** A new tile joins the end of its category's row. */
  lemma SaveAdds(cats: seq<Category>, t: Tile)
    requires Find(cats, t.category).Some?
    ensures var r := SaveCorrected(cats, None, t).value;
            var d := Find(cats, t.category).value;
            && r[d].tiles == cats[d].tiles + [t]
            && AllTiles(r) == AllTiles(cats) + multiset{t}
  {
    var d := Find(cats, t.category).value;
    ReplaceRow(cats, d, cats[d].tiles + [t], multiset{}, multiset{t});
  }

  /**
   * With the editor's sharing (the slot holds the edited tile itself), the corrected `save`
   * neither loses nor duplicates a tile, wherever the tile goes.
   */
  lemma SaveCorrectedKeepsAll(cats: seq<Category>, o: Slot, t: Tile)
    requires o.at < |cats| && o.index < |cats[o.at].tiles| && cats[o.at].tiles[o.index] == t
    requires Find(cats, t.category).Some?
    ensures AllTiles(SaveCorrected(cats, Some(o), t).value) == AllTiles(cats)
  {
    var r := SaveCorrected(cats, Some(o), t).value;
    if Find(cats, t.category).value == o.at {
      SaveInPlace(cats, o, t);
    } else {
      SaveMoves(cats, o, t);
    }
    forall x
      ensures AllTiles(r)[x] == AllTiles(cats)[x]
    {
      assert (AllTiles(r) + multiset{t})[x] == (AllTiles(cats) + multiset{t})[x];
    }
  }

  /**
   * `filterTransient`: the categories that are not transient, in their order. A category's
   * `transient` flag is absent (false) unless it is built at run time.
   */
  function FilterTransient(cats: seq<Category>): (r: seq<Category>)
    ensures |r| <= |cats|
    ensures forall c :: c in r <==> c in cats && !c.transient
  {
    if cats == [] then []
    else if cats[0].transient then FilterTransient(cats[1..])
    else [cats[0]] + FilterTransient(cats[1..])
  }

  /** Filtering distributes over concatenation, so the kept categories keep their order. */
  lemma {:induction false} FilterTransientConcat(a: seq<Category>, b: seq<Category>)
    ensures FilterTransient(a + b) == FilterTransient(a) + FilterTransient(b)
  {
    if a != [] {
      assert (a + b)[0] == a[0] && (a + b)[1..] == a[1..] + b;
      FilterTransientConcat(a[1..], b);
    } else {
      assert a + b == b;
    }
  }

  /** Filtering a filtered list changes nothing, and a list without transient categories is kept whole. */
  lemma {:induction false} FilterTransientKeeps(cats: seq<Category>)
    ensures (forall i :: 0 <= i < |cats| ==> !cats[i].transient) ==> FilterTransient(cats) == cats
    ensures FilterTransient(FilterTransient(cats)) == FilterTransient(cats)
  {
    if cats != [] {
      FilterTransientKeeps(cats[1..]);
      if !cats[0].transient {
        assert FilterTransient([cats[0]] + FilterTransient(cats[1..]))
            == [cats[0]] + FilterTransient(FilterTransient(cats[1..])) by {
          assert ([cats[0]] + FilterTransient(cats[1..]))[1..] == FilterTransient(cats[1..]);
        }
      }
    }
  }

  /** The tile editor's state. */
  class EditTileController {
    /** The `categories` object of the settings, once loaded. */
    var categories: seq<Category>
    /** The tile the form edits. */
    var tile: Tile
    /** The slot `tile` was loaded from: `tile` is that very object of the row. */
    var origin: Option<Slot>
    /** The route parameters `category` and `tile`. */
    const routeCategory: Option<string>
    const routeTile: Option<nat>

    /** The shared tile is the one its slot holds. */
    ghost predicate Valid()
      reads this
    {
      origin.Some? ==> && origin.value.at < |categories|
                       && origin.value.index < |categories[origin.value.at].tiles|
                       && categories[origin.value.at].tiles[origin.value.index] == tile
    }

    /** A fresh editor on a blank tile (its colours are not modelled), before the settings load. */
    constructor (routeCategory: Option<string>, routeTile: Option<nat>)
      ensures this.routeCategory == routeCategory && this.routeTile == routeTile
      ensures categories == [] && tile == Tile("", "", false, "") && origin == None
      ensures Valid()
    {
      this.routeCategory := routeCategory;
      this.routeTile := routeTile;
      categories := [];
      tile := Tile("", "", false, "");
      origin := None;
    }

    /**
     * The settings arrive: a missing `categories` object becomes an empty one, and the tile
     * the route names, if it exists, becomes the tile being edited.
     */
    method Load(settings: Option<seq<Category>>)
      modifies this
      ensures categories == (if settings.Some? then settings.value else [])
      ensures origin == RouteSlot(categories, routeCategory, routeTile)
      ensures tile == if origin.Some? then categories[origin.value.at].tiles[origin.value.index] else old(tile)
      ensures Valid()
    {
      categories := if settings.Some? then settings.value else [];
      origin := RouteSlot(categories, routeCategory, routeTile);
      if origin.Some? {
        tile := categories[origin.value.at].tiles[origin.value.index];
      }
    }

    /** The form changes the tile: the row it was loaded from sees the change. */
    method Edit(t: Tile)
      requires Valid()
      modifies this
      ensures tile == t && origin == old(origin)
      ensures categories == if origin.Some?
                            then var o := origin.value;
                                 old(categories)[o.at := old(categories)[o.at].(tiles := old(categories)[o.at].tiles[o.index := t])]
                            else old(categories)
      ensures Valid()
    {
      if origin.Some? {
        var o := origin.value;
        categories := categories[o.at := categories[o.at].(tiles := categories[o.at].tiles[o.index := t])];
      }
      tile := t;
    }

    /** `save` of the tile being edited, as written (see `SaveAsWritten`). */
    method Save() returns (outcome: SaveOutcome)
      modifies this
      ensures outcome == SaveAsWritten(old(categories), routeTile, tile)
      ensures categories == if outcome.Stored? then outcome.categories else old(categories)
      ensures tile == old(tile) && origin == old(origin)
    {
      outcome := SaveAsWritten(categories, routeTile, tile);
      var k := Find(categories, tile.category);
      if k.Some? {
        var row := categories[k.value].tiles;
        if routeTile.Some? {
          if routeTile.value < |row| {
            categories := categories[k.value := categories[k.value].(tiles := row[routeTile.value := tile])];
          } else if routeTile.value == |row| {
            categories := categories[k.value := categories[k.value].(tiles := row + [tile])];
          }
        } else {
          categories := categories[k.value := categories[k.value].(tiles := row + [tile])];
        }
      }
    }

    /**
     * `addCategory` after the dialog returns `name`: an existing name only becomes the tile's
     * category; a new one is added, empty, with order 1 when it is the only category and
     * otherwise `laterOrder` (the value the order computation yields), and becomes the tile's
     * category.
     */
    method AddCategory(name: string, laterOrder: int)
      requires Valid()
      modifies this
      ensures origin == old(origin) && tile == old(tile).(category := name)
      ensures Find(old(categories), name).Some? ==>
                categories == if origin.Some?
                              then var o := origin.value;
                                   old(categories)[o.at := old(categories)[o.at].(tiles := old(categories)[o.at].tiles[o.index := tile])]
                              else old(categories)
      ensures Find(old(categories), name).None? ==>
                && |categories| == |old(categories)| + 1
                && categories[|old(categories)|]
                   == Category(name, if old(categories) == [] then 1 else laterOrder, false, [])
                && forall j :: 0 <= j < |old(categories)| ==>
                     categories[j] == if origin.Some? && j == origin.value.at
                                      then old(categories)[j].(tiles := old(categories)[j].tiles[origin.value.index := tile])
                                      else old(categories)[j]
      ensures Find(categories, name).Some?
      ensures Valid()
    {
      if Find(categories, name).None? {
        var added := Category(name, 0, false, []);
        categories := Put(categories, added);
        var k := |categories| - 1;
        var order := if |categories| == 1 then 1 else laterOrder;
        categories := categories[k := categories[k].(order := order)];
      }
      Edit(tile.(category := name));
    }
  }
}
