/**
 * The home screen controller (ui/scripts/controllers/home.js): an ordered list of categories,
 * each a row of tiles, a cursor over them, a move mode that carries the selected tile along,
 * and a category-editing mode that rearranges the categories themselves.
 *
 * `categoryList` holds references to the values of the `categories` object; here it holds their
 * positions in `categories`, so a category changed through one is changed for the other.
 */
module Home {
  import opened Wrappers
  import opened Tiles

  /** Every element is a position of `cats`. */
  ghost predicate Positions(cats: seq<Category>, s: seq<nat>)
  {
    forall i :: 0 <= i < |s| ==> s[i] < |cats|
  }

  ghost predicate Distinct(s: seq<nat>)
  {
    forall i, j :: 0 <= i < j < |s| ==> s[i] != s[j]
  }

  /** 0, 1, ..., n - 1. */
  function AllPositions(n: nat): (r: seq<nat>)
    ensures |r| == n
  {
    if n == 0 then [] else AllPositions(n - 1) + [n - 1]
  }

  /** Every position below `n` is among them. */
  lemma {:induction false} AllPositionsHas(n: nat, k: nat)
    requires k < n
    ensures k in multiset(AllPositions(n))
  {
    if k < n - 1 {
      AllPositionsHas(n - 1, k);
    }
    assert AllPositions(n) == AllPositions(n - 1) + [n - 1];
  }

  /** The positions below `n` whose `transient` flag is `t`, ascending: one half of `_.partition`. */
  function Side(cats: seq<Category>, t: bool, n: nat): seq<nat>
    requires n <= |cats|
  {
    if n == 0 then []
    else if cats[n - 1].transient == t then Side(cats, t, n - 1) + [n - 1]
    else Side(cats, t, n - 1)
  }

  /** Every element is a position below `n` whose flag is `t`. */
  ghost predicate Members(cats: seq<Category>, s: seq<nat>, t: bool, n: nat)
    requires n <= |cats|
  {
    forall i :: 0 <= i < |s| ==> s[i] < n && cats[s[i]].transient == t
  }

  /** A position below `n` with flag `t` extends a sequence of such positions below `n - 1`. */
  lemma MembersAppend(cats: seq<Category>, s: seq<nat>, t: bool, n: nat)
    requires 0 < n <= |cats| && Members(cats, s, t, n - 1) && cats[n - 1].transient == t
    ensures Members(cats, s + [n - 1], t, n)
  {
  }

  /** Each half holds positions below `n` whose flag is `t`. */
  lemma {:induction false} SideMembers(cats: seq<Category>, t: bool, n: nat)
    requires n <= |cats|
    ensures Members(cats, Side(cats, t, n), t, n)
  {
    if n > 0 {
      SideMembers(cats, t, n - 1);
      if cats[n - 1].transient == t {
        MembersAppend(cats, Side(cats, t, n - 1), t, n);
      }
    }
  }

  ghost predicate Ascending(s: seq<nat>)
  {
    forall i, j :: 0 <= i < j < |s| ==> s[i] < s[j]
  }

  /** An element above all others extends an ascending sequence. */
  lemma AscendingAppend(s: seq<nat>, x: nat)
    requires Ascending(s) && forall i :: 0 <= i < |s| ==> s[i] < x
    ensures Ascending(s + [x])
  {
  }

  /** Each half keeps the key order. */
  lemma {:induction false} SideAscending(cats: seq<Category>, t: bool, n: nat)
    requires n <= |cats|
    ensures Ascending(Side(cats, t, n))
  {
    if n > 0 {
      SideAscending(cats, t, n - 1);
      SideMembers(cats, t, n - 1);
      if cats[n - 1].transient == t {
        AscendingAppend(Side(cats, t, n - 1), n - 1);
      }
    }
  }

  /** Appending one element to either of two sequences appends it to their union. */
  lemma CoverStep(f: seq<nat>, t: seq<nat>, all: seq<nat>, f': seq<nat>, t': seq<nat>, all': seq<nat>, m: nat)
    requires multiset(f) + multiset(t) == multiset(all) && all' == all + [m]
    requires (f' == f + [m] && t' == t) || (f' == f && t' == t + [m])
    ensures multiset(f') + multiset(t') == multiset(all')
  {
  }

  /** The two halves of the partition together hold every position once. */
  lemma {:induction false} SidesCover(cats: seq<Category>, n: nat)
    requires n <= |cats|
    ensures multiset(Side(cats, false, n)) + multiset(Side(cats, true, n)) == multiset(AllPositions(n))
  {
    if n > 0 {
      var m: nat := n - 1;
      SidesCover(cats, m);
      CoverStep(Side(cats, false, m), Side(cats, true, m), AllPositions(m),
                Side(cats, false, n), Side(cats, true, n), AllPositions(n), m);
    }
  }

  /** `a` comes before `b` when sorting by `order`, ties kept in key order (`_.sortBy` is stable). */
  predicate OrderBefore(cats: seq<Category>, a: nat, b: nat)
    requires a < |cats| && b < |cats|
  {
    cats[a].order < cats[b].order || (cats[a].order == cats[b].order && a < b)
  }

  ghost predicate SortedByOrder(cats: seq<Category>, s: seq<nat>)
    requires Positions(cats, s)
  {
    forall i, j :: 0 <= i < j < |s| ==> OrderBefore(cats, s[i], s[j])
  }

  /** One step of the stable sort: `x` goes after every element whose order is not larger. */
  function InsertByOrder(cats: seq<Category>, sorted: seq<nat>, x: nat): (r: seq<nat>)
    requires Positions(cats, sorted) && x < |cats|
    ensures Positions(cats, r)
  {
    if sorted == [] then [x]
    else
      var last := sorted[|sorted| - 1];
      if cats[last].order <= cats[x].order then sorted + [x]
      else InsertByOrder(cats, sorted[..|sorted| - 1], x) + [last]
  }

  /** Inserting adds exactly `x`. */
  lemma {:induction false} InsertByOrderPerm(cats: seq<Category>, sorted: seq<nat>, x: nat)
    requires Positions(cats, sorted) && x < |cats|
    ensures multiset(InsertByOrder(cats, sorted, x)) == multiset(sorted) + multiset{x}
  {
    if sorted != [] {
      var last := sorted[|sorted| - 1];
      var init := sorted[..|sorted| - 1];
      assert sorted == init + [last];
      if cats[last].order > cats[x].order {
        InsertByOrderPerm(cats, init, x);
      }
    }
  }

  /** `_.sortBy(s, 'order')` as an insertion sort. */
  function SortByOrder(cats: seq<Category>, s: seq<nat>): (r: seq<nat>)
    requires Positions(cats, s)
    ensures Positions(cats, r)
  {
    if s == [] then []
    else InsertByOrder(cats, SortByOrder(cats, s[..|s| - 1]), s[|s| - 1])
  }

  /** Sorting rearranges: the result holds exactly the elements of `s`. */
  lemma {:induction false} SortByOrderPerm(cats: seq<Category>, s: seq<nat>)
    requires Positions(cats, s)
    ensures multiset(SortByOrder(cats, s)) == multiset(s)
  {
    if s != [] {
      var init := s[..|s| - 1];
      assert s == init + [s[|s| - 1]];
      SortByOrderPerm(cats, init);
      InsertByOrderPerm(cats, SortByOrder(cats, init), s[|s| - 1]);
    }
  }

  /** Inserting a position larger than all sorted ones keeps the sequence sorted. */
  lemma {:induction false} InsertByOrderSorted(cats: seq<Category>, sorted: seq<nat>, x: nat)
    requires Positions(cats, sorted) && x < |cats| && SortedByOrder(cats, sorted)
    requires forall i :: 0 <= i < |sorted| ==> sorted[i] < x
    ensures SortedByOrder(cats, InsertByOrder(cats, sorted, x))
  {
    if sorted == [] {
    } else {
      var last := sorted[|sorted| - 1];
      var init := sorted[..|sorted| - 1];
      assert sorted == init + [last];
      if cats[last].order > cats[x].order {
        InsertByOrderSorted(cats, init, x);
        var ins := InsertByOrder(cats, init, x);
        InsertByOrderPerm(cats, init, x);
        InsertedFrom(ins, init, x);
        forall i | 0 <= i < |ins|
          ensures OrderBefore(cats, ins[i], last)
        {
          if ins[i] != x {
            var k :| 0 <= k < |init| && init[k] == ins[i];
            assert sorted[k] == ins[i];
          }
        }
        SortedAppend(cats, ins, last);
      } else {
        forall i | 0 <= i < |sorted|
          ensures OrderBefore(cats, sorted[i], x)
        {
          if i < |sorted| - 1 {
            assert OrderBefore(cats, sorted[i], last);
          }
        }
        SortedAppend(cats, sorted, x);
      }
    }
  }

  /** Each element of a rearrangement of `s` comes from `s`. */
  lemma PermutedFrom(r: seq<nat>, s: seq<nat>)
    requires multiset(r) == multiset(s)
    ensures forall i :: 0 <= i < |r| ==> r[i] in s
  {
    forall i | 0 <= i < |r|
      ensures r[i] in s
    {
      assert r[i] in multiset(r);
    }
  }

  /** Each element of a sequence holding `s` and `x` is `x` or comes from `s`. */
  lemma InsertedFrom(r: seq<nat>, s: seq<nat>, x: nat)
    requires multiset(r) == multiset(s) + multiset{x}
    ensures forall i :: 0 <= i < |r| ==> r[i] == x || r[i] in s
  {
    forall i | 0 <= i < |r|
      ensures r[i] == x || r[i] in s
    {
      assert r[i] in multiset(r);
    }
  }

  /** A position ordered after all of a sorted sequence extends it. */
  lemma SortedAppend(cats: seq<Category>, s: seq<nat>, y: nat)
    requires Positions(cats, s) && y < |cats| && SortedByOrder(cats, s)
    requires forall i :: 0 <= i < |s| ==> OrderBefore(cats, s[i], y)
    ensures Positions(cats, s + [y]) && SortedByOrder(cats, s + [y])
  {
  }


  /** Sorting an ascending sequence of positions sorts by order, and keeps ties ascending. */
  lemma {:induction false} SortByOrderSorted(cats: seq<Category>, s: seq<nat>)
    requires Positions(cats, s) && Ascending(s)
    ensures SortedByOrder(cats, SortByOrder(cats, s))
  {
    if s != [] {
      var init := s[..|s| - 1];
      var x := s[|s| - 1];
      SortByOrderSorted(cats, init);
      var sorted := SortByOrder(cats, init);
      SortByOrderPerm(cats, init);
      PermutedFrom(sorted, init);
      forall i | 0 <= i < |sorted|
        ensures sorted[i] < x
      {
        var k :| 0 <= k < |init| && init[k] == sorted[i];
        assert s[k] == sorted[i];
      }
      InsertByOrderSorted(cats, sorted, x);
    }
  }

  /**
   * The arrangement of the category list as a strict order on positions: non-transient
   * categories before transient ones; non-transient ones by `order`, ties in key order;
   * transient ones in key order.
   */
  predicate ListedBefore(cats: seq<Category>, a: nat, b: nat)
    requires a < |cats| && b < |cats|
  {
    if cats[a].transient != cats[b].transient then !cats[a].transient
    else if cats[a].transient then a < b
    else OrderBefore(cats, a, b)
  }

  ghost predicate Ranked(cats: seq<Category>, s: seq<nat>)
    requires Positions(cats, s)
  {
    forall i, j :: 0 <= i < j < |s| ==> ListedBefore(cats, s[i], s[j])
  }

  /**
   * `makeCategoryList`: the non-transient categories sorted by `order`, followed by the
   * transient ones in key order.
   */
  function MakeCategoryList(cats: seq<Category>): (r: seq<nat>)
    ensures Positions(cats, r)
  {
    SideMembers(cats, false, |cats|);
    SideMembers(cats, true, |cats|);
    SortByOrder(cats, Side(cats, false, |cats|)) + Side(cats, true, |cats|)
  }

  /** Sorted non-transient positions followed by ascending transient ones are ranked. */
  lemma RankedConcat(cats: seq<Category>, a: seq<nat>, b: seq<nat>)
    requires Positions(cats, a) && Positions(cats, b) && SortedByOrder(cats, a)
    requires forall i :: 0 <= i < |a| ==> !cats[a[i]].transient
    requires forall i :: 0 <= i < |b| ==> cats[b[i]].transient
    requires Ascending(b)
    ensures Positions(cats, a + b) && Ranked(cats, a + b)
  {
    var r := a + b;
    forall i, j | 0 <= i < j < |r|
      ensures ListedBefore(cats, r[i], r[j])
    {
      if j < |a| {
        assert r[i] == a[i] && r[j] == a[j];
      } else if i >= |a| {
        assert r[i] == b[i - |a|] && r[j] == b[j - |a|];
      } else {
        assert r[i] == a[i] && r[j] == b[j - |a|];
      }
    }
  }

  /** A rearranged first half followed by the second still covers the whole. */
  lemma ConcatCover(a: seq<nat>, f: seq<nat>, t: seq<nat>, all: seq<nat>)
    requires multiset(a) == multiset(f) && multiset(f) + multiset(t) == multiset(all)
    ensures multiset(a + t) == multiset(all) && |a + t| == |all|
  {
    assert |multiset(a + t)| == |a + t|;
  }

  /** The list holds every category exactly once. */
  lemma MakeCategoryListCovers(cats: seq<Category>)
    ensures var r := MakeCategoryList(cats); multiset(r) == multiset(AllPositions(|cats|)) && |r| == |cats|
  {
    var n := |cats|;
    SidesCover(cats, n);
    SideMembers(cats, false, n);
    SortByOrderPerm(cats, Side(cats, false, n));
    ConcatCover(SortByOrder(cats, Side(cats, false, n)), Side(cats, false, n), Side(cats, true, n), AllPositions(n));
  }

  /** The list is ranked. */
  lemma MakeCategoryListRanked(cats: seq<Category>)
    ensures Ranked(cats, MakeCategoryList(cats))
  {
    var n := |cats|;
    var side := Side(cats, false, n);
    SideMembers(cats, false, n);
    SideMembers(cats, true, n);
    var a := SortByOrder(cats, side);
    SideAscending(cats, false, n);
    SideAscending(cats, true, n);
    SortByOrderSorted(cats, side);
    SortByOrderPerm(cats, side);
    PermutedFrom(a, side);
    forall i | 0 <= i < |a|
      ensures !cats[a[i]].transient
    {
      var k :| 0 <= k < |side| && side[k] == a[i];
    }
    RankedConcat(cats, a, Side(cats, true, n));
  }

  /** The list holds every category exactly once, ranked. */
  lemma MakeCategoryListContract(cats: seq<Category>)
    ensures var r := MakeCategoryList(cats);
            && multiset(r) == multiset(AllPositions(|cats|)) && |r| == |cats| && Ranked(cats, r)
  {
    MakeCategoryListCovers(cats);
    MakeCategoryListRanked(cats);
  }

  /** A ranked sequence has no repeats. */
  lemma RankedDistinct(cats: seq<Category>, s: seq<nat>)
    requires Positions(cats, s) && Ranked(cats, s)
    ensures Distinct(s)
  {
    forall i, j | 0 <= i < j < |s|
      ensures s[i] != s[j]
    {
      assert ListedBefore(cats, s[i], s[j]);
    }
  }

  /** Two ranked arrangements of the same positions start alike. */
  lemma RankedHeads(cats: seq<Category>, a: seq<nat>, b: seq<nat>)
    requires Positions(cats, a) && Positions(cats, b) && Ranked(cats, a) && Ranked(cats, b)
    requires a != [] && b != [] && multiset(a) == multiset(b)
    ensures a[0] == b[0]
  {
    assert a[0] in multiset(b) && b[0] in multiset(a);
    var k :| 0 <= k < |b| && b[k] == a[0];
    var m :| 0 <= m < |a| && a[m] == b[0];
    if k != 0 {
      assert false;
    }
  }

  /** Dropping the head keeps a sequence ranked. */
  lemma RankedTail(cats: seq<Category>, a: seq<nat>)
    requires a != [] && Positions(cats, a) && Ranked(cats, a)
    ensures Positions(cats, a[1..]) && Ranked(cats, a[1..])
  {
    var t := a[1..];
    forall i, j | 0 <= i < j < |t|
      ensures ListedBefore(cats, t[i], t[j])
    {
      assert t[i] == a[i + 1] && t[j] == a[j + 1];
    }
  }

  /** Two ranked arrangements of the same positions are the same sequence. */
  lemma {:induction false} RankedUnique(cats: seq<Category>, a: seq<nat>, b: seq<nat>)
    requires Positions(cats, a) && Positions(cats, b) && Ranked(cats, a) && Ranked(cats, b)
    requires multiset(a) == multiset(b)
    ensures a == b
  {
    assert |a| == |multiset(a)| == |b|;
    if a != [] {
      RankedHeads(cats, a, b);
      RankedTail(cats, a);
      RankedTail(cats, b);
      var ta, tb := a[1..], b[1..];
      assert a == [a[0]] + ta && b == [b[0]] + tb;
      assert multiset(ta) == multiset(tb) by {
        assert multiset(ta) == multiset(a) - multiset{a[0]};
        assert multiset(tb) == multiset(b) - multiset{b[0]};
      }
      RankedUnique(cats, ta, tb);
    }
  }

  /** The category list is the one ranked arrangement of all the categories. */
  lemma CategoryListCharacterised(cats: seq<Category>, s: seq<nat>)
    requires Positions(cats, s) && multiset(s) == multiset(AllPositions(|cats|))
    ensures s == MakeCategoryList(cats) <==> Ranked(cats, s)
  {
    MakeCategoryListContract(cats);
    if Ranked(cats, s) {
      RankedUnique(cats, s, MakeCategoryList(cats));
    }
  }

  /**
   * When the positions split into ordinary ones `f` and transient ones `t`, a transient
   * position lies in `t`, so anything followed by `t` ends on a transient category.
   */
  lemma EndsOnSecond(cats: seq<Category>, a: seq<nat>, f: seq<nat>, t: seq<nat>, all: seq<nat>, k: nat)
    requires Members(cats, f, false, |cats|) && Members(cats, t, true, |cats|)
    requires multiset(f) + multiset(t) == multiset(all) && k in multiset(all)
    requires k < |cats| && cats[k].transient
    ensures |a + t| > 0 && (a + t)[|a + t| - 1] < |cats| && cats[(a + t)[|a + t| - 1]].transient
  {
    assert k in multiset(t);
    assert (a + t)[|a + t| - 1] == t[|t| - 1];
  }

  /** With a transient category present, the list ends on a transient category. */
  lemma ListEndsTransient(cats: seq<Category>, k: nat)
    requires k < |cats| && cats[k].transient
    ensures var r := MakeCategoryList(cats); |r| == |cats| && cats[r[|r| - 1]].transient
  {
    var n := |cats|;
    SidesCover(cats, n);
    SideMembers(cats, false, n);
    SideMembers(cats, true, n);
    AllPositionsHas(n, k);
    EndsOnSecond(cats, SortByOrder(cats, Side(cats, false, n)), Side(cats, false, n), Side(cats, true, n), AllPositions(n), k);
    MakeCategoryListCovers(cats);
  }

  /** No two non-transient categories share an `order`. */
  ghost predicate DistinctOrders(cats: seq<Category>)
  {
    forall i, j :: 0 <= i < |cats| && 0 <= j < |cats| && i != j && !cats[i].transient && !cats[j].transient
      ==> cats[i].order != cats[j].order
  }

  /** The arrange handlers' three assignments: categories `a` and `b` trade their `order` values. */
  function SwapOrders(cats: seq<Category>, a: nat, b: nat): seq<Category>
    requires a < |cats| && b < |cats|
  {
    cats[a := cats[a].(order := cats[b].order)][b := cats[b].(order := cats[a].order)]
  }

  /** Between two different categories the swap is symmetric. */
  lemma SwapOrdersSymmetric(cats: seq<Category>, a: nat, b: nat)
    requires a < |cats| && b < |cats| && a != b
    ensures SwapOrders(cats, a, b) == SwapOrders(cats, b, a)
  {
  }

  /** Trading orders keeps names, flags and rows, and keeps the orders distinct. */
  lemma SwapOrdersKeeps(cats: seq<Category>, a: nat, b: nat)
    requires a < |cats| && b < |cats|
    ensures var r := SwapOrders(cats, a, b);
            && |r| == |cats|
            && forall k :: 0 <= k < |cats| ==> r[k].name == cats[k].name && r[k].transient == cats[k].transient
                                               && r[k].tiles == cats[k].tiles
    ensures AllTiles(SwapOrders(cats, a, b)) == AllTiles(cats)
    ensures DistinctOrders(cats) && !cats[a].transient && !cats[b].transient ==> DistinctOrders(SwapOrders(cats, a, b))
  {
    var r := SwapOrders(cats, a, b);
    SameRowsSameTiles(r, cats);
    if DistinctOrders(cats) && !cats[a].transient && !cats[b].transient {
      forall i, j | 0 <= i < |r| && 0 <= j < |r| && i != j && !r[i].transient && !r[j].transient
        ensures r[i].order != r[j].order
      {
        assert !cats[i].transient && !cats[j].transient;
      }
    }
  }

  /** Trading orders and rebuilding the list gives a valid list over the same tiles. */
  lemma SwapAndRebuild(cats: seq<Category>, a: nat, b: nat)
    requires a < |cats| && b < |cats|
    ensures var c := SwapOrders(cats, a, b);
            var r := MakeCategoryList(c);
            && |c| == |cats| && |r| == |c| && Positions(c, r) && Distinct(r)
            && AllTiles(c) == AllTiles(cats)
  {
    var c := SwapOrders(cats, a, b);
    SwapOrdersKeeps(cats, a, b);
    MakeCategoryListContract(c);
    RankedDistinct(c, MakeCategoryList(c));
  }

  /**
   * Arranging either member of a neighbouring pair of ordinary categories with the other
   * one swaps the pair in the rebuilt list, and the orders stay distinct.
   */
  lemma ArrangePair(cats: seq<Category>, p: nat, a: nat, b: nat)
    requires DistinctOrders(cats)
    requires p + 1 < |MakeCategoryList(cats)|
    requires !cats[MakeCategoryList(cats)[p]].transient && !cats[MakeCategoryList(cats)[p + 1]].transient
    requires var l := MakeCategoryList(cats);
             (a == l[p] && b == l[p + 1]) || (a == l[p + 1] && b == l[p])
    ensures MakeCategoryList(SwapOrders(cats, a, b)) == Swap(MakeCategoryList(cats), p, p + 1)
    ensures DistinctOrders(SwapOrders(cats, a, b))
  {
    var l := MakeCategoryList(cats);
    MakeCategoryListContract(cats);
    RankedDistinct(cats, l);
    assert l[p] != l[p + 1];
    SwapOrdersSymmetric(cats, a, b);
    ArrangeSwapsNeighbours(cats, p);
    SwapOrdersKeeps(cats, l[p], l[p + 1]);
  }

  /** Categories with the same rows hold the same tiles. */
  lemma {:induction false} SameRowsSameTiles(x: seq<Category>, y: seq<Category>)
    requires |x| == |y| && forall k :: 0 <= k < |x| ==> x[k].tiles == y[k].tiles
    ensures AllTiles(x) == AllTiles(y)
  {
    if x != [] {
      SameRowsSameTiles(x[..|x| - 1], y[..|y| - 1]);
    }
  }

  /** Facts about the neighbours of the pair `p`, `p + 1` in a ranked list with distinct orders. */
  lemma RankedAround(cats: seq<Category>, l: seq<nat>, p: nat, q: nat)
    requires Positions(cats, l) && Ranked(cats, l) && Distinct(l) && DistinctOrders(cats)
    requires p + 1 < |l| && !cats[l[p]].transient && !cats[l[p + 1]].transient && q < |l|
    ensures cats[l[p]].order < cats[l[p + 1]].order
    ensures q < p ==> !cats[l[q]].transient && cats[l[q]].order < cats[l[p]].order
    ensures q > p + 1 ==> cats[l[q]].transient || cats[l[q]].order > cats[l[p + 1]].order
  {
    assert ListedBefore(cats, l[p], l[p + 1]);
    if q < p {
      assert ListedBefore(cats, l[q], l[p]);
    }
    if q > p + 1 {
      assert ListedBefore(cats, l[p + 1], l[q]);
    }
  }

  /** After the orders are traded, the list with the pair swapped is ranked. */
  lemma SwappedRanked(cats: seq<Category>, l: seq<nat>, p: nat)
    requires Positions(cats, l) && Ranked(cats, l) && Distinct(l) && DistinctOrders(cats)
    requires p + 1 < |l| && !cats[l[p]].transient && !cats[l[p + 1]].transient
    ensures Positions(SwapOrders(cats, l[p], l[p + 1]), Swap(l, p, p + 1))
    ensures Ranked(SwapOrders(cats, l[p], l[p + 1]), Swap(l, p, p + 1))
  {
    var x, y := l[p], l[p + 1];
    var c2 := SwapOrders(cats, x, y);
    var s := Swap(l, p, p + 1);
    RankedAround(cats, l, p, p);
    forall i, j | 0 <= i < j < |s|
      ensures ListedBefore(c2, s[i], s[j])
    {
      RankedAround(cats, l, p, i);
      RankedAround(cats, l, p, j);
      if i == p && j == p + 1 {
        assert s[i] == y && s[j] == x;
      } else if i < p {
        assert s[i] == l[i] && l[i] != x && l[i] != y;
        if j > p + 1 {
          assert s[j] == l[j] && l[j] != x && l[j] != y;
          assert ListedBefore(cats, l[i], l[j]);
        }
      } else if i <= p + 1 {
        assert s[j] == l[j] && l[j] != x && l[j] != y;
      } else {
        assert s[i] == l[i] && s[j] == l[j];
        assert l[i] != x && l[i] != y && l[j] != x && l[j] != y;
        assert ListedBefore(cats, l[i], l[j]);
      }
    }
  }

  /**
   * Trading the orders of two neighbouring non-transient categories and rebuilding the list
   * swaps exactly those two entries of the list, when no two categories share an order.
   */
  lemma ArrangeSwapsNeighbours(cats: seq<Category>, p: nat)
    requires DistinctOrders(cats)
    requires p + 1 < |MakeCategoryList(cats)|
    requires !cats[MakeCategoryList(cats)[p]].transient && !cats[MakeCategoryList(cats)[p + 1]].transient
    ensures var l := MakeCategoryList(cats);
            MakeCategoryList(SwapOrders(cats, l[p], l[p + 1])) == Swap(l, p, p + 1)
  {
    var l := MakeCategoryList(cats);
    MakeCategoryListContract(cats);
    RankedDistinct(cats, l);
    SwappedRanked(cats, l, p);
    var c2 := SwapOrders(cats, l[p], l[p + 1]);
    var s := Swap(l, p, p + 1);
    assert multiset(s) == multiset(AllPositions(|c2|));
    CategoryListCharacterised(c2, s);
  }

  /** The System category `init` installs: transient, with its four fixed tiles. */
  function SystemCategory(order: int): Category
  {
    Category("System", order, true, [
      Tile("Add Tile", "System", true, "about:farnsworth/add-tile"),
      Tile("Edit Categories", "System", true, "about:farnsworth/edit-categories"),
      Tile("Settings", "System", true, "about:farnsworth/app-settings"),
      Tile("Exit", "System", true, "about:farnsworth/exit")])
  }

  /** Only the System category is transient. */
  ghost predicate TransientOnlySystem(cats: seq<Category>)
  {
    forall i :: 0 <= i < |cats| && cats[i].transient ==> cats[i].name == "System"
  }

  /** The part of the controller that the up and down keys change. */
  datatype Cursor = Cursor(categories: seq<Category>, categoryIndex: int, tileIndex: int, tile: Option<Tile>)

  /**
   * The cursor going from list position `cur.categoryIndex` to position `to`. While moving,
   * the carried tile leaves its row and enters the new row at the same index, or at its end
   * when the row is shorter; otherwise the index is clamped to the new row (to -1 when it is
   * empty) and the tile under it, if any, is selected.
   */
  function StepCategory(cur: Cursor, list: seq<nat>, to: nat, moving: bool): Cursor
    requires Positions(cur.categories, list) && 0 <= cur.categoryIndex < |list| && to < |list|
    requires moving ==> 0 <= cur.tileIndex < |cur.categories[list[cur.categoryIndex]].tiles| && cur.tile.Some?
  {
    var c := list[cur.categoryIndex];
    var d := list[to];
    if moving then
      var cats := cur.categories[c := cur.categories[c].(tiles := RemoveAt(cur.categories[c].tiles, cur.tileIndex))];
      var row := cats[d].tiles;
      var i := if cur.tileIndex < |row| then cur.tileIndex else |row|;
      Cursor(cats[d := cats[d].(tiles := InsertAt(row, i, cur.tile.value))], to, i, cur.tile)
    else
      var row := cur.categories[d].tiles;
      var i := if cur.tileIndex >= |row| then |row| - 1 else cur.tileIndex;
      Cursor(cur.categories, to, i, At(row, i))
  }

  /**
   * A step while moving, between two different categories, changes only the two rows: the
   * carried tile sits under the cursor in the new row, at its old index or at the end of a
   * shorter row.
   */
  lemma StepCarriesTile(cur: Cursor, list: seq<nat>, to: nat)
    requires Positions(cur.categories, list) && 0 <= cur.categoryIndex < |list| && to < |list|
    requires list[cur.categoryIndex] != list[to]
    requires var row := cur.categories[list[cur.categoryIndex]].tiles;
             0 <= cur.tileIndex < |row| && cur.tile == Some(row[cur.tileIndex])
    ensures var r := StepCategory(cur, list, to, true);
            var c, d := list[cur.categoryIndex], list[to];
            && |r.categories| == |cur.categories| && r.categoryIndex == to && r.tile == cur.tile
            && 0 <= r.tileIndex < |r.categories[d].tiles|
            && r.categories[d].tiles[r.tileIndex] == cur.tile.value
            && r.tileIndex == (if cur.tileIndex < |cur.categories[d].tiles| then cur.tileIndex
                               else |cur.categories[d].tiles|)
            && forall k :: 0 <= k < |cur.categories| && k != c && k != d ==> r.categories[k] == cur.categories[k]
  {
    var c, d := list[cur.categoryIndex], list[to];
    var removed := RemoveAt(cur.categories[c].tiles, cur.tileIndex);
    var cats := cur.categories[c := cur.categories[c].(tiles := removed)];
    assert cats[d] == cur.categories[d];
  }

  /** A step while moving, between two different categories, keeps every tile. */
  lemma {:induction false} StepKeepsTiles(cur: Cursor, list: seq<nat>, to: nat)
    requires Positions(cur.categories, list) && 0 <= cur.categoryIndex < |list| && to < |list|
    requires list[cur.categoryIndex] != list[to]
    requires var row := cur.categories[list[cur.categoryIndex]].tiles;
             0 <= cur.tileIndex < |row| && cur.tile == Some(row[cur.tileIndex])
    ensures AllTiles(StepCategory(cur, list, to, true).categories) == AllTiles(cur.categories)
  {
    var c, d := list[cur.categoryIndex], list[to];
    var t := cur.tile.value;
    var removed := RemoveAt(cur.categories[c].tiles, cur.tileIndex);
    var cats := cur.categories[c := cur.categories[c].(tiles := removed)];
    var row := cats[d].tiles;
    assert row == cur.categories[d].tiles;
    var i := if cur.tileIndex < |row| then cur.tileIndex else |row|;
    var inserted := InsertAt(row, i, t);
    var final := cats[d := cats[d].(tiles := inserted)];
    assert StepCategory(cur, list, to, true).categories == final;
    AllTilesUpdate(cur.categories, c, removed);
    AllTilesUpdate(cats, d, inserted);
    MoveKeepsAll(AllTiles(cur.categories), AllTiles(cats), AllTiles(final),
                 multiset(cur.categories[c].tiles), multiset(removed), multiset(row), t);
  }

  /**
   * A step without moving changes nothing but the cursor, and a cursor that was on a tile
   * lands on a tile whenever the new row has one.
   */
  lemma StepSelects(cur: Cursor, list: seq<nat>, to: nat)
    requires Positions(cur.categories, list) && 0 <= cur.categoryIndex < |list| && to < |list|
    ensures var r := StepCategory(cur, list, to, false);
            var row := cur.categories[list[to]].tiles;
            && r.categories == cur.categories && r.categoryIndex == to
            && (0 <= cur.tileIndex && row != [] ==> 0 <= r.tileIndex < |row| && r.tile == Some(row[r.tileIndex]))
  {
  }

  /**
   * `selectProperCategoryTile` on row `c`: the index is kept when the row is long enough and
   * otherwise clamped to its last tile, or to just past it while carrying; a carried tile
   * enters the row at the index; the tile under the index is selected.
   */
  function ProperTile(cur: Cursor, c: nat, carry: bool): Cursor
    requires c < |cur.categories| && (carry ==> 0 <= cur.tileIndex && cur.tile.Some?)
  {
    var row, i := cur.categories[c].tiles, cur.tileIndex;
    var idx := if i < |row| then i else if carry then |row| else |row| - 1;
    var tiles := if !carry then row else if i < |row| then InsertAt(row, i, cur.tile.value) else row + [cur.tile.value];
    var cats := if carry then cur.categories[c := cur.categories[c].(tiles := tiles)] else cur.categories;
    Cursor(cats, cur.categoryIndex, idx, At(tiles, idx))
  }

  /**
   * Carrying, the tile joins row `c` under the cursor and nothing else changes; otherwise only
   * the cursor changes, and it lands on a tile whenever the row has one.
   */
  lemma ProperTileSelects(cur: Cursor, c: nat, carry: bool)
    requires c < |cur.categories| && (carry ==> 0 <= cur.tileIndex && cur.tile.Some?)
    ensures var r := ProperTile(cur, c, carry);
            var row := cur.categories[c].tiles;
            && |r.categories| == |cur.categories| && r.categoryIndex == cur.categoryIndex
            && (forall k :: 0 <= k < |cur.categories| && k != c ==> r.categories[k] == cur.categories[k])
            && (0 <= cur.tileIndex < |row| ==> r.tileIndex == cur.tileIndex)
            && (carry ==> && multiset(r.categories[c].tiles) == multiset(row) + multiset{cur.tile.value}
                          && 0 <= r.tileIndex < |r.categories[c].tiles| && r.tile == cur.tile
                          && r.categories[c].tiles[r.tileIndex] == cur.tile.value)
            && (!carry ==> && r.categories == cur.categories
                           && (0 <= cur.tileIndex && row != [] ==> 0 <= r.tileIndex < |row| && r.tile == Some(row[r.tileIndex])))
  {
    var row := cur.categories[c].tiles;
    if carry && cur.tileIndex >= |row| {
      assert InsertAt(row, |row|, cur.tile.value) == row + [cur.tile.value];
    }
  }

  /**
   * A step is the splice out of the old row followed by `selectProperCategoryTile` on the new
   * one, with the cursor on the new list position.
   */
  lemma StepIsProperTile(cur: Cursor, list: seq<nat>, to: nat, moving: bool)
    requires Positions(cur.categories, list) && 0 <= cur.categoryIndex < |list| && to < |list|
    requires list[cur.categoryIndex] != list[to]
    requires moving ==> 0 <= cur.tileIndex < |cur.categories[list[cur.categoryIndex]].tiles| && cur.tile.Some?
    ensures var c, d := list[cur.categoryIndex], list[to];
            var mid := if moving then cur.categories[c := cur.categories[c].(tiles := RemoveAt(cur.categories[c].tiles, cur.tileIndex))]
                       else cur.categories;
            StepCategory(cur, list, to, moving) == ProperTile(Cursor(mid, to, cur.tileIndex, cur.tile), d, moving)
  {
    var d := list[to];
    if moving {
      var c := list[cur.categoryIndex];
      var mid := cur.categories[c := cur.categories[c].(tiles := RemoveAt(cur.categories[c].tiles, cur.tileIndex))];
      var row := mid[d].tiles;
      assert InsertAt(row, |row|, cur.tile.value) == row + [cur.tile.value];
    }
  }

  /** System last: with only System transient, `init` leaves it at the end of the list. */
  lemma SystemListedLast(cats: seq<Category>, order: int)
    requires UniqueNames(cats) && TransientOnlySystem(cats)
    ensures var r := Put(cats, SystemCategory(order)); var l := MakeCategoryList(r);
            |l| == |r| && r[l[|l| - 1]] == SystemCategory(order)
  {
    var sys := SystemCategory(order);
    var r := Put(cats, sys);
    var k := if Find(cats, "System").Some? then Find(cats, "System").value else |cats|;
    assert r[k] == sys;
    ListEndsTransient(r, k);
    var l := MakeCategoryList(r);
    var last := l[|l| - 1];
    assert last == k;
  }

  /** What `init` relies on about the list it builds. */
  lemma InitListFacts(cats: seq<Category>, order: int)
    ensures var r := Put(cats, SystemCategory(order)); var l := MakeCategoryList(r);
            && |l| == |r| && Positions(r, l) && Distinct(l)
            && (UniqueNames(cats) && TransientOnlySystem(cats) ==> r[l[|l| - 1]] == SystemCategory(order))
  {
    var r := Put(cats, SystemCategory(order));
    MakeCategoryListContract(r);
    RankedDistinct(r, MakeCategoryList(r));
    if UniqueNames(cats) && TransientOnlySystem(cats) {
      SystemListedLast(cats, order);
    }
  }

  /**
   * The tile-mode 'right' key on row `c`: unless the cursor is on the last tile (or past it),
   * it moves one to the right; while moving, the carried tile trades places with its right
   * neighbour and stays selected.
   */
  function RightStep(cur: Cursor, c: nat, moving: bool): Cursor
    requires c < |cur.categories|
    requires moving ==> 0 <= cur.tileIndex < |cur.categories[c].tiles|
  {
    var row, i := cur.categories[c].tiles, cur.tileIndex;
    if i >= |row| - 1 then cur
    else if moving then cur.(categories := cur.categories[c := cur.categories[c].(tiles := Swap(row, i, i + 1))], tileIndex := i + 1)
    else cur.(tileIndex := i + 1, tile := At(row, i + 1))
  }

  /** The tile-mode 'left' key, the mirror image of 'right': nothing happens at index 0 or below. */
  function LeftStep(cur: Cursor, c: nat, moving: bool): Cursor
    requires c < |cur.categories|
    requires moving ==> 0 <= cur.tileIndex < |cur.categories[c].tiles|
  {
    var row, i := cur.categories[c].tiles, cur.tileIndex;
    if i <= 0 then cur
    else if moving then cur.(categories := cur.categories[c := cur.categories[c].(tiles := Swap(row, i, i - 1))], tileIndex := i - 1)
    else cur.(tileIndex := i - 1, tile := At(row, i - 1))
  }

  /** The carried tile is the one under the cursor in row `c`. */
  ghost predicate Carried(cur: Cursor, c: nat)
    requires c < |cur.categories|
  {
    var row := cur.categories[c].tiles;
    0 <= cur.tileIndex < |row| && cur.tile == Some(row[cur.tileIndex])
  }

  /** Swapping two elements back undoes the swap. */
  lemma SwapBack<T>(s: seq<T>, i: nat, j: nat)
    requires i < |s| && j < |s|
    ensures Swap(Swap(s, i, j), j, i) == s
  {
  }

  /**
   * 'right' keeps every other row, and the carried tile stays under the cursor; the cursor
   * moves one right exactly when it was before the last tile.
   */
  lemma RightStepKeeps(cur: Cursor, c: nat, moving: bool)
    requires c < |cur.categories| && (moving ==> Carried(cur, c))
    ensures var r := RightStep(cur, c, moving);
            && |r.categories| == |cur.categories|
            && (forall k :: 0 <= k < |cur.categories| && k != c ==> r.categories[k] == cur.categories[k])
            && (moving ==> Carried(r, c))
            && r.tileIndex == if cur.tileIndex < |cur.categories[c].tiles| - 1 then cur.tileIndex + 1 else cur.tileIndex
  {
    var row, i := cur.categories[c].tiles, cur.tileIndex;
    if moving && i < |row| - 1 {
      var sw := Swap(row, i, i + 1);
      var cats := cur.categories[c := cur.categories[c].(tiles := sw)];
      assert RightStep(cur, c, moving) == cur.(categories := cats, tileIndex := i + 1);
      assert cats[c].tiles[i + 1] == row[i];
    }
  }

  /** 'right' keeps every tile. */
  lemma RightStepKeepsTiles(cur: Cursor, c: nat, moving: bool)
    requires c < |cur.categories| && (moving ==> Carried(cur, c))
    ensures AllTiles(RightStep(cur, c, moving).categories) == AllTiles(cur.categories)
  {
    var row, i := cur.categories[c].tiles, cur.tileIndex;
    if moving && i < |row| - 1 {
      var sw := Swap(row, i, i + 1);
      assert RightStep(cur, c, moving).categories == cur.categories[c := cur.categories[c].(tiles := sw)];
      RearrangeKeepsAll(cur.categories, c, sw);
    } else {
      assert RightStep(cur, c, moving).categories == cur.categories;
    }
  }

  /** 'left' keeps every other row, and the carried tile stays under the cursor. */
  lemma LeftStepKeeps(cur: Cursor, c: nat, moving: bool)
    requires c < |cur.categories| && (moving ==> Carried(cur, c))
    ensures var r := LeftStep(cur, c, moving);
            && |r.categories| == |cur.categories|
            && (forall k :: 0 <= k < |cur.categories| && k != c ==> r.categories[k] == cur.categories[k])
            && (moving ==> Carried(r, c))
            && r.tileIndex == if cur.tileIndex > 0 then cur.tileIndex - 1 else cur.tileIndex
  {
    var row, i := cur.categories[c].tiles, cur.tileIndex;
    if moving && i > 0 {
      var sw := Swap(row, i, i - 1);
      var cats := cur.categories[c := cur.categories[c].(tiles := sw)];
      assert LeftStep(cur, c, moving) == cur.(categories := cats, tileIndex := i - 1);
      assert cats[c].tiles[i - 1] == row[i];
    }
  }

  /** 'left' keeps every tile. */
  lemma LeftStepKeepsTiles(cur: Cursor, c: nat, moving: bool)
    requires c < |cur.categories| && (moving ==> Carried(cur, c))
    ensures AllTiles(LeftStep(cur, c, moving).categories) == AllTiles(cur.categories)
  {
    var row, i := cur.categories[c].tiles, cur.tileIndex;
    if moving && i > 0 {
      var sw := Swap(row, i, i - 1);
      assert LeftStep(cur, c, moving).categories == cur.categories[c := cur.categories[c].(tiles := sw)];
      RearrangeKeepsAll(cur.categories, c, sw);
    } else {
      assert LeftStep(cur, c, moving).categories == cur.categories;
    }
  }

  /**
   * 'left' undoes 'right': the carried tile goes back to its place, and a selection made by
   * index comes back to the tile it was on.
   */
  lemma LeftUndoesRight(cur: Cursor, c: nat, moving: bool)
    requires c < |cur.categories| && 0 <= cur.tileIndex < |cur.categories[c].tiles| - 1
    requires (moving ==> Carried(cur, c)) && cur.tile == At(cur.categories[c].tiles, cur.tileIndex)
    ensures LeftStep(RightStep(cur, c, moving), c, moving) == cur
  {
    var row, i := cur.categories[c].tiles, cur.tileIndex;
    if moving {
      var sw := Swap(row, i, i + 1);
      var cats := cur.categories[c := cur.categories[c].(tiles := sw)];
      var mid := cur.(categories := cats, tileIndex := i + 1);
      assert RightStep(cur, c, true) == mid;
      assert mid.categories[c].tiles == sw;
      SwapBack(row, i, i + 1);
      assert LeftStep(mid, c, true) == mid.(categories := cats[c := cats[c].(tiles := row)], tileIndex := i);
      assert cats[c := cats[c].(tiles := row)] == cur.categories;
    } else {
      assert RightStep(cur, c, false) == cur.(tileIndex := i + 1, tile := At(row, i + 1));
    }
  }

  /**
   * The outcome of deleting the tile under the cursor: it leaves its row and nothing else
   * changes in the categories; the cursor goes down over the rows left empty to the first row
   * with tiles, and its index is clamped to that row, selecting the tile there.
   */
  ghost predicate DeletedFrom(before: Cursor, list: seq<nat>, after: Cursor)
    requires Positions(before.categories, list) && 0 <= before.categoryIndex < |list|
    requires 0 <= before.tileIndex < |before.categories[list[before.categoryIndex]].tiles|
  {
    var c := list[before.categoryIndex];
    var cats := before.categories;
    && after.categories == cats[c := cats[c].(tiles := RemoveAt(cats[c].tiles, before.tileIndex))]
    && before.categoryIndex <= after.categoryIndex < |list|
    && (forall k :: before.categoryIndex <= k < after.categoryIndex ==> after.categories[list[k]].tiles == [])
    && var row := after.categories[list[after.categoryIndex]].tiles;
       && |row| > 0
       && after.tileIndex == (if before.tileIndex < |row| then before.tileIndex else |row| - 1)
       && after.tile == Some(row[after.tileIndex])
  }

  /** Deleting removes exactly the deleted tile from the collection. */
  lemma DeletedRemovesOne(before: Cursor, list: seq<nat>, after: Cursor)
    requires Positions(before.categories, list) && 0 <= before.categoryIndex < |list|
    requires 0 <= before.tileIndex < |before.categories[list[before.categoryIndex]].tiles|
    requires DeletedFrom(before, list, after)
    ensures AllTiles(after.categories) + multiset{before.categories[list[before.categoryIndex]].tiles[before.tileIndex]}
            == AllTiles(before.categories)
  {
    var c := list[before.categoryIndex];
    var row := before.categories[c].tiles;
    RemoveKeepsRest(before.categories, c, RemoveAt(row, before.tileIndex), row[before.tileIndex]);
  }

  /** An ordinary tile's row is not the last listed one when that row is all transient. */
  lemma NotLastRow(cats: seq<Category>, list: seq<nat>, p: nat, i: nat)
    requires Positions(cats, list) && p < |list| && i < |cats[list[p]].tiles| && !cats[list[p]].tiles[i].transient
    requires var last := cats[list[|list| - 1]].tiles; forall j :: 0 <= j < |last| ==> last[j].transient
    ensures var c := list[p];
            cats[c := cats[c].(tiles := RemoveAt(cats[c].tiles, i))][list[|list| - 1]] == cats[list[|list| - 1]]
  {
  }

  /** The walk's result, clamped, is the outcome `DeletedFrom` describes. */
  lemma DeleteWalkLands(before: Cursor, list: seq<nat>, cats: seq<Category>, k: nat)
    requires Positions(before.categories, list) && 0 <= before.categoryIndex < |list|
    requires 0 <= before.tileIndex < |before.categories[list[before.categoryIndex]].tiles|
    requires var c := list[before.categoryIndex];
             cats == before.categories[c := before.categories[c].(tiles := RemoveAt(before.categories[c].tiles, before.tileIndex))]
    requires before.categoryIndex <= k < |list| && |cats[list[k]].tiles| > 0
    requires forall j :: before.categoryIndex <= j < k ==> cats[list[j]].tiles == []
    ensures var next := cats[list[k]].tiles;
            var i := if before.tileIndex >= |next| then |next| - 1 else before.tileIndex;
            DeletedFrom(before, list, Cursor(cats, k, i, Some(next[i])))
  {
  }

  /**
   * The `deleteTile` walk: from list position `from`, the first position whose category has
   * tiles, every one before it being empty. A non-empty last category bounds the walk.
   */
  method SkipEmpty(cats: seq<Category>, list: seq<nat>, from: nat) returns (k: nat)
    requires Positions(cats, list) && from < |list| && |cats[list[|list| - 1]].tiles| > 0
    ensures from <= k < |list| && |cats[list[k]].tiles| > 0
    ensures forall j :: from <= j < k ==> cats[list[j]].tiles == []
  {
    k := from;
    while |cats[list[k]].tiles| == 0
      invariant from <= k < |list|
      invariant forall j :: from <= j < k ==> cats[list[j]].tiles == []
      decreases |list| - k
    {
      k := k + 1;
    }
  }

  /**
   * The part of the controller that category mode changes: the categories, the list, the
   * cursor position and the selected category (`None` for the stop-editing option).
   */
  datatype Layout = Layout(categories: seq<Category>, list: seq<nat>, index: int, selected: Option<nat>)

  /**
   * A well-formed category-mode layout: the list is an arrangement of the categories, the
   * cursor is on it, a selection is one of the categories, and arranging keeps a selection.
   */
  ghost predicate Arranged(s: Layout, moving: bool)
  {
    && |s.list| == |s.categories| && Positions(s.categories, s.list) && Distinct(s.list)
    && 0 <= s.index < |s.list|
    && (s.selected.Some? ==> s.selected.value < |s.categories|)
    && (moving ==> s.selected.Some?)
  }

  /**
   * The category-mode 'up' key: while arranging, the selected category trades `order` with the
   * one listed above the cursor and the list is rebuilt; otherwise the cursor moves up and
   * selects what it lands on. At the top nothing changes.
   */
  function ArrangeUpStep(s: Layout, moving: bool): Layout
    requires Arranged(s, moving)
  {
    if s.index == 0 then s
    else if moving then
      var cats := SwapOrders(s.categories, s.selected.value, s.list[s.index - 1]);
      Layout(cats, MakeCategoryList(cats), s.index - 1, s.selected)
    else s.(index := s.index - 1, selected := Some(s.list[s.index - 1]))
  }

  /**
   * The category-mode 'down' key, the mirror image of 'up', except that it stops one short of
   * the last listed category (the System one).
   */
  function ArrangeDownStep(s: Layout, moving: bool): Layout
    requires Arranged(s, moving)
  {
    if s.index >= |s.list| - 2 then s
    else if moving then
      var cats := SwapOrders(s.categories, s.selected.value, s.list[s.index + 1]);
      Layout(cats, MakeCategoryList(cats), s.index + 1, s.selected)
    else s.(index := s.index + 1, selected := Some(s.list[s.index + 1]))
  }

  /**
   * The pair at list positions `p`, `p + 1` consists of two ordinary categories of a layout
   * whose list is the one `makeCategoryList` builds and whose orders are distinct.
   */
  ghost predicate CanSwap(s: Layout, p: int)
  {
    && 0 <= p && p + 1 < |s.list|
    && s.list == MakeCategoryList(s.categories) && DistinctOrders(s.categories)
    && !s.categories[s.list[p]].transient && !s.categories[s.list[p + 1]].transient
  }

  /** 'up' keeps the layout well formed and every tile where it is. */
  lemma ArrangeUpKeeps(s: Layout, moving: bool)
    requires Arranged(s, moving)
    ensures var r := ArrangeUpStep(s, moving);
            && Arranged(r, moving) && AllTiles(r.categories) == AllTiles(s.categories)
            && (s.index > 0 ==> r.index == s.index - 1)
  {
    if s.index > 0 && moving {
      SwapAndRebuild(s.categories, s.selected.value, s.list[s.index - 1]);
    }
  }

  /**
   * Arranging the category under the cursor with an ordinary one listed above it swaps the
   * two in the list, keeps the selection under the cursor and keeps the orders distinct.
   */
  lemma ArrangeUpSwaps(s: Layout)
    requires Arranged(s, true) && s.index > 0 && CanSwap(s, s.index - 1) && s.selected == Some(s.list[s.index])
    ensures var r := ArrangeUpStep(s, true);
            && r.list == Swap(s.list, s.index - 1, s.index)
            && r.selected == Some(r.list[r.index])
            && DistinctOrders(r.categories)
  {
    var cats := SwapOrders(s.categories, s.selected.value, s.list[s.index - 1]);
    assert ArrangeUpStep(s, true) == Layout(cats, MakeCategoryList(cats), s.index - 1, s.selected);
    ArrangePair(s.categories, s.index - 1, s.selected.value, s.list[s.index - 1]);
  }

  /**
   * 'down' keeps the layout well formed and every tile where it is, and never brings the
   * cursor onto the last listed category.
   */
  lemma ArrangeDownKeeps(s: Layout, moving: bool)
    requires Arranged(s, moving)
    ensures var r := ArrangeDownStep(s, moving);
            && Arranged(r, moving) && AllTiles(r.categories) == AllTiles(s.categories)
            && (s.index < |s.list| - 1 ==> r.index < |r.list| - 1)
            && (s.index < |s.list| - 2 ==> r.index == s.index + 1)
  {
    if s.index < |s.list| - 2 && moving {
      SwapAndRebuild(s.categories, s.selected.value, s.list[s.index + 1]);
    }
  }

  /**
   * Arranging the category under the cursor with an ordinary one listed below it swaps the
   * two in the list, keeps the selection under the cursor and keeps the orders distinct.
   */
  lemma ArrangeDownSwaps(s: Layout)
    requires Arranged(s, true) && s.index < |s.list| - 2 && CanSwap(s, s.index) && s.selected == Some(s.list[s.index])
    ensures var r := ArrangeDownStep(s, true);
            && r.list == Swap(s.list, s.index, s.index + 1)
            && r.selected == Some(r.list[r.index])
            && DistinctOrders(r.categories)
  {
    var p, l := s.index, s.list;
    var a, b := l[p], l[p + 1];
    ArrangePair(s.categories, p, a, b);
    var sw := Swap(l, p, p + 1);
    assert sw[p + 1] == a;
  }

  class HomeController {
    /** The `categories` object of the settings, in key order. */
    var categories: seq<Category>
    /** The categories in display order, as positions in `categories`. */
    var categoryList: seq<nat>
    /** The highlighted category (a position in `categories`), or `null`. */
    var selectedCategory: Option<nat>
    var selectedCategoryIndex: int
    /** The highlighted tile; `None` stands for `null` and `undefined` alike. */
    var selectedTile: Option<Tile>
    var selectedTileIndex: int
    /** Arrange mode: the selected tile (or category) travels with the cursor. */
    var moving: bool
    var editingCategories: bool

    /** The controller's starting state over the categories read from the settings file. */
    constructor (categories: seq<Category>)
      ensures this.categories == categories && categoryList == [] && selectedCategory == None
      ensures selectedCategoryIndex == 0 && selectedTile == None && selectedTileIndex == 0
      ensures !moving && !editingCategories
    {
      this.categories := categories;
      categoryList := [];
      selectedCategory := None;
      selectedCategoryIndex := 0;
      selectedTile := None;
      selectedTileIndex := 0;
      moving := false;
      editingCategories := false;
    }

    function Snapshot(): Cursor
      reads this
    {
      Cursor(categories, selectedCategoryIndex, selectedTileIndex, selectedTile)
    }

    /** The list refers to every category once. */
    ghost predicate ListOk()
      reads this
    {
      |categoryList| == |categories| && Positions(categories, categoryList) && Distinct(categoryList)
    }

    /**
     * Tile mode: the cursor is on a listed category, and while moving the carried tile is the
     * one under the cursor.
     */
    ghost predicate Browsing()
      reads this
    {
      && ListOk() && !editingCategories
      && 0 <= selectedCategoryIndex < |categoryList|
      && selectedCategory == Some(categoryList[selectedCategoryIndex])
      && (moving ==> var row := categories[categoryList[selectedCategoryIndex]].tiles;
                     0 <= selectedTileIndex < |row| && selectedTile == Some(row[selectedTileIndex]))
    }

    /**
     * `init`: install the System category (its `order` is computed elsewhere), rebuild the
     * list, and re-select by the stored indices. `SystemListedLast` shows where System lands.
     */
    method Init(systemOrder: int)
      requires 0 <= selectedCategoryIndex < |Put(categories, SystemCategory(systemOrder))|
      modifies this
      ensures categories == Put(old(categories), SystemCategory(systemOrder))
      ensures categoryList == MakeCategoryList(categories) && ListOk()
      ensures selectedCategoryIndex == old(selectedCategoryIndex) && selectedTileIndex == old(selectedTileIndex)
      ensures selectedCategory == Some(categoryList[selectedCategoryIndex])
      ensures var row := categories[categoryList[selectedCategoryIndex]].tiles;
              selectedTile == if selectedTileIndex < |row| then At(row, selectedTileIndex) else old(selectedTile)
      ensures moving == old(moving) && editingCategories == old(editingCategories)
    {
      var cats := Put(categories, SystemCategory(systemOrder));
      var list := MakeCategoryList(cats);
      InitListFacts(categories, systemOrder);
      var row := cats[list[selectedCategoryIndex]].tiles;
      var tile := if |row| > selectedTileIndex then At(row, selectedTileIndex) else selectedTile;
      categories, categoryList, selectedCategory, selectedTile := cats, list, Some(list[selectedCategoryIndex]), tile;
    }

    /**
     * `selectProperCategoryTile`: clamp the index to the new row, and while moving (outside
     * category editing) put the carried tile into the row at the cursor.
     */
    method SelectProperCategoryTile()
      requires selectedCategory.Some? && selectedCategory.value < |categories|
      requires moving && !editingCategories ==> 0 <= selectedTileIndex && selectedTile.Some?
      modifies this
      ensures selectedCategory == old(selectedCategory) && selectedCategoryIndex == old(selectedCategoryIndex)
      ensures categoryList == old(categoryList) && moving == old(moving) && editingCategories == old(editingCategories)
      ensures Snapshot() == ProperTile(old(Snapshot()), old(selectedCategory).value, old(moving) && !old(editingCategories))
    {
      var c := selectedCategory.value;
      var row := categories[c].tiles;
      if selectedTileIndex >= |row| {
        if moving && !editingCategories {
          row := row + [selectedTile.value];
          categories := categories[c := categories[c].(tiles := row)];
        }
        selectedTileIndex := |row| - 1;
      } else if moving && !editingCategories {
        row := InsertAt(row, selectedTileIndex, selectedTile.value);
        categories := categories[c := categories[c].(tiles := row)];
      }
      selectedTile := At(row, selectedTileIndex);
    }
  
    /** 'right' in tile mode, as `RightStep` describes it, on the row under the cursor. */
    method Right()
      requires Browsing()
      modifies this
      ensures categoryList == old(categoryList) && selectedCategory == old(selectedCategory)
      ensures selectedCategoryIndex == old(selectedCategoryIndex)
      ensures moving == old(moving) && editingCategories == old(editingCategories)
      ensures Snapshot() == RightStep(old(Snapshot()), old(selectedCategory).value, moving)
      ensures AllTiles(categories) == old(AllTiles(categories))
      ensures Browsing()
    {
      var next := RightStep(Snapshot(), selectedCategory.value, moving);
      RightStepKeeps(Snapshot(), selectedCategory.value, moving);
      RightStepKeepsTiles(Snapshot(), selectedCategory.value, moving);
      categories, selectedTileIndex, selectedTile := next.categories, next.tileIndex, next.tile;
    }

    /** 'left' in tile mode, as `LeftStep` describes it, on the row under the cursor. */
    method Left()
      requires Browsing()
      modifies this
      ensures categoryList == old(categoryList) && selectedCategory == old(selectedCategory)
      ensures selectedCategoryIndex == old(selectedCategoryIndex)
      ensures moving == old(moving) && editingCategories == old(editingCategories)
      ensures Snapshot() == LeftStep(old(Snapshot()), old(selectedCategory).value, moving)
      ensures AllTiles(categories) == old(AllTiles(categories))
      ensures Browsing()
    {
      var next := LeftStep(Snapshot(), selectedCategory.value, moving);
      LeftStepKeeps(Snapshot(), selectedCategory.value, moving);
      LeftStepKeepsTiles(Snapshot(), selectedCategory.value, moving);
      categories, selectedTileIndex, selectedTile := next.categories, next.tileIndex, next.tile;
    }

    /**
     * Steps the cursor to list position `to` (the body shared by 'down' and 'up'): splice the
     * carried tile out of its row, select the new category, then `selectProperCategoryTile`.
     */
    method StepTo(to: nat)
      requires Browsing() && to < |categoryList| && to != selectedCategoryIndex
      modifies this
      ensures categoryList == old(categoryList) && moving == old(moving) && editingCategories == old(editingCategories)
      ensures selectedCategory == Some(categoryList[to])
      ensures Snapshot() == StepCategory(old(Snapshot()), old(categoryList), to, old(moving))
    {
      StepIsProperTile(Snapshot(), categoryList, to, moving);
      var c, d := selectedCategory.value, categoryList[to];
      var cats := categories;
      if moving {
        cats := cats[c := cats[c].(tiles := RemoveAt(cats[c].tiles, selectedTileIndex))];
      }
      categories, selectedCategoryIndex, selectedCategory := cats, to, Some(d);
      SelectProperCategoryTile();
    }

    /** 'down' in tile mode; a carried tile never enters a transient category. */
    method Down()
      requires Browsing()
      modifies this
      ensures categoryList == old(categoryList) && moving == old(moving) && editingCategories == old(editingCategories)
      ensures var k := old(selectedCategoryIndex);
              Snapshot() == if k < |old(categoryList)| - 1 && !(old(moving) && old(categories)[old(categoryList)[k + 1]].transient)
                            then StepCategory(old(Snapshot()), old(categoryList), k + 1, old(moving))
                            else old(Snapshot())
      ensures AllTiles(categories) == old(AllTiles(categories))
      ensures Browsing()
    {
      if selectedCategoryIndex < |categoryList| - 1 {
        if moving && categories[categoryList[selectedCategoryIndex + 1]].transient {
          return;
        }
        ghost var before := Snapshot();
        var to := selectedCategoryIndex + 1;
        if moving {
          StepCarriesTile(before, categoryList, to);
          StepKeepsTiles(before, categoryList, to);
        } else {
          StepSelects(before, categoryList, to);
        }
        StepTo(to);
      }
    }

    /** 'up' in tile mode, the mirror image of 'down'. */
    method Up()
      requires Browsing()
      modifies this
      ensures categoryList == old(categoryList) && moving == old(moving) && editingCategories == old(editingCategories)
      ensures var k := old(selectedCategoryIndex);
              Snapshot() == if k > 0 && !(old(moving) && old(categories)[old(categoryList)[k - 1]].transient)
                            then StepCategory(old(Snapshot()), old(categoryList), k - 1, old(moving))
                            else old(Snapshot())
      ensures AllTiles(categories) == old(AllTiles(categories))
      ensures Browsing()
    {
      if selectedCategoryIndex > 0 {
        if moving && categories[categoryList[selectedCategoryIndex - 1]].transient {
          return;
        }
        ghost var before := Snapshot();
        var to := selectedCategoryIndex - 1;
        if moving {
          StepCarriesTile(before, categoryList, to);
          StepKeepsTiles(before, categoryList, to);
        } else {
          StepSelects(before, categoryList, to);
        }
        StepTo(to);
      }
    }

    /** The part of the controller that category mode changes. */
    function Arrangement(): Layout
      reads this
    {
      Layout(categories, categoryList, selectedCategoryIndex, selectedCategory)
    }

    /** Category mode: a well-formed layout, with `editingCategories` set. */
    ghost predicate Arranging()
      reads this
    {
      editingCategories && Arranged(Arrangement(), moving)
    }

    /**
     * `editCategories(selectIndex)`: enter category mode selecting list position `selectIndex`
     * (the position is not stored), or, without one, the category one up from the cursor.
     */
    method EditCategories(selectIndex: Option<int>)
      requires ListOk()
      requires selectIndex.Some? ==> 0 <= selectIndex.value < |categoryList|
      requires selectIndex.None? ==> 0 < selectedCategoryIndex <= |categoryList|
      modifies this
      ensures categories == old(categories) && categoryList == old(categoryList) && moving == old(moving)
      ensures selectedTile == old(selectedTile) && selectedTileIndex == old(selectedTileIndex)
      ensures editingCategories
      ensures selectIndex.Some? ==> selectedCategoryIndex == old(selectedCategoryIndex)
                                    && selectedCategory == Some(categoryList[selectIndex.value])
      ensures selectIndex.None? ==> selectedCategoryIndex == old(selectedCategoryIndex) - 1
                                    && selectedCategory == Some(categoryList[selectedCategoryIndex])
      ensures 0 <= selectedCategoryIndex < |categoryList| ==> Arranging()
    {
      if selectIndex.Some? {
        selectedCategory := Some(categoryList[selectIndex.value]);
      } else {
        selectedCategoryIndex := selectedCategoryIndex - 1;
        selectedCategory := Some(categoryList[selectedCategoryIndex]);
      }
      editingCategories := true;
    }

    /** Category mode 'right': move the selection to the stop-editing option. */
    method EditRight()
      requires Arranging()
      modifies this
      ensures categories == old(categories) && categoryList == old(categoryList) && moving == old(moving)
      ensures selectedCategoryIndex == old(selectedCategoryIndex)
      ensures selectedTile == old(selectedTile) && selectedTileIndex == old(selectedTileIndex)
      ensures editingCategories == old(editingCategories)
      ensures selectedCategory == if old(moving) then old(selectedCategory) else None
      ensures Arranging()
    {
      if !moving && selectedCategory.Some? {
        selectedCategory := None;
      }
    }

    /** Category mode 'left': from the stop-editing option back to the category under the cursor. */
    method EditLeft()
      requires Arranging()
      modifies this
      ensures categories == old(categories) && categoryList == old(categoryList) && moving == old(moving)
      ensures selectedCategoryIndex == old(selectedCategoryIndex)
      ensures selectedTile == old(selectedTile) && selectedTileIndex == old(selectedTileIndex)
      ensures editingCategories == old(editingCategories)
      ensures selectedCategory == if !old(moving) && old(selectedCategory).None?
                                  then Some(categoryList[selectedCategoryIndex]) else old(selectedCategory)
      ensures Arranging()
    {
      if !moving && selectedCategory.None? {
        selectedCategory := Some(categoryList[selectedCategoryIndex]);
      }
    }

    /** Category mode 'up', as `ArrangeUpStep` describes it. */
    method ArrangeUp()
      requires Arranging()
      modifies this
      ensures moving == old(moving) && editingCategories == old(editingCategories)
      ensures selectedTile == old(selectedTile) && selectedTileIndex == old(selectedTileIndex)
      ensures Arrangement() == ArrangeUpStep(old(Arrangement()), moving)
      ensures Arranging()
    {
      var next := ArrangeUpStep(Arrangement(), moving);
      ArrangeUpKeeps(Arrangement(), moving);
      categories, categoryList, selectedCategoryIndex, selectedCategory := next.categories, next.list, next.index, next.selected;
    }

    /** Category mode 'down', as `ArrangeDownStep` describes it. */
    method ArrangeDown()
      requires Arranging()
      modifies this
      ensures moving == old(moving) && editingCategories == old(editingCategories)
      ensures selectedTile == old(selectedTile) && selectedTileIndex == old(selectedTileIndex)
      ensures Arrangement() == ArrangeDownStep(old(Arrangement()), moving)
      ensures Arranging()
    {
      var next := ArrangeDownStep(Arrangement(), moving);
      ArrangeDownKeeps(Arrangement(), moving);
      categories, categoryList, selectedCategoryIndex, selectedCategory := next.categories, next.list, next.index, next.selected;
    }

    /**
     * Category mode 'enter' on the stop-editing option: back to tile mode on the last listed
     * category, at tile index 1.
     */
    method FinishEditing()
      requires Arranging() && selectedCategory.None?
      modifies this
      ensures categories == old(categories) && categoryList == old(categoryList) && moving == old(moving)
      ensures !editingCategories
      ensures selectedCategoryIndex == |categoryList| - 1 && selectedTileIndex == 1
      ensures selectedTile == At(categories[categoryList[selectedCategoryIndex]].tiles, 1)
      ensures Browsing()
    {
      editingCategories := false;
      selectedCategoryIndex := |categoryList| - 1;
      selectedCategory := Some(categoryList[selectedCategoryIndex]);
      selectedTileIndex := 1;
      selectedTile := At(categories[selectedCategory.value].tiles, selectedTileIndex);
    }

    /**
     * The confirmed branch of `deleteTile`: the selected tile leaves its row, the cursor goes
     * down past categories left empty, and the index is clamped to the row it lands on. Delete
     * is offered only for tiles that are not transient, while not moving, and the last listed
     * category (System) holds transient tiles only and is never empty, so the walk stops there
     * at the latest.
     */
    method DeleteSelectedTile()
      requires Browsing() && !moving
      requires var row := categories[categoryList[selectedCategoryIndex]].tiles;
               0 <= selectedTileIndex < |row| && selectedTile == Some(row[selectedTileIndex])
               && !selectedTile.value.transient
      requires var last := categories[categoryList[|categoryList| - 1]].tiles;
               |last| > 0 && forall j :: 0 <= j < |last| ==> last[j].transient
      modifies this
      ensures categoryList == old(categoryList) && moving == old(moving) && editingCategories == old(editingCategories)
      ensures DeletedFrom(old(Snapshot()), categoryList, Snapshot())
      ensures Browsing()
    {
      ghost var before := Snapshot();
      var c, list := selectedCategory.value, categoryList;
      NotLastRow(categories, list, selectedCategoryIndex, selectedTileIndex);
      var cats := categories[c := categories[c].(tiles := RemoveAt(categories[c].tiles, selectedTileIndex))];
      var k := SkipEmpty(cats, list, selectedCategoryIndex);
      var next := cats[list[k]].tiles;
      var i := if selectedTileIndex >= |next| then |next| - 1 else selectedTileIndex;
      DeleteWalkLands(before, list, cats, k);
      categories, selectedCategoryIndex, selectedCategory, selectedTileIndex, selectedTile := cats, k, Some(list[k]), i, Some(next[i]);
    }
  }
}
