/**
 * The selection both `getRandomBackground` versions evidently intend: a random usable
 * background that is not the one shown last, probing each catalog entry at most once,
 * able to reach every entry, and failing only when no entry is usable. The draw picks
 * uniformly among the indices not yet probed, and the repeat test compares entries by
 * URL rather than by object identity.
 */
module FixedSelector {
  import opened Wrappers
  import opened Paths
  import opened Backgrounds

  /** A downloaded entry whose file is readable. */
  predicate Usable(e: Entry, dir: string, readable: set<string>)
  {
    e.downloaded && e.filename.Some? && Join(dir, e.filename.value) in readable
  }

  /** The entry at `i` is the background shown last time. */
  predicate IsLast(e: Entry, last: Option<Entry>)
  {
    last.Some? && e.url == last.value.url
  }

  function RemoveAt(s: seq<nat>, k: nat): (r: seq<nat>)
    requires k < |s|
    ensures |r| == |s| - 1
    ensures forall a :: 0 <= a < |r| ==> r[a] == s[if a < k then a else a + 1]
  {
    s[..k] + s[k + 1..]
  }

  /**
   * The probe loop: `draws(step) % |remaining|` chooses the next unprobed index; a usable
   * entry other than the last one is the answer; the last one, if usable, is kept as the
   * fallback.
   */
  function PickFrom(bgData: seq<Entry>, last: Option<Entry>, dir: string, readable: set<string>,
                    draws: nat -> nat, remaining: seq<nat>, step: nat, fallback: Option<nat>): (r: Option<nat>)
    requires forall a :: 0 <= a < |remaining| ==> remaining[a] < |bgData|
    requires fallback.Some? ==> fallback.value < |bgData| && Usable(bgData[fallback.value], dir, readable)
    ensures r.Some? ==> r.value < |bgData| && Usable(bgData[r.value], dir, readable)
    decreases |remaining|
  {
    if remaining == [] then fallback
    else
      var k := draws(step) % |remaining|;
      var i := remaining[k];
      var rest := RemoveAt(remaining, k);
      if !Usable(bgData[i], dir, readable) then PickFrom(bgData, last, dir, readable, draws, rest, step + 1, fallback)
      else if IsLast(bgData[i], last) then PickFrom(bgData, last, dir, readable, draws, rest, step + 1, Some(i))
      else Some(i)
  }

  function AllIndices(n: nat): (r: seq<nat>)
    ensures |r| == n && forall i :: 0 <= i < n ==> r[i] == i
  {
    seq(n, i => i)
  }

  /** The corrected selection over the whole catalog. */
  function Pick(bgData: seq<Entry>, last: Option<Entry>, dir: string, readable: set<string>, draws: nat -> nat): Option<nat>
  {
    PickFrom(bgData, last, dir, readable, draws, AllIndices(|bgData|), 0, None)
  }

  ghost predicate DistinctNats(s: seq<nat>)
  {
    forall a, b :: 0 <= a < b < |s| ==> s[a] != s[b]
  }

  lemma RemoveAtDistinct(s: seq<nat>, k: nat)
    requires k < |s| && DistinctNats(s)
    ensures DistinctNats(RemoveAt(s, k)) && s[k] !in RemoveAt(s, k)
    ensures forall x :: x in s && x != s[k] ==> x in RemoveAt(s, k)
  {
    var r := RemoveAt(s, k);
    forall a, b | 0 <= a < b < |r|
      ensures r[a] != r[b]
    {
      var a' := if a < k then a else a + 1;
      var b' := if b < k then b else b + 1;
      assert r[a] == s[a'] && r[b] == s[b'];
    }
    forall x | x in s && x != s[k]
      ensures x in r
    {
      var a :| 0 <= a < |s| && s[a] == x;
      assert r[if a < k then a else a - 1] == x;
    }
  }

  /**
   * The corrected selection fails exactly when nothing is usable, and it repeats the
   * last background only when no other entry is usable.
   */
  lemma {:induction false} PickFromContract(bgData: seq<Entry>, last: Option<Entry>, dir: string, readable: set<string>,
                                            draws: nat -> nat, remaining: seq<nat>, step: nat, fallback: Option<nat>)
    requires forall a :: 0 <= a < |remaining| ==> remaining[a] < |bgData|
    requires DistinctNats(remaining)
    requires fallback.Some? ==> fallback.value < |bgData| && Usable(bgData[fallback.value], dir, readable)
                                && IsLast(bgData[fallback.value], last)
    ensures var r := PickFrom(bgData, last, dir, readable, draws, remaining, step, fallback);
            && (r.None? <==> fallback.None? && forall x :: x in remaining ==> !Usable(bgData[x], dir, readable))
            && (r.Some? && IsLast(bgData[r.value], last) ==>
                  forall x :: x in remaining && Usable(bgData[x], dir, readable) ==> IsLast(bgData[x], last))
    decreases |remaining|
  {
    if remaining != [] {
      var k := draws(step) % |remaining|;
      var i := remaining[k];
      var rest := RemoveAt(remaining, k);
      RemoveAtDistinct(remaining, k);
      if !Usable(bgData[i], dir, readable) {
        PickFromContract(bgData, last, dir, readable, draws, rest, step + 1, fallback);
      } else if IsLast(bgData[i], last) {
        PickFromContract(bgData, last, dir, readable, draws, rest, step + 1, Some(i));
      }
    }
  }

  /** Over the whole catalog: no result exactly when no entry is usable; a repeat only when it is the only choice. */
  lemma PickContract(bgData: seq<Entry>, last: Option<Entry>, dir: string, readable: set<string>, draws: nat -> nat)
    ensures var r := Pick(bgData, last, dir, readable, draws);
            && (r.None? <==> forall i :: 0 <= i < |bgData| ==> !Usable(bgData[i], dir, readable))
            && (r.Some? ==> r.value < |bgData| && Usable(bgData[r.value], dir, readable))
            && (r.Some? && IsLast(bgData[r.value], last) ==>
                  forall i :: 0 <= i < |bgData| && Usable(bgData[i], dir, readable) ==> IsLast(bgData[i], last))
  {
    var all := AllIndices(|bgData|);
    assert forall i :: 0 <= i < |bgData| ==> i in all by {
      forall i | 0 <= i < |bgData| ensures i in all { assert all[i] == i; }
    }
    PickFromContract(bgData, last, dir, readable, draws, all, 0, None);
  }

  /** Every usable entry other than the last one can be chosen, including the last index. */
  lemma EveryUsableReachable(bgData: seq<Entry>, last: Option<Entry>, dir: string, readable: set<string>, j: nat)
    requires j < |bgData| && Usable(bgData[j], dir, readable) && !IsLast(bgData[j], last)
    ensures exists draws: nat -> nat :: Pick(bgData, last, dir, readable, draws) == Some(j)
  {
    var draws: nat -> nat := n => j;
    assert Pick(bgData, last, dir, readable, draws) == Some(j);
  }

  class BackgroundService {
    const dir: string
    /** The entry shown last, compared by URL. */
    var last: Option<Entry>

    constructor (dir: string)
      ensures this.dir == dir && last == None
    {
      this.dir := dir;
      last := None;
    }

    /** The corrected `getRandomBackground`: it always returns, and remembers what it showed. */
    method GetRandomBackground(bgData: seq<Entry>, readable: set<string>, draws: nat -> nat) returns (bg: Background?)
      modifies this
      ensures var r := Pick(bgData, old(last), dir, readable, draws);
              && (r.None? ==> bg == null && last == old(last))
              && (r.Some? ==> bg != null && fresh(bg) && bg.metadata == bgData[r.value] && last == Some(bgData[r.value])
                              && bg.filename == Join(dir, bgData[r.value].filename.value))
    {
      var remaining: seq<nat> := AllIndices(|bgData|);
      var step := 0;
      var fallback: Option<nat> := None;
      while remaining != []
        invariant forall a :: 0 <= a < |remaining| ==> remaining[a] < |bgData|
        invariant fallback.Some? ==> fallback.value < |bgData| && Usable(bgData[fallback.value], dir, readable)
        invariant Pick(bgData, last, dir, readable, draws) == PickFrom(bgData, last, dir, readable, draws, remaining, step, fallback)
        invariant last == old(last)
        decreases |remaining|
      {
        var k := draws(step) % |remaining|;
        var i := remaining[k];
        remaining := RemoveAt(remaining, k);
        step := step + 1;
        var e := bgData[i];
        if e.downloaded && e.filename.Some? && Join(dir, e.filename.value) in readable {
          if last.Some? && e.url == last.value.url {
            fallback := Some(i);
          } else {
            bg := new Background(Join(dir, e.filename.value), e);
            last := Some(e);
            return;
          }
        }
      }
      if fallback.Some? {
        var e := bgData[fallback.value];
        bg := new Background(Join(dir, e.filename.value), e);
        last := Some(e);
      } else {
        bg := null;
      }
    }
  }
}
