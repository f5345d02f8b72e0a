/**
 * The newer renderer-side background service (app/ui/scripts/services/backgrounds.js):
 * it restricts the catalog to downloaded entries, returns the first-available
 * background when nothing is downloaded, and otherwise probes random candidates,
 * remembering the checked indices and redrawing until it finds an unchecked one.
 */
module Selector {
  import opened Wrappers
  import opened Paths
  import opened Backgrounds

  const NotFound := "Unable to find background despite assurances that they exist."

  /** `_.filter(bgData, entry => entry.downloaded)`. */
  function Candidates(bgData: seq<Entry>): (c: seq<Entry>)
    ensures forall e :: e in c <==> e in bgData && e.downloaded
    ensures |c| <= |bgData|
  {
    if bgData == [] then []
    else (if bgData[0].downloaded then [bgData[0]] else []) + Candidates(bgData[1..])
  }

  /** The first redraw not in `checked`, and the draws left after it; `None` when every draw is checked. */
  function Redraw(checked: seq<int>, redraws: seq<int>): (r: Option<(int, seq<int>)>)
    ensures r.None? <==> forall j :: 0 <= j < |redraws| ==> redraws[j] in checked
    ensures r.Some? ==> r.value.0 !in checked && r.value.0 in redraws && |r.value.1| < |redraws|
    ensures r.Some? ==> forall k :: 0 <= k < |r.value.1| ==> r.value.1[k] in redraws
    ensures r.Some? ==> forall j :: 0 <= j < |redraws| ==>
              redraws[j] in checked || redraws[j] == r.value.0 || redraws[j] in r.value.1
  {
    if redraws == [] then None
    else if redraws[0] !in checked then
      assert forall j :: 1 <= j < |redraws| ==> redraws[j] == redraws[1..][j - 1];
      Some((redraws[0], redraws[1..]))
    else
      var r := Redraw(checked, redraws[1..]);
      assert forall j :: 1 <= j < |redraws| ==> redraws[j] == redraws[1..][j - 1];
      r
  }

  /** Every value a draw can take for a list of `len` entries is among `checked`. */
  predicate AllDrawn(checked: seq<int>, len: nat)
  {
    forall v :: 0 <= v < DrawCount(len) ==> v in checked
  }

  /**
   * How selection ends. `Stuck`: every value a draw can take is checked, so the redraw loop
   * can never exit. `OutOfDraws`: the supplied redraws ran out before any candidate was
   * accepted, while an unchecked index could still be drawn.
   */
  datatype Outcome = FromNotice | Picked(index: nat) | NoPick | Stuck | OutOfDraws | TypeFault

  /**
   * The probe loop from a state with the indices `checked` and the next index `index`:
   * check the candidate (a missing file name makes `path.join` throw), then redraw until
   * the index is unchecked, and only then test the loop condition; an accepted candidate
   * ends the loop. When the supplied redraws run out after an accepted candidate while an
   * unchecked index remains, the pick stands: the loop exits at the first draw of such an
   * index, which random draws reach with probability one.
   */
  function ProbeFrom(c: seq<Entry>, dir: string, readable: set<string>, checked: seq<int>, index: int,
                     redraws: seq<int>): (r: Outcome)
    ensures r.Picked? ==> && r.index < |c| && c[r.index].filename.Some?
                          && Join(dir, c[r.index].filename.value) in readable
    ensures r != FromNotice
    decreases |c| - |checked|
  {
    if |checked| >= |c| then NoPick
    else if !(0 <= index < |c|) || c[index].filename.None? then TypeFault
    else
      var accepted := Join(dir, c[index].filename.value) in readable;
      match Redraw(checked + [index], redraws)
      case None =>
        if AllDrawn(checked + [index], |c|) then Stuck
        else if accepted then Picked(index)
        else OutOfDraws
      case Some((next, rest)) =>
        if accepted then Picked(index)
        else ProbeFrom(c, dir, readable, checked + [index], next, rest)
  }

  /**
   * The whole selection: with some candidate the notice is discarded and probing starts
   * at `first`; with none, the notice's background (if any) is the result.
   */
  function Select(bgData: seq<Entry>, notice: Option<Entry>, dir: string, readable: set<string>,
                  first: int, redraws: seq<int>): Outcome
  {
    var c := Candidates(bgData);
    if |c| != 0 then ProbeFrom(c, dir, readable, [], first, redraws)
    else match notice
      case None => NoPick
      case Some(e) => if e.filename.None? then TypeFault else FromNotice
  }

  /** Every index draw lies in the range `Math.floor(Math.random() * (len - 1))` yields. */
  ghost predicate DrawsIn(first: int, redraws: seq<int>, len: nat)
  {
    InDrawRange(first, len) && forall j :: 0 <= j < |redraws| ==> InDrawRange(redraws[j], len)
  }

  /** No value occurs twice. */
  ghost predicate Distinct(s: seq<int>)
  {
    forall i, j :: 0 <= i < j < |s| ==> s[i] != s[j]
  }

  /** How many values an index draw can take for a non-empty list. */
  function DrawCount(len: nat): nat
  {
    if len <= 1 then 1 else len - 1
  }

  /** Pigeonhole: distinct values drawn from [0, m) number at most m. */
  lemma {:induction false} DistinctBound(s: seq<int>, m: nat)
    requires Distinct(s) && forall i :: 0 <= i < |s| ==> 0 <= s[i] < m
    ensures |s| <= m
    decreases |s|
  {
    if s != [] {
      var v := s[|s| - 1];
      var t := seq(|s| - 1, i requires 0 <= i < |s| - 1 => if s[i] > v then s[i] - 1 else s[i]);
      forall i, j | 0 <= i < j < |t|
        ensures t[i] != t[j]
      {
        assert s[i] != s[j] && s[i] != v && s[j] != v;
      }
      DistinctBound(t, m - 1);
    }
  }

  /**
   * From any reachable state of the probe loop (distinct checked indices and an
   * unchecked next index, all in the draw range) the loop never ends for lack of
   * candidates: the checked indices are at most `DrawCount(len) - 1 < len`, so the
   * bound `checked.length < bgData.length` is never what stops it. A TypeError needs
   * a candidate without a file name.
   */
  lemma {:induction false} ProbeNeverExhausts(c: seq<Entry>, dir: string, readable: set<string>, checked: seq<int>,
                                              index: int, redraws: seq<int>)
    requires |c| >= 1 && Distinct(checked) && index !in checked
    requires forall i :: 0 <= i < |checked| ==> InDrawRange(checked[i], |c|)
    requires InDrawRange(index, |c|) && forall j :: 0 <= j < |redraws| ==> InDrawRange(redraws[j], |c|)
    ensures ProbeFrom(c, dir, readable, checked, index, redraws) != NoPick
    ensures ProbeFrom(c, dir, readable, checked, index, redraws) == TypeFault ==>
              exists i :: 0 <= i < |c| && c[i].filename.None?
    decreases |c| - |checked|
  {
    var next := checked + [index];
    assert Distinct(next);
    DistinctBound(next, DrawCount(|c|));
    if 0 <= index < |c| && c[index].filename.Some? {
      match Redraw(next, redraws)
      case None =>
      case Some((n, rest)) =>
        var j :| 0 <= j < |redraws| && redraws[j] == n;
        ProbeNeverExhausts(c, dir, readable, next, n, rest);
    }
  }

  /**
   * The rejection is reachable only when no entry is downloaded and the first-available
   * notice carried nothing: with any candidate, probing never gives up.
   */
  lemma RejectsOnlyWithoutCandidates(bgData: seq<Entry>, notice: Option<Entry>, dir: string, readable: set<string>,
                                     first: int, redraws: seq<int>)
    requires DrawsIn(first, redraws, |Candidates(bgData)|)
    ensures Select(bgData, notice, dir, readable, first, redraws) == NoPick <==>
              |Candidates(bgData)| == 0 && notice.None?
  {
    if |Candidates(bgData)| != 0 {
      ProbeNeverExhausts(Candidates(bgData), dir, readable, [], first, redraws);
    }
  }

  /**
   * With one or two candidates every draw is 0, so after the first probe the redraw
   * loop can never find an unchecked index: the call never settles, even when that
   * probe succeeded.
   */
  lemma SmallCatalogHangs(bgData: seq<Entry>, notice: Option<Entry>, dir: string, readable: set<string>,
                          first: int, redraws: seq<int>)
    requires DrawsIn(first, redraws, |Candidates(bgData)|)
    requires 1 <= |Candidates(bgData)| <= 2
    requires forall e :: e in bgData && e.downloaded ==> e.filename.Some?
    ensures Select(bgData, notice, dir, readable, first, redraws) == Stuck
  {
    var c := Candidates(bgData);
    assert first == 0 && c[0] in c;
    assert Redraw([0], redraws).None?;
    assert AllDrawn([0], |c|);
  }

  /**
   * The probe loop from a reachable state when no candidate is readable: it never picks,
   * and once every drawable index has been checked, drawn now or among the redraws, it is
   * stuck for good.
   */
  lemma {:induction false} NoReadableProbe(c: seq<Entry>, dir: string, readable: set<string>, checked: seq<int>,
                                           index: int, redraws: seq<int>)
    requires |c| >= 1 && Distinct(checked) && index !in checked
    requires forall i :: 0 <= i < |checked| ==> InDrawRange(checked[i], |c|)
    requires InDrawRange(index, |c|) && forall j :: 0 <= j < |redraws| ==> InDrawRange(redraws[j], |c|)
    requires forall i :: 0 <= i < |c| ==> c[i].filename.Some? && Join(dir, c[i].filename.value) !in readable
    ensures var r := ProbeFrom(c, dir, readable, checked, index, redraws); r == Stuck || r == OutOfDraws
    ensures (forall v :: 0 <= v < DrawCount(|c|) ==> v in checked || v == index || v in redraws) ==>
              ProbeFrom(c, dir, readable, checked, index, redraws) == Stuck
    decreases |c| - |checked|
  {
    var next := checked + [index];
    assert Distinct(next);
    DistinctBound(next, DrawCount(|c|));
    match Redraw(next, redraws)
    case None =>
    case Some((n, rest)) =>
      var j :| 0 <= j < |redraws| && redraws[j] == n;
      NoReadableProbe(c, dir, readable, next, n, rest);
      if forall v :: 0 <= v < DrawCount(|c|) ==> v in checked || v == index || v in redraws {
        forall v | 0 <= v < DrawCount(|c|)
          ensures v in next || v == n || v in rest
        {
          if v in redraws {
            var i :| 0 <= i < |redraws| && redraws[i] == v;
          }
        }
      }
  }

  /**
   * When no candidate's file is readable the call never settles: the probe never picks,
   * and once the draws have come up with every index they can give, the redraw loop is
   * stuck for good, the bounded-check comment notwithstanding.
   */
  lemma NoReadableCandidateHangs(bgData: seq<Entry>, notice: Option<Entry>, dir: string, readable: set<string>,
                                 first: int, redraws: seq<int>)
    requires DrawsIn(first, redraws, |Candidates(bgData)|) && |Candidates(bgData)| >= 1
    requires forall e :: e in bgData && e.downloaded ==> e.filename.Some? && Join(dir, e.filename.value) !in readable
    ensures var r := Select(bgData, notice, dir, readable, first, redraws); r == Stuck || r == OutOfDraws
    ensures (forall v :: 0 <= v < DrawCount(|Candidates(bgData)|) ==> v == first || v in redraws) ==>
              Select(bgData, notice, dir, readable, first, redraws) == Stuck
  {
    var c := Candidates(bgData);
    forall i | 0 <= i < |c|
      ensures c[i].filename.Some? && Join(dir, c[i].filename.value) !in readable
    {
      assert c[i] in c;
    }
    NoReadableProbe(c, dir, readable, [], first, redraws);
  }

  class BackgroundService {
    const dir: string
    /** The value of the data promise: the first catalog snapshot received. */
    var data: Option<seq<Entry>>
    /** The value of the first-available promise, once resolved: the entry it carried, or null. */
    var notice: Option<Option<Entry>>
    var lastBackground: Background?

    constructor (dir: string)
      ensures this.dir == dir && data == None && notice == None && lastBackground == null
    {
      this.dir := dir;
      data := None;
      notice := None;
      lastBackground := null;
    }

    /** 'background-data-available': only the first snapshot resolves the promise. */
    method OnDataAvailable(snapshot: seq<Entry>)
      modifies this
      ensures data == (if old(data).None? then Some(snapshot) else old(data))
      ensures notice == old(notice) && lastBackground == old(lastBackground)
    {
      if data.None? {
        data := Some(snapshot);
      }
    }

    /** 'background-available': only the first notice resolves the promise. */
    method OnBackgroundAvailable(background: Option<Entry>)
      modifies this
      ensures notice == (if old(notice).None? then Some(background) else old(notice))
      ensures data == old(data) && lastBackground == old(lastBackground)
    {
      if notice.None? {
        notice := Some(background);
      }
    }

    /**
     * `getRandomBackground`, with `first` the initial draw and `redraws` the later ones.
     * The test `background === lastBackground` compares a fresh object with an older
     * one and never holds. When `redraws` runs out inside the redraw loop, the call is
     * `Hangs` if no draw could ever exit the loop, keeps an accepted pick (the next
     * unchecked draw would end the loop), and is otherwise `Drawing`.
     */
    method GetRandomBackground(readable: set<string>, first: int, redraws: seq<int>) returns (s: Settlement)
      requires data.Some? ==> DrawsIn(first, redraws, |Candidates(data.value)|)
      modifies this
      ensures data == old(data) && notice == old(notice)
      ensures (old(data).None? || old(notice).None?) ==> s == Waiting && lastBackground == old(lastBackground)
      ensures old(data).Some? && old(notice).Some? ==>
                var c := Candidates(old(data).value);
                match Select(old(data).value, old(notice).value, dir, readable, first, redraws)
                case FromNotice =>
                  var e := old(notice).value.value;
                  && s.Resolved? && s.bg != null && fresh(s.bg) && lastBackground == s.bg
                  && s.bg.filename == Join(dir, e.filename.value) && s.bg.metadata == e
                case Picked(i) =>
                  && s.Resolved? && s.bg != null && fresh(s.bg) && lastBackground == s.bg
                  && s.bg.filename == Join(dir, c[i].filename.value) && s.bg.metadata == c[i]
                case NoPick => s == Rejected(NotFound) && lastBackground == old(lastBackground)
                case Stuck => s == Hangs && lastBackground == old(lastBackground)
                case OutOfDraws => s == Drawing && lastBackground == old(lastBackground)
                case TypeFault => s == Faulted && lastBackground == old(lastBackground)
    {
      if data.None? || notice.None? {
        return Waiting;
      }
      var bgData := Candidates(data.value);
      var background: Background? := null;
      if |bgData| == 0 && notice.value.Some? {
        var e := notice.value.value;
        if e.filename.None? {
          return Faulted;
        }
        background := new Background(Join(dir, e.filename.value), e);
      }
      var index := first;
      var checked: seq<int> := [];
      var rest := redraws;
      ghost var picked: nat := 0;
      while (background == null || background == lastBackground) && |checked| < |bgData|
        invariant data == old(data) && notice == old(notice) && lastBackground == old(lastBackground)
        invariant |bgData| != 0 ==> background == null || (fresh(background) && ProbeFrom(bgData, dir, readable, [], first, redraws) == Picked(picked))
        invariant |bgData| != 0 && background == null ==>
                    ProbeFrom(bgData, dir, readable, [], first, redraws) == ProbeFrom(bgData, dir, readable, checked, index, rest)
        invariant |bgData| != 0 && background != null ==>
                    background.filename == Join(dir, bgData[picked].filename.value) && background.metadata == bgData[picked]
        invariant |bgData| == 0 ==> checked == [] && (background == null <==> notice.value.None?)
        invariant |bgData| == 0 && background != null ==>
                    && fresh(background) && notice.value.Some? && notice.value.value.filename.Some?
                    && background.filename == Join(dir, notice.value.value.filename.value)
                    && background.metadata == notice.value.value
        decreases |bgData| - |checked|
      {
        if !(0 <= index < |bgData|) || bgData[index].filename.None? {
          return Faulted;
        }
        ghost var before := checked;
        ghost var at := index;
        ghost var restBefore := rest;
        checked := checked + [index];
        var filename := Join(dir, bgData[index].filename.value);
        if filename in readable {
          background := new Background(filename, bgData[index]);
          picked := index;
        }
        while index in checked
          invariant index in checked ==> Redraw(checked, rest) == Redraw(checked, restBefore)
          invariant index !in checked ==> Redraw(checked, restBefore) == Some((index, rest))
          invariant data == old(data) && notice == old(notice) && lastBackground == old(lastBackground)
          decreases |rest|
        {
          if rest == [] {
            if AllDrawn(checked, |bgData|) {
              return Hangs;
            }
            if background != null {
              lastBackground := background;
              return Resolved(background);
            }
            return Drawing;
          }
          index := rest[0];
          rest := rest[1..];
        }
      }
      if background != null {
        lastBackground := background;
        return Resolved(background);
      }
      return Rejected(NotFound);
    }
  }
}
