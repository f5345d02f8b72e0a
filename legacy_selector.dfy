/**
 * The older renderer-side background service (ui/scripts/services/backgrounds.js): it
 * keeps the first catalog snapshot and the first-available signal, and picks a random
 * readable background by probing random indices at most once per directory entry.
 */
module LegacySelector {
  import opened Wrappers
  import opened Paths
  import opened Backgrounds

  const DirError := "Cannot read background directory."
  const EmptyDirError := "No images found in directory but images supposedly available?"

  /** How the probe sequence ends: an accepted index, no acceptance, or a TypeError. */
  datatype Probe = Picked(index: nat) | Exhausted | TypeFault

  /**
   * Probes `checks`, `checks + 1`, ... up to `limit` (the directory's entry count). Probe
   * number `c` looks at index `draws(c)`; an index outside the catalog makes
   * `bgData[index].downloaded` throw; a downloaded entry without a file name makes
   * `path.join` throw; a downloaded entry whose joined path is readable is accepted.
   */
  function ProbeFrom(bgData: seq<Entry>, dir: string, readable: set<string>, draws: nat -> int,
                     limit: nat, checks: nat): (r: Probe)
    ensures r.Picked? ==> && r.index < |bgData| && bgData[r.index].downloaded
                          && bgData[r.index].filename.Some?
                          && Join(dir, bgData[r.index].filename.value) in readable
                          && exists c :: checks <= c < limit && draws(c) == r.index
    decreases limit - checks
  {
    if checks >= limit then Exhausted
    else
      var i := draws(checks);
      if !(0 <= i < |bgData|) then TypeFault
      else if !bgData[i].downloaded then ProbeFrom(bgData, dir, readable, draws, limit, checks + 1)
      else if bgData[i].filename.None? then TypeFault
      else if Join(dir, bgData[i].filename.value) in readable then Picked(i)
      else ProbeFrom(bgData, dir, readable, draws, limit, checks + 1)
  }

  /** The draws an oracle for `Math.floor(Math.random() * (len - 1))` may produce. */
  ghost predicate Draws(draws: nat -> int, len: nat)
  {
    forall c :: InDrawRange(draws(c), len)
  }

  class BackgroundService {
    /** The backgrounds directory under the user-data path. */
    const dir: string
    /** The value of the data promise: the first catalog snapshot received. */
    var data: Option<seq<Entry>>
    /** Whether the first-available promise has resolved. */
    var available: bool
    /** The last background handed out, so that it is not shown twice in a row. */
    var lastBackground: Background?

    constructor (dir: string)
      ensures this.dir == dir && data == None && !available && lastBackground == null
    {
      this.dir := dir;
      data := None;
      available := false;
      lastBackground := null;
    }

    /** 'background-data-available': a deferred resolves once, so later snapshots are ignored. */
    method OnDataAvailable(snapshot: seq<Entry>)
      modifies this
      ensures data == (if old(data).None? then Some(snapshot) else old(data))
      ensures available == old(available) && lastBackground == old(lastBackground)
    {
      if data.None? {
        data := Some(snapshot);
      }
    }

    /** 'background-available'. */
    method OnBackgroundAvailable()
      modifies this
      ensures available && data == old(data) && lastBackground == old(lastBackground)
    {
      available := true;
    }

    /**
     * `getRandomBackground`. `listing` is the result of reading the directory (`None`
     * for an error), `readable` the joined paths `accessSync` accepts and `draws` the
     * successive index draws. The loop condition's `background === lastBackground`
     * compares a freshly built object with an older one, so it never holds: the first
     * accepted probe ends the loop.
     */
    method GetRandomBackground(listing: Option<seq<string>>, readable: set<string>, draws: nat -> int)
      returns (s: Settlement)
      requires data.Some? ==> Draws(draws, |data.value|)
      modifies this
      ensures data == old(data) && available == old(available)
      ensures (old(data).None? || !old(available)) ==> s == Waiting && lastBackground == old(lastBackground)
      ensures old(data).Some? && old(available) ==>
                var bgData := old(data).value;
                match listing
                case None => s == Rejected(DirError) && lastBackground == old(lastBackground)
                case Some(entries) =>
                  if |entries| == 0 then s == Rejected(EmptyDirError) && lastBackground == old(lastBackground)
                  else match ProbeFrom(bgData, dir, readable, draws, |entries|, 0)
                    case Picked(i) =>
                      && s.Resolved? && s.bg != null && fresh(s.bg) && lastBackground == s.bg
                      && s.bg.filename == Join(dir, bgData[i].filename.value) && s.bg.metadata == bgData[i]
                    case Exhausted => s == Resolved(null) && lastBackground == null
                    case TypeFault => s == Faulted && lastBackground == old(lastBackground)
    {
      if data.None? || !available {
        return Waiting;
      }
      var bgData := data.value;
      if listing.None? {
        return Rejected(DirError);
      }
      var entries := listing.value;
      if |entries| == 0 {
        return Rejected(EmptyDirError);
      }
      var index := draws(0);
      var checks := 0;
      var background: Background? := null;
      while (background == null || background == lastBackground) && checks < |entries|
        invariant checks <= |entries| && index == draws(checks)
        invariant lastBackground == old(lastBackground) && data == old(data) && available == old(available)
        invariant background == null ==>
                    ProbeFrom(bgData, dir, readable, draws, |entries|, 0) == ProbeFrom(bgData, dir, readable, draws, |entries|, checks)
        invariant background != null ==>
                    && fresh(background) && ProbeFrom(bgData, dir, readable, draws, |entries|, 0).Picked?
                    && var i := ProbeFrom(bgData, dir, readable, draws, |entries|, 0).index;
                       background.filename == Join(dir, bgData[i].filename.value) && background.metadata == bgData[i]
        decreases |entries| - checks
      {
        if !(0 <= index < |bgData|) {
          return Faulted;
        }
        if bgData[index].downloaded {
          if bgData[index].filename.None? {
            return Faulted;
          }
          var filename := Join(dir, bgData[index].filename.value);
          if filename in readable {
            background := new Background(filename, bgData[index]);
          }
        }
        checks := checks + 1;
        index := draws(checks);
      }
      lastBackground := background;
      return Resolved(background);
    }
  }

  /** A probe lands on the catalog whenever the catalog is non-empty, and never on its last entry once there are two. */
  lemma {:induction false} ProbeNeverLast(bgData: seq<Entry>, dir: string, readable: set<string>, draws: nat -> int,
                                          limit: nat, checks: nat)
    requires Draws(draws, |bgData|) && |bgData| >= 2
    ensures ProbeFrom(bgData, dir, readable, draws, limit, checks) != Picked(|bgData| - 1)
    ensures ProbeFrom(bgData, dir, readable, draws, limit, checks) != TypeFault ||
              exists c :: checks <= c < limit && bgData[draws(c)].downloaded && bgData[draws(c)].filename.None?
    decreases limit - checks
  {
    if checks < limit {
      DrawIsIndex(draws(checks), |bgData|);
      ProbeNeverLast(bgData, dir, readable, draws, limit, checks + 1);
    }
  }

  /** With an empty catalog the first probe reads a missing entry and throws. */
  lemma EmptyCatalogFaults(dir: string, readable: set<string>, draws: nat -> int, limit: nat)
    requires Draws(draws, 0) && limit >= 1
    ensures ProbeFrom([], dir, readable, draws, limit, 0) == TypeFault
  {
    assert InDrawRange(draws(0), 0);
  }

  /**
   * The draw never reaches the last index: a catalog whose only usable entry is its last
   * one is never picked from, whatever the draws and however many probes the directory
   * allows, and the call resolves with `null`.
   */
  lemma OnlyLastUsableExhausts(a: Entry, b: Entry, dir: string, readable: set<string>, draws: nat -> int,
                               limit: nat, checks: nat)
    requires !a.downloaded && Draws(draws, 2)
    ensures ProbeFrom([a, b], dir, readable, draws, limit, checks) == Exhausted
    decreases limit - checks
  {
    if checks < limit {
      assert InDrawRange(draws(checks), 2);
      OnlyLastUsableExhausts(a, b, dir, readable, draws, limit, checks + 1);
    }
  }

  /**
   * Without a repeat check, the first accepted probe decides: when the probe at `c` is
   * the first to land on a usable entry, that entry is picked, even if it is the one
   * shown last time.
   */
  lemma {:induction false} FirstUsableWins(bgData: seq<Entry>, dir: string, readable: set<string>, draws: nat -> int,
                                           limit: nat, checks: nat, c: nat)
    requires checks <= c < limit
    requires 0 <= draws(c) < |bgData| && Usable(bgData[draws(c)], dir, readable)
    requires forall d :: checks <= d < c ==> 0 <= draws(d) < |bgData| && Passed(bgData[draws(d)], dir, readable)
    ensures ProbeFrom(bgData, dir, readable, draws, limit, checks) == Picked(draws(c))
    decreases c - checks
  {
    if checks < c {
      FirstUsableWins(bgData, dir, readable, draws, limit, checks + 1, c);
    }
  }

  /** An entry the probe moves past without throwing. */
  predicate Passed(e: Entry, dir: string, readable: set<string>)
  {
    !e.downloaded || (e.filename.Some? && Join(dir, e.filename.value) !in readable)
  }

  /** An entry the probe accepts. */
  predicate Usable(e: Entry, dir: string, readable: set<string>)
  {
    e.downloaded && e.filename.Some? && Join(dir, e.filename.value) in readable
  }
}
