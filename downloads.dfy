/**
 * The backend's download coordinator (backend/backgrounds.js): the startup scan of the
 * saved catalog, the sequential download walk `doDownload`, the orphan-file predicate
 * of `cleanBackgrounds`, and the request callback that ties them together.
 */
module Downloads {
  import opened Wrappers
  import opened Paths
  import opened Backgrounds
  import CatalogMerge

  const BackgroundUrl := "https://raw.githubusercontent.com/dconnolly/chromecast-backgrounds/master/backgrounds.json"
  const SaveError := "Could not save backgrounds list"
  const MkdirError := "Could not create directory for backgrounds"

  /**
   * What the walk cannot compute itself: the file name it gives a URL, whether the
   * download of a URL completes ('close') or fails ('error'), and whether the save that
   * follows the download at an index succeeds. The code names files by content, as
   * `ContentEnv` builds; the walk's properties hold for any naming.
   */
  datatype Env = Env(name: string -> string, fetches: string -> bool, saves: nat -> bool)

  /**
   * The environment of the code: each URL's file is named `sha1(url) + extname(url)`, and
   * since a hex digest has no '/', every such name is a plain file name.
   */
  function ContentEnv(sha1: string -> string, fetches: string -> bool, saves: nat -> bool): (env: Env)
    ensures forall url :: env.name(url) == ContentName(sha1, url)
    ensures (forall u :: '/' !in sha1(u)) ==> forall u :: '/' !in env.name(u)
    ensures env.fetches == fetches && env.saves == saves
  {
    forall u
      ensures '/' !in sha1(u) ==> '/' !in ContentName(sha1, u)
    {
      ContentNameShape(sha1, u);
    }
    Env(url => ContentName(sha1, url), fetches, saves)
  }

  /** Messages sent to the renderer. */
  datatype Notice =
    | DataAvailable(data: seq<Entry>)        // 'background-data-available'
    | Available(entry: Entry)                // 'background-available' from the startup scan
    | AvailableAt(index: nat, entry: Entry)  // 'background-available' from the walk
    | Error(reason: Reason)                  // 'backgrounds-error'
    | AllDownloaded                          // 'backgrounds-downloaded'

  /** Why a 'backgrounds-error' notice was sent; `Text` is the message it carries. */
  datatype Reason = LoadFailed | MkdirFailed | SaveFailed | DownloadFailed(url: string)

  function Text(reason: Reason): string
  {
    match reason
    case LoadFailed => "Error loading backgrounds from " + BackgroundUrl
    case MkdirFailed => MkdirError
    case SaveFailed => SaveError
    case DownloadFailed(url) => "Error downloading " + url
  }

  /**
   * `AsWritten`: a failed download or failed save ends the walk, because its handler
   * calls `send` on the undeclared `bgWindow` before the recursive call.
   * `Continue`: the evidently intended behaviour, report the error and go on.
   */
  datatype Policy = AsWritten | Continue

  /** Where a walk leaves the catalog, what it sent, and whether it reached the end. */
  datatype Walk = Walk(entries: seq<Entry>, notices: seq<Notice>, finished: bool)

  function Prepend(sent: seq<Notice>, w: Walk): Walk
  {
    Walk(w.entries, sent + w.notices, w.finished)
  }

  /** The content-addressed name is assigned before the download starts. */
  function Named(e: Entry, env: Env): Entry
  {
    e.(filename := Some(env.name(e.url)))
  }

  /** What visiting one index does: the catalog after it, the notices it sends, whether the walk goes on. */
  datatype Visit = Visit(after: seq<Entry>, sent: seq<Notice>, goOn: bool)

  /** What one visit does to an entry, independently of the others. */
  function Visited(e: Entry, env: Env): Entry
  {
    if e.downloaded then e else Named(e, env).(downloaded := env.fetches(e.url))
  }

  /**
   * One index of `doDownload`: a downloaded entry is skipped; otherwise it is named,
   * its download runs, and on success it is marked downloaded, announced unless
   * `bgAvailable`, and the whole catalog is sent; then the save runs.
   */
  function VisitAt(bgs: seq<Entry>, index: nat, bgAvailable: bool, env: Env, policy: Policy): (v: Visit)
    requires index < |bgs|
    ensures v.after == bgs[index := Visited(bgs[index], env)]
    ensures policy == Continue ==> v.goOn
  {
    if bgs[index].downloaded then Visit(bgs, [], true)
    else
      var after := bgs[index := Visited(bgs[index], env)];
      if env.fetches(bgs[index].url) then
        var sent := SuccessNotices(index, after, bgAvailable);
        if env.saves(index) then Visit(after, sent, true)
        else if policy == AsWritten then Visit(after, sent, false)
        else Visit(after, sent + [Error(SaveFailed)], true)
      else if policy == AsWritten then Visit(after, [], false)
      else Visit(after, [Error(DownloadFailed(bgs[index].url))], true)
  }

  /**
   * The notices of a successful download: the entry is announced unless a background
   * is already available, then the whole catalog is sent.
   */
  function SuccessNotices(index: nat, after: seq<Entry>, bgAvailable: bool): (sent: seq<Notice>)
    requires index < |after|
    ensures Announced(sent) == if bgAvailable then {} else {index}
    ensures Announced(sent + [Error(SaveFailed)]) == Announced(sent)
  {
    var data := [DataAvailable(after)];
    assert Announced(data) == {} by { assert data[1..] == []; }
    assert Announced(data + [Error(SaveFailed)]) == {} by {
      assert (data + [Error(SaveFailed)])[1..] == [Error(SaveFailed)];
      assert [Error(SaveFailed)][1..] == [];
    }
    if bgAvailable then data
    else
      var head := [AvailableAt(index, after[index])];
      assert (head + data)[1..] == data;
      assert (head + data + [Error(SaveFailed)])[1..] == data + [Error(SaveFailed)];
      head + data
  }

  /**
   * `doDownload(backgrounds, index, bgAvailable)`. Only the first call receives
   * `bgAvailable`; every recursive call omits it, so it is `false` from the second
   * index on.
   */
  function WalkFrom(bgs: seq<Entry>, index: nat, bgAvailable: bool, env: Env, policy: Policy): Walk
    decreases |bgs| - index
  {
    if index >= |bgs| then Walk(bgs, [], true)
    else
      var v := VisitAt(bgs, index, bgAvailable, env, policy);
      if v.goOn then Prepend(v.sent, WalkFrom(v.after, index + 1, false, env, policy))
      else Walk(v.after, v.sent, false)
  }

  /** The loop body shared by both walks; `goOn` is false where the code as written stops. */
  method Visit1(backgrounds: array<Entry>, i: nat, avail: bool, env: Env, policy: Policy)
    returns (sent: seq<Notice>, goOn: bool)
    requires i < backgrounds.Length
    modifies backgrounds
    ensures VisitAt(old(backgrounds[..]), i, avail, env, policy) == Visit(backgrounds[..], sent, goOn)
  {
    sent := [];
    goOn := true;
    var e := backgrounds[i];
    if !e.downloaded {
      var ok := env.fetches(e.url);
      backgrounds[i] := Named(e, env).(downloaded := ok);
      if ok {
        if !avail {
          sent := [AvailableAt(i, backgrounds[i])];
        }
        sent := sent + [DataAvailable(backgrounds[..])];
        assert sent == SuccessNotices(i, backgrounds[..], avail);
        if !env.saves(i) {
          if policy == AsWritten {
            goOn := false;
          } else {
            sent := sent + [Error(SaveFailed)];
          }
        }
      } else if policy == AsWritten {
        goOn := false;
      } else {
        sent := [Error(DownloadFailed(e.url))];
      }
    }
  }

  lemma ConcatAssoc<T>(a: seq<T>, b: seq<T>, c: seq<T>)
    ensures a + (b + c) == a + b + c
  {
  }

  /**
   * The download walk. With `Continue` it visits every index from `index` on exactly
   * once, in increasing order, and always reaches the end; with `AsWritten` it stops
   * where the code as written stops.
   */
  method DoDownload(backgrounds: array<Entry>, index: nat, bgAvailable: bool, env: Env, policy: Policy)
    returns (notices: seq<Notice>, finished: bool)
    modifies backgrounds
    ensures var w := WalkFrom(old(backgrounds[..]), index, bgAvailable, env, policy);
            backgrounds[..] == w.entries && notices == w.notices && finished == w.finished
  {
    ghost var total := WalkFrom(backgrounds[..], index, bgAvailable, env, policy);
    var i := index;
    var avail := bgAvailable;
    notices := [];
    while i < backgrounds.Length
      invariant Remaining(total, notices, backgrounds[..], i, avail, env, policy)
      decreases backgrounds.Length - i
    {
      ghost var before := backgrounds[..];
      var sent, goOn := Visit1(backgrounds, i, avail, env, policy);
      StepRemaining(total, notices, before, i, avail, env, policy);
      notices := notices + sent;
      if !goOn {
        return notices, false;
      }
      i := i + 1;
      avail := false;
    }
    finished := true;
  }

  /** The loop invariant of `DoDownload`: what is left of the walk completes what has been sent. */
  ghost predicate Remaining(total: Walk, notices: seq<Notice>, bgs: seq<Entry>, i: nat, avail: bool, env: Env, policy: Policy)
  {
    var r := WalkFrom(bgs, i, avail, env, policy);
    total == Walk(r.entries, notices + r.notices, r.finished)
  }

  lemma StepRemaining(total: Walk, notices: seq<Notice>, bgs: seq<Entry>, i: nat, avail: bool, env: Env, policy: Policy)
    requires i < |bgs| && Remaining(total, notices, bgs, i, avail, env, policy)
    ensures var v := VisitAt(bgs, i, avail, env, policy);
            if v.goOn then Remaining(total, notices + v.sent, v.after, i + 1, false, env, policy)
            else total == Walk(v.after, notices + v.sent, false)
  {
    var v := VisitAt(bgs, i, avail, env, policy);
    UnfoldWalk(bgs, i, avail, env, policy);
    ConcatAssoc(notices, v.sent, WalkFrom(v.after, i + 1, false, env, policy).notices);
  }

  /** The walk at an index in range is that index's visit followed, unless it stops, by the walk from the next. */
  lemma UnfoldWalk(bgs: seq<Entry>, index: nat, bgAvailable: bool, env: Env, policy: Policy)
    requires index < |bgs|
    ensures var v := VisitAt(bgs, index, bgAvailable, env, policy);
            var w := WalkFrom(bgs, index, bgAvailable, env, policy);
            var r := WalkFrom(v.after, index + 1, false, env, policy);
            && w.entries == (if v.goOn then r.entries else v.after)
            && w.notices == (if v.goOn then v.sent + r.notices else v.sent)
            && w.finished == (v.goOn && r.finished)
  {
  }

  /** From `index` on, the intended walk applies `Visited` to each entry and leaves the earlier ones alone. */
  lemma {:induction false} WalkEntriesFrom(bgs: seq<Entry>, index: nat, bgAvailable: bool, env: Env)
    ensures var w := WalkFrom(bgs, index, bgAvailable, env, Continue);
            && w.finished && |w.entries| == |bgs|
            && (forall k :: 0 <= k < index && k < |bgs| ==> w.entries[k] == bgs[k])
            && (forall k :: index <= k < |bgs| ==> w.entries[k] == Visited(bgs[k], env))
    decreases |bgs| - index
  {
    if index < |bgs| {
      var v := VisitAt(bgs, index, bgAvailable, env, Continue);
      WalkEntriesFrom(v.after, index + 1, false, env);
    }
  }

  /**
   * The intended walk from index 0: it finishes, keeps every URL and its metadata,
   * leaves downloaded entries untouched, gives every other entry its content-addressed
   * name whether or not the download succeeds, and marks an entry downloaded exactly
   * when it was already or its download succeeded.
   */
  lemma DownloadWalkContract(bgs: seq<Entry>, bgAvailable: bool, env: Env)
    ensures var w := WalkFrom(bgs, 0, bgAvailable, env, Continue);
            && w.finished && |w.entries| == |bgs|
            && (forall k :: 0 <= k < |bgs| ==> w.entries[k].url == bgs[k].url && w.entries[k].meta == bgs[k].meta)
            && (forall k :: 0 <= k < |bgs| ==> (w.entries[k].downloaded <==> bgs[k].downloaded || env.fetches(bgs[k].url)))
            && (forall k :: 0 <= k < |bgs| && bgs[k].downloaded ==> w.entries[k] == bgs[k])
            && (forall k :: 0 <= k < |bgs| && !bgs[k].downloaded ==>
                  w.entries[k].filename == Some(env.name(bgs[k].url)))
  {
    WalkEntriesFrom(bgs, 0, bgAvailable, env);
  }

  /** Every downloaded entry has a file name: the catalog invariant the walk maintains. */
  ghost predicate DownloadedNamed(bgs: seq<Entry>)
  {
    forall k :: 0 <= k < |bgs| && bgs[k].downloaded ==> bgs[k].filename.Some?
  }

  lemma WalkKeepsDownloadedNamed(bgs: seq<Entry>, bgAvailable: bool, env: Env)
    requires DownloadedNamed(bgs)
    ensures DownloadedNamed(WalkFrom(bgs, 0, bgAvailable, env, Continue).entries)
  {
    WalkEntriesFrom(bgs, 0, bgAvailable, env);
  }

  /** The indices the walk's 'background-available' notices of a list announce. */
  function Announced(ns: seq<Notice>): set<nat>
  {
    if ns == [] then {}
    else (if ns[0].AvailableAt? then {ns[0].index} else {}) + Announced(ns[1..])
  }

  lemma {:induction false} AnnouncedConcat(a: seq<Notice>, b: seq<Notice>)
    ensures Announced(a + b) == Announced(a) + Announced(b)
  {
    if a == [] {
      assert a + b == b;
    } else {
      assert (a + b)[1..] == a[1..] + b;
      AnnouncedConcat(a[1..], b);
    }
  }

  /** Set bookkeeping of one step of the walk: this index's notices, then the rest's. */
  lemma AnnounceStep(all: set<nat>, here: set<nat>, rest: set<nat>, index: nat, k: nat, now: bool, later: bool)
    requires all == here + rest
    requires here == if now then {index} else {}
    requires k in rest <==> index < k && later
    ensures k in all <==> (k == index && now) || (index < k && later)
  {
  }

  /** What one step of the intended walk announces: this index's visit, then the rest of the walk. */
  lemma AnnouncedStep(bgs: seq<Entry>, index: nat, bgAvailable: bool, env: Env)
    requires index < |bgs|
    ensures var v := VisitAt(bgs, index, bgAvailable, env, Continue);
            && Announced(WalkFrom(bgs, index, bgAvailable, env, Continue).notices)
               == Announced(v.sent) + Announced(WalkFrom(v.after, index + 1, false, env, Continue).notices)
            && Announced(v.sent) == if !bgs[index].downloaded && env.fetches(bgs[index].url) && !bgAvailable then {index} else {}
  {
    var v := VisitAt(bgs, index, bgAvailable, env, Continue);
    UnfoldWalk(bgs, index, bgAvailable, env, Continue);
    AnnouncedConcat(v.sent, WalkFrom(v.after, index + 1, false, env, Continue).notices);
    VisitAnnounces(bgs, index, bgAvailable, env, Continue);
  }

  /**
   * The 'background-available' notice of the walk: index `k` is announced exactly when
   * its download runs and succeeds and either `k` is past the first index or the
   * caller's `bgAvailable` was false. Because the recursive calls drop `bgAvailable`,
   * every later success announces itself again.
   */
  lemma {:induction false} WalkAnnouncements(bgs: seq<Entry>, index: nat, bgAvailable: bool, env: Env, k: nat)
    ensures k in Announced(WalkFrom(bgs, index, bgAvailable, env, Continue).notices) <==>
              index <= k < |bgs| && !bgs[k].downloaded && env.fetches(bgs[k].url) && (k > index || !bgAvailable)
    decreases |bgs| - index
  {
    if index < |bgs| {
      var v := VisitAt(bgs, index, bgAvailable, env, Continue);
      AnnouncedStep(bgs, index, bgAvailable, env);
      WalkAnnouncements(v.after, index + 1, false, env, k);
      var later := k < |bgs| && !bgs[k].downloaded && env.fetches(bgs[k].url);
      if index < k < |bgs| {
        assert v.after[k] == bgs[k];
      }
      AnnounceStep(Announced(WalkFrom(bgs, index, bgAvailable, env, Continue).notices),
                   Announced(v.sent), Announced(WalkFrom(v.after, index + 1, false, env, Continue).notices), index, k,
                   !bgs[index].downloaded && env.fetches(bgs[index].url) && !bgAvailable, later);
    }
  }

  /** A single visit announces its own index, and only when its download succeeds and `bgAvailable` is false. */
  lemma VisitAnnounces(bgs: seq<Entry>, index: nat, bgAvailable: bool, env: Env, policy: Policy)
    requires index < |bgs|
    ensures Announced(VisitAt(bgs, index, bgAvailable, env, policy).sent) ==
              if !bgs[index].downloaded && env.fetches(bgs[index].url) && !bgAvailable then {index} else {}
  {
    var v := VisitAt(bgs, index, bgAvailable, env, policy);
    if !bgs[index].downloaded && !env.fetches(bgs[index].url) && policy == Continue {
      assert v.sent[1..] == [];
    }
  }

  /** The index of the first entry whose visit ends the walk as written, if there is one. */
  ghost predicate FirstFailure(bgs: seq<Entry>, env: Env, index: nat, f: nat)
  {
    && index <= f < |bgs|
    && !bgs[f].downloaded && (!env.fetches(bgs[f].url) || !env.saves(f))
    && forall k :: index <= k < f ==> bgs[k].downloaded || (env.fetches(bgs[k].url) && env.saves(k))
  }

  /**
   * The walk as written stops at the first failure: it does not finish, and no entry
   * after the failure is touched, so none of them is downloaded by this walk.
   */
  lemma {:induction false} AsWrittenStopsAtFailure(bgs: seq<Entry>, index: nat, bgAvailable: bool, env: Env, f: nat)
    requires FirstFailure(bgs, env, index, f)
    ensures var w := WalkFrom(bgs, index, bgAvailable, env, AsWritten);
            && !w.finished && |w.entries| == |bgs|
            && (forall k :: f < k < |bgs| ==> w.entries[k] == bgs[k])
    decreases |bgs| - index
  {
    var v := VisitAt(bgs, index, bgAvailable, env, AsWritten);
    UnfoldWalk(bgs, index, bgAvailable, env, AsWritten);
    if index < f {
      FirstFailureStep(bgs, index, bgAvailable, env, f);
      AsWrittenStopsAtFailure(v.after, index + 1, false, env, f);
    } else {
      assert !v.goOn;
    }
  }

  /** Before the first failure a visit lets the walk go on, and the failure stays the first one. */
  lemma FirstFailureStep(bgs: seq<Entry>, index: nat, bgAvailable: bool, env: Env, f: nat)
    requires FirstFailure(bgs, env, index, f) && index < f
    ensures var v := VisitAt(bgs, index, bgAvailable, env, AsWritten);
            v.goOn && FirstFailure(v.after, env, index + 1, f)
  {
    var v := VisitAt(bgs, index, bgAvailable, env, AsWritten);
    assert forall k :: index < k < |bgs| ==> v.after[k] == bgs[k];
  }

  /**
   * A two-entry catalog whose first download fails: as written, the second entry is
   * never downloaded and the walk never finishes; with the intended handling it is.
   */
  lemma FailureStopsWalkExample()
    ensures var a := Entry("http://x/a.jpg", None, false, map[]);
            var b := Entry("http://x/b.jpg", None, false, map[]);
            var env := Env(u => "0.jpg", u => u != a.url, i => true);
            && !WalkFrom([a, b], 0, false, env, AsWritten).finished
            && !WalkFrom([a, b], 0, false, env, AsWritten).entries[1].downloaded
            && WalkFrom([a, b], 0, false, env, Continue).finished
            && WalkFrom([a, b], 0, false, env, Continue).entries[1].downloaded
  {
    var a := Entry("http://x/a.jpg", None, false, map[]);
    var b := Entry("http://x/b.jpg", None, false, map[]);
    var env := Env(u => "0.jpg", u => u != a.url, i => true);
    assert a.url != b.url;
    assert FirstFailure([a, b], env, 0, 0);
    AsWrittenStopsAtFailure([a, b], 0, false, env, 0);
    DownloadWalkContract([a, b], false, env);
  }

  /**
   * How the promise of `doDownload(backgrounds, index)` settles as written, once the
   * walk reaches the end: true for resolved. The executor names its parameters
   * `(reject, resolve)`, so the call `resolve()` at the end rejects, and each level's
   * `.then(resolve, reject)` passes the inner outcome on with its polarity flipped.
   */
  function SwappedResolves(bgs: seq<Entry>, index: nat): bool
    decreases |bgs| - index
  {
    if index >= |bgs| then false else !SwappedResolves(bgs, index + 1)
  }

  /**
   * As written, the completed walk's promise resolves exactly when the catalog has an
   * odd number of entries; with an even number the caller reports an unhandled error
   * and the cleanup never runs. The intended promise resolves whenever the walk
   * finishes, which `DownloadWalkContract` shows it always does.
   */
  lemma {:induction false} SwappedResolvesParity(bgs: seq<Entry>, index: nat)
    requires index <= |bgs|
    ensures SwappedResolves(bgs, index) <==> (|bgs| - index) % 2 == 1
    decreases |bgs| - index
  {
    if index < |bgs| {
      SwappedResolvesParity(bgs, index + 1);
    }
  }

  /** An entry the startup scan accepts: downloaded, named, and its file is readable. */
  predicate Present(e: Entry, dir: string, readable: set<string>)
  {
    e.downloaded && e.filename.Some? && e.filename.value != "" && Join(dir, e.filename.value) in readable
  }

  function FindPresentFrom(bgs: seq<Entry>, dir: string, readable: set<string>, from: nat): (r: int)
    ensures r == -1 || (from <= r < |bgs| && Present(bgs[r], dir, readable))
    ensures r == -1 ==> forall k :: from <= k < |bgs| ==> !Present(bgs[k], dir, readable)
    ensures r != -1 ==> forall k :: from <= k < r ==> !Present(bgs[k], dir, readable)
    decreases |bgs| - from
  {
    if from >= |bgs| then -1
    else if Present(bgs[from], dir, readable) then from
    else FindPresentFrom(bgs, dir, readable, from + 1)
  }

  /**
   * The startup scan `_.findIndex`: the first index whose entry is downloaded, has a
   * non-empty file name and a readable file, or -1 when there is none.
   */
  function FirstPresent(bgs: seq<Entry>, dir: string, readable: set<string>): (r: int)
    ensures r == -1 <==> forall k :: 0 <= k < |bgs| ==> !Present(bgs[k], dir, readable)
    ensures r != -1 ==> 0 <= r < |bgs| && Present(bgs[r], dir, readable)
                        && forall k :: 0 <= k < r ==> !Present(bgs[k], dir, readable)
  {
    FindPresentFrom(bgs, dir, readable, 0)
  }

  /**
   * Reading the saved catalog at startup: nothing without a parsable file; otherwise the
   * data notice, then the availability notice for the first present entry, if any,
   * which is also the `bgAvailable` handed to the walk.
   */
  function LoadSaved(saved: Option<seq<Entry>>, dir: string, readable: set<string>): (r: (seq<Notice>, bool))
    ensures saved.None? ==> r == ([], false)
    ensures saved.Some? ==> |r.0| >= 1 && r.0[0] == DataAvailable(saved.value)
    ensures saved.Some? ==> (r.1 <==> exists k :: 0 <= k < |saved.value| && Present(saved.value[k], dir, readable))
    ensures r.1 ==> saved.Some? && |r.0| == 2 && r.0[1].Available? && Present(r.0[1].entry, dir, readable)
    ensures !r.1 ==> |r.0| <= 1
  {
    match saved
    case None => ([], false)
    case Some(bgs) =>
      var found := FirstPresent(bgs, dir, readable);
      if found == -1 then ([DataAvailable(bgs)], false)
      else ([DataAvailable(bgs), Available(bgs[found])], true)
  }

  /** The test in `cleanBackgrounds`: some entry's file name equals the file's basename. */
  function Listed(bgs: seq<Entry>, f: string): (r: bool)
    ensures r <==> exists k :: 0 <= k < |bgs| && bgs[k].filename == Some(Basename(f))
  {
    if bgs == [] then false
    else bgs[0].filename == Some(Basename(f)) || Listed(bgs[1..], f)
  }

  /** The files `cleanBackgrounds` deletes: exactly those no entry names, in directory order. */
  function Orphans(bgs: seq<Entry>, files: seq<string>): (r: seq<string>)
    ensures forall f :: f in r <==> f in files && !Listed(bgs, f)
    ensures |r| <= |files|
  {
    if files == [] then []
    else (if Listed(bgs, files[0]) then [] else [files[0]]) + Orphans(bgs, files[1..])
  }

  /**
   * After the intended walk, the file it names for any entry is kept by the cleanup,
   * found either by its plain name or under the backgrounds directory.
   */
  lemma CleanupSparesCatalogFiles(bgs: seq<Entry>, bgAvailable: bool, env: Env, dir: string, k: nat, files: seq<string>)
    requires k < |bgs| && !bgs[k].downloaded
    requires '/' !in env.name(bgs[k].url)
    ensures var w := WalkFrom(bgs, 0, bgAvailable, env, Continue);
            var name := env.name(bgs[k].url);
            && Listed(w.entries, name) && Listed(w.entries, Join(dir, name))
            && name !in Orphans(w.entries, files) && Join(dir, name) !in Orphans(w.entries, files)
  {
    DownloadWalkContract(bgs, bgAvailable, env);
    BasenameOfJoin(dir, env.name(bgs[k].url));
  }

  /**
   * With the code's own naming, the file the walk downloads for an entry is never deleted
   * by the cleanup that follows: its content name is a plain file name.
   */
  lemma ContentNamedFilesSurvive(bgs: seq<Entry>, bgAvailable: bool, sha1: string -> string,
                                 fetches: string -> bool, saves: nat -> bool, dir: string, k: nat, files: seq<string>)
    requires k < |bgs| && !bgs[k].downloaded
    requires forall u :: '/' !in sha1(u)
    ensures var w := WalkFrom(bgs, 0, bgAvailable, ContentEnv(sha1, fetches, saves), Continue);
            var name := sha1(bgs[k].url) + Extname(bgs[k].url);
            && |w.entries| == |bgs| && (w.entries[k].downloaded <==> fetches(bgs[k].url)) && w.entries[k].filename == Some(name)
            && name !in Orphans(w.entries, files) && Join(dir, name) !in Orphans(w.entries, files)
  {
    var env := ContentEnv(sha1, fetches, saves);
    DownloadWalkContract(bgs, bgAvailable, env);
    CleanupSparesCatalogFiles(bgs, bgAvailable, env, dir, k, files);
  }

  /**
   * The request callback (without the save of the merged list): on a failed fetch the
   * saved catalog stays as it was and nothing is downloaded; otherwise the merged
   * catalog is announced, the directory is created, the walk runs from index 0 with
   * the availability found by the startup scan, completion is announced and the files
   * of `listing` that no entry names are the ones to delete.
   */
  method LoadAndDownload(saved: Option<seq<Entry>>, fetched: Option<seq<Entry>>, mkdirOk: bool,
                         dir: string, readable: set<string>, env: Env, listing: seq<string>)
    returns (catalog: Option<seq<Entry>>, notices: seq<Notice>, deleted: seq<string>)
    ensures var (startup, available) := LoadSaved(saved, dir, readable);
            && (fetched.None? ==> catalog == saved && deleted == [] && notices == startup + [Error(LoadFailed)])
            && (fetched.Some? && !mkdirOk ==>
                  var merged := CatalogMerge.Merged(saved, fetched.value);
                  && catalog == Some(merged) && deleted == []
                  && notices == startup + [DataAvailable(merged), Error(MkdirFailed)])
            && (fetched.Some? && mkdirOk ==>
                  var merged := CatalogMerge.Merged(saved, fetched.value);
                  var w := WalkFrom(merged, 0, available, env, Continue);
                  && catalog == Some(w.entries) && deleted == Orphans(w.entries, listing)
                  && notices == startup + [DataAvailable(merged)] + w.notices + [AllDownloaded])
  {
    var (startup, available) := LoadSaved(saved, dir, readable);
    notices := startup;
    deleted := [];
    if fetched.None? {
      notices := notices + [Error(LoadFailed)];
      catalog := saved;
      return;
    }
    var merged := CatalogMerge.MergeRemote(saved, fetched.value);
    notices := notices + [DataAvailable(merged)];
    if !mkdirOk {
      notices := notices + [Error(MkdirFailed)];
      catalog := Some(merged);
      return;
    }
    var backgrounds := new Entry[|merged|](k requires 0 <= k < |merged| => merged[k]);
    assert backgrounds[..] == merged;
    var sent, _ := DoDownload(backgrounds, 0, available, env, Continue);
    notices := notices + sent + [AllDownloaded];
    catalog := Some(backgrounds[..]);
    deleted := Orphans(backgrounds[..], listing);
  }
}
