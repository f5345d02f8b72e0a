/**
 * Reconciling the locally saved catalog with the catalog fetched from the remote
 * manifest (backend/backgrounds.js, the `backgrounds !== null` branch of the request
 * callback).
 */
module CatalogMerge {
  import opened Wrappers
  import opened Backgrounds

  /**
   * Step one: every remote entry, in remote order, is pushed unless an entry with its
   * URL is already in the list, counting the entries pushed before it.
   */
  function AppendMissing(list: seq<Entry>, remote: seq<Entry>): seq<Entry>
    decreases |remote|
  {
    if remote == [] then list
    else
      var before := AppendMissing(list, remote[..|remote| - 1]);
      var e := remote[|remote| - 1];
      if HasUrl(before, e.url) then before else before + [e]
  }

  /** Step two: the entries whose URL the remote list still names, in their own order. */
  function KeepListed(list: seq<Entry>, remote: seq<Entry>): (r: seq<Entry>)
    ensures |r| <= |list|
    ensures forall k :: 0 <= k < |r| ==> r[k] in list && HasUrl(remote, r[k].url)
    ensures forall k :: 0 <= k < |list| && HasUrl(remote, list[k].url) ==> list[k] in r
  {
    if list == [] then []
    else
      var last := list[|list| - 1];
      var init := KeepListed(list[..|list| - 1], remote);
      assert forall k :: 0 <= k < |list| - 1 ==> list[..|list| - 1][k] == list[k];
      init + (if HasUrl(remote, last.url) then [last] else [])
  }

  /** The catalog after a successful fetch: the remote list itself when nothing was saved. */
  function Merged(local: Option<seq<Entry>>, remote: seq<Entry>): seq<Entry>
  {
    match local
    case None => remote
    case Some(list) => KeepListed(AppendMissing(list, remote), remote)
  }

  /**
   * The merge as the backend performs it: `_.each` pushing into the saved list, then
   * `_.remove` dropping the entries the remote list no longer names.
   */
  method MergeRemote(backgrounds: Option<seq<Entry>>, newBgData: seq<Entry>) returns (merged: seq<Entry>)
    ensures merged == Merged(backgrounds, newBgData)
    ensures backgrounds.None? ==> merged == newBgData
  {
    if backgrounds.None? {
      return newBgData;
    }
    var list := backgrounds.value;
    for i := 0 to |newBgData|
      invariant list == AppendMissing(backgrounds.value, newBgData[..i])
    {
      assert newBgData[..i + 1][..i] == newBgData[..i];
      var entry := newBgData[i];
      if !HasUrl(list, entry.url) {
        list := list + [entry];
      }
    }
    assert newBgData[..|newBgData|] == newBgData;
    var kept := [];
    for j := 0 to |list|
      invariant kept == KeepListed(list[..j], newBgData)
    {
      assert list[..j + 1][..j] == list[..j];
      if HasUrl(newBgData, list[j].url) {
        kept := kept + [list[j]];
      }
    }
    assert list[..|list|] == list;
    merged := kept;
  }

  /** Step one only appends: the saved list is a prefix, and each appended entry is a remote entry with a new URL. */
  lemma {:induction false} AppendMissingExtends(list: seq<Entry>, remote: seq<Entry>)
    ensures |AppendMissing(list, remote)| >= |list|
    ensures AppendMissing(list, remote)[..|list|] == list
    ensures forall k :: |list| <= k < |AppendMissing(list, remote)| ==>
              AppendMissing(list, remote)[k] in remote && !HasUrl(list, AppendMissing(list, remote)[k].url)
    decreases |remote|
  {
    if remote != [] {
      var init := remote[..|remote| - 1];
      AppendMissingExtends(list, init);
      AppendMissingUrls(list, init);
      var before := AppendMissing(list, init);
      var e := remote[|remote| - 1];
      assert forall x :: x in init ==> x in remote;
      if !HasUrl(before, e.url) {
        assert !HasUrl(list, e.url);
      }
    }
  }

  /** After step one a URL is present exactly when the saved list or the remote list has it. */
  lemma {:induction false} AppendMissingUrls(list: seq<Entry>, remote: seq<Entry>)
    ensures forall u :: HasUrl(AppendMissing(list, remote), u) <==> HasUrl(list, u) || HasUrl(remote, u)
    decreases |remote|
  {
    if remote != [] {
      var init := remote[..|remote| - 1];
      AppendMissingUrls(list, init);
      var before := AppendMissing(list, init);
      var e := remote[|remote| - 1];
      forall u
        ensures HasUrl(AppendMissing(list, remote), u) <==> HasUrl(list, u) || HasUrl(remote, u)
      {
        assert HasUrl(remote, u) <==> HasUrl(init, u) || e.url == u by {
          if HasUrl(remote, u) {
            var i :| 0 <= i < |remote| && remote[i].url == u;
            if i < |init| { assert init[i].url == u; }
          }
          if HasUrl(init, u) {
            var i :| 0 <= i < |init| && init[i].url == u;
            assert remote[i].url == u;
          }
          if e.url == u { assert remote[|remote| - 1].url == u; }
        }
        if !HasUrl(before, e.url) {
          var after := before + [e];
          assert HasUrl(after, u) <==> HasUrl(before, u) || e.url == u by {
            if HasUrl(after, u) {
              var i :| 0 <= i < |after| && after[i].url == u;
              if i < |before| { assert before[i].url == u; }
            }
            if HasUrl(before, u) {
              var i :| 0 <= i < |before| && before[i].url == u;
              assert after[i].url == u;
            }
            if e.url == u { assert after[|before|].url == u; }
          }
        }
      }
    }
  }

  /** Step one never introduces a second entry for a URL, even when the remote list repeats one. */
  lemma {:induction false} AppendMissingUnique(list: seq<Entry>, remote: seq<Entry>)
    requires UniqueUrls(list)
    ensures UniqueUrls(AppendMissing(list, remote))
    decreases |remote|
  {
    if remote != [] {
      var init := remote[..|remote| - 1];
      AppendMissingUnique(list, init);
      var before := AppendMissing(list, init);
      var e := remote[|remote| - 1];
      if !HasUrl(before, e.url) {
        var after := before + [e];
        forall i, j | 0 <= i < j < |after| ensures after[i].url != after[j].url {
          if j == |before| {
            assert before[i].url != e.url;
          } else {
            assert after[i] == before[i] && after[j] == before[j];
          }
        }
      }
    }
  }

  /** Step two works element by element, so it distributes over concatenation. */
  lemma {:induction false} KeepListedConcat(a: seq<Entry>, b: seq<Entry>, remote: seq<Entry>)
    ensures KeepListed(a + b, remote) == KeepListed(a, remote) + KeepListed(b, remote)
    decreases |b|
  {
    if b == [] {
      assert a + b == a;
    } else {
      var binit := b[..|b| - 1];
      KeepListedConcat(a, binit, remote);
      assert (a + b)[..|a + b| - 1] == a + binit;
      assert (a + b)[|a + b| - 1] == b[|b| - 1];
    }
  }

  /** Entries that all survive step two are kept as they are. */
  lemma {:induction false} KeepListedAll(list: seq<Entry>, remote: seq<Entry>)
    requires forall k :: 0 <= k < |list| ==> HasUrl(remote, list[k].url)
    ensures KeepListed(list, remote) == list
    decreases |list|
  {
    if list != [] {
      KeepListedAll(list[..|list| - 1], remote);
      assert list[..|list| - 1] + [list[|list| - 1]] == list;
    }
  }

  /** Step two keeps URLs unique. */
  lemma {:induction false} KeepListedUnique(list: seq<Entry>, remote: seq<Entry>)
    requires UniqueUrls(list)
    ensures UniqueUrls(KeepListed(list, remote))
    decreases |list|
  {
    if list != [] {
      var init := list[..|list| - 1];
      var last := list[|list| - 1];
      assert UniqueUrls(init);
      KeepListedUnique(init, remote);
      var k := KeepListed(init, remote);
      if HasUrl(remote, last.url) {
        var after := k + [last];
        forall i, j | 0 <= i < j < |after| ensures after[i].url != after[j].url {
          if j == |k| {
            assert after[i] == k[i] && k[i] in init;
            var p :| 0 <= p < |init| && init[p] == k[i];
            assert list[p] == k[i] && p < |list| - 1;
          } else {
            assert after[i] == k[i] && after[j] == k[j];
          }
        }
      }
    }
  }

  /** The merged catalog is the surviving saved entries followed by the appended remote entries. */
  lemma MergeSplit(list: seq<Entry>, remote: seq<Entry>)
    ensures |AppendMissing(list, remote)| >= |list|
    ensures Merged(Some(list), remote) == KeepListed(list, remote) + AppendMissing(list, remote)[|list|..]
  {
    var appended := AppendMissing(list, remote);
    AppendMissingExtends(list, remote);
    var added := appended[|list|..];
    assert appended == list + added;
    KeepListedConcat(list, added, remote);
    forall k | 0 <= k < |added| ensures HasUrl(remote, added[k].url) {
      var x := added[k];
      assert x == appended[|list| + k];
      var i :| 0 <= i < |remote| && remote[i] == x;
    }
    KeepListedAll(added, remote);
  }

  /** The merged catalog names exactly the URLs of the remote list. */
  lemma MergeNamesRemoteUrls(list: seq<Entry>, remote: seq<Entry>)
    ensures forall u :: HasUrl(Merged(Some(list), remote), u) <==> HasUrl(remote, u)
  {
    var appended := AppendMissing(list, remote);
    var m := Merged(Some(list), remote);
    AppendMissingUrls(list, remote);
    forall u ensures HasUrl(m, u) <==> HasUrl(remote, u) {
      if HasUrl(remote, u) {
        assert HasUrl(appended, u);
        var i :| 0 <= i < |appended| && appended[i].url == u;
        assert appended[i] in m;
        var j :| 0 <= j < |m| && m[j] == appended[i];
      }
      if HasUrl(m, u) {
        var i :| 0 <= i < |m| && m[i].url == u;
      }
    }
  }

  /**
   * What the merge guarantees: the result names exactly the remote URLs; the saved
   * entries the remote list still names come first, unchanged and in their order; the
   * rest are remote entries whose URL the saved list lacked; and unique URLs stay unique.
   */
  lemma MergeContract(list: seq<Entry>, remote: seq<Entry>)
    ensures var m := Merged(Some(list), remote);
            var kept := KeepListed(list, remote);
            && (forall u :: HasUrl(m, u) <==> HasUrl(remote, u))
            && |kept| <= |m| && m[..|kept|] == kept
            && (forall k :: |kept| <= k < |m| ==> m[k] in remote && !HasUrl(list, m[k].url))
            && (UniqueUrls(list) ==> UniqueUrls(m))
  {
    var appended := AppendMissing(list, remote);
    var m := Merged(Some(list), remote);
    var kept := KeepListed(list, remote);
    MergeSplit(list, remote);
    MergeNamesRemoteUrls(list, remote);
    AppendMissingExtends(list, remote);
    var added := appended[|list|..];
    assert m == kept + added;
    forall k | |kept| <= k < |m| ensures m[k] in remote && !HasUrl(list, m[k].url) {
      assert m[k] == added[k - |kept|] == appended[|list| + k - |kept|];
    }
    if UniqueUrls(list) {
      AppendMissingUnique(list, remote);
      KeepListedUnique(appended, remote);
    }
  }

  /** Consequently every remote URL occurs exactly once in the merged catalog. */
  lemma MergeNamesEachRemoteUrlOnce(list: seq<Entry>, remote: seq<Entry>, u: string)
    requires UniqueUrls(list) && HasUrl(remote, u)
    ensures CountUrl(Merged(Some(list), remote), u) == 1
  {
    MergeContract(list, remote);
    UniqueCount(Merged(Some(list), remote), u);
  }
}
