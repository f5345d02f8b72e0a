/**
 * The background catalog as the backend keeps it and the UI reads it: an ordered list of
 * entries, identified by their remote `url`.
 */
module Backgrounds {
  import opened Wrappers
  import opened Paths

  /**
   * One catalog entry. `filename` is `None` while the JSON object has no `filename`
   * property (a remote entry); `meta` stands for the attribution fields, passed through.
   */
  datatype Entry = Entry(url: string, filename: Option<string>, downloaded: bool, meta: map<string, string>)

  /** `_.find(list, e => e.url === u)` is truthy. */
  predicate HasUrl(list: seq<Entry>, u: string)
  {
    exists i :: 0 <= i < |list| && list[i].url == u
  }

  /** No URL occurs twice. */
  ghost predicate UniqueUrls(list: seq<Entry>)
  {
    forall i, j :: 0 <= i < j < |list| ==> list[i].url != list[j].url
  }

  /** Number of entries carrying URL `u`. */
  function CountUrl(list: seq<Entry>, u: string): nat
  {
    if list == [] then 0
    else CountUrl(list[..|list| - 1], u) + (if list[|list| - 1].url == u then 1 else 0)
  }

  /** With unique URLs, every URL occurs once or not at all. */
  lemma {:induction false} UniqueCount(list: seq<Entry>, u: string)
    requires UniqueUrls(list)
    ensures CountUrl(list, u) == if HasUrl(list, u) then 1 else 0
  {
    if list != [] {
      var init := list[..|list| - 1];
      assert UniqueUrls(init);
      UniqueCount(init, u);
      if list[|list| - 1].url == u {
        assert !HasUrl(init, u);
      } else {
        assert HasUrl(list, u) <==> HasUrl(init, u) by {
          if HasUrl(list, u) {
            var i :| 0 <= i < |list| && list[i].url == u;
            assert i < |init| && init[i].url == u;
          }
        }
      }
    }
  }

  /**
   * The content-addressed file name of a URL: the hex SHA-1 of the URL (the hash is an
   * oracle here) followed by the URL's own extension.
   */
  function ContentName(sha1: string -> string, url: string): string
  {
    sha1(url) + Extname(url)
  }

  /**
   * A content name keeps the URL's extension, and it is a plain file name (no '/')
   * whenever the hash is.
   */
  lemma ContentNameShape(sha1: string -> string, url: string)
    ensures var n := ContentName(sha1, url);
            && n[..|sha1(url)|] == sha1(url) && n[|sha1(url)|..] == Extname(url)
            && ('/' !in sha1(url) ==> '/' !in n)
  {
    ExtnameSpec(url);
    var n := ContentName(sha1, url);
    if '/' in n {
      var i :| 0 <= i < |n| && n[i] == '/';
      if i >= |sha1(url)| {
        assert Extname(url)[i - |sha1(url)|] == '/';
      }
    }
  }

  /** The object the UI services hand out: the full path of the image and its entry. */
  class Background {
    const filename: string
    const metadata: Entry

    constructor (filename: string, metadata: Entry)
      ensures this.filename == filename && this.metadata == metadata
    {
      this.filename := filename;
      this.metadata := metadata;
    }
  }

  /**
   * How a call of `getRandomBackground` ends: its promise resolves (possibly with `null`),
   * rejects with a reason, or never settles because the callback threw (`Faulted`) or a
   * loop can never exit, whatever is drawn next (`Hangs`). `Waiting` is a call made before
   * both the data and the first-available promises resolved: its selection has not run
   * yet. `Drawing` is a selection still redrawing when the draws supplied to the model
   * ran out, with an index left that a further draw could still reach.
   */
  datatype Settlement = Resolved(bg: Background?) | Rejected(reason: string) | Faulted | Hangs | Waiting | Drawing

  /**
   * The integers that `Math.floor(Math.random() * (len - 1))` can produce: [0, len-2] for
   * len >= 2, only 0 for len == 1, and -1 or (negative) zero for an empty list.
   */
  predicate InDrawRange(k: int, len: nat)
  {
    if len == 0 then k == -1 || k == 0
    else if len == 1 then k == 0
    else 0 <= k <= len - 2
  }

  /** A draw for a non-empty list is a valid index, and never the last one once there are two. */
  lemma DrawIsIndex(k: int, len: nat)
    requires len >= 1 && InDrawRange(k, len)
    ensures 0 <= k < len
    ensures len >= 2 ==> k != len - 1
  {
  }
}
