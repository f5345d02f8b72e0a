/**
 * The few functions of Node's `path` module that the background code relies on,
 * for POSIX paths that do not end in '/': `basename`, `extname` and `join`. Their
 * properties are lemmas rather than postconditions, so that code built on them does
 * not carry the quantified facts into every proof.
 */
module Paths {

  /** Position of the last occurrence of `c` in `s`, or -1 when there is none. */
  function LastIndexOf(s: string, c: char): (r: int)
    ensures -1 <= r < |s|
  {
    if |s| == 0 then -1
    else if s[|s| - 1] == c then |s| - 1
    else LastIndexOf(s[..|s| - 1], c)
  }

  lemma {:induction false} LastIndexOfSpec(s: string, c: char)
    ensures var r := LastIndexOf(s, c);
            && -1 <= r < |s|
            && (r >= 0 ==> s[r] == c)
            && (forall k :: r < k < |s| ==> s[k] != c)
  {
    if |s| > 0 && s[|s| - 1] != c {
      LastIndexOfSpec(s[..|s| - 1], c);
    }
  }

  /** `path.basename(p)`: everything after the last '/'. */
  function Basename(p: string): string
  {
    p[LastIndexOf(p, '/') + 1..]
  }

  lemma BasenameSpec(p: string)
    ensures var r := Basename(p);
            '/' !in r && |r| <= |p| && r == p[|p| - |r|..]
  {
    LastIndexOfSpec(p, '/');
  }

  /**
   * `path.extname(p)`: the basename from its last '.', or "" when the basename has
   * no '.' other than a leading one, or is "..".
   */
  function Extname(p: string): string
  {
    var b := Basename(p);
    var k := LastIndexOf(b, '.');
    if k <= 0 || b == ".." then "" else b[k..]
  }

  lemma ExtnameSpec(p: string)
    ensures var r := Extname(p);
            && (r == "" || (r[0] == '.' && '.' !in r[1..] && '/' !in r))
            && |r| <= |p| && r == p[|p| - |r|..]
  {
    BasenameSpec(p);
    LastIndexOfSpec(Basename(p), '.');
  }

  /** `path.join(dir, name)` for a directory and a plain file name. */
  function Join(dir: string, name: string): (r: string)
    ensures |r| == |dir| + 1 + |name|
    ensures r[..|dir|] == dir && r[|dir|] == '/' && r[|dir| + 1..] == name
  {
    dir + "/" + name
  }

  /** The last occurrence is the one with no occurrence after it. */
  lemma {:induction false} LastIndexOfIs(s: string, c: char, i: nat)
    requires i < |s| && s[i] == c
    requires forall k :: i < k < |s| ==> s[k] != c
    ensures LastIndexOf(s, c) == i
  {
    if i < |s| - 1 {
      LastIndexOfIs(s[..|s| - 1], c, i);
    }
  }

  /** A plain file name is its own basename, and joining it to a directory does not lose it. */
  lemma BasenameOfJoin(dir: string, name: string)
    requires '/' !in name
    ensures Basename(name) == name
    ensures Basename(Join(dir, name)) == name
  {
    LastIndexOfSpec(name, '/');
    var j := Join(dir, name);
    forall k | |dir| < k < |j|
      ensures j[k] != '/'
    {
      assert j[k] == j[|dir| + 1..][k - |dir| - 1];
    }
    LastIndexOfIs(j, '/', |dir|);
  }
}
