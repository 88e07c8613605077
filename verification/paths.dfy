/**
 The POSIX path helpers the locator relies on: joining a directory with a
 file name, and splitting a file path into its directory and base name.
 */
module Paths {

  predicate HasNoSlash(s: string) {
    forall i :: 0 <= i < |s| ==> s[i] != '/'
  }

  predicate AllSlashes(s: string) {
    forall i :: 0 <= i < |s| ==> s[i] == '/'
  }

  /** One past the last `/`, or 0 when there is none. */
  function SplitIndex(p: string): (n: nat)
    ensures n <= |p|
    ensures HasNoSlash(p[n..])
    ensures n > 0 ==> p[n - 1] == '/'
  {
    if |p| == 0 then 0
    else if p[|p| - 1] == '/' then |p|
    else
      var n := SplitIndex(p[..|p| - 1]);
      assert p[n..] == p[..|p| - 1][n..] + [p[|p| - 1]];
      n
  }

  /** Removes every trailing `/`. */
  function StripTrailingSlashes(s: string): (r: string)
    ensures |r| <= |s| && r == s[..|r|]
    ensures |r| == 0 || r[|r| - 1] != '/'
    ensures AllSlashes(s[|r|..])
  {
    if |s| > 0 && s[|s| - 1] == '/' then
      var r := StripTrailingSlashes(s[..|s| - 1]);
      assert s[|r|..] == s[..|s| - 1][|r|..] + ['/'];
      r
    else s
  }

  /** The final component (`os.path.basename`). */
  function Basename(p: string): string {
    p[SplitIndex(p)..]
  }

  /** Everything before the final component, trailing slashes removed unless it is all slashes (`os.path.dirname`). */
  function Dirname(p: string): string {
    var head := p[..SplitIndex(p)];
    if |head| > 0 && !AllSlashes(head) then StripTrailingSlashes(head) else head
  }

  /** `os.path.join` of two components. */
  function Join(a: string, b: string): string {
    if |b| > 0 && b[0] == '/' then b
    else if |a| == 0 || a[|a| - 1] == '/' then a + b
    else a + "/" + b
  }

  /** A base name has no separator in it. */
  lemma BasenameHasNoSlash(p: string)
    ensures HasNoSlash(Basename(p))
    ensures |Basename(p)| <= |p| && Basename(p) == p[|p| - |Basename(p)|..]
  {
  }

  /** Joining a name without separators and taking the base name gives the name back. */
  lemma BasenameOfJoin(dir: string, name: string)
    requires HasNoSlash(name)
    ensures Basename(Join(dir, name)) == name
  {
    if |dir| == 0 || dir[|dir| - 1] == '/' {
      SplitAfterSeparator(dir, name);
    } else {
      SplitAfterSeparator(dir + "/", name);
    }
  }

  /** The split point of `a + b`, where `a` is empty or ends in a separator and `b` has none, is `|a|`. */
  lemma {:induction false} SplitAfterSeparator(a: string, b: string)
    requires |a| == 0 || a[|a| - 1] == '/'
    requires HasNoSlash(b)
    ensures SplitIndex(a + b) == |a|
    ensures Basename(a + b) == b
  {
    if |b| > 0 {
      var p := a + b;
      assert p[|p| - 1] == b[|b| - 1];
      assert p[..|p| - 1] == a + b[..|b| - 1];
      SplitAfterSeparator(a, b[..|b| - 1]);
    }
    assert (a + b)[|a|..] == b;
  }

  /** Joining a plain directory with a name and taking the directory part gives the directory back. */
  lemma DirnameOfJoin(dir: string, name: string)
    requires HasNoSlash(name)
    requires |dir| > 0 && dir[|dir| - 1] != '/'
    ensures Dirname(Join(dir, name)) == dir
  {
    var p := Join(dir, name);
    assert p == (dir + "/") + name;
    SplitAfterSeparator(dir + "/", name);
    var n := SplitIndex(p);
    assert n == |dir| + 1;
    var head := p[..n];
    assert head == dir + "/";
    assert head[|head| - 2] != '/';
    assert !AllSlashes(head);
    var r := StripTrailingSlashes(head);
    assert r == StripTrailingSlashes(dir);
  }
}
