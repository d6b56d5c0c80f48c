/**
 * The two path operations of Ruby's `File` that name a download: `File.basename` and
 * `File.join`, on POSIX paths where `/` is the only separator.
 */
module FilePaths {

  predicate AllSlashes(s: string) {
    forall i :: 0 <= i < |s| ==> s[i] == '/'
  }

  predicate NoSlash(s: string) {
    forall i :: 0 <= i < |s| ==> s[i] != '/'
  }

  /** The length of `s` without its trailing run of separators. */
  function TrimmedLength(s: string): (n: nat)
    ensures n <= |s| && AllSlashes(s[n..])
    ensures n > 0 ==> s[n - 1] != '/'
  {
    if s == [] then 0
    else if s[|s| - 1] == '/' then
      var n := TrimmedLength(s[..|s| - 1]);
      assert s[n..] == s[..|s| - 1][n..] + ['/'];
      n
    else |s|
  }

  /** Where the last segment of `s` starts: just after its last separator, or 0. */
  function SegmentStart(s: string): (k: nat)
    ensures k <= |s| && NoSlash(s[k..])
    ensures k > 0 ==> s[k - 1] == '/'
  {
    if s == [] then 0
    else if s[|s| - 1] == '/' then |s|
    else
      var k := SegmentStart(s[..|s| - 1]);
      assert s[k..] == s[..|s| - 1][k..] + [s[|s| - 1]];
      k
  }

  /** `File.basename(path)`: the last segment once trailing separators are dropped; `"/"`
      for a path made of separators only, and `""` for the empty path. */
  function Basename(path: string): string {
    if path == [] then []
    else
      var n := TrimmedLength(path);
      if n == 0 then "/"
      else path[..n][SegmentStart(path[..n])..]
  }

  /** `File.join(folder, name)`: one separator between the two; a name that starts with a
      separator replaces the folder's trailing separators, and a folder that already ends
      in one gets no other. */
  function Join(folder: string, name: string): string {
    var n := TrimmedLength(folder);
    if name != [] && name[0] == '/' then folder[..n] + name
    else if n == |folder| then folder + "/" + name
    else folder + name
  }

  /** What `File.basename` returns: nothing for an empty path, the root for an all-separator
      path, and otherwise a non-empty segment without separators that ends the path once
      its trailing separators are dropped and that starts the path or follows a separator. */
  lemma BasenameShape(path: string)
    ensures path == [] ==> Basename(path) == []
    ensures path != [] && AllSlashes(path) ==> Basename(path) == "/"
    ensures !AllSlashes(path) ==>
      var name := Basename(path);
      var n := TrimmedLength(path);
      name != [] && NoSlash(name) && |name| <= n && path[n - |name|..n] == name &&
      (n == |name| || path[n - |name| - 1] == '/') && AllSlashes(path[n..])
  {
    var n := TrimmedLength(path);
    assert path[0..] == path;
    if !AllSlashes(path) {
      var t := path[..n];
      var k := SegmentStart(t);
      assert t[n - 1] != '/';
      assert k < |t|;
      assert path[k..n] == t[k..];
    }
  }

  /** `File.join` keeps the folder, puts a separator right before the name and adds at most
      that one character, unless the name itself starts with a separator. */
  lemma JoinShape(folder: string, name: string)
    ensures name == [] || name[0] != '/' ==>
      var r := Join(folder, name);
      |folder| + |name| <= |r| <= |folder| + |name| + 1 &&
      r[..|folder|] == folder && r[|r| - |name|..] == name &&
      (|r| > |name| && r[|r| - |name| - 1] == '/')
    ensures name != [] && name[0] == '/' ==>
      Join(folder, name) == folder[..TrimmedLength(folder)] + name && AllSlashes(folder[TrimmedLength(folder)..])
  {
    var n := TrimmedLength(folder);
    if (name == [] || name[0] != '/') && n < |folder| {
      assert folder[|folder| - 1] == folder[n..][|folder| - 1 - n];
    }
  }

  /** The last segment of a folder joined with a plain name is that name. */
  lemma BasenameJoin(folder: string, name: string)
    requires name != [] && NoSlash(name)
    ensures Basename(Join(folder, name)) == name
  {
    JoinShape(folder, name);
    BasenameAfterSlash(Join(folder, name), |Join(folder, name)| - |name|);
  }

  /** A path whose text after position `k`, just after a separator, is a plain segment has
      that segment as its base name. */
  lemma BasenameAfterSlash(path: string, k: nat)
    requires 0 < k < |path| && path[k - 1] == '/' && NoSlash(path[k..])
    ensures Basename(path) == path[k..]
  {
    assert path[|path| - 1] == path[k..][|path| - 1 - k];
    assert TrimmedLength(path) == |path|;
    assert path[..|path|] == path;
    var j := SegmentStart(path);
    assert forall i :: j <= i < |path| ==> path[i] == path[j..][i - j];
    assert forall i :: k <= i < |path| ==> path[i] == path[k..][i - k];
  }
}
