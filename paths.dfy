/** The two Node `path` operations the core uses, for POSIX paths. */
module Paths {
  import opened Text

  /** The end of `p[..j]` once its trailing `/` characters are dropped. */
  function TrimSlashesBack(p: string, j: nat): (i: nat)
    requires j <= |p|
    ensures i <= j
    ensures forall k :: i <= k < j ==> p[k] == '/'
    ensures i == 0 || p[i - 1] != '/'
  {
    if 0 < j && p[j - 1] == '/' then TrimSlashesBack(p, j - 1) else j
  }

  /** The start of the last `/`-free run of `p[..j]`. */
  function SegmentStart(p: string, j: nat): (i: nat)
    requires j <= |p|
    ensures i <= j
    ensures forall k :: i <= k < j ==> p[k] != '/'
    ensures i == 0 || p[i - 1] == '/'
  {
    if 0 < j && p[j - 1] != '/' then SegmentStart(p, j - 1) else j
  }

  /** The path without its trailing `/` characters. */
  function StripTrailingSlashes(p: string): (r: string)
    ensures |r| <= |p| && r == p[..|r|]
    ensures r == [] || r[|r| - 1] != '/'
    ensures forall k :: |r| <= k < |p| ==> p[k] == '/'
  {
    p[..TrimSlashesBack(p, |p|)]
  }

  /** Everything after the last `/` (all of `p` when it has none). */
  function LastSegment(p: string): (r: string)
    ensures '/' !in r
    ensures EndsWith(p, r)
    ensures |r| < |p| ==> p[|p| - |r| - 1] == '/'
  {
    p[SegmentStart(p, |p|)..]
  }

  /** `path.basename(p)`: the last segment once trailing slashes are ignored;
      empty for `""` and for `"/"`. */
  function Basename(p: string): (r: string)
    ensures '/' !in r
  {
    LastSegment(StripTrailingSlashes(p))
  }

  /** `path.join(dir, name)` for a directory that is already normalised (as
      the current working directory is) and a plain file name. */
  function JoinPath(dir: string, name: string): (r: string)
    ensures StartsWith(r, dir) && EndsWith(r, name)
    ensures dir != [] ==> |name| < |r| && r[|r| - |name| - 1] == '/'
    ensures |r| <= |dir| + 1 + |name|
  {
    if dir == [] then name
    else if EndsWith(dir, "/") then dir + name
    else dir + "/" + name
  }

  /** The segment of `p[..j]` starts right after the last `/` before `j`. */
  lemma {:induction false} SegmentStartAt(p: string, i: nat, j: nat)
    requires i <= j <= |p|
    requires i == 0 || p[i - 1] == '/'
    requires forall k :: i <= k < j ==> p[k] != '/'
    ensures SegmentStart(p, j) == i
    decreases j
  {
    if i < j {
      SegmentStartAt(p, i, j - 1);
    }
  }

  /** A plain file name after a directory prefix is the last segment. */
  lemma LastSegmentOfName(prefix: string, name: string)
    requires '/' !in name
    requires prefix == [] || prefix[|prefix| - 1] == '/'
    ensures LastSegment(prefix + name) == name
  {
    var p := prefix + name;
    forall k | |prefix| <= k < |p|
      ensures p[k] != '/'
    {
      assert p[k] == name[k - |prefix|];
    }
    SegmentStartAt(p, |prefix|, |p|);
    assert p[|prefix|..] == name;
  }

  /** Joining a plain, non-empty file name onto a directory yields a path
      whose basename is that file name. */
  lemma BasenameOfJoin(dir: string, name: string)
    requires name != [] && '/' !in name
    ensures Basename(JoinPath(dir, name)) == name
    ensures StartsWith(JoinPath(dir, name), dir)
  {
    var j := JoinPath(dir, name);
    assert j[|j| - 1] == name[|name| - 1];
    assert TrimSlashesBack(j, |j|) == |j|;
    assert StripTrailingSlashes(j) == j;
    if dir == [] {
      LastSegmentOfName([], name);
      assert j == [] + name;
    } else if EndsWith(dir, "/") {
      LastSegmentOfName(dir, name);
    } else {
      LastSegmentOfName(dir + "/", name);
    }
    assert j[..|dir|] == dir;
  }
}
