/**
 * File-system paths as plain character sequences.  `Path.Combine` and
 * `Path.GetDirectoryName` of .NET are modelled by a join with one separator
 * and by "everything before the last separator"; rooted paths, drive letters
 * and alternative separators are not modelled.
 */
module Paths {
  import opened Wrappers

  type Path = string

  const Separator: char := '\\'

  /** `string.IsNullOrEmpty` on a field that may be unset. */
  predicate IsNullOrEmpty(p: Option<Path>): (b: bool)
    ensures !b <==> p.Some? && |p.value| > 0
  {
    p.None? || p.value == ""
  }

  /** `Path.Combine(dir, rel)`: `dir`, one separator, then `rel`. */
  function Combine(dir: Path, rel: Path): (p: Path)
    ensures |p| == |dir| + 1 + |rel|
    ensures p[..|dir|] == dir && p[|dir|] == Separator && p[|dir| + 1..] == rel
  {
    dir + [Separator] + rel
  }

  /**
   * `Path.GetDirectoryName(p)`: the prefix of `p` before its last separator,
   * or the empty path when `p` has no separator.
   */
  function GetDirectoryName(p: Path): (r: Path)
    ensures |r| <= |p| && r == p[..|r|]
    ensures Separator in p ==> |r| < |p| && p[|r|] == Separator && Separator !in p[|r| + 1..]
    ensures Separator !in p ==> r == ""
  {
    if |p| == 0 then ""
    else if p[|p| - 1] == Separator then p[..|p| - 1]
    else
      var q := p[..|p| - 1];
      assert p == q + [p[|p| - 1]];
      var r := GetDirectoryName(q);
      assert Separator in p ==> Separator in q;
      assert Separator in q ==> p[|r| + 1..] == q[|r| + 1..] + [p[|p| - 1]];
      r
  }

  /** A file name without separators, joined to a directory, lies in that directory. */
  lemma DirectoryOfCombine(dir: Path, name: Path)
    requires Separator !in name
    ensures GetDirectoryName(Combine(dir, name)) == dir
  {
  }
}
