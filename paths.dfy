/** File-name helpers of the script (git2patch.py:335-348). */
module Paths {

  /** The separators of a Windows path: `os.path.sep` and the `/` that `normpath` turns into it. */
  predicate IsSeparator(c: char)
  {
    c == '\\' || c == '/'
  }

  /** The index of the last separator before `end`, or -1 when there is none. */
  function LastSeparator(path: string, end: nat): (r: int)
    requires end <= |path|
    ensures -1 <= r < end
    ensures r >= 0 ==> IsSeparator(path[r])
    ensures forall k :: r < k < end ==> !IsSeparator(path[k])
  {
    if end == 0 then -1
    else if IsSeparator(path[end - 1]) then end - 1
    else LastSeparator(path, end - 1)
  }

  /**
   * `get_last_element_of_path`: the part of an already normalised path after
   * its last separator (the whole path when it has none).
   */
  function LastPathElement(path: string): (r: string)
    ensures forall k :: 0 <= k < |r| ==> !IsSeparator(r[k])
    ensures |r| <= |path| && r == path[|path| - |r|..]
    ensures |r| < |path| ==> IsSeparator(path[|path| - |r| - 1])
  {
    path[LastSeparator(path, |path|) + 1..]
  }

  /** A directory prefix followed by a plain name yields that name. */
  lemma LastPathElementOfJoin(dir: string, name: string)
    requires forall k :: 0 <= k < |name| ==> !IsSeparator(name[k])
    requires dir == [] || IsSeparator(dir[|dir| - 1])
    ensures LastPathElement(dir + name) == name
  {
    var p := dir + name;
    assert p[|p| - |name|..] == name;
  }
}
