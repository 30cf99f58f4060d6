/** The parts of a file name that `pathlib` and `os.path` split off. */
module PyPaths {
  import opened Wrappers

  /** The index of the last `.` in `s`. */
  function LastDot(s: string): (r: Option<nat>)
    ensures r.Some? ==> r.value < |s| && s[r.value] == '.' && forall k :: r.value < k < |s| ==> s[k] != '.'
    ensures r.None? ==> forall k :: 0 <= k < |s| ==> s[k] != '.'
  {
    if s == [] then None
    else if s[|s| - 1] == '.' then Some(|s| - 1)
    else LastDot(s[..|s| - 1])
  }

  /** `Path(name).suffix`: from the last dot on, unless that dot is the first or the last character. */
  function Suffix(name: string): string {
    match LastDot(name)
    case Some(i) => if 0 < i < |name| - 1 then name[i..] else ""
    case None => ""
  }

  /**
   * The extension `os.path.splitext(name)` returns: from the last dot on, unless every
   * character before that dot is itself a dot. Unlike `Suffix`, a trailing dot counts.
   */
  function SplitExtension(name: string): (ext: string)
    ensures ext == "" || (ext[0] == '.' && '.' !in ext[1..])
    ensures ext != "" ==> exists k :: 0 < k < |name| && name[k..] == ext
  {
    match LastDot(name)
    case Some(i) =>
      if exists j :: 0 <= j < i && name[j] != '.' then
        assert name[i..][1..] == name[i + 1..];
        name[i..]
      else ""
    case None => ""
  }

  /** `os.path.basename(path)` with `/` as the separator: what follows the last `/`. */
  function Basename(path: string): (r: string)
    ensures '/' !in r
    ensures |r| <= |path| && r == path[|path| - |r|..]
    ensures r == [] <==> path == [] || path[|path| - 1] == '/'
  {
    if path == [] || path[|path| - 1] == '/' then []
    else
      var n := |path| - 1;
      var r := Basename(path[..n]);
      assert path[..n][n - |r|..] + [path[n]] == path[n - |r|..];
      r + [path[n]]
  }
}
