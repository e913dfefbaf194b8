/**
 * The file-extension rule of POSIX `os.path.splitext`: the extension is the
 * suffix that starts at the last `.` of the path, provided that `.` lies after
 * the last `/` and is preceded, within the base name, by some character other
 * than `.`; otherwise the extension is empty. So `a.csv` has `.csv`, while
 * `.csv`, `..csv` and `README` have no extension.
 */
module Splitext {

  /** Index of the last occurrence of `c` in `s`, or -1 when there is none. */
  function LastIndexOf(s: string, c: char): (r: int)
    ensures -1 <= r < |s|
    ensures 0 <= r ==> s[r] == c
    ensures forall k :: r < k < |s| ==> s[k] != c
  {
    if s == [] then -1
    else if s[|s| - 1] == c then |s| - 1
    else LastIndexOf(s[..|s| - 1], c)
  }

  /** The second component of `os.path.splitext(path)`. */
  function Extension(path: string): (ext: string)
    ensures ext == [] || (ext[0] == '.' && |ext| <= |path| && ext == path[|path| - |ext|..])
    ensures forall k :: 0 < k < |ext| ==> ext[k] != '.' && ext[k] != '/'
  {
    var sep := LastIndexOf(path, '/');
    var dot := LastIndexOf(path, '.');
    if sep < dot && exists k :: sep < k < dot && path[k] != '.' then path[dot..] else []
  }

  /** A base name with a non-dot character before its final `.` has that final suffix as extension. */
  lemma ExtensionOfDotted(stem: string, tail: string)
    requires forall k :: 0 <= k < |tail| ==> tail[k] != '.' && tail[k] != '/'
    requires exists k :: 0 <= k < |stem| && stem[k] != '.' && forall m :: k <= m < |stem| ==> stem[m] != '/'
    ensures Extension(stem + "." + tail) == "." + tail
  {
    var p := stem + "." + tail;
    var k :| 0 <= k < |stem| && stem[k] != '.' && forall m :: k <= m < |stem| ==> stem[m] != '/';
    assert p[|stem|] == '.';
    assert forall m :: |stem| < m < |p| ==> p[m] == tail[m - |stem| - 1];
    var dot := LastIndexOf(p, '.');
    var sep := LastIndexOf(p, '/');
    assert dot == |stem|;
    assert forall m :: k <= m < |p| ==> p[m] != '/';
    assert sep < k;
    assert sep < k < dot && p[k] != '.';
    assert p[dot..] == "." + tail;
  }

  /**
   * A base name whose final `.` is preceded only by dots (a hidden file such as
   * `.csv`, or `..csv`) has no extension.
   */
  lemma ExtensionOfDotsOnly(dots: string, tail: string)
    requires forall k :: 0 <= k < |dots| ==> dots[k] == '.'
    requires forall k :: 0 <= k < |tail| ==> tail[k] != '.' && tail[k] != '/'
    ensures Extension(dots + "." + tail) == ""
  {
    var p := dots + "." + tail;
    assert p[|dots|] == '.';
    assert forall m :: |dots| < m < |p| ==> p[m] == tail[m - |dots| - 1];
    var dot := LastIndexOf(p, '.');
    assert dot == |dots|;
    assert forall k :: 0 <= k < dot ==> p[k] == '.';
  }

  /** A name without any `.` has no extension. */
  lemma ExtensionWithoutDot(name: string)
    requires forall k :: 0 <= k < |name| ==> name[k] != '.'
    ensures Extension(name) == ""
  {
    assert LastIndexOf(name, '.') == -1;
  }
}
