/**
 * The parts of Node's `path` module the compiler uses, on POSIX, for a
 * single path segment (a name without `/`). Paths themselves are modelled
 * as sequences of segments relative to the working directory.
 */
module NodePath {
  import opened JsString

  /** A path relative to the working directory, segment by segment; `[]` is the working directory. */
  type Path = seq<string>

  /**
   * `path.extname(name)`: from the last `.` to the end, except that a name
   * with no `.`, a name whose only `.` is its first character, and `..` have
   * no extension.
   */
  function ExtName(name: string): (e: string)
    ensures e == "" || (e[0] == '.' && '.' !in e[1..] && 1 <= |name| - |e| && EndsWith(name, e))
    ensures e == "" <==> name == "" || '.' !in name[1..] || name == ".."
  {
    var i := LastIndexOfChar(name, '.');
    if i <= 0 || name == ".." then "" else name[i..]
  }

  /** `path.basename(name, path.extname(name))`: the name without its extension. */
  function Stem(name: string): (s: string)
    ensures s + ExtName(name) == name
  {
    name[..|name| - |ExtName(name)|]
  }

  /** The POSIX text of a relative path (`path.relative(cwd, p)` for `p` below the working directory). */
  function Render(p: Path): string
  {
    Join(p, '/')
  }

  /** `p` lies at or below `root`. */
  predicate Under(root: Path, p: Path)
  {
    |root| <= |p| && p[..|root|] == root
  }

  /** `p` lies strictly below `root`. */
  predicate Below(root: Path, p: Path)
  {
    |root| < |p| && p[..|root|] == root
  }

  function Parent(p: Path): Path
    requires p != []
  {
    p[..|p| - 1]
  }

  function Last(p: Path): string
    requires p != []
  {
    p[|p| - 1]
  }

  /** A name made of a non-empty prefix and an extension of at least one character after the dot. */
  lemma ExtNameOfSuffix(prefix: string, ext: string)
    requires prefix != ""
    requires |ext| >= 2 && ext[0] == '.' && '.' !in ext[1..]
    ensures ExtName(prefix + ext) == ext && Stem(prefix + ext) == prefix
  {
    var n := prefix + ext;
    var i := LastIndexOfChar(n, '.');
    assert n[|prefix|] == '.';
    assert n[|prefix| + 1..] == ext[1..];
    assert i == |prefix|;
    assert n != "..";
  }
}
