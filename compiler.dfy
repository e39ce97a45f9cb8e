/**
 * The older, fixed-naming compiler of src/compile/compile.ts: every `.scss`
 * or `.sass` file below an entry's base directory is compiled to a `.css`
 * file at the mirrored place below its output directory. It never removes
 * an output on its own; in watch mode a removed source removes one output.
 *
 * Paths are relative to the working directory, segment by segment, as in
 * the entry compiler. `sass` yields the compiled CSS of a source, `None`
 * when compiling throws.
 */
module Compiler {
  import opened Wrappers
  import opened JsString
  import opened NodePath
  import opened FileSystem
  import opened Reconcile

  const ScssExtension: string := ".scss"
  const SassExtension: string := ".sass"
  const CssExtension: string := ".css"

  /** One configured entry: the base and output directories, below the working directory. */
  datatype Entry = Entry(baseDir: Path, outputDir: Path)

  /** What `processEntry` logs instead of rejecting. */
  datatype EntryError =
    | StatFailed(path: Path)
    | MkdirFailed(path: Path, cause: FsError)
    | ProcessingFailed(baseDir: Path)

  /** Why a file of the forward pass rejects. */
  datatype FileError = CompileFailed(file: Path) | WriteFailed(file: Path, cause: FsError)

  /** Only names whose extension is exactly `.scss` or `.sass` are compiled. */
  predicate IsSource(name: string)
  {
    ExtName(name) == ScssExtension || ExtName(name) == SassExtension
  }

  /** `filename.replace(ext, '.css')`: the FIRST occurrence of the name's extension becomes `.css`. */
  function CssName(name: string): string
  {
    ReplaceFirst(name, ExtName(name), CssExtension)
  }

  /** A source whose stem has no dot has its extension swapped for `.css`. */
  lemma CssNameSwapsExtension(name: string)
    requires IsSource(name) && '.' !in Stem(name)
    ensures CssName(name) == Stem(name) + CssExtension
  {
    ReplaceFirstLast(Stem(name), ExtName(name), CssExtension);
  }

  /** An extension as `path.extname` yields it: a dot and at least one more character, none of them a dot. */
  predicate Extension(e: string)
  {
    |e| >= 2 && e[0] == '.' && '.' !in e[1..]
  }

  lemma SourceExtensions()
    ensures Extension(ScssExtension) && Extension(SassExtension) && Extension(CssExtension)
  {
    assert ScssExtension[1..] == "scss" && SassExtension[1..] == "sass" && CssExtension[1..] == "css";
  }

  /**
   * The replacement hits the first occurrence, not the suffix: a doubled
   * extension such as `a.scss.scss` is compiled to `a.css.scss`, which is not
   * a `.css` name at all.
   */
  lemma CssNameFirstOccurrence(stem: string, e: string)
    requires stem != "" && '.' !in stem && Extension(e)
    ensures CssName(stem + e + e) == stem + CssExtension + e
    ensures ExtName(CssName(stem + e + e)) == e
  {
    ExtNameOfSuffix(stem + e, e);
    ReplaceFirstMiddle(stem, e, e, CssExtension);
    ExtNameOfSuffix(stem + CssExtension, e);
  }

  /**
   * The path `processFile` writes for source `s` when the pass started at
   * `dir` and `out`: the directories between them mirrored, then the `.css`
   * name.
   */
  function Target(dir: Path, out: Path, s: Path): (p: Path)
    requires Below(dir, s)
    ensures Below(out, p) && |p| == |out| + |s| - |dir|
  {
    out + s[|dir|..|s| - 1] + [CssName(Last(s))]
  }

  /** The output of a source below a sub-directory lands in the same place whichever level it is seen from. */
  lemma TargetFromChild(dir: Path, out: Path, n: string, s: Path)
    requires Below(dir + [n], s)
    ensures Below(dir, s) && Target(dir + [n], out + [n], s) == Target(dir, out, s)
  {
    MirrorFromParent(dir, out, n, s);
  }

  /**
   * The watcher's `ignored` option: a path whose stats say it is a file
   * ending in neither `.scss` nor `.sass` is not watched. Neither suffix
   * holds a `/`, so testing the last segment is testing the whole path.
   */
  predicate Ignored(path: Path, isFile: Option<bool>)
  {
    isFile == Some(true) && path != [] && !EndsWith(Last(path), ScssExtension) && !EndsWith(Last(path), SassExtension)
  }

  /** `path.join(a, b)` for an absolute `a` without a trailing `/`, without normalisation. */
  function JoinPath(a: string, b: string): string
  {
    if b == "" then a else if b[0] == '/' then a + b else a + "/" + b
  }

  /**
   * The file the `unlink` listener deletes, as written: the part of
   * `watchPath` after the first occurrence of the working directory `cwd`,
   * with its first `.scss` turned into `.css`, joined to the absolute
   * output directory; nothing when `watchPath` does not contain `cwd`.
   */
  function UnlinkTargetAsWritten(cwd: string, outputDir: string, watchPath: string): (r: Option<string>)
    ensures r.Some? <==> Contains(watchPath, cwd)
  {
    var idx := IndexOf(watchPath, cwd);
    if idx < 0 then None
    else Some(JoinPath(cwd + "/" + outputDir, ReplaceFirst(watchPath[idx + |cwd|..], ScssExtension, CssExtension)))
  }

  /**
   * The file the `unlink` listener evidently means to delete: the output
   * the forward pass wrote for the removed source, which mirrors its path
   * below the BASE directory, with the source's own extension swapped.
   */
  function UnlinkTarget(baseDir: Path, outputDir: Path, watchPath: Path): (r: Option<Path>)
    ensures r.Some? <==> Below(baseDir, watchPath) && IsSource(Last(watchPath))
    ensures r.Some? ==> r.value == Target(baseDir, outputDir, watchPath)
  {
    if Below(baseDir, watchPath) && IsSource(Last(watchPath)) then Some(Target(baseDir, outputDir, watchPath)) else None
  }

  /** No segment holds the separator or a dot. */
  predicate Plain(p: Path)
  {
    forall i :: 0 <= i < |p| ==> '/' !in p[i] && '.' !in p[i]
  }

  /** Joining two non-empty lists of segments puts one separator between their texts. */
  lemma {:induction false} JoinAppend(a: seq<string>, b: seq<string>, sep: char)
    requires a != [] && b != []
    decreases |a|
    ensures Join(a + b, sep) == Join(a, sep) + [sep] + Join(b, sep)
  {
    if |a| == 1 {
      assert (a + b)[1..] == b;
    } else {
      assert (a + b)[1..] == a[1..] + b;
      JoinAppend(a[1..], b, sep);
    }
  }

  /** Segments without a character give a text without it, apart from the separators. */
  lemma {:induction false} JoinWithout(p: seq<string>, sep: char, c: char)
    requires c != sep && forall i :: 0 <= i < |p| ==> c !in p[i]
    ensures c !in Join(p, sep)
  {
    if |p| > 1 {
      JoinWithout(p[1..], sep, c);
    }
  }

  /** The rendered path of a plain directory and a file `stem.scss`, with `.scss` swapped by `replace`. */
  lemma RenderedSwap(dirs: Path, stem: string)
    requires Plain(dirs) && '/' !in stem && '.' !in stem
    ensures ReplaceFirst(Render(dirs + [stem + ScssExtension]), ScssExtension, CssExtension)
         == Render(dirs + [stem + CssExtension])
  {
    var pre := RenderedPrefix(dirs, stem);
    RenderedSplit(dirs, stem, ScssExtension);
    RenderedSplit(dirs, stem, CssExtension);
    ReplaceFirstLast(pre, ScssExtension, CssExtension);
  }

  /** What the rendered path of `dirs + [stem + e]` holds before `e`. */
  function RenderedPrefix(dirs: Path, stem: string): (pre: string)
    requires Plain(dirs) && '.' !in stem
    ensures '.' !in pre
  {
    if dirs == [] then stem
    else
      JoinWithout(dirs, '/', '.');
      Render(dirs) + "/" + stem
  }

  lemma RenderedSplit(dirs: Path, stem: string, e: string)
    requires Plain(dirs) && '.' !in stem
    ensures Render(dirs + [stem + e]) == RenderedPrefix(dirs, stem) + e
  {
    if dirs == [] {
      assert dirs + [stem + e] == [stem + e];
    } else {
      JoinAppend(dirs, [stem + e], '/');
    }
  }

  /** The absolute text of a path below the working directory `cwd`. */
  function Absolute(cwd: string, p: Path): string
  {
    cwd + "/" + Render(p)
  }

  /**
   * As written, the `unlink` listener maps the removed source to the
   * output path of its whole path below the working directory, base
   * directory included, and not to its path below the base directory.
   */
  lemma UnlinkAsWrittenTarget(cwd: string, dirs: Path, out: Path, stem: string)
    requires out != [] && Plain(dirs) && '/' !in stem && '.' !in stem
    ensures UnlinkTargetAsWritten(cwd, Render(out), Absolute(cwd, dirs + [stem + ScssExtension]))
         == Some(Absolute(cwd, out + (dirs + [stem + CssExtension])))
  {
    var p := dirs + [stem + ScssExtension];
    var q := dirs + [stem + CssExtension];
    var tail := "/" + Render(p);
    assert Absolute(cwd, p) == cwd + tail;
    AsWrittenBelowCwd(cwd, Render(out), tail);
    SwapAfterSlash(dirs, stem);
    JoinBelow(cwd, out, q);
  }

  /** For a path that starts with the working directory, the listener cuts exactly that prefix off. */
  lemma AsWrittenBelowCwd(cwd: string, o: string, tail: string)
    ensures UnlinkTargetAsWritten(cwd, o, cwd + tail)
         == Some(JoinPath(cwd + "/" + o, ReplaceFirst(tail, ScssExtension, CssExtension)))
  {
    var w := cwd + tail;
    assert w[..|cwd|] == cwd;
    assert OccursAt(w, cwd, 0);
    assert w[|cwd|..] == tail;
  }

  /** The leading `/` does not take part in the replacement. */
  lemma SwapAfterSlash(dirs: Path, stem: string)
    requires Plain(dirs) && '/' !in stem && '.' !in stem
    ensures ReplaceFirst("/" + Render(dirs + [stem + ScssExtension]), ScssExtension, CssExtension)
         == "/" + Render(dirs + [stem + CssExtension])
  {
    var r := Render(dirs + [stem + ScssExtension]);
    NoLeadingDot(r);
    ReplaceFirstAfter("/", r, ScssExtension, CssExtension);
    RenderedSwap(dirs, stem);
  }

  lemma NoLeadingDot(r: string)
    ensures forall i :: 0 <= i < |"/"| ==> !OccursAt("/" + r, ScssExtension, i)
  {
    forall i | 0 <= i < |"/"|
      ensures !OccursAt("/" + r, ScssExtension, i)
    {
      if i + |ScssExtension| <= |"/" + r| {
        assert ("/" + r)[i..i + |ScssExtension|][0] == '/';
      }
    }
  }

  /** Joining `/` and a rendered path to a rendered directory is rendering the longer path. */
  lemma JoinBelow(cwd: string, out: Path, q: Path)
    requires out != [] && q != []
    ensures JoinPath(cwd + "/" + Render(out), "/" + Render(q)) == Absolute(cwd, out + q)
  {
    JoinAppend(out, q, '/');
    assert ("/" + Render(q))[0] == '/';
  }

  /** No segment holds the separator. */
  predicate Segments(p: Path)
  {
    forall i :: 0 <= i < |p| ==> '/' !in p[i]
  }

  lemma SegmentsAppend(a: Path, b: Path)
    requires Segments(a) && Segments(b)
    ensures Segments(a + b)
  {
    forall i | 0 <= i < |a + b|
      ensures '/' !in (a + b)[i]
    {
      if i >= |a| {
        assert (a + b)[i] == b[i - |a|];
      }
    }
  }

  lemma SegmentsSuffix(a: Path, b: Path)
    requires Segments(a + b)
    ensures Segments(b)
  {
    forall i | 0 <= i < |b|
      ensures '/' !in b[i]
    {
      assert b[i] == (a + b)[|a| + i];
    }
  }

  /** Paths with the same text are the same path. */
  lemma RenderInjective(cwd: string, a: Path, b: Path)
    requires a != [] && b != [] && Segments(a) && Segments(b)
    requires Absolute(cwd, a) == Absolute(cwd, b)
    ensures a == b
  {
    assert Render(a) == Absolute(cwd, a)[|cwd| + 1..];
    assert Render(b) == Absolute(cwd, b)[|cwd| + 1..];
    JoinSplit(a, '/');
    JoinSplit(b, '/');
  }

  /** Where the forward pass, started at the base directory, writes the output of `base/rel/stem.scss`. */
  lemma TargetOfSource(base: Path, out: Path, rel: Path, stem: string)
    requires stem != "" && '.' !in stem
    ensures Below(base, base + rel + [stem + ScssExtension])
    ensures Target(base, out, base + rel + [stem + ScssExtension]) == out + (rel + [stem + CssExtension])
  {
    var s := base + rel + [stem + ScssExtension];
    assert s[..|base|] == base;
    assert s[|base|..|s| - 1] == rel;
    SourceExtensions();
    ExtNameOfSuffix(stem, ScssExtension);
    CssNameSwapsExtension(stem + ScssExtension);
  }

  /**
   * As written, whenever the base directory is not the working directory,
   * the path the `unlink` listener deletes is not the path the forward
   * pass wrote for that source.
   */
  lemma UnlinkAsWrittenMissesOutput(cwd: string, base: Path, out: Path, rel: Path, stem: string)
    requires base != [] && out != [] && stem != ""
    requires Plain(base + rel) && Plain(out) && '/' !in stem && '.' !in stem
    ensures Below(base, base + rel + [stem + ScssExtension])
    ensures var s := base + rel + [stem + ScssExtension];
      UnlinkTargetAsWritten(cwd, Render(out), Absolute(cwd, s)) != Some(Absolute(cwd, Target(base, out, s)))
  {
    var dirs := base + rel;
    var s := base + rel + [stem + ScssExtension];
    assert s == dirs + [stem + ScssExtension];
    UnlinkAsWrittenTarget(cwd, dirs, out, stem);
    TargetOfSource(base, out, rel, stem);
    var written := out + (dirs + [stem + CssExtension]);
    var target := out + (rel + [stem + CssExtension]);
    assert Segments([stem + CssExtension]);
    assert Segments(out) && Segments(dirs);
    SegmentsSuffix(base, rel);
    SegmentsAppend(dirs, [stem + CssExtension]);
    SegmentsAppend(out, dirs + [stem + CssExtension]);
    SegmentsAppend(rel, [stem + CssExtension]);
    SegmentsAppend(out, rel + [stem + CssExtension]);
    if Absolute(cwd, written) == Absolute(cwd, target) {
      RenderInjective(cwd, written, target);
    }
  }

  /** The compiler, with the file system and the Sass compiler it works with. */
  class Compiler {
    const watch: bool
    const disk: Disk
    const sass: Path -> Option<string>
    /** The entries whose watcher has been attached, in the order they were. */
    var watched: seq<Entry>

    ghost predicate Valid()
      reads this, disk
    {
      disk.Valid()
    }

    /** `Compiler.build(options)`: nothing happens until `compile`. */
    constructor(watch: Option<bool>, disk: Disk, sass: Path -> Option<string>)
      requires disk.Valid()
      ensures Valid()
      ensures this.watch == watch.GetOr(false) && this.disk == disk && this.sass == sass && watched == []
    {
      this.watch := watch.GetOr(false);
      this.disk := disk;
      this.sass := sass;
      watched := [];
    }

    /** A compilable source below `dir` in the snapshot. */
    ghost predicate Source(snap: Tree, dir: Path, s: Path)
    {
      s in snap && Below(dir, s) && snap[s].File? && IsSource(Last(s))
    }

    /** A source the forward pass can write: it compiles. */
    ghost predicate Pending(snap: Tree, dir: Path, s: Path)
    {
      Source(snap, dir, s) && sass(s).Some?
    }

    /** A source the forward pass cannot write: compiling it throws. */
    ghost predicate Failing(snap: Tree, dir: Path, s: Path)
    {
      Source(snap, dir, s) && sass(s).None?
    }

    /**
     * A source below `dir` that keeps the pass from resolving: it does not
     * compile, or its output cannot be written in `t`.
     */
    ghost predicate Hindered(t: Tree, snap: Tree, dir: Path, out: Path, s: Path)
    {
      Source(snap, dir, s) && (sass(s).None? || Blocked(t, Target(dir, out, s)))
    }

    lemma HinderedPersists(t1: Tree, t2: Tree, snap: Tree, dir: Path, out: Path, s: Path)
      requires Extends(t1, t2) && Hindered(t1, snap, dir, out, s)
      ensures Hindered(t2, snap, dir, out, s)
    {
      if sass(s).Some? {
        BlockedPersists(t1, t2, Target(dir, out, s));
      }
    }

    /** A source hindering the pass over a sub-directory hinders the pass over its parent. */
    lemma HinderedFromChild(t: Tree, snap: Tree, dir: Path, out: Path, n: string, s: Path)
      requires Hindered(t, snap, dir + [n], out + [n], s)
      ensures Hindered(t, snap, dir, out, s)
    {
      TargetFromChild(dir, out, n, s);
    }

    /** The tree after `processFile(file, out)`: the `.css` written, or nothing changed. */
    function AfterFile(t: Tree, file: Path, out: Path): Tree
      requires file != []
    {
      if IsSource(Last(file)) && sass(file).Some? && WriteFile(t, out + [CssName(Last(file))], sass(file).value).Ok?
      then WriteFile(t, out + [CssName(Last(file))], sass(file).value).value
      else t
    }

    /**
     * `processFile(file, out)`: a `.scss` or `.sass` source is compiled and
     * written to `out` under its `.css` name; any other file is skipped. A
     * failure to compile or to write rejects (nothing here catches it).
     */
    method ProcessFile(file: Path, out: Path) returns (r: Outcome<FileError>)
      requires Valid() && file != []
      modifies disk
      ensures Valid()
      ensures disk.tree == AfterFile(old(disk.tree), file, out)
      ensures !IsSource(Last(file)) ==> r.Resolved?
      ensures IsSource(Last(file)) && sass(file).None? ==> r == Rejected(CompileFailed(file))
      ensures IsSource(Last(file)) && sass(file).Some? ==>
        (r.Resolved? <==> WriteFile(old(disk.tree), out + [CssName(Last(file))], sass(file).value).Ok?)
    {
      if !IsSource(Last(file)) {
        return Resolved;
      }
      var css := sass(file);
      if css.None? {
        return Rejected(CompileFailed(file));
      }
      var written := disk.Write(out + [CssName(Last(file))], css.value);
      r := if written.Err? then Rejected(WriteFailed(file, written.error)) else Resolved;
    }

    /** `processFile` only adds below `out`, and leaves the output of a compiling source settled. */
    lemma FileStep(t: Tree, file: Path, out: Path)
      requires WellFormed(t) && file != []
      ensures WellFormed(AfterFile(t, file, out))
      ensures Extends(t, AfterFile(t, file, out))
      ensures WritesOnlyBelow(t, AfterFile(t, file, out), out)
      ensures IsSource(Last(file)) && sass(file).Some? ==> WriteDone(AfterFile(t, file, out), out + [CssName(Last(file))])
    {
      if IsSource(Last(file)) && sass(file).Some? {
        var p := out + [CssName(Last(file))];
        assert Parent(p) == out;
        WriteIsDone(t, p, sass(file).value);
        if WriteFile(t, p, sass(file).value).Ok? {
          WriteFileWellFormed(t, p, sass(file).value);
          WriteExtends(t, p, sass(file).value);
        }
      }
    }

    /** The outputs owed for the sources below `dir` reached through one of `names` are settled in `t`. */
    ghost predicate DoneThrough(t: Tree, snap: Tree, dir: Path, out: Path, names: set<string>)
    {
      forall s :: Pending(snap, dir, s) && s[|dir|] in names ==> WriteDone(t, Target(dir, out, s))
    }

    lemma DoneThroughPersists(t1: Tree, t2: Tree, snap: Tree, dir: Path, out: Path, names: set<string>)
      requires Extends(t1, t2) && DoneThrough(t1, snap, dir, out, names)
      ensures DoneThrough(t2, snap, dir, out, names)
    {
      forall s | Pending(snap, dir, s) && s[|dir|] in names
        ensures WriteDone(t2, Target(dir, out, s))
      {
        WriteDonePersists(t1, t2, Target(dir, out, s));
      }
    }

    /**
     * The callback of `processDir` for the entry `n` of `dir`: a
     * sub-directory is processed against the same name below `out`, a file
     * by `ProcessFile`.
     */
    method ProcessChild(snap: Tree, dir: Path, out: Path, n: string, ghost bound: nat) returns (r: Outcome<FileError>, ghost culprit: Path)
      requires Valid() && WellFormed(snap)
      requires dir + [n] in snap && forall p :: p in snap ==> |p| <= bound
      modifies disk
      decreases bound - |dir|, 0
      ensures Valid()
      ensures Extends(old(disk.tree), disk.tree)
      ensures WritesOnlyBelow(old(disk.tree), disk.tree, out)
      ensures DoneThrough(disk.tree, snap, dir, out, {n})
      ensures (exists s :: Failing(snap, dir, s) && s[|dir|] == n) ==> r.Rejected?
      ensures r.Rejected? ==> Hindered(disk.tree, snap, dir, out, culprit)
    {
      var full := dir + [n];
      if snap[full].Dir? {
        r := ProcessDir(snap, full, out + [n], bound);
        culprit := [];
        if r.Rejected? {
          culprit :| Hindered(disk.tree, snap, full, out + [n], culprit);
          HinderedFromChild(disk.tree, snap, dir, out, n, culprit);
        }
        WritesOnlyBelowWiden(old(disk.tree), disk.tree, out, n);
        forall s | Pending(snap, dir, s) && s[|dir|] in {n}
          ensures WriteDone(disk.tree, Target(dir, out, s))
        {
          ThroughChild(snap, dir, s);
          TargetFromChild(dir, out, n, s);
          assert Pending(snap, full, s);
        }
        forall s | Failing(snap, dir, s) && s[|dir|] == n
          ensures r.Rejected?
        {
          ThroughChild(snap, dir, s);
          assert Failing(snap, full, s);
        }
      } else {
        FileStep(disk.tree, full, out);
        ghost var before := disk.tree;
        r := ProcessFile(full, out);
        culprit := full;
        if r.Rejected? {
          assert Target(dir, out, full) == out + [CssName(n)];
          if sass(full).Some? {
            BlockedPersists(before, disk.tree, out + [CssName(n)]);
          }
        }
        forall s | Pending(snap, dir, s) && s[|dir|] in {n}
          ensures WriteDone(disk.tree, Target(dir, out, s))
        {
          ThroughChild(snap, dir, s);
        }
        forall s | Failing(snap, dir, s) && s[|dir|] == n
          ensures r.Rejected?
        {
          ThroughChild(snap, dir, s);
        }
      }
    }

    /**
     * `processDir(dir, out)`: the directory is listed and every entry
     * handled by `ProcessChild`, all of them even when one rejects; the
     * pass rejects when the listing fails or any entry rejects. The listing
     * and the kind of each entry come from the snapshot `snap` taken when
     * the pass starts.
     *
     * It adds to the tree, and changes nothing outside `out` except the
     * directories created on the way to it; the output of every compiling
     * source below `dir` is afterwards at its mirrored place, or that place
     * is taken by a directory or lies below a file; and a source that fails
     * to compile makes the pass reject. Conversely the pass over a directory
     * rejects only because of a source that does not compile or whose
     * output cannot be written (`Hindered`).
     */
    method ProcessDir(snap: Tree, dir: Path, out: Path, ghost bound: nat) returns (r: Outcome<FileError>)
      requires Valid() && WellFormed(snap)
      requires |dir| <= bound && forall p :: p in snap ==> |p| <= bound
      modifies disk
      decreases bound - |dir|, 1
      ensures Valid()
      ensures r.Resolved? ==> IsDirAt(snap, dir)
      ensures Extends(old(disk.tree), disk.tree)
      ensures WritesOnlyBelow(old(disk.tree), disk.tree, out)
      ensures forall s :: Pending(snap, dir, s) ==> WriteDone(disk.tree, Target(dir, out, s))
      ensures (exists s :: Failing(snap, dir, s)) ==> r.Rejected?
      ensures r.Rejected? ==> !IsDirAt(snap, dir) || exists s :: Hindered(disk.tree, snap, dir, out, s)
    {
      forall s | Source(snap, dir, s)
        ensures IsDirAt(snap, dir)
      {
        AncestorIsDir(snap, s, |dir|);
      }
      if !IsDirAt(snap, dir) {
        return Rejected(CompileFailed(dir));
      }
      var names := Children(snap, dir);
      r := Resolved;
      var todo := names;
      ghost var done: set<string> := {};
      ghost var culprit: Path := [];
      while todo != {}
        invariant todo <= names && done == names - todo
        invariant Valid()
        invariant Extends(old(disk.tree), disk.tree)
        invariant WritesOnlyBelow(old(disk.tree), disk.tree, out)
        invariant DoneThrough(disk.tree, snap, dir, out, done)
        invariant (exists s :: Failing(snap, dir, s) && s[|dir|] in done) ==> r.Rejected?
        invariant r.Rejected? ==> Hindered(disk.tree, snap, dir, out, culprit)
        decreases todo
      {
        var n :| n in todo;
        ChildrenMember(snap, dir, n);
        ghost var before := disk.tree;
        ghost var hindering;
        var sub;
        sub, hindering := ProcessChild(snap, dir, out, n, bound);
        if sub.Rejected? && r.Resolved? {
          r := sub;
          culprit := hindering;
        } else if r.Rejected? {
          HinderedPersists(before, disk.tree, snap, dir, out, culprit);
        }
        ExtendsTransitive(old(disk.tree), before, disk.tree);
        WritesOnlyBelowTransitive(old(disk.tree), before, disk.tree, out);
        DoneThroughPersists(before, disk.tree, snap, dir, out, done);
        todo := todo - {n};
        done := done + {n};
      }
      forall s | Pending(snap, dir, s)
        ensures WriteDone(disk.tree, Target(dir, out, s))
      {
        ThroughChild(snap, dir, s);
        ChildrenMember(snap, dir, s[|dir|]);
        assert s[|dir|] in done;
      }
      forall s | Failing(snap, dir, s)
        ensures r.Rejected?
      {
        ThroughChild(snap, dir, s);
        ChildrenMember(snap, dir, s[|dir|]);
        assert s[|dir|] in done;
      }
    }

    /**
     * `processEntry(entry)`. A missing base directory makes the existence
     * check fall through to `isDir`, whose `stat` throws; a base path that
     * exists but is a file passes. A missing output directory is created
     * with one `mkdir` call. In watch mode the watcher is attached, before
     * the initial pass. Then the forward pass runs over the tree as it is.
     * Every failure is caught and logged: the call never rejects, and
     * `logged` is what it logged.
     */
    method ProcessEntry(e: Entry) returns (logged: Option<EntryError>)
      requires Valid()
      modifies this, disk
      ensures Valid()
      ensures Extends(old(disk.tree), disk.tree)
      ensures e.baseDir !in old(disk.tree) ==>
        logged == Some(StatFailed(e.baseDir)) && disk.tree == old(disk.tree) && watched == old(watched)
      ensures e.baseDir in old(disk.tree) && e.outputDir in old(disk.tree) ==>
        WritesOnlyBelow(old(disk.tree), disk.tree, e.outputDir)
      ensures logged.Some? && logged.value.MkdirFailed? ==>
        e.outputDir !in old(disk.tree) && disk.tree == old(disk.tree) && watched == old(watched)
      ensures e.baseDir in old(disk.tree) && FileOnPath(old(disk.tree), e.outputDir) && e.outputDir !in old(disk.tree) ==>
        logged.Some? && logged.value.MkdirFailed?
      ensures IsFileAt(old(disk.tree), e.baseDir) ==> logged.Some?
      ensures IsFileAt(old(disk.tree), e.baseDir) && e.outputDir in old(disk.tree) ==>
        logged == Some(ProcessingFailed(e.baseDir))
      ensures logged.None? ==> IsDirAt(old(disk.tree), e.baseDir)
      ensures logged.None? || logged.value.ProcessingFailed? ==> Settled(old(disk.tree), disk.tree, e)
      ensures watched == old(watched) + (if watch && (logged.None? || logged.value.ProcessingFailed?) then [e] else [])
    {
      if e.baseDir !in disk.tree {
        return Some(StatFailed(e.baseDir));
      }
      if e.outputDir !in disk.tree {
        var made := disk.MakeDirectory(e.outputDir);
        if made.Err? {
          return Some(MkdirFailed(e.outputDir, made.error));
        }
        MadeAt(old(disk.tree), e.outputDir, e.baseDir);
        MadeGrows(old(disk.tree), e.outputDir);
      }
      if watch {
        watched := watched + [e];
      }
      ghost var before := disk.tree;
      var snap := disk.tree;
      ghost var bound := MaxLen(snap.Keys + {e.baseDir});
      var done := ProcessDir(snap, e.baseDir, e.outputDir, bound);
      ExtendsTransitive(old(disk.tree), before, disk.tree);
      SettledEarlier(old(disk.tree), before, disk.tree, e);
      logged := if done.Rejected? then Some(ProcessingFailed(e.baseDir)) else None;
    }

    /** Every output owed for a compiling source below the entry's base directory in `t0` has settled in `t`. */
    ghost predicate Settled(t0: Tree, t: Tree, e: Entry)
    {
      forall s :: Pending(t0, e.baseDir, s) ==> WriteDone(t, Target(e.baseDir, e.outputDir, s))
    }

    /** A source of an earlier tree is still a source of a tree that grew from it. */
    lemma SettledEarlier(t0: Tree, t1: Tree, t2: Tree, e: Entry)
      requires Extends(t0, t1) && Settled(t1, t2, e)
      ensures Settled(t0, t2, e)
    {
      forall s | Pending(t0, e.baseDir, s)
        ensures WriteDone(t2, Target(e.baseDir, e.outputDir, s))
      {
        assert Pending(t1, e.baseDir, s);
      }
    }

    /** Every entry before `|logs|` that was processed cleanly has settled in `t`. */
    ghost predicate SettledUpTo(t0: Tree, t: Tree, entries: seq<Entry>, logs: seq<Option<EntryError>>)
      requires |logs| <= |entries|
    {
      forall k :: 0 <= k < |logs| && logs[k].None? ==> Settled(t0, t, entries[k])
    }

    /** One more entry of the fan-out keeps the earlier entries settled and adds its own when it was clean. */
    lemma SettledStep(t0: Tree, t1: Tree, t2: Tree, entries: seq<Entry>, logs: seq<Option<EntryError>>, logged: Option<EntryError>)
      requires |logs| < |entries| && Extends(t0, t1) && Extends(t1, t2)
      requires SettledUpTo(t0, t1, entries, logs)
      requires logged.None? ==> Settled(t1, t2, entries[|logs|])
      ensures SettledUpTo(t0, t2, entries, logs + [logged])
    {
      var ls := logs + [logged];
      forall k | 0 <= k < |ls| && ls[k].None?
        ensures Settled(t0, t2, entries[k])
      {
        if k < |logs| {
          SettledPersists(t0, t1, t2, entries[k]);
        } else {
          SettledEarlier(t0, t1, t2, entries[k]);
        }
      }
    }

    /** Settled outputs stay settled as the tree grows. */
    lemma SettledPersists(t0: Tree, t1: Tree, t2: Tree, e: Entry)
      requires Extends(t1, t2) && Settled(t0, t1, e)
      ensures Settled(t0, t2, e)
    {
      forall s | Pending(t0, e.baseDir, s)
        ensures WriteDone(t2, Target(e.baseDir, e.outputDir, s))
      {
        WriteDonePersists(t1, t2, Target(e.baseDir, e.outputDir, s));
      }
    }

    /**
     * The watcher's `all` listener of an entry, for an event on
     * `watchPath` (whose stats, when it has them, say whether it is a
     * file): an event on an ignored path never reaches the listener;
     * otherwise `add` and `change` run the forward pass over the whole
     * entry again, settling every source it compiles, `unlink` deletes
     * the output of the removed source, and every other event is dropped. A failure is not caught by the
     * listener; `r` is how it settles.
     *
     * The `unlink` branch deletes the corrected target, `UnlinkTarget`:
     * afterwards no file is left where the forward pass wrote the removed
     * source's output. As written the listener deletes the path
     * `UnlinkTargetAsWritten` computes instead, which
     * `UnlinkAsWrittenMissesOutput` shows is another file.
     */
    method OnEvent(e: Entry, event: string, watchPath: Path, isFile: Option<bool>) returns (r: Outcome<FileError>)
      requires Valid() && e in watched && Under(e.baseDir, watchPath)
      modifies disk
      ensures Valid()
      ensures Ignored(watchPath, isFile) ==> r.Resolved? && disk.tree == old(disk.tree)
      ensures !Ignored(watchPath, isFile) && (event == "add" || event == "change") ==>
        Extends(old(disk.tree), disk.tree) && WritesOnlyBelow(old(disk.tree), disk.tree, e.outputDir) &&
        Settled(old(disk.tree), disk.tree, e) &&
        (r.Resolved? ==> IsDirAt(old(disk.tree), e.baseDir))
      ensures !Ignored(watchPath, isFile) && event == "unlink" && UnlinkTarget(e.baseDir, e.outputDir, watchPath).Some? ==>
        var target := UnlinkTarget(e.baseDir, e.outputDir, watchPath).value;
        (r.Resolved? <==> IsFileAt(old(disk.tree), target)) &&
        disk.tree == if r.Resolved? then old(disk.tree) - {target} else old(disk.tree)
      ensures event != "add" && event != "change" && (event != "unlink" || UnlinkTarget(e.baseDir, e.outputDir, watchPath).None?) ==>
        r.Resolved? && disk.tree == old(disk.tree)
      ensures event == "unlink" && Below(e.baseDir, watchPath) && IsSource(Last(watchPath)) ==>
        !IsFileAt(disk.tree, Target(e.baseDir, e.outputDir, watchPath))
    {
      r := Resolved;
      if Ignored(watchPath, isFile) {
        return;
      }
      if event == "add" || event == "change" {
        var snap := disk.tree;
        ghost var bound := MaxLen(snap.Keys + {e.baseDir});
        r := ProcessDir(snap, e.baseDir, e.outputDir, bound);
      } else if event == "unlink" {
        match UnlinkTarget(e.baseDir, e.outputDir, watchPath)
        case None =>
        case Some(target) =>
          var deleted := disk.Delete(target);
          if deleted.Err? {
            r := Rejected(WriteFailed(target, deleted.error));
          }
      }
    }

    /**
     * `compile(config)`: every entry is processed, one after the other here,
     * and none of them can make the call reject. The legacy compiler never
     * removes anything while compiling.
     */
    method Compile(entries: seq<Entry>) returns (logs: seq<Option<EntryError>>)
      requires Valid()
      modifies this, disk
      ensures Valid()
      ensures |logs| == |entries|
      ensures Extends(old(disk.tree), disk.tree)
      ensures forall i :: 0 <= i < |entries| && logs[i].None? ==> !watch || entries[i] in watched
      ensures forall i :: 0 <= i < |entries| && logs[i].None? ==> Settled(old(disk.tree), disk.tree, entries[i])
    {
      logs := [];
      var i := 0;
      while i < |entries|
        invariant 0 <= i <= |entries| && |logs| == i
        invariant Valid()
        invariant Extends(old(disk.tree), disk.tree)
        invariant forall k :: 0 <= k < i && logs[k].None? ==> !watch || entries[k] in watched
        invariant SettledUpTo(old(disk.tree), disk.tree, entries, logs)
      {
        ghost var before := disk.tree;
        ghost var seen := watched;
        var logged := ProcessEntry(entries[i]);
        SettledStep(old(disk.tree), before, disk.tree, entries, logs, logged);
        ExtendsTransitive(old(disk.tree), before, disk.tree);
        assert forall x :: x in seen ==> x in watched;
        logs := logs + [logged];
        i := i + 1;
      }
    }
  }
}
