/**
 * The entry compiler: for one configured entry, compiles every matching
 * source below the base directory into the mirrored place below the output
 * directory, removes outputs whose source is gone, keeps the manifest up to
 * date, and in watch mode queues the watcher's changes.
 *
 * Paths are relative to the working directory. The Sass compiler, the MD5
 * digest and the file-name pattern are the entry's parameters: `sass`
 * yields the compiled CSS of a source (`None` when compiling throws), `md5`
 * the lowercase hex digest of a text, `matches` whether a name passes the
 * `filenames` pattern.
 */
module EntryCompiler {
  import opened Wrappers
  import opened JsString
  import opened NodePath
  import opened FileSystem
  import opened Reconcile
  import opened FilenameTemplate
  import opened Manifest
  import opened ChangeEvent
  import opened ChangeQueue
  import ManifestJson

  datatype ManifestConfig = ManifestConfig(path: string, filename: Option<string>)

  /** `entry.outputConfig`: the output directory, the file-name template (`""` when absent), the manifest. */
  datatype OutputConfig = OutputConfig(directory: Path, filename: string, manifest: Option<ManifestConfig>)

  datatype CompileEntry = CompileEntry(
    baseDir: Path,
    outputConfig: OutputConfig,
    filenames: string -> bool,
    minify: Option<bool>,
    sourceMap: Option<bool>)

  /** The action queued for a watcher event: the closure the program builds, by what it runs. */
  datatype Action = Reprocess | RemoveFile(watchPath: Path) | RemoveDir(watchPath: Path)

  /** Why `compile()` rejects. */
  datatype CompileError =
    | StatFailed(path: Path)
    | CannotCreate(path: Path, cause: FsError)
    | ProcessingFailed(baseDir: Path)

  /** Why a queued action rejects. */
  datatype ActionError = DirectoryFailed(baseDir: Path) | UnlinkFailed(watchPath: Path)

  /** `!options?.watch`: defaults apply when watching is off or unset. */
  function WatchDefault(watch: Option<bool>): bool
  {
    !watch.GetOr(false)
  }

  /** The manifest key of a source: its path with the first occurrence of its extension removed. */
  function ManifestKey(file: Path): string
    requires file != []
  {
    ReplaceFirst(Render(file), ExtName(Last(file)), "")
  }

  class EntryCompiler {
    const baseDir: Path
    const outputDir: Path
    const filename: string
    const matches: string -> bool
    const minify: bool
    const sourceMap: bool
    const watch: bool
    const manifest: Manifest?
    const changeQueue: ChangeQueue?<Action>
    const disk: Disk
    const sass: (Path, bool, bool) -> Option<string>
    const md5: string -> string
    /** Whether the watcher is running (`_watcher` is set). */
    var watching: bool
    /** Whether `stop()` has closed the watcher. */
    var closed: bool

    ghost predicate Valid()
      reads this, disk, manifest
    {
      disk.Valid() && (manifest != null ==> manifest.Valid())
    }

    /**
     * The constructor: options that the entry leaves undefined default to
     * `!watch`, a manifest exists iff the entry configures one, and a queue
     * iff watching is on.
     */
    constructor(entry: CompileEntry, watchOption: Option<bool>, disk: Disk,
                sass: (Path, bool, bool) -> Option<string>, md5: string -> string)
      requires disk.Valid()
      ensures Valid()
      ensures baseDir == entry.baseDir && outputDir == entry.outputConfig.directory
      ensures filename == entry.outputConfig.filename && matches == entry.filenames
      ensures minify == if entry.minify.Some? then entry.minify.value else WatchDefault(watchOption)
      ensures sourceMap == if entry.sourceMap.Some? then entry.sourceMap.value else WatchDefault(watchOption)
      ensures watch == watchOption.GetOr(false)
      ensures (manifest != null) <==> entry.outputConfig.manifest.Some?
      ensures manifest != null ==> fresh(manifest) && manifest.mapping == [] && manifest.saved == None
      ensures manifest != null ==>
        manifest.path == ManifestPath(entry.outputConfig.manifest.value.path, entry.outputConfig.manifest.value.filename)
      ensures (changeQueue != null) <==> watch
      ensures changeQueue != null ==> fresh(changeQueue) && changeQueue.State() == Started()
      ensures this.disk == disk && this.sass == sass && this.md5 == md5 && !watching && !closed
    {
      baseDir := entry.baseDir;
      outputDir := entry.outputConfig.directory;
      filename := entry.outputConfig.filename;
      matches := entry.filenames;
      if entry.outputConfig.manifest.Some? {
        var config := entry.outputConfig.manifest.value;
        manifest := new Manifest(config.path, config.filename);
      } else {
        manifest := null;
      }
      if entry.minify.Some? {
        minify := entry.minify.value;
      } else {
        minify := WatchDefault(watchOption);
      }
      if entry.sourceMap.Some? {
        sourceMap := entry.sourceMap.value;
      } else {
        sourceMap := WatchDefault(watchOption);
      }
      watch := watchOption.GetOr(false);
      if watchOption.GetOr(false) {
        changeQueue := new ChangeQueue();
      } else {
        changeQueue := null;
      }
      this.disk := disk;
      this.sass := sass;
      this.md5 := md5;
      watching := false;
      closed := false;
    }

    /** `matchFile(name)`. */
    predicate MatchFile(name: string)
    {
      matches(name)
    }

    /** The CSS of a source, compiled with this entry's style and source-map settings. */
    function Css(file: Path): Option<string>
    {
      sass(file, minify, sourceMap)
    }

    /** The source's name matches and it compiles. */
    predicate Compiles(file: Path)
    {
      file != [] && MatchFile(Last(file)) && Css(file).Some?
    }

    /** The output file name of a compiling source. */
    function OutName(file: Path): string
      requires Compiles(file)
    {
      BuildOutputFileName(filename, Last(file), md5(Css(file).value))
    }

    /** Where the forward pass, started at `dir` and `out`, writes the output of source `s`. */
    function Target(dir: Path, out: Path, s: Path): Path
      requires Below(dir, s) && Compiles(s)
    {
      out + s[|dir|..|s| - 1] + [OutName(s)]
    }

    /** The output of `file` goes into `out`, and the write succeeds. */
    predicate Writes(t: Tree, file: Path, out: Path)
    {
      Compiles(file) && WriteFile(t, out + [OutName(file)], Css(file).value).Ok?
    }

    /** The tree after `processFile(file, out)`: the output written, or nothing changed. */
    function AfterFile(t: Tree, file: Path, out: Path): Tree
    {
      if Writes(t, file, out) then WriteFile(t, out + [OutName(file)], Css(file).value).value else t
    }

    /** `processFile` only adds below `out`, and leaves the output of a compiling source settled. */
    lemma FileStep(t: Tree, file: Path, out: Path)
      requires WellFormed(t)
      ensures WellFormed(AfterFile(t, file, out))
      ensures Extends(t, AfterFile(t, file, out))
      ensures WritesOnlyBelow(t, AfterFile(t, file, out), out)
      ensures Compiles(file) ==> WriteDone(AfterFile(t, file, out), out + [OutName(file)])
    {
      if Compiles(file) {
        var p := out + [OutName(file)];
        assert Parent(p) == out;
        WriteIsDone(t, p, Css(file).value);
        if Writes(t, file, out) {
          WriteFileWellFormed(t, p, Css(file).value);
          WriteExtends(t, p, Css(file).value);
        }
      }
    }

    /**
     * `processFile(file, out)`: a matching source is compiled and written to
     * `out` under its output name, and the manifest maps its key to the
     * output path. A failure to compile or to write is logged and swallowed:
     * nothing changes and the call still resolves.
     */
    method ProcessFile(file: Path, out: Path)
      requires Valid() && file != []
      modifies disk, manifest
      ensures Valid()
      ensures disk.tree == AfterFile(old(disk.tree), file, out)
      ensures manifest != null ==>
        manifest.mapping == (if Writes(old(disk.tree), file, out)
                             then Upsert(old(manifest.mapping), ManifestKey(file), Render(out + [OutName(file)]))
                             else old(manifest.mapping))
    {
      FileEffect(disk.tree, file, out);
      if MatchFile(Last(file)) && Css(file).Some? {
        var outFile := out + [OutName(file)];
        var written := disk.Write(outFile, Css(file).value);
        if written.Ok? && manifest != null {
          manifest.Add(ManifestKey(file), Render(outFile));
          manifest.Save();
        }
      }
    }

    /** `AfterFile` by cases: nothing changes unless the source compiles and its output can be written. */
    lemma FileEffect(t: Tree, file: Path, out: Path)
      requires file != []
      ensures !Compiles(file) ==> !Writes(t, file, out) && AfterFile(t, file, out) == t
      ensures Compiles(file) ==>
        (Writes(t, file, out) <==> WriteFile(t, out + [OutName(file)], Css(file).value).Ok?)
      ensures !Writes(t, file, out) ==> AfterFile(t, file, out) == t
      ensures Writes(t, file, out) ==> AfterFile(t, file, out) == WriteFile(t, out + [OutName(file)], Css(file).value).value
    {
    }

    /** A source file of the snapshot below `dir` whose output the forward pass owes. */
    ghost predicate Pending(snap: Tree, dir: Path, s: Path)
    {
      s in snap && Below(dir, s) && snap[s].File? && Compiles(s)
    }

    /** The output of a source below a sub-directory lands in the same place whichever level it is seen from. */
    lemma TargetFromChild(dir: Path, out: Path, n: string, s: Path)
      requires Below(dir + [n], s) && Compiles(s)
      ensures Below(dir, s) && Target(dir + [n], out + [n], s) == Target(dir, out, s)
    {
      MirrorFromParent(dir, out, n, s);
    }

    /** A present source below a path that is not a directory cannot exist. */
    lemma NoPendingOutsideDirectory(snap: Tree, dir: Path, s: Path)
      requires WellFormed(snap) && Pending(snap, dir, s)
      ensures IsDirAt(snap, dir)
    {
      AncestorIsDir(snap, s, |dir|);
    }

    /** The outputs owed for the sources below `dir` reached through one of `names` are settled in `t`. */
    ghost predicate DoneThrough(t: Tree, snap: Tree, dir: Path, out: Path, names: set<string>)
    {
      forall s :: Pending(snap, dir, s) && s[|dir|] in names ==> WriteDone(t, Target(dir, out, s))
    }

    lemma DoneThroughPersists(t1: Tree, t2: Tree, snap: Tree, dir: Path, out: Path, names: set<string>)
      requires Extends(t1, t2) && DoneThrough(t1, snap, dir, out, names)
      ensures DoneThrough(t2, snap, dir, out, names)
    {
      forall s | Pending(snap, dir, s) && s[|dir|] in names
        ensures WriteDone(t2, Target(dir, out, s))
      {
        WriteDonePersists(t1, t2, Target(dir, out, s));
      }
    }

    /** The manifest value `v` at key `k` is the output path of a source below `dir` whose key is `k`. */
    ghost predicate Recorded(snap: Tree, dir: Path, out: Path, k: string, v: string)
    {
      exists s :: Pending(snap, dir, s) && ManifestKey(s) == k && v == Render(Target(dir, out, s))
    }

    /** From `m0` to `m1` the manifest changed only by recording outputs of sources below `dir`; no key was lost. */
    ghost predicate RecordsOnly(m0: ManifestJson.Entries, m1: ManifestJson.Entries, snap: Tree, dir: Path, out: Path)
    {
      forall k :: Lookup(m1, k) == Lookup(m0, k) || (Lookup(m1, k).Some? && Recorded(snap, dir, out, k, Lookup(m1, k).value))
    }

    /** The key of source `s` is in `m`, mapped to the output path of a source below `dir` with that key. */
    ghost predicate KeyRecorded(m: ManifestJson.Entries, snap: Tree, dir: Path, out: Path, s: Path)
      requires s != []
    {
      Lookup(m, ManifestKey(s)).Some? && Recorded(snap, dir, out, ManifestKey(s), Lookup(m, ManifestKey(s)).value)
    }

    /** Every source reached through one of `names` whose output could be written in `t` has its key recorded in `m`. */
    ghost predicate RecordsThrough(m: ManifestJson.Entries, t: Tree, snap: Tree, dir: Path, out: Path, names: set<string>)
    {
      forall s :: Pending(snap, dir, s) && s[|dir|] in names && !Blocked(t, Target(dir, out, s)) ==> KeyRecorded(m, snap, dir, out, s)
    }

    lemma RecordsOnlyTransitive(m0: ManifestJson.Entries, m1: ManifestJson.Entries, m2: ManifestJson.Entries, snap: Tree, dir: Path, out: Path)
      requires RecordsOnly(m0, m1, snap, dir, out) && RecordsOnly(m1, m2, snap, dir, out)
      ensures RecordsOnly(m0, m2, snap, dir, out)
    {
    }

    /** A source recorded from a sub-directory is recorded from its parent, at the same output. */
    lemma RecordedFromChild(snap: Tree, dir: Path, out: Path, n: string, k: string, v: string)
      requires Recorded(snap, dir + [n], out + [n], k, v)
      ensures Recorded(snap, dir, out, k, v)
    {
      var s :| Pending(snap, dir + [n], s) && ManifestKey(s) == k && v == Render(Target(dir + [n], out + [n], s));
      TargetFromChild(dir, out, n, s);
      assert Pending(snap, dir, s);
    }

    lemma RecordsOnlyFromChild(m0: ManifestJson.Entries, m1: ManifestJson.Entries, snap: Tree, dir: Path, out: Path, n: string)
      requires RecordsOnly(m0, m1, snap, dir + [n], out + [n])
      ensures RecordsOnly(m0, m1, snap, dir, out)
    {
      forall k | Lookup(m1, k) != Lookup(m0, k)
        ensures Lookup(m1, k).Some? && Recorded(snap, dir, out, k, Lookup(m1, k).value)
      {
        RecordedFromChild(snap, dir, out, n, k, Lookup(m1, k).value);
      }
    }

    /** Recorded keys stay recorded while later steps only record. */
    lemma RecordsThroughPersists(m1: ManifestJson.Entries, m2: ManifestJson.Entries, t1: Tree, t2: Tree,
                                 snap: Tree, dir: Path, out: Path, names: set<string>)
      requires RecordsThrough(m1, t1, snap, dir, out, names) && RecordsOnly(m1, m2, snap, dir, out) && Extends(t1, t2)
      ensures RecordsThrough(m2, t2, snap, dir, out, names)
    {
      forall s | Pending(snap, dir, s) && s[|dir|] in names && !Blocked(t2, Target(dir, out, s))
        ensures KeyRecorded(m2, snap, dir, out, s)
      {
        if Blocked(t1, Target(dir, out, s)) {
          BlockedPersists(t1, t2, Target(dir, out, s));
        }
        assert KeyRecorded(m1, snap, dir, out, s);
        assert Lookup(m2, ManifestKey(s)) == Lookup(m1, ManifestKey(s)) ||
               (Lookup(m2, ManifestKey(s)).Some? && Recorded(snap, dir, out, ManifestKey(s), Lookup(m2, ManifestKey(s)).value));
      }
    }

    /** The keys recorded through a sub-directory are those its own pass records. */
    lemma RecordsThroughDirectory(m: ManifestJson.Entries, t: Tree, snap: Tree, dir: Path, out: Path, n: string)
      requires WellFormed(snap) && dir + [n] in snap && snap[dir + [n]].Dir?
      requires forall s :: Pending(snap, dir + [n], s) && !Blocked(t, Target(dir + [n], out + [n], s)) ==>
        KeyRecorded(m, snap, dir + [n], out + [n], s)
      ensures RecordsThrough(m, t, snap, dir, out, {n})
    {
      forall s | Pending(snap, dir, s) && s[|dir|] in {n} && !Blocked(t, Target(dir, out, s))
        ensures KeyRecorded(m, snap, dir, out, s)
      {
        ThroughChild(snap, dir, s);
        TargetFromChild(dir, out, n, s);
        assert Pending(snap, dir + [n], s);
        RecordedFromChild(snap, dir, out, n, ManifestKey(s), Lookup(m, ManifestKey(s)).value);
      }
    }

    /** `processFile` records exactly its own source, when its write happens. */
    lemma RecordsFile(m0: ManifestJson.Entries, m1: ManifestJson.Entries, t0: Tree, t1: Tree,
                      snap: Tree, dir: Path, out: Path, n: string)
      requires WellFormed(snap) && dir + [n] in snap && !snap[dir + [n]].Dir? && Extends(t0, t1)
      requires m1 == if Writes(t0, dir + [n], out)
                     then Upsert(m0, ManifestKey(dir + [n]), Render(out + [OutName(dir + [n])])) else m0
      ensures RecordsOnly(m0, m1, snap, dir, out)
      ensures RecordsThrough(m1, t1, snap, dir, out, {n})
    {
      var full := dir + [n];
      if Writes(t0, full, out) {
        MirrorOfChild(dir, out, n, full, OutName(full));
        assert Pending(snap, dir, full);
        forall k
          ensures Lookup(m1, k) == Lookup(m0, k) || (Lookup(m1, k).Some? && Recorded(snap, dir, out, k, Lookup(m1, k).value))
        {
          LookupUpsert(m0, ManifestKey(full), Render(out + [OutName(full)]), k);
        }
      }
      forall s | Pending(snap, dir, s) && s[|dir|] in {n} && !Blocked(t1, Target(dir, out, s))
        ensures KeyRecorded(m1, snap, dir, out, s)
      {
        ThroughChild(snap, dir, s);
        MirrorOfChild(dir, out, n, s, OutName(s));
        if Blocked(t0, Target(dir, out, s)) {
          BlockedPersists(t0, t1, Target(dir, out, s));
        }
        assert Writes(t0, full, out);
        LookupUpsert(m0, ManifestKey(full), Render(out + [OutName(full)]), ManifestKey(full));
        assert Pending(snap, dir, full);
      }
    }

    /**
     * The body of the loop of `processDir` for the entry `n` of `dir`: a
     * sub-directory is processed against the same name below `out`, a file
     * by `ProcessFile`.
     */
    method ProcessEntry(snap: Tree, dir: Path, out: Path, n: string, ghost bound: nat)
      requires Valid() && WellFormed(snap)
      requires dir + [n] in snap && forall p :: p in snap ==> |p| <= bound
      modifies disk, manifest
      decreases bound - |dir|, 0
      ensures Valid()
      ensures Extends(old(disk.tree), disk.tree)
      ensures WritesOnlyBelow(old(disk.tree), disk.tree, out)
      ensures DoneThrough(disk.tree, snap, dir, out, {n})
      ensures manifest != null ==> RecordsOnly(old(manifest.mapping), manifest.mapping, snap, dir, out)
      ensures manifest != null ==> RecordsThrough(manifest.mapping, disk.tree, snap, dir, out, {n})
    {
      var full := dir + [n];
      if snap[full].Dir? {
        var sub := ProcessDir(snap, full, out + [n], bound);
        WritesOnlyBelowWiden(old(disk.tree), disk.tree, out, n);
        DoneThroughDirectory(disk.tree, snap, dir, out, n);
        if manifest != null {
          RecordsOnlyFromChild(old(manifest.mapping), manifest.mapping, snap, dir, out, n);
          RecordsThroughDirectory(manifest.mapping, disk.tree, snap, dir, out, n);
        }
      } else {
        FileStep(disk.tree, full, out);
        ghost var before := disk.tree;
        ProcessFile(full, out);
        DoneThroughFile(disk.tree, snap, dir, out, n);
        if manifest != null {
          RecordsFile(old(manifest.mapping), manifest.mapping, before, disk.tree, snap, dir, out, n);
        }
      }
    }

    /** A path directly inside `dir` is mirrored directly inside `out`. */
    lemma MirrorOfChild(dir: Path, out: Path, n: string, s: Path, name: string)
      requires s == dir + [n]
      ensures out + s[|dir|..|s| - 1] + [name] == out + [name]
    {
      assert s[|dir|..|s| - 1] == [];
    }

    /** The outputs owed through a sub-directory are those its own pass settles. */
    lemma DoneThroughDirectory(t: Tree, snap: Tree, dir: Path, out: Path, n: string)
      requires WellFormed(snap) && dir + [n] in snap && snap[dir + [n]].Dir?
      requires forall s :: Pending(snap, dir + [n], s) ==> WriteDone(t, Target(dir + [n], out + [n], s))
      ensures DoneThrough(t, snap, dir, out, {n})
    {
      forall s | Pending(snap, dir, s) && s[|dir|] in {n}
        ensures WriteDone(t, Target(dir, out, s))
      {
        ThroughChild(snap, dir, s);
        TargetFromChild(dir, out, n, s);
        assert Pending(snap, dir + [n], s);
      }
    }

    /** The only output owed through a file is its own. */
    lemma DoneThroughFile(t: Tree, snap: Tree, dir: Path, out: Path, n: string)
      requires WellFormed(snap) && dir + [n] in snap && !snap[dir + [n]].Dir?
      requires Compiles(dir + [n]) ==> WriteDone(t, out + [OutName(dir + [n])])
      ensures DoneThrough(t, snap, dir, out, {n})
    {
      forall s | Pending(snap, dir, s) && s[|dir|] in {n}
        ensures WriteDone(t, Target(dir, out, s))
      {
        ThroughChild(snap, dir, s);
        MirrorOfChild(dir, out, n, s, OutName(s));
      }
    }

    /**
     * `processDir(dir, out)`, the forward pass. The directory is listed, and
     * every entry handled in turn by `ProcessEntry`. The listing and the kind
     * of each entry come from the snapshot `snap` of the tree taken when the
     * pass starts.
     *
     * It rejects exactly when `dir` is not a directory. It adds to the tree
     * and replaces file contents, but removes nothing and changes nothing
     * outside `out` except directories created on the way to it; and the
     * output of every compiling source below `dir` is afterwards written at
     * its mirrored place, or that place is taken by a directory or lies
     * below a file.
     */
    method ProcessDir(snap: Tree, dir: Path, out: Path, ghost bound: nat) returns (r: Outcome<FsError>)
      requires Valid() && WellFormed(snap)
      requires |dir| <= bound && forall p :: p in snap ==> |p| <= bound
      modifies disk, manifest
      decreases bound - |dir|, 1
      ensures Valid()
      ensures r.Resolved? <==> IsDirAt(snap, dir)
      ensures Extends(old(disk.tree), disk.tree)
      ensures WritesOnlyBelow(old(disk.tree), disk.tree, out)
      ensures forall s :: Pending(snap, dir, s) ==> WriteDone(disk.tree, Target(dir, out, s))
      ensures manifest != null ==> RecordsOnly(old(manifest.mapping), manifest.mapping, snap, dir, out)
      ensures manifest != null ==>
        forall s :: Pending(snap, dir, s) && !Blocked(disk.tree, Target(dir, out, s)) ==> KeyRecorded(manifest.mapping, snap, dir, out, s)
    {
      forall s | Pending(snap, dir, s)
        ensures IsDirAt(snap, dir)
      {
        NoPendingOutsideDirectory(snap, dir, s);
      }
      match ReadDir(snap, dir)
      case Err(e) =>
        r := Rejected(e);
      case Ok(names) =>
        r := Resolved;
        var todo := names;
        ghost var done: set<string> := {};
        while todo != {}
          invariant todo <= names && done == names - todo
          invariant Valid()
          invariant Extends(old(disk.tree), disk.tree)
          invariant WritesOnlyBelow(old(disk.tree), disk.tree, out)
          invariant DoneThrough(disk.tree, snap, dir, out, done)
          invariant manifest != null ==> RecordsOnly(old(manifest.mapping), manifest.mapping, snap, dir, out)
          invariant manifest != null ==> RecordsThrough(manifest.mapping, disk.tree, snap, dir, out, done)
          decreases todo
        {
          var n :| n in todo;
          ghost var before := disk.tree;
          ghost var recorded := if manifest != null then manifest.mapping else [];
          ProcessEntry(snap, dir, out, n, bound);
          ExtendsTransitive(old(disk.tree), before, disk.tree);
          WritesOnlyBelowTransitive(old(disk.tree), before, disk.tree, out);
          DoneThroughPersists(before, disk.tree, snap, dir, out, done);
          if manifest != null {
            RecordsOnlyTransitive(old(manifest.mapping), recorded, manifest.mapping, snap, dir, out);
            RecordsThroughPersists(recorded, manifest.mapping, before, disk.tree, snap, dir, out, done);
          }
          todo := todo - {n};
          done := done + {n};
        }
        forall s | Pending(snap, dir, s)
          ensures WriteDone(disk.tree, Target(dir, out, s))
        {
          ThroughChild(snap, dir, s);
          assert s[|dir|] in done;
        }
        if manifest != null {
          forall s | Pending(snap, dir, s) && !Blocked(disk.tree, Target(dir, out, s))
            ensures KeyRecorded(manifest.mapping, snap, dir, out, s)
          {
            ThroughChild(snap, dir, s);
            assert s[|dir|] in done;
          }
        }
    }

    /** `file.endsWith(extension)`: the reverse pass only looks at files with the generated extension. */
    predicate Considered(name: string)
    {
      EndsWith(name, GeneratedExtension(filename))
    }

    /**
     * The `find` over the input names: a non-empty name (the empty string is
     * falsy) whose stem is the base name recovered from the output `name`,
     * and which matches the pattern.
     */
    predicate SourceAmong(inputs: set<string>, name: string)
    {
      exists m :: m in inputs && m != "" && MatchFile(m) &&
        Stem(m) == GetBaseName(filename, name, GeneratedExtension(filename))
    }

    /**
     * What the reverse pass does for the file `name` listed in `out`, whose
     * mirrored input directory is `inputDir`: the outcome, the new tree, and
     * whether the manifest drops the key of `out/name`.
     */
    function ReverseStep(t: Tree, inputDir: Path, out: Path, name: string): Reversal
    {
      if !Considered(name) then Reversal(Resolved, t, false)
      else if inputDir !in t then Reversal(Resolved, Removed(t, out), false)
      else
        match ReadDir(t, inputDir)
        case Err(e) => Reversal(Rejected(e), t, false)
        case Ok(inputs) =>
          var stale := !SourceAmong(inputs, name);
          Pruned(if stale && IsFileAt(t, out + [name]) then t - {out + [name]} else t, out, stale)
    }

    /** The end of a step: the output directory is listed again, and removed when empty. */
    function Pruned(t: Tree, out: Path, stale: bool): Reversal
    {
      match ReadDir(t, out)
      case Err(e) => Reversal(Rejected(e), t, stale)
      case Ok(left) => Reversal(Resolved, if left == {} then Removed(t, out) else t, stale)
    }

    /** An output directory with something below it is not pruned. */
    lemma PrunedKeeps(t: Tree, out: Path, stale: bool, p: Path)
      requires WellFormed(t) && p in t && Below(out, p)
      ensures Pruned(t, out, stale).tree == t
    {
      ThroughChild(t, out, p);
      ChildrenMember(t, out, p[|out|]);
    }

    /** A step of the reverse pass only removes, and only at or below `out`. */
    lemma ReverseStepShrinks(t: Tree, inputDir: Path, out: Path, name: string)
      requires WellFormed(t)
      ensures WellFormed(ReverseStep(t, inputDir, out, name).tree)
      ensures Shrinks(t, ReverseStep(t, inputDir, out, name).tree)
      ensures RemovesOnlyBelow(t, ReverseStep(t, inputDir, out, name).tree, out)
    {
      RemovedWellFormed(t, out);
      if Considered(name) && IsDirAt(t, inputDir) {
        var stale := !SourceAmong(Children(t, inputDir), name);
        var t1 := if stale && IsFileAt(t, out + [name]) then t - {out + [name]} else t;
        UnlinkShrinks(t, out, name, stale);
        PrunedShrinks(t1, out, stale);
        ShrinksTransitive(t, t1, Pruned(t1, out, stale).tree);
      }
    }

    /** Unlinking the stale file `out/name` only removes, and only below `out`. */
    lemma UnlinkShrinks(t: Tree, out: Path, name: string, stale: bool)
      requires WellFormed(t)
      ensures var t1 := if stale && IsFileAt(t, out + [name]) then t - {out + [name]} else t;
        WellFormed(t1) && Shrinks(t, t1) && RemovesOnlyBelow(t, t1, out)
    {
      assert Under(out, out + [name]);
      if stale && IsFileAt(t, out + [name]) {
        UnlinkWellFormed(t, out + [name]);
      }
    }

    /** Pruning `out` only removes, and only below `out`. */
    lemma PrunedShrinks(t: Tree, out: Path, stale: bool)
      requires WellFormed(t)
      ensures WellFormed(Pruned(t, out, stale).tree)
      ensures Shrinks(t, Pruned(t, out, stale).tree)
      ensures RemovesOnlyBelow(t, Pruned(t, out, stale).tree, out)
    {
      RemovedWellFormed(t, out);
    }

    /**
     * When the mirrored input directory exists, a step removes nothing below
     * `out` except its own file, and that only when the file is considered
     * and has no source.
     */
    lemma ReverseStepKeeps(t: Tree, inputDir: Path, out: Path, name: string, p: Path)
      requires WellFormed(t) && IsDirAt(t, inputDir) && p in t && Below(out, p)
      requires p == out + [name] ==> !Considered(name) || SourceAmong(Children(t, inputDir), name)
      ensures p in ReverseStep(t, inputDir, out, name).tree
    {
      if Considered(name) {
        var stale := !SourceAmong(Children(t, inputDir), name);
        if stale && IsFileAt(t, out + [name]) {
          UnlinkWellFormed(t, out + [name]);
          PrunedKeeps(t - {out + [name]}, out, stale, p);
        } else {
          PrunedKeeps(t, out, stale, p);
        }
      }
    }

    /** A considered file without a source, or whose input directory is gone, is removed by its step. */
    lemma ReverseStepDrops(t: Tree, inputDir: Path, out: Path, name: string)
      requires Considered(name) && !IsDirAt(t, out + [name])
      requires inputDir !in t || (IsDirAt(t, inputDir) && !SourceAmong(Children(t, inputDir), name))
      ensures out + [name] !in ReverseStep(t, inputDir, out, name).tree
    {
      assert Under(out, out + [name]);
    }

    /**
     * The body of the loop of `processOutputDir` for the file `name` of
     * `out`: a considered file whose input directory is gone takes the whole
     * output directory with it; one without a source is unlinked and its
     * key deleted from the manifest, which is then saved; afterwards an
     * output directory left empty is removed. Failures to remove are logged
     * and swallowed; a listing that fails rejects.
     */
    method ReverseFile(inputDir: Path, out: Path, name: string) returns (r: Outcome<FsError>, ghost dropped: set<Path>)
      requires Valid()
      modifies disk, manifest
      ensures Valid()
      ensures r == ReverseStep(old(disk.tree), inputDir, out, name).outcome
      ensures disk.tree == ReverseStep(old(disk.tree), inputDir, out, name).tree
      ensures dropped == if ReverseStep(old(disk.tree), inputDir, out, name).dropped then {out + [name]} else {}
      ensures manifest != null ==> manifest.mapping == RemoveAll(old(manifest.mapping), Keys(dropped))
    {
      dropped := {};
      assert Keys(dropped) == {};
      if manifest != null {
        RemoveAllNone(manifest.mapping);
      }
      if !EndsWith(name, GeneratedExtension(filename)) {
        return Resolved, dropped;
      }
      if inputDir !in disk.tree {
        disk.RemoveTree(out);
        return Resolved, dropped;
      }
      match ReadDir(disk.tree, inputDir)
      case Err(e) =>
        r := Rejected(e);
      case Ok(inputs) =>
        var stale := !SourceAmong(inputs, name);
        if stale {
          var full := out + [name];
          var unlinked := disk.Delete(full);
          dropped := {full};
          assert Keys(dropped) == {Render(full)};
          if manifest != null {
            RemoveIsRemoveAll(manifest.mapping, Render(full));
            manifest.Delete(Render(full));
            manifest.Save();
          }
        }
        r := PruneOutput(out, stale);
    }

    /** The end of a step of the reverse pass: `out` is listed again and removed when nothing is left in it. */
    method PruneOutput(out: Path, stale: bool) returns (r: Outcome<FsError>)
      requires Valid()
      modifies disk
      ensures Valid()
      ensures r == Pruned(old(disk.tree), out, stale).outcome
      ensures disk.tree == Pruned(old(disk.tree), out, stale).tree
    {
      match ReadDir(disk.tree, out)
      case Err(e) =>
        r := Rejected(e);
      case Ok(left) =>
        if left == {} {
          disk.RemoveTree(out);
        }
        r := Resolved;
    }

    /** The input directory the reverse pass, started at `inputDir` and `out`, pairs with the directory of `f`. */
    function Mirror(inputDir: Path, out: Path, f: Path): Path
      requires Below(out, f)
    {
      inputDir + f[|out|..|f| - 1]
    }

    /** A file below `out` that the reverse pass must leave: its input directory exists and, if it is considered, it has a source there. */
    ghost predicate Kept(t: Tree, inputDir: Path, out: Path, f: Path)
    {
      IsFileAt(t, f) && Below(out, f) && IsDirAt(t, Mirror(inputDir, out, f)) &&
      (Considered(Last(f)) ==> SourceAmong(Children(t, Mirror(inputDir, out, f)), Last(f)))
    }

    /** A considered file below `out` that the reverse pass must remove: its input directory is gone, or holds no source for it. */
    ghost predicate Stale(t: Tree, inputDir: Path, out: Path, f: Path)
    {
      IsFileAt(t, f) && Below(out, f) && Considered(Last(f)) &&
      (Mirror(inputDir, out, f) !in t ||
       (IsDirAt(t, Mirror(inputDir, out, f)) && !SourceAmong(Children(t, Mirror(inputDir, out, f)), Last(f))))
    }

    /** Every file kept by `listing`'s standard is still in `t`. */
    ghost predicate KeptSafe(listing: Tree, t: Tree, inputDir: Path, out: Path)
    {
      forall f :: Kept(listing, inputDir, out, f) ==> f in t
    }

    /** Every stale file of `listing` reached through one of `names` is gone from `t`. */
    ghost predicate StaleGone(listing: Tree, t: Tree, inputDir: Path, out: Path, names: set<string>)
    {
      forall f :: Stale(listing, inputDir, out, f) && f[|out|] in names ==> f !in t
    }

    lemma MirrorFromChild(inputDir: Path, out: Path, n: string, f: Path)
      requires Below(out + [n], f)
      ensures Below(out, f) && f[|out|] == n
      ensures Mirror(inputDir + [n], out + [n], f) == Mirror(inputDir, out, f)
    {
      assert f[..|out|] == f[..|out| + 1][..|out|];
      assert f[|out|..|f| - 1] == [n] + f[|out| + 1..|f| - 1];
    }

    /** Whether a file is kept or stale depends only on the input side, which the reverse pass does not touch. */
    lemma VerdictStable(t1: Tree, t2: Tree, inputDir: Path, out: Path, f: Path)
      requires Disjoint(inputDir, out) && Shrinks(t1, t2) && RemovesOnlyBelow(t1, t2, out)
      requires f in t2 && Below(out, f)
      ensures Kept(t1, inputDir, out, f) ==> Kept(t2, inputDir, out, f)
      ensures Stale(t1, inputDir, out, f) ==> Stale(t2, inputDir, out, f)
    {
      InputSide(t1, t2, inputDir, out, Mirror(inputDir, out, f));
    }

    /** The kept and stale files of a sub-directory are those of the directory, seen one level down. */
    lemma VerdictFromChild(t: Tree, inputDir: Path, out: Path, n: string, f: Path)
      requires Below(out + [n], f)
      ensures Kept(t, inputDir, out, f) <==> Kept(t, inputDir + [n], out + [n], f)
      ensures Stale(t, inputDir, out, f) <==> Stale(t, inputDir + [n], out + [n], f)
    {
      MirrorFromChild(inputDir, out, n, f);
    }

    /**
     * The body of the loop of `processOutputDir` for the entry `n` of `out`,
     * which `listing` (the tree when `out` was listed) says is a directory
     * or not: a directory is reconciled against the same name below
     * `inputDir`, a file by `ReverseFile`.
     */
    method OutputEntry(inputDir: Path, out: Path, n: string, isDirectory: bool, ghost listing: Tree, ghost bound: nat)
      returns (r: Outcome<FsError>, ghost dropped: set<Path>)
      requires Valid() && WellFormed(listing)
      requires out + [n] in listing && isDirectory == listing[out + [n]].Dir?
      requires Shrinks(listing, disk.tree) && RemovesOnlyBelow(listing, disk.tree, out)
      requires forall p :: p in listing ==> |p| <= bound
      modifies disk, manifest
      decreases bound - |out|, 0
      ensures Valid()
      ensures Shrinks(old(disk.tree), disk.tree) && RemovesOnlyBelow(old(disk.tree), disk.tree, out)
      ensures manifest != null ==> manifest.mapping == RemoveAll(old(manifest.mapping), Keys(dropped))
      ensures forall p :: p in dropped ==> Below(out, p) && Considered(Last(p))
      ensures Disjoint(inputDir, out) && KeptSafe(listing, old(disk.tree), inputDir, out) ==>
        KeptSafe(listing, disk.tree, inputDir, out)
      ensures Disjoint(inputDir, out) ==> StaleGone(listing, disk.tree, inputDir, out, {n})
    {
      if isDirectory {
        r, dropped := ProcessOutputDir(inputDir + [n], out + [n], bound);
        RemovesOnlyBelowWiden(old(disk.tree), disk.tree, out, n);
        forall p | p in dropped
          ensures Below(out, p)
        {
          assert p[..|out|] == p[..|out| + 1][..|out|];
        }
        if Disjoint(inputDir, out) {
          DisjointChild(inputDir, out, n);
          if KeptSafe(listing, old(disk.tree), inputDir, out) {
            SubdirKeeps(listing, old(disk.tree), disk.tree, inputDir, out, n);
          }
          SubdirDrops(listing, old(disk.tree), disk.tree, inputDir, out, n);
        }
      } else {
        ghost var before := disk.tree;
        r, dropped := ReverseFile(inputDir, out, n);
        ReverseStepShrinks(before, inputDir, out, n);
        if Disjoint(inputDir, out) {
          FileVerdicts(listing, before, inputDir, out, n);
        }
      }
    }

    /** The kept files survive when a sub-directory has been reconciled. */
    lemma SubdirKeeps(listing: Tree, before: Tree, after: Tree, inputDir: Path, out: Path, n: string)
      requires Disjoint(inputDir, out) && WellFormed(listing) && IsDirAt(listing, out + [n])
      requires Shrinks(listing, before) && RemovesOnlyBelow(listing, before, out)
      requires RemovesOnlyBelow(before, after, out + [n])
      requires KeptSafe(before, after, inputDir + [n], out + [n])
      requires KeptSafe(listing, before, inputDir, out)
      ensures KeptSafe(listing, after, inputDir, out)
    {
      forall f | Kept(listing, inputDir, out, f)
        ensures f in after
      {
        assert f in before;
        if Under(out + [n], f) {
          assert f != out + [n];
          assert Below(out + [n], f);
          VerdictStable(listing, before, inputDir, out, f);
          assert Kept(before, inputDir, out, f);
          VerdictFromChild(before, inputDir, out, n, f);
          assert Kept(before, inputDir + [n], out + [n], f);
        }
      }
    }

    /** The stale files below a sub-directory are gone once it has been reconciled. */
    lemma SubdirDrops(listing: Tree, before: Tree, after: Tree, inputDir: Path, out: Path, n: string)
      requires Disjoint(inputDir, out) && WellFormed(listing) && IsDirAt(listing, out + [n])
      requires Shrinks(listing, before) && RemovesOnlyBelow(listing, before, out) && Shrinks(before, after)
      requires forall f :: Stale(before, inputDir + [n], out + [n], f) ==> f !in after
      ensures StaleGone(listing, after, inputDir, out, {n})
    {
      forall f | Stale(listing, inputDir, out, f) && f[|out|] in {n}
        ensures f !in after
      {
        ThroughChild(listing, out, f);
        if f in before {
          VerdictStable(listing, before, inputDir, out, f);
          VerdictFromChild(before, inputDir, out, n, f);
        }
      }
    }

    /** The kept files survive, and the stale one goes, when a file of `out` has been handled. */
    lemma FileVerdicts(listing: Tree, before: Tree, inputDir: Path, out: Path, n: string)
      requires Disjoint(inputDir, out) && WellFormed(listing) && WellFormed(before)
      requires IsFileAt(listing, out + [n])
      requires Shrinks(listing, before) && RemovesOnlyBelow(listing, before, out)
      ensures KeptSafe(listing, before, inputDir, out) ==>
        KeptSafe(listing, ReverseStep(before, inputDir, out, n).tree, inputDir, out)
      ensures StaleGone(listing, ReverseStep(before, inputDir, out, n).tree, inputDir, out, {n})
    {
      var after := ReverseStep(before, inputDir, out, n).tree;
      ReverseStepShrinks(before, inputDir, out, n);
      InputSide(listing, before, inputDir, out, inputDir);
      forall f | Kept(listing, inputDir, out, f) && f in before
        ensures f in after
      {
        var m := Mirror(inputDir, out, f);
        if |m| > |inputDir| {
          AncestorIsDir(listing, m, |inputDir|);
          assert m[..|inputDir|] == inputDir;
        }
        if f == out + [n] {
          assert m == inputDir;
        }
        ReverseStepKeeps(before, inputDir, out, n, f);
      }
      forall f | Stale(listing, inputDir, out, f) && f[|out|] in {n}
        ensures f !in after
      {
        ThroughChild(listing, out, f);
        assert f == out + [n];
        assert Mirror(inputDir, out, f) == inputDir;
        ReverseStepDrops(before, inputDir, out, n);
      }
    }

    /**
     * `processOutputDir(inputDir, out)`, the reverse pass. A missing output
     * directory is left alone; otherwise it is listed and each entry handled
     * by `OutputEntry`, all of them even when some reject.
     *
     * It only removes, and only at or below `out`. When the input and output
     * directories are disjoint, every file whose input directory exists and,
     * if it has the generated extension, whose source is still there,
     * survives; and every file with the generated extension whose input
     * directory is gone or holds no source for it is removed. The manifest
     * loses exactly the keys of the files found stale: their output paths.
     */
    method ProcessOutputDir(inputDir: Path, out: Path, ghost bound: nat) returns (r: Outcome<FsError>, ghost dropped: set<Path>)
      requires Valid() && |out| <= bound && forall p :: p in disk.tree ==> |p| <= bound
      modifies disk, manifest
      decreases bound - |out|, 1
      ensures Valid()
      ensures Shrinks(old(disk.tree), disk.tree) && RemovesOnlyBelow(old(disk.tree), disk.tree, out)
      ensures out !in old(disk.tree) ==> r == Resolved && disk.tree == old(disk.tree)
      ensures IsFileAt(old(disk.tree), out) ==> r == Rejected(ENOTDIR) && disk.tree == old(disk.tree)
      ensures manifest != null ==> manifest.mapping == RemoveAll(old(manifest.mapping), Keys(dropped))
      ensures forall p :: p in dropped ==> Below(out, p) && Considered(Last(p))
      ensures Disjoint(inputDir, out) ==> KeptSafe(old(disk.tree), disk.tree, inputDir, out)
      ensures Disjoint(inputDir, out) ==> forall f :: Stale(old(disk.tree), inputDir, out, f) ==> f !in disk.tree
    {
      dropped := {};
      assert Keys(dropped) == {};
      if manifest != null {
        RemoveAllNone(manifest.mapping);
      }
      forall f | Stale(disk.tree, inputDir, out, f)
        ensures IsDirAt(disk.tree, out)
      {
        AncestorIsDir(disk.tree, f, |out|);
      }
      if out !in disk.tree {
        return Resolved, dropped;
      }
      var listing := disk.tree;
      match ReadDir(listing, out)
      case Err(e) =>
        r := Rejected(e);
      case Ok(names) =>
        r := Resolved;
        var todo := names;
        ghost var done: set<string> := {};
        while todo != {}
          invariant todo <= names && done == names - todo
          invariant Valid()
          invariant Shrinks(listing, disk.tree) && RemovesOnlyBelow(listing, disk.tree, out)
          invariant manifest != null ==> manifest.mapping == RemoveAll(old(manifest.mapping), Keys(dropped))
          invariant forall p :: p in dropped ==> Below(out, p) && Considered(Last(p))
          invariant Disjoint(inputDir, out) ==> KeptSafe(listing, disk.tree, inputDir, out)
          invariant Disjoint(inputDir, out) ==> StaleGone(listing, disk.tree, inputDir, out, done)
          decreases todo
        {
          var n :| n in todo;
          ghost var before := disk.tree;
          ghost var mapping := if manifest != null then manifest.mapping else [];
          var sub, subDropped := OutputEntry(inputDir, out, n, listing[out + [n]].Dir?, listing, bound);
          if sub.Rejected? && r.Resolved? {
            r := sub;
          }
          if manifest != null {
            RemoveAllUnion(old(manifest.mapping), Keys(dropped), Keys(subDropped));
          }
          assert Keys(dropped + subDropped) == Keys(dropped) + Keys(subDropped);
          dropped := dropped + subDropped;
          ShrinksTransitive(listing, before, disk.tree);
          todo := todo - {n};
          done := done + {n};
        }
        forall f | Disjoint(inputDir, out) && Stale(listing, inputDir, out, f)
          ensures f !in disk.tree
        {
          ThroughChild(listing, out, f);
          ChildrenMember(listing, out, f[|out|]);
        }
    }

    /** The name of the removed source: the last segment below the base directory, or nothing for the base directory itself. */
    function SourceName(watchPath: Path): string
    {
      if |watchPath| > |baseDir| then Last(watchPath) else ""
    }

    /** The manifest key `doUnlink` deletes: the watched path without the first occurrence of the source's extension. */
    function UnlinkKey(watchPath: Path): string
    {
      ReplaceFirst(Render(watchPath), ExtName(SourceName(watchPath)), "")
    }

    /** For a source below the base directory, the key `doUnlink` deletes is the one `processFile` added. */
    lemma UnlinkKeyIsManifestKey(w: Path)
      requires Below(baseDir, w)
      ensures UnlinkKey(w) == ManifestKey(w)
    {
    }

    /**
     * Once `processFile` has added a source and a `doUnlink` of it has
     * traced an output, the source's key is gone, and every other key reads
     * as it did before the add.
     */
    lemma AddThenUnlinkForgets(es: ManifestJson.Entries, w: Path, v: string, k: string)
      requires Below(baseDir, w)
      ensures Lookup(Remove(Upsert(es, ManifestKey(w), v), UnlinkKey(w)), ManifestKey(w)) == None
      ensures k != ManifestKey(w) ==> Lookup(Remove(Upsert(es, ManifestKey(w), v), UnlinkKey(w)), k) == Lookup(es, k)
    {
      UnlinkKeyIsManifestKey(w);
      LookupRemove(Upsert(es, ManifestKey(w), v), ManifestKey(w), k);
      LookupUpsert(es, ManifestKey(w), v, k);
    }

    /** `doUnlink` traces the output name `o` back to the source name `name`. */
    predicate TracesTo(o: string, name: string)
    {
      GetBaseName(filename, o, ExtName(o)) == name
    }

    /** The names directly in the output directory that `doUnlink` traces back to `name`. */
    function Traced(t: Tree, name: string): set<string>
    {
      set o | o in Children(t, outputDir) && TracesTo(o, name)
    }

    /** One turn of the loop of `doUnlink`. */
    method UnlinkIfTraced(o: string, name: string, key: string) returns (traced: bool)
      requires Valid()
      modifies disk, manifest
      ensures Valid()
      ensures traced == TracesTo(o, name)
      ensures disk.tree == if traced && IsFileAt(old(disk.tree), outputDir + [o]) then old(disk.tree) - {outputDir + [o]} else old(disk.tree)
      ensures manifest != null ==> manifest.mapping == if traced then Remove(old(manifest.mapping), key) else old(manifest.mapping)
    {
      traced := GetBaseName(filename, o, ExtName(o)) == name;
      if traced {
        var unlinked := disk.Delete(outputDir + [o]);
        if manifest != null {
          manifest.Delete(key);
          manifest.Save();
        }
      }
    }

    /** The tree with the files among `names` in the output directory unlinked; other names are left. */
    function Unlinked(t: Tree, names: set<string>): Tree
    {
      t - set o | o in names && IsFileAt(t, outputDir + [o]) :: outputDir + [o]
    }

    lemma UnlinkedStep(t: Tree, names: set<string>, o: string)
      requires o !in names
      ensures IsFileAt(Unlinked(t, names), outputDir + [o]) <==> IsFileAt(t, outputDir + [o])
      ensures Unlinked(t, names + {o}) ==
        if IsFileAt(t, outputDir + [o]) then Unlinked(t, names) - {outputDir + [o]} else Unlinked(t, names)
    {
      var p := outputDir + [o];
      forall x | x in names && IsFileAt(t, outputDir + [x])
        ensures outputDir + [x] != p
      {
        assert (outputDir + [x])[|outputDir|] == x;
      }
    }

    /**
     * `doUnlink(watchPath)`: the output directory is listed (a failure
     * rejects), and each name in it that traces back to the removed
     * source's name is unlinked (a failure to unlink is swallowed) and the
     * source's key deleted from the manifest, which is saved; last,
     * `<name>.css` below the output directory is removed with everything
     * below it. Nothing below the output directory's sub-directories is
     * looked at.
     */
    method DoUnlink(watchPath: Path) returns (r: Outcome<FsError>)
      requires Valid() && Under(baseDir, watchPath)
      modifies disk, manifest
      ensures Valid()
      ensures r.Resolved? <==> IsDirAt(old(disk.tree), outputDir)
      ensures disk.tree ==
        if r.Resolved?
        then Removed(Unlinked(old(disk.tree), Traced(old(disk.tree), UnlinkedName(SourceName(watchPath)))),
                     outputDir + [UnlinkedName(SourceName(watchPath)) + ".css"])
        else old(disk.tree)
      ensures manifest != null ==>
        manifest.mapping ==
          if r.Resolved? && Traced(old(disk.tree), UnlinkedName(SourceName(watchPath))) != {}
          then Remove(old(manifest.mapping), UnlinkKey(watchPath))
          else old(manifest.mapping)
    {
      var source := if |watchPath| > |baseDir| then Last(watchPath) else "";
      var ext := ExtName(source);
      var name := ReplaceFirst(source, ext, "");
      var key := ReplaceFirst(Render(watchPath), ext, "");
      match ReadDir(disk.tree, outputDir)
      case Err(e) =>
        r := Rejected(e);
      case Ok(outputs) =>
        UnlinkTraced(outputs, name, key);
        disk.RemoveTree(outputDir + [name + ".css"]);
        r := Resolved;
    }

    /** The loop of `doUnlink` over the listing `outputs` of the output directory. */
    method UnlinkTraced(outputs: set<string>, name: string, key: string)
      requires Valid() && outputs == Children(disk.tree, outputDir)
      modifies disk, manifest
      ensures Valid()
      ensures disk.tree == Unlinked(old(disk.tree), Traced(old(disk.tree), name))
      ensures manifest != null ==>
        manifest.mapping ==
          if Traced(old(disk.tree), name) != {} then Remove(old(manifest.mapping), key) else old(manifest.mapping)
    {
      var todo := outputs;
      ghost var done: set<string> := {};
      ghost var hits: set<string> := {};
      assert Unlinked(old(disk.tree), {}) == old(disk.tree);
      while todo != {}
        invariant todo <= outputs && done == outputs - todo
        invariant Valid()
        invariant hits <= done && forall x :: x in done ==> (x in hits <==> TracesTo(x, name))
        invariant disk.tree == Unlinked(old(disk.tree), hits)
        invariant manifest != null ==>
          manifest.mapping == if hits != {} then Remove(old(manifest.mapping), key) else old(manifest.mapping)
        decreases todo
      {
        var o :| o in todo;
        UnlinkedStep(old(disk.tree), hits, o);
        if manifest != null {
          RemoveTwice(old(manifest.mapping), key);
        }
        var found := UnlinkIfTraced(o, name, key);
        if found {
          hits := hits + {o};
        }
        todo := todo - {o};
        done := done + {o};
      }
      assert hits == Traced(old(disk.tree), name);
    }

    /**
     * `doUnlinkDir(watchPath)`: the directory in the output that mirrors the
     * removed one is removed with everything below it; a failure is
     * swallowed. The manifest is not touched.
     */
    method DoUnlinkDir(watchPath: Path)
      requires Valid() && Under(baseDir, watchPath)
      modifies disk
      ensures Valid()
      ensures disk.tree == Removed(old(disk.tree), outputDir + watchPath[|baseDir|..])
    {
      disk.RemoveTree(outputDir + watchPath[|baseDir|..]);
    }

    /** What `doUnlinkDir` removes covers every output the forward pass wrote for a source inside the removed directory. */
    lemma UnlinkDirCoversOutputs(watchPath: Path, s: Path)
      requires Under(baseDir, watchPath) && Below(watchPath, s) && Compiles(s)
      ensures Below(baseDir, s)
      ensures Under(outputDir + watchPath[|baseDir|..], Target(baseDir, outputDir, s))
    {
      MirrorUnder(baseDir, watchPath, s, outputDir, OutName(s));
    }

    /**
     * `compile()`. A missing base directory makes the existence check fall
     * through to `isDir`, whose `stat` rejects; a base path that exists but
     * is a file passes the check. A missing output directory is created
     * with at most three `mkdir` calls; if none succeeds the call rejects
     * with the last error. Then the forward pass runs over the tree as it
     * is, and the reverse pass after it; a rejection of either rejects.
     * Last, in watch mode, the watcher starts.
     */
    method Compile() returns (r: Outcome<CompileError>, ghost attempts: nat, ghost written: Tree,
                              ghost recorded: ManifestJson.Entries, ghost dropped: set<Path>)
      requires Valid()
      modifies this, disk, manifest
      ensures Valid()
      ensures attempts <= 3
      ensures outputDir in old(disk.tree) ==> attempts == 0
      ensures baseDir !in old(disk.tree) ==> r == Rejected(StatFailed(baseDir)) && disk.tree == old(disk.tree)
      ensures r.Rejected? && r.error.CannotCreate? ==>
        r.error.path == outputDir && attempts == 3 && disk.tree == old(disk.tree) && outputDir !in old(disk.tree)
      ensures baseDir in old(disk.tree) && outputDir !in old(disk.tree) && FileOnPath(old(disk.tree), outputDir) ==>
        r.Rejected? && r.error.CannotCreate?
      ensures IsFileAt(old(disk.tree), baseDir) || IsFileAt(old(disk.tree), outputDir) ==> r.Rejected?
      ensures IsFileAt(old(disk.tree), baseDir) && outputDir in old(disk.tree) ==> r == Rejected(ProcessingFailed(baseDir))
      ensures r.Resolved? ==> IsDirAt(old(disk.tree), baseDir)
      ensures r.Resolved? ==> Forwarded(old(disk.tree), written) && Reconciled(old(disk.tree), written, disk.tree)
      ensures r.Resolved? && manifest != null ==>
        ManifestForwarded(old(manifest.mapping), recorded, old(disk.tree), written) &&
        manifest.mapping == RemoveAll(recorded, Keys(dropped))
      ensures forall p :: p in dropped ==> Below(outputDir, p) && Considered(Last(p))
      ensures watching == (if r.Resolved? then watch || old(watching) else old(watching))
      ensures closed == old(closed)
    {
      attempts, written, recorded, dropped := 0, disk.tree, [], {};
      if baseDir !in disk.tree {
        return Rejected(StatFailed(baseDir)), attempts, written, recorded, dropped;
      }
      if outputDir !in disk.tree {
        var made;
        made, attempts := CreateOutputDir();
        if made.Err? {
          return Rejected(CannotCreate(outputDir, made.error)), attempts, written, recorded, dropped;
        }
        MadeAt(old(disk.tree), outputDir, baseDir);
        MadeGrows(old(disk.tree), outputDir);
      }
      ghost var mid := disk.tree;
      var processed;
      processed, written, recorded, dropped := ProcessDirs();
      PassesAfterMkdir(old(disk.tree), mid, written, disk.tree);
      if manifest != null {
        ManifestAfterMkdir(old(disk.tree), mid, written, old(manifest.mapping), recorded);
      }
      if processed.Rejected? {
        return Rejected(ProcessingFailed(baseDir)), attempts, written, recorded, dropped;
      }
      if watch {
        watching := true;
      }
      r := Resolved;
    }

    /** The retry loop of `compile()`: `mkdir` until it succeeds, three calls at most. */
    method CreateOutputDir() returns (r: Result<(), FsError>, ghost attempts: nat)
      requires Valid()
      modifies disk
      ensures Valid()
      ensures 1 <= attempts <= 3
      ensures r.Ok? ==> Mkdir(old(disk.tree), outputDir).Ok? && disk.tree == Mkdir(old(disk.tree), outputDir).value
      ensures r.Err? ==> attempts == 3 && disk.tree == old(disk.tree)
      ensures FileOnPath(old(disk.tree), outputDir) ==> r.Err?
    {
      var tries := 0;
      var created := false;
      var lastError := EACCES;
      attempts := 0;
      while !created && tries < 3
        invariant 0 <= tries <= 3 && attempts == tries + (if created then 1 else 0)
        invariant created ==> tries < 3
        invariant Valid()
        invariant !created ==> disk.tree == old(disk.tree)
        invariant created ==> Mkdir(old(disk.tree), outputDir).Ok? && disk.tree == Mkdir(old(disk.tree), outputDir).value
        decreases 3 - tries, if created then 0 else 1
      {
        var made := disk.MakeDirectory(outputDir);
        attempts := attempts + 1;
        if made.Ok? {
          created := true;
        } else {
          lastError := made.error;
          tries := tries + 1;
        }
      }
      r := if created then Ok(()) else Err(lastError);
    }

    /**
     * What the forward pass leaves in `t1`, started on `t0`: the tree only
     * grew, below the output directory, and the output of every compiling
     * source below the base directory is written or its place blocked.
     */
    ghost predicate Forwarded(t0: Tree, t1: Tree)
    {
      Extends(t0, t1) && WritesOnlyBelow(t0, t1, outputDir) &&
      forall s :: Pending(t0, baseDir, s) ==> WriteDone(t1, Target(baseDir, outputDir, s))
    }

    /**
     * What the reverse pass leaves in `t2`, after the forward pass took `t0`
     * to `t1`, when the input and output directories are disjoint: the
     * output of every source it can trace back (`Traceable`) is still a file
     * unless its place was blocked, every output stale in `t1` is gone, and
     * under a `[hash].[name]` template the outputs of plainly named sources
     * are gone again.
     */
    ghost predicate Reconciled(t0: Tree, t1: Tree, t2: Tree)
    {
      Disjoint(baseDir, outputDir) ==>
        (forall s :: Pending(t0, baseDir, s) && Traceable(s) ==>
           IsFileAt(t2, Target(baseDir, outputDir, s)) || Blocked(t1, Target(baseDir, outputDir, s))) &&
        (IsDirAt(t0, baseDir) ==> forall f :: Stale(t1, baseDir, outputDir, f) ==> f !in t2) &&
        (HashFirst() ==>
           forall s :: Pending(t0, baseDir, s) && Unclaimed(t0, s) ==> !IsFileAt(t2, Target(baseDir, outputDir, s)))
    }

    /**
     * The manifest after the forward pass: `m1` differs from `m0` only by
     * recorded outputs of sources below the base directory of `t0`, and
     * every such source whose output could be written in `t1` has its key.
     */
    ghost predicate ManifestForwarded(m0: ManifestJson.Entries, m1: ManifestJson.Entries, t0: Tree, t1: Tree)
    {
      RecordsOnly(m0, m1, t0, baseDir, outputDir) &&
      forall s :: Pending(t0, baseDir, s) && !Blocked(t1, Target(baseDir, outputDir, s)) ==>
        KeyRecorded(m1, t0, baseDir, outputDir, s)
    }

    /**
     * `processDirs()`: the forward pass over the tree as it is, then the
     * reverse pass; the first rejection rejects. `written` is the tree
     * between the two passes, `recorded` the manifest mapping between
     * them, and `dropped` the outputs the reverse pass unlinked, whose keys
     * it deleted.
     */
    method ProcessDirs() returns (r: Outcome<FsError>, ghost written: Tree,
                                  ghost recorded: ManifestJson.Entries, ghost dropped: set<Path>)
      requires Valid()
      modifies disk, manifest
      ensures Valid()
      ensures r.Resolved? ==> IsDirAt(old(disk.tree), baseDir)
      ensures IsFileAt(old(disk.tree), outputDir) ==> r.Rejected?
      ensures Forwarded(old(disk.tree), written)
      ensures Reconciled(old(disk.tree), written, disk.tree)
      ensures manifest != null ==> ManifestForwarded(old(manifest.mapping), recorded, old(disk.tree), written)
      ensures manifest != null ==> manifest.mapping == RemoveAll(recorded, Keys(dropped))
      ensures forall p :: p in dropped ==> Below(outputDir, p) && Considered(Last(p))
    {
      var snap := disk.tree;
      forall s | Pending(snap, baseDir, s)
        ensures IsDirAt(snap, baseDir)
      {
        NoPendingOutsideDirectory(snap, baseDir, s);
      }
      ghost var bound := MaxLen(snap.Keys + {baseDir});
      r := ProcessDir(snap, baseDir, outputDir, bound);
      written := disk.tree;
      recorded := if manifest != null then manifest.mapping else [];
      dropped := {};
      if r.Rejected? {
        assert Keys(dropped) == {};
        if manifest != null {
          RemoveAllNone(recorded);
        }
        NothingReconciled(snap, written);
        return;
      }
      ghost var bound2 := MaxLen(disk.tree.Keys + {outputDir});
      r, dropped := ProcessOutputDir(baseDir, outputDir, bound2);
      BothPasses(snap, written, disk.tree);
    }

    /** The promises of the reverse pass, from what each pass ensures. */
    lemma BothPasses(t0: Tree, t1: Tree, t2: Tree)
      requires WellFormed(t0) && Forwarded(t0, t1) && Shrinks(t1, t2)
      requires Disjoint(baseDir, outputDir) ==>
        KeptSafe(t1, t2, baseDir, outputDir) && forall f :: Stale(t1, baseDir, outputDir, f) ==> f !in t2
      ensures Reconciled(t0, t1, t2)
    {
      if Disjoint(baseDir, outputDir) {
        forall s | Pending(t0, baseDir, s) && Traceable(s)
          ensures IsFileAt(t2, Target(baseDir, outputDir, s)) || Blocked(t1, Target(baseDir, outputDir, s))
        {
          PassesKeep(t0, t1, t2, s);
        }
        if HashFirst() {
          forall s | Pending(t0, baseDir, s) && Unclaimed(t0, s)
            ensures !IsFileAt(t2, Target(baseDir, outputDir, s))
          {
            PassesDrop(t0, t1, t2, s);
          }
        }
      }
    }

    /** When the base is no directory, no source is pending and the reverse pass owes nothing. */
    lemma NothingReconciled(t0: Tree, t1: Tree)
      requires WellFormed(t0) && !IsDirAt(t0, baseDir)
      ensures Reconciled(t0, t1, t1)
    {
      forall s | Pending(t0, baseDir, s)
        ensures false
      {
        NoPendingOutsideDirectory(t0, baseDir, s);
      }
    }

    /** A tree that only gained directories has the same pending sources. */
    lemma PendingAfterMkdir(t0: Tree, mid: Tree)
      requires Extends(t0, mid) && forall q :: q in mid && q !in t0 ==> mid[q].Dir?
      ensures forall s :: Pending(t0, baseDir, s) <==> Pending(mid, baseDir, s)
    {
    }

    /**
     * A `mkdir` of the output directory before the passes changes none of
     * their promises: it adds only directories, so the same sources are
     * pending, and for disjoint directories it leaves the input side alone.
     */
    lemma PassesAfterMkdir(t0: Tree, mid: Tree, t1: Tree, t2: Tree)
      requires Extends(t0, mid) && WritesOnlyBelow(t0, mid, outputDir)
      requires forall q :: q in mid && q !in t0 ==> mid[q].Dir?
      requires Forwarded(mid, t1) && Reconciled(mid, t1, t2)
      ensures Forwarded(t0, t1) && Reconciled(t0, t1, t2)
    {
      ExtendsTransitive(t0, mid, t1);
      WritesOnlyBelowTransitive(t0, mid, t1, outputDir);
      PendingAfterMkdir(t0, mid);
      if Disjoint(baseDir, outputDir) && HashFirst() {
        forall s | Pending(t0, baseDir, s) && Unclaimed(t0, s)
          ensures Unclaimed(mid, s)
        {
          UnclaimedAfterMkdir(t0, mid, s);
        }
      }
    }

    lemma UnclaimedAfterMkdir(t0: Tree, mid: Tree, s: Path)
      requires Disjoint(baseDir, outputDir) && Extends(t0, mid) && WritesOnlyBelow(t0, mid, outputDir)
      requires Pending(t0, baseDir, s) && Unclaimed(t0, s)
      ensures Unclaimed(mid, s)
    {
      ParentUnder(baseDir, s);
      InputSideForward(t0, mid, baseDir, outputDir, Parent(s));
    }

    /** The manifest promises of the passes, likewise, hold from the tree before the `mkdir`. */
    lemma ManifestAfterMkdir(t0: Tree, mid: Tree, t1: Tree, m0: ManifestJson.Entries, m1: ManifestJson.Entries)
      requires Extends(t0, mid) && forall q :: q in mid && q !in t0 ==> mid[q].Dir?
      requires ManifestForwarded(m0, m1, mid, t1)
      ensures ManifestForwarded(m0, m1, t0, t1)
    {
      PendingAfterMkdir(t0, mid);
      forall k, v | Recorded(mid, baseDir, outputDir, k, v)
        ensures Recorded(t0, baseDir, outputDir, k, v)
      {
        var s :| Pending(mid, baseDir, s) && ManifestKey(s) == k && v == Render(Target(baseDir, outputDir, s));
        assert Pending(t0, baseDir, s);
      }
      forall s | Pending(t0, baseDir, s) && !Blocked(t1, Target(baseDir, outputDir, s))
        ensures KeyRecorded(m1, t0, baseDir, outputDir, s)
      {
        assert Pending(mid, baseDir, s);
      }
    }

    /** The reverse pass traces the output of `s` back to a source with `s`'s name. */
    predicate Traceable(s: Path)
      requires Compiles(s)
    {
      Last(s) != "" && GetBaseName(filename, OutName(s), GeneratedExtension(filename)) == Stem(Last(s))
    }

    /**
     * Without a template, and under `[name]` or `[name].[hash]` followed by
     * an extension, every source with a plain stem is traceable.
     */
    lemma TraceableUnderRoundTrip(s: Path, e: string)
      requires Compiles(s)
      requires Stem(Last(s)) != "" && '.' !in Stem(Last(s)) && '[' !in Stem(Last(s))
      requires Stem(Last(s))[|Stem(Last(s))| - 1] !in {'.', '_'}
      requires (filename == "" && ExtName(Last(s)) != "") ||
               (IsExtension(e) && '[' !in e && !Contains(filename, ExtName(Last(s))) &&
                (filename == NameToken + e || filename == NameToken + "." + HashToken + e))
      ensures Traceable(s)
    {
      var digest := md5(Css(s).value);
      if filename == "" {
        NoTemplateRoundTrip(Last(s), digest);
      } else if filename == NameToken + e {
        NameTemplateRoundTrip(e, Last(s), digest);
      } else {
        NameHashTemplateRoundTrip(e, Last(s), digest);
      }
    }

    /** The template is `[hash].[name]` followed by an extension. */
    predicate HashFirst()
    {
      var e := ExtName(filename);
      IsExtension(e) && '[' !in e && filename == HashToken + "." + NameToken + e
    }

    /**
     * The output of `s` has nothing in `t` to claim it under `HashFirst`: the
     * source has a plain stem and a digest without `.` or `[`, and no
     * matching name beside it has `.` plus that stem as its own stem.
     */
    ghost predicate Unclaimed(t: Tree, s: Path)
      requires Compiles(s)
    {
      var n := Stem(Last(s));
      var digest := md5(Css(s).value);
      n != "" && '.' !in n && n[|n| - 1] !in {'.', '_'} && !Contains(filename, ExtName(Last(s))) &&
      '.' !in digest && '[' !in digest &&
      forall m :: m in Children(t, Parent(s)) && MatchFile(m) ==> Stem(m) != "." + n
    }

    /** The output of a source lies below the output directory, and its input directory is the source's own. */
    lemma MirrorOfTarget(s: Path)
      requires Below(baseDir, s) && Compiles(s)
      ensures Below(outputDir, Target(baseDir, outputDir, s))
      ensures Last(Target(baseDir, outputDir, s)) == OutName(s)
      ensures Under(baseDir, Parent(s))
      ensures Mirror(baseDir, outputDir, Target(baseDir, outputDir, s)) == Parent(s)
    {
      MirroredPath(baseDir, outputDir, s, OutName(s));
    }

    /** A source's directory holds it, after a forward pass as before. */
    lemma SourceBeside(t0: Tree, t1: Tree, s: Path)
      requires WellFormed(t0) && Disjoint(baseDir, outputDir) && s in t0 && Below(baseDir, s)
      requires Extends(t0, t1) && WritesOnlyBelow(t0, t1, outputDir)
      ensures IsDirAt(t1, Parent(s)) && Last(s) in Children(t1, Parent(s))
      ensures Children(t1, Parent(s)) == Children(t0, Parent(s))
    {
      ParentUnder(baseDir, s);
      InputSideForward(t0, t1, baseDir, outputDir, Parent(s));
      ChildrenMember(t0, Parent(s), Last(s));
    }

    /** A traceable source's output, written by the forward pass, is one the reverse pass keeps. */
    lemma TracedIsKept(t0: Tree, t1: Tree, s: Path)
      requires WellFormed(t0) && Disjoint(baseDir, outputDir) && Pending(t0, baseDir, s) && Traceable(s)
      requires Extends(t0, t1) && WritesOnlyBelow(t0, t1, outputDir)
      requires IsFileAt(t1, Target(baseDir, outputDir, s))
      ensures Kept(t1, baseDir, outputDir, Target(baseDir, outputDir, s))
    {
      MirrorOfTarget(s);
      SourceBeside(t0, t1, s);
      assert Last(s) in Children(t1, Parent(s)) && Last(s) != "" && MatchFile(Last(s));
    }

    /** Under `HashFirst`, an unclaimed source's output, written by the forward pass, is stale. */
    lemma UnclaimedIsStale(t0: Tree, t1: Tree, s: Path)
      requires WellFormed(t0) && Disjoint(baseDir, outputDir) && Pending(t0, baseDir, s)
      requires HashFirst() && Unclaimed(t0, s)
      requires Extends(t0, t1) && WritesOnlyBelow(t0, t1, outputDir)
      requires IsFileAt(t1, Target(baseDir, outputDir, s))
      ensures Stale(t1, baseDir, outputDir, Target(baseDir, outputDir, s))
    {
      UnclaimedOutputName(t0, s);
      MirrorOfTarget(s);
      SourceBeside(t0, t1, s);
      assert !SourceAmong(Children(t1, Parent(s)), OutName(s)) by {
        forall m | m in Children(t1, Parent(s)) && m != "" && MatchFile(m)
          ensures Stem(m) != "." + Stem(Last(s))
        {
          assert m in Children(t0, Parent(s));
        }
      }
    }

    /** Under `HashFirst`, the output name of an unclaimed source is considered and yields `.` plus its stem. */
    lemma UnclaimedOutputName(t0: Tree, s: Path)
      requires Compiles(s) && HashFirst() && Unclaimed(t0, s)
      ensures Considered(OutName(s))
      ensures GetBaseName(filename, OutName(s), GeneratedExtension(filename)) == "." + Stem(Last(s))
    {
      HashFirstOutput(ExtName(filename), Last(s), md5(Css(s).value));
    }

    /** What the forward pass wrote for a traceable source survives the reverse pass, unless the place was taken. */
    lemma PassesKeep(t0: Tree, t1: Tree, t2: Tree, s: Path)
      requires WellFormed(t0) && Disjoint(baseDir, outputDir) && Pending(t0, baseDir, s) && Traceable(s)
      requires Extends(t0, t1) && WritesOnlyBelow(t0, t1, outputDir)
      requires WriteDone(t1, Target(baseDir, outputDir, s))
      requires Shrinks(t1, t2) && KeptSafe(t1, t2, baseDir, outputDir)
      ensures IsFileAt(t2, Target(baseDir, outputDir, s)) || Blocked(t1, Target(baseDir, outputDir, s))
    {
      if IsFileAt(t1, Target(baseDir, outputDir, s)) {
        TracedIsKept(t0, t1, s);
      }
    }

    /** Under `HashFirst`, nothing is left as a file at an unclaimed source's output after both passes. */
    lemma PassesDrop(t0: Tree, t1: Tree, t2: Tree, s: Path)
      requires WellFormed(t0) && Disjoint(baseDir, outputDir) && Pending(t0, baseDir, s)
      requires HashFirst() && Unclaimed(t0, s)
      requires Extends(t0, t1) && WritesOnlyBelow(t0, t1, outputDir)
      requires Shrinks(t1, t2) && forall f :: Stale(t1, baseDir, outputDir, f) ==> f !in t2
      ensures !IsFileAt(t2, Target(baseDir, outputDir, s))
    {
      if IsFileAt(t1, Target(baseDir, outputDir, s)) {
        UnclaimedIsStale(t0, t1, s);
      }
    }

    /** `stop()`: when the watcher was started, the queue's timer is cleared and the watcher closed. */
    method Stop()
      modifies this, changeQueue
      ensures watching == old(watching)
      ensures closed == (old(closed) || old(watching))
      ensures changeQueue != null ==>
        changeQueue.State() == if old(watching) then Stopped(old(changeQueue.State())) else old(changeQueue.State())
    {
      if watching {
        if changeQueue != null {
          changeQueue.Stop();
        }
        closed := true;
      }
    }

    /** The watcher's `ignored` option: a path whose stats say it is a file whose name does not match is not watched. */
    predicate Ignored(path: Path, isFile: Option<bool>)
    {
      isFile == Some(true) && path != [] && !MatchFile(Last(path))
    }

    /** The closure queued for an event of the given kind. */
    function ActionFor(kind: EventKind, watchPath: Path): (a: Action)
      ensures a.Reprocess? <==> kind == Add || kind == Change
      ensures !a.Reprocess? ==> a.watchPath == watchPath
    {
      match kind
      case Add => Reprocess
      case Change => Reprocess
      case Unlink => RemoveFile(watchPath)
      case UnlinkDir => RemoveDir(watchPath)
    }

    /** A queued action names a path below the base directory, as the watcher's paths are. */
    predicate ActionOk(a: Action)
    {
      a.Reprocess? || Under(baseDir, a.watchPath)
    }

    ghost predicate QueueOk()
      reads changeQueue
    {
      changeQueue != null ==> forall e :: e in changeQueue.queue ==> ActionOk(e.action)
    }

    /**
     * The watcher's `all` listener, for an event the watcher reports on
     * `watchPath` (whose stats, when it has them, say whether it is a
     * file): `add`, `change`, `unlink` and `unlinkDir` queue the matching
     * action; every other event, and every event on an ignored path, is
     * dropped.
     */
    method OnEvent(event: string, watchPath: Path, isFile: Option<bool>)
      requires watching && !closed && Under(baseDir, watchPath) && QueueOk()
      modifies changeQueue
      ensures QueueOk()
      ensures changeQueue != null ==>
        changeQueue.State() ==
          if !Ignored(watchPath, isFile) && KindOf(event).Some?
          then Pushed(old(changeQueue.State()), ChangeEvent(KindOf(event).value, ActionFor(KindOf(event).value, watchPath)))
          else old(changeQueue.State())
    {
      if Ignored(watchPath, isFile) || changeQueue == null {
        return;
      }
      match KindOf(event)
      case None =>
      case Some(kind) =>
        changeQueue.Push(ChangeEvent(kind, ActionFor(kind, watchPath)));
    }

    /**
     * What running the action `a` on the tree `t0` does: the outcome `r` and
     * the tree `t1` it leaves are those of the pass it wraps, a rejection
     * carrying the entry's base directory or the removed path.
     */
    ghost predicate Effect(a: Action, t0: Tree, t1: Tree, r: Outcome<ActionError>)
      requires ActionOk(a)
    {
      match a
      case Reprocess =>
        (r.Resolved? <==> IsDirAt(t0, baseDir)) && (r.Rejected? ==> r.error == DirectoryFailed(baseDir)) &&
        Forwarded(t0, t1)
      case RemoveFile(w) =>
        (r.Resolved? <==> IsDirAt(t0, outputDir)) && (r.Rejected? ==> r.error == UnlinkFailed(w)) &&
        t1 == if r.Resolved?
              then Removed(Unlinked(t0, Traced(t0, UnlinkedName(SourceName(w)))), outputDir + [UnlinkedName(SourceName(w)) + ".css"])
              else t0
      case RemoveDir(w) =>
        r.Resolved? && t1 == Removed(t0, outputDir + w[|baseDir|..])
    }

    /** What running the action `a` on the tree `t0` does to the manifest mapping, `m0` before and `m1` after. */
    ghost predicate ManifestEffect(a: Action, t0: Tree, t1: Tree, m0: ManifestJson.Entries, m1: ManifestJson.Entries, r: Outcome<ActionError>)
    {
      match a
      case Reprocess => ManifestForwarded(m0, m1, t0, t1)
      case RemoveFile(w) =>
        m1 == if r.Resolved? && Traced(t0, UnlinkedName(SourceName(w))) != {} then Remove(m0, UnlinkKey(w)) else m0
      case RemoveDir(_) => m1 == m0
    }

    /**
     * The body of a queued action: `processDir` over the whole entry for a
     * change, `doUnlink` or `doUnlinkDir` for a removal. A rejection is
     * reported with the entry's base directory or the removed path.
     */
    method RunAction(a: Action) returns (r: Outcome<ActionError>)
      requires Valid() && ActionOk(a)
      modifies disk, manifest
      ensures Valid()
      ensures Effect(a, old(disk.tree), disk.tree, r)
      ensures manifest != null ==> ManifestEffect(a, old(disk.tree), disk.tree, old(manifest.mapping), manifest.mapping, r)
    {
      match a
      case Reprocess =>
        var snap := disk.tree;
        ghost var bound := MaxLen(snap.Keys + {baseDir});
        var done := ProcessDir(snap, baseDir, outputDir, bound);
        r := if done.Rejected? then Rejected(DirectoryFailed(baseDir)) else Resolved;
      case RemoveFile(watchPath) =>
        var done := DoUnlink(watchPath);
        r := if done.Rejected? then Rejected(UnlinkFailed(watchPath)) else Resolved;
      case RemoveDir(watchPath) =>
        DoUnlinkDir(watchPath);
        r := Resolved;
    }

    /**
     * One firing of the queue's timer, followed by the settling of the
     * event it started: the head event, if the queue fires, is taken off
     * and its action run; whether it resolves or rejects, the queue is idle
     * again and the event is not queued again.
     */
    method TickQueue() returns (started: Option<ChangeEvent<Action>>, outcome: Option<Outcome<ActionError>>)
      requires Valid() && QueueOk() && changeQueue != null
      modifies changeQueue, disk, manifest
      ensures Valid() && QueueOk()
      ensures started == Ticked(old(changeQueue.State())).1
      ensures changeQueue.State() ==
        if started.Some? then Settled(Ticked(old(changeQueue.State())).0) else old(changeQueue.State())
      ensures outcome.Some? <==> started.Some?
      ensures started.Some? ==>
        ActionOk(started.value.action) && Effect(started.value.action, old(disk.tree), disk.tree, outcome.value)
      ensures started.Some? && manifest != null ==>
        ManifestEffect(started.value.action, old(disk.tree), disk.tree, old(manifest.mapping), manifest.mapping, outcome.value)
      ensures started.None? ==> disk.tree == old(disk.tree)
      ensures started.None? && manifest != null ==> manifest.mapping == old(manifest.mapping)
    {
      started := changeQueue.Tick();
      outcome := None;
      if started.Some? {
        assert started.value in old(changeQueue.queue);
        var result := RunAction(started.value.action);
        outcome := Some(result);
        changeQueue.Settle();
      }
    }
  }

  /** The outcome, the new tree and the manifest effect of one step of the reverse pass. */
  datatype Reversal = Reversal(outcome: Outcome<FsError>, tree: Tree, dropped: bool)

  /** The manifest keys of output paths. */
  function Keys(ps: set<Path>): set<string>
  {
    set p | p in ps :: Render(p)
  }

  /** `path.basename(relativeFilePath).replace(ext, '')`: the first occurrence of the extension removed. */
  function UnlinkedName(source: string): string
  {
    ReplaceFirst(source, ExtName(source), "")
  }

  /** For a name with one dot, that is its stem. */
  lemma UnlinkedNameIsStem(source: string)
    requires '.' !in Stem(source)
    ensures UnlinkedName(source) == Stem(source)
  {
    if ExtName(source) == "" {
      UnlinkedNoExtension(source);
    } else {
      RemoveFirstLast(source, Stem(source), ExtName(source));
    }
  }

  lemma UnlinkedNoExtension(source: string)
    requires ExtName(source) == ""
    ensures UnlinkedName(source) == Stem(source)
  {
    ReplaceFirstEmptyPattern(source, "");
    assert "" + source == source;
  }

  /** Without a template, `doUnlink` traces the output of a removed source back to it. */
  lemma NoTemplateUnlinkTraces(name: string, digest: string)
    requires ExtName(name) != "" && '.' !in Stem(name) && Stem(name)[|Stem(name)| - 1] !in {'.', '_'}
    ensures var out := BuildOutputFileName("", name, digest);
      GetBaseName("", out, ExtName(out)) == UnlinkedName(name)
  {
    NoTemplateRoundTrip(name, digest);
    UnlinkedNameIsStem(name);
  }

  /** Under `[name]` plus an extension, `doUnlink` traces the output of a removed source back to it. */
  lemma NameTemplateUnlinkTraces(e: string, name: string, digest: string)
    requires IsExtension(e) && '[' !in e
    requires !Contains(NameToken + e, ExtName(name))
    requires Stem(name) != "" && '.' !in Stem(name) && Stem(name)[|Stem(name)| - 1] !in {'.', '_'}
    ensures var out := BuildOutputFileName(NameToken + e, name, digest);
      GetBaseName(NameToken + e, out, ExtName(out)) == UnlinkedName(name)
  {
    NameTemplateParts(e);
    NameTemplateBuild(e, name, digest);
    ExtNameOfSuffix(Stem(name), e);
    NameTemplateRoundTrip(e, name, digest);
    UnlinkedNameIsStem(name);
  }

  /**
   * Under `[hash].[name]` plus an extension, `doUnlink` never traces the
   * output of a removed source back to it: the recovered `.stem` is not the
   * name it looks for, so that output is left in place.
   */
  lemma HashNameUnlinkMisses(e: string, name: string, digest: string)
    requires IsExtension(e) && '[' !in e && '[' !in digest && '.' !in digest
    requires !Contains(HashToken + "." + NameToken + e, ExtName(name))
    requires Stem(name) != "" && '.' !in Stem(name) && Stem(name)[|Stem(name)| - 1] !in {'.', '_'}
    ensures var out := BuildOutputFileName(HashToken + "." + NameToken + e, name, digest);
      GetBaseName(HashToken + "." + NameToken + e, out, ExtName(out)) != UnlinkedName(name)
  {
    HashNameTemplateLosesName(e, name, digest);
    HashNameTemplateBuild(e, name, digest);
    HashNameTemplateExtension(e);
    ExtNameOfSuffix(Hash8(digest) + "." + Stem(name), e);
    UnlinkedNameIsStem(name);
  }

  /**
   * Under `[hash].[name]` followed by an extension, the output name of a
   * plainly named source has the generated extension, and `getBaseName`
   * recovers `.stem` from it.
   */
  lemma HashFirstOutput(e: string, name: string, digest: string)
    requires IsExtension(e) && '[' !in e && '[' !in digest && '.' !in digest
    requires !Contains(HashToken + "." + NameToken + e, ExtName(name))
    requires Stem(name) != "" && '.' !in Stem(name) && Stem(name)[|Stem(name)| - 1] !in {'.', '_'}
    ensures var template := HashToken + "." + NameToken + e;
      var out := BuildOutputFileName(template, name, digest);
      EndsWith(out, GeneratedExtension(template)) &&
      GetBaseName(template, out, GeneratedExtension(template)) == "." + Stem(name)
  {
    HashNameTemplateExtension(e);
    HashNameTemplateLosesName(e, name, digest);
    HashNameTemplateBuild(e, name, digest);
    ExtNameOfSuffix(Hash8(digest) + "." + Stem(name), e);
  }

  /** A path inside `w` is mirrored inside the mirror of `w`. */
  lemma MirrorUnder(base: Path, w: Path, s: Path, out: Path, name: string)
    requires Under(base, w) && Below(w, s)
    ensures Below(base, s)
    ensures Under(out + w[|base|..], out + s[|base|..|s| - 1] + [name])
  {
    var b := |base|;
    var k := |w|;
    assert s[..b] == s[..k][..b];
    var rel := w[b..];
    assert s[b..k] == rel;
    assert s[b..|s| - 1] == rel + s[k..|s| - 1];
    assert out + s[b..|s| - 1] + [name] == out + rel + (s[k..|s| - 1] + [name]);
  }
}
