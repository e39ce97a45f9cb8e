# sass-compiler, modelled in Dafny

This project models the core of `sass-compiler`, a command-line tool that
compiles a tree of Sass sources into CSS. For each configured entry, it mirrors
the input directory into an output directory. It keeps the output in step with
the input: stale outputs are deleted, and in watch mode a queue of change events
is drained one at a time. Optionally it records source-to-output pairs in a JSON
manifest.

The model covers these parts:

- **`FilenameTemplate`** (`template.dfy`): the output-name template.
  - `buildOutputFileName` fills in `[name]` and `[hash]`. The hash is the first
    eight hex characters of an MD5 digest, and MD5 is a parameter.
  - `getBaseName` is its inverse. Round trips for the `[name].css` and
    `[name].[hash].css` templates are proved. So is the fact that it does *not*
    invert the `[hash].[name].css` template (see Findings).
- **`EntryCompiler`** (`entrycompiler.dfy`): the per-entry reconciler, as a class
  over a `FileSystem.Disk`, with these parts:
  - the defaulting constructor;
  - `compile`, with its bounded `mkdir` retry;
  - the forward pass `processDir`/`processFile`, and the reverse pass
    `processOutputDir`;
  - the watch actions `doUnlink`/`doUnlinkDir`;
  - the chokidar listener, which pushes onto a `ChangeQueue`;
  - `stop`.
- **`ChangeEvent`** and **`ChangeQueue`** (`changeevent.dfy`, `changequeue.dfy`).
  - The queue is a FIFO with a `processing` flag.
  - The 100 ms interval body is an explicit `Tick`, and the settling of the
    event in flight is an explicit `Settle`.
  - FIFO order, at most one event in flight, and the effect of `stop` are proved
    over every trace of steps.
- **`Manifest`** and **`ManifestJson`** (`manifest.dfy`, `manifestjson.dfy`).
  - The manifest is an insertion-ordered string map with upsert, lookup and
    delete.
  - `save` writes `JSON.stringify(mapping, null, 2)`. The serialiser is modelled,
    and a parser is proved to invert it.
- **`Compiler`** (`compiler.dfy`): the older compiler, covering these parts:
  - fixed `.scss`/`.sass` → `.css` naming and mirrored recursion;
  - `processEntry`, which contains its own errors;
  - the watch-mode unlink mapping;
  - the fan-out over entries.
- **`Config`** (`config.dfy`): the configuration loader and its per-entry
  defaulting loop.

The supporting modules are these:

- `JsString` holds the JavaScript string operations the code relies on. The main
  one is `String.prototype.replace` with a string pattern, which replaces the
  *first* occurrence only.
- `NodePath` holds `path.extname` and `path.basename(p, ext)`.
- `FileSystem` is an in-memory tree of files and directories, with the `fs`
  operations and their error cases.
- `Reconcile` holds the frame predicates the passes are proved against.
- `Wrappers` holds `Option`, `Outcome` (a promise's resolution or rejection) and
  `Result`.

## Model

| member | source | states |
|---|---|---|
| `FilenameTemplate.Hash8` | src/compile/entry-compiler.ts:387 | the hash is the digest's prefix of length eight (the whole digest when shorter) |
| `FilenameTemplate.PlaceholdersOfNameCss` | src/compile/entry-compiler.ts:368-373 | the variables found in `[name].css` are exactly `name` |
| `FilenameTemplate.PlaceholdersOfNameHashCss` | src/compile/entry-compiler.ts:368-373 | the variables found in `[name].[hash].css` are `name` then `hash`, in template order |
| `FilenameTemplate.UnknownVariablesStayLiteral` | src/compile/entry-compiler.ts:381-392 | a variable other than `name` or `hash` leaves the filename unchanged, so its `[token]` stays literally |
| `FilenameTemplate.SubstituteKeepsSuffix` | src/compile/entry-compiler.ts:381-392 | substituting variables never touches a trailing extension that has no `[` |
| `FilenameTemplate.TemplateExtensionKept` | src/compile/entry-compiler.ts:376-379 | with a non-empty template whose extension is non-empty and contains no `[`, and a source whose own extension does not occur anywhere in the template, the output name is the template's stem with its variables filled in, followed by the template's own extension (`[name].[hash]` breaks the first condition, because its extension `.[hash]` is substituted; `[name].css` with a source `x.c` breaks the second, because `.c` is replaced inside `.css`) |
| `FilenameTemplate.TemplateWithoutExtension` | src/compile/entry-compiler.ts:376-379 | a template without an extension (`[name]`) gives the bare stem: the `.css` fallback is never inserted |
| `FilenameTemplate.NoTemplateSwapsExtension` | src/compile/entry-compiler.ts:361-379 | without a template, `test.scss` style names become stem + `.css` |
| `FilenameTemplate.NoTemplateNoExtension` | src/compile/entry-compiler.ts:379 | without a template, a name without extension gets `.css` prepended (replace of the empty pattern) |
| `FilenameTemplate.NameTemplateBuild` | src/compile/entry-compiler.ts:360-395 | under `[name]` + extension the output is the source stem + that extension |
| `FilenameTemplate.NameHashTemplateBuild` | src/compile/entry-compiler.ts:360-395 | under `[name]<sep>[hash]` + extension the output is stem + sep + eight hash characters + extension |
| `FilenameTemplate.HashNameTemplateBuild` | src/compile/entry-compiler.ts:360-395 | under `[hash].[name]` + extension the output is hash + `.` + stem + extension |
| `FilenameTemplate.GetBaseName` | src/compile/entry-compiler.ts:424-425 | the recovered base name never ends in `.` or `_`, and is a prefix of the name before trimming |
| `FilenameTemplate.NoTemplateRecover` | src/compile/entry-compiler.ts:420-422 | without a template, the base name is the file minus its last extension |
| `FilenameTemplate.NameTemplateRecover` | src/compile/entry-compiler.ts:402-419 | under `[name]` + extension, `stem + ext` gives back `stem` |
| `FilenameTemplate.NameHashTemplateRecover` | src/compile/entry-compiler.ts:402-419 | under `[name].[hash]` + extension, `stem.h + ext` gives back `stem`: the hash placeholder becomes empty and the dot is trimmed |
| `FilenameTemplate.HashNameTemplateRecover` | src/compile/entry-compiler.ts:402-419 | under `[hash].[name]` + extension, `h.stem + ext` gives `.stem`, since the template's leading dot survives |
| `FilenameTemplate.NoTemplateRoundTrip` | src/compile/entry-compiler.ts:360-428 | without a template, getBaseName of the built output name is the source stem |
| `FilenameTemplate.NameTemplateRoundTrip` | src/compile/entry-compiler.ts:360-428 | under `[name]` + extension, getBaseName inverts buildOutputFileName |
| `FilenameTemplate.NameHashTemplateRoundTrip` | src/compile/entry-compiler.ts:360-428 | under `[name].[hash]` + extension, getBaseName inverts buildOutputFileName for any digest |
| `FilenameTemplate.ReverseNameExample` | test/compile/reverse-file-name.test.ts:18 | `archivo.css` under `[name].css` gives `archivo` |
| `FilenameTemplate.ReverseNameHashExample` | test/compile/reverse-file-name.test.ts:33 | `archivo.123456.css` under `[name].[hash].css` gives `archivo` |
| `FilenameTemplate.HashNameTemplateLosesName` | src/compile/entry-compiler.ts:404-419 | under `[hash].[name]` + extension, the round trip gives `.stem`, which is not the stem |
| `FilenameTemplate.HashNameTemplateRoundTrip` | src/compile/entry-compiler.ts:404-419 | the corrected recovery (the `name` segment taken at its dot position) inverts `[hash].[name]` + extension |
| `FilenameTemplate.CorrectedAgreesOnNameTemplate` | src/compile/entry-compiler.ts:404-419 | the corrected recovery equals the original on every file under `[name]` + extension |
| `FilenameTemplate.CorrectedAgreesOnNameHashTemplate` | src/compile/entry-compiler.ts:404-419 | the corrected recovery equals the original on every file under `[name].[hash]` + extension |
| `EntryCompiler.EntryCompiler.constructor` | src/compile/entry-compiler.ts:38-67 | fields copy the entry; `minify`/`sourceMap` default to `!watch`; a manifest exists iff configured, and a started ChangeQueue exists iff watch is on |
| `EntryCompiler.EntryCompiler.FileStep` | src/compile/entry-compiler.ts:334-358 | handling one file keeps the tree well formed, only adds below the output directory, and a matched file that compiles and can be written is written |
| `EntryCompiler.EntryCompiler.ProcessFile` | src/compile/entry-compiler.ts:334-358 | the disk changes by that step, and the manifest gains `relative(source without ext) → relative(output)` exactly when the write happened |
| `EntryCompiler.EntryCompiler.ProcessEntry` | src/compile/entry-compiler.ts:252-259 | one callback of the fan-out: every compiling source below that child has its mirrored output written, and nothing outside the output directory changes; the manifest changes only by recording, under a source's key, the output path of a compiling source below the directory, and every compiling source below that child whose write was not blocked has its key recorded |
| `EntryCompiler.EntryCompiler.ProcessDir` | src/compile/entry-compiler.ts:250-260 | resolves iff the input is a directory; only extends the tree below the output directory; every compiling source below the input has its mirrored output written; every manifest key that changes maps to the output path of a compiling source with that key, and every compiling source whose write was not blocked has its key recorded |
| `EntryCompiler.EntryCompiler.PrunedKeeps` | src/compile/entry-compiler.ts:309-318 | the empty-directory pruning never removes a directory that still holds an entry |
| `EntryCompiler.EntryCompiler.ReverseStepShrinks` | src/compile/entry-compiler.ts:277-319 | handling one output file only removes, and only below the output directory |
| `EntryCompiler.EntryCompiler.ReverseStepKeeps` | src/compile/entry-compiler.ts:288-296 | an output that is not considered, or whose base name recovered by `getBaseName` as written is the stem of a matching input file, is kept |
| `EntryCompiler.EntryCompiler.ReverseStepDrops` | src/compile/entry-compiler.ts:280-299 | a considered output whose `getBaseName` (as written) is no matching input file's stem, or whose mirrored input directory is missing, is removed |
| `EntryCompiler.EntryCompiler.PruneOutput` | src/compile/entry-compiler.ts:309-318 | the output directory is listed again: a failed listing rejects and leaves the disk alone, an empty directory is removed with everything below it, a non-empty one is kept |
| `EntryCompiler.EntryCompiler.ReverseFile` | src/compile/entry-compiler.ts:277-319 | the disk and outcome follow that step; the manifest loses exactly the keys of the dropped output paths |
| `EntryCompiler.EntryCompiler.OutputEntry` | src/compile/entry-compiler.ts:273-321 | one callback of the reverse fan-out: removals stay below the output directory; when the input and output directories are disjoint, kept outputs survive and stale ones below that child are gone |
| `EntryCompiler.EntryCompiler.ProcessOutputDir` | src/compile/entry-compiler.ts:268-326 | a missing output directory is a no-op, a file there rejects; when the input and output directories are disjoint, every kept output survives and every stale output (no matching source in the mirrored input directory) is gone |
| `EntryCompiler.EntryCompiler.UnlinkIfTraced` | src/compile/entry-compiler.ts:187-204 | an output whose `getBaseName` (with its own extension) equals the removed source's name is unlinked and the source's manifest key deleted; other outputs are untouched |
| `EntryCompiler.EntryCompiler.UnlinkTraced` | src/compile/entry-compiler.ts:187-205 | after the loop, exactly the root-level outputs that `getBaseName` traces to the name are unlinked, and the key is gone iff one was traced |
| `EntryCompiler.EntryCompiler.DoUnlink` | src/compile/entry-compiler.ts:176-213 | rejects iff the output directory cannot be listed; otherwise unlinks the outputs `getBaseName` traces to the name, then force-removes `<name>.css`; the manifest loses the source's key iff one was traced |
| `EntryCompiler.EntryCompiler.DoUnlinkDir` | src/compile/entry-compiler.ts:222-231 | removes the mirrored output directory and everything below it, and nothing else |
| `EntryCompiler.EntryCompiler.UnlinkDirCoversOutputs` | src/compile/entry-compiler.ts:222-231 | every output of a source below the removed directory lies inside what `doUnlinkDir` removes |
| `EntryCompiler.EntryCompiler.CreateOutputDir` | src/compile/entry-compiler.ts:80-98 | between one and three mkdir attempts; failure leaves the disk unchanged; a file on the path always fails |
| `EntryCompiler.EntryCompiler.Compile` | src/compile/entry-compiler.ts:73-157 | a missing base rejects; mkdir is attempted only when the output is absent, at most 3 times, and failure rejects before any pass; a non-directory base passes the guard but fails the pass; success starts watching iff watch is on; on success, measured from the tree before mkdir, the forward pass writes every compiling source's output (`Forwarded`), the reverse pass keeps the promises of `ProcessDirs` (`Reconciled`), and the manifest records every written source and then loses exactly the keys of the outputs the reverse pass dropped |
| `EntryCompiler.EntryCompiler.ProcessDirs` | src/compile/entry-compiler.ts:239-242 | the forward pass then the reverse pass: success implies the base is a directory, a file at the output directory rejects, and every compiling source's output is written by the forward pass; with disjoint directories, a traceable source's output is still a file afterwards (unless a directory took its place), every stale output is gone, and under `[hash].[name]` + extension an unclaimed source's output is deleted again; the manifest after the forward pass records only compiling sources' outputs and every unblocked one, and the final manifest is that one with the keys of the dropped outputs removed |
| `EntryCompiler.EntryCompiler.RecordsFile` | src/compile/entry-compiler.ts:346-352 | adding the key of a written source with its output path records only that source, and records it unless its write was blocked |
| `EntryCompiler.EntryCompiler.BothPasses` | src/compile/entry-compiler.ts:239-242 | the forward pass's writes plus the reverse pass's keep and drop guarantees give the `Reconciled` promises over the whole tree |
| `EntryCompiler.EntryCompiler.PassesAfterMkdir` | src/compile/entry-compiler.ts:84-104 | directories made by mkdir below the output directory add no sources, so the passes' promises hold measured from the tree before mkdir |
| `EntryCompiler.EntryCompiler.ManifestAfterMkdir` | src/compile/entry-compiler.ts:84-104 | the manifest promise of the passes also holds measured from the tree before mkdir |
| `EntryCompiler.EntryCompiler.Stop` | src/compile/entry-compiler.ts:162-167 | only a started watcher is closed and its queue stopped; otherwise nothing changes |
| `EntryCompiler.EntryCompiler.ActionFor` | src/compile/entry-compiler.ts:122-153 | add/change reprocess the whole directory; unlink/unlinkDir act on the event's path |
| `EntryCompiler.EntryCompiler.OnEvent` | src/compile/entry-compiler.ts:114-155 | an event on a non-ignored path pushes exactly one ChangeEvent with the matching kind and action; ignored files and unknown events push nothing |
| `EntryCompiler.EntryCompiler.RunAction` | src/compile/entry-compiler.ts:125-152 | each action has the effect of the pass it wraps (`Effect`): add/change resolve iff the base is a directory and write every compiling source's output; unlink resolves iff the output directory is a directory and leaves exactly the tree `doUnlink` leaves; unlinkDir always resolves and removes the mirrored output directory; a failure rejects with the entry's or path's error; the manifest changes as that pass changes it (`ManifestEffect`) |
| `EntryCompiler.EntryCompiler.TickQueue` | src/compile/event/change-queue.ts:18-28 | a tick starts the head event iff one may fire, and then the disk and the manifest change exactly as that event's action does (`Effect`, `ManifestEffect`); a tick that starts nothing changes neither |
| `EntryCompiler.EntryCompiler.TraceableUnderRoundTrip` | src/compile/entry-compiler.ts:360-428 | without a template, and under `[name]` + extension or `[name].[hash]` + extension, `getBaseName` of a source's output gives back its stem, so the reverse pass can find the source |
| `EntryCompiler.EntryCompiler.TracedIsKept` | src/compile/entry-compiler.ts:273-299 | with disjoint directories, the output the forward pass wrote for a traceable source is one the reverse pass keeps |
| `EntryCompiler.EntryCompiler.UnclaimedOutputName` | src/compile/entry-compiler.ts:277-289 | under `[hash].[name]` + extension, an unclaimed source's output name is considered and `getBaseName` yields `.` + stem |
| `EntryCompiler.EntryCompiler.UnclaimedIsStale` | src/compile/entry-compiler.ts:280-299 | under `[hash].[name]` + extension, with disjoint directories, the output written for an unclaimed source is stale: nothing beside the source has `.` + stem as its stem |
| `EntryCompiler.EntryCompiler.PassesKeep` | src/compile/entry-compiler.ts:239-242 | after both passes, a traceable source's output is a file unless the place was blocked |
| `EntryCompiler.EntryCompiler.PassesDrop` | src/compile/entry-compiler.ts:239-242 | after both passes under `[hash].[name]` + extension, no file is left at an unclaimed source's output |
| `EntryCompiler.EntryCompiler.UnlinkKeyIsManifestKey` | src/compile/entry-compiler.ts:198-200 | for a source below the base directory, the key `doUnlink` deletes is the key `processFile` added (lines 347-348) |
| `EntryCompiler.EntryCompiler.AddThenUnlinkForgets` | src/compile/entry-compiler.ts:198-200 | after `processFile` adds a source (lines 347-350) and a traced `doUnlink` of it, the source's key is absent and every other key reads as before the add |
| `EntryCompiler.HashNameUnlinkMisses` | src/compile/entry-compiler.ts:187-191 | under `[hash].[name]` + extension, `doUnlink` does not recognise the output of the removed source |
| `EntryCompiler.HashFirstOutput` | src/compile/entry-compiler.ts:277-289 | under `[hash].[name]` + extension, a source's output name ends in the template's extension and `getBaseName` recovers `.` + stem |
| `EntryCompiler.UnlinkedNameIsStem` | src/compile/entry-compiler.ts:181-182 | the name `doUnlink` looks for is the source's stem when the stem has no dot |
| `EntryCompiler.NoTemplateUnlinkTraces` | src/compile/entry-compiler.ts:187-191 | without a template, the output of a removed source is recognised by `doUnlink` |
| `EntryCompiler.NameTemplateUnlinkTraces` | src/compile/entry-compiler.ts:187-191 | under `[name]` + extension, the output of a removed source is recognised by `doUnlink` |
| `ChangeEvent.KindOf` | src/compile/event/change-event.ts:1 | an event name is one of `add`, `change`, `unlink`, `unlinkDir` |
| `ChangeEvent.KindNameRoundTrip` | src/compile/event/change-event.ts:1 | each kind's name parses back to that kind |
| `ChangeEvent.Process` | src/compile/event/change-event.ts:14-16 | `process` resolves iff the stored action resolves, and rejects with its error |
| `ChangeQueue.Ticked` | src/compile/event/change-queue.ts:18-28 | a tick fires iff idle, armed and non-empty; firing removes exactly the head and sets `processing`; otherwise nothing changes |
| `ChangeQueue.RunFifo` | src/compile/event/change-queue.ts:15-34 | over any trace, the dispatched events followed by the waiting ones are the pushed events in push order |
| `ChangeQueue.RunAtMostOne` | src/compile/event/change-queue.ts:18-28 | over any trace, at most one dispatched event is unsettled, and `processing` holds exactly when one is |
| `ChangeQueue.StoppedStaysIdle` | src/compile/event/change-queue.ts:36-41 | once stopped, no later step dispatches anything and the queue stays stopped |
| `ChangeQueue.ChangeQueue.constructor` | src/compile/event/change-queue.ts:11-13 | a new queue is empty, idle and has its timer running |
| `ChangeQueue.ChangeQueue.Push` | src/compile/event/change-queue.ts:32-34 | the event is appended at the tail; nothing else changes |
| `ChangeQueue.ChangeQueue.Tick` | src/compile/event/change-queue.ts:18-28 | the state and started event follow `Ticked` |
| `ChangeQueue.ChangeQueue.Settle` | src/compile/event/change-queue.ts:24-26 | `processing` returns to false whether the event succeeded or failed; the event is not re-queued |
| `ChangeQueue.ChangeQueue.Stop` | src/compile/event/change-queue.ts:36-41 | the timer is cleared; queued events stay queued |
| `Manifest.ManifestPath` | src/config/manifest.ts:13-14 | the save path is `<basedir>/<name>`, with `manifest.json` by default |
| `Manifest.Lookup` | src/config/manifest.ts:32-34 | lookup is absent iff no entry has the key, and otherwise returns a stored pair |
| `Manifest.LookupUpsert` | src/config/manifest.ts:23-25 | after `add(k, v)`, `get(k)` is `v` and every other key reads as before |
| `Manifest.UpsertKeys` | src/config/manifest.ts:23-25 | `add` grows the mapping by one iff the key was new, and introduces no other key |
| `Manifest.UpsertDistinct` | src/config/manifest.ts:23-25 | `add` keeps keys unique |
| `Manifest.LookupRemove` | src/config/manifest.ts:39-41 | after `delete(k)`, `k` is absent and every other key reads as before |
| `Manifest.RemoveAbsent` | src/config/manifest.ts:39-41 | deleting an absent key changes nothing |
| `Manifest.RemoveKeys` | src/config/manifest.ts:39-41 | `delete` only drops pairs with that key |
| `Manifest.RemoveDistinct` | src/config/manifest.ts:39-41 | `delete` keeps keys unique |
| `Manifest.RemoveTwice` | src/config/manifest.ts:39-41 | deleting is idempotent |
| `Manifest.RemoveAllUnion` | src/compile/entry-compiler.ts:301-306 | the reverse pass's successive deletions compose into one deletion of all their keys |
| `Manifest.RemoveIsRemoveAll` | src/compile/entry-compiler.ts:301-306 | one deletion is the deletion of a one-key set |
| `Manifest.RemoveAllNone` | src/compile/entry-compiler.ts:301-306 | deleting no keys changes nothing |
| `Manifest.Manifest.constructor` | src/config/manifest.ts:13-16 | a new manifest has the save path above, an empty mapping, and has written nothing |
| `Manifest.Manifest.Add` | src/config/manifest.ts:23-25 | the mapping becomes the upsert of the old one |
| `Manifest.Manifest.Get` | src/config/manifest.ts:32-34 | returns the stored value, or nothing for an absent key |
| `Manifest.Manifest.Delete` | src/config/manifest.ts:39-41 | the mapping loses that key |
| `Manifest.Manifest.Save` | src/config/manifest.ts:46-52 | never fails; the document on disk is either unchanged (failed write) or the serialisation of the whole mapping |
| `ManifestJson.ParseSerialize` | src/config/manifest.ts:48 | the 2-space JSON document of a mapping parses back to that mapping, in order |
| `ManifestJson.SerializeInjective` | src/config/manifest.ts:48 | two mappings with the same document are equal |
| `Config.Defaulted` | src/config/config.ts:40-47 | a falsy `outputDir` takes `baseDir` when that is non-null, else `.`, before `baseDir` is defaulted; a falsy `baseDir` becomes `.`; set fields are kept |
| `Config.DefaultedComplete` | src/config/config.ts:40-47 | an entry with both fields set is unchanged |
| `Config.EmptyBaseLeavesEmptyOutput` | src/config/config.ts:41-46 | an entry with `baseDir ''` and no `outputDir` ends with `outputDir ''`, and defaulting it again changes it |
| `Config.DefaultedIdempotent` | src/config/config.ts:40-47 | defaulting twice is defaulting once, unless `baseDir` is `''` |
| `Config.DefaultedAll` | src/config/config.ts:40-47 | the number and order of entries are preserved, each defaulted |
| `Config.FillDefaults` | src/config/config.ts:40-47 | the loop leaves the array equal to every entry defaulted in place |
| `Config.Loader` | src/config/config.ts:26-52 | with no config file, the single entry `('.', '.')`; otherwise the user's entries, defaulted, with an empty list staying empty |
| `FileSystem.ReadDir` | src/compile/entry-compiler.ts:251 | `readdir` succeeds iff the path is a directory, and lists exactly its children |
| `FileSystem.Mkdir` | src/compile/entry-compiler.ts:85-87 | recursive `mkdir` fails iff a file sits on the path |
| `FileSystem.WriteFile` | src/util/fs.ts:8-19 | writing succeeds iff the parent path has no file on it and the target is not a directory |
| `FileSystem.Unlink` | src/compile/entry-compiler.ts:194 | `unlink` succeeds iff the path is a file, and removes only it |
| `FileSystem.Removed` | src/compile/entry-compiler.ts:207-212 | forced recursive `rm` removes the path and everything below it, and nothing else |
| `FileSystem.Disk.MakeDirectory` | src/compile/entry-compiler.ts:85-87 | success applies `mkdir`; failure leaves the disk unchanged; a file on the path always fails |
| `FileSystem.Disk.Write` | src/util/fs.ts:8-19 | succeeds iff the write is possible, and then applies it; failure changes nothing |
| `FileSystem.Disk.Delete` | src/compile/entry-compiler.ts:194 | succeeds iff the path is a file, and then removes only it |
| `FileSystem.Disk.RemoveTree` | src/compile/entry-compiler.ts:207-212 | applies the forced recursive removal |
| `Compiler.CssNameSwapsExtension` | src/compile/compile.ts:96-100 | a `.scss`/`.sass` source whose stem has no dot is named stem + `.css` |
| `Compiler.CssNameFirstOccurrence` | src/compile/compile.ts:100 | only the first occurrence of the extension is replaced: `a.scss.scss` becomes `a.css.scss` |
| `Compiler.Target` | src/compile/compile.ts:80-84 | a source's output lies below the output directory, mirroring the source's depth |
| `Compiler.UnlinkTargetAsWritten` | src/compile/compile.ts:52-57 | an unlink maps to a path iff the watch path contains cwd |
| `Compiler.UnlinkAsWrittenTarget` | src/compile/compile.ts:53-55 | as written, a removed `.scss` file maps to `<cwd>/<outputDir>/` + its whole path below cwd with `.css` |
| `Compiler.UnlinkAsWrittenMissesOutput` | src/compile/compile.ts:52-57 | as written, with a non-empty `baseDir` the unlinked path is never the source's actual output |
| `Compiler.Compiler.constructor` | src/compile/compile.ts:17-18 | the compiler keeps its options and watches nothing yet |
| `Compiler.Compiler.FileStep` | src/compile/compile.ts:95-103 | handling one file only adds below the output directory, and a compiled source is written |
| `Compiler.Compiler.ProcessFile` | src/compile/compile.ts:95-103 | non-sources are skipped; a source that fails to compile or to be written rejects; otherwise its `.css` is written |
| `Compiler.Compiler.ProcessChild` | src/compile/compile.ts:80-85 | one callback of the fan-out: outputs below that child are written, a failing source below it rejects, and a rejection names a source below that child that fails to compile or whose output cannot be written |
| `Compiler.Compiler.ProcessDir` | src/compile/compile.ts:77-87 | success implies a directory; every compiling source is written to its mirrored output; any failing source rejects the whole pass; conversely, a directory whose every source compiles and has a writable output place resolves (a rejection implies a non-directory, or a source that fails to compile or whose write is blocked) |
| `Compiler.Compiler.ProcessEntry` | src/compile/compile.ts:25-69 | never rejects: a missing base, a failed mkdir or a failed pass is logged; a non-directory base passes the guard; the watcher is attached before the initial pass; unless the base or mkdir failed, every compiling source below the base has its output written |
| `Compiler.Compiler.OnEvent` | src/compile/compile.ts:44-60 | an event on an ignored path (a file ending in neither `.scss` nor `.sass`) changes nothing; add/change rerun the pass and write every compiling source's output (`Settled`); unlink of a `.scss`/`.sass` source below the base leaves no file at its mirrored output (the corrected target, see Findings); other events do nothing |
| `Compiler.Compiler.Compile` | src/compile/compile.ts:105-107 | every entry is processed and logged; each entry processed cleanly is watched in watch mode and has every compiling source's output written |

## Left out

- Paths are sequences of segments relative to the working directory, so `path.join` normalisation (`.`, `..`, duplicate slashes) is not modelled. The legacy compiler's directory strings are taken as already split into segments.
- The `Promise.all` fan-out runs one callback after another. The order is chosen nondeterministically, and the forward pass reads its input from a snapshot taken at the start. Other interleavings of concurrent callbacks are not modelled.
- The 100 ms `setInterval` is an explicit `Tick` step, and the settling of the event in flight is an explicit `Settle` step. The chokidar watcher's event delivery is a parameter: the caller supplies the event name, the path and whether it is a file. Its options (depth, polling interval) are not modelled.
- `sass.compile`, the filename RegExp and MD5 (RFC 1321) are parameters of the classes. The entry compiler passes its style (`minify`) and source-map settings to the `sass` parameter, so both are arguments of the CSS it computes.
- File contents are not modelled. `sass` is a fixed function of the source path (and, in the entry compiler, of the two settings), so a source's CSS and its `[hash]` output name never change between passes. A `change` event therefore rewrites the same output, and the model cannot express an edit that changes the CSS. In the program such an edit under a `[hash]` template writes a new hashed file, and `change` runs only the forward pass (src/compile/entry-compiler.ts:123-132). The old hashed file stays until a later reverse pass. Neither that stale output nor the changed CSS is modelled.
- Whether `mkdir` fails for reasons outside the tree (permissions, a full disk) is a nondeterministic choice. Structural failures (a file on the path) are deterministic.
- `FileSystem.Disk.Write`: a write fails only for structural reasons (a file on the parent path, a directory at the target). Permission and full-disk failures are not modelled, so "every compiling source is written" holds only under that assumption.
- `EntryCompiler.EntryCompiler.ProcessOutputDir`: kept outputs are promised to survive and stale ones to go only when the input and output directories are disjoint. With overlapping directories, such as the default `.` → `.` or `.` → `css`, the reverse pass also lists the input side and nothing is promised. The same holds for `EntryCompiler.EntryCompiler.OutputEntry` and for the `Reconciled` promises of `EntryCompiler.EntryCompiler.ProcessDirs` and `EntryCompiler.EntryCompiler.Compile`.
- `EntryCompiler.EntryCompiler.ProcessDirs`: the survival of outputs is proved for the templates whose round trip holds (none, `[name]` + extension, `[name].[hash]` + extension). For `[hash].[name]` + extension only the deletion of the outputs is proved; other templates get no promise about the reverse pass.
- The entry compiler's reverse pass and `doUnlink` use `getBaseName` as written. The corrected recovery, `FilenameTemplate.HashNameTemplateRoundTrip`, is proved on its own and not substituted into them, so the model keeps the program's deletion of `[hash].[name]` outputs.
- `Compiler.Compiler.OnEvent`: the `unlink` branch deletes the corrected target. As written, the program deletes the path `Compiler.UnlinkTargetAsWritten` computes, and `unlinkSync` throws when nothing is there (see Findings).
- Manifest keys are relative paths of segments with the extension replaced. The code replaces the first occurrence of the extension in the absolute path and then takes `path.relative` from the working directory. The two agree unless the extension also occurs earlier in the working directory's path.
- The manifest mapping is an insertion-ordered list of pairs. A JavaScript object lists integer-like keys first in numeric order, and `get` of an inherited name such as `constructor` returns the prototype's value. Neither is modelled.
- The manifest's document lives in a field of `Manifest.Manifest`, not in the file tree.
- `log` and `console.error` are no-ops. Unhandled rejections from the listeners are not modelled.
- `$` patterns in `String.prototype.replace` replacement strings are not modelled. The replacement text is inserted literally.
- The CLI entry points, argument parsing, the logger and the `fs` helpers are not part of this model. The one piece of logic in the `fs` helpers, creating the parent directory before a write, is part of `FileSystem.WriteFile`.
- The manifest has neither a lock file nor key sorting, and neither does the code.
- `ChangeEvent.Process`: the action is a pure function of the stored value. Running it twice therefore gives the same outcome, which a real side-effecting action need not do.
- `EntryCompiler.EntryCompiler.Compile`: a missing base directory rejects with `StatFailed`. In the code this is `stat`'s own error, not the "Base directory not found" message, because `isDir` throws before that line is reached.
- `FilenameTemplate.TemplateWithoutExtension`: a template without an extension produces no `.css` suffix. The code only swaps the source's extension within the template, so this is what it does.
- `Compiler.Compiler.ProcessEntry`: a missing base directory is logged, not rejected, because `isDir` throws inside the `try`.
- The reverse pass deletes the manifest key of the *output* path, with its extension. `processFile` adds the *source* path without its extension, so the reverse pass never removes a key the forward pass added. The model reproduces this.

## Findings

| source | as written | input that shows it | evidently intended | confidence | as-written member | corrected member |
|---|---|---|---|---|---|---|
| src/compile/entry-compiler.ts:404-419 | the `i`-th placeholder takes the `i`-th dot-separated part, but the text around the placeholders (here a leading `.`) is kept, so `[hash].[name].css` recovers `.stem` | template `[hash].[name].css`, file `1a2b3c4d.main.css` gives `.main`, not `main` | the base name is the source stem, so outputs of a removed or stale source are recognised | not executed | `FilenameTemplate.HashNameTemplateLosesName`, `EntryCompiler.HashNameUnlinkMisses`, `EntryCompiler.EntryCompiler.PassesDrop` | `FilenameTemplate.HashNameTemplateRoundTrip` |
| src/compile/compile.ts:52-57 | the unlink target is `outputDir` joined with the whole path after cwd, so it still contains `baseDir`; and only `.scss` is swapped for `.css` | `baseDir` `src`, `outputDir` `out`, removed `<cwd>/src/a.scss` maps to `<cwd>/out/src/a.css`, while the output was written to `<cwd>/out/a.css` | the output mirrored from below `baseDir`, for `.scss` and `.sass` alike | not executed | `Compiler.UnlinkAsWrittenMissesOutput` | `Compiler.Compiler.OnEvent` |
