/**
 * The configuration loader: the built-in configuration when there is no
 * configuration file, otherwise the user's entries with missing directories
 * filled in, one entry at a time.
 *
 * A directory setting is `None` when the entry leaves it `undefined` or
 * `null`; JavaScript's falsy test also treats the empty string as missing,
 * while `??` does not.
 */
module Config {
  import opened Wrappers

  datatype Entry = Entry(baseDir: Option<string>, outputDir: Option<string>)

  const Here: string := "."
  const DefaultEntry: Entry := Entry(Some(Here), Some(Here))

  /** `!value`: absent, or the empty string. */
  predicate Falsy(v: Option<string>)
  {
    v.None? || v.value == ""
  }

  /**
   * The body of the defaulting loop for one entry. The output directory is
   * filled first, from the base directory as it was (`baseDir ?? '.'`), and
   * only then is the base directory itself filled.
   */
  function Defaulted(e: Entry): (r: Entry)
    ensures !Falsy(r.baseDir)
    ensures !Falsy(e.baseDir) ==> r.baseDir == e.baseDir
    ensures !Falsy(e.outputDir) ==> r.outputDir == e.outputDir
    ensures Falsy(e.outputDir) && !Falsy(e.baseDir) ==> r.outputDir == e.baseDir
    ensures Falsy(r.outputDir) <==> Falsy(e.outputDir) && e.baseDir == Some("")
  {
    var withOutput := if Falsy(e.outputDir) then e.(outputDir := Some(e.baseDir.GetOr(DefaultEntry.outputDir.value))) else e;
    if Falsy(withOutput.baseDir) then withOutput.(baseDir := DefaultEntry.baseDir) else withOutput
  }

  /** An entry that already names both directories is left as it is. */
  lemma DefaultedComplete(e: Entry)
    requires !Falsy(e.baseDir) && !Falsy(e.outputDir)
    ensures Defaulted(e) == e
  {
  }

  /**
   * An empty base directory is not nullish, so it becomes the output
   * directory before being replaced by `.`: the defaulted entry still has
   * an empty output directory, and defaulting it again changes it.
   */
  lemma EmptyBaseLeavesEmptyOutput()
    ensures Defaulted(Entry(Some(""), None)) == Entry(Some(Here), Some(""))
    ensures Defaulted(Defaulted(Entry(Some(""), None))) != Defaulted(Entry(Some(""), None))
  {
  }

  /** Apart from that case, defaulting is idempotent. */
  lemma DefaultedIdempotent(e: Entry)
    requires e.baseDir != Some("")
    ensures Defaulted(Defaulted(e)) == Defaulted(e)
  {
  }

  function DefaultedAll(es: seq<Entry>): (r: seq<Entry>)
    ensures |r| == |es|
    ensures forall i :: 0 <= i < |es| ==> r[i] == Defaulted(es[i])
  {
    seq(|es|, i requires 0 <= i < |es| => Defaulted(es[i]))
  }

  /** The `forEach` over the user's entries, filling each entry in place. */
  method FillDefaults(entries: array<Entry>)
    modifies entries
    ensures entries[..] == DefaultedAll(old(entries[..]))
  {
    var i := 0;
    while i < entries.Length
      invariant 0 <= i <= entries.Length
      invariant forall k :: 0 <= k < i ==> entries[k] == Defaulted(old(entries[k]))
      invariant forall k :: i <= k < entries.Length ==> entries[k] == old(entries[k])
    {
      entries[i] := Defaulted(entries[i]);
      i := i + 1;
    }
  }

  /**
   * `loader()`. Whether the configuration file exists is the caller's
   * observation; `user` holds the entries the file exports. Without a file
   * the result is the single built-in entry. With one, the result is the
   * user's own list after defaulting: the built-in configuration chosen for
   * an empty list is overwritten straight away, so an empty list stays empty.
   */
  method Loader(fileExists: bool, user: array<Entry>) returns (entries: seq<Entry>)
    modifies user
    ensures !fileExists ==> entries == [DefaultEntry] && user[..] == old(user[..])
    ensures fileExists ==> entries == user[..] == DefaultedAll(old(user[..]))
  {
    if !fileExists {
      entries := [DefaultEntry];
    } else {
      if user.Length == 0 {
        entries := [DefaultEntry];
      }
      FillDefaults(user);
      entries := user[..];
    }
  }
}
