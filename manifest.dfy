/**
 * The manifest of one entry: a mutable record from source keys to output
 * paths, kept in property order, and the document it last wrote to disk.
 */
module Manifest {
  import opened Wrappers
  import opened ManifestJson

  const DefaultName: string := "manifest.json"

  /** Where the manifest is written: `<basedir>/<name>`, the name defaulting when it is absent. */
  function ManifestPath(basedir: string, name: Option<string>): (p: string)
    ensures name.None? ==> p == basedir + "/" + DefaultName
    ensures name.Some? ==> p == basedir + "/" + name.value
  {
    basedir + "/" + name.GetOr(DefaultName)
  }

  /** No key occurs twice: a record has one property per name. */
  ghost predicate DistinctKeys(es: Entries)
  {
    forall i, j :: 0 <= i < j < |es| ==> es[i].0 != es[j].0
  }

  /** `mapping[key]`: the value of the property, or `undefined`. */
  function Lookup(es: Entries, key: string): (r: Option<string>)
    ensures r.None? <==> forall i :: 0 <= i < |es| ==> es[i].0 != key
    ensures r.Some? ==> (key, r.value) in es
  {
    if es == [] then None
    else if es[0].0 == key then Some(es[0].1)
    else Lookup(es[1..], key)
  }

  /**
   * `mapping[key] = value`: an existing property keeps its place and takes
   * the new value; a new one goes after all the others.
   */
  function Upsert(es: Entries, key: string, value: string): Entries
  {
    if es == [] then [(key, value)]
    else if es[0].0 == key then [(key, value)] + es[1..]
    else [es[0]] + Upsert(es[1..], key, value)
  }

  /** `delete mapping[key]`. */
  function Remove(es: Entries, key: string): Entries
  {
    if es == [] then []
    else if es[0].0 == key then Remove(es[1..], key)
    else [es[0]] + Remove(es[1..], key)
  }

  /** After an upsert the key reads back as the new value and every other key as before. */
  lemma {:induction false} LookupUpsert(es: Entries, key: string, value: string, other: string)
    ensures Lookup(Upsert(es, key, value), key) == Some(value)
    ensures other != key ==> Lookup(Upsert(es, key, value), other) == Lookup(es, other)
  {
    if es != [] && es[0].0 != key {
      LookupUpsert(es[1..], key, value, other);
    }
  }

  /** After a removal the key is absent and every other key reads as before. */
  lemma {:induction false} LookupRemove(es: Entries, key: string, other: string)
    ensures Lookup(Remove(es, key), key) == None
    ensures other != key ==> Lookup(Remove(es, key), other) == Lookup(es, other)
  {
    if es != [] {
      LookupRemove(es[1..], key, other);
    }
  }

  /** Removing an absent key changes nothing. */
  lemma {:induction false} RemoveAbsent(es: Entries, key: string)
    requires Lookup(es, key) == None
    ensures Remove(es, key) == es
  {
    if es != [] {
      RemoveAbsent(es[1..], key);
      assert [es[0]] + es[1..] == es;
    }
  }

  /** Every key of the result was a key before, or is the new one; the size grows only for a new key. */
  lemma {:induction false} UpsertKeys(es: Entries, key: string, value: string)
    ensures |Upsert(es, key, value)| == if Lookup(es, key).None? then |es| + 1 else |es|
    ensures forall i :: 0 <= i < |Upsert(es, key, value)| ==>
      Upsert(es, key, value)[i].0 == key || Lookup(es, Upsert(es, key, value)[i].0).Some?
  {
    if es != [] && es[0].0 != key {
      UpsertKeys(es[1..], key, value);
      var r := Upsert(es, key, value);
      forall i | 0 <= i < |r|
        ensures r[i].0 == key || Lookup(es, r[i].0).Some?
      {
        if i > 0 {
          assert r[i] == Upsert(es[1..], key, value)[i - 1];
        }
      }
    }
  }

  /** An upsert keeps the keys distinct. */
  lemma {:induction false} UpsertDistinct(es: Entries, key: string, value: string)
    requires DistinctKeys(es)
    ensures DistinctKeys(Upsert(es, key, value))
  {
    if es != [] {
      var r := Upsert(es, key, value);
      if es[0].0 == key {
        assert forall i :: 1 <= i < |r| ==> r[i] == es[i];
      } else {
        var tail := Upsert(es[1..], key, value);
        UpsertDistinct(es[1..], key, value);
        UpsertKeys(es[1..], key, value);
        assert r == [es[0]] + tail;
        forall j | 0 < j < |r|
          ensures r[0].0 != r[j].0
        {
          assert r[j] == tail[j - 1];
          if tail[j - 1].0 != key {
            var k :| 0 <= k < |es[1..]| && es[1..][k].0 == tail[j - 1].0;
            assert es[k + 1].0 == tail[j - 1].0;
          }
        }
      }
    }
  }

  /** Every key left by a removal was there before. */
  lemma {:induction false} RemoveKeys(es: Entries, key: string)
    ensures forall i :: 0 <= i < |Remove(es, key)| ==> Remove(es, key)[i] in es && Remove(es, key)[i].0 != key
  {
    if es != [] {
      RemoveKeys(es[1..], key);
      var r := Remove(es, key);
      forall i | 0 <= i < |r|
        ensures r[i] in es && r[i].0 != key
      {
        if es[0].0 != key && i > 0 {
          assert r[i] == Remove(es[1..], key)[i - 1];
        }
      }
    }
  }

  /** A removal keeps the keys distinct. */
  lemma {:induction false} RemoveDistinct(es: Entries, key: string)
    requires DistinctKeys(es)
    ensures DistinctKeys(Remove(es, key))
  {
    if es != [] {
      RemoveDistinct(es[1..], key);
      RemoveKeys(es[1..], key);
      var r := Remove(es, key);
      if es[0].0 != key {
        var tail := Remove(es[1..], key);
        assert r == [es[0]] + tail;
        forall j | 0 < j < |r|
          ensures r[0].0 != r[j].0
        {
          assert r[j] == tail[j - 1];
          var k :| 0 <= k < |es[1..]| && es[1..][k] == tail[j - 1];
          assert es[k + 1] == tail[j - 1];
        }
      }
    }
  }

  /** Every property whose name is in `keys` deleted, the others kept in order. */
  function RemoveAll(es: Entries, keys: set<string>): Entries
  {
    if es == [] then []
    else (if es[0].0 in keys then [] else [es[0]]) + RemoveAll(es[1..], keys)
  }

  /** Deleting keys one after another is deleting them all at once, in any grouping. */
  lemma {:induction false} RemoveAllUnion(es: Entries, a: set<string>, b: set<string>)
    ensures RemoveAll(RemoveAll(es, a), b) == RemoveAll(es, a + b)
  {
    if es != [] {
      RemoveAllUnion(es[1..], a, b);
      var rest := RemoveAll(es[1..], a);
      if es[0].0 in a {
        assert RemoveAll(es, a) == rest;
      } else {
        var r := [es[0]] + rest;
        assert RemoveAll(es, a) == r && r[0] == es[0] && r[1..] == rest;
      }
    }
  }

  /** A single `delete` is the removal of one key. */
  lemma {:induction false} RemoveIsRemoveAll(es: Entries, key: string)
    ensures Remove(es, key) == RemoveAll(es, {key})
  {
    if es != [] {
      RemoveIsRemoveAll(es[1..], key);
    }
  }

  /** Removing no key changes nothing. */
  lemma {:induction false} RemoveAllNone(es: Entries)
    ensures RemoveAll(es, {}) == es
  {
    if es != [] {
      RemoveAllNone(es[1..]);
      assert [es[0]] + es[1..] == es;
    }
  }

  /** Deleting a key twice is deleting it once. */
  lemma RemoveTwice(es: Entries, key: string)
    ensures Remove(Remove(es, key), key) == Remove(es, key)
  {
    RemoveIsRemoveAll(es, key);
    RemoveIsRemoveAll(Remove(es, key), key);
    RemoveAllUnion(es, {key}, {key});
    assert {key} + {key} == {key};
  }

  /**
   * The manifest of one entry. `mapping` is the in-memory record;
   * `saved` is the document the manifest last wrote to its path, if any.
   */
  class Manifest {
    const path: string
    var mapping: Entries
    var saved: Option<string>

    ghost predicate Valid()
      reads this
    {
      DistinctKeys(mapping)
    }

    /** `Manifest.build(config)`: an empty record bound to `<basedir>/<name>`. */
    constructor(basedir: string, name: Option<string>)
      ensures path == ManifestPath(basedir, name)
      ensures mapping == [] && saved == None
      ensures Valid()
    {
      path := basedir + "/" + name.GetOr(DefaultName);
      mapping := [];
      saved := None;
    }

    /** `add(original, compiled)`: upsert; afterwards `Get(original)` is `compiled`. */
    method Add(original: string, compiled: string)
      requires Valid()
      modifies this
      ensures Valid()
      ensures mapping == Upsert(old(mapping), original, compiled)
      ensures saved == old(saved)
    {
      UpsertDistinct(mapping, original, compiled);
      mapping := Upsert(mapping, original, compiled);
    }

    /** `get(original)`: the compiled path, or `None` for `undefined`. */
    method Get(original: string) returns (r: Option<string>)
      ensures r == Lookup(mapping, original)
    {
      r := Lookup(mapping, original);
    }

    /** `delete(original)`: afterwards the key is absent; a missing key is a no-op. */
    method Delete(original: string)
      requires Valid()
      modifies this
      ensures Valid()
      ensures mapping == Remove(old(mapping), original)
      ensures saved == old(saved)
    {
      RemoveDistinct(mapping, original);
      mapping := Remove(mapping, original);
    }

    /**
     * `save()`: writes `JSON.stringify(mapping, null, 2)` to the path. Whether
     * the file system accepts the write is outside the model; a failed write
     * is logged and swallowed, so the call always completes and the record is
     * untouched either way.
     */
    method Save()
      modifies this`saved
      ensures saved == old(saved) || saved == Some(Serialize(mapping))
    {
      var written: bool :| true;
      if written {
        saved := Some(Serialize(mapping));
      }
    }
  }
}
