/**
 * The file system the compiler reads and writes, as a map from paths to
 * nodes, with the `node:fs/promises` calls it makes (and the `writeFile`
 * helper built on them) as operations on that map.
 */
module FileSystem {
  import opened Wrappers
  import opened NodePath

  datatype Node = File(content: string) | Dir

  type Tree = map<Path, Node>

  /** The error codes the modelled calls fail with. */
  datatype FsError = ENOENT | ENOTDIR | EISDIR | EEXIST | EACCES

  predicate IsDirAt(t: Tree, p: Path)
  {
    p in t && t[p].Dir?
  }

  predicate IsFileAt(t: Tree, p: Path)
  {
    p in t && t[p].File?
  }

  /** Every entry other than the working directory sits in a directory that is also present. */
  ghost predicate WellFormed(t: Tree)
  {
    forall p :: p in t && p != [] ==> IsDirAt(t, Parent(p))
  }

  /** In a well-formed tree every proper prefix of a present path is a directory. */
  lemma {:induction false} AncestorIsDir(t: Tree, p: Path, k: nat)
    requires WellFormed(t) && p in t && k < |p|
    ensures IsDirAt(t, p[..k])
    decreases |p| - k
  {
    if k + 1 < |p| {
      AncestorIsDir(t, p, k + 1);
      assert Parent(p[..k + 1]) == p[..k];
    } else {
      assert Parent(p) == p[..k];
    }
  }

  /** Nothing lies below a file. */
  lemma NothingBelowFile(t: Tree, f: Path, p: Path)
    requires WellFormed(t) && IsFileAt(t, f) && p in t
    ensures !Below(f, p)
  {
    if Below(f, p) {
      AncestorIsDir(t, p, |f|);
      assert false;
    }
  }

  /** The names directly inside `d`. */
  function Children(t: Tree, d: Path): set<string>
  {
    set p | p in t && |p| == |d| + 1 && p[..|d|] == d :: p[|d|]
  }

  lemma ChildrenMember(t: Tree, d: Path, n: string)
    ensures n in Children(t, d) <==> d + [n] in t
  {
    if d + [n] in t {
      var p := d + [n];
      assert p[..|d|] == d && p[|d|] == n;
    }
    if n in Children(t, d) {
      var p :| p in t && |p| == |d| + 1 && p[..|d|] == d && p[|d|] == n;
      assert p == d + [n];
    }
  }

  /** `fs.readdir(d)`: the names inside a directory; fails on a missing path or a file. */
  function ReadDir(t: Tree, d: Path): (r: Result<set<string>, FsError>)
    ensures r.Ok? <==> IsDirAt(t, d)
    ensures r.Ok? ==> forall n :: n in r.value <==> d + [n] in t
  {
    if d !in t then Err(ENOENT)
    else if t[d].File? then Err(ENOTDIR)
    else
      (forall n ensures n in Children(t, d) <==> d + [n] in t { ChildrenMember(t, d, n); }
       Ok(Children(t, d)))
  }

  /** Some prefix of `p`, `p` included, is a file. */
  predicate FileOnPath(t: Tree, p: Path)
  {
    exists i :: 0 <= i <= |p| && IsFileAt(t, p[..i])
  }

  /** The tree with every missing prefix of `p`, `p` included, added as a directory. */
  function Made(t: Tree, p: Path): Tree
  {
    t + map i | 0 <= i <= |p| && p[..i] !in t :: p[..i] := Dir
  }

  /** What `Made` adds: exactly the missing prefixes of `p`, as directories. */
  lemma MadeAt(t: Tree, p: Path, q: Path)
    ensures q in Made(t, p) <==> q in t || (|q| <= |p| && q == p[..|q|])
    ensures q in t ==> Made(t, p)[q] == t[q]
    ensures q !in t && q in Made(t, p) ==> Made(t, p)[q] == Dir
  {
    if q !in t && |q| <= |p| && q == p[..|q|] {
      var m := map i | 0 <= i <= |p| && p[..i] !in t :: p[..i] := Dir;
      assert q in m;
    }
  }

  /** `fs.mkdir(p, {recursive: true})`: creates every missing directory on the way to `p`. */
  function Mkdir(t: Tree, p: Path): (r: Result<Tree, FsError>)
    ensures r.Ok? <==> !FileOnPath(t, p)
  {
    if FileOnPath(t, p) then Err(if IsFileAt(t, p) then EEXIST else ENOTDIR)
    else Ok(Made(t, p))
  }

  /**
   * `writeFile(p, data)` of `util/fs`: creates the parent directory, removes
   * a file already at `p`, and writes. It fails when a prefix of the parent
   * is a file, or when `p` is a directory, which cannot be unlinked; either
   * way nothing has changed yet.
   */
  function WriteFile(t: Tree, p: Path, data: string): (r: Result<Tree, FsError>)
    ensures r.Ok? <==> p != [] && !FileOnPath(t, Parent(p)) && !IsDirAt(t, p)
  {
    if p == [] then Err(EISDIR)
    else if FileOnPath(t, Parent(p)) then Err(if IsFileAt(t, Parent(p)) then EEXIST else ENOTDIR)
    else if IsDirAt(t, p) then Err(EISDIR)
    else Ok(Made(t, Parent(p))[p := File(data)])
  }

  /** `fs.unlink(p)`: removes a file; fails on a missing path or a directory. */
  function Unlink(t: Tree, p: Path): (r: Result<Tree, FsError>)
    ensures r.Ok? <==> IsFileAt(t, p)
    ensures r.Ok? ==> r.value == t - {p}
  {
    if p !in t then Err(ENOENT)
    else if t[p].Dir? then Err(EISDIR)
    else Ok(t - {p})
  }

  /** `fs.rm(p, {force: true, recursive: true})`: `p` and everything below it are gone. */
  function Removed(t: Tree, p: Path): (r: Tree)
    ensures forall q :: q in r <==> q in t && !Under(p, q)
    ensures forall q :: q in r ==> r[q] == t[q]
  {
    map q | q in t && !Under(p, q) :: t[q]
  }

  lemma MadeWellFormed(t: Tree, p: Path)
    requires WellFormed(t) && !FileOnPath(t, p)
    ensures WellFormed(Made(t, p))
    ensures IsDirAt(Made(t, p), p)
  {
    var m := Made(t, p);
    forall q | q in m && q != []
      ensures IsDirAt(m, Parent(q))
    {
      MadeAt(t, p, q);
      var r := Parent(q);
      MadeAt(t, p, r);
      if q !in t {
        assert r == p[..|r|];
        if r in t {
          assert !IsFileAt(t, p[..|r|]);
        }
      }
    }
    MadeAt(t, p, p);
    assert p == p[..|p|];
    if p in t {
      assert !IsFileAt(t, p[..|p|]);
    }
  }

  lemma WriteFileWellFormed(t: Tree, p: Path, data: string)
    requires WellFormed(t) && WriteFile(t, p, data).Ok?
    ensures WellFormed(WriteFile(t, p, data).value)
    ensures IsFileAt(WriteFile(t, p, data).value, p)
  {
    var m := Made(t, Parent(p));
    MadeWellFormed(t, Parent(p));
    var w := m[p := File(data)];
    forall q | q in w && q != []
      ensures IsDirAt(w, Parent(q))
    {
      if q != p {
        assert IsDirAt(m, Parent(q));
      }
    }
  }

  lemma UnlinkWellFormed(t: Tree, p: Path)
    requires WellFormed(t) && IsFileAt(t, p)
    ensures WellFormed(t - {p})
  {
    forall q | q in t - {p} && q != []
      ensures IsDirAt(t - {p}, Parent(q))
    {
      assert IsDirAt(t, Parent(q));
    }
  }

  lemma RemovedWellFormed(t: Tree, p: Path)
    requires WellFormed(t)
    ensures WellFormed(Removed(t, p))
  {
    var r := Removed(t, p);
    forall q | q in r && q != []
      ensures IsDirAt(r, Parent(q))
    {
      assert IsDirAt(t, Parent(q));
    }
  }

  /** The file system, shared by every part of the compiler. */
  class Disk {
    var tree: Tree

    ghost predicate Valid()
      reads this
    {
      WellFormed(tree)
    }

    constructor(initial: Tree)
      requires WellFormed(initial)
      ensures Valid() && tree == initial
    {
      tree := initial;
    }

    /**
     * One `mkdir` call. Besides the structural failure of `Mkdir`, a call may
     * fail for reasons outside the model (permissions, a full disk); such a
     * failure leaves the tree as it was.
     */
    method MakeDirectory(p: Path) returns (r: Result<(), FsError>)
      requires Valid()
      modifies this
      ensures Valid()
      ensures r.Ok? ==> Mkdir(old(tree), p).Ok? && tree == Mkdir(old(tree), p).value
      ensures r.Err? ==> tree == old(tree)
      ensures Mkdir(old(tree), p).Err? ==> r.Err?
    {
      var fault: bool :| true;
      match Mkdir(tree, p)
      case Err(e) =>
        r := Err(e);
      case Ok(t) =>
        if fault {
          r := Err(EACCES);
        } else {
          MadeWellFormed(tree, p);
          tree := t;
          r := Ok(());
        }
    }

    method Write(p: Path, data: string) returns (r: Result<(), FsError>)
      requires Valid()
      modifies this
      ensures Valid()
      ensures r.Ok? <==> WriteFile(old(tree), p, data).Ok?
      ensures r.Ok? ==> tree == WriteFile(old(tree), p, data).value
      ensures r.Err? ==> tree == old(tree)
    {
      match WriteFile(tree, p, data)
      case Err(e) =>
        r := Err(e);
      case Ok(t) =>
        WriteFileWellFormed(tree, p, data);
        tree := t;
        r := Ok(());
    }

    method Delete(p: Path) returns (r: Result<(), FsError>)
      requires Valid()
      modifies this
      ensures Valid()
      ensures r.Ok? <==> IsFileAt(old(tree), p)
      ensures tree == if r.Ok? then old(tree) - {p} else old(tree)
    {
      match Unlink(tree, p)
      case Err(e) =>
        r := Err(e);
      case Ok(t) =>
        UnlinkWellFormed(tree, p);
        tree := t;
        r := Ok(());
    }

    method RemoveTree(p: Path)
      requires Valid()
      modifies this
      ensures Valid()
      ensures tree == Removed(old(tree), p)
    {
      RemovedWellFormed(tree, p);
      tree := Removed(tree, p);
    }
  }
}
