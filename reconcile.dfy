/**
 * Relations between the file system before and after a pass of the
 * compiler: what a pass may add, what it may remove, and where.
 */
module Reconcile {
  import opened NodePath
  import opened FileSystem

  /** Every entry of `t1` is still there in `t2`, and of the same kind. */
  ghost predicate Extends(t1: Tree, t2: Tree)
  {
    forall p :: p in t1 ==> p in t2 && (t1[p].Dir? <==> t2[p].Dir?)
  }

  /** `t2` is `t1` with some entries removed. */
  ghost predicate Shrinks(t1: Tree, t2: Tree)
  {
    forall p :: p in t2 ==> p in t1 && t2[p] == t1[p]
  }

  /**
   * Outside `root`, the only difference between `t1` and `t2` is a
   * directory created on the way to `root`.
   */
  ghost predicate WritesOnlyBelow(t1: Tree, t2: Tree, root: Path)
  {
    forall p :: p in t2 && !Under(root, p) ==>
      (p in t1 && t2[p] == t1[p]) || (p !in t1 && t2[p].Dir? && Under(p, root))
  }

  /** Nothing outside `root` has been removed. */
  ghost predicate RemovesOnlyBelow(t1: Tree, t2: Tree, root: Path)
  {
    forall p :: p in t1 && !Under(root, p) ==> p in t2
  }

  /** A file cannot be written at `p`: it is a directory, or a file is in the way. */
  predicate Blocked(t: Tree, p: Path)
  {
    p == [] || FileOnPath(t, Parent(p)) || IsDirAt(t, p)
  }

  /** A write to `p` has happened or cannot happen. */
  predicate WriteDone(t: Tree, p: Path)
  {
    IsFileAt(t, p) || Blocked(t, p)
  }

  /** Neither of two directories lies inside the other. */
  predicate Disjoint(a: Path, b: Path)
  {
    !Under(a, b) && !Under(b, a)
  }

  lemma ExtendsTransitive(t1: Tree, t2: Tree, t3: Tree)
    requires Extends(t1, t2) && Extends(t2, t3)
    ensures Extends(t1, t3)
  {
  }

  lemma WritesOnlyBelowTransitive(t1: Tree, t2: Tree, t3: Tree, root: Path)
    requires Extends(t1, t2)
    requires WritesOnlyBelow(t1, t2, root) && WritesOnlyBelow(t2, t3, root)
    ensures WritesOnlyBelow(t1, t3, root)
  {
  }

  /** What is confined to a sub-directory is confined to the directory. */
  lemma WritesOnlyBelowWiden(t1: Tree, t2: Tree, root: Path, n: string)
    requires WritesOnlyBelow(t1, t2, root + [n])
    ensures WritesOnlyBelow(t1, t2, root)
  {
    forall p | p in t2 && !Under(root, p)
      ensures (p in t1 && t2[p] == t1[p]) || (p !in t1 && t2[p].Dir? && Under(p, root))
    {
      if !(p in t1 && t2[p] == t1[p]) && |p| <= |root| {
        assert (root + [n])[..|p|] == root[..|p|];
      }
    }
  }

  lemma ShrinksTransitive(t1: Tree, t2: Tree, t3: Tree)
    requires Shrinks(t1, t2) && Shrinks(t2, t3)
    ensures Shrinks(t1, t3)
  {
  }

  lemma RemovesOnlyBelowWiden(t1: Tree, t2: Tree, root: Path, n: string)
    requires RemovesOnlyBelow(t1, t2, root + [n])
    ensures RemovesOnlyBelow(t1, t2, root)
  {
    forall p | p in t1 && !Under(root, p)
      ensures p in t2
    {
    }
  }

  /** A file in the way stays in the way as the tree grows. */
  lemma FileOnPathPersists(t1: Tree, t2: Tree, p: Path)
    requires Extends(t1, t2) && FileOnPath(t1, p)
    ensures FileOnPath(t2, p)
  {
    var i :| 0 <= i <= |p| && IsFileAt(t1, p[..i]);
    assert IsFileAt(t2, p[..i]);
  }

  /** Once a write has settled, later growth of the tree keeps it settled. */
  lemma WriteDonePersists(t1: Tree, t2: Tree, p: Path)
    requires Extends(t1, t2) && WriteDone(t1, p)
    ensures WriteDone(t2, p)
  {
    if p != [] && FileOnPath(t1, Parent(p)) {
      FileOnPathPersists(t1, t2, Parent(p));
    }
  }

  /** A place where a file cannot be written stays so as the tree grows. */
  lemma BlockedPersists(t1: Tree, t2: Tree, p: Path)
    requires Extends(t1, t2) && Blocked(t1, p)
    ensures Blocked(t2, p)
  {
    if p != [] && FileOnPath(t1, Parent(p)) {
      FileOnPathPersists(t1, t2, Parent(p));
    }
  }

  /**
   * A recursive `mkdir` of `p` only adds directories, on the way to `p` and
   * `p` itself.
   */
  lemma MadeGrows(t: Tree, p: Path)
    ensures Extends(t, Made(t, p)) && WritesOnlyBelow(t, Made(t, p), p)
    ensures forall q :: q in Made(t, p) && q !in t ==> Made(t, p)[q].Dir?
  {
    forall q | q in t
      ensures q in Made(t, p) && (t[q].Dir? <==> Made(t, p)[q].Dir?)
    {
      MadeAt(t, p, q);
    }
    forall q | q in Made(t, p) && q !in t
      ensures Made(t, p)[q].Dir? && Under(q, p)
    {
      MadeAt(t, p, q);
    }
  }

  /** A write either happens or is blocked; after it, its target has settled. */
  lemma WriteIsDone(t: Tree, p: Path, data: string)
    requires WellFormed(t)
    ensures WriteFile(t, p, data).Ok? ==> WriteDone(WriteFile(t, p, data).value, p)
    ensures WriteFile(t, p, data).Err? ==> WriteDone(t, p)
  {
    if WriteFile(t, p, data).Ok? {
      WriteFileWellFormed(t, p, data);
    }
  }

  /** A write only adds: the file itself, and the directories on its way. */
  lemma WriteExtends(t: Tree, p: Path, data: string)
    requires WellFormed(t) && WriteFile(t, p, data).Ok?
    ensures Extends(t, WriteFile(t, p, data).value)
    ensures WritesOnlyBelow(t, WriteFile(t, p, data).value, Parent(p))
  {
    var w := WriteFile(t, p, data).value;
    var m := Made(t, Parent(p));
    forall q | q in t
      ensures q in w && (t[q].Dir? <==> w[q].Dir?)
    {
      MadeAt(t, Parent(p), q);
    }
    forall q | q in w && !Under(Parent(p), q)
      ensures (q in t && w[q] == t[q]) || (q !in t && w[q].Dir? && Under(q, Parent(p)))
    {
      if q != p {
        MadeAt(t, Parent(p), q);
      }
    }
  }

  /** The longest path among `ps`. */
  ghost function MaxLen(ps: set<Path>): (m: nat)
    ensures forall p :: p in ps ==> |p| <= m
    decreases ps
  {
    if ps == {} then 0
    else
      var p :| p in ps;
      var rest := MaxLen(ps - {p});
      if |p| < rest then rest else |p|
  }

  /** Every entry below `d` is reached through one of the names directly inside it. */
  lemma ThroughChild(t: Tree, d: Path, p: Path)
    requires WellFormed(t) && p in t && Below(d, p)
    ensures d + [p[|d|]] in t
    ensures d + [p[|d|]] == p || (IsDirAt(t, d + [p[|d|]]) && Below(d + [p[|d|]], p))
  {
    assert p[..|d| + 1] == d + [p[|d|]];
    if |p| > |d| + 1 {
      AncestorIsDir(t, p, |d| + 1);
    } else {
      assert p == p[..|d| + 1];
    }
  }

  /** Two disjoint directories stay disjoint one level down under the same name. */
  lemma DisjointChild(a: Path, b: Path, n: string)
    requires Disjoint(a, b)
    ensures Disjoint(a + [n], b + [n])
  {
    if |a| <= |b| {
      assert (b + [n])[..|a|] == b[..|a|];
    }
    if |b| <= |a| {
      assert (a + [n])[..|b|] == a[..|b|];
    }
  }

  /** Nothing lies in two disjoint directories at once. */
  lemma NotUnderBoth(a: Path, b: Path, q: Path)
    requires Disjoint(a, b) && Under(a, q)
    ensures !Under(b, q)
  {
  }

  /**
   * A path below the child `n` of `dir` mirrors into `out + [n]` exactly as
   * it mirrors into `out` from `dir` itself.
   */
  lemma MirrorFromParent(dir: Path, out: Path, n: string, s: Path)
    requires Below(dir + [n], s)
    ensures Below(dir, s) && s[|dir|] == n
    ensures (out + [n]) + s[|dir| + 1..|s| - 1] == out + s[|dir|..|s| - 1]
  {
    assert s[..|dir|] == s[..|dir| + 1][..|dir|];
    var mid := s[|dir| + 1..|s| - 1];
    assert s[|dir|..|s| - 1] == [n] + mid;
    assert out + ([n] + mid) == (out + [n]) + mid;
  }

  /**
   * The mirror of `s`, a path below `dir`, below `out` under the name
   * `name`: it lies below `out`, and the input directory it mirrors back to
   * is the one holding `s`.
   */
  lemma MirroredPath(dir: Path, out: Path, s: Path, name: string)
    requires Below(dir, s)
    ensures var p := out + s[|dir|..|s| - 1] + [name];
      Below(out, p) && Last(p) == name && Under(dir, Parent(s)) && dir + p[|out|..|p| - 1] == Parent(s)
  {
    var p := out + s[|dir|..|s| - 1] + [name];
    assert p[..|out|] == out;
    assert p[|out|..|p| - 1] == s[|dir|..|s| - 1];
    assert Parent(s)[..|dir|] == s[..|dir|];
    assert s[..|s| - 1] == s[..|dir|] + s[|dir|..|s| - 1];
  }

  /** The directory holding a path below `dir` is at or below `dir`, and holds it. */
  lemma ParentUnder(dir: Path, s: Path)
    requires Below(dir, s)
    ensures Under(dir, Parent(s)) && Parent(s) + [Last(s)] == s
  {
    assert Parent(s)[..|dir|] == s[..|dir|];
  }

  /** An entry below `inputDir` is untouched by a pass that writes only below a disjoint `out`. */
  lemma InputEntryForward(t1: Tree, t2: Tree, inputDir: Path, out: Path, q: Path)
    requires Disjoint(inputDir, out) && Under(inputDir, q)
    requires Extends(t1, t2) && WritesOnlyBelow(t1, t2, out)
    ensures q in t1 <==> q in t2
    ensures q in t2 ==> t2[q] == t1[q]
  {
    NotUnderBoth(inputDir, out, q);
  }

  /**
   * A pass that only adds, and changes nothing outside `out` but the
   * directories on the way to it, leaves every directory below a disjoint
   * `inputDir` as it was: present or not, of the same kind, with the same
   * names inside.
   */
  lemma InputSideForward(t1: Tree, t2: Tree, inputDir: Path, out: Path, d: Path)
    requires Disjoint(inputDir, out) && Under(inputDir, d)
    requires Extends(t1, t2) && WritesOnlyBelow(t1, t2, out)
    ensures d in t1 <==> d in t2
    ensures IsDirAt(t1, d) <==> IsDirAt(t2, d)
    ensures Children(t1, d) == Children(t2, d)
  {
    InputEntryForward(t1, t2, inputDir, out, d);
    forall m
      ensures m in Children(t1, d) <==> m in Children(t2, d)
    {
      assert (d + [m])[..|inputDir|] == d[..|inputDir|];
      InputEntryForward(t1, t2, inputDir, out, d + [m]);
      ChildrenMember(t1, d, m);
      ChildrenMember(t2, d, m);
    }
  }

  /**
   * A pass that only removes, and only below `out`, leaves every directory
   * below a disjoint `inputDir` as it was: present or not, of the same kind,
   * with the same names inside.
   */
  lemma InputSide(t1: Tree, t2: Tree, inputDir: Path, out: Path, d: Path)
    requires Disjoint(inputDir, out) && Under(inputDir, d)
    requires Shrinks(t1, t2) && RemovesOnlyBelow(t1, t2, out)
    ensures d in t1 <==> d in t2
    ensures IsDirAt(t1, d) <==> IsDirAt(t2, d)
    ensures Children(t1, d) == Children(t2, d)
  {
    NotUnderBoth(inputDir, out, d);
    forall m
      ensures m in Children(t1, d) <==> m in Children(t2, d)
    {
      assert (d + [m])[..|inputDir|] == d[..|inputDir|];
      NotUnderBoth(inputDir, out, d + [m]);
      ChildrenMember(t1, d, m);
      ChildrenMember(t2, d, m);
    }
  }
}
