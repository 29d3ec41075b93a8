/**
 * What `update_backup` does to the backup tree, step by step, as functions
 * of the tree before the step: `os.makedirs`, `shutil.copy2`, `os.remove`
 * and the guarded `os.rmdir`, each applied to the entries of one list of the
 * change-set in the order the loop visits them.
 */
module SyncSteps {
  import opened PathOrder
  import opened Paths
  import opened Trees
  import opened DirDiff

  /** `p` and all its ancestors. */
  function Prefixes(p: Path): set<Path> {
    set i | 0 <= i <= |p| :: p[..i]
  }

  function AllPrefixes(ps: set<Path>): set<Path> {
    set p, i | p in ps && 0 <= i <= |p| :: p[..i]
  }

  /** The paths the strings of a change-set list name (`os.path.join(root, x)`). */
  function Resolved(rels: seq<string>): set<Path> {
    set x | x in rels :: Parse(x)
  }

  // ---------------------------------------------------------------------
  // One filesystem call each.

  /** `os.makedirs(p, exist_ok=True)` succeeds unless `p` or an ancestor is a file. */
  predicate CanMakeDirs(t: Tree, p: Path) {
    forall q :: q in Prefixes(p) ==> q !in t.files
  }

  /** `os.makedirs(p, exist_ok=True)`: `p` and its ancestors become directories. */
  function MakeDirs(t: Tree, p: Path): Tree {
    Tree(t.dirs + Prefixes(p), t.files)
  }

  /** Where `shutil.copy2(_, p)` writes: into `p` when `p` is a directory. */
  function CopyTarget(t: Tree, p: Path): Path {
    if p != [] && p in t.dirs then p + [Last(p)] else p
  }

  /** `shutil.copy2(_, p)` succeeds when `p`'s directory exists and what it
      writes is not a directory. */
  predicate CanCopy(t: Tree, p: Path) {
    p != [] && Parent(p) in t.dirs && CopyTarget(t, p) !in t.dirs
  }

  /** `shutil.copy2` of a file with `content` to `p`. */
  function Copy(t: Tree, p: Path, content: Bytes): Tree {
    Tree(t.dirs, t.files[CopyTarget(t, p) := content])
  }

  /** `os.listdir(p)` is empty. */
  predicate IsEmptyDir(t: Tree, p: Path) {
    && (forall f :: f in t.files ==> f == [] || Parent(f) != p)
    && (forall d :: d in t.dirs ==> d == [] || Parent(d) != p)
  }

  /** `if os.path.isdir(p) and not os.listdir(p): os.rmdir(p)`. */
  function RemoveDirIfEmpty(t: Tree, p: Path): Tree {
    if p in t.dirs && IsEmptyDir(t, p) then Tree(t.dirs - {p}, t.files) else t
  }

  // ---------------------------------------------------------------------
  // The loops of `update_backup`, each over one list of relative strings,
  // first element first.

  lemma AllPrefixesAdd(ps: set<Path>, p: Path)
    ensures AllPrefixes(ps + {p}) == AllPrefixes(ps) + Prefixes(p)
  {
    forall q | q in AllPrefixes(ps + {p})
      ensures q in AllPrefixes(ps) + Prefixes(p)
    {
      var r, i :| r in ps + {p} && 0 <= i <= |r| && q == r[..i];
      if r != p {
        assert q in AllPrefixes(ps);
      }
    }
  }

  lemma ResolvedInit(rels: seq<string>)
    requires rels != []
    ensures Resolved(rels) == Resolved(rels[..|rels| - 1]) + {Parse(rels[|rels| - 1])}
  {
    assert rels == rels[..|rels| - 1] + [rels[|rels| - 1]];
  }

  /** "Create new directories": `os.makedirs` for each string. */
  function MakeEachDir(t: Tree, rels: seq<string>): (r: Tree)
    requires forall x :: x in rels ==> CanMakeDirs(t, Parse(x))
    ensures r.files == t.files
    ensures r.dirs == t.dirs + AllPrefixes(Resolved(rels))
    decreases |rels|
  {
    if rels == [] then t
    else
      var init := rels[..|rels| - 1];
      var x := rels[|rels| - 1];
      assert forall y :: y in init ==> y in rels;
      ResolvedInit(rels);
      AllPrefixesAdd(Resolved(init), Parse(x));
      MakeDirs(MakeEachDir(t, init), Parse(x))
  }

  /** The paths the copies of `rels` write to. */
  function Targets(t: Tree, rels: seq<string>): set<Path> {
    set x | x in rels :: CopyTarget(t, Parse(x))
  }

  lemma TargetsInit(t: Tree, rels: seq<string>)
    requires rels != []
    ensures Targets(t, rels) == Targets(t, rels[..|rels| - 1]) + {CopyTarget(t, Parse(rels[|rels| - 1]))}
  {
    assert rels == rels[..|rels| - 1] + [rels[|rels| - 1]];
  }

  /** The source contents at the paths `ps`. */
  function Installed(src: Tree, ps: set<Path>): map<Path, Bytes>
    requires ps <= src.files.Keys
  {
    map p | p in ps :: src.files[p]
  }

  lemma InstalledAdd(src: Tree, ps: set<Path>, p: Path)
    requires ps <= src.files.Keys && p in src.files
    ensures Installed(src, ps + {p}) == Installed(src, ps)[p := src.files[p]]
  {
  }

  /** "Update modified files": `shutil.copy2` from the source for each string. */
  function CopyEach(t: Tree, src: Tree, rels: seq<string>): (r: Tree)
    requires forall x :: x in rels ==> Parse(x) in src.files && CanCopy(t, Parse(x))
    ensures r.dirs == t.dirs
    ensures r.files.Keys == t.files.Keys + Targets(t, rels)
    decreases |rels|
  {
    if rels == [] then t
    else
      var init := rels[..|rels| - 1];
      var x := rels[|rels| - 1];
      assert forall y :: y in init ==> y in rels;
      TargetsInit(t, rels);
      var prev := CopyEach(t, src, init);
      assert CopyTarget(prev, Parse(x)) == CopyTarget(t, Parse(x));
      Copy(prev, Parse(x), src.files[Parse(x)])
  }

  /** "Copy new files": `os.makedirs` of the string's directory, then
      `shutil.copy2`, for each string. Where that directory and its
      ancestors already exist, the `makedirs` calls change nothing, so the
      step is the plain copy loop. */
  function CopyEachNew(t: Tree, src: Tree, rels: seq<string>): (r: Tree)
    requires forall x :: x in rels ==>
      Parse(x) in src.files && Prefixes(Parse(DirName(x))) <= t.dirs && CanCopy(t, Parse(x))
    ensures r == CopyEach(t, src, rels)
    decreases |rels|
  {
    if rels == [] then t
    else
      var init := rels[..|rels| - 1];
      var x := rels[|rels| - 1];
      assert forall y :: y in init ==> y in rels;
      var prev := CopyEachNew(t, src, init);
      assert Prefixes(Parse(DirName(x))) <= prev.dirs;
      assert MakeDirs(prev, Parse(DirName(x))) == prev;
      Copy(MakeDirs(prev, Parse(DirName(x))), Parse(x), src.files[Parse(x)])
  }

  /** "Delete removed files": `os.remove` for each string. */
  function RemoveEach(t: Tree, rels: seq<string>): (r: Tree)
    requires forall x :: x in rels ==> Parse(x) in t.files
    requires forall i, j :: 0 <= i < j < |rels| ==> Parse(rels[i]) != Parse(rels[j])
    ensures r == Tree(t.dirs, t.files - Resolved(rels))
    decreases |rels|
  {
    if rels == [] then t
    else
      var init := rels[..|rels| - 1];
      var x := rels[|rels| - 1];
      assert forall y :: y in init ==> y in rels;
      ResolvedInit(rels);
      var prev := RemoveEach(t, init);
      Tree(prev.dirs, prev.files - {Parse(x)})
  }

  /** "Delete empty directories": the guarded `os.rmdir` for each string,
      LAST string first (the loop runs over the list sorted in reverse). */
  function RemoveEachEmptyDir(t: Tree, rels: seq<string>): (r: Tree)
    ensures r.files == t.files
    ensures t.dirs - Resolved(rels) <= r.dirs <= t.dirs
    decreases |rels|
  {
    if rels == [] then t
    else
      ResolvedInit(rels);
      RemoveEachEmptyDir(RemoveDirIfEmpty(t, Parse(rels[|rels| - 1])), rels[..|rels| - 1])
  }

  // ---------------------------------------------------------------------
  // Closed forms of the loops.

  /** Copies that land on their own paths install the source contents there. */
  lemma {:induction false} CopyEachInPlace(t: Tree, src: Tree, rels: seq<string>)
    requires forall x :: x in rels ==> Parse(x) in src.files && CanCopy(t, Parse(x)) && Parse(x) !in t.dirs
    ensures Resolved(rels) <= src.files.Keys
    ensures CopyEach(t, src, rels).files == t.files + Installed(src, Resolved(rels))
    decreases |rels|
  {
    if rels != [] {
      var init := rels[..|rels| - 1];
      var x := rels[|rels| - 1];
      assert forall y :: y in init ==> y in rels;
      ResolvedInit(rels);
      CopyEachInPlace(t, src, init);
      var p := Parse(x);
      var prev := CopyEach(t, src, init);
      assert CopyTarget(prev, p) == p;
      assert CopyEach(t, src, rels).files == prev.files[p := src.files[p]];
      InstalledAdd(src, Resolved(init), p);
      UnionUpdate(t.files, Installed(src, Resolved(init)), p, src.files[p]);
    }
  }

  lemma UnionUpdate<K, V>(m: map<K, V>, n: map<K, V>, k: K, v: V)
    ensures (m + n)[k := v] == m + n[k := v]
  {
  }

  /** Under the conditions below, the directory of the LAST string has no
      subdirectory left: each would be listed, and would sort after it. */
  lemma LastDirEmpty(t: Tree, rels: seq<string>)
    requires rels != [] && StrictlySorted(rels)
    requires forall x :: x in rels ==> Parse(x) != [] && ValidPath(Parse(x)) && RelDir(Parse(x)) == x
    requires forall c :: c in t.dirs && c != [] && Parent(c) in Resolved(rels) ==> c in Resolved(rels)
    requires forall f :: f in t.files && f != [] ==> Parent(f) !in Resolved(rels)
    ensures IsEmptyDir(t, Parse(rels[|rels| - 1]))
  {
    var n := |rels| - 1;
    var p := Parse(rels[n]);
    assert p in Resolved(rels);
    forall c | c in t.dirs && c != []
      ensures Parent(c) != p
    {
      if Parent(c) == p {
        assert c in Resolved(rels);
        var y :| y in rels && Parse(y) == c;
        var j :| 0 <= j < |rels| && rels[j] == y;
        assert Less(rels[n], rels[j]) by {
          ChildDirSortsAfter(c);
        }
        NothingSortsAfterLast(rels, j);
        assert false;
      }
    }
  }

  /** No string of a strictly sorted list sorts after its last one. */
  lemma NothingSortsAfterLast(rels: seq<string>, j: nat)
    requires StrictlySorted(rels) && j < |rels|
    ensures !Less(rels[|rels| - 1], rels[j])
  {
    var n := |rels| - 1;
    if j < n {
      LessAsymmetric(rels[j], rels[n]);
    } else {
      LessIrreflexive(rels[n]);
    }
  }

  /** The last string of a strictly sorted list of directory strings names a
      directory no earlier string names. */
  lemma LastDirDistinct(rels: seq<string>)
    requires rels != [] && StrictlySorted(rels)
    requires forall x :: x in rels ==> RelDir(Parse(x)) == x
    ensures Parse(rels[|rels| - 1]) !in Resolved(rels[..|rels| - 1])
  {
    var n := |rels| - 1;
    var p := Parse(rels[n]);
    if p in Resolved(rels[..n]) {
      var y :| y in rels[..n] && Parse(y) == p;
      var i :| 0 <= i < n && rels[i] == y;
      LessIrreflexive(rels[n]);
      assert false;
    }
  }

  /** A strictly sorted list of directory strings is removed completely,
      descendants first, when every subdirectory of a listed directory is
      listed too and no file lies directly in a listed directory: by the time
      the reverse walk reaches a directory, everything below it has gone. */
  lemma {:induction false} RemoveEachEmptyDirAll(t: Tree, rels: seq<string>)
    requires StrictlySorted(rels)
    requires forall x :: x in rels ==> Parse(x) != [] && ValidPath(Parse(x)) && RelDir(Parse(x)) == x && Parse(x) in t.dirs
    requires forall c :: c in t.dirs && c != [] && Parent(c) in Resolved(rels) ==> c in Resolved(rels)
    requires forall f :: f in t.files && f != [] ==> Parent(f) !in Resolved(rels)
    ensures RemoveEachEmptyDir(t, rels) == Tree(t.dirs - Resolved(rels), t.files)
    decreases |rels|
  {
    if rels != [] {
      var n := |rels| - 1;
      var init := rels[..n];
      var p := Parse(rels[n]);
      assert forall y :: y in init ==> y in rels;
      ResolvedInit(rels);
      LastDirEmpty(t, rels);
      LastDirDistinct(rels);
      var t' := Tree(t.dirs - {p}, t.files);
      assert RemoveDirIfEmpty(t, p) == t';
      assert RemoveEachEmptyDir(t, rels) == RemoveEachEmptyDir(t', init);
      RemoveEachEmptyDirAll(t', init);
      assert t'.dirs - Resolved(init) == t.dirs - Resolved(rels);
    }
  }

  /** Copies that succeed keep the tree a tree. */
  lemma {:induction false} CopyEachTree(t: Tree, src: Tree, rels: seq<string>)
    requires t.WellFormed()
    requires forall x :: x in rels ==> Parse(x) in src.files && CanCopy(t, Parse(x)) && ValidPath(Parse(x))
    ensures CopyEach(t, src, rels).WellFormed()
    decreases |rels|
  {
    if rels != [] {
      var init := rels[..|rels| - 1];
      var p := Parse(rels[|rels| - 1]);
      assert forall y :: y in init ==> y in rels;
      CopyEachTree(t, src, init);
      var q := CopyTarget(CopyEach(t, src, init), p);
      assert q != [] && ValidPath(q) && Parent(q) in t.dirs by {
        if q != p {
          assert Parent(q) == p;
        }
      }
    }
  }

  /** Removing empty directories other than the root keeps the tree a tree. */
  lemma {:induction false} RemoveEachEmptyDirTree(t: Tree, rels: seq<string>)
    requires t.WellFormed() && [] !in Resolved(rels)
    ensures RemoveEachEmptyDir(t, rels).WellFormed()
    decreases |rels|
  {
    if rels != [] {
      var init := rels[..|rels| - 1];
      var p := Parse(rels[|rels| - 1]);
      assert p != [] && [] !in Resolved(init) by {
        ResolvedInit(rels);
      }
      RemoveDirTree(t, p);
      RemoveEachEmptyDirTree(RemoveDirIfEmpty(t, p), init);
    }
  }

  /** Removing one empty directory other than the root keeps the tree a tree. */
  lemma RemoveDirTree(t: Tree, p: Path)
    requires t.WellFormed() && p != []
    ensures RemoveDirIfEmpty(t, p).WellFormed()
  {
  }

  // ---------------------------------------------------------------------
  // The lists of a change-set resolve back to the paths they were made of.

  ghost predicate NamesFiles(rels: seq<string>, s: set<Path>) {
    forall x :: x in rels ==> Parse(x) in s && Parse(x) != [] && ValidPath(Parse(x)) && RelFile(Parse(x)) == x
  }

  ghost predicate NamesDirs(rels: seq<string>, s: set<Path>) {
    forall x :: x in rels ==> Parse(x) in s && ValidPath(Parse(x)) && RelDir(Parse(x)) == x
  }

  ghost predicate DistinctPaths(rels: seq<string>) {
    forall i, j :: 0 <= i < j < |rels| ==> Parse(rels[i]) != Parse(rels[j])
  }

  lemma SortedFilesResolve(s: set<Path>)
    requires ValidFiles(s)
    ensures NamesFiles(SortedSet(FileStrings(s)), s)
    ensures Resolved(SortedSet(FileStrings(s))) == s
    ensures DistinctPaths(SortedSet(FileStrings(s)))
  {
    var rels := SortedSet(FileStrings(s));
    assert NamesFiles(rels, s) by {
      FileStringsResolve(s);
    }
    assert s <= Resolved(rels) by {
      forall p | p in s
        ensures p in Resolved(rels)
      {
        ParseRelFile(p);
        assert RelFile(p) in FileStrings(s);
      }
    }
    NamedFilesDistinct(rels, s);
  }

  /** Distinct strings that each name a file name distinct files. */
  lemma NamedFilesDistinct(rels: seq<string>, s: set<Path>)
    requires StrictlySorted(rels) && NamesFiles(rels, s)
    ensures DistinctPaths(rels)
  {
    forall i, j | 0 <= i < j < |rels|
      ensures Parse(rels[i]) != Parse(rels[j])
    {
      assert rels[i] in rels && rels[j] in rels;
      assert Less(rels[i], rels[j]);
      LessIrreflexive(rels[i]);
    }
  }

  lemma SortedDirsResolve(s: set<Path>)
    requires ValidDirs(s)
    ensures NamesDirs(SortedSet(DirStrings(s)), s)
    ensures Resolved(SortedSet(DirStrings(s))) == s
  {
    var rels := SortedSet(DirStrings(s));
    DirStringsResolve(s);
    forall p | p in s
      ensures p in Resolved(rels)
    {
      ParseRelDir(p);
      assert RelDir(p) in DirStrings(s);
    }
  }

  /** Every ancestor of a directory of a tree is a directory of the tree. */
  lemma {:induction false} PrefixesInTree(t: Tree, p: Path)
    requires t.WellFormed() && p in t.dirs
    ensures Prefixes(p) <= t.dirs
    decreases |p|
  {
    if p != [] {
      PrefixesInTree(t, Parent(p));
      forall q | q in Prefixes(p)
        ensures q in t.dirs
      {
        var i :| 0 <= i <= |p| && q == p[..i];
        if i < |p| {
          assert q == Parent(p)[..i];
          assert q in Prefixes(Parent(p));
        } else {
          assert q == p;
        }
      }
    }
  }

  lemma AllPrefixesInTree(t: Tree, ps: set<Path>)
    requires t.WellFormed() && ps <= t.dirs
    ensures ps <= AllPrefixes(ps) <= t.dirs
  {
    forall p | p in ps
      ensures p in AllPrefixes(ps)
    {
      assert p == p[..|p|];
    }
    forall q | q in AllPrefixes(ps)
      ensures q in t.dirs
    {
      var p, i :| p in ps && 0 <= i <= |p| && q == p[..i];
      PrefixesInTree(t, p);
      assert q in Prefixes(p);
    }
  }
}
