/**
 * `create_replica`: copy a source tree into a destination without touching
 * what the destination already holds.
 */
module Replicas {
  import opened Paths
  import opened Trees
  import opened DirDiff
  import opened SyncSteps

  /** A destination that does not exist yet. */
  const Absent := Tree({}, map[])

  /** The inputs on which `create_replica` raises no exception: a source
      tree, a destination that is absent or a tree, and no source directory
      where the destination has a file (`os.makedirs` would fail). */
  ghost predicate ReplicaRuns(src: Tree, dst: Tree) {
    && src.WellFormed()
    && (dst == Absent || dst.WellFormed())
    && (forall p :: p in src.dirs ==> p !in dst.files)
  }

  /** The source files among `ps` for which nothing exists at their path
      in `t` (`os.path.exists` is false), with their source contents. */
  function Missing(src: Tree, t: Tree, ps: set<Path>): map<Path, Bytes> {
    map p | p in ps && p in src.files && p !in t.files && p !in t.dirs :: src.files[p]
  }

  /** The destination after `create_replica(src, dst)`: every source
      directory exists, and every source file is copied where nothing exists
      at its path; nothing already there is removed or overwritten. */
  function Replica(src: Tree, dst: Tree): Tree {
    Tree(dst.dirs + src.dirs, dst.files + Missing(src, dst, src.files.Keys))
  }

  /** The replica is a tree holding every source directory, every entry the
      destination had, with the contents it had, and at every source file's
      path either a file or a directory. */
  lemma ReplicaProperties(src: Tree, dst: Tree)
    requires ReplicaRuns(src, dst)
    ensures Replica(src, dst).WellFormed()
    ensures src.dirs <= Replica(src, dst).dirs && dst.dirs <= Replica(src, dst).dirs
    ensures forall p :: p in dst.files ==> p in Replica(src, dst).files && Replica(src, dst).files[p] == dst.files[p]
    ensures forall p :: p in src.files ==> p in Replica(src, dst).files || p in Replica(src, dst).dirs
  {
    var r := Replica(src, dst);
    forall f | f in r.files
      ensures f != [] && ValidPath(f) && Parent(f) in r.dirs && f !in r.dirs
    {
      if f !in dst.files {
        assert f in src.files && f !in dst.dirs;
      }
    }
  }

  /** Replicating into an absent destination gives exactly the source, so
      `directory_diff` then reports nothing. */
  lemma ReplicaOfAbsent(src: Tree, hash: Bytes -> Digest)
    requires src.WellFormed()
    ensures Replica(src, Absent) == src
    ensures Changes(src, Replica(src, Absent), hash).IsEmpty()
  {
    assert Missing(src, Absent, src.files.Keys) == src.files;
    EmptyIffMirrors(src, src, hash);
  }

  /** Replicating a second time changes nothing. */
  lemma ReplicaIdempotent(src: Tree, dst: Tree)
    requires ReplicaRuns(src, dst)
    ensures ReplicaRuns(src, Replica(src, dst))
    ensures Replica(src, Replica(src, dst)) == Replica(src, dst)
  {
    var r := Replica(src, dst);
    ReplicaProperties(src, dst);
    forall p | p in src.dirs
      ensures p !in r.files
    {
      assert p !in dst.files;
    }
    assert Missing(src, r, src.files.Keys) == map[];
  }

  // ---------------------------------------------------------------------
  // Facts the walk of `create_replica` relies on.

  /** `os.path.join(dir, n)` for every name `n`. */
  function ChildPaths(dir: Path, names: set<Name>): set<Path> {
    set n | n in names :: dir + [n]
  }

  lemma ChildPathsAdd(dir: Path, names: set<Name>, n: Name)
    ensures ChildPaths(dir, names + {n}) == ChildPaths(dir, names) + {dir + [n]}
    ensures n !in names ==> dir + [n] !in ChildPaths(dir, names)
  {
    forall m | m in names && m != n
      ensures dir + [m] != dir + [n]
    {
      assert (dir + [m])[|dir|] == m && (dir + [n])[|dir|] == n;
    }
  }

  /** Visiting one more path `p`: the copy happens exactly when nothing is
      at `p` yet, and then `p` is one more missing file. */
  lemma MissingAddOne(src: Tree, t: Tree, done: set<Path>, p: Path, cur: map<Path, Bytes>)
    requires cur == t.files + Missing(src, t, done)
    requires p !in done && p in src.files
    ensures (if !(p in cur || p in t.dirs) then cur[p := src.files[p]] else cur)
         == t.files + Missing(src, t, done + {p})
  {
  }

  /** The files of `dir` are missing from `before` exactly when they are
      missing from `dst`. */
  lemma MissingChildren(src: Tree, dst: Tree, before: Tree, pending: set<Path>, dir: Path)
    requires ReplicaRuns(src, dst) && dir in pending
    requires dst.dirs <= before.dirs <= dst.dirs + src.dirs
    requires before.files == dst.files + Missing(src, dst, FilesOutside(src, pending))
    ensures Missing(src, before, set f | f in src.files && Parent(f) == dir)
         == Missing(src, dst, set f | f in src.files && Parent(f) == dir)
  {
    forall f | f in src.files && Parent(f) == dir
      ensures (f in before.files <==> f in dst.files) && (f in before.dirs <==> f in dst.dirs)
    {
      assert f !in FilesOutside(src, pending);
    }
  }

  /** The files of one source directory are its file names joined to it. */
  lemma ChildrenOfDir(src: Tree, dir: Path)
    requires src.WellFormed()
    ensures ChildPaths(dir, FilesIn(src, dir)) == set f | f in src.files && Parent(f) == dir
    ensures forall n :: n in FilesIn(src, dir) ==> dir + [n] in src.files
  {
    forall n | n in FilesIn(src, dir)
      ensures dir + [n] in src.files
    {
      var f :| f in src.files && Parent(f) == dir && Last(f) == n;
      assert f == Parent(f) + [Last(f)];
    }
    forall f | f in src.files && Parent(f) == dir
      ensures f in ChildPaths(dir, FilesIn(src, dir))
    {
      assert f == Parent(f) + [Last(f)];
    }
  }

  /** Visiting one more directory adds its files to those already visited. */
  lemma VisitSourceDir(src: Tree, pending: set<Path>, dir: Path)
    requires src.WellFormed() && dir in pending
    ensures FilesOutside(src, pending - {dir})
         == FilesOutside(src, pending) + set f | f in src.files && Parent(f) == dir
  {
  }

  /** The missing files of two sets of paths are the missing files of their union. */
  lemma MissingUnion(src: Tree, t: Tree, a: set<Path>, b: set<Path>)
    ensures Missing(src, t, a + b) == Missing(src, t, a) + Missing(src, t, b)
  {
  }

  /** While the walk runs, no source directory is a file of the destination,
      so `os.makedirs` of a source directory succeeds. */
  lemma ReplicaCanMakeDirs(src: Tree, dst: Tree, cur: Tree, pending: set<Path>, dir: Path)
    requires ReplicaRuns(src, dst) && dir in src.dirs
    requires cur.files == dst.files + Missing(src, dst, FilesOutside(src, pending))
    ensures CanMakeDirs(cur, dir)
  {
    PrefixesInTree(src, dir);
  }

  /** One step of the walk: copying the missing files of `dir` extends the
      files copied so far by the files of `dir`. */
  lemma ReplicaStep(src: Tree, dst: Tree, before: Tree, pending: set<Path>, dir: Path)
    requires ReplicaRuns(src, dst) && dir in pending
    requires dst.dirs <= before.dirs <= dst.dirs + src.dirs
    requires before.files == dst.files + Missing(src, dst, FilesOutside(src, pending))
    ensures before.files + Missing(src, before, ChildPaths(dir, FilesIn(src, dir)))
         == dst.files + Missing(src, dst, FilesOutside(src, pending - {dir}))
  {
    var children := set f | f in src.files && Parent(f) == dir;
    var copied := Missing(src, dst, FilesOutside(src, pending));
    var added := Missing(src, dst, children);
    assert Missing(src, before, ChildPaths(dir, FilesIn(src, dir))) == added by {
      ChildrenOfDir(src, dir);
      MissingChildren(src, dst, before, pending, dir);
    }
    assert Missing(src, dst, FilesOutside(src, pending - {dir})) == copied + added by {
      VisitSourceDir(src, pending, dir);
      MissingUnion(src, dst, FilesOutside(src, pending), children);
    }
    MapUnionAssoc(dst.files, copied, added);
  }

  lemma MapUnionAssoc<K, V>(a: map<K, V>, b: map<K, V>, c: map<K, V>)
    ensures a + b + c == a + (b + c)
  {
  }
}

