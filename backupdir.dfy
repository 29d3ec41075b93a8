/**
 * A directory on disk that `update_backup` and `create_replica` change in
 * place: its directories and its files with their contents. Each method
 * below is one filesystem call or one loop of the source, and states the
 * directory's new state as a function of the old one.
 */
module BackupDirs {
  import opened Paths
  import opened Trees
  import opened DirDiff
  import SyncSteps
  import opened Update
  import opened Replicas

  class BackupDir {
    var dirs: set<Path>
    var files: map<Path, Bytes>

    /** The directory's current contents as a value. */
    function Snapshot(): Tree
      reads this
    {
      Tree(dirs, files)
    }

    constructor (t: Tree)
      ensures Snapshot() == t
    {
      dirs := t.dirs;
      files := t.files;
    }

    // -------------------------------------------------------------------
    // Filesystem calls.

    /** `os.makedirs(p, exist_ok=True)`. */
    method MakeDirs(p: Path)
      requires SyncSteps.CanMakeDirs(Snapshot(), p)
      modifies this
      ensures Snapshot() == SyncSteps.MakeDirs(old(Snapshot()), p)
    {
      dirs := dirs + SyncSteps.Prefixes(p);
    }

    /** `shutil.copy2` of a file with `content` to `p`. */
    method Copy(p: Path, content: Bytes)
      requires SyncSteps.CanCopy(Snapshot(), p)
      modifies this
      ensures Snapshot() == SyncSteps.Copy(old(Snapshot()), p, content)
    {
      var target := if p in dirs then p + [Last(p)] else p;
      files := files[target := content];
    }

    /** `os.remove(p)`. */
    method Remove(p: Path)
      requires p in files
      modifies this
      ensures Snapshot() == Tree(old(dirs), old(files) - {p})
    {
      files := files - {p};
    }

    /** `if os.path.isdir(p) and not os.listdir(p): os.rmdir(p)`. */
    method RemoveDirIfEmpty(p: Path)
      modifies this
      ensures Snapshot() == SyncSteps.RemoveDirIfEmpty(old(Snapshot()), p)
    {
      if p in dirs && SyncSteps.IsEmptyDir(Snapshot(), p) {
        dirs := dirs - {p};
      }
    }

    // -------------------------------------------------------------------
    // The loops of `update_backup`.

    /** `for rel_dir in diff["created_dirs"]: os.makedirs(...)`. */
    method MakeEachDir(rels: seq<string>)
      requires forall x :: x in rels ==> SyncSteps.CanMakeDirs(Snapshot(), Parse(x))
      modifies this
      ensures Snapshot() == SyncSteps.MakeEachDir(old(Snapshot()), rels)
    {
      ghost var t0 := Snapshot();
      for i := 0 to |rels|
        invariant forall x :: x in rels[..i] ==> x in rels
        invariant Snapshot() == SyncSteps.MakeEachDir(t0, rels[..i])
      {
        assert rels[..i + 1][..i] == rels[..i];
        MakeDirs(Parse(rels[i]));
      }
      assert rels[..|rels|] == rels;
    }

    /** `for rel_file in diff["created_files"]`: make the file's directory,
        then copy the file from the source. */
    method CopyNewFiles(src: Tree, rels: seq<string>)
      requires forall p :: p in dirs ==> p !in files
      requires forall x :: x in rels ==>
        Parse(x) in src.files && SyncSteps.Prefixes(Parse(DirName(x))) <= dirs && SyncSteps.CanCopy(Snapshot(), Parse(x))
      modifies this
      ensures Snapshot() == SyncSteps.CopyEachNew(old(Snapshot()), src, rels)
    {
      ghost var t0 := Snapshot();
      for i := 0 to |rels|
        invariant forall x :: x in rels[..i] ==> x in rels
        invariant Snapshot() == SyncSteps.CopyEachNew(t0, src, rels[..i])
        invariant dirs == t0.dirs
        invariant forall p :: p in dirs ==> p !in files
      {
        assert rels[..i + 1][..i] == rels[..i];
        var x := rels[i];
        MakeDirs(Parse(DirName(x)));
        Copy(Parse(x), src.files[Parse(x)]);
      }
      assert rels[..|rels|] == rels;
    }

    /** `for rel_file in diff["updated_files"]`: copy the file from the source. */
    method CopyFiles(src: Tree, rels: seq<string>)
      requires forall x :: x in rels ==> Parse(x) in src.files && SyncSteps.CanCopy(Snapshot(), Parse(x))
      modifies this
      ensures Snapshot() == SyncSteps.CopyEach(old(Snapshot()), src, rels)
    {
      ghost var t0 := Snapshot();
      for i := 0 to |rels|
        invariant forall x :: x in rels[..i] ==> x in rels
        invariant Snapshot() == SyncSteps.CopyEach(t0, src, rels[..i])
      {
        assert rels[..i + 1][..i] == rels[..i];
        Copy(Parse(rels[i]), src.files[Parse(rels[i])]);
      }
      assert rels[..|rels|] == rels;
    }

    /** `for rel_file in diff["deleted_files"]: os.remove(...)`. */
    method RemoveFiles(rels: seq<string>)
      requires forall x :: x in rels ==> Parse(x) in files
      requires SyncSteps.DistinctPaths(rels)
      modifies this
      ensures Snapshot() == SyncSteps.RemoveEach(old(Snapshot()), rels)
    {
      ghost var t0 := Snapshot();
      for i := 0 to |rels|
        invariant forall x :: x in rels[..i] ==> x in rels
        invariant Snapshot() == SyncSteps.RemoveEach(t0, rels[..i])
      {
        assert rels[..i + 1][..i] == rels[..i];
        assert Parse(rels[i]) !in SyncSteps.Resolved(rels[..i]);
        Remove(Parse(rels[i]));
      }
      assert rels[..|rels|] == rels;
    }

    /** `for rel_dir in sorted(diff["deleted_dirs"], reverse=True)`: remove the
        directory if it is empty. `rels` is sorted, so walking it from the
        end is walking it in reverse sorted order. */
    method RemoveEmptyDirs(rels: seq<string>)
      modifies this
      ensures Snapshot() == SyncSteps.RemoveEachEmptyDir(old(Snapshot()), rels)
    {
      ghost var t0 := Snapshot();
      var i := |rels|;
      assert rels[..i] == rels;
      while i > 0
        invariant 0 <= i <= |rels|
        invariant SyncSteps.RemoveEachEmptyDir(Snapshot(), rels[..i]) == SyncSteps.RemoveEachEmptyDir(t0, rels)
      {
        assert rels[..i][..i - 1] == rels[..i - 1];
        i := i - 1;
        RemoveDirIfEmpty(Parse(rels[i]));
      }
    }

    // -------------------------------------------------------------------
    // `update_backup` and `create_replica`.

    /** `update_backup(source, backup)`: compute the change-set, then run
        its five loops in the source's order. The backup stays a tree, and
        it mirrors the source unless a source file stood where the backup had
        a directory. */
    method UpdateBackup(src: Tree, hash: Bytes -> Digest)
      requires UpdateRuns(src, Snapshot())
      modifies this
      ensures Snapshot() == UpdateAsWritten(src, old(Snapshot()), hash)
      ensures Snapshot().WellFormed()
      ensures NoFileOverDir(src, old(Snapshot())) ==> Snapshot() == Synced(src, old(Snapshot()), hash)
    {
      ghost var bkp := Snapshot();
      var diff := DirectoryDiff(src, Snapshot(), hash);

      CreatedDirsResolve(src, bkp, hash);
      DirsMakeable(src, diff.createdDirs, bkp);
      MakeEachDir(diff.createdDirs);
      assert Snapshot() == CreateDirsStep(src, bkp, hash);

      CreatedFilesResolve(src, bkp, hash);
      CopyIntoDirsOk(src, bkp);
      FilesCopyable(src, Snapshot(), diff.createdFiles);
      CopyNewFiles(src, diff.createdFiles);
      assert Snapshot() == CopyNewStep(src, bkp, hash);

      UpdatedFilesResolve(src, bkp, hash);
      FilesCopyable(src, Snapshot(), diff.updatedFiles);
      CopyFiles(src, diff.updatedFiles);
      assert Snapshot() == CopyUpdatedStep(src, bkp, hash);

      DeletedFilesResolve(src, bkp, hash);
      RemoveFiles(diff.deletedFiles);
      assert Snapshot() == FileStepsAsWritten(src, bkp, hash);

      RemoveEmptyDirs(diff.deletedDirs);

      AsWrittenIsTree(src, bkp, hash);
      if NoFileOverDir(src, bkp) {
        AsWrittenSyncs(src, bkp, hash);
      }
    }

    /** `update_backup` with its two deletion loops run before the three
        creation loops: every pair of trees is synchronised. */
    method UpdateBackupDeletionsFirst(src: Tree, hash: Bytes -> Digest)
      requires src.WellFormed() && Snapshot().WellFormed()
      modifies this
      ensures Snapshot() == UpdateDeletionsFirst(src, old(Snapshot()), hash)
      ensures Snapshot() == Synced(src, old(Snapshot()), hash)
    {
      ghost var bkp := Snapshot();
      var diff := DirectoryDiff(src, Snapshot(), hash);

      DeletedFilesResolve(src, bkp, hash);
      RemoveFiles(diff.deletedFiles);
      RemoveEmptyDirs(diff.deletedDirs);
      assert Snapshot() == DeletionSteps(src, bkp, hash);

      CreatedDirsResolve(src, bkp, hash);
      DirsMakeable(src, diff.createdDirs, Snapshot());
      MakeEachDir(diff.createdDirs);
      assert Snapshot() == CreateDirsAfterDeletions(src, bkp, hash);

      CreatedFilesResolve(src, bkp, hash);
      FilesCopyable(src, Snapshot(), diff.createdFiles);
      CopyNewFiles(src, diff.createdFiles);
      assert Snapshot() == CopyNewAfterDeletions(src, bkp, hash);

      UpdatedFilesResolve(src, bkp, hash);
      FilesCopyable(src, Snapshot(), diff.updatedFiles);
      CopyFiles(src, diff.updatedFiles);
    }

    /** The inner loop of `create_replica` for one source directory `dir`:
        copy each file of `names` unless something exists at its destination
        path. */
    method CopyMissingFiles(src: Tree, dir: Path, names: set<Name>)
      requires dir in dirs
      requires forall n :: n in names ==> dir + [n] in src.files
      modifies this
      ensures dirs == old(dirs)
      ensures files == old(files) + Missing(src, old(Snapshot()), ChildPaths(dir, names))
    {
      ghost var t0 := Snapshot();
      var remaining := names;
      while remaining != {}
        invariant remaining <= names
        invariant dirs == t0.dirs
        invariant files == t0.files + Missing(src, t0, ChildPaths(dir, names - remaining))
        decreases |remaining|
      {
        var file :| file in remaining;
        var srcFile := dir + [file];
        var destFile := dir + [file];
        ChildPathsAdd(dir, names - remaining, file);
        MissingAddOne(src, t0, ChildPaths(dir, names - remaining), destFile, files);
        if !(destFile in files || destFile in dirs) {
          Copy(destFile, src.files[srcFile]);
        }
        assert names - (remaining - {file}) == (names - remaining) + {file};
        remaining := remaining - {file};
      }
      assert names - remaining == names;
    }

    /** The destination `dst` walked by `create_replica` apart from the
        source directories `unvisited`: the visited directories are made and
        the missing files outside `unvisited` are copied. */
    ghost predicate WalkedExcept(src: Tree, dst: Tree, unvisited: set<Path>)
      reads this
    {
      && src.WellFormed()
      && dst.dirs + (src.dirs - unvisited) <= dirs <= dst.dirs + src.dirs
      && files == dst.files + Missing(src, dst, FilesOutside(src, unvisited))
    }

    /** One step of the walk of `create_replica`: make the directory `root`
        and copy those of its files that are not at the destination yet. */
    method ReplicateDir(src: Tree, ghost dst: Tree, ghost unvisited: set<Path>, root: Path)
      requires ReplicaRuns(src, dst) && root in unvisited && unvisited <= src.dirs
      requires WalkedExcept(src, dst, unvisited)
      modifies this
      ensures old(dirs) <= dirs
      ensures WalkedExcept(src, dst, unvisited - {root})
    {
      ParseRelDir(root);
      var destDir := Parse(RelDir(root));
      SyncSteps.PrefixesInTree(src, destDir);
      assert destDir == destDir[..|destDir|];
      ReplicaCanMakeDirs(src, dst, Snapshot(), unvisited, destDir);
      MakeDirs(destDir);
      ghost var before := Snapshot();
      ChildrenOfDir(src, root);
      CopyMissingFiles(src, root, FilesIn(src, root));
      ReplicaStep(src, dst, before, unvisited, root);
    }

    /** `create_replica(src, dst)`: make the destination if it does not
        exist, then walk the source (in any order), making each directory and
        copying each file that is not there yet. */
    method CreateReplica(src: Tree)
      requires ReplicaRuns(src, Snapshot())
      modifies this
      ensures Snapshot() == Replica(src, old(Snapshot()))
      ensures Snapshot().WellFormed()
    {
      ghost var dst := Snapshot();
      if [] !in dirs {
        MakeDirs([]);
        var root: Path := [];
        assert root == root[..0];
      }
      var unvisited := src.dirs;
      while unvisited != {}
        invariant unvisited <= src.dirs
        invariant [] in dirs
        invariant WalkedExcept(src, dst, unvisited)
        decreases |unvisited|
      {
        var root :| root in unvisited;
        ReplicateDir(src, dst, unvisited, root);
        unvisited := unvisited - {root};
      }
      assert FilesOutside(src, {}) == src.files.Keys;
      ReplicaProperties(src, dst);
    }
  }
}
