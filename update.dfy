/**
 * `update_backup` as a function of the source and backup trees, the backup
 * it is meant to produce, and what it produces when a source file stands
 * where the backup has a directory.
 */
module Update {
  import opened Paths
  import opened Trees
  import opened DirDiff
  import opened SyncSteps

  /** The inputs on which `update_backup` raises no exception: two trees; no
      source directory where the backup has a file (`os.makedirs` would
      fail); and no source file over a backup directory that already holds a
      directory of the same name (`shutil.copy2` would fail). */
  ghost predicate UpdateRuns(src: Tree, bkp: Tree) {
    && src.WellFormed() && bkp.WellFormed()
    && (forall p :: p in src.dirs ==> p !in bkp.files)
    && (forall p :: p in src.files && p in bkp.dirs ==> p + [Last(p)] !in bkp.dirs)
  }

  /** No source file stands where the backup has a directory. */
  ghost predicate NoFileOverDir(src: Tree, bkp: Tree) {
    forall p :: p in src.files ==> p !in bkp.dirs
  }

  /** The backup `update_backup` is meant to leave: exactly the source's
      directories and files, a file keeping the backup's content when the two
      contents hash the same and taking the source's otherwise. */
  function Synced(src: Tree, bkp: Tree, hash: Bytes -> Digest): Tree {
    Tree(src.dirs, map p | p in src.files ::
      if p in bkp.files && hash(src.files[p]) == hash(bkp.files[p]) then bkp.files[p] else src.files[p])
  }

  // ---------------------------------------------------------------------
  // The lists of the change-set name the paths they were made of.

  lemma CreatedDirsResolve(src: Tree, bkp: Tree, hash: Bytes -> Digest)
    requires src.WellFormed()
    ensures NamesDirs(Changes(src, bkp, hash).createdDirs, src.dirs - bkp.dirs)
    ensures Resolved(Changes(src, bkp, hash).createdDirs) == src.dirs - bkp.dirs
  {
    SortedDirsResolve(src.dirs - bkp.dirs);
  }

  lemma DeletedDirsResolve(src: Tree, bkp: Tree, hash: Bytes -> Digest)
    requires bkp.WellFormed()
    ensures NamesDirs(Changes(src, bkp, hash).deletedDirs, bkp.dirs - src.dirs)
    ensures Resolved(Changes(src, bkp, hash).deletedDirs) == bkp.dirs - src.dirs
  {
    SortedDirsResolve(bkp.dirs - src.dirs);
  }

  lemma CreatedFilesResolve(src: Tree, bkp: Tree, hash: Bytes -> Digest)
    requires src.WellFormed()
    ensures NamesFiles(Changes(src, bkp, hash).createdFiles, src.files.Keys - bkp.files.Keys)
    ensures Resolved(Changes(src, bkp, hash).createdFiles) == src.files.Keys - bkp.files.Keys
  {
    SortedFilesResolve(src.files.Keys - bkp.files.Keys);
  }

  lemma UpdatedFilesResolve(src: Tree, bkp: Tree, hash: Bytes -> Digest)
    requires src.WellFormed()
    ensures NamesFiles(Changes(src, bkp, hash).updatedFiles, ChangedFiles(src, bkp, hash))
    ensures Resolved(Changes(src, bkp, hash).updatedFiles) == ChangedFiles(src, bkp, hash)
  {
    SortedFilesResolve(ChangedFiles(src, bkp, hash));
  }

  lemma DeletedFilesResolve(src: Tree, bkp: Tree, hash: Bytes -> Digest)
    requires bkp.WellFormed()
    ensures NamesFiles(Changes(src, bkp, hash).deletedFiles, bkp.files.Keys - src.files.Keys)
    ensures Resolved(Changes(src, bkp, hash).deletedFiles) == bkp.files.Keys - src.files.Keys
    ensures DistinctPaths(Changes(src, bkp, hash).deletedFiles)
  {
    SortedFilesResolve(bkp.files.Keys - src.files.Keys);
  }

  // ---------------------------------------------------------------------
  // When the filesystem calls of a loop succeed.

  /** `os.makedirs` succeeds for every source directory when no file of `t`
      is a source directory. */
  lemma DirsMakeable(src: Tree, rels: seq<string>, t: Tree)
    requires src.WellFormed()
    requires forall x :: x in rels ==> Parse(x) in src.dirs
    requires forall p :: p in src.dirs ==> p !in t.files
    ensures forall x :: x in rels ==> CanMakeDirs(t, Parse(x))
  {
    forall x | x in rels
      ensures CanMakeDirs(t, Parse(x))
    {
      PrefixesInTree(src, Parse(x));
    }
  }

  /** Creating the missing source directories (and their ancestors) in `t`
      adds exactly the source's directories. */
  lemma CreatedDirsCover(src: Tree, t: Tree, created: set<Path>)
    requires src.WellFormed() && created <= src.dirs <= t.dirs + created
    ensures t.dirs + AllPrefixes(created) == t.dirs + src.dirs
  {
    AllPrefixesInTree(src, created);
  }

  /** Every source file can be copied into `t` once `t` holds the source's
      directories: its directory and that directory's ancestors exist, and
      `copy2` does not meet a directory where it writes. */
  lemma FilesCopyable(src: Tree, t: Tree, rels: seq<string>)
    requires src.WellFormed() && src.dirs <= t.dirs
    requires forall x :: x in rels ==> Parse(x) in src.files && RelFile(Parse(x)) == x
    requires forall p :: p in src.files && p in t.dirs ==> p + [Last(p)] !in t.dirs
    ensures forall x :: x in rels ==>
      Parse(x) in src.files && Prefixes(Parse(DirName(x))) <= t.dirs && CanCopy(t, Parse(x))
  {
    forall x | x in rels
      ensures Prefixes(Parse(DirName(x))) <= t.dirs && CanCopy(t, Parse(x))
    {
      var p := Parse(x);
      DirNameRelFile(p);
      ParseRelDir(Parent(p));
      PrefixesInTree(src, Parent(p));
    }
  }

  /** In the order `update_backup` takes, the backup holds the union of both
      trees' directories while files are copied; a source file is copied
      into a backup directory only where that directory has no subdirectory
      of the same name. */
  lemma CopyIntoDirsOk(src: Tree, bkp: Tree)
    requires UpdateRuns(src, bkp)
    ensures forall p :: p in src.files && p in bkp.dirs + src.dirs ==> p + [Last(p)] !in bkp.dirs + src.dirs
  {
    forall p | p in src.files && p in bkp.dirs + src.dirs
      ensures p + [Last(p)] !in src.dirs
    {
      assert Parent(p + [Last(p)]) == p;
    }
  }

  // ---------------------------------------------------------------------
  // `update_backup` as written, loop by loop.

  /** "Create new directories". */
  function CreateDirsStep(src: Tree, bkp: Tree, hash: Bytes -> Digest): (t: Tree)
    requires UpdateRuns(src, bkp)
    ensures t == Tree(bkp.dirs + src.dirs, bkp.files)
  {
    var d := Changes(src, bkp, hash);
    CreatedDirsResolve(src, bkp, hash);
    DirsMakeable(src, d.createdDirs, bkp);
    CreatedDirsCover(src, bkp, src.dirs - bkp.dirs);
    MakeEachDir(bkp, d.createdDirs)
  }

  /** "Copy new files": every created file lands on its path, or inside the
      directory at its path when there is one. */
  function CopyNewStep(src: Tree, bkp: Tree, hash: Bytes -> Digest): (t: Tree)
    requires UpdateRuns(src, bkp)
    ensures t.dirs == bkp.dirs + src.dirs
    ensures t.files.Keys == bkp.files.Keys + Targets(CreateDirsStep(src, bkp, hash), Changes(src, bkp, hash).createdFiles)
  {
    var t1 := CreateDirsStep(src, bkp, hash);
    CreatedFilesResolve(src, bkp, hash);
    CopyIntoDirsOk(src, bkp);
    FilesCopyable(src, t1, Changes(src, bkp, hash).createdFiles);
    CopyEachNew(t1, src, Changes(src, bkp, hash).createdFiles)
  }

  /** "Update modified files": every updated file is overwritten in place. */
  function CopyUpdatedStep(src: Tree, bkp: Tree, hash: Bytes -> Digest): (t: Tree)
    requires UpdateRuns(src, bkp)
    ensures t.dirs == bkp.dirs + src.dirs
    ensures t.files == CopyNewStep(src, bkp, hash).files + Installed(src, ChangedFiles(src, bkp, hash))
  {
    var t2 := CopyNewStep(src, bkp, hash);
    UpdatedFilesResolve(src, bkp, hash);
    CopyIntoDirsOk(src, bkp);
    FilesCopyable(src, t2, Changes(src, bkp, hash).updatedFiles);
    CopyEachInPlace(t2, src, Changes(src, bkp, hash).updatedFiles);
    CopyEach(t2, src, Changes(src, bkp, hash).updatedFiles)
  }

  /** "Delete removed files": the backup after the four file loops. */
  function FileStepsAsWritten(src: Tree, bkp: Tree, hash: Bytes -> Digest): (t: Tree)
    requires UpdateRuns(src, bkp)
    ensures t == Tree(bkp.dirs + src.dirs, CopyUpdatedStep(src, bkp, hash).files - (bkp.files.Keys - src.files.Keys))
  {
    DeletedFilesResolve(src, bkp, hash);
    RemoveEach(CopyUpdatedStep(src, bkp, hash), Changes(src, bkp, hash).deletedFiles)
  }

  /** The backup after `update_backup(source, backup)`: the four file loops,
      then "Delete empty directories", in reverse sorted order. */
  function UpdateAsWritten(src: Tree, bkp: Tree, hash: Bytes -> Digest): Tree
    requires UpdateRuns(src, bkp)
  {
    RemoveEachEmptyDir(FileStepsAsWritten(src, bkp, hash), Changes(src, bkp, hash).deletedDirs)
  }

  lemma SyncedFilesAsWritten(src: Tree, bkp: Tree, hash: Bytes -> Digest)
    requires src.WellFormed() && bkp.WellFormed()
    ensures ((bkp.files + Installed(src, src.files.Keys - bkp.files.Keys))
              + Installed(src, ChangedFiles(src, bkp, hash)))
            - (bkp.files.Keys - src.files.Keys)
         == Synced(src, bkp, hash).files
  {
  }

  /** Whatever the inputs on which it runs, `update_backup` leaves a tree. */
  lemma AsWrittenIsTree(src: Tree, bkp: Tree, hash: Bytes -> Digest)
    requires UpdateRuns(src, bkp)
    ensures UpdateAsWritten(src, bkp, hash).WellFormed()
  {
    var t1 := CreateDirsStep(src, bkp, hash);
    var d := Changes(src, bkp, hash);
    CreatedFilesResolve(src, bkp, hash);
    UpdatedFilesResolve(src, bkp, hash);
    CopyIntoDirsOk(src, bkp);
    FilesCopyable(src, t1, d.createdFiles);
    CopyEachTree(t1, src, d.createdFiles);
    var t2 := CopyNewStep(src, bkp, hash);
    FilesCopyable(src, t2, d.updatedFiles);
    CopyEachTree(t2, src, d.updatedFiles);
    var t4 := FileStepsAsWritten(src, bkp, hash);
    assert t4.WellFormed();
    DeletedDirsResolve(src, bkp, hash);
    RemoveEachEmptyDirTree(t4, d.deletedDirs);
  }

  /** Without a source file over a backup directory, every new file is
      copied to its own path. */
  lemma CopyNewInPlace(src: Tree, bkp: Tree, hash: Bytes -> Digest)
    requires UpdateRuns(src, bkp) && NoFileOverDir(src, bkp)
    ensures CopyNewStep(src, bkp, hash).files == bkp.files + Installed(src, src.files.Keys - bkp.files.Keys)
  {
    var t1 := CreateDirsStep(src, bkp, hash);
    CreatedFilesResolve(src, bkp, hash);
    CopyIntoDirsOk(src, bkp);
    FilesCopyable(src, t1, Changes(src, bkp, hash).createdFiles);
    CopyEachInPlace(t1, src, Changes(src, bkp, hash).createdFiles);
  }

  /** Without a source file over a backup directory, the four file loops
      leave the source's files with the synchronised contents. */
  lemma FileStepsSync(src: Tree, bkp: Tree, hash: Bytes -> Digest)
    requires UpdateRuns(src, bkp) && NoFileOverDir(src, bkp)
    ensures FileStepsAsWritten(src, bkp, hash) == Tree(bkp.dirs + src.dirs, Synced(src, bkp, hash).files)
  {
    CopyNewInPlace(src, bkp, hash);
    SyncedFilesAsWritten(src, bkp, hash);
  }

  /** Without a source file over a backup directory, `update_backup` leaves
      the backup it is meant to. */
  lemma AsWrittenSyncs(src: Tree, bkp: Tree, hash: Bytes -> Digest)
    requires UpdateRuns(src, bkp) && NoFileOverDir(src, bkp)
    ensures UpdateAsWritten(src, bkp, hash) == Synced(src, bkp, hash)
  {
    FileStepsSync(src, bkp, hash);
    DeletedDirsResolve(src, bkp, hash);
    RemoveEachEmptyDirAll(FileStepsAsWritten(src, bkp, hash), Changes(src, bkp, hash).deletedDirs);
  }

  /** No new file is copied to the path of a source file that is a backup
      directory: that file goes inside the directory, and no other file's
      copy lands there. */
  lemma FileOverDirNotTarget(src: Tree, bkp: Tree, hash: Bytes -> Digest, p: Path)
    requires UpdateRuns(src, bkp) && p in src.files && p in bkp.dirs
    ensures p !in Targets(CreateDirsStep(src, bkp, hash), Changes(src, bkp, hash).createdFiles)
  {
    var t1 := CreateDirsStep(src, bkp, hash);
    CreatedFilesResolve(src, bkp, hash);
    forall q | q in src.files
      ensures CopyTarget(t1, q) != p
    {
      NotCopiedOnto(src, t1, q, p);
    }
  }

  /** A copy of source file `q` into tree `t` does not write source file
      `p` when `p` is a directory of `t`. */
  lemma NotCopiedOnto(src: Tree, t: Tree, q: Path, p: Path)
    requires src.WellFormed() && q in src.files && p in src.files && p in t.dirs
    ensures CopyTarget(t, q) != p
  {
    if q in t.dirs {
      assert Parent(q + [Last(q)]) == q;
      assert q !in src.dirs;
    }
  }

  /** Where a source file stands over a backup directory, `update_backup`
      copies the file INTO that directory (`shutil.copy2` onto a directory
      writes `dir/name`), and no later step writes the file's own path. */
  lemma FileOverDirNeverWritten(src: Tree, bkp: Tree, hash: Bytes -> Digest, p: Path)
    requires UpdateRuns(src, bkp) && p in src.files && p in bkp.dirs
    ensures p !in FileStepsAsWritten(src, bkp, hash).files
  {
    FileOverDirNotTarget(src, bkp, hash, p);
    assert p !in CopyNewStep(src, bkp, hash).files;
    assert p !in ChangedFiles(src, bkp, hash);
  }

  /** So `update_backup` does not leave a mirror in that case, and a second
      `directory_diff` still reports the file as created. */
  lemma FileOverDirBreaksMirror(src: Tree, bkp: Tree, hash: Bytes -> Digest, p: Path)
    requires UpdateRuns(src, bkp) && p in src.files && p in bkp.dirs
    ensures p !in UpdateAsWritten(src, bkp, hash).files
    ensures !Mirrors(src, UpdateAsWritten(src, bkp, hash), hash)
    ensures RelFile(p) in Changes(src, UpdateAsWritten(src, bkp, hash), hash).createdFiles
  {
    FileOverDirNeverWritten(src, bkp, hash, p);
    var r := UpdateAsWritten(src, bkp, hash);
    assert RelFile(p) in FileStrings(src.files.Keys - r.files.Keys);
  }

  /** The smallest such input: a source holding the file `a` and a backup
      holding the directory `a`. */
  lemma FileOverDirExample(content: Bytes, hash: Bytes -> Digest)
    ensures var src := Tree({[]}, map[["a"] := content]);
            var bkp := Tree({[], ["a"]}, map[]);
            && UpdateRuns(src, bkp)
            && !Mirrors(src, UpdateAsWritten(src, bkp, hash), hash)
  {
    var src := Tree({[]}, map[["a"] := content]);
    var bkp := Tree({[], ["a"]}, map[]);
    assert ValidName("a");
    assert ["a"] + [Last(["a"])] !in bkp.dirs;
    FileOverDirBreaksMirror(src, bkp, hash, ["a"]);
  }

  /** Worse: when that backup directory already holds a file of the same
      name, which is not a source file, the copy overwrites it, "Delete
      removed files" then removes it, and the source file lands on neither
      path. */
  lemma FileOverDirLost(src: Tree, bkp: Tree, hash: Bytes -> Digest, p: Path)
    requires UpdateRuns(src, bkp) && p in src.files && p in bkp.dirs
    requires p + [Last(p)] in bkp.files && p + [Last(p)] !in src.files
    ensures p !in UpdateAsWritten(src, bkp, hash).files
    ensures p + [Last(p)] !in UpdateAsWritten(src, bkp, hash).files
  {
    FileOverDirNeverWritten(src, bkp, hash, p);
  }

  /** The other clash: a source directory where the backup has a file. The
      directory is in "created_dirs", and `os.makedirs` of it raises, since
      the file is still there when the first loop reaches it (that loop only
      adds directories), so `update_backup` stops before it removes anything. */
  lemma DirOverFileStopsUpdate(src: Tree, bkp: Tree, hash: Bytes -> Digest, p: Path)
    requires src.WellFormed() && bkp.WellFormed() && p in src.dirs && p in bkp.files
    ensures RelDir(p) in Changes(src, bkp, hash).createdDirs
    ensures Parse(RelDir(p)) == p && !CanMakeDirs(bkp, p)
    ensures !UpdateRuns(src, bkp)
  {
    ParseRelDir(p);
    assert RelDir(p) in DirStrings(src.dirs - bkp.dirs);
    assert p in Prefixes(p) by {
      assert p == p[..|p|];
    }
  }

  // ---------------------------------------------------------------------
  // The corrected order: the two deletion loops first.

  /** "Delete removed files" and then "Delete empty directories" leave
      exactly what the two trees share. */
  function DeletionSteps(src: Tree, bkp: Tree, hash: Bytes -> Digest): (t: Tree)
    requires src.WellFormed() && bkp.WellFormed()
    ensures t == Tree(bkp.dirs * src.dirs, bkp.files - (bkp.files.Keys - src.files.Keys))
  {
    var d := Changes(src, bkp, hash);
    DeletedFilesResolve(src, bkp, hash);
    DeletedDirsResolve(src, bkp, hash);
    var t1 := RemoveEach(bkp, d.deletedFiles);
    RemoveEachEmptyDirAll(t1, d.deletedDirs);
    RemoveEachEmptyDir(t1, d.deletedDirs)
  }

  /** Then "Create new directories": the source's directories. */
  function CreateDirsAfterDeletions(src: Tree, bkp: Tree, hash: Bytes -> Digest): (t: Tree)
    requires src.WellFormed() && bkp.WellFormed()
    ensures t == Tree(src.dirs, bkp.files - (bkp.files.Keys - src.files.Keys))
  {
    var t2 := DeletionSteps(src, bkp, hash);
    var created := Changes(src, bkp, hash).createdDirs;
    CreatedDirsResolve(src, bkp, hash);
    DirsMakeable(src, created, t2);
    CreatedDirsCover(src, t2, src.dirs - bkp.dirs);
    var r := MakeEachDir(t2, created);
    IntersectionAbsorbed(bkp.dirs, src.dirs);
    r
  }

  lemma IntersectionAbsorbed<T>(a: set<T>, b: set<T>)
    ensures a * b + b == b
  {
  }

  /** Then "Copy new files": every created file lands on its own path. */
  function CopyNewAfterDeletions(src: Tree, bkp: Tree, hash: Bytes -> Digest): (t: Tree)
    requires src.WellFormed() && bkp.WellFormed()
    ensures t == Tree(src.dirs, (bkp.files - (bkp.files.Keys - src.files.Keys))
                                + Installed(src, src.files.Keys - bkp.files.Keys))
  {
    var t3 := CreateDirsAfterDeletions(src, bkp, hash);
    CreatedFilesResolve(src, bkp, hash);
    FilesCopyable(src, t3, Changes(src, bkp, hash).createdFiles);
    CopyEachInPlace(t3, src, Changes(src, bkp, hash).createdFiles);
    CopyEachNew(t3, src, Changes(src, bkp, hash).createdFiles)
  }

  lemma SyncedFilesDeletionsFirst(src: Tree, bkp: Tree, hash: Bytes -> Digest)
    requires src.WellFormed() && bkp.WellFormed()
    ensures ((bkp.files - (bkp.files.Keys - src.files.Keys))
              + Installed(src, src.files.Keys - bkp.files.Keys))
            + Installed(src, ChangedFiles(src, bkp, hash))
         == Synced(src, bkp, hash).files
  {
  }

  /** `update_backup` with the two deletion loops moved before the three
      creation loops, each loop otherwise unchanged: for every pair of trees
      no call raises and the result is the synchronised backup. */
  function UpdateDeletionsFirst(src: Tree, bkp: Tree, hash: Bytes -> Digest): (r: Tree)
    requires src.WellFormed() && bkp.WellFormed()
    ensures r == Synced(src, bkp, hash)
  {
    var t4 := CopyNewAfterDeletions(src, bkp, hash);
    UpdatedFilesResolve(src, bkp, hash);
    FilesCopyable(src, t4, Changes(src, bkp, hash).updatedFiles);
    CopyEachInPlace(t4, src, Changes(src, bkp, hash).updatedFiles);
    SyncedFilesDeletionsFirst(src, bkp, hash);
    CopyEach(t4, src, Changes(src, bkp, hash).updatedFiles)
  }

  // ---------------------------------------------------------------------
  // What the synchronised backup satisfies.

  /** The synchronised backup is a tree, and it mirrors the source. */
  lemma SyncedMirrors(src: Tree, bkp: Tree, hash: Bytes -> Digest)
    requires src.WellFormed()
    ensures Synced(src, bkp, hash).WellFormed()
    ensures Mirrors(src, Synced(src, bkp, hash), hash)
  {
  }

  /** Every created or updated file holds the source's content, and every
      common file the change-set does not list as updated keeps the backup's. */
  lemma SyncedContents(src: Tree, bkp: Tree, hash: Bytes -> Digest)
    requires src.WellFormed() && bkp.WellFormed()
    ensures var d := Changes(src, bkp, hash);
      forall x :: x in d.createdFiles || x in d.updatedFiles ==>
        Parse(x) in src.files && Synced(src, bkp, hash).files[Parse(x)] == src.files[Parse(x)]
    ensures var d := Changes(src, bkp, hash);
      forall p :: p in src.files && p in bkp.files && RelFile(p) !in d.updatedFiles ==>
        Synced(src, bkp, hash).files[p] == bkp.files[p]
  {
    CreatedFilesResolve(src, bkp, hash);
    UpdatedFilesResolve(src, bkp, hash);
    var d := Changes(src, bkp, hash);
    forall p | p in src.files && p in bkp.files && RelFile(p) !in d.updatedFiles
      ensures hash(src.files[p]) == hash(bkp.files[p])
    {
      assert RelFile(p) in FileNames(src) && RelFile(p) in FileNames(bkp);
      UpdatedIffHashesDiffer(src, bkp, hash, RelFile(p));
      ParseRelFile(p);
    }
  }

  /** Right after an update the change-set is empty, and updating again
      changes nothing. */
  lemma SyncedIsFixedPoint(src: Tree, bkp: Tree, hash: Bytes -> Digest)
    requires src.WellFormed() && bkp.WellFormed()
    ensures Changes(src, Synced(src, bkp, hash), hash).IsEmpty()
    ensures UpdateRuns(src, Synced(src, bkp, hash))
    ensures UpdateAsWritten(src, Synced(src, bkp, hash), hash) == Synced(src, bkp, hash)
  {
    var r := Synced(src, bkp, hash);
    SyncedMirrors(src, bkp, hash);
    EmptyIffMirrors(src, r, hash);
    AsWrittenSyncs(src, r, hash);
    assert Synced(src, r, hash) == r;
  }
}
