/**
 * `directory_diff`: the change-set between a source tree and a backup tree.
 * Files and directories are compared by their relative strings; a file
 * present in both trees is updated exactly when the hashes of its two
 * contents differ.
 */
module DirDiff {
  import opened PathOrder
  import opened Paths
  import opened Trees

  /** The five sorted lists `directory_diff` returns. */
  datatype ChangeSet = ChangeSet(
    createdFiles: seq<string>,
    deletedFiles: seq<string>,
    updatedFiles: seq<string>,
    createdDirs: seq<string>,
    deletedDirs: seq<string>)
  {
    predicate IsEmpty() {
      createdFiles == [] && deletedFiles == [] && updatedFiles == [] && createdDirs == [] && deletedDirs == []
    }
  }

  /** The files present in both trees whose contents hash differently. */
  function ChangedFiles(src: Tree, bkp: Tree, hash: Bytes -> Digest): set<Path> {
    set p | p in src.files && p in bkp.files && hash(src.files[p]) != hash(bkp.files[p])
  }

  /** The change-set, stated over the trees' own paths. */
  function Changes(src: Tree, bkp: Tree, hash: Bytes -> Digest): ChangeSet {
    ChangeSet(
      SortedSet(FileStrings(src.files.Keys - bkp.files.Keys)),
      SortedSet(FileStrings(bkp.files.Keys - src.files.Keys)),
      SortedSet(FileStrings(ChangedFiles(src, bkp, hash))),
      SortedSet(DirStrings(src.dirs - bkp.dirs)),
      SortedSet(DirStrings(bkp.dirs - src.dirs)))
  }

  /** The hash comparison `directory_diff` makes for one common file string. */
  predicate HashesDiffer(src: Tree, bkp: Tree, hash: Bytes -> Digest, relPath: string)
    requires Parse(relPath) in src.files && Parse(relPath) in bkp.files
  {
    hash(src.files[Parse(relPath)]) != hash(bkp.files[Parse(relPath)])
  }

  lemma CommonResolves(src: Tree, bkp: Tree)
    requires src.WellFormed() && bkp.WellFormed()
    ensures forall x :: x in FileNames(src) * FileNames(bkp) ==> Parse(x) in src.files && Parse(x) in bkp.files
  {
    FileStringsResolve(src.files.Keys);
    FileStringsResolve(bkp.files.Keys);
  }

  /** The updated files, seen as strings: the common file strings whose two
      contents hash differently. */
  lemma ChangedStrings(src: Tree, bkp: Tree, hash: Bytes -> Digest)
    requires src.WellFormed() && bkp.WellFormed()
    ensures forall x :: x in FileNames(src) * FileNames(bkp) ==> Parse(x) in src.files && Parse(x) in bkp.files
    ensures FileStrings(ChangedFiles(src, bkp, hash))
         == set x | x in FileNames(src) * FileNames(bkp) && HashesDiffer(src, bkp, hash, x)
  {
    CommonResolves(src, bkp);
    var changed := ChangedFiles(src, bkp, hash);
    var lhs := FileStrings(changed);
    var rhs := set x | x in FileNames(src) * FileNames(bkp) && HashesDiffer(src, bkp, hash, x);
    forall x | x in lhs
      ensures x in rhs
    {
      var p :| p in changed && p != [] && RelFile(p) == x;
      ParseRelFile(p);
      assert x in FileStrings(src.files.Keys) && x in FileStrings(bkp.files.Keys);
    }
    forall x | x in rhs
      ensures x in lhs
    {
      assert Parse(x) != [] && RelFile(Parse(x)) == x by {
        FileStringsResolve(src.files.Keys);
      }
      assert Parse(x) in changed;
    }
  }

  /** The same change-set, computed the way `directory_diff` does: set algebra
      on the enumerated strings and a hash comparison per common string. */
  lemma ChangesFromStrings(src: Tree, bkp: Tree, hash: Bytes -> Digest)
    requires src.WellFormed() && bkp.WellFormed()
    ensures forall x :: x in FileNames(src) * FileNames(bkp) ==> Parse(x) in src.files && Parse(x) in bkp.files
    ensures Changes(src, bkp, hash) == ChangeSet(
      SortedSet(FileNames(src) - FileNames(bkp)),
      SortedSet(FileNames(bkp) - FileNames(src)),
      SortedSet(set x | x in FileNames(src) * FileNames(bkp) && HashesDiffer(src, bkp, hash, x)),
      SortedSet(DirNames(src) - DirNames(bkp)),
      SortedSet(DirNames(bkp) - DirNames(src)))
  {
    FileStringsAlgebra(src.files.Keys, bkp.files.Keys);
    FileStringsAlgebra(bkp.files.Keys, src.files.Keys);
    DirStringsAlgebra(src.dirs, bkp.dirs);
    DirStringsAlgebra(bkp.dirs, src.dirs);
    ChangedStrings(src, bkp, hash);
  }

  /** The loop of `directory_diff` over the common files: collect, in any
      order, those whose source and backup contents hash differently. */
  method CollectUpdated(src: Tree, bkp: Tree, hash: Bytes -> Digest, commonFiles: set<string>)
    returns (updatedFiles: seq<string>)
    requires forall x :: x in commonFiles ==> Parse(x) in src.files && Parse(x) in bkp.files
    ensures forall x :: x in updatedFiles <==> x in commonFiles && HashesDiffer(src, bkp, hash, x)
    ensures NoDuplicates(updatedFiles)
  {
    updatedFiles := [];
    var remaining := commonFiles;
    while remaining != {}
      invariant remaining <= commonFiles
      invariant forall x :: x in updatedFiles ==> x in commonFiles - remaining && HashesDiffer(src, bkp, hash, x)
      invariant forall x :: x in commonFiles - remaining && HashesDiffer(src, bkp, hash, x) ==> x in updatedFiles
      invariant NoDuplicates(updatedFiles)
      decreases |remaining|
    {
      var relPath :| relPath in remaining;
      if hash(src.files[Parse(relPath)]) != hash(bkp.files[Parse(relPath)]) {
        NoDuplicatesAppend(updatedFiles, relPath);
        updatedFiles := updatedFiles + [relPath];
      }
      remaining := remaining - {relPath};
    }
  }

  /** `directory_diff(source, backup)`. */
  method DirectoryDiff(src: Tree, bkp: Tree, hash: Bytes -> Digest) returns (diff: ChangeSet)
    requires src.WellFormed() && bkp.WellFormed()
    ensures diff == Changes(src, bkp, hash)
  {
    var srcFiles, srcDirs := AllFilesAndDirs(src);
    var bkpFiles, bkpDirs := AllFilesAndDirs(bkp);

    var createdFiles := srcFiles - bkpFiles;
    var deletedFiles := bkpFiles - srcFiles;
    var commonFiles := srcFiles * bkpFiles;

    ChangesFromStrings(src, bkp, hash);
    var updatedFiles := CollectUpdated(src, bkp, hash, commonFiles);
    var updatedSet := set x | x in updatedFiles;
    assert updatedSet == set x | x in commonFiles && HashesDiffer(src, bkp, hash, x);

    var createdDirs := srcDirs - bkpDirs;
    var deletedDirs := bkpDirs - srcDirs;
    // `sorted(updated_files)`: the list has no duplicates, so its sorted
    // rearrangement is the sorted list of its elements.
    assert multiset(SortedSet(updatedSet)) == multiset(updatedFiles) by {
      SortedDistinctList(updatedFiles);
    }
    diff := ChangeSet(
      SortedSet(createdFiles),
      SortedSet(deletedFiles),
      SortedSet(updatedSet),
      SortedSet(createdDirs),
      SortedSet(deletedDirs));
  }

  /** The diff classifies files as a partition: created are the source's
      files missing from the backup, deleted the backup's files missing from
      the source, updated only files in both; no file is in two lists, and
      every list is strictly sorted (so free of duplicates). */
  lemma FilesPartition(src: Tree, bkp: Tree, hash: Bytes -> Digest)
    requires src.WellFormed() && bkp.WellFormed()
    ensures var d := Changes(src, bkp, hash);
      && (forall x :: x in d.createdFiles <==> x in FileNames(src) && x !in FileNames(bkp))
      && (forall x :: x in d.deletedFiles <==> x in FileNames(bkp) && x !in FileNames(src))
      && (forall x :: x in d.updatedFiles ==> x in FileNames(src) && x in FileNames(bkp))
      && StrictlySorted(d.createdFiles) && StrictlySorted(d.deletedFiles) && StrictlySorted(d.updatedFiles)
  {
    FileStringsAlgebra(src.files.Keys, bkp.files.Keys);
    FileStringsAlgebra(bkp.files.Keys, src.files.Keys);
    ChangedStrings(src, bkp, hash);
  }

  /** A file in both trees is reported as updated exactly when the hashes of
      its source content and its backup content differ. */
  lemma UpdatedIffHashesDiffer(src: Tree, bkp: Tree, hash: Bytes -> Digest, x: string)
    requires src.WellFormed() && bkp.WellFormed()
    requires x in FileNames(src) && x in FileNames(bkp)
    ensures Parse(x) in src.files && Parse(x) in bkp.files
    ensures x in Changes(src, bkp, hash).updatedFiles
        <==> hash(src.files[Parse(x)]) != hash(bkp.files[Parse(x)])
  {
    ChangedStrings(src, bkp, hash);
  }

  /** Created directories are the source's directories missing from the
      backup, deleted ones the backup's missing from the source, both sorted. */
  lemma DirsPartition(src: Tree, bkp: Tree, hash: Bytes -> Digest)
    requires src.WellFormed() && bkp.WellFormed()
    ensures var d := Changes(src, bkp, hash);
      && (forall x :: x in d.createdDirs <==> x in DirNames(src) && x !in DirNames(bkp))
      && (forall x :: x in d.deletedDirs <==> x in DirNames(bkp) && x !in DirNames(src))
      && StrictlySorted(d.createdDirs) && StrictlySorted(d.deletedDirs)
  {
    DirStringsAlgebra(src.dirs, bkp.dirs);
    DirStringsAlgebra(bkp.dirs, src.dirs);
  }

  /** The backup mirrors the source: the same files, the same directories,
      and every file's two contents hash alike. */
  ghost predicate Mirrors(src: Tree, bkp: Tree, hash: Bytes -> Digest) {
    && bkp.files.Keys == src.files.Keys
    && bkp.dirs == src.dirs
    && forall p :: p in src.files && p in bkp.files ==> hash(src.files[p]) == hash(bkp.files[p])
  }

  lemma {:induction false} SortedSetEmpty(s: set<string>)
    ensures SortedSet(s) == [] <==> s == {}
  {
    if s != {} {
      var x :| x in s;
      assert x in SortedSet(s);
    }
  }

  /** A sorted list of files is empty exactly when there are no such files. */
  lemma NoFileStrings(s: set<Path>)
    requires forall p :: p in s ==> p != []
    ensures SortedSet(FileStrings(s)) == [] <==> s == {}
  {
    SortedSetEmpty(FileStrings(s));
    if p :| p in s {
      assert RelFile(p) in FileStrings(s);
    }
  }

  /** A sorted list of directories is empty exactly when there are no such
      directories. */
  lemma NoDirStrings(s: set<Path>)
    ensures SortedSet(DirStrings(s)) == [] <==> s == {}
  {
    SortedSetEmpty(DirStrings(s));
    if p :| p in s {
      assert RelDir(p) in DirStrings(s);
    }
  }

  lemma ChangedNone(src: Tree, bkp: Tree, hash: Bytes -> Digest)
    ensures ChangedFiles(src, bkp, hash) == {}
        <==> forall p :: p in src.files && p in bkp.files ==> hash(src.files[p]) == hash(bkp.files[p])
  {
    if p :| p in src.files && p in bkp.files && hash(src.files[p]) != hash(bkp.files[p]) {
      assert p in ChangedFiles(src, bkp, hash);
    }
  }

  /** The diff is empty exactly when the backup mirrors the source. */
  lemma EmptyIffMirrors(src: Tree, bkp: Tree, hash: Bytes -> Digest)
    requires src.WellFormed() && bkp.WellFormed()
    ensures Changes(src, bkp, hash).IsEmpty() <==> Mirrors(src, bkp, hash)
  {
    var d := Changes(src, bkp, hash);
    var newFiles, goneFiles := src.files.Keys - bkp.files.Keys, bkp.files.Keys - src.files.Keys;
    var newDirs, goneDirs := src.dirs - bkp.dirs, bkp.dirs - src.dirs;
    assert (d.createdFiles == []) == (newFiles == {}) by { NoFileStrings(newFiles); }
    assert (d.deletedFiles == []) == (goneFiles == {}) by { NoFileStrings(goneFiles); }
    assert (d.updatedFiles == []) == (ChangedFiles(src, bkp, hash) == {}) by {
      NoFileStrings(ChangedFiles(src, bkp, hash));
    }
    assert (d.createdDirs == []) == (newDirs == {}) by { NoDirStrings(newDirs); }
    assert (d.deletedDirs == []) == (goneDirs == {}) by { NoDirStrings(goneDirs); }
    assert (newFiles == {} && goneFiles == {}) == (bkp.files.Keys == src.files.Keys) by {
      NoDifferences(src.files.Keys, bkp.files.Keys);
    }
    assert (newDirs == {} && goneDirs == {}) == (bkp.dirs == src.dirs) by {
      NoDifferences(src.dirs, bkp.dirs);
    }
    ChangedNone(src, bkp, hash);
  }

  /** Two sets are equal exactly when neither has an element the other lacks. */
  lemma NoDifferences<T>(a: set<T>, b: set<T>)
    ensures (a - b == {} && b - a == {}) == (b == a)
  {
    if a - b == {} && b - a == {} {
      assert a <= b && b <= a;
    }
  }
}
