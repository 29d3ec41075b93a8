/**
 * Directory trees and their enumeration (`get_all_files_and_dirs`).
 * A tree is the set of its directories and a map from each file to its
 * content, both keyed by component paths from the tree's root.
 */
module Trees {
  import opened Paths

  type Bytes = seq<bv8>

  /** What `file_hash` returns: a hex digest. */
  type Digest = string

  datatype Tree = Tree(dirs: set<Path>, files: map<Path, Bytes>) {

    /** What every directory tree on disk satisfies: the root exists, every
        entry lies in an existing directory, and no path is both a file and
        a directory. */
    ghost predicate WellFormed() {
      && [] in dirs
      && (forall d :: d in dirs ==> ValidPath(d))
      && (forall d :: d in dirs && d != [] ==> Parent(d) in dirs)
      && (forall f :: f in files ==> f != [] && ValidPath(f) && Parent(f) in dirs && f !in dirs)
    }
  }

  /** The strings under which enumeration reports a set of files. */
  function FileStrings(s: set<Path>): set<string> {
    set f | f in s && f != [] :: RelFile(f)
  }

  /** The strings under which enumeration reports a set of directories. */
  function DirStrings(s: set<Path>): set<string> {
    set d | d in s :: RelDir(d)
  }

  /** The file set `get_all_files_and_dirs` reports for `t`. */
  function FileNames(t: Tree): set<string> {
    FileStrings(t.files.Keys)
  }

  /** The directory set `get_all_files_and_dirs` reports for `t`. */
  function DirNames(t: Tree): set<string> {
    DirStrings(t.dirs)
  }

  ghost predicate ValidFiles(s: set<Path>) {
    forall f :: f in s ==> f != [] && ValidPath(f)
  }

  ghost predicate ValidDirs(s: set<Path>) {
    forall d :: d in s ==> ValidPath(d)
  }

  /** Every reported file string names exactly one file of the set. */
  lemma FileStringsResolve(s: set<Path>)
    requires ValidFiles(s)
    ensures forall x :: x in FileStrings(s) ==> Parse(x) in s && Parse(x) != [] && RelFile(Parse(x)) == x
  {
    forall x | x in FileStrings(s)
      ensures Parse(x) in s && Parse(x) != [] && RelFile(Parse(x)) == x
    {
      var f :| f in s && f != [] && RelFile(f) == x;
      ParseRelFile(f);
    }
  }

  /** Every reported directory string names exactly one directory of the set. */
  lemma DirStringsResolve(s: set<Path>)
    requires ValidDirs(s)
    ensures forall x :: x in DirStrings(s) ==> Parse(x) in s && RelDir(Parse(x)) == x
  {
    forall x | x in DirStrings(s)
      ensures Parse(x) in s && RelDir(Parse(x)) == x
    {
      var d :| d in s && RelDir(d) == x;
      ParseRelDir(d);
    }
  }

  /** Because file strings resolve back to their paths, the set algebra the
      engine does on strings is the set algebra of the paths. */
  lemma FileStringsAlgebra(a: set<Path>, b: set<Path>)
    requires ValidFiles(a) && ValidFiles(b)
    ensures FileStrings(a) - FileStrings(b) == FileStrings(a - b)
    ensures FileStrings(a) * FileStrings(b) == FileStrings(a * b)
  {
    FileStringsResolve(a);
    FileStringsResolve(b);
    FileStringsResolve(a - b);
    FileStringsResolve(a * b);
    forall x | x in FileStrings(a) - FileStrings(b)
      ensures x in FileStrings(a - b)
    {
      var f := Parse(x);
      assert f in a - b && RelFile(f) == x;
    }
    forall x | x in FileStrings(a) * FileStrings(b)
      ensures x in FileStrings(a * b)
    {
      var f := Parse(x);
      assert f in a * b && RelFile(f) == x;
    }
  }

  lemma DirStringsAlgebra(a: set<Path>, b: set<Path>)
    requires ValidDirs(a) && ValidDirs(b)
    ensures DirStrings(a) - DirStrings(b) == DirStrings(a - b)
  {
    DirStringsResolve(a);
    DirStringsResolve(b);
    DirStringsResolve(a - b);
    forall x | x in DirStrings(a) - DirStrings(b)
      ensures x in DirStrings(a - b)
    {
      var d := Parse(x);
      assert d in a - b && RelDir(d) == x;
    }
  }

  /** Enumeration records the root as ".". */
  lemma RootIsDot(t: Tree)
    requires t.WellFormed()
    ensures "." in DirNames(t)
  {
    assert RelDir([]) == ".";
  }

  /** The directory part of every enumerated file is an enumerated directory. */
  lemma FileDirsEnumerated(t: Tree)
    requires t.WellFormed()
    ensures forall x :: x in FileNames(t) ==> DirName(x) in DirNames(t)
  {
    forall x | x in FileNames(t)
      ensures DirName(x) in DirNames(t)
    {
      var f :| f in t.files && f != [] && RelFile(f) == x;
      DirNameRelFile(f);
      assert Parent(f) in t.dirs;
    }
  }

  /** The files directly inside directory `d`, by name (`filenames` of `os.walk`). */
  function FilesIn(t: Tree, d: Path): set<Name>
    requires t.WellFormed()
  {
    set f | f in t.files && Parent(f) == d :: Last(f)
  }

  /** The files whose directory is not in `pending`. */
  function FilesOutside(t: Tree, pending: set<Path>): set<Path>
    requires t.WellFormed()
  {
    set f | f in t.files && Parent(f) !in pending
  }

  /** The strings `os.path.join(dir, n)` for the names `n` in `names`. */
  function JoinAll(dir: string, names: set<Name>): set<string> {
    set n | n in names :: Join(dir, n)
  }

  lemma JoinAllAdd(dir: string, names: set<Name>, n: Name)
    ensures JoinAll(dir, names + {n}) == JoinAll(dir, names) + {Join(dir, n)}
  {
  }

  lemma VisitDir(t: Tree, pending: set<Path>, d: Path)
    requires t.WellFormed() && d in pending
    ensures FileStrings(FilesOutside(t, pending - {d}))
         == FileStrings(FilesOutside(t, pending)) + JoinAll(RelDir(d), FilesIn(t, d))
  {
    var lhs := FileStrings(FilesOutside(t, pending - {d}));
    var rhs := FileStrings(FilesOutside(t, pending)) + JoinAll(RelDir(d), FilesIn(t, d));
    forall x | x in lhs
      ensures x in rhs
    {
      var f :| f in FilesOutside(t, pending - {d}) && f != [] && RelFile(f) == x;
      if Parent(f) == d {
        assert Last(f) in FilesIn(t, d);
      }
    }
    forall x | x in rhs
      ensures x in lhs
    {
      if x !in FileStrings(FilesOutside(t, pending)) {
        var n :| n in FilesIn(t, d) && x == Join(RelDir(d), n);
        var f :| f in t.files && Parent(f) == d && Last(f) == n;
        assert f in FilesOutside(t, pending - {d}) && RelFile(f) == x;
      }
    }
  }

  lemma DirStringsAdd(s: set<Path>, d: Path)
    ensures DirStrings(s + {d}) == DirStrings(s) + {RelDir(d)}
  {
  }

  /** The inner loop of `get_all_files_and_dirs`: add `os.path.join(relDir, file)`
      for every file name of one directory. */
  method AddFiles(allFiles: set<string>, relDir: string, filenames: set<Name>) returns (result: set<string>)
    ensures result == allFiles + JoinAll(relDir, filenames)
  {
    result := allFiles;
    var remaining := filenames;
    while remaining != {}
      invariant remaining <= filenames
      invariant result == allFiles + JoinAll(relDir, filenames - remaining)
      decreases |remaining|
    {
      var file :| file in remaining;
      result := result + {Join(relDir, file)};
      JoinAllAdd(relDir, filenames - remaining, file);
      assert filenames - (remaining - {file}) == (filenames - remaining) + {file};
      remaining := remaining - {file};
    }
    assert filenames - remaining == filenames;
  }

  /** `get_all_files_and_dirs`: walk every directory of `t` (in any order), add
      its relative string to the directory set and the relative string of
      each file in it to the file set. */
  method AllFilesAndDirs(t: Tree) returns (allFiles: set<string>, allDirs: set<string>)
    requires t.WellFormed()
    ensures allFiles == FileNames(t)
    ensures allDirs == DirNames(t)
  {
    allFiles, allDirs := {}, {};
    var unvisited := t.dirs;
    while unvisited != {}
      invariant unvisited <= t.dirs
      invariant allDirs == DirStrings(t.dirs - unvisited)
      invariant allFiles == FileStrings(FilesOutside(t, unvisited))
      decreases |unvisited|
    {
      var dirpath :| dirpath in unvisited;
      var relDir := RelDir(dirpath);
      allDirs := allDirs + {relDir};
      allFiles := AddFiles(allFiles, relDir, FilesIn(t, dirpath));
      assert allFiles == FileStrings(FilesOutside(t, unvisited - {dirpath})) by {
        VisitDir(t, unvisited, dirpath);
      }
      assert allDirs == DirStrings(t.dirs - (unvisited - {dirpath})) by {
        assert t.dirs - (unvisited - {dirpath}) == (t.dirs - unvisited) + {dirpath};
        DirStringsAdd(t.dirs - unvisited, dirpath);
      }
      unvisited := unvisited - {dirpath};
    }
    assert FilesOutside(t, {}) == t.files.Keys;
  }
}
