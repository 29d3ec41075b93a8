/**
 * Paths inside a tree. A tree addresses its entries by component paths
 * (`[]` is the root); the engine itself speaks in the relative path strings
 * that `os.walk`, `os.path.relpath` and `os.path.join` produce:
 * the root directory is ".", a directory below it is "a/b", a file directly
 * in the root is "./x" and any other file is "a/b/x".
 */
module Paths {
  import opened PathOrder

  /** A directory entry name. */
  type Name = string

  /** The components of a path from the root of a tree. */
  type Path = seq<Name>

  /** What a filesystem allows as an entry name. */
  predicate ValidName(n: Name) {
    n != "" && n != "." && n != ".." && '/' !in n
  }

  predicate ValidPath(p: Path) {
    forall i :: 0 <= i < |p| ==> ValidName(p[i])
  }

  function Parent(p: Path): Path
    requires p != []
  {
    p[..|p| - 1]
  }

  function Last(p: Path): Name
    requires p != []
  {
    p[|p| - 1]
  }

  /** `os.path.join(dir, name)` for a relative, non-empty `dir`. */
  function Join(dir: string, name: Name): string {
    dir + "/" + name
  }

  /** The components of a non-empty path joined by "/". */
  function JoinPath(p: Path): string
    requires p != []
    decreases |p|
  {
    if |p| == 1 then p[0] else Join(JoinPath(Parent(p)), Last(p))
  }

  /** `os.path.relpath(dirpath, root)` for the directory at `p`. */
  function RelDir(p: Path): string {
    if p == [] then "." else JoinPath(p)
  }

  /** `os.path.join(rel_dir, file)` for the file at `p`. */
  function RelFile(p: Path): string
    requires p != []
  {
    Join(RelDir(Parent(p)), Last(p))
  }

  /** `s.split("/")`. */
  function Split(s: string): (parts: seq<string>)
    ensures |parts| >= 1
    decreases |s|
  {
    if s == [] then [""]
    else if s[|s| - 1] == '/' then Split(s[..|s| - 1]) + [""]
    else
      var parts := Split(s[..|s| - 1]);
      parts[..|parts| - 1] + [parts[|parts| - 1] + [s[|s| - 1]]]
  }

  /** The components left once the "." components are resolved away. */
  function DropDots(parts: seq<string>): seq<string>
    decreases |parts|
  {
    if parts == [] then []
    else
      var init := DropDots(parts[..|parts| - 1]);
      if parts[|parts| - 1] == "." then init else init + [parts[|parts| - 1]]
  }

  /** The entry that `os.path.join(root, s)` names, seen from `root`. */
  function Parse(s: string): Path {
    DropDots(Split(s))
  }

  /** `os.path.dirname(s)`: everything before the last "/" (or "" if none). */
  function DirName(s: string): string
    decreases |s|
  {
    if s == [] then []
    else if s[|s| - 1] == '/' then s[..|s| - 1]
    else DirName(s[..|s| - 1])
  }

  lemma {:induction false} SplitName(n: string)
    requires '/' !in n
    ensures Split(n) == [n]
    decreases |n|
  {
    if n != [] {
      assert '/' !in n[..|n| - 1];
      SplitName(n[..|n| - 1]);
      assert n[..|n| - 1] + [n[|n| - 1]] == n;
    }
  }

  lemma {:induction false} SplitJoin(dir: string, n: string)
    requires '/' !in n
    ensures Split(Join(dir, n)) == Split(dir) + [n]
    decreases |n|
  {
    var s := Join(dir, n);
    if n == [] {
      assert s[..|s| - 1] == dir;
    } else {
      var n' := n[..|n| - 1];
      assert s[..|s| - 1] == Join(dir, n');
      assert n' + [n[|n| - 1]] == n;
      SplitJoin(dir, n');
    }
  }

  lemma {:induction false} DirNameJoin(dir: string, n: string)
    requires '/' !in n
    ensures DirName(Join(dir, n)) == dir
    decreases |n|
  {
    var s := Join(dir, n);
    if n == [] {
      assert s[..|s| - 1] == dir;
    } else {
      assert s[..|s| - 1] == Join(dir, n[..|n| - 1]);
      DirNameJoin(dir, n[..|n| - 1]);
    }
  }

  /** A path is its parent with its last name appended. */
  lemma ParentLast(p: Path)
    requires p != []
    ensures Parent(p) + [Last(p)] == p
  {
  }

  lemma {:induction false} SplitJoinPath(p: Path)
    requires p != [] && ValidPath(p)
    ensures Split(JoinPath(p)) == p
    decreases |p|
  {
    if |p| == 1 {
      SplitName(p[0]);
    } else {
      var q, n := Parent(p), Last(p);
      assert ValidPath(q) && '/' !in n by {
        assert ValidName(p[|p| - 1]);
      }
      SplitJoinPath(q);
      SplitJoin(JoinPath(q), n);
      ParentLast(p);
    }
  }

  lemma {:induction false} DropDotsValid(p: Path)
    requires ValidPath(p)
    ensures DropDots(p) == p
    decreases |p|
  {
    if p != [] {
      DropDotsValid(Parent(p));
    }
  }

  /** Resolving the string that enumeration reports for a directory gives
      back that directory. */
  lemma ParseRelDir(p: Path)
    requires ValidPath(p)
    ensures Parse(RelDir(p)) == p
  {
    if p == [] {
      SplitName(".");
      assert DropDots(["."]) == [];
    } else {
      SplitJoinPath(p);
      DropDotsValid(p);
    }
  }

  /** Resolving the string that enumeration reports for a file gives back
      that file. */
  lemma ParseRelFile(p: Path)
    requires p != [] && ValidPath(p)
    ensures Parse(RelFile(p)) == p
  {
    var q := Parent(p);
    SplitJoin(RelDir(q), Last(p));
    if q == [] {
      SplitName(".");
      assert Split(RelFile(p)) == [".", Last(p)];
      assert DropDots([".", Last(p)]) == DropDots(["."]) + [Last(p)];
    } else {
      SplitJoinPath(q);
      DropDotsValid(p);
      assert Split(RelFile(p)) == p;
    }
  }

  /** `os.path.dirname` of a file's string is its directory's string. */
  lemma DirNameRelFile(p: Path)
    requires p != [] && ValidPath(p)
    ensures DirName(RelFile(p)) == RelDir(Parent(p))
  {
    DirNameJoin(RelDir(Parent(p)), Last(p));
  }

  /** The string of a subdirectory extends the string of its parent, so the
      parent sorts first and a reverse-sorted walk meets the child first. */
  lemma ChildDirSortsAfter(p: Path)
    requires |p| >= 2
    ensures Less(RelDir(Parent(p)), RelDir(p))
  {
    PrefixLess(RelDir(Parent(p)), "/" + Last(p));
    assert RelDir(p) == RelDir(Parent(p)) + ("/" + Last(p));
  }
}
