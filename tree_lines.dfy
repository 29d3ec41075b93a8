/**
 * `print_directory_tree`: one line per entry below a directory, in the
 * order `os.listdir` gives, each directory's entries right after its own
 * line and indented four spaces more. The lines are returned instead of
 * printed.
 */
module DirectoryTree {
  import opened Paths
  import opened Trees
  import SyncSteps

  /** The indentation added for each level. */
  const Indent := "    "

  /** What `os.listdir` returns for each directory of `t`, in its own order:
      the names of the entries of `d`, each once, in any order. */
  ghost predicate Listing(t: Tree, listdir: Path -> seq<Name>) {
    forall d :: d in t.dirs ==>
      && (forall i, j :: 0 <= i < j < |listdir(d)| ==> listdir(d)[i] != listdir(d)[j])
      && (forall n :: n in listdir(d) <==> d + [n] in t.dirs || d + [n] in t.files)
  }

  /** The entries strictly below `d`. */
  function Below(t: Tree, d: Path): set<Path> {
    set q | q in t.dirs + t.files.Keys && |q| > |d| && q[..|d|] == d
  }

  /** The entries below `d` whose first component under `d` is one of `items`. */
  function BelowVia(t: Tree, d: Path, items: seq<Name>): set<Path> {
    set q | q in Below(t, d) && q[|d|] in items
  }

  /** `k` levels of indentation. */
  function Spaces(k: nat): string {
    if k == 0 then "" else Indent + Spaces(k - 1)
  }

  /** How the walk from `d`, started with `indent`, prints the entry `q`
      below `d`: indented by its depth, with `/` after a directory. */
  function Render(t: Tree, d: Path, indent: string, q: Path): string
    requires |q| > |d|
  {
    indent + Spaces(|q| - |d| - 1) + Last(q) + (if q in t.dirs then "/" else "")
  }


  /** A subdirectory has fewer entries below it, which bounds the recursion. */
  lemma BelowShrinks(t: Tree, d: Path, n: Name)
    requires d + [n] in t.dirs
    ensures |Below(t, d + [n])| < |Below(t, d)|
  {
    var c := d + [n];
    assert c[..|d|] == d;
    forall q | q in Below(t, c)
      ensures q in Below(t, d)
    {
      assert q[..|d|] == q[..|c|][..|d|];
    }
    assert c in Below(t, d) - Below(t, c);
    assert Below(t, d) == Below(t, c) + (Below(t, d) - Below(t, c));
  }

  /** `print_directory_tree(d, indent)`. */
  function DirLines(t: Tree, listdir: Path -> seq<Name>, d: Path, indent: string): seq<string>
    decreases |Below(t, d)|, 1, 0
  {
    EntryLines(t, listdir, d, listdir(d), indent)
  }

  /** The loop of `print_directory_tree(d, indent)` over `items`. */
  function EntryLines(t: Tree, listdir: Path -> seq<Name>, d: Path, items: seq<Name>, indent: string): seq<string>
    decreases |Below(t, d)|, 0, |items|
  {
    if items == [] then []
    else
      var item := items[0];
      var full := d + [item];
      if full in t.dirs then
        BelowShrinks(t, d, item);
        [indent + item + "/"] + DirLines(t, listdir, full, indent + Indent)
          + EntryLines(t, listdir, d, items[1..], indent)
      else
        [indent + item] + EntryLines(t, listdir, d, items[1..], indent)
  }

  // ---------------------------------------------------------------------
  // Facts the proof of the walk relies on.

  /** Every ancestor of an entry of a tree is a directory of the tree. */
  lemma AncestorIsDir(t: Tree, q: Path, k: nat)
    requires t.WellFormed() && q in t.dirs + t.files.Keys && k < |q|
    ensures q[..k] in t.dirs
  {
    var dir := if q in t.dirs then q else Parent(q);
    SyncSteps.PrefixesInTree(t, dir);
    assert q[..k] == dir[..k];
  }

  /** Below `d`, the entries reached through the first item are that item,
      and, if it is a directory, everything below it. */
  lemma BelowViaSplit(t: Tree, d: Path, items: seq<Name>)
    requires t.WellFormed() && items != []
    requires d + [items[0]] in t.dirs + t.files.Keys && items[0] !in items[1..]
    ensures var c := d + [items[0]];
      && BelowVia(t, d, items)
         == {c} + (if c in t.dirs then Below(t, c) else {}) + BelowVia(t, d, items[1..])
      && c !in Below(t, c)
      && ({c} + Below(t, c)) * BelowVia(t, d, items[1..]) == {}
  {
    var c := d + [items[0]];
    assert c[..|d|] == d;
    forall q | q in BelowVia(t, d, items)
      ensures q in {c} + (if c in t.dirs then Below(t, c) else {}) + BelowVia(t, d, items[1..])
    {
      if q[|d|] == items[0] && q != c {
        assert q[..|c|] == c;
        AncestorIsDir(t, q, |c|);
      } else if q[|d|] != items[0] {
        assert q[|d|] in items[1..];
      }
    }
    forall q | q in Below(t, c) && c in t.dirs
      ensures q in BelowVia(t, d, items)
    {
      assert q[..|d|] == q[..|c|][..|d|];
      assert q[|d|] == q[..|c|][|d|];
    }
    forall q | q in Below(t, c)
      ensures q[|d|] == items[0]
    {
      assert q[|d|] == q[..|c|][|d|];
    }
  }

  /** With a faithful listing, the entries reached through `listdir(d)` are
      all the entries below `d`. */
  lemma BelowViaAll(t: Tree, listdir: Path -> seq<Name>, d: Path)
    requires t.WellFormed() && Listing(t, listdir) && d in t.dirs
    ensures BelowVia(t, d, listdir(d)) == Below(t, d)
  {
    forall q | q in Below(t, d)
      ensures q[|d|] in listdir(d)
    {
      var c := q[..|d| + 1];
      if |q| > |d| + 1 {
        AncestorIsDir(t, q, |d| + 1);
      } else {
        assert c == q;
      }
      assert c == d + [q[|d|]];
    }
  }

  /** The entry at position `j` of a listing is an entry of the tree, and it
      is not listed again later. */
  lemma ListedEntry(t: Tree, listdir: Path -> seq<Name>, d: Path, j: nat)
    requires Listing(t, listdir) && d in t.dirs && j < |listdir(d)|
    ensures d + [listdir(d)[j]] in t.dirs + t.files.Keys
    ensures listdir(d)[j] !in listdir(d)[j + 1..]
  {
    assert listdir(d)[j] in listdir(d);
    forall k | j + 1 <= k < |listdir(d)|
      ensures listdir(d)[k] != listdir(d)[j]
    {
    }
  }

  /** An entry directly in `d` prints as its name, with `/` after a
      directory. */
  lemma RenderEntry(t: Tree, d: Path, indent: string, n: Name)
    ensures Render(t, d, indent, d + [n]) == (if d + [n] in t.dirs then indent + n + "/" else indent + n)
  {
    assert Spaces(0) == "";
    assert indent + "" == indent;
    assert indent + n + "" == indent + n;
  }

  // ---------------------------------------------------------------------
  // The order of the walk.

  /** The entries below `d` in the order the walk from `d` reaches them. */
  ghost function Entries(t: Tree, listdir: Path -> seq<Name>, d: Path): seq<Path>
    decreases |Below(t, d)|, 1, 0
  {
    ListedEntries(t, listdir, d, listdir(d))
  }

  /** The entries the loop over `items` reaches: each item, and right after
      a directory item, the entries the walk into it reaches. */
  ghost function ListedEntries(t: Tree, listdir: Path -> seq<Name>, d: Path, items: seq<Name>): seq<Path>
    decreases |Below(t, d)|, 0, |items|
  {
    if items == [] then []
    else
      var full := d + [items[0]];
      if full in t.dirs then
        BelowShrinks(t, d, items[0]);
        [full] + Entries(t, listdir, full) + ListedEntries(t, listdir, d, items[1..])
      else
        [full] + ListedEntries(t, listdir, d, items[1..])
  }

  /** `q` lies strictly below `p`. */
  ghost predicate IsBelow(q: Path, p: Path) {
    |q| > |p| && q[..|p|] == p
  }

  /** Neither of two entries is the other or lies below it. */
  ghost predicate Apart(x: Path, y: Path) {
    x != y && !IsBelow(x, y) && !IsBelow(y, x)
  }

  /** No entry occurs twice. */
  ghost predicate Distinct(es: seq<Path>) {
    forall i, j :: 0 <= i < j < |es| ==> es[i] != es[j]
  }

  /** An entry comes after every entry it lies below. */
  ghost predicate AncestorsFirst(es: seq<Path>) {
    forall i, j :: 0 <= i < |es| && 0 <= j < |es| && IsBelow(es[j], es[i]) ==> i < j
  }

  /** Whatever comes between an entry and something below it lies below it
      too, so all that lies below an entry comes in one block. */
  ghost predicate InBlocks(es: seq<Path>) {
    forall i, k, j :: 0 <= i < k < j < |es| && IsBelow(es[j], es[i]) ==> IsBelow(es[k], es[i])
  }

  /** Depth-first order: all that lies below an entry comes in one block
      right after it. */
  ghost predicate DepthFirst(es: seq<Path>) {
    AncestorsFirst(es) && InBlocks(es)
  }

  /** `es` reaches every entry of `s` exactly once, depth first. */
  ghost predicate Visits(es: seq<Path>, s: set<Path>) {
    Distinct(es) && DepthFirst(es) && forall q :: q in es <==> q in s
  }

  /** Line `i` of `lines` is how the walk from `d` with `indent` prints the
      entry `es[i]`. */
  ghost predicate PrintsAs(lines: seq<string>, t: Tree, d: Path, indent: string, es: seq<Path>) {
    && |lines| == |es|
    && forall i :: 0 <= i < |es| ==> |es[i]| > |d| && lines[i] == Render(t, d, indent, es[i])
  }

  /** Two entries that differ at some position are apart. */
  lemma DifferApart(x: Path, y: Path, k: nat)
    requires k < |x| && k < |y| && x[k] != y[k]
    ensures Apart(x, y)
  {
    if |x| > |y| {
      assert x[..|y|][k] == x[k];
    }
    if |y| > |x| {
      assert y[..|x|][k] == y[k];
    }
  }

  /** An entry followed by a depth-first walk of what lies below it. */
  lemma VisitsHead(c: Path, es: seq<Path>, s: set<Path>)
    requires Visits(es, s) && forall q :: q in s ==> IsBelow(q, c)
    ensures Visits([c] + es, {c} + s)
  {
    var e := [c] + es;
    forall i | 1 <= i < |e|
      ensures e[i] == es[i - 1] && IsBelow(e[i], c)
    {
    }
    assert Distinct(e) by {
      forall i, j | 0 <= i < j < |e|
        ensures e[i] != e[j]
      {
        if i > 0 {
          assert es[i - 1] != es[j - 1];
        }
      }
    }
    assert AncestorsFirst(e) by {
      HeadAncestorsFirst(c, es);
    }
    assert InBlocks(e) by {
      HeadInBlocks(c, es);
    }
    forall q
      ensures q in e <==> q in {c} + s
    {
      assert q in e <==> q == c || q in es;
    }
  }

  lemma HeadAncestorsFirst(c: Path, es: seq<Path>)
    requires AncestorsFirst(es) && forall i :: 0 <= i < |es| ==> IsBelow(es[i], c)
    ensures AncestorsFirst([c] + es)
  {
    var e := [c] + es;
    forall i, j | 0 <= i < |e| && 0 <= j < |e| && IsBelow(e[j], e[i])
      ensures i < j
    {
      if j == 0 {
        assert false;
      } else if i > 0 {
        assert IsBelow(es[j - 1], es[i - 1]);
      }
    }
  }

  lemma HeadInBlocks(c: Path, es: seq<Path>)
    requires InBlocks(es) && forall i :: 0 <= i < |es| ==> IsBelow(es[i], c)
    ensures InBlocks([c] + es)
  {
    var e := [c] + es;
    forall i, k, j | 0 <= i < k < j < |e| && IsBelow(e[j], e[i])
      ensures IsBelow(e[k], e[i])
    {
      if i > 0 {
        assert IsBelow(es[j - 1], es[i - 1]);
      } else {
        assert e[k] == es[k - 1];
      }
    }
  }

  /** Two walks of entries apart from each other, one after the other. */
  lemma VisitsAppend(a: seq<Path>, b: seq<Path>, sa: set<Path>, sb: set<Path>)
    requires Visits(a, sa) && Visits(b, sb)
    requires forall x, y :: x in sa && y in sb ==> Apart(x, y)
    ensures Visits(a + b, sa + sb)
  {
    var e := a + b;
    assert forall i, j :: 0 <= i < |a| && 0 <= j < |b| ==> Apart(a[i], b[j]);
    DistinctAppend(a, b);
    AncestorsFirstAppend(a, b);
    InBlocksAppend(a, b);
    forall q
      ensures q in e <==> q in sa + sb
    {
      assert q in e <==> q in a || q in b;
    }
  }

  lemma DistinctAppend(a: seq<Path>, b: seq<Path>)
    requires Distinct(a) && Distinct(b)
    requires forall i, j :: 0 <= i < |a| && 0 <= j < |b| ==> Apart(a[i], b[j])
    ensures Distinct(a + b)
  {
    var e := a + b;
    forall i, j | 0 <= i < j < |e|
      ensures e[i] != e[j]
    {
      if j < |a| {
        assert e[i] == a[i] && e[j] == a[j];
      } else if i >= |a| {
        assert e[i] == b[i - |a|] && e[j] == b[j - |a|];
      } else {
        assert Apart(a[i], b[j - |a|]);
      }
    }
  }

  lemma AncestorsFirstAppend(a: seq<Path>, b: seq<Path>)
    requires AncestorsFirst(a) && AncestorsFirst(b)
    requires forall i, j :: 0 <= i < |a| && 0 <= j < |b| ==> Apart(a[i], b[j])
    ensures AncestorsFirst(a + b)
  {
    var e := a + b;
    forall i, j | 0 <= i < |e| && 0 <= j < |e| && IsBelow(e[j], e[i])
      ensures i < j
    {
      if i < |a| && j < |a| {
        assert e[i] == a[i] && e[j] == a[j];
      } else if i >= |a| && j >= |a| {
        assert e[i] == b[i - |a|] && e[j] == b[j - |a|];
      } else if j < |a| {
        assert false;
      }
    }
  }

  lemma InBlocksAppend(a: seq<Path>, b: seq<Path>)
    requires InBlocks(a) && InBlocks(b)
    requires forall i, j :: 0 <= i < |a| && 0 <= j < |b| ==> Apart(a[i], b[j])
    ensures InBlocks(a + b)
  {
    var e := a + b;
    forall i, k, j | 0 <= i < k < j < |e| && IsBelow(e[j], e[i])
      ensures IsBelow(e[k], e[i])
    {
      if j < |a| {
        assert e[i] == a[i] && e[k] == a[k] && e[j] == a[j];
      } else if i >= |a| {
        assert e[i] == b[i - |a|] && e[k] == b[k - |a|] && e[j] == b[j - |a|];
      } else {
        assert false;
      }
    }
  }

  /** What the loop reaches through its first item is apart from what it
      reaches through the others. */
  lemma FirstItemApart(t: Tree, d: Path, items: seq<Name>)
    requires items != [] && items[0] !in items[1..]
    ensures var c := d + [items[0]];
      forall x, y :: x in {c} + Below(t, c) && y in BelowVia(t, d, items[1..]) ==> Apart(x, y)
  {
    var c := d + [items[0]];
    forall x, y | x in {c} + Below(t, c) && y in BelowVia(t, d, items[1..])
      ensures Apart(x, y)
    {
      if x != c {
        assert x[|d|] == x[..|c|][|d|];
      }
      DifferApart(x, y, |d|);
    }
  }

  /** Printed lines side by side. */
  lemma PrintsAsAppend(a: seq<string>, b: seq<string>, t: Tree, d: Path, indent: string, ea: seq<Path>, eb: seq<Path>)
    requires PrintsAs(a, t, d, indent, ea) && PrintsAs(b, t, d, indent, eb)
    ensures PrintsAs(a + b, t, d, indent, ea + eb)
  {
    forall i | 0 <= i < |ea + eb|
      ensures |(ea + eb)[i]| > |d| && (a + b)[i] == Render(t, d, indent, (ea + eb)[i])
    {
      if i < |ea| {
        assert (a + b)[i] == a[i] && (ea + eb)[i] == ea[i];
      } else {
        assert (a + b)[i] == b[i - |a|] && (ea + eb)[i] == eb[i - |ea|];
      }
    }
  }

  /** An entry below a subdirectory prints the same from the subdirectory
      with one more level of indentation. */
  lemma PrintsAsChild(lines: seq<string>, t: Tree, d: Path, n: Name, indent: string, es: seq<Path>)
    requires PrintsAs(lines, t, d + [n], indent + Indent, es)
    ensures PrintsAs(lines, t, d, indent, es)
  {
    forall i | 0 <= i < |es|
      ensures lines[i] == Render(t, d, indent, es[i])
    {
      assert Spaces(|es[i]| - |d| - 1) == Indent + Spaces(|es[i]| - |d| - 2);
    }
  }

  // ---------------------------------------------------------------------
  // What the walk prints.

  /** `print_directory_tree(d, indent)` prints line by line the entries in
      the order the walk reaches them, each indented by its depth below
      `d`, with `/` after a directory. */
  lemma {:induction false} DirLinesPrint(t: Tree, listdir: Path -> seq<Name>, d: Path, indent: string)
    ensures PrintsAs(DirLines(t, listdir, d, indent), t, d, indent, Entries(t, listdir, d))
    decreases |Below(t, d)|, 1, 0
  {
    EntryLinesPrint(t, listdir, d, listdir(d), indent);
  }

  /** The loop of `print_directory_tree(d, indent)` over `items` prints
      line by line the entries it reaches. */
  lemma {:induction false} EntryLinesPrint(t: Tree, listdir: Path -> seq<Name>, d: Path, items: seq<Name>, indent: string)
    ensures PrintsAs(EntryLines(t, listdir, d, items, indent), t, d, indent, ListedEntries(t, listdir, d, items))
    decreases |Below(t, d)|, 0, |items|
  {
    if items != [] {
      var c := d + [items[0]];
      var head := if c in t.dirs then indent + items[0] + "/" else indent + items[0];
      var rest := EntryLines(t, listdir, d, items[1..], indent);
      var restEntries := ListedEntries(t, listdir, d, items[1..]);
      EntryLinesPrint(t, listdir, d, items[1..], indent);
      assert PrintsAs([head], t, d, indent, [c]) by {
        RenderEntry(t, d, indent, items[0]);
      }
      if c in t.dirs {
        BelowShrinks(t, d, items[0]);
        var inner := DirLines(t, listdir, c, indent + Indent);
        var innerEntries := Entries(t, listdir, c);
        DirLinesPrint(t, listdir, c, indent + Indent);
        PrintsAsChild(inner, t, d, items[0], indent, innerEntries);
        PrintsAsAppend([head], inner, t, d, indent, [c], innerEntries);
        PrintsAsAppend([head] + inner, rest, t, d, indent, [c] + innerEntries, restEntries);
        assert EntryLines(t, listdir, d, items, indent) == [head] + inner + rest;
      } else {
        PrintsAsAppend([head], rest, t, d, indent, [c], restEntries);
      }
    }
  }

  /** With a faithful listing, the walk from a directory `d` reaches every
      entry below `d` exactly once, depth first. */
  lemma {:induction false} EntriesVisit(t: Tree, listdir: Path -> seq<Name>, d: Path)
    requires t.WellFormed() && Listing(t, listdir) && d in t.dirs
    ensures Visits(Entries(t, listdir, d), Below(t, d))
    decreases |Below(t, d)|, 1, 0
  {
    ListedEntriesVisit(t, listdir, d, 0);
    assert listdir(d)[0..] == listdir(d);
    BelowViaAll(t, listdir, d);
  }

  /** The loop over the entries of `d` from position `j` of its listing
      reaches, depth first and each once, the entries below the items it
      has left. */
  lemma {:induction false} ListedEntriesVisit(t: Tree, listdir: Path -> seq<Name>, d: Path, j: nat)
    requires t.WellFormed() && Listing(t, listdir) && d in t.dirs && j <= |listdir(d)|
    ensures Visits(ListedEntries(t, listdir, d, listdir(d)[j..]), BelowVia(t, d, listdir(d)[j..]))
    decreases |Below(t, d)|, 0, |listdir(d)| - j
  {
    var items := listdir(d)[j..];
    if items == [] {
      assert BelowVia(t, d, items) == {};
    } else {
      var c := d + [items[0]];
      var rest := ListedEntries(t, listdir, d, items[1..]);
      var restSet := BelowVia(t, d, items[1..]);
      assert items[1..] == listdir(d)[j + 1..];
      ListedEntriesVisit(t, listdir, d, j + 1);
      ListedEntry(t, listdir, d, j);
      var sub := if c in t.dirs then Below(t, c) else {};
      assert BelowVia(t, d, items) == {c} + sub + restSet by {
        BelowViaSplit(t, d, items);
      }
      assert forall x, y :: x in {c} + sub && y in restSet ==> Apart(x, y) by {
        FirstItemApart(t, d, items);
      }
      if c in t.dirs {
        BelowShrinks(t, d, items[0]);
        var inner := Entries(t, listdir, c);
        EntriesVisit(t, listdir, c);
        assert forall q :: q in sub ==> IsBelow(q, c);
        VisitsHead(c, inner, sub);
        VisitsAppend([c] + inner, rest, {c} + sub, restSet);
        assert ListedEntries(t, listdir, d, items) == [c] + inner + rest;
      } else {
        VisitsHead(c, [], {});
        VisitsAppend([c], rest, {c}, restSet);
        assert ListedEntries(t, listdir, d, items) == [c] + rest;
      }
    }
  }

  /** From a directory `d`, with a faithful listing: line `i` is the `i`-th
      entry the walk reaches, indented by its depth below `d` with `/` after
      a directory, and the walk reaches every entry below `d` exactly once,
      each directory's contents in one block right after its own line. */
  lemma DirLinesDescribe(t: Tree, listdir: Path -> seq<Name>, d: Path, indent: string)
    requires t.WellFormed() && Listing(t, listdir) && d in t.dirs
    ensures PrintsAs(DirLines(t, listdir, d, indent), t, d, indent, Entries(t, listdir, d))
    ensures Visits(Entries(t, listdir, d), Below(t, d))
  {
    DirLinesPrint(t, listdir, d, indent);
    EntriesVisit(t, listdir, d);
  }

  /** A sequence without repetitions has as many elements as its set. */
  lemma {:induction false} DistinctCount(es: seq<Path>)
    requires Distinct(es)
    ensures |set q | q in es| == |es|
  {
    if es != [] {
      var rest := es[1..];
      assert Distinct(rest) by {
        forall i, j | 0 <= i < j < |rest|
          ensures rest[i] != rest[j]
        {
          assert rest[i] == es[i + 1] && rest[j] == es[j + 1];
        }
      }
      DistinctCount(rest);
      assert es[0] !in rest by {
        forall i | 0 <= i < |rest|
          ensures rest[i] != es[0]
        {
          assert rest[i] == es[i + 1];
        }
      }
      assert (set q | q in es) == {es[0]} + (set q | q in rest) by {
        assert es == [es[0]] + rest;
      }
    }
  }

  /** The walk from the top of a tree prints one line per file and per
      directory other than the top itself. */
  lemma TreeLineCount(t: Tree, listdir: Path -> seq<Name>)
    requires t.WellFormed() && Listing(t, listdir)
    ensures |DirLines(t, listdir, [], "")| == |t.dirs - {[]}| + |t.files|
  {
    var es := Entries(t, listdir, []);
    DirLinesDescribe(t, listdir, [], "");
    DistinctCount(es);
    assert (set q | q in es) == Below(t, []);
    BelowRoot(t);
  }

  /** Below the top are all files and all directories but the top. */
  lemma BelowRoot(t: Tree)
    requires t.WellFormed()
    ensures |Below(t, [])| == |t.dirs - {[]}| + |t.files|
  {
    forall q | q in t.dirs + t.files.Keys
      ensures q in Below(t, []) <==> q != []
    {
    }
    assert Below(t, []) == (t.dirs - {[]}) + t.files.Keys;
    assert (t.dirs - {[]}) * t.files.Keys == {};
  }
}
