/**
 * The order in which the engine reports paths: Python's `sorted` on `str`,
 * i.e. lexicographic comparison of code points, and the sorted list of a set.
 */
module PathOrder {

  /** `a < b` on Python strings: lexicographic by code point, a proper prefix first. */
  predicate Less(a: string, b: string)
    decreases |a|
  {
    if |a| == 0 then |b| > 0
    else if |b| == 0 then false
    else if a[0] != b[0] then a[0] < b[0]
    else Less(a[1..], b[1..])
  }

  lemma {:induction false} LessIrreflexive(a: string)
    ensures !Less(a, a)
    decreases |a|
  {
    if |a| > 0 {
      LessIrreflexive(a[1..]);
    }
  }

  lemma {:induction false} LessAsymmetric(a: string, b: string)
    requires Less(a, b)
    ensures !Less(b, a)
    decreases |a|
  {
    if |a| > 0 && |b| > 0 && a[0] == b[0] {
      LessAsymmetric(a[1..], b[1..]);
    }
  }

  lemma {:induction false} LessTransitive(a: string, b: string, c: string)
    requires Less(a, b) && Less(b, c)
    ensures Less(a, c)
    decreases |a|
  {
    if |a| > 0 && a[0] == b[0] && b[0] == c[0] {
      LessTransitive(a[1..], b[1..], c[1..]);
    }
  }

  lemma {:induction false} LessTotal(a: string, b: string)
    ensures a == b || Less(a, b) || Less(b, a)
    decreases |a|
  {
    if |a| > 0 && |b| > 0 && a[0] == b[0] {
      LessTotal(a[1..], b[1..]);
      if a[1..] == b[1..] {
        assert a == [a[0]] + a[1..] && b == [b[0]] + b[1..];
      }
    }
  }

  /** A string comes before every longer string that extends it; this is why
      a directory sorts before everything inside it. */
  lemma {:induction false} PrefixLess(a: string, s: string)
    requires s != []
    ensures Less(a, a + s)
    decreases |a|
  {
    if |a| > 0 {
      assert (a + s)[1..] == a[1..] + s;
      PrefixLess(a[1..], s);
    }
  }

  /** Strictly increasing, hence also free of duplicates. */
  ghost predicate StrictlySorted(xs: seq<string>) {
    forall i, j :: 0 <= i < j < |xs| ==> Less(xs[i], xs[j])
  }

  predicate IsMinimum(m: string, s: set<string>) {
    m in s && forall y :: y in s && y != m ==> Less(m, y)
  }

  lemma {:induction false} MinimumExists(s: set<string>)
    requires s != {}
    ensures exists m :: IsMinimum(m, s)
    decreases |s|
  {
    var x :| x in s;
    if s == {x} {
      assert IsMinimum(x, s);
    } else {
      MinimumExists(s - {x});
      var m :| IsMinimum(m, s - {x});
      LessTotal(m, x);
      if Less(m, x) {
        assert IsMinimum(m, s);
      } else {
        forall y | y in s && y != x
          ensures Less(x, y)
        {
          if y != m {
            LessTransitive(x, m, y);
          }
        }
        assert IsMinimum(x, s);
      }
    }
  }

  lemma MinimumUnique(s: set<string>)
    ensures forall m1, m2 :: IsMinimum(m1, s) && IsMinimum(m2, s) ==> m1 == m2
  {
    forall m1, m2 | IsMinimum(m1, s) && IsMinimum(m2, s)
      ensures m1 == m2
    {
      if m1 != m2 {
        LessAsymmetric(m1, m2);
      }
    }
  }

  /** The least element of a non-empty set of strings. */
  function Minimum(s: set<string>): (m: string)
    requires s != {}
    ensures m in s
    ensures forall y :: y in s && y != m ==> Less(m, y)
  {
    MinimumExists(s);
    MinimumUnique(s);
    var m :| IsMinimum(m, s); m
  }

  /** `sorted(s)` for a set `s`: every element exactly once, in increasing order. */
  function SortedSet(s: set<string>): (r: seq<string>)
    ensures StrictlySorted(r)
    ensures |r| == |s|
    ensures forall x :: x in r <==> x in s
    decreases |s|
  {
    if s == {} then []
    else
      var m := Minimum(s);
      var rest := SortedSet(s - {m});
      assert forall j :: 0 <= j < |rest| ==> rest[j] in rest && Less(m, rest[j]);
      [m] + rest
  }

  /** No element occurs twice. */
  ghost predicate NoDuplicates(xs: seq<string>) {
    forall i, j :: 0 <= i < j < |xs| ==> xs[i] != xs[j]
  }

  lemma NoDuplicatesAppend(xs: seq<string>, x: string)
    requires NoDuplicates(xs) && x !in xs
    ensures NoDuplicates(xs + [x])
  {
    forall i, j | 0 <= i < j < |xs + [x]|
      ensures (xs + [x])[i] != (xs + [x])[j]
    {
      assert (xs + [x])[i] == xs[i];
      if j == |xs| {
        assert (xs + [x])[j] == x;
      } else {
        assert (xs + [x])[j] == xs[j];
      }
    }
  }

  /** `sorted(xs)` for a list `xs` without duplicates: the sorted list of its
      elements is an increasing rearrangement of `xs` itself, which is what
      `sorted` returns. */
  lemma SortedDistinctList(xs: seq<string>)
    requires NoDuplicates(xs)
    ensures StrictlySorted(SortedSet(set x | x in xs))
    ensures multiset(SortedSet(set x | x in xs)) == multiset(xs)
  {
    var r := SortedSet(set x | x in xs);
    forall i, j | 0 <= i < j < |r|
      ensures r[i] != r[j]
    {
      LessIrreflexive(r[i]);
    }
    DistinctMultiset(r);
    DistinctMultiset(xs);
    assert forall x :: multiset(r)[x] == multiset(xs)[x];
  }

  /** In a list without duplicates every element occurs once. */
  lemma {:induction false} DistinctMultiset(xs: seq<string>)
    requires NoDuplicates(xs)
    ensures forall x :: multiset(xs)[x] == if x in xs then 1 else 0
    decreases |xs|
  {
    if xs != [] {
      var rest := xs[1..];
      assert NoDuplicates(rest) by {
        forall i, j | 0 <= i < j < |rest|
          ensures rest[i] != rest[j]
        {
          assert rest[i] == xs[i + 1] && rest[j] == xs[j + 1];
        }
      }
      DistinctMultiset(rest);
      assert xs == [xs[0]] + rest;
      assert xs[0] !in rest by {
        forall j | 0 <= j < |rest|
          ensures rest[j] != xs[0]
        {
          assert rest[j] == xs[j + 1];
        }
      }
    }
  }

  /** A strictly sorted list is determined by its elements, so `SortedSet` is
      the one answer `sorted` can give. */
  lemma {:induction false} SortedUnique(xs: seq<string>, ys: seq<string>)
    requires StrictlySorted(xs) && StrictlySorted(ys)
    requires forall x :: x in xs <==> x in ys
    ensures xs == ys
    decreases |xs|
  {
    assert xs != [] ==> xs[0] in ys;
    assert ys != [] ==> ys[0] in xs;
    if xs != [] && ys != [] {
      if xs[0] != ys[0] {
        assert ys[0] in xs;
        assert xs[0] in ys;
        var i :| 0 <= i < |xs| && xs[i] == ys[0];
        var j :| 0 <= j < |ys| && ys[j] == xs[0];
        assert i > 0 && j > 0;
        assert Less(xs[0], ys[0]) && Less(ys[0], xs[0]);
        LessAsymmetric(xs[0], ys[0]);
      }
      forall x
        ensures x in xs[1..] <==> x in ys[1..]
      {
        if x in xs[1..] {
          var i :| 1 <= i < |xs| && xs[i] == x;
          assert Less(xs[0], x);
          LessIrreflexive(x);
          assert x in xs && x in ys;
          var j :| 0 <= j < |ys| && ys[j] == x;
          assert j != 0;
          assert ys[1..][j - 1] == x;
        }
        if x in ys[1..] {
          var j :| 1 <= j < |ys| && ys[j] == x;
          assert Less(ys[0], x);
          LessIrreflexive(x);
          assert x in ys && x in xs;
          var i :| 0 <= i < |xs| && xs[i] == x;
          assert i != 0;
          assert xs[1..][i - 1] == x;
        }
      }
      SortedUnique(xs[1..], ys[1..]);
      assert xs == [xs[0]] + xs[1..] && ys == [ys[0]] + ys[1..];
    }
  }
}
