/**
 Relative paths and the order in which the differ visits them.

 A relative path is the list of its components. `pathlib` orders two paths by
 comparing these lists, component by component (each component by code
 point), not by comparing the joined strings: `a/b` comes before `a-b`
 although `'/'` sorts after `'-'`.
 */
module Paths {
  import opened Order
  import opened Text

  /** One component of a path: a file or directory name. */
  type Segment = string

  /** A file's location relative to its tree's base directory. */
  type Path = seq<Segment>

  function CharLess(x: char, y: char): bool { x < y }

  /** Python's `<` on strings. */
  predicate SegmentLess(a: Segment, b: Segment) { LexLess(a, b, CharLess) }

  /** `pathlib`'s `<` on paths. */
  predicate PathLess(p: Path, q: Path) { LexLess(p, q, SegmentLess) }

  lemma SegmentOrder()
    ensures StrictTotalOrder(SegmentLess)
  {
    LexStrictTotalOrder(CharLess);
    forall x: Segment ensures !SegmentLess(x, x) {}
    forall x: Segment, y: Segment, z: Segment | SegmentLess(x, y) && SegmentLess(y, z)
      ensures SegmentLess(x, z) {}
    forall x: Segment, y: Segment | x != y ensures SegmentLess(x, y) || SegmentLess(y, x) {}
  }

  lemma PathLessIrreflexive(p: Path)
    ensures !PathLess(p, p)
  {
    LexIrreflexive(p, SegmentLess);
  }

  lemma PathLessTransitive(p: Path, q: Path, r: Path)
    requires PathLess(p, q) && PathLess(q, r)
    ensures PathLess(p, r)
  {
    SegmentOrder();
    LexTransitive(p, q, r, SegmentLess);
  }

  lemma PathLessTotal(p: Path, q: Path)
    requires p != q
    ensures PathLess(p, q) || PathLess(q, p)
  {
    SegmentOrder();
    LexTotal(p, q, SegmentLess);
  }

  lemma PathLessAsymmetric(p: Path, q: Path)
    requires PathLess(p, q)
    ensures !PathLess(q, p)
  {
    if PathLess(q, p) {
      PathLessTransitive(p, q, p);
      PathLessIrreflexive(p);
    }
  }

  /**
   `str(p)`: the components joined by `/`. The text gives the path back, since
   no component of a path read from the file system holds a `/`.
   */
  function PathText(p: Path): (text: string)
    ensures |p| >= 1 && (forall i :: 0 <= i < |p| ==> '/' !in p[i]) ==> Split(text, '/') == p
  {
    if |p| >= 1 && (forall i :: 0 <= i < |p| ==> '/' !in p[i]) then
      SplitJoin(p, '/');
      Join(p, '/')
    else
      Join(p, '/')
  }

  /** `m` is the least path of `s`. */
  predicate IsLeast(m: Path, s: set<Path>)
  {
    m in s && forall q :: q in s && q != m ==> PathLess(m, q)
  }

  lemma {:induction false} LeastExists(s: set<Path>)
    requires s != {}
    ensures exists m :: IsLeast(m, s)
    decreases s
  {
    var x :| x in s;
    if s == {x} {
      assert IsLeast(x, s);
    } else {
      LeastExists(s - {x});
      var m :| IsLeast(m, s - {x});
      if PathLess(x, m) {
        forall q | q in s && q != x ensures PathLess(x, q) {
          if q != m {
            PathLessTransitive(x, m, q);
          }
        }
        assert IsLeast(x, s);
      } else {
        PathLessTotal(x, m);
        assert IsLeast(m, s);
      }
    }
  }

  lemma LeastUnique(s: set<Path>)
    ensures forall m, m' :: IsLeast(m, s) && IsLeast(m', s) ==> m == m'
  {
    forall m, m' | IsLeast(m, s) && IsLeast(m', s) ensures m == m' {
      if m != m' {
        PathLessAsymmetric(m, m');
      }
    }
  }

  /** The least path of a non-empty set. */
  function Least(s: set<Path>): (m: Path)
    requires s != {}
    ensures IsLeast(m, s)
  {
    LeastExists(s);
    LeastUnique(s);
    var m :| IsLeast(m, s);
    m
  }

  /** Each path comes strictly before every later one. */
  predicate StrictlyIncreasing(r: seq<Path>)
  {
    forall i, j :: 0 <= i < j < |r| ==> PathLess(r[i], r[j])
  }

  /** Python's `sorted(s)` for a set of paths: its least path, then the rest sorted. */
  function SortedPaths(s: set<Path>): (r: seq<Path>)
    ensures forall i :: 0 <= i < |r| ==> r[i] in s
    decreases s
  {
    if s == {} then []
    else
      var m := Least(s);
      [m] + SortedPaths(s - {m})
  }

  /** `sorted` lists every path of the set, and as many paths as the set holds. */
  lemma {:induction false} SortedPathsComplete(s: set<Path>)
    ensures |SortedPaths(s)| == |s|
    ensures forall p :: p in s ==> p in SortedPaths(s)
    decreases s
  {
    if s != {} {
      var m := Least(s);
      SortedPathsComplete(s - {m});
    }
  }

  /** `sorted` lists the paths in strictly increasing order. */
  lemma {:induction false} SortedPathsIncreasing(s: set<Path>)
    ensures StrictlyIncreasing(SortedPaths(s))
    decreases s
  {
    if s != {} {
      var m := Least(s);
      SortedPathsIncreasing(s - {m});
    }
  }

  /** A strictly increasing sequence never repeats a path. */
  lemma IncreasingIsDistinct(r: seq<Path>)
    requires StrictlyIncreasing(r)
    ensures forall i, j :: 0 <= i < |r| && 0 <= j < |r| && i != j ==> r[i] != r[j]
  {
    forall i, j | 0 <= i < |r| && 0 <= j < |r| && i != j ensures r[i] != r[j] {
      if i < j {
        PathLessAsymmetric(r[i], r[j]);
      } else {
        PathLessAsymmetric(r[j], r[i]);
      }
    }
  }

  /** The first path of a strictly increasing enumeration of `s` is the least of `s`. */
  lemma FirstIsLeast(r: seq<Path>, s: set<Path>)
    requires StrictlyIncreasing(r) && r != []
    requires forall p :: p in r <==> p in s
    ensures IsLeast(r[0], s)
  {
    forall q | q in s && q != r[0] ensures PathLess(r[0], q) {
      var j :| 0 <= j < |r| && r[j] == q;
    }
  }

  /** Without its first path, a strictly increasing enumeration of `s` enumerates the rest of `s`. */
  lemma RestEnumerates(r: seq<Path>, s: set<Path>)
    requires StrictlyIncreasing(r) && r != []
    requires forall p :: p in r <==> p in s
    ensures forall p :: p in r[1..] <==> p in s - {r[0]}
  {
    forall p | p in r[1..] ensures p != r[0] {
      var j :| 0 <= j < |r| - 1 && r[1..][j] == p;
      assert r[j + 1] == p;
      PathLessAsymmetric(r[0], p);
    }
    forall p | p in s - {r[0]} ensures p in r[1..] {
      var j :| 0 <= j < |r| && r[j] == p;
      assert r[1..][j - 1] == p;
    }
  }

  /** There is only one strictly increasing enumeration of a set: `SortedPaths` is it. */
  lemma {:induction false} SortedPathsUnique(r: seq<Path>, s: set<Path>)
    requires StrictlyIncreasing(r)
    requires forall p :: p in r <==> p in s
    ensures r == SortedPaths(s)
    decreases |r|
  {
    if r == [] {
      assert s == {};
    } else {
      FirstIsLeast(r, s);
      LeastUnique(s);
      RestEnumerates(r, s);
      SortedPathsUnique(r[1..], s - {r[0]});
    }
  }
}
