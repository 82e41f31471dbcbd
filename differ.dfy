/**
 The differ: `compare_assets` in scripts/compare_assets.py.

 Each tree is given as the map from relative path to file content that
 `gather_files` and `relative_to` would build from the directory. Hashing is
 the parameter `digest`: any deterministic function of a file's content
 (SHA-256 of the bytes in the script). The differ only ever compares two
 digests for equality.
 */
module Differ {
  import opened Paths

  datatype Option<T> = None | Some(value: T)

  /** The classification of one relative path. */
  datatype Status = Identical | Different | Missing | Additional

  /** The keys of the `counts` dictionary. */
  const Statuses: set<Status> := {Identical, Missing, Different, Additional}

  /** `counts` starts with a key for every status there is. */
  lemma StatusesComplete()
    ensures forall s: Status :: s in Statuses
  {
    forall s: Status ensures s in Statuses {
      match s
      case Identical =>
      case Different =>
      case Missing =>
      case Additional =>
    }
  }

  /** One element of `results`: a path and its status. */
  datatype Entry = Entry(status: Status, path: Path)

  /** The dictionary `compare_assets` returns. */
  datatype Report = Report(total: nat, counts: map<Status, nat>, identicalRatio: real, results: seq<Entry>)

  /** `m.get(p)`. */
  function Get<C>(m: map<Path, C>, p: Path): Option<C>
  {
    if p in m then Some(m[p]) else None
  }

  /**
   The four-way rule: a path in both trees is identical when the digests of its
   two contents agree and different otherwise; a path only in the template is
   missing; a path only in the root is additional. No entry for a path in
   neither tree obeys it.
   */
  ghost predicate Obeys<C, D>(root: map<Path, C>, template: map<Path, C>, digest: C -> D, e: Entry)
  {
    var p := e.path;
    && (e.status == Identical <==> p in root && p in template && digest(root[p]) == digest(template[p]))
    && (e.status == Different <==> p in root && p in template && digest(root[p]) != digest(template[p]))
    && (e.status == Missing <==> p !in root && p in template)
    && (e.status == Additional <==> p in root && p !in template)
  }

  /** Every entry of `rs` obeys the four-way rule. */
  ghost predicate AllObey<C, D>(root: map<Path, C>, template: map<Path, C>, digest: C -> D, rs: seq<Entry>)
  {
    rs == [] || (AllObey(root, template, digest, rs[..|rs| - 1]) && Obeys(root, template, digest, rs[|rs| - 1]))
  }

  lemma {:induction false} AllObeyAt<C, D>(root: map<Path, C>, template: map<Path, C>, digest: C -> D, rs: seq<Entry>)
    requires AllObey(root, template, digest, rs)
    ensures forall k :: 0 <= k < |rs| ==> Obeys(root, template, digest, rs[k])
  {
    if rs != [] {
      var init := rs[..|rs| - 1];
      AllObeyAt(root, template, digest, init);
      assert forall k :: 0 <= k < |init| ==> rs[k] == init[k];
    }
  }

  /** The number of entries of `rs` whose status is `s`. */
  function CountOf(rs: seq<Entry>, s: Status): nat
  {
    if rs == [] then 0
    else CountOf(rs[..|rs| - 1], s) + (if rs[|rs| - 1].status == s then 1 else 0)
  }

  /** The `counts` dictionary that matches a list of entries. */
  function Tally(rs: seq<Entry>): (counts: map<Status, nat>)
    ensures counts.Keys == Statuses
    ensures forall s :: s in counts && counts[s] == CountOf(rs, s)
  {
    StatusesComplete();
    map[Identical := CountOf(rs, Identical), Missing := CountOf(rs, Missing),
        Different := CountOf(rs, Different), Additional := CountOf(rs, Additional)]
  }

  /** The paths of the entries, in order. */
  function PathsOf(rs: seq<Entry>): (ps: seq<Path>)
    ensures |ps| == |rs| && forall i :: 0 <= i < |rs| ==> ps[i] == rs[i].path
  {
    seq(|rs|, i requires 0 <= i < |rs| => rs[i].path)
  }

  /**
   `identical_ratio`: the identical share of all paths as a percentage, and 100
   when there are no paths at all. Exact, where the script uses a float.
   */
  function IdenticalRatio(identical: nat, total: nat): (r: real)
    ensures total == 0 ==> r == 100.0
    ensures total > 0 ==> r * (total as real) == (identical as real) * 100.0
    ensures identical <= total ==> 0.0 <= r <= 100.0
    ensures identical <= total ==> (r == 100.0 <==> identical == total)
  {
    if total != 0 then
      var share := (identical as real) / (total as real);
      Share(identical as real, total as real);
      share * 100.0
    else 100.0
  }

  /** The quotient of a part by a positive whole, and where it lies when the part is no larger. */
  lemma Share(part: real, whole: real)
    requires whole > 0.0
    ensures (part / whole) * whole == part
    ensures 0.0 <= part <= whole ==> 0.0 <= part / whole <= 1.0
    ensures 0.0 <= part <= whole ==> (part / whole == 1.0 <==> part == whole)
  {
    var q := part / whole;
    assert q * whole == part;
    if part == whole {
      assert (q - 1.0) * whole == 0.0;
    }
  }

  /**
   What a report of `compare_assets` on the two trees is: every path of the
   union once, in increasing order; each with the status the four-way rule
   gives it; one counter per status, equal to the number of entries with that
   status; the total number of entries; and the identical ratio of the counts.
   */
  ghost predicate Describes<C, D>(root: map<Path, C>, template: map<Path, C>, digest: C -> D, report: Report)
  {
    && PathsOf(report.results) == SortedPaths(root.Keys + template.Keys)
    && (forall i :: 0 <= i < |report.results| ==> Obeys(root, template, digest, report.results[i]))
    && report.counts == Tally(report.results)
    && report.total == |report.results|
    && report.identicalRatio == IdenticalRatio(report.counts[Identical], report.total)
  }

  /** Appending an entry adds one to the counter of its status and leaves the others alone. */
  lemma TallyAppend(rs: seq<Entry>, e: Entry)
    ensures Tally(rs + [e]) == Tally(rs)[e.status := Tally(rs)[e.status] + 1]
  {
    assert (rs + [e])[..|rs|] == rs;
  }

  lemma PathsOfAppend(rs: seq<Entry>, e: Entry, ps: seq<Path>, i: nat)
    requires i < |ps| && PathsOf(rs) == ps[..i] && e.path == ps[i]
    ensures PathsOf(rs + [e]) == ps[..i + 1]
  {
  }

  /** The four counters together count every entry exactly once. */
  lemma {:induction false} CountsCoverResults(rs: seq<Entry>)
    ensures CountOf(rs, Identical) + CountOf(rs, Different) + CountOf(rs, Missing) + CountOf(rs, Additional) == |rs|
  {
    if rs != [] {
      CountsCoverResults(rs[..|rs| - 1]);
    }
  }

  /** A status that no entry has is counted zero times. */
  lemma {:induction false} CountOfAbsent(rs: seq<Entry>, s: Status)
    requires forall i :: 0 <= i < |rs| ==> rs[i].status != s
    ensures CountOf(rs, s) == 0
  {
    if rs != [] {
      CountOfAbsent(rs[..|rs| - 1], s);
    }
  }

  /** The status of one path of either tree, from the files `get` finds for it in each. */
  method ClassifyPath<C, D(==)>(root: map<Path, C>, template: map<Path, C>, digest: C -> D, relPath: Path)
    returns (status: Status)
    requires relPath in root || relPath in template
    ensures Obeys(root, template, digest, Entry(status, relPath))
  {
    var rootFile := Get(root, relPath);
    var templateFile := Get(template, relPath);
    if rootFile.Some? && templateFile.Some? {
      if digest(rootFile.value) == digest(templateFile.value) {
        status := Identical;
      } else {
        status := Different;
      }
    } else if templateFile.Some? && rootFile.None? {
      status := Missing;
    } else {
      status := Additional;
    }
  }

  /** `compare_assets` on two trees, given as maps from relative path to content. */
  method CompareAssets<C, D(==)>(root: map<Path, C>, template: map<Path, C>, digest: C -> D)
    returns (report: Report)
    ensures Describes(root, template, digest, report)
  {
    var results: seq<Entry> := [];
    var counts := map[Identical := 0, Missing := 0, Different := 0, Additional := 0];
    var allPaths := SortedPaths(root.Keys + template.Keys);
    for i := 0 to |allPaths|
      invariant |results| == i
      invariant PathsOf(results) == allPaths[..i]
      invariant AllObey(root, template, digest, results)
      invariant counts == Tally(results)
    {
      var relPath := allPaths[i];
      var status := ClassifyPath(root, template, digest, relPath);
      var entry := Entry(status, relPath);
      LoopStep(root, template, digest, allPaths, i, results, counts, entry);
      counts := counts[status := counts[status] + 1];
      results := results + [entry];
    }
    assert allPaths[..|allPaths|] == allPaths;
    var total := counts[Identical] + counts[Missing] + counts[Different] + counts[Additional];
    var identicalRatio := IdenticalRatio(counts[Identical], total);
    report := Report(total, counts, identicalRatio, results);
    FinishedLoopDescribes(root, template, digest, report);
  }

  lemma LoopStep<C, D>(root: map<Path, C>, template: map<Path, C>, digest: C -> D, allPaths: seq<Path>, i: nat,
                       results: seq<Entry>, counts: map<Status, nat>, entry: Entry)
    requires i < |allPaths| && entry.path == allPaths[i]
    requires PathsOf(results) == allPaths[..i]
    requires AllObey(root, template, digest, results)
    requires counts == Tally(results)
    requires Obeys(root, template, digest, entry)
    ensures PathsOf(results + [entry]) == allPaths[..i + 1]
    ensures AllObey(root, template, digest, results + [entry])
    ensures entry.status in counts && counts[entry.status := counts[entry.status] + 1] == Tally(results + [entry])
  {
    assert (results + [entry])[..|results|] == results;
    PathsOfAppend(results, entry, allPaths, i);
    TallyAppend(results, entry);
  }

  /** What the loop of `CompareAssets` has built, with the total and ratio computed from it, is the report. */
  lemma FinishedLoopDescribes<C, D>(root: map<Path, C>, template: map<Path, C>, digest: C -> D, report: Report)
    requires PathsOf(report.results) == SortedPaths(root.Keys + template.Keys)
    requires AllObey(root, template, digest, report.results)
    requires report.counts == Tally(report.results)
    requires report.total == report.counts[Identical] + report.counts[Missing] + report.counts[Different] + report.counts[Additional]
    requires report.identicalRatio == IdenticalRatio(report.counts[Identical], report.total)
    ensures Describes(root, template, digest, report)
  {
    AllObeyAt(root, template, digest, report.results);
    CountsCoverResults(report.results);
  }

  /** A path is reported if and only if it is in either tree. */
  lemma EveryPathReported<C, D>(root: map<Path, C>, template: map<Path, C>, digest: C -> D, report: Report)
    requires Describes(root, template, digest, report)
    ensures forall p :: p in root || p in template <==> exists i :: 0 <= i < |report.results| && report.results[i].path == p
  {
    var union := root.Keys + template.Keys;
    assert PathsOf(report.results) == SortedPaths(union);
    ListedExactly(report.results, union);
    forall p ensures p in root || p in template <==> p in union {}
  }

  /** Entries whose paths are `sorted` of a set mention exactly the paths of that set. */
  lemma ListedExactly(results: seq<Entry>, s: set<Path>)
    requires PathsOf(results) == SortedPaths(s)
    ensures forall p :: p in s <==> exists i :: 0 <= i < |results| && results[i].path == p
  {
    var ps := PathsOf(results);
    SortedPathsComplete(s);
    forall p | p in s ensures exists i :: 0 <= i < |results| && results[i].path == p {
      var i :| 0 <= i < |ps| && ps[i] == p;
      assert results[i].path == p;
    }
  }

  /** The paths come in strictly increasing order, so none is reported twice. */
  lemma ResultsInPathOrder<C, D>(root: map<Path, C>, template: map<Path, C>, digest: C -> D, report: Report)
    requires Describes(root, template, digest, report)
    ensures forall i, j :: 0 <= i < j < |report.results| ==> PathLess(report.results[i].path, report.results[j].path)
    ensures forall i, j :: 0 <= i < |report.results| && 0 <= j < |report.results| && i != j ==>
      report.results[i].path != report.results[j].path
  {
    var ps := PathsOf(report.results);
    SortedPathsIncreasing(root.Keys + template.Keys);
    IncreasingIsDistinct(ps);
  }

  /** The total is the sum of the four counters, the number of entries and the size of the union of the two trees. */
  lemma TotalIsUnionSize<C, D>(root: map<Path, C>, template: map<Path, C>, digest: C -> D, report: Report)
    requires Describes(root, template, digest, report)
    ensures report.total == report.counts[Identical] + report.counts[Missing] + report.counts[Different] + report.counts[Additional]
    ensures report.total == |root.Keys + template.Keys|
    ensures 0.0 <= report.identicalRatio <= 100.0
  {
    CountsCoverResults(report.results);
    SortedPathsComplete(root.Keys + template.Keys);
    assert |PathsOf(report.results)| == |report.results|;
  }

  /** The rule gives a path of the union exactly one status. */
  lemma StatusDetermined<C, D>(root: map<Path, C>, template: map<Path, C>, digest: C -> D, p: Path)
    requires p in root || p in template
    ensures exists s :: Obeys(root, template, digest, Entry(s, p))
    ensures forall s, s' :: Obeys(root, template, digest, Entry(s, p)) && Obeys(root, template, digest, Entry(s', p)) ==> s == s'
  {
    if p in root && p in template {
      if digest(root[p]) == digest(template[p]) {
        assert Obeys(root, template, digest, Entry(Identical, p));
      } else {
        assert Obeys(root, template, digest, Entry(Different, p));
      }
    } else if p in template {
      assert Obeys(root, template, digest, Entry(Missing, p));
    } else {
      assert Obeys(root, template, digest, Entry(Additional, p));
    }
  }

  /** Comparing the same two trees twice gives the same report. */
  lemma ReportDeterministic<C, D>(root: map<Path, C>, template: map<Path, C>, digest: C -> D, r1: Report, r2: Report)
    requires Describes(root, template, digest, r1)
    requires Describes(root, template, digest, r2)
    ensures r1 == r2
  {
    var n := |r1.results|;
    assert |r2.results| == n by {
      assert |PathsOf(r1.results)| == |PathsOf(r2.results)|;
    }
    forall i | 0 <= i < n ensures r1.results[i] == r2.results[i] {
      var p := r1.results[i].path;
      assert PathsOf(r1.results)[i] == PathsOf(r2.results)[i];
      StatusDetermined(root, template, digest, p);
      assert Obeys(root, template, digest, r1.results[i]);
      assert Obeys(root, template, digest, r2.results[i]);
    }
    assert r1.results == r2.results;
    assert r1.counts == r2.counts;
  }

  /**
   Two trees with the same paths and the same content at every path compare
   as wholly identical: no other status is counted and the ratio is 100.
   */
  lemma SameTreesAllIdentical<C, D>(root: map<Path, C>, template: map<Path, C>, digest: C -> D, report: Report)
    requires root.Keys == template.Keys
    requires forall p :: p in root ==> root[p] == template[p]
    requires Describes(root, template, digest, report)
    ensures forall i :: 0 <= i < |report.results| ==> report.results[i].status == Identical
    ensures report.counts[Different] == 0 && report.counts[Missing] == 0 && report.counts[Additional] == 0
    ensures report.counts[Identical] == report.total
    ensures report.identicalRatio == 100.0
  {
    var rs := report.results;
    forall i | 0 <= i < |rs| ensures rs[i].status == Identical {
      assert Obeys(root, template, digest, rs[i]);
    }
    CountOfAbsent(rs, Different);
    CountOfAbsent(rs, Missing);
    CountOfAbsent(rs, Additional);
    CountsCoverResults(rs);
  }

  /** `a.txt` sorts before `b.txt`, so the union of the scenario's trees is visited in that order. */
  lemma ScenarioOrder()
    ensures SortedPaths({["a.txt"], ["b.txt"]}) == [["a.txt"], ["b.txt"]]
  {
    var paths: seq<Path> := [["a.txt"], ["b.txt"]];
    assert PathLess(["a.txt"], ["b.txt"]);
    SortedPathsUnique(paths, {["a.txt"], ["b.txt"]});
  }

  /**
   The root holds `a.txt`; the template holds the same `a.txt` and also
   `b.txt`: `a.txt` is identical, `b.txt` missing, and the ratio is 50.
   */
  lemma ScenarioMissingFile<D>(digest: string -> D, report: Report)
    requires Describes(map[["a.txt"] := "X"], map[["a.txt"] := "X", ["b.txt"] := "Y"], digest, report)
    ensures report.results == [Entry(Identical, ["a.txt"]), Entry(Missing, ["b.txt"])]
    ensures report.counts == map[Identical := 1, Different := 0, Missing := 1, Additional := 0]
    ensures report.identicalRatio == 50.0
  {
    var root := map[["a.txt"] := "X"];
    var template := map[["a.txt"] := "X", ["b.txt"] := "Y"];
    assert root.Keys + template.Keys == {["a.txt"], ["b.txt"]};
    ScenarioOrder();
    var rs := report.results;
    assert PathsOf(rs) == [["a.txt"], ["b.txt"]];
    assert Obeys(root, template, digest, rs[0]) && Obeys(root, template, digest, rs[1]);
    assert rs == [Entry(Identical, ["a.txt"]), Entry(Missing, ["b.txt"])];
    var first := [Entry(Identical, ["a.txt"])];
    assert rs[..1] == first && first[..0] == [];
    assert CountOf(first, Identical) == 1 && CountOf(first, Missing) == 0;
    assert CountOf(first, Different) == 0 && CountOf(first, Additional) == 0;
  }
}
