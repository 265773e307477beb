/**
 * What the comparator's report means: which paths it lists, what each
 * entry holds and in which order, and when it is empty.
 */
module DirHashProperties {
  import opened Wrappers
  import opened DirHash

  /** Every path held by at least one secondary. */
  function SecondaryPaths(others: seq<DirHashes>): (paths: set<Path>)
    decreases |others|
  {
    if others == [] then {}
    else SecondaryPaths(others[..|others| - 1]) + others[|others| - 1].hashes.Keys
  }

  /** The entry of `path` in a report, with a missing entry read as no directories. */
  function Entry(report: MismatchReport, path: Path): seq<string>
  {
    if path in report then report[path] else []
  }

  /** Every secondary agrees with the primary on every path it holds. */
  ghost predicate AllAgree(primary: DirHashes, others: seq<DirHashes>)
  {
    forall i, p :: 0 <= i < |others| && p in others[i].hashes ==>
      p in primary.hashes && others[i].hashes[p] == primary.hashes[p]
  }

  /** Every path of a secondary is among the secondaries' paths. */
  lemma {:induction false} SecondaryPathsHolds(others: seq<DirHashes>, i: int)
    requires 0 <= i < |others|
    ensures others[i].hashes.Keys <= SecondaryPaths(others)
    decreases |others|
  {
    var n := |others| - 1;
    if i < n {
      SecondaryPathsHolds(others[..n], i);
      assert others[..n][i] == others[i];
    }
  }

  /** The entry for `path` is non-empty exactly when some secondary disagrees there. */
  lemma {:induction false} MismatchDirsNonEmpty(primary: DirHashes, others: seq<DirHashes>, path: Path)
    ensures MismatchDirs(primary, others, path) != [] <==>
            exists i :: 0 <= i < |others| && Differs(primary, others[i], path)
    decreases |others|
  {
    if others != [] {
      var n := |others| - 1;
      MismatchDirsNonEmpty(primary, others[..n], path);
      if exists i :: 0 <= i < |others| && Differs(primary, others[i], path) {
        var i :| 0 <= i < |others| && Differs(primary, others[i], path);
        if i < n {
          assert others[..n][i] == others[i];
        }
      }
    }
  }

  /**
   * The entry for `path` holds, in input order, the directory of each
   * secondary that disagrees there, once per occurrence in the list.
   */
  lemma {:induction false} MismatchDirsByIndex(primary: DirHashes, others: seq<DirHashes>, path: Path)
    ensures |MismatchDirs(primary, others, path)| == |MismatchIndices(primary, others, path)|
    ensures forall k :: 0 <= k < |MismatchDirs(primary, others, path)| ==>
              MismatchDirs(primary, others, path)[k] == others[MismatchIndices(primary, others, path)[k]].dir
    decreases |others|
  {
    if others != [] {
      var n := |others| - 1;
      MismatchDirsByIndex(primary, others[..n], path);
    }
  }

  /** Comparing against `a + b` lists `a`'s disagreeing directories before `b`'s. */
  lemma {:induction false} MismatchDirsConcat(primary: DirHashes, a: seq<DirHashes>, b: seq<DirHashes>, path: Path)
    ensures MismatchDirs(primary, a + b, path) == MismatchDirs(primary, a, path) + MismatchDirs(primary, b, path)
    decreases |b|
  {
    if b == [] {
      assert a + b == a;
    } else {
      var n := |b| - 1;
      assert (a + b)[..|a + b| - 1] == a + b[..n];
      MismatchDirsConcat(primary, a, b[..n], path);
    }
  }

  /** A path is reported exactly when some secondary holds it with a different digest. */
  lemma ReportKeys(primary: DirHashes, others: seq<DirHashes>, path: Path)
    requires Covered(primary, others)
    ensures path in ExpectedReport(primary, others) <==>
            exists i :: 0 <= i < |others| && path in others[i].hashes
                        && others[i].hashes[path] != primary.hashes[path]
  {
    MismatchDirsNonEmpty(primary, others, path);
    if exists i :: 0 <= i < |others| && path in others[i].hashes && others[i].hashes[path] != primary.hashes[path] {
      var i :| 0 <= i < |others| && path in others[i].hashes && others[i].hashes[path] != primary.hashes[path];
      assert Differs(primary, others[i], path);
    }
  }

  /**
   * Each reported entry is non-empty and lists exactly the directories of
   * the disagreeing secondaries, in input order, one per occurrence.
   */
  lemma ReportEntryExact(primary: DirHashes, others: seq<DirHashes>, path: Path)
    requires path in ExpectedReport(primary, others)
    ensures var dirs, ix := ExpectedReport(primary, others)[path], MismatchIndices(primary, others, path);
            && dirs != []
            && |dirs| == |ix|
            && (forall k :: 0 <= k < |dirs| ==> dirs[k] == others[ix[k]].dir)
            && (forall k, l :: 0 <= k < l < |ix| ==> ix[k] < ix[l])
            && (forall i :: 0 <= i < |others| ==> (Differs(primary, others[i], path) <==> i in ix))
  {
    MismatchDirsByIndex(primary, others, path);
  }

  /**
   * Only paths that the primary and at least one secondary both hold are
   * reported, and no entry is empty: a path held by the primary alone
   * never appears.
   */
  lemma ReportBounds(primary: DirHashes, others: seq<DirHashes>)
    ensures ExpectedReport(primary, others).Keys <= primary.hashes.Keys * SecondaryPaths(others)
    ensures forall p :: p in ExpectedReport(primary, others) ==> ExpectedReport(primary, others)[p] != []
  {
    forall p | p in ExpectedReport(primary, others)
      ensures p in SecondaryPaths(others)
    {
      MismatchDirsNonEmpty(primary, others, p);
      var i :| 0 <= i < |others| && Differs(primary, others[i], p);
      SecondaryPathsHolds(others, i);
    }
  }

  /** The report is empty exactly when every secondary agrees with the primary. */
  lemma ReportEmptyIffAgree(primary: DirHashes, others: seq<DirHashes>)
    requires Covered(primary, others)
    ensures ExpectedReport(primary, others) == map[] <==> AllAgree(primary, others)
  {
    if AllAgree(primary, others) {
      forall p | p in primary.hashes
        ensures MismatchDirs(primary, others, p) == []
      {
        MismatchDirsNonEmpty(primary, others, p);
      }
      assert ExpectedReport(primary, others).Keys == {};
    } else {
      var i, p :| 0 <= i < |others| && p in others[i].hashes
                  && !(p in primary.hashes && others[i].hashes[p] == primary.hashes[p]);
      assert Covers(primary, others[i]);
      MismatchDirsNonEmpty(primary, others, p);
      assert p in ExpectedReport(primary, others);
    }
  }

  /** Comparing a tree with copies of its own digests, under any names, finds nothing. */
  lemma SelfComparisonEmpty(primary: DirHashes, others: seq<DirHashes>)
    requires forall i :: 0 <= i < |others| ==> others[i].hashes == primary.hashes
    ensures Covered(primary, others)
    ensures ExpectedReport(primary, others) == map[]
  {
    ReportEmptyIffAgree(primary, others);
  }

  /** Comparing against `a + b` reports, per path, `a`'s directories followed by `b`'s. */
  lemma ReportConcat(primary: DirHashes, a: seq<DirHashes>, b: seq<DirHashes>, path: Path)
    ensures Entry(ExpectedReport(primary, a + b), path)
            == Entry(ExpectedReport(primary, a), path) + Entry(ExpectedReport(primary, b), path)
  {
    MismatchDirsConcat(primary, a, b, path);
    if path !in primary.hashes {
      NotInPrimaryNoDirs(primary, a + b, path);
      NotInPrimaryNoDirs(primary, a, path);
      NotInPrimaryNoDirs(primary, b, path);
    }
  }

  /** A path the primary does not hold never collects a directory. */
  lemma {:induction false} NotInPrimaryNoDirs(primary: DirHashes, others: seq<DirHashes>, path: Path)
    requires path !in primary.hashes
    ensures MismatchDirs(primary, others, path) == []
  {
    MismatchDirsNonEmpty(primary, others, path);
  }

  /** One file changed in the only secondary: exactly that path is reported, naming it. */
  lemma DetectionExample()
    ensures ExpectedReport(DirHashes("dir1", map["a.txt" := "h1", "b.txt" := "h2"]),
                           [DirHashes("dir2", map["a.txt" := "h1", "b.txt" := "hX"])])
            == map["b.txt" := ["dir2"]]
  {
    var primary := DirHashes("dir1", map["a.txt" := "h1", "b.txt" := "h2"]);
    var others := [DirHashes("dir2", map["a.txt" := "h1", "b.txt" := "hX"])];
    assert others[..0] == [];
    assert MismatchDirs(primary, others, "a.txt") == [];
    assert MismatchDirs(primary, others, "b.txt") == ["dir2"];
    assert ExpectedReport(primary, others).Keys == {"b.txt"};
  }

  /** Two secondaries that both disagree at a path are listed in the order given. */
  lemma OrderingExample()
    ensures ExpectedReport(DirHashes("p", map["a.txt" := "h1"]),
                           [DirHashes("s1", map["a.txt" := "h2"]), DirHashes("s2", map["a.txt" := "h3"])])
            == map["a.txt" := ["s1", "s2"]]
  {
    var primary := DirHashes("p", map["a.txt" := "h1"]);
    var s1, s2 := DirHashes("s1", map["a.txt" := "h2"]), DirHashes("s2", map["a.txt" := "h3"]);
    MismatchDirsConcat(primary, [s1], [s2], "a.txt");
    assert [s1] + [s2] == [s1, s2];
    assert [s1][..0] == [] && [s2][..0] == [];
    assert MismatchDirs(primary, [s1, s2], "a.txt") == ["s1", "s2"];
    assert ExpectedReport(primary, [s1, s2]).Keys == {"a.txt"};
  }
}
