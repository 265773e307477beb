/**
 * The tree comparator of checklib/dir_hash.py: a primary directory tree is
 * compared, path by path, with a list of secondary trees, and the result
 * lists for every path the secondaries whose digest differs from the
 * primary's. Digests are opaque strings; how they are computed is not
 * part of this module.
 */
module DirHash {
  import opened Wrappers

  /** A file path relative to the root of its tree. */
  type Path = string

  /** A content digest (a hexadecimal string), compared only for equality. */
  type Digest = string

  /** One tree: the directory it was read from and the digest of each file in it. */
  datatype DirHashes = DirHashes(dir: string, hashes: map<Path, Digest>)

  /** For each path, the directories of the secondaries that disagree there. */
  type MismatchReport = map<Path, seq<string>>

  /** The lookup fault raised when a secondary holds a path the primary lacks. */
  datatype CompareError = MissingPath(path: Path)

  /** Secondary `s` holds `path` with a digest other than the primary's. */
  predicate Differs(primary: DirHashes, s: DirHashes, path: Path)
  {
    path in s.hashes && path in primary.hashes && s.hashes[path] != primary.hashes[path]
  }

  /** Every path of `s` can be looked up in the primary. */
  predicate Covers(primary: DirHashes, s: DirHashes)
  {
    s.hashes.Keys <= primary.hashes.Keys
  }

  /** Every path of every secondary can be looked up in the primary. */
  predicate Covered(primary: DirHashes, others: seq<DirHashes>)
  {
    forall i :: 0 <= i < |others| ==> Covers(primary, others[i])
  }

  /** The directories of the secondaries that disagree at `path`, in list order. */
  function MismatchDirs(primary: DirHashes, others: seq<DirHashes>, path: Path): seq<string>
    decreases |others|
  {
    if others == [] then []
    else
      var n := |others| - 1;
      MismatchDirs(primary, others[..n], path)
        + (if Differs(primary, others[n], path) then [others[n].dir] else [])
  }

  /** The positions in `others` of the secondaries that disagree at `path`. */
  function MismatchIndices(primary: DirHashes, others: seq<DirHashes>, path: Path): (ix: seq<nat>)
    ensures forall k :: 0 <= k < |ix| ==> ix[k] < |others| && Differs(primary, others[ix[k]], path)
    ensures forall k, l :: 0 <= k < l < |ix| ==> ix[k] < ix[l]
    ensures forall i :: 0 <= i < |others| && Differs(primary, others[i], path) ==> i in ix
    decreases |others|
  {
    if others == [] then []
    else
      var n := |others| - 1;
      MismatchIndices(primary, others[..n], path)
        + (if Differs(primary, others[n], path) then [n] else [])
  }

  /** The report compare_hashes builds: an entry for each path where some secondary disagrees. */
  function ExpectedReport(primary: DirHashes, others: seq<DirHashes>): MismatchReport
  {
    map path | path in primary.hashes && MismatchDirs(primary, others, path) != []
      :: MismatchDirs(primary, others, path)
  }

  /**
   * What a comparison may return: the report when every secondary path is
   * known to the primary, and otherwise the fault for a path of the first
   * secondary holding a path the primary lacks.
   */
  ghost predicate IsCompareOutcome(primary: DirHashes, others: seq<DirHashes>, r: Result<MismatchReport, CompareError>)
  {
    && (r.Success? <==> Covered(primary, others))
    && (r.Success? ==> r.value == ExpectedReport(primary, others))
    && (r.Failure? ==>
          exists k :: 0 <= k < |others| && Covered(primary, others[..k])
                      && r.error.path in others[k].hashes && r.error.path !in primary.hashes)
  }

  /** `m` holds, for every path, exactly the directories collected over `seen`. */
  ghost predicate Collects(primary: DirHashes, m: MismatchReport, seen: seq<DirHashes>)
  {
    forall p :: (p in m <==> p in primary.hashes && MismatchDirs(primary, seen, p) != [])
                && (p in m ==> m[p] == MismatchDirs(primary, seen, p))
  }

  /**
   * Midway through secondary `s`: the paths still in `todo` carry what was
   * collected over `done`, and the paths already visited what is collected
   * over `done + [s]`.
   */
  ghost predicate CollectsPartly(primary: DirHashes, m: MismatchReport, done: seq<DirHashes>, s: DirHashes, todo: set<Path>)
  {
    forall p :: (p in m <==> p in primary.hashes && MismatchDirs(primary, if p in todo then done else done + [s], p) != [])
                && (p in m ==> m[p] == MismatchDirs(primary, if p in todo then done else done + [s], p))
  }

  /** Adding one secondary appends its directory to the paths where it disagrees. */
  lemma MismatchDirsSnoc(primary: DirHashes, done: seq<DirHashes>, s: DirHashes, path: Path)
    ensures MismatchDirs(primary, done + [s], path)
            == MismatchDirs(primary, done, path) + (if Differs(primary, s, path) then [s.dir] else [])
  {
    assert (done + [s])[..|done|] == done;
  }

  /** Before any path of `s` is visited, only its paths are pending. */
  lemma CollectsPartlyStart(primary: DirHashes, m: MismatchReport, done: seq<DirHashes>, s: DirHashes)
    requires Collects(primary, m, done)
    ensures CollectsPartly(primary, m, done, s, s.hashes.Keys)
  {
    forall p | p !in s.hashes
      ensures MismatchDirs(primary, done + [s], p) == MismatchDirs(primary, done, p)
    {
      MismatchDirsSnoc(primary, done, s, p);
    }
  }

  /** Visiting one path of `s` the way compare_hashes does keeps the collection in step. */
  lemma CollectsPartlyVisit(primary: DirHashes, m: MismatchReport, m': MismatchReport, done: seq<DirHashes>,
                            s: DirHashes, todo: set<Path>, path: Path)
    requires CollectsPartly(primary, m, done, s, todo)
    requires path in todo && path in s.hashes && path in primary.hashes
    requires m' == if s.hashes[path] != primary.hashes[path]
                   then m[path := (if path in m then m[path] else []) + [s.dir]]
                   else m
    ensures CollectsPartly(primary, m', done, s, todo - {path})
  {
    MismatchDirsSnoc(primary, done, s, path);
  }

  /** Having collected over all of `seen`, `m` is the report for `seen`. */
  lemma CollectsReport(primary: DirHashes, m: MismatchReport, seen: seq<DirHashes>)
    requires Collects(primary, m, seen)
    ensures m == ExpectedReport(primary, seen)
  {
    assert m.Keys == ExpectedReport(primary, seen).Keys;
  }

  /** Every path of `done + [s]` is known to the primary when that holds of `done` and of `s`. */
  lemma CoveredSnoc(primary: DirHashes, done: seq<DirHashes>, s: DirHashes)
    requires Covered(primary, done) && Covers(primary, s)
    ensures Covered(primary, done + [s])
  {
    forall j | 0 <= j < |done| + 1
      ensures Covers(primary, (done + [s])[j])
    {
      if j < |done| {
        assert (done + [s])[j] == done[j];
      }
    }
  }

  /**
   * compare_hashes: walks the secondaries in order and, for each path of a
   * secondary, appends the secondary's directory to that path's entry when
   * its digest differs from the primary's.
   */
  method CompareHashes(primary: DirHashes, others: seq<DirHashes>) returns (r: Result<MismatchReport, CompareError>)
    ensures IsCompareOutcome(primary, others, r)
  {
    var mismatch: MismatchReport := map[];
    var i := 0;
    while i < |others|
      invariant 0 <= i <= |others|
      invariant Covered(primary, others[..i])
      invariant Collects(primary, mismatch, others[..i])
    {
      var s := others[i];
      ghost var done := others[..i];
      var todo := s.hashes.Keys;
      CollectsPartlyStart(primary, mismatch, done, s);
      while todo != {}
        invariant todo <= s.hashes.Keys
        invariant s.hashes.Keys - todo <= primary.hashes.Keys
        invariant CollectsPartly(primary, mismatch, done, s, todo)
        decreases todo
      {
        var path :| path in todo;
        if path !in primary.hashes {
          r := Failure(MissingPath(path));
          assert others[i] == s && Covered(primary, others[..i]);
          return;
        }
        ghost var before := mismatch;
        if s.hashes[path] != primary.hashes[path] {
          var dirs := if path in mismatch then mismatch[path] else [];
          mismatch := mismatch[path := dirs + [s.dir]];
        }
        CollectsPartlyVisit(primary, before, mismatch, done, s, todo, path);
        todo := todo - {path};
      }
      assert others[..i + 1] == done + [s];
      CoveredSnoc(primary, done, s);
      i := i + 1;
    }
    assert others[..i] == others;
    CollectsReport(primary, mismatch, others);
    r := Success(mismatch);
  }

  /** The entry rule: with two or more trees the first is the primary and the rest, in order, the secondaries. */
  function SplitPrimary(trees: seq<DirHashes>): (r: Option<(DirHashes, seq<DirHashes>)>)
    ensures r.None? <==> |trees| <= 1
    ensures r.Some? ==> [r.value.0] + r.value.1 == trees && |r.value.1| == |trees| - 1
  {
    if |trees| > 1 then Some((trees[0], trees[1..])) else None
  }

  /**
   * The command's comparison step on the trees already read from its
   * directories: no comparison for fewer than two trees, otherwise the
   * first is popped off and the rest are compared against it.
   */
  method CheckTrees(trees: seq<DirHashes>) returns (outcome: Option<Result<MismatchReport, CompareError>>)
    ensures outcome.None? <==> |trees| <= 1
    ensures outcome.Some? ==> IsCompareOutcome(trees[0], trees[1..], outcome.value)
  {
    match SplitPrimary(trees)
    case None =>
      outcome := None;
    case Some((primary, secondaries)) =>
      var r := CompareHashes(primary, secondaries);
      outcome := Some(r);
  }
}
