# Directory tree comparator

A Dafny model of the comparison core of `checklib/dir_hash.py`. The utility
fingerprints every file in several directory trees. It treats the first tree as
the primary. It then reports, for each relative path, the other (secondary)
trees whose file digest differs from the primary's.

The model has three modules:

- `Wrappers` (`wrappers.dfy`): `Option` and `Result`.
- `DirHash` (`dir_hash.dfy`): the data model and the comparison itself.
  - A tree (`DirHashes`) is a value: a directory identifier and a map from
    relative path to digest. The source never updates it after construction.
  - `compare_hashes` is the method `CompareHashes`. An outer loop walks the
    secondaries in order. An inner loop walks each secondary's paths. The
    method is proved equal to the functional specification `ExpectedReport`.
  - The lookup fault (`KeyError`) raised when a secondary holds a path the
    primary lacks is modelled as the error result `Failure(MissingPath(p))`.
  - The command's entry rule is `SplitPrimary` plus `CheckTrees`. With fewer
    than two trees nothing is compared. Otherwise the head is popped off as
    the primary and the tail is compared against it.
- `DirHashProperties` (`dir_hash_properties.dfy`): what the report means.
  - Which paths it lists.
  - What each entry holds, and in which order.
  - When it is empty.
  - How it composes over concatenated lists of secondaries.

Everything is a value, so "nothing else changes" holds by construction. The
primary, the secondaries and their list cannot be modified by the comparison,
and the report is a new map.

## Model

| member | source | states |
|---|---|---|
| `DirHash.CompareHashes` | checklib/dir_hash.py:37-51 | Succeeds iff every path of every secondary is a key of the primary. Stated once through `IsCompareOutcome`. On success the result is exactly `ExpectedReport(primary, others)`. Otherwise the error names a path that the first secondary with an unknown path holds and the primary lacks, as the `KeyError` of line 48 does. |
| `DirHash.MismatchIndices` | checklib/dir_hash.py:46-48 | The positions of the secondaries that disagree at a path: each listed position disagrees, positions strictly increase, and every disagreeing position is listed. |
| `DirHashProperties.MismatchDirsByIndex` | checklib/dir_hash.py:46-49 | The directories collected for a path are, one for one, the `dir` of the secondaries at the disagreeing positions, in input order. |
| `DirHashProperties.MismatchDirsNonEmpty` | checklib/dir_hash.py:46-49 | A path's directory list is non-empty iff some secondary holds the path and it differs from the primary's digest. |
| `DirHashProperties.MismatchDirsConcat` | checklib/dir_hash.py:46-49 | The directories collected over `a + b` are those over `a` followed by those over `b`, because secondaries are processed in list order. |
| `DirHashProperties.ReportKeys` | checklib/dir_hash.py:46-49 | When every secondary path is known to the primary, a path is a key of the report iff some secondary maps it to a digest different from the primary's. |
| `DirHashProperties.ReportEntryExact` | checklib/dir_hash.py:46-49 | Each report entry is non-empty. It lists exactly the `dir` of each disagreeing secondary, in input order, once per occurrence in the list. |
| `DirHashProperties.ReportBounds` | checklib/dir_hash.py:47-49 | Report keys lie in the primary's keys intersected with the union of the secondaries' keys, so a path held by the primary alone is never reported. Every entry is non-empty, because an entry is created only when a directory is appended to it. |
| `DirHashProperties.ReportEmptyIffAgree` | checklib/dir_hash.py:45-51 | When every secondary path is known to the primary, the report is empty iff every secondary agrees with the primary on every path it holds. This includes an empty list of secondaries. |
| `DirHashProperties.SelfComparisonEmpty` | checklib/dir_hash.py:45-51 | Comparing a tree with secondaries that carry its own digest map, under any directory names, gives an empty report. |
| `DirHashProperties.ReportConcat` | checklib/dir_hash.py:46-49 | Per path, the report over secondaries `a + b` is the entry over `a` followed by the entry over `b`, with a missing entry read as empty. |
| `DirHashProperties.SecondaryPathsHolds` | checklib/dir_hash.py:47 | Helper for `ReportBounds`, not a behaviour of the source: the paths of any one secondary, which line 47 walks, lie in the union of the secondaries' paths, `SecondaryPaths`. |
| `DirHashProperties.NotInPrimaryNoDirs` | checklib/dir_hash.py:48-49 | A path the primary does not hold never collects a directory. |
| `DirHashProperties.DetectionExample` | checklib/dir_hash.py:45-51 | Primary `{a.txt: h1, b.txt: h2}` against secondary `dir2` with `{a.txt: h1, b.txt: hX}` gives exactly `{b.txt: [dir2]}`. |
| `DirHashProperties.OrderingExample` | checklib/dir_hash.py:46-49 | Two secondaries `s1`, `s2` that both disagree at `a.txt` give `{a.txt: [s1, s2]}`, in the order supplied. |
| `DirHash.SplitPrimary` | checklib/dir_hash.py:61-62 | No primary for zero or one trees. For two or more, the primary followed by the secondaries is the original list, so the primary is the head and the secondaries are the tail in order. |
| `DirHash.CheckTrees` | checklib/dir_hash.py:60-63 | No comparison for zero or one trees. For two or more, the outcome is a comparison of the first tree against the remaining ones, in their original order. |

## Left out

- `DirHashes.get_digests` (checklib/dir_hash.py:11-35): the directory walk, the file reads in 4096-byte blocks, and the SHA-256 computation are file-system I/O and a foreign hash. It also changes and then restores the working directory. Digests are opaque strings in the model. `CheckTrees` takes the trees already built, one per command-line directory, in order.
- The error path of `get_digests`. It prints a diagnostic and returns `None` in place of a map (checklib/dir_hash.py:32-33). A `DirHashes` in the model always carries a map. The faults a `None` map would then cause in `compare_hashes` are not modelled.
- Argument parsing and printing the report (checklib/dir_hash.py:54-58, 64): command-line handling and output only.
- `DirHash.CompareHashes`: when a secondary holds a path the primary lacks, Python's `KeyError` names the first such path in that dictionary's insertion order. The model's maps have no order, so it promises only that the error names some such path of the first secondary that has one. On success the key set and each per-path list do not depend on key order, because each path is visited once per secondary.
- `DirHash.CompareHashes`: the key order of the returned dictionary is not modelled. Python keeps a dictionary's insertion order, so the report lists its paths in the order of their first mismatch, and that order follows each secondary's own dictionary order; the printed report shows it. The model's report is a `map`, which has no order, so reports that differ only in key order are the same value.
- The lookup fault is an uncaught exception that ends the process. The model returns it as an error value, which the caller, `CheckTrees`, passes on unchanged.
