# Almanack line-change entropy, modelled in Dafny

Almanack scores how evenly the changes between two commits spread over a
repository's files. It reads a git diff and counts, for each changed file,
its added plus removed lines. Each file's share `p` of all changed lines then
gives a Shannon term `-p * log2(p)`. The score is the sum of those terms
divided by the number of file names the caller asked about.

This project models the two parts of that computation that hold logic.

- **Diff summarisation** (`git_operations.py`). A diff is a sequence of
  patches. Each patch has an old path, a new path (an empty string means the
  side is absent) and hunks. A hunk is a sequence of line origin markers.
  `get_edited_files` and `get_loc_changed` are modelled as methods that keep
  the source's loops, accumulators and in-place dictionary writes. Each is
  proved equal to a specification function (`EditedPaths`, `LocChanged`, and
  `LinesChanged` for one patch's count), and lemmas state what those functions
  mean.
- **Entropy engine** (`entropy.py`). `calculate_normalized_entropy` and
  `aggregate_entropy_calculation` are pure functions over the change map
  (`NormalizedEntropy`, built from the per-file rule `FileEntropy`, and
  `AggregateEntropy`).
  Values are exact reals. The base-2 logarithm is a parameter `lg`. `IsLog2`
  collects the two facts about it that the proofs use: `lg(1) = 0`, and
  `lg(x) < 0` for `0 < x < 1`. The worked cases also assume `lg(0.5) = -1`.

Files: `diff.dfy` (data model), `git_operations.dfy`, `sums.dfy` (sums of
map values, Python's `sum(d.values())`), `entropy.dfy`,
`entropy_scenarios.dfy` (worked cases).

Where the design description and the code differ, the model follows the code:

- The per-file entropy map has the keys of the change map. It does not have
  the keys of the requested list. With `get_loc_changed` building the map, a
  requested path that the diff never touches gets no key, not a key with
  count 0. `ZeroEntryChangesNothing`
  shows that this makes no difference to the score.
- The denominator is `len(file_names)`, so a name that is repeated in the
  request is counted twice.
- Negative counts are not checked up front. A negative count can make some
  file's share `c / total` negative, and then `math.log2` raises
  `ValueError`. `RaisesValueError` marks exactly those change maps, and
  `NegativeCountRaises` exhibits one. Non-negative counts rule the error out
  (`NonNegativeCountsNeverRaise`), and `get_loc_changed` only produces such
  counts (`LocChangedNeverRaises`).
- `get_loc_changed` keys its map by new-side path only, and a later patch
  with the same new path overwrites an earlier one.

## Model

| member | source | states |
|---|---|---|
| `GitOperations.GetEditedFiles` | src/almanack/git_operations.py:40-61 | The result lists exactly the non-empty old and new paths of all patches. Each appears once, and the length equals the size of the edited-path set. |
| `GitOperations.ListOf` | src/almanack/git_operations.py:61 | `list(set)` lists every element of the set exactly once, in some order. |
| `GitOperations.EditedPathsExactly` | src/almanack/git_operations.py:54-60 | A path is in the edited set if and only if it is non-empty and is the old or new path of some patch. |
| `Entropy.GetEditedFiles` | src/almanack/entropy.py:13-34 | The copy in `entropy.py` has the same contract: exactly the non-empty old and new paths, with no duplicates. |
| `GitOperations.GetLocChanged` | src/almanack/git_operations.py:84-105 | The nested loops build exactly `LocChanged`. Every key is a requested path and every value is non-negative. |
| `GitOperations.CountOrigins` | src/almanack/git_operations.py:91-101 | The two counters equal the number of '+' lines and the number of '-' lines among all lines of all hunks. |
| `GitOperations.CountHunkLines` | src/almanack/git_operations.py:96-100 | Scanning one hunk raises `additions` by its number of '+' lines and `deletions` by its number of '-' lines. |
| `GitOperations.LinesChangedBounds` | src/almanack/git_operations.py:91-101 | A patch's count is at most its number of lines. A patch with no hunks counts 0. |
| `GitOperations.ContextLinesCountNothing` | src/almanack/git_operations.py:96-100 | Inserting a line whose origin is neither '+' nor '-' anywhere in a hunk leaves the count unchanged. |
| `GitOperations.LocChangedKeys` | src/almanack/git_operations.py:89-90 | A path is a key if and only if it is requested and is the new path of some patch. Old paths are never consulted. |
| `GitOperations.LocChangedLastWins` | src/almanack/git_operations.py:89-103 | A path's stored value is the count of the last patch with that new path. |
| `GitOperations.ModeOnlyChangeStoresZero` | src/almanack/git_operations.py:91-103 | A requested patch with no hunks, not overwritten later, is stored with count 0. |
| `GitOperations.LocChangedNonNegative` | src/almanack/git_operations.py:84-105 | Every stored count is at least 0. An empty request gives an empty map. |
| `Entropy.NormalizedEntropy` | src/almanack/entropy.py:68-86 | The result has exactly the keys of the change map. A file with count 0, or any file when the total is 0, gets 0.0. |
| `Entropy.EntropyIsShannonTerm` | src/almanack/entropy.py:71-85 | When the total is non-zero, each entry is Shannon's term `-p log2 p` of that file's share, with `0 log 0 = 0`. |
| `Entropy.SharesFormDistribution` | src/almanack/entropy.py:68-78 | With non-negative counts and a non-zero total, the shares lie in [0, 1] and sum to 1. |
| `Entropy.TermSign` | src/almanack/entropy.py:73-78 | For a probability `p` in (0, 1], `-p log2 p` is at least 0. It is 0 at p = 1 and positive below 1. |
| `Entropy.FileEntropySign` | src/almanack/entropy.py:72-82 | With non-negative counts, every entry is at least 0. The file holding all changes gets 0. A file holding some but not all changes gets a positive value. |
| `Entropy.NormalizedEntropyNonNegative` | src/almanack/entropy.py:71-85 | With non-negative counts, every entry and the total entropy are at least 0. |
| `Entropy.NoChangesNoEntropy` | src/almanack/entropy.py:79-82 | When the total is 0 (the empty map included), every entry is 0.0 and the aggregate is 0.0. |
| `Entropy.SoleContributorNoEntropy` | src/almanack/entropy.py:72-82 | When one file holds every change, its entry, the total entropy and the aggregate are all 0. |
| `Entropy.SpreadChangesPositiveEntropy` | src/almanack/entropy.py:68-85 | With non-negative counts, two distinct files with changes make the total entropy positive. |
| `Entropy.ZeroEntryChangesNothing` | src/almanack/entropy.py:68-85 | Adding an absent file with count 0 only adds a 0.0 entry. The aggregate stays the same. |
| `Entropy.AggregateEntropy` | src/almanack/entropy.py:114-120 | An empty request gives 0.0 whatever the changes. Otherwise the result times the request's length is the total entropy. |
| `Entropy.AggregateNonNegative` | src/almanack/entropy.py:114-118 | With non-negative counts, the aggregate is at least 0. |
| `Entropy.AggregateDependsOnLengthOnly` | src/almanack/entropy.py:117-118 | For a fixed change map, two requests of equal length give the same aggregate, whatever names they hold. (When the map is built from the request, this need not hold; see `SameLengthDifferentNames`.) |
| `Entropy.PaddingRequestLowersAggregate` | src/almanack/entropy.py:117-118 | For a fixed change map, lengthening a non-empty request keeps the numerator and never raises the aggregate. It strictly lowers it when the total entropy is positive. |
| `Entropy.PaddingUntouchedNamesLowersScore` | src/almanack/entropy.py:109-118 | When the change map is built from the request itself, padding a non-empty request with names that no patch has as its new path never raises the score. It strictly lowers it when the total entropy is positive. |
| `GitOperations.LocChangedIgnoresUntouchedNames` | src/almanack/git_operations.py:89-90 | Requesting extra names that no patch has as its new path leaves the change map unchanged. |
| `Entropy.NonNegativeCountsNeverRaise` | src/almanack/entropy.py:72-82 | With non-negative counts no share is negative, so `math.log2` never raises. |
| `Entropy.LocChangedNeverRaises` | src/almanack/entropy.py:64-82 | A change map built by `get_loc_changed` never makes the entropy calculation raise. |
| `Entropy.NegativeCountRaises` | src/almanack/entropy.py:74-77 | For {A: 3, B: -1} the total is 2 and B's share is -0.5, so `math.log2` raises. |
| `Entropy.EntropySumIsShannonEntropy` | src/almanack/entropy.py:68-85 | When the total is non-zero, the entries add up to the Shannon entropy of the distribution of shares. |
| `Sums.SumIntRemove` | src/almanack/entropy.py:68 | The total of the counts is any one count plus the total of the others, so it does not depend on order. |
| `Sums.SumRealRemove` | src/almanack/entropy.py:114 | The sum of the entries is any one entry plus the sum of the others. |
| `Sums.SumIntBounds` | src/almanack/entropy.py:68 | With non-negative counts, every count is at most the total. The total is 0 if and only if every count is 0. |
| `EntropyScenarios.EqualSplit` | src/almanack/entropy.py:68-120 | For counts {A: 10, B: 10}, each entry is 0.5. Asked about both files, the aggregate is 0.5. |
| `EntropyScenarios.TwoFileCounts` | src/almanack/git_operations.py:89-103 | For a diff where x.py has 3 '+' and 2 '-' lines and y.py has 5 '+' lines and one context line, both counts are 5. A requested but untouched z.py gets no key. |
| `EntropyScenarios.EndToEnd` | src/almanack/entropy.py:109-120 | From that diff, the entries are 0.5 and 0.5 and the aggregate is 0.5. |
| `EntropyScenarios.PaddingWithTouchedFileRaisesScore` | src/almanack/entropy.py:109-118 | Padding with a name the diff does touch can raise the score: x.py alone scores 0, while x.py and y.py together score 0.5. |
| `EntropyScenarios.SameLengthDifferentNames` | src/almanack/entropy.py:109-118 | With the map built from the request, two requests of equal length can score differently: [x.py, y.py] scores 0.5, while [x.py, z.py] gives {x.py: 5} and scores 0. |
| `EntropyScenarios.UntouchedRequestedFile` | src/almanack/entropy.py:117-118 | Adding an untouched requested file leaves it out of the map but lowers the aggregate to 1/3. |

## Left out

- `clone_repository` and `get_commits`: cloning into a temporary directory and walking history are I/O against the git library. They are not modelled.
- Computing the diff (`repo.diff`) and resolving commit hashes (`revparse_single`, which raises for an unknown hash) belong to the git library. The diff is an input sequence of patches. Commit resolution and its errors are not modelled.
- `calculate_loc_changes` comes from `git_parser`, which is not part of this model. The entropy functions take the change map as a parameter. The worked cases feed them `LocChanged`.
- Entropy.NormalizedEntropy and Entropy.AggregateEntropy: on a change map where `RaisesValueError` holds, the program raises `ValueError`. The model instead returns a map whose offending entry depends on `lg` at a negative argument, which `IsLog2` leaves unconstrained, and `AggregateEntropy`, which calls it, returns a number built from that entry. The error path is identified by `RaisesValueError` and proved unreachable for non-negative counts, but it is not returned as an error value.
- Floating-point rounding and the real `math.log2` are not modelled. Arithmetic is on exact reals, and `log2` is any function satisfying `IsLog2`.
- The skew case {A: 99, B: 1} is not modelled, because comparing its entropy with the equal split needs concrete logarithm values.
- The orchestration, CLI, report and JSON modules are not modelled: `repo_helper.py`, `repository_processing.py`, `processing/processing_repositories.py`, `cli.py`, `reporting/`, `report.py` and `data_management.py`. They do printing, file I/O and exception handling around the core.
- Python's set iteration order is left open. `ListOf` may produce any order.
