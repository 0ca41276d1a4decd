# Verified models of the CI tooling

Dafny models of the algorithms behind the repository's CI scripts, with proofs of what each promises.
Floating-point numbers are modelled as exact reals, JSON and YAML as already parsed values, and calls
that leave the process (benchmark re-runs, `gh`, files) as arbitrary inputs.

| file | what it models |
|---|---|
| `Packing.dfy`, `Grouping.dfy` | grouping of feature-matrix legs into runner jobs: clustering by crate, chunking, first-fit-decreasing |
| `OrderStatistics.dfy`, `Resolution.dfy`, `HardZone.dfy` | one metric of the benchmark hard zone: median, measurement resolution, verdict |
| `Uniformity.dfy`, `Gate.dfy`, `Remeasure.dfy`, `PublishedHistory.dfy` | the whole hard zone: history windows, evaluation, waiver, durable trail, re-measurement, exit code |
| `Wasm.dfy` | the WebAssembly section reader |
| `FeatureClosure.dfy` | feature closure, executors and coverage of feature-gated tests |
| `SignerTokens.dfy`, `SignerScan.dfy`, `CfgAttributes.dfy` | the signer inventory: tokenizer, scan, and which configuration attributes it takes for test-only |
| `RustComments.dfy`, `Sanitizer.dfy` | the comment stripper and the Markdown escaper |
| `NoiseThresholds.dfy` | noise quantiles and alert thresholds |
| `LaneBeads.dfy` | the append-only log of demoted-lane failures |
| `Basics.dfy`, `Sorting.dfy`, `Sums.dfy` | options and slices, stable sorting, string order, concatenation and weighted sums |

## Main results

- **Packing.** First-fit-decreasing opens at most 3/2 as many groups as any packing of the same chunks, and
  grouping with crates kept together opens fewer than twice the groups of any packing of the single legs.
  In both, a bin is within the capacity or holds one item, so overweight legs are covered.
- **Hard zone.** A metric in seconds, or in milli with a median of at least 20, is hard exactly when its
  printed readings prove the true ratio to be at least two, whatever true readings in the documented
  half-open rounding band lie behind them. A metric of any other unit, in microseconds only with a median
  of at least 40, is hard exactly at twice its median, and fails closed on a pessimal zero crossing. If true
  readings are also known to be non-negative, a hard verdict is still a proof, but the converse fails for a
  throughput (`_per_s`) whose window is even and whose lower middle reading is under half a quantum; the
  exact condition is proved, and it never arises for readings that are multiples of the resolution.
- **The gate over its inputs.** Every list of the report is characterised by the benches of the run and the
  published values: a row is compared exactly when the last bench of its name, judged against that name's
  own window, gives it; a metric has disappeared exactly when it has three published values and the run has
  no bench of its name; the window holds the last published values by date and place. So a reading past the
  allowance fails the gate unless the run is waived or some re-measured reading of that metric relieves it
  (`RegressionFails`), and re-measurements that repeat the reading never do (`SameReadingNeverRelieves`).
- **No 2x reading goes quiet.** After evaluation and re-measurement the final hard list and the durable
  trail name, each once, exactly the compared rows that read at twice their median or worse, with two
  provisos at zero: rows where both are zero are not listed, and a move off zero on the pessimal side is
  listed exactly when it passes the allowance of 1.5 quanta. `SmallZeroCrossingExists` is a row over twice
  its zero median that is in neither list. Every metric of a run is in exactly one of the compared,
  failed, new and ungated lists.
- **Reader round trip.** Any `target_features` list is found and parsed back exactly, however its integers
  are encoded, behind any readable other sections and before any bytes, so the run passes exactly when an
  entry with prefix `+` or `=` names the feature. Both answers of the search, found and absent, and every
  result of the parser are characterised by an if-and-only-if.
- **Signer inventory.** Whole sources that differ only in a string literal, with whatever delimiters and
  escapes in it, have the same token texts (lines may shift) and so report the same calls, as long as the
  scan comes to stand at the literal in both. If it does in one, it does in the other except exactly when an
  apostrophe token stands right before the literal and the other text starts with an apostrophe
  (`TickBeforeLiteralExists`).
- **Test-only items.** The scan goes on right behind a test-only item exactly when no `;` and no `{` stands
  before its body: at the semicolon of an array type it goes on inside the item, and calls in the body are
  reported (`ArrayHeaderExists`). Otherwise, when no attribute met before is open at the body's brace, the
  body does not affect the calls reported for the whole file if no call met before is open there either.
  For bodies balanced in parentheses this is exact: in a scan that succeeds, different bodies give the same
  calls exactly then, because the arguments of a call around the item hold the body (`EnclosedItemExists`).
- **Which attributes skip.** Over every configuration predicate of the Rust grammar, `#[cfg(c)]` makes its
  item test-only exactly when `c` is `test` or `all(..)` with an argument that starts with `test`
  (`CfgIff`). Where `test` is only used as a flag, such an item is compiled only for tests, whatever else is
  configured (`SkippedIsTestOnly`). `not(..)` is never skipped, nor is `all(not(..), ..)` unless another
  argument starts with `test` (`NegatedIsReported`). The scan errs on the side of reporting for
  `all(all(test))`, and takes `test = ".."` for the flag. The calls and test modules reported are exactly
  those the scan comes to (`ScanReports`, `ScanModules`).
- **Feature coverage.** From the tables, the legs and the allow-list on: a test is a finding exactly when
  every leg of its crate misses a required feature, that is, no chain of the crate's own table leads to it
  from the leg's features or the defaults, and no entry lists exactly its features (`FindingIff`).
- **Lane log.** Over any history of runs and closings the log only grows at its end and added ids are
  fresh. That no lane ever has two open beads is kept by every history exactly when it holds at first and
  every open record that the dedupe of some lane can stop at has an id (`OneOpenStaysIff`; the ids are
  needed in any log with fewer than 2^64 - 1 of them): the script
  returns the id it finds, so a record without one reads as no record, and every run files the lane again
  (`NamelessBeadExists`). Nor does every failing lane get a bead of its own, although the dedupe is
  documented as per lane: it searches for `lane=<lane>` as a substring, so an open bead of a lane whose
  name extends this one suppresses it. `OwnBeadIff` gives the exact condition, `ShadowedLaneExists` an
  instance. The append is documented as never touching existing lines, which holds exactly when the file
  is empty or ends with a newline (`AppendKeepsLinesIff`).

## Model

| member | source | states |
|---|---|---|
| Packing.PlaceChunk | scripts/assemble-feature-matrix.py:406-414 | the inner loop puts a chunk into the first bin with room, else a new one |
| Packing.FirstFit | scripts/assemble-feature-matrix.py:398-414 | the loops compute first-fit over the ordered chunks |
| Packing.PackIsDecreasing | scripts/assemble-feature-matrix.py:398-414 | packing conserves the chunks; every bin is led by a chunk at least as heavy as all in it and later bins; no chunk would have fitted an earlier bin; a bin over capacity holds one chunk |
| Packing.ThreeHalves | scripts/assemble-feature-matrix.py:398-414 | at most 3/2 as many bins as any packing of the same chunks into bins within the capacity or of one chunk |
| Packing.ChunkBeforeIsTotalPreorder | scripts/assemble-feature-matrix.py:401-404 | the chunk order (weight descending, crate, position) is total and transitive |
| Grouping.ChunkOrderIs | scripts/assemble-feature-matrix.py:401-404 | of two packed chunks the earlier is heavier, or equal in weight with a crate name that comes first, or of the same crate and cut earlier |
| Grouping.CutCrate | scripts/assemble-feature-matrix.py:388-397 | the chunking loop computes the greedy cut |
| Grouping.CutIsMaximal | scripts/assemble-feature-matrix.py:386-397 | chunks concatenate to the crate's legs in order, fit the capacity or are one leg, and each is closed only because the next leg did not fit |
| Grouping.Cluster | scripts/assemble-feature-matrix.py:378-380 | the dictionary holds each crate's legs in input order |
| Grouping.CrateOrderIsHeaviestFirst | scripts/assemble-feature-matrix.py:381-385 | crates come heaviest first, ties by name, each once |
| Grouping.CrateOrderIs | scripts/assemble-feature-matrix.py:381-385 | of two crates the earlier has the greater total leg weight, or an equal one and the name that comes first |
| Grouping.LegsOfIs | scripts/assemble-feature-matrix.py:378-380 | a crate's legs are the input filtered by crate, in order |
| Grouping.PositionsAre | scripts/assemble-feature-matrix.py:401-403 | a chunk's tie-breaking position is its place in the chunk list |
| Grouping.ChunksInOrder | scripts/assemble-feature-matrix.py:386-397 | the chunks end to end are the crates' legs, in crate order and input order |
| Grouping.CutAll | scripts/assemble-feature-matrix.py:378-397 | clustering, ordering and chunking together yield the chunk list |
| Grouping.GroupLegs | scripts/assemble-feature-matrix.py:364-432 | one group per packed bin, with its label, cache crate, leg count, legs and rounded weight |
| Grouping.GroupsConserveLegs | scripts/assemble-feature-matrix.py:378-432 | the groups hold exactly the input legs, none dropped, repeated or split |
| Grouping.GroupsFitAndFill | scripts/assemble-feature-matrix.py:364-432 | a group is within capacity or one overweight leg; any two groups together exceed the capacity |
| Grouping.FewGroups | scripts/assemble-feature-matrix.py:364-432 | with two groups or more, their number times the capacity is under twice the total weight |
| Grouping.UnderTwiceAnyLegPacking | scripts/assemble-feature-matrix.py:364-432 | fewer than twice the groups of any packing of the individual legs into bins within the capacity or of one leg |
| Grouping.ThreeHalvesOfAnyChunkPacking | scripts/assemble-feature-matrix.py:398-414 | the 3/2 bound for the groups of any leg list |
| Grouping.CacheCrateIsDominant | scripts/assemble-feature-matrix.py:416-421 | the cache crate owns the group's heaviest chunk |
| Grouping.GroupIs | scripts/assemble-feature-matrix.py:416-432 | a group holds its chunks' legs in order, counts them, is cached under its first leg's crate, is labelled `gNN <crate>` with its number, and weighs what its legs do to within 0.0005 |
| Grouping.TwoDigitsIs | scripts/assemble-feature-matrix.py:425-425 | the number is written in decimal with at least two digits |
| Grouping.LabelsAreDistinct | scripts/assemble-feature-matrix.py:425-425 | a group's number and crate can be read off its label, so labels are distinct |
| OrderStatistics.MedianStable | scripts/bench_hardzone.py:368-371 | the median moves at most d when every reading does |
| OrderStatistics.MedianMonotone | scripts/bench_hardzone.py:677-677 | the median grows with the readings |
| OrderStatistics.MedianSplits | scripts/bench_hardzone.py:677-677 | at least half of the readings are at or below the median, and at least half at or above |
| Resolution.ObservedQuantum | scripts/bench_hardzone.py:318-341 | the loop over decades computes the inferred step |
| Resolution.OnGridIff | scripts/bench_hardzone.py:338-340 | a value counts as a multiple of a step exactly when it is within 1e-12, absolute and relative, of some integer multiple |
| Resolution.QuantumIsCoarsest | scripts/bench_hardzone.py:318-341 | the step is the coarsest of the ten decades dividing every non-zero observation, or the finest if none does |
| Resolution.CoarsestIsUnique | scripts/bench_hardzone.py:318-341 | that characterisation determines the step |
| Resolution.QuantumNeverCoarsens | scripts/bench_hardzone.py:321-323 | more observations never make the step coarser |
| Resolution.LowerBoundIsAllowance | scripts/bench_hardzone.py:365-383 | the resolution-aware bound reaches 2 exactly with an allowance of 1.5 quanta |
| Resolution.LowerBoundReaches | scripts/bench_hardzone.py:365-383 | the bound reaches any ratio b exactly when the numerator less half a quantum is b times the denominator plus half a quantum |
| HardZone.ResolutionQuantum | scripts/bench_hardzone.py:344-362 | positive exactly for non-deterministic metrics of an allow-listed unit |
| HardZone.JudgeIsConsistent | scripts/bench_hardzone.py:647-733 | every compared row carries non-negative readings, its plain ratio wherever that is defined, and the resolution exemption of its own data |
| HardZone.HardIsOneInequality | scripts/bench_hardzone.py:683-748 | a metric in s or milli is always compared; it is hard exactly when its median reaches the floor (20 for milli) and it is past twice the median by 1.5 quanta, in every branch including all zero boundaries |
| HardZone.ExactRowVerdict | scripts/bench_hardzone.py:683-748 | a metric of any other unit fails closed exactly on a pessimal zero crossing; else it is hard exactly at twice its median, if the median of a us metric is at least 40 and not both are zero |
| HardZone.FailsClosedIff | scripts/bench_hardzone.py:647-733 | over every input: exactly which metrics fail closed, which are compared, new, and ungated with how many values |
| HardZone.FailureReason | scripts/bench_hardzone.py:653-712 | which of the reasons a failed metric gets |
| HardZone.RowRecords | scripts/bench_hardzone.py:677-733 | a compared row records its reading, the median and size of its window, its direction, determinism, floor exemption, step and zero boundary, each given by name, unit and readings |
| HardZone.HardVerdict | scripts/bench_hardzone.py:647-748 | of any judged metric: hard exactly at or above its floor, not both zero, and past the allowance of its step |
| HardZone.DeterministicIff | scripts/bench_hardzone.py:250-310 | deterministic exactly by one of seven units, or without a unit by one of seven name suffixes |
| HardZone.RatioIsReading | scripts/bench_hardzone.py:683-712 | a compared row's recorded ratio is at least two exactly when it reads at twice its median or worse, not both zero, and past the allowance if it moved off zero on the pessimal side |
| HardZone.SmallZeroCrossingExists | scripts/bench_hardzone.py:693-706 | a compared row over twice its zero median whose recorded ratio is one |
| HardZone.HardIffProven | scripts/bench_hardzone.py:365-398 | a metric in s or milli is hard exactly when its median reaches the floor and every choice of true readings rounding to the printed ones has ratio at least two |
| HardZone.HardRowIffProvenNonNegative | scripts/bench_hardzone.py:365-398 | the same over non-negative true readings, with the median at its floor: hard implies proven, and the two agree exactly off clamped throughput windows |
| HardZone.GridIsNeverClamped | scripts/bench_hardzone.py:318-341 | readings that are exact multiples of the step never form such a window |
| HardZone.ClampedRowExists | scripts/bench_hardzone.py:365-398 | a gated throughput row that is proven over non-negative readings but not hard |
| Uniformity.UniformityIsScaleFree | scripts/bench_hardzone.py:787-799 | scaling every ratio by a common factor does not change the uniformity test |
| Uniformity.EqualShiftIsUniform | scripts/bench_hardzone.py:787-799 | equal ratios are uniform exactly when there are two or more |
| Uniformity.UniformBoundsEachRatio | scripts/bench_hardzone.py:787-799 | in a uniform shift of n ratios, n times each squared distance from the mean is within (n-1)^2 times the squared allowance |
| Uniformity.UniformIff | scripts/bench_hardzone.py:788-791 | the test as one inequality between the sum of the ratios and the sum of their squares |
| Gate.JudgeAll | scripts/bench_hardzone.py:647-733 | the loop over sorted names fills the compared, failed, new, ungated and zero-boundary lists |
| Gate.Evaluate | scripts/bench_hardzone.py:595-827 | the report, its lists, waiver, failed waiver conditions and exit code are those of the specification functions, which the next rows state over the run and its history; the disappeared names are listed in order, and are exactly those with three published values and no bench of their name |
| Gate.RowIff | scripts/bench_hardzone.py:637-733 | a row is compared exactly when the last bench of its name, judged against that name's own window, gives it |
| Gate.ListsIff | scripts/bench_hardzone.py:647-676 | a metric is listed as failed with a reason, new, or ungated with a count exactly when its last bench is judged so |
| Gate.ZeroListsIff | scripts/bench_hardzone.py:683-712 | and so for the three zero-boundary lists |
| Gate.RowsInOrder | scripts/bench_hardzone.py:647-647 | rows come in the order of their names |
| Gate.DisappearedIff | scripts/bench_hardzone.py:643-645 | gateable: three published values or more; disappeared: gateable and named by no bench |
| Gate.WholeIff | scripts/bench_hardzone.py:840-841 | the suite is whole exactly when at most three in ten gateable metrics disappeared |
| Gate.NothingMissing | scripts/bench_hardzone.py:643-645 | a run that names every gateable metric has fraction zero |
| Gate.RemovingNeverHelps | scripts/bench_hardzone.py:643-645 | taking a bench out of a run never lowers the fraction |
| Gate.WaivedIff | scripts/bench_hardzone.py:776-815 | waived exactly when at least two and at least half of the gated rows are at 1.75 or more, those are uniform, none is at 4 or more, and every deterministic one is within 1% |
| Gate.FailedConditionsIff | scripts/bench_hardzone.py:781-814 | each of the four conditions is reported exactly when it fails |
| Gate.TrailIff | scripts/bench_hardzone.py:760-774 | the trail holds exactly the rows at 2 or more under the noise floor, and those the resolution does not prove, with their readings and kind |
| Gate.DerivedLists | scripts/bench_hardzone.py:747-752 | the watch, gated, floor-exempt, resolution-exempt and hard rows, by ratio and exemption |
| Gate.RowsWellFormed | scripts/bench_hardzone.py:637-641 | rows carry distinct names and consistent data |
| Gate.EveryMetricIsListedOnce | scripts/bench_hardzone.py:637-733 | every named metric of the run is in exactly one of the compared, failed, new and ungated lists, once |
| Remeasure.Best | scripts/bench_hardzone.py:402-408 | the least-regressed reading, by direction |
| Remeasure.RowsByName | scripts/bench_hardzone.py:411-420 | by index: a name goes with a value exactly when that is the value of the last bench of the name that is a non-negative number |
| Remeasure.CollectReadings | scripts/bench_hardzone.py:507-522 | reading pools are seeded with the original reading and gain one reading per attempt that has one |
| Remeasure.FreshIff | scripts/bench_hardzone.py:515-522 | a fresh reading is the last usable one of its name in some attempt that returned |
| Remeasure.ApplyRemeasurement | scripts/bench_hardzone.py:493-561 | the report's hard list, relieved rows with best reading and ratio, readings, attempts, skip flag and trail after the pass; nothing else changes |
| Remeasure.RemeasurementSplits | scripts/bench_hardzone.py:523-553 | kept and relieved rows are the hard rows again |
| Remeasure.RelievedIff | scripts/bench_hardzone.py:535-551 | relieved exactly when the median is positive, some fresh reading is under twice the median, or over half of it for a throughput, and no reading of a time is zero |
| Remeasure.RelievedByRows | scripts/bench_hardzone.py:411-551 | the same over the rows the attempts returned |
| Remeasure.SameReadingNeverRelieves | scripts/bench_hardzone.py:535-551 | attempts that only repeat the reading never relieve it |
| Remeasure.KeptIff | scripts/bench_hardzone.py:493-553 | a hard row is kept exactly when there is no attempt, the shift is waived, some hard row is deterministic, or it is not relieved |
| Remeasure.ReliefRecords | scripts/bench_hardzone.py:541-551 | the report keeps the least regressed reading, its ratio and the number of fresh ones |
| Remeasure.NoFreshNoRelief | scripts/bench_hardzone.py:473-489 | failed, empty or omitting attempts relieve nothing |
| Remeasure.RunGate | scripts/bench_hardzone.py:1145-1150 | evaluate, confirm only a failing run, re-derive the code from the report |
| Remeasure.PassesIff | scripts/bench_hardzone.py:830-844 | the exact condition for a pass: nothing failed closed, at most three in ten gateable metrics disappeared, and the hard set is empty, waived, or free of deterministic rows and relieved row by row |
| Remeasure.RegressionFails | scripts/bench_hardzone.py:595-844 | over the run and its history: a last reading past the allowance, with its median at the floor, fails the gate unless the run is waived or the row is relieved |
| Remeasure.NothingGoesQuiet | scripts/bench_hardzone.py:740-774 | final hard list plus trail name, each once, exactly the compared rows that read at twice their median or worse, in the sense of HardZone.RatioIsReading |
| Remeasure.ExemptReadingsDoNotInterfere | scripts/bench_hardzone.py:713-827 | readings of floor-exempt metrics, while comparable, change neither hard list, waiver nor exit code |
| PublishedHistory.HistoryValues | scripts/bench_hardzone.py:287-304 | per metric, all places of the series that publish it in order of date and place, and the window is the values of the last of them, as many as there are up to the window |
| PublishedHistory.DroppedAreNotLater | scripts/bench_hardzone.py:299-304 | the window has as many values as were published, up to its size, and no dropped one was published on a later date than a kept one |
| PublishedHistory.WindowIsPerMetric | scripts/bench_hardzone.py:291-295 | entries that do not publish a metric do not affect its window |
| Wasm.ReadUleb128 | scripts/check-wasm-features.py:25-40 | the loop computes the specified LEB128 read |
| Wasm.UlebIff | scripts/check-wasm-features.py:25-40 | reading succeeds exactly on one to ten bytes with correct continuation bits and returns their base-128 value |
| Wasm.UlebBounds | scripts/check-wasm-features.py:25-40 | at most ten in-bounds bytes, value below 2^70 |
| Wasm.EncodableIff | scripts/check-wasm-features.py:25-40 | exactly the numbers below 2^70 have an encoding the reader accepts |
| Wasm.UlebRoundTrip | scripts/check-wasm-features.py:25-40 | an encoded integer reads back wherever it stands |
| Wasm.IterSections | scripts/check-wasm-features.py:43-59 | the generator yields the specified sections or fails |
| Wasm.SectionsTile | scripts/check-wasm-features.py:43-59 | it ends without error exactly on spans that tile the buffer after the header |
| Wasm.FindTargetFeatures | scripts/check-wasm-features.py:62-71 | the search returns the contents of the first section of that name |
| Wasm.ParseFeatures | scripts/check-wasm-features.py:74-87 | the loop parses the declared number of entries, each a prefix character and a decoded name, or fails |
| Wasm.FindIff | scripts/check-wasm-features.py:62-71 | contents are found exactly when readable sections of other kinds and names lead to a section of that name holding them, whatever follows |
| Wasm.AbsentIff | scripts/check-wasm-features.py:62-71 | reported absent exactly when the whole buffer reads as sections and every custom one has another readable name |
| Wasm.FindSkips | scripts/check-wasm-features.py:64-70 | written sections that are not custom, or custom with a readable other name, are passed over |
| Wasm.ModuleRoundTrip | scripts/check-wasm-features.py:43-87 | any feature list is found and parsed back exactly, for any name decoder |
| Wasm.CustomIff | scripts/check-wasm-features.py:67-70 | a custom payload reads as a name and contents exactly when a length stands first, then that many bytes or as many as there are, then the rest |
| Wasm.ParseIff | scripts/check-wasm-features.py:74-87 | parsing yields a list exactly when the contents are its length and that many entries in a row, the last name possibly cut off; in every other case it fails |
| Wasm.Require | scripts/check-wasm-features.py:90-143 | exit code 0 exactly when the section is found, parses, and lists the feature with `+` or `=`; else 1 |
| Wasm.ModuleCarriesIff | scripts/check-wasm-features.py:43-143 | a written module passes exactly when an entry with prefix 43 or 61 names the feature |
| FeatureClosure.ComputeClosure | scripts/check-feature-test-execution.py:108-126 | terminates with exactly the features reachable along intra-crate implications |
| FeatureClosure.ClosureIsLeast | scripts/check-feature-test-execution.py:108-126 | the closure is the least closed superset of the seed |
| FeatureClosure.ClosureIsMonotone | scripts/check-feature-test-execution.py:108-126 | more seeds, larger closure |
| FeatureClosure.ClosureIsIdempotent | scripts/check-feature-test-execution.py:108-126 | closing twice is closing once |
| FeatureClosure.ExecutorFeatureSet | scripts/check-feature-test-execution.py:139-160 | the closure of the crate's intra-crate defaults and the executor's features; by chains: exactly the features a chain of table entries without `dep:` and slashes leads to |
| FeatureClosure.LoadExecutors | scripts/check-feature-test-execution.py:201-218 | every executor of a crate activates exactly the features of one of its legs, and every leg has its executor |
| FeatureClosure.CoveredIff | scripts/check-feature-test-execution.py:463-472 | covered exactly when some leg of the test's crate activates every feature it requires |
| FeatureClosure.Check | scripts/check-feature-test-execution.py:499-517 | the findings are the tests neither covered nor allow-listed; ok exactly when there are none |
| FeatureClosure.FindingIff | scripts/check-feature-test-execution.py:499-517 | from the tables, legs and allow-list on: a test is a finding, as often as listed, exactly when no leg of its crate activates all it requires and no entry for the crate lists exactly its features |
| FeatureClosure.MoreFeaturesNeverUncover | scripts/check-feature-test-execution.py:463-472 | adding features or executors never uncovers a test |
| FeatureClosure.MoreFeaturesNeverAddFindings | scripts/check-feature-test-execution.py:499-517 | nor adds a finding |
| RustComments.StripRustComments | scripts/check-no-dyn-dispatch.py:110-161 | the flag loop blanks exactly the comment regions |
| RustComments.StripKeepsLayout | scripts/check-no-dyn-dispatch.py:110-122 | length and newlines kept; a character changes only inside a comment, and only to a space |
| RustComments.StripLeavesNoOpener | scripts/check-no-dyn-dispatch.py:110-161 | no comment opener survives |
| RustComments.StripIsIdempotent | scripts/check-no-dyn-dispatch.py:110-161 | stripping twice is stripping once |
| RustComments.StripCode | scripts/check-no-dyn-dispatch.py:148-160 | where no comment opens nothing changes |
| RustComments.StripLine | scripts/check-no-dyn-dispatch.py:130-153 | a line comment is blanked up to the end of its line, and stripping goes on there |
| RustComments.StripBlock | scripts/check-no-dyn-dispatch.py:138-158 | a block comment is blanked up to its first terminator, and stripping goes on behind it |
| RustComments.StripUnterminated | scripts/check-no-dyn-dispatch.py:138-158 | one that is not terminated is blanked to the end |
| Sanitizer.ReplacesAreOneSubstitution | scripts/bench-triage.py:461-467 | the ordered replacements are one substitution per character |
| Sanitizer.SanitizeRoundTrip | scripts/bench-triage.py:461-467 | a decoder recovers the newline-joined text exactly |
| Sanitizer.SanitizeIsInjective | scripts/bench-triage.py:461-467 | texts are escaped alike exactly when they differ in line breaks only |
| Sanitizer.JoinLinesIs | scripts/bench-triage.py:461-461 | a text on one line is kept, and each maximal run of carriage returns and line feeds is one space |
| Sanitizer.CodeRoundTrip | scripts/bench-triage.py:461-465 | a decoder recovers the newline-joined text from a code span, with apostrophes for backticks |
| Sanitizer.SanitizeIsInert | scripts/bench-triage.py:440-467 | a plain cell holds no active character outside an escape or the trusted comment, and every ampersand begins one of the three entities |
| Sanitizer.CodeSpanIsClosed | scripts/bench-triage.py:457-465 | a code span holds no backtick, tag or line break, and every pipe in it has a backslash before it |
| SignerTokens.Tokens | scripts/check-raw-commitment-signers.py:42-96 | the scan yields the specified tokens |
| SignerTokens.TokensArePlaced | scripts/check-raw-commitment-signers.py:42-96 | tokens are in-bounds source text, in order, disjoint, on the line of their position |
| SignerTokens.TokensAreMaximal | scripts/check-raw-commitment-signers.py:88-94 | a token is one non-space character or a maximal run of word characters |
| SignerTokens.TokensArePlain | scripts/check-raw-commitment-signers.py:42-96 | no token is empty or holds a space |
| SignerTokens.NewlinesAre | scripts/check-raw-commitment-signers.py:95-95 | lines are counted by newline characters |
| SignerTokens.LineCommentIsNext | scripts/check-raw-commitment-signers.py:55-57 | a line comment is skipped up to the end of its line |
| SignerTokens.RawIsNext | scripts/check-raw-commitment-signers.py:70-73 | a raw string, alone or behind `b` or `c`, is skipped to its own closing quote and hashes, whatever it holds |
| SignerTokens.TickIsNext | scripts/check-raw-commitment-signers.py:74-86 | a character literal is skipped; an apostrophe that opens none is a token |
| SignerTokens.NestedComposes | scripts/check-raw-commitment-signers.py:59-70 | closing a + b comments is closing a and then b |
| SignerTokens.InnerCommentIsSkipped | scripts/check-raw-commitment-signers.py:59-70 | an inner comment is skipped whole and the outer one resumes after it |
| SignerTokens.FlatCommentEnds | scripts/check-raw-commitment-signers.py:59-70 | without inner openers a comment ends at its first terminator |
| SignerTokens.RawStringEnds | scripts/check-raw-commitment-signers.py:71-74 | a raw string ends at the first quote with as many hashes |
| SignerTokens.LiteralIsSkipped | scripts/check-raw-commitment-signers.py:75-87 | a literal with any text and any escapes is skipped exactly to its closing quote |
| SignerTokens.LiteralTextIsIrrelevant | scripts/check-raw-commitment-signers.py:42-96 | whole sources that differ only in a string literal, with any escapes in it: if the scan stands at the literal in both, the token texts are equal; and exactly when it stands there in the second given the first |
| SignerTokens.TickBeforeLiteralExists | scripts/check-raw-commitment-signers.py:75-78 | after an apostrophe the literals `"x"` and `"'"` give different tokens |
| SignerTokens.Close | scripts/check-raw-commitment-signers.py:99-108 | the first ending delimiter at which the balance is zero, or none |
| SignerTokens.CloseIsFirstBalance | scripts/check-raw-commitment-signers.py:99-108 | from an opening delimiter, the balance is positive until then |
| SignerScan.TestOnlyAttribute | scripts/check-raw-commitment-signers.py:111-123 | the loop finds a bare test exactly when some test stands at parenthesis depth zero in the all list; which attributes those are is stated by SignerScan.TestOnlyIff and CfgAttributes.CfgIff |
| SignerScan.TestOnlyIff | scripts/check-raw-commitment-signers.py:111-123 | over any tokens: `test`, `cfg(test)`, or `cfg(all(` with a later `test` before which as many parentheses are opened as ended |
| CfgAttributes.CfgIff | scripts/check-raw-commitment-signers.py:111-123 | of all `#[cfg(c)]` exactly those where `c` is `test` or `all(..)` with an argument that starts with `test` |
| CfgAttributes.SkippedIsTestOnly | scripts/check-raw-commitment-signers.py:111-123 | where `test` is only used as a flag, an item so marked is compiled only when `test` is set, whatever else is |
| CfgAttributes.NegatedIsReported | scripts/check-raw-commitment-signers.py:111-123 | `not(c)`, and `all(not(c), ..)` with no other argument that starts with `test`, are not test-only |
| CfgAttributes.NestedTestIsReported | scripts/check-raw-commitment-signers.py:114-122 | `all(all(test))` is compiled only for tests and not taken for test-only |
| CfgAttributes.TestValueIsSkipped | scripts/check-raw-commitment-signers.py:114-122 | `all(test = "..")` is taken for test-only although it does not depend on the flag |
| CfgAttributes.StepAtCfg | scripts/check-raw-commitment-signers.py:137-149 | at `#[cfg(c)]` the scan goes on behind the item when `c` says test, and else looks into it |
| CfgAttributes.CfgBodyIsInvisible | scripts/check-raw-commitment-signers.py:132-157 | a file's calls do not depend on the body of an item under such an attribute, under the conditions of SignerScan.TestBodyIsInvisible |
| CfgAttributes.TestModuleReportsNothing | scripts/check-raw-commitment-signers.py:132-157 | a file that is one `#[cfg(test)] mod tests { .. }` reports nothing, whatever the body |
| SignerScan.SkipItem | scripts/check-raw-commitment-signers.py:137-149 | at an attribute: fails on an open delimiter, else goes on behind the test-only item it stands on, or looks at the token |
| SignerScan.Scan | scripts/check-raw-commitment-signers.py:132-157 | the reported calls with lines and arguments and the test modules, or failure, are those of the specification function |
| SignerScan.ScanReports | scripts/check-raw-commitment-signers.py:132-157 | the calls reported are exactly those at positions the scan comes to, in order, with the tokens up to the closing parenthesis |
| SignerScan.ScanModules | scripts/check-raw-commitment-signers.py:140-143 | the test modules reported are exactly those a test-only attribute the scan comes to declares with `mod m;` |
| SignerScan.JoinIs | scripts/check-raw-commitment-signers.py:154-154 | arguments are the tokens in order with one space between them |
| SignerScan.ItemIsSkipped | scripts/check-raw-commitment-signers.py:137-149 | a test-only item with balanced attribute and body is skipped exactly to its closing brace if and only if no semicolon or opening brace stands before its body |
| SignerScan.TestBodyIsInvisible | scripts/check-raw-commitment-signers.py:132-157 | replacing the balanced body of such an item does not change the calls reported for the file, if no attribute or call met before is open at the body's brace |
| SignerScan.TestBodyShowsIff | scripts/check-raw-commitment-signers.py:132-157 | for bodies balanced in parentheses too: the calls are the same exactly when the scan fails, the bodies are equal, or no call met before is open at the body's brace |
| SignerScan.ArrayHeaderExists | scripts/check-raw-commitment-signers.py:144-148 | a call in the body of a test function with an array type is reported |
| SignerScan.EnclosedItemExists | scripts/check-raw-commitment-signers.py:150-155 | a test item inside the arguments of a call, whose body changes the reported arguments |
| SignerScan.LiteralTextIsInvisible | scripts/check-raw-commitment-signers.py:42-157 | sources that differ only in a string literal at which both scans stand report the same calls and test modules |
| NoiseThresholds.QuantileMonotone | scripts/bench-thresholds.py:126-137 | quantiles of sorted samples grow with q and stay at or below the maximum |
| NoiseThresholds.QuantileCoversSamples | scripts/bench-thresholds.py:126-137 | at least floor(q(n-1))+1 samples lie at or below the quantile |
| NoiseThresholds.HalfQuantileIsMedian | scripts/bench-thresholds.py:126-137 | the quantile at one half is the median |
| NoiseThresholds.QuantileIs | scripts/bench-thresholds.py:126-137 | the quantile is the linear interpolation at index q(n-1) |
| NoiseThresholds.PercentIs | scripts/bench-thresholds.py:122-123 | a published percentage is a multiple of 0.01 within 0.005 of a hundred times the fraction |
| NoiseThresholds.PoolIs | scripts/bench-thresholds.py:142-151 | the pool and the metric count are those of the category's metrics, in order, and of no others |
| NoiseThresholds.Summarize | scripts/bench-thresholds.py:140-158 | the pooling loop and summary of one category, metric and pair counts included |
| NoiseThresholds.SummaryIs | scripts/bench-thresholds.py:146-158 | the summary holds the counts and, as percentages, the quantiles at 0.5, 0.9, 0.95, 0.99 and 1 of the sorted pool |
| NoiseThresholds.SummaryIsOrdered | scripts/bench-thresholds.py:149-158 | median, p90, p95, p99, max are ordered after rounding, and max is the largest change |
| NoiseThresholds.DeriveThresholds | scripts/bench-thresholds.py:161-197 | hard in [150, 200], above soft exactly when the history is too short or the p95 swing is at most 65%; each is the least multiple of five meeting its headroom, floor and cap |
| LaneBeads.SanitizedIsSlug | scripts/ci-file-demoted-lane-failure.py:72-74 | a sanitized lane is a non-empty safe name with no dash at either end, and exactly such names are left unchanged |
| LaneBeads.SanitizedIs | scripts/ci-file-demoted-lane-failure.py:72-74 | the sanitized lane is a stretch of the name with a dash for each unsafe character, outside which there are only dashes and unsafe characters, or `lane` if that is empty |
| LaneBeads.DeriveBeadId | scripts/ci-file-demoted-lane-failure.py:77-88 | the loop returns `sq-`, the prefix and the least number of digest characters from five on for which that is not taken |
| LaneBeads.SearchEndsIff | scripts/ci-file-demoted-lane-failure.py:77-88 | the search ends exactly when some prefix of five or more characters is free |
| LaneBeads.SearchEndsWithRoom | scripts/ci-file-demoted-lane-failure.py:77-88 | the search ends exactly when fewer than sixty ids are candidates, so whenever the log has fewer than sixty ids |
| LaneBeads.BeadLog.OpenBeadForLane | scripts/ci-file-demoted-lane-failure.py:91-111 | the id of the first open record mentioning the lane |
| LaneBeads.BeadLog.AllBeadIds | scripts/ci-file-demoted-lane-failure.py:114-126 | the ids of all records |
| LaneBeads.BeadLog.FileFailure | scripts/ci-file-demoted-lane-failure.py:423-438 | the log after a run: unchanged, or one bead appended under a fresh id |
| LaneBeads.StopsIff | scripts/ci-file-demoted-lane-failure.py:104-110 | the dedupe stops at issues that are open, in progress or blocked, whose title holds the marker and `lane=` with the lane |
| LaneBeads.RunIs | scripts/ci-file-demoted-lane-failure.py:423-438 | over the log: a run changes nothing if the first such record has an id, and else appends one open bead with the shortest free id and the lane in its title |
| LaneBeads.TitleMentionsPrefixes | scripts/ci-file-demoted-lane-failure.py:104-110 | a lane's title mentions exactly the lanes that are prefixes of it |
| LaneBeads.HistoryKeeps | scripts/ci-file-demoted-lane-failure.py:77-163 | over any runs and closings of any log: earlier lines stay in place and change only by being closed, added ids are fresh; and at most one open bead per lane is kept if the records the dedupe can stop at have ids |
| LaneBeads.OneOpenStaysIff | scripts/ci-file-demoted-lane-failure.py:91-111 | at most one open bead per lane survives every history of the script's own runs and of closings if it holds at first and every record the dedupe of some lane can stop at has an id, and only then in any log with fewer than 2^64 - 1 ids |
| LaneBeads.NamelessBreaks | scripts/ci-file-demoted-lane-failure.py:91-111 | given such a record without an id, closing the records before it and filing its lane twice leaves two open beads, for any prefix and digests whose searches end |
| LaneBeads.NamelessBeadExists | scripts/ci-file-demoted-lane-failure.py:104-110 | one open bead without an id, and the run that files a second |
| LaneBeads.RunIsIdempotent | scripts/ci-file-demoted-lane-failure.py:429-438 | filing the same lane again, with any prefix and digest, changes nothing exactly when the first record that mentions the lane, if any, has an id |
| LaneBeads.OwnBeadIff | scripts/ci-file-demoted-lane-failure.py:429-438 | after a run the lane has its own open bead exactly when it had one, or nothing open mentions it, or the first record that does has no id; where only filed beads carry the marker, being mentioned is being shadowed by a lane whose name extends it |
| LaneBeads.ShadowedLaneExists | scripts/ci-file-demoted-lane-failure.py:104-110 | lane `fuzz` gets no bead while one for `fuzz-randomized` is open |
| LaneBeads.AppendKeepsLinesIff | scripts/ci-file-demoted-lane-failure.py:160-163 | appending a record leaves the earlier lines alone exactly when the file is empty or ends with a newline, which it does after every append |

## Left out

- The Rust engine, SPARQL evaluation, canonicalisation and JSON-LD are not part of this model.
- Files, JSON, YAML, TOML, regular-expression extraction of tests and coverage arms, `gh`, `git` and the re-measure command: their results are inputs.
- Report rendering, annotations, Markdown tables and every self-test.
- IEEE rounding: numbers are exact reals; the divisibility tolerance of 1e-12 is kept. The standard deviation test is stated with both sides squared.
- `run_gate`'s early exits on missing, empty or corrupt files; the wording of reasons and notes, which are enumerations here.
- The rounded percentage in a trail row: the model keeps the ratio itself. Units and quanta are stored in the row instead of in dictionaries by name, which is the same since names are distinct.
- `leg_weight`'s crate-size heuristic: a leg carries its effective weight, positive because the loader rejects other explicit weights and the heuristic starts at 0.3.
- FeatureClosure.LoadExecutors: the legs of the matrix fragments and of coverage.sh are one list, with their features already split; whether a crate's table could be read is whether it is in the map.
- The three leg filters, `classify`, `zone_partition`, `merge_hardzone_rows` and `defuse_code_fences` would add only easy members; `audit`'s walk over files and its allow-list counts are not modelled.
- Wasm.ParseFeatures: Python's UTF-8 decoder with replacement is a parameter, and as in the script a name cut off by the end of the section is accepted.
- Wasm.Require: the run with `--require`; the listing mode, usage errors and an unreadable file are not modelled.
- Wasm.ReadUleb128: the bitwise OR is addition, which coincides because the value so far is below the weight added.
- LaneBeads.DeriveBeadId: the digest is an arbitrary string of 64 characters, and the sanitised prefix an input; the precondition is exactly what makes the script's search end. Histories use only prefixes of one to four lower-case letters and digits and digests written with sixteen letters, as the script makes them.
- LaneBeads.BeadLog.FileFailure: the log is a sequence of lines, which is what the file holds when it ends with a newline; on one that does not, the record is joined to the last line, as LaneBeads.AppendKeepsLinesIff states.
- Reopening a bead: histories consist of runs and closings.
- A log line that is JSON but not an object, or a null title, on which the script raises an error.
- SHA-256, issue bodies and the GitHub issue that accompanies a bead.
