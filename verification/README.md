# SPAdes Completion Checker, modelled in Dafny

This project models the SPAdes Completion Checker, a single Python script. It reads two things:

- the FASTG assembly graph that SPAdes writes;
- a file of proposed paths through that graph, one comma-separated list of signed segment numbers per line, such as `5+,12-,7+`.

It works in five steps.

1. It loads the positive and negative orientation of every graph segment from the FASTG header lines. Each header yields a segment number, a length, a read depth and an orientation.
2. It indexes the segments by their signed key, such as `12-`.
3. It reads the paths against that index.
4. For each path, it finds the segments that occur in no other path. It then gives the path a depth: the median of the depths of those unique segments, each repeated `length - kmer` times.
5. For every positive segment at or above a depth cutoff, it compares two depths:
   - the expected depth, which is the sum over the paths of the path's visits to the segment times the path's depth;
   - the actual depth from the graph.

   It prints one row per segment whose ratio `expected / actual` falls outside the band given by `--min` and `--max`, or every row when no band is given.

The model keeps the script's own structure:

- Header parsing, path parsing and the report are functions over values.
- `GraphSegment` is never changed after its constructor, so it becomes the datatype `Segment`.
- `ProposedPath` becomes a Dafny class. Its fields are set step by step by `determine_unique_segments` and `determine_depth`, whose loops are methods with loop invariants.
- Every loop of the script is a method, proved equal to a specification function.
- The properties the script relies on are lemmas about those functions. These include the header round trip, the path-line round trip, the meaning of a unique segment, the median bounds and the soundness and completeness of the table.

Modules:

- `Results`: `Option`, `Result` and the list helpers the script uses implicitly.
- `Text`: the Python `str` operations the script calls.
- `Segments`: `GraphSegment`, `load_graph` and the segment dictionary.
- `Uniqueness`: the unique-segment rule.
- `Depth`: the sampled median.
- `Paths`: `ProposedPath`, `load_paths` and the two per-path passes.
- `Report`: `output_expected_vs_actual`.
- `Checker`: `main`.

The model follows the code as written:

- A path that names a segment missing from the graph stops the run. The code raises `KeyError`; there is no zero-depth stand-in segment.
- A path with no depth samples stops the run. The code indexes an empty list, which raises `IndexError`.
- The ratio is `expected / actual`.
- A row is shown only when its ratio is strictly outside `[min, max]`.

The script's exceptions are the `Err` values of the model:

- `HeaderError`: `Exception` for missing parts, `ValueError` from `int()` or `float()`.
- `PathError`: the empty path, `ValueError`, `KeyError`.
- `DepthError`: `KeyError` for the forward key, `IndexError` for no samples.
- `ReportError`: `ZeroDivisionError`, and `TypeError` from comparing a float with `None` under Python 3.

## Model

| member | source | states |
|---|---|---|
| Text.RStrip | spades_completion_checker.py:110 | the result is a prefix of the line, ends in no whitespace, and only whitespace was removed |
| Text.RStripPadded | spades_completion_checker.py:110 | stripping a text that ends in a non-space, padded by blanks, gives back that text |
| Text.RemoveWhitespace | spades_completion_checker.py:142 | `''.join(s.split())` keeps no whitespace and is empty exactly when the line is blank |
| Text.RemoveWhitespaceAppend | spades_completion_checker.py:142 | removing whitespace distributes over concatenation |
| Text.Split | spades_completion_checker.py:115 | `split` returns at least one part and no part holds the separator |
| Text.SplitCount | spades_completion_checker.py:121-123 | `split` yields one part more than there are separators |
| Text.JoinSplit | spades_completion_checker.py:145 | joining the parts of a split with the same separator gives the text back |
| Text.SplitJoin | spades_completion_checker.py:145 | splitting a join of parts free of the separator gives the parts back |
| Text.ParseNatToString | spades_completion_checker.py:124-125 | `int(str(n)) == n`, and `str` is injective on naturals |
| Text.RemoveChar | spades_completion_checker.py:146 | `replace(c, '')` keeps exactly the characters other than `c` and never lengthens the text |
| Segments.DecimalValue | spades_completion_checker.py:126 | a decimal read from digits is never negative |
| Segments.ParseDecimal | spades_completion_checker.py:126 | `float()` of a depth field, when it succeeds, is non-negative |
| Segments.ParseHeader | spades_completion_checker.py:109-127 | a header is accepted exactly when its name has at least six `_` fields and fields 1, 3 and 5 are readable by `int()`, `int()` and `float()`, whatever the other fields say; a parsed header takes its number, length and depth from `int()` and `float()` of fields 1, 3 and 5, has a non-negative depth, and is positive exactly when its name lacks the trailing quote |
| Segments.PartsMissingIff | spades_completion_checker.py:121-123 | the "parts missing" error is raised exactly when the name has fewer than five underscores |
| Segments.DepthTokenRoundTrip | spades_completion_checker.py:126 | a rendered depth reads back as the same decimal |
| Segments.HeaderName | spades_completion_checker.py:110-115 | the name left after stripping holds no `:`, because the edge list is cut at the first one |
| Segments.FieldText | spades_completion_checker.py:116-121 | the name is the field text followed by the orientation quote when there is one, and the field text holds no `:` |
| Segments.NameOfHeaderLine | spades_completion_checker.py:110-115 | stripping `>`, the optional `;`, trailing whitespace and the edge list recovers the segment name; without the `;`, for any name that ends in neither whitespace nor `;` |
| Segments.HeaderRoundTrip | spades_completion_checker.py:109-127 | a header written as SPAdes writes it, with any edge list, with or without the trailing `;`, and with any line end, parses back to the same number, length, depth and orientation |
| Segments.SignedKey | spades_completion_checker.py:129-134 | a key is a digit string followed by `+` for positive, `-` for negative |
| Segments.SignedKeyInjective | spades_completion_checker.py:129-134 | two segments share a key exactly when they share number and orientation |
| Segments.Catalog | spades_completion_checker.py:19 | every segment's key is in the dictionary, and every entry is filed under its own key |
| Segments.CatalogLastWins | spades_completion_checker.py:19 | a repeated key keeps the last segment that carries it |
| Segments.GraphSegments | spades_completion_checker.py:39-45 | every segment loaded is the parse of a header line of the file, there are no more segments than lines, and a load that fails fails on a header line's error |
| Segments.GraphSegmentsSnoc | spades_completion_checker.py:42-44 | a line adds a segment when it starts with `>`, is skipped otherwise, and a bad header ends the load with its error |
| Segments.LoadGraph | spades_completion_checker.py:39-45 | the loop yields the segments of the header lines in order, or the first header error |
| Results.CollectParsed | spades_completion_checker.py:51-53 | the loop over the lines that keeps some and parses them yields all parses in order, or the first error |
| Paths.StripSigns | spades_completion_checker.py:146 | removing the signs leaves no `+` and no `-` and never lengthens the token |
| Paths.UnsignedOfSignedKey | spades_completion_checker.py:146 | `int()` of a segment's key with its sign removed gives back the segment's number |
| Paths.ParsePath | spades_completion_checker.py:141-147 | the empty-path error is raised exactly for blank lines; a parsed path has at least one token, as many numbers and segments as tokens, and each segment is the dictionary's entry for its token |
| Paths.ReadTokens | spades_completion_checker.py:145-147 | every token yields its unsigned number and its dictionary segment, in order, and the signed tokens are kept as read |
| Paths.ParsePathIgnoresWhitespace | spades_completion_checker.py:142 | whitespace anywhere in a line does not change what is read |
| Paths.ParsePathTokens | spades_completion_checker.py:142-145 | the signed tokens, joined by commas, are the line without whitespace |
| Paths.StripSignedKey | spades_completion_checker.py:134 | removing the signs of a segment's key leaves its number written out |
| Paths.ParsePathNumbers | spades_completion_checker.py:146-147 | with a dictionary built from the graph, each unsigned number equals the number of the segment looked up |
| Paths.ParsePathOfKeys | spades_completion_checker.py:141-147 | a line of dictionary keys joined by commas parses to those keys, their numbers and their segments |
| Paths.ProposedPath.constructor | spades_completion_checker.py:141-150 | the object holds the parsed tokens, numbers and segments, no unique segments and depth 0 |
| Paths.ProposedPath.ContainsSegment | spades_completion_checker.py:155-156 | a path contains a number exactly when the number occurs in it at least once |
| Paths.ProposedPath.DetermineUniqueSegments | spades_completion_checker.py:158-167 | the loop sets the unique segments to the numbers of the path found in no other path, in order, and leaves the depth alone |
| Paths.ProposedPath.DetermineDepth | spades_completion_checker.py:169-183 | the stored depth is the median of the path's samples; a missing forward segment or an empty sample list is reported and leaves the depth unchanged |
| Paths.CollectSamples | spades_completion_checker.py:170-176 | the nested loop collects each unique segment's depth `length - kmer` times, or reports the first missing forward key |
| Paths.AppendRun | spades_completion_checker.py:175-176 | `range` of a non-positive length adds nothing; otherwise that many copies of the depth are added |
| Paths.TakeMedian | spades_completion_checker.py:177-183 | the median of the sorted samples, or the index error when there are none |
| Paths.PathsOf | spades_completion_checker.py:48-54 | every path read is the parse of a non-blank line of the file, there are no more paths than lines, and a load that fails fails on a non-blank line's error |
| Paths.LoadPaths | spades_completion_checker.py:48-54 | the objects built hold, in order, the parses of the non-blank lines, or the load ends with the first error; the objects are fresh and distinct |
| Paths.ReadPaths | spades_completion_checker.py:51-53 | the non-blank lines are parsed in order up to the first error |
| Paths.NewPaths | spades_completion_checker.py:53 | one fresh, distinct object per parsed path, in order |
| Paths.DetermineGraphSegmentUniqueness | spades_completion_checker.py:57-60 | every path's unique segments are measured against all the other paths, and no depth changes |
| Paths.UniqueStep | spades_completion_checker.py:58-60 | one iteration sets path `i`'s unique segments against `paths[:i] + paths[i+1:]` and touches no other path |
| Paths.DeterminePathDepths | spades_completion_checker.py:63-65 | every path gets the depth of its unique segments, or the pass stops at the first path without one; unique segments are unchanged |
| Paths.DepthStep | spades_completion_checker.py:64-65 | one iteration sets path `i`'s depth, or reports path `i` as the first failure |
| Uniqueness.UniqueIds | spades_completion_checker.py:158-167 | a number is kept exactly when it is in the path and in no other path |
| Uniqueness.UniqueIdsAppend | spades_completion_checker.py:167 | the unique numbers keep the path's order: those of a concatenation are those of each part, in turn |
| Uniqueness.Select | spades_completion_checker.py:167 | the comprehension keeps only flagged numbers of the path, and no more of them than the path has |
| Uniqueness.SelectUnique | spades_completion_checker.py:166-167 | selecting by the per-number flags gives exactly the unique numbers |
| Uniqueness.UniqueIdsCount | spades_completion_checker.py:167 | a unique number keeps all of its repeats; any other number keeps none |
| Uniqueness.UniqueIdsAlone | spades_completion_checker.py:158-167 | a path with no other paths keeps all its numbers |
| Uniqueness.UniqueOf | spades_completion_checker.py:57-60 | path `i`'s unique numbers are drawn from path `i` itself, measured against `paths[:i] + paths[i+1:]` |
| Uniqueness.UniqueOfOnlyPath | spades_completion_checker.py:57-60 | a number is unique to a path exactly when that path is the only one that contains it |
| Uniqueness.UniqueOfDisjoint | spades_completion_checker.py:57-60 | two paths never share a unique number |
| Depth.Weight | spades_completion_checker.py:174-175 | a segment contributes `length - kmer` samples when that is positive, else none |
| Depth.Samples | spades_completion_checker.py:170-176 | sampling succeeds exactly when every unique number has a forward segment, and otherwise names the first one missing |
| Depth.SamplesAppend | spades_completion_checker.py:171-176 | the samples of two lists of unique numbers are the samples of each, concatenated |
| Depth.SamplesSnoc | spades_completion_checker.py:171-176 | one more unique number appends its depth, repeated by its weight, or raises the key error for its forward key |
| Depth.SamplesFrom | spades_completion_checker.py:170-176 | every sample is the depth of some unique segment |
| Depth.Sort | spades_completion_checker.py:177 | `sorted` returns an ordered permutation of the samples |
| Depth.SortedUnique | spades_completion_checker.py:177 | there is only one ordered permutation of a list, so the median does not depend on how it is sorted |
| Depth.Median | spades_completion_checker.py:178-183 | the median lies between the two middle elements of the list |
| Depth.MedianSplits | spades_completion_checker.py:178-183 | at least half the samples lie at or below the median and at least half at or above |
| Depth.SampleMedian | spades_completion_checker.py:177-183 | the median fails, with the index error, exactly when there are no samples |
| Depth.DepthOf | spades_completion_checker.py:169-183 | the no-samples error occurs exactly when sampling succeeds with nothing |
| Depth.DepthWithinSamples | spades_completion_checker.py:177-183 | a path's depth lies between its smallest and its largest sample |
| Depth.MedianOfSameSamples | spades_completion_checker.py:177-183 | the median depends only on the samples, not their order |
| Depth.DepthSwap | spades_completion_checker.py:169-183 | exchanging two runs of unique segments does not change the depth (a case of Depth.DepthPermutation) |
| Depth.SamplesPermutation | spades_completion_checker.py:170-176 | unique segments in any other order give the same samples in another order |
| Depth.DepthPermutation | spades_completion_checker.py:169-183 | any reordering of the unique segments fails exactly when the original does, and otherwise gives the same depth |
| Depth.DepthUniform | spades_completion_checker.py:169-183 | unique segments that share one depth give the path that depth |
| Report.Shown | spades_completion_checker.py:90-93 | with no band every row is shown; with both bounds a row is shown exactly when the ratio is strictly outside them; a ratio below a given minimum is shown whether or not a maximum is given; otherwise, with one bound the Python 3 comparison with `None` raises |
| Report.SortByNumber | spades_completion_checker.py:74 | the positive segments are ordered by number and are a permutation of those given |
| Report.Occurrences | spades_completion_checker.py:84-86 | one visit count per path: how often the segment's number occurs in it |
| Report.ExpectedDepth | spades_completion_checker.py:82-87 | the sum of visits times path depth is never negative when no path depth is |
| Report.RowOf | spades_completion_checker.py:76-98 | segments below the cutoff give no row; a row carries the segment's number and depth, the visit counts, the expected depth and `expected / actual`, and is shown by the band; the only errors are division by a zero depth and an incomparable band |
| Report.Lines | spades_completion_checker.py:76-98 | at most one row per segment, and a table that raises does so on one of its segments' rows |
| Report.Report | spades_completion_checker.py:73-98 | the table has at most one row per graph segment |
| Report.ReportAscending | spades_completion_checker.py:73-76 | rows come out in ascending segment number |
| Report.ReportSound | spades_completion_checker.py:73-98 | every row printed comes from a positive graph segment at or above the cutoff, with its visit counts, its expected depth and a ratio outside the band |
| Report.RowsFromSegments | spades_completion_checker.py:73-98 | every row of the table comes from a positive graph segment at or above the cutoff |
| Report.ReportComplete | spades_completion_checker.py:73-98 | every positive segment at or above the cutoff with a non-zero depth and a ratio outside the band is printed |
| Report.ReportSucceeds | spades_completion_checker.py:78-93 | with a positive cutoff and both or neither bound, the report raises nothing |
| Report.ReportFails | spades_completion_checker.py:78-93 | a report that raises divides by a zero depth under a cutoff of at most 0, or compares with a missing bound |
| Report.ExpectedOfOnlyVisitor | spades_completion_checker.py:82-87 | a segment visited by one path only expects that path's visits times its depth |
| Report.ExpectedOfNoVisitor | spades_completion_checker.py:82-87 | a segment no path visits expects depth 0 |
| Report.ExpectedOfUniqueSegment | spades_completion_checker.py:82-87 | a segment unique to a path expects that path's visits times its depth |
| Report.ExpectedSnoc | spades_completion_checker.py:84-87 | each path adds its visits times its depth to the expected depth |
| Report.Visits | spades_completion_checker.py:82-87 | the loop over the paths yields the visit counts and the expected depth |
| Report.SegmentLine | spades_completion_checker.py:76-98 | one iteration of the table loop computes the row of its segment, or its error |
| Report.TableLines | spades_completion_checker.py:76-98 | the table loop yields the shown rows in order, or the first error |
| Report.OutputExpectedVsActual | spades_completion_checker.py:67-98 | the rows printed are those of the report on the paths' numbers and depths |
| Checker.Analysis | spades_completion_checker.py:22-24 | the last three steps raise only a depth or a table error, and every row they print comes from a positive graph segment at or above the cutoff |
| Checker.Check | spades_completion_checker.py:15-24 | a graph error is raised exactly when the graph does not load; a path error only when the paths do not load; every row printed comes from a positive segment of the graph file at or above the cutoff |
| Checker.PathPhases | spades_completion_checker.py:22-23 | after both passes every path's depth is that of its unique segments, or the first failing path's error is returned |
| Checker.DepthPass | spades_completion_checker.py:63-65 | the depth pass, path by path, agrees with the depths of all paths taken together |
| Checker.Analyse | spades_completion_checker.py:22-24 | the last three steps of `main` produce the table of the analysis, or the first error |
| Checker.Run | spades_completion_checker.py:15-24 | `main` on the two files' lines produces the table, or the error of the first step that raises |

## Left out

- Command-line parsing and file opening (lines 27-36, 41, 50) are left out. The two files are given as sequences of lines; `kmer`, the cutoff, `--min` and `--max` are parameters; the cutoff's default of 1.0 is the caller's concern.
- Printing is left out: the header row (lines 69-71) and the formatting of rows (lines 95-98). The model returns the rows, each with its number, visit counts, expected depth, actual depth and ratio.
- A run that raises part-way through the table has already printed the earlier rows. The model returns only the error.
- Floating point is modelled as exact `real` arithmetic. Rounding in the sums, the median and the ratio is not modelled.
- Text.ParseNat: `int()` also accepts signs, surrounding whitespace and `_` separators. The model reads plain digit strings only, so a segment number is a natural.
- Segments.ParseDecimal: `float()` also accepts signs, exponents, `inf` and `nan`. The model reads `digits[.digits]` only.
- Whitespace is Python 3's `str.isspace()` on text. Python 2 byte strings, where only ASCII whitespace counts, are not modelled.
- Report.SortByNumber: the order of segments with equal numbers is not stated. Python's `sorted` is stable.
- `GraphSegment.expected_depth`, `ProposedPath.uniqueness` and both `__repr__` methods are never read by the script and are not modelled.
- The `graph_segments` and `segments_dict` arguments of `determine_graph_segment_uniqueness` and `determine_unique_segments` are unused by the script and are dropped.
- Paths.LoadPaths parses every line before it builds any `ProposedPath` object, where the script builds each object as it reads its line. Nothing observable differs: a failed load returns no objects in either form.
- Report.Shown models Python 3, where comparing a float with `None` raises `TypeError`. Under Python 2, `None` compares below every number, and a one-sided band would silently show rows.
- Paths.DeterminePathDepths states each path's depth one index at a time (`DepthsUpTo`). Checker.PathPhases restates it as one equality over the whole list.
