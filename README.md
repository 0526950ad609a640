# Parallel sentiment aggregation over an NDJSON log

This project models `main_parallel.py`, an MPI program. It reads a
newline-delimited JSON file of Mastodon posts and sums the `sentiment` of the
posts per user `(account id, username)` and per hour (`createdAt[:13]`). Then
it reports the five happiest and the five saddest users and hours. The model
covers five parts and proves their properties in Dafny:

- **Partition planner** (`partition.dfy`, module `Partition`): every rank gets
  a half-open byte range of the file. All ranks get `file_size // size` bytes,
  except the last, which also takes the remainder.
- **Line realignment and the scan loop** (`lines.dfy`, module `Lines`;
  `scan.dfy`, module `Scan`): a rank with a start offset above 0 seeks there
  and throws one `readline()` away. It then reads whole lines while `tell()`
  is below its end offset. `Scan.ScanPartition` is that loop, written as a
  Dafny method. It is proved equal to a fold over the lines that the
  `Lines.ReadLines` specification function names.
- **Per-record accumulation** (`records.dfy`, module `Records`; and
  `Scan.ProcessLine`): each line is stripped. Blank lines are skipped, and so
  are decode errors. A record adds its sentiment to the user map when the id
  and username are truthy, and to the hour map when the timestamp is truthy.
  The two guards are independent.
- **Reduction** (`merge.dfy`, module `MergeReduce`): `merge_dicts` is a
  key-wise sum. The MPI `reduce` is a fold of it over the ranks' local maps.
  With one rank, the reduction is bypassed.
- **Report** (`topk.dfy`, module `TopK`): `heapq.nlargest(5, …)` and
  `heapq.nsmallest(5, …)` over `(score, id, username)` and `(score, hour)`
  tuples, compared as Python compares tuples.

`coverage.dfy` (module `Coverage`) puts the parts together into the whole
job. It answers which lines of the file reach the global maps, for the
realignment as written and for the corrected one.

The file is a `string` in the model, and a stream offset is an index into it.
JSON decoding is a parameter `parse: string -> ParseResult` that the caller
supplies. The model has no I/O, no MPI runtime and no clock.

## Model

| member | source | states |
|---|---|---|
| Partition.ChunkSize | main_parallel.py:38 | the chunk is the floor quotient: `c * size <= file_size < c * size + size` |
| Partition.StartOffset | main_parallel.py:39 | a rank's start lies within the file, and rank 0 starts at 0; `Partition.EndOffset` states each rank's length from its start |
| Partition.EndOffset | main_parallel.py:41 | a rank's end lies between its start and the file size; the last rank ends at the file size; every other rank ends where the next one starts; a rank other than the last spans `file_size // size` bytes from its start, and the last spans that plus `file_size % size` |
| Partition.RangesOrdered | main_parallel.py:38-41 | an earlier rank's range ends no later than a later rank's range starts |
| Partition.StartBeforeEnd | main_parallel.py:38-41 | a range whose start is above 0 and inside the file is not empty |
| Partition.Owner | main_parallel.py:38-41 | every byte of the file has a rank whose range holds it |
| Partition.Tiling | main_parallel.py:38-41 | the ranges tile the file: a byte lies in rank `r`'s range if and only if `r` is its owner |
| Lines.LineEnd | main_parallel.py:53-57 | `tell()` after a `readline()` at `p` is after `p` and within the file, and lands just past a newline or at the end of the file |
| Lines.LineEndNoNewline | main_parallel.py:57 | `readline()` stops at the first newline: no newline lies before the last character read |
| Lines.ReadLine | main_parallel.py:57-59 | `readline()` returns the empty string exactly at end of file; otherwise it returns the slice of the text up to the next line end |
| Lines.ReadLineOneLine | main_parallel.py:57 | a line read holds a newline only as its last character |
| Lines.Realign | main_parallel.py:48-50 | as written: from a start above 0, the scan begins at a line boundary strictly after the start, and no newline lies from the start up to that boundary; from 0 it begins at 0 |
| Lines.RealignCorrected | main_parallel.py:48-50 | corrected: the scan begins at the first line boundary at or after the start |
| Lines.Stop | main_parallel.py:52-59 | the loop stops at an offset at or past its end offset or at the end of the file, and never before where it began |
| Lines.ReadStarts | main_parallel.py:52-59 | the offsets of the lines the loop reads, in order; `Lines.ReadStartsExactly`, `Lines.ReadStartsIncreasing` and `Lines.ReadStartsSplit` state which ones |
| Lines.ReadLines | main_parallel.py:52-59 | the lines the loop reads; `Lines.ReadLinesCons`, `Lines.ReadLinesSplit` and `Scan.ScanPartition` state what they are |
| Lines.ReadStartsExactly | main_parallel.py:52-59 | from a line boundary, the loop reads exactly the lines that start in `[p, end)`, in strictly increasing order |
| Lines.ReadStartsIncreasing | main_parallel.py:52-59 | the offsets the loop reads from `p` are at least `p` and strictly increase |
| Lines.NextLineStart | main_parallel.py:57 | no line starts strictly inside the line `readline()` returns: the next line starts no earlier than where it stops |
| Lines.ReadStartsSplit | main_parallel.py:52-59 | reading up to `e2` is reading up to `e1`, then continuing from where that read stopped |
| Lines.ReadLinesSplit | main_parallel.py:52-59 | the same split, stated for the lines read |
| Lines.ReadLinesCons | main_parallel.py:52-59 | one loop iteration reads the line at the current offset, and the rest is read from the next line start |
| Lines.StopAtCorrected | main_parallel.py:48-59 | a loop that ends at offset `e` stops exactly where a rank starting at `e` resumes under the corrected realignment |
| Scan.ProcessLine | main_parallel.py:62-79 | the method's new maps are the `Step` of the old maps on the line: blank and undecodable lines are skipped, and a record is added under both guards |
| Scan.ScanDone | main_parallel.py:55-59 | once the loop's stop condition holds, nothing is left to fold |
| Scan.ScanStep | main_parallel.py:53-79 | one iteration keeps the loop invariant: the fold of the remaining lines still ends in the same result |
| Scan.ScanPartition | main_parallel.py:46-79 | the loop's final maps are the fold of `Step` over exactly the lines read from the realigned start up to the end offset |
| Records.TrimStart | main_parallel.py:62 | `lstrip` never lengthens the line; `Records.TrimStartFacts` states exactly what it removes |
| Records.TrimEnd | main_parallel.py:62 | `rstrip` never lengthens the line; `Records.TrimEndFacts` states exactly what it removes |
| Records.Strip | main_parallel.py:62 | `strip()` never lengthens the line; `Records.StripIsSlice` and `Records.StripEmptyIffBlank` state its result |
| Records.TrimStartFacts | main_parallel.py:62 | `lstrip` leaves a suffix; what it removed is whitespace; the result does not start with whitespace |
| Records.TrimEndFacts | main_parallel.py:62 | `rstrip` leaves a prefix; what it removed is whitespace; the result does not end with whitespace |
| Records.StripIsSlice | main_parallel.py:62-65 | `strip()` yields a slice of the line with only whitespace on either side, and the slice neither begins nor ends with whitespace |
| Records.StripEmptyIffBlank | main_parallel.py:62-63 | a line strips to nothing if and only if it is all whitespace |
| Records.Truthy | main_parallel.py:73-75 | Python truthiness of an optional string field: present and non-empty; used by the guards `Records.RecordUpdate` states |
| Records.HourBucket | main_parallel.py:76 | `time[:13]` is the prefix of length `min(13, len(time))` |
| Records.Decode | main_parallel.py:62-79 | a line yields a record exactly when it is not all whitespace and its stripped text decodes to a record, and that record is the decoding of the stripped text; a blank line or a decode error yields nothing |
| Records.UserUpdate | main_parallel.py:73-74 | the user-map update of one record; `Records.RecordUpdate` states its guard and its effect |
| Records.HourUpdate | main_parallel.py:75-77 | the hour-map update of one record; `Records.RecordUpdate` states its guard and its effect |
| Records.Step | main_parallel.py:62-79 | the processing of one line; `Records.SkippedLineUnchanged`, `Records.RecordUpdate` and `Records.StepIsMerge` state what it does |
| Records.Fold | main_parallel.py:52-79 | the accumulation over a sequence of lines in order; `Records.FoldConcat`, `Records.FoldCons`, `Records.FoldIgnoresSkipped` and `Records.FoldSplitMerge` state its properties |
| Records.SkippedLineUnchanged | main_parallel.py:62-79 | a blank line, a decode error or a record without a sentiment leaves both maps unchanged |
| Records.RecordUpdate | main_parallel.py:73-77 | a record with a sentiment adds it under `(id, username)` exactly when both are truthy, and under the hour bucket exactly when the timestamp is truthy; no other key changes |
| Records.FoldConcat | main_parallel.py:52-79 | processing two runs of lines one after the other is processing their concatenation |
| Records.FoldCons | main_parallel.py:52-79 | processing a line followed by more lines is one step, then the rest |
| Records.FoldIgnoresSkipped | main_parallel.py:62-79 | inserting a skipped line anywhere in the input changes nothing |
| Records.StepIsMerge | main_parallel.py:73-77 | processing a line merges the line's own contribution into the maps |
| Records.FoldIsMerge | main_parallel.py:44-79 | folding from some maps merges those maps with the fold from empty maps |
| Records.FoldSplitMerge | main_parallel.py:44-79 | two consecutive stretches of lines, processed separately and then merged, give what processing them together gives |
| MergeReduce.Get0 | main_parallel.py:15 | `a.get(key, 0)`; used by the contracts of `MergeReduce.AddTo` and `MergeReduce.Merge` |
| MergeReduce.AddTo | main_parallel.py:74 | `defaultdict` `+=` adds the key, sets its value to the old value (0 if absent) plus `v`, and leaves every other key unchanged |
| MergeReduce.Merge | main_parallel.py:11-16 | the keys are the union of both maps' keys; each key of `b` maps to `a.get(key, 0) + b[key]`; every other key keeps `a`'s value |
| MergeReduce.MergeDicts | main_parallel.py:11-16 | the loop over `b.items()` computes `Merge(a, b)` |
| MergeReduce.MergeCommutes | main_parallel.py:92 | `merge_dicts` is commutative, as the operator is declared with `commute=True` |
| MergeReduce.MergeAssociates | main_parallel.py:92-97 | `merge_dicts` is associative, so the grouping of any reduction tree gives the same result |
| MergeReduce.MergeIdentity | main_parallel.py:11-16 | the empty map is an identity on both sides |
| MergeReduce.AddToIsMerge | main_parallel.py:74-77 | the `defaultdict` update is a merge with a one-entry map |
| MergeReduce.FoldMerge | main_parallel.py:96-97 | `comm.reduce` with `merge_dicts`, as a fold in rank order; `MergeReduce.FoldMergeSums`, `MergeReduce.FoldMergeConcat` and `MergeReduce.FoldMergeSwap` state its result |
| MergeReduce.FoldMergeSums | main_parallel.py:95-100 | the reduced map holds exactly the keys some rank holds, and each key maps to the sum over ranks of their values (0 where absent) |
| MergeReduce.FoldMergeConcat | main_parallel.py:96-97 | reducing a concatenation is merging the reductions of its two parts |
| MergeReduce.FoldMergeSwap | main_parallel.py:92-97 | swapping the two halves of the rank order does not change the reduction |
| MergeReduce.FoldMergePerm | main_parallel.py:92-97 | reducing the ranks' maps in any order, a permutation of the rank order, gives the same result |
| MergeReduce.FoldMergeMoveLast | main_parallel.py:92-97 | a map anywhere in the order can be merged last instead |
| MergeReduce.Global | main_parallel.py:95-103 | with one rank, the bypass gives the same global map as the reduction |
| Coverage.First | main_parallel.py:39-50 | the offset where rank `r`'s loop begins, as written or corrected; `Coverage.AsWrittenReaders` and `Coverage.CorrectedReadBy` state which lines it leads to |
| Coverage.RankStarts | main_parallel.py:46-59 | the offsets of the lines rank `r` reads: the realigned scan of its range; `Coverage.AsWrittenReaders` and `Coverage.CorrectedReadBy` state which ones |
| Coverage.RankLines | main_parallel.py:46-59 | the lines rank `r` reads, in file order; `Coverage.ConcatLinesAt` and `Coverage.CorrectedPrefix` relate them to one pass |
| Coverage.Local | main_parallel.py:44-79 | rank `r`'s two maps at the end of its loop; `Scan.ScanPartition` computes them |
| Coverage.Job | main_parallel.py:38-103 | the coordinator's global maps; `Coverage.CorrectedJobIsSinglePass` and `Coverage.AsWrittenJob` state what they are |
| Coverage.RealignExact | main_parallel.py:48-50 | as written, a line start is at or after the realigned offset of `s` exactly when `s` is 0 or `s` is before it |
| Coverage.RealignCorrectedExact | main_parallel.py:48-50 | corrected, a line start is at or after the realigned offset of `s` exactly when it is at or after `s` |
| Coverage.AsWrittenReaders | main_parallel.py:38-59 | as written, rank `r` reads the line at `q` exactly when `q` is in `[start, end)` and is not the start itself, unless the start is 0 |
| Coverage.AsWrittenReadBy | main_parallel.py:38-59 | as written, a rank reads a line if and only if it owns the line's first byte and the line does not begin exactly at that rank's start above 0 |
| Coverage.InteriorLineReadOnce | main_parallel.py:38-59 | a line that begins at 0 or at no rank's start is read by exactly its owner |
| Coverage.BoundaryLineUnread | main_parallel.py:48-50 | a line that begins exactly at the start of a rank other than 0 is read by no rank |
| Coverage.CorrectedReadBy | main_parallel.py:38-59 | corrected: every line is read by exactly the rank that owns its first byte |
| Coverage.AsWrittenDropsFirstLine | main_parallel.py:48-50 | at a start that begins a line, the corrected scan reads exactly that line followed by what the as-written scan reads |
| Coverage.RealignsAgree | main_parallel.py:48-50 | at a start that falls inside a line, both realignments give the same offset |
| Coverage.Reduce | main_parallel.py:96-97 | the two `comm.reduce` calls over the ranks' local maps in rank order; `Coverage.ReduceSnoc` and `Coverage.ReduceIsFold` state its result |
| Coverage.ReduceSnoc | main_parallel.py:96-97 | reducing one more rank merges its local maps into the reduction so far |
| Coverage.LocalsSnoc | main_parallel.py:92-97 | reducing the locals of one more rank merges that rank's local maps into the reduction of the earlier ranks |
| Coverage.ReduceIsFold | main_parallel.py:44-100 | reducing the ranks' local maps in rank order gives the fold over all their lines, concatenated in rank order |
| Coverage.ConcatLinesAt | main_parallel.py:52-59 | the concatenated lines of the ranks are the lines at their concatenated offsets |
| Coverage.OneRankStarts | main_parallel.py:39-50 | rank 0 reads from offset 0 under either realignment |
| Coverage.CorrectedPrefixStep | main_parallel.py:38-59 | corrected: rank `n-1` continues exactly where ranks `0 .. n-2` stop |
| Coverage.CorrectedPrefix | main_parallel.py:38-59 | corrected: ranks `0 .. n-1` together read exactly the lines a single scan from 0 to rank `n-1`'s end offset reads |
| Coverage.CorrectedJobIsSinglePass | main_parallel.py:38-103 | corrected: for any number of ranks, the global maps equal those of one pass over the whole file |
| Coverage.AsWrittenJob | main_parallel.py:38-103 | as written: the global maps are the fold over exactly the lines the ranks read; with one rank they are the single pass |
| Coverage.AsWrittenNoBoundaryLine | main_parallel.py:38-103 | as written, any number of ranks gives the one-pass result when no rank's start above 0 falls exactly on a line start |
| Coverage.SameFirst | main_parallel.py:48-50 | a rank whose start above 0 is not a line start begins its loop at the same offset under both realignments |
| Coverage.BoundaryLineLost | main_parallel.py:48-50 | for `"a\nb\n"` on two ranks, as written rank 1 reads nothing and line `"b\n"` is lost; corrected, rank 1 reads it |
| TopK.StrLess | main_parallel.py:109-113 | Python's `<` on strings, code point by code point with a proper prefix first; `TopK.StrLessIrreflexive`, `TopK.StrLessTransitive` and `TopK.StrLessTotal` make it a strict total order |
| TopK.KeyLess | main_parallel.py:109-113 | Python's `<` on the string parts of a tuple, element by element; `TopK.KeyLessIrreflexive`, `TopK.KeyLessTransitive` and `TopK.KeyLessTotal` make it a strict total order |
| TopK.EntryLess | main_parallel.py:109-113 | Python's `<` on `(score, user id, username)` and `(score, hour)`: by score, ties broken by the key; `TopK.EntryLessStrictTotal` makes it a strict total order |
| TopK.StrLessIrreflexive | main_parallel.py:109-113 | Python string `<` is irreflexive |
| TopK.StrLessTransitive | main_parallel.py:109-113 | Python string `<` is transitive |
| TopK.StrLessTotal | main_parallel.py:109-113 | any two distinct strings are ordered one way or the other |
| TopK.KeyLessIrreflexive | main_parallel.py:109-113 | tuple `<` on the key parts is irreflexive |
| TopK.KeyLessTransitive | main_parallel.py:109-113 | tuple `<` on the key parts is transitive |
| TopK.KeyLessTotal | main_parallel.py:109-113 | any two distinct keys are ordered one way or the other |
| TopK.EntryLessStrictTotal | main_parallel.py:109-113 | tuple `<` on `(score, key…)` is a strict total order |
| TopK.BeforeStrictTotal | main_parallel.py:109-113 | "comes first in the selection" is a strict total order in both directions |
| TopK.Insert | main_parallel.py:109-113 | inserting adds exactly one entry |
| TopK.InsertSorted | main_parallel.py:109-113 | inserting into a sorted sequence keeps it sorted |
| TopK.Sort | main_parallel.py:109-113 | the full sort is a sorted permutation of its input |
| TopK.SortedUnique | main_parallel.py:109-113 | two sorted permutations of the same entries are equal |
| TopK.Select | main_parallel.py:109-113 | `heapq.nlargest(k, …)` or `heapq.nsmallest(k, …)`; `TopK.SelectSorted`, `TopK.SelectWithin`, `TopK.SelectLeavesOutLater` and `TopK.SelectIsPrefixOfSort` state its result |
| TopK.SelectSorted | main_parallel.py:109-113 | the selection has `min(5, n)` entries, in order |
| TopK.SelectWithin | main_parallel.py:109-113 | the selection uses only input entries, counted with multiplicity |
| TopK.SelectLeavesOutLater | main_parallel.py:109-113 | no entry left out comes before any chosen entry |
| TopK.SelectIsPrefixOfSort | main_parallel.py:109-113 | the selection is the first `min(k, n)` entries of every full sort of the input |
| TopK.SelectOrderIndependent | main_parallel.py:109-113 | the selection depends only on which entries there are, not the order in which the dictionary yields them |
| TopK.SelectDirections | main_parallel.py:109-113 | the ascending full sort is the descending one reversed |
| TopK.ReverseFacts | main_parallel.py:109-113 | reversal keeps the length and the entries, and maps index `i` to `n-1-i` |
| TopK.UserEntry | main_parallel.py:109-110 | the tuple `(s, uid, uname)` built from one user item; `TopK.ReportDeterministic` uses it to tie the report to the user map |
| TopK.HourEntry | main_parallel.py:112-113 | the tuple `(score, hour)` built from one hour item; `TopK.ReportDeterministic` uses it to tie the report to the hour map |
| TopK.ListsUsers | main_parallel.py:109-110 | the generator over the user map's `.items()`: each item's tuple exactly once, in some order; `TopK.SelectOrderIndependent` makes the order irrelevant |
| TopK.ListsHours | main_parallel.py:112-113 | the generator over the hour map's `.items()`: each item's tuple exactly once, in some order; `TopK.SelectOrderIndependent` makes the order irrelevant |
| TopK.MakeReport | main_parallel.py:109-113 | the four lists of the report; `TopK.ReportDeterministic` states that they depend only on the global maps |
| TopK.ReportDeterministic | main_parallel.py:109-113 | any two listings of the same global maps give the same four lists |

## Left out

- MPI itself is not modelled: `bcast` of the file size (lines 34-35), `Op.Create` and `reduce` (92-97), ranks and `Wtime` (24, 117). Every rank sees `|text|` as the file size. `reduce` is a left fold in rank order; `MergeReduce.FoldMergeConcat` covers any grouping and `MergeReduce.FoldMergePerm` any order.
- File I/O is not modelled (lines 28-31, 46). The file size is counted in bytes in binary mode, while the scan reads in text mode. The model assumes one character per byte and a `tell()` equal to the character index. Multi-byte UTF-8 sequences are not modelled, nor is a `seek` into the middle of one.
- Universal newlines are not modelled: lines end only at `'\n'`. In text mode a lone `'\r'` also ends a line, and `"\r\n"` arrives as `"\n"`.
- JSON decoding (`json.loads`, line 65) is the abstract `parse` parameter, and its typed `ParseResult` has no crash path. Only `json.JSONDecodeError` is caught (line 78), so the source raises on some decodable lines. It raises when the top-level value, or a `doc` or `account` that is present, is not an object (lines 66-69). It also raises when a guard at line 73 or 75 passes and the sentiment is not a number (the `+=` at line 74 or 77), or when the guard at line 75 passes and `createdAt` cannot be sliced (line 76). A line whose non-numeric sentiment fails both guards is skipped silently in the source; the model cannot tell the two cases apart. Every field except `sentiment` (account `id`, `username` and `createdAt`) is assumed to be a string, and its truthiness is being non-empty. The source also raises `TypeError` on a truthy `id` or `username` that is a list or an object, because the key `(user_id, username)` at line 74 is then unhashable. It raises on a truthy list `createdAt` too: `time[:13]` at line 76 succeeds but gives a list, which cannot be a key at line 77. It accepts, for example, a numeric `username` as part of a key, which the model does not represent.
- Sentiments are exact `real` numbers. Floating-point rounding, which makes the sums depend on the reduction order, is not modelled, and neither is NaN.
- `TopK.Sort`: `heapq` itself is not modelled, only what it returns: the first `min(5, n)` entries of the sorted order.
- Line 81 names `count`, which is never defined. In Python that line raises `NameError` on every rank before the reduction. The model treats the line as if it were absent.
- Lines 84-90 only copy the maps, lines 6-10 are constants, and lines 32, 107 and 116-134 print. None of these is modelled.
- `Records.IsSpace` covers the characters `str.strip()` removes: ASCII whitespace, the separators 0x1C-0x1F, and the Unicode space separators listed in `Whitespace`.
- `MergeReduce.MergeDicts` is modelled on values. The source updates `a` in place and returns it; the aliasing of `a` is not captured.
- The comments at lines 47 and 50 say that the realignment moves to the start of a full line and skips a possibly incomplete line. The code as written also discards a complete line that begins exactly at the start offset. The model follows the code and records the case under Findings.

## Findings

| source | as written | input that shows it | evidently intended | confidence | as-written member | corrected member |
|---|---|---|---|---|---|---|
| main_parallel.py:48-50 | with a start offset above 0, `f.seek(start_offset); f.readline()` discards the line at the start offset. When that line begins exactly at the start offset, it is complete, and no rank reads it | `"a\nb\n"` on 2 ranks: rank 1 starts at offset 2, where `"b\n"` begins. Rank 0 stops at offset 2, so `"b\n"` never reaches the global maps | discard only a partial line (the comments at lines 47 and 50), by realigning from `start_offset - 1` | not executed | Coverage.BoundaryLineLost | Coverage.CorrectedJobIsSinglePass |
