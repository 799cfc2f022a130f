# fastqsearch in Dafny

`fastqsearch.py` counts guide sequences in a gzipped FASTQ file:

- `get_seqs` reads the decompressed file in chunks and searches each buffer with the pattern `@.*\n(.*)\n`, left to right and without overlap. A match starts at any `@`, even one inside a line, runs to the next newline, and captures the line after it as a record. A captured line is not searched again, so `@a\n@b\nC\n` yields only `@b`. The records are yielded in batches of 1000.
- `worker` slides a window of the key length `K` over each record of each batch it takes from the queue, and counts the windows that are guide keys.
- `go` builds the guide map from the stripped lines of the guide file. It takes `K` from the first key and `L` from the first record, queues every batch (and the last batch once more), and adds the workers' partial maps into the guide map.

The model has six modules:

- `Base`: bytes, `Option`/`Result`, and the three ways a run ends without a result.
- `Pattern`: the record pattern written out by hand, with `finditer` as `MatchesFrom`.
- `Extract`: `get_seqs`. `ScanFrom` is the pure state machine of the `while True` loop. It carries the last bound match end as an `Option<nat>`, because line 26 reuses a stale `m`. `Batched` is the batching, and `GetSeqs` is the imperative loop proved against both.
- `Counting`: `worker`. `Hits`/`RecordsHits`/`Count` are the counting formula over `range(0, L - K)`, and `Worker`/`CountTask`/`CountRecord` are the nested loops over a `map` proved against that formula.
- `Pipeline`: `go`. It covers `strip`, the guide map in insertion order, `K`, the dispatch loop, sharing the dispatched tasks among workers through a `schedule` function, the summation of the partial maps, and `Go` itself.
- `Scenario`: one whole run worked out. Guide lines `AAA` and `CCC`, and the single record `AAACCCAAA`.

The decompressed input is a sequence of byte chunks, one per `f.read`, and reads past the end return nothing. The guide file is its list of lines. Python's failures are `Err` results:

- `NoGuideKeys`: `next(iter(...))` on an empty guide map, line 52.
- `UnboundLastMatch`: `m` unbound at line 26.
- `UnboundLastBatch`: `seqs` unbound at line 58.

## Model

| member | source | states |
|---|---|---|
| Pattern.MatchAtComplete | fastqsearch.py:12 | every match of the pattern that starts at an `@` is the one `MatchAt` returns there |
| Pattern.MatchAtSound | fastqsearch.py:12 | what `MatchAt` returns satisfies the pattern: `@`, a line without newline, a newline, the captured line, a newline |
| Pattern.FindMatchSpec | fastqsearch.py:19 | one `finditer` step returns a match, no match starts between `pos` and it, and it returns nothing only when no match starts at or after `pos` |
| Pattern.MatchesWellFormed | fastqsearch.py:19 | the matches `finditer` reports are matches, strictly left to right and non-overlapping |
| Pattern.RecordsAreLines | fastqsearch.py:12-20 | each captured record holds no newline and is exactly the line that follows the stretch from the match's `@` (which need not start a line) to the next newline |
| Pattern.EndOfLastMatch | fastqsearch.py:26 | the cut point is the end of the last match, or the start if there is none, and the bytes kept after it hold no match |
| Pattern.MatchesExtend | fastqsearch.py:17-26 | the matches of a buffer extended by a chunk are the prefix's matches, then the matches that resume where the prefix's matches stop, and every one of those later matches ends past the prefix: the prefix's matches are exactly the whole buffer's matches that end inside it |
| Pattern.ChunkStep | fastqsearch.py:17-26 | appending a chunk to the kept bytes yields exactly the records of the whole input read so far that were not reported yet, and the cut stays consistent |
| Pattern.MatchesShift | fastqsearch.py:26 | searching the trimmed buffer finds the same records as searching the untrimmed one further on, and stops at the same place |
| Extract.ScanFails | fastqsearch.py:16-26 | the loop fails (unbound `m`) exactly when the first chunk is non-empty and holds no complete record; an empty input yields nothing |
| Extract.ScanFromBoundOk | fastqsearch.py:16-26 | once a match end is bound, the loop never fails |
| Extract.ExhaustedScan | fastqsearch.py:16-18 | after the last chunk, a buffer without a match yields no more records and the loop ends |
| Extract.RestHasNoMatch | fastqsearch.py:26 | the buffer kept by line 26 after a match holds no complete match, so no record is yielded twice |
| Extract.ScanWellChunked | fastqsearch.py:16-28 | when every chunk but the last completes a record, the records yielded are exactly the records of the whole input, in order, each once and whole |
| Extract.ScanFirstChunk | fastqsearch.py:16-28 | the same holds when the first chunk holds a record and every later chunk but the last completes one |
| Extract.StaleEndDropsRecord | fastqsearch.py:19-26 | as written, for the chunks `@\nA\n@`, `\n`, `C\n` the input holds the records `A` and `C` but only `A` is yielded |
| Extract.StaleEndInventsRecord | fastqsearch.py:19-26 | as written, for the chunks `@\nA\n`, `@xy\n@b`, `\nX\nY\n` the input holds the records `A` and `@b`, but `A` and `X` are yielded |
| Extract.ScanFixedComplete | fastqsearch.py:16-26 | with the cut made only after a match of the current buffer, every record of the input is yielded once, whole and in order, however the input is cut into chunks |
| Extract.FixedKeepsRecord | fastqsearch.py:16-26 | the repaired loop yields both records of the example of `StaleEndDropsRecord` |
| Extract.BatchedShape | fastqsearch.py:19-28 | the batches concatenate to the records in order; every batch but the last has exactly 1000 records, the last has 1 to 1000; no records means no batch |
| Extract.BatchedInverse | fastqsearch.py:19-28 | batching inverts flattening on batches of that shape, so the batches are determined by their records |
| Extract.AddRecord | fastqsearch.py:20-25 | appending one record appends it to the records collected so far, and yields a batch exactly when the count reaches 1000 |
| Extract.CollectRecords | fastqsearch.py:19-25 | the inner `for` loop appends exactly the buffer's records and rebinds the last match end only if the buffer had a match |
| Extract.GetSeqs | fastqsearch.py:10-28 | the generator run to completion yields the batches of the records `Scan` extracts, in order, or fails as `Scan` does |
| Counting.Window | fastqsearch.py:36 | `seq[i:i+K]` is never longer than `K`, and for `K > 0` it has length `K` exactly when it fits in the record, so a clipped window never equals a key of length `K` |
| Counting.HitsAsSet | fastqsearch.py:34-36 | the count for a key is the number of offsets in `range(0, n)` whose window is that key |
| Counting.CountRecord | fastqsearch.py:34-38 | the offset loop keeps the key set and raises every key by its number of windows in `range(0, n)`; a window that is not a key changes nothing |
| Counting.CountTask | fastqsearch.py:33-38 | one task keeps the key set and raises every key by its count over the task's records |
| Counting.Worker | fastqsearch.py:30-39 | a worker's map has exactly the guide keys, each mapped to its count over all the tasks the worker took |
| Counting.RecordsHitsAppend | fastqsearch.py:33-36 | counting over a concatenation of record lists is the sum of the counts |
| Counting.CountAppend | fastqsearch.py:32-36 | counting over a concatenation of task lists is the sum of the counts |
| Counting.CountPermutation | fastqsearch.py:32-36 | the count over a task list does not depend on the order of the tasks |
| Counting.CountGrows | fastqsearch.py:36 | counts only increase as tasks are processed |
| Counting.ShortTaskCountsNothing | fastqsearch.py:34 | when `L <= K` the offset range is empty and a task counts nothing |
| Counting.NoOffsetsNoHits | fastqsearch.py:34 | an empty offset range counts nothing in any record list |
| Counting.FullRangeCountsAll | fastqsearch.py:34-36 | with `L - K + 1` offsets, the count for a key is its number of occurrences in the record |
| Counting.LastOffsetMissed | fastqsearch.py:34 | with `range(0, L - K)` as written, the count misses exactly an occurrence at the last offset `L - K` |
| Counting.WorkerMissesLastWindow | fastqsearch.py:34-36 | the record `AAACCCAAA` holds `AAA` twice, but a task with `L = 9` and `K = 3` counts it once |
| Counting.FixedTaskCountsOccurrences | fastqsearch.py:33-36 | with the repaired range, a task whose records all have length `L` counts every occurrence of a key of length `K` |
| Counting.FullRangeRecords | fastqsearch.py:33-36 | the repaired range counts all occurrences over a list of records of equal length |
| Pipeline.Strip | fastqsearch.py:44 | the stripped line neither starts nor ends with whitespace and is no longer than the line |
| Pipeline.StripShape | fastqsearch.py:44 | `strip` removes only a whitespace prefix and a whitespace suffix |
| Pipeline.StripPadding | fastqsearch.py:44 | `strip` removes exactly the whitespace padding around a word that neither starts nor ends with whitespace |
| Pipeline.StripIdempotent | fastqsearch.py:44 | stripping twice changes nothing more |
| Pipeline.DedupDistinct | fastqsearch.py:44 | the guide keys in insertion order contain each key once |
| Pipeline.GuideMap | fastqsearch.py:44 | every stripped guide line is a key, every key is a stripped guide line, and every key starts at 0 |
| Pipeline.GuideMapKeys | fastqsearch.py:44 | a byte string is a guide key if and only if it is one of the stripped guide lines |
| Pipeline.KeyLength | fastqsearch.py:52 | `K` is the length of the first stripped guide line, which is a key; an empty guide file fails |
| Pipeline.Dispatch | fastqsearch.py:53-58 | the dispatch loop queues every batch with `L` from the first record of the first batch, then the last batch once more; with no batches it fails |
| Pipeline.Dispatched | fastqsearch.py:54-58 | the dispatched list is the batches in yield order followed by a second copy of the last task |
| Pipeline.TasksOfAt | fastqsearch.py:54-57 | task `i` of the loop carries batch `i` |
| Pipeline.TasksOfCount | fastqsearch.py:54-57 | queueing each batch once counts every record of every batch once |
| Pipeline.DispatchedCount | fastqsearch.py:54-58 | as written, the final count is the count over all records plus the count over the last batch again |
| Pipeline.LastBatchCountedTwice | fastqsearch.py:58 | for a single batch holding `AAACCCAAA`, `CCC` is counted once by the batches and twice by what is dispatched |
| Pipeline.SplitCount | fastqsearch.py:57-66 | however the tasks are handed to the `N` workers, the workers' counts add up to the count over all tasks |
| Pipeline.PartitionCount | fastqsearch.py:57-66 | any partition of the dispatched tasks among workers, in any order, gives the same total |
| Pipeline.AddPartial | fastqsearch.py:65-66 | adding one partial map keeps the key set and raises each key by its value in that map |
| Pipeline.Aggregate | fastqsearch.py:64-66 | the guide map after the loop holds each key's initial value plus its sum over all partial maps |
| Pipeline.CountAll | fastqsearch.py:47-66 | the workers started at lines 47-50, each given the tasks `schedule` assigns it, and the summation of their maps at lines 61-66 together give each key its count over all dispatched tasks; with no workers every key stays 0 |
| Pipeline.TotalAtIsCount | fastqsearch.py:52-66 | the stated final count of a key is its count over the dispatched tasks |
| Pipeline.ExpectedSucceeds | fastqsearch.py:41-67 | `go` returns a result if and only if the guide file has a line and the first read of the input holds a complete record |
| Pipeline.Go | fastqsearch.py:41-67 | `go` returns the error of the first failing step, or maps every guide key to its count over all records plus its count over the last batch |
| Pipeline.ExpectedFixedCountsOccurrences | fastqsearch.py:41-67 | with the three repairs, and records of equal length, every guide key of length `K` maps to its number of occurrences in the records of the input |
| Pipeline.FixedAtCountsOccurrences | fastqsearch.py:54-57 | dispatching each batch once with the repaired range counts every occurrence once |
| Pipeline.FixedAtFullRange | fastqsearch.py:54-57 | a repaired dispatch scans `L - K + 1` offsets of every record |
| Scenario.ScenarioAsWritten | fastqsearch.py:41-67 | for guide lines `AAA` and `CCC` and the input `@\nAAACCCAAA\n`, `go` returns `AAA` 2 and `CCC` 2 for any positive number of workers |
| Scenario.ScenarioFixed | fastqsearch.py:41-67 | the same run with the three repairs returns `AAA` 2 and `CCC` 1, the true numbers of occurrences |

## Left out

- gzip decompression and opening the files (lines 13, 17, 44) are foreign I/O. The chunks of decompressed input and the lines of the guide file are parameters. The chunk size of 40 MiB is not modelled, since the chunks are given.
- The `multiprocessing` processes and queues (lines 42-50, 61-62, 65) are concurrency: the `Queue(50)` capacity and its blocking, the `'STOP'` sentinel, and `done_queue`. The model keeps the list of dispatched tasks and a `schedule` that hands each task to a worker. In the source, with no workers, `go` blocks as soon as the queue holds 50 tasks. The model returns the zero-initialised guide map for any input with no workers.
- A negative worker count is not modelled: `numWorkers` is a `nat`.
- The general regex engine is replaced by this one pattern, written out.
- `argparse`, the printing and `.decode()` (lines 70-79) are command-line plumbing.
- Dict order: the guide map is a Dafny `map`. The insertion order that decides the first key at line 52 is `Dedup` over the stripped lines.
- Exceptions other than the `StopIteration` at line 52 and the two unbound names (`m` at line 26, `seqs` at line 58) are not modelled.
- Pipeline.Dispatch: requires the first yielded batch, if any, to be non-empty. `get_seqs` never yields an empty batch (`BatchedShape`). On an empty first batch, line 56 would raise `IndexError`.
- Extract.ScanFixedComplete: requires every chunk to be non-empty. A file read returns an empty chunk only at the end, and the repaired loop stops at the first empty read.

## Findings

| source | as written | input that shows it | evidently intended | confidence | as-written member | corrected member |
|---|---|---|---|---|---|---|
| fastqsearch.py:26 | after a chunk with no match, the buffer is cut at the end of the previous buffer's last match, which discards bytes of a record that is still incomplete | chunks `@\nA\n@`, `\n`, `C\n`: the record `C` is never yielded | cut the buffer only after a match of the current buffer | not executed | Extract.StaleEndDropsRecord | Extract.ScanFixedComplete |
| fastqsearch.py:26 | the same stale cut can keep the tail of a header line, which the next chunk then completes into a false match, so a record is yielded that the input does not hold | chunks `@\nA\n`, `@xy\n@b`, `\nX\nY\n`: `A` and `X` are yielded, the input holds `A` and `@b` | cut the buffer only after a match of the current buffer | not executed | Extract.StaleEndInventsRecord | Extract.ScanFixedComplete |
| fastqsearch.py:58 | the last batch is queued a second time after the loop, so its records are counted twice; with no batches `seqs` is unbound | one batch holding `AAACCCAAA`, guide `CCC`: counted 2, occurs once | queue every batch exactly once | not executed | Pipeline.LastBatchCountedTwice | Pipeline.TasksOfCount |
| fastqsearch.py:34 | `range(0, L - K)` never scans the last window, at offset `L - K` | record `AAACCCAAA`, guide `AAA`, `L = 9`, `K = 3`: counted 1, occurs twice | `range(0, L - K + 1)` | not executed | Counting.WorkerMissesLastWindow | Counting.FixedTaskCountsOccurrences |
