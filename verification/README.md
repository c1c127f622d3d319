# A verified model of CSB

CSB runs micro-benchmarks: a Python runner places containers on cores, starts C benchmark programs with command-line flags, and collects `key=val;` result lines; each C program fills an operation table, lets worker threads read it cyclically between two barriers, and merges per-thread statistics; a pair of network tools exchanges data along a small operation program; a script selects distinct benchmarks. This project models those parts in Dafny and proves what they guarantee.

`dafny verify dfyconfig.toml` checks everything.

| module | part of CSB |
|---|---|
| `Bits`, `Sampling`, `Shuffle` | bit arithmetic, random draws, the in-place shuffle (`math.h`, `rand.h`) |
| `OpTable`, `Cyclic` | filling the operation table and reading it cyclically (`benchmark.c`) |
| `PhaseProtocol` | main and N workers, the two barriers, the stop flag, the clock readings (`benchmark.c`) |
| `Buckets`, `Stats` | histogram buckets on both sides, per-cell statistics and their merge (`bm_stats.h`, `bm_visualize.py`) |
| `Clock` | durations and throughput (`time.h`, `bm_stats.h`) |
| `Timestamps`, `Report` | where the recorded times and results come from, and what the printed statistics say about them (`benchmark.c`, `bm_stats.h`) |
| `Driver` | what flags, warm-up, run phase, statistics and clocks guarantee together |
| `DiffSet` | the selection pass and the rows it is given (`diffset.py`, `diff-all.sh`) |
| `OpProgram`, `Connection`, `Pair` | operation programs, server and client connections, and both joined by byte queues (`helper.h`, `server.c`, `client.c`, `test-comm.sh`) |
| `CorePlacement` | count lists, default offsets, core sets (`list.py`, `container.py`, `bm_utils.py`, `bm_process.py`) |
| `Flags` | flags from the runner to the reader (`application.py`, `bm_params.h`) |
| `Results` | result lines and their intersection (`bm_stats.h`, `benchmark.py`, `bm_utils.py`) |
| `Text`, `Lines`, `Seqs`, `Arithmetic` | decimal text, splitting, sums, counts and permutations, division facts |

## How it is modelled

- A random source is an arbitrary finite list of words. A draw that runs out of words stands for a call that has not returned yet, so every statement covers every stream.
- The run phase is a step relation: one step is the next action of one thread, in any interleaving, under sequentially consistent memory and clocks that never run backwards. The result of a dispatched operation is arbitrary.
- Counters of the statistics engine wrap at 2^64. The factor 1.1 of the buckets is the real number 11/10: the double is slightly above it and the widths of the table are small, so truncation gives the same integers.
- Readiness events and the results of send, recv and connect are inputs. Arrays, lists and structures that the sources update in place are arrays and classes here.

## What the proofs show about the code

- The selection can drop a benchmark although no survivor is close to it: `diff-all.sh` prints each pair in one direction only, and of the files b, a, c it can lose b (`OneDirectionLosesABenchmark`). A list of distinct files is safe for every symmetric measure and every cutoff exactly when its names descend from the second file on (`DiffAllKeepsPromiseExactly`); the survivor always has a smaller name exactly when the whole list descends (`DiffAllRepresentsExactly`). Rows that give both directions are always safe (`FirstIndependentSet`).
- A server connection closes as soon as its step is 0 after a call. A program whose first count is not 1, such as `2r1023-1w32` of the usage text and of `test-comm.sh`, is therefore cut off after one call (`RunsOnceExactly`, `UsageExampleIsCutOff`).
- Server and client treat a count of 0 differently. As long as the server keeps the connection, both sides make the same calls exactly when no count is 0 or the first count is not 1, which closes the connection after one call (`SameCallsExactly`, `SameCallsInSpiteOfZero`). The two `advance_step` functions agree for ever exactly when there are operations and no count is 0 (`SidesAgreeExactly`).
- Both tools receive on `w` and send on `r`, so a pair that runs one program can make a call only if the program does not begin with `w` (`PairStartsExactly`), and the server can make all its calls exactly when each receive is some time sent enough and the two sides have no deadlock (`FinishesExactly`). For sides that make the same calls that means: at every receive more bytes can have been sent than receives were made (`SameCallsFinishExactly`); `1r1-2w1` cannot finish (`SecondReceiveStarves`).
- Once the server has closed, a receive of the client returns 0, which counts as a success: the inner loop then goes on for ever exactly when no operation sends (`LoopsForeverExactly`).
- The buffer size `max + 1` becomes 0 exactly for the largest size (`BufferFitsExactly`).
- Both network programs store the result of `parse_ops` in a `size_t` and then ask whether it is negative, so no program is refused (`LoadProgram`). The stored count fits the table exactly when the text is well formed or its first 128 entries are (`CountFitsExactly`); `x` counts as 2^64 - 1 operations, and what stands behind 128 good entries is not looked at (`MalformedIsCounted`, `MalformedBehindFullTable`).
- The empty program is accepted as well; the first successful call of a client then takes a remainder by 0, while a server connection closes before that can happen (`ClientPlace`, `ServerConn.ReadWrite`).
- Threads start at different table positions, as the comment says, exactly up to 1024 threads (`StartsDifferExactly`).
- `random_next_int64` asserts that the masked number is not below `min`; that holds for all draws exactly when `min` is aligned (`AlignedDrawExact`).
- An operation prints a minimum below the universal one exactly when it was idle and every measured sample of any operation took time: its initial minimum prints as 0, that of all operations as 2^64 - 1 (`MinimaDisagreeExactly`, `EmptyMinimaDiffer`).
- A missing `-opN=` flag can go unnoticed: the reader accepts a line that gives another flag twice instead, unless the uninitialised memory happens to hold 2^32 - 1 (`RepeatedFlagHidesMissing`, `AcceptedWithoutFlag`, and for any arguments `AcceptedExactly`). What is stored is independent of the memory exactly when every operation has a flag (`StoredExactlyWhenSet`).
- Equal spans of time can be measured one microsecond apart; `SpentTimeExactly` says when and by how much. A window nested in another is never measured longer (`NestedWindows`).

## Model

| member | source | states |
|---|---|---|
| Bits.RoundUpIsLeast | bench/include/CSB/math.h:24-29 | rounding up gives the least power of two at or above v, below 2v |
| Bits.RoundDownIsGreatest | bench/include/CSB/math.h:15-36 | rounding down gives the greatest power of two at or below v, and the logarithm is its exponent |
| Bits.IsPowerOfTwoExact | bench/include/CSB/math.h:46-47 | the bit trick holds exactly for the powers of two |
| Bits.ModPowerOfTwoIsMod | bench/include/CSB/math.h:56-57 | both branches of the macro give the remainder, for every positive divisor |
| Bits.AndHighMask | bench/include/CSB/rand.h:185 | masking with the complement of 2^a - 1 rounds down to a multiple of 2^a |
| Bits.LeastContainingMultipleExact | bench/include/CSB/math.h:131-138 | the assert passes exactly when the 64-bit sum does not wrap, and then the result is the least multiple at or above the input |
| Bits.Wrap64IsModulo | bench/include/CSB/bm_stats.h:22-30 | 64-bit counters hold values modulo 2^64 |
| Sampling.WordSource.DeterministicRandom | bench/include/CSB/rand.h:287-295 | the loop returns the first accepted remainder and consumes exactly the words up to it |
| Sampling.WordSource.DeterministicRandomNextInt | bench/include/CSB/rand.h:297-302 | a draw lies in [min, max] |
| Sampling.RejectionIsUniform | bench/include/CSB/rand.h:125-143 | every value below the range is accepted for the same, nonzero number of words |
| Sampling.DrawCanEnd | bench/include/CSB/rand.h:138-140 | after any rejected words some word ends the loop with any wanted value |
| Sampling.RandomWithProbability | bench/include/CSB/rand.h:205-221 | the running-sum loop finds the first index between whose 32-bit running sums the draw lies, or reaches the final assert |
| Sampling.ChosenExactly | bench/include/CSB/rand.h:212-217 | index k is returned exactly when its weight is the first to lift the 32-bit running sum to the draw |
| Sampling.ChosenBySums | bench/include/CSB/rand.h:212-217 | without wrap-around, index k is returned exactly for draws between its two prefix sums |
| Sampling.WeightsAreExact | bench/include/CSB/rand.h:193-203 | weights that sum to 100 make exactly weights[k] of the 100 draws return k |
| Sampling.UnreachableExact | bench/include/CSB/rand.h:219-220 | for any weights, the final assert is never reached by draws 1 to 100 exactly when some 32-bit running sum reaches 100 |
| Sampling.UnreachableBySum | bench/include/CSB/rand.h:219-220 | for weights whose sum stays in 32 bits: exactly when they sum to 100 or more |
| Sampling.NextInt64Floors | bench/include/CSB/rand.h:178-185 | the draw is the number of the words, reduced to the range and moved above min, rounded down to a multiple of 2^a; only a result below min fails |
| Sampling.AlignedDraw | bench/include/CSB/rand.h:168-191 | with an aligned min every draw is an aligned value in [min, max] |
| Sampling.AlignedDrawExact | bench/include/CSB/rand.h:187-188 | the asserts hold for all draws exactly when min is aligned |
| Sampling.SmallNumbersAreKept | bench/include/CSB/rand.h:178-185 | a number of the two words below the range is moved above min and lowered by less than 2^a |
| Sampling.OnlyTheRemainderCounts | bench/include/CSB/rand.h:178-185 | words whose numbers differ by a multiple of the range draw the same |
| Sampling.EveryAlignedValueIsDrawn | bench/include/CSB/rand.h:168-191 | with an aligned min, every aligned value of the range is drawn by some words |
| Shuffle.ShuffleInPlace | bench/include/CSB/rand.h:304-313 | the array becomes the shuffle of its old contents by the picks the words determine, complete or as far as the words go |
| Shuffle.ShuffledReadsThrough | bench/include/CSB/rand.h:307-312 | the shuffled array is the old one read through the permutation of the picks |
| Shuffle.ShuffleIsOneCycle | bench/include/CSB/rand.h:304-313 | whatever the picks, the permutation is one single cycle through all positions |
| Shuffle.NothingStays | bench/include/CSB/rand.h:304-313 | in a completed shuffle of two or more distinct elements none keeps its position |
| Shuffle.RecoverUndoesSattolo | bench/include/CSB/rand.h:304-313 | the picks can be recovered from the permutation |
| Shuffle.ShuffledTellsPicks | bench/include/CSB/rand.h:304-313 | on distinct elements, different picks shuffle to different arrays |
| Shuffle.EveryCycleIsShuffled | bench/include/CSB/rand.h:304-313 | every single cycle is the result of some picks, the recovered ones |
| OpTable.Warmup | bench/benchmark.c:112-149 | the assert fails exactly for sums other than 1024; otherwise the table is the fill of the words: operation by operation, each in the next probed empty slot; a completed fill holds operation k exactly dist[k] times and passes the final check, an unfinished one still has an empty slot |
| OpTable.FindEmptySlot | bench/benchmark.c:133-140 | probing ends on the first accepted draw that hits an empty slot, having used exactly the words up to it, or has used all words |
| OpTable.FreeSlot | bench/benchmark.c:130-143 | at every probe some slot is empty |
| OpTable.ProbeCanEnd | bench/benchmark.c:134-140 | whatever words missed so far, the number of any empty slot ends the probing there |
| OpTable.StartsAreSpread | bench/benchmark.c:78-79 | the starts are 1024 / threads positions apart, rounded down or up, beginning with 0 |
| OpTable.StartsDifferExactly | bench/benchmark.c:78-79 | start positions differ exactly for at most 1024 threads |
| OpTable.OpAtIsCyclic | bench/benchmark.c:88 | the wrap of the 64-bit counter does not disturb the cyclic reading |
| Cyclic.FullTurn | bench/benchmark.c:86-103 | a full turn from any position meets each value as often as the table holds it |
| Cyclic.FairShare | bench/benchmark.c:86-103 | any n consecutive positions meet a value between floor and ceiling of its share, exactly after full turns |
| PhaseProtocol.StepKeepsInv | bench/benchmark.c:64-203 | every step of main or a worker keeps barriers, phases, clocks, rows and late counts in order |
| PhaseProtocol.FullBarrier | bench/benchmark.c:168-169 | a barrier of N + 1 arrivals has seen every thread |
| PhaseProtocol.RunIsMeasured | bench/benchmark.c:171-194 | in every state of every run all operations lie between the outer two readings, and the readings are nested |
| PhaseProtocol.OperationsInsideWindow | bench/benchmark.c:86-103 | operations are picked, dispatched and recorded only between the first and the last reading, and a worker writes only its own row |
| Timestamps.RecordsComeFromSteps | bench/benchmark.c:86-103 | every recorded operation has three earlier steps of its worker at its own counter: the pick, after which the clock shows its start, the dispatch, which carries its result, and the end reading, after which the clock shows its end |
| Timestamps.KeptReadingsAreOwn | bench/benchmark.c:171-194 | each of the eight kept readings is the clock at the step of main it belongs to |
| PhaseProtocol.ConcludeAfterAllLeft | bench/benchmark.c:196-198 | the conclusion starts only after every worker has deregistered and left |
| PhaseProtocol.AtMostOneLate | bench/benchmark.c:83-103 | after the flag is set a worker records at most one more operation |
| PhaseProtocol.RunKeepsDistribution | bench/benchmark.c:78-103 | in every state each worker has run each operation within one turn of its share, exactly after full turns |
| PhaseProtocol.SomeStepIsProgress | bench/benchmark.c:83-109 | no deadlock: a run that has not ended has an enabled step that decreases the measure |
| PhaseProtocol.RunsCanFinish | bench/benchmark.c:171-198 | every run can be completed, and a run that cannot go on has ended |
| PhaseProtocol.StopEndsEveryRun | bench/benchmark.c:184-198 | once the flag is set every schedule ends within 9 N + 8 steps |
| Driver.FrequenciesAreKept | bench/benchmark.c:78-148 | after the warm-up, in every state of every run, each operation has run between its frequency times the completed turns and times the begun turns |
| Driver.ReadAndWarmUp | bench/benchmark.c:112-149 | the command line of an accepted configuration is read back without an error, the sum assert fails exactly without operations, and a completed table holds each operation as often as configured |
| Driver.RunFeedsStatistics | bench/benchmark.c:90-98 | every recorded operation meets the asserts of the statistics, with its own thread, index and duration |
| Driver.ReportOfRun | bench/benchmark.c:217-222 | the printed statistics of a run are, per operation and over all, the totals modulo 2^64, the extremes and the histogram of the recorded operations themselves, with nothing skipped |
| Report.DirectDescribes | bench/include/CSB/bm_stats.h:192-239 | the printed line of an operation describes its recorded operations: calls, successes, time, extremes and bucket hits |
| Driver.ThroughputsAreOrdered | bench/benchmark.c:205-213 | the inner windows are not longer than the outer ones, so each minimal throughput is at most the maximal one |
| Buckets.BucketsGrow | bench/include/CSB/bm_stats.h:87-93 | buckets are contiguous, with widths w -> floor(1.1 w) from 100, strictly growing |
| Buckets.NextInC | bench/include/CSB/bm_stats.h:90-92 | sum first, truncate after: the next bucket of the integer table |
| Buckets.NextInPython | bm-runner/bm_visualize.py:295-298 | truncate first, sum after: the same next bucket |
| Buckets.InitRanges | bench/include/CSB/bm_stats.h:87-93 | the stored bounds are the upper bounds of the table, for any number of buckets |
| Buckets.FindBucket | bench/include/CSB/bm_stats.h:127-133 | the search ends at the bucket index of the duration |
| Buckets.UniqueBucket | bench/include/CSB/bm_stats.h:127-134 | that is the one bucket containing the duration, the last also taking the overflow |
| Buckets.Averages.AppendBuckets | bm-runner/bm_visualize.py:289-298 | the loop appends the middle of every bucket |
| Buckets.Averages.CreateHistogramPlot | bm-runner/bm_visualize.py:283-302 | repeated plots keep every entry at the middle of its bucket |
| Buckets.Averages.RowLatency | bm-runner/bm_visualize.py:244-246 | the latency of a histogram column is the middle of the bucket of the C side |
| Stats.BmStat.constructor | bench/include/CSB/bm_stats.h:64-94 | all cells start as the statistics of no samples |
| Stats.BmStat.AddOp | bench/include/CSB/bm_stats.h:106-136 | one sample is added to its own cell, which stays the direct statistics of its samples, and to no other |
| Stats.BmStat.MergeThreads | bench/include/CSB/bm_stats.h:192-209 | the merge over threads gives the direct statistics per operation |
| Stats.BmStat.Collect | bench/include/CSB/bm_stats.h:220-257 | the printed operation and universal statistics are the direct ones over the whole trace |
| Stats.BmStat.MergeCell | bench/include/CSB/bm_stats.h:197-207 | field by field merge of two cells |
| Stats.MergeHistogram | bench/include/CSB/bm_stats.h:205-207 | bucket by bucket 64-bit sum |
| Stats.DirectAppend | bench/include/CSB/bm_stats.h:116-135 | how one sample changes the statistics of any scope |
| Stats.MergeIsUnion | bench/include/CSB/bm_stats.h:192-228 | merging the statistics of disjoint scopes gives those of their union, with wrap-around |
| Stats.ExtremesAreReached | bench/include/CSB/bm_stats.h:124-125 | minimum and maximum bound all measured samples and are reached, or keep their initial values |
| Stats.SuccessesAreCalls | bench/include/CSB/bm_stats.h:120-122 | successes never exceed calls at any level if they do not in any sample and the calls fit 64 bits |
| Stats.HistogramCountsSamples | bench/include/CSB/bm_stats.h:119-135 | with fewer than 2^64 samples, the total of the stored histogram is the number of samples that were not skipped |
| Stats.HistogramIsExact | bench/include/CSB/bm_stats.h:134 | with fewer than 2^64 samples the stored entries are exact |
| Stats.SumAtLeastLowers | bench/include/CSB/bm_stats.h:119-134 | while the total fits 64 bits, the stored sum is at least the stored histogram weighted by lower bounds |
| Stats.SumAtMostUppers | bench/include/CSB/bm_stats.h:119-134 | while the total fits 64 bits, the stored sum is at most the stored histogram weighted by upper bounds when the maximum is within the table |
| Stats.MinimumIsInitial | bench/include/CSB/bm_stats.h:119-134 | a minimum keeps its initial value exactly when every measured sample of its scope took 2^64 - 1 ticks |
| Stats.MinimaDisagreeExactly | bench/include/CSB/bm_stats.h:223-239 | an operation prints a minimum below the universal one exactly when it was idle and every measured sample of any operation took time |
| Stats.EmptyMinimaDiffer | bench/include/CSB/bm_stats.h:223-239 | for example without measured samples, where operation minima print 0 and the universal minimum 2^64 - 1 |
| Clock.SpentTimeIsClose | bench/include/CSB/time.h:104-121 | microseconds and nanoseconds measure the same span, less than a microsecond apart |
| Clock.SpentTimeExactly | bench/include/CSB/time.h:104-121 | the measured microseconds are those of the span plus a phase error of -1, 0 or 1, which is 0 exactly when the seconds agree, whole microseconds are apart, or both differences have one sign |
| Clock.SpentTimeDependsOnPhase | bench/include/CSB/time.h:104-109 | equal spans are measured differently exactly by the difference of their phase errors; an example of one microsecond |
| Clock.NestedWindows | bench/include/CSB/time.h:104-109 | a window nested in another is never measured longer |
| Clock.ThroughputIsRate | bench/include/CSB/bm_stats.h:277-285 | a throughput times its duration is 1000 times the scaled number of operations |
| Clock.ThroughputOrder | bench/include/CSB/bm_stats.h:277-285 | the longer duration gives the smaller throughput |
| DiffSet.LessExactly | scripts/fg-diff/diffset.py:12 | names are compared as strings: a proper prefix comes first, and otherwise the first different character decides |
| DiffSet.Process | scripts/fg-diff/diffset.py:9-15 | the pass returns exactly the benchmarks no active benchmark is close to, however ties are sorted, and drops not everything |
| DiffSet.SurvivorsAreApart | scripts/fg-diff/diffset.py:13-14 | for any relation no row relates two distinct survivors below the cutoff |
| DiffSet.RepresentedExactly | scripts/fg-diff/diffset.py:9-15 | for any relation, every dropped benchmark has a close survivor of smaller name exactly when no active benchmark is close to an active one of smaller name |
| DiffSet.FirstIndependentSet | scripts/fg-diff/diffset.py:9-15 | for symmetric closeness (or backward implying forward) a benchmark survives exactly when no smaller survivor is close to it, and every dropped one has such a survivor |
| DiffSet.LexicographicallyFirst | scripts/fg-diff/diffset.py:9-15 | compared with any independent set, the least name on which they differ is a survivor |
| DiffSet.GreedyChoiceIsUnique | scripts/fg-diff/diffset.py:9-15 | that set is unique |
| DiffSet.DiffAll | scripts/fg-diff/diff-all.sh:12-26 | the script prints each file against those up to itself |
| DiffSet.DiffAllKeepsPromiseExactly | scripts/fg-diff/diff-all.sh:12-26 | on the rows of a list of distinct files, every dropped benchmark is close to some survivor, for every symmetric measure and cutoff, exactly when the names descend from the second file on |
| DiffSet.DiffAllRepresentsExactly | scripts/fg-diff/diff-all.sh:12-26 | that survivor always has a smaller name exactly when the whole list descends |
| DiffSet.OneDirectionIsPrinted | scripts/fg-diff/diff-all.sh:12-26 | the rows of the example are what the script prints for the files b, a, c |
| DiffSet.OneDirectionLosesABenchmark | scripts/fg-diff/diff-all.sh:12-26 | on them b is dropped although no survivor is close to it |
| Text.StrtoulReadsDecimal | bench/network/helper.h:21 | a printed number is read back and the pointer stops behind it |
| Text.SpacesAre | bench/network/helper.h:21 | white space is what the C locale calls so |
| Text.StrtoulExactly | bench/network/helper.h:21 | on any text: behind white space and a sign the longest run of digits counts, too large values are clamped, a minus sign negates modulo 2^64 |
| Text.NoNumber | bench/network/helper.h:21 | without a digit the result is 0 and the pointer stays |
| OpProgram.ParseOps | bench/network/helper.h:14-55 | fills the array from the left with what the text says, returns their number or the error code, and leaves the rest |
| OpProgram.NextEntry | bench/network/helper.h:21-46 | one turn of the loop reads one entry and moves on |
| OpProgram.LetterDecides | bench/network/helper.h:23-34 | behind a count, any character but r and w is refused |
| OpProgram.LetterIsNeeded | bench/network/helper.h:23-25 | a text that ends behind its first number is refused |
| OpProgram.SeparatorDecides | bench/network/helper.h:37-45 | behind an entry, a - leads on and any other character is refused |
| OpProgram.ParseUndoesPrint | bench/network/helper.h:14-55 | a printed program parses to the same list, up to the capacity |
| OpProgram.LoadProgram | bench/network/server.c:166-171 | a program is never refused, and the stored count is the number of entries or 2^64 minus 1 or 2 |
| OpProgram.CountFitsExactly | bench/network/client.c:242-247 | the stored count is at most the capacity of 128 exactly when the text is well formed or its first 128 entries are, and then it is the number of good entries up to 128 |
| OpProgram.MalformedBehindFullTable | bench/network/helper.h:20 | for example 128 or more entries and an x behind them: malformed, and stored as 128 |
| OpProgram.MalformedIsCounted | bench/network/client.c:242-247 | for example the text x counts as 2^64 - 1 operations |
| OpProgram.GetMaxBufferSize | bench/network/helper.h:79-89 | the maximum of all sizes, or 0 |
| Connection.ParsedIsProgram | bench/network/helper.h:14-55 | every text that parses is a program with 64-bit counts, and it has operations exactly when the text is not empty |
| Connection.ServerConn.AdvanceStep | bench/network/server.c:62-70 | the next position, with a 64-bit counter; false for the remainder by 0 |
| Connection.ServerConn.ConfigWait | bench/network/server.c:45-60 | the kernel waits for the direction of the current operation |
| Connection.ServerConn.constructor | bench/network/server.c:229-252 | a new connection starts at the first operation and waits for its direction |
| Connection.ReportedEvents | bench/network/server.c:78-89 | a failure can be reported in every state, and otherwise readiness in the registered direction only |
| Connection.ServerConn.ReadWrite | bench/network/server.c:72-101 | readiness and size asserts hold, a successful call is the current operation, the connection closes exactly on failure or when its life is over, and no remainder by 0 is taken |
| Connection.ServerConn.Serve | bench/network/server.c:220-256 | an undisturbed connection makes one call per event and closes after the whole program, or after one call when the first count is not 1 |
| Connection.ServerPlace | bench/network/server.c:62-70 | after k calls the server is at place k of the program unrolled by its counts and read cyclically; with the empty program it divides by 0 only after 2^64 calls |
| Connection.ClientPlace | bench/network/client.c:64-72 | the same for the client, whose first call divides by 0 with the empty program |
| Connection.SidesAgreeExactly | bench/network/client.c:64-72 | the two functions lead to the same positions for ever exactly when there are operations and no count is 0 |
| Connection.SameCallsExactly | bench/network/server.c:62-101 | while the server keeps the connection, both sides make the same calls exactly when no count is 0 or the first count is not 1; the positions behind the last call agree exactly when moreover there are operations and the first count is not 0 |
| Connection.SameCallsInSpiteOfZero | bench/network/server.c:95-100 | for example 2r5-0w1, where the server closes before the positions part |
| Connection.ServerLifetime | bench/network/server.c:95-100 | the number of calls until the server unregisters |
| Connection.RunsOnceExactly | bench/network/server.c:95-100 | a connection runs the whole program once exactly when the first count is 1 |
| Connection.FullPassIsTheProgram | bench/network/server.c:62-101 | the calls of a pass are the operations in order, each as often as its count |
| Connection.UsageExampleIsCutOff | bench/network/server.c:109-113 | the program of the usage text is cut off after one call |
| Connection.BufferFitsExactly | bench/network/server.c:173-175 | the allocated size fits every operation exactly when no size is 2^64 - 1 |
| Connection.ClientConn.AdvanceStep | bench/network/client.c:64-72 | a successful call is the current operation and moves to the next position; it divides by 0 exactly for the empty program |
| Connection.ClientConn.ConfigWait | bench/network/client.c:47-62 | the kernel waits for the direction of the current operation |
| Connection.ClientConn.CallUntilBlocked | bench/network/client.c:143-152 | all successful calls are made in program order, unless the first of them divides by 0 |
| Connection.LoopsForeverExactly | bench/network/client.c:143-152 | once only sends fail, because the server has closed, the loop goes on for ever exactly when no operation sends |
| Connection.ClientPool.ReadWrite | bench/network/client.c:126-163 | readiness and size asserts hold, the connection stays exactly after temporary errors, and the count is right |
| Connection.ClientPool.RegisterNew | bench/network/client.c:83-124 | a connection is counted exactly when it was made |
| Connection.ClientPool.Unregister | bench/network/client.c:74-81 | one connection less, and the count is right |
| Connection.ClientPool.Refill | bench/network/client.c:321-325 | connections are made up to the wanted number or the first failure |
| Pair.FinishesExactly | bench/network/test-comm.sh:5-20 | for every program run by both sides, the server can make all calls of its life exactly when the client some time sends enough for each of its receives and no pair of positions is a deadlock |
| Pair.DeadlockHolds | bench/network/server.c:72-101 | no schedule and no portions of the network take either side past a deadlock |
| Pair.SameCallsFinishExactly | bench/network/client.c:126-163 | when both sides make the same calls: exactly when at each receive more bytes can have been sent than receives were made |
| Pair.PairStartsExactly | bench/network/test-comm.sh:5-20 | a pair can make a call at all exactly when its program does not begin with a receive |
| Pair.ClosedServerHoldsNobodyUp | bench/network/client.c:143-152 | once the server has closed, a client that can make a call is never held up |
| Pair.SecondReceiveStarves | bench/network/test-comm.sh:5-20 | for example 1r1-2w1 never ends |
| CorePlacement.GetList | bm-runner/config/list.py:66-81 | exactly the listed values and those of each span from min to max in whole steps (from min down to above max + 1 for a negative step), sorted without duplicates; a zero step is an error |
| CorePlacement.SortedUnique | bm-runner/config/list.py:78 | strictly increasing with the same elements |
| CorePlacement.Range | bm-runner/config/list.py:31-32 | the elements of a Python range: exactly the numbers reached by whole steps before the end |
| CorePlacement.OffsetsCoverEveryCount | bm-runner/config/container.py:55-59 | every container of every listed count finds its default offset, and there are as many offsets as the largest count |
| CorePlacement.GetCpuSet | bm-runner/bm_utils.py:140-162 | the clamped and wrapped block of cores |
| CorePlacement.BlockHasNoRepeats | bm-runner/bm_utils.py:151-159 | no container gets a core twice, and every core exists |
| CorePlacement.LoadsAreBalanced | bm-runner/config/container.py:55-59 | the loads of any two cores differ by at most one, for any number of containers, cores and machine size |
| CorePlacement.PlaceContainers | bm-runner/bm_process.py:71-75 | from the configured counts to the core sets: every container finds its offset, and the loads of any two cores differ by at most one |
| CorePlacement.DisjointExactly | bm-runner/config/container.py:55-59 | two or more containers have disjoint cores exactly when the machine has enough |
| Flags.Params.MatchField | bench/include/CSB/bm_params.h:96-116 | an argument is stored in the field of the first pattern found in it, and an operation index out of range fails |
| Flags.Params.Extract | bench/include/CSB/bm_params.h:163-189 | the number of arguments is checked, all are stored in order, and every value must be set |
| Flags.FlagIsFoundFirst | bench/include/CSB/bm_params.h:19-22 | a simple pattern is found at the first place where -X= and a digit stand, anywhere in the argument |
| Flags.OpIsFoundFirst | bench/include/CSB/bm_params.h:23 | the operation pattern is found at the first place where -op, digits, = and a digit stand |
| Flags.LargeValuesWrap | bench/include/CSB/bm_params.h:64 | a decimal value is clamped to 64 bits and stored in 32 |
| Flags.ValueReadsOctal | bench/include/CSB/bm_params.h:64 | behind a leading 0 the digits are octal |
| Flags.SimpleFlagMatches | bench/include/CSB/bm_params.h:19-22 | a printed simple flag matches its own pattern and no other |
| Flags.OpFlagMatches | bench/include/CSB/bm_params.h:23 | a printed operation flag matches its own pattern and no other |
| Flags.FlagsAreReadBack | bench/include/CSB/bm_params.h:163-189 | printed flags in any order are stored as exactly the configuration, whatever the memory held |
| Flags.CommandLineSplits | bm-runner/config/application.py:127-132 | the command line splits into exactly the flags |
| Flags.RunnerDischargesWarmup | bm-runner/config/application.py:82-87 | the sum the runner checks is the one the warm-up asserts |
| Flags.NoOperationsAreAccepted | bm-runner/config/application.py:82-87 | the check of the runner lets an empty list of operations pass |
| Flags.MissingSimpleFlag | bench/include/CSB/bm_params.h:163-189 | without an argument for the threads, the noise, the duration or the size, the line is reported as incomplete |
| Flags.MissingOperationKeepsMemory | bench/include/CSB/bm_params.h:174-186 | an operation without a flag keeps what the memory held |
| Flags.StoredExactlyWhenSet | bench/include/CSB/bm_params.h:163-189 | for arguments that are stored without failing, what is stored is the same for every memory of 32-bit values exactly when every operation is set by some argument |
| Flags.AcceptedExactly | bench/include/CSB/bm_params.h:163-189 | arguments that are accepted on some memory are accepted on another exactly when that does not hold 2^32 - 1 for an operation without a flag |
| Flags.RepeatedFlagHidesMissing | bench/include/CSB/bm_params.h:163-189 | with one operation flag replaced by a second one of another operation, the line is accepted exactly when the memory does not hold 2^32 - 1 |
| Flags.AcceptedWithoutFlag | bench/include/CSB/bm_params.h:163-189 | for example two operations and the flag of the first given twice |
| Lines.SplitUndoesJoin | bm-runner/benchmark.py:154 | splitting undoes joining |
| Lines.JoinUndoesSplit | bm-runner/benchmark.py:154 | joining undoes splitting |
| Results.ParseOutput | bm-runner/benchmark.py:145-158 | the loop gives the dictionaries of all lines that are not blank, or the error |
| Results.StripExactly | bm-runner/benchmark.py:145 | stripping cuts off exactly the white space at both ends |
| Results.SplitLinesExactly | bm-runner/benchmark.py:146 | the lines are what stands between newlines, and a newline at the end begins no further line |
| Results.BlankLinesAreSkipped | bm-runner/benchmark.py:150-151 | blank lines do not matter |
| Results.LinesInOrder | bm-runner/benchmark.py:149-156 | other lines give their dictionaries in order, and an error in one fails the whole |
| Results.ParseLineExactly | bm-runner/benchmark.py:152-154 | a line is split at every ; except one at its end |
| Results.ParseFieldsExactly | bm-runner/benchmark.py:155 | a line is an error exactly when some field has no =, and otherwise a key has the value of its last field |
| Results.SplitFieldExactly | bm-runner/benchmark.py:155 | a field is split at its first = |
| Results.LineReadsBack | bench/include/CSB/bm_stats.h:50-60 | a printed line parses to the dictionary of its fields |
| Results.OutputReadsBack | bm-runner/benchmark.py:145-156 | the concatenated output of any number of units parses to their dictionaries in order |
| Results.LengthsDecide | bm-runner/bm_utils.py:249-251 | the length test holds exactly when all key sets are equal |
| Results.FilteredKeepsCommonKeys | bm-runner/bm_utils.py:256-257 | each filtered dictionary has exactly the common keys with its original values |
| Results.DictIntersect | bm-runner/bm_utils.py:240-271 | equal keys: the same list, untouched; otherwise the filtered dictionaries, and the originals get the header |

## Left out

- Generated system-call targets and the redis server target: a dispatch result is an arbitrary pair of counts.
- Docker, subprocess, perf, sar, mpstat, plugins, monitors, the start file and port checks: process control.
- Plots, HTML, data frames, `log_scale` and the configuration files: library calls.
- Averages, percentages and the formatting of printed numbers: they are quotients of the counters proved here.
- Socket, epoll and memory-allocation failures, getopt and address parsing. A failed `epoll_ctl` is taken to succeed.
- The relaxed memory model, hardware counters, and wall clocks that are set back during a run.
- `random_init_seed`, the initialised flag, and the string generators of `rand.h`.
- Termination of probing and rejection with probability one: the model proves that a word exists that ends the loop (`DrawCanEnd`, `ProbeCanEnd`, the OutOfWords case of `Warmup`).
- `Shuffle.ShuffleInPlace`: arrays longer than 2^31 + 1 elements, where the round-up of the original shifts a 32-bit number by 32, which C leaves undefined.
- What the network programs do once they have stored the count of a malformed program.
- `DiffSet.DiffAll`: a pair whose flame graphs show no difference has an empty third column; here every row carries a number.
- `Flags.ValueAt`: hexadecimal text (a leading 0x) of `strtoul` in base 0; decimal and octal are modelled, and the printers produce decimal.
- `Flags.Params.MatchField`: general regular expressions; the five fixed patterns are modelled as searches for their text.
- `Results.SplitLines`: line separators other than the newline character, and white space that only Python knows (the characters 28 to 31 and those outside ASCII).
- `Sampling.NextInt64`: the full 64-bit range, whose size wraps to 0 and would be the divisor of a remainder.
- `CorePlacement.GetCpuSet`: the cores are a list, not comma-joined text; warnings are not printed.
- `CorePlacement.GetList`: the optional format string.
- `Stats.BmStat`: one object per program; two objects sharing cells cannot occur, as the original has one global.
- `PhaseProtocol`: `usleep`, `sleep`, noise and the CPU query are no steps of their own; barrier initialisation and destruction happen while only main runs.
- Round-robin assignment of applications to containers, and the random noise before each operation.
- `Connection.ClientConn.CallUntilBlocked`: some call is assumed to fail after finitely many successes; `LoopsForeverExactly` says when that cannot happen once the server has closed.
- `Pair.FinishesExactly`: failures and lost bytes, which end a connection early, are not part of the joined model.
