# scylla-bench: verified decisions of a load generator

scylla-bench decides which rows and token ranges many workers touch, which bytes they write and how those bytes are
checked later, when an operation may start, and when a run must stop. This project models those decisions and proves what
they promise for all inputs, all schedules and runs of any length. Database access is not part of it.

| file | what it models |
|---|---|
| `GoInts.dfy` | 64-bit wrap-around, truncating division, and facts about products and quotients |
| `Words.dfy` | `uint64` words as bits, their little-endian bytes, conversions to and from `int64` |
| `Crc32c.dfy` | CRC32C (section 12.1 of RFC 3720) bit by bit, and the errors it detects |
| `Payload.dfy`, `PayloadBits.dfy` | the xorshift64 payload, bit by bit and in numbers, and the guarantee that values are not all zero |
| `Codec.dfy`, `CodecTheorems.dfy` | `GenerateData` and `ValidateData`: exact acceptance and detected corruption |
| `Generators.dfy` | `SequentialVisitAll` and `RangeScan` |
| `RunLoop.dfy`, `Batches.dfy` | `TestIterator`, the test loop, one row, one batch or one token range per operation |
| `SequentialFleet.dfy`, `BatchFleet.dfy` | the sequential workload of all threads together |
| `TokenScan.dfy` | the token ring, its split over threads, and what a full scan reads |
| `TimeSeriesKeys.dfy`, `TimeSeriesWriter.dfy`, `TimeSeriesReader.dfy` | time-series keys, the writers of a series, and readers that follow them |
| `StopProtocol.dfy`, `StopTheorems.dfy` | error limits, the `sync.Once` and the global error flag as interleaved atomic steps |
| `RateLimiter.dfy` | the rate limiter on the manual clock and latencies corrected for coordinated omission |
| `LatencyStack.dfy` | the double-buffered stack with its asynchronous callback |
| `Sampling.dfy` | rejection sampling and the uniform distribution |
| `Counters.dfy` | counter updates and the check of a counter row |
| `Retry.dfy` | retries with exponential back-off |

Conventions. Rows are numbered so that row `x` of a table with `c` rows per partition is clustering key `x % c` of partition
`x / c`. A loop that ends when the stop flag is raised takes a number `quiet`: how many reads of the flag still find it
clear. A run nobody stops is one with a large `quiet`. Random draws, the clock, the outcome of an operation and the schedule
of threads are parameters, so what is proved holds for all of them. A run-time panic is a result (`null`, `Panics`).

Several properties one might expect hold only under a condition. Each is stated as an equivalence with that condition:

* Restarting makes an empty share work. With more threads than rows (or ranges) and more than one iteration the idle threads
  visit the first row past the table (or read range 0 again): `FleetExactlyOnce`, `BatchesCoverTable`,
  `EveryTokenOncePerIteration`. Scan mode does not start more threads than ranges: `ScanModeReadsEveryToken`.
* Those idle threads are also what makes loaders with disjoint partitions draw a key in common: `LoadersDisjoint`.
* Reads without a lower bound never get past the first partition, and never end unless the share is empty:
  `RunUnboundedReads`.
* A value cut to less than 24 bytes is accepted if its size and keys read as a small value, for example every value of 257
  bytes cut to its first byte: `CutAccepted`, `ExtensionAccepted`.
* Two rows share a payload if their mixed keys are 0 and 1, and such rows exist: `PartitionsShareStream`,
  `SharedStreamExists`.
* A time series whose period comes out as zero repeats keys unless partitions hold one row: `NoKeyTwice`.
* Reader threads leave the positions the writer fills if they reach further: `ReaderInsideWriter`.
* A reader panics once the length of a generation, period times rows, leaves 64 bits and its wrapped value has passed:
  `NeverPanics`. Before the start of the series it panics as `PanicsBeforeStart` says.
* Writer and reader disagree on the period if the rates round differently, as with 3 threads, 10 partitions and 100 operations
  a second: `PeriodsAgreeIff`, `TenPartitions`.
* The limit on all errors lets any number of errors by if the 32-bit counter has no room for the limit and one error of
  each worker, unless the limit on errors in a row is one: `EnforcedIffFits`, `ReportedIffFits`.
* `Uniform` panics when the width of its interval leaves 63 bits, and with bounds in the wrong order unless their difference
  wraps to a positive width: `GenerateUsing`.
* A counter row that only saw whole updates fails the check once updates times clustering key leaves 64 bits:
  `UpdatedRowPasses`.

Where the user documentation and the code differ, the model follows the code: the write rate per partition is the maximum
rate divided by the partition count (`README.md` says concurrency divided by partition count), and a counter update adds
`ck`, `ck + 1`, ... to the five counters (`README.md` says one to each).

## Model

| member | source | states |
|---|---|---|
| `Codec.GenerateData` | modes.go:316-360 | panics exactly on a negative size and on an empty validated value; otherwise the fresh buffer holds the value laid out for the row, with, without and beside validation |
| `Codec.FillSmall` | modes.go:332-339 | below 24 bytes: the size byte, the bytes of pk^ck that fit, zeros |
| `Codec.FillHeader` | modes.go:340-344 | size, pk and ck as little-endian words, the rest untouched zeros |
| `Codec.FillBody` | modes.go:346-355 | payload of the row and its CRC32C after an untouched header |
| `CodecTheorems.SmallBits` | modes.go:332-339 | from 2 to 23 bytes the first byte is the size, and a bit of the next eight that fit is set exactly when pk and ck differ in it |
| `CodecTheorems.HeaderBits` | modes.go:340-344 | from 24 bytes on the bits of the first 24 bytes are those of size, pk and ck, lowest first |
| `CodecTheorems.TailBytes` | modes.go:346-357 | from 57 bytes on the header is followed by the row's payload and, in the last four bytes, its CRC32C (`TailZeros`: up to 56 bytes by zeros) |
| `CodecTheorems.PlainValues` | modes.go:317-328 | without validation the value is all zeros or the row's payload, a short all-zero one with a one in its first byte, and with a payload never all zero |
| `CodecTheorems.SmallVerdict` | modes.go:367-407 | below 57 bytes: the reason for each rejection, and the only value that is accepted |
| `CodecTheorems.GeneratedAccepted` | modes.go:330-435 | whatever is written with validation validates, for every row and size from 1 |
| `CodecTheorems.SmallExact` | modes.go:367-407 | below 57 bytes `ValidateData` accepts the generated value and nothing else |
| `CodecTheorems.FullExact` | modes.go:409-434 | from 57 bytes on a value is accepted exactly when its header is the row's and payload with checksum leaves the CRC residue |
| `CodecTheorems.VerdictNamesFault` | modes.go:380-432 | a full value is rejected for the first of size, pk, ck and checksum that is not the row's |
| `CodecTheorems.OneChecksumPerPayload` | modes.go:423-432 | for a payload only one checksum is accepted |
| `CodecTheorems.AcceptedForOwnRowOnly` | modes.go:388-418 | from 24 bytes on a row's value is accepted for that row only |
| `CodecTheorems.SmallAcceptedByXor` | modes.go:332-339 | below 24 bytes it is accepted for another row exactly when the stored bytes of pk^ck agree |
| `CodecTheorems.SmallTellsPartitionsApart` | modes.go:332-339 | from 9 bytes on partitions of one clustering key are told apart |
| `CodecTheorems.SmallAcceptsExchangedKeys` | modes.go:337 | small values cannot tell a row from the one with its keys exchanged |
| `CodecTheorems.BurstRejected` | modes.go:380-432 | any change of a full value confined to 32 consecutive bits, in header, payload, checksum or across them, is rejected |
| `CodecTheorems.FourByteChangeRejected` | modes.go:380-432 | any change confined to four consecutive bytes is rejected |
| `CodecTheorems.OddFlipsRejected` | modes.go:380-432 | any odd number of flipped bits anywhere is rejected |
| `CodecTheorems.ResizedRejected` | modes.go:369-386 | with its size field kept a value of another length is rejected, when both lengths are below 24 bytes or neither is |
| `CodecTheorems.CutAccepted` | modes.go:369-407 | a value cut to n bytes is accepted if and only if n is below 24, its size is not, size modulo 256 is n and the kept bytes of size and keys are those of pk^ck and zeros |
| `CodecTheorems.ExtensionAccepted` | modes.go:369-434 | a value has an accepted extension to n bytes under the same condition with the lengths exchanged, and otherwise none |
| `CodecTheorems.OneByteLeft` | modes.go:376-386 | values of 257 bytes, or any size ending in that byte, are accepted for every row when cut to one byte |
| `CodecTheorems.NineBytesLeft` | modes.go:376-407 | values that are accepted with all eight bytes of the size kept, such as 265 bytes for row (0, 1) cut to nine |
| `Crc32c.PolyValue` | modes.go:266 | the taps of the register are the reflected Castagnoli polynomial 0x82F63B78 |
| `Crc32c.ChecksumOfOnes` | modes.go:353 | the checksum of four bytes 0xFF is 0xFFFFFFFF |
| `Crc32c.Window` | modes.go:353 | two windows of at most 32 bits take two registers to one exactly when they differ where the registers differ |
| `Crc32c.BurstChangesRegister` | modes.go:424 | messages that differ only inside 32 consecutive bits end in different registers |
| `Crc32c.OddFlipsChangeRegister` | modes.go:424-426 | messages that differ in an odd number of bits end in different registers |
| `Crc32c.ResidueIffChecksum` | modes.go:423-426 | four bytes take the register to the residue exactly when they are the checksum of what precedes them |
| `Payload.FillPayload` | modes.go:272-295 | the word loop and its tail fill the buffer with the first bytes of the stream of xorshift64 states from the row's seed, and write nothing else |
| `PayloadBits.NextBit` | modes.go:280-282 | each bit of the next state as the sum of at most eight bits of the state, which shifts by 13, 7 and 17 leave |
| `PayloadBits.NextOfOne` | modes.go:275-282 | the state after 1 is 1082269761 |
| `PayloadBits.SeedBits` | modes.go:273-277 | each bit of the seed by the products of pk with 6364136223846793005 and ck with 1442695040888963407; one where they are equal |
| `PayloadBits.PayloadWords` | modes.go:278-286 | each whole word of a payload is the state one step after that of the word before, the first one step after the seed |
| `PayloadBits.FirstPayload` | modes.go:272-286 | the payload of row (0, 0) begins 41 20 82 40 |
| `Payload.NextInjective` | modes.go:280-282 | the xorshift64 step is injective, hence a bijection of the words |
| `Payload.PayloadNonZero` | modes.go:299-301 | a payload of eight bytes or more has a non-zero byte among its first eight |
| `Payload.EnsureNonZero` | modes.go:304-314 | a buffer of one to seven zeros gets a one in its first byte, any other stays as it is |
| `Payload.DefaultValueNonZero` | modes.go:317-328 | the value written without validation is not all zero for any row and any size from 1 |
| `Payload.PartitionsShareStream` | modes.go:273-277 | with one clustering key, different partitions share a payload of eight bytes or more exactly when their mixes are 0 and 1 |
| `Payload.RowsShareStream` | modes.go:274-277 | the same for different rows of one partition |
| `Payload.SharedStreamExists` | modes.go:275-277 | two partitions that do share every payload |
| `Payload.SharedRowsExist` | modes.go:275-277 | two rows of one partition that do |
| `Words.Int64Uint64` | modes.go:377 | a word reads as the signed size exactly when it is that size written |
| `Generators.NewSequentialVisitAll` | pkg/workloads/workloads.go:47-62 | an error exactly without clustering rows; otherwise a cursor at the given row number, at a row of its partition exactly for offsets from zero and whole partitions |
| `Generators.StartRowInPartition` | pkg/workloads/workloads.go:51-52 | the truncating remainder of an offset is a row of a partition exactly for offsets from zero and whole partitions |
| `Generators.SequentialVisitAll.NextPartitionKey` | pkg/workloads/workloads.go:68-76 | gives the partition of the next row, moving on at a partition's end, without moving past a row |
| `Generators.SequentialVisitAll.NextClusteringKey` | pkg/workloads/workloads.go:78-83 | gives the next row of the partition and moves past it |
| `Generators.SequentialVisitAll.Restart` | pkg/workloads/workloads.go:89-93 | back at the first row with nothing processed |
| `Generators.RangeScan.NextTokenRange` | pkg/workloads/workloads.go:322-352 | the bounds of the current range are the exact ones modulo 2^64, although sums and products wrap on the way; then one range further |
| `RunLoop.TestIterator.IsDone` | modes.go:158-173 | ends on the stop flag or after the last iteration, restarts a finished workload otherwise |
| `RunLoop.RunRows` | modes.go:198-252 | one row per operation: how many operations are attempted and which row each takes, over iterations and stops, for any row offset |
| `RunLoop.RunUnboundedReads` | modes.go:887-888 | reads without a lower bound ask for one partition until stopped; over an empty share they end with its iterations |
| `RunLoop.RunScan` | modes.go:944-977 | one token range per operation: how many and which |
| `Batches.DrawBatch` | modes.go:569-606 | a batch is `RowsPerRequest` consecutive rows of one partition or ends with the partition's last row; one cut short by the stop flag is dropped |
| `Batches.PassInTurn` | modes.go:569-606 | within a pass each batch begins where the one before ended |
| `Batches.RunBatches` | modes.go:564-640 | the batches of a run are the pass again and again, exactly as many as iterations and reads of the stop flag allow, each full or ending with its partition |
| `SequentialFleet.GetSequentialWorkload` | main.go:186-200 | the generator of a thread starts at its share and holds its row count; none exactly without clustering rows |
| `SequentialFleet.ShareExact` | main.go:187-195 | no step of the split wraps when the table's row numbers fit 64 bits |
| `SequentialFleet.NextBoundary` | main.go:189-195 | shares follow one another without gap or overlap |
| `SequentialFleet.NonEmptyShares` | main.go:189-194 | no share is empty exactly when there are at least as many rows as threads |
| `SequentialFleet.RunThread` | main.go:186-200 | from split to end of loop a thread draws exactly its keys in order, or the first `quiet` of them |
| `SequentialFleet.FleetExactlyOnce` | modes.go:158-173 | all threads together draw every key of the table exactly `iterations` times and no other key, if and only if no share is empty or there is one iteration |
| `SequentialFleet.RowPastTheTable` | modes.go:163-169 | otherwise an idle thread touches the first row past the table on every restart |
| `SequentialFleet.FleetDraws` | modes.go:158-173 | the keys a loader draws at all: its table and, with idle threads and a second iteration, the row after it |
| `SequentialFleet.LoadersDisjoint` | main.go:195 | loaders with disjoint partition ranges draw a key in common if and only if idle threads of one run into the other's keys |
| `BatchFleet.PassEndBounds` | modes.go:577-600 | a pass covers its share, overshoots by less than one request and stays in the last partition |
| `BatchFleet.RunBatchThread` | modes.go:548-641 | from split to end of loop a thread sends its pass again and again, and all of it exactly when the flag stays clear for the reads that takes |
| `BatchFleet.BatchesCoverTable` | modes.go:574-603 | batched writes of all threads touch exactly the table, if and only if no share is empty or there is one iteration |
| `BatchFleet.BatchKeys` | modes.go:574-599 | a batch holds the keys of one partition with consecutive clustering keys |
| `TokenScan.RangesTile` | pkg/workloads/workloads.go:322-352 | every token lies in exactly one of the ranges, for every range count |
| `TokenScan.RangeSizes` | pkg/workloads/workloads.go:329-349 | all ranges but the last have one size, the last is larger by 1 + (2^64-1) mod n |
| `TokenScan.GetScanWorkload` | main.go:241-250 | the generator of a thread holds its share |
| `TokenScan.RunScanThread` | modes.go:944-977 | from split to end of loop a thread scans its ranges in order, over and over |
| `TokenScan.EveryTokenOncePerIteration` | main.go:242-250 | the split reads every token exactly once per iteration, if and only if threads do not outnumber ranges or there is one iteration |
| `TokenScan.ScanModeReadsEveryToken` | main.go:653-656 | with the threads scan mode starts every token is read exactly once per iteration, for any concurrency |
| `TimeSeriesKeys.PackExact` | pkg/workloads/workloads.go:198 | shift and or are exact for positions and generations of 32 bits |
| `TimeSeriesWriter.TimeSeriesWrite.constructor` | pkg/workloads/workloads.go:158-181 | the state before the first draw and the period |
| `TimeSeriesWriter.TimeSeriesWrite.NextPartitionKey` | pkg/workloads/workloads.go:187-199 | draw number k yields the closed form of position and generation |
| `TimeSeriesWriter.TimeSeriesWrite.NextClusteringKey` | pkg/workloads/workloads.go:201-205 | the negated time of the row the draw belongs to |
| `TimeSeriesReader.WriterPeriodIs` | pkg/workloads/workloads.go:164-166 | the period is 1000000000 nanoseconds times the thread's partitions divided by its rate, rounded down |
| `TimeSeriesReader.ReaderPeriodIs` | pkg/workloads/workloads.go:254 | the reader's period is 1000000000 nanoseconds divided by the rate it is told, rounded down |
| `TimeSeriesWriter.PositionOwner` | pkg/workloads/workloads.go:167-191 | each position from the offset to threads times cycle belongs to one thread and one place of its cycle |
| `TimeSeriesWriter.EvenThreads` | pkg/workloads/workloads.go:188-190 | the positions are the partition count rounded up to whole rounds of the threads, exactly it when and only when threads divide it |
| `TimeSeriesWriter.NoKeyTwice` | pkg/workloads/workloads.go:187-205 | no key comes up twice in any run of all threads, if and only if the period is not zero or partitions hold one row |
| `TimeSeriesWriter.GenerationRows` | pkg/workloads/workloads.go:191-195 | each generation of a position is filled by exactly `CkCount` draws |
| `TimeSeriesWriter.NewerRowsSortFirst` | pkg/workloads/workloads.go:203-204 | later rows of a position have strictly smaller clustering keys |
| `TimeSeriesReader.ScheduledRow` | pkg/workloads/workloads.go:187-205 | every row number of every position the threads cover is written by some draw of some thread |
| `TimeSeriesReader.TimeSeriesRead.NextPartitionKey` | pkg/workloads/workloads.go:283-291 | position in closed form, generation drawn below its bound, panic exactly when the bound, computed in 64 bits, is not positive or cannot be computed |
| `TimeSeriesReader.TimeSeriesRead.NextClusteringKey` | pkg/workloads/workloads.go:293-298 | the key of a row drawn from the generation, panic exactly when the bound, computed in 64 bits, is not positive |
| `TimeSeriesReader.ReadsWhatIsDue` | pkg/workloads/workloads.go:283-298 | with a clock that does not go back from the start on, and a generation that fits 64 bits or is not over, the reader does not panic and reads a row of the schedule, due by then |
| `TimeSeriesReader.EveryDueRowReachable` | pkg/workloads/workloads.go:283-298 | every row due at the first draw is read for some pair of draws |
| `TimeSeriesReader.ReadRow` | modes.go:865-891 | two successive calls of a reader that follows the writers return the keys of a draw of some writer thread, due by then |
| `TimeSeriesReader.NeverPanics` | pkg/workloads/workloads.go:288-294 | no read panics up to a given time after the start, if and only if the length of a generation fits 64 bits or its wrapped value is not reached by then |
| `TimeSeriesReader.LargePartitionsPanic` | pkg/workloads/workloads.go:288-294 | one row a second and 18446744074 rows to a partition: some read panics within a second |
| `TimeSeriesReader.PanicsBeforeStart` | pkg/workloads/workloads.go:288-296 | the clock readings at which the first and the second draw panic |
| `TimeSeriesReader.ReaderInsideWriter` | pkg/workloads/workloads.go:252-287 | readers stay at positions the writer fills, if and only if their span is no longer |
| `TimeSeriesReader.EvenThreadsAgree` | pkg/workloads/workloads.go:252-287 | the span is no longer when both numbers of threads divide the partitions |
| `TimeSeriesReader.PeriodsAgreeIff` | pkg/workloads/workloads.go:164-166 | for all threads, partitions and rates: when the writers' period is the one a reader gets from the printed rate |
| `TimeSeriesReader.EvenPeriodsAgreeIff` | pkg/workloads/workloads.go:254 | the same in remainders, when threads divide partitions and rate |
| `TimeSeriesReader.WholePeriodsAgreeIff` | main.go:950 | if the printed rate divides a second, the periods agree exactly when no operations are left over |
| `TimeSeriesReader.PeriodsAgree` | main.go:225 | they agree when threads divide partitions and rate, and partitions divide the rate |
| `TimeSeriesReader.WholeRatesAgreeIff` | main.go:225 | at q operations a second for each partition, q dividing a second, they agree exactly when q times the partitions threads leave over is less than the threads |
| `StopProtocol.RunInv` | modes.go:208-250 | every schedule of atomic steps keeps the invariant of counter, once, flag and workers, whatever the limits |
| `StopProtocol.RunCountInv` | modes.go:226-246 | as long as the counter has not wrapped, each error past the limit is another worker's, and that worker goes through the once |
| `StopTheorems.FailuresCounted` | modes.go:225-228 | every failed operation is counted exactly once, in a counter that wraps at 32 bits |
| `StopTheorems.ErrorsAtRowCounted` | modes.go:217-228 | a worker's errors in a row are its failed operations since the last that succeeded, unregistered ones left aside |
| `StopTheorems.EnforcedIffFits` | modes.go:226-249 | on every schedule fewer errors than limit plus workers are counted, if and only if the counter has room for as many or one error in a row is the limit |
| `StopTheorems.ErrorsBounded` | modes.go:226-249 | while it has room the counter shows every error and stays below its limit plus the number of workers |
| `StopTheorems.BoundAttained` | modes.go:226-249 | some schedule reaches the limit plus the number of workers less one |
| `StopTheorems.LimitMissed` | modes.go:226-249 | without room, schedules with any number of errors that no limit notices |
| `StopTheorems.LargestLimitMissed` | modes.go:241 | the limit 2^31 - 1 is not enforced for two workers |
| `StopTheorems.LimitErrorOnce` | modes.go:241-246 | at most one critical error for the limit, and only once as many errors have been counted |
| `StopTheorems.LimitErrorRecorded` | modes.go:241-249 | when all workers have left after the limit was reached and the counter has not wrapped, it has been recorded exactly once |
| `StopTheorems.ReportedIffFits` | modes.go:241-249 | a limit that was reached is recorded by the end of every run, if and only if the counter has room or, with one error in a row, the workers are too few to reach or to wrap it |
| `StopTheorems.FlagMeansRecorded` | pkg/worker/worker.go:60-63 | the flag is never up without a recorded critical error |
| `StopTheorems.OneMoreOperation` | modes.go:247-249 | a worker begins at most one operation after the flag is up |
| `StopTheorems.ErrorsAtRowBounded` | modes.go:237-240 | no worker has more errors in a row than the limit, and one that has as many begins no other operation |
| `StopTheorems.RowErrorsRecorded` | modes.go:237-240 | by the end of a run each worker that reached the limit on errors in a row has recorded that exactly once, and no other has |
| `StopTheorems.NeverStuck` | modes.go:241-246 | unless all workers have left, one can move: the once never blocks everybody |
| `StopTheorems.StopsSoon` | modes.go:247-249 | with the flag up any schedule of real steps is at most twelve per worker long |
| `RateLimiter.MaximumRateLimiter.Wait` | pkg/ratelimiter/rate_limiter.go:29-36 | afterwards the clock is at the later of now and the due time, and only the wait was slept |
| `RateLimiter.NewRateLimiter` | pkg/ratelimiter/rate_limiter.go:42-53 | no limiter for rate zero, otherwise one that starts now with the period of the rate |
| `RateLimiter.RunLimited` | modes.go:208-222 | start and corrected latency of every operation of a run follow the queue recursion |
| `RateLimiter.StartsWhenDueAndFree` | pkg/ratelimiter/rate_limiter.go:29-36 | an operation starts at the later of its due time and the time the worker is free |
| `RateLimiter.RunUnlimited` | modes.go:211-222 | without a limiter the corrected latency is the operation's own time |
| `RateLimiter.CoFixedIsLargest` | modes.go:222 | the corrected latency is the maximum, over every start of the busy period, of work done since less periods gone by |
| `RateLimiter.BackToBack` | modes.go:222 | the same over operations alone when no time passes between them |
| `RateLimiter.RateNotExceeded` | pkg/ratelimiter/rate_limiter.go:29-36 | at most x / period operations start within x of the start |
| `LatencyStack.Stack.Push` | pkg/stack/stack.go:68-80 | appends one value, flushes a full buffer first, stays in bounds and leaves the buffer being read alone |
| `LatencyStack.Stack.Swap` | pkg/stack/stack.go:40-45 | exchanges the buffers; when it waits, everything pushed has been delivered; its result is always true |
| `LatencyStack.Stack.SwapData` | pkg/stack/stack.go:48-58 | waits for the running callback, then starts one on the values given |
| `LatencyStack.Stack.CallbackStep` | pkg/results/result.go:58-63 | the callback takes the next value of its buffer, in order, and writes no buffer |
| `LatencyStack.RunAndFlush` | pkg/stack/stack.go:40-80 | over any run of pushes, swaps and callback steps each value is delivered exactly once and in order |
| `Sampling.Int64N` | random/random.go:418-430 | the first word from 2^64 modulo n up, taken modulo n; panic exactly for n <= 0 |
| `Sampling.OneWord` | random/random.go:422-427 | a single word gives itself modulo n exactly when it is not below 2^64 modulo n, and otherwise nothing |
| `Sampling.ThresholdIsRemainder` | random/random.go:422-423 | the threshold is 2^64 modulo n |
| `Sampling.EveryResultEquallyOften` | random/random.go:416-430 | exactly 2^64 / n of all words lead to each result, and more than half of all words lead to one |
| `Sampling.StreamsMatch` | random/random.go:424-429 | streams of any length that lead to one result are matched one to one with those that lead to another |
| `Sampling.GenerateUsing` | random/random.go:333-338 | lands in [Min, Max) for Min < Max, panics exactly when the width does not fit; for Max < Min panics unless the width wraps, then lands outside [Max, Min) |
| `Counters.AfterUpdates` | modes.go:681-683 | after any number of whole updates the counters are that multiple of ck, ck+1, ... |
| `Counters.CheckedIsMultiple` | modes.go:837-847 | five values pass the check if and only if they are one multiple of ck, ck+1, ... whose first divides back, also for zero and negative keys |
| `Counters.UpdatedRowPasses` | modes.go:837-847 | an updated row passes if and only if updates times key fits 64 bits |
| `Retry.Execute` | modes.go:482-511 | at most `RetryNumber` + 1 executions, stopping at the first success; failure only after all of them |
| `Retry.PauseIs` | modes.go:177-194 | every pause in closed form: Min * 2^(attempts - 1) and the jitter's share of Min less half of it, capped and rounded down |
| `Retry.PauseBounds` | modes.go:177-194 | a pause is not negative, at most the maximum and at most its place in the progression |
| `Retry.TotalBackoffBounded` | modes.go:437-454 | all pauses of an operation together: at most R times the maximum and at most Min * (2^R - 1 + R) / 2 |

Short lemmas that fix one constant or formula each are not listed: `Crc32c.ChecksumOfNothing`, `PayloadBits.NextLinear`,
`PayloadBits.NextOfBit`, `CodecTheorems.SmallZeros`, `CodecTheorems.TailZeros`, `TokenScan.EqualScanShares`,
`TimeSeriesWriter.CkExact`, `Retry.DefaultBounds`, `GoInts.QuoTruncates`.

## Left out

- Database sessions, CQL text, schema preparation, TLS, host policies and client routes: input and output.
- Flag parsing and configuration printing, version information, table formatting: no decisions.
- `RandomUniform`: a single draw below a bound.
- Half-normal draws of the time-series reader: only uniform draws are modelled; a half-normal draw can equal its bound, which names a generation that has not begun.
- Mixed mode: it records raw write and read latencies twice, and reads and writes share one generator; nothing beyond the parts modelled here is promised of it.
- Errors of reads: `executeReadsQuery` returns no error of the iterator, so retries of reads never happen.
- Table scans with a handler other than `sb`: they are retried without bound; `Retry.Execute` describes writes, batches and counter updates.
- Reads with an IN restriction: they draw rows as a batch does, and zeros at the end of a partition.
- HdrHistogram, log writing and the printing goroutine: foreign code.
- SequentialVisitAll: its cursor and count are unbounded integers; they wrap only after 2^63 rows. The split of the table does model 64-bit products and sums.
- DrawBatch: batches are described for cursors at rows of their partition, and so are fleets: a negative row offset that is no whole number of partitions gives keys with negative clustering keys (`RunRows` says which row numbers), which is not followed further.
- TimeSeriesWrite: positions, generations and the two counters are unbounded integers until they are packed or multiplied with the period, where 64-bit arithmetic is modelled.
- TimeSeriesWrite.NextPartitionKey: the closed form is for positive numbers of threads, partitions and rows; with none the source's writer stays at its first position.
- NoKeyTwice: speaks of draws whose positions and generations fit 32 bits each and whose times fit 64 bits; outside, keys are packed as the code packs them and may coincide.
- ReadsWhatIsDue: speaks of the time from the start of the series on and of less than 2^63 - 1 nanoseconds; positions and generations of the keys are compared as the program packs them.
- PeriodsAgreeIff: the product of a second and the partitions of a thread fits 64 bits, and neither rate is zero, which is a division by zero in the source.
- MaximumRateLimiter: durations are unbounded integers; the product of period and operations wraps after 292 years.
- RunLimited: operations take the time given for them; the zero time, which the loop takes for "no limiter", is not a start time here.
- Execute: floating-point rounding of the pause is not modelled, times are reals rounded down to nanoseconds.
- Stack: calls to `Push` and `Swap` are taken one at a time, as the code promises nothing for concurrent pushes.
- StopProtocol: the stop flag and the end of the workload are one decision of the environment at the loop's head; reads and writes inside an operation are one step.
