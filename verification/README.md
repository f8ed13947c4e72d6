# Fleetbench: verified core logic

A Dafny model of the parts of Fleetbench that are logic rather than plumbing, with proofs. Check it with
`dafny verify dfyconfig.toml`.

| part | files |
|---|---|
| gzip header parser (`gzipheader.cc`) | `GzipHeader.dfy`, `GzipHeaderLanguage.dfy` |
| zlib wrapper (`zlibwrapper.cc`) | `Codec.dfy`, `GzipFraming.dfy`, `InflateProgress.dfy`, `StreamReuse.dfy`, `ZLib.dfy` |
| worker and scheduler protocol (`worker.py`, `parallel_bench_lib.py`) | `WorkerProtocol.dfy`, `WorkerProtocolInvariant.dfy`, `WorkerProtocolTheorems.dfy`, `WorkerProtocolProgress.dfy`, `WorkerProtocolAffinity.dfy` |
| libc block allocator (`mem_benchmark.cc`) | `BlockLru.dfy`, `BlockOrder.dfy`, `MemOffsets.dfy`, `RetryLoop.dfy`, `MemBenchmark.dfy` |
| libc size sampler (`mem_benchmark.cc`) | `SizeSampler.dfy` |
| benchmark probabilities (`parallel_bench_lib.py`) | `TimeShare.dfy` |
| workload weights (`weights.py`) | `WorkloadWeights.dfy` |
| shared | `Bytes.dfy`, `Numbers.dfy`, `Wrappers.dfy` |

## How the parts are modelled

**Header parser and zlib wrapper.** `GZipHeader` and `ZLib` are classes with the fields of the originals.
What a byte string means is defined on values: `Parse` reads a header byte by byte, `Encode` is the syntax of
section 2.3 of RFC 1952, `Analyse` takes a string through header, body and footer, `Accepts` says which
strings are complete messages. Two ghost fields of `ZLib` record the bytes given and the output handed out for
the current message, and every call is specified by what those bytes mean as a whole. That chunked and whole
decompression agree, for every cut, is then a consequence. zlib itself is foreign: `Codec` is a record of
functions, and every result is stated for all values of it. A decompressor is any automaton that reads byte
by byte and knows where the body ends; `Inverts`, that it undoes the compressor, is a hypothesis of the round
trips alone; `CrcIs32Bit` is one of the results that compare checksums with footers; both can be met
(`Codec.AssumptionsCanBeMet`). Whether each set-up call
of zlib succeeds is an input.

**Worker protocol.** The threads are a state machine on values: one controller, one thread per CPU, and one
step for each interaction with a queue, a lock or a flag, interleaved in any order. `Unblock` is two steps, so
the window between clearing the flag and releasing the lock is there, for the worker and for the controller
that gives up a placement. `TryAddRun` is one step, which is exact because only the controller sets the flag
or fills the command queue. How long a run executes is the time until the step that publishes its result.
The theorems are about every state that any run of these steps can reach.

**Allocator and sampler.** `BlockList` is a class; a shuffle is any function that permutes. The retry loop runs
until it finds a destination; a number of rounds after which to stop looking matters only where
`RetryLoop.LoopEnds` is false, which is proved to be exactly where the loop need not end. The sampler fills an
array and repairs it in place.

**Probabilities and weights.** Loops over lists and dictionaries, specified by what makes the result right
(fairness; totals and proportions). Percentages, durations, probabilities and weights are real numbers.

## What the proofs found

- `Reinit` breaks stream reuse: it records zlib-header mode in a field that both streams share while it only
  resets a deflate stream that was created headerless. If one is alive, some later run of calls compresses
  without a header although the settings ask for one; if none is, no run does (`StreamReuse.ReinitIsSafeIff`).
  With the default settings a decompression and a compression are enough (`StreamReuse.ReinitBreaksReuseIff`).
- `Uncompress` of a message that ends inside its gzip header leaves the parser inside it, although its comment
  says that it gets ready for another try; the next message is judged as the continuation of the first
  (`ZLibWrapper.UncompressAfterCut`). After a cut inside the magic bytes, whatever the compressor writes next is refused
  (`GzipFraming.TruncatedMagicSpoilsNext`); after a cut inside an extra field of ten bytes the next header is taken for
  the field and the message is accepted (`GzipFraming.TruncatedExtraIsAccepted`).
- The comment above `GetNextOffset` says that all accessed blocks move to the end; a block picked at the front
  moves alone (`BlockLru.FrontMovesAlone`, and `BlockLru.FrontLeavesOthers` for a list where it matters). That a
  block is used again only after all others that fit is true all the same (`BlockOrder.ReusedOnlyAfterOthers`).
- The sizing rule in `BM_Memory` guarantees that a clear destination exists, but not that the retry loop finds
  it. With w the size plus the offset in the line and m the least multiple of the line from w on, the loop always
  ends if and only if m is at least twice the size less one, or there is room for an operation on block 2m
  (`RetryLoop.AlwaysEndsIff`). A size of 259 bytes with offset 62 in a buffer of 969 bytes is within the rule and
  outside the condition (`RetryLoop.RuleIsNotEnough`).
- The expected total in `SampleSizeBytes` is not divided by the sum of the percentages, which the comment
  expects to differ from one; a sum slightly above one can make the final check fail
  (`SizeSampler.RoundedInputCanFail`).
- Custom weights are any numbers. The weighting divides by zero if and only if the products of custom weights add up
  to zero in a workload with more than one benchmark (`WorkloadWeights.GetBenchmarkWeights`).
- Without CPU affinity extra workers are never unblocked. A runner can get stuck if and only if it has no
  affinity, at least two workers, and runs that ask for more than one CPU (`WorkerProtocolAffinity.NeverStuckIff`).

## Model

| member | source | states |
|---|---|---|
| `GzipHeader.GZipHeader.ReadMore` | fleetbench/compression/gzipheader.cc:39-187 | the loop, from any parser state, gives the status and header end of the byte-by-byte meaning `Parse`, leaves the state that `Parse` leaves, and terminates |
| `GzipHeader.GZipHeader.ReadFixed` | fleetbench/compression/gzipheader.cc:47-94 | a byte of the ten-byte fixed part is consumed as `Consume` says; a wrong one changes nothing |
| `GzipHeader.GZipHeader.ReadExtra` | fleetbench/compression/gzipheader.cc:107-126 | reading the second length byte, if it is due, and the extra field is reading them byte by byte |
| `GzipHeader.GZipHeader.ReadField` | fleetbench/compression/gzipheader.cc:115-126 | swallowing the extra field, or as much of it as there is, is reading it byte by byte; an empty one is left at once |
| `GzipHeader.GZipHeader.ReadString` | fleetbench/compression/gzipheader.cc:128-158 | the memchr jump over a file name or comment is reading it byte by byte |
| `GzipHeader.GZipHeader.ReadChunks` | fleetbench/compression/gzipheader.h:53-60 | calling `ReadMore` on chunk after chunk until it stops asking gives the status and the absolute header end of one call on the whole |
| `GzipHeader.GZipHeader.Reset` | fleetbench/compression/gzipheader.h:41-45 | the parser is as new |
| `GzipHeader.ParseSplit` | fleetbench/compression/gzipheader.cc:39-187 | split invariance: parsing `s + t` is parsing `s` and then, if the header is still incomplete, `t` from the state it left |
| `GzipHeader.ParsePrefix` | fleetbench/compression/gzipheader.cc:175-182 | a complete header alone parses to its own end |
| `GzipHeaderLanguage.EncodedHeaderParses` | fleetbench/compression/gzipheader.cc:45-187 | every member header of section 2.3 of RFC 1952, with any body behind it, parses to its own length |
| `GzipHeaderLanguage.CompleteIff` | fleetbench/compression/gzipheader.cc:175-183 | COMPLETE with header end `n` if and only if the first `n` bytes are a member header |
| `GzipHeaderLanguage.InvalidIff` | fleetbench/compression/gzipheader.cc:47-61 | INVALID if and only if one of the first three bytes is present and wrong |
| `GzipHeaderLanguage.HeadersArePrefixFree` | fleetbench/compression/gzipheader.cc:175-183 | no header is a proper prefix of another, so the header end is unambiguous |
| `GzipFraming.AnalyseGrows` | fleetbench/compression/zlibwrapper.cc:500-685 | more input only adds output and never revives a refused message |
| `GzipFraming.AnalyseSettled` | fleetbench/compression/zlibwrapper.cc:536-559 | once the body is over, further input is footer and nothing else |
| `GzipFraming.RejectedIsNotAccepted` | fleetbench/compression/zlibwrapper.cc:538-549 | bytes that were refused are the beginning of no acceptable message |
| `GzipFraming.MessageIsAccepted` | fleetbench/compression/zlibwrapper.cc:283-427 | in both modes what is written is accepted and decodes to the data |
| `GzipFraming.MessageLength` | fleetbench/compression/zlibwrapper.cc:186-198 | the length field of a written message is the data length modulo 2^32 |
| `GzipFraming.GzipRoundTrip` | fleetbench/compression/zlibwrapper.cc:410-427 | a gzip message is accepted, decodes to the data, and `GzipUncompressedLength` of it is the data length |
| `GzipFraming.ClaimedLength` | fleetbench/compression/zlibwrapper.cc:796-804 | on every acceptable message `GzipUncompressedLength` is the output length modulo 2^32 |
| `GzipFraming.ClaimSuffices` | fleetbench/compression/zlibwrapper.cc:811-824 | for acceptable messages, checking the claimed size against the limit is checking the real size, except from 4 GiB on |
| `GzipFraming.FooterMatches` | fleetbench/compression/zlibwrapper.cc:755-772 | comparing the two footer fields with checksum and size is comparing the eight bytes with the right footer |
| `GzipFraming.TruncatedMagicSpoilsNext` | fleetbench/compression/zlibwrapper.cc:520-523 | after a message that ended inside the two magic bytes, every message that the compressor writes next is refused for its header |
| `GzipFraming.SwallowedHeaderIsAccepted` | fleetbench/compression/zlibwrapper.cc:520-523 | after a cut that the header of the next message makes a complete header, that message is accepted and means its own data, for every matching compressor and decompressor |
| `GzipFraming.TruncatedExtraIsAccepted` | fleetbench/compression/zlibwrapper.cc:520-523 | there is such a cut, inside an extra field, whatever the compressor and the data |
| `Bytes.FromLe32Le32` | fleetbench/compression/zlibwrapper.cc:186-198 | the four shifted bytes read back as the value modulo 2^32 |
| `Codec.PumpFits` | fleetbench/compression/zlibwrapper.cc:610-611 | an inflate call with room for all output reports the fate of the input |
| `Codec.PumpFull` | fleetbench/compression/zlibwrapper.cc:672-674 | an inflate call without fills its room exactly and stops on a prefix of the input |
| `Codec.CrcAppend` | fleetbench/compression/zlibwrapper.cc:682-682 | the checksum over two outputs one after the other is the checksum of both together |
| `InflateProgress.ReportIsRight` | fleetbench/compression/zlibwrapper.cc:606-685 | one inflate call keeps the stored stream, checksum, size and footer right for the bytes seen so far, and its return code is the one the bytes deserve |
| `InflateProgress.InflateOutcome` | fleetbench/compression/zlibwrapper.cc:635-674 | what each return code of inflate tells about the whole message so far |
| `InflateProgress.FooterPhase` | fleetbench/compression/zlibwrapper.cc:536-559 | the stored footer is the exact prefix of the bytes behind the body |
| `InflateProgress.TrackedPhase` | fleetbench/compression/zlibwrapper.cc:504-685 | what the fields say about the message is what the bytes seen so far mean |
| `InflateProgress.FinishedCall` | fleetbench/compression/zlibwrapper.cc:783-794 | a call that is to finish succeeds on every acceptable message that there is room for |
| `StreamReuse.RunsStayFaithful` | fleetbench/compression/zlibwrapper.cc:123-275 | over every run of setters, compressions and decompressions a live deflate stream has the level, window, memory and header mode recorded in the init settings |
| `StreamReuse.ReuseRefinesFresh` | fleetbench/compression/zlibwrapper.cc:216-275 | after any such run, a stream set up for a first chunk is configured as a new one for the current settings would be, in both directions of work |
| `StreamReuse.ReinitKeepsFaithfulIff` | fleetbench/compression/zlibwrapper.cc:75-108 | Reinit keeps that invariant if and only if it leaves no headerless deflate stream alive |
| `StreamReuse.ReinitIsSafeIff` | fleetbench/compression/zlibwrapper.cc:75-108 | after Reinit every run of setters, compressions and decompressions compresses as the settings ask for if and only if Reinit left no headerless deflate stream alive |
| `StreamReuse.ReinitBreaksReuseIff` | fleetbench/compression/zlibwrapper.cc:75-108 | for one sequence, the shortest: Reinit, a decompression and a compression with the default settings write without the header asked for exactly when a headerless stream with default window and memory was alive |
| `StreamReuse.ReinitBreaksReuse` | fleetbench/compression/zlibwrapper.cc:85-98 | one compression in gzip mode before Reinit is enough for that |
| `ZLibWrapper.ZLib.constructor` | fleetbench/compression/zlibwrapper.cc:58-63 | a new object is between messages, with default settings recorded and wanted |
| `ZLibWrapper.ZLib.Reset` | fleetbench/compression/zlibwrapper.cc:110-113 | the object is between messages again, with nothing remembered of the last one |
| `ZLibWrapper.ZLib.SetCompressionLevel` | fleetbench/compression/zlibwrapper.h:62-62 | only the wanted level changes |
| `ZLibWrapper.ZLib.SetCompressionWindowSizeInBits` | fleetbench/compression/zlibwrapper.h:66-68 | only the wanted window size changes |
| `ZLibWrapper.ZLib.SetCompressionMemLevel` | fleetbench/compression/zlibwrapper.h:72-72 | only the wanted memory level changes |
| `ZLibWrapper.ZLib.SetNoHeaderMode` | fleetbench/compression/zlibwrapper.cc:123-140 | both streams are dropped if the mode differs from the recorded one; otherwise it is a reset request |
| `ZLibWrapper.ZLib.SetGzipHeaderMode` | fleetbench/compression/zlibwrapper.cc:142-146 | gzip mode implies headerless streams |
| `ZLibWrapper.ZLib.Reinit` | fleetbench/compression/zlibwrapper.cc:75-108 | the object can be used on if and only if no headerless deflate stream survives |
| `ZLibWrapper.ZLib.CompressErrorInit` | fleetbench/compression/zlibwrapper.cc:169-175 | the deflate stream is dropped and the object reset |
| `ZLibWrapper.ZLib.DeflateInit` | fleetbench/compression/zlibwrapper.cc:200-214 | a new stream takes the wanted settings and they are recorded |
| `ZLibWrapper.ZLib.CompressInit` | fleetbench/compression/zlibwrapper.cc:216-275 | after Z_OK the stream is configured exactly as the settings say, whether reused, adjusted or created |
| `ZLibWrapper.ZLib.WriteGzipFooter` | fleetbench/compression/zlibwrapper.cc:186-198 | checksum and size in little-endian order, or Z_BUF_ERROR below eight bytes of room |
| `ZLibWrapper.ZLib.CompressChunkOrAll` | fleetbench/compression/zlibwrapper.cc:283-357 | with Z_FINISH: header and body of the message, or an error that leaves the object between messages; a buffer filled to its last byte is an error |
| `ZLibWrapper.ZLib.Compress` | fleetbench/compression/zlibwrapper.cc:410-427 | Z_OK if and only if the message fits, with one byte to spare outside gzip mode, and then the output is `Message` for the current settings |
| `ZLibWrapper.ZLib.UncompressErrorInit` | fleetbench/compression/zlibwrapper.cc:444-450 | the inflate stream is dropped and the object reset |
| `ZLibWrapper.ZLib.UncompressInit` | fleetbench/compression/zlibwrapper.cc:452-498 | the inflate stream is restarted or created in the current header mode, for a first chunk only |
| `ZLibWrapper.ZLib.StoreFooter` | fleetbench/compression/zlibwrapper.cc:550-555 | the stored footer is extended by exactly the bytes given |
| `ZLibWrapper.ZLib.InflateChunk` | fleetbench/compression/zlibwrapper.cc:606-685 | one inflate call does what `AfterInflate` says, and any other error drops the stream |
| `ZLibWrapper.ZLib.TrackedChunk` | fleetbench/compression/zlibwrapper.cc:606-685 | the same with the bytes and the output of the message accounted for |
| `ZLibWrapper.ZLib.FooterChunk` | fleetbench/compression/zlibwrapper.cc:536-559 | footer bytes are taken in while there are at most eight; more are refused |
| `ZLibWrapper.ZLib.BodyChunk` | fleetbench/compression/zlibwrapper.cc:606-685 | a chunk of body gets the return code that the bytes so far deserve, and everything read and handed out is accounted for |
| `ZLibWrapper.ZLib.BeginBody` | fleetbench/compression/zlibwrapper.cc:561-595 | the first chunk of a body starts with a new stream state and checksum |
| `ZLibWrapper.ZLib.FirstBodyChunk` | fleetbench/compression/zlibwrapper.cc:561-604 | what follows a header in the same chunk is body; nothing at all is fine once |
| `ZLibWrapper.ZLib.BodyPart` | fleetbench/compression/zlibwrapper.cc:517-604 | the part of a chunk behind the header, with the header part accounted for |
| `ZLibWrapper.ZLib.HeaderChunk` | fleetbench/compression/zlibwrapper.cc:509-535 | the header ends where the header of all bytes so far ends |
| `ZLibWrapper.ZLib.FirstChunk` | fleetbench/compression/zlibwrapper.cc:509-604 | a chunk that begins a message or continues its header gets the return code that the bytes so far deserve |
| `ZLibWrapper.ZLib.UncompressAtMostOrAll` | fleetbench/compression/zlibwrapper.cc:504-685 | in every phase: the return code that the bytes so far deserve, and no byte of input or output lost |
| `ZLibWrapper.ZLib.UncompressAtMost` | fleetbench/compression/zlibwrapper.cc:696-699 | the same for the interface that can be resumed after Z_BUF_ERROR |
| `ZLibWrapper.ZLib.UncompressChunkOrAll` | fleetbench/compression/zlibwrapper.cc:687-694 | the same for the interface that gives a message up for lack of room |
| `ZLibWrapper.ZLib.UncompressChunk` | fleetbench/compression/zlibwrapper.cc:701-704 | with room, a non-empty chunk is refused if and only if no continuation of the bytes so far is acceptable, and otherwise all output so far has been handed out |
| `ZLibWrapper.ZLib.PhaseNow` | fleetbench/compression/zlibwrapper.cc:504-685 | what has been handed out is a prefix of what the bytes so far mean, and all of it when nothing is pending |
| `ZLibWrapper.ZLib.UncompressChunkDone` | fleetbench/compression/zlibwrapper.cc:710-743 | true if and only if the bytes given since the last message make up an acceptable message and all its output was handed out |
| `ZLibWrapper.ZLib.FooterVerdict` | fleetbench/compression/zlibwrapper.cc:732-773 | the test of the stored footer is acceptance of the whole message |
| `ZLibWrapper.ZLib.Uncompress` | fleetbench/compression/zlibwrapper.cc:783-794 | Z_OK if and only if the message is acceptable and there is room for its output, which is then the result; bytes are remembered afterwards if and only if the message ended inside its header |
| `ZLibWrapper.ZLib.FeedChunk` | fleetbench/compression/zlibwrapper.cc:701-704 | one more chunk of a message, or the verdict that the message cannot be acceptable |
| `ZLibWrapper.ZLib.FeedChunks` | fleetbench/compression/zlibwrapper.cc:701-704 | all chunks from some point on, with all their output |
| `ZLibWrapper.ZLib.UncompressInChunks` | fleetbench/compression/zlibwrapper.cc:701-743 | for every cut into non-empty chunks the verdict and the output are those of the whole message |
| `ZLibWrapper.ChunkedEqualsWhole` | fleetbench/compression/zlibwrapper.cc:687-794 | two objects with the same settings, one called once and one chunk by chunk, agree on verdict and output |
| `ZLibWrapper.CompressThenUncompress` | fleetbench/compression/zlibwrapper.cc:410-427 | on one object with any history: what gzip-mode `Compress` wrote says how long its data is and decompresses into that much room |
| `ZLibWrapper.UncompressAfterCut` | fleetbench/compression/zlibwrapper.cc:783-794 | a message that ends inside its header is refused, and the next one is then judged as its continuation, for every cut and every next message |
| `ZLibWrapper.ZLib.HasGzipHeader` | fleetbench/compression/zlibwrapper.cc:840-844 | true if and only if some prefix is a member header |
| `ZLibWrapper.ZLib.UncompressGzipAndAllocate` | fleetbench/compression/zlibwrapper.cc:806-836 | Z_OK if and only if the message is acceptable and its real size is within the limit and below 4 GiB, although the claimed size is not trusted |
| `WorkerProtocolInvariant.InitInv` | fleetbench/parallel/worker.py:52-61 | the invariant holds of new workers |
| `WorkerProtocolTheorems.StepKeepsInv` | fleetbench/parallel/worker.py:63-146 | every step of every thread keeps the invariant on locks, flags, queues and reservations |
| `WorkerProtocolTheorems.RunsKeepInv` | fleetbench/parallel/parallel_bench_lib.py:395-450 | so does every run of the whole system |
| `WorkerProtocolTheorems.TryBlockKeeps` | fleetbench/parallel/worker.py:81-90 | reserving a worker keeps it |
| `WorkerProtocolTheorems.TryAddRunKeeps` | fleetbench/parallel/worker.py:63-79 | accepting a run keeps it: the reserved workers become those of the run |
| `WorkerProtocolTheorems.ClearFlagKeeps` | fleetbench/parallel/worker.py:92-94 | so does the window in `Unblock` between clearing the flag and releasing the lock |
| `WorkerProtocolTheorems.ReleaseExtraKeeps` | fleetbench/parallel/worker.py:92-95 | and the release itself, by another thread than the one that took the lock |
| `WorkerProtocolTheorems.ExecutingRunsAreExclusive` | fleetbench/parallel/worker.py:133-140 | in every reachable state two executing runs have disjoint CPU sets, and no run reserves its own host |
| `WorkerProtocolTheorems.ReservationsAreAccounted` | fleetbench/parallel/parallel_bench_lib.py:404-434 | between placements the locks taken by other threads are exactly the extra workers of accepted runs that have not unblocked them, each of one run hosted elsewhere |
| `WorkerProtocolTheorems.ReleasesAreMatched` | fleetbench/parallel/worker.py:92-95 | a lock is only ever released by the one it was taken for |
| `WorkerProtocolTheorems.ResultsAreConserved` | fleetbench/parallel/worker.py:97-146 | the runs given to a worker are, in order, those collected, those in the result queue, the one in progress and the one queued |
| `WorkerProtocolTheorems.StoppedWorkersAreDrained` | fleetbench/parallel/worker.py:97-106 | when `StopAndGetResults` returns, all accepted runs of that worker have executed and were collected |
| `WorkerProtocolTheorems.EveryRunIsCollectedOnce` | fleetbench/parallel/parallel_bench_lib.py:588-604 | after the shutdown every accepted run has exactly one result, collected once, from one worker |
| `WorkerProtocolProgress.ChainEnds` | fleetbench/parallel/worker.py:127-144 | a chain of runs waiting for locks leads to ever later runs, so some worker can step |
| `WorkerProtocolProgress.UnfinishedRunsProgress` | fleetbench/parallel/worker.py:127-144 | in every reachable state between placements with an unfinished accepted run, some worker can step |
| `WorkerProtocolProgress.NoDeadlock` | fleetbench/parallel/parallel_bench_lib.py:346-450 | a reachable state that is not finished always has a step that does not start new work |
| `WorkerProtocolProgress.StepDecreases` | fleetbench/parallel/parallel_bench_lib.py:393-450 | every step but the start of a placement lowers a measure of outstanding work |
| `WorkerProtocolProgress.ShutdownIsFinite` | fleetbench/parallel/parallel_bench_lib.py:588-604 | a shutdown takes at most as many steps as that measure says |
| `WorkerProtocolProgress.ShutdownCompletes` | fleetbench/parallel/parallel_bench_lib.py:588-604 | a shutdown that can go no further is finished, with every worker stopped and drained |
| `WorkerProtocolAffinity.NeverStuckIff` | fleetbench/parallel/worker.py:135-144 | a runner never gets stuck, and every run that can go no further has all workers stopped and all results collected, if and only if it has affinity, or places only runs that ask for one CPU, or has at most one worker |
| `WorkerProtocolAffinity.DeadlockWithoutAffinity` | fleetbench/parallel/worker.py:141-144 | with any number of workers from two on and no affinity, one placement that asks for two CPUs is enough for the shutdown to hang |
| `WorkerProtocolAffinity.TwinStep` | fleetbench/parallel/worker.py:135-144 | as long as no run has extra workers, every step is the same with and without affinity |
| `BlockLru.BlockList.constructor` | fleetbench/libc/mem_benchmark.cc:426-439 | the list starts as some order of all block starts |
| `BlockLru.BlockList.GetNextOffset` | fleetbench/libc/mem_benchmark.cc:274-308 | the first block in the list that fits the request is used, the list changes as `NextList` says and stays a rearrangement, and the operation stays within its margins |
| `BlockLru.BlockList.Partition` | fleetbench/libc/mem_benchmark.cc:292-302 | touched and untouched blocks, each in list order |
| `BlockLru.NextListPermutes` | fleetbench/libc/mem_benchmark.cc:286-305 | either branch only rearranges the list, for every shuffle |
| `BlockLru.UntouchedKeepOrder` | fleetbench/libc/mem_benchmark.cc:286-305 | blocks that the operation does not touch keep their order |
| `BlockLru.AccessedMoveToBack` | fleetbench/libc/mem_benchmark.cc:290-305 | on the slow path all touched blocks end up at the back |
| `BlockLru.FrontMovesAlone` | fleetbench/libc/mem_benchmark.cc:270-289 | on the fast path they do if and only if the others were at the back already |
| `BlockLru.FrontLeavesOthers` | fleetbench/libc/mem_benchmark.cc:270-289 | they need not be: a list, and an operation on its front block that touches the next one and leaves it in place |
| `BlockOrder.UntouchedMovesUp` | fleetbench/libc/mem_benchmark.cc:286-305 | either branch brings a block behind the pick that is not touched forward, with nothing new in front of it |
| `BlockOrder.ReusedOnlyAfterOthers` | fleetbench/libc/mem_benchmark.cc:433-435 | in every run of operations of any sizes, zero included, and any offsets and margins, a block is picked again only after all others on which the operation fits have been picked or touched |
| `MemOffsets.CheckOverlapIff` | fleetbench/libc/mem_benchmark.cc:310-314 | the overlap test is true if and only if the ranges have a byte in common |
| `MemOffsets.SomeBlockIsClear` | fleetbench/libc/mem_benchmark.cc:368-377 | within the sizing rule, for every source and destination offset some block fits and is clear of the source |
| `MemOffsets.SomeBlockFits` | fleetbench/libc/mem_benchmark.cc:335-337 | within the sizing rule there is a block with room for the destination on either side |
| `MemOffsets.StableMovesUp` | fleetbench/libc/mem_benchmark.cc:290-305 | picking an overlapping block moves a stable block towards the front |
| `MemOffsets.RetryEnds` | fleetbench/libc/mem_benchmark.cc:341-350 | with a stable block in the list the retry loop ends for every shuffle, in fewer rounds than there are blocks |
| `MemOffsets.BelowIsStable` | fleetbench/libc/mem_benchmark.cc:341-350 | a fitting block wholly below the source is stable |
| `MemOffsets.FarAboveIsStable` | fleetbench/libc/mem_benchmark.cc:341-350 | so is one far enough above it |
| `RetryLoop.LoopIsBounded` | fleetbench/libc/mem_benchmark.cc:341-350 | if a condition on size, offset and buffer holds, at most three times the square of the number of blocks many rounds fail, for every source, list and shuffles |
| `RetryLoop.LoopNeedNotEnd` | fleetbench/libc/mem_benchmark.cc:341-350 | if it does not, there are a source, a list and shuffles for which any number of rounds fails |
| `RetryLoop.AlwaysEndsIff` | fleetbench/libc/mem_benchmark.cc:370-376 | so within the sizing rule the loop always ends if and only if the condition holds |
| `RetryLoop.RuleIsNotEnough` | fleetbench/libc/mem_benchmark.cc:370-376 | the sizing rule does not imply the condition |
| `RetryLoop.LeaderMovesUp` | fleetbench/libc/mem_benchmark.cc:290-305 | a failed round that does not pick a leading block brings it forward, and it stays in the lead |
| `RetryLoop.NextLeads` | fleetbench/libc/mem_benchmark.cc:290-305 | picking a block that touches all blocks that hold up another one puts that one in the lead |
| `MemBenchmark.FindClear` | fleetbench/libc/mem_benchmark.cc:344-348 | the do-while loop: every round but the last picked an overlapping block, the last one a clear one; it terminates, and is cut off only where it need not end |
| `MemBenchmark.NextClear` | fleetbench/libc/mem_benchmark.cc:344-348 | the offset found lies in the buffer and is clear of the source; there is one except where the loop need not end |
| `MemBenchmark.GetNextSrcDstOffsetWithOverlap` | fleetbench/libc/mem_benchmark.cc:316-351 | both ranges lie in the buffer, they overlap if and only if that was drawn and the size is not zero, and both lists stay block lists; there is no answer only where the retry loop is entered and need not end |
| `MemBenchmark.NextInBuffer` | fleetbench/libc/mem_benchmark.cc:457-464 | the offset of a memcpy or memset operand lies in its buffer |
| `MemBenchmark.ChooseOne` | fleetbench/libc/mem_benchmark.cc:443-482 | one operation of any kind is well placed, unless its retry loop need not end |
| `MemBenchmark.ChooseOffsets` | fleetbench/libc/mem_benchmark.cc:428-482 | the allocator invariant over whole benchmarks: every operation is well placed and both lists stay block lists, whatever is drawn; it stops early only at a draw whose retry loop need not end |
| `MemBenchmark.NoOverflowIff` | fleetbench/libc/mem_benchmark.cc:539-543 | with buffers of twice the L3 size no 32-bit sum overflows if and only if the L3 size is at most the checked limit plus 66 |
| `SizeSampler.Apportion` | fleetbench/libc/mem_benchmark.cc:197-209 | never out of range, all `n` places written, in ascending order, each the quantile of its position; after every entry the count is within a thousandth of the rounded-down share |
| `SizeSampler.Emit` | fleetbench/libc/mem_benchmark.cc:203-207 | the inner loop writes the samples of one entry and stops at the rounded share |
| `SizeSampler.QuantileSum` | fleetbench/libc/mem_benchmark.cc:197-209 | before the repair the samples add up to what the clipped distribution amounts to, within one largest size, however many there are |
| `SizeSampler.QuantileIsUnique` | fleetbench/libc/mem_benchmark.cc:203-204 | the quantiles determine the samples |
| `SizeSampler.RepairTotal` | fleetbench/libc/mem_benchmark.cc:221-240 | the backward pass in place makes the repair steps, with the narrowing conversions as they are, and reports whether the total is the expected one |
| `SizeSampler.RepairIsUnique` | fleetbench/libc/mem_benchmark.cc:223-238 | the samples and the first difference determine the result of the pass |
| `SizeSampler.AllStepsFit` | fleetbench/libc/mem_benchmark.cc:223-238 | if the first conversion fits so do all others; the difference shrinks without changing sign and every sample moves towards its limit |
| `SizeSampler.RepairedTotal` | fleetbench/libc/mem_benchmark.cc:223-238 | if the first conversion fits, the total becomes the expected one clamped to what the sizes allow, and every size stays within the limit |
| `SizeSampler.RepairedSuffix` | fleetbench/libc/mem_benchmark.cc:223-238 | only a suffix changes, only in one direction, and behind the first changed sample all are at the limit |
| `SizeSampler.RepairIsRightIff` | fleetbench/libc/mem_benchmark.cc:227-232 | for differences below 2^32 the repair is right if and only if its first conversion fits in 32 bits |
| `SizeSampler.CheckHoldsIff` | fleetbench/libc/mem_benchmark.cc:240-240 | the final check holds if and only if the expected total lies between zero and the number of samples times the limit |
| `SizeSampler.ExpectedTotal` | fleetbench/libc/mem_benchmark.cc:187-195 | the expected total is the truncated weighted sum |
| `SizeSampler.SampleSizeBytes` | fleetbench/libc/mem_benchmark.cc:183-244 | shuffled, repaired quantiles with the expected total; where the first conversion fits, sizes are within the limit and failure means exactly that the total is out of reach |
| `SizeSampler.FirstDifferenceFits` | fleetbench/libc/mem_benchmark.cc:221-232 | the first conversion fits whenever the bytes that clipping took away do, for every number of samples |
| `SizeSampler.UnclippedFits` | fleetbench/libc/mem_benchmark.cc:187-206 | with percentages that add up to one and sizes within the limit nothing is clipped away |
| `SizeSampler.RoundedInputCanFail` | fleetbench/libc/mem_benchmark.cc:187-195 | percentages that add up to slightly more than one can make the final check fail: for one such input the first conversion fits and the expected total is out of reach, which is when SampleSizeBytes fails |
| `TimeShare.AdjustProbabilities` | fleetbench/parallel/parallel_bench_lib.py:218-254 | lists of different lengths are an error; otherwise the probabilities are fair: they add up to one and probability times runtime is proportional to the target |
| `TimeShare.FairIsUnique` | fleetbench/parallel/parallel_bench_lib.py:224-227 | there is only one fair choice |
| `TimeShare.NormalizedIsFair` | fleetbench/parallel/parallel_bench_lib.py:224-254 | dividing the relative probabilities of the formula by their sum is a fair choice |
| `TimeShare.FairScales` | fleetbench/parallel/parallel_bench_lib.py:288-293 | fairness does not depend on the unit of the runtimes |
| `TimeShare.ShortcutIsFair` | fleetbench/parallel/parallel_bench_lib.py:294-295 | the shortcut for runtimes that are all one makes the fair choice |
| `TimeShare.FairIsPositive` | fleetbench/parallel/parallel_bench_lib.py:243-254 | a probability is positive if and only if its target is |
| `TimeShare.FirstPass` | fleetbench/parallel/parallel_bench_lib.py:258-274 | the last benchmark that has run, those that have not, and the runtimes before the adjustment |
| `TimeShare.SecondPass` | fleetbench/parallel/parallel_bench_lib.py:276-281 | exactly those that have not run are multiplied by the runtime of the last one that has |
| `TimeShare.AdjustRuntime` | fleetbench/parallel/parallel_bench_lib.py:256-281 | the expected runtime: mean of the last ten runs, or the first entry in units of the last benchmark that has run |
| `TimeShare.ComputeBenchmarkWeights` | fleetbench/parallel/parallel_bench_lib.py:283-297 | on either branch, the fair probabilities for the expected runtimes |
| `WorkloadWeights.ApplyCustom` | fleetbench/parallel/weights.py:95-99 | each weight is multiplied by the product of the custom weights whose keyword its name contains; the others stay |
| `WorkloadWeights.Normalize` | fleetbench/parallel/weights.py:101-108 | each weight of the workload is divided by their sum, whatever its sign; the others stay |
| `WorkloadWeights.UpdateGroup` | fleetbench/parallel/weights.py:95-108 | one workload, for any custom weights: total one, in proportion to old weight times custom product, all other benchmarks untouched; it divides by zero if and only if those products add up to zero |
| `WorkloadWeights.EvenWeights` | fleetbench/parallel/weights.py:160-164 | before custom weights all benchmarks of a workload weigh the same |
| `WorkloadWeights.UpdateWorkloadWeights` | fleetbench/parallel/weights.py:83-109 | every workload with more than one benchmark is weighted in proportion to old weight times custom product, with total one, and a single benchmark keeps its weight; it fails if and only if some larger workload divides by zero |
| `WorkloadWeights.GetBenchmarkWeights` | fleetbench/parallel/weights.py:147-170 | for any custom weights, zero and negative ones included: every workload has total one, a single benchmark has weight one, the weights are in proportion to the custom products, and the grand total is the number of workloads; it fails if and only if the custom products add up to zero in a workload with more than one benchmark |
| `WorkloadWeights.FactorTotalIsPositive` | fleetbench/parallel/weights.py:95-105 | with positive custom weights that cannot happen |
| `WorkloadWeights.GrandTotal` | fleetbench/parallel/weights.py:147-164 | the workloads partition the benchmarks, so their totals add up to the grand total |

## Left out

- ZLibWrapper.ZLib.Uncompress: input is shorter than 2^31 bytes, because the header parser takes an `int` length, and room is below 2^32.
- ZLibWrapper.ZLib.UncompressAtMostOrAll: the same bounds; so for UncompressAtMost, UncompressChunkOrAll, UncompressChunk, UncompressInChunks, ChunkedEqualsWhole and UncompressGzipAndAllocate.
- ZLibWrapper.ZLib.Compress: room is below 2^31, because the compressed size is an `int`. Inputs of 2^32 bytes and more are modelled, and refused.
- ZLibWrapper.ZLib.CompressChunkOrAll: only with Z_FINISH on a first chunk, under the same bound; CompressChunk, CompressAtMost and CompressChunkDone are not modelled.
- ZLibWrapper.ZLib.UncompressInChunks: chunks are not empty, there is at least one outside gzip mode, and there is room for all output in every call, because an empty chunk inside a body and a full buffer both end in Z_BUF_ERROR, which gives the message up; UncompressChunk covers those.
- ZLibWrapper.ChunkedEqualsWhole: the same, and zlib can set up a stream.
- ZLibWrapper.ZLib.SetNoHeaderMode: between messages only, as are SetGzipHeaderMode and Compress, because a message has one mode.
- Preset dictionaries, SetDontHideStreamEnd and the flag for flexible footers are not modelled; output is a returned sequence rather than memory that is written in place.
- The insides of deflate, inflate and crc32 are foreign code; a compressor whose output is longer than its room is taken to fill the room.
- WorkerProtocolTheorems.ExecutingRunsAreExclusive: with CPU affinity, as the other results on locks and results are, because extra workers are released only then; WorkerProtocolAffinity says when a runner without it gets stuck.
- WorkerProtocolTheorems.EveryRunIsCollectedOnce: `Execute` returns normally; exceptions, return codes and the duration of runs are not modelled.
- WorkerProtocolTheorems.TryBlockKeeps: TryBlock takes the lock and sets the flag in one step, since nothing but the controller itself reads the flag in between.
- WorkerProtocolTheorems.RunsKeepInv: a placement may try any distinct workers in any order, which covers the order by utilization that the controller uses; which benchmark is placed is not modelled. The threads are steps on values, not objects that share memory.
- MemOffsets.RetryEnds: one of two bounds on the rounds: tighter than RetryLoop.LoopIsBounded, for lists with a stable block.
- MemBenchmark.FindClear: where the loop need not end it is cut off after a given number of rounds, because a method has to end.
- The random draws are inputs. For size zero the offset of an overlap is drawn from an empty interval, for which absl::Uniform returns the lower end, zero.
- SizeSampler.Apportion: the percentages have a positive sum. Rounding of floating-point numbers is not modelled, here and in the probabilities and weights.
- SizeSampler.SampleSizeBytes: sizes within the limit and the exact meaning of failure where the first conversion of the repair fits in 32 bits; RepairIsRightIff says what happens beyond that.
- SizeSampler.RepairIsRightIff: differences below 2^32 less the size limit; ten thousand samples of at most 262144 bytes stay below that.
- TimeShare.AdjustProbabilities: positive runtimes, no negative target and a positive first one, because the source divides by them; a zero target elsewhere is allowed.
- WorkloadWeights.GetBenchmarkWeights: only the workload-weighted strategy and distinct benchmark names; infinities and NaN are not modelled.
- Mismatch positions, `mark` and `reset`, the draws of alignments and the memory operations themselves: simple members or foreign kernels.
- Reporting, CSV and JSON files, command lines, NUMA set-up, registration, subprocesses, gRPC and the other benchmarks: I/O or foreign code.
