# BlpCache: verified model of the log, the store and replication

BlpCache is a Redis-like cache. Its state lives in a LevelDB map of strings, every write is also
appended as a RESP frame to an append-only file by a background thread, and listeners relay the
file's commands to replicas. This project models those parts in Dafny and proves what they keep over
every input and every interleaving.

- `ByteStrings.dfy`, `Decimal.dfy`: byte strings; `std::to_string`, `stoi`, `stol`, `stoull`.
- `Resp.dfy`: the frame format, printer and parser. The parser has three outcomes: a frame, no frame
  (`false`), or an exception (a negative count reaches `parts.reserve` outside the `try`).
- `Recovery.dfy`: the accumulate/parse/erase read loops, proved against one greedy parse of all bytes.
- `FrameLaw.dfy`: the format as a grammar on bytes; parser and recovery accept exactly that on any input.
- `Restart.dfy`: what recovery makes of a log that was torn by a crash and then appended to.
- `Writer.dfy`, `WriterLaws.dfy`: appenders, writer thread, `stop` and listener reads as a step system
  with one step per atomic section or system call, and its invariants over whole runs. A hard
  `writev` failure is a step of its own.
- `Progress.dfy`, `Shutdown.dfy`, `Durability.dfy`: how soon a running writer has written a payload, what
  runs do after `stop`, and how the published offset relates to `fsync`.
- `Writev.dfy`, `Scheduling.dfy`, `Aof.dfy`: the imperative side, with the nested `writev` loop on an array
  of iovecs, and a class with one method per step. The writer's nested loops take, turn by turn, the
  possible steps of other threads and then the writer's next step, as the schedule says. The class
  invariant is that the state is the one the trace of steps leads to, so every law about runs holds for
  the object.
- `Store.dfy`, `StoreLaws.dfy`: the store with its `value TAB deadline TAB -1` texts, as a class and as
  functions; replay, refinement and deadline laws. The clock is a parameter.
- `CrashConsistency.dfy`: database operations, logged or not, writer and crash in one system.
- `Interleaving.dfy`: the same operations in their separate pieces (log append, store write, read,
  removal), interleaved between threads.
- `Protocol.dfy`, `Replication.dfy`, `TornReplication.dfy`: entity and message formats, sockets with
  partial and failing sends and receives, the listener, the replica's dispatch, and what a cut
  connection makes the replica do.
- `RingBuffer.dfy`: the drop-oldest ring buffer.

Where code and comments disagree, the model follows the code: `tryParseRESPArray` clears `parts` and
`consumed` even when it returns false, and the offset that a comment calls safely on disk is published
before the `fsync` (`Durability.PublishedBeforeSynced` is a run in which it is not on disk).

Properties that hold only under a condition are stated with that condition as an if-and-only-if:
`Resp.ParseOfSerialize` (sizes), `WriterLaws.ConservedExactly` (no hard write failure),
`WriterLaws.IdleExitDrainsExactly` and `Shutdown.StopDrainsExactly` (where the writer was when stop was
set), `WriterLaws.NoStrandedAppenderExactly` (queue capacity at least two), `Writev.WriteBatch` (no
blocking run of empty payloads), `Durability.PublishedOnDiskExactly`,
`Durability.OnDiskOutsideWindowExactly`, `CrashConsistency.PublishedSurvivesExactly` and
`CrashConsistency.DurableModeExactly` (the window before the fsync, and the mode),
`CrashConsistency.AgreementSafeExactly` (the stop flag), `Interleaving.OverlapSafeExactly` (different keys
or the same write), `Restart.RestartSafeExactly` (what a cut leaves of the count),
`Restart.CutValueHarmlessExactly` (later bytes that complete the torn frame), `FrameLaw.FrameExactly`,
`FrameLaw.RaisedExactly` and `FrameLaw.GreedyExactly` (the grammar), `Decimal.ScanExactly` and
`Decimal.ToDecimalExactly` (the shape of numbers), `StoreLaws.PutGetExactly` (no tab in the value),
`StoreLaws.ExpireNonPositive` (not reaching before the epoch), `Protocol.EntityRoundTripExactly` (32-bit
lengths), `Protocol.InStepAfterFailureExactly` (no byte taken) and `TornReplication.CutHarmlessExactly`
(a cut before the end of the command name).

## Model

| member | source | states |
|---|---|---|
| Resp.SerializeToResp | src/common/aof.cpp:337-351 | the append loop produces the frame that `ParseOfSerialize` proves parseable |
| Resp.FindCrlf | src/common/aof.cpp:411-416 | the result is the first CR LF at or after the start; none means there is none |
| Resp.FindCrlfLoop | src/common/aof.cpp:411-416 | the scanning loop finds that first CR LF |
| Resp.ParseOneBulk | src/common/aof.cpp:381-404 | one pass of the bulk loop: every way to reject, the negative length, and the part with its end |
| Resp.TryParseRespArray | src/common/aof.cpp:357-409 | the cursor loop computes the reference parse, including the throwing outcome |
| Resp.Parse | src/common/aof.cpp:357-409 | a recognised frame consumes at least four and at most all bytes |
| Resp.ParseExtend | src/common/aof.cpp:357-416 | on arbitrary bytes, a recognised frame (same parts, same length) and an exception survive every extension |
| Resp.ParseOfSerialize | src/common/aof.cpp:337-409 | print then parse with any suffix: the same command and its length exactly when count and lengths fit `int` and `long`, otherwise no frame |
| Resp.ParseOfStrictPrefix | src/common/aof.cpp:357-409 | no strict prefix of a frame is taken for a frame or raises |
| Resp.NullBulkIsEmpty | src/common/aof.cpp:388-397 | every negative length within a `long` gives an empty part and skips no data; a smaller one is rejected |
| Resp.NegativeCountRaises | src/common/aof.cpp:372-379 | every negative count within an `int` raises whatever follows; a smaller one is no frame |
| FrameLaw.ParsedPiece | src/common/aof.cpp:381-404 | on arbitrary bytes, every part stands between its length line and the CR LF that ends it, and only a negative length goes without data |
| FrameLaw.PieceParses | src/common/aof.cpp:381-404 | and wherever such a piece stands, it is read |
| FrameLaw.FrameExactly | src/common/aof.cpp:357-409 | on arbitrary bytes, n bytes are taken for a frame with given parts exactly if they are a star line with the count and that many pieces |
| FrameLaw.RaisedExactly | src/common/aof.cpp:372-379 | the parser throws exactly on a star line with a negative count |
| FrameLaw.GreedyExactly | src/common/aof.cpp:116-132 | recovery executes exactly the frames that stand one after another from the front, and throws exactly if a negative count follows |
| Decimal.ScanOfSigned | src/common/aof.cpp:372-391 | the number conversions accept leading blanks, one sign and trailing junk around a printed number and give that number |
| Decimal.ScanExactly | src/common/aof.cpp:372-391 | a number is read exactly from blanks, at most one sign, digits and anything |
| Decimal.ConversionsOfText | src/common/aof.cpp:372-391 | the value of such a text in `stoi`, `stol` and, modulo 2^64, `stoull`, or an exception when it does not fit |
| Decimal.OtherTextsThrow | src/common/aof.cpp:372-391 | every other text throws |
| Decimal.ToDecimalExactly | src/common/aof.cpp:340-346 | `std::to_string` gives the one digit string of that value without a leading zero |
| Recovery.GreedyAppend | src/common/aof.cpp:116-132 | the greedy parse of a longer string resumes at the shorter one's tail; an exception keeps the same commands |
| Recovery.Drain | src/common/aof.cpp:119-128 | the inner loop executes the greedy parse of the buffer and reports what to erase |
| Recovery.RecoverFromAof | src/common/aof.cpp:89-157 | with failing open, stat and reads included: it executes the greedy parse of the delivered bytes; it succeeds for a missing file, or if no call failed and no torn tail was to be truncated, and only then stores the end of the file as offset |
| Recovery.ReadLog | src/common/aof.cpp:109-132 | for every way reads cut the bytes: the commands, tail, exception and last good offset of one greedy parse of all of them |
| Recovery.ReadCommandsFromOffset | src/common/aof.cpp:159-201 | with failing open, seek and reads included: executes the greedy parse of the delivered bytes, and reports success if no call failed |
| Recovery.ReadFromOffset | src/common/aof.cpp:172-191 | for every way the reads from the offset cut the bytes, while the file may grow: the commands and exception of one greedy parse |
| Recovery.FittingIsLongest | src/common/aof.cpp:114-128 | the number of frames that fit before a cut is the longest such run |
| Recovery.TornTail | src/common/aof.cpp:109-140 | a log cut anywhere: exactly the fitting commands, last good offset at their end, leftover a strict prefix of the next frame, no exception |
| Recovery.TornSegment | src/common/aof.cpp:178-191 | the same for a reader that starts at a frame boundary |
| Restart.TwoLives | src/common/aof.cpp:313-321 | any crash point leaves whole frames and a strict prefix of the next; what is appended later follows that prefix |
| Restart.EarlierSurvive | src/common/aof.cpp:116-132 | the commands before the cut are always recovered |
| Restart.RestartInCount | src/common/aof.cpp:357-380 | a cut inside the count: recovery reads all later commands, one invented shorter command, or nothing, as what is left of the count compares with the next command's size |
| Restart.RestartBehindCount | src/common/aof.cpp:381-404 | a cut further on: for every size there is a next command that is not recovered |
| Restart.ParseOfCutValue | src/common/aof.cpp:381-404 | a frame cut inside a value and followed by any bytes: no frame, or the frame whose cut part takes the missing bytes from what follows |
| Restart.CutValueHarmlessExactly | src/common/aof.cpp:401-403 | nothing of such a frame is executed exactly unless the later bytes go on with the CR LF and the pieces it lacks |
| Restart.RestartSafeExactly | src/common/aof.cpp:313-321 | every second life whose first command has k parts is recovered in full exactly if nothing was torn or the cut came inside the count's line and left a count of k |
| Writer.BatchSizeIs | src/common/aof.cpp:217-222 | a batch respects both limits before its last entry and stops only at a limit or the queue's end |
| Writer.AdvanceConcat | src/common/aof.cpp:271-282 | written bytes and remaining iovecs together are unchanged, and no iovec becomes empty |
| WriterLaws.SoundStep | src/common/aof.cpp:203-308 | each step keeps the queue a suffix of what was accepted, keeps order, and loses bytes only at a hard failure |
| WriterLaws.OffsetsStep | src/common/aof.cpp:285-287 | published offsets stay payload boundaries inside the file and never decrease; readers have the file's bytes |
| WriterLaws.PressureStep | src/common/aof.cpp:40-49 | the queue stays within its bound, and an un-notified sleeper implies a queue at least half full |
| WriterLaws.ExitsStep | src/common/aof.cpp:228-229 | what the writer's place implies about stop flag and queue is kept by every step |
| WriterLaws.RunKeepsInv | src/common/aof.cpp:203-308 | all of these hold in every state of every run without hard failure |
| WriterLaws.ConservedExactly | src/common/aof.cpp:23-49 | initial file plus accepted payloads equals file plus batch rest plus queue, in order, unless a write failed hard; exactly then if no payload is empty |
| WriterLaws.LockedExitDrains | src/common/aof.cpp:303-310 | a writer that left by the locked test wrote every accepted payload, synced if configured |
| WriterLaws.IdleExitDrainsExactly | src/common/aof.cpp:228-229 | after the unlocked test this holds if nothing was accepted since the last unlock, and only then if no payload is empty |
| WriterLaws.IdleExitCanLose | src/common/aof.cpp:211-229 | a concrete run in which the unlocked test loses a payload |
| WriterLaws.NoStrandedAppenderExactly | src/common/aof.cpp:40-49 | no run leaves an un-notified sleeper with an empty queue, exactly when the capacity is at least two |
| WriterLaws.StrandingRun | src/common/aof.cpp:223-225 | for smaller capacities, a run that strands an appender |
| WriterLaws.WaitersNotifiedInTime | src/common/aof.cpp:211-226 | without new appends, as many rounds as queued entries empty the queue and notify every sleeper |
| WriterLaws.SleeperGetsIn | src/common/aof.cpp:40-49 | and then the sleeper's next test lets it in, unless stop is set |
| WriterLaws.WriterKeepsSleepers | src/common/aof.cpp:203-311 | no step of the writer removes a sleeper or changes its payload |
| WriterLaws.StopStays | src/common/aof.cpp:72-77 | stop is never reset, and a stopped log accepts nothing |
| WriterLaws.GoneSynced | src/common/aof.cpp:310-310 | in every run, failures included, a writer that is gone has synced the file if configured |
| WriterLaws.PublishedAtLastStore | src/common/aof.cpp:285-287 | in every run the published offset is the size the file had at the last offset store, and covers what had left the queue by then |
| WriterLaws.ReaderSinceLoad | src/replica/server.cpp:68-68 | in every run a listener call reads from the offset published when it loaded it, and has read as many bytes as its reads reported |
| WriterLaws.ReaderWasLoaded | src/replica/server.cpp:68-70 | every listener call began with such a load |
| Progress.OwedStep | src/common/aof.cpp:203-311 | each step of a running writer lowers a bound on its steps until a given payload is written, and no step of any thread raises it |
| Progress.AcceptedIsWritten | src/common/aof.cpp:203-311 | in every interleaving an accepted payload stands in the file at its place after that many writer steps, unless stop was set or a write failed hard |
| Progress.OwedBound | src/common/aof.cpp:203-311 | the bound is at most one step per byte in memory, four per queued payload, and four |
| Shutdown.StoppedRun | src/common/aof.cpp:23-49 | once stopped, no step accepts anything, and whether the queue will be drained no longer changes |
| Shutdown.StopDrainsExactly | src/common/aof.cpp:72-81 | seen from any moment after stop was set, a writer that has left wrote everything exactly if it was not then past its last round with something queued |
| Shutdown.WorkStep | src/common/aof.cpp:203-311 | each step of a stopped writer lowers a bound on its remaining steps, and no other thread raises it |
| Shutdown.StoppedWriterLeaves | src/common/aof.cpp:203-311 | in every interleaving a stopped writer leaves within that many of its steps |
| Shutdown.WriterCanWork | src/common/aof.cpp:203-311 | until it is gone it always has a step to take |
| Durability.PublishedBeforeSynced | src/common/aof.cpp:285-299 | in every mode, a four-step run whose published offset is beyond what is synced |
| Durability.PublishedOnDiskExactly | src/common/aof.cpp:285-292 | with an fsync per batch, what was published is synced exactly outside the window before that fsync, in every run |
| Durability.OnDiskOutsideWindowExactly | src/common/aof.cpp:285-299 | every run keeps this outside the window exactly in mode 1 |
| Durability.SyncStep | src/common/aof.cpp:228-310 | each step puts the file on disk exactly when the policy of its mode says so |
| Durability.SyncCovers | src/common/aof.cpp:289-299 | in every run what the file held at an fsync is on disk ever after |
| Durability.SyncedBySync | src/common/aof.cpp:289-299 | and nothing else is |
| Durability.ModeZeroNeverSyncs | src/common/aof.cpp:289-310 | in mode 0 nothing is ever synced |
| Durability.PeriodicSyncCovers | src/common/aof.cpp:293-299 | in mode 2 a due fsync after a batch covers everything written before it |
| Durability.IdleSyncCovers | src/common/aof.cpp:230-236 | and so does a due fsync of an idle writer that is not stopped |
| Writev.AdvanceIovecs | src/common/aof.cpp:271-282 | the in-place loop over the iovec array advances by exactly n bytes |
| Writev.AdvanceUnblocked | src/common/aof.cpp:271-282 | a batch without a blocking run of empty iovecs never gets one |
| Writev.AdvanceBlocked | src/common/aof.cpp:271-282 | a batch with one keeps it, whatever a call on at most 64 iovecs writes |
| Writev.WriteBatch | src/common/aof.cpp:240-283 | under any kernel behaviour written plus pending is the batch; with as many successful calls as bytes it finishes exactly when no blocking run of empty payloads exists, and never otherwise |
| Aof.AofFile.constructor | src/common/aof.cpp:10-15 | a fresh object is the start state over the existing file, offset at its end |
| Aof.AofFile.AppendRawAsync | src/common/aof.cpp:23-32 | accepts exactly when not stopped and not full, and takes the append step |
| Aof.AofFile.BlockingEnter | src/common/aof.cpp:41-48 | the first test of the wait: accepts, refuses or falls asleep, with queue and sleepers after it |
| Aof.AofFile.BlockingWake | src/common/aof.cpp:42-48 | a later test, with the same three outcomes; it leaves the sleepers unless it sleeps on |
| Aof.AofFile.AppendRawBlocking | src/common/aof.cpp:40-49 | the whole call, sleep after sleep with the given turns of all other threads, the writer included: true right after its payload was accepted, false only once stop is set, still asleep only if all sleeps are over and the queue was full at the last wake-up |
| Aof.AofFile.SleepAndTest | src/common/aof.cpp:42-43 | one sleep, in which exactly the given turns are taken, and the test that ends it: at capacity two or more, if nobody else got in and the writer did as many rounds as entries were queued, it returns true or stop is set |
| Aof.AofFile.OthersRun | src/common/aof.cpp:42-42 | while it sleeps exactly the given turns are taken, and nobody touches its payload |
| Aof.AofFile.MoveBatch | src/common/aof.cpp:217-222 | the loop moves exactly the batch off the queue's front |
| Aof.AofFile.DequeueRound | src/common/aof.cpp:216-225 | batch and wake-up test of one critical section |
| Aof.AofFile.LockForRound | src/common/aof.cpp:211-226 | takes the lock step: a round, or sleep when there is nothing to do |
| Aof.AofFile.WakeForRound | src/common/aof.cpp:214-226 | takes the round after the wait |
| Aof.AofFile.TestStopIdle | src/common/aof.cpp:228-238 | takes the idle step: leaves if stopped, else syncs in mode 2 when due |
| Aof.AofFile.WritevOnce | src/common/aof.cpp:262-282 | one writev call, interrupted and failed ones included, takes its step |
| Aof.AofFile.WriteSlice | src/common/aof.cpp:262-282 | a successful call appends what it wrote and advances the iovecs with the in-place loop |
| Aof.AofFile.DropBatch | src/common/aof.cpp:264-269 | a hard error drops the rest of the batch and sets stop |
| Aof.AofFile.PublishOffset | src/common/aof.cpp:285-287 | takes the offset step: the offset is the size of the file |
| Aof.AofFile.SyncBatch | src/common/aof.cpp:289-299 | takes the fsync step: always in mode 1, when due in mode 2, never in mode 0 |
| Aof.AofFile.TestStopAfterBatch | src/common/aof.cpp:301-303 | takes the unlocked stop test |
| Aof.AofFile.TestQueueLocked | src/common/aof.cpp:305-306 | takes the locked queue test |
| Aof.AofFile.SyncAtExit | src/common/aof.cpp:310-310 | takes the final fsync step |
| Aof.AofFile.SetStop | src/common/aof.cpp:74-77 | takes the stop step |
| Aof.AofFile.NotifyAppenders | src/common/aof.cpp:78-79 | notifies every sleeper and changes nothing else about them |
| Aof.AofFile.GetCurrentOffset | src/common/aof.cpp:58-60 | without hard failure the offset is the end of an accepted payload inside the file |
| Aof.AofFile.LoadOffset | src/replica/server.cpp:68-68 | a listener call starts at the offset published now, with nothing read |
| Aof.AofFile.ReadNext | src/common/aof.cpp:178-179 | the listener's next read appends the file's next bytes to its pieces |
| Aof.AofFile.Interfere | src/common/aof.cpp:23-87 | steps of other threads: each that is possible at its moment is taken |
| Aof.AofFile.WriteWholeBatch | src/common/aof.cpp:258-283 | the slice loop takes the scheduled steps and ends with the batch written, dropped by a failure, or the turns used up |
| Aof.AofFile.WriterLoop | src/common/aof.cpp:203-311 | the nested loops refine the turn-by-turn schedule: the same steps, other threads' included; they end only gone or out of turns |
| Aof.AofFile.WriterThread | src/common/aof.cpp:203-311 | what a gone writer has drained and synced; that a stopped one ends with everything accepted in the file, and a running one writes every payload accepted before, for enough turns |
| Aof.AofFile.WriterStep | src/common/aof.cpp:203-311 | the next step wherever the thread is |
| Aof.AofFile.Stop | src/common/aof.cpp:72-87 | sets the flag once, notifies, joins for enough turns, closes; everything accepted is in the file, and synced if configured, exactly if the writer was not past its last round with something queued |
| Aof.AofFile.NotifyAndJoin | src/common/aof.cpp:78-80 | exactly the scheduled turns before and after the notification, which always happens, until the writer is gone or the turns are used up |
| Aof.AofFile.CloseFile | src/common/aof.cpp:82-86 | the last fsync changes nothing, and the descriptor is closed only after the writer is gone |
| Store.LevelDBWrapper.Put | src/core/db.cpp:159-166 | stores the text without deadline and logs SET |
| Store.LevelDBWrapper.Remove | src/core/db.cpp:198-204 | removes the key and logs DEL |
| Store.LevelDBWrapper.Get | src/core/db.cpp:168-196 | the answer on every branch; removes an expired key and logs nothing |
| Store.LevelDBWrapper.Ttl | src/core/db.cpp:218-244 | the answer on every branch, with the signed conversion of the difference |
| Store.LevelDBWrapper.Expire | src/core/db.cpp:246-262 | rewrites the payload with the wrapped deadline and logs that text; refuses missing keys |
| Store.LevelDBWrapper.TtlCleaner | src/core/db.cpp:115-151 | a sweep drops exactly the keys found expired at their visit and keeps all other texts |
| Store.LevelDBWrapper.CleanVisit | src/core/db.cpp:123-146 | one visit of the cleaner |
| StoreLaws.FollowsStep | src/core/db.cpp:159-262 | each operation keeps live store and replay physically equal up to expired leftovers |
| StoreLaws.FollowsAnswers | src/core/db.cpp:168-244 | stores so related answer `get` and `ttl` alike from then on |
| StoreLaws.ReplayFollowsLive | src/core/db.cpp:115-262 | the relation holds after every sequence of operations under a clock that never goes back |
| StoreLaws.ReplayAnswersLikeLive | src/core/db.cpp:115-262 | replaying the log answers like the live store now and later, although expiry is not logged |
| StoreLaws.PutGetExactly | src/core/db.cpp:159-196 | put then get returns the value exactly when it has no tab |
| StoreLaws.PutAnswers | src/core/db.cpp:159-244 | `get` and `ttl` after a put of any value: a tab-free one comes back without deadline; otherwise what the conversion makes of the text behind the first tab decides, an unreadable one being not found with ttl -1 |
| StoreLaws.UntabbedAnswers | src/core/db.cpp:168-225 | a stored text without a tab is found as it is and has ttl -2; an empty one counts as missing |
| StoreLaws.ExpireAnswers | src/core/db.cpp:246-262 | answers after expire for every stored text, with the deadline modulo 2^64 |
| StoreLaws.ExpireLifetime | src/core/db.cpp:218-262 | for positive seconds: alive with the remaining time until the deadline, dead from then on |
| StoreLaws.ExpireNonPositive | src/service/cmd_expire.cpp:30-31 | zero or negative seconds kill at once exactly when they do not reach before the epoch; the exact ttl otherwise |
| StoreLaws.RepresentedDecodes | src/core/db.cpp:173-192 | every stored text decodes to its entry: value, and deadline, none, or an unreadable one |
| StoreLaws.RefinesStep | src/core/db.cpp:115-262 | every operation, with any value, commutes with the abstraction to a map of values with expiries |
| StoreLaws.RefinesAnswers | src/core/db.cpp:168-244 | the encoded store answers like that map, for any initial content of the caller's string |
| StoreLaws.RunRefines | src/core/db.cpp:115-262 | over every run from the empty store, every stored text stands for its entry |
| StoreLaws.RunPlainTexts | src/core/db.cpp:159-262 | with tab-free values every stored text is the value with `TAB -1`, or with a deadline and `TAB -1` |
| StoreLaws.RunAnswersLikeCache | src/core/db.cpp:168-262 | over every run `get` and `ttl` answer like the plain map |
| CrashConsistency.ConsistentNext | src/core/db.cpp:159-204 | each event keeps file, queue and logged commands consistent, and store and log in agreement until an operation goes unlogged |
| CrashConsistency.MomentOf | src/core/db.cpp:159-204 | every prefix of the log was the log at a moment before any operation went unlogged |
| CrashConsistency.CrashPrefixConsistency | src/common/aof.cpp:116-132 | for every run, writes after stop included: any byte prefix of the file, read in any pieces, recovers a store that answers like the live store at a moment of the run; published commands are covered exactly if their bytes survive |
| CrashConsistency.PublishedSurvivesExactly | src/common/aof.cpp:285-299 | in every mode, every crash that keeps the synced bytes keeps all published commands exactly when the published offset is synced |
| CrashConsistency.DurableModeExactly | src/common/aof.cpp:285-292 | with an fsync per batch, exactly outside the window between publishing and syncing |
| CrashConsistency.SyncedCommandsSurvive | src/common/aof.cpp:230-299 | in every mode, a crash that keeps the synced bytes keeps every command published by the last fsync, in mode 2 the last due one |
| CrashConsistency.StoreOfRun | src/core/db.cpp:159-262 | over every run the store is what its operations make of it one after another, and so is the log as long as all were logged |
| CrashConsistency.AgreesUntilStop | src/core/db.cpp:159-166 | in every run log and store agree while stop is not set |
| CrashConsistency.AgreementSafeExactly | src/core/db.cpp:159-166 | from any agreeing state every next event keeps the agreement exactly while stop is not set; after that a put breaks it |
| CrashConsistency.RecoverStore | src/replica/replicate.cpp:41-49 | recovery with the SET/DEL dispatch rebuilds the replay of the greedy parse |
| Interleaving.CoherentStep | src/core/db.cpp:115-262 | each piece of each operation keeps store and replayed log equal on every key that nobody is writing, while no two operations are under way on one key |
| Interleaving.ApartAgrees | src/core/db.cpp:115-262 | over every such run each key that nobody is writing answers as the replayed log does, and store and log agree when nothing is under way |
| Interleaving.AloneIsAtomic | src/core/db.cpp:115-262 | an operation whose pieces nobody interrupts is the atomic operation |
| Interleaving.OverlapSafeExactly | src/core/db.cpp:159-204 | two writes agree with the log however two threads run them exactly when their keys differ or they are the same write |
| Interleaving.VisitLosesPut | src/core/db.cpp:168-196 | a get or cleaner visit overtaken by a put removes what the put stored, while the log keeps it |
| Protocol.DataEntity.constructor | src/replica/protocol.h:35-39 | the default entity |
| Protocol.DataEntity.Serialize | src/replica/protocol.h:51-68 | the appended bytes are the entity's wire form |
| Protocol.DataEntity.Deserialize | src/replica/protocol.h:70-97 | result and fields, including those assigned before a failure |
| Protocol.DecodeOfBytes | src/replica/protocol.h:70-97 | any bytes that start with a serialized entity decode to it |
| Protocol.BytesOfDecode | src/replica/protocol.h:70-97 | accepted bytes start with the serialized form of the result |
| Protocol.EntityRoundTripExactly | src/replica/protocol.h:51-97 | the round trip is the identity exactly when the lengths fit 32 bits |
| Protocol.EntityStrictPrefix | src/replica/protocol.h:70-97 | a cut serialization is rejected |
| Protocol.EntityLayout | src/replica/protocol.h:51-68 | where each field of a serialized entity stands |
| Protocol.CutEntity | src/replica/protocol.h:70-97 | a cut serialization assigns exactly the fields whose bytes are all there |
| Protocol.ReceiveOfMessage | src/replica/protocol.h:133-176 | a message whose length field is right arrives with type and payload intact, and with the header fields the code really yields |
| Protocol.ReceiveOfStrictPrefix | src/replica/protocol.h:153-176 | a message cut short is not received |
| Protocol.StreamInStep | src/replica/protocol.h:133-176 | any list of such messages arrives in order, whatever follows |
| Protocol.TornStream | src/replica/protocol.h:153-176 | a connection cut inside a message delivers exactly the complete ones and leaves the cut bytes over |
| Protocol.InStepAfterFailureExactly | src/common/socket_utils.cpp:71-80 | after a failed receive every message still arrives exactly if it had taken no byte |
| Protocol.Socket.SendAll | src/common/socket_utils.cpp:60-69 | any positive partial sends put the buffer on the wire; a failed call leaves a strict prefix and returns false |
| Protocol.Socket.RecvAll | src/common/socket_utils.cpp:71-80 | takes exactly the first bytes; on a failed call or the stream's end it keeps what arrived and returns false |
| Protocol.Socket.SendMessage | src/replica/protocol.h:133-151 | header pieces and payload form the message's bytes, or a strict prefix when a piece fails |
| Protocol.Socket.RecvHeader | src/replica/protocol.h:154-169 | the header fields, or those that arrived |
| Protocol.Socket.RecvMessage | src/replica/protocol.h:153-176 | a complete message as the stream says, or on failure the half-filled one: fields that arrived, payload zero-filled to its length; throws exactly if the header announces more than can be allocated |
| Protocol.Socket.RecvMessages | src/replica/server.cpp:28-33 | receiving until a failure yields a prefix of the stream's messages, all of them if only the end fails |
| Protocol.SentIsRoomy | src/replica/protocol.h:133-176 | messages whose payloads can be allocated never make the receiver throw |
| Replication.PublishedIsBoundary | src/common/aof.cpp:285-287 | over a file of whole frames every published offset is a frame boundary |
| Replication.PublishedNeverDecreases | src/common/aof.cpp:58-60 | offsets read later in a run are never smaller |
| Replication.ListenerSafety | src/replica/server.cpp:67-98 | at any point of any run a listener call has been handed a contiguous run of logged commands that starts exactly at the offset published when it began, as many as its reads hold, nothing else |
| Replication.ListenerCall | src/replica/server.cpp:67-98 | a call sends the messages of the commands its reads hold, up to the first without its arguments, each in full or, when a send fails, a prefix of it |
| Replication.HandleMessage | src/replica/replicate.cpp:27-58 | the dispatch on one message, including ignored ones |
| Replication.OtherKindsIgnored | src/replica/replicate.cpp:26-57 | other kinds of messages, and entities without a command, change neither store nor log |
| Replication.CutPayloadActs | src/replica/replicate.cpp:33-49 | a payload that does not decode acts through the fields it assigned |
| Replication.AppliedIsLogged | src/replica/replicate.cpp:41-49 | whatever arrives, the replica's own log replays to its store |
| Replication.ReplicaRound | src/replica/replicate.cpp:23-59 | one pass handles a complete message or, after a failed receive, the half-filled one |
| Replication.ReplicaLoop | src/replica/replicate.cpp:23-59 | store and log after any number of passes, half-filled messages included; the loop is left only on a length that cannot be allocated |
| Replication.EntityArrives | src/replica/protocol.h:119-131 | every field of an entity arrives, the full 64-bit sequence included |
| Replication.RelayExecutes | src/replica/server.cpp:72-92 | relaying a command and applying what arrives is executing it |
| Replication.RelayCarries | src/replica/server.cpp:72-92 | a SET or DEL arrives as one entity with the listener's offset as sequence, its name, key and value; other commands as nothing |
| Replication.RelayAllCarries | src/replica/server.cpp:67-98 | over a whole call the entities match the SET and DEL commands one by one, each with the call's offset |
| Replication.ReplicaReplaysLoggedRun | src/replica/server.cpp:67-98 | end to end, a replica replays a contiguous run of the logged commands from the offset published when the call began, and every entity carries that offset |
| TornReplication.EndOfStream | src/replica/replicate.cpp:23-59 | over a connection the replica applies the complete messages and then once what was left half filled |
| TornReplication.CutConnection | src/replica/replicate.cpp:24-49 | cut after n bytes of a message, it applies the messages before it and then that message zero-filled |
| TornReplication.HalfFields | src/replica/protocol.h:153-176 | every field of the half-filled message, wherever the cut is |
| TornReplication.CutHarmlessExactly | src/replica/replicate.cpp:30-49 | a cut INCR_SYNC for a SET or DEL leaves every store alone exactly if the cut comes before the end of the command name |
| TornReplication.CutAfterCommand | src/replica/replicate.cpp:30-49 | cut right after the name, it becomes a put or removal of the empty key, which nobody issued |
| TornReplication.CutInsideValue | src/replica/replicate.cpp:46-48 | cut inside the value, a SET stores the value with zeros at its end |
| TornReplication.WholeConnection | src/replica/replicate.cpp:23-59 | a connection that ends between messages applies exactly those |
| TornReplication.ListenerToReplica | src/replica/server.cpp:67-98 | a listener call over a steady connection leaves the replica's store as after executing the commands read, and the entities that acted are those commands with the call's offset |
| RingBuffer.Ring.constructor | src/common/ring_buffer.h:14-15 | an empty ring of the given capacity |
| RingBuffer.Ring.Push | src/common/ring_buffer.cpp:10-19 | appends, dropping the oldest element when full |
| RingBuffer.Ring.Pop | src/common/ring_buffer.cpp:22-31 | returns and removes the oldest element, or nothing |
| RingBuffer.Ring.Size | src/common/ring_buffer.cpp:34-37 | the number of elements, never above the capacity |
| RingBuffer.Ring.Empty | src/common/ring_buffer.cpp:40-43 | true exactly when there are no elements |
| RingBuffer.Ring.TailIsModular | src/common/ring_buffer.cpp:10-31 | tail is head plus size modulo the capacity in every valid state |
| RingBuffer.Ring.Perform | src/common/ring_buffer.cpp:10-31 | any sequence of pushes and pops is the bounded queue's |
| RingBuffer.PushesKeepNewest | src/common/ring_buffer.cpp:10-19 | after pushes alone the newest items are left |

## Left out

- Convergence of replicas and exactly-once delivery: listeners fire at enqueue time and read from the offset of that moment, so commands may be skipped or repeated.
- Atomicity inside one database operation: `Interleaving` splits operations into their pieces without the writer's steps and the refusals after stop; the crash model has those and takes each operation as one step.
- Store.LevelDBWrapper.TtlCleaner: takes the iterator's snapshot as current; `Interleaving` does not.
- The store's own contents after a restart: LevelDB keeps them, and recovery from the log is modelled over the empty store.
- Writev.WriteBatch: takes a finite script of kernel answers, since interruptions alone could go on forever.
- Replication.ReplicaLoop: covers one connection; reconnecting is left out.
- Replication.ListenerCall: says nothing from a SET or DEL without its arguments on, since the code would index out of bounds, which has no defined meaning.
- RingBuffer.Ring.Push: requires capacity at least one, since pushing into a ring of capacity zero divides by zero.
- Header offset, magic and length of messages do not survive the wire; the model states the values that arrive. Several senders on one socket are not modelled.
- Machine limits: 64-bit `long` and little-endian hosts; allocation succeeds, except for received payloads; buffers are too short for `pos + slen + 2` to wrap.
- LevelDB internals, write batches and snapshots; Redis command handlers other than EXPIRE's signed seconds; authentication, heartbeats, socket creation, event-driven receives, configuration, sequence numbers, status and `main`: library code, plumbing or easy members.
