/** Class Aof of src/common/aof.cpp: its fields, one method for each step of the step system, and the
    writer thread's loop as a run of such steps with everybody else running in between. */
module Aof {
  import opened ByteStrings
  import opened Writer
  import opened WriterLaws
  import opened Shutdown
  import opened Progress
  import opened Writev
  import opened Scheduling

  function Eintrs(turns: seq<Turn>): nat {
    if turns == [] then 0
    else Eintrs(turns[..|turns| - 1]) + if turns[|turns| - 1].answer.Eintr? then 1 else 0
  }

  /** The shared fields, the writer's remaining iovecs, and the file; below them the bookkeeping of
      the step system: the writer's place, the history and the listeners' reads. */
  class AofFile {
    const opts: Options
    var queue: seq<Bytes>
    var stopFlag: bool
    var writtenOffset: nat
    var waiters: map<nat, Waiter>
    var rest: seq<Bytes>
    var file: Bytes
    var synced: nat
    var open: bool
    var pc: Pc
    var initial: Bytes
    var accepted: seq<Bytes>
    var publishedCount: nat
    var readers: map<nat, Reader>
    ghost var trace: seq<Action>

    function View(): State
      reads this
    {
      State(Log(initial, accepted, queue, rest, file), stopFlag, pc, synced, writtenOffset,
            publishedCount, waiters, readers)
    }

    /** The object is in the state that its trace of steps leads to, and the descriptor is closed
        only once the writer is gone. */
    ghost predicate Valid()
      reads this
    {
      && Run(opts, Start(initial), trace) == Some(View())
      && (!open ==> stopFlag && pc.Gone?)
    }

    /** The method that was called took step a. */
    twostate predicate Took(a: Action)
      reads this
    {
      && Enabled(old(View()), a)
      && View() == Step(opts, old(View()), a)
      && trace == old(trace) + [a]
      && initial == old(initial)
      && open == old(open)
      && Valid()
    }

    /** Since `base`, which led to `start`, the first t turns were taken, and nothing else. */
    ghost predicate OnSchedule(base: seq<Action>, start: State, turns: seq<Turn>, t: nat)
      reads this
    {
      && t <= |turns|
      && Run(opts, Start(initial), base) == Some(start)
      && trace == base + Schedule(opts, start, turns[..t])
    }

    constructor (opts: Options, existing: Bytes)
      ensures this.opts == opts && View() == Start(existing) && open && trace == [] && Valid()
    {
      this.opts := opts;
      queue, stopFlag, writtenOffset, waiters, readers := [], false, |existing|, map[], map[];
      rest, file, synced, open := [], existing, 0, true;
      pc, initial, accepted, publishedCount, trace := AtTop, existing, [], 0, [];
    }

    // ---------- appenders ----------

    method AppendRawAsync(payload: Bytes) returns (ok: bool)
      requires Valid()
      modifies `queue, `accepted, `trace
      ensures ok <==> !stopFlag && |old(queue)| < opts.maxQueue
      ensures queue == old(queue) + if ok then [payload] else []
      ensures accepted == old(accepted) + if ok then [payload] else []
      ensures Took(AppendAsync(payload))
    {
      hide Run;
      RunSnoc(opts, Start(initial), trace, AppendAsync(payload));
      trace := trace + [AppendAsync(payload)];
      if stopFlag { return false; }
      if |queue| >= opts.maxQueue { return false; }
      queue := queue + [payload];
      accepted := accepted + [payload];
      ok := true;
    }

    /** The first test of the wait predicate: return or fall asleep. */
    method BlockingEnter(id: nat, payload: Bytes) returns (ok: bool, asleep: bool)
      requires Valid() && id !in waiters
      modifies `queue, `accepted, `waiters, `trace
      ensures ok <==> !stopFlag && |old(queue)| < opts.maxQueue
      ensures asleep <==> !stopFlag && |old(queue)| >= opts.maxQueue
      ensures queue == old(queue) + if ok then [payload] else []
      ensures accepted == old(accepted) + if ok then [payload] else []
      ensures waiters == if asleep then old(waiters)[id := Waiter(payload, false)] else old(waiters)
      ensures Took(BlockEnter(id, payload))
    {
      hide Run;
      RunSnoc(opts, Start(initial), trace, BlockEnter(id, payload));
      trace := trace + [BlockEnter(id, payload)];
      if !(stopFlag || |queue| < opts.maxQueue) {
        waiters := waiters[id := Waiter(payload, false)];
        return false, true;
      }
      if stopFlag { return false, false; }
      queue := queue + [payload];
      accepted := accepted + [payload];
      return true, false;
    }

    /** A later test, after a notification or a spurious wake-up. */
    method BlockingWake(id: nat) returns (ok: bool, asleep: bool)
      requires Valid() && id in waiters
      modifies `queue, `accepted, `waiters, `trace
      ensures ok <==> !stopFlag && |old(queue)| < opts.maxQueue
      ensures asleep <==> !stopFlag && |old(queue)| >= opts.maxQueue
      ensures queue == old(queue) + if ok then [old(waiters)[id].payload] else []
      ensures accepted == old(accepted) + if ok then [old(waiters)[id].payload] else []
      ensures waiters == if asleep then old(waiters)[id := Waiter(old(waiters)[id].payload, false)]
                         else old(waiters) - {id}
      ensures Took(BlockWake(id))
    {
      hide Run;
      RunSnoc(opts, Start(initial), trace, BlockWake(id));
      trace := trace + [BlockWake(id)];
      var w := waiters[id];
      if !(stopFlag || |queue| < opts.maxQueue) {
        waiters := waiters[id := w.(notified := false)];
        return false, true;
      }
      waiters := waiters - {id};
      if stopFlag { return false, false; }
      queue := queue + [w.payload];
      accepted := accepted + [w.payload];
      return true, false;
    }

    /** appendRawBlocking as a whole, with all other threads, the writer among them, running while it
        sleeps: it returns true right after its payload was accepted, false only once stop is set,
        and is still asleep only if the queue was full at the last of the given wake-ups. */
    method AppendRawBlocking(id: nat, payload: Bytes, between: seq<seq<Turn>>)
      returns (ok: bool, asleep: bool, naps: nat)
      requires Valid() && id !in waiters
      requires forall i :: 0 <= i < |between| ==> AllOthers(between[i], {id})
      modifies this
      ensures Valid() && initial == old(initial) && naps <= |between| && (asleep ==> naps == |between|)
      ensures trace == old(trace) + [BlockEnter(id, payload)]
                       + Naps(opts, Step(opts, old(View()), BlockEnter(id, payload)), id, between[..naps])
      ensures !(ok && asleep)
      ensures ok ==> accepted != [] && accepted[|accepted| - 1] == payload
      ensures asleep ==> id in waiters && waiters[id].payload == payload && |queue| >= opts.maxQueue
      ensures !ok && !asleep ==> stopFlag
    {
      hide Step, Enabled, Run, View, Rounds, AllOthers, Naps, Schedule;
      ok, asleep := BlockingEnter(id, payload);
      naps := 0;
      ghost var base, s1 := trace, View();
      NothingScheduled(opts, s1);
      assert between[..0] == [];
      while asleep && naps < |between|
        invariant naps <= |between|
        invariant Valid() && initial == old(initial)
        invariant trace == base + Naps(opts, s1, id, between[..naps])
        invariant !(ok && asleep)
        invariant ok ==> accepted != [] && accepted[|accepted| - 1] == payload
        invariant asleep ==> id in waiters && waiters[id].payload == payload && |queue| >= opts.maxQueue
        invariant !ok && !asleep ==> stopFlag
        decreases |between| - naps
      {
        NapsMore(opts, initial, base, s1, id, between, naps);
        ghost var slept;
        ok, asleep, slept := SleepAndTest(id, between[naps]);
        naps := naps + 1;
      }
    }

    /** One sleep of a blocked appender, in which every given turn is taken, and the test that ends
        it. With room for two entries or more, if nobody else got in meanwhile and the writer did as
        many rounds as entries were queued, the appender gets in now, unless stop is set. */
    method SleepAndTest(id: nat, turns: seq<Turn>) returns (ok: bool, asleep: bool, ghost slept: seq<Action>)
      requires Valid() && id in waiters && AllOthers(turns, {id})
      modifies this
      ensures Valid() && trace == old(trace) + slept + [BlockWake(id)] && initial == old(initial)
      ensures slept == Schedule(opts, old(View()), turns)
      ensures ok ==> accepted != [] && accepted[|accepted| - 1] == old(waiters)[id].payload
      ensures asleep ==>
        id in waiters && waiters[id].payload == old(waiters)[id].payload && |queue| >= opts.maxQueue
      ensures ok ==> !asleep
      ensures !ok && !asleep ==> stopFlag
      ensures UsableBatches(opts) && opts.maxQueue >= 2 ==>
        (Run(opts, old(View()), slept).value.log.accepted == old(accepted)
         && Rounds(opts, old(View()), slept) >= |old(queue)|) ==> ok || stopFlag
    {
      hide Step, Enabled, Run, Rounds, AllOthers, Schedule;
      ghost var s0 := View();
      OthersRun(id, turns);
      slept := Schedule(opts, s0, turns);
      assert trace == old(trace) + slept;
      RunAppend(opts, Start(initial), old(trace), slept);
      if UsableBatches(opts) && opts.maxQueue >= 2 {
        RunLoses(opts, initial, old(trace));
        SleeperGetsIn(opts, s0, slept);
      }
      ok, asleep := BlockingWake(id);
    }

    /** Everybody but the sleeper runs: other threads, and the writer's next step, for each turn. */
    method OthersRun(id: nat, turns: seq<Turn>)
      requires Valid() && id in waiters && AllOthers(turns, {id})
      modifies this
      ensures Valid() && initial == old(initial)
      ensures trace == old(trace) + Schedule(opts, old(View()), turns)
      ensures id in waiters && waiters[id].payload == old(waiters)[id].payload
    {
      hide Step, Enabled, Run, View, Others, Schedule, NextAction;
      ghost var base, start := trace, View();
      NothingScheduled(opts, start);
      assert turns[..0] == [];
      var i := 0;
      while i < |turns|
        invariant 0 <= i <= |turns|
        invariant Valid() && initial == old(initial) && OnSchedule(base, start, turns, i)
        invariant id in waiters && waiters[id].payload == old(waiters)[id].payload
      {
        OthersTurn(turns, i, {id}, base, start);
        assert trace + [] == trace;
        if !pc.Gone? {
          ghost var a := WriterStep(turns[i]);
        }
        i := i + 1;
      }
      assert turns[..i] == turns;
    }

    // ---------- the writer's steps ----------

    /** The batching loop: pop entries off the queue until a limit is reached. */
    method MoveBatch() returns (batch: seq<Bytes>)
      modifies `queue
      ensures var k := BatchSize(opts, old(queue), 0, 0);
              batch == old(queue)[..k] && queue == old(queue)[k..]
    {
      hide BatchSize;
      batch := [];
      var batchBytes: nat := 0;
      while queue != [] && |batch| < opts.maxBatchEntries && batchBytes < opts.maxBatchBytes
        invariant |batch| <= |old(queue)|
        invariant batch == old(queue)[..|batch|] && queue == old(queue)[|batch|..]
        invariant |batch| + BatchSize(opts, queue, |batch|, batchBytes) == BatchSize(opts, old(queue), 0, 0)
        decreases |queue|
      {
        BatchSizeStep(opts, queue, |batch|, batchBytes);
        MoveFront(old(queue), |batch|);
        batch := batch + [queue[0]];
        batchBytes := batchBytes + |batch[|batch| - 1]|;
        queue := queue[1..];
      }
      BatchSizeEnd(opts, queue, |batch|, batchBytes);
    }

    /** The rest of the critical section: take a batch, and wake the appenders if the queue is short. */
    method DequeueRound()
      modifies `queue, `rest, `waiters, `pc
      ensures View() == Round(opts, old(View()))
      ensures rest + queue == old(queue) && waiters.Keys == old(waiters).Keys
      ensures forall id :: id in waiters ==>
        waiters[id] == old(waiters)[id].(notified := |queue| < opts.maxQueue / 2 || old(waiters)[id].notified)
      ensures pc == if rest == [] then Idle(|accepted|) else Writing
    {
      hide BatchSize;
      rest := MoveBatch();
      if |queue| < opts.maxQueue / 2 {
        waiters := Notified(waiters);
      }
      pc := if rest == [] then Idle(|accepted|) else Writing;
    }

    /** Lock for a round; with nothing to do, fall asleep instead. */
    method LockForRound() returns (asleep: bool)
      requires Valid() && pc == AtTop
      modifies `queue, `rest, `waiters, `pc, `trace
      ensures Took(Lock)
      ensures asleep == (!stopFlag && old(queue) == [])
      ensures asleep ==> pc == Asleep && waiters == old(waiters)
      ensures !asleep ==> pc == if rest == [] then Idle(|accepted|) else Writing
    {
      hide Run, BatchSize, Notified;
      RunSnoc(opts, Start(initial), trace, Lock);
      trace := trace + [Lock];
      if !stopFlag && queue == [] {
        pc := Asleep;
        return true;
      }
      DequeueRound();
      asleep := false;
    }

    /** The round after the wait, however it ended. */
    method WakeForRound()
      requires Valid() && pc == Asleep
      modifies `queue, `rest, `waiters, `pc, `trace
      ensures Took(Wake)
      ensures pc == if rest == [] then Idle(|accepted|) else Writing
    {
      hide Run, BatchSize, Notified;
      RunSnoc(opts, Start(initial), trace, Wake);
      trace := trace + [Wake];
      DequeueRound();
    }

    /** Nothing to write: leave if stopped, else maybe do a periodic fsync and go on. */
    method TestStopIdle(due: bool) returns (left: bool)
      requires Valid() && pc.Idle?
      modifies `pc, `synced, `trace
      ensures Took(IdleTest(due))
      ensures synced == if !stopFlag && opts.durability == 2 && due then |file| else old(synced)
      ensures left == stopFlag && if left then pc.Leaving? else pc == AtTop
    {
      hide Run;
      RunSnoc(opts, Start(initial), trace, IdleTest(due));
      trace := trace + [IdleTest(due)];
      left := stopFlag;
      if left {
        pc := Leaving(ByIdleTest(pc.seen));
        return;
      }
      if opts.durability == 2 && due { synced := |file|; }
      pc := AtTop;
    }

    /** A successful writev call on at most 64 iovecs, and the advance over what it wrote. */
    method WriteSlice(choice: nat) returns (ghost n: nat)
      requires Valid() && pc == Writing && rest != []
      modifies `file, `rest, `pc, `trace
      ensures Took(Action.Writev(n)) && pc == if rest == [] then Storing else Writing
      ensures n == Count(choice, |Concat(Slice(old(rest)))|)
      ensures n <= |Concat(old(rest))| && file == old(file) + Concat(old(rest))[..n]
    {
      hide Run, Concat, Slice, Advance, Partial, Count, TakenCount, BatchSize;
      SliceConcat(rest);
      var count := Count(choice, |Concat(Slice(rest))|);
      n := count;
      RunSnoc(opts, Start(initial), trace, Action.Writev(n));
      trace := trace + [Action.Writev(n)];
      file := file + Concat(rest)[..count];
      rest := AdvanceRest(rest, count);
      pc := if rest == [] then Storing else Writing;
    }

    /** A hard error: the rest of the batch is dropped and stop is set. */
    method DropBatch()
      requires Valid() && pc == Writing
      modifies `rest, `pc, `stopFlag, `trace
      ensures Took(WritevFailed) && pc == Storing && rest == [] && stopFlag
    {
      hide Run, Concat, Slice, Advance, TakenCount, BatchSize;
      RunSnoc(opts, Start(initial), trace, WritevFailed);
      trace := trace + [WritevFailed];
      stopFlag, rest, pc := true, [], Storing;
    }

    /** One writev call, whatever it answers. */
    method WritevOnce(answer: WritevReturn) returns (ghost a: Action)
      requires Valid() && pc == Writing && rest != []
      modifies `file, `rest, `pc, `stopFlag, `trace
      ensures Took(a) && FromWriter(a) && a == AnswerAction(old(rest), answer)
      ensures old(stopFlag) ==> stopFlag
      ensures a == Interrupted <==> answer.Eintr?
      ensures a == WritevFailed <==> answer.HardError?
      ensures pc == if rest == [] then Storing else Writing
    {
      hide Run, Concat, Slice, Advance, TakenCount, BatchSize;
      match answer {
        case Eintr =>
          a := Interrupted;
          RunSnoc(opts, Start(initial), trace, a);
          trace := trace + [a];
        case HardError =>
          a := WritevFailed;
          DropBatch();
        case Wrote(choice) =>
          ghost var n := WriteSlice(choice);
          a := Action.Writev(n);
      }
    }

    method PublishOffset()
      requires Valid() && pc == Storing
      modifies `writtenOffset, `publishedCount, `pc, `trace
      ensures Took(StoreOffset) && pc == Syncing && writtenOffset == |file|
    {
      hide Run, TakenCount;
      RunSnoc(opts, Start(initial), trace, StoreOffset);
      trace := trace + [StoreOffset];
      writtenOffset := |file|;
      publishedCount := TakenCount(View().log);
      pc := Syncing;
    }

    method SyncBatch(due: bool)
      requires Valid() && pc == Syncing
      modifies `synced, `pc, `trace
      ensures Took(Fsync(due)) && pc == StopTest
      ensures synced == match opts.durability
                        case 1 => |file|
                        case 2 => if due then |file| else old(synced)
                        case _ => old(synced)
    {
      hide Run;
      RunSnoc(opts, Start(initial), trace, Fsync(due));
      trace := trace + [Fsync(due)];
      if opts.durability == 1 {
        synced := |file|;
      } else if opts.durability == 2 {
        if due { synced := |file|; }
      }
      pc := StopTest;
    }

    method TestStopAfterBatch() returns (stopping: bool)
      requires Valid() && pc == StopTest
      modifies `pc, `trace
      ensures Took(TestStop)
      ensures stopping == stopFlag && pc == if stopping then LockedTest else AtTop
    {
      hide Run;
      RunSnoc(opts, Start(initial), trace, TestStop);
      trace := trace + [TestStop];
      stopping := stopFlag;
      pc := if stopping then LockedTest else AtTop;
    }

    method TestQueueLocked() returns (left: bool)
      requires Valid() && pc == LockedTest
      modifies `pc, `trace
      ensures Took(TestQueue)
      ensures left == (queue == []) && if left then pc.Leaving? else pc == AtTop
    {
      hide Run;
      RunSnoc(opts, Start(initial), trace, TestQueue);
      trace := trace + [TestQueue];
      left := queue == [];
      pc := if left then Leaving(ByLockedTest) else AtTop;
    }

    method SyncAtExit()
      requires Valid() && pc.Leaving?
      modifies `pc, `synced, `trace
      ensures Took(FinalFsync) && pc.Gone?
      ensures synced == if opts.durability > 0 then |file| else old(synced)
    {
      hide Run;
      RunSnoc(opts, Start(initial), trace, FinalFsync);
      trace := trace + [FinalFsync];
      if opts.durability > 0 { synced := |file|; }
      pc := Gone(pc.exit);
    }

    // ---------- stop and listeners ----------

    method SetStop()
      requires Valid() && !stopFlag
      modifies `stopFlag, `trace
      ensures Took(StopSet) && stopFlag
    {
      hide Run;
      RunSnoc(opts, Start(initial), trace, StopSet);
      trace := trace + [StopSet];
      stopFlag := true;
    }

    method NotifyAppenders()
      requires Valid() && stopFlag
      modifies `waiters, `trace
      ensures Took(StopNotify) && waiters.Keys == old(waiters).Keys
      ensures forall id :: id in waiters ==> waiters[id] == old(waiters)[id].(notified := true)
    {
      hide Run;
      RunSnoc(opts, Start(initial), trace, StopNotify);
      trace := trace + [StopNotify];
      waiters := Notified(waiters);
    }

    /** getCurrentOffset: the end of some accepted payload, inside the file. */
    method GetCurrentOffset() returns (n: nat)
      requires Valid()
      ensures n == writtenOffset
      ensures NoFailure(trace) ==>
        publishedCount <= |accepted| && n == Boundary(View().log, publishedCount) <= |file|
    {
      hide Run, Boundary;
      n := writtenOffset;
      if NoFailure(trace) { RunKeepsInv(opts, initial, trace); }
    }

    /** A listener call begins by loading the offset. */
    method LoadOffset(id: nat)
      requires Valid() && id !in readers
      modifies `readers, `trace
      ensures Took(Load(id))
      ensures readers == old(readers)[id := Reader(publishedCount, writtenOffset, [])]
    {
      hide Run;
      RunSnoc(opts, Start(initial), trace, Load(id));
      trace := trace + [Load(id)];
      var r := Reader(publishedCount, writtenOffset, []);
      readers := readers[id := r];
    }

    /** Its next read returns n more bytes of the file. */
    method ReadNext(id: nat, n: nat)
      requires Valid() && id in readers && 1 <= n <= 64 * 1024
      requires Position(readers[id]) + n <= |file|
      modifies `readers, `trace
      ensures Took(ReadPiece(id, n))
      ensures readers.Keys == old(readers).Keys
      ensures var r, p := old(readers)[id], Position(old(readers)[id]);
              readers[id] == Reader(r.count, r.offset, r.pieces + [file[p..p + n]])
    {
      hide Run, Concat;
      RunSnoc(opts, Start(initial), trace, ReadPiece(id, n));
      trace := trace + [ReadPiece(id, n)];
      var r := readers[id];
      readers := readers[id := r.(pieces := r.pieces + [file[Position(r)..Position(r) + n]])];
    }

    // ---------- whole calls ----------

    /** The steps of other threads that are possible at their turn; the others are skipped. */
    method Interfere(acts: seq<Action>, asleep: set<nat>)
      requires Valid() && Others(acts, asleep)
      modifies `queue, `accepted, `waiters, `trace, `stopFlag, `readers
      ensures Valid() && (old(stopFlag) ==> stopFlag)
      ensures trace == old(trace) + Performed(opts, old(View()), acts)
      ensures WorkingSteps(trace) == WorkingSteps(old(trace))
      ensures forall id :: id in asleep && id in old(waiters) ==>
        id in waiters && waiters[id].payload == old(waiters)[id].payload
    {
      hide Step, Run, Enabled, View, WorkingSteps, Performed;
      ghost var base, s0 := trace, View();
      NothingScheduled(opts, s0);
      assert acts[..0] == [];
      var i := 0;
      while i < |acts|
        invariant 0 <= i <= |acts|
        invariant Valid() && (old(stopFlag) ==> stopFlag)
        invariant trace == base + Performed(opts, s0, acts[..i])
        invariant WorkingSteps(trace) == WorkingSteps(old(trace))
        invariant forall id :: id in asleep && id in old(waiters) ==>
          id in waiters && waiters[id].payload == old(waiters)[id].payload
      {
        PerformedMore(opts, initial, base, s0, acts, i);
        OtherStep(acts[i]);
        i := i + 1;
      }
      assert acts[..i] == acts;
    }

    /** The other threads' part of turn t. */
    method OthersTurn(turns: seq<Turn>, t: nat, asleep: set<nat>, ghost base: seq<Action>, ghost start: State)
      requires Valid() && t < |turns| && Others(turns[t].others, asleep)
      modifies `queue, `accepted, `waiters, `trace, `stopFlag, `readers
      ensures Valid() && old(trace) <= trace && (old(stopFlag) ==> stopFlag)
      ensures old(OnSchedule(base, start, turns, t)) ==>
        && Run(opts, Start(initial), base) == Some(start)
        && base + Schedule(opts, start, turns[..t + 1])
             == trace + if pc.Gone? then [] else [NextAction(pc, rest, turns[t])]
      ensures WorkingSteps(trace) == WorkingSteps(old(trace))
      ensures forall id :: id in asleep && id in old(waiters) ==>
        id in waiters && waiters[id].payload == old(waiters)[id].payload
    {
      hide Step, Run, Enabled, WorkingSteps, Performed, Schedule, NextAction;
      if OnSchedule(base, start, turns, t) { ScheduleMore(opts, initial, base, start, turns, t); }
      Interfere(turns[t].others, asleep);
      assert trace + [] == trace;
    }

    method OtherStep(a: Action)
      requires Valid() && !FromWriter(a)
      modifies `queue, `accepted, `waiters, `trace, `stopFlag, `readers
      ensures Valid() && (old(stopFlag) ==> stopFlag)
      ensures trace == old(trace) + if Enabled(old(View()), a) then [a] else []
      ensures WorkingSteps(trace) == WorkingSteps(old(trace))
      ensures forall id :: id in old(waiters) && a != BlockWake(id) ==>
        id in waiters && waiters[id].payload == old(waiters)[id].payload
    {
      hide Step, Run, WorkingSteps, Concat;
      WorkingSnoc(trace, a);
      match a {
        case AppendAsync(p) => var _ := AppendRawAsync(p);
        case BlockEnter(id, p) => if id !in waiters { var _, _ := BlockingEnter(id, p); }
        case BlockWake(id) => if id in waiters { var _, _ := BlockingWake(id); }
        case StopSet => if !stopFlag { SetStop(); }
        case StopNotify => if stopFlag { NotifyAppenders(); }
        case Load(id) => if id !in readers { LoadOffset(id); }
        case ReadPiece(id, n) =>
          if id in readers && 1 <= n <= 64 * 1024 && Position(readers[id]) + n <= |file| {
            ReadNext(id, n);
          }
      }
    }

    /** The writer used turns from..t for one step each; only interrupted calls are not work. */
    twostate predicate Advanced(turns: seq<Turn>, from: nat, t: nat)
      reads this
    {
      && Valid() && old(trace) <= trace && initial == old(initial) && open == old(open)
      && (old(stopFlag) ==> stopFlag)
      && from <= t <= |turns|
      && WorkingSteps(trace) + Eintrs(turns[..t]) + from
           >= WorkingSteps(old(trace)) + Eintrs(turns[..from]) + t
    }

    /** writerLoop, one turn for each of its steps: it ends only when the turns are used up or the
        thread has left. */
    method WriterLoop(turns: seq<Turn>, from: nat, ghost base: seq<Action>, ghost start: State) returns (t: nat)
      requires Valid() && pc == AtTop && rest == [] && from <= |turns| && AllOthers(turns, {})
      modifies this
      ensures old(OnSchedule(base, start, turns, from)) ==> OnSchedule(base, start, turns, t)
      ensures Advanced(turns, from, t) && (t == |turns| || pc.Gone?)
    {
      hide Step, Run, View, Valid, WorkingSteps, Eintrs, Others, Schedule;
      t := from;
      while true
        invariant old(OnSchedule(base, start, turns, from)) ==> OnSchedule(base, start, turns, t)
        invariant Advanced(turns, from, t) && pc == AtTop
        decreases |turns| - t
      {
        t := TakeRound(turns, t, base, start);
        if t == |turns| { return; }
        if rest == [] {
          var left;
          t, left := IdleTurn(turns, t, base, start);
          if left { break; }
          continue;
        }
        t := WriteWholeBatch(turns, t, base, start);
        if t == |turns| { return; }
        t := PublishAndSync(turns, t, base, start);
        if t == |turns| { return; }
        var left;
        t, left := StopTests(turns, t, base, start);
        if left { break; }
        if t == |turns| { return; }
      }
      if t == |turns| { return; }
      t := ExitTurn(turns, t, base, start);
    }

    /** Lines 211 to 226: one round, with a sleep before it if there is nothing to do. */
    method TakeRound(turns: seq<Turn>, from: nat, ghost base: seq<Action>, ghost start: State) returns (t: nat)
      requires Valid() && pc == AtTop && from <= |turns| && AllOthers(turns, {})
      modifies this
      ensures old(OnSchedule(base, start, turns, from)) ==> OnSchedule(base, start, turns, t)
      ensures Advanced(turns, from, t) && (from < |turns| ==> t > from)
      ensures t < |turns| ==> if rest == [] then pc.Idle? else pc == Writing
    {
      hide Step, Run, View, Valid, WorkingSteps, Eintrs, Others, Schedule;
      t := from;
      if t == |turns| { return; }
      OthersTurn(turns, t, {}, base, start);
      WorkingSnoc(trace, Lock);
      EintrsSnoc(turns, t);
      var asleep := LockForRound();
      t := t + 1;
      if asleep && t < |turns| {
        OthersTurn(turns, t, {}, base, start);
        WorkingSnoc(trace, Wake);
        EintrsSnoc(turns, t);
        WakeForRound();
        t := t + 1;
      }
    }

    method IdleTurn(turns: seq<Turn>, from: nat, ghost base: seq<Action>, ghost start: State) returns (t: nat, left: bool)
      requires Valid() && pc.Idle? && from < |turns| && AllOthers(turns, {})
      modifies this
      ensures old(OnSchedule(base, start, turns, from)) ==> OnSchedule(base, start, turns, t)
      ensures Advanced(turns, from, t) && t == from + 1
      ensures if left then pc.Leaving? else pc == AtTop
    {
      hide Step, Run, View, Valid, WorkingSteps, Eintrs, Others, Schedule;
      OthersTurn(turns, from, {}, base, start);
      WorkingSnoc(trace, IdleTest(turns[from].due));
      EintrsSnoc(turns, from);
      left := TestStopIdle(turns[from].due);
      t := from + 1;
    }

    /** The slice loop, interrupted calls repeated. */
    method WriteWholeBatch(turns: seq<Turn>, from: nat, ghost base: seq<Action>, ghost start: State) returns (t: nat)
      requires Valid() && pc == Writing && rest != [] && from <= |turns| && AllOthers(turns, {})
      modifies this
      ensures old(OnSchedule(base, start, turns, from)) ==> OnSchedule(base, start, turns, t)
      ensures Advanced(turns, from, t) && (t < |turns| ==> rest == [])
      ensures pc == if rest == [] then Storing else Writing
    {
      hide Step, Run, View, Valid, WorkingSteps, Eintrs, Others, Schedule;
      t := from;
      while rest != [] && t < |turns|
        invariant old(OnSchedule(base, start, turns, from)) ==> OnSchedule(base, start, turns, t)
        invariant Advanced(turns, from, t) && pc == if rest == [] then Storing else Writing
        decreases |turns| - t
      {
        OthersTurn(turns, t, {}, base, start);
        ghost var before := trace;
        ghost var a := WritevOnce(turns[t].answer);
        WorkingSnoc(before, a);
        EintrsSnoc(turns, t);
        t := t + 1;
      }
    }

    method PublishAndSync(turns: seq<Turn>, from: nat, ghost base: seq<Action>, ghost start: State) returns (t: nat)
      requires Valid() && pc == Storing && from < |turns| && AllOthers(turns, {})
      modifies this
      ensures old(OnSchedule(base, start, turns, from)) ==> OnSchedule(base, start, turns, t)
      ensures Advanced(turns, from, t) && (t < |turns| ==> pc == StopTest)
    {
      hide Step, Run, View, Valid, WorkingSteps, Eintrs, Others, Schedule;
      t := from;
      OthersTurn(turns, t, {}, base, start);
      WorkingSnoc(trace, StoreOffset);
      EintrsSnoc(turns, t);
      PublishOffset();
      t := t + 1;
      if t == |turns| { return; }
      OthersTurn(turns, t, {}, base, start);
      WorkingSnoc(trace, Fsync(turns[t].due));
      EintrsSnoc(turns, t);
      SyncBatch(turns[t].due);
      t := t + 1;
    }

    /** The two tests after a batch, the second under the lock. */
    method StopTests(turns: seq<Turn>, from: nat, ghost base: seq<Action>, ghost start: State) returns (t: nat, left: bool)
      requires Valid() && pc == StopTest && from < |turns| && AllOthers(turns, {})
      modifies this
      ensures old(OnSchedule(base, start, turns, from)) ==> OnSchedule(base, start, turns, t)
      ensures Advanced(turns, from, t) && t > from
      ensures left ==> pc.Leaving?
      ensures !left && t < |turns| ==> pc == AtTop
    {
      hide Step, Run, View, Valid, WorkingSteps, Eintrs, Others, Schedule;
      t, left := from, false;
      OthersTurn(turns, t, {}, base, start);
      WorkingSnoc(trace, TestStop);
      EintrsSnoc(turns, t);
      var stopping := TestStopAfterBatch();
      t := t + 1;
      if stopping && t < |turns| {
        OthersTurn(turns, t, {}, base, start);
        WorkingSnoc(trace, TestQueue);
        EintrsSnoc(turns, t);
        left := TestQueueLocked();
        t := t + 1;
      }
    }

    method ExitTurn(turns: seq<Turn>, from: nat, ghost base: seq<Action>, ghost start: State) returns (t: nat)
      requires Valid() && pc.Leaving? && from < |turns| && AllOthers(turns, {})
      modifies this
      ensures old(OnSchedule(base, start, turns, from)) ==> OnSchedule(base, start, turns, t)
      ensures Advanced(turns, from, t) && t == from + 1 && pc.Gone?
    {
      hide Step, Run, View, Valid, WorkingSteps, Eintrs, Others, Schedule;
      OthersTurn(turns, from, {}, base, start);
      WorkingSnoc(trace, FinalFsync);
      EintrsSnoc(turns, from);
      SyncAtExit();
      t := from + 1;
    }

    /** The writer thread from its start: what it leaves behind follows from the laws of runs, and
        so does that it ends if stop is set and the kernel answers often enough. As long as stop is
        not set, it writes every accepted payload if the kernel does. */
    method WriterThread(turns: seq<Turn>) returns (t: nat)
      requires Valid() && pc == AtTop && rest == [] && AllOthers(turns, {})
      modifies this
      ensures Advanced(turns, 0, t) && (t == |turns| || pc.Gone?)
      ensures trace == old(trace) + Schedule(opts, old(View()), turns[..t])
      ensures UsableBatches(opts) && NoFailure(trace) && pc.Gone? ==> LeftInOrder(opts, View())
      ensures old(stopFlag) && UsableBatches(opts) ==>
        && stopFlag && accepted == old(accepted)
        && (AllNonEmpty(accepted) && |turns| >= Work(old(View())) + Eintrs(turns) ==> pc.Gone?)
        && (pc.Gone? && NoFailure(trace) ==> file == initial + Concat(accepted))
      ensures !stopFlag && UsableBatches(opts) && NoFailure(trace) && AllNonEmpty(accepted) ==>
        forall i :: 0 <= i < |old(accepted)| && |turns| >= Owed(old(View()), i) + Eintrs(turns) ==>
          HasAt(file, |initial| + |Concat(old(accepted)[..i])|, old(accepted)[i])
    {
      hide Step, Run, WorkingSteps, Eintrs, Others, LeftInOrder, AllNonEmpty, Concat, Work, Owed, HasAt, Schedule;
      ghost var before := trace;
      assert turns[..0] == [];
      EintrsOfNothing();
      NothingScheduled(opts, View());
      t := WriterLoop(turns, 0, before, View());
      if UsableBatches(opts) {
        if NoFailure(trace) && pc.Gone? { GoneLeftInOrder(opts, initial, trace); }
        if old(stopFlag) { AfterStop(opts, initial, before, trace); }
        if NoFailure(trace) && AllNonEmpty(accepted) { WhileRunning(opts, initial, before, trace); }
      }
      assert turns[..|turns|] == turns;
    }

    lemma WritingHasRest()
      requires Valid() && pc == Writing
      ensures rest != []
    {
      hide Run;
      RunLoses(opts, initial, trace);
    }

    /** The thread's next step, wherever it is. */
    method WriterStep(turn: Turn) returns (ghost a: Action)
      requires Valid() && !pc.Gone?
      modifies this
      ensures Took(a) && FromWriter(a) && (a == Interrupted ==> turn.answer.Eintr?)
      ensures a == NextAction(old(pc), old(rest), turn)
      ensures old(stopFlag) ==> stopFlag
      ensures waiters.Keys == old(waiters).Keys
      ensures forall id :: id in old(waiters) ==> waiters[id].payload == old(waiters)[id].payload
    {
      hide Step, Run, Enabled;
      a := NextStep(turn);
      WriterKeepsSleepers(opts, old(View()), a);
    }

    method NextStep(turn: Turn) returns (ghost a: Action)
      requires Valid() && !pc.Gone?
      modifies this
      ensures Took(a) && FromWriter(a) && (a == Interrupted ==> turn.answer.Eintr?)
      ensures a == NextAction(old(pc), old(rest), turn)
      ensures old(stopFlag) ==> stopFlag
    {
      hide Step, Run, View, Valid;
      if pc == Writing { WritingHasRest(); }
      match pc {
        case AtTop => a := Lock; var _ := LockForRound();
        case Asleep => a := Wake; WakeForRound();
        case Idle(_) => a := IdleTest(turn.due); var _ := TestStopIdle(turn.due);
        case Writing => a := WritevOnce(turn.answer);
        case Storing => a := StoreOffset; PublishOffset();
        case Syncing => a := Fsync(turn.due); SyncBatch(turn.due);
        case StopTest => a := TestStop; var _ := TestStopAfterBatch();
        case LockedTest => a := TestQueue; var _ := TestQueueLocked();
        case Leaving(_) => a := FinalFsync; SyncAtExit();
      }
    }

    /** stop: set the flag, notify, wait for the writer wherever it was, sync and close. Threads also run
        between setting the flag and notifying. It returns at once if stop was set before. The
        writer ends if the kernel answers often enough, and then everything accepted is in the file
        exactly if, when stop was set, the writer was not past its last round with something still
        queued. */
    method Stop(between: seq<Turn>, turns: seq<Turn>) returns (joined: bool)
      requires Valid() && AllOthers(between, {}) && AllOthers(turns, {})
      modifies this
      ensures old(stopFlag) ==>
        !joined && View() == old(View()) && trace == old(trace) && open == old(open)
      ensures !old(stopFlag) ==>
        && Valid() && stopFlag && initial == old(initial) && joined == pc.Gone?
        && open == !joined
        && old(trace) + [StopSet] <= trace
        && exists k :: |old(trace)| < k < |trace| && trace[k] == StopNotify
      ensures !old(stopFlag) && UsableBatches(opts) ==>
        && accepted == old(accepted)
        && (AllNonEmpty(accepted) ==>
              |between| + |turns| >= Work(old(View())) + Eintrs(between) + Eintrs(turns) ==> joined)
        && (joined && NoFailure(trace) ==>
              && (WillDrain(old(View())) ==> file == initial + Concat(accepted))
              && (AllNonEmpty(accepted) ==>
                    (file == initial + Concat(accepted) <==> WillDrain(old(View()))))
              && (opts.durability > 0 ==> synced == |file|))
    {
      hide Step, Run, Enabled, WorkingSteps, Eintrs, Others, AllNonEmpty, Concat, Schedule, Work, WillDrain;
      if stopFlag { return false; }
      ghost var s0 := View();
      SetStop();
      ghost var before, s1 := trace, View();
      assert s1 == s0.(stop := true);
      StopLeavesWork(s0);
      assert Run(opts, Start(initial), before) == Some(s1);
      var t1, t2;
      ghost var noted;
      t1, t2, noted := NotifyAndJoin(between, turns);
      joined := pc.Gone?;
      if UsableBatches(opts) {
        AfterStop(opts, initial, before, trace);
        if joined && NoFailure(trace) { GoneLeftInOrder(opts, initial, trace); }
      }
      if joined { CloseFile(); }
    }

    /** The last fsync finds nothing left to do, since the writer did one when it left. */
    method CloseFile()
      requires Valid() && open && stopFlag && pc.Gone?
      modifies `synced, `open
      ensures Valid() && !open && View() == old(View())
    {
      hide Run;
      GoneSynced(opts, initial, trace);
      if open {
        if opts.durability > 0 { synced := |file|; }
        open := false;
      }
    }

    /** Turns before the notification, the notification, and the join. */
    method NotifyAndJoin(between: seq<Turn>, turns: seq<Turn>) returns (t1: nat, t2: nat, ghost noted: State)
      requires Valid() && stopFlag && AllOthers(between, {}) && AllOthers(turns, {})
      modifies this
      ensures Valid() && stopFlag && old(trace) <= trace && initial == old(initial) && open == old(open)
      ensures t1 <= |between| && t2 <= |turns| && (pc.Gone? || (t1 == |between| && t2 == |turns|))
      ensures var before := old(trace) + Schedule(opts, old(View()), between[..t1]) + [StopNotify];
              && Run(opts, Start(initial), before) == Some(noted)
              && trace == before + Schedule(opts, noted, turns[..t2])
      ensures exists k :: |old(trace)| <= k < |trace| && trace[k] == StopNotify
      ensures pc.Gone? || WorkingSteps(trace) + Eintrs(between) + Eintrs(turns)
                            >= WorkingSteps(old(trace)) + |between| + |turns|
    {
      hide Step, Run, Enabled, WorkingSteps, Eintrs, Others, View, Schedule;
      EintrsOfNothing();
      assert between[..0] == [] && turns[..0] == [];
      t1 := JoinWriter(between);
      WorkingSnoc(trace, StopNotify);
      ghost var k := |trace|;
      NotifyAppenders();
      ghost var before := trace;
      noted := View();
      t2 := JoinWriter(turns);
      assert trace[k] == before[k] == StopNotify;
      assert turns[..|turns|] == turns && between[..|between|] == between;
    }

    /** writer_thread_.join(), for as many turns as there are. */
    method JoinWriter(turns: seq<Turn>) returns (t: nat)
      requires Valid() && AllOthers(turns, {})
      modifies this
      ensures Advanced(turns, 0, t) && (t == |turns| || pc.Gone?) && (old(pc).Gone? ==> pc.Gone?)
      ensures trace == old(trace) + Schedule(opts, old(View()), turns[..t])
    {
      hide Step, Run, View, Enabled, WorkingSteps, Eintrs, Others, Schedule, NextAction;
      ghost var base, start := trace, View();
      NothingScheduled(opts, start);
      t := 0;
      assert turns[..0] == [];
      while t < |turns| && !pc.Gone?
        invariant Advanced(turns, 0, t) && (old(pc).Gone? ==> pc.Gone?) && OnSchedule(base, start, turns, t)
        decreases |turns| - t
      {
        OthersTurn(turns, t, {}, base, start);
        ghost var before := trace;
        ghost var a := WriterStep(turns[t]);
        WorkingSnoc(before, a);
        EintrsSnoc(turns, t);
        t := t + 1;
      }
    }
  }

  lemma EintrsOfNothing()
    ensures Eintrs([]) == 0
  {
  }

  /** The iovecs over a list of byte ranges, advanced in place. */
  method AdvanceRest(rest: seq<Bytes>, n: nat) returns (left: seq<Bytes>)
    ensures left == Advance(rest, n)
  {
    hide Advance, Pending, PendingOne;
    var iovs := new Iovec[|rest|](i requires 0 <= i < |rest| => Iovec(rest[i], 0, |rest[i]|));
    PendingOfBatch(iovs[..], rest);
    assert iovs[0..] == iovs[..];
    var idx := AdvanceIovecs(iovs, 0, n);
    left := Pending(iovs[idx..]);
  }

  lemma EintrsSnoc(turns: seq<Turn>, t: nat)
    requires t < |turns|
    ensures Eintrs(turns[..t + 1]) == Eintrs(turns[..t]) + if turns[t].answer.Eintr? then 1 else 0
  {
    assert turns[..t + 1][..t] == turns[..t];
  }

  /** No step of the writer, and no wake-up of an appender in `asleep`. */
  predicate Others(acts: seq<Action>, asleep: set<nat>) {
    forall i :: 0 <= i < |acts| ==>
      !FromWriter(acts[i]) && (acts[i].BlockWake? ==> acts[i].id !in asleep)
  }

  predicate AllOthers(turns: seq<Turn>, asleep: set<nat>) {
    forall i :: 0 <= i < |turns| ==> Others(turns[i].others, asleep)
  }

  lemma MoveFront(q: seq<Bytes>, n: nat)
    requires n < |q|
    ensures q[..n] + [q[n..][0]] == q[..n + 1] && q[n..][1..] == q[n + 1..]
  {
  }

  lemma BatchSizeStep(o: Options, queue: seq<Bytes>, n: nat, bytes: nat)
    requires queue != [] && n < o.maxBatchEntries && bytes < o.maxBatchBytes
    ensures BatchSize(o, queue, n, bytes) == 1 + BatchSize(o, queue[1..], n + 1, bytes + |queue[0]|)
  {
  }

  lemma BatchSizeEnd(o: Options, queue: seq<Bytes>, n: nat, bytes: nat)
    requires queue == [] || n >= o.maxBatchEntries || bytes >= o.maxBatchBytes
    ensures BatchSize(o, queue, n, bytes) == 0
  {
  }
}
