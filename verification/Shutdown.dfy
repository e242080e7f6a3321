/** What happens once stop is set: the writer leaves after a bounded number of its steps, and when
    it has drained the queue. */
module Shutdown {
  import opened ByteStrings
  import opened Writer
  import opened WriterLaws

  /** The writer is past its last round. */
  predicate PastLastRound(s: State) {
    s.pc.Idle? || s.pc.Leaving? || s.pc.Gone?
  }

  predicate Left(s: State) {
    s.pc.Leaving? || s.pc.Gone?
  }

  /** Nothing will stay behind in the queue. */
  predicate WillDrain(s: State) {
    PastLastRound(s) ==> s.log.queue == []
  }

  /** Once stopped, no step accepts anything, and whether the queue will be drained is settled. */
  lemma StoppedStep(o: Options, s: State, a: Action)
    requires UsableBatches(o) && s.stop && Enabled(s, a) && (s.pc == Writing <==> s.log.rest != [])
    ensures var s' := Step(o, s, a);
            && s'.stop && s'.log.accepted == s.log.accepted
            && (WillDrain(s') <==> WillDrain(s))
  {
    hide Advance, Slice, Concat, Notified;
  }

  lemma {:induction false} StoppedRun(o: Options, s: State, acts: seq<Action>)
    requires UsableBatches(o) && Sound(s) && s.stop && Run(o, s, acts).Some?
    ensures var s' := Run(o, s, acts).value;
            && Sound(s') && s'.stop && s'.log.accepted == s.log.accepted
            && (WillDrain(s') <==> WillDrain(s))
    decreases |acts|
  {
    hide Enabled, Step, Shape, WillDrain;
    if acts != [] {
      var before, a := acts[..|acts| - 1], acts[|acts| - 1];
      StoppedRun(o, s, before);
      var m := Run(o, s, before).value;
      SoundStep(o, m, a);
      StoppedStep(o, m, a);
    }
  }

  /** Looking at any moment after stop was set: the writer, once it has left, has written every
      accepted payload exactly if at that moment it was not past its last round with something
      still queued. */
  lemma {:induction false} StopDrainsExactly(o: Options, file: Bytes, before: seq<Action>, after: seq<Action>)
    requires UsableBatches(o) && NoFailure(before + after)
    requires Run(o, Start(file), before).Some? && Run(o, Start(file), before).value.stop
    requires Run(o, Start(file), before + after).Some?
    requires Left(Run(o, Start(file), before + after).value)
    ensures var s := Run(o, Start(file), before).value;
            var s' := Run(o, Start(file), before + after).value;
            && s'.log.accepted == s.log.accepted
            && (WillDrain(s) ==> s'.log.file == file + Concat(s.log.accepted))
            && (AllNonEmpty(s.log.accepted) ==>
                  (s'.log.file == file + Concat(s.log.accepted) <==> WillDrain(s)))
  {
    hide Run, AllNonEmpty, Concat, Pressure, Offsets, Durable;
    var s := Run(o, Start(file), before).value;
    var s' := Run(o, Start(file), before + after).value;
    RunLoses(o, file, before);
    RunAppend(o, Start(file), before, after);
    StoppedRun(o, s, after);
    RunKeepsInv(o, file, before + after);
    RunInitial(o, file, before + after);
    DrainedBytes(s'.log);
  }

  // ---------- progress ----------

  /** An upper bound on the steps a stopped writer still takes, interruptions not counted. */
  function Work(s: State): nat {
    var top := 3 + |Concat(s.log.queue)| + 5 * |s.log.queue|;
    match s.pc
    case AtTop => top
    case Asleep => top
    case Idle(_) => 2
    case Writing => |Concat(s.log.rest)| + 4 + top
    case Storing => 4 + top
    case Syncing => 3 + top
    case StopTest => 2 + top
    case LockedTest => 1 + top
    case Leaving(_) => 1
    case Gone(_) => 0
  }

  lemma StopLeavesWork(s: State)
    ensures Work(s.(stop := true)) == Work(s) && WillDrain(s.(stop := true)) == WillDrain(s)
  {
  }

  predicate Working(a: Action) {
    FromWriter(a) && a != Interrupted
  }

  /** Each of its steps brings a stopped writer closer to its end; nobody else sets it back. */
  lemma {:induction false} WorkStep(o: Options, s: State, a: Action)
    requires UsableBatches(o) && Sound(s) && s.stop && AllNonEmpty(s.log.accepted) && Enabled(s, a)
    ensures Working(a) ==> Work(Step(o, s, a)) < Work(s)
    ensures !Working(a) ==> Work(Step(o, s, a)) == Work(s)
  {
    hide Advance, Slice, Concat, Notified, AllNonEmpty, TakenCount, BatchSize, Round;
    match a
    case Lock => RoundWork(o, s);
    case Wake => RoundWork(o, s);
    case Writev(n) =>
      SliceConcat(s.log.rest);
      AdvanceConcat(s.log.rest, n);
    case WritevFailed => SliceConcat(s.log.rest);
    case _ =>
  }

  lemma RoundWork(o: Options, s: State)
    requires UsableBatches(o) && s.log.rest == []
    ensures Work(Round(o, s)) < 3 + |Concat(s.log.queue)| + 5 * |s.log.queue|
  {
    hide Concat, Notified;
    var k := BatchSize(o, s.log.queue, 0, 0);
    ConcatSplit(s.log.queue, k);
    assert s.log.queue != [] ==> k > 0;
  }

  function WorkingSteps(acts: seq<Action>): nat {
    if acts == [] then 0
    else WorkingSteps(acts[..|acts| - 1]) + if Working(acts[|acts| - 1]) then 1 else 0
  }

  lemma WorkingSnoc(acts: seq<Action>, a: Action)
    ensures WorkingSteps(acts + [a]) == WorkingSteps(acts) + if Working(a) then 1 else 0
  {
    hide Working;
    assert (acts + [a])[..|acts|] == acts;
  }

  lemma {:induction false} WorkingAppend(a: seq<Action>, b: seq<Action>)
    ensures WorkingSteps(a + b) == WorkingSteps(a) + WorkingSteps(b)
    decreases |b|
  {
    hide Working;
    if b == [] {
      assert a + b == a;
    } else {
      WorkingAppend(a, b[..|b| - 1]);
      assert (a + b)[..|a + b| - 1] == a + b[..|b| - 1];
    }
  }

  /** In every interleaving, a stopped writer takes no more than Work steps, and as many make it
      leave. */
  lemma {:induction false} StoppedWriterLeaves(o: Options, s: State, acts: seq<Action>)
    requires UsableBatches(o) && Sound(s) && s.stop && AllNonEmpty(s.log.accepted)
    requires Run(o, s, acts).Some?
    ensures WorkingSteps(acts) + Work(Run(o, s, acts).value) <= Work(s)
    ensures WorkingSteps(acts) >= Work(s) ==> Run(o, s, acts).value.pc.Gone?
    decreases |acts|
  {
    hide Enabled, Step, Sound, AllNonEmpty, Working;
    if acts != [] {
      var before, a := acts[..|acts| - 1], acts[|acts| - 1];
      StoppedWriterLeaves(o, s, before);
      StoppedRun(o, s, before);
      WorkStep(o, Run(o, s, before).value, a);
    }
  }

  /** Until it is gone, the writer always has such a step to take. */
  lemma WriterCanWork(s: State)
    requires Sound(s)
    ensures !s.pc.Gone? ==> exists a :: Working(a) && Enabled(s, a)
  {
    hide Shape, Concat, Slice;
    var a := match s.pc
      case AtTop => Lock
      case Asleep => Wake
      case Idle(_) => IdleTest(false)
      case Writing => Writev(|Concat(Slice(s.log.rest))|)
      case Storing => StoreOffset
      case Syncing => Fsync(false)
      case StopTest => TestStop
      case LockedTest => TestQueue
      case Leaving(_) => FinalFsync
      case Gone(_) => Interrupted;
    assert !s.pc.Gone? ==> Working(a) && Enabled(s, a);
  }

  // ---------- what a thread that has left leaves behind ----------

  /** By the locked test everything accepted is in the file; by the unlocked one exactly what was
      accepted before the last unlock. Either way it is synced if the mode asks for that. */
  ghost predicate LeftInOrder(o: Options, s: State) {
    && s.pc.Gone?
    && (o.durability > 0 ==> s.synced == |s.log.file|)
    && var drained := s.log.file == s.log.initial + Concat(s.log.accepted);
       match s.pc.exit
       case ByLockedTest => drained
       case ByIdleTest(seen) =>
         && (|s.log.accepted| == seen ==> drained)
         && (AllNonEmpty(s.log.accepted) ==> (drained <==> |s.log.accepted| == seen))
  }

  lemma {:induction false} GoneLeftInOrder(o: Options, file: Bytes, acts: seq<Action>)
    requires UsableBatches(o) && Run(o, Start(file), acts).Some? && NoFailure(acts)
    requires Run(o, Start(file), acts).value.pc.Gone?
    ensures LeftInOrder(o, Run(o, Start(file), acts).value)
  {
    hide Run, Concat, AllNonEmpty;
    LockedExitDrains(o, file, acts);
    IdleExitDrainsExactly(o, file, acts);
    RunInitial(o, file, acts);
  }

  /** Everything about a run `all` that goes on from a stopped state after `before`. */
  lemma {:induction false} AfterStop(o: Options, file: Bytes, before: seq<Action>, all: seq<Action>)
    requires UsableBatches(o) && before <= all
    requires Run(o, Start(file), before).Some? && Run(o, Start(file), before).value.stop
    requires Run(o, Start(file), all).Some?
    ensures var s := Run(o, Start(file), before).value;
            var s' := Run(o, Start(file), all).value;
            && s'.stop && s'.log.accepted == s.log.accepted
            && (AllNonEmpty(s.log.accepted) && WorkingSteps(all) >= WorkingSteps(before) + Work(s) ==>
                  s'.pc.Gone?)
            && (NoFailure(all) && Left(s') ==>
                  && (WillDrain(s) ==> s'.log.file == file + Concat(s.log.accepted))
                  && (AllNonEmpty(s.log.accepted) ==>
                        (s'.log.file == file + Concat(s.log.accepted) <==> WillDrain(s))))
  {
    hide Run, Concat, AllNonEmpty, Work, WorkingSteps, WillDrain, Sound, Pressure, Lost;
    var after := all[|before|..];
    assert all == before + after;
    var s := Run(o, Start(file), before).value;
    RunLoses(o, file, before);
    RunAppend(o, Start(file), before, after);
    StoppedRun(o, s, after);
    WorkingAppend(before, after);
    if AllNonEmpty(s.log.accepted) { StoppedWriterLeaves(o, s, after); }
    if NoFailure(all) && Left(Run(o, Start(file), all).value) {
      StopDrainsExactly(o, file, before, after);
    }
  }
}
