/** Progress of a running writer: every accepted payload reaches the file within a bounded number
    of the writer's steps, whatever appenders and listeners do meanwhile. */
module Progress {
  import opened ByteStrings
  import opened Writer
  import opened WriterLaws
  import opened Shutdown

  /** Bytes the file lacks up to and including payload i. */
  function Missing(l: Log, i: nat): nat
    requires i < |l.accepted|
  {
    if |l.file| < Boundary(l, i + 1) then Boundary(l, i + 1) - |l.file| else 0
  }

  /** Payloads up to and including i that are still queued. */
  function Ahead(l: Log, i: nat): nat {
    if TakenCount(l) < i + 1 then i + 1 - TakenCount(l) else 0
  }

  /** Steps from the writer's place to its next round, that round included. */
  function ToRound(pc: Pc): nat {
    match pc
    case AtTop => 1
    case Asleep => 1
    case Idle(_) => 2
    case Syncing => 3
    case StopTest => 2
    case _ => 4
  }

  /** An upper bound on the writer's steps until payload i is in the file. */
  function Owed(s: State, i: nat): nat
    requires i < |s.log.accepted|
  {
    var ahead := Ahead(s.log, i);
    Missing(s.log, i) + if ahead == 0 then 0 else 4 * ahead + ToRound(s.pc)
  }

  /** A payload that left the queue is missing bytes only while they are in the batch; one still
      queued has not begun to be written. */
  lemma MissingBytes(l: Log, i: nat)
    requires Shape(l) && InOrder(l) && i < |l.accepted|
    ensures Ahead(l, i) == 0 ==> Missing(l, i) <= |Concat(l.rest)|
    ensures Ahead(l, i) > 0 ==> |l.file| + |Concat(l.rest)| <= Boundary(l, i + 1)
  {
    hide Concat, AllNonEmpty;
    var t := TakenCount(l);
    assert |l.file| + |Concat(l.rest)| == |l.initial| + |Concat(l.accepted[..t])|;
    if i + 1 <= t {
      ConcatSplit(l.accepted[..t], i + 1);
      assert l.accepted[..t][..i + 1] == l.accepted[..i + 1];
    } else {
      ConcatSplit(l.accepted[..i + 1], t);
      assert l.accepted[..i + 1][..t] == l.accepted[..t];
    }
  }

  lemma RoundOwes(o: Options, s: State, i: nat)
    requires UsableBatches(o) && Shape(s.log) && s.log.rest == [] && i < |s.log.accepted|
    ensures Ahead(s.log, i) > 0 ==> Owed(Round(o, s), i) <= Missing(s.log, i) + 4 * Ahead(s.log, i)
    ensures Ahead(s.log, i) == 0 ==> Owed(Round(o, s), i) == Missing(s.log, i)
  {
    hide Concat, Notified, AllNonEmpty;
    assert s.log.queue != [] ==> BatchSize(o, s.log.queue, 0, 0) > 0;
  }

  lemma WritevOwes(o: Options, s: State, n: nat, i: nat)
    requires Sound(s) && InOrder(s.log) && AllNonEmpty(s.log.accepted) && i < |s.log.accepted|
    requires Enabled(s, Writev(n)) && Owed(s, i) > 0
    ensures Owed(Step(o, s, Writev(n)), i) < Owed(s, i)
  {
    hide Concat, Advance, Slice, AllNonEmpty;
    SliceConcat(s.log.rest);
    MissingBytes(s.log, i);
  }

  /** Each step of a running writer lowers the bound; no step of any thread raises it. */
  lemma {:induction false} OwedStep(o: Options, s: State, a: Action, i: nat)
    requires UsableBatches(o) && Sound(s) && InOrder(s.log) && Exits(o, s)
    requires AllNonEmpty(s.log.accepted) && i < |s.log.accepted|
    requires Enabled(s, a) && a != WritevFailed && !Step(o, s, a).stop
    ensures i < |Step(o, s, a).log.accepted|
    ensures Owed(Step(o, s, a), i) <= Owed(s, i)
    ensures Working(a) && Owed(s, i) > 0 ==> Owed(Step(o, s, a), i) < Owed(s, i)
  {
    hide Concat, Advance, Slice, AllNonEmpty, BatchSize, Notified, Round, Boundary, Accept, WriteSome, Shape;
    GrowsStep(o, s, a);
    BoundaryStays(s.log, Step(o, s, a).log, i + 1);
    if !FromWriter(a) {
      OthersOwe(o, s, a, i);
    } else {
      MissingBytes(s.log, i);
      ConcatNothing();
      match a
      case Lock => RoundOwes(o, s, i); NothingToTake(s.log, i);
      case Wake => RoundOwes(o, s, i);
      case Writev(n) => if Owed(s, i) > 0 { WritevOwes(o, s, n, i); }
      case _ =>
    }
  }

  lemma NothingToTake(l: Log, i: nat)
    requires Shape(l) && i < |l.accepted|
    ensures l.queue == [] ==> Ahead(l, i) == 0
  {
  }

  lemma OthersOwe(o: Options, s: State, a: Action, i: nat)
    requires Shape(s.log) && i < |s.log.accepted| && Enabled(s, a) && !FromWriter(a)
    requires Grows(s.log, Step(o, s, a).log)
    ensures Owed(Step(o, s, a), i) == Owed(s, i)
  {
    hide Concat, Notified, AllNonEmpty, Boundary;
    BoundaryStays(s.log, Step(o, s, a).log, i + 1);
  }

  /** In every interleaving, the writer's steps and the bound that is left add up to no more than
      the bound at the start. */
  lemma {:induction false} OwedRun(o: Options, s: State, acts: seq<Action>, i: nat)
    requires UsableBatches(o) && Inv(o, s) && Exits(o, s) && i < |s.log.accepted|
    requires Run(o, s, acts).Some? && NoFailure(acts)
    ensures var s' := Run(o, s, acts).value;
            && Inv(o, s') && Exits(o, s') && Grows(s.log, s'.log)
            && (!s'.stop && AllNonEmpty(s'.log.accepted) ==>
                  Owed(s', i) == 0 || WorkingSteps(acts) + Owed(s', i) <= Owed(s, i))
    decreases |acts|
  {
    hide Enabled, Step, Offsets, Sound, InOrder, Pressure, Durable, Exits, AllNonEmpty, Working, Owed, TakenCount;
    if acts != [] {
      var before, a := acts[..|acts| - 1], acts[|acts| - 1];
      OwedRun(o, s, before, i);
      var m := Run(o, s, before).value;
      assert a in acts;
      InvStep(o, m, a);
      ExitsStep(o, m, a);
      StopStays(o, m, a);
      var s' := Step(o, m, a);
      if !s'.stop && AllNonEmpty(s'.log.accepted) {
        FewerNonEmpty(m.log, s'.log);
        OwedStep(o, m, a, i);
      }
    }
  }

  /** Whatever appenders and listeners do: after as many writer steps as were owed at any moment
      of a run, the payload accepted i-th stands in the file at its place, unless stop was set or
      a write failed hard. */
  lemma {:induction false} AcceptedIsWritten(
      o: Options, file: Bytes, before: seq<Action>, after: seq<Action>, i: nat)
    requires UsableBatches(o) && NoFailure(before + after)
    requires Run(o, Start(file), before).Some? && Run(o, Start(file), before + after).Some?
    requires i < |Run(o, Start(file), before).value.log.accepted|
    ensures var s := Run(o, Start(file), before).value;
            var s' := Run(o, Start(file), before + after).value;
            && s.log.accepted <= s'.log.accepted
            && (!s'.stop && AllNonEmpty(s'.log.accepted) && WorkingSteps(after) >= Owed(s, i) ==>
                  HasAt(s'.log.file, |file| + |Concat(s.log.accepted[..i])|, s.log.accepted[i]))
  {
    hide Run, WorkingSteps, Owed, AllNonEmpty, Concat, Exits, Sound, InOrder, Offsets, Pressure, Durable;
    var s := Run(o, Start(file), before).value;
    var s' := Run(o, Start(file), before + after).value;
    RunKeepsInv(o, file, before);
    RunAppend(o, Start(file), before, after);
    OwedRun(o, s, after, i);
    RunInitial(o, file, before);
    if !s'.stop && AllNonEmpty(s'.log.accepted) && WorkingSteps(after) >= Owed(s, i) {
      NothingOwed(s', i);
      assert s'.log.accepted[..i] == s.log.accepted[..i];
    }
  }

  /** The same for a run `all` that goes on from `before`, for every payload; and a writer that is
      gone was stopped. */
  lemma {:induction false} WhileRunning(o: Options, file: Bytes, before: seq<Action>, all: seq<Action>)
    requires UsableBatches(o) && before <= all && NoFailure(all)
    requires Run(o, Start(file), before).Some? && Run(o, Start(file), all).Some?
    requires AllNonEmpty(Run(o, Start(file), all).value.log.accepted)
    ensures var s := Run(o, Start(file), before).value;
            var s' := Run(o, Start(file), all).value;
            && (s'.pc.Gone? ==> s'.stop)
            && (!s'.stop ==> forall i ::
                  (0 <= i < |s.log.accepted| && WorkingSteps(all) >= WorkingSteps(before) + Owed(s, i)) ==>
                    HasAt(s'.log.file, |file| + |Concat(s.log.accepted[..i])|, s.log.accepted[i]))
  {
    hide Run, WorkingSteps, Owed, AllNonEmpty, Concat, Inv, HasAt;
    var after := all[|before|..];
    assert all == before + after;
    RunKeepsInv(o, file, all);
    WorkingAppend(before, after);
    var s, s' := Run(o, Start(file), before).value, Run(o, Start(file), all).value;
    forall i | 0 <= i < |s.log.accepted| && !s'.stop
                 && WorkingSteps(all) >= WorkingSteps(before) + Owed(s, i)
      ensures HasAt(s'.log.file, |file| + |Concat(s.log.accepted[..i])|, s.log.accepted[i])
    {
      AcceptedIsWritten(o, file, before, after, i);
    }
  }

  lemma NothingOwed(s: State, i: nat)
    requires Sound(s) && InOrder(s.log) && i < |s.log.accepted| && Owed(s, i) == 0
    ensures HasAt(s.log.file, Boundary(s.log, i), s.log.accepted[i])
  {
    hide Concat, AllNonEmpty;
    var l, t := s.log, TakenCount(s.log);
    var head := l.accepted[..i + 1];
    ConcatSplit(l.accepted[..t], i + 1);
    assert l.accepted[..t][..i + 1] == head;
    assert head == l.accepted[..i] + [l.accepted[i]];
    ConcatSnoc(l.accepted[..i], l.accepted[i]);
    var all := l.file + Concat(l.rest);
    assert all == l.initial + (Concat(l.accepted[..i]) + l.accepted[i] + Concat(l.accepted[..t][i + 1..]));
    assert HasAt(all, Boundary(l, i), l.accepted[i]);
    assert all[..|l.file|] == l.file;
  }

  /** The bound in terms of what is in memory: each byte costs at most one step, each queued
      payload four. */
  lemma OwedBound(s: State, i: nat)
    requires Sound(s) && InOrder(s.log) && i < |s.log.accepted|
    ensures Owed(s, i) <= |Concat(s.log.rest)| + |Concat(s.log.queue)| + 4 * |s.log.queue| + 4
  {
    hide Concat, AllNonEmpty;
    var l, t := s.log, TakenCount(s.log);
    MissingBytes(l, i);
    if i + 1 > t {
      ConcatSplit(l.accepted, i + 1);
      ConcatSplit(l.accepted, t);
    }
  }
}
