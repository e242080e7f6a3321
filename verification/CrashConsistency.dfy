/** Database operations, the log writer and a crash, put together: whatever prefix of the log file a
    crash leaves, recovery rebuilds the store as it was after some prefix of the run. */
module CrashConsistency {
  import opened ByteStrings
  import opened Resp
  import opened Recovery
  import opened Store
  import opened StoreLaws
  import opened Writer
  import opened WriterLaws
  import opened Durability

  /** The writer's state, the live store, the clock, the commands logged so far, and whether some
      operation went unlogged. */
  datatype System = System(w: State, db: Db, now: nat, log: seq<Command>, unlogged: bool)

  function Fresh(): System {
    System(Start([]), map[], 0, [], false)
  }

  /** One database operation, atomic, at a given time; a logged one names the appender step that
      accepts its command (an async append, a blocking append, or a woken appender). Once stop is
      set both appends are refused, and put, remove and expire go on to write the store unlogged.
      Everything else is a thread step that accepts nothing. */
  datatype Event =
    | Quiet(op: Op, at: nat)
    | Logged(op: Op, at: nat, via: Action)
    | Unlogged(op: Op, at: nat)
    | Thread(a: Action)

  predicate Possible(o: Options, s: System, e: Event) {
    match e
    case Quiet(op, at) => s.now <= at && OpLog(s.db, op, at) == []
    case Logged(op, at, via) =>
      && s.now <= at
      && |OpLog(s.db, op, at)| == 1
      && Storable(OpLog(s.db, op, at)[0])
      && Enabled(s.w, via)
      && Step(o, s.w, via).log.accepted == s.w.log.accepted + [Serialize(OpLog(s.db, op, at)[0])]
    case Unlogged(op, at) => s.now <= at && s.w.stop && |OpLog(s.db, op, at)| == 1
    case Thread(a) => Enabled(s.w, a) && Step(o, s.w, a).log.accepted == s.w.log.accepted
  }

  function Next(o: Options, s: System, e: Event): System
    requires Possible(o, s, e)
  {
    match e
    case Quiet(op, at) => s.(db := OpDb(s.db, op, at), now := at)
    case Logged(op, at, via) =>
      s.(w := Step(o, s.w, via), db := OpDb(s.db, op, at), now := at, log := s.log + OpLog(s.db, op, at))
    case Unlogged(op, at) => s.(db := OpDb(s.db, op, at), now := at, unlogged := true)
    case Thread(a) => s.(w := Step(o, s.w, a))
  }

  function History(o: Options, events: seq<Event>): Option<System> {
    if events == [] then Some(Fresh())
    else
      match History(o, events[..|events| - 1])
      case None => None
      case Some(m) =>
        var e := events[|events| - 1];
        if Possible(o, m, e) then Some(Next(o, m, e)) else None
  }

  predicate NoHardFailure(events: seq<Event>) {
    Thread(WritevFailed) !in events
  }

  // ---------- the invariant ----------

  /** Replaying the log agrees with the live store. */
  ghost predicate Agrees(s: System) {
    Follows(s.db, Replay(map[], s.log), s.now)
  }

  ghost predicate Consistent(o: Options, s: System) {
    && Inv(o, s.w)
    && s.w.log.initial == []
    && s.w.log.accepted == Frames(s.log)
    && AllStorable(s.log)
    && (s.unlogged ==> s.w.stop)
    && (!s.unlogged ==> Agrees(s))
  }

  lemma {:induction false} ConsistentNext(o: Options, s: System, e: Event)
    requires Consistent(o, s) && Possible(o, s, e) && e != Thread(WritevFailed)
    ensures Consistent(o, Next(o, s, e)) && s.log <= Next(o, s, e).log
    ensures |Next(o, s, e).log| <= |s.log| + 1
    ensures Next(o, s, e).unlogged ==> Next(o, s, e).log == s.log
  {
    hide Step, Enabled, Inv, Follows, Frames, Replay, OpLog, OpDb, AllStorable, Storable, Serialize;
    match e
    case Quiet(op, at) =>
      if !s.unlogged {
        FollowsStep(s.db, Replay(map[], s.log), s.now, op, at);
        ReplayAppend(map[], s.log, []);
        assert s.log + [] == s.log;
      }
    case Unlogged(_, _) =>
    case Thread(a) =>
      InvStep(o, s.w, a);
      StopStays(o, s.w, a);
      GrowsInitial(s.w.log, Step(o, s.w, a).log);
    case Logged(op, at, via) =>
      var cmds := OpLog(s.db, op, at);
      StopStays(o, s.w, via);
      InvStep(o, s.w, via);
      GrowsInitial(s.w.log, Step(o, s.w, via).log);
      FollowsStep(s.db, Replay(map[], s.log), s.now, op, at);
      ReplayAppend(map[], s.log, cmds);
      LogOneMore(s.log, cmds);
  }

  lemma GrowsInitial(l: Log, l': Log)
    requires Grows(l, l')
    ensures l'.initial == l.initial
  {
  }

  lemma LogOneMore(log: seq<Command>, cmds: seq<Command>)
    requires AllStorable(log) && |cmds| == 1 && Storable(cmds[0])
    ensures AllStorable(log + cmds)
    ensures Frames(log + cmds) == Frames(log) + [Serialize(cmds[0])]
  {
    hide Storable, Serialize;
  }

  lemma {:induction false} HistoryConsistent(o: Options, events: seq<Event>)
    requires History(o, events).Some? && NoHardFailure(events)
    ensures Consistent(o, History(o, events).value)
    decreases |events|
  {
    hide Possible, Next, Consistent;
    if events == [] {
      FreshConsistent(o);
    } else {
      var before, e := events[..|events| - 1], events[|events| - 1];
      assert e in events;
      HistoryConsistent(o, before);
      ConsistentNext(o, History(o, before).value, e);
    }
  }

  lemma FreshConsistent(o: Options)
    ensures Consistent(o, Fresh())
  {
    hide Exits;
    StartInv(o, []);
  }

  /** For every earlier log length there is a moment of the run at which the log was that prefix and
      no operation had gone unlogged yet. */
  lemma {:induction false} MomentOf(o: Options, events: seq<Event>, k: nat) returns (j: nat)
    requires History(o, events).Some? && NoHardFailure(events)
    requires k <= |History(o, events).value.log|
    ensures j <= |events| && History(o, events[..j]).Some? && NoHardFailure(events[..j])
    ensures History(o, events[..j]).value.log == History(o, events).value.log[..k]
    ensures !History(o, events[..j]).value.unlogged
    decreases |events|
  {
    hide Possible, Next, Consistent;
    var s := History(o, events).value;
    if events == [] {
      j := 0;
      assert s.log[..k] == [];
    } else if k == |s.log| && !s.unlogged {
      j := |events|;
      assert events[..j] == events && s.log[..k] == s.log;
    } else {
      var before, e := events[..|events| - 1], events[|events| - 1];
      assert e in events;
      var m := History(o, before).value;
      HistoryConsistent(o, before);
      ConsistentNext(o, m, e);
      j := MomentOf(o, before, k);
      assert before[..j] == events[..j];
      assert m.log[..k] == s.log[..k];
    }
  }

  // ---------- the store of a run ----------

  /** The database operations of a run, with their times. */
  function Ops(events: seq<Event>): seq<Timed> {
    if events == [] then []
    else
      Ops(events[..|events| - 1]) + match events[|events| - 1]
                                    case Quiet(op, at) => [Timed(op, at)]
                                    case Logged(op, at, _) => [Timed(op, at)]
                                    case Unlogged(op, at) => [Timed(op, at)]
                                    case Thread(_) => []
  }

  lemma RunMore(db: Db, run: seq<Timed>, t: Timed)
    ensures RunDb(db, run + [t]) == OpDb(RunDb(db, run), t.op, t.now)
    ensures RunLog(db, run + [t]) == RunLog(db, run) + OpLog(RunDb(db, run), t.op, t.now)
  {
    hide OpDb, OpLog;
    assert (run + [t])[..|run|] == run;
  }

  /** Threads, batches and stop leave the store alone: it is what its operations make of it, and the
      log is theirs as long as all were logged. */
  lemma {:induction false} StoreOfRun(o: Options, events: seq<Event>)
    requires History(o, events).Some?
    ensures var s := History(o, events).value;
            && s.db == RunDb(map[], Ops(events))
            && (!s.unlogged ==> s.log == RunLog(map[], Ops(events)))
    decreases |events|
  {
    hide OpDb, OpLog, Step, Enabled, Serialize, Storable, RunDb, RunLog;
    if events == [] {
      NoOperations();
    } else {
      var before, e := events[..|events| - 1], events[|events| - 1];
      StoreOfRun(o, before);
      var m := History(o, before).value;
      match e
      case Thread(_) => assert Ops(events) == Ops(before) + [] == Ops(before);
      case Quiet(op, at) => RunMore(map[], Ops(before), Timed(op, at)); assert m.log + [] == m.log;
      case Logged(op, at, _) => RunMore(map[], Ops(before), Timed(op, at));
      case Unlogged(op, at) => RunMore(map[], Ops(before), Timed(op, at));
    }
  }

  lemma NoOperations()
    ensures RunDb(map[], []) == map[] && RunLog(map[], []) == []
  {
  }

  // ---------- the theorem ----------

  /** Recovery gave the commands of the run's first j events, and a store that answers like the
      live store of that moment from then on. */
  ghost predicate RecoversMoment(o: Options, events: seq<Event>, j: nat, cmds: seq<Command>) {
    && j <= |events|
    && History(o, events[..j]).Some?
    && var past := History(o, events[..j]).value;
       && cmds == past.log
       && forall key, t :: past.now <= t ==>
            && GetAnswer(Replay(map[], cmds), key, [], t) == GetAnswer(past.db, key, [], t)
            && TtlAnswer(Replay(map[], cmds), key, t) == TtlAnswer(past.db, key, t)
  }

  lemma FileIsLogPrefix(o: Options, s: System)
    requires Consistent(o, s)
    ensures s.w.log.file <= LogBytes(s.log)
    ensures s.w.publishedCount <= |s.log|
    ensures s.w.published == |LogBytes(s.log[..s.w.publishedCount])|
  {
    hide Frames, AllStorable, Follows, Pressure, Replay, ReaderOk, AllNonEmpty;
    var l := s.w.log;
    ConcatSplit(l.accepted, TakenCount(l));
    assert l.file + Concat(l.rest) == Concat(Taken(l));
    LogBytesSplit(s.log, s.w.publishedCount);
  }

  lemma LogBytesMonotone(log: seq<Command>, a: nat, b: nat)
    requires a <= b <= |log|
    ensures |LogBytes(log[..a])| <= |LogBytes(log[..b])|
  {
    hide LogBytes;
    LogBytesSplit(log[..b], a);
    assert log[..b][..a] == log[..a];
  }

  /** What recovery makes of the file's first n bytes. */
  lemma RecoveredCommands(o: Options, s: System, n: nat)
    requires Consistent(o, s) && n <= |s.w.log.file|
    ensures var out := Greedy(s.w.log.file[..n]);
            var k := Fitting(s.log, n);
            && !out.raised && out.commands == s.log[..k]
            && (s.w.published <= n <==> k >= s.w.publishedCount)
  {
    hide Consistent, Greedy, Concat, LogBytes, Fitting;
    FileIsLogPrefix(o, s);
    assert s.w.log.file[..n] == LogBytes(s.log)[..n];
    assert AllStorable(s.log) by { ConsistentParts(o, s); }
    TornTail(s.log, n);
    var k := Fitting(s.log, n);
    FittingIsLongest(s.log, n);
    if k < s.w.publishedCount {
      LogBytesMonotone(s.log, k + 1, s.w.publishedCount);
    } else {
      LogBytesMonotone(s.log, s.w.publishedCount, k);
    }
  }

  /** For every run of database operations, logged or not, and writer steps without a hard write
      failure, every byte prefix of the file a crash may leave and every way the reads cut it:
      recovery raises nothing, rebuilds the store of a moment of the run, and covers what the
      published offset covered exactly if those bytes survived. */
  lemma {:induction false} CrashPrefixConsistency(o: Options, events: seq<Event>, n: nat, pieces: seq<Bytes>)
    requires History(o, events).Some? && NoHardFailure(events)
    requires n <= |History(o, events).value.w.log.file|
    requires Concat(pieces) == History(o, events).value.w.log.file[..n]
    ensures var s := History(o, events).value;
            var out := Greedy(Concat(pieces));
            && !out.raised
            && (exists j :: RecoversMoment(o, events, j, out.commands))
            && (s.w.published <= n <==> |out.commands| >= s.w.publishedCount)
  {
    hide Consistent, History, Greedy, GetAnswer, TtlAnswer, Concat, Fitting;
    var s := History(o, events).value;
    HistoryConsistent(o, events);
    RecoveredCommands(o, s, n);
    var j := MomentOf(o, events, Fitting(s.log, n));
    MomentAnswers(o, events, j);
  }

  // ---------- what a crash does to published commands ----------

  /** Whatever prefix a crash leaves that holds all synced bytes, it holds all published commands. */
  ghost predicate PublishedSurvives(s: State) {
    forall n :: s.synced <= n <= |s.log.file| ==>
      |Greedy(s.log.file[..n]).commands| >= s.publishedCount
  }

  /** In every mode this is so exactly when the published offset is synced. */
  lemma {:induction false} PublishedSurvivesExactly(o: Options, events: seq<Event>)
    requires History(o, events).Some? && NoHardFailure(events)
    ensures var s := History(o, events).value.w;
            PublishedSurvives(s) <==> s.published <= s.synced
  {
    hide Consistent, History, Greedy, Fitting;
    var s := History(o, events).value;
    HistoryConsistent(o, events);
    assert s.w.synced <= |s.w.log.file| by { ConsistentParts(o, s); }
    if s.w.published <= s.w.synced {
      forall n | s.w.synced <= n <= |s.w.log.file|
        ensures |Greedy(s.w.log.file[..n]).commands| >= s.w.publishedCount
      {
        RecoveredCommands(o, s, n);
      }
    } else {
      var n := s.w.synced;
      RecoveredCommands(o, s, n);
      assert |Greedy(s.w.log.file[..n]).commands| < s.w.publishedCount;
    }
  }

  /** With an fsync per batch: exactly outside the window between publishing and syncing. */
  lemma {:induction false} DurableModeExactly(o: Options, events: seq<Event>)
    requires History(o, events).Some? && NoHardFailure(events) && o.durability == 1
    ensures var s := History(o, events).value.w;
            PublishedSurvives(s) <==> (s.pc != Syncing || s.publishedCount == 0)
  {
    hide History, Greedy, Run, Consistent, PublishedSurvives, LogBytes;
    var s := History(o, events).value;
    PublishedSurvivesExactly(o, events);
    HistoryConsistent(o, events);
    FileIsLogPrefix(o, s);
    HistoryRuns(o, events);
    assert AllNonEmpty(s.w.log.accepted) by { ConsistentParts(o, s); FramesNonEmpty(s.log); }
    PublishedOnDiskExactly(o, [], Acts(events));
    assert s.w.publishedCount == 0 ==> s.w.published == 0 by {
      assert s.log[..0] == [];
      LogBytesOfNothing();
    }
  }

  lemma FramesNonEmpty(cmds: seq<Command>)
    ensures AllNonEmpty(Frames(cmds))
  {
  }

  /** The writer's part of a run. */
  function Acts(events: seq<Event>): seq<Action> {
    if events == [] then []
    else
      Acts(events[..|events| - 1]) + match events[|events| - 1]
                                     case Logged(_, _, via) => [via]
                                     case Thread(a) => [a]
                                     case _ => []
  }

  lemma {:induction false} HistoryRuns(o: Options, events: seq<Event>)
    requires History(o, events).Some? && NoHardFailure(events)
    ensures Run(o, Start([]), Acts(events)) == Some(History(o, events).value.w) && NoFailure(Acts(events))
    decreases |events|
  {
    hide Step, Enabled, Run, OpLog, OpDb, Serialize, Storable;
    if events == [] {
      RunOfNothing(o, Start([]));
    } else {
      var before, e := events[..|events| - 1], events[|events| - 1];
      assert e in events;
      HistoryRuns(o, before);
      var m := History(o, before).value;
      match e
      case Logged(_, _, via) =>
        StopStays(o, m.w, via);
        RunSnoc(o, Start([]), Acts(before), via);
      case Thread(a) => RunSnoc(o, Start([]), Acts(before), a);
      case _ => assert Acts(events) == Acts(before) + [] == Acts(before);
    }
  }

  lemma {:induction false} ActsAt(events: seq<Event>, k: nat, a: Action)
    requires k < |events| && events[k] == Thread(a)
    ensures var n := |Acts(events[..k])|;
            n < |Acts(events)| && Acts(events)[..n] == Acts(events[..k]) && Acts(events)[n] == a
    decreases |events|
  {
    if k < |events| - 1 {
      ActsAt(events[..|events| - 1], k, a);
      assert events[..|events| - 1][..k] == events[..k];
    }
  }

  lemma {:induction false} EarlierHistory(o: Options, events: seq<Event>, k: nat)
    requires History(o, events).Some? && NoHardFailure(events) && k <= |events|
    ensures History(o, events[..k]).Some? && NoHardFailure(events[..k])
    ensures History(o, events[..k]).value.log <= History(o, events).value.log
    decreases |events|
  {
    hide Possible, Next, Consistent;
    if k == |events| {
      assert events[..k] == events;
    } else {
      var before, e := events[..|events| - 1], events[|events| - 1];
      assert e in events;
      EarlierHistory(o, before, k);
      assert before[..k] == events[..k];
      HistoryConsistent(o, before);
      ConsistentNext(o, History(o, before).value, e);
    }
  }

  /** In every mode: whatever prefix a crash leaves that holds the synced bytes, it holds every
      command that was in the file at the last fsync, so everything published by then. In mode 2
      that is every due fsync. */
  lemma {:induction false} SyncedCommandsSurvive(o: Options, events: seq<Event>, k: nat, a: Action, n: nat)
    requires History(o, events).Some? && NoHardFailure(events)
    requires k < |events| && events[k] == Thread(a) && History(o, events[..k]).Some?
    requires Syncs(o, History(o, events[..k]).value.w, a)
    requires History(o, events).value.w.synced <= n <= |History(o, events).value.w.log.file|
    ensures var s := History(o, events).value;
            var past := History(o, events[..k]).value;
            var out := Greedy(s.w.log.file[..n]);
            && past.log <= s.log
            && |out.commands| >= past.w.publishedCount
            && past.w.publishedCount <= |past.log|
            && past.log[..past.w.publishedCount] <= out.commands
  {
    hide Consistent, History, Greedy, Fitting, Run, Syncs, LogBytes;
    var s, past := History(o, events).value, History(o, events[..k]).value;
    EarlierHistory(o, events, k);
    HistoryConsistent(o, events);
    HistoryConsistent(o, events[..k]);
    HistoryRuns(o, events);
    HistoryRuns(o, events[..k]);
    ActsAt(events, k, a);
    SyncCovers(o, [], Acts(events), |Acts(events[..k])|);
    FileIsLogPrefix(o, past);
    RecoveredCommands(o, s, n);
    PublishedInFile(o, past);
    var c := past.w.publishedCount;
    assert past.log[..c] == s.log[..c];
    FitsInPrefix(s.log, c, n);
  }

  lemma PublishedInFile(o: Options, s: System)
    requires Consistent(o, s)
    ensures s.w.published <= |s.w.log.file|
  {
  }

  lemma FitsInPrefix(log: seq<Command>, c: nat, n: nat)
    requires c <= |log| && |LogBytes(log[..c])| <= n
    ensures c <= Fitting(log, n)
  {
    hide LogBytes, Fitting;
    FittingIsLongest(log, n);
    if Fitting(log, n) < c {
      LogBytesMonotone(log, Fitting(log, n) + 1, c);
    }
  }

  // ---------- logging and stop ----------

  /** Until stop is set, every run keeps log and store in agreement. */
  lemma {:induction false} AgreesUntilStop(o: Options, events: seq<Event>)
    requires History(o, events).Some? && NoHardFailure(events)
    ensures !History(o, events).value.w.stop ==> Agrees(History(o, events).value)
  {
    hide History;
    HistoryConsistent(o, events);
  }

  /** From an agreeing state of any run, every next event keeps the agreement exactly while stop is
      not set: after that, some put, possible at once, breaks it. */
  lemma {:induction false} AgreementSafeExactly(o: Options, events: seq<Event>)
    requires History(o, events).Some? && NoHardFailure(events)
    requires !History(o, events).value.unlogged
    ensures var s := History(o, events).value;
            (forall e :: Possible(o, s, e) && e != Thread(WritevFailed) ==> Agrees(Next(o, s, e)))
            <==> !s.w.stop
  {
    hide History, Consistent, Replay;
    var s := History(o, events).value;
    HistoryConsistent(o, events);
    if s.w.stop {
      var replay := Replay(map[], s.log);
      var value: Bytes := if [] in replay && replay[[]] == NO_DEADLINE then [0] else [];
      var e := Unlogged(Put([], value), s.now);
      assert Possible(o, s, e);
      var s' := Next(o, s, e);
      assert [] in s'.db && s'.db[[]] == value + NO_DEADLINE;
      assert [] + NO_DEADLINE == NO_DEADLINE && |[0 as byte] + NO_DEADLINE| != |NO_DEADLINE|;
      assert !Agrees(s');
    } else {
      forall e | Possible(o, s, e) && e != Thread(WritevFailed)
        ensures Agrees(Next(o, s, e))
      {
        ConsistentNext(o, s, e);
        assert !Next(o, s, e).unlogged by { NotYetUnlogged(o, s, e); }
        ConsistentParts(o, Next(o, s, e));
      }
    }
  }

  lemma NotYetUnlogged(o: Options, s: System, e: Event)
    requires Possible(o, s, e) && !s.unlogged && !s.w.stop
    ensures !Next(o, s, e).unlogged
  {
    hide Step, Enabled;
  }

  lemma ConsistentParts(o: Options, s: System)
    requires Consistent(o, s)
    ensures AllStorable(s.log) && s.w.log.accepted == Frames(s.log)
    ensures s.w.synced <= |s.w.log.file|
    ensures !s.unlogged ==> Agrees(s)
  {
  }

  lemma MomentAnswers(o: Options, events: seq<Event>, j: nat)
    requires j <= |events| && History(o, events[..j]).Some? && NoHardFailure(events[..j])
    requires !History(o, events[..j]).value.unlogged
    ensures RecoversMoment(o, events, j, History(o, events[..j]).value.log)
  {
    hide History, Consistent, GetAnswer, TtlAnswer, Replay, Follows;
    HistoryConsistent(o, events[..j]);
    var past := History(o, events[..j]).value;
    ConsistentParts(o, past);
    forall key, t | past.now <= t
      ensures GetAnswer(Replay(map[], past.log), key, [], t) == GetAnswer(past.db, key, [], t)
      ensures TtlAnswer(Replay(map[], past.log), key, t) == TtlAnswer(past.db, key, t)
    {
      FollowsAnswers(past.db, Replay(map[], past.log), past.now, key, t);
    }
  }

  /** Recovery with the SET/DEL dispatch as its executor. */
  method RecoverStore(pass: FilePass, truncate: bool) returns (ok: bool, db: Db, raised: bool)
    ensures raised == Greedy(Delivered(pass)).raised
    ensures ok ==> !raised
    ensures pass.Read? && !pass.failed && !truncate ==> ok == !raised
    ensures db == Replay(map[], Greedy(Delivered(pass)).commands)
  {
    hide Greedy, Execute;
    var cmds, offset;
    ok, cmds, offset, raised := RecoverFromAof(pass, truncate);
    db := map[];
    var i := 0;
    assert cmds[..0] == [];
    while i < |cmds|
      invariant 0 <= i <= |cmds|
      invariant db == Replay(map[], cmds[..i])
    {
      assert cmds[..i + 1][..i] == cmds[..i];
      db := Execute(db, cmds[i]);
      i := i + 1;
    }
    assert cmds[..i] == cmds;
  }
}
