/** What every interleaving of appenders, writer, stop and listeners keeps. */
module WriterLaws {
  import opened ByteStrings
  import opened Writer

  predicate NoFailure(acts: seq<Action>) {
    WritevFailed !in acts
  }

  // ---------- the bytes ----------

  /** The queue is the end of what was accepted, and the batch has no empty iovec unless an empty
      payload was accepted (frames never are). */
  ghost predicate Shape(l: Log) {
    && |l.queue| <= |l.accepted|
    && l.accepted[TakenCount(l)..] == l.queue
    && (AllNonEmpty(l.accepted) ==> AllNonEmpty(l.rest))
  }

  /** Everything that left the queue is in the file or still in the batch, in order. */
  predicate InOrder(l: Log) {
    l.file + Concat(l.rest) == l.initial + Concat(Taken(l))
  }

  /** Bytes that were accepted but are in neither the file, nor the batch, nor the queue. */
  function Lost(l: Log): int {
    |l.initial| + |Concat(l.accepted)| - |l.file| - |Concat(l.rest)| - |Concat(l.queue)|
  }

  /** Initial file and accepted payloads, in order, are the file, the rest of the batch and the
      queue. */
  predicate Conserved(l: Log) {
    l.initial + Concat(l.accepted) == l.file + Concat(l.rest) + Concat(l.queue)
  }

  lemma AcceptKeeps(l: Log, p: Bytes)
    requires Shape(l)
    ensures Shape(Accept(l, p)) && Taken(Accept(l, p)) == Taken(l)
    ensures Lost(Accept(l, p)) == Lost(l) && Accept(l, p).rest == l.rest
    ensures InOrder(l) ==> InOrder(Accept(l, p))
  {
    hide Concat;
    var l' := Accept(l, p);
    assert l'.accepted[TakenCount(l)..] == l.accepted[TakenCount(l)..] + [p];
    assert Taken(l') == Taken(l);
    assert forall i :: 0 <= i < |l.accepted| ==> l.accepted[i] == l'.accepted[i];
    ConcatSnoc(l.accepted, p);
    ConcatSnoc(l.queue, p);
  }

  lemma TakeBatchKeeps(o: Options, l: Log)
    requires Shape(l) && l.rest == []
    ensures Shape(TakeBatch(o, l))
    ensures Lost(TakeBatch(o, l)) == Lost(l)
    ensures TakenCount(TakeBatch(o, l)) >= TakenCount(l)
  {
    hide Concat, BatchSize;
    ConcatNothing();
    var k := BatchSize(o, l.queue, 0, 0);
    assert l.queue[k..] == l.accepted[TakenCount(l) + k..];
    ConcatSplit(l.queue, k);
  }

  lemma TakeBatchInOrder(o: Options, l: Log)
    requires Shape(l) && l.rest == [] && InOrder(l)
    ensures InOrder(TakeBatch(o, l))
  {
    hide Concat, BatchSize, AllNonEmpty;
    ConcatNothing();
    var k := BatchSize(o, l.queue, 0, 0);
    assert l.queue[..k] == l.accepted[TakenCount(l)..TakenCount(l) + k];
    assert Taken(TakeBatch(o, l)) == Taken(l) + l.queue[..k];
    ConcatAppend(Taken(l), l.queue[..k]);
    assert l.initial + Concat(Taken(l)) + Concat(l.queue[..k])
        == l.initial + (Concat(Taken(l)) + Concat(l.queue[..k]));
  }

  lemma WriteSomeKeeps(l: Log, n: nat)
    requires Shape(l) && n <= |Concat(l.rest)|
    ensures Shape(WriteSome(l, n)) && Lost(WriteSome(l, n)) == Lost(l)
    ensures InOrder(l) ==> InOrder(WriteSome(l, n))
    ensures l.file <= WriteSome(l, n).file
  {
    hide Concat, Advance, AllNonEmpty;
    AdvanceConcat(l.rest, n);
    var l' := WriteSome(l, n);
    var w := Concat(l.rest)[..n];
    assert Taken(l') == Taken(l);
    assert l.file + w + Concat(l'.rest) == l.file + (w + Concat(l'.rest));
  }

  lemma InOrderIsConserved(l: Log)
    requires Shape(l) && InOrder(l)
    ensures Conserved(l)
  {
    hide Concat, AllNonEmpty;
    ConcatSplit(l.accepted, TakenCount(l));
    assert l.initial + (Concat(Taken(l)) + Concat(l.queue))
        == l.initial + Concat(Taken(l)) + Concat(l.queue);
  }

  // ---------- one step, failing writes included ----------

  ghost predicate Sound(s: State) {
    && Shape(s.log)
    && (s.pc == Writing <==> s.log.rest != [])
  }

  lemma {:induction false} SoundStep(o: Options, s: State, a: Action)
    requires Sound(s) && Enabled(s, a)
    ensures var s' := Step(o, s, a);
            && Sound(s')
            && Lost(s'.log) == Lost(s.log) + (if a == WritevFailed then |Concat(s.log.rest)| else 0)
            && (InOrder(s.log) && a != WritevFailed ==> InOrder(s'.log))
    ensures a == WritevFailed && AllNonEmpty(s.log.accepted) ==> |Concat(s.log.rest)| > 0
  {
    hide Shape, Lost, AllNonEmpty, InOrder, Accept, TakeBatch, WriteSome;
    match a
    case AppendAsync(p) => AcceptKeeps(s.log, p);
    case BlockEnter(_, p) => AcceptKeeps(s.log, p);
    case BlockWake(id) => AcceptKeeps(s.log, s.waiters[id].payload);
    case Lock => TakeBatchStep(o, s.log);
    case Wake => TakeBatchStep(o, s.log);
    case Writev(n) => SliceConcat(s.log.rest); WriteSomeKeeps(s.log, n);
    case WritevFailed => DropBatch(s.log);
    case _ =>
  }

  lemma TakeBatchStep(o: Options, l: Log)
    requires Shape(l) && l.rest == []
    ensures Shape(TakeBatch(o, l)) && Lost(TakeBatch(o, l)) == Lost(l)
    ensures InOrder(l) ==> InOrder(TakeBatch(o, l))
  {
    hide Shape, Lost, InOrder, TakeBatch;
    TakeBatchKeeps(o, l);
    if InOrder(l) { TakeBatchInOrder(o, l); }
  }

  lemma DropBatch(l: Log)
    requires Shape(l) && l.rest != []
    ensures Shape(l.(rest := [])) && Lost(l.(rest := [])) == Lost(l) + |Concat(l.rest)|
    ensures AllNonEmpty(l.accepted) ==> |Concat(l.rest)| > 0
  {
    SliceConcat(l.rest);
  }

  // ---------- offsets and listeners ----------

  /** The byte position after the first k accepted payloads. */
  function Boundary(l: Log, k: nat): nat
    requires k <= |l.accepted|
  {
    |l.initial| + |Concat(l.accepted[..k])|
  }

  /** Published offsets are payload boundaries inside the file, and each listener has read the
      file's bytes from such a boundary on. */
  ghost predicate Offsets(s: State) {
    && s.publishedCount <= TakenCount(s.log)
    && s.published == Boundary(s.log, s.publishedCount)
    && s.published <= |s.log.file|
    && s.synced <= |s.log.file|
    && forall id :: id in s.readers ==> ReaderOk(s.log, s.publishedCount, s.readers[id])
  }

  ghost predicate ReaderOk(l: Log, published: nat, r: Reader) {
    && r.count <= published
    && r.count <= |l.accepted|
    && r.offset == Boundary(l, r.count)
    && HasAt(l.file, r.offset, Concat(r.pieces))
  }

  /** The log only grows: boundaries stay, and so do the bytes a reader has seen. */
  ghost predicate Grows(l: Log, l': Log) {
    && l'.initial == l.initial
    && l.accepted <= l'.accepted
    && l.file <= l'.file
    && TakenCount(l) <= TakenCount(l')
  }

  lemma GrowsStep(o: Options, s: State, a: Action)
    requires Sound(s) && Enabled(s, a)
    ensures Grows(s.log, Step(o, s, a).log)
  {
    hide Shape, WriteSome, TakeBatch;
    match a
    case Lock => TakeBatchGrows(o, s.log);
    case Wake => TakeBatchGrows(o, s.log);
    case Writev(n) => SliceConcat(s.log.rest); WriteSomeGrows(s.log, n);
    case _ =>
  }

  lemma TakeBatchGrows(o: Options, l: Log)
    ensures Grows(l, TakeBatch(o, l))
  {
  }

  lemma WriteSomeGrows(l: Log, n: nat)
    requires n <= |Concat(l.rest)|
    ensures Grows(l, WriteSome(l, n))
  {
  }

  lemma BoundaryStays(l: Log, l': Log, k: nat)
    requires Grows(l, l') && k <= |l.accepted|
    ensures Boundary(l', k) == Boundary(l, k)
  {
    assert l'.accepted[..k] == l.accepted[..k];
  }

  lemma ReaderStays(l: Log, l': Log, published: nat, published': nat, r: Reader)
    requires Grows(l, l') && published <= published' && ReaderOk(l, published, r)
    ensures ReaderOk(l', published', r)
  {
    hide Concat;
    BoundaryStays(l, l', r.count);
    var end := r.offset + |Concat(r.pieces)|;
    assert l'.file[r.offset..end] == l.file[r.offset..end];
  }

  lemma {:induction false} OffsetsStep(o: Options, s: State, a: Action)
    requires Sound(s) && InOrder(s.log) && Offsets(s) && Enabled(s, a)
    ensures a != WritevFailed ==> Offsets(Step(o, s, a))
    ensures s.published <= Step(o, s, a).published
  {
    hide Shape, InOrder, Boundary, ReaderOk, Grows, Accept, WriteSome, TakeBatch, TakenCount, Concat, Notified;
    var s' := Step(o, s, a);
    GrowsStep(o, s, a);
    GrowsSizes(s.log, s'.log);
    BoundaryStays(s.log, s'.log, s.publishedCount);
    ReadersStay(s, s'.log, s'.publishedCount);
    match a
    case StoreOffset => if s.log.rest == [] { StoredBoundary(s.log); }
    case Load(id) => LoadOk(s);
    case ReadPiece(id, n) => ReadPieceOk(s.log, s.publishedCount, s.readers[id], n);
    case _ =>
  }

  lemma ReadersStay(s: State, l': Log, published': nat)
    requires Offsets(s) && Grows(s.log, l') && s.publishedCount <= published'
    ensures forall id :: id in s.readers ==> ReaderOk(l', published', s.readers[id])
  {
    hide ReaderOk, Grows, Boundary, TakenCount;
    forall id | id in s.readers
      ensures ReaderOk(l', published', s.readers[id])
    {
      ReaderStays(s.log, l', s.publishedCount, published', s.readers[id]);
    }
  }

  lemma GrowsSizes(l: Log, l': Log)
    requires Grows(l, l')
    ensures |l.file| <= |l'.file| && |l.accepted| <= |l'.accepted| && TakenCount(l) <= TakenCount(l')
  {
  }

  lemma StoredBoundary(l: Log)
    requires Shape(l) && InOrder(l) && l.rest == []
    ensures |l.file| == Boundary(l, TakenCount(l))
  {
    assert l.file + [] == l.file;
  }

  lemma LoadOk(s: State)
    requires Offsets(s)
    ensures ReaderOk(s.log, s.publishedCount, Reader(s.publishedCount, s.published, []))
  {
    assert s.log.file[s.published..s.published] == [];
  }

  lemma ReadPieceOk(l: Log, published: nat, r: Reader, n: nat)
    requires ReaderOk(l, published, r) && Position(r) + n <= |l.file|
    ensures var piece := l.file[Position(r)..Position(r) + n];
            ReaderOk(l, published, r.(pieces := r.pieces + [piece]))
  {
    hide Concat;
    var piece := l.file[Position(r)..Position(r) + n];
    ConcatSnoc(r.pieces, piece);
    assert l.file[r.offset..Position(r) + n] == l.file[r.offset..Position(r)] + piece;
  }

  // ---------- back-pressure and exits ----------

  /** The queue bound, and: a sleeping appender nobody has notified means a queue at least half
      full. */
  ghost predicate Pressure(o: Options, s: State) {
    && |s.log.queue| <= o.maxQueue
    && forall id :: id in s.waiters && !s.waiters[id].notified ==> |s.log.queue| >= o.maxQueue / 2
  }

  lemma PressureStep(o: Options, s: State, a: Action)
    requires Pressure(o, s) && Enabled(s, a)
    ensures Pressure(o, Step(o, s, a))
  {
    hide BatchSize, Advance, Slice, Concat, TakenCount;
  }

  /** What the writer's place says about the queue. */
  ghost predicate Exits(o: Options, s: State) {
    match s.pc
    case Idle(seen) => |s.log.queue| == |s.log.accepted| - seen
    case Leaving(exit) => s.stop && ExitOk(s.log, exit)
    case Gone(exit) =>
      s.stop && ExitOk(s.log, exit) && (o.durability > 0 ==> s.synced == |s.log.file|)
    case LockedTest => s.stop
    case _ => true
  }

  ghost predicate ExitOk(l: Log, exit: Exit) {
    match exit
    case ByLockedTest => l.queue == []
    case ByIdleTest(seen) => |l.queue| == |l.accepted| - seen
  }

  lemma ExitsStep(o: Options, s: State, a: Action)
    requires UsableBatches(o) && Exits(o, s) && Enabled(s, a)
    ensures Exits(o, Step(o, s, a))
  {
    hide Advance, Slice, Concat, TakenCount;
  }

  /** Stop is never reset, and a stopped log accepts nothing; nor does a failing write. */
  lemma StopStays(o: Options, s: State, a: Action)
    requires Enabled(s, a)
    ensures s.stop ==> Step(o, s, a).stop && Step(o, s, a).log.accepted == s.log.accepted
    ensures a == WritevFailed ==> Step(o, s, a).log.accepted == s.log.accepted
  {
    hide BatchSize, Advance, Slice, Concat, Notified, TakenCount;
  }

  // ---------- durability ----------

  /** With an fsync after every batch, what was published in this run is on disk, except between
      the offset store and that fsync. */
  ghost predicate Durable(o: Options, s: State) {
    o.durability == 1 && s.pc != Syncing && s.publishedCount > 0 ==> s.published <= s.synced
  }

  lemma DurableStep(o: Options, s: State, a: Action)
    requires Offsets(s) && Durable(o, s) && Enabled(s, a)
    ensures Durable(o, Step(o, s, a))
  {
    hide ReaderOk, Boundary, Accept, WriteSome, TakeBatch, TakenCount, Concat, Slice, Notified;
  }

  // ---------- whole runs ----------

  ghost predicate Inv(o: Options, s: State) {
    Sound(s) && InOrder(s.log) && Offsets(s) && Pressure(o, s) && Durable(o, s)
  }

  lemma {:induction false} InvStep(o: Options, s: State, a: Action)
    requires Inv(o, s) && Enabled(s, a) && a != WritevFailed
    ensures Inv(o, Step(o, s, a)) && Grows(s.log, Step(o, s, a).log)
    ensures s.published <= Step(o, s, a).published
  {
    hide Enabled, Step, Sound, InOrder, Offsets, Pressure, Durable, Grows;
    DurableStep(o, s, a);
    SoundStep(o, s, a);
    OffsetsStep(o, s, a);
    PressureStep(o, s, a);
    GrowsStep(o, s, a);
  }

  /** Every state of every run without a hard write failure satisfies the invariant. */
  lemma {:induction false} RunKeepsInv(o: Options, file: Bytes, acts: seq<Action>)
    requires Run(o, Start(file), acts).Some? && NoFailure(acts)
    ensures Inv(o, Run(o, Start(file), acts).value)
    ensures UsableBatches(o) ==> Exits(o, Run(o, Start(file), acts).value)
    decreases |acts|
  {
    hide Enabled, Step, Inv, Exits, Grows;
    if acts == [] {
      StartInv(o, file);
    } else {
      var before, a := acts[..|acts| - 1], acts[|acts| - 1];
      RunKeepsInv(o, file, before);
      var m := Run(o, Start(file), before).value;
      assert a in acts;
      InvStep(o, m, a);
      if UsableBatches(o) { ExitsStep(o, m, a); }
    }
  }

  lemma StartInv(o: Options, file: Bytes)
    ensures Inv(o, Start(file)) && Exits(o, Start(file)) && Lost(Start(file).log) == 0
  {
  }

  /** Nothing is lost, duplicated or reordered exactly as long as no write failed hard; only a
      failure that drops nothing but empty payloads goes unnoticed. */
  lemma {:induction false} ConservedExactly(o: Options, file: Bytes, acts: seq<Action>)
    requires Run(o, Start(file), acts).Some?
    ensures NoFailure(acts) ==> Conserved(Run(o, Start(file), acts).value.log)
    ensures AllNonEmpty(Run(o, Start(file), acts).value.log.accepted) ==>
      (Conserved(Run(o, Start(file), acts).value.log) <==> NoFailure(acts))
  {
    hide Run;
    var s := Run(o, Start(file), acts).value;
    if NoFailure(acts) {
      RunKeepsInv(o, file, acts);
      InOrderIsConserved(s.log);
    } else {
      RunLoses(o, file, acts);
      assert Conserved(s.log) ==> Lost(s.log) == 0;
    }
  }

  lemma {:induction false} RunLoses(o: Options, file: Bytes, acts: seq<Action>)
    requires Run(o, Start(file), acts).Some?
    ensures var s := Run(o, Start(file), acts).value;
            && Sound(s) && Pressure(o, s)
            && Lost(s.log) >= 0
            && (!NoFailure(acts) && AllNonEmpty(s.log.accepted) ==> Lost(s.log) > 0)
    decreases |acts|
  {
    hide Enabled, Step, Sound, Lost, Pressure, Offsets, Grows, Concat;
    if acts == [] {
      StartInv(o, file);
    } else {
      var before, a := acts[..|acts| - 1], acts[|acts| - 1];
      RunLoses(o, file, before);
      var m := Run(o, Start(file), before).value;
      SoundStep(o, m, a);
      PressureStep(o, m, a);
      GrowsStep(o, m, a);
      if AllNonEmpty(Step(o, m, a).log.accepted) { FewerNonEmpty(m.log, Step(o, m, a).log); }
      assert acts == before + [a];
    }
  }

  lemma FewerNonEmpty(l: Log, l': Log)
    requires Grows(l, l') && AllNonEmpty(l'.accepted)
    ensures AllNonEmpty(l.accepted)
  {
  }

  // ---------- shutdown ----------

  /** A writer that left by the test under the lock has written every payload ever accepted, and
      synced it if the mode asks for that. */
  lemma {:induction false} LockedExitDrains(o: Options, file: Bytes, acts: seq<Action>)
    requires UsableBatches(o) && Run(o, Start(file), acts).Some? && NoFailure(acts)
    ensures var s := Run(o, Start(file), acts).value;
            s.pc == Leaving(ByLockedTest) || s.pc == Gone(ByLockedTest) ==>
              && s.stop && s.log.queue == []
              && s.log.file == file + Concat(s.log.accepted)
              && (s.pc.Gone? && o.durability > 0 ==> s.synced == |s.log.file|)
  {
    hide Run, Offsets;
    var s := Run(o, Start(file), acts).value;
    RunKeepsInv(o, file, acts);
    RunInitial(o, file, acts);
    if s.pc == Leaving(ByLockedTest) || s.pc == Gone(ByLockedTest) {
      DrainedBytes(s.log);
    }
  }

  /** A writer that left by the unlocked test has done so exactly when nothing was accepted
      between its last unlock and that test. */
  lemma {:induction false} IdleExitDrainsExactly(o: Options, file: Bytes, acts: seq<Action>)
    requires UsableBatches(o) && Run(o, Start(file), acts).Some? && NoFailure(acts)
    ensures var s := Run(o, Start(file), acts).value;
            (s.pc.Leaving? || s.pc.Gone?) && s.pc.exit.ByIdleTest? ==>
              && s.stop
              && (|s.log.accepted| == s.pc.exit.seen ==> s.log.file == file + Concat(s.log.accepted))
              && (AllNonEmpty(s.log.accepted) ==>
                    (s.log.file == file + Concat(s.log.accepted)
                     <==> |s.log.accepted| == s.pc.exit.seen))
              && (s.pc.Gone? && o.durability > 0 ==> s.synced == |s.log.file|)
  {
    hide Run, Offsets;
    var s := Run(o, Start(file), acts).value;
    RunKeepsInv(o, file, acts);
    RunInitial(o, file, acts);
    if (s.pc.Leaving? || s.pc.Gone?) && s.pc.exit.ByIdleTest? {
      DrainedBytes(s.log);
    }
  }

  lemma DrainedBytes(l: Log)
    requires Shape(l) && InOrder(l) && l.rest == []
    ensures l.queue == [] ==> l.file == l.initial + Concat(l.accepted)
    ensures AllNonEmpty(l.accepted) ==>
      (l.file == l.initial + Concat(l.accepted) <==> l.queue == [])
  {
    hide Concat;
    ConcatNothing();
    ConcatSplit(l.accepted, TakenCount(l));
    if l.queue == [] {
      assert Taken(l) == l.accepted;
    } else if AllNonEmpty(l.accepted) {
      assert l.queue[0] == l.accepted[TakenCount(l)];
      QueueHasBytes(l.queue);
    }
  }

  lemma QueueHasBytes(queue: seq<Bytes>)
    requires queue != [] && queue[0] != []
    ensures |Concat(queue)| > 0
  {
  }

  lemma {:induction false} RunInitial(o: Options, file: Bytes, acts: seq<Action>)
    requires Run(o, Start(file), acts).Some?
    ensures Run(o, Start(file), acts).value.log.initial == file
    decreases |acts|
  {
    hide Step, Enabled, Sound, Lost, Pressure;
    if acts != [] {
      var before := acts[..|acts| - 1];
      RunInitial(o, file, before);
      RunLoses(o, file, before);
      GrowsStep(o, Run(o, Start(file), before).value, acts[|acts| - 1]);
    }
  }

  /** A writer that is gone has synced the file if the mode asks for that, also after failures. */
  lemma {:induction false} GoneSynced(o: Options, file: Bytes, acts: seq<Action>)
    requires Run(o, Start(file), acts).Some?
    ensures var s := Run(o, Start(file), acts).value;
            s.pc.Gone? && o.durability > 0 ==> s.synced == |s.log.file|
    decreases |acts|
  {
    hide Step, Enabled;
    if acts != [] {
      GoneSynced(o, file, acts[..|acts| - 1]);
      GoneStep(o, Run(o, Start(file), acts[..|acts| - 1]).value, acts[|acts| - 1]);
    }
  }

  lemma GoneStep(o: Options, s: State, a: Action)
    requires Enabled(s, a) && (s.pc.Gone? && o.durability > 0 ==> s.synced == |s.log.file|)
    ensures var s' := Step(o, s, a);
            s'.pc.Gone? && o.durability > 0 ==> s'.synced == |s'.log.file|
  {
    hide BatchSize, Advance, Slice, Concat, TakenCount, Notified;
  }

  /** The unlocked test can lose a payload: accepted while the idle writer was between its unlock
      and its test, with stop set in the meantime. */
  lemma IdleExitCanLose(o: Options, p: Bytes)
    requires o.maxQueue >= 1 && p != []
    ensures var acts := [Lock, Wake, AppendAsync(p), StopSet, IdleTest(false)];
            && Run(o, Start([]), acts).Some?
            && Run(o, Start([]), acts).value.pc == Leaving(ByIdleTest(0))
            && Run(o, Start([]), acts).value.log.accepted == [p]
            && Run(o, Start([]), acts).value.log.file == []
  {
    hide Run;
    var s0 := Start([]);
    var s1 := s0.(pc := Asleep);
    var s2 := s0.(pc := Idle(0));
    var s3 := s2.(log := Accept(s2.log, p));
    var s4 := s3.(stop := true);
    var s5 := s4.(pc := Leaving(ByIdleTest(0)));
    var acts := [Lock, Wake, AppendAsync(p), StopSet, IdleTest(false)];
    assert Step(o, s1, Wake) == s2 by { assert s2.waiters == Notified(s2.waiters); }
    ChainRuns(o, [s0, s1, s2, s3, s4, s5], acts);
  }

  lemma RunOfNothing(o: Options, s: State)
    ensures Run(o, s, []) == Some(s)
  {
  }

  // ---------- what is published ----------

  lemma PublishStep(o: Options, s: State, a: Action)
    requires Enabled(s, a)
    ensures a == StoreOffset ==>
      Step(o, s, a).published == |s.log.file| && Step(o, s, a).publishedCount == TakenCount(s.log)
    ensures a != StoreOffset ==>
      Step(o, s, a).published == s.published && Step(o, s, a).publishedCount == s.publishedCount
  {
    hide BatchSize, Advance, Slice, Concat, TakenCount, Notified;
  }

  lemma {:induction false} PublishedStays(o: Options, s: State, acts: seq<Action>)
    requires Run(o, s, acts).Some? && StoreOffset !in acts
    ensures Run(o, s, acts).value.published == s.published
    ensures Run(o, s, acts).value.publishedCount == s.publishedCount
    decreases |acts|
  {
    hide Enabled, Step;
    if acts != [] {
      var before, a := acts[..|acts| - 1], acts[|acts| - 1];
      assert a in acts;
      PublishedStays(o, s, before);
      PublishStep(o, Run(o, s, before).value, a);
    }
  }

  /** In every run, failures included, the published offset is the size the file had at the last
      offset store, and covers what had left the queue by then. */
  lemma {:induction false} PublishedAtLastStore(o: Options, s: State, before: seq<Action>, after: seq<Action>)
    requires Run(o, s, before).Some? && Enabled(Run(o, s, before).value, StoreOffset)
    requires Run(o, s, before + [StoreOffset] + after).Some? && StoreOffset !in after
    ensures var past := Run(o, s, before).value.log;
            var s' := Run(o, s, before + [StoreOffset] + after).value;
            s'.published == |past.file| && s'.publishedCount == TakenCount(past)
  {
    hide Run, Enabled, Step, TakenCount;
    RunSnoc(o, s, before, StoreOffset);
    RunAppend(o, s, before + [StoreOffset], after);
    var m := Run(o, s, before).value;
    PublishStep(o, m, StoreOffset);
    PublishedStays(o, Step(o, m, StoreOffset), after);
  }

  // ---------- where listeners read ----------

  /** The bytes that listener call `id` has read. */
  function BytesRead(acts: seq<Action>, id: nat): nat {
    if acts == [] then 0
    else
      var last := acts[|acts| - 1];
      BytesRead(acts[..|acts| - 1], id) + if last.ReadPiece? && last.id == id then last.n else 0
  }

  lemma BytesReadSnoc(acts: seq<Action>, id: nat)
    requires acts != []
    ensures var last := acts[|acts| - 1];
            BytesRead(acts, id)
              == BytesRead(acts[..|acts| - 1], id) + if last.ReadPiece? && last.id == id then last.n else 0
  {
  }

  /** A listener call keeps its start, and each of its reads adds what it reports. */
  lemma ReaderStep(o: Options, s: State, a: Action, id: nat)
    requires Enabled(s, a) && id in s.readers
    ensures var s' := Step(o, s, a);
            && id in s'.readers
            && s'.readers[id].offset == s.readers[id].offset
            && s'.readers[id].count == s.readers[id].count
            && |Concat(s'.readers[id].pieces)|
                 == |Concat(s.readers[id].pieces)| + if a.ReadPiece? && a.id == id then a.n else 0
  {
    hide BatchSize, Advance, Slice, Concat, TakenCount, Notified;
    if a.ReadPiece? && a.id == id {
      var r := s.readers[id];
      ConcatSnoc(r.pieces, s.log.file[Position(r)..Position(r) + a.n]);
    }
  }

  lemma LoadStep(o: Options, s: State, id: nat)
    requires Enabled(s, Load(id))
    ensures var s' := Step(o, s, Load(id));
            && id in s'.readers && s'.readers[id].offset == s.published
            && s'.readers[id].count == s.publishedCount && |Concat(s'.readers[id].pieces)| == 0
  {
  }

  /** In every run, failures included: a listener call reads from the offset that was published when
      it loaded it, and has read as many bytes as its reads since then reported. */
  lemma {:induction false} ReaderSinceLoad(o: Options, s: State, acts: seq<Action>, id: nat, k: nat)
    requires Run(o, s, acts).Some? && k < |acts| && acts[k] == Load(id)
    ensures Run(o, s, acts[..k]).Some? && id in Run(o, s, acts).value.readers
    ensures var r := Run(o, s, acts).value.readers[id];
            var past := Run(o, s, acts[..k]).value;
            && r.offset == past.published && r.count == past.publishedCount
            && |Concat(r.pieces)| == BytesRead(acts[k + 1..], id)
    decreases |acts|
  {
    hide Enabled, Step, Concat;
    var before, a := acts[..|acts| - 1], acts[|acts| - 1];
    var m := Run(o, s, before).value;
    if k == |acts| - 1 {
      LoadStep(o, m, id);
    } else {
      ReaderSinceLoad(o, s, before, id, k);
      assert before[..k] == acts[..k];
      ReaderStep(o, m, a, id);
      BytesReadSnoc(acts[k + 1..], id);
      assert acts[k + 1..][..|acts| - k - 2] == before[k + 1..];
    }
  }

  /** Every listener call began with such a load. */
  lemma {:induction false} ReaderWasLoaded(o: Options, file: Bytes, acts: seq<Action>, id: nat) returns (k: nat)
    requires Run(o, Start(file), acts).Some? && id in Run(o, Start(file), acts).value.readers
    ensures k < |acts| && acts[k] == Load(id)
    decreases |acts|
  {
    hide Enabled, Step;
    if acts == [] {
      assert false;
    } else {
      var before, a := acts[..|acts| - 1], acts[|acts| - 1];
      if a == Load(id) {
        k := |acts| - 1;
      } else {
        NewReaderLoads(o, Run(o, Start(file), before).value, a, id);
        k := ReaderWasLoaded(o, file, before, id);
      }
    }
  }

  lemma NewReaderLoads(o: Options, s: State, a: Action, id: nat)
    requires Enabled(s, a) && a != Load(id) && id in Step(o, s, a).readers
    ensures id in s.readers
  {
    hide BatchSize, Advance, Slice, Concat, TakenCount, Notified;
  }

  // ---------- no lost wake-up ----------

  /** An appender sleeps, nobody has notified it, and no round will find anything to take. */
  ghost predicate Stranded(s: State) {
    s.log.queue == [] && exists id :: id in s.waiters && !s.waiters[id].notified
  }

  /** No run strands an appender, exactly when the queue holds two entries or more. */
  lemma NoStrandedAppenderExactly(o: Options, file: Bytes)
    requires UsableBatches(o)
    ensures (forall acts :: Run(o, Start(file), acts).Some? ==>
              !Stranded(Run(o, Start(file), acts).value))
            <==> o.maxQueue >= 2
  {
    hide Run;
    if o.maxQueue >= 2 {
      forall acts | Run(o, Start(file), acts).Some?
        ensures !Stranded(Run(o, Start(file), acts).value)
      {
        RunLoses(o, file, acts);
      }
    } else {
      var acts := StrandingRun(o, file);
      assert Stranded(Run(o, Start(file), acts).value);
    }
  }

  /** With room for at most one entry, half the capacity is zero and the wake-up test never
      succeeds. */
  lemma StrandingRun(o: Options, file: Bytes) returns (acts: seq<Action>)
    requires UsableBatches(o) && o.maxQueue < 2
    ensures Run(o, Start(file), acts).Some? && Stranded(Run(o, Start(file), acts).value)
  {
    hide Run;
    var s0 := Start(file);
    RunOfNothing(o, s0);
    if o.maxQueue == 0 {
      acts := [] + [BlockEnter(0, [0])];
      RunSnoc(o, s0, [], BlockEnter(0, [0]));
      assert 0 in Step(o, s0, BlockEnter(0, [0])).waiters;
    } else {
      RunSnoc(o, s0, [], AppendAsync([0]));
      var s1 := Step(o, s0, AppendAsync([0]));
      RunSnoc(o, s0, [] + [AppendAsync([0])], BlockEnter(0, [0]));
      var s2 := Step(o, s1, BlockEnter(0, [0]));
      acts := [] + [AppendAsync([0])] + [BlockEnter(0, [0])] + [Lock];
      RunSnoc(o, s0, [] + [AppendAsync([0])] + [BlockEnter(0, [0])], Lock);
      assert s2.log.queue == [[0]];
      assert BatchSize(o, [[0]], 0, 0) == 1;
      assert 0 in Step(o, s2, Lock).waiters;
    }
  }

  predicate IsRound(s: State, a: Action) {
    a == Wake || (a == Lock && (s.stop || s.log.queue != []))
  }

  function Rounds(o: Options, s: State, acts: seq<Action>): nat
    requires Run(o, s, acts).Some?
  {
    if acts == [] then 0
    else
      var before := acts[..|acts| - 1];
      Rounds(o, s, before)
      + if IsRound(Run(o, s, before).value, acts[|acts| - 1]) then 1 else 0
  }

  /** Without new appends, as many rounds as there are queued entries empty the queue, so every
      sleeping appender has been notified by then. */
  lemma {:induction false} WaitersNotifiedInTime(o: Options, s: State, acts: seq<Action>)
    requires UsableBatches(o) && o.maxQueue >= 2 && Pressure(o, s)
    requires Run(o, s, acts).Some?
    ensures var s' := Run(o, s, acts).value;
            s'.log.accepted == s.log.accepted && Rounds(o, s, acts) >= |s.log.queue| ==>
              s'.log.queue == [] && forall id :: id in s'.waiters ==> s'.waiters[id].notified
  {
    hide Run, Rounds;
    RoundsShrink(o, s, acts);
  }

  /** The writer leaves the sleepers' payloads alone; at most it notifies them. */
  lemma WriterKeepsSleepers(o: Options, s: State, a: Action)
    requires FromWriter(a) && Enabled(s, a)
    ensures var s' := Step(o, s, a);
            && s'.waiters.Keys == s.waiters.Keys
            && forall id :: id in s.waiters ==> s'.waiters[id].payload == s.waiters[id].payload
  {
    hide BatchSize, Advance, Slice, Concat, TakenCount;
  }

  /** So, unless stop is set, the sleeper's next test lets it in. */
  lemma {:induction false} SleeperGetsIn(o: Options, s: State, acts: seq<Action>)
    requires UsableBatches(o) && o.maxQueue >= 2 && Pressure(o, s) && Run(o, s, acts).Some?
    ensures var s' := Run(o, s, acts).value;
            s'.log.accepted == s.log.accepted && Rounds(o, s, acts) >= |s.log.queue| ==>
              s'.stop || Open(o, s')
  {
    hide Run, Rounds;
    WaitersNotifiedInTime(o, s, acts);
  }

  lemma {:induction false} RoundsShrink(o: Options, s: State, acts: seq<Action>)
    requires UsableBatches(o) && Pressure(o, s) && Run(o, s, acts).Some?
    ensures var s' := Run(o, s, acts).value;
            && Pressure(o, s')
            && |s.log.accepted| <= |s'.log.accepted|
            && (s'.log.accepted == s.log.accepted ==>
                  s'.log.queue == [] || |s'.log.queue| + Rounds(o, s, acts) <= |s.log.queue|)
    decreases |acts|
  {
    hide Step, Pressure, Enabled, IsRound;
    if acts != [] {
      var before, a := acts[..|acts| - 1], acts[|acts| - 1];
      RoundsShrink(o, s, before);
      var m := Run(o, s, before).value;
      PressureStep(o, m, a);
      QueueStep(o, m, a);
    }
  }

  lemma {:induction false} QueueStep(o: Options, s: State, a: Action)
    requires UsableBatches(o) && Enabled(s, a)
    ensures var s' := Step(o, s, a);
            && s.log.accepted <= s'.log.accepted
            && (|s'.log.accepted| == |s.log.accepted| ==>
                  && s'.log.accepted == s.log.accepted
                  && |s'.log.queue| <= |s.log.queue|
                  && (IsRound(s, a) ==> s'.log.queue == [] || |s'.log.queue| < |s.log.queue|))
  {
    hide Advance, Slice, Concat;
  }
}
