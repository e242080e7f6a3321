/** How the published offset relates to what fsync has put on disk. */
module Durability {
  import opened ByteStrings
  import opened Writer
  import opened WriterLaws

  /** Between a batch's last write and its fsync something is not on disk yet. */
  ghost predicate Window(s: State) {
    && (s.pc == Storing ==> s.synced < |s.log.file|)
    && (s.pc == Syncing ==> s.synced < s.published)
  }

  lemma WindowStep(o: Options, s: State, a: Action)
    requires Sound(s) && Offsets(s) && Window(s) && AllNonEmpty(s.log.accepted)
    requires Enabled(s, a) && a != WritevFailed
    ensures Window(Step(o, s, a))
  {
    hide ReaderOk, Boundary, BatchSize, TakenCount, Concat, Slice, Notified, AllNonEmpty, Advance;
    if a.Writev? {
      SliceConcat(s.log.rest);
    }
  }

  lemma {:induction false} RunKeepsWindow(o: Options, file: Bytes, acts: seq<Action>)
    requires Run(o, Start(file), acts).Some? && NoFailure(acts)
    requires AllNonEmpty(Run(o, Start(file), acts).value.log.accepted)
    ensures Window(Run(o, Start(file), acts).value)
    decreases |acts|
  {
    hide Enabled, Step, Sound, InOrder, Offsets, Pressure, Durable, Grows, AllNonEmpty, Window;
    if acts == [] {
      assert Window(Start(file)) by { StartWindow(file); }
    } else {
      var before, a := acts[..|acts| - 1], acts[|acts| - 1];
      assert a in acts;
      var m := Run(o, Start(file), before).value;
      RunKeepsInv(o, file, before);
      GrowsStep(o, m, a);
      FewerNonEmpty(m.log, Step(o, m, a).log);
      RunKeepsWindow(o, file, before);
      WindowStep(o, m, a);
    }
  }

  lemma StartWindow(file: Bytes)
    ensures Window(Start(file))
  {
  }

  /** With an fsync per batch, what was published in this run is on disk exactly outside the window
      between the offset store and the fsync. */
  lemma {:induction false} PublishedOnDiskExactly(o: Options, file: Bytes, acts: seq<Action>)
    requires Run(o, Start(file), acts).Some? && NoFailure(acts) && o.durability == 1
    requires AllNonEmpty(Run(o, Start(file), acts).value.log.accepted)
    ensures var s := Run(o, Start(file), acts).value;
            s.publishedCount > 0 ==> (s.published <= s.synced <==> s.pc != Syncing)
  {
    hide Run, Sound, InOrder, Offsets, Pressure, AllNonEmpty;
    RunKeepsInv(o, file, acts);
    RunKeepsWindow(o, file, acts);
  }

  /** In every mode the offset is published before anything is synced: one append, one round, one
      write, one offset store. */
  lemma PublishedBeforeSynced(o: Options, file: Bytes, p: Bytes)
    requires UsableBatches(o) && o.maxQueue >= 1 && p != []
    ensures var acts := [AppendAsync(p), Lock, Writev(|p|), StoreOffset];
            && Run(o, Start(file), acts).Some?
            && Run(o, Start(file), acts).value == Published(file, p)
    ensures Published(file, p).pc == Syncing
    ensures Published(file, p).synced == 0 < Published(file, p).published
  {
    hide Run;
    var s0 := Start(file);
    var s1 := s0.(log := Accept(s0.log, p));
    var s2 := s0.(log := Log(file, [p], [], [p], file), pc := Writing);
    var s3 := s0.(log := Log(file, [p], [], [], file + p), pc := Storing);
    var acts := [AppendAsync(p), Lock, Writev(|p|), StoreOffset];
    assert s1.log == Log(file, [p], [p], [], file);
    assert Step(o, s1, Lock) == s2 by { FirstRound(o, s1, p); }
    assert Enabled(s2, Writev(|p|)) && Step(o, s2, Writev(|p|)) == s3 by { WholeWrite(o, s2, p); }
    ChainRuns(o, [s0, s1, s2, s3, Published(file, p)], acts);
  }

  /** The state right after the first payload's offset was published. */
  function Published(file: Bytes, p: Bytes): State {
    Start(file).(log := Log(file, [p], [], [], file + p), pc := Syncing,
                 published := |file + p|, publishedCount := 1)
  }

  lemma FirstRound(o: Options, s: State, p: Bytes)
    requires UsableBatches(o) && s.pc == AtTop && s.log.queue == [p] && s.log.rest == []
    requires s.waiters == map[]
    ensures Step(o, s, Lock) == s.(log := s.log.(queue := [], rest := [p]), pc := Writing)
  {
    assert BatchSize(o, [p], 0, 0) == 1;
    assert Notified(s.waiters) == map[];
  }

  lemma WholeWrite(o: Options, s: State, p: Bytes)
    requires s.pc == Writing && s.log.rest == [p] && p != []
    ensures Enabled(s, Writev(|p|))
    ensures Step(o, s, Writev(|p|))
         == s.(log := s.log.(file := s.log.file + p, rest := []), pc := Storing)
  {
    assert Concat([p]) == p + Concat([]);
    assert Advance([p], |p|) == [];
    assert p[..|p|] == p;
  }

  /** Published bytes are on disk outside that window, in every run, exactly in mode 1. */
  lemma {:induction false} OnDiskOutsideWindowExactly(o: Options, file: Bytes)
    requires UsableBatches(o) && o.maxQueue >= 1
    ensures (forall acts :: Run(o, Start(file), acts).Some? && NoFailure(acts) ==>
               OnDiskOutsideWindow(Run(o, Start(file), acts).value))
            <==> o.durability == 1
  {
    hide Run;
    if o.durability == 1 {
      forall acts | Run(o, Start(file), acts).Some? && NoFailure(acts)
        ensures OnDiskOutsideWindow(Run(o, Start(file), acts).value)
      {
        RunKeepsInv(o, file, acts);
      }
    } else {
      var p: Bytes := [0];
      PublishedBeforeSynced(o, file, p);
      var acts := [AppendAsync(p), Lock, Writev(|p|), StoreOffset];
      RunSnoc(o, Start(file), acts, Fsync(false));
      var s := Run(o, Start(file), acts + [Fsync(false)]).value;
      assert s == Published(file, p).(pc := StopTest);
      assert NoFailure(acts + [Fsync(false)]);
      assert !OnDiskOutsideWindow(s);
    }
  }

  predicate OnDiskOutsideWindow(s: State) {
    s.publishedCount > 0 && s.pc != Syncing ==> s.published <= s.synced
  }

  // ---------- which bytes are on disk, in every mode ----------

  /** The fsync policy: after every batch in mode 1, when the interval has passed in mode 2 (after a
      batch, or idle and not stopped), and at the writer's exit in both. */
  predicate Syncs(o: Options, s: State, a: Action) {
    match a
    case Fsync(due) => o.durability == 1 || (o.durability == 2 && due)
    case IdleTest(due) => o.durability == 2 && due && !s.stop
    case FinalFsync => o.durability > 0
    case _ => false
  }

  lemma SyncStep(o: Options, s: State, a: Action)
    requires Enabled(s, a)
    ensures Step(o, s, a).synced == if Syncs(o, s, a) then |s.log.file| else s.synced
    ensures |s.log.file| <= |Step(o, s, a).log.file|
  {
    hide BatchSize, Advance, Slice, Concat, TakenCount, Notified;
  }

  lemma {:induction false} SyncedInFile(o: Options, file: Bytes, acts: seq<Action>)
    requires Run(o, Start(file), acts).Some?
    ensures Run(o, Start(file), acts).value.synced <= |Run(o, Start(file), acts).value.log.file|
    decreases |acts|
  {
    hide Enabled, Step, Syncs;
    if acts != [] {
      SyncedInFile(o, file, acts[..|acts| - 1]);
      SyncStep(o, Run(o, Start(file), acts[..|acts| - 1]).value, acts[|acts| - 1]);
    }
  }

  /** In every run, failures included: what the file held at a syncing step is on disk ever after. */
  lemma {:induction false} SyncCovers(o: Options, file: Bytes, acts: seq<Action>, k: nat)
    requires Run(o, Start(file), acts).Some? && k < |acts|
    ensures Run(o, Start(file), acts[..k]).Some?
    ensures Syncs(o, Run(o, Start(file), acts[..k]).value, acts[k]) ==>
      |Run(o, Start(file), acts[..k]).value.log.file| <= Run(o, Start(file), acts).value.synced
    decreases |acts|
  {
    hide Enabled, Step, Syncs;
    var before, a := acts[..|acts| - 1], acts[|acts| - 1];
    SyncStep(o, Run(o, Start(file), before).value, a);
    if k < |acts| - 1 {
      SyncCovers(o, file, before, k);
      assert before[..k] == acts[..k];
      SyncedInFile(o, file, before);
    }
  }

  /** Nothing else puts anything on disk: what is synced is what the file held at such a step. */
  lemma {:induction false} SyncedBySync(o: Options, file: Bytes, acts: seq<Action>) returns (k: nat)
    requires Run(o, Start(file), acts).Some?
    ensures Run(o, Start(file), acts).value.synced > 0 ==>
      && k < |acts| && Run(o, Start(file), acts[..k]).Some?
      && Syncs(o, Run(o, Start(file), acts[..k]).value, acts[k])
      && Run(o, Start(file), acts).value.synced == |Run(o, Start(file), acts[..k]).value.log.file|
    decreases |acts|
  {
    hide Enabled, Step, Syncs;
    k := 0;
    if acts != [] {
      var before, a := acts[..|acts| - 1], acts[|acts| - 1];
      var m := Run(o, Start(file), before).value;
      SyncStep(o, m, a);
      if Syncs(o, m, a) {
        k := |acts| - 1;
      } else {
        k := SyncedBySync(o, file, before);
        assert Run(o, Start(file), acts).value.synced > 0 ==> before[..k] == acts[..k];
      }
    }
  }

  /** In mode 0 nothing ever reaches the disk. */
  lemma {:induction false} ModeZeroNeverSyncs(o: Options, file: Bytes, acts: seq<Action>)
    requires Run(o, Start(file), acts).Some? && o.durability == 0
    ensures Run(o, Start(file), acts).value.synced == 0
  {
    hide Run;
    var k := SyncedBySync(o, file, acts);
  }

  /** Mode 2: a due fsync after a batch puts everything published so far on disk. */
  lemma {:induction false} PeriodicSyncCovers(o: Options, file: Bytes, before: seq<Action>, after: seq<Action>)
    requires o.durability == 2 && Run(o, Start(file), before + [Fsync(true)] + after).Some?
    ensures Run(o, Start(file), before).Some?
    ensures |Run(o, Start(file), before).value.log.file|
         <= Run(o, Start(file), before + [Fsync(true)] + after).value.synced
  {
    hide Run;
    var acts := before + [Fsync(true)] + after;
    assert acts[..|before|] == before && acts[|before|] == Fsync(true);
    SyncCovers(o, file, acts, |before|);
  }

  /** And so does a due fsync of an idle writer that is not stopped. */
  lemma {:induction false} IdleSyncCovers(o: Options, file: Bytes, before: seq<Action>, after: seq<Action>)
    requires o.durability == 2 && Run(o, Start(file), before + [IdleTest(true)] + after).Some?
    ensures Run(o, Start(file), before).Some?
    ensures !Run(o, Start(file), before).value.stop ==>
      |Run(o, Start(file), before).value.log.file|
         <= Run(o, Start(file), before + [IdleTest(true)] + after).value.synced
  {
    hide Run;
    var acts := before + [IdleTest(true)] + after;
    assert acts[..|before|] == before && acts[|before|] == IdleTest(true);
    SyncCovers(o, file, acts, |before|);
  }
}
