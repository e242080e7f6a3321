/** The append-only log's writer as a step system: appenders, the writer thread of writerLoop,
    stop, and listeners reading the file, interleaved in any way (src/common/aof.cpp). */
module Writer {
  import opened ByteStrings

  datatype Options = Options(maxQueue: nat, maxBatchEntries: nat, maxBatchBytes: nat, durability: nat)

  predicate UsableBatches(o: Options) {
    o.maxBatchEntries >= 1 && o.maxBatchBytes >= 1
  }

  // ---------- batches and slices ----------

  /** How many queued entries the batching loop moves, given a batch of n entries and `bytes`. */
  function BatchSize(o: Options, queue: seq<Bytes>, n: nat, bytes: nat): (k: nat)
    ensures k <= |queue|
    decreases |queue|
  {
    if queue == [] || n >= o.maxBatchEntries || bytes >= o.maxBatchBytes then 0
    else 1 + BatchSize(o, queue[1..], n + 1, bytes + |queue[0]|)
  }

  /** The batch respects both limits before its last entry, and stops only at one of them or at
      the end of the queue. */
  lemma {:induction false} BatchSizeIs(o: Options, queue: seq<Bytes>, n: nat, bytes: nat)
    requires n <= o.maxBatchEntries
    ensures var k := BatchSize(o, queue, n, bytes);
            && n + k <= o.maxBatchEntries
            && (k > 0 ==> bytes + |Concat(queue[..k - 1])| < o.maxBatchBytes)
            && (k == |queue| || n + k == o.maxBatchEntries
                || bytes + |Concat(queue[..k])| >= o.maxBatchBytes)
    decreases |queue|
  {
    var k := BatchSize(o, queue, n, bytes);
    assert queue[..0] == [];
    if k > 0 {
      BatchSizeIs(o, queue[1..], n + 1, bytes + |queue[0]|);
      assert queue[..k][1..] == queue[1..][..k - 1];
      if k > 1 {
        assert queue[..k - 1][1..] == queue[1..][..k - 2];
      }
    }
  }

  const IOV_MAX_SLICE: nat := 64

  function Slice(rest: seq<Bytes>): seq<Bytes> {
    if |rest| <= IOV_MAX_SLICE then rest else rest[..IOV_MAX_SLICE]
  }

  /** One call is offered the first 64 iovecs, or all if there are fewer. */
  lemma SliceIs(rest: seq<Bytes>)
    ensures Slice(rest) <= rest && |Slice(rest)| == if |rest| < 64 then |rest| else 64
  {
  }

  /** The iovecs left after n bytes were written. */
  function Advance(rest: seq<Bytes>, n: nat): seq<Bytes>
    decreases |rest|
  {
    if n == 0 || rest == [] then rest
    else if n >= |rest[0]| then Advance(rest[1..], n - |rest[0]|)
    else [rest[0][n..]] + rest[1..]
  }

  /** One turn of the advance loop. */
  lemma AdvanceOnce(rest: seq<Bytes>, n: nat)
    ensures n == 0 || rest == [] ==> Advance(rest, n) == rest
    ensures n > 0 && rest != [] && n >= |rest[0]| ==>
      Advance(rest, n) == Advance(rest[1..], n - |rest[0]|)
    ensures n > 0 && rest != [] && n < |rest[0]| ==>
      Advance(rest, n) == [rest[0][n..]] + rest[1..]
  {
  }

  /** Written bytes and remaining iovecs together are what was there before. */
  lemma {:induction false} AdvanceConcat(rest: seq<Bytes>, n: nat)
    requires n <= |Concat(rest)|
    ensures Concat(rest)[..n] + Concat(Advance(rest, n)) == Concat(rest)
    ensures AllNonEmpty(rest) ==> AllNonEmpty(Advance(rest, n))
    decreases |rest|
  {
    var all := Concat(rest);
    if n == 0 || rest == [] {
    } else if n >= |rest[0]| {
      var m := n - |rest[0]|;
      AdvanceConcat(rest[1..], m);
      assert all[..n] == rest[0] + Concat(rest[1..])[..m];
      Assoc(rest[0], Concat(rest[1..])[..m], Concat(Advance(rest[1..], m)));
    } else {
      assert all[..n] == rest[0][..n];
      var adv := Advance(rest, n);
      assert adv[1..] == rest[1..];
      Assoc(rest[0][..n], rest[0][n..], Concat(rest[1..]));
    }
  }

  lemma SliceConcat(rest: seq<Bytes>)
    ensures |Concat(Slice(rest))| <= |Concat(rest)|
    ensures AllNonEmpty(rest) && rest != [] ==> |Concat(Slice(rest))| > 0
  {
    if |rest| > IOV_MAX_SLICE {
      ConcatSplit(rest, IOV_MAX_SLICE);
    }
  }

  // ---------- states and steps ----------

  /** How the writer thread left its loop; `seen` counts the payloads accepted when it last held
      the lock. */
  datatype Exit = ByLockedTest | ByIdleTest(seen: nat)

  /** The writer thread's place in writerLoop. */
  datatype Pc =
    | AtTop                 // about to lock for a round
    | Asleep                // in cv_.wait_for
    | Idle(seen: nat)       // the round took nothing; about to test stop_flag_ without the lock
    | Writing               // in the writev loop
    | Storing               // about to publish the offset
    | Syncing               // at the fsync policy
    | StopTest              // about to test stop_flag_ after the batch
    | LockedTest            // about to test the queue under the lock
    | Leaving(exit: Exit)   // loop left, final fsync to come
    | Gone(exit: Exit)

  datatype Waiter = Waiter(payload: Bytes, notified: bool)

  /** A listener call: the offset it loaded, and the pieces it has read from there so far. */
  datatype Reader = Reader(count: nat, offset: nat, pieces: seq<Bytes>)

  /** The payload bytes wherever they are. `initial` and `accepted` are bookkeeping: the file at
      start and all payloads accepted so far, in order. `rest` is the part of the iovecs that the
      current batch still has to write. */
  datatype Log = Log(initial: Bytes, accepted: seq<Bytes>, queue: seq<Bytes>, rest: seq<Bytes>, file: Bytes)

  /** `publishedCount` is bookkeeping: how many accepted payloads the published offset covers. */
  datatype State = State(
    log: Log, stop: bool, pc: Pc, synced: nat, published: nat, publishedCount: nat,
    waiters: map<nat, Waiter>, readers: map<nat, Reader>)

  function Start(file: Bytes): State {
    State(Log(file, [], [], [], file), false, AtTop, 0, |file|, 0, map[], map[])
  }

  // ---------- what happens to the bytes ----------

  /** Payloads that left the queue. */
  function TakenCount(l: Log): (k: nat)
    ensures k <= |l.accepted|
  {
    if |l.queue| <= |l.accepted| then |l.accepted| - |l.queue| else 0
  }

  function Taken(l: Log): seq<Bytes> {
    l.accepted[..TakenCount(l)]
  }

  function Accept(l: Log, p: Bytes): Log {
    l.(queue := l.queue + [p], accepted := l.accepted + [p])
  }

  function TakeBatch(o: Options, l: Log): Log {
    var k := BatchSize(o, l.queue, 0, 0);
    l.(queue := l.queue[k..], rest := l.queue[..k])
  }

  function WriteSome(l: Log, n: nat): Log
    requires n <= |Concat(l.rest)|
  {
    l.(file := l.file + Concat(l.rest)[..n], rest := Advance(l.rest, n))
  }

  // ---------- steps ----------

  datatype Action =
    | AppendAsync(payload: Bytes)
    | BlockEnter(id: nat, payload: Bytes)
    | BlockWake(id: nat)
    | Lock
    | Wake
    | IdleTest(due: bool)
    | Writev(n: nat)
    | Interrupted
    | WritevFailed
    | StoreOffset
    | Fsync(due: bool)
    | TestStop
    | TestQueue
    | FinalFsync
    | StopSet
    | StopNotify
    | Load(id: nat)
    | ReadPiece(id: nat, n: nat)

  const READ_SIZE: nat := 65536

  /** A writev call with nothing to write reports 0; otherwise any positive part of the slice. */
  predicate Enabled(s: State, a: Action) {
    match a
    case AppendAsync(_) => true
    case BlockEnter(id, _) => id !in s.waiters
    case BlockWake(id) => id in s.waiters
    case Lock => s.pc == AtTop
    case Wake => s.pc == Asleep
    case IdleTest(_) => s.pc.Idle?
    case Writev(n) =>
      var offered := |Concat(Slice(s.log.rest))|;
      s.pc == Writing && n <= offered && (offered > 0 ==> n > 0)
    case Interrupted => s.pc == Writing
    case WritevFailed => s.pc == Writing
    case StoreOffset => s.pc == Storing
    case Fsync(_) => s.pc == Syncing
    case TestStop => s.pc == StopTest
    case TestQueue => s.pc == LockedTest
    case FinalFsync => s.pc.Leaving?
    case StopSet => !s.stop
    case StopNotify => s.stop
    case Load(id) => id !in s.readers
    case ReadPiece(id, n) => 
      id in s.readers && 1 <= n <= READ_SIZE && Position(s.readers[id]) + n <= |s.log.file|
  }

  /** Where a reader's next piece starts. */
  function Position(r: Reader): nat {
    r.offset + |Concat(r.pieces)|
  }

  /** May an append be accepted now? */
  predicate Open(o: Options, s: State) {
    !s.stop && |s.log.queue| < o.maxQueue
  }

  function Notified(ws: map<nat, Waiter>): map<nat, Waiter> {
    map id | id in ws :: ws[id].(notified := true)
  }

  /** One pass under the lock: take a batch, and wake the appenders when the queue is short. */
  function Round(o: Options, s: State): State {
    var log := TakeBatch(o, s.log);
    s.(log := log,
       pc := if log.rest == [] then Idle(|log.accepted|) else Writing,
       waiters := if |log.queue| < o.maxQueue / 2 then Notified(s.waiters) else s.waiters)
  }

  function Step(o: Options, s: State, a: Action): State
    requires Enabled(s, a)
  {
    match a
    case AppendAsync(p) => if Open(o, s) then s.(log := Accept(s.log, p)) else s
    case BlockEnter(id, p) =>
      if s.stop then s
      else if Open(o, s) then s.(log := Accept(s.log, p))
      else s.(waiters := s.waiters[id := Waiter(p, false)])
    case BlockWake(id) =>
      var w := s.waiters[id];
      if s.stop then s.(waiters := s.waiters - {id})
      else if Open(o, s) then s.(log := Accept(s.log, w.payload), waiters := s.waiters - {id})
      else s.(waiters := s.waiters[id := w.(notified := false)])
    case Lock => if !s.stop && s.log.queue == [] then s.(pc := Asleep) else Round(o, s)
    case Wake => Round(o, s)
    case IdleTest(due) =>
      if s.stop then s.(pc := Leaving(ByIdleTest(s.pc.seen)))
      else s.(pc := AtTop, synced := if o.durability == 2 && due then |s.log.file| else s.synced)
    case Writev(n) =>
      SliceConcat(s.log.rest);
      var log := WriteSome(s.log, n);
      s.(log := log, pc := if log.rest == [] then Storing else Writing)
    case Interrupted => s
    case WritevFailed => s.(log := s.log.(rest := []), stop := true, pc := Storing)
    case StoreOffset =>
      s.(published := |s.log.file|, publishedCount := TakenCount(s.log), pc := Syncing)
    case Fsync(due) =>
      var sync := o.durability == 1 || (o.durability == 2 && due);
      s.(pc := StopTest, synced := if sync then |s.log.file| else s.synced)
    case TestStop => s.(pc := if s.stop then LockedTest else AtTop)
    case TestQueue => s.(pc := if s.log.queue == [] then Leaving(ByLockedTest) else AtTop)
    case FinalFsync =>
      s.(pc := Gone(s.pc.exit), synced := if o.durability > 0 then |s.log.file| else s.synced)
    case StopSet => s.(stop := true)
    case StopNotify => s.(waiters := Notified(s.waiters))
    case Load(id) => s.(readers := s.readers[id := Reader(s.publishedCount, s.published, [])])
    case ReadPiece(id, n) =>
      var r := s.readers[id];
      var piece := s.log.file[Position(r)..Position(r) + n];
      s.(readers := s.readers[id := r.(pieces := r.pieces + [piece])])
  }

  /** Steps of the writer thread; all others belong to appenders, stop and listeners. */
  predicate FromWriter(a: Action) {
    match a
    case Lock => true
    case Wake => true
    case IdleTest(_) => true
    case Writev(_) => true
    case Interrupted => true
    case WritevFailed => true
    case StoreOffset => true
    case Fsync(_) => true
    case TestStop => true
    case TestQueue => true
    case FinalFsync => true
    case _ => false
  }

  /** The state after a sequence of steps, if each was possible. */
  function Run(o: Options, s: State, acts: seq<Action>): Option<State> {
    if acts == [] then Some(s)
    else
      match Run(o, s, acts[..|acts| - 1])
      case None => None
      case Some(m) =>
        var a := acts[|acts| - 1];
        if Enabled(m, a) then Some(Step(o, m, a)) else None
  }

  lemma RunSnoc(o: Options, s: State, acts: seq<Action>, a: Action)
    requires Run(o, s, acts).Some? && Enabled(Run(o, s, acts).value, a)
    ensures Run(o, s, acts + [a]) == Some(Step(o, Run(o, s, acts).value, a))
  {
    hide Enabled, Step;
    assert (acts + [a])[..|acts|] == acts;
  }

  lemma {:induction false} RunAppend(o: Options, s: State, a: seq<Action>, b: seq<Action>)
    requires Run(o, s, a).Some?
    ensures Run(o, s, a + b) == Run(o, Run(o, s, a).value, b)
    decreases |b|
  {
    hide Enabled, Step;
    if b == [] {
      assert a + b == a;
    } else {
      RunAppend(o, s, a, b[..|b| - 1]);
      assert (a + b)[..|a + b| - 1] == a + b[..|b| - 1];
    }
  }

  /** A run written out state by state. */
  predicate Chain(o: Options, states: seq<State>, acts: seq<Action>) {
    && |states| == |acts| + 1
    && forall i :: 0 <= i < |acts| ==>
         Enabled(states[i], acts[i]) && Step(o, states[i], acts[i]) == states[i + 1]
  }

  lemma {:induction false} ChainRuns(o: Options, states: seq<State>, acts: seq<Action>)
    requires Chain(o, states, acts)
    ensures Run(o, states[0], acts) == Some(states[|acts|])
    decreases |acts|
  {
    hide Enabled, Step;
    if acts != [] {
      ChainRuns(o, states[..|acts|], acts[..|acts| - 1]);
    }
  }
}
