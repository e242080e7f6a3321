/** From the log file to a replica's store: the listener of src/replica/server.cpp, the wire, and the
    receive loop of src/replica/replicate.cpp. */
module Replication {
  import opened ByteStrings
  import opened Resp
  import opened Recovery
  import opened Store
  import opened StoreLaws
  import opened Protocol
  import opened Writer
  import opened WriterLaws

  // ---------- what a listener may be handed ----------

  /** A run over a file that held whole frames, in which every accepted payload was a frame. */
  ghost predicate FramedRun(o: Options, before: seq<Command>, acts: seq<Action>, added: seq<Command>) {
    && NoFailure(acts)
    && AllStorable(before + added)
    && Run(o, Start(LogBytes(before)), acts).Some?
    && Run(o, Start(LogBytes(before)), acts).value.log.accepted == Frames(added)
  }

  lemma FramedBoundary(l: Log, before: seq<Command>, added: seq<Command>, k: nat)
    requires l.initial == LogBytes(before) && l.accepted == Frames(added) && k <= |added|
    ensures Boundary(l, k) == |LogBytes((before + added)[..|before| + k])|
  {
    hide Concat, Serialize;
    LogBytesSplit(added, k);
    FramesAppend(before, added[..k]);
    assert before + added[..k] == (before + added)[..|before| + k];
  }

  lemma FramedFile(l: Log, before: seq<Command>, added: seq<Command>)
    requires l.initial == LogBytes(before) && l.accepted == Frames(added)
    requires Shape(l) && InOrder(l)
    ensures l.file <= LogBytes(before + added)
  {
    hide Concat, Serialize, AllNonEmpty;
    FramesAppend(before, added);
    ConcatSplit(l.accepted, TakenCount(l));
    assert l.initial + (Concat(Taken(l)) + Concat(l.queue))
        == l.initial + Concat(Taken(l)) + Concat(l.queue);
  }

  /** Every value getCurrentOffset can return is a frame boundary, and it never decreases. */
  lemma PublishedIsBoundary(o: Options, before: seq<Command>, acts: seq<Action>, added: seq<Command>)
    requires FramedRun(o, before, acts, added)
    ensures var s := Run(o, Start(LogBytes(before)), acts).value;
            && s.publishedCount <= |added|
            && s.published == |LogBytes((before + added)[..|before| + s.publishedCount])|
  {
    hide Run, LogBytes, ReaderOk, Pressure;
    var s := Run(o, Start(LogBytes(before)), acts).value;
    RunKeepsInv(o, LogBytes(before), acts);
    RunInitial(o, LogBytes(before), acts);
    FramedBoundary(s.log, before, added, s.publishedCount);
  }

  lemma {:induction false} PublishedNeverDecreases(o: Options, file: Bytes, acts: seq<Action>, i: nat)
    requires Run(o, Start(file), acts).Some? && NoFailure(acts) && i <= |acts|
    ensures Run(o, Start(file), acts[..i]).Some?
    ensures Run(o, Start(file), acts[..i]).value.published <= Run(o, Start(file), acts).value.published
    decreases |acts|
  {
    hide Step, Enabled, Inv, Grows;
    if i == |acts| {
      assert acts[..i] == acts;
    } else {
      var prior, a := acts[..|acts| - 1], acts[|acts| - 1];
      assert a in acts;
      PublishedNeverDecreases(o, file, prior, i);
      assert prior[..i] == acts[..i];
      RunKeepsInv(o, file, prior);
      InvStep(o, Run(o, Start(file), prior).value, a);
    }
  }

  /** How many commands bytes read from the j-th boundary on hold. */
  function Handed(all: seq<Command>, j: nat, bytes: nat): nat
    requires j <= |all|
  {
    Fitting(all[j..], bytes)
  }

  /** Listener safety: at any point of any run, even in the middle of a batch, what a listener call
      has read since it loaded the offset, as step k, parses to a contiguous run of logged commands
      that starts exactly at the offset published at that moment, never to a fragment or an invented
      command, and never raises. */
  lemma {:induction false} ListenerSafety(
      o: Options, before: seq<Command>, acts: seq<Action>, added: seq<Command>, id: nat, k: nat)
    requires FramedRun(o, before, acts, added)
    requires k < |acts| && acts[k] == Load(id)
    ensures Run(o, Start(LogBytes(before)), acts[..k]).Some?
    ensures id in Run(o, Start(LogBytes(before)), acts).value.readers
    ensures var r := Run(o, Start(LogBytes(before)), acts).value.readers[id];
            var past := Run(o, Start(LogBytes(before)), acts[..k]).value;
            var all := before + added;
            var j := |before| + past.publishedCount;
            && j <= |all|
            && r.offset == past.published == |LogBytes(all[..j])|
            && var m := Handed(all, j, BytesRead(acts[k + 1..], id));
               && j + m <= |all|
               && Greedy(Concat(r.pieces)).commands == all[j..j + m]
               && !Greedy(Concat(r.pieces)).raised
  {
    hide Run, LogBytes, Greedy, Fitting, Pressure, Boundary, Shape, InOrder, Concat, BytesRead;
    ReaderSinceLoad(o, Start(LogBytes(before)), acts, id, k);
    var s := Run(o, Start(LogBytes(before)), acts).value;
    var r := s.readers[id];
    var all := before + added;
    RunKeepsInv(o, LogBytes(before), acts);
    RunInitial(o, LogBytes(before), acts);
    FramedBoundary(s.log, before, added, r.count);
    FramedFile(s.log, before, added);
    var end := r.offset + |Concat(r.pieces)|;
    assert Concat(r.pieces) == LogBytes(all)[r.offset..end];
    TornSegment(all, |before| + r.count, end);
  }

  // ---------- from commands to messages ----------

  /** The callback indexes parts[1] and parts[2]; shorter SET and DEL commands are out of bounds. */
  predicate Relayable(c: Command) {
    c == [] || ((c[0] == SET ==> |c| >= 3) && (c[0] == DEL ==> |c| >= 2))
  }

  function Relay(c: Command, offset: nat): (out: seq<Message>)
    requires Relayable(c)
    ensures |out| <= 1
  {
    if c == [] then []
    else if c[0] == SET then [FromEntity(INCR_SYNC, Entity(offset, SET, c[1], c[2]))]
    else if c[0] == DEL then [FromEntity(INCR_SYNC, Entity(offset, DEL, c[1], []))]
    else []
  }

  predicate AllRelayable(cs: seq<Command>) {
    forall i :: 0 <= i < |cs| ==> Relayable(cs[i])
  }

  function RelayAll(cs: seq<Command>, offset: nat): seq<Message>
    requires AllRelayable(cs)
  {
    if cs == [] then []
    else RelayAll(cs[..|cs| - 1], offset) + Relay(cs[|cs| - 1], offset)
  }

  /** How many commands come before the first that is out of bounds. */
  function Defined(cs: seq<Command>): (n: nat)
    ensures n <= |cs| && AllRelayable(cs[..n])
  {
    if cs == [] || !Relayable(cs[0]) then 0
    else
      var n := 1 + Defined(cs[1..]);
      assert forall i :: 1 <= i < n ==> cs[..n][i] == cs[1..][..n - 1][i - 1];
      n
  }

  /** One listener call: parse what the reads from the offset return and send every command found.
      A failed send is only reported; what follows is sent after the fragment. The callback has no
      defined meaning on a SET or DEL without its arguments, so nothing is said from there on. */
  method ListenerCall(pass: FilePass, offset: nat, sock: Socket) returns (complete: bool, ghost parts: seq<Bytes>)
    modifies sock
    ensures var cmds := Greedy(Delivered(pass)).commands;
            var msgs := RelayAll(cmds[..Defined(cmds)], offset);
            && complete == AllRelayable(cmds)
            && |parts| == |msgs|
            && sock.wire == old(sock.wire) + Concat(parts)
            && (forall i :: 0 <= i < |msgs| ==> parts[i] <= MessageBytes(msgs[i]))
            && (sock.Steady() ==> sock.wire == old(sock.wire) + Sent(msgs))
  {
    hide Greedy, MessageBytes, Sent, Relay, RelayAll, Relayable, Concat;
    var _, cmds, _ := ReadCommandsFromOffset(pass);
    var i := 0;
    parts := [];
    assert cmds[..0] == [];
    NothingSent(offset);
    ConcatNothing();
    while i < |cmds| && Relayable(cmds[i])
      invariant 0 <= i <= |cmds| && AllRelayable(cmds[..i])
      invariant |parts| == |RelayAll(cmds[..i], offset)|
      invariant sock.wire == old(sock.wire) + Concat(parts)
      invariant forall j :: 0 <= j < |parts| ==> parts[j] <= MessageBytes(RelayAll(cmds[..i], offset)[j])
      invariant sock.Steady() ==> sock.wire == old(sock.wire) + Sent(RelayAll(cmds[..i], offset))
    {
      var out := Relay(cmds[i], offset);
      assert cmds[..i + 1][..i] == cmds[..i] && cmds[..i + 1][i] == cmds[i];
      SentRelayed(cmds[..i + 1], i, offset);
      assert cmds[..i + 1][..i + 1] == cmds[..i + 1];
      if out != [] {
        Assoc(old(sock.wire), Sent(RelayAll(cmds[..i], offset)), MessageBytes(out[0]));
        var ok;
        ghost var k;
        ok, k := sock.SendMessage(out[0]);
        ghost var part := MessageBytes(out[0])[..k];
        Assoc(old(sock.wire), Concat(parts), part);
        ConcatSnoc(parts, part);
        parts := parts + [part];
      }
      i := i + 1;
    }
    DefinedIs(cmds, i);
    complete := i == |cmds|;
  }

  lemma {:induction false} DefinedIs(cmds: seq<Command>, i: nat)
    requires i <= |cmds| && AllRelayable(cmds[..i]) && (i < |cmds| ==> !Relayable(cmds[i]))
    ensures Defined(cmds) == i && (AllRelayable(cmds) <==> i == |cmds|)
    decreases i
  {
    hide Relayable;
    if i == |cmds| { assert cmds[..i] == cmds; }
    if i > 0 {
      assert Relayable(cmds[..i][0]);
      assert cmds[1..][..i - 1] == cmds[..i][1..];
      DefinedIs(cmds[1..], i - 1);
    }
  }


  lemma NothingSent(offset: nat)
    ensures RelayAll([], offset) == [] && Sent(RelayAll([], offset)) == []
  {
  }

  /** The bytes for one more command. */
  lemma {:induction false} SentRelayed(cmds: seq<Command>, i: nat, offset: nat)
    requires AllRelayable(cmds) && i < |cmds|
    ensures var out := Relay(cmds[i], offset);
            && RelayAll(cmds[..i + 1], offset) == RelayAll(cmds[..i], offset) + out
            && Sent(RelayAll(cmds[..i + 1], offset))
              == Sent(RelayAll(cmds[..i], offset)) + if out == [] then [] else MessageBytes(out[0])
  {
    hide MessageBytes, Relay, Relayable;
    var a, b := RelayAll(cmds[..i], offset), Relay(cmds[i], offset);
    assert cmds[..i + 1][..i] == cmds[..i];
    if b == [] {
      assert a + b == a;
    } else {
      assert (a + b)[..|a|] == a;
    }
  }

  // ---------- the replica ----------

  /** A message acts on the store only if it is an INCR_SYNC with a non-empty command. */
  function Acting(m: Message): Option<Entity> {
    var e := DecodeInto(DEFAULT_ENTITY, m.payload).entity;
    if m.kind == INCR_SYNC && e.cmd != [] then Some(e) else None
  }

  function ApplyMessage(db: Db, m: Message): Db {
    match Acting(m)
    case None => db
    case Some(e) => Dispatch(db, e.cmd, e.key, e.value)
  }

  function ApplyAll(db: Db, msgs: seq<Message>): Db {
    if msgs == [] then db
    else ApplyMessage(ApplyAll(db, msgs[..|msgs| - 1]), msgs[|msgs| - 1])
  }

  /** The commands the replica's own log receives. */
  function AppliedLog(m: Message): seq<Command> {
    match Acting(m)
    case None => []
    case Some(e) =>
      if e.cmd == DEL then [[DEL, e.key]]
      else if e.cmd == SET then [[SET, e.key, e.value]]
      else []
  }

  function AppliedLogAll(msgs: seq<Message>): seq<Command> {
    if msgs == [] then [] else AppliedLogAll(msgs[..|msgs| - 1]) + AppliedLog(msgs[|msgs| - 1])
  }

  /** One pass of the loop: the message handled, and the stream it leaves. A failed receive hands
      over the half-filled message all the same. */
  predicate OneRound(stream: Bytes, m: Message, rest: Bytes) {
    && |rest| <= |stream|
    && rest == stream[|stream| - |rest|..]
    && var taken := stream[..|stream| - |rest|];
       Receive(stream) == Some(Receipt(m, rest)) || (Receive(taken) == None && m == HalfFilled(taken))
  }

  /** The messages handled in so many passes if receives fail only at the end of the stream. */
  function Handled(stream: Bytes, rounds: nat): (msgs: seq<Message>)
    ensures |msgs| == rounds
    decreases rounds
  {
    if rounds == 0 then []
    else
      match Receive(stream)
      case Some(r) => [r.msg] + Handled(r.rest, rounds - 1)
      case None => [HalfFilled(stream)] + Handled([], rounds - 1)
  }

  /** startReplica's inner loop for any number of passes; it never looks at the result of
      recvFromSocket, and leaves only if that throws on an announced length. */
  method ReplicaLoop(sock: Socket, store: LevelDBWrapper, rounds: nat)
    returns (threw: bool, ghost handled: seq<Message>, ghost streams: seq<Bytes>)
    modifies sock, store
    ensures |handled| <= rounds && (!threw ==> |handled| == rounds)
    ensures |streams| == |handled| + 1 && streams[0] == old(sock.wire)
    ensures forall i :: 0 <= i < |handled| ==> OneRound(streams[i], handled[i], streams[i + 1])
    ensures if threw then Oversized(streams[|handled|], sock.memory) else streams[rounds] == sock.wire
    ensures store.db == ApplyAll(old(store.db), handled)
    ensures store.log == old(store.log) + AppliedLogAll(handled)
    ensures sock.Steady() && !threw ==> handled == Handled(old(sock.wire), rounds)
    ensures sock.Steady() && Roomy(old(sock.wire), sock.memory) ==> !threw
  {
    hide OneRound, AppliedLog, ApplyMessage, Receive, HalfFilled, AppliedLogAll, ApplyAll, Handled, SteadyRound, Roomy, Oversized;
    NothingApplied(store.db);
    threw, handled, streams := false, [], [sock.wire];
    var i := 0;
    assert [] + Handled(sock.wire, rounds) == Handled(sock.wire, rounds);
    while i < rounds
      invariant 0 <= i <= rounds
      invariant |handled| == i && |streams| == i + 1 && !threw
      invariant streams[0] == old(sock.wire) && streams[i] == sock.wire
      invariant forall j :: 0 <= j < i ==> OneRound(streams[j], handled[j], streams[j + 1])
      invariant store.db == ApplyAll(old(store.db), handled)
      invariant store.log == old(store.log) + AppliedLogAll(handled)
      invariant sock.Steady() ==>
        Handled(old(sock.wire), rounds) == handled + Handled(sock.wire, rounds - i)
      invariant sock.Steady() && Roomy(old(sock.wire), sock.memory) ==> Roomy(sock.wire, sock.memory)
    {
      ghost var before := sock.wire;
      ghost var m;
      threw, m := ReplicaRound(sock, store);
      RoomyRound(before, m, sock.wire, sock.memory);
      if threw { return; }
      HandledMore(handled, before, rounds - i, m, sock.wire);
      AppliedMore(old(store.db), handled, m);
      Assoc(old(store.log), AppliedLogAll(handled), AppliedLog(m));
      handled, streams := handled + [m], streams + [sock.wire];
      i := i + 1;
    }
    assert handled + [] == handled;
  }

  /** What a round does to a stream that fails only at its end. */
  predicate SteadyRound(stream: Bytes, m: Message, rest: Bytes) {
    match Receive(stream)
    case Some(r) => r == Receipt(m, rest)
    case None => m == HalfFilled(stream) && rest == []
  }

  lemma RoomyRound(stream: Bytes, m: Message, rest: Bytes, memory: nat)
    ensures Roomy(stream, memory) ==> !Oversized(stream, memory)
    ensures Roomy(stream, memory) && SteadyRound(stream, m, rest) ==> Roomy(rest, memory)
  {
    hide Receive, HalfFilled;
    NothingIsRoomy(memory);
  }

  lemma NothingIsRoomy(memory: nat)
    ensures Roomy([], memory)
  {
  }

  method ReplicaRound(sock: Socket, store: LevelDBWrapper) returns (threw: bool, ghost m: Message)
    modifies sock, store
    ensures threw ==> Oversized(old(sock.wire), sock.memory) && store.db == old(store.db) && store.log == old(store.log)
    ensures !threw ==>
      && OneRound(old(sock.wire), m, sock.wire)
      && store.db == ApplyMessage(old(store.db), m)
      && store.log == old(store.log) + AppliedLog(m)
      && (sock.Steady() ==> SteadyRound(old(sock.wire), m, sock.wire))
  {
    hide OneRound, AppliedLog, ApplyMessage, Receive, HalfFilled, Oversized;
    ghost var used;
    var ok, header;
    ok, threw, header, used := sock.RecvMessage();
    m := header;
    if threw { return; }
    RoundTaken(old(sock.wire), ok, header, used);
    assert used == |old(sock.wire)| ==> old(sock.wire)[..used] == old(sock.wire);
    HandleMessage(header, store);
  }

  lemma NothingApplied(db: Db)
    ensures ApplyAll(db, []) == db && AppliedLogAll([]) == [] && forall s: Bytes :: Handled(s, 0) == []
  {
  }

  lemma AppliedMore(db: Db, msgs: seq<Message>, m: Message)
    ensures ApplyAll(db, msgs + [m]) == ApplyMessage(ApplyAll(db, msgs), m)
    ensures AppliedLogAll(msgs + [m]) == AppliedLogAll(msgs) + AppliedLog(m)
  {
    hide ApplyMessage, AppliedLog;
    assert (msgs + [m])[..|msgs|] == msgs;
  }

  lemma RoundTaken(stream: Bytes, ok: bool, m: Message, used: nat)
    requires used <= |stream|
    requires ok ==> Receive(stream) == Some(Receipt(m, stream[used..]))
    requires !ok ==> Receive(stream[..used]) == None && m == HalfFilled(stream[..used])
    ensures OneRound(stream, m, stream[used..])
  {
    hide Receive, HalfFilled;
    assert |stream| - |stream[used..]| == used;
  }

  lemma HandledMore(done: seq<Message>, stream: Bytes, left: nat, m: Message, rest: Bytes)
    requires left > 0
    ensures SteadyRound(stream, m, rest) ==>
      done + Handled(stream, left) == done + [m] + Handled(rest, left - 1)
  {
    hide Receive, HalfFilled;
    assert done + ([m] + Handled(rest, left - 1)) == done + [m] + Handled(rest, left - 1);
  }

  method HandleMessage(m: Message, store: LevelDBWrapper)
    modifies store
    ensures store.db == ApplyMessage(old(store.db), m)
    ensures store.log == old(store.log) + AppliedLog(m)
  {
    hide DecodeInto;
    if m.kind == INCR_SYNC {
      var entry := new DataEntity();
      var _ := entry.Deserialize(m.payload);
      if entry.cmd == [] { return; }
      if entry.cmd == DEL {
        var _ := store.Remove(entry.key, 0);
      } else if entry.cmd == SET {
        var _ := store.Put(entry.key, entry.value, 0);
      }
    }
  }

  /** Heartbeats, acknowledgements and every other kind of message are ignored, and so is an entity
      without a command. */
  lemma OtherKindsIgnored(db: Db, m: Message)
    requires m.kind != 2 || DecodeInto(DEFAULT_ENTITY, m.payload).entity.cmd == []
    ensures ApplyMessage(db, m) == db && AppliedLog(m) == []
  {
  }

  /** An INCR_SYNC acts through whatever fields its payload assigned, decoded in full or not. */
  lemma CutPayloadActs(db: Db, e: Entity, n: nat, m: Message)
    requires Fits(e) && n < |EntityBytes(e)| && m.kind == 2 && m.payload == EntityBytes(e)[..n]
    ensures var c, k := |e.cmd|, |e.key|;
            ApplyMessage(db, m)
              == if n < 12 + c || c == 0 then db
                 else Dispatch(db, e.cmd, if n >= 16 + c + k then e.key else [], [])
  {
    hide EntityBytes, DecodeInto;
    CutEntity(DEFAULT_ENTITY, e, n);
  }

  /** The replica's own log replays to its store, whatever arrives. */
  lemma {:induction false} AppliedIsLogged(db: Db, msgs: seq<Message>)
    ensures ApplyAll(db, msgs) == Replay(db, AppliedLogAll(msgs))
    decreases |msgs|
  {
    hide ApplyMessage, AppliedLog;
    if msgs != [] {
      var front, last := msgs[..|msgs| - 1], msgs[|msgs| - 1];
      AppliedIsLogged(db, front);
      OneAppliedIsLogged(ApplyAll(db, front), last);
      ReplayAppend(db, AppliedLogAll(front), AppliedLog(last));
    }
  }

  lemma OneAppliedIsLogged(db: Db, m: Message)
    ensures |AppliedLog(m)| <= 1 && ApplyMessage(db, m) == Replay(db, AppliedLog(m))
  {
    hide DecodeInto;
    var log := AppliedLog(m);
    if log != [] {
      assert log[..0] == [];
      assert Replay(db, log) == Execute(db, log[0]);
    }
  }

  // ---------- end to end ----------

  predicate Replicable(c: Command) {
    Relayable(c) && forall i :: 0 <= i < |c| ==> |c[i]| < TWO_32
  }

  predicate AllReplicable(cs: seq<Command>) {
    forall i :: 0 <= i < |cs| ==> Replicable(cs[i])
  }

  /** Every field of an entity arrives, its full 64-bit sequence included. */
  lemma EntityArrives(db: Db, e: Entity)
    requires Fits(e) && e.cmd != []
    ensures Acting(Arrived(FromEntity(INCR_SYNC, e))) == Some(e)
    ensures ApplyMessage(db, Arrived(FromEntity(INCR_SYNC, e))) == Dispatch(db, e.cmd, e.key, e.value)
    ensures |EntityBytes(e)| < TWO_64 ==> InStep(FromEntity(INCR_SYNC, e))
  {
    hide EntityBytes, DecodeInto;
    assert EntityBytes(e) + [] == EntityBytes(e);
    EntityRoundTripExactly(DEFAULT_ENTITY, e, []);
  }

  lemma EntitySize(e: Entity)
    requires Fits(e)
    ensures |EntityBytes(e)| < TWO_64
  {
    hide BigEndian;
  }

  /** Relaying one command and applying what arrives is executing the command. */
  lemma RelayExecutes(db: Db, c: Command, offset: nat)
    requires Replicable(c) && offset < TWO_64
    ensures |Relay(c, offset)| <= 1
    ensures ApplyAll(db, ArrivedAll(Relay(c, offset))) == Execute(db, c)
    ensures forall i :: 0 <= i < |Relay(c, offset)| ==> InStep(Relay(c, offset)[i])
  {
    hide ApplyMessage, Arrived, FromEntity, InStep;
    if c != [] && (c[0] == SET || c[0] == DEL) {
      var e := if c[0] == SET then Entity(offset, SET, c[1], c[2]) else Entity(offset, DEL, c[1], []);
      EntityArrives(db, e);
      EntitySize(e);
      var msgs := ArrivedAll(Relay(c, offset));
      assert Relay(c, offset) == [FromEntity(INCR_SYNC, e)];
      assert msgs[..0] == [];
      assert ApplyAll(db, msgs) == ApplyMessage(db, msgs[0]);
    }
  }

  lemma {:induction false} RelayAllExecutes(db: Db, cs: seq<Command>, offset: nat)
    requires AllReplicable(cs) && offset < TWO_64
    ensures AllRelayable(cs)
    ensures ApplyAll(db, ArrivedAll(RelayAll(cs, offset))) == Replay(db, cs)
    ensures forall i :: 0 <= i < |RelayAll(cs, offset)| ==> InStep(RelayAll(cs, offset)[i])
    decreases |cs|
  {
    hide ApplyMessage, Arrived, InStep, Relay, Execute, Replicable, Relayable, ArrivedAll, ApplyAll;
    assert AllRelayable(cs) by { ReplicableIsRelayable(cs); }
    if cs == [] {
      NothingToApply(db);
    } else {
      var front, last := cs[..|cs| - 1], cs[|cs| - 1];
      RelayAllExecutes(db, front, offset);
      RelayExecutes(Replay(db, front), last, offset);
      var a, b := RelayAll(front, offset), Relay(last, offset);
      ApplyAppend(db, ArrivedAll(a), ArrivedAll(b));
      ArrivedAppend(a, b);
    }
  }

  lemma ReplicableIsRelayable(cs: seq<Command>)
    requires AllReplicable(cs)
    ensures AllRelayable(cs)
  {
    hide Relayable;
  }

  lemma NothingToApply(db: Db)
    ensures ApplyAll(db, ArrivedAll([])) == db
  {
  }

  lemma ArrivedAppend(a: seq<Message>, b: seq<Message>)
    ensures ArrivedAll(a + b) == ArrivedAll(a) + ArrivedAll(b)
  {
    hide Arrived;
  }

  lemma ApplyAppend(db: Db, a: seq<Message>, b: seq<Message>)
    requires |b| <= 1
    ensures ApplyAll(db, a + b) == ApplyAll(ApplyAll(db, a), b)
  {
    hide ApplyMessage;
    if b == [] {
      assert a + b == a;
    } else {
      assert (a + b)[..|a|] == a;
      assert b[..0] == [];
    }
  }

  /** The entities that act on the store, in order. */
  function ActingAll(msgs: seq<Message>): seq<Entity> {
    if msgs == [] then []
    else
      var front := ActingAll(msgs[..|msgs| - 1]);
      match Acting(msgs[|msgs| - 1])
      case None => front
      case Some(e) => front + [e]
  }

  predicate IsSetOrDel(c: Command) {
    c != [] && (c[0] == SET || c[0] == DEL)
  }

  /** What arrives for one command: nothing, or one entity with the offset the listener loaded, the
      command's name and key, and a SET's value. */
  lemma RelayCarries(c: Command, offset: nat)
    requires Replicable(c) && offset < TWO_64
    ensures |Relay(c, offset)| == if IsSetOrDel(c) then 1 else 0
    ensures IsSetOrDel(c) ==>
      && |c| >= 2
      && var e := Acting(Arrived(Relay(c, offset)[0]));
         && Arrived(Relay(c, offset)[0]).offset == offset % 256 * 0x100_0000_0000_0000
         && e.Some? && e.value.sequence == offset && e.value.cmd == c[0] && e.value.key == c[1]
         && (c[0] == SET ==> |c| >= 3 && e.value.value == c[2])
         && (c[0] == DEL ==> e.value.value == [])
  {
    hide Acting, EntityBytes;
    if IsSetOrDel(c) {
      var e := if c[0] == SET then Entity(offset, SET, c[1], c[2]) else Entity(offset, DEL, c[1], []);
      EntityArrives(map[], e);
      assert Relay(c, offset) == [FromEntity(INCR_SYNC, e)];
    }
  }

  /** Entity e is what command c, read by a listener call at the offset, stands for. */
  predicate Carries(e: Entity, c: Command, offset: nat) {
    && IsSetOrDel(c) && Relayable(c)
    && e.sequence == offset && e.cmd == c[0] && e.key == c[1]
    && e.value == if c[0] == SET then c[2] else []
  }

  /** Entities and the SET and DEL commands among cs match one by one. */
  ghost predicate CarriesAll(es: seq<Entity>, cs: seq<Command>, offset: nat)
    decreases |cs|
  {
    if cs == [] then es == []
    else
      var front, last := cs[..|cs| - 1], cs[|cs| - 1];
      if IsSetOrDel(last) then
        es != [] && Carries(es[|es| - 1], last, offset) && CarriesAll(es[..|es| - 1], front, offset)
      else CarriesAll(es, front, offset)
  }

  /** A whole listener call: every SET and DEL arrives once, in order, with the call's offset. */
  lemma {:induction false} RelayAllCarries(cs: seq<Command>, offset: nat)
    requires AllReplicable(cs) && offset < TWO_64
    ensures AllRelayable(cs) && CarriesAll(ActingAll(ArrivedAll(RelayAll(cs, offset))), cs, offset)
    decreases |cs|
  {
    hide Acting, Arrived, Relay, Replicable, Relayable, Carries, IsSetOrDel, ArrivedAll;
    assert AllRelayable(cs) by { ReplicableIsRelayable(cs); }
    if cs == [] {
      assert ArrivedAll([]) == [];
    } else {
      var front, last := cs[..|cs| - 1], cs[|cs| - 1];
      RelayAllCarries(front, offset);
      RelayCarries(last, offset);
      if IsSetOrDel(last) { OneCarries(last, offset); }
      var a, b := RelayAll(front, offset), Relay(last, offset);
      ArrivedAppend(a, b);
      if b == [] {
        assert a + b == a;
      } else {
        var all := ArrivedAll(a + b);
        assert all == ArrivedAll(a) + [Arrived(b[0])] by { ArrivedOne(b); }
        assert all[..|all| - 1] == ArrivedAll(a);
        var es := ActingAll(ArrivedAll(a));
        assert (es + [Acting(Arrived(b[0])).value])[..|es|] == es;
      }
    }
  }

  lemma ArrivedOne(b: seq<Message>)
    requires |b| == 1
    ensures ArrivedAll(b) == [Arrived(b[0])]
  {
    hide Arrived;
  }

  lemma OneCarries(c: Command, offset: nat)
    requires Replicable(c) && offset < TWO_64 && IsSetOrDel(c)
    ensures |Relay(c, offset)| == 1 && Acting(Arrived(Relay(c, offset)[0])).Some?
    ensures Carries(Acting(Arrived(Relay(c, offset)[0])).value, c, offset)
  {
    hide Acting, Arrived, Relay;
    RelayCarries(c, offset);
  }

  /** End to end: what a listener call read, sent over the wire in any segmentation and applied by
      the replica, has the effect of replaying a contiguous run of the logged commands from the
      offset published when the call began, and every entity carries that offset. */
  lemma {:induction false} ReplicaReplaysLoggedRun(
      o: Options, before: seq<Command>, acts: seq<Action>, added: seq<Command>, id: nat, k: nat, db: Db)
    requires FramedRun(o, before, acts, added) && AllReplicable(before + added)
    requires k < |acts| && acts[k] == Load(id) && Run(o, Start(LogBytes(before)), acts[..k]).Some?
    requires Run(o, Start(LogBytes(before)), acts[..k]).value.published < TWO_64
    ensures id in Run(o, Start(LogBytes(before)), acts).value.readers
    ensures var r := Run(o, Start(LogBytes(before)), acts).value.readers[id];
            var past := Run(o, Start(LogBytes(before)), acts[..k]).value;
            var all := before + added;
            var j := |before| + past.publishedCount;
            var cmds := Greedy(Concat(r.pieces)).commands;
            && j <= |all| && past.published == |LogBytes(all[..j])|
            && var m := Handed(all, j, BytesRead(acts[k + 1..], id));
               && j + m <= |all|
               && AllRelayable(cmds)
               && var received := ReceiveAll(Sent(RelayAll(cmds, r.offset)));
                  && ApplyAll(db, received) == Replay(db, all[j..j + m])
                  && CarriesAll(ActingAll(received), all[j..j + m], past.published)
  {
    hide Run, LogBytes, Greedy, Handed, ReceiveAll, Receive, ApplyAll, Replay, RelayAll, Replicable, Sent, InStep, Concat, Frames, BytesRead, ActingAll, CarriesAll;
    ListenerSafety(o, before, acts, added, id, k);
    var r := Run(o, Start(LogBytes(before)), acts).value.readers[id];
    var cmds := Greedy(Concat(r.pieces)).commands;
    RelayAllExecutes(db, cmds, r.offset);
    RelayAllCarries(cmds, r.offset);
    var msgs := RelayAll(cmds, r.offset);
    StreamInStep(msgs, []);
    assert Sent(msgs) + [] == Sent(msgs);
    NothingToReceive();
    assert ArrivedAll(msgs) + [] == ArrivedAll(msgs);
  }
}
