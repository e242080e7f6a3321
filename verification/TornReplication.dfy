/** What a replica does with a connection that is cut inside a message: the receive loop never looks
    at the result of the receive, so the half-filled message is handled like any other. */
module TornReplication {
  import opened ByteStrings
  import opened Resp
  import opened Recovery
  import opened Store
  import opened Protocol
  import opened Replication

  // ---------- the end of the stream ----------

  lemma {:induction false} ApplyCons(db: Db, m: Message, msgs: seq<Message>)
    ensures ApplyAll(db, [m] + msgs) == ApplyAll(ApplyMessage(db, m), msgs)
    decreases |msgs|
  {
    hide ApplyMessage;
    if msgs == [] {
      assert [m] + msgs == [] + [m];
      AppliedMore(db, [], m);
    } else {
      var front, last := msgs[..|msgs| - 1], msgs[|msgs| - 1];
      ApplyCons(db, m, front);
      AppliedMore(db, [m] + front, last);
      assert [m] + msgs == [m] + front + [last];
    }
  }

  /** Once the stream has ended, every further pass sees a default message and does nothing. */
  lemma {:induction false} EndIsInert(db: Db, rounds: nat)
    ensures ApplyAll(db, Handled([], rounds)) == db
  {
    hide ApplyAll;
    NothingApplied(db);
    if rounds > 0 {
      assert Receive([]) == None;
      ApplyCons(db, HalfFilled([]), Handled([], rounds - 1));
      EndIsInert(db, rounds - 1);
    }
  }

  /** Over a whole connection the replica applies the complete messages and then, once, whatever the
      last receive left half filled. */
  lemma {:induction false} EndOfStream(db: Db, stream: Bytes, rounds: nat)
    requires rounds > |ReceiveAll(stream)|
    ensures ApplyAll(db, Handled(stream, rounds))
         == ApplyMessage(ApplyAll(db, ReceiveAll(stream)), HalfFilled(Leftover(stream)))
    decreases |stream|
  {
    hide ApplyAll, ApplyMessage, Receive, HalfFilled;
    NothingApplied(db);
    match Receive(stream)
    case Some(r) =>
      var next := ApplyMessage(db, r.msg);
      EndOfStream(next, r.rest, rounds - 1);
      ApplyCons(db, r.msg, Handled(r.rest, rounds - 1));
      ApplyCons(db, r.msg, ReceiveAll(r.rest));
    case None =>
      ApplyCons(db, HalfFilled(stream), Handled([], rounds - 1));
      EndIsInert(ApplyMessage(db, HalfFilled(stream)), rounds - 1);
  }

  /** A connection that ends between messages applies exactly those. */
  lemma WholeConnection(db: Db, msgs: seq<Message>, rounds: nat)
    requires (forall i :: 0 <= i < |msgs| ==> InStep(msgs[i])) && rounds > |msgs|
    ensures ApplyAll(db, Handled(Sent(msgs), rounds)) == ApplyAll(db, ArrivedAll(msgs))
  {
    hide ApplyAll, Sent, Receive, InStep, Arrived, Handled;
    StreamInStep(msgs, []);
    NothingToReceive();
    assert Sent(msgs) + [] == Sent(msgs);
    assert ArrivedAll(msgs) + [] == ArrivedAll(msgs);
    EndOfStream(db, Sent(msgs), rounds);
    EmptyLeftover(ApplyAll(db, ArrivedAll(msgs)));
  }

  lemma EmptyLeftover(db: Db)
    ensures Leftover([]) == [] && ApplyMessage(db, HalfFilled([])) == db
  {
    assert Receive([]) == None;
  }

  /** A connection cut after n bytes of message m applies the complete messages before it, and then
      m as far as it arrived, zero-filled. */
  lemma CutConnection(db: Db, msgs: seq<Message>, m: Message, n: nat, rounds: nat)
    requires (forall i :: 0 <= i < |msgs| ==> InStep(msgs[i])) && rounds > |msgs|
    requires InStep(m) && n < |MessageBytes(m)|
    ensures ApplyAll(db, Handled(Sent(msgs) + MessageBytes(m)[..n], rounds))
         == ApplyMessage(ApplyAll(db, ArrivedAll(msgs)), HalfFilled(MessageBytes(m)[..n]))
  {
    hide ApplyAll, ApplyMessage, Sent, Receive, InStep, Arrived, Handled, HalfFilled, MessageBytes;
    TornStream(msgs, m, n);
    EndOfStream(db, Sent(msgs) + MessageBytes(m)[..n], rounds);
  }

  // ---------- a cut INCR_SYNC ----------

  /** The payload of a half-filled message: what arrived, then zeros. */
  function ZeroFilled(full: Bytes, k: nat): (data: Bytes)
    requires k <= |full|
    ensures |data| == |full|
    ensures forall i :: 0 <= i < |full| ==> data[i] == if i < k then full[i] else 0
  {
    full[..k] + Zeros(|full| - k)
  }

  lemma HalfOf(m: Message, n: nat)
    requires InStep(m) && 12 <= n < |MessageBytes(m)|
    ensures HalfFilled(MessageBytes(m)[..n]).kind == m.kind
    ensures HalfFilled(MessageBytes(m)[..n]).payload == ZeroFilled(m.payload, n - 12)
  {
    hide Header, FromBigEndian;
    HeaderPieces(m);
    var cut := MessageBytes(m)[..n];
    assert cut[4..12] == Header(m)[4..12];
    assert cut[12..] == m.payload[..n - 12];
    assert cut[0] == Header(m)[0];
  }

  /** Every field of the half-filled message, wherever the cut is. */
  lemma HalfFields(m: Message, n: nat)
    requires InStep(m) && n < |MessageBytes(m)|
    ensures HalfFilled(MessageBytes(m)[..n])
         == Message(if n >= 1 then m.kind else ACK,
                    if n >= 4 then 0 else 0x9798,
                    0,
                    if n >= 2 then m.offset % 256 * 0x100_0000_0000_0000 else 0,
                    if n >= 12 then ZeroFilled(m.payload, n - 12) else [])
  {
    hide Header, FromBigEndian;
    HeaderPieces(m);
    var cut := MessageBytes(m)[..n];
    if n >= 1 { assert cut[0] == Header(m)[0]; }
    if n >= 2 { assert cut[1] == Header(m)[1]; }
    if n >= 12 { HalfOf(m, n); }
  }

  /** The first fields of a SET or DEL entity's bytes. */
  lemma CommandBytes(e: Entity)
    requires |e.cmd| == 3
    ensures var full := EntityBytes(e);
            |full| >= 23 && full[8..12] == [0, 0, 0, 3] && full[12..15] == e.cmd
  {
    hide BigEndian;
    var full := EntityBytes(e);
    assert HasAt(full, 0, full);
    HasAtSplit(full, 0, BigEndian(8, e.sequence) + Field(e.cmd) + Field(e.key), Field(e.value));
    HasAtSplit(full, 0, BigEndian(8, e.sequence) + Field(e.cmd), Field(e.key));
    HasAtSplit(full, 0, BigEndian(8, e.sequence), Field(e.cmd));
    HasAtSplit(full, 8, BigEndian(4, 3), e.cmd);
    ThreeInFour();
  }

  lemma ThreeInFour()
    ensures BigEndian(4, 3) == [0, 0, 0, 3]
  {
    assert BigEndian(1, 0) == [0];
    assert BigEndian(2, 0) == [0, 0];
    assert BigEndian(3, 0) == [0, 0, 0];
  }

  lemma FourBytes(s: Bytes)
    requires |s| == 4 && s[0] == 0 && s[1] == 0 && s[2] == 0
    ensures FromBigEndian(s) == s[3] as int
  {
    var a, b, c: Bytes := [0], [0, 0], [0, 0, 0];
    assert a[..0] == [] && FromBigEndian(a) == 0;
    assert b[..1] == a && FromBigEndian(b) == 0;
    assert c[..2] == b && FromBigEndian(c) == 0;
    assert s[..3] == c;
  }

  /** The command field of a zero-filled entity: empty before its length arrived, then itself with
      zeros for the missing bytes. */
  lemma CutCommand(e: Entity, k: nat)
    requires |e.cmd| == 3 && k < |EntityBytes(e)|
    ensures var data := ZeroFilled(EntityBytes(e), k);
            ReadField(data, 8) == if k < 12 then Some(Blob([], 12)) else Some(Blob(data[12..15], 15))
    ensures k >= 15 ==> ZeroFilled(EntityBytes(e), k)[12..15] == e.cmd
    ensures 12 <= k < 15 ==> ZeroFilled(EntityBytes(e), k)[14] == 0
  {
    hide EntityBytes, FromBigEndian, BigEndian;
    CommandBytes(e);
    var full, data := EntityBytes(e), ZeroFilled(EntityBytes(e), k);
    var len := data[8..12];
    assert full[8] == full[8..12][0] && full[9] == full[8..12][1]
        && full[10] == full[8..12][2] && full[11] == full[8..12][3];
    FourBytes(len);
    assert data[12..12] == [];
    if k >= 15 {
      assert data[12..15] == full[12..15];
    }
  }

  predicate IsWrite(e: Entity) {
    e.cmd == SET || e.cmd == DEL
  }

  /** The bytes of a message up to and including a three-byte command. */
  const THROUGH_COMMAND: nat := 12 + 8 + 4 + 3

  /** The length of an entity's message on the wire. */
  function WireLength(e: Entity): (n: nat)
    ensures n == |MessageBytes(FromEntity(INCR_SYNC, e))|
  {
    12 + 8 + 4 + |e.cmd| + 4 + |e.key| + 4 + |e.value|
  }

  lemma CutActs(e: Entity, n: nat)
    requires Fits(e) && IsWrite(e) && n < WireLength(e)
    ensures var half := HalfFilled(MessageBytes(FromEntity(INCR_SYNC, e))[..n]);
            && (n < THROUGH_COMMAND ==> Acting(half).None? || !IsWrite(Acting(half).value))
            && (n >= THROUGH_COMMAND ==> Acting(half).Some? && Acting(half).value.cmd == e.cmd)
  {
    hide EntityBytes, FromBigEndian, BigEndian, ReadField, MessageBytes, HalfFilled;
    var m := FromEntity(INCR_SYNC, e);
    EntitySize(e);
    MessageSize(m);
    if n < 12 {
      ShortHalf(MessageBytes(m)[..n]);
    } else {
      HalfOf(m, n);
      CutCommand(e, n - 12);
      CommandBytes(e);
    }
  }

  lemma MessageSize(m: Message)
    ensures |MessageBytes(m)| == 12 + |m.payload|
  {
  }

  lemma ShortHalf(cut: Bytes)
    requires |cut| < 12
    ensures HalfFilled(cut).payload == []
  {
  }

  /** A replica whose connection is cut after n bytes of an INCR_SYNC for a SET or DEL leaves every
      store alone exactly if the cut comes before the end of the command name. */
  lemma CutHarmlessExactly(e: Entity, n: nat)
    requires Fits(e) && IsWrite(e) && n < WireLength(e)
    ensures (forall db :: ApplyMessage(db, HalfFilled(MessageBytes(FromEntity(INCR_SYNC, e))[..n])) == db)
       <==> n < THROUGH_COMMAND
  {
    hide EntityBytes, MessageBytes, HalfFilled, Acting, FromEntity;
    CutActs(e, n);
    var half := HalfFilled(MessageBytes(FromEntity(INCR_SYNC, e))[..n]);
    if n >= THROUGH_COMMAND {
      var got := Acting(half).value;
      var db: Db := if e.cmd == SET then map[] else map[got.key := []];
      assert got.key in db <==> e.cmd == DEL;
      assert got.key in ApplyMessage(db, half) <==> e.cmd == SET;
      assert ApplyMessage(db, half) != db;
    }
  }

  lemma ZerosRead(data: Bytes, off: nat)
    requires off + 4 <= |data| && forall i :: off <= i < off + 4 ==> data[i] == 0
    ensures ReadField(data, off) == Some(Blob([], off + 4))
  {
    hide FromBigEndian;
    FourBytes(data[off..off + 4]);
    assert data[off + 4..off + 4] == [];
  }

  /** Cut right after the command name, every SET becomes a put of the empty value at the empty key
      and every DEL a removal of the empty key: commands nobody issued. */
  lemma CutAfterCommand(db: Db, e: Entity)
    requires Fits(e) && IsWrite(e)
    ensures THROUGH_COMMAND < |MessageBytes(FromEntity(INCR_SYNC, e))|
    ensures ApplyMessage(db, HalfFilled(MessageBytes(FromEntity(INCR_SYNC, e))[..THROUGH_COMMAND]))
         == Dispatch(db, e.cmd, [], [])
  {
    hide EntityBytes, FromBigEndian, BigEndian, ReadField, MessageBytes, HalfFilled;
    var m := FromEntity(INCR_SYNC, e);
    EntitySize(e);
    MessageSize(m);
    CommandBytes(e);
    HalfOf(m, THROUGH_COMMAND);
    CutCommand(e, 15);
    var data := ZeroFilled(EntityBytes(e), 15);
    ZerosRead(data, 15);
    ZerosRead(data, 19);
  }

  /** Cut inside the value, a SET stores the value with zeros for its missing end. */
  lemma CutInsideValue(db: Db, e: Entity, r: nat)
    requires Fits(e) && e.cmd == SET && r < |e.value|
    ensures var n := THROUGH_COMMAND + 4 + |e.key| + 4 + r;
            && n < |MessageBytes(FromEntity(INCR_SYNC, e))|
            && ApplyMessage(db, HalfFilled(MessageBytes(FromEntity(INCR_SYNC, e))[..n]))
                 == PutDb(db, e.key, ZeroFilled(e.value, r))
  {
    hide FromBigEndian, BigEndian, ReadField, MessageBytes, HalfFilled, DecodeInto;
    var m := FromEntity(INCR_SYNC, e);
    var n := THROUGH_COMMAND + 4 + |e.key| + 4 + r;
    EntitySize(e);
    MessageSize(m);
    HalfOf(m, n);
    var got := e.(value := ZeroFilled(e.value, r));
    ZeroFilledTail(BigEndian(8, e.sequence) + Field(e.cmd) + Field(e.key) + BigEndian(4, |e.value| % TWO_32),
                   e.value, r);
    Assoc(BigEndian(8, e.sequence) + Field(e.cmd) + Field(e.key), BigEndian(4, |e.value| % TWO_32), e.value);
    Assoc(BigEndian(8, e.sequence) + Field(e.cmd) + Field(e.key), BigEndian(4, |e.value| % TWO_32), got.value);
    assert ZeroFilled(EntityBytes(e), n - 12) == EntityBytes(got);
    assert HasAt(EntityBytes(got), 0, EntityBytes(got));
    DecodeOfBytes(DEFAULT_ENTITY, got, EntityBytes(got));
  }

  lemma ZeroFilledTail(a: Bytes, b: Bytes, r: nat)
    requires r <= |b|
    ensures ZeroFilled(a + b, |a| + r) == a + ZeroFilled(b, r)
  {
  }

  // ---------- listener to replica ----------

  lemma {:induction false} HandledSent(msgs: seq<Message>, more: Bytes, rounds: nat)
    requires (forall i :: 0 <= i < |msgs| ==> InStep(msgs[i])) && rounds >= |msgs|
    ensures Handled(Sent(msgs) + more, rounds) == ArrivedAll(msgs) + Handled(more, rounds - |msgs|)
    decreases |msgs|
  {
    hide Receive, MessageBytes, Arrived, HalfFilled;
    if msgs == [] {
      assert Sent(msgs) + more == more;
    } else {
      var front, last := msgs[..|msgs| - 1], msgs[|msgs| - 1];
      HandledSent(front, MessageBytes(last) + more, rounds);
      ReceiveOfMessage(last, more);
      assert Sent(msgs) + more == Sent(front) + (MessageBytes(last) + more);
      var tail := Handled(more, rounds - |msgs|);
      assert ArrivedAll(front) + ([Arrived(last)] + tail) == ArrivedAll(msgs) + tail;
    }
  }

  lemma {:induction false} NothingActs(msgs: seq<Message>, rounds: nat)
    ensures ActingAll(msgs + Handled([], rounds)) == ActingAll(msgs)
    decreases rounds
  {
    hide ActingAll;
    var idle := HalfFilled([]);
    assert Receive([]) == None && Acting(idle).None?;
    if rounds == 0 {
      assert msgs + [] == msgs;
    } else {
      NothingActs(msgs + [idle], rounds - 1);
      assert msgs + ([idle] + Handled([], rounds - 1)) == msgs + [idle] + Handled([], rounds - 1);
      assert ActingAll(msgs + [idle]) == ActingAll(msgs) by { ActingSnoc(msgs, idle); }
    }
  }

  lemma ActingSnoc(msgs: seq<Message>, m: Message)
    requires Acting(m).None?
    ensures ActingAll(msgs + [m]) == ActingAll(msgs)
  {
    hide Acting;
    assert (msgs + [m])[..|msgs|] == msgs;
  }

  /** One listener call over an idle connection to the replica's loop, calls not failing: the store
      ends up as after executing the commands read, and the entities that acted on it are those
      commands, each with the offset of the call. */
  method ListenerToReplica(pass: FilePass, offset: nat, sock: Socket, store: LevelDBWrapper, rounds: nat)
    returns (ghost handled: seq<Message>)
    requires sock.wire == [] && sock.Steady() && offset < TWO_64
    requires AllReplicable(Greedy(Delivered(pass)).commands)
    requires rounds > |Greedy(Delivered(pass)).commands|
    requires forall c :: c in Greedy(Delivered(pass)).commands ==> CommandSize(c) <= sock.memory
    modifies sock, store
    ensures store.db == Replay(old(store.db), Greedy(Delivered(pass)).commands)
    ensures store.db == ApplyAll(old(store.db), handled)
    ensures CarriesAll(ActingAll(handled), Greedy(Delivered(pass)).commands, offset)
  {
    hide Greedy, Delivered, Defined, ApplyAll, Replay, Handled, Sent, ReceiveAll, Replicable, InStep, AppliedLogAll, RelayAll, ActingAll, CarriesAll;
    ghost var cmds := Greedy(Delivered(pass)).commands;
    RelayAllExecutes(store.db, cmds, offset);
    RelayAllCarries(cmds, offset);
    ghost var msgs := RelayAll(cmds, offset);
    RelayAllCount(cmds, offset);
    var complete;
    ghost var parts;
    complete, parts := ListenerCall(pass, offset, sock);
    AllDefined(cmds);
    assert [] + Sent(msgs) == Sent(msgs);
    WholeConnection(store.db, msgs, rounds);
    HandledSent(msgs, [], rounds);
    NothingActs(ArrivedAll(msgs), rounds - |msgs|);
    assert Sent(msgs) + [] == Sent(msgs);
    RelayAllSizes(cmds, offset, sock.memory);
    NothingIsRoomy(sock.memory);
    SentIsRoomy(msgs, [], sock.memory);
    var threw;
    ghost var streams;
    threw, handled, streams := ReplicaLoop(sock, store, rounds);
  }

  /** The payload of the message for a SET or DEL: eight bytes of sequence, and three fields. */
  function CommandSize(c: Command): nat {
    20 + (if |c| > 0 then |c[0]| else 0) + (if |c| > 1 then |c[1]| else 0) + if |c| > 2 then |c[2]| else 0
  }

  lemma RelaySize(c: Command, offset: nat)
    requires Relayable(c)
    ensures forall i :: 0 <= i < |Relay(c, offset)| ==> |Relay(c, offset)[i].payload| <= CommandSize(c)
  {
    hide BigEndian;
  }

  lemma {:induction false} RelayAllSizes(cmds: seq<Command>, offset: nat, memory: nat)
    requires AllRelayable(cmds) && forall c :: c in cmds ==> CommandSize(c) <= memory
    ensures forall i :: 0 <= i < |RelayAll(cmds, offset)| ==> |RelayAll(cmds, offset)[i].payload| <= memory
    decreases |cmds|
  {
    hide Relay, Relayable, CommandSize;
    if cmds != [] {
      RelayAllSizes(cmds[..|cmds| - 1], offset, memory);
      RelaySize(cmds[|cmds| - 1], offset);
    }
  }

  lemma AllDefined(cmds: seq<Command>)
    requires AllRelayable(cmds)
    ensures cmds[..Defined(cmds)] == cmds
  {
    hide Relayable;
    assert cmds[..|cmds|] == cmds;
    DefinedIs(cmds, |cmds|);
  }

  lemma {:induction false} RelayAllCount(cmds: seq<Command>, offset: nat)
    requires AllRelayable(cmds)
    ensures |RelayAll(cmds, offset)| <= |cmds|
    decreases |cmds|
  {
    hide Relay, Relayable;
    if cmds != [] {
      RelayAllCount(cmds[..|cmds| - 1], offset);
    }
  }
}
