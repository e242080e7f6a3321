/** The replication wire format of src/replica/protocol.h and the byte loops of
    src/common/socket_utils.cpp, on a little-endian host. */
module Protocol {
  import opened ByteStrings

  // ---------- big-endian integers ----------

  function Pow256(w: nat): nat {
    if w == 0 then 1 else 256 * Pow256(w - 1)
  }

  function BigEndian(w: nat, n: nat): (s: Bytes)
    ensures |s| == w
  {
    if w == 0 then [] else BigEndian(w - 1, n / 256) + [(n % 256) as byte]
  }

  function FromBigEndian(s: Bytes): nat {
    if s == [] then 0 else FromBigEndian(s[..|s| - 1]) * 256 + s[|s| - 1] as int
  }

  lemma {:induction false} FromOfBigEndian(w: nat, n: nat)
    requires n < Pow256(w)
    ensures FromBigEndian(BigEndian(w, n)) == n
  {
    if w > 0 {
      FromOfBigEndian(w - 1, n / 256);
      assert BigEndian(w, n)[..w - 1] == BigEndian(w - 1, n / 256);
    }
  }

  lemma {:induction false} BigEndianOfFrom(s: Bytes)
    ensures FromBigEndian(s) < Pow256(|s|) && BigEndian(|s|, FromBigEndian(s)) == s
  {
    if s != [] {
      BigEndianOfFrom(s[..|s| - 1]);
      assert s == s[..|s| - 1] + [s[|s| - 1]];
    }
  }

  lemma Widths()
    ensures Pow256(2) == 0x1_0000 && Pow256(4) == TWO_32 && Pow256(8) == TWO_64
  {
    assert Pow256(1) == 256 && Pow256(3) == 256 * Pow256(2);
    assert Pow256(5) == 256 * Pow256(4) && Pow256(6) == 256 * Pow256(5) && Pow256(7) == 256 * Pow256(6);
  }

  // ---------- entities ----------

  datatype Entity = Entity(sequence: nat, cmd: Bytes, key: Bytes, value: Bytes)

  const DEFAULT_ENTITY := Entity(0, [], [], [])

  /** A field with its 32-bit length, which the cast truncates. */
  function Field(b: Bytes): Bytes {
    BigEndian(4, |b| % TWO_32) + b
  }

  function EntityBytes(e: Entity): Bytes {
    BigEndian(8, e.sequence) + Field(e.cmd) + Field(e.key) + Field(e.value)
  }

  datatype Blob = Blob(bytes: Bytes, end: nat)

  function ReadField(data: Bytes, off: nat): (r: Option<Blob>)
    ensures r.Some? ==> off + 4 <= r.value.end <= |data|
  {
    if off + 4 > |data| then None
    else
      var n := FromBigEndian(data[off..off + 4]);
      if off + 4 + n > |data| then None
      else Some(Blob(data[off + 4..off + 4 + n], off + 4 + n))
  }

  datatype Outcome = Outcome(ok: bool, entity: Entity)

  /** deserialize into an existing object: fields read before a failure stay assigned. */
  function DecodeInto(e: Entity, data: Bytes): Outcome {
    if |data| < 8 then Outcome(false, e)
    else
      var e1 := e.(sequence := FromBigEndian(data[..8]));
      match ReadField(data, 8)
      case None => Outcome(false, e1)
      case Some(cmd) =>
        var e2 := e1.(cmd := cmd.bytes);
        match ReadField(data, cmd.end)
        case None => Outcome(false, e2)
        case Some(key) =>
          var e3 := e2.(key := key.bytes);
          match ReadField(data, key.end)
          case None => Outcome(false, e3)
          case Some(value) => Outcome(true, e3.(value := value.bytes))
  }

  class DataEntity {
    var sequence: nat
    var cmd: Bytes
    var key: Bytes
    var value: Bytes

    function View(): Entity
      reads this
    {
      Entity(sequence, cmd, key, value)
    }

    constructor ()
      ensures View() == DEFAULT_ENTITY
    {
      sequence, cmd, key, value := 0, [], [], [];
    }

    method Serialize() returns (buf: Bytes)
      ensures buf == EntityBytes(View())
    {
      buf := [];
      buf := buf + BigEndian(8, sequence);
      buf := buf + BigEndian(4, |cmd| % TWO_32) + cmd;
      buf := buf + BigEndian(4, |key| % TWO_32) + key;
      buf := buf + BigEndian(4, |value| % TWO_32) + value;
      SerializedPieces(View());
    }

    method Deserialize(data: Bytes) returns (ok: bool)
      modifies this
      ensures Outcome(ok, View()) == DecodeInto(old(View()), data)
    {
      hide FromBigEndian;
      var off := 0;
      if |data| < 8 { return false; }
      sequence := FromBigEndian(data[..8]);
      off := off + 8;
      if off + 4 > |data| { return false; }
      var cmdLen := FromBigEndian(data[off..off + 4]);
      off := off + 4;
      if off + cmdLen > |data| { return false; }
      cmd := data[off..off + cmdLen];
      off := off + cmdLen;
      if off + 4 > |data| { return false; }
      var keyLen := FromBigEndian(data[off..off + 4]);
      off := off + 4;
      if off + keyLen > |data| { return false; }
      key := data[off..off + keyLen];
      off := off + keyLen;
      if off + 4 > |data| { return false; }
      var valLen := FromBigEndian(data[off..off + 4]);
      off := off + 4;
      if off + valLen > |data| { return false; }
      value := data[off..off + valLen];
      ok := true;
    }
  }

  lemma SerializedPieces(e: Entity)
    ensures [] + BigEndian(8, e.sequence) + BigEndian(4, |e.cmd| % TWO_32) + e.cmd
              + BigEndian(4, |e.key| % TWO_32) + e.key + BigEndian(4, |e.value| % TWO_32) + e.value
         == EntityBytes(e)
  {
    hide BigEndian;
    var s := [] + BigEndian(8, e.sequence);
    Assoc(s, BigEndian(4, |e.cmd| % TWO_32), e.cmd);
    var t := s + Field(e.cmd);
    Assoc(t, BigEndian(4, |e.key| % TWO_32), e.key);
    Assoc(t + Field(e.key), BigEndian(4, |e.value| % TWO_32), e.value);
    assert s == BigEndian(8, e.sequence);
  }

  // ---------- entity laws ----------

  predicate Fits(e: Entity) {
    && e.sequence < TWO_64
    && |e.cmd| < TWO_32 && |e.key| < TWO_32 && |e.value| < TWO_32
  }

  lemma ReadOfField(data: Bytes, off: nat, b: Bytes)
    requires |b| < TWO_32 && HasAt(data, off, Field(b))
    ensures ReadField(data, off) == Some(Blob(b, off + |Field(b)|))
  {
    hide BigEndian, FromBigEndian;
    HasAtSplit(data, off, BigEndian(4, |b| % TWO_32), b);
    Widths();
    FromOfBigEndian(4, |b|);
  }

  lemma FieldOfRead(data: Bytes, off: nat)
    requires ReadField(data, off).Some?
    ensures var r := ReadField(data, off).value;
            |r.bytes| < TWO_32 && r.end == off + |Field(r.bytes)| && HasAt(data, off, Field(r.bytes))
  {
    hide BigEndian, FromBigEndian;
    var r := ReadField(data, off).value;
    Widths();
    BigEndianOfFrom(data[off..off + 4]);
    HasAtJoin(data, off, data[off..off + 4], r.bytes);
  }

  lemma HasAtJoin(buf: Bytes, pos: nat, a: Bytes, b: Bytes)
    requires HasAt(buf, pos, a) && HasAt(buf, pos + |a|, b)
    ensures HasAt(buf, pos, a + b)
  {
    assert buf[pos..pos + |a| + |b|] == buf[pos..pos + |a|] + buf[pos + |a|..pos + |a| + |b|];
  }

  /** Whatever follows, the entity comes back, over any object's earlier content. */
  lemma DecodeOfBytes(e0: Entity, e: Entity, data: Bytes)
    requires Fits(e) && HasAt(data, 0, EntityBytes(e))
    ensures DecodeInto(e0, data) == Outcome(true, e)
  {
    hide BigEndian, FromBigEndian, ReadField, Field;
    var s := BigEndian(8, e.sequence);
    HasAtSplit(data, 0, s + Field(e.cmd) + Field(e.key), Field(e.value));
    HasAtSplit(data, 0, s + Field(e.cmd), Field(e.key));
    HasAtSplit(data, 0, s, Field(e.cmd));
    Widths();
    FromOfBigEndian(8, e.sequence);
    assert data[..8] == data[0..8];
    ReadOfField(data, 8, e.cmd);
    ReadOfField(data, 8 + |Field(e.cmd)|, e.key);
    ReadOfField(data, 8 + |Field(e.cmd)| + |Field(e.key)|, e.value);
  }

  /** Whatever deserialize accepts starts with the serialized form of its result. */
  lemma BytesOfDecode(e0: Entity, data: Bytes)
    requires DecodeInto(e0, data).ok
    ensures var e := DecodeInto(e0, data).entity; Fits(e) && HasAt(data, 0, EntityBytes(e))
  {
    hide BigEndian, FromBigEndian, ReadField, Field;
    var e := DecodeInto(e0, data).entity;
    Widths();
    BigEndianOfFrom(data[..8]);
    FieldOfRead(data, 8);
    var o1 := ReadField(data, 8).value.end;
    FieldOfRead(data, o1);
    var o2 := ReadField(data, o1).value.end;
    FieldOfRead(data, o2);
    assert HasAt(data, 0, data[..8]);
    HasAtJoin(data, 0, data[..8], Field(e.cmd));
    HasAtJoin(data, 0, data[..8] + Field(e.cmd), Field(e.key));
    HasAtJoin(data, 0, data[..8] + Field(e.cmd) + Field(e.key), Field(e.value));
  }

  /** Serialize then deserialize is the identity exactly on entities whose lengths fit 32 bits. */
  lemma EntityRoundTripExactly(e0: Entity, e: Entity, suffix: Bytes)
    requires e.sequence < TWO_64
    ensures DecodeInto(e0, EntityBytes(e) + suffix) == Outcome(true, e) <==> Fits(e)
  {
    hide EntityBytes, DecodeInto;
    var data := EntityBytes(e) + suffix;
    if Fits(e) {
      assert HasAt(data, 0, EntityBytes(e));
      DecodeOfBytes(e0, e, data);
    } else if DecodeInto(e0, data) == Outcome(true, e) {
      BytesOfDecode(e0, data);
    }
  }

  /** A cut serialization is always rejected. */
  lemma EntityStrictPrefix(e0: Entity, e: Entity, n: nat)
    requires Fits(e) && n < |EntityBytes(e)|
    ensures !DecodeInto(e0, EntityBytes(e)[..n]).ok
  {
    hide EntityBytes, DecodeInto;
    var all := EntityBytes(e);
    if DecodeInto(e0, all[..n]).ok {
      BytesOfDecode(e0, all[..n]);
      var e' := DecodeInto(e0, all[..n]).entity;
      var s' := EntityBytes(e');
      assert all[0..|s'|] == all[..n][0..|s'|];
      DecodeOfBytes(e0, e', all);
      DecodeOfBytes(e0, e, all);
      assert false;
    }
  }

  /** Where the fields stand. */
  lemma {:induction false} EntityLayout(e: Entity)
    ensures var all := EntityBytes(e);
            var c, k, v := |e.cmd|, |e.key|, |e.value|;
            && |all| == 20 + c + k + v
            && HasAt(all, 0, BigEndian(8, e.sequence))
            && HasAt(all, 8, BigEndian(4, c % TWO_32)) && HasAt(all, 12, e.cmd)
            && HasAt(all, 12 + c, BigEndian(4, k % TWO_32)) && HasAt(all, 16 + c, e.key)
            && HasAt(all, 16 + c + k, BigEndian(4, v % TWO_32)) && HasAt(all, 20 + c + k, e.value)
  {
    hide BigEndian, HasAt, Field;
    var all := EntityBytes(e);
    var s := BigEndian(8, e.sequence);
    HasItself(all);
    HasAtSplit(all, 0, s + Field(e.cmd) + Field(e.key), Field(e.value));
    HasAtSplit(all, 0, s + Field(e.cmd), Field(e.key));
    HasAtSplit(all, 0, s, Field(e.cmd));
    FieldPieces(all, 8, e.cmd);
    FieldPieces(all, 12 + |e.cmd|, e.key);
    FieldPieces(all, 16 + |e.cmd| + |e.key|, e.value);
  }

  lemma HasItself(s: Bytes)
    ensures HasAt(s, 0, s)
  {
  }

  lemma FieldPieces(all: Bytes, off: nat, b: Bytes)
    ensures |Field(b)| == 4 + |b|
    ensures HasAt(all, off, Field(b)) ==>
      HasAt(all, off, BigEndian(4, |b| % TWO_32)) && HasAt(all, off + 4, b)
  {
    hide BigEndian, HasAt;
    if HasAt(all, off, Field(b)) { HasAtSplit(all, off, BigEndian(4, |b| % TWO_32), b); }
  }

  /** A field of which not everything is there. */
  lemma {:induction false} CutField(data: Bytes, off: nat, b: Bytes)
    requires |b| < TWO_32 && |data| < off + 4 + |b|
    requires |data| >= off + 4 ==> HasAt(data, off, BigEndian(4, |b|))
    ensures ReadField(data, off) == None
  {
    hide BigEndian, FromBigEndian;
    if |data| >= off + 4 {
      Widths();
      FromOfBigEndian(4, |b|);
    }
  }

  /** What a cut serialization leaves in the object: each field whose bytes are all there is
      assigned, the others keep what they held. */
  lemma {:induction false} CutEntity(e0: Entity, e: Entity, n: nat)
    requires Fits(e) && n < |EntityBytes(e)|
    ensures var c, k := |e.cmd|, |e.key|;
            DecodeInto(e0, EntityBytes(e)[..n])
              == Outcome(false, Entity(if n >= 8 then e.sequence else e0.sequence,
                                       if n >= 12 + c then e.cmd else e0.cmd,
                                       if n >= 16 + c + k then e.key else e0.key,
                                       e0.value))
  {
    hide BigEndian, FromBigEndian, ReadField, EntityBytes, HasAt;
    var data, c, k := EntityBytes(e)[..n], |e.cmd|, |e.key|;
    EntityLayout(e);
    if n >= 8 {
      CutSequence(e, n);
      FieldOrCut(EntityBytes(e), n, 8, e.cmd);
      if n >= 12 + c {
        FieldOrCut(EntityBytes(e), n, 12 + c, e.key);
        if n >= 16 + c + k {
          FieldOrCut(EntityBytes(e), n, 16 + c + k, e.value);
        }
      }
    }
  }

  lemma {:induction false} CutSequence(e: Entity, n: nat)
    requires Fits(e) && 8 <= n <= |EntityBytes(e)|
    ensures FromBigEndian(EntityBytes(e)[..n][..8]) == e.sequence
  {
    hide BigEndian, FromBigEndian, EntityBytes;
    EntityLayout(e);
    Widths();
    FromOfBigEndian(8, e.sequence);
    assert EntityBytes(e)[..n][..8] == EntityBytes(e)[0..8];
  }

  lemma {:induction false} FieldOrCut(all: Bytes, n: nat, off: nat, b: Bytes)
    requires |b| < TWO_32 && n <= |all|
    requires HasAt(all, off, BigEndian(4, |b| % TWO_32)) && HasAt(all, off + 4, b)
    ensures ReadField(all[..n], off)
         == if n >= off + 4 + |b| then Some(Blob(b, off + 4 + |b|)) else None
  {
    hide BigEndian, FromBigEndian, ReadField;
    var data := all[..n];
    if n >= off + 4 {
      assert data[off..off + 4] == all[off..off + 4];
    }
    if n >= off + 4 + |b| {
      assert data[off + 4..off + 4 + |b|] == all[off + 4..off + 4 + |b|];
      HasAtJoin(data, off, BigEndian(4, |b| % TWO_32), b);
      ReadOfField(data, off, b);
    } else {
      CutField(data, off, b);
    }
  }

  // ---------- messages ----------

  const INCR_SYNC: byte := 2
  const ACK: byte := 4
  const MAGIC: nat := 0x9798

  datatype Message = Message(kind: byte, magic: nat, len: nat, offset: nat, payload: Bytes)

  function FromEntity(kind: byte, e: Entity): Message {
    Message(kind, MAGIC, |EntityBytes(e)|, e.sequence, EntityBytes(e))
  }

  /** The length field tells the receiver how much payload follows. */
  predicate InStep(m: Message) {
    m.len == |m.payload| < TWO_64
  }

  function Header(m: Message): (h: Bytes)
    ensures |h| == 12
  {
    [m.kind, (m.offset % 256) as byte] + BigEndian(2, m.magic % 0x1_0000) + BigEndian(8, m.len % TWO_64)
  }

  function MessageBytes(m: Message): Bytes {
    Header(m) + m.payload
  }

  /** What the receiver's message holds: only type and payload survive; the one offset byte lands
      in the top byte, the magic is shifted out, and len is never assigned. */
  function Arrived(m: Message): Message {
    Message(m.kind, 0, 0, m.offset % 256 * 0x100_0000_0000_0000, m.payload)
  }

  datatype Receipt = Receipt(msg: Message, rest: Bytes)

  function Receive(stream: Bytes): (r: Option<Receipt>)
    ensures r.Some? ==> |r.value.rest| < |stream|
  {
    if |stream| < 12 then None
    else
      var n := FromBigEndian(stream[4..12]);
      if 12 + n > |stream| then None
      else Some(Receipt(Message(stream[0], 0, 0, stream[1] as int * 0x100_0000_0000_0000,
                                stream[12..12 + n]),
                        stream[12 + n..]))
  }

  /** Messages received one after another until the stream ends. */
  function ReceiveAll(stream: Bytes): seq<Message>
    decreases |stream|
  {
    match Receive(stream)
    case None => []
    case Some(r) => [r.msg] + ReceiveAll(r.rest)
  }

  /** What is left of the stream after the last complete message. */
  function Leftover(stream: Bytes): Bytes
    decreases |stream|
  {
    match Receive(stream)
    case None => stream
    case Some(r) => Leftover(r.rest)
  }

  function Zeros(n: nat): (z: Bytes)
    ensures |z| == n && forall i :: 0 <= i < n ==> z[i] == 0
  {
    seq(n, i => 0)
  }

  /** What recvFromSocket leaves in a fresh message when it fails after these bytes: the fields that
      arrived, and, once the length is known, a payload of that size whose missing part is zero. */
  function HalfFilled(stream: Bytes): Message {
    Message(if |stream| >= 1 then stream[0] else ACK,
            if |stream| >= 4 then 0 else MAGIC,
            0,
            if |stream| >= 2 then stream[1] as int * 0x100_0000_0000_0000 else 0,
            if |stream| < 12 then []
            else
              var n := FromBigEndian(stream[4..12]);
              stream[12..] + Zeros(if n > |stream| - 12 then n - (|stream| - 12) else 0))
  }

  function Sent(msgs: seq<Message>): Bytes {
    if msgs == [] then [] else Sent(msgs[..|msgs| - 1]) + MessageBytes(msgs[|msgs| - 1])
  }

  function ArrivedAll(msgs: seq<Message>): (r: seq<Message>)
    ensures |r| == |msgs| && forall i :: 0 <= i < |msgs| ==> r[i] == Arrived(msgs[i])
  {
    seq(|msgs|, i requires 0 <= i < |msgs| => Arrived(msgs[i]))
  }

  lemma HeaderPieces(m: Message)
    requires InStep(m)
    ensures Header(m)[0] == m.kind && Header(m)[1] as int == m.offset % 256
    ensures FromBigEndian(Header(m)[4..12]) == m.len
  {
    hide BigEndian, FromBigEndian;
    Widths();
    FromOfBigEndian(8, m.len);
    assert Header(m)[4..12] == BigEndian(8, m.len % TWO_64);
  }

  lemma ReceiveOfMessage(m: Message, more: Bytes)
    requires InStep(m)
    ensures Receive(MessageBytes(m) + more) == Some(Receipt(Arrived(m), more))
  {
    hide Header, FromBigEndian;
    HeaderPieces(m);
    var stream := MessageBytes(m) + more;
    assert stream[0] == Header(m)[0] && stream[1] == Header(m)[1];
    assert stream[4..12] == Header(m)[4..12];
    assert stream[12..12 + m.len] == m.payload;
    assert stream[12 + m.len..] == more;
  }

  /** A message cut short is not received. */
  lemma ReceiveOfStrictPrefix(m: Message, n: nat)
    requires InStep(m) && n < |MessageBytes(m)|
    ensures Receive(MessageBytes(m)[..n]) == None
  {
    hide Header, FromBigEndian;
    HeaderPieces(m);
    if n >= 12 {
      assert MessageBytes(m)[..n][4..12] == Header(m)[4..12];
    }
  }

  /** The receiver stays in step: every message sent in full arrives, in order, before whatever
      else the stream holds. */
  lemma {:induction false} StreamInStep(msgs: seq<Message>, more: Bytes)
    requires forall i :: 0 <= i < |msgs| ==> InStep(msgs[i])
    ensures ReceiveAll(Sent(msgs) + more) == ArrivedAll(msgs) + ReceiveAll(more)
    ensures Leftover(Sent(msgs) + more) == Leftover(more)
    decreases |msgs|
  {
    hide Receive, MessageBytes, Arrived;
    if msgs == [] {
      assert Sent(msgs) + more == more;
    } else {
      var front, last := msgs[..|msgs| - 1], msgs[|msgs| - 1];
      StreamInStep(front, MessageBytes(last) + more);
      ReceiveOfMessage(last, more);
      assert Sent(msgs) + more == Sent(front) + (MessageBytes(last) + more);
      assert ArrivedAll(msgs) == ArrivedAll(front) + [Arrived(last)];
      assert ArrivedAll(front) + ([Arrived(last)] + ReceiveAll(more))
          == ArrivedAll(front) + [Arrived(last)] + ReceiveAll(more);
    }
  }

  /** A connection cut inside the last message delivers exactly the complete ones. */
  lemma {:induction false} TornStream(msgs: seq<Message>, m: Message, n: nat)
    requires forall i :: 0 <= i < |msgs| ==> InStep(msgs[i])
    requires InStep(m) && n < |MessageBytes(m)|
    ensures ReceiveAll(Sent(msgs) + MessageBytes(m)[..n]) == ArrivedAll(msgs)
    ensures Leftover(Sent(msgs) + MessageBytes(m)[..n]) == MessageBytes(m)[..n]
  {
    hide Receive, MessageBytes;
    StreamInStep(msgs, MessageBytes(m)[..n]);
    ReceiveOfStrictPrefix(m, n);
    assert ReceiveAll(MessageBytes(m)[..n]) == [];
  }

  // ---------- losing step ----------

  /** The bytes a list of messages takes on the wire. */
  function WireSize(msgs: seq<Message>): nat {
    if msgs == [] then 0 else 12 + |msgs[0].payload| + WireSize(msgs[1..])
  }

  lemma {:induction false} ReceivedFits(stream: Bytes)
    ensures WireSize(ReceiveAll(stream)) <= |stream|
    decreases |stream|
  {
    if Receive(stream).Some? {
      ReceivedFits(Receive(stream).value.rest);
    }
  }

  lemma {:induction false} WireSizeSnoc(msgs: seq<Message>, m: Message)
    ensures WireSize(msgs + [m]) == WireSize(msgs) + 12 + |m.payload|
  {
    if msgs == [] {
      assert msgs + [m] == [m];
    } else {
      WireSizeSnoc(msgs[1..], m);
      assert (msgs + [m])[1..] == msgs[1..] + [m];
    }
  }

  lemma {:induction false} SentSize(msgs: seq<Message>)
    ensures WireSize(ArrivedAll(msgs)) == |Sent(msgs)|
    decreases |msgs|
  {
    hide Header;
    if msgs != [] {
      var front, last := msgs[..|msgs| - 1], msgs[|msgs| - 1];
      SentSize(front);
      WireSizeSnoc(ArrivedAll(front), Arrived(last));
      assert ArrivedAll(msgs) == ArrivedAll(front) + [Arrived(last)];
    }
  }

  /** After a receive that failed having taken c bytes, the receiver still gets every message
      exactly if c is zero: any byte taken is missing later. */
  lemma InStepAfterFailureExactly(msgs: seq<Message>, c: nat)
    requires forall i :: 0 <= i < |msgs| ==> InStep(msgs[i])
    requires c <= |Sent(msgs)|
    ensures ReceiveAll(Sent(msgs)[c..]) == ArrivedAll(msgs) <==> c == 0
  {
    hide Receive, MessageBytes, Arrived, Sent, ReceiveAll, WireSize;
    if c == 0 {
      assert Sent(msgs)[0..] == Sent(msgs) == Sent(msgs) + [];
      StreamInStep(msgs, []);
      NothingToReceive();
      assert ArrivedAll(msgs) + [] == ArrivedAll(msgs);
    } else {
      ReceivedFits(Sent(msgs)[c..]);
      SentSize(msgs);
    }
  }

  lemma NothingToReceive()
    ensures ReceiveAll([]) == []
  {
  }

  // ---------- what cannot be allocated ----------

  /** The header announces a payload that does not fit into memory. */
  predicate Oversized(stream: Bytes, memory: nat) {
    |stream| >= 12 && FromBigEndian(stream[4..12]) > memory
  }

  /** Nothing the stream announces is too large. */
  predicate Roomy(stream: Bytes, memory: nat)
    decreases |stream|
  {
    !Oversized(stream, memory) && (Receive(stream).Some? ==> Roomy(Receive(stream).value.rest, memory))
  }

  /** Messages whose payloads fit announce nothing too large. */
  lemma {:induction false} SentIsRoomy(msgs: seq<Message>, more: Bytes, memory: nat)
    requires forall i :: 0 <= i < |msgs| ==> InStep(msgs[i]) && |msgs[i].payload| <= memory
    requires Roomy(more, memory)
    ensures Roomy(Sent(msgs) + more, memory)
    decreases |msgs|
  {
    hide Receive, MessageBytes, Oversized;
    if msgs == [] {
      assert Sent(msgs) + more == more;
    } else {
      var front, last := msgs[..|msgs| - 1], msgs[|msgs| - 1];
      ReceiveOfMessage(last, more);
      NotOversized(last, more, memory);
      SentIsRoomy(front, MessageBytes(last) + more, memory);
      assert Sent(msgs) + more == Sent(front) + (MessageBytes(last) + more);
    }
  }

  lemma NotOversized(m: Message, more: Bytes, memory: nat)
    requires InStep(m) && |m.payload| <= memory
    ensures !Oversized(MessageBytes(m) + more, memory)
  {
    hide Header, FromBigEndian;
    HeaderPieces(m);
    assert (MessageBytes(m) + more)[4..12] == Header(m)[4..12];
  }

  // ---------- sockets ----------

  /** The outcome of one send or recv call: it moves some bytes, or fails. */
  datatype Io = Moved(choice: nat) | IoError

  /** One direction of a connection: the bytes sent and not yet received. The kernel chooses how
      many bytes each call moves, or lets it fail; recv also fails when the stream has ended. */
  class Socket {
    var wire: Bytes
    var calls: nat
    const kernel: nat -> Io
    const memory: nat // the largest payload the receiver can allocate

    constructor (kernel: nat -> Io, memory: nat)
      ensures wire == [] && this.kernel == kernel && this.memory == memory
    {
      this.kernel, this.memory := kernel, memory;
      wire, calls := [], 0;
    }

    /** No call fails before the stream ends. */
    ghost predicate Steady() {
      forall i :: kernel(i).Moved?
    }

    method SendAll(buffer: Bytes) returns (ok: bool, ghost k: nat)
      modifies this
      ensures k <= |buffer| && wire == old(wire) + buffer[..k]
      ensures ok == (k == |buffer|) && (Steady() ==> ok)
    {
      hide Partial;
      var sent := 0;
      while sent < |buffer|
        invariant 0 <= sent <= |buffer|
        invariant wire == old(wire) + buffer[..sent]
        decreases |buffer| - sent
      {
        var answer := kernel(calls);
        calls := calls + 1;
        if answer.IoError? { return false, sent; }
        var n := Partial(answer.choice, |buffer| - sent);
        assert buffer[..sent] + buffer[sent..sent + n] == buffer[..sent + n];
        wire := wire + buffer[sent..sent + n];
        sent := sent + n;
      }
      return true, sent;
    }

    method RecvAll(length: nat) returns (ok: bool, buffer: Bytes)
      modifies this
      ensures |buffer| <= length && |buffer| <= |old(wire)|
      ensures buffer == old(wire)[..|buffer|] && wire == old(wire)[|buffer|..]
      ensures ok == (|buffer| == length)
      ensures Steady() && !ok ==> wire == []
    {
      hide Partial;
      buffer := [];
      while |buffer| < length
        invariant |buffer| <= length && |buffer| <= |old(wire)|
        invariant buffer == old(wire)[..|buffer|] && wire == old(wire)[|buffer|..]
        decreases length - |buffer|
      {
        if wire == [] { return false, buffer; }
        var answer := kernel(calls);
        calls := calls + 1;
        if answer.IoError? { return false, buffer; }
        var want := length - |buffer|;
        var n := Partial(answer.choice, if want < |wire| then want else |wire|);
        buffer, wire := buffer + wire[..n], wire[n..];
      }
      ok := true;
    }

    /** sendToSocket: five pieces, given up at the first that fails. */
    method SendMessage(m: Message) returns (ok: bool, ghost k: nat)
      modifies this
      ensures k <= |MessageBytes(m)| && wire == old(wire) + MessageBytes(m)[..k]
      ensures ok == (k == |MessageBytes(m)|) && (Steady() ==> ok)
    {
      hide BigEndian, MessageBytes;
      ghost var all := MessageBytes(m);
      MessagePieces(m);
      var sent;
      k := 0;
      assert all[..0] == [];
      sent, k := SendPiece([m.kind], all, 0);
      if !sent { return false, k; }
      sent, k := SendPiece([(m.offset % 256) as byte], all, 1);
      if !sent { return false, k; }
      sent, k := SendPiece(BigEndian(2, m.magic % 0x1_0000), all, 2);
      if !sent { return false, k; }
      sent, k := SendPiece(BigEndian(8, m.len % TWO_64), all, 4);
      if !sent { return false, k; }
      if m.payload != [] {
        sent, k := SendPiece(m.payload, all, 12);
        if !sent { return false, k; }
      }
      ok := true;
    }

    /** One send_all call inside a message `all` of which `done` bytes are out. */
    method SendPiece(piece: Bytes, ghost all: Bytes, ghost done: nat) returns (ok: bool, ghost k: nat)
      requires piece != [] && HasAt(all, done, piece)
      modifies this
      ensures done <= k <= done + |piece| && ok == (k == done + |piece|) && (Steady() ==> ok)
      ensures forall before: Bytes :: old(wire) == before + all[..done] ==> wire == before + all[..k]
    {
      ghost var j;
      ok, j := SendAll(piece);
      k := done + j;
      forall before: Bytes | old(wire) == before + all[..done]
        ensures wire == before + all[..k]
      {
        assert all[..k] == all[..done] + piece[..j];
        Assoc(before, all[..done], piece[..j]);
      }
    }

    /** recvFromSocket into a fresh message. It takes `used` bytes; if it fails they are a cut
        message, and the half-filled message is handed back all the same. It throws exactly when
        the header arrives and announces more than can be allocated. */
    method RecvMessage() returns (ok: bool, threw: bool, m: Message, ghost used: nat)
      modifies this
      ensures used <= |old(wire)| && wire == old(wire)[used..]
      ensures threw <==> used >= 12 && Oversized(old(wire), memory)
      ensures threw ==> used == 12 && !ok
      ensures ok ==> Receive(old(wire)) == Some(Receipt(m, wire))
      ensures !ok && !threw ==>
        Receive(old(wire)[..used]) == None && m == HalfFilled(old(wire)[..used])
      ensures Steady() && !ok && !threw ==> wire == []
    {
      hide FromBigEndian, Receive, HalfFilled;
      var lenNet;
      threw := false;
      ok, m, lenNet, used := RecvHeader();
      if !ok { return; }
      var payloadLen := FromBigEndian(lenNet);
      if payloadLen > memory { return false, true, m, used; }
      var payload := [];
      if payloadLen > 0 {
        ok, payload := RecvAll(payloadLen);
      }
      used := 12 + |payload|;
      m := m.(payload := payload + Zeros(payloadLen - |payload|));
      assert payload == old(wire)[12..used] && wire == old(wire)[used..];
      if ok {
        WholeMessage(old(wire));
        assert payload + Zeros(0) == payload;
      } else {
        CutMessage(old(wire), used);
      }
    }

    /** The four header fields. */
    method RecvHeader() returns (ok: bool, m: Message, lenNet: Bytes, ghost used: nat)
      modifies this
      ensures used <= |old(wire)| && wire == old(wire)[used..]
      ensures if ok then used == 12 else used < 12
      ensures ok ==> lenNet == old(wire)[4..12]
      ensures ok ==> m == Message(old(wire)[0], 0, 0, old(wire)[1] as int * 0x100_0000_0000_0000, [])
      ensures !ok ==> Receive(old(wire)[..used]) == None && m == HalfFilled(old(wire)[..used])
      ensures Steady() && !ok ==> wire == []
    {
      hide FromBigEndian;
      m, lenNet := Message(ACK, MAGIC, 0, 0, []), [];
      var piece;
      ok, piece := RecvAll(1);
      used := |piece|;
      if !ok { return; }
      m := m.(kind := piece[0]);
      ok, piece := RecvAll(1);
      used := used + |piece|;
      if !ok { return; }
      m := m.(offset := piece[0] as int * 0x100_0000_0000_0000);
      ok, piece := RecvAll(2);
      used := used + |piece|;
      if !ok { return; }
      m := m.(magic := 0);
      ok, lenNet := RecvAll(8);
      used := used + |lenNet|;
    }

    /** Receiving until a receive fails or throws, as the master's handler does. */
    method RecvMessages() returns (msgs: seq<Message>, threw: bool)
      modifies this
      ensures msgs <= ReceiveAll(old(wire))
      ensures Steady() && !threw ==> msgs == ReceiveAll(old(wire)) && wire == []
      ensures Roomy(old(wire), memory) ==> !threw
    {
      hide Receive, HalfFilled;
      msgs, threw := [], false;
      assert [] + ReceiveAll(wire) == ReceiveAll(wire);
      while true
        invariant msgs + ReceiveAll(wire) == ReceiveAll(old(wire)) && !threw
        invariant Roomy(old(wire), memory) ==> Roomy(wire, memory)
        decreases |wire|
      {
        ghost var before := wire;
        var ok, m;
        ghost var used;
        ok, threw, m, used := RecvMessage();
        if !ok {
          assert Steady() && !threw ==> before[..used] == before && msgs + [] == msgs;
          return;
        }
        assert msgs + ([m] + ReceiveAll(wire)) == (msgs + [m]) + ReceiveAll(wire);
        msgs := msgs + [m];
      }
    }
  }

  lemma MessagePieces(m: Message)
    ensures var all := MessageBytes(m);
            && |all| == 12 + |m.payload|
            && HasAt(all, 0, [m.kind]) && HasAt(all, 1, [(m.offset % 256) as byte])
            && HasAt(all, 2, BigEndian(2, m.magic % 0x1_0000))
            && HasAt(all, 4, BigEndian(8, m.len % TWO_64))
            && HasAt(all, 12, m.payload)
  {
    hide BigEndian;
    var all := MessageBytes(m);
    var a, b := BigEndian(2, m.magic % 0x1_0000), BigEndian(8, m.len % TWO_64);
    var two := [m.kind, (m.offset % 256) as byte];
    assert HasAt(all, 0, Header(m) + m.payload);
    HasAtSplit(all, 0, two + a + b, m.payload);
    HasAtSplit(all, 0, two + a, b);
    HasAtSplit(all, 0, two, a);
    assert two == [m.kind] + [(m.offset % 256) as byte];
    HasAtSplit(all, 0, [m.kind], [(m.offset % 256) as byte]);
  }

  lemma WholeMessage(stream: Bytes)
    requires |stream| >= 12 && 12 + FromBigEndian(stream[4..12]) <= |stream|
    ensures var n := FromBigEndian(stream[4..12]);
            Receive(stream)
              == Some(Receipt(Message(stream[0], 0, 0, stream[1] as int * 0x100_0000_0000_0000,
                                      stream[12..12 + n]),
                              stream[12 + n..]))
  {
    hide FromBigEndian;
  }

  /** A stream cut inside its first message's payload. */
  lemma CutMessage(stream: Bytes, used: nat)
    requires 12 <= used <= |stream| && used < 12 + FromBigEndian(stream[4..12])
    ensures Receive(stream[..used]) == None
    ensures HalfFilled(stream[..used])
         == Message(stream[0], 0, 0, stream[1] as int * 0x100_0000_0000_0000,
                    stream[12..used] + Zeros(FromBigEndian(stream[4..12]) - (used - 12)))
  {
    hide FromBigEndian;
    assert stream[..used][4..12] == stream[4..12];
    assert stream[..used][12..] == stream[12..used];
  }
}
