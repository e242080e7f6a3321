/** Reading the log back: the accumulate / parse / erase loops of src/common/aof.cpp, proved
    against one greedy parse of the whole byte string. */
module Recovery {
  import opened ByteStrings
  import opened Resp

  /** Commands executed, bytes left unparsed, and whether the parser threw. */
  datatype Stream = Stream(commands: seq<Command>, tail: Bytes, raised: bool)

  /** The reference meaning of a byte string: parse frames from the front until none is found. */
  function Greedy(buf: Bytes): (r: Stream)
    ensures |r.tail| <= |buf|
    decreases |buf|
  {
    match Parse(buf)
    case NoFrame => Stream([], buf, false)
    case Raised => Stream([], buf, true)
    case Frame(parts, n) => After([parts], Greedy(buf[n..]))
  }

  function After(done: seq<Command>, rest: Stream): Stream {
    Stream(done + rest.commands, rest.tail, rest.raised)
  }

  lemma AfterAfter(a: seq<Command>, b: seq<Command>, rest: Stream)
    ensures After(a, After(b, rest)) == After(a + b, rest)
  {
    assert a + (b + rest.commands) == (a + b) + rest.commands;
  }

  /** The greedy parse of a longer string resumes exactly where the shorter one stopped; an
      exception stays, after the same commands. */
  lemma {:induction false} GreedyAppend(a: Bytes, b: Bytes)
    ensures Greedy(a).raised ==>
      Greedy(a + b).raised && Greedy(a + b).commands == Greedy(a).commands
    ensures !Greedy(a).raised ==>
      Greedy(a + b) == After(Greedy(a).commands, Greedy(Greedy(a).tail + b))
    decreases |a|
  {
    hide Parse;
    ParseExtend(a, b);
    match Parse(a)
    case NoFrame =>
      assert Greedy(a).tail == a;
      assert After([], Greedy(a + b)) == Greedy(a + b);
    case Raised =>
    case Frame(parts, n) =>
      assert (a + b)[n..] == a[n..] + b;
      GreedyAppend(a[n..], b);
      if !Greedy(a).raised {
        AfterAfter([parts], Greedy(a[n..]).commands, Greedy(Greedy(a).tail + b));
      }
  }

  /** The parsed part and the tail together are the input. */
  lemma {:induction false} GreedyTail(buf: Bytes)
    ensures Greedy(buf).tail == buf[|buf| - |Greedy(buf).tail|..]
    decreases |buf|
  {
    hide Parse;
    match Parse(buf)
    case NoFrame =>
    case Raised =>
    case Frame(parts, n) =>
      GreedyTail(buf[n..]);
  }

  lemma GreedyOfNothing()
    ensures Greedy([]) == Stream([], [], false)
  {
    assert Parse([]) == NoFrame;
  }

  /** The inner loop: parse what the buffer holds and report how much to erase. */
  method Drain(streamBuf: Bytes) returns (executed: seq<Command>, parsed: nat, raised: bool)
    ensures parsed <= |streamBuf|
    ensures Greedy(streamBuf) == Stream(executed, streamBuf[parsed..], raised)
  {
    hide Parse;
    executed, parsed, raised := [], 0, false;
    assert streamBuf[0..] == streamBuf;
    assert After([], Greedy(streamBuf)) == Greedy(streamBuf);
    while true
      invariant parsed <= |streamBuf|
      invariant Greedy(streamBuf) == After(executed, Greedy(streamBuf[parsed..]))
      decreases |streamBuf| - parsed
    {
      var r := TryParseRespArray(streamBuf[parsed..]);
      if !r.Frame? {
        assert executed + [] == executed;
        return executed, parsed, r.Raised?;
      }
      AfterAfter(executed, [r.parts], Greedy(streamBuf[parsed..][r.consumed..]));
      assert streamBuf[parsed..][r.consumed..] == streamBuf[parsed + r.consumed..];
      executed := executed + [r.parts];
      parsed := parsed + r.consumed;
    }
  }

  /** What the file calls of one pass over the log yield: no such file, an open, stat or seek that
      failed, or the pieces that reads return until the end of the file or a failing read. */
  datatype FilePass = NotFound | Refused | Read(pieces: seq<Bytes>, failed: bool)

  function Delivered(pass: FilePass): Bytes {
    if pass.Read? then Concat(pass.pieces) else []
  }

  /** recoverFromAOF: it executes what the delivered bytes hold whatever happens afterwards. It
      succeeds if there is no file, or if no call failed and no truncation was asked for a torn
      tail: the descriptor is read-only, so ftruncate fails. The offset is stored only then. */
  method RecoverFromAof(pass: FilePass, truncate: bool)
    returns (ok: bool, executed: seq<Command>, offset: Option<nat>, raised: bool)
    ensures executed == Greedy(Delivered(pass)).commands && raised == Greedy(Delivered(pass)).raised
    ensures pass.NotFound? ==> ok
    ensures pass.Refused? ==> !ok
    ensures ok ==> !raised
    ensures pass.Read? ==>
      (ok <==> !raised && !pass.failed && (truncate ==> Greedy(Delivered(pass)).tail == []))
    ensures offset == if ok && Delivered(pass) != [] then Some(|Delivered(pass)|) else None
  {
    hide Greedy;
    GreedyOfNothing();
    ConcatNothing();
    offset := None;
    match pass {
      case NotFound => return true, [], None, false;
      case Refused => return false, [], None, false;
      case Read(pieces, failed) =>
        var streamBuf, lastGoodOffset;
        executed, streamBuf, lastGoodOffset, raised := ReadLog(pieces);
        if raised || failed { return false, executed, None, raised; }
        if streamBuf != [] && truncate { return false, executed, None, false; }
        ok := true;
        var end := lastGoodOffset + |streamBuf|;
        if end > 0 { offset := Some(end); }
    }
  }

  /** The read loop of recoverFromAOF on the bytes delivered by successive reads, cut up in any
      way. */
  method ReadLog(pieces: seq<Bytes>)
    returns (executed: seq<Command>, streamBuf: Bytes, lastGoodOffset: nat, raised: bool)
    ensures executed == Greedy(Concat(pieces)).commands
    ensures raised == Greedy(Concat(pieces)).raised
    ensures !raised ==> streamBuf == Greedy(Concat(pieces)).tail
    ensures !raised ==> lastGoodOffset + |streamBuf| == |Concat(pieces)|
    ensures !raised ==> Concat(pieces)[lastGoodOffset..] == streamBuf
  {
    hide Parse;
    executed, streamBuf, lastGoodOffset, raised := [], [], 0, false;
    var i := 0;
    assert pieces[..0] == [];
    GreedyOfNothing();
    while i < |pieces|
      invariant 0 <= i <= |pieces|
      invariant !raised
      invariant Greedy(Concat(pieces[..i])) == Stream(executed, streamBuf, false)
      invariant lastGoodOffset + |streamBuf| == |Concat(pieces[..i])|
    {
      ghost var seen := Concat(pieces[..i]);
      GreedyAppend(seen, pieces[i]);
      ConcatSnoc(pieces[..i], pieces[i]);
      assert pieces[..i] + [pieces[i]] == pieces[..i + 1];
      streamBuf := streamBuf + pieces[i];
      var cmds, parsed, threw := Drain(streamBuf);
      executed := executed + cmds;
      if threw {
        ConcatSplit(pieces, i + 1);
        GreedyAppend(Concat(pieces[..i + 1]), Concat(pieces[i + 1..]));
        raised := true;
        return;
      }
      lastGoodOffset := lastGoodOffset + parsed;
      if parsed > 0 {
        streamBuf := streamBuf[parsed..];
      }
      i := i + 1;
    }
    assert pieces[..i] == pieces;
    GreedyTail(Concat(pieces));
  }

  /** readCommandsFromOffset: it executes what the delivered bytes hold, also before a failing
      read, and succeeds if no call failed. */
  method ReadCommandsFromOffset(pass: FilePass) returns (ok: bool, executed: seq<Command>, raised: bool)
    ensures executed == Greedy(Delivered(pass)).commands && raised == Greedy(Delivered(pass)).raised
    ensures ok <==> pass.Read? && !pass.failed && !raised
  {
    hide Greedy;
    GreedyOfNothing();
    if !pass.Read? { return false, [], false; }
    executed, raised := ReadFromOffset(pass.pieces);
    ok := !raised && !pass.failed;
  }

  /** Its read loop, on the pieces returned from the offset on, while the file may grow. */
  method ReadFromOffset(pieces: seq<Bytes>) returns (executed: seq<Command>, raised: bool)
    ensures executed == Greedy(Concat(pieces)).commands && raised == Greedy(Concat(pieces)).raised
  {
    hide Greedy;
    executed, raised := [], false;
    var streamBuf: Bytes := [];
    var i := 0;
    GreedyOfNothing();
    assert pieces[..0] == [];
    while i < |pieces|
      invariant 0 <= i <= |pieces| && !raised
      invariant Greedy(Concat(pieces[..i])) == Stream(executed, streamBuf, false)
    {
      GreedyAppend(Concat(pieces[..i]), pieces[i]);
      ConcatSnoc(pieces[..i], pieces[i]);
      assert pieces[..i] + [pieces[i]] == pieces[..i + 1];
      streamBuf := streamBuf + pieces[i];
      var cmds, parsed, threw := Drain(streamBuf);
      executed := executed + cmds;
      if threw {
        ConcatSplit(pieces, i + 1);
        GreedyAppend(Concat(pieces[..i + 1]), Concat(pieces[i + 1..]));
        return executed, true;
      }
      streamBuf := streamBuf[parsed..];
      i := i + 1;
    }
    assert pieces[..i] == pieces;
  }

  // ---------- logs made of whole frames, cut anywhere ----------

  function Frames(cmds: seq<Command>): (r: seq<Bytes>)
    ensures |r| == |cmds| && forall i :: 0 <= i < |cmds| ==> r[i] == Serialize(cmds[i])
  {
    seq(|cmds|, i requires 0 <= i < |cmds| => Serialize(cmds[i]))
  }

  function LogBytes(cmds: seq<Command>): Bytes {
    Concat(Frames(cmds))
  }

  predicate AllStorable(cmds: seq<Command>) {
    forall i :: 0 <= i < |cmds| ==> Storable(cmds[i])
  }

  lemma FramesAppend(a: seq<Command>, b: seq<Command>)
    ensures Frames(a + b) == Frames(a) + Frames(b)
    ensures LogBytes(a + b) == LogBytes(a) + LogBytes(b)
  {
    hide Serialize;
    ConcatAppend(Frames(a), Frames(b));
  }

  lemma LogBytesSplit(cmds: seq<Command>, k: nat)
    requires k <= |cmds|
    ensures LogBytes(cmds) == LogBytes(cmds[..k]) + LogBytes(cmds[k..])
    ensures Frames(cmds)[..k] == Frames(cmds[..k])
  {
    hide Serialize;
    FramesAppend(cmds[..k], cmds[k..]);
    assert cmds[..k] + cmds[k..] == cmds;
  }

  lemma LogBytesCons(cmds: seq<Command>)
    requires cmds != []
    ensures LogBytes(cmds) == Serialize(cmds[0]) + LogBytes(cmds[1..])
  {
    hide Serialize;
    assert Frames(cmds)[1..] == Frames(cmds[1..]);
  }

  lemma LogBytesOfNothing()
    ensures LogBytes([]) == []
  {
  }

  /** How many whole frames fit into n bytes. */
  function Fitting(cmds: seq<Command>, n: nat): (k: nat)
    ensures k <= |cmds|
    decreases |cmds|
  {
    if cmds == [] || n < |Serialize(cmds[0])| then 0
    else 1 + Fitting(cmds[1..], n - |Serialize(cmds[0])|)
  }

  /** Fitting is the longest run of frames that fits. */
  lemma {:induction false} FittingIsLongest(cmds: seq<Command>, n: nat)
    ensures var k := Fitting(cmds, n);
            |LogBytes(cmds[..k])| <= n && (k < |cmds| ==> n < |LogBytes(cmds[..k + 1])|)
    decreases |cmds|
  {
    hide Serialize;
    var k := Fitting(cmds, n);
    assert cmds[..0] == [];
    if cmds != [] {
      assert cmds[..1] == [cmds[0]];
      LogBytesCons(cmds[..1]);
      if n >= |Serialize(cmds[0])| {
        FittingIsLongest(cmds[1..], n - |Serialize(cmds[0])|);
        LogBytesCons(cmds[..k]);
        assert cmds[..k][1..] == cmds[1..][..k - 1];
        if k < |cmds| {
          LogBytesCons(cmds[..k + 1]);
          assert cmds[..k + 1][1..] == cmds[1..][..k];
        }
      }
    }
  }

  /** A log of whole frames, cut after any number of bytes: exactly the commands whose frames
      fit are executed, nothing raises, and what is left is the cut part of the next frame. */
  lemma {:induction false} TornTail(cmds: seq<Command>, n: nat)
    requires AllStorable(cmds) && n <= |LogBytes(cmds)|
    ensures var k := Fitting(cmds, n);
            && |LogBytes(cmds[..k])| <= n
            && Greedy(LogBytes(cmds)[..n])
                 == Stream(cmds[..k], LogBytes(cmds)[|LogBytes(cmds[..k])|..n], false)
            && n - |Greedy(LogBytes(cmds)[..n]).tail| == |LogBytes(cmds[..k])|
            && (k == |cmds| ==> n == |LogBytes(cmds)|)
            && (k < |cmds| ==> Greedy(LogBytes(cmds)[..n]).tail < Serialize(cmds[k]))
    decreases |cmds|
  {
    hide Serialize, Parse, LogBytes;
    var all := LogBytes(cmds);
    var k := Fitting(cmds, n);
    if cmds == [] {
      GreedyOfNothing();
      LogBytesOfNothing();
    } else {
      var s := Serialize(cmds[0]);
      LogBytesCons(cmds);
      if n < |s| {
        assert all[..n] == s[..n];
        ParseOfStrictPrefix(cmds[0], n);
        assert cmds[..0] == [];
        LogBytesOfNothing();
      } else {
        var rest := LogBytes(cmds[1..]);
        var m := n - |s|;
        TornTail(cmds[1..], m);
        assert all[..n] == s + rest[..m];
        ParseOfSerialize(cmds[0], rest[..m]);
        assert all[..n][|s|..] == rest[..m];
        LogBytesCons(cmds[..k]);
        assert cmds[..k][1..] == cmds[1..][..k - 1];
        assert [cmds[0]] + cmds[1..][..k - 1] == cmds[..k];
        var c := |LogBytes(cmds[1..][..k - 1])|;
        assert all[|s| + c..n] == all[..n][|s|..][c..];
      }
    }
  }

  /** The same for a reader that starts at a frame boundary inside the log. */
  lemma {:induction false} TornSegment(cmds: seq<Command>, j: nat, n: nat)
    requires AllStorable(cmds) && j <= |cmds|
    requires |LogBytes(cmds[..j])| <= n <= |LogBytes(cmds)|
    ensures var m := Fitting(cmds[j..], n - |LogBytes(cmds[..j])|);
            var out := Greedy(LogBytes(cmds)[|LogBytes(cmds[..j])|..n]);
            j + m <= |cmds| && out.commands == cmds[j..j + m] && !out.raised
  {
    hide Serialize, Parse, Fitting, LogBytes;
    LogBytesSplit(cmds, j);
    var off := |LogBytes(cmds[..j])|;
    TornTail(cmds[j..], n - off);
    SliceAfter(LogBytes(cmds[..j]), LogBytes(cmds[j..]), n);
    var m := Fitting(cmds[j..], n - off);
    assert cmds[j..][..m] == cmds[j..j + m];
  }
}
