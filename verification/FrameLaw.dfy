/** The frame format as a grammar on bytes, and what the parser and the recovery loops accept in its
    terms, on arbitrary input. */
module FrameLaw {
  import opened ByteStrings
  import opened Decimal
  import opened Resp
  import opened Recovery

  // ---------- the grammar ----------

  /** The CR LF after the text is the first one. */
  predicate Line(text: Bytes) {
    forall i :: 0 <= i < |text| ==> !IsCrlf(text + CRLF, i)
  }

  /** `$text CR LF part CR LF` with the length of the part as text, or, for a negative length,
      `$text CR LF` alone. */
  predicate PieceWith(s: Bytes, text: Bytes, part: Bytes) {
    && Line(text)
    && Stol(text).Converted?
    && if Stol(text).value < 0 then part == [] && s == [DOLLAR] + text + CRLF
       else Stol(text).value == |part| && s == [DOLLAR] + text + CRLF + part + CRLF
  }

  ghost predicate Piece(s: Bytes, part: Bytes) {
    exists text :: PieceWith(s, text, part)
  }

  ghost predicate Pieces(s: Bytes, parts: Command)
    decreases |parts|
  {
    if parts == [] then s == []
    else exists k :: 0 <= k <= |s| && Piece(s[..k], parts[0]) && Pieces(s[k..], parts[1..])
  }

  /** A star line with the number of pieces, and the pieces. */
  ghost predicate FrameWith(s: Bytes, text: Bytes, parts: Command) {
    && Line(text)
    && Stoi(text) == Converted(|parts|)
    && |s| >= 1 + |text| + 2
    && s[..1 + |text| + 2] == [STAR] + text + CRLF
    && Pieces(s[1 + |text| + 2..], parts)
  }

  ghost predicate IsFrame(s: Bytes, parts: Command) {
    exists text :: FrameWith(s, text, parts)
  }

  predicate RaisesWith(s: Bytes, text: Bytes) {
    && Line(text)
    && Stoi(text).Converted? && Stoi(text).value < 0
    && [STAR] + text + CRLF <= s
  }

  /** A star line with a negative count. */
  ghost predicate Raises(s: Bytes) {
    exists text :: RaisesWith(s, text)
  }

  // ---------- lines ----------

  lemma {:induction false} LineFound(buf: Bytes, pos: nat, text: Bytes)
    requires Line(text) && HasAt(buf, pos, text + CRLF)
    ensures FindCrlf(buf, pos) == Some(pos + |text|)
  {
    hide FindCrlf;
    var line := text + CRLF;
    forall i | 0 <= i < |line|
      ensures buf[pos + i] == line[i]
    {
      assert buf[pos..pos + |line|][i] == buf[pos + i];
    }
    assert IsCrlf(buf, pos + |text|);
    forall i | pos <= i < pos + |text|
      ensures !IsCrlf(buf, i)
    {
      assert !IsCrlf(line, i - pos);
    }
    FirstCrlf(buf, pos, pos + |text|);
  }

  lemma FirstCrlf(buf: Bytes, start: nat, at: nat)
    requires start <= at && IsCrlf(buf, at) && forall i :: start <= i < at ==> !IsCrlf(buf, i)
    ensures FindCrlf(buf, start) == Some(at)
  {
  }

  lemma {:induction false} FoundLine(buf: Bytes, pos: nat)
    requires FindCrlf(buf, pos).Some?
    ensures var rn := FindCrlf(buf, pos).value;
            pos <= rn && rn + 2 <= |buf| && Line(buf[pos..rn]) && HasAt(buf, pos, buf[pos..rn] + CRLF)
  {
    var rn := FindCrlf(buf, pos).value;
    var text := buf[pos..rn];
    assert buf[pos..rn + 2] == text + CRLF;
    forall i | 0 <= i < |text|
      ensures !IsCrlf(text + CRLF, i)
    {
      assert !IsCrlf(buf, pos + i);
      assert (text + CRLF)[i] == buf[pos + i] && (text + CRLF)[i + 1] == buf[pos + i + 1];
    }
  }

  // ---------- pieces ----------

  lemma {:induction false} PieceParses(buf: Bytes, pos: nat, s: Bytes, part: Bytes)
    requires HasAt(buf, pos, s) && Piece(s, part)
    ensures ParseBulk(buf, pos) == Some(Element(part, pos + |s|))
  {
    hide FindCrlf, Stol, HasAt, Line, IsCrlf;
    var text :| PieceWith(s, text, part);
    var head := [DOLLAR] + text + CRLF;
    var p := pos + |head|;
    if Stol(text).value >= 0 {
      HasAtSplit(buf, pos, head + part, CRLF);
      HasAtSplit(buf, pos, head, part);
      HasCrlf(buf, p + |part|);
      PartThere(buf, p, part);
      PartThere(buf, p + |part|, CRLF);
    }
    LengthLine(buf, pos, text);
    PartThere(buf, pos, s);
  }

  lemma {:induction false} LengthLine(buf: Bytes, pos: nat, text: Bytes)
    requires Line(text) && HasAt(buf, pos, [DOLLAR] + text + CRLF)
    ensures pos < |buf| && buf[pos] == DOLLAR && FindCrlf(buf, pos + 1) == Some(pos + 1 + |text|)
    ensures pos + 1 + |text| + 2 <= |buf| && buf[pos + 1..pos + 1 + |text|] == text
  {
    hide FindCrlf, HasAt, Line;
    Assoc([DOLLAR], text, CRLF);
    HasAtSplit(buf, pos, [DOLLAR], text + CRLF);
    HasFirst(buf, pos, DOLLAR);
    LineFound(buf, pos + 1, text);
    HasAtSplit(buf, pos + 1, text, CRLF);
    PartThere(buf, pos + 1, text);
    PartThere(buf, pos + 1 + |text|, CRLF);
  }

  lemma PartThere(buf: Bytes, pos: nat, s: Bytes)
    requires HasAt(buf, pos, s)
    ensures pos + |s| <= |buf| && buf[pos..pos + |s|] == s
  {
  }

  /** Every part comes from such a piece: the part stands right before the CR LF that ends it, and
      only a negative length goes without data. */
  lemma {:induction false} ParsedPiece(buf: Bytes, pos: nat)
    requires ParseBulk(buf, pos).Some?
    ensures var r := ParseBulk(buf, pos).value; Piece(buf[pos..r.end], r.part)
  {
    hide FindCrlf, Stol, Line;
    var r := ParseBulk(buf, pos).value;
    FoundLine(buf, pos + 1);
    var rn := FindCrlf(buf, pos + 1).value;
    var text := buf[pos + 1..rn];
    PartThere(buf, pos + 1, text + CRLF);
    var head := [DOLLAR] + text + CRLF;
    assert buf[pos..rn + 2] == [buf[pos]] + buf[pos + 1..rn + 2];
    Assoc([DOLLAR], text, CRLF);
    if Stol(text).value >= 0 {
      assert buf[pos..r.end] == buf[pos..rn + 2] + r.part + CRLF;
    }
    assert PieceWith(buf[pos..r.end], text, r.part);
  }

  lemma {:induction false} PiecesParse(buf: Bytes, pos: nat, s: Bytes, parts: Command)
    requires HasAt(buf, pos, s) && Pieces(s, parts)
    ensures ParseBulks(buf, pos, |parts|) == Some(Elements(parts, pos + |s|))
    decreases |parts|
  {
    hide ParseBulk, HasAt, Piece;
    PartThere(buf, pos, s);
    if parts != [] {
      var k :| 0 <= k <= |s| && Piece(s[..k], parts[0]) && Pieces(s[k..], parts[1..]);
      assert s == s[..k] + s[k..];
      HasAtSplit(buf, pos, s[..k], s[k..]);
      PieceParses(buf, pos, s[..k], parts[0]);
      PiecesParse(buf, pos + k, s[k..], parts[1..]);
      assert [parts[0]] + parts[1..] == parts;
    }
  }

  lemma {:induction false} ParsedPieces(buf: Bytes, pos: nat, num: nat)
    requires pos <= |buf| && ParseBulks(buf, pos, num).Some?
    ensures var r := ParseBulks(buf, pos, num).value; Pieces(buf[pos..r.end], r.parts)
    decreases num
  {
    hide ParseBulk, Piece;
    if num > 0 {
      ParsedPiece(buf, pos);
      var e := ParseBulk(buf, pos).value;
      ParsedPieces(buf, e.end, num - 1);
      var r := ParseBulks(buf, pos, num).value;
      var s, k := buf[pos..r.end], e.end - pos;
      assert r.parts[1..] == ParseBulks(buf, e.end, num - 1).value.parts;
      assert s[..k] == buf[pos..e.end] && s[k..] == buf[e.end..r.end];
    }
  }

  // ---------- frames ----------

  /** On arbitrary bytes, a frame is recognised exactly where one stands. */
  lemma {:induction false} FrameExactly(buf: Bytes, parts: Command, n: nat)
    ensures Parse(buf) == Frame(parts, n) <==> n <= |buf| && IsFrame(buf[..n], parts)
  {
    hide FindCrlf, Stoi, ParseBulks, Line, Pieces;
    if Parse(buf) == Frame(parts, n) {
      FoundLine(buf, 1);
      var rn := FindCrlf(buf, 1).value;
      var text := buf[1..rn];
      PartThere(buf, 1, text + CRLF);
      ParsedPieces(buf, rn + 2, |parts|);
      var s := buf[..n];
      assert s[..rn + 2] == [STAR] + (text + CRLF) == [STAR] + text + CRLF;
      assert s[rn + 2..] == buf[rn + 2..n];
      assert FrameWith(s, text, parts);
    }
    if n <= |buf| && IsFrame(buf[..n], parts) {
      FrameParses(buf, parts, n);
    }
  }

  lemma {:induction false} FrameParses(buf: Bytes, parts: Command, n: nat)
    requires n <= |buf| && IsFrame(buf[..n], parts)
    ensures Parse(buf) == Frame(parts, n)
  {
    hide FindCrlf, Stoi, ParseBulks, Line, Pieces;
    var s := buf[..n];
    var text :| FrameWith(s, text, parts);
    var h := 1 + |text| + 2;
    StarLine(buf, text);
    assert buf[h..n] == s[h..];
    PiecesParse(buf, h, s[h..], parts);
  }

  lemma StarLine(buf: Bytes, text: Bytes)
    requires Line(text) && [STAR] + text + CRLF <= buf
    ensures buf[0] == STAR && FindCrlf(buf, 1) == Some(1 + |text|) && buf[1..1 + |text|] == text
  {
    hide FindCrlf, Line;
    Assoc([STAR], text, CRLF);
    assert buf[1..1 + |text + CRLF|] == text + CRLF;
    LineFound(buf, 1, text);
  }

  /** And it raises exactly on a negative count. */
  lemma {:induction false} RaisedExactly(buf: Bytes)
    ensures Parse(buf) == Raised <==> Raises(buf)
  {
    hide FindCrlf, Stoi, ParseBulks, Line;
    if Parse(buf) == Raised {
      FoundLine(buf, 1);
      var rn := FindCrlf(buf, 1).value;
      var text := buf[1..rn];
      PartThere(buf, 1, text + CRLF);
      assert buf[..rn + 2] == [STAR] + (text + CRLF) == [STAR] + text + CRLF;
      assert RaisesWith(buf, text);
    }
    if Raises(buf) {
      var text :| RaisesWith(buf, text);
      StarLine(buf, text);
    }
  }

  // ---------- whole byte strings ----------

  ghost predicate AreFrames(frames: seq<Bytes>, cmds: seq<Command>) {
    && |frames| == |cmds|
    && forall i :: 0 <= i < |cmds| ==> IsFrame(frames[i], cmds[i])
  }

  ghost predicate SplitsInto(buf: Bytes, frames: seq<Bytes>, cmds: seq<Command>, tail: Bytes) {
    AreFrames(frames, cmds) && buf == Concat(frames) + tail
  }

  /** No frame stands at the front. */
  ghost predicate NoFrameFirst(buf: Bytes) {
    forall n, parts :: 0 <= n <= |buf| ==> !IsFrame(buf[..n], parts)
  }

  /** What recovery makes of arbitrary bytes, exactly: frames one after another as far as they go,
      and an exception if a negative count stands behind them. */
  lemma {:induction false} GreedyExactly(buf: Bytes, cmds: seq<Command>, tail: Bytes, raised: bool)
    ensures Greedy(buf) == Stream(cmds, tail, raised)
       <==> && (exists frames :: SplitsInto(buf, frames, cmds, tail))
            && NoFrameFirst(tail)
            && (raised <==> Raises(tail))
  {
    hide Greedy, Raises, NoFrameFirst, SplitsInto;
    if Greedy(buf) == Stream(cmds, tail, raised) {
      var frames := GreedySplits(buf);
    }
    if (exists frames :: SplitsInto(buf, frames, cmds, tail)) && NoFrameFirst(tail) && (raised <==> Raises(tail)) {
      var frames :| SplitsInto(buf, frames, cmds, tail);
      SplitIsGreedy(buf, frames, cmds, tail);
    }
  }

  lemma {:induction false} GreedySplits(buf: Bytes) returns (frames: seq<Bytes>)
    ensures SplitsInto(buf, frames, Greedy(buf).commands, Greedy(buf).tail)
    ensures NoFrameFirst(Greedy(buf).tail)
    ensures Greedy(buf).raised <==> Raises(Greedy(buf).tail)
    decreases |buf|
  {
    hide Parse, IsFrame, Raises;
    match Parse(buf)
    case Frame(parts, n) =>
      FrameExactly(buf, parts, n);
      var rest := GreedySplits(buf[n..]);
      frames := [buf[..n]] + rest;
      assert frames[1..] == rest;
      Assoc(buf[..n], Concat(rest), Greedy(buf).tail);
      assert buf == buf[..n] + buf[n..];
    case _ =>
      frames := [];
      RaisedExactly(buf);
      forall n, parts | 0 <= n <= |buf|
        ensures !IsFrame(buf[..n], parts)
      {
        FrameExactly(buf, parts, n);
      }
  }

  lemma {:induction false} SplitIsGreedy(buf: Bytes, frames: seq<Bytes>, cmds: seq<Command>, tail: Bytes)
    requires SplitsInto(buf, frames, cmds, tail) && NoFrameFirst(tail)
    ensures Greedy(buf) == Stream(cmds, tail, Raises(tail))
    decreases |cmds|
  {
    hide Parse, IsFrame, Raises;
    if cmds == [] {
      assert buf == tail;
      RaisedExactly(buf);
      if Parse(buf).Frame? {
        FrameExactly(buf, Parse(buf).parts, Parse(buf).consumed);
        assert false;
      }
    } else {
      var f, rest := frames[0], Concat(frames[1..]) + tail;
      Assoc(f, Concat(frames[1..]), tail);
      assert buf == f + rest;
      assert buf[..|f|] == f && buf[|f|..] == rest;
      FrameExactly(buf, cmds[0], |f|);
      SplitIsGreedy(rest, frames[1..], cmds[1..], tail);
      assert [cmds[0]] + cmds[1..] == cmds;
    }
  }
}
