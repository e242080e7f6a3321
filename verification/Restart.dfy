/** A restart on a torn log: the file is reopened for appending behind the cut frame, since the
    truncation of the tail cannot work (src/common/aof.cpp), and later frames follow it. */
module Restart {
  import opened ByteStrings
  import opened Decimal
  import opened Resp
  import opened Recovery
  import opened FrameLaw

  /** What recovery makes of a torn log that was written to again. */
  function Recovered(earlier: seq<Command>, torn: Bytes, later: seq<Command>): seq<Command> {
    Greedy(LogBytes(earlier) + (torn + LogBytes(later))).commands
  }

  lemma {:induction false} GreedyOfLog(cmds: seq<Command>)
    requires AllStorable(cmds)
    ensures Greedy(LogBytes(cmds)) == Stream(cmds, [], false)
    decreases |cmds|
  {
    hide Serialize, Parse, LogBytes, Storable;
    if cmds == [] {
      LogBytesOfNothing();
      GreedyOfNothing();
    } else {
      LogBytesCons(cmds);
      var s, rest := Serialize(cmds[0]), LogBytes(cmds[1..]);
      ParseOfSerialize(cmds[0], rest);
      assert (s + rest)[|s|..] == rest;
      GreedyOfLog(cmds[1..]);
      assert [cmds[0]] + cmds[1..] == cmds;
    }
  }

  /** The commands of the first life are always recovered; the rest depends on the cut alone. */
  lemma EarlierSurvive(earlier: seq<Command>, torn: Bytes, later: seq<Command>)
    requires AllStorable(earlier)
    ensures Recovered(earlier, torn, later) == earlier + Greedy(torn + LogBytes(later)).commands
  {
    hide Greedy, LogBytes;
    GreedyOfLog(earlier);
    GreedyAppend(LogBytes(earlier), torn + LogBytes(later));
    assert [] + (torn + LogBytes(later)) == torn + LogBytes(later);
  }

  /** Any crash point leaves whole frames and a strict prefix of the next one, so this covers every
      second life. */
  lemma TwoLives(cmds: seq<Command>, n: nat, later: seq<Command>)
    requires AllStorable(cmds) && n <= |LogBytes(cmds)|
    ensures var k := Fitting(cmds, n);
            && |LogBytes(cmds[..k])| <= n
            && var torn := LogBytes(cmds)[|LogBytes(cmds[..k])|..n];
               && (if k < |cmds| then torn < Serialize(cmds[k]) else torn == [])
               && Greedy(LogBytes(cmds)[..n] + LogBytes(later)).commands == Recovered(cmds[..k], torn, later)
  {
    hide Greedy, LogBytes, Serialize, Fitting, Recovered, Storable;
    TornTail(cmds, n);
    var k := Fitting(cmds, n);
    var torn := LogBytes(cmds)[|LogBytes(cmds[..k])|..n];
    GreedyAppend(LogBytes(cmds)[..n], LogBytes(later));
    EarlierSurvive(cmds[..k], torn, later);
    if k == |cmds| { assert cmds[..k] == cmds; }
  }

  // ---------- cut numbers ----------

  lemma {:induction false} PrefixOfToDecimal(m: nat, n: nat) returns (v: nat)
    requires 1 <= n <= |ToDecimal(m)|
    ensures ToDecimal(m)[..n] == ToDecimal(v)
    ensures v <= m && (m > 0 ==> v > 0) && (n == |ToDecimal(m)| ==> v == m)
  {
    if n == |ToDecimal(m)| {
      v := m;
    } else {
      v := PrefixOfToDecimal(m / 10, n);
      assert ToDecimal(m)[..n] == ToDecimal(m / 10)[..n];
    }
  }

  /** A printed number cut after at least one digit, perhaps with its CR, reads as a number of its
      first digits, whatever non-digit follows. */
  lemma CutNumber(m: nat, x: Bytes, rest: Bytes)
    requires x != [] && x <= ToDecimal(m) + [CR] && (rest == [] || !IsDigit(rest[0]))
    ensures ScanNumber(x + rest) == ScanNumber(x) && LF !in x
    ensures ScanNumber(x).Number? && !ScanNumber(x).negative
    ensures ScanNumber(x).magnitude <= m && (m > 0 ==> ScanNumber(x).magnitude > 0)
  {
    hide ToDecimal, ScanNumber;
    var d := ToDecimal(m);
    var n := if |x| <= |d| then |x| else |d|;
    var v := PrefixOfToDecimal(m, n);
    var end := x[n..];
    assert x == ToDecimal(v) + end;
    assert end == [] || end == [CR];
    ScanOfToDecimal(v, end);
    ScanOfToDecimal(v, end + rest);
    assert x + rest == ToDecimal(v) + (end + rest);
  }

  lemma StarIsNoNumber(rest: Bytes)
    ensures ScanNumber([STAR] + rest) == NoNumber
  {
  }

  // ---------- a cut inside the count ----------

  lemma FindCrlfPast(buf: Bytes, start: nat, text: Bytes)
    requires LF !in text && HasAt(buf, start, text) && HasAt(buf, start + |text|, CRLF)
    ensures FindCrlf(buf, start) == Some(start + |text|)
  {
    HasCrlf(buf, start + |text|);
    forall j | start <= j < start + |text|
      ensures !IsCrlf(buf, j)
    {
      if j + 1 < start + |text| {
        assert buf[j + 1] == buf[start..start + |text|][j + 1 - start] == text[j + 1 - start];
      }
    }
  }

  /** The parse of a cut count, the frame of a command behind it, and any bytes after that. */
  lemma ParseAfterCut(x: Bytes, c: Command, post: Bytes)
    requires LF !in x
    ensures var buf := [STAR] + x + (Serialize(c) + post);
            var text := x + ([STAR] + ToDecimal(|c|));
            var pos := 1 + |text| + 2;
            && HasAt(buf, pos, Bulks(c)) && pos + |Bulks(c)| <= |buf| && buf[pos + |Bulks(c)|..] == post
            && Parse(buf) == match Stoi(text)
                             case Thrown => NoFrame
                             case Converted(num) =>
                               if num < 0 then Raised else Resume([], ParseBulks(buf, pos, num))
  {
    hide ToDecimal, FindCrlf, ParseBulks, Stoi, Bulks, HasAt, Serialize;
    var buf := [STAR] + x + (Serialize(c) + post);
    var text := x + ([STAR] + ToDecimal(|c|));
    CutPieces(x, c, post);
    HasFirst(buf, 0, STAR);
    FindCrlfPast(buf, 1, text);
    assert buf[1..1 + |text|] == text by { HasText(buf, 1, text); }
    if Stoi(text).Converted? && Stoi(text).value >= 0 {
      ResumeFromStart(ParseBulks(buf, 1 + |text| + 2, Stoi(text).value));
    }
  }

  /** Where the pieces of such a buffer stand. */
  lemma CutPieces(x: Bytes, c: Command, post: Bytes)
    ensures var buf := [STAR] + x + (Serialize(c) + post);
            var text := x + ([STAR] + ToDecimal(|c|));
            var pos := 1 + |text| + 2;
            && HasAt(buf, 0, [STAR]) && HasAt(buf, 1, text) && HasAt(buf, 1 + |text|, CRLF)
            && HasAt(buf, pos, Bulks(c)) && pos + |Bulks(c)| <= |buf| && buf[pos + |Bulks(c)|..] == post
  {
    hide ToDecimal, Bulks, HasAt;
    var buf := [STAR] + x + (Serialize(c) + post);
    var d := [STAR] + ToDecimal(|c|);
    var text := x + d;
    var whole := [STAR] + text + CRLF + Bulks(c);
    assert buf == whole + post by {
      assert Serialize(c) == d + CRLF + Bulks(c);
      Assoc([STAR], x, d);
      Assoc([STAR] + x, d, CRLF);
      Assoc([STAR] + x, d + CRLF, Bulks(c));
      Assoc([STAR] + x, Serialize(c), post);
    }
    Front(whole, post);
    HasAtSplit(buf, 0, [STAR] + text + CRLF, Bulks(c));
    HasAtSplit(buf, 0, [STAR] + text, CRLF);
    HasAtSplit(buf, 0, [STAR], text);
    assert buf[|whole|..] == post;
  }

  lemma Front(a: Bytes, b: Bytes)
    ensures HasAt(a + b, 0, a)
  {
  }

  lemma HasText(buf: Bytes, pos: nat, s: Bytes)
    requires HasAt(buf, pos, s)
    ensures pos + |s| <= |buf| && buf[pos..pos + |s|] == s
  {
  }

  lemma {:induction false} BulksSplit(parts: Command, k: nat)
    requires k <= |parts|
    ensures Bulks(parts) == Bulks(parts[..k]) + Bulks(parts[k..])
    decreases k
  {
    hide Bulk;
    if k == 0 {
      assert parts[..0] == [] && parts[0..] == parts;
    } else {
      BulksSplit(parts[1..], k - 1);
      assert parts[..k][1..] == parts[1..][..k - 1];
      assert parts[1..][k - 1..] == parts[k..];
      Assoc(Bulk(parts[0]), Bulks(parts[1..][..k - 1]), Bulks(parts[k..]));
    }
  }

  /** No frame of n parts or more where only fewer can be read. */
  lemma {:induction false} TooFewBulks(buf: Bytes, pos: nat, n: nat, num: nat)
    requires pos <= |buf| && n < num
    requires ParseBulks(buf, pos, n).Some? && ParseBulk(buf, ParseBulks(buf, pos, n).value.end).None?
    ensures ParseBulks(buf, pos, num).None?
    decreases n
  {
    hide ParseBulk;
    if n > 0 {
      TooFewBulks(buf, ParseBulk(buf, pos).value.end, n - 1, num - 1);
    }
  }

  lemma NoBulkHere(buf: Bytes, pos: nat)
    requires pos < |buf| ==> buf[pos] != DOLLAR
    ensures ParseBulk(buf, pos).None?
  {
  }

  lemma BulksStart(parts: Command)
    ensures parts != [] ==> Bulks(parts) != [] && Bulks(parts)[0] == DOLLAR
  {
  }

  lemma LogStart(cmds: seq<Command>)
    ensures cmds != [] ==> LogBytes(cmds) != [] && LogBytes(cmds)[0] == STAR
    ensures cmds == [] ==> LogBytes(cmds) == []
  {
    hide LogBytes, Bulks, ToDecimal;
    LogBytesOfNothing();
    if cmds != [] { LogBytesCons(cmds); }
  }

  /** The bulks of c are read as a count of v says: too few, all of them, or not at all. */
  lemma CountedBulks(buf: Bytes, pos: nat, c: Command, v: nat)
    requires Storable(c) && HasAt(buf, pos, Bulks(c))
    requires pos + |Bulks(c)| < |buf| ==> buf[pos + |Bulks(c)|] == STAR
    ensures v > |c| ==> ParseBulks(buf, pos, v).None?
    ensures v <= |c| ==>
      && ParseBulks(buf, pos, v) == Some(Elements(c[..v], pos + |Bulks(c[..v])|))
      && Bulks(c) == Bulks(c[..v]) + Bulks(c[v..])
  {
    hide Bulks, ParseBulks;
    var n := if v <= |c| then v else |c|;
    BulksSplit(c, n);
    HasAtSplit(buf, pos, Bulks(c[..n]), Bulks(c[n..]));
    ParseBulksOfBulks(buf, pos, c[..n]);
    if v > |c| {
      assert c[..n] == c;
      NoBulkHere(buf, pos + |Bulks(c)|);
      TooFewBulks(buf, pos, n, v);
    }
  }

  /** What recovery reads when the first life ended inside the count of a frame. */
  function AfterCutCount(count: Conversion, later: seq<Command>): seq<Command>
    requires later != []
  {
    match count
    case Thrown => []
    case Converted(v) =>
      if v == |later[0]| then later                        // the cut goes unnoticed
      else if 0 <= v < |later[0]| then [later[0][..v]]     // a command nobody issued
      else []                                              // nothing, now and for ever
  }

  lemma CutCount(x: Bytes, m: nat, later: seq<Command>)
    requires x <= ToDecimal(m) + [CR] && m < TWO_31 && later != [] && AllStorable(later)
    ensures Greedy([STAR] + x + LogBytes(later)).commands == AfterCutCount(Stoi(x), later)
  {
    hide LogBytes, Bulks, ToDecimal, Parse, ParseBulks, ScanNumber, HasAt, Serialize;
    var c, post := later[0], LogBytes(later[1..]);
    LogBytesCons(later);
    LogStart(later[1..]);
    var d := [STAR] + ToDecimal(|c|);
    var buf, pos := [STAR] + x + (Serialize(c) + post), 1 + |x + d| + 2;
    CutStoi(x, m, d);
    ParseAfterCut(x, c, post);
    if x != [] {
      var v := Stoi(x).value;
      assert buf[pos + |Bulks(c)|..] == post;
      CountedBulks(buf, pos, c, v);
      if v <= |c| {
        assert [] + c[..v] == c[..v];
        RestOfCut(buf, pos, c, v, later);
      }
    }
  }

  lemma CutStoi(x: Bytes, m: nat, d: Bytes)
    requires x <= ToDecimal(m) + [CR] && m < TWO_31 && d != [] && d[0] == STAR
    ensures LF !in x && Stoi(x + d) == Stoi(x)
    ensures x == [] <==> Stoi(x) == Thrown
    ensures x != [] ==> Stoi(x).value >= 0
  {
    hide ScanNumber, ToDecimal;
    if x == [] {
      EmptyIsNoNumber();
      assert x + d == [STAR] + d[1..];
      StarIsNoNumber(d[1..]);
    } else {
      CutNumber(m, x, d);
    }
  }

  /** Behind the parts that were counted come the other parts, which are no frame, or the other
      commands. */
  lemma RestOfCut(buf: Bytes, pos: nat, c: Command, v: nat, later: seq<Command>)
    requires v <= |c| && later != [] && c == later[0] && AllStorable(later)
    requires HasAt(buf, pos, Bulks(c)) && buf[pos + |Bulks(c)|..] == LogBytes(later[1..])
    requires Bulks(c) == Bulks(c[..v]) + Bulks(c[v..])
    requires Parse(buf) == Frame(c[..v], pos + |Bulks(c[..v])|)
    ensures Greedy(buf).commands == if v == |c| then later else [c[..v]]
  {
    hide LogBytes, Bulks, Parse, HasAt;
    var n := pos + |Bulks(c[..v])|;
    var rest := buf[n..];
    if v == |c| {
      assert c[..v] == c;
      GreedyOfLog(later[1..]);
      assert [c] + later[1..] == later;
    } else {
      HasAtSplit(buf, pos, Bulks(c[..v]), Bulks(c[v..]));
      BulksStart(c[v..]);
      StandsFirst(buf, n, Bulks(c[v..]));
      NotAFrame(rest);
    }
  }

  lemma StandsFirst(buf: Bytes, pos: nat, s: Bytes)
    requires HasAt(buf, pos, s) && s != []
    ensures buf[pos..] != [] && buf[pos..][0] == s[0]
  {
    assert buf[pos..pos + |s|][0] == buf[pos];
  }

  lemma NotAFrame(buf: Bytes)
    requires buf != [] && buf[0] != STAR
    ensures Greedy(buf).commands == []
  {
  }

  // ---------- a cut behind the count ----------

  function Header(c: Command): Bytes {
    [STAR] + ToDecimal(|c|) + CRLF
  }

  lemma ParseHeader(buf: Bytes, c: Command)
    requires |c| < TWO_31 && HasAt(buf, 0, Header(c))
    ensures Parse(buf) == Resume([], ParseBulks(buf, |Header(c)|, |c|))
  {
    hide ToDecimal, FindCrlf, ParseBulks, Stoi;
    var d := ToDecimal(|c|);
    HasAtSplit(buf, 0, [STAR] + d, CRLF);
    HasAtSplit(buf, 0, [STAR], d);
    HasFirst(buf, 0, STAR);
    FindCrlfAfter(buf, 1, d);
    StoiOfToDecimal(|c|);
    ResumeFromStart(ParseBulks(buf, 1 + |d| + 2, |c|));
  }

  lemma BulkLength(buf: Bytes, pos: nat, text: Bytes)
    requires pos < |buf| && buf[pos] == DOLLAR
    requires FindCrlf(buf, pos + 1) == Some(pos + 1 + |text|) && HasAt(buf, pos + 1, text)
    ensures Stol(text) == Thrown ==> ParseBulk(buf, pos).None?
    ensures ParseBulk(buf, pos).Some? && Stol(text).value >= 0 ==>
      |ParseBulk(buf, pos).value.part| == Stol(text).value
  {
    hide FindCrlf, Stol;
  }

  /** A bulk string cut anywhere and followed by a frame: if anything is read for it, that is empty
      exactly if the string was. */
  lemma CutBulk(buf: Bytes, pos: nat, p: Bytes, u: Bytes, more: Bytes, k: nat)
    requires |p| < TWO_63 && u <= Bulk(p) + more
    requires HasAt(buf, pos, u + ([STAR] + ToDecimal(k) + CRLF))
    ensures ParseBulk(buf, pos).Some? ==> (ParseBulk(buf, pos).value.part == [] <==> p == [])
  {
    hide ToDecimal, HasAt, ParseBulk;
    var head := [DOLLAR] + ToDecimal(|p|) + CRLF;
    assert head <= Bulk(p) + more;
    HasAtSplit(buf, pos, u, [STAR] + ToDecimal(k) + CRLF);
    if u == [] {
      HasAtSplit(buf, pos, [STAR] + ToDecimal(k), CRLF);
      HasAtSplit(buf, pos, [STAR], ToDecimal(k));
      HasFirst(buf, pos, STAR);
      NoBulkHere(buf, pos);
    } else if |u| >= |head| {
      assert u == head + u[|head|..];
      HasAtSplit(buf, pos, head, u[|head|..]);
      WholeLength(buf, pos, p);
    } else {
      assert u <= head;
      assert u == [DOLLAR] + u[1..];
      CutLength(buf, pos, p, u[1..], [STAR] + ToDecimal(k));
    }
  }

  lemma {:induction false} WholeLength(buf: Bytes, pos: nat, p: Bytes)
    requires |p| < TWO_63 && HasAt(buf, pos, [DOLLAR] + ToDecimal(|p|) + CRLF)
    ensures ParseBulk(buf, pos).Some? ==> |ParseBulk(buf, pos).value.part| == |p|
  {
    hide ToDecimal, HasAt, ParseBulk, Stol, FindCrlf;
    var d := ToDecimal(|p|);
    HasAtSplit(buf, pos, [DOLLAR] + d, CRLF);
    HasAtSplit(buf, pos, [DOLLAR], d);
    HasFirst(buf, pos, DOLLAR);
    FindCrlfAfter(buf, pos + 1, d);
    StolOfToDecimal(|p|);
    BulkLength(buf, pos, d);
  }

  lemma {:induction false} CutLength(buf: Bytes, pos: nat, p: Bytes, x: Bytes, next: Bytes)
    requires |p| < TWO_63 && x <= ToDecimal(|p|) + [CR]
    requires next != [] && next[0] == STAR && LF !in next
    requires HasAt(buf, pos, [DOLLAR] + x + (next + CRLF))
    ensures ParseBulk(buf, pos).Some? ==> (ParseBulk(buf, pos).value.part == [] <==> p == [])
  {
    hide *;
    CutStol(x, |p|, next);
    LengthText(buf, pos, x, next);
    BulkEmptiness(buf, pos, x + next, p);
  }

  lemma {:induction false} BulkEmptiness(buf: Bytes, pos: nat, text: Bytes, p: Bytes)
    requires pos < |buf| && buf[pos] == DOLLAR
    requires FindCrlf(buf, pos + 1) == Some(pos + 1 + |text|) && HasAt(buf, pos + 1, text)
    requires Stol(text) == Thrown || (Stol(text).value >= 0 && (Stol(text).value == 0 <==> |p| == 0))
    ensures ParseBulk(buf, pos).Some? ==> (ParseBulk(buf, pos).value.part == [] <==> p == [])
  {
    hide *;
    BulkLength(buf, pos, text);
  }

  lemma LengthText(buf: Bytes, pos: nat, x: Bytes, next: Bytes)
    requires LF !in x && LF !in next && HasAt(buf, pos, [DOLLAR] + x + (next + CRLF))
    ensures pos < |buf| && buf[pos] == DOLLAR && HasAt(buf, pos + 1, x + next)
    ensures FindCrlf(buf, pos + 1) == Some(pos + 1 + |x + next|)
  {
    hide HasAt, FindCrlf;
    var text := x + next;
    Assoc([DOLLAR] + x, next, CRLF);
    Assoc([DOLLAR], x, next);
    HasAtSplit(buf, pos, [DOLLAR] + text, CRLF);
    HasAtSplit(buf, pos, [DOLLAR], text);
    HasFirst(buf, pos, DOLLAR);
    FindCrlfPast(buf, pos + 1, text);
  }

  lemma CutStol(x: Bytes, m: nat, d: Bytes)
    requires x <= ToDecimal(m) + [CR] && m < TWO_63 && d != [] && d[0] == STAR
    ensures LF !in x
    ensures Stol(x + d) == Thrown || (Stol(x + d).value >= 0 && (Stol(x + d).value == 0 <==> m == 0))
  {
    hide ScanNumber, ToDecimal;
    if x == [] {
      assert x + d == [STAR] + d[1..];
      StarIsNoNumber(d[1..]);
    } else {
      CutNumber(m, x, d);
    }
  }

  // ---------- the theorem ----------

  /** After a first life that ended in `torn`, every second life whose first command has k parts
      is recovered in full. */
  ghost predicate SafeRestart(torn: Bytes, k: nat) {
    forall earlier, later ::
      AllStorable(earlier) && AllStorable(later) && later != [] && |later[0]| == k ==>
        Recovered(earlier, torn, later) == earlier + later
  }

  lemma CutInHeader(torn: Bytes, c: Command)
    requires torn <= Serialize(c) && torn != [] && |torn| < |Header(c)|
    ensures torn == [STAR] + torn[1..] && torn[1..] <= ToDecimal(|c|) + [CR]
  {
    hide ToDecimal, Bulks;
    assert Header(c) <= Serialize(c);
    assert torn <= Header(c);
  }

  /** Exactly what is recovered when the cut came before the count's line was complete. */
  lemma RestartInCount(earlier: seq<Command>, torn: Bytes, c: Command, later: seq<Command>)
    requires Storable(c) && torn <= Serialize(c) && torn != [] && |torn| < |Header(c)|
    requires AllStorable(earlier) && AllStorable(later) && later != []
    ensures Recovered(earlier, torn, later) == earlier + AfterCutCount(Stoi(torn[1..]), later)
  {
    hide Recovered, Greedy, LogBytes, ToDecimal, Serialize, Stoi, AfterCutCount;
    EarlierSurvive(earlier, torn, later);
    CutInHeader(torn, c);
    CutCount(torn[1..], |c|, later);
  }

  lemma TornBuffer(torn: Bytes, c: Command, first: Command)
    requires torn < Serialize(c) && |torn| >= |Header(c)|
    ensures c != [] && torn[|Header(c)|..] <= Bulk(c[0]) + Bulks(c[1..])
    ensures var buf := torn + LogBytes([first]);
            && HasAt(buf, 0, Header(c))
            && HasAt(buf, |Header(c)|, torn[|Header(c)|..] + ([STAR] + ToDecimal(|first|) + CRLF))
  {
    hide LogBytes, ToDecimal, Bulk, HasAt, Bulks;
    var h := Header(c);
    var u := torn[|h|..];
    assert Bulks([]) == [] by { BulksOfNothing(); }
    assert Serialize(c)[|h|..] == Bulks(c);
    assert torn[|h|..] <= Serialize(c)[|h|..];
    BulksCons(c);
    LogBytesCons([first]);
    var next := [STAR] + ToDecimal(|first|) + CRLF;
    var post := Bulks(first) + LogBytes([first][1..]);
    var buf := torn + LogBytes([first]);
    assert torn == h + u;
    assert buf == h + (u + next) + post by {
      Assoc(next, Bulks(first), LogBytes([first][1..]));
      Assoc(torn, next, post);
      Assoc(h, u, next);
    }
    Front(h + (u + next), post);
    HasAtSplit(buf, 0, h, u + next);
  }

  lemma BulksOfNothing()
    ensures Bulks([]) == []
  {
  }

  lemma BulksCons(c: Command)
    requires c != []
    ensures Bulks(c) == Bulk(c[0]) + Bulks(c[1..])
  {
  }

  lemma GreedyFirst(buf: Bytes)
    ensures Greedy(buf).commands != [] ==>
      Parse(buf).Frame? && Greedy(buf).commands[0] == Parse(buf).parts
  {
    hide Parse;
  }

  lemma FirstBulk(buf: Bytes, pos: nat, num: nat)
    requires pos <= |buf| && num > 0 && ParseBulks(buf, pos, num).Some?
    ensures ParseBulk(buf, pos).Some?
    ensures ParseBulks(buf, pos, num).value.parts[0] == ParseBulk(buf, pos).value.part
  {
    hide ParseBulk;
  }

  /** A cut further on: whatever is read in place of the next command is not what was logged, for
      some command of each size. */
  lemma RestartBehindCount(torn: Bytes, c: Command, first: Command)
    requires Storable(c) && Storable(first) && torn < Serialize(c) && |torn| >= |Header(c)|
    requires |first| == |c| && first != [] ==> (first[0] == [] <==> c[0] != [])
    ensures Greedy(torn + LogBytes([first])).commands != [first]
  {
    hide Greedy, LogBytes, Serialize, ToDecimal, ParseBulks, Bulks, HasAt, Parse, Bulk;
    var buf := torn + LogBytes([first]);
    var h := |Header(c)|;
    TornBuffer(torn, c, first);
    ParseHeader(buf, c);
    GreedyFirst(buf);
    if |first| == |c| && Parse(buf).Frame? {
      var u := torn[h..];
      CutBulk(buf, h, c[0], u, Bulks(c[1..]), |first|);
      FirstBulk(buf, h, |c|);
    }
  }

  /** A restart on a torn log is safe exactly if nothing was torn, or the cut came before the
      count's line was complete and what is left of the count is the number of parts of the first
      command logged afterwards. */
  lemma RestartSafeExactly(torn: Bytes, c: Command, k: nat)
    requires Storable(c) && torn < Serialize(c) && k < TWO_31
    ensures SafeRestart(torn, k) <==>
      torn == [] || (|torn| < |Header(c)| && Stoi(torn[1..]) == Converted(k))
  {
    hide Recovered, Greedy, LogBytes, Serialize, ToDecimal, Stoi, Header;
    var first: Command := seq(k, i requires 0 <= i < k => if k == |c| && i == 0 && c[0] == [] then [0] else []);
    assert AllStorable([first]) && AllStorable([]);
    if torn == [] {
      UntornIsSafe(k);
    } else if |torn| < |Header(c)| {
      forall earlier, later | AllStorable(earlier) && AllStorable(later) && later != [] && |later[0]| == k
        ensures Recovered(earlier, torn, later) == earlier + AfterCutCount(Stoi(torn[1..]), later)
      {
        RestartInCount(earlier, torn, c, later);
      }
      if Stoi(torn[1..]) != Converted(k) {
        CutInHeader(torn, c);
        CutCount(torn[1..], |c|, [first]);
        Unsafe(torn, first);
      }
    } else {
      RestartBehindCount(torn, c, first);
      Unsafe(torn, first);
    }
  }

  lemma Unsafe(torn: Bytes, first: Command)
    requires Storable(first)
    ensures Greedy(torn + LogBytes([first])).commands != [first] ==> !SafeRestart(torn, |first|)
  {
    hide Recovered, Greedy, LogBytes;
    EarlierSurvive([], torn, [first]);
    assert [] + [first] == [first];
    assert SafeRestart(torn, |first|) ==> Recovered([], torn, [first]) == [] + [first];
  }

  lemma UntornIsSafe(k: nat)
    ensures SafeRestart([], k)
  {
    hide Recovered, Greedy, LogBytes, Storable;
    forall earlier, later | AllStorable(earlier) && AllStorable(later)
      ensures Recovered(earlier, [], later) == earlier + later
    {
      EarlierSurvive(earlier, [], later);
      assert [] + LogBytes(later) == LogBytes(later);
      GreedyOfLog(later);
    }
  }

  // ---------- a cut inside a value ----------

  lemma FindCrlfShift(a: Bytes, w: Bytes, p: nat)
    ensures FindCrlf(w, p).None? ==> FindCrlf(a + w, |a| + p).None?
    ensures FindCrlf(w, p).Some? ==> FindCrlf(a + w, |a| + p) == Some(|a| + FindCrlf(w, p).value)
  {
    CrlfShift(a, w);
    var f, g := FindCrlf(w, p), FindCrlf(a + w, |a| + p);
    if f.Some? {
      assert IsCrlf(a + w, |a| + f.value);
    }
    if g.Some? {
      assert IsCrlf(w, g.value - |a|);
    }
  }

  lemma CrlfShift(a: Bytes, w: Bytes)
    ensures forall i: nat :: IsCrlf(a + w, |a| + i) <==> IsCrlf(w, i)
  {
  }

  lemma {:induction false} ParseBulkShift(a: Bytes, w: Bytes, p: nat)
    ensures ParseBulk(w, p).None? ==> ParseBulk(a + w, |a| + p).None?
    ensures ParseBulk(w, p).Some? ==>
      ParseBulk(a + w, |a| + p) == Some(Element(ParseBulk(w, p).value.part, |a| + ParseBulk(w, p).value.end))
  {
    hide FindCrlf, Stol, IsCrlf;
    FindCrlfShift(a, w, p + 1);
    CrlfShift(a, w);
    if p < |w| && FindCrlf(w, p + 1).Some? {
      var rn := FindCrlf(w, p + 1).value;
      CrlfInside(w, rn);
      assert (a + w)[|a| + p + 1..|a| + rn] == w[p + 1..rn];
      var slen := Stol(w[p + 1..rn]);
      if slen.Converted? && slen.value >= 0 && rn + 2 + slen.value + 2 <= |w| {
        assert (a + w)[|a| + rn + 2..|a| + rn + 2 + slen.value] == w[rn + 2..rn + 2 + slen.value];
        assert IsCrlf(a + w, |a| + (rn + 2 + slen.value)) <==> IsCrlf(w, rn + 2 + slen.value);
      }
    }
  }

  lemma CrlfInside(buf: Bytes, i: nat)
    requires IsCrlf(buf, i)
    ensures i + 2 <= |buf|
  {
  }

  lemma {:induction false} ParseBulksShift(a: Bytes, w: Bytes, p: nat, num: nat)
    requires p <= |w|
    ensures ParseBulks(w, p, num).None? ==> ParseBulks(a + w, |a| + p, num).None?
    ensures ParseBulks(w, p, num).Some? ==>
      ParseBulks(a + w, |a| + p, num)
        == Some(Elements(ParseBulks(w, p, num).value.parts, |a| + ParseBulks(w, p, num).value.end))
    decreases num
  {
    hide ParseBulk;
    if num > 0 {
      ParseBulkShift(a, w, p);
      if ParseBulk(w, p).Some? {
        ParseBulksShift(a, w, ParseBulk(w, p).value.end, num - 1);
      }
    }
  }

  /** More bulks after those already read. */
  lemma {:induction false} ParseBulksMore(buf: Bytes, pos: nat, n: nat, num: nat)
    requires pos <= |buf| && ParseBulks(buf, pos, n).Some?
    ensures var first := ParseBulks(buf, pos, n).value;
            var rest := ParseBulks(buf, first.end, num);
            && (rest.None? ==> ParseBulks(buf, pos, n + num).None?)
            && (rest.Some? ==>
                  ParseBulks(buf, pos, n + num) == Some(Elements(first.parts + rest.value.parts, rest.value.end)))
    decreases n
  {
    hide ParseBulk;
    var first := ParseBulks(buf, pos, n).value;
    var rest := ParseBulks(buf, first.end, num);
    if n == 0 {
      if rest.Some? { assert [] + rest.value.parts == rest.value.parts; }
    } else {
      var e := ParseBulk(buf, pos).value;
      ParseBulksMore(buf, e.end, n - 1, num);
      var mid := ParseBulks(buf, e.end, n - 1).value;
      if rest.Some? {
        assert [e.part] + (mid.parts + rest.value.parts) == [e.part] + mid.parts + rest.value.parts;
      }
    }
  }

  /** A frame cut after r bytes of its j-th part's data. */
  function CutInValue(c: Command, j: nat, r: nat): Bytes
    requires j < |c| && r <= |c[j]|
  {
    Header(c) + Bulks(c[..j]) + ([DOLLAR] + ToDecimal(|c[j]|) + CRLF) + c[j][..r]
  }

  lemma CutInValueIsPrefix(c: Command, j: nat, r: nat)
    requires j < |c| && r <= |c[j]|
    ensures CutInValue(c, j, r) < Serialize(c)
  {
    hide ToDecimal, Bulks;
    var head := [DOLLAR] + ToDecimal(|c[j]|) + CRLF;
    BulksSplit(c, j);
    BulksCons(c[j..]);
    var more := Bulks(c[j..][1..]);
    var front := Header(c) + Bulks(c[..j]);
    assert c[j] == c[j][..r] + c[j][r..];
    assert Serialize(c) == CutInValue(c, j, r) + (c[j][r..] + CRLF + more) by {
      assert Bulk(c[j]) == head + c[j] + CRLF;
      Assoc(Header(c), Bulks(c[..j]), Bulks(c[j..]));
      assert Serialize(c) == front + (head + c[j] + CRLF + more);
      assert head + c[j] + CRLF + more == head + c[j][..r] + (c[j][r..] + CRLF + more);
    }
  }

  /** The part that was cut takes the missing bytes from what follows, if a CR LF stands right
      behind them. */
  lemma {:induction false} CutPart(a: Bytes, p: Bytes, r: nat, w: Bytes)
    requires |p| < TWO_63 && r <= |p|
    ensures var torn := a + ([DOLLAR] + ToDecimal(|p|) + CRLF) + p[..r];
            var m := |p| - r;
            ParseBulk(torn + w, |a|)
              == if IsCrlf(w, m) then Some(Element(p[..r] + w[..m], |torn| + m + 2)) else None
  {
    hide ToDecimal, FindCrlf, Stol, IsCrlf, HasAt;
    var d := ToDecimal(|p|);
    var head := [DOLLAR] + d + CRLF;
    var torn, m := a + head + p[..r], |p| - r;
    var buf, rn := torn + w, |a| + 1 + |d|;
    assert buf == a + head + (p[..r] + w) by { Assoc(a + head, p[..r], w); }
    HasMiddle(a, head, p[..r] + w);
    HasAtSplit(buf, |a|, [DOLLAR] + d, CRLF);
    HasAtSplit(buf, |a|, [DOLLAR], d);
    HasFirst(buf, |a|, DOLLAR);
    FindCrlfAfter(buf, |a| + 1, d);
    PartThere(buf, |a| + 1, d);
    StolOfToDecimal(|p|);
    CrlfShift(torn, w);
    assert IsCrlf(buf, |torn| + m) <==> IsCrlf(w, m);
    if IsCrlf(w, m) {
      CrlfInside(w, m);
      assert buf[rn + 2..rn + 2 + |p|] == p[..r] + w[..m];
    }
  }

  lemma HasMiddle(a: Bytes, b: Bytes, c: Bytes)
    ensures HasAt(a + b + c, |a|, b)
  {
  }

  /** Exactly what the parser makes of a frame cut inside a value and followed by any bytes. */
  lemma {:induction false} ParseOfCutValue(c: Command, j: nat, r: nat, w: Bytes)
    requires Storable(c) && j < |c| && r <= |c[j]|
    ensures var torn := CutInValue(c, j, r);
            var m := |c[j]| - r;
            Parse(torn + w)
              == if !IsCrlf(w, m) then NoFrame
                 else Resume(c[..j] + [c[j][..r] + w[..m]],
                             match ParseBulks(w, m + 2, |c| - j - 1)
                             case None => None
                             case Some(e) => Some(Elements(e.parts, |torn| + e.end)))
  {
    hide ToDecimal, Bulks, ParseBulk, ParseBulks, IsCrlf, Header, Parse, Storable;
    var torn, m := CutInValue(c, j, r), |c[j]| - r;
    var front, num := Header(c) + Bulks(c[..j]), |c| - j - 1;
    WholeBulksFirst(c, j, r, w);
    FitsLong(c, j);
    CutPart(front, c[j], r, w);
    OneMoreBulk(torn + w, |front|, num + 1);
    if IsCrlf(w, m) {
      CrlfInside(w, m);
      ParseBulksShift(torn, w, m + 2, num);
      var rest := ParseBulks(w, m + 2, num);
      ResumeMore(c[..j], [c[j][..r] + w[..m]],
                 if rest.None? then None else Some(Elements(rest.value.parts, |torn| + rest.value.end)));
    }
  }

  lemma FitsLong(c: Command, j: nat)
    requires Storable(c) && j < |c|
    ensures |c[j]| < TWO_63
  {
  }

  lemma ResumeMore(done: Command, more: Command, rest: Option<Elements>)
    ensures rest.None? ==> Resume(done + more, rest) == Resume(done, None) == NoFrame
    ensures rest.Some? ==>
      Resume(done + more, rest) == Resume(done, Some(Elements(more + rest.value.parts, rest.value.end)))
  {
    if rest.Some? { Assoc(done, more, rest.value.parts); }
  }

  /** The parts before the cut one are read as they were written. */
  lemma {:induction false} WholeBulksFirst(c: Command, j: nat, r: nat, w: Bytes)
    requires Storable(c) && j < |c| && r <= |c[j]|
    ensures var buf := CutInValue(c, j, r) + w;
            var pos := |Header(c) + Bulks(c[..j])|;
            pos <= |buf| && Parse(buf) == Resume(c[..j], ParseBulks(buf, pos, |c| - j))
  {
    hide ToDecimal, Bulks, ParseBulk, ParseBulks, HasAt, Header, Parse;
    var buf, h, front := CutInValue(c, j, r) + w, |Header(c)|, Header(c) + Bulks(c[..j]);
    var head := [DOLLAR] + ToDecimal(|c[j]|) + CRLF;
    var more := head + c[j][..r] + w;
    assert buf == front + more by {
      Assoc(front, head, c[j][..r]);
      Assoc(front, head + c[j][..r], w);
    }
    Front(front, more);
    HasAtSplit(buf, 0, Header(c), Bulks(c[..j]));
    ParseHeader(buf, c);
    ParseBulksOfBulks(buf, h, c[..j]);
    ParseBulksMore(buf, h, j, |c| - j);
    ResumeMore([], c[..j], ParseBulks(buf, |front|, |c| - j));
    assert [] + c[..j] == c[..j];
  }

  lemma OneMoreBulk(buf: Bytes, pos: nat, num: nat)
    requires pos <= |buf| && num > 0
    ensures ParseBulk(buf, pos).None? ==> ParseBulks(buf, pos, num).None?
    ensures ParseBulk(buf, pos).Some? ==>
      var e := ParseBulk(buf, pos).value;
      var rest := ParseBulks(buf, e.end, num - 1);
      && (rest.None? ==> ParseBulks(buf, pos, num).None?)
      && (rest.Some? ==>
            ParseBulks(buf, pos, num) == Some(Elements([e.part] + rest.value.parts, rest.value.end)))
  {
    hide ParseBulk;
  }

  ghost predicate CompletesWith(w: Bytes, m: nat, parts: Command, end: nat) {
    IsCrlf(w, m) && m + 2 <= end <= |w| && Pieces(w[m + 2..end], parts)
  }

  /** The bytes go on, after m more, with the CR LF and the `num` pieces that the cut frame lacks. */
  ghost predicate Completes(w: Bytes, m: nat, num: nat) {
    exists parts, end :: |parts| == num && CompletesWith(w, m, parts, end)
  }

  /** A restart behind a cut value executes nothing of the torn frame, and then nothing at all,
      exactly unless the later bytes happen to complete it. */
  lemma {:induction false} CutValueHarmlessExactly(c: Command, j: nat, r: nat, w: Bytes)
    requires Storable(c) && j < |c| && r <= |c[j]|
    ensures Greedy(CutInValue(c, j, r) + w).commands == [] <==> !Completes(w, |c[j]| - r, |c| - j - 1)
  {
    hide Parse, ParseBulks, Pieces, IsCrlf, CutInValue;
    var m, num := |c[j]| - r, |c| - j - 1;
    ParseOfCutValue(c, j, r, w);
    if IsCrlf(w, m) {
      CrlfInside(w, m);
      if ParseBulks(w, m + 2, num).Some? {
        ParsedPieces(w, m + 2, num);
        var e := ParseBulks(w, m + 2, num).value;
        assert CompletesWith(w, m, e.parts, e.end);
      } else if Completes(w, m, num) {
        var parts: Command, end: nat :| |parts| == num && CompletesWith(w, m, parts, end);
        PiecesParse(w, m + 2, w[m + 2..end], parts);
      }
    }
  }
}
