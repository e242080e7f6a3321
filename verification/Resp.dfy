/** The log's frame format: RESP arrays of bulk strings (src/common/aof.cpp). */
module Resp {
  import opened ByteStrings
  import opened Decimal

  type Command = seq<Bytes>

  // ---------- serializing ----------

  function Bulk(p: Bytes): Bytes {
    [DOLLAR] + ToDecimal(|p|) + CRLF + p + CRLF
  }

  function Bulks(parts: Command): Bytes {
    if parts == [] then [] else Bulk(parts[0]) + Bulks(parts[1..])
  }

  function Serialize(parts: Command): (s: Bytes)
    ensures s != []
  {
    [STAR] + ToDecimal(|parts|) + CRLF + Bulks(parts)
  }

  lemma BulkAssembled(before: Bytes, p: Bytes)
    ensures before + [DOLLAR] + ToDecimal(|p|) + CRLF + p + CRLF == before + Bulk(p)
  {
    hide ToDecimal;
    var d := ToDecimal(|p|);
    Assoc(before, [DOLLAR], d);
    Assoc(before, [DOLLAR] + d, CRLF);
    Assoc(before, [DOLLAR] + d + CRLF, p);
    Assoc(before, [DOLLAR] + d + CRLF + p, CRLF);
  }

  method SerializeToResp(parts: Command) returns (out: Bytes)
    ensures out == Serialize(parts)
  {
    hide Bulk, ToDecimal;
    out := [STAR];
    out := out + ToDecimal(|parts|);
    out := out + CRLF;
    var i := 0;
    while i < |parts|
      invariant 0 <= i <= |parts|
      invariant out + Bulks(parts[i..]) == Serialize(parts)
    {
      var p := parts[i];
      ghost var before := out;
      out := out + [DOLLAR];
      out := out + ToDecimal(|p|);
      out := out + CRLF;
      out := out + p;
      out := out + CRLF;
      BulkAssembled(before, p);
      calc {
        Serialize(parts);
        before + Bulks(parts[i..]);
        { assert parts[i..][1..] == parts[i + 1..]; }
        before + (Bulk(p) + Bulks(parts[i + 1..]));
        (before + Bulk(p)) + Bulks(parts[i + 1..]);
      }
      i := i + 1;
    }
    assert parts[i..] == [];
  }

  // ---------- parsing ----------

  predicate IsCrlf(buf: Bytes, i: nat) {
    i + 1 < |buf| && buf[i] == CR && buf[i + 1] == LF
  }

  /** The first CR LF at or after start. */
  function FindCrlf(buf: Bytes, start: nat): (r: Option<nat>)
    ensures r.Some? ==> start <= r.value && IsCrlf(buf, r.value)
    ensures r.Some? ==> forall i :: start <= i < r.value ==> !IsCrlf(buf, i)
    ensures r.None? ==> forall i :: start <= i ==> !IsCrlf(buf, i)
    decreases |buf| - start
  {
    if start + 1 >= |buf| then None
    else if IsCrlf(buf, start) then Some(start)
    else FindCrlf(buf, start + 1)
  }

  method FindCrlfLoop(buf: Bytes, start: nat) returns (r: Option<nat>)
    ensures r == FindCrlf(buf, start)
  {
    var i := start;
    while i + 1 < |buf|
      invariant start <= i
      invariant FindCrlf(buf, i) == FindCrlf(buf, start)
      decreases |buf| - i
    {
      if buf[i] == CR && buf[i + 1] == LF {
        return Some(i);
      }
      i := i + 1;
    }
    r := None;
  }

  datatype Element = Element(part: Bytes, end: nat)

  /** One bulk string at pos; a negative length stands for an empty string without data. */
  function ParseBulk(buf: Bytes, pos: nat): (r: Option<Element>)
    ensures r.Some? ==> pos < r.value.end <= |buf|
  {
    if pos >= |buf| || buf[pos] != DOLLAR then None
    else
      match FindCrlf(buf, pos + 1)
      case None => None
      case Some(rn) =>
        match Stol(buf[pos + 1..rn])
        case Thrown => None
        case Converted(slen) =>
          if slen < 0 then Some(Element([], rn + 2))
          else if rn + 2 + slen + 2 > |buf| then None
          else if !IsCrlf(buf, rn + 2 + slen) then None
          else Some(Element(buf[rn + 2..rn + 2 + slen], rn + 2 + slen + 2))
  }

  datatype Elements = Elements(parts: Command, end: nat)

  function ParseBulks(buf: Bytes, pos: nat, num: nat): (r: Option<Elements>)
    requires pos <= |buf|
    ensures r.Some? ==> pos <= r.value.end <= |buf| && |r.value.parts| == num
    decreases num
  {
    if num == 0 then Some(Elements([], pos))
    else
      match ParseBulk(buf, pos)
      case None => None
      case Some(Element(part, end)) =>
        match ParseBulks(buf, end, num - 1)
        case None => None
        case Some(Elements(parts, last)) => Some(Elements([part] + parts, last))
  }

  /** Frame: true with parts and consumed; NoFrame: false; Raised: parts.reserve throws on a
      negative count, outside the try block. */
  datatype ParseResult = Frame(parts: Command, consumed: nat) | NoFrame | Raised

  lemma EmptyIsNoNumber()
    ensures Stoi([]) == Thrown
  {
  }

  function Parse(buf: Bytes): (r: ParseResult)
    ensures r.Frame? ==> 4 <= r.consumed <= |buf|
  {
    if buf == [] || buf[0] != STAR then NoFrame
    else
      match FindCrlf(buf, 1)
      case None => NoFrame
      case Some(rn) =>
        EmptyIsNoNumber();
        assert rn == 1 ==> buf[1..rn] == [];
        match Stoi(buf[1..rn])
        case Thrown => NoFrame
        case Converted(num) =>
          if num < 0 then Raised
          else
            match ParseBulks(buf, rn + 2, num)
            case None => NoFrame
            case Some(Elements(parts, end)) => Frame(parts, end)
  }

  /** The outcome of the bulk loop once `done` parts are already collected. */
  function Resume(done: Command, rest: Option<Elements>): ParseResult {
    match rest
    case None => NoFrame
    case Some(Elements(parts, end)) => Frame(done + parts, end)
  }

  /** The body of the bulk loop. */
  method ParseOneBulk(buf: Bytes, start: nat) returns (r: Option<Element>)
    ensures r == ParseBulk(buf, start)
  {
    hide FindCrlf, Stol;
    var pos := start;
    if !(pos + 1 <= |buf|) { return None; }
    if buf[pos] != DOLLAR { return None; }
    pos := pos + 1;
    var rn2 := FindCrlfLoop(buf, pos);
    if rn2.None? { return None; }
    var slen := Stol(buf[pos..rn2.value]);
    if slen.Thrown? { return None; }
    pos := rn2.value + 2;
    if slen.value < 0 { return Some(Element([], pos)); }
    if !(pos + slen.value + 2 <= |buf|) { return None; }
    var part := buf[pos..pos + slen.value];
    pos := pos + slen.value;
    if buf[pos] != CR || buf[pos + 1] != LF { return None; }
    pos := pos + 2;
    r := Some(Element(part, pos));
  }

  method TryParseRespArray(buf: Bytes) returns (r: ParseResult)
    ensures r == Parse(buf)
  {
    hide FindCrlf, Stoi, ParseBulk;
    var pos: nat := 0;
    if !(pos + 1 <= |buf|) { return NoFrame; }
    if buf[pos] != STAR { return NoFrame; }
    pos := pos + 1;
    var rn := FindCrlfLoop(buf, pos);
    if rn.None? { return NoFrame; }
    var num := Stoi(buf[pos..rn.value]);
    if num.Thrown? { return NoFrame; }
    pos := rn.value + 2;
    if num.value < 0 { return Raised; }
    var parts: Command := [];
    assert Parse(buf) == Resume([], ParseBulks(buf, pos, num.value)) by {
      ResumeFromStart(ParseBulks(buf, pos, num.value));
    }
    var i: nat := 0;
    while i < num.value
      invariant i <= num.value
      invariant pos <= |buf|
      invariant Parse(buf) == Resume(parts, ParseBulks(buf, pos, num.value - i))
    {
      var elem := ParseOneBulk(buf, pos);
      if elem.None? { return NoFrame; }
      ResumeStep(parts, elem.value.part, ParseBulks(buf, elem.value.end, num.value - i - 1));
      parts := parts + [elem.value.part];
      pos := elem.value.end;
      i := i + 1;
    }
    r := Frame(parts, pos);
    assert parts + [] == parts;
  }

  lemma ResumeFromStart(rest: Option<Elements>)
    ensures Resume([], rest) == match rest
                                case None => NoFrame
                                case Some(Elements(parts, end)) => Frame(parts, end)
  {
    if rest.Some? {
      assert [] + rest.value.parts == rest.value.parts;
    }
  }

  lemma ResumeStep(done: Command, part: Bytes, rest: Option<Elements>)
    ensures rest.None? ==> Resume(done, None) == Resume(done + [part], rest)
    ensures rest.Some? ==>
      Resume(done, Some(Elements([part] + rest.value.parts, rest.value.end))) == Resume(done + [part], rest)
  {
    if rest.Some? {
      assert done + ([part] + rest.value.parts) == (done + [part]) + rest.value.parts;
    }
  }

  // ---------- extension stability ----------

  lemma FindCrlfExtend(buf: Bytes, ext: Bytes, start: nat)
    requires FindCrlf(buf, start).Some?
    ensures FindCrlf(buf + ext, start) == FindCrlf(buf, start)
  {
    var i := FindCrlf(buf, start).value;
    assert IsCrlf(buf + ext, i);
    assert forall j :: start <= j < i ==> (IsCrlf(buf + ext, j) <==> IsCrlf(buf, j));
  }

  lemma ParseBulkExtend(buf: Bytes, ext: Bytes, pos: nat)
    requires ParseBulk(buf, pos).Some?
    ensures ParseBulk(buf + ext, pos) == ParseBulk(buf, pos)
  {
    FindCrlfExtend(buf, ext, pos + 1);
    var rn := FindCrlf(buf, pos + 1).value;
    assert (buf + ext)[pos + 1..rn] == buf[pos + 1..rn];
    var slen := Stol(buf[pos + 1..rn]).value;
    if slen >= 0 {
      assert (buf + ext)[rn + 2..rn + 2 + slen] == buf[rn + 2..rn + 2 + slen];
    }
  }

  lemma {:induction false} ParseBulksExtend(buf: Bytes, ext: Bytes, pos: nat, num: nat)
    requires pos <= |buf| && ParseBulks(buf, pos, num).Some?
    ensures ParseBulks(buf + ext, pos, num) == ParseBulks(buf, pos, num)
    decreases num
  {
    hide ParseBulk;
    if num > 0 {
      ParseBulkExtend(buf, ext, pos);
      ParseBulksExtend(buf, ext, ParseBulk(buf, pos).value.end, num - 1);
    }
  }

  /** More input never changes a frame already recognised, nor undoes an exception. */
  lemma ParseExtend(buf: Bytes, ext: Bytes)
    ensures Parse(buf).Frame? ==> Parse(buf + ext) == Parse(buf)
    ensures Parse(buf).Raised? ==> Parse(buf + ext).Raised?
  {
    hide FindCrlf, Stoi, ParseBulks;
    if !Parse(buf).NoFrame? {
      FindCrlfExtend(buf, ext, 1);
      var rn := FindCrlf(buf, 1).value;
      assert (buf + ext)[1..rn] == buf[1..rn];
      if Parse(buf).Frame? {
        ParseBulksExtend(buf, ext, rn + 2, Stoi(buf[1..rn]).value);
      }
    }
  }

  // ---------- print then parse ----------

  /** Sizes that survive std::stoi on the count and std::stol on the lengths. */
  predicate Storable(parts: Command) {
    |parts| < TWO_31 && FitLong(parts)
  }

  lemma FindCrlfAfter(buf: Bytes, start: nat, text: Bytes)
    requires CR !in text && HasAt(buf, start, text) && HasAt(buf, start + |text|, CRLF)
    ensures FindCrlf(buf, start) == Some(start + |text|)
  {
    HasCrlf(buf, start + |text|);
    forall j | start <= j < start + |text|
      ensures !IsCrlf(buf, j)
    {
      assert buf[j] == buf[start..start + |text|][j - start] == text[j - start];
    }
  }

  lemma HasCrlf(buf: Bytes, pos: nat)
    requires HasAt(buf, pos, CRLF)
    ensures IsCrlf(buf, pos)
  {
    assert buf[pos] == buf[pos..pos + 2][0] && buf[pos + 1] == buf[pos..pos + 2][1];
  }

  lemma HasFirst(buf: Bytes, pos: nat, b: byte)
    requires HasAt(buf, pos, [b])
    ensures pos < |buf| && buf[pos] == b
  {
    assert buf[pos] == buf[pos..pos + 1][0];
  }

  /** Where the pieces of a serialized bulk string stand. */
  lemma BulkPieces(buf: Bytes, pos: nat, p: Bytes)
    requires HasAt(buf, pos, Bulk(p))
    ensures pos < |buf| && buf[pos] == DOLLAR
    ensures HasAt(buf, pos + 1, ToDecimal(|p|))
    ensures HasAt(buf, pos + 1 + |ToDecimal(|p|)|, CRLF)
    ensures HasAt(buf, pos + 1 + |ToDecimal(|p|)| + 2, p)
    ensures HasAt(buf, pos + 1 + |ToDecimal(|p|)| + 2 + |p|, CRLF)
  {
    hide ToDecimal, HasAt;
    var d := ToDecimal(|p|);
    HasAtSplit(buf, pos, [DOLLAR] + d + CRLF + p, CRLF);
    HasAtSplit(buf, pos, [DOLLAR] + d + CRLF, p);
    HasAtSplit(buf, pos, [DOLLAR] + d, CRLF);
    HasAtSplit(buf, pos, [DOLLAR], d);
    HasFirst(buf, pos, DOLLAR);
  }

  lemma ParseBulkOfPieces(buf: Bytes, pos: nat, p: Bytes, rn: nat)
    requires pos < |buf| && buf[pos] == DOLLAR
    requires FindCrlf(buf, pos + 1) == Some(rn)
    requires Stol(buf[pos + 1..rn]) == if |p| < TWO_63 then Converted(|p|) else Thrown
    requires HasAt(buf, rn + 2, p) && IsCrlf(buf, rn + 2 + |p|)
    ensures ParseBulk(buf, pos)
         == if |p| < TWO_63 then Some(Element(p, rn + 2 + |p| + 2)) else None
  {
    hide Stol;
  }

  lemma ParseBulkOfBulk(buf: Bytes, pos: nat, p: Bytes)
    requires HasAt(buf, pos, Bulk(p))
    ensures ParseBulk(buf, pos)
         == if |p| < TWO_63 then Some(Element(p, pos + |Bulk(p)|)) else None
  {
    hide ToDecimal, FindCrlf, Stol, ParseBulk;
    var rn := pos + 1 + |ToDecimal(|p|)|;
    BulkPieces(buf, pos, p);
    FindCrlfAfter(buf, pos + 1, ToDecimal(|p|));
    StolOfToDecimal(|p|);
    HasCrlf(buf, rn + 2 + |p|);
    ParseBulkOfPieces(buf, pos, p, rn);
  }

  predicate FitLong(parts: Command) {
    forall i :: 0 <= i < |parts| ==> |parts[i]| < TWO_63
  }

  lemma FitLongTail(parts: Command)
    requires parts != []
    ensures FitLong(parts) <==> |parts[0]| < TWO_63 && FitLong(parts[1..])
  {
    if |parts[0]| < TWO_63 && FitLong(parts[1..]) {
      assert forall i :: 1 <= i < |parts| ==> parts[i] == parts[1..][i - 1];
    }
  }

  lemma {:induction false} ParseBulksOfBulks(buf: Bytes, pos: nat, parts: Command)
    requires HasAt(buf, pos, Bulks(parts))
    ensures ParseBulks(buf, pos, |parts|)
         == if FitLong(parts) then Some(Elements(parts, pos + |Bulks(parts)|)) else None
    decreases |parts|
  {
    hide Bulk, ParseBulk;
    if parts != [] {
      HasAtSplit(buf, pos, Bulk(parts[0]), Bulks(parts[1..]));
      ParseBulkOfBulk(buf, pos, parts[0]);
      ParseBulksOfBulks(buf, pos + |Bulk(parts[0])|, parts[1..]);
      FitLongTail(parts);
      assert [parts[0]] + parts[1..] == parts;
    }
  }

  /** Print then parse, exactly: any suffix may follow; it is the identity precisely on the
      commands whose count fits an int and whose lengths fit a long, and otherwise the parser
      reports no frame. */
  lemma ParseOfSerialize(parts: Command, post: Bytes)
    ensures Parse(Serialize(parts) + post)
         == if Storable(parts) then Frame(parts, |Serialize(parts)|) else NoFrame
  {
    hide ToDecimal, FindCrlf, ParseBulks, Stoi, Bulks;
    var d := ToDecimal(|parts|);
    var buf := Serialize(parts) + post;
    assert HasAt(buf, 0, Serialize(parts));
    HasAtSplit(buf, 0, [STAR] + d + CRLF, Bulks(parts));
    HasAtSplit(buf, 0, [STAR] + d, CRLF);
    HasAtSplit(buf, 0, [STAR], d);
    HasFirst(buf, 0, STAR);
    FindCrlfAfter(buf, 1, d);
    StoiOfToDecimal(|parts|);
    ParseBulksOfBulks(buf, 1 + |d| + 2, parts);
  }

  /** A frame cut anywhere before its end is never mistaken for a frame and never raises. */
  lemma ParseOfStrictPrefix(parts: Command, n: nat)
    requires Storable(parts) && n < |Serialize(parts)|
    ensures Parse(Serialize(parts)[..n]) == NoFrame
  {
    hide Parse, Serialize, Storable;
    var s := Serialize(parts);
    ParseOfSerialize(parts, []);
    assert s + [] == s && s[..n] + s[n..] == s;
    ParseExtend(s[..n], s[n..]);
  }

  // ---------- negative numbers ----------

  /** A negative length within a long stands for an empty part without data; a smaller one is no
      bulk string. */
  lemma NullBulkIsEmpty(buf: Bytes, pos: nat, n: nat)
    requires 1 <= n && HasAt(buf, pos, [DOLLAR] + ([MINUS] + ToDecimal(n)) + CRLF)
    ensures ParseBulk(buf, pos)
         == if n <= TWO_63 then Some(Element([], pos + 1 + |[MINUS] + ToDecimal(n)| + 2)) else None
  {
    hide ToDecimal, FindCrlf, ScanNumber;
    var text := [MINUS] + ToDecimal(n);
    HasAtSplit(buf, pos, [DOLLAR] + text, CRLF);
    HasAtSplit(buf, pos, [DOLLAR], text);
    HasFirst(buf, pos, DOLLAR);
    FindCrlfAfter(buf, pos + 1, text);
    ScanOfNegative(n);
  }

  /** A negative count raises if it fits an int, whatever follows, and is no frame otherwise. */
  lemma NegativeCountRaises(n: nat, post: Bytes)
    requires n >= 1
    ensures Parse([STAR] + ([MINUS] + ToDecimal(n)) + CRLF + post)
         == if n <= TWO_31 then Raised else NoFrame
  {
    hide ToDecimal, FindCrlf, ScanNumber, ParseBulks;
    var text := [MINUS] + ToDecimal(n);
    var buf := [STAR] + text + CRLF + post;
    assert HasAt(buf, 0, [STAR] + text + CRLF);
    HasAtSplit(buf, 0, [STAR] + text, CRLF);
    HasAtSplit(buf, 0, [STAR], text);
    HasFirst(buf, 0, STAR);
    FindCrlfAfter(buf, 1, text);
    ScanOfNegative(n);
  }
}
