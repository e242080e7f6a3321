/** The C++ number conversions that the log and the store rely on: std::to_string,
    std::stoi, std::stol and std::stoull. */
module Decimal {
  import opened ByteStrings

  predicate IsDigit(b: byte) {
    48 <= b <= 57
  }

  /** isspace in the "C" locale. */
  predicate IsSpace(b: byte) {
    b == 32 || 9 <= b <= 13
  }

  predicate AllDigits(s: Bytes) {
    forall i :: 0 <= i < |s| ==> IsDigit(s[i])
  }

  /** std::to_string of an unsigned number. */
  function ToDecimal(n: nat): (s: Bytes)
    ensures s != [] && AllDigits(s)
  {
    if n < 10 then [(48 + n) as byte] else ToDecimal(n / 10) + [(48 + n % 10) as byte]
  }

  function Value(s: Bytes): nat
    requires AllDigits(s)
  {
    if s == [] then 0
    else Value(s[..|s| - 1]) * 10 + (s[|s| - 1] as int - 48)
  }

  lemma {:induction false} ValueOfToDecimal(n: nat)
    ensures Value(ToDecimal(n)) == n
  {
    var s := ToDecimal(n);
    if n < 10 {
      assert s[..0] == [];
    } else {
      ValueOfToDecimal(n / 10);
      assert s[..|s| - 1] == ToDecimal(n / 10);
    }
  }

  /** std::to_string gives the one digit string of that value without a leading zero. */
  lemma {:induction false} ToDecimalExactly(n: nat, s: Bytes)
    ensures s == ToDecimal(n) <==>
      s != [] && AllDigits(s) && Value(s) == n && (|s| > 1 ==> s[0] != 48)
  {
    hide ToDecimal, Value;
    ValueOfToDecimal(n);
    FirstDigit(n);
    if s != [] && AllDigits(s) && Value(s) == n && (|s| > 1 ==> s[0] != 48) {
      DecimalOfValue(s);
    }
  }

  lemma {:induction false} DecimalOfValue(s: Bytes)
    requires s != [] && AllDigits(s) && (|s| > 1 ==> s[0] != 48)
    ensures ToDecimal(Value(s)) == s
  {
    var front, last := s[..|s| - 1], s[|s| - 1] as int - 48;
    if |s| == 1 {
      assert front == [];
      assert Value(s) == last;
    } else {
      assert front[0] == s[0];
      Positive(front);
      DecimalOfValue(front);
      TenTimes(Value(front), last);
      assert s == front + [s[|s| - 1]];
    }
  }

  lemma TenTimes(v: nat, d: nat)
    requires d < 10
    ensures (v * 10 + d) / 10 == v && (v * 10 + d) % 10 == d
  {
  }

  lemma {:induction false} FirstDigit(n: nat)
    ensures |ToDecimal(n)| > 1 ==> ToDecimal(n)[0] != 48
    ensures n > 0 ==> ToDecimal(n)[0] != 48
  {
    if n >= 10 { FirstDigit(n / 10); }
  }

  lemma {:induction false} Positive(s: Bytes)
    requires s != [] && AllDigits(s) && s[0] != 48
    ensures Value(s) > 0
  {
    if |s| > 1 { Positive(s[..|s| - 1]); }
  }

  function SkipSpaces(s: Bytes): Bytes {
    if s != [] && IsSpace(s[0]) then SkipSpaces(s[1..]) else s
  }

  /** The number of leading digits. */
  function DigitRun(s: Bytes): (k: nat)
    ensures k <= |s| && AllDigits(s[..k])
    ensures k < |s| ==> !IsDigit(s[k])
  {
    if s != [] && IsDigit(s[0]) then
      var k := 1 + DigitRun(s[1..]);
      assert forall i :: 1 <= i < k ==> s[..k][i] == s[1..][..k - 1][i - 1];
      k
    else 0
  }

  datatype Scan = NoNumber | Number(negative: bool, magnitude: nat)

  /** What the strtol family reads: blanks, one optional sign, digits; the rest is ignored. */
  function ScanNumber(s: Bytes): Scan {
    var t := SkipSpaces(s);
    var signed := t != [] && (t[0] == MINUS || t[0] == PLUS);
    var u := if signed then t[1..] else t;
    var k := DigitRun(u);
    if k == 0 then NoNumber else Number(signed && t[0] == MINUS, Value(u[..k]))
  }

  datatype Conversion = Thrown | Converted(value: int)

  /** std::stol on a platform with 64-bit long. */
  function Stol(s: Bytes): (r: Conversion)
    ensures r.Converted? ==> -TWO_63 <= r.value < TWO_63
  {
    match ScanNumber(s)
    case NoNumber => Thrown
    case Number(negative, m) =>
      var v: int := if negative then 0 - m else m;
      if -TWO_63 <= v < TWO_63 then Converted(v) else Thrown
  }

  /** std::stoi: std::stol, then a range test for 32-bit int. */
  function Stoi(s: Bytes): (r: Conversion)
    ensures r.Converted? ==> -TWO_31 <= r.value < TWO_31
  {
    match Stol(s)
    case Thrown => Thrown
    case Converted(v) => if -TWO_31 <= v < TWO_31 then Converted(v) else Thrown
  }

  /** std::stoull: a minus sign negates modulo 2^64. */
  function Stoull(s: Bytes): (r: Conversion)
    ensures r.Converted? ==> 0 <= r.value < TWO_64
  {
    match ScanNumber(s)
    case NoNumber => Thrown
    case Number(negative, m) =>
      if m >= TWO_64 then Thrown
      else Converted(if negative && m > 0 then TWO_64 - m else m)
  }

  lemma {:induction false} DigitRunOf(digits: Bytes, rest: Bytes)
    requires AllDigits(digits)
    requires rest == [] || !IsDigit(rest[0])
    ensures DigitRun(digits + rest) == |digits|
  {
    if digits == [] {
      assert digits + rest == rest;
    } else {
      DigitRunOf(digits[1..], rest);
      assert (digits + rest)[1..] == digits[1..] + rest;
    }
  }

  lemma {:induction false} SkipSpacesOf(blanks: Bytes, s: Bytes)
    requires forall i :: 0 <= i < |blanks| ==> IsSpace(blanks[i])
    requires s == [] || !IsSpace(s[0])
    ensures SkipSpaces(blanks + s) == s
  {
    if blanks == [] {
      assert blanks + s == s;
    } else {
      SkipSpacesOf(blanks[1..], s);
      assert (blanks + s)[1..] == blanks[1..] + s;
    }
  }

  /** Blanks and a sign are accepted before a printed number, and any non-digit text after it. */
  lemma ScanOfSigned(blanks: Bytes, sign: Bytes, n: nat, rest: Bytes)
    requires forall i :: 0 <= i < |blanks| ==> IsSpace(blanks[i])
    requires sign == [] || sign == [PLUS] || sign == [MINUS]
    requires rest == [] || !IsDigit(rest[0])
    ensures ScanNumber(blanks + (sign + (ToDecimal(n) + rest))) == Number(sign == [MINUS], n)
  {
    hide ToDecimal, ScanNumber, Value;
    ScanOfText(blanks + (sign + (ToDecimal(n) + rest)), blanks, sign, ToDecimal(n), rest);
    ValueOfToDecimal(n);
  }

  lemma ScanOfToDecimal(n: nat, rest: Bytes)
    requires rest == [] || !IsDigit(rest[0])
    ensures ScanNumber(ToDecimal(n) + rest) == Number(false, n)
  {
    hide ScanNumber, ToDecimal;
    ScanOfSigned([], [], n, rest);
    assert [] + ([] + (ToDecimal(n) + rest)) == ToDecimal(n) + rest;
  }

  lemma ScanOfNegative(n: nat)
    ensures ScanNumber([MINUS] + ToDecimal(n)) == Number(true, n)
  {
    hide ScanNumber, ToDecimal;
    ScanOfSigned([], [MINUS], n, []);
    assert [] + ([MINUS] + (ToDecimal(n) + [])) == [MINUS] + ToDecimal(n);
  }

  lemma StolOfToDecimal(n: nat)
    ensures Stol(ToDecimal(n)) == if n < TWO_63 then Converted(n) else Thrown
  {
    hide ScanNumber;
    assert ToDecimal(n) + [] == ToDecimal(n);
    ScanOfToDecimal(n, []);
  }

  lemma StoiOfToDecimal(n: nat)
    ensures Stoi(ToDecimal(n)) == if n < TWO_31 then Converted(n) else Thrown
  {
    hide Stol;
    StolOfToDecimal(n);
  }

  // ---------- what the conversions accept, on arbitrary text ----------

  /** s is blanks, at most one sign, a maximal run of digits, and anything. */
  predicate NumberText(s: Bytes, blanks: Bytes, sign: Bytes, digits: Bytes, rest: Bytes) {
    && s == blanks + (sign + (digits + rest))
    && (forall i :: 0 <= i < |blanks| ==> IsSpace(blanks[i]))
    && (sign == [] || sign == [PLUS] || sign == [MINUS])
    && digits != [] && AllDigits(digits)
    && (rest == [] || !IsDigit(rest[0]))
  }

  lemma {:induction false} ScanOfText(s: Bytes, blanks: Bytes, sign: Bytes, digits: Bytes, rest: Bytes)
    requires NumberText(s, blanks, sign, digits, rest)
    ensures ScanNumber(s) == Number(sign == [MINUS], Value(digits))
  {
    var u := digits + rest;
    var t := sign + u;
    assert u[0] == digits[0] && t[0] == if sign == [] then digits[0] else sign[0];
    SkipSpacesOf(blanks, t);
    assert t[|sign|..] == u;
    DigitRunOf(digits, rest);
    assert u[..|digits|] == digits;
  }

  lemma {:induction false} SkippedBlanks(s: Bytes) returns (blanks: Bytes)
    ensures s == blanks + SkipSpaces(s) && forall i :: 0 <= i < |blanks| ==> IsSpace(blanks[i])
  {
    if s != [] && IsSpace(s[0]) {
      var more := SkippedBlanks(s[1..]);
      blanks := [s[0]] + more;
      assert s == [s[0]] + s[1..];
    } else {
      blanks := [];
    }
  }

  lemma {:induction false} TextOfScan(s: Bytes) returns (blanks: Bytes, sign: Bytes, digits: Bytes, rest: Bytes)
    requires ScanNumber(s).Number?
    ensures NumberText(s, blanks, sign, digits, rest)
    ensures ScanNumber(s) == Number(sign == [MINUS], Value(digits))
  {
    hide SkipSpaces, DigitRun, Value, IsDigit, IsSpace;
    blanks := SkippedBlanks(s);
    var t := SkipSpaces(s);
    var signed := t != [] && (t[0] == MINUS || t[0] == PLUS);
    sign := if signed then t[..1] else [];
    var u := if signed then t[1..] else t;
    var k := DigitRun(u);
    digits, rest := u[..k], u[k..];
    assert t == sign + u && u == digits + rest;
  }

  /** A number is read exactly from such texts; from all others nothing is. */
  lemma ScanExactly(s: Bytes)
    ensures ScanNumber(s).Number? <==>
      exists blanks, sign, digits, rest :: NumberText(s, blanks, sign, digits, rest)
  {
    hide ScanNumber, NumberText;
    if ScanNumber(s).Number? {
      var blanks, sign, digits, rest := TextOfScan(s);
    }
    if blanks, sign, digits, rest :| NumberText(s, blanks, sign, digits, rest) {
      ScanOfText(s, blanks, sign, digits, rest);
    }
  }

  /** The three conversions of such a text: the number if it fits, modulo 2^64 for stoull. */
  lemma ConversionsOfText(s: Bytes, blanks: Bytes, sign: Bytes, digits: Bytes, rest: Bytes)
    requires NumberText(s, blanks, sign, digits, rest)
    ensures var m := Value(digits);
            var x: int := if sign == [MINUS] then 0 - m else m;
            && Stol(s) == (if -TWO_63 <= x < TWO_63 then Converted(x) else Thrown)
            && Stoi(s) == (if -TWO_31 <= x < TWO_31 then Converted(x) else Thrown)
            && Stoull(s) == (if m < TWO_64 then Converted(x % TWO_64) else Thrown)
  {
    hide ScanNumber;
    ScanOfText(s, blanks, sign, digits, rest);
  }

  /** They throw on every other text. */
  lemma OtherTextsThrow(s: Bytes)
    requires forall blanks, sign, digits, rest :: !NumberText(s, blanks, sign, digits, rest)
    ensures Stol(s) == Stoi(s) == Stoull(s) == Thrown
  {
    hide ScanNumber, NumberText;
    ScanExactly(s);
  }
}
