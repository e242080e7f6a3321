/** Byte strings: the model of std::string and std::vector<uint8_t>. */
module ByteStrings {

  newtype byte = x: int | 0 <= x < 256
  type Bytes = seq<byte>

  datatype Option<+T> = None | Some(value: T)

  const TAB: byte := 9
  const LF: byte := 10
  const CR: byte := 13
  const DOLLAR: byte := 36
  const STAR: byte := 42
  const PLUS: byte := 43
  const MINUS: byte := 45
  const CRLF: Bytes := [13, 10]

  const TWO_31: int := 0x8000_0000
  const TWO_32: int := 0x1_0000_0000
  const TWO_63: int := 0x8000_0000_0000_0000
  const TWO_64: int := 0x1_0000_0000_0000_0000

  /** The bytes of several strings, one after another. */
  function Concat(ss: seq<Bytes>): Bytes {
    if ss == [] then [] else ss[0] + Concat(ss[1..])
  }

  lemma {:induction false} ConcatAppend(a: seq<Bytes>, b: seq<Bytes>)
    ensures Concat(a + b) == Concat(a) + Concat(b)
  {
    if a == [] {
      assert a + b == b;
    } else {
      calc {
        Concat(a + b);
        { assert (a + b)[1..] == a[1..] + b; }
        a[0] + Concat(a[1..] + b);
        { ConcatAppend(a[1..], b); }
        a[0] + (Concat(a[1..]) + Concat(b));
        (a[0] + Concat(a[1..])) + Concat(b);
      }
    }
  }

  lemma ConcatNothing()
    ensures Concat([]) == []
  {
  }

  lemma Assoc<T>(a: seq<T>, b: seq<T>, c: seq<T>)
    ensures a + b + c == a + (b + c)
  {
  }

  lemma {:induction false} ConcatSnoc(a: seq<Bytes>, x: Bytes)
    ensures Concat(a + [x]) == Concat(a) + x
  {
    ConcatAppend(a, [x]);
    assert Concat([x]) == x + Concat([]);
  }

  /** Cutting a list of strings anywhere cuts its bytes at the matching place. */
  lemma {:induction false} ConcatSplit(ss: seq<Bytes>, k: nat)
    requires k <= |ss|
    ensures Concat(ss) == Concat(ss[..k]) + Concat(ss[k..])
  {
    hide Concat;
    ConcatAppend(ss[..k], ss[k..]);
    assert ss[..k] + ss[k..] == ss;
  }

  /** The text s stands in buf at position pos. */
  predicate HasAt(buf: Bytes, pos: nat, s: Bytes) {
    pos + |s| <= |buf| && buf[pos..pos + |s|] == s
  }

  lemma HasAtSplit(buf: Bytes, pos: nat, a: Bytes, b: Bytes)
    requires HasAt(buf, pos, a + b)
    ensures HasAt(buf, pos, a) && HasAt(buf, pos + |a|, b)
  {
    assert buf[pos..pos + |a|] == (a + b)[..|a|];
    assert buf[pos + |a|..pos + |a| + |b|] == (a + b)[|a|..];
  }

  lemma SliceAfter(a: Bytes, b: Bytes, n: nat)
    requires |a| <= n <= |a| + |b|
    ensures (a + b)[|a|..n] == b[..n - |a|]
  {
  }

  /** The count a partial read, send or write reports: every value from 1 to most is the answer
      to some choice. */
  function Partial(choice: nat, most: nat): (n: nat)
    requires most > 0
    ensures 1 <= n <= most
    ensures 1 <= choice < most ==> n == choice + 1
    ensures choice == 0 ==> n == 1
  {
    1 + choice % most
  }

  predicate AllNonEmpty(ss: seq<Bytes>) {
    forall i :: 0 <= i < |ss| ==> ss[i] != []
  }
}
