/** The writev loop of src/common/aof.cpp on an array of iovecs that it changes in place. */
module Writev {
  import opened ByteStrings
  import opened Writer

  // ---------- advancing over iovecs ----------

  /** An iovec points into a payload that stays alive. */
  datatype Iovec = Iovec(data: Bytes, base: nat, len: nat)

  predicate InBounds(v: Iovec) {
    v.base + v.len <= |v.data|
  }

  function PendingOne(v: Iovec): Bytes {
    if InBounds(v) then v.data[v.base..v.base + v.len] else []
  }

  function Pending(vs: seq<Iovec>): (r: seq<Bytes>)
    ensures |r| == |vs| && forall i :: 0 <= i < |vs| ==> r[i] == PendingOne(vs[i])
  {
    seq(|vs|, i requires 0 <= i < |vs| => PendingOne(vs[i]))
  }

  lemma PendingCons(vs: seq<Iovec>)
    requires vs != [] && InBounds(vs[0])
    ensures Pending(vs) != [] && |Pending(vs)[0]| == vs[0].len && Pending(vs)[1..] == Pending(vs[1..])
  {
  }

  /** Moving the first iovec's base drops that many bytes. */
  lemma PendingMoved(vs: seq<Iovec>, n: nat)
    requires vs != [] && InBounds(vs[0]) && n <= vs[0].len
    ensures var moved := vs[0].(base := vs[0].base + n, len := vs[0].len - n);
            && InBounds(moved)
            && Pending([moved] + vs[1..]) == [Pending(vs)[0][n..]] + Pending(vs)[1..]
  {
    var moved := vs[0].(base := vs[0].base + n, len := vs[0].len - n);
    assert PendingOne(moved) == PendingOne(vs[0])[n..];
    assert ([moved] + vs[1..])[1..] == vs[1..];
    PendingCons([moved] + vs[1..]);
    PendingCons(vs);
  }

  lemma PendingOfNothing()
    ensures Pending([]) == []
  {
  }

  /** The inner loop: skip finished iovecs and move the base of the one that is partly written. */
  method AdvanceIovecs(iovs: array<Iovec>, from: nat, n: nat) returns (idx: nat)
    requires from <= iovs.Length
    requires forall i :: 0 <= i < iovs.Length ==> InBounds(iovs[i])
    modifies iovs
    ensures from <= idx <= iovs.Length
    ensures forall i :: 0 <= i < iovs.Length ==> InBounds(iovs[i])
    ensures Pending(iovs[idx..]) == Advance(old(Pending(iovs[from..])), n)
  {
    hide Pending, PendingOne, Advance, InBounds;
    idx := from;
    var remaining: nat := n;
    while remaining > 0 && idx < iovs.Length
      invariant from <= idx <= iovs.Length
      invariant forall i :: 0 <= i < iovs.Length ==> InBounds(iovs[i])
      invariant Advance(Pending(iovs[idx..]), remaining) == Advance(old(Pending(iovs[from..])), n)
      decreases iovs.Length - idx, remaining
    {
      ghost var vs := iovs[idx..];
      assert iovs[idx + 1..] == vs[1..];
      PendingCons(vs);
      AdvanceOnce(Pending(vs), remaining);
      if remaining >= iovs[idx].len {
        remaining := remaining - iovs[idx].len;
        idx := idx + 1;
      } else {
        PendingMoved(vs, remaining);
        var v := iovs[idx];
        iovs[idx] := v.(base := v.base + remaining, len := v.len - remaining);
        assert iovs[idx..] == [iovs[idx]] + vs[1..];
        remaining := 0;
        AdvanceOnce(Pending(iovs[idx..]), 0);
      }
    }
    if idx == iovs.Length { PendingOfNothing(); }
    AdvanceOnce(Pending(iovs[idx..]), remaining);
  }

  /** What a writev call can do: write some bytes, be interrupted, or fail. */
  datatype WritevReturn = Wrote(choice: nat) | Eintr | HardError

  /** The byte count of a successful call: 0 if the slice is empty, else any positive part of it. */
  function Count(choice: nat, offered: nat): (n: nat)
    ensures n <= offered && (offered > 0 ==> n > 0)
  {
    if offered == 0 then 0 else Partial(choice, offered)
  }

  function WroteCount(script: seq<WritevReturn>): nat {
    if script == [] then 0
    else WroteCount(script[..|script| - 1]) + if script[|script| - 1].Wrote? then 1 else 0
  }

  // ---------- batches that never finish ----------

  predicate EmptyRun(rest: seq<Bytes>, i: nat) {
    i + IOV_MAX_SLICE <= |rest| && forall j :: i <= j < i + IOV_MAX_SLICE ==> rest[j] == []
  }

  /** The last iovec is empty, or a whole slice of consecutive ones is. */
  ghost predicate Blocked(rest: seq<Bytes>) {
    (rest != [] && rest[|rest| - 1] == []) || exists i :: EmptyRun(rest, i)
  }

  /** An unblocked slice always offers bytes. */
  lemma UnblockedOffers(rest: seq<Bytes>)
    requires rest != [] && !Blocked(rest)
    ensures |Concat(Slice(rest))| > 0
  {
    var s := Slice(rest);
    if |rest| <= IOV_MAX_SLICE {
      ConcatHas(s, |s| - 1);
    } else {
      assert !EmptyRun(rest, 0);
      var j :| 0 <= j < IOV_MAX_SLICE && rest[j] != [];
      assert s[j] == rest[j];
      ConcatHas(s, j);
    }
  }

  lemma ConcatHas(ss: seq<Bytes>, j: nat)
    requires j < |ss| && ss[j] != []
    ensures |Concat(ss)| > 0
  {
    hide Concat;
    ConcatSplit(ss, j);
    ConcatSplit(ss[j..], 1);
    assert ss[j..][..1] == [ss[j]];
    ConcatOne(ss[j]);
  }

  lemma ConcatOne(b: Bytes)
    ensures Concat([b]) == b
  {
    assert Concat([b]) == b + Concat([]);
  }

  lemma {:induction false} AdvanceUnblocked(rest: seq<Bytes>, n: nat)
    requires !Blocked(rest)
    ensures !Blocked(Advance(rest, n))
    decreases |rest|
  {
    if n == 0 || rest == [] {
    } else if n >= |rest[0]| {
      forall i: nat ensures !EmptyRun(rest[1..], i) {
        if EmptyRun(rest[1..], i) {
          assert forall j :: i + 1 <= j < i + 1 + IOV_MAX_SLICE ==> rest[j] == rest[1..][j - 1];
          assert EmptyRun(rest, i + 1);
        }
      }
      AdvanceUnblocked(rest[1..], n - |rest[0]|);
    } else {
      var adv := Advance(rest, n);
      forall i: nat ensures !EmptyRun(adv, i) {
        if EmptyRun(adv, i) {
          assert adv[0] != [];
          assert forall j :: i <= j < i + IOV_MAX_SLICE ==> rest[j] == adv[j];
          assert EmptyRun(rest, i);
        }
      }
    }
  }

  /** Writing no more than the first j iovecs hold leaves the others alone. */
  lemma {:induction false} AdvanceFront(rest: seq<Bytes>, j: nat, n: nat)
    requires j <= |rest| && n <= |Concat(rest[..j])|
    ensures Advance(rest, n) == Advance(rest[..j], n) + rest[j..]
    decreases |rest|
  {
    hide Concat, Advance;
    AdvanceOnce(rest, n);
    AdvanceOnce(rest[..j], n);
    if n == 0 || rest == [] {
      assert rest[..j] + rest[j..] == rest;
    } else {
      ConcatFront(rest, j);
      var front, back := rest[1..][..j - 1], rest[j..];
      assert rest[..j][1..] == front && rest[..j][0] == rest[0];
      assert rest[1..][j - 1..] == back;
      if n >= |rest[0]| {
        AdvanceFront(rest[1..], j - 1, n - |rest[0]|);
      } else {
        var h := [rest[0][n..]];
        assert rest[1..] == front + back;
        assert h + (front + back) == (h + front) + back;
      }
    }
  }

  lemma ConcatFront(rest: seq<Bytes>, j: nat)
    requires rest != [] && j <= |rest|
    ensures j == 0 ==> Concat(rest[..j]) == []
    ensures j > 0 ==> |Concat(rest[..j])| == |rest[0]| + |Concat(rest[1..][..j - 1])|
  {
    if j > 0 {
      assert rest[..j][1..] == rest[1..][..j - 1];
    }
  }

  lemma {:induction false} NoBytes(ss: seq<Bytes>)
    requires forall i :: 0 <= i < |ss| ==> ss[i] == []
    ensures Concat(ss) == []
  {
    if ss != [] {
      NoBytes(ss[1..]);
    }
  }

  /** A blocked batch stays blocked, whatever a call writes. */
  lemma AdvanceBlocked(rest: seq<Bytes>, n: nat)
    requires Blocked(rest) && n <= |Concat(Slice(rest))|
    ensures Blocked(Advance(rest, n))
  {
    hide Concat, Advance;
    if i :| EmptyRun(rest, i) {
      EmptyRunStays(rest, n, i);
    } else {
      SliceConcat(rest);
      var j := |rest| - 1;
      ConcatSplit(rest, j);
      NoBytes(rest[j..]);
      AdvanceFront(rest, j, n);
    }
  }

  lemma EmptyRunStays(rest: seq<Bytes>, n: nat, i: nat)
    requires EmptyRun(rest, i) && n <= |Concat(Slice(rest))|
    ensures Blocked(Advance(rest, n))
  {
    hide Concat, Advance;
    var s := Slice(rest);
    var j := if i < |s| then i else |s|;
    ConcatSplit(s, j);
    NoBytes(s[j..]);
    assert s[..j] == rest[..j];
    AdvanceFront(rest, j, n);
    var adv, front := Advance(rest, n), Advance(rest[..j], n);
    assert forall k :: |front| + i - j <= k < |front| + i - j + IOV_MAX_SLICE ==>
        adv[k] == rest[k - |front| + j];
    assert EmptyRun(adv, |front| + i - j);
  }

  // ---------- the writev loop ----------

  datatype BatchStatus = Finished | Failed | MoreCalls

  /** The slice loop on one batch, against any behaviour of the kernel. At every point the bytes
      written and the bytes pending are the batch, in order. With as many successful calls as there
      are bytes it finishes exactly when the batch is not blocked; a blocked batch never does. */
  method WriteBatch(batch: seq<Bytes>, script: seq<WritevReturn>)
    returns (written: Bytes, rest: seq<Bytes>, status: BatchStatus)
    ensures written + Concat(rest) == Concat(batch)
    ensures status.Finished? <==> rest == []
    ensures status.Finished? ==> written == Concat(batch)
    ensures status.Failed? ==> HardError in script
    ensures HardError !in script && WroteCount(script) >= |Concat(batch)| ==>
      (status.Finished? <==> !Blocked(batch))
    ensures Blocked(batch) ==> !status.Finished?
  {
    hide Concat, Slice, Advance, Partial, PendingOne, Blocked, Count;
    var iovs := new Iovec[|batch|](i requires 0 <= i < |batch| => Iovec(batch[i], 0, |batch[i]|));
    PendingOfBatch(iovs[..], batch);
    assert iovs[0..] == iovs[..];
    written := [];
    var idx, call := 0, 0;
    assert script[..0] == [];
    while idx < iovs.Length && call < |script|
      invariant 0 <= idx <= iovs.Length && 0 <= call <= |script|
      invariant forall i :: 0 <= i < iovs.Length ==> InBounds(iovs[i])
      invariant written + Concat(Pending(iovs[idx..])) == Concat(batch)
      invariant Blocked(Pending(iovs[idx..])) <==> Blocked(batch)
      invariant !Blocked(batch) ==> WroteCount(script[..call]) <= |written|
      invariant HardError !in script[..call]
      decreases |script| - call
    {
      assert script[..call + 1] == script[..call] + [script[call]];
      match script[call] {
      case Eintr =>
      case HardError =>
        rest := Pending(iovs[idx..]);
        status := Failed;
        return;
      case Wrote(choice) =>
        var pending := Pending(iovs[idx..]);
        var n := Count(choice, |Concat(Slice(pending))|);
        CallKeeps(pending, n);
        var out := Concat(pending)[..n];
        idx := AdvanceIovecs(iovs, idx, n);
        Assoc(written, out, Concat(Pending(iovs[idx..])));
        written := written + out;
      }
      call := call + 1;
    }
    assert script[..|script|] == script;
    rest := Pending(iovs[idx..]);
    ConcatNothing();
    NothingIsUnblocked();
    status := if idx == iovs.Length then Finished else MoreCalls;
    if rest != [] && !Blocked(rest) {
      UnblockedOffers(rest);
      SliceConcat(rest);
    }
  }

  lemma NothingIsUnblocked()
    ensures !Blocked([])
  {
  }

  /** One successful call: what it may write, and what it does to blocking. */
  lemma CallKeeps(rest: seq<Bytes>, n: nat)
    requires rest != [] && n <= |Concat(Slice(rest))| && (|Concat(Slice(rest))| > 0 ==> n > 0)
    ensures n <= |Concat(rest)| && Concat(rest)[..n] + Concat(Advance(rest, n)) == Concat(rest)
    ensures Blocked(Advance(rest, n)) <==> Blocked(rest)
    ensures !Blocked(rest) ==> n > 0
  {
    hide Concat, Advance, Slice, Blocked;
    SliceConcat(rest);
    AdvanceConcat(rest, n);
    if Blocked(rest) {
      AdvanceBlocked(rest, n);
    } else {
      AdvanceUnblocked(rest, n);
      UnblockedOffers(rest);
    }
  }

  lemma PendingOfBatch(vs: seq<Iovec>, batch: seq<Bytes>)
    requires |vs| == |batch|
    requires forall i :: 0 <= i < |vs| ==> vs[i] == Iovec(batch[i], 0, |batch[i]|)
    ensures Pending(vs) == batch
  {
    forall i | 0 <= i < |vs|
      ensures Pending(vs)[i] == batch[i]
    {
      assert batch[i][0..|batch[i]|] == batch[i];
    }
  }
}
