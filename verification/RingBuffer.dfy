/** The ring buffer of src/common/ring_buffer.cpp: a bounded queue in an array that overwrites its
    oldest element when full. */
module RingBuffer {
  import opened ByteStrings

  datatype RingOp<T> = Push(item: T) | Pop

  /** The queue it stands for. */
  function Queued<T>(q: seq<T>, capacity: nat, op: RingOp<T>): seq<T> {
    match op
    case Push(x) => if |q| < capacity then q + [x] else if q == [] then [x] else q[1..] + [x]
    case Pop => if q == [] then [] else q[1..]
  }

  function QueuedAll<T>(q: seq<T>, capacity: nat, ops: seq<RingOp<T>>): seq<T> {
    if ops == [] then q
    else Queued(QueuedAll(q, capacity, ops[..|ops| - 1]), capacity, ops[|ops| - 1])
  }

  function Pushes<T>(items: seq<T>): (ops: seq<RingOp<T>>)
    ensures |ops| == |items| && forall i :: 0 <= i < |items| ==> ops[i] == Push(items[i])
  {
    seq(|items|, i requires 0 <= i < |items| => Push(items[i]))
  }

  function Newest<T>(items: seq<T>, capacity: nat): seq<T> {
    if |items| <= capacity then items else items[|items| - capacity..]
  }

  lemma NewestPush<T>(items: seq<T>, x: T, capacity: nat)
    requires capacity >= 1
    ensures Queued(Newest(items, capacity), capacity, Push(x)) == Newest(items + [x], capacity)
  {
    if |items| >= capacity {
      assert (items + [x])[|items| + 1 - capacity..] == items[|items| - capacity..][1..] + [x];
    }
  }

  /** After pushes alone the queue holds the most recent items, as many as fit. */
  lemma {:induction false} PushesKeepNewest<T>(capacity: nat, items: seq<T>)
    requires capacity >= 1
    ensures QueuedAll([], capacity, Pushes(items)) == Newest(items, capacity)
    decreases |items|
  {
    hide Newest, Queued;
    if items == [] {
      assert Newest<T>([], capacity) == [] by { NewestOfNothing<T>(capacity); }
    } else {
      var front := items[..|items| - 1];
      PushesKeepNewest(capacity, front);
      assert Pushes(items)[..|items| - 1] == Pushes(front);
      NewestPush(front, items[|items| - 1], capacity);
      assert front + [items[|items| - 1]] == items;
    }
  }

  lemma NewestOfNothing<T>(capacity: nat)
    ensures Newest<T>([], capacity) == []
  {
  }

  /** i % capacity for i below twice the capacity. */
  function Wrap(i: nat, capacity: nat): (r: nat)
    requires i < 2 * capacity
    ensures r < capacity
  {
    if i < capacity then i else i - capacity
  }

  lemma TimesAtLeast(capacity: nat, q: int, low: nat)
    requires q >= low
    ensures capacity * q >= capacity * low
  {
  }

  lemma ModIsWrap(i: nat, capacity: nat)
    requires capacity >= 1 && i < 2 * capacity
    ensures i % capacity == Wrap(i, capacity)
  {
    var q, r := i / capacity, i % capacity;
    assert i == capacity * q + r && 0 <= r < capacity;
    if q >= 2 {
      TimesAtLeast(capacity, q, 2);
    } else if q <= -1 {
      TimesAtLeast(capacity, -q, 1);
    }
  }

  /** The slot after i, as the code computes it. */
  function After(i: nat, capacity: nat): (r: nat)
    requires i < capacity
    ensures r == Wrap(i + 1, capacity)
  {
    ModIsWrap(i + 1, capacity);
    (i + 1) % capacity
  }

  lemma NextTail(head: nat, count: nat, capacity: nat)
    requires head < capacity && count <= capacity
    ensures count < capacity ==>
      Wrap(Wrap(head + count, capacity) + 1, capacity) == Wrap(head + count + 1, capacity)
    ensures count == capacity ==> Wrap(head + count, capacity) == head
    ensures Wrap(Wrap(head + 1, capacity) + capacity, capacity) == Wrap(head + 1, capacity)
  {
  }

  lemma PushSpec<T>(q: seq<T>, capacity: nat, x: T)
    requires 1 <= capacity && |q| <= capacity
    ensures Queued(q, capacity, Push(x)) == if |q| < capacity then q + [x] else q[1..] + [x]
  {
  }

  /** The `count` slots from head on, going round. */
  function Window<T>(s: seq<T>, head: nat, count: nat): (w: seq<T>)
    requires head < |s| && count <= |s|
    ensures |w| == count && forall i :: 0 <= i < count ==> w[i] == s[Wrap(head + i, |s|)]
  {
    seq(count, i requires 0 <= i < count => s[Wrap(head + i, |s|)])
  }

  lemma WindowPush<T>(s: seq<T>, head: nat, count: nat, x: T)
    requires head < |s| && count < |s|
    ensures Window(s[Wrap(head + count, |s|) := x], head, count + 1) == Window(s, head, count) + [x]
  {
  }

  lemma WindowOverwrite<T>(s: seq<T>, head: nat, x: T)
    requires head < |s|
    ensures Window(s[head := x], Wrap(head + 1, |s|), |s|) == Window(s, head, |s|)[1..] + [x]
  {
  }

  lemma WindowPop<T>(s: seq<T>, head: nat, count: nat)
    requires head < |s| && 1 <= count <= |s|
    ensures Window(s, Wrap(head + 1, |s|), count - 1) == Window(s, head, count)[1..]
    ensures s[head] == Window(s, head, count)[0]
  {
  }

  class Ring<T(0)> {
    var buffer: array<T>
    const capacity: nat
    var head: nat
    var tail: nat
    var count: nat

    ghost predicate Valid()
      reads this
    {
      && capacity == buffer.Length
      && count <= capacity
      && (capacity == 0 ==> head == tail == 0)
      && (capacity > 0 ==> head < capacity && tail == Wrap(head + count, capacity))
    }

    ghost function Contents(): (q: seq<T>)
      requires Valid()
      reads this, buffer
      ensures |q| == count
    {
      if capacity == 0 then [] else Window(buffer[..], head, count)
    }

    constructor (capacity: nat)
      ensures Valid() && fresh(buffer) && this.capacity == capacity && Contents() == []
    {
      buffer := new T[capacity];
      this.capacity := capacity;
      head, tail, count := 0, 0, 0;
    }

    method Overwrite(slot: nat, item: T)
      requires slot < buffer.Length
      modifies buffer
      ensures buffer[..] == old(buffer[..])[slot := item]
    {
      buffer[slot] := item;
    }

    /** Pushing divides by the capacity. */
    method Push(item: T)
      requires Valid() && capacity >= 1
      modifies this, buffer
      ensures Valid() && buffer == old(buffer)
      ensures Contents() == Queued(old(Contents()), capacity, RingOp.Push(item))
    {
      hide Window, After, Wrap, Queued;
      ghost var was, q := buffer[..], Contents();
      NextTail(head, count, capacity);
      PushSpec(q, capacity, item);
      Overwrite(tail, item);
      tail := After(tail, capacity);
      if count < capacity {
        WindowPush(was, head, count, item);
        count := count + 1;
      } else {
        WindowOverwrite(was, head, item);
        head := After(head, capacity);
      }
    }

    method Pop() returns (item: Option<T>)
      requires Valid()
      modifies this
      ensures Valid() && buffer == old(buffer)
      ensures item == if old(Contents()) == [] then None else Some(old(Contents())[0])
      ensures Contents() == Queued(old(Contents()), capacity, RingOp.Pop)
    {
      hide Window, After;
      if count == 0 {
        return None;
      }
      item := Some(buffer[head]);
      WindowPop(buffer[..], head, count);
      head := After(head, capacity);
      count := count - 1;
    }

    /** The tail is head + size modulo the capacity. */
    lemma TailIsModular()
      requires Valid() && capacity >= 1
      ensures tail == (head + count) % capacity
    {
      ModIsWrap(head + count, capacity);
    }

    method Size() returns (n: nat)
      requires Valid()
      ensures n == |Contents()| <= capacity
    {
      n := count;
    }

    method Empty() returns (b: bool)
      requires Valid()
      ensures b <==> Contents() == []
    {
      b := count == 0;
    }

    /** Any sequence of pushes and pops. */
    method Perform(ops: seq<RingOp<T>>)
      requires Valid() && (capacity >= 1 || forall i :: 0 <= i < |ops| ==> ops[i].Pop?)
      modifies this, buffer
      ensures Valid() && buffer == old(buffer)
      ensures Contents() == QueuedAll(old(Contents()), capacity, ops)
    {
      hide Queued, Window, Wrap, Contents;
      var i := 0;
      assert ops[..0] == [];
      while i < |ops|
        invariant 0 <= i <= |ops|
        invariant Valid() && buffer == old(buffer)
        invariant Contents() == QueuedAll(old(Contents()), capacity, ops[..i])
      {
        assert ops[..i + 1][..i] == ops[..i] && ops[..i + 1][i] == ops[i];
        match ops[i] {
          case Push(x) => Push(x);
          case Pop => var _ := Pop();
        }
        i := i + 1;
      }
      assert ops[..i] == ops;
    }
  }
}
