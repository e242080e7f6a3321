/** Database operations in their real pieces: the log append and the store write of a put, remove
    or expire, and the read and removal of a get or a cleaner visit, are separate steps between
    which other threads run (src/core/db.cpp). */
module Interleaving {
  import opened ByteStrings
  import opened Resp
  import opened Store
  import opened StoreLaws

  /** What an operation still has to do on its key. */
  datatype Task =
    | Write(key: Bytes, raw: Option<Bytes>)          // logged; None removes the key
    | Rewrite(key: Bytes, seen: Bytes, ts: nat)      // expire has read the text
    | Visit(key: Bytes, seen: Bytes)                 // get or the cleaner has read the text

  datatype Shared = Shared(db: Db, log: seq<Command>, now: nat, tasks: map<nat, Task>)

  /** A thread's first step of an operation, and each later one, with the clock at that step. */
  datatype Event = Begin(id: nat, op: Op, at: nat) | Continue(id: nat, at: nat)

  predicate Possible(s: Shared, e: Event) {
    s.now <= e.at && match e
                     case Begin(id, _, _) => id !in s.tasks
                     case Continue(id, _) => id in s.tasks
  }

  function SetRaw(db: Db, key: Bytes, raw: Option<Bytes>): Db {
    match raw
    case None => db - {key}
    case Some(r) => db[key := r]
  }

  function Next(s: Shared, e: Event): Shared
    requires Possible(s, e)
  {
    match e
    case Begin(id, Put(k, v), at) =>
      Shared(s.db, s.log + [[SET, k, v]], at, s.tasks[id := Write(k, Some(v + NO_DEADLINE))])
    case Begin(id, Remove(k), at) =>
      Shared(s.db, s.log + [[DEL, k]], at, s.tasks[id := Write(k, None)])
    case Begin(id, Expire(k, ts), at) =>
      var raw := Fetch(s.db, k, []);
      if raw == [] then s.(now := at) else s.(now := at, tasks := s.tasks[id := Rewrite(k, raw, ts)])
    case Begin(id, Get(k, initial), at) =>
      s.(now := at, tasks := s.tasks[id := Visit(k, Fetch(s.db, k, initial))])
    case Begin(id, Clean(k), at) =>
      if k in s.db then s.(now := at, tasks := s.tasks[id := Visit(k, s.db[k])]) else s.(now := at)
    case Continue(id, at) => Proceed(s, id, at)
  }

  function Proceed(s: Shared, id: nat, at: nat): Shared
    requires id in s.tasks
  {
    match s.tasks[id]
    case Write(k, raw) => Shared(SetRaw(s.db, k, raw), s.log, at, s.tasks - {id})
    case Rewrite(k, seen, ts) =>
      var v := WithDeadline(seen, ts, at);
      Shared(s.db, s.log + [[SET, k, v]], at, s.tasks[id := Write(k, Some(v + NO_DEADLINE))])
    case Visit(k, seen) =>
      Shared(if Expired(seen, at) then s.db - {k} else s.db, s.log, at, s.tasks - {id})
  }

  function RunEvents(s: Shared, events: seq<Event>): Option<Shared> {
    if events == [] then Some(s)
    else
      match RunEvents(s, events[..|events| - 1])
      case None => None
      case Some(m) =>
        var e := events[|events| - 1];
        if Possible(m, e) then Some(Next(m, e)) else None
  }

  function Idle(db: Db): Shared {
    Shared(db, [], 0, map[])
  }

  /** No two operations are under way on one key. */
  ghost predicate Apart(s: Shared) {
    forall i, j :: i in s.tasks && j in s.tasks && i != j ==> s.tasks[i].key != s.tasks[j].key
  }

  ghost predicate AlwaysApart(s: Shared, events: seq<Event>) {
    forall n :: 0 <= n <= |events| && RunEvents(s, events[..n]).Some? ==>
      Apart(RunEvents(s, events[..n]).value)
  }

  // ---------- what such runs keep ----------

  predicate Writes(s: Shared, key: Bytes) {
    exists id :: id in s.tasks && s.tasks[id].key == key && s.tasks[id].Write?
  }

  function Lookup(db: Db, key: Bytes): Option<Bytes> {
    if key in db then Some(db[key]) else None
  }

  /** Live store and replay agree on a key, up to an expired leftover. */
  predicate FollowsAt(live: Db, replay: Db, key: Bytes, now: nat) {
    if key in live then key in replay && replay[key] == live[key]
    else key in replay ==> Expired(replay[key], now)
  }

  ghost predicate TaskOk(s: Shared, replay: Db, t: Task) {
    match t
    case Write(k, raw) => Lookup(replay, k) == raw
    case Rewrite(_, _, _) => true
    case Visit(k, seen) => k in s.db ==> s.db[k] == seen
  }

  ghost predicate Coherent(s: Shared, base: Db) {
    var replay := Replay(base, s.log);
    && (forall k :: !Writes(s, k) ==> FollowsAt(s.db, replay, k, s.now))
    && (forall id :: id in s.tasks ==> TaskOk(s, replay, s.tasks[id]))
  }

  lemma ReplayOneMore(base: Db, log: seq<Command>, k: Bytes, v: Bytes)
    ensures Replay(base, log + [[SET, k, v]]) == Replay(base, log)[k := v + NO_DEADLINE]
    ensures Replay(base, log + [[DEL, k]]) == Replay(base, log) - {k}
  {
    assert (log + [[SET, k, v]])[..|log|] == log;
    assert (log + [[DEL, k]])[..|log|] == log;
  }

  /** A log append: from now on the operation has its store write to do. */
  lemma AppendKeeps(s: Shared, base: Db, id: nat, c: Command, t: Task, at: nat)
    requires Coherent(s, base) && s.now <= at && t.Write?
    requires Replay(base, s.log + [c]) == SetRaw(Replay(base, s.log), t.key, t.raw)
    requires id in s.tasks ==> !s.tasks[id].Write? && s.tasks[id].key == t.key
    requires Apart(s.(tasks := s.tasks[id := t]))
    ensures Coherent(Shared(s.db, s.log + [c], at, s.tasks[id := t]), base)
  {
    hide Replay, Decode;
    var s' := Shared(s.db, s.log + [c], at, s.tasks[id := t]);
    assert id in s'.tasks && Writes(s', t.key);
    forall i | i in s'.tasks
      ensures TaskOk(s', Replay(base, s'.log), s'.tasks[i])
    {
      if i != id { assert s'.tasks[i] == s.tasks[i] && TaskOk(s, Replay(base, s.log), s.tasks[i]); }
    }
    forall k | !Writes(s', k)
      ensures FollowsAt(s'.db, Replay(base, s'.log), k, at)
    {
      assert !Writes(s, k) by { OthersWrite(s, s', id, k); }
    }
  }

  lemma OthersWrite(s: Shared, s': Shared, id: nat, k: Bytes)
    requires id in s.tasks ==> !s.tasks[id].Write? || s.tasks[id].key != k
    requires forall i :: i in s.tasks && i != id ==> i in s'.tasks && s'.tasks[i] == s.tasks[i]
    ensures Writes(s, k) ==> Writes(s', k)
  {
  }

  /** A read leaves its operation with what it saw. */
  lemma ReadKeeps(s: Shared, base: Db, id: nat, t: Task, at: nat)
    requires Coherent(s, base) && s.now <= at && id !in s.tasks && !t.Write?
    requires t.Visit? && t.key in s.db ==> t.seen == s.db[t.key]
    ensures Coherent(s.(now := at, tasks := s.tasks[id := t]), base)
  {
    hide Replay, Decode;
    var s' := s.(now := at, tasks := s.tasks[id := t]);
    forall k | !Writes(s', k)
      ensures FollowsAt(s'.db, Replay(base, s'.log), k, at)
    {
      assert !Writes(s, k) by { OthersWrite(s, s', id, k); }
    }
  }

  /** The last step of an operation, alone on its key. */
  lemma FinishKeeps(s: Shared, base: Db, id: nat, at: nat)
    requires Coherent(s, base) && Apart(s) && s.now <= at && id in s.tasks && !s.tasks[id].Rewrite?
    ensures Coherent(Next(s, Continue(id, at)), base)
  {
    hide Replay, Decode;
    var t, s' := s.tasks[id], Next(s, Continue(id, at));
    assert TaskOk(s, Replay(base, s.log), t);
    forall i | i in s'.tasks
      ensures TaskOk(s', Replay(base, s'.log), s'.tasks[i])
    {
      assert s'.tasks[i] == s.tasks[i] && TaskOk(s, Replay(base, s.log), s.tasks[i]);
    }
    forall k | !Writes(s', k)
      ensures FollowsAt(s'.db, Replay(base, s'.log), k, at)
    {
      if k != t.key {
        assert !Writes(s, k) by { OthersWrite(s, s', id, k); }
      } else if t.Visit? {
        assert !Writes(s, k);
      }
    }
  }

  /** Every step of every thread keeps log and store coherent while no two operations are under
      way on one key. */
  lemma {:induction false} CoherentStep(s: Shared, base: Db, e: Event)
    requires Coherent(s, base) && Apart(s) && Possible(s, e) && Apart(Next(s, e))
    ensures Coherent(Next(s, e), base)
  {
    hide Replay, Decode, WithDeadline, Coherent;
    match e
    case Begin(id, Put(k, v), at) =>
      ReplayOneMore(base, s.log, k, v);
      AppendKeeps(s, base, id, [SET, k, v], Write(k, Some(v + NO_DEADLINE)), at);
    case Begin(id, Remove(k), at) =>
      ReplayOneMore(base, s.log, k, []);
      AppendKeeps(s, base, id, [DEL, k], Write(k, None), at);
    case Begin(id, Expire(k, ts), at) =>
      LaterKeeps(s, base, at);
      ReadKeeps(s, base, id, Rewrite(k, Fetch(s.db, k, []), ts), at);
    case Begin(id, Get(k, initial), at) => ReadKeeps(s, base, id, Visit(k, Fetch(s.db, k, initial)), at);
    case Begin(id, Clean(k), at) =>
      LaterKeeps(s, base, at);
      ReadKeeps(s, base, id, Visit(k, Fetch(s.db, k, [])), at);
    case Continue(id, at) =>
      var t := s.tasks[id];
      if t.Rewrite? {
        var v := WithDeadline(t.seen, t.ts, at);
        ReplayOneMore(base, s.log, t.key, v);
        AppendKeeps(s, base, id, [SET, t.key, v], Write(t.key, Some(v + NO_DEADLINE)), at);
      } else {
        FinishKeeps(s, base, id, at);
      }
  }

  lemma LaterKeeps(s: Shared, base: Db, at: nat)
    requires Coherent(s, base) && s.now <= at
    ensures Coherent(s.(now := at), base)
  {
    hide Replay, Decode;
    assert forall k :: Writes(s, k) ==> Writes(s.(now := at), k);
  }

  // ---------- whole runs ----------

  /** In every run in which operations on one key never overlap, log and store stay coherent. */
  lemma {:induction false} RunCoherent(base: Db, events: seq<Event>)
    requires RunEvents(Idle(base), events).Some? && AlwaysApart(Idle(base), events)
    ensures Coherent(RunEvents(Idle(base), events).value, base)
    decreases |events|
  {
    hide Next, Possible, Coherent, Apart;
    var s := Idle(base);
    if events == [] {
      IdleCoherent(base);
    } else {
      var n := |events| - 1;
      var before := events[..n];
      assert events[..|events|] == events;
      assert forall m :: 0 <= m <= n ==> before[..m] == events[..m];
      assert before[..n] == before;
      RunCoherent(base, before);
      assert Apart(RunEvents(s, before).value) && Apart(RunEvents(s, events).value);
      CoherentStep(RunEvents(s, before).value, base, events[n]);
    }
  }

  lemma IdleCoherent(base: Db)
    ensures Coherent(Idle(base), base)
  {
  }

  /** So at any time each key nobody is writing answers as the replayed log does, and when nothing
      is under way the whole store agrees with it. */
  lemma {:induction false} ApartAgrees(base: Db, events: seq<Event>, key: Bytes, t: nat)
    requires RunEvents(Idle(base), events).Some? && AlwaysApart(Idle(base), events)
    ensures var s := RunEvents(Idle(base), events).value;
            var replay := Replay(base, s.log);
            && (!Writes(s, key) && s.now <= t ==>
                  && GetAnswer(s.db, key, [], t) == GetAnswer(replay, key, [], t)
                  && TtlAnswer(s.db, key, t) == TtlAnswer(replay, key, t))
            && (s.tasks == map[] ==> Follows(s.db, replay, s.now))
  {
    hide RunEvents, Replay, GetAnswer, TtlAnswer, AlwaysApart, Expired;
    RunCoherent(base, events);
    var s := RunEvents(Idle(base), events).value;
    var replay := Replay(base, s.log);
    if s.tasks == map[] {
      FollowsEverywhere(s.db, replay, s.now);
    }
    if !Writes(s, key) && s.now <= t {
      KeyAnswers(s.db, replay, s.now, key, t);
    }
  }

  lemma FollowsEverywhere(live: Db, replay: Db, now: nat)
    requires forall k :: FollowsAt(live, replay, k, now)
    ensures Follows(live, replay, now)
  {
    hide Expired;
    assert forall k :: k in live ==> FollowsAt(live, replay, k, now);
    assert forall k :: k in replay ==> FollowsAt(live, replay, k, now);
  }

  lemma KeyAnswers(live: Db, replay: Db, now: nat, key: Bytes, t: nat)
    requires FollowsAt(live, replay, key, now) && now <= t
    ensures GetAnswer(live, key, [], t) == GetAnswer(replay, key, [], t)
    ensures TtlAnswer(live, key, t) == TtlAnswer(replay, key, t)
  {
    hide GetAnswer, TtlAnswer, Expired;
    var one := map k | k in live && k == key :: live[k];
    var two := map k | k in replay && k == key :: replay[k];
    FollowsAnswers(one, two, now, key, t);
    SameText(live, one, key, t);
    SameText(replay, two, key, t);
  }

  lemma SameText(a: Db, b: Db, key: Bytes, t: nat)
    requires Lookup(a, key) == Lookup(b, key)
    ensures GetAnswer(a, key, [], t) == GetAnswer(b, key, [], t)
    ensures TtlAnswer(a, key, t) == TtlAnswer(b, key, t)
  {
    hide Decode;
  }

  // ---------- one operation alone ----------

  /** Thread `id` goes on until its operation is done; no operation has more than three pieces. */
  function Finished(s: Shared, id: nat, at: nat): Shared {
    if id !in s.tasks then s
    else
      var s' := Proceed(s, id, at);
      if id !in s'.tasks then s' else Proceed(s', id, at)
  }

  /** An operation whose pieces nobody interrupts is the atomic operation. */
  lemma AloneIsAtomic(s: Shared, id: nat, op: Op, at: nat)
    requires id !in s.tasks && s.now <= at
    ensures Possible(s, Begin(id, op, at))
    ensures Finished(Next(s, Begin(id, op, at)), id, at)
         == Shared(OpDb(s.db, op, at), s.log + OpLog(s.db, op, at), at, s.tasks)
  {
    hide Decode, WithDeadline;
    var s' := Finished(Next(s, Begin(id, op, at)), id, at);
    assert s'.tasks == s.tasks;
    assert s.log + [] == s.log;
    assert op.Get? || op.Clean? ==> OpDb(s.db, op, at) == s'.db by {
      if op.Clean? && op.key !in s.db { assert s'.db == s.db; }
    }
  }

  // ---------- two writes that may overlap ----------

  predicate IsWrite(op: Op) {
    op.Put? || op.Remove?
  }

  /** The text a write leaves under its key, None for a removal. */
  function RawOf(op: Op): Option<Bytes>
    requires IsWrite(op)
  {
    if op.Put? then Some(op.value + NO_DEADLINE) else None
  }

  function CommandOf(op: Op): Command
    requires IsWrite(op)
  {
    if op.Put? then [SET, op.key, op.value] else [DEL, op.key]
  }

  /** The three ways to run two writes when x, run by thread i, is logged first. */
  function FirstLogged(x: Op, i: nat, y: Op, j: nat, at: nat): set<seq<Event>> {
    {[Begin(i, x, at), Continue(i, at), Begin(j, y, at), Continue(j, at)],
     [Begin(i, x, at), Begin(j, y, at), Continue(i, at), Continue(j, at)],
     [Begin(i, x, at), Begin(j, y, at), Continue(j, at), Continue(i, at)]}
  }

  /** Whatever way two threads run two writes, log and store agree at the end. */
  ghost predicate AgreeHoweverRun(s: Shared, base: Db, a: Op, b: Op) {
    forall r :: r in FirstLogged(a, 0, b, 1, s.now) + FirstLogged(b, 1, a, 0, s.now) ==>
      && RunEvents(s, r).Some?
      && var s' := RunEvents(s, r).value;
         s'.tasks == map[] && Follows(s'.db, Replay(base, s'.log), s'.now)
  }

  function Both(db: Db, x: Op, y: Op): Db
    requires IsWrite(x) && IsWrite(y)
  {
    SetRaw(SetRaw(db, x.key, RawOf(x)), y.key, RawOf(y))
  }

  lemma RunOneMore(s: Shared, events: seq<Event>, e: Event)
    requires RunEvents(s, events).Some? && Possible(RunEvents(s, events).value, e)
    ensures RunEvents(s, events + [e]) == Some(Next(RunEvents(s, events).value, e))
  {
    hide Next, Possible;
    assert (events + [e])[..|events|] == events;
  }

  lemma RunFour(s: Shared, e1: Event, e2: Event, e3: Event, e4: Event)
    requires Possible(s, e1) && Possible(Next(s, e1), e2) && Possible(Next(Next(s, e1), e2), e3)
    requires Possible(Next(Next(Next(s, e1), e2), e3), e4)
    ensures RunEvents(s, [e1, e2, e3, e4]) == Some(Next(Next(Next(Next(s, e1), e2), e3), e4))
  {
    hide Next, Possible;
    assert RunEvents(s, []) == Some(s);
    hide RunEvents;
    RunOneMore(s, [], e1);
    RunOneMore(s, [] + [e1], e2);
    RunOneMore(s, [] + [e1] + [e2], e3);
    RunOneMore(s, [] + [e1] + [e2] + [e3], e4);
    assert [] + [e1] + [e2] + [e3] + [e4] == [e1, e2, e3, e4];
  }

  lemma BeginWrite(s: Shared, id: nat, op: Op)
    requires IsWrite(op) && id !in s.tasks
    ensures Possible(s, Begin(id, op, s.now))
    ensures Next(s, Begin(id, op, s.now))
         == s.(log := s.log + [CommandOf(op)], tasks := s.tasks[id := Write(op.key, RawOf(op))])
  {
  }

  lemma FirstLoggedEnds(s: Shared, x: Op, i: nat, y: Op, j: nat)
    requires s.tasks == map[] && IsWrite(x) && IsWrite(y) && i != j
    ensures var log := s.log + [CommandOf(x)] + [CommandOf(y)];
            var done := Shared(Both(s.db, x, y), log, s.now, map[]);
            var at := s.now;
            && RunEvents(s, [Begin(i, x, at), Continue(i, at), Begin(j, y, at), Continue(j, at)]) == Some(done)
            && RunEvents(s, [Begin(i, x, at), Begin(j, y, at), Continue(i, at), Continue(j, at)]) == Some(done)
            && RunEvents(s, [Begin(i, x, at), Begin(j, y, at), Continue(j, at), Continue(i, at)])
                 == Some(done.(db := Both(s.db, y, x)))
  {
    hide RunEvents, SetRaw, CommandOf, RawOf;
    var at := s.now;
    var one := Next(s, Begin(i, x, at));
    BeginWrite(s, i, x);
    BeginWrite(one, j, y);
    var alone := Next(one, Continue(i, at));
    BeginWrite(alone, j, y);
    RunFour(s, Begin(i, x, at), Continue(i, at), Begin(j, y, at), Continue(j, at));
    RunFour(s, Begin(i, x, at), Begin(j, y, at), Continue(i, at), Continue(j, at));
    RunFour(s, Begin(i, x, at), Begin(j, y, at), Continue(j, at), Continue(i, at));
  }

  /** Two writes started on an agreeing store leave log and store in agreement however they are
      run, exactly when they concern different keys or are the same write. */
  lemma OverlapSafeExactly(s: Shared, base: Db, a: Op, b: Op)
    requires s.tasks == map[] && Follows(s.db, Replay(base, s.log), s.now)
    requires IsWrite(a) && IsWrite(b)
    ensures AgreeHoweverRun(s, base, a, b) <==> a.key != b.key || a == b
  {
    hide RunEvents, Follows, Replay, Both;
    FirstLoggedEnds(s, a, 0, b, 1);
    FirstLoggedEnds(s, b, 1, a, 0);
    if a.key != b.key || a == b {
      WritesAgree(s, base, a, b);
      WritesAgree(s, base, b, a);
      WritesCommute(s.db, a, b);
    } else if a.Put? {
      WritesDisagree(s, base, a, b);
      assert [Begin(0, a, s.now), Begin(1, b, s.now), Continue(1, s.now), Continue(0, s.now)]
          in FirstLogged(a, 0, b, 1, s.now);
    } else {
      WritesDisagree(s, base, b, a);
      assert [Begin(1, b, s.now), Begin(0, a, s.now), Continue(0, s.now), Continue(1, s.now)]
          in FirstLogged(b, 1, a, 0, s.now);
    }
  }

  lemma WritesCommute(db: Db, x: Op, y: Op)
    requires IsWrite(x) && IsWrite(y) && (x.key != y.key || x == y)
    ensures Both(db, x, y) == Both(db, y, x)
  {
  }

  lemma ReplayBoth(base: Db, log: seq<Command>, x: Op, y: Op)
    requires IsWrite(x) && IsWrite(y)
    ensures Replay(base, log + [CommandOf(x)] + [CommandOf(y)]) == Both(Replay(base, log), x, y)
  {
    hide Replay;
    ReplayOneMore(base, log, x.key, if x.Put? then x.value else []);
    ReplayOneMore(base, log + [CommandOf(x)], y.key, if y.Put? then y.value else []);
  }

  lemma WritesAgree(s: Shared, base: Db, x: Op, y: Op)
    requires Follows(s.db, Replay(base, s.log), s.now) && IsWrite(x) && IsWrite(y)
    ensures Follows(Both(s.db, x, y), Replay(base, s.log + [CommandOf(x)] + [CommandOf(y)]), s.now)
  {
    hide Replay, Expired;
    ReplayBoth(base, s.log, x, y);
  }

  lemma WritesDisagree(s: Shared, base: Db, x: Op, y: Op)
    requires x.Put? && IsWrite(y) && x.key == y.key && x != y
    ensures !Follows(Both(s.db, y, x), Replay(base, s.log + [CommandOf(x)] + [CommandOf(y)]), s.now)
  {
    hide Replay, Expired;
    ReplayBoth(base, s.log, x, y);
    var live := Both(s.db, y, x);
    assert x.key in live && live[x.key] == x.value + NO_DEADLINE;
    if y.Put? {
      assert (x.value + NO_DEADLINE)[..|x.value + NO_DEADLINE| - 3] == x.value;
      assert (y.value + NO_DEADLINE)[..|y.value + NO_DEADLINE| - 3] == y.value;
    }
  }

  /** A get or a cleaner visit that read an expired text, overtaken by a put on its key, removes
      what that put stored: the log holds the put, the store does not. */
  lemma VisitLosesPut(s: Shared, base: Db, visit: Op, value: Bytes, key: Bytes)
    requires s.tasks == map[] && (visit == Get(key, []) || visit == Clean(key))
    requires key in s.db && Expired(s.db[key], s.now) && TAB !in value
    ensures var r := [Begin(0, visit, s.now), Begin(1, Put(key, value), s.now),
                      Continue(1, s.now), Continue(0, s.now)];
            && RunEvents(s, r).Some?
            && var s' := RunEvents(s, r).value;
               && s'.tasks == map[] && key !in s'.db
               && GetAnswer(Replay(base, s'.log), key, [], s'.now) == Answer(true, value)
  {
    hide RunEvents, Decode, Replay, GetAnswer;
    var at := s.now;
    RunFour(s, Begin(0, visit, at), Begin(1, Put(key, value), at), Continue(1, at), Continue(0, at));
    ReplayOneMore(base, s.log, key, value);
    PutGetExactly(Replay(base, s.log), key, value, at);
  }
}
