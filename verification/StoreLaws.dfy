/** What the store guarantees: the log replays to an indistinguishable store, the string encoding
    refines a plain map of values with deadlines, and deadlines behave modulo 2^64. */
module StoreLaws {
  import opened ByteStrings
  import opened Decimal
  import opened Resp
  import opened Store

  // ---------- log replay agrees with the live store ----------

  /** Every live key is physically equal in the replay; a key only in the replay is expired. */
  ghost predicate Follows(live: Db, replay: Db, now: nat) {
    && (forall k :: k in live ==> k in replay && replay[k] == live[k])
    && (forall k :: k in replay && k !in live ==> Expired(replay[k], now))
  }

  lemma {:induction false} ReplayAppend(db: Db, cmds: seq<Command>, more: seq<Command>)
    requires |more| <= 1
    ensures Replay(db, cmds + more) == Replay(Replay(db, cmds), more)
  {
    hide Execute;
    if more == [] {
      assert cmds + more == cmds;
    } else {
      assert (cmds + more)[..|cmds|] == cmds;
      assert more[..0] == [];
    }
  }

  /** Executing a command, a missing argument counts as empty and further ones are ignored. */
  lemma ArgumentsOf(db: Db, c: Command, x: Bytes)
    ensures 0 < |c| < 3 ==> Execute(db, c) == Execute(db, c + [[]])
    ensures |c| >= 3 ==> Execute(db, c) == Execute(db, c + [x])
  {
  }

  /** One operation keeps the relation, whatever it logs or silently removes. */
  lemma {:induction false} FollowsStep(live: Db, replay: Db, now: nat, op: Op, later: nat)
    requires Follows(live, replay, now) && now <= later
    ensures Follows(OpDb(live, op, later), Replay(replay, OpLog(live, op, later)), later)
  {
    hide Decode, WithDeadline;
    var log := OpLog(live, op, later);
    if log != [] {
      assert log[..0] == [];
      assert Replay(replay, log) == Execute(replay, log[0]);
    }
  }

  /** An expired leftover and a missing key give the same answers. */
  lemma FollowsAnswers(live: Db, replay: Db, now: nat, key: Bytes, t: nat)
    requires Follows(live, replay, now) && now <= t
    ensures GetAnswer(live, key, [], t) == GetAnswer(replay, key, [], t)
    ensures TtlAnswer(live, key, t) == TtlAnswer(replay, key, t)
  {
    assert Decode([]) == NoTab;
    if key in replay && key !in live {
      assert Expired(replay[key], now);
      assert replay[key] != [];
    }
  }

  datatype Timed = Timed(op: Op, now: nat)

  predicate Nondecreasing(run: seq<Timed>, from: nat) {
    forall i :: 0 <= i < |run| ==>
      from <= run[i].now && (i > 0 ==> run[i - 1].now <= run[i].now)
  }

  function LastTime(run: seq<Timed>, from: nat): nat {
    if run == [] then from else run[|run| - 1].now
  }

  function RunDb(db: Db, run: seq<Timed>): Db {
    if run == [] then db
    else
      var last := run[|run| - 1];
      OpDb(RunDb(db, run[..|run| - 1]), last.op, last.now)
  }

  function RunLog(db: Db, run: seq<Timed>): seq<Command> {
    if run == [] then []
    else
      var before := run[..|run| - 1];
      var last := run[|run| - 1];
      RunLog(db, before) + OpLog(RunDb(db, before), last.op, last.now)
  }

  /** After any sequence of operations under a clock that never goes back, replaying the log over
      the starting store gives a store that agrees with the live one. */
  lemma {:induction false} ReplayFollowsLive(db: Db, run: seq<Timed>, from: nat)
    requires Nondecreasing(run, from)
    ensures Follows(RunDb(db, run), Replay(db, RunLog(db, run)), LastTime(run, from))
    decreases |run|
  {
    hide OpDb, OpLog, Expired;
    if run != [] {
      var before, last := run[..|run| - 1], run[|run| - 1];
      ReplayFollowsLive(db, before, from);
      var mid := RunDb(db, before);
      ReplayAppend(db, RunLog(db, before), OpLog(mid, last.op, last.now));
      FollowsStep(mid, Replay(db, RunLog(db, before)), LastTime(before, from), last.op, last.now);
    }
  }

  /** The observable form: get and ttl answer alike now and at every later time. */
  lemma {:induction false} ReplayAnswersLikeLive(db: Db, run: seq<Timed>, from: nat, key: Bytes, t: nat)
    requires Nondecreasing(run, from) && LastTime(run, from) <= t
    ensures GetAnswer(RunDb(db, run), key, [], t)
         == GetAnswer(Replay(db, RunLog(db, run)), key, [], t)
    ensures TtlAnswer(RunDb(db, run), key, t) == TtlAnswer(Replay(db, RunLog(db, run)), key, t)
  {
    hide RunDb, RunLog, Replay, GetAnswer, TtlAnswer;
    ReplayFollowsLive(db, run, from);
    FollowsAnswers(RunDb(db, run), Replay(db, RunLog(db, run)), LastTime(run, from), key, t);
  }

  // ---------- the encoding ----------

  lemma {:induction false} FirstTabOf(v: Bytes, rest: Bytes)
    requires TAB !in v
    ensures FirstTab(v + [TAB] + rest) == Some(|v|)
  {
    var s := v + [TAB] + rest;
    if v != [] {
      FirstTabOf(v[1..], rest);
      assert s[1..] == v[1..] + [TAB] + rest;
      assert s[0] == v[0];
    }
  }

  lemma StoullOfMinusOne()
    ensures Stoull([45, 49]) == Converted(NEVER)
  {
    var s: Bytes := [45, 49];
    var d: Bytes := [49];
    assert s[1..] == d && d[1..] == [] && d[..1] == d && d[..0] == [];
    assert DigitRun(d) == 1;
    assert Value(d) == 1;
  }

  lemma StoullOfDeadline(d: nat)
    requires d < TWO_64
    ensures Stoull(ToDecimal(d) + NO_DEADLINE) == Converted(d)
  {
    hide ScanNumber;
    ScanOfToDecimal(d, NO_DEADLINE);
  }

  lemma DecodeTabbed(v: Bytes, rest: Bytes)
    requires TAB !in v
    ensures Decode(v + [TAB] + rest) == match Stoull(rest)
                                        case Thrown => BadNumber
                                        case Converted(d) => Deadline(v, d)
    ensures Payload(v + [TAB] + rest) == v
  {
    hide Stoull, FirstTab;
    FirstTabOf(v, rest);
    var s := v + [TAB] + rest;
    assert s[|v| + 1..] == rest && s[..|v|] == v;
  }

  /** A put value followed by "\t-1" decodes to that value without deadline, if it has no tab. */
  lemma DecodePlain(v: Bytes)
    requires TAB !in v
    ensures Decode(v + NO_DEADLINE) == Deadline(v, NEVER) && Payload(v + NO_DEADLINE) == v
  {
    hide Stoull, Decode, Payload;
    assert v + NO_DEADLINE == v + [TAB] + [45, 49];
    DecodeTabbed(v, [45, 49]);
    StoullOfMinusOne();
  }

  lemma DecodeWithDeadline(v: Bytes, d: nat)
    requires TAB !in v && d < TWO_64
    ensures Decode(v + [TAB] + ToDecimal(d) + NO_DEADLINE) == Deadline(v, d)
    ensures Payload(v + [TAB] + ToDecimal(d) + NO_DEADLINE) == v
  {
    hide Stoull, Decode, Payload, ToDecimal;
    assert v + [TAB] + ToDecimal(d) + NO_DEADLINE == v + [TAB] + (ToDecimal(d) + NO_DEADLINE);
    DecodeTabbed(v, ToDecimal(d) + NO_DEADLINE);
    StoullOfDeadline(d);
  }

  lemma PayloadHasNoTab(raw: Bytes)
    ensures TAB !in Payload(raw)
  {
  }

  /** put then get gives the value back exactly when the value contains no tab. */
  lemma PutGetExactly(db: Db, key: Bytes, value: Bytes, now: nat)
    ensures GetAnswer(PutDb(db, key, value), key, [], now) == Answer(true, value) <==> TAB !in value
  {
    hide Stoull;
    var raw := value + NO_DEADLINE;
    if TAB !in value {
      DecodePlain(value);
    } else {
      assert TAB in raw;
      var i := FirstTab(raw).value;
      assert i < |value| by {
        var j :| 0 <= j < |value| && value[j] == TAB;
        assert raw[j] == TAB;
      }
    }
  }

  // ---------- deadlines ----------

  /** The raw text and the answers right after expire, for every stored text and all 64-bit
      inputs: the key is dead at t exactly when the wrapped deadline has come. */
  lemma ExpireAnswers(db: Db, key: Bytes, ts: nat, now: nat, t: nat)
    requires Fetch(db, key, []) != []
    ensures var after := OpDb(db, Expire(key, ts), now);
            var v := Payload(db[key]);
            var d := (now + ts) % TWO_64;
            && GetAnswer(after, key, [], t)
                 == (if d != NEVER && d <= t then Answer(false, []) else Answer(true, v))
            && TtlAnswer(after, key, t)
                 == (if d == NEVER then -1 else if d <= t then -2 else ToInt64(d - t))
  {
    hide Decode, Payload, ToDecimal, FirstTab;
    var v := Payload(db[key]);
    PayloadHasNoTab(db[key]);
    DecodeWithDeadline(v, (now + ts) % TWO_64);
  }

  /** How EXPIRE's signed seconds reach the store: conversion of int64_t to uint64_t. */
  function SecondsAsUnsigned(s: int): nat
    requires -TWO_63 <= s < TWO_63
  {
    if s >= 0 then s else s + TWO_64
  }

  lemma WrappedDeadline(s: int, now: nat)
    requires -TWO_63 <= s < TWO_63 && now < TWO_64
    ensures (now + SecondsAsUnsigned(s)) % TWO_64
         == if now + s < 0 then now + s + TWO_64 else if now + s < TWO_64 then now + s
            else now + s - TWO_64
  {
  }

  /** The promised life time: alive with the remaining seconds until now+s, dead from then on. */
  lemma {:induction false} ExpireLifetime(db: Db, key: Bytes, s: int, now: nat, t: nat)
    requires Fetch(db, key, []) != []
    requires 0 < s < TWO_63 && now + s < NEVER && now <= t
    ensures var after := OpDb(db, Expire(key, SecondsAsUnsigned(s)), now);
            && TtlAnswer(after, key, t) == (if t < now + s then now + s - t else -2)
            && GetAnswer(after, key, [], t)
                 == (if t < now + s then Answer(true, Payload(db[key])) else Answer(false, []))
  {
    hide OpDb, GetAnswer, TtlAnswer;
    WrappedDeadline(s, now);
    ExpireAnswers(db, key, SecondsAsUnsigned(s), now, t);
  }

  /** A non-positive EXPIRE kills the key at once exactly when it reaches no further back than
      the epoch; otherwise the wrapped deadline lies in the far future, the key lives on, and ttl
      reports the negative number of seconds itself. */
  lemma ExpireNonPositive(db: Db, key: Bytes, s: int, now: nat)
    requires Fetch(db, key, []) != []
    requires -TWO_63 <= s <= 0 && now < NEVER
    ensures var after := OpDb(db, Expire(key, SecondsAsUnsigned(s)), now);
            GetAnswer(after, key, [], now) == Answer(false, []) <==> -s <= now
    ensures var after := OpDb(db, Expire(key, SecondsAsUnsigned(s)), now);
            TtlAnswer(after, key, now)
              == if -s <= now then -2 else if now + s == -1 then -1 else s
  {
    hide OpDb, GetAnswer, TtlAnswer;
    WrappedDeadline(s, now);
    ExpireAnswers(db, key, SecondsAsUnsigned(s), now, now);
  }

  // ---------- refinement of a plain map ----------

  /** When a value dies: never, at a second, or a text that no number can be read from. */
  datatype Expiry = Never | At(deadline: nat) | Unreadable(text: Bytes)

  /** Expired entries stay until removed, since expire can revive them. */
  datatype Entry = Entry(value: Bytes, expiry: Expiry)
  type Cache = map<Bytes, Entry>

  function AtSecond(d: nat): Expiry {
    if d == NEVER then Never else At(d)
  }

  /** The expiry that a text behind a tab stands for. */
  function ExpiryOf(text: Bytes): Expiry {
    match Stoull(text)
    case Thrown => Unreadable(text)
    case Converted(d) => AtSecond(d)
  }

  /** A text with a tab: value before the first one, expiry behind it. */
  function TabbedEntry(text: Bytes): (e: Entry)
    requires TAB in text
    ensures TAB !in e.value && e.value + [TAB] <= text
  {
    var i := FirstTab(text).value;
    assert text[..i + 1] == text[..i] + [TAB];
    Entry(text[..i], ExpiryOf(text[i + 1..]))
  }

  /** What put makes of a value: a tab in it starts a deadline of its own. */
  function PutEntry(value: Bytes): Entry {
    if TAB !in value then Entry(value, Never) else TabbedEntry(value + NO_DEADLINE)
  }

  predicate Dead(e: Entry, now: nat) {
    e.expiry.At? && e.expiry.deadline <= now
  }

  function Without(c: Cache, key: Bytes, now: nat): Cache {
    if key in c && Dead(c[key], now) then c - {key} else c
  }

  function CacheOp(c: Cache, op: Op, now: nat): Cache {
    match op
    case Put(k, v) => c[k := PutEntry(v)]
    case Remove(k) => c - {k}
    case Expire(k, ts) =>
      if k in c then c[k := Entry(c[k].value, AtSecond((now + ts) % TWO_64))] else c
    case Get(k, _) => Without(c, k, now)
    case Clean(k) => Without(c, k, now)
  }

  /** The answer about one entry: an unreadable expiry is an error that leaves the whole text with
      the caller. */
  function EntryAnswer(e: Entry, now: nat): Answer {
    match e.expiry
    case Never => Answer(true, e.value)
    case At(d) => if d <= now then Answer(false, []) else Answer(true, e.value)
    case Unreadable(text) => Answer(false, e.value + [TAB] + text)
  }

  /** A missing key leaves the caller's own string to be answered about. */
  function CacheGet(c: Cache, key: Bytes, initial: Bytes, now: nat): Answer {
    if key in c then EntryAnswer(c[key], now)
    else if TAB in initial then EntryAnswer(TabbedEntry(initial), now)
    else Answer(initial != [], initial)
  }

  function CacheTtl(c: Cache, key: Bytes, now: nat): int {
    if key !in c then -2
    else
      match c[key].expiry
      case Never => -1
      case Unreadable(_) => -1
      case At(d) =>
        var left := d - now;
        if left <= 0 then -2 else if left < TWO_63 then left else left - TWO_64
  }

  ghost predicate RepresentsWith(raw: Bytes, e: Entry, rest: Bytes) {
    raw == e.value + [TAB] + rest && e.expiry == ExpiryOf(rest)
  }

  ghost predicate Represents(raw: Bytes, e: Entry) {
    TAB !in e.value && exists rest :: RepresentsWith(raw, e, rest)
  }

  ghost predicate Refines(db: Db, c: Cache) {
    db.Keys == c.Keys && forall k :: k in db ==> Represents(db[k], c[k])
  }

  lemma RepresentedDecodes(raw: Bytes, e: Entry)
    requires Represents(raw, e)
    ensures raw != [] && Payload(raw) == e.value
    ensures Decode(raw)
         == match e.expiry
            case Never => Deadline(e.value, NEVER)
            case At(d) => Deadline(e.value, d)
            case Unreadable(_) => BadNumber
    ensures e.expiry.At? ==> e.expiry.deadline < NEVER
    ensures e.expiry.Unreadable? ==> raw == e.value + [TAB] + e.expiry.text
  {
    hide Decode, Payload, Stoull;
    var rest :| RepresentsWith(raw, e, rest);
    DecodeTabbed(e.value, rest);
  }

  lemma TabbedRepresents(text: Bytes)
    requires TAB in text
    ensures Represents(text, TabbedEntry(text))
  {
    hide ExpiryOf;
    var e, i := TabbedEntry(text), FirstTab(text).value;
    assert text == e.value + [TAB] + text[i + 1..];
    assert RepresentsWith(text, e, text[i + 1..]);
  }

  /** The answers of the encoded store are those of the plain map. */
  lemma RefinesAnswers(db: Db, c: Cache, key: Bytes, initial: Bytes, now: nat)
    requires Refines(db, c)
    ensures GetAnswer(db, key, initial, now) == CacheGet(c, key, initial, now)
    ensures TtlAnswer(db, key, now) == CacheTtl(c, key, now)
  {
    hide Decode, Represents, TabbedEntry;
    EmptyDecodes();
    if key in db {
      RepresentedDecodes(db[key], c[key]);
    } else if TAB in initial {
      TabbedRepresents(initial);
      RepresentedDecodes(initial, TabbedEntry(initial));
    } else {
      UntabbedDecodes(initial);
    }
  }

  lemma EmptyDecodes()
    ensures Decode([]) == NoTab
  {
  }

  lemma UntabbedDecodes(text: Bytes)
    requires TAB !in text
    ensures Decode(text) == NoTab
  {
  }

  /** Every operation commutes with the abstraction. */
  lemma {:induction false} RefinesStep(db: Db, c: Cache, op: Op, now: nat)
    requires Refines(db, c)
    ensures Refines(OpDb(db, op, now), CacheOp(c, op, now))
  {
    hide Decode, Payload, ToDecimal, Represents, PutEntry, ExpiryOf;
    EmptyDecodes();
    var k := op.key;
    if k in db {
      RepresentedDecodes(db[k], c[k]);
    }
    match op
    case Put(k, v) => RepresentsPut(v);
    case Expire(k, ts) =>
      if k in db {
        RepresentsDeadline(db[k], c[k], (now + ts) % TWO_64);
      }
    case _ =>
  }

  lemma RepresentsPut(v: Bytes)
    ensures Represents(v + NO_DEADLINE, PutEntry(v))
  {
    hide Stoull;
    if TAB in v {
      assert TAB in v + NO_DEADLINE;
      TabbedRepresents(v + NO_DEADLINE);
    } else {
      StoullOfMinusOne();
      assert v + NO_DEADLINE == v + [TAB] + [45, 49];
      assert RepresentsWith(v + NO_DEADLINE, PutEntry(v), [45, 49]);
    }
  }

  lemma RepresentsDeadline(raw: Bytes, e: Entry, d: nat)
    requires Represents(raw, e) && d < TWO_64
    ensures Represents(Payload(raw) + [TAB] + ToDecimal(d) + NO_DEADLINE, Entry(e.value, AtSecond(d)))
  {
    hide ToDecimal, Payload, Stoull;
    RepresentedDecodes(raw, e);
    StoullOfDeadline(d);
    var rest := ToDecimal(d) + NO_DEADLINE;
    Assoc(e.value + [TAB], ToDecimal(d), NO_DEADLINE);
    assert RepresentsWith(e.value + [TAB] + rest, Entry(e.value, AtSecond(d)), rest);
  }

  function CacheRun(c: Cache, run: seq<Timed>): Cache {
    if run == [] then c
    else
      var last := run[|run| - 1];
      CacheOp(CacheRun(c, run[..|run| - 1]), last.op, last.now)
  }

  /** Over every run from the empty store, whatever values are put, the encoded store is the plain
      map in disguise. */
  lemma {:induction false} RunRefines(run: seq<Timed>)
    ensures Refines(RunDb(map[], run), CacheRun(map[], run))
    decreases |run|
  {
    hide OpDb, CacheOp, Represents;
    if run != [] {
      RunRefines(run[..|run| - 1]);
      RefinesStep(RunDb(map[], run[..|run| - 1]), CacheRun(map[], run[..|run| - 1]),
                  run[|run| - 1].op, run[|run| - 1].now);
    }
  }

  lemma {:induction false} RunAnswersLikeCache(run: seq<Timed>, key: Bytes, initial: Bytes, now: nat)
    ensures GetAnswer(RunDb(map[], run), key, initial, now) == CacheGet(CacheRun(map[], run), key, initial, now)
    ensures TtlAnswer(RunDb(map[], run), key, now) == CacheTtl(CacheRun(map[], run), key, now)
  {
    hide RunDb, CacheRun, GetAnswer, TtlAnswer, CacheGet, CacheTtl;
    RunRefines(run);
    RefinesAnswers(RunDb(map[], run), CacheRun(map[], run), key, initial, now);
  }

  /** In particular right after a put, for every value: a tab-free one comes back and has no
      deadline; otherwise what stands behind the first tab decides. */
  lemma PutAnswers(db: Db, key: Bytes, v: Bytes, rest: Bytes, now: nat)
    requires TAB !in v
    ensures var after := PutDb(db, key, v);
            GetAnswer(after, key, [], now) == Answer(true, v) && TtlAnswer(after, key, now) == -1
    ensures var after := PutDb(db, key, v + [TAB] + rest);
            var get, ttl := GetAnswer(after, key, [], now), TtlAnswer(after, key, now);
            match Stoull(rest + NO_DEADLINE)
            case Thrown => get == Answer(false, v + [TAB] + rest + NO_DEADLINE) && ttl == -1
            case Converted(d) =>
              if d == NEVER then get == Answer(true, v) && ttl == -1
              else if d <= now then get == Answer(false, []) && ttl == -2
              else get == Answer(true, v) && ttl == ToInt64(d - now)
  {
    hide Stoull, Decode;
    DecodePlain(v);
    Assoc(v + [TAB], rest, NO_DEADLINE);
    DecodeTabbed(v, rest + NO_DEADLINE);
  }

  /** A text without a tab, which only foreign data can have, has no expiry; an empty one counts as
      missing. */
  lemma UntabbedAnswers(db: Db, key: Bytes, initial: Bytes, now: nat)
    requires key in db && TAB !in db[key]
    ensures GetAnswer(db, key, initial, now) == Answer(db[key] != [], db[key])
    ensures TtlAnswer(db, key, now) == -2
    ensures GetDb(db, key, initial, now) == db && CleanDb(db, key, now) == db
  {
    hide Decode;
    UntabbedDecodes(db[key]);
  }

  // ---------- tab-free values ----------

  /** The two shapes of a stored text when no value has a tab. */
  ghost predicate PlainText(raw: Bytes) {
    exists v :: TAB !in v && (raw == v + NO_DEADLINE || DeadlineText(raw, v))
  }

  ghost predicate DeadlineText(raw: Bytes, v: Bytes) {
    exists d: nat :: d < TWO_64 && raw == v + [TAB] + ToDecimal(d) + NO_DEADLINE
  }

  ghost predicate PlainTexts(db: Db) {
    forall k :: k in db ==> PlainText(db[k])
  }

  predicate Plain(op: Op) {
    op.Put? ==> TAB !in op.value
  }

  lemma PlainStep(db: Db, op: Op, now: nat)
    requires PlainTexts(db) && Plain(op)
    ensures PlainTexts(OpDb(db, op, now))
  {
    hide Decode, ToDecimal, FirstTab;
    if op.Expire? && Fetch(db, op.key, []) != [] {
      var v, d := Payload(db[op.key]), (now + op.ts) % TWO_64;
      PayloadHasNoTab(db[op.key]);
      assert DeadlineText(v + [TAB] + ToDecimal(d) + NO_DEADLINE, v);
    }
  }

  lemma {:induction false} RunPlainTexts(run: seq<Timed>)
    requires forall i :: 0 <= i < |run| ==> Plain(run[i].op)
    ensures PlainTexts(RunDb(map[], run))
    decreases |run|
  {
    hide OpDb, Plain, PlainText;
    if run != [] {
      RunPlainTexts(run[..|run| - 1]);
      PlainStep(RunDb(map[], run[..|run| - 1]), run[|run| - 1].op, run[|run| - 1].now);
    }
  }
}
