/** The key/value store of src/core/db.cpp: values carry a tab-separated deadline, LevelDB is a
    map, and every put, remove and expire is also logged as a command. The clock is a parameter. */
module Store {
  import opened ByteStrings
  import opened Decimal
  import opened Resp

  type Db = map<Bytes, Bytes>

  const SET: Bytes := [83, 69, 84]
  const DEL: Bytes := [68, 69, 76]
  const NO_DEADLINE: Bytes := [9, 45, 49] // "\t-1"
  const NEVER: int := TWO_64 - 1

  // ---------- the string encoding ----------

  /** std::string::find('\t'). */
  function FirstTab(s: Bytes): (r: Option<nat>)
    ensures r.None? ==> TAB !in s
    ensures r.Some? ==> r.value < |s| && s[r.value] == TAB
    ensures r.Some? ==> forall j :: 0 <= j < r.value ==> s[j] != TAB
  {
    if s == [] then None
    else if s[0] == TAB then Some(0)
    else
      match FirstTab(s[1..])
      case None => None
      case Some(i) =>
        assert forall j :: 1 <= j < i + 1 ==> s[j] == s[1..][j - 1];
        Some(i + 1)
  }

  datatype Decoded = NoTab | BadNumber | Deadline(value: Bytes, deadline: nat)

  function Decode(raw: Bytes): (r: Decoded)
    ensures r.Deadline? ==> r.deadline < TWO_64
  {
    match FirstTab(raw)
    case None => NoTab
    case Some(i) =>
      match Stoull(raw[i + 1..])
      case Thrown => BadNumber
      case Converted(d) => Deadline(raw[..i], d)
  }

  predicate Expired(raw: Bytes, now: nat) {
    var d := Decode(raw);
    d.Deadline? && d.deadline != NEVER && d.deadline <= now
  }

  /** The text before the first tab. */
  function Payload(raw: Bytes): Bytes {
    match FirstTab(raw)
    case None => raw
    case Some(i) => raw[..i]
  }

  /** What Impl::get leaves in the caller's string: unchanged when the key is missing. */
  function Fetch(db: Db, key: Bytes, initial: Bytes): Bytes {
    if key in db then db[key] else initial
  }

  // ---------- operations ----------

  datatype Answer = Answer(found: bool, value: Bytes)

  function PutDb(db: Db, key: Bytes, value: Bytes): Db {
    db[key := value + NO_DEADLINE]
  }

  function GetAnswer(db: Db, key: Bytes, initial: Bytes, now: nat): Answer {
    var raw := Fetch(db, key, initial);
    if raw == [] then Answer(false, [])
    else
      match Decode(raw)
      case NoTab => Answer(true, raw)
      case BadNumber => Answer(false, raw)
      case Deadline(v, d) =>
        if d != NEVER && d <= now then Answer(false, []) else Answer(true, v)
  }

  function GetDb(db: Db, key: Bytes, initial: Bytes, now: nat): Db {
    if Expired(Fetch(db, key, initial), now) then db - {key} else db
  }

  /** Conversion of an unsigned 64-bit difference to int64_t. */
  function ToInt64(x: nat): int
    requires x < TWO_64
  {
    if x < TWO_63 then x else x - TWO_64
  }

  function TtlAnswer(db: Db, key: Bytes, now: nat): int {
    match Decode(Fetch(db, key, []))
    case NoTab => -2
    case BadNumber => -1
    case Deadline(_, d) =>
      if d == NEVER then -1
      else if d <= now then -2
      else ToInt64(d - now)
  }

  /** The value that expire writes back: the payload and the wrapped absolute deadline. */
  function WithDeadline(raw: Bytes, ts: nat, now: nat): Bytes {
    Payload(raw) + [TAB] + ToDecimal((now + ts) % TWO_64)
  }

  function CleanDb(db: Db, key: Bytes, now: nat): Db {
    if key in db && Expired(db[key], now) then db - {key} else db
  }

  datatype Op =
    | Put(key: Bytes, value: Bytes)
    | Remove(key: Bytes)
    | Expire(key: Bytes, ts: nat)
    | Get(key: Bytes, initial: Bytes)
    | Clean(key: Bytes)

  function OpDb(db: Db, op: Op, now: nat): Db {
    match op
    case Put(k, v) => PutDb(db, k, v)
    case Remove(k) => db - {k}
    case Expire(k, ts) =>
      var raw := Fetch(db, k, []);
      if raw == [] then db else PutDb(db, k, WithDeadline(raw, ts, now))
    case Get(k, initial) => GetDb(db, k, initial, now)
    case Clean(k) => CleanDb(db, k, now)
  }

  /** The commands an operation appends to the log. Removing an expired key logs nothing. */
  function OpLog(db: Db, op: Op, now: nat): (log: seq<Command>)
    ensures |log| <= 1
  {
    match op
    case Put(k, v) => [[SET, k, v]]
    case Remove(k) => [[DEL, k]]
    case Expire(k, ts) =>
      var raw := Fetch(db, k, []);
      if raw == [] then [] else [[SET, k, WithDeadline(raw, ts, now)]]
    case Get(_, _) => []
    case Clean(_) => []
  }

  // ---------- replay ----------

  /** The SET/DEL dispatch of src/replica/replicate.cpp. */
  function Dispatch(db: Db, cmd: Bytes, key: Bytes, value: Bytes): Db {
    if cmd == DEL then db - {key}
    else if cmd == SET then PutDb(db, key, value)
    else db
  }

  function Execute(db: Db, c: Command): Db {
    if c == [] then db
    else Dispatch(db, c[0], if |c| > 1 then c[1] else [], if |c| > 2 then c[2] else [])
  }

  function Replay(db: Db, cmds: seq<Command>): Db {
    if cmds == [] then db
    else Execute(Replay(db, cmds[..|cmds| - 1]), cmds[|cmds| - 1])
  }

  // ---------- the class ----------

  /** Each method is one atomic database operation at time `now`; log appends and LevelDB writes
      succeed. */
  class LevelDBWrapper {
    var db: Db
    var log: seq<Command>

    constructor ()
      ensures db == map[] && log == []
    {
      db, log := map[], [];
    }

    method Put(key: Bytes, value: Bytes, ghost now: nat) returns (ok: bool)
      modifies this
      ensures ok
      ensures db == OpDb(old(db), Op.Put(key, value), now)
      ensures log == old(log) + OpLog(old(db), Op.Put(key, value), now)
    {
      var cmd := [SET, key, value];
      log := log + [cmd];
      var storedValue := value + NO_DEADLINE;
      db := db[key := storedValue];
      ok := true;
    }

    method Remove(key: Bytes, ghost now: nat) returns (ok: bool)
      modifies this
      ensures ok
      ensures db == OpDb(old(db), Op.Remove(key), now)
      ensures log == old(log) + OpLog(old(db), Op.Remove(key), now)
    {
      var cmd := [DEL, key];
      log := log + [cmd];
      db := db - {key};
      ok := true;
    }

    method Get(key: Bytes, initial: Bytes, now: nat) returns (found: bool, value: Bytes)
      modifies `db
      ensures Answer(found, value) == GetAnswer(old(db), key, initial, now)
      ensures db == OpDb(old(db), Op.Get(key, initial), now)
    {
      hide Stoull, FirstTab;
      value := if key in db then db[key] else initial;
      if value == [] {
        assert FirstTab([]).None?;
        return false, value;
      }
      var tabPos := FirstTab(value);
      if tabPos.Some? {
        var expireTime := Stoull(value[tabPos.value + 1..]);
        if expireTime.Thrown? {
          return false, value;
        }
        value := value[..tabPos.value];
        if expireTime.value == NEVER {
          return true, value;
        }
        if expireTime.value <= now {
          db := db - {key};
          return false, [];
        }
      }
      found := true;
    }

    method Ttl(key: Bytes, now: nat) returns (r: int)
      ensures r == TtlAnswer(db, key, now)
    {
      hide Stoull, FirstTab;
      var value := if key in db then db[key] else [];
      if value == [] {
        assert FirstTab([]).None?;
        return -2;
      }
      var tabPos := FirstTab(value);
      if tabPos.None? {
        return -2;
      }
      var expireTime := Stoull(value[tabPos.value + 1..]);
      if expireTime.Thrown? {
        return -1;
      }
      if expireTime.value == NEVER {
        return -1;
      }
      if expireTime.value <= now {
        return -2;
      }
      r := ToInt64(expireTime.value - now);
    }

    method Expire(key: Bytes, ts: nat, now: nat) returns (ok: bool)
      modifies this
      ensures ok == (Fetch(old(db), key, []) != [])
      ensures db == OpDb(old(db), Op.Expire(key, ts), now)
      ensures log == old(log) + OpLog(old(db), Op.Expire(key, ts), now)
    {
      var value := if key in db then db[key] else [];
      if value == [] {
        return false;
      }
      var tabPos := FirstTab(value);
      var actualValue := if tabPos.None? then value else value[..tabPos.value];
      var expireTime := (now + ts) % TWO_64;
      var newValue := actualValue + [TAB] + ToDecimal(expireTime);
      ok := Put(key, newValue, now);
    }

    /** One sweep of ttl_cleaner over the keys in iteration order, with a clock reading for each
        key: exactly the keys found expired are dropped, and nothing is logged. */
    method TtlCleaner(order: seq<Bytes>, clock: seq<nat>)
      requires |clock| == |order|
      requires forall i :: 0 <= i < |order| ==> order[i] in db
      requires forall i, j :: 0 <= i < j < |order| ==> order[i] != order[j]
      modifies `db
      ensures db.Keys <= old(db).Keys && forall k :: k in db ==> db[k] == old(db)[k]
      ensures forall i :: 0 <= i < |order| ==>
        (order[i] in db <==> !Expired(old(db)[order[i]], clock[i]))
      ensures forall k :: k in old(db) && k !in order ==> k in db
    {
      hide Expired;
      var i := 0;
      while i < |order|
        invariant 0 <= i <= |order|
        invariant db.Keys <= old(db).Keys && forall k :: k in db ==> db[k] == old(db)[k]
        invariant forall j :: 0 <= j < i ==>
          (order[j] in db <==> !Expired(old(db)[order[j]], clock[j]))
        invariant forall j :: i <= j < |order| ==> order[j] in db
        invariant forall k :: k in old(db) && k !in order ==> k in db
      {
        CleanVisit(order[i], clock[i]);
        i := i + 1;
      }
    }

    method CleanVisit(key: Bytes, now: nat)
      requires key in db
      modifies `db
      ensures db == OpDb(old(db), Op.Clean(key), now)
    {
      var value := db[key];
      var tabPos := FirstTab(value);
      if tabPos.Some? {
        var expireTime := Stoull(value[tabPos.value + 1..]);
        if expireTime.Thrown? || expireTime.value == NEVER {
          return;
        }
        if expireTime.value <= now {
          db := db - {key};
        }
      }
    }
  }
}
