/** Rolling back a branch of a distributed transaction from the images in its undo log. */
module Undo {
  import opened Options

  /** A row by table and primary key. */
  datatype Loc = Loc(table: string, pk: int)

  /** The values of a row other than its primary key. */
  type Fields = seq<string>

  datatype Record = Record(pk: int, fields: Fields)

  /** The rows of all tables. */
  type Store = map<Loc, Fields>

  /** The rows of one table at one moment; missing when there are none. */
  type Image = Option<seq<Record>>

  datatype SqlType = INSERT | UPDATE | DELETE

  datatype SqlUndoLog = SqlUndoLog(sqlType: SqlType, table: string, lockKey: string, before: Image, after: Image)

  /** A row of the undo log table; `readable` when it can be decoded, `normal` when it is in the normal state. */
  datatype LogRow = LogRow(xid: string, readable: bool, normal: bool, undo: SqlUndoLog)

  // ----- rows and images -----

  function Keys(rs: seq<Record>): (ks: seq<int>)
    ensures |ks| == |rs|
  {
    if rs == [] then [] else Keys(rs[..|rs| - 1]) + [rs[|rs| - 1].pk]
  }

  /** The rows with the given keys that exist, in the order of the keys. */
  function Fetch(s: Store, table: string, pks: seq<int>): seq<Record> {
    if pks == [] then []
    else
      var pk, init := pks[|pks| - 1], Fetch(s, table, pks[..|pks| - 1]);
      if Loc(table, pk) in s then init + [Record(pk, s[Loc(table, pk)])] else init
  }

  function ImageOf(rs: seq<Record>): Image {
    if rs == [] then None else Some(rs)
  }

  function Rows(i: Image): seq<Record> {
    if i.Some? then i.value else []
  }

  // ----- statements -----

  /** One statement acting on one row; inserting a key that exists is an error. */
  function Act(s: Store, kind: SqlType, table: string, r: Record): Option<Store> {
    var l := Loc(table, r.pk);
    match kind
    case INSERT => if l in s then None else Some(s[l := r.fields])
    case UPDATE => if l in s then Some(s[l := r.fields]) else Some(s)
    case DELETE => Some(s - {l})
  }

  /** A statement acting on each of its rows, the last row first. */
  function ActAll(s: Store, kind: SqlType, table: string, rs: seq<Record>): Option<Store>
    decreases |rs|
  {
    if rs == [] then Some(s)
    else
      var t := Act(s, kind, table, rs[|rs| - 1]);
      if t.None? then None else ActAll(t.value, kind, table, rs[..|rs| - 1])
  }

  function Opposite(kind: SqlType): SqlType {
    match kind case INSERT => DELETE case UPDATE => UPDATE case DELETE => INSERT
  }

  // ----- undoing one statement -----

  datatype Verdict = GoOn | Stop | Dirty | Fatal

  datatype Outcome = Done(store: Store) | Failed | Panic

  /** The rows an undo works from. */
  function UndoRows(u: SqlUndoLog): Image {
    if u.sqlType == INSERT then u.after else u.before
  }

  /** Whether the rows are still as the statement left them; images that fit no statement are dereferenced when missing. */
  function Validate(s: Store, u: SqlUndoLog): Verdict {
    if u.before.Some? && u.after.None? then if u.sqlType == INSERT then Fatal else GoOn
    else if u.before == u.after then Stop
    else if UndoRows(u).None? then Fatal
    else Compared(u, ImageOf(Fetch(s, u.table, Keys(Rows(UndoRows(u))))))
  }

  function Compared(u: SqlUndoLog, current: Image): Verdict {
    if u.after == current then GoOn else if u.before == current then Stop else Dirty
  }

  function Applied(t: Option<Store>): Outcome {
    if t.None? then Failed else Done(t.value)
  }

  /** The tables after one undo log. */
  function UndoOne(s: Store, u: SqlUndoLog): Outcome {
    match Validate(s, u)
    case Fatal => Panic
    case Dirty => Failed
    case Stop => Done(s)
    case GoOn => Applied(ActAll(s, Opposite(u.sqlType), u.table, Rows(UndoRows(u))))
  }

  method Execute(s: Store, u: SqlUndoLog) returns (r: Outcome)
    ensures r == UndoOne(s, u)
  {
    match Validate(s, u) {
      case Fatal => return Panic;
      case Dirty => return Failed;
      case Stop => return Done(s);
      case GoOn =>
    }
    var rows := Rows(UndoRows(u));
    var kind := Opposite(u.sqlType);
    var t := s;
    var i := |rows| - 1;
    assert rows[..i + 1] == rows;
    while i >= 0
      invariant -1 <= i < |rows|
      invariant ActAll(t, kind, u.table, rows[..i + 1]) == ActAll(s, kind, u.table, rows)
    {
      assert rows[..i + 1][..i] == rows[..i];
      var step := Act(t, kind, u.table, rows[i]);
      if step.None? { return Failed; }
      t := step.value;
      i := i - 1;
    }
    return Done(t);
  }

  // ----- undoing a branch -----

  /** The logs of one transaction, newest first, up to the first that cannot be decoded. */
  function Readable(log: seq<LogRow>, xid: string): seq<LogRow> {
    if log == [] then []
    else
      var last, init := log[|log| - 1], log[..|log| - 1];
      if last.xid != xid then Readable(init, xid)
      else if !last.readable then []
      else [last] + Readable(init, xid)
  }

  function Without(log: seq<LogRow>, xid: string): seq<LogRow> {
    if log == [] then []
    else
      var last, init := log[|log| - 1], Without(log[..|log| - 1], xid);
      if last.xid == xid then init else init + [last]
  }

  /** Replays logs in order until one fails; a table whose description cannot be fetched fails. */
  function Replay(s: Store, logs: seq<LogRow>, described: set<string>): Outcome
    decreases |logs|
  {
    if logs == [] then Done(s)
    else if logs[0].undo.table !in described then Failed
    else
      var t := UndoOne(s, logs[0].undo);
      if t.Done? then Replay(t.store, logs[1..], described) else t
  }

  /** The lock keys of the logs replayed before the first failure. */
  function Released(s: Store, logs: seq<LogRow>, described: set<string>): seq<string>
    decreases |logs|
  {
    if logs == [] || logs[0].undo.table !in described then []
    else
      var t := UndoOne(s, logs[0].undo);
      if t.Done? then [logs[0].undo.lockKey] + Released(t.store, logs[1..], described) else []
  }

  predicate AllNormal(logs: seq<LogRow>) {
    forall r | r in logs :: r.normal
  }

  datatype Ending = Ok | Error | Crash

  datatype Effect = Effect(store: Store, log: seq<LogRow>, lockKeys: seq<string>, ending: Ending)

  /** What `Undo` does to tables and undo log. */
  function Undone(s: Store, log: seq<LogRow>, xid: string, described: set<string>): Effect {
    var logs := Readable(log, xid);
    if !AllNormal(logs) then Effect(s, log, [], Ok)
    else Concluded(Replay(s, logs, described), s, log, logs, xid, Released(s, logs, described))
  }

  function Concluded(t: Outcome, s: Store, log: seq<LogRow>, logs: seq<LogRow>, xid: string, keys: seq<string>): Effect {
    match t
    case Panic => Effect(s, log, keys, Crash)
    case Failed => Effect(s, log, keys, Error)
    case Done(u) => Effect(u, if logs == [] then log else Without(log, xid), keys, Ok)
  }

  /** Reads the logs of one transaction; `stop` when one of them is not in the normal state. */
  method Collect(log: seq<LogRow>, xid: string) returns (logs: seq<LogRow>, stop: bool)
    ensures stop == !AllNormal(Readable(log, xid))
    ensures !stop ==> logs == Readable(log, xid)
  {
    logs, stop := [], false;
    var n := |log|;
    assert log[..n] == log;
    while n > 0
      invariant 0 <= n <= |log|
      invariant logs + Readable(log[..n], xid) == Readable(log, xid)
      invariant AllNormal(logs)
    {
      n := n - 1;
      assert log[..n + 1][..n] == log[..n];
      var row := log[n];
      if row.xid == xid {
        if !row.readable { return; }
        if !row.normal {
          assert row in Readable(log, xid);
          return logs, true;
        }
        logs := logs + [row];
      }
    }
  }

  /** Replays logs on the state of the open transaction. */
  method ReplayAll(s: Store, logs: seq<LogRow>, described: set<string>) returns (r: Outcome, lockKeys: seq<string>)
    ensures r == Replay(s, logs, described)
    ensures lockKeys == Released(s, logs, described)
  {
    lockKeys := [];
    var tx, i := s, 0;
    assert logs[0..] == logs;
    while i < |logs|
      invariant 0 <= i <= |logs|
      invariant Replay(s, logs, described) == Replay(tx, logs[i..], described)
      invariant Released(s, logs, described) == lockKeys + Released(tx, logs[i..], described)
    {
      assert logs[i..][1..] == logs[i + 1..];
      var u := logs[i].undo;
      if u.table !in described { return Failed, lockKeys; }
      var t := Execute(tx, u);
      if !t.Done? { return t, lockKeys; }
      tx := t.store;
      lockKeys := lockKeys + [u.lockKey];
      i := i + 1;
    }
    return Done(tx), lockKeys;
  }

  /** Deletes the log rows of one transaction. */
  method Remove(log: seq<LogRow>, xid: string) returns (kept: seq<LogRow>)
    ensures kept == Without(log, xid)
  {
    kept := [];
    for i := 0 to |log|
      invariant kept == Without(log[..i], xid)
    {
      assert log[..i + 1][..i] == log[..i];
      if log[i].xid != xid { kept := kept + [log[i]]; }
    }
    assert log[..|log|] == log;
  }

  /** The database a branch runs on. */
  class Database {
    var store: Store
    var log: seq<LogRow>

    /** Undoes everything logged for `xid` inside one local transaction, which takes effect only when it commits. */
    method Undo(xid: string, described: set<string>) returns (lockKeys: seq<string>, ending: Ending)
      modifies this
      ensures Effect(store, log, lockKeys, ending) == Undone(old(store), old(log), xid, described)
    {
      var logs, stop := Collect(log, xid);
      if stop { return [], Ok; }
      var r;
      r, lockKeys := ReplayAll(store, logs, described);
      match r {
        case Panic => return lockKeys, Crash;
        case Failed => return lockKeys, Error;
        case Done(tx) =>
          if logs != [] {
            var kept := Remove(log, xid);
            log := kept;
          }
          store := tx;
          return lockKeys, Ok;
      }
    }
  }
}
