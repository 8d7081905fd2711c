/** Undo over every run of logged statements. */
module UndoRuns {
  import opened Options
  import opened Lists
  import opened Undo

  // ----- what statements do, row by row -----

  function Lookup(s: Store, l: Loc): Option<Fields> {
    if l in s then Some(s[l]) else None
  }

  /** The fields listed for a row. */
  function Listed(rs: seq<Record>, table: string, l: Loc): Option<Fields> {
    if rs == [] then None
    else if Loc(table, rs[|rs| - 1].pk) == l then Some(rs[|rs| - 1].fields)
    else Listed(rs[..|rs| - 1], table, l)
  }

  /** A row after a statement that lists `listed` for it. */
  function After(kind: SqlType, row: Option<Fields>, listed: Option<Fields>): Option<Fields> {
    if listed.None? then row
    else match kind
         case INSERT => listed
         case UPDATE => if row.Some? then listed else None
         case DELETE => None
  }

  lemma {:induction false} ListedKeys(rs: seq<Record>, table: string, l: Loc)
    ensures Listed(rs, table, l).Some? <==> l.table == table && l.pk in Keys(rs)
  {
    if rs != [] {
      ListedKeys(rs[..|rs| - 1], table, l);
    }
  }

  /** Statements whose rows have distinct keys change exactly the listed rows, in any order. */
  lemma {:induction false} ActAllAt(s: Store, kind: SqlType, table: string, rs: seq<Record>, l: Loc)
    requires NoDup(Keys(rs)) && ActAll(s, kind, table, rs).Some?
    ensures Lookup(ActAll(s, kind, table, rs).value, l) == After(kind, Lookup(s, l), Listed(rs, table, l))
    decreases |rs|
  {
    if rs != [] {
      var r, init := rs[|rs| - 1], rs[..|rs| - 1];
      var t := Act(s, kind, table, r).value;
      NoDupInit(Keys(rs));
      assert Keys(rs)[..|Keys(rs)| - 1] == Keys(init);
      ActAllAt(t, kind, table, init, l);
      ListedKeys(init, table, Loc(table, r.pk));
    }
  }

  /** Only an insert can fail, and only on a key that exists. */
  lemma {:induction false} ActAllSucceeds(s: Store, kind: SqlType, table: string, rs: seq<Record>)
    requires NoDup(Keys(rs))
    ensures ActAll(s, kind, table, rs).Some? <==> (kind == INSERT ==> forall pk | pk in Keys(rs) :: Loc(table, pk) !in s)
    decreases |rs|
  {
    if rs != [] {
      var r, init := rs[|rs| - 1], rs[..|rs| - 1];
      var t := Act(s, kind, table, r);
      NoDupInit(Keys(rs));
      assert Keys(rs)[..|Keys(rs)| - 1] == Keys(init);
      assert forall pk | pk in Keys(rs) :: pk in Keys(init) || pk == r.pk;
      if t.Some? {
        ActAllSucceeds(t.value, kind, table, init);
      } else {
        assert r.pk in Keys(rs);
      }
    }
  }

  // ----- images -----

  lemma {:induction false} KeysAppend(rs: seq<Record>, r: Record)
    ensures Keys(rs + [r]) == Keys(rs) + [r.pk]
  {
    assert (rs + [r])[..|rs|] == rs;
  }

  lemma {:induction false} FetchKeys(s: Store, table: string, pks: seq<int>)
    requires NoDup(pks)
    ensures NoDup(Keys(Fetch(s, table, pks)))
    ensures forall pk :: pk in Keys(Fetch(s, table, pks)) <==> pk in pks && Loc(table, pk) in s
  {
    if pks != [] {
      var pk, init := pks[|pks| - 1], pks[..|pks| - 1];
      NoDupInit(pks);
      FetchKeys(s, table, init);
      if Loc(table, pk) in s {
        KeysAppend(Fetch(s, table, init), Record(pk, s[Loc(table, pk)]));
        NoDupAppend(Keys(Fetch(s, table, init)), pk);
      }
    }
  }

  /** An image lists a row as the tables hold it. */
  lemma {:induction false} FetchAt(s: Store, table: string, pks: seq<int>, l: Loc)
    ensures Listed(Fetch(s, table, pks), table, l) == if l.table == table && l.pk in pks then Lookup(s, l) else None
  {
    if pks != [] {
      var pk, init := pks[|pks| - 1], pks[..|pks| - 1];
      FetchAt(s, table, init, l);
      var f := Fetch(s, table, init);
      if Loc(table, pk) in s {
        assert (f + [Record(pk, s[Loc(table, pk)])])[..|f|] == f;
      }
    }
  }

  lemma {:induction false} FetchSame(s: Store, t: Store, table: string, pks: seq<int>)
    requires forall pk | pk in pks :: Lookup(s, Loc(table, pk)) == Lookup(t, Loc(table, pk))
    ensures Fetch(s, table, pks) == Fetch(t, table, pks)
  {
    if pks != [] {
      FetchSame(s, t, table, pks[..|pks| - 1]);
      assert pks[|pks| - 1] in pks;
      assert Lookup(s, Loc(table, pks[|pks| - 1])) == Lookup(t, Loc(table, pks[|pks| - 1]));
    }
  }

  /** The image of rows that all exist keeps their keys. */
  lemma {:induction false} FetchPresent(s: Store, table: string, pks: seq<int>)
    requires forall pk | pk in pks :: Loc(table, pk) in s
    ensures Keys(Fetch(s, table, pks)) == pks
  {
    if pks != [] {
      var pk, init := pks[|pks| - 1], pks[..|pks| - 1];
      assert pks == init + [pk];
      FetchPresent(s, table, init);
      KeysAppend(Fetch(s, table, init), Record(pk, s[Loc(table, pk)]));
    }
  }

  // ----- logged statements -----

  /** A statement of the branch: what it does to the rows it selects. */
  datatype Statement = Statement(kind: SqlType, table: string, rows: seq<Record>)

  predicate Touches(st: Statement, l: Loc) {
    l.table == st.table && l.pk in Keys(st.rows)
  }

  /** The statement is accepted by the database. */
  ghost predicate Accepted(s: Store, st: Statement) {
    NoDup(Keys(st.rows)) && ActAll(s, st.kind, st.table, st.rows).Some?
  }

  ghost function Performed(s: Store, st: Statement): Store
    requires Accepted(s, st)
  {
    ActAll(s, st.kind, st.table, st.rows).value
  }

  /** The images taken around a statement: the rows it selects before, and the same rows after. */
  ghost function Logged(s: Store, st: Statement, lockKey: string): SqlUndoLog
    requires Accepted(s, st)
  {
    var t := Performed(s, st);
    var before := Fetch(s, st.table, Keys(st.rows));
    match st.kind
    case INSERT => SqlUndoLog(INSERT, st.table, lockKey, None, ImageOf(Fetch(t, st.table, Keys(st.rows))))
    case DELETE => SqlUndoLog(DELETE, st.table, lockKey, ImageOf(before), None)
    case UPDATE => SqlUndoLog(UPDATE, st.table, lockKey, ImageOf(before), ImageOf(Fetch(t, st.table, Keys(before))))
  }

  ghost predicate Agree(s: Store, t: Store, owned: iset<Loc>) {
    forall l | l in owned :: Lookup(s, l) == Lookup(t, l)
  }

  ghost predicate Apart(s: Store, t: Store, owned: iset<Loc>) {
    forall l | l !in owned :: Lookup(s, l) == Lookup(t, l)
  }

  /** `r` is `t` with the owned rows put back as in `s`. */
  ghost predicate Restores(r: Outcome, s: Store, t: Store, owned: iset<Loc>) {
    r.Done? && Agree(r.store, s, owned) && Apart(r.store, t, owned)
  }

  /** The owned rows of `t` are as an accepted statement on owned rows left them. */
  ghost predicate Follows(s: Store, st: Statement, t: Store, owned: iset<Loc>) {
    Accepted(s, st) && (forall l | Touches(st, l) :: l in owned) && Agree(t, Performed(s, st), owned)
  }

  lemma {:induction false} PerformedAt(s: Store, st: Statement, l: Loc)
    requires Accepted(s, st)
    ensures Lookup(Performed(s, st), l) == After(st.kind, Lookup(s, l), Listed(st.rows, st.table, l))
    ensures Listed(st.rows, st.table, l).Some? <==> Touches(st, l)
  {
    ActAllAt(s, st.kind, st.table, st.rows, l);
    ListedKeys(st.rows, st.table, l);
  }

  // ----- one step back -----

  /** Acting on the images of an undo log, where that succeeds, puts the owned rows back. */
  lemma {:induction false} Replaced(s: Store, st: Statement, t: Store, owned: iset<Loc>, undoRows: seq<Record>)
    requires Follows(s, st, t, owned)
    requires NoDup(Keys(undoRows)) && ActAll(t, Opposite(st.kind), st.table, undoRows).Some?
    requires forall l :: After(Opposite(st.kind), Lookup(Performed(s, st), l), Listed(undoRows, st.table, l)) == Lookup(s, l)
    requires forall l | l !in owned :: Listed(undoRows, st.table, l).None?
    ensures Restores(Applied(ActAll(t, Opposite(st.kind), st.table, undoRows)), s, t, owned)
  {
    var r := ActAll(t, Opposite(st.kind), st.table, undoRows).value;
    forall l ensures Lookup(r, l) == After(Opposite(st.kind), Lookup(t, l), Listed(undoRows, st.table, l)) {
      ActAllAt(t, Opposite(st.kind), st.table, undoRows, l);
    }
  }

  /** A row that a statement touches is owned, so it is as the statement left it. */
  lemma {:induction false} Untouched(s: Store, st: Statement, t: Store, owned: iset<Loc>, pks: seq<int>)
    requires Follows(s, st, t, owned)
    requires forall pk | pk in pks :: pk in Keys(st.rows)
    ensures Fetch(t, st.table, pks) == Fetch(Performed(s, st), st.table, pks)
  {
    forall pk | pk in pks ensures Lookup(t, Loc(st.table, pk)) == Lookup(Performed(s, st), Loc(st.table, pk)) {
      assert Touches(st, Loc(st.table, pk));
    }
    FetchSame(t, Performed(s, st), st.table, pks);
  }

  /** Rows that exist after a statement are read back under their own keys. */
  lemma {:induction false} StillThere(s: Store, st: Statement, pks: seq<int>)
    requires Accepted(s, st)
    requires st.kind == INSERT || (st.kind == UPDATE && forall pk | pk in pks :: Loc(st.table, pk) in s)
    requires forall pk | pk in pks :: pk in Keys(st.rows)
    ensures Keys(Fetch(Performed(s, st), st.table, pks)) == pks
  {
    forall pk | pk in pks ensures Loc(st.table, pk) in Performed(s, st) {
      PerformedAt(s, st, Loc(st.table, pk));
    }
    FetchPresent(Performed(s, st), st.table, pks);
  }

  lemma {:induction false} StepBackInsert(s: Store, st: Statement, key: string, t: Store, owned: iset<Loc>)
    requires Follows(s, st, t, owned)
    requires st.kind == INSERT
    ensures Restores(UndoOne(t, Logged(s, st, key)), s, t, owned)
  {
    var p, pks := Performed(s, st), Keys(st.rows);
    var f := Fetch(p, st.table, pks);
    StillThere(s, st, pks);
    Untouched(s, st, t, owned, pks);
    ActAllSucceeds(t, DELETE, st.table, f);
    ActAllSucceeds(s, INSERT, st.table, st.rows);
    forall l
      ensures After(DELETE, Lookup(p, l), Listed(f, st.table, l)) == Lookup(s, l)
      ensures Listed(f, st.table, l).Some? ==> Touches(st, l)
    {
      PerformedAt(s, st, l);
      FetchAt(p, st.table, pks, l);
    }
    Replaced(s, st, t, owned, f);
  }

  lemma {:induction false} StepBackDelete(s: Store, st: Statement, key: string, t: Store, owned: iset<Loc>)
    requires Follows(s, st, t, owned)
    requires st.kind == DELETE
    ensures Restores(UndoOne(t, Logged(s, st, key)), s, t, owned)
  {
    var p, pks := Performed(s, st), Keys(st.rows);
    forall l ensures Lookup(p, l) == if Touches(st, l) then None else Lookup(s, l) {
      PerformedAt(s, st, l);
    }
    var f := Fetch(s, st.table, pks);
    forall l ensures Listed(f, st.table, l) == if Touches(st, l) then Lookup(s, l) else None {
      FetchAt(s, st.table, pks, l);
    }
    FetchKeys(s, st.table, pks);
    forall pk | pk in Keys(f) ensures Loc(st.table, pk) !in t {
      assert Touches(st, Loc(st.table, pk));
      assert Lookup(t, Loc(st.table, pk)) == Lookup(p, Loc(st.table, pk));
    }
    ActAllSucceeds(t, INSERT, st.table, f);
    if f != [] {
      Replaced(s, st, t, owned, f);
    }
  }

  lemma {:induction false} UpdateReplaced(s: Store, st: Statement, t: Store, owned: iset<Loc>, f: seq<Record>)
    requires Follows(s, st, t, owned)
    requires st.kind == UPDATE && f == Fetch(s, st.table, Keys(st.rows))
    ensures Restores(Applied(ActAll(t, UPDATE, st.table, f)), s, t, owned)
  {
    var p, pks := Performed(s, st), Keys(st.rows);
    FetchKeys(s, st.table, pks);
    ActAllSucceeds(t, UPDATE, st.table, f);
    forall l
      ensures After(UPDATE, Lookup(p, l), Listed(f, st.table, l)) == Lookup(s, l)
      ensures Listed(f, st.table, l).Some? ==> Touches(st, l)
    {
      PerformedAt(s, st, l);
      FetchAt(s, st.table, pks, l);
    }
    Replaced(s, st, t, owned, f);
  }

  lemma {:induction false} ValidateUpdate(t: Store, u: SqlUndoLog, f: seq<Record>, g: seq<Record>)
    requires u.sqlType == UPDATE && u.before == ImageOf(f) && u.after == ImageOf(g)
    requires Fetch(t, u.table, Keys(f)) == g && |f| == |g|
    ensures Validate(t, u) == if f == g then Stop else GoOn
  {
  }

  /** An update is undone unless it changed nothing: its rows are as it left them. */
  lemma {:induction false} UpdateValidated(s: Store, st: Statement, key: string, t: Store, owned: iset<Loc>,
      f: seq<Record>)
    requires Follows(s, st, t, owned)
    requires st.kind == UPDATE && f == Fetch(s, st.table, Keys(st.rows))
    ensures Validate(t, Logged(s, st, key)) == if f == Fetch(Performed(s, st), st.table, Keys(f)) then Stop else GoOn
  {
    FetchKeys(s, st.table, Keys(st.rows));
    StillThere(s, st, Keys(f));
    Untouched(s, st, t, owned, Keys(f));
    ValidateUpdate(t, Logged(s, st, key), f, Fetch(Performed(s, st), st.table, Keys(f)));
  }

  lemma {:induction false} StepBackUpdate(s: Store, st: Statement, key: string, t: Store, owned: iset<Loc>)
    requires Follows(s, st, t, owned)
    requires st.kind == UPDATE
    ensures Restores(UndoOne(t, Logged(s, st, key)), s, t, owned)
  {
    var f := Fetch(s, st.table, Keys(st.rows));
    UpdateValidated(s, st, key, t, owned, f);
    if f == Fetch(Performed(s, st), st.table, Keys(f)) {
      SameImages(s, st, f);
    } else {
      UpdateReplaced(s, st, t, owned, f);
    }
  }

  /** An update that changed none of its rows left the tables as they were. */
  lemma {:induction false} SameImages(s: Store, st: Statement, f: seq<Record>)
    requires Accepted(s, st) && st.kind == UPDATE && f == Fetch(s, st.table, Keys(st.rows))
    requires f == Fetch(Performed(s, st), st.table, Keys(f))
    ensures forall l :: Lookup(Performed(s, st), l) == Lookup(s, l)
  {
    forall l ensures Lookup(Performed(s, st), l) == Lookup(s, l) {
      PerformedAt(s, st, l);
      FetchAt(s, st.table, Keys(st.rows), l);
      FetchAt(Performed(s, st), st.table, Keys(f), l);
    }
  }

  /** Undoing the latest logged statement puts every owned row back as it was before the statement. */
  lemma {:induction false} StepBack(s: Store, st: Statement, key: string, t: Store, owned: iset<Loc>)
    requires Follows(s, st, t, owned)
    ensures Restores(UndoOne(t, Logged(s, st, key)), s, t, owned)
  {
    match st.kind {
      case INSERT => StepBackInsert(s, st, key, t, owned);
      case UPDATE => StepBackUpdate(s, st, key, t, owned);
      case DELETE => StepBackDelete(s, st, key, t, owned);
    }
  }

  // ----- when undoing a statement is refused -----

  /** The rows with these keys are the same in both. */
  ghost predicate Alike(s: Store, t: Store, table: string, pks: seq<int>) {
    forall pk | pk in pks :: Lookup(s, Loc(table, pk)) == Lookup(t, Loc(table, pk))
  }

  /** Two images are equal exactly when every row is. */
  lemma {:induction false} FetchAlike(s: Store, t: Store, table: string, pks: seq<int>)
    ensures Fetch(s, table, pks) == Fetch(t, table, pks) <==> Alike(s, t, table, pks)
  {
    if Fetch(s, table, pks) == Fetch(t, table, pks) {
      forall pk | pk in pks ensures Lookup(s, Loc(table, pk)) == Lookup(t, Loc(table, pk)) {
        FetchAt(s, table, pks, Loc(table, pk));
        FetchAt(t, table, pks, Loc(table, pk));
      }
    } else if Alike(s, t, table, pks) {
      FetchSame(s, t, table, pks);
    }
  }

  /** The keys of the rows that a statement selects. */
  ghost function Selected(s: Store, st: Statement): seq<int> {
    if st.kind == INSERT then Keys(st.rows) else Keys(Fetch(s, st.table, Keys(st.rows)))
  }

  /** The selected rows are as the statement left them, or again as they were before it; deleted rows have not come back. */
  ghost predicate Untampered(s: Store, st: Statement, t: Store)
    requires Accepted(s, st)
  {
    var pks := Selected(s, st);
    Alike(t, Performed(s, st), st.table, pks) || (st.kind != DELETE && Alike(t, s, st.table, pks))
  }

  /** Undoing an insert or update fails only on dirty rows. */
  lemma {:induction false} DoneUnlessDirty(t: Store, u: SqlUndoLog)
    requires u.sqlType != DELETE && NoDup(Keys(Rows(UndoRows(u)))) && !Validate(t, u).Fatal?
    ensures UndoOne(t, u).Done? <==> !Validate(t, u).Dirty?
    ensures !UndoOne(t, u).Panic?
  {
    ActAllSucceeds(t, Opposite(u.sqlType), u.table, Rows(UndoRows(u)));
  }

  /** The check compares the present rows with both images. */
  lemma {:induction false} DirtyExactly(t: Store, u: SqlUndoLog, f: seq<Record>, g: seq<Record>, rows: seq<Record>,
                                        present: seq<Record>)
    requires u.sqlType != DELETE && u.before == ImageOf(f) && u.after == ImageOf(g) && f != g && g != []
    requires UndoRows(u) == Some(rows) && present == Fetch(t, u.table, Keys(rows))
    ensures !Validate(t, u).Fatal? && (Validate(t, u).Dirty? <==> present != g && present != f)
  {
    assert Validate(t, u) == Compared(u, ImageOf(present));
  }

  lemma {:induction false} InsertChecked(s: Store, st: Statement, key: string, t: Store)
    requires Accepted(s, st) && st.kind == INSERT && st.rows != []
    ensures UndoOne(t, Logged(s, st, key)).Done? <==> Untampered(s, st, t)
    ensures !UndoOne(t, Logged(s, st, key)).Panic?
  {
    var p, pks := Performed(s, st), Keys(st.rows);
    var g, present := Fetch(p, st.table, pks), Fetch(t, st.table, pks);
    StillThere(s, st, pks);
    InsertedAnew(s, st);
    DirtyExactly(t, Logged(s, st, key), [], g, g, present);
    DoneUnlessDirty(t, Logged(s, st, key));
    FetchAlike(t, p, st.table, pks);
    FetchAlike(t, s, st.table, pks);
  }

  lemma {:induction false} InsertedAnew(s: Store, st: Statement)
    requires Accepted(s, st) && st.kind == INSERT
    ensures Fetch(s, st.table, Keys(st.rows)) == []
  {
    ActAllSucceeds(s, INSERT, st.table, st.rows);
    NothingThere(s, st.table, Keys(st.rows));
  }

  lemma {:induction false} NothingThere(s: Store, table: string, pks: seq<int>)
    requires forall pk | pk in pks :: Loc(table, pk) !in s
    ensures Fetch(s, table, pks) == []
  {
    if pks != [] {
      assert pks[|pks| - 1] in pks;
      NothingThere(s, table, pks[..|pks| - 1]);
    }
  }

  lemma {:induction false} UpdateChecked(s: Store, st: Statement, key: string, t: Store)
    requires Accepted(s, st) && st.kind == UPDATE
    requires Fetch(Performed(s, st), st.table, Selected(s, st)) != Fetch(s, st.table, Keys(st.rows))
    ensures UndoOne(t, Logged(s, st, key)).Done? <==> Untampered(s, st, t)
    ensures !UndoOne(t, Logged(s, st, key)).Panic?
  {
    var f, pks := Fetch(s, st.table, Keys(st.rows)), Selected(s, st);
    var g, present := Fetch(Performed(s, st), st.table, pks), Fetch(t, st.table, pks);
    FetchKeys(s, st.table, Keys(st.rows));
    StillThere(s, st, pks);
    assert |f| == |Keys(f)| == |Keys(g)| == |g|;
    DirtyExactly(t, Logged(s, st, key), f, g, f, present);
    DoneUnlessDirty(t, Logged(s, st, key));
    FetchAlike(t, Performed(s, st), st.table, pks);
    FetchAlike(t, s, st.table, pks);
    FetchAgain(s, st.table, Keys(st.rows));
  }

  /** Fetching by the keys of an image gives the image. */
  lemma {:induction false} FetchAgain(s: Store, table: string, pks: seq<int>)
    ensures Fetch(s, table, Keys(Fetch(s, table, pks))) == Fetch(s, table, pks)
  {
    if pks != [] {
      var pk, init := pks[|pks| - 1], pks[..|pks| - 1];
      FetchAgain(s, table, init);
      if Loc(table, pk) in s {
        var f := Fetch(s, table, init);
        KeysAppend(f, Record(pk, s[Loc(table, pk)]));
        assert (Keys(f) + [pk])[..|Keys(f)|] == Keys(f);
      }
    }
  }

  lemma {:induction false} DeleteChecked(s: Store, st: Statement, key: string, t: Store)
    requires Accepted(s, st) && st.kind == DELETE
    ensures UndoOne(t, Logged(s, st, key)).Done? <==> Untampered(s, st, t)
    ensures !UndoOne(t, Logged(s, st, key)).Panic?
  {
    var f, pks := Fetch(s, st.table, Keys(st.rows)), Selected(s, st);
    FetchKeys(s, st.table, Keys(st.rows));
    ActAllSucceeds(t, INSERT, st.table, f);
    forall pk | pk in pks ensures Lookup(Performed(s, st), Loc(st.table, pk)) == None {
      PerformedAt(s, st, Loc(st.table, pk));
    }
  }

  /**
   * A logged statement is undone exactly when its rows are untouched since, or already back; an update that changed
   * nothing is always undone. It is refused otherwise, and never panics.
   */
  lemma {:induction false} CheckedExactly(s: Store, st: Statement, key: string, t: Store)
    requires Accepted(s, st)
    ensures !UndoOne(t, Logged(s, st, key)).Panic?
    ensures UndoOne(t, Logged(s, st, key)).Done? <==>
            Untampered(s, st, t) || (st.kind == UPDATE && Logged(s, st, key).before == Logged(s, st, key).after)
  {
    match st.kind {
      case INSERT =>
        if st.rows != [] {
          InsertChecked(s, st, key, t);
        }
      case DELETE => DeleteChecked(s, st, key, t);
      case UPDATE =>
        if Fetch(Performed(s, st), st.table, Selected(s, st)) != Fetch(s, st.table, Keys(st.rows)) {
          UpdateChecked(s, st, key, t);
          FetchKeys(s, st.table, Keys(st.rows));
          StillThere(s, st, Selected(s, st));
        }
    }
  }

  /** Whatever the tables, a log crashes exactly when the image that its undo works from is missing and the other is not. */
  lemma {:induction false} CrashesExactly(s: Store, u: SqlUndoLog)
    ensures UndoOne(s, u).Panic? <==>
            if u.sqlType == INSERT then u.after.None? && u.before.Some? else u.before.None? && u.after.Some?
  {
  }

  // ----- runs -----

  /** What happens to a database: a statement of the branch, or a change by someone else to a row or the log. */
  datatype Event =
    | Own(statement: Statement, lockKey: string)
    | Write(loc: Loc, row: Option<Fields>)
    | Log(entry: LogRow)

  datatype State = State(store: Store, log: seq<LogRow>)

  /** Nobody else writes rows the branch owns or logs under its transaction, and statements keep to owned rows of described tables. */
  ghost predicate Allowed(s: Store, e: Event, xid: string, owned: iset<Loc>, described: set<string>) {
    match e
    case Own(st, _) => Accepted(s, st) && st.table in described && forall l | Touches(st, l) :: l in owned
    case Write(l, _) => l !in owned
    case Log(entry) => entry.xid != xid
  }

  ghost function Next(c: State, e: Event, xid: string, owned: iset<Loc>, described: set<string>): State
    requires Allowed(c.store, e, xid, owned, described)
  {
    match e
    case Own(st, key) => State(Performed(c.store, st), c.log + [LogRow(xid, true, true, Logged(c.store, st, key))])
    case Write(l, row) => State(if row.Some? then c.store[l := row.value] else c.store - {l}, c.log)
    case Log(entry) => State(c.store, c.log + [entry])
  }

  /** The state after some events, if all of them are allowed. */
  ghost function Reached(c: State, events: seq<Event>, xid: string, owned: iset<Loc>, described: set<string>): Option<State> {
    if events == [] then Some(c)
    else
      var m := Reached(c, events[..|events| - 1], xid, owned, described);
      if m.Some? && Allowed(m.value.store, events[|events| - 1], xid, owned, described)
      then Some(Next(m.value, events[|events| - 1], xid, owned, described))
      else None
  }

  /** The events are all allowed, from a log without rows of the transaction. */
  ghost predicate Ran(c: State, events: seq<Event>, xid: string, owned: iset<Loc>, described: set<string>) {
    Clean(c.log, xid) && Reached(c, events, xid, owned, described).Some?
  }

  ghost function End(c: State, events: seq<Event>, xid: string, owned: iset<Loc>, described: set<string>): State
    requires Ran(c, events, xid, owned, described)
  {
    Reached(c, events, xid, owned, described).value
  }

  /** The lock keys of the branch's own statements, newest first. */
  function LockKeys(events: seq<Event>): seq<string> {
    if events == [] then []
    else
      var last, init := events[|events| - 1], LockKeys(events[..|events| - 1]);
      if last.Own? then [last.lockKey] + init else init
  }

  predicate Clean(log: seq<LogRow>, xid: string) {
    forall r | r in log :: r.xid != xid
  }

  /** All log rows of a transaction, newest first. */
  function RowsOf(log: seq<LogRow>, xid: string): seq<LogRow> {
    if log == [] then []
    else
      var last, init := log[|log| - 1], RowsOf(log[..|log| - 1], xid);
      if last.xid == xid then [last] + init else init
  }

  lemma {:induction false} CleanReadable(log: seq<LogRow>, xid: string)
    requires Clean(log, xid)
    ensures Readable(log, xid) == []
  {
    if log != [] {
      assert log[|log| - 1] in log;
      CleanReadable(log[..|log| - 1], xid);
    }
  }

  lemma {:induction false} WithoutIsClean(log: seq<LogRow>, xid: string)
    ensures Clean(Without(log, xid), xid)
    ensures Clean(log, xid) ==> Without(log, xid) == log
  {
    if log != [] {
      var last, init := log[|log| - 1], log[..|log| - 1];
      assert log == init + [last];
      WithoutIsClean(init, xid);
    }
  }

  /** Deleting one transaction's log rows keeps the rows of every other, in order. */
  lemma {:induction false} WithoutKeepsOthers(log: seq<LogRow>, xid: string, other: string)
    requires other != xid
    ensures RowsOf(Without(log, xid), other) == RowsOf(log, other)
  {
    if log != [] {
      var last, init := log[|log| - 1], log[..|log| - 1];
      WithoutKeepsOthers(init, xid, other);
      var kept := Without(init, xid);
      if last.xid != xid {
        assert (kept + [last])[..|kept|] == kept;
      }
    }
  }

  /** Replaying the logs of any run, newest first, on tables that agree about the owned rows. */
  lemma {:induction false} RunUndone(c: State, events: seq<Event>, xid: string, owned: iset<Loc>,
                                     described: set<string>, t: Store)
    requires Ran(c, events, xid, owned, described)
    requires Agree(t, End(c, events, xid, owned, described).store, owned)
    ensures var logs := Readable(End(c, events, xid, owned, described).log, xid);
            && AllNormal(logs) && Released(t, logs, described) == LockKeys(events)
            && Restores(Replay(t, logs, described), c.store, t, owned)
    decreases |events|
  {
    if events == [] {
      CleanReadable(c.log, xid);
    } else {
      var e, init := events[|events| - 1], events[..|events| - 1];
      var m := End(c, init, xid, owned, described);
      var d := Next(m, e, xid, owned, described);
      match e {
        case Own(st, key) =>
          var u := LogRow(xid, true, true, Logged(m.store, st, key));
          StepBack(m.store, st, key, t, owned);
          var t' := UndoOne(t, u.undo).store;
          RunUndone(c, init, xid, owned, described, t');
          var logs := Readable(m.log, xid);
          assert d.log[..|d.log| - 1] == m.log;
          assert Readable(d.log, xid) == [u] + logs;
          assert ([u] + logs)[1..] == logs;
        case Write(_, _) =>
          RunUndone(c, init, xid, owned, described, t);
        case Log(_) =>
          assert d.log[..|d.log| - 1] == m.log;
          RunUndone(c, init, xid, owned, described, t);
      }
    }
  }

  /**
   * Undo after any run: every row the branch owns is back as it was before the run, all other rows stay as
   * others left them, the branch's log rows are gone and the other log rows remain.
   */
  lemma {:induction false} UndoRestores(c: State, events: seq<Event>, xid: string, owned: iset<Loc>,
                                        described: set<string>)
    requires Ran(c, events, xid, owned, described)
    ensures var d := End(c, events, xid, owned, described);
            var e := Undone(d.store, d.log, xid, described);
            && e.ending == Ok && e.lockKeys == LockKeys(events)
            && Agree(e.store, c.store, owned) && Apart(e.store, d.store, owned)
            && Clean(e.log, xid) && e.log == Without(d.log, xid)
  {
    var d := End(c, events, xid, owned, described);
    RunUndone(c, events, xid, owned, described, d.store);
    WithoutIsClean(d.log, xid);
    if Readable(d.log, xid) == [] {
      UnloggedRun(c, events, xid, owned, described);
    }
  }

  /** A run that left nothing to replay logged nothing. */
  lemma {:induction false} UnloggedRun(c: State, events: seq<Event>, xid: string, owned: iset<Loc>,
                                       described: set<string>)
    requires Ran(c, events, xid, owned, described)
    requires Readable(End(c, events, xid, owned, described).log, xid) == []
    ensures Clean(End(c, events, xid, owned, described).log, xid)
    decreases |events|
  {
    if events != [] {
      var e, init := events[|events| - 1], events[..|events| - 1];
      var m := End(c, init, xid, owned, described);
      var d := Next(m, e, xid, owned, described);
      assert !e.Write? ==> d.log[..|d.log| - 1] == m.log;
      UnloggedRun(c, init, xid, owned, described);
    }
  }

  /** With no other writer the tables are exactly as before the run. */
  lemma {:induction false} UndoRestoresAll(c: State, events: seq<Event>, xid: string, owned: iset<Loc>,
      described: set<string>)
    requires Ran(c, events, xid, owned, described)
    requires forall e | e in events :: !e.Write?
    ensures var d := End(c, events, xid, owned, described);
            Undone(d.store, d.log, xid, described).store == c.store
  {
    var d := End(c, events, xid, owned, described);
    UndoRestores(c, events, xid, owned, described);
    KeepsToOwned(c, events, xid, owned, described);
    SameStore(Undone(d.store, d.log, xid, described).store, c.store);
  }

  lemma {:induction false} SameStore(s: Store, t: Store)
    requires forall l :: Lookup(s, l) == Lookup(t, l)
    ensures s == t
  {
    assert forall l :: l in s <==> Lookup(s, l).Some?;
    assert forall l :: l in t <==> Lookup(t, l).Some?;
    forall l | l in s ensures l in t && s[l] == t[l] {
      assert Lookup(s, l) == Some(s[l]);
    }
    assert s.Keys == t.Keys;
  }

  lemma {:induction false} KeepsToOwned(c: State, events: seq<Event>, xid: string, owned: iset<Loc>,
                                        described: set<string>)
    requires Ran(c, events, xid, owned, described) && forall e | e in events :: !e.Write?
    ensures Apart(End(c, events, xid, owned, described).store, c.store, owned)
    decreases |events|
  {
    if events != [] {
      var e, init := events[|events| - 1], events[..|events| - 1];
      var m := End(c, init, xid, owned, described);
      assert e in events;
      KeepsToOwned(c, init, xid, owned, described);
      if e.Own? {
        forall l | l !in owned ensures Lookup(Performed(m.store, e.statement), l) == Lookup(m.store, l) {
          PerformedAt(m.store, e.statement, l);
        }
      }
    }
  }

  // ----- any log at all -----

  /** An undo that does not succeed changes nothing; one that replays its logs leaves none of them. */
  lemma {:induction false} AllOrNothing(s: Store, log: seq<LogRow>, xid: string, described: set<string>)
    ensures var e := Undone(s, log, xid, described);
            && (e.ending != Ok ==> e.store == s && e.log == log)
            && (e.ending == Ok ==> AllNormal(Readable(e.log, xid)) == AllNormal(Readable(log, xid)))
            && (e.ending == Ok && AllNormal(Readable(log, xid)) ==> Readable(e.log, xid) == [])
  {
    if Readable(log, xid) != [] {
      WithoutIsClean(log, xid);
      CleanReadable(Without(log, xid), xid);
    }
  }

  /** The first logs, one for each step, are undone one after the other, from `stores[0]` to the last of the stores. */
  ghost predicate Chain(stores: seq<Store>, logs: seq<LogRow>, described: set<string>) {
    && 1 <= |stores| <= |logs| + 1
    && forall i | 0 <= i < |stores| - 1 ::
         logs[i].undo.table in described && UndoOne(stores[i], logs[i].undo) == Done(stores[i + 1])
  }

  /** How a log ends an undo that has come to it. */
  ghost predicate Stops(s: Store, row: LogRow, described: set<string>, ending: Ending) {
    if row.undo.table !in described then ending == Error
    else if UndoOne(s, row.undo).Failed? then ending == Error
    else UndoOne(s, row.undo).Panic? && ending == Crash
  }

  lemma {:induction false} ChainOf(s: Store, logs: seq<LogRow>, described: set<string>) returns (stores: seq<Store>)
    ensures Chain(stores, logs, described) && stores[0] == s
    ensures |stores| == |logs| + 1 ==> Replay(s, logs, described) == Done(stores[|logs|])
    ensures |stores| <= |logs| ==>
              && !Replay(s, logs, described).Done?
              && Stops(stores[|stores| - 1], logs[|stores| - 1], described, if Replay(s, logs, described).Panic? then Crash else Error)
    decreases |logs|
  {
    stores := [s];
    if logs != [] && logs[0].undo.table in described && UndoOne(s, logs[0].undo).Done? {
      var rest := ChainOf(UndoOne(s, logs[0].undo).store, logs[1..], described);
      stores := [s] + rest;
      assert forall i | 0 <= i < |rest| - 1 :: logs[1..][i] == logs[i + 1];
      assert forall i | 0 < i < |stores| - 1 :: stores[i] == rest[i - 1] && stores[i + 1] == rest[i];
    }
  }

  /** The lock keys are those of the logs undone before the first that cannot be. */
  lemma {:induction false} ReleasedBy(stores: seq<Store>, logs: seq<LogRow>, described: set<string>, ending: Ending)
    requires Chain(stores, logs, described)
    requires |stores| <= |logs| ==> Stops(stores[|stores| - 1], logs[|stores| - 1], described, ending)
    ensures Released(stores[0], logs, described) == LockKeysOf(logs[..|stores| - 1])
    decreases |logs|
  {
    if |stores| > 1 {
      var rest := stores[1..];
      assert UndoOne(stores[0], logs[0].undo) == Done(stores[1]);
      assert forall i | 0 <= i < |rest| - 1 :: logs[1..][i] == logs[i + 1] && rest[i] == stores[i + 1];
      ReleasedBy(rest, logs[1..], described, ending);
      assert logs[..|stores| - 1] == [logs[0]] + logs[1..][..|rest| - 1];
    }
  }

  function LockKeysOf(logs: seq<LogRow>): seq<string> {
    if logs == [] then [] else [logs[0].undo.lockKey] + LockKeysOf(logs[1..])
  }

  /** Two chains from one store are the same as far as both go. */
  lemma {:induction false} OneChain(a: seq<Store>, b: seq<Store>, logs: seq<LogRow>, described: set<string>, i: nat)
    requires Chain(a, logs, described) && Chain(b, logs, described) && a[0] == b[0] && i < |a| && i < |b|
    ensures a[i] == b[i]
  {
    if i > 0 {
      OneChain(a, b, logs, described, i - 1);
      assert UndoOne(a[i - 1], logs[i - 1].undo) == Done(a[i]) && UndoOne(b[i - 1], logs[i - 1].undo) == Done(b[i]);
    }
  }

  /**
   * A log row that is not in the normal state stops everything, and counts as success. Otherwise an undo succeeds exactly
   * when every log can be undone, newest first, each on what the one before left; the result is where this leads.
   */
  lemma {:induction false} SucceedsExactly(s: Store, log: seq<LogRow>, xid: string, described: set<string>)
    ensures !AllNormal(Readable(log, xid)) ==> Undone(s, log, xid, described) == Effect(s, log, [], Ok)
    ensures var e, logs := Undone(s, log, xid, described), Readable(log, xid);
            AllNormal(logs) ==>
            && (e.ending == Ok <==> exists stores :: Chain(stores, logs, described) && |stores| == |logs| + 1 && stores[0] == s)
            && (e.ending == Ok ==> e.lockKeys == LockKeysOf(logs))
            && forall stores | e.ending == Ok && Chain(stores, logs, described) && |stores| == |logs| + 1 && stores[0] == s ::
                 e.store == stores[|logs|]
  {
    var logs := Readable(log, xid);
    var mine := ChainOf(s, logs, described);
    ReleasedBy(mine, logs, described, if Replay(s, logs, described).Panic? then Crash else Error);
    assert logs[..|logs|] == logs;
    forall stores | Chain(stores, logs, described) && |stores| == |logs| + 1 && stores[0] == s
      ensures |mine| == |logs| + 1 && stores[|logs|] == mine[|logs|]
    {
      var n := |mine| - 1;
      if n < |logs| { assert UndoOne(stores[n], logs[n].undo) == Done(stores[n + 1]); }
      OneChain(stores, mine, logs, described, n);
    }
  }

  /** Otherwise the first log that cannot be undone ends it, as that log does, and tables and log stay as they were. */
  lemma {:induction false} FailsExactly(s: Store, log: seq<LogRow>, xid: string, described: set<string>)
    returns (stores: seq<Store>)
    requires AllNormal(Readable(log, xid)) && Undone(s, log, xid, described).ending != Ok
    ensures var e, logs, n := Undone(s, log, xid, described), Readable(log, xid), |stores| - 1;
            && Chain(stores, logs, described) && stores[0] == s && n < |logs| && Stops(stores[n], logs[n], described, e.ending)
            && e == Effect(s, log, LockKeysOf(logs[..n]), e.ending)
  {
    stores := ChainOf(s, Readable(log, xid), described);
    ReleasedBy(stores, Readable(log, xid), described, Undone(s, log, xid, described).ending);
  }

  lemma {:induction false} NewestFirst(log: seq<LogRow>, row: LogRow, others: seq<LogRow>)
    requires row.readable && Clean(others, row.xid)
    ensures Readable(log + [row] + others, row.xid) == [row] + Readable(log, row.xid)
  {
    var all := log + [row] + others;
    if others == [] {
      assert all == log + [row] && all[..|all| - 1] == log;
    } else {
      var init := others[..|others| - 1];
      assert others[|others| - 1] in others;
      assert all[..|all| - 1] == log + [row] + init;
      NewestFirst(log, row, init);
    }
  }

  /**
   * After any run that ends with a statement of the branch, whatever others then do to tables and to the rest of the
   * log: if the statement's rows are not as it left them, or its table cannot be described, undo reports an error and
   * changes nothing.
   */
  lemma {:induction false} DirtyIsRefused(c: State, events: seq<Event>, xid: string, owned: iset<Loc>, known: set<string>,
                                          st: Statement, key: string, t: Store, others: seq<LogRow>, described: set<string>)
    requires Ran(c, events, xid, owned, known) && Clean(others, xid)
    requires var m := End(c, events, xid, owned, known);
             Accepted(m.store, st) &&
             (st.table !in described || !(Untampered(m.store, st, t) || (st.kind == UPDATE && Logged(m.store, st, key).before == Logged(m.store, st, key).after)))
    ensures var m := End(c, events, xid, owned, known);
            var log := m.log + [LogRow(xid, true, true, Logged(m.store, st, key))] + others;
            Undone(t, log, xid, described) == Effect(t, log, [], Error)
  {
    var m := End(c, events, xid, owned, known);
    var row := LogRow(xid, true, true, Logged(m.store, st, key));
    NewestFirst(m.log, row, others);
    RunUndone(c, events, xid, owned, known, m.store);
    CheckedExactly(m.store, st, key, t);
    var logs := [row] + Readable(m.log, xid);
    assert logs[0] == row;
    assert AllNormal(logs);
  }

  /** A second undo never changes anything, and releases no lock keys after a first that succeeded. */
  lemma {:induction false} Idempotent(s: Store, log: seq<LogRow>, xid: string, described: set<string>)
    ensures var e := Undone(s, log, xid, described);
            Undone(e.store, e.log, xid, described) == if e.ending == Ok then Effect(e.store, e.log, [], Ok) else e
  {
    AllOrNothing(s, log, xid, described);
  }

  /** Every log row of the transaction takes part exactly when all of them can be decoded. */
  lemma {:induction false} ReadableAll(log: seq<LogRow>, xid: string)
    ensures Readable(log, xid) <= RowsOf(log, xid)
    ensures Readable(log, xid) == RowsOf(log, xid) <==> forall r | r in RowsOf(log, xid) :: r.readable
  {
    if log != [] {
      var last, init := log[|log| - 1], log[..|log| - 1];
      ReadableAll(init, xid);
      if last.xid == xid && last.readable {
        var rest := RowsOf(init, xid);
        assert forall r | r in rest :: r in [last] + rest;
        assert forall r | r in [last] + rest :: r == last || r in rest;
        if Readable(log, xid) == RowsOf(log, xid) {
          assert ([last] + Readable(init, xid))[1..] == ([last] + rest)[1..];
        }
      } else if last.xid == xid {
        assert last in RowsOf(log, xid);
      }
    }
  }

  lemma {:induction false} UnreadableHides(older: seq<LogRow>, row: LogRow, newer: seq<LogRow>)
    requires !row.readable
    ensures Readable(older + [row] + newer, row.xid) == Readable(newer, row.xid)
  {
    var log := older + [row] + newer;
    if newer == [] {
      assert log == older + [row];
    } else {
      var init := newer[..|newer| - 1];
      assert log[..|log| - 1] == older + [row] + init;
      UnreadableHides(older, row, init);
    }
  }

  /**
   * A log row that cannot be decoded hides all older ones. They are deleted with the newer ones without being replayed;
   * if nothing newer can be replayed, nothing is deleted either, and the undo succeeds all the same.
   */
  lemma {:induction false} UnreadableIsLost(s: Store, older: seq<LogRow>, row: LogRow, newer: seq<LogRow>,
      described: set<string>)
    requires !row.readable
    ensures var log := older + [row] + newer;
            var e, f := Undone(s, log, row.xid, described), Undone(s, newer, row.xid, described);
            && e.store == f.store && e.lockKeys == f.lockKeys && e.ending == f.ending
            && (Readable(newer, row.xid) == [] ==> e == Effect(s, log, [], Ok))
            && (Readable(newer, row.xid) != [] && e.ending == Ok && AllNormal(Readable(newer, row.xid)) ==> Clean(e.log, row.xid))
  {
    UnreadableHides(older, row, newer);
    WithoutIsClean(older + [row] + newer, row.xid);
  }
}
