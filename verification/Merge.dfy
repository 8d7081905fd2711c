/** Merging the sorted results of several databases, with and without a limit. */
module Merge {
  import opened Options
  import opened RowOrder
  import opened MergeSpec
  import opened Lists

  datatype Ordering = Ordering(fields: seq<OrderField>, kinds: seq<Kind>)

  /** The order of conforming rows, extended to all rows by putting the others last. */
  ghost predicate Le(o: Ordering, a: Row, b: Row) {
    Orderable(o.fields, o.kinds) && Conforms(b, o.kinds) ==> Conforms(a, o.kinds) && Leq(o.fields, o.kinds, a, b)
  }

  ghost function LeOf(o: Ordering): (Row, Row) -> bool {
    (a, b) => Le(o, a, b)
  }

  lemma {:induction false} LePreorder(o: Ordering)
    ensures Preorder(LeOf(o))
  {
    var le := LeOf(o);
    if Orderable(o.fields, o.kinds) {
      forall a, b ensures le(a, b) || le(b, a) {
        if Conforms(a, o.kinds) && Conforms(b, o.kinds) { LeqTotal(o.fields, o.kinds, a, b); }
      }
      forall a, b, c | le(a, b) && le(b, c) ensures le(a, c) {
        if Conforms(c, o.kinds) { LeqTransitive(o.fields, o.kinds, a, b, c); }
      }
    }
  }

  /** What the caller guarantees: comparable columns, and every result sorted. */
  ghost predicate Mergeable(o: Ordering, results: seq<seq<Row>>) {
    && Orderable(o.fields, o.kinds)
    && (forall s, r | s in results && r in s :: Conforms(r, o.kinds))
    && AllSorted(LeOf(o), results)
  }

  /** A candidate row; `next` once it has been used. */
  datatype Cell = Cell(next: bool, row: Row)

  /** Where the merge stands in one result. */
  datatype Slot = Slot(cell: Option<Cell>, rowIndex: nat, ended: bool)

  datatype Outcome = Rows(rows: seq<Row>) | Panic

  predicate Active(s: Slot) {
    s.cell.Some? && !s.cell.value.next
  }

  /** The first `head` rows of the result have been used. */
  ghost predicate At(rows: seq<Row>, s: Slot, head: nat) {
    && head <= |rows|
    && (s.ended ==> head == |rows| && !Active(s) && (s.cell.None? <==> rows == []))
    && (!s.ended && s.cell.None? ==> head == 0 == s.rowIndex)
    && (!s.ended && s.cell.Some? && s.cell.value.next ==> s.rowIndex == head > 0)
    && (!s.ended && Active(s) ==> s.rowIndex == head + 1 && head < |rows| && s.cell.value.row == rows[head])
  }

  ghost predicate AllAt(results: seq<seq<Row>>, slots: seq<Slot>, heads: seq<nat>) {
    |slots| == |results| == |heads| && forall i | 0 <= i < |slots| :: At(results[i], slots[i], heads[i])
  }

  ghost predicate Loaded(slots: seq<Slot>) {
    forall i | 0 <= i < |slots| :: slots[i].ended || Active(slots[i])
  }

  ghost function Ended(slots: seq<Slot>): set<int> {
    set i | 0 <= i < |slots| && slots[i].ended
  }

  lemma {:induction false} AllEnded(slots: seq<Slot>)
    ensures |Ended(slots)| == |slots| <==> forall i | 0 <= i < |slots| :: slots[i].ended
  {
    var e, b := Ended(slots), Below(|slots|);
    assert e <= b && |b - e| == |b| - |e|;
    if |e| == |slots| {
      assert b - e == {};
      forall i | 0 <= i < |slots| ensures slots[i].ended { assert i in b && i !in b - e; }
    }
    if forall i | 0 <= i < |slots| :: slots[i].ended { assert e == b; }
  }

  lemma {:induction false} EndOne(slots: seq<Slot>, i: nat, s: Slot)
    requires i < |slots| && !slots[i].ended
    ensures |Ended(slots[i := s])| == |Ended(slots)| + if s.ended then 1 else 0
  {
    assert Ended(slots[i := s]) == if s.ended then Ended(slots) + {i} else Ended(slots);
  }

  /** Loads the next row of a result, or notes that there is none. */
  function Load(rows: seq<Row>, s: Slot): Slot
    requires s.rowIndex <= |rows|
  {
    if s.rowIndex == |rows| then s.(ended := true) else Slot(Some(Cell(false, rows[s.rowIndex])), s.rowIndex + 1, false)
  }

  /** Loads the next row of every result whose candidate is missing or used. */
  method Refill(results: seq<seq<Row>>, slots: seq<Slot>, endCount: nat, ghost heads: seq<nat>)
    returns (r: seq<Slot>, n: nat)
    requires AllAt(results, slots, heads) && endCount == |Ended(slots)|
    ensures AllAt(results, r, heads) && Loaded(r) && n == |Ended(r)|
  {
    r, n := slots, endCount;
    for i := 0 to |results|
      invariant AllAt(results, r, heads) && n == |Ended(r)|
      invariant forall j | 0 <= j < i :: r[j].ended || Active(r[j])
    {
      var s := r[i];
      assert At(results[i], s, heads[i]);
      if (s.cell.None? || s.cell.value.next) && !s.ended {
        var t := Load(results[i], s);
        EndOne(r, i, t);
        r := r[i := t];
        if t.ended { n := n + 1; }
      }
    }
  }

  ghost predicate LeastActive(o: Ordering, slots: seq<Slot>, row: Row) {
    forall i | 0 <= i < |slots| && Active(slots[i]) :: Le(o, row, slots[i].cell.value.row)
  }

  lemma {:induction false} NewLeast(o: Ordering, slots: seq<Slot>, i: nat, best: Row)
    requires i < |slots| && Active(slots[i]) && LeastActive(o, slots[..i], best) && Orderable(o.fields, o.kinds)
    requires Conforms(best, o.kinds) && Conforms(slots[i].cell.value.row, o.kinds)
    ensures var row := slots[i].cell.value.row;
            LeastActive(o, slots[..i + 1], if Before(o.fields, o.kinds, row, best) then row else best)
  {
    var row, le := slots[i].cell.value.row, LeOf(o);
    LePreorder(o);
    LeqTotal(o.fields, o.kinds, row, best);
    assert le(row, row) && (le(row, best) || le(best, row));
    if Before(o.fields, o.kinds, row, best) {
      forall j | 0 <= j < i && Active(slots[j]) ensures Le(o, row, slots[j].cell.value.row) {
        assert slots[..i][j] == slots[j] && le(row, best) && le(best, slots[j].cell.value.row);
        assert le(row, slots[j].cell.value.row);
      }
    } else {
      forall j | 0 <= j < i && Active(slots[j]) ensures Le(o, best, slots[j].cell.value.row) {
        assert slots[..i][j] == slots[j];
      }
    }
  }

  /** The position of a least unused candidate; a missing candidate panics. */
  method Pick(o: Ordering, slots: seq<Slot>) returns (panic: bool, p: nat)
    requires Orderable(o.fields, o.kinds) && forall i | 0 <= i < |slots| && Active(slots[i]) :: Conforms(slots[i].cell.value.row, o.kinds)
    requires exists i :: 0 <= i < |slots| && Active(slots[i])
    ensures panic <==> exists i | 0 <= i < |slots| :: slots[i].cell.None?
    ensures !panic ==> p < |slots| && Active(slots[p]) && LeastActive(o, slots, slots[p].cell.value.row)
  {
    p := |slots|;
    for i := 0 to |slots|
      invariant forall j | 0 <= j < i :: slots[j].cell.Some?
      invariant p == |slots| ==> forall j | 0 <= j < i :: !Active(slots[j])
      invariant p < |slots| ==> Active(slots[p]) && LeastActive(o, slots[..i], slots[p].cell.value.row)
      invariant p <= |slots|
    {
      if slots[i].cell.None? { return true, 0; }
      assert slots[..i + 1] == slots[..i] + [slots[i]];
      if Active(slots[i]) {
        var row := slots[i].cell.value.row;
        if p == |slots| {
          NewLeast(o, slots, i, row);
          p := i;
        } else {
          var best := slots[p].cell.value.row;
          NewLeast(o, slots, i, best);
          var less := Less(o.fields, o.kinds, row, best);
          if less { p := i; }
        }
      }
    }
    assert slots[..|slots|] == slots;
    panic := false;
  }

  /** How many candidates are unused; a missing candidate panics. */
  method CountActive(slots: seq<Slot>) returns (panic: bool, count: nat)
    ensures panic <==> exists i | 0 <= i < |slots| :: slots[i].cell.None?
    ensures !panic ==> (count == 0 <==> forall i | 0 <= i < |slots| :: !Active(slots[i]))
  {
    count := 0;
    for i := 0 to |slots|
      invariant forall j | 0 <= j < i :: slots[j].cell.Some?
      invariant count == 0 <==> forall j | 0 <= j < i :: !Active(slots[j])
    {
      if slots[i].cell.None? { return true, 0; }
      if !slots[i].cell.value.next { count := count + 1; }
    }
    panic := false;
  }

  // ----- one step of either ordered merge -----

  ghost predicate SomeEmpty(results: seq<seq<Row>>) {
    exists i | 0 <= i < |results| :: results[i] == []
  }

  ghost predicate AllEmpty(results: seq<seq<Row>>) {
    forall i | 0 <= i < |results| :: results[i] == []
  }

  ghost function Zeros(n: nat): seq<nat> {
    seq(n, i => 0)
  }

  lemma {:induction false} NothingTaken<T(!new)>(results: seq<seq<T>>, r: T)
    ensures Within(results, Zeros(|results|)) && Taken(results, Zeros(|results|), r) == 0
  {
    if results != [] {
      NothingTaken(results[1..], r);
      assert Zeros(|results|)[1..] == Zeros(|results| - 1);
    }
  }

  /** The state of an ordered merge: slots and popped rows agree on how far each result has been used. */
  ghost predicate Running(o: Ordering, results: seq<seq<Row>>, slots: seq<Slot>, endCount: nat, heads: seq<nat>,
                          popped: seq<Row>) {
    AllAt(results, slots, heads) && endCount == |Ended(slots)| && Merged(LeOf(o), results, heads, popped)
  }

  method Start(o: Ordering, results: seq<seq<Row>>) returns (slots: seq<Slot>, ghost heads: seq<nat>)
    ensures Running(o, results, slots, 0, heads, [])
    ensures forall i | 0 <= i < |heads| :: heads[i] == 0
  {
    slots := seq(|results|, i => Slot(None, 0, false));
    heads := Zeros(|results|);
    assert Ended(slots) == {};
    forall r ensures Taken(results, heads, r) == 0 { NothingTaken(results, r); }
  }

  /** Refills the slots and pops the least candidate, unless every result is used up. */
  method Step(o: Ordering, results: seq<seq<Row>>, slots: seq<Slot>, endCount: nat, ghost heads: seq<nat>,
              ghost popped: seq<Row>)
    returns (status: Status, r: seq<Slot>, n: nat, row: Row, ghost h: seq<nat>)
    requires Mergeable(o, results) && Running(o, results, slots, endCount, heads, popped)
    ensures status == Popped ==> Running(o, results, r, n, h, popped + [row]) && |Left(results, h)| < |Left(results, heads)|
    ensures status == Finished ==> Running(o, results, r, n, heads, popped) && forall i | 0 <= i < |r| :: r[i].ended && heads[i] == |results[i]|
    ensures status == Failed ==> SomeEmpty(results) && !AllEmpty(results)
    ensures status == Popped ==> !SomeEmpty(results)
  {
    row, h := [], heads;
    r, n := Refill(results, slots, endCount, heads);
    AllEnded(r);
    if n == |results| { return Finished, r, n, row, h; }
    assert exists i :: 0 <= i < |r| && Active(r[i]) by {
      var i :| 0 <= i < |r| && !r[i].ended;
      assert Active(r[i]);
    }
    forall i | 0 <= i < |r| && Active(r[i]) ensures Conforms(r[i].cell.value.row, o.kinds) {
      assert r[i].cell.value.row in results[i] && results[i] in results;
    }
    var panic, p := Pick(o, r);
    if panic { return Failed, r, n, row, h; }
    row := r[p].cell.value.row;
    PopLeast(o, results, r, n, heads, popped, p);
    h := heads[p := heads[p] + 1];
    r := r[p := r[p].(cell := Some(Cell(true, row)))];
    status := Popped;
  }

  datatype Status = Popped | Finished | Failed

  lemma {:induction false} PopLeast(o: Ordering, results: seq<seq<Row>>, slots: seq<Slot>, n: nat, heads: seq<nat>,
                                    popped: seq<Row>, p: nat)
    requires Mergeable(o, results) && Running(o, results, slots, n, heads, popped) && Loaded(slots)
    requires p < |slots| && Active(slots[p]) && LeastActive(o, slots, slots[p].cell.value.row)
    ensures heads[p] < |results[p]|
    ensures Running(o, results, slots[p := slots[p].(cell := Some(Cell(true, slots[p].cell.value.row)))], n,
                    heads[p := heads[p] + 1], popped + [slots[p].cell.value.row])
    ensures |Left(results, heads[p := heads[p] + 1])| < |Left(results, heads)|
  {
    var le, row := LeOf(o), slots[p].cell.value.row;
    LePreorder(o);
    assert At(results[p], slots[p], heads[p]);
    forall i | 0 <= i < |results| && heads[i] < |results[i]| ensures le(row, results[i][heads[i]]) {
      assert At(results[i], slots[i], heads[i]) && Active(slots[i]);
    }
    MergeStep(le, results, heads, popped, p);
    LeftAdvance(results, heads, p);
    assert Ended(slots[p := slots[p].(cell := Some(Cell(true, row)))]) == Ended(slots);
  }

  lemma {:induction false} NothingPopped(o: Ordering, results: seq<seq<Row>>, heads: seq<nat>)
    requires Merged(LeOf(o), results, heads, []) && forall i | 0 <= i < |heads| :: heads[i] == |results[i]|
    ensures AllEmpty(results)
  {
    MergeComplete(LeOf(o), results, heads, []);
    assert |multiset(Concat(results))| == |Concat(results)|;
    EmptyConcat(results);
  }

  lemma {:induction false} EmptyConcat(results: seq<seq<Row>>)
    requires Concat(results) == []
    ensures AllEmpty(results)
  {
    if results != [] {
      EmptyConcat(results[1..]);
      assert forall i | 0 < i < |results| :: results[i] == results[1..][i - 1];
    }
  }

  /** Part of the sorted rows of all results is in the order of the fields. */
  lemma {:induction false} SortedInOrder(o: Ordering, results: seq<seq<Row>>, merged: seq<Row>, rows: seq<Row>, p: nat, q: nat)
    requires Mergeable(o, results) && Sorted(LeOf(o), merged) && multiset(merged) == multiset(Concat(results))
    requires p <= q <= |merged| && rows == merged[p..q]
    ensures AllInOrder(o.fields, o.kinds, rows)
  {
    forall x | x in merged ensures Conforms(x, o.kinds) {
      assert x in multiset(merged);
      ConcatMembers(results, x);
    }
    forall i, j | 0 <= i < j < |rows|
      ensures Comparable(o.fields, o.kinds, rows[i], rows[j]) && InOrder(o.fields, o.kinds, rows[i], rows[j])
    {
      assert rows[i] == merged[p + i] && rows[j] == merged[p + j];
      assert LeOf(o)(merged[p + i], merged[p + j]);
      LeqInOrder(o.fields, o.kinds, rows[i], rows[j]);
    }
  }

  // ----- the two ordered merges -----

  /** ORDER BY without LIMIT. */
  method MergeOrderBy(o: Ordering, results: seq<seq<Row>>) returns (r: Outcome)
    requires Mergeable(o, results)
    // an empty result leaves a candidate missing
    ensures r.Panic? <==> results == [] || SomeEmpty(results)
    ensures r.Rows? ==> Sorted(LeOf(o), r.rows) && multiset(r.rows) == multiset(Concat(results))
    // ascending fields rise and descending ones fall, with NULLs first or last
    ensures r.Rows? ==> AllInOrder(o.fields, o.kinds, r.rows)
  {
    if results == [] { return Panic; }
    var slots;
    ghost var heads: seq<nat>;
    slots, heads := Start(o, results);
    var endCount := 0;
    var rows: seq<Row> := [];
    while true
      invariant Running(o, results, slots, endCount, heads, rows)
      invariant rows != [] ==> !SomeEmpty(results)
      decreases |Left(results, heads)|
    {
      var status, r', n, row, h := Step(o, results, slots, endCount, heads, rows);
      if status == Failed { return Panic; }
      slots, endCount := r', n;
      if status == Finished { break; }
      rows, heads := rows + [row], h;
    }
    var panic, count := CountActive(slots);
    assert forall i | 0 <= i < |slots| :: At(results[i], slots[i], heads[i]);
    if rows == [] { NothingPopped(o, results, heads); }
    if panic { return Panic; }
    // every result has ended, so the loop that would drain the remaining candidates has nothing to do
    assert count == 0;
    MergeComplete(LeOf(o), results, heads, rows);
    SortedInOrder(o, results, rows, rows, 0, |rows|);
    return Rows(rows);
  }

  function Min(a: nat, b: nat): nat {
    if a < b then a else b
  }

  /** Rows `offset .. offset + count - 1`, as far as there are any. */
  function Window<T>(s: seq<T>, offset: nat, count: nat): seq<T> {
    s[Min(offset, |s|)..Min(offset + count, |s|)]
  }

  /** What ORDER BY with LIMIT yields of the sorted rows: the window, except that a count of zero is no limit at all. */
  function Limited<T>(s: seq<T>, offset: nat, count: nat): seq<T> {
    if count == 0 then Behind(s, offset) else Window(s, offset, count)
  }

  /** A count of zero is served correctly exactly when there is nothing behind the offset. */
  lemma {:induction false} LimitedIsWindow<T>(s: seq<T>, offset: nat, count: nat)
    ensures Limited(s, offset, count) == Window(s, offset, count) <==> count >= 1 || |s| <= offset
  {
    if count == 0 && |s| > offset { assert |Limited(s, offset, count)| > 0; }
  }

  function Behind<T>(s: seq<T>, offset: nat): seq<T> {
    s[Min(offset, |s|)..]
  }

  lemma {:induction false} BehindAppend<T>(s: seq<T>, x: T, offset: nat)
    ensures Behind(s + [x], offset) == if |s| + 1 > offset then Behind(s, offset) + [x] else Behind(s, offset)
  {
  }

  lemma {:induction false} BehindIsLimited<T>(popped: seq<T>, rest: seq<T>, offset: nat, count: nat)
    requires count > 0 ==> |Behind(popped, offset)| <= count
    requires rest == [] || (count > 0 && |Behind(popped, offset)| == count)
    ensures Behind(popped, offset) == Limited(popped + rest, offset, count)
  {
    if rest == [] { assert popped + rest == popped; }
  }

  ghost predicate Exhausted(results: seq<seq<Row>>, slots: seq<Slot>, heads: seq<nat>) {
    |slots| == |heads| == |results| && forall i | 0 <= i < |slots| :: slots[i].ended && heads[i] == |results[i]|
  }

  /** Counts a popped row and keeps it when it is behind the offset; `full` when that reaches the count. */
  method Accept(rows: seq<Row>, rowCount: nat, row: Row, offset: nat, count: nat, ghost popped: seq<Row>)
    returns (kept: seq<Row>, n: nat, full: bool)
    requires rowCount == |popped| && rows == Behind(popped, offset) && (count > 0 ==> |rows| < count)
    ensures n == |popped + [row]| && kept == Behind(popped + [row], offset)
    ensures full ==> count > 0 && |kept| == count
    ensures !full && count > 0 ==> |kept| < count
  {
    BehindAppend(popped, row, offset);
    kept, n, full := rows, rowCount + 1, false;
    if n > offset {
      kept := kept + [row];
      full := |kept| == count;
    }
  }

  /** What the loop that pops rows keeps; `left` rows are not popped yet. */
  ghost predicate Popping(o: Ordering, results: seq<seq<Row>>, slots: seq<Slot>, endCount: nat, heads: seq<nat>,
                          popped: seq<Row>, left: nat) {
    && Mergeable(o, results) && Running(o, results, slots, endCount, heads, popped) && left == |Left(results, heads)|
    && (popped != [] ==> !SomeEmpty(results))
  }

  /** A name for what the loop keeps, so that the loop can be followed without knowing it. */
  ghost predicate Names(o: Ordering, results: seq<seq<Row>>, inv: (seq<Slot>, nat, seq<nat>, seq<Row>, nat) -> bool) {
    forall s, n, h, p, l {:trigger Popping(o, results, s, n, h, p, l)} :: inv(s, n, h, p, l) <==> Popping(o, results, s, n, h, p, l)
  }

  /** Pops one row and keeps it if it is behind the offset. */
  method PopOne(o: Ordering, results: seq<seq<Row>>, slots: seq<Slot>, endCount: nat, rows: seq<Row>, rowCount: nat,
                offset: nat, count: nat, ghost heads: seq<nat>, ghost popped: seq<Row>, ghost left: nat,
                ghost inv: (seq<Slot>, nat, seq<nat>, seq<Row>, nat) -> bool)
    returns (status: Status, full: bool, r: seq<Slot>, n: nat, kept: seq<Row>, total: nat, ghost h: seq<nat>,
             ghost all: seq<Row>, ghost fewer: nat)
    requires Names(o, results, inv) && inv(slots, endCount, heads, popped, left)
    requires rowCount == |popped| && rows == Behind(popped, offset) && (count > 0 ==> |rows| < count)
    ensures status == Failed ==> SomeEmpty(results) && !AllEmpty(results)
    ensures status != Failed ==> inv(r, n, h, all, fewer) && total == |all| && kept == Behind(all, offset)
    ensures status == Finished ==> Exhausted(results, r, h)
    ensures status == Popped ==> fewer < left
    ensures full ==> status == Popped && count > 0 && |kept| == count
    ensures !full && count > 0 ==> |kept| < count
  {
    assert Popping(o, results, slots, endCount, heads, popped, left);
    full, kept, total, all, fewer := false, rows, rowCount, popped, left;
    var row;
    status, r, n, row, h := Step(o, results, slots, endCount, heads, popped);
    if status == Popped {
      kept, total, full := Accept(rows, rowCount, row, offset, count, popped);
      all, fewer := popped + [row], |Left(results, h)|;
    } else {
      h := heads;
    }
    assert status != Failed ==> Popping(o, results, r, n, h, all, fewer);
  }

  /** The loop that pops rows. */
  method PopLoop(o: Ordering, results: seq<seq<Row>>, start: seq<Slot>, offset: nat, count: nat, ghost first: seq<nat>,
                 ghost most: nat, ghost inv: (seq<Slot>, nat, seq<nat>, seq<Row>, nat) -> bool)
    returns (failed: bool, slots: seq<Slot>, rows: seq<Row>, endCount: nat, ghost heads: seq<nat>,
             ghost popped: seq<Row>, ghost left: nat)
    requires Names(o, results, inv) && inv(start, 0, first, [], most)
    ensures failed ==> SomeEmpty(results) && !AllEmpty(results)
    ensures !failed ==> inv(slots, endCount, heads, popped, left) && rows == Behind(popped, offset)
    ensures !failed && count > 0 ==> |rows| <= count
    ensures !failed && !(count > 0 && |rows| == count) ==> Exhausted(results, slots, heads)
  {
    slots, rows, endCount, heads, popped, left := start, [], 0, first, [], most;
    var rowCount: nat := 0;
    while true
      invariant inv(slots, endCount, heads, popped, left)
      invariant rowCount == |popped| && rows == Behind(popped, offset) && (count > 0 ==> |rows| < count)
      decreases left
    {
      var status, full;
      status, full, slots, endCount, rows, rowCount, heads, popped, left :=
        PopOne(o, results, slots, endCount, rows, rowCount, offset, count, heads, popped, left, inv);
      failed := status == Failed;
      if failed || status == Finished || full { return; }
    }
  }

  /** Pops rows until the limit is reached or every result is used up. */
  method PopUntil(o: Ordering, results: seq<seq<Row>>, offset: nat, count: nat)
    returns (failed: bool, slots: seq<Slot>, rows: seq<Row>, ghost heads: seq<nat>, ghost popped: seq<Row>)
    requires Mergeable(o, results)
    ensures failed ==> SomeEmpty(results) && !AllEmpty(results)
    ensures !failed && popped != [] ==> !SomeEmpty(results)
    ensures !failed ==> AllAt(results, slots, heads) && Merged(LeOf(o), results, heads, popped) && rows == Behind(popped, offset)
    ensures !failed && count > 0 ==> |rows| <= count
    ensures !failed && !(count > 0 && |rows| == count) ==> Exhausted(results, slots, heads)
  {
    slots, heads := Start(o, results);
    ghost var inv := (s: seq<Slot>, n: nat, h: seq<nat>, p: seq<Row>, l: nat) => Popping(o, results, s, n, h, p, l);
    var endCount;
    ghost var left;
    failed, slots, rows, endCount, heads, popped, left :=
      PopLoop(o, results, slots, offset, count, heads, |Left(results, heads)|, inv);
  }

  lemma {:induction false} LimitedInOrder(o: Ordering, results: seq<seq<Row>>, merged: seq<Row>, rows: seq<Row>, offset: nat,
                                          count: nat)
    requires Mergeable(o, results) && Sorted(LeOf(o), merged) && multiset(merged) == multiset(Concat(results))
    requires rows == Limited(merged, offset, count)
    ensures AllInOrder(o.fields, o.kinds, rows)
  {
    var p, q := Min(offset, |merged|), if count == 0 then |merged| else Min(offset + count, |merged|);
    SortedInOrder(o, results, merged, rows, p, q);
  }

  /** ORDER BY with LIMIT; `merged` is the sorted sequence of all rows that the result is taken from. */
  method MergeOrderByLimit(o: Ordering, results: seq<seq<Row>>, offset: nat, count: nat)
    returns (r: Outcome, ghost merged: seq<Row>)
    requires Mergeable(o, results)
    ensures r.Panic? <==> results == [] || (SomeEmpty(results) && !(count == 0 && AllEmpty(results)))
    ensures r.Rows? ==> Sorted(LeOf(o), merged) && multiset(merged) == multiset(Concat(results))
    ensures r.Rows? ==> r.rows == Limited(merged, offset, count) && AllInOrder(o.fields, o.kinds, r.rows)
  {
    merged := [];
    if results == [] { return Panic, merged; }
    var failed, slots, rows, heads, popped := PopUntil(o, results, offset, count);
    if failed { return Panic, merged; }
    LePreorder(o);
    ghost var rest := MergePrefix(LeOf(o), results, heads, popped);
    merged := popped + rest;
    BehindIsLimited(popped, rest, offset, count);
    if popped == [] { NothingPopped(o, results, heads); }
    if |rows| != count {
      var panic, left := CountActive(slots);
      assert forall i | 0 <= i < |slots| :: At(results[i], slots[i], heads[i]);
      if panic { return Panic, merged; }
      // every result has ended, so the loop that would drain the remaining candidates has nothing to do
      assert left == 0;
    }
    LimitedInOrder(o, results, merged, rows, offset, count);
    return Rows(rows), merged;
  }
}
