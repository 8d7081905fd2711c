/** A query with ORDER BY and LIMIT over tables spread across several databases. */
module LimitedQuery {
  import opened Lists
  import opened RowOrder
  import opened MergeSpec
  import opened Merge
  import opened PushDown

  /** The limit each table is queried with. */
  function PushedLimit(offset: nat, count: nat): nat {
    offset + count
  }

  /** What one database answers: its tables cut to the pushed limit, united, and sorted. */
  ghost predicate Answers(o: Ordering, tables: seq<seq<Row>>, k: nat, result: seq<Row>) {
    Sorted(LeOf(o), result) && multiset(result) == multiset(Concat(CutAll(tables, k)))
  }

  /** Every database answers for its own tables, each of which is sorted before it is cut. */
  ghost predicate Answered(o: Ordering, dbs: seq<seq<seq<Row>>>, k: nat, results: seq<seq<Row>>) {
    && |dbs| == |results|
    && (forall d | 0 <= d < |dbs| :: AllSorted(LeOf(o), dbs[d]) && Answers(o, dbs[d], k, results[d]))
    && Orderable(o.fields, o.kinds)
    && (forall t, r | t in Concat(dbs) && r in t :: Conforms(r, o.kinds))
  }

  lemma {:induction false} ConcatAppend<T(!new)>(a: seq<seq<T>>, b: seq<seq<T>>)
    ensures Concat(a + b) == Concat(a) + Concat(b)
  {
    if a == [] {
      assert a + b == b;
    } else {
      ConcatAppend(a[1..], b);
      assert (a + b)[0] == a[0] && (a + b)[1..] == a[1..] + b;
      Associative(a[0], Concat(a[1..]), Concat(b));
    }
  }

  lemma {:induction false} CutAllAppend<T(!new)>(a: seq<seq<T>>, b: seq<seq<T>>, k: nat)
    ensures CutAll(a + b, k) == CutAll(a, k) + CutAll(b, k)
  {
    if a == [] {
      assert a + b == b;
    } else {
      CutAllAppend(a[1..], b, k);
      assert (a + b)[1..] == a[1..] + b;
    }
  }

  /** Together the databases answer with the rows of all cut tables. */
  lemma {:induction false} AnswersTogether<T(!new)>(dbs: seq<seq<seq<T>>>, k: nat, results: seq<seq<T>>)
    requires |dbs| == |results| && forall d | 0 <= d < |dbs| :: multiset(results[d]) == multiset(Concat(CutAll(dbs[d], k)))
    ensures multiset(Concat(results)) == multiset(Concat(CutAll(Concat(dbs), k)))
  {
    if dbs != [] {
      AnswersTogether(dbs[1..], k, results[1..]);
      CutAllAppend(dbs[0], Concat(dbs[1..]), k);
      ConcatAppend(CutAll(dbs[0], k), CutAll(Concat(dbs[1..]), k));
    }
  }

  lemma {:induction false} TablesSorted<T(!new)>(le: (T, T) -> bool, dbs: seq<seq<seq<T>>>)
    requires forall d | 0 <= d < |dbs| :: AllSorted(le, dbs[d])
    ensures AllSorted(le, Concat(dbs))
  {
    if dbs != [] { TablesSorted(le, dbs[1..]); }
  }

  lemma {:induction false} CutMembers<T(!new)>(tables: seq<seq<T>>, k: nat, x: T)
    requires x in Concat(CutAll(tables, k))
    ensures x in Concat(tables)
  {
    if tables != [] && x !in tables[0] { CutMembers(tables[1..], k, x); }
  }

  /** Sequences that agree on their first `offset + count` rows have windows that agree. */
  lemma {:induction false} WindowsAgree<T(!new)>(le: (T, T) -> bool, whole: seq<T>, merged: seq<T>, offset: nat, count: nat)
    requires forall i: nat | i < offset + count :: Agree(le, whole, merged, i)
    requires |merged| <= |whole| && (|merged| < offset + count ==> |merged| == |whole|)
    ensures |Window(merged, offset, count)| == |Window(whole, offset, count)|
    ensures forall i | 0 <= i < |Window(whole, offset, count)| :: Alike(le, Window(whole, offset, count)[i], Window(merged, offset, count)[i])
  {
    var v, w := Window(merged, offset, count), Window(whole, offset, count);
    forall i | 0 <= i < |w| ensures Alike(le, w[i], v[i]) {
      assert Agree(le, whole, merged, offset + i);
      assert w[i] == whole[offset + i] && v[i] == merged[offset + i];
    }
  }

  ghost predicate Agree<T(!new)>(le: (T, T) -> bool, whole: seq<T>, merged: seq<T>, i: nat) {
    (i < |whole| <==> i < |merged|) && (i < |whole| ==> Alike(le, whole[i], merged[i]))
  }

  /** Whatever sorted order the whole union and the merged answers are in, the windows have the same sort keys. */
  lemma {:induction false} PushDownPreserves(o: Ordering, dbs: seq<seq<seq<Row>>>, offset: nat, count: nat,
      results: seq<seq<Row>>, merged: seq<Row>, whole: seq<Row>)
    requires Answered(o, dbs, PushedLimit(offset, count), results)
    requires Sorted(LeOf(o), merged) && multiset(merged) == multiset(Concat(results))
    requires Sorted(LeOf(o), whole) && multiset(whole) == multiset(Concat(Concat(dbs)))
    ensures |Window(merged, offset, count)| == |Window(whole, offset, count)|
    ensures forall i | 0 <= i < |Window(whole, offset, count)| :: Alike(LeOf(o), Window(whole, offset, count)[i], Window(merged, offset, count)[i])
  {
    var k, le, tables := PushedLimit(offset, count), LeOf(o), Concat(dbs);
    AnswersTogether(dbs, k, results);
    SameLength(tables, k, whole, merged);
    forall i: nat | i < k ensures Agree(le, whole, merged, i) {
      LePreorder(o);
      TablesSorted(le, dbs);
      CutKeepsFirstRows(le, tables, k, whole, merged, i);
    }
    WindowsAgree(le, whole, merged, offset, count);
  }

  lemma {:induction false} AlikeSameKey(o: Ordering, a: Row, b: Row)
    requires Orderable(o.fields, o.kinds) && Conforms(a, o.kinds) && Conforms(b, o.kinds) && Alike(LeOf(o), a, b)
    ensures Key(o.fields, a) == Key(o.fields, b)
  {
    LeqTotal(o.fields, o.kinds, a, b);
  }

  lemma {:induction false} AnswersConform(o: Ordering, dbs: seq<seq<seq<Row>>>, k: nat, results: seq<seq<Row>>,
      s: seq<Row>, r: Row)
    requires Answered(o, dbs, k, results) && s in results && r in s
    ensures Conforms(r, o.kinds)
  {
    ConcatMembers(results, r);
    AnswersTogether(dbs, k, results);
    assert r in multiset(Concat(results));
    CutMembers(Concat(dbs), k, r);
    ConcatMembers(Concat(dbs), r);
  }

  lemma {:induction false} AllConform(o: Ordering, dbs: seq<seq<seq<Row>>>, k: nat, results: seq<seq<Row>>)
    requires Answered(o, dbs, k, results)
    ensures Mergeable(o, results)
  {
    forall s, x | s in results && x in s ensures Conforms(x, o.kinds) {
      AnswersConform(o, dbs, k, results, s, x);
    }
  }

  /** The window of the merged results has the sort keys of the window of the whole. */
  lemma {:induction false} WindowKeys(o: Ordering, dbs: seq<seq<seq<Row>>>, offset: nat, count: nat,
                                      results: seq<seq<Row>>, merged: seq<Row>, whole: seq<Row>)
    requires Answered(o, dbs, PushedLimit(offset, count), results)
    requires Sorted(LeOf(o), merged) && multiset(merged) == multiset(Concat(results))
    requires Sorted(LeOf(o), whole) && multiset(whole) == multiset(Concat(Concat(dbs)))
    ensures SameKeys(o, Window(merged, offset, count), Window(whole, offset, count))
  {
    PushDownPreserves(o, dbs, offset, count, results, merged, whole);
    var xs, ys := Window(merged, offset, count), Window(whole, offset, count);
    forall i | 0 <= i < |xs| ensures SameKey(o, xs[i], ys[i]) {
      assert xs[i] in merged && ys[i] in whole;
      RowsConform(o, dbs, PushedLimit(offset, count), results, merged, whole, xs[i], ys[i]);
      AlikeSameKey(o, xs[i], ys[i]);
    }
  }

  /**
   * The whole query. With a positive count its rows have the sort keys of rows `offset .. offset + count - 1` of the
   * sorted union of all tables; a count of zero is answered by whatever the tables sent behind the offset.
   */
  method Query(o: Ordering, results: seq<seq<Row>>, offset: nat, count: nat, ghost dbs: seq<seq<seq<Row>>>,
               ghost whole: seq<Row>)
    returns (r: Outcome)
    requires Answered(o, dbs, PushedLimit(offset, count), results)
    requires Sorted(LeOf(o), whole) && multiset(whole) == multiset(Concat(Concat(dbs)))
    ensures r.Panic? <==> results == [] || (SomeEmpty(results) && !(count == 0 && AllEmpty(results)))
    ensures r.Rows? && count >= 1 ==> SameKeys(o, r.rows, Window(whole, offset, count))
    ensures r.Rows? ==> AllInOrder(o.fields, o.kinds, r.rows)
    ensures r.Rows? && count == 0 ==> (r.rows == Window(whole, offset, count) <==> |Concat(results)| <= offset)
  {
    AllConform(o, dbs, PushedLimit(offset, count), results);
    ghost var merged;
    r, merged := MergeOrderByLimit(o, results, offset, count);
    if r.Rows? {
      WindowKeys(o, dbs, offset, count, results, merged, whole);
      assert |multiset(merged)| == |merged| && |multiset(Concat(results))| == |Concat(results)|;
    }
  }

  ghost predicate SameKeys(o: Ordering, a: seq<Row>, b: seq<Row>) {
    |a| == |b| && forall i | 0 <= i < |a| :: SameKey(o, a[i], b[i])
  }

  ghost predicate SameKey(o: Ordering, a: Row, b: Row) {
    && Orderable(o.fields, o.kinds) && Conforms(a, o.kinds) && Conforms(b, o.kinds)
    && Key(o.fields, a) == Key(o.fields, b)
  }

  lemma {:induction false} RowsConform(o: Ordering, dbs: seq<seq<seq<Row>>>, k: nat, results: seq<seq<Row>>,
                                       merged: seq<Row>, whole: seq<Row>, x: Row, y: Row)
    requires Answered(o, dbs, k, results) && multiset(merged) == multiset(Concat(results)) && multiset(whole) == multiset(Concat(Concat(dbs)))
    requires x in merged && y in whole
    ensures Conforms(x, o.kinds) && Conforms(y, o.kinds)
  {
    assert x in multiset(merged) && y in multiset(whole);
    ConcatMembers(results, x);
    var s :| s in results && x in s;
    AnswersConform(o, dbs, k, results, s, x);
    ConcatMembers(Concat(dbs), y);
  }
}
