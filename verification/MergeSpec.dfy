/** Sorted sequences under any total preorder, and what it means to have merged some of them. */
module MergeSpec {

  ghost predicate Preorder<T(!new)>(le: (T, T) -> bool) {
    && (forall a, b :: le(a, b) || le(b, a))
    && (forall a, b, c :: le(a, b) && le(b, c) ==> le(a, c))
  }

  ghost predicate Sorted<T(!new)>(le: (T, T) -> bool, s: seq<T>) {
    forall i, j | 0 <= i < j < |s| :: le(s[i], s[j])
  }

  ghost predicate AllSorted<T(!new)>(le: (T, T) -> bool, results: seq<seq<T>>) {
    forall r | r in results :: Sorted(le, r)
  }

  ghost predicate Within<T>(results: seq<seq<T>>, heads: seq<nat>) {
    |heads| == |results| && forall i | 0 <= i < |heads| :: heads[i] <= |results[i]|
  }

  /** How often `r` occurs before the given positions, over all results. */
  ghost function Taken<T(!new)>(results: seq<seq<T>>, heads: seq<nat>, r: T): nat
    requires Within(results, heads)
  {
    if results == [] then 0 else multiset(results[0][..heads[0]])[r] + Taken(results[1..], heads[1..], r)
  }

  function Concat<T(!new)>(results: seq<seq<T>>): seq<T> {
    if results == [] then [] else results[0] + Concat(results[1..])
  }

  lemma {:induction false} ConcatMembers<T(!new)>(s: seq<seq<T>>, x: T)
    ensures x in Concat(s) <==> exists t | t in s :: x in t
  {
    if s != [] {
      ConcatMembers(s[1..], x);
      assert s == [s[0]] + s[1..];
    }
  }

  /** The rows from the given positions on, over all results. */
  ghost function Left<T(!new)>(results: seq<seq<T>>, heads: seq<nat>): seq<T>
    requires Within(results, heads)
  {
    if results == [] then [] else results[0][heads[0]..] + Left(results[1..], heads[1..])
  }

  lemma {:induction false} TakenAdvance<T(!new)>(results: seq<seq<T>>, heads: seq<nat>, p: nat, r: T)
    requires Within(results, heads) && p < |results| && heads[p] < |results[p]|
    ensures Taken(results, heads[p := heads[p] + 1], r) == Taken(results, heads, r) + if r == results[p][heads[p]] then 1 else 0
  {
    var next := heads[p := heads[p] + 1];
    if p == 0 {
      assert next[1..] == heads[1..];
      TakeNext(results[0], heads[0]);
    } else {
      TakenAdvance(results[1..], heads[1..], p - 1, r);
      assert next[1..] == heads[1..][p - 1 := heads[p] + 1];
    }
  }

  lemma {:induction false} TakeNext<T>(s: seq<T>, i: nat)
    requires i < |s|
    ensures multiset(s[..i + 1]) == multiset(s[..i]) + multiset{s[i]}
  {
    assert s[..i + 1] == s[..i] + [s[i]];
  }

  lemma {:induction false} Regroup<T>(a: multiset<T>, b: multiset<T>, x: T)
    ensures a + multiset{x} + b == a + b + multiset{x} == a + (b + multiset{x})
  {
  }

  lemma {:induction false} TakenAndLeft<T(!new)>(results: seq<seq<T>>, heads: seq<nat>, r: T)
    requires Within(results, heads)
    ensures Taken(results, heads, r) + multiset(Left(results, heads))[r] == multiset(Concat(results))[r]
  {
    if results != [] {
      TakenAndLeft(results[1..], heads[1..], r);
      assert results[0] == results[0][..heads[0]] + results[0][heads[0]..];
    }
  }

  lemma {:induction false} LeftMembers<T(!new)>(results: seq<seq<T>>, heads: seq<nat>, r: T)
    requires Within(results, heads)
    requires r in Left(results, heads)
    ensures exists i, q :: 0 <= i < |results| && heads[i] <= q < |results[i]| && results[i][q] == r
  {
    if r in results[0][heads[0]..] {
      var q :| 0 <= q < |results[0]| - heads[0] && results[0][heads[0]..][q] == r;
      assert results[0][heads[0] + q] == r;
    } else {
      LeftMembers(results[1..], heads[1..], r);
      var i, q :| 0 <= i < |results| - 1 && heads[1..][i] <= q < |results[1..][i]| && results[1..][i][q] == r;
      assert results[i + 1][q] == r;
    }
  }

  lemma {:induction false} LeftEmpty<T(!new)>(results: seq<seq<T>>, heads: seq<nat>)
    requires |heads| == |results| && forall i | 0 <= i < |heads| :: heads[i] == |results[i]|
    ensures Left(results, heads) == []
  {
    if results != [] { LeftEmpty(results[1..], heads[1..]); }
  }

  /** The rows before the given positions have been merged into `rows`, and nothing left comes before any of them. */
  ghost predicate Merged<T(!new)>(le: (T, T) -> bool, results: seq<seq<T>>, heads: seq<nat>, rows: seq<T>) {
    && Within(results, heads)
    && (forall r :: multiset(rows)[r] == Taken(results, heads, r))
    && Sorted(le, rows)
    && (forall j, i, q | 0 <= j < |rows| && 0 <= i < |results| && heads[i] <= q < |results[i]| :: le(rows[j], results[i][q]))
  }

  /** `x` is not after the next row of any result. */
  ghost predicate Least<T(!new)>(le: (T, T) -> bool, results: seq<seq<T>>, heads: seq<nat>, x: T) {
    |heads| == |results| && forall i | 0 <= i < |results| && heads[i] < |results[i]| :: le(x, results[i][heads[i]])
  }

  lemma {:induction false} SortedConcat<T(!new)>(le: (T, T) -> bool, a: seq<T>, b: seq<T>)
    requires Sorted(le, a) && Sorted(le, b) && forall x, y | x in a && y in b :: le(x, y)
    ensures Sorted(le, a + b)
  {
  }

  lemma {:induction false} SortedCons<T(!new)>(le: (T, T) -> bool, x: T, s: seq<T>)
    requires Preorder(le) && Sorted(le, s) && (s == [] || le(x, s[0]))
    ensures Sorted(le, [x] + s)
  {
    forall j | 0 < j < |s| ensures le(x, s[j]) {
      assert le(s[0], s[j]);
    }
  }

  /** The least of the next rows is not after any row left. */
  lemma {:induction false} LeastOfAll<T(!new)>(le: (T, T) -> bool, results: seq<seq<T>>, heads: seq<nat>, x: T, i: nat, q: nat)
    requires Preorder(le) && AllSorted(le, results) && Least(le, results, heads, x)
    requires i < |results| && heads[i] <= q < |results[i]|
    ensures le(x, results[i][q])
  {
    assert results[i] in results;
    assert heads[i] < q ==> le(results[i][heads[i]], results[i][q]);
  }

  lemma {:induction false} MergeStep<T(!new)>(le: (T, T) -> bool, results: seq<seq<T>>, heads: seq<nat>, rows: seq<T>, p: nat)
    requires Preorder(le) && AllSorted(le, results) && Merged(le, results, heads, rows)
    requires p < |results| && heads[p] < |results[p]| && Least(le, results, heads, results[p][heads[p]])
    ensures Merged(le, results, heads[p := heads[p] + 1], rows + [results[p][heads[p]]])
  {
    var x, next := results[p][heads[p]], heads[p := heads[p] + 1];
    forall r ensures multiset(rows + [x])[r] == Taken(results, next, r) { TakenAdvance(results, heads, p, r); }
    forall i: nat, q: nat | i < |results| && next[i] <= q < |results[i]| ensures le(x, results[i][q]) {
      LeastOfAll(le, results, heads, x, i, q);
    }
    SortedConcat(le, rows, [x]);
  }

  lemma {:induction false} MergeComplete<T(!new)>(le: (T, T) -> bool, results: seq<seq<T>>, heads: seq<nat>, rows: seq<T>)
    requires Merged(le, results, heads, rows) && forall i | 0 <= i < |heads| :: heads[i] == |results[i]|
    ensures Sorted(le, rows) && multiset(rows) == multiset(Concat(results))
  {
    LeftEmpty(results, heads);
    forall r ensures multiset(rows)[r] == multiset(Concat(results))[r] { TakenAndLeft(results, heads, r); }
  }

  // ----- some order for what is left -----

  ghost function InsertRow<T(!new)>(le: (T, T) -> bool, x: T, s: seq<T>): seq<T> {
    if s == [] then [x] else if le(x, s[0]) then [x] + s else [s[0]] + InsertRow(le, x, s[1..])
  }

  ghost function SortRows<T(!new)>(le: (T, T) -> bool, s: seq<T>): seq<T> {
    if s == [] then [] else InsertRow(le, s[0], SortRows(le, s[1..]))
  }

  lemma {:induction false} InsertRowKeeps<T(!new)>(le: (T, T) -> bool, x: T, s: seq<T>)
    ensures multiset(InsertRow(le, x, s)) == multiset(s) + multiset{x}
  {
    if s != [] && !le(x, s[0]) {
      InsertRowKeeps(le, x, s[1..]);
      assert s == [s[0]] + s[1..];
    }
  }

  lemma {:induction false} InsertRowSorted<T(!new)>(le: (T, T) -> bool, x: T, s: seq<T>)
    requires Preorder(le) && Sorted(le, s)
    ensures Sorted(le, InsertRow(le, x, s))
    ensures var r := InsertRow(le, x, s); r != [] && (r[0] == x || (s != [] && r[0] == s[0]))
  {
    if s == [] {
    } else if le(x, s[0]) {
      SortedCons(le, x, s);
    } else {
      InsertRowSorted(le, x, s[1..]);
      assert s[1..] != [] ==> le(s[0], s[1..][0]);
      SortedCons(le, s[0], InsertRow(le, x, s[1..]));
    }
  }

  lemma {:induction false} SortRowsSorted<T(!new)>(le: (T, T) -> bool, s: seq<T>)
    requires Preorder(le)
    ensures Sorted(le, SortRows(le, s)) && multiset(SortRows(le, s)) == multiset(s)
  {
    if s != [] {
      SortRowsSorted(le, s[1..]);
      InsertRowSorted(le, s[0], SortRows(le, s[1..]));
      InsertRowKeeps(le, s[0], SortRows(le, s[1..]));
      assert s == [s[0]] + s[1..];
    }
  }

  lemma {:induction false} LeftAdvance<T(!new)>(results: seq<seq<T>>, heads: seq<nat>, p: nat)
    requires Within(results, heads) && p < |results| && heads[p] < |results[p]|
    ensures |Left(results, heads)| == |Left(results, heads[p := heads[p] + 1])| + 1
  {
    var next := heads[p := heads[p] + 1];
    if p == 0 {
      assert next[1..] == heads[1..];
    } else {
      LeftAdvance(results[1..], heads[1..], p - 1);
      assert next[1..] == heads[1..][p - 1 := heads[p] + 1];
    }
  }

  /** Whatever has been merged so far is the beginning of a sorted sequence of all rows. */
  lemma {:induction false} MergePrefix<T(!new)>(le: (T, T) -> bool, results: seq<seq<T>>, heads: seq<nat>, rows: seq<T>) returns (rest: seq<T>)
    requires Preorder(le) && AllSorted(le, results) && Merged(le, results, heads, rows)
    ensures Sorted(le, rows + rest) && multiset(rows + rest) == multiset(Concat(results))
    ensures (forall i | 0 <= i < |heads| :: heads[i] == |results[i]|) ==> rest == []
  {
    var left := Left(results, heads);
    forall r | r in left ensures forall j | 0 <= j < |rows| :: le(rows[j], r) {
      LeftMembers(results, heads, r);
      var i, q :| 0 <= i < |results| && heads[i] <= q < |results[i]| && results[i][q] == r;
      assert results[i] in results;
    }
    rest := SortRows(le, left);
    if forall i | 0 <= i < |heads| :: heads[i] == |results[i]| { LeftEmpty(results, heads); }
    SortRowsSorted(le, left);
    forall r ensures multiset(rows + rest)[r] == multiset(Concat(results))[r] { TakenAndLeft(results, heads, r); }
    forall r | r in rest ensures r in left { assert r in multiset(rest); }
    SortedConcat(le, rows, rest);
  }
}
