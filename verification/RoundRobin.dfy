/** Merging results without ORDER BY: one row of each in turn, with a limit. */
module RoundRobin {
  import opened Lists
  import opened MergeSpec
  import opened Merge

  // ----- the interleaving -----

  /** The first row of every result that has one. */
  function Firsts<T>(rs: seq<seq<T>>): seq<T> {
    if rs == [] then [] else (if rs[0] == [] then [] else [rs[0][0]]) + Firsts(rs[1..])
  }

  function Tail<T>(r: seq<T>): seq<T> {
    if r == [] then [] else r[1..]
  }

  function Tails<T>(rs: seq<seq<T>>): seq<seq<T>> {
    if rs == [] then [] else [Tail(rs[0])] + Tails(rs[1..])
  }

  function Size<T>(rs: seq<seq<T>>): nat {
    if rs == [] then 0 else |rs[0]| + Size(rs[1..])
  }

  lemma {:induction false} TailsSize<T>(rs: seq<seq<T>>)
    ensures Size(Tails(rs)) == Size(rs) - |Firsts(rs)| && |Tails(rs)| == |rs|
    ensures forall i | 0 <= i < |rs| :: Tails(rs)[i] == Tail(rs[i])
  {
    if rs != [] {
      TailsSize(rs[1..]);
      assert Tails(rs)[1..] == Tails(rs[1..]);
    }
  }

  /** All rows, one of each result in turn. */
  function Interleave<T>(rs: seq<seq<T>>): seq<T>
    decreases Size(rs)
  {
    if Firsts(rs) == [] then [] else
      TailsSize(rs);
      Firsts(rs) + Interleave(Tails(rs))
  }

  // ----- what it keeps -----

  /** `a` can be read off `b` from left to right. */
  predicate Subsequence<T(==)>(a: seq<T>, b: seq<T>) {
    a == [] || (b != [] && if a[0] == b[0] then Subsequence(a[1..], b[1..]) else Subsequence(a, b[1..]))
  }

  /** A subsequence stays one when the text grows at the front, or when it loses its own front. */
  lemma {:induction false} SubsequenceGrows<T>(a: seq<T>, x: T, b: seq<T>)
    requires Subsequence(a, b)
    ensures Subsequence(a, [x] + b)
    ensures a != [] ==> Subsequence(a[1..], b)
    decreases |a| + |b|
  {
    assert ([x] + b)[1..] == b;
    if a != [] {
      assert b == [b[0]] + b[1..];
      if a[0] == b[0] {
        SubsequenceGrows(a[1..], b[0], b[1..]);
      } else {
        SubsequenceGrows(a, b[0], b[1..]);
        SubsequenceGrows(a[1..], b[0], b[1..]);
      }
    }
  }

  lemma {:induction false} SubsequencePrepend<T>(a: seq<T>, p: seq<T>, b: seq<T>)
    requires Subsequence(a, b)
    ensures Subsequence(a, p + b)
  {
    if p == [] {
      assert p + b == b;
    } else {
      SubsequencePrepend(a, p[1..], b);
      SubsequenceGrows(a, p[0], p[1..] + b);
      assert p + b == [p[0]] + (p[1..] + b);
    }
  }

  lemma {:induction false} SubsequenceHead<T>(a: seq<T>, p: seq<T>, b: seq<T>)
    requires a != [] && a[0] in p && Subsequence(a[1..], b)
    ensures Subsequence(a, p + b)
  {
    var rest := p[1..] + b;
    assert p + b == [p[0]] + rest && (p + b)[1..] == rest;
    if a[0] == p[0] {
      SubsequencePrepend(a[1..], p[1..], b);
    } else {
      SubsequenceHead(a, p[1..], b);
    }
  }

  lemma {:induction false} FirstsMember<T>(rs: seq<seq<T>>, i: nat)
    requires i < |rs| && rs[i] != []
    ensures rs[i][0] in Firsts(rs)
  {
    if i > 0 { FirstsMember(rs[1..], i - 1); }
  }

  /** The rows of each result keep their own order. */
  lemma {:induction false} KeepsOrder<T>(rs: seq<seq<T>>, i: nat)
    requires i < |rs|
    ensures Subsequence(rs[i], Interleave(rs))
    decreases Size(rs)
  {
    if rs[i] != [] {
      FirstsMember(rs, i);
      TailsSize(rs);
      KeepsOrder(Tails(rs), i);
      SubsequenceHead(rs[i], Firsts(rs), Interleave(Tails(rs)));
    }
  }

  /** How many rows are taken before row `p` of result `i`: of the results in front of it rows 0 to `p`, of the others rows 0 to `p - 1`. */
  function Earlier<T>(rs: seq<seq<T>>, p: nat, i: int): nat {
    if rs == [] then 0 else Min(|rs[0]|, if i > 0 then p + 1 else p) + Earlier(rs[1..], p, i - 1)
  }

  lemma {:induction false} EarlierNone<T>(rs: seq<seq<T>>, i: int)
    requires i <= 0
    ensures Earlier(rs, 0, i) == 0
  {
    if rs != [] { EarlierNone(rs[1..], i - 1); }
  }

  lemma {:induction false} FirstAt<T>(rs: seq<seq<T>>, i: nat)
    requires i < |rs| && rs[i] != []
    ensures Earlier(rs, 0, i) < |Firsts(rs)| && Firsts(rs)[Earlier(rs, 0, i)] == rs[i][0]
  {
    if i == 0 {
      EarlierNone(rs[1..], -1);
    } else {
      FirstAt(rs[1..], i - 1);
    }
  }

  lemma {:induction false} EarlierTails<T>(rs: seq<seq<T>>, p: nat, i: int)
    requires p > 0
    ensures Earlier(rs, p, i) == |Firsts(rs)| + Earlier(Tails(rs), p - 1, i)
  {
    if rs != [] {
      EarlierTails(rs[1..], p, i - 1);
      assert Tails(rs)[0] == Tail(rs[0]) && Tails(rs)[1..] == Tails(rs[1..]);
    }
  }

  /** Results take turns: where row `p` of result `i` comes, for every row. */
  lemma {:induction false} TakesTurns<T>(rs: seq<seq<T>>, p: nat, i: nat)
    requires i < |rs| && p < |rs[i]|
    ensures Earlier(rs, p, i) < |Interleave(rs)| && Interleave(rs)[Earlier(rs, p, i)] == rs[i][p]
    decreases p
  {
    FirstsMember(rs, i);
    TailsSize(rs);
    if p == 0 {
      FirstAt(rs, i);
    } else {
      TakesTurns(Tails(rs), p - 1, i);
      EarlierTails(rs, p, i);
    }
  }

  lemma {:induction false} FirstsAndTails<T(!new)>(rs: seq<seq<T>>, r: T)
    ensures multiset(Firsts(rs))[r] + multiset(Concat(Tails(rs)))[r] == multiset(Concat(rs))[r]
  {
    if rs != [] {
      FirstsAndTails(rs[1..], r);
      assert Tails(rs)[1..] == Tails(rs[1..]) && Tails(rs)[0] == Tail(rs[0]);
      if rs[0] != [] { assert rs[0] == [rs[0][0]] + rs[0][1..]; }
    }
  }

  /** Every row of every result is there, as often as it occurs. */
  lemma {:induction false} KeepsRows<T(!new)>(rs: seq<seq<T>>, r: T)
    ensures multiset(Interleave(rs))[r] == multiset(Concat(rs))[r]
    decreases Size(rs)
  {
    FirstsAndTails(rs, r);
    TailsSize(rs);
    if Firsts(rs) == [] {
      NoFirsts(rs);
    } else {
      KeepsRows(Tails(rs), r);
    }
  }

  lemma {:induction false} NoFirsts<T(!new)>(rs: seq<seq<T>>)
    requires Firsts(rs) == []
    ensures Concat(rs) == [] && forall r | r in rs :: r == []
  {
    if rs != [] {
      NoFirsts(rs[1..]);
      assert rs == [rs[0]] + rs[1..];
    }
  }

  // ----- the loop -----

  /** How far a result has been read, and whether its end has been noticed. */
  datatype Cursor = Cursor(rowIndex: nat, ended: bool)

  /** What is left of each result. */
  ghost function Rest<T>(results: seq<seq<T>>, cs: seq<Cursor>): (r: seq<seq<T>>)
    requires Placed(results, cs)
    ensures |r| == |results|
  {
    if results == [] then [] else [results[0][cs[0].rowIndex..]] + Rest(results[1..], cs[1..])
  }

  ghost predicate Placed<T>(results: seq<seq<T>>, cs: seq<Cursor>) {
    |cs| == |results| && forall i | 0 <= i < |cs| :: cs[i].rowIndex <= |results[i]| && (cs[i].ended ==> cs[i].rowIndex == |results[i]|)
  }

  lemma {:induction false} RestAt<T>(results: seq<seq<T>>, cs: seq<Cursor>)
    requires Placed(results, cs)
    ensures |Rest(results, cs)| == |results| && forall i | 0 <= i < |cs| :: Rest(results, cs)[i] == results[i][cs[i].rowIndex..]
  {
    if results != [] {
      RestAt(results[1..], cs[1..]);
      assert forall i | 0 < i < |cs| :: cs[i] == cs[1..][i - 1] && results[i] == results[1..][i - 1];
    }
  }

  /** Reads that are still to come: the rows left, and the ends not yet noticed. */
  ghost function Pending<T>(results: seq<seq<T>>, cs: seq<Cursor>): nat
    requires Placed(results, cs)
  {
    if results == [] then 0
    else |results[0]| - cs[0].rowIndex + (if cs[0].ended then 0 else 1) + Pending(results[1..], cs[1..])
  }

  lemma {:induction false} PendingUpdate<T>(results: seq<seq<T>>, cs: seq<Cursor>, i: nat, c: Cursor)
    requires Placed(results, cs) && i < |cs| && c.rowIndex <= |results[i]| && (c.ended ==> c.rowIndex == |results[i]|)
    ensures Placed(results, cs[i := c])
    ensures Pending(results, cs[i := c]) - Pending(results, cs) ==
            cs[i].rowIndex - c.rowIndex + (if c.ended then 0 else 1) - (if cs[i].ended then 0 else 1)
  {
    if i == 0 {
      assert cs[i := c][1..] == cs[1..];
    } else {
      PendingUpdate(results[1..], cs[1..], i - 1, c);
      assert cs[i := c][1..] == cs[1..][i - 1 := c];
    }
  }

  ghost function Ended(cs: seq<Cursor>): set<int> {
    set i | 0 <= i < |cs| && cs[i].ended
  }

  lemma {:induction false} EndOne(cs: seq<Cursor>, i: nat, c: Cursor)
    requires i < |cs| && !cs[i].ended
    ensures |Ended(cs[i := c])| == |Ended(cs)| + if c.ended then 1 else 0
  {
    assert Ended(cs[i := c]) == if c.ended then Ended(cs) + {i} else Ended(cs);
  }

  lemma {:induction false} AllEnded(cs: seq<Cursor>)
    ensures |Ended(cs)| <= |cs|
    ensures |Ended(cs)| == |cs| <==> forall i | 0 <= i < |cs| :: cs[i].ended
  {
    var e, b := Ended(cs), Below(|cs|);
    assert e <= b && |b - e| == |b| - |e|;
    if |e| == |cs| {
      assert b - e == {};
      forall i | 0 <= i < |cs| ensures cs[i].ended { assert i in b && i !in b - e; }
    }
    if forall i | 0 <= i < |cs| :: cs[i].ended { assert e == b; }
  }

  lemma {:induction false} FirstsNext<T>(rs: seq<seq<T>>, i: nat)
    requires i < |rs|
    ensures Firsts(rs[..i + 1]) == Firsts(rs[..i]) + if rs[i] == [] then [] else [rs[i][0]]
  {
    if i > 0 {
      FirstsNext(rs[1..], i - 1);
      assert rs[..i + 1][1..] == rs[1..][..i] && rs[..i][1..] == rs[1..][..i - 1];
    } else {
      assert rs[..1][1..] == [] && rs[..0] == [];
    }
  }

  lemma {:induction false} InterleaveStep<T>(rs: seq<seq<T>>)
    ensures Interleave(rs) == Firsts(rs) + Interleave(Tails(rs))
  {
    TailsSize(rs);
    if Firsts(rs) == [] {
      NoRows(rs);
      NoRows(Tails(rs));
    }
  }

  lemma {:induction false} NoRows<T>(rs: seq<seq<T>>)
    ensures Firsts(rs) == [] <==> forall i | 0 <= i < |rs| :: rs[i] == []
    ensures Firsts(rs) == [] ==> Firsts(Tails(rs)) == []
  {
    if rs != [] {
      NoRows(rs[1..]);
      assert Tails(rs)[0] == Tail(rs[0]) && Tails(rs)[1..] == Tails(rs[1..]);
      assert forall i | 0 < i < |rs| :: rs[i] == rs[1..][i - 1];
    }
  }

  /** Rows seen so far. Until the limit is full they are exactly what has been read, in turn. */
  ghost predicate Reading<T>(results: seq<seq<T>>, cs: seq<Cursor>, rows: seq<T>, rowCount: nat, offset: nat,
                             count: nat, seen: seq<T>, full: bool) {
    && Placed(results, cs)
    && rows == Window(seen, offset, count)
    && (full ==> rowCount >= |seen| >= offset + count && seen <= Interleave(results))
    && (!full ==> rowCount == |seen| && Interleave(results) == seen + Interleave(Rest(results, cs)))
  }

  /** One more row, unless the limit is full. */
  lemma {:induction false} WindowAppend<T>(seen: seq<T>, x: T, offset: nat, count: nat)
    ensures |seen| < offset ==> Window(seen + [x], offset, count) == Window(seen, offset, count)
    ensures |seen| >= offset && |Window(seen, offset, count)| != count ==> Window(seen + [x], offset, count) == Window(seen, offset, count) + [x]
    ensures |seen| >= offset && |Window(seen, offset, count)| == count ==> |seen| >= offset + count
  {
  }

  /** Within one pass over the results, up to result `i`. */
  ghost predicate Passing<T>(results: seq<seq<T>>, before: seq<Cursor>, cs: seq<Cursor>, i: nat, rows: seq<T>,
                             rowCount: nat, offset: nat, count: nat, seen: seq<T>, now: seq<T>, full: bool)
  {
    && Placed(results, before) && Placed(results, cs) && i <= |cs|
    && rows == Window(now, offset, count)
    && (full ==> rowCount >= |now| >= offset + count && now <= Interleave(results))
    && (!full ==> rowCount == |now| && now == seen + Firsts(Rest(results, before)[..i])
                  && (forall j | i <= j < |cs| :: cs[j] == before[j])
                  && (forall j | 0 <= j < i :: cs[j].rowIndex == before[j].rowIndex + if before[j].rowIndex < |results[j]| then 1 else 0))
  }

  /** A pass that was not cut short has read the first row of everything left. */
  lemma {:induction false} PassDone<T>(results: seq<seq<T>>, before: seq<Cursor>, cs: seq<Cursor>, rows: seq<T>,
                                       rowCount: nat, offset: nat, count: nat, seen: seq<T>, now: seq<T>)
    requires Reading(results, before, Window(seen, offset, count), |seen|, offset, count, seen, false)
    requires Passing(results, before, cs, |cs|, rows, rowCount, offset, count, seen, now, false)
    ensures Reading(results, cs, rows, rowCount, offset, count, now, false)
  {
    var base := Rest(results, before);
    RestAt(results, before);
    RestAt(results, cs);
    TailsSize(base);
    assert base[..|cs|] == base;
    assert Rest(results, cs) == Tails(base);
    InterleaveStep(base);
  }

  /** What a pass has read is a beginning of the interleaving. */
  lemma {:induction false} PassPrefix<T>(results: seq<seq<T>>, before: seq<Cursor>, seen: seq<T>, i: nat)
    requires Placed(results, before) && Interleave(results) == seen + Interleave(Rest(results, before)) && i <= |before|
    ensures |Rest(results, before)| == |before|
    ensures seen + Firsts(Rest(results, before)[..i]) <= Interleave(results)
  {
    var base := Rest(results, before);
    RestAt(results, before);
    InterleaveStep(base);
    FirstsPrefix(base, i);
  }

  lemma {:induction false} FirstsPrefix<T>(rs: seq<seq<T>>, i: nat)
    requires i <= |rs|
    ensures Firsts(rs[..i]) <= Firsts(rs)
    decreases |rs| - i
  {
    if i < |rs| {
      FirstsPrefix(rs, i + 1);
      FirstsNext(rs, i);
    } else {
      assert rs[..i] == rs;
    }
  }

  /** One row read in turn. */
  lemma {:induction false} ReadInTurn<T>(results: seq<seq<T>>, before: seq<Cursor>, cs: seq<Cursor>, i: nat,
      rows: seq<T>, rowCount: nat, offset: nat, count: nat, seen: seq<T>, now: seq<T>, c: Cursor)
    requires Passing(results, before, cs, i, rows, rowCount, offset, count, seen, now, false) && i < |cs|
    requires Placed(results, cs[i := c])
    requires c.rowIndex == cs[i].rowIndex + if cs[i].rowIndex < |results[i]| then 1 else 0
    ensures var next := if cs[i].rowIndex < |results[i]| then now + [results[i][cs[i].rowIndex]] else now;
            Passing(results, before, cs[i := c], i + 1, Window(next, offset, count), |next|, offset, count, seen, next, false)
  {
    RestAt(results, before);
    FirstsNext(Rest(results, before), i);
    assert cs[i] == before[i];
  }

  /** Looks at result `i`; `stop` is the `break` on a full limit. */
  method Visit<T>(results: seq<seq<T>>, ghost before: seq<Cursor>, cs: seq<Cursor>, endCount: nat, i: nat,
                  rows: seq<T>, rowCount: nat, offset: nat, count: nat, ghost seen: seq<T>, ghost now: seq<T>,
                  ghost full: bool)
    returns (ds: seq<Cursor>, ends: nat, kept: seq<T>, n: nat, ghost next: seq<T>, stop: bool)
    requires Passing(results, before, cs, i, rows, rowCount, offset, count, seen, now, full) && i < |cs| && endCount == |Ended(cs)|
    requires !full ==> Interleave(results) == seen + Interleave(Rest(results, before))
    ensures Passing(results, before, ds, i + 1, kept, n, offset, count, seen, next, full || stop) && ends == |Ended(ds)|
    ensures Pending(results, ds) < Pending(results, cs) || (cs[i].ended && ds == cs && !stop)
    ensures forall j | i < j < |cs| :: ds[j] == cs[j]
  {
    ds, ends, kept, n, next, stop := cs, endCount, rows, rowCount, now, false;
    if cs[i].ended {
      if !full { ReadInTurn(results, before, cs, i, rows, rowCount, offset, count, seen, now, cs[i]); }
      return;
    }
    var c := if cs[i].rowIndex == |results[i]| then cs[i].(ended := true) else cs[i].(rowIndex := cs[i].rowIndex + 1);
    PendingUpdate(results, cs, i, c);
    EndOne(cs, i, c);
    ds := cs[i := c];
    if !full { ReadInTurn(results, before, cs, i, rows, rowCount, offset, count, seen, now, c); }
    if c.ended {
      ends := ends + 1;
      return;
    }
    var row := results[i][cs[i].rowIndex];
    n := n + 1;
    WindowAppend(now, row, offset, count);
    if n > offset {
      if |rows| == count {
        stop := true;
        if !full { PassPrefix(results, before, seen, i); }
        return;
      }
      kept := rows + [row];
    }
    next := now + [row];
  }

  /** One pass over the results. The `break` on a full limit leaves this pass only. */
  method Pass<T>(results: seq<seq<T>>, before: seq<Cursor>, endCount: nat, rows: seq<T>, rowCount: nat, offset: nat,
                 count: nat, ghost seen: seq<T>, ghost full: bool)
    returns (cs: seq<Cursor>, ends: nat, kept: seq<T>, n: nat, ghost now: seq<T>, ghost filled: bool)
    requires Reading(results, before, rows, rowCount, offset, count, seen, full)
    requires endCount == |Ended(before)| && exists i :: 0 <= i < |before| && !before[i].ended
    ensures Reading(results, cs, kept, n, offset, count, now, filled) && ends == |Ended(cs)|
    ensures Pending(results, cs) < Pending(results, before)
  {
    cs, ends, kept, n, now, filled := before, endCount, rows, rowCount, seen, full;
    ghost var live :| 0 <= live < |before| && !before[live].ended;
    assert Firsts(Rest(results, before)[..0]) == [];
    var i := 0;
    while i < |results|
      invariant Passing(results, before, cs, i, kept, n, offset, count, seen, now, filled)
      invariant ends == |Ended(cs)|
      invariant forall j | i <= j < |cs| :: cs[j] == before[j]
      invariant Pending(results, cs) < Pending(results, before) || (cs == before && i <= live)
    {
      var stop;
      cs, ends, kept, n, now, stop := Visit(results, before, cs, ends, i, kept, n, offset, count, seen, now, filled);
      i := i + 1;
      if stop {
        filled := true;
        break;
      }
    }
    if !filled { PassDone(results, before, cs, kept, n, offset, count, seen, now); }
  }

  /** Passes until the end of every result has been noticed. */
  method Passes<T>(results: seq<seq<T>>, start: seq<Cursor>, offset: nat, count: nat) returns (rows: seq<T>)
    requires Reading(results, start, [], 0, offset, count, [], false) && Ended(start) == {} && start != []
    ensures rows == Window(Interleave(results), offset, count)
  {
    var cs, endCount, rowCount := start, 0, 0;
    rows := [];
    ghost var seen: seq<T>, full := [], false;
    while true
      invariant Reading(results, cs, rows, rowCount, offset, count, seen, full)
      invariant endCount == |Ended(cs)| < |cs|
      decreases Pending(results, cs)
    {
      AllEnded(cs);
      cs, endCount, rows, rowCount, seen, full := Pass(results, cs, endCount, rows, rowCount, offset, count, seen, full);
      AllEnded(cs);
      if endCount == |results| { break; }
    }
    Closing(results, cs, rows, rowCount, offset, count, seen, full);
  }

  /** LIMIT without ORDER BY; without any result there is nothing to take the columns from. */
  method MergeLimit<T>(results: seq<seq<T>>, offset: nat, count: nat) returns (panic: bool, rows: seq<T>)
    ensures panic <==> results == []
    ensures !panic ==> rows == Window(Interleave(results), offset, count)
  {
    if results == [] { return true, []; }
    var cs := seq(|results|, i => Cursor(0, false));
    Opening(results, cs);
    rows := Passes(results, cs, offset, count);
    panic := false;
  }

  lemma {:induction false} Opening<T>(results: seq<seq<T>>, cs: seq<Cursor>)
    requires |cs| == |results| > 0 && forall i | 0 <= i < |cs| :: cs[i] == Cursor(0, false)
    ensures Ended(cs) == {} && Placed(results, cs) && Rest(results, cs) == results && !cs[0].ended
  {
    RestAt(results, cs);
  }

  lemma {:induction false} Closing<T>(results: seq<seq<T>>, cs: seq<Cursor>, rows: seq<T>, rowCount: nat, offset: nat,
                                      count: nat, seen: seq<T>, full: bool)
    requires Reading(results, cs, rows, rowCount, offset, count, seen, full) && forall i | 0 <= i < |cs| :: cs[i].ended
    ensures rows == Window(Interleave(results), offset, count)
  {
    if !full {
      RestAt(results, cs);
      NoRows(Rest(results, cs));
      assert Interleave(results) == seen;
    }
  }
}
