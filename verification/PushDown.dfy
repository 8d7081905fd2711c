/** Pushing `LIMIT offset + count` down to every table, argued by counting. */
module PushDown {
  import opened MergeSpec

  ghost function Count<T(!new)>(p: T -> bool, s: seq<T>): nat {
    if s == [] then 0 else Count(p, s[..|s| - 1]) + if p(s[|s| - 1]) then 1 else 0
  }

  lemma {:induction false} CountConcat<T(!new)>(p: T -> bool, a: seq<T>, b: seq<T>)
    ensures Count(p, a + b) == Count(p, a) + Count(p, b)
  {
    if b == [] {
      assert a + b == a;
    } else {
      CountConcat(p, a, b[..|b| - 1]);
      assert (a + b)[..|a + b| - 1] == a + b[..|b| - 1];
    }
  }

  lemma {:induction false} Cancel<T>(a: multiset<T>, b: multiset<T>, x: T)
    requires a + multiset{x} == b + multiset{x}
    ensures a == b
  {
    assert a + multiset{x} - multiset{x} == a && b + multiset{x} - multiset{x} == b;
  }

  /** Taking one occurrence of the last element of `s` out of a permutation of `s`. */
  lemma {:induction false} RemoveLast<T>(s: seq<T>, t: seq<T>) returns (a: seq<T>, b: seq<T>)
    requires multiset(s) == multiset(t) && s != []
    ensures t == a + [s[|s| - 1]] + b && multiset(s[..|s| - 1]) == multiset(a + b)
  {
    var x, init := s[|s| - 1], s[..|s| - 1];
    assert s == init + [x];
    assert x in multiset(t);
    var j :| 0 <= j < |t| && t[j] == x;
    a, b := t[..j], t[j + 1..];
    assert t == a + [x] + b;
    assert multiset(t) == multiset(a) + multiset{x} + multiset(b);
    Regroup(multiset(a), multiset(b), x);
    Cancel(multiset(a) + multiset(b), multiset(init), x);
  }

  lemma {:induction false} CountPermutation<T(!new)>(p: T -> bool, s: seq<T>, t: seq<T>)
    requires multiset(s) == multiset(t)
    ensures Count(p, s) == Count(p, t)
  {
    if s == [] {
      assert |multiset(t)| == 0;
    } else {
      var x := s[|s| - 1];
      var a, b := RemoveLast(s, t);
      CountPermutation(p, s[..|s| - 1], a + b);
      CountConcat(p, a + [x], b);
      CountConcat(p, a, [x]);
      CountConcat(p, a, b);
      assert Count(p, [x]) == if p(x) then 1 else 0;
    }
  }

  lemma {:induction false} CountAll<T(!new)>(p: T -> bool, s: seq<T>)
    ensures Count(p, s) <= |s|
    ensures (forall x | x in s :: p(x)) ==> Count(p, s) == |s|
    ensures (forall x | x in s :: !p(x)) ==> Count(p, s) == 0
  {
    if s != [] {
      CountAll(p, s[..|s| - 1]);
      assert s == s[..|s| - 1] + [s[|s| - 1]];
    }
  }

  /** The property holds of a beginning of the sequence and of nothing after it. */
  ghost predicate Downward<T(!new)>(p: T -> bool, s: seq<T>) {
    forall i, j | 0 <= i < j < |s| && p(s[j]) :: p(s[i])
  }

  /** Cutting a sequence after `k` rows caps the count at `k`. */
  lemma {:induction false} CountCut<T(!new)>(p: T -> bool, s: seq<T>, k: nat)
    requires Downward(p, s) && k <= |s|
    ensures Count(p, s[..k]) == if Count(p, s) < k then Count(p, s) else k
  {
    if k == |s| {
      assert s[..k] == s;
      CountAll(p, s);
    } else if p(s[|s| - 1]) {
      assert forall x | x in s :: p(x);
      CountAll(p, s);
      CountAll(p, s[..k]);
    } else {
      var init := s[..|s| - 1];
      assert forall i | 0 <= i < |init| :: init[i] == s[i];
      CountCut(p, init, k);
      assert init[..k] == s[..k];
    }
  }

  /** What a table returns for `LIMIT k`. */
  function Cut<T>(s: seq<T>, k: nat): seq<T> {
    if |s| <= k then s else s[..k]
  }

  function CutAll<T>(tables: seq<seq<T>>, k: nat): seq<seq<T>> {
    if tables == [] then [] else [Cut(tables[0], k)] + CutAll(tables[1..], k)
  }

  /** Below `k`, cutting every table leaves the count unchanged; from `k` on it stays at least `k`. */
  lemma {:induction false} CountCutAll<T(!new)>(p: T -> bool, tables: seq<seq<T>>, k: nat)
    requires forall t | t in tables :: Downward(p, t)
    ensures var all, cut := Count(p, Concat(tables)), Count(p, Concat(CutAll(tables, k)));
            cut <= all && (cut < k ==> cut == all)
  {
    if tables != [] {
      CountCutAll(p, tables[1..], k);
      CountConcat(p, tables[0], Concat(tables[1..]));
      var rest := CutAll(tables[1..], k);
      assert CutAll(tables, k)[1..] == rest;
      CountConcat(p, Cut(tables[0], k), Concat(rest));
      if |tables[0]| > k { CountCut(p, tables[0], k); }
    }
  }

  // ----- positions in a sorted sequence -----

  ghost function Under<T(!new)>(le: (T, T) -> bool, x: T): T -> bool {
    e => !le(x, e)
  }

  ghost function UpTo<T(!new)>(le: (T, T) -> bool, x: T): T -> bool {
    e => le(e, x)
  }

  lemma {:induction false} SortedDownward<T(!new)>(le: (T, T) -> bool, s: seq<T>, x: T)
    requires Preorder(le) && Sorted(le, s)
    ensures Downward(Under(le, x), s) && Downward(UpTo(le, x), s)
  {
  }

  /** A downward property holds at position `i` exactly when it is counted more than `i` times. */
  lemma {:induction false} CountAt<T(!new)>(p: T -> bool, s: seq<T>, i: nat)
    requires Downward(p, s)
    ensures i < |s| ==> (p(s[i]) <==> i < Count(p, s))
    ensures i < Count(p, s) ==> i < |s|
  {
    CountAll(p, s);
    if i < |s| {
      CountCut(p, s, i + 1);
      CountCut(p, s, i);
      assert s[..i + 1][..i] == s[..i] && s[..i + 1][i] == s[i];
    }
  }

  /** Rows with equal sort keys. */
  ghost predicate Alike<T(!new)>(le: (T, T) -> bool, a: T, b: T) {
    le(a, b) && le(b, a)
  }

  /** The first `k` rows of the sorted union are, key by key, the first `k` rows of the sorted union of the cut tables. */
  lemma {:induction false} CutKeepsFirstRows<T(!new)>(le: (T, T) -> bool, tables: seq<seq<T>>, k: nat, whole: seq<T>, cut: seq<T>, i: nat)
    requires Preorder(le) && AllSorted(le, tables)
    requires Sorted(le, whole) && multiset(whole) == multiset(Concat(tables))
    requires Sorted(le, cut) && multiset(cut) == multiset(Concat(CutAll(tables, k)))
    requires i < k
    ensures i < |whole| <==> i < |cut|
    ensures i < |whole| ==> Alike(le, whole[i], cut[i])
  {
    SameLength(tables, k, whole, cut);
    if i < |whole| {
      var x := whole[i];
      SameCounts(le, Under(le, x), tables, k, whole, cut, x);
      SameCounts(le, UpTo(le, x), tables, k, whole, cut, x);
      SortedDownward(le, whole, x);
      SortedDownward(le, cut, x);
      CountAt(Under(le, x), whole, i);
      CountAt(UpTo(le, x), whole, i);
      CountAt(Under(le, x), cut, i);
      CountAt(UpTo(le, x), cut, i);
    }
  }

  lemma {:induction false} SameCounts<T(!new)>(le: (T, T) -> bool, p: T -> bool, tables: seq<seq<T>>, k: nat, whole: seq<T>, cut: seq<T>, x: T)
    requires Preorder(le) && AllSorted(le, tables) && (p == Under(le, x) || p == UpTo(le, x))
    requires multiset(whole) == multiset(Concat(tables)) && multiset(cut) == multiset(Concat(CutAll(tables, k)))
    ensures Count(p, cut) <= Count(p, whole) && (Count(p, cut) < k ==> Count(p, cut) == Count(p, whole))
  {
    forall t | t in tables ensures Downward(p, t) { SortedDownward(le, t, x); }
    CountCutAll(p, tables, k);
    CountPermutation(p, whole, Concat(tables));
    CountPermutation(p, cut, Concat(CutAll(tables, k)));
  }

  lemma {:induction false} SameLength<T(!new)>(tables: seq<seq<T>>, k: nat, whole: seq<T>, cut: seq<T>)
    requires multiset(whole) == multiset(Concat(tables)) && multiset(cut) == multiset(Concat(CutAll(tables, k)))
    ensures |cut| <= |whole| && (|cut| < k ==> |cut| == |whole|)
  {
    var any := (x: T) => true;
    CountCutAll(any, tables, k);
    CountAll(any, Concat(tables));
    CountAll(any, Concat(CutAll(tables, k)));
    assert |multiset(whole)| == |whole| && |multiset(cut)| == |cut|;
    assert |multiset(Concat(tables))| == |Concat(tables)| && |multiset(Concat(CutAll(tables, k)))| == |Concat(CutAll(tables, k))|;
  }
}
