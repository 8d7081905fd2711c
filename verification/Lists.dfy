/** Sequences without repetition, and counting them. */
module Lists {

  ghost predicate NoDup<T>(s: seq<T>) {
    forall i, j | 0 <= i < j < |s| :: s[i] != s[j]
  }

  lemma {:induction false} Associative<T>(a: seq<T>, b: seq<T>, c: seq<T>)
    ensures a + b + c == a + (b + c)
  {
  }

  lemma {:induction false} NoDupAppend<T>(s: seq<T>, x: T)
    requires NoDup(s) && x !in s
    ensures NoDup(s + [x])
  {
  }

  lemma {:induction false} NoDupInit<T>(s: seq<T>)
    requires NoDup(s) && s != []
    ensures NoDup(s[..|s| - 1]) && s[|s| - 1] !in s[..|s| - 1] && s == s[..|s| - 1] + [s[|s| - 1]]
  {
    var init := s[..|s| - 1];
    assert forall i | 0 <= i < |init| :: init[i] == s[i];
  }

  ghost function Elements<T>(s: seq<T>): set<T> {
    set x | x in s
  }

  /** A sequence has as many elements as positions exactly when nothing is repeated. */
  lemma {:induction false} CountElements<T>(s: seq<T>)
    ensures |Elements(s)| <= |s|
    ensures |Elements(s)| == |s| <==> NoDup(s)
  {
    if s == [] {
      assert Elements(s) == {};
    } else {
      var init, last := s[..|s| - 1], s[|s| - 1];
      CountElements(init);
      assert s == init + [last];
      if last in init {
        assert Elements(s) == Elements(init);
        var j :| 0 <= j < |init| && init[j] == last;
        assert s[j] == s[|s| - 1];
      } else {
        assert Elements(s) == Elements(init) + {last};
        if NoDup(init) { NoDupAppend(init, last); }
        if NoDup(s) { assert forall i, j | 0 <= i < j < |init| :: init[i] == s[i] && init[j] == s[j]; }
      }
    }
  }

  /** The numbers below `n`; there are `n` of them. */
  ghost function Below(n: nat): (s: set<int>)
    ensures |s| == n && forall i :: i in s <==> 0 <= i < n
  {
    if n == 0 then {} else Below(n - 1) + {n - 1}
  }

  /** Of `n` numbers below `n`, none is repeated exactly when none is missing. */
  lemma {:induction false} Pigeonhole(s: seq<int>)
    requires forall i | i in s :: 0 <= i < |s|
    ensures NoDup(s) <==> forall i | 0 <= i < |s| :: i in s
  {
    CountElements(s);
    var e, b := Elements(s), Below(|s|);
    assert e <= b && |b - e| == |b| - |e|;
    if NoDup(s) {
      assert b - e == {};
      forall i | 0 <= i < |s| ensures i in s { assert i in b && i !in b - e; }
    }
    if forall i | 0 <= i < |s| :: i in s { assert e == b; }
  }

  /** A list of distinct numbers below `n` has length `n` exactly when it has them all. */
  lemma {:induction false} FullList(s: seq<int>, n: nat)
    requires NoDup(s) && forall i | i in s :: 0 <= i < n
    ensures |s| <= n
    ensures |s| == n <==> forall i | 0 <= i < n :: i in s
  {
    CountElements(s);
    var e, b := Elements(s), Below(n);
    assert e <= b && |b - e| == |b| - |e|;
    if |s| == n {
      assert b - e == {};
      forall i | 0 <= i < n ensures i in s { assert i in b && i !in b - e; }
    }
    if forall i | 0 <= i < n :: i in s { assert e == b; }
  }
}
