/** Sharding by remainder. */
module NumberMod {
  import opened Modulo
  import opened Conditions
  import opened Algorithms
  import opened Lists

  /** The source's `%`, which truncates toward zero. */
  function Rem(x: int, n: int): (r: int)
    requires n > 0
    ensures x >= 0 ==> r == x % n
    ensures x < 0 ==> -n < r <= 0
  {
    if x >= 0 then x % n else -((-x) % n)
  }

  /** Any `n` consecutive integers meet every remainder. */
  lemma {:induction false} RemainderMet(lo: int, n: int, r: int) returns (x: int)
    requires 0 <= r < n
    ensures lo <= x < lo + n && x % n == r
  {
    var q := (r - lo) / n;
    x := lo + (r - lo) % n;
    assert x == (-q) * n + r;
    ModUnique(-q, n, r);
  }

  /** Fewer than `n` integers apart, remainders are distinct. */
  lemma {:induction false} RemaindersApart(x: int, y: int, n: int)
    requires n > 0 && x < y < x + n
    ensures x % n != y % n
  {
    var d := y / n - x / n;
    assert y - x == d * n + (y % n - x % n);
    MultipleApart(d, n);
  }

  /** The remainders of `lo .. hi - 1`, in that order. */
  function Remainders(lo: int, hi: int, n: int): seq<int>
    requires n > 0
  {
    if lo >= hi then [] else seq(hi - lo, j requires 0 <= j => Rem(lo + j, n))
  }

  lemma {:induction false} RemaindersExact(lo: int, hi: int, n: int, i: int)
    requires n > 0
    ensures i in Remainders(lo, hi, n) <==> exists x :: lo <= x < hi && Rem(x, n) == i
  {
    var s := Remainders(lo, hi, n);
    if i in s {
      var j :| 0 <= j < |s| && s[j] == i;
      assert Rem(lo + j, n) == i;
    }
    if x :| lo <= x < hi && Rem(x, n) == i {
      assert s[x - lo] == i;
    }
  }

  lemma {:induction false} RemaindersNoDup(lo: int, hi: int, n: int)
    requires n > 0 && 0 <= lo && hi <= lo + n
    ensures NoDup(Remainders(lo, hi, n))
    ensures forall i | i in Remainders(lo, hi, n) :: 0 <= i < n
  {
    var s := Remainders(lo, hi, n);
    forall i, j | 0 <= i < j < |s| ensures s[i] != s[j] {
      RemaindersApart(lo + i, lo + j, n);
      assert s[i] == Rem(lo + i, n) && s[j] == Rem(lo + j, n);
    }
    forall i | 0 <= i < |s| ensures 0 <= s[i] < n {
      assert s[i] == Rem(lo + i, n);
    }
  }

  /** The tables one comparison reaches. */
  method Shard(a: Algorithm, k: Key) returns (s: Shards)
    requires a.NumberMod? && Valid(a)
    ensures s.Tables? || s.All?
    ensures !OnColumn(a, k) ==> s == All
    // pruning loses a row exactly for `<>` of a value whose remainder is a table
    ensures OnColumn(a, k) ==> (Sound(a, One(k), s) <==> !(k.op == NE && 0 <= Rem(k.value, |a.tables|)))
    ensures OnColumn(a, k) && k.value >= 0 && k.op != NE ==> Tight(a, One(k), s)
    ensures s.Tables? && k.value >= 0 ==> NoDup(s.indices) && forall i | i in s.indices :: 0 <= i < |a.tables|
  {
    if !OnColumn(a, k) { return All; }
    var n, v := |a.tables|, k.value;
    var result: seq<int> := [];
    match k.op {
      case EQ =>
        result := [Rem(v, n)];
        assert v >= 0 ==> Lives(a, v, Rem(v, n));
      case NE =>
        for t := 0 to n
          invariant forall i :: i in result <==> i in a.tables[..t] && i != Rem(v, n)
          invariant NoDup(result)
        {
          if a.tables[t] != Rem(v, n) {
            NoDupAppend(result, a.tables[t]);
            result := result + [a.tables[t]];
          }
        }
        assert a.tables[..n] == a.tables;
        NotEqual(a, k, Tables(result));
      case LT =>
        if v >= n { Unbounded(a, k); return All; }
        result := Countdown(v - 1);
        Below(a, k, v);
      case LE =>
        if v >= n - 1 { Unbounded(a, k); return All; }
        result := Countdown(v);
        Below(a, k, v + 1);
      case GT => Unbounded(a, k); return All;
      case GE => Unbounded(a, k); return All;
    }
    return Tables(result);
  }

  /** `from`, `from - 1`, down to zero. */
  method Countdown(from: int) returns (result: seq<int>)
    ensures forall i :: i in result <==> 0 <= i <= from
    ensures NoDup(result)
  {
    result := [];
    var i := from;
    while i >= 0
      invariant i <= from && (from < 0 || -1 <= i)
      invariant forall j :: j in result <==> i < j <= from && 0 <= j
      invariant NoDup(result)
    {
      NoDupAppend(result, i);
      result := result + [i];
      i := i - 1;
    }
  }

  lemma {:induction false} SmallMod(x: int, n: int)
    requires 0 <= x < n
    ensures x % n == x
  {
  }

  lemma {:induction false} Below(a: Algorithm, k: Key, hi: int)
    requires a.NumberMod? && Valid(a)
    requires (k.op == LT && hi == k.value) || (k.op == LE && hi == k.value + 1)
    requires hi <= |a.tables|
    ensures forall i :: Reaches(a, One(k), i) <==> 0 <= i < hi
  {
    forall i ensures Reaches(a, One(k), i) <==> 0 <= i < hi {
      if 0 <= i < hi {
        SmallMod(i, |a.tables|);
        assert Lives(a, i, i) && Meets(One(k), i);
      }
      if x :| Lives(a, x, i) && Meets(One(k), x) {
        SmallMod(x, |a.tables|);
      }
    }
  }

  /** A comparison that admits `|tables|` consecutive keys reaches every table. */
  lemma {:induction false} Unbounded(a: Algorithm, k: Key)
    requires a.NumberMod? && Valid(a)
    requires k.op == GT || k.op == GE || (k.op == LT && k.value >= |a.tables|) || (k.op == LE && k.value >= |a.tables| - 1)
    ensures Sound(a, One(k), All) && Tight(a, One(k), All)
  {
    forall i | i in a.tables ensures Reaches(a, One(k), i) {
      var lo := if k.op in {LT, LE} || k.value < 0 then 0 else k.value + 1;
      var x := RemainderMet(lo, |a.tables|, i);
      assert Lives(a, x, i);
    }
  }

  lemma {:induction false} NotEqual(a: Algorithm, k: Key, s: Shards)
    requires a.NumberMod? && Valid(a) && k.op == NE
    requires s.Tables? && forall i :: i in s.indices <==> 0 <= i < |a.tables| && i != Rem(k.value, |a.tables|)
    ensures Sound(a, One(k), s) <==> Rem(k.value, |a.tables|) < 0
  {
    var n, r := |a.tables|, Rem(k.value, |a.tables|);
    if r >= 0 {
      var x := RemainderMet(if k.value < 0 then 0 else k.value + 1, n, r);
      assert Lives(a, x, r) && Meets(One(k), x);
      assert Reaches(a, One(k), r);
    }
  }

  /** Some number below `hi` other than `v` has remainder `i`. */
  ghost predicate MetBelow(n: int, hi: int, v: int, i: int)
    requires n > 0
  {
    exists x | 0 <= x < hi && x != v :: x % n == i
  }

  lemma {:induction false} MetNext(n: int, i: nat, v: int, j: int)
    requires n > 0
    ensures MetBelow(n, i + 1, v, j) <==> MetBelow(n, i, v, j) || (i != v && j == i % n)
  {
    if x :| 0 <= x < i + 1 && x != v && x % n == j {
      assert x == i || (0 <= x < i && x != v && x % n == j);
    }
    if x :| 0 <= x < i && x != v && x % n == j {
      assert 0 <= x < i + 1 && x != v && x % n == j;
    }
  }

  /** Every remainder of the numbers below `hi` except `v`, once, in an arbitrary order. */
  method RemaindersBut(n: int, hi: int, v: int) returns (result: seq<int>)
    requires n > 0
    ensures forall i :: i in result <==> MetBelow(n, hi, v, i)
    ensures NoDup(result)
  {
    var indices: set<int> := {};
    var i := 0;
    while i < hi
      invariant 0 <= i && (i <= hi || i == 0)
      invariant forall j :: j in indices <==> MetBelow(n, i, v, j)
    {
      forall j ensures MetBelow(n, i + 1, v, j) <==> MetBelow(n, i, v, j) || (i != v && j == i % n) { MetNext(n, i, v, j); }
      if i != v { indices := indices + {i % n}; }
      i := i + 1;
    }
    result := ListSet(indices);
  }

  /** The elements of a set, in an arbitrary order. */
  method ListSet(s: set<int>) returns (result: seq<int>)
    ensures forall i :: i in result <==> i in s
    ensures NoDup(result)
  {
    result := [];
    var todo := s;
    while true
      invariant todo <= s
      invariant forall i :: i in result <==> i in s - todo
      invariant NoDup(result)
      decreases todo
    {
      if i :| i in todo {
        todo := todo - {i};
        NoDupAppend(result, i);
        result := result + [i];
      } else {
        break;
      }
    }
  }

  /** With a small value excluded, an inclusive bound that no smaller key shares a table with. */
  predicate Overlooks(n: int, excluded: Key, upper: Key) {
    && upper.op == LE && excluded.value < n - 1 && upper.value < n + excluded.value
    && 0 <= upper.value < n && upper.value != excluded.value
  }

  lemma {:induction false} OnePeriodBack(x: int, n: int)
    requires n > 0
    ensures (x - n) % n == x % n
  {
    var q, r := x / n, x % n;
    assert x - n == (q - 1) * n + r;
    ModUnique(q - 1, n, r);
  }

  /** What is listed is reached; what is reached is listed or the bound itself. */
  lemma {:induction false} ReachedBelow(a: Algorithm, excluded: Key, upper: Key, i: int)
    requires a.NumberMod? && Valid(a) && excluded.op == NE && upper.op in {LT, LE}
    ensures MetBelow(|a.tables|, upper.value, excluded.value, i) ==> Reaches(a, Two(excluded, upper), i) && 0 <= i < |a.tables|
    ensures var w := upper.value;
            Reaches(a, Two(excluded, upper), i) && !(upper.op == LE && w >= 0 && w != excluded.value && w % |a.tables| == i) ==>
              MetBelow(|a.tables|, w, excluded.value, i)
  {
    var n, v, w, g := |a.tables|, excluded.value, upper.value, Two(excluded, upper);
    if x :| 0 <= x < w && x != v && x % n == i {
      assert Lives(a, x, i) && Meets(g, x);
    }
    if x :| Lives(a, x, i) && Meets(g, x) {
      assert x == w || (0 <= x < w && x != v && x % n == i);
    }
  }

  /** Short of a second period beyond the excluded value, the bound shares its remainder exactly from one period on. */
  lemma {:induction false} BoundIsMet(n: int, v: int, w: int)
    requires 0 < n && v < n - 1 && 0 <= w < n + v && w != v
    ensures MetBelow(n, w, v, w % n) <==> w >= n
  {
    if w >= n {
      OnePeriodBack(w, n);
      assert 0 <= w - n < w && w - n != v && (w - n) % n == w % n;
    } else {
      SmallMod(w, n);
      forall x | 0 <= x < w ensures x % n != w { SmallMod(x, n); }
    }
  }

  lemma {:induction false} ExclusionListed(a: Algorithm, excluded: Key, upper: Key, s: Shards)
    requires a.NumberMod? && Valid(a) && excluded.op == NE && upper.op in {LT, LE} && excluded.value < |a.tables| - 1
    requires upper.op == LE ==> upper.value < |a.tables| + excluded.value
    requires s.Tables? && forall i :: i in s.indices <==> MetBelow(|a.tables|, upper.value, excluded.value, i)
    ensures Sound(a, Two(excluded, upper), s) <==> !Overlooks(|a.tables|, excluded, upper)
    ensures Tight(a, Two(excluded, upper), s) && forall i | i in s.indices :: 0 <= i < |a.tables|
  {
    var n, v, w, g := |a.tables|, excluded.value, upper.value, Two(excluded, upper);
    forall i ensures i in s.indices ==> Reaches(a, g, i) && 0 <= i < n { ReachedBelow(a, excluded, upper, i); }
    if upper.op == LE && w >= 0 && w != v {
      BoundIsMet(n, v, w);
      assert Lives(a, w, w % n) && Meets(g, w);
      assert Reaches(a, g, w % n);
    }
    forall i | Reaches(a, g, i) && !Overlooks(n, excluded, upper) ensures i in s.indices {
      ReachedBelow(a, excluded, upper, i);
    }
  }

  /** Some key is stored below the bound and is not the smaller value excluded. */
  lemma {:induction false} StoredBelow(a: Algorithm, upper: Key, excluded: Key)
    requires a.NumberMod? && Valid(a) && upper.op in {LT, LE} && excluded.op == NE && excluded.value < upper.value
    ensures (exists i :: Reaches(a, Two(upper, excluded), i)) <==>
            upper.value > 1 || (upper.value == 1 && (upper.op == LE || excluded.value != 0)) || (upper.value == 0 && upper.op == LE)
  {
    var g := Two(upper, excluded);
    if upper.value >= 0 {
      var x := if excluded.value != 0 then 0 else 1;
      assert Lives(a, x, x % |a.tables|);
      if Meets(g, x) { assert Reaches(a, g, x % |a.tables|); }
    }
  }

  /** The tables reached by two bounds together. */
  method ShardRange(a: Algorithm, lower: Key, upper: Key) returns (s: Shards)
    requires a.NumberMod? && Valid(a)
    ensures s.Tables? || s.All?
    ensures !OnColumn(a, lower) ==> s == All
    ensures OnColumn(a, lower) && lower.op in {GT, GE} && upper.op in {LT, LE} ==>
              Sound(a, Two(lower, upper), s) && (lower.value >= 0 ==> Tight(a, Two(lower, upper), s))
    // a value excluded in front of an upper bound loses a row exactly when the bound is overlooked
    ensures OnColumn(a, lower) && lower.op == NE && upper.op in {LT, LE} ==>
              && (Sound(a, Two(lower, upper), s) <==> !Overlooks(|a.tables|, lower, upper))
              && (s.Tables? ==> Tight(a, Two(lower, upper), s))
    // any other shape lists no table
    ensures OnColumn(a, lower) && !(lower.op in {GT, GE, NE} && upper.op in {LT, LE}) ==> s == Tables([])
    ensures s.Tables? && (lower.value >= 0 || lower.op == NE) ==> NoDup(s.indices) && forall i | i in s.indices :: 0 <= i < |a.tables|
  {
    if !OnColumn(a, lower) { return All; }
    if !(lower.op in {GT, GE, NE} && upper.op in {LT, LE}) { return Tables([]); }
    if lower.op == NE {
      s := ShardExcluded(a, lower, upper);
    } else {
      s := ShardInterval(a, lower, upper);
    }
  }

  method ShardExcluded(a: Algorithm, excluded: Key, upper: Key) returns (s: Shards)
    requires a.NumberMod? && Valid(a) && excluded.op == NE && upper.op in {LT, LE}
    ensures s.Tables? || s.All?
    ensures Sound(a, Two(excluded, upper), s) <==> !Overlooks(|a.tables|, excluded, upper)
    ensures s.Tables? ==> Tight(a, Two(excluded, upper), s) && NoDup(s.indices) && forall i | i in s.indices :: 0 <= i < |a.tables|
  {
    var n := |a.tables|;
    if excluded.value >= n - 1 || (if upper.op == LT then upper.value > n + excluded.value else upper.value >= n + excluded.value) {
      return All;
    }
    var result := RemaindersBut(n, upper.value, excluded.value);
    ExclusionListed(a, excluded, upper, Tables(result));
    return Tables(result);
  }

  method ShardInterval(a: Algorithm, lower: Key, upper: Key) returns (s: Shards)
    requires a.NumberMod? && Valid(a) && lower.op in {GT, GE} && upper.op in {LT, LE}
    ensures s.Tables? || s.All?
    ensures Sound(a, Two(lower, upper), s) && (lower.value >= 0 ==> Tight(a, Two(lower, upper), s))
    ensures s.Tables? && lower.value >= 0 ==> NoDup(s.indices) && forall i | i in s.indices :: 0 <= i < |a.tables|
  {
    var n := |a.tables|;
    var lo := if lower.op == GT then lower.value + 1 else lower.value;
    var hi := if upper.op == LT then upper.value else upper.value + 1;
    if hi - lo >= n {
      Interval(a, lower, upper, lo, hi);
      return All;
    }
    var result: seq<int> := [];
    var i := lo;
    while i < hi
      invariant lo <= i && (i <= hi || i == lo)
      invariant result == Remainders(lo, i, n)
    {
      result := result + [Rem(i, n)];
      i := i + 1;
    }
    assert result == Remainders(lo, hi, n);
    Interval(a, lower, upper, lo, hi);
    if lower.value >= 0 { RemaindersNoDup(lo, hi, n); }
    return Tables(result);
  }

  lemma {:induction false} Interval(a: Algorithm, lower: Key, upper: Key, lo: int, hi: int)
    requires a.NumberMod? && Valid(a) && lower.op in {GT, GE} && upper.op in {LT, LE}
    requires lo == (if lower.op == GT then lower.value + 1 else lower.value)
    requires hi == (if upper.op == LT then upper.value else upper.value + 1)
    ensures var s := if hi - lo >= |a.tables| then All else Tables(Remainders(lo, hi, |a.tables|));
            Sound(a, Two(lower, upper), s) && (lower.value >= 0 ==> Tight(a, Two(lower, upper), s))
  {
    var n, g := |a.tables|, Two(lower, upper);
    if hi - lo >= n {
      if lower.value >= 0 {
        forall i | i in a.tables ensures Reaches(a, g, i) {
          var x := RemainderMet(lo, n, i);
          assert Lives(a, x, i);
        }
      }
    } else {
      forall i ensures Reaches(a, g, i) ==> i in Remainders(lo, hi, n)
               ensures lower.value >= 0 && i in Remainders(lo, hi, n) ==> Reaches(a, g, i)
      {
        RemaindersExact(lo, hi, n, i);
        if x :| Lives(a, x, i) && Meets(g, x) { assert Rem(x, n) == i; }
        if x :| lo <= x < hi && Rem(x, n) == i && lower.value >= 0 { assert Lives(a, x, i); }
      }
    }
  }
}
