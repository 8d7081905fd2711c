/** From a condition to the list of tables that have to be visited. */
module Sharding {
  import opened Conditions
  import opened Algorithms
  import opened Lists
  import opened PairTable
  import NumberMod
  import NumberRange

  datatype Outcome = Chosen(indices: seq<int>) | Panic

  // ----- what a condition selects -----

  /** Some key value is stored in table `i`. */
  ghost predicate Inhabited(a: Algorithm, i: int) {
    exists x :: Lives(a, x, i)
  }

  /** Table `i` can hold a row that meets the whole group. */
  ghost predicate Admits(a: Algorithm, g: Group, i: int) {
    if OnColumn(a, Keys(g)[0]) then Reaches(a, g, i) else Inhabited(a, i) && exists x :: Meets(g, x)
  }

  lemma {:induction false} TableIsInhabited(a: Algorithm, i: int)
    requires Valid(a) && a.NumberMod? && i in a.tables
    ensures Inhabited(a, i)
  {
    NumberMod.SmallMod(i, |a.tables|);
    assert Lives(a, i, i);
  }

  function KeysOf(ms: seq<Condition>): seq<Key> {
    if ms == [] then []
    else KeysOf(ms[..|ms| - 1]) + if ms[|ms| - 1].Single? then [ms[|ms| - 1].key] else []
  }

  /** Neighbouring keys of one column are decided together, from the left. */
  function Pairs(keys: seq<Key>): (gs: seq<Group>) {
    if keys == [] then []
    else if |keys| == 1 || keys[0].column != keys[1].column then [One(keys[0])] + Pairs(keys[1..])
    else [Two(keys[0], keys[1])] + Pairs(keys[2..])
  }

  function Flatten(gs: seq<Group>): seq<Key> {
    if gs == [] then [] else Keys(gs[0]) + Flatten(gs[1..])
  }

  /** Pairing uses every key exactly once, in order, and pairs only keys of one column. */
  lemma {:induction false} PairsPartition(keys: seq<Key>)
    ensures Flatten(Pairs(keys)) == keys
    ensures forall g | g in Pairs(keys) :: g.Two? ==> g.first.column == g.second.column
  {
    if keys != [] {
      var n := if |keys| == 1 || keys[0].column != keys[1].column then 1 else 2;
      PairsPartition(keys[n..]);
      assert Pairs(keys)[1..] == Pairs(keys[n..]);
      assert keys == keys[..n] + keys[n..];
    }
  }

  lemma {:induction false} FlattenMembers(gs: seq<Group>, g: Group)
    requires g in gs
    ensures forall k | k in Keys(g) :: k in Flatten(gs)
  {
    if g != gs[0] { FlattenMembers(gs[1..], g); }
  }

  ghost predicate Selected(a: Algorithm, c: Condition, i: int) {
    match c
    case Single(k) => Admits(a, One(k), i)
    case Complex(Conj, ms) =>
      && Inhabited(a, i)
      && (forall m | m in ms && !m.Single? :: Selected(a, m, i))
      && (forall g | g in Pairs(Sort(KeysOf(ms))) :: Admits(a, g, i))
    case Complex(Disj, ms) => exists m | m in ms :: Selected(a, m, i)
    case True => Inhabited(a, i)
    case False => false
  }

  lemma {:induction false} KeysOfMembers(ms: seq<Condition>, k: Key)
    ensures k in KeysOf(ms) <==> Single(k) in ms
  {
    if ms != [] {
      KeysOfMembers(ms[..|ms| - 1], k);
      assert ms == ms[..|ms| - 1] + [ms[|ms| - 1]];
    }
  }

  lemma {:induction false} GroupMembers(ms: seq<Condition>, g: Group)
    requires g in Pairs(Sort(KeysOf(ms)))
    ensures forall k | k in Keys(g) :: Single(k) in ms
    ensures g.Two? ==> g.first.column == g.second.column
  {
    PairsPartition(Sort(KeysOf(ms)));
    FlattenMembers(Pairs(Sort(KeysOf(ms))), g);
    SortMembers(KeysOf(ms));
    forall k | k in Keys(g) ensures Single(k) in ms { KeysOfMembers(ms, k); }
  }

  /** A row that satisfies the condition is stored in a selected table. */
  lemma {:induction false} RowIsSelected(a: Algorithm, c: Condition, row: Row, i: int)
    requires Satisfies(c, row) && Home(a, row, i)
    ensures Selected(a, c, i)
  {
    assert Lives(a, row[Fold(a.column)], i);
    match c {
      case Single(k) => RowMeets(a, One(k), row, i);
      case Complex(Conj, ms) =>
        forall m | m in ms && !m.Single? ensures Selected(a, m, i) { RowIsSelected(a, m, row, i); }
        forall g | g in Pairs(Sort(KeysOf(ms))) ensures Admits(a, g, i) {
          GroupMembers(ms, g);
          forall k | k in Keys(g) ensures Holds(k, row) { assert Satisfies(Single(k), row); }
          RowMeets(a, g, row, i);
        }
      case Complex(Disj, ms) =>
        var m :| m in ms && Satisfies(m, row);
        RowIsSelected(a, m, row, i);
      case True =>
    }
  }

  lemma {:induction false} RowMeets(a: Algorithm, g: Group, row: Row, i: int)
    requires Home(a, row, i) && (forall k | k in Keys(g) :: Holds(k, row))
    requires g.Two? ==> g.first.column == g.second.column
    ensures Admits(a, g, i)
  {
    assert Keys(g)[0] in Keys(g) && Keys(g)[|Keys(g)| - 1] in Keys(g);
    assert Lives(a, row[Fold(a.column)], i);
    assert Meets(g, row[Fold(Keys(g)[0].column)]);
  }

  // ----- when pruning is right, when it is exact, and when there is a result -----

  /** An upper bound and a smaller value excluded, of the sharding column. */
  ghost predicate Excluding(a: Algorithm, g: Group) {
    g.Two? && OnColumn(a, g.first) && g.first.op in {LT, LE} && g.second.op == NE && g.second.value < g.first.value
  }

  /**
   * What keeps a group from losing rows. Under modulo, a lone `<>` has a value without a table. An upper bound with a
   * smaller value excluded meets no stored key. Under ranges, two bounds are reliable.
   */
  ghost predicate PrunableGroup(a: Algorithm, g: Group)
    requires Valid(a)
  {
    && (g.One? && OnColumn(a, g.key) && a.NumberMod? && g.key.op == NE ==> NumberMod.Rem(g.key.value, |a.tables|) < 0)
    && (Excluding(a, g) ==> forall i :: !Reaches(a, g, i))
    && (g.Two? && OnColumn(a, g.first) && a.NumberRange? && !Excluding(a, g) && Simplify(g.first, g.second).Bounds? ==>
          var p := Simplify(g.first, g.second); NumberRange.Reliable(a, p.lower, p.upper))
  }

  ghost predicate Prunable(a: Algorithm, c: Condition)
    requires Valid(a)
  {
    match c
    case Single(k) => PrunableGroup(a, One(k))
    case Complex(Conj, ms) =>
      && (forall m | m in ms && !m.Single? :: Prunable(a, m))
      && (forall g | g in Pairs(Sort(KeysOf(ms))) :: PrunableGroup(a, g))
    case Complex(Disj, ms) => forall m | m in ms :: Prunable(a, m)
    case _ => true
  }

  ghost predicate ExactKey(a: Algorithm, k: Key) {
    OnColumn(a, k) ==> k.op != NE && (a.NumberMod? ==> k.value >= 0)
  }

  /** No `<>` of the sharding column and, under modulo, no negative value of it. */
  ghost predicate Exact(a: Algorithm, c: Condition) {
    && NoDup(a.tables)
    && (c.Single? ==> ExactKey(a, c.key)) && (c.Complex? ==> forall m | m in c.members :: Exact(a, m))
  }

  /** Only comparisons of the sharding column. */
  predicate Sole(a: Algorithm, c: Condition) {
    (c.Single? ==> OnColumn(a, c.key)) && (c.Complex? ==> forall m | m in c.members :: Sole(a, m))
  }

  predicate Lower(k: Key) {
    k.op in {GT, GE}
  }

  predicate Upper(k: Key) {
    k.op in {LT, LE}
  }

  /** Two comparisons enclose an interval. */
  predicate Enclose(lower: Key, upper: Key) {
    Lower(lower) && Upper(upper) && lower.value < upper.value
  }

  /**
   * What speaks for listing table `i` for a group of the sharding column. Under modulo it holds a key that meets the
   * group. Under ranges it does so for each comparison up to the end of the range, or lies between two bounds.
   */
  ghost predicate JustifiedGroup(a: Algorithm, g: Group, i: int) {
    OnColumn(a, Keys(g)[0]) ==>
      if a.NumberMod? then Reaches(a, g, i)
      else match g
           case One(k) => NumberRange.Brushes(a, k, i)
           case Two(k, l) =>
             if Enclose(k, l) then NumberRange.Between(a, k, l, i)
             else if Enclose(l, k) then NumberRange.Between(a, l, k, i)
             else Unanswerable(g) || (NumberRange.Brushes(a, k, i) && NumberRange.Brushes(a, l, i))
  }

  /** What speaks for listing table `i` for a condition. */
  ghost predicate Justified(a: Algorithm, c: Condition, i: int) {
    match c
    case Single(k) => JustifiedGroup(a, One(k), i)
    case Complex(Conj, ms) =>
      && False !in ms
      && (forall m | m in ms && m.Complex? :: Justified(a, m, i))
      && (forall g | g in Pairs(Sort(KeysOf(ms))) :: JustifiedGroup(a, g, i))
    case Complex(Disj, ms) => exists m | m in ms :: Justified(a, m, i)
    case True => i in a.tables
    case False => false
  }

  /** Under modulo, with comparisons of the sharding column only, a table that is justified is selected. */
  lemma {:induction false} JustifiedIsSelected(a: Algorithm, c: Condition, i: int)
    requires Valid(a) && a.NumberMod? && Sole(a, c) && i in a.tables && Justified(a, c, i)
    ensures Selected(a, c, i)
  {
    TableIsInhabited(a, i);
    match c {
      case Complex(Conj, ms) =>
        forall m | m in ms && !m.Single? ensures Selected(a, m, i) {
          if m.Complex? { JustifiedIsSelected(a, m, i); }
        }
        forall g | g in Pairs(Sort(KeysOf(ms))) ensures Admits(a, g, i) {
          GroupMembers(ms, g);
          assert Keys(g)[0] in Keys(g);
          assert Sole(a, Single(Keys(g)[0]));
        }
      case Complex(Disj, ms) =>
        var m :| m in ms && Justified(a, m, i);
        JustifiedIsSelected(a, m, i);
      case _ =>
    }
  }

  predicate Unanswerable(g: Group) {
    g.Two? && Simplify(g.first, g.second) == Unanswered
  }

  /** Two bounds in ranges that enclose no table, in every or in some order in which the ranges are walked. */
  ghost predicate NoSpan(a: Algorithm, lower: Key, upper: Key, always: bool)
    requires a.NumberRange?
  {
    if always then
      forall i, j | NumberRange.Located(a, lower.value, i) && NumberRange.Located(a, upper.value, j) :: NumberRange.Span(i, j) == None
    else
      exists i, j :: NumberRange.Located(a, lower.value, i) && NumberRange.Located(a, upper.value, j) && NumberRange.Span(i, j) == None
  }

  /** The group is answered by no table at all, in every or in some order in which ranges are walked. */
  ghost predicate Vanishes(a: Algorithm, g: Group, always: bool) {
    && g.Two?
    && var p := Simplify(g.first, g.second);
       || p.Impossible?
       || (p.Bounds? && a.NumberRange? && OnColumn(a, g.first) && !Excluding(a, g) && NoSpan(a, p.lower, p.upper, always))
  }

  /** Every group without an answer comes behind one that vanishes. */
  ghost predicate Settled(a: Algorithm, gs: seq<Group>, always: bool) {
    forall j | 0 <= j < |gs| && Unanswerable(gs[j]) :: exists i | 0 <= i < j :: Vanishes(a, gs[i], always)
  }

  predicate HasParts(ms: seq<Condition>) {
    exists m | m in ms :: m.Single? || m.Complex?
  }

  /**
   * Every conjunction and disjunction has something to combine, no disjunction has three keys of its own, and no
   * conjunction has a group without an answer ahead of all groups that vanish.
   */
  ghost predicate Combinable(a: Algorithm, c: Condition, always: bool) {
    match c
    case Complex(j, ms) =>
      && (forall m | m in ms :: Combinable(a, m, always))
      && (match j
          case Conj => False in ms || (HasParts(ms) && Settled(a, Pairs(Sort(KeysOf(ms))), always))
          case Disj => True in ms || (HasParts(ms) && |KeysOf(ms)| <= 2))
    case _ => true
  }

  /** Under modulo there is only one order. */
  lemma {:induction false} OneOrder(a: Algorithm, c: Condition)
    requires a.NumberMod?
    ensures Combinable(a, c, true) <==> Combinable(a, c, false)
  {
    if c.Complex? {
      forall m | m in c.members ensures Combinable(a, m, true) <==> Combinable(a, m, false) { OneOrder(a, m); }
      var gs := Pairs(Sort(KeysOf(c.members)));
      assert forall g :: Vanishes(a, g, true) <==> Vanishes(a, g, false);
      assert Settled(a, gs, true) <==> Settled(a, gs, false);
    }
  }

  /** Comparisons for which the lists are exact lose no rows. */
  lemma {:induction false} ExactIsPrunable(a: Algorithm, c: Condition)
    requires Valid(a) && Exact(a, c) && a.NumberMod?
    ensures Prunable(a, c)
  {
    if c.Complex? {
      forall m | m in c.members ensures Prunable(a, m) { ExactIsPrunable(a, m); }
      forall g | g in Pairs(Sort(KeysOf(c.members))) ensures PrunableGroup(a, g) {
        GroupMembers(c.members, g);
        forall k | k in Keys(g) ensures ExactKey(a, k) { assert Exact(a, Single(k)); }
        assert Keys(g)[0] in Keys(g) && Keys(g)[|Keys(g)| - 1] in Keys(g);
      }
    }
  }

  // ----- combining lists of tables -----

  /** Indices of `y` that occur in `x`. */
  method SliceAnd(x: seq<int>, y: seq<int>) returns (result: seq<int>)
    ensures forall i :: i in result <==> i in x && i in y
    ensures NoDup(y) ==> NoDup(result)
    ensures |x| == 0 || |y| == 0 ==> result == []
  {
    var m: map<int, int> := map[];
    for j := 0 to |x|
      invariant forall i :: i in m <==> i in x[..j]
      invariant forall i | i in m :: m[i] > 0
      invariant j == 0 ==> m == map[]
    {
      m := m[x[j] := (if x[j] in m then m[x[j]] else 0) + 1];
    }
    assert x[..|x|] == x;
    result := [];
    for j := 0 to |y|
      invariant forall i :: i in result <==> i in x && i in y[..j]
      invariant NoDup(y) ==> NoDup(result)
      invariant |x| == 0 || j == 0 ==> result == []
    {
      if y[j] in m && m[y[j]] > 0 {
        if NoDup(y) {
          assert y[j] !in y[..j];
          NoDupAppend(result, y[j]);
        }
        result := result + [y[j]];
      }
    }
  }

  /** Indices of `x`, then those of `y` that do not occur in `x`. */
  method SliceOr(x: seq<int>, y: seq<int>) returns (result: seq<int>)
    ensures forall i :: i in result <==> i in x || i in y
    ensures NoDup(x) && NoDup(y) ==> NoDup(result)
  {
    var m: map<int, int> := map[];
    result := [];
    for j := 0 to |x|
      invariant forall i :: i in m <==> i in x[..j]
      invariant forall i | i in m :: m[i] > 0
      invariant result == x[..j]
    {
      m := m[x[j] := (if x[j] in m then m[x[j]] else 0) + 1];
      result := result + [x[j]];
    }
    for j := 0 to |y|
      invariant forall i :: i in result <==> i in x || i in y[..j]
      invariant NoDup(x) && NoDup(y) ==> NoDup(result)
    {
      if y[j] !in m {
        if NoDup(x) && NoDup(y) {
          assert y[j] !in y[..j];
          NoDupAppend(result, y[j]);
        }
        result := result + [y[j]];
      }
    }
  }

  ghost predicate InTables(a: Algorithm, s: Shards) {
    !s.Nil? && (s.Tables? ==> forall i | i in s.indices :: i in a.tables)
  }

  /** Table `i` is listed, as far as there is a list. */
  ghost predicate Within(a: Algorithm, s: Shards, i: int) {
    s.All? || Covers(a, s, i)
  }

  ghost predicate Distinct(s: Shards) {
    s.Tables? ==> NoDup(s.indices)
  }

  /** A list without tables, or the constant that stands for one. */
  predicate Vacant(s: Shards) {
    s.None? || s == Tables([])
  }

  /** Conjunction of two results; a call on a missing condition panics. */
  method Meet(a: Algorithm, x: Shards, y: Shards) returns (r: Shards)
    requires !x.Nil?
    ensures r.Nil? <==> y.Nil? && !x.None?
    ensures r.None? <==> x.None? || y.None?
    ensures r.All? <==> x.All? && y.All?
    ensures (Vacant(x) || Vacant(y)) && !r.Nil? ==> Vacant(r)
    ensures forall i :: Covers(a, x, i) && Covers(a, y, i) ==> Covers(a, r, i)
    ensures InTables(a, x) && (InTables(a, y) || y.Nil?) && !r.Nil? ==> InTables(a, r)
    ensures forall i | !r.Nil? && Covers(a, r, i) :: Within(a, x, i) && Within(a, y, i)
    ensures Distinct(x) && Distinct(y) ==> Distinct(r)
  {
    match x {
      case All => return y;
      case None => return None;
      case Tables(s) =>
        match y {
          case All => return x;
          case None => return None;
          case Nil => return Nil;
          case Tables(t) =>
            var u := SliceAnd(s, t);
            return Tables(u);
        }
    }
  }

  /** Disjunction of two results. */
  method Join(a: Algorithm, x: Shards, y: Shards) returns (r: Shards)
    requires !x.Nil?
    ensures r.Nil? <==> y.Nil? && !x.All?
    ensures x.All? || y.All? ==> r.All?
    ensures x.None? ==> r == y
    ensures y.None? ==> r == x
    ensures x.Tables? && y.Tables? ==> r.Tables? && forall i :: Covers(a, r, i) <==> Covers(a, x, i) || Covers(a, y, i)
    ensures Distinct(x) && Distinct(y) ==> Distinct(r)
  {
    match x {
      case All => return All;
      case None => return y;
      case Tables(s) =>
        match y {
          case All => return All;
          case None => return x;
          case Nil => return Nil;
          case Tables(t) =>
            var u := SliceOr(s, t);
            return Tables(u);
        }
    }
  }

  // ----- one key, two keys -----

  ghost predicate Keeps(a: Algorithm, g: Group, s: Shards) {
    forall i | Admits(a, g, i) :: Covers(a, s, i)
  }

  ghost predicate Pinpoints(a: Algorithm, g: Group, s: Shards) {
    && !s.Nil? && Distinct(s) && (a.NumberMod? ==> InTables(a, s)) && (a.NumberRange? && s.All? ==> !OnColumn(a, Keys(g)[0]))
    && forall i | Covers(a, s, i) :: JustifiedGroup(a, g, i)
  }

  /** The tables for one comparison. */
  method ShardKey(a: Algorithm, k: Key) returns (indices: seq<int>)
    requires Valid(a)
    // a row can be lost exactly for `<>` under modulo
    ensures Keeps(a, One(k), Tables(indices)) <==> PrunableGroup(a, One(k))
    ensures ExactKey(a, k) && NoDup(a.tables) ==> Pinpoints(a, One(k), Tables(indices))
    // under ranges, exactly the tables that hold a matching key or end at the bound
    ensures a.NumberRange? && OnColumn(a, k) && k.op != NE ==> forall i :: i in indices <==> NumberRange.Brushes(a, k, i)
  {
    var s;
    match a {
      case NumberMod(_, _) => s := NumberMod.Shard(a, k);
      case NumberRange(_, _, _) => s := NumberRange.Shard(a, k);
    }
    indices := if s.All? then a.tables else s.indices;
    assert forall i :: Covers(a, Tables(indices), i) <==> Covers(a, s, i);
    if OnColumn(a, k) { assert Keeps(a, One(k), Tables(indices)) <==> Sound(a, One(k), s); }
  }

  /** The result `s` decides the pair as well as can be: no row is lost, or one is lost in some order. */
  ghost predicate DecidesPair(a: Algorithm, g: Group, s: Shards)
    requires Valid(a)
  {
    && (PrunableGroup(a, g) ==> Keeps(a, g, s))
    && ((a.NumberMod? || Excluding(a, g)) && !s.Nil? && Keeps(a, g, s) ==> PrunableGroup(a, g))
    && (Excluding(a, g) ==> s == Tables([]))
    && (Vanishes(a, g, true) ==> s.None?) && (s.None? ==> Vanishes(a, g, false))
  }

  /** Two bounds mean the pair they come from. */
  lemma {:induction false} BoundsMean(a: Algorithm, k: Key, l: Key, lower: Key, upper: Key)
    requires Simplify(k, l) == Bounds(lower, upper)
    ensures forall i :: Reaches(a, Two(lower, upper), i) <==> Reaches(a, Two(k, l), i)
    ensures forall s | Sound(a, Two(lower, upper), s) :: Sound(a, Two(k, l), s)
    ensures OnColumn(a, k) ==> forall s :: Keeps(a, Two(k, l), s) <==> Sound(a, Two(k, l), s)
    ensures lower.op in {GT, GE} && upper.op in {LT, LE} <==> !(k.op in {LT, LE} && l.op == NE && l.value < k.value)
  {
    forall x ensures Meets(Two(lower, upper), x) <==> Meets(Two(k, l), x) {
      assert Meets(Two(lower, upper), x) <==> Means(Bounds(lower, upper), x);
    }
  }

  /** Two bounds of one column. */
  method ShardBounds(a: Algorithm, k: Key, l: Key, lower: Key, upper: Key) returns (s: Shards)
    requires Valid(a) && k.column == l.column && Simplify(k, l) == Bounds(lower, upper)
    ensures !s.Nil? && DecidesPair(a, Two(k, l), s)
    ensures a.NumberRange? && OnColumn(a, k) && Enclose(lower, upper) ==> exists i, j ::
              NumberRange.Located(a, lower.value, i) && NumberRange.Located(a, upper.value, j) && s == NumberRange.Span(i, j)
    ensures ExactKey(a, k) && ExactKey(a, l) && NoDup(a.tables) ==> Pinpoints(a, Two(k, l), s)
  {
    BoundsMean(a, k, l, lower, upper);
    match a {
      case NumberMod(_, _) => s := NumberMod.ShardRange(a, lower, upper);
      case NumberRange(_, _, _) => s := NumberRange.ShardRange(a, lower, upper);
    }
  }

  /** What speaks for a table by the one comparison that is left speaks for it by both. */
  lemma {:induction false} AloneJustified(a: Algorithm, k: Key, l: Key, s: Shards)
    requires Valid(a) && k.column == l.column && Simplify(k, l).Alone?
    requires ExactKey(a, Simplify(k, l).key) && NoDup(a.tables) ==> Pinpoints(a, One(Simplify(k, l).key), s)
    ensures ExactKey(a, k) && ExactKey(a, l) && NoDup(a.tables) ==> Pinpoints(a, Two(k, l), s)
  {
    var m := Simplify(k, l).key;
    if ExactKey(a, k) && ExactKey(a, l) && NoDup(a.tables) && OnColumn(a, k) {
      forall x ensures Meets(One(m), x) <==> Meets(Two(k, l), x) { assert Meets(One(m), x) <==> Means(Alone(m), x); }
      forall i | Covers(a, s, i) ensures JustifiedGroup(a, Two(k, l), i) {
        assert JustifiedGroup(a, One(m), i);
        if a.NumberMod? {
          var x :| Lives(a, x, i) && Meets(One(m), x);
          assert Meets(Two(k, l), x);
        } else {
          AloneBrushes(a, k, l, m, i);
        }
      }
    }
  }

  lemma {:induction false} AloneBrushes(a: Algorithm, k: Key, l: Key, m: Key, i: int)
    requires Valid(a) && a.NumberRange? && Simplify(k, l) == Alone(m) && NumberRange.Brushes(a, m, i)
    requires k.op != NE && l.op != NE
    ensures NumberRange.Brushes(a, k, i) && NumberRange.Brushes(a, l, i)
  {
    if x :| Lives(a, x, i) && Meets(One(m), x) {
      assert Means(Alone(m), x);
      assert Meets(One(k), x) && Meets(One(l), x);
    } else {
      var x := a.ranges[i].to - 1;
      assert Lives(a, x, i);
      assert Meets(One(k), x) <==> Compares(k.op, x, k.value);
      assert Meets(One(l), x) <==> Compares(l.op, x, l.value);
    }
  }

  /** The tables for two comparisons of one column. */
  method ShardPair(a: Algorithm, k: Key, l: Key) returns (s: Shards)
    requires Valid(a) && k.column == l.column
    ensures s.Nil? <==> (k.op == NE && l.op != EQ) || Pinch(k, l)
    ensures DecidesPair(a, Two(k, l), s)
    ensures ExactKey(a, k) && ExactKey(a, l) && NoDup(a.tables) && !s.Nil? ==> Pinpoints(a, Two(k, l), s)
    // under ranges, two bounds list whatever lies between some locations of them
    ensures a.NumberRange? && OnColumn(a, k) && (Enclose(k, l) || Enclose(l, k)) ==> exists i, j ::
              && NumberRange.Located(a, if Lower(k) then k.value else l.value, i)
              && NumberRange.Located(a, if Lower(k) then l.value else k.value, j) && s == NumberRange.Span(i, j)
  {
    var p := Simplify(k, l);
    match p {
      case Impossible =>
        assert forall x :: !Means(p, x);
        return None;
      case Alone(m) =>
        var indices := ShardKey(a, m);
        s := Tables(indices);
        assert forall x :: Meets(One(m), x) <==> Means(p, x);
        AloneJustified(a, k, l, s);
      case Bounds(lower, upper) => s := ShardBounds(a, k, l, lower, upper);
      case Anything => return All;
      case Unanswered => return Nil;
    }
  }

  // ----- the keys of one junction -----

  /** The result `s` decides group `g` as well as the group allows. */
  ghost predicate Decides(a: Algorithm, g: Group, s: Shards)
    requires Valid(a)
  {
    && (if g.One? then s.Tables? && (PrunableGroup(a, g) ==> Keeps(a, g, s)) else DecidesPair(a, g, s))
    && ((forall k | k in Keys(g) :: ExactKey(a, k)) && NoDup(a.tables) && !s.Nil? ==> Pinpoints(a, g, s))
    && (s.Nil? <==> Unanswerable(g))
  }

  ghost predicate DecidesAll(a: Algorithm, gs: seq<Group>, result: seq<Shards>)
    requires Valid(a)
  {
    |gs| == |result| && forall j | 0 <= j < |result| :: Decides(a, gs[j], result[j])
  }

  /** Decides a lone key and appends the result. */
  method AddKey(a: Algorithm, k: Key, result: seq<Shards>, ghost gs: seq<Group>) returns (r: seq<Shards>)
    requires Valid(a) && DecidesAll(a, gs, result)
    ensures DecidesAll(a, gs + [One(k)], r)
  {
    var rlt := ShardKey(a, k);
    assert k in Keys(One(k));
    assert Decides(a, One(k), Tables(rlt));
    r := result + [Tables(rlt)];
  }

  /** Decides two keys of one column and appends the result. */
  method AddPair(a: Algorithm, k: Key, l: Key, result: seq<Shards>, ghost gs: seq<Group>) returns (r: seq<Shards>)
    requires Valid(a) && DecidesAll(a, gs, result) && k.column == l.column
    ensures DecidesAll(a, gs + [Two(k, l)], r)
  {
    var rlt := ShardPair(a, k, l);
    assert k in Keys(Two(k, l)) && l in Keys(Two(k, l));
    assert Decides(a, Two(k, l), rlt);
    r := result + [rlt];
  }

  /** Moves the next group from the keys still to be walked to the groups done. */
  lemma {:induction false} PairsStep(keys: seq<Key>, i: nat, done: seq<Group>)
    requires i < |keys|
    ensures i + 1 < |keys| && keys[i].column == keys[i + 1].column ==>
              done + Pairs(keys[i..]) == done + [Two(keys[i], keys[i + 1])] + Pairs(keys[i + 2..])
    ensures i + 1 < |keys| && keys[i].column != keys[i + 1].column ==>
              done + Pairs(keys[i..]) == done + [One(keys[i])] + Pairs(keys[i + 1..])
    ensures i + 1 == |keys| ==> done + Pairs(keys[i..]) == done + [One(keys[i])]
  {
    assert keys[i..][1..] == keys[i + 1..];
    if i + 1 < |keys| { assert keys[i..][2..] == keys[i + 2..]; }
  }

  /** Walks the sorted keys of a conjunction, deciding neighbours of one column together. */
  method ShardConjunction(a: Algorithm, keys: seq<Key>) returns (result: seq<Shards>)
    requires Valid(a) && |keys| > 1
    ensures DecidesAll(a, Pairs(keys), result)
  {
    result := [];
    ghost var groups: seq<Group> := [];
    var i := 0;
    assert keys[0..] == keys && groups + Pairs(keys) == Pairs(keys);
    while true
      invariant 0 <= i && i + 1 < |keys|
      invariant groups + Pairs(keys[i..]) == Pairs(keys)
      invariant DecidesAll(a, groups, result)
      decreases |keys| - i
    {
      var c1, c2 := keys[i], keys[i + 1];
      PairsStep(keys, i, groups);
      if c1.column != c2.column {
        result := AddKey(a, c1, result, groups);
        groups := groups + [One(c1)];
        i := i + 1;
      } else {
        result := AddPair(a, c1, c2, result, groups);
        groups := groups + [Two(c1, c2)];
        i := i + 2;
      }
      if i == |keys| {
        assert groups + Pairs(keys[i..]) == groups;
        break;
      }
      if i == |keys| - 1 {
        var ci := keys[i];
        PairsStep(keys, i, groups);
        result := AddKey(a, ci, result, groups);
        groups := groups + [One(ci)];
        break;
      }
    }
  }

  /** The result `d` stands for the disjunction of the keys; it is missing from the third key on. */
  ghost predicate KeyUnion(a: Algorithm, keys: seq<Key>, d: Shards)
    requires Valid(a)
  {
    && (if |keys| <= 2 then d.Tables? else d.Nil?)
    && ((forall k | k in keys :: PrunableGroup(a, One(k))) ==> forall k, i | k in keys && Admits(a, One(k), i) :: Covers(a, d, i))
    && (|keys| <= 2 && (forall k | k in keys :: ExactKey(a, k)) && NoDup(a.tables) ==>
          && Distinct(d) && (a.NumberMod? ==> InTables(a, d))
          && forall i | Covers(a, d, i) :: exists k | k in keys :: JustifiedGroup(a, One(k), i))
  }

  /** Joins the keys of a disjunction; from the third key on there is no condition left to join to. */
  method ShardDisjunction(a: Algorithm, keys: seq<Key>) returns (c: Shards)
    requires Valid(a) && |keys| > 1
    ensures KeyUnion(a, keys, c)
  {
    var x := ShardKey(a, keys[0]);
    var y := ShardKey(a, keys[1]);
    c := Join(a, Tables(x), Tables(y));
    assert keys[0] in keys && keys[1] in keys;
    assert forall i :: i in c.indices <==> Covers(a, Tables(x), i) || Covers(a, Tables(y), i);
    ghost var two := c;
    for i := 2 to |keys|
      invariant c == if i == 2 then two else Nil
    {
      var _ := ShardKey(a, keys[i]);
      c := Nil;
    }
  }

  // ----- whole conditions -----

  /** What a list of tables for a condition has to be. */
  ghost predicate Correct(a: Algorithm, c: Condition, r: Outcome)
    requires Valid(a)
  {
    && (r.Chosen? && Prunable(a, c) ==> forall i | Selected(a, c, i) :: i in r.indices)
    && (r.Chosen? && Exact(a, c) ==> NoDup(r.indices) && forall i | i in r.indices :: (a.NumberMod? ==> i in a.tables) && Justified(a, c, i))
    && (Combinable(a, c, true) ==> r.Chosen?) && (r.Chosen? ==> Combinable(a, c, false))
  }

  /** Sorts the members of a junction by kind, sharding the nested junctions on the way. */
  method Collect(a: Algorithm, c: Condition)
    returns (ok: bool, result: seq<Shards>, keyGroup: seq<Key>, trues: nat, falses: nat, ghost subs: seq<Condition>)
    requires Valid(a) && c.Complex?
    ensures !ok ==> !Combinable(a, c, true)
    ensures ok ==> keyGroup == KeysOf(c.members) && (trues > 0 <==> True in c.members) && (falses > 0 <==> False in c.members)
    ensures ok ==> forall m :: m in subs <==> m in c.members && m.Complex?
    ensures ok ==> AllCorrect(a, subs, result)
    decreases c, 0
  {
    var ms := c.members;
    ok, result, keyGroup, trues, falses, subs := true, [], [], 0, 0, [];
    for t := 0 to |ms|
      invariant keyGroup == KeysOf(ms[..t])
      invariant (trues > 0 <==> True in ms[..t]) && (falses > 0 <==> False in ms[..t])
      invariant forall m :: m in subs <==> m in ms[..t] && m.Complex?
      invariant AllCorrect(a, subs, result)
    {
      assert ms[..t + 1][..t] == ms[..t] && ms[..t + 1] == ms[..t] + [ms[t]];
      match ms[t] {
        case Complex(_, _) =>
          ok, result, subs := CollectJunction(a, ms[t], result, subs);
          if !ok { return; }
        case Single(k) => keyGroup := keyGroup + [k];
        case True => trues := trues + 1;
        case False => falses := falses + 1;
      }
    }
    assert ms[..|ms|] == ms;
  }

  /** Shards a nested junction and appends its list. */
  method CollectJunction(a: Algorithm, m: Condition, result: seq<Shards>, ghost subs: seq<Condition>)
    returns (ok: bool, more: seq<Shards>, ghost all: seq<Condition>)
    requires Valid(a) && m.Complex? && AllCorrect(a, subs, result)
    ensures !ok ==> !Combinable(a, m, true)
    ensures ok ==> all == subs + [m] && AllCorrect(a, all, more)
    decreases m, 2
  {
    var r := ShardComplex(a, m);
    if r.Panic? { return false, result, subs; }
    return true, result + [Tables(r.indices)], subs + [m];
  }

  ghost predicate AllCorrect(a: Algorithm, subs: seq<Condition>, result: seq<Shards>)
    requires Valid(a)
  {
    |subs| == |result| && forall j | 0 <= j < |subs| :: result[j].Tables? && Correct(a, subs[j], Chosen(result[j].indices))
  }

  /** Every missing result comes behind the constant that stands for no table. */
  predicate Settles(result: seq<Shards>) {
    forall j | 0 <= j < |result| && result[j].Nil? :: exists i | 0 <= i < j :: result[i].None?
  }

  lemma {:induction false} SettlesNext(result: seq<Shards>, t: nat)
    requires t < |result|
    ensures Settles(result[..t + 1]) <==> Settles(result[..t]) && (result[t].Nil? ==> None in result[..t])
    ensures Settles(result) ==> Settles(result[..t + 1])
    ensures None in result[..t + 1] <==> None in result[..t] || result[t].None?
    ensures Nil in result[..t + 1] <==> Nil in result[..t] || result[t].Nil?
  {
    var x, y := result[..t], result[..t + 1];
    assert forall i | 0 <= i < t :: x[i] == y[i] == result[i];
    assert y[t] == result[t];
  }

  /** Nothing is lost by the conjunction, and where all results are known tables nothing is added. */
  ghost predicate Combines(a: Algorithm, result: seq<Shards>, c: Shards) {
    && ((exists s | s in result :: Vacant(s)) && !c.Nil? ==> Vacant(c))
    && (forall i :: (forall s | s in result :: Covers(a, s, i)) ==> Covers(a, c, i))
    && ((forall s | s in result :: InTables(a, s)) ==> InTables(a, c))
    && ((forall s | s in result :: Distinct(s)) ==> Distinct(c))
    && (c.All? ==> forall s | s in result :: s.All?)
    && (!c.Nil? ==> forall i, s | Covers(a, c, i) && s in result :: Within(a, s, i))
  }

  /** `Meet` from the left; `!ok` is a call on a missing condition. */
  method MeetAll(a: Algorithm, result: seq<Shards>) returns (ok: bool, c: Shards)
    requires result != []
    ensures ok && !c.Nil? <==> Settles(result)
    ensures ok ==> Combines(a, result, c)
    ensures ok && !c.Nil? && Nil in result ==> c.None?
  {
    ok, c := true, result[0];
    assert result[..1] == [c];
    for t := 1 to |result|
      invariant !c.Nil? <==> Settles(result[..t])
      invariant c.None? <==> None in result[..t]
      invariant Nil in result[..t] ==> c.Nil? || c.None?
      invariant Combines(a, result[..t], c)
    {
      SettlesNext(result, t - 1);
      SettlesNext(result, t);
      if c.Nil? { ok := false; return; }
      c := MeetNext(a, result, t, c);
    }
    assert result[..|result|] == result;
  }

  method MeetNext(a: Algorithm, result: seq<Shards>, t: nat, c: Shards) returns (d: Shards)
    requires t < |result| && !c.Nil? && Combines(a, result[..t], c)
    ensures d.Nil? <==> result[t].Nil? && !c.None?
    ensures d.None? <==> c.None? || result[t].None?
    ensures Combines(a, result[..t + 1], d)
  {
    assert result[..t + 1] == result[..t] + [result[t]];
    d := Meet(a, c, result[t]);
  }

  /** `Join` from the left, where at most the last result can be missing. */
  method JoinAll(a: Algorithm, result: seq<Shards>) returns (c: Shards)
    requires result != [] && (forall s | s in result[..|result| - 1] :: s.Tables?)
    requires var last := result[|result| - 1]; last.Tables? || last.Nil?
    ensures if result[|result| - 1].Nil? then c.Nil? else c.Tables? && forall i :: Covers(a, c, i) <==> exists s | s in result :: Covers(a, s, i)
    ensures (forall s | s in result :: Distinct(s)) ==> Distinct(c)
  {
    c := result[0];
    if |result| > 1 { assert result[..|result| - 1][0] == result[0] && result[0].Tables?; }
    assert result[..1] == [c];
    for t := 1 to |result|
      invariant if result[t - 1].Nil? then c.Nil? && t == |result|
                else c.Tables? && forall i :: Covers(a, c, i) <==> exists s | s in result[..t] :: Covers(a, s, i)
      invariant (forall s | s in result :: Distinct(s)) ==> Distinct(c)
    {
      assert result[..t + 1] == result[..t] + [result[t]];
      assert result[t] in result && (t < |result| - 1 ==> result[t] in result[..|result| - 1]);
      c := Join(a, c, result[t]);
    }
    assert result[..|result|] == result;
  }

  lemma {:induction false} TwoKeys(c: Condition, x: Key, y: Key)
    requires c.Complex? && c.members == [Single(x), Single(y)] && x.column == y.column
    ensures Pairs(Sort(KeysOf(c.members))) == if Less(x, y) then [Two(x, y)] else [Two(y, x)]
  {
    KeysOfAppend([], Single(x));
    KeysOfAppend([Single(x)], Single(y));
    assert [Single(x), Single(y)] == [Single(x)] + [Single(y)] && [Single(x)] == [] + [Single(x)];
    assert KeysOf(c.members) == [x, y];
    assert [y][1..] == [] && Sort([y]) == Insert(y, []) == [y];
    assert [x, y][1..] == [y] && Sort([x, y]) == Insert(x, [y]);
    assert Insert(x, [y]) == if Less(x, y) then [x] + [y] else [y] + Insert(x, []);
    assert Pairs([x, y][2..]) == [] && Pairs([y, x][2..]) == [];
  }

  /** Two comparisons of one column have a result exactly when the table answers them in their sorted order. */
  lemma {:induction false} PairCombinable(a: Algorithm, x: Key, y: Key, always: bool)
    requires x.column == y.column
    ensures Combinable(a, Complex(Conj, [Single(x), Single(y)]), always) <==>
            !Unanswerable(if Less(x, y) then Two(x, y) else Two(y, x))
  {
    var c, g := Complex(Conj, [Single(x), Single(y)]), if Less(x, y) then Two(x, y) else Two(y, x);
    TwoKeys(c, x, y);
    assert c.members[0] in c.members && HasParts(c.members);
    assert Settled(a, [g], always) <==> !Unanswerable([g][0]);
  }

  /** `BETWEEN` cannot be sharded exactly when both bounds are the same. */
  lemma {:induction false} RangePanics(a: Algorithm, column: string, lo: int, hi: int, always: bool)
    ensures Combinable(a, Complex(Conj, [Single(Key(column, GE, lo)), Single(Key(column, LE, hi))]), always) <==> lo != hi
  {
    var k, l := Key(column, GE, lo), Key(column, LE, hi);
    OperatorsFirst(k, l);
    PairCombinable(a, k, l, always);
  }

  /** A junction offers nothing to combine exactly when it has neither keys nor nested junctions. */
  lemma {:induction false} PartsPresent(c: Condition, subs: seq<Condition>)
    requires c.Complex? && forall m :: m in subs <==> m in c.members && m.Complex?
    ensures (subs == [] && KeysOf(c.members) == []) <==> forall m | m in c.members :: !m.Single? && !m.Complex?
    ensures (forall m | m in c.members :: !m.Complex?) ==> subs == []
  {
    if subs != [] { assert subs[0] in subs; }
    var keys := KeysOf(c.members);
    if keys != [] { KeysOfMembers(c.members, keys[0]); }
    forall m | m in c.members && m.Single? ensures keys != [] { KeysOfMembers(c.members, m.key); }
  }

  lemma {:induction false} NestedCombinable(a: Algorithm, c: Condition, subs: seq<Condition>, nested: seq<Shards>)
    requires Valid(a) && c.Complex? && (forall m :: m in subs <==> m in c.members && m.Complex?) && AllCorrect(a, subs, nested)
    ensures forall m | m in c.members :: Combinable(a, m, false)
  {
    forall m | m in c.members && m.Complex? ensures Combinable(a, m, false) {
      var j :| 0 <= j < |subs| && subs[j] == m;
    }
  }

  /** Every part of a conjunction's result is a nested junction's list or decides a group of keys. */
  ghost predicate ConjunctionParts(a: Algorithm, c: Condition, subs: seq<Condition>, groups: seq<Group>,
                                   nested: seq<Shards>, direct: seq<Shards>)
    requires Valid(a)
  {
    && c.Complex? && c.junction == Conj
    && (forall m :: m in subs <==> m in c.members && m.Complex?)
    && groups == Pairs(Sort(KeysOf(c.members)))
    && AllCorrect(a, subs, nested)
    && DecidesAll(a, groups, direct)
  }

  lemma {:induction false} ConjunctionKeeps(a: Algorithm, c: Condition, subs: seq<Condition>, groups: seq<Group>,
      nested: seq<Shards>, direct: seq<Shards>, i: int)
    requires Valid(a) && ConjunctionParts(a, c, subs, groups, nested, direct) && Prunable(a, c) && Selected(a, c, i)
    ensures forall s | s in nested + direct :: Covers(a, s, i)
  {
    forall j | 0 <= j < |nested| ensures Covers(a, nested[j], i) {
      assert subs[j] in subs;
    }
    forall j | 0 <= j < |direct| ensures Covers(a, direct[j], i) {
      assert groups[j] in groups;
    }
  }

  /** Which groups are missing and which vanish. */
  ghost predicate Answers(a: Algorithm, groups: seq<Group>, direct: seq<Shards>) {
    |groups| == |direct| && forall j | 0 <= j < |direct| ::
      && (direct[j].Nil? <==> Unanswerable(groups[j]))
      && (Vanishes(a, groups[j], true) ==> direct[j].None?)
      && (direct[j].None? ==> Vanishes(a, groups[j], false))
  }

  lemma {:induction false} DecidedIsAnswered(a: Algorithm, groups: seq<Group>, direct: seq<Shards>)
    requires Valid(a) && DecidesAll(a, groups, direct)
    ensures Answers(a, groups, direct)
  {
    forall j | 0 <= j < |direct|
      ensures direct[j].Nil? <==> Unanswerable(groups[j])
      ensures (Vanishes(a, groups[j], true) ==> direct[j].None?) && (direct[j].None? ==> Vanishes(a, groups[j], false))
    {
      assert Decides(a, groups[j], direct[j]);
    }
  }

  lemma {:induction false} SettledSettles(a: Algorithm, groups: seq<Group>, nested: seq<Shards>, direct: seq<Shards>)
    requires Answers(a, groups, direct) && (forall i | 0 <= i < |nested| :: nested[i].Tables?) && Settled(a, groups, true)
    ensures Settles(nested + direct)
  {
    var all, n := nested + direct, |nested|;
    assert forall i | 0 <= i < n :: all[i] == nested[i];
    forall j | 0 <= j < |all| && all[j].Nil? ensures exists i | 0 <= i < j :: all[i].None? {
      assert all[j] == direct[j - n];
      var i :| 0 <= i < j - n && Vanishes(a, groups[i], true);
      assert all[n + i] == direct[i];
    }
  }

  lemma {:induction false} SettlesSettled(a: Algorithm, groups: seq<Group>, nested: seq<Shards>, direct: seq<Shards>)
    requires Answers(a, groups, direct) && (forall i | 0 <= i < |nested| :: nested[i].Tables?) && Settles(nested + direct)
    ensures Settled(a, groups, false)
  {
    var all, n := nested + direct, |nested|;
    assert forall i | 0 <= i < n :: all[i] == nested[i];
    forall j | 0 <= j < |groups| && Unanswerable(groups[j]) ensures exists i | 0 <= i < j :: Vanishes(a, groups[i], false) {
      assert all[n + j] == direct[j];
      var i :| 0 <= i < n + j && all[i].None?;
      assert all[i] == direct[i - n] && Vanishes(a, groups[i - n], false);
    }
  }

  lemma {:induction false} ConjunctionSettles(a: Algorithm, c: Condition, subs: seq<Condition>, groups: seq<Group>,
      nested: seq<Shards>, direct: seq<Shards>)
    requires Valid(a) && ConjunctionParts(a, c, subs, groups, nested, direct)
    ensures Settled(a, groups, true) ==> Settles(nested + direct)
    ensures Settles(nested + direct) ==> Settled(a, groups, false)
  {
    DecidedIsAnswered(a, groups, direct);
    if Settled(a, groups, true) { SettledSettles(a, groups, nested, direct); }
    if Settles(nested + direct) { SettlesSettled(a, groups, nested, direct); }
  }

  lemma {:induction false} GroupsPresent(c: Condition, subs: seq<Condition>, groups: seq<Group>)
    requires c.Complex? && (forall m :: m in subs <==> m in c.members && m.Complex?) && groups == Pairs(Sort(KeysOf(c.members)))
    ensures |subs| + |groups| > 0 <==> HasParts(c.members)
  {
    PartsPresent(c, subs);
    SortMembers(KeysOf(c.members));
    PairsPartition(Sort(KeysOf(c.members)));
    assert groups == [] ==> Flatten(groups) == [];
  }

  lemma {:induction false} ConjunctionCombinable(a: Algorithm, c: Condition, subs: seq<Condition>, groups: seq<Group>,
      nested: seq<Shards>, direct: seq<Shards>)
    requires Valid(a) && ConjunctionParts(a, c, subs, groups, nested, direct) && False !in c.members
    ensures Combinable(a, c, true) ==> nested + direct != [] && Settles(nested + direct)
    ensures nested + direct != [] && Settles(nested + direct) ==> Combinable(a, c, false)
  {
    NestedCombinable(a, c, subs, nested);
    assert |nested| == |subs| && |direct| == |groups|;
    GroupsPresent(c, subs, groups);
    ConjunctionSettles(a, c, subs, groups, nested, direct);
  }

  lemma {:induction false} NestedPinpoints(a: Algorithm, c: Condition, subs: seq<Condition>, groups: seq<Group>,
      nested: seq<Shards>, direct: seq<Shards>, j: nat)
    requires Valid(a) && ConjunctionParts(a, c, subs, groups, nested, direct) && Exact(a, c) && j < |nested|
    ensures (a.NumberMod? ==> InTables(a, nested[j])) && Distinct(nested[j])
    ensures forall i | Covers(a, nested[j], i) :: Justified(a, subs[j], i)
  {
    assert subs[j] in subs;
  }

  lemma {:induction false} DirectPinpoints(a: Algorithm, c: Condition, subs: seq<Condition>, groups: seq<Group>,
      nested: seq<Shards>, direct: seq<Shards>, j: nat)
    requires Valid(a) && ConjunctionParts(a, c, subs, groups, nested, direct) && Exact(a, c) && j < |direct| && !direct[j].Nil?
    ensures Pinpoints(a, groups[j], direct[j])
  {
    assert groups[j] in groups && Decides(a, groups[j], direct[j]);
    GroupMembers(c.members, groups[j]);
    forall k | k in Keys(groups[j]) ensures ExactKey(a, k) { assert Exact(a, Single(k)); }
  }

  lemma {:induction false} ConjunctionInTables(a: Algorithm, c: Condition, subs: seq<Condition>, groups: seq<Group>,
      nested: seq<Shards>, direct: seq<Shards>)
    requires Valid(a) && ConjunctionParts(a, c, subs, groups, nested, direct) && Exact(a, c) && Nil !in nested + direct
    ensures forall s | s in nested + direct :: (a.NumberMod? ==> InTables(a, s)) && Distinct(s)
  {
    forall s | s in nested + direct ensures (a.NumberMod? ==> InTables(a, s)) && Distinct(s) {
      if s in nested {
        var j :| 0 <= j < |nested| && nested[j] == s;
        NestedPinpoints(a, c, subs, groups, nested, direct, j);
      } else {
        var j :| 0 <= j < |direct| && direct[j] == s;
        DirectPinpoints(a, c, subs, groups, nested, direct, j);
      }
    }
  }

  lemma {:induction false} ConjunctionJustifies(a: Algorithm, c: Condition, subs: seq<Condition>, groups: seq<Group>,
      nested: seq<Shards>, direct: seq<Shards>, i: int)
    requires Valid(a) && ConjunctionParts(a, c, subs, groups, nested, direct) && Exact(a, c) && Nil !in nested + direct
    requires False !in c.members && (a.NumberMod? ==> i in a.tables)
    requires forall s | s in nested + direct :: Within(a, s, i)
    ensures Justified(a, c, i)
  {
    forall m | m in c.members && m.Complex? ensures Justified(a, m, i) {
      var j :| 0 <= j < |subs| && subs[j] == m;
      NestedPinpoints(a, c, subs, groups, nested, direct, j);
      assert nested[j] in nested + direct;
    }
    forall g | g in groups ensures JustifiedGroup(a, g, i) {
      var j :| 0 <= j < |groups| && groups[j] == g;
      assert direct[j] in nested + direct;
      DirectPinpoints(a, c, subs, groups, nested, direct, j);
    }
  }

  /** Some group of the conjunction's own keys is an upper bound with a smaller value excluded. */
  ghost predicate HasExclusion(a: Algorithm, c: Condition) {
    c.Complex? && c.junction == Conj && exists g | g in Pairs(Sort(KeysOf(c.members))) :: Excluding(a, g)
  }

  lemma {:induction false} ExclusionIsVacant(a: Algorithm, c: Condition, subs: seq<Condition>, groups: seq<Group>,
      nested: seq<Shards>, direct: seq<Shards>)
    requires Valid(a) && ConjunctionParts(a, c, subs, groups, nested, direct) && HasExclusion(a, c)
    ensures exists s | s in nested + direct :: Vacant(s)
  {
    var g :| g in groups && Excluding(a, g);
    var j :| 0 <= j < |groups| && groups[j] == g;
    assert Decides(a, g, direct[j]) && direct[j] in nested + direct;
  }

  /** The keys of a conjunction, however many there are. */
  method DecideConjunction(a: Algorithm, keys: seq<Key>) returns (direct: seq<Shards>)
    requires Valid(a)
    ensures DecidesAll(a, Pairs(keys), direct)
  {
    if |keys| > 1 {
      direct := ShardConjunction(a, keys);
    } else if |keys| == 1 {
      direct := AddKey(a, keys[0], [], []);
      assert keys[1..] == [] && Pairs(keys) == [One(keys[0])] + Pairs(keys[1..]);
      assert [] + [One(keys[0])] == Pairs(keys);
    } else {
      direct := [];
    }
  }

  /** Meets all parts of a conjunction and turns the result into a list of tables. */
  method ConcludeConjunction(a: Algorithm, c: Condition, nested: seq<Shards>, direct: seq<Shards>,
                             ghost subs: seq<Condition>, ghost groups: seq<Group>)
    returns (r: Outcome)
    requires Valid(a) && ConjunctionParts(a, c, subs, groups, nested, direct) && nested + direct != [] && False !in c.members
    ensures r.Chosen? && Prunable(a, c) ==> forall i | Selected(a, c, i) :: i in r.indices
    ensures r.Chosen? && Exact(a, c) ==> NoDup(r.indices) && forall i | i in r.indices :: (a.NumberMod? ==> i in a.tables) && Justified(a, c, i)
    ensures r.Chosen? <==> Settles(nested + direct)
    ensures HasExclusion(a, c) && r.Chosen? ==> r.indices == []
  {
    var ok, d := MeetAll(a, nested + direct);
    if !ok || d.Nil? { return Panic; }
    r := Chosen(match d case All => a.tables case None => [] case Tables(t) => t);
    assert forall i :: i in r.indices <==> Covers(a, d, i);
    forall i | Selected(a, c, i) && Prunable(a, c) ensures i in r.indices {
      ConjunctionKeeps(a, c, subs, groups, nested, direct, i);
    }
    if HasExclusion(a, c) { ExclusionIsVacant(a, c, subs, groups, nested, direct); }
    if Exact(a, c) && Nil !in nested + direct {
      ConjunctionInTables(a, c, subs, groups, nested, direct);
      forall i | i in r.indices ensures (a.NumberMod? ==> i in a.tables) && Justified(a, c, i) {
        ConjunctionJustifies(a, c, subs, groups, nested, direct, i);
      }
    }
  }

  method FinishConjunction(a: Algorithm, c: Condition, nested: seq<Shards>, keyGroup: seq<Key>, falses: nat,
                           ghost subs: seq<Condition>)
    returns (r: Outcome)
    requires Valid(a) && c.Complex? && c.junction == Conj
    requires keyGroup == KeysOf(c.members) && (falses > 0 <==> False in c.members)
    requires forall m :: m in subs <==> m in c.members && m.Complex?
    requires AllCorrect(a, subs, nested)
    ensures Correct(a, c, r)
    ensures HasExclusion(a, c) && r.Chosen? ==> r.indices == []
  {
    if falses > 0 {
      NestedCombinable(a, c, subs, nested);
      assert forall i :: !Selected(a, False, i);
      return Chosen([]);
    }
    var keys := Sort(keyGroup);
    var direct := DecideConjunction(a, keys);
    ghost var groups := Pairs(keys);
    ConjunctionCombinable(a, c, subs, groups, nested, direct);
    if nested + direct == [] { return Panic; }
    r := ConcludeConjunction(a, c, nested, direct, subs, groups);
  }

  lemma {:induction false} SelectedIsInhabited(a: Algorithm, c: Condition, i: int)
    requires Selected(a, c, i)
    ensures Inhabited(a, i)
  {
    match c {
      case Single(k) =>
        if OnColumn(a, k) {
          var x :| Lives(a, x, i) && Meets(One(k), x);
        }
      case Complex(Disj, ms) =>
        var m :| m in ms && Selected(a, m, i);
        SelectedIsInhabited(a, m, i);
      case _ =>
    }
  }

  ghost predicate DisjunctionParts(a: Algorithm, c: Condition, subs: seq<Condition>, nested: seq<Shards>,
                                   direct: seq<Shards>)
    requires Valid(a)
  {
    && c.Complex? && c.junction == Disj && True !in c.members
    && (forall m :: m in subs <==> m in c.members && m.Complex?)
    && AllCorrect(a, subs, nested)
    && var keys := Sort(KeysOf(c.members));
       if keys == [] then direct == [] else |direct| == 1 && KeyUnion(a, keys, direct[0])
  }

  lemma {:induction false} DisjunctionKeeps(a: Algorithm, c: Condition, subs: seq<Condition>, nested: seq<Shards>,
      direct: seq<Shards>, i: int)
    requires Valid(a) && DisjunctionParts(a, c, subs, nested, direct) && Prunable(a, c) && Selected(a, c, i)
    ensures exists s | s in nested + direct :: Covers(a, s, i)
  {
    var keys, all := KeysOf(c.members), nested + direct;
    var m :| m in c.members && Selected(a, m, i);
    if m.Complex? {
      var j :| 0 <= j < |subs| && subs[j] == m;
      assert all[j] == nested[j] && Covers(a, all[j], i);
    } else if m.Single? {
      SortMembers(keys);
      KeysOfMembers(c.members, m.key);
      forall k | k in Sort(keys) ensures PrunableGroup(a, One(k)) {
        KeysOfMembers(c.members, k);
        assert Prunable(a, Single(k));
      }
      assert all[|nested|] == direct[0] && Covers(a, direct[0], i);
    }
  }

  lemma {:induction false} DisjunctionPinpoints(a: Algorithm, c: Condition, subs: seq<Condition>, nested: seq<Shards>,
      direct: seq<Shards>)
    requires Valid(a) && DisjunctionParts(a, c, subs, nested, direct) && Exact(a, c)
    requires |KeysOf(c.members)| <= 2
    ensures forall s | s in nested + direct :: (a.NumberMod? ==> InTables(a, s)) && Distinct(s)
    ensures forall i, s | s in nested + direct && Covers(a, s, i) :: Justified(a, c, i)
  {
    var keys := Sort(KeysOf(c.members));
    SortMembers(KeysOf(c.members));
    forall j | 0 <= j < |nested|
      ensures (a.NumberMod? ==> InTables(a, nested[j])) && Distinct(nested[j])
      ensures forall i | Covers(a, nested[j], i) :: Justified(a, c, i)
    {
      assert subs[j] in subs;
    }
    if keys != [] {
      forall k | k in keys ensures ExactKey(a, k) && Single(k) in c.members {
        KeysOfMembers(c.members, k);
        assert Exact(a, Single(k));
      }
      forall i | Covers(a, direct[0], i) ensures Justified(a, c, i) {
        var k :| k in keys && JustifiedGroup(a, One(k), i);
        assert Justified(a, Single(k), i);
      }
    }
  }

  /** The keys of a disjunction, however many there are. */
  method DecideDisjunction(a: Algorithm, keys: seq<Key>) returns (direct: seq<Shards>)
    requires Valid(a)
    ensures if keys == [] then direct == [] else |direct| == 1 && KeyUnion(a, keys, direct[0])
  {
    if |keys| > 1 {
      var d := ShardDisjunction(a, keys);
      direct := [d];
    } else if |keys| == 1 {
      var indices := ShardKey(a, keys[0]);
      direct := [Tables(indices)];
      assert keys[0] in keys;
    } else {
      direct := [];
    }
  }

  /** Joins all parts of a disjunction. */
  method ConcludeDisjunction(a: Algorithm, c: Condition, nested: seq<Shards>, direct: seq<Shards>,
                             ghost subs: seq<Condition>)
    returns (r: Outcome)
    requires Valid(a) && DisjunctionParts(a, c, subs, nested, direct) && nested + direct != []
    ensures r.Chosen? && Prunable(a, c) ==> forall i | Selected(a, c, i) :: i in r.indices
    ensures r.Chosen? && Exact(a, c) ==> NoDup(r.indices) && forall i | i in r.indices :: (a.NumberMod? ==> i in a.tables) && Justified(a, c, i)
    ensures r.Chosen? <==> |KeysOf(c.members)| <= 2
  {
    SortMembers(KeysOf(c.members));
    var result := nested + direct;
    assert direct == [] ==> result == nested;
    assert direct != [] ==> result[..|result| - 1] == nested;
    var d := JoinAll(a, result);
    if d.Nil? { return Panic; }
    r := Chosen(d.indices);
    assert forall i :: i in r.indices <==> Covers(a, d, i);
    forall i | Selected(a, c, i) && Prunable(a, c) ensures i in r.indices {
      DisjunctionKeeps(a, c, subs, nested, direct, i);
    }
    if Exact(a, c) { DisjunctionPinpoints(a, c, subs, nested, direct); }
  }

  lemma {:induction false} TrueSelectsAll(a: Algorithm, c: Condition)
    requires Valid(a) && c.Complex? && c.junction == Disj && True in c.members
    ensures forall i | Selected(a, c, i) :: i in a.tables
    ensures forall i | i in a.tables :: Justified(a, c, i)
  {
    forall i | Selected(a, c, i) ensures i in a.tables { SelectedIsInhabited(a, c, i); }
    forall i | i in a.tables ensures Justified(a, c, i) { assert Justified(a, True, i); }
  }

  method FinishDisjunction(a: Algorithm, c: Condition, nested: seq<Shards>, keyGroup: seq<Key>, trues: nat,
                           ghost subs: seq<Condition>)
    returns (r: Outcome)
    requires Valid(a) && c.Complex? && c.junction == Disj
    requires keyGroup == KeysOf(c.members) && (trues > 0 <==> True in c.members)
    requires forall m :: m in subs <==> m in c.members && m.Complex?
    requires AllCorrect(a, subs, nested)
    ensures Correct(a, c, r)
  {
    NestedCombinable(a, c, subs, nested);
    if trues > 0 {
      TrueSelectsAll(a, c);
      return Chosen(a.tables);
    }
    var keys := Sort(keyGroup);
    var direct := DecideDisjunction(a, keys);
    PartsPresent(c, subs);
    SortMembers(keyGroup);
    if nested + direct == [] { return Panic; }
    r := ConcludeDisjunction(a, c, nested, direct, subs);
  }

  method ShardComplex(a: Algorithm, c: Condition) returns (r: Outcome)
    requires Valid(a) && c.Complex?
    ensures Correct(a, c, r)
    ensures HasExclusion(a, c) && r.Chosen? ==> r.indices == []
    decreases c, 1
  {
    var ok, result, keyGroup, trues, falses, subs := Collect(a, c);
    if !ok { return Panic; }
    match c.junction {
      case Conj => r := FinishConjunction(a, c, result, keyGroup, falses, subs);
      case Disj => r := FinishDisjunction(a, c, result, keyGroup, trues, subs);
    }
  }

  /** The tables to visit for a condition. */
  method Shard(a: Algorithm, c: Condition) returns (r: Outcome)
    requires Valid(a)
    // no row that satisfies the condition is stored in a table left out
    ensures r.Chosen? && Prunable(a, c) ==> forall row, i | Satisfies(c, row) && Home(a, row, i) :: i in r.indices
    // every table is left out, whatever rows there are
    ensures r.Chosen? && HasExclusion(a, c) ==> r.indices == []
    // every table listed is justified, none is listed twice
    ensures r.Chosen? && Exact(a, c) ==> NoDup(r.indices) && forall i | i in r.indices :: Justified(a, c, i)
    // under modulo, with comparisons of the sharding column only, exactly the selected tables
    ensures r.Chosen? && Exact(a, c) && a.NumberMod? && Sole(a, c) ==> forall i :: i in r.indices <==> Selected(a, c, i)
    // there is a result exactly when all junctions can be combined, which under ranges may depend on their order
    ensures a.NumberMod? ==> (r.Chosen? <==> Combinable(a, c, true))
    ensures (Combinable(a, c, true) ==> r.Chosen?) && (r.Chosen? ==> Combinable(a, c, false))
  {
    match c {
      case Single(k) =>
        var indices := ShardKey(a, k);
        r := Chosen(indices);
        assert forall i :: Covers(a, Tables(indices), i) <==> i in indices;
      case Complex(_, _) => r := ShardComplex(a, c);
      case True => r := Chosen(a.tables);
      case False => r := Chosen([]);
    }
    if a.NumberMod? { OneOrder(a, c); }
    if r.Chosen? { Conclude(a, c, r); }
  }

  /** What a correct list means for rows and, under modulo, for the selected tables. */
  lemma {:induction false} Conclude(a: Algorithm, c: Condition, r: Outcome)
    requires Valid(a) && r.Chosen? && Correct(a, c, r)
    ensures Prunable(a, c) ==> forall row, i | Satisfies(c, row) && Home(a, row, i) :: i in r.indices
    ensures Exact(a, c) && a.NumberMod? && Sole(a, c) ==> forall i :: i in r.indices <==> Selected(a, c, i)
  {
    if Prunable(a, c) {
      forall row, i | Satisfies(c, row) && Home(a, row, i) ensures i in r.indices {
        RowIsSelected(a, c, row, i);
      }
    }
    if Exact(a, c) && a.NumberMod? && Sole(a, c) {
      ExactIsPrunable(a, c);
      forall i | i in r.indices ensures Selected(a, c, i) { JustifiedIsSelected(a, c, i); }
    }
  }

  /** The members of `column IN (values)`. */
  function Listing(column: string, values: seq<int>): seq<Condition> {
    seq(|values|, i requires 0 <= i < |values| => Single(Key(column, EQ, values[i])))
  }

  lemma {:induction false} KeysCounted(ms: seq<Condition>)
    requires forall i | 0 <= i < |ms| :: ms[i].Single?
    ensures |KeysOf(ms)| == |ms|
  {
    if ms != [] { KeysCounted(ms[..|ms| - 1]); }
  }

  /** On any column, a list can be sharded exactly when it has one or two values. */
  lemma {:induction false} ListPanics(a: Algorithm, column: string, values: seq<int>, always: bool)
    ensures Combinable(a, Complex(Disj, Listing(column, values)), always) <==> 1 <= |values| <= 2
  {
    var ms := Listing(column, values);
    KeysCounted(ms);
    assert values != [] ==> ms[0] in ms;
  }

  /** `a < 10 AND a <> 3` leaves out every table, although a row with 5 is stored in one of them. */
  lemma {:induction false} ExclusionLosesRow(a: Algorithm)
    requires Valid(a) && a.NumberMod?
    ensures var c := Complex(Conj, [Single(Key(a.column, LT, 10)), Single(Key(a.column, NE, 3))]);
            var row := map[Fold(a.column) := 5];
            HasExclusion(a, c) && Combinable(a, c, true) && Satisfies(c, row) && Home(a, row, 5 % |a.tables|)
  {
    var k, l := Key(a.column, LT, 10), Key(a.column, NE, 3);
    var c := Complex(Conj, [Single(k), Single(l)]);
    OperatorsFirst(k, l);
    TwoKeys(c, k, l);
    assert Two(k, l) in Pairs(Sort(KeysOf(c.members))) && Excluding(a, Two(k, l));
    assert Single(k) in c.members;
  }

  lemma {:induction false} KeysOfAppend(ms: seq<Condition>, m: Condition)
    ensures KeysOf(ms + [m]) == KeysOf(ms) + if m.Single? then [m.key] else []
  {
    assert (ms + [m])[..|ms|] == ms;
  }
}
