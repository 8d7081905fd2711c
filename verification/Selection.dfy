/** From a WHERE clause to the tables that are queried. */
module Selection {
  import opened Conditions
  import opened Algorithms
  import opened Lists
  import NumberRange
  import A = ConditionAlgebra
  import ConditionHeap
  import opened WhereClause
  import Sharding

  // ----- normal forms as conditions -----

  function Singles(ks: seq<Key>): (r: seq<Condition>)
    ensures |r| == |ks| && forall i | 0 <= i < |ks| :: r[i] == Single(ks[i])
  {
    if ks == [] then [] else Singles(ks[..|ks| - 1]) + [Single(ks[|ks| - 1])]
  }

  function OfAtom(a: A.Atom): Condition {
    match a case KeyAtom(k) => Single(k) case ConjAtom(ks) => Complex(Conj, Singles(ks))
  }

  function OfAtoms(atoms: seq<A.Atom>): (r: seq<Condition>)
    ensures |r| == |atoms| && forall i | 0 <= i < |atoms| :: r[i] == OfAtom(atoms[i])
  {
    if atoms == [] then [] else OfAtoms(atoms[..|atoms| - 1]) + [OfAtom(atoms[|atoms| - 1])]
  }

  function ToCondition(c: A.Dnf): Condition
    requires !c.Missing?
  {
    match c
    case OfKey(k) => Single(k)
    case OfConj(ks) => Complex(Conj, Singles(ks))
    case OfDisj(atoms) => Complex(Disj, OfAtoms(atoms))
    case Yes => True
    case No => False
  }

  lemma {:induction false} SinglesMean(ks: seq<Key>, row: Row)
    ensures Satisfies(Complex(Conj, Singles(ks)), row) <==> A.All(HoldsIn(row), ks)
  {
    var ms := Singles(ks);
    if A.All(HoldsIn(row), ks) {
      forall m | m in ms ensures Satisfies(m, row) {
        var i :| 0 <= i < |ms| && ms[i] == m;
        assert ks[i] in ks;
      }
    }
    if Satisfies(Complex(Conj, ms), row) {
      forall k | k in ks ensures HoldsIn(row)(k) {
        var i :| 0 <= i < |ks| && ks[i] == k;
        assert ms[i] in ms && Satisfies(ms[i], row);
      }
    }
  }

  lemma {:induction false} AtomMeans(a: A.Atom, row: Row)
    ensures Satisfies(OfAtom(a), row) <==> A.AtomHolds(HoldsIn(row), a)
  {
    if a.ConjAtom? {
      SinglesMean(a.keys, row);
    }
  }

  lemma {:induction false} AtomsMean(atoms: seq<A.Atom>, row: Row)
    ensures Satisfies(Complex(Disj, OfAtoms(atoms)), row) <==> A.Any(HoldsIn(row), atoms)
  {
    var ms := OfAtoms(atoms);
    if Satisfies(Complex(Disj, ms), row) {
      var m :| m in ms && Satisfies(m, row);
      var i :| 0 <= i < |ms| && ms[i] == m;
      AtomMeans(atoms[i], row);
      assert atoms[i] in atoms;
    }
    if A.Any(HoldsIn(row), atoms) {
      var a :| a in atoms && A.AtomHolds(HoldsIn(row), a);
      var i :| 0 <= i < |atoms| && atoms[i] == a;
      AtomMeans(a, row);
      assert ms[i] in ms && Satisfies(ms[i], row);
    }
  }

  lemma {:induction false} ToConditionMeans(c: A.Dnf, row: Row)
    requires !c.Missing?
    ensures Satisfies(ToCondition(c), row) <==> A.Means(HoldsIn(row), c)
  {
    match c {
      case OfConj(ks) => SinglesMean(ks, row);
      case OfDisj(atoms) => AtomsMean(atoms, row);
      case _ =>
    }
  }

  // ----- reading the objects -----

  method SinglesOf(ks: seq<Key>) returns (r: seq<Condition>)
    ensures r == Singles(ks)
  {
    r := [];
    for i := 0 to |ks|
      invariant r == Singles(ks[..i])
    {
      assert ks[..i + 1][..i] == ks[..i];
      r := r + [Single(ks[i])];
    }
    assert ks[..|ks|] == ks;
  }

  /** The condition that the objects stand for. */
  method Snapshot(c: ConditionHeap.Cond, ghost v: A.Dnf) returns (r: Condition)
    requires ConditionHeap.Is(c, v) && !c.Nil?
    ensures r == ToCondition(v)
  {
    match c {
      case K(k) => r := Single(k);
      case C(n) =>
        var ms := SinglesOf(n.keys);
        r := Complex(Conj, ms);
      case D(n) =>
        var ms: seq<Condition> := [];
        for i := 0 to |n.members|
          invariant ms == OfAtoms(v.atoms[..i])
        {
          assert v.atoms[..i + 1][..i] == v.atoms[..i];
          assert ConditionHeap.ShowsOne(n.members[i], v.atoms[i]);
          match n.members[i] {
            case KeyMember(k) => ms := ms + [Single(k)];
            case ConjMember(m) =>
              var ks := SinglesOf(m.keys);
              ms := ms + [Complex(Conj, ks)];
          }
        }
        assert v.atoms[..|v.atoms|] == v.atoms;
        r := Complex(Disj, ms);
      case T => r := True;
      case F => r := False;
    }
  }

  // ----- which clauses may be used to leave tables out -----

  /** Not `<>`; and with ranges, no upper bound outside every range or inclusive where two ranges meet. */
  ghost predicate SafeKey(a: Algorithm, k: Key) {
    && k.op != NE
    && (a.NumberRange? && OnColumn(a, k) && k.op in {LT, LE} ==>
          NumberRange.Spanned(a, k.value) && !(k.op == LE && NumberRange.Boundary(a, k.value)))
  }

  ghost function IsSafe(a: Algorithm): Key -> bool {
    k => SafeKey(a, k)
  }

  /** Every comparison of the clause loses no row, whatever it is paired with. */
  ghost predicate Usable(a: Algorithm, e: Expr) {
    match e
    case AndExpr(l, r) => Usable(a, l) && Usable(a, r)
    case OrExpr(l, r) => Usable(a, l) && Usable(a, r)
    case _ => A.AllOf(IsSafe(a), Leaf(e))
  }

  lemma {:induction false} ParsedKeys(a: Algorithm, e: Expr)
    requires Usable(a, e) && Parsed(e).Some?
    ensures A.AllOf(IsSafe(a), Parsed(e).value)
  {
    if e.AndExpr? || e.OrExpr? {
      ParsedKeys(a, e.left);
      ParsedKeys(a, e.right);
      A.ResultKeys(IsSafe(a), Parsed(e.left).value, Parsed(e.right).value);
    }
  }

  lemma {:induction false} SafeGroup(a: Algorithm, g: Group)
    requires Valid(a) && (forall k | k in Keys(g) :: SafeKey(a, k)) && (g.Two? ==> g.first.column == g.second.column)
    ensures Sharding.PrunableGroup(a, g)
  {
    assert SafeKey(a, Keys(g)[0]) && SafeKey(a, Keys(g)[|Keys(g)| - 1]);
  }

  lemma {:induction false} SinglesPrunable(a: Algorithm, ks: seq<Key>)
    requires Valid(a) && A.All(IsSafe(a), ks)
    ensures Sharding.Prunable(a, Complex(Conj, Singles(ks)))
  {
    var ms := Singles(ks);
    forall g | g in Sharding.Pairs(Sort(Sharding.KeysOf(ms))) ensures Sharding.PrunableGroup(a, g) {
      Sharding.GroupMembers(ms, g);
      forall k | k in Keys(g) ensures SafeKey(a, k) {
        var i :| 0 <= i < |ks| && ms[i] == Single(k);
        assert IsSafe(a)(ks[i]);
      }
      SafeGroup(a, g);
    }
  }

  lemma {:induction false} AtomPrunable(a: Algorithm, x: A.Atom)
    requires Valid(a) && A.All(IsSafe(a), A.KeysIn(x))
    ensures Sharding.Prunable(a, OfAtom(x))
  {
    if x.KeyAtom? {
      assert x.key in A.KeysIn(x) && IsSafe(a)(x.key);
    } else {
      SinglesPrunable(a, x.keys);
    }
  }

  /** A clause of such comparisons has a condition that loses no row. */
  lemma {:induction false} UsableIsPrunable(a: Algorithm, e: Expr)
    requires Valid(a) && Usable(a, e) && Parsed(e).Some? && !Parsed(e).value.Missing?
    ensures Sharding.Prunable(a, ToCondition(Parsed(e).value))
  {
    ParsedKeys(a, e);
    match Parsed(e).value {
      case OfKey(k) => assert IsSafe(a)(k);
      case OfConj(ks) => SinglesPrunable(a, ks);
      case OfDisj(atoms) =>
        forall m | m in OfAtoms(atoms) ensures Sharding.Prunable(a, m) {
          var i :| 0 <= i < |atoms| && OfAtoms(atoms)[i] == m;
          assert A.All(IsSafe(a), A.KeysIn(atoms[i]));
          AtomPrunable(a, atoms[i]);
        }
      case _ =>
    }
  }

  /** A row that the clause selects satisfies the condition that is sharded, and no other does without NOT IN. */
  lemma {:induction false} SelectedSatisfies(e: Expr, u: A.Dnf, row: Row)
    requires Derives(e, u, true) && Proper(e) && !u.Missing?
    ensures Where(e, row) ==> Satisfies(ToCondition(u), row)
    ensures NoNotIn(e) ==> (Satisfies(ToCondition(u), row) <==> Where(e, row))
  {
    DerivedKeeps(e, u, row);
    ToConditionMeans(u, row);
    if NoNotIn(e) { DerivedImplies(e, u, true, row); }
  }

  lemma {:induction false} ListCondition(column: string, values: seq<int>)
    ensures ToCondition(Leaf(In(column, false, values))) == Complex(Disj, Sharding.Listing(column, values))
  {
    var ms, list := OfAtoms(Listed(column, EQ, values)), Sharding.Listing(column, values);
    forall i | 0 <= i < |values| ensures ms[i] == list[i] { assert ms[i] == OfAtom(Listed(column, EQ, values)[i]); }
    assert ms == list;
  }

  lemma {:induction false} RangeCondition(column: string, lo: int, hi: int)
    ensures ToCondition(Leaf(Between(column, false, lo, hi))) ==
            Complex(Conj, [Single(Key(column, GE, lo)), Single(Key(column, LE, hi))])
  {
    assert Singles([Key(column, GE, lo), Key(column, LE, hi)]) == [Single(Key(column, GE, lo)), Single(Key(column, LE, hi))];
  }

  /** A list in the clause panics unless it has one or two values, and a range panics when it holds one value. */
  lemma {:induction false} LeafPanics(a: Algorithm, column: string, values: seq<int>, lo: int, hi: int, always: bool)
    ensures Sharding.Combinable(a, ToCondition(Leaf(In(column, false, values))), always) <==> 1 <= |values| <= 2
    ensures Sharding.Combinable(a, ToCondition(Leaf(Between(column, false, lo, hi))), always) <==> lo != hi
  {
    ListCondition(column, values);
    Sharding.ListPanics(a, column, values, always);
    RangeCondition(column, lo, hi);
    Sharding.RangePanics(a, column, lo, hi, always);
  }

  /** What the tables chosen for a condition of value `u` are worth. */
  ghost predicate Serves(a: Algorithm, e: Expr, u: A.Dnf, r: Sharding.Outcome)
    requires Valid(a)
  {
    if u.Missing? then r.Panic?
    else
      var c := ToCondition(u);
      && (Sharding.Combinable(a, c, true) ==> r.Chosen?) && (r.Chosen? ==> Sharding.Combinable(a, c, false))
      && (a.NumberMod? ==> (r.Chosen? <==> Sharding.Combinable(a, c, true)))
      && (r.Chosen? && Sharding.Exact(a, c) ==> NoDup(r.indices) && forall i | i in r.indices :: Sharding.Justified(a, c, i))
      && (r.Chosen? && Sharding.Exact(a, c) && a.NumberMod? && Sharding.Sole(a, c) ==>
            forall i :: i in r.indices <==> Sharding.Selected(a, c, i))
      && (r.Chosen? && Derives(e, u, true) && Proper(e) && Sharding.Prunable(a, c) ==>
            forall row, i | Where(e, row) && Home(a, row, i) :: i in r.indices)
  }

  method ShardCondition(a: Algorithm, ghost e: Expr, ghost u: A.Dnf, condition: Condition) returns (r: Sharding.Outcome)
    requires Valid(a) && !u.Missing? && condition == ToCondition(u)
    ensures Serves(a, e, u, r)
  {
    r := Sharding.Shard(a, condition);
    if Derives(e, u, true) && Proper(e) {
      forall row ensures Where(e, row) ==> Satisfies(condition, row) { SelectedSatisfies(e, u, row); }
    }
  }

  /**
   * The tables to query for a clause. There are some exactly when a condition results that can be combined. Where no
   * AND loses rows and pruning loses none, no row that the clause selects is stored in a table left out.
   */
  method SelectTables(a: Algorithm, e: Expr) returns (r: Sharding.Outcome, ghost u: A.Dnf)
    requires Valid(a)
    ensures Parsed(e).None? ==> r.Panic?
    ensures Parsed(e).Some? ==> Derives(e, u, false) && Serves(a, e, u, r)
    ensures Parsed(e).Some? && AliasFree(e) ==> u == Parsed(e).value && Derives(e, u, true)
  {
    var c;
    c, u := Parse(e);
    if c.None? { return Sharding.Panic, u; }
    if AliasFree(e) { AliasFreeKeeps(e); }
    if c.value.Nil? { return Sharding.Panic, u; }
    var condition := Snapshot(c.value, u);
    r := ShardCondition(a, e, u, condition);
  }
}
