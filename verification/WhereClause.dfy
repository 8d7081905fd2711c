/** From a WHERE clause to its condition. */
module WhereClause {
  import opened Options
  import opened Conditions
  import A = ConditionAlgebra
  import opened ConditionHeap

  /** A WHERE clause over integer columns and constants. */
  datatype Expr =
    | Compare(key: Key)
    | Between(column: string, not: bool, lo: int, hi: int)
    | In(column: string, not: bool, values: seq<int>)
    | Constant(truth: bool)
    | AndExpr(left: Expr, right: Expr)
    | OrExpr(left: Expr, right: Expr)

  /** What the clause says about a row; a comparison with a missing value does not hold. */
  ghost predicate Where(e: Expr, row: Row) {
    match e
    case Compare(k) => Holds(k, row)
    case Between(c, not, lo, hi) => Fold(c) in row && (if not then row[Fold(c)] < lo || row[Fold(c)] > hi else lo <= row[Fold(c)] <= hi)
    case In(c, not, vs) => Fold(c) in row && (if not then row[Fold(c)] !in vs else row[Fold(c)] in vs)
    case Constant(t) => t
    case AndExpr(l, r) => Where(l, row) && Where(r, row)
    case OrExpr(l, r) => Where(l, row) || Where(r, row)
  }

  // ----- parsing to values -----

  function Listed(column: string, op: Op, values: seq<int>): (r: seq<A.Atom>)
    ensures |r| == |values| && forall i | 0 <= i < |values| :: r[i] == A.KeyAtom(Key(column, op, values[i]))
  {
    if values == [] then []
    else Listed(column, op, values[..|values| - 1]) + [A.KeyAtom(Key(column, op, values[|values| - 1]))]
  }

  /** The value of a clause that is no AND and no OR. A negated list becomes a disjunction, too. */
  function Leaf(e: Expr): A.Dnf {
    match e
    case Compare(k) => A.OfKey(k)
    case Between(c, not, lo, hi) =>
      if not then A.OfDisj([A.KeyAtom(Key(c, LT, lo)), A.KeyAtom(Key(c, GT, hi))])
      else A.OfConj([Key(c, GE, lo), Key(c, LE, hi)])
    case In(c, not, vs) => A.OfDisj(Listed(c, if not then NE else EQ, vs))
    case Constant(t) => if t then A.Yes else A.No
    case _ => A.Missing
  }

  /** The condition; nothing when a missing condition would be called. */
  function Parsed(e: Expr): Option<A.Dnf> {
    if !e.AndExpr? && !e.OrExpr? then Some(Leaf(e))
    else
      var l, r := Parsed(e.left), Parsed(e.right);
      if l.None? || r.None? || l.value.Missing? then None
      else Some(if e.AndExpr? then A.And(l.value, r.value) else A.Or(l.value, r.value))
  }

  /** At no AND does a conjunction meet a disjunction in which a conjunction stands before another member. */
  predicate AliasFree(e: Expr) {
    e.AndExpr? || e.OrExpr? ==>
      && AliasFree(e.left) && AliasFree(e.right)
      && (e.AndExpr? && Parsed(e.left).Some? && Parsed(e.right).Some? ==> A.Unaliased(Parsed(e.left).value, Parsed(e.right).value))
  }

  /** The value of an AND or an OR, from the values of its sides; with `kept`, an AND does not lose rows. */
  ghost predicate Combined(e: Expr, u: A.Dnf, l: A.Dnf, r: A.Dnf, kept: bool) {
    if e.AndExpr? then A.Stands(u, l, r) && (kept && !u.Missing? ==> A.KeepsRows(l, r)) else u == A.Or(l, r)
  }

  /**
   * The values that the objects for a clause can have: an AND whose left side has one conjunction in several places
   * leaves more keys than the conjunction of the values. With `kept`, no AND loses rows.
   */
  ghost predicate Derives(e: Expr, u: A.Dnf, kept: bool) {
    if !e.AndExpr? && !e.OrExpr? then u == Leaf(e)
    else exists l, r ::
      Derives(e.left, l, kept) && Derives(e.right, r, kept) && !l.Missing? && Combined(e, u, l, r, kept)
  }

  /** Constants, missing conditions and all others behave alike whatever their members are. */
  predicate Alike(u: A.Dnf, v: A.Dnf) {
    (u.Missing? <==> v.Missing?) && (u.Yes? <==> v.Yes?) && (u.No? <==> v.No?)
  }

  lemma {:induction false} AlikeResults(u: A.Dnf, l: A.Dnf, r: A.Dnf, x: A.Dnf, y: A.Dnf)
    requires Alike(l, x) && Alike(r, y)
    ensures A.Stands(u, l, r) ==> Alike(u, A.And(x, y))
    ensures Alike(A.Or(l, r), A.Or(x, y))
  {
    A.MissingResult(l, r);
    A.MissingResult(x, y);
  }

  /** Whatever objects are shared, a result is missing, or a constant, exactly when the value of the clause is. */
  lemma {:induction false} DerivedIsAlike(e: Expr, u: A.Dnf, kept: bool)
    requires Derives(e, u, kept)
    ensures Parsed(e).Some? && Alike(u, Parsed(e).value)
  {
    if e.AndExpr? || e.OrExpr? {
      var l, r :| Derives(e.left, l, kept) && Derives(e.right, r, kept) && !l.Missing? && Combined(e, u, l, r, kept);
      DerivedIsAlike(e.left, l, kept);
      DerivedIsAlike(e.right, r, kept);
      AlikeResults(u, l, r, Parsed(e.left).value, Parsed(e.right).value);
    }
  }

  // ----- parsing to objects -----

  method ParseLeaf(e: Expr) returns (c: Cond)
    requires !e.AndExpr? && !e.OrExpr?
    ensures Is(c, Leaf(e)) && Whole(c) && fresh(Reach(c)) && !c.Nil?
  {
    match e {
      case Compare(k) => c := K(k);
      case Between(col, not, lo, hi) =>
        if not {
          var d := new Disj([KeyMember(Key(col, LT, lo)), KeyMember(Key(col, GT, hi))]);
          c := D(d);
        } else {
          var n := new Conj([Key(col, GE, lo), Key(col, LE, hi)]);
          c := C(n);
        }
      case In(col, not, vs) =>
        var ms: seq<Member> := [];
        for i := 0 to |vs|
          invariant |ms| == i && forall j | 0 <= j < i :: ms[j] == KeyMember(Key(col, if not then NE else EQ, vs[j]))
        {
          ms := ms + [KeyMember(Key(col, if not then NE else EQ, vs[i]))];
        }
        var d := new Disj(ms);
        c := D(d);
      case Constant(t) => c := if t then T else F;
    }
  }

  method Combine(e: Expr, left: Cond, right: Cond, ghost v: A.Dnf, ghost w: A.Dnf) returns (r: Cond, ghost u: A.Dnf)
    requires (e.AndExpr? || e.OrExpr?) && !left.Nil? && Is(left, v) && Is(right, w) && Reach(left) !! Reach(right)
    modifies Reach(left)
    ensures Is(r, u) && Combined(e, u, v, w, false)
    ensures forall o | o in Reach(r) :: o in old(Reach(left)) || o in old(Reach(right)) || fresh(o)
    ensures old(Whole(left)) ==> u == if e.AndExpr? then A.And(v, w) else A.Or(v, w)
    ensures old(Whole(left)) && old(Whole(right)) && (e.AndExpr? ==> A.Unaliased(v, w)) ==> Whole(r)
  {
    if e.AndExpr? {
      r, u := And(left, right, v, w);
    } else {
      r := Or(left, right, v, w);
      u := A.Or(v, w);
    }
  }

  /** The objects `c` for a clause have the value `u`; it is as told where none is shared. */
  ghost predicate IsParsed(e: Expr, c: Cond, u: A.Dnf)
    reads if c.C? then {c.conj} else {}
    reads if c.D? then {c.disj} + Conjs(c.disj.members) else {}
  {
    Is(c, u) && Derives(e, u, false) && (AliasFree(e) ==> Parsed(e) == Some(u) && Whole(c))
  }

  /** Both sides, unless a condition is missing that would be called. */
  method ParseSides(e: Expr) returns (sides: Option<(Cond, Cond)>, ghost v: A.Dnf, ghost w: A.Dnf)
    requires e.AndExpr? || e.OrExpr?
    ensures sides.Some? <==> Parsed(e).Some?
    ensures sides.Some? ==> IsParsed(e.left, sides.value.0, v) && IsParsed(e.right, sides.value.1, w) && !v.Missing?
    ensures sides.Some? ==> fresh(Reach(sides.value.0)) && fresh(Reach(sides.value.1)) && Reach(sides.value.0) !! Reach(sides.value.1)
    decreases e, 0
  {
    var left, right;
    left, v := Parse(e.left);
    if left.None? { return None, v, A.Missing; }
    DerivedIsAlike(e.left, v, false);
    right, w := Parse(e.right);
    if right.None? || left.value.Nil? { return None, v, w; }
    return Some((left.value, right.value)), v, w;
  }

  lemma {:induction false} SidesCombined(e: Expr, u: A.Dnf, v: A.Dnf, w: A.Dnf)
    requires (e.AndExpr? || e.OrExpr?) && Derives(e.left, v, false) && Derives(e.right, w, false) && !v.Missing?
    requires Combined(e, u, v, w, false)
    ensures Derives(e, u, false) && Parsed(e).Some?
    ensures AliasFree(e) && Parsed(e.left) == Some(v) && Parsed(e.right) == Some(w) ==>
              && (e.AndExpr? ==> A.Unaliased(v, w))
              && Parsed(e) == Some(if e.AndExpr? then A.And(v, w) else A.Or(v, w))
  {
    DerivedIsAlike(e, u, false);
  }

  /** Both sides are parsed before they are combined; every object is new. */
  method Parse(e: Expr) returns (c: Option<Cond>, ghost u: A.Dnf)
    ensures c.Some? <==> Parsed(e).Some?
    ensures c.Some? ==> IsParsed(e, c.value, u) && fresh(Reach(c.value))
    decreases e, 1
  {
    if !e.AndExpr? && !e.OrExpr? {
      var leaf := ParseLeaf(e);
      return Some(leaf), Leaf(e);
    }
    var sides;
    ghost var v, w;
    sides, v, w := ParseSides(e);
    if sides.None? { return None, A.Missing; }
    var r;
    r, u := Combine(e, sides.value.0, sides.value.1, v, w);
    SidesCombined(e, u, v, w);
    return Some(r), u;
  }

  // ----- meaning -----

  /** A list that is looked up has members. */
  predicate Proper(e: Expr) {
    match e
    case In(_, _, vs) => vs != []
    case AndExpr(l, r) => Proper(l) && Proper(r)
    case OrExpr(l, r) => Proper(l) && Proper(r)
    case _ => true
  }

  predicate NoNotIn(e: Expr) {
    match e
    case In(_, not, _) => !not
    case AndExpr(l, r) => NoNotIn(l) && NoNotIn(r)
    case OrExpr(l, r) => NoNotIn(l) && NoNotIn(r)
    case _ => true
  }

  function HoldsIn(row: Row): Key -> bool {
    k => Holds(k, row)
  }

  lemma {:induction false} LeafMeans(e: Expr, row: Row)
    requires !e.AndExpr? && !e.OrExpr? && NoNotIn(e)
    ensures A.Means(HoldsIn(row), Leaf(e)) <==> Where(e, row)
  {
    var h := HoldsIn(row);
    match e {
      case Between(c, not, lo, hi) =>
        if not {
          A.AnyCons(h, Leaf(e).atoms);
          A.AnyCons(h, Leaf(e).atoms[1..]);
        } else {
          assert Leaf(e).keys[0] in Leaf(e).keys && Leaf(e).keys[1] in Leaf(e).keys;
        }
      case In(c, _, vs) => ListedMeans(c, vs, row);
      case _ =>
    }
  }

  lemma {:induction false} ListedMeans(column: string, values: seq<int>, row: Row)
    ensures A.Any(HoldsIn(row), Listed(column, EQ, values)) <==> Fold(column) in row && row[Fold(column)] in values
  {
    var h, atoms := HoldsIn(row), Listed(column, EQ, values);
    if A.Any(h, atoms) {
      var a :| a in atoms && A.AtomHolds(h, a);
    }
    if Fold(column) in row && row[Fold(column)] in values {
      var i :| 0 <= i < |values| && values[i] == row[Fold(column)];
      assert atoms[i] in atoms && A.AtomHolds(h, atoms[i]);
    }
  }

  lemma {:induction false} LeafKeeps(e: Expr, row: Row)
    requires !e.AndExpr? && !e.OrExpr? && Proper(e)
    ensures Where(e, row) ==> A.Means(HoldsIn(row), Leaf(e))
  {
    if NoNotIn(e) { LeafMeans(e, row); } else { NotInIsWeaker(e.column, e.values, row); }
  }

  /** Whatever objects are shared, the condition holds of no row that the clause does not select. */
  lemma {:induction false} DerivedImplies(e: Expr, u: A.Dnf, kept: bool, row: Row)
    requires Derives(e, u, kept) && NoNotIn(e)
    ensures A.Means(HoldsIn(row), u) ==> Where(e, row)
  {
    if !e.AndExpr? && !e.OrExpr? {
      LeafMeans(e, row);
    } else {
      var l, r :| Derives(e.left, l, kept) && Derives(e.right, r, kept) && !l.Missing? && Combined(e, u, l, r, kept);
      DerivedImplies(e.left, l, kept, row);
      DerivedImplies(e.right, r, kept, row);
      if !u.Missing? {
        if e.AndExpr? { A.StandsMeans(HoldsIn(row), u, l, r); } else { A.OrIsDisjunction(HoldsIn(row), l, r); }
      }
    }
  }

  /** Where no AND loses rows, the condition holds of every row that the clause selects. */
  lemma {:induction false} DerivedKeeps(e: Expr, u: A.Dnf, row: Row)
    requires Derives(e, u, true) && Proper(e) && !u.Missing?
    ensures Where(e, row) ==> A.Means(HoldsIn(row), u)
  {
    if !e.AndExpr? && !e.OrExpr? {
      LeafKeeps(e, row);
    } else {
      var l, r :| Derives(e.left, l, true) && Derives(e.right, r, true) && !l.Missing? && Combined(e, u, l, r, true);
      DerivedKeeps(e.left, l, row);
      if !r.Missing? { DerivedKeeps(e.right, r, row); }
      A.MissingResult(l, r);
      if e.AndExpr? {
        A.StandsMeans(HoldsIn(row), u, l, r);
        if A.Means(HoldsIn(row), l) && A.Means(HoldsIn(row), r) {
          A.KeptRow(HoldsIn(row), l, r);
          A.AndMeans(HoldsIn(row), l, r);
        }
      } else {
        A.OrIsDisjunction(HoldsIn(row), l, r);
      }
    }
  }

  /** Without an alias no AND loses rows. */
  lemma {:induction false} AliasFreeKeeps(e: Expr)
    requires AliasFree(e) && Parsed(e).Some?
    ensures Derives(e, Parsed(e).value, true)
  {
    if e.AndExpr? || e.OrExpr? {
      AliasFreeKeeps(e.left);
      AliasFreeKeeps(e.right);
      var l, r := Parsed(e.left).value, Parsed(e.right).value;
      if e.AndExpr? && !A.And(l, r).Missing? {
        forall h ensures A.Means(h, A.And(l, r)) <==> A.Means(h, l) && A.Means(h, r) { A.AndIsConjunction(h, l, r); }
        A.ConjunctionExactly(l, r);
      }
      assert Derives(e.left, l, true) && Derives(e.right, r, true) && Combined(e, Parsed(e).value, l, r, true);
    }
  }

  /** Without an alias and NOT IN, a condition that results means what the clause says, for every row. */
  lemma {:induction false} ParsedMeans(e: Expr, row: Row)
    requires AliasFree(e) && Proper(e) && Parsed(e).Some? && !Parsed(e).value.Missing?
    ensures Where(e, row) ==> A.Means(HoldsIn(row), Parsed(e).value)
    ensures NoNotIn(e) ==> (A.Means(HoldsIn(row), Parsed(e).value) <==> Where(e, row))
  {
    AliasFreeKeeps(e);
    DerivedKeeps(e, Parsed(e).value, row);
    if NoNotIn(e) { DerivedImplies(e, Parsed(e).value, true, row); }
  }

  /** `a BETWEEN .. AND (a BETWEEN .. OR b = v)` loses the rows that meet the first and the last comparison only. */
  lemma {:induction false} AliasLosesRows(a: string, b: string, lo: int, hi: int, from: int, to: int, row: Row)
    requires Fold(a) in row && Fold(b) in row && lo <= row[Fold(a)] <= hi && !(from <= row[Fold(a)] <= to)
    ensures var e := AndExpr(Between(a, false, lo, hi), OrExpr(Between(a, false, from, to), Compare(Key(b, EQ, row[Fold(b)]))));
            Where(e, row) && Parsed(e).Some? && !Parsed(e).value.Missing? && !A.Means(HoldsIn(row), Parsed(e).value)
  {
    var k, ls := Key(b, EQ, row[Fold(b)]), [Key(a, GE, from), Key(a, LE, to)];
    var left, right := Between(a, false, lo, hi), OrExpr(Between(a, false, from, to), Compare(k));
    var c, d, h := A.OfConj([Key(a, GE, lo), Key(a, LE, hi)]), A.OfDisj([A.ConjAtom(ls), A.KeyAtom(k)]), HoldsIn(row);
    assert Parsed(left) == Some(c) && Parsed(right) == Some(d);
    A.AndMeans(h, c, d);
    assert ls[0] in ls && ls[1] in ls;
    assert !A.Chain(h, d.atoms);
  }

  /** A negated list of more than one value is parsed to a condition that nearly every row meets. */
  lemma {:induction false} NotInIsWeaker(column: string, values: seq<int>, row: Row)
    requires values != []
    ensures Where(In(column, true, values), row) ==> A.Means(HoldsIn(row), Leaf(In(column, true, values)))
    ensures A.Means(HoldsIn(row), Leaf(In(column, true, values))) <==>
            Fold(column) in row && exists i | 0 <= i < |values| :: row[Fold(column)] != values[i]
  {
    var h, atoms := HoldsIn(row), Listed(column, NE, values);
    if A.Any(h, atoms) {
      var a :| a in atoms && A.AtomHolds(h, a);
      var i :| 0 <= i < |atoms| && atoms[i] == a;
      assert row[Fold(column)] != values[i];
    }
    if Fold(column) in row {
      forall i | 0 <= i < |values| && row[Fold(column)] != values[i] ensures A.Any(h, atoms) {
        assert atoms[i] in atoms && A.AtomHolds(h, atoms[i]);
      }
      assert row[Fold(column)] !in values ==> row[Fold(column)] != values[0];
    }
  }

  /** A negated list is parsed correctly exactly when all its values are equal. */
  lemma {:induction false} NotInExactly(column: string, values: seq<int>)
    requires values != []
    ensures var e := In(column, true, values);
            (forall row :: A.Means(HoldsIn(row), Leaf(e)) <==> Where(e, row)) <==>
            forall i, j | 0 <= i < |values| && 0 <= j < |values| :: values[i] == values[j]
  {
    var e := In(column, true, values);
    forall row ensures (forall i, j | 0 <= i < |values| && 0 <= j < |values| :: values[i] == values[j]) ==>
                         (A.Means(HoldsIn(row), Leaf(e)) <==> Where(e, row))
    {
      NotInIsWeaker(column, values, row);
    }
    forall i, j | 0 <= i < |values| && 0 <= j < |values| && values[i] != values[j]
      ensures exists row :: !(A.Means(HoldsIn(row), Leaf(e)) <==> Where(e, row))
    {
      var row := map[Fold(column) := values[i]];
      NotInIsWeaker(column, values, row);
      assert row[Fold(column)] != values[j];
      assert !(A.Means(HoldsIn(row), Leaf(e)) <==> Where(e, row));
    }
  }
}
