/** How two comparisons of one column, joined by AND, are simplified before any table is looked up. */
module PairTable {
  import opened Conditions

  /** What is left to look up: nothing can match, one comparison, two bounds, no restriction, or no answer. */
  datatype Plan = Impossible | Alone(key: Key) | Bounds(lower: Key, upper: Key) | Anything | Unanswered

  function Compare(a: int, b: int): int {
    if a > b then 1 else if a < b then -1 else 0
  }

  predicate Means(p: Plan, x: int) {
    match p
    case Impossible => false
    case Alone(k) => Compares(k.op, x, k.value)
    case Bounds(k, l) => Compares(k.op, x, k.value) && Compares(l.op, x, l.value)
    case Anything => true
    case Unanswered => false
  }

  /** `a >= v AND a <= v`, in this order. */
  predicate Pinch(k: Key, l: Key) {
    k.op == GE && l.op == LE && k.value == l.value
  }

  /** The table. It leaves out exactly the pairs that start with `<>` (unless `=` follows) and the pinch. */
  function Simplify(k: Key, l: Key): (p: Plan)
    ensures p == Unanswered <==> (k.op == NE && l.op != EQ) || Pinch(k, l)
    // an answered pair is simplified to exactly its conjunction, except that a lower bound drops a `<>`
    ensures p == Anything <==> k.op in {GT, GE} && l.op == NE
    ensures p != Unanswered && p != Anything ==>
              forall x :: Means(p, x) <==> Compares(k.op, x, k.value) && Compares(l.op, x, l.value)
    // without `<>`, two bounds are a lower one and a strictly larger upper one
    ensures p.Bounds? ==> {p.lower, p.upper} == {k, l}
    ensures p.Bounds? && k.op != NE && l.op != NE ==>
              p.lower.op in {GT, GE} && p.upper.op in {LT, LE} && p.lower.value < p.upper.value
    ensures p.Alone? ==> p.key.op != NE && (p.key in {k, l} || (p.key.column == k.column && p.key.value == k.value == l.value))
  {
    var c := Compare(l.value, k.value);
    match (k.op, l.op)
    case (EQ, EQ) => if k.value == l.value then Alone(k) else Impossible
    case (EQ, NE) => if k.value == l.value then Impossible else Alone(k)
    case (EQ, LT) => if c == -1 || c == 0 then Impossible else Alone(k)
    case (EQ, LE) => if c == -1 then Impossible else Alone(k)
    case (EQ, GT) => if c == 1 || c == 0 then Impossible else Alone(k)
    case (EQ, GE) => if c == 1 then Impossible else Alone(k)
    case (NE, EQ) => if k.value == l.value then Impossible else Alone(l)
    case (NE, _) => Unanswered
    case (LT, NE) => if c == 1 || c == 0 then Alone(k) else Bounds(k, l)
    case (LT, EQ) => if c == 1 || c == 0 then Impossible else Alone(l)
    case (LT, GT) => if c == 1 || c == 0 then Impossible else Bounds(l, k)
    case (LT, GE) => if c == 1 || c == 0 then Impossible else Bounds(l, k)
    case (LT, LT) => if c == -1 then Alone(l) else Alone(k)
    case (LT, LE) => if c == 1 || c == 0 then Alone(k) else Alone(l)
    case (LE, EQ) => if c == 1 then Impossible else Alone(l)
    case (LE, NE) => if c == 1 then Alone(k) else if c == 0 then Alone(Key(k.column, LT, k.value)) else Bounds(k, l)
    case (LE, LT) => if c == 1 then Alone(k) else Alone(l)
    case (LE, LE) => if c == -1 then Alone(l) else Alone(k)
    case (LE, GT) => if c == 1 || c == 0 then Impossible else Bounds(l, k)
    case (LE, GE) => if c == 1 then Impossible else if c == 0 then Alone(Key(k.column, EQ, k.value)) else Bounds(l, k)
    case (GT, EQ) => if c == 1 then Alone(l) else Impossible
    case (GT, NE) => Anything
    case (GT, GT) => if c == 1 then Alone(l) else Alone(k)
    case (GT, GE) => if c == 1 then Alone(l) else Alone(k)
    case (GT, LT) => if c == -1 || c == 0 then Impossible else Bounds(k, l)
    case (GT, LE) => if c == -1 || c == 0 then Impossible else Bounds(k, l)
    case (GE, EQ) => if c == 1 || c == 0 then Alone(l) else Impossible
    case (GE, NE) => Anything
    case (GE, GT) => if c == 1 || c == 0 then Alone(l) else Alone(k)
    case (GE, GE) => if c == 1 then Alone(l) else Alone(k)
    case (GE, LT) => if c == -1 || c == 0 then Impossible else Bounds(k, l)
    case (GE, LE) => if c == -1 then Impossible else if c == 0 then Unanswered else Bounds(k, l)
  }
}
