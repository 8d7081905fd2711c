/** Conditions over columns, as built from a WHERE clause, and what they say about a row. */
module Conditions {
  import Decimal
  import opened Lists

  datatype Op = EQ | NE | LT | LE | GT | GE

  /** A comparison of a column with an integer. */
  datatype Key = Key(column: string, op: Op, value: int)

  datatype Junction = Conj | Disj

  datatype Condition =
    | Single(key: Key)
    | Complex(junction: Junction, members: seq<Condition>)
    | True
    | False

  /** A row by folded column name; a column that is absent is NULL. */
  type Row = map<string, int>

  function Lower(c: char): char {
    if 'A' <= c <= 'Z' then c - 'A' + 'a' else c
  }

  /** Column names are compared without regard to case. */
  function Fold(s: string): string {
    seq(|s|, i requires 0 <= i < |s| => Lower(s[i]))
  }

  predicate Compares(op: Op, x: int, v: int) {
    match op
    case EQ => x == v
    case NE => x != v
    case LT => x < v
    case LE => x <= v
    case GT => x > v
    case GE => x >= v
  }

  predicate Holds(k: Key, row: Row) {
    Fold(k.column) in row && Compares(k.op, row[Fold(k.column)], k.value)
  }

  ghost predicate Satisfies(c: Condition, row: Row) {
    match c
    case Single(k) => Holds(k, row)
    case Complex(Conj, ms) => forall m | m in ms :: Satisfies(m, row)
    case Complex(Disj, ms) => exists m | m in ms :: Satisfies(m, row)
    case True => true
    case False => false
  }

  // ----- the order in which the keys of one conjunction are paired -----

  function OpName(op: Op): string {
    match op
    case EQ => "eq"
    case NE => "ne"
    case LT => "lt"
    case LE => "le"
    case GT => "gt"
    case GE => "ge"
  }

  function Rendered(k: Key): string {
    k.column + OpName(k.op) + Decimal.Integer(k.value)
  }

  predicate StringLess(a: string, b: string) {
    if b == [] then false
    else if a == [] then true
    else if a[0] == b[0] then StringLess(a[1..], b[1..])
    else a[0] < b[0]
  }

  predicate Less(a: Key, b: Key) {
    StringLess(Rendered(a), Rendered(b))
  }

  predicate Ordered(s: seq<Key>) {
    forall j | 0 < j < |s| :: !Less(s[j], s[j - 1])
  }

  lemma {:induction false} StringLessAsymmetric(a: string, b: string)
    requires StringLess(a, b)
    ensures !StringLess(b, a)
  {
    if a != [] && a[0] == b[0] { StringLessAsymmetric(a[1..], b[1..]); }
  }

  lemma {:induction false} StringLessPrefix(p: string, a: string, b: string)
    ensures StringLess(p + a, p + b) == StringLess(a, b)
  {
    if p == [] {
      assert p + a == a && p + b == b;
    } else {
      StringLessPrefix(p[1..], a, b);
      assert (p + a)[1..] == p[1..] + a && (p + b)[1..] == p[1..] + b;
    }
  }

  function Insert(k: Key, s: seq<Key>): (r: seq<Key>)
  {
    if s == [] then [k]
    else if Less(k, s[0]) then [k] + s
    else [s[0]] + Insert(k, s[1..])
  }

  /** The keys in increasing order of their rendering. */
  function Sort(s: seq<Key>): (r: seq<Key>)
  {
    if s == [] then [] else Insert(s[0], Sort(s[1..]))
  }

  lemma {:induction false} FirstCounted(k: Key, s: seq<Key>)
    ensures multiset([k] + s) == multiset(s) + multiset{k}
  {
  }

  lemma {:induction false} InsertKeeps(k: Key, s: seq<Key>)
    ensures multiset(Insert(k, s)) == multiset(s) + multiset{k}
  {
    if s != [] && !Less(k, s[0]) {
      InsertKeeps(k, s[1..]);
      assert s == [s[0]] + s[1..];
      FirstCounted(s[0], s[1..]);
      FirstCounted(s[0], Insert(k, s[1..]));
    } else {
      FirstCounted(k, s);
    }
  }

  lemma {:induction false} SortKeeps(s: seq<Key>)
    ensures multiset(Sort(s)) == multiset(s)
  {
    if s != [] {
      SortKeeps(s[1..]);
      InsertKeeps(s[0], Sort(s[1..]));
      assert s == [s[0]] + s[1..];
    }
  }

  lemma {:induction false} InsertOrdered(k: Key, s: seq<Key>)
    requires Ordered(s)
    ensures Ordered(Insert(k, s))
    ensures Insert(k, s) != [] && (Insert(k, s)[0] == k || (s != [] && Insert(k, s)[0] == s[0]))
  {
    if s != [] {
      if Less(k, s[0]) {
        StringLessAsymmetric(Rendered(k), Rendered(s[0]));
      } else {
        var rest := s[1..];
        assert forall j | 0 < j < |rest| :: rest[j] == s[j + 1] && rest[j - 1] == s[j];
        InsertOrdered(k, rest);
      }
    }
  }

  lemma {:induction false} SortOrdered(s: seq<Key>)
    ensures Ordered(Sort(s))
  {
    if s != [] {
      SortOrdered(s[1..]);
      InsertOrdered(s[0], Sort(s[1..]));
    }
  }

  lemma {:induction false} SortMembers(s: seq<Key>)
    ensures |Sort(s)| == |s|
    ensures forall k :: k in Sort(s) <==> k in s
  {
    SortKeeps(s);
    assert |multiset(Sort(s))| == |multiset(s)|;
    forall k ensures k in Sort(s) <==> k in s {
      assert k in Sort(s) <==> k in multiset(Sort(s));
      assert k in s <==> k in multiset(s);
    }
  }

  lemma {:induction false} InitialsFirst(p: string, a: string, b: string)
    requires a != [] && b != [] && a[0] < b[0]
    ensures StringLess(p + a, p + b) && !StringLess(p + b, p + a)
  {
    StringLessPrefix(p, a, b);
    StringLessPrefix(p, b, a);
  }

  /** Keys of one column are placed by the initials of their operators: `=`, lower bounds, upper bounds, `<>`. */
  lemma {:induction false} OperatorsFirst(k: Key, l: Key)
    requires k.column == l.column && OpName(k.op)[0] < OpName(l.op)[0]
    ensures Less(k, l) && !Less(l, k)
  {
    var x, y, v, w := OpName(k.op), OpName(l.op), Decimal.Integer(k.value), Decimal.Integer(l.value);
    InitialsFirst(k.column, x + v, y + w);
    Associative(k.column, x, v);
    Associative(l.column, y, w);
  }
}
