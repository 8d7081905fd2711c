/** The order of rows under ORDER BY. */
module RowOrder {

  datatype Value = Null | Num(n: int) | Text(s: string)

  type Row = seq<Value>

  /** One item of the ORDER BY list: a direction and the position of the column. */
  datatype OrderField = OrderField(asc: bool, column: nat)

  datatype Kind = Numbers | Texts

  /** A column holds NULLs and values of one kind. */
  predicate OfKind(v: Value, k: Kind) {
    match v
    case Null => true
    case Num(_) => k == Numbers
    case Text(_) => k == Texts
  }

  predicate Conforms(row: Row, kinds: seq<Kind>) {
    |row| == |kinds| && forall c | 0 <= c < |row| :: OfKind(row[c], kinds[c])
  }

  predicate Orderable(fields: seq<OrderField>, kinds: seq<Kind>) {
    forall f | f in fields :: f.column < |kinds|
  }

  /** Two rows that the order applies to. */
  predicate Comparable(fields: seq<OrderField>, kinds: seq<Kind>, a: Row, b: Row) {
    Orderable(fields, kinds) && Conforms(a, kinds) && Conforms(b, kinds)
  }

  function CompareText(a: string, b: string): int {
    if a == [] && b == [] then 0
    else if a == [] then -1
    else if b == [] then 1
    else if a[0] == b[0] then CompareText(a[1..], b[1..])
    else if a[0] < b[0] then -1 else 1
  }

  /** NULL comes first; values of different kinds cannot be compared. */
  function Compare(a: Value, b: Value): int
    requires exists k :: OfKind(a, k) && OfKind(b, k)
  {
    match (a, b)
    case (Null, Null) => 0
    case (Null, _) => -1
    case (_, Null) => 1
    case (Num(x), Num(y)) => if x < y then -1 else if x == y then 0 else 1
    case (Text(x), Text(y)) => CompareText(x, y)
    case (_, _) => 0
  }

  // ----- what comes first -----

  /** Up to some position the texts agree; there the first one ends, or has the smaller character. */
  ghost predicate TextFirst(a: string, b: string) {
    exists j | 0 <= j < |b| :: DiffersAt(a, b, j)
  }

  predicate DiffersAt(a: string, b: string, j: nat)
    requires j < |b|
  {
    j <= |a| && a[..j] == b[..j] && (j == |a| || a[j] < b[j])
  }

  /** In ascending order, NULL comes before everything else, and a smaller value before a larger one of its kind. */
  ghost predicate First(x: Value, y: Value) {
    match y
    case Null => false
    case Num(n) => x.Null? || (x.Num? && x.n < n)
    case Text(t) => x.Null? || (x.Text? && TextFirst(x.s, t))
  }

  lemma {:induction false} TextCompared(a: string, b: string)
    ensures CompareText(a, b) < 0 <==> TextFirst(a, b)
  {
    if b != [] {
      if a == [] {
        assert DiffersAt(a, b, 0);
      } else if a[0] == b[0] {
        TextCompared(a[1..], b[1..]);
        if j :| 0 <= j < |b[1..]| && DiffersAt(a[1..], b[1..], j) {
          assert a[..j + 1] == [a[0]] + a[1..][..j] && b[..j + 1] == [b[0]] + b[1..][..j];
          assert DiffersAt(a, b, j + 1);
        }
        if j :| 0 <= j < |b| && DiffersAt(a, b, j) {
          assert j > 0;
          assert a[1..][..j - 1] == a[..j][1..] && b[1..][..j - 1] == b[..j][1..];
          assert DiffersAt(a[1..], b[1..], j - 1);
        }
      } else {
        assert a[..0] == b[..0];
        assert DiffersAt(a, b, 0) <==> a[0] < b[0];
        forall j: nat | 0 < j < |b| ensures !DiffersAt(a, b, j) {
          if j <= |a| { assert a[..j][0] == a[0] && b[..j][0] == b[0]; }
        }
      }
    }
  }

  lemma {:induction false} Compared(k: Kind, x: Value, y: Value)
    requires OfKind(x, k) && OfKind(y, k)
    ensures Compare(x, y) < 0 <==> First(x, y)
  {
    if x.Text? && y.Text? { TextCompared(x.s, y.s); }
  }

  lemma {:induction false} CompareTextOrder(a: string, b: string, c: string)
    ensures CompareText(a, b) == -CompareText(b, a)
    ensures CompareText(a, b) == 0 <==> a == b
    ensures CompareText(a, b) <= 0 && CompareText(b, c) <= 0 ==> CompareText(a, c) <= 0
    decreases |a| + |b| + |c|
  {
    if a != [] && b != [] && a[0] == b[0] {
      assert a == [a[0]] + a[1..] && b == [b[0]] + b[1..];
      CompareTextOrder(a[1..], b[1..], if c == [] then [] else c[1..]);
    }
  }

  lemma {:induction false} CompareOrder(k: Kind, a: Value, b: Value, c: Value)
    requires OfKind(a, k) && OfKind(b, k) && OfKind(c, k)
    ensures Compare(a, b) == -Compare(b, a)
    ensures Compare(a, b) == 0 <==> a == b
    ensures Compare(a, b) <= 0 && Compare(b, c) <= 0 ==> Compare(a, c) <= 0
  {
    if a.Text? && b.Text? { CompareTextOrder(a.s, b.s, if c.Text? then c.s else []); }
  }

  /** Column values of `a` and `b` under one field; negative when `a` comes first. */
  function FieldOrder(f: OrderField, a: Row, b: Row, kinds: seq<Kind>): int
    requires Conforms(a, kinds) && Conforms(b, kinds) && f.column < |kinds|
  {
    assert OfKind(a[f.column], kinds[f.column]) && OfKind(b[f.column], kinds[f.column]);
    if f.asc then Compare(a[f.column], b[f.column]) else Compare(b[f.column], a[f.column])
  }

  /** The field puts `a` first: ascending, or the other way round. */
  ghost predicate ComesFirst(f: OrderField, a: Row, b: Row)
    requires f.column < |a| && f.column < |b|
  {
    if f.asc then First(a[f.column], b[f.column]) else First(b[f.column], a[f.column])
  }

  lemma {:induction false} FieldMeans(f: OrderField, a: Row, b: Row, kinds: seq<Kind>)
    requires Conforms(a, kinds) && Conforms(b, kinds) && f.column < |kinds|
    ensures FieldOrder(f, a, b, kinds) < 0 <==> ComesFirst(f, a, b)
  {
    Compared(kinds[f.column], a[f.column], b[f.column]);
    Compared(kinds[f.column], b[f.column], a[f.column]);
  }

  /** `a` comes strictly before `b`: some field puts it first and every earlier field ties. */
  ghost predicate Before(fields: seq<OrderField>, kinds: seq<Kind>, a: Row, b: Row)
    requires Comparable(fields, kinds, a, b)
  {
    exists j | 0 <= j < |fields| ::
      ComesFirst(fields[j], a, b) && forall i | 0 <= i < j :: a[fields[i].column] == b[fields[i].column]
  }

  /** The sort key of a row. */
  function Key(fields: seq<OrderField>, row: Row): seq<Value>
    requires forall f | f in fields :: f.column < |row|
  {
    seq(|fields|, j requires 0 <= j < |fields| => row[fields[j].column])
  }

  /** The loop over the ORDER BY fields. */
  method Less(fields: seq<OrderField>, kinds: seq<Kind>, a: Row, b: Row) returns (less: bool)
    requires Comparable(fields, kinds, a, b)
    ensures less <==> Before(fields, kinds, a, b)
  {
    var index := 0;
    while index < |fields|
      invariant 0 <= index <= |fields|
      invariant forall i | 0 <= i < index :: a[fields[i].column] == b[fields[i].column]
    {
      var f := fields[index];
      var x, y := a[f.column], b[f.column];
      assert OfKind(x, kinds[f.column]) && OfKind(y, kinds[f.column]);
      CompareOrder(kinds[f.column], x, y, x);
      var res := if f.asc then Compare(y, x) else Compare(x, y);
      if res != 0 {
        assert FieldOrder(f, a, b, kinds) == -res;
        Decided(fields, kinds, a, b, index);
        return res > 0;
      }
      index := index + 1;
    }
    if Before(fields, kinds, a, b) { Tied(fields, kinds, a, b); }
    return false;
  }

  /** The first field that does not tie decides. */
  lemma {:induction false} Decided(fields: seq<OrderField>, kinds: seq<Kind>, a: Row, b: Row, j: nat)
    requires Comparable(fields, kinds, a, b) && j < |fields|
    requires forall i | 0 <= i < j :: a[fields[i].column] == b[fields[i].column]
    requires a[fields[j].column] != b[fields[j].column]
    ensures Before(fields, kinds, a, b) <==> FieldOrder(fields[j], a, b, kinds) < 0
  {
    forall i | 0 <= i < |fields| ensures FieldOrder(fields[i], a, b, kinds) < 0 <==> ComesFirst(fields[i], a, b) {
      FieldMeans(fields[i], a, b, kinds);
    }
    forall i | 0 <= i < |fields| && a[fields[i].column] == b[fields[i].column] ensures FieldOrder(fields[i], a, b, kinds) == 0 {
      CompareOrder(kinds[fields[i].column], a[fields[i].column], b[fields[i].column], Null);
    }
  }

  lemma {:induction false} Tied(fields: seq<OrderField>, kinds: seq<Kind>, a: Row, b: Row)
    requires Comparable(fields, kinds, a, b)
    requires forall i | 0 <= i < |fields| :: a[fields[i].column] == b[fields[i].column]
    ensures !Before(fields, kinds, a, b)
  {
    forall i | 0 <= i < |fields| ensures FieldOrder(fields[i], a, b, kinds) < 0 <==> ComesFirst(fields[i], a, b) {
      FieldMeans(fields[i], a, b, kinds);
    }
    forall i | 0 <= i < |fields| ensures FieldOrder(fields[i], a, b, kinds) == 0 {
      CompareOrder(kinds[fields[i].column], a[fields[i].column], b[fields[i].column], Null);
    }
  }

  /** `a` does not come after `b`. */
  ghost predicate Leq(fields: seq<OrderField>, kinds: seq<Kind>, a: Row, b: Row)
    requires Comparable(fields, kinds, a, b)
  {
    !Before(fields, kinds, b, a)
  }

  /** Position of the first field on which the rows differ, or the number of fields. */
  function FirstDifference(fields: seq<OrderField>, a: Row, b: Row): (d: nat)
    requires forall f | f in fields :: f.column < |a| && f.column < |b|
    ensures d <= |fields| && forall i | 0 <= i < d :: a[fields[i].column] == b[fields[i].column]
    ensures d < |fields| ==> a[fields[d].column] != b[fields[d].column]
  {
    if fields == [] || a[fields[0].column] != b[fields[0].column] then 0
    else
      assert forall i | 0 < i < |fields| :: fields[i] == fields[1..][i - 1];
      1 + FirstDifference(fields[1..], a, b)
  }

  /** The same order, field by field. */
  function CompareRows(fields: seq<OrderField>, kinds: seq<Kind>, a: Row, b: Row): int
    requires Comparable(fields, kinds, a, b)
  {
    if fields == [] then 0
    else
      var c := FieldOrder(fields[0], a, b, kinds);
      if c != 0 then c else CompareRows(fields[1..], kinds, a, b)
  }

  lemma {:induction false} CompareAtDifference(fields: seq<OrderField>, kinds: seq<Kind>, a: Row, b: Row)
    requires Comparable(fields, kinds, a, b)
    ensures var d := FirstDifference(fields, a, b);
            CompareRows(fields, kinds, a, b) == if d < |fields| then FieldOrder(fields[d], a, b, kinds) else 0
  {
    if fields != [] {
      CompareOrder(kinds[fields[0].column], a[fields[0].column], b[fields[0].column], Null);
      CompareAtDifference(fields[1..], kinds, a, b);
    }
  }

  lemma {:induction false} BeforeIsCompare(fields: seq<OrderField>, kinds: seq<Kind>, a: Row, b: Row)
    requires Comparable(fields, kinds, a, b)
    ensures Before(fields, kinds, a, b) <==> CompareRows(fields, kinds, a, b) < 0
  {
    var d := FirstDifference(fields, a, b);
    CompareAtDifference(fields, kinds, a, b);
    if d < |fields| { Decided(fields, kinds, a, b, d); } else { Tied(fields, kinds, a, b); }
  }

  lemma {:induction false} CompareRowsOrder(fields: seq<OrderField>, kinds: seq<Kind>, a: Row, b: Row, c: Row)
    requires Comparable(fields, kinds, a, b) && Conforms(c, kinds)
    ensures CompareRows(fields, kinds, a, b) == -CompareRows(fields, kinds, b, a)
    ensures CompareRows(fields, kinds, a, b) <= 0 && CompareRows(fields, kinds, b, c) <= 0 ==> CompareRows(fields, kinds, a, c) <= 0
  {
    if fields != [] {
      CompareRowsOrder(fields[1..], kinds, a, b, c);
      var k, i := kinds[fields[0].column], fields[0].column;
      CompareOrder(k, a[i], b[i], c[i]);
      CompareOrder(k, b[i], c[i], a[i]);
      CompareOrder(k, c[i], b[i], a[i]);
      CompareOrder(k, a[i], c[i], b[i]);
      CompareOrder(k, c[i], a[i], b[i]);
    }
  }

  lemma {:induction false} CompareRowsKey(fields: seq<OrderField>, kinds: seq<Kind>, a: Row, b: Row)
    requires Comparable(fields, kinds, a, b)
    ensures CompareRows(fields, kinds, a, b) == 0 <==> Key(fields, a) == Key(fields, b)
  {
    if fields != [] {
      CompareRowsKey(fields[1..], kinds, a, b);
      CompareOrder(kinds[fields[0].column], a[fields[0].column], b[fields[0].column], Null);
      assert Key(fields, a) == [a[fields[0].column]] + Key(fields[1..], a);
      assert Key(fields, b) == [b[fields[0].column]] + Key(fields[1..], b);
      assert Key(fields, a)[1..] == Key(fields[1..], a) && Key(fields, b)[1..] == Key(fields[1..], b);
      assert Key(fields, a)[0] == a[fields[0].column] && Key(fields, b)[0] == b[fields[0].column];
    }
  }

  /** Rows are totally ordered, up to equality of their sort keys. */
  lemma {:induction false} LeqTotal(fields: seq<OrderField>, kinds: seq<Kind>, a: Row, b: Row)
    requires Comparable(fields, kinds, a, b)
    ensures Leq(fields, kinds, a, b) || Leq(fields, kinds, b, a)
    ensures Leq(fields, kinds, a, b) && Leq(fields, kinds, b, a) <==> Key(fields, a) == Key(fields, b)
  {
    BeforeIsCompare(fields, kinds, a, b);
    BeforeIsCompare(fields, kinds, b, a);
    CompareRowsOrder(fields, kinds, a, b, a);
    CompareRowsKey(fields, kinds, a, b);
  }

  lemma {:induction false} LeqTransitive(fields: seq<OrderField>, kinds: seq<Kind>, a: Row, b: Row, c: Row)
    requires Comparable(fields, kinds, a, b) && Conforms(c, kinds)
    requires Leq(fields, kinds, a, b) && Leq(fields, kinds, b, c)
    ensures Leq(fields, kinds, a, c)
  {
    BeforeIsCompare(fields, kinds, b, a);
    BeforeIsCompare(fields, kinds, c, b);
    BeforeIsCompare(fields, kinds, c, a);
    CompareRowsOrder(fields, kinds, a, b, c);
    CompareRowsOrder(fields, kinds, b, c, a);
    CompareRowsOrder(fields, kinds, c, a, b);
  }

  // ----- rows in order -----

  /** By this field `b` may follow `a`: numbers do not fall, texts do not go back, NULLs are first; or the other way round. */
  ghost predicate MayFollow(f: OrderField, a: Row, b: Row)
    requires f.column < |a| && f.column < |b|
  {
    var x, y := if f.asc then a[f.column] else b[f.column], if f.asc then b[f.column] else a[f.column];
    && (y.Null? ==> x.Null?)
    && (x.Num? && y.Num? ==> x.n <= y.n)
    && (x.Text? && y.Text? ==> x.s == y.s || TextFirst(x.s, y.s))
  }

  /** Each field orders two rows that tie on all fields before it. */
  ghost predicate InOrder(fields: seq<OrderField>, kinds: seq<Kind>, a: Row, b: Row)
    requires Comparable(fields, kinds, a, b)
  {
    forall d | 0 <= d < |fields| ::
      (forall e | 0 <= e < d :: a[fields[e].column] == b[fields[e].column]) ==> MayFollow(fields[d], a, b)
  }

  /** Rows in the order of their fields, from the first row to the last. */
  ghost predicate AllInOrder(fields: seq<OrderField>, kinds: seq<Kind>, rows: seq<Row>) {
    forall i, j | 0 <= i < j < |rows| ::
      Comparable(fields, kinds, rows[i], rows[j]) && InOrder(fields, kinds, rows[i], rows[j])
  }

  lemma {:induction false} LeqInOrder(fields: seq<OrderField>, kinds: seq<Kind>, a: Row, b: Row)
    requires Comparable(fields, kinds, a, b) && Leq(fields, kinds, a, b)
    ensures InOrder(fields, kinds, a, b)
  {
    forall d | 0 <= d < |fields| && forall e | 0 <= e < d :: a[fields[e].column] == b[fields[e].column]
      ensures MayFollow(fields[d], a, b)
    {
      var k, i := kinds[fields[d].column], fields[d].column;
      assert !ComesFirst(fields[d], b, a);
      FieldMeans(fields[d], b, a, kinds);
      FieldMeans(fields[d], a, b, kinds);
      CompareOrder(k, a[i], b[i], Null);
    }
  }
}
