/** The two sharding algorithms: which table stores a key value, and which tables a comparison reaches. */
module Algorithms {
  import opened Conditions
  import opened Lists

  /** The keys from `from` up to but not including `to`. */
  datatype Range = Range(from: int, to: int)

  datatype Algorithm =
    | NumberMod(column: string, tables: seq<int>)
    | NumberRange(column: string, tables: seq<int>, ranges: map<int, Range>)

  /** What pruning yields: a list of tables, every table, no table, or no condition at all. */
  datatype Shards = Tables(indices: seq<int>) | All | None | Nil

  /** Keys of one column that are decided together. */
  datatype Group = One(key: Key) | Two(first: Key, second: Key)

  ghost predicate Valid(a: Algorithm) {
    match a
    case NumberMod(_, tables) =>
      tables != [] && NoDup(tables) && forall i :: i in tables <==> 0 <= i < |tables|
    case NumberRange(_, tables, ranges) =>
      && (forall i | i in ranges :: 0 <= i && i in tables && ranges[i].from < ranges[i].to)
      && (forall i, j | i in ranges && j in ranges && i < j :: ranges[i].to <= ranges[j].from)
  }

  predicate OnColumn(a: Algorithm, k: Key) {
    Fold(k.column) == Fold(a.column)
  }

  /** Key value `x` is stored in table `i`; there is no table for a negative value under modulo. */
  ghost predicate Lives(a: Algorithm, x: int, i: int) {
    match a
    case NumberMod(_, tables) => x >= 0 && tables != [] && x % |tables| == i
    case NumberRange(_, _, ranges) => i in ranges && ranges[i].from <= x < ranges[i].to
  }

  ghost predicate Home(a: Algorithm, row: Row, i: int) {
    Fold(a.column) in row && Lives(a, row[Fold(a.column)], i)
  }

  function Keys(g: Group): seq<Key> {
    match g
    case One(k) => [k]
    case Two(k, l) => [k, l]
  }

  predicate Meets(g: Group, x: int) {
    match g
    case One(k) => Compares(k.op, x, k.value)
    case Two(k, l) => Compares(k.op, x, k.value) && Compares(l.op, x, l.value)
  }

  /** Some key value stored in table `i` meets the whole group. */
  ghost predicate Reaches(a: Algorithm, g: Group, i: int) {
    exists x :: Lives(a, x, i) && Meets(g, x)
  }

  /** Table `i` is not pruned. Nothing is known of a missing condition. */
  ghost predicate Covers(a: Algorithm, s: Shards, i: int) {
    match s
    case Tables(indices) => i in indices
    case All => i in a.tables
    case None => false
    case Nil => true
  }

  /** No table holding a key value that meets the group is missing. */
  ghost predicate Sound(a: Algorithm, g: Group, s: Shards) {
    forall i | Reaches(a, g, i) :: Covers(a, s, i)
  }

  /** Every table that is listed holds, for some key value, a row that meets the group. */
  ghost predicate Tight(a: Algorithm, g: Group, s: Shards) {
    forall i | Covers(a, s, i) :: Reaches(a, g, i)
  }
}
