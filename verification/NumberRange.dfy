/** Sharding by ranges of keys. The ranges sit in a map, so every loop over them runs in an arbitrary order. */
module NumberRange {
  import opened Conditions
  import opened Algorithms
  import opened Lists

  /** The test each comparison applies to one range. */
  predicate Listed(op: Op, r: Range, v: int) {
    match op
    case EQ => r.from <= v < r.to
    case NE => true
    case LT => r.from < v
    case LE => r.from <= v
    case GT => r.to > v
    case GE => r.to >= v
  }

  /** The ranges that pass the test, in an arbitrary order. */
  method ListRanges(a: Algorithm, op: Op, v: int) returns (result: seq<int>)
    requires a.NumberRange?
    ensures forall i :: i in result <==> i in a.ranges && Listed(op, a.ranges[i], v)
    ensures NoDup(result)
  {
    result := [];
    var todo: set<int> := a.ranges.Keys;
    while true
      invariant todo <= a.ranges.Keys
      invariant forall i :: i in result <==> i in a.ranges.Keys - todo && Listed(op, a.ranges[i], v)
      invariant NoDup(result)
      decreases todo
    {
      if i :| i in todo {
        todo := todo - {i};
        if Listed(op, a.ranges[i], v) {
          NoDupAppend(result, i);
          result := result + [i];
        }
      } else {
        break;
      }
    }
  }

  /** The range holds a key that meets the comparison, or ends one short of a `>` bound or right at a `>=` bound. */
  ghost predicate Brushes(a: Algorithm, k: Key, i: int)
    requires a.NumberRange?
  {
    && i in a.ranges
    && (Reaches(a, One(k), i) || (k.op == GT && a.ranges[i].to == k.value + 1) || (k.op == GE && a.ranges[i].to == k.value))
  }

  /** The tables one comparison reaches. */
  method Shard(a: Algorithm, k: Key) returns (s: Shards)
    requires a.NumberRange? && Valid(a)
    ensures s.Tables? || s.All?
    ensures !OnColumn(a, k) ==> s == All
    ensures OnColumn(a, k) ==> Sound(a, One(k), s)
    ensures OnColumn(a, k) && k.op != NE ==> s.Tables? && NoDup(s.indices) && forall i :: i in s.indices <==> Brushes(a, k, i)
  {
    if !OnColumn(a, k) || k.op == NE { return All; }
    var result := ListRanges(a, k.op, k.value);
    forall i | i in result && !(k.op == GT && a.ranges[i].to == k.value + 1) && !(k.op == GE && a.ranges[i].to == k.value)
      ensures Reaches(a, One(k), i)
    {
      var r := a.ranges[i];
      var x := if k.op == EQ then k.value else if k.op in {LT, LE} then r.from else r.to - 1;
      assert Lives(a, x, i);
    }
    return Tables(result);
  }

  predicate Spans(r: Range, v: int) {
    r.from <= v <= r.to
  }

  /** A possible answer of `Locate`: some range that spans the value, or -1 when none does. */
  ghost predicate Located(a: Algorithm, v: int, i: int)
    requires a.NumberRange?
  {
    if i in a.ranges then Spans(a.ranges[i], v) else i == -1 && forall j | j in a.ranges :: !Spans(a.ranges[j], v)
  }

  method Locate(a: Algorithm, v: int) returns (i: int)
    requires a.NumberRange? && Valid(a)
    ensures Located(a, v, i)
    // both ends of a range count as within it
    ensures i in a.ranges ==> a.ranges[i].from <= v <= a.ranges[i].to
    ensures i !in a.ranges ==> i == -1 && forall j | j in a.ranges :: v < a.ranges[j].from || v > a.ranges[j].to
  {
    var todo: set<int> := a.ranges.Keys;
    while true
      invariant todo <= a.ranges.Keys
      invariant forall j | j in a.ranges.Keys - todo :: !Spans(a.ranges[j], v)
      decreases todo
    {
      if j :| j in todo {
        todo := todo - {j};
        if Spans(a.ranges[j], v) { return j; }
      } else {
        return -1;
      }
    }
  }

  function Span(start: int, stop: int): Shards {
    if (start == -1 && stop == -1) || stop < start then None
    else Tables(seq(stop - start + 1, j requires 0 <= j => start + j))
  }

  lemma {:induction false} SpanCovers(a: Algorithm, start: int, stop: int, i: int)
    ensures Covers(a, Span(start, stop), i) <==> !(start == -1 && stop == -1) && start <= i <= stop
  {
    if !(start == -1 && stop == -1) && start <= i <= stop {
      assert Span(start, stop).indices[i - start] == i;
    }
  }

  /** A range does not start beyond the upper bound, nor end below the lower one if that lies in a range. */
  ghost predicate Between(a: Algorithm, lower: Key, upper: Key, i: int)
    requires a.NumberRange?
  {
    i in a.ranges ==> a.ranges[i].from <= upper.value && (Spanned(a, lower.value) ==> lower.value <= a.ranges[i].to)
  }

  lemma {:induction false} SpanBetween(a: Algorithm, lower: Key, upper: Key, start: int, stop: int)
    requires a.NumberRange? && Valid(a) && Located(a, lower.value, start) && Located(a, upper.value, stop)
    ensures !Span(start, stop).All? && !Span(start, stop).Nil?
    ensures forall i | Covers(a, Span(start, stop), i) :: Between(a, lower, upper, i)
    ensures Span(start, stop).Tables? ==> NoDup(Span(start, stop).indices)
  {
    forall i | Covers(a, Span(start, stop), i) ensures Between(a, lower, upper, i) {
      SpanCovers(a, start, stop, i);
      assert stop in a.ranges;
    }
  }

  /** The tables reached by two bounds together. */
  method ShardRange(a: Algorithm, lower: Key, upper: Key) returns (s: Shards)
    requires a.NumberRange? && Valid(a)
    ensures !s.Nil?
    ensures !OnColumn(a, lower) ==> s == All
    ensures OnColumn(a, lower) && lower.op in {GT, GE} && upper.op in {LT, LE} ==>
              exists start, stop :: Located(a, lower.value, start) && Located(a, upper.value, stop) && s == Span(start, stop)
    ensures OnColumn(a, lower) && lower.op in {GT, GE} && upper.op in {LT, LE} ==>
              !s.All? && (s.Tables? ==> NoDup(s.indices)) && forall i | Covers(a, s, i) :: Between(a, lower, upper, i)
    ensures OnColumn(a, lower) && lower.op in {GT, GE} && upper.op in {LT, LE} && Reliable(a, lower, upper) ==>
              Sound(a, Two(lower, upper), s)
    // a value excluded in front of an upper bound is ignored: the tables are those that the bound reaches
    ensures OnColumn(a, lower) && lower.op == NE && upper.op in {LT, LE} ==>
              s.Tables? && NoDup(s.indices) && Sound(a, Two(lower, upper), s) && Tight(a, One(upper), s)
    ensures OnColumn(a, lower) && !(lower.op in {GT, GE, NE} && upper.op in {LT, LE}) ==> s == Tables([])
  {
    if !OnColumn(a, lower) { return All; }
    if !(lower.op in {GT, GE, NE} && upper.op in {LT, LE}) { return Tables([]); }
    if lower.op == NE {
      var listed := ListRanges(a, upper.op, upper.value);
      forall i | i in listed ensures Reaches(a, One(upper), i) { assert Lives(a, a.ranges[i].from, i); }
      return Tables(listed);
    }
    var start := Locate(a, lower.value);
    var stop := Locate(a, upper.value);
    s := Span(start, stop);
    if Reliable(a, lower, upper) { ReliableIsSound(a, lower, upper, start, stop); }
    SpanBetween(a, lower, upper, start, stop);
    if start == -1 && stop == -1 { return None; }
    if stop >= start {
      var result: seq<int> := [];
      for i := start to stop + 1
        invariant result == seq(i - start, j requires 0 <= j => start + j)
      {
        result := result + [i];
      }
      return Tables(result);
    }
    return None;
  }

  ghost predicate Spanned(a: Algorithm, v: int)
    requires a.NumberRange?
  {
    exists i | i in a.ranges :: Spans(a.ranges[i], v)
  }

  /** One range ends, and another starts, at `v`. */
  ghost predicate Boundary(a: Algorithm, v: int)
    requires a.NumberRange?
  {
    exists i, j | i in a.ranges && j in a.ranges :: a.ranges[i].to == v && a.ranges[j].from == v
  }

  /** The upper bound lies in or at the end of some range, and is not an inclusive bound where two ranges meet. */
  ghost predicate Reliable(a: Algorithm, lower: Key, upper: Key)
    requires a.NumberRange?
  {
    || (forall i :: !Reaches(a, Two(lower, upper), i))
    || (Spanned(a, upper.value) && !(upper.op == LE && Boundary(a, upper.value)))
  }

  lemma {:induction false} ReliableIsSound(a: Algorithm, lower: Key, upper: Key, start: int, stop: int)
    requires a.NumberRange? && Valid(a) && lower.op in {GT, GE} && upper.op in {LT, LE}
    requires Reliable(a, lower, upper)
    requires Located(a, lower.value, start) && Located(a, upper.value, stop)
    ensures Sound(a, Two(lower, upper), Span(start, stop))
  {
    forall i | Reaches(a, Two(lower, upper), i) ensures Covers(a, Span(start, stop), i) {
      var x :| Lives(a, x, i) && Meets(Two(lower, upper), x);
      SpanCovers(a, start, stop, i);
      assert stop in a.ranges;
    }
  }

  /** Bounds that are not reliable lose a row in some order. */
  lemma {:induction false} UnreliableLoses(a: Algorithm, lower: Key, upper: Key) returns (start: int, stop: int)
    requires a.NumberRange? && Valid(a) && lower.op in {GT, GE} && upper.op in {LT, LE} && lower.value < upper.value
    requires !Reliable(a, lower, upper)
    ensures Located(a, lower.value, start) && Located(a, upper.value, stop) && !Sound(a, Two(lower, upper), Span(start, stop))
  {
    var g := Two(lower, upper);
    start := SomeLocation(a, lower.value);
    if !Spanned(a, upper.value) {
      var i :| Reaches(a, g, i);
      stop := -1;
      SpanCovers(a, start, stop, i);
    } else {
      var l, h :| l in a.ranges && h in a.ranges && a.ranges[l].to == upper.value && a.ranges[h].from == upper.value;
      stop := l;
      assert Lives(a, upper.value, h) && Meets(g, upper.value);
      assert Reaches(a, g, h);
      SpanCovers(a, start, stop, h);
    }
  }

  /** Whatever order the map is walked in, pruning by a pair of bounds is sound exactly when the bounds are reliable. */
  lemma {:induction false} SoundInEveryOrder(a: Algorithm, lower: Key, upper: Key)
    requires a.NumberRange? && Valid(a) && lower.op in {GT, GE} && upper.op in {LT, LE} && lower.value < upper.value
    ensures Reliable(a, lower, upper) <==>
            forall start, stop | Located(a, lower.value, start) && Located(a, upper.value, stop) ::
              Sound(a, Two(lower, upper), Span(start, stop))
  {
    if Reliable(a, lower, upper) {
      forall start, stop | Located(a, lower.value, start) && Located(a, upper.value, stop)
        ensures Sound(a, Two(lower, upper), Span(start, stop))
      {
        ReliableIsSound(a, lower, upper, start, stop);
      }
    } else {
      var start, stop := UnreliableLoses(a, lower, upper);
    }
  }

  lemma {:induction false} SomeLocation(a: Algorithm, v: int) returns (i: int)
    requires a.NumberRange? && Valid(a)
    ensures Located(a, v, i)
  {
    if Spanned(a, v) { i :| i in a.ranges && Spans(a.ranges[i], v); } else { i := -1; }
  }
}
