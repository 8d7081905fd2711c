/** Which database holds which table, parsed from configuration. */
module Topologies {
  import opened Options
  import Decimal
  import opened Lists

  /** The text for one database: one index, an inclusive range of indices, or anything else. */
  datatype Entry = Index(index: nat) | Interval(begin: nat, end: nat) | Malformed

  /** A database or table name: a base and a number, or the empty name. */
  datatype Name = Numbered(base: string, number: nat) | Blank

  datatype Topology = Topology(
    dbs: map<Name, seq<Name>>,
    tables: map<Name, Name>,
    tableIndexMap: map<nat, Name>,
    tableSlice: seq<nat>)

  function Text(n: Name): string {
    match n
    case Numbered(base, number) => base + "_" + Decimal.Natural(number)
    case Blank => ""
  }

  /** Names of one base are told apart by their text. */
  lemma {:induction false} TextInjective(base: string, i: nat, j: nat)
    ensures Text(Numbered(base, i)) == Text(Numbered(base, j)) <==> i == j
  {
    var p := base + "_";
    assert Text(Numbered(base, i))[|p|..] == Decimal.Natural(i) && Text(Numbered(base, j))[|p|..] == Decimal.Natural(j);
    if Decimal.Natural(i) == Decimal.Natural(j) { Decimal.NaturalInjective(i, j); }
  }

  predicate WellFormed(e: Entry) {
    e.Index? || (e.Interval? && e.begin < e.end)
  }

  function Indices(e: Entry): (s: seq<nat>)
  {
    match e
    case Index(i) => Upto(i, i + 1)
    case Interval(b, e) => Upto(b, e + 1)
    case Malformed => []
  }

  /** An index stands for itself, and an interval for everything from its begin to its end, both included, in order. */
  lemma {:induction false} IndicesExact(e: Entry)
    ensures forall i: nat :: i in Indices(e) <==> (e.Index? && i == e.index) || (e.Interval? && e.begin <= i <= e.end)
    ensures forall j, k | 0 <= j < k < |Indices(e)| :: Indices(e)[j] < Indices(e)[k]
  {
    var s := Indices(e);
    forall i: nat | (e.Index? && i == e.index) || (e.Interval? && e.begin <= i <= e.end) ensures i in s {
      var first := if e.Index? then e.index else e.begin;
      assert s[i - first] == i;
    }
  }

  /** `first`, `first + 1`, up to but not including `end`. */
  function Upto(first: nat, end: nat): seq<nat> {
    if first >= end then [] else seq(end - first, k requires 0 <= k => first + k)
  }

  lemma {:induction false} UptoNext(first: nat, end: nat)
    requires first <= end
    ensures Upto(first, end + 1) == Upto(first, end) + [end]
  {
  }

  function Names(base: string, s: seq<nat>): seq<Name> {
    if s == [] then [] else Names(base, s[..|s| - 1]) + [Numbered(base, s[|s| - 1])]
  }

  /** The databases `0 .. n - 1` are all configured, each in a form that is understood. */
  predicate Configured(config: map<int, Entry>, n: nat) {
    forall d | 0 <= d < n :: d in config && WellFormed(config[d])
  }

  /** Every index of databases `0 .. n - 1`, in order. */
  function Listing(config: map<int, Entry>, n: nat): seq<nat>
    requires Configured(config, n)
  {
    if n == 0 then [] else Listing(config, n - 1) + Indices(config[n - 1])
  }

  /** The last of the databases `0 .. n - 1` that lists index `i`. */
  function Owner(config: map<int, Entry>, n: nat, i: nat): (d: nat)
    requires Configured(config, n) && i in Listing(config, n)
    ensures d < n && i in Indices(config[d])
  {
    if i in Indices(config[n - 1]) then n - 1 else Owner(config, n - 1, i)
  }

  function Max(s: seq<nat>): nat {
    if s == [] then 0 else
      var m := Max(s[..|s| - 1]);
      if m < s[|s| - 1] then s[|s| - 1] else m
  }

  lemma {:induction false} MaxAppend(s: seq<nat>, x: nat)
    ensures Max(s + [x]) == if Max(s) < x then x else Max(s)
  {
    assert (s + [x])[..|s|] == s;
  }

  lemma {:induction false} MaxBounds(s: seq<nat>)
    ensures forall x | x in s :: x <= Max(s)
  {
    if s != [] {
      MaxBounds(s[..|s| - 1]);
      assert s == s[..|s| - 1] + [s[|s| - 1]];
    }
  }

  // ----- building the maps -----

  function WithTable(t: Topology, realDB: Name, table: string, i: nat): Topology {
    t.(tables := t.tables[Numbered(table, i) := realDB], tableIndexMap := t.tableIndexMap[i := Numbered(table, i)], tableSlice := t.tableSlice + [i])
  }

  function WithTables(t: Topology, realDB: Name, table: string, s: seq<nat>): Topology {
    if s == [] then t else WithTable(WithTables(t, realDB, table, s[..|s| - 1]), realDB, table, s[|s| - 1])
  }

  function WithDatabase(t: Topology, db: string, table: string, d: nat, entry: Entry): Topology {
    var u := WithTables(t, Numbered(db, d), table, Indices(entry));
    u.(dbs := u.dbs[Numbered(db, d) := Names(table, Indices(entry))])
  }

  /** The topology of databases `0 .. n - 1`. */
  function Build(db: string, table: string, config: map<int, Entry>, n: nat): Topology
    requires Configured(config, n)
  {
    if n == 0 then Topology(map[], map[], map[], []) else WithDatabase(Build(db, table, config, n - 1), db, table, n - 1, config[n - 1])
  }

  lemma {:induction false} WithTablesNext(t: Topology, realDB: Name, table: string, s: seq<nat>, i: nat)
    ensures WithTables(t, realDB, table, s + [i]) == WithTable(WithTables(t, realDB, table, s), realDB, table, i)
    ensures Names(table, s + [i]) == Names(table, s) + [Numbered(table, i)]
  {
    assert (s + [i])[..|s|] == s;
  }

  /** What has been added after the tables `first .. j - 1`. */
  predicate Added(t: Topology, realDB: Name, table: string, first: nat, j: nat, u: Topology, names: seq<Name>, m: nat)
    requires first <= j
  {
    u == WithTables(t, realDB, table, Upto(first, j)) && names == Names(table, Upto(first, j)) && m == Max(u.tableSlice)
  }

  method AddTable(t: Topology, realDB: Name, table: string, first: nat, j: nat, u: Topology, names: seq<Name>, m: nat)
    returns (v: Topology, more: seq<Name>, max: nat)
    requires first <= j && Added(t, realDB, table, first, j, u, names, m)
    ensures Added(t, realDB, table, first, j + 1, v, more, max)
  {
    UptoNext(first, j);
    WithTablesNext(t, realDB, table, Upto(first, j), j);
    MaxAppend(u.tableSlice, j);
    v := WithTable(u, realDB, table, j);
    more := names + [Numbered(table, j)];
    max := if m < j then j else m;
  }

  /** The tables `first .. end - 1`, all of database `realDB`. */
  method AddTables(t: Topology, realDB: Name, table: string, first: nat, end: nat, max: nat)
    returns (u: Topology, names: seq<Name>, m: nat)
    requires first <= end && max == Max(t.tableSlice)
    ensures Added(t, realDB, table, first, end, u, names, m)
  {
    u, names, m := t, [], max;
    for j := first to end
      invariant Added(t, realDB, table, first, j, u, names, m)
    {
      u, names, m := AddTable(t, realDB, table, first, j, u, names, m);
    }
  }

  /** The tables of one database; refused unless its text is understood. */
  method AddDatabase(t: Topology, db: string, table: string, d: nat, entry: Entry, max: nat)
    returns (ok: bool, u: Topology, m: nat)
    requires max == Max(t.tableSlice)
    ensures ok <==> WellFormed(entry)
    ensures ok ==> u == WithDatabase(t, db, table, d, entry) && m == Max(u.tableSlice)
  {
    var realDB := Numbered(db, d);
    var names: seq<Name>;
    match entry {
      case Malformed => return false, t, max;
      case Index(i) => u, names, m := AddTables(t, realDB, table, i, i + 1, max);
      case Interval(begin, end) =>
        if begin >= end { return false, t, max; }
        u, names, m := AddTables(t, realDB, table, begin, end + 1, max);
    }
    ok, u := true, u.(dbs := u.dbs[realDB := names]);
  }

  lemma {:induction false} BuildNext(db: string, table: string, config: map<int, Entry>, n: nat, u: Topology)
    requires Configured(config, n + 1) && u == WithDatabase(Build(db, table, config, n), db, table, n, config[n])
    ensures u == Build(db, table, config, n + 1)
  {
  }

  /** The topology of the configured databases, or nothing when the configuration is refused. */
  method Parse(db: string, table: string, config: map<int, Entry>) returns (r: Option<Topology>)
    ensures r.Some? <==> Accepted(config)
    ensures r.Some? ==> r.value == Build(db, table, config, |config|)
  {
    var t := Topology(map[], map[], map[], []);
    var max := 0;
    for d := 0 to |config|
      invariant Configured(config, d) && t == Build(db, table, config, d)
      invariant max == Max(t.tableSlice)
    {
      if d !in config { return None; }
      var ok;
      ok, t, max := AddDatabase(t, db, table, d, config[d], max);
      if !ok { return None; }
      BuildNext(db, table, config, d, t);
    }
    BuildSlice(db, table, config, |config|);
    if max != |t.tableSlice| - 1 { return None; }
    return Some(t);
  }

  // ----- what the maps say -----

  predicate Accepted(config: map<int, Entry>) {
    Configured(config, |config|) && Max(Listing(config, |config|)) == |Listing(config, |config|)| - 1
  }

  lemma {:induction false} MaxOccurs(s: seq<nat>)
    requires s != []
    ensures Max(s) in s
  {
    var init := s[..|s| - 1];
    assert s == init + [s[|s| - 1]];
    if init != [] { MaxOccurs(init); }
  }

  /**
   * A configuration is accepted exactly when every database from zero up has an index or an interval that is not empty
   * and not a single index, and the largest index is one less than the number of indices, of which there are some.
   */
  lemma {:induction false} AcceptedExactly(config: map<int, Entry>)
    ensures Accepted(config) <==>
            && (forall d | 0 <= d < |config| :: d in config && (config[d].Index? || (config[d].Interval? && config[d].begin + 1 <= config[d].end)))
            && Configured(config, |config|)
            && var s := Listing(config, |config|);
               s != [] && |s| - 1 in s && forall i | i in s :: i <= |s| - 1
  {
    if Configured(config, |config|) {
      var s := Listing(config, |config|);
      MaxBounds(s);
      if s != [] { MaxOccurs(s); }
    }
  }

  lemma {:induction false} WithTablesSlice(t: Topology, realDB: Name, table: string, s: seq<nat>)
    ensures WithTables(t, realDB, table, s).tableSlice == t.tableSlice + s
    ensures WithTables(t, realDB, table, s).dbs == t.dbs
  {
    if s != [] {
      WithTablesSlice(t, realDB, table, s[..|s| - 1]);
      assert s == s[..|s| - 1] + [s[|s| - 1]];
    }
  }

  lemma {:induction false} BuildSlice(db: string, table: string, config: map<int, Entry>, n: nat)
    requires Configured(config, n)
    ensures Build(db, table, config, n).tableSlice == Listing(config, n)
  {
    if n > 0 {
      BuildSlice(db, table, config, n - 1);
      WithTablesSlice(Build(db, table, config, n - 1), Numbered(db, n - 1), table, Indices(config[n - 1]));
    }
  }

  /** How index `i` and the name of its table are entered in the two maps. */
  datatype Placing = Absent | Placed(name: Name, db: Name)

  function PlacingOf(t: Topology, table: string, i: nat): Placing {
    if i in t.tableIndexMap && Numbered(table, i) in t.tables then Placed(t.tableIndexMap[i], t.tables[Numbered(table, i)]) else Absent
  }

  lemma {:induction false} WithTablesPlacing(t: Topology, realDB: Name, table: string, s: seq<nat>, i: nat)
    ensures PlacingOf(WithTables(t, realDB, table, s), table, i) ==
            if i in s then Placed(Numbered(table, i), realDB) else PlacingOf(t, table, i)
  {
    if s != [] {
      WithTablesPlacing(t, realDB, table, s[..|s| - 1], i);
      assert s == s[..|s| - 1] + [s[|s| - 1]];
    }
  }

  /** Both maps hold exactly the configured indices, each with its own name and the last database that lists it. */
  lemma {:induction false} BuildPlacing(db: string, table: string, config: map<int, Entry>, n: nat, i: nat)
    requires Configured(config, n)
    ensures PlacingOf(Build(db, table, config, n), table, i) ==
            if i in Listing(config, n) then Placed(Numbered(table, i), Numbered(db, Owner(config, n, i))) else Absent
  {
    if n > 0 {
      BuildPlacing(db, table, config, n - 1, i);
      WithTablesPlacing(Build(db, table, config, n - 1), Numbered(db, n - 1), table, Indices(config[n - 1]), i);
    }
  }

  /** Every configured database is entered with its own tables, in order, and no other database is. */
  lemma {:induction false} BuildDatabases(db: string, table: string, config: map<int, Entry>, n: nat, x: Name)
    requires Configured(config, n)
    ensures x in Build(db, table, config, n).dbs <==> x.Numbered? && x.base == db && x.number < n
    ensures x in Build(db, table, config, n).dbs ==> Build(db, table, config, n).dbs[x] == Names(table, Indices(config[x.number]))
  {
    if n > 0 {
      BuildDatabases(db, table, config, n - 1, x);
      WithTablesSlice(Build(db, table, config, n - 1), Numbered(db, n - 1), table, Indices(config[n - 1]));
    }
  }

  /** An accepted topology has every index from zero up exactly when no index is configured twice. */
  lemma {:induction false} AcceptedCovers(config: map<int, Entry>)
    requires Accepted(config)
    ensures var s := Listing(config, |config|); NoDup(s) <==> forall i: nat | i < |s| :: i in s
  {
    var s := Listing(config, |config|);
    MaxBounds(s);
    Pigeonhole(s);
  }

  // ----- routing a list of tables -----

  function TableOf(t: Topology, i: int): Name {
    if i >= 0 && i in t.tableIndexMap then t.tableIndexMap[i] else Blank
  }

  function DatabaseOf(t: Topology, i: int): Name {
    if TableOf(t, i) in t.tables then t.tables[TableOf(t, i)] else Blank
  }

  /** The tables of database `x` among those listed, in the order of the list. */
  function RoutedTo(t: Topology, list: seq<int>, x: Name): seq<Name> {
    if list == [] then []
    else RoutedTo(t, list[..|list| - 1], x) + if DatabaseOf(t, list[|list| - 1]) == x then [TableOf(t, list[|list| - 1])] else []
  }

  /** Whether the list asks for a full scan, and the listed tables by database. */
  method Route(t: Topology, list: seq<int>) returns (full: bool, result: map<Name, seq<Name>>)
    ensures full <==> |list| == |t.tableSlice|
    ensures forall x :: x in result <==> RoutedTo(t, list, x) != []
    ensures forall x | x in result :: result[x] == RoutedTo(t, list, x)
  {
    result := map[];
    for j := 0 to |list|
      invariant forall x :: x in result <==> RoutedTo(t, list[..j], x) != []
      invariant forall x | x in result :: result[x] == RoutedTo(t, list[..j], x)
    {
      assert list[..j + 1][..j] == list[..j];
      var table, db := TableOf(t, list[j]), DatabaseOf(t, list[j]);
      result := result[db := (if db in result then result[db] else []) + [table]];
    }
    assert list[..|list|] == list;
    full := |list| == |t.tableSlice|;
  }

  /** With every index configured once, a list without repetition asks for a full scan exactly when it has every table. */
  lemma {:induction false} FullScanExact(config: map<int, Entry>, list: seq<int>)
    requires Accepted(config)
    requires NoDup(Listing(config, |config|))
    requires NoDup(list) && forall i | i in list :: i >= 0 && i in Listing(config, |config|)
    ensures |list| == |Listing(config, |config|)| <==> forall i | i in Listing(config, |config|) :: i in list
  {
    var s := Listing(config, |config|);
    AcceptedCovers(config);
    MaxBounds(s);
    FullList(list, |s|);
  }

  lemma {:induction false} LookedUp(db: string, table: string, config: map<int, Entry>, i: nat)
    requires Configured(config, |config|) && i in Listing(config, |config|)
    ensures TableOf(Build(db, table, config, |config|), i) == Numbered(table, i)
    ensures DatabaseOf(Build(db, table, config, |config|), i) == Numbered(db, Owner(config, |config|, i))
  {
    BuildPlacing(db, table, config, |config|, i);
  }

  /** Each listed table is routed to the database that lists it, to no other, and only once. */
  lemma {:induction false} RoutedOnce(db: string, table: string, config: map<int, Entry>, list: seq<int>, i: nat,
                                      x: Name)
    requires Configured(config, |config|)
    requires NoDup(list) && forall j | j in list :: j >= 0 && j in Listing(config, |config|)
    requires i in Listing(config, |config|)
    ensures multiset(RoutedTo(Build(db, table, config, |config|), list, x))[Numbered(table, i)] ==
            if i in list && x == Numbered(db, Owner(config, |config|, i)) then 1 else 0
  {
    if list != [] {
      var t, init, last := Build(db, table, config, |config|), list[..|list| - 1], list[|list| - 1];
      NoDupInit(list);
      assert last in list && forall j | j in init :: j in list;
      RoutedOnce(db, table, config, init, i, x);
      LookedUp(db, table, config, last);
      assert RoutedTo(t, list, x) == RoutedTo(t, init, x) + if DatabaseOf(t, last) == x then [Numbered(table, last)] else [];
    }
  }
}
