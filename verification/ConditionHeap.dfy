/** Conditions as objects that are extended in place. */
module ConditionHeap {
  import opened Conditions
  import opened Lists
  import A = ConditionAlgebra

  /** A conjunction; its members are keys. */
  class Conj {
    var keys: seq<Key>

    constructor (keys: seq<Key>)
      ensures this.keys == keys
    {
      this.keys := keys;
    }
  }

  datatype Member = KeyMember(key: Key) | ConjMember(conj: Conj)

  /** A disjunction; its members are keys and conjunctions. */
  class Disj {
    var members: seq<Member>

    constructor (members: seq<Member>)
      ensures this.members == members
    {
      this.members := members;
    }
  }

  datatype Cond = K(key: Key) | C(conj: Conj) | D(disj: Disj) | T | F | Nil

  // ----- values of objects -----

  function Conjs(ms: seq<Member>): set<Conj> {
    set m | m in ms && m.ConjMember? :: m.conj
  }

  function Own(m: Member): set<Conj> {
    if m.ConjMember? then {m.conj} else {}
  }

  predicate ShowsOne(m: Member, a: A.Atom)
    reads Own(m)
  {
    match m case KeyMember(k) => a == A.KeyAtom(k) case ConjMember(c) => a == A.ConjAtom(c.keys)
  }

  /** The members are objects for these values. */
  predicate Shows(ms: seq<Member>, atoms: seq<A.Atom>)
    reads Conjs(ms)
  {
    |ms| == |atoms| && forall i | 0 <= i < |ms| :: ShowsOne(ms[i], atoms[i])
  }

  /** A condition is an object for this value. */
  predicate Is(c: Cond, v: A.Dnf)
    reads if c.C? then {c.conj} else {}
    reads if c.D? then {c.disj} + Conjs(c.disj.members) else {}
  {
    match c
    case K(k) => v == A.OfKey(k)
    case C(n) => v == A.OfConj(n.keys)
    case D(n) => v.OfDisj? && Shows(n.members, v.atoms)
    case T => v == A.Yes
    case F => v == A.No
    case Nil => v == A.Missing
  }

  /** The value that a member shows. */
  function ShownBy(m: Member): (a: A.Atom)
    reads Own(m)
    ensures ShowsOne(m, a)
  {
    if m.KeyMember? then A.KeyAtom(m.key) else A.ConjAtom(m.conj.keys)
  }

  /** Every conjunction of `r` is in `s`. */
  predicate Within(r: seq<Member>, s: set<Conj>) {
    forall i | 0 <= i < |r| :: r[i].ConjMember? ==> r[i].conj in s
  }

  /** No conjunction occurs twice. */
  predicate Distinct(ms: seq<Member>) {
    forall i, j | 0 <= i < j < |ms| :: ms[i].ConjMember? && ms[j].ConjMember? ==> ms[i].conj != ms[j].conj
  }

  // ----- conjunction -----

  /** A key and a member: nothing is changed, and a conjunction that results is new. */
  method KeyAnd(k: Key, m: Member, ghost a: A.Atom) returns (r: Member)
    requires ShowsOne(m, a)
    ensures ShowsOne(r, A.KeyAnd(k, a))
    ensures r.ConjMember? ==> fresh(r.conj)
  {
    match m {
      case KeyMember(l) =>
        var n := new Conj([k, l]);
        r := ConjMember(n);
      case ConjMember(c) =>
        r := KeyMember(k);
        var i := 0;
        while i < |c.keys|
          invariant 0 <= i <= |c.keys|
          invariant i == 0 ==> r == KeyMember(k)
          invariant i > 0 ==> r.ConjMember? && fresh(r.conj) && r.conj.keys == [k] + c.keys[..i]
        {
          var n := new Conj((if r.KeyMember? then [k] else r.conj.keys) + [c.keys[i]]);
          r := ConjMember(n);
          i := i + 1;
        }
    }
  }

  /** Appending a member keeps what the list shows. */
  lemma {:induction false} ShowsAppend(r: seq<Member>, done: seq<A.Atom>, m: Member, a: A.Atom)
    requires Shows(r, done) && ShowsOne(m, a)
    ensures Shows(r + [m], done + [a])
  {
  }

  /** Appending a conjunction that does not occur yet. */
  lemma {:induction false} DistinctAppend(r: seq<Member>, m: Member)
    requires Distinct(r) && (m.ConjMember? ==> m !in r)
    ensures Distinct(r + [m])
  {
  }

  /** A key and every member. */
  method KeyAndMembers(k: Key, ms: seq<Member>, ghost atoms: seq<A.Atom>) returns (r: seq<Member>)
    requires Shows(ms, atoms)
    ensures Shows(r, A.KeyAndEach(k, atoms))
    ensures Distinct(r) && forall m | m in r && m.ConjMember? :: fresh(m.conj)
  {
    r := [];
    var i := 0;
    ghost var done: seq<A.Atom> := [];
    assert atoms[0..] == atoms;
    while i < |ms|
      invariant 0 <= i <= |ms| && Shows(r, done)
      invariant done + A.KeyAndEach(k, atoms[i..]) == A.KeyAndEach(k, atoms)
      invariant Distinct(r) && forall m | m in r && m.ConjMember? :: fresh(m.conj)
    {
      var m := KeyAnd(k, ms[i], atoms[i]);
      KeyAndEachNext(k, atoms, i, done);
      ShowsAppend(r, done, m, A.KeyAnd(k, atoms[i]));
      DistinctAppend(r, m);
      r := r + [m];
      done := done + [A.KeyAnd(k, atoms[i])];
      i := i + 1;
    }
    assert done + [] == done;
  }

  lemma {:induction false} KeyAndEachNext(k: Key, atoms: seq<A.Atom>, i: nat, done: seq<A.Atom>)
    requires i < |atoms|
    ensures done + A.KeyAndEach(k, atoms[i..]) == done + [A.KeyAnd(k, atoms[i])] + A.KeyAndEach(k, atoms[i + 1..])
  {
    assert atoms[i..][1..] == atoms[i + 1..];
  }

  lemma {:induction false} EntriesNext(ks: seq<Key>, atoms: seq<A.Atom>, i: nat, last: seq<Key>, done: seq<A.Atom>)
    requires i < |atoms|
    ensures done + A.Entries(ks, atoms[i..], last) ==
            done + [EntryFor(ks, atoms[i], last)] + A.Entries(Grown(ks, atoms[i]), atoms[i + 1..], last)
    ensures A.Gathered(ks, atoms[i..]) == A.Gathered(Grown(ks, atoms[i]), atoms[i + 1..])
  {
    assert atoms[i..][1..] == atoms[i + 1..];
  }

  /** An entry is the conjunction itself, or a copy that is no longer changed. */
  predicate Entry(m: Member, c: Conj, a: A.Atom, last: seq<Key>)
    reads Own(m)
  {
    m.ConjMember? && a == A.ConjAtom(if m.conj == c then last else m.conj.keys)
  }

  /** Entries for the first `i` members; as long as all of them were keys, none is the conjunction itself. */
  predicate Entered(c: Conj, ms: seq<Member>, i: nat, r: seq<Member>, atoms: seq<A.Atom>, done: seq<A.Atom>,
                    last: seq<Key>)
    reads Conjs(ms), Conjs(r)
  {
    && Shows(ms, atoms) && |r| == |done| && (forall j | 0 <= j < |r| :: Entry(r[j], c, done[j], last))
    && (A.KeysFirst(atoms) ==> Distinct(r) && (i < |ms| ==> ConjMember(c) !in r))
  }

  /** The keys and the entry that one member adds. */
  function Grown(ks: seq<Key>, a: A.Atom): seq<Key> {
    if a.KeyAtom? then ks else ks + a.keys
  }

  function EntryFor(ks: seq<Key>, a: A.Atom, last: seq<Key>): A.Atom {
    A.ConjAtom(if a.KeyAtom? then ks + [a.key] else last)
  }

  method Enter(c: Conj, ms: seq<Member>, i: nat, r: seq<Member>, ghost atoms: seq<A.Atom>, ghost done: seq<A.Atom>,
               ghost last: seq<Key>)
    returns (s: seq<Member>)
    requires i < |ms| && c !in Conjs(ms) && Entered(c, ms, i, r, atoms, done, last)
    modifies c
    ensures c.keys == Grown(old(c.keys), atoms[i])
    ensures Entered(c, ms, i + 1, s, atoms, done + [EntryFor(old(c.keys), atoms[i], last)], last)
    ensures forall m | m in s && m.ConjMember? :: m in r || m.conj == c || fresh(m.conj)
  {
    assert ShowsOne(ms[i], atoms[i]);
    match ms[i] {
      case KeyMember(k) =>
        var n := new Conj(c.keys + [k]);
        if A.KeysFirst(atoms) { DistinctAppend(r, ConjMember(n)); }
        s := r + [ConjMember(n)];
      case ConjMember(d) =>
        c.keys := c.keys + d.keys;
        if A.KeysFirst(atoms) { DistinctAppend(r, ConjMember(c)); }
        s := r + [ConjMember(c)];
    }
  }

  /** A conjunction and every member: copies for keys, and itself, extended, for conjunctions. */
  method ConjAndMembers(c: Conj, ms: seq<Member>, ghost atoms: seq<A.Atom>) returns (r: seq<Member>)
    requires Shows(ms, atoms) && c !in Conjs(ms)
    modifies c
    ensures Shows(r, A.ConjAndEach(old(c.keys), atoms)) && Shows(ms, atoms)
    ensures c.keys == A.Gathered(old(c.keys), atoms)
    ensures forall m | m in r && m.ConjMember? :: m.conj == c || fresh(m.conj)
    ensures A.KeysFirst(atoms) ==> Distinct(r)
  {
    r := [];
    var i := 0;
    ghost var last := A.Gathered(c.keys, atoms);
    ghost var done: seq<A.Atom> := [];
    assert atoms[0..] == atoms;
    while i < |ms|
      invariant 0 <= i <= |ms| && Entered(c, ms, i, r, atoms, done, last)
      invariant done + A.Entries(c.keys, atoms[i..], last) == A.ConjAndEach(old(c.keys), atoms)
      invariant A.Gathered(c.keys, atoms[i..]) == last
      invariant forall m | m in r && m.ConjMember? :: m.conj == c || fresh(m.conj)
    {
      EntriesNext(c.keys, atoms, i, last, done);
      ghost var a := EntryFor(c.keys, atoms[i], last);
      r := Enter(c, ms, i, r, atoms, done, last);
      done := done + [a];
      i := i + 1;
    }
    assert done + [] == done;
  }

  lemma {:induction false} ShowsConcat(r: seq<Member>, done: seq<A.Atom>, part: seq<Member>, more: seq<A.Atom>)
    requires Shows(r, done) && Shows(part, more)
    ensures Shows(r + part, done + more)
  {
  }

  lemma {:induction false} DistinctConcat(b: bool, r: seq<Member>, part: seq<Member>)
    requires b ==> Distinct(r) && Distinct(part) && forall m | m in r && m.ConjMember? :: m !in part
    ensures b ==> Distinct(r + part)
  {
    if b {
      forall i, j | 0 <= i < j < |r + part| && (r + part)[i].ConjMember? && (r + part)[j].ConjMember?
        ensures (r + part)[i].conj != (r + part)[j].conj
      {
        if i < |r| <= j {
          assert r[i] in r && part[j - |r|] in part;
        }
      }
    }
  }

  /** One member of the left side and every member of the right side. */
  method MemberAndMembers(x: Member, ms: seq<Member>, ghost a: A.Atom, ghost atoms: seq<A.Atom>)
    returns (r: seq<Member>)
    requires ShowsOne(x, a) && Shows(ms, atoms) && (x.ConjMember? ==> x.conj !in Conjs(ms))
    modifies Own(x)
    ensures Shows(r, A.AtomAndEach(a, atoms)) && Shows(ms, atoms)
    ensures x.ConjMember? ==> x.conj.keys == A.Gathered(old(x.conj.keys), atoms)
    ensures forall m | m in r && m.ConjMember? :: m == x || fresh(m.conj)
    ensures x.KeyMember? || A.KeysFirst(atoms) ==> Distinct(r)
  {
    match x {
      case KeyMember(k) => r := KeyAndMembers(k, ms, atoms);
      case ConjMember(c) => r := ConjAndMembers(c, ms, atoms);
    }
  }

  /** Nothing is appended to a conjunction before it is used again. */
  predicate Plain(x: Member, atoms: seq<A.Atom>) {
    x.KeyMember? || A.KeysFirst(atoms)
  }

  predicate AllPlain(xs: seq<Member>, atoms: seq<A.Atom>) {
    forall i | 0 <= i < |xs| :: Plain(xs[i], atoms)
  }

  // ----- conjunctions that are extended more than once -----

  /** A member of the left side: as it was, or with the keys of the right side as well. */
  ghost predicate ExtendedOne(m: Member, a: A.Atom, grown: set<Conj>, more: set<Key>)
    reads Own(m)
  {
    match m
    case KeyMember(k) => a == A.KeyAtom(k)
    case ConjMember(c) => a.ConjAtom? && if c in grown then A.KeySet(A.ConjAtom(c.keys)) == A.KeySet(a) + more else c.keys == a.keys
  }

  /** The left side, of which the conjunctions in `grown` are extended. */
  ghost predicate Extended(xs: seq<Member>, lefts: seq<A.Atom>, grown: set<Conj>, more: set<Key>)
    reads Conjs(xs)
  {
    |xs| == |lefts| && forall j | 0 <= j < |xs| :: ExtendedOne(xs[j], lefts[j], grown, more)
  }

  /** The key sets of the members. */
  ghost predicate Marked(r: seq<Member>, sets: seq<set<Key>>)
    reads Conjs(r)
  {
    |r| == |sets| && forall t | 0 <= t < |r| :: A.KeySet(ShownBy(r[t])) == sets[t]
  }

  lemma {:induction false} MarkedConcat(r: seq<Member>, sets: seq<set<Key>>, part: seq<Member>, atoms: seq<A.Atom>)
    requires Marked(r, sets) && Shows(part, atoms)
    ensures Marked(r + part, sets + A.KeySets(atoms))
  {
    forall t | 0 <= t < |part| ensures A.KeySet(ShownBy(part[t])) == A.KeySets(atoms)[t] {
      assert ShowsOne(part[t], atoms[t]);
    }
  }

  /** The first `i` members of the left side are done; `used` holds the conjunctions in `r`. */
  ghost predicate Progress(xs: seq<Member>, i: nat, lefts: seq<A.Atom>, more: set<Key>, r: seq<Member>,
                           sets: seq<set<Key>>, used: set<Conj>)
    requires i <= |xs|
    reads Conjs(xs), Conjs(r)
  {
    && Extended(xs, lefts, Conjs(xs[..i]), more) && Marked(r, sets)
    && Within(r, used) && used * Conjs(xs) <= Conjs(xs[..i])
  }

  lemma {:induction false} ConjsNext(xs: seq<Member>, i: nat)
    requires i < |xs|
    ensures Conjs(xs[..i + 1]) == Conjs(xs[..i]) + Own(xs[i]) && Own(xs[i]) <= Conjs(xs)
  {
    assert xs[..i + 1] == xs[..i] + [xs[i]];
  }

  /** Where no conjunction occurs twice, the next member is as it was and not in the result. */
  lemma {:induction false} NextIsNew(xs: seq<Member>, i: nat, lefts: seq<A.Atom>, more: set<Key>, r: seq<Member>,
                                     sets: seq<set<Key>>, used: set<Conj>)
    requires i < |xs| && Progress(xs, i, lefts, more, r, sets, used)
    ensures Turn(xs[i], lefts[i], ShownBy(xs[i]), Conjs(xs[..i]))
    ensures Distinct(xs) ==> ShownBy(xs[i]) == lefts[i] && Own(xs[i]) !! Conjs(r)
  {
    ConjsNext(xs, i);
    assert ExtendedOne(xs[i], lefts[i], Conjs(xs[..i]), more);
    assert Distinct(xs) && xs[i].ConjMember? ==> xs[i].conj !in Conjs(xs[..i]);
    assert Conjs(r) <= used;
  }

  /** A member when its turn comes: as it was, unless it was extended before. */
  ghost predicate Turn(m: Member, left: A.Atom, a: A.Atom, grown: set<Conj>) {
    && (a.KeyAtom? <==> left.KeyAtom?) && A.KeySet(left) <= A.KeySet(a)
    && (a == left || (m.ConjMember? && m.conj in grown))
  }

  /** One member of the left side and every member of the right side; no key set of the result so far changes. */
  method Grow(xs: seq<Member>, i: nat, ms: seq<Member>, r: seq<Member>, ghost lefts: seq<A.Atom>,
              ghost atoms: seq<A.Atom>, ghost sets: seq<set<Key>>, ghost grown: set<Conj>)
    returns (part: seq<Member>, ghost a: A.Atom)
    requires i < |xs| && Conjs(xs) !! Conjs(ms) && Shows(ms, atoms)
    requires Extended(xs, lefts, grown, A.ConjKeys(atoms)) && Marked(r, sets) && Conjs(r) * Conjs(xs) <= grown
    modifies Own(xs[i])
    ensures a == old(ShownBy(xs[i])) && Shows(ms, atoms) && Shows(part, A.AtomAndEach(a, atoms))
    ensures forall m | m in part && m.ConjMember? :: m == xs[i] || fresh(m.conj)
    ensures Plain(xs[i], atoms) ==> Distinct(part)
    ensures Extended(xs, lefts, grown + Own(xs[i]), A.ConjKeys(atoms)) && Marked(r, sets)
  {
    var x := xs[i];
    a := ShownBy(x);
    assert x.ConjMember? ==> x.conj in Conjs(xs);
    assert ExtendedOne(x, lefts[i], grown, A.ConjKeys(atoms));
    part := MemberAndMembers(x, ms, a, atoms);
    if x.ConjMember? { A.GatheredSet(a.keys, atoms); }
    forall t | 0 <= t < |r| ensures A.KeySet(ShownBy(r[t])) == sets[t] {
      assert old(A.KeySet(ShownBy(r[t]))) == sets[t];
      if x.ConjMember? && r[t] == x { assert x.conj in Conjs(r); }
    }
    forall j | 0 <= j < |xs| ensures ExtendedOne(xs[j], lefts[j], grown + Own(x), A.ConjKeys(atoms)) {
      assert old(ExtendedOne(xs[j], lefts[j], grown, A.ConjKeys(atoms)));
    }
  }

  /** Appends the products of one member of the left side. */
  method Extend(xs: seq<Member>, i: nat, ms: seq<Member>, r: seq<Member>, ghost lefts: seq<A.Atom>,
                ghost atoms: seq<A.Atom>, ghost done: seq<A.Atom>, ghost sets: seq<set<Key>>, ghost used: set<Conj>)
    returns (s: seq<Member>, ghost a: A.Atom, ghost more: set<Conj>)
    requires i < |xs| && Conjs(xs) !! Conjs(ms) && Shows(ms, atoms)
    requires Progress(xs, i, lefts, A.ConjKeys(atoms), r, sets, used)
    requires Distinct(xs) ==> Shows(r, done)
    modifies Own(xs[i])
    ensures Shows(ms, atoms) && Turn(xs[i], lefts[i], a, Conjs(xs[..i]))
    ensures Progress(xs, i + 1, lefts, A.ConjKeys(atoms), s, sets + A.KeySets(A.AtomAndEach(a, atoms)), used + more)
    ensures fresh(more - Own(xs[i]))
    ensures Distinct(xs) ==> Shows(s, done + A.AtomAndEach(lefts[i], atoms))
    ensures Distinct(xs) && Distinct(r) && Plain(xs[i], atoms) ==> Distinct(s)
  {
    ConjsNext(xs, i);
    NextIsNew(xs, i, lefts, A.ConjKeys(atoms), r, sets, used);
    var part;
    part, a := Grow(xs, i, ms, r, lefts, atoms, sets, Conjs(xs[..i]));
    MarkedConcat(r, sets, part, A.AtomAndEach(a, atoms));
    more := Conjs(part);
    if Distinct(xs) {
      ShowsConcat(r, done, part, A.AtomAndEach(a, atoms));
      DistinctConcat(Distinct(r) && Plain(xs[i], atoms), r, part);
    }
    s := r + part;
  }

  /** Members that are one object had one value. */
  ghost predicate OneValueEach(xs: seq<Member>, lefts: seq<A.Atom>) {
    |xs| == |lefts| && forall p, j | 0 <= p < j < |xs| :: xs[p] == xs[j] ==> lefts[p] == lefts[j]
  }

  lemma {:induction false} RepeatsNext(xs: seq<Member>, lefts: seq<A.Atom>, i: nat, now: seq<A.Atom>, a: A.Atom)
    requires i < |xs| && OneValueEach(xs, lefts) && A.Repeats(now, lefts[..i]) && Turn(xs[i], lefts[i], a, Conjs(xs[..i]))
    ensures A.Repeats(now + [a], lefts[..i + 1])
  {
    assert lefts[..i + 1] == lefts[..i] + [lefts[i]];
    if a != lefts[i] {
      var m :| m in xs[..i] && m.ConjMember? && m.conj == xs[i].conj;
      var p :| 0 <= p < i && xs[p] == m;
      assert lefts[..i][p] == lefts[p] == lefts[i];
    }
  }

  lemma {:induction false} ProductGrows(now: seq<A.Atom>, a: A.Atom, atoms: seq<A.Atom>)
    ensures A.Product(now + [a], atoms) == A.Product(now, atoms) + A.AtomAndEach(a, atoms)
  {
    if now == [] {
      assert now + [a] == [a] && [a][1..] == [];
      assert A.Product([a], atoms) == A.AtomAndEach(a, atoms) + A.Product([], atoms);
    } else {
      ProductGrows(now[1..], a, atoms);
      assert (now + [a])[1..] == now[1..] + [a];
      Associative(A.AtomAndEach(now[0], atoms), A.Product(now[1..], atoms), A.AtomAndEach(a, atoms));
    }
  }

  lemma {:induction false} ProductNext(xs: seq<A.Atom>, i: nat, atoms: seq<A.Atom>)
    requires i < |xs|
    ensures A.Product(xs[..i + 1], atoms) == A.Product(xs[..i], atoms) + A.AtomAndEach(xs[i], atoms)
  {
    assert xs[..i + 1] == xs[..i] + [xs[i]];
    ProductGrows(xs[..i], xs[i], atoms);
  }

  lemma {:induction false} ProductSets(now: seq<A.Atom>, a: A.Atom, atoms: seq<A.Atom>)
    ensures A.KeySets(A.Product(now + [a], atoms)) == A.KeySets(A.Product(now, atoms)) + A.KeySets(A.AtomAndEach(a, atoms))
  {
    ProductGrows(now, a, atoms);
  }

  /**
   * Every member of the left side and every member of the right side. The value is as told where no conjunction occurs
   * twice; otherwise `now` are the members of the left side as they are in their turn.
   */
  method MembersAndMembers(xs: seq<Member>, ms: seq<Member>, ghost lefts: seq<A.Atom>, ghost atoms: seq<A.Atom>)
    returns (r: seq<Member>, ghost now: seq<A.Atom>)
    requires Shows(xs, lefts) && Shows(ms, atoms) && Conjs(xs) !! Conjs(ms)
    modifies Conjs(xs)
    ensures Distinct(xs) ==> Shows(r, A.Product(lefts, atoms))
    ensures A.Repeats(now, lefts) && Marked(r, A.KeySets(A.Product(now, atoms)))
    ensures forall c | c in Conjs(r) :: c in Conjs(xs) || fresh(c)
    ensures Distinct(xs) && AllPlain(xs, atoms) ==> Distinct(r)
  {
    r, now := [], [];
    var i := 0;
    ghost var done: seq<A.Atom> := [];
    ghost var used: set<Conj> := {};
    Untouched(xs, lefts, A.ConjKeys(atoms));
    while i < |xs|
      invariant 0 <= i <= |xs| && Shows(ms, atoms) && fresh(used - Conjs(xs)) && A.Repeats(now, lefts[..i])
      invariant Progress(xs, i, lefts, A.ConjKeys(atoms), r, A.KeySets(A.Product(now, atoms)), used)
      invariant done == A.Product(lefts[..i], atoms)
      invariant Distinct(xs) ==> Shows(r, done)
      invariant Distinct(xs) && AllPlain(xs, atoms) ==> Distinct(r)
    {
      ConjsNext(xs, i);
      ghost var a, more;
      r, a, more := Extend(xs, i, ms, r, lefts, atoms, done, A.KeySets(A.Product(now, atoms)), used);
      ProductNext(lefts, i, atoms);
      RepeatsNext(xs, lefts, i, now, a);
      ProductSets(now, a, atoms);
      done := done + A.AtomAndEach(lefts[i], atoms);
      now := now + [a];
      used := used + more;
      i := i + 1;
    }
  }

  lemma {:induction false} Untouched(xs: seq<Member>, lefts: seq<A.Atom>, more: set<Key>)
    requires Shows(xs, lefts)
    ensures Progress(xs, 0, lefts, more, [], [], {}) && OneValueEach(xs, lefts)
    ensures xs[..0] == [] && lefts[..0] == [] && lefts[..|xs|] == lefts
  {
    forall j | 0 <= j < |xs| ensures ExtendedOne(xs[j], lefts[j], Conjs(xs[..0]), more) {
      assert ShowsOne(xs[j], lefts[j]);
    }
    forall p, j | 0 <= p < j < |xs| && xs[p] == xs[j] ensures lefts[p] == lefts[j] {
      assert ShowsOne(xs[p], lefts[p]) && ShowsOne(xs[j], lefts[j]);
    }
  }

  lemma {:induction false} EachAndKeyNext(xs: seq<A.Atom>, i: nat, k: Key, done: seq<A.Atom>)
    requires i < |xs|
    ensures done + A.EachAndKey(xs[i..], k) == done + [A.ConjAtom(A.KeysIn(xs[i]) + [k])] + A.EachAndKey(xs[i + 1..], k)
  {
    assert xs[i..][1..] == xs[i + 1..];
  }

  /** Every member and a key: all copies. */
  method MembersAndKey(xs: seq<Member>, k: Key, ghost lefts: seq<A.Atom>) returns (r: seq<Member>)
    requires Shows(xs, lefts)
    ensures Shows(r, A.EachAndKey(lefts, k))
    ensures Distinct(r) && forall m | m in r && m.ConjMember? :: fresh(m.conj)
  {
    r := [];
    var i := 0;
    ghost var done: seq<A.Atom> := [];
    assert lefts[0..] == lefts;
    while i < |xs|
      invariant 0 <= i <= |xs| && Shows(r, done)
      invariant done + A.EachAndKey(lefts[i..], k) == A.EachAndKey(lefts, k)
      invariant Distinct(r) && forall m | m in r && m.ConjMember? :: fresh(m.conj)
    {
      EachAndKeyNext(lefts, i, k, done);
      assert ShowsOne(xs[i], lefts[i]);
      var n := new Conj((if xs[i].KeyMember? then [xs[i].key] else xs[i].conj.keys) + [k]);
      ShowsAppend(r, done, ConjMember(n), A.ConjAtom(n.keys));
      DistinctAppend(r, ConjMember(n));
      r := r + [ConjMember(n)];
      done := done + [A.ConjAtom(n.keys)];
      i := i + 1;
    }
    assert done + [] == done;
  }

  lemma {:induction false} EachAndConjGrows(xs: seq<A.Atom>, a: A.Atom, ls: seq<Key>)
    ensures A.EachAndConj(xs + [a], ls) == A.EachAndConj(xs, ls) + [A.AtomAndConj(a, ls)]
  {
    if xs == [] {
      assert xs + [a] == [a] && [a][1..] == [];
    } else {
      EachAndConjGrows(xs[1..], a, ls);
      assert (xs + [a])[1..] == xs[1..] + [a];
    }
  }

  lemma {:induction false} EachAndConjNext(xs: seq<A.Atom>, i: nat, ls: seq<Key>)
    requires i < |xs|
    ensures A.EachAndConj(xs[..i + 1], ls) == A.EachAndConj(xs[..i], ls) + [A.AtomAndConj(xs[i], ls)]
  {
    assert xs[..i + 1] == xs[..i] + [xs[i]];
    EachAndConjGrows(xs[..i], xs[i], ls);
  }

  lemma {:induction false} KeySetsSnoc(xs: seq<A.Atom>, a: A.Atom)
    ensures A.KeySets(xs + [a]) == A.KeySets(xs) + [A.KeySet(a)]
    ensures A.KeySets([a]) == [A.KeySet(a)]
  {
  }

  /** A member and a conjunction: a conjunction is extended in place; no key set of the result so far changes. */
  method MemberAndConj(xs: seq<Member>, i: nat, c: Conj, r: seq<Member>, ghost lefts: seq<A.Atom>,
                       ghost sets: seq<set<Key>>, ghost grown: set<Conj>)
    returns (m: Member, ghost a: A.Atom)
    requires i < |xs| && c !in Conjs(xs)
    requires Extended(xs, lefts, grown, A.KeySet(A.ConjAtom(c.keys))) && Marked(r, sets) && Conjs(r) * Conjs(xs) <= grown
    modifies Own(xs[i])
    ensures a == old(ShownBy(xs[i])) && ShowsOne(m, A.AtomAndConj(a, c.keys))
    ensures m.ConjMember? ==> m == xs[i] || fresh(m.conj)
    ensures Extended(xs, lefts, grown + Own(xs[i]), A.KeySet(A.ConjAtom(c.keys))) && Marked(r, sets)
  {
    var x := xs[i];
    a := ShownBy(x);
    assert x.ConjMember? ==> x.conj in Conjs(xs);
    assert ExtendedOne(x, lefts[i], grown, A.KeySet(A.ConjAtom(c.keys)));
    match x {
      case KeyMember(k) => m := KeyAnd(k, ConjMember(c), A.ConjAtom(c.keys));
      case ConjMember(n) =>
        n.keys := n.keys + c.keys;
        m := x;
    }
    JoinedSet(a, lefts[i], c.keys);
    forall t | 0 <= t < |r| ensures A.KeySet(ShownBy(r[t])) == sets[t] {
      assert old(A.KeySet(ShownBy(r[t]))) == sets[t];
      if x.ConjMember? && r[t] == x { assert x.conj in Conjs(r); }
    }
    forall j | 0 <= j < |xs| ensures ExtendedOne(xs[j], lefts[j], grown + Own(x), A.KeySet(A.ConjAtom(c.keys))) {
      assert old(ExtendedOne(xs[j], lefts[j], grown, A.KeySet(A.ConjAtom(c.keys))));
    }
  }

  lemma {:induction false} JoinedSet(a: A.Atom, left: A.Atom, ls: seq<Key>)
    requires a.KeyAtom? ==> a == left
    requires a.ConjAtom? ==> left.ConjAtom? && (A.KeySet(a) == A.KeySet(left) || A.KeySet(a) == A.KeySet(left) + A.KeySet(A.ConjAtom(ls)))
    ensures A.KeySet(A.AtomAndConj(a, ls)) == A.KeySet(A.AtomAndConj(left, ls))
    ensures a.ConjAtom? ==> A.KeySet(A.AtomAndConj(a, ls)) == A.KeySet(a) + A.KeySet(A.ConjAtom(ls))
  {
    if a.ConjAtom? {
      assert A.KeySet(A.AtomAndConj(a, ls)) == A.KeySet(a) + A.KeySet(A.ConjAtom(ls));
      assert A.KeySet(A.AtomAndConj(left, ls)) == A.KeySet(left) + A.KeySet(A.ConjAtom(ls));
    }
  }

  /** Appends one member with the conjunction. */
  method JoinOne(xs: seq<Member>, i: nat, c: Conj, r: seq<Member>, ghost lefts: seq<A.Atom>,
                 ghost done: seq<A.Atom>, ghost sets: seq<set<Key>>, ghost used: set<Conj>)
    returns (s: seq<Member>, ghost more: set<Conj>)
    requires i < |xs| && c !in Conjs(xs) && Progress(xs, i, lefts, A.KeySet(A.ConjAtom(c.keys)), r, sets, used)
    requires Distinct(xs) ==> Shows(r, done) && Distinct(r)
    modifies Own(xs[i])
    ensures Progress(xs, i + 1, lefts, A.KeySet(A.ConjAtom(c.keys)), s, sets + [A.KeySet(A.AtomAndConj(lefts[i], c.keys))], used + more)
    ensures fresh(more - Own(xs[i]))
    ensures Distinct(xs) ==> Shows(s, done + [A.AtomAndConj(lefts[i], c.keys)]) && Distinct(s)
  {
    ConjsNext(xs, i);
    ghost var ls := A.KeySet(A.ConjAtom(c.keys));
    NextIsNew(xs, i, lefts, ls, r, sets, used);
    assert ExtendedOne(xs[i], lefts[i], Conjs(xs[..i]), ls);
    var m;
    ghost var a;
    m, a := MemberAndConj(xs, i, c, r, lefts, sets, Conjs(xs[..i]));
    JoinedSet(a, lefts[i], c.keys);
    MarkedConcat(r, sets, [m], [A.AtomAndConj(a, c.keys)]);
    KeySetsSnoc([], A.AtomAndConj(a, c.keys));
    more := Own(m);
    if Distinct(xs) {
      ShowsAppend(r, done, m, A.AtomAndConj(a, c.keys));
      DistinctAppend(r, m);
    }
    s := r + [m];
  }

  /** Every member and a conjunction: conjunctions are extended in place, each once where none occurs twice. */
  method MembersAndConj(xs: seq<Member>, c: Conj, ghost lefts: seq<A.Atom>) returns (r: seq<Member>)
    requires Shows(xs, lefts) && c !in Conjs(xs)
    modifies Conjs(xs)
    ensures Distinct(xs) ==> Shows(r, A.EachAndConj(lefts, c.keys)) && Distinct(r)
    ensures Marked(r, A.KeySets(A.EachAndConj(lefts, c.keys)))
    ensures forall o | o in Conjs(r) :: o in Conjs(xs) || fresh(o)
  {
    r := [];
    var i := 0;
    ghost var done: seq<A.Atom> := [];
    ghost var used: set<Conj> := {};
    ghost var ls := c.keys;
    Untouched(xs, lefts, A.KeySet(A.ConjAtom(ls)));
    while i < |xs|
      invariant 0 <= i <= |xs| && c.keys == ls && done == A.EachAndConj(lefts[..i], ls) && fresh(used - Conjs(xs))
      invariant Progress(xs, i, lefts, A.KeySet(A.ConjAtom(ls)), r, A.KeySets(done), used)
      invariant Distinct(xs) ==> Shows(r, done) && Distinct(r)
    {
      ConjsNext(xs, i);
      EachAndConjNext(lefts, i, ls);
      ghost var a := A.AtomAndConj(lefts[i], ls);
      KeySetsSnoc(done, a);
      ghost var more;
      r, more := JoinOne(xs, i, c, r, lefts, done, A.KeySets(done), used);
      done := done + [a];
      used := used + more;
      i := i + 1;
    }
  }

  lemma {:induction false} AtomsShown(ms: seq<Member>) returns (atoms: seq<A.Atom>)
    ensures Shows(ms, atoms)
  {
    atoms := [];
    if ms != [] {
      var init := AtomsShown(ms[..|ms| - 1]);
      var m := ms[|ms| - 1];
      ShowsAppend(ms[..|ms| - 1], init, m, ShownBy(m));
      assert ms == ms[..|ms| - 1] + [m];
      atoms := init + [ShownBy(m)];
    }
  }

  // ----- the operations -----

  /** The objects a condition consists of. */
  function Reach(c: Cond): set<object>
    reads if c.D? then {c.disj} else {}
  {
    match c
    case C(n) => {n}
    case D(n) => {n} + Conjs(n.members)
    case _ => {}
  }

  predicate Whole(c: Cond)
    reads if c.D? then {c.disj} else {}
  {
    c.D? ==> Distinct(c.disj.members)
  }

  method AndKey(k: Key, d: Cond, ghost w: A.Dnf) returns (r: Cond)
    requires Is(d, w)
    ensures Is(r, A.And(A.OfKey(k), w)) && Whole(r) && fresh(Reach(r))
  {
    match d {
      case K(l) =>
        var m := KeyAnd(k, KeyMember(l), A.KeyAtom(l));
        r := C(m.conj);
      case C(n) =>
        var m := KeyAnd(k, ConjMember(n), A.ConjAtom(n.keys));
        r := if m.KeyMember? then K(m.key) else C(m.conj);
      case D(n) =>
        var ms := KeyAndMembers(k, n.members, w.atoms);
        var result := new Disj(ms);
        r := D(result);
      case _ => r := Nil;
    }
  }

  method AndConj(c: Conj, d: Cond, ghost w: A.Dnf) returns (r: Cond)
    requires Is(d, w) && c !in Reach(d)
    modifies c
    ensures Is(r, A.And(A.OfConj(old(c.keys)), w))
    ensures forall o | o in Reach(r) :: o == c || fresh(o)
    ensures (w.OfDisj? ==> A.KeysFirst(w.atoms)) ==> Whole(r)
  {
    match d {
      case K(l) =>
        var n := new Conj(c.keys + [l]);
        r := C(n);
      case C(n) =>
        c.keys := c.keys + n.keys;
        r := C(c);
      case D(n) =>
        var ms := ConjAndMembers(c, n.members, w.atoms);
        var result := new Disj(ms);
        r := D(result);
      case _ => r := Nil;
    }
  }

  /** The members of the conjunction with a key, a conjunction or a disjunction. */
  method AndMembers(xs: seq<Member>, d: Cond, ghost v: A.Dnf, ghost w: A.Dnf)
    returns (ms: seq<Member>, ghost atoms: seq<A.Atom>)
    requires v.OfDisj? && Shows(xs, v.atoms) && (d.K? || d.C? || d.D?) && Is(d, w) && Conjs(xs) !! Reach(d)
    modifies Conjs(xs)
    ensures Shows(ms, atoms) && A.Stands(A.OfDisj(atoms), v, w)
    ensures Distinct(xs) ==> A.OfDisj(atoms) == A.And(v, w)
    ensures forall o | o in Conjs(ms) :: o in Conjs(xs) || fresh(o)
    ensures Distinct(xs) && A.Unaliased(v, w) ==> Distinct(ms)
  {
    ghost var now: seq<A.Atom> := [];
    match d {
      case K(l) => ms := MembersAndKey(xs, l, v.atoms);
      case C(n) => ms := MembersAndConj(xs, n, v.atoms);
      case D(n) =>
        ms, now := MembersAndMembers(xs, n.members, v.atoms, w.atoms);
        PlainLefts(xs, v, w);
    }
    atoms := AtomsShown(ms);
    ShownSets(ms, atoms);
    if d.K? || Distinct(xs) { ShownOnce(ms, atoms, A.And(v, w).atoms); }
  }

  lemma {:induction false} ShownOnce(ms: seq<Member>, xs: seq<A.Atom>, ys: seq<A.Atom>)
    requires Shows(ms, xs) && Shows(ms, ys)
    ensures xs == ys
  {
    forall i | 0 <= i < |xs| ensures xs[i] == ys[i] {
      assert ShowsOne(ms[i], xs[i]) && ShowsOne(ms[i], ys[i]);
    }
  }

  method AndDisj(c: Disj, d: Cond, ghost v: A.Dnf, ghost w: A.Dnf) returns (r: Cond, ghost u: A.Dnf)
    requires Is(D(c), v) && Is(d, w) && Reach(D(c)) !! Reach(d)
    modifies Conjs(c.members)
    ensures Is(r, u) && A.Stands(u, v, w)
    ensures old(Whole(D(c))) ==> u == A.And(v, w)
    ensures forall o | o in Reach(r) :: o in old(Reach(D(c))) || fresh(o)
    ensures old(Whole(D(c))) && A.Unaliased(v, w) ==> Whole(r)
  {
    if d.T? || d.F? || d.Nil? { return Nil, A.Missing; }
    var ms;
    ghost var atoms;
    ms, atoms := AndMembers(c.members, d, v, w);
    var result := new Disj(ms);
    return D(result), A.OfDisj(atoms);
  }

  lemma {:induction false} ShownSets(ms: seq<Member>, atoms: seq<A.Atom>)
    requires Shows(ms, atoms)
    ensures forall sets | Marked(ms, sets) :: A.KeySets(atoms) == sets
  {
    forall sets | Marked(ms, sets) ensures A.KeySets(atoms) == sets {
      forall t | 0 <= t < |ms| ensures A.KeySets(atoms)[t] == sets[t] { assert ShowsOne(ms[t], atoms[t]); }
    }
  }

  lemma {:induction false} PlainLefts(xs: seq<Member>, v: A.Dnf, w: A.Dnf)
    requires v.OfDisj? && w.OfDisj? && |v.atoms| == |xs| && forall i | 0 <= i < |xs| :: xs[i].KeyMember? <==> v.atoms[i].KeyAtom?
    ensures A.Unaliased(v, w) ==> AllPlain(xs, w.atoms)
  {
  }

  /** The conjunction of two conditions that share no object; the left one is there to be called. */
  method And(c: Cond, d: Cond, ghost v: A.Dnf, ghost w: A.Dnf) returns (r: Cond, ghost u: A.Dnf)
    requires !c.Nil? && Is(c, v) && Is(d, w) && Reach(c) !! Reach(d)
    modifies Reach(c)
    ensures Is(r, u) && A.Stands(u, v, w)
    ensures old(Whole(c)) ==> u == A.And(v, w)
    ensures forall o | o in Reach(r) :: o in old(Reach(c)) || o in old(Reach(d)) || fresh(o)
    ensures old(Whole(c)) && old(Whole(d)) && A.Unaliased(v, w) ==> Whole(r)
  {
    u := A.And(v, w);
    match c {
      case K(k) => r := AndKey(k, d, w);
      case C(n) => r := AndConj(n, d, w);
      case D(n) => r, u := AndDisj(n, d, v, w);
      case T => r := d;
      case F => r := F;
    }
  }

  /** A key in front of the members, one member at a time. */
  method OrKey(k: Key, ms: seq<Member>) returns (r: Cond)
    ensures ms == [] ==> r == K(k)
    ensures ms != [] ==> r.D? && fresh(r.disj) && r.disj.members == [KeyMember(k)] + ms
  {
    r := K(k);
    var i := 0;
    while i < |ms|
      invariant 0 <= i <= |ms| && (i == 0 ==> r == K(k))
      invariant i > 0 ==> r.D? && fresh(r.disj) && r.disj.members == [KeyMember(k)] + ms[..i]
    {
      var result := new Disj((if r.K? then [KeyMember(k)] else r.disj.members) + [ms[i]]);
      r := D(result);
      i := i + 1;
    }
  }

  function AsMember(c: Cond): Member
    requires c.K? || c.C?
  {
    if c.K? then KeyMember(c.key) else ConjMember(c.conj)
  }

  /** The members a condition contributes to a disjunction. */
  function Members(c: Cond): seq<Member>
    reads if c.D? then {c.disj} else {}
    requires c.K? || c.C? || c.D?
  {
    if c.D? then c.disj.members else [AsMember(c)]
  }

  lemma {:induction false} InReach(c: Cond, m: Member)
    requires (c.K? || c.C? || c.D?) && m in Members(c) && m.ConjMember?
    ensures m.conj in Reach(c)
  {
  }

  lemma {:induction false} MembersJoin(c: Cond, d: Cond, v: A.Dnf, w: A.Dnf)
    requires (c.K? || c.C? || c.D?) && (d.K? || d.C? || d.D?)
    requires Is(c, v) && Is(d, w) && Reach(c) !! Reach(d)
    ensures Shows(Members(c) + Members(d), A.AtomsOf(v) + A.AtomsOf(w))
    ensures Whole(c) && Whole(d) ==> Distinct(Members(c) + Members(d))
    ensures forall n | n in Conjs(Members(c) + Members(d)) :: n in Reach(c) || n in Reach(d)
  {
    ShowsConcat(Members(c), A.AtomsOf(v), Members(d), A.AtomsOf(w));
    forall m | m in Members(c) && m.ConjMember? ensures m.conj in Reach(c) { InReach(c, m); }
    forall m | m in Members(d) && m.ConjMember? ensures m.conj in Reach(d) { InReach(d, m); }
    DistinctConcat(Whole(c) && Whole(d), Members(c), Members(d));
  }

  /** Two conditions with members become one disjunction; the left one takes the members of the right one if both are. */
  method OrMembers(c: Cond, d: Cond, ghost v: A.Dnf, ghost w: A.Dnf) returns (r: Disj)
    requires (c.K? || c.C? || c.D?) && (d.K? || d.C? || d.D?)
    requires Is(c, v) && Is(d, w) && Reach(c) !! Reach(d)
    modifies if c.D? then {c.disj} else {}
    ensures Shows(r.members, A.AtomsOf(v) + A.AtomsOf(w))
    ensures old(Whole(c)) && old(Whole(d)) ==> Distinct(r.members)
    ensures forall o | o in Reach(D(r)) :: o in old(Reach(c)) || o in old(Reach(d)) || fresh(o)
  {
    MembersJoin(c, d, v, w);
    if c.D? && d.D? {
      c.disj.members := c.disj.members + d.disj.members;
      r := c.disj;
    } else if c.K? && d.D? && d.disj.members != [] {
      var s := OrKey(c.key, d.disj.members);
      r := s.disj;
    } else {
      r := new Disj(Members(c) + Members(d));
    }
  }

  /** The disjunction of two conditions that share no object. */
  method Or(c: Cond, d: Cond, ghost v: A.Dnf, ghost w: A.Dnf) returns (r: Cond)
    requires !c.Nil? && Is(c, v) && Is(d, w) && Reach(c) !! Reach(d)
    modifies Reach(c)
    ensures Is(r, A.Or(v, w))
    ensures old(Whole(c)) && old(Whole(d)) ==> Whole(r)
    ensures forall o | o in Reach(r) :: o in old(Reach(c)) || o in old(Reach(d)) || fresh(o)
  {
    if c.T? { return T; }
    if c.F? { return d; }
    if d.T? || d.F? || d.Nil? { return Nil; }
    if c.K? && d.D? && d.disj.members == [] { return c; }
    var n := OrMembers(c, d, v, w);
    return D(n);
  }
}
