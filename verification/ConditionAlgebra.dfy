/** Conjunction and disjunction of conditions in disjunctive normal form, as values. */
module ConditionAlgebra {
  import opened Conditions

  /** A member of a disjunction: a key, or a conjunction of keys. */
  datatype Atom = KeyAtom(key: Key) | ConjAtom(keys: seq<Key>)

  /** A condition in disjunctive normal form, a constant, or nothing at all. */
  datatype Dnf = OfKey(key: Key) | OfConj(keys: seq<Key>) | OfDisj(atoms: seq<Atom>) | Yes | No | Missing

  // ----- meaning; `h` tells which keys hold of a row -----

  ghost predicate All(h: Key -> bool, ks: seq<Key>) {
    forall k | k in ks :: h(k)
  }

  ghost predicate AtomHolds(h: Key -> bool, a: Atom) {
    match a case KeyAtom(k) => h(k) case ConjAtom(ks) => All(h, ks)
  }

  ghost predicate Any(h: Key -> bool, atoms: seq<Atom>) {
    exists a | a in atoms :: AtomHolds(h, a)
  }

  ghost predicate Means(h: Key -> bool, c: Dnf) {
    match c
    case OfKey(k) => h(k)
    case OfConj(ks) => All(h, ks)
    case OfDisj(atoms) => Any(h, atoms)
    case Yes => true
    case No => false
    case Missing => false
  }

  // ----- conjunction -----

  /** A key and a member of a disjunction. */
  function KeyAnd(k: Key, a: Atom): Atom {
    match a
    case KeyAtom(l) => ConjAtom([k, l])
    case ConjAtom(ks) => if ks == [] then KeyAtom(k) else ConjAtom([k] + ks)
  }

  function KeyAndEach(k: Key, atoms: seq<Atom>): seq<Atom> {
    if atoms == [] then [] else [KeyAnd(k, atoms[0])] + KeyAndEach(k, atoms[1..])
  }

  /** The keys of a conjunction after all conjunctions of a disjunction have been appended to it in place. */
  function Gathered(ks: seq<Key>, atoms: seq<Atom>): seq<Key>
    decreases |atoms|
  {
    if atoms == [] then ks
    else Gathered(if atoms[0].ConjAtom? then ks + atoms[0].keys else ks, atoms[1..])
  }

  /**
   * A conjunction and each member of a disjunction. A key goes with a copy of the conjunction as it is by then;
   * a conjunction is appended in place, so its entry is the conjunction as it is in the end.
   */
  function Entries(ks: seq<Key>, atoms: seq<Atom>, last: seq<Key>): seq<Atom>
    decreases |atoms|
  {
    if atoms == [] then []
    else
      match atoms[0]
      case KeyAtom(k) => [ConjAtom(ks + [k])] + Entries(ks, atoms[1..], last)
      case ConjAtom(ls) => [ConjAtom(last)] + Entries(ks + ls, atoms[1..], last)
  }

  function ConjAndEach(ks: seq<Key>, atoms: seq<Atom>): seq<Atom> {
    Entries(ks, atoms, Gathered(ks, atoms))
  }

  function AtomAndEach(a: Atom, atoms: seq<Atom>): seq<Atom> {
    match a case KeyAtom(k) => KeyAndEach(k, atoms) case ConjAtom(ks) => ConjAndEach(ks, atoms)
  }

  function Product(xs: seq<Atom>, atoms: seq<Atom>): seq<Atom> {
    if xs == [] then [] else AtomAndEach(xs[0], atoms) + Product(xs[1..], atoms)
  }

  function KeysIn(a: Atom): seq<Key> {
    match a case KeyAtom(k) => [k] case ConjAtom(ks) => ks
  }

  function EachAndKey(xs: seq<Atom>, k: Key): seq<Atom> {
    if xs == [] then [] else [ConjAtom(KeysIn(xs[0]) + [k])] + EachAndKey(xs[1..], k)
  }

  function AtomAndConj(a: Atom, ls: seq<Key>): Atom {
    match a case KeyAtom(k) => KeyAnd(k, ConjAtom(ls)) case ConjAtom(ks) => ConjAtom(ks + ls)
  }

  function EachAndConj(xs: seq<Atom>, ls: seq<Key>): seq<Atom> {
    if xs == [] then [] else [AtomAndConj(xs[0], ls)] + EachAndConj(xs[1..], ls)
  }

  function And(c: Dnf, d: Dnf): Dnf {
    match (c, d)
    case (Yes, _) => d
    case (No, _) => No
    case (OfKey(k), OfKey(l)) => OfConj([k, l])
    case (OfKey(k), OfConj(ks)) => if ks == [] then OfKey(k) else OfConj([k] + ks)
    case (OfKey(k), OfDisj(atoms)) => OfDisj(KeyAndEach(k, atoms))
    case (OfConj(ks), OfKey(l)) => OfConj(ks + [l])
    case (OfConj(ks), OfConj(ls)) => OfConj(ks + ls)
    case (OfConj(ks), OfDisj(atoms)) => OfDisj(ConjAndEach(ks, atoms))
    case (OfDisj(xs), OfKey(l)) => OfDisj(EachAndKey(xs, l))
    case (OfDisj(xs), OfConj(ls)) => OfDisj(EachAndConj(xs, ls))
    case (OfDisj(xs), OfDisj(atoms)) => OfDisj(Product(xs, atoms))
    case (_, _) => Missing
  }

  // ----- disjunction -----

  function Or(c: Dnf, d: Dnf): Dnf {
    match (c, d)
    case (Yes, _) => Yes
    case (No, _) => d
    case (OfKey(k), OfKey(l)) => OfDisj([KeyAtom(k), KeyAtom(l)])
    case (OfKey(k), OfConj(ks)) => OfDisj([KeyAtom(k), ConjAtom(ks)])
    case (OfKey(k), OfDisj(atoms)) => if atoms == [] then OfKey(k) else OfDisj([KeyAtom(k)] + atoms)
    case (OfConj(ks), OfKey(l)) => OfDisj([ConjAtom(ks), KeyAtom(l)])
    case (OfConj(ks), OfConj(ls)) => OfDisj([ConjAtom(ks), ConjAtom(ls)])
    case (OfConj(ks), OfDisj(atoms)) => OfDisj([ConjAtom(ks)] + atoms)
    case (OfDisj(xs), OfKey(l)) => OfDisj(xs + [KeyAtom(l)])
    case (OfDisj(xs), OfConj(ls)) => OfDisj(xs + [ConjAtom(ls)])
    case (OfDisj(xs), OfDisj(atoms)) => OfDisj(xs + atoms)
    case (_, _) => Missing
  }

  // ----- laws -----

  lemma {:induction false} AllAppend(h: Key -> bool, ks: seq<Key>, ls: seq<Key>)
    ensures All(h, ks + ls) <==> All(h, ks) && All(h, ls)
  {
    assert forall k | k in ks :: k in ks + ls;
    assert forall k | k in ls :: k in ks + ls;
  }

  lemma {:induction false} AnyAppend(h: Key -> bool, xs: seq<Atom>, ys: seq<Atom>)
    ensures Any(h, xs + ys) <==> Any(h, xs) || Any(h, ys)
  {
    assert forall a | a in xs :: a in xs + ys;
    assert forall a | a in ys :: a in xs + ys;
  }

  lemma {:induction false} AnyCons(h: Key -> bool, xs: seq<Atom>)
    requires xs != []
    ensures Any(h, xs) <==> AtomHolds(h, xs[0]) || Any(h, xs[1..])
  {
    assert xs == [xs[0]] + xs[1..];
    AnyAppend(h, [xs[0]], xs[1..]);
    assert xs[0] in [xs[0]];
  }

  lemma {:induction false} KeyAndMeans(h: Key -> bool, k: Key, a: Atom)
    ensures AtomHolds(h, KeyAnd(k, a)) <==> h(k) && AtomHolds(h, a)
  {
    match a {
      case KeyAtom(l) => assert All(h, [k, l]) <==> h(k) && h(l) by { AllAppend(h, [k], [l]); assert [k, l] == [k] + [l]; Lone(h, k); Lone(h, l); }
      case ConjAtom(ks) => AllAppend(h, [k], ks); Lone(h, k);
    }
  }

  lemma {:induction false} Lone(h: Key -> bool, k: Key)
    ensures All(h, [k]) <==> h(k)
  {
    assert k in [k];
  }

  lemma {:induction false} KeyAndEachMeans(h: Key -> bool, k: Key, atoms: seq<Atom>)
    ensures Any(h, KeyAndEach(k, atoms)) <==> h(k) && Any(h, atoms)
  {
    if atoms != [] {
      KeyAndEachMeans(h, k, atoms[1..]);
      KeyAndMeans(h, k, atoms[0]);
      AnyCons(h, atoms);
      AnyCons(h, KeyAndEach(k, atoms));
    }
  }

  lemma {:induction false} EachAndKeyMeans(h: Key -> bool, xs: seq<Atom>, k: Key)
    ensures Any(h, EachAndKey(xs, k)) <==> Any(h, xs) && h(k)
  {
    if xs != [] {
      EachAndKeyMeans(h, xs[1..], k);
      AllAppend(h, KeysIn(xs[0]), [k]);
      Lone(h, k);
      if xs[0].KeyAtom? { Lone(h, xs[0].key); }
      AnyCons(h, xs);
      AnyCons(h, EachAndKey(xs, k));
    }
  }

  lemma {:induction false} EachAndConjMeans(h: Key -> bool, xs: seq<Atom>, ls: seq<Key>)
    ensures Any(h, EachAndConj(xs, ls)) <==> Any(h, xs) && All(h, ls)
  {
    if xs != [] {
      EachAndConjMeans(h, xs[1..], ls);
      if xs[0].KeyAtom? {
        KeyAndMeans(h, xs[0].key, ConjAtom(ls));
      } else {
        AllAppend(h, xs[0].keys, ls);
      }
      AnyCons(h, xs);
      AnyCons(h, EachAndConj(xs, ls));
    }
  }

  // ----- a conjunction and a disjunction -----

  /** All conjunctions among the members hold. */
  ghost predicate AllConj(h: Key -> bool, atoms: seq<Atom>) {
    atoms != [] ==> AllConj(h, atoms[1..]) && (atoms[0].ConjAtom? ==> All(h, atoms[0].keys))
  }

  /**
   * What the in-place append makes of the disjunction: a key counts only with all conjunctions before it, and a
   * conjunction only with all others.
   */
  ghost predicate Chain(h: Key -> bool, atoms: seq<Atom>) {
    && atoms != []
    && match atoms[0]
       case KeyAtom(k) => h(k) || Chain(h, atoms[1..])
       case ConjAtom(ks) => All(h, ks) && (AllConj(h, atoms[1..]) || Chain(h, atoms[1..]))
  }

  lemma {:induction false} GatheredMeans(h: Key -> bool, ks: seq<Key>, atoms: seq<Atom>)
    ensures All(h, Gathered(ks, atoms)) <==> All(h, ks) && AllConj(h, atoms)
    decreases |atoms|
  {
    if atoms != [] {
      if atoms[0].ConjAtom? {
        AllAppend(h, ks, atoms[0].keys);
        GatheredMeans(h, ks + atoms[0].keys, atoms[1..]);
      } else {
        GatheredMeans(h, ks, atoms[1..]);
      }
    }
  }

  /** The entries mean the conjunction with the chain, where `last` means what is gathered. */
  lemma {:induction false} EntriesMean(h: Key -> bool, ks: seq<Key>, atoms: seq<Atom>, last: seq<Key>)
    requires All(h, last) <==> All(h, ks) && AllConj(h, atoms)
    ensures Any(h, Entries(ks, atoms, last)) <==> All(h, ks) && Chain(h, atoms)
    decreases |atoms|
  {
    if atoms != [] {
      var es := Entries(ks, atoms, last);
      AnyCons(h, es);
      match atoms[0] {
        case KeyAtom(k) =>
          EntriesMean(h, ks, atoms[1..], last);
          AllAppend(h, ks, [k]);
          Lone(h, k);
          assert es[1..] == Entries(ks, atoms[1..], last);
        case ConjAtom(ls) =>
          AllAppend(h, ks, ls);
          EntriesMean(h, ks + ls, atoms[1..], last);
          assert es[1..] == Entries(ks + ls, atoms[1..], last);
      }
    }
  }

  /** The members in front of the last are keys. */
  predicate KeysFirst(atoms: seq<Atom>) {
    forall i | 0 <= i < |atoms| - 1 :: atoms[i].KeyAtom?
  }

  /** The chain is never weaker than the disjunction, and the same when no conjunction stands before another member. */
  lemma {:induction false} ChainMeans(h: Key -> bool, atoms: seq<Atom>)
    ensures Chain(h, atoms) ==> Any(h, atoms)
    ensures KeysFirst(atoms) ==> (Chain(h, atoms) <==> Any(h, atoms))
  {
    if atoms != [] {
      ChainMeans(h, atoms[1..]);
      AnyCons(h, atoms);
      assert KeysFirst(atoms) ==> KeysFirst(atoms[1..]);
      assert KeysFirst(atoms) && atoms[0].ConjAtom? ==> atoms[1..] == [];
    }
  }

  // ----- both operations -----

  /** A member of the left side, with the disjunction if it is a key and with the chain if it is a conjunction. */
  ghost predicate CrossedOne(h: Key -> bool, x: Atom, atoms: seq<Atom>) {
    AtomHolds(h, x) && if x.KeyAtom? then Any(h, atoms) else Chain(h, atoms)
  }

  ghost predicate Crossed(h: Key -> bool, xs: seq<Atom>, atoms: seq<Atom>) {
    xs != [] && (CrossedOne(h, xs[0], atoms) || Crossed(h, xs[1..], atoms))
  }

  lemma {:induction false} ConjAndEachMeans(h: Key -> bool, ks: seq<Key>, atoms: seq<Atom>)
    ensures Any(h, ConjAndEach(ks, atoms)) <==> All(h, ks) && Chain(h, atoms)
  {
    GatheredMeans(h, ks, atoms);
    EntriesMean(h, ks, atoms, Gathered(ks, atoms));
  }

  lemma {:induction false} ProductMeans(h: Key -> bool, xs: seq<Atom>, atoms: seq<Atom>)
    ensures Any(h, Product(xs, atoms)) <==> Crossed(h, xs, atoms)
  {
    if xs != [] {
      ProductMeans(h, xs[1..], atoms);
      AnyAppend(h, AtomAndEach(xs[0], atoms), Product(xs[1..], atoms));
      match xs[0] {
        case KeyAtom(k) => KeyAndEachMeans(h, k, atoms);
        case ConjAtom(ks) => ConjAndEachMeans(h, ks, atoms);
      }
    }
  }

  lemma {:induction false} CrossedMeans(h: Key -> bool, xs: seq<Atom>, atoms: seq<Atom>)
    ensures Crossed(h, xs, atoms) ==> Any(h, xs) && Any(h, atoms)
    ensures KeysFirst(atoms) || (forall i | 0 <= i < |xs| :: xs[i].KeyAtom?) ==> (Crossed(h, xs, atoms) <==> Any(h, xs) && Any(h, atoms))
  {
    if xs != [] {
      CrossedMeans(h, xs[1..], atoms);
      AnyCons(h, xs);
      ChainMeans(h, atoms);
    }
  }

  predicate HasConj(c: Dnf) {
    c.OfConj? || (c.OfDisj? && exists i | 0 <= i < |c.atoms| :: c.atoms[i].ConjAtom?)
  }

  /** No conjunction on the left meets a disjunction on the right in which a conjunction stands before another member. */
  predicate Unaliased(c: Dnf, d: Dnf) {
    HasConj(c) && d.OfDisj? ==> KeysFirst(d.atoms)
  }

  /** What the conjunction means, for all operands. */
  ghost predicate AndMeaning(h: Key -> bool, c: Dnf, d: Dnf) {
    match (c, d)
    case (OfConj(ks), OfDisj(atoms)) => All(h, ks) && Chain(h, atoms)
    case (OfDisj(xs), OfDisj(atoms)) => Crossed(h, xs, atoms)
    case (_, _) => Means(h, c) && Means(h, d)
  }

  lemma {:induction false} AndMeans(h: Key -> bool, c: Dnf, d: Dnf)
    requires !And(c, d).Missing?
    ensures Means(h, And(c, d)) <==> AndMeaning(h, c, d)
  {
    match (c, d) {
      case (OfKey(k), OfKey(l)) => KeyAndMeans(h, k, KeyAtom(l));
      case (OfKey(k), OfConj(ks)) => KeyAndMeans(h, k, ConjAtom(ks));
      case (OfKey(k), OfDisj(atoms)) => KeyAndEachMeans(h, k, atoms);
      case (OfConj(ks), OfKey(l)) => AllAppend(h, ks, [l]); Lone(h, l);
      case (OfConj(ks), OfConj(ls)) => AllAppend(h, ks, ls);
      case (OfConj(ks), OfDisj(atoms)) => ConjAndEachMeans(h, ks, atoms);
      case (OfDisj(xs), OfKey(l)) => EachAndKeyMeans(h, xs, l);
      case (OfDisj(xs), OfConj(ls)) => EachAndConjMeans(h, xs, ls);
      case (OfDisj(xs), OfDisj(atoms)) => ProductMeans(h, xs, atoms);
      case (_, _) =>
    }
  }

  /** A result never holds where the conjunction does not, and is the conjunction for operands that meet no alias. */
  lemma {:induction false} AndIsConjunction(h: Key -> bool, c: Dnf, d: Dnf)
    requires !And(c, d).Missing?
    ensures Means(h, And(c, d)) ==> Means(h, c) && Means(h, d)
    ensures Unaliased(c, d) ==> (Means(h, And(c, d)) <==> Means(h, c) && Means(h, d))
  {
    AndMeans(h, c, d);
    if d.OfDisj? {
      ChainMeans(h, d.atoms);
      if c.OfDisj? {
        CrossedMeans(h, c.atoms, d.atoms);
      }
    }
  }

  lemma {:induction false} OrIsDisjunction(h: Key -> bool, c: Dnf, d: Dnf)
    requires !Or(c, d).Missing?
    ensures Means(h, Or(c, d)) <==> Means(h, c) || Means(h, d)
  {
    var r := Or(c, d);
    if r.OfDisj? {
      var xs := AtomsOf(c);
      var ys := AtomsOf(d);
      AtomsMean(h, c);
      AtomsMean(h, d);
      AnyAppend(h, xs, ys);
      assert r.atoms == xs + ys || c == No;
    } else if c.OfKey? && d.OfDisj? {
      assert !Any(h, []);
    }
  }

  function AtomsOf(c: Dnf): seq<Atom> {
    match c
    case OfKey(k) => [KeyAtom(k)]
    case OfConj(ks) => [ConjAtom(ks)]
    case OfDisj(atoms) => atoms
    case _ => []
  }

  lemma {:induction false} AtomsMean(h: Key -> bool, c: Dnf)
    requires c.OfKey? || c.OfConj? || c.OfDisj? || c == No
    ensures Any(h, AtomsOf(c)) <==> Means(h, c)
  {
    if c.OfKey? || c.OfConj? {
      AnyCons(h, AtomsOf(c));
      assert !Any(h, AtomsOf(c)[1..]);
    }
  }

  /** A result is missing exactly when the right side is a constant or missing and the left side is no constant. */
  lemma {:induction false} MissingResult(c: Dnf, d: Dnf)
    ensures And(c, d).Missing? <==> (c == Yes && d.Missing?) || c.Missing? || (!c.Yes? && !c.No? && (d.Yes? || d.No? || d.Missing?))
    ensures Or(c, d).Missing? <==> (c == No && d.Missing?) || c.Missing? || (!c.Yes? && !c.No? && (d.Yes? || d.No? || d.Missing?))
  {
  }

  // ----- no key is invented -----

  /** All keys of all members satisfy `p`. */
  ghost predicate AllIn(p: Key -> bool, atoms: seq<Atom>) {
    forall i | 0 <= i < |atoms| :: All(p, KeysIn(atoms[i]))
  }

  ghost predicate AllOf(p: Key -> bool, c: Dnf) {
    match c
    case OfKey(k) => p(k)
    case OfConj(ks) => All(p, ks)
    case OfDisj(atoms) => AllIn(p, atoms)
    case _ => true
  }

  lemma {:induction false} AllInCons(p: Key -> bool, a: Atom, atoms: seq<Atom>)
    ensures AllIn(p, [a] + atoms) <==> All(p, KeysIn(a)) && AllIn(p, atoms)
  {
    var all := [a] + atoms;
    if AllIn(p, all) {
      assert All(p, KeysIn(all[0]));
      assert forall i | 0 <= i < |atoms| :: All(p, KeysIn(all[i + 1])) && all[i + 1] == atoms[i];
    }
  }

  lemma {:induction false} AllInAppend(p: Key -> bool, xs: seq<Atom>, ys: seq<Atom>)
    requires AllIn(p, xs) && AllIn(p, ys)
    ensures AllIn(p, xs + ys)
  {
    assert forall i | 0 <= i < |xs + ys| :: (xs + ys)[i] == if i < |xs| then xs[i] else ys[i - |xs|];
  }

  lemma {:induction false} KeyAndEachKeys(p: Key -> bool, k: Key, atoms: seq<Atom>)
    requires p(k) && AllIn(p, atoms)
    ensures AllIn(p, KeyAndEach(k, atoms))
  {
    if atoms != [] {
      assert atoms == [atoms[0]] + atoms[1..];
      AllInCons(p, atoms[0], atoms[1..]);
      KeyAndEachKeys(p, k, atoms[1..]);
      AllInCons(p, KeyAnd(k, atoms[0]), KeyAndEach(k, atoms[1..]));
    }
  }

  lemma {:induction false} GatheredKeys(p: Key -> bool, ks: seq<Key>, atoms: seq<Atom>)
    requires All(p, ks) && AllIn(p, atoms)
    ensures All(p, Gathered(ks, atoms))
    decreases |atoms|
  {
    if atoms != [] {
      assert atoms == [atoms[0]] + atoms[1..];
      AllInCons(p, atoms[0], atoms[1..]);
      GatheredKeys(p, if atoms[0].ConjAtom? then ks + atoms[0].keys else ks, atoms[1..]);
    }
  }

  lemma {:induction false} EntriesKeys(p: Key -> bool, ks: seq<Key>, atoms: seq<Atom>, last: seq<Key>)
    requires All(p, ks) && AllIn(p, atoms) && All(p, last)
    ensures AllIn(p, Entries(ks, atoms, last))
    decreases |atoms|
  {
    if atoms != [] {
      assert atoms == [atoms[0]] + atoms[1..];
      AllInCons(p, atoms[0], atoms[1..]);
      match atoms[0] {
        case KeyAtom(k) =>
          EntriesKeys(p, ks, atoms[1..], last);
          AllInCons(p, ConjAtom(ks + [k]), Entries(ks, atoms[1..], last));
        case ConjAtom(ls) =>
          EntriesKeys(p, ks + ls, atoms[1..], last);
          AllInCons(p, ConjAtom(last), Entries(ks + ls, atoms[1..], last));
      }
    }
  }

  lemma {:induction false} ProductKeys(p: Key -> bool, xs: seq<Atom>, atoms: seq<Atom>)
    requires AllIn(p, xs) && AllIn(p, atoms)
    ensures AllIn(p, Product(xs, atoms))
  {
    if xs != [] {
      assert xs == [xs[0]] + xs[1..];
      AllInCons(p, xs[0], xs[1..]);
      ProductKeys(p, xs[1..], atoms);
      match xs[0] {
        case KeyAtom(k) =>
          assert k in KeysIn(xs[0]);
          KeyAndEachKeys(p, k, atoms);
        case ConjAtom(ks) =>
          GatheredKeys(p, ks, atoms);
          EntriesKeys(p, ks, atoms, Gathered(ks, atoms));
      }
      AllInAppend(p, AtomAndEach(xs[0], atoms), Product(xs[1..], atoms));
    }
  }

  lemma {:induction false} EachAndKeyKeys(p: Key -> bool, xs: seq<Atom>, k: Key)
    requires AllIn(p, xs) && p(k)
    ensures AllIn(p, EachAndKey(xs, k))
  {
    if xs != [] {
      assert xs == [xs[0]] + xs[1..];
      AllInCons(p, xs[0], xs[1..]);
      EachAndKeyKeys(p, xs[1..], k);
      AllInCons(p, ConjAtom(KeysIn(xs[0]) + [k]), EachAndKey(xs[1..], k));
    }
  }

  lemma {:induction false} EachAndConjKeys(p: Key -> bool, xs: seq<Atom>, ls: seq<Key>)
    requires AllIn(p, xs) && All(p, ls)
    ensures AllIn(p, EachAndConj(xs, ls))
  {
    if xs != [] {
      assert xs == [xs[0]] + xs[1..];
      AllInCons(p, xs[0], xs[1..]);
      EachAndConjKeys(p, xs[1..], ls);
      assert All(p, KeysIn(AtomAndConj(xs[0], ls))) by {
        if xs[0].KeyAtom? { assert xs[0].key in KeysIn(xs[0]); }
      }
      AllInCons(p, AtomAndConj(xs[0], ls), EachAndConj(xs[1..], ls));
    }
  }

  /** Whatever holds of all keys of both sides holds of all keys of the results. */
  lemma {:induction false} ResultKeys(p: Key -> bool, c: Dnf, d: Dnf)
    requires AllOf(p, c) && AllOf(p, d)
    ensures AllOf(p, And(c, d)) && AllOf(p, Or(c, d))
  {
    AllInAppend(p, AtomsOf(c), AtomsOf(d));
    match (c, d) {
      case (OfKey(k), OfDisj(atoms)) => KeyAndEachKeys(p, k, atoms);
      case (OfConj(ks), OfDisj(atoms)) => GatheredKeys(p, ks, atoms); EntriesKeys(p, ks, atoms, Gathered(ks, atoms));
      case (OfDisj(xs), OfKey(l)) => EachAndKeyKeys(p, xs, l);
      case (OfDisj(xs), OfConj(ls)) => EachAndConjKeys(p, xs, ls);
      case (OfDisj(xs), OfDisj(atoms)) => ProductKeys(p, xs, atoms);
      case (_, _) =>
    }
  }

  // ----- exactly when a conjunction loses rows -----

  /** The keys of two members hold, and no others. */
  function Least(x: Atom, y: Atom): Key -> bool {
    k => k in KeysIn(x) || k in KeysIn(y)
  }

  /** Any two members, taken alone, are kept together. */
  ghost predicate KeepsRows(c: Dnf, d: Dnf) {
    forall i, j | 0 <= i < |AtomsOf(c)| && 0 <= j < |AtomsOf(d)| :: AndMeaning(Least(AtomsOf(c)[i], AtomsOf(d)[j]), c, d)
  }

  ghost predicate Implies(h: Key -> bool, g: Key -> bool) {
    forall k: Key :: h(k) ==> g(k)
  }

  lemma {:induction false} AllConjGrows(h: Key -> bool, g: Key -> bool, atoms: seq<Atom>)
    requires Implies(h, g)
    ensures AllConj(h, atoms) ==> AllConj(g, atoms)
  {
    if atoms != [] { AllConjGrows(h, g, atoms[1..]); }
  }

  lemma {:induction false} ChainGrows(h: Key -> bool, g: Key -> bool, atoms: seq<Atom>)
    requires Implies(h, g)
    ensures Chain(h, atoms) ==> Chain(g, atoms)
  {
    if atoms != [] {
      AllConjGrows(h, g, atoms[1..]);
      ChainGrows(h, g, atoms[1..]);
    }
  }

  lemma {:induction false} AtomGrows(h: Key -> bool, g: Key -> bool, a: Atom)
    requires Implies(h, g)
    ensures AtomHolds(h, a) ==> AtomHolds(g, a)
  {
  }

  lemma {:induction false} AnyGrows(h: Key -> bool, g: Key -> bool, atoms: seq<Atom>)
    requires Implies(h, g)
    ensures Any(h, atoms) ==> Any(g, atoms)
  {
    forall a | a in atoms ensures AtomHolds(h, a) ==> AtomHolds(g, a) { AtomGrows(h, g, a); }
  }

  lemma {:induction false} CrossedGrows(h: Key -> bool, g: Key -> bool, xs: seq<Atom>, atoms: seq<Atom>)
    requires Implies(h, g)
    ensures Crossed(h, xs, atoms) ==> Crossed(g, xs, atoms)
  {
    if xs != [] {
      AtomGrows(h, g, xs[0]);
      AnyGrows(h, g, atoms);
      ChainGrows(h, g, atoms);
      CrossedGrows(h, g, xs[1..], atoms);
    }
  }

  /** More keys that hold never make the result fail. */
  lemma {:induction false} AndGrows(h: Key -> bool, g: Key -> bool, c: Dnf, d: Dnf)
    requires Implies(h, g) && AndMeaning(h, c, d)
    ensures AndMeaning(g, c, d)
  {
    AnyGrows(h, g, AtomsOf(c));
    AnyGrows(h, g, AtomsOf(d));
    ChainGrows(h, g, AtomsOf(d));
    CrossedGrows(h, g, AtomsOf(c), AtomsOf(d));
  }

  /** A condition with members holds exactly when some member does. */
  lemma {:induction false} SomeMember(h: Key -> bool, c: Dnf)
    requires c.OfKey? || c.OfConj? || c.OfDisj?
    ensures Means(h, c) <==> exists i | 0 <= i < |AtomsOf(c)| :: AtomHolds(h, AtomsOf(c)[i])
  {
    AtomsMean(h, c);
    if Any(h, AtomsOf(c)) {
      var a :| a in AtomsOf(c) && AtomHolds(h, a);
      var i :| 0 <= i < |AtomsOf(c)| && AtomsOf(c)[i] == a;
    }
    if i :| 0 <= i < |AtomsOf(c)| && AtomHolds(h, AtomsOf(c)[i]) { assert AtomsOf(c)[i] in AtomsOf(c); }
  }

  lemma {:induction false} LeastHolds(x: Atom, y: Atom, h: Key -> bool)
    ensures AtomHolds(Least(x, y), x) && AtomHolds(Least(x, y), y)
    ensures AtomHolds(h, x) && AtomHolds(h, y) ==> Implies(Least(x, y), h)
  {
  }

  lemma {:induction false} KeptRow(h: Key -> bool, c: Dnf, d: Dnf)
    requires KeepsRows(c, d) && !And(c, d).Missing? && Means(h, c) && Means(h, d)
    ensures Means(h, And(c, d))
  {
    AndMeans(h, c, d);
    MissingResult(c, d);
    if !c.Yes? {
      SomeMember(h, c);
      SomeMember(h, d);
      var i :| 0 <= i < |AtomsOf(c)| && AtomHolds(h, AtomsOf(c)[i]);
      var j :| 0 <= j < |AtomsOf(d)| && AtomHolds(h, AtomsOf(d)[j]);
      LeastHolds(AtomsOf(c)[i], AtomsOf(d)[j], h);
      AndGrows(Least(AtomsOf(c)[i], AtomsOf(d)[j]), h, c, d);
    }
  }

  lemma {:induction false} LostRow(c: Dnf, d: Dnf, i: nat, j: nat)
    requires !And(c, d).Missing? && i < |AtomsOf(c)| && j < |AtomsOf(d)|
    ensures var h := Least(AtomsOf(c)[i], AtomsOf(d)[j]);
            Means(h, c) && Means(h, d) && (Means(h, And(c, d)) <==> AndMeaning(h, c, d))
  {
    var h := Least(AtomsOf(c)[i], AtomsOf(d)[j]);
    LeastHolds(AtomsOf(c)[i], AtomsOf(d)[j], h);
    MissingResult(c, d);
    SomeMember(h, c);
    SomeMember(h, d);
    AndMeans(h, c, d);
  }

  /** The result is the conjunction of its operands on every row exactly when any two members are kept together. */
  lemma {:induction false} ConjunctionExactly(c: Dnf, d: Dnf)
    requires !And(c, d).Missing?
    ensures KeepsRows(c, d) <==> forall h :: Means(h, And(c, d)) <==> Means(h, c) && Means(h, d)
  {
    if KeepsRows(c, d) {
      forall h ensures Means(h, And(c, d)) <==> Means(h, c) && Means(h, d) {
        AndIsConjunction(h, c, d);
        if Means(h, c) && Means(h, d) { KeptRow(h, c, d); }
      }
    } else {
      var i, j :| 0 <= i < |AtomsOf(c)| && 0 <= j < |AtomsOf(d)| && !AndMeaning(Least(AtomsOf(c)[i], AtomsOf(d)[j]), c, d);
      LostRow(c, d, i, j);
    }
  }

  // ----- operands in which one conjunction stands several times -----

  ghost function KeySet(a: Atom): set<Key> {
    set k | k in KeysIn(a)
  }

  ghost function KeySets(atoms: seq<Atom>): seq<set<Key>> {
    seq(|atoms|, i requires 0 <= i < |atoms| => KeySet(atoms[i]))
  }

  /** The keys of all conjunctions among the members. */
  ghost function ConjKeys(atoms: seq<Atom>): set<Key> {
    if atoms == [] then {} else ConjKeys(atoms[1..]) + if atoms[0].ConjAtom? then KeySet(atoms[0]) else {}
  }

  lemma {:induction false} GatheredSet(ks: seq<Key>, atoms: seq<Atom>)
    ensures KeySet(ConjAtom(Gathered(ks, atoms))) == KeySet(ConjAtom(ks)) + ConjKeys(atoms)
    decreases |atoms|
  {
    if atoms != [] { GatheredSet(if atoms[0].ConjAtom? then ks + atoms[0].keys else ks, atoms[1..]); }
  }

  /** Members as they are when their turn comes: some with more keys, but each of them once as it was. */
  ghost predicate Repeats(now: seq<Atom>, xs: seq<Atom>) {
    |now| == |xs| && forall i | 0 <= i < |xs| ::
      (now[i].KeyAtom? <==> xs[i].KeyAtom?) && KeySet(xs[i]) <= KeySet(now[i]) && xs[i] in now
  }

  /** What a value is, up to repeated keys, when conjunctions on the left are extended more than once. */
  ghost predicate Stands(u: Dnf, c: Dnf, d: Dnf) {
    || u == And(c, d)
    || (u.OfDisj? && c.OfDisj? && d.OfConj? && KeySets(u.atoms) == KeySets(EachAndConj(c.atoms, d.keys)))
    || (u.OfDisj? && c.OfDisj? && d.OfDisj? && exists now :: Repeats(now, c.atoms) && KeySets(u.atoms) == KeySets(Product(now, d.atoms)))
  }

  lemma {:induction false} HoldsBySet(h: Key -> bool, a: Atom)
    ensures AtomHolds(h, a) <==> forall k | k in KeySet(a) :: h(k)
  {
    if a.KeyAtom? { assert a.key in KeySet(a); }
  }

  lemma {:induction false} SameSetsMean(h: Key -> bool, xs: seq<Atom>, ys: seq<Atom>)
    requires KeySets(xs) == KeySets(ys)
    ensures Any(h, xs) ==> Any(h, ys)
  {
    if Any(h, xs) {
      var a :| a in xs && AtomHolds(h, a);
      var i :| 0 <= i < |xs| && xs[i] == a;
      assert KeySets(xs)[i] == KeySet(xs[i]) && |KeySets(ys)| == |ys| && KeySets(ys)[i] == KeySet(ys[i]);
      HoldsBySet(h, xs[i]);
      HoldsBySet(h, ys[i]);
      assert ys[i] in ys;
    }
  }

  lemma {:induction false} CrossedSome(h: Key -> bool, xs: seq<Atom>, atoms: seq<Atom>)
    ensures Crossed(h, xs, atoms) <==> exists x | x in xs :: CrossedOne(h, x, atoms)
  {
    if xs != [] {
      CrossedSome(h, xs[1..], atoms);
      assert forall x :: x in xs <==> x == xs[0] || x in xs[1..];
    }
  }

  lemma {:induction false} CrossedBySet(h: Key -> bool, x: Atom, y: Atom, atoms: seq<Atom>)
    requires (x.KeyAtom? <==> y.KeyAtom?) && KeySet(y) <= KeySet(x) && CrossedOne(h, x, atoms)
    ensures CrossedOne(h, y, atoms)
  {
    HoldsBySet(h, x);
    HoldsBySet(h, y);
  }

  /** Extending a conjunction again changes nothing, because it was used before. */
  lemma {:induction false} RepeatsCross(h: Key -> bool, now: seq<Atom>, xs: seq<Atom>, atoms: seq<Atom>)
    requires Repeats(now, xs)
    ensures Crossed(h, now, atoms) <==> Crossed(h, xs, atoms)
  {
    CrossedSome(h, now, atoms);
    CrossedSome(h, xs, atoms);
    forall i | 0 <= i < |now| && CrossedOne(h, now[i], atoms) ensures exists x | x in xs :: CrossedOne(h, x, atoms) {
      CrossedBySet(h, now[i], xs[i], atoms);
      assert xs[i] in xs;
    }
    forall i | 0 <= i < |xs| && CrossedOne(h, xs[i], atoms) ensures exists x | x in now :: CrossedOne(h, x, atoms) {
      assert xs[i] in now;
    }
  }

  /** Whatever is shared on the left, the result means what the conjunction of the values means. */
  lemma {:induction false} StandsMeans(h: Key -> bool, u: Dnf, c: Dnf, d: Dnf)
    requires Stands(u, c, d) && !u.Missing?
    ensures Means(h, u) <==> AndMeaning(h, c, d)
    ensures Means(h, u) ==> Means(h, c) && Means(h, d)
  {
    AndMeans(h, c, d);
    AndIsConjunction(h, c, d);
    if u != And(c, d) {
      if d.OfConj? {
        SameSetsMean(h, u.atoms, EachAndConj(c.atoms, d.keys));
        SameSetsMean(h, EachAndConj(c.atoms, d.keys), u.atoms);
      } else {
        var now :| Repeats(now, c.atoms) && KeySets(u.atoms) == KeySets(Product(now, d.atoms));
        SameSetsMean(h, u.atoms, Product(now, d.atoms));
        SameSetsMean(h, Product(now, d.atoms), u.atoms);
        ProductMeans(h, now, d.atoms);
        RepeatsCross(h, now, c.atoms, d.atoms);
      }
    }
  }
}
