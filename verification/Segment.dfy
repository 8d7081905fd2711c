/** Segment IDs: workers on any number of hosts share one row that holds the highest ID handed out. */
module Segment {
  import opened Options
  import opened Modulo

  /** Where the producing goroutine of a worker stands. */
  datatype Phase = Check | Reload | Bump | Send

  /** A worker, with all IDs it has made and those its callers have taken. */
  datatype Worker = Worker(phase: Phase, min: int, max: int, step: int, made: seq<int>, buffer: seq<int>, taken: seq<int>)

  /** The `max_id` row, if there is one, and the workers. */
  datatype State = State(row: Option<int>, workers: seq<Worker>)

  /** An atomic step of a worker or of one of its callers. */
  datatype Kind =
    | Fetched   // the transaction commits
    | Lost      // the transaction commits but reports an error, so the worker tries again
    | Checked   // compares min and max
    | Bumped    // increments min
    | Sent      // puts min into the channel
    | Took      // a caller receives from the channel

  datatype Action = Action(i: nat, kind: Kind)

  function Start(step: int): Worker {
    Worker(Reload, 0, 0, step, [], [], [])
  }

  predicate Initial(s: State) {
    forall w | w in s.workers :: w == Start(w.step)
  }

  /** The value scanned from the row; zero when there is none. */
  function Scanned(row: Option<int>): int {
    if row.Some? then row.value else 0
  }

  /** The row after the update, which changes nothing when there is none. */
  function Updated(row: Option<int>, step: int): Option<int> {
    if row.Some? then Some(row.value + step) else None
  }

  predicate CanMove(w: Worker, k: Kind) {
    match k
    case Fetched => w.phase == Reload
    case Lost => w.phase == Reload
    case Checked => w.phase == Check
    case Bumped => w.phase == Bump
    case Sent => w.phase == Send && |w.buffer| < w.step
    case Took => w.buffer != []
  }

  function Moved(w: Worker, row: Option<int>, k: Kind): Worker
    requires CanMove(w, k)
  {
    match k
    case Fetched => w.(phase := Bump, min := Scanned(row), max := Scanned(row) + w.step)
    case Lost => w
    case Checked => w.(phase := if w.min >= w.max then Reload else Bump)
    case Bumped => w.(phase := Send, min := w.min + 1, made := w.made + [w.min + 1])
    case Sent => w.(phase := Check, buffer := w.buffer + [w.min])
    case Took => w.(buffer := w.buffer[1..], taken := w.taken + [w.buffer[0]])
  }

  function RowAfter(w: Worker, row: Option<int>, k: Kind): Option<int> {
    if k.Fetched? || k.Lost? then Updated(row, w.step) else row
  }

  predicate Enabled(s: State, a: Action) {
    a.i < |s.workers| && CanMove(s.workers[a.i], a.kind)
  }

  function Next(s: State, a: Action): State
    requires Enabled(s, a)
  {
    var w := s.workers[a.i];
    State(RowAfter(w, s.row, a.kind), s.workers[a.i := Moved(w, s.row, a.kind)])
  }

  /** The state after some actions, if each is enabled in its turn. */
  function Reached(s: State, actions: seq<Action>): Option<State> {
    if actions == [] then Some(s)
    else
      var m := Reached(s, actions[..|actions| - 1]);
      if m.Some? && Enabled(m.value, actions[|actions| - 1]) then Some(Next(m.value, actions[|actions| - 1])) else None
  }

  /** A run of workers with positive steps from the start. */
  predicate Ran(s: State, actions: seq<Action>) {
    Initial(s) && (forall w | w in s.workers :: w.step >= 1) && Reached(s, actions).Some?
  }

  function End(s: State, actions: seq<Action>): State
    requires Ran(s, actions)
  {
    Reached(s, actions).value
  }

  /** Worker `i` has made an ID at position `p`. */
  predicate Made(s: State, i: nat, p: nat) {
    i < |s.workers| && p < |s.workers[i].made|
  }

  function Id(s: State, i: nat, p: nat): int
    requires Made(s, i, p)
  {
    s.workers[i].made[p]
  }

  // ----- with a row -----

  /** IDs a worker has made or may still make from its segment. */
  predicate Owns(w: Worker, x: int) {
    x in w.made || w.min < x <= w.max
  }

  predicate Increasing(s: seq<int>) {
    forall i, j | 0 <= i < j < |s| :: s[i] < s[j]
  }

  /** What holds of each worker by itself. */
  ghost predicate Sound(w: Worker) {
    && w.step >= 1 && w.min <= w.max && (w.phase == Bump ==> w.min < w.max)
    && Increasing(w.made) && (forall x | x in w.made :: x <= w.min)
    && |w.buffer| <= w.step
    && w.taken + w.buffer + (if w.phase == Send then [w.min] else []) == w.made
  }

  /** Every owned ID lies between the first row value and the present one. */
  ghost predicate Within(w: Worker, first: int, last: int) {
    forall x | Owns(w, x) :: first < x <= last
  }

  ghost predicate Apart(v: Worker, w: Worker) {
    forall x | Owns(v, x) :: !Owns(w, x)
  }

  ghost predicate Inv(s: State, first: int) {
    && s.row.Some? && first <= s.row.value
    && (forall i | 0 <= i < |s.workers| :: Sound(s.workers[i]) && Within(s.workers[i], first, s.row.value))
    && (forall i, j | 0 <= i < |s.workers| && 0 <= j < |s.workers| && i != j :: Apart(s.workers[i], s.workers[j]))
  }

  lemma {:induction false} Above(s: seq<int>, m: int)
    requires Increasing(s) && forall x | x in s :: x <= m
    ensures Increasing(s + [m + 1])
  {
    assert forall i | 0 <= i < |s| :: s[i] in s;
  }

  lemma {:induction false} MovedSound(w: Worker, last: int, k: Kind)
    requires Sound(w) && CanMove(w, k) && forall x | Owns(w, x) :: x <= last
    ensures Sound(Moved(w, Some(last), k))
  {
    if k.Took? {
      assert w.buffer == [w.buffer[0]] + w.buffer[1..];
    } else if k.Fetched? {
      assert forall x | x in w.made :: Owns(w, x);
    } else if k.Bumped? {
      Above(w.made, w.min);
    }
  }

  /** A step of one worker claims only IDs that it owns already or that lie between the old row and the new. */
  lemma {:induction false} MovedClaims(w: Worker, last: int, k: Kind, x: int)
    requires Sound(w) && CanMove(w, k) && Owns(Moved(w, Some(last), k), x)
    ensures Owns(w, x) || last < x <= RowAfter(w, Some(last), k).value
  {
  }

  lemma {:induction false} Grows(w: Worker, last: int, k: Kind)
    requires Sound(w)
    ensures last <= RowAfter(w, Some(last), k).value
  {
  }

  lemma {:induction false} StepKeeps(s: State, a: Action, first: int)
    requires Inv(s, first) && Enabled(s, a)
    ensures Inv(Next(s, a), first)
  {
    var w, last, t := s.workers[a.i], s.row.value, Next(s, a);
    Grows(w, last, a.kind);
    MovedSound(w, last, a.kind);
    forall i | 0 <= i < |s.workers| ensures Within(t.workers[i], first, t.row.value) {
      forall x | Owns(t.workers[i], x) ensures first < x <= t.row.value {
        if i == a.i {
          MovedClaims(w, last, a.kind, x);
        }
        assert Owns(s.workers[i], x) ==> first < x <= last;
      }
    }
    forall i, j | 0 <= i < |s.workers| && 0 <= j < |s.workers| && i != j ensures Apart(t.workers[i], t.workers[j]) {
      assert Apart(s.workers[i], s.workers[j]);
      forall x | Owns(t.workers[i], x) ensures !Owns(t.workers[j], x) {
        StaysApart(s, a, first, i, j, x);
      }
    }
  }

  lemma {:induction false} StaysApart(s: State, a: Action, first: int, i: nat, j: nat, x: int)
    requires Inv(s, first) && Enabled(s, a) && i < |s.workers| && j < |s.workers| && i != j
    ensures !(Owns(Next(s, a).workers[i], x) && Owns(Next(s, a).workers[j], x))
  {
    var w, t := s.workers[a.i], Next(s, a);
    assert Apart(s.workers[i], s.workers[j]);
    assert Within(s.workers[i], first, s.row.value) && Within(s.workers[j], first, s.row.value);
    if Owns(t.workers[a.i], x) {
      MovedClaims(w, s.row.value, a.kind, x);
    }
  }

  /** Everything that is reached from the start, by whatever interleaving, keeps the invariant. */
  lemma {:induction false} RunKeeps(s: State, actions: seq<Action>)
    requires Ran(s, actions) && s.row.Some?
    ensures Inv(End(s, actions), s.row.value)
  {
    if actions == [] {
      assert forall i | 0 <= i < |s.workers| :: s.workers[i] in s.workers;
    } else {
      RunKeeps(s, actions[..|actions| - 1]);
      StepKeeps(Reached(s, actions[..|actions| - 1]).value, actions[|actions| - 1], s.row.value);
    }
  }

  /**
   * No ID is ever made twice, by one worker or by two; each worker's IDs increase and its callers get them in
   * order; all of them are above the first row value and not above the present one.
   */
  lemma {:induction false} UniqueIds(s: State, actions: seq<Action>, i: nat, j: nat, p: nat, q: nat)
    requires Ran(s, actions) && s.row.Some? && Made(End(s, actions), i, p) && Made(End(s, actions), j, q)
    ensures var t := End(s, actions);
            && (Id(t, i, p) == Id(t, j, q) <==> i == j && p == q)
            && (i == j && p < q ==> Id(t, i, p) < Id(t, j, q))
            && t.row.Some? && s.row.value < Id(t, i, p) <= t.row.value
            && t.workers[i].taken <= t.workers[i].made
  {
    RunKeeps(s, actions);
    var t := End(s, actions);
    var v, w := t.workers[i], t.workers[j];
    assert Sound(v) && Sound(w) && Within(v, s.row.value, t.row.value);
    assert Owns(v, v.made[p]) && Owns(w, w.made[q]);
    if i != j {
      assert Apart(v, w);
    }
    var rest := v.buffer + if v.phase == Send then [v.min] else [];
    assert v.made == v.taken + rest;
  }

  // ----- no ID is skipped, and none is held back -----

  /** IDs made and still to be made from the present segments. */
  function Claimed(workers: seq<Worker>): int {
    if workers == [] then 0
    else var w := workers[|workers| - 1]; Claimed(workers[..|workers| - 1]) + |w.made| + w.max - w.min
  }

  /** IDs in segments whose transaction was reported as failed although it was committed. */
  function Wasted(s: State, actions: seq<Action>): int {
    if actions == [] then 0
    else
      var init, a := actions[..|actions| - 1], actions[|actions| - 1];
      Wasted(s, init) + if a.kind.Lost? && a.i < |s.workers| then s.workers[a.i].step else 0
  }

  lemma {:induction false} ClaimedUpdate(workers: seq<Worker>, i: nat, w: Worker)
    requires i < |workers|
    ensures Claimed(workers[i := w]) - Claimed(workers) ==
            |w.made| + w.max - w.min - (|workers[i].made| + workers[i].max - workers[i].min)
  {
    var last := |workers| - 1;
    if i == last {
      assert workers[i := w][..last] == workers[..last];
    } else {
      ClaimedUpdate(workers[..last], i, w);
      assert workers[i := w][..last] == workers[..last][i := w];
    }
  }

  /** A worker asks for a segment only when it has used up the one before. */
  predicate UsedUp(w: Worker) {
    w.phase == Reload ==> w.min == w.max
  }

  lemma {:induction false} NothingClaimed(workers: seq<Worker>)
    requires forall w | w in workers :: w == Start(w.step)
    ensures Claimed(workers) == 0
  {
    if workers != [] {
      assert workers[|workers| - 1] in workers;
      NothingClaimed(workers[..|workers| - 1]);
    }
  }

  /** Over every run, the row has grown by exactly the IDs made, those still to be made, and those wasted by lost replies. */
  lemma {:induction false} Accounted(s: State, actions: seq<Action>)
    requires Ran(s, actions) && s.row.Some?
    ensures var t := End(s, actions);
            && t.row.Some? && t.row.value - s.row.value == Claimed(t.workers) + Wasted(s, actions)
            && |t.workers| == |s.workers|
            && forall i | 0 <= i < |t.workers| :: UsedUp(t.workers[i]) && t.workers[i].step == s.workers[i].step
  {
    if actions == [] {
      NothingClaimed(s.workers);
      assert forall i | 0 <= i < |s.workers| :: s.workers[i] in s.workers;
    } else {
      var init, a := actions[..|actions| - 1], actions[|actions| - 1];
      Accounted(s, init);
      RunKeeps(s, init);
      var m := End(s, init);
      var w := m.workers[a.i];
      assert Sound(w) && UsedUp(w);
      ClaimedUpdate(m.workers, a.i, Moved(w, m.row, a.kind));
    }
  }

  /** The kinds of the actions by which a worker next hands out an ID. */
  function Serving(w: Worker): seq<Kind> {
    if w.buffer != [] then [Took]
    else match w.phase
         case Send => [Sent, Took]
         case Bump => [Bumped, Sent, Took]
         case Reload => [Fetched, Bumped, Sent, Took]
         case Check => if w.min >= w.max then [Checked, Fetched, Bumped, Sent, Took] else [Checked, Bumped, Sent, Took]
  }

  function Of(i: nat, kinds: seq<Kind>): (actions: seq<Action>)
    ensures |actions| == |kinds|
  {
    if kinds == [] then [] else Of(i, kinds[..|kinds| - 1]) + [Action(i, kinds[|kinds| - 1])]
  }

  /** A worker by itself, through some actions. */
  function Through(w: Worker, row: Option<int>, kinds: seq<Kind>): Option<(Worker, Option<int>)> {
    if kinds == [] then Some((w, row))
    else
      var m := Through(w, row, kinds[..|kinds| - 1]);
      var k := kinds[|kinds| - 1];
      if m.None? || !CanMove(m.value.0, k) then None else Some((Moved(m.value.0, m.value.1, k), RowAfter(m.value.0, m.value.1, k)))
  }

  lemma {:induction false} OwnSteps(s: State, i: nat, kinds: seq<Kind>)
    requires i < |s.workers| && Through(s.workers[i], s.row, kinds).Some?
    ensures var m := Through(s.workers[i], s.row, kinds).value;
            Reached(s, Of(i, kinds)) == Some(State(m.1, s.workers[i := m.0]))
  {
    if kinds != [] {
      var init := kinds[..|kinds| - 1];
      OwnSteps(s, i, init);
      assert Of(i, kinds)[..|kinds| - 1] == Of(i, init);
      var m, k := Through(s.workers[i], s.row, init).value, kinds[|kinds| - 1];
      assert s.workers[i := m.0][i := Moved(m.0, m.1, k)] == s.workers[i := Moved(m.0, m.1, k)];
    } else {
      assert s.workers[i := s.workers[i]] == s.workers;
    }
  }

  lemma {:induction false} StillReached(s: State, actions: seq<Action>, more: seq<Action>)
    requires Reached(s, actions).Some?
    ensures Reached(s, actions + more) == Reached(Reached(s, actions).value, more)
  {
    if more == [] {
      assert actions + more == actions;
    } else {
      var all := actions + more;
      assert all[..|all| - 1] == actions + more[..|more| - 1];
      StillReached(s, actions, more[..|more| - 1]);
    }
  }

  /** In every run each worker can hand out an ID by at most five steps of its own: the oldest in its channel, or a new one. */
  lemma {:induction false} Serves(s: State, actions: seq<Action>, i: nat)
    requires Ran(s, actions) && s.row.Some? && i < |End(s, actions).workers|
    ensures var w := End(s, actions).workers[i];
            var all := actions + Of(i, Serving(w));
            && Ran(s, all) && i < |End(s, all).workers|
            && End(s, all).workers[i].taken == w.taken + [if w.buffer != [] then w.buffer[0] else End(s, all).workers[i].min]
  {
    RunKeeps(s, actions);
    var t := End(s, actions);
    var w := t.workers[i];
    assert Sound(w);
    ServingSteps(w, t.row);
    OwnSteps(t, i, Serving(w));
    StillReached(s, actions, Of(i, Serving(w)));
  }

  lemma {:induction false} ThroughFirst(w: Worker, row: Option<int>, k: Kind, kinds: seq<Kind>)
    requires CanMove(w, k)
    ensures Through(w, row, [k] + kinds) == Through(Moved(w, row, k), RowAfter(w, row, k), kinds)
  {
    var all := [k] + kinds;
    if kinds == [] {
      assert all == [k] && all[..0] == [];
    } else {
      assert all[..|all| - 1] == [k] + kinds[..|kinds| - 1];
      ThroughFirst(w, row, k, kinds[..|kinds| - 1]);
    }
  }

  lemma {:induction false} ServingSteps(w: Worker, row: Option<int>)
    requires w.step >= 1
    ensures Through(w, row, Serving(w)).Some?
    ensures var m := Through(w, row, Serving(w)).value.0; m.taken == w.taken + [if w.buffer != [] then w.buffer[0] else m.min]
    ensures w.buffer != [] ==> Through(w, row, Serving(w)).value.0.min == w.min
    decreases |Serving(w)|
  {
    if w.buffer != [] {
      ThroughFirst(w, row, Took, []);
      assert [Took] + [] == [Took];
    } else {
      var k := Serving(w)[0];
      var v := Moved(w, row, k);
      assert Serving(w) == [k] + Serving(v);
      ThroughFirst(w, row, k, Serving(v));
      ServingSteps(v, RowAfter(w, row, k));
    }
  }

  // ----- without a row -----

  /** The IDs 1 to `step`, over and over. */
  function Cycle(step: int, n: nat): (s: seq<int>)
    requires step >= 1
    ensures |s| == n && forall k | 0 <= k < n :: s[k] == k % step + 1
  {
    if n == 0 then [] else Cycle(step, n - 1) + [(n - 1) % step + 1]
  }

  /** A worker whose segment always starts at zero. */
  predicate Repeats(w: Worker) {
    && w.step >= 1 && w.made == Cycle(w.step, |w.made|)
    && match w.phase
       case Reload => |w.made| % w.step == 0
       case Bump => w.max == w.step && w.min == |w.made| % w.step
       case _ => w.max == w.step && |w.made| > 0 && w.min == (|w.made| - 1) % w.step + 1
  }

  lemma {:induction false} MovedRepeats(w: Worker, k: Kind)
    requires Repeats(w) && CanMove(w, k)
    ensures Repeats(Moved(w, None, k))
  {
    if k.Checked? {
      ModNext(|w.made| - 1, w.step);
    }
  }

  /** Without a row nothing is stored, and every worker makes the IDs 1 to its step over and over. */
  lemma {:induction false} MissingRowRepeats(s: State, actions: seq<Action>)
    requires Ran(s, actions) && s.row.None?
    ensures var t := End(s, actions);
            && t.row.None? && |t.workers| == |s.workers|
            && forall i | 0 <= i < |t.workers| :: Repeats(t.workers[i]) && t.workers[i].step == s.workers[i].step
  {
    if actions == [] {
      forall i | 0 <= i < |s.workers| ensures Repeats(s.workers[i]) {
        assert s.workers[i] in s.workers;
        ModUnique(0, s.workers[i].step, 0);
      }
    } else {
      var a := actions[|actions| - 1];
      MissingRowRepeats(s, actions[..|actions| - 1]);
      var m := Reached(s, actions[..|actions| - 1]).value;
      MovedRepeats(m.workers[a.i], a.kind);
    }
  }

  /** So two IDs coincide exactly when their positions do modulo the steps: the first IDs of any two workers already do. */
  lemma {:induction false} MissingRowDuplicates(s: State, actions: seq<Action>, i: nat, j: nat, p: nat, q: nat)
    requires Ran(s, actions) && s.row.None? && Made(End(s, actions), i, p) && Made(End(s, actions), j, q)
    ensures var t := End(s, actions);
            && t.workers[i].step >= 1 && t.workers[j].step >= 1
            && (Id(t, i, p) == Id(t, j, q) <==> p % t.workers[i].step == q % t.workers[j].step)
  {
    MissingRowRepeats(s, actions);
    var t := End(s, actions);
    assert Repeats(t.workers[i]) && Repeats(t.workers[j]);
  }
}
