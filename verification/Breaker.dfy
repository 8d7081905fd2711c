/** The circuit breaker filter, with its timer goroutine and any number of requests under way. */
module Breaker {
  import opened Options

  datatype Mode = Closed | Open | HalfOpen

  datatype Config = Config(errorThreshold: int, successThreshold: int, timeout: int)

  /** The fields of the filter, the timers asleep, and the successful requests that are waiting for the lock. */
  datatype View = View(mode: Mode, errors: int, successes: int, lastError: int, timers: nat, waiting: nat)

  function Fresh(): View {
    View(Closed, 0, 0, 0, 0, 0)
  }

  // ----- what each critical section does -----

  function Changed(v: View, mode: Mode): View {
    v.(mode := mode, errors := 0, successes := 0)
  }

  /** Opening starts a timer. */
  function Opened(v: View): View {
    Changed(v, Open).(timers := v.timers + 1)
  }

  /** A success is let go without the lock when the state looks closed. */
  function Looked(v: View): View {
    if v.mode == Closed then v else v.(waiting := v.waiting + 1)
  }

  function Succeeded(c: Config, v: View): View
    requires v.waiting > 0
  {
    var u := v.(waiting := v.waiting - 1);
    if v.mode != HalfOpen then u
    else if v.successes + 1 == c.successThreshold then Changed(u, Closed)
    else u.(successes := v.successes + 1)
  }

  /** Errors are forgotten when the last one is older than the timeout. */
  function Errors(c: Config, v: View, now: int): int {
    if v.errors > 0 && now > v.lastError + c.timeout then 0 else v.errors
  }

  function Erred(c: Config, v: View, now: int): View {
    var errors := Errors(c, v, now);
    match v.mode
    case Closed => if errors + 1 == c.errorThreshold then Opened(v) else v.(errors := errors + 1, lastError := now)
    case Open => v.(errors := errors)
    case HalfOpen => Opened(v)
  }

  function Woken(v: View): View
    requires v.timers > 0
  {
    Changed(v, HalfOpen).(timers := v.timers - 1)
  }

  class Filter {
    const config: Config
    var mode: Mode
    var errors: int
    var successes: int
    var lastError: int
    var timers: nat
    var waiting: nat

    function GetView(): View
      reads this
    {
      View(mode, errors, successes, lastError, timers, waiting)
    }

    constructor (config: Config)
      ensures this.config == config && GetView() == Fresh()
    {
      this.config := config;
      mode, errors, successes, lastError, timers, waiting := Closed, 0, 0, 0, 0, 0;
    }

    /** Requests are turned away exactly while the breaker is open. */
    method PreHandle() returns (rejected: bool)
      ensures rejected <==> mode == Open
    {
      return mode == Open;
    }

    method ChangeState(newMode: Mode)
      modifies this
      ensures GetView() == Changed(old(GetView()), newMode)
    {
      errors := 0;
      successes := 0;
      mode := newMode;
    }

    method OpenBreaker()
      modifies this
      ensures GetView() == Opened(old(GetView()))
    {
      ChangeState(Open);
      timers := timers + 1;
    }

    /** The part of PostHandle before the lock, for a request that succeeded. */
    method Look()
      modifies this
      ensures GetView() == Looked(old(GetView()))
    {
      if mode == Closed { return; }
      waiting := waiting + 1;
    }

    /** PostHandle under the lock, for a request that succeeded. */
    method PostHandleSuccess()
      requires waiting > 0
      modifies this
      ensures GetView() == Succeeded(config, old(GetView()))
    {
      waiting := waiting - 1;
      if mode == HalfOpen {
        successes := successes + 1;
        if successes == config.successThreshold { ChangeState(Closed); }
      }
    }

    /** PostHandle under the lock, for a request that failed. */
    method PostHandleError(now: int)
      modifies this
      ensures GetView() == Erred(config, old(GetView()), now)
    {
      if errors > 0 && now > lastError + config.timeout { errors := 0; }
      match mode {
        case Closed =>
          errors := errors + 1;
          if errors == config.errorThreshold { OpenBreaker(); } else { lastError := now; }
        case HalfOpen => OpenBreaker();
        case Open =>
      }
    }

    /** What a timer does when it wakes. */
    method Timer()
      requires timers > 0
      modifies this
      ensures GetView() == Woken(old(GetView()))
    {
      timers := timers - 1;
      ChangeState(HalfOpen);
    }
  }

  // ----- runs -----

  datatype Event = Look | Success | Error(now: int) | Wake

  predicate Enabled(v: View, e: Event) {
    (e.Success? ==> v.waiting > 0) && (e.Wake? ==> v.timers > 0)
  }

  function Next(c: Config, v: View, e: Event): View
    requires Enabled(v, e)
  {
    match e
    case Look => Looked(v)
    case Success => Succeeded(c, v)
    case Error(now) => Erred(c, v, now)
    case Wake => Woken(v)
  }

  /** The state after some events in any interleaving, if each can happen in its turn. */
  function Reached(c: Config, events: seq<Event>): Option<View> {
    if events == [] then Some(Fresh())
    else
      var v := Reached(c, events[..|events| - 1]);
      if v.Some? && Enabled(v.value, events[|events| - 1]) then Some(Next(c, v.value, events[|events| - 1])) else None
  }

  /** One timer exactly while the breaker is open; each count is below its threshold and zero outside its mode. */
  predicate Inv(c: Config, v: View) {
    && v.timers == (if v.mode == Open then 1 else 0)
    && 0 <= v.errors < c.errorThreshold && (v.mode != Closed ==> v.errors == 0)
    && 0 <= v.successes < c.successThreshold && (v.mode != HalfOpen ==> v.successes == 0)
  }

  predicate Proper(c: Config) {
    c.errorThreshold >= 1 && c.successThreshold >= 1
  }

  lemma {:induction false} Safe(c: Config, events: seq<Event>)
    requires Proper(c) && Reached(c, events).Some?
    ensures Inv(c, Reached(c, events).value)
  {
    if events != [] {
      Safe(c, events[..|events| - 1]);
    }
  }

  /** In every run: open ends only by the timer and in half-open, half-open ends in open at the first error. */
  lemma {:induction false} Transitions(c: Config, events: seq<Event>, e: Event)
    requires Proper(c) && Reached(c, events).Some? && Enabled(Reached(c, events).value, e)
    ensures var v := Reached(c, events).value;
            var w := Next(c, v, e);
            && (v.mode == Open ==> w.mode == if e.Wake? then HalfOpen else Open)
            && (v.mode == Closed ==> w.mode == Closed || (w.mode == Open && e.Error?))
            && (v.mode == HalfOpen ==> (w.mode == Open <==> e.Error?) && (w.mode == Closed ==> e.Success?))
            && (e.Wake? <==> v.mode == Open && w.mode == HalfOpen)
  {
    Safe(c, events);
  }

  /** The times of the errors since the breaker was last closed, or the number of successes since it was half open. */
  datatype Since = Since(times: seq<int>, wins: nat)

  /** Counts independently of the filter's own counters. */
  function History(c: Config, events: seq<Event>): Since
    requires Reached(c, events).Some?
  {
    if events == [] then Since([], 0)
    else
      var init, e := events[..|events| - 1], events[|events| - 1];
      var h, v, w := History(c, init), Reached(c, init).value, Reached(c, events).value;
      if v.mode != w.mode then Since([], 0)
      else if e.Error? && v.mode == Closed then h.(times := h.times + [e.now])
      else if e.Success? && v.mode == HalfOpen then h.(wins := h.wins + 1)
      else h
  }

  /** How many of the latest errors followed one another within the timeout. */
  function Streak(timeout: int, times: seq<int>): nat {
    if |times| <= 1 then |times|
    else if times[|times| - 1] > times[|times| - 2] + timeout then 1
    else Streak(timeout, times[..|times| - 1]) + 1
  }

  predicate Tracks(c: Config, v: View, h: Since) {
    match v.mode
    case Closed => v.errors == Streak(c.timeout, h.times) && (h.times != [] ==> v.lastError == h.times[|h.times| - 1]) && h.wins == 0
    case HalfOpen => v.successes == h.wins && h.times == [] && v.errors == 0
    case Open => h.times == [] && h.wins == 0 && v.errors == 0
  }

  lemma {:induction false} StreakNext(timeout: int, times: seq<int>, now: int)
    ensures Streak(timeout, times + [now]) ==
            if times == [] || now > times[|times| - 1] + timeout then 1 else Streak(timeout, times) + 1
    ensures times != [] ==> Streak(timeout, times) >= 1
  {
    assert (times + [now])[..|times|] == times;
  }

  /** The counters are the streak of errors and the number of successes, for any configuration. */
  lemma {:induction false} Counts(c: Config, events: seq<Event>)
    requires Reached(c, events).Some?
    ensures Tracks(c, Reached(c, events).value, History(c, events))
    ensures var v := Reached(c, events).value; v.timers == (if v.mode == Open then 1 else 0)
  {
    if events != [] {
      var init, e := events[..|events| - 1], events[|events| - 1];
      Counts(c, init);
      if e.Error? {
        StreakNext(c.timeout, History(c, init).times, e.now);
      }
    }
  }

  /** A closed breaker opens exactly at the error that completes a streak of the threshold's length. */
  lemma {:induction false} Trips(c: Config, events: seq<Event>, now: int)
    requires Reached(c, events).Some? && Reached(c, events).value.mode == Closed
    ensures Next(c, Reached(c, events).value, Error(now)).mode == Open <==>
            Streak(c.timeout, History(c, events).times + [now]) == c.errorThreshold
  {
    Counts(c, events);
    StreakNext(c.timeout, History(c, events).times, now);
  }

  /** A half-open breaker closes exactly at the success that completes the threshold's number of them. */
  lemma {:induction false} Recovers(c: Config, events: seq<Event>)
    requires Reached(c, events).Some? && Reached(c, events).value.mode == HalfOpen
    requires Reached(c, events).value.waiting > 0
    ensures Next(c, Reached(c, events).value, Success).mode == Closed <==> History(c, events).wins + 1 == c.successThreshold
  {
    Counts(c, events);
  }

  // ----- recovery -----

  /** How many requests found the breaker not closed on success, over a run. */
  function Found(c: Config, events: seq<Event>): nat
    requires Reached(c, events).Some?
  {
    if events == [] then 0
    else
      var init, e := events[..|events| - 1], events[|events| - 1];
      Found(c, init) + if e.Look? && Reached(c, init).value.mode != Closed then 1 else 0
  }

  /** How many successes were handled under the lock, over a run. */
  function Handled(events: seq<Event>): nat {
    if events == [] then 0 else Handled(events[..|events| - 1]) + if events[|events| - 1].Success? then 1 else 0
  }

  /** In every run, the successes that wait for the lock are those that found the breaker not closed and are not handled yet. */
  lemma {:induction false} Waiting(c: Config, events: seq<Event>)
    requires Reached(c, events).Some?
    ensures Reached(c, events).value.waiting == Found(c, events) - Handled(events)
  {
    if events != [] {
      Waiting(c, events[..|events| - 1]);
    }
  }

  /** The events of `n` requests that succeed one after the other. */
  function Succeeding(n: nat): seq<Event> {
    if n == 0 then [] else [Look, Success] + Succeeding(n - 1)
  }

  lemma {:induction false} OneMore(c: Config, events: seq<Event>, e: Event)
    requires Reached(c, events).Some?
    ensures Reached(c, events + [e]) ==
            if Enabled(Reached(c, events).value, e) then Some(Next(c, Reached(c, events).value, e)) else None
  {
    assert (events + [e])[..|events|] == events;
  }

  /** A request that succeeds while half open is counted; it closes the breaker if it is the last one needed. */
  lemma {:induction false} SuccessCounts(c: Config, events: seq<Event>)
    requires Reached(c, events).Some? && Reached(c, events).value.mode == HalfOpen
    ensures var more := events + [Look] + [Success];
            && Reached(c, more).Some?
            && if History(c, events).wins + 1 == c.successThreshold then Reached(c, more).value.mode == Closed
               else Reached(c, more).value.mode == HalfOpen && History(c, more).wins == History(c, events).wins + 1
  {
    var looked := events + [Look];
    OneMore(c, events, Look);
    assert looked[..|events|] == events;
    assert History(c, looked).wins == History(c, events).wins;
    Waiting(c, looked);
    Waiting(c, events);
    OneMore(c, looked, Success);
    Recovers(c, looked);
    assert (looked + [Success])[..|looked|] == looked;
  }

  /** From every run that is half open, the breaker closes after as many successes as are still needed, and not before. */
  lemma {:induction false} ClosesAfter(c: Config, events: seq<Event>, n: nat, m: nat)
    requires Reached(c, events).Some? && Reached(c, events).value.mode == HalfOpen
    requires c.successThreshold - History(c, events).wins == n && 1 <= m <= n
    ensures Reached(c, events + Succeeding(m)).Some?
    ensures Reached(c, events + Succeeding(m)).value.mode == if m == n then Closed else HalfOpen
    decreases n
  {
    var more := events + [Look] + [Success];
    SuccessCounts(c, events);
    assert events + Succeeding(m) == more + Succeeding(m - 1);
    if m == 1 {
      assert more + [] == more;
    } else {
      ClosesAfter(c, more, n - 1, m - 1);
    }
  }

  /** From every run that is open, the timer can wake, and the breaker closes after the configured number of successes. */
  lemma {:induction false} ReopensAfterTimeout(c: Config, events: seq<Event>)
    requires Reached(c, events).Some? && Reached(c, events).value.mode == Open && c.successThreshold >= 1
    ensures Reached(c, events + [Wake]).Some? && Reached(c, events + [Wake]).value.mode == HalfOpen
    ensures var all := events + [Wake] + Succeeding(c.successThreshold);
            Reached(c, all).Some? && Reached(c, all).value.mode == Closed
  {
    Counts(c, events);
    OneMore(c, events, Wake);
    var woken := events + [Wake];
    assert woken[..|events|] == events;
    assert History(c, woken).wins == 0;
    ClosesAfter(c, woken, c.successThreshold, c.successThreshold);
  }

  /** The event opens the breaker: an error that completes a streak, or the first one while half open. */
  predicate Opens(c: Config, events: seq<Event>, e: Event)
    requires Reached(c, events).Some?
  {
    e.Error? && match Reached(c, events).value.mode
                case Closed => Streak(c.timeout, History(c, events).times + [e.now]) == c.errorThreshold
                case HalfOpen => true
                case Open => false
  }

  /** The event at `p` opened the breaker, and no timer has woken since. */
  ghost predicate OpenSince(c: Config, events: seq<Event>, p: int) {
    && 0 <= p < |events| && Reached(c, events[..p]).Some? && Opens(c, events[..p], events[p])
    && forall q | p < q < |events| :: !events[q].Wake?
  }

  lemma {:induction false} OpenSinceNext(c: Config, events: seq<Event>, p: int)
    requires events != []
    ensures var init := events[..|events| - 1];
            OpenSince(c, events, p) <==>
              || (OpenSince(c, init, p) && !events[|events| - 1].Wake?)
              || (p == |init| && Reached(c, init).Some? && Opens(c, init, events[p]))
  {
    var init := events[..|events| - 1];
    if 0 <= p < |init| { assert init[..p] == events[..p]; }
  }

  /** In every run a request is turned away exactly when an error opened the breaker and no timer has woken since. */
  lemma {:induction false} RejectsSince(c: Config, events: seq<Event>)
    requires Reached(c, events).Some?
    ensures Reached(c, events).value.mode == Open <==> exists p :: OpenSince(c, events, p)
  {
    if events != [] {
      var init, e := events[..|events| - 1], events[|events| - 1];
      RejectsSince(c, init);
      Counts(c, init);
      if e.Error? && Reached(c, init).value.mode == Closed { Trips(c, init, e.now); }
      forall p ensures OpenSince(c, events, p) <==> (OpenSince(c, init, p) && !e.Wake?) || (p == |init| && Opens(c, init, e)) {
        OpenSinceNext(c, events, p);
      }
      assert Opens(c, init, e) ==> OpenSince(c, events, |init|);
      if p :| OpenSince(c, init, p) && !e.Wake? { assert OpenSince(c, events, p); }
      assert Reached(c, events).value.mode == Open <==> Opens(c, init, e) || (Reached(c, init).value.mode == Open && !e.Wake?);
    }
  }

  /** Without a positive error threshold the breaker never opens. */
  lemma {:induction false} NeverOpens(c: Config, events: seq<Event>)
    requires c.errorThreshold <= 0 && Reached(c, events).Some?
    ensures var v := Reached(c, events).value; v.mode == Closed && v.timers == 0 && v.errors >= 0
  {
    if events != [] {
      NeverOpens(c, events[..|events| - 1]);
    }
  }
}
