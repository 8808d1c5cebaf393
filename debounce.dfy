/**
 * The debouncer (src/utils/debounce.ts): a wrapper around a function that delays each
 * call and lets a later call replace an earlier one still waiting, with a `cancel` that
 * drops the waiting call.
 *
 * Time is not modelled: the timer queue is part of the state (timers scheduled and not
 * yet fired or cleared, each with the arguments its callback will pass on), and a timer
 * firing is an explicit event. The wrapped function's calls are recorded in order.
 */
module Debounce {
  import opened Wrappers

  /**
   * The debouncer's slot `timeoutId`, the timers pending in the environment, the next
   * timer id the environment hands out, and the calls the wrapped function received.
   */
  datatype DebounceState<A> = DebounceState(
    timeoutId: Option<nat>,
    pending: map<nat, A>,
    nextId: nat,
    invocations: seq<A>)

  /** The slot names the only pending timer, if any; ids already handed out are below `nextId`. */
  predicate Valid<A>(s: DebounceState<A>)
  {
    (forall id :: id in s.pending ==> id < s.nextId) &&
    (s.timeoutId.None? ==> s.pending.Keys == {}) &&
    (s.timeoutId.Some? ==> s.pending.Keys == {s.timeoutId.value})
  }

  function Init<A>(): DebounceState<A>
  {
    DebounceState(None, map[], 0, [])
  }

  /** A call: clear the timer in the slot, if any, then schedule a new one holding these arguments. */
  function CallStep<A>(s: DebounceState<A>, args: A): DebounceState<A>
  {
    var pending := if s.timeoutId.Some? then s.pending - {s.timeoutId.value} else s.pending;
    DebounceState(Some(s.nextId), pending[s.nextId := args], s.nextId + 1, s.invocations)
  }

  /** `cancel`: clear the timer in the slot and empty the slot; nothing to do when it is empty. */
  function CancelStep<A>(s: DebounceState<A>): DebounceState<A>
  {
    if s.timeoutId.Some? then DebounceState(None, s.pending - {s.timeoutId.value}, s.nextId, s.invocations)
    else s
  }

  /** Timer `id` fires: its callback empties the slot and then calls the wrapped function. */
  function FireStep<A>(s: DebounceState<A>, id: nat): DebounceState<A>
    requires id in s.pending
  {
    var cleared := DebounceState(None, s.pending - {id}, s.nextId, s.invocations);
    DebounceState(cleared.timeoutId, cleared.pending, cleared.nextId, cleared.invocations + [s.pending[id]])
  }

  /** Calls in a row, with no timer firing in between. */
  function CallAll<A>(s: DebounceState<A>, argss: seq<A>): DebounceState<A>
    decreases |argss|
  {
    if argss == [] then s else CallAll(CallStep(s, argss[0]), argss[1..])
  }

  // ---------------------------------------------------------------------------
  // Properties.

  lemma InitValid<A>()
    ensures Valid(Init<A>())
  {
  }

  /** Every event keeps the slot naming the only pending timer. */
  lemma StepsKeepValid<A>(s: DebounceState<A>, args: A, id: nat)
    requires Valid(s)
    ensures Valid(CallStep(s, args))
    ensures Valid(CancelStep(s))
    ensures id in s.pending ==> Valid(FireStep(s, id))
  {
    if s.timeoutId.Some? {
      assert s.timeoutId.value in s.pending;
    }
  }

  /** At most one timer is pending at any time. */
  lemma AtMostOnePending<A>(s: DebounceState<A>)
    requires Valid(s)
    ensures |s.pending.Keys| <= 1
    ensures s.timeoutId.Some? <==> |s.pending.Keys| == 1
  {
  }

  /**
   * A call supersedes the waiting one: afterwards exactly one timer is pending, it is
   * new, and it carries the arguments of this call; the wrapped function is not called.
   */
  lemma CallSupersedes<A>(s: DebounceState<A>, args: A)
    requires Valid(s)
    ensures var t := CallStep(s, args);
      t.timeoutId == Some(s.nextId) && s.nextId !in s.pending &&
      t.pending == map[s.nextId := args] && t.invocations == s.invocations
  {
    var t := CallStep(s, args);
    assert t.pending.Keys == {s.nextId};
  }

  /**
   * A burst of calls leaves one pending timer carrying the last call's arguments; when
   * it fires, the wrapped function runs once, with those arguments, and nothing is left.
   */
  lemma {:induction false} BurstCollapses<A>(s: DebounceState<A>, argss: seq<A>)
    requires Valid(s) && argss != []
    ensures var t := CallAll(s, argss);
      Valid(t) && t.timeoutId.Some? &&
      t.pending == map[t.timeoutId.value := argss[|argss| - 1]] &&
      t.invocations == s.invocations &&
      var u := FireStep(t, t.timeoutId.value);
      u.invocations == s.invocations + [argss[|argss| - 1]] && u.pending.Keys == {} && u.timeoutId.None?
    decreases |argss|
  {
    var s1 := CallStep(s, argss[0]);
    StepsKeepValid(s, argss[0], 0);
    CallSupersedes(s, argss[0]);
    if |argss| > 1 {
      BurstCollapses(s1, argss[1..]);
      assert argss[1..][|argss[1..]| - 1] == argss[|argss| - 1];
    } else {
      assert CallAll(s1, argss[1..]) == s1;
    }
    var t := CallAll(s, argss);
    var u := FireStep(t, t.timeoutId.value);
    assert u.pending.Keys == t.pending.Keys - {t.timeoutId.value};
  }

  /** After `cancel` no timer is pending, so the wrapped function cannot run before the next call. */
  lemma CancelLeavesNothingPending<A>(s: DebounceState<A>)
    requires Valid(s)
    ensures CancelStep(s).timeoutId.None? && CancelStep(s).pending.Keys == {}
    ensures CancelStep(s).invocations == s.invocations
  {
  }

  /** `cancel` does nothing on an empty slot, so cancelling twice is cancelling once. */
  lemma CancelIdempotent<A>(s: DebounceState<A>)
    ensures s.timeoutId.None? ==> CancelStep(s) == s
    ensures CancelStep(CancelStep(s)) == CancelStep(s)
  {
  }

  /**
   * The callback empties the slot before the wrapped function runs, so a call the
   * function makes on the debouncer is tracked by the slot and can be cancelled.
   */
  lemma CallFromCallbackIsTracked<A>(s: DebounceState<A>, id: nat, args: A)
    requires Valid(s) && id in s.pending
    ensures var t := CallStep(FireStep(s, id), args);
      Valid(t) && t.timeoutId == Some(s.nextId) && t.pending == map[s.nextId := args]
      && CancelStep(t).pending.Keys == {}
  {
    StepsKeepValid(s, args, id);
    StepsKeepValid(FireStep(s, id), args, id);
    var t := CallStep(FireStep(s, id), args);
    assert t.pending.Keys == {s.nextId};
  }

  // ---------------------------------------------------------------------------
  // The debouncer as an object.

  /** The closure state of one `debounce(fn, ms)` result, together with its timers and fn's calls. */
  class Debouncer<A> {
    var timeoutId: Option<nat>
    var pending: map<nat, A>
    var nextId: nat
    var invocations: seq<A>

    function State(): DebounceState<A>
      reads this
    {
      DebounceState(timeoutId, pending, nextId, invocations)
    }

    constructor ()
      ensures State() == Init()
    {
      timeoutId := None;
      pending := map[];
      nextId := 0;
      invocations := [];
    }

    /** The debounced function. */
    method Call(args: A)
      modifies this
      ensures State() == CallStep(old(State()), args)
    {
      if timeoutId != None {
        pending := pending - {timeoutId.value};
      }
      var id := nextId;
      nextId := nextId + 1;
      pending := pending[id := args];
      timeoutId := Some(id);
    }

    method Cancel()
      modifies this
      ensures State() == CancelStep(old(State()))
    {
      if timeoutId != None {
        pending := pending - {timeoutId.value};
        timeoutId := None;
      }
    }

    /** The environment fires pending timer `id`, which runs its callback. */
    method Fire(id: nat)
      requires id in pending
      modifies this
      ensures State() == FireStep(old(State()), id)
    {
      var args := pending[id];
      pending := pending - {id};
      timeoutId := None;
      invocations := invocations + [args];
    }
  }
}
