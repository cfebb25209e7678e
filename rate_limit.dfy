/** The `throttle` utility of script.js:495-506, which rate-limits the two
    scroll handlers: a call runs the wrapped handler only while the closure
    flag `inThrottle` is clear; when the handler returns, the flag is set and
    a timer is started that clears it. A handler that throws skips both, so
    the flag stays clear. The timer is modelled by an explicit expiry event. */
module RateLimit {

  /** What reaches a throttled handler: a call, carrying whether the wrapped
      handler would return normally if run, or the expiry of the timer that a
      completed run started. */
  datatype Event = Call(completes: bool) | TimerExpired

  /** One event applied to the flag: whether the wrapped handler runs, and
      the flag afterwards. */
  function Step(inThrottle: bool, e: Event): (bool, bool) {
    match e
    case Call(completes) => if inThrottle then (false, true) else (true, completes)
    case TimerExpired => (false, false)
  }

  /** How many times the wrapped handler runs over a sequence of events. */
  function Runs(inThrottle: bool, events: seq<Event>): nat
    decreases |events|
  {
    if events == [] then 0
    else
      var (ran, next) := Step(inThrottle, events[0]);
      (if ran then 1 else 0) + Runs(next, events[1..])
  }

  function Expiries(events: seq<Event>): nat {
    if events == [] then 0
    else (if events[0] == TimerExpired then 1 else 0) + Expiries(events[1..])
  }

  /** Every call in `events` is to a handler that returns normally. */
  predicate AllComplete(events: seq<Event>) {
    forall k :: 0 <= k < |events| && events[k].Call? ==> events[k].completes
  }

  /** Between two expiries a handler that returns runs at most once, and not
      at all if the window started throttled. */
  lemma {:induction false} AtMostOncePerWindow(inThrottle: bool, events: seq<Event>)
    requires TimerExpired !in events && AllComplete(events)
    ensures Runs(inThrottle, events) <= if inThrottle then 0 else 1
    decreases |events|
  {
    if events != [] {
      assert events[0] == Call(true);
      assert TimerExpired !in events[1..];
      assert AllComplete(events[1..]) by {
        forall k | 0 <= k < |events[1..]| && events[1..][k].Call? ensures events[1..][k].completes {
          assert events[1..][k] == events[k + 1];
        }
      }
      AtMostOncePerWindow(true, events[1..]);
    }
  }

  /** Over any sequence of events in which the handler returns, it runs at
      most once more than the number of timer expiries. */
  lemma {:induction false} RunsBoundedByExpiries(inThrottle: bool, events: seq<Event>)
    requires AllComplete(events)
    ensures Runs(inThrottle, events) <= (if inThrottle then 0 else 1) + Expiries(events)
    decreases |events|
  {
    if events != [] {
      var (_, next) := Step(inThrottle, events[0]);
      assert AllComplete(events[1..]) by {
        forall k | 0 <= k < |events[1..]| && events[1..][k].Call? ensures events[1..][k].completes {
          assert events[1..][k] == events[k + 1];
        }
      }
      RunsBoundedByExpiries(next, events[1..]);
    }
  }

  /** `n` calls of a handler that throws. */
  function ThrowingCalls(n: nat): (events: seq<Event>)
    ensures |events| == n && Expiries(events) == 0
  {
    if n == 0 then [] else [Call(false)] + ThrowingCalls(n - 1)
  }

  /** A handler that throws is never throttled: every one of `n` calls runs
      it, with no timer ever started, so the bound above needs handlers that
      return. */
  lemma {:induction false} ThrowingHandlerNeverThrottled(n: nat)
    ensures Runs(false, ThrowingCalls(n)) == n
  {
    if n > 0 {
      ThrowingHandlerNeverThrottled(n - 1);
      assert ThrowingCalls(n)[1..] == ThrowingCalls(n - 1);
    }
  }

  /** The state `throttle(func, limit)` closes over. */
  class Throttle {
    var inThrottle: bool

    /** The flag starts undefined, which counts as clear. */
    constructor ()
      ensures !inThrottle
    {
      inThrottle := false;
    }

    /** A call of the throttled function, `completes` saying whether `func`
        returns normally: it runs `func` exactly when not throttled, and
        sets the flag only when that run returns. */
    method Invoke(completes: bool) returns (ran: bool)
      modifies this
      ensures ran == !old(inThrottle)
      ensures inThrottle == (old(inThrottle) || completes)
      ensures (ran, inThrottle) == Step(old(inThrottle), Call(completes))
    {
      ran := false;
      if !inThrottle {
        ran := true;
        if completes {
          inThrottle := true;
        }
      }
    }

    /** The `setTimeout(..., limit)` callback: clear the flag. */
    method Expire()
      modifies this
      ensures !inThrottle
      ensures inThrottle == Step(old(inThrottle), TimerExpired).1
    {
      inThrottle := false;
    }
  }
}
