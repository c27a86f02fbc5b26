/**
 The limiter on warnings an unauthenticated caller can provoke: `logLimiter.allow`
 (internal/supervisor/supervisor.go). Times are instants counted from the zero time, which is 0.
 */
module LogLimiter {

  /** last is 0 until something has been let through. */
  datatype State = State(last: int, suppressed: nat)

  const FRESH := State(0, 0)

  /** The new state and, if the event is let through, how many were held back before it. */
  datatype Answer = Allowed(reported: nat) | Held

  function Allow(every: int, s: State, now: int): (State, Answer) {
    if s.last != 0 && now - s.last < every then (s.(suppressed := s.suppressed + 1), Held)
    else (State(now, 0), Allowed(s.suppressed))
  }

  class Limiter {
    const every: int
    var last: int
    var suppressed: nat

    constructor (every: int)
      ensures this.every == every && State(last, suppressed) == FRESH
    {
      this.every := every;
      last, suppressed := 0, 0;
    }

    method AllowNow(now: int) returns (n: nat, ok: bool)
      modifies this
      ensures (State(last, suppressed), if ok then Allowed(n) else Held) ==
        Allow(every, old(State(last, suppressed)), now)
      ensures !ok ==> n == 0
    {
      if last != 0 && now - last < every {
        suppressed := suppressed + 1;
        return 0, false;
      }
      n := suppressed;
      last, suppressed := now, 0;
      return n, true;
    }
  }

  // ---------- whole histories ----------

  /** The limiter after a sequence of calls, with what it let through and reported on the way. */
  datatype History = History(state: State, allowed: seq<int>, reported: nat)

  function After(every: int, calls: seq<int>): History {
    if calls == [] then History(FRESH, [], 0)
    else
      var h := After(every, calls[..|calls| - 1]);
      var now := calls[|calls| - 1];
      var (s, a) := Allow(every, h.state, now);
      match a
      case Held => h.(state := s)
      case Allowed(n) => History(s, h.allowed + [now], h.reported + n)
  }

  predicate NonZero(calls: seq<int>) { forall i | 0 <= i < |calls| :: calls[i] != 0 }

  /** No call is lost: each was let through, or reported as held back, or is still to be reported. */
  lemma {:induction false} Conservation(every: int, calls: seq<int>)
    ensures var h := After(every, calls); |h.allowed| + h.reported + h.state.suppressed == |calls|
  {
    if calls != [] { Conservation(every, calls[..|calls| - 1]); }
  }

  /** Let-through events are at least `every` apart, whatever order the clock is read in. */
  lemma {:induction false} Spaced(every: int, calls: seq<int>)
    requires NonZero(calls)
    ensures var h := After(every, calls);
      && (h.allowed == [] ==> h.state.last == 0)
      && (h.allowed != [] ==> h.state.last == h.allowed[|h.allowed| - 1] != 0)
      && forall k | 0 < k < |h.allowed| :: h.allowed[k] - h.allowed[k - 1] >= every
  {
    if calls != [] { Spaced(every, calls[..|calls| - 1]); }
  }

  lemma {:induction false} SpacedApart(every: int, times: seq<int>, i: nat, j: nat)
    requires forall k | 0 < k < |times| :: times[k] - times[k - 1] >= every
    requires i <= j < |times|
    ensures times[j] >= times[i] + (j - i) * every
  {
    if i < j {
      SpacedApart(every, times, i, j - 1);
      assert (j - i) * every == (j - 1 - i) * every + every;
    }
  }

  /** The k-th let-through event is no earlier than the first plus k intervals. */
  lemma KthIsLate(every: int, calls: seq<int>, k: nat)
    requires NonZero(calls) && k < |After(every, calls).allowed|
    ensures After(every, calls).allowed[k] >= After(every, calls).allowed[0] + k * every
  {
    Spaced(every, calls);
    SpacedApart(every, After(every, calls).allowed, 0, k);
  }

  /** n warnings within a stretch of time of length w satisfy (n - 1) * every <= w. */
  lemma WindowBound(every: int, calls: seq<int>, i: nat, j: nat, from: int, w: nat)
    requires NonZero(calls) && i <= j < |After(every, calls).allowed|
    requires from <= After(every, calls).allowed[i] && After(every, calls).allowed[j] <= from + w
    ensures (j - i) * every <= w
  {
    Spaced(every, calls);
    SpacedApart(every, After(every, calls).allowed, i, j);
  }

  /** The first event of all is let through, and a later one exactly when no event has been let
      through within the interval before it. */
  lemma LetThroughIff(every: int, calls: seq<int>, now: int)
    requires NonZero(calls)
    ensures var before, after := After(every, calls).allowed, After(every, calls + [now]).allowed;
      after == if before == [] || now - before[|before| - 1] >= every then before + [now] else before
  {
    Spaced(every, calls);
    assert (calls + [now])[..|calls|] == calls;
  }

  /** How many calls there were up to the last one let through, that one included. */
  function UpToLast(every: int, calls: seq<int>): nat {
    if calls == [] then 0
    else if |After(every, calls).allowed| > |After(every, calls[..|calls| - 1]).allowed| then |calls|
    else UpToLast(every, calls[..|calls| - 1])
  }

  /** What is pending is exactly the calls held back since the last one let through, nothing right after
      it; and all earlier ones that were held back have been reported. */
  lemma {:induction false} PendingIsSinceLast(every: int, calls: seq<int>)
    ensures var h := After(every, calls);
      && UpToLast(every, calls) <= |calls|
      && h.state.suppressed == |calls| - UpToLast(every, calls)
      && h.reported == UpToLast(every, calls) - |h.allowed|
  {
    if calls != [] { PendingIsSinceLast(every, calls[..|calls| - 1]); }
  }
}
