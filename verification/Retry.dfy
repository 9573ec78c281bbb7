/** `db_query_timed`: the retry loop around every statement. */
module Retry {
  import opened Database

  /** One attempt: the clock when it was allowed to start and when its failure was noted. */
  datatype Attempt = Attempt(start: int, failed: int)

  /** Each retry waits out the time since the failure before it, which came no earlier than its
      attempt. */
  ghost predicate Spaced(log: seq<Attempt>, wait: int) {
    && (forall k {:trigger log[k].start} :: 0 < k < |log| ==> log[k].start >= log[k - 1].failed + Max(0, wait))
    && (forall k :: 0 <= k < |log| ==> log[k].failed >= log[k].start)
  }

  /** The clock never runs back, and `reach` says when it passes a point. */
  ghost predicate Clock(time: nat -> int, reach: int -> nat) {
    && time(0) >= 0
    && (forall i: nat, j: nat {:trigger time(i), time(j)} :: i <= j ==> time(i) <= time(j))
    && (forall t: int {:trigger reach(t)} :: time(reach(t)) >= t)
  }

  lemma NextReading(time: nat -> int, reach: int -> nat, r: nat, t: int)
    requires Clock(time, reach)
    ensures 0 <= time(r) <= time(r + 1) && (0 < r ==> time(r - 1) <= time(r))
    ensures time(r) < t ==> r < reach(t)
  {
  }

  /** The times in the log are readings of the clock, taken in this order. */
  ghost predicate Timed(log: seq<Attempt>, at: seq<(nat, nat)>, time: nat -> int) {
    && |at| == |log|
    && (forall k {:trigger log[k]} :: 0 <= k < |log| ==>
          log[k] == Attempt(time(at[k].0), time(at[k].1)) && at[k].0 <= at[k].1)
    && (forall k {:trigger at[k].0} :: 0 < k < |at| ==> at[k - 1].1 < at[k].0)
  }

  /** All attempts so far have failed, before reading `r` of the clock; the next one may start at
      `nextTry`. */
  ghost predicate Tried(log: seq<Attempt>, at: seq<(nat, nat)>, answers: nat -> bool, time: nat -> int, wait: int, r: nat, nextTry: int) {
    && (forall k :: 0 <= k < |log| ==> !answers(k))
    && Spaced(log, wait) && Timed(log, at, time)
    && (if log == [] then nextTry == 0 else at[|at| - 1].1 < r && nextTry == log[|log| - 1].failed + wait)
  }

  lemma TriedNone(answers: nat -> bool, time: nat -> int, wait: int)
    ensures Tried([], [], answers, time, wait, 0, 0)
  {
  }

  lemma TriedSkip(log: seq<Attempt>, at: seq<(nat, nat)>, answers: nat -> bool, time: nat -> int, wait: int, r: nat, nextTry: int)
    requires Tried(log, at, answers, time, wait, r, nextTry)
    ensures Tried(log, at, answers, time, wait, r + 1, nextTry)
  {
  }

  /** The next attempt starts at reading `i` and ends at reading `j`. */
  lemma TriedNext(log: seq<Attempt>, at: seq<(nat, nat)>, answers: nat -> bool, time: nat -> int, reach: int -> nat,
                  wait: int, r: nat, nextTry: int, i: nat, j: nat)
    requires Tried(log, at, answers, time, wait, r, nextTry) && Clock(time, reach)
    requires r <= i <= j && nextTry <= time(i)
    ensures var more, ats := log + [Attempt(time(i), time(j))], at + [(i, j)];
      && |ats| == |more| && Spaced(more, wait) && Timed(more, ats, time) && Apart(ats, time, wait)
      && (forall k :: 0 <= k < |more| - 1 ==> !answers(k))
      && (!answers(|log|) ==> Tried(more, ats, answers, time, wait, j + 1, time(j) + wait))
  {
    hide Timed, Spaced, Clock, Apart;
    TriedEnd(log, at, answers, time, wait, r, nextTry);
    ClockOrder(time, reach, i, j);
    if log != [] { ClockOrder(time, reach, at[|at| - 1].1, i); }
    SpacedPush(log, wait, Attempt(time(i), time(j)));
    TimedPush(log, at, time, i, j);
    ReadingsApart(log + [Attempt(time(i), time(j))], at + [(i, j)], time, wait);
  }

  ghost predicate Apart(at: seq<(nat, nat)>, time: nat -> int, wait: int) {
    forall k {:trigger at[k].0} :: 0 < k < |at| ==> at[k - 1].1 < at[k].0 && time(at[k].0) >= time(at[k - 1].1) + wait
  }

  lemma ReadingsApart(log: seq<Attempt>, at: seq<(nat, nat)>, time: nat -> int, wait: int)
    requires Timed(log, at, time) && Spaced(log, wait)
    ensures Apart(at, time, wait)
  {
    forall k {:trigger at[k].0} | 0 < k < |at|
      ensures at[k - 1].1 < at[k].0 && time(at[k].0) >= time(at[k - 1].1) + wait
    {
      assert log[k - 1] == Attempt(time(at[k - 1].0), time(at[k - 1].1));
      assert log[k] == Attempt(time(at[k].0), time(at[k].1)) && log[k].start >= log[k - 1].failed + Max(0, wait);
    }
  }

  lemma TriedEnd(log: seq<Attempt>, at: seq<(nat, nat)>, answers: nat -> bool, time: nat -> int, wait: int, r: nat, nextTry: int)
    requires Tried(log, at, answers, time, wait, r, nextTry)
    ensures |at| == |log| && (log != [] ==> log[|log| - 1].failed == time(at[|at| - 1].1))
  {
  }

  lemma ClockOrder(time: nat -> int, reach: int -> nat, i: nat, j: nat)
    requires Clock(time, reach) && i <= j
    ensures time(i) <= time(j)
  {
  }

  lemma TimedPush(log: seq<Attempt>, at: seq<(nat, nat)>, time: nat -> int, i: nat, j: nat)
    requires Timed(log, at, time) && i <= j && (at != [] ==> at[|at| - 1].1 < i)
    ensures Timed(log + [Attempt(time(i), time(j))], at + [(i, j)], time)
  {
    var more, ats := log + [Attempt(time(i), time(j))], at + [(i, j)];
    forall k | 0 <= k < |more|
      ensures more[k] == Attempt(time(ats[k].0), time(ats[k].1)) && ats[k].0 <= ats[k].1
    {
      if k < |log| { assert more[k] == log[k] && ats[k] == at[k]; }
    }
    forall k | 0 < k < |ats|
      ensures ats[k - 1].1 < ats[k].0
    {
      assert ats[k - 1] == at[k - 1];
      if k < |at| { assert ats[k] == at[k] && at[k - 1].1 < at[k].0; }
    }
  }

  lemma SpacedPush(log: seq<Attempt>, wait: int, a: Attempt)
    requires Spaced(log, wait) && a.failed >= a.start
    requires log != [] ==> a.start >= log[|log| - 1].failed + Max(0, wait)
    ensures Spaced(log + [a], wait)
  {
  }

  function Max(a: int, b: int): int { if a >= b then a else b }

  /** The connection's retry settings and its error text, kept as the number of the attempt it
      describes. */
  class Client {
    const retryWait: int
    const retryCount: int
    var error: Option<nat>

    constructor (retryWait: int, retryCount: int)
      ensures this.retryWait == retryWait && this.retryCount == retryCount
    {
      this.retryWait, this.retryCount := retryWait, retryCount;
    }

    /** How many failures end the loop; `None` when it retries for ever. Below -1, which `main`
        refuses, a wait is no wait and a count allows a single attempt. */
    function Limit(): Option<nat> {
      if retryWait == -1 then Some(1)
      else if retryCount == -1 then None
      else Some(Max(1, retryCount))
    }

    /** `answers(k)` is the outcome of attempt `k`, `time(r)` the `r`-th reading of the clock.
        An unlimited loop is only left if some attempt succeeds. */
    method QueryTimed(answers: nat -> bool, time: nat -> int, ghost reach: int -> nat, ghost good: nat)
      returns (ok: bool, log: seq<Attempt>, ghost at: seq<(nat, nat)>)
      requires Clock(time, reach)
      requires Limit() == None ==> answers(good)
      modifies this
      // The last attempt decides, and only it can have succeeded.
      ensures log != [] && ok == answers(|log| - 1)
      ensures forall k :: 0 <= k < |log| - 1 ==> !answers(k)
      // A failure is final exactly when the limit is reached.
      ensures Limit().Some? ==> |log| <= Limit().value
      ensures !ok ==> Limit() == Some(|log|)
      ensures retryWait == -1 ==> |log| == 1
      ensures retryWait != -1 && retryCount != -1 ==>
        var limit := if retryCount > 1 then retryCount else 1;
        |log| <= limit && (!ok ==> |log| == limit)
      ensures retryWait != -1 && retryCount == -1 ==> ok
      // Each attempt is timed by the clock and waits out the time since the failure before it.
      ensures Timed(log, at, time) && Spaced(log, retryWait)
      ensures |at| == |log| && Apart(at, time, retryWait)
      // The error is cleared exactly by a success, and otherwise that of the last attempt.
      ensures error == if ok then None else Some(|log| - 1)
    {
      hide Spaced, Clock, Timed, Tried, Apart;
      var nextTry, count, r := 0, 0, 0;
      log, at := [], [];
      TriedNone(answers, time, retryWait);
      while true
        invariant 0 <= r && |log| < (match Limit() case Some(n) => n case None => good + 1)
        invariant retryCount != -1 && retryWait != -1 ==> count == |log|
        invariant Tried(log, at, answers, time, retryWait, r, nextTry)
        decreases (match Limit() case Some(n) => n case None => good + 1) - |log|, Max(0, reach(nextTry) - r)
      {
        NextReading(time, reach, r, nextTry);
        TriedSkip(log, at, answers, time, retryWait, r, nextTry);
        var now := time(r);
        r := r + 1;
        if nextTry > now {
          continue;
        }
        var k := |log|;
        TriedNext(log, at, answers, time, reach, retryWait, r - 1, nextTry, r - 1, r - 1);
        TriedNext(log, at, answers, time, reach, retryWait, r - 1, nextTry, r - 1, r);
        nextTry := 0;
        if answers(k) {
          error := None;
          return true, log + [Attempt(now, now)], at + [(r - 1, r - 1)];
        }
        if retryWait == -1 {
          error := Some(k);
          return false, log + [Attempt(now, now)], at + [(r - 1, r - 1)];
        }
        if retryCount != -1 {
          count := count + 1;
          if count >= retryCount {
            error := Some(k);
            return false, log + [Attempt(now, now)], at + [(r - 1, r - 1)];
          }
        }
        var failed := time(r);
        r := r + 1;
        nextTry := failed + retryWait;
        log, at := log + [Attempt(now, failed)], at + [(r - 2, r - 1)];
      }
    }
  }
}
