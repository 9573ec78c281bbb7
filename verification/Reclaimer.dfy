/** The reclaimer: a thread that runs OPTIMIZE TABLE when notified, interleaved with the threads
    that notify it. */
module Reclaimer {
  import opened Database

  datatype Level = Off | Optimistic | Aggressive

  datatype Action = General | Delete

  /** Seconds to wait after a failed query, and seconds of quiet the optimistic mode waits for. */
  const RETRY_TIME := 30
  const WAIT_TIME := 1800

  /** The shared part of the global state: a `last_action` of 0 and a false `run` mean that
      nothing is pending. */
  datatype Shared = Shared(lastAction: nat, run: bool)

  predicate ShouldRun(level: Level, s: Shared, now: nat) {
    match level
    case Off => false
    case Optimistic => s.lastAction > 0 && now - s.lastAction >= WAIT_TIME
    case Aggressive => s.run
  }

  function AfterReset(level: Level, s: Shared): Shared {
    match level
    case Off => s
    case Optimistic => s.(lastAction := 0)
    case Aggressive => s.(run := false)
  }

  function AfterNotify(level: Level, s: Shared, action: Action, now: nat): Shared {
    match level
    case Off => s
    case Optimistic => s.(lastAction := now)
    case Aggressive => if action == Delete then s.(run := true) else s
  }

  // ------------------------------------------------------------ the interleaving

  /** What can happen next, and when: another thread notifies or stops the reclaimer; the thread
      makes its check, passes or fails the retry gate, gets the query's outcome, resets. */
  datatype Event =
    | Notify(at: nat, action: Action)
    | Stop(at: nat)
    | Check(at: nat)
    | Gate(at: nat)
    | Query(at: nat, ok: bool)
    | Reset(at: nat)

  /** Where the thread is: before the check, at the gate, in the query, before the reset. */
  datatype Place = Checking | Gating | Querying | Resetting | Stopped

  datatype State = State(shared: Shared, place: Place, nextTry: nat, running: bool, clock: nat)

  const INITIAL := State(Shared(0, false), Checking, 0, true, 1)

  /** One step; `None` when the event is not the thread's next one or time would run backwards. */
  function Step(level: Level, s: State, e: Event): Option<State> {
    if e.at < s.clock then None
    else
      var t := s.(clock := e.at);
      match e
      case Notify(at, action) => Some(t.(shared := AfterNotify(level, s.shared, action, at)))
      case Stop(_) => Some(t.(running := false))
      case Check(at) =>
        if s.place != Checking then None
        else if !s.running then Some(t.(place := Stopped))
        else if ShouldRun(level, s.shared, at) then Some(t.(place := Gating))
        else Some(t)
      case Gate(at) =>
        if s.place != Gating then None
        else if s.nextTry > 0 && s.nextTry > at then Some(t.(place := Checking))
        else Some(t.(place := Querying, nextTry := 0))
      case Query(at, ok) =>
        if s.place != Querying then None
        else if ok then Some(t.(place := Resetting))
        else Some(t.(place := Checking, nextTry := at + RETRY_TIME))
      case Reset(_) =>
        if s.place != Resetting then None
        else Some(t.(place := Checking, shared := AfterReset(level, s.shared)))
  }

  /** The state after a history of events; `None` if the history is impossible. */
  function After(level: Level, h: seq<Event>): Option<State> {
    if h == [] then Some(INITIAL)
    else
      match After(level, h[..|h| - 1])
      case None => None
      case Some(s) => Step(level, s, h[|h| - 1])
  }

  // ------------------------------------------------------------ pending requests

  /** A notification the level takes notice of. */
  predicate Requests(level: Level, e: Event) {
    e.Notify? && (level == Optimistic || (level == Aggressive && e.action == Delete))
  }

  /** The position of the latest request that no reset has followed. */
  function Pending(level: Level, h: seq<Event>): Option<nat> {
    if h == [] then None
    else
      var n := |h| - 1;
      if h[n].Reset? then None
      else if Requests(level, h[n]) then Some(n)
      else Pending(level, h[..n])
  }

  lemma {:induction false} PendingMeaning(level: Level, h: seq<Event>)
    ensures match Pending(level, h)
      case Some(k) =>
        && k < |h| && Requests(level, h[k])
        && (forall i :: k < i < |h| ==> !h[i].Reset? && !Requests(level, h[i]))
      case None => forall i :: 0 <= i < |h| && Requests(level, h[i]) ==> exists j :: i < j < |h| && h[j].Reset?
    decreases |h|
  {
    if h != [] {
      var n := |h| - 1;
      var init := h[..n];
      PendingMeaning(level, init);
      if h[n].Reset? {
        assert forall i :: 0 <= i < |h| && Requests(level, h[i]) ==> i < n;
      } else if !Requests(level, h[n]) && Pending(level, init) == None {
        forall i | 0 <= i < |h| && Requests(level, h[i])
          ensures exists j :: i < j < |h| && h[j].Reset?
        {
          assert init[i] == h[i];
          var j :| i < j < |init| && init[j].Reset?;
          assert h[j].Reset?;
        }
      }
    }
  }

  lemma AfterNothing(level: Level)
    ensures After(level, []) == Some(INITIAL)
  {
  }

  lemma AfterInit(level: Level, h: seq<Event>)
    requires h != [] && After(level, h).Some?
    ensures After(level, h[..|h| - 1]).Some?
    ensures After(level, h) == Step(level, After(level, h[..|h| - 1]).value, h[|h| - 1])
  {
  }

  lemma {:induction false} AfterPrefix(level: Level, h: seq<Event>, k: nat)
    requires k <= |h| && After(level, h).Some?
    ensures After(level, h[..k]).Some?
    decreases |h|
  {
    if k < |h| {
      AfterInit(level, h);
      assert h[..|h| - 1][..k] == h[..k];
      AfterPrefix(level, h[..|h| - 1], k);
    } else {
      assert h[..k] == h;
    }
  }

  /** The shared state says exactly what is pending: only a successful run's reset clears a
      request, a failed run does not. */
  lemma {:induction false} SharedIsPending(level: Level, h: seq<Event>)
    requires After(level, h).Some?
    ensures var s := After(level, h).value;
      && s.clock >= 1
      && (level == Optimistic ==>
            s.shared.lastAction == match Pending(level, h) case None => 0 case Some(k) => if k < |h| then h[k].at else 0)
      && (level == Optimistic && Pending(level, h).Some? ==> s.shared.lastAction > 0)
      && (level == Aggressive ==> s.shared.run == Pending(level, h).Some?)
    decreases |h|
  {
    if h != [] {
      AfterInit(level, h);
      SharedIsPending(level, h[..|h| - 1]);
      PendingMeaning(level, h[..|h| - 1]);
    }
  }

  // ------------------------------------------------------------ what led to a query

  /** Check `c` is the latest event of the thread's current attempt, and request `k` is what it saw:
      no reset lies between them, and in optimistic mode everything had been quiet long enough. */
  ghost predicate SawRequest(level: Level, h: seq<Event>, c: nat, k: nat) {
    && k < c < |h| && h[c].Check? && Requests(level, h[k])
    && (forall i :: k < i < c ==> !h[i].Reset? && !Requests(level, h[i]))
    && (level == Optimistic ==> h[c].at - h[k].at >= WAIT_TIME)
  }

  /** Since check `c` the thread has neither finished a query nor reset anything. */
  ghost predicate QuietSince(h: seq<Event>, c: nat) {
    forall i :: c < i < |h| ==> !h[i].Reset? && !h[i].Query?
  }

  ghost predicate Attempting(level: Level, h: seq<Event>) {
    exists c: nat, k: nat :: SawRequest(level, h, c, k) && QuietSince(h, c)
  }

  lemma SawMore(level: Level, h: seq<Event>, e: Event, c: nat, k: nat)
    requires SawRequest(level, h, c, k) && QuietSince(h, c) && !e.Reset? && !e.Query?
    ensures SawRequest(level, h + [e], c, k) && QuietSince(h + [e], c)
  {
  }

  lemma {:induction false} AttemptInvariant(level: Level, h: seq<Event>)
    requires After(level, h).Some?
    ensures After(level, h).value.place in {Gating, Querying} ==> Attempting(level, h)
    decreases |h|
  {
    if h != [] {
      AfterInit(level, h);
      var n := |h| - 1;
      var init, e := h[..n], h[n];
      assert h == init + [e];
      AttemptInvariant(level, init);
      var was, now := After(level, init).value, After(level, h).value;
      if now.place in {Gating, Querying} {
        if e.Check? {
          SharedIsPending(level, init);
          PendingMeaning(level, init);
          var k := Pending(level, init).value;
          assert SawRequest(level, h, n, k);
          assert QuietSince(h, n);
        } else {
          var c: nat, k: nat :| SawRequest(level, init, c, k) && QuietSince(init, c);
          SawMore(level, init, e, c, k);
        }
      }
    }
  }

  lemma {:induction false} PrefixState(level: Level, h: seq<Event>, i: nat)
    requires i < |h| && After(level, h).Some?
    ensures After(level, h[..i]).Some? && Step(level, After(level, h[..i]).value, h[i]).Some?
    ensures After(level, h[..i + 1]) == Step(level, After(level, h[..i]).value, h[i])
  {
    AfterPrefix(level, h, i + 1);
    assert h[..i + 1][..i] == h[..i];
    AfterInit(level, h[..i + 1]);
  }

  /** Every OPTIMIZE was preceded by a check that saw a pending request. */
  lemma QueryFollowsRequest(level: Level, h: seq<Event>, i: nat)
    requires i < |h| && After(level, h).Some? && h[i].Query?
    ensures exists c: nat, k: nat :: SawRequest(level, h, c, k) && c < i && forall j :: c < j < i ==> !h[j].Reset? && !h[j].Query?
  {
    PrefixState(level, h, i);
    AttemptInvariant(level, h[..i]);
    var c: nat, k: nat :| SawRequest(level, h[..i], c, k) && QuietSince(h[..i], c);
    assert SawRequest(level, h, c, k) by {
      assert h[..i][c] == h[c] && h[..i][k] == h[k];
      forall j | k < j < c
        ensures !h[j].Reset? && !Requests(level, h[j])
      {
        assert h[..i][j] == h[j];
      }
    }
    forall j | c < j < i
      ensures !h[j].Reset? && !h[j].Query?
    {
      assert h[..i][j] == h[j];
    }
  }

  // ------------------------------------------------------------ two successful runs

  /** A successful query is followed by its reset before the thread goes on. */
  lemma {:induction false} ResetFollows(level: Level, h: seq<Event>, i: nat)
    requires i < |h| && After(level, h).Some? && h[i].Query? && h[i].ok
    ensures After(level, h).value.place == Resetting || exists r :: i < r < |h| && h[r].Reset?
    decreases |h|
  {
    AfterInit(level, h);
    var n := |h| - 1;
    if i < n {
      assert h[..n][i] == h[i];
      ResetFollows(level, h[..n], i);
      if After(level, h[..n]).value.place == Resetting {
        assert h[n].Reset? ==> exists r :: i < r < |h| && h[r].Reset?;
      } else {
        var r :| i < r < n && h[..n][r].Reset?;
        assert h[r].Reset?;
      }
    }
  }

  /** Two successful runs are separated by the first one's reset and then a new request. */
  lemma RunsSeparated(level: Level, h: seq<Event>, i: nat, j: nat)
    requires i < j < |h| && After(level, h).Some?
    requires h[i].Query? && h[i].ok && h[j].Query? && h[j].ok
    ensures exists r, k :: i < r < k < j && h[r].Reset? && Requests(level, h[k])
  {
    hide After;
    QueryFollowsRequest(level, h, j);
    var c: nat, k: nat :| SawRequest(level, h, c, k) && c < j && forall n :: c < n < j ==> !h[n].Reset? && !h[n].Query?;
    assert i < c;
    PrefixState(level, h, c);
    assert h[..c][i] == h[i];
    ResetFollows(level, h[..c], i);
    var r :| i < r < c && h[..c][r].Reset?;
    assert h[r].Reset? && r < k;
  }

  // ------------------------------------------------------------ retrying after a failure

  /** Since the failed query `i` no other query has ended; either the retry time still stands, or
      the gate was passed no earlier than it. */
  ghost predicate Waiting(h: seq<Event>, s: State, i: nat)
    requires i < |h|
  {
    || (s.place != Querying && s.place != Resetting && s.nextTry == h[i].at + RETRY_TIME)
    || (s.place == Querying && exists g :: i < g < |h| && h[g].Gate? && h[g].at >= h[i].at + RETRY_TIME)
  }

  lemma {:induction false} WaitInvariant(level: Level, h: seq<Event>, i: nat)
    requires i < |h| && After(level, h).Some? && h[i].Query? && !h[i].ok
    requires forall j :: i < j < |h| ==> !h[j].Query?
    ensures Waiting(h, After(level, h).value, i)
    decreases |h|
  {
    AfterInit(level, h);
    var n := |h| - 1;
    if i < n {
      var init := h[..n];
      assert init[i] == h[i];
      assert forall j :: i < j < n ==> init[j] == h[j];
      WaitInvariant(level, init, i);
      var was := After(level, init).value;
      if was.place == Querying {
        var g :| i < g < n && init[g].Gate? && init[g].at >= init[i].at + RETRY_TIME;
        assert h[g] == init[g];
      } else if h[n].Gate? && After(level, h).value.place == Querying {
        assert h[n].at >= h[i].at + RETRY_TIME;
      }
    }
  }

  /** The attempt after a failed one passes the gate at least 30 seconds after the failure. */
  lemma RetryWaits(level: Level, h: seq<Event>, i: nat, j: nat)
    requires i < j < |h| && After(level, h).Some?
    requires h[i].Query? && !h[i].ok && h[j].Query? && forall m :: i < m < j ==> !h[m].Query?
    ensures exists g :: i < g < j && h[g].Gate? && h[g].at >= h[i].at + RETRY_TIME
    ensures h[j].at >= h[i].at + RETRY_TIME
  {
    PrefixState(level, h, j);
    var p := h[..j];
    assert p[i] == h[i];
    assert forall m :: i < m < j ==> p[m] == h[m];
    WaitInvariant(level, p, i);
    var g :| i < g < |p| && p[g].Gate? && p[g].at >= p[i].at + RETRY_TIME;
    assert h[g] == p[g];
    TimesGrow(level, h, g, j);
  }

  lemma {:induction false} TimesGrow(level: Level, h: seq<Event>, i: nat, j: nat)
    requires i <= j < |h| && After(level, h).Some?
    ensures h[i].at <= h[j].at
    decreases j
  {
    if i < j {
      TimesGrow(level, h, i, j - 1);
      PrefixState(level, h, j);
      PrefixState(level, h, j - 1);
    }
  }

  /** A failed run leaves the request pending: at the end of the history something is pending if
      it was when the failed query ended and nothing has been reset since. */
  lemma FailureKeepsRequest(level: Level, h: seq<Event>, i: nat)
    requires i < |h| && After(level, h).Some? && h[i].Query? && !h[i].ok
    requires forall j :: i < j < |h| ==> !h[j].Reset?
    ensures Pending(level, h).Some?
  {
    QueryFollowsRequest(level, h, i);
    var c: nat, k: nat :| SawRequest(level, h, c, k) && c < i && forall j :: c < j < i ==> !h[j].Reset? && !h[j].Query?;
    assert Requests(level, h[k]) && !h[c].Reset? && !h[i].Reset?;
    PendingMeaning(level, h);
  }

  // ------------------------------------------------------------ when the thread goes on

  /** In optimistic mode the latest notification is half an hour old, in aggressive mode a deletion
      was notified; and no reset has followed. */
  ghost predicate Due(level: Level, h: seq<Event>, at: nat) {
    match level
    case Off => false
    case Optimistic =>
      exists k :: 0 <= k < |h| && h[k].Notify? && at - h[k].at >= 1800 && forall i :: k < i < |h| ==> !h[i].Notify? && !h[i].Reset?
    case Aggressive =>
      exists k :: 0 <= k < |h| && h[k].Notify? && h[k].action == Delete && forall i :: k < i < |h| ==> !h[i].Reset?
  }

  lemma DueMeaning(level: Level, h: seq<Event>, at: nat)
    requires Pending(level, h).Some? ==> Pending(level, h).value < |h|
    ensures Due(level, h, at) <==>
      level != Off && Pending(level, h).Some? && (level == Optimistic ==> at - h[Pending(level, h).value].at >= WAIT_TIME)
  {
    PendingMeaning(level, h);
    if Due(level, h, at) {
      if level == Optimistic {
        var k :| 0 <= k < |h| && h[k].Notify? && at - h[k].at >= 1800 && forall i :: k < i < |h| ==> !h[i].Notify? && !h[i].Reset?;
        assert Requests(level, h[k]);
      } else {
        var k :| 0 <= k < |h| && h[k].Notify? && h[k].action == Delete && forall i :: k < i < |h| ==> !h[i].Reset?;
        assert Requests(level, h[k]);
      }
    }
  }

  /** The next check goes on to the gate exactly when a notification is due. */
  lemma CheckPasses(level: Level, h: seq<Event>, at: nat)
    requires After(level, h).Some? && After(level, h).value.place == Checking && After(level, h).value.running
    requires at >= After(level, h).value.clock
    ensures After(level, h + [Check(at)]).Some?
    ensures After(level, h + [Check(at)]).value.place == if Due(level, h, at) then Gating else Checking
  {
    AfterPush(level, h, Check(at));
    SharedIsPending(level, h);
    PendingMeaning(level, h);
    DueMeaning(level, h, at);
  }

  /** Outside a query the retry time is that of the latest one, if it failed. */
  lemma {:induction false} RetryTime(level: Level, h: seq<Event>)
    requires After(level, h).Some?
    ensures var s := After(level, h).value;
      && (s.place in {Querying, Resetting} ==> s.nextTry == 0)
      && (s.place == Resetting ==> forall i :: LastQuery(h, i) ==> h[i].ok)
      && (s.nextTry == 0 || exists i :: LastQuery(h, i) && !h[i].ok && s.nextTry == h[i].at + 30)
      && (s.place !in {Querying, Resetting} ==> forall i :: LastQuery(h, i) && !h[i].ok ==> s.nextTry == h[i].at + 30)
    decreases |h|
  {
    if h != [] {
      AfterInit(level, h);
      var n := |h| - 1;
      RetryTime(level, h[..n]);
      if h[n].Query? {
        assert LastQuery(h, n);
        assert forall i :: LastQuery(h, i) ==> i == n;
      } else {
        forall i
          ensures LastQuery(h, i) <==> LastQuery(h[..n], i)
        {
          LastQueryInit(h, i);
        }
      }
    }
  }

  ghost predicate LastQuery(h: seq<Event>, i: int) {
    0 <= i < |h| && h[i].Query? && forall j :: i < j < |h| ==> !h[j].Query?
  }

  lemma LastQueryInit(h: seq<Event>, i: int)
    requires h != [] && !h[|h| - 1].Query?
    ensures LastQuery(h, i) <==> LastQuery(h[..|h| - 1], i)
  {
    if LastQuery(h[..|h| - 1], i) { assert h[i] == h[..|h| - 1][i]; }
    if LastQuery(h, i) { assert h[i] == h[..|h| - 1][i]; }
  }

  /** At the gate the thread goes on to the query unless the latest one failed less than half a
      minute ago; then it returns to its check. */
  lemma GatePasses(level: Level, h: seq<Event>, at: nat)
    requires After(level, h).Some? && After(level, h).value.place == Gating && at >= After(level, h).value.clock
    ensures After(level, h + [Gate(at)]).Some?
    ensures After(level, h + [Gate(at)]).value.place ==
      if exists i :: LastQuery(h, i) && !h[i].ok && at < h[i].at + 30 then Checking else Querying
  {
    AfterPush(level, h, Gate(at));
    RetryTime(level, h);
  }

  /** The thread is never stuck, and each of its events is possible in one place only: a query's
      success leads to its reset, its failure and the reset back to the check. */
  lemma ThreadSteps(level: Level, h: seq<Event>, e: Event)
    requires After(level, h).Some?
    ensures After(level, h + [e]).Some? <==>
      && e.at >= After(level, h).value.clock
      && match After(level, h).value.place
         case Checking => e.Check? || e.Notify? || e.Stop?
         case Gating => e.Gate? || e.Notify? || e.Stop?
         case Querying => e.Query? || e.Notify? || e.Stop?
         case Resetting => e.Reset? || e.Notify? || e.Stop?
         case Stopped => e.Notify? || e.Stop?
    ensures After(level, h + [e]).Some? && e.Query? ==>
      After(level, h + [e]).value.place == if e.ok then Resetting else Checking
    ensures After(level, h + [e]).Some? && e.Reset? ==> After(level, h + [e]).value.place == Checking
    ensures After(level, h + [e]).Some? && e.Check? && !After(level, h).value.running ==>
      After(level, h + [e]).value.place == Stopped
    ensures After(level, h + [e]).Some? && (e.Notify? || e.Stop?) ==>
      After(level, h + [e]).value.place == After(level, h).value.place
  {
    AfterPush(level, h, e);
  }

  // ------------------------------------------------------------ requests during a run

  /** Gate `g` was passed, and since then the thread has not come back to a check. */
  ghost predicate RunSince(h: seq<Event>, g: nat) {
    g < |h| && h[g].Gate? && forall i :: g < i < |h| ==> !h[i].Gate? && !h[i].Check? && !h[i].Reset?
  }

  ghost predicate InRun(h: seq<Event>) {
    exists g: nat :: RunSince(h, g)
  }

  lemma {:induction false} RunInvariant(level: Level, h: seq<Event>)
    requires After(level, h).Some?
    ensures After(level, h).value.place in {Querying, Resetting} ==> InRun(h)
    decreases |h|
  {
    if h != [] {
      AfterInit(level, h);
      var n := |h| - 1;
      RunInvariant(level, h[..n]);
      if After(level, h).value.place in {Querying, Resetting} {
        if h[n].Gate? {
          assert RunSince(h, n);
        } else {
          var g: nat :| RunSince(h[..n], g);
          assert RunSince(h, g);
        }
      }
    }
  }

  /** Of the run that reset `r` ends: it began at a gate, and the reset drops a request made after
      the run began if and only if there was one. That request never gets a run of its own: every
      later OPTIMIZE answers to a request made after the reset. */
  lemma RequestDuringRunIsLost(level: Level, h: seq<Event>, r: nat)
    requires r < |h| && After(level, h).Some? && h[r].Reset?
    ensures exists g: nat :: RunSince(h[..r], g)
    ensures forall g: nat :: RunSince(h[..r], g) ==>
      (Pending(level, h[..r]).Some? && Pending(level, h[..r]).value > g <==>
         exists k :: g < k < r && Requests(level, h[k]))
    ensures Pending(level, h[..r + 1]) == None
    ensures forall j :: r < j < |h| && h[j].Query? ==> exists k :: r < k < j && Requests(level, h[k])
  {
    hide After;
    PrefixState(level, h, r);
    RunInvariant(level, h[..r]);
    forall g: nat | RunSince(h[..r], g)
      ensures Pending(level, h[..r]).Some? && Pending(level, h[..r]).value > g <==>
        exists k :: g < k < r && Requests(level, h[k])
    {
      PendingAfter(level, h[..r], g);
      assert forall k :: 0 <= k < r ==> h[..r][k] == h[k];
    }
    forall j | r < j < |h| && h[j].Query?
      ensures exists k :: r < k < j && Requests(level, h[k])
    {
      QueryFollowsRequest(level, h, j);
      var c: nat, k: nat :| SawRequest(level, h, c, k) && c < j && forall n :: c < n < j ==> !h[n].Reset? && !h[n].Query?;
      assert r < c && r < k;
    }
  }

  lemma PendingAfter(level: Level, h: seq<Event>, g: nat)
    requires RunSince(h, g)
    ensures Pending(level, h).Some? && Pending(level, h).value > g <==> exists k :: g < k < |h| && Requests(level, h[k])
  {
    PendingMeaning(level, h);
  }

  lemma AfterPush(level: Level, h: seq<Event>, e: Event)
    ensures After(level, h + [e]) == if After(level, h) == None then None else Step(level, After(level, h).value, e)
  {
    assert (h + [e])[..|h|] == h;
  }

  /** It happens: a deletion during the query leaves nothing pending. */
  lemma LostRequest()
    ensures var h := [Notify(1, Delete), Check(2), Gate(3), Notify(4, Delete), Query(5, true), Reset(6)];
      && After(Aggressive, h) == Some(State(Shared(0, false), Checking, 0, true, 6))
      && Requests(Aggressive, h[3]) && Pending(Aggressive, h) == None
  {
    AfterPush(Aggressive, [], Notify(1, Delete));
    var h1 := [Notify(1, Delete)];
    assert h1 == [] + [Notify(1, Delete)];
    AfterPush(Aggressive, h1, Check(2));
    AfterPush(Aggressive, h1 + [Check(2)], Gate(3));
    AfterPush(Aggressive, h1 + [Check(2)] + [Gate(3)], Notify(4, Delete));
    AfterPush(Aggressive, h1 + [Check(2)] + [Gate(3)] + [Notify(4, Delete)], Query(5, true));
    AfterPush(Aggressive, h1 + [Check(2)] + [Gate(3)] + [Notify(4, Delete)] + [Query(5, true)], Reset(6));
    assert h1 + [Check(2)] + [Gate(3)] + [Notify(4, Delete)] + [Query(5, true)] + [Reset(6)]
        == [Notify(1, Delete), Check(2), Gate(3), Notify(4, Delete), Query(5, true), Reset(6)];
  }

  // ------------------------------------------------------------ the code

  /** The global variables. Each of the first methods is one step under the lock or on an atomic. */
  class Globals {
    const level: Level
    var lastAction: nat
    var run: bool
    var running: bool

    function Current(): Shared
      reads this
    {
      Shared(lastAction, run)
    }

    constructor (level: Level)
      ensures this.level == level && Current() == Shared(0, false) && running
    {
      this.level, lastAction, run, running := level, 0, false, true;
    }

    method CheckRun(now: nat) returns (should: bool)
      ensures should == ShouldRun(level, Current(), now)
    {
      should := false;
      match level
      case Off =>
      case Optimistic =>
        if lastAction > 0 {
          should := now - lastAction >= WAIT_TIME;
        }
      case Aggressive =>
        should := run;
    }

    method Reset()
      modifies this
      ensures running == old(running)
      ensures Current() == AfterReset(level, old(Current()))
    {
      match level
      case Off =>
      case Optimistic => lastAction := 0;
      case Aggressive => run := false;
    }

    method Notify(action: Action, now: nat)
      modifies this
      ensures running == old(running)
      ensures Current() == AfterNotify(level, old(Current()), action, now)
    {
      match level
      case Off =>
      case Optimistic => lastAction := now;
      case Aggressive =>
        if action == Delete { run := true; }
    }

    /** The thread and its notifiers together, run through a history. What the globals hold at the
        end is what is pending: the latest request that no successful run's reset has followed. */
    method Play(h: seq<Event>) returns (place: Place, nextTry: nat)
      requires Current() == Shared(0, false) && running && After(level, h).Some?
      modifies this
      ensures level == Aggressive ==> (run <==> Pending(level, h).Some?)
      ensures level == Optimistic ==> (lastAction > 0 <==> Pending(level, h).Some?)
      ensures level == Optimistic && lastAction > 0 ==>
        Pending(level, h).value < |h| && lastAction == h[Pending(level, h).value].at
      ensures running <==> forall i :: 0 <= i < |h| ==> !h[i].Stop?
      ensures place in {Querying, Resetting} ==> InRun(h)
      ensures After(level, h).value.place == place && After(level, h).value.nextTry == nextTry
    {
      hide Pending, InRun, ShouldRun, AfterReset, AfterNotify, After, Requests;
      AfterNothing(level);
      assert h[..0] == [];
      place, nextTry := Checking, 0;
      ghost var clock: nat := 1;
      var i := 0;
      while i < |h|
        invariant 0 <= i <= |h|
        invariant After(level, h[..i]) == Some(State(Current(), place, nextTry, running, clock))
        invariant running <==> forall k :: 0 <= k < i ==> !h[k].Stop?
      {
        PrefixState(level, h, i);
        match h[i] {
          case Notify(at, action) =>
            Notify(action, at);
          case Stop(_) =>
            running := false;
          case Check(at) =>
            var should := false;
            if running {
              should := CheckRun(at);
            }
            place := if !running then Stopped else if should then Gating else Checking;
          case Gate(at) =>
            if nextTry > 0 && nextTry > at {
              place := Checking;
            } else {
              place, nextTry := Querying, 0;
            }
          case Query(at, ok) =>
            place := if ok then Resetting else Checking;
            if !ok {
              nextTry := at + RETRY_TIME;
            }
          case Reset(_) =>
            Reset();
            place := Checking;
        }
        clock := h[i].at;
        i := i + 1;
      }
      assert h[..i] == h;
      SharedIsPending(level, h);
      PendingMeaning(level, h);
      RunInvariant(level, h);
    }
  }
}
