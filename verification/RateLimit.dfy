/** The fixed-window rate limiter on one Redis key. A caller sends INCR and, when it was the first of
    the window, EXPIRE. The two commands are separate, callers interleave, and a caller may vanish
    between them. A request counts as admitted at its last command. */
module RateLimit {
  import opened Wrappers

  type Time = int
  type Caller = int

  datatype Counter = Absent | Present(count: nat, expiresAt: Option<Time>)

  /** An admitted request, with the lifetime of the key in which it was counted. */
  datatype Admission = Admission(at: Time, life: int)

  /** `pending` are the callers that read 1 and have not sent EXPIRE yet. `starts` are the times at
      which the key came to life. */
  datatype State = State(now: Time, counter: Counter, pending: set<Caller>, starts: seq<Time>, log: seq<Admission>)

  datatype Limit = Limit(max: nat, window: nat)

  /** A lost reply means that Redis ran the command and the caller never learned of it. */
  datatype Event =
    | Tick(seconds: nat)
    | Incr(caller: Caller, replyLost: bool)
    | Expire(caller: Caller, replyLost: bool)
    | Vanish(caller: Caller)

  function Life(s: State): int {
    |s.starts| - 1
  }

  function Admit(s: State): State
    requires |s.starts| > 0
  {
    s.(log := s.log + [Admission(s.now, Life(s))])
  }

  function Pass(s: State, seconds: nat): State {
    var now := s.now + seconds;
    var over := s.counter.Present? && s.counter.expiresAt.Some? && s.counter.expiresAt.value <= now;
    s.(now := now, counter := if over then Absent else s.counter)
  }

  /** INCR creates the key with 1 or adds one; it never touches the expiry. */
  function Increment(s: State): (after: State)
    ensures after.counter.Present? && after.counter.count > 0
    ensures s.counter.Present? ==>
      after.counter.count - s.counter.count == 1 && after.counter.expiresAt == s.counter.expiresAt
    ensures s.counter.Absent? ==> after.counter.count == 1 && after.counter.expiresAt.None?
  {
    if s.counter.Absent? then s.(counter := Present(1, None), starts := s.starts + [s.now])
    else s.(counter := s.counter.(count := s.counter.count + 1))
  }

  function SetExpiry(s: State, limit: Limit): State {
    if s.counter.Absent? then s
    else s.(counter := s.counter.(expiresAt := Some(s.now + limit.window)))
  }

  function Step(s: State, limit: Limit, e: Event): State {
    match e
    case Tick(seconds) => Pass(s, seconds)
    case Incr(caller, replyLost) =>
      var after := Increment(s);
      if replyLost then after
      else if after.counter.count == 1 then after.(pending := after.pending + {caller})
      else if after.counter.count <= limit.max && |after.starts| > 0 then Admit(after)
      else after
    case Expire(caller, replyLost) =>
      if caller !in s.pending then s
      else
        var after := SetExpiry(s, limit).(pending := s.pending - {caller});
        if replyLost || |after.starts| == 0 then after else Admit(after)
    case Vanish(caller) => s.(pending := s.pending - {caller})
  }

  function Run(s: State, limit: Limit, events: seq<Event>): State
    decreases |events|
  {
    if events == [] then s else Run(Step(s, limit, events[0]), limit, events[1..])
  }

  function Fresh(now: Time): State {
    State(now, Absent, {}, [], [])
  }

  // ---- counting admissions ---------------------------------------------------------------------

  function InLife(log: seq<Admission>, life: int): nat {
    if log == [] then 0
    else InLife(log[..|log| - 1], life) + (if log[|log| - 1].life == life then 1 else 0)
  }

  /** Admissions with `from <= at <= from + window`, both ends included. */
  function InWindow(log: seq<Admission>, start: Time, window: nat): nat {
    if log == [] then 0
    else InWindow(log[..|log| - 1], start, window)
         + (if start <= log[|log| - 1].at <= start + window then 1 else 0)
  }

  lemma InLifeAppend(log: seq<Admission>, a: Admission, life: int)
    ensures InLife(log + [a], life) == InLife(log, life) + (if a.life == life then 1 else 0)
  {
    assert (log + [a])[..|log|] == log;
  }

  lemma {:induction false} NoneOfLaterLife(log: seq<Admission>, life: int)
    requires forall i | 0 <= i < |log| :: log[i].life != life
    ensures InLife(log, life) == 0
    decreases |log|
  {
    if log != [] {
      NoneOfLaterLife(log[..|log| - 1], life);
    }
  }

  // ---- the invariant -----------------------------------------------------------------------

  /** At most one caller owes the EXPIRE of the current lifetime, and while it does the key stays. */
  ghost predicate OneOwner(s: State) {
    && |s.pending| <= 1
    && (s.pending != {} ==> s.counter.Present? && s.counter.expiresAt.None?)
    && (s.counter.Present? ==> s.counter.count >= 1 && |s.starts| > 0)
  }

  ghost predicate EveryLifeBound(log: seq<Admission>, limit: Limit) {
    forall life :: InLife(log, life) <= limit.max
  }

  /** The count of the current lifetime pays for every admission, made or owed. */
  predicate CountPays(s: State, limit: Limit) {
    s.counter.Present? ==>
      InLife(s.log, Life(s)) + |s.pending| <= (if s.counter.count <= limit.max then s.counter.count else limit.max)
  }

  /** A lifetime admits no more than the limit. */
  ghost predicate LifeBound(s: State, limit: Limit) {
    EveryLifeBound(s.log, limit) && CountPays(s, limit)
  }

  /** Lifetimes follow one another at least a window apart. */
  ghost predicate StartsSpaced(s: State, limit: Limit) {
    forall l | 0 <= l < |s.starts| - 1 :: s.starts[l + 1] >= s.starts[l] + limit.window
  }

  /** The current lifetime has started; once it is over, a whole window has passed since. */
  ghost predicate CurrentTimes(s: State, limit: Limit) {
    |s.starts| > 0 ==>
      var start := s.starts[|s.starts| - 1];
      && start <= s.now
      && (s.counter.Absent? ==> start + limit.window <= s.now)
      && (s.counter.Present? && s.counter.expiresAt.Some? ==>
            s.now < s.counter.expiresAt.value && start + limit.window <= s.counter.expiresAt.value)
  }

  predicate Inside(s: State, a: Admission) {
    && 0 <= a.life < |s.starts| && s.starts[a.life] <= a.at <= s.now
    && (a.life + 1 < |s.starts| ==> a.at < s.starts[a.life + 1])
    && (s.counter.Absent? ==> a.at < s.now)
  }

  /** Admissions lie inside their own lifetime. */
  ghost predicate AdmissionsInside(s: State) {
    forall i | 0 <= i < |s.log| :: Inside(s, s.log[i])
  }

  ghost predicate Timeline(s: State, limit: Limit) {
    StartsSpaced(s, limit) && CurrentTimes(s, limit) && AdmissionsInside(s)
  }

  ghost predicate Inv(s: State, limit: Limit) {
    OneOwner(s) && LifeBound(s, limit) && Timeline(s, limit)
  }

  lemma StepKeepsOwner(s: State, limit: Limit, e: Event)
    requires OneOwner(s)
    ensures OneOwner(Step(s, limit, e))
  {
    if e.Incr? && s.counter.Absent? {
      assert s.pending + {e.caller} == {e.caller};
    } else if e.Expire? || e.Vanish? {
      RemoveMember(s.pending, e.caller);
    }
  }

  lemma RemoveMember(pending: set<Caller>, caller: Caller)
    ensures |pending - {caller}| == |pending| - (if caller in pending then 1 else 0)
  {
    if caller !in pending {
      assert pending - {caller} == pending;
    }
  }

  lemma AdmitKeepsLives(s: State, limit: Limit)
    requires |s.starts| > 0 && InLife(s.log, Life(s)) < limit.max
    requires EveryLifeBound(s.log, limit)
    ensures EveryLifeBound(Admit(s).log, limit)
    ensures InLife(Admit(s).log, Life(s)) == InLife(s.log, Life(s)) + 1
  {
    forall life
      ensures InLife(Admit(s).log, life) == InLife(s.log, life) + (if life == Life(s) then 1 else 0)
    {
      InLifeAppend(s.log, Admission(s.now, Life(s)), life);
    }
  }

  lemma IncrKeepsLifeBound(s: State, limit: Limit, caller: Caller, replyLost: bool)
    requires limit.max >= 1 && OneOwner(s) && LifeBound(s, limit) && AdmissionsInside(s)
    ensures LifeBound(Step(s, limit, Incr(caller, replyLost)), limit)
  {
    var after := Increment(s);
    if s.counter.Absent? {
      NoneOfLaterLife(s.log, Life(after));
      assert s.pending + {caller} == {caller};
    } else if !replyLost && after.counter.count <= limit.max {
      AdmitKeepsLives(after, limit);
    }
  }

  lemma ExpireKeepsLifeBound(s: State, limit: Limit, caller: Caller, replyLost: bool)
    requires OneOwner(s) && LifeBound(s, limit)
    ensures LifeBound(Step(s, limit, Expire(caller, replyLost)), limit)
  {
    if caller in s.pending {
      RemoveMember(s.pending, caller);
      var armed := SetExpiry(s, limit).(pending := s.pending - {caller});
      assert armed.log == s.log && armed.starts == s.starts;
      if !replyLost {
        AdmitKeepsLives(armed, limit);
        assert Step(s, limit, Expire(caller, replyLost)) == Admit(armed);
      }
    }
  }

  lemma StepKeepsLifeBound(s: State, limit: Limit, e: Event)
    requires limit.max >= 1 && Inv(s, limit)
    ensures LifeBound(Step(s, limit, e), limit)
  {
    match e
    case Tick(_) =>
    case Incr(caller, replyLost) => IncrKeepsLifeBound(s, limit, caller, replyLost);
    case Expire(caller, replyLost) => ExpireKeepsLifeBound(s, limit, caller, replyLost);
    case Vanish(caller) => RemoveMember(s.pending, caller);
  }

  lemma StepKeepsStarts(s: State, limit: Limit, e: Event)
    requires OneOwner(s) && StartsSpaced(s, limit) && CurrentTimes(s, limit)
    ensures StartsSpaced(Step(s, limit, e), limit)
  {
  }

  lemma StepKeepsCurrentTimes(s: State, limit: Limit, e: Event)
    requires limit.window >= 1 && OneOwner(s) && CurrentTimes(s, limit)
    ensures CurrentTimes(Step(s, limit, e), limit)
  {
  }

  /** A recorded admission stays inside its lifetime, whatever happens next. */
  lemma StaysInside(s: State, limit: Limit, e: Event, a: Admission)
    requires OneOwner(s) && CurrentTimes(s, limit) && Inside(s, a)
    ensures Inside(Step(s, limit, e), a)
  {
  }

  lemma StepKeepsAdmissions(s: State, limit: Limit, e: Event)
    requires OneOwner(s) && CurrentTimes(s, limit) && AdmissionsInside(s)
    requires CurrentTimes(Step(s, limit, e), limit)
    ensures AdmissionsInside(Step(s, limit, e))
  {
    var after := Step(s, limit, e);
    forall i | 0 <= i < |after.log|
      ensures Inside(after, after.log[i])
    {
      if i < |s.log| {
        StaysInside(s, limit, e, s.log[i]);
      }
    }
  }

  lemma {:induction false} RunKeepsInv(s: State, limit: Limit, events: seq<Event>)
    requires limit.max >= 1 && limit.window >= 1 && Inv(s, limit)
    ensures Inv(Run(s, limit, events), limit)
    decreases |events|
  {
    if events != [] {
      StepKeepsOwner(s, limit, events[0]);
      StepKeepsLifeBound(s, limit, events[0]);
      StepKeepsStarts(s, limit, events[0]);
      StepKeepsCurrentTimes(s, limit, events[0]);
      StepKeepsAdmissions(s, limit, events[0]);
      RunKeepsInv(Step(s, limit, events[0]), limit, events[1..]);
    }
  }

  // ---- the bounds ------------------------------------------------------------------------------

  /** Admissions one window apart at most belong to the same lifetime or to neighbouring ones. */
  lemma CloseAdmissionsAreNeighbours(s: State, limit: Limit, i: nat, j: nat)
    requires limit.window >= 1 && Timeline(s, limit) && i < |s.log| && j < |s.log|
    requires s.log[i].at - limit.window <= s.log[j].at <= s.log[i].at + limit.window
    ensures -1 <= s.log[j].life - s.log[i].life <= 1
  {
    if s.log[i].life + 1 < s.log[j].life {
      StartsGrow(s, limit, s.log[i].life + 1, s.log[j].life);
    } else if s.log[j].life + 1 < s.log[i].life {
      StartsGrow(s, limit, s.log[j].life + 1, s.log[i].life);
    }
  }

  lemma {:induction false} StartsGrow(s: State, limit: Limit, early: nat, late: nat)
    requires limit.window >= 1 && Timeline(s, limit) && early < late < |s.starts|
    ensures s.starts[late] >= s.starts[early] + limit.window
    decreases late - early
  {
    if early + 1 < late {
      StartsGrow(s, limit, early + 1, late);
    }
  }

  lemma {:induction false} WindowWithinTwoLives(log: seq<Admission>, start: Time, window: nat, life: int)
    requires forall i | 0 <= i < |log| && start <= log[i].at <= start + window :: log[i].life in {life, life + 1}
    ensures InWindow(log, start, window) <= InLife(log, life) + InLife(log, life + 1)
    decreases |log|
  {
    if log != [] {
      WindowWithinTwoLives(log[..|log| - 1], start, window, life);
    }
  }

  lemma {:induction false} EmptyWindow(log: seq<Admission>, start: Time, window: nat)
    requires forall i | 0 <= i < |log| :: !(start <= log[i].at <= start + window)
    ensures InWindow(log, start, window) == 0
    decreases |log|
  {
    if log != [] {
      EmptyWindow(log[..|log| - 1], start, window);
    }
  }

  /** Across every interleaving, crash and lost reply: one lifetime of the key admits at most the
      limit, and any interval as long as the window admits at most twice the limit. */
  lemma SlidingWindowBound(now: Time, limit: Limit, events: seq<Event>, start: Time, life: int)
    requires limit.max >= 1 && limit.window >= 1
    ensures InLife(Run(Fresh(now), limit, events).log, life) <= limit.max
    ensures InWindow(Run(Fresh(now), limit, events).log, start, limit.window) <= 2 * limit.max
  {
    RunKeepsInv(Fresh(now), limit, events);
    var s := Run(Fresh(now), limit, events);
    if i: nat :| i < |s.log| && start <= s.log[i].at <= start + limit.window {
      forall j: nat | j < |s.log| && start <= s.log[j].at <= start + limit.window
        ensures -1 <= s.log[j].life - s.log[i].life <= 1
      {
        CloseAdmissionsAreNeighbours(s, limit, i, j);
      }
      if k: nat :| k < |s.log| && start <= s.log[k].at <= start + limit.window && s.log[k].life < s.log[i].life {
        forall j: nat | j < |s.log| && start <= s.log[j].at <= start + limit.window
          ensures s.log[j].life in {s.log[k].life, s.log[k].life + 1}
        {
          CloseAdmissionsAreNeighbours(s, limit, k, j);
        }
        WindowWithinTwoLives(s.log, start, limit.window, s.log[k].life);
      } else {
        WindowWithinTwoLives(s.log, start, limit.window, s.log[i].life);
      }
    } else {
      EmptyWindow(s.log, start, limit.window);
    }
  }

  /** An undisturbed first call of a lifetime is admitted and starts the window. */
  lemma FirstCall(s: State, limit: Limit, caller: Caller)
    requires s.counter.Absent? && s.pending == {}
    ensures var end := Run(s, limit, [Incr(caller, false), Expire(caller, false)]);
      && end.counter == Present(1, Some(s.now + limit.window)) && end.pending == {} && end.now == s.now
      && end.log == s.log + [Admission(s.now, |s.starts|)] && end.starts == s.starts + [s.now]
  {
    TwoEvents(s, limit, Incr(caller, false), Expire(caller, false));
  }

  function Calls(caller: Caller, n: nat): seq<Event> {
    if n == 0 then [] else [Incr(caller, false)] + Calls(caller, n - 1)
  }

  function Copies(a: Admission, n: nat): seq<Admission> {
    if n == 0 then [] else [a] + Copies(a, n - 1)
  }

  function Counted(s: State, n: nat, log: seq<Admission>): State
    requires s.counter.Present?
  {
    s.(counter := s.counter.(count := s.counter.count + n), log := log)
  }

  lemma CallIsAdmitted(s: State, limit: Limit, caller: Caller)
    requires s.counter.Present? && 1 <= s.counter.count < limit.max && |s.starts| > 0
    ensures Step(s, limit, Incr(caller, false)) == Counted(s, 1, s.log + [Admission(s.now, Life(s))])
  {
  }

  lemma RunFirst(s: State, limit: Limit, e: Event, rest: seq<Event>)
    ensures Run(s, limit, [e] + rest) == Run(Step(s, limit, e), limit, rest)
  {
    assert ([e] + rest)[1..] == rest;
  }

  /** While the count is below the limit, one call after another is admitted. */
  lemma {:induction false} CallsAreAdmitted(s: State, limit: Limit, caller: Caller, n: nat)
    requires s.counter.Present? && s.counter.count >= 1 && s.counter.count + n <= limit.max && |s.starts| > 0
    ensures var end := Run(s, limit, Calls(caller, n));
      end == Counted(s, n, s.log + Copies(Admission(s.now, Life(s)), n))
    decreases n
  {
    if n == 0 {
      assert s.log + [] == s.log;
    } else {
      var a := Admission(s.now, Life(s));
      var after := Counted(s, 1, s.log + [a]);
      CallIsAdmitted(s, limit, caller);
      CallsAreAdmitted(after, limit, caller, n - 1);
      RunFirst(s, limit, Incr(caller, false), Calls(caller, n - 1));
      assert Copies(a, n) == [a] + Copies(a, n - 1);
      assert s.log + [a] + Copies(a, n - 1) == s.log + ([a] + Copies(a, n - 1));
    }
  }

  lemma {:induction false} CopiesInWindow(log: seq<Admission>, a: Admission, n: nat, start: Time, window: nat)
    ensures InWindow(log + Copies(a, n), start, window)
         == InWindow(log, start, window) + if start <= a.at <= start + window then n else 0
    decreases n
  {
    if n == 0 {
      assert log + [] == log;
    } else {
      assert log + Copies(a, n) == log + [a] + Copies(a, n - 1);
      CopiesInWindow(log + [a], a, n - 1, start, window);
      assert (log + [a])[..|log|] == log;
    }
  }

  /** A whole lifetime's worth of calls at its start. */
  function Burst(caller: Caller, limit: Limit): seq<Event>
    requires limit.max >= 1
  {
    [Incr(caller, false), Expire(caller, false)] + Calls(caller, limit.max - 1)
  }

  lemma BurstIsAdmitted(s: State, limit: Limit, caller: Caller)
    requires limit.max >= 1 && s.counter.Absent? && s.pending == {}
    ensures var end := Run(s, limit, Burst(caller, limit));
      && end.counter == Present(limit.max, Some(s.now + limit.window)) && end.pending == {} && end.now == s.now
      && end.log == s.log + Copies(Admission(s.now, |s.starts|), limit.max)
  {
    var opening := [Incr(caller, false), Expire(caller, false)];
    FirstCall(s, limit, caller);
    var began := Run(s, limit, opening);
    RunAppends(s, limit, opening, Calls(caller, limit.max - 1));
    CallsAreAdmitted(began, limit, caller, limit.max - 1);
    var a := Admission(s.now, |s.starts|);
    assert s.log + [a] + Copies(a, limit.max - 1) == s.log + ([a] + Copies(a, limit.max - 1));
  }

  /** Twice the limit is reached, for every limit and window: the bound cannot be lowered. */
  lemma BoundIsReached(limit: Limit) returns (events: seq<Event>)
    requires limit.max >= 1 && limit.window >= 1
    ensures InWindow(Run(Fresh(0), limit, events).log, 0, limit.window) == 2 * limit.max
  {
    var s0 := Fresh(0);
    BurstIsAdmitted(s0, limit, 1);
    var s1 := Run(s0, limit, Burst(1, limit));
    OneEvent(s1, limit, Tick(limit.window));
    var s2 := Run(s1, limit, [Tick(limit.window)]);
    BurstIsAdmitted(s2, limit, 2);
    events := Burst(1, limit) + [Tick(limit.window)] + Burst(2, limit);
    RunAppends(s0, limit, Burst(1, limit), [Tick(limit.window)]);
    RunAppends(s0, limit, Burst(1, limit) + [Tick(limit.window)], Burst(2, limit));
    var early, late := Admission(0, 0), Admission(limit.window, |s2.starts|);
    CopiesInWindow([], early, limit.max, 0, limit.window);
    assert [] + Copies(early, limit.max) == Copies(early, limit.max);
    CopiesInWindow(s2.log, late, limit.max, 0, limit.window);
  }

  lemma {:induction false} RunAppends(s: State, limit: Limit, first: seq<Event>, second: seq<Event>)
    ensures Run(s, limit, first + second) == Run(Run(s, limit, first), limit, second)
    decreases |first|
  {
    if first == [] {
      assert first + second == second;
    } else {
      RunAppends(Step(s, limit, first[0]), limit, first[1..], second);
      assert (first + second)[1..] == first[1..] + second;
    }
  }

  // ---- keys that never expire ----------------------------------------------------------------

  /** The key exists, has no expiry, and no caller is left that owes one. */
  predicate Stuck(s: State) {
    s.counter.Present? && s.counter.expiresAt.None? && s.pending == {}
  }

  /** A key gets stuck exactly when its creator fails between the two commands: the reply to the creating
      INCR is lost, or the caller vanishes before EXPIRE. Nothing ever frees it. */
  lemma StuckAfterStepIff(s: State, limit: Limit, e: Event)
    requires OneOwner(s)
    ensures Stuck(Step(s, limit, e))
       <==> || Stuck(s)
            || (e.Incr? && e.replyLost && s.counter.Absent?)
            || (e.Vanish? && e.caller in s.pending)
  {
    if e.Vanish? && e.caller in s.pending {
      RemoveMember(s.pending, e.caller);
    }
  }

  /** Over every run: a key is stuck at the end exactly if it was or got stuck at some step. */
  lemma {:induction false} StuckAfterRunIff(s: State, limit: Limit, events: seq<Event>)
    requires OneOwner(s)
    ensures Stuck(Run(s, limit, events)) <==> Stuck(s) || CreatorFails(s, limit, events)
    decreases |events|
  {
    if events != [] {
      StuckAfterStepIff(s, limit, events[0]);
      StepKeepsOwner(s, limit, events[0]);
      StuckAfterRunIff(Step(s, limit, events[0]), limit, events[1..]);
    }
  }

  predicate CreatorFails(s: State, limit: Limit, events: seq<Event>)
    decreases |events|
  {
    events != [] &&
      (|| (events[0].Incr? && events[0].replyLost && s.counter.Absent?)
       || (events[0].Vanish? && events[0].caller in s.pending)
       || CreatorFails(Step(s, limit, events[0]), limit, events[1..]))
  }

  /** Both ways are open from the start. */
  lemma StuckIsReached(now: Time, limit: Limit, caller: Caller)
    ensures Stuck(Run(Fresh(now), limit, [Incr(caller, false), Vanish(caller)]))
    ensures Stuck(Run(Fresh(now), limit, [Incr(caller, true)]))
  {
    TwoEvents(Fresh(now), limit, Incr(caller, false), Vanish(caller));
    OneEvent(Fresh(now), limit, Incr(caller, true));
    RemoveMember({caller}, caller);
    assert {} + {caller} - {caller} == {};
  }

  lemma KeyCanExpire(s: State, limit: Limit)
    requires OneOwner(s) && !Stuck(s)
    ensures exists events :: Run(s, limit, events).counter.Absent?
  {
    if s.counter.Absent? {
      assert Run(s, limit, []).counter.Absent?;
    } else if s.counter.expiresAt.Some? {
      ExpiryPasses(s, limit);
    } else {
      var caller := SomeMember(s.pending);
      var armed := Step(s, limit, Expire(caller, false));
      OneEvent(s, limit, Expire(caller, false));
      ExpiryPasses(armed, limit);
      var rest :| Run(armed, limit, rest).counter.Absent?;
      RunAppends(s, limit, [Expire(caller, false)], rest);
    }
  }

  lemma SomeMember(pending: set<Caller>) returns (caller: Caller)
    requires pending != {}
    ensures caller in pending
  {
    assert (forall c :: c !in pending) ==> pending == {};
    caller :| caller in pending;
  }

  lemma ExpiryPasses(s: State, limit: Limit)
    requires s.counter.Present? && s.counter.expiresAt.Some?
    ensures exists events :: Run(s, limit, events).counter.Absent?
  {
    var wait := if s.counter.expiresAt.value <= s.now then 0 else s.counter.expiresAt.value - s.now;
    OneEvent(s, limit, Tick(wait));
    assert Run(s, limit, [Tick(wait)]).counter.Absent?;
  }

  /** A key can still expire exactly when it is not stuck. */
  lemma KeyCanExpireIff(s: State, limit: Limit)
    requires OneOwner(s)
    ensures (exists events :: Run(s, limit, events).counter.Absent?) <==> !Stuck(s)
  {
    if Stuck(s) {
      forall events ensures !Run(s, limit, events).counter.Absent? {
        StuckAfterRunIff(s, limit, events);
      }
    } else {
      KeyCanExpire(s, limit);
    }
  }

  function Increments(events: seq<Event>): nat {
    if events == [] then 0 else (if events[0].Incr? then 1 else 0) + Increments(events[1..])
  }

  /** A stuck key counts every call for good, and from then on admits no more than the limit still
      leaves: once that many calls have come, nothing is admitted again. */
  lemma {:induction false} AbandonedKeyBlocks(s: State, limit: Limit, events: seq<Event>)
    requires Stuck(s) && s.counter.count >= 1
    ensures var end := Run(s, limit, events);
      var left := if s.counter.count < limit.max then limit.max - s.counter.count else 0;
      && Stuck(end) && end.counter.count == s.counter.count + Increments(events)
      && |s.log| <= |end.log| <= |s.log| + left
      && (s.counter.count >= limit.max ==> end.log == s.log)
    decreases |events|
  {
    if events != [] {
      AbandonedKeyBlocks(Step(s, limit, events[0]), limit, events[1..]);
    }
  }

  // ---- one undisturbed call --------------------------------------------------------------------

  datatype Error = Limited | Config | Dependency

  /** How the two commands of a call fare. */
  datatype Fate = Fate(connected: bool, incrReplied: bool, expireReplied: bool)

  class Limiter {
    var state: State

    constructor (now: Time)
      ensures state == Fresh(now)
    {
      state := Fresh(now);
    }

    method CheckFixedWindow(caller: Caller, limit: Limit, fate: Fate) returns (r: Result<(), Error>)
      requires OneOwner(state)
      modifies this
      ensures OneOwner(state)
      ensures limit.max == 0 ==> r == Err(Limited) && state == old(state)
      ensures limit.max != 0 && limit.window == 0 ==> r == Err(Config) && state == old(state)
      ensures limit.max != 0 && limit.window != 0 && !fate.connected ==> r == Err(Dependency) && state == old(state)
      ensures limit.max != 0 && limit.window != 0 && fate.connected ==>
        var first := old(state).counter.Absent?;
        && state == Run(old(state), limit,
             if first && fate.incrReplied
             then [Incr(caller, false), Expire(caller, !fate.expireReplied)]
             else [Incr(caller, !fate.incrReplied)])
        && (r.Ok? <==> state.log == old(state).log + [Admission(state.now, Life(state))])
        && (r.Err? <==> state.log == old(state).log)
        && (r == Err(Limited) <==> fate.incrReplied && !first && old(state).counter.count >= limit.max)
    {
      ghost var before := state;
      if limit.max == 0 {
        return Err(Limited);
      }
      if limit.window == 0 {
        return Err(Config);
      }
      if !fate.connected {
        return Err(Dependency);
      }
      StepKeepsOwner(state, limit, Incr(caller, !fate.incrReplied));
      state := Step(state, limit, Incr(caller, !fate.incrReplied));
      OneEvent(before, limit, Incr(caller, !fate.incrReplied));
      if !fate.incrReplied {
        return Err(Dependency);
      }
      var count := state.counter.count;
      if count == 1 {
        TwoEvents(before, limit, Incr(caller, false), Expire(caller, !fate.expireReplied));
        StepKeepsOwner(state, limit, Expire(caller, !fate.expireReplied));
        state := Step(state, limit, Expire(caller, !fate.expireReplied));
        if !fate.expireReplied {
          return Err(Dependency);
        }
      }
      if count > limit.max {
        return Err(Limited);
      }
      return Ok(());
    }
  }

  lemma OneEvent(s: State, limit: Limit, e: Event)
    ensures Run(s, limit, [e]) == Step(s, limit, e)
  {
    assert [e][1..] == [];
  }

  lemma TwoEvents(s: State, limit: Limit, e1: Event, e2: Event)
    ensures Run(s, limit, [e1, e2]) == Step(Step(s, limit, e1), limit, e2)
  {
    assert [e1, e2][1..] == [e2];
    OneEvent(Step(s, limit, e1), limit, e2);
  }
}
