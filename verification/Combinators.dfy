/** `multi`, `all`, `any` and `all_limit` of src/Task.hh.

    Each method runs until the combinator returns or the environment stops for
    good while it is suspended. `Conforms` of the log it added is the promise
    that holds at every point of the run (see `TaskProtocol` for what follows
    from it); the other postconditions are about the end of the run.
 */
module Combinators {
  import opened Results
  import opened TaskProtocol
  import opened Tasks

  /** The call of `me` is blocked: it, or a coroutine it created, waits for
      tasks of the program. */
  ghost predicate Blocked(s: State, me: nat, own: nat) {
    exists c :: c >= me && c in s.waiting && s.waiting[c] != {} && Within(s.waiting[c], 0, own)
  }

  ghost predicate AllDone(s: Scheduler, lo: nat, hi: nat)
    requires lo <= hi <= |s.tasks|
    reads s.tasks
  {
    forall i :: lo <= i < hi ==> s.tasks[i].done
  }

  lemma FinishedIsDone(s: Scheduler, lo: nat, hi: nat)
    requires s.Valid() && lo <= hi <= s.own && Covers(s.state.finished, lo, hi)
    ensures hi <= |s.tasks| && AllDone(s, lo, hi)
  {
    hide Scheduler.Logged;
  }

  ghost predicate OnlyOneDone(s: Scheduler, lo: nat, hi: nat, k: nat)
    requires lo <= hi <= |s.tasks|
    reads s.tasks
  {
    forall i :: lo <= i < hi && s.tasks[i].done ==> i == k
  }

  /** The task at a position of the program. */
  lemma TaskAt(s: Scheduler, i: nat)
    requires s.Valid() && i < s.own
    ensures i < |s.tasks| && s.tasks[i].id == i < s.inner
    ensures (s.tasks[i].started <==> i in Begun(s.state)) && (s.tasks[i].done <==> i in s.state.finished)
  {
    hide Scheduler.Logged;
  }

  /** The job in progress is a call of `me` over the tasks `lo..hi`. */
  ghost predicate JobIs(s: Scheduler, me: nat, lo: nat, hi: nat, limit: Option<nat>)
    reads s
  {
    s.job.Some? && s.job.value.me == me && s.job.value.lo == lo && s.job.value.hi == hi && s.job.value.limit == limit
  }

  /** Starts the tasks `lo..hi`, as the first loop of `all` does. */
  method StartAll(s: Scheduler, lo: nat, hi: nat, me: nat)
    requires s.Idle(me) && lo <= hi <= s.own && JobIs(s, me, lo, hi, None)
    modifies s`log, s`state, s.tasks
    ensures s.Idle(me) && s.Continues() && s.OuterKept(me) && s.spare == old(s.spare)
    ensures Covers(Begun(s.state), lo, hi)
  {
    hide Scheduler.Core, Scheduler.SlotsMatch, Scheduler.OuterOnly, Begun;
    for i := lo to hi
      invariant s.Idle(me) && s.Continues() && s.OuterKept(me) && s.spare == old(s.spare)
      invariant Covers(Begun(s.state), lo, i)
    {
      TaskAt(s, i);
      s.Start(s.tasks[i], me);
    }
  }

  method All(s: Scheduler, lo: nat, hi: nat, me: nat) returns (returned: bool)
    requires s.Idle(me) && s.job.None? && lo <= hi <= s.own
    modifies s, s.tasks
    ensures s.Valid() && s.job.None? && s.OuterKept(me) && s.spare == old(s.spare)
    ensures old(s.log) <= s.log && old(s.state.finished) <= s.state.finished
    ensures Conforms(Job(me, lo, hi, s.inner, None, old(s.state)), s.log[|old(s.log)|..])
    ensures returned ==> s.Idle(me) && AllDone(s, lo, hi)
    ensures !returned ==> Blocked(s.state, me, s.own)
  {
    hide Scheduler.Core, Scheduler.SlotsMatch, Scheduler.OuterOnly, Begun, Conforms, AllDone;
    s.Begin(me, lo, hi, None);
    StartAll(s, lo, hi, me);
    returned := true;
    for i := lo to hi
      invariant s.Idle(me) && s.job == Some(Job(me, lo, hi, s.inner, None, old(s.state))) && s.base == |old(s.log)|
      invariant old(s.log) <= s.log && old(s.state.finished) <= s.state.finished && s.OuterKept(me) && s.spare == old(s.spare)
      invariant Covers(Begun(s.state), lo, hi)
      invariant Covers(s.state.finished, lo, i)
    {
      TaskAt(s, i);
      returned := s.AwaitTask(s.tasks[i], me);
      TaskAt(s, i);
      if !returned {
        break;
      }
    }
    if returned {
      FinishedIsDone(s, lo, hi);
    }
    s.Finish();
  }

  /** The recursion of `multi`. Every level but the first is a coroutine of its
      own, whose task the level before starts and waits for. */
  method MultiFrom(s: Scheduler, i: nat, hi: nat, me: nat) returns (returned: bool)
    requires s.Idle(me) && s.job.Some? && s.job.value.me <= me && s.job.value.limit.None?
    requires s.job.value.lo <= i < hi == s.job.value.hi <= s.own
    requires Covers(Begun(s.state), s.job.value.lo, i)
    requires s.spare + (hi - i - 1) <= |s.tasks|
    modifies s`log, s`state, s`spare, s.tasks
    ensures s.Valid() && s.Continues() && s.OuterKept(me) && s.spare == old(s.spare) + (hi - i - 1)
    ensures Covers(Begun(s.state), s.job.value.lo, hi)
    ensures returned ==> s.Idle(me) && Covers(s.state.finished, i, hi)
    ensures !returned ==> Blocked(s.state, me, s.own)
    decreases hi - i, 0
  {
    hide Scheduler.Core, Scheduler.SlotsMatch, Scheduler.OuterOnly, Begun, Blocked;
    TaskAt(s, i);
    s.Start(s.tasks[i], me);
    returned := true;
    if i + 1 < hi {
      returned := MultiRest(s, i + 1, hi, me);
    }
    if returned {
      TaskAt(s, i);
      returned := s.AwaitTask(s.tasks[i], me);
      TaskAt(s, i);
      if !returned {
        BlockedOn(s.state, me, me, s.own);
      }
    }
  }

  /** `co_await multi(r...)`: the new coroutine is linked and gets control; when
      it returns, control comes back through its slot. */
  method MultiRest(s: Scheduler, i: nat, hi: nat, me: nat) returns (returned: bool)
    requires s.Idle(me) && s.job.Some? && s.job.value.me <= me && s.job.value.limit.None?
    requires s.job.value.lo <= i < hi == s.job.value.hi <= s.own
    requires Covers(Begun(s.state), s.job.value.lo, i)
    requires s.spare + (hi - i) <= |s.tasks|
    modifies s`log, s`state, s`spare, s.tasks
    ensures s.Valid() && s.Continues() && s.OuterKept(me) && s.spare == old(s.spare) + (hi - i)
    ensures Covers(Begun(s.state), s.job.value.lo, hi)
    ensures returned ==> s.Idle(me) && Covers(s.state.finished, i, hi)
    ensures !returned ==> Blocked(s.state, me, s.own)
    decreases hi - i, 1
  {
    hide Scheduler.Core, Scheduler.SlotsMatch, Begun, Blocked;
    SpareAt(s);
    var t := s.tasks[s.spare];
    StatusOf(s, t);
    s.SuspendOnTask(t, me);
    returned := MultiFrom(s, i, hi, me + 1);
    if returned {
      StatusOf(s, t);
      s.ReturnTo(t, me);
    } else {
      BlockedAbove(s.state, me, s.own);
    }
  }

  lemma BlockedOn(s: State, c: nat, me: nat, own: nat)
    requires c >= me && c in s.waiting && s.waiting[c] != {} && Within(s.waiting[c], 0, own)
    ensures Blocked(s, me, own)
  {
  }

  lemma BlockedAbove(s: State, me: nat, own: nat)
    requires Blocked(s, me + 1, own)
    ensures Blocked(s, me, own)
  {
  }

  lemma StatusOf(s: Scheduler, t: Task)
    requires s.Valid() && t in s.tasks
    ensures (t.started <==> t.id in Begun(s.state)) && (t.done <==> t.id in s.state.finished)
  {
    hide Scheduler.Logged;
  }

  lemma SpareAt(s: Scheduler)
    requires s.Valid() && s.spare < |s.tasks|
    ensures var t := s.tasks[s.spare]; t.id == s.spare >= s.inner >= s.own && !t.started && !t.done
  {
    hide Legal, After, Conforms;
  }

  method Multi(s: Scheduler, lo: nat, hi: nat, me: nat) returns (returned: bool)
    requires s.Idle(me) && s.job.None? && lo < hi <= s.own && s.spare + (hi - lo - 1) <= |s.tasks|
    modifies s, s.tasks
    ensures s.Valid() && s.job.None? && s.OuterKept(me) && s.spare == old(s.spare) + (hi - lo - 1)
    ensures old(s.log) <= s.log && old(s.state.finished) <= s.state.finished
    ensures Conforms(Job(me, lo, hi, s.inner, None, old(s.state)), s.log[|old(s.log)|..])
    ensures returned ==> s.Idle(me) && AllDone(s, lo, hi)
    ensures !returned ==> Blocked(s.state, me, s.own)
  {
    hide Scheduler.Core, Scheduler.SlotsMatch, Scheduler.OuterOnly, Begun, Conforms, AllDone, Blocked;
    s.Begin(me, lo, hi, None);
    returned := MultiFrom(s, lo, hi, me);
    if returned {
      FinishedIsDone(s, lo, hi);
    }
    s.Finish();
  }

  /** The awaiter of `any` and `all_limit` after the tasks `lo..next` went
      through it: it holds every one of them that is not finished. */
  ghost predicate Pool(s: Scheduler, aw: AnyAwaiter, lo: nat, next: nat, me: nat)
    reads s, s.tasks, aw
  {
    && s.Idle(me) && lo <= next <= s.own <= |s.tasks|
    && Covers(Begun(s.state), lo, next)
    && (forall t :: t in aw.tasks ==> t in s.tasks && lo <= t.id < next)
    && (forall i :: lo <= i < next ==> s.tasks[i] in aw.tasks || i in s.state.finished)
  }

  /** The call in progress, if any, is at `next` of `lo..hi`. */
  ghost predicate At(s: Scheduler, lo: nat, next: nat, hi: nat, me: nat)
    reads s
  {
    s.job.Some? ==>
      && s.job.value.lo == lo && s.job.value.hi == hi && s.job.value.me == me && next <= hi
      && StartedUpTo(s.job.value, s.state, next)
  }

  /** Everything the call has started comes before `next`. */
  ghost predicate StartedUpTo(job: Job, s: State, next: nat) {
    forall i :: i in s.starter && i < job.inner ==> i in Begun(job.entry) || s.starter[i] < job.me || job.lo <= i < next
  }

  lemma MineIsPooled(s: Scheduler, aw: AnyAwaiter, lo: nat, next: nat, me: nat)
    requires Pool(s, aw, lo, next, me) && s.job.Some? && s.job.value.lo == lo && StartedUpTo(s.job.value, s.state, next)
    ensures |Mine(s.job.value, s.state)| <= |aw.tasks|
  {
    hide Scheduler.Logged, Scheduler.SlotsMatch, Scheduler.OuterOnly;
    var mine := Mine(s.job.value, s.state);
    forall i | i in mine
      ensures i in Ids(aw.tasks)
    {
      assert s.tasks[i] in aw.tasks;
    }
    SubsetSize(mine, Ids(aw.tasks));
    IdsSize(aw.tasks);
  }

  method PoolStart(s: Scheduler, aw: AnyAwaiter, lo: nat, next: nat, ghost hi: nat, me: nat)
    requires Pool(s, aw, lo, next, me) && next < s.own
    requires At(s, lo, next, hi, me) && (s.job.Some? ==> next < hi)
    requires s.job.Some? && s.job.value.limit.Some? ==> |aw.tasks| < s.job.value.limit.value
    modifies s`log, s`state, s.tasks, aw
    ensures Pool(s, aw, lo, next + 1, me) && s.Continues() && s.OuterKept(me) && s.Uninterrupted() && s.spare == old(s.spare)
    ensures At(s, lo, next + 1, hi, me)
    ensures aw.tasks == old(aw.tasks) + {s.tasks[next]}
  {
    hide Scheduler.Core, Scheduler.SlotsMatch, Scheduler.OuterOnly, Mine;
    if s.job.Some? {
      MineIsPooled(s, aw, lo, next, me);
      RootBelow(s);
    }
    TaskAt(s, next);
    s.Start(s.tasks[next], me);
    TaskAt(s, next);
    aw.AddTask(s.tasks[next]);
  }

  lemma RootBelow(s: Scheduler)
    requires s.Valid() && s.job.Some?
    ensures s.root <= s.job.value.me && s.job.value.inner == s.inner
  {
    hide Legal, After, Conforms, Sound;
  }

  method PoolAwait(s: Scheduler, aw: AnyAwaiter, lo: nat, next: nat, ghost hi: nat, me: nat)
    returns (r: Option<Result<Task>>)
    requires Pool(s, aw, lo, next, me) && At(s, lo, next, hi, me)
    requires s.job.Some? ==>
      aw.tasks != {} && (next == hi || (s.job.value.limit.Some? && |aw.tasks| == s.job.value.limit.value))
    modifies s`log, s`state, s.tasks, aw
    ensures s.Valid() && s.Continues() && s.OuterKept(me) && s.OuterOnly(me) && At(s, lo, next, hi, me)
    ensures r.Some? ==>
      && Pool(s, aw, lo, next, me) && |aw.tasks| < old(|aw.tasks|)
      && r.value.Ok? && r.value.value in old(aw.tasks) && r.value.value.done
    ensures r.None? ==> me in s.state.waiting && s.state.waiting[me] == Ids(old(aw.tasks))
    ensures old(AnyDone(aw.tasks)) ==> r.Some? && s.log == old(s.log)
    ensures !old(AnyDone(aw.tasks)) && r.Some? ==>
      s.JustResumed(me, r.value.value.id) && OnlyDone(old(aw.tasks), r.value.value)
  {
    hide Scheduler.Core, Scheduler.SlotsMatch, Scheduler.OuterOnly, Ids, Begun;
    PoolIsStarted(s, aw, lo, next, me);
    if s.job.Some? {
      RootBelow(s);
      PoolIsPaced(s, aw, lo, next, me);
    }
    ghost var pool := aw.tasks;
    r := s.AwaitAny(aw, me);
    if r.Some? {
      StillPooled(s, pool, aw, lo, next, me);
    }
  }

  lemma PoolIsStarted(s: Scheduler, aw: AnyAwaiter, lo: nat, next: nat, me: nat)
    requires Pool(s, aw, lo, next, me)
    ensures forall t :: t in aw.tasks ==> t in s.tasks && t.id < s.own && t.started
  {
    hide Scheduler.Logged;
  }

  lemma PoolIsPaced(s: Scheduler, aw: AnyAwaiter, lo: nat, next: nat, me: nat)
    requires Pool(s, aw, lo, next, me) && s.job.Some? && s.job.value.lo == lo && next <= s.job.value.hi
    requires aw.tasks != {} && (next == s.job.value.hi || (s.job.value.limit.Some? && |aw.tasks| == s.job.value.limit.value))
    ensures Paced(s.job.value, s.state, Suspended(me, Ids(aw.tasks)))
  {
    hide Scheduler.Logged, Scheduler.SlotsMatch, Scheduler.OuterOnly;
    IdsSize(aw.tasks);
    var t :| t in aw.tasks;
    assert t.id in Ids(aw.tasks);
  }

  lemma StillPooled(s: Scheduler, pool: set<Task>, aw: AnyAwaiter, lo: nat, next: nat, me: nat)
    requires s.Idle(me) && lo <= next <= s.own <= |s.tasks| && Covers(Begun(s.state), lo, next)
    requires forall t :: t in pool ==> t in s.tasks && lo <= t.id < next
    requires forall i :: lo <= i < next ==> s.tasks[i] in pool || i in s.state.finished
    requires aw.tasks == set t | t in pool && !t.done
    ensures Pool(s, aw, lo, next, me)
  {
    hide Scheduler.Logged, Scheduler.SlotsMatch, Scheduler.OuterOnly;
  }

  /** The loop of `any`. */
  method PoolAll(s: Scheduler, lo: nat, hi: nat, me: nat) returns (aw: AnyAwaiter)
    requires s.Idle(me) && lo <= hi <= s.own
    requires At(s, lo, lo, hi, me) && (s.job.Some? ==> s.job.value.limit.None?)
    modifies s`log, s`state, s.tasks
    ensures fresh(aw) && Pool(s, aw, lo, hi, me) && s.Continues() && s.OuterKept(me) && s.Uninterrupted() && s.spare == old(s.spare)
    ensures At(s, lo, hi, hi, me)
    ensures forall k :: lo <= k < hi ==> s.tasks[k] in aw.tasks
  {
    hide Scheduler.Core, Scheduler.SlotsMatch, Scheduler.OuterOnly, StartedUpTo;
    s.Layout();
    aw := new AnyAwaiter();
    for i := lo to hi
      invariant Pool(s, aw, lo, i, me) && s.Continues() && s.OuterKept(me) && s.Uninterrupted() && s.spare == old(s.spare)
      invariant At(s, lo, i, hi, me)
      invariant forall k :: lo <= k < i ==> s.tasks[k] in aw.tasks
    {
      PoolStart(s, aw, lo, i, hi, me);
    }
  }

  lemma PooledIds(s: Scheduler, aw: AnyAwaiter, lo: nat, hi: nat, me: nat)
    requires Pool(s, aw, lo, hi, me) && forall k :: lo <= k < hi ==> s.tasks[k] in aw.tasks
    ensures Covers(Ids(aw.tasks), lo, hi) && Within(Ids(aw.tasks), lo, hi)
  {
    hide Scheduler.Logged, Scheduler.SlotsMatch, Scheduler.OuterOnly;
    forall k | lo <= k < hi
      ensures k in Ids(aw.tasks)
    {
      assert s.tasks[k] in aw.tasks;
    }
  }

  /** The body of `any`. */
  method AnyOf(s: Scheduler, lo: nat, hi: nat, me: nat) returns (r: Option<Result<Task>>)
    requires s.Idle(me) && lo <= hi <= s.own
    requires At(s, lo, lo, hi, me) && (s.job.Some? ==> lo < hi && s.job.value.limit.None?)
    modifies s`log, s`state, s.tasks
    ensures s.Valid() && s.Continues() && s.OuterKept(me) && hi <= |s.tasks|
    ensures r.Some? ==>
      s.Idle(me) && r.value.Ok? && r.value.value in s.tasks && lo <= r.value.value.id < hi && r.value.value.done
    ensures r.None? ==> me in s.state.waiting && Covers(s.state.waiting[me], lo, hi) && Within(s.state.waiting[me], lo, hi)
    ensures r.Some? ==> s.Uninterrupted() || (s.JustResumed(me, r.value.value.id) && OnlyOneDone(s, lo, hi, r.value.value.id))
    ensures !Missing(old(s.state.finished), lo, hi) ==> r.Some? && s.Uninterrupted()
  {
    hide Scheduler.Core, Scheduler.SlotsMatch, Scheduler.OuterOnly, At, Ids, AnyDone, OnlyDone, OnlyOneDone;
    var aw := PoolAll(s, lo, hi, me);
    PooledIds(s, aw, lo, hi, me);
    DoneIsPooled(s, aw, lo, hi, me);
    assert lo < hi ==> s.tasks[lo] in aw.tasks;
    ghost var pool := aw.tasks;
    r := PoolAwait(s, aw, lo, hi, hi, me);
    if r.Some? {
      OneOf(s, pool, lo, hi, r.value.value);
    }
  }

  /** None of the tasks is there. */
  ghost predicate Missing(tasks: set<nat>, lo: nat, hi: nat) {
    forall i :: lo <= i < hi ==> i !in tasks
  }

  lemma DoneIsPooled(s: Scheduler, aw: AnyAwaiter, lo: nat, hi: nat, me: nat)
    requires Pool(s, aw, lo, hi, me) && forall k :: lo <= k < hi ==> s.tasks[k] in aw.tasks
    ensures Missing(s.state.finished, lo, hi) || AnyDone(aw.tasks)
  {
    hide Scheduler.Logged, Scheduler.SlotsMatch, Scheduler.OuterOnly;
  }

  lemma OneOf(s: Scheduler, pool: set<Task>, lo: nat, hi: nat, t: Task)
    requires s.Valid() && lo <= hi <= |s.tasks| && t in pool
    requires forall u :: u in pool ==> u in s.tasks && lo <= u.id < hi
    requires forall k :: lo <= k < hi ==> s.tasks[k] in pool
    ensures OnlyDone(pool, t) ==> OnlyOneDone(s, lo, hi, t.id)
  {
    hide Scheduler.Logged, Scheduler.SlotsMatch;
  }

  /** It returns without suspending if a task of the range is done beforehand or
      by the time all have been started, and otherwise returns the first that
      finishes. Over an empty range it suspends on nothing and never returns
      (`TaskProtocol.NobodyWakesAnEmptyWait`). */
  method Any(s: Scheduler, lo: nat, hi: nat, me: nat) returns (r: Option<Result<Task>>)
    requires s.Idle(me) && s.job.None? && lo <= hi <= s.own
    modifies s, s.tasks
    ensures s.Valid() && s.job.None? && s.OuterKept(me) && s.spare == old(s.spare) && hi <= |s.tasks|
    ensures old(s.log) <= s.log && old(s.state.finished) <= s.state.finished
    ensures lo < hi ==> Conforms(Job(me, lo, hi, s.inner, None, old(s.state)), s.log[|old(s.log)|..])
    ensures r.Some? ==>
      s.Idle(me) && r.value.Ok? && r.value.value in s.tasks && lo <= r.value.value.id < hi && r.value.value.done
    ensures r.None? ==> me in s.state.waiting && Covers(s.state.waiting[me], lo, hi) && Within(s.state.waiting[me], lo, hi)
    ensures r.None? && lo < hi ==> Blocked(s.state, me, s.own)
    ensures r.Some? ==> s.Uninterrupted() || (s.JustResumed(me, r.value.value.id) && OnlyOneDone(s, lo, hi, r.value.value.id))
    ensures !Missing(old(s.state.finished), lo, hi) ==> r.Some? && s.Uninterrupted()
  {
    hide Scheduler.Core, Scheduler.SlotsMatch, Scheduler.OuterOnly, Conforms, OnlyOneDone, Missing, Blocked;
    if lo < hi {
      s.Begin(me, lo, hi, None);
    }
    r := AnyOf(s, lo, hi, me);
    if r.None? && lo < hi {
      assert lo in s.state.waiting[me];
      BlockedOn(s.state, me, me, s.own);
    }
    s.Finish();
  }

  /** The loop of `all_limit`. */
  method Drain(s: Scheduler, lo: nat, hi: nat, parallelism: nat, me: nat) returns (returned: bool)
    requires s.Idle(me) && lo <= hi <= s.own
    requires At(s, lo, lo, hi, me)
    requires if parallelism == 0 && lo < hi then s.job.None? else s.job.Some? && s.job.value.limit == Some(parallelism)
    modifies s`log, s`state, s.tasks
    ensures s.Valid() && s.Continues() && s.OuterKept(me)
    ensures returned ==> s.Idle(me) && Covers(s.state.finished, lo, hi)
    ensures !returned && (parallelism > 0 || lo == hi) ==> Blocked(s.state, me, s.own)
    ensures parallelism == 0 && lo < hi ==> !returned && me in s.state.waiting && s.state.waiting[me] == {}
  {
    hide Pool, At, Scheduler.Core, Scheduler.SlotsMatch, Scheduler.OuterOnly, Ids, Begun, AnyDone, OnlyDone, Blocked;
    var aw := new AnyAwaiter();
    EmptyPool(s, aw, lo, me);
    var start := lo;
    while start != hi || |aw.tasks| > 0
      invariant Pool(s, aw, lo, start, me) && s.Continues() && s.OuterKept(me) && start <= hi
      invariant At(s, lo, start, hi, me)
      invariant |aw.tasks| <= parallelism
      invariant parallelism == 0 ==> start == lo
      decreases hi - start, |aw.tasks|
    {
      if |aw.tasks| >= parallelism || start == hi {
        IdsWithin(s, aw, lo, start, me);
        var r := PoolAwait(s, aw, lo, start, hi, me);
        if r.None? {
          if parallelism > 0 {
            BlockedOn(s.state, me, me, s.own);
          }
          return false;
        }
      } else {
        PoolStart(s, aw, lo, start, hi, me);
        start := start + 1;
      }
    }
    DrainedPool(s, aw, lo, hi, me);
    return true;
  }

  lemma EmptyPool(s: Scheduler, aw: AnyAwaiter, lo: nat, me: nat)
    requires s.Idle(me) && lo <= s.own && aw.tasks == {}
    ensures Pool(s, aw, lo, lo, me)
  {
    hide Scheduler.Logged, Scheduler.SlotsMatch, Scheduler.OuterOnly;
  }

  lemma DrainedPool(s: Scheduler, aw: AnyAwaiter, lo: nat, hi: nat, me: nat)
    requires Pool(s, aw, lo, hi, me) && aw.tasks == {}
    ensures s.Idle(me) && Covers(s.state.finished, lo, hi)
  {
    hide Scheduler.Core, Scheduler.SlotsMatch, Scheduler.OuterOnly;
  }

  lemma IdsWithin(s: Scheduler, aw: AnyAwaiter, lo: nat, next: nat, me: nat)
    requires Pool(s, aw, lo, next, me)
    ensures Within(Ids(aw.tasks), 0, s.own) && (Ids(aw.tasks) == {} <==> aw.tasks == {})
  {
    hide Scheduler.Core, Scheduler.SlotsMatch, Scheduler.OuterOnly;
    if t :| t in aw.tasks {
      assert t.id in Ids(aw.tasks);
    }
  }

  /** With a parallelism of zero and something to run, it suspends on nothing
      and never returns; in every other case it conforms and can only be
      blocked by a running task. */
  method AllLimit(s: Scheduler, lo: nat, hi: nat, parallelism: nat, me: nat) returns (returned: bool)
    requires s.Idle(me) && s.job.None? && lo <= hi <= s.own
    modifies s, s.tasks
    ensures s.Valid() && s.job.None? && s.OuterKept(me) && s.spare == old(s.spare)
    ensures old(s.log) <= s.log && old(s.state.finished) <= s.state.finished
    ensures parallelism > 0 || lo == hi ==>
      Conforms(Job(me, lo, hi, s.inner, Some(parallelism), old(s.state)), s.log[|old(s.log)|..])
    ensures returned ==> s.Idle(me) && AllDone(s, lo, hi)
    ensures !returned && (parallelism > 0 || lo == hi) ==> Blocked(s.state, me, s.own)
    ensures parallelism == 0 && lo < hi ==> !returned && me in s.state.waiting && s.state.waiting[me] == {}
  {
    hide Scheduler.Core, Scheduler.SlotsMatch, Scheduler.OuterOnly, Conforms, Blocked, AllDone;
    if parallelism > 0 || lo == hi {
      s.Begin(me, lo, hi, Some(parallelism));
    }
    returned := Drain(s, lo, hi, parallelism, me);
    if returned {
      FinishedIsDone(s, lo, hi);
    }
    s.Finish();
  }

  // ----- programs

  datatype Call =
    | CallAwait(task: nat)
    | CallMulti(lo: nat, hi: nat)
    | CallAll(lo: nat, hi: nat)
    | CallAny(lo: nat, hi: nat)
    | CallAllLimit(lo: nat, hi: nat, parallelism: nat)

  predicate WellFormed(c: Call, own: nat) {
    match c
    case CallAwait(i) => i < own
    case CallMulti(lo, hi) => lo < hi <= own
    case CallAll(lo, hi) => lo <= hi <= own
    case CallAny(lo, hi) => lo < hi <= own
    case CallAllLimit(lo, hi, p) => lo <= hi <= own && (p > 0 || lo == hi)
  }

  /** How many coroutines the call creates besides its own. */
  function Creates(c: Call): nat {
    match c
    case CallMulti(lo, hi) => if lo < hi then hi - lo - 1 else 0
    case _ => 0
  }

  function CreatesAll(calls: seq<Call>): nat {
    if calls == [] then 0 else Creates(calls[0]) + CreatesAll(calls[1..])
  }

  /** What the caller may rely on once the call has returned. */
  ghost predicate Promised(finished: set<nat>, c: Call) {
    match c
    case CallAwait(i) => i in finished
    case CallAny(lo, hi) => !Missing(finished, lo, hi)
    case _ => Covers(finished, c.lo, c.hi)
  }

  lemma PromisesLast(finished: set<nat>, finished': set<nat>, c: Call)
    requires Promised(finished, c) && finished <= finished'
    ensures Promised(finished', c)
  {
  }

  lemma DoneIsFinished(s: Scheduler, lo: nat, hi: nat)
    requires s.Valid() && lo <= hi <= s.own <= |s.tasks| && AllDone(s, lo, hi)
    ensures Covers(s.state.finished, lo, hi)
  {
    hide Scheduler.Logged, Scheduler.SlotsMatch;
  }

  method RunCall(s: Scheduler, c: Call, me: nat) returns (returned: bool)
    requires s.Idle(me) && s.job.None? && WellFormed(c, s.own) && s.spare + Creates(c) <= |s.tasks|
    modifies s, s.tasks
    ensures s.Valid() && s.job.None? && s.spare == old(s.spare) + Creates(c)
    ensures old(s.log) <= s.log && old(s.state.finished) <= s.state.finished
    ensures returned ==> s.Idle(me) && Promised(s.state.finished, c)
    ensures !returned ==> Blocked(s.state, me, s.own)
  {
    hide Scheduler.Core, Scheduler.SlotsMatch, Scheduler.OuterOnly, Conforms, Blocked, AllDone, OnlyOneDone;
    s.Layout();
    match c
    case CallAwait(i) =>
      TaskAt(s, i);
      returned := s.AwaitTask(s.tasks[i], me);
      TaskAt(s, i);
      if !returned {
        BlockedOn(s.state, me, me, s.own);
      }
    case CallMulti(lo, hi) =>
      returned := Multi(s, lo, hi, me);
      if returned {
        DoneIsFinished(s, lo, hi);
      }
    case CallAll(lo, hi) =>
      returned := All(s, lo, hi, me);
      if returned {
        DoneIsFinished(s, lo, hi);
      }
    case CallAny(lo, hi) =>
      var r := Any(s, lo, hi, me);
      returned := r.Some?;
      if returned {
        StatusOf(s, r.value.value);
        assert !Missing(s.state.finished, lo, hi);
      }
    case CallAllLimit(lo, hi, p) =>
      returned := AllLimit(s, lo, hi, p, me);
      if returned {
        DoneIsFinished(s, lo, hi);
      }
  }

  /** Any sequence of calls over one shared list of tasks. Every call starts
      with no coroutine of the program suspended and no unfinished task of it
      linked, so the log of the whole run is legal; a program that does not get
      to its end is blocked on running tasks. */
  method RunProgram(s: Scheduler, calls: seq<Call>, me: nat) returns (completed: nat)
    requires s.Idle(me) && s.job.None? && s.spare + CreatesAll(calls) <= |s.tasks|
    requires forall c :: c in calls ==> WellFormed(c, s.own)
    modifies s, s.tasks
    ensures s.Valid() && Legal(FRESH, s.log) && s.state == After(FRESH, s.log)
    ensures completed <= |calls|
    ensures forall k :: 0 <= k < completed ==> Promised(s.state.finished, calls[k])
    ensures completed == |calls| ==> s.Idle(me)
    ensures completed < |calls| ==> Blocked(s.state, me, s.own) && forall c :: c in s.state.waiting ==> s.state.waiting[c] <= Running(s.state)
  {
    hide Scheduler.Core, Scheduler.SlotsMatch, Scheduler.OuterOnly, Blocked, Promised, Legal, After, Creates;
    completed := 0;
    assert calls[0..] == calls;
    while completed < |calls|
      invariant s.Idle(me) && s.job.None? && completed <= |calls|
      invariant s.spare + CreatesAll(calls[completed..]) <= |s.tasks|
      invariant forall k :: 0 <= k < completed ==> Promised(s.state.finished, calls[k])
    {
      ghost var finished := s.state.finished;
      assert calls[completed..][0] == calls[completed] && calls[completed..][1..] == calls[completed + 1..];
      var returned := RunCall(s, calls[completed], me);
      forall k | 0 <= k < completed
        ensures Promised(s.state.finished, calls[k])
      {
        PromisesLast(finished, s.state.finished, calls[k]);
      }
      if !returned {
        break;
      }
      completed := completed + 1;
    }
    s.SoundWaiting();
    WholeLog(s);
  }

  lemma WholeLog(s: Scheduler)
    requires s.Valid()
    ensures Legal(FRESH, s.log) && s.state == After(FRESH, s.log)
  {
  }
}
