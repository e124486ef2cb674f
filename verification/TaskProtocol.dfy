/** The wakeup protocol of `Task`, as a property of event logs.

    A run of the scheduler is observed as a log: a coroutine starts a task or
    suspends on a set of tasks, a task finishes, and a finishing task hands
    control to the coroutine in its slot. Any number of coroutines may be
    suspended at a time. `Legal` says which logs are sound whatever the
    coroutines do; `Conforms` adds what one call of a combinator (`all`, `any`,
    `multi`, `all_limit`) promises on top. The module `Tasks` proves that the
    code only ever produces such logs.
 */
module TaskProtocol {
  import opened Results

  datatype Event =
    | Started(coro: nat, task: nat)
    | Finished(task: nat)
    | Suspended(coro: nat, awaited: set<nat>)
    | Resumed(coro: nat)

  /** What a log amounts to: which tasks were started, by whom, and which
      finished; who is suspended on what; and who must be resumed because a
      task it awaits has just finished. */
  datatype State = State(starter: map<nat, nat>, finished: set<nat>, waiting: map<nat, set<nat>>, due: Option<nat>)

  const FRESH := State(map[], {}, map[], None)

  function Begun(s: State): set<nat> {
    s.starter.Keys
  }

  function Running(s: State): set<nat> {
    s.starter.Keys - s.finished
  }

  ghost predicate Awaits(s: State, c: nat, i: nat) {
    c in s.waiting && i in s.waiting[c]
  }

  /** Who awaits the task, if anybody. */
  ghost function WaiterOf(s: State, i: nat): Option<nat> {
    if exists c: nat :: Awaits(s, c, i) then (var c: nat :| Awaits(s, c, i); Some(c)) else None
  }

  ghost predicate Apart(waiting: map<nat, set<nat>>, awaited: set<nat>) {
    forall c :: c in waiting ==> waiting[c] !! awaited
  }

  ghost predicate Allowed(s: State, e: Event) {
    match e
    case Started(c, i) => s.due.None? && c !in s.waiting && i !in Begun(s)
    case Finished(i) => s.due.None? && i in Running(s)
    case Suspended(c, awaited) => s.due.None? && c !in s.waiting && awaited <= Running(s) && Apart(s.waiting, awaited)
    case Resumed(c) => s.due == Some(c) && c in s.waiting
  }

  ghost function Next(s: State, e: Event): State {
    match e
    case Started(c, i) => s.(starter := s.starter[i := c])
    case Finished(i) => s.(finished := s.finished + {i}, due := WaiterOf(s, i))
    case Suspended(c, awaited) => s.(waiting := s.waiting[c := awaited])
    case Resumed(c) => s.(waiting := s.waiting - {c}, due := None)
  }

  ghost function After(s: State, log: seq<Event>): State {
    if log == [] then s else Next(After(s, log[..|log| - 1]), log[|log| - 1])
  }

  ghost predicate Legal(s: State, log: seq<Event>) {
    log == [] ||
    (Legal(s, log[..|log| - 1]) && Allowed(After(s, log[..|log| - 1]), log[|log| - 1]))
  }

  /** One call of a combinator over the tasks `lo..hi` by the coroutine `me`;
      the coroutines it creates are `me + 1` and so on, and their tasks are
      those from `inner` on. `limit` is the parallelism of `all_limit`, and
      `None` for the other combinators. */
  datatype Job = Job(me: nat, lo: nat, hi: nat, inner: nat, limit: Option<nat>, entry: State)

  ghost predicate Covers(tasks: set<nat>, lo: nat, hi: nat) {
    forall i :: lo <= i < hi ==> i in tasks
  }

  ghost predicate Within(tasks: set<nat>, lo: nat, hi: nat) {
    forall i :: i in tasks ==> lo <= i < hi
  }

  ghost predicate AllInner(tasks: set<nat>, inner: nat) {
    forall i :: i in tasks ==> i >= inner
  }

  /** The unfinished tasks that this call itself has started. */
  function Mine(job: Job, s: State): set<nat> {
    set i | i in Running(s) && i !in Begun(job.entry) && i < job.inner && s.starter[i] >= job.me
  }

  /** The events of the call: what it may start, and when it may suspend. */
  ghost predicate Paced(job: Job, s: State, e: Event) {
    match e
    case Started(c, i) =>
      // in iterator order, inside the range and below the limit
      c >= job.me && i < job.inner ==>
        && job.lo <= i < job.hi
        && Covers(Begun(s), job.lo, i)
        && (job.limit.Some? ==> |Mine(job, s)| < job.limit.value)
    case Suspended(c, awaited) =>
      // something will wake it, and it has no reason to go on
      c >= job.me ==>
        && awaited != {}
        && (|| AllInner(awaited, job.inner)
            || (&& Within(awaited, job.lo, job.hi)
                && (Covers(Begun(s), job.lo, job.hi) || (job.limit.Some? && |awaited| == job.limit.value))))
    case _ => true
  }

  ghost predicate Conforms(job: Job, log: seq<Event>) {
    log == [] ||
    var s := After(job.entry, log[..|log| - 1]);
    Conforms(job, log[..|log| - 1]) && Allowed(s, log[|log| - 1]) && Paced(job, s, log[|log| - 1])
  }

  ghost predicate Disjoint(waiting: map<nat, set<nat>>) {
    forall c, d :: c in waiting && d in waiting && c != d ==> waiting[c] !! waiting[d]
  }

  /** The states a run can be in: no task is awaited twice, and whoever is
      suspended awaits only running tasks, unless it is about to be resumed. */
  ghost predicate Sound(s: State) {
    && s.finished <= Begun(s)
    && Disjoint(s.waiting)
    && (forall c :: c in s.waiting && s.due != Some(c) ==> s.waiting[c] <= Running(s))
    && (s.due.Some? ==> s.due.value in s.waiting && s.waiting[s.due.value] * s.finished != {})
  }

  // ----- every legal run

  lemma WaiterIsUnique(s: State, c: nat, i: nat)
    requires Disjoint(s.waiting) && Awaits(s, c, i)
    ensures WaiterOf(s, i) == Some(c)
  {
    var d := WaiterOf(s, i).value;
    assert Awaits(s, d, i);
  }

  lemma StepIsSound(s: State, e: Event)
    requires Sound(s) && Allowed(s, e)
    ensures Sound(Next(s, e))
  {
    var t := Next(s, e);
    match e
    case Started(c, i) =>
      assert Running(s) <= Running(t);
    case Suspended(c, awaited) =>
    case Resumed(c) =>
    case Finished(i) =>
      if w: nat :| Awaits(s, w, i) {
        WaiterIsUnique(s, w, i);
        assert i in s.waiting[w] * t.finished;
      }
      forall c | c in t.waiting && t.due != Some(c)
        ensures t.waiting[c] <= Running(t)
      {
        if i in s.waiting[c] {
          WaiterIsUnique(s, c, i);
        }
      }
  }

  lemma {:induction false} LegalIsSound(s: State, log: seq<Event>)
    requires Sound(s) && Legal(s, log)
    ensures Sound(After(s, log))
  {
    if log != [] {
      LegalIsSound(s, log[..|log| - 1]);
      StepIsSound(After(s, log[..|log| - 1]), log[|log| - 1]);
    }
  }

  lemma {:induction false} LegalPrefix(s: State, log: seq<Event>, k: nat)
    requires Legal(s, log) && k <= |log|
    ensures Legal(s, log[..k])
    ensures k < |log| ==> Allowed(After(s, log[..k]), log[k]) && After(s, log[..k + 1]) == Next(After(s, log[..k]), log[k])
  {
    hide Allowed, Next;
    if k == |log| {
      assert log[..k] == log;
    } else {
      var init := log[..|log| - 1];
      assert k < |init| ==> init[..k + 1] == log[..k + 1];
      assert init[..k] == log[..k];
      LegalPrefix(s, init, k);
      assert log[..k + 1][..k] == log[..k];
    }
  }

  function Suspends(log: seq<Event>, c: nat): nat {
    if log == [] then 0
    else Suspends(log[..|log| - 1], c) + (if log[|log| - 1].Suspended? && log[|log| - 1].coro == c then 1 else 0)
  }

  function Resumes(log: seq<Event>, c: nat): nat {
    if log == [] then 0
    else Resumes(log[..|log| - 1], c) + (if log[|log| - 1].Resumed? && log[|log| - 1].coro == c then 1 else 0)
  }

  /** Each suspend gets exactly one resume: for every coroutine the counts
      agree except while it is suspended, at every point of the run. */
  lemma {:induction false} OneResumePerSuspend(log: seq<Event>, c: nat)
    requires Legal(FRESH, log)
    ensures Suspends(log, c) == Resumes(log, c) + (if c in After(FRESH, log).waiting then 1 else 0)
  {
    if log != [] {
      OneResumePerSuspend(log[..|log| - 1], c);
    }
  }

  /** A resume is caused by an awaited task that has just finished, and the end
      of an awaited task is followed by nothing else than the resume of the one
      coroutine that awaits it. */
  lemma ResumeIsCausedByAwaitedFinish(log: seq<Event>, k: nat)
    requires Legal(FRESH, log) && k < |log|
    ensures log[k].Resumed? ==>
              k > 0 && log[k - 1].Finished? && Awaits(After(FRESH, log[..k - 1]), log[k].coro, log[k - 1].task)
    ensures log[k].Finished? && k + 1 < |log| ==>
              forall c: nat :: Awaits(After(FRESH, log[..k]), c, log[k].task) <==> log[k + 1] == Resumed(c)
  {
    hide Legal, After;
    LegalPrefix(FRESH, log, k);
    if log[k].Resumed? {
      DueMeansJustFinished(log[..k]);
      assert log[..k][..k - 1] == log[..k - 1];
    }
    if log[k].Finished? && k + 1 < |log| {
      LegalPrefix(FRESH, log, k + 1);
      LegalIsSound(FRESH, log[..k]);
      var s := After(FRESH, log[..k]);
      forall c: nat | Awaits(s, c, log[k].task)
        ensures log[k + 1] == Resumed(c)
      {
        WaiterIsUnique(s, c, log[k].task);
      }
    }
  }

  lemma DueMeansJustFinished(log: seq<Event>)
    requires Legal(FRESH, log) && After(FRESH, log).due.Some?
    ensures log != [] && log[|log| - 1].Finished?
    ensures Awaits(After(FRESH, log[..|log| - 1]), After(FRESH, log).due.value, log[|log| - 1].task)
  {
    var s, e := After(FRESH, log[..|log| - 1]), log[|log| - 1];
    assert Allowed(s, e);
  }

  lemma {:induction false} StatesGrow(s: State, log: seq<Event>, j: nat, k: nat)
    requires Legal(s, log) && j <= k <= |log|
    ensures Begun(After(s, log[..j])) <= Begun(After(s, log[..k]))
    ensures After(s, log[..j]).finished <= After(s, log[..k]).finished
    decreases k
  {
    hide Legal, After, WaiterOf;
    if j < k {
      StatesGrow(s, log, j, k - 1);
      LegalPrefix(s, log, k - 1);
    }
  }

  /** No task is started twice, by whomever, or finishes twice. */
  lemma NoEventTwice(s: State, log: seq<Event>, j: nat, k: nat)
    requires Legal(s, log) && j < k < |log|
    ensures log[j].Started? && log[k].Started? ==> log[j].task != log[k].task
    ensures log[j].Finished? && log[k].Finished? ==> log[j].task != log[k].task
  {
    hide Legal, After, WaiterOf;
    LegalPrefix(s, log, j);
    LegalPrefix(s, log, k);
    StatesGrow(s, log, j + 1, k);
  }

  /** A coroutine that suspends on no task at all is never resumed: whatever
      the others do, it stays suspended. */
  lemma {:induction false} NobodyWakesAnEmptyWait(s: State, log: seq<Event>, c: nat)
    requires Legal(s, log) && s.due != Some(c) && c in s.waiting && s.waiting[c] == {}
    ensures var t := After(s, log); c in t.waiting && t.waiting[c] == {} && t.due != Some(c)
    ensures forall k :: 0 <= k < |log| ==> log[k] != Resumed(c)
  {
    if log != [] {
      var init := log[..|log| - 1];
      NobodyWakesAnEmptyWait(s, init, c);
      forall k | 0 <= k < |log|
        ensures log[k] != Resumed(c)
      {
        assert k < |init| ==> log[k] == init[k];
      }
    }
  }

  // ----- every run of one combinator call

  lemma {:induction false} ConformingIsLegal(job: Job, log: seq<Event>)
    requires Conforms(job, log)
    ensures Legal(job.entry, log)
  {
    hide Allowed, Paced, Next;
    if log != [] {
      ConformingIsLegal(job, log[..|log| - 1]);
    }
  }

  lemma {:induction false} ConformsPrefix(job: Job, log: seq<Event>, k: nat)
    requires Conforms(job, log) && k <= |log|
    ensures Conforms(job, log[..k])
    ensures k < |log| ==> Paced(job, After(job.entry, log[..k]), log[k])
  {
    hide Allowed, Paced, Next;
    if k == |log| {
      assert log[..k] == log;
    } else {
      var init := log[..|log| - 1];
      assert init[..k] == log[..k];
      ConformsPrefix(job, init, k);
    }
  }

  /** What one more event of a conforming run is. */
  lemma ConformsAt(job: Job, log: seq<Event>, k: nat)
    requires Conforms(job, log) && k < |log|
    ensures var s := After(job.entry, log[..k]);
            Allowed(s, log[k]) && Paced(job, s, log[k]) && After(job.entry, log[..k + 1]) == Next(s, log[k])
  {
    hide Allowed, Paced, Next, Legal, After, Conforms;
    ConformsPrefix(job, log, k);
    ConformingIsLegal(job, log);
    LegalPrefix(job.entry, log, k);
  }

  /** The parallelism bound, at every point of the run: of the tasks this call
      has started, never more than `limit` are unfinished. */
  lemma {:induction false} NeverAboveLimit(job: Job, log: seq<Event>, k: nat)
    requires Conforms(job, log) && k <= |log| && job.limit.Some?
    ensures |Mine(job, After(job.entry, log[..k]))| <= job.limit.value
  {
    hide Conforms, After;
    if k == 0 {
      NothingYet(job, log);
    } else {
      NeverAboveLimit(job, log, k - 1);
      ConformsAt(job, log, k - 1);
      var s, e := After(job.entry, log[..k - 1]), log[k - 1];
      var before, after := Mine(job, s), Mine(job, Next(s, e));
      match e
      case Started(c, i) =>
        if c >= job.me && i < job.inner {
          assert after <= before + {i};
          SubsetSize(after, before + {i});
        } else {
          assert after <= before;
          SubsetSize(after, before);
        }
      case _ =>
        assert after <= before;
        SubsetSize(after, before);
    }
  }

  lemma NothingYet(job: Job, log: seq<Event>)
    ensures After(job.entry, log[..0]) == job.entry && Mine(job, job.entry) == {}
  {
  }

  ghost predicate Saturated(job: Job, s: State, awaited: set<nat>) {
    && awaited != {}
    && (|| AllInner(awaited, job.inner)
        || (&& Within(awaited, job.lo, job.hi)
            && (Covers(Begun(s), job.lo, job.hi) || (job.limit.Some? && |awaited| == job.limit.value))))
  }

  /** Work conservation, at every point of the run: while a coroutine of the
      call is suspended, it waits for at least one task, all it waits for are
      running, and they are its own inner coroutine, or tasks of the range and
      either `limit` of them are running or there is nothing left to start. */
  lemma {:induction false} IdleOnlyWhenSaturated(job: Job, log: seq<Event>, k: nat, c: nat)
    requires Conforms(job, log) && k <= |log|
    requires Sound(job.entry) && c >= job.me && c !in job.entry.waiting
    ensures var s := After(job.entry, log[..k]);
            c in s.waiting && s.due != Some(c) ==> s.waiting[c] <= Running(s) && Saturated(job, s, s.waiting[c])
  {
    var s := After(job.entry, log[..k]);
    assert Sound(s) by {
      hide Conforms, After, Legal, Sound, Allowed, Next;
      ConformingIsLegal(job, log);
      LegalPrefix(job.entry, log, k);
      LegalIsSound(job.entry, log[..k]);
    }
    hide Conforms, After, Sound, WaiterOf, Running;
    assert c in s.waiting && s.due != Some(c) ==> s.waiting[c] <= Running(s) by {
      RunningAwaited(s, c);
    }
    if k == 0 {
      NothingYet(job, log);
    } else {
      IdleOnlyWhenSaturated(job, log, k - 1, c);
      ConformsAt(job, log, k - 1);
    }
  }

  lemma RunningAwaited(s: State, c: nat)
    requires Sound(s)
    ensures c in s.waiting && s.due != Some(c) ==> s.waiting[c] <= Running(s)
  {
  }

  /** Tasks are started in iterator order. */
  lemma StartsInOrder(job: Job, log: seq<Event>, j: nat, k: nat)
    requires Conforms(job, log) && j < k < |log|
    requires log[j].Started? && log[j].coro >= job.me && log[j].task < job.inner
    requires log[k].Started? && log[k].coro >= job.me && log[k].task < job.inner
    ensures log[j].task < log[k].task
  {
    hide Conforms, After, Legal;
    ConformingIsLegal(job, log);
    ConformsAt(job, log, j);
    ConformsAt(job, log, k);
    StatesGrow(job.entry, log, j, k);
    NoEventTwice(job.entry, log, j, k);
  }

  lemma SubsetSize<T>(a: set<T>, b: set<T>)
    requires a <= b
    ensures |a| <= |b|
  {
    assert b == a + (b - a);
  }

  // ----- one event at a time, as the code emits them

  lemma LegalStep(s: State, log: seq<Event>, e: Event)
    requires Legal(s, log) && Allowed(After(s, log), e)
    ensures Legal(s, log + [e]) && After(s, log + [e]) == Next(After(s, log), e)
  {
    assert (log + [e])[..|log|] == log;
  }

  lemma ConformsStep(job: Job, log: seq<Event>, e: Event)
    requires Conforms(job, log) && Allowed(After(job.entry, log), e) && Paced(job, After(job.entry, log), e)
    ensures Conforms(job, log + [e]) && After(job.entry, log + [e]) == Next(After(job.entry, log), e)
  {
    assert (log + [e])[..|log|] == log;
  }
}
