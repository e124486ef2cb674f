/** `Task`, its awaiters and the scheduler they run in (src/Task.hh).

    The scheduler object stands for everything outside the coroutine under
    consideration. Its environment is any number of other coroutines that obey
    the same protocol: they start tasks, suspend on tasks of their own and are
    resumed, and started tasks finish, in any order, also while another task
    is being started. Its log is what `TaskProtocol` speaks about; it is only
    ever extended through `Emit`, which demands that each event is allowed at
    that point.
 */
module Tasks {
  import opened Results
  import opened TaskProtocol

  class Task {
    const id: nat
    var started: bool
    var done: bool
    var awaitingCoro: Option<nat>

    constructor (id: nat)
      ensures this.id == id && !started && !done && awaitingCoro == None
    {
      this.id, started, done, awaitingCoro := id, false, false, None;
    }

    method Link(coro: Option<nat>)
      modifies this`awaitingCoro
      ensures awaitingCoro == coro
    {
      awaitingCoro := coro;
    }
  }

  class Scheduler {
    /** The tasks of the program under consideration come first, then those
        that only its environment awaits, then one for each coroutine that the
        program itself will create. */
    const tasks: seq<Task>
    const own: nat
    const inner: nat
    /** The coroutines of the program are this one and those after it. */
    const root: nat
    /** The next coroutine to be created. */
    var spare: nat
    ghost var log: seq<Event>
    ghost var state: State
    /** The combinator call that is in progress and where its log begins. */
    ghost var job: Option<Job>
    ghost var base: nat

    ghost predicate Logged()
      reads this`log, this`state, this`job, this`base
    {
      && Legal(FRESH, log) && state == After(FRESH, log) && Sound(state)
      && base <= |log|
      && (job.Some? ==>
            && root <= job.value.me && job.value.inner == inner && Sound(job.value.entry) && (forall c :: c in job.value.entry.waiting ==> c < job.value.me)
            && Conforms(job.value, log[base..]) && state == After(job.value.entry, log[base..]))
    }

    /** The log and the objects tell the same story. */
    ghost predicate Core()
      reads this, tasks
    {
      && Logged()
      && own <= inner <= spare <= |tasks|
      && (forall i :: 0 <= i < |tasks| ==> tasks[i].id == i)
      && (forall i :: i in Begun(state) ==> i < spare)
      && (forall i :: 0 <= i < |tasks| ==>
            && (tasks[i].started <==> i in Begun(state))
            && (tasks[i].done <==> i in state.finished))
      && (forall c :: c in state.waiting && c < root ==> state.waiting[c] != {} && Within(state.waiting[c], own, inner))
    }

    ghost predicate SlotsMatch(waiting: map<nat, set<nat>>)
      reads tasks`done, tasks`awaitingCoro
    {
      forall i :: 0 <= i < |tasks| && !tasks[i].done ==> SlotMatches(tasks[i].awaitingCoro, i, waiting)
    }

    /** The wakeup discipline: an unfinished task holds the handle of the one
        coroutine that is suspended on it, and no handle at all if there is
        none. */
    ghost predicate Valid()
      reads this, tasks
    {
      Core() && state.due.None? && SlotsMatch(state.waiting)
    }

    /** Of the coroutines of the program, only those that are waiting for one
        created later are suspended, and none from `me` on. */
    ghost predicate OuterOnly(me: nat)
      reads this`state
    {
      forall c :: c in state.waiting && root <= c && c != me ==> c < me && AllInner(state.waiting[c], inner)
    }

    /** `me` is running. */
    ghost predicate Idle(me: nat)
      reads this, tasks
    {
      Valid() && root <= me && me !in state.waiting && OuterOnly(me)
    }

    twostate predicate Continues()
      reads this
    {
      && job == old(job) && base == old(base)
      && old(log) <= log
      && old(Begun(state)) <= Begun(state)
      && old(state.finished) <= state.finished
      && old(spare) <= spare
    }

    /** What the outer coroutines wait for has not changed. */
    twostate predicate OuterKept(me: nat)
      reads this
    {
      && (forall c :: root <= c < me ==>
            (c in state.waiting <==> c in old(state.waiting)) && (c in state.waiting ==> state.waiting[c] == old(state.waiting[c])))
      && (forall i :: inner <= i < old(spare) ==> (i in state.finished <==> i in old(state.finished)))
    }

    /** Apart from these tasks, only the environment started any. */
    twostate predicate Starts(tasks: set<nat>)
      reads this
    {
      forall i :: i in state.starter ==>
        (i in old(state.starter) && state.starter[i] == old(state.starter[i])) || i in tasks || state.starter[i] < root
    }

    /** No coroutine of the program was suspended in between. */
    twostate predicate Uninterrupted()
      reads this
    {
      && old(log) <= log
      && forall k :: |old(log)| <= k < |log| && log[k].Suspended? ==> log[k].coro < root
    }

    /** The run has come to the point where the end of `task` resumed `coro`. */
    ghost predicate JustResumed(coro: nat, task: nat)
      reads this`log
    {
      |log| >= 2 && log[|log| - 2..] == [Finished(task), Resumed(coro)]
    }

    constructor (tasks: seq<Task>, own: nat, inner: nat, root: nat)
      requires own <= inner <= |tasks|
      requires forall i :: 0 <= i < |tasks| ==>
        tasks[i].id == i && !tasks[i].started && !tasks[i].done && tasks[i].awaitingCoro == None
      ensures Idle(root) && this.tasks == tasks && this.own == own && this.inner == inner && this.root == root && spare == inner
      ensures log == [] && state == FRESH && job == None
    {
      this.tasks, this.own, this.inner, this.root := tasks, own, inner, root;
      spare, log, state, job, base := inner, [], FRESH, None, 0;
    }

    ghost method Emit(e: Event)
      requires Logged() && Allowed(state, e) && (job.Some? ==> Paced(job.value, state, e))
      modifies this`log, this`state
      ensures Logged() && log == old(log) + [e] && state == Next(old(state), e)
    {
      hide Legal, After, Conforms, Sound, Allowed, Next, Paced;
      LegalStep(FRESH, log, e);
      if job.Some? {
        ConformsStep(job.value, log[base..], e);
        assert (log + [e])[base..] == log[base..] + [e];
      }
      StepIsSound(state, e);
      log, state := log + [e], Next(state, e);
    }

    ghost method Begin(me: nat, lo: nat, hi: nat, limit: Option<nat>)
      requires Idle(me)
      modifies this`job, this`base
      ensures Idle(me) && job == Some(Job(me, lo, hi, inner, limit, state)) && base == |log|
    {
      hide Legal, Sound, Running;
      job, base := Some(Job(me, lo, hi, inner, limit, state)), |log|;
      assert log[base..] == [];
      Below(me);
    }

    /** Everybody who is suspended comes before a running coroutine. */
    lemma Below(me: nat)
      requires OuterOnly(me) && root <= me && me !in state.waiting
      ensures forall c :: c in state.waiting ==> c < me
    {
    }

    ghost method Finish()
      requires Valid()
      modifies this`job, this`base
      ensures Valid() && job == None
      ensures old(job.Some?) ==> Conforms(old(job.value), log[old(base)..])
    {
      hide Legal, Sound, Conforms, After;
      job := None;
    }

    /** TaskPromise::FinalAwaiter::await_suspend: the task is done and control
        goes to whoever is in its slot. */
    method FinalSuspend(t: Task) returns (next: Option<nat>)
      requires Valid() && t in tasks && t.started && !t.done
      modifies this`log, this`state, t`done
      ensures Core() && state.due.None? && Continues() && Uninterrupted()
      ensures state.starter == old(state.starter) && state.finished == old(state.finished) + {t.id}
      ensures next == old(t.awaitingCoro) && SlotsMatch(old(state.waiting))
      ensures log == old(log) + [Finished(t.id)] + (if next.Some? then [Resumed(next.value)] else [])
      ensures next.None? ==> state.waiting == old(state.waiting)
      ensures next.Some? ==> Awaits(old(state), next.value, t.id) && state.waiting == old(state.waiting) - {next.value}
    {
      hide Legal, After, Conforms, Sound, WaiterOf;
      SlotTells(state, t.awaitingCoro, t.id);
      t.done := true;
      Emit(Finished(t.id));
      next := t.awaitingCoro;
      if next.Some? {
        Emit(Resumed(next.value));
      }
    }

    // ----- the environment

    /** An environment coroutine is resumed and unlinks the other tasks it was
        waiting for. */
    method Unlink(d: nat, ghost waiting: map<nat, set<nat>>)
      requires Core() && SlotsMatch(waiting) && Disjoint(waiting) && state.waiting == waiting - {d}
      modifies tasks`awaitingCoro
      ensures Core() && SlotsMatch(state.waiting)
    {
      hide Logged;
      for k := 0 to |tasks|
        invariant Core()
        invariant forall i :: 0 <= i < |tasks| && !tasks[i].done ==>
          SlotMatches(tasks[i].awaitingCoro, i, if i < k then state.waiting else waiting)
      {
        if tasks[k].awaitingCoro == Some(d) {
          tasks[k].Link(None);
        }
      }
    }

    /** What a step of the environment keeps while `me` is the innermost
        coroutine of the program, suspended or not. */
    twostate predicate Stepped(me: nat)
      reads this, tasks
    {
      && Core() && state.due.None? && Continues() && Uninterrupted() && spare == old(spare)
      && OuterOnly(me) && OuterKept(me) && Starts({})
    }

    /** What `me` waits for has not changed. */
    twostate predicate StillThere(me: nat)
      reads this, tasks
    {
      && Valid() && (me in state.waiting <==> me in old(state.waiting))
      && (me in state.waiting ==> state.waiting[me] == old(state.waiting[me]))
    }

    /** `me` waited for these tasks and has just been resumed by the first of
        them to finish; it has not unlinked the others yet. */
    ghost predicate Woken(me: nat, awaited: set<nat>)
      reads this, tasks
    {
      && me !in state.waiting && SlotsMatch(state.waiting[me := awaited])
      && exists i: nat :: JustResumed(me, i) && awaited * state.finished == {i}
    }

    /** A started task that is not in the hands of the program finishes. */
    method OtherFinishes(t: Task, me: nat) returns (resumed: bool)
      requires Valid() && root <= me && OuterOnly(me)
      requires t in tasks && t.id < inner && t.started && !t.done
      modifies this`log, this`state, tasks
      ensures Stepped(me)
      ensures if resumed then me in old(state.waiting) && Woken(me, old(state.waiting[me])) else StillThere(me)
    {
      hide Core, SlotsMatch, Disjoint, Running;
      ghost var before := state;
      SoundWaiting();
      var next := FinalSuspend(t);
      resumed := false;
      if next.Some? {
        if next.value < root {
          Unlink(next.value, before.waiting);
        } else {
          resumed := true;
          NowWoken(me, before, t.id);
        }
      }
    }

    lemma NowWoken(me: nat, before: State, i: nat)
      requires me in before.waiting && i in before.waiting[me] && before.waiting[me] !! before.finished
      requires state.finished == before.finished + {i} && state.waiting == before.waiting - {me} && SlotsMatch(before.waiting)
      requires |log| >= 2 && log[|log| - 2] == Finished(i) && log[|log| - 1] == Resumed(me)
      ensures Woken(me, before.waiting[me])
    {
      assert before.waiting[me] * state.finished == {i};
      assert JustResumed(me, i);
      assert state.waiting[me := before.waiting[me]] == before.waiting;
    }

    lemma SoundWaiting()
      requires Core() && state.due.None?
      ensures Disjoint(state.waiting)
      ensures forall c :: c in state.waiting ==> state.waiting[c] !! state.finished && state.waiting[c] <= Running(state)
    {
      hide Legal, After, Conforms;
    }

    /** Another coroutine starts a task. */
    method OtherStarts(d: nat, t: Task, me: nat)
      requires Valid() && root <= me && OuterOnly(me)
      requires d < root && d !in state.waiting && t in tasks && t.id < inner && !t.started
      modifies this`log, this`state, t`started
      ensures Stepped(me) && StillThere(me)
    {
      hide Logged, Paced;
      OthersArePaced(Started(d, t.id));
      t.started := true;
      Emit(Started(d, t.id));
    }

    /** Another coroutine suspends on some of its own tasks. */
    method OtherSuspends(d: nat, awaited: set<nat>, me: nat)
      requires Valid() && root <= me && OuterOnly(me)
      requires d < root && d !in state.waiting && awaited != {} && Within(awaited, own, inner)
      requires forall i :: i in awaited ==> tasks[i].started && !tasks[i].done && tasks[i].awaitingCoro == None
      modifies this`log, this`state, tasks`awaitingCoro
      ensures Stepped(me) && StillThere(me)
    {
      hide Core, SlotsMatch, Running, Apart, Paced;
      NobodyAwaits(awaited);
      LinkAll(d, awaited);
      OthersArePaced(Suspended(d, awaited));
      Suspends(d, awaited);
    }

    /** The slots are set; now the coroutine is suspended. */
    ghost method Suspends(c: nat, awaited: set<nat>)
      requires Core() && Allowed(state, Suspended(c, awaited)) && (job.Some? ==> Paced(job.value, state, Suspended(c, awaited)))
      requires c < root ==> awaited != {} && Within(awaited, own, inner)
      modifies this`log, this`state
      ensures Core() && log == old(log) + [Suspended(c, awaited)] && state == old(state).(waiting := old(state.waiting)[c := awaited])
    {
      hide Logged, Paced, Apart, Running;
      Emit(Suspended(c, awaited));
    }

    lemma NobodyAwaits(awaited: set<nat>)
      requires Valid() && Within(awaited, own, inner)
      requires forall i :: i in awaited ==> tasks[i].started && !tasks[i].done && tasks[i].awaitingCoro == None
      ensures awaited <= Running(state) && Apart(state.waiting, awaited)
    {
      hide Logged;
      forall i | i in awaited
        ensures SlotMatches(tasks[i].awaitingCoro, i, state.waiting)
      {
      }
    }

    /** What the environment does is no concern of the call in progress. */
    lemma OthersArePaced(e: Event)
      requires Core() && (e.Started? || e.Suspended?) && e.coro < root
      ensures job.Some? ==> Paced(job.value, state, e)
    {
      hide Legal, After, Conforms, Sound;
    }

    /** Puts the handle into the slots of these tasks. */
    method LinkAll(d: nat, awaited: set<nat>)
      requires Core() && SlotsMatch(state.waiting) && d !in state.waiting && Apart(state.waiting, awaited)
      modifies tasks`awaitingCoro
      ensures Core() && SlotsMatch(state.waiting[d := awaited])
    {
      hide Logged;
      for k := 0 to |tasks|
        invariant Core()
        invariant forall i :: 0 <= i < |tasks| ==>
          tasks[i].awaitingCoro == if i in awaited && i < k then Some(d) else old(tasks[i].awaitingCoro)
      {
        if k in awaited {
          tasks[k].Link(Some(d));
        }
      }
    }

    /** Whether an environment coroutine is running. */
    predicate Runs(d: nat)
      reads this, tasks
    {
      d < root && forall i :: 0 <= i < |tasks| && !tasks[i].done ==> tasks[i].awaitingCoro != Some(d)
    }

    lemma RunsIsRight(d: nat)
      requires Valid() && Runs(d)
      ensures d !in state.waiting
    {
      hide Logged;
      SoundWaiting();
    }

    /** Whatever the environment may do next. */
    method OtherStep(me: nat) returns (resumed: bool)
      requires Valid() && root <= me && OuterOnly(me)
      modifies this`log, this`state, tasks
      ensures Stepped(me)
      ensures if resumed then me in old(state.waiting) && Woken(me, old(state.waiting[me])) else StillThere(me)
    {
      hide Logged, SlotsMatch, OuterOnly;
      resumed := false;
      var d: nat, i: nat, awaited: set<nat> := *, *, *;
      var choice: nat := *;
      if choice == 0 {
        if i < inner && tasks[i].started && !tasks[i].done {
          resumed := OtherFinishes(tasks[i], me);
        }
      } else if Runs(d) {
        RunsIsRight(d);
        if choice == 1 {
          if i < inner && !tasks[i].started {
            OtherStarts(d, tasks[i], me);
          }
        } else if awaited != {} && forall i :: i in awaited ==>
                    own <= i < inner && tasks[i].started && !tasks[i].done && tasks[i].awaitingCoro == None {
          OtherSuspends(d, awaited, me);
        }
      }
    }

    /** The environment runs for a while: while `me` is running but something
        it called is, or while it is suspended. Then the run ends when a
        finishing task hands control to `me`, or with `me` still suspended. */
    method Others(me: nat) returns (resumed: bool)
      requires Valid() && root <= me && OuterOnly(me)
      modifies this`log, this`state, tasks
      ensures Stepped(me)
      ensures if resumed then me in old(state.waiting) && Woken(me, old(state.waiting[me])) else StillThere(me)
    {
      hide Core, SlotsMatch, Begun;
      var steps :| steps >= 0;
      for k := 0 to steps
        invariant Stepped(me) && StillThere(me)
      {
        resumed := OtherStep(me);
        if resumed {
          return;
        }
      }
      return false;
    }

    // ----- what coroutines of the program do

    /** TaskBase::start. */
    method Start(t: Task, me: nat)
      requires Idle(me) && t in tasks && t.id < inner
      requires !t.started && job.Some? ==> Paced(job.value, state, Started(me, t.id))
      modifies this`log, this`state, tasks
      ensures Idle(me) && Continues() && OuterKept(me) && Uninterrupted() && spare == old(spare) && t.started
      ensures t.id in Begun(state) && Starts({t.id})
    {
      if !t.started {
        StartOnly(t, me);
        var resumed := Others(me);
      }
    }

    method StartOnly(t: Task, me: nat)
      requires Idle(me) && t in tasks && t.id < inner && !t.started
      requires job.Some? ==> Paced(job.value, state, Started(me, t.id))
      modifies this`log, this`state, t`started
      ensures Idle(me) && Continues() && OuterKept(me) && Uninterrupted() && spare == old(spare) && t.started && Starts({t.id})
    {
      hide Logged, Paced;
      t.started := true;
      Emit(Started(me, t.id));
    }

    /** No coroutine but a running one waits for a task of the program, or for
        one that is yet to be created. */
    lemma NobodyHolds(me: nat, awaited: set<nat>)
      requires Core() && state.due.None? && me !in state.waiting && OuterOnly(me)
      requires forall i :: i in awaited ==> i < own || i == spare
      ensures Apart(state.waiting, awaited)
    {
      hide Logged;
      SoundWaiting();
      forall c, i | c in state.waiting && i in awaited
        ensures i !in state.waiting[c]
      {
        if c >= root {
          assert AllInner(state.waiting[c], inner);
        }
      }
    }

    /** AwaiterBase::await_suspend: links the awaiting coroutine, and hands
        control to the task if it was never started. */
    method SuspendOnTask(t: Task, me: nat)
      requires Idle(me) && t in tasks && !t.done && (t.id < own || t.id == spare)
      requires job.Some? && t.id < inner ==>
        t.started && job.value.lo <= t.id < job.value.hi && Covers(Begun(state), job.value.lo, job.value.hi)
      modifies this`log, this`state, this`spare, t
      ensures Valid() && Continues() && OuterKept(me) && t.started
      ensures spare == if t.id < own then old(spare) else old(spare) + 1
      ensures t.id in Begun(state) && state.finished == old(state.finished) && state.waiting == old(state.waiting)[me := {t.id}]
    {
      hide Core, SlotsMatch, Apart, Paced;
      NobodyHolds(me, {t.id});
      Layout();
      LinkOne(t, me);
      if !t.started {
        Launch(t, me);
      }
      StartedRuns(t);
      AwaitIsPaced(t.id, me);
      Suspends(me, {t.id});
    }

    lemma Layout()
      requires Core()
      ensures own <= inner <= spare <= |tasks|
      ensures forall t :: t in tasks && t.id >= spare ==> !t.started
    {
      hide Logged;
    }

    lemma StartedRuns(t: Task)
      requires Core() && t in tasks && t.started && !t.done
      ensures t.id in Running(state)
    {
      hide Logged;
    }

    lemma AwaitIsPaced(i: nat, me: nat)
      requires Core() && (job.Some? && i < inner ==> job.value.lo <= i < job.value.hi && Covers(Begun(state), job.value.lo, job.value.hi))
      ensures job.Some? ==> Paced(job.value, state, Suspended(me, {i}))
    {
      hide Legal, After, Conforms, Sound;
    }

    lemma InnerIsPaced(me: nat, i: nat)
      requires Core() && job.Some? && i >= inner
      ensures Paced(job.value, state, Started(me, i))
    {
      hide Legal, After, Conforms, Sound;
    }

    method LinkOne(t: Task, me: nat)
      requires Idle(me) && t in tasks && Apart(state.waiting, {t.id})
      modifies t`awaitingCoro
      ensures Core() && SlotsMatch(state.waiting[me := {t.id}])
    {
      hide Logged;
      t.Link(Some(me));
    }

    /** The task begins to run because it is awaited. */
    method Launch(t: Task, me: nat)
      requires Core() && t in tasks && !t.started && (t.id < own || t.id == spare) && state.due.None? && me !in state.waiting
      requires job.Some? ==> t.id >= inner
      modifies this`log, this`state, this`spare, t`started
      ensures Core() && t.started && log == old(log) + [Started(me, t.id)]
      ensures state == old(state).(starter := old(state.starter)[t.id := me])
      ensures spare == if t.id == old(spare) then old(spare) + 1 else old(spare)
    {
      hide Logged;
      if job.Some? {
        InnerIsPaced(me, t.id);
      }
      if t.id == spare {
        spare := spare + 1;
      }
      t.started := true;
      Emit(Started(me, t.id));
    }

    /** `co_await task.wait()`. */
    method AwaitTask(t: Task, me: nat) returns (resumed: bool)
      requires Idle(me) && t in tasks && t.id < own
      requires job.Some? ==>
        t.started && job.value.lo <= t.id < job.value.hi && Covers(Begun(state), job.value.lo, job.value.hi)
      modifies this`log, this`state, this`spare, tasks
      ensures Valid() && Continues() && OuterKept(me) && OuterOnly(me) && spare == old(spare)
      ensures resumed ==> Idle(me) && t.done
      ensures !resumed ==> me in state.waiting && state.waiting[me] == {t.id} && !t.done
    {
      hide Core, SlotsMatch, Begun, Woken;
      if t.done {
        return true;
      }
      SuspendOnTask(t, me);
      resumed := Others(me);
      if resumed {
        WokenAlone(t, me);
      } else {
        StillUndone(t, me);
      }
    }

    lemma WokenAlone(t: Task, me: nat)
      requires Core() && Woken(me, {t.id}) && t in tasks
      ensures t.done && me !in state.waiting && SlotsMatch(state.waiting)
    {
      hide Logged, SlotsMatch;
      assert t.id in state.finished;
      SlotsAfter(me, {t.id});
    }

    lemma StillUndone(t: Task, me: nat)
      requires Core() && state.due.None? && t in tasks && me in state.waiting && t.id in state.waiting[me]
      ensures !t.done
    {
      hide Logged;
      SoundWaiting();
    }

    /** Whoever waited for one task has nothing to unlink. */
    lemma SlotsAfter(me: nat, awaited: set<nat>)
      requires Core() && SlotsMatch(state.waiting[me := awaited]) && me !in state.waiting
      requires forall i :: i in awaited ==> i in state.finished
      ensures SlotsMatch(state.waiting)
    {
      hide Logged;
      forall i | 0 <= i < |tasks| && !tasks[i].done
        ensures SlotMatches(tasks[i].awaitingCoro, i, state.waiting)
      {
        OneLess(tasks[i].awaitingCoro, i, state.waiting, me, awaited);
      }
    }

    /** A coroutine created by `me` returns: its task is done, and `me`, which
        waits for it, goes on. */
    method ReturnTo(t: Task, me: nat)
      requires Idle(me + 1) && root <= me && me in state.waiting && state.waiting[me] == {t.id}
      requires t in tasks && t.id >= inner && t.started && !t.done
      modifies this`log, this`state, t`done
      ensures Idle(me) && Continues() && spare == old(spare)
      ensures state.starter == old(state.starter) && state.finished == old(state.finished) + {t.id}
      ensures state.waiting == old(state.waiting) - {me}
    {
      hide Core, SlotsMatch, Begun;
      ghost var before := state;
      HeldBy(t, me);
      var next := FinalSuspend(t);
      assert state.waiting[me := {t.id}] == before.waiting;
      SlotsAfter(me, {t.id});
    }

    lemma HeldBy(t: Task, me: nat)
      requires Valid() && t in tasks && !t.done && me in state.waiting && t.id in state.waiting[me]
      ensures t.awaitingCoro == Some(me)
    {
      hide Logged;
      SoundWaiting();
      assert SlotMatches(tasks[t.id].awaitingCoro, t.id, state.waiting);
    }

    /** AnyAwaiter::await_suspend, and the suspension itself. */
    method SuspendOn(aw: AnyAwaiter, me: nat)
      requires Idle(me)
      requires forall t :: t in aw.tasks ==> t in tasks && t.id < own && t.started && !t.done
      requires job.Some? ==> Paced(job.value, state, Suspended(me, Ids(aw.tasks)))
      modifies this`log, this`state, tasks`awaitingCoro
      ensures Valid() && Continues() && OuterKept(me) && OuterOnly(me)
      ensures state == old(state).(waiting := old(state.waiting)[me := Ids(aw.tasks)])
    {
      hide Logged, Paced, Apart;
      NobodyHolds(me, Ids(aw.tasks));
      AwaitedRun(aw);
      LinkAny(aw, me);
      Suspends(me, Ids(aw.tasks));
    }

    lemma AwaitedRun(aw: AnyAwaiter)
      requires Core() && forall t :: t in aw.tasks ==> t in tasks && t.started && !t.done
      ensures Ids(aw.tasks) <= Running(state)
    {
      hide Logged;
    }

    method LinkAny(aw: AnyAwaiter, me: nat)
      requires Idle(me) && Apart(state.waiting, Ids(aw.tasks)) && forall t :: t in aw.tasks ==> t in tasks
      modifies tasks`awaitingCoro
      ensures Core() && SlotsMatch(state.waiting[me := Ids(aw.tasks)])
    {
      hide Logged;
      aw.AwaitSuspend(me);
      forall i | 0 <= i < |tasks|
        ensures i in Ids(aw.tasks) <==> tasks[i] in aw.tasks
      {
      }
    }

    /** AnyAwaiter::await_resume: no unfinished task stays linked. */
    method ResumeFrom(aw: AnyAwaiter, me: nat) returns (r: Result<Task>)
      requires Core() && state.due.None? && root <= me && me !in state.waiting && OuterOnly(me)
      requires forall t :: t in aw.tasks ==> t in tasks && t.id < own
      requires SlotsMatch(state.waiting) || SlotsMatch(state.waiting[me := Ids(aw.tasks)])
      requires exists t :: t in aw.tasks && t.done
      modifies tasks`awaitingCoro, aw
      ensures Idle(me)
      ensures r.Ok? && r.value in old(aw.tasks) && r.value.done
      ensures aw.tasks == (set t | t in old(aw.tasks) && !t.done) && |aw.tasks| < old(|aw.tasks|)
    {
      hide Core, SlotsMatch, OuterOnly;
      ghost var awaited := aw.tasks;
      r := ResumeSlots(aw, me);
      assert aw.tasks <= awaited - {r.value};
      SubsetSize(aw.tasks, awaited - {r.value});
    }

    method ResumeSlots(aw: AnyAwaiter, me: nat) returns (r: Result<Task>)
      requires Core() && state.due.None? && root <= me && me !in state.waiting && OuterOnly(me)
      requires forall t :: t in aw.tasks ==> t in tasks && t.id < own
      requires SlotsMatch(state.waiting) || SlotsMatch(state.waiting[me := Ids(aw.tasks)])
      modifies tasks`awaitingCoro, aw
      ensures Core() && SlotsMatch(state.waiting)
      ensures aw.tasks == (set t | t in old(aw.tasks) && !t.done)
      ensures r.Ok? <==> exists t :: t in old(aw.tasks) && t.done
      ensures r.Ok? ==> r.value in old(aw.tasks) && r.value.done
    {
      hide Logged, OuterOnly;
      ghost var awaited := aw.tasks;
      NobodyHolds(me, Ids(aw.tasks));
      r := aw.AwaitResume();
      forall i | 0 <= i < |tasks| && !tasks[i].done
        ensures SlotMatches(tasks[i].awaitingCoro, i, state.waiting)
      {
        if tasks[i] in awaited {
          assert i in Ids(awaited);
        } else {
          assert i !in Ids(awaited);
          assert tasks[i].awaitingCoro == old(tasks[i].awaitingCoro);
          if !SlotMatches(tasks[i].awaitingCoro, i, state.waiting) {
            OneLess(tasks[i].awaitingCoro, i, state.waiting, me, Ids(awaited));
          }
        }
      }
    }

    /** The suspension of an AnyAwaiter: it ends with the first of its tasks
        that finishes. */
    method SuspendUntilFirst(aw: AnyAwaiter, me: nat) returns (resumed: bool)
      requires Idle(me)
      requires forall t :: t in aw.tasks ==> t in tasks && t.id < own && t.started && !t.done
      requires job.Some? ==> Paced(job.value, state, Suspended(me, Ids(aw.tasks)))
      modifies this`log, this`state, tasks
      ensures Core() && state.due.None? && Continues() && OuterKept(me) && OuterOnly(me) && Starts({})
      ensures resumed ==>
        && me !in state.waiting && SlotsMatch(state.waiting[me := Ids(aw.tasks)])
        && exists t :: t in aw.tasks && t.done && JustResumed(me, t.id) && OnlyDone(aw.tasks, t)
      ensures !resumed ==> Valid() && me in state.waiting && state.waiting[me] == Ids(aw.tasks)
    {
      hide Core, SlotsMatch, Paced, Begun, Ids;
      SuspendOn(aw, me);
      resumed := Others(me);
      if resumed {
        FirstDone(aw, me);
      }
    }

    lemma FirstDone(aw: AnyAwaiter, me: nat)
      requires Core() && Woken(me, Ids(aw.tasks)) && forall t :: t in aw.tasks ==> t in tasks
      ensures exists t :: t in aw.tasks && t.done && JustResumed(me, t.id) && OnlyDone(aw.tasks, t)
    {
      hide Logged, SlotsMatch;
      var i: nat :| JustResumed(me, i) && Ids(aw.tasks) * state.finished == {i};
      assert i in Ids(aw.tasks);
      var t :| t in aw.tasks && t.id == i;
      forall u | u in aw.tasks && u.done
        ensures u == t
      {
        assert u.id in Ids(aw.tasks) * state.finished;
      }
      assert OnlyDone(aw.tasks, t);
    }

    /** `co_await aw` for an AnyAwaiter; `None` while it is still suspended. It
        returns at once if a task is already done, and otherwise with the
        first task that finishes. */
    method AwaitAny(aw: AnyAwaiter, me: nat) returns (r: Option<Result<Task>>)
      requires Idle(me)
      requires forall t :: t in aw.tasks ==> t in tasks && t.id < own && t.started
      requires job.Some? ==> Paced(job.value, state, Suspended(me, Ids(aw.tasks)))
      modifies this`log, this`state, tasks, aw
      ensures Valid() && Continues() && OuterKept(me) && OuterOnly(me) && Starts({})
      ensures r.Some? ==>
        && Idle(me) && r.value.Ok? && r.value.value in old(aw.tasks) && r.value.value.done
        && aw.tasks == (set t | t in old(aw.tasks) && !t.done) && |aw.tasks| < old(|aw.tasks|)
      ensures r.None? ==> me in state.waiting && state.waiting[me] == Ids(aw.tasks) && aw.tasks == old(aw.tasks)
      ensures old(AnyDone(aw.tasks)) ==> r.Some? && log == old(log) && state == old(state)
      ensures !old(AnyDone(aw.tasks)) && r.Some? ==>
        JustResumed(me, r.value.value.id) && OnlyDone(old(aw.tasks), r.value.value)
    {
      hide Core, SlotsMatch, Paced, Begun, Ids, OuterOnly;
      var ready := aw.AwaitReady();
      assert ready.Ok?;  // the check of await_ready never fails
      if !ready.value {
        var resumed := SuspendUntilFirst(aw, me);
        if !resumed {
          return None;
        }
      }
      var first := ResumeFrom(aw, me);
      return Some(first);
    }
  }

  ghost predicate AnyDone(ts: set<Task>)
    reads ts
  {
    exists t :: t in ts && t.done
  }

  /** No other of these tasks is done. */
  ghost predicate OnlyDone(ts: set<Task>, task: Task)
    reads ts
  {
    forall t :: t in ts && t.done ==> t == task
  }

  ghost predicate SlotMatches(slot: Option<nat>, i: nat, waiting: map<nat, set<nat>>) {
    match slot
    case Some(c) => c in waiting && i in waiting[c]
    case None => forall c :: c in waiting ==> i !in waiting[c]
  }

  lemma OneLess(slot: Option<nat>, i: nat, waiting: map<nat, set<nat>>, me: nat, awaited: set<nat>)
    requires SlotMatches(slot, i, waiting[me := awaited]) && me !in waiting && i !in awaited
    ensures SlotMatches(slot, i, waiting)
  {
    forall c | c in waiting
      ensures waiting[me := awaited][c] == waiting[c]
    {
    }
  }

  lemma SlotTells(s: State, slot: Option<nat>, i: nat)
    requires Sound(s) && SlotMatches(slot, i, s.waiting)
    ensures WaiterOf(s, i) == slot
  {
    if slot.Some? {
      WaiterIsUnique(s, slot.value, i);
    }
  }

  /** The positions of some tasks in the scheduler's list. */
  ghost function Ids(ts: set<Task>): set<nat> {
    set t | t in ts :: t.id
  }

  lemma {:induction false} IdsSize(ts: set<Task>)
    requires forall t, u :: t in ts && u in ts && t.id == u.id ==> t == u
    ensures |Ids(ts)| == |ts|
    decreases ts
  {
    if ts != {} {
      var t :| t in ts;
      IdsSize(ts - {t});
      assert Ids(ts) == Ids(ts - {t}) + {t.id};
    }
  }

  class AnyAwaiter {
    var tasks: set<Task>

    constructor ()
      ensures tasks == {}
    {
      tasks := {};
    }

    method AddTask(t: Task)
      modifies this
      ensures tasks == old(tasks) + {t}
    {
      tasks := tasks + {t};
    }

    method AwaitReady() returns (r: Result<bool>)
      ensures r == Ok(true) ==> exists t :: t in tasks && t.done
      ensures r == Ok(false) ==> forall t :: t in tasks ==> t.started && !t.done
      ensures r.Err? ==> exists t :: t in tasks && !t.started && !t.done
    {
      var todo := tasks;
      while todo != {}
        invariant todo <= tasks
        invariant forall t :: t in tasks - todo ==> t.started && !t.done
        decreases todo
      {
        var t :| t in todo;
        if t.done {
          return Ok(true);
        }
        if !t.started {
          return Err(LogicError);
        }
        todo := todo - {t};
      }
      return Ok(false);
    }

    method AwaitSuspend(coro: nat)
      modifies tasks`awaitingCoro
      ensures forall t :: t in tasks ==> t.awaitingCoro == Some(coro)
    {
      var todo := tasks;
      while todo != {}
        invariant todo <= tasks
        invariant forall t :: t in tasks - todo ==> t.awaitingCoro == Some(coro)
        decreases todo
      {
        var t :| t in todo;
        t.Link(Some(coro));
        todo := todo - {t};
      }
    }

    /** Drops the finished tasks, unlinks the others and returns the first
        finished task it meets. */
    method AwaitResume() returns (r: Result<Task>)
      modifies this, tasks`awaitingCoro
      ensures tasks == set t | t in old(tasks) && !t.done
      ensures forall t :: t in tasks ==> t.awaitingCoro == None
      ensures r.Ok? <==> exists t :: t in old(tasks) && t.done
      ensures r.Ok? ==> r.value in old(tasks) && r.value.done
    {
      var ret: Option<Task> := None;
      var todo := tasks;
      ghost var all := tasks;
      while todo != {}
        invariant todo <= tasks <= all == old(tasks)
        invariant tasks == set t | t in all && (t in todo || !t.done)
        invariant forall t :: t in tasks - todo ==> t.awaitingCoro == None
        invariant ret.Some? ==> ret.value in all && ret.value.done
        invariant ret.None? ==> forall t :: t in all - todo ==> !t.done
        decreases todo
      {
        var t :| t in todo;
        if t.done {
          if ret.None? {
            ret := Some(t);
          }
          tasks := tasks - {t};
        } else {
          t.Link(None);
        }
        todo := todo - {t};
      }
      if ret.None? {
        return Err(LogicError);
      }
      return Ok(ret.value);
    }
  }
}
