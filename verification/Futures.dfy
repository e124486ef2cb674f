/** `Future` of src/Future.hh under re-entrant use.

    In a program (`Programs`), waiting is awaiting the future and acting is
    resolving it. Resolving resumes all waiters on the spot, so their programs
    run nested inside the resolution and may await or try to resolve the same
    future again.
 */
module Futures {
  import opened Results
  import opened WaitLists
  import opened Programs

  datatype Outcome<T> = Value(value: T) | Exception(id: int) | Canceled

  class Future<T> {
    var value: Option<Outcome<T>>
    var waiters: WaitList<Waiter<Outcome<T>>>
    /** The value it was born with, if any. */
    ghost const born: Option<T>
    /** All outcomes somebody tried to resolve it with, in that order. */
    ghost var tried: seq<Outcome<T>>
    ghost var begun: nat
    /** The awaits that `resume_awaiters` resumed, in that order. */
    ghost var woken: seq<nat>
    /** What each finished await returned or threw. */
    ghost var got: map<nat, Outcome<T>>

    ghost predicate Valid()
      reads this
    {
      // the first outcome counts
      && value == (if born.Some? then Some(Value(born.value)) else if tried != [] then Some(tried[0]) else None)
      // the cursor names the tail as long as anything may still suspend
      && (value.None? ==> waiters.AtTail() && woken == [] && begun == |waiters.nodes|)
      && |woken| + |waiters.nodes| <= begun
      && (forall j :: 0 <= j < |woken| ==> woken[j] == j)
      && (forall j :: 0 <= j < |waiters.nodes| ==> waiters.nodes[j].ticket == |woken| + j)
      && (forall n :: n in got <==> 0 <= n < begun && !(|woken| <= n < |woken| + |waiters.nodes|))
      && (forall n :: n in got ==> value == Some(got[n]))
    }

    /** Everything that began to await has been answered. */
    ghost predicate Settled()
      reads this
    {
      Valid() && (value.Some? ==> waiters.nodes == [])
    }

    /** What has been done and what the suspended coroutines have yet to do. */
    ghost function Effort(): nat
      reads this
    {
      begun + |tried| + Pending(waiters.nodes)
    }

    ghost function Attempts(): multiset<Outcome<T>>
      reads this
    {
      multiset(tried) + PendingActions(waiters.nodes)
    }

    constructor ()
      ensures Settled() && born == None && begun == 0 && woken == [] && tried == [] && waiters.nodes == []
    {
      value, waiters := None, WaitList([], BeforeBegin);
      born, tried, begun, woken, got := None, [], 0, [], map[];
    }

    /** A future that is born with its value; its cursor is never set. */
    constructor Resolved(v: T)
      ensures Settled() && born == Some(v) && begun == 0 && woken == [] && tried == [] && waiters.nodes == []
    {
      value, waiters := Some(Value(v)), WaitList([], Dangling);
      born, tried, begun, woken, got := Some(v), [], 0, [], map[];
    }

    twostate predicate ResolvedOnce()
      reads this
    {
      && (old(value.Some?) ==> value == old(value) && waiters == old(waiters) && woken == old(woken))
      && old(got.Keys) <= got.Keys && old(begun) <= begun && old(tried) <= tried
    }

    /** await_suspend. */
    method Suspend(after: seq<Op<Outcome<T>>>)
      requires Valid() && value.None?
      modifies this
      ensures Valid() && value.None? && got == old(got) && begun == old(begun) + 1 && tried == old(tried)
      ensures Pending(waiters.nodes) == old(Pending(waiters.nodes)) + Size(after)
      ensures PendingActions(waiters.nodes) == old(PendingActions(waiters.nodes)) + Actions(after)
    {
      PendingAppend(waiters.nodes, Waiter(begun, after));
      EmplaceAtTail(waiters, Waiter(begun, after));
      waiters := waiters.EmplaceAfter(Waiter(begun, after));
      begun := begun + 1;
    }

    /** One turn of `resume_awaiters` up to the await_resume of the waiter;
        the result is how that waiter goes on. */
    method WakeFirst() returns (after: seq<Op<Outcome<T>>>)
      requires Valid() && value.Some? && waiters.nodes != []
      modifies this
      ensures Valid() && value == old(value) && begun == old(begun) && old(got.Keys) <= got.Keys && tried == old(tried)
      ensures woken == old(woken) + [|old(woken)|] && waiters.nodes == old(waiters.nodes)[1..]
      ensures Size(after) + Pending(waiters.nodes) == old(Pending(waiters.nodes))
      ensures Actions(after) + PendingActions(waiters.nodes) == old(PendingActions(waiters.nodes))
    {
      var w := waiters.nodes[0];
      waiters := waiters.PopFront();
      woken, got := woken + [w.ticket], got[w.ticket := value.value];
      after := w.after;
    }

    method ResumeAwaiters()
      requires Valid() && value.Some?
      modifies this
      ensures Settled() && value == old(value) && old(begun) <= begun && old(got.Keys) <= got.Keys && old(tried) <= tried
      ensures |woken| == old(|woken| + |waiters.nodes|)
      ensures Effort() == old(Effort()) && Attempts() == old(Attempts())
      decreases 1 + Pending(waiters.nodes), 0
    {
      while waiters.nodes != []
        invariant Valid() && value == old(value) && old(begun) <= begun && old(got.Keys) <= got.Keys && old(tried) <= tried
        invariant |woken| + |waiters.nodes| == old(|woken| + |waiters.nodes|)
        invariant Pending(waiters.nodes) <= old(Pending(waiters.nodes))
        invariant Effort() == old(Effort()) && Attempts() == old(Attempts())
        decreases |waiters.nodes|
      {
        var after := WakeFirst();
        Run(after);
      }
    }

    /** set_result, set_exception and cancel. */
    method SetOutcome(outcome: Outcome<T>) returns (r: Result<()>)
      requires Valid()
      modifies this
      ensures old(value.Some?) ==> r == Err(LogicError) && ResolvedOnce() && Valid()
      ensures old(value.None?) ==> r == Ok(()) && value == Some(outcome) && Settled()
                                   && woken == seq(|woken|, i => i) && |woken| == old(|waiters.nodes|)
      ensures old(got.Keys) <= got.Keys && old(begun) <= begun && old(tried) + [outcome] <= tried
      ensures Pending(waiters.nodes) <= old(Pending(waiters.nodes))
      ensures Effort() == old(Effort()) + 1 && Attempts() == old(Attempts()) + multiset{outcome}
      decreases 1 + Pending(waiters.nodes), 1
    {
      tried := tried + [outcome];
      if value.Some? {
        return Err(LogicError);
      }
      value := Some(outcome);
      ResumeAwaiters();
      return Ok(());
    }

    /** One operation with everything nested in it. The operation itself comes
        first, and nothing it entails is lost, invented or done twice: what
        has been done and what is left add up. */
    method Step(op: Op<Outcome<T>>)
      requires Valid()
      modifies this
      ensures Valid() && ResolvedOnce()
      ensures old(Settled()) ==> Settled()
      ensures Pending(waiters.nodes) < old(Pending(waiters.nodes)) + OpSize(op)
      ensures Effort() == old(Effort()) + OpSize(op) && Attempts() == old(Attempts()) + OpActions(op)
      ensures op.Wait? ==> old(begun) < begun
      ensures op.Act? ==> old(tried) + [op.action] <= tried
      ensures op.Act? && old(value.None?) ==> value == Some(op.action)
      decreases OpSize(op) + Pending(waiters.nodes), 2
    {
      match op {
        case Wait(after) =>
          if value.Some? {
            // await_ready: the outcome is returned or thrown at once
            begun, got := begun + 1, got[begun := value.value];
            Run(after);
          } else {
            Suspend(after);
          }
        case Act(outcome) =>
          var r := SetOutcome(outcome);
      }
    }

    method Run(ops: seq<Op<Outcome<T>>>)
      requires Valid()
      modifies this
      ensures Valid() && ResolvedOnce()
      ensures old(Settled()) ==> Settled()
      ensures Pending(waiters.nodes) <= old(Pending(waiters.nodes)) + Size(ops)
      ensures Effort() == old(Effort()) + Size(ops) && Attempts() == old(Attempts()) + Actions(ops)
      decreases Size(ops) + Pending(waiters.nodes), 3
    {
      if ops != [] {
        assert Size(ops) == OpSize(ops[0]) + Size(ops[1..]);
        Step(ops[0]);
        Run(ops[1..]);
      }
    }
  }

  /** Every program on a new future, which may be born with a value. If it has
      a value, that is the one it was born with or else the first anybody
      tried; all who ever awaited it got that outcome, and those who were
      suspended were resumed once each, in the order in which they began; then
      the program has been carried out completely. Otherwise nobody resolved
      it, nobody got anything, and all that is left is what the suspended
      coroutines have in front of them. */
  method Execute<T>(born: Option<T>, ops: seq<Op<Outcome<T>>>) returns (f: Future<T>)
    ensures fresh(f) && f.Settled() && f.born == born
    ensures f.value == if born.Some? then Some(Value(born.value)) else if f.tried != [] then Some(f.tried[0]) else None
    ensures f.value.Some? ==> forall n :: 0 <= n < f.begun ==> n in f.got && f.got[n] == f.value.value
    ensures f.value.None? ==> f.got == map[] && f.woken == []
    ensures forall j :: 0 <= j < |f.woken| ==> f.woken[j] == j
    ensures f.Effort() == Size(ops) && f.Attempts() == Actions(ops)
    ensures f.value.Some? ==> f.begun + |f.tried| == Size(ops) && multiset(f.tried) == Actions(ops)
  {
    if born.Some? {
      f := new Future.Resolved(born.value);
    } else {
      f := new Future();
    }
    f.Run(ops);
  }
}
