/** Re-entrant programs over one shared object.

    A program is a list of operations; one that waits carries the program its
    coroutine goes on with once it is resumed. Whoever resumes it runs that
    program nested inside its own operation.
 */
module Programs {

  datatype Op<A> = Wait(after: seq<Op<A>>) | Act(action: A)

  function Size<A>(ops: seq<Op<A>>): nat {
    if ops == [] then 0 else OpSize(ops[0]) + Size(ops[1..])
  }

  function OpSize<A>(op: Op<A>): nat {
    match op
    case Wait(after) => 1 + Size(after)
    case Act(_) => 1
  }

  /** A suspended operation: the how-manieth one that waits it is, and how its
      coroutine goes on. */
  datatype Waiter<A> = Waiter(ghost ticket: nat, after: seq<Op<A>>)

  /** What the suspended coroutines have yet to do. */
  function Pending<A>(waiters: seq<Waiter<A>>): nat {
    if waiters == [] then 0 else Size(waiters[0].after) + Pending(waiters[1..])
  }

  /** The actions of a program, with those of the coroutines it suspends. */
  ghost function Actions<A>(ops: seq<Op<A>>): multiset<A> {
    if ops == [] then multiset{} else OpActions(ops[0]) + Actions(ops[1..])
  }

  ghost function OpActions<A>(op: Op<A>): multiset<A> {
    match op
    case Wait(after) => Actions(after)
    case Act(a) => multiset{a}
  }

  ghost function PendingActions<A>(waiters: seq<Waiter<A>>): multiset<A> {
    if waiters == [] then multiset{} else Actions(waiters[0].after) + PendingActions(waiters[1..])
  }

  lemma {:induction false} PendingAppend<A>(waiters: seq<Waiter<A>>, w: Waiter<A>)
    ensures Pending(waiters + [w]) == Pending(waiters) + Size(w.after)
    ensures PendingActions(waiters + [w]) == PendingActions(waiters) + Actions(w.after)
  {
    if waiters == [] {
      assert waiters + [w] == [w];
    } else {
      PendingAppend(waiters[1..], w);
      assert (waiters + [w])[1..] == waiters[1..] + [w];
    }
  }
}
