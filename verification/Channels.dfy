/** `Channel` of src/Channel.hh under re-entrant use.

    In a program (`Programs`), waiting is reading and acting is writing an item.
    `write` resumes a waiting reader on the spot, so the rest of the reader's
    program runs nested inside the write.
 */
module Channels {
  import opened WaitLists
  import opened Programs

  // ----- what a caller can see: the order in which reads and writes began

  datatype Kind = R | W

  /** Reads minus writes. */
  function Depth(h: seq<Kind>): int {
    if h == [] then 0 else Depth(h[..|h| - 1]) + (if h[|h| - 1] == R then 1 else -1)
  }

  /** At some point readers were waiting, and later none were. */
  ghost predicate Drained(h: seq<Kind>) {
    h != [] && (Drained(h[..|h| - 1]) || (Depth(h[..|h| - 1]) > 0 && Depth(h) <= 0))
  }

  /** The next read would suspend after the waiter list was emptied once. */
  ghost predicate ReadIsUndefined(h: seq<Kind>) {
    Drained(h) && Depth(h) == 0
  }

  ghost predicate WellDefined(h: seq<Kind>) {
    h != [] ==> WellDefined(h[..|h| - 1]) && (h[|h| - 1] == R ==> !ReadIsUndefined(h[..|h| - 1]))
  }

  lemma HistoryStep(h: seq<Kind>, k: Kind)
    ensures Depth(h + [k]) == Depth(h) + (if k == R then 1 else -1)
    ensures Drained(h + [k]) <==> Drained(h) || (Depth(h) > 0 && Depth(h + [k]) <= 0)
    ensures WellDefined(h + [k]) <==> WellDefined(h) && (k == R ==> !ReadIsUndefined(h))
  {
    assert (h + [k])[..|h|] == h;
  }

  /** Readers waited up to `i`, none did at `j`, and some do again at `k`. */
  ghost predicate TwoStretches(h: seq<Kind>, i: nat, j: nat, k: nat) {
    i <= j <= k <= |h| && Depth(h[..i]) > 0 && Depth(h[..j]) <= 0 && Depth(h[..k]) > 0
  }

  lemma {:induction false} FindDrain(h: seq<Kind>) returns (i: nat, j: nat)
    requires Drained(h)
    ensures i <= j <= |h| && Depth(h[..i]) > 0 && Depth(h[..j]) <= 0
  {
    var init := h[..|h| - 1];
    if Drained(init) {
      i, j := FindDrain(init);
      assert init[..i] == h[..i] && init[..j] == h[..j];
    } else {
      i, j := |init|, |h|;
      assert h[..|h|] == h;
    }
  }

  lemma {:induction false} DrainIsFound(h: seq<Kind>, i: nat, j: nat)
    requires i <= j <= |h| && Depth(h[..i]) > 0 && Depth(h[..j]) <= 0
    ensures Drained(h)
  {
    var init := h[..|h| - 1];
    if j == |h| {
      assert h[..|h|] == h && h[..|init|] == init;
      if Depth(init) <= 0 {
        assert init[..i] == h[..i] && init[..|init|] == init;
        DrainIsFound(init, i, |init|);
      }
    } else {
      assert init[..i] == h[..i] && init[..j] == h[..j];
      DrainIsFound(init, i, j);
    }
  }

  lemma {:induction false} FindStretches(h: seq<Kind>) returns (i: nat, j: nat, k: nat)
    requires !WellDefined(h)
    ensures TwoStretches(h, i, j, k)
  {
    var init := h[..|h| - 1];
    if WellDefined(init) {
      i, j := FindDrain(init);
      k := |h|;
      assert init[..i] == h[..i] && init[..j] == h[..j] && h[..|h|] == h;
    } else {
      i, j, k := FindStretches(init);
      assert init[..i] == h[..i] && init[..j] == h[..j] && init[..k] == h[..k];
    }
  }

  lemma {:induction false} StretchesAreFound(h: seq<Kind>, i: nat, j: nat, k: nat)
    requires TwoStretches(h, i, j, k)
    ensures !WellDefined(h)
  {
    var init := h[..|h| - 1];
    assert init[..i] == h[..i];
    if k < |h| {
      assert init[..j] == h[..j] && init[..k] == h[..k];
      StretchesAreFound(init, i, j, k);
    } else {
      assert h[..|h|] == h && init[..|init|] == init && init[..j] == h[..j];
      if Depth(init) > 0 {
        StretchesAreFound(init, i, j, |init|);
      } else {
        DrainIsFound(init, i, j);
      }
    }
  }

  /** A run is well defined if and only if the times at which readers wait
      form a single stretch. */
  lemma WellDefinedMeansOneStretch(h: seq<Kind>)
    ensures WellDefined(h) <==> forall i: nat, j: nat, k: nat :: !TwoStretches(h, i, j, k)
  {
    if !WellDefined(h) {
      var i, j, k := FindStretches(h);
    }
    forall i: nat, j: nat, k: nat | TwoStretches(h, i, j, k)
      ensures !WellDefined(h)
    {
      StretchesAreFound(h, i, j, k);
    }
  }

  /** The smallest run that is not: a read that waits, the write that wakes
      it, and another read. */
  lemma SecondBlockingReadIsUndefined()
    ensures WellDefined([R, W]) && ReadIsUndefined([R, W]) && !WellDefined([R, W, R])
  {
    HistoryStep([], R);
    HistoryStep([R], W);
    HistoryStep([R, W], R);
    assert [] + [R] == [R] && [R] + [W] == [R, W] && [R, W] + [R] == [R, W, R];
  }

  class Channel<T> {
    var queue: seq<T>
    var waiters: WaitList<Waiter<T>>
    ghost var history: seq<Kind>
    ghost var written: seq<T>
    ghost var begun: nat
    /** Which item each finished read returned. */
    ghost var got: map<nat, T>

    ghost predicate Valid()
      reads this
    {
      && waiters.Valid()
      && (queue == [] || waiters.nodes == [])
      // reads are answered in the order in which they began
      && |waiters.nodes| <= begun
      && (forall j :: 0 <= j < |waiters.nodes| ==> waiters.nodes[j].ticket == Answered() + j)
      && (forall n :: n in got <==> 0 <= n < Answered())
      && (forall n :: 0 <= n < Answered() <= |written| ==> got[n] == written[n])
      // and the items in the order in which they were written
      && Answered() + |queue| == |written| && queue == written[Answered()..]
      // the cursor dangles exactly if the list was emptied once
      && Depth(history) == begun - |written| && |history| == begun + |written|
      && (waiters.cursor == Dangling <==> Drained(history))
      && (waiters.cursor == BeforeBegin ==> !Drained(history) && waiters.nodes == [])
      && WellDefined(history)
    }

    ghost function Answered(): int
      reads this
    {
      begun - |waiters.nodes|
    }

    constructor ()
      ensures Valid() && history == [] && written == [] && begun == 0 && got == map[]
    {
      queue, waiters := [], WaitList([], BeforeBegin);
      history, written, begun, got := [], [], 0, map[];
    }

    /** What has been done and what the suspended readers have yet to do. */
    ghost function Effort(): nat
      reads this
    {
      |history| + Pending(waiters.nodes)
    }

    ghost function Items(): multiset<T>
      reads this
    {
      multiset(written) + PendingActions(waiters.nodes)
    }

    /** ReadAwaiter::await_ready and await_resume on a non-empty queue. */
    method TakeItem()
      requires Valid() && queue != []
      modifies this
      ensures Valid() && history == old(history) + [R] && written == old(written)
      ensures waiters == old(waiters) && got.Keys == old(got.Keys) + {old(begun)}
      ensures Effort() == old(Effort()) + 1 && Items() == old(Items())
    {
      hide Depth, Drained, WellDefined;
      HistoryStep(history, R);
      ghost var ticket := begun;
      var item := queue[0];
      queue := queue[1..];
      begun, got, history := begun + 1, got[ticket := item], history + [R];
    }

    /** ReadAwaiter::await_suspend. */
    method Suspend(after: seq<Op<T>>)
      requires Valid() && queue == [] && waiters.cursor != Dangling
      modifies this
      ensures Valid() && history == old(history) + [R] && written == old(written) && got == old(got)
      ensures Pending(waiters.nodes) == old(Pending(waiters.nodes)) + Size(after)
      ensures Effort() == old(Effort()) + 1 + Size(after) && Items() == old(Items()) + Actions(after)
    {
      hide Depth, Drained, WellDefined;
      HistoryStep(history, R);
      PendingAppend(waiters.nodes, Waiter(begun, after));
      EmplaceAtTail(waiters, Waiter(begun, after));
      waiters := waiters.EmplaceAfter(Waiter(begun, after));
      begun, history := begun + 1, history + [R];
    }

    /** `write` up to the point where a resumed reader has its item; the
        result is how that reader goes on, or `[]` if nobody was waiting. */
    method Deliver(item: T) returns (after: seq<Op<T>>)
      requires Valid()
      modifies this
      ensures Valid() && history == old(history) + [W] && written == old(written) + [item]
      ensures old(got.Keys) <= got.Keys
      ensures Size(after) + Pending(waiters.nodes) == old(Pending(waiters.nodes))
      ensures Actions(after) + PendingActions(waiters.nodes) == old(PendingActions(waiters.nodes))
    {
      hide Depth, Drained, WellDefined;
      HistoryStep(history, W);
      queue := queue + [item];
      written, history := written + [item], history + [W];
      after := [];
      if waiters.nodes != [] {
        var w := waiters.nodes[0];
        waiters := waiters.PopFront();
        var taken := queue[0];
        queue := queue[1..];
        got := got[w.ticket := taken];
        after := w.after;
      }
    }

    /** The dangling iterator is used exactly by the reads a caller can tell
        beforehand: the list was emptied once and no item is there. */
    lemma UndefinedReads()
      requires Valid()
      ensures queue == [] && waiters.cursor == Dangling <==> ReadIsUndefined(history)
    {
    }

    /** Runs one operation and everything nested in it; false if the run came
        to an insertion through the dangling iterator. The operation itself
        comes first, and nothing it entails is lost, invented or done twice:
        what has been done and what is left add up. */
    method Step(op: Op<T>) returns (defined: bool)
      requires Valid()
      modifies this
      ensures Valid() && old(history) <= history && old(written) <= written
      ensures old(got.Keys) <= got.Keys
      ensures Pending(waiters.nodes) < old(Pending(waiters.nodes)) + OpSize(op)
      ensures !defined ==> ReadIsUndefined(history) && Effort() < old(Effort()) + OpSize(op)
      ensures defined ==> Effort() == old(Effort()) + OpSize(op) && Items() == old(Items()) + OpActions(op)
      ensures op.Wait? ==> if old(ReadIsUndefined(history)) then !defined && history == old(history) else old(history) + [R] <= history
      ensures op.Act? ==> old(history) + [W] <= history && old(written) + [op.action] <= written
      decreases OpSize(op) + Pending(waiters.nodes), 0
    {
      hide Valid, ReadIsUndefined, Effort, Items;
      match op
      case Wait(after) => defined := StepRead(after);
      case Act(item) => defined := StepWrite(item);
    }

    method StepRead(after: seq<Op<T>>) returns (defined: bool)
      requires Valid()
      modifies this
      ensures Valid() && old(history) <= history && old(written) <= written
      ensures old(got.Keys) <= got.Keys
      ensures Pending(waiters.nodes) <= old(Pending(waiters.nodes)) + Size(after)
      ensures !defined ==> ReadIsUndefined(history) && Effort() < old(Effort()) + 1 + Size(after)
      ensures defined ==> Effort() == old(Effort()) + 1 + Size(after) && Items() == old(Items()) + Actions(after)
      ensures if old(ReadIsUndefined(history)) then !defined && history == old(history) else old(history) + [R] <= history
      decreases Size(after) + Pending(waiters.nodes), 2
    {
      hide Valid, ReadIsUndefined, Effort, Items;
      UndefinedReads();
      if queue != [] {
        TakeItem();
        defined := Run(after);
      } else if waiters.cursor == Dangling {
        defined := false;
      } else {
        Suspend(after);
        defined := true;
      }
    }

    method StepWrite(item: T) returns (defined: bool)
      requires Valid()
      modifies this
      ensures Valid() && old(history) + [W] <= history && old(written) + [item] <= written
      ensures old(got.Keys) <= got.Keys
      ensures Pending(waiters.nodes) <= old(Pending(waiters.nodes))
      ensures !defined ==> ReadIsUndefined(history) && Effort() < old(Effort()) + 1
      ensures defined ==> Effort() == old(Effort()) + 1 && Items() == old(Items()) + multiset{item}
      decreases Pending(waiters.nodes), 2
    {
      hide Valid, ReadIsUndefined, Effort, Items;
      var after := DeliverAll(item);
      defined := Run(after);
    }

    /** The same as `Deliver`, with the accounts. */
    method DeliverAll(item: T) returns (after: seq<Op<T>>)
      requires Valid()
      modifies this
      ensures Valid() && history == old(history) + [W] && written == old(written) + [item]
      ensures old(got.Keys) <= got.Keys
      ensures Size(after) + Pending(waiters.nodes) == old(Pending(waiters.nodes))
      ensures Effort() + Size(after) == old(Effort()) + 1 && Items() + Actions(after) == old(Items()) + multiset{item}
    {
      hide Valid, Pending, PendingActions, Actions, Size;
      after := Deliver(item);
    }

    method Run(ops: seq<Op<T>>) returns (defined: bool)
      requires Valid()
      modifies this
      ensures Valid() && old(history) <= history && old(written) <= written
      ensures old(got.Keys) <= got.Keys
      ensures Pending(waiters.nodes) <= old(Pending(waiters.nodes)) + Size(ops)
      ensures !defined ==> ReadIsUndefined(history) && Effort() < old(Effort()) + Size(ops)
      ensures defined ==> Effort() == old(Effort()) + Size(ops) && Items() == old(Items()) + Actions(ops)
      decreases Size(ops) + Pending(waiters.nodes), 1
    {
      hide Valid, ReadIsUndefined, Effort, Items;
      if ops == [] {
        return true;
      }
      assert Size(ops) == OpSize(ops[0]) + Size(ops[1..]);
      defined := Step(ops[0]);
      if defined {
        defined := Run(ops[1..]);
      }
    }
  }

  /** Every program on a new channel, up to an undefined insertion if there is
      one: the n-th read that began has got the n-th item written, whenever
      both exist. Unless it comes to such an insertion, the program is carried
      out completely: every read and write has been done except those that
      readers still waiting have in front of them. */
  method Execute<T>(ops: seq<Op<T>>) returns (c: Channel<T>, defined: bool)
    ensures fresh(c) && c.Valid()
    ensures forall n :: 0 <= n < c.begun && n < |c.written| <==> n in c.got
    ensures forall n :: n in c.got ==> c.got[n] == c.written[n]
    ensures c.queue == [] || c.waiters.nodes == []
    ensures |c.history| == c.begun + |c.written|
    ensures WellDefined(c.history)
    ensures defined <==> WellDefined(if defined then c.history else c.history + [R])
    ensures if defined then c.Effort() == Size(ops) && c.Items() == Actions(ops) else c.Effort() < Size(ops)
  {
    c := new Channel();
    defined := c.Run(ops);
    HistoryStep(c.history, R);
  }

  /** The smallest program that goes wrong: a read that waits, the write that
      wakes it, and another read. */
  method ReadWriteRead<T>(x: T) returns (c: Channel<T>, defined: bool)
    ensures fresh(c) && c.Valid() && !defined && c.history == [R, W] && c.got == map[0 := x]
  {
    hide Depth, Drained, WellDefined;
    c := new Channel();
    FirstSteps();
    defined := c.Step(Wait([]));
    assert c.history == [R];
    defined := c.Step(Act(x));
    assert c.history == [R, W];
    defined := c.Step(Wait([]));
    GotOne(c, x);
  }

  lemma FirstSteps()
    ensures !ReadIsUndefined([]) && !ReadIsUndefined([R]) && ReadIsUndefined([R, W])
  {
    SecondBlockingReadIsUndefined();
    HistoryStep([], R);
  }

  lemma GotOne<T>(c: Channel<T>, x: T)
    requires c.Valid() && c.history == [R, W] && [x] <= c.written
    ensures c.got == map[0 := x]
  {
    hide Depth, Drained, WellDefined;
    DepthOfTwo();
    assert c.begun == 1 && |c.written| == 1;
    assert c.written[0] == x;
  }

  lemma DepthOfTwo()
    ensures Depth([R, W]) == 0
  {
    assert [R, W][..1] == [R] && [R][..0] == [];
  }
}
