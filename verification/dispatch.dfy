/**
 * `Messenger.SendMessage` as a sequential event trace. The publisher's loop
 * increments the handle count once per subscribed handler and starts one task
 * per handler; the tasks then complete in an order chosen by the scheduler,
 * each running its handler and decrementing the count; finally, when a
 * callback is set, the joining task invokes it.
 */
module Dispatch {
  import opened Wrappers
  import opened Keys
  import opened Envelope

  datatype Event<C> =
    /** `msg.Increment()` for handler `slot`, leaving the count at `handles`. */
    | Spawned(slot: nat, handles: Int32)
    /** The task of `slot` ran `handler` on `seen`, then `msg.Decrement()` left the count at `handles`. */
    | Handled(slot: nat, handler: HandlerId, seen: Message<C>, handles: Int32)
    /** The joining task invoked `PublishComplete` on `seen`. */
    | Completed(callback: CallbackId, seen: Message<C>)

  /** The envelope once every unit of work has finished, and what happened on the way. */
  datatype Dispatched<C> = Dispatched(message: Message<C>, trace: seq<Event<C>>)

  /** `k` unchecked increments. */
  function IncN(h: Int32, k: nat): Int32
    decreases k
  {
    if k == 0 then h else IncN(Inc32(h), k - 1)
  }

  /** `k` unchecked decrements. */
  function DecN(h: Int32, k: nat): Int32
    decreases k
  {
    if k == 0 then h else DecN(Dec32(h), k - 1)
  }

  lemma {:induction false} IncNLast(h: Int32, k: nat)
    ensures IncN(h, k + 1) == Inc32(IncN(h, k))
    decreases k
  {
    if k > 0 {
      IncNLast(Inc32(h), k - 1);
    }
  }

  lemma {:induction false} DecNLast(h: Int32, k: nat)
    ensures DecN(h, k + 1) == Dec32(DecN(h, k))
    decreases k
  {
    if k > 0 {
      DecNLast(Dec32(h), k - 1);
    }
  }

  /** `k` decrements undo `k` increments, overflow or not. */
  lemma {:induction false} DecNUndoesIncN(h: Int32, k: nat)
    ensures DecN(IncN(h, k), k) == h
    decreases k
  {
    if k > 0 {
      IncNLast(h, k - 1);
      assert Dec32(IncN(h, k)) == IncN(h, k - 1);
      DecNUndoesIncN(h, k - 1);
    }
  }

  /** Without overflow, `k` increments add `k`. */
  lemma {:induction false} IncNAdds(h: Int32, k: nat)
    requires h + k <= INT32_MAX
    ensures IncN(h, k) == h + k
    decreases k
  {
    if k > 0 {
      IncNAdds(h + 1, k - 1);
    }
  }

  /** Without overflow, `k` decrements subtract `k`. */
  lemma {:induction false} DecNSubtracts(h: Int32, k: nat)
    requires h - k >= INT32_MIN
    ensures DecN(h, k) == h - k
    decreases k
  {
    if k > 0 {
      DecNSubtracts(h - 1, k - 1);
    }
  }

  /** The publisher's loop, from handler `slot` up to handler `n - 1`: increment, then start the task. */
  function Spawn<C>(m: Message<C>, slot: nat, n: nat): (r: Dispatched<C>)
    requires slot <= n
    ensures r.message == m.(handles := IncN(m.handles, n - slot))
    ensures |r.trace| == n - slot
    ensures forall i :: 0 <= i < |r.trace| ==> r.trace[i] == Spawned(slot + i, IncN(m.handles, i + 1))
    decreases n - slot
  {
    if slot == n then Dispatched(m, [])
    else
      var m1 := Increment(m);
      var rest := Spawn(m1, slot + 1, n);
      Dispatched(rest.message, [Spawned(slot, m1.handles)] + rest.trace)
  }

  /** The tasks completing in the scheduler's `order`: each runs its handler, then decrements. */
  function Run<C>(m: Message<C>, handlers: seq<HandlerId>, order: seq<nat>): (r: Dispatched<C>)
    requires forall i :: 0 <= i < |order| ==> order[i] < |handlers|
    ensures r.message == m.(handles := DecN(m.handles, |order|))
    ensures |r.trace| == |order|
    ensures forall i :: 0 <= i < |order| ==>
              r.trace[i] == Handled(order[i], handlers[order[i]], m.(handles := DecN(m.handles, i)), DecN(m.handles, i + 1))
    decreases |order|
  {
    if |order| == 0 then Dispatched(m, [])
    else
      var k := order[0];
      var m1 := Decrement(m);
      var rest := Run(m1, handlers, order[1..]);
      Dispatched(rest.message, [Handled(k, handlers[k], m, m1.handles)] + rest.trace)
  }

  /** The handler slots `0, 1, ..., n - 1`, in registration order. */
  function Slots(n: nat): (r: seq<nat>)
    ensures |r| == n
    ensures forall i :: 0 <= i < n ==> r[i] == i
  {
    if n == 0 then [] else Slots(n - 1) + [n - 1]
  }

  /** A completion order for `n` tasks: a permutation of the slots below `n`. */
  predicate IsSchedule(order: seq<nat>, n: nat) {
    && |order| == n
    && (forall i :: 0 <= i < |order| ==> order[i] < n)
    && multiset(order) == multiset(Slots(n))
  }

  lemma {:induction false} SlotsOnce(n: nat, k: nat)
    ensures multiset(Slots(n))[k] == if k < n then 1 else 0
  {
    if n > 0 {
      var last: nat := n - 1;
      var prefix: seq<nat> := Slots(last);
      SlotsOnce(last, k);
      assert Slots(n) == prefix + [last];
      var before: multiset<nat> := multiset(prefix);
      assert multiset(Slots(n)) == before + multiset{last};
    }
  }

  /** In a schedule every slot below `n` completes, and completes at exactly one position. */
  lemma ScheduleHasEachSlotOnce(order: seq<nat>, n: nat, k: nat)
    requires IsSchedule(order, n)
    requires k < n
    ensures exists p :: 0 <= p < n && order[p] == k
    ensures forall p, q :: 0 <= p < q < n && order[p] == k ==> order[q] != k
  {
    SlotsOnce(n, k);
    assert k in multiset(order);
    forall p, q | 0 <= p < q < n && order[p] == k
      ensures order[q] != k
    {
      assert order == order[..q] + order[q..];
      assert order[p] in order[..q];
    }
  }

  /**
   * `Messenger.SendMessage`. `registered` is the registry's entry for the message's type
   * (`None` when the type was never subscribed); `order` is the order in which
   * the scheduler completes the handler tasks.
   */
  function SendMessage<C>(m: Message<C>, registered: Option<seq<HandlerId>>, order: seq<nat>): (r: Dispatched<C>)
    requires registered.Some? ==> IsSchedule(order, |registered.value|)
    ensures r.message == m
    ensures registered.None? ==> r.trace == []
    ensures registered.Some? ==>
              |r.trace| == 2 * |registered.value| + (if m.callback.Some? then 1 else 0)
  {
    match registered
    case None => Dispatched(m, [])
    case Some(hs) =>
      var spawned := Spawn(m, 0, |hs|);
      var ran := Run(spawned.message, hs, order);
      DecNUndoesIncN(m.handles, |hs|);
      var completion := if m.callback.Some? then [Completed(m.callback.value, ran.message)] else [];
      Dispatched(ran.message, spawned.trace + ran.trace + completion)
  }

  /** The three phases of a publish: the publisher's loop, the handler tasks, the joining task. */
  lemma DispatchPhases<C>(m: Message<C>, hs: seq<HandlerId>, order: seq<nat>)
    requires IsSchedule(order, |hs|)
    ensures SendMessage(m, Some(hs), order).trace
            == Spawn(m, 0, |hs|).trace
               + Run(m.(handles := IncN(m.handles, |hs|)), hs, order).trace
               + (if m.callback.Some? then [Completed(m.callback.value, m)] else [])
  {
    DecNUndoesIncN(m.handles, |hs|);
  }

  /** The first phase of the trace: one increment per handler, in registration order. */
  lemma DispatchTraceSpawned<C>(m: Message<C>, hs: seq<HandlerId>, order: seq<nat>)
    requires IsSchedule(order, |hs|)
    ensures var t := SendMessage(m, Some(hs), order).trace;
      && |t| == 2 * |hs| + (if m.callback.Some? then 1 else 0)
      && forall i :: 0 <= i < |hs| ==> t[i] == Spawned(i, IncN(m.handles, i + 1))
  {
    DispatchPhases(m, hs, order);
    var t := SendMessage(m, Some(hs), order).trace;
    var spawned := Spawn(m, 0, |hs|).trace;
    forall i | 0 <= i < |hs|
      ensures t[i] == Spawned(i, IncN(m.handles, i + 1))
    {
      assert t[i] == spawned[i];
    }
  }

  /** The second phase of the trace: the handler completions, in the scheduler's order. */
  lemma DispatchTraceHandled<C>(m: Message<C>, hs: seq<HandlerId>, order: seq<nat>)
    requires IsSchedule(order, |hs|)
    ensures var t := SendMessage(m, Some(hs), order).trace;
      var n := |hs|;
      var top := IncN(m.handles, n);
      forall j :: n <= j < 2 * n ==>
        t[j] == Handled(order[j - n], hs[order[j - n]], m.(handles := DecN(top, j - n)), DecN(top, j - n + 1))
  {
    var n := |hs|;
    var top := IncN(m.handles, n);
    DispatchPhases(m, hs, order);
    var t := SendMessage(m, Some(hs), order).trace;
    var spawned := Spawn(m, 0, n).trace;
    var mt := m.(handles := top);
    var ran := Run(mt, hs, order).trace;
    var completion := if m.callback.Some? then [Completed(m.callback.value, m)] else [];
    forall j | n <= j < 2 * n
      ensures t[j] == Handled(order[j - n], hs[order[j - n]], m.(handles := DecN(top, j - n)), DecN(top, j - n + 1))
    {
      ConcatMiddle(spawned, ran, completion, j);
    }
  }

  /** Indexing into the middle part of a three-part sequence. */
  lemma ConcatMiddle<T>(a: seq<T>, b: seq<T>, c: seq<T>, j: int)
    requires |a| <= j < |a| + |b|
    ensures (a + b + c)[j] == b[j - |a|]
  {
  }

  /**
   * The whole trace of a publish to `n` handlers: `n` increments, then the `n`
   * handler completions in the scheduler's order, then the callback if one is set.
   */
  lemma DispatchTrace<C>(m: Message<C>, hs: seq<HandlerId>, order: seq<nat>)
    requires IsSchedule(order, |hs|)
    ensures var t := SendMessage(m, Some(hs), order).trace;
      var n := |hs|;
      var top := IncN(m.handles, n);
      && |t| == 2 * n + (if m.callback.Some? then 1 else 0)
      && (forall i :: 0 <= i < n ==> t[i] == Spawned(i, IncN(m.handles, i + 1)))
      && (forall j :: n <= j < 2 * n ==>
            t[j] == Handled(order[j - n], hs[order[j - n]], m.(handles := DecN(top, j - n)), DecN(top, j - n + 1)))
      && (m.callback.Some? ==> t[2 * n] == Completed(m.callback.value, m))
  {
    DispatchTraceSpawned(m, hs, order);
    DispatchTraceHandled(m, hs, order);
    DispatchPhases(m, hs, order);
  }

  /** Each completed handler task decrements the count it saw exactly once, overflow or not. */
  lemma DispatchDecrementsOnce<C>(m: Message<C>, hs: seq<HandlerId>, order: seq<nat>)
    requires IsSchedule(order, |hs|)
    ensures var t := SendMessage(m, Some(hs), order).trace;
      forall i :: 0 <= i < |t| && t[i].Handled? ==> t[i].handles == Dec32(t[i].seen.handles)
  {
    DispatchKinds(m, hs, order);
    DispatchTraceHandled(m, hs, order);
    var n := |hs|;
    var t := SendMessage(m, Some(hs), order).trace;
    var top := IncN(m.handles, n);
    forall i | 0 <= i < |t| && t[i].Handled?
      ensures t[i].handles == Dec32(t[i].seen.handles)
    {
      DecNLast(top, i - n);
    }
  }

  /**
   * `Publish` returns as soon as the publisher's loop has run. In a schedule
   * where no handler task has finished by then, which the program allows,
   * every handler still holds the message: without overflow, and with a
   * non-negative count before the publish, a recycle issued right after
   * `Publish` returns fails when at least one handler is subscribed.
   */
  lemma PublishReturnsHoldingHandles<C>(m: Message<C>, hs: seq<HandlerId>, order: seq<nat>)
    requires IsSchedule(order, |hs|)
    requires |hs| > 0 && 0 <= m.handles && m.handles + |hs| <= INT32_MAX
    ensures var t := SendMessage(m, Some(hs), order).trace;
      && t[|hs| - 1].handles == m.handles + |hs|
      && Recycle(m.(handles := t[|hs| - 1].handles)) == Err(RecycledWhileHandled)
  {
    DispatchRaisesFirst(m, hs, order);
  }

  /** Which kind of event sits where: increments, then handler completions, then the callback. */
  lemma DispatchKinds<C>(m: Message<C>, hs: seq<HandlerId>, order: seq<nat>)
    requires IsSchedule(order, |hs|)
    ensures var t := SendMessage(m, Some(hs), order).trace;
      forall i :: 0 <= i < |t| ==>
        && (t[i].Spawned? <==> i < |hs|)
        && (t[i].Handled? <==> |hs| <= i < 2 * |hs|)
        && (t[i].Completed? <==> i == 2 * |hs|)
  {
    DispatchTrace(m, hs, order);
  }

  /** Before any handler runs, the first `n` events raise the count once per handler. */
  lemma DispatchRaisesFirst<C>(m: Message<C>, hs: seq<HandlerId>, order: seq<nat>)
    requires IsSchedule(order, |hs|)
    ensures var t := SendMessage(m, Some(hs), order).trace;
      && (forall i :: 0 <= i < |hs| ==> t[i] == Spawned(i, IncN(m.handles, i + 1)))
      && (forall i :: 0 <= i < |t| && t[i].Handled? ==> |hs| <= i)
      && (m.handles + |hs| <= INT32_MAX && |hs| > 0 ==> t[|hs| - 1].handles == m.handles + |hs|)
  {
    DispatchTrace(m, hs, order);
    var t := SendMessage(m, Some(hs), order).trace;
    if m.handles + |hs| <= INT32_MAX && |hs| > 0 {
      IncNAdds(m.handles, |hs|);
    }
  }

  /** Every registered handler slot runs exactly once, and runs the handler registered in that slot. */
  lemma DispatchRunsEachOnce<C>(m: Message<C>, hs: seq<HandlerId>, order: seq<nat>, k: nat)
    requires IsSchedule(order, |hs|)
    requires k < |hs|
    ensures var t := SendMessage(m, Some(hs), order).trace;
      exists i :: 0 <= i < |t| && t[i].Handled? && t[i].slot == k && t[i].handler == hs[k]
             && forall j :: 0 <= j < |t| && t[j].Handled? && t[j].slot == k ==> j == i
  {
    DispatchKinds(m, hs, order);
    DispatchTraceHandled(m, hs, order);
    ScheduleHasEachSlotOnce(order, |hs|, k);
    var t := SendMessage(m, Some(hs), order).trace;
    var n := |hs|;
    var p :| 0 <= p < n && order[p] == k;
    var i := n + p;
    assert t[i].Handled? && t[i].slot == k && t[i].handler == hs[k];
    forall j | 0 <= j < |t| && t[j].Handled? && t[j].slot == k
      ensures j == i
    {
      assert n <= j < 2 * n;
      assert order[j - n] == k;
    }
  }

  /**
   * The callback runs exactly when one is set, once, as the very last event,
   * after every handler has completed, and sees the count back at its value
   * before the publish.
   */
  lemma DispatchCompletesLast<C>(m: Message<C>, hs: seq<HandlerId>, order: seq<nat>)
    requires IsSchedule(order, |hs|)
    ensures var t := SendMessage(m, Some(hs), order).trace;
      && (m.callback.None? ==> forall i :: 0 <= i < |t| ==> !t[i].Completed?)
      && (m.callback.Some? ==>
            && t[|t| - 1] == Completed(m.callback.value, m)
            && (forall i :: 0 <= i < |t| - 1 ==> !t[i].Completed?)
            && |t| - 1 == 2 * |hs|)
  {
    DispatchTrace(m, hs, order);
  }

  /**
   * Without overflow, every handler sees the message with between one and `n`
   * handles above the pre-publish count, so a handler (or anyone else) that
   * tries to recycle a message it is handling gets the in-use error.
   */
  lemma DispatchHandlersHoldHandles<C>(m: Message<C>, hs: seq<HandlerId>, order: seq<nat>)
    requires IsSchedule(order, |hs|)
    requires 0 <= m.handles && m.handles + |hs| <= INT32_MAX
    ensures var t := SendMessage(m, Some(hs), order).trace;
      forall i :: 0 <= i < |t| && t[i].Handled? ==>
        && m.handles < t[i].seen.handles <= m.handles + |hs|
        && m.handles <= t[i].handles < m.handles + |hs|
        && t[i].seen.content == m.content
        && Recycle(t[i].seen) == Err(RecycledWhileHandled)
  {
    DispatchKinds(m, hs, order);
    DispatchTraceHandled(m, hs, order);
    var n := |hs|;
    var t := SendMessage(m, Some(hs), order).trace;
    var top := IncN(m.handles, n);
    IncNAdds(m.handles, n);
    forall i | 0 <= i < |t| && t[i].Handled?
      ensures m.handles < t[i].seen.handles <= m.handles + n
      ensures m.handles <= t[i].handles < m.handles + n
      ensures t[i].seen.content == m.content
    {
      var p := i - n;
      assert t[i] == Handled(order[p], hs[order[p]], m.(handles := DecN(top, p)), DecN(top, p + 1));
      DecNSubtracts(top, p);
      DecNSubtracts(top, p + 1);
    }
  }

  /** A type that was never subscribed: nothing happens, and the callback is not invoked. */
  lemma DispatchUnknownTypeIsNoop<C>(m: Message<C>, order: seq<nat>)
    ensures SendMessage(m, None, order) == Dispatched(m, [])
  {
  }

  /** A known type whose handlers were all unsubscribed still invokes a set callback, once. */
  lemma DispatchEmptyListStillCompletes<C>(m: Message<C>, cb: CallbackId)
    requires m.callback == Some(cb)
    ensures SendMessage(m, Some([]), []).trace == [Completed(cb, m)]
  {
  }
}
