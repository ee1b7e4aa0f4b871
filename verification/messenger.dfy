/**
 * The static `Messenger`: the process-wide pool and subscriber registry as one
 * explicit bus value. A caller's `Message<T>` reference is a `MessageRef`, the
 * type tag and the position of the envelope in that type's pool list.
 */
module Messenger {
  import opened Wrappers
  import opened Keys
  import opened Envelope
  import opened Pool
  import opened Registry
  import opened Dispatch

  datatype Bus<C> = Bus(pool: PoolMap<C>, subscribers: Subscribers)

  /** The bus at process start: no envelopes, no subscribers. */
  function Empty<C>(): Bus<C> {
    Bus(map[], map[])
  }

  datatype MessageRef = MessageRef(tag: Tag, index: nat)

  predicate Valid<C>(bus: Bus<C>, r: MessageRef) {
    r.index < |Envelopes(bus.pool, r.tag)|
  }

  /** The envelope a reference points to. */
  function At<C>(bus: Bus<C>, r: MessageRef): Message<C>
    requires Valid(bus, r)
  {
    bus.pool[r.tag][r.index]
  }

  /** The bus after the envelope behind `r` has been changed to `m` through the caller's reference. */
  function Put<C>(bus: Bus<C>, r: MessageRef, m: Message<C>): Bus<C>
    requires Valid(bus, r)
  {
    bus.(pool := bus.pool[r.tag := bus.pool[r.tag][r.index := m]])
  }

  datatype Obtained<C> = Obtained(bus: Bus<C>, ref: MessageRef)

  /**
   * `GetMessage<T>()`: the first idle envelope of the type, now in use, or on a
   * pool miss a fresh envelope marked in use and appended to the type's list.
   */
  function GetMessage<C>(bus: Bus<C>, tag: Tag): (r: Obtained<C>)
    ensures r.ref.tag == tag && Valid(r.bus, r.ref) && At(r.bus, r.ref).inUse
    ensures r.bus.subscribers == bus.subscribers
    ensures forall t :: t != tag ==> Envelopes(r.bus.pool, t) == Envelopes(bus.pool, t)
    ensures HasIdle(Envelopes(bus.pool, tag)) ==>
              && Valid(bus, r.ref)
              && !At(bus, r.ref).inUse
              && (forall j :: 0 <= j < r.ref.index ==> Envelopes(bus.pool, tag)[j].inUse)
              && Envelopes(r.bus.pool, tag) == Envelopes(bus.pool, tag)[r.ref.index := At(bus, r.ref).(inUse := true)]
    ensures !HasIdle(Envelopes(bus.pool, tag)) ==>
              && r.ref.index == |Envelopes(bus.pool, tag)|
              && Envelopes(r.bus.pool, tag) == Envelopes(bus.pool, tag) + [New().(inUse := true)]
  {
    var a := Acquire(bus.pool, tag);
    match a.index
    case Some(i) => Obtained(bus.(pool := a.pool), MessageRef(tag, i))
    case None =>
      var m := New().(inUse := true);
      Obtained(bus.(pool := AddMessage(bus.pool, tag, m)), MessageRef(tag, |Envelopes(bus.pool, tag)|))
  }

  /** `GetMessage<T>(content)`: the same envelope as `GetMessage<T>()`, with its content replaced. */
  function GetMessageWith<C>(bus: Bus<C>, tag: Tag, c: C): (r: Obtained<C>)
    ensures r.ref == GetMessage(bus, tag).ref
    ensures Valid(r.bus, r.ref) && At(r.bus, r.ref).inUse && At(r.bus, r.ref).content == Some(c)
    ensures var g := GetMessage(bus, tag);
      r.bus == Put(g.bus, g.ref, AddContent(At(g.bus, g.ref), c))
  {
    var g := GetMessage(bus, tag);
    Obtained(Put(g.bus, g.ref, AddContent(At(g.bus, g.ref), c)), g.ref)
  }

  /** `msg.Recycle()` through the caller's reference. */
  function RecycleAt<C>(bus: Bus<C>, r: MessageRef): (res: Result<Bus<C>, Error>)
    requires Valid(bus, r)
    ensures res.Err? <==> At(bus, r).handles > 0
    ensures res.Ok? ==> Valid(res.value, r) && !At(res.value, r).inUse
    ensures res.Ok? ==> res.value == Put(bus, r, At(bus, r).(inUse := false))
  {
    match Recycle(At(bus, r))
    case Ok(m) => Ok(Put(bus, r, m))
    case Err(e) => Err(e)
  }

  /** The registry's entry for a type, as `SendMessage` sees it. */
  function Registered<C>(bus: Bus<C>, tag: Tag): Option<seq<HandlerId>> {
    if tag in bus.subscribers then Some(bus.subscribers[tag]) else None
  }

  /**
   * `msg.Publish()`, that is `SendMessage<T>(msg)`, with the handler tasks
   * completing in the scheduler's `order`. The result is the envelope once
   * every handler task of this publish has finished, which is exactly the
   * envelope before the publish; `Publish` itself returns earlier, while the
   * handlers still hold the message (see `Dispatch.PublishReturnsHoldingHandles`).
   */
  function Publish<C>(bus: Bus<C>, r: MessageRef, order: seq<nat>): (d: Dispatched<C>)
    requires Valid(bus, r)
    requires r.tag in bus.subscribers ==> IsSchedule(order, |bus.subscribers[r.tag]|)
    ensures d.message == At(bus, r)
    ensures Put(bus, r, d.message) == bus
    ensures r.tag !in bus.subscribers ==> d.trace == []
  {
    assert bus.pool[r.tag][r.index := At(bus, r)] == bus.pool[r.tag];
    assert bus.pool[r.tag := bus.pool[r.tag]] == bus.pool;
    SendMessage(At(bus, r), Registered(bus, r.tag), order)
  }

  /** Getting a message never removes or moves an envelope, so every reference held stays valid. */
  lemma GetMessageKeepsReferences<C>(bus: Bus<C>, tag: Tag, r: MessageRef)
    requires Valid(bus, r)
    ensures Valid(GetMessage(bus, tag).bus, r)
    ensures r != GetMessage(bus, tag).ref ==> At(GetMessage(bus, tag).bus, r) == At(bus, r)
  {
    var g := GetMessage(bus, tag);
    if r.tag == tag {
      assert |Envelopes(g.bus.pool, tag)| >= |Envelopes(bus.pool, tag)|;
      if r != g.ref {
        assert Envelopes(g.bus.pool, tag)[r.index] == Envelopes(bus.pool, tag)[r.index];
      }
    }
  }

  /**
   * Pool reuse: once a message is recycled, the next `GetMessage` of its type
   * hands back that same envelope, provided every envelope before it in the
   * type's list is still in use, and the pool does not grow.
   */
  lemma RecycledMessageIsReused<C>(bus: Bus<C>, r: MessageRef)
    requires Valid(bus, r)
    requires At(bus, r).handles <= 0
    requires forall j :: 0 <= j < r.index ==> Envelopes(bus.pool, r.tag)[j].inUse
    ensures RecycleAt(bus, r).Ok?
    ensures var b := RecycleAt(bus, r).value;
      && GetMessage(b, r.tag).ref == r
      && |Envelopes(GetMessage(b, r.tag).bus.pool, r.tag)| == |Envelopes(bus.pool, r.tag)|
  {
    var b := RecycleAt(bus, r).value;
    var s := Envelopes(b.pool, r.tag);
    assert !s[r.index].inUse;
    assert HasIdle(s);
  }

  /**
   * No envelope of the bus is being handled: the state once the handler tasks
   * of every publish so far have finished. Right after `Publish` returns this
   * need not hold.
   */
  ghost predicate Quiescent<C>(bus: Bus<C>) {
    forall t, i :: t in bus.pool && 0 <= i < |bus.pool[t]| ==> bus.pool[t][i].handles == 0
  }

  /**
   * Once every publish's handler tasks have finished, every handle count is
   * zero: getting a message keeps it so, a publish's tasks all finishing
   * restores it, and recycling a message then succeeds.
   */
  lemma QuiescentIsPreserved<C>(bus: Bus<C>, tag: Tag, r: MessageRef, order: seq<nat>)
    requires Quiescent(bus)
    requires Valid(bus, r)
    requires r.tag in bus.subscribers ==> IsSchedule(order, |bus.subscribers[r.tag]|)
    ensures Quiescent(GetMessage(bus, tag).bus)
    ensures Publish(bus, r, order).message.handles == 0
    ensures RecycleAt(bus, r).Ok? && Quiescent(RecycleAt(bus, r).value)
  {
    var g := GetMessage(bus, tag);
    forall t, i | t in g.bus.pool && 0 <= i < |g.bus.pool[t]|
      ensures g.bus.pool[t][i].handles == 0
    {
      if t != tag {
        assert g.bus.pool[t] == Envelopes(bus.pool, t);
      } else if HasIdle(Envelopes(bus.pool, tag)) {
        assert g.bus.pool[t][i].handles == Envelopes(bus.pool, tag)[i].handles;
      } else if i < |Envelopes(bus.pool, tag)| {
        assert g.bus.pool[t][i] == Envelopes(bus.pool, tag)[i];
      }
    }
  }

  /** `SimpleSubscribeTest`: the subscribed handler sees "Test Message", exactly once. */
  lemma SimpleSubscribeScenario(h: HandlerId)
    ensures var bus0 := Empty<string>().(subscribers := Subscribe(map[], StringType, h));
      var g := GetMessage(bus0, StringType);
      var bus1 := Put(g.bus, g.ref, AddContent(At(g.bus, g.ref), "Test Message"));
      var t := Publish(bus1, g.ref, [0]).trace;
      && (forall i :: 0 <= i < |t| && t[i].Handled? ==> i == 1)
      && t[1].Handled? && t[1].handler == h && t[1].seen.content == Some("Test Message")
  {
    var bus0 := Empty<string>().(subscribers := Subscribe(map[], StringType, h));
    var g := GetMessage(bus0, StringType);
    var bus1 := Put(g.bus, g.ref, AddContent(At(g.bus, g.ref), "Test Message"));
    DispatchTrace(At(bus1, g.ref), [h], [0]);
  }

  /** `SimpleUnsubscribeTest`: after subscribe and unsubscribe, publishing runs no handler. */
  lemma SimpleUnsubscribeScenario(h: HandlerId)
    ensures var subs := Unsubscribe(Subscribe(map[], StringType, h), StringType, h);
      var g := GetMessage(Empty<string>().(subscribers := subs), StringType);
      var bus1 := Put(g.bus, g.ref, AddContent(At(g.bus, g.ref), "Test Message"));
      var t := Publish(bus1, g.ref, []).trace;
      forall i :: 0 <= i < |t| ==> !t[i].Handled?
  {
    var subs := Unsubscribe(Subscribe(map[], StringType, h), StringType, h);
    assert subs == map[StringType := []];
  }

  /**
   * A completion callback that recycles: the callback sees every handle
   * released, its recycle succeeds, and the next `GetMessage` of the type
   * returns the same envelope without growing the pool.
   */
  lemma CallbackRecyclesScenario(h: HandlerId, cb: CallbackId)
    ensures var bus0 := Empty<string>().(subscribers := Subscribe(map[], StringType, h));
      var g := GetMessageWith(bus0, StringType, "Test Message");
      var armed := SetCallback(At(g.bus, g.ref), cb);
      && armed.Ok?
      && var bus1 := Put(g.bus, g.ref, armed.value);
         var t := Publish(bus1, g.ref, [0]).trace;
         && |t| == 3
         && t[2] == Completed(cb, At(bus1, g.ref))
         && RecycleAt(bus1, g.ref).Ok?
         && GetMessage(RecycleAt(bus1, g.ref).value, StringType).ref == g.ref
         && |Envelopes(GetMessage(RecycleAt(bus1, g.ref).value, StringType).bus.pool, StringType)| == 1
  {
    var bus0 := Empty<string>().(subscribers := Subscribe(map[], StringType, h));
    var g := GetMessageWith(bus0, StringType, "Test Message");
    var bus1 := Put(g.bus, g.ref, SetCallback(At(g.bus, g.ref), cb).value);
    DispatchCompletesLast(At(bus1, g.ref), [h], [0]);
    RecycledMessageIsReused(bus1, g.ref);
  }
}
