# SimpleMessageSystem core, modelled in Dafny

SimpleMessageSystem is a small in-process publish/subscribe bus for C#. A
caller obtains a typed envelope `Message<T>` from the static `Messenger`, fills
in its content and an optional completion callback, and publishes it. Every
handler subscribed for `T` is run on its own task. Once all of them have
finished, the callback runs. The caller then recycles the envelope into a
per-type pool. A later `GetMessage<T>` hands it out again. The very next one
does so when no earlier envelope of that type is idle, because the pool
hands out the first idle envelope in its list.

This project models that core as pure functions over immutable values:

- `envelope.dfy` (module `Envelope`): the envelope. It holds its content, its
  callback, the pool's in-use flag and the handle count, a C# `int` with
  unchecked 32-bit wrap-around. The two throwing operations, `SetCallback` and
  `Recycle`, return a `Result`.
- `pool.dfy` (module `Pool`): `Messenger.MessagePool`. It is a map from type
  tag to an append-only list of envelopes. Acquiring takes the first idle
  envelope.
- `registry.dfy` (module `Registry`): the `_subscribers` table. It maps each
  type tag to a list of handlers. `Subscribe` appends and keeps duplicates.
  `Unsubscribe` has the semantics of `List<T>.Remove`: it drops the first
  equal entry and never removes the key.
- `dispatch.dfy` (module `Dispatch`): `SendMessage` as a sequential event
  trace, in three parts:
  - the publisher's loop increments the count once per handler;
  - the handler tasks complete in an order chosen by the scheduler, given as
    a permutation of the handler slots, and each one decrements the count;
  - the joining task invokes the callback, if one is set.
- `messenger.dfy` (module `Messenger`): the static `Messenger` as one explicit
  `Bus` value. It has both `GetMessage` overloads, recycling and publishing
  through a caller's reference, and the two unit tests of the repository as
  lemmas.
- `wrappers.dfy`: `Option`, `Result` and the key types.

Identities:

- Payload types are natural-number tags; `StringType` is the tag of `string`.
- Handlers and callbacks are natural-number identities. Delegate equality is
  their equality.
- A caller's reference to an envelope is a `MessageRef`: the type tag and the
  envelope's position in that type's pool list. The pool never shrinks or
  reorders, so a reference stays valid.

Behaviour of the code worth knowing:

- The `ContainsKey` test at `Messenger.cs:98` is the only guard. A type that
  is still in the registry with an empty handler list runs no handler, but
  it still invokes a set callback. See
  `Dispatch.DispatchEmptyListStillCompletes`.
- The count exists so that nobody recycles a message while handlers work on
  it, as the comments at `Messenger.cs:103` and `Messenger.cs:109` explain.
  Every increment happens on the publisher's thread before `Publish`
  returns. So right after `Publish` returns, the handlers may still hold the
  message and a recycle can fail. See `Dispatch.PublishReturnsHoldingHandles`.
- A handler task decrements only after its handler returns
  (`Messenger.cs:108-110`), and there is no `finally`. Handlers that throw
  are outside the model: see the `Dispatch.SendMessage` line under
  "## Left out".
- Recycling does not clear the callback. See `Envelope.RecycleKeepsCallback`.

## Model

| member | source | states |
|---|---|---|
| Envelope.Wrap32 | Messaging/Message.cs:37 | the reference meaning of a C# `int` operation: a result always in the 32-bit range, equal to the exact value when that value is in range |
| Envelope.Inc32IsWrap | Messaging/Message.cs:59 | `_handles++` without a checked context is addition modulo 2^32: INT32_MAX wraps to INT32_MIN |
| Envelope.Dec32IsWrap | Messaging/Message.cs:69 | `_handles--` is subtraction modulo 2^32: INT32_MIN wraps to INT32_MAX |
| Envelope.New | Messaging/Message.cs:29-42 | a fresh envelope is not in use, holds no handles, and has no callback and default content |
| Envelope.NewWith | Messaging/Message.cs:48-51 | the content constructor equals a fresh envelope followed by `AddContent` |
| Envelope.Increment | Messaging/Message.cs:57-61 | the count becomes the wrapped successor, exactly one more when below INT32_MAX; every other field is unchanged |
| Envelope.Decrement | Messaging/Message.cs:67-71 | the count becomes the wrapped predecessor with no guard at zero, exactly one less when above INT32_MIN; every other field is unchanged |
| Envelope.IncrementDecrementInverse | Messaging/Message.cs:57-71 | increment and decrement undo each other in both orders, across the wrap |
| Envelope.AddContent | Messaging/Message.cs:78-82 | the content becomes the given value; nothing else changes |
| Envelope.SetCallback | Messaging/Message.cs:84-92 | fails with the already-set error if and only if a callback is present; otherwise installs the callback and changes nothing else |
| Envelope.ResetCallback | Messaging/Message.cs:94-98 | the callback is cleared; nothing else changes |
| Envelope.ResetThenSetSucceeds | Messaging/Message.cs:84-98 | after a reset a new callback is always accepted, and resetting twice is the same as resetting once |
| Envelope.SetTwiceFails | Messaging/Message.cs:84-92 | a second `SetCallback` without a reset in between always fails |
| Envelope.Recycle | Messaging/Message.cs:116-123 | fails with the in-use error if and only if the count is positive; otherwise clears only the in-use flag |
| Envelope.NewIsIdle | Messaging/Message.cs:42 | a fresh envelope can be recycled without change and accepts a callback |
| Envelope.RecycleKeepsCallback | Messaging/Message.cs:116-123 | recycling keeps the callback and the content, so a recycled envelope with a callback refuses a new one |
| Pool.FirstIdle | Messaging/Messenger.cs:143-144 | `FirstOrDefault` on not-in-use: no result if and only if no envelope is idle; otherwise an idle position whose predecessors are all in use |
| Pool.Acquire | Messaging/Messenger.cs:135-151 | returns `null` exactly when the type has no idle envelope, leaving the pool unchanged; otherwise the first idle envelope becomes in use and every other envelope and type is unchanged |
| Pool.AddMessage | Messaging/Messenger.cs:153-162 | creates the type's list on first use and appends the envelope; other types are unchanged |
| Pool.PoolOperationsNeverShrink | Messaging/Messenger.cs:135-162 | neither pool operation shortens any type's list |
| Registry.FirstIndex | Messaging/Messenger.cs:85 | the position `List.Remove` acts on: an occurrence of the handler with none before it |
| Registry.RemoveFirst | Messaging/Messenger.cs:85 | `List.Remove`: the list is unchanged when the handler is absent; otherwise exactly the first occurrence is cut out |
| Registry.RemoveFirstMultiset | Messaging/Messenger.cs:85 | removal takes away one registration of the handler, if any, and nothing else |
| Registry.Subscribe | Messaging/Messenger.cs:67-74 | the type becomes a key, its list gains the handler at the end with duplicates kept, and other types are unchanged |
| Registry.Unsubscribe | Messaging/Messenger.cs:81-87 | the keys never change; the type's list loses its first occurrence of the handler; an unknown type or absent handler leaves the registry unchanged |
| Registry.SubscribeThenUnsubscribeHandlers | Messaging/Messenger.cs:67-87 | subscribe then unsubscribe restores the list as a multiset always, and as a list when the handler was absent before |
| Registry.SubscribeThenUnsubscribe | Messaging/Messenger.cs:67-87 | on the whole registry: the type's key remains even if its list is empty, other types are untouched, and the list is restored as above |
| Registry.ResubscribeReorders | Messaging/Messenger.cs:73-85 | a handler already subscribed moves to the end: `[1, 2]` becomes `[2, 1]` |
| Registry.SubscribeKeepsDuplicates | Messaging/Messenger.cs:73 | subscribing the same handler twice adds two registrations |
| Registry.UnsubscribeRemovesOne | Messaging/Messenger.cs:85 | unsubscribing a registered handler shortens the list by one and removes one of its registrations |
| Dispatch.IncNAdds | Messaging/Messenger.cs:101-104 | without overflow, the publisher's increments raise the count by the number of handlers |
| Dispatch.DecNSubtracts | Messaging/Messenger.cs:110 | without underflow, the tasks' decrements lower the count by the number of tasks that finished |
| Dispatch.DecNUndoesIncN | Messaging/Messenger.cs:104-110 | as many decrements as increments restore the count exactly, whether or not it wrapped |
| Dispatch.Spawn | Messaging/Messenger.cs:101-106 | the publisher's loop emits one increment per handler in registration order, with the count after each |
| Dispatch.Run | Messaging/Messenger.cs:106-111 | each task, in the scheduler's order, runs its slot's handler on the envelope as it stands, then decrements |
| Dispatch.ScheduleHasEachSlotOnce | Messaging/Messenger.cs:101-111 | in a scheduler's order every handler task appears exactly once |
| Dispatch.SendMessage | Messaging/Messenger.cs:94-125 | after every unit of work the envelope is exactly as before; an unregistered type does nothing; otherwise there are two events per handler plus one for a set callback |
| Dispatch.DispatchPhases | Messaging/Messenger.cs:98-123 | a publish is the publisher's loop, then the handler tasks from the raised count, then the callback on the restored envelope |
| Dispatch.DispatchTrace | Messaging/Messenger.cs:98-123 | the whole trace event by event: increments, then completions in the scheduler's order, then the callback |
| Dispatch.DispatchDecrementsOnce | Messaging/Messenger.cs:108-110 | each completed handler task leaves the count one below the count its handler saw, wrapped: one decrement per completion |
| Dispatch.DispatchKinds | Messaging/Messenger.cs:98-123 | increments occupy exactly the first `n` places, handler completions the next `n`, and the callback place `2n` |
| Dispatch.DispatchRaisesFirst | Messaging/Messenger.cs:101-106 | every increment precedes every handler; without overflow the count reaches its start plus `n` |
| Dispatch.DispatchRunsEachOnce | Messaging/Messenger.cs:101-111 | each registered slot is handled exactly once, by the handler registered in that slot |
| Dispatch.DispatchCompletesLast | Messaging/Messenger.cs:114-123 | the callback runs if and only if one is set, once, last, after every handler, and sees the pre-publish envelope |
| Dispatch.PublishReturnsHoldingHandles | Messaging/Messenger.cs:101-106 | when `Publish` returns before any handler task has finished, the count is raised by the number of handlers and a recycle fails |
| Dispatch.DispatchHandlersHoldHandles | Messaging/Messenger.cs:103-110 | without overflow, every handler sees the count above its pre-publish value with the published content, so recycling inside a handler fails |
| Dispatch.DispatchUnknownTypeIsNoop | Messaging/Messenger.cs:98 | a type never subscribed: no increments, no handlers, no callback |
| Dispatch.DispatchEmptyListStillCompletes | Messaging/Messenger.cs:98-123 | a known type with an empty list runs no handler but still invokes a set callback |
| Messenger.GetMessage | Messaging/Messenger.cs:37-49 | the result is in use; the first idle envelope when there is one, every earlier envelope being in use; otherwise a fresh envelope appended at the end; nothing else changes |
| Messenger.GetMessageWith | Messaging/Messenger.cs:51-65 | the same envelope as the content-less overload, now holding the content |
| Messenger.RecycleAt | Messaging/Message.cs:116-123 | recycling through a reference fails if and only if handlers hold the envelope; otherwise the envelope is idle and nothing else changes |
| Messenger.Publish | Messaging/Message.cs:106-110 | once every handler task of the publish has finished, the bus is as it was before the publish; an unregistered type produces no events |
| Messenger.GetMessageKeepsReferences | Messaging/Messenger.cs:37-49 | getting a message never invalidates or changes any other envelope a caller holds |
| Messenger.RecycledMessageIsReused | Messaging/Messenger.cs:135-151 | a recycled envelope whose predecessors are all in use is the next one handed out, and the pool does not grow |
| Messenger.QuiescentIsPreserved | Messaging/Messenger.cs:37-125 | once the handler tasks of every publish have finished, all counts are zero: getting a message keeps this, a publish whose tasks have all finished restores it, and recycling then succeeds |
| Messenger.SimpleSubscribeScenario | SimpleMessageSystemTest/MessengerTest.cs:29-35 | the subscribed string handler runs once and sees "Test Message" |
| Messenger.SimpleUnsubscribeScenario | SimpleMessageSystemTest/MessengerTest.cs:37-43 | after subscribe and unsubscribe, publishing runs no handler |
| Messenger.CallbackRecyclesScenario | Messaging/Messenger.cs:114-123 | a callback that recycles the envelope succeeds, and the next `GetMessage` returns the same envelope without growing the pool |

## Left out

- Concurrency is not modelled. The model has no threads, no `lock` in `MessagePool`, no `Task.WaitAll`, and no races on the unsynchronised registry and count. A publish is one sequential trace. All increments come before any task completes, whereas a real task may finish before the publisher's next increment. The final count is the same in every interleaving of whole increments and decrements, but intermediate counts can differ. The unsynchronised `_handles++` and `_handles--` (`Message.cs:59`, `Message.cs:69`) can lose an update when they overlap, and that can leave the count wrong after every task has finished. Lost updates are not modelled.
- Dispatch.SendMessage: handlers are assumed to return normally. A throwing handler skips its decrement and faults `Task.WaitAll`, so the callback never runs. That path is not modelled.
- Dispatch.SendMessage: handlers and the callback are opaque identities. Their own effects are not part of the trace: changing the content, setting a callback, recycling, or subscribing during a publish.
- The public property setters of `PublishComplete` and `Content` are not modelled. Assigning `PublishComplete` directly bypasses the already-set check. The `Content` setter is the same as `AddContent`.
- Envelope.SetCallback: a `null` callback is not modelled. Callbacks are always present identities.
- The `IMessageHandler<T>` overloads of `Subscribe` and `Unsubscribe` (Messenger.cs:76-79, 89-92) are not modelled. They only forward the handler's `MessageArrived` method to the delegate overloads.
- Reflection and casts are not modelled. Types are tags, and a bus carries payloads of one Dafny type `C`.
- Messenger.Publish: `Message.Publish` returns the envelope for chaining. The model returns the dispatch result instead, including the envelope once every handler task has finished.
- Messenger.Publish: publishing is atomic in the model, but `Publish` returns before its handlers finish (`Message.cs:102-103`). In the program, a caller that recycles right after `Publish` can get the in-use error. The bus-level model cannot show this; `Dispatch.PublishReturnsHoldingHandles` shows it for the envelope on its own. The joining task also re-reads `PublishComplete` when it invokes the callback (`Messenger.cs:120`), so a callback reset or replaced in the meantime is not modelled.
- Dispatch.Run: each handler task is assumed to capture its own `item`, as C# 5 and later compile `foreach` (`Messenger.cs:101-108`). Under the C# 4 compiler, all tasks share one loop variable, so a task could run a later slot's handler. That is not modelled.
