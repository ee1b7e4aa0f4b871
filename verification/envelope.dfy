/**
 * The message envelope `Message<T>`: a payload, an optional completion callback,
 * the pool's in-use flag and the count of handlers currently working on it.
 * Every operation is a pure function from the old envelope to the new one; the
 * two operations that throw return `Result`.
 */
module Envelope {
  import opened Wrappers
  import opened Keys

  const INT32_MIN: int := -0x8000_0000
  const INT32_MAX: int := 0x7FFF_FFFF
  const INT32_RANGE: int := 0x1_0000_0000

  /** The values of a C# `int`. */
  type Int32 = x: int | INT32_MIN <= x <= INT32_MAX

  /** Reference semantics of unchecked 32-bit arithmetic: `x` reduced into the `int` range modulo 2^32. */
  function Wrap32(x: int): (r: Int32)
    ensures INT32_MIN <= x <= INT32_MAX ==> r == x
  {
    INT32_MIN + (x - INT32_MIN) % INT32_RANGE
  }

  /** `_handles++` in an unchecked context. */
  function Inc32(h: Int32): Int32 {
    if h == INT32_MAX then INT32_MIN else h + 1
  }

  /** `_handles--` in an unchecked context. */
  function Dec32(h: Int32): Int32 {
    if h == INT32_MIN then INT32_MAX else h - 1
  }

  lemma Inc32IsWrap(h: Int32)
    ensures Inc32(h) == Wrap32(h + 1)
  {
    if h == INT32_MAX {
      assert h + 1 - INT32_MIN == INT32_RANGE;
    }
  }

  lemma Dec32IsWrap(h: Int32)
    ensures Dec32(h) == Wrap32(h - 1)
  {
    if h == INT32_MIN {
      assert h - 1 - INT32_MIN == -1;
    }
  }

  /** The two `InvalidOperationException`s the envelope throws. */
  datatype Error = CallbackAlreadySet | RecycledWhileHandled

  /**
   * `content` is `Content` (`None` is the `default(T)` of a fresh message),
   * `callback` is `PublishComplete`, `inUse` is `_inUse`, `handles` is `_handles`.
   * `None` and `Some(default(T))` are one state in C#: an envelope given the
   * default value as content compares different here from a fresh one.
   */
  datatype Message<C> = Message(content: Option<C>, callback: Option<CallbackId>, inUse: bool, handles: Int32)

  /** `new Message<T>()`: field initialisers only. */
  function New<C>(): (m: Message<C>)
    ensures !m.inUse && m.handles == 0
    ensures m.callback == None && m.content == None
  {
    Message(None, None, false, 0)
  }

  /** `new Message<T>(content)`. */
  function NewWith<C>(c: C): (m: Message<C>)
    ensures m == AddContent(New(), c)
  {
    Message(Some(c), None, false, 0)
  }

  /** `Increment`: one more handler works on the message. */
  function Increment<C>(m: Message<C>): (r: Message<C>)
    ensures r.handles == Wrap32(m.handles + 1)
    ensures m.handles < INT32_MAX ==> r.handles == m.handles + 1
    ensures r.(handles := m.handles) == m
  {
    Inc32IsWrap(m.handles);
    m.(handles := Inc32(m.handles))
  }

  /** `Decrement`: no guard against going below zero, as `Message.Decrement` does (Message.cs:69). */
  function Decrement<C>(m: Message<C>): (r: Message<C>)
    ensures r.handles == Wrap32(m.handles - 1)
    ensures m.handles > INT32_MIN ==> r.handles == m.handles - 1
    ensures r.(handles := m.handles) == m
  {
    Dec32IsWrap(m.handles);
    m.(handles := Dec32(m.handles))
  }

  lemma IncrementDecrementInverse<C>(m: Message<C>)
    ensures Decrement(Increment(m)) == m
    ensures Increment(Decrement(m)) == m
  {
  }

  /** `AddContent`: replaces the payload and nothing else. */
  function AddContent<C>(m: Message<C>, c: C): (r: Message<C>)
    ensures r.content == Some(c)
    ensures r.(content := m.content) == m
  {
    m.(content := Some(c))
  }

  /** `SetCallback`: throws when a callback is already present. */
  function SetCallback<C>(m: Message<C>, cb: CallbackId): (r: Result<Message<C>, Error>)
    ensures r.Err? <==> m.callback.Some?
    ensures r.Err? ==> r.error == CallbackAlreadySet
    ensures r.Ok? ==> r.value.callback == Some(cb) && r.value.(callback := m.callback) == m
  {
    if m.callback.Some? then Err(CallbackAlreadySet) else Ok(m.(callback := Some(cb)))
  }

  /** `ResetCallback`: clears the callback and nothing else. */
  function ResetCallback<C>(m: Message<C>): (r: Message<C>)
    ensures r.callback == None
    ensures r.(callback := m.callback) == m
  {
    m.(callback := None)
  }

  lemma ResetThenSetSucceeds<C>(m: Message<C>, cb: CallbackId)
    ensures SetCallback(ResetCallback(m), cb) == Ok(m.(callback := Some(cb)))
    ensures ResetCallback(ResetCallback(m)) == ResetCallback(m)
  {
  }

  /** Setting twice without an intervening reset fails, whatever the first callback was. */
  lemma SetTwiceFails<C>(m: Message<C>, cb1: CallbackId, cb2: CallbackId)
    requires SetCallback(m, cb1).Ok?
    ensures SetCallback(SetCallback(m, cb1).value, cb2) == Err(CallbackAlreadySet)
  {
  }

  /** `Recycle`: throws while any handler holds the message, otherwise clears the in-use flag. */
  function Recycle<C>(m: Message<C>): (r: Result<Message<C>, Error>)
    ensures r.Err? <==> m.handles > 0
    ensures r.Err? ==> r.error == RecycledWhileHandled
    ensures r.Ok? ==> !r.value.inUse && r.value.(inUse := m.inUse) == m
  {
    if m.handles > 0 then Err(RecycledWhileHandled) else Ok(m.(inUse := false))
  }

  /** A fresh message is idle, holds no handles, can be recycled and accepts a callback. */
  lemma NewIsIdle<C>(cb: CallbackId)
    ensures Recycle<C>(New()) == Ok(New())
    ensures SetCallback<C>(New(), cb).Ok?
  {
  }

  /** Recycling keeps the callback: a message recycled with a callback set refuses a new one until it is reset. */
  lemma RecycleKeepsCallback<C>(m: Message<C>, cb: CallbackId)
    requires m.callback.Some? && Recycle(m).Ok?
    ensures SetCallback(Recycle(m).value, cb) == Err(CallbackAlreadySet)
    ensures Recycle(m).value.content == m.content
  {
  }
}
