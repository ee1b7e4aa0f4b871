/** Failure-carrying values used by the model in place of `null` and of thrown exceptions. */
module Wrappers {

  /** `None` stands for a C# `null` reference (or for `default(T)` of a fresh message). */
  datatype Option<+T> = None | Some(value: T)

  /** `Err` stands for an `InvalidOperationException` thrown by the operation. */
  datatype Result<+T, +E> = Ok(value: T) | Err(error: E)
}

/** The opaque keys of the bus: payload types and delegates. */
module Keys {

  /** A payload type, `typeof(TMessage)`: the key of both the pool and the registry. Two tags are the same type iff equal. */
  type Tag = nat

  /** The tag of `System.String`, the payload type of the repository's tests. */
  const StringType: Tag := 1

  /** A subscriber delegate `Action<Message<T>>`; two handlers are the same delegate iff their ids are equal. */
  type HandlerId = nat

  /** A completion delegate stored in `PublishComplete`. */
  type CallbackId = nat
}
