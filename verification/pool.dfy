/**
 * `Messenger.MessagePool`: for every payload type, an append-only list of
 * envelopes. An envelope is identified by its position in its type's list,
 * which never changes because the pool never shrinks.
 */
module Pool {
  import opened Wrappers
  import opened Keys
  import opened Envelope

  type PoolMap<C> = map<Tag, seq<Message<C>>>

  /** The envelopes of one type; a type that was never pooled has none. */
  function Envelopes<C>(pool: PoolMap<C>, tag: Tag): seq<Message<C>> {
    if tag in pool then pool[tag] else []
  }

  predicate HasIdle<C>(s: seq<Message<C>>) {
    exists i :: 0 <= i < |s| && !s[i].inUse
  }

  /** `FirstOrDefault(item => item._inUse == false)`, as a position. */
  function FirstIdle<C>(s: seq<Message<C>>): (r: Option<nat>)
    ensures r.None? <==> !HasIdle(s)
    ensures r.Some? ==> r.value < |s| && !s[r.value].inUse
    ensures r.Some? ==> forall j :: 0 <= j < r.value ==> s[j].inUse
    decreases |s|
  {
    if |s| == 0 then None
    else if !s[0].inUse then Some(0)
    else
      match FirstIdle(s[1..])
      case None =>
        assert forall i :: 1 <= i < |s| ==> s[i] == s[1..][i - 1];
        None
      case Some(i) =>
        assert forall j :: 1 <= j < i + 1 ==> s[j] == s[1..][j - 1];
        Some(i + 1)
  }

  /** The pool after an acquisition, and the position handed out (`None` for `null`). */
  datatype Acquired<C> = Acquired(pool: PoolMap<C>, index: Option<nat>)

  /**
   * `MessagePool.GetMessage`: the first envelope of the type that is not in use
   * is marked in use and returned; otherwise nothing changes and `null` is returned.
   */
  function Acquire<C>(pool: PoolMap<C>, tag: Tag): (r: Acquired<C>)
    ensures r.index.None? <==> !HasIdle(Envelopes(pool, tag))
    ensures r.index.None? ==> r.pool == pool
    ensures r.index.Some? ==>
              && tag in pool
              && r.index.value < |pool[tag]|
              && !pool[tag][r.index.value].inUse
              && (forall j :: 0 <= j < r.index.value ==> pool[tag][j].inUse)
    ensures r.index.Some? ==>
              && tag in r.pool
              && r.pool[tag] == pool[tag][r.index.value := pool[tag][r.index.value].(inUse := true)]
              && r.pool == pool[tag := r.pool[tag]]
  {
    if tag !in pool then Acquired(pool, None)
    else
      match FirstIdle(pool[tag])
      case None => Acquired(pool, None)
      case Some(i) =>
        var s := pool[tag];
        Acquired(pool[tag := s[i := s[i].(inUse := true)]], Some(i))
  }

  /** `MessagePool.AddMessage`: creates the type's list on first use and appends. */
  function AddMessage<C>(pool: PoolMap<C>, tag: Tag, m: Message<C>): (r: PoolMap<C>)
    ensures r.Keys == pool.Keys + {tag}
    ensures Envelopes(r, tag) == Envelopes(pool, tag) + [m]
    ensures forall t :: t != tag ==> Envelopes(r, t) == Envelopes(pool, t)
  {
    pool[tag := Envelopes(pool, tag) + [m]]
  }

  /** Pool `q` extends pool `p`: no type's list is shorter in `q`, so every position stays valid. */
  ghost predicate Extends<C>(p: PoolMap<C>, q: PoolMap<C>) {
    forall t :: |Envelopes(p, t)| <= |Envelopes(q, t)|
  }

  /** Neither pool operation ever shrinks the pool. */
  lemma PoolOperationsNeverShrink<C>(pool: PoolMap<C>, tag: Tag, m: Message<C>)
    ensures Extends(pool, Acquire(pool, tag).pool)
    ensures Extends(pool, AddMessage(pool, tag, m))
  {
    var a := Acquire(pool, tag);
    forall t ensures |Envelopes(pool, t)| <= |Envelopes(a.pool, t)| {
      if a.index.Some? && t == tag {
        assert |a.pool[tag]| == |pool[tag]|;
      }
    }
    var q := AddMessage(pool, tag, m);
    forall t ensures |Envelopes(pool, t)| <= |Envelopes(q, t)| {
    }
  }
}
