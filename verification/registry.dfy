/**
 * `Messenger._subscribers`: for every payload type, the list of subscribed
 * handlers in subscription order, duplicates included.
 */
module Registry {
  import opened Keys

  type Subscribers = map<Tag, seq<HandlerId>>

  /** The handlers of one type; a type that was never subscribed has none. */
  function Handlers(reg: Subscribers, tag: Tag): seq<HandlerId> {
    if tag in reg then reg[tag] else []
  }

  /** Position of the first occurrence of `h`. */
  function FirstIndex(s: seq<HandlerId>, h: HandlerId): (i: nat)
    requires h in s
    ensures i < |s| && s[i] == h && h !in s[..i]
  {
    if s[0] == h then 0
    else
      var i := FirstIndex(s[1..], h);
      assert s[..i + 1] == [s[0]] + s[1..][..i];
      i + 1
  }

  /** `List<T>.Remove`: drops the first element equal to `h`, if there is one. */
  function RemoveFirst(s: seq<HandlerId>, h: HandlerId): (r: seq<HandlerId>)
    ensures h !in s ==> r == s
    ensures h in s ==> r == s[..FirstIndex(s, h)] + s[FirstIndex(s, h) + 1..]
  {
    if |s| == 0 then []
    else if s[0] == h then
      assert s == [s[0]] + s[1..];
      s[1..]
    else
      var rest := RemoveFirst(s[1..], h);
      FirstIndexOfTail(s, h);
      [s[0]] + rest
  }

  /** Past a head that is not `h`, the first `h` is one further on, and cutting it commutes with the head. */
  lemma {:induction false} FirstIndexOfTail(s: seq<HandlerId>, h: HandlerId)
    requires |s| > 0 && s[0] != h
    ensures h !in s[1..] <==> h !in s
    ensures h in s ==>
              var j := FirstIndex(s[1..], h);
              && FirstIndex(s, h) == j + 1
              && s[..j + 1] + s[j + 2..] == [s[0]] + (s[1..][..j] + s[1..][j + 1..])
  {
    assert s == [s[0]] + s[1..];
    if h in s {
      var j := FirstIndex(s[1..], h);
      assert s[..j + 1] == [s[0]] + s[1..][..j];
      assert s[j + 2..] == s[1..][j + 1..];
    }
  }

  /** `Subscribe`: creates the type's list on first use and appends, keeping duplicates. */
  function Subscribe(reg: Subscribers, tag: Tag, h: HandlerId): (r: Subscribers)
    ensures r.Keys == reg.Keys + {tag}
    ensures Handlers(r, tag) == Handlers(reg, tag) + [h]
    ensures forall t :: t != tag ==> Handlers(r, t) == Handlers(reg, t)
  {
    reg[tag := Handlers(reg, tag) + [h]]
  }

  /** `Unsubscribe`: removes the first equal handler; nothing happens for an unknown type or an absent handler. */
  function Unsubscribe(reg: Subscribers, tag: Tag, h: HandlerId): (r: Subscribers)
    ensures r.Keys == reg.Keys
    ensures Handlers(r, tag) == RemoveFirst(Handlers(reg, tag), h)
    ensures forall t :: t != tag ==> Handlers(r, t) == Handlers(reg, t)
    ensures h !in Handlers(reg, tag) ==> r == reg
  {
    if tag in reg then
      assert h !in reg[tag] ==> reg[tag := reg[tag]] == reg;
      reg[tag := RemoveFirst(reg[tag], h)]
    else reg
  }

  /** Removal takes away exactly one registration of `h`, if there is one, and nothing else. */
  lemma {:induction false} RemoveFirstMultiset(s: seq<HandlerId>, h: HandlerId)
    ensures multiset(RemoveFirst(s, h)) == multiset(s) - multiset{h}
  {
    if h in s {
      RemovePresentMultiset(s, h, FirstIndex(s, h));
    } else {
      assert RemoveFirst(s, h) == s;
      assert h !in multiset(s);
    }
  }

  lemma {:induction false} RemovePresentMultiset(s: seq<HandlerId>, h: HandlerId, i: nat)
    requires i < |s| && s[i] == h
    ensures multiset(s[..i] + s[i + 1..]) == multiset(s) - multiset{h}
  {
    var pre: seq<HandlerId> := s[..i];
    var post: seq<HandlerId> := s[i + 1..];
    assert s == pre + [h] + post;
    var one: multiset<HandlerId> := multiset{h};
    assert multiset(s) == multiset(pre) + one + multiset(post);
  }

  /** Removing the first `h` from a list that ends with the only `h` gives back the prefix. */
  lemma {:induction false} RemoveFirstOfAppended(s: seq<HandlerId>, h: HandlerId)
    requires h !in s
    ensures RemoveFirst(s + [h], h) == s
  {
    if |s| > 0 {
      assert (s + [h])[1..] == s[1..] + [h];
      RemoveFirstOfAppended(s[1..], h);
    }
  }

  /**
   * Subscribe followed by unsubscribe of the same handler restores the type's
   * handlers as a multiset always, and as a list when the handler was not
   * subscribed before.
   */
  lemma {:induction false} SubscribeThenUnsubscribeHandlers(s: seq<HandlerId>, h: HandlerId)
    ensures multiset(RemoveFirst(s + [h], h)) == multiset(s)
    ensures h !in s ==> RemoveFirst(s + [h], h) == s
  {
    RemoveFirstMultiset(s + [h], h);
    assert multiset(s + [h]) - multiset{h} == multiset(s);
    if h !in s {
      RemoveFirstOfAppended(s, h);
    }
  }

  /**
   * Subscribe followed by unsubscribe on the registry: other types are
   * untouched, and the type's key stays even when its list becomes empty.
   */
  lemma SubscribeThenUnsubscribe(reg: Subscribers, tag: Tag, h: HandlerId)
    ensures var r := Unsubscribe(Subscribe(reg, tag, h), tag, h);
      && r.Keys == reg.Keys + {tag}
      && multiset(Handlers(r, tag)) == multiset(Handlers(reg, tag))
      && (forall t :: t != tag ==> Handlers(r, t) == Handlers(reg, t))
      && (h !in Handlers(reg, tag) ==> r == reg[tag := Handlers(reg, tag)])
  {
    var s := Handlers(reg, tag);
    var r := Unsubscribe(Subscribe(reg, tag, h), tag, h);
    SubscribeThenUnsubscribeHandlers(s, h);
    assert Handlers(r, tag) == RemoveFirst(s + [h], h);
  }

  /** When the handler was already subscribed, subscribe then unsubscribe moves it to the end. */
  lemma ResubscribeReorders()
    ensures var reg := map[StringType := [1, 2]];
      Handlers(Unsubscribe(Subscribe(reg, StringType, 1), StringType, 1), StringType) == [2, 1]
  {
    assert [1, 2, 1][..0] + [1, 2, 1][1..] == [2, 1];
  }

  /** Subscribing the same handler twice keeps both registrations. */
  lemma SubscribeKeepsDuplicates(reg: Subscribers, tag: Tag, h: HandlerId)
    ensures multiset(Handlers(Subscribe(Subscribe(reg, tag, h), tag, h), tag))[h]
            == multiset(Handlers(reg, tag))[h] + 2
  {
  }

  /** Unsubscribing removes exactly one registration of a subscribed handler. */
  lemma UnsubscribeRemovesOne(reg: Subscribers, tag: Tag, h: HandlerId)
    requires h in Handlers(reg, tag)
    ensures |Handlers(Unsubscribe(reg, tag, h), tag)| == |Handlers(reg, tag)| - 1
    ensures multiset(Handlers(Unsubscribe(reg, tag, h), tag))[h] == multiset(Handlers(reg, tag))[h] - 1
  {
    var s: seq<HandlerId> := Handlers(reg, tag);
    var r: seq<HandlerId> := RemoveFirst(s, h);
    assert Handlers(Unsubscribe(reg, tag, h), tag) == r;
    var i := FirstIndex(s, h);
    assert |r| == |s| - 1;
    RemoveFirstMultiset(s, h);
    assert multiset(r)[h] + 1 == multiset(s)[h];
  }
}
