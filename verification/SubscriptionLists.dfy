/** The subscription list of one responder, and what a run of subscribe and unsubscribe messages makes of it. */
module SubscriptionLists {
  import opened Binary
  import opened Topics
  import opened Subscriptions
  import opened Messages

  /** Without the oldest entry that has this key. */
  function Remove(subs: seq<Subscription>, main: Bytes, kind: SubscriptionType): seq<Subscription> {
    if subs == [] then []
    else if subs[0].Equals(main, kind) then subs[1..]
    else [subs[0]] + Remove(subs[1..], main, kind)
  }

  function EntryOf(m: DataMessage): Subscription {
    Subscription.Make(m.topic, SubscriptionTypeOf(m.kind))
  }

  function Apply(subs: seq<Subscription>, m: DataMessage): seq<Subscription> {
    if m.IsSubscribe() then subs + [EntryOf(m)]
    else if m.IsUnsubscribe() then Remove(subs, m.topic.main, SubscriptionTypeOf(m.kind))
    else subs
  }

  /** The list after all these messages from one peer. */
  function SubsFrom(ms: seq<DataMessage>): seq<Subscription>
    decreases |ms|
  {
    if ms == [] then [] else Apply(SubsFrom(ms[..|ms| - 1]), ms[|ms| - 1])
  }

  // ---------------------------------------------------------------- one key

  /** The entries with this key, oldest first. */
  function Restrict(subs: seq<Subscription>, main: Bytes, kind: SubscriptionType): seq<Subscription> {
    if subs == [] then []
    else if subs[0].Equals(main, kind) then [subs[0]] + Restrict(subs[1..], main, kind)
    else Restrict(subs[1..], main, kind)
  }

  /** A queue that only knows one key: its subscribes enter at the back, its unsubscribes drop the front. */
  function KeyQueue(ms: seq<DataMessage>, main: Bytes, kind: SubscriptionType): seq<Subscription>
    decreases |ms|
  {
    if ms == [] then []
    else
      var q, m := KeyQueue(ms[..|ms| - 1], main, kind), ms[|ms| - 1];
      if m.IsSubscribe() && EntryOf(m).Equals(main, kind) then q + [EntryOf(m)]
      else if m.IsUnsubscribe() && m.topic.main == main && SubscriptionTypeOf(m.kind) == kind && q != [] then q[1..]
      else q
  }

  lemma {:induction false} RestrictAppend(subs: seq<Subscription>, s: Subscription, main: Bytes, kind: SubscriptionType)
    ensures Restrict(subs + [s], main, kind) ==
      Restrict(subs, main, kind) + if s.Equals(main, kind) then [s] else []
  {
    if subs == [] {
      assert subs + [s] == [s];
    } else {
      assert (subs + [s])[1..] == subs[1..] + [s];
      RestrictAppend(subs[1..], s, main, kind);
    }
  }

  predicate NoneUnrestricted(subs: seq<Subscription>) {
    forall k :: 0 <= k < |subs| ==> !subs[k].Unrestricted?
  }

  /** A removal drops the oldest entry of its own key and leaves every other key alone. */
  lemma {:induction false} RestrictRemove(subs: seq<Subscription>, main: Bytes, kind: SubscriptionType,
                                          main': Bytes, kind': SubscriptionType)
    requires NoneUnrestricted(subs)
    ensures var q := Restrict(subs, main, kind);
      Restrict(Remove(subs, main', kind'), main, kind) == if main == main' && kind == kind' && q != [] then q[1..] else q
    ensures NoneUnrestricted(Remove(subs, main', kind'))
  {
    if subs != [] && !subs[0].Equals(main', kind') {
      RestrictRemove(subs[1..], main, kind, main', kind');
      var r := [subs[0]] + Remove(subs[1..], main', kind');
      assert r[1..] == Remove(subs[1..], main', kind');
    }
  }

  lemma {:induction false} KeyQueueAndKinds(ms: seq<DataMessage>, main: Bytes, kind: SubscriptionType)
    ensures NoneUnrestricted(SubsFrom(ms))
    ensures Restrict(SubsFrom(ms), main, kind) == KeyQueue(ms, main, kind)
    decreases |ms|
  {
    hide Apply, Restrict;
    if ms == [] {
      QueueOfNothing(main, kind);
    } else {
      var before, m := ms[..|ms| - 1], ms[|ms| - 1];
      KeyQueueAndKinds(before, main, kind);
      QueueStep(SubsFrom(before), m, main, kind);
    }
  }

  lemma QueueOfNothing(main: Bytes, kind: SubscriptionType)
    ensures Restrict([], main, kind) == []
  {
  }

  /** One message in the queue of one key. */
  lemma QueueStep(subs: seq<Subscription>, m: DataMessage, main: Bytes, kind: SubscriptionType)
    requires NoneUnrestricted(subs)
    ensures NoneUnrestricted(Apply(subs, m))
    ensures var q, q' := Restrict(subs, main, kind), Restrict(Apply(subs, m), main, kind);
      if m.IsSubscribe() && EntryOf(m).Equals(main, kind) then q' == q + [EntryOf(m)]
      else if m.IsUnsubscribe() && m.topic.main == main && SubscriptionTypeOf(m.kind) == kind && q != []
      then q' == q[1..]
      else q' == q
  {
    EntryIsRestricted(m);
    hide Restrict, Remove, EntryOf, Subscription.Equals;
    if m.IsSubscribe() {
      RestrictAppend(subs, EntryOf(m), main, kind);
      assert Restrict(subs, main, kind) + [] == Restrict(subs, main, kind);
    } else {
      RestrictRemove(subs, main, kind, m.topic.main, SubscriptionTypeOf(m.kind));
    }
  }

  lemma EntryIsRestricted(m: DataMessage)
    ensures !EntryOf(m).Unrestricted?
  {
  }

  /** After any run, the entries with one key are the queue of that key's subscribes, from which each unsubscribe of
      that key has dropped the oldest one left. The messages of other keys make no difference. */
  lemma PerKeyQueue(ms: seq<DataMessage>, main: Bytes, kind: SubscriptionType)
    ensures Restrict(SubsFrom(ms), main, kind) == KeyQueue(ms, main, kind)
  {
    KeyQueueAndKinds(ms, main, kind);
  }

  // ---------------------------------------------------------------- what each kind of message does

  /** The entries that an unsubscribe message of this type is meant for. */
  predicate Meant(s: Subscription, kind: MessageType, main: Bytes) {
    match kind
    case UnsubscribeFull => s.FullTopic? && s.data.main == main
    case UnsubscribePrefix => s.PrefixTopic? && s.data.main == main
    case UnsubscribeRegex => s.RegexTopic? && s.data.main == main
    case UnsubscribeRegexReversed => s.RegexTopicReversed? && s.data.main == main
    case _ => false
  }

  /** `after` is `before` without the first of these entries, or the same list when there is none. */
  ghost predicate OldestGone(before: seq<Subscription>, after: seq<Subscription>, kind: MessageType, main: Bytes) {
    if forall k :: 0 <= k < |before| ==> !Meant(before[k], kind, main) then after == before
    else exists k | 0 <= k < |before| ::
      && Meant(before[k], kind, main)
      && (forall j :: 0 <= j < k ==> !Meant(before[j], kind, main))
      && after == before[..k] + before[k + 1..]
  }

  /** Type by type: the four subscribe types add the entry of their kind with both parts of the topic, the four
      unsubscribe types take the oldest entry of their kind with that main topic, and no other type does anything. */
  lemma ListByType(ms: seq<DataMessage>, m: DataMessage)
    ensures SubsFrom([]) == []
    ensures var before, after, main := SubsFrom(ms), SubsFrom(ms + [m]), m.topic.main;
      match m.kind
      case SubscribeFull => after == before + [FullTopic(m.topic)]
      case SubscribePrefix => after == before + [PrefixTopic(m.topic)]
      case SubscribeRegex => after == before + [RegexTopic(m.topic)]
      case SubscribeRegexReversed => after == before + [RegexTopicReversed(m.topic)]
      case UnsubscribeFull => OldestGone(before, after, UnsubscribeFull, main)
      case UnsubscribePrefix => OldestGone(before, after, UnsubscribePrefix, main)
      case UnsubscribeRegex => OldestGone(before, after, UnsubscribeRegex, main)
      case UnsubscribeRegexReversed => OldestGone(before, after, UnsubscribeRegexReversed, main)
      case Data => after == before
      case PlainData => after == before
      case System => after == before
      case Null => after == before
  {
    assert (ms + [m])[..|ms|] == ms && (ms + [m])[|ms|] == m;
    KeyQueueAndKinds(ms, m.topic.main, Full);
    hide NoneUnrestricted;
    if m.IsUnsubscribe() {
      hide Remove, OldestGone;
      RemoveTakesOldest(SubsFrom(ms), m.topic.main, m.kind);
    }
  }

  lemma RemoveTakesOldest(subs: seq<Subscription>, main: Bytes, kind: MessageType)
    requires NoneUnrestricted(subs)
    requires kind in {UnsubscribeFull, UnsubscribePrefix, UnsubscribeRegex, UnsubscribeRegexReversed}
    ensures OldestGone(subs, Remove(subs, main, SubscriptionTypeOf(kind)), kind, main)
  {
    forall k | 0 <= k < |subs|
      ensures Meant(subs[k], kind, main) <==> subs[k].Equals(main, SubscriptionTypeOf(kind))
    {
      MeantIsKey(subs[k], kind, main);
    }
    hide Remove, Subscription.Equals, SubscriptionTypeOf, Meant;
    RemoveAt(subs, main, SubscriptionTypeOf(kind), Oldest(subs, main, SubscriptionTypeOf(kind)));
  }

  lemma MeantIsKey(s: Subscription, kind: MessageType, main: Bytes)
    requires !s.Unrestricted?
    requires kind in {UnsubscribeFull, UnsubscribePrefix, UnsubscribeRegex, UnsubscribeRegexReversed}
    ensures Meant(s, kind, main) <==> s.Equals(main, SubscriptionTypeOf(kind))
  {
  }

  /** The default-constructed subscription, which no message makes, has the empty main topic for its key. */
  lemma UnrestrictedKey(main: Bytes, kind: SubscriptionType)
    ensures Unrestricted.Equals(main, kind) <==> |main| == 0
  {
  }

  // ---------------------------------------------------------------- what one subscribe message lets through

  /** Type by type, for any topic: what a responder that has got one message is sent, and nothing before it. */
  lemma OneSubscribeLetsThrough(engine: RegexEngine, m: DataMessage, topic: Topic)
    ensures !AnyMatch(engine, SubsFrom([]), topic)
    ensures AnyMatch(engine, SubsFrom([m]), topic) <==>
      match m.kind
      case SubscribeFull => topic.main == m.topic.main && (|m.topic.sub| == 0 || topic.sub == m.topic.sub)
      case SubscribePrefix =>
        (exists rest :: topic.main == m.topic.main + rest) && (|m.topic.sub| == 0 || topic.sub == m.topic.sub)
      case SubscribeRegex => topic.main == m.topic.main && engine(m.topic.sub, topic.sub)
      case SubscribeRegexReversed => topic.main == m.topic.main && !engine(m.topic.sub, topic.sub)
      case _ => false
  {
    ListByType([], m);
    assert [] + [m] == [m];
    if m.IsSubscribe() {
      assert SubsFrom([m]) == [EntryOf(m)];
      OneMatches(engine, EntryOf(m), topic);
      if m.kind.SubscribePrefix? && m.topic.main <= topic.main {
        assert topic.main == m.topic.main + topic.main[|m.topic.main|..];
      }
    }
  }

  /** A responder that has got this one message lets the topic through. */
  predicate LetsThrough(engine: RegexEngine, m: DataMessage, topic: Topic) {
    AnyMatch(engine, SubsFrom([m]), topic)
  }

  /** A list of subscribe messages lets through what one of them does. */
  lemma {:induction false} SubscribesLetThrough(engine: RegexEngine, ms: seq<DataMessage>, topic: Topic)
    requires forall m :: m in ms ==> m.IsSubscribe()
    ensures AnyMatch(engine, SubsFrom(ms), topic) <==> exists m :: m in ms && LetsThrough(engine, m, topic)
    decreases |ms|
  {
    hide AnyMatch, EntryOf, LetsThrough;
    if ms == [] {
      OneMatchesNot(engine, topic);
    } else {
      var before, m := ms[..|ms| - 1], ms[|ms| - 1];
      SubscribesLetThrough(engine, before, topic);
      MoreMatchesMore(engine, SubsFrom(before), [EntryOf(m)], topic);
      OneLetsThrough(engine, m, topic);
      assert ms == before + [m];
    }
  }

  lemma OneLetsThrough(engine: RegexEngine, m: DataMessage, topic: Topic)
    requires m.IsSubscribe()
    ensures LetsThrough(engine, m, topic) <==> AnyMatch(engine, [EntryOf(m)], topic)
  {
    OneEntry(m);
  }

  lemma OneMatchesNot(engine: RegexEngine, topic: Topic)
    ensures !AnyMatch(engine, SubsFrom([]), topic)
  {
  }

  lemma OneEntry(m: DataMessage)
    requires m.IsSubscribe()
    ensures SubsFrom([m]) == [EntryOf(m)]
  {
    hide EntryOf;
    assert [m][..0] == [];
  }

  /** What a callback is registered for: a subscription built directly, or none at all. */
  lemma MadeLetsThrough(engine: RegexEngine, pattern: Topic, topic: Topic)
    ensures Unrestricted.Match(engine, topic)
    ensures Subscription.Make(pattern, SubscriptionType.Null) == Subscription.Make(pattern, Full) == FullTopic(pattern)
    ensures Subscription.Make(pattern, Full).Match(engine, topic) <==>
      topic.main == pattern.main && (|pattern.sub| == 0 || topic.sub == pattern.sub)
    ensures Subscription.Make(pattern, Prefix).Match(engine, topic) <==>
      (exists rest :: topic.main == pattern.main + rest) && (|pattern.sub| == 0 || topic.sub == pattern.sub)
    ensures Subscription.Make(pattern, Regex).Match(engine, topic) <==>
      topic.main == pattern.main && engine(pattern.sub, topic.sub)
    ensures Subscription.Make(pattern, RegexReversed).Match(engine, topic) <==>
      topic.main == pattern.main && !engine(pattern.sub, topic.sub)
  {
    if pattern.main <= topic.main {
      assert topic.main == pattern.main + topic.main[|pattern.main|..];
    }
  }

  // ---------------------------------------------------------------- undoing a subscribe

  /** The place of the oldest entry with this key, or the length of the list. */
  function Oldest(subs: seq<Subscription>, main: Bytes, kind: SubscriptionType): (k: nat)
    ensures k <= |subs|
    ensures forall j :: 0 <= j < k ==> !subs[j].Equals(main, kind)
    ensures k < |subs| ==> subs[k].Equals(main, kind)
  {
    if subs == [] || subs[0].Equals(main, kind) then 0 else 1 + Oldest(subs[1..], main, kind)
  }

  lemma {:induction false} RemoveAt(subs: seq<Subscription>, main: Bytes, kind: SubscriptionType, k: nat)
    requires k <= |subs| && forall j :: 0 <= j < k ==> !subs[j].Equals(main, kind)
    requires k < |subs| ==> subs[k].Equals(main, kind)
    ensures Remove(subs, main, kind) == if k < |subs| then subs[..k] + subs[k + 1..] else subs
  {
    hide Subscription.Equals;
    if k > 0 {
      var t := subs[1..];
      assert forall j :: 0 <= j < k - 1 ==> t[j] == subs[j + 1];
      RemoveAt(t, main, kind, k - 1);
      assert subs == [subs[0]] + t;
      if k < |subs| {
        WithoutBehind(subs, k);
      }
    }
  }

  lemma WithoutBehind(subs: seq<Subscription>, k: nat)
    requires 0 < k < |subs|
    ensures [subs[0]] + (subs[1..][..k - 1] + subs[1..][k..]) == subs[..k] + subs[k + 1..]
  {
    assert subs[..k] == [subs[0]] + subs[1..][..k - 1];
    assert subs[1..][k..] == subs[k + 1..];
  }

  /** An unsubscribe message for the subscription that a subscribe message has made. */
  predicate Undoes(unsub: DataMessage, sub: DataMessage) {
    && sub.IsSubscribe() && unsub.IsUnsubscribe()
    && unsub.topic.main == sub.topic.main
    && SubscriptionTypeOf(unsub.kind) == SubscriptionTypeOf(sub.kind)
  }

  /** A subscribe followed by its unsubscribe gives back the very list exactly when, from the oldest entry with the same kind
      and main topic on, there is nothing but copies of the new entry; above all when no entry has that key. */
  lemma UnsubscribeRestoresTheList(subs: seq<Subscription>, sub: DataMessage, unsub: DataMessage)
    requires Undoes(unsub, sub)
    ensures var s := EntryOf(sub);
      var k := Oldest(subs, sub.topic.main, SubscriptionTypeOf(sub.kind));
      Apply(Apply(subs, sub), unsub) == subs <==> forall j :: k <= j < |subs| ==> subs[j] == s
  {
    var s := EntryOf(sub);
    var main, kind := sub.topic.main, SubscriptionTypeOf(sub.kind);
    EntryHasItsKey(sub);
    hide Remove, EntryOf, Subscription.Equals;
    var k := Oldest(subs, main, kind);
    var longer := subs + [s];
    assert forall j :: 0 <= j < k ==> longer[j] == subs[j];
    assert longer[k].Equals(main, kind);
    RemoveAt(longer, main, kind, k);
    DropAt(subs, s, k);
  }

  lemma EntryHasItsKey(m: DataMessage)
    requires m.IsSubscribe()
    ensures EntryOf(m).Equals(m.topic.main, SubscriptionTypeOf(m.kind))
  {
  }

  /** The list with one more entry and the one at `k` dropped. */
  lemma DropAt(subs: seq<Subscription>, s: Subscription, k: nat)
    requires k <= |subs|
    ensures (subs + [s])[..k] + (subs + [s])[k + 1..] == subs <==> forall j :: k <= j < |subs| ==> subs[j] == s
  {
    var longer := subs + [s];
    var r := longer[..k] + longer[k + 1..];
    assert forall j :: k <= j < |subs| ==> r[j] == longer[j + 1];
    if r == subs {
      AllFollow(subs, s, k);
    }
  }

  lemma {:induction false} AllFollow(subs: seq<Subscription>, s: Subscription, k: nat)
    requires k <= |subs| && forall j :: k <= j < |subs| ==> subs[j] == (subs + [s])[j + 1]
    ensures forall j :: k <= j < |subs| ==> subs[j] == s
    decreases |subs| - k
  {
    if k < |subs| {
      AllFollow(subs, s, k + 1);
      if k + 1 < |subs| {
        assert subs[k + 1] == s;
      }
    }
  }

  /** The order between entries of different keys is seen by no delivery and no removal. What is seen, the queue of
      every key, a subscribe followed by its unsubscribe leaves as it was exactly when all entries with the key of the
      new one are copies of it; above all when there are none. */
  lemma UnsubscribeUndoesExactly(subs: seq<Subscription>, sub: DataMessage, unsub: DataMessage)
    requires Undoes(unsub, sub) && NoneUnrestricted(subs)
    ensures var s, after := EntryOf(sub), Apply(Apply(subs, sub), unsub);
      var queue := Restrict(subs, sub.topic.main, SubscriptionTypeOf(sub.kind));
      (forall main, kind :: Restrict(after, main, kind) == Restrict(subs, main, kind))
      <==> forall k :: 0 <= k < |queue| ==> queue[k] == s
  {
    var after := Apply(Apply(subs, sub), unsub);
    var s, main, kind := EntryOf(sub), sub.topic.main, SubscriptionTypeOf(sub.kind);
    var queue := Restrict(subs, main, kind);
    QueueAfter(subs, sub, unsub, main, kind);
    DropAt(queue, s, 0);
    assert (queue + [s])[..0] + (queue + [s])[1..] == (queue + [s])[1..];
    if forall k :: 0 <= k < |queue| ==> queue[k] == s {
      forall main', kind' ensures Restrict(after, main', kind') == Restrict(subs, main', kind') {
        QueueAfter(subs, sub, unsub, main', kind');
      }
    }
  }

  /** The queue of one key after a subscribe and its unsubscribe. */
  lemma QueueAfter(subs: seq<Subscription>, sub: DataMessage, unsub: DataMessage, main: Bytes,
                   kind: SubscriptionType)
    requires Undoes(unsub, sub) && NoneUnrestricted(subs)
    ensures var q := Restrict(subs, main, kind);
      Restrict(Apply(Apply(subs, sub), unsub), main, kind) ==
        if main == sub.topic.main && kind == SubscriptionTypeOf(sub.kind) then (q + [EntryOf(sub)])[1..] else q
  {
    RestrictAppend(subs, EntryOf(sub), main, kind);
    RestrictRemove(subs + [EntryOf(sub)], main, kind, unsub.topic.main, SubscriptionTypeOf(unsub.kind));
  }

  /** The delivery of one topic survives a subscribe and its unsubscribe exactly when the oldest entry with that key,
      which is the one to go, is missing, or is made up for by another entry, or matches as the new one does. */
  lemma UnsubscribeKeepsDeliveryExactly(engine: RegexEngine, subs: seq<Subscription>, sub: DataMessage,
                                        unsub: DataMessage, topic: Topic)
    requires Undoes(unsub, sub)
    ensures var main, kind := sub.topic.main, SubscriptionTypeOf(sub.kind);
      var k := Oldest(subs, main, kind);
      (AnyMatch(engine, Apply(Apply(subs, sub), unsub), topic) <==> AnyMatch(engine, subs, topic))
      <==> || k == |subs|
           || AnyMatch(engine, Remove(subs, main, kind), topic)
           || (subs[k].Match(engine, topic) <==> EntryOf(sub).Match(engine, topic))
  {
    var s := EntryOf(sub);
    var k := Oldest(subs, sub.topic.main, SubscriptionTypeOf(sub.kind));
    hide EntryOf, Subscription.Match, Subscription.Equals, Apply, Remove, AnyMatch;
    ListAfter(subs, sub, unsub);
    if k < |subs| {
      LastForOne(engine, subs, k, s, topic);
    }
  }

  lemma LastForOne(engine: RegexEngine, subs: seq<Subscription>, k: nat, s: Subscription, topic: Topic)
    requires k < |subs|
    ensures var others := subs[..k] + subs[k + 1..];
      (AnyMatch(engine, others + [s], topic) <==> AnyMatch(engine, subs, topic))
      <==> AnyMatch(engine, others, topic) || (subs[k].Match(engine, topic) <==> s.Match(engine, topic))
  {
    hide Subscription.Match, AnyMatch;
    MoreMatchesMore(engine, subs[..k] + subs[k + 1..], [s], topic);
    OneMatches(engine, s, topic);
    WithoutOne(engine, subs, k, topic);
  }

  /** The list after a subscribe and its unsubscribe: the new entry has taken the place of the oldest with its key. */
  lemma ListAfter(subs: seq<Subscription>, sub: DataMessage, unsub: DataMessage)
    requires Undoes(unsub, sub)
    ensures var main, kind := sub.topic.main, SubscriptionTypeOf(sub.kind);
      var k := Oldest(subs, main, kind);
      && (k == |subs| ==> Apply(Apply(subs, sub), unsub) == subs)
      && (k < |subs| ==> Remove(subs, main, kind) == subs[..k] + subs[k + 1..]
                         && Apply(Apply(subs, sub), unsub) == Remove(subs, main, kind) + [EntryOf(sub)])
  {
    var main, kind := sub.topic.main, SubscriptionTypeOf(sub.kind);
    EntryHasItsKey(sub);
    hide EntryOf, Subscription.Equals;
    RemoveFromLonger(subs, EntryOf(sub), main, kind);
    RemoveAt(subs, main, kind, Oldest(subs, main, kind));
  }

  lemma {:induction false} RemoveFromLonger(subs: seq<Subscription>, s: Subscription, main: Bytes,
                                            kind: SubscriptionType)
    requires s.Equals(main, kind)
    ensures Remove(subs + [s], main, kind) ==
      if Oldest(subs, main, kind) == |subs| then subs else Remove(subs, main, kind) + [s]
  {
    hide Subscription.Equals;
    if subs == [] {
      assert subs + [s] == [s];
    } else {
      assert (subs + [s])[1..] == subs[1..] + [s];
      assert subs == [subs[0]] + subs[1..];
      if !subs[0].Equals(main, kind) {
        RemoveFromLonger(subs[1..], s, main, kind);
        var r := Remove(subs[1..], main, kind);
        assert [subs[0]] + (r + [s]) == ([subs[0]] + r) + [s];
      }
    }
  }

  lemma WithoutOne(engine: RegexEngine, subs: seq<Subscription>, k: nat, topic: Topic)
    requires k < |subs|
    ensures AnyMatch(engine, subs, topic)
            <==> AnyMatch(engine, subs[..k] + subs[k + 1..], topic) || subs[k].Match(engine, topic)
  {
    hide Subscription.Match, AnyMatch;
    assert subs == subs[..k] + ([subs[k]] + subs[k + 1..]);
    MoreMatchesMore(engine, subs[..k], [subs[k]] + subs[k + 1..], topic);
    MoreMatchesMore(engine, [subs[k]], subs[k + 1..], topic);
    MoreMatchesMore(engine, subs[..k], subs[k + 1..], topic);
    OneMatches(engine, subs[k], topic);
  }

  /** Where the queues are unchanged so is every delivery. */
  lemma UndoneKeepsAllDeliveries(engine: RegexEngine, subs: seq<Subscription>, sub: DataMessage, unsub: DataMessage,
                                 topic: Topic)
    requires Undoes(unsub, sub)
    requires var queue := Restrict(subs, sub.topic.main, SubscriptionTypeOf(sub.kind));
      forall k :: 0 <= k < |queue| ==> queue[k] == EntryOf(sub)
    ensures AnyMatch(engine, Apply(Apply(subs, sub), unsub), topic) <==> AnyMatch(engine, subs, topic)
  {
    hide EntryOf, Subscription.Match, Apply, AnyMatch;
    OldestIsFirst(subs, sub.topic.main, SubscriptionTypeOf(sub.kind));
    UnsubscribeKeepsDeliveryExactly(engine, subs, sub, unsub, topic);
  }

  lemma {:induction false} OldestIsFirst(subs: seq<Subscription>, main: Bytes, kind: SubscriptionType)
    ensures var k, queue := Oldest(subs, main, kind), Restrict(subs, main, kind);
      k < |subs| ==> queue != [] && queue[0] == subs[k]
  {
    if subs != [] && !subs[0].Equals(main, kind) {
      OldestIsFirst(subs[1..], main, kind);
    }
  }

  lemma OneMatches(engine: RegexEngine, s: Subscription, topic: Topic)
    ensures AnyMatch(engine, [s], topic) <==> s.Match(engine, topic)
  {
    assert [s][0] == s;
  }

  /** Unsubscribing from a second subtopic takes away the first one: the removal key has no subtopic. */
  lemma UnsubscribeTakesTheOldest(main: Bytes, a: Bytes, b: Bytes, created: DateTime)
    requires a != b && a != [] && b != []
    ensures var first := DataMessage(SubscribeFull, Topic(main, a), [], 0, created, []);
      var second := first.(topic := Topic(main, b));
      var undo := second.(kind := UnsubscribeFull);
      var subs := SubsFrom([first]);
      forall engine: RegexEngine ::
        && AnyMatch(engine, subs, Topic(main, a))
        && !AnyMatch(engine, Apply(Apply(subs, second), undo), Topic(main, a))
  {
    var first := DataMessage(SubscribeFull, Topic(main, a), [], 0, created, []);
    var second := first.(topic := Topic(main, b));
    var undo := second.(kind := UnsubscribeFull);
    assert [first][..0] == [];
    assert SubsFrom([first]) == [EntryOf(first)];
    RemoveAt([EntryOf(first), EntryOf(second)], main, Full, 0);
    assert Apply(Apply([EntryOf(first)], second), undo) == [EntryOf(second)];
    assert [EntryOf(first)][0] == FullTopic(Topic(main, a));
    forall engine: RegexEngine ensures AnyMatch(engine, [EntryOf(first)], Topic(main, a)) {
      assert [EntryOf(first)][0].Match(engine, Topic(main, a));
    }
  }

  // ---------------------------------------------------------------- the factories

  /** A subscription of the requested kind is what the broker makes of a `subscribe` message, exactly for the kinds
      other than `Null` and `RegexReversed`, which both arrive as `Full`; the `unsubscribe` message agrees with it. */
  lemma FactoryKinds(kind: SubscriptionType)
    ensures SubscribeType(kind) in {SubscribeFull, SubscribePrefix, SubscribeRegex}
    ensures UnsubscribeType(kind) in {UnsubscribeFull, UnsubscribePrefix, UnsubscribeRegex}
    ensures SubscribeWithObjectType(kind)
      in {SubscribeFull, SubscribePrefix, SubscribeRegex, SubscribeRegexReversed}
    ensures SubscriptionTypeOf(SubscribeType(kind)) == kind <==> kind != SubscriptionType.Null && kind != RegexReversed
    ensures SubscriptionTypeOf(UnsubscribeType(kind)) == SubscriptionTypeOf(SubscribeType(kind))
    ensures IsValidType(SubscribeType(kind)) && IsValidType(UnsubscribeType(kind))
    ensures IsValidType(SubscribeWithObjectType(kind)) <==> kind != RegexReversed
    ensures SubscriptionTypeOf(SubscribeWithObjectType(kind)) == kind <==> kind != SubscriptionType.Null
  {
  }

  // ---------------------------------------------------------------- matching

  /** A longer list lets everything through that a part of it does. */
  lemma MoreMatchesMore(engine: RegexEngine, a: seq<Subscription>, b: seq<Subscription>, topic: Topic)
    ensures AnyMatch(engine, a + b, topic) <==> AnyMatch(engine, a, topic) || AnyMatch(engine, b, topic)
  {
    if AnyMatch(engine, a, topic) {
      var k :| 0 <= k < |a| && a[k].Match(engine, topic);
      assert (a + b)[k] == a[k];
    }
    if AnyMatch(engine, b, topic) {
      var k :| 0 <= k < |b| && b[k].Match(engine, topic);
      assert (a + b)[|a| + k] == b[k];
    }
  }

  /** `a` with the entry at `k` replaced by one that matches no less. */
  lemma WiderEntry(engine: RegexEngine, a: seq<Subscription>, k: nat, wider: Subscription, topic: Topic)
    requires k < |a| && (a[k].Match(engine, topic) ==> wider.Match(engine, topic))
    ensures AnyMatch(engine, a, topic) ==> AnyMatch(engine, a[k := wider], topic)
  {
    if AnyMatch(engine, a, topic) {
      var j :| 0 <= j < |a| && a[j].Match(engine, topic);
      assert a[k := wider][j].Match(engine, topic);
    }
  }

  /** Full implies prefix, and a shorter prefix or an empty subtopic widens: replacing entries of a list so loses
      no delivery. */
  lemma WideningKeepsDeliveries(engine: RegexEngine, a: seq<Subscription>, k: nat, shorter: Bytes, topic: Topic)
    requires k < |a| && (a[k].FullTopic? || a[k].PrefixTopic?) && shorter <= a[k].data.main
    ensures AnyMatch(engine, a, topic) ==> AnyMatch(engine, a[k := PrefixTopic(a[k].data)], topic)
    ensures AnyMatch(engine, a, topic) ==> AnyMatch(engine, a[k := PrefixTopic(Topic(shorter, a[k].data.sub))], topic)
    ensures AnyMatch(engine, a, topic) ==> AnyMatch(engine, a[k := PrefixTopic(Topic(shorter, []))], topic)
  {
    WiderEntry(engine, a, k, PrefixTopic(a[k].data), topic);
    WiderEntry(engine, a, k, PrefixTopic(Topic(shorter, a[k].data.sub)), topic);
    WiderEntry(engine, a, k, PrefixTopic(Topic(shorter, [])), topic);
  }

  /** A regex and its reversal share out the topics of their main topic and match no other. */
  lemma RegexPartition(engine: RegexEngine, data: Topic, topic: Topic)
    ensures AnyMatch(engine, [RegexTopic(data), RegexTopicReversed(data)], topic) <==> topic.main == data.main
    ensures !(RegexTopic(data).Match(engine, topic) && RegexTopicReversed(data).Match(engine, topic))
  {
    var both := [RegexTopic(data), RegexTopicReversed(data)];
    assert both[0].Match(engine, topic) || both[1].Match(engine, topic) <==> topic.main == data.main;
  }

  /** `main.compare(0, n, prefix) == 0` compares at most `n` bytes of the topic, and is a prefix test all the same. */
  lemma PrefixIsCompare(engine: RegexEngine, prefix: Bytes, topic: Topic)
    ensures var n := if |prefix| <= |topic.main| then |prefix| else |topic.main|;
      PrefixTopic(Topic(prefix, [])).Match(engine, topic) <==> topic.main[..n] == prefix
    ensures PrefixTopic(Topic(prefix, [])).Match(engine, topic) <==> exists rest :: topic.main == prefix + rest
  {
    if prefix <= topic.main {
      assert topic.main == prefix + topic.main[|prefix|..];
    }
  }

  /** `Topic::match` is full matching with the roles swapped. */
  lemma TopicMatchIsFullMatch(engine: RegexEngine, pattern: Topic, topic: Topic)
    ensures topic.Match(pattern) <==> FullTopic(pattern).Match(engine, topic)
  {
  }
}
