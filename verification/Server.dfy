/** The responder and server objects, each method proved to do what the broker's state machine does. */
module Servers {
  import opened Binary
  import opened Topics
  import opened Subscriptions
  import opened Messages
  import opened Codec
  import opened Framing
  import opened Deserializer
  import opened SubscriptionLists
  import opened History
  import opened Brokers

  class Responder {
    const id: nat
    const deserializer: DataMessageDeserializer
    var open: bool
    var subscriptions: seq<Subscription>
    var output: Bytes
    var wire: Bytes
    ghost var accepted: seq<DataMessage>

    constructor (id: nat)
      ensures this.id == id && fresh(deserializer) && !deserializer.version1Flag
      ensures State() == Conn(true, [], [], [], [], [])
    {
      this.id := id;
      deserializer := new DataMessageDeserializer(false);
      open, subscriptions, output, wire, accepted := true, [], [], [], [];
    }

    ghost function State(): Conn
      reads this, deserializer
    {
      Conn(open, deserializer.inputData, subscriptions, output, wire, accepted)
    }

    method IsSubscribed(engine: RegexEngine, topic: Topic) returns (found: bool)
      ensures found <==> AnyMatch(engine, subscriptions, topic)
    {
      var n := 0;
      while n < |subscriptions|
        invariant n <= |subscriptions|
        invariant forall k :: 0 <= k < n ==> !subscriptions[k].Match(engine, topic)
      {
        if subscriptions[n].Match(engine, topic) {
          return true;
        }
        n := n + 1;
      }
      return false;
    }

    method Subscribe(m: DataMessage)
      requires m.IsSubscribe()
      modifies this`subscriptions
      ensures subscriptions == Apply(old(subscriptions), m)
    {
      subscriptions := subscriptions + [Subscription.Make(m.topic, SubscriptionTypeOf(m.kind))];
    }

    method UnsubscribeMessageReceived(m: DataMessage)
      requires m.IsUnsubscribe()
      modifies this`subscriptions
      ensures subscriptions == Apply(old(subscriptions), m)
    {
      var main, kind := m.topic.main, SubscriptionTypeOf(m.kind);
      var it := 0;
      while it < |subscriptions|
        invariant it <= |subscriptions| && subscriptions == old(subscriptions)
        invariant forall k :: 0 <= k < it ==> !subscriptions[k].Equals(main, kind)
      {
        if subscriptions[it].Equals(main, kind) {
          RemoveAt(subscriptions, main, kind, it);
          subscriptions := subscriptions[..it] + subscriptions[it + 1..];
          return;
        }
        it := it + 1;
      }
      RemoveAt(subscriptions, main, kind, it);
    }

    /** The socket writes `count` of the pending bytes. */
    method Write(count: nat)
      requires count <= |output|
      modifies this`output, this`wire
      ensures State() == old(State()).Write(count)
    {
      wire := wire + output[..count];
      output := output[count..];
    }

    method CloseClient()
      modifies this`open, this`output
      ensures State() == old(State()).Close()
    {
      open, output := false, [];
    }

    method SendMessage(cfg: Config, full: FullHandler, m: DataMessage)
      requires open
      modifies this
      ensures State() == old(State()).SendMessage(cfg.maxOBuf, full(m.serial, id, |old(output)| + |Encode(m)|), m)
    {
      hide Encode;
      output := AppendTo(m, output);
      accepted := accepted + [m];
      if cfg.maxOBuf != 0 {
        if |output| > cfg.maxOBuf {
          Write(Min(full(m.serial, id, |output|), |output|));
        }
        if |output| > cfg.maxOBuf {
          CloseClient();
          return;
        }
      }
    }

    method OnDataMessageReceived(cfg: Config, full: FullHandler, m: DataMessage)
      requires open
      modifies this
      ensures State() == old(State()).Receive(cfg, full, id, m)
    {
      hide Encode, Conn.SendMessage;
      var found := IsSubscribed(cfg.engine, m.topic);
      if found {
        SendMessage(cfg, full, m);
      }
    }
  }

  class Server {
    var lastSerial: u64
    /** The responders in the order of connection. Those that were closed have left the signal. */
    var responders: seq<Responder>
    ghost var history: seq<Event>

    constructor ()
      ensures Valid() && State() == Broker(0, [], [])
    {
      lastSerial, responders, history := 0, [], [];
    }

    ghost function Deserializers(): set<DataMessageDeserializer>
      reads this
    {
      set r | r in responders :: r.deserializer
    }

    ghost predicate Valid()
      reads this
    {
      && (forall i :: 0 <= i < |responders| ==> responders[i].id == i && !responders[i].deserializer.version1Flag)
      && (forall i, j :: 0 <= i < j < |responders| ==> responders[i].deserializer != responders[j].deserializer)
    }

    ghost function Conns(): (r: seq<Conn>)
      reads this, responders, Deserializers()
      ensures |r| == |responders| && forall k :: 0 <= k < |r| ==> r[k] == responders[k].State()
    {
      seq(|responders|,
          k requires 0 <= k < |responders| reads this, responders, Deserializers() => responders[k].State())
    }

    ghost function State(): Broker
      reads this, responders, Deserializers()
    {
      Broker(lastSerial, Conns(), history)
    }

    /** A new connection. */
    method OnConnectionPending() returns (r: Responder)
      requires Valid()
      modifies this`responders
      ensures Valid() && responders == old(responders) + [r] && fresh(r) && fresh(r.deserializer)
      ensures State() == old(State()).(conns := old(Conns()) + [Conn(true, [], [], [], [], [])])
    {
      r := new Responder(|responders|);
      responders := responders + [r];
    }

    /** `doSendMessage`: the signal reaches one responder after the other. */
    method DoSendMessage(cfg: Config, full: FullHandler, m: DataMessage)
      requires Valid()
      modifies responders
      ensures Conns() == Deliver(cfg, full, old(Conns()), m)
    {
      hide Conn.Receive;
      var n := 0;
      while n < |responders|
        invariant n <= |responders|
        invariant forall k :: 0 <= k < n ==> responders[k].State() == old(responders[k].State()).Receive(cfg, full, k, m)
        invariant forall k :: n <= k < |responders| ==> responders[k].State() == old(responders[k].State())
      {
        ClosedIsDeaf(cfg, full, n, responders[n].State(), m);
        if responders[n].open {
          responders[n].OnDataMessageReceived(cfg, full, m);
        }
        n := n + 1;
      }
    }

    /** The callback that `onInput` hands to `advance`. */
    method ProcessMessage(cfg: Config, full: FullHandler, i: nat, m: DataMessage)
      requires Valid() && i < |responders|
      modifies this`lastSerial, this`history, responders
      ensures State() == Handle(cfg, full, old(State()), i, m)
    {
      hide Apply, Conn.Receive;
      history := history + [Event(i, m)];
      if m.IsData() {
        lastSerial := (lastSerial + 1) % TWO_64;
        DoSendMessage(cfg, full, m.(serial := lastSerial));
      } else {
        HandleControl(i, m);
      }
    }

    method HandleControl(i: nat, m: DataMessage)
      requires Valid() && i < |responders| && !m.IsData()
      modifies responders
      ensures var c := old(responders[i].State());
        Conns() == old(Conns())[i := c.(subs := Apply(c.subs, m))]
    {
      ghost var c := responders[i].State();
      OtherIsIgnored(c.subs, m);
      hide Apply;
      if m.IsSubscribe() {
        responders[i].Subscribe(m);
      } else if m.IsUnsubscribe() {
        responders[i].UnsubscribeMessageReceived(m);
      }
      assert responders[i].State() == c.(subs := Apply(c.subs, m));
    }

    method OnInput(cfg: Config, full: FullHandler, i: nat, chunk: Chunk)
      requires Valid() && i < |responders| && responders[i].open
      modifies this`lastSerial, this`history, responders, Deserializers()
      ensures State() == Brokers.OnInput(cfg, full, old(State()), i, chunk)
    {
      hide Framing.Advance, Handle;
      var r := responders[i];
      var count, messages, error := r.deserializer.Advance(chunk);
      ghost var b0 := State();
      assert b0.conns == old(Conns())[i := old(Conns())[i].(input := r.deserializer.inputData)];
      var n := 0;
      while n < |messages| && r.open
        invariant n <= |messages| && responders == old(responders)
        invariant HandleAll(cfg, full, State(), i, messages[n..]) == HandleAll(cfg, full, b0, i, messages)
        decreases |messages| - n
      {
        assert messages[n..][1..] == messages[n + 1..];
        ProcessMessage(cfg, full, i, messages[n]);
        n := n + 1;
      }
      assert State() == HandleAll(cfg, full, b0, i, messages);
      if error.Some? && r.open {
        r.CloseClient();
      }
    }
  }

  lemma OtherIsIgnored(subs: seq<Subscription>, m: DataMessage)
    ensures !m.IsSubscribe() && !m.IsUnsubscribe() ==> Apply(subs, m) == subs
  {
  }

  lemma ClosedIsDeaf(cfg: Config, full: FullHandler, id: nat, c: Conn, m: DataMessage)
    ensures !c.open ==> c.Receive(cfg, full, id, m) == c
  {
  }
}
