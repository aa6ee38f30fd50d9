/** The broker as a state machine over its connections, down to the bytes, and its refinement of the abstract one. */
module Brokers {
  import opened Binary
  import opened Subscriptions
  import opened Messages
  import opened Codec
  import opened CodecProperties
  import opened Framing
  import opened Streams
  import opened SubscriptionLists
  import opened History
  import opened WireFormat

  /** The bound on an output buffer (0: no bound) and the regex engine. */
  datatype Config = Config(maxOBuf: nat, engine: RegexEngine)

  /** What the `outputBufferFull` handlers get written, for any message serial, connection and pending size. */
  type FullHandler = (u64, nat, nat) -> nat

  function Min(a: nat, b: nat): nat {
    if a <= b then a else b
  }

  /** One responder. `output` is what its socket still has to write, `wire` what it has written; `accepted` records the
      messages whose bytes were appended. A closed responder is gone from the server. */
  datatype Conn = Conn(
    open: bool,
    input: Bytes,
    subs: seq<Subscription>,
    output: Bytes,
    wire: Bytes,
    accepted: seq<DataMessage>)
  {
    function Close(): Conn {
      this.(open := false, output := [])
    }

    function Write(count: nat): Conn
      requires count <= |output|
    {
      this.(output := output[count..], wire := wire + output[..count])
    }

    /** `sendMessage`: append, give the handler a chance when the buffer is too full, and close when it still is. */
    function SendMessage(maxOBuf: nat, relief: nat, m: DataMessage): Conn {
      var c := this.(output := output + Encode(m), accepted := accepted + [m]);
      if maxOBuf == 0 || |c.output| <= maxOBuf then c
      else
        var d := c.Write(Min(relief, |c.output|));
        if |d.output| > maxOBuf then d.Close() else d
    }

    /** `onDataMessageReceived`; only live responders are connected to the signal. */
    function Receive(cfg: Config, full: FullHandler, id: nat, m: DataMessage): Conn {
      if open && AnyMatch(cfg.engine, subs, m.topic)
      then SendMessage(cfg.maxOBuf, full(m.serial, id, |output| + |Encode(m)|), m)
      else this
    }
  }

  datatype Broker = Broker(lastSerial: u64, conns: seq<Conn>, history: seq<Event>)

  function Deliver(cfg: Config, full: FullHandler, conns: seq<Conn>, m: DataMessage): (r: seq<Conn>)
    ensures |r| == |conns|
    ensures forall k :: 0 <= k < |r| ==> r[k] == conns[k].Receive(cfg, full, k, m)
  {
    seq(|conns|, k requires 0 <= k < |conns| => conns[k].Receive(cfg, full, k, m))
  }

  /** The callback of `onInput`, for one message of connection `i`. */
  function Handle(cfg: Config, full: FullHandler, b: Broker, i: nat, m: DataMessage): (r: Broker)
    requires i < |b.conns|
    ensures |r.conns| == |b.conns|
  {
    var h := b.history + [Event(i, m)];
    if m.IsData() then
      var serial := (b.lastSerial + 1) % TWO_64;
      Broker(serial, Deliver(cfg, full, b.conns, m.(serial := serial)), h)
    else
      b.(conns := b.conns[i := b.conns[i].(subs := Apply(b.conns[i].subs, m))], history := h)
  }

  function HandleAll(cfg: Config, full: FullHandler, b: Broker, i: nat, ms: seq<DataMessage>): (r: Broker)
    requires i < |b.conns|
    ensures |r.conns| == |b.conns|
    decreases |ms|
  {
    if ms == [] || !b.conns[i].open then b
    else HandleAll(cfg, full, Handle(cfg, full, b, i, ms[0]), i, ms[1..])
  }

  /** `onInput` for one chunk: handle the messages it completes; an exception closes the connection. */
  function OnInput(cfg: Config, full: FullHandler, b: Broker, i: nat, chunk: Chunk): (r: Broker)
    requires i < |b.conns| && b.conns[i].open
    ensures |r.conns| == |b.conns|
  {
    var o := Advance(false, b.conns[i].input, chunk);
    var b' := HandleAll(cfg, full, b.(conns := b.conns[i := b.conns[i].(input := o.rest)]), i, o.messages);
    var c := b'.conns[i];
    if o.error.Some? && c.open then b'.(conns := b'.conns[i := c.Close()]) else b'
  }

  // ---------------------------------------------------------------- refinement

  /** One responder against the abstract broker. */
  ghost predicate ConnRefines(cfg: Config, h: seq<Event>, i: nat, c: Conn) {
    && AllEncodable(c.accepted)
    && (c.open ==>
          && c.subs == SubsOf(h, i)
          && c.accepted == Expected(cfg.engine, h, i)
          && c.wire + c.output == EncodeAll(c.accepted)
          && (cfg.maxOBuf != 0 ==> |c.output| <= cfg.maxOBuf))
    && (!c.open ==> c.accepted <= Expected(cfg.engine, h, i) && c.wire <= EncodeAll(c.accepted))
  }

  ghost predicate Refines(cfg: Config, b: Broker) {
    && b.lastSerial == |Log(b.history)| % TWO_64
    && (forall k :: 0 <= k < |b.history| ==> b.history[k].conn < |b.conns|)
    && (forall i :: 0 <= i < |b.conns| ==> ConnRefines(cfg, b.history, i, b.conns[i]))
  }

  /** No live responder has a whole frame left in its internal buffer. */
  ghost predicate Settled(b: Broker) {
    forall i :: 0 <= i < |b.conns| && b.conns[i].open ==> ParseFrame(false, Visible(b.conns[i].input)).Incomplete?
  }

  /** What one send does to a responder that was within its bound: it is closed exactly when the handler has left too
      much behind; otherwise it is within its bound again and has got the message once. */
  lemma SendMessageBounded(maxOBuf: nat, relief: nat, c: Conn, m: DataMessage)
    requires c.open && c.wire + c.output == EncodeAll(c.accepted)
    ensures var r := c.SendMessage(maxOBuf, relief, m);
      && r.accepted == c.accepted + [m]
      && r.subs == c.subs && r.input == c.input
      && (!r.open <==> maxOBuf != 0 && |c.output| + |Encode(m)| - Min(relief, |c.output| + |Encode(m)|) > maxOBuf)
      && (r.open ==> r.wire + r.output == EncodeAll(r.accepted) && (maxOBuf != 0 ==> |r.output| <= maxOBuf))
      && r.wire <= EncodeAll(r.accepted)
  {
    hide Encode, EncodeAll;
    EncodeAllOne(c.accepted, m);
    var out := c.output + Encode(m);
    assert c.wire + out == EncodeAll(c.accepted + [m]);
    var n := Min(relief, |out|);
    assert out == out[..n] + out[n..];
    assert c.wire + out == c.wire + out[..n] + out[n..];
  }

  /** One fan-out, responder by responder: no one without a matching subscription notices; whoever has one gets the
      message once, however many of its entries match; the handler is asked only when the buffer is over the bound, and
      nothing else is written meanwhile; removed are exactly those that are over the bound after it, with their pending
      bytes; and whoever stays is within the bound. */
  lemma FanOutExact(cfg: Config, full: FullHandler, conns: seq<Conn>, m: DataMessage, k: nat)
    requires k < |conns|
    ensures var c, r := conns[k], Deliver(cfg, full, conns, m)[k];
      var due := c.open && AnyMatch(cfg.engine, c.subs, m.topic);
      var out := c.output + Encode(m);
      var written := if cfg.maxOBuf != 0 && |out| > cfg.maxOBuf then Min(full(m.serial, k, |out|), |out|) else 0;
      var over := cfg.maxOBuf != 0 && |out| - written > cfg.maxOBuf;
      && |Deliver(cfg, full, conns, m)| == |conns|
      && (!due ==> r == c)
      && (due ==>
            && r.accepted == c.accepted + [m] && r.subs == c.subs && r.input == c.input
            && r.wire == c.wire + out[..written]
            && (r.open <==> !over)
            && (r.open ==> r.output == out[written..] && (cfg.maxOBuf != 0 ==> |r.output| <= cfg.maxOBuf))
            && (!r.open ==> r.output == []))
  {
    hide Encode;
    var c := conns[k];
    var out := c.output + Encode(m);
    assert out[0..] == out && c.wire + out[..0] == c.wire;
  }

  /** Type by type: `Data` and `PlainData` take the next serial and go to everyone; the other types give no serial,
      and nothing to anyone. */
  lemma HandleByType(cfg: Config, full: FullHandler, b: Broker, i: nat, m: DataMessage)
    requires i < |b.conns|
    ensures var r := Handle(cfg, full, b, i, m);
      && r.history == b.history + [Event(i, m)]
      && if m.kind == Data || m.kind == PlainData then
           && r.lastSerial == (b.lastSerial + 1) % 18446744073709551616
           && r.conns == Deliver(cfg, full, b.conns, m.(serial := r.lastSerial))
         else
           && r.lastSerial == b.lastSerial
           && r.conns == b.conns[i := b.conns[i].(subs := Apply(b.conns[i].subs, m))]
  {
    hide Conn.Receive, Apply;
  }

  function Events(i: nat, ms: seq<DataMessage>): (r: seq<Event>)
    ensures |r| == |ms|
  {
    seq(|ms|, k requires 0 <= k < |ms| => Event(i, ms[k]))
  }

  lemma NoEvents(h: seq<Event>, i: nat, ms: seq<DataMessage>)
    ensures h + Events(i, ms[..0]) == h
  {
  }

  lemma EventsFront(h: seq<Event>, i: nat, ms: seq<DataMessage>, n: nat)
    requires n < |ms|
    ensures (h + [Event(i, ms[0])]) + Events(i, ms[1..][..n]) == h + Events(i, ms[..n + 1])
    ensures n == 0 ==> h + [Event(i, ms[0])] == h + Events(i, ms[..1])
  {
    assert ms[..n + 1] == [ms[0]] + ms[1..][..n];
    assert Events(i, ms[..n + 1]) == [Event(i, ms[0])] + Events(i, ms[1..][..n]);
  }

  lemma OpenWithoutBound(cfg: Config, full: FullHandler, b: Broker, i: nat, m: DataMessage, j: nat)
    requires i < |b.conns| && j < |b.conns| && cfg.maxOBuf == 0
    ensures Handle(cfg, full, b, i, m).conns[j].open == b.conns[j].open
  {
    hide Encode, Apply, AnyMatch;
  }

  /** The messages are handled one by one, all of them unless one of them has the connection closed; and without a bound
      on the buffers no connection is. */
  lemma {:induction false} HandleAllExact(cfg: Config, full: FullHandler, b: Broker, i: nat, ms: seq<DataMessage>)
    requires i < |b.conns| && b.conns[i].open
    ensures var r := HandleAll(cfg, full, b, i, ms);
      && (exists n :: 0 <= n <= |ms| && r.history == b.history + Events(i, ms[..n]) && (r.conns[i].open ==> n == |ms|))
      && (cfg.maxOBuf == 0 ==> forall j :: 0 <= j < |b.conns| ==> r.conns[j].open == b.conns[j].open)
    decreases |ms|
  {
    hide Handle, Events;
    if ms == [] {
      NoEvents(b.history, i, ms);
    } else {
      var next := Handle(cfg, full, b, i, ms[0]);
      HandleByType(cfg, full, b, i, ms[0]);
      if cfg.maxOBuf == 0 {
        forall j | 0 <= j < |b.conns| ensures next.conns[j].open == b.conns[j].open {
          OpenWithoutBound(cfg, full, b, i, ms[0], j);
        }
      }
      var r := HandleAll(cfg, full, next, i, ms[1..]);
      if next.conns[i].open {
        HandleAllExact(cfg, full, next, i, ms[1..]);
        var n :| 0 <= n <= |ms[1..]| && r.history == next.history + Events(i, ms[1..][..n])
                 && (r.conns[i].open ==> n == |ms[1..]|);
        EventsFront(b.history, i, ms, n);
        assert r.history == b.history + Events(i, ms[..n + 1]);
      } else {
        EventsFront(b.history, i, ms, 0);
        assert r.history == b.history + Events(i, ms[..1]);
      }
    }
  }

  /** A data message reaches exactly the live responders with a matching subscription, each once however many of its
      entries match; no one else notices. */
  lemma ReceiveRefines(cfg: Config, full: FullHandler, h: seq<Event>, from: nat, i: nat, c: Conn, m: DataMessage)
    requires ConnRefines(cfg, h, i, c) && m.IsData() && Encodable(m)
    ensures ConnRefines(cfg, h + [Event(from, m)], i, c.Receive(cfg, full, i, Stamped(Log(h), m)))
  {
    hide Encode, EncodeAll, ParseFrame, AnyMatch, Conn.SendMessage, SubsOf, Expected, FromConn, Log;
    var s := Stamped(Log(h), m);
    HistoryStep(cfg.engine, h, Event(from, m), i);
    assert Apply(SubsOf(h, i), m) == SubsOf(h, i);
    assert Encodable(s) && s.topic == m.topic;
    if c.open && AnyMatch(cfg.engine, c.subs, s.topic) {
      SendMessageBounded(cfg.maxOBuf, full(s.serial, i, |c.output| + |Encode(s)|), c, s);
    }
  }

  /** A subscribe or unsubscribe message takes effect before the next message is looked at. */
  lemma ApplyRefines(cfg: Config, h: seq<Event>, i: nat, c: Conn, m: DataMessage)
    requires ConnRefines(cfg, h, i, c) && !m.IsData()
    ensures ConnRefines(cfg, h + [Event(i, m)], i, c.(subs := Apply(c.subs, m)))
  {
    hide Encode, EncodeAll, ParseFrame, AnyMatch, SubsOf, Expected, FromConn, Log, Apply;
    HistoryStep(cfg.engine, h, Event(i, m), i);
  }

  lemma OthersRefine(cfg: Config, h: seq<Event>, from: nat, i: nat, c: Conn, m: DataMessage)
    requires ConnRefines(cfg, h, i, c) && !m.IsData() && i != from
    ensures ConnRefines(cfg, h + [Event(from, m)], i, c)
  {
    hide Encode, EncodeAll, ParseFrame, AnyMatch, SubsOf, Expected, FromConn, Log, Apply;
    HistoryStep(cfg.engine, h, Event(from, m), i);
  }

  lemma HandleRefines(cfg: Config, full: FullHandler, b: Broker, i: nat, m: DataMessage)
    requires Refines(cfg, b) && i < |b.conns| && Encodable(m)
    ensures Refines(cfg, Handle(cfg, full, b, i, m))
  {
    hide ConnRefines, Log, Encodable, Apply, Conn.Receive, Expected, SubsOf, FromConn;
    var r := Handle(cfg, full, b, i, m);
    HistoryStep(cfg.engine, b.history, Event(i, m), i);
    assert m.IsData() ==> m.(serial := r.lastSerial) == Stamped(Log(b.history), m);
    forall j | 0 <= j < |r.conns| ensures ConnRefines(cfg, r.history, j, r.conns[j]) {
      if m.IsData() {
        ReceiveRefines(cfg, full, b.history, i, j, b.conns[j], m);
      } else if j == i {
        ApplyRefines(cfg, b.history, i, b.conns[i], m);
      } else {
        OthersRefine(cfg, b.history, i, j, b.conns[j], m);
      }
    }
  }

  lemma {:induction false} HandleAllRefines(cfg: Config, full: FullHandler, b: Broker, i: nat, ms: seq<DataMessage>)
    requires Refines(cfg, b) && i < |b.conns| && AllEncodable(ms)
    ensures Refines(cfg, HandleAll(cfg, full, b, i, ms))
    decreases |ms|
  {
    hide Refines, Handle, Encodable;
    if ms != [] && b.conns[i].open {
      HandleRefines(cfg, full, b, i, ms[0]);
      HandleAllRefines(cfg, full, Handle(cfg, full, b, i, ms[0]), i, ms[1..]);
    }
  }

  /** Whatever bytes come in, a message that the parser takes from a stream of new frames can be encoded again. */
  lemma {:induction false} DrainedAreEncodable(s: Bytes)
    ensures AllEncodable(DrainBuffered(false, s).messages)
    decreases |s|
  {
    hide Encodable, ParseVersion2;
    match ParseFrame(false, Visible(s))
    case Frame(m, n) =>
      ParseExact(false, Visible(s), m, n);
      DrainedAreEncodable(s[n..]);
    case _ =>
  }

  lemma AdvancedAreEncodable(pending: Bytes, chunk: Chunk)
    requires ParseFrame(false, Visible(pending)).Incomplete?
    ensures AllEncodable(Advance(false, pending, chunk).messages)
  {
    hide ParseFrame, DrainBuffered, Drain;
    FastPathRefines(false, pending, chunk);
    DrainedAreEncodable(pending + chunk);
  }

  /** A responder's wire and its record of messages only ever grow; its internal buffer is its own. */
  predicate Grows(a: Conn, b: Conn) {
    a.wire <= b.wire && a.accepted <= b.accepted && (b.open ==> a.open) && a.input == b.input
  }

  lemma ReceiveGrows(cfg: Config, full: FullHandler, id: nat, c: Conn, m: DataMessage)
    ensures Grows(c, c.Receive(cfg, full, id, m))
  {
    hide Encode;
  }

  lemma {:induction false} HandleAllGrows(cfg: Config, full: FullHandler, b: Broker, i: nat, ms: seq<DataMessage>,
                                          j: nat)
    requires i < |b.conns| && j < |b.conns|
    ensures Grows(b.conns[j], HandleAll(cfg, full, b, i, ms).conns[j])
    decreases |ms|
  {
    hide Apply, Conn.Receive;
    if ms != [] && b.conns[i].open {
      var m := ms[0];
      var serial := (b.lastSerial + 1) % TWO_64;
      if m.IsData() {
        ReceiveGrows(cfg, full, j, b.conns[j], m.(serial := serial));
      }
      HandleAllGrows(cfg, full, Handle(cfg, full, b, i, m), i, ms[1..], j);
    }
  }

  lemma CloseRefines(cfg: Config, h: seq<Event>, i: nat, c: Conn)
    requires ConnRefines(cfg, h, i, c) && c.open
    ensures ConnRefines(cfg, h, i, c.Close())
  {
    hide EncodeAll, Encodable, ParseFrame, SubsOf, Expected;
  }

  /** Reading any chunk, valid or not, keeps the refinement. */
  lemma OnInputRefines(cfg: Config, full: FullHandler, b: Broker, i: nat, chunk: Chunk)
    requires Refines(cfg, b) && Settled(b) && i < |b.conns| && b.conns[i].open
    ensures Refines(cfg, OnInput(cfg, full, b, i, chunk))
    ensures Settled(OnInput(cfg, full, b, i, chunk))
  {
    hide ParseFrame, Visible, HandleAll, Drain, DrainBuffered, EncodeAll, Encodable, Log, Expected, SubsOf;
    var o := Advance(false, b.conns[i].input, chunk);
    AdvancedAreEncodable(b.conns[i].input, chunk);
    var b0 := b.(conns := b.conns[i := b.conns[i].(input := o.rest)]);
    InputIsIrrelevant(cfg, b, i, o.rest);
    HandleAllRefines(cfg, full, b0, i, o.messages);
    var b' := HandleAll(cfg, full, b0, i, o.messages);
    forall j | 0 <= j < |b.conns|
      ensures b'.conns[j].input == b0.conns[j].input && (b'.conns[j].open ==> b.conns[j].open)
    {
      HandleAllGrows(cfg, full, b0, i, o.messages, j);
    }
    if o.error.Some? && b'.conns[i].open {
      CloseRefines(cfg, b'.history, i, b'.conns[i]);
    }
  }

  lemma InputIsIrrelevant(cfg: Config, b: Broker, i: nat, input: Bytes)
    requires Refines(cfg, b) && i < |b.conns|
    ensures Refines(cfg, b.(conns := b.conns[i := b.conns[i].(input := input)]))
  {
    hide EncodeAll, Encodable, Log, Expected, SubsOf;
  }

  /** One read of a responder, whatever the bytes: it handles the messages that draining the buffered bytes and the
      chunk gives, in order and in the name of this connection, those before an error included; an error closes the
      connection, and without a bound on the buffers nothing else does; only its own internal buffer changes. */
  lemma OnInputExact(cfg: Config, full: FullHandler, b: Broker, i: nat, chunk: Chunk)
    requires i < |b.conns| && b.conns[i].open && ParseFrame(false, Visible(b.conns[i].input)).Incomplete?
    ensures var r, o := OnInput(cfg, full, b, i, chunk), DrainBuffered(false, b.conns[i].input + chunk);
      && (exists n :: 0 <= n <= |o.messages| && r.history == b.history + Events(i, o.messages[..n])
            && (r.conns[i].open || cfg.maxOBuf == 0 ==> n == |o.messages|))
      && (o.error.Some? ==> !r.conns[i].open)
      && (r.conns[i].open ==> r.conns[i].input == o.rest)
      && (cfg.maxOBuf == 0 ==> (r.conns[i].open <==> o.error.None?))
      && (forall j :: 0 <= j < |b.conns| && j != i ==>
            && r.conns[j].input == b.conns[j].input
            && (r.conns[j].open ==> b.conns[j].open)
            && (cfg.maxOBuf == 0 && b.conns[j].open ==> r.conns[j].open))
  {
    hide ParseFrame, Visible, DrainBuffered, Drain, HandleAll, Events;
    FastPathRefines(false, b.conns[i].input, chunk);
    var a := Advance(false, b.conns[i].input, chunk);
    var b0 := b.(conns := b.conns[i := b.conns[i].(input := a.rest)]);
    HandleAllExact(cfg, full, b0, i, a.messages);
    forall j | 0 <= j < |b.conns|
      ensures var c := HandleAll(cfg, full, b0, i, a.messages).conns[j];
        c.input == b0.conns[j].input && (c.open ==> b.conns[j].open)
    {
      HandleAllGrows(cfg, full, b0, i, a.messages, j);
    }
  }

  /** Bytes that are no frame cost their sender the connection, and no one else anything. */
  lemma GarbageIsCut(cfg: Config, full: FullHandler, b: Broker, i: nat, chunk: Chunk)
    requires i < |b.conns| && b.conns[i].open && b.conns[i].input == []
    requires |chunk| >= 32 && chunk[..4] != [0x32, 0x75, 0x70, 0x74]
    ensures var r := OnInput(cfg, full, b, i, chunk);
      && !r.conns[i].open
      && r.history == b.history && r.lastSerial == b.lastSerial
      && (forall j :: 0 <= j < |b.conns| && j != i ==> r.conns[j] == b.conns[j])
  {
    hide ParseFrame;
    VerdictByBytes(false, chunk);
    NewFront(chunk);
    assert ParseFrame(false, chunk) == Failure(InvalidMessage);
  }
}
