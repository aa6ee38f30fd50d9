/** The abstract broker: nothing but the list of messages the server has handled, and what follows from it. */
module History {
  import opened Binary
  import opened Subscriptions
  import opened Messages
  import opened SubscriptionLists

  /** The server has handled `message` from connection `conn`. */
  datatype Event = Event(conn: nat, message: DataMessage)

  /** The messages handled from one connection. */
  function FromConn(h: seq<Event>, c: nat): seq<DataMessage>
    decreases |h|
  {
    if h == [] then []
    else
      var before, e := FromConn(h[..|h| - 1], c), h[|h| - 1];
      if e.conn == c then before + [e.message] else before
  }

  /** The subscriptions of a connection are those its own messages have made. */
  function SubsOf(h: seq<Event>, c: nat): seq<Subscription> {
    SubsFrom(FromConn(h, c))
  }

  /** The accepted data messages, each with the serial that it was given. */
  function Log(h: seq<Event>): seq<DataMessage>
    decreases |h|
  {
    if h == [] then []
    else
      var before, e := Log(h[..|h| - 1]), h[|h| - 1];
      if e.message.IsData() then before + [Stamped(before, e.message)] else before
  }

  function Stamped(log: seq<DataMessage>, m: DataMessage): DataMessage {
    m.(serial := (|log| + 1) % TWO_64)
  }

  /** What a connection is due: the log, filtered by its subscriptions at the time of acceptance. */
  function Expected(engine: RegexEngine, h: seq<Event>, c: nat): seq<DataMessage>
    decreases |h|
  {
    if h == [] then []
    else
      var past, e := h[..|h| - 1], h[|h| - 1];
      var before := Expected(engine, past, c);
      if e.message.IsData() && AnyMatch(engine, SubsOf(past, c), e.message.topic)
      then before + [Stamped(Log(past), e.message)] else before
  }

  lemma HistoryStep(engine: RegexEngine, h: seq<Event>, e: Event, c: nat)
    ensures var h' := h + [e];
      && FromConn(h', c) == FromConn(h, c) + (if e.conn == c then [e.message] else [])
      && SubsOf(h', c) == (if e.conn == c then Apply(SubsOf(h, c), e.message) else SubsOf(h, c))
      && Log(h') == Log(h) + (if e.message.IsData() then [Stamped(Log(h), e.message)] else [])
      && Expected(engine, h', c) == Expected(engine, h, c) +
           (if e.message.IsData() && AnyMatch(engine, SubsOf(h, c), e.message.topic)
            then [Stamped(Log(h), e.message)] else [])
  {
    hide Apply, AnyMatch, Stamped;
    var h' := h + [e];
    assert h'[..|h'| - 1] == h && h'[|h'| - 1] == e;
    var from := FromConn(h, c);
    assert (from + [e.message])[..|from|] == from;
  }

  // ---------------------------------------------------------------- serials and order

  /** The places in the history at which the messages of the log were accepted. */
  function AcceptedAt(h: seq<Event>): (r: seq<nat>)
    decreases |h|
  {
    if h == [] then []
    else
      var before := AcceptedAt(h[..|h| - 1]);
      if h[|h| - 1].message.IsData() then before + [|h| - 1] else before
  }

  /** The log holds every accepted data message once, in the order of acceptance, unchanged but for its serial. */
  lemma {:induction false} LogIsAccepted(h: seq<Event>)
    ensures var at, log := AcceptedAt(h), Log(h);
      && |at| == |log|
      && (forall k :: 0 <= k < |at| ==> at[k] < |h| && log[k] == h[at[k]].message.(serial := (k + 1) % TWO_64))
      && (forall i, j :: 0 <= i < j < |at| ==> at[i] < at[j])
      && (forall n :: 0 <= n < |h| ==> (n in at <==> h[n].message.kind == Data || h[n].message.kind == PlainData))
    decreases |h|
  {
    if h != [] {
      var past := h[..|h| - 1];
      LogIsAccepted(past);
      var at, at' := AcceptedAt(past), AcceptedAt(h);
      assert at <= at';
      assert at' == at || (at' == at + [|past|] && at'[|at|] == |past|);
      forall n | 0 <= n < |h|
        ensures n in at' <==> h[n].message.kind == Data || h[n].message.kind == PlainData
      {
        assert n in at' <==> n in at || (n == |past| && h[n].message.IsData());
        if n < |past| {
          assert past[n] == h[n];
        } else {
          assert n !in at;
        }
      }
    }
  }

  /** The places in the log of the messages a connection is due. */
  function Picks(engine: RegexEngine, h: seq<Event>, c: nat): seq<nat>
    decreases |h|
  {
    if h == [] then []
    else
      var past, e := h[..|h| - 1], h[|h| - 1];
      var before := Picks(engine, past, c);
      if e.message.IsData() && AnyMatch(engine, SubsOf(past, c), e.message.topic)
      then before + [|Log(past)|] else before
  }

  /** Entry `k` of the log was accepted while connection `c` had a matching subscription. */
  predicate Due(engine: RegexEngine, h: seq<Event>, c: nat, k: nat)
    requires k < |AcceptedAt(h)| && AcceptedAt(h)[k] < |h|
  {
    var n := AcceptedAt(h)[k];
    AnyMatch(engine, SubsOf(h[..n], c), h[n].message.topic)
  }

  /** What a connection is due is a selection from the log, in the order of the log, each entry at most once. */
  lemma {:induction false} ExpectedIsSelection(engine: RegexEngine, h: seq<Event>, c: nat)
    ensures var p, due, log := Picks(engine, h, c), Expected(engine, h, c), Log(h);
      && |p| == |due|
      && (forall k :: 0 <= k < |p| ==> p[k] < |log| && due[k] == log[p[k]])
      && (forall i, j :: 0 <= i < j < |p| ==> p[i] < p[j])
    decreases |h|
  {
    hide AnyMatch, Stamped, SubsOf;
    if h != [] {
      ExpectedIsSelection(engine, h[..|h| - 1], c);
    }
  }

  /** The selected entries are exactly those that were accepted while the connection had a matching subscription. */
  lemma {:induction false} PicksExact(engine: RegexEngine, h: seq<Event>, c: nat, k: nat)
    requires k < |Log(h)|
    ensures |AcceptedAt(h)| == |Log(h)| && AcceptedAt(h)[k] < |h|
    ensures k in Picks(engine, h, c) <==> Due(engine, h, c, k)
    decreases |h|
  {
    hide AnyMatch, Stamped, SubsOf;
    LogIsAccepted(h);
    var past, e := h[..|h| - 1], h[|h| - 1];
    LogIsAccepted(past);
    ExpectedIsSelection(engine, past, c);
    if k < |Log(past)| {
      PicksExact(engine, past, c, k);
      var n := AcceptedAt(past)[k];
      assert past[..n] == h[..n];
    } else {
      assert forall i :: 0 <= i < |Picks(engine, past, c)| ==> Picks(engine, past, c)[i] < |Log(past)|;
      assert h[..|h| - 1] == past;
    }
  }

  /** As long as the counter has not wrapped, the serials of what a connection is due grow strictly. */
  lemma SerialsIncrease(engine: RegexEngine, h: seq<Event>, c: nat)
    requires |Log(h)| < TWO_64
    ensures var due := Expected(engine, h, c);
      forall i, j :: 0 <= i < j < |due| ==> due[i].serial < due[j].serial
  {
    hide Picks, Expected, Log;
    LogIsAccepted(h);
    ExpectedIsSelection(engine, h, c);
    var p, due := Picks(engine, h, c), Expected(engine, h, c);
    forall i, j | 0 <= i < j < |due| ensures due[i].serial < due[j].serial {
      assert p[i] < p[j];
      assert Log(h)[p[i]].serial == p[i] + 1 && Log(h)[p[j]].serial == p[j] + 1;
    }
  }

  // ---------------------------------------------------------------- places

  /** The place of event `n` among the events of its connection. */
  function Place(h: seq<Event>, n: nat): nat
    requires n < |h|
  {
    |FromConn(h[..n], h[n].conn)|
  }

  lemma {:induction false} FromConnGrows(h: seq<Event>, n: nat, c: nat)
    requires n <= |h|
    ensures FromConn(h[..n], c) <= FromConn(h, c)
    decreases |h|
  {
    if n < |h| {
      var past := h[..|h| - 1];
      FromConnGrows(past, n, c);
      assert past[..n] == h[..n];
    } else {
      assert h[..n] == h;
    }
  }

  /** Event `n` is the one at its place. */
  lemma PlaceHolds(h: seq<Event>, n: nat)
    requires n < |h|
    ensures var from := FromConn(h, h[n].conn);
      FromConn(h[..n + 1], h[n].conn) <= from && Place(h, n) < |from| && from[Place(h, n)] == h[n].message
  {
    var c := h[n].conn;
    assert h[..n + 1][..n] == h[..n];
    FromConnGrows(h, n + 1, c);
    assert FromConn(h[..n + 1], c) == FromConn(h[..n], c) + [h[n].message];
  }

  /** Two events of one connection have different places, in the order of the history. */
  lemma PlacesInOrder(h: seq<Event>, a: nat, b: nat)
    requires a < b < |h| && h[a].conn == h[b].conn
    ensures Place(h, a) < Place(h, b)
  {
    var c := h[a].conn;
    PlaceHolds(h[..b], a);
    assert h[..b][..a] == h[..a];
  }

  /** Where in the history the message was accepted that a connection is due as its `i`th. */
  function Origin(engine: RegexEngine, h: seq<Event>, c: nat, i: nat): (n: nat)
    requires i < |Expected(engine, h, c)|
    ensures n < |h|
  {
    ExpectedIsSelection(engine, h, c);
    LogIsAccepted(h);
    AcceptedAt(h)[Picks(engine, h, c)[i]]
  }

  /** It is that message but for the serial, and later ones were accepted later. */
  lemma OriginsInOrder(engine: RegexEngine, h: seq<Event>, c: nat, i: nat, j: nat)
    requires i <= j < |Expected(engine, h, c)|
    ensures var a, b, due := Origin(engine, h, c, i), Origin(engine, h, c, j), Expected(engine, h, c);
      && due[i] == h[a].message.(serial := due[i].serial)
      && (i < j ==> a < b)
  {
    hide Expected, Log, Picks, AcceptedAt;
    ExpectedIsSelection(engine, h, c);
    LogIsAccepted(h);
  }
}
