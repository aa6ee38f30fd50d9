/** Clients and broker together: every run of sends, partial writes, chunked reads, handler reactions and closings. */
module EndToEnd {
  import opened Binary
  import opened Messages
  import opened Codec
  import opened Framing
  import opened Streams
  import opened ClientOutput
  import opened SubscriptionLists
  import opened History
  import opened Brokers

  /** One client with its connection. Of the bytes that the client has put on its wire the server has read `consumed`;
      of those that the responder has put on its own the client has read `received`. A `foreign` client has
      written bytes that did not come from `sendMessage`. */
  datatype Node = Node(
    sent: seq<DataMessage>,
    out: Output,
    consumed: nat,
    received: nat,
    input: Bytes,
    dispatched: seq<DataMessage>,
    failed: bool,
    foreign: bool)

  /** Node `i` and connection `i` of the broker belong together. */
  datatype State = State(broker: Broker, nodes: seq<Node>)

  datatype Step =
    | Connect(autoSync: bool)
    | ClientAct(c: nat, act: OutputStep)
    | Foreign(c: nat, bytes: Bytes)
    | ServerRead(c: nat, count: nat, full: FullHandler)
    | ServerWrite(c: nat, count: nat)
    | ServerClose(c: nat)
    | ClientRead(c: nat, count: nat)

  function NewConn(): Conn {
    Conn(true, [], [], [], [], [])
  }

  function NewNode(autoSync: bool): Node {
    Node([], Fresh(autoSync), 0, 0, [], [], false, false)
  }

  function Take(s: Bytes, from: nat, count: nat): Bytes
    requires from + count <= |s|
  {
    s[from..from + count]
  }

  /** One event. An event that is not possible in a state leaves it as it is. */
  function Next(cfg: Config, s: State, step: Step): State {
    match step
    case Connect(autoSync) =>
      State(s.broker.(conns := s.broker.conns + [NewConn()]), s.nodes + [NewNode(autoSync)])
    case ClientAct(c, act) =>
      if c >= |s.nodes| then s
      else
        var n := s.nodes[c];
        var sent := if act.SendStep? then n.sent + [act.m] else n.sent;
        s.(nodes := s.nodes[c := n.(sent := sent, out := Act(n.out, act))])
    case Foreign(c, bytes) =>
      if c >= |s.nodes| then s
      else
        var n := s.nodes[c];
        s.(nodes := s.nodes[c := n.(out := n.out.(wire := n.out.wire + bytes), foreign := true)])
    case ServerRead(c, count, full) =>
      if c >= |s.nodes| || c >= |s.broker.conns| || !s.broker.conns[c].open || count >= TWO_32
         || s.nodes[c].consumed + count > |s.nodes[c].out.wire| then s
      else
        var n := s.nodes[c];
        State(OnInput(cfg, full, s.broker, c, Take(n.out.wire, n.consumed, count)),
              s.nodes[c := n.(consumed := n.consumed + count)])
    case ServerWrite(c, count) =>
      if c >= |s.broker.conns| || !s.broker.conns[c].open || count > |s.broker.conns[c].output| then s
      else s.(broker := s.broker.(conns := s.broker.conns[c := s.broker.conns[c].Write(count)]))
    case ServerClose(c) =>
      if c >= |s.broker.conns| || !s.broker.conns[c].open then s
      else s.(broker := s.broker.(conns := s.broker.conns[c := s.broker.conns[c].Close()]))
    case ClientRead(c, count) =>
      if c >= |s.nodes| || c >= |s.broker.conns| || s.nodes[c].failed || count >= TWO_32
         || s.nodes[c].received + count > |s.broker.conns[c].wire| then s
      else
        var n := s.nodes[c];
        var o := DrainBuffered(false, n.input + Take(s.broker.conns[c].wire, n.received, count));
        s.(nodes := s.nodes[c := n.(received := n.received + count, input := o.rest,
                                    dispatched := n.dispatched + o.messages, failed := o.error.Some?)])
  }

  /** Step `k` leads from state `k` to the next one. */
  ghost predicate Moves(cfg: Config, states: seq<State>, k: nat, step: Step)
    requires k + 1 < |states|
  {
    states[k + 1] == Next(cfg, states[k], step)
  }

  /** A run from the server without connections. Any sequence of steps gives one. */
  ghost predicate IsRun(cfg: Config, states: seq<State>, steps: seq<Step>) {
    && |states| == |steps| + 1
    && states[0] == State(Broker(0, [], []), [])
    && (forall k :: 0 <= k < |steps| ==> Moves(cfg, states, k, steps[k]))
  }

  // ---------------------------------------------------------------- the invariant

  /** A client that sends through the library, and only messages that can be read back. */
  predicate Library(n: Node) {
    !n.foreign && AllEncodable(n.sent)
  }

  /** From the client's buffers to the server. The order of a client's messages is kept as long as it sends through the
      library and sends messages that can be read back. */
  ghost predicate UpLink(h: seq<Event>, c: nat, n: Node, conn: Conn) {
    && n.consumed <= |n.out.wire|
    && (!n.foreign ==> n.out.Valid() && Conserves(n.out, n.sent))
    && (!n.foreign && AllEncodable(n.sent) ==>
          && FromConn(h, c) <= n.sent
          && (conn.open ==> n.out.wire[..n.consumed] == EncodeAll(FromConn(h, c)) + conn.input))
  }

  /** From the responder's socket to the client's signal. */
  ghost predicate DownLink(n: Node, conn: Conn) {
    && n.received <= |conn.wire|
    && conn.wire[..n.received] == EncodeAll(n.dispatched) + n.input
    && n.dispatched <= conn.accepted
    && !n.failed
    && ParseFrame(false, Visible(n.input)).Incomplete?
  }

  ghost predicate Inv(cfg: Config, s: State) {
    && Refines(cfg, s.broker) && Settled(s.broker)
    && |s.nodes| == |s.broker.conns|
    && (forall c :: 0 <= c < |s.nodes| ==> UpLink(s.broker.history, c, s.nodes[c], s.broker.conns[c]))
    && (forall c :: 0 <= c < |s.nodes| ==> DownLink(s.nodes[c], s.broker.conns[c]))
  }

  // ---------------------------------------------------------------- steps of one client

  lemma NoEventsYet(cfg: Config, h: seq<Event>, c: nat)
    requires forall k :: 0 <= k < |h| ==> h[k].conn != c
    ensures FromConn(h, c) == [] && Expected(cfg.engine, h, c) == []
    decreases |h|
  {
    if h != [] {
      NoEventsYet(cfg, h[..|h| - 1], c);
      assert SubsOf(h[..|h| - 1], c) == [];
    }
  }

  lemma NewConnRefines(cfg: Config, h: seq<Event>, c: nat, autoSync: bool)
    requires forall k :: 0 <= k < |h| ==> h[k].conn != c
    ensures ConnRefines(cfg, h, c, NewConn())
    ensures ParseFrame(false, Visible(NewConn().input)).Incomplete?
    ensures UpLink(h, c, NewNode(autoSync), NewConn()) && DownLink(NewNode(autoSync), NewConn())
  {
    hide Expected, FromConn, Log, ParseFrame;
    NoEventsYet(cfg, h, c);
    ShortIsIncomplete(false, Visible([]));
    assert [] + [] == EncodeAll([]);
  }

  lemma ConnectKeeps(cfg: Config, s: State, autoSync: bool)
    requires Inv(cfg, s)
    ensures Inv(cfg, Next(cfg, s, Connect(autoSync)))
  {
    hide ConnRefines, UpLink, DownLink, NewConn, NewNode, Log, ParseFrame, Visible;
    NewConnRefines(cfg, s.broker.history, |s.nodes|, autoSync);
  }

  /** Whatever the client does, it only appends to its wire. */
  lemma WireGrows(o: Output, act: OutputStep)
    ensures o.wire <= Act(o, act).wire
  {
    hide Encode;
  }

  lemma ClientActKeeps(h: seq<Event>, c: nat, n: Node, conn: Conn, act: OutputStep)
    requires UpLink(h, c, n, conn) && DownLink(n, conn)
    ensures var sent := if act.SendStep? then n.sent + [act.m] else n.sent;
      var n' := n.(sent := sent, out := Act(n.out, act));
      UpLink(h, c, n', conn) && DownLink(n', conn)
  {
    hide FromConn, EncodeAll, ParseFrame, Act, Encodable;
    if !n.foreign {
      ActConserves(n.out, act, n.sent);
    }
    WireGrows(n.out, act);
    var wire' := Act(n.out, act).wire;
    assert wire'[..n.consumed] == n.out.wire[..n.consumed];
    if act.SendStep? && AllEncodable(n.sent + [act.m]) {
      assert forall k :: 0 <= k < |n.sent| ==> (n.sent + [act.m])[k] == n.sent[k];
      assert AllEncodable(n.sent);
    }
  }

  lemma ForeignKeeps(h: seq<Event>, c: nat, n: Node, conn: Conn, bytes: Bytes)
    requires UpLink(h, c, n, conn) && DownLink(n, conn)
    ensures var n' := n.(out := n.out.(wire := n.out.wire + bytes), foreign := true);
      UpLink(h, c, n', conn) && DownLink(n', conn)
  {
    hide FromConn, EncodeAll, ParseFrame, Encodable, Visible;
  }

  lemma ClientReadKeeps(cfg: Config, h: seq<Event>, c: nat, n: Node, conn: Conn, count: nat)
    requires ConnRefines(cfg, h, c, conn) && UpLink(h, c, n, conn) && DownLink(n, conn)
    requires n.received + count <= |conn.wire|
    ensures var o := DrainBuffered(false, n.input + Take(conn.wire, n.received, count));
      var n' := n.(received := n.received + count, input := o.rest,
                   dispatched := n.dispatched + o.messages, failed := o.error.Some?);
      UpLink(h, c, n', conn) && DownLink(n', conn)
  {
    hide FromConn, EncodeAll, ParseFrame, Visible, DrainBuffered, Encodable, SubsOf, Expected;
    var chunk := Take(conn.wire, n.received, count);
    var p := n.input + chunk;
    var later := conn.accepted[|n.dispatched|..];
    assert conn.accepted == n.dispatched + later;
    EncodeAllAppend(n.dispatched, later);
    assert conn.wire[..n.received + count] == conn.wire[..n.received] + chunk;
    var all := EncodeAll(conn.accepted);
    assert conn.wire <= all;
    PrefixAfter(EncodeAll(n.dispatched), p, conn.wire[..n.received + count], EncodeAll(later));
    assert AllEncodable(later);
    DrainPrefix(false, later, p);
    var o := DrainBuffered(false, p);
    EncodeAllAppend(n.dispatched, o.messages);
    assert EncodeAll(n.dispatched) + (EncodeAll(o.messages) + o.rest)
        == (EncodeAll(n.dispatched) + EncodeAll(o.messages)) + o.rest;
  }

  lemma PrefixAfter(front: Bytes, p: Bytes, seen: Bytes, later: Bytes)
    requires seen == front + p && seen <= front + later
    ensures p <= later
  {
    assert seen[|front|..] == p;
    assert (front + later)[..|seen|][|front|..] == later[..|p|];
  }

  // ---------------------------------------------------------------- steps of the server

  /** Handling adds exactly the messages of the reader's own connection to the history, all of them unless one of them
      had the connection closed. */
  lemma {:induction false} HandleAllHistory(cfg: Config, full: FullHandler, b: Broker, i: nat, ms: seq<DataMessage>,
                                            j: nat)
    requires i < |b.conns|
    ensures var r := HandleAll(cfg, full, b, i, ms);
      var before, after := FromConn(b.history, j), FromConn(r.history, j);
      && (j != i ==> after == before)
      && (j == i ==> after <= before + ms && (r.conns[i].open ==> b.conns[i].open && after == before + ms))
    decreases |ms|
  {
    hide FromConn, Apply, Conn.Receive;
    var before := FromConn(b.history, j);
    if ms != [] && b.conns[i].open {
      HistoryStep(cfg.engine, b.history, Event(i, ms[0]), j);
      HandleAllHistory(cfg, full, Handle(cfg, full, b, i, ms[0]), i, ms[1..], j);
      assert before + [ms[0]] + ms[1..] == before + ms;
    } else if ms == [] {
      assert before + ms == before;
    }
  }

  lemma DownLinkGrows(n: Node, a: Conn, b: Conn)
    requires DownLink(n, a) && a.wire <= b.wire && a.accepted <= b.accepted
    ensures DownLink(n, b)
  {
    hide EncodeAll, ParseFrame, Visible;
    assert b.wire[..n.received] == a.wire[..n.received];
  }

  /** The reader's own side of `ServerRead`. */
  lemma UpLinkRead(cfg: Config, full: FullHandler, b: Broker, c: nat, n: Node, count: nat)
    requires c < |b.conns| && b.conns[c].open && count < TWO_32
    requires UpLink(b.history, c, n, b.conns[c]) && ParseFrame(false, Visible(b.conns[c].input)).Incomplete?
    requires n.consumed + count <= |n.out.wire|
    ensures var r := OnInput(cfg, full, b, c, Take(n.out.wire, n.consumed, count));
      UpLink(r.history, c, n.(consumed := n.consumed + count), r.conns[c])
    ensures Library(n) ==> DrainBuffered(false, b.conns[c].input + Take(n.out.wire, n.consumed, count)).error.None?
  {
    hide FromConn, EncodeAll, ParseFrame, Visible, HandleAll, Encodable, SubsOf, Expected, Advance, DrainBuffered,
      Drain;
    var chunk := Take(n.out.wire, n.consumed, count);
    var conn, from := b.conns[c], FromConn(b.history, c);
    var o := Advance(false, conn.input, chunk);
    FastPathRefines(false, conn.input, chunk);
    var b0 := b.(conns := b.conns[c := conn.(input := o.rest)]);
    HandleAllHistory(cfg, full, b0, c, o.messages, c);
    HandleAllGrows(cfg, full, b0, c, o.messages, c);
    if !n.foreign && AllEncodable(n.sent) {
      var seen := n.out.wire[..n.consumed + count];
      assert seen == n.out.wire[..n.consumed] + chunk == EncodeAll(from) + (conn.input + chunk);
      var later := n.sent[|from|..];
      assert n.sent == from + later;
      EncodeAllAppend(from, later);
      assert seen <= n.out.wire + n.out.current + n.out.next;
      PrefixAfter(EncodeAll(from), conn.input + chunk, seen, EncodeAll(later));
      AdvancePrefix(false, later, conn.input, chunk);
      EncodeAllAppend(from, o.messages);
      assert EncodeAll(from) + (EncodeAll(o.messages) + o.rest) == (EncodeAll(from) + EncodeAll(o.messages)) + o.rest;
      assert from + o.messages <= n.sent;
    }
  }

  lemma ServerReadKeeps(cfg: Config, s: State, c: nat, count: nat, full: FullHandler)
    requires Inv(cfg, s)
    ensures Inv(cfg, Next(cfg, s, ServerRead(c, count, full)))
  {
    hide UpLink, DownLink, Refines, HandleAll, Advance, ConnRefines;
    var s' := Next(cfg, s, ServerRead(c, count, full));
    if s' != s {
      var b, n := s.broker, s.nodes[c];
      var chunk := Take(n.out.wire, n.consumed, count);
      var o := Advance(false, b.conns[c].input, chunk);
      var b0 := b.(conns := b.conns[c := b.conns[c].(input := o.rest)]);
      OnInputRefines(cfg, full, b, c, chunk);
      UpLinkRead(cfg, full, b, c, n, count);
      forall j | 0 <= j < |s'.nodes|
        ensures UpLink(s'.broker.history, j, s'.nodes[j], s'.broker.conns[j])
        ensures DownLink(s'.nodes[j], s'.broker.conns[j])
      {
        HandleAllGrows(cfg, full, b0, c, o.messages, j);
        DownLinkFrame(s.nodes[j], s.broker.conns[j], s'.nodes[j], s'.broker.conns[j]);
        if j != c {
          HandleAllHistory(cfg, full, b0, c, o.messages, j);
          UpLinkFrame(b.history, s'.broker.history, j, s.nodes[j], b.conns[j], s'.broker.conns[j]);
        }
      }
    }
  }

  lemma ConnOf(cfg: Config, b: Broker, c: nat)
    requires Refines(cfg, b) && c < |b.conns|
    ensures ConnRefines(cfg, b.history, c, b.conns[c])
  {
    hide ConnRefines;
  }

  lemma DownLinkFrame(n: Node, a: Conn, n': Node, b: Conn)
    requires DownLink(n, a) && a.wire <= b.wire && a.accepted <= b.accepted
    requires n' == n.(consumed := n'.consumed)
    ensures DownLink(n', b)
  {
    DownLinkGrows(n, a, b);
  }

  lemma UpLinkFrame(h: seq<Event>, h': seq<Event>, c: nat, n: Node, a: Conn, b: Conn)
    requires UpLink(h, c, n, a) && FromConn(h', c) == FromConn(h, c) && (b.open ==> a.open && b.input == a.input)
    ensures UpLink(h', c, n, b)
  {
    hide FromConn, EncodeAll, Encodable;
  }

  lemma ServerWriteKeeps(cfg: Config, s: State, c: nat, count: nat)
    requires Inv(cfg, s)
    ensures Inv(cfg, Next(cfg, s, ServerWrite(c, count)))
  {
    hide UpLink, DownLink, ConnRefines;
    var s' := Next(cfg, s, ServerWrite(c, count));
    if s' != s {
      var h, a := s.broker.history, s.broker.conns[c];
      UpLinkFrame(h, h, c, s.nodes[c], a, a.Write(count));
      DownLinkGrows(s.nodes[c], a, a.Write(count));
      WriteRefines(cfg, h, c, a, count);
    }
  }

  lemma WriteRefines(cfg: Config, h: seq<Event>, i: nat, c: Conn, count: nat)
    requires ConnRefines(cfg, h, i, c) && c.open && count <= |c.output|
    ensures ConnRefines(cfg, h, i, c.Write(count))
  {
    hide EncodeAll, Encodable, ParseFrame, SubsOf, Expected;
    assert c.output == c.output[..count] + c.output[count..];
  }

  lemma ServerCloseKeeps(cfg: Config, s: State, c: nat)
    requires Inv(cfg, s)
    ensures Inv(cfg, Next(cfg, s, ServerClose(c)))
  {
    hide UpLink, DownLink, ConnRefines;
    var s' := Next(cfg, s, ServerClose(c));
    if s' != s {
      var h, a := s.broker.history, s.broker.conns[c];
      UpLinkFrame(h, h, c, s.nodes[c], a, a.Close());
      DownLinkGrows(s.nodes[c], a, a.Close());
      CloseRefines(cfg, h, c, a);
    }
  }

  // ---------------------------------------------------------------- every run

  lemma NextKeeps(cfg: Config, s: State, step: Step)
    requires Inv(cfg, s)
    ensures Inv(cfg, Next(cfg, s, step))
  {
    hide UpLink, DownLink, Refines, ConnRefines, OnInput, DrainBuffered, Act;
    match step
    case Connect(autoSync) => ConnectKeeps(cfg, s, autoSync);
    case ServerRead(c, count, full) => ServerReadKeeps(cfg, s, c, count, full);
    case ServerWrite(c, count) => ServerWriteKeeps(cfg, s, c, count);
    case ServerClose(c) => ServerCloseKeeps(cfg, s, c);
    case ClientAct(c, act) =>
      if c < |s.nodes| {
        ClientActKeeps(s.broker.history, c, s.nodes[c], s.broker.conns[c], act);
      }
    case Foreign(c, bytes) =>
      if c < |s.nodes| {
        ForeignKeeps(s.broker.history, c, s.nodes[c], s.broker.conns[c], bytes);
      }
    case ClientRead(c, count) =>
      if c < |s.nodes| && s.nodes[c].received + count <= |s.broker.conns[c].wire| {
        ConnOf(cfg, s.broker, c);
        ClientReadKeeps(cfg, s.broker.history, c, s.nodes[c], s.broker.conns[c], count);
      }
  }

  lemma StartHolds(cfg: Config)
    ensures Inv(cfg, State(Broker(0, [], []), []))
  {
  }

  lemma {:induction false} RunKeeps(cfg: Config, states: seq<State>, steps: seq<Step>, at: nat)
    requires IsRun(cfg, states, steps) && at < |states|
    ensures Inv(cfg, states[at])
  {
    hide Inv, Next;
    if at == 0 {
      StartHolds(cfg);
    } else {
      RunKeeps(cfg, states, steps, at - 1);
      NextKeeps(cfg, states[at - 1], steps[at - 1]);
      assert Moves(cfg, states, at - 1, steps[at - 1]);
    }
  }

  /** On every run, a client has dispatched an initial part of the accepted log, filtered by its subscriptions at the
      time of acceptance. This needs nothing of the peers: any of them may have sent any bytes. What the server has
      handled from a client of the library is an initial part of what that client sent. */
  lemma DispatchedIsFilteredLog(cfg: Config, states: seq<State>, steps: seq<Step>, at: nat, c: nat)
    requires IsRun(cfg, states, steps) && at < |states| && c < |states[at].nodes|
    ensures var n, h := states[at].nodes[c], states[at].broker.history;
      && !n.failed
      && n.dispatched <= Expected(cfg.engine, h, c)
      && (Library(n) ==> FromConn(h, c) <= n.sent)
  {
    hide Next, EncodeAll, ParseFrame, Expected, FromConn, SubsOf;
    RunKeeps(cfg, states, steps, at);
  }

  /** Nothing is on its way from client `c` to the server. */
  predicate UpQuiet(n: Node, conn: Conn) {
    conn.open && n.out.Pending() == 0 && n.consumed == |n.out.wire| && |conn.input| < TWO_32
  }

  /** Nothing is on its way from the server to client `c`. */
  predicate DownQuiet(n: Node, conn: Conn) {
    conn.open && conn.output == [] && n.received == |conn.wire| && |n.input| < TWO_32
  }

  /** When nothing is on its way, nothing is missing: the server has handled all that the client sent, and the client
      has dispatched all that it is due. */
  lemma QuietIsComplete(cfg: Config, states: seq<State>, steps: seq<Step>, at: nat, c: nat)
    requires IsRun(cfg, states, steps) && at < |states| && c < |states[at].nodes|
    ensures |states[at].broker.conns| == |states[at].nodes|
    ensures var n, conn, h := states[at].nodes[c], states[at].broker.conns[c], states[at].broker.history;
      && (UpQuiet(n, conn) && Library(n) ==> FromConn(h, c) == n.sent)
      && (DownQuiet(n, conn) ==> n.dispatched == Expected(cfg.engine, h, c))
  {
    RunKeeps(cfg, states, steps, at);
    hide UpLink, DownLink, ConnRefines, Next;
    var s := states[at];
    ConnOf(cfg, s.broker, c);
    var n, conn, h := s.nodes[c], s.broker.conns[c], s.broker.history;
    if UpQuiet(n, conn) && Library(n) {
      UpQuietIsComplete(h, c, n, conn);
    }
    if DownQuiet(n, conn) {
      DownQuietIsComplete(cfg, h, c, n, conn);
    }
  }

  lemma UpQuietIsComplete(h: seq<Event>, c: nat, n: Node, conn: Conn)
    requires UpLink(h, c, n, conn) && ParseFrame(false, Visible(conn.input)).Incomplete?
    requires UpQuiet(n, conn) && Library(n)
    ensures FromConn(h, c) == n.sent
  {
    hide FromConn, EncodeAll, ParseFrame, Visible, Encodable, SubsOf, Expected;
    var from := FromConn(h, c);
    var later := n.sent[|from|..];
    assert n.sent == from + later;
    EncodeAllAppend(from, later);
    assert n.out.wire == n.out.wire[..n.consumed] == n.out.wire + [] + [];
    SamePrefix(EncodeAll(from), conn.input, EncodeAll(later));
    SettledIsEmpty(false, later, conn.input);
  }

  lemma SamePrefix(front: Bytes, a: Bytes, b: Bytes)
    requires front + a == front + b
    ensures a == b
  {
    assert (front + a)[|front|..] == a && (front + b)[|front|..] == b;
  }

  lemma DownQuietIsComplete(cfg: Config, h: seq<Event>, c: nat, n: Node, conn: Conn)
    requires DownLink(n, conn) && ConnRefines(cfg, h, c, conn) && DownQuiet(n, conn)
    ensures n.dispatched == Expected(cfg.engine, h, c)
  {
    hide FromConn, EncodeAll, ParseFrame, Visible, Encodable, SubsOf, Expected;
    var later := conn.accepted[|n.dispatched|..];
    assert conn.accepted == n.dispatched + later;
    EncodeAllAppend(n.dispatched, later);
    assert conn.wire == conn.wire[..n.received] == conn.wire + [];
    SamePrefix(EncodeAll(n.dispatched), n.input, EncodeAll(later));
    SettledIsEmpty(false, later, n.input);
  }

  /** The order of the log is the order at every client: the serials of what a client has dispatched grow strictly, and
      two clients dispatch the messages they share in the same order, until the counter wraps. */
  lemma SameOrderEverywhere(cfg: Config, states: seq<State>, steps: seq<Step>, at: nat, c: nat, d: nat)
    requires IsRun(cfg, states, steps) && at < |states| && c < |states[at].nodes| && d < |states[at].nodes|
    requires |Log(states[at].broker.history)| < TWO_64
    ensures var p, q := states[at].nodes[c].dispatched, states[at].nodes[d].dispatched;
      && (forall i, j :: 0 <= i < j < |p| ==> p[i].serial < p[j].serial)
      && (forall i, j, k, l :: 0 <= i < j < |p| && 0 <= k < |q| && 0 <= l < |q| && p[i] == q[k] && p[j] == q[l]
            ==> k < l)
  {
    hide Next, Expected, FromConn, Log;
    var h := states[at].broker.history;
    DispatchedIsFilteredLog(cfg, states, steps, at, c);
    DispatchedIsFilteredLog(cfg, states, steps, at, d);
    SerialsIncrease(cfg.engine, h, c);
    SerialsIncrease(cfg.engine, h, d);
    var p, q := states[at].nodes[c].dispatched, states[at].nodes[d].dispatched;
    forall i, j, k, l | 0 <= i < j < |p| && 0 <= k < |q| && 0 <= l < |q| && p[i] == q[k] && p[j] == q[l]
      ensures k < l
    {
      assert p[i].serial < p[j].serial;
      assert q[k].serial < q[l].serial;
    }
  }

  /** Where in the history the `i`th message that client `c` has dispatched was accepted. */
  ghost function OriginAt(cfg: Config, states: seq<State>, steps: seq<Step>, at: nat, c: nat, i: nat): (n: nat)
    requires IsRun(cfg, states, steps) && at < |states|
    requires c < |states[at].nodes| && i < |states[at].nodes[c].dispatched|
    ensures n < |states[at].broker.history| && states[at].broker.history[n].conn < |states[at].nodes|
  {
    hide Next, ConnRefines, UpLink, DownLink, Log, Expected;
    RunKeeps(cfg, states, steps, at);
    DispatchedIsFilteredLog(cfg, states, steps, at, c);
    Origin(cfg.engine, states[at].broker.history, c, i)
  }

  /** On every run, each message that a client has dispatched comes from its own place among the messages of one
      publisher: if that one is a client of the library, it is what it sent there, but for the serial. Nothing is asked
      of any other client. */
  lemma DispatchedWasSent(cfg: Config, states: seq<State>, steps: seq<Step>, at: nat, c: nat, i: nat)
    requires IsRun(cfg, states, steps) && at < |states|
    requires c < |states[at].nodes| && i < |states[at].nodes[c].dispatched|
    ensures var a, h := OriginAt(cfg, states, steps, at, c, i), states[at].broker.history;
      var publisher, m := states[at].nodes[h[a].conn], states[at].nodes[c].dispatched[i];
      && m == h[a].message.(serial := m.serial)
      && (Library(publisher) ==>
            Place(h, a) < |publisher.sent| && m == publisher.sent[Place(h, a)].(serial := m.serial))
  {
    hide Next, Expected, FromConn, Log, Origin, AllEncodable;
    var h := states[at].broker.history;
    var a := OriginAt(cfg, states, steps, at, c, i);
    DispatchedIsFilteredLog(cfg, states, steps, at, c);
    DispatchedIsFilteredLog(cfg, states, steps, at, h[a].conn);
    OriginsInOrder(cfg.engine, h, c, i, i);
    PlaceHolds(h, a);
  }

  /** Of two messages that a client has dispatched, the later one was accepted later, and if one publisher sent both,
      it sent the later one later: none is doubled, none overtakes another. */
  lemma DispatchedInSendingOrder(cfg: Config, states: seq<State>, steps: seq<Step>, at: nat, c: nat, i: nat, j: nat)
    requires IsRun(cfg, states, steps) && at < |states|
    requires c < |states[at].nodes| && i < j < |states[at].nodes[c].dispatched|
    ensures var h := states[at].broker.history;
      var a, b := OriginAt(cfg, states, steps, at, c, i), OriginAt(cfg, states, steps, at, c, j);
      a < b && (h[a].conn == h[b].conn ==> Place(h, a) < Place(h, b))
  {
    hide Next, Expected, FromConn, Log, Origin, AllEncodable;
    var h := states[at].broker.history;
    var a, b := OriginAt(cfg, states, steps, at, c, i), OriginAt(cfg, states, steps, at, c, j);
    DispatchedIsFilteredLog(cfg, states, steps, at, c);
    OriginsInOrder(cfg.engine, h, c, i, j);
    if h[a].conn == h[b].conn {
      PlacesInOrder(h, a, b);
    }
  }

  /** With a bound on output buffers, each live responder is within it at every moment. */
  lemma OutputBounded(cfg: Config, states: seq<State>, steps: seq<Step>, at: nat, c: nat)
    requires IsRun(cfg, states, steps) && at < |states| && c < |states[at].broker.conns|
    ensures var conn := states[at].broker.conns[c];
      conn.open && cfg.maxOBuf != 0 ==> |conn.output| <= cfg.maxOBuf
  {
    hide Next, EncodeAll, ParseFrame, Expected, SubsOf;
    RunKeeps(cfg, states, steps, at);
  }

  // ---------------------------------------------------------------- staying connected

  /** What a client has sent and how stays with it. */
  lemma LibraryBefore(cfg: Config, s: State, step: Step, c: nat)
    requires c < |s.nodes| && |s.nodes| == |s.broker.conns|
    ensures var s' := Next(cfg, s, step);
      c < |s'.nodes| && |s'.nodes| == |s'.broker.conns| && (Library(s'.nodes[c]) ==> Library(s.nodes[c]))
  {
    hide OnInput, DrainBuffered, Act, Encodable;
    var s' := Next(cfg, s, step);
    if Library(s'.nodes[c]) {
      forall k | 0 <= k < |s.nodes[c].sent| ensures Encodable(s.nodes[c].sent[k]) {
        assert s'.nodes[c].sent[k] == s.nodes[c].sent[k];
      }
    }
  }

  lemma StaysOpen(cfg: Config, s: State, step: Step, c: nat)
    requires Inv(cfg, s) && c < |s.nodes| && s.broker.conns[c].open
    requires cfg.maxOBuf == 0 && step != ServerClose(c) && Library(s.nodes[c])
    ensures c < |Next(cfg, s, step).broker.conns| && Next(cfg, s, step).broker.conns[c].open
  {
    hide UpLink, DownLink, Refines, OnInput, DrainBuffered, Act, Library, ParseFrame, Visible;
    var s' := Next(cfg, s, step);
    if step.ServerRead? && s' != s {
      var n := s.nodes[step.c];
      var chunk := Take(n.out.wire, n.consumed, step.count);
      OnInputExact(cfg, step.full, s.broker, step.c, chunk);
      if step.c == c {
        UpLinkRead(cfg, step.full, s.broker, c, n, step.count);
      }
    }
  }

  lemma NewIsOpen(cfg: Config, s: State, step: Step, c: nat)
    requires |s.nodes| == |s.broker.conns| <= c < |Next(cfg, s, step).nodes|
    ensures Next(cfg, s, step).broker.conns[c..] == [NewConn()] && c == |s.nodes|
  {
    hide OnInput, DrainBuffered, Act;
  }

  /** On every run without a bound on the buffers, a client of the library stays connected, whatever the others send,
      as long as its own connection does not fail. */
  lemma {:induction false} LibraryStaysConnected(cfg: Config, states: seq<State>, steps: seq<Step>, at: nat, c: nat)
    requires IsRun(cfg, states, steps) && at < |states| && c < |states[at].nodes|
    requires cfg.maxOBuf == 0 && Library(states[at].nodes[c])
    requires forall k :: 0 <= k < at ==> steps[k] != ServerClose(c)
    ensures c < |states[at].broker.conns| && states[at].broker.conns[c].open
  {
    hide Next, UpLink, DownLink, Refines, Settled, Library;
    RunKeeps(cfg, states, steps, at);
    if at > 0 {
      var before, step := states[at - 1], steps[at - 1];
      RunKeeps(cfg, states, steps, at - 1);
      assert Moves(cfg, states, at - 1, step);
      if c < |before.nodes| {
        LibraryBefore(cfg, before, step, c);
        LibraryStaysConnected(cfg, states, steps, at - 1, c);
        StaysOpen(cfg, before, step, c);
      } else {
        NewIsOpen(cfg, before, step, c);
        assert states[at].broker.conns[c] == states[at].broker.conns[c..][0];
      }
    }
  }

  // ---------------------------------------------------------------- getting through

  lemma WriteAllPending(cfg: Config, s: State, c: nat)
    requires Inv(cfg, s) && c < |s.nodes| && s.broker.conns[c].open
    ensures var conn, s' := s.broker.conns[c], Next(cfg, s, ServerWrite(c, |s.broker.conns[c].output|));
      && Inv(cfg, s') && s'.nodes == s.nodes && s'.broker.history == s.broker.history
      && s'.broker.conns[c].open && s'.broker.conns[c].output == []
      && |s'.broker.conns[c].wire| == |conn.wire| + |conn.output|
  {
    hide UpLink, DownLink, Refines, Settled;
    NextKeeps(cfg, s, ServerWrite(c, |s.broker.conns[c].output|));
  }

  lemma ReadAllWritten(cfg: Config, s: State, c: nat, rest: nat)
    requires Inv(cfg, s) && c < |s.nodes| && s.broker.conns[c].open && s.broker.conns[c].output == []
    requires s.nodes[c].received + rest == |s.broker.conns[c].wire| && |s.nodes[c].input| + rest < TWO_32
    ensures var s' := Next(cfg, s, ClientRead(c, rest));
      && s'.broker == s.broker
      && c < |s'.nodes| && s'.nodes[c].dispatched == Expected(cfg.engine, s.broker.history, c)
  {
    assert !s.nodes[c].failed by {
      hide UpLink, Refines, Settled;
    }
    hide UpLink, DownLink, Refines, Settled, DrainBuffered, Expected, ConnRefines, ParseFrame, Visible;
    NextKeeps(cfg, s, ClientRead(c, rest));
    var s' := Next(cfg, s, ClientRead(c, rest));
    ConnOf(cfg, s'.broker, c);
    DownQuietIsComplete(cfg, s'.broker.history, c, s'.nodes[c], s'.broker.conns[c]);
  }

  /** At any moment of any run two events are enough for a connected client to be given all that it is due: its responder
      writes what is pending, and the client reads it. */
  lemma DeliveryGetsThrough(cfg: Config, states: seq<State>, steps: seq<Step>, at: nat, c: nat)
    requires IsRun(cfg, states, steps) && at < |states| && c < |states[at].nodes|
    requires |states[at].nodes| == |states[at].broker.conns| && states[at].broker.conns[c].open
    requires var n, conn := states[at].nodes[c], states[at].broker.conns[c];
      n.received <= |conn.wire| && |n.input| + |conn.wire| + |conn.output| - n.received < TWO_32
    ensures var s := states[at];
      var conn := s.broker.conns[c];
      var rest := |conn.wire| + |conn.output| - s.nodes[c].received;
      var s' := Next(cfg, Next(cfg, s, ServerWrite(c, |conn.output|)), ClientRead(c, rest));
      && s'.broker.history == s.broker.history
      && c < |s'.nodes| && s'.nodes[c].dispatched == Expected(cfg.engine, s.broker.history, c)
  {
    hide Inv, Next, Expected;
    var s := states[at];
    var conn := s.broker.conns[c];
    RunKeeps(cfg, states, steps, at);
    WriteAllPending(cfg, s, c);
    ReadAllWritten(cfg, Next(cfg, s, ServerWrite(c, |conn.output|)), c,
                   |conn.wire| + |conn.output| - s.nodes[c].received);
  }

  lemma FlushAll(cfg: Config, s: State, c: nat)
    requires Inv(cfg, s) && c < |s.nodes| && Library(s.nodes[c])
    ensures var n, s' := s.nodes[c], Next(cfg, s, ClientAct(c, FlushStep));
      && Inv(cfg, s') && s'.broker == s.broker && |s'.nodes| == |s.nodes|
      && var n' := s'.nodes[c];
         && Library(n') && n'.sent == n.sent && n'.consumed == n.consumed
         && n'.out.Pending() == 0 && |n'.out.wire| == |n.out.wire| + n.out.Pending()
  {
    hide UpLink, DownLink, Refines, Settled, Encodable;
    NextKeeps(cfg, s, ClientAct(c, FlushStep));
  }

  lemma ReadAllSent(cfg: Config, s: State, c: nat, rest: nat, full: FullHandler)
    requires Inv(cfg, s) && c < |s.nodes| && s.broker.conns[c].open && cfg.maxOBuf == 0
    requires Library(s.nodes[c]) && s.nodes[c].out.Pending() == 0
    requires s.nodes[c].consumed + rest == |s.nodes[c].out.wire| && |s.broker.conns[c].input| + rest < TWO_32
    ensures FromConn(Next(cfg, s, ServerRead(c, rest, full)).broker.history, c) == s.nodes[c].sent
  {
    var b, n := s.broker, s.nodes[c];
    var chunk := Take(n.out.wire, n.consumed, rest);
    var s' := Next(cfg, s, ServerRead(c, rest, full));
    hide UpLink, DownLink, Refines, DrainBuffered, ParseFrame, Visible, OnInput, FromConn, Library;
    NextKeeps(cfg, s, ServerRead(c, rest, full));
    StaysOpen(cfg, s, ServerRead(c, rest, full), c);
    ServerReadIs(cfg, s, c, rest, full);
    hide Next;
    OnInputExact(cfg, full, b, c, chunk);
    StillLibrary(n, n.consumed + rest);
    UpQuietIsComplete(s'.broker.history, c, s'.nodes[c], s'.broker.conns[c]);
  }

  lemma StillLibrary(n: Node, consumed: nat)
    ensures Library(n.(consumed := consumed)) <==> Library(n)
  {
  }

  lemma ServerReadIs(cfg: Config, s: State, c: nat, count: nat, full: FullHandler)
    requires |s.nodes| == |s.broker.conns| && c < |s.nodes| && s.broker.conns[c].open && count < TWO_32
    requires s.nodes[c].consumed + count <= |s.nodes[c].out.wire|
    ensures var n, s' := s.nodes[c], Next(cfg, s, ServerRead(c, count, full));
      && s'.broker == OnInput(cfg, full, s.broker, c, Take(n.out.wire, n.consumed, count))
      && s'.nodes == s.nodes[c := n.(consumed := n.consumed + count)]
  {
    hide OnInput;
  }

  /** And two are enough for the server to have handled all that a connected client of the library has sent: the client
      flushes, and the server reads. */
  lemma SendingGetsThrough(cfg: Config, states: seq<State>, steps: seq<Step>, at: nat, c: nat, full: FullHandler)
    requires IsRun(cfg, states, steps) && at < |states| && c < |states[at].nodes|
    requires |states[at].nodes| == |states[at].broker.conns| && states[at].broker.conns[c].open
    requires cfg.maxOBuf == 0 && Library(states[at].nodes[c])
    requires var n, conn := states[at].nodes[c], states[at].broker.conns[c];
      n.consumed <= |n.out.wire| && |conn.input| + |n.out.wire| + n.out.Pending() - n.consumed < TWO_32
    ensures var s := states[at];
      var n := s.nodes[c];
      var rest := |n.out.wire| + n.out.Pending() - n.consumed;
      var s' := Next(cfg, Next(cfg, s, ClientAct(c, FlushStep)), ServerRead(c, rest, full));
      FromConn(s'.broker.history, c) == n.sent
  {
    hide Inv, Next, Library, FromConn, Output.Pending;
    var s := states[at];
    var n := s.nodes[c];
    RunKeeps(cfg, states, steps, at);
    FlushAll(cfg, s, c);
    ReadAllSent(cfg, Next(cfg, s, ClientAct(c, FlushStep)), c, |n.out.wire| + n.out.Pending() - n.consumed, full);
  }
}
