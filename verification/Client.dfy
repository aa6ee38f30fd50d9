/** The client object: its socket, its two output buffers, and its message input. */
module MessageSinks {
  import opened Binary
  import opened Subscriptions
  import opened Messages

  /** The registered callbacks below `n` that a message is handed to, in the order of registration. */
  function Slots(engine: RegexEngine, callbacks: seq<Subscription>, m: DataMessage, n: nat): (r: seq<nat>)
    requires n <= |callbacks|
  {
    if n == 0 then []
    else
      var before := Slots(engine, callbacks, m, n - 1);
      if callbacks[n - 1].Match(engine, m.topic) then before + [n - 1] else before
  }

  /** Every matching callback is invoked once, in the order of registration, and no other one. */
  lemma {:induction false} SlotsExact(engine: RegexEngine, callbacks: seq<Subscription>, m: DataMessage, n: nat)
    requires n <= |callbacks|
    ensures var r := Slots(engine, callbacks, m, n);
      && (forall k :: k in r <==> 0 <= k < n && callbacks[k].Match(engine, m.topic))
      && (forall i, j :: 0 <= i < j < |r| ==> r[i] < r[j])
  {
    if n > 0 {
      SlotsExact(engine, callbacks, m, n - 1);
      var before := Slots(engine, callbacks, m, n - 1);
      assert forall i :: 0 <= i < |before| ==> before[i] in before;
    }
  }

  /** Callbacks that are run with a message, one after the other. */
  function Calls(slots: seq<nat>, m: DataMessage): (r: seq<(nat, DataMessage)>)
    ensures |r| == |slots|
  {
    seq(|slots|, k requires 0 <= k < |slots| => (slots[k], m))
  }

  /** What a dispatch has to run: with the message itself, the matching callbacks, each once and in the order of
      registration, and none unless the message is of type `Data`. */
  ghost predicate RunsExactly(engine: RegexEngine, callbacks: seq<Subscription>, m: DataMessage,
                              calls: seq<(nat, DataMessage)>) {
    && (forall i :: 0 <= i < |calls| ==> calls[i].1 == m)
    && (forall i, j :: 0 <= i < j < |calls| ==> calls[i].0 < calls[j].0)
    && (forall k :: (k, m) in calls <==>
          m.kind == MessageType.Data && 0 <= k < |callbacks| && callbacks[k].Match(engine, m.topic))
  }

  lemma CallsExact(engine: RegexEngine, callbacks: seq<Subscription>, m: DataMessage)
    ensures RunsExactly(engine, callbacks, m,
                        if m.kind.Data? then Calls(Slots(engine, callbacks, m, |callbacks|), m) else [])
  {
    SlotsExact(engine, callbacks, m, |callbacks|);
    hide Slots, Subscription.Match;
    CallsOf(Slots(engine, callbacks, m, |callbacks|), m);
  }

  lemma CallsOf(slots: seq<nat>, m: DataMessage)
    ensures forall k: nat :: (k, m) in Calls(slots, m) <==> k in slots
  {
    forall k: nat ensures (k, m) in Calls(slots, m) <==> k in slots {
      if k in slots {
        var i :| 0 <= i < |slots| && slots[i] == k;
        assert Calls(slots, m)[i] == (k, m);
      }
    }
  }

  class MessageSink {
    var callbacks: seq<Subscription>
    /** What the `messageReceived` signal has delivered, and which callback was invoked with what. */
    var received: seq<DataMessage>
    var invoked: seq<(nat, DataMessage)>

    constructor (callbacks: seq<Subscription>)
      ensures this.callbacks == callbacks && received == [] && invoked == []
    {
      this.callbacks := callbacks;
      received, invoked := [], [];
    }

    /** The signal comes first and carries every message; the callbacks are for `Data` messages only. */
    method DispatchMessage(engine: RegexEngine, m: DataMessage)
      modifies this`received, this`invoked
      ensures received == old(received) + [m]
      ensures old(invoked) <= invoked && RunsExactly(engine, callbacks, m, invoked[|old(invoked)|..])
    {
      hide RunsExactly;
      CallsExact(engine, callbacks, m);
      received := received + [m];
      if !m.kind.Data? {
        assert invoked[|old(invoked)|..] == [];
        return;
      }
      var n := 0;
      while n < |callbacks|
        invariant n <= |callbacks|
        invariant received == old(received) + [m]
        invariant invoked == old(invoked) + Calls(Slots(engine, callbacks, m, n), m)
      {
        if callbacks[n].Match(engine, m.topic) {
          invoked := invoked + [(n, m)];
        }
        n := n + 1;
      }
      assert invoked[|old(invoked)|..] == Calls(Slots(engine, callbacks, m, |callbacks|), m);
    }
  }
}

module Clients {
  import opened Binary
  import opened Wrappers
  import opened Subscriptions
  import opened Messages
  import opened Codec
  import CodecProperties
  import opened Framing
  import opened Deserializer
  import opened ClientOutput
  import opened MessageSinks

  /** The socket as an output device: how many bytes it takes is its own choice. */
  class Peer {
    var writing: bool
    var offered: Bytes
    var wire: Bytes

    constructor ()
      ensures !writing && offered == [] && wire == []
    {
      writing, offered, wire := false, [], [];
    }

    method BeginWrite(data: Bytes)
      requires !writing && data != []
      modifies this
      ensures writing && offered == data && wire == old(wire)
    {
      writing, offered := true, data;
    }

    method EndWrite() returns (count: nat)
      requires writing
      modifies this
      ensures !writing && offered == []
      ensures count <= |old(offered)| && wire == old(wire) + old(offered)[..count]
    {
      count :| 0 <= count <= |offered|;
      wire := wire + offered[..count];
      writing, offered := false, [];
    }

    method Write(data: Bytes) returns (count: nat)
      requires !writing && data != []
      modifies this`wire
      ensures 1 <= count <= |data| && wire == old(wire) + data[..count]
    {
      count :| 1 <= count <= |data|;
      wire := wire + data[..count];
    }
  }

  /** What one call of `readMessage` comes to: the bytes left in the internal buffer and the number of reads it took. */
  datatype ReadResult =
    | Read(message: DataMessage, rest: Bytes, used: nat)
    | Corrupt(error: ParseError, rest: Bytes, used: nat)
    | EndOfInput(rest: Bytes, used: nat)

  /** `readMessage` where the socket delivers `inputs` one by one and then reports the end of input. */
  function ReadNext(version1: bool, pending: Bytes, inputs: seq<Chunk>): (r: ReadResult)
    ensures r.used <= |inputs|
    ensures r.Read? && r.used == 0 ==> |r.rest| < |pending|
    decreases |inputs|
  {
    match ParseFrame(version1, Visible(pending))
    case Frame(m, n) => Read(m, pending[n..], 0)
    case Failure(e) => Corrupt(e, pending, 0)
    case Incomplete =>
      if inputs == [] then EndOfInput(pending, 0)
      else
        var r := ReadNext(version1, pending + inputs[0], inputs[1..]);
        r.(used := r.used + 1)
  }

  class Client {
    const peer: Peer
    const sink: MessageSink
    const deserializer: DataMessageDeserializer
    var outputBuffer: Bytes
    var outputBufferNext: Bytes
    var autoSync: bool
    var dataMessage: Option<DataMessage>

    constructor (autoSync: bool, callbacks: seq<Subscription>)
      ensures Output() == Fresh(autoSync) && fresh(peer) && fresh(sink) && fresh(deserializer)
      ensures deserializer.inputData == [] && !deserializer.version1Flag
    {
      peer := new Peer();
      sink := new MessageSink(callbacks);
      deserializer := new DataMessageDeserializer(false);
      outputBuffer, outputBufferNext, this.autoSync, dataMessage := [], [], autoSync, None;
    }

    ghost function Output(): Output
      reads this, peer
    {
      ClientOutput.Output(autoSync, outputBuffer, outputBufferNext, peer.writing, peer.offered, peer.wire)
    }

    method DoSendMessage(m: DataMessage)
      requires Output().Valid()
      modifies this`outputBuffer, this`outputBufferNext, peer
      ensures Output() == old(Output()).Send(m) && Output().Valid()
    {
      hide Encode;
      if autoSync {
        outputBuffer := AppendTo(m, outputBuffer);
        WriteOut();
      } else if peer.writing {
        outputBufferNext := AppendTo(m, outputBufferNext);
      } else {
        outputBuffer := AppendTo(m, outputBuffer);
        peer.BeginWrite(outputBuffer);
      }
    }

    /** The loop that writes the first buffer until it is empty. */
    method WriteOut()
      requires !peer.writing
      modifies this`outputBuffer, peer`wire
      ensures outputBuffer == [] && peer.wire == old(peer.wire) + old(outputBuffer)
    {
      while outputBuffer != []
        invariant peer.wire + outputBuffer == old(peer.wire) + old(outputBuffer)
        decreases |outputBuffer|
      {
        var count := peer.Write(outputBuffer);
        assert outputBuffer == outputBuffer[..count] + outputBuffer[count..];
        outputBuffer := outputBuffer[count..];
      }
      assert peer.wire + [] == peer.wire;
    }

    method Flush()
      requires peer.offered == outputBuffer && (peer.writing <==> outputBuffer != [])
      modifies this`outputBuffer, this`outputBufferNext, peer
      ensures Output() == old(Output()).Flush()
    {
      if peer.writing {
        var count := peer.EndWrite();
        assert outputBuffer == outputBuffer[..count] + outputBuffer[count..];
        outputBuffer := outputBuffer[count..];
      }
      assert peer.wire + outputBuffer == old(peer.wire) + old(outputBuffer);
      WriteOut();
      assert peer.wire == old(peer.wire) + old(outputBuffer);
      while outputBufferNext != []
        invariant outputBuffer == [] && !peer.writing && peer.offered == []
        invariant peer.wire + outputBufferNext == old(peer.wire) + old(outputBuffer) + old(outputBufferNext)
        decreases |outputBufferNext|
      {
        var count := peer.Write(outputBufferNext);
        assert outputBufferNext == outputBufferNext[..count] + outputBufferNext[count..];
        outputBufferNext := outputBufferNext[count..];
      }
      assert peer.wire + [] == peer.wire;
    }

    method AutoSync(sw: bool)
      requires Output().Valid()
      modifies this`autoSync, this`outputBuffer, this`outputBufferNext, peer
      ensures Output() == old(Output()).AutoSync(sw)
    {
      autoSync := sw;
      if autoSync {
        Flush();
      }
    }

    /** The socket has finished a write; the result says whether the `messagesSent` signal was fired. */
    method OnOutput() returns (count: nat, messagesSent: bool)
      requires Output().Valid() && peer.writing
      modifies this`outputBuffer, this`outputBufferNext, peer
      ensures count <= |old(outputBuffer)| && Output() == old(Output()).Written(count) && Output().Valid()
      ensures messagesSent <==> Output().Pending() == 0
    {
      count := peer.EndWrite();
      outputBuffer := outputBuffer[count..];
      messagesSent := false;
      if outputBuffer == [] {
        if outputBufferNext == [] {
          messagesSent := true;
        } else {
          outputBuffer, outputBufferNext := outputBufferNext, outputBuffer;
          peer.BeginWrite(outputBuffer);
        }
      } else {
        if outputBufferNext != [] {
          outputBuffer := outputBuffer + outputBufferNext;
          outputBufferNext := [];
        }
        peer.BeginWrite(outputBuffer);
      }
    }

    /** The socket has read `input`: add it to the internal buffer and dispatch every message that is complete. */
    method OnInput(engine: RegexEngine, input: Chunk) returns (error: Option<ParseError>)
      modifies this`dataMessage, deserializer`inputData, sink`received, sink`invoked
      ensures var o := DrainBuffered(deserializer.version1Flag, old(deserializer.inputData) + input);
        && error == o.error
        && deserializer.inputData == o.rest
        && sink.received == old(sink.received) + o.messages
        && (o.messages != [] ==> dataMessage == Some(o.messages[|o.messages| - 1]))
    {
      hide ParseFrame, Visible, DrainBuffered, RunsExactly;
      deserializer.AddData(input);
      ghost var version1, start := deserializer.version1Flag, deserializer.inputData;
      ghost var done: seq<DataMessage> := [];
      error := None;
      var more := true;
      PrependNothing(DrainBuffered(version1, start));
      while more
        invariant more ==> error.None?
        invariant sink.received == old(sink.received) + done
        invariant done != [] ==> dataMessage == Some(done[|done| - 1])
        invariant DrainBuffered(version1, start) ==
          if more then Prepend(done, DrainBuffered(version1, deserializer.inputData))
          else Outcome(done, deserializer.inputData, error)
        decreases |deserializer.inputData|, more
      {
        var message;
        DrainBufferedStep(version1, deserializer.inputData);
        message, error := deserializer.ProcessMessage();
        more := message.Some?;
        if more {
          PrependMore(done, message.value, DrainBuffered(version1, deserializer.inputData));
          dataMessage := message;
          sink.DispatchMessage(engine, message.value);
          done := done + [message.value];
        } else {
          assert done + [] == done;
        }
      }
    }

    /** Read until one message is complete, the buffer is corrupt, or the input ends. */
    method ReadMessage(inputs: seq<Chunk>) returns (r: ReadResult)
      modifies this`dataMessage, deserializer`inputData
      ensures r == ReadNext(deserializer.version1Flag, old(deserializer.inputData), inputs)
      ensures deserializer.inputData == r.rest
      ensures r.Read? ==> dataMessage == Some(r.message)
    {
      hide ParseFrame, Visible;
      var used := 0;
      while true
        invariant used <= |inputs|
        invariant var late := ReadNext(deserializer.version1Flag, deserializer.inputData, inputs[used..]);
          ReadNext(deserializer.version1Flag, old(deserializer.inputData), inputs) == late.(used := late.used + used)
        decreases |inputs| - used
      {
        var message, error := deserializer.ProcessMessage();
        if message.Some? {
          dataMessage := message;
          return Read(message.value, deserializer.inputData, used);
        }
        if error.Some? {
          return Corrupt(error.value, deserializer.inputData, used);
        }
        if used == |inputs| {
          return EndOfInput(deserializer.inputData, used);
        }
        deserializer.AddData(inputs[used]);
        assert inputs[used..][1..] == inputs[used + 1..];
        used := used + 1;
      }
    }
  }

  /** One call of `readMessage` takes the next message of the whole stream and leaves the stream at the one behind it,
      or fails where the stream does. It runs into the end of the input with every byte in the buffer, and then the
      stream has nothing more to give exactly when the buffer is below 4 GiB. */
  lemma {:induction false} ReadMessageIsDrain(version1: bool, pending: Bytes, inputs: seq<Chunk>)
    ensures var d, r := Drain(version1, pending + Concat(inputs)), ReadNext(version1, pending, inputs);
      match r
      case Read(m, rest, used) => d == Prepend([m], Drain(version1, rest + Concat(inputs[used..])))
      case Corrupt(e, rest, used) => d == Outcome([], rest + Concat(inputs[used..]), Some(e))
      case EndOfInput(rest, used) =>
        && used == |inputs| && rest == pending + Concat(inputs)
        && (d == Outcome([], rest, None) <==> |rest| < TWO_32)
    decreases |inputs|
  {
    hide ParseFrame, Drain, Visible;
    var later := Concat(inputs);
    var v := Visible(pending);
    if !ParseFrame(version1, v).Incomplete? {
      VisibleIsStable(version1, pending, later);
      DrainStep(version1, pending + later);
      assert inputs[0..] == inputs;
    } else if inputs == [] {
      assert pending + [] == pending;
      NothingLeftExactly(version1, pending);
    } else {
      assert pending + later == (pending + inputs[0]) + Concat(inputs[1..]);
      ReadMessageIsDrain(version1, pending + inputs[0], inputs[1..]);
      var r := ReadNext(version1, pending + inputs[0], inputs[1..]);
      assert inputs[1..][r.used..] == inputs[r.used + 1..];
    }
  }

  /** A frame or an error in the visible part of the buffer is one of the whole stream. */
  lemma VisibleIsStable(version1: bool, pending: Bytes, later: Bytes)
    requires !ParseFrame(version1, Visible(pending)).Incomplete?
    ensures var r := ParseFrame(version1, Visible(pending));
      && ParseFrame(version1, pending + later) == r
      && (r.Frame? ==> r.length <= |pending| && (pending + later)[r.length..] == pending[r.length..] + later)
  {
    hide ParseFrame;
    var v := Visible(pending);
    assert pending + later == v + (pending[|v|..] + later);
    CodecProperties.PrefixStable(version1, v, pending[|v|..] + later);
  }

  lemma NothingLeftExactly(version1: bool, s: Bytes)
    requires ParseFrame(version1, Visible(s)).Incomplete?
    ensures Drain(version1, s) == Outcome([], s, None) <==> |s| < TWO_32
  {
    hide ParseFrame;
    if |s| >= TWO_32 {
      LongBufferYields(version1, s);
    }
  }

  /** Calling `readMessage` again and again, until it fails or runs into the end of the input. */
  function ReadAll(version1: bool, pending: Bytes, inputs: seq<Chunk>): Outcome
    decreases |inputs|, |pending|
  {
    match ReadNext(version1, pending, inputs)
    case Read(m, rest, used) => Prepend([m], ReadAll(version1, rest, inputs[used..]))
    case Corrupt(e, rest, _) => Outcome([], rest, Some(e))
    case EndOfInput(rest, _) => Outcome([], rest, None)
  }

  /** Repeated calls give the messages and the error of the whole stream exactly when they end in an error or with less
      than 4 GiB in the buffer, and never a message that the stream does not hold. */
  lemma {:induction false} ReadAllIsDrain(version1: bool, pending: Bytes, inputs: seq<Chunk>)
    ensures var a, d := ReadAll(version1, pending, inputs), Drain(version1, pending + Concat(inputs));
      && (Agree(a, d) <==> a.error.Some? || |a.rest| < TWO_32)
      && a.messages <= d.messages
    decreases |inputs|, |pending|
  {
    hide ReadNext, Drain, ParseFrame;
    ReadMessageIsDrain(version1, pending, inputs);
    match ReadNext(version1, pending, inputs)
    case Read(m, rest, used) => ReadAllIsDrain(version1, rest, inputs[used..]);
    case Corrupt(_, _, _) =>
    case EndOfInput(rest, _) =>
      DrainStep(version1, rest);
      ReadToTheEnd(version1, pending, inputs);
      NothingLeftExactly(version1, rest);
  }

  lemma {:induction false} ReadToTheEnd(version1: bool, pending: Bytes, inputs: seq<Chunk>)
    ensures var r := ReadNext(version1, pending, inputs);
      r.EndOfInput? ==> ParseFrame(version1, Visible(r.rest)).Incomplete?
    decreases |inputs|
  {
    hide ParseFrame, Visible;
    if inputs != [] {
      ReadToTheEnd(version1, pending + inputs[0], inputs[1..]);
    }
  }

  /** Repeated calls first drain what is buffered and then go on reading. */
  lemma {:induction false} ReadAllDrainsFirst(version1: bool, pending: Bytes, inputs: seq<Chunk>)
    ensures var o := DrainBuffered(version1, pending);
      ReadAll(version1, pending, inputs) ==
        if o.error.Some? then o else Prepend(o.messages, ReadAll(version1, o.rest, inputs))
    decreases |pending|
  {
    hide ParseFrame, Visible, DrainBuffered;
    DrainBufferedStep(version1, pending);
    var r := ParseFrame(version1, Visible(pending));
    if r.Frame? {
      var rest := pending[r.length..];
      assert inputs[0..] == inputs;
      ReadAllDrainsFirst(version1, rest, inputs);
      var o := DrainBuffered(version1, rest);
      if o.error.None? {
        var t := ReadAll(version1, o.rest, inputs);
        assert [r.message] + (o.messages + t.messages) == ([r.message] + o.messages) + t.messages;
      }
    } else if r.Incomplete? {
      PrependNothing(ReadAll(version1, pending, inputs));
    }
  }

  /** A buffer without a whole frame: the next chunk is added before anything is taken. */
  lemma ReadAllReads(version1: bool, pending: Bytes, inputs: seq<Chunk>)
    requires ParseFrame(version1, Visible(pending)).Incomplete? && inputs != []
    ensures ReadAll(version1, pending, inputs) == ReadAll(version1, pending + inputs[0], inputs[1..])
  {
    hide ParseFrame, Visible;
    var r := ReadNext(version1, pending + inputs[0], inputs[1..]);
    assert inputs[1..][r.used..] == inputs[r.used + 1..];
  }

  /** `readMessage` and `advance` see the same messages and the same error on every stream, and without an error leave
      the same bytes, 4 GiB or not. */
  lemma {:induction false} ReadAllIsFeed(version1: bool, pending: Bytes, inputs: seq<Chunk>)
    requires ParseFrame(version1, Visible(pending)).Incomplete?
    ensures var a, f := ReadAll(version1, pending, inputs), Feed(version1, pending, inputs);
      Agree(a, f) && (a.error.None? ==> a == f)
    decreases |inputs|
  {
    hide ParseFrame, Visible, DrainBuffered, Framing.Advance;
    if inputs != [] {
      hide ReadAll, ReadNext;
      var chunk := inputs[0];
      var o, a := DrainBuffered(version1, pending + chunk), Framing.Advance(version1, pending, chunk);
      ReadAllReads(version1, pending, inputs);
      ReadAllDrainsFirst(version1, pending + chunk, inputs[1..]);
      FastPathRefines(version1, pending, chunk);
      if o.error.None? {
        ReadAllIsFeed(version1, o.rest, inputs[1..]);
      }
    }
  }

  /** One `onInput` after the other; an exception ends it. */
  function OnInputAll(version1: bool, pending: Bytes, inputs: seq<Chunk>): Outcome
    decreases |inputs|
  {
    if inputs == [] then Outcome([], pending, None)
    else
      var o := DrainBuffered(version1, pending + inputs[0]);
      if o.error.Some? then o else Prepend(o.messages, OnInputAll(version1, o.rest, inputs[1..]))
  }

  lemma {:induction false} OnInputAllIsFeed(version1: bool, pending: Bytes, inputs: seq<Chunk>)
    requires ParseFrame(version1, Visible(pending)).Incomplete?
    ensures var a, f := OnInputAll(version1, pending, inputs), Feed(version1, pending, inputs);
      Agree(a, f) && (a.error.None? ==> a == f)
    decreases |inputs|
  {
    hide ParseFrame, Visible, DrainBuffered, Framing.Advance;
    if inputs != [] {
      var o := DrainBuffered(version1, pending + inputs[0]);
      FastPathRefines(version1, pending, inputs[0]);
      if o.error.None? {
        OnInputAllIsFeed(version1, o.rest, inputs[1..]);
      }
    }
  }

  /** From the first byte on: repeated calls of `readMessage`, of `onInput` and of `advance` see the same, and what the
      whole stream holds exactly when no read finds the buffer and itself at 4 GiB or more, or an error comes. */
  lemma InputPathsAgree(version1: bool, inputs: seq<Chunk>)
    ensures var a, f, d := ReadAll(version1, [], inputs), Feed(version1, [], inputs), Drain(version1, Concat(inputs));
      var b := OnInputAll(version1, [], inputs);
      && Agree(a, f) && (a.error.None? ==> a == f)
      && Agree(b, f) && (b.error.None? ==> b == f)
      && (Agree(a, d) <==> Fits(version1, [], inputs) || a.error.Some?)
  {
    hide ParseFrame, ReadAll, OnInputAll, Feed, Drain, Fits;
    ShortIsIncomplete(version1, Visible([]));
    ReadAllIsFeed(version1, [], inputs);
    OnInputAllIsFeed(version1, [], inputs);
    ChunkingIndependent(version1, inputs);
  }
}
