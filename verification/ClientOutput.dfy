/** The output half of a client as a state machine: two buffers and at most one write under way. */
module ClientOutput {
  import opened Binary
  import opened Messages
  import opened Codec
  import opened Streams

  /** `current` and `next` are the two output buffers. While `writing`, `offered` is what the socket was handed by
      `beginWrite`; `wire` is all that the socket has taken. */
  datatype Output = Output(autoSync: bool, current: Bytes, next: Bytes, writing: bool, offered: Bytes, wire: Bytes) {

    /** The in-flight discipline. */
    predicate Valid() {
      && (writing <==> current != [])
      && offered == current
      && (next != [] ==> writing)
      && (autoSync ==> current == [] && next == [])
    }

    function Pending(): nat {
      |current| + |next|
    }

    /** `doSendMessage`: written at once, put into the second buffer, or put into the first one and offered. */
    function Send(m: DataMessage): Output {
      if autoSync then this.(current := [], wire := wire + (current + Encode(m)))
      else if writing then this.(next := next + Encode(m))
      else this.(current := current + Encode(m), writing := true, offered := current + Encode(m))
    }

    /** `flush`: finish the write under way, then write both buffers out. */
    function Flush(): Output {
      Output(autoSync, [], [], false, [], wire + current + next)
    }

    function AutoSync(on: bool): Output {
      if on then this.(autoSync := true).Flush() else this.(autoSync := false)
    }

    /** `onOutput`: the socket has taken `count` of the offered bytes. Both buffers are then empty, or the second one
        takes the place of the first, or it is appended to what is left of the first. */
    function Written(count: nat): Output
      requires count <= |offered| && count <= |current|
    {
      var taken, left := wire + offered[..count], current[count..];
      if left == [] && next == [] then this.(current := [], writing := false, offered := [], wire := taken)
      else if left == [] then this.(current := next, next := [], offered := next, wire := taken)
      else this.(current := left + next, next := [], offered := left + next, wire := taken)
    }
  }

  datatype OutputStep = SendStep(m: DataMessage) | FlushStep | SyncStep(on: bool) | WrittenStep(count: nat)

  /** One event at a client. A completion is possible only for a write under way and a count within the offer. */
  function Act(o: Output, step: OutputStep): Output {
    match step
    case SendStep(m) => o.Send(m)
    case FlushStep => o.Flush()
    case SyncStep(on) => o.AutoSync(on)
    case WrittenStep(count) =>
      if o.writing && count <= |o.offered| && count <= |o.current| then o.Written(count) else o
  }

  function Run(o: Output, steps: seq<OutputStep>): Output
    decreases |steps|
  {
    if steps == [] then o else Act(Run(o, steps[..|steps| - 1]), steps[|steps| - 1])
  }

  function Sent(steps: seq<OutputStep>): seq<DataMessage>
    decreases |steps|
  {
    if steps == [] then []
    else
      var before, last := Sent(steps[..|steps| - 1]), steps[|steps| - 1];
      if last.SendStep? then before + [last.m] else before
  }

  function Fresh(autoSync: bool): Output {
    Output(autoSync, [], [], false, [], [])
  }

  /** Bytes on the wire, then the first buffer, then the second: all that was sent, in order. */
  predicate Conserves(o: Output, sent: seq<DataMessage>) {
    o.wire + o.current + o.next == EncodeAll(sent)
  }

  lemma ActConserves(o: Output, step: OutputStep, sent: seq<DataMessage>)
    requires o.Valid() && Conserves(o, sent)
    ensures Act(o, step).Valid()
    ensures Conserves(Act(o, step), if step.SendStep? then sent + [step.m] else sent)
  {
    hide Encode, EncodeAll;
    match step
    case SendStep(m) =>
      EncodeAllOne(sent, m);
      if o.autoSync {
        assert o.wire + o.current + o.next == o.wire;
      } else if !o.writing {
        assert o.wire + o.current + o.next == o.wire;
      }
    case FlushStep => assert o.Flush().wire + [] + [] == o.wire + o.current + o.next;
    case SyncStep(on) =>
      if on {
        assert o.Flush().wire + [] + [] == o.wire + o.current + o.next;
      }
    case WrittenStep(count) =>
      if o.writing && count <= |o.offered| {
        assert o.current == o.current[..count] + o.current[count..];
      }
  }

  /** On every run, through every partial write, swap and merge of the buffers: nothing is lost, doubled or reordered. */
  lemma {:induction false} OutputConserved(autoSync: bool, steps: seq<OutputStep>)
    ensures var o := Run(Fresh(autoSync), steps);
      o.Valid() && Conserves(o, Sent(steps))
    decreases |steps|
  {
    hide EncodeAll;
    if steps == [] {
      EncodeAllParts([]);
    } else {
      var before, last := steps[..|steps| - 1], steps[|steps| - 1];
      OutputConserved(autoSync, before);
      ActConserves(Run(Fresh(autoSync), before), last, Sent(before));
    }
  }

  /** Sending in immediate mode puts all that was ever sent on the wire. In buffered mode it writes nothing itself, and
      offers the message to the socket when that is idle. The mode stays. */
  lemma SendExact(autoSync: bool, steps: seq<OutputStep>, m: DataMessage)
    ensures var o, next := Run(Fresh(autoSync), steps), Run(Fresh(autoSync), steps + [SendStep(m)]);
      var all := EncodeAll(Sent(steps) + [m]);
      && next.autoSync == o.autoSync
      && (o.autoSync ==> next.wire == all && next.current == next.next == [] && !next.writing)
      && (!o.autoSync ==> next.wire == o.wire && next.writing
                          && next.offered == if o.writing then o.offered else Encode(m))
  {
    hide Encode, EncodeAll;
    var o := StepTaken(autoSync, steps, SendStep(m));
    AllInPlace(autoSync, steps + [SendStep(m)]);
    if !o.autoSync && !o.writing {
      assert o.current + Encode(m) == Encode(m);
    }
  }

  /** `flush`, in either mode, ends the write under way and leaves all that was ever sent on the wire. */
  lemma FlushExact(autoSync: bool, steps: seq<OutputStep>)
    ensures var o, next := Run(Fresh(autoSync), steps), Run(Fresh(autoSync), steps + [FlushStep]);
      && next.autoSync == o.autoSync
      && !next.writing && next.current == next.next == []
      && next.wire == EncodeAll(Sent(steps))
  {
    hide Encode, EncodeAll;
    var o := StepTaken(autoSync, steps, FlushStep);
    AllInPlace(autoSync, steps + [FlushStep]);
  }

  /** `autoSync` sets the mode, to immediate as `flush` does, and back to buffered with nothing else changed. */
  lemma AutoSyncExact(autoSync: bool, steps: seq<OutputStep>, on: bool)
    ensures var o, next := Run(Fresh(autoSync), steps), Run(Fresh(autoSync), steps + [SyncStep(on)]);
      && next.autoSync == on
      && (on ==> !next.writing && next.current == next.next == [] && next.wire == EncodeAll(Sent(steps)))
      && (!on ==> next == o.(autoSync := false))
  {
    hide Encode, EncodeAll;
    var o := StepTaken(autoSync, steps, SyncStep(on));
    AllInPlace(autoSync, steps + [SyncStep(on)]);
  }

  /** A completion moves exactly the bytes it reports, and all the others are then offered at once. */
  lemma WrittenExact(autoSync: bool, steps: seq<OutputStep>, count: nat)
    ensures var o, next := Run(Fresh(autoSync), steps), Run(Fresh(autoSync), steps + [WrittenStep(count)]);
      var all := EncodeAll(Sent(steps));
      && next.autoSync == o.autoSync
      && (o.writing && count <= |o.offered| ==>
            && |o.wire| + count <= |all|
            && next.wire == all[..|o.wire| + count]
            && next.offered == all[|o.wire| + count..]
            && (next.writing <==> next.wire != all))
  {
    hide Encode, EncodeAll, Run;
    var o := StepTaken(autoSync, steps, WrittenStep(count));
    OutputConserved(autoSync, steps);
    if o.writing && count <= |o.offered| {
      WrittenOffersAll(o, count);
      hide Output.Written;
      var next, all := o.Written(count), EncodeAll(Sent(steps));
      assert all == next.wire + next.offered;
      assert all[..|next.wire|] == next.wire && all[|next.wire|..] == next.offered;
    }
  }

  lemma WrittenOffersAll(o: Output, count: nat)
    requires o.Valid() && o.writing && count <= |o.offered|
    ensures var n := o.Written(count);
      && n.autoSync == o.autoSync
      && |n.wire| == |o.wire| + count
      && n.wire + n.offered == o.wire + o.current + o.next
      && (n.writing <==> n.offered != [])
  {
    var front, left := o.current[..count], o.current[count..];
    assert o.current == front + left;
    assert o.wire + o.current + o.next == (o.wire + front) + (left + o.next);
    assert [] + o.next == o.next && left + [] == left;
  }

  lemma StepTaken(autoSync: bool, steps: seq<OutputStep>, step: OutputStep) returns (o: Output)
    ensures o == Run(Fresh(autoSync), steps) && o.Valid()
    ensures Run(Fresh(autoSync), steps + [step]) == Act(o, step)
    ensures Sent(steps + [step]) == if step.SendStep? then Sent(steps) + [step.m] else Sent(steps)
  {
    hide Act;
    var longer := steps + [step];
    assert longer[..|longer| - 1] == steps && longer[|longer| - 1] == step;
    o := Run(Fresh(autoSync), steps);
    OutputConserved(autoSync, steps);
  }

  /** With nothing pending, all is on the wire. */
  lemma AllInPlace(autoSync: bool, steps: seq<OutputStep>)
    ensures var o := Run(Fresh(autoSync), steps);
      o.current == o.next == [] ==> o.wire == EncodeAll(Sent(steps)) && !o.writing
  {
    hide EncodeAll, Run;
    OutputConserved(autoSync, steps);
    var o := Run(Fresh(autoSync), steps);
    assert o.wire + [] + [] == o.wire;
  }

  /** Between `beginWrite` and the call that ends the write nobody touches the first buffer. */
  lemma InFlightUntouched(autoSync: bool, steps: seq<OutputStep>, step: OutputStep)
    ensures var o := Run(Fresh(autoSync), steps);
      o.writing && (step.SendStep? || step == SyncStep(false))
      ==> var next := Act(o, step);
        next.writing && next.current == o.current == next.offered && next.wire == o.wire
  {
    OutputConserved(autoSync, steps);
  }

  /** `messagesSent` fires after a completed write exactly when every byte of every message sent is on the wire. */
  lemma MessagesSentExact(autoSync: bool, steps: seq<OutputStep>, count: nat)
    ensures var o := Run(Fresh(autoSync), steps);
      var next := Act(o, WrittenStep(count));
      o.writing && count <= |o.current| ==> (next.Pending() == 0 <==> next.wire == EncodeAll(Sent(steps)))
  {
    hide EncodeAll, Act;
    OutputConserved(autoSync, steps);
    var o := Run(Fresh(autoSync), steps);
    if o.writing && count <= |o.current| {
      ActConserves(o, WrittenStep(count), Sent(steps));
      var next := Act(o, WrittenStep(count));
      assert |next.wire + next.current + next.next| == |next.wire| + next.Pending();
      if next.Pending() == 0 {
        assert next.wire + [] + [] == next.wire;
      }
    }
  }

  /** A chain of completions, each of which takes at least one byte, with no send in between. */
  predicate Completions(o: Output, counts: seq<nat>)
    decreases |counts|
  {
    counts == [] ||
    (o.writing && 1 <= counts[0] <= |o.current| && counts[0] <= |o.offered|
     && Completions(o.Written(counts[0]), counts[1..]))
  }

  function AfterCompletions(o: Output, counts: seq<nat>): Output
    requires Completions(o, counts)
    decreases |counts|
  {
    if counts == [] then o else AfterCompletions(o.Written(counts[0]), counts[1..])
  }

  lemma WrittenMovesOn(o: Output, count: nat)
    requires o.Valid() && o.writing && count <= |o.current|
    ensures var n := o.Written(count);
      n.Valid() && n.Pending() == o.Pending() - count && n.wire + n.current + n.next == o.wire + o.current + o.next
  {
    assert o.current == o.current[..count] + o.current[count..];
  }

  /** Such a chain is no longer than the bytes that were pending; where it cannot go on, all of them are on the wire. */
  lemma {:induction false} CompletionsEnd(o: Output, counts: seq<nat>)
    requires o.Valid() && Completions(o, counts)
    ensures var last := AfterCompletions(o, counts);
      && last.Valid()
      && |counts| + last.Pending() <= o.Pending()
      && last.wire + last.current + last.next == o.wire + o.current + o.next
      && (!last.writing ==> last.Pending() == 0)
    decreases |counts|
  {
    if counts != [] {
      hide Output.Written;
      WrittenMovesOn(o, counts[0]);
      CompletionsEnd(o.Written(counts[0]), counts[1..]);
    }
  }
}
