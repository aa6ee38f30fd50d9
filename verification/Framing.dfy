/** Streams of frames: what a whole byte stream means, and what the incremental deserializer makes of its chunks. */
module Framing {
  import opened Binary
  import opened Wrappers
  import opened Messages
  import opened Codec
  import opened CodecProperties

  /** A buffer whose size fits the `unsigned` in which it is passed. */
  type Chunk = s: Bytes | |s| < TWO_32 witness []

  /** Messages taken from a stream, the bytes left in the buffer, and the exception that ended the work, if any. */
  datatype Outcome = Outcome(messages: seq<DataMessage>, rest: Bytes, error: Option<ParseError>)

  function Prepend(ms: seq<DataMessage>, o: Outcome): Outcome {
    o.(messages := ms + o.messages)
  }

  /** The whole-stream parser: take frames from the front until none is left. */
  function Drain(version1: bool, s: Bytes): (o: Outcome)
    ensures |o.rest| <= |s|
    decreases |s|
  {
    match ParseFrame(version1, s)
    case Incomplete => Outcome([], s, None)
    case Failure(error) => Outcome([], s, Some(error))
    case Frame(m, n) => Prepend([m], Drain(version1, s[n..]))
  }

  /** The part of the internal buffer that `processMessage` sees: its size is passed as an `unsigned`. */
  function Visible(s: Bytes): (r: Bytes)
    ensures |s| < TWO_32 ==> r == s
  {
    s[..|s| % TWO_32]
  }

  /** Draining the internal buffer, one `processMessage` call after the other. */
  function DrainBuffered(version1: bool, s: Bytes): (o: Outcome)
    ensures |o.rest| <= |s|
    ensures o.error.None? ==> ParseFrame(version1, Visible(o.rest)).Incomplete?
    decreases |s|
  {
    match ParseFrame(version1, Visible(s))
    case Incomplete => Outcome([], s, None)
    case Failure(error) => Outcome([], s, Some(error))
    case Frame(m, n) => Prepend([m], DrainBuffered(version1, s[n..]))
  }

  /** One call of `advance`. With nothing buffered, frames are parsed in place and only the remainder is kept;
      an exception then leaves nothing buffered. */
  function Advance(version1: bool, pending: Bytes, chunk: Chunk): (o: Outcome)
    ensures o.error.None? && ParseFrame(version1, Visible(pending)).Incomplete?
            ==> ParseFrame(version1, Visible(o.rest)).Incomplete?
  {
    if pending == [] then
      var o := Drain(version1, chunk);
      DrainEnds(version1, chunk);
      if o.error.Some? then o.(rest := []) else o
    else if chunk == [] then Outcome([], pending, None)
    else DrainBuffered(version1, pending + chunk)
  }

  lemma {:induction false} DrainEnds(version1: bool, s: Bytes)
    ensures var o := Drain(version1, s);
      ParseFrame(version1, o.rest) == if o.error.Some? then Failure(o.error.value) else Incomplete
    decreases |s|
  {
    hide ParseFrame;
    match ParseFrame(version1, s)
    case Frame(_, n) => DrainEnds(version1, s[n..]);
    case _ =>
  }

  /** Feeding chunks one after the other; an exception ends it. */
  function Feed(version1: bool, pending: Bytes, chunks: seq<Chunk>): Outcome
    decreases |chunks|
  {
    if chunks == [] then Outcome([], pending, None)
    else
      var o := Advance(version1, pending, chunks[0]);
      if o.error.Some? then o else Prepend(o.messages, Feed(version1, o.rest, chunks[1..]))
  }

  function Concat(chunks: seq<Bytes>): Bytes {
    if chunks == [] then [] else chunks[0] + Concat(chunks[1..])
  }

  // ---------------------------------------------------------------- the whole-stream parser

  /** Draining a longer stream: what the first part gave stays, and only its remainder is looked at again. */
  lemma {:induction false} DrainSplit(version1: bool, s: Bytes, t: Bytes)
    ensures var o := Drain(version1, s);
      Drain(version1, s + t) ==
        if o.error.Some? then o.(rest := o.rest + t) else Prepend(o.messages, Drain(version1, o.rest + t))
    decreases |s|
  {
    hide ParseFrame;
    match ParseFrame(version1, s)
    case Incomplete =>
      assert Prepend([], Drain(version1, s + t)) == Drain(version1, s + t);
    case Failure(_) =>
      PrefixStable(version1, s, t);
    case Frame(m, n) =>
      PrefixStable(version1, s, t);
      assert (s + t)[n..] == s[n..] + t;
      DrainSplit(version1, s[n..], t);
      var o := Drain(version1, s[n..]);
      if o.error.None? {
        var rest := Drain(version1, o.rest + t);
        assert [m] + (o.messages + rest.messages) == ([m] + o.messages) + rest.messages;
      }
  }

  /** `frames` and `rest` cut `s` into frames, one for each message, and a remainder that starts with no frame. */
  ghost predicate Splits(version1: bool, s: Bytes, frames: seq<Bytes>, ms: seq<DataMessage>, rest: Bytes) {
    if frames == [] then ms == [] && s == rest && !ParseFrame(version1, rest).Frame?
    else
      && ms != []
      && frames[0] <= s
      && ParseFrame(version1, frames[0]) == Frame(ms[0], |frames[0]|)
      && Splits(version1, s[|frames[0]|..], frames[1..], ms[1..], rest)
  }

  /** A frame is a frame by its own bytes alone. */
  lemma FrameAlone(version1: bool, s: Bytes, n: nat)
    requires ParseFrame(version1, s).Frame? && ParseFrame(version1, s).length == n
    ensures ParseFrame(version1, s[..n]) == ParseFrame(version1, s)
  {
    var f, t := s[..n], s[n..];
    assert s == f + t;
    Pow256Values();
    SliceOfAppend(f, t, 0, 4);
    SliceOfAppend(f, t, 4, 8);
    if ParseFrame(version1, f).Incomplete? {
      assert false;
    }
    PrefixStable(version1, f, t);
  }

  function FramesOf(version1: bool, s: Bytes): seq<Bytes>
    decreases |s|
  {
    match ParseFrame(version1, s)
    case Frame(_, n) => [s[..n]] + FramesOf(version1, s[n..])
    case _ => []
  }

  /** Nothing is lost or made up: the frames of the drained messages and the remainder are the stream. */
  lemma {:induction false} DrainConserves(version1: bool, s: Bytes)
    ensures var o := Drain(version1, s);
      Splits(version1, s, FramesOf(version1, s), o.messages, o.rest)
    decreases |s|
  {
    hide ParseFrame;
    match ParseFrame(version1, s)
    case Frame(m, n) =>
      FrameAlone(version1, s, n);
      DrainConserves(version1, s[n..]);
      assert Drain(version1, s).messages[1..] == Drain(version1, s[n..]).messages;
      assert FramesOf(version1, s)[1..] == FramesOf(version1, s[n..]);
    case _ =>
  }

  /** There is only one way to cut a stream, and draining finds it. */
  lemma {:induction false} SplitIsUnique(version1: bool, s: Bytes, frames: seq<Bytes>, ms: seq<DataMessage>, rest: Bytes)
    requires Splits(version1, s, frames, ms, rest)
    ensures FramesOf(version1, s) == frames
    ensures Drain(version1, s).messages == ms && Drain(version1, s).rest == rest
    decreases |frames|
  {
    hide ParseFrame;
    if frames != [] {
      var n := |frames[0]|;
      assert s == frames[0] + s[n..];
      PrefixStable(version1, frames[0], s[n..]);
      SplitIsUnique(version1, s[n..], frames[1..], ms[1..], rest);
      assert ms == [ms[0]] + ms[1..];
      assert frames == [frames[0]] + frames[1..];
    }
  }

  // ---------------------------------------------------------------- the internal buffer

  /** Draining the internal buffer is draining the visible part of it. */
  lemma {:induction false} DrainBufferedIsVisible(version1: bool, s: Bytes)
    ensures var o := Drain(version1, Visible(s));
      DrainBuffered(version1, s) == o.(rest := o.rest + s[|s| % TWO_32..])
    decreases |s|
  {
    hide ParseFrame;
    var v := Visible(s);
    assert s == v + s[|v|..];
    match ParseFrame(version1, v)
    case Frame(_, n) =>
      VisibleOfRest(s, n);
      DrainBufferedIsVisible(version1, s[n..]);
      assert s[n..][|s[n..]| % TWO_32..] == s[|s| % TWO_32..];
    case _ =>
  }

  lemma VisibleOfRest(s: Bytes, n: nat)
    requires n <= |s| % TWO_32
    ensures (|s| - n) % TWO_32 == |s| % TWO_32 - n
    ensures Visible(s[n..]) == Visible(s)[n..]
  {
  }

  /** The same messages and the same exception. */
  predicate Agree(a: Outcome, b: Outcome) {
    a.messages == b.messages && a.error == b.error
  }

  /** The internal buffer is drained as the whole-stream parser would exactly when it is below 4 GiB, or when the part
      of it beyond a multiple of 4 GiB already holds an error. */
  lemma DrainBufferedExact(version1: bool, s: Bytes)
    ensures Agree(DrainBuffered(version1, s), Drain(version1, s))
            <==> |s| < TWO_32 || Drain(version1, Visible(s)).error.Some?
    ensures Agree(DrainBuffered(version1, s), Drain(version1, s)) ==> DrainBuffered(version1, s) == Drain(version1, s)
  {
    hide ParseFrame, Drain, DrainBuffered;
    DrainBufferedIsVisible(version1, s);
    var v, hidden := Visible(s), s[|s| % TWO_32..];
    assert s == v + hidden;
    var o := Drain(version1, v);
    DrainSplit(version1, v, hidden);
    if |s| < TWO_32 {
      assert o.rest + hidden == o.rest;
    } else if o.error.None? {
      LongBufferYields(version1, o.rest + hidden);
    }
  }

  /** At least 4 GiB hold a frame or an error, since no frame is longer. */
  lemma LongBufferYields(version1: bool, s: Bytes)
    requires |s| >= TWO_32
    ensures Drain(version1, s).error.Some? || Drain(version1, s).messages != []
  {
    hide ParseFrame;
    assert !ParseFrame(version1, s).Incomplete?;
  }

  /** The in-place path against the plain one, `addData` and then draining the internal buffer. They give the same
      messages and the same error, unless an empty chunk finds a whole frame buffered, which `advance` then leaves alone;
      and they leave the same bytes, unless an error meets an empty buffer. */
  lemma FastPathRefines(version1: bool, pending: Bytes, chunk: Chunk)
    ensures var a, b := Advance(version1, pending, chunk), DrainBuffered(version1, pending + chunk);
      && (Agree(a, b) <==> chunk != [] || ParseFrame(version1, Visible(pending)).Incomplete?)
      && (Agree(a, b) ==> (a.rest == b.rest <==> pending != [] || a.error.None?))
  {
    hide ParseFrame;
    if pending == [] {
      assert pending + chunk == chunk;
      DrainBufferedExact(version1, chunk);
      DrainEnds(version1, chunk);
      ShortIsIncomplete(version1, []);
    } else if chunk == [] {
      assert pending + chunk == pending;
    }
  }

  lemma ShortIsIncomplete(version1: bool, s: Bytes)
    requires |s| < HEADER1_SIZE
    ensures ParseFrame(version1, s).Incomplete?
  {
  }

  /** `advance` agrees with the whole-stream parser exactly when it looks at its buffer at all, and the buffered bytes
      and the chunk stay below 4 GiB or the visible part of them already fails. */
  lemma AdvanceExact(version1: bool, pending: Bytes, chunk: Chunk)
    ensures var s := pending + chunk;
      Agree(Advance(version1, pending, chunk), Drain(version1, s))
      <==> (chunk != [] || ParseFrame(version1, Visible(pending)).Incomplete?)
           && (|s| < TWO_32 || Drain(version1, Visible(s)).error.Some?)
  {
    hide ParseFrame, Visible, DrainBuffered;
    var s := pending + chunk;
    FastPathRefines(version1, pending, chunk);
    DrainBufferedExact(version1, s);
    if chunk == [] && !ParseFrame(version1, Visible(pending)).Incomplete? {
      assert s == pending;
      UnsettledYields(version1, s);
    }
  }

  lemma UnsettledYields(version1: bool, s: Bytes)
    requires !ParseFrame(version1, Visible(s)).Incomplete?
    ensures Drain(version1, s).error.Some? || Drain(version1, s).messages != []
    ensures s != []
  {
    hide ParseFrame;
    if s == [] {
      ShortIsIncomplete(version1, Visible(s));
      assert false;
    }
    assert s == Visible(s) + s[|Visible(s)|..];
    PrefixStable(version1, Visible(s), s[|Visible(s)|..]);
  }

  // ---------------------------------------------------------------- chunking

  /** One call of `advance` takes a first part of what the whole stream, `later` bytes included, has to give. */
  lemma AdvancePart(version1: bool, pending: Bytes, chunk: Chunk, later: Bytes)
    ensures var a, d := Advance(version1, pending, chunk), Drain(version1, pending + chunk + later);
      if a.error.Some? then Agree(a, d) else d == Prepend(a.messages, Drain(version1, a.rest + later))
  {
    hide ParseFrame, Drain, DrainBuffered;
    var s := pending + chunk;
    if pending == [] {
      assert s + later == chunk + later;
      DrainSplit(version1, chunk, later);
    } else if chunk == [] {
      assert s + later == pending + later;
      var d := Drain(version1, pending + later);
      assert Prepend([], d) == d;
    } else {
      DrainBufferedIsVisible(version1, s);
      var v, hidden := Visible(s), s[|s| % TWO_32..];
      assert s == v + hidden;
      assert s + later == v + (hidden + later);
      DrainSplit(version1, v, hidden + later);
      var rest := Drain(version1, v).rest;
      assert rest + (hidden + later) == (rest + hidden) + later;
    }
  }

  /** So does any number of calls. */
  lemma {:induction false} FeedPart(version1: bool, pending: Bytes, chunks: seq<Chunk>)
    ensures var f, d := Feed(version1, pending, chunks), Drain(version1, pending + Concat(chunks));
      if f.error.Some? then Agree(f, d) else d == Prepend(f.messages, Drain(version1, f.rest))
    decreases |chunks|
  {
    hide ParseFrame, Drain, Advance;
    if chunks == [] {
      assert pending + [] == pending;
      var d := Drain(version1, pending);
      assert Prepend([], d) == d;
    } else {
      var later := Concat(chunks[1..]);
      var a := Advance(version1, pending, chunks[0]);
      assert pending + Concat(chunks) == pending + chunks[0] + later;
      AdvancePart(version1, pending, chunks[0], later);
      if a.error.None? {
        FeedPart(version1, a.rest, chunks[1..]);
        var f := Feed(version1, a.rest, chunks[1..]);
        var t := Drain(version1, f.rest);
        assert a.messages + (f.messages + t.messages) == (a.messages + f.messages) + t.messages;
      }
    }
  }

  lemma {:induction false} FeedSettles(version1: bool, pending: Bytes, chunks: seq<Chunk>)
    requires ParseFrame(version1, Visible(pending)).Incomplete?
    ensures var f := Feed(version1, pending, chunks);
      f.error.None? ==> ParseFrame(version1, Visible(f.rest)).Incomplete?
    decreases |chunks|
  {
    hide ParseFrame, Visible, Advance;
    if chunks != [] {
      var a := Advance(version1, pending, chunks[0]);
      if a.error.None? {
        FeedSettles(version1, a.rest, chunks[1..]);
      }
    }
  }

  /** Splitting a stream into chunks makes no difference, to the messages, their order, and the error that ends them,
      exactly when it ends in an error or `in_avail()` ends below 4 GiB. Without an error the bytes left are then also
      those of the whole-stream parser; and never is a message emitted that this parser would not emit. */
  lemma ChunkingExact(version1: bool, chunks: seq<Chunk>)
    ensures var f, d := Feed(version1, [], chunks), Drain(version1, Concat(chunks));
      && (Agree(f, d) <==> f.error.Some? || |f.rest| < TWO_32)
      && (f.error.None? && Agree(f, d) ==> f == d)
      && f.messages <= d.messages
  {
    hide ParseFrame, Feed;
    var f := Feed(version1, [], chunks);
    FeedPart(version1, [], chunks);
    assert [] + Concat(chunks) == Concat(chunks);
    ShortIsIncomplete(version1, Visible([]));
    FeedSettles(version1, [], chunks);
    if f.error.None? {
      if |f.rest| < TWO_32 {
        assert Drain(version1, f.rest) == Outcome([], f.rest, None);
        assert f.messages + [] == f.messages;
      } else {
        LongBufferYields(version1, f.rest);
      }
    }
  }

  /** At every call `in_avail()` and the size of the chunk together fit an `unsigned`. */
  predicate Fits(version1: bool, pending: Bytes, chunks: seq<Chunk>)
    decreases |chunks|
  {
    chunks == [] ||
    (|pending| + |chunks[0]| < TWO_32 &&
     var o := Advance(version1, pending, chunks[0]);
     o.error.None? ==> Fits(version1, o.rest, chunks[1..]))
  }

  /** A check before every call decides it: chunking makes no difference exactly when it never finds the buffered bytes
      and the chunk together at 4 GiB or more, or the stream ends in an error all the same. On a stream without errors
      this check is all there is to it. */
  lemma ChunkingIndependent(version1: bool, chunks: seq<Chunk>)
    ensures var f, d := Feed(version1, [], chunks), Drain(version1, Concat(chunks));
      && (Agree(f, d) <==> Fits(version1, [], chunks) || f.error.Some?)
      && (d.error.None? ==> (Agree(f, d) <==> Fits(version1, [], chunks)))
      && (d.error.None? && Agree(f, d) ==> f == d)
  {
    hide ParseFrame, Feed, Drain, Fits;
    if Fits(version1, [], chunks) {
      FitsStaysShort(version1, [], chunks);
    } else {
      NotFittingEndsLong(version1, [], chunks);
    }
    ChunkingExact(version1, chunks);
  }

  lemma {:induction false} FitsStaysShort(version1: bool, pending: Bytes, chunks: seq<Chunk>)
    requires Fits(version1, pending, chunks) && |pending| < TWO_32
    ensures |Feed(version1, pending, chunks).rest| < TWO_32
    decreases |chunks|
  {
    hide ParseFrame;
    if chunks != [] {
      var a := Advance(version1, pending, chunks[0]);
      assert |a.rest| <= |pending| + |chunks[0]|;
      if a.error.None? {
        FitsStaysShort(version1, a.rest, chunks[1..]);
      }
    }
  }

  /** At 4 GiB or more the hidden part of the buffer is never taken. */
  lemma LongCallStaysLong(version1: bool, pending: Bytes, chunk: Chunk)
    requires |pending| + |chunk| >= TWO_32
    ensures var a := Advance(version1, pending, chunk);
      a.error.None? ==> |a.rest| >= TWO_32
  {
    hide ParseFrame, Drain, DrainBuffered;
    var s := pending + chunk;
    DrainBufferedIsVisible(version1, s);
    assert |s| - |s| % TWO_32 >= TWO_32;
  }

  lemma {:induction false} LongStaysLong(version1: bool, pending: Bytes, chunks: seq<Chunk>)
    requires |pending| >= TWO_32
    ensures var f := Feed(version1, pending, chunks);
      f.error.None? ==> |f.rest| >= TWO_32
    decreases |chunks|
  {
    hide ParseFrame, Advance;
    if chunks != [] {
      var a := Advance(version1, pending, chunks[0]);
      LongCallStaysLong(version1, pending, chunks[0]);
      if a.error.None? {
        LongStaysLong(version1, a.rest, chunks[1..]);
      }
    }
  }

  lemma {:induction false} NotFittingEndsLong(version1: bool, pending: Bytes, chunks: seq<Chunk>)
    requires !Fits(version1, pending, chunks)
    ensures var f := Feed(version1, pending, chunks);
      f.error.None? ==> |f.rest| >= TWO_32
    decreases |chunks|
  {
    hide ParseFrame, Advance;
    var a := Advance(version1, pending, chunks[0]);
    if a.error.None? {
      if |pending| + |chunks[0]| >= TWO_32 {
        LongCallStaysLong(version1, pending, chunks[0]);
        LongStaysLong(version1, a.rest, chunks[1..]);
      } else {
        NotFittingEndsLong(version1, a.rest, chunks[1..]);
      }
    }
  }
}
