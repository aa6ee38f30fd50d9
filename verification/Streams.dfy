/** Streams of encoded messages: they decode in one way only, from every prefix and through every chunking. */
module Streams {
  import opened Binary
  import opened Wrappers
  import opened Topics
  import opened Messages
  import opened Codec
  import opened CodecProperties
  import opened Framing

  function EncodeAll(ms: seq<DataMessage>): Bytes {
    if ms == [] then [] else Encode(ms[0]) + EncodeAll(ms[1..])
  }

  predicate AllEncodable(ms: seq<DataMessage>) {
    forall k :: 0 <= k < |ms| ==> Encodable(ms[k])
  }

  lemma {:induction false} EncodeAllAppend(a: seq<DataMessage>, b: seq<DataMessage>)
    ensures EncodeAll(a + b) == EncodeAll(a) + EncodeAll(b)
  {
    if a == [] {
      assert a + b == b;
    } else {
      assert (a + b)[1..] == a[1..] + b;
      EncodeAllAppend(a[1..], b);
    }
  }

  lemma EncodeAllOne(a: seq<DataMessage>, m: DataMessage)
    ensures EncodeAll(a + [m]) == EncodeAll(a) + Encode(m)
  {
    EncodeAllAppend(a, [m]);
    assert EncodeAll([m]) == Encode(m) + EncodeAll([m][1..]) == Encode(m);
  }

  /** What a reader sees at the front of any prefix of a stream that starts with an encodable message: that message as
      soon as all of it is there, and nothing before. */
  lemma FirstFrame(version1: bool, m: DataMessage, later: Bytes, seen: Bytes)
    requires Encodable(m) && seen <= Encode(m) + later
    ensures ParseFrame(version1, seen) == if |seen| >= |Encode(m)| then Frame(m, |Encode(m)|) else Incomplete
  {
    hide ParseFrame, Encode, Encodable;
    var e := Encode(m);
    if |seen| >= |e| {
      assert seen == e + seen[|e|..];
      RoundTripExact(version1, m, seen[|e|..]);
    } else if !ParseFrame(version1, seen).Incomplete? {
      assert e + [] == e == seen + e[|seen|..];
      PrefixStable(version1, seen, e[|seen|..]);
      RoundTripExact(version1, m, []);
      assert false;
    }
  }

  /** Every message sequence is recovered from its encoding, with nothing left over. */
  lemma {:induction false} UniquelyDecodable(version1: bool, ms: seq<DataMessage>)
    requires AllEncodable(ms)
    ensures Drain(version1, EncodeAll(ms)) == Outcome(ms, [], None)
  {
    hide Encode, Encodable;
    if ms != [] {
      hide ParseFrame;
      var e, t := Encode(ms[0]), EncodeAll(ms[1..]);
      assert Encodable(ms[0]);
      FirstFrame(version1, ms[0], t, e + t);
      assert (e + t)[|e|..] == t;
      UniquelyDecodable(version1, ms[1..]);
      assert [ms[0]] + ms[1..] == ms;
    }
  }

  /** The internal buffer holds some prefix of an encoded sequence: draining it yields an initial part of the sequence,
      fails never, and keeps exactly the bytes behind the messages it took, be the buffer above or below 4 GiB. */
  lemma {:induction false} DrainPrefix(version1: bool, ms: seq<DataMessage>, p: Bytes)
    requires AllEncodable(ms) && p <= EncodeAll(ms)
    ensures var o := DrainBuffered(version1, p);
      o.error.None? && o.messages <= ms && p == EncodeAll(o.messages) + o.rest
    decreases |ms|
  {
    hide ParseFrame, Encode, Encodable, Visible, EncodeAll;
    EncodeAllParts(ms);
    VisiblePrefix(p);
    if ms == [] {
      EncodeAllParts([]);
      ShortIsIncomplete(version1, Visible(p));
      assert p == [] + p;
    } else {
      var e, later := Encode(ms[0]), EncodeAll(ms[1..]);
      FirstFrame(version1, ms[0], later, Visible(p));
      if |Visible(p)| >= |e| {
        var q := p[|e|..];
        PrefixBehind(e, p, later);
        DrainPrefix(version1, ms[1..], q);
        TakeOne(ms, DrainBuffered(version1, q), p, q);
      } else {
        EncodeAllParts([]);
        assert p == [] + p;
      }
    }
  }

  lemma EncodeAllParts(ms: seq<DataMessage>)
    ensures EncodeAll(ms) == if ms == [] then [] else Encode(ms[0]) + EncodeAll(ms[1..])
  {
  }

  lemma PrefixBehind(e: Bytes, p: Bytes, later: Bytes)
    requires p <= e + later && |e| <= |p|
    ensures p == e + p[|e|..] && p[|e|..] <= later
  {
    assert p[..|e|] == (e + later)[..|e|] == e;
    assert p[|e|..] == (e + later)[..|p|][|e|..] == later[..|p| - |e|];
  }

  lemma TakeOne(ms: seq<DataMessage>, o: Outcome, p: Bytes, q: Bytes)
    requires ms != [] && o.messages <= ms[1..]
    requires p == Encode(ms[0]) + q && q == EncodeAll(o.messages) + o.rest
    ensures [ms[0]] + o.messages <= ms && p == EncodeAll([ms[0]] + o.messages) + o.rest
  {
    hide Encode;
    assert ([ms[0]] + o.messages)[1..] == o.messages;
    assert ms == [ms[0]] + ms[1..];
  }

  lemma VisiblePrefix(s: Bytes)
    ensures Visible(s) <= s
  {
  }

  /** The same for `advance`, which parses in place when nothing is buffered. */
  lemma AdvancePrefix(version1: bool, ms: seq<DataMessage>, pending: Bytes, chunk: Chunk)
    requires AllEncodable(ms) && pending + chunk <= EncodeAll(ms)
    requires ParseFrame(version1, Visible(pending)).Incomplete?
    ensures var o := Advance(version1, pending, chunk);
      o.error.None? && o.messages <= ms && pending + chunk == EncodeAll(o.messages) + o.rest
  {
    hide ParseFrame, Encode, Encodable, Visible, Drain, DrainBuffered, EncodeAll;
    FastPathRefines(version1, pending, chunk);
    DrainPrefix(version1, ms, pending + chunk);
  }

  /** Bytes that make up whole messages do not stay in a buffer below 4 GiB. */
  lemma SettledIsEmpty(version1: bool, ms: seq<DataMessage>, rest: Bytes)
    requires AllEncodable(ms) && rest == EncodeAll(ms) && |rest| < TWO_32
    requires ParseFrame(version1, Visible(rest)).Incomplete?
    ensures ms == []
  {
    hide ParseFrame, Encode, Encodable;
    if ms != [] {
      assert Encodable(ms[0]);
      FirstFrame(version1, ms[0], EncodeAll(ms[1..]), rest);
    }
  }

  /** A message of the largest size whose last byte arrives together with the first byte of the next message stays in
      the buffer: the buffer is 4 GiB long then, and its size as an `unsigned` is 0. */
  lemma LargestMessageIsStuck()
    ensures exists m: DataMessage, pending: Bytes, chunk: Chunk ::
      && Encodable(m) && pending + chunk == Encode(m) + [0] && ParseFrame(false, Visible(pending)).Incomplete?
      && Drain(false, pending + chunk) == Outcome([m], [0], None)
      && Advance(false, pending, chunk) == Outcome([], pending + chunk, None)
  {
    hide ParseFrame, Header, Body;
    var m := DataMessage(PlainData, Topic([], []), [], 0, DateTime(0, 0), Zeros(TWO_32 - 1 - HEADER_SIZE));
    var e := Encode(m);
    assert Encodable(m) && |e| == TWO_32 - 1;
    var pending: Bytes, chunk: Chunk := e[..|e| - 1], [e[|e| - 1], 0];
    var s := pending + chunk;
    assert s == e + [0] && Visible(pending) == pending && |s| == TWO_32 && Visible(s) == [];
    FirstFrame(false, m, [0], pending);
    FirstFrame(false, m, [0], s);
    assert s[|e|..] == [0];
    ShortIsIncomplete(false, [0]);
    ShortIsIncomplete(false, []);
    assert Drain(false, [0]) == Outcome([], [0], None);
    assert [m] + [] == [m];
  }
}
