/** The incremental deserializer as the object it is. */
module Deserializer {
  import opened Binary
  import opened Wrappers
  import opened Messages
  import opened Codec
  import opened CodecProperties
  import opened Framing

  class DataMessageDeserializer {
    const version1Flag: bool
    var inputData: Bytes

    constructor (version1Flag: bool)
      ensures this.version1Flag == version1Flag && inputData == []
    {
      this.version1Flag := version1Flag;
      inputData := [];
    }

    method AddData(buffer: Bytes)
      modifies this`inputData
      ensures inputData == old(inputData) + buffer
    {
      inputData := inputData + buffer;
    }

    /** Take one message from the internal buffer; nothing changes when there is none or the buffer is corrupt. */
    method ProcessMessage() returns (message: Option<DataMessage>, error: Option<ParseError>)
      modifies this`inputData
      ensures match ParseFrame(version1Flag, Visible(old(inputData)))
        case Incomplete => message.None? && error.None? && inputData == old(inputData)
        case Failure(e) => message.None? && error == Some(e) && inputData == old(inputData)
        case Frame(m, n) => message == Some(m) && error.None? && inputData == old(inputData)[n..]
    {
      match ParseFrame(version1Flag, Visible(inputData))
      case Incomplete =>
        message, error := None, None;
      case Failure(e) =>
        message, error := None, Some(e);
      case Frame(m, n) =>
        message, error := Some(m), None;
        inputData := inputData[n..];
    }

    /** Take messages from the internal buffer until there is none left or an exception ends it. */
    method ProcessAll() returns (count: nat, emitted: seq<DataMessage>, error: Option<ParseError>)
      modifies this`inputData
      ensures DrainBuffered(version1Flag, old(inputData)) == Outcome(emitted, inputData, error)
      ensures count == |emitted|
    {
      hide ParseFrame, Visible, DrainBuffered;
      count, emitted, error := 0, [], None;
      var more := true;
      PrependNothing(DrainBuffered(version1Flag, inputData));
      while more
        invariant more ==> error.None?
        invariant count == |emitted|
        invariant DrainBuffered(version1Flag, old(inputData)) ==
          if more then Prepend(emitted, DrainBuffered(version1Flag, inputData)) else Outcome(emitted, inputData, error)
        decreases |inputData|, more
      {
        var message;
        DrainBufferedStep(version1Flag, inputData);
        message, error := ProcessMessage();
        more := message.Some?;
        if more {
          PrependMore(emitted, message.value, DrainBuffered(version1Flag, inputData));
          emitted := emitted + [message.value];
          count := count + 1;
        } else {
          assert emitted + [] == emitted;
        }
      }
    }

    /** `advance`: with nothing buffered, parse the caller's buffer in place and keep the remainder. The count takes in
        only the messages that came from the internal buffer. */
    method Advance(buffer: Chunk) returns (count: nat, emitted: seq<DataMessage>, error: Option<ParseError>)
      modifies this`inputData
      ensures Framing.Advance(version1Flag, old(inputData), buffer) == Outcome(emitted, inputData, error)
      ensures count == if old(inputData) == [] then 0 else |emitted|
    {
      hide ParseFrame, Visible, Drain, DrainBuffered;
      var rest: Chunk := buffer;
      count, emitted, error := 0, [], None;
      if inputData == [] {
        var more := true;
        PrependNothing(Drain(version1Flag, buffer));
        while more
          invariant inputData == [] && error.None?
          invariant Drain(version1Flag, buffer) ==
            if more then Prepend(emitted, Drain(version1Flag, rest)) else Outcome(emitted, rest, error)
          decreases |rest|, more
        {
          DrainStep(version1Flag, rest);
          match ParseFrame(version1Flag, rest)
          case Incomplete =>
            assert emitted + [] == emitted;
            more := false;
          case Failure(e) =>
            assert emitted + [] == emitted;
            error := Some(e);
            return;
          case Frame(m, n) =>
            PrependMore(emitted, m, Drain(version1Flag, rest[n..]));
            emitted := emitted + [m];
            rest := rest[n..];
        }
      }
      if rest != [] {
        if inputData == [] {
          DrainEnds(version1Flag, buffer);
          WholeIsVisible(rest);
          DrainBufferedStep(version1Flag, rest);
          assert [] + rest == rest;
          assert emitted + [] == emitted;
        }
        AddData(rest);
        var late;
        count, late, error := ProcessAll();
        emitted := emitted + late;
      }
    }
  }

  /** `createFromBuffer` on a vector: `None` stands for the exceptions, of the parser or for an incomplete message. */
  method CreateFromBuffer(buffer: Bytes, version1: bool) returns (message: Option<DataMessage>)
    ensures |buffer| < TWO_32 ==> forall m :: Encodable(m) && Encode(m) <= buffer ==> message == Some(m)
    ensures message.Some? && !version1 ==> exists n :: IsFrameOf(Visible(buffer), message.value, n)
  {
    hide Encode, Encodable, ParseVersion1, ParseVersion2;
    forall m ensures |buffer| < TWO_32 && Encodable(m) && Encode(m) <= buffer
                     ==> ParseFrame(version1, Visible(buffer)) == Frame(m, |Encode(m)|) {
      EncodingIsRead(version1, m, buffer);
    }
    match ParseFrame(version1, Visible(buffer))
    case Frame(m, n) =>
      ParseExact(version1, Visible(buffer), m, n);
      return Some(m);
    case _ =>
      return None;
  }

  lemma WholeIsVisible(s: Chunk)
    ensures Visible(s) == s
  {
  }

  lemma PrependNothing(o: Outcome)
    ensures Prepend([], o) == o
  {
  }

  lemma PrependMore(ms: seq<DataMessage>, m: DataMessage, o: Outcome)
    ensures Prepend(ms, Prepend([m], o)) == Prepend(ms + [m], o)
  {
    assert ms + ([m] + o.messages) == (ms + [m]) + o.messages;
  }

  lemma DrainStep(version1: bool, s: Bytes)
    ensures var r := ParseFrame(version1, s);
      Drain(version1, s) ==
        if r.Incomplete? then Outcome([], s, None)
        else if r.Failure? then Outcome([], s, Some(r.error))
        else Prepend([r.message], Drain(version1, s[r.length..]))
  {
  }

  lemma DrainBufferedStep(version1: bool, s: Bytes)
    ensures var r := ParseFrame(version1, Visible(s));
      DrainBuffered(version1, s) ==
        if r.Incomplete? then Outcome([], s, None)
        else if r.Failure? then Outcome([], s, Some(r.error))
        else Prepend([r.message], DrainBuffered(version1, s[r.length..]))
  {
  }
}
