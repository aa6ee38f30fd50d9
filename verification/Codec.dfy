/** The binary frame of a data message: how it is written and how one frame is read from the front of a buffer. */
module Codec {
  import opened Binary
  import opened Topics
  import opened Messages

  const MAGIC: u32 := 0x74707532
  const HEADER1_SIZE: nat := 32
  const HEADER_SIZE: nat := 40

  function BodyLength(m: DataMessage): nat {
    |m.topic.main| + |m.topic.sub| + |m.source| + |m.data|
  }

  /** The last eight header bytes: three narrowed string lengths, the type, and a byte of padding. */
  function Lengths(m: DataMessage): (t: Bytes)
    ensures |t| == 8
  {
    Pack(|m.topic.main| % TWO_16, 2) + Pack(|m.topic.sub| % TWO_16, 2) + Pack(|m.source| % TWO_16, 2)
    + [Code(m.kind)] + [0]
  }

  function Header(m: DataMessage): (h: Bytes)
    ensures |h| == HEADER_SIZE
  {
    Pack(MAGIC, 4) + Pack((HEADER_SIZE + BodyLength(m)) % TWO_32, 4) + Pack(m.created.julian, 4) + Zeros(4)
    + Pack(m.created.usecs, 8) + Pack(m.serial, 8) + Lengths(m)
  }

  /** Copy four strings one after the other into space for all of them, the first to offset 0. */
  function Copies(a: Bytes, b: Bytes, c: Bytes, d: Bytes, atB: nat, atC: nat, atD: nat): (r: Bytes)
    requires atB <= |a| && atC <= |a| + |b| && atD <= |a| + |b| + |c|
    ensures |r| == |a| + |b| + |c| + |d|
  {
    var s0 := Zeros(|a| + |b| + |c| + |d|);
    var s1 := Splice(s0, 0, a);
    var s2 := Splice(s1, atB, b);
    var s3 := Splice(s2, atC, c);
    Splice(s3, atD, d)
  }

  /** The four strings as `appendTo` copies them: each at the offset that the narrowed lengths of the header give,
      so that an overlong string is partly overwritten by the next one. */
  function Body(m: DataMessage): (b: Bytes)
    ensures |b| == BodyLength(m)
  {
    var subAt := |m.topic.main| % TWO_16;
    var sourceAt := subAt + |m.topic.sub| % TWO_16;
    var dataAt := sourceAt + |m.source| % TWO_16;
    Copies(m.topic.main, m.topic.sub, m.source, m.data, subAt, sourceAt, dataAt)
  }

  /** What `appendTo` adds to a buffer, for every message. */
  function Encode(m: DataMessage): (s: Bytes)
    ensures |s| == HEADER_SIZE + BodyLength(m)
  {
    Header(m) + Body(m)
  }

  /** The messages whose frame can be read back. */
  predicate Encodable(m: DataMessage) {
    && IsValidType(m.kind)
    && |m.topic.main| < TWO_16 && |m.topic.sub| < TWO_16 && |m.source| < TWO_16
    && HEADER_SIZE + BodyLength(m) < TWO_32
  }

  datatype ParseError = CorruptMessage | InvalidMessage

  datatype Parse = Incomplete | Failure(error: ParseError) | Frame(message: DataMessage, length: nat)

  function Field(s: Bytes, at: nat, n: nat): (v: nat)
    requires at + n <= |s|
    ensures v < Pow256(n)
  {
    Unpack(s[at..at + n])
  }

  /** `processMessage` on a raw buffer: the message at its front and the number of bytes it takes. */
  function ParseFrame(version1: bool, s: Bytes): (r: Parse)
    ensures r.Frame? ==> HEADER_SIZE <= r.length <= |s| && r.length < TWO_32
    ensures r.Incomplete? ==> |s| < TWO_32
  {
    Pow256Values();
    if |s| < HEADER1_SIZE then Incomplete
    else if Field(s, 0, 4) == MAGIC then
      if |s| < HEADER_SIZE then Incomplete else ParseVersion2(s)
    else if version1 then ParseVersion1(s)
    else Failure(InvalidMessage)
  }

  function ParseVersion2(s: Bytes): (r: Parse)
    requires |s| >= HEADER_SIZE
    ensures r.Frame? ==> HEADER_SIZE <= r.length <= |s| && r.length < TWO_32
    ensures r.Incomplete? ==> |s| < TWO_32
  {
    Pow256Values();
    var length := Field(s, 4, 4);
    var subAt := HEADER_SIZE + Field(s, 32, 2);
    var sourceAt := subAt + Field(s, 34, 2);
    var dataAt := sourceAt + Field(s, 36, 2);
    var kind := ValidType(s[38]);
    if dataAt > length || kind.None? then Failure(CorruptMessage)
    else if |s| < length then Incomplete
    else
      Frame(DataMessage(kind.value,
                        Topic(s[HEADER_SIZE..subAt], s[subAt..sourceAt]),
                        s[sourceAt..dataAt],
                        Field(s, 24, 8),
                        DateTime(Field(s, 8, 4), Field(s, 16, 8)),
                        s[dataAt..length]),
            length)
  }

  /** The old header is 32 bytes long, but its topic is taken from byte 40 on: the offset is the size of the
      new header. */
  function ParseVersion1(s: Bytes): (r: Parse)
    requires |s| >= HEADER1_SIZE
    ensures r.Frame? ==> HEADER_SIZE <= r.length <= |s| && r.length < TWO_32
    ensures r.Incomplete? ==> |s| < TWO_32
  {
    Pow256Values();
    var length := Field(s, 0, 4);
    var dataAt := HEADER_SIZE + Field(s, 24, 2);
    var kind := ValidType(s[26]);
    if dataAt > length || kind.None? then Failure(CorruptMessage)
    else if |s| < length then Incomplete
    else
      Frame(DataMessage(kind.value,
                        Topic(s[HEADER_SIZE..dataAt], []),
                        [],
                        Field(s, 16, 8),
                        DateTime(Field(s, 4, 4), Field(s, 8, 8)),
                        s[dataAt..length]),
            length)
  }

  // ---------------------------------------------------------------- writing

  /** Store `x` at `at`; `left` and `right` are the bytes around the place it goes to. */
  method Store(s: Bytes, at: nat, x: Bytes, ghost left: Bytes, ghost hole: Bytes, ghost right: Bytes) returns (r: Bytes)
    requires s == left + hole + right && |left| == at && |hole| == |x|
    ensures r == left + x + right
  {
    SpliceMiddle(left, hole, right, x);
    r := Splice(s, at, x);
  }

  lemma SplitZeros(left: Bytes, k: nat, n: nat)
    ensures left + Zeros(k + n) == left + Zeros(k) + Zeros(n)
  {
    assert Zeros(k + n) == Zeros(k) + Zeros(n);
  }

  /** Store `x` at the start of the zeros that follow `left`. */
  method StoreNext(s: Bytes, at: nat, x: Bytes, ghost left: Bytes, ghost n: nat) returns (r: Bytes)
    requires s == left + Zeros(|x| + n) && |left| == at
    ensures r == left + x + Zeros(n)
  {
    SplitZeros(left, |x|, n);
    r := Store(s, at, x, left, Zeros(|x|), Zeros(n));
  }

  /** The header fields, stored one by one into the zero-filled space that `resize` leaves for them. */
  method StoreHeader(m: DataMessage, space: Bytes) returns (h: Bytes)
    requires space == Zeros(HEADER_SIZE)
    ensures h == Header(m)
  {
    var length := (HEADER_SIZE + BodyLength(m)) % TWO_32;
    ghost var l0: Bytes := [];
    assert space == l0 + Zeros(40);
    h := StoreNext(space, 0, Pack(MAGIC, 4), l0, 36);
    ghost var l1 := l0 + Pack(MAGIC, 4);
    h := StoreNext(h, 4, Pack(length, 4), l1, 32);
    ghost var l2 := l1 + Pack(length, 4);
    h := StoreNext(h, 8, Pack(m.created.julian, 4), l2, 28);
    ghost var l3 := l2 + Pack(m.created.julian, 4);
    SplitZeros(l3, 4, 24);
    ghost var l4 := l3 + Zeros(4);
    h := StoreNext(h, 16, Pack(m.created.usecs, 8), l4, 16);
    ghost var l5 := l4 + Pack(m.created.usecs, 8);
    SplitZeros(l5, 8, 8);
    ghost var l6 := l5 + Zeros(8);
    h := StoreLengths(m, h, l6);
    h := Store(h, 24, Pack(m.serial, 8), l5, Zeros(8), Lengths(m));
    assert h == l5 + Pack(m.serial, 8) + Lengths(m);
    assert Pack(MAGIC, 4) == l1;
  }

  method StoreLengths(m: DataMessage, s: Bytes, ghost left: Bytes) returns (h: Bytes)
    requires s == left + Zeros(8) && |left| == 32
    ensures h == left + Lengths(m)
  {
    h := StoreNext(s, 32, Pack(|m.topic.main| % TWO_16, 2), left, 6);
    ghost var l1 := left + Pack(|m.topic.main| % TWO_16, 2);
    h := StoreNext(h, 34, Pack(|m.topic.sub| % TWO_16, 2), l1, 4);
    ghost var l2 := l1 + Pack(|m.topic.sub| % TWO_16, 2);
    h := StoreNext(h, 36, Pack(|m.source| % TWO_16, 2), l2, 2);
    ghost var l3 := l2 + Pack(|m.source| % TWO_16, 2);
    h := StoreNext(h, 38, [Code(m.kind)], l3, 1);
    assert h == left + Lengths(m);
  }

  /** Store `x` at `at`, which is `k` bytes into the part of `s` that follows `left`. */
  method StoreBehind(s: Bytes, at: nat, x: Bytes, ghost left: Bytes, ghost rest: Bytes, ghost k: nat) returns (r: Bytes)
    requires s == left + rest && at == |left| + k && k + |x| <= |rest|
    ensures r == left + Splice(rest, k, x)
  {
    SpliceBehind(left, rest, k, x);
    r := Splice(s, at, x);
  }

  /** The four string copies of `appendTo`, at the offsets that the header gives. */
  method StoreStrings(m: DataMessage, s: Bytes, offset: nat, ghost left: Bytes) returns (r: Bytes)
    requires s == left + Zeros(BodyLength(m)) && |left| == offset + HEADER_SIZE
    ensures r == left + Body(m)
  {
    hide Splice;
    var subtopicOffset := HEADER_SIZE + |m.topic.main| % TWO_16;
    var sourceOffset := subtopicOffset + |m.topic.sub| % TWO_16;
    var dataOffset := sourceOffset + |m.source| % TWO_16;
    ghost var b0 := Zeros(BodyLength(m));
    r := StoreBehind(s, offset + HEADER_SIZE, m.topic.main, left, b0, 0);
    ghost var b1 := Splice(b0, 0, m.topic.main);
    r := StoreBehind(r, offset + subtopicOffset, m.topic.sub, left, b1, subtopicOffset - HEADER_SIZE);
    ghost var b2 := Splice(b1, subtopicOffset - HEADER_SIZE, m.topic.sub);
    r := StoreBehind(r, offset + sourceOffset, m.source, left, b2, sourceOffset - HEADER_SIZE);
    ghost var b3 := Splice(b2, sourceOffset - HEADER_SIZE, m.source);
    r := StoreBehind(r, offset + dataOffset, m.data, left, b3, dataOffset - HEADER_SIZE);
  }

  /** `appendTo`: grow the buffer with zeros, then store the header and copy the four strings in place. */
  method AppendTo(m: DataMessage, buffer: Bytes) returns (r: Bytes)
    ensures r == buffer + Encode(m)
  {
    hide Header, Body;
    var offset := |buffer|;
    var messageLength := HEADER_SIZE + BodyLength(m);
    r := buffer + Zeros(messageLength);
    var header := StoreHeader(m, Zeros(HEADER_SIZE));
    r := StoreNext(r, offset, header, buffer, BodyLength(m));
    r := StoreStrings(m, r, offset, buffer + header);
  }
}
