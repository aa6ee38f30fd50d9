/** What the codec promises: frames read back, and only frames do. */
module CodecProperties {
  import opened Binary
  import opened Wrappers
  import opened Messages
  import opened Codec

  // ---------------------------------------------------------------- stability

  /** Once a buffer yields a frame or an error, the bytes that follow cannot change it. */
  lemma PrefixStable(version1: bool, s: Bytes, more: Bytes)
    requires !ParseFrame(version1, s).Incomplete?
    ensures ParseFrame(version1, s + more) == ParseFrame(version1, s)
  {
    hide ParseVersion1, ParseVersion2;
    FieldOfAppend(s, more, 0, 4);
    if Field(s, 0, 4) == MAGIC {
      Version2Stable(s, more);
    } else if version1 {
      Version1Stable(s, more);
    }
  }

  lemma Version2Stable(s: Bytes, more: Bytes)
    requires |s| >= HEADER_SIZE && !ParseVersion2(s).Incomplete?
    ensures ParseVersion2(s + more) == ParseVersion2(s)
  {
    hide Field, ValidType;
    FieldOfAppend(s, more, 4, 4);
    FieldOfAppend(s, more, 8, 4);
    FieldOfAppend(s, more, 16, 8);
    FieldOfAppend(s, more, 24, 8);
    FieldOfAppend(s, more, 32, 2);
    FieldOfAppend(s, more, 34, 2);
    FieldOfAppend(s, more, 36, 2);
    var length := Field(s, 4, 4);
    var subAt := HEADER_SIZE + Field(s, 32, 2);
    var sourceAt := subAt + Field(s, 34, 2);
    var dataAt := sourceAt + Field(s, 36, 2);
    if dataAt <= length <= |s| {
      SliceOfAppend(s, more, HEADER_SIZE, subAt);
      SliceOfAppend(s, more, subAt, sourceAt);
      SliceOfAppend(s, more, sourceAt, dataAt);
      SliceOfAppend(s, more, dataAt, length);
    }
  }

  lemma Version1Stable(s: Bytes, more: Bytes)
    requires |s| >= HEADER1_SIZE && !ParseVersion1(s).Incomplete?
    ensures ParseVersion1(s + more) == ParseVersion1(s)
  {
    hide Field, ValidType;
    FieldOfAppend(s, more, 0, 4);
    FieldOfAppend(s, more, 4, 4);
    FieldOfAppend(s, more, 8, 8);
    FieldOfAppend(s, more, 16, 8);
    FieldOfAppend(s, more, 24, 2);
    var length := Field(s, 0, 4);
    var dataAt := HEADER_SIZE + Field(s, 24, 2);
    if dataAt <= length <= |s| {
      SliceOfAppend(s, more, HEADER_SIZE, dataAt);
      SliceOfAppend(s, more, dataAt, length);
    }
  }

  lemma FieldOfAppend(s: Bytes, t: Bytes, at: nat, n: nat)
    requires at + n <= |s|
    ensures Field(s + t, at, n) == Field(s, at, n)
  {
    SliceOfAppend(s, t, at, at + n);
  }

  lemma SliceOfAppend(s: Bytes, t: Bytes, i: nat, j: nat)
    requires i <= j <= |s|
    ensures (s + t)[i..j] == s[i..j]
  {
  }

  // ---------------------------------------------------------------- layout

  /** The slice that `x` occupies in `left + x + right`. */
  lemma SliceBetween(left: Bytes, x: Bytes, right: Bytes)
    ensures (left + x + right)[|left|..|left| + |x|] == x
  {
  }

  lemma SliceOfSlice(s: Bytes, lo: nat, hi: nat, i: nat, j: nat)
    requires lo <= hi <= |s| && i <= j <= hi - lo
    ensures s[lo..hi][i..j] == s[lo + i..lo + j]
  {
    forall k | 0 <= k < j - i ensures s[lo..hi][i..j][k] == s[lo + i..lo + j][k] {
    }
  }

  lemma SameSlices(s: Bytes, t: Bytes, lo: nat, hi: nat, i: nat, j: nat)
    requires lo <= i <= j <= hi <= |s| && hi <= |t|
    requires s[lo..hi] == t[lo..hi]
    ensures s[i..j] == t[i..j]
  {
    SliceOfSlice(s, lo, hi, i - lo, j - lo);
    SliceOfSlice(t, lo, hi, i - lo, j - lo);
  }

  /** Where each header field lies. */
  lemma HeaderFields(m: DataMessage)
    ensures var h := Header(m);
      && h[0..4] == Pack(MAGIC, 4)
      && h[4..8] == Pack((HEADER_SIZE + BodyLength(m)) % TWO_32, 4)
      && h[8..12] == Pack(m.created.julian, 4)
      && h[12..16] == Zeros(4)
      && h[16..24] == Pack(m.created.usecs, 8)
      && h[24..32] == Pack(m.serial, 8)
      && h[32..34] == Pack(|m.topic.main| % TWO_16, 2)
      && h[34..36] == Pack(|m.topic.sub| % TWO_16, 2)
      && h[36..38] == Pack(|m.source| % TWO_16, 2)
      && h[38] == Code(m.kind) && h[39] == 0
  {
    var h, t := Header(m), Lengths(m);
    assert h[32..40] == t;
    assert t[0..2] == Pack(|m.topic.main| % TWO_16, 2);
    assert t[2..4] == Pack(|m.topic.sub| % TWO_16, 2);
    assert t[4..6] == Pack(|m.source| % TWO_16, 2);
    assert h[32..34] == h[32..40][0..2];
    assert h[34..36] == h[32..40][2..4];
    assert h[36..38] == h[32..40][4..6];
    assert h[38] == h[32..40][6] && h[39] == h[32..40][7];
  }

  /** A frame with its five bytes of padding cleared, as `resize` leaves them in a new frame. */
  function WithoutPadding(s: Bytes): (r: Bytes)
    requires |s| >= HEADER_SIZE
    ensures |r| == |s|
  {
    s[..12] + Zeros(4) + s[16..39] + [0] + s[40..]
  }

  lemma WithoutPaddingParts(s: Bytes)
    requires |s| >= HEADER_SIZE
    ensures var r := WithoutPadding(s);
      r[0..12] == s[0..12] && r[12..16] == Zeros(4) && r[16..39] == s[16..39] && r[39] == 0 && r[40..] == s[40..]
  {
  }

  /** The bytes of `s` agree with the header of `m` wherever they are not padding. */
  predicate StartsWithHeader(s: Bytes, m: DataMessage) {
    |s| >= HEADER_SIZE && s[0..12] == Header(m)[0..12] && s[16..39] == Header(m)[16..39]
  }

  /** The numbers a reader finds in the header of any encoded message. */
  lemma ReadHeader(m: DataMessage, s: Bytes)
    requires StartsWithHeader(s, m)
    ensures HasFields(s, m)
  {
    hide Header, Pack, Unpack, Pow256, Code;
    Pow256Values();
    HeaderFields(m);
    var h := Header(m);
    SameSlices(s, h, 0, 12, 0, 4);
    SameSlices(s, h, 0, 12, 4, 8);
    SameSlices(s, h, 0, 12, 8, 12);
    SameSlices(s, h, 16, 39, 16, 24);
    SameSlices(s, h, 16, 39, 24, 32);
    SameSlices(s, h, 16, 39, 32, 34);
    SameSlices(s, h, 16, 39, 34, 36);
    SameSlices(s, h, 16, 39, 36, 38);
    SameSlices(s, h, 16, 39, 38, 39);
    assert s[38] == s[38..39][0] == h[38..39][0] == h[38];
    UnpackPack(MAGIC, 4);
    UnpackPack((HEADER_SIZE + BodyLength(m)) % TWO_32, 4);
    UnpackPack(m.created.julian, 4);
    UnpackPack(m.created.usecs, 8);
    UnpackPack(m.serial, 8);
    UnpackPack(|m.topic.main| % TWO_16, 2);
    UnpackPack(|m.topic.sub| % TWO_16, 2);
    UnpackPack(|m.source| % TWO_16, 2);
  }

  /** When no length was narrowed the four strings follow each other without gap or overlap. */
  lemma BodyInRange(m: DataMessage)
    requires |m.topic.main| < TWO_16 && |m.topic.sub| < TWO_16 && |m.source| < TWO_16
    ensures Body(m) == m.topic.main + m.topic.sub + m.source + m.data
  {
    hide Copies;
    CopiesInRange(m.topic.main, m.topic.sub, m.source, m.data);
  }

  lemma CopiesInRange(a: Bytes, b: Bytes, c: Bytes, d: Bytes)
    ensures Copies(a, b, c, d, |a|, |a| + |b|, |a| + |b| + |c|) == a + b + c + d
  {
    var s1 := CopyNext([], a, |b| + |c| + |d|);
    var s2 := CopyNext(s1, b, |c| + |d|);
    var s3 := CopyNext(s2, c, |d|);
    var s4 := CopyNext(s3, d, 0);
    assert [] + Zeros(|a| + (|b| + |c| + |d|)) == Zeros(|a| + |b| + |c| + |d|);
    assert s1 == a;
    assert s4 + Zeros(0) == s4;
  }

  lemma CopyNext(left: Bytes, x: Bytes, n: nat) returns (more: Bytes)
    ensures more == left + x
    ensures Splice(left + Zeros(|x| + n), |left|, x) == more + Zeros(n)
  {
    more := left + x;
    assert Zeros(|x| + n) == Zeros(|x|) + Zeros(n);
    assert left + Zeros(|x| + n) == left + Zeros(|x|) + Zeros(n);
    SpliceMiddle(left, Zeros(|x|), Zeros(n), x);
  }

  // ---------------------------------------------------------------- exactness

  /** The first `n` bytes of `s` are the encoding of `m`, padding aside, and `m` is one that can be read back. */
  predicate IsFrameOf(s: Bytes, m: DataMessage, n: nat) {
    && Encodable(m)
    && n == HEADER_SIZE + BodyLength(m) <= |s|
    && WithoutPadding(s[..n]) == Encode(m)
  }

  lemma FrameIsRead(version1: bool, s: Bytes, m: DataMessage, n: nat)
    requires IsFrameOf(s, m, n)
    ensures ParseFrame(version1, s) == Frame(m, n)
  {
    FrameParts(s, m, n);
    PartsAreRead(version1, s, m, n);
  }

  /** The numbers in the header of `s` are those of `m`. */
  predicate HasFields(s: Bytes, m: DataMessage) {
    && |s| >= HEADER_SIZE
    && Field(s, 0, 4) == MAGIC
    && Field(s, 4, 4) == (HEADER_SIZE + BodyLength(m)) % TWO_32
    && Field(s, 8, 4) == m.created.julian && Field(s, 16, 8) == m.created.usecs && Field(s, 24, 8) == m.serial
    && Field(s, 32, 2) == |m.topic.main| % TWO_16
    && Field(s, 34, 2) == |m.topic.sub| % TWO_16
    && Field(s, 36, 2) == |m.source| % TWO_16
    && s[38] == Code(m.kind)
  }

  /** The four strings of `m` fill the bytes of `s` from the header up to `n`. */
  predicate HasStrings(s: Bytes, m: DataMessage, n: nat)
    requires HEADER_SIZE + BodyLength(m) == n <= |s|
  {
    var i, j, k := 40 + |m.topic.main|, 40 + |m.topic.main| + |m.topic.sub|, n - |m.data|;
    s[40..i] == m.topic.main && s[i..j] == m.topic.sub && s[j..k] == m.source && s[k..n] == m.data
  }

  lemma PartsAreRead(version1: bool, s: Bytes, m: DataMessage, n: nat)
    requires Encodable(m) && n == HEADER_SIZE + BodyLength(m) <= |s|
    requires StartsWithHeader(s, m)
    requires s[40..n] == m.topic.main + m.topic.sub + m.source + m.data
    ensures ParseFrame(version1, s) == Frame(m, n)
  {
    hide ParseFrame, HasFields;
    ReadHeader(m, s);
    BodySlices(s, n, m.topic.main, m.topic.sub, m.source, m.data);
    AcceptFields(version1, s, m, n);
  }

  lemma AcceptFields(version1: bool, s: Bytes, m: DataMessage, n: nat)
    requires Encodable(m) && n == HEADER_SIZE + BodyLength(m) <= |s|
    requires HasFields(s, m) && HasStrings(s, m, n)
    ensures ParseFrame(version1, s) == Frame(m, n)
  {
    hide Field, Code, ValidType, Pow256, IsValidType;
    assert Field(s, 4, 4) == n;
    Pow256Values();
    ValidTypeOfCode(m.kind);
    assert ParseVersion2(s) == Frame(m, n);
  }

  lemma ValidTypeOfCode(t: MessageType)
    ensures IsValidType(t) <==> ValidType(Code(t)) == Some(t)
    ensures IsValidType(t) <==> t != Null && t != SubscribeRegexReversed && t != UnsubscribeRegexReversed
  {
  }

  lemma FrameParts(s: Bytes, m: DataMessage, n: nat)
    requires IsFrameOf(s, m, n)
    ensures StartsWithHeader(s, m)
    ensures s[40..n] == m.topic.main + m.topic.sub + m.source + m.data
  {
    var f, e := s[..n], Encode(m);
    WithoutPaddingParts(f);
    assert e[0..12] == Header(m)[0..12] && e[16..39] == Header(m)[16..39] && e[40..] == Body(m);
    assert s[0..12] == f[0..12] && s[16..39] == f[16..39] && s[40..n] == f[40..];
    BodyInRange(m);
  }

  lemma BodySlices(s: Bytes, n: nat, a: Bytes, b: Bytes, c: Bytes, d: Bytes)
    requires 40 <= n <= |s| && s[40..n] == a + b + c + d
    ensures var i, j, k := 40 + |a|, 40 + |a| + |b|, 40 + |a| + |b| + |c|;
      s[40..i] == a && s[i..j] == b && s[j..k] == c && s[k..n] == d
  {
    var i, j, k := |a|, |a| + |b|, |a| + |b| + |c|;
    CutFour(a, b, c, d);
    SliceOfSlice(s, 40, n, 0, i);
    SliceOfSlice(s, 40, n, i, j);
    SliceOfSlice(s, 40, n, j, k);
    SliceOfSlice(s, 40, n, k, n - 40);
  }

  lemma CutFour(a: Bytes, b: Bytes, c: Bytes, d: Bytes)
    ensures var body := a + b + c + d;
      var i, j, k := |a|, |a| + |b|, |a| + |b| + |c|;
      body[0..i] == a && body[i..j] == b && body[j..k] == c && body[k..|body|] == d
  {
    var i, j := |a|, |a| + |b|;
    SliceBetween(a + b, c, d);
    SliceBetween(a, b, c);
    SliceOfAppend(a + b + c, d, i, j);
    SliceOfAppend(a, b, 0, i);
    SliceOfAppend(a + b, c, 0, i);
    SliceOfAppend(a + b + c, d, 0, i);
  }

  lemma ReadIsFrame(version1: bool, s: Bytes, m: DataMessage, n: nat)
    requires ParseFrame(version1, s) == Frame(m, n)
    requires Field(s, 0, 4) == MAGIC
    ensures IsFrameOf(s, m, n)
  {
    FieldsOfRead(version1, s, m, n);
    hide ParseFrame, HasFields, WithoutPadding, Encode;
    ReadHeaderBytes(s, m);
    Version2Layout(version1, s, m, n);
    BodyInRange(m);
    ClearFrame(s, m, n);
  }

  lemma FieldsOfRead(version1: bool, s: Bytes, m: DataMessage, n: nat)
    requires ParseFrame(version1, s) == Frame(m, n)
    requires Field(s, 0, 4) == MAGIC
    ensures HasFields(s, m) && Encodable(m) && n == HEADER_SIZE + BodyLength(m) <= |s|
  {
    hide Field, Unpack, Pow256;
    Pow256Values();
    ValidTypeOfCode(m.kind);
  }

  lemma ClearFrame(s: Bytes, m: DataMessage, n: nat)
    requires HEADER_SIZE <= n <= |s| && StartsWithHeader(s, m) && s[40..n] == Body(m)
    ensures WithoutPadding(s[..n]) == Encode(m)
  {
    hide Header, Body;
    HeaderFields(m);
    var f := s[..n];
    assert f[0..12] == s[0..12] && f[16..39] == s[16..39] && f[40..] == s[40..n];
    Reassemble(f, Header(m), Body(m));
  }

  lemma Reassemble(f: Bytes, h: Bytes, body: Bytes)
    requires |f| >= HEADER_SIZE == |h| && f[40..] == body
    requires f[0..12] == h[0..12] && f[16..39] == h[16..39]
    requires h[12..16] == Zeros(4) && h[39] == 0
    ensures WithoutPadding(f) == h + body
  {
    assert h == h[0..12] + h[12..16] + h[16..39] + [h[39]];
    assert f[..12] == f[0..12];
  }

  /** The slices of an accepted frame: the four strings fill bytes 40 up to the end of the frame. */
  lemma Version2Layout(version1: bool, s: Bytes, m: DataMessage, n: nat)
    requires ParseFrame(version1, s) == Frame(m, n)
    requires Field(s, 0, 4) == MAGIC
    ensures n == Field(s, 4, 4) && s[40..n] == m.topic.main + m.topic.sub + m.source + m.data
    ensures |m.topic.main| == Field(s, 32, 2) && |m.topic.sub| == Field(s, 34, 2) && |m.source| == Field(s, 36, 2)
  {
    hide Field, ValidType;
    var i := 40 + |m.topic.main|;
    var j := i + |m.topic.sub|;
    JoinFour(s, 40, i, j, j + |m.source|, n);
  }

  lemma JoinFour(s: Bytes, a: nat, b: nat, c: nat, d: nat, e: nat)
    requires a <= b <= c <= d <= e <= |s|
    ensures s[a..e] == s[a..b] + s[b..c] + s[c..d] + s[d..e]
  {
    JoinTwo(s, a, b, c);
    JoinTwo(s, a, c, d);
    JoinTwo(s, a, d, e);
  }

  lemma JoinTwo(s: Bytes, a: nat, b: nat, c: nat)
    requires a <= b <= c <= |s|
    ensures s[a..c] == s[a..b] + s[b..c]
  {
  }

  /** A header with the fields of `m` has the bytes of the header of `m`. */
  lemma ReadHeaderBytes(s: Bytes, m: DataMessage)
    requires HasFields(s, m)
    ensures StartsWithHeader(s, m)
  {
    PackUnpack(s[0..4]);
    PackUnpack(s[4..8]);
    PackUnpack(s[8..12]);
    PackUnpack(s[16..24]);
    PackUnpack(s[24..32]);
    PackUnpack(s[32..34]);
    PackUnpack(s[34..36]);
    PackUnpack(s[36..38]);
    HeaderFields(m);
    var h := Header(m);
    SplitHeader(s);
    SplitHeader(h);
  }

  lemma SplitHeader(s: Bytes)
    requires |s| >= HEADER_SIZE
    ensures s[0..12] == s[0..4] + s[4..8] + s[8..12]
    ensures s[16..39] == s[16..24] + s[24..32] + s[32..34] + s[34..36] + s[36..38] + [s[38]]
  {
  }

  /** The parser accepts a buffer with the new magic number exactly when it starts with the encoding of an encodable
      message, and returns that message and the length of its encoding. */
  lemma ParseExact(version1: bool, s: Bytes, m: DataMessage, n: nat)
    ensures IsFrameOf(s, m, n) ==> ParseFrame(version1, s) == Frame(m, n)
    ensures ParseFrame(version1, s) == Frame(m, n) && Field(s, 0, 4) == MAGIC ==> IsFrameOf(s, m, n)
    ensures ParseFrame(false, s) == Frame(m, n) <==> IsFrameOf(s, m, n)
  {
    if IsFrameOf(s, m, n) {
      FrameIsRead(version1, s, m, n);
      FrameIsRead(false, s, m, n);
    }
    if ParseFrame(version1, s) == Frame(m, n) && Field(s, 0, 4) == MAGIC {
      ReadIsFrame(version1, s, m, n);
    }
    if ParseFrame(false, s) == Frame(m, n) {
      ReadIsFrame(false, s, m, n);
    }
  }

  lemma EncodeIsClear(m: DataMessage)
    ensures WithoutPadding(Encode(m)) == Encode(m)
  {
    hide Header, Body;
    HeaderFields(m);
    var h := Header(m);
    assert Encode(m)[0..12] == h[0..12] && Encode(m)[16..39] == h[16..39] && Encode(m)[40..] == Body(m);
    Reassemble(Encode(m), h, Body(m));
  }

  /** A message survives the wire, whatever follows it, exactly when it is encodable. */
  lemma RoundTripExact(version1: bool, m: DataMessage, rest: Bytes)
    ensures ParseFrame(version1, Encode(m) + rest) == Frame(m, |Encode(m)|) <==> Encodable(m)
  {
    hide ParseFrame, Encodable;
    var s, n := Encode(m) + rest, |Encode(m)|;
    assert s[..n] == Encode(m);
    if Encodable(m) {
      EncodeIsClear(m);
      FrameIsRead(version1, s, m, n);
    } else {
      HeaderIsRead(m, rest);
      ParseExact(version1, s, m, n);
    }
  }

  /** Whatever was narrowed, the magic number of an encoding is in place. */
  lemma HeaderIsRead(m: DataMessage, rest: Bytes)
    ensures HasFields(Encode(m) + rest, m)
  {
    hide Header, Body;
    var s := Encode(m) + rest;
    assert s[0..12] == Header(m)[0..12] && s[16..39] == Header(m)[16..39];
    ReadHeader(m, s);
  }

  lemma EncodingIsRead(version1: bool, m: DataMessage, s: Bytes)
    ensures Encodable(m) && Encode(m) <= s ==> ParseFrame(version1, s) == Frame(m, |Encode(m)|)
  {
    hide ParseFrame, Encode, Encodable;
    if Encode(m) <= s {
      assert s == Encode(m) + s[|Encode(m)|..];
      RoundTripExact(version1, m, s[|Encode(m)|..]);
    }
  }

  /** No encoding of an encodable message is a proper prefix of another one. */
  lemma PrefixFree(a: DataMessage, b: DataMessage)
    requires Encodable(a) && Encodable(b) && Encode(a) <= Encode(b)
    ensures a == b
  {
    RoundTripExact(false, a, Encode(b)[|Encode(a)|..]);
    RoundTripExact(false, b, []);
    assert Encode(b) == Encode(a) + Encode(b)[|Encode(a)|..] == Encode(b) + [];
  }

  // ---------------------------------------------------------------- version 1

  /** The part of the old header that is read. */
  function Header1(m: DataMessage, n: nat): (h: Bytes)
    ensures |h| == 27
  {
    Pack(n, 4) + Pack(m.created.julian, 4) + Pack(m.created.usecs, 8) + Pack(m.serial, 8)
    + Pack(|m.topic.main|, 2) + [Code(m.kind)]
  }

  /** `s` starts with an old header for `m`, and from byte 40 up to `n` it holds the topic and the data. */
  predicate IsVersion1FrameOf(s: Bytes, m: DataMessage, n: nat) {
    && IsValidType(m.kind) && |m.topic.main| < TWO_16 && m.topic.sub == [] && m.source == []
    && n == HEADER_SIZE + |m.topic.main| + |m.data| <= |s| && n < TWO_32
    && Header1(m, n) <= s
    && s[HEADER_SIZE..n] == m.topic.main + m.data
  }

  lemma SplitHeader1(s: Bytes)
    requires |s| >= 27
    ensures s[..27] == s[0..4] + s[4..8] + s[8..16] + s[16..24] + s[24..26] + [s[26]]
  {
  }

  lemma Header1Fields(m: DataMessage, n: nat)
    ensures var h := Header1(m, n);
      && h[0..4] == Pack(n, 4) && h[4..8] == Pack(m.created.julian, 4) && h[8..16] == Pack(m.created.usecs, 8)
      && h[16..24] == Pack(m.serial, 8) && h[24..26] == Pack(|m.topic.main|, 2) && h[26] == Code(m.kind)
  {
  }

  /** The old format's fields, as numbers. */
  predicate HasFields1(s: Bytes, m: DataMessage, n: nat) {
    && |s| >= HEADER1_SIZE
    && Field(s, 0, 4) == n
    && Field(s, 4, 4) == m.created.julian && Field(s, 8, 8) == m.created.usecs && Field(s, 16, 8) == m.serial
    && Field(s, 24, 2) == |m.topic.main|
    && s[26] == Code(m.kind)
  }

  lemma Header1IsFields(s: Bytes, m: DataMessage, n: nat)
    requires |s| >= HEADER1_SIZE && n < TWO_32 && |m.topic.main| < TWO_16
    ensures Header1(m, n) <= s <==> HasFields1(s, m, n)
  {
    hide Pack, Unpack, Pow256, Code;
    Pow256Values();
    Header1Fields(m, n);
    SplitHeader1(s);
    SplitHeader1(Header1(m, n));
    hide Header1;
    var h := Header1(m, n);
    if h <= s {
      assert s[..27] == h[..27];
      SameSlices(s, h, 0, 27, 0, 4);
      SameSlices(s, h, 0, 27, 4, 8);
      SameSlices(s, h, 0, 27, 8, 16);
      SameSlices(s, h, 0, 27, 16, 24);
      SameSlices(s, h, 0, 27, 24, 26);
      UnpackPack(n, 4);
      UnpackPack(m.created.julian, 4);
      UnpackPack(m.created.usecs, 8);
      UnpackPack(m.serial, 8);
      UnpackPack(|m.topic.main|, 2);
    }
    if HasFields1(s, m, n) {
      PackUnpack(s[0..4]);
      PackUnpack(s[4..8]);
      PackUnpack(s[8..16]);
      PackUnpack(s[16..24]);
      PackUnpack(s[24..26]);
      assert s[..27] == h[..27] == h;
    }
  }

  /** The old format is accepted exactly in this shape: a topic behind byte 40, although the header ends at byte 32. */
  lemma Version1Exact(s: Bytes, m: DataMessage, n: nat)
    requires |s| >= HEADER1_SIZE && Field(s, 0, 4) != MAGIC
    ensures ParseFrame(true, s) == Frame(m, n) <==> IsVersion1FrameOf(s, m, n)
  {
    hide Header1, Field, Code, ValidType;
    Pow256Values();
    ValidTypeOfCode(m.kind);
    if n < TWO_32 && |m.topic.main| < TWO_16 {
      Header1IsFields(s, m, n);
    }
    if IsVersion1FrameOf(s, m, n) {
      BodySlices(s, n, m.topic.main, [], [], m.data);
    }
    if ParseFrame(true, s) == Frame(m, n) {
      var i := HEADER_SIZE + |m.topic.main|;
      assert s[HEADER_SIZE..n] == s[HEADER_SIZE..i] + s[i..n];
    }
  }

  // ---------------------------------------------------------------- errors

  /** The bytes that the parser needs before it decides anything: a new header, or 32 bytes without its magic number. */
  predicate HasHeader(s: Bytes) {
    |s| >= HEADER_SIZE || (|s| >= HEADER1_SIZE && Field(s, 0, 4) != MAGIC)
  }

  /** A buffer with a whole header is refused exactly when nothing that may still arrive could make it a frame. */
  lemma FailureIsFinal(version1: bool, s: Bytes)
    requires HasHeader(s)
    ensures ParseFrame(version1, s).Failure? <==> forall more :: !ParseFrame(version1, s + more).Frame?
  {
    hide ParseFrame;
    if ParseFrame(version1, s).Failure? {
      forall more ensures !ParseFrame(version1, s + more).Frame? {
        PrefixStable(version1, s, more);
      }
    } else {
      var more := CanBeCompleted(version1, s);
      assert ParseFrame(version1, s + more).Frame?;
    }
  }

  lemma CanBeCompleted(version1: bool, s: Bytes) returns (more: Bytes)
    requires HasHeader(s) && !ParseFrame(version1, s).Failure?
    ensures ParseFrame(version1, s + more).Frame?
  {
    hide Field, ValidType;
    var isNew := Field(s, 0, 4) == MAGIC;
    var at := if isNew then 4 else 0;
    var length := Field(s, at, 4);
    more := if |s| < length then Zeros(length - |s|) else [];
    FieldOfAppend(s, more, 0, 4);
    FieldOfAppend(s, more, 4, 4);
    FieldOfAppend(s, more, 24, 2);
    if isNew {
      FieldOfAppend(s, more, 32, 2);
      FieldOfAppend(s, more, 34, 2);
      FieldOfAppend(s, more, 36, 2);
    }
  }

  /** What arrives of a message whose whole length fits: with a valid type a frame of the same extent, type, serial and
      date, whose strings have the narrowed lengths and share out the bytes that were copied; without one an error.
      So an overlong string gives another message, and does not cost the connection. */
  lemma NarrowedArrivesAs(version1: bool, m: DataMessage, rest: Bytes)
    requires HEADER_SIZE + BodyLength(m) < TWO_32
    ensures var r := ParseFrame(version1, Encode(m) + rest);
      if IsValidType(m.kind) then
        && r.Frame? && r.length == |Encode(m)|
        && var a := r.message;
           && a.kind == m.kind && a.serial == m.serial && a.created == m.created
           && |a.topic.main| == |m.topic.main| % TWO_16
           && |a.topic.sub| == |m.topic.sub| % TWO_16
           && |a.source| == |m.source| % TWO_16
           && a.topic.main + a.topic.sub + a.source + a.data == Body(m)
      else r == Failure(CorruptMessage)
  {
    var s := Encode(m) + rest;
    HeaderIsRead(m, rest);
    EncodeEnds(m, rest);
    ValidTypeOfCode(m.kind);
    ReadNarrowed(version1, s, m);
    if IsValidType(m.kind) {
      var r := ParseFrame(version1, s);
      Version2Layout(version1, s, r.message, r.length);
    }
  }

  lemma EncodeEnds(m: DataMessage, rest: Bytes)
    ensures (Encode(m) + rest)[HEADER_SIZE..|Encode(m)|] == Body(m)
  {
    hide Header, Body;
  }

  lemma ReadNarrowed(version1: bool, s: Bytes, m: DataMessage)
    requires HasFields(s, m) && HEADER_SIZE + BodyLength(m) <= |s| && HEADER_SIZE + BodyLength(m) < TWO_32
    ensures var r := ParseFrame(version1, s);
      if IsValidType(m.kind) then
        && r.Frame? && r.length == HEADER_SIZE + BodyLength(m)
        && r.message.kind == m.kind && r.message.serial == m.serial && r.message.created == m.created
      else r == Failure(CorruptMessage)
  {
    hide Field, Code, ValidType, Pow256, IsValidType;
    ValidTypeOfCode(m.kind);
    if !IsValidType(m.kind) {
      InvalidCode(m.kind);
    }
  }

  lemma InvalidCode(t: MessageType)
    ensures !IsValidType(t) ==> ValidType(Code(t)).None?
  {
  }
}
