/** The frame byte by byte, in plain numbers and characters: what any other program finds on the wire, and what it may
    put there. */
module WireFormat {
  import opened Binary
  import opened Topics
  import opened Messages
  import opened Codec
  import opened CodecProperties

  /** Two, four and eight bytes of a number, the least significant one first. */
  predicate Two(s: Bytes, at: nat, v: nat)
    requires at + 2 <= |s|
  {
    s[at] == v % 256 && s[at + 1] == v / 256 % 256
  }

  predicate Four(s: Bytes, at: nat, v: nat)
    requires at + 4 <= |s|
  {
    Two(s, at, v) && s[at + 2] == v / 65536 % 256 && s[at + 3] == v / 16777216 % 256
  }

  predicate Eight(s: Bytes, at: nat, v: nat)
    requires at + 8 <= |s|
  {
    && Four(s, at, v)
    && s[at + 4] == v / 4294967296 % 256 && s[at + 5] == v / 1099511627776 % 256
    && s[at + 6] == v / 281474976710656 % 256 && s[at + 7] == v / 72057594037927936 % 256
  }

  /** The character of each type. */
  function Character(t: MessageType): char {
    match t
    case Null => ' '
    case SubscribeFull => 'F'
    case SubscribePrefix => 'P'
    case SubscribeRegex => 'X'
    case SubscribeRegexReversed => 'Y'
    case UnsubscribeFull => 'f'
    case UnsubscribePrefix => 'p'
    case UnsubscribeRegex => 'x'
    case UnsubscribeRegexReversed => 'y'
    case Data => 'D'
    case PlainData => 'R'
    case System => 'S'
  }

  // ---------------------------------------------------------------- writing

  lemma PackTwo(v: nat)
    ensures var p := Pack(v, 2);
      p[0] == v % 256 && p[1] == v / 256 % 256
  {
    assert Pack(v, 2)[1..] == Pack(v / 256, 1);
  }

  /** A packed number is its low two bytes and then the packed rest. */
  lemma PackFront(v: nat, n: nat)
    ensures Pack(v, n + 2) == Pack(v, 2) + Pack(v / 65536, n)
  {
    assert v / 256 / 256 == v / 65536;
    assert Pack(v, n + 2) == [v % 256] + ([v / 256 % 256] + Pack(v / 256 / 256, n));
    assert Pack(v, 2) == [v % 256] + ([v / 256 % 256] + Pack(v / 256 / 256, 0));
  }

  lemma PackFour(v: nat)
    ensures var p := Pack(v, 4);
      p[0] == v % 256 && p[1] == v / 256 % 256 && p[2] == v / 65536 % 256 && p[3] == v / 16777216 % 256
  {
    PackTwo(v);
    PackTwo(v / 65536);
    PackFront(v, 2);
    hide Pack;
    assert v / 65536 / 256 == v / 16777216;
  }

  lemma PackEight(v: nat)
    ensures Pack(v, 8) == Pack(v, 4) + Pack(v / 4294967296, 4)
  {
    PackFront(v, 6);
    PackFront(v / 65536, 4);
    PackFront(v, 2);
    DivTwice(v);
    hide Pack;
    JoinThree(Pack(v, 2), Pack(v / 65536, 2), Pack(v / 4294967296, 4));
  }

  lemma DivTwice(v: nat)
    ensures v / 65536 / 65536 == v / 4294967296
  {
  }

  lemma JoinThree(a: Bytes, b: Bytes, c: Bytes)
    ensures a + (b + c) == (a + b) + c
  {
  }

  lemma TwoAt(s: Bytes, at: nat, v: nat)
    requires at + 2 <= |s| && s[at..at + 2] == Pack(v, 2)
    ensures Two(s, at, v)
  {
    PackTwo(v);
    hide Pack;
    assert s[at] == s[at..at + 2][0] && s[at + 1] == s[at..at + 2][1];
  }

  lemma FourAt(s: Bytes, at: nat, v: nat)
    requires at + 4 <= |s| && s[at..at + 4] == Pack(v, 4)
    ensures Four(s, at, v)
  {
    PackFour(v);
    hide Pack;
    var p := s[at..at + 4];
    assert s[at] == p[0] && s[at + 1] == p[1] && s[at + 2] == p[2] && s[at + 3] == p[3];
  }

  lemma EightAt(s: Bytes, at: nat, v: nat)
    requires at + 8 <= |s| && s[at..at + 8] == Pack(v, 8)
    ensures Eight(s, at, v)
  {
    PackEight(v);
    hide Pack;
    var w := v / 4294967296;
    var p := s[at..at + 8];
    SliceOfSlice(s, at, at + 8, 0, 4);
    SliceOfSlice(s, at, at + 8, 4, 8);
    assert p[0..4] == Pack(v, 4) && p[4..8] == Pack(w, 4);
    FourAt(s, at, v);
    FourAt(s, at + 4, w);
    FurtherBytes(v);
  }

  lemma FurtherBytes(v: nat)
    ensures var w := v / 4294967296;
      && w / 256 == v / 1099511627776
      && w / 65536 == v / 281474976710656
      && w / 16777216 == v / 72057594037927936
  {
  }

  /** Every frame that is written, byte by byte up to the strings. */
  lemma FrameBytes(m: DataMessage)
    ensures var e := Encode(m);
      && e[0] == 0x32 && e[1] == 0x75 && e[2] == 0x70 && e[3] == 0x74
      && Four(e, 4, (40 + |m.topic.main| + |m.topic.sub| + |m.source| + |m.data|) % 4294967296)
      && Four(e, 8, m.created.julian)
      && e[12] == e[13] == e[14] == e[15] == 0
      && Eight(e, 16, m.created.usecs)
      && Eight(e, 24, m.serial)
      && Two(e, 32, |m.topic.main| % 65536) && Two(e, 34, |m.topic.sub| % 65536) && Two(e, 36, |m.source| % 65536)
      && e[38] == Character(m.kind) as int && e[39] == 0
  {
    EncodeFields(m);
    hide Encode, Pack;
    var e := Encode(m);
    FourAt(e, 0, MAGIC);
    FourAt(e, 4, (HEADER_SIZE + BodyLength(m)) % TWO_32);
    FourAt(e, 8, m.created.julian);
    EightAt(e, 16, m.created.usecs);
    EightAt(e, 24, m.serial);
    TwoAt(e, 32, |m.topic.main| % TWO_16);
    TwoAt(e, 34, |m.topic.sub| % TWO_16);
    TwoAt(e, 36, |m.source| % TWO_16);
    hide Four, Eight, Two;
    FourIsMagic(e);
    CodeIsCharacter(m.kind);
    ZerosAt(e);
  }

  lemma FourIsMagic(e: Bytes)
    requires |e| >= 4 && Four(e, 0, MAGIC)
    ensures e[0] == 0x32 && e[1] == 0x75 && e[2] == 0x70 && e[3] == 0x74
  {
  }

  lemma CodeIsCharacter(t: MessageType)
    ensures Code(t) == Character(t) as int
  {
  }

  lemma ZerosAt(e: Bytes)
    requires |e| >= 16 && e[12..16] == Zeros(4)
    ensures e[12] == e[13] == e[14] == e[15] == 0
  {
    var z := e[12..16];
    assert e[12] == z[0] && e[13] == z[1] && e[14] == z[2] && e[15] == z[3];
  }

  /** The header's fields, found in the whole encoding. */
  lemma EncodeFields(m: DataMessage)
    ensures var e := Encode(m);
      && e[0..4] == Pack(MAGIC, 4)
      && e[4..8] == Pack((HEADER_SIZE + BodyLength(m)) % TWO_32, 4)
      && e[8..12] == Pack(m.created.julian, 4)
      && e[12..16] == Zeros(4)
      && e[16..24] == Pack(m.created.usecs, 8)
      && e[24..32] == Pack(m.serial, 8)
      && e[32..34] == Pack(|m.topic.main| % TWO_16, 2)
      && e[34..36] == Pack(|m.topic.sub| % TWO_16, 2)
      && e[36..38] == Pack(|m.source| % TWO_16, 2)
      && e[38] == Code(m.kind) && e[39] == 0
  {
    HeaderFields(m);
    hide Header, Body, Pack, Code, Zeros;
    var h, b := Header(m), Body(m);
    SliceOfAppend(h, b, 0, 4);
    SliceOfAppend(h, b, 4, 8);
    SliceOfAppend(h, b, 8, 12);
    SliceOfAppend(h, b, 12, 16);
    SliceOfAppend(h, b, 16, 24);
    SliceOfAppend(h, b, 24, 32);
    SliceOfAppend(h, b, 32, 34);
    SliceOfAppend(h, b, 34, 36);
    SliceOfAppend(h, b, 36, 38);
  }

  /** Byte `k` behind the header: of the copies that reach it the last one wins. */
  function LastCopy(a: Bytes, b: Bytes, c: Bytes, d: Bytes, atB: nat, atC: nat, atD: nat, k: nat): byte {
    if atD <= k < atD + |d| then d[k - atD]
    else if atC <= k < atC + |c| then c[k - atC]
    else if atB <= k < atB + |b| then b[k - atB]
    else if k < |a| then a[k]
    else 0
  }

  /** The strings behind the header, byte by byte, for any lengths: of the copies that reach a byte the last one wins,
      and a byte that none reaches is zero. */
  lemma BodyBytes(m: DataMessage, k: nat)
    requires k < |m.topic.main| + |m.topic.sub| + |m.source| + |m.data|
    ensures var e := Encode(m);
      var atSub := |m.topic.main| % 65536;
      var atSource := atSub + |m.topic.sub| % 65536;
      var atData := atSource + |m.source| % 65536;
      e[40 + k] == LastCopy(m.topic.main, m.topic.sub, m.source, m.data, atSub, atSource, atData, k)
  {
    BehindHeader(m, k);
    BodyAt(m, k);
    hide Encode, Body;
  }

  lemma BodyAt(m: DataMessage, k: nat)
    requires k < BodyLength(m)
    ensures var atSub := |m.topic.main| % TWO_16;
      var atSource := atSub + |m.topic.sub| % TWO_16;
      var atData := atSource + |m.source| % TWO_16;
      Body(m)[k] == LastCopy(m.topic.main, m.topic.sub, m.source, m.data, atSub, atSource, atData, k)
  {
    var atSub := |m.topic.main| % TWO_16;
    var atSource := atSub + |m.topic.sub| % TWO_16;
    var atData := atSource + |m.source| % TWO_16;
    hide Copies, LastCopy;
    CopiesAt(m.topic.main, m.topic.sub, m.source, m.data, atSub, atSource, atData, k);
  }

  lemma BehindHeader(m: DataMessage, k: nat)
    requires k < BodyLength(m)
    ensures Encode(m)[40 + k] == Body(m)[k]
  {
    hide Header, Body;
  }

  lemma CopiesAt(a: Bytes, b: Bytes, c: Bytes, d: Bytes, atB: nat, atC: nat, atD: nat, k: nat)
    requires atB <= |a| && atC <= |a| + |b| && atD <= |a| + |b| + |c|
    requires k < |a| + |b| + |c| + |d|
    ensures Copies(a, b, c, d, atB, atC, atD)[k] == LastCopy(a, b, c, d, atB, atC, atD, k)
  {
    var s0 := Zeros(|a| + |b| + |c| + |d|);
    var s1 := Splice(s0, 0, a);
    var s2 := Splice(s1, atB, b);
    var s3 := Splice(s2, atC, c);
    SpliceAt(s0, 0, a, k);
    SpliceAt(s1, atB, b, k);
    SpliceAt(s2, atC, c, k);
    SpliceAt(s3, atD, d, k);
  }

  lemma SpliceAt(s: Bytes, at: nat, x: Bytes, k: nat)
    requires at + |x| <= |s| && k < |s|
    ensures Splice(s, at, x)[k] == if at <= k < at + |x| then x[k - at] else s[k]
  {
  }

  // ---------------------------------------------------------------- reading

  function Word2(s: Bytes, at: nat): nat
    requires at + 2 <= |s|
  {
    s[at] as int + 256 * (s[at + 1] as int)
  }

  function Word4(s: Bytes, at: nat): nat
    requires at + 4 <= |s|
  {
    Word2(s, at) + 65536 * Word2(s, at + 2)
  }

  function Word8(s: Bytes, at: nat): nat
    requires at + 8 <= |s|
  {
    Word4(s, at) + 4294967296 * Word4(s, at + 4)
  }

  lemma FieldWord2(s: Bytes, at: nat)
    requires at + 2 <= |s|
    ensures Field(s, at, 2) == Word2(s, at)
  {
    var f := s[at..at + 2];
    assert f[1..][1..] == [];
    assert Unpack(f[1..]) == f[1] + 256 * Unpack(f[1..][1..]);
  }

  lemma UnpackJoin(a: Bytes, b: Bytes)
    requires |a| == 2
    ensures Unpack(a + b) == Unpack(a) + 65536 * Unpack(b)
  {
    var s := a + b;
    assert s[1..][1..] == b && a[1..][1..] == [];
    assert s[1..][0] == a[1] && a[1..][0] == a[1];
    assert Unpack(s) == s[0] + 256 * Unpack(s[1..]);
    assert Unpack(s[1..]) == a[1] + 256 * Unpack(b);
    assert Unpack(a[1..]) == a[1] + 256 * Unpack([]);
  }

  lemma FieldWord4(s: Bytes, at: nat)
    requires at + 4 <= |s|
    ensures Field(s, at, 4) == Word4(s, at)
  {
    FieldWord2(s, at);
    FieldWord2(s, at + 2);
    JoinTwo(s, at, at + 2, at + 4);
    UnpackJoin(s[at..at + 2], s[at + 2..at + 4]);
  }

  lemma FieldWord8(s: Bytes, at: nat)
    requires at + 8 <= |s|
    ensures Field(s, at, 8) == Word8(s, at)
  {
    FieldWord4(s, at);
    FieldWord4(s, at + 4);
    JoinTwo(s, at, at + 2, at + 8);
    JoinTwo(s, at + 2, at + 4, at + 8);
    JoinTwo(s, at, at + 2, at + 4);
    UnpackJoin(s[at..at + 2], s[at + 2..at + 8]);
    UnpackJoin(s[at + 2..at + 4], s[at + 4..at + 8]);
    UnpackJoin(s[at..at + 2], s[at + 2..at + 4]);
  }

  /** "tpu2", the least significant byte first. */
  predicate IsNew(s: Bytes)
    requires |s| >= 4
  {
    s[0] == 0x32 && s[1] == 0x75 && s[2] == 0x70 && s[3] == 0x74
  }

  lemma NewFront(s: Bytes)
    requires |s| >= 4
    ensures IsNew(s) <==> s[..4] == [0x32, 0x75, 0x70, 0x74]
  {
    if IsNew(s) {
      assert s[..4] == [s[0], s[1], s[2], s[3]];
    }
    var f := s[..4];
    assert f[0] == s[0] && f[1] == s[1] && f[2] == s[2] && f[3] == s[3];
  }

  predicate IsValidCharacter(b: byte) {
    b in {'F' as int, 'P' as int, 'X' as int, 'f' as int, 'p' as int, 'x' as int, 'D' as int, 'R' as int, 'S' as int}
  }

  /** Which buffers are incomplete, which are refused and how, and which hold a frame and of what length. */
  lemma VerdictByBytes(version1: bool, s: Bytes)
    ensures var r := ParseFrame(version1, s);
      if |s| < 32 || (IsNew(s) && |s| < 40) then r == Incomplete
      else if !IsNew(s) && !version1 then r == Failure(InvalidMessage)
      else
        var length := if IsNew(s) then Word4(s, 4) else Word4(s, 0);
        var strings := if IsNew(s) then Word2(s, 32) + Word2(s, 34) + Word2(s, 36) else Word2(s, 24);
        var character := if IsNew(s) then s[38] else s[26];
        if length < 40 + strings || !IsValidCharacter(character) then r == Failure(CorruptMessage)
        else if |s| < length then r == Incomplete
        else r.Frame? && r.length == length
  {
    if |s| >= 32 {
      FieldWord4(s, 0);
      FieldWord4(s, 4);
      FieldWord2(s, 24);
      assert Field(s, 0, 4) == MAGIC <==> IsNew(s);
      if |s| >= 40 {
        FieldWord2(s, 32);
        FieldWord2(s, 34);
        FieldWord2(s, 36);
        Characters(s[38]);
      }
      Characters(s[26]);
      hide Field, ValidType;
    }
  }

  lemma Characters(b: byte)
    ensures ValidType(b).Some? <==> IsValidCharacter(b)
    ensures ValidType(b).Some? ==> Character(ValidType(b).value) as int == b
  {
  }

  /** The message in a frame of either format. */
  lemma ContentByBytes(version1: bool, s: Bytes)
    requires ParseFrame(version1, s).Frame?
    ensures var m, n := ParseFrame(version1, s).message, ParseFrame(version1, s).length;
      if IsNew(s) then
        && Character(m.kind) as int == s[38]
        && m.created == DateTime(Word4(s, 8), Word8(s, 16)) && m.serial == Word8(s, 24)
        && var i := 40 + Word2(s, 32);
           var j := i + Word2(s, 34);
           var k := j + Word2(s, 36);
           k <= n && m.topic == Topic(s[40..i], s[i..j]) && m.source == s[j..k] && m.data == s[k..n]
      else
        && Character(m.kind) as int == s[26]
        && m.created == DateTime(Word4(s, 4), Word8(s, 8)) && m.serial == Word8(s, 16)
        && var i := 40 + Word2(s, 24);
           i <= n && m.topic == Topic(s[40..i], []) && m.source == [] && m.data == s[i..n]
  {
    FieldWord4(s, 0);
    assert Field(s, 0, 4) == MAGIC <==> IsNew(s);
    if IsNew(s) {
      NewContent(version1, s);
    } else {
      OldContent(version1, s);
    }
  }

  lemma NewContent(version1: bool, s: Bytes)
    requires ParseFrame(version1, s).Frame? && Field(s, 0, 4) == MAGIC
    ensures var m, n := ParseFrame(version1, s).message, ParseFrame(version1, s).length;
      && Character(m.kind) as int == s[38]
      && m.created == DateTime(Word4(s, 8), Word8(s, 16)) && m.serial == Word8(s, 24)
      && var i := 40 + Word2(s, 32);
         var j := i + Word2(s, 34);
         var k := j + Word2(s, 36);
         k <= n && m.topic == Topic(s[40..i], s[i..j]) && m.source == s[j..k] && m.data == s[k..n]
  {
    FieldWord4(s, 8);
    FieldWord8(s, 16);
    FieldWord8(s, 24);
    FieldWord2(s, 32);
    FieldWord2(s, 34);
    FieldWord2(s, 36);
    Characters(s[38]);
    hide Field, ValidType, Character, Word2, Word4, Word8;
  }

  lemma OldContent(version1: bool, s: Bytes)
    requires ParseFrame(version1, s).Frame? && Field(s, 0, 4) != MAGIC
    ensures var m, n := ParseFrame(version1, s).message, ParseFrame(version1, s).length;
      && Character(m.kind) as int == s[26]
      && m.created == DateTime(Word4(s, 4), Word8(s, 8)) && m.serial == Word8(s, 16)
      && var i := 40 + Word2(s, 24);
         i <= n && m.topic == Topic(s[40..i], []) && m.source == [] && m.data == s[i..n]
  {
    FieldWord4(s, 4);
    FieldWord8(s, 8);
    FieldWord8(s, 16);
    FieldWord2(s, 24);
    Characters(s[26]);
    hide Field, ValidType, Character, Word2, Word4, Word8;
  }
}
