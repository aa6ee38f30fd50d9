/** Topics, subscriptions and data messages: the values that travel through the broker. */
module Topics {
  import opened Binary

  datatype Topic = Topic(main: Bytes, sub: Bytes) {

    predicate Match(other: Topic) {
      main == other.main && (other.sub == [] || sub == other.sub)
    }
  }
}

module Subscriptions {
  import opened Binary
  import opened Topics

  datatype SubscriptionType = Null | Full | Prefix | Regex | RegexReversed

  /** `engine(pattern, text)`: does the compiled pattern match the text? */
  type RegexEngine = (Bytes, Bytes) -> bool

  /** `Unrestricted` is the default-constructed subscription, which has no implementation object. */
  datatype Subscription =
    | Unrestricted
    | FullTopic(data: Topic)
    | PrefixTopic(data: Topic)
    | RegexTopic(data: Topic)
    | RegexTopicReversed(data: Topic)
  {
    static function Make(topic: Topic, kind: SubscriptionType): Subscription {
      match kind
      case Null => FullTopic(topic)
      case Full => FullTopic(topic)
      case Prefix => PrefixTopic(topic)
      case Regex => RegexTopic(topic)
      case RegexReversed => RegexTopicReversed(topic)
    }

    predicate Match(engine: RegexEngine, topic: Topic) {
      match this
      case Unrestricted => true
      case FullTopic(data) => topic.main == data.main && (data.sub == [] || data.sub == topic.sub)
      case PrefixTopic(data) => data.main <= topic.main && (data.sub == [] || data.sub == topic.sub)
      case RegexTopic(data) => data.main == topic.main && engine(data.sub, topic.sub)
      case RegexTopicReversed(data) => data.main == topic.main && !engine(data.sub, topic.sub)
    }

    predicate Is(kind: SubscriptionType) {
      match this
      case Unrestricted => false
      case FullTopic(_) => kind == Full
      case PrefixTopic(_) => kind == Prefix
      case RegexTopic(_) => kind == Regex
      case RegexTopicReversed(_) => kind == RegexReversed
    }

    /** The key by which an entry is removed: its kind and main topic. The subtopic takes no part. */
    predicate Equals(main: Bytes, kind: SubscriptionType) {
      if Unrestricted? then main == [] else Is(kind) && data.main == main
    }
  }

  /** A responder's subscription list lets a topic through when some entry matches. */
  predicate AnyMatch(engine: RegexEngine, subs: seq<Subscription>, topic: Topic) {
    exists k :: 0 <= k < |subs| && subs[k].Match(engine, topic)
  }
}

module Messages {
  import opened Binary
  import opened Topics
  import opened Subscriptions
  import opened Wrappers

  datatype MessageType =
    | Null
    | SubscribeFull | SubscribePrefix | SubscribeRegex | SubscribeRegexReversed
    | UnsubscribeFull | UnsubscribePrefix | UnsubscribeRegex | UnsubscribeRegexReversed
    | Data | PlainData | System

  /** The character that stands for a type on the wire. */
  function Code(t: MessageType): byte {
    match t
    case Null => 0x20
    case SubscribeFull => 0x46
    case SubscribePrefix => 0x50
    case SubscribeRegex => 0x58
    case SubscribeRegexReversed => 0x59
    case UnsubscribeFull => 0x66
    case UnsubscribePrefix => 0x70
    case UnsubscribeRegex => 0x78
    case UnsubscribeRegexReversed => 0x79
    case Data => 0x44
    case PlainData => 0x52
    case System => 0x53
  }

  /** The types the deserializer lets through: neither the reversed regex kinds nor `Null`. */
  predicate IsValidType(t: MessageType) {
    t in {SubscribeFull, SubscribePrefix, SubscribeRegex,
          UnsubscribeFull, UnsubscribePrefix, UnsubscribeRegex,
          Data, PlainData, System}
  }

  /** The valid type with this character, if there is one. */
  function ValidType(code: byte): (t: Option<MessageType>)
    ensures t.Some? ==> IsValidType(t.value) && Code(t.value) == code
    ensures t.None? ==> forall u :: IsValidType(u) ==> Code(u) != code
  {
    if code == 0x46 then Some(SubscribeFull)
    else if code == 0x50 then Some(SubscribePrefix)
    else if code == 0x58 then Some(SubscribeRegex)
    else if code == 0x66 then Some(UnsubscribeFull)
    else if code == 0x70 then Some(UnsubscribePrefix)
    else if code == 0x78 then Some(UnsubscribeRegex)
    else if code == 0x44 then Some(Data)
    else if code == 0x52 then Some(PlainData)
    else if code == 0x53 then Some(System)
    else None
  }

  /** A UTC time as the two numbers the header carries. */
  datatype DateTime = DateTime(julian: u32, usecs: u64)

  datatype DataMessage = DataMessage(
    kind: MessageType,
    topic: Topic,
    source: Bytes,
    serial: u64,
    created: DateTime,
    data: Bytes)
  {
    predicate IsData() {
      kind.Data? || kind.PlainData?
    }

    predicate IsSubscribe() {
      kind.SubscribeFull? || kind.SubscribePrefix? || kind.SubscribeRegex? || kind.SubscribeRegexReversed?
    }

    predicate IsUnsubscribe() {
      kind.UnsubscribeFull? || kind.UnsubscribePrefix? || kind.UnsubscribeRegex? || kind.UnsubscribeRegexReversed?
    }
  }

  function SubscriptionTypeOf(t: MessageType): SubscriptionType {
    match t
    case SubscribeFull => Full
    case UnsubscribeFull => Full
    case SubscribePrefix => Prefix
    case UnsubscribePrefix => Prefix
    case SubscribeRegex => Regex
    case UnsubscribeRegex => Regex
    case SubscribeRegexReversed => RegexReversed
    case UnsubscribeRegexReversed => RegexReversed
    case _ => SubscriptionType.Null
  }

  /** The message type `DataMessage::subscribe` picks. */
  function SubscribeType(kind: SubscriptionType): MessageType {
    match kind
    case Prefix => SubscribePrefix
    case Regex => SubscribeRegex
    case _ => SubscribeFull
  }

  /** The message type `DataMessage::unsubscribe` picks. */
  function UnsubscribeType(kind: SubscriptionType): MessageType {
    match kind
    case Prefix => UnsubscribePrefix
    case Regex => UnsubscribeRegex
    case _ => UnsubscribeFull
  }

  /** The message type `DataMessage::subscribeWithObject` picks. */
  function SubscribeWithObjectType(kind: SubscriptionType): MessageType {
    match kind
    case Prefix => SubscribePrefix
    case Regex => SubscribeRegex
    case RegexReversed => SubscribeRegexReversed
    case _ => SubscribeFull
  }
}
