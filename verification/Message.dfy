/** The tunnel's message: its value, merging, serialization and parsing. */
module Message {
  import opened Wire
  import opened Utf8

  // Enum values of the schema.  The fields themselves are open: any int32.
  const REQUEST: int32 := 0
  const RESPONSE: int32 := 1
  const AUTHORIZATION: int32 := 0
  const ESTABLISH: int32 := 1
  const BUSY: int32 := 2
  const DATA: int32 := 3

  // One-byte tags: field number times eight plus wire type.
  const USERNAME: byte := 10
  const PASSWORD: byte := 18
  const IP: byte := 34
  const SUBMASK: byte := 42
  const GATEWAY: byte := 50
  const DNS: byte := 58
  const TYPE: byte := 64
  const MESSAGE_CODE: byte := 72
  const PASSWORD_ENCRYPT: byte := 80
  const LINK_ENCRYPT: byte := 88
  const PACKET_DATA: byte := 98
  const PACKET: byte := 106

  datatype Packet = Packet(data: Bytes)

  datatype Msg = Msg(
    username: Bytes, password: Bytes, ip: Bytes, submask: Bytes, gateway: Bytes,
    dns: seq<Bytes>,
    kind: int32, code: int32, passwordEncrypt: int32, linkEncrypt: int32,
    packet: Option<Packet>)

  const NO_DATA := Packet([])
  const EMPTY := Msg([], [], [], [], [], [], 0, 0, 0, 0, None)

  function PacketOf(m: Msg): Packet {
    match m.packet case None => NO_DATA case Some(p) => p
  }

  predicate IsStringTag(tag: nat) {
    tag == USERNAME || tag == PASSWORD || tag == IP || tag == SUBMASK || tag == GATEWAY
  }

  predicate IsEnumTag(tag: nat) {
    tag == TYPE || tag == MESSAGE_CODE || tag == PASSWORD_ENCRYPT || tag == LINK_ENCRYPT
  }

  function PutString(m: Msg, tag: nat, v: Bytes): Msg {
    if tag == USERNAME then m.(username := v)
    else if tag == PASSWORD then m.(password := v)
    else if tag == IP then m.(ip := v)
    else if tag == SUBMASK then m.(submask := v)
    else if tag == GATEWAY then m.(gateway := v)
    else if tag == DNS then m.(dns := m.dns + [v])
    else m
  }

  function PutEnum(m: Msg, tag: nat, e: int32): Msg {
    if tag == TYPE then m.(kind := e)
    else if tag == MESSAGE_CODE then m.(code := e)
    else if tag == PASSWORD_ENCRYPT then m.(passwordEncrypt := e)
    else if tag == LINK_ENCRYPT then m.(linkEncrypt := e)
    else m
  }

  // ---------------------------------------------------------------- merging

  function MergePacket(a: Packet, b: Packet): Packet {
    if |b.data| > 0 then b else a
  }

  function MergeBytes(a: Bytes, b: Bytes): Bytes { if |b| > 0 then b else a }

  function MergeEnum(a: int32, b: int32): int32 { if b != 0 then b else a }

  function Merge(a: Msg, b: Msg): Msg {
    Msg(MergeBytes(a.username, b.username), MergeBytes(a.password, b.password), MergeBytes(a.ip, b.ip),
        MergeBytes(a.submask, b.submask), MergeBytes(a.gateway, b.gateway),
        a.dns + b.dns,
        MergeEnum(a.kind, b.kind), MergeEnum(a.code, b.code),
        MergeEnum(a.passwordEncrypt, b.passwordEncrypt), MergeEnum(a.linkEncrypt, b.linkEncrypt),
        if b.packet.None? then a.packet else Some(MergePacket(PacketOf(a), b.packet.value)))
  }

  // ------------------------------------------------------------ serializing

  /** An enum goes out as a 64-bit varint, sign-extended. */
  function SignExtend(e: int32): (v: nat)
    ensures v < TWO_64
  {
    if e < 0 then e + TWO_64 else e
  }

  /** An enum comes in as the low 32 bits of a varint. */
  function ToInt32(v: nat): int32 {
    var w := v % TWO_32;
    if w <= INT_MAX then w else w - TWO_32
  }

  function DelimitedField(tag: byte, v: Bytes): Bytes { [tag] + EncodeDelimited(v) }

  function StringField(tag: byte, v: Bytes): Bytes {
    if |v| > 0 then DelimitedField(tag, v) else []
  }

  function DnsFields(dns: seq<Bytes>): Bytes {
    if dns == [] then [] else DnsFields(dns[..|dns| - 1]) + DelimitedField(DNS, dns[|dns| - 1])
  }

  function EnumField(tag: byte, e: int32): Bytes {
    if e != 0 then [tag] + EncodeVarint(SignExtend(e)) else []
  }

  function EncodePacket(p: Packet): Bytes { StringField(PACKET_DATA, p.data) }

  /** The nested length written is the one the packet has cached. */
  function PacketField(p: Option<Packet>, cached: nat): Bytes {
    match p
    case None => []
    case Some(q) => [PACKET] + EncodeVarint(cached) + EncodePacket(q)
  }

  function StringFields(m: Msg): Bytes {
    StringField(USERNAME, m.username) + StringField(PASSWORD, m.password) + StringField(IP, m.ip)
    + StringField(SUBMASK, m.submask) + StringField(GATEWAY, m.gateway)
  }

  function EnumFields(m: Msg): Bytes {
    EnumField(TYPE, m.kind) + EnumField(MESSAGE_CODE, m.code)
    + EnumField(PASSWORD_ENCRYPT, m.passwordEncrypt) + EnumField(LINK_ENCRYPT, m.linkEncrypt)
  }

  function EncodeCached(m: Msg, cached: nat): Bytes {
    StringFields(m) + DnsFields(m.dns) + EnumFields(m) + PacketField(m.packet, cached)
  }

  function Encode(m: Msg): Bytes { EncodeCached(m, |EncodePacket(PacketOf(m))|) }

  predicate ValidStrings(m: Msg) {
    && ValidUtf8(m.username) && ValidUtf8(m.password) && ValidUtf8(m.ip) && ValidUtf8(m.submask) && ValidUtf8(m.gateway)
    && forall d <- m.dns :: ValidUtf8(d)
  }

  /** A whole message's size is an int wherever it is passed. */
  predicate Sendable(m: Msg) { |Encode(m)| <= INT_MAX }

  /** What one field can carry: a valid string, and a length that fits an int. */
  predicate Carried(v: Bytes) { ValidUtf8(v) && |v| <= INT_MAX }

  predicate WellFormed(m: Msg) {
    && Carried(m.username) && Carried(m.password) && Carried(m.ip) && Carried(m.submask) && Carried(m.gateway)
    && (forall d <- m.dns :: Carried(d))
    && |EncodePacket(PacketOf(m))| <= INT_MAX
  }

  // ---------------------------------------------------------------- parsing

  /** A parse loop ends at the end of its input, stops early at a zero or end-group
      tag (both return true), or fails; the message is what was set until then. */
  datatype Status = Complete | Stopped | Failed
  datatype Outcome<+M> = Outcome(status: Status, msg: M)

  function ApplyToPacket(p: Packet, t: Token): Packet {
    if t.tag == PACKET_DATA && t.payload.Chunk? then Packet(t.payload.b) else p
  }

  function ParsePacket(s: Bytes, p: Packet): Outcome<Packet>
    decreases |s|
  {
    match NextToken(s)
    case AtEnd => Outcome(Complete, p)
    case Stop => Outcome(Stopped, p)
    case Broken(_) => Outcome(Failed, p)
    case Next(t, rest) => ParsePacket(rest, ApplyToPacket(p, t))
  }

  /** Stores one field.  An ill-formed string is stored before it is refused. */
  function Apply(m: Msg, t: Token): (o: Outcome<Msg>)
    ensures o.status != Stopped
  {
    match t.payload
    case Chunk(b) =>
      if IsStringTag(t.tag) || t.tag == DNS then
        Outcome(if ValidUtf8(b) then Complete else Failed, PutString(m, t.tag, b))
      else if t.tag == PACKET then
        var inner := ParsePacket(b, PacketOf(m));
        Outcome(if inner.status == Complete then Complete else Failed, m.(packet := Some(inner.msg)))
      else Outcome(Complete, m)
    case Varint(v) => Outcome(Complete, PutEnum(m, t.tag, ToInt32(v)))
    case Opaque => Outcome(Complete, m)
  }

  /** What an unreadable field leaves behind: its slot is made before it is read. */
  function Touch(m: Msg, tag: nat): Msg {
    if tag == DNS then m.(dns := m.dns + [[]])
    else if tag == PACKET then m.(packet := Some(PacketOf(m)))
    else m
  }

  function ParseMessage(s: Bytes, m: Msg): Outcome<Msg>
    decreases |s|
  {
    match NextToken(s)
    case AtEnd => Outcome(Complete, m)
    case Stop => Outcome(Stopped, m)
    case Broken(tag) => Outcome(Failed, Touch(m, tag))
    case Next(t, rest) =>
      var o := Apply(m, t);
      if o.status == Complete then ParseMessage(rest, o.msg) else o
  }

  /** One turn of each loop, in the stream's own steps: the tag, then the value. */
  lemma PacketTurn(s: Bytes, p: Packet)
    ensures s == [] ==> ParsePacket(s, p) == Outcome(Complete, p)
    ensures s != [] && (ReadTag(s).Bad? || ReadTag(s).value % 8 == 4) ==> ParsePacket(s, p) == Outcome(Stopped, p)
    ensures ReadTag(s).Good? && ReadTag(s).value % 8 != 4 ==>
              ParsePacket(s, p) == match ReadPayload(ReadTag(s).value, ReadTag(s).rest)
                                   case Bad => Outcome(Failed, p)
                                   case Good(q, r) => ParsePacket(r, ApplyToPacket(p, Token(ReadTag(s).value, q)))
  {
  }

  lemma MessageTurn(s: Bytes, m: Msg)
    ensures s == [] ==> ParseMessage(s, m) == Outcome(Complete, m)
    ensures s != [] && (ReadTag(s).Bad? || ReadTag(s).value % 8 == 4) ==> ParseMessage(s, m) == Outcome(Stopped, m)
    ensures ReadTag(s).Good? && ReadTag(s).value % 8 != 4 ==>
              ParseMessage(s, m) == match ReadPayload(ReadTag(s).value, ReadTag(s).rest)
                                    case Bad => Outcome(Failed, Touch(m, ReadTag(s).value))
                                    case Good(q, r) =>
                                      var o := Apply(m, Token(ReadTag(s).value, q));
                                      if o.status == Complete then ParseMessage(r, o.msg) else o
  {
  }

  /** Clear, then merge from the bytes; their number is passed as an int. */
  function Parse(s: Bytes): Outcome<Msg> {
    if |s| > INT_MAX then Outcome(Failed, EMPTY) else ParseMessage(s, EMPTY)
  }
}
