/** The schema on the wire: which bytes carry which field, in numbers, both ways. */
module Schema {
  import opened Wire
  import opened Utf8
  import opened Message
  import opened Fields
  import Codec
  import Canonical

  // ------------------------------------------------------------- what is parsed

  /** A tag of one byte, then a length and its bytes. */
  lemma Delimited(tag: byte, v: Bytes, y: Bytes)
    requires 8 <= tag < 128 && tag % 8 == 2 && |v| <= 0x7FFF_FFFF
    ensures NextToken([tag] + EncodeDelimited(v) + y) == Next(Token(tag, Chunk(v)), y)
  {
    Codec.NextDelimited(tag, v, y);
  }

  /** The outcome of storing a string in a message: it stays there even when refused. */
  function StringRead(v: Bytes, y: Bytes, m: Msg): Outcome<Msg> {
    if ValidUtf8(v) then ParseMessage(y, m) else Outcome(Failed, m)
  }

  /** Fields 1, 2, 4, 5, 6 and 7 are strings; a name server is appended, the others replace. */
  lemma StringsOnWire(v: Bytes, y: Bytes, m: Msg)
    requires |v| <= 0x7FFF_FFFF
    ensures ParseMessage([10] + EncodeDelimited(v) + y, m) == StringRead(v, y, m.(username := v))
    ensures ParseMessage([18] + EncodeDelimited(v) + y, m) == StringRead(v, y, m.(password := v))
    ensures ParseMessage([34] + EncodeDelimited(v) + y, m) == StringRead(v, y, m.(ip := v))
    ensures ParseMessage([42] + EncodeDelimited(v) + y, m) == StringRead(v, y, m.(submask := v))
    ensures ParseMessage([50] + EncodeDelimited(v) + y, m) == StringRead(v, y, m.(gateway := v))
    ensures ParseMessage([58] + EncodeDelimited(v) + y, m) == StringRead(v, y, m.(dns := m.dns + [v]))
  {
    hide EncodeDelimited, ReadPayload, ReadTag, ValidUtf8;
    Delimited(10, v, y);
    Delimited(18, v, y);
    Delimited(34, v, y);
    Delimited(42, v, y);
    Delimited(50, v, y);
    Delimited(58, v, y);
  }

  lemma LowBits(n: nat, e: int32)
    requires (n - e) % 0x1_0000_0000 == 0
    ensures ToInt32(n) == e
  {
  }

  lemma VarintField(tag: byte, n: nat, y: Bytes)
    requires 8 <= tag < 128 && tag % 8 == 0 && n < 0x1_0000_0000_0000_0000
    ensures NextToken([tag] + EncodeVarint(n) + y) == Next(Token(tag, Varint(n)), y)
  {
    hide EncodeVarint, ReadVarint, Wire.ReadVarint64;
    Associate([tag], EncodeVarint(n), y);
    TagRoundTrip(tag, EncodeVarint(n) + y);
    Varint64RoundTrip(n, y);
  }

  /** Fields 8 to 11 are enums: `e` is the 32-bit number with the low bits of the varint. */
  lemma EnumsOnWire(n: nat, e: int32, y: Bytes, m: Msg)
    requires n < 0x1_0000_0000_0000_0000 && (n - e) % 0x1_0000_0000 == 0
    ensures ParseMessage([64] + EncodeVarint(n) + y, m) == ParseMessage(y, m.(kind := e))
    ensures ParseMessage([72] + EncodeVarint(n) + y, m) == ParseMessage(y, m.(code := e))
    ensures ParseMessage([80] + EncodeVarint(n) + y, m) == ParseMessage(y, m.(passwordEncrypt := e))
    ensures ParseMessage([88] + EncodeVarint(n) + y, m) == ParseMessage(y, m.(linkEncrypt := e))
  {
    hide EncodeVarint, ReadPayload, ReadTag, ToInt32;
    LowBits(n, e);
    VarintField(64, n, y);
    VarintField(72, n, y);
    VarintField(80, n, y);
    VarintField(88, n, y);
  }

  /** Field 13 is the packet, parsed into the one there or an empty one; unless its bytes are
      read to their end the message fails, and keeps what was read. */
  lemma PacketOnWire(b: Bytes, y: Bytes, m: Msg)
    requires |b| <= 0x7FFF_FFFF
    ensures var o := ParsePacket(b, if m.packet.Some? then m.packet.value else Packet([]));
            var m' := m.(packet := Some(o.msg));
            ParseMessage([106] + EncodeDelimited(b) + y, m) ==
            if o.status == Complete then ParseMessage(y, m') else Outcome(Failed, m')
  {
    hide EncodeDelimited, ReadPayload, ReadTag, ValidUtf8, ParsePacket;
    Delimited(106, b, y);
  }

  /** Field 12 is the packet's data; nothing else inside a packet is stored. */
  lemma DataOnWire(v: Bytes, u: Bytes, y: Bytes, p: Packet)
    requires |v| <= 0x7FFF_FFFF
    ensures ParsePacket([98] + EncodeDelimited(v) + y, p) == ParsePacket(y, Packet(v))
    ensures NextToken(u).Next? && NextToken(u).token.tag != 98 ==>
              ParsePacket(u, p) == ParsePacket(NextToken(u).rest, p)
  {
    hide EncodeDelimited, ReadPayload, ReadTag;
    Delimited(98, v, y);
  }

  /** The ends of a parse: the end of input, a tag of zero or an end tag, and a field that
      cannot be read, which leaves an empty name server or a packet behind. */
  lemma ParseEnds(s: Bytes, m: Msg, p: Packet)
    ensures ParseMessage([], m) == Outcome(Complete, m) && ParsePacket([], p) == Outcome(Complete, p)
    ensures s != [] && (ReadTag(s).Bad? || ReadTag(s).value % 8 == 4) ==>
              ParseMessage(s, m) == Outcome(Stopped, m) && ParsePacket(s, p) == Outcome(Stopped, p)
    ensures ReadTag(s).Good? && ReadTag(s).value % 8 != 4 && ReadPayload(ReadTag(s).value, ReadTag(s).rest).Bad? ==>
              && ParseMessage(s, m) == Outcome(Failed,
                   if ReadTag(s).value == 58 then m.(dns := m.dns + [[]])
                   else if ReadTag(s).value == 106 then
                     m.(packet := if m.packet.Some? then m.packet else Some(Packet([])))
                   else m)
              && ParsePacket(s, p) == Outcome(Failed, p)
  {
    hide ReadPayload, ReadTag;
  }

  /** A parse starts from defaults, and fails on more bytes than an int can count. */
  lemma ParseStarts(s: Bytes)
    ensures var none := Msg([], [], [], [], [], [], 0, 0, 0, 0, None);
            Parse(s) == if |s| <= 0x7FFF_FFFF then ParseMessage(s, none) else Outcome(Failed, none)
  {
    hide ParseMessage;
  }

  // --------------------------------------------------------- what is serialized

  function StringPart(tag: nat, v: Bytes): seq<Token> { if v == [] then [] else [Token(tag, Chunk(v))] }

  /** An enum is written as a 64-bit number. */
  function EnumPart(tag: nat, e: int32): seq<Token> {
    if e == 0 then [] else [Token(tag, Varint(if e < 0 then e + 0x1_0000_0000_0000_0000 else e))]
  }

  function DnsPart(dns: seq<Bytes>): seq<Token> {
    if dns == [] then [] else DnsPart(dns[..|dns| - 1]) + [Token(58, Chunk(dns[|dns| - 1]))]
  }

  function PacketPart(p: Option<Packet>): seq<Token> {
    match p
    case None => []
    case Some(q) => [Token(106, Chunk(if q.data == [] then [] else [98] + EncodeDelimited(q.data)))]
  }

  function StringsPart(m: Msg): seq<Token> {
    StringPart(10, m.username) + StringPart(18, m.password) + StringPart(34, m.ip)
    + StringPart(42, m.submask) + StringPart(50, m.gateway)
  }

  function EnumsPart(m: Msg): seq<Token> {
    EnumPart(64, m.kind) + EnumPart(72, m.code) + EnumPart(80, m.passwordEncrypt) + EnumPart(88, m.linkEncrypt)
  }

  /** The fields of a message in the order of their numbers, defaults left out. */
  function Parts(m: Msg): seq<Token> {
    StringsPart(m) + DnsPart(m.dns) + EnumsPart(m) + PacketPart(m.packet)
  }

  predicate Reads(s: Bytes, ts: seq<Token>) { Boundary(s) && Tokens(s) == ts }

  lemma {:induction false} ReadsAppend(x: Bytes, ts: seq<Token>, y: Bytes, us: seq<Token>)
    requires Reads(x, ts) && Reads(y, us)
    ensures Reads(x + y, ts + us)
    decreases |x|
  {
    if x == [] {
      assert x + y == y && ts + us == us;
    } else {
      var t, rest := NextToken(x).token, NextToken(x).rest;
      TokenExtend(x, y);
      assert ts == [t] + Tokens(rest) && [t] + Tokens(rest) + us == [t] + (Tokens(rest) + us);
      ReadsAppend(rest, Tokens(rest), y, us);
    }
  }

  lemma ReadsNothing()
    ensures Reads([], [])
  {
  }

  lemma ReadsOne(s: Bytes, t: Token)
    requires NextToken(s) == Next(t, [])
    ensures Reads(s, [t])
  {
    ReadsNothing();
  }

  lemma ReadsString(tag: byte, v: Bytes)
    requires 8 <= tag < 128 && tag % 8 == 2 && |v| <= INT_MAX
    ensures Reads(DelimitedField(tag, v), [Token(tag, Chunk(v))])
    ensures Reads(StringField(tag, v), StringPart(tag, v))
  {
    hide EncodeDelimited, Reads;
    assert DelimitedField(tag, v) + [] == DelimitedField(tag, v);
    Codec.NextDelimited(tag, v, []);
    ReadsOne(DelimitedField(tag, v), Token(tag, Chunk(v)));
    ReadsNothing();
  }

  lemma ReadsEnum(tag: byte, e: int32)
    requires 8 <= tag < 128 && tag % 8 == 0
    ensures Reads(EnumField(tag, e), EnumPart(tag, e))
  {
    hide EncodeVarint, Reads;
    if e != 0 {
      assert EnumField(tag, e) + [] == EnumField(tag, e);
      VarintField(tag, SignExtend(e), []);
      ReadsOne(EnumField(tag, e), Token(tag, Varint(SignExtend(e))));
    } else {
      ReadsNothing();
    }
  }

  lemma {:induction false} ReadsDns(dns: seq<Bytes>)
    requires forall d <- dns :: |d| <= INT_MAX
    ensures Reads(DnsFields(dns), DnsPart(dns))
  {
    hide EncodeDelimited, Reads;
    if dns == [] {
      ReadsNothing();
    } else {
      var init, last := dns[..|dns| - 1], dns[|dns| - 1];
      ReadsDns(init);
      ReadsString(58, last);
      ReadsAppend(DnsFields(init), DnsPart(init), DelimitedField(58, last), [Token(58, Chunk(last))]);
    }
  }

  lemma ReadsPacket(m: Msg)
    requires |EncodePacket(PacketOf(m))| <= INT_MAX
    ensures Reads(PacketField(m.packet, |EncodePacket(PacketOf(m))|), PacketPart(m.packet))
  {
    hide EncodeVarint, Reads;
    var w := EncodePacket(PacketOf(m));
    if m.packet.Some? {
      Associate([106], EncodeVarint(|w|), w);
      ReadsString(106, w);
    } else {
      ReadsNothing();
    }
  }

  lemma ReadsStrings(m: Msg)
    requires |m.username| <= INT_MAX && |m.password| <= INT_MAX && |m.ip| <= INT_MAX
    requires |m.submask| <= INT_MAX && |m.gateway| <= INT_MAX
    ensures Reads(StringFields(m), StringsPart(m))
  {
    hide StringField, StringPart, Reads;
    var a, b, c := StringField(10, m.username), StringField(18, m.password), StringField(34, m.ip);
    var d, e := StringField(42, m.submask), StringField(50, m.gateway);
    var p, q, r := StringPart(10, m.username), StringPart(18, m.password), StringPart(34, m.ip);
    var t, u := StringPart(42, m.submask), StringPart(50, m.gateway);
    ReadsString(10, m.username);
    ReadsString(18, m.password);
    ReadsString(34, m.ip);
    ReadsString(42, m.submask);
    ReadsString(50, m.gateway);
    ReadsAppend(a, p, b, q);
    ReadsAppend(a + b, p + q, c, r);
    ReadsAppend(a + b + c, p + q + r, d, t);
    ReadsAppend(a + b + c + d, p + q + r + t, e, u);
  }

  lemma ReadsEnums(m: Msg)
    ensures Reads(EnumFields(m), EnumsPart(m))
  {
    hide EnumField, EnumPart, Reads;
    var a, b := EnumField(64, m.kind), EnumField(72, m.code);
    var c, d := EnumField(80, m.passwordEncrypt), EnumField(88, m.linkEncrypt);
    var p, q := EnumPart(64, m.kind), EnumPart(72, m.code);
    var r, t := EnumPart(80, m.passwordEncrypt), EnumPart(88, m.linkEncrypt);
    ReadsEnum(64, m.kind);
    ReadsEnum(72, m.code);
    ReadsEnum(80, m.passwordEncrypt);
    ReadsEnum(88, m.linkEncrypt);
    ReadsAppend(a, p, b, q);
    ReadsAppend(a + b, p + q, c, r);
    ReadsAppend(a + b + c, p + q + r, d, t);
  }

  /** A message is serialized as these fields and nothing else. */
  lemma SerializedParts(m: Msg)
    requires Sendable(m)
    ensures Boundary(Encode(m)) && Tokens(Encode(m)) == Parts(m)
  {
    Canonical.PartsFit(m);
    ReadsStrings(m);
    ReadsDns(m.dns);
    ReadsEnums(m);
    ReadsPacket(m);
    hide DnsFields, PacketField, StringsPart, DnsPart, EnumsPart, PacketPart, StringFields, EnumFields;
    var a, b, c, d := StringFields(m), DnsFields(m.dns), EnumFields(m), PacketField(m.packet, |EncodePacket(PacketOf(m))|);
    var p, q, r := StringsPart(m), DnsPart(m.dns), EnumsPart(m);
    ReadsAppend(a, p, b, q);
    ReadsAppend(a + b, p + q, c, r);
    ReadsAppend(a + b + c, p + q + r, d, PacketPart(m.packet));
  }
}
