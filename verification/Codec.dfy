/** Laws of serializing and parsing whole messages: round trip, merging by concatenation,
    and the algebra of merging. */
module Codec {
  import opened Wire
  import opened Utf8
  import opened Message

  // ------------------------------------------------------------- round trip

  lemma NextDelimited(tag: byte, b: Bytes, y: Bytes)
    requires 8 <= tag < 128 && tag % 8 == 2 && |b| <= INT_MAX
    ensures NextToken(DelimitedField(tag, b) + y) == Next(Token(tag, Chunk(b)), y)
  {
    hide EncodeVarint, ReadVarint, ReadDelimited;
    Associate([tag], EncodeDelimited(b), y);
    TagRoundTrip(tag, EncodeDelimited(b) + y);
    DelimitedRoundTrip(b, y);
  }

  lemma EnumRoundTrip(e: int32)
    ensures ToInt32(SignExtend(e)) == e
  {
    assert TWO_64 % TWO_32 == 0;
  }

  lemma NextVarint(tag: byte, n: nat, y: Bytes)
    requires IsEnumTag(tag) && n < TWO_64
    ensures NextToken([tag] + EncodeVarint(n) + y) == Next(Token(tag, Varint(n)), y)
  {
    var v := EncodeVarint(n);
    Associate([tag], v, y);
    TagRoundTrip(tag, v + y);
    Varint64RoundTrip(n, y);
    assert ReadPayload(tag, v + y) == Good(Varint(n), y);
  }

  lemma ParseString(tag: byte, v: Bytes, y: Bytes, m: Msg)
    requires IsStringTag(tag) && Carried(v)
    ensures ParseMessage(StringField(tag, v) + y, m) ==
            ParseMessage(y, if |v| > 0 then PutString(m, tag, v) else m)
  {
    if |v| > 0 { NextDelimited(tag, v, y); } else { assert StringField(tag, v) + y == y; }
  }

  lemma ParseEnum(tag: byte, e: int32, y: Bytes, m: Msg)
    requires IsEnumTag(tag)
    ensures ParseMessage(EnumField(tag, e) + y, m) ==
            ParseMessage(y, if e != 0 then PutEnum(m, tag, e) else m)
  {
    EnumRoundTrip(e);
    if e != 0 { NextVarint(tag, SignExtend(e), y); } else { assert EnumField(tag, e) + y == y; }
  }

  lemma ParseOneDns(d: Bytes, y: Bytes, m: Msg)
    requires Carried(d)
    ensures ParseMessage(DelimitedField(DNS, d) + y, m) == ParseMessage(y, m.(dns := m.dns + [d]))
  {
    NextDelimited(DNS, d, y);
  }

  lemma {:induction false} ParseDns(dns: seq<Bytes>, y: Bytes, m: Msg)
    requires forall d <- dns :: Carried(d)
    ensures ParseMessage(DnsFields(dns) + y, m) == ParseMessage(y, m.(dns := m.dns + dns))
  {
    if dns == [] {
      assert DnsFields(dns) + y == y && m.(dns := m.dns + dns) == m;
    } else {
      var init, last := dns[..|dns| - 1], dns[|dns| - 1];
      var f := DelimitedField(DNS, last);
      var m1 := m.(dns := m.dns + init);
      Associate(DnsFields(init), f, y);
      ParseDns(init, f + y, m);
      ParseOneDns(last, y, m1);
      AppendDns(m, dns);
    }
  }

  lemma AppendDns(m: Msg, dns: seq<Bytes>)
    requires dns != []
    ensures var m1 := m.(dns := m.dns + dns[..|dns| - 1]);
            m1.(dns := m1.dns + [dns[|dns| - 1]]) == m.(dns := m.dns + dns)
  {
    assert m.dns + dns[..|dns| - 1] + [dns[|dns| - 1]] == m.dns + dns;
  }

  lemma ParseEncodedPacket(q: Packet, p: Packet)
    requires |EncodePacket(q)| <= INT_MAX
    ensures ParsePacket(EncodePacket(q), p) == Outcome(Complete, MergePacket(p, q))
  {
    if |q.data| > 0 {
      assert EncodePacket(q) + [] == EncodePacket(q);
      NextDelimited(PACKET_DATA, q.data, []);
      assert ParsePacket([], q) == Outcome(Complete, q);
    }
  }

  lemma ParsePacketField(b: Msg, y: Bytes, m: Msg)
    requires |EncodePacket(PacketOf(b))| <= INT_MAX
    ensures ParseMessage(PacketField(b.packet, |EncodePacket(PacketOf(b))|) + y, m) ==
            ParseMessage(y, if b.packet.None? then m
                            else m.(packet := Some(MergePacket(PacketOf(m), b.packet.value))))
  {
    hide EncodePacket, EncodeVarint, ParsePacket;
    var w := EncodePacket(PacketOf(b));
    if b.packet.Some? {
      Associate([PACKET], EncodeVarint(|w|), w);
      assert PacketField(b.packet, |w|) == DelimitedField(PACKET, w);
      NextDelimited(PACKET, w, y);
      ParseEncodedPacket(PacketOf(b), PacketOf(m));
    } else {
      assert PacketField(b.packet, |w|) + y == y;
    }
  }

  lemma AssociateFive(a: Bytes, b: Bytes, c: Bytes, d: Bytes, y: Bytes)
    ensures a + b + c + d + y == a + (b + (c + (d + y)))
  {
  }

  lemma AssociateSix(a: Bytes, b: Bytes, c: Bytes, d: Bytes, e: Bytes, y: Bytes)
    ensures a + b + c + d + e + y == a + (b + (c + (d + (e + y))))
  {
  }

  function MergeStrings(a: Msg, b: Msg): Msg {
    a.(username := MergeBytes(a.username, b.username), password := MergeBytes(a.password, b.password),
       ip := MergeBytes(a.ip, b.ip), submask := MergeBytes(a.submask, b.submask),
       gateway := MergeBytes(a.gateway, b.gateway))
  }

  function MergeEnums(a: Msg, b: Msg): Msg {
    a.(kind := MergeEnum(a.kind, b.kind), code := MergeEnum(a.code, b.code),
       passwordEncrypt := MergeEnum(a.passwordEncrypt, b.passwordEncrypt),
       linkEncrypt := MergeEnum(a.linkEncrypt, b.linkEncrypt))
  }

  lemma ParseStrings(b: Msg, y: Bytes, a: Msg)
    requires WellFormed(b)
    ensures ParseMessage(StringFields(b) + y, a) == ParseMessage(y, MergeStrings(a, b))
  {
    var s5 := StringField(GATEWAY, b.gateway) + y;
    var s4 := StringField(SUBMASK, b.submask) + s5;
    var s3 := StringField(IP, b.ip) + s4;
    var s2 := StringField(PASSWORD, b.password) + s3;
    AssociateSix(StringField(USERNAME, b.username), StringField(PASSWORD, b.password), StringField(IP, b.ip),
               StringField(SUBMASK, b.submask), StringField(GATEWAY, b.gateway), y);
    var a1 := a.(username := MergeBytes(a.username, b.username));
    var a2 := a1.(password := MergeBytes(a.password, b.password));
    var a3 := a2.(ip := MergeBytes(a.ip, b.ip));
    var a4 := a3.(submask := MergeBytes(a.submask, b.submask));
    ParseString(USERNAME, b.username, s2, a);
    ParseString(PASSWORD, b.password, s3, a1);
    ParseString(IP, b.ip, s4, a2);
    ParseString(SUBMASK, b.submask, s5, a3);
    ParseString(GATEWAY, b.gateway, y, a4);
  }

  lemma ParseEnums(b: Msg, y: Bytes, a: Msg)
    ensures ParseMessage(EnumFields(b) + y, a) == ParseMessage(y, MergeEnums(a, b))
  {
    var s4 := EnumField(LINK_ENCRYPT, b.linkEncrypt) + y;
    var s3 := EnumField(PASSWORD_ENCRYPT, b.passwordEncrypt) + s4;
    var s2 := EnumField(MESSAGE_CODE, b.code) + s3;
    AssociateFive(EnumField(TYPE, b.kind), EnumField(MESSAGE_CODE, b.code),
               EnumField(PASSWORD_ENCRYPT, b.passwordEncrypt), EnumField(LINK_ENCRYPT, b.linkEncrypt), y);
    var a1 := a.(kind := MergeEnum(a.kind, b.kind));
    var a2 := a1.(code := MergeEnum(a.code, b.code));
    var a3 := a2.(passwordEncrypt := MergeEnum(a.passwordEncrypt, b.passwordEncrypt));
    ParseEnum(TYPE, b.kind, s2, a);
    ParseEnum(MESSAGE_CODE, b.code, s3, a1);
    ParseEnum(PASSWORD_ENCRYPT, b.passwordEncrypt, s4, a2);
    ParseEnum(LINK_ENCRYPT, b.linkEncrypt, y, a3);
  }

  /** Parsing a serialized message into another one merges it, whatever follows. */
  lemma ParseEncoded(b: Msg, y: Bytes, a: Msg)
    requires WellFormed(b)
    ensures ParseMessage(Encode(b) + y, a) == ParseMessage(y, Merge(a, b))
  {
    var p := PacketField(b.packet, |EncodePacket(PacketOf(b))|) + y;
    var e := EnumFields(b) + p;
    var d := DnsFields(b.dns) + e;
    AssociateFive(StringFields(b), DnsFields(b.dns), EnumFields(b),
               PacketField(b.packet, |EncodePacket(PacketOf(b))|), y);
    var a1 := MergeStrings(a, b);
    var a2 := a1.(dns := a1.dns + b.dns);
    var a3 := MergeEnums(a2, b);
    ParseStrings(b, d, a);
    ParseDns(b.dns, e, a1);
    ParseEnums(b, p, a2);
    ParsePacketField(b, y, a3);
  }

  lemma RoundTrip(m: Msg)
    requires WellFormed(m)
    ensures ParseMessage(Encode(m), EMPTY) == Outcome(Complete, m)
    ensures Sendable(m) ==> Parse(Encode(m)) == Outcome(Complete, m)
  {
    assert Encode(m) + [] == Encode(m);
    ParseEncoded(m, [], EMPTY);
    MergeIdentity(m);
    assert ParseMessage([], m) == Outcome(Complete, m);
  }

  lemma ConcatenationMerges(a: Msg, b: Msg)
    requires WellFormed(a) && WellFormed(b)
    ensures ParseMessage(Encode(a) + Encode(b), EMPTY) == Outcome(Complete, Merge(a, b))
    ensures |Encode(a)| + |Encode(b)| <= INT_MAX ==>
              Parse(Encode(a) + Encode(b)) == Outcome(Complete, Merge(a, b))
  {
    hide Encode, WellFormed, Merge;
    ParseEncoded(a, Encode(b), EMPTY);
    MergeIdentity(a);
    assert Encode(b) + [] == Encode(b);
    ParseEncoded(b, [], a);
    assert ParseMessage([], Merge(a, b)) == Outcome(Complete, Merge(a, b));
  }

  // ----------------------------------------------------------- merge algebra

  lemma MergeIdentity(m: Msg)
    ensures Merge(EMPTY, m) == m && Merge(m, EMPTY) == m
  {
    assert [] + m.dns == m.dns && m.dns + [] == m.dns;
  }

  lemma MergeAssociative(a: Msg, b: Msg, c: Msg)
    ensures Merge(Merge(a, b), c) == Merge(a, Merge(b, c))
  {
    assert (a.dns + b.dns) + c.dns == a.dns + (b.dns + c.dns);
  }
}
