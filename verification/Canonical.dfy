/** Re-encoding an accepted input: it parses back, and grows by at most 20 bytes. */
module Canonical {
  import opened Wire
  import opened Utf8
  import opened Message
  import Codec

  // -------------------------------------------- what the parser only produces

  lemma {:induction false} ParsePacketSize(s: Bytes, p: Packet)
    ensures var q := ParsePacket(s, p).msg; |EncodePacket(q)| <= |EncodePacket(p)| || |EncodePacket(q)| <= |s|
    decreases |s|
  {
    match NextToken(s)
    case AtEnd =>
    case Stop =>
    case Broken(_) =>
    case Next(t, rest) =>
      TokenSize(s);
      ParsePacketSize(rest, ApplyToPacket(p, t));
  }

  lemma PutStringWellFormed(m: Msg, tag: nat, b: Bytes)
    requires WellFormed(m) && Carried(b)
    ensures WellFormed(PutString(m, tag, b))
  {
    hide ValidUtf8, EncodePacket;
    assert forall d <- m.dns + [b] :: d in m.dns || d == b;
  }

  lemma PutPacketWellFormed(m: Msg, b: Bytes)
    requires WellFormed(m) && |b| <= INT_MAX
    ensures WellFormed(m.(packet := Some(ParsePacket(b, PacketOf(m)).msg)))
  {
    hide ValidUtf8, EncodePacket, ParsePacket;
    ParsePacketSize(b, PacketOf(m));
  }

  lemma ApplyWellFormed(m: Msg, t: Token)
    requires WellFormed(m) && (t.payload.Chunk? ==> |t.payload.b| <= INT_MAX)
    requires Apply(m, t).status == Complete
    ensures WellFormed(Apply(m, t).msg)
  {
    hide ValidUtf8, EncodePacket, ParsePacket;
    if t.payload.Chunk? {
      if t.tag == PACKET {
        PutPacketWellFormed(m, t.payload.b);
      } else if IsStringTag(t.tag) || t.tag == DNS {
        PutStringWellFormed(m, t.tag, t.payload.b);
      }
    }
  }

  lemma {:induction false} ParseWellFormed(s: Bytes, m: Msg)
    requires WellFormed(m) && ParseMessage(s, m).status == Complete
    ensures WellFormed(ParseMessage(s, m).msg)
    decreases |s|
  {
    match NextToken(s)
    case AtEnd =>
    case Next(t, rest) =>
      TokenSize(s);
      ApplyWellFormed(m, t);
      ParseWellFormed(rest, Apply(m, t).msg);
  }

  /** Even from a parse that failed, the packet left in the message fits an int. */
  lemma {:induction false} ParsedPacketFits(s: Bytes, m: Msg)
    requires |EncodePacket(PacketOf(m))| <= INT_MAX
    ensures |EncodePacket(PacketOf(ParseMessage(s, m).msg))| <= INT_MAX
    decreases |s|
  {
    hide EncodePacket, ParsePacket, ValidUtf8;
    match NextToken(s)
    case AtEnd =>
    case Stop =>
    case Broken(_) =>
    case Next(t, rest) =>
      TokenSize(s);
      if t.payload.Chunk? && t.tag == PACKET { ParsePacketSize(t.payload.b, PacketOf(m)); }
      if Apply(m, t).status == Complete { ParsedPacketFits(rest, Apply(m, t).msg); }
  }

  // ------------------------------------------------------------ a byte budget

  function StringCost(v: Bytes): nat { if |v| > 0 then 1 + VarintSize(|v|) + |v| else 0 }

  function DnsCost(dns: seq<Bytes>): nat { |DnsFields(dns)| }

  /** An enum counted as its low 32 bits, which is the least the parser consumed for it. */
  function EnumCost(e: int32): nat {
    if e == 0 then 0 else 1 + VarintSize(SignExtend(e) % TWO_32)
  }

  function PacketCost(p: Option<Packet>): nat {
    match p case None => 0 case Some(q) => var n := |EncodePacket(q)|; 1 + VarintSize(n) + n
  }

  function StringsCost(m: Msg): nat {
    StringCost(m.username) + StringCost(m.password) + StringCost(m.ip) + StringCost(m.submask) + StringCost(m.gateway)
  }

  function EnumsCost(m: Msg): nat {
    EnumCost(m.kind) + EnumCost(m.code) + EnumCost(m.passwordEncrypt) + EnumCost(m.linkEncrypt)
  }

  function Cost(m: Msg): nat {
    StringsCost(m) + DnsCost(m.dns) + EnumsCost(m) + PacketCost(m.packet)
  }

  lemma EnumFieldCost(tag: byte, e: int32)
    ensures |EnumField(tag, e)| <= EnumCost(e) + 5
    ensures e >= 0 ==> |EnumField(tag, e)| == EnumCost(e)
  {
    if e < 0 {
      VarintSize64(SignExtend(e));
      assert SignExtend(e) % TWO_32 == e + TWO_32;
      FiveBytes(e + TWO_32);
    }
  }

  lemma FiveBytes(v: nat)
    requires 0x8000_0000 <= v < TWO_32
    ensures VarintSize(v) == 5
  {
    var a := v / 128;
    var b := a / 128;
    var c := b / 128;
    assert c >= 1024 && c / 128 < 128;
    assert VarintSize(c) == 2;
    assert VarintSize(a) == 4;
  }

  lemma EncodeSize(m: Msg)
    ensures |Encode(m)| == StringsCost(m) + DnsCost(m.dns) + |EnumFields(m)| + PacketCost(m.packet)
  {
  }

  lemma EncodeWithinCost(m: Msg)
    ensures |Encode(m)| <= Cost(m) + 20
  {
    EncodeSize(m);
    EnumFieldCost(TYPE, m.kind);
    EnumFieldCost(MESSAGE_CODE, m.code);
    EnumFieldCost(PASSWORD_ENCRYPT, m.passwordEncrypt);
    EnumFieldCost(LINK_ENCRYPT, m.linkEncrypt);
  }

  lemma EnumReadCost(v: nat)
    ensures EnumCost(ToInt32(v)) <= 1 + VarintSize(v)
  {
    assert SignExtend(ToInt32(v)) % TWO_32 == v % TWO_32;
    VarintSizeMonotone(v % TWO_32, v);
  }

  lemma PacketReadCost(p: Option<Packet>, b: Bytes)
    ensures var q := match p case None => NO_DATA case Some(q) => q;
            PacketCost(Some(ParsePacket(b, q).msg)) <= PacketCost(p) + 1 + VarintSize(|b|) + |b|
  {
    var q := match p case None => NO_DATA case Some(q) => q;
    var n := |EncodePacket(ParsePacket(b, q).msg)|;
    ParsePacketSize(b, q);
    if n <= |b| { VarintSizeMonotone(n, |b|); } else { VarintSizeMonotone(n, |EncodePacket(q)|); }
  }

  lemma DnsAppendCost(dns: seq<Bytes>, b: Bytes)
    ensures DnsCost(dns + [b]) == DnsCost(dns) + 1 + VarintSize(|b|) + |b|
  {
    assert (dns + [b])[..|dns|] == dns;
  }

  lemma StringsCostPut(m: Msg, tag: nat, b: Bytes)
    requires tag != DNS
    ensures StringsCost(PutString(m, tag, b)) <= StringsCost(m) + StringCost(b)
  {
  }

  lemma PutStringKeeps(m: Msg, tag: nat, b: Bytes)
    ensures var m' := PutString(m, tag, b);
            && EnumsCost(m') == EnumsCost(m) && m'.packet == m.packet
            && (if tag == DNS then m'.dns == m.dns + [b] && StringsCost(m') == StringsCost(m) else m'.dns == m.dns)
  {
    hide StringCost, EnumCost;
  }

  lemma PutStringCost(m: Msg, tag: nat, b: Bytes)
    ensures Cost(PutString(m, tag, b)) <= Cost(m) + 1 + VarintSize(|b|) + |b|
  {
    hide VarintSize, StringsCost, EnumsCost, PacketCost, DnsCost, PutString;
    PutStringKeeps(m, tag, b);
    if tag == DNS { DnsAppendCost(m.dns, b); } else { StringsCostPut(m, tag, b); }
  }

  lemma PutEnumCost(m: Msg, tag: nat, e: int32)
    ensures Cost(PutEnum(m, tag, e)) <= Cost(m) + EnumCost(e)
  {
    hide VarintSize, DnsFields, EncodePacket;
    var m' := PutEnum(m, tag, e);
    assert StringsCost(m') == StringsCost(m) && m'.packet == m.packet && m'.dns == m.dns;
    assert EnumsCost(m') <= EnumsCost(m) + EnumCost(e);
  }

  lemma ApplyCost(m: Msg, t: Token)
    ensures Cost(Apply(m, t).msg) <= Cost(m) + LeastSize(t.payload)
  {
    match t.payload
    case Opaque =>
    case Varint(v) =>
      EnumReadCost(v);
      PutEnumCost(m, t.tag, ToInt32(v));
    case Chunk(b) =>
      if IsStringTag(t.tag) || t.tag == DNS {
        PutStringCost(m, t.tag, b);
      } else if t.tag == PACKET {
        PacketReadCost(m.packet, b);
        var m' := Apply(m, t).msg;
        assert StringsCost(m') == StringsCost(m) && EnumsCost(m') == EnumsCost(m) && m'.dns == m.dns;
      }
  }

  lemma {:induction false} ParseCost(s: Bytes, m: Msg)
    requires ParseMessage(s, m).status == Complete
    ensures Cost(ParseMessage(s, m).msg) <= Cost(m) + |s|
    decreases |s|
  {
    match NextToken(s)
    case AtEnd =>
    case Next(t, rest) =>
      TokenSize(s);
      ApplyCost(m, t);
      ParseCost(rest, Apply(m, t).msg);
  }

  lemma EmptyWellFormed()
    ensures WellFormed(EMPTY)
  {
  }

  lemma EmptyCost()
    ensures Cost(EMPTY) == 0
  {
  }

  lemma {:induction false} DnsFits(dns: seq<Bytes>)
    ensures forall d <- dns :: |d| <= |DnsFields(dns)|
  {
    if dns != [] {
      var init, last := dns[..|dns| - 1], dns[|dns| - 1];
      DnsFits(init);
      assert forall d <- dns :: d in init || d == last;
    }
  }

  lemma PartsFit(m: Msg)
    ensures var n := |Encode(m)|;
            && |m.username| <= n && |m.password| <= n && |m.ip| <= n && |m.submask| <= n && |m.gateway| <= n
            && (forall d <- m.dns :: |d| <= n)
            && |EncodePacket(PacketOf(m))| <= n
  {
    hide StringCost, PacketCost, EnumFields, DnsFields, Encode, EncodePacket;
    EncodeSize(m);
    DnsFits(m.dns);
    PacketFits(m);
    StringFits(m.username);
    StringFits(m.password);
    StringFits(m.ip);
    StringFits(m.submask);
    StringFits(m.gateway);
  }

  lemma StringFits(v: Bytes)
    ensures |v| <= StringCost(v)
  {
  }

  lemma PacketFits(m: Msg)
    ensures |EncodePacket(PacketOf(m))| <= PacketCost(m.packet)
  {
  }

  /** In a message whose size fits an int, every part does. */
  lemma SendableFits(m: Msg)
    requires Sendable(m) && ValidStrings(m)
    ensures WellFormed(m)
  {
    hide ValidUtf8, Encode, EncodePacket;
    PartsFit(m);
  }

  /** A message survives the wire exactly when its strings are UTF-8 and its size fits an int. */
  lemma RoundTripExactly(m: Msg)
    ensures Parse(Encode(m)) == Outcome(Complete, m) <==> ValidStrings(m) && |Encode(m)| <= 0x7FFF_FFFF
  {
    EmptyWellFormed();
    hide Encode, ParseMessage, EncodePacket;
    if ValidStrings(m) && Sendable(m) {
      SendableFits(m);
      Codec.RoundTrip(m);
    }
    if Parse(Encode(m)) == Outcome(Complete, m) { ParseWellFormed(Encode(m), EMPTY); }
  }

  /** What was parsed re-encodes to at most 20 bytes more than the input, and unless that
      takes it past an int, the bytes parse back to it. */
  lemma ReencodingIsCanonical(s: Bytes)
    requires Parse(s).status == Complete
    ensures var m := Parse(s).msg;
            && WellFormed(m)
            && |Encode(m)| <= |s| + 20
            && (Parse(Encode(m)) == Outcome(Complete, m) <==> |Encode(m)| <= INT_MAX)
  {
    EmptyWellFormed();
    hide Encode, Cost, ParseMessage, WellFormed;
    ParseWellFormed(s, EMPTY);
    var m := Parse(s).msg;
    Codec.RoundTrip(m);
    ParseCost(s, EMPTY);
    EncodeWithinCost(m);
    EmptyCost();
  }

  // ------------------------------------------------------ the bound is reached

  lemma ParseShort(tag: byte, v: nat, y: Bytes, m: Msg)
    requires IsEnumTag(tag) && v == TWO_32 - 1
    ensures |[tag] + EncodeVarint(v)| == 6
    ensures ParseMessage([tag] + EncodeVarint(v) + y, m) == ParseMessage(y, PutEnum(m, tag, -1))
  {
    FiveBytes(v);
    assert ToInt32(v) == -1;
    Codec.NextVarint(tag, v, y);
  }

  /** The four enums, each holding -1 as the five-byte varint of its low 32 bits. */
  lemma TwentyBytesReached() returns (s: Bytes)
    ensures Parse(s).status == Complete && |Encode(Parse(s).msg)| == |s| + 20
  {
    var v: nat := TWO_32 - 1;
    var s4 := [LINK_ENCRYPT] + EncodeVarint(v) + [];
    var s3 := [PASSWORD_ENCRYPT] + EncodeVarint(v) + s4;
    var s2 := [MESSAGE_CODE] + EncodeVarint(v) + s3;
    s := [TYPE] + EncodeVarint(v) + s2;
    var m1 := EMPTY.(kind := -1);
    var m2 := m1.(code := -1);
    var m3 := m2.(passwordEncrypt := -1);
    var m4 := m3.(linkEncrypt := -1);
    ParseShort(TYPE, v, s2, EMPTY);
    ParseShort(MESSAGE_CODE, v, s3, m1);
    ParseShort(PASSWORD_ENCRYPT, v, s4, m2);
    ParseShort(LINK_ENCRYPT, v, [], m3);
    assert ParseMessage(s, EMPTY) == Outcome(Complete, m4);
    assert |s| == 24;
    MinusOneSize();
    EncodeSize(m4);
  }

  lemma MinusOneSize()
    ensures forall tag: byte :: |EnumField(tag, -1)| == 11
  {
    var v := SignExtend(-1);
    VarintSize64(v);
    assert VarintSize(v) >= 10 by { VarintSizeAtLeast(v, 9); }
  }

  lemma {:induction false} VarintSizeAtLeast(v: nat, k: nat)
    requires Pow128(k) <= v
    ensures VarintSize(v) > k
  {
    if k > 0 {
      assert Pow128(k) == 128 * Pow128(k - 1);
      VarintSizeAtLeast(v / 128, k - 1);
    }
  }
}
