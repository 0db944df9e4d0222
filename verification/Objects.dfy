/** The message objects: fields updated in place, a nested packet, cached sizes. */
module Objects {
  import opened Wire
  import opened Utf8
  import opened Message
  import opened Stream
  import opened Output
  import Canonical

  /** A size is cached in an int and written back as an unsigned int. */
  function ToCachedSize(n: nat): int32 { ToInt32(n) }

  function CachedLength(e: int32): nat { if e < 0 then e + TWO_32 else e }

  lemma CachedSizeExact(n: nat)
    ensures CachedLength(ToCachedSize(n)) == n % TWO_32
    ensures CachedLength(ToCachedSize(n)) == n <==> n < TWO_32
  {
  }

  /** What a parse method reports: its result, and whether it ended at the limit. */
  ghost predicate Reports<M>(o: Outcome<M>, ok: bool, m: M, atEnd: bool, left: Bytes) {
    && m == o.msg
    && (ok <==> o.status != Failed)
    && (ok ==> (atEnd <==> o.status == Complete))
    && (o.status == Complete ==> left == [])
  }

  /** How one field of a message is stored: `s` is read after its tag, `left` is unread. */
  ghost predicate Stored(s: Bytes, m: Msg, tag: nat, ok: bool, m': Msg, left: Bytes) {
    match ReadPayload(tag, s)
    case Bad => !ok && m' == Touch(m, tag)
    case Good(p, rest) =>
      var o := Apply(m, Token(tag, p));
      m' == o.msg && (ok <==> o.status == Complete) && (ok ==> left == rest)
  }

  lemma StoredChunk(s: Bytes, m: Msg, tag: nat, m': Msg, left: Bytes)
    requires IsStringTag(tag) || tag == DNS || tag == PACKET
    ensures ReadDelimited(s).Bad? ==> (Stored(s, m, tag, false, m', left) <==> m' == Touch(m, tag))
    ensures ReadDelimited(s).Good? ==>
              ReadPayload(tag, s) == Good(Chunk(ReadDelimited(s).value), ReadDelimited(s).rest)
  {
  }

  lemma StoredNothing(s: Bytes, m: Msg, left: Bytes)
    requires ReadDelimited(s).Bad?
    ensures Stored(s, m, PACKET, false, Touch(m, PACKET), left)
  {
    StoredChunk(s, m, PACKET, Touch(m, PACKET), left);
  }

  lemma StoredPacket(s: Bytes, m: Msg, ok: bool, m': Msg, left: Bytes)
    requires ReadDelimited(s).Good?
    requires var inner := ParsePacket(ReadDelimited(s).value, PacketOf(m));
             m' == m.(packet := Some(inner.msg)) && (ok <==> inner.status == Complete)
    requires ok ==> left == ReadDelimited(s).rest
    ensures Stored(s, m, PACKET, ok, m', left)
  {
    StoredChunk(s, m, PACKET, m', left);
  }

  /** A field without a case changes nothing. */
  lemma StoredUnhandled(s: Bytes, m: Msg, tag: nat, ok: bool, left: Bytes)
    requires !IsStringTag(tag) && tag != DNS && !IsEnumTag(tag) && tag != PACKET
    requires ok <==> ReadPayload(tag, s).Good?
    requires ok ==> ReadPayload(tag, s).rest == left
    ensures Stored(s, m, tag, ok, m, left)
  {
  }

  class TunnelPacket {
    var packetdata: Bytes
    var cachedSize: int32

    ghost function Value(): Packet reads this { Packet(packetdata) }

    constructor ()
      ensures Value() == NO_DATA && cachedSize == 0
    {
      packetdata, cachedSize := [], 0;
    }

    constructor Copy(from: TunnelPacket)
      ensures Value() == from.Value() && cachedSize == 0
    {
      packetdata, cachedSize := from.packetdata, 0;
    }

    method MergeFrom(from: TunnelPacket)
      requires from != this
      modifies this`packetdata
      ensures Value() == MergePacket(old(Value()), from.Value())
    {
      if |from.packetdata| > 0 { packetdata := from.packetdata; }
    }

    method MergePartialFromCodedStream(input: CodedInputStream) returns (ok: bool)
      requires input.Valid()
      modifies this`packetdata, input`pos, input`legitimateEnd
      ensures input.Valid()
      ensures input.pos >= old(input.pos)
      ensures Reports(ParsePacket(old(input.Left()), old(Value())), ok, Value(), input.legitimateEnd, input.Left())
    {
      hide ParsePacket, ReadDelimited, Wire.ReadTag;
      ghost var o := ParsePacket(input.Left(), Value());
      while true
        invariant input.Valid() && input.pos >= old(input.pos)
        invariant ParsePacket(input.Left(), Value()) == o
        decreases input.limit - input.pos
      {
        PacketTurn(input.Left(), Value());
        var tag := input.ReadTag();
        if tag == 0 || tag % 8 == 4 { return true; }
        if tag == PACKET_DATA {
          var b;
          ok, b := input.ReadBytes();
          if ok { packetdata := b; }
        } else {
          ok := input.SkipField(tag);
        }
        if !ok { return; }
      }
    }

    method ByteSizeLong() returns (total: nat)
      modifies this`cachedSize
      ensures total == |EncodePacket(Value())| && cachedSize == ToCachedSize(total)
    {
      total := 0;
      if |packetdata| > 0 { total := total + 1 + VarintSize(|packetdata|) + |packetdata|; }
      cachedSize := ToCachedSize(total);
    }

    method SerializeWithCachedSizes(output: CodedOutputStream)
      modifies output
      ensures output.out == old(output.out) + EncodePacket(Value())
    {
      output.WriteString(PACKET_DATA, packetdata);
    }

    method SerializeWithCachedSizesToArray(target: array<byte>, at: nat) returns (end: nat)
      requires at + |EncodePacket(Value())| <= target.Length
      modifies target
      ensures end == at + |EncodePacket(Value())|
      ensures Wrote(target[..], old(target[..]), at, EncodePacket(Value()))
    {
      end := WriteStringToArray(PACKET_DATA, packetdata, target, at);
    }
  }

  class TunnelMessage {
    var username: Bytes
    var password: Bytes
    var ip: Bytes
    var submask: Bytes
    var gateway: Bytes
    var dns: seq<Bytes>
    var kind: int32
    var code: int32
    var passwordEncrypt: int32
    var linkEncrypt: int32
    var packet: TunnelPacket?
    var cachedSize: int32

    ghost function PacketValue(): Option<Packet>
      reads this, packet
    {
      if packet == null then None else Some(packet.Value())
    }

    ghost function Value(): Msg
      reads this, packet
    {
      Msg(username, password, ip, submask, gateway, dns, kind, code, passwordEncrypt, linkEncrypt, PacketValue())
    }

    /** The nested length a serializer would write now. */
    ghost function NestedLength(): nat
      reads this, packet
    {
      if packet == null then 0 else CachedLength(packet.cachedSize)
    }

    constructor ()
      ensures Value() == EMPTY && packet == null
    {
      username, password, ip, submask, gateway, dns := [], [], [], [], [], [];
      kind, code, passwordEncrypt, linkEncrypt := 0, 0, 0, 0;
      packet, cachedSize := null, 0;
    }

    constructor Copy(from: TunnelMessage)
      ensures Value() == from.Value()
      ensures packet != null ==> fresh(packet)
    {
      username, password, ip, submask := from.username, from.password, from.ip, from.submask;
      gateway, dns := from.gateway, from.dns;
      kind, code := from.kind, from.code;
      passwordEncrypt, linkEncrypt := from.passwordEncrypt, from.linkEncrypt;
      packet, cachedSize := null, 0;
      new;
      if from.packet != null { packet := new TunnelPacket.Copy(from.packet); }
    }

    method Clear()
      modifies this
      ensures Value() == EMPTY && packet == null && cachedSize == old(cachedSize)
    {
      dns, username, password, ip, submask, gateway := [], [], [], [], [], [];
      packet := null;
      kind, code, passwordEncrypt, linkEncrypt := 0, 0, 0, 0;
    }

    method MutablePacket() returns (p: TunnelPacket)
      modifies this`packet
      ensures packet == p && (p == old(packet) || (old(packet) == null && fresh(p)))
      ensures Value() == old(Value()).(packet := Some(PacketOf(old(Value()))))
    {
      if packet == null { packet := new TunnelPacket(); }
      p := packet;
    }

    method MergeStringsFrom(from: TunnelMessage)
      modifies this`username, this`password, this`ip, this`submask, this`gateway
      ensures username == MergeBytes(old(username), old(from.username))
      ensures password == MergeBytes(old(password), old(from.password))
      ensures ip == MergeBytes(old(ip), old(from.ip))
      ensures submask == MergeBytes(old(submask), old(from.submask))
      ensures gateway == MergeBytes(old(gateway), old(from.gateway))
    {
      if |from.username| > 0 { username := from.username; }
      if |from.password| > 0 { password := from.password; }
      if |from.ip| > 0 { ip := from.ip; }
      if |from.submask| > 0 { submask := from.submask; }
      if |from.gateway| > 0 { gateway := from.gateway; }
    }

    method MergeEnumsFrom(from: TunnelMessage)
      modifies this`kind, this`code, this`passwordEncrypt, this`linkEncrypt
      ensures kind == MergeEnum(old(kind), old(from.kind))
      ensures code == MergeEnum(old(code), old(from.code))
      ensures passwordEncrypt == MergeEnum(old(passwordEncrypt), old(from.passwordEncrypt))
      ensures linkEncrypt == MergeEnum(old(linkEncrypt), old(from.linkEncrypt))
    {
      if from.kind != 0 { kind := from.kind; }
      if from.code != 0 { code := from.code; }
      if from.passwordEncrypt != 0 { passwordEncrypt := from.passwordEncrypt; }
      if from.linkEncrypt != 0 { linkEncrypt := from.linkEncrypt; }
    }

    /** Merging never shares the source's packet and leaves the source as it was. */
    method MergeFrom(from: TunnelMessage)
      requires from != this && (packet != null ==> packet != from.packet)
      modifies this, packet
      ensures Value() == Merge(old(Value()), old(from.Value()))
      ensures from.Value() == old(from.Value())
      ensures packet == old(packet) || fresh(packet)
    {
      dns := dns + from.dns;
      MergeStringsFrom(from);
      if from.packet != null {
        var p := MutablePacket();
        p.MergeFrom(from.packet);
      }
      MergeEnumsFrom(from);
    }

    method CopyFrom(from: TunnelMessage)
      requires packet != null && from != this ==> packet != from.packet
      modifies this, packet
      ensures Value() == old(from.Value()) && from.Value() == old(from.Value())
      ensures from != this && packet != null ==> packet != from.packet
    {
      if from == this { return; }
      Clear();
      MergeFrom(from);
      assert [] + from.dns == from.dns;
    }

    // -------------------------------------------------------------- parsing

    method SetString(tag: nat, b: Bytes)
      requires IsStringTag(tag) || tag == DNS
      modifies this
      ensures packet == old(packet) && Value() == PutString(old(Value()), tag, b)
    {
      if tag == USERNAME { username := b; }
      else if tag == PASSWORD { password := b; }
      else if tag == IP { ip := b; }
      else if tag == SUBMASK { submask := b; }
      else if tag == GATEWAY { gateway := b; }
      else { dns := dns + [b]; }
    }

    method SetEnum(tag: nat, e: int32)
      modifies this
      ensures packet == old(packet) && Value() == PutEnum(old(Value()), tag, e)
    {
      if tag == TYPE { kind := e; }
      else if tag == MESSAGE_CODE { code := e; }
      else if tag == PASSWORD_ENCRYPT { passwordEncrypt := e; }
      else if tag == LINK_ENCRYPT { linkEncrypt := e; }
    }

    method ReadStringField(tag: nat, input: CodedInputStream) returns (ok: bool)
      requires input.Valid() && (IsStringTag(tag) || tag == DNS)
      modifies this, input`pos, input`legitimateEnd
      ensures input.Valid() && packet == old(packet) && input.pos >= old(input.pos)
      ensures Stored(old(input.Left()), old(Value()), tag, ok, Value(), input.Left())
    {
      hide ReadDelimited, ReadPayload, ValidUtf8;
      StoredChunk(input.Left(), Value(), tag, Touch(Value(), tag), []);
      var b;
      ok, b := input.ReadBytes();
      if ok {
        SetString(tag, b);
        ok := ValidUtf8(b);
      } else if tag == DNS {
        dns := dns + [[]];
      }
    }

    method ReadEnumField(tag: nat, input: CodedInputStream) returns (ok: bool)
      requires input.Valid() && IsEnumTag(tag)
      modifies this, input`pos, input`legitimateEnd
      ensures input.Valid() && packet == old(packet) && input.pos >= old(input.pos)
      ensures Stored(old(input.Left()), old(Value()), tag, ok, Value(), input.Left())
    {
      hide Wire.ReadVarint64;
      var v;
      ok, v := input.ReadVarint64();
      if ok { SetEnum(tag, ToInt32(v)); }
    }

    /** The nested parse runs under a limit of the declared length. */
    method ReadPacketField(input: CodedInputStream) returns (ok: bool)
      requires input.Valid()
      modifies this, packet, input`pos, input`limit, input`legitimateEnd
      ensures input.Valid() && input.limit == old(input.limit) && input.pos >= old(input.pos)
      ensures packet == old(packet) || fresh(packet)
      ensures Stored(old(input.Left()), old(Value()), PACKET, ok, Value(), input.Left())
    {
      hide ParsePacket, ReadPayload, Wire.ReadVarint64, Stored;
      ghost var s, m := input.Left(), Value();
      var p := MutablePacket();
      var n;
      ok, n := input.ReadVarint64();
      if !ok || n > INT_MAX || n > input.limit - input.pos {
        StoredNothing(s, m, input.Left());
        return false;
      }
      ghost var rest := input.Left();
      var outer := input.PushLimit(n);
      ok := p.MergePartialFromCodedStream(input);
      ok := ok && input.legitimateEnd;
      assert ok ==> input.Left() == [];
      input.PopLimit(outer);
      assert ok ==> input.Left() == rest[n..];
      StoredPacket(s, m, ok, Value(), input.Left());
    }

    /** The cases of the parse loop. */
    method ReadField(tag: nat, input: CodedInputStream) returns (ok: bool)
      requires input.Valid()
      modifies this, packet, input`pos, input`limit, input`legitimateEnd
      ensures input.Valid() && input.limit == old(input.limit) && input.pos >= old(input.pos)
      ensures packet == old(packet) || fresh(packet)
      ensures Stored(old(input.Left()), old(Value()), tag, ok, Value(), input.Left())
    {
      hide Stored, ReadPayload;
      if IsStringTag(tag) || tag == DNS {
        ok := ReadStringField(tag, input);
      } else if IsEnumTag(tag) {
        ok := ReadEnumField(tag, input);
      } else if tag == PACKET {
        ok := ReadPacketField(input);
      } else {
        ghost var s := input.Left();
        ok := input.SkipField(tag);
        StoredUnhandled(s, Value(), tag, ok, input.Left());
      }
    }

    method MergePartialFromCodedStream(input: CodedInputStream) returns (ok: bool)
      requires input.Valid()
      modifies this, packet, input`pos, input`limit, input`legitimateEnd
      ensures input.Valid() && input.limit == old(input.limit)
      ensures packet == old(packet) || fresh(packet)
      ensures Reports(ParseMessage(old(input.Left()), old(Value())), ok, Value(), input.legitimateEnd, input.Left())
    {
      hide ParseMessage, ReadPayload, Wire.ReadTag, Apply, Touch;
      ghost var o := ParseMessage(input.Left(), Value());
      while true
        invariant input.Valid() && input.limit == old(input.limit)
        invariant packet == old(packet) || fresh(packet)
        invariant ParseMessage(input.Left(), Value()) == o
        decreases input.limit - input.pos
      {
        MessageTurn(input.Left(), Value());
        var tag := input.ReadTag();
        if tag == 0 || tag % 8 == 4 { return true; }
        ok := ReadField(tag, input);
        if !ok { return; }
      }
    }

    /** Clears the message and parses the whole buffer; fails unless it ends properly. */
    method ParseFromArray(data: Bytes) returns (ok: bool)
      modifies this
      ensures Value() == Parse(data).msg && (ok <==> Parse(data).status == Complete)
      ensures packet != null ==> fresh(packet)
    {
      Clear();
      if |data| > INT_MAX { return false; }
      var input := new CodedInputStream(data);
      ok := MergePartialFromCodedStream(input);
      ok := ok && input.legitimateEnd;
    }

    // ---------------------------------------------------- size and serializing

    method ByteSizeLong() returns (total: nat)
      modifies this, packet
      ensures Value() == old(Value()) && packet == old(packet)
      ensures total == |Encode(Value())| && cachedSize == ToCachedSize(total)
      ensures packet != null ==> packet.cachedSize == ToCachedSize(|EncodePacket(packet.Value())|)
    {
      total := DnsSize();
      var n := StringsSize();
      total := total + n;
      if packet != null {
        n := packet.ByteSizeLong();
        total := total + 1 + VarintSize(n) + n;
      }
      n := EnumsSize();
      total := total + n;
      cachedSize := ToCachedSize(total);
      Canonical.EncodeSize(Value());
    }

    method DnsSize() returns (total: nat)
      ensures total == Canonical.DnsCost(dns)
    {
      total := |dns|;
      var i := 0;
      while i < |dns|
        invariant i <= |dns| && total == |dns| - i + Canonical.DnsCost(dns[..i])
      {
        assert dns[..i + 1] == dns[..i] + [dns[i]];
        Canonical.DnsAppendCost(dns[..i], dns[i]);
        total := total + VarintSize(|dns[i]|) + |dns[i]|;
        i := i + 1;
      }
      assert dns[..|dns|] == dns;
    }

    method StringsSize() returns (total: nat)
      ensures total == Canonical.StringsCost(Value())
    {
      hide VarintSize;
      total := 0;
      if |username| > 0 { total := total + 1 + VarintSize(|username|) + |username|; }
      if |password| > 0 { total := total + 1 + VarintSize(|password|) + |password|; }
      if |ip| > 0 { total := total + 1 + VarintSize(|ip|) + |ip|; }
      if |submask| > 0 { total := total + 1 + VarintSize(|submask|) + |submask|; }
      if |gateway| > 0 { total := total + 1 + VarintSize(|gateway|) + |gateway|; }
    }

    method EnumsSize() returns (total: nat)
      ensures total == |EnumFields(Value())|
    {
      hide VarintSize;
      total := 0;
      if kind != 0 { total := total + 1 + VarintSize(SignExtend(kind)); }
      if code != 0 { total := total + 1 + VarintSize(SignExtend(code)); }
      if passwordEncrypt != 0 { total := total + 1 + VarintSize(SignExtend(passwordEncrypt)); }
      if linkEncrypt != 0 { total := total + 1 + VarintSize(SignExtend(linkEncrypt)); }
    }

    method WriteStrings(output: CodedOutputStream)
      modifies output
      ensures output.out == old(output.out) + StringFields(Value())
    {
      hide StringField;
      output.WriteString(USERNAME, username);
      output.WriteString(PASSWORD, password);
      output.WriteString(IP, ip);
      output.WriteString(SUBMASK, submask);
      output.WriteString(GATEWAY, gateway);
    }

    method WriteDns(output: CodedOutputStream)
      modifies output
      ensures output.out == old(output.out) + DnsFields(dns)
    {
      var i := 0;
      while i < |dns|
        invariant i <= |dns| && output.out == old(output.out) + DnsFields(dns[..i])
      {
        assert dns[..i + 1][..i] == dns[..i];
        output.WriteDelimited(DNS, dns[i]);
        i := i + 1;
      }
      assert dns[..|dns|] == dns;
    }

    method WriteEnums(output: CodedOutputStream)
      modifies output
      ensures output.out == old(output.out) + EnumFields(Value())
    {
      hide EnumField;
      output.WriteEnum(TYPE, kind);
      output.WriteEnum(MESSAGE_CODE, code);
      output.WriteEnum(PASSWORD_ENCRYPT, passwordEncrypt);
      output.WriteEnum(LINK_ENCRYPT, linkEncrypt);
    }

    method WritePacket(output: CodedOutputStream)
      modifies output
      ensures output.out == old(output.out) + PacketField(PacketValue(), NestedLength())
    {
      hide EncodeVarint, EncodePacket;
      if packet != null {
        ghost var n, w := EncodeVarint(NestedLength()), EncodePacket(packet.Value());
        Associate(output.out, [PACKET] + n, w);
        Associate(output.out, [PACKET], n);
        output.out := output.out + [PACKET];
        output.WriteVarint(CachedLength(packet.cachedSize));
        packet.SerializeWithCachedSizes(output);
      }
    }

    /** Both serializers write the nested length they find cached. */
    method SerializeWithCachedSizes(output: CodedOutputStream)
      modifies output
      ensures output.out == old(output.out) + EncodeCached(Value(), NestedLength())
    {
      hide StringFields, DnsFields, EnumFields, PacketField;
      WriteStrings(output);
      WriteDns(output);
      WriteEnums(output);
      WritePacket(output);
    }

    method WriteStringsToArray(target: array<byte>, at: nat) returns (end: nat)
      requires at + |StringFields(Value())| <= target.Length
      modifies target
      ensures end == at + |StringFields(Value())|
      ensures Wrote(target[..], old(target[..]), at, StringFields(Value()))
    {
      ghost var a, b, c := StringField(USERNAME, username), StringField(PASSWORD, password), StringField(IP, ip);
      ghost var d, e := StringField(SUBMASK, submask), StringField(GATEWAY, gateway);
      ghost var was := target[..];
      StringFieldsSize(Value());
      assert StringFields(Value()) == a + b + c + d + e && at + |a| + |b| + |c| + |d| + |e| <= target.Length;
      hide *;
      end := WriteStringToArray(USERNAME, username, target, at);
      end := WriteStringNext(PASSWORD, password, target, end, was, at, a);
      end := WriteStringNext(IP, ip, target, end, was, at, a + b);
      end := WriteStringNext(SUBMASK, submask, target, end, was, at, a + b + c);
      end := WriteStringNext(GATEWAY, gateway, target, end, was, at, a + b + c + d);
    }

    method WriteDnsToArray(target: array<byte>, at: nat) returns (end: nat)
      requires at + |DnsFields(dns)| <= target.Length
      modifies target
      ensures end == at + |DnsFields(dns)|
      ensures Wrote(target[..], old(target[..]), at, DnsFields(dns))
    {
      ghost var s0 := target[..];
      WroteNothing(s0, at);
      assert DnsFields(dns[..0]) == [];
      hide *;
      var i := 0;
      end := at;
      while i < |dns|
        invariant i <= |dns| && end == at + |DnsFields(dns[..i])|
        invariant Wrote(target[..], s0, at, DnsFields(dns[..i]))
      {
        ghost var s1 := target[..];
        DnsEntryFits(dns, i);
        DnsFieldsSnoc(dns, i);
        end := WriteDelimitedToArray(DNS, dns[i], target, end);
        WroteThen(target[..], s1, s0, at, DnsFields(dns[..i]), DelimitedField(DNS, dns[i]));
        i := i + 1;
      }
      assert dns[..|dns|] == dns;
    }

    method WriteEnumsToArray(target: array<byte>, at: nat) returns (end: nat)
      requires at + |EnumFields(Value())| <= target.Length
      modifies target
      ensures end == at + |EnumFields(Value())|
      ensures Wrote(target[..], old(target[..]), at, EnumFields(Value()))
    {
      ghost var a, b := EnumField(TYPE, kind), EnumField(MESSAGE_CODE, code);
      ghost var c, d := EnumField(PASSWORD_ENCRYPT, passwordEncrypt), EnumField(LINK_ENCRYPT, linkEncrypt);
      ghost var was := target[..];
      EnumFieldsSize(Value());
      assert EnumFields(Value()) == a + b + c + d && at + |a| + |b| + |c| + |d| <= target.Length;
      hide *;
      end := WriteEnumToArray(TYPE, kind, target, at);
      end := WriteEnumNext(MESSAGE_CODE, code, target, end, was, at, a);
      end := WriteEnumNext(PASSWORD_ENCRYPT, passwordEncrypt, target, end, was, at, a + b);
      end := WriteEnumNext(LINK_ENCRYPT, linkEncrypt, target, end, was, at, a + b + c);
    }

    method WritePacketToArray(target: array<byte>, at: nat) returns (end: nat)
      requires at + |PacketField(PacketValue(), NestedLength())| <= target.Length
      modifies target
      ensures end == at + |PacketField(PacketValue(), NestedLength())|
      ensures Wrote(target[..], old(target[..]), at, PacketField(PacketValue(), NestedLength()))
    {
      hide EncodeVarint, VarintSize, EncodePacket, Wrote, StringField;
      WroteNothing(target[..], at);
      end := at;
      if packet != null {
        ghost var n, s0 := NestedLength(), target[..];
        end := WriteByteToArray(PACKET, target, at);
        ghost var s1 := target[..];
        end := WriteVarintToArray(CachedLength(packet.cachedSize), target, end);
        ghost var s2 := target[..];
        WroteThen(s2, s1, s0, at, [PACKET], EncodeVarint(n));
        end := packet.SerializeWithCachedSizesToArray(target, end);
        WroteThen(target[..], s2, s0, at, [PACKET] + EncodeVarint(n), EncodePacket(packet.Value()));
      }
    }

    method WriteDnsNext(target: array<byte>, at: nat, ghost was: Bytes, ghost start: nat, ghost done: Bytes) returns (end: nat)
      requires Wrote(target[..], was, start, done) && at == start + |done|
      requires at + |DnsFields(dns)| <= target.Length
      modifies target
      ensures end == start + |done + DnsFields(dns)|
      ensures Wrote(target[..], was, start, done + DnsFields(dns))
    {
      hide *;
      ghost var now := target[..];
      end := WriteDnsToArray(target, at);
      WroteThen(target[..], now, was, start, done, DnsFields(dns));
    }

    method WriteEnumsNext(target: array<byte>, at: nat, ghost was: Bytes, ghost start: nat, ghost done: Bytes) returns (end: nat)
      requires Wrote(target[..], was, start, done) && at == start + |done|
      requires at + |EnumFields(Value())| <= target.Length
      modifies target
      ensures end == start + |done + EnumFields(Value())|
      ensures Wrote(target[..], was, start, done + EnumFields(Value()))
    {
      hide *;
      ghost var now := target[..];
      end := WriteEnumsToArray(target, at);
      WroteThen(target[..], now, was, start, done, EnumFields(Value()));
    }

    method WritePacketNext(target: array<byte>, at: nat, ghost was: Bytes, ghost start: nat, ghost done: Bytes) returns (end: nat)
      requires Wrote(target[..], was, start, done) && at == start + |done|
      requires at + |PacketField(PacketValue(), NestedLength())| <= target.Length
      modifies target
      ensures end == start + |done + PacketField(PacketValue(), NestedLength())|
      ensures Wrote(target[..], was, start, done + PacketField(PacketValue(), NestedLength()))
    {
      hide *;
      ghost var now := target[..];
      end := WritePacketToArray(target, at);
      WroteThen(target[..], now, was, start, done, PacketField(PacketValue(), NestedLength()));
    }

    method SerializeWithCachedSizesToArray(target: array<byte>, at: nat) returns (end: nat)
      requires at + |EncodeCached(Value(), NestedLength())| <= target.Length
      modifies target
      ensures end == at + |EncodeCached(Value(), NestedLength())|
      ensures Wrote(target[..], old(target[..]), at, EncodeCached(Value(), NestedLength()))
    {
      ghost var m, n := Value(), NestedLength();
      ghost var a, b, c, d := StringFields(m), DnsFields(dns), EnumFields(m), PacketField(PacketValue(), n);
      ghost var was := target[..];
      EncodeCachedSize(m, n);
      hide StringFields, DnsFields, EnumFields, PacketField;
      assert EncodeCached(m, n) == a + b + c + d && at + |a| + |b| + |c| + |d| <= target.Length;
      hide *;
      end := WriteStringsToArray(target, at);
      end := WriteDnsNext(target, end, was, at, a);
      end := WriteEnumsNext(target, end, was, at, a + b);
      end := WritePacketNext(target, end, was, at, a + b + c);
    }

    /** Size, allocate, fill: the array is exactly full and holds the encoding. */
    method Serialize() returns (buffer: array<byte>)
      requires |EncodePacket(PacketOf(Value()))| < TWO_32
      modifies this, packet
      ensures fresh(buffer) && buffer[..] == Encode(Value())
      ensures Value() == old(Value()) && packet == old(packet)
    {
      hide EncodePacket, StringFields, DnsFields, EnumFields, EncodeVarint;
      var n := ByteSizeLong();
      CachedSizeExact(|EncodePacket(PacketOf(Value()))|);
      assert EncodeCached(Value(), NestedLength()) == Encode(Value());
      buffer := new byte[n];
      var end := SerializeWithCachedSizesToArray(buffer, 0);
    }
  }

  lemma DnsFieldsSnoc(dns: seq<Bytes>, i: nat)
    requires i < |dns|
    ensures DnsFields(dns[..i + 1]) == DnsFields(dns[..i]) + DelimitedField(DNS, dns[i])
  {
    assert dns[..i + 1][..i] == dns[..i];
  }

  lemma {:induction false} DnsEntryFits(dns: seq<Bytes>, i: nat)
    requires i < |dns|
    ensures |DnsFields(dns[..i])| + |DelimitedField(DNS, dns[i])| <= |DnsFields(dns)|
    decreases |dns|
  {
    if i < |dns| - 1 {
      var init := dns[..|dns| - 1];
      DnsEntryFits(init, i);
      assert init[..i] == dns[..i];
    }
  }

  /** The encoding is the right one exactly when the cached nested size is the true size. */
  lemma StaleCacheShows(m: Msg, cached: nat)
    requires cached < TWO_32 && |EncodePacket(PacketOf(m))| < TWO_32
    ensures EncodeCached(m, cached) == Encode(m) <==>
            (m.packet.Some? ==> cached == |EncodePacket(PacketOf(m))|)
  {
    hide EncodeVarint, EncodePacket, StringFields, DnsFields, EnumFields;
    if m.packet.Some? && EncodeCached(m, cached) == Encode(m) {
      var w := EncodePacket(PacketOf(m));
      var head := StringFields(m) + DnsFields(m.dns) + EnumFields(m);
      var a, b := [PACKET] + EncodeVarint(cached) + w, [PACKET] + EncodeVarint(|w|) + w;
      assert (head + a)[|head|..] == a && (head + b)[|head|..] == b;
      assert a[1..] == EncodeVarint(cached) + w && b[1..] == EncodeVarint(|w|) + w;
      Varint64RoundTrip(cached, w);
      Varint64RoundTrip(|w|, w);
    }
  }
}
