/** The two ways the serializers write: into an array, and onto a stream. */
module Output {
  import opened Wire
  import opened Message

  /** `now` is `was` with `b` written at `at`; every other byte is as it was. */
  ghost predicate Wrote(now: Bytes, was: Bytes, at: nat, b: Bytes) {
    at + |b| <= |was| && now == was[..at] + b + was[at + |b|..]
  }

  lemma WroteThen(s2: Bytes, s1: Bytes, s0: Bytes, at: nat, a: Bytes, b: Bytes)
    requires Wrote(s1, s0, at, a) && Wrote(s2, s1, at + |a|, b)
    ensures Wrote(s2, s0, at, a + b)
  {
    assert s1[..at + |a|] == s0[..at] + a;
    assert s1[at + |a| + |b|..] == s0[at + |a| + |b|..];
    assert s0[..at] + a + b + s0[at + |a| + |b|..] == s0[..at] + (a + b) + s0[at + |a + b|..];
  }

  lemma WroteNothing(s: Bytes, at: nat)
    requires at <= |s|
    ensures Wrote(s, s, at, [])
  {
  }

  lemma StringFieldsSize(m: Msg)
    ensures |StringFields(m)| == |StringField(USERNAME, m.username)| + |StringField(PASSWORD, m.password)|
                                 + |StringField(IP, m.ip)| + |StringField(SUBMASK, m.submask)|
                                 + |StringField(GATEWAY, m.gateway)|
  {
    hide StringField;
  }

  lemma EnumFieldsSize(m: Msg)
    ensures |EnumFields(m)| == |EnumField(TYPE, m.kind)| + |EnumField(MESSAGE_CODE, m.code)|
                               + |EnumField(PASSWORD_ENCRYPT, m.passwordEncrypt)| + |EnumField(LINK_ENCRYPT, m.linkEncrypt)|
  {
    hide EnumField;
  }

  lemma EncodeCachedSize(m: Msg, n: nat)
    ensures |EncodeCached(m, n)| == |StringFields(m)| + |DnsFields(m.dns)| + |EnumFields(m)| + |PacketField(m.packet, n)|
  {
    hide StringFields, DnsFields, EnumFields, PacketField;
  }

  method WriteByteToArray(b: byte, target: array<byte>, at: nat) returns (end: nat)
    requires at < target.Length
    modifies target
    ensures end == at + 1 && Wrote(target[..], old(target[..]), at, [b])
  {
    target[at] := b;
    end := at + 1;
  }

  method WriteVarintToArray(value: nat, target: array<byte>, at: nat) returns (end: nat)
    requires at + VarintSize(value) <= target.Length
    modifies target
    ensures end == at + VarintSize(value) && Wrote(target[..], old(target[..]), at, EncodeVarint(value))
  {
    var v := value;
    end := at;
    ghost var done: Bytes := [];
    ghost var was := target[..];
    while v >= 128
      invariant end == at + |done| && end + VarintSize(v) == at + VarintSize(value)
      invariant EncodeVarint(value) == done + EncodeVarint(v)
      invariant Wrote(target[..], was, at, done)
    {
      ghost var now := target[..];
      var b: byte := 128 + v % 128;
      assert EncodeVarint(v) == [b] + EncodeVarint(v / 128);
      assert done + EncodeVarint(v) == (done + [b]) + EncodeVarint(v / 128);
      end := WriteByteToArray(b, target, end);
      WroteThen(target[..], now, was, at, done, [b]);
      done := done + [b];
      v := v / 128;
    }
    ghost var now := target[..];
    end := WriteByteToArray(v, target, end);
    WroteThen(target[..], now, was, at, done, [v]);
  }

  method WriteRawToArray(b: Bytes, target: array<byte>, at: nat) returns (end: nat)
    requires at + |b| <= target.Length
    modifies target
    ensures end == at + |b| && Wrote(target[..], old(target[..]), at, b)
  {
    forall i | 0 <= i < |b| {
      target[at + i] := b[i];
    }
    end := at + |b|;
  }

  method WriteDelimitedToArray(tag: byte, b: Bytes, target: array<byte>, at: nat) returns (end: nat)
    requires at + |DelimitedField(tag, b)| <= target.Length
    modifies target
    ensures end == at + |DelimitedField(tag, b)|
    ensures Wrote(target[..], old(target[..]), at, DelimitedField(tag, b))
  {
    hide EncodeVarint, VarintSize, Wrote;
    ghost var s0 := target[..];
    end := WriteByteToArray(tag, target, at);
    ghost var s1 := target[..];
    end := WriteVarintToArray(|b|, target, end);
    ghost var s2 := target[..];
    end := WriteRawToArray(b, target, end);
    WroteThen(target[..], s2, s1, at + 1, EncodeVarint(|b|), b);
    WroteThen(target[..], s1, s0, at, [tag], EncodeVarint(|b|) + b);
  }

  method WriteStringToArray(tag: byte, b: Bytes, target: array<byte>, at: nat) returns (end: nat)
    requires at + |StringField(tag, b)| <= target.Length
    modifies target
    ensures end == at + |StringField(tag, b)|
    ensures Wrote(target[..], old(target[..]), at, StringField(tag, b))
  {
    end := at;
    if |b| > 0 { end := WriteDelimitedToArray(tag, b, target, at); }
  }

  method WriteEnumToArray(tag: byte, e: int32, target: array<byte>, at: nat) returns (end: nat)
    requires at + |EnumField(tag, e)| <= target.Length
    modifies target
    ensures end == at + |EnumField(tag, e)|
    ensures Wrote(target[..], old(target[..]), at, EnumField(tag, e))
  {
    end := at;
    if e != 0 {
      hide EncodeVarint, VarintSize, Wrote, SignExtend;
      ghost var s0 := target[..];
      end := WriteByteToArray(tag, target, at);
      ghost var s1 := target[..];
      end := WriteVarintToArray(SignExtend(e), target, end);
      WroteThen(target[..], s1, s0, at, [tag], EncodeVarint(SignExtend(e)));
    }
  }

  // The same after `done` was written from `start` on, where the array held `was`.

  method WriteStringNext(tag: byte, b: Bytes, target: array<byte>, at: nat, ghost was: Bytes, ghost start: nat, ghost done: Bytes)
    returns (end: nat)
    requires Wrote(target[..], was, start, done) && at == start + |done|
    requires at + |StringField(tag, b)| <= target.Length
    modifies target
    ensures end == start + |done + StringField(tag, b)|
    ensures Wrote(target[..], was, start, done + StringField(tag, b))
  {
    hide *;
    ghost var now := target[..];
    end := WriteStringToArray(tag, b, target, at);
    WroteThen(target[..], now, was, start, done, StringField(tag, b));
  }

  method WriteEnumNext(tag: byte, e: int32, target: array<byte>, at: nat, ghost was: Bytes, ghost start: nat, ghost done: Bytes)
    returns (end: nat)
    requires Wrote(target[..], was, start, done) && at == start + |done|
    requires at + |EnumField(tag, e)| <= target.Length
    modifies target
    ensures end == start + |done + EnumField(tag, e)|
    ensures Wrote(target[..], was, start, done + EnumField(tag, e))
  {
    hide *;
    ghost var now := target[..];
    end := WriteEnumToArray(tag, e, target, at);
    WroteThen(target[..], now, was, start, done, EnumField(tag, e));
  }

  class CodedOutputStream {
    var out: Bytes

    constructor ()
      ensures out == []
    {
      out := [];
    }

    method WriteVarint(value: nat)
      modifies this
      ensures out == old(out) + EncodeVarint(value)
    {
      var v := value;
      while v >= 128
        invariant old(out) + EncodeVarint(value) == out + EncodeVarint(v)
      {
        assert out + EncodeVarint(v) == (out + [128 + v % 128]) + EncodeVarint(v / 128);
        out := out + [128 + v % 128];
        v := v / 128;
      }
      out := out + [v];
    }

    method WriteDelimited(tag: byte, b: Bytes)
      modifies this
      ensures out == old(out) + DelimitedField(tag, b)
    {
      hide EncodeVarint;
      Associate(out, [tag], EncodeVarint(|b|) + b);
      Associate(out + [tag], EncodeVarint(|b|), b);
      out := out + [tag];
      WriteVarint(|b|);
      out := out + b;
    }

    method WriteString(tag: byte, b: Bytes)
      modifies this
      ensures out == old(out) + StringField(tag, b)
    {
      if |b| > 0 { WriteDelimited(tag, b); }
    }

    method WriteEnum(tag: byte, e: int32)
      modifies this
      ensures out == old(out) + EnumField(tag, e)
    {
      hide EncodeVarint, SignExtend;
      if e != 0 {
        Associate(out, [tag], EncodeVarint(SignExtend(e)));
        out := out + [tag];
        WriteVarint(SignExtend(e));
      }
    }
  }
}
