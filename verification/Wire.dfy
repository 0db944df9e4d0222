/** Bytes, base 128 varints and records of the Protocol Buffers wire format. */
module Wire {

  datatype Option<+T> = None | Some(value: T)

  type byte = b: int | 0 <= b < 256
  type Bytes = seq<byte>
  type int32 = x: int | -0x8000_0000 <= x < 0x8000_0000

  const TWO_32: nat := 0x1_0000_0000
  const TWO_64: nat := 0x1_0000_0000_0000_0000
  const INT_MAX: nat := 0x7FFF_FFFF
  const MAX_VARINT_BYTES: nat := 10

  /** The outcome of a read primitive: a value and the unread bytes, or failure. */
  datatype Read<+T> = Bad | Good(value: T, rest: Bytes)

  lemma Associate(a: Bytes, b: Bytes, c: Bytes)
    ensures a + b + c == a + (b + c)
  {
  }

  // ---------------------------------------------------------------- varints

  function VarintSize(v: nat): (n: nat)
    ensures 1 <= n
  {
    if v < 128 then 1 else 1 + VarintSize(v / 128)
  }

  function EncodeVarint(v: nat): (s: Bytes)
    ensures |s| == VarintSize(v)
  {
    if v < 128 then [v] else [128 + v % 128] + EncodeVarint(v / 128)
  }

  /** Reads a varint of at most `k` bytes; the value is not yet truncated. */
  function ReadVarint(s: Bytes, k: nat): (r: Read<nat>)
    ensures r.Good? ==> |r.rest| < |s|
  {
    if k == 0 || s == [] then Bad
    else if s[0] < 128 then Good(s[0], s[1..])
    else match ReadVarint(s[1..], k - 1)
      case Bad => Bad
      case Good(v, rest) => Good(s[0] - 128 + 128 * v, rest)
  }

  function ReadVarint64(s: Bytes): (r: Read<nat>)
    ensures r.Good? ==> r.value < TWO_64 && |r.rest| < |s|
  {
    match ReadVarint(s, MAX_VARINT_BYTES)
    case Bad => Bad
    case Good(v, rest) => Good(v % TWO_64, rest)
  }

  function Pow128(k: nat): (p: nat)
    ensures p >= 1
  {
    if k == 0 then 1 else 128 * Pow128(k - 1)
  }

  lemma {:induction false} VarintSizeBound(v: nat, k: nat)
    requires k >= 1 && v < Pow128(k)
    ensures VarintSize(v) <= k
  {
    if v >= 128 {
      assert Pow128(k) == 128 * Pow128(k - 1);
      assert Pow128(0) == 1;
      VarintSizeBound(v / 128, k - 1);
    }
  }

  lemma VarintSize64(v: nat)
    ensures v < TWO_64 ==> VarintSize(v) <= 10
    ensures v < TWO_32 ==> VarintSize(v) <= 5
    ensures v < 128 ==> VarintSize(v) == 1
  {
    assert Pow128(5) == 34359738368;
    assert Pow128(10) == 1180591620717411303424;
    if v < TWO_64 { VarintSizeBound(v, 10); }
    if v < TWO_32 { VarintSizeBound(v, 5); }
  }

  lemma {:induction false} VarintSizeMonotone(v: nat, w: nat)
    requires v <= w
    ensures VarintSize(v) <= VarintSize(w)
  {
    if v >= 128 { VarintSizeMonotone(v / 128, w / 128); }
  }

  /** Decoding an encoded varint gives the value back and leaves what follows it. */
  lemma {:induction false} VarintRoundTrip(v: nat, y: Bytes, k: nat)
    requires VarintSize(v) <= k
    ensures ReadVarint(EncodeVarint(v) + y, k) == Good(v, y)
  {
    var s := EncodeVarint(v) + y;
    if v < 128 {
      assert s[1..] == y;
    } else {
      assert s[1..] == EncodeVarint(v / 128) + y;
      VarintRoundTrip(v / 128, y, k - 1);
    }
  }

  lemma Varint64RoundTrip(v: nat, y: Bytes)
    requires v < TWO_64
    ensures ReadVarint64(EncodeVarint(v) + y) == Good(v, y)
  {
    assert VarintSize(v) <= MAX_VARINT_BYTES by { VarintSize64(v); }
    VarintRoundTrip(v, y, MAX_VARINT_BYTES);
    var r := ReadVarint(EncodeVarint(v) + y, MAX_VARINT_BYTES);
    assert r == Good(v, y);
  }

  lemma {:induction false} VarintExtend(s: Bytes, y: Bytes, k: nat)
    requires ReadVarint(s, k).Good?
    ensures ReadVarint(s + y, k) == Good(ReadVarint(s, k).value, ReadVarint(s, k).rest + y)
  {
    assert (s + y)[1..] == s[1..] + y;
    if s[0] >= 128 { VarintExtend(s[1..], y, k - 1); }
  }

  /** No encoding of a value is shorter than the one the serializer writes. */
  lemma {:induction false} VarintMinimal(s: Bytes, k: nat)
    requires ReadVarint(s, k).Good?
    ensures VarintSize(ReadVarint(s, k).value) <= |s| - |ReadVarint(s, k).rest|
  {
    if s[0] >= 128 {
      VarintMinimal(s[1..], k - 1);
      var v := ReadVarint(s[1..], k - 1).value;
      var w := ReadVarint(s, k).value;
      assert w == s[0] - 128 + 128 * v && w / 128 == v;
    }
  }

  lemma Varint64Minimal(s: Bytes)
    requires ReadVarint64(s).Good?
    ensures VarintSize(ReadVarint64(s).value) <= |s| - |ReadVarint64(s).rest|
  {
    VarintMinimal(s, MAX_VARINT_BYTES);
    VarintSizeMonotone(ReadVarint64(s).value, ReadVarint(s, MAX_VARINT_BYTES).value);
  }

  // ------------------------------------------------- length-delimited records

  /** A length and that many bytes.  A length above INT_MAX or past the end fails. */
  function ReadDelimited(s: Bytes): (r: Read<Bytes>)
    ensures r.Good? ==>
              && |r.rest| < |s|
              && |r.value| <= INT_MAX && |r.value| + |r.rest| < |s|
  {
    match ReadVarint64(s)
    case Bad => Bad
    case Good(n, rest) =>
      if n > INT_MAX || n > |rest| then Bad else Good(rest[..n], rest[n..])
  }

  function EncodeDelimited(b: Bytes): (s: Bytes)
    ensures |s| == VarintSize(|b|) + |b|
  {
    EncodeVarint(|b|) + b
  }

  lemma DelimitedRoundTrip(b: Bytes, y: Bytes)
    requires |b| <= INT_MAX
    ensures ReadDelimited(EncodeDelimited(b) + y) == Good(b, y)
  {
    assert EncodeDelimited(b) + y == EncodeVarint(|b|) + (b + y);
    Varint64RoundTrip(|b|, b + y);
    assert (b + y)[..|b|] == b && (b + y)[|b|..] == y;
  }

  // ------------------------------------------------------------ tags, tokens

  /** What follows a tag: a varint, delimited bytes, or a value nobody looks at. */
  datatype Payload = Varint(v: nat) | Chunk(b: Bytes) | Opaque

  datatype Token = Token(tag: nat, payload: Payload) {
    function Number(): nat { tag / 8 }
  }

  /** One turn of a parse loop: the end of input, a tag of zero or an end-group tag,
      a field whose value cannot be read, or one complete field. */
  datatype Turn = AtEnd | Stop | Broken(tag: nat) | Next(token: Token, rest: Bytes)

  /** A tag that cannot be read counts as the tag zero. */
  function ReadTag(s: Bytes): (r: Read<nat>)
    ensures r.Good? ==> 0 < r.value < TWO_32 && |r.rest| < |s|
  {
    match ReadVarint64(s)
    case Bad => Bad
    case Good(v, rest) => if v % TWO_32 == 0 then Bad else Good(v % TWO_32, rest)
  }

  /** The value after a tag, by wire type alone; field number zero is refused. */
  function ReadPayload(tag: nat, s: Bytes): (r: Read<Payload>)
    ensures r.Good? ==> |r.rest| <= |s|
    decreases |s|, 1
  {
    if tag / 8 == 0 then Bad
    else if tag % 8 == 0 then
      match ReadVarint64(s) case Bad => Bad case Good(v, rest) => Good(Varint(v), rest)
    else if tag % 8 == 1 then if |s| < 8 then Bad else Good(Opaque, s[8..])
    else if tag % 8 == 2 then
      match ReadDelimited(s) case Bad => Bad case Good(b, rest) => Good(Chunk(b), rest)
    else if tag % 8 == 3 then SkipGroup(tag / 8, s)
    else if tag % 8 == 5 then if |s| < 4 then Bad else Good(Opaque, s[4..])
    else Bad
  }

  /** Skips fields up to the end-group tag of field `num`. */
  function SkipGroup(num: nat, s: Bytes): (r: Read<Payload>)
    ensures r.Good? ==> r.value == Opaque && |r.rest| < |s|
    decreases |s|, 0
  {
    match ReadTag(s)
    case Bad => Bad
    case Good(tag, rest) =>
      if tag % 8 == 4 then if tag / 8 == num then Good(Opaque, rest) else Bad
      else match ReadPayload(tag, rest)
        case Bad => Bad
        case Good(_, rest') => SkipGroup(num, rest')
  }

  function NextToken(s: Bytes): (t: Turn)
    ensures t.Next? ==> |t.rest| < |s|
    ensures t.AtEnd? <==> s == []
  {
    if s == [] then AtEnd
    else match ReadTag(s)
      case Bad => Stop
      case Good(tag, rest) =>
        if tag % 8 == 4 then Stop
        else match ReadPayload(tag, rest)
          case Bad => Broken(tag)
          case Good(p, rest') => Next(Token(tag, p), rest')
  }

  lemma TagExtend(s: Bytes, y: Bytes)
    requires ReadTag(s).Good?
    ensures ReadTag(s + y) == Good(ReadTag(s).value, ReadTag(s).rest + y)
  {
    VarintExtend(s, y, MAX_VARINT_BYTES);
  }

  lemma DelimitedExtend(s: Bytes, y: Bytes)
    requires ReadDelimited(s).Good?
    ensures ReadDelimited(s + y) == Good(ReadDelimited(s).value, ReadDelimited(s).rest + y)
  {
    VarintExtend(s, y, MAX_VARINT_BYTES);
    var n, rest := ReadVarint64(s).value, ReadVarint64(s).rest;
    assert (rest + y)[..n] == rest[..n] && (rest + y)[n..] == rest[n..] + y;
  }

  lemma {:induction false} PayloadExtend(tag: nat, s: Bytes, y: Bytes)
    requires ReadPayload(tag, s).Good?
    ensures ReadPayload(tag, s + y) == Good(ReadPayload(tag, s).value, ReadPayload(tag, s).rest + y)
    decreases |s|, 1
  {
    if tag % 8 == 0 { VarintExtend(s, y, MAX_VARINT_BYTES); }
    if tag % 8 == 1 { assert (s + y)[8..] == s[8..] + y; }
    if tag % 8 == 2 { DelimitedExtend(s, y); }
    if tag % 8 == 3 { GroupExtend(tag / 8, s, y); }
    if tag % 8 == 5 { assert (s + y)[4..] == s[4..] + y; }
  }

  lemma {:induction false} GroupExtend(num: nat, s: Bytes, y: Bytes)
    requires SkipGroup(num, s).Good?
    ensures SkipGroup(num, s + y) == Good(SkipGroup(num, s).value, SkipGroup(num, s).rest + y)
    decreases |s|, 0
  {
    TagExtend(s, y);
    var tag, rest := ReadTag(s).value, ReadTag(s).rest;
    if tag % 8 != 4 {
      PayloadExtend(tag, rest, y);
      GroupExtend(num, ReadPayload(tag, rest).rest, y);
    }
  }

  /** A complete field is read the same whatever follows it. */
  lemma TokenExtend(s: Bytes, y: Bytes)
    requires NextToken(s).Next?
    ensures NextToken(s + y) == Next(NextToken(s).token, NextToken(s).rest + y)
  {
    TagExtend(s, y);
    PayloadExtend(ReadTag(s).value, ReadTag(s).rest, y);
  }

  // What a read consumed, and that nothing past it was looked at.

  lemma {:induction false} VarintOwnBytes(s: Bytes, k: nat)
    requires ReadVarint(s, k).Good?
    ensures var r := ReadVarint(s, k); var f := s[..|s| - |r.rest|];
            s == f + r.rest && ReadVarint(f, k) == Good(r.value, [])
  {
    if s[0] >= 128 {
      VarintOwnBytes(s[1..], k - 1);
      var r := ReadVarint(s[1..], k - 1).rest;
      assert s[..|s| - |r|][1..] == s[1..][..|s| - 1 - |r|];
    }
  }

  lemma DelimitedOwnBytes(s: Bytes)
    requires ReadDelimited(s).Good?
    ensures var r := ReadDelimited(s); var f := s[..|s| - |r.rest|];
            s == f + r.rest && ReadDelimited(f) == Good(r.value, [])
  {
    hide ReadVarint;
    VarintOwnBytes(s, MAX_VARINT_BYTES);
    var n, rest := ReadVarint64(s).value, ReadVarint64(s).rest;
    var h := s[..|s| - |rest|];
    VarintExtend(h, rest[..n], MAX_VARINT_BYTES);
    assert s[..|s| - |rest[n..]|] == h + rest[..n];
    assert [] + rest[..n] == rest[..n] && rest[..n][..n] == rest[..n];
  }

  lemma {:induction false} PayloadOwnBytes(tag: nat, s: Bytes)
    requires ReadPayload(tag, s).Good?
    ensures var r := ReadPayload(tag, s); var f := s[..|s| - |r.rest|];
            s == f + r.rest && ReadPayload(tag, f) == Good(r.value, [])
    decreases |s|, 1
  {
    if tag % 8 == 0 { VarintOwnBytes(s, MAX_VARINT_BYTES); }
    if tag % 8 == 2 { DelimitedOwnBytes(s); }
    if tag % 8 == 3 { GroupOwnBytes(tag / 8, s); }
  }

  lemma FieldOwnBytes(tag: nat, s: Bytes)
    requires ReadTag(s).Good? && ReadTag(s).value == tag
    requires ReadPayload(tag, ReadTag(s).rest).Good?
    requires var r := ReadTag(s).rest; var r' := ReadPayload(tag, r).rest; var f := r[..|r| - |r'|];
             r == f + r' && ReadPayload(tag, f) == Good(ReadPayload(tag, r).value, [])
    ensures var r := ReadTag(s).rest; var r' := ReadPayload(tag, r).rest; var f := s[..|s| - |r'|];
            s == f + r' && ReadTag(f) == Good(tag, r[..|r| - |r'|])
  {
    hide ReadVarint, ReadPayload;
    VarintOwnBytes(s, MAX_VARINT_BYTES);
    var r := ReadTag(s).rest;
    var r' := ReadPayload(tag, r).rest;
    var h, g := s[..|s| - |r|], r[..|r| - |r'|];
    TagExtend(h, g);
    assert s[..|s| - |r'|] == h + g && [] + g == g;
  }

  lemma {:induction false} GroupOwnBytes(num: nat, s: Bytes)
    requires SkipGroup(num, s).Good?
    ensures var r := SkipGroup(num, s); var f := s[..|s| - |r.rest|];
            s == f + r.rest && SkipGroup(num, f) == Good(Opaque, [])
    decreases |s|, 0
  {
    var tag, rest := ReadTag(s).value, ReadTag(s).rest;
    if tag % 8 == 4 {
      VarintOwnBytes(s, MAX_VARINT_BYTES);
    } else {
      PayloadOwnBytes(tag, rest);
      FieldOwnBytes(tag, s);
      var rest' := ReadPayload(tag, rest).rest;
      GroupOwnBytes(num, rest');
      var last := SkipGroup(num, rest').rest;
      GroupSplit(num, s, rest', last);
    }
  }

  lemma GroupSplit(num: nat, s: Bytes, mid: Bytes, last: Bytes)
    requires |last| <= |mid| <= |s|
    requires var f := s[..|s| - |mid|]; s == f + mid && ReadTag(f).Good? && ReadTag(f).value % 8 != 4
                                        && ReadPayload(ReadTag(f).value, ReadTag(f).rest).Good?
                                        && ReadPayload(ReadTag(f).value, ReadTag(f).rest).rest == []
    requires var g := mid[..|mid| - |last|]; mid == g + last && SkipGroup(num, g) == Good(Opaque, [])
    ensures var h := s[..|s| - |last|]; s == h + last && SkipGroup(num, h) == Good(Opaque, [])
  {
    var f, g := s[..|s| - |mid|], mid[..|mid| - |last|];
    assert s[..|s| - |last|] == f + g;
    TagExtend(f, g);
    PayloadExtend(ReadTag(f).value, ReadTag(f).rest, g);
    assert [] + g == g;
  }

  /** A field is decided by its own bytes alone: nested groups and lengths included,
      nothing past its end is read. */
  lemma TokenOwnBytes(s: Bytes)
    requires NextToken(s).Next?
    ensures var t := NextToken(s); var f := s[..|s| - |t.rest|];
            s == f + t.rest && f != [] && NextToken(f) == Next(t.token, [])
  {
    PayloadOwnBytes(ReadTag(s).value, ReadTag(s).rest);
    FieldOwnBytes(ReadTag(s).value, s);
  }

  /** The least number of bytes a field with this payload can occupy. */
  function LeastSize(p: Payload): nat {
    match p
    case Varint(v) => 1 + VarintSize(v)
    case Chunk(b) => 1 + VarintSize(|b|) + |b|
    case Opaque => 0
  }

  lemma TokenSize(s: Bytes)
    requires NextToken(s).Next?
    ensures LeastSize(NextToken(s).token.payload) <= |s| - |NextToken(s).rest|
    ensures NextToken(s).token.payload.Chunk? ==> |NextToken(s).token.payload.b| <= INT_MAX
  {
    var tag, rest := ReadTag(s).value, ReadTag(s).rest;
    if tag % 8 == 0 || tag % 8 == 2 { Varint64Minimal(rest); }
  }

  /** The tags of this schema are one byte long. */
  lemma TagRoundTrip(tag: byte, y: Bytes)
    requires 0 < tag < 128
    ensures ReadTag([tag] + y) == Good(tag, y)
  {
    assert ([tag] + y)[1..] == y;
    assert ReadVarint([tag] + y, MAX_VARINT_BYTES) == Good(tag, y);
  }
}
