/** The wire format byte by byte: what the primitives read, in numbers. */
module Format {
  import opened Wire
  import opened Fields

  // ---------------------------------------------------------------- varints

  /** The low seven bits of the first `n` bytes, least significant group first. */
  function Groups(s: Bytes, n: nat): nat
    requires n <= |s|
  {
    if n == 0 then 0 else Groups(s, n - 1) + s[n - 1] % 128 * Pow128(n - 1)
  }

  /** The first `n` bytes all say that more follows. */
  predicate Continued(s: Bytes, n: nat) {
    n <= |s| && forall i | 0 <= i < n :: s[i] >= 128
  }

  lemma {:induction false} GroupsCons(b: byte, s: Bytes, n: nat)
    requires n <= |s|
    ensures Groups([b] + s, n + 1) == b % 128 + 128 * Groups(s, n)
  {
    if n == 0 {
      assert Groups([b] + s, 0) == 0 && Pow128(0) == 1;
    } else {
      GroupsCons(b, s, n - 1);
      assert ([b] + s)[n] == s[n - 1] && Pow128(n) == 128 * Pow128(n - 1);
      var c, p := s[n - 1] % 128, Pow128(n - 1);
      assert c * (128 * p) == 128 * (c * p);
    }
  }

  lemma {:induction false} VarintReads(s: Bytes, k: nat, n: nat)
    requires Continued(s, n) && (n < |s| ==> s[n] < 128)
    ensures ReadVarint(s, k) == if n < k && n < |s| then Good(Groups(s, n + 1), s[n + 1..]) else Bad
    decreases n
  {
    hide Groups, Pow128;
    if n == 0 {
      if s != [] { GroupsOne(s); }
    } else if k > 0 {
      var r := s[1..];
      assert s == [s[0]] + r;
      VarintReads(r, k - 1, n - 1);
      if n < |s| {
        assert r[n..] == s[n + 1..];
        GroupsCons(s[0], r, n);
      }
    }
  }

  lemma GroupsOne(s: Bytes)
    requires s != []
    ensures Groups(s, 1) == s[0] % 128
  {
    assert Groups(s, 0) == 0 && Pow128(0) == 1;
  }

  /** A varint is seven bits a byte, least significant first, up to the first byte below 128,
      which is one of the first ten; it counts modulo 2^64. */
  lemma VarintMeaning(s: Bytes, n: nat)
    requires Continued(s, n) && (n < |s| ==> s[n] < 128)
    ensures ReadVarint64(s) ==
            if n < 10 && n < |s| then Good(Groups(s, n + 1) % 0x1_0000_0000_0000_0000, s[n + 1..]) else Bad
  {
    VarintReads(s, 10, n);
  }

  // -------------------------------------------------------- tags and lengths

  /** A tag is a varint modulo 2^32; zero is none. */
  lemma TagMeaning(n: nat, y: Bytes)
    requires n < 0x1_0000_0000_0000_0000
    ensures ReadTag(EncodeVarint(n) + y) ==
            if n % 0x1_0000_0000 == 0 then Bad else Good(n % 0x1_0000_0000, y)
  {
    hide ReadVarint64, EncodeVarint;
    Varint64RoundTrip(n, y);
  }

  /** A length is read exactly if it fits an int and its bytes are there. */
  lemma LengthMeaning(n: nat, x: Bytes)
    requires n < 0x1_0000_0000_0000_0000
    ensures ReadDelimited(EncodeVarint(n) + x) ==
            if n <= 0x7FFF_FFFF && n <= |x| then Good(x[..n], x[n..]) else Bad
  {
    hide ReadVarint64, EncodeVarint;
    Varint64RoundTrip(n, x);
  }

  // -------------------------------------------------------------- wire types

  /** Field `num` by wire type: a varint, eight bytes, a length and its bytes, four bytes;
      types 4, 6 and 7 have no value and field number zero has none at all. */
  lemma WireTypes(num: nat, s: Bytes)
    requires num >= 1
    ensures ReadVarint64(s).Good? ==>
              ReadPayload(8 * num, s) == Good(Varint(ReadVarint64(s).value), ReadVarint64(s).rest)
    ensures ReadVarint64(s).Bad? ==> ReadPayload(8 * num, s).Bad?
    ensures ReadPayload(8 * num + 1, s) == if |s| >= 8 then Good(Opaque, s[8..]) else Bad
    ensures ReadDelimited(s).Good? ==>
              ReadPayload(8 * num + 2, s) == Good(Chunk(ReadDelimited(s).value), ReadDelimited(s).rest)
    ensures ReadDelimited(s).Bad? ==> ReadPayload(8 * num + 2, s).Bad?
    ensures ReadPayload(8 * num + 5, s) == if |s| >= 4 then Good(Opaque, s[4..]) else Bad
    ensures ReadPayload(8 * num + 4, s).Bad? && ReadPayload(8 * num + 6, s).Bad? && ReadPayload(8 * num + 7, s).Bad?
    ensures forall t | 0 <= t < 8 :: ReadPayload(t, s).Bad?
  {
  }

  /** A group is the fields up to the end tag of its own number, groups among them included;
      another end tag or none refuses it. */
  lemma {:induction false} GroupMeaning(num: nat, x: Bytes, e: Bytes, y: Bytes)
    requires num >= 1 && Boundary(x)
    requires ReadTag(e).Good? && ReadTag(e).value % 8 == 4 && ReadTag(e).rest == []
    ensures ReadPayload(8 * num + 3, x + e + y) == if ReadTag(e).value == 8 * num + 4 then Good(Opaque, y) else Bad
    ensures ReadPayload(8 * num + 3, x).Bad?
    decreases |x|
  {
    assert (8 * num + 3) / 8 == num && (8 * num + 3) % 8 == 3;
    Associate(x, e, y);
    if x == [] {
      assert x + (e + y) == e + y && [] + y == y;
      TagExtend(e, y);
    } else {
      var tag, rest, last := ReadTag(x).value, ReadTag(x).rest, NextToken(x).rest;
      GroupMeaning(num, last, e, y);
      Associate(last, e, y);
      TagExtend(x, e + y);
      PayloadExtend(tag, rest, e + y);
    }
  }
}
