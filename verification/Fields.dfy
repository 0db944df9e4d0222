/** Laws of the parser about single fields: boundaries, unknown fields, field order. */
module Fields {
  import opened Wire
  import opened Utf8
  import opened Message
  import Codec

  // ------------------------------------------------------- field boundaries

  /** `s` is a sequence of complete fields. */
  predicate Boundary(s: Bytes)
    decreases |s|
  {
    var t := NextToken(s);
    t.AtEnd? || (t.Next? && Boundary(t.rest))
  }

  function Tokens(s: Bytes): seq<Token>
    requires Boundary(s)
    decreases |s|
  {
    match NextToken(s)
    case AtEnd => []
    case Next(t, rest) => [t] + Tokens(rest)
  }

  lemma {:induction false} CompleteIsBoundary(s: Bytes, m: Msg)
    requires ParseMessage(s, m).status == Complete
    ensures Boundary(s)
    decreases |s|
  {
    match NextToken(s)
    case AtEnd =>
    case Next(t, rest) => CompleteIsBoundary(rest, Apply(m, t).msg);
  }

  /** Parsing past a field boundary is parsing in two steps. */
  lemma {:induction false} ParseAppend(x: Bytes, y: Bytes, m: Msg)
    requires Boundary(x)
    ensures ParseMessage(x + y, m) ==
            var o := ParseMessage(x, m); if o.status == Complete then ParseMessage(y, o.msg) else o
    decreases |x|
  {
    if x == [] {
      assert x + y == y;
    } else {
      TokenExtend(x, y);
      var t, rest := NextToken(x).token, NextToken(x).rest;
      if Apply(m, t).status == Complete { ParseAppend(rest, y, Apply(m, t).msg); }
    }
  }

  lemma {:induction false} ParsePacketAppend(x: Bytes, y: Bytes, p: Packet)
    requires Boundary(x)
    ensures ParsePacket(x + y, p) == ParsePacket(y, ParsePacket(x, p).msg)
    decreases |x|
  {
    if x == [] {
      assert x + y == y;
    } else {
      TokenExtend(x, y);
      ParsePacketAppend(NextToken(x).rest, y, ApplyToPacket(p, NextToken(x).token));
    }
  }

  // --------------------------------------------------------- unknown fields

  ghost predicate IsField(f: Bytes) { NextToken(f).Next? && NextToken(f).rest == [] }

  /** That is, one complete field and nothing more; the front of every input that reads as a
      field is one. */
  lemma OneField(f: Bytes)
    ensures IsField(f) <==> Boundary(f) && |Tokens(f)| == 1
    ensures NextToken(f).Next? ==> IsField(f[..|f| - |NextToken(f).rest|])
  {
    if NextToken(f).Next? { TokenOwnBytes(f); }
  }

  /** The parse loop of the message has no case for this tag. */
  predicate Unhandled(tag: nat) {
    !IsStringTag(tag) && tag != DNS && !IsEnumTag(tag) && tag != PACKET
  }

  lemma ParseField(f: Bytes, y: Bytes, m: Msg)
    requires IsField(f)
    ensures ParseMessage(f + y, m) ==
            var o := Apply(m, NextToken(f).token); if o.status == Complete then ParseMessage(y, o.msg) else o
  {
    TokenExtend(f, y);
    assert [] + y == y;
  }

  /** A field the schema does not handle can stand at any boundary unnoticed. */
  lemma UnknownFieldTransparent(x: Bytes, u: Bytes, y: Bytes, m: Msg)
    requires Boundary(x) && IsField(u) && Unhandled(NextToken(u).token.tag)
    ensures ParseMessage(x + u + y, m) == ParseMessage(x + y, m)
  {
    assert x + u + y == x + (u + y);
    ParseAppend(x, u + y, m);
    ParseAppend(x, y, m);
    ParseField(u, y, ParseMessage(x, m).msg);
  }

  /** No other field can: every field with a case changes some message or its outcome. */
  lemma HandledFieldShows(u: Bytes) returns (m: Msg)
    requires IsField(u) && !Unhandled(NextToken(u).token.tag)
    ensures ParseMessage(u, m) != ParseMessage([], m)
  {
    hide ValidUtf8, ParsePacket;
    var t := NextToken(u).token;
    TagFitsPayload(u);
    ParseField(u, [], EMPTY);
    assert u + [] == u;
    m := EMPTY;
    match t.payload
    case Chunk(b) =>
      if IsStringTag(t.tag) && b == [] {
        m := PutString(EMPTY, t.tag, [0]);
        ParseField(u, [], m);
      }
    case Varint(v) =>
      if ToInt32(v) == 0 {
        m := PutEnum(EMPTY, t.tag, 1);
        ParseField(u, [], m);
      }
    case Opaque => assert false;
  }

  lemma TagFitsPayload(u: Bytes)
    requires NextToken(u).Next?
    ensures var t := NextToken(u).token;
            (t.tag % 8 == 0 ==> t.payload.Varint?) && (t.tag % 8 == 2 ==> t.payload.Chunk?)
  {
  }

  lemma ParsePacketSkips(x: Bytes, u: Bytes, y: Bytes, p: Packet)
    requires Boundary(x) && IsField(u) && NextToken(u).token.tag != PACKET_DATA
    ensures ParsePacket(x + u + y, p) == ParsePacket(x + y, p)
  {
    Associate(x, u, y);
    ParsePacketAppend(x, u + y, p);
    ParsePacketAppend(x, y, p);
    TokenExtend(u, y);
    assert [] + y == y;
  }

  /** The same inside the nested packet, under the longer length prefix. */
  lemma UnknownPacketFieldTransparent(x: Bytes, u: Bytes, y: Bytes, z: Bytes, m: Msg)
    requires Boundary(x) && IsField(u) && NextToken(u).token.tag != PACKET_DATA
    requires |x + u + y| <= INT_MAX
    ensures ParseMessage(DelimitedField(PACKET, x + u + y) + z, m) ==
            ParseMessage(DelimitedField(PACKET, x + y) + z, m)
  {
    ParsePacketSkips(x, u, y, PacketOf(m));
    hide ParsePacket, Boundary, EncodeVarint, DelimitedField;
    Codec.NextDelimited(PACKET, x + u + y, z);
    Codec.NextDelimited(PACKET, x + y, z);
  }

  // ------------------------------------------------------------ field order

  /** Two fields with different numbers can be stored in either order. */
  lemma ApplyCommutes(m: Msg, t: Token, u: Token)
    requires t.Number() != u.Number()
    requires Apply(m, t).status == Complete && Apply(Apply(m, t).msg, u).status == Complete
    ensures Apply(m, u).status == Complete
    ensures Apply(Apply(m, u).msg, t) == Apply(Apply(m, t).msg, u)
  {
    hide ValidUtf8, ParsePacket, ToInt32;
  }

  lemma SwapFields(x: Bytes, f: Bytes, g: Bytes, y: Bytes, m: Msg)
    requires Boundary(x) && IsField(f) && IsField(g)
    requires NextToken(f).token.Number() != NextToken(g).token.Number()
    ensures ParseMessage(x + f + g + y, m).status == Complete ==>
              ParseMessage(x + g + f + y, m) == ParseMessage(x + f + g + y, m)
  {
    Associate(x + f, g, y);
    Associate(x, f, g + y);
    Associate(x + g, f, y);
    Associate(x, g, f + y);
    ParseAppend(x, f + (g + y), m);
    ParseAppend(x, g + (f + y), m);
    if ParseMessage(x, m).status == Complete { SwapFront(f, g, y, ParseMessage(x, m).msg); }
  }

  lemma SwapFront(f: Bytes, g: Bytes, y: Bytes, n: Msg)
    requires IsField(f) && IsField(g)
    requires NextToken(f).token.Number() != NextToken(g).token.Number()
    ensures ParseMessage(f + (g + y), n).status == Complete ==>
              ParseMessage(g + (f + y), n) == ParseMessage(f + (g + y), n)
  {
    var t, u := NextToken(f).token, NextToken(g).token;
    hide Apply, ParseMessage;
    ParseField(f, g + y, n);
    if ParseMessage(f + (g + y), n).status == Complete {
      ParseField(g, y, Apply(n, t).msg);
      ApplyCommutes(n, t, u);
      ParseField(g, f + y, n);
      ParseField(f, y, Apply(n, u).msg);
    }
  }

  function Run(ts: seq<Token>, m: Msg): Outcome<Msg> {
    if ts == [] then Outcome(Complete, m)
    else
      var o := Apply(m, ts[0]);
      if o.status == Complete then Run(ts[1..], o.msg) else o
  }

  lemma {:induction false} ParseIsRun(s: Bytes, m: Msg)
    requires Boundary(s)
    ensures ParseMessage(s, m) == Run(Tokens(s), m)
    decreases |s|
  {
    if s != [] {
      var t, rest := NextToken(s).token, NextToken(s).rest;
      assert Tokens(s)[1..] == Tokens(rest);
      if Apply(m, t).status == Complete { ParseIsRun(rest, Apply(m, t).msg); }
    }
  }

  /** The fields of one number, in their order. */
  function Select(ts: seq<Token>, n: nat): seq<Token> {
    if ts == [] then []
    else (if ts[0].Number() == n then [ts[0]] else []) + Select(ts[1..], n)
  }

  lemma SelectCons(t: Token, ts: seq<Token>, n: nat)
    ensures Select([t] + ts, n) == (if t.Number() == n then [t] else []) + Select(ts, n)
    ensures t.Number() == n ==> Select([t] + ts, n)[1..] == Select(ts, n)
  {
    assert ([t] + ts)[1..] == ts;
  }

  lemma AssociateTokens(a: seq<Token>, b: seq<Token>, c: seq<Token>)
    ensures a + b + c == a + (b + c)
  {
  }

  lemma {:induction false} SelectAppend(ts: seq<Token>, us: seq<Token>, n: nat)
    ensures Select(ts + us, n) == Select(ts, n) + Select(us, n)
  {
    if ts == [] {
      assert ts + us == us;
    } else {
      var rest := ts[1..];
      assert ts + us == [ts[0]] + (rest + us) && ts == [ts[0]] + rest;
      SelectAppend(rest, us, n);
      SelectCons(ts[0], rest + us, n);
      SelectCons(ts[0], rest, n);
      AssociateTokens(if ts[0].Number() == n then [ts[0]] else [], Select(rest, n), Select(us, n));
    }
  }

  lemma {:induction false} RunAppend(ts: seq<Token>, us: seq<Token>, m: Msg)
    ensures Run(ts + us, m) == var o := Run(ts, m); if o.status == Complete then Run(us, o.msg) else o
  {
    if ts == [] {
      assert ts + us == us;
    } else {
      assert (ts + us)[1..] == ts[1..] + us;
      if Apply(m, ts[0]).status == Complete { RunAppend(ts[1..], us, Apply(m, ts[0]).msg); }
    }
  }

  /** A field can move behind fields of other numbers. */
  lemma {:induction false} MoveBack(t: Token, pre: seq<Token>, m: Msg)
    requires Select(pre, t.Number()) == []
    requires Run([t] + pre, m).status == Complete
    ensures Run(pre + [t], m) == Run([t] + pre, m)
  {
    if pre == [] {
      assert [t] + pre == pre + [t];
    } else {
      var u, rest := pre[0], pre[1..];
      assert ([t] + pre)[1..] == pre && ([t] + rest)[1..] == rest && (pre + [t])[1..] == rest + [t];
      ApplyCommutes(m, t, u);
      MoveBack(t, rest, Apply(m, u).msg);
    }
  }

  /** Splits a sequence at the first field with a given number. */
  lemma {:induction false} FirstOf(ts: seq<Token>, n: nat) returns (pre: seq<Token>, post: seq<Token>)
    requires Select(ts, n) != []
    ensures ts == pre + ([Select(ts, n)[0]] + post) && Select(pre, n) == []
  {
    var rest := ts[1..];
    assert ts == [ts[0]] + rest;
    SelectCons(ts[0], rest, n);
    if ts[0].Number() == n {
      pre, post := [], rest;
      assert pre + (ts) == ts;
    } else {
      assert [] + Select(rest, n) == Select(rest, n);
      pre, post := FirstOf(rest, n);
      SelectCons(ts[0], pre, n);
      AssociateTokens([ts[0]], pre, [Select(rest, n)[0]] + post);
      pre := [ts[0]] + pre;
    }
  }

  lemma {:induction false} RunReorder(ts: seq<Token>, us: seq<Token>, m: Msg)
    requires forall n: nat :: Select(ts, n) == Select(us, n)
    requires Run(ts, m).status == Complete
    ensures Run(us, m) == Run(ts, m)
  {
    if ts == [] {
      assert us != [] ==> Select(us, us[0].Number()) != [];
    } else {
      var t := ts[0];
      assert Select(ts, t.Number()) == Select(us, t.Number());
      var pre, post := FirstOf(us, t.Number());
      assert ts == [t] + ts[1..] && us == pre + ([t] + post);
      AssociateTokens(pre, [t], post);
      forall n: nat ensures Select(ts[1..], n) == Select(pre + post, n) {
        assert Select(ts, n) == Select(us, n);
        SelectWithout(t, ts[1..], pre, post, n);
      }
      var m1 := Apply(m, t).msg;
      RunReorder(ts[1..], pre + post, m1);
      RunAppend(pre, post, m1);
      assert ([t] + pre)[1..] == pre;
      MoveBack(t, pre, m);
      RunAppend(pre + [t], post, m);
    }
  }

  /** Dropping the first field of a number on both sides keeps the selections equal. */
  lemma SelectWithout(t: Token, ts: seq<Token>, pre: seq<Token>, post: seq<Token>, n: nat)
    requires Select([t] + ts, n) == Select(pre + ([t] + post), n) && Select(pre, t.Number()) == []
    ensures Select(ts, n) == Select(pre + post, n)
  {
    SelectAppend(pre, [t] + post, n);
    SelectAppend(pre, post, n);
    SelectCons(t, post, n);
    SelectCons(t, ts, n);
    var a, b, c := Select(pre, n), Select(post, n), Select(ts, n);
    if t.Number() == n {
      assert a == [] && [t] + c == a + ([t] + b);
      assert ([t] + c)[1..] == c && ([t] + b)[1..] == b;
      assert a + b == b;
    } else {
      assert [] + c == c && [] + b == b;
      assert c == a + b;
    }
  }

  /** Any reordering of an accepted input that keeps, for each field number, the
      order of its fields, is parsed to the same message. */
  lemma ReorderFields(s: Bytes, s': Bytes, m: Msg)
    requires Boundary(s) && Boundary(s')
    requires forall n: nat :: Select(Tokens(s), n) == Select(Tokens(s'), n)
    requires ParseMessage(s, m).status == Complete
    ensures ParseMessage(s', m) == ParseMessage(s, m)
  {
    ParseIsRun(s, m);
    ParseIsRun(s', m);
    RunReorder(Tokens(s), Tokens(s'), m);
  }
}
