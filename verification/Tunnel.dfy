/** The two parties of the tunnel and every run of them. */
module Tunnel {
  import opened Wire
  import opened Utf8
  import opened Message
  import opened Framing
  import opened Device
  import Codec
  import Canonical

  // --------------------------------------------------------------- constants

  function Ascii(s: string): (b: Bytes)
    ensures |b| == |s| && forall i | 0 <= i < |b| :: b[i] < 128
    ensures forall i | 0 <= i < |s| && s[i] as int < 128 :: b[i] == s[i] as int
  {
    seq(|s|, i requires 0 <= i < |s| => if s[i] as int < 128 then s[i] as int else 63)
  }

  const CLIENT_ADDRESS: Bytes := Ascii("10.1.21.2")
  const RELAY_ADDRESS: Bytes := Ascii("10.1.21.1")
  const NETMASK: Bytes := Ascii("255.255.255.0")
  const NAME_SERVER: Bytes := Ascii("8.8.8.8")

  lemma {:induction false} AsciiIsUtf8(b: Bytes)
    requires forall i | 0 <= i < |b| :: b[i] < 128
    ensures ValidUtf8(b)
  {
    if b != [] { AsciiIsUtf8(b[1..]); }
  }

  // ---------------------------------------------------------------- messages

  /** What the client sends when it is connected. */
  function Establish(username: Bytes, password: Bytes): Msg {
    EMPTY.(kind := REQUEST, code := ESTABLISH, username := username, password := password)
  }

  /** What the client sends for an IP packet. */
  function DataRequest(p: Bytes): Msg {
    EMPTY.(kind := REQUEST, code := DATA, packet := Some(Packet(p)))
  }

  /** The server turns the request it received into its reply. */
  function Reply(m: Msg): Msg {
    m.(kind := RESPONSE, ip := CLIENT_ADDRESS, gateway := CLIENT_ADDRESS, submask := NETMASK,
       dns := m.dns + [NAME_SERVER], code := ESTABLISH)
  }

  /** The relay's message for a packet read from the interface. */
  function Relayed(p: Bytes): Msg {
    EMPTY.(kind := RESPONSE, ip := RELAY_ADDRESS, gateway := CLIENT_ADDRESS, submask := NETMASK,
           dns := [NAME_SERVER], code := DATA, packet := Some(Packet(p)))
  }

  // The same in bytes.
  const IP_10_1_21_2: Bytes := [49, 48, 46, 49, 46, 50, 49, 46, 50]
  const IP_10_1_21_1: Bytes := [49, 48, 46, 49, 46, 50, 49, 46, 49]
  const IP_255_255_255_0: Bytes := [50, 53, 53, 46, 50, 53, 53, 46, 50, 53, 53, 46, 48]
  const IP_8_8_8_8: Bytes := [56, 46, 56, 46, 56, 46, 56]

  lemma Addresses()
    ensures CLIENT_ADDRESS == IP_10_1_21_2 && RELAY_ADDRESS == IP_10_1_21_1
    ensures NETMASK == IP_255_255_255_0 && NAME_SERVER == IP_8_8_8_8
  {
  }

  /** Every message of the two parties, field by field. */
  lemma MessagesInFull(u: Bytes, p: Bytes, m: Msg)
    ensures Establish(u, p) == Msg(u, p, [], [], [], [], 0, 1, 0, 0, None)
    ensures DataRequest(p) == Msg([], [], [], [], [], [], 0, 3, 0, 0, Some(Packet(p)))
    ensures Reply(m) == Msg(m.username, m.password, IP_10_1_21_2, IP_255_255_255_0, IP_10_1_21_2,
                            m.dns + [IP_8_8_8_8], 1, 1, m.passwordEncrypt, m.linkEncrypt, m.packet)
    ensures Relayed(p) == Msg([], [], IP_10_1_21_1, IP_255_255_255_0, IP_10_1_21_2,
                              [IP_8_8_8_8], 1, 3, 0, 0, Some(Packet(p)))
  {
    Addresses();
  }

  // -------------------------------------------------------------- the server

  /** A server connection: its two buffers, the appends its callback still has to make, its
      interface (None until there is one), and whether a null interface was used. */
  datatype Server = Server(
    input: Bytes, output: Bytes, replying: seq<Bytes>, utun: Option<Interface>, crashed: bool)

  /** The two appends that write a frame. */
  function Appends(p: Bytes): (a: seq<Bytes>)
    ensures |a| == 2
  {
    var n := |p| % TWO_32;
    [Header(n), p[..n]]
  }

  lemma AppendsMakeFrame(p: Bytes)
    ensures Flatten(Appends(p)) == Frame(p)
  {
    hide Header;
    var n := |p| % TWO_32;
    FlattenCons(Header(n), [p[..n]]);
    FlattenCons(p[..n], []);
    assert [Header(n)] + [p[..n]] == Appends(p) && [p[..n]] + [] == [p[..n]];
    assert p[..n] + [] == p[..n];
  }

  /** Dispatch of a received message; creating the interface may fail.  The interface and
      the thread that relays from it are there before the reply is written. */
  function Handle(s: Server, m: Msg, created: bool): Server {
    if m.kind != REQUEST then s
    else if m.code == ESTABLISH then
      if created then s.(utun := Some(UNUSED), replying := s.replying + Appends(Encode(Reply(m)))) else s
    else if m.code == DATA then
      match s.utun
      case None => s.(crashed := true)
      case Some(i) => s.(utun := Some(Give(i, PacketOf(m).data)))
    else s
  }

  /** The read callback: at most one frame, and only a whole one. */
  function ServerCallback(s: Server, created: bool): Server {
    if s.crashed || !HasFrame(s.input) then s
    else Handle(s.(input := Rest(s.input)), Parse(FirstPayload(s.input)).msg, created)
  }

  /** The server's callback by what its input reads as.  Only a whole frame is taken; data
      without an interface is fatal, and only that; an establish makes the interface and the
      two appends of the reply, unless the interface fails; all else changes nothing. */
  lemma ServerReacts(s: Server, created: bool)
    ensures s.crashed || !HasFrame(s.input) ==> ServerCallback(s, created) == s
    ensures !s.crashed && HasFrame(s.input) ==>
              var s', m := ServerCallback(s, created), Parse(FirstPayload(s.input)).msg;
              && s'.input == Rest(s.input) && s'.output == s.output
              && (s'.crashed <==> s.utun.None? && m.kind == 0 && m.code == 3)
              && (if m.kind == 0 && m.code == 1 && created then
                    && s'.utun == Some(Interface([], [], []))
                    && s'.replying == s.replying + Appends(Encode(m.(
                         kind := 1, code := 1, ip := IP_10_1_21_2, gateway := IP_10_1_21_2,
                         submask := IP_255_255_255_0, dns := m.dns + [IP_8_8_8_8])))
                  else if m.kind == 0 && m.code == 3 && s.utun.Some? then
                    var i, d := s.utun.value, if m.packet.Some? then m.packet.value.data else [];
                    && s'.utun == Some(Interface(i.packets + [d], i.device, i.pending + d))
                    && s'.replying == s.replying
                  else
                    s'.utun == s.utun && s'.replying == s.replying)
  {
    hide HasFrame, FirstPayload, Rest, Parse, Encode, Appends;
    Addresses();
  }

  /** The callback is not over: it has to write its reply, or its packet to the device. */
  predicate Busy(s: Server) { s.replying != [] || (s.utun.Some? && s.utun.value.pending != []) }

  /** The callback run to its end. */
  function Settle(s: Server): Server {
    s.(output := s.output + Flatten(s.replying), replying := [],
       utun := match s.utun case None => None case Some(i) => Some(Finish(i)))
  }

  lemma Settled(s: Server)
    ensures !Busy(s) ==> Settle(s) == s
  {
    assert s.output + [] == s.output;
    if s.utun.Some? { assert s.utun.value.device + [] == s.utun.value.device; }
  }

  lemma GivenSettles(s: Server, p: Bytes)
    requires !Busy(s) && s.utun.Some?
    ensures Settle(s.(utun := Some(Give(s.utun.value, p)))) == s.(utun := Some(Finish(Give(s.utun.value, p))))
  {
    assert s.output + [] == s.output;
  }

  lemma EstablishSettles(s: Server, m: Msg, created: bool)
    requires !Busy(s) && m.kind == REQUEST && m.code == ESTABLISH
    ensures Settle(Handle(s, m, created)) ==
            if created then s.(utun := Some(UNUSED), output := s.output + Frame(Encode(Reply(m)))) else s
  {
    hide Encode, Frame, Reply, Appends;
    Settled(s);
    var q := Encode(Reply(m));
    AppendsMakeFrame(q);
    assert [] + Appends(q) == Appends(q) && Finish(UNUSED) == UNUSED;
  }

  // -------------------------------------------------------------- the client

  datatype Client = Client(
    input: Bytes, sending: bool, closed: bool,
    ip: Bytes, gateway: Bytes, submask: Bytes, dns: seq<Bytes>,
    received: seq<Bytes>)

  /** Dispatch of a received message.  Codes the client only reports change nothing. */
  function Receive(c: Client, m: Msg): Client {
    if m.kind != RESPONSE then c.(closed := true)
    else if m.code == ESTABLISH then
      c.(ip := m.ip, gateway := m.gateway, submask := m.submask, dns := c.dns + m.dns, sending := true)
    else if m.code == DATA then c.(received := c.received + [PacketOf(m).data])
    else c
  }

  /** The read callback: drains a length and a payload, whole or not. */
  function ClientCallback(c: Client): Client {
    if c.closed then c
    else Receive(c.(input := ClientRest(c.input)), Parse(ClientPayload(c.input)).msg)
  }

  /** The client's callback by what it drained: anything but a response hangs up; an establish
      takes over the addresses and starts the sending; data is received; other codes change
      nothing. */
  lemma ClientReacts(c: Client)
    ensures c.closed ==> ClientCallback(c) == c
    ensures !c.closed ==>
              var c', m := ClientCallback(c), Parse(ClientPayload(c.input)).msg;
              var established := m.kind == 1 && m.code == 1;
              && c'.input == ClientRest(c.input)
              && (c'.closed <==> m.kind != 1)
              && (c'.sending <==> c.sending || established)
              && c'.ip == (if established then m.ip else c.ip)
              && c'.gateway == (if established then m.gateway else c.gateway)
              && c'.submask == (if established then m.submask else c.submask)
              && c'.dns == (if established then c.dns + m.dns else c.dns)
              && c'.received == (if m.kind == 1 && m.code == 3
                                 then c.received + [if m.packet.Some? then m.packet.value.data else []]
                                 else c.received)
  {
    hide ClientPayload, ClientRest, Parse;
  }

  // ------------------------------------------------- what the parties' messages are

  lemma EncodeBounds(m: Msg)
    requires Sendable(m)
    ensures |m.username| <= INT_MAX && |m.password| <= INT_MAX
    ensures |EncodePacket(PacketOf(m))| <= INT_MAX
    ensures Framed(Encode(m))
  {
    hide EncodeVarint, EnumFields, DnsFields, Encode, EncodeCached;
    Canonical.EncodeSize(m);
  }

  lemma DataRoundTrip(p: Bytes)
    requires Sendable(DataRequest(p))
    ensures Parse(Encode(DataRequest(p))) == Outcome(Complete, DataRequest(p))
  {
    EncodeBounds(DataRequest(p));
    Codec.RoundTrip(DataRequest(p));
  }

  /** The hello is read back, or stops at a credential that is not UTF-8 with no
      message code set. */
  lemma HelloParses(username: Bytes, password: Bytes)
    requires Sendable(Establish(username, password))
    ensures var m := Parse(Encode(Establish(username, password))).msg;
            if ValidUtf8(username) && ValidUtf8(password)
            then m == Msg(username, password, [], [], [], [], 0, 1, 0, 0, None)
            else m.kind == 0 && m.code == 0
  {
    var h := Establish(username, password);
    EncodeBounds(h);
    if ValidUtf8(username) && ValidUtf8(password) {
      Codec.RoundTrip(h);
    } else {
      var tail := DnsFields(h.dns) + EnumFields(h) + PacketField(h.packet, |EncodePacket(PacketOf(h))|);
      var s2 := StringField(PASSWORD, password) + tail;
      assert Encode(h) == StringField(USERNAME, username) + s2;
      ParseAnyString(USERNAME, username, s2, EMPTY);
      if ValidUtf8(username) {
        ParseAnyString(PASSWORD, password, tail, if |username| > 0 then EMPTY.(username := username) else EMPTY);
      }
    }
  }

  lemma ParseAnyString(tag: byte, v: Bytes, y: Bytes, m: Msg)
    requires IsStringTag(tag) && |v| <= INT_MAX
    ensures ValidUtf8(v) ==> ParseMessage(StringField(tag, v) + y, m) ==
                             ParseMessage(y, if |v| > 0 then PutString(m, tag, v) else m)
    ensures !ValidUtf8(v) ==> ParseMessage(StringField(tag, v) + y, m) == Outcome(Failed, PutString(m, tag, v))
  {
    if ValidUtf8(v) { Codec.ParseString(tag, v, y, m); } else { Codec.NextDelimited(tag, v, y); }
  }

  lemma ParseNothing()
    ensures Parse([]) == Outcome(Complete, EMPTY)
  {
  }

  // A callback that finds a whole frame, and the client's on an empty buffer.

  lemma ServerReadsWhole(s: Server, p: Bytes, up: Bytes, created: bool)
    requires Framed(p) && !s.crashed && s.input == Frame(p) + up
    ensures ServerCallback(s, created) == Handle(s.(input := up), Parse(p).msg, created)
  {
    hide Frame, HasFrame, FirstPayload, Rest, Handle, Parse;
    FrameReads(p, up);
  }

  lemma ClientReadsWhole(c: Client, p: Bytes, down: Bytes)
    requires Framed(p) && !c.closed && c.input == Frame(p) + down
    ensures ClientCallback(c) == Receive(c.(input := down), Parse(p).msg)
  {
    hide Frame, HasFrame, FirstPayload, Rest, Receive, Parse;
    FrameReads(p, down);
    var r := Reader(c.input, []);
    DrainIsPeek(r);
    assert DrainTurn(r, Callback) == Reader(down, [] + [p]);
    assert ([] + [p])[0] == p && ([] + [ClientPayload(c.input)])[0] == ClientPayload(c.input);
  }

  lemma ClientReadsNothing(c: Client)
    requires c.input == [] && !c.closed
    ensures ClientCallback(c) == c.(closed := true)
  {
    hide ClientPayload, ClientRest, Parse;
    NothingToDrain();
    ParseNothing();
  }

  // ------------------------------------------------------ the system and its runs

  /** Client, bytes on their way up, server, and the history the claims speak of: the
      credentials once connected, the packets sent, the frames the server consumed. */
  datatype System = System(
    client: Client, up: Bytes, server: Server,
    hello: Option<(Bytes, Bytes)>, sent: seq<Bytes>, consumed: nat)

  datatype Step =
    | Connect(username: Bytes, password: Bytes)
    | Send(packet: Bytes)
    | CarryUp(n: nat)
    | ServerReads(created: bool)
    | DeviceWrites(n: nat)
    | WriteReply
    | Relay(bytes: Bytes)
    | CarryDown(n: nat)
    | ClientReads

  ghost predicate Init(s: System) {
    && s.client.input == [] && !s.client.sending && !s.client.closed
    && s.up == [] && s.server == Server([], [], [], None, false)
    && s.hello == None && s.sent == [] && s.consumed == 0
  }

  /** When a step can happen.  A packet is sent only once an establish reply was read; a
      callback ends first, with its reply in two appends or its packet in writes of at least
      one byte; the relay thread exists as soon as the interface does; a run ends with a crash. */
  predicate Enabled(s: System, e: Step) {
    match e
    case Connect(u, p) => s.hello == None && Sendable(Establish(u, p))
    case Send(p) => s.client.sending && !s.client.closed && Sendable(DataRequest(p))
    case CarryUp(n) => n <= |s.up|
    case ServerReads(_) => !s.server.crashed && !Busy(s.server)
    case DeviceWrites(n) => s.server.utun.Some? && 1 <= n <= |s.server.utun.value.pending|
    case WriteReply => s.server.replying != []
    case Relay(_) => s.server.utun.Some?
    case CarryDown(n) => n <= |s.server.output|
    case ClientReads => true
  }

  /** The relay thread makes its appends beside those of the event loop, whatever its buffer
      holds. */
  function After(s: System, e: Step): System
    requires Enabled(s, e)
  {
    match e
    case Connect(u, p) => s.(hello := Some((u, p)), up := s.up + Frame(Encode(Establish(u, p))))
    case Send(p) => s.(sent := s.sent + [p], up := s.up + Frame(Encode(DataRequest(p))))
    case CarryUp(n) => s.(up := s.up[n..], server := s.server.(input := s.server.input + s.up[..n]))
    case ServerReads(created) =>
      s.(server := ServerCallback(s.server, created),
         consumed := if HasFrame(s.server.input) then s.consumed + 1 else s.consumed)
    case DeviceWrites(n) => s.(server := s.server.(utun := Some(Take(s.server.utun.value, n))))
    case WriteReply =>
      s.(server := s.server.(output := s.server.output + s.server.replying[0], replying := s.server.replying[1..]))
    case Relay(b) => s.(server := s.server.(output := s.server.output + b))
    case CarryDown(n) =>
      s.(client := s.client.(input := s.client.input + s.server.output[..n]),
         server := s.server.(output := s.server.output[n..]))
    case ClientReads => s.(client := ClientCallback(s.client))
  }

  /** Chunks can be cut anywhere: two pieces come to the same as one, and each of the two is
      always possible; so for the bytes on their way up, those on their way down, */
  lemma UpComposes(s: System, m: nat, n: nat)
    requires m + n <= |s.up|
    ensures Enabled(s, CarryUp(m)) && Enabled(After(s, CarryUp(m)), CarryUp(n))
    ensures After(After(s, CarryUp(m)), CarryUp(n)) == After(s, CarryUp(m + n))
  {
    hide ServerCallback, ClientCallback, Encode, Frame;
    TwoPieces(s.up, m, n, s.server.input);
  }

  lemma DownComposes(s: System, m: nat, n: nat)
    requires m + n <= |s.server.output|
    ensures Enabled(s, CarryDown(m)) && Enabled(After(s, CarryDown(m)), CarryDown(n))
    ensures After(After(s, CarryDown(m)), CarryDown(n)) == After(s, CarryDown(m + n))
  {
    hide ServerCallback, ClientCallback, Encode, Frame;
    TwoPieces(s.server.output, m, n, s.client.input);
  }

  /** the writes of the device, */
  lemma WritesCompose(s: System, m: nat, n: nat)
    requires s.server.utun.Some? && 1 <= m && 1 <= n && m + n <= |s.server.utun.value.pending|
    ensures Enabled(s, DeviceWrites(m)) && Enabled(After(s, DeviceWrites(m)), DeviceWrites(n))
    ensures After(After(s, DeviceWrites(m)), DeviceWrites(n)) == After(s, DeviceWrites(m + n))
  {
    hide ServerCallback, ClientCallback, Encode, Frame;
    TwoPieces(s.server.utun.value.pending, m, n, s.server.utun.value.device);
  }

  /** and the appends of the relay. */
  lemma RelaysCompose(s: System, a: Bytes, b: Bytes)
    requires s.server.utun.Some?
    ensures Enabled(s, Relay(a)) && Enabled(After(s, Relay(a)), Relay(b))
    ensures After(After(s, Relay(a)), Relay(b)) == After(s, Relay(a + b))
  {
    hide ServerCallback, ClientCallback, Encode, Frame;
    Associate(s.server.output, a, b);
  }

  lemma TwoPieces(x: Bytes, m: nat, n: nat, to: Bytes)
    requires m + n <= |x|
    ensures x[m..][n..] == x[m + n..] && to + x[..m] + x[m..][..n] == to + x[..m + n]
  {
    assert x[..m] + x[m..][..n] == x[..m + n];
    Associate(to, x[..m], x[m..][..n]);
  }

  /** Nothing but its own unfinished callback keeps the server from its next one, and nothing
      at all the client. */
  lemma CallbacksAnyTime(s: System, created: bool)
    requires Inv(s)
    ensures Enabled(s, ClientReads)
    ensures s.server.replying == [] && (s.server.utun.Some? ==> s.server.utun.value.pending == []) ==>
              Enabled(s, ServerReads(created))
    ensures s.server.replying != [] ==> Enabled(s, WriteReply)
  {
  }

  /** The payloads the client has sent, in order. */
  function Requests(s: System): seq<Bytes> {
    match s.hello
    case None => []
    case Some((u, p)) => [Encode(Establish(u, p))] + DataPayloads(s.sent)
  }

  function DataPayloads(ps: seq<Bytes>): (r: seq<Bytes>)
    ensures |r| == |ps| && forall i | 0 <= i < |ps| :: r[i] == Encode(DataRequest(ps[i]))
  {
    seq(|ps|, i requires 0 <= i < |ps| => Encode(DataRequest(ps[i])))
  }

  ghost predicate AllSendable(s: System) {
    && (s.hello.Some? ==> Sendable(Establish(s.hello.value.0, s.hello.value.1)))
    && forall p <- s.sent :: Sendable(DataRequest(p))
  }

  /** The inductive invariant.  Without an interface the server has said nothing, so the
      client is not sending; with one, its packets are the ones sent, in order, and so are
      the bytes its device took and those pending. */
  ghost predicate Inv(s: System) {
    && !s.server.crashed
    && AllSendable(s)
    && s.consumed <= |Requests(s)|
    && s.server.input + s.up == Frames(Requests(s)[s.consumed..])
    && (s.server.utun.None? ==>
          s.server.output == [] && s.server.replying == [] && s.client.input == [] && !s.client.sending && s.sent == [])
    && (s.server.utun.Some? ==>
          && s.consumed >= 1 && s.server.utun.value.packets == s.sent[..s.consumed - 1]
          && Ordered(s.server.utun.value))
  }

  lemma InitInv(s: System)
    requires Init(s)
    ensures Inv(s)
  {
  }

  lemma RequestsFramed(s: System)
    requires AllSendable(s)
    ensures forall q <- Requests(s) :: Framed(q)
  {
    if s.hello.Some? { EncodeBounds(Establish(s.hello.value.0, s.hello.value.1)); }
    forall p | p in s.sent ensures Framed(Encode(DataRequest(p))) { EncodeBounds(DataRequest(p)); }
  }

  lemma ConnectInv(s: System, u: Bytes, p: Bytes)
    requires Inv(s) && Enabled(s, Connect(u, p))
    ensures Inv(After(s, Connect(u, p)))
  {
    hide Encode, Frame;
    var q := Encode(Establish(u, p));
    assert DataPayloads([]) == [];
    var qs: seq<Bytes> := [q];
    assert qs + [] == qs && qs[0..] == qs && qs[1..] == [];
    assert Frames(qs) == Frame(q) + [];
    assert s.server.input + s.up == [];
  }

  lemma SendInv(s: System, p: Bytes)
    requires Inv(s) && Enabled(s, Send(p))
    ensures Inv(After(s, Send(p)))
  {
    hide Encode, Frame;
    var s' := After(s, Send(p));
    var q := Encode(DataRequest(p));
    assert DataPayloads(s'.sent) == DataPayloads(s.sent) + [q];
    assert Requests(s') == Requests(s) + [q];
    assert Requests(s')[s.consumed..] == Requests(s)[s.consumed..] + [q];
    FramesSnoc(Requests(s)[s.consumed..], q);
    Associate(s.server.input, s.up, Frame(q));
    assert s'.sent[..s.consumed - 1] == s.sent[..s.consumed - 1];
  }

  lemma ServerReadsInv(s: System, created: bool)
    requires Inv(s) && Enabled(s, ServerReads(created))
    ensures Inv(After(s, ServerReads(created)))
  {
    hide Encode, Frame, HasFrame, FirstPayload, Rest, Handle, Parse, Ordered;
    if HasFrame(s.server.input) {
      var rs := Requests(s);
      var r := s.server.(input := Rest(s.server.input));
      RequestsFramed(s);
      FirstFrame(s.server.input, s.up, rs[s.consumed..]);
      assert rs[s.consumed..][1..] == rs[s.consumed + 1..];
      if s.consumed == 0 {
        HelloHandled(r, s.hello.value.0, s.hello.value.1, created);
        assert s.sent[..0] == [];
      } else {
        var p := s.sent[s.consumed - 1];
        DataHandled(r, p, created);
        assert s.sent[..s.consumed - 1] + [p] == s.sent[..s.consumed];
      }
    }
  }

  lemma HelloHandled(r: Server, u: Bytes, p: Bytes, created: bool)
    requires Sendable(Establish(u, p)) && r.utun.None?
    ensures var r' := Handle(r, Parse(Encode(Establish(u, p))).msg, created);
            && r'.crashed == r.crashed && r'.input == r.input
            && (r' == r || (r'.utun == Some(UNUSED) && Ordered(UNUSED)))
  {
    hide Encode, Parse, Appends;
    HelloParses(u, p);
    UnusedOrdered();
  }

  lemma DataHandled(r: Server, p: Bytes, created: bool)
    requires Sendable(DataRequest(p)) && r.utun.Some? && Ordered(r.utun.value)
    ensures Handle(r, Parse(Encode(DataRequest(p))).msg, created) == r.(utun := Some(Give(r.utun.value, p)))
    ensures Ordered(Give(r.utun.value, p))
  {
    hide Encode, Parse;
    DataRoundTrip(p);
    GiveOrdered(r.utun.value, p);
  }

  lemma ClientReadsInv(s: System, e: Step)
    requires Inv(s) && e.ClientReads?
    ensures Inv(After(s, e))
  {
    hide ClientCallback, Frames, Encode;
    if s.server.utun.None? && !s.client.closed { ClientReadsNothing(s.client); }
    ClosedStays(s.client);
  }

  lemma ClosedStays(c: Client)
    ensures c.closed ==> ClientCallback(c) == c
  {
  }

  lemma CarryInv(s: System, e: Step)
    requires Inv(s) && Enabled(s, e) && (e.CarryUp? || e.CarryDown?)
    ensures Inv(After(s, e))
  {
    hide Encode, Frames, Frame, DataPayloads, ServerCallback, ClientCallback, Ordered, Sendable;
    if e.CarryUp? {
      Associate(s.server.input, s.up[..e.n], s.up[e.n..]);
      assert s.up[..e.n] + s.up[e.n..] == s.up;
    }
    assert Requests(After(s, e)) == Requests(s);
  }

  lemma StepInv(s: System, e: Step)
    requires Inv(s) && Enabled(s, e)
    ensures Inv(After(s, e))
  {
    match e
    case Connect(u, p) => ConnectInv(s, u, p);
    case Send(p) => SendInv(s, p);
    case CarryUp(_) => CarryInv(s, e);
    case ServerReads(created) => ServerReadsInv(s, created);
    case DeviceWrites(n) => TakeOrdered(s.server.utun.value, n);
    case WriteReply =>
    case Relay(_) =>
    case CarryDown(_) => CarryInv(s, e);
    case ClientReads => ClientReadsInv(s, e);
  }

  /** `s` can be reached by the steps `es`. */
  ghost predicate Reaches(s0: System, es: seq<Step>, s: System)
    decreases |es|
  {
    if es == [] then s == s0
    else Enabled(s0, es[0]) && Reaches(After(s0, es[0]), es[1..], s)
  }

  lemma {:induction false} RunInv(s0: System, es: seq<Step>, s: System)
    requires Inv(s0) && Reaches(s0, es, s)
    ensures Inv(s)
    decreases |es|
  {
    if es != [] {
      StepInv(s0, es[0]);
      RunInv(After(s0, es[0]), es[1..], s);
    }
  }

  /** The next frame is data only if there is an interface for it. */
  lemma NextFrame(s: System)
    requires Inv(s) && HasFrame(s.server.input)
    ensures var m := Parse(FirstPayload(s.server.input)).msg;
            m.kind == 0 && m.code == 3 ==> s.server.utun.Some?
  {
    hide Encode, Frame, HasFrame, FirstPayload, Rest, Parse;
    RequestsFramed(s);
    FirstFrame(s.server.input, s.up, Requests(s)[s.consumed..]);
    if s.consumed == 0 { HelloParses(s.hello.value.0, s.hello.value.1); }
  }

  /** In every run the server never handles data without an interface, nor is data what waits
      for it then, a sending client has one behind it, and its packets are a prefix of those
      the client sent. */
  lemma EstablishBeforeData(s0: System, es: seq<Step>, s: System)
    requires Init(s0)
    ensures Reaches(s0, es, s) ==>
              && !s.server.crashed
              && (HasFrame(s.server.input) && s.server.utun.None? ==>
                    var m := Parse(FirstPayload(s.server.input)).msg; !(m.kind == 0 && m.code == 3))
              && (s.client.sending ==> s.server.utun.Some?)
              && (s.server.utun.Some? ==> s.server.utun.value.packets <= s.sent)
  {
    hide HasFrame, FirstPayload, Parse;
    InitInv(s0);
    if Reaches(s0, es, s) {
      RunInv(s0, es, s);
      if HasFrame(s.server.input) { NextFrame(s); }
    }
  }

  /** An interface, once there, is kept by every step, and so is all it was given and all
      its device took; no second reply is begun. */
  lemma InterfaceStays(s: System, e: Step)
    requires Inv(s) && Enabled(s, e) && s.server.utun.Some?
    ensures var i, u := s.server.utun.value, After(s, e).server.utun;
            u.Some? && i.packets <= u.value.packets && i.device <= u.value.device
    ensures !e.WriteReply? ==> After(s, e).server.replying == s.server.replying
  {
    hide Encode, Frame, HasFrame, FirstPayload, Rest, Parse;
    StepInv(s, e);
    if e.ServerReads? && HasFrame(s.server.input) {
      RequestsFramed(s);
      FirstFrame(s.server.input, s.up, Requests(s)[s.consumed..]);
      DataRoundTrip(s.sent[s.consumed - 1]);
    }
  }

  // ----------------------------------------------------- everything is delivered

  /** The bytes the interface's device has taken are at all times, in the middle of a packet
      too, a prefix of the bytes of the packets sent. */
  lemma UplinkInOrder(s0: System, es: seq<Step>, s: System)
    requires Init(s0) && Reaches(s0, es, s) && s.server.utun.Some?
    ensures s.server.utun.value.device <= Flatten(s.sent)
  {
    InitInv(s0);
    RunInv(s0, es, s);
    FlattenPrefix(s.server.utun.value.packets, s.sent);
  }

  function Reads(es: seq<Step>): nat {
    if es == [] then 0 else (if es[0].ServerReads? then 1 else 0) + Reads(es[1..])
  }

  /** In every run: once the bytes sent have arrived and nothing more is sent, whatever else
      happens, by the time there was a callback for each frame pending the last is
      over, the device has every packet sent, in order and byte for byte. */
  lemma UplinkDelivered(s0: System, es: seq<Step>, s: System, fs: seq<Step>, s': System)
    requires Init(s0) && Reaches(s0, es, s) && s.server.utun.Some? && s.up == []
    requires Reaches(s, fs, s') && (forall e <- fs :: !e.Send?)
    requires Reads(fs) >= |Requests(s)| - s.consumed && !Busy(s'.server)
    ensures s'.server.utun == Some(Interface(s.sent, Flatten(s.sent), []))
  {
    InitInv(s0);
    RunInv(s0, es, s);
    RunInv(s, fs, s');
    AllConsumed(s, fs, s');
    hide Encode, Frames, Reaches, Init;
    assert s.sent[..s'.consumed - 1] == s.sent;
    var i := s'.server.utun.value;
    assert i.device + [] == i.device;
  }

  /** Such a run is there from every reachable state with an interface. */
  lemma {:induction false} UplinkCanFinish(s: System) returns (fs: seq<Step>, s': System)
    requires Inv(s) && s.server.utun.Some? && s.up == []
    ensures Reaches(s, fs, s') && (forall e <- fs :: !e.Send?)
    ensures Reads(fs) >= |Requests(s)| - s.consumed && !Busy(s'.server)
    decreases |Requests(s)| - s.consumed, |s.server.replying|, |s.server.utun.value.pending|
  {
    hide Inv, Encode, Frames, Frame, HasFrame, ServerCallback, ClientCallback;
    OneRequestEach(s);
    if Busy(s.server) || s.consumed < |Requests(s)| {
      var e := if s.server.replying != [] then WriteReply
               else if Busy(s.server) then DeviceWrites(|s.server.utun.value.pending|)
               else ServerReads(true);
      ReadyToRead(s);
      StepInv(s, e);
      QuietStep(s, e);
      fs, s' := UplinkCanFinish(After(s, e));
      fs := [e] + fs;
    } else {
      fs, s' := [], s;
    }
  }

  lemma ReadyToRead(s: System)
    requires Inv(s)
    ensures !s.server.crashed
  {
  }

  /** Every callback of such a run takes a frame as long as there is one. */
  lemma {:induction false} AllConsumed(s: System, fs: seq<Step>, s': System)
    requires Inv(s) && s.server.utun.Some? && s.up == []
    requires Reaches(s, fs, s') && forall e <- fs :: !e.Send?
    ensures s'.server.utun.Some? && s'.sent == s.sent && s'.consumed <= |Requests(s)| == |s.sent| + 1
    ensures s'.consumed >= s.consumed + Reads(fs) || s'.consumed == |Requests(s)|
    decreases |fs|
  {
    hide Inv;
    OneRequestEach(s);
    if fs != [] {
      var s1 := After(s, fs[0]);
      StepInv(s, fs[0]);
      QuietStep(s, fs[0]);
      AllConsumed(s1, fs[1..], s');
    }
  }

  lemma OneRequestEach(s: System)
    requires Inv(s) && s.server.utun.Some?
    ensures s.consumed <= |Requests(s)| == |s.sent| + 1
  {
    hide Encode, Frames;
  }

  lemma QuietStep(s: System, e: Step)
    requires Inv(s) && s.server.utun.Some? && s.up == [] && Enabled(s, e) && !e.Send?
    ensures var s' := After(s, e);
            && s'.server.utun.Some? && s'.up == [] && s'.sent == s.sent && Requests(s') == Requests(s)
            && s'.consumed >= s.consumed
            && (e.ServerReads? && s.consumed < |Requests(s)| ==> s'.consumed == s.consumed + 1)
  {
    InterfaceStays(s, e);
    hide Encode, Frame, Frames, HasFrame, ServerCallback, ClientCallback;
    if e.ServerReads? && s.consumed < |Requests(s)| { PendingRead(s); }
  }

  lemma PendingRead(s: System)
    requires Inv(s) && s.up == [] && s.consumed < |Requests(s)|
    ensures HasFrame(s.server.input)
  {
    hide Frame, HasFrame;
    var rs := Requests(s)[s.consumed..];
    RequestsFramed(s);
    FrameReads(rs[0], Frames(rs[1..]));
    assert s.server.input + [] == s.server.input;
  }

  /** A callback's own writes, each a step, end where the callback run at once ends, however
      short the device's are. */
  lemma {:induction false} OwnWritesSettle(s: System, es: seq<Step>, s': System)
    requires Reaches(s, es, s') && (forall e <- es :: e.DeviceWrites? || e.WriteReply?) && !Busy(s'.server)
    ensures s' == s.(server := Settle(s.server))
    decreases |es|
  {
    hide Encode, Frame, ServerCallback, ClientCallback;
    if es == [] {
      Settled(s.server);
    } else {
      assert es[0] in es;
      OwnWriteSettles(s, es[0]);
      OwnWritesSettle(After(s, es[0]), es[1..], s');
    }
  }

  lemma OwnWriteSettles(s: System, e: Step)
    requires Enabled(s, e) && (e.DeviceWrites? || e.WriteReply?)
    ensures var s' := After(s, e); s'.(server := Settle(s'.server)) == s.(server := Settle(s.server))
  {
    hide Encode, Frame, ServerCallback, ClientCallback;
    var r := s.server;
    if e.DeviceWrites? {
      FinishTake(r.utun.value, e.n);
    } else {
      FlattenCons(r.replying[0], r.replying[1..]);
      assert [r.replying[0]] + r.replying[1..] == r.replying;
      Associate(r.output, r.replying[0], Flatten(r.replying[1..]));
    }
  }

  // ----------------------------------------------------------- the handshake

  lemma ReplyStrings(m: Msg)
    requires ValidStrings(m)
    ensures ValidStrings(Reply(m))
  {
    hide ValidUtf8;
    AsciiIsUtf8(CLIENT_ADDRESS);
    AsciiIsUtf8(NETMASK);
    AsciiIsUtf8(NAME_SERVER);
  }

  lemma ParsesBack(m: Msg)
    requires ValidStrings(m) && Sendable(m)
    ensures Parse(Encode(m)) == Outcome(Complete, m) && Framed(Encode(m))
  {
    Canonical.RoundTripExactly(m);
  }

  /** One exchange through codec and framing: the client takes the server's addresses, and
      its name servers are its own, then the request's, then the server's. */
  lemma HandshakeAgrees(m: Msg, s: Server, c: Client, up: Bytes, down: Bytes)
    requires ValidStrings(m) && Sendable(m) && Sendable(Reply(m)) && m.kind == 0 && m.code == 1
    requires !s.crashed && !Busy(s) && !c.closed && s.input == Frame(Encode(m)) + up
    ensures var s' := Settle(ServerCallback(s, true));
            && s'.utun == Some(Interface([], [], [])) && s'.input == up
            && s'.output == s.output + Frame(Encode(Reply(m)))
    ensures c.input == Frame(Encode(Reply(m))) + down ==>
              var c' := ClientCallback(c);
              && c'.ip == IP_10_1_21_2 && c'.gateway == IP_10_1_21_2 && c'.submask == IP_255_255_255_0
              && c'.dns == c.dns + m.dns + [IP_8_8_8_8]
              && c'.sending && c'.input == down
  {
    hide Encode, Frame, Parse, ServerCallback, ClientCallback, ValidStrings, Sendable, Handle, Settle;
    ParsesBack(m);
    ServerReadsWhole(s, Encode(m), up, true);
    EstablishSettles(s.(input := up), m, true);
    if c.input == Frame(Encode(Reply(m))) + down {
      ReplyStrings(m);
      ParsesBack(Reply(m));
      ClientReadsWhole(c, Encode(Reply(m)), down);
      Addresses();
      assert c.dns + (m.dns + [NAME_SERVER]) == c.dns + m.dns + [NAME_SERVER];
    }
  }

  // ------------------------------------------------------------ the downlink

  /** If the relay serialized its message, the client would receive the packet. */
  lemma RelayedArrives(p: Bytes, c: Client, down: Bytes)
    requires Sendable(Relayed(p)) && !c.closed
    requires c.input == Frame(Encode(Relayed(p))) + down
    ensures ClientCallback(c) == c.(input := down, received := c.received + [p])
  {
    hide Encode, Frame, Parse, ClientCallback;
    RelayedStrings(p);
    ParsesBack(Relayed(p));
    ClientReadsWhole(c, Encode(Relayed(p)), down);
  }

  lemma RelayedStrings(p: Bytes)
    ensures ValidStrings(Relayed(p))
  {
    hide ValidUtf8;
    AsciiIsUtf8([]);
    AsciiIsUtf8(CLIENT_ADDRESS);
    AsciiIsUtf8(RELAY_ADDRESS);
    AsciiIsUtf8(NETMASK);
    AsciiIsUtf8(NAME_SERVER);
  }

  /** It sends an unfilled buffer of that size instead.  Whatever `b` it holds: the client
      hangs up exactly if `b` reads as no response, and receives the packet exactly if it
      reads as a data response with that packet. */
  lemma UnfilledRelay(p: Bytes, b: Bytes, c: Client, down: Bytes)
    requires Sendable(Relayed(p)) && |b| == |Encode(Relayed(p))| && !c.closed
    requires c.input == Frame(b) + down
    ensures var c', m := ClientCallback(c), Parse(b).msg;
            && c'.input == down
            && (c'.closed <==> m.kind != RESPONSE)
            && (c'.received == c.received + [p] <==>
                m.kind == RESPONSE && m.code == DATA && PacketOf(m).data == p)
  {
    hide Encode, Frame, Parse, ClientCallback;
    ClientReadsWhole(c, b, down);
    assert |c.received + [p]| == |c.received| + 1 && (c.received + [p])[|c.received|] == p;
    var q := PacketOf(Parse(b).msg).data;
    assert (c.received + [q])[|c.received|] == q;
  }

  /** If it holds zeros, the client hangs up. */
  lemma UnfilledRelayCloses(n: nat, c: Client, down: Bytes)
    requires n < TWO_32 && !c.closed
    requires c.input == Frame(Zeros(n)) + down
    ensures ClientCallback(c) == c.(input := down, closed := true)
  {
    hide Frame, ClientCallback;
    ParseZeros(n);
    hide Parse, Zeros;
    ClientReadsWhole(c, Zeros(n), down);
  }

  lemma ParseZeros(n: nat)
    ensures Parse(Zeros(n)).msg == EMPTY
  {
    if n > 0 {
      assert Zeros(n)[0] == 0;
      assert ReadVarint(Zeros(n), MAX_VARINT_BYTES) == Good(0, Zeros(n)[1..]);
      assert NextToken(Zeros(n)) == Stop;
    } else {
      assert Zeros(n) == [];
    }
  }
}
