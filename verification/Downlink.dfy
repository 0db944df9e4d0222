/** What the client receives, in runs whose relay writes whole messages. */
module Downlink {
  import opened Wire
  import opened Utf8
  import opened Message
  import opened Framing
  import opened Device
  import opened Tunnel

  // ---------------------------------------------------------------- orderly runs

  predicate RelaysAs(b: Bytes, p: Bytes) { Sendable(Relayed(p)) && b == Frame(Encode(Relayed(p))) }

  /** A step of an orderly run: the relay writes one serialized packet, as one frame and not
      between the two appends of the reply; the client's callback finds a whole frame; and
      the reply that answers the hello fits. */
  ghost predicate OrderlyStep(s: System, e: Step, out: seq<Bytes>) {
    && Enabled(s, e)
    && (e.Relay? <==> out != [])
    && match e
       case Connect(u, p) => Sendable(Reply(Establish(u, p)))
       case Relay(b) => |s.server.replying| != 1 && |out| == 1 && RelaysAs(b, out[0])
       case ClientReads => HasFrame(s.client.input)
       case _ => true
  }

  /** The steps `es` from `s` are orderly, and the relay writes the packets `ps`. */
  ghost predicate Orderly(s: System, es: seq<Step>, ps: seq<Bytes>)
    decreases |es|
  {
    if es == [] then ps == []
    else
      var k := if es[0].Relay? then 1 else 0;
      k <= |ps| && OrderlyStep(s, es[0], ps[..k]) && Orderly(After(s, es[0]), es[1..], ps[k..])
  }

  // ------------------------------------------------- what was written, and what read

  function HelloOf(s: System): Msg
    requires s.hello.Some?
  {
    Establish(s.hello.value.0, s.hello.value.1)
  }

  /** The reply's header is out. */
  predicate Replied(s: System) { s.server.utun.Some? && |s.server.replying| < 2 }

  /** The messages written: the packets `ps`, and after `j` of them the reply. */
  function Written(s: System, ps: seq<Bytes>, j: nat, k: nat): Msg
    requires s.hello.Some? && j <= |ps| && k <= |ps|
  {
    if k < j then Relayed(ps[k]) else if k == j then Reply(HelloOf(s)) else Relayed(ps[k - 1])
  }

  function PutOut(s: System, ps: seq<Bytes>, j: nat): seq<Bytes>
    requires j <= |ps| && (s.server.utun.Some? ==> s.hello.Some?)
  {
    if s.server.utun.None? then []
    else seq(if Replied(s) then |ps| + 1 else |ps|,
             k requires 0 <= k <= |ps| => Encode(Written(s, ps, j, k)))
  }

  /** Packets that fit, and a reply to a hello in UTF-8 after `j` of them; until then all of
      them come before it. */
  ghost predicate Said(s: System, ps: seq<Bytes>, j: nat) {
    && (s.hello.Some? ==> Sendable(Reply(HelloOf(s))))
    && (s.server.utun.Some? ==> s.hello.Some? && ValidUtf8(s.hello.value.0) && ValidUtf8(s.hello.value.1))
    && (s.server.utun.None? ==> ps == [] && s.server.replying == [])
    && (forall p <- ps :: Sendable(Relayed(p)))
    && j <= |ps| && (!Replied(s) ==> j == |ps|)
    && (s.server.replying != [] ==>
          var parts := Appends(Encode(Reply(HelloOf(s))));
          s.server.replying == parts || s.server.replying == parts[1..])
  }

  /** The part of the reply that is missing when its header is out. */
  function Missing(s: System): Bytes { if |s.server.replying| == 1 then s.server.replying[0] else [] }

  /** The first `read` payloads put out were read, and the others are on their way. */
  ghost predicate Flows(s: System, ps: seq<Bytes>, j: nat, read: nat)
    requires j <= |ps| && (s.server.utun.Some? ==> s.hello.Some?)
  {
    && read <= |PutOut(s, ps, j)|
    && s.client.input + s.server.output + Missing(s) == Frames(PutOut(s, ps, j)[read..])
  }

  /** The client that began as `c0`, after so many payloads. */
  function ClientAfter(c0: Client, ps: seq<Bytes>, j: nat, read: nat): Client
    requires read <= |ps| + 1 && j <= |ps|
  {
    if read <= j then c0.(received := c0.received + ps[..read])
    else c0.(received := c0.received + ps[..read - 1], sending := true,
             ip := CLIENT_ADDRESS, gateway := CLIENT_ADDRESS, submask := NETMASK,
             dns := c0.dns + [NAME_SERVER])
  }

  predicate HasReceived(c: Client, c0: Client, ps: seq<Bytes>, j: nat, read: nat) {
    && j <= |ps| && read <= |ps| + 1 && !c0.closed
    && c == ClientAfter(c0, ps, j, read).(input := c.input)
  }

  ghost predicate DownInv(s: System, c0: Client, ps: seq<Bytes>, j: nat, read: nat) {
    Said(s, ps, j) && Flows(s, ps, j, read) && HasReceived(s.client, c0, ps, j, read)
  }

  lemma PutOutFramed(s: System, ps: seq<Bytes>, j: nat)
    requires Said(s, ps, j)
    ensures forall q <- PutOut(s, ps, j) :: Framed(q)
  {
    hide Encode, ValidUtf8;
  }

  // ------------------------------------------------------- the steps that speak to it

  lemma RelayDown(s: System, c0: Client, ps: seq<Bytes>, j: nat, read: nat, b: Bytes, p: Bytes, s': System)
    requires DownInv(s, c0, ps, j, read) && s.server.utun.Some? && |s.server.replying| != 1 && RelaysAs(b, p)
    requires s' == s.(server := s.server.(output := s.server.output + b))
    ensures DownInv(s', c0, ps + [p], if Replied(s) then j else j + 1, read)
  {
    hide Encode, Frame, Frames, ValidUtf8, Sendable, Appends;
    var j' := if Replied(s) then j else j + 1;
    var rs, q := PutOut(s, ps, j), Encode(Relayed(p));
    assert PutOut(s', ps + [p], j') == rs + [q];
    assert (rs + [q])[read..] == rs[read..] + [q];
    FramesSnoc(rs[read..], q);
    var x := s.client.input;
    assert x + s.server.output + [] == x + s.server.output && x + s'.server.output + [] == x + s'.server.output;
    Associate(x, s.server.output, b);
    assert ps <= ps + [p];
  }

  lemma CarryDownKeeps(s: System, c0: Client, ps: seq<Bytes>, j: nat, read: nat, n: nat)
    requires DownInv(s, c0, ps, j, read) && Enabled(s, CarryDown(n))
    ensures DownInv(After(s, CarryDown(n)), c0, ps, j, read)
  {
    hide Encode, Frames, ValidUtf8, Sendable, Appends, ServerCallback, ClientCallback;
    var out := s.server.output;
    Associate(s.client.input, out[..n], out[n..]);
    assert out[..n] + out[n..] == out;
    assert PutOut(After(s, CarryDown(n)), ps, j) == PutOut(s, ps, j);
  }

  /** The header of the reply: from here on the reply counts as put out. */
  lemma HeaderDown(s: System, c0: Client, ps: seq<Bytes>, j: nat, read: nat, s': System)
    requires DownInv(s, c0, ps, j, read) && |s.server.replying| == 2 && s.server.utun.Some?
    requires s' == s.(server := s.server.(output := s.server.output + s.server.replying[0],
                                          replying := s.server.replying[1..]))
    ensures DownInv(s', c0, ps, j, read)
  {
    hide Encode, Frame, Frames, ValidUtf8, Sendable;
    var rs, q := PutOut(s, ps, j), Encode(Reply(HelloOf(s)));
    assert PutOut(s', ps, j) == rs + [q];
    assert (rs + [q])[read..] == rs[read..] + [q];
    FramesSnoc(rs[read..], q);
    HeaderThenRest(s.client.input, s.server.output, q);
  }

  lemma HeaderThenRest(x: Bytes, out: Bytes, q: Bytes)
    ensures x + (out + Appends(q)[0]) + Appends(q)[1] == x + out + [] + Frame(q)
  {
    hide Header;
    var a, b := Appends(q)[0], Appends(q)[1];
    assert Frame(q) == a + b && x + out + [] == x + out;
    Associate(x, out, a);
    Associate(x + out, a, b);
  }

  lemma RestDown(s: System, c0: Client, ps: seq<Bytes>, j: nat, read: nat, s': System)
    requires DownInv(s, c0, ps, j, read) && |s.server.replying| == 1 && s.server.utun.Some?
    requires s' == s.(server := s.server.(output := s.server.output + s.server.replying[0], replying := []))
    ensures DownInv(s', c0, ps, j, read)
  {
    hide Encode, Frame, Frames, ValidUtf8, Sendable, Appends;
    assert PutOut(s', ps, j) == PutOut(s, ps, j);
    var x, r := s.client.input, s.server.replying[0];
    Associate(x, s.server.output, r);
    assert x + s'.server.output + [] == x + s'.server.output;
  }

  lemma WriteReplyDown(s: System, e: Step, c0: Client, ps: seq<Bytes>, j: nat, read: nat)
    requires DownInv(s, c0, ps, j, read) && e.WriteReply? && Enabled(s, e)
    ensures DownInv(After(s, e), c0, ps, j, read)
  {
    hide Encode, Frames, ValidUtf8, Sendable, Flows, HasReceived, ServerCallback, ClientCallback;
    if |s.server.replying| == 2 {
      HeaderDown(s, c0, ps, j, read, After(s, e));
    } else {
      assert s.server.replying[1..] == [];
      RestDown(s, c0, ps, j, read, After(s, e));
    }
  }

  lemma ReadsNext(s: System, ps: seq<Bytes>, j: nat, read: nat)
    requires Said(s, ps, j) && Flows(s, ps, j, read) && HasFrame(s.client.input) && !s.client.closed
    ensures s.hello.Some? && read <= |ps| && (!Replied(s) ==> read < |ps|)
    ensures var m, c' := Written(s, ps, j, read), ClientCallback(s.client);
            && c' == Receive(s.client.(input := c'.input), m)
            && Flows(s.(client := c'), ps, j, read + 1)
  {
    hide Encode, Frame, Frames, HasFrame, FirstPayload, Rest, ClientCallback, Parse, ValidUtf8, ValidStrings, Sendable, Receive, Appends;
    var rs := PutOut(s, ps, j);
    var coming := s.server.output + Missing(s);
    PutOutFramed(s, ps, j);
    Associate(s.client.input, s.server.output, Missing(s));
    FirstFrame(s.client.input, coming, rs[read..]);
    FrameSplits(s.client.input);
    var m := Written(s, ps, j, read);
    if read == j {
      HelloStrings(s.hello.value.0, s.hello.value.1);
      ReplyStrings(HelloOf(s));
    } else {
      RelayedStrings(if read < j then ps[read] else ps[read - 1]);
    }
    ParsesBack(m);
    assert rs[read] == Encode(m);
    ClientReadsWhole(s.client, Encode(m), Rest(s.client.input));
    var c' := ClientCallback(s.client);
    ReceiveLeavesInput(s.client.(input := Rest(s.client.input)), m);
    assert rs[read..][1..] == rs[read + 1..];
    assert PutOut(s.(client := c'), ps, j) == rs;
    Associate(c'.input, s.server.output, Missing(s));
  }

  lemma ReceiveLeavesInput(c: Client, m: Msg)
    ensures Receive(c, m).input == c.input
  {
  }

  lemma ReceivesNext(s: System, c0: Client, ps: seq<Bytes>, j: nat, read: nat, c: Client)
    requires s.hello.Some? && read <= |ps| && HasReceived(s.client, c0, ps, j, read)
    requires c == Receive(s.client.(input := c.input), Written(s, ps, j, read))
    ensures HasReceived(c, c0, ps, j, read + 1)
  {
    if read < j {
      assert ps[..read] + [ps[read]] == ps[..read + 1];
    } else if read > j {
      assert ps[..read - 1] + [ps[read - 1]] == ps[..read];
    }
  }

  lemma ClientReadsDown(s: System, e: Step, c0: Client, ps: seq<Bytes>, j: nat, read: nat)
    requires DownInv(s, c0, ps, j, read) && HasFrame(s.client.input) && e.ClientReads?
    ensures DownInv(After(s, e), c0, ps, j, read + 1)
  {
    hide Encode, HasFrame, ClientCallback, ValidUtf8, ValidStrings, Sendable, Receive, Written, Flows, HasReceived, Appends;
    HearsOn(s.client, c0, ps, j, read);
    ReadsNext(s, ps, j, read);
    ReceivesNext(s, c0, ps, j, read, ClientCallback(s.client));
  }

  lemma HearsOn(c: Client, c0: Client, ps: seq<Bytes>, j: nat, read: nat)
    ensures HasReceived(c, c0, ps, j, read) ==> !c.closed
  {
  }

  lemma ServerReadsDown(s: System, e: Step, c0: Client, ps: seq<Bytes>, j: nat, read: nat)
    requires Inv(s) && DownInv(s, c0, ps, j, read) && e.ServerReads? && Enabled(s, e)
    ensures DownInv(After(s, e), c0, ps, j, read)
  {
    hide DownInv, Encode, Frame, Frames, HasFrame, FirstPayload, Rest, Parse, ValidUtf8, Sendable, Appends;
    if HasFrame(s.server.input) {
      RequestsFramed(s);
      FirstFrame(s.server.input, s.up, Requests(s)[s.consumed..]);
      if s.consumed == 0 {
        ReplyIsDue(s, e, c0, ps, j, read);
      } else {
        DataRoundTrip(s.sent[s.consumed - 1]);
        Unseen(s, After(s, e), c0, ps, j, read);
      }
    }
  }

  /** Nothing changes that the client could come to see. */
  lemma Unseen(s: System, s': System, c0: Client, ps: seq<Bytes>, j: nat, read: nat)
    requires DownInv(s, c0, ps, j, read) && (s'.server.utun.Some? <==> s.server.utun.Some?)
    requires s'.client == s.client && s'.hello == s.hello
    requires s'.server.output == s.server.output && s'.server.replying == s.server.replying
    ensures DownInv(s', c0, ps, j, read)
  {
    hide Encode, Frames, Appends, ValidUtf8, Sendable;
    assert PutOut(s', ps, j) == PutOut(s, ps, j);
  }

  lemma ReplyIsDue(s: System, e: Step, c0: Client, ps: seq<Bytes>, j: nat, read: nat)
    requires Inv(s) && DownInv(s, c0, ps, j, read) && e.ServerReads? && Enabled(s, e) && s.consumed == 0
    requires s.hello.Some? && HasFrame(s.server.input)
    requires FirstPayload(s.server.input) == Encode(HelloOf(s))
    ensures DownInv(After(s, e), c0, ps, j, read)
  {
    hide Encode, Frame, HasFrame, FirstPayload, Rest, Parse, ValidUtf8, Sendable, Appends;
    var s' := After(s, e);
    HelloParses(s.hello.value.0, s.hello.value.1);
    assert s.server.utun.None? && ps == [] && read == 0;
    if s'.server.utun.Some? {
      var parts := Appends(Encode(Reply(HelloOf(s))));
      assert [] + parts == parts;
      assert PutOut(s', ps, j) == [];
    }
  }

  lemma HelloStrings(u: Bytes, p: Bytes)
    requires ValidUtf8(u) && ValidUtf8(p)
    ensures ValidStrings(Establish(u, p))
  {
    AsciiIsUtf8([]);
  }

  // ------------------------------------------------------------------------- runs

  lemma ConnectDown(s: System, s': System, c0: Client, ps: seq<Bytes>, j: nat, read: nat)
    requires DownInv(s, c0, ps, j, read) && s.server.utun.None? && s'.hello.Some? && Sendable(Reply(HelloOf(s')))
    requires s'.client == s.client && s'.server == s.server
    ensures DownInv(s', c0, ps, j, read)
  {
    hide Encode, Frames, Appends, ValidUtf8, Sendable;
    assert PutOut(s', ps, j) == PutOut(s, ps, j);
  }

  lemma OtherStepDown(s: System, e: Step, c0: Client, ps: seq<Bytes>, j: nat, read: nat)
    requires Inv(s) && DownInv(s, c0, ps, j, read) && OrderlyStep(s, e, [])
    requires e.Connect? || e.Send? || e.CarryUp? || e.DeviceWrites?
    ensures DownInv(After(s, e), c0, ps, j, read)
  {
    hide DownInv, Encode, Frame, Frames, HasFrame, Sendable, Reply, Establish;
    if e.Connect? { ConnectDown(s, After(s, e), c0, ps, j, read); } else { Unseen(s, After(s, e), c0, ps, j, read); }
  }

  lemma StepDown(s: System, e: Step, c0: Client, ps: seq<Bytes>, j: nat, read: nat, out: seq<Bytes>)
    requires Inv(s) && DownInv(s, c0, ps, j, read) && OrderlyStep(s, e, out)
    ensures DownInv(After(s, e), c0, ps + out, if e.Relay? && !Replied(s) then j + 1 else j,
                    if e.ClientReads? then read + 1 else read)
  {
    hide Inv, DownInv, HasFrame, Sendable, RelaysAs, ServerCallback, ClientCallback;
    if e.Relay? {
      assert out == [out[0]];
      RelayDown(s, c0, ps, j, read, e.bytes, out[0], After(s, e));
    } else {
      assert ps + out == ps;
      match e
      case CarryDown(n) => CarryDownKeeps(s, c0, ps, j, read, n);
      case WriteReply => WriteReplyDown(s, e, c0, ps, j, read);
      case ClientReads => ClientReadsDown(s, e, c0, ps, j, read);
      case ServerReads(_) => ServerReadsDown(s, e, c0, ps, j, read);
      case _ => OtherStepDown(s, e, c0, ps, j, read);
    }
  }

  /** The reply is begun once: its first append is the first reply step of the run. */
  lemma RepliedOnce(s: System, e: Step, c0: Client, ps: seq<Bytes>, j: nat, read: nat)
    requires Inv(s) && DownInv(s, c0, ps, j, read) && Enabled(s, e)
    ensures Replied(After(s, e)) <==> Replied(s) || e.WriteReply?
  {
    hide Encode, Frames, Frame, HasFrame, FirstPayload, Rest, Parse, Appends, ValidUtf8, Sendable;
    if s.server.utun.Some? { InterfaceStays(s, e); }
  }

  /** The client's callbacks in a run. */
  function ClientTurns(es: seq<Step>): nat {
    if es == [] then 0 else (if es[0].ClientReads? then 1 else 0) + ClientTurns(es[1..])
  }

  /** The packets relayed between the start of the relay's thread and the reply. */
  function EarlyRelays(es: seq<Step>): nat {
    if es == [] || es[0].WriteReply? then 0 else (if es[0].Relay? then 1 else 0) + EarlyRelays(es[1..])
  }

  lemma {:induction false} RunDown(s: System, es: seq<Step>, c0: Client, ps: seq<Bytes>, j: nat, read: nat, qs: seq<Bytes>, s': System)
    requires Inv(s) && DownInv(s, c0, ps, j, read) && Reaches(s, es, s') && Orderly(s, es, qs)
    ensures DownInv(s', c0, ps + qs, if Replied(s) then j else j + EarlyRelays(es), read + ClientTurns(es))
    decreases |es|
  {
    hide Inv, DownInv, OrderlyStep, Enabled, After, Replied;
    if es == [] {
      assert ps + qs == ps;
    } else {
      var e := es[0];
      var k := if e.Relay? then 1 else 0;
      StepInv(s, e);
      StepDown(s, e, c0, ps, j, read, qs[..k]);
      RepliedOnce(s, e, c0, ps, j, read);
      RunDown(After(s, e), es[1..], c0, ps + qs[..k], if e.Relay? && !Replied(s) then j + 1 else j,
              if e.ClientReads? then read + 1 else read, qs[k..], s');
      assert ps + qs[..k] + qs[k..] == ps + qs;
    }
  }

  /** In every orderly run the client is as after that many payloads, of which the reply is
      the one after the packets relayed early.  Those received are the first ones relayed,
      the client sends, with the server's addresses, exactly if it has read more payloads
      than there were early packets (so its first callback reads the reply exactly if there
      were none), and once all was read it has all packets. */
  lemma DownlinkInOrder(s0: System, es: seq<Step>, ps: seq<Bytes>, s: System)
    requires Init(s0) && Reaches(s0, es, s) && Orderly(s0, es, ps)
    ensures var c0, c, n, j := s0.client, s.client, ClientTurns(es), EarlyRelays(es);
            && j <= |ps| && n <= |ps| + 1 && !c.closed
            && (c.sending <==> n > j)
            && c.received == c0.received + (if n > j then ps[..n - 1] else ps[..n])
            && (if n > j then c.ip == IP_10_1_21_2 && c.gateway == IP_10_1_21_2 && c.submask == IP_255_255_255_0
                              && c.dns == c0.dns + [IP_8_8_8_8]
                else c == c0.(input := c.input, received := c.received))
            && (s.server.utun.Some? && s.server.replying == [] && s.server.output == [] && c.input == [] ==>
                  c.sending && c.received == c0.received + ps)
  {
    hide Reaches, Orderly, Inv, Init, Said, Flows, After, Enabled, Encode, Ascii;
    var n, j := ClientTurns(es), EarlyRelays(es);
    Addresses();
    InitInv(s0);
    InitDown(s0);
    RunDown(s0, es, s0.client, [], 0, 0, ps, s);
    assert [] + ps == ps;
    ReadSome(s, ps, j, n);
    if s.server.utun.Some? && s.server.replying == [] && s.server.output == [] && s.client.input == [] {
      AllRead(s, ps, j, n);
      assert ps[..|ps|] == ps;
    }
  }

  lemma InitDown(s: System)
    requires Init(s)
    ensures DownInv(s, s.client, [], 0, 0) && !s.client.sending && !Replied(s)
  {
    assert s.client.received + [] == s.client.received;
  }

  lemma ReadSome(s: System, ps: seq<Bytes>, j: nat, read: nat)
    requires Said(s, ps, j) && Flows(s, ps, j, read)
    ensures read <= |ps| + 1 && (read > |ps| ==> Replied(s))
  {
    hide Encode, Frames;
  }

  lemma AllRead(s: System, ps: seq<Bytes>, j: nat, read: nat)
    requires Said(s, ps, j) && Flows(s, ps, j, read) && s.server.utun.Some?
    requires s.client.input == [] && s.server.output == [] && s.server.replying == []
    ensures read == |ps| + 1
  {
    hide Encode;
    var rest := PutOut(s, ps, j)[read..];
    assert rest != [] ==> |Frames(rest)| >= 4;
  }

  // --------------------------------------------------- a packet read before the reply

  ghost predicate OrderlyTo(s: System, e: Step, out: seq<Bytes>, s': System) {
    OrderlyStep(s, e, out) && s' == After(s, e)
  }

  lemma OrderlyCons(s: System, e: Step, out: seq<Bytes>, s1: System, es: seq<Step>, ps: seq<Bytes>, s': System)
    requires OrderlyTo(s, e, out, s1) && Orderly(s1, es, ps) && Reaches(s1, es, s')
    ensures Orderly(s, [e] + es, out + ps) && Reaches(s, [e] + es, s')
    ensures ClientTurns([e] + es) == ClientTurns(es) + if e.ClientReads? then 1 else 0
    ensures EarlyRelays([e] + es) ==
            if e.WriteReply? then 0 else EarlyRelays(es) + if e.Relay? then 1 else 0
  {
    hide After, Enabled, RelaysAs, Sendable;
    assert ([e] + es)[1..] == es && |out| == if e.Relay? then 1 else 0;
    assert (out + ps)[..|out|] == out && (out + ps)[|out|..] == ps;
  }

  lemma FitsFrame(m: Msg)
    requires Sendable(m)
    ensures Framed(Encode(m))
  {
  }

  lemma HelloArrives(s0: System, e1: Step, e2: Step, e3: Step) returns (s1: System, s2: System, s3: System)
    requires Init(s0) && e1.Connect? && ValidUtf8(e1.username) && ValidUtf8(e1.password)
    requires Sendable(Establish(e1.username, e1.password)) && Sendable(Reply(Establish(e1.username, e1.password)))
    requires e2.CarryUp? && e2.n == |Frame(Encode(Establish(e1.username, e1.password)))|
    requires e3.ServerReads? && e3.created
    ensures OrderlyTo(s0, e1, [], s1) && OrderlyTo(s1, e2, [], s2) && OrderlyTo(s2, e3, [], s3)
    ensures s3.server.utun.Some? && s3.server.replying == Appends(Encode(Reply(Establish(e1.username, e1.password))))
    ensures s3.server.output == [] && s3.client == s0.client && s3.client.input == [] && !s3.client.closed
  {
    hide Encode, Frame, Parse, ServerCallback, ClientCallback, Sendable, ValidUtf8, Appends, HasFrame;
    var h := Establish(e1.username, e1.password);
    var f := Frame(Encode(h));
    HelloParses(e1.username, e1.password);
    FitsFrame(h);
    assert [] + f == f && [] + f[..|f|] == f && f + [] == f;
    s1 := After(s0, e1);
    s2 := After(s1, e2);
    ServerReadsWhole(s2.server, Encode(h), [], true);
    assert [] + Appends(Encode(Reply(h))) == Appends(Encode(Reply(h)));
    s3 := After(s2, e3);
  }

  lemma PacketOvertakes(s: System, q: Bytes, e1: Step, e2: Step, e3: Step) returns (s1: System, s2: System, s3: System)
    requires s.server.utun.Some? && |s.server.replying| == 2 && s.server.output == [] && s.client.input == []
    requires e1.Relay? && RelaysAs(e1.bytes, q) && e2.CarryDown? && e2.n == |e1.bytes| && e3.ClientReads?
    ensures OrderlyTo(s, e1, [q], s1) && OrderlyTo(s1, e2, [], s2) && OrderlyTo(s2, e3, [], s3)
  {
    hide Encode, Frame, ServerCallback, ClientCallback, Sendable, HasFrame, FirstPayload, Rest, Relayed, Reply, Establish;
    var f := e1.bytes;
    FitsFrame(Relayed(q));
    FrameReads(Encode(Relayed(q)), []);
    assert [] + f == f && f + [] == f && [] + f[..|f|] == f;
    s1 := After(s, e1);
    s2 := After(s1, e2);
    s3 := After(s2, e3);
  }

  /** The interface is there, and its thread at work, before the reply is written: whatever
      the credentials and the packet, there is a run in which the packet comes first. */
  lemma PacketFirst(s0: System, u: Bytes, p: Bytes, q: Bytes) returns (es: seq<Step>, s: System)
    requires Init(s0) && ValidUtf8(u) && ValidUtf8(p) && Sendable(Establish(u, p))
    requires Sendable(Reply(Establish(u, p))) && Sendable(Relayed(q))
    ensures Reaches(s0, es, s) && Orderly(s0, es, [q])
    ensures s.client.received == s0.client.received + [q] && !s.client.sending
  {
    hide *;
    var e1, e2, e3 := Connect(u, p), CarryUp(|Frame(Encode(Establish(u, p)))|), ServerReads(true);
    var b := Frame(Encode(Relayed(q)));
    var e4, e5, e6 := Relay(b), CarryDown(|b|), ClientReads;
    RelaysWhole(q);
    var s1, s2, s3 := HelloArrives(s0, e1, e2, e3);
    var s4, s5, s6 := PacketOvertakes(s3, q, e4, e5, e6);
    s := s6;
    var none: seq<Bytes> := [];
    assert none + none == none && [q] + none == [q] && none + [q] == [q];
    NoSteps(s);
    OrderlyCons(s5, e6, none, s6, [], none, s);
    var t5 := [e6] + [];
    OrderlyCons(s4, e5, none, s5, t5, none, s);
    var t4 := [e5] + t5;
    OrderlyCons(s3, e4, [q], s4, t4, none, s);
    var t3 := [e4] + t4;
    OrderlyCons(s2, e3, none, s3, t3, [q], s);
    var t2 := [e3] + t3;
    OrderlyCons(s1, e2, none, s2, t2, [q], s);
    var t1 := [e2] + t2;
    OrderlyCons(s0, e1, none, s1, t1, [q], s);
    es := [e1] + t1;
    OnlyPacket(s0, es, q, s);
  }

  lemma NoSteps(s: System)
    ensures Orderly(s, [], []) && Reaches(s, [], s) && ClientTurns([]) == EarlyRelays([]) == 0
  {
  }

  lemma RelaysWhole(q: Bytes)
    requires Sendable(Relayed(q))
    ensures RelaysAs(Frame(Encode(Relayed(q))), q)
  {
  }

  lemma OnlyPacket(s0: System, es: seq<Step>, q: Bytes, s: System)
    requires Init(s0) && Reaches(s0, es, s) && Orderly(s0, es, [q]) && ClientTurns(es) == EarlyRelays(es) == 1
    ensures s.client.received == s0.client.received + [q] && !s.client.sending
  {
    hide *;
    DownlinkInOrder(s0, es, [q], s);
    assert [q][..1] == [q];
  }
}
