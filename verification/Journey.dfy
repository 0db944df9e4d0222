/** One whole journey: from a fresh start to a packet on the device. */
module Journey {
  import opened Wire
  import opened Utf8
  import opened Message
  import opened Framing
  import opened Device
  import opened Tunnel
  import opened Downlink

  ghost predicate Goes(s: System, e: Step, s': System) { Enabled(s, e) && s' == After(s, e) }

  lemma ReachesCons(s: System, e: Step, s1: System, es: seq<Step>, s': System)
    requires Goes(s, e, s1) && Reaches(s1, es, s')
    ensures Reaches(s, [e] + es, s')
  {
    hide Enabled, After;
    assert ([e] + es)[1..] == es;
  }

  lemma {:induction false} RunsJoin(s: System, es: seq<Step>, s1: System, fs: seq<Step>, s': System)
    requires Reaches(s, es, s1) && Reaches(s1, fs, s')
    ensures Reaches(s, es + fs, s')
    decreases |es|
  {
    hide Enabled, After;
    if es == [] {
      assert es + fs == fs;
    } else {
      assert (es + fs)[1..] == es[1..] + fs;
      RunsJoin(After(s, es[0]), es[1..], s1, fs, s');
    }
  }

  lemma StepReaches(s: System, e: Step, s': System)
    requires Goes(s, e, s')
    ensures Reaches(s, [e], s')
  {
    hide Enabled, After;
    assert [e][1..] == [];
  }

  /** The hello goes up and the server's callback makes the interface and its reply. */
  lemma HelloUp(s0: System, u: Bytes, p: Bytes) returns (es: seq<Step>, s: System)
    requires Init(s0) && ValidUtf8(u) && ValidUtf8(p) && Sendable(Establish(u, p))
    ensures Reaches(s0, es, s) && s.client == s0.client && s.up == [] && s.hello.Some? && s.sent == []
    ensures s.server == Server([], [], Appends(Encode(Reply(Establish(u, p)))), Some(UNUSED), false)
  {
    hide Encode, Frame, Parse, ServerCallback, ClientCallback, Sendable, ValidUtf8, Appends, HasFrame, Reaches;
    var h := Establish(u, p);
    var f := Frame(Encode(h));
    HelloParses(u, p);
    FitsFrame(h);
    assert [] + f == f && [] + f[..|f|] == f && f + [] == f && f[|f|..] == [];
    var e1, e2, e3 := Connect(u, p), CarryUp(|f|), ServerReads(true);
    var s1 := After(s0, e1);
    var s2 := After(s1, e2);
    ServerReadsWhole(s2.server, Encode(h), [], true);
    assert [] + Appends(Encode(Reply(h))) == Appends(Encode(Reply(h)));
    s := After(s2, e3);
    StepReaches(s2, e3, s);
    ReachesCons(s1, e2, s2, [e3], s);
    ReachesCons(s0, e1, s1, [e2] + [e3], s);
    es := [e1] + ([e2] + [e3]);
  }

  /** The two appends of the reply go down and the client takes its addresses. */
  lemma ReplyDown(s0: System, h: Msg) returns (es: seq<Step>, s: System)
    requires s0.server.replying == Appends(Encode(Reply(h))) && s0.server.output == []
    requires s0.client.input == [] && !s0.client.closed && ValidStrings(h) && Sendable(Reply(h))
    ensures Reaches(s0, es, s)
    ensures s.client == s0.client.(sending := true, ip := IP_10_1_21_2, gateway := IP_10_1_21_2,
                                   submask := IP_255_255_255_0, dns := s0.client.dns + (h.dns + [IP_8_8_8_8]))
    ensures s == s0.(client := s.client, server := s0.server.(replying := []))
  {
    hide Encode, Frame, Parse, ServerCallback, ClientCallback, Sendable, ValidStrings, Appends, HasFrame, Reaches;
    var m := Reply(h);
    var f := Frame(Encode(m));
    var a: seq<Bytes> := Appends(Encode(m));
    var none: seq<Bytes> := [];
    Addresses();
    ReplyStrings(h);
    ParsesBack(m);
    AppendsMakeFrame(Encode(m));
    FlattenCons(a[0], [a[1]]);
    FlattenCons(a[1], none);
    assert a == [a[0]] + [a[1]] && [a[1]] + none == [a[1]] && a[1..][1..] == none && a[1..] == [a[1]];
    assert a[1] + [] == a[1] && [] + a[0] == a[0];
    assert [] + f[..|f|] == f && f[|f|..] == [] && f + [] == f;
    var e := WriteReply;
    var s1 := After(s0, e);
    var s2 := After(s1, e);
    assert s2.server.output == f;
    var s3 := After(s2, CarryDown(|f|));
    ClientReadsWhole(s3.client, Encode(m), []);
    s := After(s3, ClientReads);
    StepReaches(s3, ClientReads, s);
    ReachesCons(s2, CarryDown(|f|), s3, [ClientReads], s);
    ReachesCons(s1, e, s2, [CarryDown(|f|)] + [ClientReads], s);
    es := [e] + ([CarryDown(|f|)] + [ClientReads]);
    ReachesCons(s0, e, s1, es, s);
    es := [e] + es;
  }

  /** A packet goes up and through the interface. */
  lemma PacketUp(s0: System, q: Bytes) returns (es: seq<Step>, s: System)
    requires s0.client.sending && !s0.client.closed && Sendable(DataRequest(q)) && s0.up == [] && s0.server.input == []
    requires s0.server.utun.Some? && !Busy(s0.server) && !s0.server.crashed
    ensures Reaches(s0, es, s) && s.client == s0.client && s.sent == s0.sent + [q]
    ensures var i := s0.server.utun.value; s.server.utun == Some(Interface(i.packets + [q], i.device + q, []))
  {
    hide Encode, Frame, Parse, ServerCallback, ClientCallback, Sendable, HasFrame, Reaches;
    var r := DataRequest(q);
    var f := Frame(Encode(r));
    DataRoundTrip(q);
    FitsFrame(r);
    assert [] + f == f && [] + f[..|f|] == f && f + [] == f;
    var s1 := After(s0, Send(q));
    var s2 := After(s1, CarryUp(|f|));
    ServerReadsWhole(s2.server, Encode(r), [], true);
    var s3 := After(s2, ServerReads(true));
    assert [] + q == q;
    if q == [] {
      s := s3;
      assert s0.server.utun.value.device + [] == s0.server.utun.value.device;
      StepReaches(s2, ServerReads(true), s);
      es := [ServerReads(true)];
    } else {
      s := After(s3, DeviceWrites(|q|));
      assert q[..|q|] == q && q[|q|..] == [];
      StepReaches(s3, DeviceWrites(|q|), s);
      ReachesCons(s2, ServerReads(true), s3, [DeviceWrites(|q|)], s);
      es := [ServerReads(true)] + [DeviceWrites(|q|)];
    }
    ReachesCons(s1, CarryUp(|f|), s2, es, s);
    es := [CarryUp(|f|)] + es;
    ReachesCons(s0, Send(q), s1, es, s);
    es := [Send(q)] + es;
  }

  /** Whatever the credentials and the packet, there is a run from a fresh start at whose end
      the client has its addresses and the device exactly the packet. */
  lemma PacketArrives(c: Client, u: Bytes, p: Bytes, q: Bytes) returns (es: seq<Step>, s: System)
    requires c.input == [] && !c.sending && !c.closed && ValidUtf8(u) && ValidUtf8(p)
    requires Sendable(Establish(u, p)) && Sendable(Reply(Establish(u, p))) && Sendable(DataRequest(q))
    ensures Reaches(System(c, [], Server([], [], [], None, false), None, [], 0), es, s)
    ensures s.sent == [q] && s.server.utun == Some(Interface([q], q, []))
    ensures s.client == c.(sending := true, ip := IP_10_1_21_2, gateway := IP_10_1_21_2,
                           submask := IP_255_255_255_0, dns := c.dns + [IP_8_8_8_8])
  {
    var s0 := System(c, [], Server([], [], [], None, false), None, [], 0);
    assert Init(s0) && !Busy(Server([], [], [], Some(UNUSED), false));
    assert [] + [IP_8_8_8_8] == [IP_8_8_8_8] && [] + [q] == [q] && [] + q == q;
    HelloStrings(u, p);
    hide Init, Reaches, Enabled, After, Encode, Appends, Sendable, ValidUtf8, ValidStrings, Reply, Busy;
    var es1, s1 := HelloUp(s0, u, p);
    var es2, s2 := ReplyDown(s1, Establish(u, p));
    var es3;
    es3, s := PacketUp(s2, q);
    RunsJoin(s1, es2, s2, es3, s);
    es := es1 + (es2 + es3);
    RunsJoin(s0, es1, s1, es2 + es3, s);
  }

  // ------------------------------------------------------------------------- down

  lemma {:induction false} OrderlyJoin(s: System, es: seq<Step>, ps: seq<Bytes>, s1: System, fs: seq<Step>, qs: seq<Bytes>, s': System)
    requires Orderly(s, es, ps) && Reaches(s, es, s1) && Orderly(s1, fs, qs) && Reaches(s1, fs, s')
    ensures Orderly(s, es + fs, ps + qs) && Reaches(s, es + fs, s')
    decreases |es|
  {
    hide Enabled, After, OrderlyStep;
    if es == [] {
      assert es + fs == fs && ps + qs == qs;
    } else {
      var k := if es[0].Relay? then 1 else 0;
      assert (es + fs)[1..] == es[1..] + fs && (ps + qs)[..k] == ps[..k] && (ps + qs)[k..] == ps[k..] + qs;
      OrderlyJoin(After(s, es[0]), es[1..], ps[k..], s1, fs, qs, s');
    }
  }

  predicate Replies(es: seq<Step>) { exists e <- es :: e.WriteReply? }

  lemma {:induction false} TurnsJoin(es: seq<Step>, fs: seq<Step>)
    ensures ClientTurns(es + fs) == ClientTurns(es) + ClientTurns(fs)
    ensures EarlyRelays(es + fs) == EarlyRelays(es) + if Replies(es) then 0 else EarlyRelays(fs)
    ensures Replies(es + fs) <==> Replies(es) || Replies(fs)
    decreases |es|
  {
    if es == [] {
      assert es + fs == fs;
    } else {
      assert (es + fs)[1..] == es[1..] + fs && es == [es[0]] + es[1..];
      TurnsJoin(es[1..], fs);
    }
  }

  lemma RepliesCons(e: Step, es: seq<Step>)
    ensures Replies([e] + es) <==> e.WriteReply? || Replies(es)
    ensures !Replies([])
  {
    var f := [e] + es;
    assert f[0] == e && forall x <- f :: x == e || x in es;
    assert forall x <- es :: x in f;
  }

  /** Between messages: nothing is on its way down and the reply is not half written. */
  predicate Between(s: System) {
    && s.server.utun.Some? && |s.server.replying| != 1 && s.server.output == []
    && s.client.input == [] && !s.client.closed
  }

  lemma RelayOne(s: System, q: Bytes) returns (es: seq<Step>, s': System)
    requires Between(s) && Sendable(Relayed(q))
    ensures Orderly(s, es, [q]) && Reaches(s, es, s') && Between(s')
    ensures s' == s.(client := s'.client)
    ensures ClientTurns(es) == EarlyRelays(es) == 1 && !Replies(es)
  {
    hide Encode, Frame, ServerCallback, ClientCallback, Sendable, HasFrame, FirstPayload, Rest, Relayed, Reply, Establish, Orderly, Reaches;
    var f := Frame(Encode(Relayed(q)));
    var none: seq<Bytes> := [];
    FitsFrame(Relayed(q));
    FrameReads(Encode(Relayed(q)), []);
    assert [] + f == f && f + [] == f && [] + f[..|f|] == f && f[|f|..] == [] && [q] + none == [q] && none + none == none;
    var e1, e2, e3 := Relay(f), CarryDown(|f|), ClientReads;
    var s1 := After(s, e1);
    var s2 := After(s1, e2);
    RelayedArrives(q, s2.client, []);
    s' := After(s2, e3);
    NoSteps(s');
    OrderlyCons(s2, e3, none, s', [], none, s');
    OrderlyCons(s1, e2, none, s2, [e3] + [], none, s');
    OrderlyCons(s, e1, [q], s1, [e2] + ([e3] + []), none, s');
    es := [e1] + ([e2] + ([e3] + []));
  }

  lemma {:induction false} RelayEach(s: System, ps: seq<Bytes>) returns (es: seq<Step>, s': System)
    requires Between(s) && forall p <- ps :: Sendable(Relayed(p))
    ensures Orderly(s, es, ps) && Reaches(s, es, s') && Between(s')
    ensures s' == s.(client := s'.client)
    ensures ClientTurns(es) == EarlyRelays(es) == |ps| && !Replies(es)
    decreases |ps|
  {
    assert !Replies([]);
    hide Orderly, Reaches, Between, Sendable, Relayed, Replies;
    if ps == [] {
      es, s' := [], s;
      NoSteps(s);
    } else {
      assert ps == [ps[0]] + ps[1..];
      var es1, s1 := RelayOne(s, ps[0]);
      var es2;
      es2, s' := RelayEach(s1, ps[1..]);
      OrderlyJoin(s, es1, [ps[0]], s1, es2, ps[1..], s');
      TurnsJoin(es1, es2);
      es := es1 + es2;
    }
  }

  /** The steps of `ReplyDown` are orderly too. */
  lemma ReplyOrderly(s0: System, h: Msg) returns (es: seq<Step>, s: System)
    requires Between(s0) && s0.server.replying == Appends(Encode(Reply(h)))
    requires ValidStrings(h) && Sendable(Reply(h))
    ensures Orderly(s0, es, []) && Reaches(s0, es, s) && Between(s)
    ensures ClientTurns(es) == 1 && EarlyRelays(es) == 0 && Replies(es)
  {
    hide *;
    var e, e3, e4 := WriteReply, CarryDown(|Frame(Encode(Reply(h)))|), ClientReads;
    var s1, s2, s3;
    s1, s2, s3, s := ReplySteps(s0, h, e3);
    var none: seq<Bytes> := [];
    assert none + none == none;
    NoSteps(s);
    RepliesCons(e, [e] + ([e3] + ([e4] + [])));
    OrderlyCons(s3, e4, none, s, [], none, s);
    OrderlyCons(s2, e3, none, s3, [e4] + [], none, s);
    OrderlyCons(s1, e, none, s2, [e3] + ([e4] + []), none, s);
    OrderlyCons(s0, e, none, s1, [e] + ([e3] + ([e4] + [])), none, s);
    es := [e] + ([e] + ([e3] + ([e4] + [])));
  }

  lemma ReplySteps(s0: System, h: Msg, e3: Step) returns (s1: System, s2: System, s3: System, s: System)
    requires Between(s0) && s0.server.replying == Appends(Encode(Reply(h))) && ValidStrings(h) && Sendable(Reply(h))
    requires e3 == CarryDown(|Frame(Encode(Reply(h)))|)
    ensures OrderlyTo(s0, WriteReply, [], s1) && OrderlyTo(s1, WriteReply, [], s2)
    ensures OrderlyTo(s2, e3, [], s3) && OrderlyTo(s3, ClientReads, [], s) && Between(s)
  {
    hide Encode, Frame, Parse, ServerCallback, ClientCallback, Sendable, ValidStrings, Appends, HasFrame, FirstPayload, Rest, Reply;
    var m := Reply(h);
    var f := Frame(Encode(m));
    var a: seq<Bytes> := Appends(Encode(m));
    ReplyStrings(h);
    ParsesBack(m);
    ReplyFields(h);
    FrameReads(Encode(m), []);
    AppendsJoin(Encode(m));
    assert [] + f[..|f|] == f && f[|f|..] == [] && f + [] == f && [] + a[0] == a[0];
    s1 := After(s0, WriteReply);
    s2 := After(s1, WriteReply);
    assert s2.server.output == f;
    s3 := After(s2, e3);
    ClientReadsWhole(s3.client, Encode(m), []);
    s := After(s3, ClientReads);
  }

  lemma ReplyFields(h: Msg)
    ensures Reply(h).kind == 1 && Reply(h).code == 1
  {
  }

  lemma AppendsJoin(q: Bytes)
    ensures Appends(q)[0] + Appends(q)[1] == Frame(q)
  {
  }

  /** The reply can come after any number of the packets, none and all included: for every
      list of packets and every place in it there is such a run, and at its end the client
      has all packets in order and is sending. */
  lemma AnyDownlink(s0: System, u: Bytes, p: Bytes, ps: seq<Bytes>, j: nat) returns (es: seq<Step>, s: System)
    requires Init(s0) && ValidUtf8(u) && ValidUtf8(p) && Sendable(Establish(u, p))
    requires Sendable(Reply(Establish(u, p))) && j <= |ps| && forall q <- ps :: Sendable(Relayed(q))
    ensures Reaches(s0, es, s) && Orderly(s0, es, ps) && EarlyRelays(es) == j
    ensures s.client.sending && s.client.received == s0.client.received + ps
  {
    hide *;
    HelloStrings(u, p);
    var es1, s1 := HelloOrderly(s0, u, p);
    var es2, s2 := RelayEach(s1, ps[..j]);
    var es3, s3 := ReplyOrderly(s2, Establish(u, p));
    var es4;
    es4, s := RelayEach(s3, ps[j..]);
    OrderlyJoin(s2, es3, [], s3, es4, ps[j..], s);
    OrderlyJoin(s1, es2, ps[..j], s2, es3 + es4, [] + ps[j..], s);
    OrderlyJoin(s0, es1, [], s1, es2 + (es3 + es4), ps[..j] + ([] + ps[j..]), s);
    TurnsJoin(es3, es4);
    TurnsJoin(es2, es3 + es4);
    TurnsJoin(es1, es2 + (es3 + es4));
    es := es1 + (es2 + (es3 + es4));
    assert [] + (ps[..j] + ([] + ps[j..])) == ps;
    AllRelayed(s0, es, ps, s);
  }

  lemma AllRelayed(s0: System, es: seq<Step>, ps: seq<Bytes>, s: System)
    requires Init(s0) && Reaches(s0, es, s) && Orderly(s0, es, ps) && ClientTurns(es) == |ps| + 1 > EarlyRelays(es)
    ensures s.client.sending && s.client.received == s0.client.received + ps
  {
    hide *;
    DownlinkInOrder(s0, es, ps, s);
    assert ps[..|ps|] == ps;
  }

  lemma HelloOrderly(s0: System, u: Bytes, p: Bytes) returns (es: seq<Step>, s: System)
    requires Init(s0) && ValidUtf8(u) && ValidUtf8(p) && Sendable(Establish(u, p)) && Sendable(Reply(Establish(u, p)))
    ensures Orderly(s0, es, []) && Reaches(s0, es, s) && Between(s)
    ensures s.server.replying == Appends(Encode(Reply(Establish(u, p))))
    ensures ClientTurns(es) == EarlyRelays(es) == 0 && !Replies(es)
  {
    hide Init, Orderly, Reaches, OrderlyTo, Encode, Frame, Reply, Appends, Sendable, ValidUtf8, Establish, Replies, ClientTurns, EarlyRelays;
    var e1, e2, e3 := Connect(u, p), CarryUp(|Frame(Encode(Establish(u, p)))|), ServerReads(true);
    var s1, s2;
    s1, s2, s := HelloArrives(s0, e1, e2, e3);
    RepliesCons(e3, []);
    RepliesCons(e2, [e3] + []);
    RepliesCons(e1, [e2] + ([e3] + []));
    var none: seq<Bytes> := [];
    assert none + none == none;
    NoSteps(s);
    OrderlyCons(s2, e3, none, s, [], none, s);
    OrderlyCons(s1, e2, none, s2, [e3] + [], none, s);
    OrderlyCons(s0, e1, none, s1, [e2] + ([e3] + []), none, s);
    es := [e1] + ([e2] + ([e3] + []));
  }
}
