/** The objects at the two ends: buffers, the interface, the server connection, the client. */
module Endpoints {
  import opened Wire
  import opened Message
  import opened Framing
  import opened Device
  import opened Tunnel
  import opened Objects
  import Canonical

  function Least(m: nat, n: nat): nat { if m < n then m else n }

  /** An input and an output byte queue. */
  class BufferEvent {
    var input: Bytes
    var output: Bytes

    constructor ()
      ensures input == [] && output == []
    {
      input, output := [], [];
    }

    /** Copies as much as there is; the buffer stays as it was. */
    method CopyOut(dest: array<byte>) returns (n: nat)
      modifies dest
      ensures n == Least(dest.Length, |input|)
      ensures dest[..] == input[..n] + old(dest[..])[n..]
    {
      n := Least(dest.Length, |input|);
      forall i | 0 <= i < n { dest[i] := input[i]; }
    }

    /** Copies as much as there is and drains it. */
    method Read(dest: array<byte>) returns (n: nat)
      modifies this`input, dest
      ensures n == Least(dest.Length, |old(input)|)
      ensures dest[..] == old(input)[..n] + old(dest[..])[n..]
      ensures input == old(input)[n..]
    {
      n := CopyOut(dest);
      input := input[n..];
    }

    method Write(data: Bytes)
      modifies this`output
      ensures output == old(output) + data
    {
      output := output + data;
    }

    /** A frame is written as two appends. */
    method WriteFrame(packet: Bytes)
      modifies this`output
      ensures output == old(output) + Frame(packet)
    {
      var len := |packet| % TWO_32;
      Associate(output, Header(len), packet[..len]);
      Write(Header(len));
      Write(packet[..len]);
    }
  }

  // ----------------------------------------------------------- the interface

  /** The tunnel interface: the packets it was given, the bytes its device took, and how
      many errors the device still has to report. */
  class Utun {
    var packets: seq<Bytes>
    var stream: Bytes
    var errors: nat

    ghost function Value(): Interface reads this { Interface(packets, stream, []) }

    /** A device that works. */
    ghost predicate Valid() reads this { Ordered(Value()) && errors == 0 }

    constructor ()
      ensures Valid() && Value() == UNUSED
    {
      packets, stream, errors := [], [], 0;
      UnusedOrdered();
    }

    /** A device write takes at least one byte and possibly not all, or it reports an error. */
    method DeviceWrite(mem: int -> byte, at: int, len: nat) returns (n: int)
      requires len > 0
      modifies this`stream, this`errors
      ensures n == -1 ==> errors == old(errors) - 1 && stream == old(stream)
      ensures n != -1 ==> 1 <= n <= len && errors == old(errors) && stream == old(stream) + BytesAt(mem, Places(at, n))
    {
      var refuse: bool := *;
      if refuse && errors > 0 {
        errors := errors - 1;
        return -1;
      }
      n :| 1 <= n <= len;
      stream := stream + BytesAt(mem, Places(at, n));
    }

    /** The loop adds whatever the device answers to its offset. */
    method WritePacket(mem: int -> byte, len: nat) returns (writeLen: int, ghost answers: seq<Answer>, ghost sent: seq<int>)
      modifies this
      ensures writeLen == len && packets == old(packets) + [BytesAt(mem, Places(0, len))]
      ensures Loops(len, START, answers, Loop(writeLen, sent)) && errors == old(errors) - Errors(answers)
      ensures stream == old(stream) + BytesAt(mem, sent)
      ensures old(Valid()) ==> Valid() && Value() == Finish(Give(old(Value()), BytesAt(mem, Places(0, len))))
    {
      hide Ordered, Give, Finish, Loops;
      writeLen, answers, sent := 0, [], [];
      LoopsStart(len);
      while writeLen < len
        invariant writeLen <= len && packets == old(packets)
        invariant Loops(len, START, answers, Loop(writeLen, sent)) && errors == old(errors) - Errors(answers)
        invariant stream == old(stream) + BytesAt(mem, sent)
        decreases errors, len - writeLen
      {
        var n := DeviceWrite(mem, writeLen, len - writeLen);
        ghost var a := if n == -1 then Refused else Took(n);
        LoopsSnoc(len, START, answers, Loop(writeLen, sent), a);
        ErrorsSnoc(answers, a);
        answers := answers + [a];
        if n != -1 {
          BytesAtAppend(mem, sent, Places(writeLen, n));
          Associate(old(stream), BytesAt(mem, sent), BytesAt(mem, Places(writeLen, n)));
          sent := sent + Places(writeLen, n);
        }
        writeLen := writeLen + n;
      }
      WrittenOnce(mem, len, answers, Loop(writeLen, sent));
      packets := packets + [BytesAt(mem, Places(0, len))];
      if old(Valid()) { FinishGive(old(Value()), BytesAt(mem, Places(0, len))); }
    }
  }

  // --------------------------------------------------- the server's connection

  class SLConnection {
    const bev: BufferEvent
    var utun: Utun?
    var crashed: bool

    ghost predicate Valid()
      reads this, utun
    {
      utun != null ==> utun.Valid()
    }

    ghost function Value(): Server
      reads this, bev, utun
    {
      Server(bev.input, bev.output, [], if utun == null then None else Some(utun.Value()), crashed)
    }

    constructor (bev: BufferEvent)
      ensures Valid() && this.bev == bev && Value() == Server(bev.input, bev.output, [], None, false)
    {
      this.bev, utun, crashed := bev, null, false;
    }

    /** The peeking reader: a whole frame or nothing. */
    method TakeFrame() returns (whole: bool, payload: Bytes)
      modifies bev`input
      ensures whole <==> HasFrame(old(bev.input))
      ensures whole ==> payload == FirstPayload(old(bev.input)) && bev.input == Rest(old(bev.input))
      ensures !whole ==> bev.input == old(bev.input)
    {
      hide Length, Header;
      payload := [];
      var header := new byte[4](_ => 0);
      var copied := bev.CopyOut(header);
      if copied < 4 { return false, []; }
      assert header[..] == bev.input[..4];
      var length := Length(header[..]);
      if length + 4 > |bev.input| { return false, []; }
      ghost var buf := bev.input;
      var got := bev.Read(header);
      var buffer := new byte[length](_ => 0);
      got := bev.Read(buffer);
      assert buf[4..][..length] == buf[4..4 + length] && buf[4..][length..] == buf[4 + length..];
      whole, payload := true, buffer[..];
    }

    /** The message received becomes the reply, which is sent once the interface exists. */
    method AnswerEstablish(msg: TunnelMessage, created: bool)
      requires Valid() && |EncodePacket(PacketOf(msg.Value()))| < TWO_32
      modifies this, bev`output, msg, msg.packet
      ensures Valid() && bev.input == old(bev.input) && crashed == old(crashed)
      ensures utun == old(utun) || fresh(utun)
      ensures Value() == if created then
                           old(Value()).(utun := Some(UNUSED),
                                         output := old(bev.output) + Frame(Encode(Reply(old(msg.Value())))))
                         else old(Value())
    {
      hide Frame, Encode, EncodePacket;
      ghost var m := msg.Value();
      msg.kind := RESPONSE;
      msg.ip := CLIENT_ADDRESS;
      msg.gateway := CLIENT_ADDRESS;
      msg.submask := NETMASK;
      msg.dns := msg.dns + [NAME_SERVER];
      msg.code := ESTABLISH;
      assert msg.Value() == Reply(m);
      var buffer := msg.Serialize();
      if !created { return; }
      utun := new Utun();
      bev.WriteFrame(buffer[..]);
    }

    /** Dispatch of the message received, with the writes that follow. */
    method HandleMessage(msg: TunnelMessage, created: bool)
      requires Valid() && !crashed && |EncodePacket(PacketOf(msg.Value()))| < TWO_32
      modifies this, bev`output, utun, msg, msg.packet
      ensures Valid() && (utun == old(utun) || fresh(utun)) && bev.input == old(bev.input)
      ensures Value() == Settle(Handle(old(Value()), old(msg.Value()), created))
    {
      hide Frame, Encode, EncodePacket, Settle, Ordered;
      Settled(Value());
      if msg.kind != REQUEST { return; }
      if msg.code == ESTABLISH {
        EstablishSettles(Value(), msg.Value(), created);
        AnswerEstablish(msg, created);
      } else if msg.code == DATA {
        var data := if msg.packet == null then [] else msg.packet.packetdata;
        if utun == null {
          crashed := true;
          Settled(Value());
        } else {
          GivenSettles(Value(), data);
          InMemoryBytes(data);
          var written, _, _ := utun.WritePacket(InMemory(data), |data|);
        }
      }
    }

    /** The read callback: it returns when its reply or packet is written out. */
    method OnReadable(created: bool)
      requires Valid()
      modifies this, bev, utun
      ensures Valid() && (utun == old(utun) || fresh(utun))
      ensures Value() == Settle(ServerCallback(old(Value()), created))
    {
      hide HasFrame, FirstPayload, Rest, Frame, Encode, Parse, EncodePacket, Handle, Settle;
      Settled(Value());
      if crashed { return; }
      var whole, payload := TakeFrame();
      if !whole { return; }
      var msg := new TunnelMessage();
      var parsed := msg.ParseFromArray(payload);
      ParsedFits(payload);
      HandleMessage(msg, created);
    }
  }

  lemma ParsedFits(payload: Bytes)
    ensures |EncodePacket(PacketOf(Parse(payload).msg))| <= INT_MAX
  {
    hide ParseMessage;
    Canonical.ParsedPacketFits(payload, EMPTY);
  }

  // ---------------------------------------------------------------- the client

  class SLClient {
    const bev: BufferEvent
    var sending: bool
    var closed: bool
    var ip: Bytes
    var gateway: Bytes
    var submask: Bytes
    var dns: seq<Bytes>
    var received: seq<Bytes>

    ghost function Value(): Client
      reads this, bev
    {
      Client(bev.input, sending, closed, ip, gateway, submask, dns, received)
    }

    constructor (bev: BufferEvent)
      ensures this.bev == bev && Value() == Client(bev.input, false, false, [], [], [], [], [])
    {
      this.bev := bev;
      sending, closed, ip, gateway, submask, dns, received := false, false, [], [], [], [], [];
    }

    /** Drains a length and a payload into zeroed buffers, without looking first. */
    method DrainFrame() returns (payload: Bytes)
      modifies bev`input
      ensures payload == ClientPayload(old(bev.input)) && bev.input == ClientRest(old(bev.input))
    {
      hide Length, Header;
      var header := new byte[4](_ => 0);
      assert header[..] == Zeros(4);
      ghost var buf := bev.input;
      var got := bev.Read(header);
      PaddedCopy(buf, 4);
      var length := Length(header[..]);
      var buffer := new byte[length](_ => 0);
      assert buffer[..] == Zeros(length);
      ghost var buf' := bev.input;
      got := bev.Read(buffer);
      PaddedCopy(buf', length);
      payload := buffer[..];
    }

    /** Called with the event of a finished connect. */
    method OnConnected(username: Bytes, password: Bytes)
      modifies bev`output
      ensures bev.output == old(bev.output) + Frame(Encode(Msg(username, password, [], [], [], [], 0, 1, 0, 0, None)))
    {
      hide Frame, Encode;
      var msg := new TunnelMessage();
      msg.kind := REQUEST;
      msg.code := ESTABLISH;
      msg.username := username;
      msg.password := password;
      msg.passwordEncrypt := 0;
      msg.linkEncrypt := 0;
      var buffer := msg.Serialize();
      bev.WriteFrame(buffer[..]);
    }

    method SendPacket(data: Bytes)
      requires |EncodePacket(Packet(data))| < TWO_32
      modifies bev`output
      ensures bev.output == old(bev.output) + Frame(Encode(Msg([], [], [], [], [], [], 0, 3, 0, 0, Some(Packet(data)))))
    {
      hide Frame, Encode, EncodePacket;
      var msg := new TunnelMessage();
      msg.kind := REQUEST;
      msg.code := DATA;
      var p := msg.MutablePacket();
      p.packetdata := data;
      assert msg.Value() == DataRequest(data);
      var buffer := msg.Serialize();
      bev.WriteFrame(buffer[..]);
    }

    /** Every packet read from the flow goes out as one data request, in order. */
    method HandlePackets(ps: seq<Bytes>)
      requires forall p <- ps :: |EncodePacket(Packet(p))| < TWO_32
      modifies bev`output
      ensures bev.output == old(bev.output) + Frames(DataPayloads(ps))
    {
      hide Frame, Frames, Encode, EncodePacket, DataPayloads;
      NoPayloads();
      var i := 0;
      while i < |ps|
        invariant i <= |ps|
        invariant bev.output == old(bev.output) + Frames(DataPayloads(ps[..i]))
      {
        DataPayloadsSnoc(ps[..i], ps[i]);
        assert ps[..i] + [ps[i]] == ps[..i + 1];
        Associate(old(bev.output), Frames(DataPayloads(ps[..i])), Frame(Encode(DataRequest(ps[i]))));
        SendPacket(ps[i]);
        i := i + 1;
      }
      assert ps[..|ps|] == ps;
    }

    /** The read callback. */
    method OnReadable()
      modifies this, bev`input
      ensures Value() == ClientCallback(old(Value()))
    {
      hide ClientPayload, ClientRest, Parse;
      if closed { return; }
      var payload := DrainFrame();
      var msg := new TunnelMessage();
      var parsed := msg.ParseFromArray(payload);
      if msg.kind != RESPONSE {
        closed := true;
        return;
      }
      if msg.code == ESTABLISH {
        ip, gateway, submask := msg.ip, msg.gateway, msg.submask;
        PushDns(msg.dns);
        sending := true;
      } else if msg.code == DATA {
        received := received + [if msg.packet == null then [] else msg.packet.packetdata];
      }
    }

    method PushDns(ds: seq<Bytes>)
      modifies this`dns
      ensures dns == old(dns) + ds
    {
      var i := 0;
      while i < |ds|
        invariant i <= |ds| && dns == old(dns) + ds[..i]
      {
        dns := dns + [ds[i]];
        i := i + 1;
      }
    }
  }

  /** Reading into a zeroed buffer pads what there is with zeros. */
  lemma PaddedCopy(buf: Bytes, n: nat)
    ensures var k := Least(n, |buf|); buf[..k] + Zeros(n)[k..] == Padded(buf, n) && buf[k..] == Drained(buf, n)
  {
  }

  lemma NoPayloads()
    ensures Frames(DataPayloads([])) == []
  {
    assert DataPayloads([]) == [];
  }

  lemma DataPayloadsSnoc(ps: seq<Bytes>, p: Bytes)
    ensures Frames(DataPayloads(ps + [p])) == Frames(DataPayloads(ps)) + Frame(Encode(DataRequest(p)))
  {
    hide Frame, Encode;
    assert DataPayloads(ps + [p]) == DataPayloads(ps) + [Encode(DataRequest(p))];
    FramesSnoc(DataPayloads(ps), Encode(DataRequest(p)));
  }
}
