/** Length-prefixed frames over a byte stream, and the two ways they are read. */
module Framing {
  import opened Wire

  // ----------------------------------------------------------------- frames

  /** The four bytes of a native uint32_t on a little-endian machine. */
  function Header(n: nat): (h: Bytes)
    requires n < TWO_32
    ensures |h| == 4
  {
    [n % 256, n / 256 % 256, n / 256 / 256 % 256, n / 256 / 256 / 256]
  }

  function Join(low: nat, high: nat): nat { low + 256 * high }

  function Length(h: Bytes): (n: nat)
    requires |h| == 4
    ensures n < TWO_32
  {
    Join(h[0], Join(h[1], Join(h[2], h[3])))
  }

  lemma HeaderRoundTrip(n: nat)
    requires n < TWO_32
    ensures Length(Header(n)) == n
  {
  }

  /** The least significant byte comes first, in what is written and in what is read. */
  lemma LittleEndian(h: Bytes, n: nat)
    requires |h| == 4 && n < TWO_32
    ensures Length(h) == h[0] as int + 0x100 * h[1] as int + 0x1_0000 * h[2] as int + 0x100_0000 * h[3] as int
    ensures var g := Header(n); n == g[0] as int + 0x100 * g[1] as int + 0x1_0000 * g[2] as int + 0x100_0000 * g[3] as int
  {
    HeaderRoundTrip(n);
  }

  lemma LengthRoundTrip(h: Bytes)
    requires |h| == 4
    ensures Header(Length(h)) == h
  {
    var b := Join(h[2], h[3]);
    var a := Join(h[1], b);
    assert Length(h) / 256 == a && Length(h) % 256 == h[0];
    assert a / 256 == b && a % 256 == h[1];
    assert b / 256 == h[3] && b % 256 == h[2];
  }

  predicate Framed(p: Bytes) { |p| < TWO_32 }

  /** Two appends: the length in 32 bits, then that many bytes. */
  function Frame(p: Bytes): Bytes {
    var n := |p| % TWO_32;
    Header(n) + p[..n]
  }

  /** A longer payload is cut to what the length, modulo 2^32, says. */
  lemma FrameCutToLength(p: Bytes)
    ensures var n := |p| % 0x1_0000_0000;
            |Frame(p)| == 4 + n && Length(Frame(p)[..4]) == n && Frame(p)[4..] == p[..n]
  {
    hide Header, Length;
    var n := |p| % 0x1_0000_0000;
    HeaderRoundTrip(n);
    assert Frame(p)[..4] == Header(n);
  }

  function Frames(ps: seq<Bytes>): Bytes {
    if ps == [] then [] else Frame(ps[0]) + Frames(ps[1..])
  }

  lemma {:induction false} FramesAppend(ps: seq<Bytes>, qs: seq<Bytes>)
    ensures Frames(ps + qs) == Frames(ps) + Frames(qs)
  {
    hide Frame;
    if ps == [] {
      assert ps + qs == qs;
    } else {
      assert (ps + qs)[1..] == ps[1..] + qs;
      FramesAppend(ps[1..], qs);
      Associate(Frame(ps[0]), Frames(ps[1..]), Frames(qs));
    }
  }

  lemma FramesSnoc(ps: seq<Bytes>, p: Bytes)
    ensures Frames(ps + [p]) == Frames(ps) + Frame(p)
  {
    FramesAppend(ps, [p]);
    assert [p][1..] == [] && Frames([p]) == Frame(p) + [];
  }

  // -------------------------------------------------------- the peeking reader

  predicate HasFrame(buf: Bytes) {
    |buf| >= 4 && Length(buf[..4]) + 4 <= |buf|
  }

  function FirstPayload(buf: Bytes): (p: Bytes)
    requires HasFrame(buf)
    ensures Framed(p)
  {
    buf[4..4 + Length(buf[..4])]
  }

  function Rest(buf: Bytes): (r: Bytes)
    requires HasFrame(buf)
    ensures |r| < |buf|
  {
    buf[4 + Length(buf[..4])..]
  }

  lemma FrameSplits(buf: Bytes)
    requires HasFrame(buf)
    ensures buf == Frame(FirstPayload(buf)) + Rest(buf)
  {
    hide Header, Length;
    LengthRoundTrip(buf[..4]);
    assert buf == buf[..4] + FirstPayload(buf) + Rest(buf);
    assert FirstPayload(buf)[..|FirstPayload(buf)|] == FirstPayload(buf);
  }

  lemma FrameReads(p: Bytes, y: Bytes)
    requires Framed(p)
    ensures HasFrame(Frame(p) + y) && FirstPayload(Frame(p) + y) == p && Rest(Frame(p) + y) == y
  {
    hide Header, Length;
    var buf := Frame(p) + y;
    HeaderRoundTrip(|p|);
    assert buf[..4] == Header(|p|) && p[..|p|] == p;
  }

  /** A frame read from the received part of a framed stream is the first one sent. */
  lemma FirstFrame(buf: Bytes, coming: Bytes, ps: seq<Bytes>)
    requires HasFrame(buf) && buf + coming == Frames(ps) && forall p <- ps :: Framed(p)
    ensures ps != [] && FirstPayload(buf) == ps[0] && Rest(buf) + coming == Frames(ps[1..])
  {
    hide Length, Frame;
    var s := buf + coming;
    assert s[..4] == buf[..4] && HasFrame(s);
    assert FirstPayload(s) == FirstPayload(buf) && Rest(s) == Rest(buf) + coming;
    FrameReads(ps[0], Frames(ps[1..]));
  }

  // --------------------------------------------- runs of arrivals and callbacks

  datatype Event = Arrive(bytes: Bytes) | Callback

  /** A reader: what its buffer holds and the payloads it has delivered. */
  datatype Reader = Reader(buf: Bytes, delivered: seq<Bytes>)

  /** The server's callback looks at the length first and takes at most one frame. */
  function PeekTurn(r: Reader, e: Event): Reader {
    match e
    case Arrive(b) => r.(buf := r.buf + b)
    case Callback => if HasFrame(r.buf) then Reader(Rest(r.buf), r.delivered + [FirstPayload(r.buf)]) else r
  }

  function PeekRun(r: Reader, es: seq<Event>): Reader
    decreases |es|
  {
    if es == [] then r else PeekRun(PeekTurn(r, es[0]), es[1..])
  }

  function Arrived(es: seq<Event>): Bytes {
    if es == [] then []
    else (match es[0] case Arrive(b) => b case Callback => []) + Arrived(es[1..])
  }

  /** Nothing is lost, added or reordered: frames delivered plus bytes kept are the
      bytes received, for every interleaving of arrivals and callbacks. */
  lemma {:induction false} PeekRunConserves(r: Reader, es: seq<Event>)
    ensures var r' := PeekRun(r, es);
            Frames(r'.delivered) + r'.buf == Frames(r.delivered) + r.buf + Arrived(es)
    decreases |es|
  {
    hide HasFrame, Frame, FirstPayload, Rest;
    if es != [] {
      var r1, d := PeekTurn(r, es[0]), Frames(r.delivered);
      PeekRunConserves(r1, es[1..]);
      match es[0]
      case Arrive(b) =>
        Associate(d, r.buf, b);
        Associate(d + r.buf, b, Arrived(es[1..]));
      case Callback =>
        assert Arrived(es) == Arrived(es[1..]);
        if HasFrame(r.buf) {
          FrameSplits(r.buf);
          FramesSnoc(r.delivered, FirstPayload(r.buf));
          Associate(d, Frame(FirstPayload(r.buf)), Rest(r.buf));
        }
    }
  }

  lemma {:induction false} PeekRunFramed(r: Reader, es: seq<Event>)
    requires forall p <- r.delivered :: Framed(p)
    ensures forall p <- PeekRun(r, es).delivered :: Framed(p)
    decreases |es|
  {
    if es != [] { PeekRunFramed(PeekTurn(r, es[0]), es[1..]); }
  }

  lemma {:induction false} FramesPrefix(ps: seq<Bytes>, b: Bytes, qs: seq<Bytes>)
    requires Frames(ps) + b <= Frames(qs)
    requires (forall p <- ps :: Framed(p)) && forall q <- qs :: Framed(q)
    ensures ps <= qs && b <= Frames(qs[|ps|..])
  {
    if ps == [] {
      assert qs[0..] == qs && Frames(ps) + b == b;
    } else {
      var f := Frames(ps[1..]) + b;
      Associate(Frame(ps[0]), Frames(ps[1..]), b);
      PrefixOfFrames(ps[0], f, qs);
      FramesPrefix(ps[1..], b, qs[1..]);
      assert ps == [ps[0]] + ps[1..] && qs == [qs[0]] + qs[1..];
      assert qs[1..][|ps| - 1..] == qs[|ps|..];
    }
  }

  lemma PrefixOfFrames(p: Bytes, f: Bytes, qs: seq<Bytes>)
    requires Framed(p) && Frame(p) + f <= Frames(qs) && forall q <- qs :: Framed(q)
    ensures qs != [] && qs[0] == p && f <= Frames(qs[1..])
  {
    var coming := Frames(qs)[|Frame(p) + f|..];
    assert Frames(qs) == Frame(p) + f + coming;
    Associate(Frame(p), f, coming);
    FrameReads(p, f);
    FirstFrame(Frame(p) + f, coming, qs);
  }

  /** However the bytes of the sent frames are cut up and whenever the callback runs,
      the frames delivered are a prefix of the frames sent, and the bytes kept are the
      beginning of the frames still to come.  Once all have arrived and no whole frame
      waits, all are delivered. */
  lemma ChunkingIndependent(es: seq<Event>, sent: seq<Bytes>)
    requires (forall p <- sent :: Framed(p)) && Arrived(es) <= Frames(sent)
    ensures var r := PeekRun(Reader([], []), es);
            && r.delivered <= sent && r.buf <= Frames(sent[|r.delivered|..])
            && (Arrived(es) == Frames(sent) && !HasFrame(r.buf) ==> r == Reader([], sent))
  {
    hide PeekRun, Frame, HasFrame;
    var r := PeekRun(Reader([], []), es);
    PeekRunConserves(Reader([], []), es);
    PeekRunFramed(Reader([], []), es);
    assert Frames([]) + [] + Arrived(es) == Arrived(es);
    FramesPrefix(r.delivered, r.buf, sent);
    if Arrived(es) == Frames(sent) && !HasFrame(r.buf) { AllDelivered(r, sent); }
  }

  lemma AllDelivered(r: Reader, sent: seq<Bytes>)
    requires r.delivered <= sent && forall p <- sent :: Framed(p)
    requires Frames(r.delivered) + r.buf == Frames(sent) && !HasFrame(r.buf)
    ensures r == Reader([], sent)
  {
    hide Frame, HasFrame;
    var n := |r.delivered|;
    var rest := sent[n..];
    assert sent == r.delivered + rest;
    FramesAppend(r.delivered, rest);
    var s := Frames(sent);
    assert r.buf == s[|Frames(r.delivered)|..] && Frames(rest) == s[|Frames(r.delivered)|..];
    if rest != [] { FrameReads(rest[0], Frames(rest[1..])); }
  }

  // ------------------------------------------------------- the client's reader

  function Zeros(n: nat): (z: Bytes)
    ensures |z| == n
  {
    seq(n, _ => 0)
  }

  /** Reads up to `n` bytes into a buffer of `n` zero bytes. */
  function Padded(buf: Bytes, n: nat): (p: Bytes)
    ensures |p| == n
  {
    if n <= |buf| then buf[..n] else buf + Zeros(n - |buf|)
  }

  function Drained(buf: Bytes, n: nat): Bytes {
    if n <= |buf| then buf[n..] else []
  }

  /** The client drains a length and then a payload without looking first. */
  function ClientPayload(buf: Bytes): Bytes {
    Padded(Drained(buf, 4), Length(Padded(buf, 4)))
  }

  function ClientRest(buf: Bytes): Bytes {
    Drained(Drained(buf, 4), Length(Padded(buf, 4)))
  }

  lemma NothingToDrain()
    ensures ClientPayload([]) == [] && ClientRest([]) == []
  {
    assert Padded([], 4) == [0, 0, 0, 0];
  }

  function DrainTurn(r: Reader, e: Event): Reader {
    match e
    case Arrive(b) => r.(buf := r.buf + b)
    case Callback => Reader(ClientRest(r.buf), r.delivered + [ClientPayload(r.buf)])
  }

  function DrainRun(r: Reader, es: seq<Event>): Reader
    decreases |es|
  {
    if es == [] then r else DrainRun(DrainTurn(r, es[0]), es[1..])
  }

  /** Every callback of the run finds a whole frame waiting. */
  predicate WholeFrames(r: Reader, es: seq<Event>)
    decreases |es|
  {
    es != [] ==> (es[0].Callback? ==> HasFrame(r.buf)) && WholeFrames(PeekTurn(r, es[0]), es[1..])
  }

  lemma DrainIsPeek(r: Reader)
    requires HasFrame(r.buf)
    ensures DrainTurn(r, Callback) == PeekTurn(r, Callback)
  {
    assert Padded(r.buf, 4) == r.buf[..4] && Drained(r.buf, 4) == r.buf[4..];
    var n := Length(r.buf[..4]);
    assert r.buf[4..][..n] == r.buf[4..4 + n] && r.buf[4..][n..] == r.buf[4 + n..];
  }

  function Callbacks(es: seq<Event>): nat {
    if es == [] then 0 else (if es[0].Callback? then 1 else 0) + Callbacks(es[1..])
  }

  lemma {:induction false} DrainRunCount(r: Reader, es: seq<Event>)
    ensures |DrainRun(r, es).delivered| == |r.delivered| + Callbacks(es)
    decreases |es|
  {
    if es != [] { DrainRunCount(DrainTurn(r, es[0]), es[1..]); }
  }

  lemma {:induction false} PeekRunCount(r: Reader, es: seq<Event>)
    ensures |PeekRun(r, es).delivered| <= |r.delivered| + Callbacks(es)
    ensures |PeekRun(r, es).delivered| == |r.delivered| + Callbacks(es) ==> WholeFrames(r, es)
    decreases |es|
  {
    if es != [] { PeekRunCount(PeekTurn(r, es[0]), es[1..]); }
  }

  lemma {:induction false} WholeFramesAgree(r: Reader, es: seq<Event>)
    requires WholeFrames(r, es)
    ensures DrainRun(r, es) == PeekRun(r, es)
    decreases |es|
  {
    if es != [] {
      if es[0].Callback? { DrainIsPeek(r); }
      WholeFramesAgree(PeekTurn(r, es[0]), es[1..]);
    }
  }

  /** The client's reader is the frame decoder exactly on the runs in which every one
      of its callbacks finds a whole frame; on all others it delivers more payloads. */
  lemma ClientReaderRefines(r: Reader, es: seq<Event>)
    ensures DrainRun(r, es) == PeekRun(r, es) <==> WholeFrames(r, es)
    ensures |DrainRun(r, es).delivered| > |PeekRun(r, es).delivered| <==> !WholeFrames(r, es)
  {
    if WholeFrames(r, es) { WholeFramesAgree(r, es); }
    DrainRunCount(r, es);
    PeekRunCount(r, es);
  }

  /** What the client makes of the first `k` bytes of a frame: zeros for what is missing
      of the length and of the payload. */
  function EarlyPayload(p: Bytes, k: nat): Bytes
    requires Framed(p) && k < |Frame(p)|
  {
    if k < 4 then Zeros(Length(Padded(Header(|p|)[..k], 4)))
    else Padded(p[..k - 4], |p|)
  }

  /** A callback that comes `k` bytes into a frame delivers that, and leaves the rest of the
      frame to be read from its start as the next header.  The payload is the one sent exactly
      if all that was missing is zeros. */
  lemma EarlyCallback(p: Bytes, k: nat)
    requires Framed(p) && k < |Frame(p)|
    ensures DrainRun(Reader([], []), [Arrive(Frame(p)[..k]), Callback, Arrive(Frame(p)[k..])]) ==
            Reader(Frame(p)[k..], [EarlyPayload(p, k)])
    ensures EarlyPayload(p, k) == p <==> Frame(p)[k..] == Zeros(|Frame(p)| - k)
  {
    EarlyDrain(p, k);
    EarlyGuess(p, k);
    hide Frame, EarlyPayload, ClientPayload, ClientRest;
    var b, c := Frame(p)[..k], Frame(p)[k..];
    assert [] + b == b && [] + c == c;
    DrainCons(Reader([], []), Arrive(b), [Callback, Arrive(c)]);
    DrainCons(Reader(b, []), Callback, [Arrive(c)]);
    DrainCons(Reader([], [EarlyPayload(p, k)]), Arrive(c), []);
    assert [Arrive(b)] + [Callback, Arrive(c)] == [Arrive(b), Callback, Arrive(c)];
    assert [Callback] + [Arrive(c)] == [Callback, Arrive(c)] && [Arrive(c)] + [] == [Arrive(c)];
    assert [] + [EarlyPayload(p, k)] == [EarlyPayload(p, k)];
  }

  /** What an early callback delivers: with `k` bytes of the length there, that many zeros as
      these alone say, and later the payload with zeros for its missing bytes. */
  lemma EarlyContents(p: Bytes, k: nat)
    requires Framed(p) && k < |Frame(p)|
    ensures var q := EarlyPayload(p, k);
            && |q| == (if k == 0 then 0 else if k == 1 then |p| % 0x100 else if k == 2 then |p| % 0x1_0000
                       else if k == 3 then |p| % 0x100_0000 else |p|)
            && forall i | 0 <= i < |q| :: q[i] == if i < k - 4 then p[i] else 0
  {
    hide Header, Length;
    assert p[..|p|] == p;
    if k < 4 { EarlyLength(|p|, k); }
  }

  lemma EarlyLength(n: nat, k: nat)
    requires n < TWO_32 && k < 4
    ensures Length(Padded(Header(n)[..k], 4)) ==
            if k == 0 then 0 else if k == 1 then n % 0x100 else if k == 2 then n % 0x1_0000 else n % 0x100_0000
  {
    hide Header, Length;
    var h := Header(n);
    var q := Padded(h[..k], 4);
    LittleEndian(q, n);
    LittleEndian(h, n);
    assert forall i | 0 <= i < 4 :: q[i] == if i < k then h[i] else 0;
  }

  lemma EarlyGuess(p: Bytes, k: nat)
    requires Framed(p) && k < |Frame(p)|
    ensures EarlyPayload(p, k) == p <==> Frame(p)[k..] == Zeros(|Frame(p)| - k)
  {
    hide Header, Length;
    var h, z := Header(|p|), Zeros(|Frame(p)| - k);
    assert p[..|p|] == p;
    if k < 4 {
      var q := Padded(h[..k], 4);
      HeaderRoundTrip(|p|);
      LengthRoundTrip(q);
      assert h == h[..k] + h[k..];
      assert q[k..] == Zeros(4 - k) && z == Zeros(4 - k) + Zeros(|p|);
      assert Frame(p)[k..] == h[k..] + p;
      if h[k..] + p == z { assert h[k..] == z[..4 - k] && p == z[4 - k..]; }
      if EarlyPayload(p, k) == p { assert Length(q) == |p|; }
    } else {
      assert Frame(p)[k..] == p[k - 4..];
      assert p == p[..k - 4] + p[k - 4..];
      if EarlyPayload(p, k) == p { assert EarlyPayload(p, k)[k - 4..] == z; }
    }
  }

  lemma DrainCons(r: Reader, e: Event, es: seq<Event>)
    ensures DrainRun(r, [e] + es) == DrainRun(DrainTurn(r, e), es)
  {
    hide DrainTurn;
    assert ([e] + es)[1..] == es;
  }

  lemma EarlyDrain(p: Bytes, k: nat)
    requires Framed(p) && k < |Frame(p)|
    ensures ClientPayload(Frame(p)[..k]) == EarlyPayload(p, k) && ClientRest(Frame(p)[..k]) == []
  {
    hide Header, Length;
    HeaderRoundTrip(|p|);
    var b := Frame(p)[..k];
    assert p[..|p|] == p;
    if k < 4 {
      assert b == Header(|p|)[..k];
      assert [] + Zeros(Length(Padded(b, 4))) == Zeros(Length(Padded(b, 4)));
    } else {
      assert b[..4] == Header(|p|) && b[4..] == p[..k - 4];
    }
  }

  lemma {:induction false} DrainRunKeeps(r: Reader, es: seq<Event>)
    ensures r.delivered <= DrainRun(r, es).delivered
    decreases |es|
  {
    if es != [] { DrainRunKeeps(DrainTurn(r, es[0]), es[1..]); }
  }

  /** The first payload of any run of the client is read from a prefix of the stream. */
  lemma {:induction false} FirstDelivery(buf: Bytes, es: seq<Event>) returns (k: nat)
    requires DrainRun(Reader(buf, []), es).delivered != []
    ensures k <= |buf + Arrived(es)|
    ensures DrainRun(Reader(buf, []), es).delivered[0] == ClientPayload((buf + Arrived(es))[..k])
    decreases |es|
  {
    match es[0]
    case Arrive(b) =>
      Associate(buf, b, Arrived(es[1..]));
      k := FirstDelivery(buf + b, es[1..]);
    case Callback =>
      k := |buf|;
      DrainRunKeeps(DrainTurn(Reader(buf, []), Callback), es[1..]);
      assert (buf + Arrived(es))[..k] == buf;
  }

  // --------------------------------------------------------- two-part writers

  /** Two threads, each with frames to write; a frame is written in two parts.
      `log` is the order in which frames were finished, with their writer. */
  datatype Writers = Writers(
    out: Bytes, first: seq<Bytes>, second: seq<Bytes>, open1: bool, open2: bool,
    log: seq<(bool, Bytes)>)

  /** One append by one thread: the header of its next frame, or its payload. */
  function Append(w: Writers, one: bool): Writers {
    if one then
      if w.first == [] then w
      else if !w.open1 then w.(out := w.out + Header(|w.first[0]| % TWO_32), open1 := true)
      else w.(out := w.out + w.first[0][..|w.first[0]| % TWO_32], open1 := false, first := w.first[1..],
              log := w.log + [(true, w.first[0])])
    else
      if w.second == [] then w
      else if !w.open2 then w.(out := w.out + Header(|w.second[0]| % TWO_32), open2 := true)
      else w.(out := w.out + w.second[0][..|w.second[0]| % TWO_32], open2 := false, second := w.second[1..],
              log := w.log + [(false, w.second[0])])
  }

  function AppendRun(w: Writers, schedule: seq<bool>): Writers
    decreases |schedule|
  {
    if schedule == [] then w else AppendRun(Append(w, schedule[0]), schedule[1..])
  }

  predicate Idle(w: Writers, one: bool) { if one then w.first == [] else w.second == [] }

  /** No thread with something to write appends while the other is between its parts. */
  predicate Exclusive(w: Writers, schedule: seq<bool>)
    decreases |schedule|
  {
    schedule != [] ==>
      && (Idle(w, schedule[0]) || (if schedule[0] then !w.open2 else !w.open1))
      && Exclusive(Append(w, schedule[0]), schedule[1..])
  }

  function Payloads(log: seq<(bool, Bytes)>): seq<Bytes> {
    if log == [] then [] else Payloads(log[..|log| - 1]) + [log[|log| - 1].1]
  }

  function WrittenBy(log: seq<(bool, Bytes)>, one: bool): seq<Bytes> {
    if log == [] then []
    else
      WrittenBy(log[..|log| - 1], one) + (if log[|log| - 1].0 == one then [log[|log| - 1].1] else [])
  }

  lemma LogSnoc(log: seq<(bool, Bytes)>, one: bool, p: Bytes)
    ensures Payloads(log + [(one, p)]) == Payloads(log) + [p]
    ensures WrittenBy(log + [(one, p)], one) == WrittenBy(log, one) + [p]
    ensures WrittenBy(log + [(one, p)], !one) == WrittenBy(log, !one)
  {
    assert (log + [(one, p)])[..|log|] == log;
  }

  /** The output is whole frames, then at most one header; each thread's finished
      frames and those to come are the ones it started with. */
  ghost predicate InOrder(w: Writers, all1: seq<Bytes>, all2: seq<Bytes>) {
    && !(w.open1 && w.open2) && (w.open1 ==> w.first != []) && (w.open2 ==> w.second != [])
    && WrittenBy(w.log, true) + w.first == all1 && WrittenBy(w.log, false) + w.second == all2
    && w.out == Frames(Payloads(w.log)) + OpenHeader(w)
  }

  ghost function OpenHeader(w: Writers): Bytes {
    if w.open1 && w.first != [] then Header(|w.first[0]| % TWO_32)
    else if w.open2 && w.second != [] then Header(|w.second[0]| % TWO_32)
    else []
  }

  lemma AppendKeepsOrder(w: Writers, one: bool, all1: seq<Bytes>, all2: seq<Bytes>)
    requires InOrder(w, all1, all2) && (Idle(w, one) || (if one then !w.open2 else !w.open1))
    ensures InOrder(Append(w, one), all1, all2)
  {
    hide Header, WrittenBy, Payloads, Frames;
    var mine, open := if one then w.first else w.second, if one then w.open1 else w.open2;
    if mine != [] {
      var p := mine[0];
      var n := |p| % TWO_32;
      var done := Frames(Payloads(w.log));
      if open {
        LogSnoc(w.log, one, p);
        FramesSnoc(Payloads(w.log), p);
        Associate(done, Header(n), p[..n]);
        assert mine == [p] + mine[1..];
        var log := WrittenBy(w.log, one);
        assert log + [p] + mine[1..] == log + mine;
        assert Frame(p) == Header(n) + p[..n];
        assert done + Frame(p) + [] == done + Frame(p);
      } else {
        assert done + [] == done;
      }
    }
  }

  /** Turns of a thread with nothing to write make no difference. */
  lemma IdleTurnsExclusive(w: Writers, one: bool, schedule: seq<bool>)
    requires Idle(w, one)
    ensures Exclusive(w, [one] + schedule) <==> Exclusive(w, schedule)
    ensures AppendRun(w, [one] + schedule) == AppendRun(w, schedule)
  {
    hide Append;
    IdleAppend(w, one);
    assert ([one] + schedule)[1..] == schedule;
  }

  /** Both parts of a frame one after the other, for each turn. */
  function BothParts(turns: seq<bool>): seq<bool> {
    if turns == [] then [] else [turns[0], turns[0]] + BothParts(turns[1..])
  }

  /** Threads that take turns by whole frames never cut, whichever turns they take. */
  lemma {:induction false} WholeTurnsExclusive(w: Writers, turns: seq<bool>)
    requires !w.open1 && !w.open2
    ensures Exclusive(w, BothParts(turns))
    decreases |turns|
  {
    if turns != [] {
      var e := turns[0];
      var w1 := Append(w, e);
      var w2 := Append(w1, e);
      var rest := BothParts(turns[1..]);
      assert BothParts(turns) == [e] + ([e] + rest) && ([e] + ([e] + rest))[1..] == [e] + rest && ([e] + rest)[1..] == rest;
      WholeTurnsExclusive(w2, turns[1..]);
      assert Exclusive(w1, [e] + rest);
    }
  }

  lemma {:induction false} ExclusiveRunKeepsOrder(w: Writers, schedule: seq<bool>, all1: seq<Bytes>, all2: seq<Bytes>)
    requires InOrder(w, all1, all2) && Exclusive(w, schedule)
    ensures InOrder(AppendRun(w, schedule), all1, all2)
    decreases |schedule|
  {
    hide InOrder;
    if schedule != [] {
      AppendKeepsOrder(w, schedule[0], all1, all2);
      ExclusiveRunKeepsOrder(Append(w, schedule[0]), schedule[1..], all1, all2);
    }
  }

  /** If no writer cuts into another's frame, the bytes written so far are frames that
      shuffle the two threads' frames, keeping each thread's order and losing none. */
  lemma ExclusiveWritersShuffle(fs: seq<Bytes>, gs: seq<Bytes>, schedule: seq<bool>)
    requires Exclusive(Writers([], fs, gs, false, false, []), schedule)
    ensures var w := AppendRun(Writers([], fs, gs, false, false, []), schedule);
            && w.out == Frames(Payloads(w.log)) + OpenHeader(w)
            && WrittenBy(w.log, true) + w.first == fs
            && WrittenBy(w.log, false) + w.second == gs
  {
    assert [] + fs == fs && [] + gs == gs;
    ExclusiveRunKeepsOrder(Writers([], fs, gs, false, false, []), schedule, fs, gs);
  }

  /** The frame whose header is out and whose payload is not. */
  ghost function OpenFrame(w: Writers): seq<Bytes> {
    if w.open1 && w.first != [] then [w.first[0]]
    else if w.open2 && w.second != [] then [w.second[0]]
    else []
  }

  /** The peer of these writers is the client.  As long as each of its callbacks finds a
      whole frame, it reads that shuffle in its order, and at rest between frames it has
      read all of it. */
  lemma ExclusiveWritersDecode(fs: seq<Bytes>, gs: seq<Bytes>, schedule: seq<bool>, es: seq<Event>)
    requires (forall f <- fs :: Framed(f)) && forall g <- gs :: Framed(g)
    requires Exclusive(Writers([], fs, gs, false, false, []), schedule)
    requires Arrived(es) <= AppendRun(Writers([], fs, gs, false, false, []), schedule).out
    requires WholeFrames(Reader([], []), es)
    ensures var w := AppendRun(Writers([], fs, gs, false, false, []), schedule);
            var r := DrainRun(Reader([], []), es);
            && r.delivered <= Payloads(w.log) + OpenFrame(w)
            && (OpenFrame(w) == [] && Arrived(es) == w.out && !HasFrame(r.buf) ==> r == Reader([], Payloads(w.log)))
  {
    hide PeekRun, DrainRun, WholeFrames, AppendRun, Exclusive, Header, HasFrame, OpenHeader, OpenFrame;
    var w := AppendRun(Writers([], fs, gs, false, false, []), schedule);
    ClientReaderRefines(Reader([], []), es);
    ExclusiveWritersShuffle(fs, gs, schedule);
    WithOpenFrame(w, fs, gs);
    ChunkingIndependent(es, Payloads(w.log) + OpenFrame(w));
    if OpenFrame(w) == [] { assert Payloads(w.log) + [] == Payloads(w.log); }
  }

  lemma WithOpenFrame(w: Writers, fs: seq<Bytes>, gs: seq<Bytes>)
    requires (forall f <- fs :: Framed(f)) && forall g <- gs :: Framed(g)
    requires w.out == Frames(Payloads(w.log)) + OpenHeader(w)
    requires WrittenBy(w.log, true) + w.first == fs && WrittenBy(w.log, false) + w.second == gs
    ensures forall p <- Payloads(w.log) + OpenFrame(w) :: Framed(p)
    ensures w.out <= Frames(Payloads(w.log) + OpenFrame(w))
    ensures OpenFrame(w) == [] ==> w.out == Frames(Payloads(w.log))
  {
    hide Header, Frames;
    LoggedIsWritten(w.log);
    var ps, open := Payloads(w.log), OpenFrame(w);
    if open == [] {
      assert ps + open == ps;
    } else {
      var p := open[0];
      assert p in fs || p in gs;
      FramesSnoc(ps, p);
      Associate(Frames(ps), Header(|p|), p[..|p|]);
    }
  }

  lemma {:induction false} LoggedIsWritten(log: seq<(bool, Bytes)>)
    ensures forall p <- Payloads(log) :: p in WrittenBy(log, true) || p in WrittenBy(log, false)
  {
    if log != [] { LoggedIsWritten(log[..|log| - 1]); }
  }

  // Two frames, one from each thread, under every schedule.

  /** The schedule without the turns of a thread that has nothing left to write. */
  function Effective(w: Writers, schedule: seq<bool>): seq<bool>
    decreases |schedule|
  {
    if schedule == [] then []
    else if Idle(w, schedule[0]) then Effective(w, schedule[1..])
    else [schedule[0]] + Effective(Append(w, schedule[0]), schedule[1..])
  }

  lemma {:induction false} EffectiveRuns(w: Writers, schedule: seq<bool>)
    ensures AppendRun(w, schedule) == AppendRun(w, Effective(w, schedule))
    decreases |schedule|
  {
    hide Append;
    if schedule != [] {
      if Idle(w, schedule[0]) {
        IdleAppend(w, schedule[0]);
        EffectiveRuns(w, schedule[1..]);
      } else {
        var w1 := Append(w, schedule[0]);
        EffectiveRuns(w1, schedule[1..]);
        RunCons(w, schedule[0], Effective(w1, schedule[1..]));
      }
    }
  }

  lemma IdleAppend(w: Writers, one: bool)
    ensures Idle(w, one) ==> Append(w, one) == w
  {
  }

  /** The appends a thread still has to make, and those it makes in a schedule. */
  function Left(w: Writers, one: bool): int {
    if one then 2 * |w.first| - (if w.open1 then 1 else 0) else 2 * |w.second| - (if w.open2 then 1 else 0)
  }

  function Turns(es: seq<bool>, one: bool): nat {
    if es == [] then 0 else (if es[0] == one then 1 else 0) + Turns(es[1..], one)
  }

  lemma {:induction false} EffectiveTurns(w: Writers, schedule: seq<bool>, one: bool)
    ensures Turns(Effective(w, schedule), one) + Left(AppendRun(w, schedule), one) == Left(w, one)
    decreases |schedule|
  {
    if schedule != [] {
      var e := schedule[0];
      IdleAppend(w, e);
      var w1 := Append(w, e);
      if !Idle(w, e) {
        assert Left(w1, one) == Left(w, one) - (if e == one then 1 else 0);
        assert ([e] + Effective(w1, schedule[1..]))[1..] == Effective(w1, schedule[1..]);
      }
      EffectiveTurns(w1, schedule[1..], one);
    }
  }

  lemma {:induction false} TurnsAdd(es: seq<bool>)
    ensures |es| == Turns(es, true) + Turns(es, false)
  {
    if es != [] { TurnsAdd(es[1..]); }
  }

  /** Two turns of each thread, in any order: the first thread starting, `one` is true. */
  lemma SixOrders(e: seq<bool>) returns (one: bool)
    requires Turns(e, true) == 2 && Turns(e, false) == 2
    ensures e == [one, one, !one, !one] || e == [one, !one, one, !one] || e == [one, !one, !one, one]
  {
    TurnsAdd(e);
    one := e[0];
    var t1 := e[1..];
    var t2 := t1[1..];
    var t3 := t2[1..];
    assert e == [e[0], e[1], e[2], e[3]] && t1[0] == e[1] && t2[0] == e[2] && t3[0] == e[3] && t3[1..] == [];
    assert Turns(t3, true) == if e[3] then 1 else 0;
    assert Turns(t2, true) == (if e[2] then 1 else 0) + Turns(t3, true);
    assert Turns(t1, true) == (if e[1] then 1 else 0) + Turns(t2, true);
  }

  /** The frame of the thread that starts and the frame of the other, and what makes their
      stream readable: no cut, or a cut that does not show. */
  predicate Readable(f: Bytes, g: Bytes, e: seq<bool>)
    requires Framed(f) && Framed(g) && |e| == 4
  {
    if e[0] == e[1] then true                      // nothing is cut
    else if e[0] == e[2] then                      // a header lands in the first payload
      Header(|g|) + f == f + Header(|g|)
    else                                           // a whole frame does
      Frame(g) + f == f + Frame(g) || (|f| == |g| && Header(|g|) + g == g + Header(|g|))
  }

  /** The bytes two threads write, the frame of the starting one first. */
  function Interleaved(f: Bytes, g: Bytes, e: seq<bool>): Bytes
    requires Framed(f) && Framed(g) && |e| == 4
  {
    if e[0] == e[1] then Header(|f|) + f + Header(|g|) + g
    else if e[0] == e[2] then Header(|f|) + Header(|g|) + f + g
    else Header(|f|) + Header(|g|) + g + f
  }

  lemma ReadableIff(f: Bytes, g: Bytes, e: seq<bool>)
    requires Framed(f) && Framed(g) && |e| == 4
    ensures Interleaved(f, g, e) == Frames([f, g]) || Interleaved(f, g, e) == Frames([g, f]) <==> Readable(f, g, e)
  {
    hide Header, Frame;
    TwoFrames(f, g);
    TwoFrames(g, f);
    if e[0] == e[1] {
    } else if e[0] == e[2] {
      HeaderCut(f, g);
    } else {
      FrameCut(f, g);
    }
  }

  lemma HeaderCut(f: Bytes, g: Bytes)
    requires Framed(f) && Framed(g)
    ensures var a, b := Header(|f|), Header(|g|);
            && (a + b + f + g == a + f + b + g <==> b + f == f + b)
            && (a + b + f + g == b + g + a + f ==> b + f == f + b)
  {
    hide Header;
    var a, b := Header(|f|), Header(|g|);
    Associate(a, b, f);
    Associate(a, f, b);
    CancelMiddle(a, b + f, f + b, g);
    if a + b + f + g == b + g + a + f {
      Associate4(a, b, f, g);
      Associate4(b, g, a, f);
      SameHeader(f, g, b + f + g, g + a + f);
      LastOf(a + b + f, g, b + g + a, f);
    }
  }

  lemma FrameCut(f: Bytes, g: Bytes)
    requires Framed(f) && Framed(g)
    ensures var a, b := Header(|f|), Header(|g|);
            && (a + b + g + f == a + f + b + g <==> Frame(g) + f == f + Frame(g))
            && (a + b + g + f == b + g + a + f <==> |f| == |g| && b + g == g + b)
  {
    hide Header;
    var a, b := Header(|f|), Header(|g|);
    assert g[..|g|] == g && Frame(g) == b + g;
    Associate4(a, b, g, f);
    Associate4(a, f, b, g);
    CancelMiddle(a, Frame(g) + f, f + Frame(g), []);
    assert a + (Frame(g) + f) + [] == a + (Frame(g) + f) && a + (f + Frame(g)) + [] == a + (f + Frame(g));
    if a + b + g + f == b + g + a + f {
      Associate4(b, g, a, f);
      SameHeader(f, g, b + g + f, g + a + f);
    }
    if |f| == |g| {
      Associate(b, b, g);
      Associate(b, g, b);
      CancelMiddle(b, b + g, g + b, f);
    }
  }

  lemma Associate4(a: Bytes, b: Bytes, c: Bytes, d: Bytes)
    ensures a + b + c + d == a + (b + c + d)
    ensures a + b + c + d == a + (b + (c + d))
  {
  }

  /** Streams that start with the headers of two frames and are equal have equal headers. */
  lemma SameHeader(f: Bytes, g: Bytes, x: Bytes, y: Bytes)
    requires Framed(f) && Framed(g) && |x| == |y|
    ensures Header(|f|) + x == Header(|g|) + y ==> |f| == |g|
  {
    hide Header, Length;
    HeaderRoundTrip(|f|);
    HeaderRoundTrip(|g|);
    assert (Header(|f|) + x)[..4] == Header(|f|) && (Header(|g|) + y)[..4] == Header(|g|);
  }

  lemma LastOf(x: Bytes, f: Bytes, y: Bytes, g: Bytes)
    requires |f| == |g| && |x| == |y| && x + f == y + g
    ensures f == g && x == y
  {
    assert (x + f)[|x|..] == f && (y + g)[|y|..] == g;
    assert (x + f)[..|x|] == x && (y + g)[..|y|] == y;
  }

  lemma RunCons(w: Writers, one: bool, rest: seq<bool>)
    ensures AppendRun(w, [one] + rest) == AppendRun(Append(w, one), rest)
  {
    hide Append;
    assert ([one] + rest)[1..] == rest;
  }

  lemma RunFour(w: Writers, a: bool, b: bool, c: bool, d: bool)
    ensures AppendRun(w, [a, b, c, d]) == Append(Append(Append(Append(w, a), b), c), d)
  {
    hide Append;
    var w1 := Append(w, a);
    var w2 := Append(w1, b);
    var w3 := Append(w2, c);
    RunCons(w, a, [b, c, d]);
    RunCons(w1, b, [c, d]);
    RunCons(w2, c, [d]);
    RunCons(w3, d, []);
    assert [a] + [b, c, d] == [a, b, c, d] && [b] + [c, d] == [b, c, d] && [c] + [d] == [c, d] && [d] + [] == [d];
    assert AppendRun(Append(w3, d), []) == Append(w3, d);
  }

  /** What an append does for a thread with one frame to write. */
  lemma AppendPart(w: Writers, one: bool, p: Bytes)
    requires Framed(p) && (if one then w.first else w.second) == [p]
    ensures Append(w, one) ==
            if one then
              if !w.open1 then w.(out := w.out + Header(|p|), open1 := true)
              else w.(out := w.out + p, open1 := false, first := [], log := w.log + [(true, p)])
            else
              if !w.open2 then w.(out := w.out + Header(|p|), open2 := true)
              else w.(out := w.out + p, open2 := false, second := [], log := w.log + [(false, p)])
  {
    hide Header;
    assert p[..|p|] == p && [p][1..] == [];
  }

  lemma FourAppends(f: Bytes, g: Bytes, one: bool, e: seq<bool>)
    requires Framed(f) && Framed(g)
    requires e == [one, one, !one, !one] || e == [one, !one, one, !one] || e == [one, !one, !one, one]
    ensures AppendRun(Writers([], [f], [g], false, false, []), e).out ==
            if one then Interleaved(f, g, e) else Interleaved(g, f, e)
  {
    hide AppendRun, Append, Header;
    var w := Writers([], [f], [g], false, false, []);
    RunFour(w, e[0], e[1], e[2], e[3]);
    assert e == [e[0], e[1], e[2], e[3]];
    var w1 := Append(w, e[0]);
    AppendPart(w, e[0], if e[0] then f else g);
    var w2 := Append(w1, e[1]);
    AppendPart(w1, e[1], if e[1] then f else g);
    var w3 := Append(w2, e[2]);
    AppendPart(w2, e[2], if e[2] then f else g);
    AppendPart(w3, e[3], if e[3] then f else g);
    assert [] + Header(|f|) == Header(|f|) && [] + Header(|g|) == Header(|g|);
  }

  lemma FrameOf(p: Bytes)
    requires Framed(p)
    ensures Frame(p) == Header(|p|) + p
  {
    hide Header;
    assert p[..|p|] == p;
  }

  lemma TwoFrames(f: Bytes, g: Bytes)
    requires Framed(f) && Framed(g)
    ensures Frames([f, g]) == Header(|f|) + f + Header(|g|) + g
  {
    hide Header, Frame;
    assert [f, g][1..] == [g] && [g][1..] == [];
    assert Frames([f, g]) == Frame(f) + Frames([g]);
    assert Frames([g]) == Frame(g) + [] && Frame(g) + [] == Frame(g);
    hide Frames;
    FrameOf(f);
    FrameOf(g);
    Associate(Header(|f|) + f, Header(|g|), g);
  }

  /** For every two frames and every schedule that writes both: the stream is the two frames
      in some order exactly when neither is cut, or what lands in the cut one does not show,
      because it commutes with the payload it cuts or because the two headers are equal and
      the frames can be read the other way round. */
  lemma TwoWriters(f: Bytes, g: Bytes, schedule: seq<bool>)
    requires Framed(f) && Framed(g)
    requires var w := AppendRun(Writers([], [f], [g], false, false, []), schedule); Idle(w, true) && Idle(w, false)
    ensures var w0 := Writers([], [f], [g], false, false, []);
            var w, e := AppendRun(w0, schedule), Effective(w0, schedule);
            && |e| == 4
            && (w.out == Frames([f, g]) || w.out == Frames([g, f]) <==>
                if e[0] then Readable(f, g, e) else Readable(g, f, e))
  {
    hide Frame, Header, Frames, Readable, Interleaved;
    var w0 := Writers([], [f], [g], false, false, []);
    var e := Effective(w0, schedule);
    EffectiveRuns(w0, schedule);
    EffectiveTurns(w0, schedule, true);
    EffectiveTurns(w0, schedule, false);
    ClosedWhenIdle(w0, schedule);
    var one := SixOrders(e);
    FourAppends(f, g, one, e);
    ReadableIff(f, g, e);
    ReadableIff(g, f, e);
  }

  lemma TwoWritersSize(f: Bytes, g: Bytes, schedule: seq<bool>)
    requires Framed(f) && Framed(g)
    requires var w := AppendRun(Writers([], [f], [g], false, false, []), schedule); Idle(w, true) && Idle(w, false)
    ensures |AppendRun(Writers([], [f], [g], false, false, []), schedule).out| == |Frames([f, g])| == |Frames([g, f])|
  {
    hide Frame, Frames, Header;
    var w0 := Writers([], [f], [g], false, false, []);
    var e := Effective(w0, schedule);
    EffectiveRuns(w0, schedule);
    EffectiveTurns(w0, schedule, true);
    EffectiveTurns(w0, schedule, false);
    ClosedWhenIdle(w0, schedule);
    var one := SixOrders(e);
    FourAppends(f, g, one, e);
    TwoFrames(f, g);
    TwoFrames(g, f);
  }

  lemma DeliversIff(es: seq<Event>, ps: seq<Bytes>)
    requires (forall p <- ps :: Framed(p)) && |Arrived(es)| == |Frames(ps)|
    requires WholeFrames(Reader([], []), es) && !HasFrame(DrainRun(Reader([], []), es).buf)
    ensures DrainRun(Reader([], []), es).delivered == ps <==> Arrived(es) == Frames(ps)
  {
    hide DrainRun, PeekRun, WholeFrames, Frame, HasFrame;
    var r := DrainRun(Reader([], []), es);
    ClientReaderRefines(Reader([], []), es);
    PeekRunConserves(Reader([], []), es);
    assert Frames([]) + [] + Arrived(es) == Arrived(es);
    if r.delivered == ps {
      assert r.buf == [];
      assert Frames(ps) + [] == Frames(ps);
    }
    if Arrived(es) == Frames(ps) { ChunkingIndependent(es, ps); }
  }

  /** The same about the peer: the client, once it has read all of the stream in whole
      frames, has the two frames in some order exactly then. */
  lemma TwoWritersDecode(f: Bytes, g: Bytes, schedule: seq<bool>, es: seq<Event>)
    requires Framed(f) && Framed(g)
    requires var w := AppendRun(Writers([], [f], [g], false, false, []), schedule); Idle(w, true) && Idle(w, false)
    requires Arrived(es) == AppendRun(Writers([], [f], [g], false, false, []), schedule).out
    requires WholeFrames(Reader([], []), es) && !HasFrame(DrainRun(Reader([], []), es).buf)
    ensures var e, d := Effective(Writers([], [f], [g], false, false, []), schedule), DrainRun(Reader([], []), es).delivered;
            && |e| == 4
            && (d == [f, g] || d == [g, f] <==> if e[0] then Readable(f, g, e) else Readable(g, f, e))
  {
    hide Frame, Frames, Header, Readable, Effective, AppendRun, Append, DrainRun, WholeFrames, HasFrame, Arrived;
    TwoWriters(f, g, schedule);
    TwoWritersSize(f, g, schedule);
    DeliversIff(es, [f, g]);
    DeliversIff(es, [g, f]);
  }

  lemma {:induction false} ClosedWhenIdle(w: Writers, schedule: seq<bool>)
    requires (w.open1 ==> w.first != []) && (w.open2 ==> w.second != [])
    ensures var w' := AppendRun(w, schedule); (w'.open1 ==> w'.first != []) && (w'.open2 ==> w'.second != [])
    decreases |schedule|
  {
    if schedule != [] { ClosedWhenIdle(Append(w, schedule[0]), schedule[1..]); }
  }

  lemma CancelMiddle(a: Bytes, x: Bytes, y: Bytes, z: Bytes)
    requires |x| == |y|
    ensures a + x + z == a + y + z <==> x == y
  {
    assert (a + x + z)[|a|..|a| + |x|] == x && (a + y + z)[|a|..|a| + |y|] == y;
  }

  /** Two one-byte frames, cut: whatever the chunks and callbacks, what the client reads
      first is a frame nobody sent. */
  lemma TornFramesLose(es: seq<Event>)
    requires Arrived(es) <= AppendRun(Writers([], [[34]], [[10]], false, false, []), [true, false, true, false]).out
    ensures var d := DrainRun(Reader([], []), es).delivered;
            d == [] || (d[0] != [34] && d[0] != [10])
  {
    var w := AppendRun(Writers([], [[34]], [[10]], false, false, []), [true, false, true, false]);
    FourAppends([34], [10], true, [true, false, true, false]);
    TornBytes();
    hide Header, AppendRun, DrainRun, ClientPayload;
    if DrainRun(Reader([], []), es).delivered != [] {
      var k := FirstDelivery([], es);
      assert [] + Arrived(es) == Arrived(es);
      assert Arrived(es)[..k] == w.out[..k];
      TornPrefix(k);
    }
  }

  const TORN: Bytes := [1, 0, 0, 0, 1, 0, 0, 0, 34, 10]

  lemma TornBytes()
    ensures Interleaved([34], [10], [true, false, true, false]) == TORN
  {
    assert Header(1) == [1, 0, 0, 0];
  }

  lemma TornPrefix(k: nat)
    requires k <= |TORN|
    ensures ClientPayload(TORN[..k]) != [34] && ClientPayload(TORN[..k]) != [10]
  {
    var b := TORN[..k];
    if k == 0 {
      NothingToDrain();
    } else {
      assert Padded(b, 4) == [1, 0, 0, 0] && Length([1, 0, 0, 0]) == 1;
      if k > 4 { assert Drained(b, 4)[..1] == [1]; } else { assert Padded([], 1) == [0]; }
    }
  }
}
