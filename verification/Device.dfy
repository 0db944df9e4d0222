/** The tunnel interface: the packets it is given and the bytes its device takes. */
module Device {
  import opened Wire

  /** The packets given so far, the bytes the device took, and what of the packet being
      written it has not taken yet. */
  datatype Interface = Interface(packets: seq<Bytes>, device: Bytes, pending: Bytes)

  const UNUSED := Interface([], [], [])

  function Flatten(ps: seq<Bytes>): Bytes {
    if ps == [] then [] else Flatten(ps[..|ps| - 1]) + ps[|ps| - 1]
  }

  lemma FlattenSnoc(ps: seq<Bytes>, p: Bytes)
    ensures Flatten(ps + [p]) == Flatten(ps) + p
  {
    assert (ps + [p])[..|ps|] == ps;
  }

  lemma {:induction false} FlattenPrefix(ps: seq<Bytes>, qs: seq<Bytes>)
    requires ps <= qs
    ensures Flatten(ps) <= Flatten(qs)
    decreases |qs|
  {
    if |ps| < |qs| {
      FlattenPrefix(ps, qs[..|qs| - 1]);
    } else {
      assert ps == qs;
    }
  }

  function Give(i: Interface, p: Bytes): Interface {
    i.(packets := i.packets + [p], pending := i.pending + p)
  }

  /** One device write: the first `n` bytes of what is pending. */
  function Take(i: Interface, n: nat): Interface
    requires n <= |i.pending|
  {
    i.(device := i.device + i.pending[..n], pending := i.pending[n..])
  }

  /** The writing loop run to its end. */
  function Finish(i: Interface): Interface {
    i.(device := i.device + i.pending, pending := [])
  }

  /** Nothing is lost, added or reordered. */
  predicate Ordered(i: Interface) { i.device + i.pending == Flatten(i.packets) }

  lemma UnusedOrdered()
    ensures Ordered(UNUSED)
  {
    assert Flatten([]) == [];
  }

  lemma GiveOrdered(i: Interface, p: Bytes)
    requires Ordered(i)
    ensures Ordered(Give(i, p))
  {
    Associate(i.device, i.pending, p);
    FlattenSnoc(i.packets, p);
  }

  lemma FinishGive(i: Interface, p: Bytes)
    requires Ordered(i) && i.pending == []
    ensures Finish(Give(i, p)) == Interface(i.packets + [p], i.device + p, [])
    ensures Ordered(Finish(Give(i, p)))
  {
    GiveOrdered(i, p);
    assert i.pending + p == p && i.device + p + [] == i.device + p;
  }

  lemma FinishTake(i: Interface, n: nat)
    requires n <= |i.pending|
    ensures Finish(Take(i, n)) == Finish(i)
  {
    Associate(i.device, i.pending[..n], i.pending[n..]);
    assert i.pending[..n] + i.pending[n..] == i.pending;
  }

  lemma TakeOrdered(i: Interface, n: nat)
    requires Ordered(i) && n <= |i.pending|
    ensures Ordered(Take(i, n))
  {
    FinishTake(i, n);
  }

  lemma {:induction false} FlattenCons(p: Bytes, ps: seq<Bytes>)
    ensures Flatten([p] + ps) == p + Flatten(ps)
    decreases |ps|
  {
    if ps == [] {
      assert [p] + ps == [p] && [p][..0] == [] && [] + p == p;
    } else {
      var init, last := ps[..|ps| - 1], ps[|ps| - 1];
      FlattenCons(p, init);
      assert [p] + ps == ([p] + init) + [last] && ps == init + [last];
      FlattenSnoc([p] + init, last);
      FlattenSnoc(init, last);
      Associate(p, Flatten(init), last);
    }
  }

  // --------------------------------------------- the loop when the device reports errors

  /** The answer to a write: the bytes taken, or the error value -1. */
  datatype Answer = Took(n: nat) | Refused

  /** The loop adds every answer to its offset, an error as well.  `sent` are the places of
      the bytes the device took, counted from the start of the packet. */
  datatype Loop = Loop(offset: int, sent: seq<int>)

  const START := Loop(0, [])

  /** The loop runs until its offset is the packet's length, and offers all up to there. */
  predicate Possible(len: nat, l: Loop, a: Answer) {
    l.offset < len && (a.Took? ==> 1 <= a.n <= len - l.offset)
  }

  function Turn(l: Loop, a: Answer): Loop {
    match a
    case Took(n) => Loop(l.offset + n, l.sent + Places(l.offset, n))
    case Refused => l.(offset := l.offset - 1)
  }

  function Places(at: int, n: nat): (s: seq<int>)
    ensures |s| == n && forall i | 0 <= i < n :: s[i] == at + i
  {
    seq(n, i => at + i)
  }

  /** The loop gets from `l` to `l'` with these answers. */
  ghost predicate Loops(len: nat, l: Loop, answers: seq<Answer>, l': Loop)
    decreases |answers|
  {
    if answers == [] then l' == l
    else Possible(len, l, answers[0]) && Loops(len, Turn(l, answers[0]), answers[1..], l')
  }

  lemma LoopsStart(len: nat)
    ensures Loops(len, START, [], START)
  {
  }

  lemma {:induction false} LoopsSnoc(len: nat, l: Loop, answers: seq<Answer>, l': Loop, a: Answer)
    requires Loops(len, l, answers, l') && Possible(len, l', a)
    ensures Loops(len, l, answers + [a], Turn(l', a))
    decreases |answers|
  {
    if answers == [] {
      assert answers + [a] == [a] && [a][1..] == [];
    } else {
      assert (answers + [a])[1..] == answers[1..] + [a];
      LoopsSnoc(len, Turn(l, answers[0]), answers[1..], l', a);
    }
  }

  function Errors(answers: seq<Answer>): nat {
    if answers == [] then 0 else (if answers[0].Refused? then 1 else 0) + Errors(answers[1..])
  }

  /** The bytes taken less the errors. */
  function Net(answers: seq<Answer>): int {
    if answers == [] then 0
    else (match answers[0] case Took(n) => n as int case Refused => -1) + Net(answers[1..])
  }

  /** What is at those places in the memory around the packet. */
  function BytesAt(mem: int -> byte, places: seq<int>): (b: Bytes)
    ensures |b| == |places| && forall i | 0 <= i < |b| :: b[i] == mem(places[i])
  {
    seq(|places|, i requires 0 <= i < |places| => mem(places[i]))
  }

  lemma BytesAtAppend(mem: int -> byte, s: seq<int>, t: seq<int>)
    ensures BytesAt(mem, s + t) == BytesAt(mem, s) + BytesAt(mem, t)
  {
  }

  /** A packet in memory, with zeros around it. */
  function InMemory(data: Bytes): int -> byte {
    i => if 0 <= i < |data| then data[i] else 0
  }

  lemma InMemoryBytes(data: Bytes)
    ensures BytesAt(InMemory(data), Places(0, |data|)) == data
  {
  }

  lemma {:induction false} ErrorsSnoc(answers: seq<Answer>, a: Answer)
    ensures Errors(answers + [a]) == Errors(answers) + if a.Refused? then 1 else 0
    decreases |answers|
  {
    if answers == [] {
      assert answers + [a] == [a];
    } else {
      assert (answers + [a])[1..] == answers[1..] + [a];
      ErrorsSnoc(answers[1..], a);
    }
  }

  lemma {:induction false} EachErrorAdds(len: nat, l: Loop, answers: seq<Answer>, l': Loop)
    requires Loops(len, l, answers, l')
    ensures |l'.sent| - l'.offset == |l.sent| - l.offset + Errors(answers)
    decreases |answers|
  {
    if answers != [] { EachErrorAdds(len, Turn(l, answers[0]), answers[1..], l'); }
  }

  lemma {:induction false} NoErrorInOrder(len: nat, l: Loop, answers: seq<Answer>, l': Loop)
    requires Loops(len, l, answers, l') && Errors(answers) == 0
    requires l.offset >= 0 && l.sent == Places(0, l.offset)
    ensures l'.offset >= 0 && l'.sent == Places(0, l'.offset)
    decreases |answers|
  {
    if answers != [] { NoErrorInOrder(len, Turn(l, answers[0]), answers[1..], l'); }
  }

  predicate Within(len: nat, places: seq<int>) { forall i | 0 <= i < |places| :: 0 <= places[i] < len }

  /** The offset is never negative. */
  predicate NeverBelow(offset: int, answers: seq<Answer>) {
    forall k | 0 <= k <= |answers| :: offset + Net(answers[..k]) >= 0
  }

  lemma NeverBelowStep(offset: int, answers: seq<Answer>)
    requires answers != []
    ensures NeverBelow(offset, answers) <==>
            offset >= 0 && NeverBelow(offset + Net(answers[..1]), answers[1..])
  {
    var rest := answers[1..];
    forall k | 0 <= k <= |rest| ensures Net(answers[..k + 1]) == Net(answers[..1]) + Net(rest[..k]) {
      assert answers[..k + 1][1..] == rest[..k] && answers[..1][1..] == [];
    }
    if offset >= 0 && NeverBelow(offset + Net(answers[..1]), rest) {
      forall k | 0 <= k <= |answers| ensures offset + Net(answers[..k]) >= 0 {
        if k > 0 { assert Net(answers[..k - 1 + 1]) == Net(answers[..1]) + Net(rest[..k - 1]); }
      }
    }
    if NeverBelow(offset, answers) {
      assert answers[..0] == [];
      forall k | 0 <= k <= |rest| ensures offset + Net(answers[..1]) + Net(rest[..k]) >= 0 {
        assert offset + Net(answers[..k + 1]) >= 0;
      }
    }
  }

  /** A byte from outside the packet is sent exactly if the offset falls below zero. */
  lemma {:induction false} OutsideIfBelow(len: nat, l: Loop, answers: seq<Answer>, l': Loop)
    requires Loops(len, l, answers, l') && l'.offset == len
    ensures Within(len, l'.sent) <==> Within(len, l.sent) && NeverBelow(l.offset, answers)
    decreases |answers|
  {
    if answers == [] {
      assert Net(answers[..0]) == 0;
    } else {
      var l1 := Turn(l, answers[0]);
      NeverBelowStep(l.offset, answers);
      assert answers[..1][1..] == [];
      assert l1.offset == l.offset + Net(answers[..1]);
      OutsideIfBelow(len, l1, answers[1..], l');
      if l1.offset < 0 {
        assert answers[1..][..0] == [] && l1.offset + Net(answers[1..][..0]) < 0;
      }
      if answers[0].Took? {
        assert l1.sent[|l.sent|] == l.offset;
        assert forall i | 0 <= i < |l.sent| :: l1.sent[i] == l.sent[i];
      }
    }
  }

  /** For every memory around the packet and all answers with which the loop ends: the
      device has the packet exactly if no write was refused, each refusal adds one byte, and
      all bytes are the packet's exactly if at no time there were more refusals than bytes
      taken. */
  lemma WrittenOnce(mem: int -> byte, len: nat, answers: seq<Answer>, l: Loop)
    requires Loops(len, START, answers, l) && l.offset == len
    ensures BytesAt(mem, l.sent) == BytesAt(mem, Places(0, len)) <==> Errors(answers) == 0
    ensures |l.sent| == len + Errors(answers)
    ensures Within(len, l.sent) <==> forall k | 0 <= k <= |answers| :: Net(answers[..k]) >= 0
  {
    EachErrorAdds(len, START, answers, l);
    OutsideIfBelow(len, START, answers, l);
    if Errors(answers) == 0 {
      assert Places(0, 0) == [];
      NoErrorInOrder(len, START, answers, l);
    }
  }
}
