/** The listener's gate on the number of connections. */
module Gate {

  const MAX_COUNT: nat := 1000

  /** The shared counter, the accept callbacks that passed the test and have not yet
      counted, and the connection tasks between their increment and decrement. */
  datatype Listener = Listener(count: int, admitted: nat, tasks: nat)

  datatype Step =
    | Test          // an accept callback loads the counter and compares
    | Abandon       // an admitted callback cannot make its buffer event
    | Increment     // an admitted callback counts its task and starts it
    | Finish        // a task ends and is uncounted

  /** `callbacks` accept callbacks can be at work at once. */
  predicate Enabled(l: Listener, callbacks: nat, e: Step) {
    match e
    case Test => l.admitted < callbacks
    case Abandon => l.admitted > 0
    case Increment => l.admitted > 0
    case Finish => l.tasks > 0
  }

  function After(l: Listener, e: Step): Listener
    requires e.Abandon? || e.Increment? ==> l.admitted > 0
    requires e.Finish? ==> l.tasks > 0
  {
    match e
    case Test => if l.count > MAX_COUNT then l else l.(admitted := l.admitted + 1)
    case Abandon => l.(admitted := l.admitted - 1)
    case Increment => l.(count := l.count + 1, admitted := l.admitted - 1, tasks := l.tasks + 1)
    case Finish => l.(count := l.count - 1, tasks := l.tasks - 1)
  }

  ghost predicate Reaches(l0: Listener, callbacks: nat, es: seq<Step>, l: Listener)
    decreases |es|
  {
    if es == [] then l == l0
    else Enabled(l0, callbacks, es[0]) && Reaches(After(l0, es[0]), callbacks, es[1..], l)
  }

  ghost predicate Inv(l: Listener, callbacks: nat) {
    && l.count == l.tasks
    && l.admitted <= callbacks
    && l.count + l.admitted <= MAX_COUNT + callbacks
  }

  lemma {:induction false} RunInv(l0: Listener, callbacks: nat, es: seq<Step>, l: Listener)
    requires Inv(l0, callbacks) && Reaches(l0, callbacks, es, l)
    ensures Inv(l, callbacks)
    decreases |es|
  {
    if es != [] { RunInv(After(l0, es[0]), callbacks, es[1..], l); }
  }

  /** How often a step was made. */
  function Times(es: seq<Step>, e: Step): nat {
    if es == [] then 0 else (if es[0] == e then 1 else 0) + Times(es[1..], e)
  }

  lemma {:induction false} RunCounts(l0: Listener, callbacks: nat, es: seq<Step>, l: Listener)
    requires Reaches(l0, callbacks, es, l)
    ensures l.count - l0.count == Times(es, Increment) - Times(es, Finish)
    ensures l.tasks - l0.tasks == Times(es, Increment) - Times(es, Finish)
    ensures l.admitted - l0.admitted <= Times(es, Test) - Times(es, Increment) - Times(es, Abandon)
    decreases |es|
  {
    if es != [] { RunCounts(After(l0, es[0]), callbacks, es[1..], l); }
  }

  /** Whatever the interleaving, the counter is the number of tasks started less that of tasks
      ended, none of them twice, and passes 1000 by at most the number of accept callbacks at
      once: 1001 for the one listening thread. */
  lemma GateHolds(callbacks: nat, es: seq<Step>, l: Listener)
    requires Reaches(Listener(0, 0, 0), callbacks, es, l)
    ensures l.count == l.tasks == Times(es, Increment) - Times(es, Finish)
    ensures 0 <= l.count <= 1000 + callbacks
    ensures l.admitted + Times(es, Increment) + Times(es, Abandon) <= Times(es, Test)
  {
    RunInv(Listener(0, 0, 0), callbacks, es, l);
    RunCounts(Listener(0, 0, 0), callbacks, es, l);
  }

  /** A test in a run lets its callback pass exactly if at most 1000 tasks were live. */
  lemma TestAdmits(callbacks: nat, es: seq<Step>, l: Listener)
    requires Reaches(Listener(0, 0, 0), callbacks, es, l) && Enabled(l, callbacks, Test)
    ensures var live, l' := Times(es, Increment) - Times(es, Finish), After(l, Test);
            && l'.admitted == (if live <= 1000 then l.admitted + 1 else l.admitted)
            && l'.count == l'.tasks == live
  {
    GateHolds(callbacks, es, l);
  }

  function Repeat(e: Step, n: nat): (es: seq<Step>)
    ensures |es| == n
  {
    if n == 0 then [] else [e] + Repeat(e, n - 1)
  }

  function Fill(n: nat): seq<Step> {
    if n == 0 then [] else Fill(n - 1) + [Test, Increment]
  }

  lemma {:induction false} ReachesThen(l0: Listener, k: nat, es: seq<Step>, l1: Listener, fs: seq<Step>, l2: Listener)
    requires Reaches(l0, k, es, l1) && Reaches(l1, k, fs, l2)
    ensures Reaches(l0, k, es + fs, l2)
    decreases |es|
  {
    if es == [] {
      assert es + fs == fs;
    } else {
      assert (es + fs)[1..] == es[1..] + fs;
      ReachesThen(After(l0, es[0]), k, es[1..], l1, fs, l2);
    }
  }

  lemma {:induction false} FillReaches(k: nat, n: nat)
    requires k > 0 && n <= MAX_COUNT
    ensures Reaches(Listener(0, 0, 0), k, Fill(n), Listener(n, 0, n))
  {
    if n > 0 {
      FillReaches(k, n - 1);
      var l := Listener(n - 1, 0, n - 1);
      var fs := [Test, Increment];
      assert fs[1..] == [Increment] && fs[1..][1..] == [];
      assert After(l, Test) == l.(admitted := 1);
      assert Reaches(l, k, fs, Listener(n, 0, n));
      ReachesThen(Listener(0, 0, 0), k, Fill(n - 1), l, fs, Listener(n, 0, n));
    }
  }

  lemma {:induction false} TestAll(l: Listener, k: nat, n: nat)
    requires l.count <= MAX_COUNT && l.admitted + n <= k
    ensures Reaches(l, k, Repeat(Test, n), l.(admitted := l.admitted + n))
    decreases n
  {
    if n > 0 {
      assert Repeat(Test, n)[1..] == Repeat(Test, n - 1);
      TestAll(After(l, Test), k, n - 1);
    }
  }

  lemma {:induction false} IncrementAll(l: Listener, k: nat, n: nat)
    requires n <= l.admitted
    ensures Reaches(l, k, Repeat(Increment, n),
                    Listener(l.count + n, l.admitted - n, l.tasks + n))
    decreases n
  {
    if n > 0 {
      assert Repeat(Increment, n)[1..] == Repeat(Increment, n - 1);
      IncrementAll(After(l, Increment), k, n - 1);
    }
  }

  lemma BoundReached(callbacks: nat) returns (es: seq<Step>)
    requires callbacks > 0
    ensures Reaches(Listener(0, 0, 0), callbacks, es, Listener(1000 + callbacks, 0, 1000 + callbacks))
  {
    var full := Listener(MAX_COUNT, 0, MAX_COUNT);
    var passed := full.(admitted := callbacks);
    FillReaches(callbacks, MAX_COUNT);
    TestAll(full, callbacks, callbacks);
    IncrementAll(passed, callbacks, callbacks);
    ReachesThen(full, callbacks, Repeat(Test, callbacks), passed, Repeat(Increment, callbacks),
                Listener(MAX_COUNT + callbacks, 0, MAX_COUNT + callbacks));
    es := Repeat(Test, callbacks) + Repeat(Increment, callbacks);
    ReachesThen(Listener(0, 0, 0), callbacks, Fill(MAX_COUNT), full, es,
                Listener(MAX_COUNT + callbacks, 0, MAX_COUNT + callbacks));
    es := Fill(MAX_COUNT) + es;
  }

  lemma {:induction false} FinishAll(l: Listener, k: nat, n: nat)
    requires n <= l.tasks
    ensures Reaches(l, k, Repeat(Finish, n), Listener(l.count - n, l.admitted, l.tasks - n))
    decreases n
  {
    if n > 0 {
      assert Repeat(Finish, n)[1..] == Repeat(Finish, n - 1);
      FinishAll(After(l, Finish), k, n - 1);
    }
  }

  /** From every state of a run, all callbacks can give up and all tasks end, and the counter
      is back at zero: the gate always opens again. */
  lemma GateReopens(k: nat, l: Listener) returns (es: seq<Step>)
    requires Inv(l, k)
    ensures Reaches(l, k, es, Listener(0, 0, 0))
  {
    AbandonAll(l, k, l.admitted);
    var l1 := l.(admitted := 0);
    FinishAll(l1, k, l.tasks);
    es := Repeat(Abandon, l.admitted) + Repeat(Finish, l.tasks);
    ReachesThen(l, k, Repeat(Abandon, l.admitted), l1, Repeat(Finish, l.tasks), Listener(0, 0, 0));
  }

  lemma {:induction false} AbandonAll(l: Listener, k: nat, n: nat)
    requires n <= l.admitted
    ensures Reaches(l, k, Repeat(Abandon, n), l.(admitted := l.admitted - n))
    decreases n
  {
    if n > 0 {
      assert Repeat(Abandon, n)[1..] == Repeat(Abandon, n - 1);
      AbandonAll(After(l, Abandon), k, n - 1);
    }
  }

  /** The server object and its one counter.  Each method is one atomic access, so that
      calls in any order are the interleavings of the accept callback and the tasks; the
      ghost fields say where these are. */
  class SLServer {
    var threadCount: int
    ghost var admitted: nat
    ghost var tasks: nat

    ghost function Value(): Listener reads this { Listener(threadCount, admitted, tasks) }

    /** One thread listens. */
    ghost predicate Valid() reads this { Inv(Value(), 1) }

    constructor ()
      ensures Valid() && Value() == Listener(0, 0, 0)
    {
      threadCount, admitted, tasks := 0, 0, 0;
    }

    method LoadAndTest() returns (pass: bool)
      requires Valid() && Enabled(Value(), 1, Test)
      modifies this
      ensures Valid() && Value() == After(old(Value()), Test)
      ensures pass <==> old(threadCount) <= 1000
      ensures threadCount == old(threadCount)
    {
      if threadCount > MAX_COUNT { return false; }
      admitted := admitted + 1;
      pass := true;
    }

    method StartTask()
      requires Valid() && Enabled(Value(), 1, Increment)
      modifies this
      ensures Valid() && Value() == After(old(Value()), Increment)
      ensures threadCount == old(threadCount) + 1 && 0 < threadCount <= 1001
    {
      threadCount := threadCount + 1;
      admitted, tasks := admitted - 1, tasks + 1;
    }

    method FinishTask()
      requires Valid() && Enabled(Value(), 1, Finish)
      modifies this
      ensures Valid() && Value() == After(old(Value()), Finish)
      ensures threadCount == old(threadCount) - 1 && 0 <= threadCount <= 1000
    {
      threadCount := threadCount - 1;
      tasks := tasks - 1;
    }
  }
}
