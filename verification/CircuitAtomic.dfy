/** The circuit breaker at the granularity of its atomic operations: any number of goroutines run
    `Allow`, `RecordSuccess` and `RecordFailure`, and every load, store, swap and add is one step. */
module CircuitAtomic {
  import opened Circuit

  type Tid = nat

  /** Where a goroutine stands between two atomic operations. */
  datatype PC =
    | AtCheck       // Allow loaded Open and is about to compare the elapsed time
    | AtSwap        // about to swap Open to HalfOpen
    | AtStore       // its swap succeeded; about to store 1
    | AtAdd         // about to decrement the counter
    | AtClose       // RecordSuccess reset the failures; about to store Closed
    | AtOpen        // RecordFailure reached the threshold; about to store Open

  /** The shared fields, the goroutines in flight, and counts of what happened so far. `decrements`
      counts those since the last store of the counter, or since the start. */
  datatype Shared = Shared(state: CircuitState, allowed: int, failures: nat, threads: map<Tid, PC>,
                           swaps: nat, stores: nat, admitted: nat, decrements: nat)

  const START := Shared(Closed, 0, 0, map[], 0, 0, 0, 0)

  /** `overdue` is the outcome of comparing the clock with the last failure. */
  datatype Step =
    | Load(t: Tid)
    | Check(t: Tid, overdue: bool)
    | Swap(t: Tid)
    | Store(t: Tid)
    | Add(t: Tid)
    | ResetFailures(t: Tid)
    | CloseCircuit(t: Tid)
    | AddFailure(t: Tid)
    | OpenCircuit(t: Tid)

  predicate At(s: Shared, t: Tid, pc: PC) {
    t in s.threads && s.threads[t] == pc
  }

  predicate Enabled(s: Shared, a: Step) {
    match a
    case Load(t) => t !in s.threads
    case Check(t, _) => At(s, t, AtCheck)
    case Swap(t) => At(s, t, AtSwap)
    case Store(t) => At(s, t, AtStore)
    case Add(t) => At(s, t, AtAdd)
    case ResetFailures(t) => t !in s.threads
    case CloseCircuit(t) => At(s, t, AtClose)
    case AddFailure(t) => t !in s.threads
    case OpenCircuit(t) => At(s, t, AtOpen)
  }

  function GoTo(s: Shared, t: Tid, pc: PC): Shared {
    s.(threads := s.threads[t := pc])
  }

  function Done(s: Shared, t: Tid): Shared {
    s.(threads := s.threads - {t})
  }

  function Apply(threshold: nat, s: Shared, a: Step): Shared
    requires Enabled(s, a)
  {
    match a
    case Load(t) =>
      (match s.state
       case Open => GoTo(s, t, AtCheck)
       case HalfOpen => GoTo(s, t, AtAdd)
       case Closed => s)
    case Check(t, overdue) => if overdue then GoTo(s, t, AtSwap) else Done(s, t)
    case Swap(t) =>
      if s.state.Open? then GoTo(s, t, AtStore).(state := HalfOpen, swaps := s.swaps + 1) else GoTo(s, t, AtAdd)
    case Store(t) => GoTo(s, t, AtAdd).(allowed := 1, stores := s.stores + 1, decrements := 0)
    case Add(t) =>
      var a := Wrap32(s.allowed - 1);
      Done(s, t).(allowed := a, decrements := s.decrements + 1, admitted := s.admitted + if a >= 0 then 1 else 0)
    case ResetFailures(t) => GoTo(s, t, AtClose).(failures := 0)
    case CloseCircuit(t) => Done(s, t).(state := Closed)
    case AddFailure(t) =>
      var s' := s.(failures := s.failures + 1);
      if s'.failures >= threshold then GoTo(s', t, AtOpen) else s'
    case OpenCircuit(t) => Done(s, t).(state := Open)
  }

  predicate IsRun(threshold: nat, run: seq<Shared>, steps: seq<Step>) {
    && |run| == |steps| + 1 && run[0] == START
    && forall i :: 0 <= i < |steps| ==> Enabled(run[i], steps[i]) && run[i + 1] == Apply(threshold, run[i], steps[i])
  }

  /** How many decrements the counter takes before it wraps: it starts at 0, and a store sets it to 1. */
  function Capacity(s: Shared): nat {
    if s.stores == 0 then HALF else HALF + 1
  }

  /** No decrement so far has wrapped the counter. */
  predicate Calm(s: Shared) {
    s.decrements <= Capacity(s)
  }

  ghost function Storing(s: Shared): set<Tid> {
    set t | t in s.threads && s.threads[t] == AtStore
  }

  ghost predicate Inv(s: Shared) {
    && s.swaps == s.stores + |Storing(s)|
    && s.allowed == (if s.stores == 0 then 0 else 1) - s.decrements
    && s.admitted + (if s.allowed > 0 then s.allowed else 0) <= s.stores
  }

  /** The goroutines about to store are those whose swap succeeded. */
  lemma StoringChange(threshold: nat, s: Shared, a: Step)
    requires Enabled(s, a)
    ensures |Storing(Apply(threshold, s, a))| == |Storing(s)| +
      if a.Swap? && s.state.Open? then 1 else if a.Store? then -1 else 0
  {
    if a.Swap? && s.state.Open? {
      MoreStoring(s, a.t);
    } else if a.Store? {
      LessStoring(s, a.t);
    } else {
      SameStoring(threshold, s, a);
    }
  }

  lemma MoreStoring(s: Shared, t: Tid)
    requires At(s, t, AtSwap)
    ensures |Storing(GoTo(s, t, AtStore))| == |Storing(s)| + 1
  {
    assert Storing(GoTo(s, t, AtStore)) == Storing(s) + {t};
  }

  lemma LessStoring(s: Shared, t: Tid)
    requires At(s, t, AtStore)
    ensures |Storing(GoTo(s, t, AtAdd))| == |Storing(s)| - 1
  {
    assert Storing(GoTo(s, t, AtAdd)) == Storing(s) - {t};
    assert t in Storing(s);
  }

  lemma SameStoring(threshold: nat, s: Shared, a: Step)
    requires Enabled(s, a) && !(a.Swap? && s.state.Open?) && !a.Store?
    ensures Storing(Apply(threshold, s, a)) == Storing(s)
  {
  }

  lemma InvKept(threshold: nat, s: Shared, a: Step)
    requires Inv(s) && Enabled(s, a) && Calm(Apply(threshold, s, a))
    ensures Inv(Apply(threshold, s, a))
  {
    StoringChange(threshold, s, a);
  }

  lemma {:induction false} RunKeepsInv(threshold: nat, run: seq<Shared>, steps: seq<Step>, i: nat)
    requires IsRun(threshold, run, steps) && i < |run| && forall j :: 0 <= j < |run| ==> Calm(run[j])
    ensures Inv(run[i])
  {
    if i == 0 {
      assert Storing(START) == {};
    } else {
      RunKeepsInv(threshold, run, steps, i - 1);
      assert Calm(run[i]);
      InvKept(threshold, run[i - 1], steps[i - 1]);
    }
  }

  /** With any number of goroutines, the requests admitted while not closed never exceed the successful
      swaps from Open to HalfOpen, as long as the counter has not wrapped. */
  lemma ProbesBoundedBySwaps(threshold: nat, run: seq<Shared>, steps: seq<Step>, i: nat)
    requires IsRun(threshold, run, steps) && i < |run| && forall j :: 0 <= j < |run| ==> Calm(run[j])
    ensures run[i].admitted <= run[i].stores <= run[i].swaps
  {
    RunKeepsInv(threshold, run, steps, i);
  }

  // ----- The bound is exact -----

  ghost predicate CalmRun(threshold: nat, run: seq<Shared>, steps: seq<Step>) {
    IsRun(threshold, run, steps) && forall j :: 0 <= j < |run| ==> Calm(run[j])
  }

  ghost predicate CalmlyReached(threshold: nat, s: Shared) {
    exists run, steps :: CalmRun(threshold, run, steps) && run[|run| - 1] == s
  }

  lemma Extend(threshold: nat, s: Shared, a: Step)
    requires CalmlyReached(threshold, s) && Enabled(s, a) && Calm(Apply(threshold, s, a))
    ensures CalmlyReached(threshold, Apply(threshold, s, a))
  {
    var run, steps :| CalmRun(threshold, run, steps) && run[|run| - 1] == s;
    var run', steps' := run + [Apply(threshold, s, a)], steps + [a];
    assert CalmRun(threshold, run', steps');
  }

  lemma {:induction false} ReachFailures(threshold: nat, n: nat)
    requires n < threshold
    ensures CalmlyReached(threshold, START.(failures := n))
  {
    if n == 0 {
      assert CalmRun(threshold, [START], []);
    } else {
      ReachFailures(threshold, n - 1);
      Extend(threshold, START.(failures := n - 1), AddFailure(0));
    }
  }

  /** Half open after one swap, its probe admitted, and `n` further refused decrements. */
  function Refused(threshold: nat, n: nat): Shared {
    Shared(HalfOpen, 0 - n, threshold, map[], 1, 1, 1, n + 1)
  }

  lemma {:induction false} ReachRefused(threshold: nat, n: nat)
    requires threshold >= 1 && n <= HALF
    ensures CalmlyReached(threshold, Refused(threshold, n))
  {
    if n == 0 {
      ReachFailures(threshold, threshold - 1);
      var s0 := START.(failures := threshold - 1);
      Extend(threshold, s0, AddFailure(0));
      var s1 := Apply(threshold, s0, AddFailure(0));
      Extend(threshold, s1, OpenCircuit(0));
      var s2 := Apply(threshold, s1, OpenCircuit(0));
      Extend(threshold, s2, Load(0));
      var s3 := Apply(threshold, s2, Load(0));
      Extend(threshold, s3, Check(0, true));
      var s4 := Apply(threshold, s3, Check(0, true));
      Extend(threshold, s4, Swap(0));
      var s5 := Apply(threshold, s4, Swap(0));
      Extend(threshold, s5, Store(0));
      var s6 := Apply(threshold, s5, Store(0));
      Extend(threshold, s6, Add(0));
      assert Apply(threshold, s6, Add(0)) == Refused(threshold, 0);
    } else {
      ReachRefused(threshold, n - 1);
      var s0 := Refused(threshold, n - 1);
      Extend(threshold, s0, Load(0));
      var s1 := Apply(threshold, s0, Load(0));
      Extend(threshold, s1, Add(0));
      assert Apply(threshold, s1, Add(0)) == Refused(threshold, n);
    }
  }

  /** The very next decrement after the capacity is used up breaks the bound: one run, calm until its
      last step, admits two requests on one swap. */
  lemma WrapBreaksTheBound(threshold: nat)
    requires threshold >= 1
    ensures exists s ::
      && CalmlyReached(threshold, s) && s.decrements == Capacity(s) && Enabled(s, Add(0))
      && Apply(threshold, s, Add(0)).admitted > Apply(threshold, s, Add(0)).swaps
  {
    ReachRefused(threshold, HALF);
    var s0 := Refused(threshold, HALF);
    Extend(threshold, s0, Load(0));
    var s := Apply(threshold, s0, Load(0));
    assert Apply(threshold, s, Add(0)).admitted == 2;
  }

  // ----- When the state agrees with the failure count -----

  /** No goroutine is between a change of the failure count and the store of the state that it decided on. */
  predicate Settled(s: Shared) {
    forall t :: t in s.threads ==> s.threads[t] != AtClose && s.threads[t] != AtOpen
  }

  predicate Agrees(threshold: nat, s: Shared) {
    s.state.Closed? <==> s.failures < threshold
  }

  /** The last store of Closed or Open among the first `i` steps still agreed with the failure count: a success
      closed the circuit below the threshold, a failure opened it at or above. */
  predicate Timely(threshold: nat, run: seq<Shared>, steps: seq<Step>, i: nat)
    requires |run| == |steps| + 1 && i <= |steps|
  {
    if i == 0 then true
    else
      match steps[i - 1]
      case CloseCircuit(_) => run[i - 1].failures < threshold
      case OpenCircuit(_) => run[i - 1].failures >= threshold
      case _ => Timely(threshold, run, steps, i - 1)
  }

  lemma AgreementStep(threshold: nat, s: Shared, a: Step)
    requires Enabled(s, a) && Settled(Apply(threshold, s, a)) && !a.CloseCircuit? && !a.OpenCircuit?
    ensures Settled(s) && (Agrees(threshold, Apply(threshold, s, a)) <==> Agrees(threshold, s))
  {
    var s' := Apply(threshold, s, a);
    assert a.ResetFailures? ==> At(s', a.t, AtClose);
    assert a.AddFailure? && s.failures + 1 >= threshold ==> At(s', a.t, AtOpen);
    forall t | t in s.threads ensures s.threads[t] != AtClose && s.threads[t] != AtOpen {
      assert t != a.t ==> t in s'.threads && s'.threads[t] == s.threads[t];
    }
  }

  /** In every settled state of every run the circuit is closed below the threshold and not at or above it exactly
      when the last store of the state was timely. */
  lemma {:induction false} AgreesIffTimely(threshold: nat, run: seq<Shared>, steps: seq<Step>, i: nat)
    requires threshold >= 1 && IsRun(threshold, run, steps) && i < |run| && Settled(run[i])
    ensures Agrees(threshold, run[i]) <==> Timely(threshold, run, steps, i)
  {
    if i > 0 {
      var a := steps[i - 1];
      if !a.CloseCircuit? && !a.OpenCircuit? {
        AgreementStep(threshold, run[i - 1], a);
        AgreesIffTimely(threshold, run, steps, i - 1);
      }
    }
  }

  lemma {:induction false} ReachFailuresWhileClosing(threshold: nat, n: nat)
    requires n < threshold
    ensures CalmlyReached(threshold, START.(failures := n, threads := map[1 := AtClose]))
  {
    if n == 0 {
      assert CalmRun(threshold, [START], []);
      Extend(threshold, START, ResetFailures(1));
    } else {
      ReachFailuresWhileClosing(threshold, n - 1);
      Extend(threshold, START.(failures := n - 1, threads := map[1 := AtClose]), AddFailure(0));
    }
  }

  /** A success that resets the count, then enough failures to open the circuit, then the success's late store:
      the circuit is left closed at the threshold with nothing in flight. */
  lemma LateCloseDisagrees(threshold: nat)
    requires threshold >= 1
    ensures CalmlyReached(threshold, START.(failures := threshold))
    ensures Settled(START.(failures := threshold)) && !Agrees(threshold, START.(failures := threshold))
  {
    ReachFailuresWhileClosing(threshold, threshold - 1);
    var s0 := START.(failures := threshold - 1, threads := map[1 := AtClose]);
    Extend(threshold, s0, AddFailure(0));
    var s1 := Apply(threshold, s0, AddFailure(0));
    Extend(threshold, s1, OpenCircuit(0));
    var s2 := Apply(threshold, s1, OpenCircuit(0));
    Extend(threshold, s2, CloseCircuit(1));
    assert s2.threads - {1} == map[];
    assert Apply(threshold, s2, CloseCircuit(1)) == START.(failures := threshold);
  }

  // ----- Every call is accounted for -----

  /** The calls of `Allow` that found the circuit not closed and have not returned. */
  ghost function Probing(s: Shared): set<Tid> {
    set t | t in s.threads && s.threads[t] != AtClose && s.threads[t] != AtOpen
  }

  /** How a step changes the number of such calls: one enters, or one returns without or with a decrement. */
  function ProbeChange(s: Shared, a: Step): int {
    match a
    case Load(_) => if s.state.Closed? then 0 else 1
    case Check(_, overdue) => if overdue then 0 else -1
    case Add(_) => -1
    case _ => 0
  }

  lemma ProbeEnters(s: Shared, t: Tid, pc: PC)
    requires t !in s.threads && pc != AtClose && pc != AtOpen
    ensures |Probing(GoTo(s, t, pc))| == |Probing(s)| + 1
  {
    assert Probing(GoTo(s, t, pc)) == Probing(s) + {t};
  }

  lemma ProbeLeaves(s: Shared, t: Tid)
    requires t in Probing(s)
    ensures |Probing(Done(s, t))| == |Probing(s)| - 1
  {
    assert Probing(Done(s, t)) == Probing(s) - {t};
  }

  lemma ProbesStay(threshold: nat, s: Shared, a: Step)
    requires Enabled(s, a) && ProbeChange(s, a) == 0
    ensures Probing(Apply(threshold, s, a)) == Probing(s)
  {
  }

  lemma ProbingChange(threshold: nat, s: Shared, a: Step)
    requires Enabled(s, a)
    ensures |Probing(Apply(threshold, s, a))| == |Probing(s)| + ProbeChange(s, a)
  {
    if ProbeChange(s, a) == 1 {
      ProbeEnters(s, a.t, if s.state.Open? then AtCheck else AtAdd);
    } else if ProbeChange(s, a) == -1 {
      ProbeLeaves(s, a.t);
    } else {
      ProbesStay(threshold, s, a);
    }
  }

  /** The calls of `Allow` among the first `i` steps that found the circuit not closed. */
  function Entered(run: seq<Shared>, steps: seq<Step>, i: nat): nat
    requires |run| == |steps| + 1 && i <= |steps|
  {
    if i == 0 then 0
    else Entered(run, steps, i - 1) + if steps[i - 1].Load? && !run[i - 1].state.Closed? then 1 else 0
  }

  /** The calls among them that were turned away for coming too early, and those that decremented the counter. */
  function Left(steps: seq<Step>, i: nat): nat
    requires i <= |steps|
  {
    if i == 0 then 0
    else
      Left(steps, i - 1) +
      match steps[i - 1]
      case Check(_, overdue) => if overdue then 0 else 1
      case Add(_) => 1
      case _ => 0
  }

  /** In every run, each call of `Allow` that found the circuit not closed is in flight, was turned away too early, or
      has decremented the counter exactly once. */
  lemma {:induction false} ProbesConserved(threshold: nat, run: seq<Shared>, steps: seq<Step>, i: nat)
    requires IsRun(threshold, run, steps) && i < |run|
    ensures Entered(run, steps, i) == |Probing(run[i])| + Left(steps, i)
  {
    if i == 0 {
      assert Probing(START) == {};
    } else {
      ProbesConserved(threshold, run, steps, i - 1);
      ProbingChange(threshold, run[i - 1], steps[i - 1]);
    }
  }

  // ----- Calls made one at a time -----

  /** The atomic operations of a call made while no other is in flight. */
  function StepsOf(cfg: Config, b: Breaker, c: Call): seq<Step> {
    match c
    case Allow(now) =>
      if b.state.Closed? then [Load(0)]
      else if b.state.HalfOpen? then [Load(0), Add(0)]
      else if now - b.lastFailure > cfg.openDuration then [Load(0), Check(0, true), Swap(0), Store(0), Add(0)]
      else [Load(0), Check(0, false)]
    case Success => [ResetFailures(0), CloseCircuit(0)]
    case Failure(_) =>
      if b.failures + 1 >= cfg.failureThreshold then [AddFailure(0), OpenCircuit(0)] else [AddFailure(0)]
    case _ => []
  }

  /** No call is in flight and the fields are the breaker's. */
  predicate Matches(s: Shared, b: Breaker) {
    s.threads == map[] && s.state == b.state && s.allowed == b.allowed && s.failures == b.failures
  }

  predicate Executes(threshold: nat, s: Shared, steps: seq<Step>, s': Shared)
    decreases |steps|
  {
    if steps == [] then s' == s
    else Enabled(s, steps[0]) && Executes(threshold, Apply(threshold, s, steps[0]), steps[1..], s')
  }

  lemma OneStep(threshold: nat, s: Shared, a: Step, rest: seq<Step>, s': Shared)
    requires Enabled(s, a) && Executes(threshold, Apply(threshold, s, a), rest, s')
    ensures Executes(threshold, s, [a] + rest, s')
  {
    assert ([a] + rest)[1..] == rest;
  }

  lemma TwoSteps(threshold: nat, s: Shared, a: Step, b: Step)
    requires Enabled(s, a) && Enabled(Apply(threshold, s, a), b)
    ensures Executes(threshold, s, [a, b], Apply(threshold, Apply(threshold, s, a), b))
  {
    var s1 := Apply(threshold, s, a);
    var s2 := Apply(threshold, s1, b);
    OneStep(threshold, s1, b, [], s2);
    OneStep(threshold, s, a, [b], s2);
    assert [a] + [b] == [a, b] && [b] + [] == [b];
  }

  /** The atomic operations of one call, taken without interruption, do what the method does. */
  lemma AloneIsNext(cfg: Config, s: Shared, b: Breaker, c: Call) returns (s': Shared)
    requires Matches(s, b)
    ensures Executes(cfg.failureThreshold, s, StepsOf(cfg, b, c), s') && Matches(s', Next(cfg, b, c))
    ensures s'.admitted == s.admitted + if c.Allow? && !b.state.Closed? && Grants(cfg, b, c.now) then 1 else 0
  {
    var k, steps := cfg.failureThreshold, StepsOf(cfg, b, c);
    if |steps| == 0 {
      s' := s;
    } else if |steps| == 1 {
      s' := Apply(k, s, steps[0]);
      OneStep(k, s, steps[0], [], s');
      assert [steps[0]] + [] == steps;
    } else if |steps| == 2 {
      s' := Apply(k, Apply(k, s, steps[0]), steps[1]);
      TwoSteps(k, s, steps[0], steps[1]);
      assert [steps[0], steps[1]] == steps;
    } else {
      s' := ProbeAlone(k, s);
    }
  }

  lemma ProbeAlone(threshold: nat, s: Shared) returns (s': Shared)
    requires s.threads == map[] && s.state.Open?
    ensures Executes(threshold, s, [Load(0), Check(0, true), Swap(0), Store(0), Add(0)], s')
    ensures s'.threads == map[] && s'.state.HalfOpen? && s'.allowed == 0 && s'.failures == s.failures
    ensures s'.admitted == s.admitted + 1
  {
    var s1 := Apply(threshold, s, Load(0));
    var s2 := Apply(threshold, s1, Check(0, true));
    var s3 := Apply(threshold, s2, Swap(0));
    s' := Apply(threshold, Apply(threshold, s3, Store(0)), Add(0));
    TwoSteps(threshold, s3, Store(0), Add(0));
    OneStep(threshold, s2, Swap(0), [Store(0), Add(0)], s');
    OneStep(threshold, s1, Check(0, true), [Swap(0), Store(0), Add(0)], s');
    OneStep(threshold, s, Load(0), [Check(0, true), Swap(0), Store(0), Add(0)], s');
    assert [Swap(0)] + [Store(0), Add(0)] == [Swap(0), Store(0), Add(0)];
    assert [Check(0, true)] + [Swap(0), Store(0), Add(0)] == [Check(0, true), Swap(0), Store(0), Add(0)];
    assert [Load(0)] + [Check(0, true), Swap(0), Store(0), Add(0)] ==
      [Load(0), Check(0, true), Swap(0), Store(0), Add(0)];
  }

  /** The operations of a trace of calls made one after another. */
  function Serial(cfg: Config, trace: seq<Call>): seq<Step> {
    if trace == [] then []
    else
      var rest := trace[..|trace| - 1];
      Serial(cfg, rest) + StepsOf(cfg, After(cfg, rest), trace[|trace| - 1])
  }

  lemma {:induction false} ExecutesMore(threshold: nat, s: Shared, a: seq<Step>, m: Shared, b: seq<Step>, s': Shared)
    requires Executes(threshold, s, a, m) && Executes(threshold, m, b, s')
    ensures Executes(threshold, s, a + b, s')
    decreases |a|
  {
    if a == [] {
      assert a + b == b;
    } else {
      ExecutesMore(threshold, Apply(threshold, s, a[0]), a[1..], m, b, s');
      assert (a + b)[1..] == a[1..] + b;
    }
  }

  /** Refinement: calls made one at a time are one interleaving of the atomic operations, and it ends in the state that
      the trace of calls leads to. */
  lemma {:induction false} SerialIsTrace(cfg: Config, trace: seq<Call>) returns (s: Shared)
    ensures Executes(cfg.failureThreshold, START, Serial(cfg, trace), s) && Matches(s, After(cfg, trace))
  {
    if trace == [] {
      s := START;
    } else {
      var rest, c := trace[..|trace| - 1], trace[|trace| - 1];
      var before := SerialIsTrace(cfg, rest);
      s := AloneIsNext(cfg, before, After(cfg, rest), c);
      ExecutesMore(cfg.failureThreshold, START, Serial(cfg, rest), before, StepsOf(cfg, After(cfg, rest), c), s);
    }
  }
}
