/** Replacement of the routing table: an atomic swap, then the replaced table's cleanup functions. */
module SwapTable {
  import opened Basics

  /** The name of a cleanup function. */
  type Fn = nat

  // ----- One call -----

  class RoutingTable {
    var cleanups: seq<Fn>

    constructor ()
      ensures cleanups == []
    {
      cleanups := [];
    }

    method AddCleanup(fn: Fn)
      modifies this
      ensures cleanups == old(cleanups) + [fn]
    {
      cleanups := cleanups + [fn];
    }
  }

  class Router {
    var table: RoutingTable?
    /** The cleanup functions run so far, oldest first. */
    var ran: seq<Fn>

    constructor ()
      ensures table != null && fresh(table) && table.cleanups == [] && ran == []
    {
      table := new RoutingTable();
      ran := [];
    }

    method SwapTable(t: RoutingTable)
      modifies this
      ensures table == t
      ensures ran == old(ran) + (if old(table) == null then [] else old(table).cleanups)
    {
      var replaced := table;
      table := t;
      if replaced != null {
        for i := 0 to |replaced.cleanups|
          invariant table == t
          invariant ran == old(ran) + replaced.cleanups[..i]
        {
          ran := ran + [replaced.cleanups[i]];
          assert replaced.cleanups[..i + 1] == replaced.cleanups[..i] + [replaced.cleanups[i]];
        }
        assert replaced.cleanups[..|replaced.cleanups|] == replaced.cleanups;
      }
    }
  }

  // ----- Any number of concurrent calls -----

  /** Where a call stands: before the swap, `k` functions into the replaced table's list, or back. */
  datatype Call =
    | Waiting(t: nat)
    | Cleaning(t: nat, replaced: Option<nat>, k: nat)
    | Returned(t: nat, replaced: Option<nat>)

  datatype State = State(
    first: Option<nat>,
    live: Option<nat>,
    cleanups: map<nat, seq<Fn>>,
    calls: map<nat, Call>,
    ran: seq<(nat, Fn)>)

  datatype Step =
    | NewTable(t: nat)
    | AddCleanup(t: nat, fn: Fn)
    | Begin(c: nat, t: nat)
    | Swap(c: nat)
    | RunNext(c: nat)
    | Return(c: nat)

  /** The table has been handed to the router. */
  ghost predicate Offered(s: State, t: nat) {
    s.first == Some(t) || exists c :: c in s.calls && s.calls[c].t == t
  }

  /** A router holding no table, or one table without cleanup functions. */
  predicate Initial(s: State) {
    && s.live == s.first && s.calls == map[] && s.ran == []
    && s.cleanups == if s.first.Some? then map[s.first.value := []] else map[]
  }

  function ListOf(s: State, table: Option<nat>): seq<Fn> {
    if table.Some? && table.value in s.cleanups then s.cleanups[table.value] else []
  }

  /** Tables are built before they are offered, and no table is offered twice. */
  ghost predicate Enabled(s: State, step: Step) {
    match step
    case NewTable(t) => t !in s.cleanups
    case AddCleanup(t, _) => t in s.cleanups && !Offered(s, t)
    case Begin(c, t) => c !in s.calls && t in s.cleanups && !Offered(s, t)
    case Swap(c) => c in s.calls && s.calls[c].Waiting?
    case RunNext(c) => c in s.calls && s.calls[c].Cleaning? && s.calls[c].k < |ListOf(s, s.calls[c].replaced)|
    case Return(c) => c in s.calls && s.calls[c].Cleaning? && s.calls[c].k >= |ListOf(s, s.calls[c].replaced)|
  }

  ghost function Apply(s: State, step: Step): State
    requires Enabled(s, step)
  {
    match step
    case NewTable(t) => s.(cleanups := s.cleanups[t := []])
    case AddCleanup(t, fn) => s.(cleanups := s.cleanups[t := s.cleanups[t] + [fn]])
    case Begin(c, t) => s.(calls := s.calls[c := Waiting(t)])
    case Swap(c) =>
      s.(live := Some(s.calls[c].t), calls := s.calls[c := Cleaning(s.calls[c].t, s.live, 0)])
    case RunNext(c) =>
      var call := s.calls[c];
      s.(calls := s.calls[c := call.(k := call.k + 1)],
         ran := s.ran + [(call.replaced.value, ListOf(s, call.replaced)[call.k])])
    case Return(c) => s.(calls := s.calls[c := Returned(s.calls[c].t, s.calls[c].replaced)])
  }

  ghost predicate IsRun(states: seq<State>, steps: seq<Step>) {
    && |states| == |steps| + 1
    && Initial(states[0])
    && forall i :: 0 <= i < |steps| ==> Enabled(states[i], steps[i]) && states[i + 1] == Apply(states[i], steps[i])
  }

  /** The functions of one table that have run, oldest first. */
  function RunsOf(ran: seq<(nat, Fn)>, t: nat): seq<Fn> {
    if ran == [] then []
    else
      var last := ran[|ran| - 1];
      RunsOf(ran[..|ran| - 1], t) + (if last.0 == t then [last.1] else [])
  }

  // ----- The invariant -----

  function Took(call: Call): Option<nat> {
    if call.Waiting? then None else call.replaced
  }

  /** How many of the replaced table's functions the call has run. */
  function Progress(s: State, call: Call): nat {
    match call
    case Waiting(_) => 0
    case Cleaning(_, _, k) => k
    case Returned(_, replaced) => |ListOf(s, replaced)|
  }

  predicate OwnerTook(s: State, owner: map<nat, nat>, t: nat) {
    t in owner ==> owner[t] in s.calls && Took(s.calls[owner[t]]) == Some(t)
  }

  predicate TookOwns(s: State, owner: map<nat, nat>, c: nat) {
    c in s.calls && Took(s.calls[c]).Some? ==>
      Took(s.calls[c]).value in owner && owner[Took(s.calls[c]).value] == c
  }

  /** `owner` names, for each replaced table, the one call that replaced it. */
  ghost predicate Owners(s: State, owner: map<nat, nat>) {
    (forall t :: OwnerTook(s, owner, t)) && (forall c :: TookOwns(s, owner, c))
  }

  /** A table that was swapped in is live or replaced, never both; a waiting one is neither. */
  predicate CallPlace(s: State, owner: map<nat, nat>, call: Call) {
    if call.Waiting? then call.t !in owner && s.live != Some(call.t)
    else call.t in owner <==> s.live != Some(call.t)
  }

  ghost predicate Places(s: State, owner: map<nat, nat>) {
    && (forall c :: c in s.calls ==> CallPlace(s, owner, s.calls[c]))
    && (s.first.Some? ==> (s.first.value in owner <==> s.live != s.first))
    && (forall t :: t in owner ==> Offered(s, t) && t in s.cleanups)
    && (s.live.Some? ==> Offered(s, s.live.value) && s.live.value in s.cleanups && s.live.value !in owner)
  }

  ghost predicate Distinct(s: State) {
    && (forall c, d :: c in s.calls && d in s.calls && s.calls[c].t == s.calls[d].t ==> c == d)
    && (forall c :: c in s.calls ==> s.first != Some(s.calls[c].t) && s.calls[c].t in s.cleanups)
    && (s.first.Some? ==> s.first.value in s.cleanups)
  }

  predicate TableRuns(s: State, owner: map<nat, nat>, t: nat) {
    if t in owner && owner[t] in s.calls then
      var n := Progress(s, s.calls[owner[t]]);
      n <= |ListOf(s, Some(t))| && RunsOf(s.ran, t) == ListOf(s, Some(t))[..n]
    else RunsOf(s.ran, t) == []
  }

  ghost predicate Runs(s: State, owner: map<nat, nat>) {
    forall t :: TableRuns(s, owner, t)
  }

  ghost predicate Inv(s: State, owner: map<nat, nat>) {
    Owners(s, owner) && Places(s, owner) && Distinct(s) && Runs(s, owner)
  }

  function NextOwners(s: State, owner: map<nat, nat>, step: Step): map<nat, nat> {
    if step.Swap? && s.live.Some? then owner[s.live.value := step.c] else owner
  }

  lemma OwnersKept(s: State, owner: map<nat, nat>, step: Step)
    requires Enabled(s, step) && Owners(s, owner) && Places(s, owner)
    ensures Owners(Apply(s, step), NextOwners(s, owner, step))
  {
    var s', owner' := Apply(s, step), NextOwners(s, owner, step);
    forall t ensures OwnerTook(s', owner', t) {
      assert OwnerTook(s, owner, t);
    }
    forall c ensures TookOwns(s', owner', c) {
      assert TookOwns(s, owner, c);
    }
  }

  lemma OfferedKept(s: State, step: Step, t: nat)
    requires Enabled(s, step) && Offered(s, t)
    ensures Offered(Apply(s, step), t)
  {
    if s.first != Some(t) {
      var c :| c in s.calls && s.calls[c].t == t;
      assert c in Apply(s, step).calls && Apply(s, step).calls[c].t == t;
    }
  }

  lemma DistinctKept(s: State, owner: map<nat, nat>, step: Step)
    requires Enabled(s, step) && Inv(s, owner)
    ensures Distinct(Apply(s, step))
  {
  }

  lemma CallPlaceKept(s: State, owner: map<nat, nat>, step: Step, c: nat)
    requires Enabled(s, step) && Distinct(s) && Places(s, owner) && c in Apply(s, step).calls
    ensures CallPlace(Apply(s, step), NextOwners(s, owner, step), Apply(s, step).calls[c])
  {
    assert c in s.calls ==> CallPlace(s, owner, s.calls[c]);
    if step.Swap? {
      assert CallPlace(s, owner, s.calls[step.c]);
    }
  }

  lemma OfferedPlacesKept(s: State, owner: map<nat, nat>, step: Step)
    requires Enabled(s, step) && Distinct(s) && Places(s, owner)
    ensures forall t :: t in NextOwners(s, owner, step) ==> Offered(Apply(s, step), t) && t in Apply(s, step).cleanups
    ensures Apply(s, step).live.Some? ==>
      Offered(Apply(s, step), Apply(s, step).live.value) && Apply(s, step).live.value in Apply(s, step).cleanups
  {
    var s', owner' := Apply(s, step), NextOwners(s, owner, step);
    forall t | t in owner' || s.live == Some(t) ensures Offered(s', t) && t in s'.cleanups {
      OfferedKept(s, step, t);
    }
    if step.Swap? {
      assert s'.calls[step.c].t == s.calls[step.c].t;
    }
  }

  lemma PlacesKept(s: State, owner: map<nat, nat>, step: Step)
    requires Enabled(s, step) && Distinct(s) && Places(s, owner)
    ensures Places(Apply(s, step), NextOwners(s, owner, step))
  {
    OfferedPlacesKept(s, owner, step);
    forall c | c in Apply(s, step).calls
      ensures CallPlace(Apply(s, step), NextOwners(s, owner, step), Apply(s, step).calls[c])
    {
      CallPlaceKept(s, owner, step, c);
    }
    if step.Swap? {
      assert CallPlace(s, owner, s.calls[step.c]);
    }
  }

  lemma RunsKept(s: State, owner: map<nat, nat>, step: Step)
    requires Enabled(s, step) && Inv(s, owner)
    ensures Runs(Apply(s, step), NextOwners(s, owner, step))
  {
    var s', owner' := Apply(s, step), NextOwners(s, owner, step);
    forall t ensures TableRuns(s', owner', t) {
      assert TableRuns(s, owner, t) && OwnerTook(s, owner, t);
      assert step.RunNext? ==> TookOwns(s, owner, step.c);
      TableRunsKept(s, owner, step, t);
    }
  }

  lemma TableRunsKept(s: State, owner: map<nat, nat>, step: Step, t: nat)
    requires Enabled(s, step) && OwnerTook(s, owner, t) && Places(s, owner) && TableRuns(s, owner, t)
    requires step.RunNext? ==> TookOwns(s, owner, step.c)
    ensures TableRuns(Apply(s, step), NextOwners(s, owner, step), t)
  {
    match step
    case RunNext(c) => RunNextKeeps(s, owner, c, t);
    case AddCleanup(t', _) => assert t' !in owner;
    case _ =>
  }

  lemma RunNextKeeps(s: State, owner: map<nat, nat>, c: nat, t: nat)
    requires Enabled(s, RunNext(c)) && OwnerTook(s, owner, t) && TookOwns(s, owner, c) && TableRuns(s, owner, t)
    ensures TableRuns(Apply(s, RunNext(c)), owner, t)
  {
    var call, s' := s.calls[c], Apply(s, RunNext(c));
    assert s'.ran[..|s.ran|] == s.ran;
    if call.replaced == Some(t) {
      var list := ListOf(s, Some(t));
      assert list[..call.k + 1] == list[..call.k] + [list[call.k]];
    }
  }

  lemma StepKeepsInv(s: State, owner: map<nat, nat>, step: Step)
    requires Enabled(s, step) && Inv(s, owner)
    ensures Inv(Apply(s, step), NextOwners(s, owner, step))
  {
    OwnersKept(s, owner, step);
    PlacesKept(s, owner, step);
    DistinctKept(s, owner, step);
    RunsKept(s, owner, step);
  }

  lemma {:induction false} RunKeepsInv(states: seq<State>, steps: seq<Step>) returns (owner: map<nat, nat>)
    requires IsRun(states, steps)
    ensures Inv(states[|steps|], owner)
    decreases |steps|
  {
    if steps == [] {
      owner := map[];
    } else {
      var n := |steps| - 1;
      var before := RunKeepsInv(states[..n + 1], steps[..n]);
      StepKeepsInv(states[n], before, steps[n]);
      owner := NextOwners(states[n], before, steps[n]);
    }
  }

  // ----- What every run guarantees -----

  /** At every moment a table's functions have run in registration order, each at most once, and none of them
      while the table is live or not yet swapped in. */
  lemma CleanupsInOrder(states: seq<State>, steps: seq<Step>, t: nat)
    requires IsRun(states, steps)
    ensures RunsOf(states[|steps|].ran, t) <= Registrations(steps, t)
    ensures states[|steps|].live == Some(t) || !Offered(states[|steps|], t) ==> RunsOf(states[|steps|].ran, t) == []
    ensures forall c :: c in states[|steps|].calls && states[|steps|].calls[c] == Waiting(t) ==>
      RunsOf(states[|steps|].ran, t) == []
  {
    var s := states[|steps|];
    var owner := RunKeepsInv(states, steps);
    FromSteps(states, steps, t, 0);
    assert TableRuns(s, owner, t) && OwnerTook(s, owner, t);
    assert t in owner ==> s.live != Some(t) && Offered(s, t);
    forall c | c in s.calls && s.calls[c] == Waiting(t) ensures t !in owner {
      assert CallPlace(s, owner, s.calls[c]);
    }
  }

  // ----- The same from the steps alone -----

  /** The functions registered on a table, oldest first. */
  function Registrations(steps: seq<Step>, t: nat): seq<Fn> {
    if steps == [] then []
    else
      var before := Registrations(steps[..|steps| - 1], t);
      match steps[|steps| - 1]
      case AddCleanup(x, fn) => if x == t then before + [fn] else before
      case _ => before
  }

  /** The table that a call was made with. */
  function GivenTo(steps: seq<Step>, c: nat): Option<nat> {
    if steps == [] then None
    else
      match steps[|steps| - 1]
      case Begin(x, t) => if x == c then Some(t) else GivenTo(steps[..|steps| - 1], c)
      case _ => GivenTo(steps[..|steps| - 1], c)
  }

  /** The table of the call that swapped last; the first table if none has. */
  function LastSwapped(first: Option<nat>, steps: seq<Step>): Option<nat> {
    if steps == [] then first
    else
      match steps[|steps| - 1]
      case Swap(c) => GivenTo(steps[..|steps| - 1], c)
      case _ => LastSwapped(first, steps[..|steps| - 1])
  }

  predicate HandedOver(first: Option<nat>, steps: seq<Step>, t: nat) {
    first == Some(t) || exists i :: 0 <= i < |steps| && steps[i].Begin? && steps[i].t == t
  }

  lemma StepEffects(s: State, step: Step, t: nat)
    requires Enabled(s, step)
    ensures Apply(s, step).first == s.first
    ensures ListOf(Apply(s, step), Some(t)) ==
      ListOf(s, Some(t)) + if step.AddCleanup? && step.t == t then [step.fn] else []
    ensures Offered(Apply(s, step), t) <==> Offered(s, t) || (step.Begin? && step.t == t)
    ensures forall c :: c in s.calls ==> c in Apply(s, step).calls && Apply(s, step).calls[c].t == s.calls[c].t
    ensures forall c :: c in Apply(s, step).calls ==> c in s.calls || (step == Begin(c, Apply(s, step).calls[c].t))
  {
    var s' := Apply(s, step);
    if Offered(s, t) {
      OfferedKept(s, step, t);
    }
    if step.Begin? && step.t == t {
      assert s'.calls[step.c].t == t;
    }
  }

  /** Lists, calls and offers of the final state of a run, from its steps. */
  lemma {:induction false} FromSteps(states: seq<State>, steps: seq<Step>, t: nat, c: nat)
    requires IsRun(states, steps)
    ensures states[|steps|].first == states[0].first
    ensures ListOf(states[|steps|], Some(t)) == Registrations(steps, t)
    ensures Offered(states[|steps|], t) <==> HandedOver(states[0].first, steps, t)
    ensures c in states[|steps|].calls ==> GivenTo(steps, c) == Some(states[|steps|].calls[c].t)
    decreases |steps|
  {
    if steps != [] {
      var n := |steps| - 1;
      var rest := steps[..n];
      FromSteps(states[..n + 1], rest, t, c);
      StepEffects(states[n], steps[n], t);
      HandedNext(states[0].first, steps, t);
      assert steps[n].Begin? && steps[n].c == c ==> c !in states[n].calls;
    }
  }

  lemma HandedNext(first: Option<nat>, steps: seq<Step>, t: nat)
    requires steps != []
    ensures var n := |steps| - 1;
      HandedOver(first, steps, t) <==> HandedOver(first, steps[..n], t) || (steps[n].Begin? && steps[n].t == t)
  {
    var rest := steps[..|steps| - 1];
    if i :| 0 <= i < |rest| && rest[i].Begin? && rest[i].t == t {
      assert steps[i].Begin? && steps[i].t == t;
    }
    if i :| 0 <= i < |steps| && steps[i].Begin? && steps[i].t == t {
      assert i < |rest| ==> rest[i] == steps[i];
    }
  }

  /** In every run the live table is that of the call that swapped last. */
  lemma {:induction false} LiveIsLastSwapped(states: seq<State>, steps: seq<Step>)
    requires IsRun(states, steps)
    ensures states[|steps|].live == LastSwapped(states[0].first, steps)
    decreases |steps|
  {
    if steps != [] {
      var n := |steps| - 1;
      LiveIsLastSwapped(states[..n + 1], steps[..n]);
      if steps[n].Swap? {
        FromSteps(states[..n + 1], steps[..n], 0, steps[n].c);
      }
    }
  }

  predicate AllReturned(s: State) {
    forall c :: c in s.calls ==> s.calls[c].Returned?
  }

  /** Once every call has returned, each table that was handed over and is no longer live has had its whole list
      run exactly once in registration order, and no function of any other table has run. */
  lemma ReplacedTablesCleanedOnce(states: seq<State>, steps: seq<Step>, t: nat)
    requires IsRun(states, steps) && AllReturned(states[|steps|])
    ensures RunsOf(states[|steps|].ran, t) ==
      if HandedOver(states[0].first, steps, t) && LastSwapped(states[0].first, steps) != Some(t)
      then Registrations(steps, t) else []
  {
    FromSteps(states, steps, t, 0);
    LiveIsLastSwapped(states, steps);
    var s := states[|steps|];
    var owner := RunKeepsInv(states, steps);
    assert TableRuns(s, owner, t) && OwnerTook(s, owner, t);
    if Offered(s, t) && s.live != Some(t) {
      if s.first != Some(t) {
        var c :| c in s.calls && s.calls[c].t == t;
        assert CallPlace(s, owner, s.calls[c]);
      }
      assert t in owner;
    } else {
      assert t !in owner;
    }
  }
}
