/** The controller's work queue and its reconcile cycles: which routes the overlap detector ever sees together. */
module WorkQueue {
  import opened Basics
  import opened Dedup
  import opened Overlap

  datatype RouteRef = RouteRef(namespace: string, name: string, super: bool)

  /** The values of `vrata.io/batch` and `vrata.io/batch-size`, where present. */
  datatype Annotations = Annotations(batch: Option<string>, size: Option<string>)

  datatype Group = Group(name: string, expected: nat, members: seq<RouteRef>, lastSeen: int)
  datatype Item = Single(ref: RouteRef) | Batch(group: Group)

  /** A route in the informer's listing, observed at `now`. */
  datatype Listing = Listing(ref: RouteRef, annotations: Annotations, now: int)

  // ----- The queue as a value -----

  /** The waiting items, and the keys of the single routes ever enqueued. */
  datatype Backlog = Backlog(items: seq<Item>, known: set<string>)

  const EMPTY := Backlog([], {})

  function KeyOf(ref: RouteRef): string {
    ref.namespace + "/" + ref.name
  }

  predicate SameRoute(a: RouteRef, b: RouteRef) {
    a.namespace == b.namespace && a.name == b.name
  }

  function SizeOf(annotations: Annotations): nat {
    match annotations.size
    case None => 0
    case Some(s) => if Number(s).Some? then Number(s).value else 0
  }

  predicate IsBatch(item: Item, name: string) {
    item.Batch? && item.group.name == name
  }

  /** The index of the first batch of this name, or the length. */
  function IndexOfBatch(items: seq<Item>, name: string, i: nat): (k: nat)
    requires i <= |items|
    ensures i <= k <= |items|
    ensures k < |items| ==> IsBatch(items[k], name)
    ensures forall j :: i <= j < k ==> !IsBatch(items[j], name)
    decreases |items| - i
  {
    if i == |items| || IsBatch(items[i], name) then i else IndexOfBatch(items, name, i + 1)
  }

  predicate HasMember(members: seq<RouteRef>, ref: RouteRef) {
    exists m :: m in members && SameRoute(m, ref)
  }

  /** The group after a listed route: the first size seen counts, and a route joins once. */
  function Joined(g: Group, l: Listing): Group {
    var g' := if l.annotations.size.Some? && g.expected == 0 then g.(expected := SizeOf(l.annotations)) else g;
    if HasMember(g.members, l.ref) then g' else g'.(members := g.members + [l.ref], lastSeen := l.now)
  }

  function Observed(q: Backlog, l: Listing): Backlog {
    match l.annotations.batch
    case None =>
      if KeyOf(l.ref) in q.known then q else Backlog(q.items + [Single(l.ref)], q.known + {KeyOf(l.ref)})
    case Some(name) =>
      var k := IndexOfBatch(q.items, name, 0);
      if k < |q.items| then q.(items := q.items[k := Batch(Joined(q.items[k].group, l))])
      else q.(items := q.items + [Batch(Joined(Group(name, SizeOf(l.annotations), [], l.now), l))])
  }

  function Popped(q: Backlog): Backlog {
    if q.items == [] then q else q.(items := q.items[1..])
  }

  // ----- The queue -----

  method ParseSize(s: string) returns (n: nat)
    ensures n == if Number(s).Some? then Number(s).value else 0
  {
    n := 0;
    for i := 0 to |s|
      invariant Number(s[..i]) == Some(n)
    {
      assert s[..i + 1][..i] == s[..i];
      if !IsDigit(s[i]) {
        NotANumber(s, i);
        return 0;
      }
      n := n * 10 + (s[i] as int - '0' as int);
    }
    assert s[..|s|] == s;
  }

  lemma {:induction false} NotANumber(s: string, i: nat)
    requires i < |s| && !IsDigit(s[i])
    ensures Number(s) == None
  {
    if i < |s| - 1 {
      NotANumber(s[..|s| - 1], i);
    }
  }

  /** The batch called `n`, if indexed, is the item enqueued after `byKey[n]` others. */
  predicate Locates(items: seq<Item>, byKey: map<string, nat>, popped: nat, n: string) {
    n in byKey ==> popped <= byKey[n] < popped + |items| && IsBatch(items[byKey[n] - popped], n)
  }

  predicate Located(items: seq<Item>, byKey: map<string, nat>, popped: nat, i: nat) {
    i < |items| && items[i].Batch? ==> items[i].group.name in byKey && byKey[items[i].group.name] == popped + i
  }

  /** `byKey` indexes exactly the waiting batches. */
  ghost predicate Indexed(items: seq<Item>, byKey: map<string, nat>, popped: nat) {
    (forall n :: Locates(items, byKey, popped, n)) && (forall i: nat :: Located(items, byKey, popped, i))
  }

  lemma IndexedLookup(items: seq<Item>, byKey: map<string, nat>, popped: nat, name: string)
    requires Indexed(items, byKey, popped)
    ensures IndexOfBatch(items, name, 0) == if name in byKey then byKey[name] - popped else |items|
  {
    var k := IndexOfBatch(items, name, 0);
    assert Locates(items, byKey, popped, name) && Located(items, byKey, popped, k);
  }

  lemma IndexedSingle(items: seq<Item>, byKey: map<string, nat>, popped: nat, ref: RouteRef)
    requires Indexed(items, byKey, popped)
    ensures Indexed(items + [Single(ref)], byKey, popped)
  {
    var items' := items + [Single(ref)];
    forall n ensures Locates(items', byKey, popped, n) {
      assert Locates(items, byKey, popped, n);
    }
    forall i: nat ensures Located(items', byKey, popped, i) {
      assert Located(items, byKey, popped, i);
    }
  }

  lemma IndexedBatch(items: seq<Item>, byKey: map<string, nat>, popped: nat, g: Group)
    requires Indexed(items, byKey, popped) && g.name !in byKey
    ensures Indexed(items + [Batch(g)], byKey[g.name := popped + |items|], popped)
  {
    var items', byKey' := items + [Batch(g)], byKey[g.name := popped + |items|];
    forall n ensures Locates(items', byKey', popped, n) {
      assert Locates(items, byKey, popped, n);
    }
    forall i: nat ensures Located(items', byKey', popped, i) {
      assert Located(items, byKey, popped, i);
    }
  }

  lemma IndexedUpdate(items: seq<Item>, byKey: map<string, nat>, popped: nat, k: nat, g: Group)
    requires Indexed(items, byKey, popped) && k < |items| && IsBatch(items[k], g.name)
    ensures Indexed(items[k := Batch(g)], byKey, popped)
  {
    var items' := items[k := Batch(g)];
    forall n ensures Locates(items', byKey, popped, n) {
      assert Locates(items, byKey, popped, n);
    }
    forall i: nat ensures Located(items', byKey, popped, i) {
      assert Located(items, byKey, popped, i);
    }
  }

  lemma IndexedPop(items: seq<Item>, byKey: map<string, nat>, popped: nat)
    requires Indexed(items, byKey, popped) && items != []
    ensures Indexed(items[1..], if items[0].Batch? then byKey - {items[0].group.name} else byKey, popped + 1)
  {
    var items', popped' := items[1..], popped + 1;
    var byKey' := if items[0].Batch? then byKey - {items[0].group.name} else byKey;
    forall n ensures Locates(items', byKey', popped', n) {
      assert Locates(items, byKey, popped, n) && Located(items, byKey, popped, 0);
    }
    forall i: nat ensures Located(items', byKey', popped', i) {
      assert Located(items, byKey, popped, i + 1) && Located(items, byKey, popped, 0);
    }
  }

  class Queue {
    var items: seq<Item>
    /** The batches by name: how many items had been enqueued before each, which is fixed while `items` moves up. */
    var byKey: map<string, nat>
    var popped: nat
    /** The caller's `knownSingles`, which lives as long as the queue. */
    var known: set<string>

    ghost predicate Valid()
      reads this
    {
      Indexed(items, byKey, popped)
    }

    ghost function Value(): Backlog
      reads this
    {
      Backlog(items, known)
    }

    constructor ()
      ensures Valid() && Value() == EMPTY
    {
      items, byKey, popped, known := [], map[], 0, {};
    }

    method Observe(l: Listing)
      requires Valid()
      modifies this
      ensures Valid() && Value() == Observed(old(Value()), l)
    {
      if l.annotations.batch.None? {
        var key := l.ref.namespace + "/" + l.ref.name;
        if key !in known {
          known := known + {key};
          IndexedSingle(items, byKey, popped, l.ref);
          items := items + [Single(l.ref)];
        }
      } else {
        ObserveBatch(l, l.annotations.batch.value);
      }
    }

    method ObserveBatch(l: Listing, name: string)
      requires Valid() && l.annotations.batch == Some(name)
      modifies this`items, this`byKey
      ensures Valid() && Value() == Observed(old(Value()), l)
    {
      IndexedLookup(items, byKey, popped, name);
      assert Locates(items, byKey, popped, name);
      var size := 0;
      if l.annotations.size.Some? {
        size := ParseSize(l.annotations.size.value);
      }
      if name !in byKey {
        IndexedBatch(items, byKey, popped, Group(name, size, [], l.now));
        byKey := byKey[name := popped + |items|];
        items := items + [Batch(Group(name, size, [], l.now))];
      }
      var k := byKey[name] - popped;
      var g := Join(items[k].group, l, size);
      IndexedUpdate(items, byKey, popped, k, g);
      items := items[k := Batch(g)];
    }

    static method Join(group: Group, l: Listing, size: nat) returns (g: Group)
      requires size == SizeOf(l.annotations)
      ensures g == Joined(group, l) && g.name == group.name
    {
      g := group;
      if l.annotations.size.Some? && g.expected == 0 {
        g := g.(expected := size);
      }
      var present := FindMember(g.members, l.ref);
      if !present {
        g := g.(members := g.members + [l.ref], lastSeen := l.now);
      }
    }

    static method FindMember(members: seq<RouteRef>, ref: RouteRef) returns (present: bool)
      ensures present == HasMember(members, ref)
    {
      for i := 0 to |members|
        invariant !HasMember(members[..i], ref)
      {
        if SameRoute(members[i], ref) {
          return true;
        }
        assert members[..i + 1] == members[..i] + [members[i]];
      }
      assert members[..|members|] == members;
      return false;
    }

    method Pop()
      requires Valid()
      modifies this
      ensures Valid() && Value() == Popped(old(Value()))
    {
      if |items| == 0 {
        return;
      }
      IndexedPop(items, byKey, popped);
      var item := items[0];
      items, popped := items[1..], popped + 1;
      if item.Batch? {
        byKey := byKey - {item.group.name};
      }
    }
  }

  // ----- Cycles -----

  /** What to do with a batch that is ready without being complete, and how long a batch may idle. */
  datatype Policy = Policy(idleTimeout: int, rejectIncomplete: bool)

  /** One cycle's inputs. `lookup` gives the route behind a reference as the detector is to check it: none when it
      cannot be fetched or a reference grant denies it. */
  datatype Tick = Tick(listed: seq<Listing>, now: int, lookup: RouteRef -> Option<HTTPRoute>)

  predicate IsReady(g: Group, p: Policy, now: int) {
    (g.expected > 0 && |g.members| >= g.expected) || now - g.lastSeen >= p.idleTimeout
  }

  predicate IsIncomplete(g: Group) {
    g.expected > 0 && |g.members| < g.expected
  }

  /** The head of the queue leaves it. */
  predicate Leaves(item: Item, p: Policy, now: int) {
    item.Single? || IsReady(item.group, p, now)
  }

  /** The head of the queue is reconciled. */
  predicate Due(item: Item, p: Policy, now: int) {
    Leaves(item, p, now) && !(item.Batch? && IsIncomplete(item.group) && p.rejectIncomplete)
  }

  function MembersOf(item: Item): seq<RouteRef> {
    match item
    case Single(ref) => [ref]
    case Batch(group) => group.members
  }

  function ObservedAll(q: Backlog, listed: seq<Listing>): Backlog {
    if listed == [] then q else Observed(ObservedAll(q, listed[..|listed| - 1]), listed[|listed| - 1])
  }

  /** The item at the head, if it is reconciled. */
  function DueHead(q: Backlog, p: Policy, now: int): Option<Item> {
    if q.items != [] && Due(q.items[0], p, now) then Some(q.items[0]) else None
  }

  function AfterHead(q: Backlog, p: Policy, now: int): Backlog {
    if q.items != [] && Leaves(q.items[0], p, now) then Popped(q) else q
  }

  /** The item that a cycle reconciles, if any. */
  function Taken(q: Backlog, p: Policy, tick: Tick): Option<Item> {
    DueHead(ObservedAll(q, tick.listed), p, tick.now)
  }

  function AfterTick(q: Backlog, p: Policy, tick: Tick): Backlog {
    AfterHead(ObservedAll(q, tick.listed), p, tick.now)
  }

  function Fetched(refs: seq<RouteRef>, lookup: RouteRef -> Option<HTTPRoute>): seq<HTTPRoute> {
    if refs == [] then []
    else
      match lookup(refs[|refs| - 1])
      case None => Fetched(refs[..|refs| - 1], lookup)
      case Some(route) => Fetched(refs[..|refs| - 1], lookup) + [route]
  }

  function ItemReport(item: Option<Item>, lookup: RouteRef -> Option<HTTPRoute>, cases: Cases): seq<Conflict> {
    match item
    case None => []
    case Some(i) => CheckedReport(Fetched(MembersOf(i), lookup), cases)
  }

  function TickReport(q: Backlog, p: Policy, tick: Tick, cases: Cases): seq<Conflict> {
    ItemReport(Taken(q, p, tick), tick.lookup, cases)
  }

  /** Phase 2 for one item: fetch each member and check it. */
  method CheckMembers(detector: Detector, refs: seq<RouteRef>, lookup: RouteRef -> Option<HTTPRoute>)
    returns (report: seq<Conflict>)
    requires detector.byHost == map[]
    modifies detector`byHost
    ensures report == CheckedReport(Fetched(refs, lookup), detector.cases)
  {
    report := [];
    for i := 0 to |refs|
      invariant report == CheckedReport(Fetched(refs[..i], lookup), detector.cases)
      invariant detector.byHost == CheckedTable(Fetched(refs[..i], lookup))
    {
      assert refs[..i + 1][..i] == refs[..i];
      var found := lookup(refs[i]);
      if found.Some? {
        CheckedLast(Fetched(refs[..i], lookup), found.value, detector.cases);
        var ols := detector.Check(found.value);
        report := report + ols;
      }
    }
    assert refs[..|refs|] == refs;
  }

  lemma CheckedLast(routes: seq<HTTPRoute>, route: HTTPRoute, cases: Cases)
    ensures CheckedReport(routes + [route], cases) ==
      CheckedReport(routes, cases) + AgainstEach(CheckedTable(routes), EntriesOf(route), cases)
    ensures CheckedTable(routes + [route]) == Registered(CheckedTable(routes), EntriesOf(route))
  {
    assert (routes + [route])[..|routes|] == routes;
  }

  /** `syncCycle`: reset the detector, observe the listing, and reconcile the head of the queue when it is due. */
  method Cycle(queue: Queue, detector: Detector, p: Policy, tick: Tick) returns (report: seq<Conflict>)
    requires queue.Valid()
    modifies queue, detector`byHost
    ensures queue.Valid() && queue.Value() == AfterTick(old(queue.Value()), p, tick)
    ensures report == TickReport(old(queue.Value()), p, tick, detector.cases)
  {
    detector.Reset();
    ObserveAll(queue, tick.listed);
    report := ProcessHead(queue, detector, p, tick);
  }

  /** Phase 2 of the cycle. */
  method ProcessHead(queue: Queue, detector: Detector, p: Policy, tick: Tick) returns (report: seq<Conflict>)
    requires queue.Valid() && detector.byHost == map[]
    modifies queue, detector`byHost
    ensures queue.Valid() && queue.Value() == AfterHead(old(queue.Value()), p, tick.now)
    ensures report == ItemReport(DueHead(old(queue.Value()), p, tick.now), tick.lookup, detector.cases)
  {
    report := [];
    if |queue.items| == 0 {
      return;
    }
    match queue.items[0] {
      case Single(ref) =>
        report := CheckMembers(detector, [ref], tick.lookup);
        queue.Pop();
      case Batch(bg) =>
        if IsReady(bg, p, tick.now) {
          if !(IsIncomplete(bg) && p.rejectIncomplete) {
            report := CheckMembers(detector, bg.members, tick.lookup);
          }
          queue.Pop();
        }
    }
  }

  method ObserveAll(queue: Queue, listed: seq<Listing>)
    requires queue.Valid()
    modifies queue
    ensures queue.Valid() && queue.Value() == ObservedAll(old(queue.Value()), listed)
  {
    for i := 0 to |listed|
      invariant queue.Valid() && queue.Value() == ObservedAll(old(queue.Value()), listed[..i])
    {
      assert listed[..i + 1][..i] == listed[..i];
      queue.Observe(listed[i]);
    }
    assert listed[..|listed|] == listed;
  }

  // ----- Runs of cycles -----

  function AfterTicks(p: Policy, ticks: seq<Tick>): Backlog {
    if ticks == [] then EMPTY else AfterTick(AfterTicks(p, ticks[..|ticks| - 1]), p, ticks[|ticks| - 1])
  }

  /** The item reconciled in cycle `k`. */
  function TakenAt(p: Policy, ticks: seq<Tick>, k: nat): Option<Item>
    requires k < |ticks|
  {
    Taken(AfterTicks(p, ticks[..k]), p, ticks[k])
  }

  function RunReport(p: Policy, ticks: seq<Tick>, cases: Cases): seq<Conflict> {
    if ticks == [] then []
    else
      var rest, last := ticks[..|ticks| - 1], ticks[|ticks| - 1];
      RunReport(p, rest, cases) + TickReport(AfterTicks(p, rest), p, last, cases)
  }

  method Run(detector: Detector, p: Policy, ticks: seq<Tick>) returns (report: seq<Conflict>)
    modifies detector`byHost
    ensures report == RunReport(p, ticks, detector.cases)
  {
    var queue := new Queue();
    report := [];
    for i := 0 to |ticks|
      invariant queue.Valid() && queue.Value() == AfterTicks(p, ticks[..i])
      invariant report == RunReport(p, ticks[..i], detector.cases)
    {
      assert ticks[..i + 1][..i] == ticks[..i];
      var ols := Cycle(queue, detector, p, ticks[i]);
      report := report + ols;
    }
    assert ticks[..|ticks|] == ticks;
  }

  /** What a run has reported stays, and later cycles add to it. */
  lemma {:induction false} ReportGrows(p: Policy, ticks: seq<Tick>, k: nat, cases: Cases)
    requires k <= |ticks|
    ensures RunReport(p, ticks[..k], cases) <= RunReport(p, ticks, cases)
  {
    if k == |ticks| {
      assert ticks[..k] == ticks;
    } else {
      var rest := ticks[..|ticks| - 1];
      ReportGrows(p, rest, k, cases);
      assert rest[..k] == ticks[..k];
    }
  }

  // ----- What a run reports -----

  /** The route behind a reference reaches the detector and registers `e`. */
  function Supplies(lookup: RouteRef -> Option<HTTPRoute>, e: Entry): RouteRef -> bool {
    ref => lookup(ref).Some? && e in EntriesOf(lookup(ref).value)
  }

  /** An earlier member registers `x` and a later one `y`. */
  ghost predicate Together(refs: seq<RouteRef>, lookup: RouteRef -> Option<HTTPRoute>, x: Entry, y: Entry) {
    OrderedPair(refs, Supplies(lookup, x), Supplies(lookup, y))
  }

  lemma {:induction false} FetchedRegisters(refs: seq<RouteRef>, lookup: RouteRef -> Option<HTTPRoute>, e: Entry)
    ensures Registers(Fetched(refs, lookup), e) <==> AnyOf(refs, Supplies(lookup, e))
  {
    if refs != [] {
      var rest, last := refs[..|refs| - 1], refs[|refs| - 1];
      assert refs == rest + [last];
      FetchedRegisters(rest, lookup, e);
      AnyOfLast(rest, last, Supplies(lookup, e));
      if lookup(last).Some? {
        var routes := Fetched(rest, lookup);
        assert (routes + [lookup(last).value])[..|routes|] == routes;
        RegistersLast(routes + [lookup(last).value], e);
      }
    }
  }

  lemma {:induction false} FetchedInOrder(refs: seq<RouteRef>, lookup: RouteRef -> Option<HTTPRoute>, x: Entry, y: Entry)
    ensures InOrder(Fetched(refs, lookup), x, y) <==> Together(refs, lookup, x, y)
  {
    if refs != [] {
      var rest, last := refs[..|refs| - 1], refs[|refs| - 1];
      assert refs == rest + [last];
      FetchedInOrder(rest, lookup, x, y);
      FetchedRegisters(rest, lookup, x);
      OrderedPairLast(rest, last, Supplies(lookup, x), Supplies(lookup, y));
      if lookup(last).Some? {
        var routes := Fetched(rest, lookup);
        assert (routes + [lookup(last).value])[..|routes|] == routes;
      }
    }
  }

  /** Cycle `k` reconciles a batch in which an earlier member registers the existing entry and a later one the
      incoming one, and the two conflict on one host. */
  ghost predicate ReportedAt(p: Policy, ticks: seq<Tick>, k: nat, cases: Cases, c: Conflict)
    requires k < |ticks|
  {
    match TakenAt(p, ticks, k)
    case Some(Batch(group)) =>
      && Together(group.members, ticks[k].lookup, c.existing, c.incoming)
      && c.existing.hostname == c.incoming.hostname && Conflicting(c.existing, c.incoming, cases)
    case _ => false
  }

  lemma ItemReports(item: Item, lookup: RouteRef -> Option<HTTPRoute>, cases: Cases, c: Conflict)
    ensures c in ItemReport(Some(item), lookup, cases) <==>
      && Together(MembersOf(item), lookup, c.existing, c.incoming)
      && c.existing.hostname == c.incoming.hostname && Conflicting(c.existing, c.incoming, cases)
  {
    CheckedReports(Fetched(MembersOf(item), lookup), cases, c);
    FetchedInOrder(MembersOf(item), lookup, c.existing, c.incoming);
  }

  lemma LastTickReports(p: Policy, ticks: seq<Tick>, cases: Cases, c: Conflict)
    requires ticks != []
    ensures c in TickReport(AfterTicks(p, ticks[..|ticks| - 1]), p, ticks[|ticks| - 1], cases) <==>
      ReportedAt(p, ticks, |ticks| - 1, cases, c)
  {
    var taken := TakenAt(p, ticks, |ticks| - 1);
    if taken.Some? {
      ItemReports(taken.value, ticks[|ticks| - 1].lookup, cases, c);
    }
  }

  lemma EarlierTick(p: Policy, ticks: seq<Tick>, k: nat, cases: Cases, c: Conflict)
    requires k < |ticks| - 1
    ensures ReportedAt(p, ticks, k, cases, c) <==> ReportedAt(p, ticks[..|ticks| - 1], k, cases, c)
  {
    assert ticks[..k] == ticks[..|ticks| - 1][..k];
  }

  ghost predicate EverReported(p: Policy, ticks: seq<Tick>, cases: Cases, c: Conflict) {
    exists k :: 0 <= k < |ticks| && ReportedAt(p, ticks, k, cases, c)
  }

  lemma EverReportedLast(p: Policy, ticks: seq<Tick>, cases: Cases, c: Conflict)
    requires ticks != []
    ensures EverReported(p, ticks, cases, c) <==>
      EverReported(p, ticks[..|ticks| - 1], cases, c) || ReportedAt(p, ticks, |ticks| - 1, cases, c)
  {
    var rest := ticks[..|ticks| - 1];
    if k :| 0 <= k < |rest| && ReportedAt(p, rest, k, cases, c) {
      EarlierTick(p, ticks, k, cases, c);
    }
    if k :| 0 <= k < |ticks| && ReportedAt(p, ticks, k, cases, c) {
      if k < |rest| {
        EarlierTick(p, ticks, k, cases, c);
      }
    }
  }

  /** A run reports a pair of entries exactly when one cycle reconciles both routes as members of one batch, the
      earlier as the existing one, and they conflict on one host. */
  lemma {:induction false} RunReports(p: Policy, ticks: seq<Tick>, cases: Cases, c: Conflict)
    ensures c in RunReport(p, ticks, cases) <==> EverReported(p, ticks, cases, c)
  {
    if ticks != [] {
      RunReports(p, ticks[..|ticks| - 1], cases, c);
      LastTickReports(p, ticks, cases, c);
      EverReportedLast(p, ticks, cases, c);
    }
  }

  // ----- Only routes listed under one batch name are ever compared -----

  /** The route was listed in one of the cycles under this batch name. */
  ghost predicate ListedUnder(ticks: seq<Tick>, ref: RouteRef, name: string) {
    exists k, l :: 0 <= k < |ticks| && l in ticks[k].listed && l.ref == ref && l.annotations.batch == Some(name)
  }

  ghost predicate ListedIn(listed: seq<Listing>, ref: RouteRef, name: string) {
    exists l :: l in listed && l.ref == ref && l.annotations.batch == Some(name)
  }

  /** Every member of a waiting batch was listed under its name, in `listed` or in `ticks`. */
  ghost predicate Accounted(q: Backlog, ticks: seq<Tick>, listed: seq<Listing>) {
    forall i, m :: 0 <= i < |q.items| && q.items[i].Batch? && m in q.items[i].group.members ==>
      ListedUnder(ticks, m, q.items[i].group.name) || ListedIn(listed, m, q.items[i].group.name)
  }

  lemma ObservedAccounted(q: Backlog, ticks: seq<Tick>, listed: seq<Listing>, l: Listing)
    requires Accounted(q, ticks, listed)
    ensures Accounted(Observed(q, l), ticks, listed + [l])
  {
    var q' := Observed(q, l);
    forall i, m | 0 <= i < |q'.items| && q'.items[i].Batch? && m in q'.items[i].group.members
      ensures ListedUnder(ticks, m, q'.items[i].group.name) || ListedIn(listed + [l], m, q'.items[i].group.name)
    {
      var name := q'.items[i].group.name;
      if i < |q.items| && m in MembersOf(q.items[i]) && q.items[i].Batch? && q.items[i].group.name == name {
        if x :| x in listed && x.ref == m && x.annotations.batch == Some(name) {
          assert x in listed + [l];
        }
      } else {
        assert l in listed + [l] && l.ref == m && l.annotations.batch == Some(name);
      }
    }
  }

  lemma {:induction false} ObservedAllAccounted(q: Backlog, ticks: seq<Tick>, listed: seq<Listing>)
    requires Accounted(q, ticks, [])
    ensures Accounted(ObservedAll(q, listed), ticks, listed)
  {
    if listed != [] {
      var rest, last := listed[..|listed| - 1], listed[|listed| - 1];
      ObservedAllAccounted(q, ticks, rest);
      ObservedAccounted(ObservedAll(q, rest), ticks, rest, last);
      assert listed == rest + [last];
    }
  }

  lemma ListedUnderExtends(ticks: seq<Tick>, tick: Tick, ref: RouteRef, name: string)
    ensures ListedUnder(ticks, ref, name) || ListedIn(tick.listed, ref, name) ==> ListedUnder(ticks + [tick], ref, name)
  {
    var all := ticks + [tick];
    if k, l :| 0 <= k < |ticks| && l in ticks[k].listed && l.ref == ref && l.annotations.batch == Some(name) {
      assert l in all[k].listed;
    }
    if l :| l in tick.listed && l.ref == ref && l.annotations.batch == Some(name) {
      assert l in all[|ticks|].listed;
    }
  }

  lemma {:induction false} AfterTicksAccounted(p: Policy, ticks: seq<Tick>)
    ensures Accounted(AfterTicks(p, ticks), ticks, [])
  {
    if ticks != [] {
      var rest, last := ticks[..|ticks| - 1], ticks[|ticks| - 1];
      AfterTicksAccounted(p, rest);
      ObservedAllAccounted(AfterTicks(p, rest), rest, last.listed);
      assert ticks == rest + [last];
      var q, q' := ObservedAll(AfterTicks(p, rest), last.listed), AfterTicks(p, ticks);
      forall i, m | 0 <= i < |q'.items| && q'.items[i].Batch? && m in q'.items[i].group.members
        ensures ListedUnder(ticks, m, q'.items[i].group.name)
      {
        assert q'.items[i] == q.items[if q' == q then i else i + 1];
        ListedUnderExtends(rest, last, m, q'.items[i].group.name);
      }
    }
  }

  /** A fetched route is the one the reference names. */
  ghost predicate Faithful(ticks: seq<Tick>) {
    forall k, ref :: 0 <= k < |ticks| && ticks[k].lookup(ref).Some? ==>
      ticks[k].lookup(ref).value.namespace == ref.namespace && ticks[k].lookup(ref).value.name == ref.name
  }

  /** The source was listed under this batch name. */
  ghost predicate SourceListed(ticks: seq<Tick>, source: string, name: string) {
    exists ref: RouteRef :: SourceOf(ref.namespace, ref.name) == source && ListedUnder(ticks, ref, name)
  }

  lemma MemberListed(p: Policy, ticks: seq<Tick>, k: nat, group: Group, m: RouteRef)
    requires k < |ticks| && TakenAt(p, ticks, k) == Some(Batch(group)) && m in group.members
    ensures ListedUnder(ticks, m, group.name)
  {
    var before, tick := ticks[..k], ticks[k];
    AfterTicksAccounted(p, before);
    ObservedAllAccounted(AfterTicks(p, before), before, tick.listed);
    var q := ObservedAll(AfterTicks(p, before), tick.listed);
    assert q.items[0] == Batch(group);
    ListedUnderExtends(before, tick, m, group.name);
    if j, l :| 0 <= j < |before + [tick]| && l in (before + [tick])[j].listed && l.ref == m && l.annotations.batch == Some(group.name) {
      assert (before + [tick])[j] == ticks[j];
    }
  }

  /** In every run, two routes are reported against each other only if both were listed under one batch name. */
  lemma ReportedOnlyWithinBatch(p: Policy, ticks: seq<Tick>, cases: Cases, c: Conflict)
    requires Faithful(ticks) && c in RunReport(p, ticks, cases)
    ensures exists name :: SourceListed(ticks, c.existing.source, name) && SourceListed(ticks, c.incoming.source, name)
  {
    RunReports(p, ticks, cases, c);
    var k :| 0 <= k < |ticks| && ReportedAt(p, ticks, k, cases, c);
    var group, lookup := TakenAt(p, ticks, k).value.group, ticks[k].lookup;
    var f, g := Supplies(lookup, c.existing), Supplies(lookup, c.incoming);
    var i, j :| 0 <= i < j < |group.members| && f(group.members[i]) && g(group.members[j]);
    EntriesShareSource(lookup(group.members[i]).value);
    EntriesShareSource(lookup(group.members[j]).value);
    MemberListed(p, ticks, k, group, group.members[i]);
    MemberListed(p, ticks, k, group, group.members[j]);
    assert SourceListed(ticks, c.existing.source, group.name) && SourceListed(ticks, c.incoming.source, group.name);
  }

  // ----- Routes listed under the name of the reconciled batch are compared -----

  lemma FirstBatch(items: seq<Item>, name: string, k: nat)
    requires k <= |items| && (k < |items| ==> IsBatch(items[k], name)) && forall j :: 0 <= j < k ==> !IsBatch(items[j], name)
    ensures IndexOfBatch(items, name, 0) == k
  {
  }

  /** The first waiting batch of this name has the route as a member. */
  ghost predicate InBatch(q: Backlog, name: string, ref: RouteRef) {
    var k := IndexOfBatch(q.items, name, 0);
    k < |q.items| && HasMember(q.items[k].group.members, ref)
  }

  lemma JoinedHas(g: Group, l: Listing, ref: RouteRef)
    ensures HasMember(Joined(g, l).members, l.ref)
    ensures HasMember(g.members, ref) ==> HasMember(Joined(g, l).members, ref)
    ensures Joined(g, l).name == g.name
  {
    assert SameRoute(l.ref, l.ref) && l.ref in g.members + [l.ref];
    if m :| m in g.members && SameRoute(m, ref) {
      assert m in Joined(g, l).members;
    }
  }

  lemma ObservedHas(q: Backlog, l: Listing, name: string, ref: RouteRef)
    ensures InBatch(q, name, ref) ==> InBatch(Observed(q, l), name, ref)
    ensures l.annotations.batch == Some(name) ==> InBatch(Observed(q, l), name, l.ref)
  {
    var k, items := IndexOfBatch(q.items, name, 0), Observed(q, l).items;
    var own := match l.annotations.batch case None => "" case Some(n) => n;
    var g := Group(own, SizeOf(l.annotations), [], l.now);
    JoinedHas(g, l, ref);
    if k < |q.items| {
      JoinedHas(q.items[k].group, l, ref);
    }
    assert forall j :: 0 <= j < k ==> !IsBatch(items[j], name);
    if k < |items| && IsBatch(items[k], name) {
      FirstBatch(items, name, k);
    }
  }

  lemma {:induction false} ObservedAllHas(q: Backlog, listed: seq<Listing>, l: Listing, name: string)
    requires l in listed && l.annotations.batch == Some(name)
    ensures InBatch(ObservedAll(q, listed), name, l.ref)
  {
    var rest, last := listed[..|listed| - 1], listed[|listed| - 1];
    ObservedHas(ObservedAll(q, rest), last, name, l.ref);
    if l != last {
      assert listed == rest + [last];
      ObservedAllHas(q, rest, l, name);
    }
  }

  /** Every route that a cycle lists under the name of the batch it reconciles is a member of that batch. */
  lemma ListedIsMember(p: Policy, ticks: seq<Tick>, k: nat, group: Group, l: Listing)
    requires k < |ticks| && TakenAt(p, ticks, k) == Some(Batch(group))
    requires l in ticks[k].listed && l.annotations.batch == Some(group.name)
    ensures HasMember(group.members, l.ref)
  {
    var q := ObservedAll(AfterTicks(p, ticks[..k]), ticks[k].listed);
    ObservedAllHas(AfterTicks(p, ticks[..k]), ticks[k].listed, l, group.name);
    assert q.items[0] == Batch(group);
    FirstBatch(q.items, group.name, 0);
  }

  lemma ReportedInOrder(p: Policy, ticks: seq<Tick>, k: nat, cases: Cases, group: Group, i: nat, j: nat, c: Conflict)
    requires k < |ticks| && TakenAt(p, ticks, k) == Some(Batch(group)) && i < j < |group.members|
    requires Supplies(ticks[k].lookup, c.existing)(group.members[i])
    requires Supplies(ticks[k].lookup, c.incoming)(group.members[j])
    requires c.existing.hostname == c.incoming.hostname && Conflicting(c.existing, c.incoming, cases)
    ensures c in RunReport(p, ticks, cases)
  {
    var f, g := Supplies(ticks[k].lookup, c.existing), Supplies(ticks[k].lookup, c.incoming);
    assert f(group.members[i]) && g(group.members[j]);
    assert ReportedAt(p, ticks, k, cases, c);
    RunReports(p, ticks, cases, c);
  }

  /** Two members of a reconciled batch that are fetched and conflict on one host are reported against each other. */
  lemma MembersReported(p: Policy, ticks: seq<Tick>, k: nat, cases: Cases, group: Group, a: RouteRef, b: RouteRef,
                        x: Entry, y: Entry)
    requires k < |ticks| && TakenAt(p, ticks, k) == Some(Batch(group)) && a in group.members && b in group.members
    requires Supplies(ticks[k].lookup, x)(a) && Supplies(ticks[k].lookup, y)(b)
    requires x.hostname == y.hostname && Conflicting(x, y, cases)
    ensures InConflict(RunReport(p, ticks, cases), x, y)
  {
    var i :| 0 <= i < |group.members| && group.members[i] == a;
    var j :| 0 <= j < |group.members| && group.members[j] == b;
    OverlapSymmetric(x, y, cases);
    EntriesShareSource(ticks[k].lookup(a).value);
    EntriesShareSource(ticks[k].lookup(b).value);
    assert i != j;
    if i < j {
      ReportedInOrder(p, ticks, k, cases, group, i, j, Conflict(y, x));
    } else {
      ReportedInOrder(p, ticks, k, cases, group, j, i, Conflict(x, y));
    }
  }

  /** No HTTPRoute and SuperHTTPRoute listed under a batch have the same namespace and name. */
  ghost predicate NoNamesakes(ticks: seq<Tick>) {
    forall a, b, name, name' :: ListedUnder(ticks, a, name) && ListedUnder(ticks, b, name') && SameRoute(a, b) ==> a == b
  }

  /** In every run, two routes that a cycle lists under the name of the batch it reconciles, that are fetched and
      conflict on one host, are reported against each other, in one order or the other. */
  lemma ListedTogetherReported(p: Policy, ticks: seq<Tick>, k: nat, cases: Cases, group: Group, l: Listing, l': Listing,
                               x: Entry, y: Entry)
    requires k < |ticks| && TakenAt(p, ticks, k) == Some(Batch(group)) && NoNamesakes(ticks)
    requires l in ticks[k].listed && l.annotations.batch == Some(group.name)
    requires l' in ticks[k].listed && l'.annotations.batch == Some(group.name)
    requires Supplies(ticks[k].lookup, x)(l.ref) && Supplies(ticks[k].lookup, y)(l'.ref)
    requires x.hostname == y.hostname && Conflicting(x, y, cases)
    ensures InConflict(RunReport(p, ticks, cases), x, y)
  {
    ListedJoins(p, ticks, k, group, l);
    ListedJoins(p, ticks, k, group, l');
    MembersReported(p, ticks, k, cases, group, l.ref, l'.ref, x, y);
  }

  lemma ListedJoins(p: Policy, ticks: seq<Tick>, k: nat, group: Group, l: Listing)
    requires k < |ticks| && TakenAt(p, ticks, k) == Some(Batch(group)) && NoNamesakes(ticks)
    requires l in ticks[k].listed && l.annotations.batch == Some(group.name)
    ensures l.ref in group.members
  {
    ListedIsMember(p, ticks, k, group, l);
    var m :| m in group.members && SameRoute(m, l.ref);
    MemberListed(p, ticks, k, group, m);
    assert ListedUnder(ticks, l.ref, group.name);
  }

  // ----- Without batch annotations -----

  ghost predicate NoBatches(ticks: seq<Tick>) {
    forall k, l :: 0 <= k < |ticks| && l in ticks[k].listed ==> l.annotations.batch == None
  }

  /** Without batch annotations no run ever reports anything. */
  lemma UnbatchedNeverReported(p: Policy, ticks: seq<Tick>, cases: Cases)
    requires NoBatches(ticks)
    ensures RunReport(p, ticks, cases) == []
  {
    var report := RunReport(p, ticks, cases);
    if report != [] {
      var c := report[0];
      RunReports(p, ticks, cases, c);
      var k :| 0 <= k < |ticks| && ReportedAt(p, ticks, k, cases, c);
      var group := TakenAt(p, ticks, k).value.group;
      var f, g := Supplies(ticks[k].lookup, c.existing), Supplies(ticks[k].lookup, c.incoming);
      var i, j :| 0 <= i < j < |group.members| && f(group.members[i]) && g(group.members[j]);
      MemberListed(p, ticks, k, group, group.members[i]);
    }
  }

  /** Two routes for the same host and path, without batch annotations. */
  const FIRST := HTTPRoute("a", "default", ["a.com"], [[Match("PathPrefix", "/api", "", [])]])
  const SECOND := HTTPRoute("b", "default", ["a.com"], [[Match("PathPrefix", "/api", "", [])]])

  lemma OneEntry(m: Match, host: string, route: HTTPRoute)
    requires m.pathType != "RegularExpression" && route.hostnames == [host] && route.rules == [[m]]
    ensures EntriesOf(route) ==
      [Entry(m.pathValue, m.pathType, host, m.headers, m.verb, route.namespace + "/" + route.name)]
  {
    var source := SourceOf(route.namespace, route.name);
    assert [host][..0] == [] && [m][..0] == [] && [[m]][..0] == [];
    assert MatchEntries(m, [host], source) == [EntryOf(m, host, source)];
    assert RuleEntries([m], [host], source) == [EntryOf(m, host, source)];
    assert RulesEntries([[m]], [host], source) == RuleEntries(MatchesOf([m]), [host], source);
  }

  /** The overlap that the detector exists for goes unreported: the two routes conflict, and no run that lists
      them without batch annotations, however long, reports it. */
  lemma SinglesUnreported(p: Policy, ticks: seq<Tick>, cases: Cases)
    requires NoBatches(ticks)
    ensures exists x, y ::
      x in EntriesOf(FIRST) && y in EntriesOf(SECOND) && x.hostname == y.hostname && Conflicting(x, y, cases)
    ensures RunReport(p, ticks, cases) == []
  {
    var m := Match("PathPrefix", "/api", "", []);
    OneEntry(m, "a.com", FIRST);
    OneEntry(m, "a.com", SECOND);
    var x, y := EntriesOf(FIRST)[0], EntriesOf(SECOND)[0];
    assert x.source == "default/a" && y.source == "default/b";
    assert x.source[8] != y.source[8];
    assert Conflicting(x, y, cases);
    UnbatchedNeverReported(p, ticks, cases);
  }

  // ----- A single route is reconciled once -----

  /** Waiting single routes have distinct keys, all known. */
  ghost predicate Distinct(q: Backlog) {
    && (forall i :: 0 <= i < |q.items| && q.items[i].Single? ==> KeyOf(q.items[i].ref) in q.known)
    && (forall i, j :: 0 <= i < j < |q.items| && q.items[i].Single? && q.items[j].Single? ==>
          KeyOf(q.items[i].ref) != KeyOf(q.items[j].ref))
  }

  /** No waiting single route has this known key, and none will. */
  ghost predicate Gone(q: Backlog, key: string) {
    key in q.known && forall i :: 0 <= i < |q.items| && q.items[i].Single? ==> KeyOf(q.items[i].ref) != key
  }

  lemma {:induction false} ObservedAllKeeps(q: Backlog, listed: seq<Listing>, key: string)
    requires Distinct(q)
    ensures Distinct(ObservedAll(q, listed))
    ensures Gone(q, key) ==> Gone(ObservedAll(q, listed), key)
  {
    if listed != [] {
      ObservedAllKeeps(q, listed[..|listed| - 1], key);
    }
  }

  lemma TickKeeps(q: Backlog, p: Policy, tick: Tick, key: string)
    requires Distinct(q)
    ensures Distinct(AfterTick(q, p, tick))
    ensures Gone(q, key) ==> Gone(AfterTick(q, p, tick), key)
    ensures match Taken(q, p, tick)
      case Some(Single(ref)) => (Gone(q, key) ==> KeyOf(ref) != key) && Gone(AfterTick(q, p, tick), KeyOf(ref))
      case _ => true
  {
    ObservedAllKeeps(q, tick.listed, key);
  }

  lemma {:induction false} AfterTicksDistinct(p: Policy, ticks: seq<Tick>)
    ensures Distinct(AfterTicks(p, ticks))
  {
    if ticks != [] {
      AfterTicksDistinct(p, ticks[..|ticks| - 1]);
      TickKeeps(AfterTicks(p, ticks[..|ticks| - 1]), p, ticks[|ticks| - 1], "");
    }
  }

  lemma {:induction false} StaysGone(p: Policy, ticks: seq<Tick>, i: nat, j: nat, key: string)
    requires i <= j <= |ticks| && Gone(AfterTicks(p, ticks[..i]), key)
    ensures Gone(AfterTicks(p, ticks[..j]), key)
    decreases j - i
  {
    if i < j {
      StaysGone(p, ticks, i, j - 1, key);
      AfterTicksDistinct(p, ticks[..j - 1]);
      TickKeeps(AfterTicks(p, ticks[..j - 1]), p, ticks[j - 1], key);
      assert ticks[..j][..j - 1] == ticks[..j - 1];
    }
  }

  /** In every run the single routes reconciled in different cycles have different keys: once taken, a route without
      a batch annotation is never reconciled again, however often it is listed or changed. */
  lemma SinglesOnce(p: Policy, ticks: seq<Tick>, i: nat, j: nat, a: RouteRef, b: RouteRef)
    requires i < j < |ticks| && TakenAt(p, ticks, i) == Some(Single(a)) && TakenAt(p, ticks, j) == Some(Single(b))
    ensures KeyOf(a) != KeyOf(b)
  {
    AfterTicksDistinct(p, ticks[..i]);
    TickKeeps(AfterTicks(p, ticks[..i]), p, ticks[i], "");
    assert ticks[..i + 1][..i] == ticks[..i];
    StaysGone(p, ticks, i + 1, j, KeyOf(a));
    AfterTicksDistinct(p, ticks[..j]);
    TickKeeps(AfterTicks(p, ticks[..j]), p, ticks[j], KeyOf(a));
  }

  // ----- What a waiting batch has gathered, in terms of the listings -----

  /** Position `i` is the first listing of its route. */
  predicate FirstListed(ls: seq<Listing>, i: nat) {
    && i < |ls|
    && forall j :: 0 <= j < i ==> ls[j].ref.namespace != ls[i].ref.namespace || ls[j].ref.name != ls[i].ref.name
  }

  /** The size that a listing gives: zero without a size annotation or with one that is not a number. */
  function GivenSize(l: Listing): nat {
    if l.annotations.size.Some? && Number(l.annotations.size.value).Some? then Number(l.annotations.size.value).value else 0
  }

  /** The first non-zero size among the listings, or zero. */
  ghost predicate HasSize(ls: seq<Listing>, n: nat) {
    if n == 0 then forall i :: 0 <= i < |ls| ==> GivenSize(ls[i]) == 0
    else exists i :: 0 <= i < |ls| && GivenSize(ls[i]) == n && forall j :: 0 <= j < i ==> GivenSize(ls[j]) == 0
  }

  /** `at` holds the positions of the first listings, in order; their routes are the members, and the last of them
      gave the time. */
  ghost predicate GatheredAt(g: Group, ls: seq<Listing>, at: seq<nat>) {
    && at != [] && |g.members| == |at|
    && (forall i, j :: 0 <= i < j < |at| ==> at[i] < at[j])
    && (forall j :: 0 <= j < |at| ==> FirstListed(ls, at[j]) && g.members[j] == ls[at[j]].ref)
    && (forall i: nat :: FirstListed(ls, i) ==> i in at)
    && FirstListed(ls, at[|at| - 1]) && g.lastSeen == ls[at[|at| - 1]].now
  }

  /** The group is what these listings make: a member for each route in the order of first listing, the time of the
      latest new member, and the first size given. */
  ghost predicate Gathers(g: Group, ls: seq<Listing>) {
    HasSize(ls, g.expected) && HasMembers(g, ls)
  }

  ghost predicate HasMembers(g: Group, ls: seq<Listing>) {
    exists at: seq<nat> :: GatheredAt(g, ls, at)
  }

  lemma SizeNext(ls: seq<Listing>, l: Listing, n: nat)
    requires HasSize(ls, n)
    ensures HasSize(ls + [l], if n == 0 then SizeOf(l.annotations) else n)
  {
    var all := ls + [l];
    if n == 0 {
      assert GivenSize(all[|ls|]) == SizeOf(l.annotations);
    } else {
      var i :| 0 <= i < |ls| && GivenSize(ls[i]) == n && forall j :: 0 <= j < i ==> GivenSize(ls[j]) == 0;
      assert GivenSize(all[i]) == n;
    }
  }

  lemma FirstOf(ls: seq<Listing>, ref: RouteRef, j: nat) returns (i: nat)
    requires j < |ls| && SameRoute(ls[j].ref, ref)
    ensures FirstListed(ls, i) && SameRoute(ls[i].ref, ref)
  {
    i := 0;
    while !SameRoute(ls[i].ref, ref)
      invariant i <= j && forall h :: 0 <= h < i ==> !SameRoute(ls[h].ref, ref)
      decreases j - i
    {
      i := i + 1;
    }
  }

  /** A route is a member exactly if one of the listings is of it. */
  lemma MemberIffListed(g: Group, ls: seq<Listing>, at: seq<nat>, ref: RouteRef)
    requires GatheredAt(g, ls, at)
    ensures HasMember(g.members, ref) <==> exists j :: 0 <= j < |ls| && SameRoute(ls[j].ref, ref)
  {
    if m :| m in g.members && SameRoute(m, ref) {
      var j :| 0 <= j < |g.members| && g.members[j] == m;
      assert FirstListed(ls, at[j]) && SameRoute(ls[at[j]].ref, ref);
    }
    if j :| 0 <= j < |ls| && SameRoute(ls[j].ref, ref) {
      var i := FirstOf(ls, ref, j);
      assert i in at;
      var h :| 0 <= h < |at| && at[h] == i;
      assert g.members[h] in g.members;
    }
  }

  lemma FirstListedEarlier(ls: seq<Listing>, l: Listing, i: nat)
    requires i < |ls|
    ensures FirstListed(ls + [l], i) <==> FirstListed(ls, i)
  {
    var all := ls + [l];
    assert forall j :: 0 <= j <= i ==> all[j] == ls[j];
  }

  lemma FirstListedLast(g: Group, ls: seq<Listing>, at: seq<nat>, l: Listing)
    requires GatheredAt(g, ls, at)
    ensures FirstListed(ls + [l], |ls|) <==> !HasMember(g.members, l.ref)
  {
    var all := ls + [l];
    MemberIffListed(g, ls, at, l.ref);
    assert forall j :: 0 <= j < |ls| ==> all[j] == ls[j];
    if j :| 0 <= j < |ls| && SameRoute(ls[j].ref, l.ref) {
      assert SameRoute(all[j].ref, all[|ls|].ref);
    }
    if !FirstListed(all, |ls|) {
      var j :| 0 <= j < |ls| && SameRoute(all[j].ref, all[|ls|].ref);
      assert SameRoute(ls[j].ref, l.ref);
    }
  }

  /** The same members after a listing of a route that is one. */
  lemma GatheredAgain(g: Group, ls: seq<Listing>, at: seq<nat>, l: Listing)
    requires GatheredAt(g, ls, at) && HasMember(g.members, l.ref)
    ensures GatheredAt(g, ls + [l], at)
  {
    var all := ls + [l];
    FirstListedLast(g, ls, at, l);
    forall i: nat | i < |ls| ensures FirstListed(all, i) <==> FirstListed(ls, i) {
      FirstListedEarlier(ls, l, i);
    }
    forall j | 0 <= j < |at| ensures FirstListed(all, at[j]) && g.members[j] == all[at[j]].ref {
      assert FirstListed(ls, at[j]);
    }
  }

  /** One more member after a listing of a new route. */
  lemma GatheredMore(g: Group, ls: seq<Listing>, at: seq<nat>, l: Listing)
    requires GatheredAt(g, ls, at) && !HasMember(g.members, l.ref)
    ensures GatheredAt(g.(members := g.members + [l.ref], lastSeen := l.now), ls + [l], at + [|ls|])
  {
    var all, at' := ls + [l], at + [|ls|];
    var g' := g.(members := g.members + [l.ref], lastSeen := l.now);
    FirstListedLast(g, ls, at, l);
    forall i: nat | i < |ls| ensures FirstListed(all, i) <==> FirstListed(ls, i) {
      FirstListedEarlier(ls, l, i);
    }
    forall j | 0 <= j < |at'| ensures FirstListed(all, at'[j]) && g'.members[j] == all[at'[j]].ref {
      assert j < |at| ==> FirstListed(ls, at[j]) && g.members[j] == ls[at[j]].ref;
    }
    forall i, j | 0 <= i < j < |at'| ensures at'[i] < at'[j] {
      assert FirstListed(ls, at[i]);
    }
    forall i: nat | FirstListed(all, i) ensures i in at' {
      assert i < |ls| ==> i in at;
      assert at'[|at|] == |ls|;
    }
  }

  lemma GatheredAnySize(g: Group, n: nat, ls: seq<Listing>, at: seq<nat>)
    requires GatheredAt(g, ls, at)
    ensures GatheredAt(g.(expected := n), ls, at)
  {
    var g' := g.(expected := n);
    forall j | 0 <= j < |at| ensures FirstListed(ls, at[j]) && g'.members[j] == ls[at[j]].ref {
      assert g.members[j] == ls[at[j]].ref;
    }
  }

  lemma JoinedIs(g: Group, l: Listing)
    ensures var n := if g.expected == 0 then SizeOf(l.annotations) else g.expected;
      Joined(g, l) ==
        if HasMember(g.members, l.ref) then g.(expected := n)
        else g.(members := g.members + [l.ref], lastSeen := l.now).(expected := n)
  {
  }

  lemma GatheredJoined(g: Group, ls: seq<Listing>, at: seq<nat>, l: Listing) returns (at': seq<nat>)
    requires GatheredAt(g, ls, at)
    ensures GatheredAt(Joined(g, l), ls + [l], at')
  {
    var n := if g.expected == 0 then SizeOf(l.annotations) else g.expected;
    JoinedIs(g, l);
    if HasMember(g.members, l.ref) {
      at' := at;
      GatheredAgain(g, ls, at, l);
      GatheredAnySize(g, n, ls + [l], at);
    } else {
      at' := at + [|ls|];
      GatheredMore(g, ls, at, l);
      GatheredAnySize(g.(members := g.members + [l.ref], lastSeen := l.now), n, ls + [l], at + [|ls|]);
    }
  }

  lemma GathersNext(g: Group, ls: seq<Listing>, l: Listing)
    requires Gathers(g, ls)
    ensures Gathers(Joined(g, l), ls + [l])
  {
    MembersNext(g, ls, l);
    SizeNext(ls, l, g.expected);
    JoinedIs(g, l);
  }

  lemma MembersNext(g: Group, ls: seq<Listing>, l: Listing)
    requires HasMembers(g, ls)
    ensures HasMembers(Joined(g, l), ls + [l])
  {
    var at: seq<nat> :| GatheredAt(g, ls, at);
    var at' := GatheredJoined(g, ls, at, l);
  }

  lemma GathersFirst(name: string, l: Listing)
    ensures Gathers(Joined(Group(name, SizeOf(l.annotations), [], l.now), l), [l])
  {
    var g := Joined(Group(name, SizeOf(l.annotations), [], l.now), l);
    assert g == Group(name, SizeOf(l.annotations), [l.ref], l.now);
    assert FirstListed([l], 0);
    assert GatheredAt(g, [l], [0]);
    assert GivenSize([l][0]) == g.expected;
  }

  /** The listings under this name, in order. */
  function Under(listed: seq<Listing>, name: string): seq<Listing> {
    if listed == [] then []
    else
      var l := listed[|listed| - 1];
      Under(listed[..|listed| - 1], name) + if l.annotations.batch == Some(name) then [l] else []
  }

  /** At most one batch of this name waits, none if nothing was listed under it, and it is what the listings make. */
  ghost predicate Waits(q: Backlog, name: string, ls: seq<Listing>) {
    var k := IndexOfBatch(q.items, name, 0);
    && (if ls == [] then k == |q.items| else k < |q.items| && Gathers(q.items[k].group, ls))
    && forall j :: k < j < |q.items| ==> !IsBatch(q.items[j], name)
  }

  lemma OwnListingWaits(q: Backlog, l: Listing, name: string, ls: seq<Listing>)
    requires Waits(q, name, ls) && l.annotations.batch == Some(name)
    ensures Waits(Observed(q, l), name, ls + [l])
  {
    var k, items := IndexOfBatch(q.items, name, 0), Observed(q, l).items;
    var g := if k < |q.items| then q.items[k].group else Group(name, SizeOf(l.annotations), [], l.now);
    assert items[k] == Batch(Joined(g, l));
    JoinedHas(g, l, l.ref);
    FirstBatch(items, name, k);
    if k < |q.items| {
      GathersNext(g, ls, l);
    } else {
      GathersFirst(name, l);
      assert ls + [l] == [l];
    }
  }

  /** A listing that is not under this name leaves the place and the contents of its batch. */
  lemma OtherListingLeaves(q: Backlog, l: Listing, name: string)
    requires l.annotations.batch != Some(name)
    ensures var items := Observed(q, l).items;
      && |q.items| <= |items| && (|items| > |q.items| ==> !IsBatch(items[|items| - 1], name))
      && forall i :: 0 <= i < |q.items| ==>
           (IsBatch(items[i], name) <==> IsBatch(q.items[i], name)) && (IsBatch(items[i], name) ==> items[i] == q.items[i])
  {
    if l.annotations.batch.Some? {
      var k := IndexOfBatch(q.items, l.annotations.batch.value, 0);
      if k < |q.items| {
        JoinedHas(q.items[k].group, l, l.ref);
      }
    }
  }

  lemma OtherListingWaits(q: Backlog, l: Listing, name: string, ls: seq<Listing>)
    requires Waits(q, name, ls) && l.annotations.batch != Some(name)
    ensures Waits(Observed(q, l), name, ls)
  {
    var k, items := IndexOfBatch(q.items, name, 0), Observed(q, l).items;
    OtherListingLeaves(q, l, name);
    assert |items| <= |q.items| + 1;
    FirstBatch(items, name, if k < |q.items| then k else |items|);
  }

  lemma ObservedWaits(q: Backlog, l: Listing, name: string, ls: seq<Listing>)
    requires Waits(q, name, ls)
    ensures Waits(Observed(q, l), name, ls + if l.annotations.batch == Some(name) then [l] else [])
  {
    if l.annotations.batch == Some(name) {
      OwnListingWaits(q, l, name, ls);
    } else {
      OtherListingWaits(q, l, name, ls);
      assert ls + [] == ls;
    }
  }

  lemma {:induction false} ObservedAllWaits(q: Backlog, listed: seq<Listing>, name: string, ls: seq<Listing>)
    requires Waits(q, name, ls)
    ensures Waits(ObservedAll(q, listed), name, ls + Under(listed, name))
  {
    if listed == [] {
      assert ls + [] == ls;
    } else {
      var rest, l := listed[..|listed| - 1], listed[|listed| - 1];
      ObservedAllWaits(q, rest, name, ls);
      ObservedWaits(ObservedAll(q, rest), l, name, ls + Under(rest, name));
      Associative(ls, Under(rest, name), if l.annotations.batch == Some(name) then [l] else []);
    }
  }

  /** A batch of this name is at the head and leaves, being complete or idle for the timeout: also one that is then
      rejected for being too few. */
  predicate HeadLeaves(q: Backlog, p: Policy, now: int, name: string) {
    && q.items != [] && IsBatch(q.items[0], name)
    && var g := q.items[0].group;
       0 < g.expected <= |g.members| || now - g.lastSeen >= p.idleTimeout
  }

  lemma HeadWaits(q: Backlog, p: Policy, now: int, name: string, ls: seq<Listing>)
    requires Waits(q, name, ls)
    ensures Waits(AfterHead(q, p, now), name, if HeadLeaves(q, p, now, name) then [] else ls)
  {
    var k, q' := IndexOfBatch(q.items, name, 0), AfterHead(q, p, now);
    if q.items != [] && Leaves(q.items[0], p, now) {
      assert q'.items == q.items[1..];
      FirstBatch(q'.items, name, if k == 0 then |q'.items| else k - 1);
    }
  }

  /** The listings under this name since a batch of it last left the queue. */
  function Since(p: Policy, ticks: seq<Tick>, name: string): seq<Listing> {
    if ticks == [] then []
    else
      var rest, tick := ticks[..|ticks| - 1], ticks[|ticks| - 1];
      if HeadLeaves(ObservedAll(AfterTicks(p, rest), tick.listed), p, tick.now, name) then []
      else Since(p, rest, name) + Under(tick.listed, name)
  }

  /** In every run a batch waits exactly if something was listed under its name since one last left, and it is what
      those listings make: members, size and time. */
  lemma {:induction false} BatchGathers(p: Policy, ticks: seq<Tick>, name: string)
    ensures Waits(AfterTicks(p, ticks), name, Since(p, ticks, name))
  {
    if ticks != [] {
      var rest, tick := ticks[..|ticks| - 1], ticks[|ticks| - 1];
      BatchGathers(p, rest, name);
      var q, ls := ObservedAll(AfterTicks(p, rest), tick.listed), Since(p, rest, name) + Under(tick.listed, name);
      ObservedAllWaits(AfterTicks(p, rest), tick.listed, name, Since(p, rest, name));
      HeadWaits(q, p, tick.now, name, ls);
    }
  }

  /** Enough members for the size that was given, or idle for long enough and not to be rejected for being too few. */
  predicate Reconcilable(g: Group, p: Policy, now: int) {
    || 0 < g.expected <= |g.members|
    || (now - g.lastSeen >= p.idleTimeout && (g.expected <= |g.members| || !p.rejectIncomplete))
  }

  /** What a cycle reconciles: the head of the queue, if it is a single route, or a batch that its listings have made
      complete or that has seen no new route for the timeout. */
  lemma TakenIff(p: Policy, ticks: seq<Tick>, k: nat)
    requires k < |ticks|
    ensures var q := ObservedAll(AfterTicks(p, ticks[..k]), ticks[k].listed);
      TakenAt(p, ticks, k) ==
        if q.items != [] && (q.items[0].Single? || Reconcilable(q.items[0].group, p, ticks[k].now))
        then Some(q.items[0]) else None
    ensures var q := ObservedAll(AfterTicks(p, ticks[..k]), ticks[k].listed);
      q.items != [] && q.items[0].Batch? ==>
        var g := q.items[0].group;
        Gathers(g, Since(p, ticks[..k], g.name) + Under(ticks[k].listed, g.name))
  {
    var q := ObservedAll(AfterTicks(p, ticks[..k]), ticks[k].listed);
    if q.items != [] && q.items[0].Batch? {
      var name := q.items[0].group.name;
      BatchGathers(p, ticks[..k], name);
      ObservedAllWaits(AfterTicks(p, ticks[..k]), ticks[k].listed, name, Since(p, ticks[..k], name));
      FirstBatch(q.items, name, 0);
    }
  }

  // ----- The order of the queue -----

  /** The same single route, or a batch of the same name. */
  predicate SameItem(a: Item, b: Item) {
    if a.Single? then a == b else IsBatch(b, a.group.name)
  }

  /** Whether a listing puts a new item at the end of the queue. */
  predicate Arrives(q: Backlog, l: Listing) {
    match l.annotations.batch
    case None => l.ref.namespace + "/" + l.ref.name !in q.known
    case Some(name) => forall i :: 0 <= i < |q.items| ==> !IsBatch(q.items[i], name)
  }

  /** Items keep their places, and a listing adds one at the end exactly if its route is not known or no batch of its
      name waits. */
  lemma ObservedAppends(q: Backlog, l: Listing)
    ensures var items := Observed(q, l).items;
      && |items| == |q.items| + (if Arrives(q, l) then 1 else 0)
      && (forall i :: 0 <= i < |q.items| ==> SameItem(q.items[i], items[i]))
      && (Arrives(q, l) ==>
            if l.annotations.batch.None? then items[|q.items|] == Single(l.ref)
            else IsBatch(items[|q.items|], l.annotations.batch.value))
  {
  }

  /** A single route with this key waits. */
  ghost predicate Queued(q: Backlog, key: string) {
    exists i :: 0 <= i < |q.items| && q.items[i].Single? && KeyOf(q.items[i].ref) == key
  }

  /** A single route with this key is reconciled in one of the cycles. */
  ghost predicate TakenOnce(p: Policy, ticks: seq<Tick>, key: string) {
    exists k, ref :: 0 <= k < |ticks| && TakenAt(p, ticks, k) == Some(Single(ref)) && KeyOf(ref) == key
  }

  lemma ObservedQueues(q: Backlog, l: Listing, key: string)
    ensures Queued(q, key) ==> Queued(Observed(q, l), key)
    ensures key in Observed(q, l).known && key !in q.known ==> Queued(Observed(q, l), key)
    ensures key in q.known ==> key in Observed(q, l).known
    ensures l.annotations.batch == None ==> KeyOf(l.ref) in Observed(q, l).known
  {
    ObservedAppends(q, l);
    var items := Observed(q, l).items;
    if i :| 0 <= i < |q.items| && q.items[i].Single? && KeyOf(q.items[i].ref) == key {
      assert SameItem(q.items[i], items[i]);
    }
    if key in Observed(q, l).known && key !in q.known {
      assert items[|q.items|] == Single(l.ref);
    }
  }

  lemma {:induction false} ObservedAllQueues(q: Backlog, listed: seq<Listing>, key: string)
    ensures Queued(q, key) ==> Queued(ObservedAll(q, listed), key)
    ensures key in ObservedAll(q, listed).known && key !in q.known ==> Queued(ObservedAll(q, listed), key)
    ensures key in q.known ==> key in ObservedAll(q, listed).known
    ensures forall l :: l in listed && l.annotations.batch == None && KeyOf(l.ref) == key ==>
      key in ObservedAll(q, listed).known
  {
    if listed != [] {
      var rest, l := listed[..|listed| - 1], listed[|listed| - 1];
      ObservedAllQueues(q, rest, key);
      ObservedQueues(ObservedAll(q, rest), l, key);
      assert listed == rest + [l];
    }
  }

  /** A single route waits on, or is the one that the cycle reconciles. */
  lemma HeadQueues(q: Backlog, p: Policy, now: int, key: string)
    requires Queued(q, key)
    ensures Queued(AfterHead(q, p, now), key) || exists ref :: DueHead(q, p, now) == Some(Single(ref)) && KeyOf(ref) == key
  {
    var i :| 0 <= i < |q.items| && q.items[i].Single? && KeyOf(q.items[i].ref) == key;
    var q' := AfterHead(q, p, now);
    if q' == q {
      assert Queued(q', key);
    } else if i > 0 {
      assert q'.items[i - 1] == q.items[i];
    } else {
      assert DueHead(q, p, now) == Some(Single(q.items[0].ref));
    }
  }

  lemma TakenEarlier(p: Policy, ticks: seq<Tick>, key: string)
    requires ticks != [] && TakenOnce(p, ticks[..|ticks| - 1], key)
    ensures TakenOnce(p, ticks, key)
  {
    var rest := ticks[..|ticks| - 1];
    var k, ref :| 0 <= k < |rest| && TakenAt(p, rest, k) == Some(Single(ref)) && KeyOf(ref) == key;
    assert rest[..k] == ticks[..k];
    assert TakenAt(p, ticks, k) == Some(Single(ref));
  }

  /** In every run each single route that was ever enqueued waits or has been reconciled. */
  lemma {:induction false} KnownQueuedOrTaken(p: Policy, ticks: seq<Tick>, key: string)
    requires key in AfterTicks(p, ticks).known
    ensures Queued(AfterTicks(p, ticks), key) || TakenOnce(p, ticks, key)
  {
    if ticks != [] {
      var n := |ticks| - 1;
      var rest, tick := ticks[..n], ticks[n];
      var q := ObservedAll(AfterTicks(p, rest), tick.listed);
      ObservedAllQueues(AfterTicks(p, rest), tick.listed, key);
      if key in AfterTicks(p, rest).known {
        KnownQueuedOrTaken(p, rest, key);
      }
      if Queued(q, key) {
        HeadQueues(q, p, tick.now, key);
        if !Queued(AfterTicks(p, ticks), key) {
          assert exists ref :: TakenAt(p, ticks, n) == Some(Single(ref)) && KeyOf(ref) == key;
        }
      } else {
        TakenEarlier(p, ticks, key);
      }
    }
  }

  /** In every run a route listed without a batch annotation waits or has been reconciled. */
  lemma SingleQueuedOrTaken(p: Policy, ticks: seq<Tick>, l: Listing)
    requires ticks != [] && l in ticks[|ticks| - 1].listed && l.annotations.batch == None
    ensures Queued(AfterTicks(p, ticks), KeyOf(l.ref)) || TakenOnce(p, ticks, KeyOf(l.ref))
  {
    ObservedAllQueues(AfterTicks(p, ticks[..|ticks| - 1]), ticks[|ticks| - 1].listed, KeyOf(l.ref));
    KnownQueuedOrTaken(p, ticks, KeyOf(l.ref));
  }

  /** The fetched routes keep the order of their references. */
  lemma {:induction false} FetchedValues(refs: seq<RouteRef>, lookup: RouteRef -> Option<HTTPRoute>)
    ensures AreValues(refs, lookup, Fetched(refs, lookup))
  {
    if refs == [] {
      NoValues(lookup);
    } else {
      FetchedValues(refs[..|refs| - 1], lookup);
      LastValue(refs, lookup, Fetched(refs[..|refs| - 1], lookup), Fetched(refs, lookup));
    }
  }
}
