/** The controller's reconciler: reference counts of destinations, kept across runs in which any API
    call may fail, and the safety of deleting destinations by those counts. */
module Reconciler {
  import opened Basics

  // ----- Data -----

  type Id = nat

  /** A server route; `refs` are the identifiers in its forward action. */
  datatype Route = Route(id: Id, name: string, refs: seq<Id>)
  datatype Destination = Destination(id: Id, name: string)

  /** What the mapper produces from one HTTPRoute. */
  datatype MappedRoute = MappedRoute(name: string, dests: seq<string>)
  datatype Mapped = Mapped(group: string, routes: seq<MappedRoute>, destinations: seq<string>)

  datatype Result<+T> = Ok(value: T) | Err

  predicate HasPrefix(s: string, prefix: string) {
    |s| >= |prefix| && s[..|prefix|] == prefix
  }

  predicate IsOwned(name: string) {
    HasPrefix(name, "k8s:")
  }

  lemma OwnedIff(name: string)
    ensures IsOwned(name) <==> exists rest :: name == "k8s:" + rest
  {
    if IsOwned(name) {
      assert name == "k8s:" + name[4..];
    }
  }

  // ----- Reference counts -----

  type Counts = map<string, int>

  function Count(c: Counts, d: string): int {
    if d in c then c[d] else 0
  }

  function Increment(c: Counts, d: string): Counts {
    c[d := Count(c, d) + 1]
  }

  function Decrement(c: Counts, d: string): Counts {
    if Count(c, d) - 1 <= 0 then c - {d} else c[d := Count(c, d) - 1]
  }

  function IncrementAll(c: Counts, names: seq<string>): Counts {
    if names == [] then c else Increment(IncrementAll(c, names[..|names| - 1]), names[|names| - 1])
  }

  function DecrementAll(c: Counts, names: seq<string>): Counts {
    if names == [] then c else Decrement(DecrementAll(c, names[..|names| - 1]), names[|names| - 1])
  }

  predicate Positive(c: Counts) {
    forall d :: d in c ==> c[d] > 0
  }

  lemma {:induction false} IncrementAllCounts(c: Counts, names: seq<string>)
    requires Positive(c)
    ensures Positive(IncrementAll(c, names))
    ensures forall d :: Count(IncrementAll(c, names), d) == Count(c, d) + multiset(names)[d]
  {
    if names != [] {
      IncrementAllCounts(c, names[..|names| - 1]);
      assert names == names[..|names| - 1] + [names[|names| - 1]];
    }
  }

  lemma {:induction false} DecrementAllCounts(c: Counts, names: seq<string>)
    requires Positive(c) && forall d :: multiset(names)[d] <= Count(c, d)
    ensures Positive(DecrementAll(c, names))
    ensures forall d :: Count(DecrementAll(c, names), d) == Count(c, d) - multiset(names)[d]
  {
    if names != [] {
      var rest, last := names[..|names| - 1], names[|names| - 1];
      assert names == rest + [last];
      assert forall d :: multiset(names)[d] == multiset(rest)[d] + if d == last then 1 else 0;
      DecrementAllCounts(c, rest);
    }
  }

  /** Every destination name in the route map, with its total multiplicity. */
  ghost function Recorded(m: map<string, seq<string>>): multiset<string> {
    if m == map[] then multiset{}
    else
      var k :| k in m;
      multiset(m[k]) + Recorded(m - {k})
  }

  lemma {:induction false} RecordedRemove(m: map<string, seq<string>>, k: string)
    requires k in m
    ensures Recorded(m) == multiset(m[k]) + Recorded(m - {k})
    decreases m.Keys
  {
    var j :| j in m && Recorded(m) == multiset(m[j]) + Recorded(m - {j});
    if j != k {
      RecordedRemove(m - {j}, k);
      RecordedRemove(m - {k}, j);
      assert m - {j} - {k} == m - {k} - {j};
    }
  }

  lemma RecordedUpdate(m: map<string, seq<string>>, k: string, names: seq<string>)
    ensures Recorded(m[k := names]) == multiset(names) + Recorded(m - {k})
  {
    RecordedRemove(m[k := names], k);
    assert m[k := names] - {k} == m - {k};
  }

  lemma RecordedHas(m: map<string, seq<string>>, k: string, d: string)
    requires k in m && d in m[k]
    ensures Recorded(m)[d] > 0
  {
    RecordedRemove(m, k);
    assert d in multiset(m[k]);
  }

  // ----- The world: the reconciler's bookkeeping and the server -----

  datatype World = World(counts: Counts, recorded: map<string, seq<string>>,
                         routes: seq<Route>, dests: seq<Destination>, nextId: Id, deleted: set<Id>)

  /** The count of every destination is its total multiplicity over the route map. */
  ghost predicate Booked(counts: Counts, recorded: map<string, seq<string>>) {
    Positive(counts) && forall d :: Count(counts, d) == Recorded(recorded)[d]
  }

  /** What the reconciler relies on: identifiers are unique and were issued, and owned routes have distinct names. */
  predicate ServerSane(routes: seq<Route>, dests: seq<Destination>, nextId: Id) {
    && (forall i, j :: 0 <= i < j < |routes| ==> routes[i].id != routes[j].id)
    && (forall i, j :: 0 <= i < j < |routes| && IsOwned(routes[i].name) ==> routes[i].name != routes[j].name)
    && (forall r :: r in routes ==> r.id < nextId)
    && (forall d :: d in dests ==> d.id < nextId)
    && (forall d, e :: d in dests && e in dests && d.id == e.id ==> d.name == e.name)
  }

  predicate ServerOk(w: World) {
    ServerSane(w.routes, w.dests, w.nextId)
  }

  predicate OnServer(w: World, name: string) {
    exists r :: r in w.routes && r.name == name
  }

  /** No destination is counted less often than it is recorded. */
  ghost predicate AtLeast(counts: Counts, recorded: map<string, seq<string>>) {
    Positive(counts) && forall d :: Count(counts, d) >= Recorded(recorded)[d]
  }

  /** Kept by every operation, whichever calls fail and whichever answers are lost. */
  ghost predicate SafeInv(w: World) {
    ServerOk(w) && AtLeast(w.counts, w.recorded)
  }

  /** Kept by every operation as long as recorded routes leave the server only with the reconciler's knowledge. */
  ghost predicate BookInv(w: World) {
    && ServerOk(w)
    && Booked(w.counts, w.recorded)
    && (forall n :: n in w.recorded ==> OnServer(w, n))
  }

  /** The references are to identifiers the server has issued, and none to a deleted destination. */
  ghost predicate CleanRefs(w: World, r: Route) {
    forall u :: u in r.refs ==> u < w.nextId && u !in w.deleted
  }

  /** Every destination that the route references is recorded for it. */
  ghost predicate Covered(w: World, r: Route) {
    r.name in w.recorded && forall d :: d in w.dests && d.id in r.refs ==> d.name in w.recorded[r.name]
  }

  ghost predicate CleanIds(w: World) {
    && (forall u :: u in w.deleted ==> u < w.nextId)
    && (forall d :: d in w.dests ==> d.id !in w.deleted)
  }

  ghost predicate Clean(w: World) {
    CleanIds(w) && forall r :: r in w.routes && IsOwned(r.name) ==> CleanRefs(w, r)
  }

  /** No owned route references a deleted destination, and every owned route is covered. */
  ghost predicate Synced(w: World) {
    Clean(w) && forall r :: r in w.routes && IsOwned(r.name) ==> Covered(w, r)
  }

  // ----- Steps: one successful API call with its bookkeeping -----

  function AddDestination(w: World, name: string): World {
    w.(dests := w.dests + [Destination(w.nextId, name)], nextId := w.nextId + 1)
  }

  /** `CreateRoute`, then record its destinations and count them. */
  function AddRoute(w: World, name: string, refs: seq<Id>, names: seq<string>): World {
    w.(routes := w.routes + [Route(w.nextId, name, refs)], nextId := w.nextId + 1,
       recorded := w.recorded[name := names], counts := IncrementAll(w.counts, names))
  }

  /** `UpdateRoute`: the bookkeeping is left as it is. */
  function ReplaceRefs(w: World, i: nat, refs: seq<Id>): World
    requires i < |w.routes|
  {
    w.(routes := w.routes[i := w.routes[i].(refs := refs)])
  }

  function NamesOf(recorded: map<string, seq<string>>, name: string): seq<string> {
    if name in recorded then recorded[name] else []
  }

  /** `DeleteRoute`, then uncount its recorded destinations and forget it. */
  function RemoveRoute(w: World, i: nat): World
    requires i < |w.routes|
  {
    var name := w.routes[i].name;
    w.(routes := w.routes[..i] + w.routes[i + 1..],
       counts := DecrementAll(w.counts, NamesOf(w.recorded, name)), recorded := w.recorded - {name})
  }

  function Without(dests: seq<Destination>, id: Id): (s: seq<Destination>)
    ensures forall d :: d in s <==> d in dests && d.id != id
  {
    if dests == [] then []
    else
      var rest := Without(dests[..|dests| - 1], id);
      assert dests == dests[..|dests| - 1] + [dests[|dests| - 1]];
      if dests[|dests| - 1].id == id then rest else rest + [dests[|dests| - 1]]
  }

  function RemoveDestination(w: World, id: Id): World {
    w.(dests := Without(w.dests, id), deleted := w.deleted + {id})
  }

  // ----- What the steps keep -----

  /** Recording a route keeps the counts right exactly when nothing was recorded under its name: this is
      why owned routes may vanish only through the reconciler. */
  lemma RecordingKeepsBooksIff(counts: Counts, recorded: map<string, seq<string>>, name: string, names: seq<string>)
    requires Booked(counts, recorded)
    ensures Booked(IncrementAll(counts, names), recorded[name := names]) <==> NamesOf(recorded, name) == []
  {
    var counts', recorded', before := IncrementAll(counts, names), recorded[name := names], NamesOf(recorded, name);
    IncrementAllCounts(counts, names);
    RecordedUpdate(recorded, name, names);
    if name in recorded {
      RecordedRemove(recorded, name);
    } else {
      assert recorded - {name} == recorded;
    }
    assert forall d :: Count(counts', d) == Recorded(recorded')[d] + multiset(before)[d];
    if before != [] {
      assert before[0] in multiset(before);
      assert Count(counts', before[0]) != Recorded(recorded')[before[0]];
    }
  }

  /** Recording a route never leaves a destination counted less often than recorded. */
  lemma RecordingKeepsAtLeast(counts: Counts, recorded: map<string, seq<string>>, name: string, names: seq<string>)
    requires AtLeast(counts, recorded)
    ensures AtLeast(IncrementAll(counts, names), recorded[name := names])
  {
    IncrementAllCounts(counts, names);
    RecordedUpdate(recorded, name, names);
    if name in recorded {
      RecordedRemove(recorded, name);
    } else {
      assert recorded - {name} == recorded;
    }
  }

  lemma AddRouteKeepsServer(w: World, name: string, refs: seq<Id>, names: seq<string>)
    requires ServerOk(w) && !OnServer(w, name)
    ensures ServerOk(AddRoute(w, name, refs, names))
  {
    assert AddRoute(w, name, refs, names).routes[|w.routes|] == Route(w.nextId, name, refs);
  }

  lemma AddRouteKeepsBooks(w: World, name: string, refs: seq<Id>, names: seq<string>)
    requires SafeInv(w) && !OnServer(w, name)
    ensures SafeInv(AddRoute(w, name, refs, names))
    ensures BookInv(w) ==> BookInv(AddRoute(w, name, refs, names))
  {
    var w' := AddRoute(w, name, refs, names);
    AddRouteKeepsServer(w, name, refs, names);
    RecordingKeepsAtLeast(w.counts, w.recorded, name, names);
    if BookInv(w) {
      assert name !in w.recorded;
      RecordingKeepsBooksIff(w.counts, w.recorded, name, names);
      forall n | n in w'.recorded ensures OnServer(w', n) {
        if n == name {
          assert Route(w.nextId, name, refs) in w'.routes;
        } else {
          var q :| q in w.routes && q.name == n;
          assert q in w'.routes;
        }
      }
    }
  }

  lemma AddRouteKeepsSync(w: World, name: string, refs: seq<Id>, names: seq<string>)
    requires SafeInv(w) && Synced(w) && !OnServer(w, name)
    requires forall u :: u in refs ==> exists d :: d in w.dests && d.id == u && d.name in names
    ensures Synced(AddRoute(w, name, refs, names))
  {
    var w' := AddRoute(w, name, refs, names);
    forall r | r in w'.routes && IsOwned(r.name) ensures CleanRefs(w', r) && Covered(w', r) {
      if r in w.routes {
        assert CleanRefs(w, r) && Covered(w, r) && r.name != name;
      } else {
        assert r == Route(w.nextId, name, refs);
        forall u | u in refs ensures u < w'.nextId && u !in w'.deleted {
          var d :| d in w.dests && d.id == u && d.name in names;
        }
        forall d | d in w.dests && d.id in refs ensures d.name in names {
          var e :| e in w.dests && e.id == d.id && e.name in names;
        }
      }
    }
  }

  lemma ReplaceRefsKeepsBooks(w: World, i: nat, refs: seq<Id>)
    requires SafeInv(w) && i < |w.routes|
    ensures SafeInv(ReplaceRefs(w, i, refs))
    ensures BookInv(w) ==> BookInv(ReplaceRefs(w, i, refs))
  {
    var w' := ReplaceRefs(w, i, refs);
    forall n | OnServer(w, n) ensures OnServer(w', n) {
      var q :| q in w.routes && q.name == n;
      var j :| 0 <= j < |w.routes| && w.routes[j] == q;
      assert w'.routes[j] in w'.routes && w'.routes[j].name == n;
    }
    forall r | r in w'.routes ensures r.id < w'.nextId {
      var j :| 0 <= j < |w'.routes| && w'.routes[j] == r;
      assert w.routes[j] in w.routes;
    }
  }

  /** Updating an owned route stays in step exactly when its new references are to live destinations
      that are already recorded for it: the update does not refresh the record. */
  lemma UpdateKeepsSyncIff(w: World, i: nat, refs: seq<Id>)
    requires SafeInv(w) && Synced(w) && i < |w.routes| && IsOwned(w.routes[i].name)
    requires forall u :: u in refs ==> exists d :: d in w.dests && d.id == u
    ensures Synced(ReplaceRefs(w, i, refs)) <==>
      forall d :: d in w.dests && d.id in refs ==> d.name in NamesOf(w.recorded, w.routes[i].name)
  {
    var w' := ReplaceRefs(w, i, refs);
    var r' := w'.routes[i];
    assert r' in w'.routes && w.routes[i] in w.routes;
    assert CleanRefs(w', r') by {
      forall u | u in refs ensures u < w.nextId && u !in w.deleted {
        var d :| d in w.dests && d.id == u;
      }
    }
    forall r | r in w'.routes && IsOwned(r.name) && r != r' ensures CleanRefs(w', r) && Covered(w', r) {
      var j :| 0 <= j < |w'.routes| && w'.routes[j] == r;
      assert w.routes[j] == r;
      assert CleanRefs(w, r) && Covered(w, r);
    }
  }

  lemma RemoveRouteMembers(w: World, i: nat)
    requires i < |w.routes|
    ensures forall r :: r in RemoveRoute(w, i).routes ==> r in w.routes
    ensures forall r :: r in w.routes && r != w.routes[i] ==> r in RemoveRoute(w, i).routes
  {
    var w' := RemoveRoute(w, i);
    forall r | r in w.routes && r != w.routes[i] ensures r in w'.routes {
      var j :| 0 <= j < |w.routes| && w.routes[j] == r;
      assert j < i ==> w'.routes[j] == r;
      assert j > i ==> w'.routes[j - 1] == r;
    }
  }

  lemma RemoveRouteKeepsServer(w: World, i: nat)
    requires ServerOk(w) && i < |w.routes|
    ensures ServerOk(RemoveRoute(w, i))
  {
    var w' := RemoveRoute(w, i);
    RemoveRouteMembers(w, i);
    forall j, k | 0 <= j < k < |w'.routes|
      ensures w'.routes[j].id != w'.routes[k].id
      ensures IsOwned(w'.routes[j].name) ==> w'.routes[j].name != w'.routes[k].name
    {
      RemovedAt(w.routes, i, j);
      RemovedAt(w.routes, i, k);
    }
  }

  function Shifted(i: nat, j: nat): nat {
    if j < i then j else j + 1
  }

  lemma RemovedAt(routes: seq<Route>, i: nat, j: nat)
    requires i < |routes| && j < |routes| - 1
    ensures (routes[..i] + routes[i + 1..])[j] == routes[Shifted(i, j)]
  {
  }

  lemma ForgettingKeepsBooks(counts: Counts, recorded: map<string, seq<string>>, name: string)
    requires Booked(counts, recorded)
    ensures Booked(DecrementAll(counts, NamesOf(recorded, name)), recorded - {name})
  {
    if name in recorded {
      RecordedRemove(recorded, name);
      DecrementAllCounts(counts, recorded[name]);
    } else {
      assert recorded - {name} == recorded;
    }
  }

  lemma ForgettingKeepsAtLeast(counts: Counts, recorded: map<string, seq<string>>, name: string)
    requires AtLeast(counts, recorded)
    ensures AtLeast(DecrementAll(counts, NamesOf(recorded, name)), recorded - {name})
  {
    if name in recorded {
      RecordedRemove(recorded, name);
      DecrementAllCounts(counts, recorded[name]);
    } else {
      assert recorded - {name} == recorded;
    }
  }

  lemma RemoveRouteKeepsBooks(w: World, i: nat)
    requires SafeInv(w) && i < |w.routes|
    ensures SafeInv(RemoveRoute(w, i))
    ensures BookInv(w) ==> BookInv(RemoveRoute(w, i))
  {
    var w' := RemoveRoute(w, i);
    RemoveRouteMembers(w, i);
    RemoveRouteKeepsServer(w, i);
    ForgettingKeepsAtLeast(w.counts, w.recorded, w.routes[i].name);
    if BookInv(w) {
      ForgettingKeepsBooks(w.counts, w.recorded, w.routes[i].name);
      forall n | n in w'.recorded ensures OnServer(w', n) {
        var q :| q in w.routes && q.name == n;
        assert q in w'.routes;
      }
    }
  }

  lemma RemoveRouteKeepsSync(w: World, i: nat)
    requires SafeInv(w) && Synced(w) && i < |w.routes|
    ensures Synced(RemoveRoute(w, i))
  {
    var w' := RemoveRoute(w, i);
    forall r | r in w'.routes && IsOwned(r.name) ensures CleanRefs(w', r) && Covered(w', r) {
      var j :| 0 <= j < |w'.routes| && w'.routes[j] == r;
      var k := if j < i then j else j + 1;
      assert w.routes[k] == r && r.name != w.routes[i].name;
      assert CleanRefs(w, r) && Covered(w, r);
    }
  }

  lemma AddDestinationKeepsBooks(w: World, name: string)
    requires SafeInv(w)
    ensures SafeInv(AddDestination(w, name))
    ensures BookInv(w) ==> BookInv(AddDestination(w, name))
  {
    var w' := AddDestination(w, name);
    assert forall n :: OnServer(w, n) ==> OnServer(w', n);
  }

  lemma AddDestinationKeepsSync(w: World, name: string)
    requires SafeInv(w) && Synced(w)
    ensures Synced(AddDestination(w, name))
  {
    var w' := AddDestination(w, name);
    forall r | r in w'.routes && IsOwned(r.name) ensures CleanRefs(w', r) && Covered(w', r) {
      assert CleanRefs(w, r) && Covered(w, r);
    }
  }

  /** Deletion safety: a destination whose name has count zero is referenced by no owned route. */
  lemma UncountedIsUnreferenced(w: World, d: Destination, r: Route)
    requires SafeInv(w) && Synced(w) && d in w.dests && Count(w.counts, d.name) <= 0
    requires r in w.routes && IsOwned(r.name)
    ensures d.id !in r.refs
  {
    if d.id in r.refs {
      RecordedHas(w.recorded, r.name, d.name);
    }
  }

  lemma RemoveDestinationKeepsBooks(w: World, id: Id)
    requires SafeInv(w)
    ensures SafeInv(RemoveDestination(w, id))
    ensures BookInv(w) ==> BookInv(RemoveDestination(w, id))
  {
    var w' := RemoveDestination(w, id);
    assert forall n :: OnServer(w, n) ==> OnServer(w', n);
  }

  lemma RemoveDestinationKeepsSync(w: World, d: Destination)
    requires SafeInv(w) && Synced(w) && d in w.dests && Count(w.counts, d.name) <= 0
    ensures Synced(RemoveDestination(w, d.id))
  {
    var w' := RemoveDestination(w, d.id);
    forall r | r in w'.routes && IsOwned(r.name) ensures CleanRefs(w', r) && Covered(w', r) {
      assert CleanRefs(w, r) && Covered(w, r);
      UncountedIsUnreferenced(w, d, r);
    }
  }

  // ----- Whole phases of a reconcile -----

  /** The index of the first route with this name, or the length. */
  function FindRoute(routes: seq<Route>, name: string, i: nat): (k: nat)
    requires i <= |routes|
    ensures i <= k <= |routes|
    ensures k < |routes| ==> routes[k].name == name
    ensures forall j :: i <= j < k ==> routes[j].name != name
    decreases |routes| - i
  {
    if i == |routes| || routes[i].name == name then i else FindRoute(routes, name, i + 1)
  }

  /** A route's destination names replaced by identifiers; a name without one resolves to nothing. */
  function Resolve(names: seq<string>, ids: map<string, Id>): (refs: seq<Id>)
    ensures forall u :: u in refs ==> exists n :: n in names && n in ids && ids[n] == u
  {
    if names == [] then []
    else
      var rest := Resolve(names[..|names| - 1], ids);
      var n := names[|names| - 1];
      if n in ids then rest + [ids[n]] else rest
  }

  function IdentifiedBy(ids: map<string, Id>): string -> Option<Id> {
    n => if n in ids then Some(ids[n]) else None
  }

  /** The references of a route that forwards to these destinations: one for each that has an identifier, in order. */
  ghost predicate RefersTo(refs: seq<Id>, dests: seq<string>, ids: map<string, Id>) {
    && AreValues(dests, IdentifiedBy(ids), refs)
    && ((forall n :: n in dests ==> n in ids) ==>
          |refs| == |dests| && forall i :: 0 <= i < |dests| ==> refs[i] == ids[dests[i]])
  }

  lemma {:induction false} ResolvedValues(names: seq<string>, ids: map<string, Id>)
    ensures AreValues(names, IdentifiedBy(ids), Resolve(names, ids))
  {
    if names == [] {
      NoValues(IdentifiedBy(ids));
    } else {
      ResolvedValues(names[..|names| - 1], ids);
      LastValue(names, IdentifiedBy(ids), Resolve(names[..|names| - 1], ids), Resolve(names, ids));
    }
  }

  lemma ResolvedRefers(names: seq<string>, ids: map<string, Id>)
    ensures RefersTo(Resolve(names, ids), names, ids)
  {
    var f, refs := IdentifiedBy(ids), Resolve(names, ids);
    ResolvedValues(names, ids);
    if forall n :: n in names ==> n in ids {
      forall k | 0 <= k < |names| ensures f(names[k]) == Some(ids[names[k]]) {
      }
      AllValues(names, f, refs);
    }
  }

  /** Create the route, or update it when the server already has one of this name. */
  function ApplyRoute(w: World, m: MappedRoute, ids: map<string, Id>, names: seq<string>): World {
    var k := FindRoute(w.routes, m.name, 0);
    if k == |w.routes| then AddRoute(w, m.name, Resolve(m.dests, ids), names)
    else ReplaceRefs(w, k, Resolve(m.dests, ids))
  }

  function ApplyRoutes(w: World, ms: seq<MappedRoute>, ids: map<string, Id>, names: seq<string>): World {
    if ms == [] then w
    else ApplyRoute(ApplyRoutes(w, ms[..|ms| - 1], ids, names), ms[|ms| - 1], ids, names)
  }

  predicate StaleRoute(r: Route, prefix: string, desired: set<string>) {
    IsOwned(r.name) && HasPrefix(r.name, prefix) && r.name !in desired
  }

  /** Delete the stale routes from index `i` on, in order. */
  function RemoveStale(w: World, prefix: string, desired: set<string>, i: nat): World
    requires i <= |w.routes|
    decreases |w.routes| - i
  {
    if i == |w.routes| then w
    else if StaleRoute(w.routes[i], prefix, desired) then RemoveStale(RemoveRoute(w, i), prefix, desired, i)
    else RemoveStale(w, prefix, desired, i + 1)
  }

  /** The destinations recorded for the stale routes, in the order of their deletion. */
  function StaleNames(w: World, prefix: string, desired: set<string>, i: nat): seq<string>
    requires i <= |w.routes|
    decreases |w.routes| - i
  {
    if i == |w.routes| then []
    else if StaleRoute(w.routes[i], prefix, desired) then
      NamesOf(w.recorded, w.routes[i].name) + StaleNames(RemoveRoute(w, i), prefix, desired, i)
    else StaleNames(w, prefix, desired, i + 1)
  }

  function FirstNamed(dests: seq<Destination>, name: string): (r: Result<Destination>)
    ensures r.Ok? ==> r.value in dests && r.value.name == name
    ensures r.Err? ==> forall d :: d in dests ==> d.name != name
  {
    if dests == [] then Err
    else if dests[0].name == name then Ok(dests[0])
    else FirstNamed(dests[1..], name)
  }

  /** Delete the first listed destination of this name, if its count is zero. */
  function RemoveIfUncounted(w: World, listed: seq<Destination>, name: string): World {
    if Count(w.counts, name) > 0 then w
    else
      match FirstNamed(listed, name)
      case Ok(d) => RemoveDestination(w, d.id)
      case Err => w
  }

  function RemoveUncounted(w: World, listed: seq<Destination>, names: seq<string>): World {
    if names == [] then w
    else RemoveIfUncounted(RemoveUncounted(w, listed, names[..|names| - 1]), listed, names[|names| - 1])
  }

  function AddIfMissing(w: World, name: string): World {
    if FirstNamed(w.dests, name).Ok? then w else AddDestination(w, name)
  }

  function AddMissing(w: World, names: seq<string>): World {
    if names == [] then w else AddIfMissing(AddMissing(w, names[..|names| - 1]), names[|names| - 1])
  }

  /** The destination was created for a mentioned name that none had, and is the `j`th so created. */
  predicate CreatedFor(w: World, names: seq<string>, d: Destination, j: int) {
    d.id == w.nextId + j && d.name in names && forall e :: e in w.dests ==> e.name != d.name
  }

  /** The old destinations with one for each mentioned name that had none; nothing else has changed. */
  ghost predicate MissingCreated(w: World, names: seq<string>, w': World) {
    var n := |w.dests|;
    && w.dests <= w'.dests && w' == w.(dests := w'.dests, nextId := w.nextId + |w'.dests| - n)
    && (forall j :: n <= j < |w'.dests| ==> CreatedFor(w, names, w'.dests[j], j - n))
    && (forall i, j :: n <= i < j < |w'.dests| ==> w'.dests[i].name != w'.dests[j].name)
    && (forall m :: m in names ==> FirstNamed(w'.dests, m).Ok?)
  }

  lemma {:induction false} MissingAdded(w: World, names: seq<string>)
    ensures MissingCreated(w, names, AddMissing(w, names))
  {
    if names != [] {
      var rest, n := names[..|names| - 1], names[|names| - 1];
      MissingAdded(w, rest);
      assert names == rest + [n];
      if FirstNamed(AddMissing(w, rest).dests, n).Ok? {
        MentionedAgain(w, rest, n, AddMissing(w, rest));
      } else {
        CreatedNext(w, rest, n, AddMissing(w, rest));
      }
    }
  }

  lemma MentionedAgain(w: World, names: seq<string>, n: string, w': World)
    requires MissingCreated(w, names, w') && FirstNamed(w'.dests, n).Ok?
    ensures MissingCreated(w, names + [n], w')
  {
    forall j | |w.dests| <= j < |w'.dests| ensures CreatedFor(w, names + [n], w'.dests[j], j - |w.dests|) {
      assert CreatedFor(w, names, w'.dests[j], j - |w.dests|);
    }
  }

  lemma CreatedNext(w: World, names: seq<string>, n: string, before: World)
    requires MissingCreated(w, names, before) && FirstNamed(before.dests, n).Err?
    ensures MissingCreated(w, names + [n], AddDestination(before, n))
  {
    var all, w' := names + [n], AddDestination(before, n);
    forall j | |w.dests| <= j < |w'.dests| ensures CreatedFor(w, all, w'.dests[j], j - |w.dests|) {
      if j < |before.dests| {
        assert w'.dests[j] == before.dests[j];
        assert CreatedFor(w, names, before.dests[j], j - |w.dests|);
      } else {
        NotNamedBefore(w.dests, before.dests, n);
      }
    }
    forall i, j | |w.dests| <= i < j < |w'.dests| ensures w'.dests[i].name != w'.dests[j].name {
      assert w'.dests[i] == before.dests[i] && w'.dests[i] in before.dests;
    }
    forall m | m in all ensures FirstNamed(w'.dests, m).Ok? {
      NamedLater(before.dests, w'.dests, m);
      assert w'.dests[|before.dests|] in w'.dests;
    }
  }

  lemma NotNamedBefore(dests: seq<Destination>, dests': seq<Destination>, name: string)
    requires dests <= dests' && FirstNamed(dests', name).Err?
    ensures forall e :: e in dests ==> e.name != name
  {
    forall e | e in dests ensures e in dests' {
    }
  }

  lemma NamedLater(dests: seq<Destination>, dests': seq<Destination>, name: string)
    requires dests <= dests'
    ensures FirstNamed(dests, name).Ok? ==> FirstNamed(dests', name).Ok?
  {
    if FirstNamed(dests, name).Ok? {
      assert FirstNamed(dests, name).value in dests';
    }
  }

  /** Delete the stale routes, then those of their destinations that nothing counts any more. */
  function Collect(w: World, prefix: string, desired: set<string>): World {
    var w' := RemoveStale(w, prefix, desired, 0);
    RemoveUncounted(w', w'.dests, Unique(StaleNames(w, prefix, desired, 0)))
  }

  /** The deduplicated sequence, in order of first occurrence. */
  function Unique(names: seq<string>): (s: seq<string>)
    ensures forall n :: n in s <==> n in names
    ensures forall i, j :: 0 <= i < j < |s| ==> s[i] != s[j]
  {
    if names == [] then []
    else
      var s := Unique(names[..|names| - 1]);
      assert names == names[..|names| - 1] + [names[|names| - 1]];
      if names[|names| - 1] in s then s else s + [names[|names| - 1]]
  }

  function Desired(mapped: Mapped): set<string> {
    set m | m in mapped.routes :: m.name
  }

  /** A whole successful `ApplyHTTPRoute`, given the identifiers its destinations resolved to. */
  function Reconciled(w: World, mapped: Mapped, ids: map<string, Id>): World {
    Collect(Upserted(w, mapped, ids), mapped.group + "/", Desired(mapped))
  }

  // ----- What the phases achieve -----

  /** After the stale phase no stale route is left, and every other route is untouched. */
  lemma {:induction false} StaleRoutesGone(w: World, prefix: string, desired: set<string>, i: nat)
    requires i <= |w.routes| && forall j :: 0 <= j < i ==> !StaleRoute(w.routes[j], prefix, desired)
    ensures var w' := RemoveStale(w, prefix, desired, i);
      forall r :: r in w'.routes <==> r in w.routes && !StaleRoute(r, prefix, desired)
    decreases |w.routes| - i
  {
    if i < |w.routes| {
      if StaleRoute(w.routes[i], prefix, desired) {
        RemoveRouteMembers(w, i);
        StaleRoutesGone(RemoveRoute(w, i), prefix, desired, i);
      } else {
        StaleRoutesGone(w, prefix, desired, i + 1);
      }
    }
  }

  /** A stale route from index `i` on has this name. */
  ghost predicate StaleFrom(w: World, prefix: string, desired: set<string>, i: nat, n: string) {
    exists j :: i <= j < |w.routes| && StaleRoute(w.routes[j], prefix, desired) && w.routes[j].name == n
  }

  lemma StaleFromNext(w: World, prefix: string, desired: set<string>, i: nat, n: string)
    requires i < |w.routes|
    ensures StaleFrom(w, prefix, desired, i, n) <==>
      || (StaleRoute(w.routes[i], prefix, desired) && w.routes[i].name == n)
      || StaleFrom(w, prefix, desired, i + 1, n)
  {
  }

  lemma StaleFromRemoved(w: World, prefix: string, desired: set<string>, i: nat, n: string)
    requires i < |w.routes|
    ensures StaleFrom(RemoveRoute(w, i), prefix, desired, i, n) <==> StaleFrom(w, prefix, desired, i + 1, n)
  {
    var w' := RemoveRoute(w, i);
    if j :| i + 1 <= j < |w.routes| && StaleRoute(w.routes[j], prefix, desired) && w.routes[j].name == n {
      assert w'.routes[j - 1] == w.routes[j];
    }
    if j :| i <= j < |w'.routes| && StaleRoute(w'.routes[j], prefix, desired) && w'.routes[j].name == n {
      assert w.routes[j + 1] == w'.routes[j];
    }
  }

  /** The bookkeeping of the stale phase: exactly the records of the stale routes are forgotten. */
  lemma {:induction false} StaleRoutesForgotten(w: World, prefix: string, desired: set<string>, i: nat, n: string)
    requires i <= |w.routes|
    ensures var w' := RemoveStale(w, prefix, desired, i);
      && (n in w'.recorded <==> n in w.recorded && !StaleFrom(w, prefix, desired, i, n))
      && (n in w'.recorded ==> w'.recorded[n] == w.recorded[n])
    decreases |w.routes| - i
  {
    if i < |w.routes| {
      StaleFromNext(w, prefix, desired, i, n);
      if StaleRoute(w.routes[i], prefix, desired) {
        StaleFromRemoved(w, prefix, desired, i, n);
        StaleRoutesForgotten(RemoveRoute(w, i), prefix, desired, i, n);
      } else {
        StaleRoutesForgotten(w, prefix, desired, i + 1, n);
      }
    }
  }

  /** A stale route from index `i` on has this destination recorded. */
  ghost predicate StaleUses(w: World, prefix: string, desired: set<string>, i: nat, d: string) {
    exists n :: StaleFrom(w, prefix, desired, i, n) && d in NamesOf(w.recorded, n)
  }

  /** The destinations to check are those recorded for the stale routes. */
  lemma {:induction false} StaleNamesUsed(w: World, prefix: string, desired: set<string>, i: nat, d: string)
    requires i <= |w.routes|
    ensures d in StaleNames(w, prefix, desired, i) <==> StaleUses(w, prefix, desired, i, d)
    decreases |w.routes| - i
  {
    if i < |w.routes| {
      forall n ensures StaleFrom(w, prefix, desired, i, n) <==>
        (StaleRoute(w.routes[i], prefix, desired) && w.routes[i].name == n) || StaleFrom(w, prefix, desired, i + 1, n)
      {
        StaleFromNext(w, prefix, desired, i, n);
      }
      if StaleRoute(w.routes[i], prefix, desired) {
        StaleNamesUsed(RemoveRoute(w, i), prefix, desired, i, d);
        StaleUsesRemoved(w, prefix, desired, i, d);
      } else {
        StaleNamesUsed(w, prefix, desired, i + 1, d);
      }
    }
  }

  lemma StaleUsesRemoved(w: World, prefix: string, desired: set<string>, i: nat, d: string)
    requires i < |w.routes| && StaleRoute(w.routes[i], prefix, desired)
    ensures StaleUses(w, prefix, desired, i, d) <==>
      d in NamesOf(w.recorded, w.routes[i].name) || StaleUses(RemoveRoute(w, i), prefix, desired, i, d)
  {
    var w', name := RemoveRoute(w, i), w.routes[i].name;
    StaleFromNext(w, prefix, desired, i, name);
    if n :| StaleFrom(w, prefix, desired, i, n) && d in NamesOf(w.recorded, n) {
      StaleFromNext(w, prefix, desired, i, n);
      StaleFromRemoved(w, prefix, desired, i, n);
      assert n != name ==> d in NamesOf(w'.recorded, n);
    }
    if n :| StaleFrom(w', prefix, desired, i, n) && d in NamesOf(w'.recorded, n) {
      StaleFromNext(w, prefix, desired, i, n);
      StaleFromRemoved(w, prefix, desired, i, n);
      assert d in NamesOf(w.recorded, n);
    }
  }

  lemma {:induction false} UncountedKeepsRoutes(w: World, listed: seq<Destination>, names: seq<string>)
    ensures var w' := RemoveUncounted(w, listed, names);
      w'.routes == w.routes && w'.counts == w.counts && w'.recorded == w.recorded
    ensures forall d :: d in RemoveUncounted(w, listed, names).dests ==> d in w.dests
  {
    if names != [] {
      UncountedKeepsRoutes(w, listed, names[..|names| - 1]);
    }
  }

  /** A destination name whose check deletes identifier `u`: nothing counts it, and `u` is the first listed of it. */
  predicate Frees(counts: Counts, listed: seq<Destination>, n: string, u: Id) {
    Count(counts, n) <= 0 && FirstNamed(listed, n).Ok? && FirstNamed(listed, n).value.id == u
  }

  /** The destination phase deletes exactly the checked destinations that nothing counts. */
  lemma {:induction false} UncountedGone(w: World, listed: seq<Destination>, names: seq<string>, d: Destination)
    ensures d in RemoveUncounted(w, listed, names).dests <==>
      d in w.dests && !exists n :: n in names && Frees(w.counts, listed, n, d.id)
  {
    if names != [] {
      var rest, last := names[..|names| - 1], names[|names| - 1];
      UncountedKeepsRoutes(w, listed, rest);
      UncountedGone(w, listed, rest, d);
      assert names == rest + [last];
      assert (exists n :: n in names && Frees(w.counts, listed, n, d.id)) <==>
        Frees(w.counts, listed, last, d.id) || exists n :: n in rest && Frees(w.counts, listed, n, d.id);
    }
  }

  /** A destination recorded for a stale route frees identifier `u`. */
  ghost predicate Freed(w: World, prefix: string, desired: set<string>, counts: Counts, u: Id) {
    exists n :: StaleUses(w, prefix, desired, 0, n) && Frees(counts, w.dests, n, u)
  }

  /** What deleting stale routes and their uncounted destinations leaves: every other route; every other record;
      every other destination. */
  ghost predicate Collected(w: World, prefix: string, desired: set<string>, w': World) {
    && (forall r :: r in w'.routes <==>
          r in w.routes && !(IsOwned(r.name) && HasPrefix(r.name, prefix) && r.name !in desired))
    && (forall n :: n in w'.recorded <==> n in w.recorded && !StaleFrom(w, prefix, desired, 0, n))
    && (forall n :: n in w'.recorded ==> w'.recorded[n] == w.recorded[n])
    && (forall d :: d in w'.dests <==> d in w.dests && !Freed(w, prefix, desired, w'.counts, d.id))
  }

  lemma {:induction false} StaleKeepsDests(w: World, prefix: string, desired: set<string>, i: nat)
    requires i <= |w.routes|
    ensures RemoveStale(w, prefix, desired, i).dests == w.dests
    decreases |w.routes| - i
  {
    if i < |w.routes| {
      if StaleRoute(w.routes[i], prefix, desired) {
        StaleKeepsDests(RemoveRoute(w, i), prefix, desired, i);
      } else {
        StaleKeepsDests(w, prefix, desired, i + 1);
      }
    }
  }

  /** Both deletion phases together. */
  lemma CollectedServer(w: World, prefix: string, desired: set<string>)
    ensures Collected(w, prefix, desired, Collect(w, prefix, desired))
  {
    var stale, names := RemoveStale(w, prefix, desired, 0), Unique(StaleNames(w, prefix, desired, 0));
    var w' := Collect(w, prefix, desired);
    StaleRoutesGone(w, prefix, desired, 0);
    StaleKeepsDests(w, prefix, desired, 0);
    UncountedKeepsRoutes(stale, stale.dests, names);
    forall n ensures n in w'.recorded <==> n in w.recorded && !StaleFrom(w, prefix, desired, 0, n)
      ensures n in w'.recorded ==> w'.recorded[n] == w.recorded[n]
    {
      StaleRoutesForgotten(w, prefix, desired, 0, n);
    }
    forall d ensures d in w'.dests <==> d in w.dests && !Freed(w, prefix, desired, w'.counts, d.id) {
      UncountedGone(stale, stale.dests, names, d);
      forall n ensures n in names <==> StaleUses(w, prefix, desired, 0, n) {
        StaleNamesUsed(w, prefix, desired, 0, n);
      }
    }
  }

  ghost predicate HasRoute(w: World, name: string, refs: seq<Id>) {
    exists r :: r in w.routes && r.name == name && r.refs == refs
  }

  predicate DistinctNames(ms: seq<MappedRoute>) {
    forall i, j :: 0 <= i < j < |ms| ==> ms[i].name != ms[j].name
  }

  lemma ApplyRouteEffect(w: World, m: MappedRoute, ids: map<string, Id>, names: seq<string>)
    ensures HasRoute(ApplyRoute(w, m, ids, names), m.name, Resolve(m.dests, ids))
    ensures forall n, refs :: n != m.name && HasRoute(w, n, refs) ==> HasRoute(ApplyRoute(w, m, ids, names), n, refs)
  {
    var w', k := ApplyRoute(w, m, ids, names), FindRoute(w.routes, m.name, 0);
    assert w'.routes[k] in w'.routes;
    forall n, refs | n != m.name && HasRoute(w, n, refs) ensures HasRoute(w', n, refs) {
      var r :| r in w.routes && r.name == n && r.refs == refs;
      var j :| 0 <= j < |w.routes| && w.routes[j] == r;
      assert w'.routes[j] == r;
    }
  }

  lemma {:induction false} ApplyRoutesEffect(w: World, ms: seq<MappedRoute>, ids: map<string, Id>, names: seq<string>)
    requires DistinctNames(ms)
    ensures forall m :: m in ms ==> HasRoute(ApplyRoutes(w, ms, ids, names), m.name, Resolve(m.dests, ids))
  {
    if ms != [] {
      var rest, last := ms[..|ms| - 1], ms[|ms| - 1];
      ApplyRoutesEffect(w, rest, ids, names);
      ApplyRouteEffect(ApplyRoutes(w, rest, ids, names), last, ids, names);
      forall m | m in ms ensures HasRoute(ApplyRoutes(w, ms, ids, names), m.name, Resolve(m.dests, ids)) {
        var i :| 0 <= i < |ms| && ms[i] == m;
        assert i < |rest| ==> rest[i] == m && m in rest;
      }
    }
  }

  // ----- The routes after the route phase, one by one -----

  predicate Maps(ms: seq<MappedRoute>, name: string) {
    exists m :: m in ms && m.name == name
  }

  /** A route that was on the server: it now forwards as mapped, or is as it was if nothing maps to its name. */
  ghost predicate UpdatedRoute(ms: seq<MappedRoute>, ids: map<string, Id>, r: Route, r': Route) {
    && r'.id == r.id && r'.name == r.name
    && (forall m :: m in ms && m.name == r.name ==> RefersTo(r'.refs, m.dests, ids))
    && (!Maps(ms, r.name) ==> r' == r)
  }

  /** The `j`th new route: one for a mapping whose name was not on the server. */
  ghost predicate CreatedRoute(w: World, ms: seq<MappedRoute>, ids: map<string, Id>, r: Route, j: int) {
    && r.id == w.nextId + j && !OnServer(w, r.name) && Maps(ms, r.name)
    && (forall m :: m in ms && m.name == r.name ==> RefersTo(r.refs, m.dests, ids))
  }

  /** A new route is recorded with all destinations of the mapping; every other record is as it was. */
  ghost predicate RecordAfter(w: World, ms: seq<MappedRoute>, names: seq<string>, w': World, n: string) {
    if Maps(ms, n) && !OnServer(w, n) then n in w'.recorded && w'.recorded[n] == names
    else (n in w'.recorded <==> n in w.recorded) && (n in w.recorded ==> w'.recorded[n] == w.recorded[n])
  }

  ghost predicate RoutesUpserted(w: World, ms: seq<MappedRoute>, ids: map<string, Id>, names: seq<string>, w': World) {
    var n := |w.routes|;
    && |w'.routes| >= n && w'.nextId == w.nextId + |w'.routes| - n && w'.dests == w.dests && w'.deleted == w.deleted
    && (forall i :: 0 <= i < n ==> UpdatedRoute(ms, ids, w.routes[i], w'.routes[i]))
    && (forall j :: n <= j < |w'.routes| ==> CreatedRoute(w, ms, ids, w'.routes[j], j - n))
    && (forall i, j :: n <= i < j < |w'.routes| ==> w'.routes[i].name != w'.routes[j].name)
    && (forall m :: m in ms ==> OnServer(w', m.name))
    && (forall x :: RecordAfter(w, ms, names, w', x))
  }

  /** Mapping to one more name, which is new among the mapped ones. */
  lemma MapsNext(ms: seq<MappedRoute>, m: MappedRoute, name: string)
    ensures Maps(ms + [m], name) <==> Maps(ms, name) || m.name == name
  {
    if x :| x in ms && x.name == name {
      assert x in ms + [m];
    }
    assert m in ms + [m];
  }

  lemma UpdatedNext(ms: seq<MappedRoute>, m: MappedRoute, ids: map<string, Id>, r: Route, r': Route)
    requires UpdatedRoute(ms, ids, r, r') && m.name != r.name
    ensures UpdatedRoute(ms + [m], ids, r, r')
  {
    MapsNext(ms, m, r.name);
  }

  lemma CreatedStays(w: World, ms: seq<MappedRoute>, m: MappedRoute, ids: map<string, Id>, r: Route, j: int)
    requires CreatedRoute(w, ms, ids, r, j) && m.name != r.name
    ensures CreatedRoute(w, ms + [m], ids, r, j)
  {
    MapsNext(ms, m, r.name);
  }

  lemma UpsertUpdates(w: World, ms: seq<MappedRoute>, m: MappedRoute, ids: map<string, Id>, names: seq<string>,
                      before: World, k: nat)
    requires RoutesUpserted(w, ms, ids, names, before) && !Maps(ms, m.name)
    requires k < |w.routes| && w.routes[k].name == m.name
    requires forall i :: 0 <= i < |w.routes| && i != k ==> w.routes[i].name != m.name
    ensures RoutesUpserted(w, ms + [m], ids, names, ReplaceRefs(before, k, Resolve(m.dests, ids)))
  {
    var all, w' := ms + [m], ReplaceRefs(before, k, Resolve(m.dests, ids));
    ResolvedRefers(m.dests, ids);
    assert w.routes[k] in w.routes && OnServer(w, m.name);
    forall i | 0 <= i < |w.routes| ensures UpdatedRoute(all, ids, w.routes[i], w'.routes[i]) {
      assert UpdatedRoute(ms, ids, w.routes[i], before.routes[i]);
      if i != k {
        UpdatedNext(ms, m, ids, w.routes[i], before.routes[i]);
      } else {
        MapsNext(ms, m, m.name);
      }
    }
    forall j | |w.routes| <= j < |w'.routes| ensures CreatedRoute(w, all, ids, w'.routes[j], j - |w.routes|) {
      assert CreatedRoute(w, ms, ids, before.routes[j], j - |w.routes|);
      CreatedStays(w, ms, m, ids, before.routes[j], j - |w.routes|);
    }
    StillOnServer(before, w', all, m);
    forall x ensures RecordAfter(w, all, names, w', x) {
      assert RecordAfter(w, ms, names, before, x);
      MapsNext(ms, m, x);
    }
  }

  /** A step that keeps every name and adds that of `m` leaves all mapped names on the server. */
  lemma StillOnServer(before: World, w': World, all: seq<MappedRoute>, m: MappedRoute)
    requires |before.routes| <= |w'.routes|
    requires forall i :: 0 <= i < |before.routes| ==> w'.routes[i].name == before.routes[i].name
    requires forall x :: x in all ==> OnServer(before, x.name) || exists r :: r in w'.routes && r.name == x.name
    ensures forall x :: x in all ==> OnServer(w', x.name)
  {
    forall x | x in all ensures OnServer(w', x.name) {
      if OnServer(before, x.name) {
        var r :| r in before.routes && r.name == x.name;
        var i :| 0 <= i < |before.routes| && before.routes[i] == r;
        assert w'.routes[i] in w'.routes;
      }
    }
  }

  lemma UpsertCreates(w: World, ms: seq<MappedRoute>, m: MappedRoute, ids: map<string, Id>, names: seq<string>,
                      before: World)
    requires RoutesUpserted(w, ms, ids, names, before) && !Maps(ms, m.name) && !OnServer(w, m.name)
    ensures RoutesUpserted(w, ms + [m], ids, names, AddRoute(before, m.name, Resolve(m.dests, ids), names))
  {
    var all, w' := ms + [m], AddRoute(before, m.name, Resolve(m.dests, ids), names);
    forall i | 0 <= i < |w.routes| ensures UpdatedRoute(all, ids, w.routes[i], w'.routes[i]) {
      OldStays(w, ms, m, ids, before.routes, i);
    }
    forall j | |w.routes| <= j < |w'.routes| ensures CreatedRoute(w, all, ids, w'.routes[j], j - |w.routes|) {
      if j < |before.routes| {
        NewStays(w, ms, m, ids, before.routes, j);
      } else {
        CreatedHere(w, ms, m, ids, j - |w.routes|);
      }
    }
    forall i, j | |w.routes| <= i < j < |w'.routes| ensures w'.routes[i].name != w'.routes[j].name {
      assert CreatedRoute(w, ms, ids, before.routes[i], i - |w.routes|);
    }
    assert w'.routes[|before.routes|] in w'.routes;
    StillOnServer(before, w', all, m);
    forall x ensures RecordAfter(w, all, names, w', x) {
      assert RecordAfter(w, ms, names, before, x);
      RecordedHere(w, ms, m, ids, names, before, x);
    }
  }

  lemma OldStays(w: World, ms: seq<MappedRoute>, m: MappedRoute, ids: map<string, Id>, routes: seq<Route>, i: nat)
    requires i < |w.routes| <= |routes| && UpdatedRoute(ms, ids, w.routes[i], routes[i]) && !OnServer(w, m.name)
    ensures UpdatedRoute(ms + [m], ids, w.routes[i], routes[i])
  {
    assert w.routes[i] in w.routes;
    UpdatedNext(ms, m, ids, w.routes[i], routes[i]);
  }

  lemma NewStays(w: World, ms: seq<MappedRoute>, m: MappedRoute, ids: map<string, Id>, routes: seq<Route>, j: nat)
    requires |w.routes| <= j < |routes| && CreatedRoute(w, ms, ids, routes[j], j - |w.routes|) && !Maps(ms, m.name)
    ensures CreatedRoute(w, ms + [m], ids, routes[j], j - |w.routes|)
  {
    CreatedStays(w, ms, m, ids, routes[j], j - |w.routes|);
  }

  lemma CreatedHere(w: World, ms: seq<MappedRoute>, m: MappedRoute, ids: map<string, Id>, j: nat)
    requires !Maps(ms, m.name) && !OnServer(w, m.name)
    ensures CreatedRoute(w, ms + [m], ids, Route(w.nextId + j, m.name, Resolve(m.dests, ids)), j)
  {
    ResolvedRefers(m.dests, ids);
    MapsNext(ms, m, m.name);
  }

  lemma RecordedHere(w: World, ms: seq<MappedRoute>, m: MappedRoute, ids: map<string, Id>, names: seq<string>,
                     before: World, x: string)
    requires RecordAfter(w, ms, names, before, x) && !Maps(ms, m.name) && !OnServer(w, m.name)
    ensures RecordAfter(w, ms + [m], names, AddRoute(before, m.name, Resolve(m.dests, ids), names), x)
  {
    MapsNext(ms, m, x);
  }

  /** Names are where they were: the first route of a name is an old one exactly if the name was on the server. */
  lemma FoundWhere(w: World, ms: seq<MappedRoute>, m: MappedRoute, ids: map<string, Id>, names: seq<string>, before: World)
    requires ServerOk(w) && IsOwned(m.name) && RoutesUpserted(w, ms, ids, names, before) && !Maps(ms, m.name)
    ensures var k := FindRoute(before.routes, m.name, 0);
      if OnServer(w, m.name) then
        && k < |w.routes| && w.routes[k].name == m.name
        && forall i :: 0 <= i < |w.routes| && i != k ==> w.routes[i].name != m.name
      else k == |before.routes|
  {
    var k := FindRoute(before.routes, m.name, 0);
    forall i | 0 <= i < |w.routes| ensures before.routes[i].name == w.routes[i].name {
      assert UpdatedRoute(ms, ids, w.routes[i], before.routes[i]);
    }
    forall j | |w.routes| <= j < |before.routes| ensures before.routes[j].name != m.name {
      assert CreatedRoute(w, ms, ids, before.routes[j], j - |w.routes|);
    }
    if OnServer(w, m.name) {
      var r :| r in w.routes && r.name == m.name;
      var i :| 0 <= i < |w.routes| && w.routes[i] == r;
      assert before.routes[i].name == m.name;
    }
    assert k < |w.routes| ==> w.routes[k] in w.routes;
  }

  /** The whole effect of the route phase: every old route updated in place or left alone, one new route for each
      mapping whose name was not on the server, and exactly the new ones recorded. */
  lemma {:induction false} ApplyRoutesUpserts(w: World, ms: seq<MappedRoute>, ids: map<string, Id>, names: seq<string>)
    requires ServerOk(w) && DistinctNames(ms) && forall m :: m in ms ==> IsOwned(m.name)
    ensures RoutesUpserted(w, ms, ids, names, ApplyRoutes(w, ms, ids, names))
  {
    if ms != [] {
      var rest, m := ms[..|ms| - 1], ms[|ms| - 1];
      var before := ApplyRoutes(w, rest, ids, names);
      ApplyRoutesUpserts(w, rest, ids, names);
      assert ms == rest + [m] && !Maps(rest, m.name);
      FoundWhere(w, rest, m, ids, names, before);
      if OnServer(w, m.name) {
        UpsertUpdates(w, rest, m, ids, names, before, FindRoute(before.routes, m.name, 0));
      } else {
        UpsertCreates(w, rest, m, ids, names, before);
      }
    }
  }

  /** The destinations and routes of the mapping are on the server, before anything is deleted. */
  function Upserted(w: World, mapped: Mapped, ids: map<string, Id>): World {
    ApplyRoutes(AddMissing(w, mapped.destinations), mapped.routes, ids, mapped.destinations)
  }

  /** The server holds every mapped route, which forwards to the mapped destinations in order, and no other owned
      route under the group. */
  ghost predicate Settled(w: World, mapped: Mapped, ids: map<string, Id>) {
    && (DistinctNames(mapped.routes) ==> forall m :: m in mapped.routes ==> Forwards(w, m, ids))
    && (forall r :: r in w.routes && IsOwned(r.name) && HasPrefix(r.name, mapped.group + "/") ==>
          Maps(mapped.routes, r.name))
  }

  ghost predicate Forwards(w: World, m: MappedRoute, ids: map<string, Id>) {
    exists r :: r in w.routes && r.name == m.name && RefersTo(r.refs, m.dests, ids)
  }

  /** What a successful `ApplyHTTPRoute` leaves. */
  lemma ReconciledServer(w: World, mapped: Mapped, ids: map<string, Id>)
    ensures Settled(Reconciled(w, mapped, ids), mapped, ids)
    ensures Collected(Upserted(w, mapped, ids), mapped.group + "/", Desired(mapped), Reconciled(w, mapped, ids))
  {
    var prefix, desired, w2, w3 := mapped.group + "/", Desired(mapped), Upserted(w, mapped, ids), Reconciled(w, mapped, ids);
    CollectedServer(w2, prefix, desired);
    if DistinctNames(mapped.routes) {
      ApplyRoutesEffect(AddMissing(w, mapped.destinations), mapped.routes, ids, mapped.destinations);
      forall m | m in mapped.routes ensures Forwards(w3, m, ids) {
        var r :| r in w2.routes && r.name == m.name && r.refs == Resolve(m.dests, ids);
        ResolvedRefers(m.dests, ids);
        assert r in w3.routes;
      }
    }
    forall r | r in w3.routes && IsOwned(r.name) && HasPrefix(r.name, prefix) ensures Maps(mapped.routes, r.name) {
      assert !StaleRoute(r, prefix, desired);
    }
  }

  /** What the phases before the deletions leave. */
  lemma UpsertedServer(w: World, mapped: Mapped, ids: map<string, Id>)
    requires SafeInv(w) && DistinctNames(mapped.routes) && forall m :: m in mapped.routes ==> IsOwned(m.name)
    ensures MissingCreated(w, mapped.destinations, AddMissing(w, mapped.destinations))
    ensures RoutesUpserted(AddMissing(w, mapped.destinations), mapped.routes, ids, mapped.destinations,
                           Upserted(w, mapped, ids))
  {
    MissingAdded(w, mapped.destinations);
    MissingKeepsServer(w, mapped.destinations);
    ApplyRoutesUpserts(AddMissing(w, mapped.destinations), mapped.routes, ids, mapped.destinations);
  }

  lemma {:induction false} MissingKeepsServer(w: World, names: seq<string>)
    requires SafeInv(w)
    ensures SafeInv(AddMissing(w, names))
  {
    if names != [] {
      MissingKeepsServer(w, names[..|names| - 1]);
      AddDestinationKeepsBooks(AddMissing(w, names[..|names| - 1]), names[|names| - 1]);
    }
  }

  // ----- A run that is not safe -----

  /** Two owned routes, each counted for the one destination it references. */
  const EXAMPLE := World(map["A" := 1, "B" := 1], map["k8s:a/r" := ["A"], "k8s:b/r" := ["B"]],
                         [Route(2, "k8s:a/r", [0]), Route(3, "k8s:b/r", [1])],
                         [Destination(0, "A"), Destination(1, "B")], 4, {})

  lemma ExampleBooked()
    ensures Booked(EXAMPLE.counts, EXAMPLE.recorded)
  {
    TwoRecords("k8s:a/r", ["A"], "k8s:b/r", ["B"]);
  }

  lemma TwoRecords(x: string, xs: seq<string>, y: string, ys: seq<string>)
    requires x != y
    ensures Recorded(map[x := xs, y := ys]) == multiset(xs) + multiset(ys)
  {
    var m := map[x := xs, y := ys];
    RecordedRemove(m, x);
    RecordedRemove(m - {x}, y);
    assert m - {x} - {y} == map[];
  }

  lemma ExampleServer()
    ensures ServerOk(EXAMPLE) && CleanIds(EXAMPLE)
  {
  }

  lemma ExampleRoute(i: nat)
    requires i < 2
    ensures CleanRefs(EXAMPLE, EXAMPLE.routes[i]) && Covered(EXAMPLE, EXAMPLE.routes[i])
    ensures OnServer(EXAMPLE, EXAMPLE.routes[i].name)
  {
    assert EXAMPLE.routes[i] in EXAMPLE.routes;
  }

  lemma ExampleInStep()
    ensures BookInv(EXAMPLE) && Synced(EXAMPLE)
  {
    ExampleBooked();
    ExampleServer();
    ExampleRoute(0);
    ExampleRoute(1);
    assert forall r :: r in EXAMPLE.routes ==> r == EXAMPLE.routes[0] || r == EXAMPLE.routes[1];
  }

  /** The route to A now references B, and the route to B is gone. */
  const UPDATED := World(map["A" := 1], map["k8s:a/r" := ["A"]], [Route(2, "k8s:a/r", [1])],
                         [Destination(0, "A"), Destination(1, "B")], 4, {})

  lemma ExampleUpdated()
    ensures RemoveRoute(ReplaceRefs(EXAMPLE, 0, [1]), 1) == UPDATED
  {
    var w := ReplaceRefs(EXAMPLE, 0, [1]);
    assert ["B"][..0] == [];
    assert DecrementAll(w.counts, []) == w.counts;
    assert DecrementAll(w.counts, ["B"]) == Decrement(w.counts, "B") == UPDATED.counts;
    assert w.recorded - {"k8s:b/r"} == UPDATED.recorded;
    assert w.routes[..1] + w.routes[2..] == UPDATED.routes;
  }

  lemma ExampleUnsafe()
    ensures Count(UPDATED.counts, "B") == 0
    ensures RemoveIfUncounted(UPDATED, UPDATED.dests, "B") == RemoveDestination(UPDATED, 1)
    ensures !Clean(RemoveDestination(UPDATED, 1))
  {
    assert UPDATED.dests[1..][0] == Destination(1, "B");
    var r := UPDATED.routes[0];
    assert r in UPDATED.routes && 1 in r.refs && IsOwned(r.name);
    assert !CleanRefs(RemoveDestination(UPDATED, 1), r);
  }

  /** Why the hypothesis on updates is needed: from a state in step, route `k8s:a/r` is updated from A to B
      without refreshing its record; when the only counted user of B is deleted, B has count zero and is
      deleted under it. */
  lemma UnrecordedUpdateIsUnsafe()
    ensures BookInv(EXAMPLE) && Synced(EXAMPLE) && IsOwned(EXAMPLE.routes[0].name)
    ensures var removed := RemoveRoute(ReplaceRefs(EXAMPLE, 0, [1]), 1);
      && Count(removed.counts, "B") == 0
      && RemoveIfUncounted(removed, removed.dests, "B") == RemoveDestination(removed, 1)
      && !Clean(RemoveDestination(removed, 1))
  {
    ExampleInStep();
    ExampleUpdated();
    ExampleUnsafe();
  }

  // ----- Changes made by others -----

  /** The world after others left the server with these routes and destinations; a destination that is gone
      counts as deleted. */
  function Changed(w: World, routes: seq<Route>, dests: seq<Destination>, nextId: Id): World {
    w.(routes := routes, dests := dests, nextId := nextId, deleted := w.deleted + Vanished(w.dests, dests))
  }

  function Vanished(before: seq<Destination>, after: seq<Destination>): set<Id> {
    set d | d in before && (forall e :: e in after ==> e.id != d.id) :: d.id
  }

  /** The change leaves the server sane and every recorded route on it. */
  predicate Tolerated(recorded: map<string, seq<string>>, routes: seq<Route>, dests: seq<Destination>, nextId: Id) {
    ServerSane(routes, dests, nextId) && forall n :: n in recorded ==> exists r :: r in routes && r.name == n
  }

  lemma ToleratedKeepsBooks(w: World, routes: seq<Route>, dests: seq<Destination>, nextId: Id)
    requires BookInv(w) && Tolerated(w.recorded, routes, dests, nextId)
    ensures BookInv(Changed(w, routes, dests, nextId))
  {
    var w' := Changed(w, routes, dests, nextId);
    assert forall n :: OnServer(w', n) <==> exists r :: r in routes && r.name == n;
  }

  /** Others keep off what is the reconciler's: they add and change no owned route, do not rename, replace or
      delete a destination that one references, and no identifier is issued twice. */
  ghost predicate HandsOff(w: World, w': World) {
    && w.nextId <= w'.nextId
    && (forall r :: r in w'.routes && IsOwned(r.name) ==> r in w.routes)
    && (forall d :: d in w'.dests ==> d.id !in w'.deleted && (Referenced(w', d.id) ==> d in w.dests))
    && (forall u :: u in w'.deleted && u !in w.deleted ==> !Referenced(w', u))
  }

  /** An owned route references `u`. */
  ghost predicate Referenced(w: World, u: Id) {
    exists r :: r in w.routes && IsOwned(r.name) && u in r.refs
  }

  lemma HandsOffKeepsSync(w: World, routes: seq<Route>, dests: seq<Destination>, nextId: Id)
    requires SafeInv(w) && Synced(w) && HandsOff(w, Changed(w, routes, dests, nextId))
    ensures Synced(Changed(w, routes, dests, nextId))
  {
    var w' := Changed(w, routes, dests, nextId);
    forall r | r in w'.routes && IsOwned(r.name) ensures CleanRefs(w', r) && Covered(w', r) {
      assert CleanRefs(w, r) && Covered(w, r);
      assert forall u :: u in r.refs ==> Referenced(w', u);
    }
  }

  // ----- Calls that take effect although their response is lost -----

  /** `CreateRoute` took effect unanswered: the route is on the server, unrecorded. */
  function AddUnrecorded(w: World, name: string, refs: seq<Id>): World {
    w.(routes := w.routes + [Route(w.nextId, name, refs)], nextId := w.nextId + 1)
  }

  /** The books survive a lost answer to `CreateRoute`; the new route is not covered until the next restart. */
  lemma LostCreateKeepsBooks(w: World, name: string, refs: seq<Id>)
    requires SafeInv(w) && IsOwned(name) && !OnServer(w, name)
    ensures SafeInv(AddUnrecorded(w, name, refs))
    ensures BookInv(w) ==> BookInv(AddUnrecorded(w, name, refs)) && !Synced(AddUnrecorded(w, name, refs))
  {
    var w', r := AddUnrecorded(w, name, refs), Route(w.nextId, name, refs);
    assert w'.routes[|w.routes|] == r;
    if BookInv(w) {
      forall n | n in w.recorded ensures OnServer(w', n) {
        var q :| q in w.routes && q.name == n;
        assert q in w'.routes;
      }
      assert r in w'.routes && !Covered(w', r);
    }
  }

  /** `DeleteRoute` took effect unanswered: the route is gone, still counted and recorded. */
  function LoseRoute(w: World, i: nat): World
    requires i < |w.routes|
  {
    w.(routes := w.routes[..i] + w.routes[i + 1..])
  }

  /** A route gone unknown to the reconciler does no harm to safety. */
  lemma LoseRouteKeeps(w: World, i: nat)
    requires SafeInv(w) && i < |w.routes|
    ensures SafeInv(LoseRoute(w, i)) && (Synced(w) ==> Synced(LoseRoute(w, i)))
  {
    var w' := LoseRoute(w, i);
    assert RemoveRoute(w, i).routes == w'.routes;
    RemoveRouteKeepsServer(w, i);
    RemoveRouteMembers(w, i);
    if Synced(w) {
      forall r | r in w'.routes && IsOwned(r.name) ensures CleanRefs(w', r) && Covered(w', r) {
        assert CleanRefs(w, r) && Covered(w, r);
      }
    }
  }

  /** What a lost answer to `DeleteRoute` costs: the counts are still right, and stay right when the route is created
      again exactly if nothing was recorded for it; otherwise they are too high, never too low. */
  lemma LostDeleteThenCreate(w: World, i: nat, refs: seq<Id>, names: seq<string>)
    requires BookInv(w) && i < |w.routes| && IsOwned(w.routes[i].name)
    ensures var name, lost := w.routes[i].name, LoseRoute(w, i);
      var again := AddRoute(lost, name, refs, names);
      && Booked(lost.counts, lost.recorded) && !OnServer(lost, name)
      && (Booked(again.counts, again.recorded) <==> NamesOf(w.recorded, name) == [])
      && AtLeast(again.counts, again.recorded)
  {
    var name, lost := w.routes[i].name, LoseRoute(w, i);
    forall r | r in lost.routes ensures r.name != name {
      var j :| 0 <= j < |lost.routes| && lost.routes[j] == r;
      RemovedAt(w.routes, i, j);
    }
    RecordingKeepsBooksIff(w.counts, w.recorded, name, names);
    RecordingKeepsAtLeast(w.counts, w.recorded, name, names);
  }

  /** For example: the route to A is lost and created again, and A is counted twice for one record. */
  lemma LostDeleteExample()
    ensures var again := AddRoute(LoseRoute(EXAMPLE, 0), "k8s:a/r", [0], ["A"]);
      Count(again.counts, "A") == 2 && again.recorded == EXAMPLE.recorded && Recorded(again.recorded)["A"] == 1
  {
    var again := AddRoute(LoseRoute(EXAMPLE, 0), "k8s:a/r", [0], ["A"]);
    assert ["A"][..0] == [];
    assert IncrementAll(EXAMPLE.counts, []) == EXAMPLE.counts;
    assert IncrementAll(EXAMPLE.counts, ["A"]) == Increment(EXAMPLE.counts, "A");
    TwoRecords("k8s:a/r", ["A"], "k8s:b/r", ["B"]);
  }

  // ----- Going on after a failed restart -----

  /** An owned route to A that nothing records, as after a failed `Init`. */
  const UNRECORDED := World(map[], map[], [Route(1, "k8s:a/r", [0])], [Destination(0, "A")], 2, {})

  lemma UnrecordedStart()
    ensures BookInv(UNRECORDED) && Clean(UNRECORDED) && !Synced(UNRECORDED)
  {
    assert Recorded(map[]) == multiset{};
    var r := UNRECORDED.routes[0];
    assert r in UNRECORDED.routes && IsOwned(r.name) && !Covered(UNRECORDED, r);
  }

  lemma UnrecordedShared()
    ensures var w := RemoveRoute(AddRoute(UNRECORDED, "k8s:b/r", [0], ["A"]), 1);
      w.counts == map[] && w.routes == UNRECORDED.routes && w.dests == UNRECORDED.dests
  {
    var w := AddRoute(UNRECORDED, "k8s:b/r", [0], ["A"]);
    assert ["A"][..0] == [];
    assert IncrementAll(map[], []) == map[];
    assert w.counts == map["A" := 1];
    assert NamesOf(w.recorded, "k8s:b/r") == ["A"];
    assert DecrementAll(w.counts, []) == w.counts;
    assert DecrementAll(w.counts, ["A"]) == Decrement(w.counts, "A") == map[];
    assert w.routes[..1] + w.routes[2..] == UNRECORDED.routes;
  }

  /** Why a run must begin with a successful restart: a second route to A is created and deleted again, A has
      count zero and is deleted under the first, which was never recorded. */
  lemma FailedRestartIsUnsafe()
    ensures BookInv(UNRECORDED) && Clean(UNRECORDED)
    ensures var w := RemoveRoute(AddRoute(UNRECORDED, "k8s:b/r", [0], ["A"]), 1);
      && Count(w.counts, "A") == 0
      && RemoveIfUncounted(w, w.dests, "A") == RemoveDestination(w, 0)
      && !Clean(RemoveDestination(w, 0))
  {
    UnrecordedStart();
    UnrecordedShared();
    var w := RemoveRoute(AddRoute(UNRECORDED, "k8s:b/r", [0], ["A"]), 1);
    var r := UNRECORDED.routes[0];
    assert r in w.routes && 0 in r.refs && IsOwned(r.name);
    assert !CleanRefs(RemoveDestination(w, 0), r);
  }
}
