/** The reconciler's code: `Init`, `ApplyHTTPRoute` and `DeleteHTTPRoute` against an API whose every call
    may fail. Group and middleware calls touch neither routes nor destinations and appear only as calls
    that may fail. */
module Controller {
  import opened Basics
  import opened Reconciler

  function IndexOfId(routes: seq<Route>, id: Id, i: nat): (k: nat)
    requires i <= |routes|
    ensures i <= k <= |routes| && (k < |routes| ==> routes[k].id == id)
    ensures forall j :: i <= j < k ==> routes[j].id != id
    decreases |routes| - i
  {
    if i == |routes| || routes[i].id == id then i else IndexOfId(routes, id, i + 1)
  }

  /** The API client and the server behind it. Call number `n` fails when `faults(n)`. A failed call has taken
      effect all the same when `lost(n)`, or `lostCreates(n)` and `lostDeletes(n)` for `CreateRoute` and
      `DeleteRoute`: only its response is missing. */
  class Client {
    const faults: nat -> bool
    const lost: nat -> bool
    const lostCreates: nat -> bool
    const lostDeletes: nat -> bool
    var calls: nat
    var routes: seq<Route>
    var dests: seq<Destination>
    var nextId: Id
    ghost var deleted: set<Id>

    method Call() returns (ok: bool)
      modifies this`calls
      ensures ok == !faults(old(calls)) && calls == old(calls) + 1
    {
      ok := !faults(calls);
      calls := calls + 1;
    }

    ghost predicate CreatesAnswered() {
      forall n: nat :: !lostCreates(n)
    }

    ghost predicate DeletesAnswered() {
      forall n: nat :: !lostDeletes(n)
    }

    method ListRoutes() returns (r: Result<seq<Route>>)
      modifies this`calls
      ensures r == if faults(old(calls)) then Err else Ok(routes)
    {
      var ok := Call();
      r := if ok then Ok(routes) else Err;
    }

    method ListDestinations() returns (r: Result<seq<Destination>>)
      modifies this`calls
      ensures r == if faults(old(calls)) then Err else Ok(dests)
    {
      var ok := Call();
      r := if ok then Ok(dests) else Err;
    }

    method CreateRoute(name: string, refs: seq<Id>) returns (ok: bool)
      modifies this`calls, this`routes, this`nextId
      ensures ok == !faults(old(calls))
      ensures if ok || lostCreates(old(calls))
        then routes == old(routes) + [Route(old(nextId), name, refs)] && nextId == old(nextId) + 1
        else routes == old(routes) && nextId == old(nextId)
    {
      var n := calls;
      ok := Call();
      if ok || lostCreates(n) {
        routes := routes + [Route(nextId, name, refs)];
        nextId := nextId + 1;
      }
    }

    method UpdateRoute(id: Id, refs: seq<Id>) returns (ok: bool)
      modifies this`calls, this`routes
      ensures var i := IndexOfId(old(routes), id, 0);
        && ok == (!faults(old(calls)) && i < |old(routes)|)
        && routes == if i < |old(routes)| && (ok || lost(old(calls)))
             then old(routes)[i := old(routes)[i].(refs := refs)] else old(routes)
    {
      var n := calls;
      ok := Call();
      var i := IndexOfId(routes, id, 0);
      if (ok || lost(n)) && i < |routes| {
        routes := routes[i := routes[i].(refs := refs)];
      }
      ok := ok && i < |routes|;
    }

    method DeleteRoute(id: Id) returns (ok: bool)
      modifies this`calls, this`routes
      ensures var i := IndexOfId(old(routes), id, 0);
        && ok == (!faults(old(calls)) && i < |old(routes)|)
        && routes == if i < |old(routes)| && (ok || lostDeletes(old(calls)))
             then old(routes)[..i] + old(routes)[i + 1..] else old(routes)
    {
      var n := calls;
      ok := Call();
      var i := IndexOfId(routes, id, 0);
      ok := ok && i < |routes|;
      if (ok || lostDeletes(n)) && i < |routes| {
        routes := routes[..i] + routes[i + 1..];
      }
    }

    method CreateDestination(name: string) returns (ok: bool)
      modifies this`calls, this`dests, this`nextId
      ensures ok == !faults(old(calls))
      ensures if ok || lost(old(calls))
        then dests == old(dests) + [Destination(old(nextId), name)] && nextId == old(nextId) + 1
        else dests == old(dests) && nextId == old(nextId)
    {
      var n := calls;
      ok := Call();
      if ok || lost(n) {
        dests := dests + [Destination(nextId, name)];
        nextId := nextId + 1;
      }
    }

    method DeleteDestination(id: Id) returns (ok: bool)
      modifies this`calls, this`dests, this`deleted
      ensures ok == !faults(old(calls))
      ensures if ok || lost(old(calls))
        then dests == Without(old(dests), id) && deleted == old(deleted) + {id}
        else dests == old(dests) && deleted == old(deleted)
    {
      var n := calls;
      ok := Call();
      if ok || lost(n) {
        dests := Without(dests, id);
        deleted := deleted + {id};
      }
    }
  }

  /** The references of mapped routes that already exist stay within what is recorded for them. */
  ghost predicate UpdateWithin(w: World, m: MappedRoute, ids: set<string>) {
    m.name in w.recorded ==> forall n :: n in m.dests && n in ids ==> n in w.recorded[m.name]
  }

  ghost predicate AllWithin(w: World, ms: seq<MappedRoute>, ids: set<string>) {
    forall m :: m in ms ==> UpdateWithin(w, m, ids)
  }

  ghost predicate UpdatesWithin(w: World, mapped: Mapped) {
    AllWithin(w, mapped.routes, set n | n in mapped.destinations)
  }

  /** The mapper gives every route an owned name. */
  predicate OwnedNames(mapped: Mapped) {
    forall m :: m in mapped.routes ==> IsOwned(m.name)
  }

  class Controller {
    const client: Client
    var counts: Counts
    var routeDestMap: map<string, seq<string>>

    ghost function Value(): World
      reads this, client
    {
      World(counts, routeDestMap, client.routes, client.dests, client.nextId, client.deleted)
    }

    constructor (client: Client)
      ensures this.client == client && counts == map[] && routeDestMap == map[]
      ensures ServerOk(Value()) ==> BookInv(Value())
    {
      this.client := client;
      counts, routeDestMap := map[], map[];
    }

    method IncrementEach(names: seq<string>)
      modifies this`counts
      ensures counts == IncrementAll(old(counts), names)
    {
      for i := 0 to |names|
        invariant counts == IncrementAll(old(counts), names[..i])
      {
        counts := Increment(counts, names[i]);
        assert names[..i + 1][..i] == names[..i];
      }
      assert names[..|names|] == names;
    }

    method DecrementEach(names: seq<string>)
      modifies this`counts
      ensures counts == DecrementAll(old(counts), names)
    {
      for i := 0 to |names|
        invariant counts == DecrementAll(old(counts), names[..i])
      {
        counts := Decrement(counts, names[i]);
        assert names[..i + 1][..i] == names[..i];
      }
      assert names[..|names|] == names;
    }

    // ----- ApplyHTTPRoute, phase by phase -----

    method EnsureDestination(name: string) returns (ok: bool)
      requires SafeInv(Value())
      modifies client
      ensures SafeInv(Value()) && (old(Synced(Value())) ==> Synced(Value()))
      ensures old(BookInv(Value())) ==> BookInv(Value())
      ensures ok ==> Value() == AddIfMissing(old(Value()), name)
      ensures client.routes == old(client.routes)
    {
      ghost var w := Value();
      var listed := client.ListDestinations();
      if listed.Err? {
        return false;
      }
      if FirstNamed(listed.value, name).Ok? {
        return true;
      }
      AddDestinationKeepsBooks(w, name);
      if Synced(w) {
        AddDestinationKeepsSync(w, name);
      }
      ok := client.CreateDestination(name);
      assert Value() == AddDestination(w, name) || (!ok && Value() == w);
    }

    /** Step 1: create the destinations the server does not have yet. */
    method EnsureDestinations(names: seq<string>) returns (ok: bool)
      requires SafeInv(Value())
      modifies client
      ensures SafeInv(Value()) && (old(Synced(Value())) ==> Synced(Value()))
      ensures old(BookInv(Value())) ==> BookInv(Value())
      ensures ok ==> Value() == AddMissing(old(Value()), names)
      ensures client.routes == old(client.routes)
    {
      for i := 0 to |names|
        invariant SafeInv(Value()) && (old(Synced(Value())) ==> Synced(Value()))
        invariant old(BookInv(Value())) ==> BookInv(Value())
        invariant Value() == AddMissing(old(Value()), names[..i])
        invariant client.routes == old(client.routes)
      {
        assert names[..i + 1][..i] == names[..i];
        ok := EnsureDestination(names[i]);
        if !ok {
          return;
        }
      }
      assert names[..|names|] == names;
      return true;
    }

    /** The identifiers of these destinations, of a name's destinations the last listed, or an error when the listing
        fails or one is missing. */
    method ResolveDestinationIDs(names: seq<string>) returns (r: Result<map<string, Id>>)
      modifies client`calls
      ensures r.Err? <==> client.faults(old(client.calls)) || exists n :: n in names && FirstNamed(client.dests, n).Err?
      ensures r.Ok? ==> r.value.Keys == set n | n in names
      ensures r.Ok? ==> LastListed(client.dests, r.value)
    {
      var listed := client.ListDestinations();
      if listed.Err? {
        return Err;
      }
      var byName := IndexByName(listed.value);
      r := PickIds(names, byName);
      NameToIdLast(client.dests);
      forall n ensures n in byName <==> FirstNamed(client.dests, n).Ok? {
        NamedIffListed(client.dests, n);
      }
    }

    static method IndexByName(dests: seq<Destination>) returns (byName: map<string, Id>)
      ensures byName == NameToId(dests)
    {
      byName := map[];
      for i := 0 to |dests|
        invariant byName == NameToId(dests[..i])
      {
        assert dests[..i + 1][..i] == dests[..i];
        byName := byName[dests[i].name := dests[i].id];
      }
      assert dests[..|dests|] == dests;
    }

    static method PickIds(names: seq<string>, byName: map<string, Id>) returns (r: Result<map<string, Id>>)
      ensures r.Err? <==> exists n :: n in names && n !in byName
      ensures r.Ok? ==> r.value.Keys == set n | n in names
      ensures r.Ok? ==> forall n :: n in r.value ==> n in byName && r.value[n] == byName[n]
    {
      var result: map<string, Id> := map[];
      for i := 0 to |names|
        invariant result.Keys == set n | n in names[..i]
        invariant forall n :: n in result ==> n in byName && result[n] == byName[n]
      {
        if names[i] !in byName {
          return Err;
        }
        result := result[names[i] := byName[names[i]]];
        assert names[..i + 1] == names[..i] + [names[i]];
      }
      assert names[..|names|] == names;
      assert forall n :: n in names ==> n in result;
      return Ok(result);
    }

    /** One mapped route of step 3: create and record it, or update it. A failed call leaves everything as it
        was, or has taken effect on the server alone. */
    method ReconcileRoute(m: MappedRoute, ids: map<string, Id>, names: seq<string>) returns (ok: bool)
      requires SafeInv(Value())
      modifies this, client
      ensures ok ==> Value() == ApplyRoute(old(Value()), m, ids, names)
      ensures !ok ==> Value() == old(Value()) || Value() == Unanswered(old(Value()), m, ids)
      ensures !ok && client.CreatesAnswered() && !OnServer(old(Value()), m.name) ==> Value() == old(Value())
    {
      var refs := Resolve(m.dests, ids);
      var listed := client.ListRoutes();
      if listed.Err? {
        return false;
      }
      var k := FindRoute(listed.value, m.name, 0);
      if k == |listed.value| {
        ok := client.CreateRoute(m.name, refs);
        if ok {
          routeDestMap := routeDestMap[m.name := names];
          IncrementEach(names);
        }
      } else {
        IdAtIndex(client.routes, k);
        assert client.routes[k] in client.routes;
        ok := client.UpdateRoute(listed.value[k].id, refs);
      }
    }

    /** Step 3: create or update the mapped routes. */
    method ReconcileRoutes(ms: seq<MappedRoute>, ids: map<string, Id>, names: seq<string>) returns (ok: bool)
      requires SafeInv(Value()) && ResolvedIn(Value(), ids, names) && forall m :: m in ms ==> IsOwned(m.name)
      modifies this, client
      ensures SafeInv(Value()) && (old(BookInv(Value())) ==> BookInv(Value()))
      ensures old(Synced(Value())) && AllWithin(old(Value()), ms, ids.Keys) && client.CreatesAnswered() ==> Synced(Value())
      ensures ok ==> Value() == ApplyRoutes(old(Value()), ms, ids, names)
    {
      ghost var within := Synced(Value()) && AllWithin(Value(), ms, ids.Keys);
      for i := 0 to |ms|
        invariant SafeInv(Value()) && (old(BookInv(Value())) ==> BookInv(Value())) && ResolvedIn(Value(), ids, names)
        invariant Value() == ApplyRoutes(old(Value()), ms[..i], ids, names)
        invariant within ==> Synced(Value()) && AllWithin(Value(), ms, ids.Keys)
      {
        assert ms[..i + 1][..i] == ms[..i];
        ApplyRouteKeeps(Value(), ms[i], ids, names);
        UnansweredKeeps(Value(), ms[i], ids, names);
        ok := ReconcileRoute(ms[i], ids, names);
        if !ok {
          return;
        }
      }
      assert ms[..|ms|] == ms;
      return true;
    }

    /** Delete one route, uncount its recorded destinations and forget it. */
    method DeleteRoute(route: Route, ghost i: nat) returns (ok: bool, destNames: seq<string>)
      requires SafeInv(Value()) && i < |client.routes| && client.routes[i] == route
      modifies this, client
      ensures ok ==> Value() == RemoveRoute(old(Value()), i)
      ensures !ok ==> Value() == old(Value()) || (!client.DeletesAnswered() && Value() == LoseRoute(old(Value()), i))
      ensures destNames == NamesOf(old(routeDestMap), route.name)
    {
      destNames := if route.name in routeDestMap then routeDestMap[route.name] else [];
      IdAtIndex(client.routes, i);
      ok := client.DeleteRoute(route.id);
      if ok {
        DecrementEach(destNames);
        routeDestMap := routeDestMap - {route.name};
      }
    }

    method DeleteIfStale(route: Route, prefix: string, desired: set<string>, before: seq<string>, ghost at: nat)
      returns (ok: bool, check: seq<string>, ghost next: nat)
      requires SafeInv(Value()) && at < |client.routes| && client.routes[at] == route
      modifies this, client
      ensures SafeInv(Value()) && (old(Synced(Value())) ==> Synced(Value()))
      ensures old(BookInv(Value())) && client.DeletesAnswered() ==> BookInv(Value())
      ensures next <= |client.routes|
      ensures ok ==> client.routes[next..] == old(client.routes)[at + 1..]
      ensures ok ==> RemoveStale(Value(), prefix, desired, next) == RemoveStale(old(Value()), prefix, desired, at)
      ensures ok ==>
        check + StaleNames(Value(), prefix, desired, next) == before + StaleNames(old(Value()), prefix, desired, at)
    {
      next := at;
      if !StaleRoute(route, prefix, desired) {
        return true, before, at + 1;
      }
      RemoveRouteKeepsInv(Value(), at);
      LoseRouteKeeps(Value(), at);
      SameRest(client.routes, at, client.routes, at);
      var destNames;
      ok, destNames := DeleteRoute(route, at);
      check := before + destNames;
      if ok {
        Associative(before, destNames, StaleNames(Value(), prefix, desired, at));
      }
    }

    /** Step 5 of `ApplyHTTPRoute` and step 2 of `DeleteHTTPRoute`: delete the owned routes under a prefix that
        are not desired. `check` lists the destinations they recorded. */
    method DeleteRoutes(prefix: string, desired: set<string>) returns (ok: bool, check: seq<string>)
      requires SafeInv(Value())
      modifies this, client
      ensures SafeInv(Value()) && (old(Synced(Value())) ==> Synced(Value()))
      ensures old(BookInv(Value())) && client.DeletesAnswered() ==> BookInv(Value())
      ensures ok ==> Value() == RemoveStale(old(Value()), prefix, desired, 0)
      ensures ok ==> check == StaleNames(old(Value()), prefix, desired, 0)
    {
      check := [];
      var listed := client.ListRoutes();
      if listed.Err? {
        return false, check;
      }
      ghost var booked, synced := BookInv(Value()) && client.DeletesAnswered(), Synced(Value());
      ghost var at: nat := 0;
      for i := 0 to |listed.value|
        invariant SafeInv(Value()) && (synced ==> Synced(Value())) && (booked ==> BookInv(Value()))
        invariant at <= |client.routes| && listed.value[i..] == client.routes[at..]
        invariant RemoveStale(Value(), prefix, desired, at) == RemoveStale(old(Value()), prefix, desired, 0)
        invariant check + StaleNames(Value(), prefix, desired, at) == StaleNames(old(Value()), prefix, desired, 0)
      {
        SameRest(listed.value, i, client.routes, at);
        ok, check, at := DeleteIfStale(listed.value[i], prefix, desired, check, at);
        if !ok {
          return;
        }
      }
      return true, check;
    }

    method DeleteIfUncounted(listed: seq<Destination>, name: string) returns (ok: bool)
      requires SafeInv(Value()) && forall d :: d in listed && d.name == name ==> d in client.dests
      modifies client
      ensures SafeInv(Value()) && (old(Synced(Value())) ==> Synced(Value()))
      ensures old(BookInv(Value())) ==> BookInv(Value())
      ensures Value() == RemoveIfUncounted(old(Value()), listed, name) || (!ok && Value() == old(Value()))
      ensures forall d :: d in old(client.dests) && d.name != name ==> d in client.dests
    {
      ghost var w := Value();
      if Count(counts, name) > 0 {
        return true;
      }
      var found := FirstNamed(listed, name);
      if found.Err? {
        return true;
      }
      RemoveDestinationKeepsBooks(w, found.value.id);
      if Synced(w) {
        RemoveDestinationKeepsSync(w, found.value);
      }
      ok := client.DeleteDestination(found.value.id);
      assert Value() == RemoveDestination(w, found.value.id) || (!ok && Value() == w);
    }

    /** The last step of both: delete the listed destinations whose count is zero. */
    method DeleteUncounted(names: seq<string>) returns (ok: bool)
      requires SafeInv(Value())
      modifies client
      ensures SafeInv(Value()) && (old(Synced(Value())) ==> Synced(Value()))
      ensures old(BookInv(Value())) ==> BookInv(Value())
      ensures ok ==> Value() == RemoveUncounted(old(Value()), old(client.dests), Unique(names))
      ensures client.routes == old(client.routes)
    {
      var listed := client.ListDestinations();
      if listed.Err? {
        return false;
      }
      var todo := Unique(names);
      for i := 0 to |todo|
        invariant SafeInv(Value()) && (old(Synced(Value())) ==> Synced(Value()))
        invariant old(BookInv(Value())) ==> BookInv(Value())
        invariant Value() == RemoveUncounted(old(Value()), listed.value, todo[..i])
        invariant client.routes == old(client.routes)
        invariant forall d :: d in listed.value && d.name in todo[i..] ==> d in client.dests
      {
        assert todo[..i + 1][..i] == todo[..i];
        assert todo[i] == todo[i..][0] && todo[i + 1..] == todo[i..][1..];
        ok := DeleteIfUncounted(listed.value, todo[i]);
        if !ok {
          return;
        }
      }
      assert todo[..|todo|] == todo;
      return true;
    }

    /** The closing steps of both operations: stale routes, stale middlewares, unreferenced destinations. */
    method CollectStale(prefix: string, desired: set<string>, alwaysList: bool) returns (ok: bool)
      requires SafeInv(Value())
      modifies this, client
      ensures SafeInv(Value()) && (old(Synced(Value())) ==> Synced(Value()))
      ensures old(BookInv(Value())) && client.DeletesAnswered() ==> BookInv(Value())
      ensures ok ==> Value() == Collect(old(Value()), prefix, desired)
    {
      var check;
      ok, check := DeleteRoutes(prefix, desired);
      if !ok {
        return;
      }
      ok := client.Call();  // stale middlewares
      if !ok {
        return;
      }
      if alwaysList || |check| > 0 {
        ok := DeleteUncounted(check);
      }
    }

    /** The opening steps of `ApplyHTTPRoute`: destinations, middlewares and routes. */
    method UpsertRoutes(mapped: Mapped) returns (ok: bool, ghost ids: map<string, Id>)
      requires SafeInv(Value()) && OwnedNames(mapped)
      modifies this, client
      ensures SafeInv(Value()) && (old(BookInv(Value())) ==> BookInv(Value()))
      ensures old(Synced(Value())) && UpdatesWithin(old(Value()), mapped) && client.CreatesAnswered() ==> Synced(Value())
      ensures ok ==> ResolvedIn(AddMissing(old(Value()), mapped.destinations), ids, mapped.destinations)
      ensures ok ==> LastListed(AddMissing(old(Value()), mapped.destinations).dests, ids)
      ensures ok ==> Value() == Upserted(old(Value()), mapped, ids)
    {
      ids := map[];
      ok := EnsureDestinations(mapped.destinations);
      if !ok {
        return;
      }
      ok := client.Call();  // middlewares
      if !ok {
        return;
      }
      var resolved := ResolveDestinationIDs(mapped.destinations);
      if resolved.Err? {
        return false, ids;
      }
      ids := resolved.value;
      LastIsListed(client.dests, ids);
      ok := ReconcileRoutes(mapped.routes, resolved.value, mapped.destinations);
    }

    // ----- The operations -----

    method ApplyHTTPRoute(mapped: Mapped) returns (ok: bool)
      requires SafeInv(Value()) && OwnedNames(mapped)
      modifies this, client
      ensures SafeInv(Value())
      ensures old(BookInv(Value())) && client.DeletesAnswered() ==> BookInv(Value())
      ensures old(Synced(Value())) && UpdatesWithin(old(Value()), mapped) && client.CreatesAnswered() ==> Synced(Value())
      ensures ok ==> exists ids ::
        Value() == Reconciled(old(Value()), mapped, ids) && Applied(old(Value()), mapped, ids, Value())
    {
      ghost var ids;
      ok, ids := UpsertRoutes(mapped);
      if !ok {
        return;
      }
      ok := client.Call();  // group
      if !ok {
        return;
      }
      ok := CollectStale(mapped.group + "/", Desired(mapped), false);
      ReconciledApplies(old(Value()), mapped, ids);
    }

    method DeleteHTTPRoute(namespace: string, name: string) returns (ok: bool)
      requires SafeInv(Value())
      modifies this, client
      ensures SafeInv(Value()) && (old(Synced(Value())) ==> Synced(Value()))
      ensures old(BookInv(Value())) && client.DeletesAnswered() ==> BookInv(Value())
      ensures ok ==> Value() == Collect(old(Value()), GroupName(namespace, name) + "/", {})
      ensures ok ==> Collected(old(Value()), "k8s:" + namespace + "/" + name + "/", {}, Value())
    {
      ok := client.Call();  // group
      if !ok {
        return;
      }
      ok := CollectStale(GroupName(namespace, name) + "/", {}, true);
      CollectedServer(old(Value()), GroupName(namespace, name) + "/", {});
    }

    /** Rebuild the bookkeeping from the server. A failed call leaves everything as it was. */
    method Init() returns (ok: bool)
      requires ServerOk(Value())
      modifies this, client`calls
      ensures !ok ==> Value() == old(Value())
      ensures ok ==> BookInv(Value()) && (Clean(Value()) ==> Synced(Value()))
      ensures ok ==> forall n :: n in routeDestMap <==> exists r :: r in client.routes && IsOwned(r.name) && r.name == n
      ensures ok ==> forall r :: r in client.routes && IsOwned(r.name) ==>
        r.name in routeDestMap && AreValues(r.refs, NamedBy(IdToName(client.dests)), routeDestMap[r.name])
    {
      var routes := client.ListRoutes();
      if routes.Err? {
        return false;
      }
      var dests := client.ListDestinations();
      if dests.Err? {
        return false;
      }
      var idToName := IdToName(dests.value);
      counts, routeDestMap := map[], map[];
      for i := 0 to |routes.value|
        invariant Booked(counts, routeDestMap)
        invariant RecordedUpTo(routes.value, i, idToName, routeDestMap)
      {
        var route := routes.value[i];
        if IsOwned(route.name) {
          var names := LiveNames(route.refs, idToName);
          RecordNext(routes.value, i, idToName, routeDestMap);
          RecordingKeepsBooksIff(counts, routeDestMap, route.name, names);
          routeDestMap := routeDestMap[route.name := names];
          IncrementEach(names);
        }
      }
      InitSynced(Value(), idToName);
      return true;
    }
  }

  /** The destination names by identifier. */
  function IdToName(dests: seq<Destination>): (m: map<Id, string>)
    ensures forall u :: u in m ==> Destination(u, m[u]) in dests
    ensures forall d :: d in dests ==> d.id in m
  {
    if dests == [] then map[]
    else
      var d := dests[|dests| - 1];
      assert dests == dests[..|dests| - 1] + [d];
      IdToName(dests[..|dests| - 1])[d.id := d.name]
  }

  /** The names of the references that are live. */
  function LiveNames(refs: seq<Id>, idToName: map<Id, string>): (names: seq<string>)
    ensures forall u :: u in refs && u in idToName ==> idToName[u] in names
  {
    if refs == [] then []
    else
      var u := refs[|refs| - 1];
      var rest := LiveNames(refs[..|refs| - 1], idToName);
      assert refs == refs[..|refs| - 1] + [u];
      if u in idToName then rest + [idToName[u]] else rest
  }

  function NamedBy(idToName: map<Id, string>): Id -> Option<string> {
    u => if u in idToName then Some(idToName[u]) else None
  }

  /** The live names keep the order and the multiplicity of the references. */
  lemma {:induction false} LiveInOrder(refs: seq<Id>, idToName: map<Id, string>)
    ensures AreValues(refs, NamedBy(idToName), LiveNames(refs, idToName))
  {
    if refs == [] {
      NoValues(NamedBy(idToName));
    } else {
      LiveInOrder(refs[..|refs| - 1], idToName);
      LastValue(refs, NamedBy(idToName), LiveNames(refs[..|refs| - 1], idToName), LiveNames(refs, idToName));
    }
  }

  /** The identifiers by name: of several destinations of one name the last listed. */
  function NameToId(dests: seq<Destination>): map<string, Id> {
    if dests == [] then map[]
    else
      var d := dests[|dests| - 1];
      NameToId(dests[..|dests| - 1])[d.name := d.id]
  }

  lemma {:induction false} NameToIdLast(dests: seq<Destination>)
    ensures LastListed(dests, NameToId(dests))
    ensures forall d :: d in dests ==> d.name in NameToId(dests)
  {
    if dests != [] {
      var rest, d := dests[..|dests| - 1], dests[|dests| - 1];
      NameToIdLast(rest);
      LastListedNext(rest, d, NameToId(rest));
      assert dests == rest + [d];
    }
  }

  /** `id` belongs to the last destination listed under this name. */
  ghost predicate IsLastNamed(dests: seq<Destination>, n: string, id: Id) {
    exists k :: 0 <= k < |dests| && dests[k] == Destination(id, n) && forall j :: k < j < |dests| ==> dests[j].name != n
  }

  ghost predicate LastListed(dests: seq<Destination>, ids: map<string, Id>) {
    forall n :: n in ids ==> IsLastNamed(dests, n, ids[n])
  }

  lemma LastListedNext(dests: seq<Destination>, d: Destination, ids: map<string, Id>)
    requires LastListed(dests, ids)
    ensures LastListed(dests + [d], ids[d.name := d.id])
  {
    var all, ids' := dests + [d], ids[d.name := d.id];
    forall n | n in ids' ensures IsLastNamed(all, n, ids'[n]) {
      if n == d.name {
        assert all[|dests|] == Destination(d.id, n);
      } else {
        var k :| 0 <= k < |dests| && dests[k] == Destination(ids[n], n) && forall j :: k < j < |dests| ==> dests[j].name != n;
        assert all[k] == Destination(ids'[n], n);
      }
    }
  }

  lemma LastIsListed(dests: seq<Destination>, ids: map<string, Id>)
    requires LastListed(dests, ids)
    ensures forall n :: n in ids ==> Destination(ids[n], n) in dests
  {
    forall n | n in ids ensures Destination(ids[n], n) in dests {
      assert IsLastNamed(dests, n, ids[n]);
    }
  }

  lemma NamedIffListed(dests: seq<Destination>, n: string)
    ensures n in NameToId(dests) <==> FirstNamed(dests, n).Ok?
  {
    NameToIdLast(dests);
    LastIsListed(dests, NameToId(dests));
  }

  /** Exactly the owned routes among the first `i` are recorded, each with its live names. */
  ghost predicate RecordedUpTo(routes: seq<Route>, i: nat, idToName: map<Id, string>, recorded: map<string, seq<string>>)
    requires i <= |routes|
  {
    && (forall j :: 0 <= j < i && IsOwned(routes[j].name) ==>
          routes[j].name in recorded && recorded[routes[j].name] == LiveNames(routes[j].refs, idToName))
    && (forall n :: n in recorded ==> exists j :: 0 <= j < i && IsOwned(routes[j].name) && routes[j].name == n)
  }

  lemma RecordNext(routes: seq<Route>, i: nat, idToName: map<Id, string>, recorded: map<string, seq<string>>)
    requires i < |routes| && IsOwned(routes[i].name) && RecordedUpTo(routes, i, idToName, recorded)
    requires forall j, k :: 0 <= j < k < |routes| && IsOwned(routes[j].name) ==> routes[j].name != routes[k].name
    ensures routes[i].name !in recorded
    ensures RecordedUpTo(routes, i + 1, idToName, recorded[routes[i].name := LiveNames(routes[i].refs, idToName)])
  {
  }

  lemma InitSynced(w: World, idToName: map<Id, string>)
    requires ServerOk(w) && Booked(w.counts, w.recorded) && idToName == IdToName(w.dests)
    requires RecordedUpTo(w.routes, |w.routes|, idToName, w.recorded)
    ensures BookInv(w) && (Clean(w) ==> Synced(w))
    ensures forall n :: n in w.recorded <==> exists r :: r in w.routes && IsOwned(r.name) && r.name == n
    ensures forall r :: r in w.routes && IsOwned(r.name) ==>
      r.name in w.recorded && AreValues(r.refs, NamedBy(idToName), w.recorded[r.name])
  {
    forall r | r in w.routes && IsOwned(r.name)
      ensures r.name in w.recorded && AreValues(r.refs, NamedBy(idToName), w.recorded[r.name])
    {
      LiveInOrder(r.refs, idToName);
    }
    forall n | n in w.recorded ensures OnServer(w, n) {
      var j :| 0 <= j < |w.routes| && IsOwned(w.routes[j].name) && w.routes[j].name == n;
      assert w.routes[j] in w.routes;
    }
    forall r | r in w.routes && IsOwned(r.name) ensures Covered(w, r) {
      forall d | d in w.dests && d.id in r.refs ensures d.name in w.recorded[r.name] {
        assert Destination(d.id, idToName[d.id]) in w.dests;
      }
    }
  }

  function GroupName(namespace: string, name: string): string {
    "k8s:" + namespace + "/" + name
  }

  /** The identifiers are those of listed destinations, one for each of the names. */
  ghost predicate ResolvedIn(w: World, ids: map<string, Id>, names: seq<string>) {
    && (forall n :: n in ids ==> Destination(ids[n], n) in w.dests)
    && ids.Keys == set n | n in names
  }

  /** A whole successful `ApplyHTTPRoute`: the missing destinations are created, the names are resolved to the last
      listed destinations, the routes are created or updated, and the stale ones are collected. */
  ghost predicate Applied(w: World, mapped: Mapped, ids: map<string, Id>, w': World) {
    var w1, w2 := AddMissing(w, mapped.destinations), Upserted(w, mapped, ids);
    && MissingCreated(w, mapped.destinations, w1)
    && ResolvedIn(w1, ids, mapped.destinations) && LastListed(w1.dests, ids)
    && (DistinctNames(mapped.routes) ==> RoutesUpserted(w1, mapped.routes, ids, mapped.destinations, w2))
    && Collected(w2, mapped.group + "/", Desired(mapped), w') && Settled(w', mapped, ids)
  }

  lemma ReconciledApplies(w: World, mapped: Mapped, ids: map<string, Id>)
    requires SafeInv(w) && OwnedNames(mapped)
    requires ResolvedIn(AddMissing(w, mapped.destinations), ids, mapped.destinations)
    requires LastListed(AddMissing(w, mapped.destinations).dests, ids)
    ensures Applied(w, mapped, ids, Reconciled(w, mapped, ids))
  {
    MissingAdded(w, mapped.destinations);
    ReconciledServer(w, mapped, ids);
    if DistinctNames(mapped.routes) {
      UpsertedServer(w, mapped, ids);
    }
  }

  lemma SameRest(listed: seq<Route>, i: nat, routes: seq<Route>, at: nat)
    requires i < |listed| && at <= |routes| && listed[i..] == routes[at..]
    ensures at < |routes| && listed[i] == routes[at] && listed[i + 1..] == routes[at + 1..]
    ensures (routes[..at] + routes[at + 1..])[at..] == routes[at + 1..]
  {
    assert listed[i] == listed[i..][0] && listed[i + 1..] == listed[i..][1..];
    assert routes[at + 1..] == routes[at..][1..];
  }

  lemma RemoveRouteKeepsInv(w: World, i: nat)
    requires SafeInv(w) && i < |w.routes|
    ensures SafeInv(RemoveRoute(w, i)) && (BookInv(w) ==> BookInv(RemoveRoute(w, i)))
    ensures Synced(w) ==> Synced(RemoveRoute(w, i))
  {
    RemoveRouteKeepsBooks(w, i);
    if Synced(w) {
      RemoveRouteKeepsSync(w, i);
    }
  }

  lemma IdAtIndex(routes: seq<Route>, k: nat)
    requires k < |routes| && forall i, j :: 0 <= i < j < |routes| ==> routes[i].id != routes[j].id
    ensures IndexOfId(routes, routes[k].id, 0) == k
  {
  }

  lemma ApplyRouteKeeps(w: World, m: MappedRoute, ids: map<string, Id>, names: seq<string>)
    requires SafeInv(w) && IsOwned(m.name) && ResolvedIn(w, ids, names)
    ensures SafeInv(ApplyRoute(w, m, ids, names)) && (BookInv(w) ==> BookInv(ApplyRoute(w, m, ids, names)))
    ensures Synced(w) && UpdateWithin(w, m, ids.Keys) ==> Synced(ApplyRoute(w, m, ids, names))
    ensures forall o :: UpdateWithin(w, o, ids.Keys) ==> UpdateWithin(ApplyRoute(w, m, ids, names), o, ids.Keys)
  {
    var k, refs := FindRoute(w.routes, m.name, 0), Resolve(m.dests, ids);
    forall u | u in refs ensures exists d :: d in w.dests && d.id == u && d.name in names && d.name in m.dests {
      var n :| n in m.dests && n in ids && ids[n] == u;
      assert Destination(u, n) in w.dests;
    }
    if k == |w.routes| {
      assert !OnServer(w, m.name);
      AddRouteKeepsBooks(w, m.name, refs, names);
      if Synced(w) {
        AddRouteKeepsSync(w, m.name, refs, names);
      }
    } else {
      ReplaceRefsKeepsBooks(w, k, refs);
      if Synced(w) && UpdateWithin(w, m, ids.Keys) {
        assert w.routes[k] in w.routes && Covered(w, w.routes[k]);
        forall d | d in w.dests && d.id in refs ensures d.name in w.recorded[m.name] {
          var e :| e in w.dests && e.id == d.id && e.name in names && e.name in m.dests;
        }
        UpdateKeepsSyncIff(w, k, refs);
      }
    }
  }

  /** What a call of `ReconcileRoute` whose response is lost leaves on the server. */
  function Unanswered(w: World, m: MappedRoute, ids: map<string, Id>): World {
    var k := FindRoute(w.routes, m.name, 0);
    if k == |w.routes| then AddUnrecorded(w, m.name, Resolve(m.dests, ids))
    else ReplaceRefs(w, k, Resolve(m.dests, ids))
  }

  lemma UnansweredKeeps(w: World, m: MappedRoute, ids: map<string, Id>, names: seq<string>)
    requires SafeInv(w) && IsOwned(m.name) && ResolvedIn(w, ids, names)
    ensures SafeInv(Unanswered(w, m, ids)) && (BookInv(w) ==> BookInv(Unanswered(w, m, ids)))
    ensures OnServer(w, m.name) ==> Unanswered(w, m, ids) == ApplyRoute(w, m, ids, names)
  {
    var k := FindRoute(w.routes, m.name, 0);
    if k == |w.routes| {
      LostCreateKeepsBooks(w, m.name, Resolve(m.dests, ids));
    } else {
      ApplyRouteKeeps(w, m, ids, names);
    }
  }

  // ----- Whole runs -----

  /** An operation of the reconciler, or a change that others make to the server between two operations. */
  datatype Operation =
    | Restart
    | Apply(mapped: Mapped)
    | Delete(namespace: string, name: string)
    | External(routes: seq<Route>, dests: seq<Destination>, nextId: Id)

  /** What a run asks in order to stay in step: updates stay within the recorded destinations, and others keep
      off what is the reconciler's. */
  ghost predicate Permitted(w: World, op: Operation) {
    match op
    case Apply(mapped) => UpdatesWithin(w, mapped)
    case External(routes, dests, nextId) => HandsOff(w, Changed(w, routes, dests, nextId))
    case _ => true
  }

  /** Others leave every recorded route on the server. */
  predicate Tolerant(w: World, op: Operation) {
    op.External? ==> Tolerated(w.recorded, op.routes, op.dests, op.nextId)
  }

  /** Which answers are never lost. */
  datatype Answers = Answers(creates: bool, deletes: bool)

  /** `w'` may follow `w` under `op`, which succeeded or not. */
  ghost predicate Follows(w: World, op: Operation, ok: bool, answers: Answers, w': World) {
    && SafeInv(w')
    && (answers.deletes && BookInv(w) && Tolerant(w, op) ==> BookInv(w'))
    && (answers.creates && Synced(w) && Permitted(w, op) ==> Synced(w'))
    && (op.Restart? && ok ==> BookInv(w') && (Clean(w) ==> Synced(w')))
    && (op.External? ==> w' == if ok then Changed(w, op.routes, op.dests, op.nextId) else w)
  }

  /** A change by others; one that leaves the server insane is outside the model and not made. */
  method Interfere(c: Controller, routes: seq<Route>, dests: seq<Destination>, nextId: Id) returns (ok: bool)
    requires SafeInv(c.Value())
    modifies c.client
    ensures ok == ServerSane(routes, dests, nextId)
    ensures c.Value() == if ok then Changed(old(c.Value()), routes, dests, nextId) else old(c.Value())
    ensures SafeInv(c.Value())
  {
    ok := ServerSane(routes, dests, nextId);
    if ok {
      c.client.deleted := c.client.deleted + Vanished(c.client.dests, dests);
      c.client.routes, c.client.dests, c.client.nextId := routes, dests, nextId;
    }
  }

  ghost function AnswersOf(client: Client): Answers {
    Answers(client.CreatesAnswered(), client.DeletesAnswered())
  }

  method Operate(c: Controller, op: Operation) returns (ok: bool)
    requires SafeInv(c.Value()) && (op.Apply? ==> OwnedNames(op.mapped))
    modifies c, c.client
    ensures Follows(old(c.Value()), op, ok, AnswersOf(c.client), c.Value())
  {
    match op
    case Restart => ok := c.Init();
    case Apply(mapped) => ok := c.ApplyHTTPRoute(mapped);
    case Delete(namespace, name) => ok := c.DeleteHTTPRoute(namespace, name);
    case External(routes, dests, nextId) => ok := OperateExternal(c, routes, dests, nextId);
  }

  method OperateExternal(c: Controller, routes: seq<Route>, dests: seq<Destination>, nextId: Id) returns (ok: bool)
    requires SafeInv(c.Value())
    modifies c.client
    ensures Follows(old(c.Value()), External(routes, dests, nextId), ok, AnswersOf(c.client), c.Value())
  {
    ghost var w := c.Value();
    if Synced(w) && HandsOff(w, Changed(w, routes, dests, nextId)) {
      HandsOffKeepsSync(w, routes, dests, nextId);
    }
    if BookInv(w) && Tolerated(w.recorded, routes, dests, nextId) {
      ToleratedKeepsBooks(w, routes, dests, nextId);
    }
    ok := Interfere(c, routes, dests, nextId);
  }

  /** Any run of the operations, with failures and lost answers at any calls and changes by others in between.
      No destination is ever counted less often than recorded. The counts are exact from any state in which they
      are, or from a successful restart, as long as no answer to `DeleteRoute` is lost and others leave recorded
      routes alone. From any state in step, or from a successful restart on a clean server, no owned route
      references a deleted destination, as long as what follows is permitted and no answer to `CreateRoute` is lost. */
  method Run(c: Controller, ops: seq<Operation>) returns (oks: seq<bool>, ghost states: seq<World>)
    requires SafeInv(c.Value()) && forall op :: op in ops && op.Apply? ==> OwnedNames(op.mapped)
    modifies c, c.client
    ensures |states| == |ops| + 1 && |oks| == |ops| && states[0] == old(c.Value()) && states[|ops|] == c.Value()
    ensures forall i :: 0 <= i <= |ops| ==> SafeInv(states[i])
    ensures c.client.DeletesAnswered() ==>
      forall i, j :: 0 <= i <= j <= |ops| && BookedFrom(states, ops, oks, i) && TolerantFrom(states, ops, i, j) ==>
        BookInv(states[j])
    ensures c.client.CreatesAnswered() ==>
      forall i, j :: 0 <= i <= j <= |ops| && InStepFrom(states, ops, oks, i) && PermittedFrom(states, ops, i, j) ==>
        Synced(states[j]) && Clean(states[j])
  {
    ghost var answers := AnswersOf(c.client);
    oks, states := [], [c.Value()];
    for i := 0 to |ops|
      invariant SafeInv(c.Value())
      invariant |states| == i + 1 && |oks| == i && states[0] == old(c.Value()) && states[i] == c.Value()
      invariant forall j :: 0 <= j <= i ==> SafeInv(states[j])
      invariant forall j :: 0 <= j < i ==> Follows(states[j], ops[j], oks[j], answers, states[j + 1])
    {
      var ok := Operate(c, ops[i]);
      oks, states := oks + [ok], states + [c.Value()];
    }
    RunStays(states, ops, oks, answers);
  }

  ghost predicate IsRun(states: seq<World>, ops: seq<Operation>, oks: seq<bool>, answers: Answers) {
    && |states| == |ops| + 1 && |oks| == |ops|
    && forall k :: 0 <= k < |ops| ==> Follows(states[k], ops[k], oks[k], answers, states[k + 1])
  }

  lemma RunStays(states: seq<World>, ops: seq<Operation>, oks: seq<bool>, answers: Answers)
    requires IsRun(states, ops, oks, answers)
    ensures answers.deletes ==>
      forall i, j :: 0 <= i <= j <= |ops| && BookedFrom(states, ops, oks, i) && TolerantFrom(states, ops, i, j) ==>
        BookInv(states[j])
    ensures answers.creates ==>
      forall i, j :: 0 <= i <= j <= |ops| && InStepFrom(states, ops, oks, i) && PermittedFrom(states, ops, i, j) ==>
        Synced(states[j]) && Clean(states[j])
  {
    if answers.deletes {
      forall i, j | 0 <= i <= j <= |ops| && BookedFrom(states, ops, oks, i) && TolerantFrom(states, ops, i, j)
        ensures BookInv(states[j])
      {
        StaysBooked(states, ops, oks, answers, i, j);
      }
    }
    if answers.creates {
      forall i, j | 0 <= i <= j <= |ops| && InStepFrom(states, ops, oks, i) && PermittedFrom(states, ops, i, j)
        ensures Synced(states[j]) && Clean(states[j])
      {
        StaysInStep(states, ops, oks, answers, i, j);
      }
    }
  }

  /** The counts of state `i` are exact, or it follows a successful restart. */
  ghost predicate BookedFrom(states: seq<World>, ops: seq<Operation>, oks: seq<bool>, i: nat)
    requires |states| == |ops| + 1 && |oks| == |ops| && i <= |ops|
  {
    BookInv(states[i]) || (i > 0 && ops[i - 1].Restart? && oks[i - 1])
  }

  ghost predicate TolerantFrom(states: seq<World>, ops: seq<Operation>, i: nat, j: nat)
    requires |states| == |ops| + 1 && i <= j <= |ops|
  {
    forall k :: i <= k < j ==> Tolerant(states[k], ops[k])
  }

  /** State `i` is in step, or follows a successful restart on a clean server. */
  ghost predicate InStepFrom(states: seq<World>, ops: seq<Operation>, oks: seq<bool>, i: nat)
    requires |states| == |ops| + 1 && |oks| == |ops| && i <= |ops|
  {
    Synced(states[i]) || (i > 0 && ops[i - 1].Restart? && oks[i - 1] && Clean(states[i - 1]))
  }

  ghost predicate PermittedFrom(states: seq<World>, ops: seq<Operation>, i: nat, j: nat)
    requires |states| == |ops| + 1 && i <= j <= |ops|
  {
    forall k :: i <= k < j ==> Permitted(states[k], ops[k])
  }

  lemma {:induction false} StaysBooked(states: seq<World>, ops: seq<Operation>, oks: seq<bool>, answers: Answers, i: nat, j: nat)
    requires IsRun(states, ops, oks, answers) && answers.deletes && i <= j <= |ops|
    requires BookedFrom(states, ops, oks, i) && TolerantFrom(states, ops, i, j)
    ensures BookInv(states[j])
    decreases j - i
  {
    if i < j {
      StaysBooked(states, ops, oks, answers, i, j - 1);
      assert Tolerant(states[j - 1], ops[j - 1]);
      assert Follows(states[j - 1], ops[j - 1], oks[j - 1], answers, states[j - 1 + 1]);
    } else if i > 0 {
      assert Follows(states[i - 1], ops[i - 1], oks[i - 1], answers, states[i - 1 + 1]);
    }
  }

  lemma {:induction false} StaysInStep(states: seq<World>, ops: seq<Operation>, oks: seq<bool>, answers: Answers, i: nat, j: nat)
    requires IsRun(states, ops, oks, answers) && answers.creates && i <= j <= |ops|
    requires InStepFrom(states, ops, oks, i) && PermittedFrom(states, ops, i, j)
    ensures Synced(states[j]) && Clean(states[j])
    decreases j - i
  {
    if i < j {
      StaysInStep(states, ops, oks, answers, i, j - 1);
      assert Permitted(states[j - 1], ops[j - 1]);
      assert Follows(states[j - 1], ops[j - 1], oks[j - 1], answers, states[j - 1 + 1]);
    } else if i > 0 {
      assert Follows(states[i - 1], ops[i - 1], oks[i - 1], answers, states[i - 1 + 1]);
    }
  }
}
