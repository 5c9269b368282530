/** The route detector: registration, removal, and what checking routes one after another reports. */
module Dedup {
  import opened Basics
  import opened Overlap

  datatype Match = Match(pathType: string, pathValue: string, verb: string, headers: seq<Header>)
  datatype HTTPRoute = HTTPRoute(name: string, namespace: string, hostnames: seq<string>, rules: seq<seq<Match>>)
  datatype Conflict = Conflict(incoming: Entry, existing: Entry)
  type Table = map<string, seq<Entry>>

  function SourceOf(namespace: string, name: string): string {
    namespace + "/" + name
  }

  // ----- The entries of a route, in registration order -----

  const CATCH_ALL := [Match("PathPrefix", "/", "", [])]

  function HostsOf(route: HTTPRoute): seq<string> {
    if route.hostnames == [] then ["*"] else route.hostnames
  }

  function EntryOf(m: Match, host: string, source: string): Entry {
    Entry(m.pathValue, m.pathType, host, m.headers, m.verb, source)
  }

  function MatchEntries(m: Match, hosts: seq<string>, source: string): seq<Entry> {
    if hosts == [] || m.pathType == "RegularExpression" then []
    else MatchEntries(m, hosts[..|hosts| - 1], source) + [EntryOf(m, hosts[|hosts| - 1], source)]
  }

  function RuleEntries(matches: seq<Match>, hosts: seq<string>, source: string): seq<Entry> {
    if matches == [] then []
    else RuleEntries(matches[..|matches| - 1], hosts, source) + MatchEntries(matches[|matches| - 1], hosts, source)
  }

  function MatchesOf(rule: seq<Match>): seq<Match> {
    if rule == [] then CATCH_ALL else rule
  }

  function RulesEntries(rules: seq<seq<Match>>, hosts: seq<string>, source: string): seq<Entry> {
    if rules == [] then []
    else RulesEntries(rules[..|rules| - 1], hosts, source) + RuleEntries(MatchesOf(rules[|rules| - 1]), hosts, source)
  }

  function EntriesOf(route: HTTPRoute): seq<Entry> {
    RulesEntries(route.rules, HostsOf(route), SourceOf(route.namespace, route.name))
  }

  /** The entry has the path, type, headers and method of this match. */
  predicate Describes(m: Match, e: Entry) {
    && m.pathType != "RegularExpression"
    && e.path == m.pathValue && e.pathType == m.pathType && e.headers == m.headers && e.verb == m.verb
  }

  /** Some match of the rule gives the entry; a rule without matches stands for the prefix `/`. */
  ghost predicate ByRule(rule: seq<Match>, e: Entry) {
    if rule == [] then e.path == "/" && e.pathType == "PathPrefix" && e.headers == [] && e.verb == ""
    else exists m :: m in rule && Describes(m, e)
  }

  predicate OnHost(hostnames: seq<string>, e: Entry) {
    if hostnames == [] then e.hostname == "*" else e.hostname in hostnames
  }

  /** A route registers exactly the entries that one of its rules describes on one of its hosts. */
  lemma EntriesExact(route: HTTPRoute, e: Entry)
    ensures e in EntriesOf(route) <==>
      && OnHost(route.hostnames, e) && e.source == route.namespace + "/" + route.name
      && exists rule :: rule in route.rules && ByRule(rule, e)
  {
    RulesEntriesExact(route.rules, HostsOf(route), SourceOf(route.namespace, route.name), e);
  }

  lemma {:induction false} MatchEntriesExact(m: Match, hosts: seq<string>, source: string, e: Entry)
    ensures e in MatchEntries(m, hosts, source) <==> Describes(m, e) && e.hostname in hosts && e.source == source
  {
    if hosts != [] {
      MatchEntriesExact(m, hosts[..|hosts| - 1], source, e);
      assert hosts == hosts[..|hosts| - 1] + [hosts[|hosts| - 1]];
    }
  }

  lemma {:induction false} RuleEntriesExact(matches: seq<Match>, hosts: seq<string>, source: string, e: Entry)
    ensures e in RuleEntries(matches, hosts, source) <==>
      (exists m :: m in matches && Describes(m, e)) && e.hostname in hosts && e.source == source
  {
    if matches != [] {
      var rest, last := matches[..|matches| - 1], matches[|matches| - 1];
      RuleEntriesExact(rest, hosts, source, e);
      MatchEntriesExact(last, hosts, source, e);
      assert matches == rest + [last];
      assert (exists m :: m in matches && Describes(m, e)) <==>
        (exists m :: m in rest && Describes(m, e)) || Describes(last, e);
    }
  }

  lemma OneRuleExact(rule: seq<Match>, hosts: seq<string>, source: string, e: Entry)
    ensures e in RuleEntries(MatchesOf(rule), hosts, source) <==>
      ByRule(rule, e) && e.hostname in hosts && e.source == source
  {
    RuleEntriesExact(MatchesOf(rule), hosts, source, e);
    if rule == [] {
      assert CATCH_ALL[0] in CATCH_ALL;
    }
  }

  lemma {:induction false} RulesEntriesExact(rules: seq<seq<Match>>, hosts: seq<string>, source: string, e: Entry)
    ensures e in RulesEntries(rules, hosts, source) <==>
      (exists rule :: rule in rules && ByRule(rule, e)) && e.hostname in hosts && e.source == source
  {
    if rules != [] {
      var rest, last := rules[..|rules| - 1], rules[|rules| - 1];
      RulesEntriesExact(rest, hosts, source, e);
      OneRuleExact(last, hosts, source, e);
      assert rules == rest + [last];
      assert (exists rule :: rule in rules && ByRule(rule, e)) <==>
        (exists rule :: rule in rest && ByRule(rule, e)) || ByRule(last, e);
    }
  }

  /** Entries come rule by rule and match by match, and for one match host by host. */
  lemma {:induction false} RulesInOrder(rules: seq<seq<Match>>, i: nat, hosts: seq<string>, source: string)
    requires i <= |rules|
    ensures RulesEntries(rules[..i], hosts, source) <= RulesEntries(rules, hosts, source)
  {
    if i == |rules| {
      assert rules[..i] == rules;
    } else {
      var rest := rules[..|rules| - 1];
      RulesInOrder(rest, i, hosts, source);
      assert rest[..i] == rules[..i];
    }
  }

  lemma {:induction false} MatchesInOrder(matches: seq<Match>, i: nat, hosts: seq<string>, source: string)
    requires i <= |matches|
    ensures RuleEntries(matches[..i], hosts, source) <= RuleEntries(matches, hosts, source)
  {
    if i == |matches| {
      assert matches[..i] == matches;
    } else {
      var rest := matches[..|matches| - 1];
      MatchesInOrder(rest, i, hosts, source);
      assert rest[..i] == matches[..i];
    }
  }

  lemma {:induction false} HostsInOrder(m: Match, hosts: seq<string>, source: string, j: nat)
    requires m.pathType != "RegularExpression" && j < |hosts|
    ensures |MatchEntries(m, hosts, source)| == |hosts| && MatchEntries(m, hosts, source)[j].hostname == hosts[j]
  {
    if |hosts| > 1 {
      var rest := hosts[..|hosts| - 1];
      HostsInOrder(m, rest, source, if j < |rest| then j else 0);
    }
  }

  // ----- Registration as a function of the table -----

  function At(table: Table, host: string): seq<Entry> {
    if host in table then table[host] else []
  }

  function Register(table: Table, e: Entry): Table {
    table[e.hostname := At(table, e.hostname) + [e]]
  }

  function Registered(table: Table, es: seq<Entry>): Table {
    if es == [] then table else Register(Registered(table, es[..|es| - 1]), es[|es| - 1])
  }

  /** Two entries that the detector reports when the second arrives. */
  predicate Conflicting(existing: Entry, incoming: Entry, cases: Cases) {
    && existing.source != incoming.source
    && existing.pathType != "RegularExpression" && incoming.pathType != "RegularExpression"
    && EntriesOverlap(existing, incoming, cases)
  }

  function Against(existing: seq<Entry>, e: Entry, cases: Cases): seq<Conflict> {
    if existing == [] then []
    else
      var x := existing[|existing| - 1];
      Against(existing[..|existing| - 1], e, cases) + (if Conflicting(x, e, cases) then [Conflict(e, x)] else [])
  }

  /** The table and the overlaps collected so far. */
  datatype Outcome = Outcome(table: Table, overlaps: seq<Conflict>)

  function Process(o: Outcome, e: Entry, cases: Cases): Outcome {
    Outcome(Register(o.table, e), o.overlaps + Against(At(o.table, e.hostname), e, cases))
  }

  function Processed(o: Outcome, es: seq<Entry>, cases: Cases): Outcome {
    if es == [] then o else Process(Processed(o, es[..|es| - 1], cases), es[|es| - 1], cases)
  }

  lemma ProcessedLast(o: Outcome, s: seq<Entry>, e: Entry, cases: Cases)
    ensures Processed(o, s + [e], cases) == Process(Processed(o, s, cases), e, cases)
  {
    assert (s + [e])[..|s|] == s;
  }

  lemma LastOfConcat<T>(s: seq<T>, t: seq<T>)
    requires t != []
    ensures s + t == (s + t[..|t| - 1]) + [t[|t| - 1]]
  {
  }

  lemma {:induction false} ProcessedConcat(o: Outcome, s: seq<Entry>, t: seq<Entry>, cases: Cases)
    ensures Processed(o, s + t, cases) == Processed(Processed(o, s, cases), t, cases)
  {
    if t == [] {
      assert s + t == s;
    } else {
      var r, e := t[..|t| - 1], t[|t| - 1];
      ProcessedConcat(o, s, r, cases);
      ProcessedLast(o, s + r, e, cases);
      LastOfConcat(s, t);
    }
  }

  lemma ProcessedMatch(o: Outcome, matches: seq<Match>, i: nat, hosts: seq<string>, source: string, cases: Cases)
    requires i < |matches|
    ensures Processed(o, RuleEntries(matches[..i + 1], hosts, source), cases) ==
      Processed(Processed(o, RuleEntries(matches[..i], hosts, source), cases), MatchEntries(matches[i], hosts, source), cases)
  {
    assert matches[..i + 1][..i] == matches[..i];
    ProcessedConcat(o, RuleEntries(matches[..i], hosts, source), MatchEntries(matches[i], hosts, source), cases);
  }

  lemma ProcessedRule(o: Outcome, rules: seq<seq<Match>>, i: nat, hosts: seq<string>, source: string, cases: Cases)
    requires i < |rules|
    ensures Processed(o, RulesEntries(rules[..i + 1], hosts, source), cases) ==
      Processed(Processed(o, RulesEntries(rules[..i], hosts, source), cases),
        RuleEntries(MatchesOf(rules[i]), hosts, source), cases)
  {
    assert rules[..i + 1][..i] == rules[..i];
    ProcessedConcat(o, RulesEntries(rules[..i], hosts, source), RuleEntries(MatchesOf(rules[i]), hosts, source), cases);
  }

  // ----- The detector -----

  class Detector {
    var byHost: Table
    const cases: Cases

    constructor (cases: Cases)
      ensures byHost == map[] && this.cases == cases
    {
      byHost := map[];
      this.cases := cases;
    }

    method FindOverlaps(e: Entry) returns (result: seq<Conflict>)
      ensures result == Against(At(byHost, e.hostname), e, cases)
    {
      var existing := if e.hostname in byHost then byHost[e.hostname] else [];
      result := [];
      for i := 0 to |existing|
        invariant result == Against(existing[..i], e, cases)
      {
        assert existing[..i + 1][..i] == existing[..i];
        var x := existing[i];
        if x.source != e.source {
          if !(x.pathType == "RegularExpression" || e.pathType == "RegularExpression") {
            if EntriesOverlap(x, e, cases) {
              result := result + [Conflict(e, x)];
            }
          }
        }
      }
      assert existing[..|existing|] == existing;
    }

    method CheckEntry(e: Entry, before: seq<Conflict>) returns (overlaps: seq<Conflict>)
      modifies this`byHost
      ensures Outcome(byHost, overlaps) == Process(Outcome(old(byHost), before), e, cases)
    {
      var ols := FindOverlaps(e);
      overlaps := before + ols;
      var at := if e.hostname in byHost then byHost[e.hostname] else [];
      byHost := byHost[e.hostname := at + [e]];
    }

    method CheckMatch(m: Match, hosts: seq<string>, source: string, before: seq<Conflict>)
      returns (overlaps: seq<Conflict>)
      modifies this`byHost
      ensures Outcome(byHost, overlaps) ==
        Processed(Outcome(old(byHost), before), MatchEntries(m, hosts, source), cases)
    {
      overlaps := before;
      if m.pathType == "RegularExpression" {
        return;
      }
      ghost var start := Outcome(byHost, before);
      for i := 0 to |hosts|
        invariant Outcome(byHost, overlaps) == Processed(start, MatchEntries(m, hosts[..i], source), cases)
      {
        assert hosts[..i + 1][..i] == hosts[..i];
        var e := Entry(m.pathValue, m.pathType, hosts[i], m.headers, m.verb, source);
        ProcessedLast(start, MatchEntries(m, hosts[..i], source), e, cases);
        overlaps := CheckEntry(e, overlaps);
      }
      assert hosts[..|hosts|] == hosts;
    }

    method CheckRule(rule: seq<Match>, hosts: seq<string>, source: string, before: seq<Conflict>)
      returns (overlaps: seq<Conflict>)
      modifies this`byHost
      ensures Outcome(byHost, overlaps) ==
        Processed(Outcome(old(byHost), before), RuleEntries(MatchesOf(rule), hosts, source), cases)
    {
      var matches := rule;
      if |matches| == 0 {
        matches := CATCH_ALL;
      }
      overlaps := before;
      ghost var start := Outcome(byHost, before);
      for i := 0 to |matches|
        invariant Outcome(byHost, overlaps) == Processed(start, RuleEntries(matches[..i], hosts, source), cases)
      {
        ProcessedMatch(start, matches, i, hosts, source, cases);
        overlaps := CheckMatch(matches[i], hosts, source, overlaps);
      }
      assert matches[..|matches|] == matches;
    }

    method CheckRules(rules: seq<seq<Match>>, hosts: seq<string>, source: string) returns (overlaps: seq<Conflict>)
      modifies this`byHost
      ensures Outcome(byHost, overlaps) == Processed(Outcome(old(byHost), []), RulesEntries(rules, hosts, source), cases)
    {
      overlaps := [];
      ghost var start := Outcome(byHost, []);
      for i := 0 to |rules|
        invariant Outcome(byHost, overlaps) == Processed(start, RulesEntries(rules[..i], hosts, source), cases)
      {
        ProcessedRule(start, rules, i, hosts, source, cases);
        overlaps := CheckRule(rules[i], hosts, source, overlaps);
      }
      assert rules[..|rules|] == rules;
    }

    /** Reports exactly the entries of other routes, registered before the call, that overlap one of this route's. */
    method Check(input: HTTPRoute) returns (overlaps: seq<Conflict>)
      modifies this`byHost
      ensures byHost == Registered(old(byHost), EntriesOf(input))
      ensures overlaps == AgainstEach(old(byHost), EntriesOf(input), cases)
    {
      var source := SourceOf(input.namespace, input.name);
      var hosts := input.hostnames;
      if |hosts| == 0 {
        hosts := ["*"];
      }
      overlaps := CheckRules(input.rules, hosts, source);
      EntriesShareSource(input);
      OwnEntriesIgnored(old(byHost), EntriesOf(input), source, cases);
    }

    static method KeepOthers(entries: seq<Entry>, source: string) returns (kept: seq<Entry>)
      ensures kept == Kept(entries, source)
    {
      kept := [];
      for i := 0 to |entries|
        invariant kept == Kept(entries[..i], source)
      {
        assert entries[..i + 1][..i] == entries[..i];
        if entries[i].source != source {
          kept := kept + [entries[i]];
        }
      }
      assert entries[..|entries|] == entries;
    }

    method Remove(namespace: string, name: string)
      modifies this`byHost
      ensures byHost == Without(old(byHost), SourceOf(namespace, name))
    {
      var source := SourceOf(namespace, name);
      var todo := byHost.Keys;
      while todo != {}
        invariant todo <= byHost.Keys <= old(byHost).Keys
        invariant forall h :: h in todo ==> byHost[h] == old(byHost)[h]
        invariant forall h :: h in old(byHost).Keys - todo ==> At(byHost, h) == Kept(old(byHost)[h], source)
        invariant forall h :: h in byHost && h !in todo ==> byHost[h] != []
      {
        var h :| h in todo;
        todo := todo - {h};
        var kept := KeepOthers(byHost[h], source);
        if |kept| == 0 {
          byHost := byHost - {h};
        } else {
          byHost := byHost[h := kept];
        }
      }
    }

    method Reset()
      modifies this`byHost
      ensures byHost == map[]
    {
      byHost := map[];
    }
  }

  // ----- What Check reports -----

  /** Every entry of `es` against the table as it was before any of them. */
  function AgainstEach(table: Table, es: seq<Entry>, cases: Cases): seq<Conflict> {
    if es == [] then []
    else
      var e := es[|es| - 1];
      AgainstEach(table, es[..|es| - 1], cases) + Against(At(table, e.hostname), e, cases)
  }

  predicate AllFrom(es: seq<Entry>, source: string) {
    forall e :: e in es ==> e.source == source
  }

  lemma {:induction false} MatchEntriesFrom(m: Match, hosts: seq<string>, source: string)
    ensures AllFrom(MatchEntries(m, hosts, source), source)
  {
    if hosts != [] {
      MatchEntriesFrom(m, hosts[..|hosts| - 1], source);
    }
  }

  lemma {:induction false} RuleEntriesFrom(matches: seq<Match>, hosts: seq<string>, source: string)
    ensures AllFrom(RuleEntries(matches, hosts, source), source)
  {
    if matches != [] {
      RuleEntriesFrom(matches[..|matches| - 1], hosts, source);
      MatchEntriesFrom(matches[|matches| - 1], hosts, source);
    }
  }

  lemma {:induction false} RulesEntriesFrom(rules: seq<seq<Match>>, hosts: seq<string>, source: string)
    ensures AllFrom(RulesEntries(rules, hosts, source), source)
  {
    if rules != [] {
      RulesEntriesFrom(rules[..|rules| - 1], hosts, source);
      RuleEntriesFrom(MatchesOf(rules[|rules| - 1]), hosts, source);
    }
  }

  lemma EntriesShareSource(route: HTTPRoute)
    ensures AllFrom(EntriesOf(route), SourceOf(route.namespace, route.name))
  {
    RulesEntriesFrom(route.rules, HostsOf(route), SourceOf(route.namespace, route.name));
  }

  lemma {:induction false} OwnEntryIgnored(table: Table, es: seq<Entry>, e: Entry, cases: Cases)
    requires AllFrom(es, e.source)
    ensures Against(At(Registered(table, es), e.hostname), e, cases) == Against(At(table, e.hostname), e, cases)
  {
    if es != [] {
      var rest, x := es[..|es| - 1], es[|es| - 1];
      OwnEntryIgnored(table, rest, e, cases);
      var before := At(Registered(table, rest), e.hostname);
      assert (before + [x])[..|before|] == before;
    }
  }

  /** The entries a call registers never take part in its own report. */
  lemma {:induction false} OwnEntriesIgnored(table: Table, es: seq<Entry>, source: string, cases: Cases)
    requires AllFrom(es, source)
    ensures Processed(Outcome(table, []), es, cases) == Outcome(Registered(table, es), AgainstEach(table, es, cases))
  {
    if es != [] {
      OwnEntriesIgnored(table, es[..|es| - 1], source, cases);
      OwnEntryIgnored(table, es[..|es| - 1], es[|es| - 1], cases);
    }
  }

  function ConflictWith(e: Entry, cases: Cases): Entry -> Option<Conflict> {
    (x: Entry) => if Conflicting(x, e, cases) then Some(Conflict(e, x)) else None
  }

  /** The conflicts of one entry are reported once each and in the order of registration. */
  lemma {:induction false} AgainstInOrder(existing: seq<Entry>, e: Entry, cases: Cases)
    ensures AreValues(existing, ConflictWith(e, cases), Against(existing, e, cases))
  {
    if existing == [] {
      NoValues(ConflictWith(e, cases));
    } else {
      var rest := existing[..|existing| - 1];
      AgainstInOrder(rest, e, cases);
      LastValue(existing, ConflictWith(e, cases), Against(rest, e, cases), Against(existing, e, cases));
    }
  }

  function OnlyHost(host: string): Entry -> Option<Entry> {
    (e: Entry) => if e.hostname == host then Some(e) else None
  }

  /** Registration appends to each host the entries for it, in order, to those already there. */
  lemma {:induction false} RegisteredInOrder(table: Table, es: seq<Entry>, host: string)
    ensures At(table, host) <= At(Registered(table, es), host)
    ensures AreValues(es, OnlyHost(host), At(Registered(table, es), host)[|At(table, host)|..])
  {
    if es == [] {
      NoValues(OnlyHost(host));
    } else {
      var rest, e := es[..|es| - 1], es[|es| - 1];
      RegisteredInOrder(table, rest, host);
      var n, before, after := |At(table, host)|, At(Registered(table, rest), host), At(Registered(table, es), host);
      assert e.hostname == host ==> after[n..] == before[n..] + [e];
      LastValue(es, OnlyHost(host), before[n..], after[n..]);
    }
  }

  lemma {:induction false} AgainstMembers(existing: seq<Entry>, e: Entry, cases: Cases, c: Conflict)
    ensures c in Against(existing, e, cases) <==>
      c.incoming == e && c.existing in existing && Conflicting(c.existing, e, cases)
  {
    if existing != [] {
      var rest := existing[..|existing| - 1];
      AgainstMembers(rest, e, cases, c);
      assert existing == rest + [existing[|existing| - 1]];
    }
  }

  lemma {:induction false} AgainstEachMembers(table: Table, es: seq<Entry>, cases: Cases, c: Conflict)
    ensures c in AgainstEach(table, es, cases) <==>
      && c.incoming in es && c.existing in At(table, c.incoming.hostname)
      && Conflicting(c.existing, c.incoming, cases)
  {
    if es != [] {
      var rest, e := es[..|es| - 1], es[|es| - 1];
      AgainstEachMembers(table, rest, cases, c);
      AgainstMembers(At(table, e.hostname), e, cases, c);
      assert es == rest + [e];
    }
  }

  /** What the first entries conflict with is reported first. */
  lemma {:induction false} ReportInOrder(table: Table, es: seq<Entry>, i: nat, cases: Cases)
    requires i <= |es|
    ensures AgainstEach(table, es[..i], cases) <= AgainstEach(table, es, cases)
  {
    if i == |es| {
      assert es[..i] == es;
    } else {
      var rest := es[..|es| - 1];
      ReportInOrder(table, rest, i, cases);
      assert rest[..i] == es[..i];
    }
  }

  // ----- Removal -----

  function Kept(entries: seq<Entry>, source: string): seq<Entry> {
    if entries == [] then []
    else
      var x := entries[|entries| - 1];
      Kept(entries[..|entries| - 1], source) + (if x.source != source then [x] else [])
  }

  function KeepFrom(source: string): Entry -> Option<Entry> {
    (e: Entry) => if e.source != source then Some(e) else None
  }

  /** The entries of other routes keep their order and multiplicity. */
  lemma {:induction false} KeptInOrder(entries: seq<Entry>, source: string)
    ensures AreValues(entries, KeepFrom(source), Kept(entries, source))
  {
    if entries == [] {
      NoValues(KeepFrom(source));
    } else {
      KeptInOrder(entries[..|entries| - 1], source);
      LastValue(entries, KeepFrom(source), Kept(entries[..|entries| - 1], source), Kept(entries, source));
    }
  }

  function Without(table: Table, source: string): Table {
    map h | h in table && Kept(table[h], source) != [] :: Kept(table[h], source)
  }

  /** No host is listed without entries. */
  predicate Dense(table: Table) {
    forall h :: h in table ==> table[h] != []
  }

  lemma {:induction false} KeptOthers(entries: seq<Entry>, source: string)
    ensures (forall x :: x in entries ==> x.source != source) ==> Kept(entries, source) == entries
  {
    if entries != [] {
      var rest := entries[..|entries| - 1];
      KeptOthers(rest, source);
      assert entries == rest + [entries[|entries| - 1]];
    }
  }

  lemma RegisterThenRemove(table: Table, e: Entry)
    ensures Without(Register(table, e), e.source) == Without(table, e.source)
  {
    var list := At(table, e.hostname);
    assert (list + [e])[..|list|] == list;
    assert Kept(list + [e], e.source) == Kept(list, e.source);
    var before, after := Without(table, e.source), Without(Register(table, e), e.source);
    assert forall h :: h in after <==> h in before;
    assert forall h :: h in after ==> after[h] == before[h];
  }

  /** Removing a route leaves what removing it before its registration would have left. */
  lemma {:induction false} RegisteredThenRemoved(table: Table, es: seq<Entry>, source: string)
    requires AllFrom(es, source)
    ensures Without(Registered(table, es), source) == Without(table, source)
  {
    if es != [] {
      RegisteredThenRemoved(table, es[..|es| - 1], source);
      RegisterThenRemove(Registered(table, es[..|es| - 1]), es[|es| - 1]);
    }
  }

  /** For a route that was not registered, removal undoes registration. */
  lemma RemoveUndoesCheck(table: Table, route: HTTPRoute)
    requires Dense(table)
    requires forall h, x :: h in table && x in table[h] ==> x.source != SourceOf(route.namespace, route.name)
    ensures Without(Registered(table, EntriesOf(route)), SourceOf(route.namespace, route.name)) == table
  {
    var source := SourceOf(route.namespace, route.name);
    EntriesShareSource(route);
    RegisteredThenRemoved(table, EntriesOf(route), source);
    forall h | h in table ensures Kept(table[h], source) == table[h] {
      KeptOthers(table[h], source);
    }
  }

  /** Registration and removal never leave a host listed without entries. */
  lemma {:induction false} StaysDense(table: Table, es: seq<Entry>, source: string)
    requires Dense(table)
    ensures Dense(Registered(table, es)) && Dense(Without(table, source))
  {
    if es != [] {
      StaysDense(table, es[..|es| - 1], source);
    }
  }

  // ----- Routes checked one after another on an empty table -----

  function CheckedTable(routes: seq<HTTPRoute>): Table {
    if routes == [] then map[] else Registered(CheckedTable(routes[..|routes| - 1]), EntriesOf(routes[|routes| - 1]))
  }

  function CheckedReport(routes: seq<HTTPRoute>, cases: Cases): seq<Conflict> {
    if routes == [] then []
    else
      var rest, last := routes[..|routes| - 1], routes[|routes| - 1];
      CheckedReport(rest, cases) + AgainstEach(CheckedTable(rest), EntriesOf(last), cases)
  }

  /** Some route of `routes` registers `e`. */
  ghost predicate Registers(routes: seq<HTTPRoute>, e: Entry) {
    exists i :: 0 <= i < |routes| && e in EntriesOf(routes[i])
  }

  lemma {:induction false} RegisteredMembers(table: Table, es: seq<Entry>, x: Entry, host: string)
    ensures x in At(Registered(table, es), host) <==> x in At(table, host) || (x in es && x.hostname == host)
  {
    if es != [] {
      var rest, e := es[..|es| - 1], es[|es| - 1];
      RegisteredMembers(table, rest, x, host);
      assert es == rest + [e];
    }
  }

  lemma {:induction false} CheckedTableMembers(routes: seq<HTTPRoute>, x: Entry, host: string)
    ensures x in At(CheckedTable(routes), host) <==> Registers(routes, x) && x.hostname == host
  {
    if routes != [] {
      var rest, last := routes[..|routes| - 1], routes[|routes| - 1];
      CheckedTableMembers(rest, x, host);
      RegisteredMembers(CheckedTable(rest), EntriesOf(last), x, host);
      RegistersLast(routes, x);
    }
  }

  lemma RegistersLast(routes: seq<HTTPRoute>, x: Entry)
    requires routes != []
    ensures Registers(routes, x) <==> Registers(routes[..|routes| - 1], x) || x in EntriesOf(routes[|routes| - 1])
  {
    var rest := routes[..|routes| - 1];
    if Registers(rest, x) {
      var i :| 0 <= i < |rest| && x in EntriesOf(rest[i]);
      assert x in EntriesOf(routes[i]);
    }
    if Registers(routes, x) {
      var i :| 0 <= i < |routes| && x in EntriesOf(routes[i]);
      assert i < |rest| ==> x in EntriesOf(rest[i]);
    }
  }

  /** `x` is registered by an earlier route than one that registers `y`. */
  ghost predicate InOrder(routes: seq<HTTPRoute>, x: Entry, y: Entry) {
    routes != [] &&
    var rest, last := routes[..|routes| - 1], routes[|routes| - 1];
    InOrder(rest, x, y) || (Registers(rest, x) && y in EntriesOf(last))
  }

  /** The report is exactly the conflicting pairs on one host, the earlier route's entry as the existing one. */
  lemma {:induction false} CheckedReports(routes: seq<HTTPRoute>, cases: Cases, c: Conflict)
    ensures c in CheckedReport(routes, cases) <==>
      && InOrder(routes, c.existing, c.incoming)
      && c.existing.hostname == c.incoming.hostname && Conflicting(c.existing, c.incoming, cases)
  {
    if routes != [] {
      var rest, last := routes[..|routes| - 1], routes[|routes| - 1];
      CheckedReports(rest, cases, c);
      AgainstEachMembers(CheckedTable(rest), EntriesOf(last), cases, c);
      CheckedTableMembers(rest, c.existing, c.incoming.hostname);
    }
  }

  /** Two entries are reported against each other, in one order or the other. */
  predicate InConflict(report: seq<Conflict>, x: Entry, y: Entry) {
    Conflict(x, y) in report || Conflict(y, x) in report
  }

  lemma {:induction false} EitherOrder(routes: seq<HTTPRoute>, x: Entry, y: Entry)
    requires x.source != y.source
    ensures InOrder(routes, x, y) || InOrder(routes, y, x) <==> Registers(routes, x) && Registers(routes, y)
  {
    if routes != [] {
      EitherOrder(routes[..|routes| - 1], x, y);
      EntriesShareSource(routes[|routes| - 1]);
      RegistersLast(routes, x);
      RegistersLast(routes, y);
    }
  }

  /** Which pairs of entries are found in conflict does not depend on the order in which the routes are checked. */
  lemma ConflictsIgnoreOrder(routes: seq<HTTPRoute>, cases: Cases, x: Entry, y: Entry)
    ensures InConflict(CheckedReport(routes, cases), x, y) <==>
      && Registers(routes, x) && Registers(routes, y)
      && x.hostname == y.hostname && Conflicting(x, y, cases)
  {
    CheckedReports(routes, cases, Conflict(x, y));
    CheckedReports(routes, cases, Conflict(y, x));
    OverlapSymmetric(x, y, cases);
    if x.source != y.source {
      EitherOrder(routes, x, y);
    }
  }
}
