/** What the overlap test says about whole requests: host, method, path and headers together. */
module Traffic {
  import opened Overlap

  /** Header names are in lower case; an absent header reads as the empty value. */
  datatype Request = Request(host: string, verb: string, path: string, headers: map<string, string>)

  // ----- Hosts -----

  predicate SelectsHost(pattern: string, host: string) {
    pattern == "*" || pattern == host
  }

  predicate HostsMeet(a: string, b: string) {
    a == "*" || b == "*" || a == b
  }

  // ----- Headers -----

  predicate IsExact(h: Header) {
    h.kind == "" || h.kind == "Exact"
  }

  predicate ExactOnly(hs: seq<Header>) {
    forall h :: h in hs ==> IsExact(h)
  }

  /** The router's check of an exact matcher: the header is there, with the value if one is given. */
  predicate SelectsHeader(h: Header, headers: map<string, string>, cases: Cases)
    requires IsExact(h)
  {
    var n := Map(cases.lower, h.name);
    n in headers && headers[n] != "" && (h.value == "" || headers[n] == h.value)
  }

  predicate SelectsHeaders(hs: seq<Header>, headers: map<string, string>, cases: Cases)
    requires ExactOnly(hs)
  {
    forall h :: h in hs ==> SelectsHeader(h, headers, cases)
  }

  /** The matchers do not ask one header for two values. */
  predicate Agree(h: Header, g: Header, cases: Cases) {
    Map(cases.lower, h.name) == Map(cases.lower, g.name) ==> h.value == "" || g.value == "" || h.value == g.value
  }

  predicate Consistent(hs: seq<Header>, cases: Cases) {
    forall h, g :: h in hs && g in hs ==> Agree(h, g, cases)
  }

  /** Headers that meet every matcher of a consistent list. */
  function Witness(hs: seq<Header>, cases: Cases): map<string, string> {
    if hs == [] then map[]
    else
      var rest, n := Witness(hs[1..], cases), Map(cases.lower, hs[0].name);
      if hs[0].value != "" then rest[n := hs[0].value]
      else if n in rest then rest
      else rest[n := "any"]
  }

  lemma {:induction false} WitnessSelected(hs: seq<Header>, cases: Cases)
    requires ExactOnly(hs) && Consistent(hs, cases)
    ensures SelectsHeaders(hs, Witness(hs, cases), cases)
    ensures forall n :: n in Witness(hs, cases) ==> Witness(hs, cases)[n] != ""
  {
    if hs != [] {
      assert hs == [hs[0]] + hs[1..];
      WitnessSelected(hs[1..], cases);
      forall h | h in hs[1..] ensures SelectsHeader(h, Witness(hs, cases), cases) {
        assert SelectsHeader(h, Witness(hs[1..], cases), cases);
        assert Agree(hs[0], h, cases);
      }
    }
  }

  /** Some headers meet every matcher of a list exactly when the list is consistent. */
  lemma SatisfiableIffConsistent(hs: seq<Header>, cases: Cases)
    requires ExactOnly(hs)
    ensures (exists headers :: SelectsHeaders(hs, headers, cases)) <==> Consistent(hs, cases)
  {
    if Consistent(hs, cases) {
      WitnessSelected(hs, cases);
    }
    if headers :| SelectsHeaders(hs, headers, cases) {
      forall h, g | h in hs && g in hs ensures Agree(h, g, cases) {
        assert SelectsHeader(h, headers, cases) && SelectsHeader(g, headers, cases);
      }
    }
  }

  // ----- Methods -----

  /** The router's check: the pattern in upper case is the request's method. */
  predicate RouterSelectsMethod(pattern: string, verb: string, cases: Cases) {
    pattern == "" || Map(cases.upper, pattern) == verb
  }

  predicate MethodsMeet(a: string, b: string, cases: Cases) {
    a == "" || b == "" || Map(cases.upper, a) == Map(cases.upper, b)
  }

  // ----- Requests -----

  /** An entry whose path and header matchers are not regular expressions. */
  predicate Plain(e: Entry) {
    e.pathType != "RegularExpression" && ExactOnly(e.headers)
  }

  /** The router's match of host, path, method and headers. */
  predicate SelectsRequest(e: Entry, r: Request, cases: Cases)
    requires Plain(e)
  {
    && SelectsHost(e.hostname, r.host) && RouterSelects(e.pathType, e.path, r.path)
    && RouterSelectsMethod(e.verb, r.verb, cases) && SelectsHeaders(e.headers, r.headers, cases)
  }

  ghost predicate ShareTraffic(a: Entry, b: Entry, cases: Cases)
    requires Plain(a) && Plain(b)
  {
    exists r :: SelectsRequest(a, r, cases) && SelectsRequest(b, r, cases)
  }

  /** What a caller can check of two entries: hosts, paths and methods meet in the router, and no header is asked
      for two values. */
  predicate Meet(a: Entry, b: Entry, cases: Cases) {
    && HostsMeet(a.hostname, b.hostname) && RouterMeets(a.pathType, a.path, b.pathType, b.path)
    && MethodsMeet(a.verb, b.verb, cases) && Consistent(a.headers + b.headers, cases)
  }

  /** The test that the detector applies: it compares only entries of one hostname. */
  predicate Reported(a: Entry, b: Entry, cases: Cases) {
    a.hostname == b.hostname && EntriesOverlap(a, b, cases)
  }

  /** The router serves some request by both entries exactly when they meet. */
  lemma SharedTrafficIff(a: Entry, b: Entry, cases: Cases)
    requires Plain(a) && Plain(b)
    ensures ShareTraffic(a, b, cases) <==> Meet(a, b, cases)
  {
    RouterSharesIffMeets(a.pathType, a.path, b.pathType, b.path);
    SatisfiableIffConsistent(a.headers + b.headers, cases);
    if r :| SelectsRequest(a, r, cases) && SelectsRequest(b, r, cases) {
      assert SelectsHeaders(a.headers + b.headers, r.headers, cases);
    }
    if Meet(a, b, cases) {
      var host := if a.hostname == "*" then b.hostname else a.hostname;
      var verb := if a.verb == "" then Map(cases.upper, b.verb) else Map(cases.upper, a.verb);
      var path :| RouterSelects(a.pathType, a.path, path) && RouterSelects(b.pathType, b.path, path);
      var headers :| SelectsHeaders(a.headers + b.headers, headers, cases);
      var r := Request(host, verb, path, headers);
      assert SelectsRequest(a, r, cases) && SelectsRequest(b, r, cases);
    }
  }

  /** The traffic that two entries share unreported: exactly when they meet in the router, and yet their hostnames
      or header matchers differ, their paths do not overlap at a segment boundary, or their methods differ in the
      detector's comparison. */
  lemma MissedTrafficIff(a: Entry, b: Entry, cases: Cases)
    requires Plain(a) && Plain(b)
    ensures ShareTraffic(a, b, cases) && !Reported(a, b, cases) <==>
      && Meet(a, b, cases)
      && (|| a.hostname != b.hostname || !SameHeaders(a.headers, b.headers, cases)
          || Missed(a.pathType, a.path, b.pathType, b.path) || !MethodsOverlap(a.verb, b.verb, cases))
  {
    SharedTrafficIff(a, b, cases);
    MeetsIff(a.pathType, a.path, b.pathType, b.path);
    if Missed(a.pathType, a.path, b.pathType, b.path) {
      MissedNotOverlapping(a.pathType, a.path, b.pathType, b.path);
    }
  }

  lemma MissedNotOverlapping(aType: string, a: string, bType: string, b: string)
    requires Missed(aType, a, bType, b)
    ensures !PathsOverlap(aType, a, bType, b)
  {
  }

  /** A report is spurious exactly when the matchers together ask one header for two values, or the methods, alike
      under case folding, differ in upper case. */
  lemma SpuriousIff(a: Entry, b: Entry, cases: Cases)
    requires Plain(a) && Plain(b) && Reported(a, b, cases)
    ensures !ShareTraffic(a, b, cases) <==>
      !Consistent(a.headers + b.headers, cases) || !MethodsMeet(a.verb, b.verb, cases)
  {
    SharedTrafficIff(a, b, cases);
    MeetsIff(a.pathType, a.path, b.pathType, b.path);
  }

  /** Requests shared unreported: a route on every host and one on a single host; a route with a header matcher and
      one without; and prefixes `/api` and `/apikeys`. */
  lemma MissedTrafficExamples(cases: Cases)
    ensures var all, one := Entry("/", "PathPrefix", "*", [], "", "a/a"), Entry("/", "PathPrefix", "a.com", [], "", "b/b");
      ShareTraffic(all, one, cases) && !Reported(all, one, cases)
    ensures var plain, tagged := Entry("/", "PathPrefix", "*", [], "", "a/a"),
              Entry("/", "PathPrefix", "*", [Header("X", "1", "")], "", "b/b");
      ShareTraffic(plain, tagged, cases) && !Reported(plain, tagged, cases)
    ensures var api, keys := Entry("/api", "PathPrefix", "*", [], "", "a/a"), Entry("/apikeys", "PathPrefix", "*", [], "", "b/b");
      ShareTraffic(api, keys, cases) && !Reported(api, keys, cases)
  {
    var all, one := Entry("/", "PathPrefix", "*", [], "", "a/a"), Entry("/", "PathPrefix", "a.com", [], "", "b/b");
    var tagged := Entry("/", "PathPrefix", "*", [Header("X", "1", "")], "", "b/b");
    var api, keys := Entry("/api", "PathPrefix", "*", [], "", "a/a"), Entry("/apikeys", "PathPrefix", "*", [], "", "b/b");
    MissedTrafficIff(all, one, cases);
    MissedTrafficIff(all, tagged, cases);
    assert "/apikeys"[..4] == "/api" && "/apikeys"[4] == 'k';
    MissedTrafficIff(api, keys, cases);
  }
}
