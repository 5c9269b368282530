/** The overlap test of the route detector: a syntactic comparison of two matchers, against what requests they select. */
module Overlap {

  datatype Header = Header(name: string, value: string, kind: string)

  /** One registered match combination. An empty `verb` means every method. */
  datatype Entry = Entry(path: string, pathType: string, hostname: string, headers: seq<Header>, verb: string, source: string)

  /** The character mappings of the case-insensitive comparisons: `fold` picks one member of each class of
      characters that `strings.EqualFold` identifies, `lower` and `upper` are the mappings of `strings.ToLower`
      and `strings.ToUpper`. */
  datatype Cases = Cases(fold: char -> char, lower: char -> char, upper: char -> char)

  // ----- Paths: the code -----

  predicate EndsWithSlash(s: string) {
    s != [] && s[|s| - 1] == '/'
  }

  predicate PrefixCovers(prefix: string, path: string) {
    if prefix == path then true
    else if !(prefix <= path) then false
    else if EndsWithSlash(prefix) then true
    else |path| > |prefix| && path[|prefix|] == '/'
  }

  predicate PathsOverlap(aType: string, a: string, bType: string, b: string) {
    if aType == "Exact" && bType == "Exact" then a == b
    else if aType == "PathPrefix" && bType == "PathPrefix" then PrefixCovers(a, b) || PrefixCovers(b, a)
    else if aType == "PathPrefix" && bType == "Exact" then PrefixCovers(a, b)
    else if aType == "Exact" && bType == "PathPrefix" then PrefixCovers(b, a)
    else false
  }

  /** The path types for which overlap is decided. */
  predicate Decided(pathType: string) {
    pathType == "Exact" || pathType == "PathPrefix"
  }

  // ----- Paths: selection at a segment boundary -----

  /** `path` is the pattern itself or continues it after a slash. */
  predicate AtBoundary(prefix: string, path: string) {
    path == prefix || prefix + "/" <= path || (EndsWithSlash(prefix) && prefix <= path)
  }

  predicate Selects(pathType: string, pattern: string, path: string) {
    if pathType == "Exact" then path == pattern else pathType == "PathPrefix" && AtBoundary(pattern, path)
  }

  ghost predicate SharePath(aType: string, a: string, bType: string, b: string) {
    exists path :: Selects(aType, a, path) && Selects(bType, b, path)
  }

  lemma CoversIffAtBoundary(prefix: string, path: string)
    ensures PrefixCovers(prefix, path) <==> AtBoundary(prefix, path)
  {
    var next := prefix + "/";
    assert next[..|prefix|] == prefix && next[|prefix|] == '/';
    if next <= path {
      assert path[..|next|] == next;
      assert prefix == path[..|next|][..|prefix|] == path[..|prefix|];
      assert path[|prefix|] == '/';
    }
    if prefix <= path && |path| > |prefix| && path[|prefix|] == '/' {
      assert path[..|next|] == next;
    }
  }

  /** Of two prefixes at a boundary of one path, one is at a boundary of the other. */
  lemma BoundariesNest(a: string, b: string, path: string)
    requires PrefixCovers(a, path) && PrefixCovers(b, path) && |a| <= |b|
    ensures PrefixCovers(a, b)
  {
    assert a == path[..|a|] && b == path[..|b|];
    assert path[..|b|][..|a|] == path[..|a|];
    assert |a| < |b| ==> b[|a|] == path[|a|];
  }

  /** The path test is true exactly when some path is selected by both matchers at a segment boundary. */
  lemma PathsOverlapIffShared(aType: string, a: string, bType: string, b: string)
    ensures PathsOverlap(aType, a, bType, b) <==> SharePath(aType, a, bType, b)
  {
    CoversIffAtBoundary(a, b);
    CoversIffAtBoundary(b, a);
    if PathsOverlap(aType, a, bType, b) {
      if Selects(aType, a, b) {
        assert Selects(bType, b, b);
      } else {
        assert Selects(aType, a, a) && Selects(bType, b, a);
      }
    }
    if SharePath(aType, a, bType, b) {
      var path :| Selects(aType, a, path) && Selects(bType, b, path);
      SharedNest(aType, a, bType, b, path);
    }
  }

  lemma SharedNest(aType: string, a: string, bType: string, b: string, path: string)
    requires Selects(aType, a, path) && Selects(bType, b, path)
    ensures PathsOverlap(aType, a, bType, b)
  {
    CoversIffAtBoundary(a, path);
    CoversIffAtBoundary(b, path);
    if aType == "PathPrefix" && bType == "PathPrefix" {
      if |a| <= |b| {
        BoundariesNest(a, b, path);
      } else {
        BoundariesNest(b, a, path);
      }
    }
  }

  // ----- Paths: selection segment by segment -----

  /** The segments of a path, between its slashes. */
  function Split(s: string): (r: seq<string>)
    ensures r != []
  {
    if s == [] then [[]]
    else
      var r := Split(s[1..]);
      if s[0] == '/' then [[]] + r else [[s[0]] + r[0]] + r[1..]
  }

  /** A prefix pattern without one trailing slash. */
  function Trimmed(prefix: string): string {
    if EndsWithSlash(prefix) then prefix[..|prefix| - 1] else prefix
  }

  /** Prefix matching as Gateway API defines it, element by element with a trailing slash ignored. */
  predicate SelectsElements(pathType: string, pattern: string, path: string) {
    if pathType == "Exact" then path == pattern
    else pathType == "PathPrefix" && Split(Trimmed(pattern)) <= Split(path)
  }

  ghost predicate ShareElements(aType: string, a: string, bType: string, b: string) {
    exists path :: SelectsElements(aType, a, path) && SelectsElements(bType, b, path)
  }

  lemma ConsPrefix<T>(x: T, s: seq<T>, y: T, t: seq<T>)
    ensures [x] + s <= [y] + t <==> x == y && s <= t
  {
    var u, v := [x] + s, [y] + t;
    assert u[1..] == s && v[1..] == t;
    if u <= v {
      assert u == v[..|u|];
      assert s == v[..|u|][1..] == t[..|s|];
      assert u[0] == v[0];
    }
    if x == y && s <= t {
      assert u == v[..|u|];
    }
  }

  lemma SplitOfEmpty(path: string)
    ensures Split("") <= Split(path) <==> path == "" || "/" <= path
  {
    assert path != [] ==> ("/" <= path <==> path[0] == '/');
    assert Split("") == [""];
    assert Split("") <= Split(path) <==> Split(path)[0] == "";
  }

  lemma SplitNotShorter(p: string)
    requires p != []
    ensures !(Split(p) <= Split(""))
  {
    assert Split("") == [""];
    assert |Split(p)| == 1 ==> Split(p)[0] != "";
  }

  /** One more character in front changes nothing about the comparison when both have it, and ends it otherwise. */
  lemma SplitStep(c: char, p: string, d: char, path: string)
    ensures Split([c] + p) <= Split([d] + path) <==> c == d && Split(p) <= Split(path)
  {
    assert ([c] + p)[1..] == p && ([d] + path)[1..] == path;
    var r, t := Split(p), Split(path);
    if c == '/' && d == '/' {
      ConsPrefix([], r, [], t);
    } else if c == '/' {
      ConsPrefix([], r, [d] + t[0], t[1..]);
    } else if d == '/' {
      ConsPrefix([c] + r[0], r[1..], [], t);
    } else {
      ConsPrefix([c] + r[0], r[1..], [d] + t[0], t[1..]);
      ConsPrefix(r[0], r[1..], t[0], t[1..]);
      assert r == [r[0]] + r[1..] && t == [t[0]] + t[1..];
      ConsEqual(c, r[0], d, t[0]);
    }
  }

  lemma ConsEqual<T>(x: T, s: seq<T>, y: T, t: seq<T>)
    ensures [x] + s == [y] + t <==> x == y && s == t
  {
    if [x] + s == [y] + t {
      assert ([x] + s)[0] == ([y] + t)[0];
      assert s == ([x] + s)[1..] == ([y] + t)[1..] == t;
    }
  }

  lemma {:induction false} SplitPrefix(p: string, path: string)
    ensures Split(p) <= Split(path) <==> path == p || p + "/" <= path
  {
    if p == [] {
      assert p + "/" == "/";
      SplitOfEmpty(path);
    } else if path == [] {
      SplitNotShorter(p);
    } else {
      var c, q, d, rest := p[0], p[1..], path[0], path[1..];
      SplitPrefix(q, rest);
      SplitStep(c, q, d, rest);
      assert p == [c] + q && path == [d] + rest;
      ConsEqual(c, q, d, rest);
      assert p + "/" == [c] + (q + "/");
      ConsPrefix(c, q + "/", d, rest);
    }
  }

  /** The boundary test is element-wise matching, but for one path: a pattern with a trailing slash
      does not cover the same path without it. */
  lemma CoversIffElements(prefix: string, path: string)
    ensures PrefixCovers(prefix, path) <==> Split(Trimmed(prefix)) <= Split(path) && prefix != path + "/"
  {
    var q := Trimmed(prefix);
    SplitPrefix(q, path);
    CoversIffAtBoundary(prefix, path);
    if EndsWithSlash(prefix) {
      assert prefix == q + "/";
      assert prefix == path + "/" ==> q == prefix[..|prefix| - 1] == path;
    } else {
      assert path + "/" == prefix ==> prefix[|prefix| - 1] == '/';
    }
  }

  /** A trailing slash that element-wise matching ignores and the code does not. */
  predicate SlashOnly(aType: string, a: string, bType: string, b: string) {
    aType == "PathPrefix" && bType == "Exact" && a == b + "/"
  }

  /** Against element-wise matching the path test is never wrong about two prefixes or two exact paths,
      and it misses a shared path exactly when an exact path is the prefix pattern less its trailing slash. */
  lemma PathsOverlapIffElements(aType: string, a: string, bType: string, b: string)
    ensures PathsOverlap(aType, a, bType, b) <==>
      ShareElements(aType, a, bType, b) && !SlashOnly(aType, a, bType, b) && !SlashOnly(bType, b, aType, a)
  {
    CoversIffElements(a, b);
    CoversIffElements(b, a);
    if PathsOverlap(aType, a, bType, b) {
      OverlapSharesElements(aType, a, bType, b);
    }
    if ShareElements(aType, a, bType, b) {
      var path :| SelectsElements(aType, a, path) && SelectsElements(bType, b, path);
      if aType == "PathPrefix" && bType == "PathPrefix" {
        ElementsNest(a, b, path);
      }
    }
  }

  lemma OverlapSharesElements(aType: string, a: string, bType: string, b: string)
    requires PathsOverlap(aType, a, bType, b)
    ensures ShareElements(aType, a, bType, b)
  {
    PathsOverlapIffShared(aType, a, bType, b);
    var path :| Selects(aType, a, path) && Selects(bType, b, path);
    CoversIffAtBoundary(a, path);
    CoversIffAtBoundary(b, path);
    CoversIffElements(a, path);
    CoversIffElements(b, path);
    assert SelectsElements(aType, a, path) && SelectsElements(bType, b, path);
  }

  lemma ElementsNest(a: string, b: string, path: string)
    requires Split(Trimmed(a)) <= Split(path) && Split(Trimmed(b)) <= Split(path)
    ensures PrefixCovers(a, b) || PrefixCovers(b, a)
  {
    if |Split(Trimmed(a))| <= |Split(Trimmed(b))| {
      assert Split(Trimmed(a)) == Split(path)[..|Split(Trimmed(b))|][..|Split(Trimmed(a))|];
      TrimmedNest(a, b);
    } else {
      assert Split(Trimmed(b)) == Split(path)[..|Split(Trimmed(a))|][..|Split(Trimmed(b))|];
      TrimmedNest(b, a);
    }
  }

  lemma TrimmedNest(a: string, b: string)
    requires Split(Trimmed(a)) <= Split(Trimmed(b))
    ensures PrefixCovers(a, b) || PrefixCovers(b, a)
  {
    var p, q := Trimmed(a), Trimmed(b);
    SplitPrefix(p, q);
    CoversIffAtBoundary(a, b);
    CoversIffAtBoundary(b, a);
    assert EndsWithSlash(a) ==> a == p + "/";
    assert EndsWithSlash(b) ==> b == q + "/";
    if p + "/" <= q {
      assert p + "/" == q[..|p| + 1] == b[..|p| + 1];
    }
  }

  // ----- Paths: selection by the router -----

  /** A pattern as the router compiles it: only a non-empty exact pattern is compared whole, every other type is
      a prefix, and an empty pattern becomes the prefix `/`. */
  predicate ComparedWhole(pathType: string, pattern: string) {
    pathType == "Exact" && pattern != ""
  }

  function Compiled(pattern: string): string {
    if pattern == "" then "/" else pattern
  }

  /** The router's own path check, for a pattern that is not a regular expression: no boundary after a prefix. */
  predicate RouterSelects(pathType: string, pattern: string, path: string)
    requires pathType != "RegularExpression"
  {
    if ComparedWhole(pathType, pattern) then path == pattern else Compiled(pattern) <= path
  }

  ghost predicate RouterShares(aType: string, a: string, bType: string, b: string)
    requires aType != "RegularExpression" && bType != "RegularExpression"
  {
    exists path :: RouterSelects(aType, a, path) && RouterSelects(bType, b, path)
  }

  /** The compiled patterns are equal, or one that is a prefix begins the other. */
  predicate RouterMeets(aType: string, a: string, bType: string, b: string) {
    || Compiled(a) == Compiled(b)
    || (!ComparedWhole(aType, a) && Compiled(a) <= Compiled(b))
    || (!ComparedWhole(bType, b) && Compiled(b) <= Compiled(a))
  }

  /** Some path passes the router's check of both patterns exactly when their compiled forms meet. */
  lemma RouterSharesIffMeets(aType: string, a: string, bType: string, b: string)
    requires aType != "RegularExpression" && bType != "RegularExpression"
    ensures RouterShares(aType, a, bType, b) <==> RouterMeets(aType, a, bType, b)
  {
    var x, y := Compiled(a), Compiled(b);
    if RouterMeets(aType, a, bType, b) {
      var path := if |x| <= |y| then y else x;
      assert RouterSelects(aType, a, path) && RouterSelects(bType, b, path);
    }
    if path :| RouterSelects(aType, a, path) && RouterSelects(bType, b, path) {
      assert x == path[..|x|] && y == path[..|y|];
      if |x| <= |y| {
        assert path[..|y|][..|x|] == x;
      } else {
        assert path[..|x|][..|y|] == y;
      }
    }
  }

  /** A prefix pattern that the other path continues inside a segment. */
  predicate InsideSegment(aType: string, a: string, b: string) {
    aType == "PathPrefix" && a != "" && a <= b && |a| < |b| && !EndsWithSlash(a) && b[|a|] != '/'
  }

  /** An empty exact pattern, which the router compiles to the prefix `/`. */
  predicate Opened(aType: string, a: string, b: string) {
    aType == "Exact" && a == "" && b != "" && b[0] == '/'
  }

  /** A pattern of neither type, which the router compiles to a prefix and the detector never compares. */
  predicate Untyped(aType: string, a: string, bType: string, b: string) {
    !(Decided(aType) && Decided(bType)) && RouterMeets(aType, a, bType, b)
  }

  predicate Missed(aType: string, a: string, bType: string, b: string) {
    if Decided(aType) && Decided(bType) then
      InsideSegment(aType, a, b) || InsideSegment(bType, b, a) || Opened(aType, a, b) || Opened(bType, b, a)
    else Untyped(aType, a, bType, b)
  }

  /** What the detector reports does collide in the router; the collisions it does not report are exactly those
      where a prefix stops inside a segment of the other path, an empty exact pattern stands for `/`, or a type
      is given that the detector does not compare. */
  lemma RouterSharesIff(aType: string, a: string, bType: string, b: string)
    requires aType != "RegularExpression" && bType != "RegularExpression"
    ensures RouterShares(aType, a, bType, b) <==> PathsOverlap(aType, a, bType, b) || Missed(aType, a, bType, b)
  {
    RouterSharesIffMeets(aType, a, bType, b);
    MeetsIff(aType, a, bType, b);
  }

  lemma MeetsIff(aType: string, a: string, bType: string, b: string)
    ensures RouterMeets(aType, a, bType, b) <==> PathsOverlap(aType, a, bType, b) || Missed(aType, a, bType, b)
  {
    assert b != "" ==> ("/" <= b <==> b[0] == '/');
    assert a != "" ==> ("/" <= a <==> a[0] == '/');
    assert b != "" && b <= "/" ==> b[0] == '/';
    assert a != "" && a <= "/" ==> a[0] == '/';
  }

  /** `/api` and `/apikeys` collide in the router unreported, and `/api/` is not held to cover exact `/api`. */
  lemma MissedExamples()
    ensures RouterShares("PathPrefix", "/api", "PathPrefix", "/apikeys")
    ensures !PathsOverlap("PathPrefix", "/api", "PathPrefix", "/apikeys")
    ensures ShareElements("PathPrefix", "/api/", "Exact", "/api") && !PathsOverlap("PathPrefix", "/api/", "Exact", "/api")
  {
    assert "/apikeys"[..4] == "/api" && "/apikeys"[4] == 'k';
    RouterSharesIff("PathPrefix", "/api", "PathPrefix", "/apikeys");
    assert "/api/" == "/api" + "/";
    assert Trimmed("/api/") == "/api";
    assert SelectsElements("PathPrefix", "/api/", "/api") && SelectsElements("Exact", "/api", "/api");
  }

  // ----- Methods -----

  function Map<T, U>(f: T -> U, s: seq<T>): (r: seq<U>)
    ensures |r| == |s|
  {
    if s == [] then [] else [f(s[0])] + Map(f, s[1..])
  }

  lemma {:induction false} MapAt<T, U>(f: T -> U, s: seq<T>, i: nat)
    requires i < |s|
    ensures Map(f, s)[i] == f(s[i])
  {
    if i > 0 {
      MapAt(f, s[1..], i - 1);
    }
  }

  predicate MethodsOverlap(a: string, b: string, cases: Cases) {
    if a == "" || b == "" then true else Map(cases.fold, a) == Map(cases.fold, b)
  }

  predicate SelectsMethod(pattern: string, verb: string, cases: Cases) {
    pattern == "" || Map(cases.fold, pattern) == Map(cases.fold, verb)
  }

  ghost predicate ShareMethod(a: string, b: string, cases: Cases) {
    exists verb :: SelectsMethod(a, verb, cases) && SelectsMethod(b, verb, cases)
  }

  lemma MethodsOverlapIffShared(a: string, b: string, cases: Cases)
    ensures MethodsOverlap(a, b, cases) <==> ShareMethod(a, b, cases)
  {
    if MethodsOverlap(a, b, cases) {
      var verb := if a == "" then b else a;
      assert SelectsMethod(a, verb, cases) && SelectsMethod(b, verb, cases);
    }
  }

  // ----- Headers -----

  /** Lexicographic order, as `sort.Strings` uses it. */
  predicate Leq(s: string, t: string) {
    s == [] || (t != [] && (s[0] < t[0] || (s[0] == t[0] && Leq(s[1..], t[1..]))))
  }

  function Insert(x: string, s: seq<string>): seq<string> {
    if s == [] || Leq(x, s[0]) then [x] + s else [s[0]] + Insert(x, s[1..])
  }

  function SortStrings(s: seq<string>): seq<string> {
    if s == [] then [] else Insert(s[0], SortStrings(s[1..]))
  }

  function Canonical(h: Header, cases: Cases): string {
    (if h.kind == "" then "Exact" else h.kind) + ":" + Map(cases.lower, h.name) + "=" + h.value
  }

  function CanonicalEach(hs: seq<Header>, cases: Cases): seq<string> {
    Map(h => Canonical(h, cases), hs)
  }

  function NormalizeHeaders(hs: seq<Header>, cases: Cases): seq<string> {
    SortStrings(CanonicalEach(hs, cases))
  }

  predicate SameHeaders(a: seq<Header>, b: seq<Header>, cases: Cases) {
    if |a| != |b| then false else NormalizeHeaders(a, cases) == NormalizeHeaders(b, cases)
  }

  predicate Sorted(s: seq<string>) {
    forall i, j :: 0 <= i < j < |s| ==> Leq(s[i], s[j])
  }

  lemma {:induction false} LeqTotal(s: string, t: string)
    ensures Leq(s, t) || Leq(t, s)
    ensures Leq(s, t) && Leq(t, s) ==> s == t
  {
    if s != [] && t != [] {
      LeqTotal(s[1..], t[1..]);
      assert s == [s[0]] + s[1..] && t == [t[0]] + t[1..];
    }
  }

  lemma {:induction false} LeqTransitive(s: string, t: string, u: string)
    requires Leq(s, t) && Leq(t, u)
    ensures Leq(s, u)
  {
    if s != [] && s[0] == t[0] == u[0] {
      LeqTransitive(s[1..], t[1..], u[1..]);
    }
  }

  /** `x` goes before every string of `s`. */
  predicate Least(x: string, s: seq<string>) {
    forall y :: y in s ==> Leq(x, y)
  }

  lemma SortedCons(x: string, s: seq<string>)
    ensures Sorted([x] + s) <==> Least(x, s) && Sorted(s)
  {
    var r := [x] + s;
    if Sorted(r) {
      forall y | y in s ensures Leq(x, y) {
        var j :| 0 <= j < |s| && s[j] == y;
        assert r[0] == x && r[j + 1] == y;
      }
      forall i, j | 0 <= i < j < |s| ensures Leq(s[i], s[j]) {
        assert r[i + 1] == s[i] && r[j + 1] == s[j];
      }
    }
  }

  lemma {:induction false} InsertMembers(x: string, s: seq<string>)
    ensures multiset(Insert(x, s)) == multiset{x} + multiset(s)
    ensures forall y :: y in Insert(x, s) <==> y == x || y in s
  {
    if s != [] {
      assert s == [s[0]] + s[1..];
      InsertMembers(x, s[1..]);
    }
  }

  lemma {:induction false} InsertSorts(x: string, s: seq<string>)
    requires Sorted(s)
    ensures Sorted(Insert(x, s))
  {
    if s == [] {
    } else {
      assert s == [s[0]] + s[1..];
      SortedCons(s[0], s[1..]);
      if Leq(x, s[0]) {
        forall y | y in s ensures Leq(x, y) {
          if y in s[1..] {
            LeqTransitive(x, s[0], y);
          }
        }
        SortedCons(x, s);
      } else {
        LeqTotal(x, s[0]);
        InsertSorts(x, s[1..]);
        InsertMembers(x, s[1..]);
        SortedCons(s[0], Insert(x, s[1..]));
      }
    }
  }

  lemma {:induction false} SortStringsSorts(s: seq<string>)
    ensures Sorted(SortStrings(s)) && multiset(SortStrings(s)) == multiset(s)
  {
    if s != [] {
      SortStringsSorts(s[1..]);
      InsertSorts(s[0], SortStrings(s[1..]));
      InsertMembers(s[0], SortStrings(s[1..]));
      HeadAndTail(s);
    }
  }

  lemma LeastFirst(a: seq<string>, b: seq<string>)
    requires a != [] && Sorted(a) && b != [] && b[0] in a
    ensures Leq(a[0], b[0])
  {
    LeqTotal(a[0], a[0]);
  }

  lemma HeadAndTail<T>(s: seq<T>)
    requires s != []
    ensures multiset(s) == multiset{s[0]} + multiset(s[1..])
  {
    assert s == [s[0]] + s[1..];
  }

  lemma Cancel<T>(x: T, s: multiset<T>, t: multiset<T>)
    requires multiset{x} + s == multiset{x} + t
    ensures s == t
  {
    assert multiset{x} + s - multiset{x} == s;
    assert multiset{x} + t - multiset{x} == t;
  }

  lemma {:induction false} SortedUnique(a: seq<string>, b: seq<string>)
    requires Sorted(a) && Sorted(b) && multiset(a) == multiset(b)
    ensures a == b
  {
    assert |a| == |multiset(a)| == |b|;
    if a != [] {
      assert a[0] in multiset(a) && b[0] in multiset(b);
      LeastFirst(a, b);
      LeastFirst(b, a);
      LeqTotal(a[0], b[0]);
      HeadAndTail(a);
      HeadAndTail(b);
      Cancel(a[0], multiset(a[1..]), multiset(b[1..]));
      SortedUnique(a[1..], b[1..]);
    }
  }

  /** The header test ignores order and nothing else: it compares the canonical strings as multisets. */
  lemma SameHeadersIffSameStrings(a: seq<Header>, b: seq<Header>, cases: Cases)
    ensures SameHeaders(a, b, cases) <==> multiset(CanonicalEach(a, cases)) == multiset(CanonicalEach(b, cases))
  {
    var s, t := CanonicalEach(a, cases), CanonicalEach(b, cases);
    SortStringsSorts(s);
    SortStringsSorts(t);
    if multiset(s) == multiset(t) {
      assert |a| == |multiset(s)| == |multiset(t)| == |b|;
      SortedUnique(SortStrings(s), SortStrings(t));
    }
  }

  /** What a header matcher selects on: its kind with the default filled in, its name in lower case, its value. */
  function Matcher(h: Header, cases: Cases): Header {
    Header(Map(cases.lower, h.name), h.value, if h.kind == "" then "Exact" else h.kind)
  }

  function MatcherEach(hs: seq<Header>, cases: Cases): seq<Header> {
    Map(h => Matcher(h, cases), hs)
  }

  /** No separator inside a kind or a lower-cased name; header names are tokens, which have none. */
  predicate Separable(hs: seq<Header>, cases: Cases) {
    forall h :: h in hs ==> ':' !in h.kind && '=' !in Map(cases.lower, h.name)
  }

  function Before(s: string, c: char): (r: string)
    ensures |r| <= |s|
  {
    if s == [] || s[0] == c then [] else [s[0]] + Before(s[1..], c)
  }

  function After(s: string, c: char): string {
    if s == [] then [] else if s[0] == c then s[1..] else After(s[1..], c)
  }

  lemma {:induction false} SplitAt(u: string, c: char, v: string)
    requires c !in u
    ensures Before(u + [c] + v, c) == u && After(u + [c] + v, c) == v
  {
    var s := u + [c] + v;
    if u == [] {
      assert s[1..] == v;
    } else {
      assert s[1..] == u[1..] + [c] + v;
      SplitAt(u[1..], c, v);
      assert u == [u[0]] + u[1..];
    }
  }

  /** The matcher read back from a canonical string. */
  function Parsed(s: string): Header {
    var rest := After(s, ':');
    Header(Before(rest, '='), After(rest, '='), Before(s, ':'))
  }

  function Printed(m: Header): string {
    m.kind + ":" + m.name + "=" + m.value
  }

  lemma CanonicalRoundTrip(h: Header, cases: Cases)
    requires ':' !in h.kind && '=' !in Map(cases.lower, h.name)
    ensures Parsed(Canonical(h, cases)) ==
      Header(Map(cases.lower, h.name), h.value, if h.kind == "" then "Exact" else h.kind)
  {
    var m := Matcher(h, cases);
    assert m.kind + ":" + m.name + "=" + m.value == m.kind + ":" + (m.name + "=" + m.value);
    assert ':' !in "Exact";
    SplitAt(m.kind, ':', m.name + "=" + m.value);
    SplitAt(m.name, '=', m.value);
  }

  lemma RemoveOne<T>(s: seq<T>, i: nat)
    requires i < |s|
    ensures multiset(s) == multiset{s[i]} + multiset(s[..i] + s[i + 1..])
  {
    assert s == s[..i] + ([s[i]] + s[i + 1..]);
  }

  lemma MapFirst<T, U>(f: T -> U, x: T, s: seq<T>)
    ensures multiset(Map(f, [x] + s)) == multiset{f(x)} + multiset(Map(f, s))
  {
    assert ([x] + s)[1..] == s;
  }

  lemma MapUnder<T, U>(f: T -> U, y: T, p: seq<T>, x: T, q: seq<T>)
    requires multiset(Map(f, p)) == multiset{f(x)} + multiset(Map(f, q))
    ensures multiset(Map(f, [y] + p)) == multiset{f(x)} + multiset(Map(f, [y] + q))
  {
    MapFirst(f, y, p);
    MapFirst(f, y, q);
  }

  lemma FirstOfConcat<T>(s: seq<T>, t: seq<T>)
    requires s != []
    ensures s + t == [s[0]] + (s[1..] + t)
  {
  }

  lemma {:induction false} MapMiddle<T, U>(f: T -> U, s: seq<T>, x: T, t: seq<T>)
    ensures multiset(Map(f, s + ([x] + t))) == multiset{f(x)} + multiset(Map(f, s + t))
  {
    if s == [] {
      assert s + ([x] + t) == [x] + t && s + t == t;
      MapFirst(f, x, t);
    } else {
      FirstOfConcat(s, [x] + t);
      FirstOfConcat(s, t);
      MapMiddle(f, s[1..], x, t);
      MapUnder(f, s[0], s[1..] + ([x] + t), x, s[1..] + t);
    }
  }

  lemma SplitIndex<T>(s: seq<T>, i: nat)
    requires i < |s|
    ensures s == s[..i] + ([s[i]] + s[i + 1..])
  {
  }

  lemma {:induction false} MapKeepsPermutation<T, U>(f: T -> U, a: seq<T>, b: seq<T>)
    requires multiset(a) == multiset(b)
    ensures multiset(Map(f, a)) == multiset(Map(f, b))
  {
    assert |a| == |multiset(a)| == |b|;
    if a != [] {
      assert a[0] in multiset(b);
      var i :| 0 <= i < |b| && b[i] == a[0];
      HeadAndTail(a);
      RemoveOne(b, i);
      Cancel(a[0], multiset(a[1..]), multiset(b[..i] + b[i + 1..]));
      MapKeepsPermutation(f, a[1..], b[..i] + b[i + 1..]);
      SplitIndex(b, i);
      MapMiddle(f, b[..i], b[i], b[i + 1..]);
      MapFirst(f, a[0], a[1..]);
      assert a == [a[0]] + a[1..];
    }
  }

  lemma {:induction false} CanonicalIsPrinted(hs: seq<Header>, cases: Cases)
    ensures CanonicalEach(hs, cases) == Map(Printed, MatcherEach(hs, cases))
  {
    if hs != [] {
      CanonicalIsPrinted(hs[1..], cases);
      assert MatcherEach(hs, cases)[1..] == MatcherEach(hs[1..], cases);
    }
  }

  lemma {:induction false} ParsedIsMatcher(hs: seq<Header>, cases: Cases)
    requires Separable(hs, cases)
    ensures Map(Parsed, CanonicalEach(hs, cases)) == MatcherEach(hs, cases)
  {
    if hs != [] {
      CanonicalRoundTrip(hs[0], cases);
      ParsedIsMatcher(hs[1..], cases);
      assert CanonicalEach(hs, cases)[1..] == CanonicalEach(hs[1..], cases);
    }
  }

  /** Equal matchers in any order always pass the header test, and when no separator hides in a kind or a name
      only those do. */
  lemma SameHeadersIffSameMatchers(a: seq<Header>, b: seq<Header>, cases: Cases)
    ensures multiset(MatcherEach(a, cases)) == multiset(MatcherEach(b, cases)) ==> SameHeaders(a, b, cases)
    ensures Separable(a, cases) && Separable(b, cases) && SameHeaders(a, b, cases) ==>
      multiset(MatcherEach(a, cases)) == multiset(MatcherEach(b, cases))
  {
    SameHeadersIffSameStrings(a, b, cases);
    if multiset(MatcherEach(a, cases)) == multiset(MatcherEach(b, cases)) {
      CanonicalIsPrinted(a, cases);
      CanonicalIsPrinted(b, cases);
      MapKeepsPermutation(Printed, MatcherEach(a, cases), MatcherEach(b, cases));
    }
    if Separable(a, cases) && Separable(b, cases) && SameHeaders(a, b, cases) {
      ParsedIsMatcher(a, cases);
      ParsedIsMatcher(b, cases);
      MapKeepsPermutation(Parsed, CanonicalEach(a, cases), CanonicalEach(b, cases));
    }
  }

  /** A separator inside a name makes two different matchers pass for one. */
  lemma SeparatorConfuses(cases: Cases)
    requires cases.lower('a') == 'a' && cases.lower('b') == 'b' && cases.lower('=') == '='
    ensures SameHeaders([Header("a=b", "c", "Exact")], [Header("a", "b=c", "Exact")], cases)
    ensures Matcher(Header("a=b", "c", "Exact"), cases) != Matcher(Header("a", "b=c", "Exact"), cases)
  {
    var h, g := Header("a=b", "c", "Exact"), Header("a", "b=c", "Exact");
    assert Map(cases.lower, h.name) == h.name && Map(cases.lower, g.name) == g.name;
    assert Canonical(h, cases) == "Exact:a=b=c" == Canonical(g, cases);
    assert CanonicalEach([h], cases) == CanonicalEach([g], cases);
  }

  // ----- Entries -----

  predicate EntriesOverlap(a: Entry, b: Entry, cases: Cases) {
    if !MethodsOverlap(a.verb, b.verb, cases) then false
    else if !SameHeaders(a.headers, b.headers, cases) then false
    else PathsOverlap(a.pathType, a.path, b.pathType, b.path)
  }

  /** Some method and some path are selected by both entries. */
  ghost predicate ShareRequest(a: Entry, b: Entry, cases: Cases) {
    exists verb, path ::
      && SelectsMethod(a.verb, verb, cases) && SelectsMethod(b.verb, verb, cases)
      && Selects(a.pathType, a.path, path) && Selects(b.pathType, b.path, path)
  }

  /** Two entries overlap exactly when their header matchers agree and one request satisfies both. */
  lemma EntriesOverlapIffShared(a: Entry, b: Entry, cases: Cases)
    ensures EntriesOverlap(a, b, cases) <==> SameHeaders(a.headers, b.headers, cases) && ShareRequest(a, b, cases)
  {
    MethodsOverlapIffShared(a.verb, b.verb, cases);
    PathsOverlapIffShared(a.pathType, a.path, b.pathType, b.path);
    if ShareMethod(a.verb, b.verb, cases) && SharePath(a.pathType, a.path, b.pathType, b.path) {
      var verb :| SelectsMethod(a.verb, verb, cases) && SelectsMethod(b.verb, verb, cases);
      var path :| Selects(a.pathType, a.path, path) && Selects(b.pathType, b.path, path);
      assert ShareRequest(a, b, cases);
    }
  }

  lemma OverlapSymmetric(a: Entry, b: Entry, cases: Cases)
    ensures EntriesOverlap(a, b, cases) == EntriesOverlap(b, a, cases)
  {
  }
}
