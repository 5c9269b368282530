/** What several modules share: optional values, 32-bit words and facts about collections. */
module Basics {

  datatype Option<+T> = None | Some(value: T)

  const UINT32 := 0x1_0000_0000

  type uint32 = x: nat | x < UINT32

  /** The naturals below `n`. */
  ghost function Below(n: nat): (s: set<nat>)
    ensures forall r: nat :: r in s <==> r < n
    ensures |s| == n
  {
    if n == 0 then {} else Below(n - 1) + {n - 1}
  }

  predicate IsDigit(c: char) {
    '0' <= c <= '9'
  }

  /** The number that a string of digits spells, if it is one. */
  function Number(s: string): Option<nat> {
    if s == [] then Some(0)
    else if !IsDigit(s[|s| - 1]) then None
    else
      match Number(s[..|s| - 1])
      case None => None
      case Some(n) => Some(10 * n + (s[|s| - 1] as int - '0' as int))
  }

  lemma Associative<T>(a: seq<T>, b: seq<T>, c: seq<T>)
    ensures a + b + c == a + (b + c)
  {
  }

  ghost predicate AnyOf<T>(s: seq<T>, f: T -> bool) {
    exists i :: 0 <= i < |s| && f(s[i])
  }

  /** An element that satisfies `f` comes before one that satisfies `g`. */
  ghost predicate OrderedPair<T>(s: seq<T>, f: T -> bool, g: T -> bool) {
    exists i, j :: 0 <= i < j < |s| && f(s[i]) && g(s[j])
  }

  lemma AnyOfLast<T>(s: seq<T>, e: T, f: T -> bool)
    ensures AnyOf(s + [e], f) <==> AnyOf(s, f) || f(e)
  {
    var t := s + [e];
    if i :| 0 <= i < |s| && f(s[i]) {
      assert f(t[i]);
    }
    if f(e) {
      assert f(t[|s|]);
    }
  }

  lemma OrderedPairLast<T>(s: seq<T>, e: T, f: T -> bool, g: T -> bool)
    ensures OrderedPair(s + [e], f, g) <==> OrderedPair(s, f, g) || (AnyOf(s, f) && g(e))
  {
    var t := s + [e];
    if i, j :| 0 <= i < j < |s| && f(s[i]) && g(s[j]) {
      assert f(t[i]) && g(t[j]);
    }
    if AnyOf(s, f) && g(e) {
      var i :| 0 <= i < |s| && f(s[i]);
      assert f(t[i]) && g(t[|s|]);
    }
    if i, j :| 0 <= i < j < |t| && f(t[i]) && g(t[j]) {
      assert f(s[i]);
      assert j < |s| ==> g(s[j]);
    }
  }

  // ----- Selections: the values that a partial function has on a sequence, in order -----

  /** The positions of `s` at which `f` has a value, in order. */
  ghost predicate ArePositions<T, U>(s: seq<T>, f: T -> Option<U>, at: seq<nat>) {
    && (forall i, j :: 0 <= i < j < |at| ==> at[i] < at[j])
    && (forall i :: 0 <= i < |at| ==> at[i] < |s| && f(s[at[i]]).Some?)
    && (forall k :: 0 <= k < |s| && f(s[k]).Some? ==> k in at)
  }

  ghost predicate ValuesAt<T, U>(s: seq<T>, f: T -> Option<U>, r: seq<U>, at: seq<nat>) {
    ArePositions(s, f, at) && |at| == |r| && forall i :: 0 <= i < |at| ==> r[i] == f(s[at[i]]).value
  }

  /** `r` lists the values of `f` on `s`, one for each position that has one and in the order of the positions. */
  ghost predicate AreValues<T, U>(s: seq<T>, f: T -> Option<U>, r: seq<U>) {
    exists at :: ValuesAt(s, f, r, at)
  }

  lemma NoValues<T, U>(f: T -> Option<U>)
    ensures AreValues([], f, [])
  {
    assert ValuesAt([], f, [], []);
  }

  lemma LastPosition<T, U>(s: seq<T>, f: T -> Option<U>, at: seq<nat>)
    requires s != [] && ArePositions(s[..|s| - 1], f, at)
    ensures ArePositions(s, f, if f(s[|s| - 1]).Some? then at + [|s| - 1] else at)
  {
    var n := |s| - 1;
    var rest, at' := s[..n], if f(s[n]).Some? then at + [n] else at;
    forall i | 0 <= i < |at'| ensures at'[i] < |s| && f(s[at'[i]]).Some? {
      assert i < |at| ==> rest[at[i]] == s[at[i]];
    }
    forall k | 0 <= k < |s| && f(s[k]).Some? ensures k in at' {
      assert k < n ==> rest[k] == s[k];
      assert k == n ==> at'[|at|] == k;
    }
  }

  lemma ValuesStep<T, U>(s: seq<T>, f: T -> Option<U>, before: seq<U>, r: seq<U>, at: seq<nat>)
    requires s != [] && ValuesAt(s[..|s| - 1], f, before, at)
    requires r == match f(s[|s| - 1]) case Some(x) => before + [x] case None => before
    ensures ValuesAt(s, f, r, if f(s[|s| - 1]).Some? then at + [|s| - 1] else at)
  {
    var n := |s| - 1;
    var rest, at' := s[..n], if f(s[n]).Some? then at + [n] else at;
    LastPosition(s, f, at);
    forall i | 0 <= i < |at'| ensures r[i] == f(s[at'[i]]).value {
      assert i < |at| ==> rest[at[i]] == s[at[i]];
    }
  }

  lemma LastValue<T, U>(s: seq<T>, f: T -> Option<U>, before: seq<U>, r: seq<U>)
    requires s != [] && AreValues(s[..|s| - 1], f, before)
    requires r == match f(s[|s| - 1]) case Some(x) => before + [x] case None => before
    ensures AreValues(s, f, r)
  {
    var at: seq<nat> :| ValuesAt(s[..|s| - 1], f, before, at);
    ValuesStep(s, f, before, r, at);
  }

  /** A function that has a value everywhere selects every position. */
  lemma AllValues<T, U>(s: seq<T>, f: T -> Option<U>, r: seq<U>)
    requires AreValues(s, f, r) && forall k :: 0 <= k < |s| ==> f(s[k]).Some?
    ensures |r| == |s| && forall k :: 0 <= k < |s| ==> f(s[k]) == Some(r[k])
  {
    var at: seq<nat> :| ValuesAt(s, f, r, at);
    EveryPosition(at, |s|);
  }

  lemma {:induction false} EveryPosition(at: seq<nat>, n: nat)
    requires (forall i, j :: 0 <= i < j < |at| ==> at[i] < at[j]) && (forall i :: 0 <= i < |at| ==> at[i] < n)
    requires forall k :: 0 <= k < n ==> k in at
    ensures |at| == n && forall i :: 0 <= i < n ==> at[i] == i
  {
    if at == [] {
      assert n > 0 ==> 0 in at;
    } else {
      var m := |at| - 1;
      assert at[m] < n;
      assert n - 1 in at;
      assert at[m] == n - 1;
      forall k | 0 <= k < n - 1 ensures k in at[..m] {
        assert k in at;
        var i :| 0 <= i < |at| && at[i] == k;
        assert at[..m][i] == k;
      }
      EveryPosition(at[..m], n - 1);
    }
  }
}
