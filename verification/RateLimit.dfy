/** The per-client token bucket of the rate-limit middleware, with its background eviction. Time is a
    real number of seconds. */
module RateLimit {

  datatype Bucket = Bucket(tokens: real, lastTime: real)

  /** The effective limits of a limiter. */
  datatype Limits = Limits(rps: real, burst: nat)

  type Buckets = map<string, Bucket>

  /** The limits that the configured rate and burst select. */
  function Configured(rps: real, burst: int): Limits {
    var r := if rps <= 0.0 then 10.0 else rps;
    Limits(r, if burst <= 0 then r.Floor else burst)
  }

  ghost predicate Valid(l: Limits) {
    l.rps > 0.0
  }

  // ----- One bucket -----

  /** Tokens earned over a duration. */
  function Earned(l: Limits, d: real): real {
    d * l.rps
  }

  /** Tokens available at `now`, capped at the burst. */
  function Refilled(l: Limits, b: Bucket, now: real): real {
    var t := b.tokens + Earned(l, now - b.lastTime);
    if t > l.burst as real then l.burst as real else t
  }

  function BucketFor(l: Limits, m: Buckets, key: string, now: real): Bucket {
    if key in m then m[key] else Bucket(l.burst as real, now)
  }

  function Available(l: Limits, m: Buckets, key: string, now: real): real {
    Refilled(l, BucketFor(l, m, key, now), now)
  }

  function Grants(l: Limits, m: Buckets, key: string, now: real): bool {
    Available(l, m, key, now) >= 1.0
  }

  function AfterAllow(l: Limits, m: Buckets, key: string, now: real): Buckets {
    var t := Available(l, m, key, now);
    m[key := Bucket(if t >= 1.0 then t - 1.0 else t, now)]
  }

  // ----- Eviction -----

  predicate Stale(l: Limits, b: Bucket, now: real)
    requires l.rps > 0.0
  {
    now - b.lastTime > l.burst as real / l.rps * 2.0
  }

  function AfterEviction(l: Limits, m: Buckets, now: real): Buckets
    requires l.rps > 0.0
  {
    map key | key in m && !Stale(l, m[key], now) :: m[key]
  }

  // ----- The limiter -----

  class TokenBucketLimiter {
    const rps: real
    const burst: nat
    var buckets: Buckets

    constructor (rps: real, burst: int)
      ensures Valid(Effective()) && Effective() == Configured(rps, burst)
      ensures this.rps == if rps <= 0.0 then 10.0 else rps
      ensures this.burst == if burst <= 0 then this.rps.Floor else burst
      ensures buckets == map[]
    {
      var r := if rps <= 0.0 then 10.0 else rps;
      this.rps := r;
      this.burst := if burst <= 0 then r.Floor else burst;
      this.buckets := map[];
    }

    function Effective(): Limits {
      Limits(rps, burst)
    }

    method Allow(key: string, now: real) returns (ok: bool)
      modifies this
      ensures ok == Grants(Effective(), old(buckets), key, now)
      ensures buckets == AfterAllow(Effective(), old(buckets), key, now)
    {
      var b;
      if key in buckets {
        b := buckets[key];
      } else {
        b := Bucket(burst as real, now);
        buckets := buckets[key := b];
      }
      var elapsed := now - b.lastTime;
      b := b.(tokens := b.tokens + elapsed * rps);
      if b.tokens > burst as real {
        b := b.(tokens := burst as real);
      }
      b := b.(lastTime := now);
      ghost var t := Available(Effective(), old(buckets), key, now);
      assert b == Bucket(t, now);
      if b.tokens < 1.0 {
        buckets := buckets[key := b];
        return false;
      }
      b := b.(tokens := b.tokens - 1.0);
      buckets := buckets[key := b];
      return true;
    }

    method EvictStale(now: real)
      requires Valid(Effective())
      modifies this
      ensures buckets == AfterEviction(Effective(), old(buckets), now)
      ensures forall key :: key in buckets <==>
        key in old(buckets) && (now - old(buckets)[key].lastTime) * rps <= 2.0 * burst as real
    {
      var threshold := burst as real / rps * 2.0;
      var todo := buckets.Keys;
      while todo != {}
        invariant todo <= old(buckets).Keys
        invariant forall key :: key in buckets <==>
          key in old(buckets) && (key in todo || !Stale(Effective(), old(buckets)[key], now))
        invariant forall key :: key in buckets ==> buckets[key] == old(buckets)[key]
        decreases todo
      {
        var key :| key in todo;
        if now - buckets[key].lastTime > threshold {
          buckets := buckets - {key};
        }
        todo := todo - {key};
      }
      forall key | key in old(buckets)
        ensures Stale(Effective(), old(buckets)[key], now) <==>
          (now - old(buckets)[key].lastTime) * rps > 2.0 * burst as real
      {
        StaleIff(Effective(), old(buckets)[key], now);
      }
    }
  }

  // ----- Runs -----

  datatype Op = Allow(key: string, at: real) | Evict(at: real)

  /** Times never go back, and none lies before `start`. */
  predicate Ordered(ops: seq<Op>, start: real) {
    && (forall i :: 0 <= i < |ops| ==> start <= ops[i].at)
    && (forall i, j :: 0 <= i < j < |ops| ==> ops[i].at <= ops[j].at)
  }

  /** The buckets after the first `k` operations; with `evicting` off, evictions do nothing. */
  function After(l: Limits, ops: seq<Op>, k: nat, evicting: bool): Buckets
    requires Valid(l) && k <= |ops|
  {
    if k == 0 then map[]
    else
      var m := After(l, ops, k - 1, evicting);
      match ops[k - 1]
      case Allow(key, at) => AfterAllow(l, m, key, at)
      case Evict(at) => if evicting then AfterEviction(l, m, at) else m
  }

  /** Whether operation `i` is a granted request. */
  predicate Granted(l: Limits, ops: seq<Op>, i: nat, evicting: bool)
    requires Valid(l) && i < |ops|
  {
    ops[i].Allow? && Grants(l, After(l, ops, i, evicting), ops[i].key, ops[i].at)
  }

  /** How many requests of `key` are granted among operations `j..k`. */
  function GrantCount(l: Limits, ops: seq<Op>, key: string, j: nat, k: nat, evicting: bool): nat
    requires Valid(l) && k <= |ops|
    decreases k
  {
    if k <= j then 0
    else
      GrantCount(l, ops, key, j, k - 1, evicting)
      + if ops[k - 1].Allow? && ops[k - 1].key == key && Granted(l, ops, k - 1, evicting) then 1 else 0
  }

  // ----- Eviction is unobservable -----

  ghost predicate InRange(l: Limits, m: Buckets, now: real) {
    forall key :: key in m ==> 0.0 <= m[key].tokens && m[key].lastTime <= now
  }

  /** `a` is `b` without some buckets that would be full again by now. */
  ghost predicate Simulates(l: Limits, a: Buckets, b: Buckets, now: real) {
    && (forall key :: key in a ==> key in b && a[key] == b[key])
    && (forall key :: key in b && key !in a ==> Earned(l, now - b[key].lastTime) >= l.burst as real)
  }

  lemma EarnedMono(l: Limits, x: real, y: real)
    requires Valid(l) && x <= y
    ensures Earned(l, x) <= Earned(l, y)
  {
  }

  lemma EarnedZero(l: Limits)
    ensures Earned(l, 0.0) == 0.0
  {
  }

  lemma EarnedSum(l: Limits, x: real, y: real)
    ensures Earned(l, x + y) == Earned(l, x) + Earned(l, y)
  {
  }

  /** A bucket is stale when it has earned more than twice the burst. */
  lemma StaleIff(l: Limits, b: Bucket, now: real)
    requires Valid(l)
    ensures Stale(l, b, now) <==> (now - b.lastTime) * l.rps > 2.0 * l.burst as real
  {
    var idle, refill := now - b.lastTime, l.burst as real / l.rps;
    assert refill * l.rps == l.burst as real;
    ScaleIff(idle, refill * 2.0, l.rps);
  }

  lemma ScaleIff(x: real, y: real, k: real)
    requires k > 0.0
    ensures x > y <==> x * k > y * k
  {
  }

  /** A bucket idle for longer than twice the refill time has refilled. */
  lemma StaleIsFull(l: Limits, b: Bucket, now: real)
    requires Valid(l) && Stale(l, b, now)
    ensures Earned(l, now - b.lastTime) >= l.burst as real
  {
    var refill := l.burst as real / l.rps;
    assert Earned(l, refill) == l.burst as real;
    assert refill >= 0.0;
    EarnedMono(l, refill, now - b.lastTime);
  }

  lemma FreshIsFull(l: Limits, m: Buckets, key: string, at: real)
    requires key !in m
    ensures Available(l, m, key, at) == l.burst as real
  {
    EarnedZero(l);
    assert at - at == 0.0;
  }

  lemma RefilledNotNegative(l: Limits, b: Bucket, now: real)
    requires Valid(l) && 0.0 <= b.tokens && b.lastTime <= now
    ensures Refilled(l, b, now) >= 0.0
  {
    EarnedZero(l);
    EarnedMono(l, 0.0, now - b.lastTime);
  }

  lemma IdleIsFull(l: Limits, b: Bucket, now: real, at: real)
    requires Valid(l) && 0.0 <= b.tokens && now <= at && Earned(l, now - b.lastTime) >= l.burst as real
    ensures Refilled(l, b, at) == l.burst as real
  {
    EarnedMono(l, now - b.lastTime, at - b.lastTime);
  }

  lemma RangeKept(l: Limits, m: Buckets, key: string, at: real, now: real)
    requires Valid(l) && InRange(l, m, now) && now <= at
    ensures InRange(l, AfterAllow(l, m, key, at), at)
  {
    if key in m {
      RefilledNotNegative(l, m[key], at);
    } else {
      FreshIsFull(l, m, key, at);
    }
  }

  /** Both limiters see the same tokens, so they answer alike. */
  lemma SameAvailable(l: Limits, a: Buckets, b: Buckets, key: string, at: real, now: real)
    requires Valid(l) && InRange(l, b, now) && Simulates(l, a, b, now) && now <= at
    ensures Available(l, a, key, at) == Available(l, b, key, at)
  {
    if key !in a {
      FreshIsFull(l, a, key, at);
      if key in b {
        IdleIsFull(l, b[key], now, at);
      } else {
        FreshIsFull(l, b, key, at);
      }
    }
  }

  lemma SimulationLater(l: Limits, a: Buckets, b: Buckets, now: real, at: real)
    requires Valid(l) && Simulates(l, a, b, now) && now <= at
    ensures Simulates(l, a, b, at)
  {
    forall key | key in b && key !in a ensures Earned(l, at - b[key].lastTime) >= l.burst as real {
      EarnedMono(l, now - b[key].lastTime, at - b[key].lastTime);
    }
  }

  lemma AllowKeepsSimulation(l: Limits, a: Buckets, b: Buckets, key: string, at: real)
    requires Valid(l) && InRange(l, b, at) && Simulates(l, a, b, at)
    ensures Simulates(l, AfterAllow(l, a, key, at), AfterAllow(l, b, key, at), at)
  {
    SameAvailable(l, a, b, key, at, at);
  }

  lemma EvictKeepsSimulation(l: Limits, a: Buckets, b: Buckets, at: real)
    requires Valid(l) && Simulates(l, a, b, at)
    ensures Simulates(l, AfterEviction(l, a, at), b, at)
  {
    forall key | key in a && Stale(l, a[key], at) ensures Earned(l, at - b[key].lastTime) >= l.burst as real {
      StaleIsFull(l, a[key], at);
    }
  }

  function Clock(ops: seq<Op>, k: nat, start: real): real
    requires k <= |ops|
  {
    if k == 0 then start else ops[k - 1].at
  }

  lemma {:induction false} RunsSimulate(l: Limits, ops: seq<Op>, k: nat, start: real)
    requires Valid(l) && k <= |ops| && Ordered(ops, start)
    ensures InRange(l, After(l, ops, k, false), Clock(ops, k, start))
    ensures Simulates(l, After(l, ops, k, true), After(l, ops, k, false), Clock(ops, k, start))
  {
    if k > 0 {
      RunsSimulate(l, ops, k - 1, start);
      var now, op := Clock(ops, k - 1, start), ops[k - 1];
      var a, b := After(l, ops, k - 1, true), After(l, ops, k - 1, false);
      SimulationLater(l, a, b, now, op.at);
      match op
      case Allow(key, at) =>
        AllowKeepsSimulation(l, a, b, key, at);
        RangeKept(l, b, key, at, now);
      case Evict(at) => EvictKeepsSimulation(l, a, b, at);
    }
  }

  /** Eviction is unobservable: every request of every run is answered as in the same run without
      evictions. */
  lemma EvictionUnobservable(l: Limits, ops: seq<Op>, i: nat, start: real)
    requires Valid(l) && i < |ops| && Ordered(ops, start)
    ensures Granted(l, ops, i, true) == Granted(l, ops, i, false)
  {
    if ops[i].Allow? {
      RunsSimulate(l, ops, i, start);
      SameAvailable(l, After(l, ops, i, true), After(l, ops, i, false), ops[i].key, ops[i].at, Clock(ops, i, start));
    }
  }

  lemma {:induction false} EvictionKeepsCounts(l: Limits, ops: seq<Op>, key: string, j: nat, k: nat, start: real)
    requires Valid(l) && k <= |ops| && Ordered(ops, start)
    ensures GrantCount(l, ops, key, j, k, true) == GrantCount(l, ops, key, j, k, false)
    decreases k
  {
    if k > j {
      EvictionKeepsCounts(l, ops, key, j, k - 1, start);
      EvictionUnobservable(l, ops, k - 1, start);
    }
  }

  // ----- Exact answers -----

  /** Operation `j` leaves room for `x` more tokens of `key` at time `t`: its burst and the refill since
      it cover the grants from `j` to `k` and `x`. */
  ghost predicate Room(l: Limits, ops: seq<Op>, key: string, j: nat, k: nat, x: real, t: real)
    requires Valid(l) && j < |ops| && k <= |ops|
  {
    x + GrantCount(l, ops, key, j, k, false) as real <= l.burst as real + Earned(l, t - ops[j].at)
  }

  ghost predicate AllRoom(l: Limits, ops: seq<Op>, key: string, k: nat, x: real, t: real)
    requires Valid(l) && k <= |ops|
  {
    forall j: nat :: j < k && Arrival(ops, key, j) ==> Room(l, ops, key, j, k, x, t)
  }

  predicate Arrival(ops: seq<Op>, key: string, j: nat)
    requires j < |ops|
  {
    ops[j].Allow? && ops[j].key == key
  }

  /** The available tokens are the least room over all earlier arrivals of the key, capped at the burst. */
  lemma {:induction false} AvailableIsLeastRoom(l: Limits, ops: seq<Op>, key: string, k: nat, start: real, x: real, t: real)
    requires Valid(l) && k <= |ops| && Ordered(ops, start) && t >= Clock(ops, k, start)
    ensures Available(l, After(l, ops, k, false), key, t) >= x <==>
      x <= l.burst as real && AllRoom(l, ops, key, k, x, t)
    decreases k
  {
    if k == 0 {
      FreshIsFull(l, map[], key, t);
    } else {
      if Arrival(ops, key, k - 1) {
        ArrivalStep(l, ops, key, k, start, x, t);
      } else {
        AvailableIsLeastRoom(l, ops, key, k - 1, start, x, t);
        forall j: nat | j < k && Arrival(ops, key, j)
          ensures Room(l, ops, key, j, k, x, t) <==> Room(l, ops, key, j, k - 1, x, t)
        {
        }
      }
    }
  }

  lemma ArrivalStep(l: Limits, ops: seq<Op>, key: string, k: nat, start: real, x: real, t: real)
    requires Valid(l) && 0 < k <= |ops| && Ordered(ops, start) && t >= Clock(ops, k, start)
    requires Arrival(ops, key, k - 1)
    ensures Available(l, After(l, ops, k, false), key, t) >= x <==>
      x <= l.burst as real && AllRoom(l, ops, key, k, x, t)
    decreases k, 0
  {
    var x' := Shifted(l, ops, k, x, t);
    AvailableIsLeastRoom(l, ops, key, k - 1, start, x', ops[k - 1].at);
    AvailableAfterArrival(l, ops, key, k, x, t);
    RoomsStep(l, ops, key, k, x, t);
  }

  /** Having `x` tokens at `t` after operation `k - 1` means having this many at that operation. */
  ghost function Shifted(l: Limits, ops: seq<Op>, k: nat, x: real, t: real): real
    requires Valid(l) && 0 < k <= |ops|
  {
    x + (if Granted(l, ops, k - 1, false) then 1.0 else 0.0) - Earned(l, t - ops[k - 1].at)
  }

  lemma RoomsStep(l: Limits, ops: seq<Op>, key: string, k: nat, x: real, t: real)
    requires Valid(l) && 0 < k <= |ops| && Arrival(ops, key, k - 1)
    ensures var x' := Shifted(l, ops, k, x, t);
      AllRoom(l, ops, key, k, x, t) <==> x' <= l.burst as real && AllRoom(l, ops, key, k - 1, x', ops[k - 1].at)
  {
    forall j: nat | j < k {
      RoomStep(l, ops, key, k, j, x, t);
    }
  }

  lemma AvailableAfterArrival(l: Limits, ops: seq<Op>, key: string, k: nat, x: real, t: real)
    requires Valid(l) && 0 < k <= |ops| && Arrival(ops, key, k - 1)
    ensures Available(l, After(l, ops, k, false), key, t) >= x <==>
      x <= l.burst as real && Available(l, After(l, ops, k - 1, false), key, ops[k - 1].at) >= Shifted(l, ops, k, x, t)
  {
  }

  lemma RoomStep(l: Limits, ops: seq<Op>, key: string, k: nat, j: nat, x: real, t: real)
    requires Valid(l) && 0 < k <= |ops| && Arrival(ops, key, k - 1) && j < k
    ensures var x' := Shifted(l, ops, k, x, t);
      Room(l, ops, key, j, k, x, t) <==>
        if j == k - 1 then x' <= l.burst as real else Room(l, ops, key, j, k - 1, x', ops[k - 1].at)
  {
    var at := ops[k - 1].at;
    var g: nat := if Granted(l, ops, k - 1, false) then 1 else 0;
    var c := GrantCount(l, ops, key, j, k - 1, false);
    assert GrantCount(l, ops, key, j, k, false) == c + g;
    assert (c + g) as real == c as real + g as real;
    EarnedSum(l, t - at, at - ops[j].at);
    assert t - ops[j].at == (t - at) + (at - ops[j].at);
    EarnedZero(l);
    assert at - at == 0.0;
  }

  /** From request `j` on, the grants before request `k` plus one fit into the burst and the refill. */
  ghost predicate Fits(l: Limits, ops: seq<Op>, key: string, j: nat, k: nat)
    requires Valid(l) && j <= k < |ops|
  {
    (GrantCount(l, ops, key, j, k, true) + 1) as real <= l.burst as real + Earned(l, ops[k].at - ops[j].at)
  }

  lemma GrantedIffFits(l: Limits, ops: seq<Op>, k: nat, start: real)
    requires Valid(l) && k < |ops| && Ordered(ops, start) && ops[k].Allow?
    ensures Granted(l, ops, k, true) <==>
      forall j: nat :: j <= k && Arrival(ops, ops[k].key, j) ==> Fits(l, ops, ops[k].key, j, k)
  {
    var key, t := ops[k].key, ops[k].at;
    EvictionUnobservable(l, ops, k, start);
    AvailableIsLeastRoom(l, ops, key, k, start, 1.0, t);
    forall j: nat | j <= k
      ensures Fits(l, ops, key, j, k) <==> if j == k then 1.0 <= l.burst as real else Room(l, ops, key, j, k, 1.0, t)
    {
      RoomIsFit(l, ops, key, j, k, start);
    }
    assert Granted(l, ops, k, true) <==> Fits(l, ops, key, k, k) && AllRoom(l, ops, key, k, 1.0, t);
    assert AllRoom(l, ops, key, k, 1.0, t) <==>
      forall j: nat :: j < k && Arrival(ops, key, j) ==> Fits(l, ops, key, j, k);
  }

  lemma RoomIsFit(l: Limits, ops: seq<Op>, key: string, j: nat, k: nat, start: real)
    requires Valid(l) && j <= k < |ops| && Ordered(ops, start)
    ensures Fits(l, ops, key, j, k) <==>
      if j == k then 1.0 <= l.burst as real else Room(l, ops, key, j, k, 1.0, ops[k].at)
  {
    EvictionKeepsCounts(l, ops, key, j, k, start);
    var c := GrantCount(l, ops, key, j, k, true);
    assert (c + 1) as real == c as real + 1.0;
    EarnedZero(l);
    assert ops[k].at - ops[k].at == 0.0;
  }

  lemma {:induction false} WindowEarned(l: Limits, ops: seq<Op>, key: string, lo: nat, hi: nat, start: real, from: real, to: real)
    requires Valid(l) && lo <= hi <= |ops| && Ordered(ops, start) && from <= to
    requires forall i :: lo <= i < hi ==> from <= ops[i].at <= to
    ensures GrantCount(l, ops, key, lo, hi, true) as real <= l.burst as real + Earned(l, to - from)
    decreases hi - lo
  {
    if lo == hi {
      EarnedZero(l);
      EarnedMono(l, 0.0, to - from);
    } else if !(Arrival(ops, key, hi - 1) && Granted(l, ops, hi - 1, true)) {
      WindowEarned(l, ops, key, lo, hi - 1, start, from, to);
    } else if !Arrival(ops, key, lo) {
      WindowEarned(l, ops, key, lo + 1, hi, start, from, to);
      CountSkips(l, ops, key, lo, hi);
    } else {
      GrantedIffFits(l, ops, hi - 1, start);
      FitsWindow(l, ops, key, lo, hi - 1, from, to);
    }
  }

  lemma FitsWindow(l: Limits, ops: seq<Op>, key: string, lo: nat, k: nat, from: real, to: real)
    requires Valid(l) && lo <= k < |ops| && from <= ops[lo].at && ops[k].at <= to && Fits(l, ops, key, lo, k)
    ensures (GrantCount(l, ops, key, lo, k, true) + 1) as real <= l.burst as real + Earned(l, to - from)
  {
    EarnedMono(l, ops[k].at - ops[lo].at, to - from);
  }

  lemma {:induction false} CountSkips(l: Limits, ops: seq<Op>, key: string, lo: nat, hi: nat)
    requires Valid(l) && lo < hi <= |ops| && !Arrival(ops, key, lo)
    ensures GrantCount(l, ops, key, lo, hi, true) == GrantCount(l, ops, key, lo + 1, hi, true)
    decreases hi
  {
    if lo + 1 < hi {
      CountSkips(l, ops, key, lo, hi - 1);
    }
  }

  /** The grants from request `j` on and before request `k`, plus one, fit into the burst and what the rate has
      refilled in between. */
  ghost predicate WithinRate(l: Limits, ops: seq<Op>, key: string, j: nat, k: nat)
    requires Valid(l) && j <= k < |ops|
  {
    Covers(l, ops[k].at - ops[j].at, GrantCount(l, ops, key, j, k, true) + 1)
  }

  /** The burst and what the rate refills over a duration suffice for `n` requests. */
  predicate Covers(l: Limits, d: real, n: nat) {
    n as real <= l.burst as real + d * l.rps
  }

  lemma CoversEarned(l: Limits, d: real, n: nat)
    ensures Covers(l, d, n) <==> n as real <= l.burst as real + Earned(l, d)
  {
  }

  /** Exact answers, with eviction running: request `k` is granted exactly when, from every request
      `j <= k` of the same client on, the grants before it plus one fit into the burst and the refill. */
  lemma GrantedIffWithinEveryWindow(l: Limits, ops: seq<Op>, k: nat, start: real)
    requires Valid(l) && k < |ops| && Ordered(ops, start) && ops[k].Allow?
    ensures Granted(l, ops, k, true) <==>
      forall j: nat :: j <= k && Arrival(ops, ops[k].key, j) ==> WithinRate(l, ops, ops[k].key, j, k)
  {
    GrantedIffFits(l, ops, k, start);
    forall j: nat | j <= k ensures WithinRate(l, ops, ops[k].key, j, k) <==> Fits(l, ops, ops[k].key, j, k) {
      CoversEarned(l, ops[k].at - ops[j].at, GrantCount(l, ops, ops[k].key, j, k, true) + 1);
    }
  }

  /** No time window ever admits more than the burst plus the refill over its length. */
  lemma WindowBound(l: Limits, ops: seq<Op>, key: string, lo: nat, hi: nat, start: real, from: real, to: real)
    requires Valid(l) && lo <= hi <= |ops| && Ordered(ops, start) && from <= to
    requires forall i :: lo <= i < hi ==> from <= ops[i].at <= to
    ensures Covers(l, to - from, GrantCount(l, ops, key, lo, hi, true))
  {
    WindowEarned(l, ops, key, lo, hi, start, from, to);
    CoversEarned(l, to - from, GrantCount(l, ops, key, lo, hi, true));
  }

  // ----- When anything is granted at all -----

  /** Some run grants some request exactly when the burst is at least 1: the refill is capped at the burst. */
  lemma GrantsSomethingIffBurst(l: Limits)
    requires Valid(l)
    ensures (exists ops: seq<Op>, k: nat :: k < |ops| && Granted(l, ops, k, true)) <==> l.burst >= 1
  {
    if l.burst >= 1 {
      var ops := [Op.Allow("", 0.0)];
      FreshIsFull(l, map[], "", 0.0);
      assert Granted(l, ops, 0, true);
    }
  }

  /** A rate below one per second without a burst refuses every request of every run. */
  lemma RefusesEverythingIff(rps: real, burst: int)
    ensures (forall ops: seq<Op>, k: nat :: k < |ops| ==> !Granted(Configured(rps, burst), ops, k, true)) <==>
      0.0 < rps < 1.0 && burst <= 0
  {
    GrantsSomethingIffBurst(Configured(rps, burst));
  }
}
