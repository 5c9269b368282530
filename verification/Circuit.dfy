/** The circuit breaker, one method call at a time: what every trace of calls keeps and grants. */
module Circuit {
  import opened Basics

  /** The clock counts nanoseconds. */
  const SECOND := 1_000_000_000

  const INT32_MAX := 0x7fff_ffff
  const HALF := 0x8000_0000

  /** The value of an `int32` after the mathematical result `x`. */
  function Wrap32(x: int): (r: int)
    ensures -HALF <= r <= INT32_MAX
  {
    (x + HALF) % UINT32 - HALF
  }

  datatype CircuitState = Closed | Open | HalfOpen

  datatype Config = Config(failureThreshold: nat, openDuration: int, maxConnections: nat, maxPendingRequests: nat,
                           maxRequests: nat, maxRetries: nat)

  ghost predicate Valid(cfg: Config) {
    cfg.failureThreshold >= 1
  }

  datatype Breaker = Breaker(state: CircuitState, failures: nat, allowed: int, lastFailure: int,
                             connections: int, requests: int)

  const NEW := Breaker(Closed, 0, 0, 0, 0, 0)

  datatype Call = Allow(now: int) | Success | Failure(now: int) | OnRequest | OnComplete

  /** The breaker after a call. */
  function Next(cfg: Config, b: Breaker, c: Call): Breaker {
    match c
    case Allow(now) =>
      if b.state.Open? then
        if now - b.lastFailure > cfg.openDuration then b.(state := HalfOpen, allowed := 0) else b
      else if b.state.HalfOpen? then b.(allowed := Wrap32(b.allowed - 1))
      else b
    case Success => b.(failures := 0, state := Closed)
    case Failure(now) =>
      var b' := b.(failures := b.failures + 1);
      if b'.failures >= cfg.failureThreshold then b'.(state := Open, lastFailure := now) else b'
    case OnRequest => b.(requests := b.requests + 1, connections := b.connections + 1)
    case OnComplete => b.(requests := b.requests - 1, connections := b.connections - 1)
  }

  /** Whether `Allow` at `now` lets the request through. */
  predicate Grants(cfg: Config, b: Breaker, now: int) {
    match b.state
    case Open => now - b.lastFailure > cfg.openDuration
    case HalfOpen => Wrap32(b.allowed - 1) >= 0
    case Closed => b.connections < cfg.maxConnections && b.requests < cfg.maxRequests
  }

  class CircuitBreaker {
    const cfg: Config
    var consecutiveFailures: nat
    var state: CircuitState
    var halfOpenAllowed: int
    var lastFailure: int
    var activeConnections: int
    var activeRequests: int

    /** A zero limit or threshold selects its default, and so does a duration that is empty or does not parse,
        which `None` stands for. */
    constructor (maxConn: uint32, maxPending: uint32, maxReq: uint32, maxRetry: uint32, failThreshold: uint32,
                 openDur: Option<int>)
      ensures Valid(cfg) && Value() == NEW
      ensures cfg.failureThreshold == if failThreshold == 0 then 5 else failThreshold
      ensures cfg.openDuration == if openDur.None? then 30_000_000_000 else openDur.value
      ensures cfg.maxConnections == (if maxConn == 0 then 1024 else maxConn)
      ensures cfg.maxPendingRequests == (if maxPending == 0 then 1024 else maxPending)
      ensures cfg.maxRequests == (if maxReq == 0 then 1024 else maxReq)
      ensures cfg.maxRetries == (if maxRetry == 0 then 3 else maxRetry)
    {
      var ft, od := 5, 30 * SECOND;
      if failThreshold > 0 {
        ft := failThreshold;
      }
      if openDur.Some? {
        od := openDur.value;
      }
      cfg := Config(ft, od, if maxConn == 0 then 1024 else maxConn, if maxPending == 0 then 1024 else maxPending,
                    if maxReq == 0 then 1024 else maxReq, if maxRetry == 0 then 3 else maxRetry);
      consecutiveFailures, state, halfOpenAllowed, lastFailure := 0, Closed, 0, 0;
      activeConnections, activeRequests := 0, 0;
    }

    ghost function Value(): Breaker
      reads this
    {
      Breaker(state, consecutiveFailures, halfOpenAllowed, lastFailure, activeConnections, activeRequests)
    }

    method AllowRequest(now: int) returns (ok: bool)
      modifies this
      ensures ok == Grants(cfg, old(Value()), now)
      ensures Value() == Next(cfg, old(Value()), Allow(now))
    {
      if state == Open {
        var elapsed := now - lastFailure;
        if elapsed > cfg.openDuration {
          if state == Open {
            state := HalfOpen;
            halfOpenAllowed := 1;
          }
          halfOpenAllowed := Wrap32(halfOpenAllowed - 1);
          return halfOpenAllowed >= 0;
        }
        return false;
      }
      if state == HalfOpen {
        halfOpenAllowed := Wrap32(halfOpenAllowed - 1);
        return halfOpenAllowed >= 0;
      }
      if activeConnections >= cfg.maxConnections {
        return false;
      }
      if activeRequests >= cfg.maxRequests {
        return false;
      }
      return true;
    }

    method RecordSuccess()
      modifies this
      ensures Value() == Next(cfg, old(Value()), Success)
    {
      consecutiveFailures := 0;
      state := Closed;
    }

    method RecordFailure(now: int)
      modifies this
      ensures Value() == Next(cfg, old(Value()), Failure(now))
    {
      consecutiveFailures := consecutiveFailures + 1;
      if consecutiveFailures >= cfg.failureThreshold {
        state := Open;
        lastFailure := now;
      }
    }

    method RequestStarted()
      modifies this
      ensures Value() == Next(cfg, old(Value()), OnRequest)
    {
      activeRequests, activeConnections := activeRequests + 1, activeConnections + 1;
    }

    method RequestCompleted()
      modifies this
      ensures Value() == Next(cfg, old(Value()), OnComplete)
    {
      activeRequests, activeConnections := activeRequests - 1, activeConnections - 1;
    }
  }

  // ----- Traces -----

  function After(cfg: Config, trace: seq<Call>): Breaker {
    if trace == [] then NEW else Next(cfg, After(cfg, trace[..|trace| - 1]), trace[|trace| - 1])
  }

  /** The failures recorded since the last success. */
  function TrailingFailures(trace: seq<Call>): nat {
    if trace == [] then 0
    else
      var before := TrailingFailures(trace[..|trace| - 1]);
      match trace[|trace| - 1]
      case Success => 0
      case Failure(_) => before + 1
      case _ => before
  }

  /** When the latest failure was recorded. */
  function LatestFailure(trace: seq<Call>): int {
    if trace == [] then 0
    else
      match trace[|trace| - 1]
      case Failure(now) => now
      case _ => LatestFailure(trace[..|trace| - 1])
  }

  /** The requests started and not yet completed. */
  function InFlight(trace: seq<Call>): int {
    if trace == [] then 0
    else
      var before := InFlight(trace[..|trace| - 1]);
      match trace[|trace| - 1]
      case OnRequest => before + 1
      case OnComplete => before - 1
      case _ => before
  }

  predicate Overdue(cfg: Config, trace: seq<Call>, now: int) {
    now - LatestFailure(trace) > cfg.openDuration
  }

  /** The `Allow` calls since the latest recorded outcome, counted from the first overdue one on. */
  function ProbeCalls(cfg: Config, trace: seq<Call>): nat {
    if trace == [] then 0
    else
      var rest := trace[..|trace| - 1];
      var before := ProbeCalls(cfg, rest);
      match trace[|trace| - 1]
      case Allow(now) => if before > 0 || Overdue(cfg, rest, now) then before + 1 else 0
      case Success => 0
      case Failure(_) => 0
      case _ => before
  }

  /** The state of the breaker, read off the trace alone. */
  lemma {:induction false} StateFromTrace(cfg: Config, trace: seq<Call>)
    requires Valid(cfg)
    ensures var b := After(cfg, trace);
      && b.failures == TrailingFailures(trace)
      && (b.state.Closed? <==> TrailingFailures(trace) < cfg.failureThreshold)
      && (!b.state.Closed? ==> b.lastFailure == LatestFailure(trace))
      && (!b.state.Closed? ==> (b.state.HalfOpen? <==> ProbeCalls(cfg, trace) > 0))
      && (b.state.HalfOpen? ==> b.allowed == Wrap32(1 - ProbeCalls(cfg, trace)))
      && b.connections == InFlight(trace) && b.requests == InFlight(trace)
  {
    if trace != [] {
      var rest := trace[..|trace| - 1];
      StateFromTrace(cfg, rest);
      WrapDecrement(1 - ProbeCalls(cfg, rest));
    }
  }

  lemma WrapDecrement(x: int)
    ensures Wrap32(Wrap32(x) - 1) == Wrap32(x - 1)
  {
  }

  /** Closed exactly while the trailing run of failures is below the threshold. */
  lemma ClosedIffFewFailures(cfg: Config, trace: seq<Call>)
    requires Valid(cfg)
    ensures After(cfg, trace).state.Closed? <==> TrailingFailures(trace) < cfg.failureThreshold
  {
    StateFromTrace(cfg, trace);
  }

  /** While closed, a request is granted exactly while fewer are in flight than both limits allow. */
  lemma ClosedGrants(cfg: Config, trace: seq<Call>, now: int)
    requires Valid(cfg) && TrailingFailures(trace) < cfg.failureThreshold
    ensures Grants(cfg, After(cfg, trace), now) <==>
      InFlight(trace) < cfg.maxConnections && InFlight(trace) < cfg.maxRequests
  {
    StateFromTrace(cfg, trace);
  }

  /** While not closed, the exact grants: an `Allow` that is overdue, or follows an overdue one, is
      granted exactly when the number of such calls before it, less one, lies in the upper half of the
      32-bit range. The first one is; the next 2^31 are not; then the counter wraps. */
  lemma ProbeGrants(cfg: Config, trace: seq<Call>, now: int)
    requires Valid(cfg) && TrailingFailures(trace) >= cfg.failureThreshold
    ensures Grants(cfg, After(cfg, trace), now) <==>
      && (ProbeCalls(cfg, trace) > 0 || Overdue(cfg, trace, now))
      && (ProbeCalls(cfg, trace) - 1) % 0x1_0000_0000 >= 0x8000_0000
  {
    StateFromTrace(cfg, trace);
    WrapDecrement(1 - ProbeCalls(cfg, trace));
    WrapSign(ProbeCalls(cfg, trace));
  }

  lemma WrapSign(c: nat)
    ensures Wrap32(0 - c) >= 0 <==> (c - 1) % UINT32 >= HALF
  {
  }

  /** A single probe: for up to 2^31 calls, only the first overdue one is granted, so a grant while not
      closed happens only more than `openDuration` after the latest failure. */
  lemma SingleProbe(cfg: Config, trace: seq<Call>, now: int)
    requires Valid(cfg) && TrailingFailures(trace) >= cfg.failureThreshold && ProbeCalls(cfg, trace) <= HALF
    ensures Grants(cfg, After(cfg, trace), now) <==> ProbeCalls(cfg, trace) == 0 && Overdue(cfg, trace, now)
  {
    ProbeGrants(cfg, trace, now);
  }

  /** The failures that open the circuit, then `n` overdue calls. */
  function Flood(cfg: Config, n: nat): seq<Call> {
    if n == 0 then seq(cfg.failureThreshold, _ => Failure(0))
    else Flood(cfg, n - 1) + [Allow(cfg.openDuration + 1)]
  }

  lemma {:induction false} FloodCounts(cfg: Config, n: nat)
    ensures TrailingFailures(Flood(cfg, n)) == cfg.failureThreshold
    ensures LatestFailure(Flood(cfg, n)) == 0 && ProbeCalls(cfg, Flood(cfg, n)) == n
  {
    if n == 0 {
      FailuresCount(cfg, cfg.failureThreshold);
    } else {
      FloodCounts(cfg, n - 1);
      assert Flood(cfg, n)[..|Flood(cfg, n)| - 1] == Flood(cfg, n - 1);
    }
  }

  lemma {:induction false} FailuresCount(cfg: Config, n: nat)
    ensures var t := seq(n, _ => Failure(0));
      TrailingFailures(t) == n && LatestFailure(t) == 0 && ProbeCalls(cfg, t) == 0
  {
    if n > 0 {
      FailuresCount(cfg, n - 1);
      assert seq(n, _ => Failure(0))[..n - 1] == seq(n - 1, _ => Failure(0));
    }
  }

  /** The bound of `SingleProbe` is exact: after 2^31 + 1 calls the counter wraps and the half-open
      circuit grants again, with no outcome recorded in between. */
  lemma FloodIsGranted(cfg: Config)
    requires Valid(cfg)
    ensures TrailingFailures(Flood(cfg, HALF + 1)) == cfg.failureThreshold
    ensures After(cfg, Flood(cfg, HALF + 1)).state.HalfOpen?
    ensures Grants(cfg, After(cfg, Flood(cfg, HALF + 1)), cfg.openDuration + 1)
  {
    FloodCounts(cfg, HALF + 1);
    StateFromTrace(cfg, Flood(cfg, HALF + 1));
    ProbeGrants(cfg, Flood(cfg, HALF + 1), cfg.openDuration + 1);
  }

  /** One failure while half open reopens the circuit, and a success closes it. */
  lemma ProbeOutcome(cfg: Config, trace: seq<Call>, now: int)
    requires Valid(cfg) && TrailingFailures(trace) >= cfg.failureThreshold
    ensures After(cfg, trace + [Failure(now)]).state.Open?
    ensures forall later :: Grants(cfg, After(cfg, trace + [Failure(now)]), later) <==> later - now > cfg.openDuration
    ensures After(cfg, trace + [Success]).state.Closed?
  {
    var failed, succeeded := trace + [Failure(now)], trace + [Success];
    assert failed[..|trace|] == trace && succeeded[..|trace|] == trace;
    StateFromTrace(cfg, failed);
    StateFromTrace(cfg, succeeded);
  }
}
