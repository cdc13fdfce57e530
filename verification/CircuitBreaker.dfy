// The circuit breaker of the LLM client. Each call reads the clock once.
module CircuitBreaker {

  datatype CircuitState = Closed | Open | HalfOpen

  datatype Fields = Fields(state: CircuitState, consecutiveFails: int, lastFailureTime: int, lastStateChange: int)

  datatype Config = Config(maxFails: int, resetTimeout: int)

  datatype Call = Allow(now: int) | Success(now: int) | Failure(now: int)

  function After(f: Fields, call: Call, cfg: Config): Fields {
    match call
    case Allow(now) =>
      if f.state == Open && now - f.lastStateChange >= cfg.resetTimeout
      then f.(state := HalfOpen, lastStateChange := now) else f
    case Success(now) => f.(consecutiveFails := 0, state := Closed, lastStateChange := now)
    case Failure(now) =>
      var g := f.(consecutiveFails := f.consecutiveFails + 1, lastFailureTime := now);
      if g.consecutiveFails >= cfg.maxFails || f.state == HalfOpen
      then g.(state := Open, lastStateChange := now) else g
  }

  function Allows(f: Fields, now: int, cfg: Config): bool {
    f.state != Open || now - f.lastStateChange >= cfg.resetTimeout
  }

  class Breaker {
    var state: CircuitState
    var consecutiveFails: int
    var lastFailureTime: int
    var lastStateChange: int
    const maxFails: int
    const resetTimeout: int

    function Abs(): Fields
      reads this
    {
      Fields(state, consecutiveFails, lastFailureTime, lastStateChange)
    }

    function Cfg(): Config { Config(maxFails, resetTimeout) }

    constructor (maxFails: int, resetTimeout: int, now: int)
      ensures Abs() == Fields(Closed, 0, 0, now) && Cfg() == Config(maxFails, resetTimeout)
    {
      state, consecutiveFails, lastFailureTime, lastStateChange := Closed, 0, 0, now;
      this.maxFails, this.resetTimeout := maxFails, resetTimeout;
    }

    method AllowRequest(now: int) returns (ok: bool)
      modifies this
      ensures Abs() == After(old(Abs()), Allow(now), Cfg())
      ensures ok == Allows(old(Abs()), now, Cfg())
    {
      match state {
        case Closed =>
          return true;
        case Open =>
          if now - lastStateChange >= resetTimeout {
            state := HalfOpen;
            lastStateChange := now;
            return true;
          }
          return false;
        case HalfOpen =>
          return true;
      }
    }

    method RecordSuccess(now: int)
      modifies this
      ensures Abs() == After(old(Abs()), Success(now), Cfg())
    {
      consecutiveFails := 0;
      state := Closed;
      lastStateChange := now;
    }

    method RecordFailure(now: int)
      modifies this
      ensures Abs() == After(old(Abs()), Failure(now), Cfg())
    {
      consecutiveFails := consecutiveFails + 1;
      lastFailureTime := now;
      if consecutiveFails >= maxFails {
        state := Open;
        lastStateChange := now;
      } else if state == HalfOpen {
        state := Open;
        lastStateChange := now;
      }
    }
  }

  // ---- Closed form over whole runs ----

  function Run(calls: seq<Call>, created: int, cfg: Config): Fields {
    if calls == [] then Fields(Closed, 0, 0, created)
    else After(Run(calls[..|calls| - 1], created, cfg), calls[|calls| - 1], cfg)
  }

  ghost predicate Monotone(calls: seq<Call>) {
    forall i, j :: 0 <= i < j < |calls| ==> calls[i].now <= calls[j].now
  }

  // Failures since the last success; Allow calls do not matter.
  function TrailingFailures(calls: seq<Call>): nat {
    if calls == [] then 0
    else
      match calls[|calls| - 1]
      case Allow(_) => TrailingFailures(calls[..|calls| - 1])
      case Success(_) => 0
      case Failure(_) => TrailingFailures(calls[..|calls| - 1]) + 1
  }

  function LastFailure(calls: seq<Call>): int {
    if calls == [] then 0
    else if calls[|calls| - 1].Failure? then calls[|calls| - 1].now
    else LastFailure(calls[..|calls| - 1])
  }

  // A breaker with maxFails <= 0 trips on its first failure.
  function Threshold(cfg: Config): int { if cfg.maxFails < 1 then 1 else cfg.maxFails }

  lemma {:induction false} RunForm(calls: seq<Call>, created: int, cfg: Config, now: int)
    requires Monotone(calls) && forall i :: 0 <= i < |calls| ==> calls[i].now <= now
    ensures var f := Run(calls, created, cfg);
            && f.consecutiveFails == TrailingFailures(calls)
            && f.lastFailureTime == LastFailure(calls)
            && (f.state == Closed <==> TrailingFailures(calls) < Threshold(cfg))
            && (f.state == Open ==> f.lastStateChange == LastFailure(calls))
            && (f.state == HalfOpen ==> now - LastFailure(calls) >= cfg.resetTimeout)
  {
    if calls != [] {
      RunForm(calls[..|calls| - 1], created, cfg, calls[|calls| - 1].now);
    }
  }

  // For every run with a non-decreasing clock, the breaker is closed exactly
  // while the trailing failures are below the threshold, and a request is let
  // through exactly when it is closed or the timeout since the last failure is
  // over.
  lemma AllowClosedForm(calls: seq<Call>, created: int, cfg: Config, now: int)
    requires Monotone(calls) && forall i :: 0 <= i < |calls| ==> calls[i].now <= now
    ensures var f := Run(calls, created, cfg);
            && (f.state == Closed <==> TrailingFailures(calls) < Threshold(cfg))
            && (Allows(f, now, cfg) <==>
                TrailingFailures(calls) < Threshold(cfg) || now - LastFailure(calls) >= cfg.resetTimeout)
  {
    RunForm(calls, created, cfg, now);
  }

  // The "probe failed" branch of RecordFailure is never taken: in HALF_OPEN the
  // count has already reached maxFails, on every run whatever the clock does.
  lemma {:induction false} HalfOpenHasTripped(calls: seq<Call>, created: int, cfg: Config)
    ensures var f := Run(calls, created, cfg);
            f.consecutiveFails >= 0 && (f.state != Closed ==> f.consecutiveFails >= Threshold(cfg))
  {
    if calls != [] {
      HalfOpenHasTripped(calls[..|calls| - 1], created, cfg);
    }
  }

  lemma ProbeFailedBranchUnreachable(calls: seq<Call>, created: int, cfg: Config)
    ensures var f := Run(calls, created, cfg);
            !(f.consecutiveFails + 1 < cfg.maxFails && f.state == HalfOpen)
  {
    HalfOpenHasTripped(calls, created, cfg);
  }

  // ---- The single probe ----

  function WithoutAllows(calls: seq<Call>): seq<Call> {
    if calls == [] then []
    else WithoutAllows(calls[..|calls| - 1]) + if calls[|calls| - 1].Allow? then [] else [calls[|calls| - 1]]
  }

  lemma {:induction false} OutcomesDecide(calls: seq<Call>)
    ensures TrailingFailures(WithoutAllows(calls)) == TrailingFailures(calls)
    ensures LastFailure(WithoutAllows(calls)) == LastFailure(calls)
    ensures forall c :: c in WithoutAllows(calls) ==> c in calls
    ensures Monotone(calls) ==> Monotone(WithoutAllows(calls))
  {
    if calls != [] {
      var init, last := calls[..|calls| - 1], calls[|calls| - 1];
      OutcomesDecide(init);
      var kept := WithoutAllows(init);
      assert calls == init + [last];
      if last.Allow? {
        assert WithoutAllows(calls) == kept;
      } else {
        assert (kept + [last])[..|kept|] == kept;
        if Monotone(calls) {
          forall i | 0 <= i < |kept| ensures kept[i].now <= last.now {
            assert kept[i] in init;
          }
        }
      }
    }
  }

  // Letting a request through consumes nothing: the answer of Allow depends on
  // the recorded outcomes only, so in HALF_OPEN any number of requests pass
  // until the next outcome, not just one probe.
  lemma AllowsAreNotConsumed(calls: seq<Call>, created: int, cfg: Config, now: int)
    requires Monotone(calls) && forall i :: 0 <= i < |calls| ==> calls[i].now <= now
    ensures Allows(Run(calls, created, cfg), now, cfg) == Allows(Run(WithoutAllows(calls), created, cfg), now, cfg)
  {
    OutcomesDecide(calls);
    forall i | 0 <= i < |WithoutAllows(calls)| ensures WithoutAllows(calls)[i].now <= now {
      assert WithoutAllows(calls)[i] in calls;
    }
    RunForm(calls, created, cfg, now);
    RunForm(WithoutAllows(calls), created, cfg, now);
  }

  // Allow answers during a run of Allow calls only.
  function Passed(f: Fields, nows: seq<int>, cfg: Config): nat
    decreases nows
  {
    if nows == [] then 0
    else (if Allows(f, nows[0], cfg) then 1 else 0) + Passed(After(f, Allow(nows[0]), cfg), nows[1..], cfg)
  }

  // Between two recorded outcomes a tripped breaker lets through exactly the
  // requests made once the timeout is over; so there is a single probe exactly
  // when only one request comes in that time.
  lemma {:induction false} ProbesExactly(f: Fields, nows: seq<int>, cfg: Config)
    requires f.state != Closed
    requires forall i, j :: 0 <= i < j < |nows| ==> nows[i] <= nows[j]
    ensures Passed(f, nows, cfg) == if f.state == HalfOpen then |nows| else Late(nows, f.lastStateChange + cfg.resetTimeout)
    decreases nows
  {
    if nows != [] {
      var g := After(f, Allow(nows[0]), cfg);
      ProbesExactly(g, nows[1..], cfg);
      if f.state == Open && g.state == HalfOpen {
        AllLate(nows[1..], f.lastStateChange + cfg.resetTimeout);
      }
    }
  }

  // Two requests at once pass a breaker whose timeout is over.
  lemma TwoProbesPass(created: int, now: int)
    requires now >= 30
    ensures Passed(Run([Failure(0)], created, Config(1, 30)), [now, now], Config(1, 30)) == 2
  {
    var cfg := Config(1, 30);
    var f := Run([Failure(0)], created, cfg);
    assert Run([], created, cfg) == Fields(Closed, 0, 0, created);
    assert f == Fields(Open, 1, 0, 0);
    ProbesExactly(f, [now, now], cfg);
    AllLate([now, now], 30);
  }

  function Late(nows: seq<int>, deadline: int): nat {
    if nows == [] then 0 else (if nows[0] >= deadline then 1 else 0) + Late(nows[1..], deadline)
  }

  lemma {:induction false} AllLate(nows: seq<int>, deadline: int)
    requires forall i :: 0 <= i < |nows| ==> nows[i] >= deadline
    ensures Late(nows, deadline) == |nows|
  {
    if nows != [] {
      AllLate(nows[1..], deadline);
    }
  }
}
