// internal/cluster/circuit_breaker.go: the breaker around calls to one node.  Admissions and
// results interleave freely, since a call's result is recorded after others were admitted.
module CircuitBreaker {

  datatype Mode = Closed | Open | HalfOpen

  datatype Config = Config(failureThreshold: int, successThreshold: int, timeout: int)

  datatype State = State(mode: Mode, failures: int, successes: int, lastFailureTime: int)

  datatype Event = Admit(at: int) | Failure(at: int) | Success(at: int) | Reset(at: int)

  predicate Admits(cfg: Config, s: State, now: int) {
    s.mode != Open || now - s.lastFailureTime > cfg.timeout
  }

  function AfterAdmit(cfg: Config, s: State, now: int): State {
    if s.mode == Open && now - s.lastFailureTime > cfg.timeout then s.(mode := HalfOpen, successes := 0) else s
  }

  function AfterFailure(cfg: Config, s: State, now: int): State {
    var t := s.(failures := s.failures + 1, lastFailureTime := now);
    match s.mode
    case Closed => if t.failures >= cfg.failureThreshold then t.(mode := Open, failures := 0) else t
    case HalfOpen => t.(mode := Open, failures := 0, successes := 0)
    case Open => t
  }

  function AfterSuccess(cfg: Config, s: State): State {
    match s.mode
    case Closed => s.(failures := 0)
    case HalfOpen =>
      if s.successes + 1 >= cfg.successThreshold then s.(mode := Closed, failures := 0, successes := 0)
      else s.(successes := s.successes + 1)
    case Open => s
  }

  class Breaker {
    const cfg: Config
    var mode: Mode
    var failures: int
    var successes: int
    var lastFailureTime: int

    ghost function Now(): State
      reads this
    {
      State(mode, failures, successes, lastFailureTime)
    }

    constructor (cfg: Config)
      ensures this.cfg == cfg && Now() == Init()
    {
      this.cfg := cfg;
      mode, failures, successes, lastFailureTime := Closed, 0, 0, 0;
    }

    method AllowRequest(now: int) returns (r: bool)
      modifies this
      ensures r == Admits(cfg, old(Now()), now)
      ensures Now() == AfterAdmit(cfg, old(Now()), now)
    {
      match mode
      case Closed => return true;
      case Open =>
        if now - lastFailureTime > cfg.timeout {
          mode := HalfOpen;
          successes := 0;
          return true;
        }
        return false;
      case HalfOpen => return true;
    }

    method RecordFailure(now: int)
      modifies this
      ensures Now() == AfterFailure(cfg, old(Now()), now)
    {
      failures := failures + 1;
      lastFailureTime := now;
      match mode
      case Closed =>
        if failures >= cfg.failureThreshold {
          mode := Open;
          failures := 0;
        }
      case HalfOpen =>
        mode := Open;
        failures := 0;
        successes := 0;
      case Open =>
    }

    method RecordSuccess()
      modifies this
      ensures Now() == AfterSuccess(cfg, old(Now()))
    {
      if mode == Closed {
        failures := 0;
        return;
      }
      if mode == HalfOpen {
        successes := successes + 1;
        if successes >= cfg.successThreshold {
          mode := Closed;
          failures := 0;
          successes := 0;
        }
      }
    }

    method ResetState(now: int)
      modifies this
      ensures Now() == Step(cfg, old(Now()), Reset(now))
    {
      mode := Closed;
      failures := 0;
      successes := 0;
    }
  }

  // ----- histories -----

  function Init(): State {
    State(Closed, 0, 0, 0)
  }

  function Step(cfg: Config, s: State, e: Event): State {
    match e
    case Admit(at) => AfterAdmit(cfg, s, at)
    case Failure(at) => AfterFailure(cfg, s, at)
    case Success(_) => AfterSuccess(cfg, s)
    case Reset(_) => s.(mode := Closed, failures := 0, successes := 0)
  }

  /** The breaker after a history that began with a new one. */
  function After(cfg: Config, h: seq<Event>): State {
    if h == [] then Init() else Step(cfg, After(cfg, h[..|h| - 1]), h[|h| - 1])
  }

  /** Failures recorded since the last success or reset. */
  function FailuresInARow(h: seq<Event>): nat {
    if h == [] then 0
    else
      var n := |h| - 1;
      match h[n]
      case Failure(_) => 1 + FailuresInARow(h[..n])
      case Admit(_) => FailuresInARow(h[..n])
      case _ => 0
  }

  predicate HasFailure(h: seq<Event>) {
    exists i :: 0 <= i < |h| && h[i].Failure?
  }

  /** When the last failure was recorded. */
  function LastFailure(h: seq<Event>): int
    requires HasFailure(h)
  {
    var n := |h| - 1;
    if h[n].Failure? then h[n].at
    else
      assert HasFailure(h[..n]) by {
        var i :| 0 <= i < |h| && h[i].Failure?;
        assert h[..n][i].Failure?;
      }
      LastFailure(h[..n])
  }

  function SuccessesIn(h: seq<Event>): nat {
    if h == [] then 0
    else (if h[|h| - 1].Success? then 1 else 0) + SuccessesIn(h[..|h| - 1])
  }

  /** Event `i` found the breaker open and admitted; only admissions and successes came after it. */
  predicate TrialSince(cfg: Config, h: seq<Event>, i: nat) {
    && i < |h| && h[i].Admit? && After(cfg, h[..i]).mode == Open && Admits(cfg, After(cfg, h[..i]), h[i].at)
    && forall j :: i < j < |h| ==> h[j].Admit? || h[j].Success?
  }

  ghost predicate Faithful(cfg: Config, h: seq<Event>) {
    var s := After(cfg, h);
    && (s.mode == Closed ==> s.failures == FailuresInARow(h))
    && (s.mode == Open ==> HasFailure(h) && s.lastFailureTime == LastFailure(h))
    && (s.mode == HalfOpen ==> exists i :: 0 <= i < |h| && TrialSince(cfg, h, i) && s.successes == SuccessesIn(h[i + 1..]))
  }

  lemma TrialGoesOn(cfg: Config, h: seq<Event>, e: Event, i: nat)
    requires TrialSince(cfg, h, i) && (e.Admit? || e.Success?)
    ensures TrialSince(cfg, h + [e], i)
    ensures SuccessesIn((h + [e])[i + 1..]) == SuccessesIn(h[i + 1..]) + if e.Success? then 1 else 0
  {
    var g := h + [e];
    assert g[..i] == h[..i];
    assert g[i + 1..] == h[i + 1..] + [e];
    assert g[i + 1..][..|g[i + 1..]| - 1] == h[i + 1..];
  }

  lemma LastIsLast(h: seq<Event>, e: Event)
    ensures (h + [e])[..|h + [e]| - 1] == h && (h + [e])[|h + [e]| - 1] == e
  {
  }

  lemma FailuresGrow(cfg: Config, h: seq<Event>, e: Event)
    requires Faithful(cfg, h) && After(cfg, h + [e]).mode == Closed
    ensures After(cfg, h + [e]).failures == FailuresInARow(h + [e])
  {
    LastIsLast(h, e);
  }

  lemma LastFailureStays(h: seq<Event>, e: Event)
    requires HasFailure(h) || e.Failure?
    ensures HasFailure(h + [e]) && LastFailure(h + [e]) == if e.Failure? then e.at else LastFailure(h)
  {
    LastIsLast(h, e);
    if e.Failure? {
      assert (h + [e])[|h|].Failure?;
    } else {
      var i :| 0 <= i < |h| && h[i].Failure?;
      assert (h + [e])[i].Failure?;
    }
  }

  lemma OpenGrows(cfg: Config, h: seq<Event>, e: Event)
    requires Faithful(cfg, h) && After(cfg, h + [e]).mode == Open
    ensures HasFailure(h + [e]) && After(cfg, h + [e]).lastFailureTime == LastFailure(h + [e])
  {
    LastIsLast(h, e);
    LastFailureStays(h, e);
  }

  lemma TrialGrows(cfg: Config, h: seq<Event>, e: Event) returns (i: nat)
    requires Faithful(cfg, h) && After(cfg, h + [e]).mode == HalfOpen
    ensures i < |h + [e]| && TrialSince(cfg, h + [e], i) && After(cfg, h + [e]).successes == SuccessesIn((h + [e])[i + 1..])
  {
    LastIsLast(h, e);
    if After(cfg, h).mode == HalfOpen {
      i :| 0 <= i < |h| && TrialSince(cfg, h, i) && After(cfg, h).successes == SuccessesIn(h[i + 1..]);
      TrialGoesOn(cfg, h, e, i);
    } else {
      i := |h|;
      assert (h + [e])[..i] == h && (h + [e])[i + 1..] == [];
    }
  }

  lemma HistoryGrows(cfg: Config, h: seq<Event>, e: Event)
    requires Faithful(cfg, h)
    ensures Faithful(cfg, h + [e])
  {
    match After(cfg, h + [e]).mode
    case Closed => FailuresGrow(cfg, h, e);
    case Open => OpenGrows(cfg, h, e);
    case HalfOpen => var i := TrialGrows(cfg, h, e);
  }

  lemma {:induction false} EveryHistoryIsFaithful(cfg: Config, h: seq<Event>)
    ensures Faithful(cfg, h)
    decreases |h|
  {
    if h != [] {
      var n := |h| - 1;
      EveryHistoryIsFaithful(cfg, h[..n]);
      HistoryGrows(cfg, h[..n], h[n]);
      assert h[..n] + [h[n]] == h;
    }
  }

  lemma AfterOneMore(cfg: Config, h: seq<Event>, e: Event)
    ensures After(cfg, h + [e]) == Step(cfg, After(cfg, h), e)
  {
    assert (h + [e])[..|h + [e]| - 1] == h;
  }

  /** A closed breaker opens exactly on a failure that completes the threshold with no success between. */
  lemma OpensExactly(cfg: Config, h: seq<Event>, e: Event)
    requires After(cfg, h).mode == Closed
    ensures After(cfg, h + [e]).mode == Open <==> e.Failure? && FailuresInARow(h + [e]) >= cfg.failureThreshold
    ensures cfg.failureThreshold >= 1 && After(cfg, h + [e]).mode == Open ==> FailuresInARow(h + [e]) == cfg.failureThreshold
  {
    EveryHistoryIsFaithful(cfg, h);
    AfterOneMore(cfg, h, e);
    assert (h + [e])[..|h + [e]| - 1] == h;
    ClosedIsBelowThreshold(cfg, h);
  }

  lemma {:induction false} ClosedIsBelowThreshold(cfg: Config, h: seq<Event>)
    requires cfg.failureThreshold >= 1 ==> After(cfg, h).mode == Closed
    ensures cfg.failureThreshold >= 1 ==> After(cfg, h).failures < cfg.failureThreshold
    decreases |h|
  {
    if h != [] && cfg.failureThreshold >= 1 && After(cfg, h[..|h| - 1]).mode == Closed {
      ClosedIsBelowThreshold(cfg, h[..|h| - 1]);
    }
  }

  /** An open breaker admits exactly when more than the timeout has passed since the last recorded failure. */
  lemma AdmitsExactly(cfg: Config, h: seq<Event>, now: int)
    requires After(cfg, h).mode == Open
    ensures HasFailure(h)
    ensures Admits(cfg, After(cfg, h), now) <==> now - LastFailure(h) > cfg.timeout
  {
    EveryHistoryIsFaithful(cfg, h);
  }

  /**
   * Short of a reset, a half-open breaker closes exactly on the success that completes the
   * threshold since its trial began, a trial in which nothing but admissions and successes happened.
   */
  lemma ClosesExactly(cfg: Config, h: seq<Event>, e: Event) returns (i: nat)
    requires After(cfg, h).mode == HalfOpen && !e.Reset?
    ensures TrialSince(cfg, h, i)
    ensures After(cfg, h + [e]).mode == Closed <==> e.Success? && SuccessesIn(h[i + 1..]) + 1 >= cfg.successThreshold
  {
    EveryHistoryIsFaithful(cfg, h);
    AfterOneMore(cfg, h, e);
    i :| 0 <= i < |h| && TrialSince(cfg, h, i) && After(cfg, h).successes == SuccessesIn(h[i + 1..]);
  }

  /** A trial goes on through its admissions and successes until they complete the threshold, and then the breaker is closed. */
  lemma {:induction false} TrialExactly(cfg: Config, h: seq<Event>, i: nat)
    requires TrialSince(cfg, h, i)
    ensures var k, s := SuccessesIn(h[i + 1..]), After(cfg, h);
            if k == 0 || k < cfg.successThreshold then s.mode == HalfOpen && s.successes == k else s.mode == Closed
    decreases |h|
  {
    var n := |h| - 1;
    if i == n {
      assert h[i + 1..] == [];
    } else {
      var before, e := h[..n], h[n];
      assert before[..i] == h[..i] && h == before + [e];
      assert TrialSince(cfg, before, i);
      TrialExactly(cfg, before, i);
      TrialGoesOn(cfg, before, e, i);
      AfterOneMore(cfg, before, e);
    }
  }

  /** The breaker is half open exactly during a trial whose successes do not complete the threshold. */
  lemma HalfOpenExactly(cfg: Config, h: seq<Event>)
    ensures After(cfg, h).mode == HalfOpen <==>
            exists i :: 0 <= i < |h| && TrialSince(cfg, h, i) &&
                        (SuccessesIn(h[i + 1..]) == 0 || SuccessesIn(h[i + 1..]) < cfg.successThreshold)
  {
    EveryHistoryIsFaithful(cfg, h);
    forall i | 0 <= i < |h| && TrialSince(cfg, h, i)
      ensures After(cfg, h).mode == HalfOpen <==> SuccessesIn(h[i + 1..]) == 0 || SuccessesIn(h[i + 1..]) < cfg.successThreshold
    {
      TrialExactly(cfg, h, i);
    }
  }

  /** Successes are counted in a trial only, and failures afresh when the breaker has opened. */
  lemma {:induction false} CountersExactly(cfg: Config, h: seq<Event>)
    ensures After(cfg, h).mode != HalfOpen ==> After(cfg, h).successes == 0
    ensures h != [] && After(cfg, h[..|h| - 1]).mode != Open && After(cfg, h).mode == Open ==> After(cfg, h).failures == 0
    decreases |h|
  {
    if h != [] {
      CountersExactly(cfg, h[..|h| - 1]);
    }
  }
}
