// internal/auth/rate_limiter.go: the login rate limiter.  Seconds are reals and the clock
// never goes back.
module LoginLimiter {

  datatype Attempt = Attempt(count: int, firstTry: real, lastTry: real)

  type Attempts = map<string, Attempt>

  /** No running window: nothing recorded, or the window has expired. */
  predicate Expired(log: Attempts, ip: string, window: real, now: real) {
    ip !in log || now - log[ip].firstTry > window
  }

  predicate MayLogin(log: Attempts, ip: string, max: int, window: real, now: real) {
    Expired(log, ip, window, now) || log[ip].count < max
  }

  /** One more attempt: it opens a window or is counted in the running one. */
  function Counted(log: Attempts, ip: string, window: real, now: real): Attempts {
    if Expired(log, ip, window, now) then log[ip := Attempt(1, now, now)]
    else log[ip := Attempt(log[ip].count + 1, log[ip].firstTry, now)]
  }

  function AfterCheck(log: Attempts, ip: string, max: int, window: real, now: real): Attempts {
    if MayLogin(log, ip, max, window, now) then Counted(log, ip, window, now) else log
  }

  function AfterCleanup(log: Attempts, window: real, now: real): Attempts {
    map ip | ip in log && now - log[ip].lastTry <= window :: log[ip]
  }

  class LoginRateLimiter {
    var attempts: Attempts
    var maxAttempts: int
    const window: real

    constructor (maxAttempts: int, windowSeconds: int)
      ensures attempts == map[] && this.maxAttempts == maxAttempts && window == windowSeconds as real
    {
      attempts, this.maxAttempts, window := map[], maxAttempts, windowSeconds as real;
    }

    method AllowLogin(ip: string, now: real) returns (r: bool)
      ensures r == MayLogin(attempts, ip, maxAttempts, window, now)
    {
      if ip !in attempts {
        return true;
      }
      if now - attempts[ip].firstTry > window {
        return true;
      }
      if attempts[ip].count >= maxAttempts {
        return false;
      }
      return true;
    }

    method RecordFailedAttempt(ip: string, now: real)
      modifies this`attempts
      ensures attempts == Counted(old(attempts), ip, window, now)
    {
      if ip !in attempts || now - attempts[ip].firstTry > window {
        attempts := attempts[ip := Attempt(1, now, now)];
        return;
      }
      attempts := attempts[ip := Attempt(attempts[ip].count + 1, attempts[ip].firstTry, now)];
    }

    method UpdateMaxAttempts(n: int)
      modifies this`maxAttempts
      ensures maxAttempts == if n <= 0 then old(maxAttempts) else n
    {
      if n > 0 {
        maxAttempts := n;
      }
    }

    /** CheckAndRecord: its answer is AllowLogin's at the same instant. */
    method CheckAndRecord(ip: string, now: real) returns (r: bool)
      modifies this`attempts
      ensures r == MayLogin(old(attempts), ip, maxAttempts, window, now)
      ensures attempts == AfterCheck(old(attempts), ip, maxAttempts, window, now)
    {
      if ip !in attempts || now - attempts[ip].firstTry > window {
        attempts := attempts[ip := Attempt(1, now, now)];
        return true;
      }
      if attempts[ip].count >= maxAttempts {
        return false;
      }
      attempts := attempts[ip := Attempt(attempts[ip].count + 1, attempts[ip].firstTry, now)];
      return true;
    }

    method Cleanup(now: real)
      modifies this`attempts
      ensures attempts == AfterCleanup(old(attempts), window, now)
    {
      var rest := attempts.Keys;
      while rest != {}
        invariant rest <= old(attempts).Keys
        invariant forall ip :: ip in attempts <==>
          ip in old(attempts) && (ip in rest || now - old(attempts)[ip].lastTry <= window)
        invariant forall ip :: ip in attempts ==> attempts[ip] == old(attempts)[ip]
      {
        var ip :| ip in rest;
        rest := rest - {ip};
        if now - attempts[ip].lastTry > window {
          attempts := attempts - {ip};
        }
      }
    }
  }

  // ----- traces -----

  datatype Event =
    | Check(ip: string, at: real)          // CheckAndRecord
    | Peek(ip: string, at: real)           // AllowLogin
    | Record(ip: string, at: real)         // RecordFailedAttempt
    | SetMax(n: int, at: real)
    | Reset(ip: string, at: real)
    | Cleanup(at: real)

  datatype State = State(attempts: Attempts, max: int)

  function Step(s: State, window: real, e: Event): State {
    match e
    case Check(ip, at) => s.(attempts := AfterCheck(s.attempts, ip, s.max, window, at))
    case Peek(_, _) => s
    case Record(ip, at) => s.(attempts := Counted(s.attempts, ip, window, at))
    case SetMax(n, _) => if n <= 0 then s else s.(max := n)
    case Reset(ip, _) => s.(attempts := s.attempts - {ip})
    case Cleanup(at) => s.(attempts := AfterCleanup(s.attempts, window, at))
  }

  /** The answers to the checks and peeks of a trace, in order. */
  function Answers(s: State, window: real, events: seq<Event>): seq<bool>
    decreases |events|
  {
    if events == [] then []
    else
      (if events[0].Check? || events[0].Peek? then [MayLogin(s.attempts, events[0].ip, s.max, window, events[0].at)] else []) +
      Answers(Step(s, window, events[0]), window, events[1..])
  }

  predicate Ordered(now: real, events: seq<Event>)
    decreases |events|
  {
    events == [] || (now <= events[0].at && Ordered(events[0].at, events[1..]))
  }

  predicate Valid(log: Attempts, now: real) {
    forall ip :: ip in log ==> log[ip].count >= 1 && log[ip].firstTry <= log[ip].lastTry <= now
  }

  lemma StepKeepsValid(s: State, window: real, now: real, e: Event)
    requires Valid(s.attempts, now) && now <= e.at
    ensures Valid(Step(s, window, e).attempts, e.at)
  {
  }

  // ----- cleanup is invisible -----

  function WithoutCleanups(events: seq<Event>): seq<Event> {
    if events == [] then []
    else (if events[0].Cleanup? then [] else [events[0]]) + WithoutCleanups(events[1..])
  }

  /** `cleaned` lacks only expired entries of `kept`. */
  predicate Alike(cleaned: Attempts, kept: Attempts, window: real, now: real) {
    && (forall ip :: ip in cleaned ==> ip in kept && kept[ip] == cleaned[ip])
    && (forall ip :: ip in kept && ip !in cleaned ==> now - kept[ip].firstTry > window)
  }

  lemma AlikeSteps(c: State, k: State, window: real, now: real, e: Event)
    requires c.max == k.max && Alike(c.attempts, k.attempts, window, now) && Valid(k.attempts, now) && now <= e.at
    requires !e.Cleanup?
    ensures e.Check? || e.Peek? ==>
            MayLogin(c.attempts, e.ip, c.max, window, e.at) == MayLogin(k.attempts, e.ip, k.max, window, e.at)
    ensures Step(c, window, e).max == Step(k, window, e).max
    ensures Alike(Step(c, window, e).attempts, Step(k, window, e).attempts, window, e.at)
  {
  }

  /** Removing every cleanup from a trace changes no answer. */
  lemma {:induction false} CleanupsAreInvisible(c: State, k: State, window: real, now: real, events: seq<Event>)
    requires c.max == k.max && Alike(c.attempts, k.attempts, window, now) && Valid(k.attempts, now) && Ordered(now, events)
    ensures Answers(c, window, events) == Answers(k, window, WithoutCleanups(events))
    decreases |events|
  {
    if events != [] {
      var e, rest := events[0], events[1..];
      if e.Cleanup? {
        CleanupsAreInvisible(Step(c, window, e), k, window, e.at, rest);
        assert WithoutCleanups(events) == WithoutCleanups(rest);
      } else {
        AlikeSteps(c, k, window, now, e);
        StepKeepsValid(k, window, now, e);
        CleanupsAreInvisible(Step(c, window, e), Step(k, window, e), window, e.at, rest);
        assert WithoutCleanups(events)[1..] == WithoutCleanups(rest);
      }
    }
  }

  // ----- what counts -----

  /** The check is turned down. */
  predicate Denied(s: State, window: real, e: Event) {
    e.Check? && !MayLogin(s.attempts, e.ip, s.max, window, e.at)
  }

  function WithoutDenials(s: State, window: real, events: seq<Event>): seq<Event>
    decreases |events|
  {
    if events == [] then []
    else (if Denied(s, window, events[0]) then [] else [events[0]]) + WithoutDenials(Step(s, window, events[0]), window, events[1..])
  }

  function After(s: State, window: real, events: seq<Event>): State
    decreases |events|
  {
    if events == [] then s else After(Step(s, window, events[0]), window, events[1..])
  }

  /** Logins that were turned down leave no trace: they neither count nor prolong the window. */
  lemma {:induction false} DenialsAreInvisible(s: State, window: real, events: seq<Event>)
    ensures After(s, window, events) == After(s, window, WithoutDenials(s, window, events))
    decreases |events|
  {
    if events != [] {
      DenialsAreInvisible(Step(s, window, events[0]), window, events[1..]);
      if Denied(s, window, events[0]) {
        assert WithoutDenials(s, window, events) == WithoutDenials(Step(s, window, events[0]), window, events[1..]);
      } else {
        assert WithoutDenials(s, window, events)[1..] == WithoutDenials(Step(s, window, events[0]), window, events[1..]);
      }
    }
  }

  /** The limit is not changed and the address is not reset; all happens up to `end`. */
  predicate Undisturbed(ip: string, end: real, events: seq<Event>) {
    forall i :: 0 <= i < |events| ==> events[i].at <= end && !events[i].SetMax? && events[i] != Reset(ip, events[i].at)
  }

  /** Failed attempts recorded for the address, and checks of it that passed. */
  function Spent(s: State, window: real, ip: string, events: seq<Event>): nat
    decreases |events|
  {
    if events == [] then 0
    else
      (if (events[0].Record? && events[0].ip == ip) || (events[0].Check? && events[0].ip == ip && !Denied(s, window, events[0])) then 1 else 0) +
      Spent(Step(s, window, events[0]), window, ip, events[1..])
  }

  /** The address has a running window. */
  predicate Running(s: State, window: real, ip: string, end: real) {
    ip in s.attempts && end - s.attempts[ip].firstTry <= window
  }

  lemma RunningStep(s: State, window: real, ip: string, now: real, end: real, e: Event)
    requires Running(s, window, ip, end) && Valid(s.attempts, now) && now <= e.at <= end && !e.SetMax? && e != Reset(ip, e.at)
    ensures var t := Step(s, window, e);
            && Running(t, window, ip, end) && t.max == s.max && t.attempts[ip].firstTry == s.attempts[ip].firstTry
            && t.attempts[ip].count == s.attempts[ip].count + Spent(s, window, ip, [e])
  {
    assert [e][1..] == [];
  }

  lemma {:induction false} RunningStays(s: State, window: real, ip: string, now: real, end: real, events: seq<Event>)
    requires Running(s, window, ip, end) && Valid(s.attempts, now) && Ordered(now, events) && Undisturbed(ip, end, events)
    ensures var t := After(s, window, events);
            && Running(t, window, ip, end) && t.max == s.max && t.attempts[ip].firstTry == s.attempts[ip].firstTry
            && t.attempts[ip].count == s.attempts[ip].count + Spent(s, window, ip, events)
    decreases |events|
  {
    if events != [] {
      RunningStep(s, window, ip, now, end, events[0]);
      assert [events[0]][1..] == [];
      StepKeepsValid(s, window, now, events[0]);
      RunningStays(Step(s, window, events[0]), window, ip, events[0].at, end, events[1..]);
    }
  }

  /**
   * Within one window, and whatever else goes on, an address may log in exactly while its failed
   * attempts and passed checks since the window began are fewer than the limit; and once it is over.
   */
  lemma LockedExactly(s: State, window: real, ip: string, first: Event, end: real, events: seq<Event>, t: real)
    requires Expired(s.attempts, ip, window, first.at) && (first == Record(ip, first.at) || first == Check(ip, first.at))
    requires Valid(s.attempts, first.at) && Ordered(first.at, events) && Undisturbed(ip, end, events)
    requires 0.0 <= end - first.at <= window
    ensures var u := Step(s, window, first);
            MayLogin(After(u, window, events).attempts, ip, s.max, window, t) <==>
            t - first.at > window || 1 + Spent(u, window, ip, events) < s.max
  {
    var u := Step(s, window, first);
    StepKeepsValid(s, window, first.at, first);
    RunningStays(u, window, ip, first.at, end, events);
  }

  /** A reset forgives one address at once, and no other. */
  lemma ResetForgives(s: State, window: real, ip: string, at: real, t: real, other: string)
    requires other != ip
    ensures var u := Step(s, window, Reset(ip, at));
            && MayLogin(u.attempts, ip, u.max, window, t)
            && (MayLogin(u.attempts, other, u.max, window, t) <==> MayLogin(s.attempts, other, s.max, window, t))
  {
  }

  /** A new positive limit holds for running windows as well; another is ignored. */
  lemma NewLimitHolds(s: State, window: real, ip: string, n: int, at: real, t: real)
    ensures var u := Step(s, window, SetMax(n, at));
            MayLogin(u.attempts, ip, u.max, window, t) <==>
            !Running(s, window, ip, t) || s.attempts[ip].count < if n >= 1 then n else s.max
  {
  }

  /** A cleanup forgets exactly the addresses that were silent for longer than the window. */
  lemma CleanupForgets(s: State, window: real, at: real, ip: string)
    ensures var u := Step(s, window, Cleanup(at));
            && (ip in u.attempts <==> ip in s.attempts && !(at - s.attempts[ip].lastTry > window))
            && (ip in u.attempts ==> u.attempts[ip] == s.attempts[ip])
  {
  }

  // ----- the bound on logins -----

  /** How many checks of the address are allowed. */
  function Passed(s: State, window: real, ip: string, events: seq<Event>): nat
    decreases |events|
  {
    if events == [] then 0
    else
      (if events[0].Check? && events[0].ip == ip && MayLogin(s.attempts, ip, s.max, window, events[0].at) then 1 else 0) +
      Passed(Step(s, window, events[0]), window, ip, events[1..])
  }

  function AtLeast(a: int, b: int): nat
    requires b >= 0
  {
    if a >= b then a else b
  }

  /** How many logins the address can still have until `end`, a window away at most. */
  function Budget(s: State, window: real, ip: string, end: real): nat {
    var whole := AtLeast(s.max, 1);
    if ip !in s.attempts then whole
    else
      AtLeast(s.max - s.attempts[ip].count, 0) + if end - s.attempts[ip].firstTry > window then whole else 0
  }

  lemma StepSpendsBudget(s: State, window: real, ip: string, now: real, end: real, e: Event)
    requires Valid(s.attempts, now) && now <= e.at <= end && end - now <= window
    requires !e.SetMax? && e != Reset(ip, e.at)
    ensures Budget(Step(s, window, e), window, ip, end) +
            (if e.Check? && e.ip == ip && MayLogin(s.attempts, ip, s.max, window, e.at) then 1 else 0)
            <= Budget(s, window, ip, end)
  {
  }

  lemma {:induction false} PassedFitsBudget(s: State, window: real, ip: string, now: real, end: real, events: seq<Event>)
    requires Valid(s.attempts, now) && Ordered(now, events) && Undisturbed(ip, end, events) && end - now <= window
    ensures Passed(s, window, ip, events) <= Budget(s, window, ip, end)
    decreases |events|
  {
    if events != [] {
      StepSpendsBudget(s, window, ip, now, end, events[0]);
      StepKeepsValid(s, window, now, events[0]);
      PassedFitsBudget(Step(s, window, events[0]), window, ip, events[0].at, end, events[1..]);
    }
  }

  /**
   * From any earlier state, and with other addresses, failed attempts and cleanups mixed in, no
   * stretch of time as long as the window lets through more than 2 * M - 1 logins.
   */
  lemma LoginBound(s: State, window: real, ip: string, now: real, end: real, events: seq<Event>)
    requires s.max >= 1 && Valid(s.attempts, now) && Ordered(now, events) && Undisturbed(ip, end, events)
    requires end - now <= window
    ensures Passed(s, window, ip, events) <= 2 * s.max - 1
  {
    PassedFitsBudget(s, window, ip, now, end, events);
  }

  function Repeat(ip: string, at: real, n: nat, next: seq<Event>): seq<Event> {
    if n == 0 then next else [Check(ip, at)] + Repeat(ip, at, n - 1, next)
  }

  lemma {:induction false} RepeatPasses(s: State, window: real, ip: string, at: real, n: nat, next: seq<Event>, after: nat)
    requires ip in s.attempts && at - s.attempts[ip].firstTry <= window && s.attempts[ip].count + n == s.max
    requires forall last: real ::
             Passed(s.(attempts := s.attempts[ip := Attempt(s.max, s.attempts[ip].firstTry, last)]), window, ip, next) >= after
    ensures Passed(s, window, ip, Repeat(ip, at, n, next)) >= n + after
    decreases n
  {
    if n == 0 {
      assert s.attempts == s.attempts[ip := Attempt(s.max, s.attempts[ip].firstTry, s.attempts[ip].lastTry)];
    } else {
      var events := Repeat(ip, at, n, next);
      assert events[1..] == Repeat(ip, at, n - 1, next);
      var t := Step(s, window, events[0]);
      forall last: real
        ensures Passed(t.(attempts := t.attempts[ip := Attempt(t.max, t.attempts[ip].firstTry, last)]), window, ip, next) >= after
      {
        assert t.attempts[ip := Attempt(t.max, t.attempts[ip].firstTry, last)] ==
               s.attempts[ip := Attempt(s.max, s.attempts[ip].firstTry, last)];
      }
      RepeatPasses(t, window, ip, at, n - 1, next, after);
    }
  }

  lemma FreshWindowPasses(s: State, window: real, ip: string, at: real)
    requires s.max >= 1 && window >= 0.0 && Expired(s.attempts, ip, window, at)
    ensures Passed(s, window, ip, Repeat(ip, at, s.max, [])) >= s.max
  {
    var events := Repeat(ip, at, s.max, []);
    assert events[1..] == Repeat(ip, at, s.max - 1, []);
    RepeatPasses(Step(s, window, events[0]), window, ip, at, s.max - 1, [], 0);
  }

  lemma {:induction false} RepeatIsRegular(ip: string, at: real, n: nat, next: seq<Event>, end: real)
    requires at <= end && Ordered(at, next) && Undisturbed(ip, end, next)
    ensures Ordered(at, Repeat(ip, at, n, next)) && Undisturbed(ip, end, Repeat(ip, at, n, next))
    decreases n
  {
    if n > 0 {
      RepeatIsRegular(ip, at, n - 1, next, end);
      assert Repeat(ip, at, n, next)[1..] == Repeat(ip, at, n - 1, next);
    }
  }

  /** The last M - 1 logins of one window and, half a window later, the M of the next. */
  function TwoWindows(max: nat, window: real, ip: string): seq<Event>
    requires max >= 1
  {
    Repeat(ip, window, max - 1, Repeat(ip, window + window / 2.0, max, []))
  }

  lemma OrderedEarlier(now: real, at: real, events: seq<Event>)
    requires now <= at && Ordered(at, events)
    ensures Ordered(now, events)
  {
  }

  lemma TwoWindowsIsRegular(max: nat, window: real, ip: string)
    requires max >= 1 && window > 0.0
    ensures Ordered(window, TwoWindows(max, window, ip)) && Undisturbed(ip, window + window / 2.0, TwoWindows(max, window, ip))
  {
    var later := window + window / 2.0;
    RepeatIsRegular(ip, later, max, [], later);
    OrderedEarlier(window, later, Repeat(ip, later, max, []));
    RepeatIsRegular(ip, window, max - 1, Repeat(ip, later, max, []), later);
  }

  /** The bound is reached, within half a window, by a trace that meets all its conditions. */
  lemma BoundIsTight(max: nat, window: real, ip: string)
    requires max >= 1 && window > 0.0
    ensures var s := State(map[ip := Attempt(1, 0.0, 0.0)], max);
            var end := window + window / 2.0;
            && Valid(s.attempts, window) && end - window <= window
            && Ordered(window, TwoWindows(max, window, ip)) && Undisturbed(ip, end, TwoWindows(max, window, ip))
            && Passed(s, window, ip, TwoWindows(max, window, ip)) == 2 * max - 1
  {
    var s := State(map[ip := Attempt(1, 0.0, 0.0)], max);
    var later := window + window / 2.0;
    var next := Repeat(ip, later, max, []);
    forall last: real
      ensures Passed(s.(attempts := s.attempts[ip := Attempt(max, 0.0, last)]), window, ip, next) >= max
    {
      FreshWindowPasses(s.(attempts := s.attempts[ip := Attempt(max, 0.0, last)]), window, ip, later);
    }
    RepeatPasses(s, window, ip, window, max - 1, next, max);
    TwoWindowsIsRegular(max, window, ip);
    LoginBound(s, window, ip, window, later, TwoWindows(max, window, ip));
  }
}
