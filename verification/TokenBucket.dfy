// internal/auth/api_rate_limiter.go: the token bucket of the S3 API.  Seconds and tokens
// are reals; the clock never goes back.
module TokenBucket {

  datatype Bucket = Bucket(tokens: real, lastFill: real)

  type Buckets = map<string, Bucket>

  const IDLE := 120.0

  function Gain(elapsed: real, rate: real): real {
    elapsed * rate
  }

  /** The tokens of a key at time `now` under a rate: refilled, and at most one second's worth. */
  function Level(bs: Buckets, key: string, rate: real, now: real): real {
    if key !in bs then rate
    else
      var t := bs[key].tokens + Gain(now - bs[key].lastFill, rate);
      if t > rate then rate else t
  }

  /** Allow, as a function: whether the request passes, and the buckets afterwards. */
  function Allowed(bs: Buckets, key: string, ratePerSecond: int, now: real): bool {
    ratePerSecond <= 0 || Level(bs, key, ratePerSecond as real, now) >= 1.0
  }

  function AfterRequest(bs: Buckets, key: string, ratePerSecond: int, now: real): Buckets {
    if ratePerSecond <= 0 then bs
    else
      var level := Level(bs, key, ratePerSecond as real, now);
      bs[key := Bucket(if level >= 1.0 then level - 1.0 else level, now)]
  }

  function AfterSweep(bs: Buckets, now: real): Buckets {
    map k | k in bs && now - bs[k].lastFill <= IDLE :: bs[k]
  }

  class APIRateLimiter {
    var buckets: Buckets

    constructor ()
      ensures buckets == map[]
    {
      buckets := map[];
    }

    method Allow(key: string, ratePerSecond: int, now: real) returns (r: bool)
      modifies this
      ensures r == Allowed(old(buckets), key, ratePerSecond, now)
      ensures buckets == AfterRequest(old(buckets), key, ratePerSecond, now)
    {
      if ratePerSecond <= 0 {
        return true;
      }
      var rate := ratePerSecond as real;
      var b := Bucket(rate, now);
      if key in buckets {
        b := buckets[key];
      }
      var elapsed := now - b.lastFill;
      b := b.(tokens := b.tokens + Gain(elapsed, rate));
      if b.tokens > rate {
        b := b.(tokens := rate);
      }
      b := b.(lastFill := now);
      if b.tokens < 1.0 {
        buckets := buckets[key := b];
        return false;
      }
      buckets := buckets[key := b.(tokens := b.tokens - 1.0)];
      return true;
    }

    /** One round of cleanupLoop. */
    method Sweep(now: real)
      modifies this
      ensures buckets == AfterSweep(old(buckets), now)
    {
      var rest := buckets.Keys;
      while rest != {}
        invariant rest <= old(buckets).Keys
        invariant forall k :: k in buckets <==>
          k in old(buckets) && (k in rest || now - old(buckets)[k].lastFill <= IDLE)
        invariant forall k :: k in buckets ==> buckets[k] == old(buckets)[k]
      {
        var k :| k in rest;
        rest := rest - {k};
        if now - buckets[k].lastFill > IDLE {
          buckets := buckets - {k};
        }
      }
    }
  }

  // ----- traces -----

  datatype Event = Request(key: string, rate: int, at: real) | Sweep(at: real)

  function Step(bs: Buckets, e: Event): Buckets {
    match e
    case Request(key, rate, at) => AfterRequest(bs, key, rate, at)
    case Sweep(at) => AfterSweep(bs, at)
  }

  /** The answers to the requests of a trace, in order. */
  function Answers(bs: Buckets, events: seq<Event>): seq<bool>
    decreases |events|
  {
    if events == [] then []
    else
      (match events[0]
       case Request(key, rate, at) => [Allowed(bs, key, rate, at)]
       case Sweep(_) => []) + Answers(Step(bs, events[0]), events[1..])
  }

  /** Times do not decrease, from `now` on. */
  predicate Ordered(now: real, events: seq<Event>)
    decreases |events|
  {
    events == [] || (now <= events[0].at && Ordered(events[0].at, events[1..]))
  }

  /** No negative tokens and nothing filled in the future. */
  predicate Valid(bs: Buckets, now: real) {
    forall k :: k in bs ==> bs[k].tokens >= 0.0 && bs[k].lastFill <= now
  }

  /** Without a positive rate everything passes and nothing is recorded. */
  lemma UnlimitedPasses(bs: Buckets, key: string, rate: int, now: real)
    requires rate <= 0
    ensures Allowed(bs, key, rate, now) && AfterRequest(bs, key, rate, now) == bs
  {
  }

  lemma ProductOfPositives(a: real, b: real)
    requires a >= 0.0 && b >= 0.0
    ensures a * b >= 0.0
  {
  }

  /** A bucket left alone for a while has gained something, and after a second it is full. */
  lemma Refills(elapsed: real, rate: real)
    requires elapsed >= 0.0 && rate >= 1.0
    ensures Gain(elapsed, rate) >= 0.0
    ensures elapsed >= 1.0 ==> Gain(elapsed, rate) >= rate
  {
    ProductOfPositives(elapsed, rate);
    if elapsed >= 1.0 {
      ProductOfPositives(elapsed - 1.0, rate);
      assert (elapsed - 1.0) * rate == elapsed * rate - rate;
    }
  }

  lemma LevelInRange(bs: Buckets, key: string, rate: real, now: real)
    requires Valid(bs, now) && rate >= 1.0
    ensures 0.0 <= Level(bs, key, rate, now) <= rate
  {
    if key in bs {
      Refills(now - bs[key].lastFill, rate);
    }
  }

  /** Tokens stay between zero and the rate of the request that last touched them. */
  lemma TokensInRange(bs: Buckets, key: string, rate: int, now: real)
    requires Valid(bs, now) && rate >= 1
    ensures Valid(AfterRequest(bs, key, rate, now), now)
    ensures 0.0 <= AfterRequest(bs, key, rate, now)[key].tokens <= rate as real
  {
    LevelInRange(bs, key, rate as real, now);
  }

  lemma StepKeepsValid(bs: Buckets, now: real, e: Event)
    requires Valid(bs, now) && now <= e.at
    ensures Valid(Step(bs, e), e.at)
  {
    if e.Request? && e.rate >= 1 {
      TokensInRange(bs, e.key, e.rate, e.at);
    }
  }

  // ----- cleanup is invisible -----

  function WithoutSweeps(events: seq<Event>): seq<Event> {
    if events == [] then []
    else (if events[0].Sweep? then [] else [events[0]]) + WithoutSweeps(events[1..])
  }

  /** `swept` lacks only buckets of `kept` that have been idle for more than two minutes. */
  predicate Alike(swept: Buckets, kept: Buckets, now: real) {
    && (forall k :: k in swept ==> k in kept && kept[k] == swept[k])
    && (forall k :: k in kept && k !in swept ==> now - kept[k].lastFill > IDLE)
  }

  lemma AlikeAnswers(swept: Buckets, kept: Buckets, now: real, e: Event)
    requires Alike(swept, kept, now) && Valid(kept, now) && now <= e.at && e.Request?
    ensures Allowed(swept, e.key, e.rate, e.at) == Allowed(kept, e.key, e.rate, e.at)
    ensures Alike(Step(swept, e), Step(kept, e), e.at)
  {
    if e.rate >= 1 && e.key in kept && e.key !in swept {
      Refills(e.at - kept[e.key].lastFill, e.rate as real);
      assert Level(kept, e.key, e.rate as real, e.at) == e.rate as real;
    }
  }

  /** Removing every sweep from a trace changes no answer, whatever the rates are. */
  lemma {:induction false} SweepsAreInvisible(swept: Buckets, kept: Buckets, now: real, events: seq<Event>)
    requires Alike(swept, kept, now) && Valid(kept, now) && Ordered(now, events)
    ensures Answers(swept, events) == Answers(kept, WithoutSweeps(events))
    decreases |events|
  {
    if events != [] {
      var e, rest := events[0], events[1..];
      if e.Sweep? {
        assert Valid(kept, e.at);
        SweepsAreInvisible(Step(swept, e), kept, e.at, rest);
        assert WithoutSweeps(events) == WithoutSweeps(rest);
      } else {
        AlikeAnswers(swept, kept, now, e);
        StepKeepsValid(kept, now, e);
        SweepsAreInvisible(Step(swept, e), Step(kept, e), e.at, rest);
        assert WithoutSweeps(events)[1..] == WithoutSweeps(rest);
      }
    }
  }

  // ----- the rate bound -----

  /** How many requests of the key pass. */
  function Passed(bs: Buckets, key: string, events: seq<Event>): nat
    decreases |events|
  {
    if events == [] then 0
    else
      (if events[0].Request? && events[0].key == key && Allowed(bs, key, events[0].rate, events[0].at) then 1 else 0) +
      Passed(Step(bs, events[0]), key, events[1..])
  }

  predicate FixedRate(key: string, rate: int, events: seq<Event>) {
    forall i :: 0 <= i < |events| && events[i].Request? && events[i].key == key ==> events[i].rate == rate
  }

  function EndOf(now: real, events: seq<Event>): real
    decreases |events|
  {
    if events == [] then now else EndOf(events[0].at, events[1..])
  }

  lemma SplitElapsed(a: real, b: real, c: real, rate: real)
    ensures Gain(c - a, rate) == Gain(b - a, rate) + Gain(c - b, rate)
  {
  }

  lemma LevelGrows(bs: Buckets, key: string, rate: real, now: real, later: real)
    requires Valid(bs, now) && now <= later && rate >= 1.0
    ensures Level(bs, key, rate, later) <= Level(bs, key, rate, now) + Gain(later - now, rate)
  {
    Refills(later - now, rate);
    if key in bs {
      SplitElapsed(bs[key].lastFill, now, later, rate);
    }
  }

  /** A step pays for what it admits out of the level it finds. */
  lemma StepPays(bs: Buckets, key: string, rate: int, now: real, e: Event)
    requires Valid(bs, now) && now <= e.at && rate >= 1
    requires e.Request? && e.key == key ==> e.rate == rate
    ensures Level(Step(bs, e), key, rate as real, e.at) +
            (if e.Request? && e.key == key && Allowed(bs, key, e.rate, e.at) then 1.0 else 0.0)
            <= Level(bs, key, rate as real, e.at)
  {
    LevelInRange(bs, key, rate as real, e.at);
    if e.Sweep? && key in bs && e.at - bs[key].lastFill > IDLE {
      Refills(e.at - bs[key].lastFill, rate as real);
      assert Level(bs, key, rate as real, e.at) == rate as real;
    }
  }

  lemma {:induction false} PassedFitsLevel(bs: Buckets, key: string, rate: int, now: real, events: seq<Event>)
    requires Valid(bs, now) && Ordered(now, events) && rate >= 1 && FixedRate(key, rate, events)
    ensures Passed(bs, key, events) as real <= Level(bs, key, rate as real, now) + Gain(EndOf(now, events) - now, rate as real)
    decreases |events|
  {
    if events == [] {
      LevelInRange(bs, key, rate as real, now);
    } else {
      var e, rest := events[0], events[1..];
      StepKeepsValid(bs, now, e);
      LevelGrows(bs, key, rate as real, now, e.at);
      StepPays(bs, key, rate, now, e);
      PassedFitsLevel(Step(bs, e), key, rate, e.at, rest);
      SplitElapsed(now, e.at, EndOf(now, events), rate as real);
    }
  }

  /**
   * From any earlier state, with any rates before, sweeps and other keys included: a stretch of
   * time T at a fixed rate r passes at most r + r * T requests of one key.
   */
  lemma RateBound(bs: Buckets, key: string, rate: int, now: real, events: seq<Event>)
    requires Valid(bs, now) && Ordered(now, events) && rate >= 1 && FixedRate(key, rate, events)
    ensures Passed(bs, key, events) as real <= rate as real + rate as real * (EndOf(now, events) - now)
  {
    PassedFitsLevel(bs, key, rate, now, events);
    LevelInRange(bs, key, rate as real, now);
  }

  /** `n` requests at once, and then these. */
  function Burst(key: string, rate: int, at: real, n: nat, next: seq<Event>): seq<Event> {
    if n == 0 then next else [Request(key, rate, at)] + Burst(key, rate, at, n - 1, next)
  }

  /** `n` requests, one after each refill of a token. */
  function Drip(key: string, rate: int, at: real, n: nat): seq<Event>
    requires rate >= 1
    decreases n
  {
    if n == 0 then []
    else [Request(key, rate, at + 1.0 / rate as real)] + Drip(key, rate, at + 1.0 / rate as real, n - 1)
  }

  lemma OneToken(rate: real)
    requires rate >= 1.0
    ensures Gain(1.0 / rate, rate) == 1.0
  {
  }

  lemma {:induction false} DripPasses(bs: Buckets, key: string, rate: int, at: real, n: nat)
    requires rate >= 1 && key in bs && bs[key].lastFill == at && bs[key].tokens >= 0.0
    ensures Passed(bs, key, Drip(key, rate, at, n)) == n
    decreases n
  {
    if n > 0 {
      var later := at + 1.0 / rate as real;
      var events := Drip(key, rate, at, n);
      assert events[1..] == Drip(key, rate, later, n - 1);
      OneToken(rate as real);
      assert later - at == 1.0 / rate as real;
      assert Level(bs, key, rate as real, later) >= 1.0;
      DripPasses(Step(bs, events[0]), key, rate, later, n - 1);
    }
  }

  lemma {:induction false} BurstPasses(bs: Buckets, key: string, rate: int, at: real, n: nat, m: nat)
    requires rate >= 1 && n >= 1 && Level(bs, key, rate as real, at) >= n as real
    ensures Passed(bs, key, Burst(key, rate, at, n, Drip(key, rate, at, m))) == n + m
    decreases n
  {
    var next := Drip(key, rate, at, m);
    var events := Burst(key, rate, at, n, next);
    assert events[1..] == Burst(key, rate, at, n - 1, next);
    var after := Step(bs, events[0]);
    assert after[key].lastFill == at && after[key].tokens >= (n - 1) as real;
    if n == 1 {
      DripPasses(after, key, rate, at, m);
    } else {
      assert Level(after, key, rate as real, at) >= (n - 1) as real;
      BurstPasses(after, key, rate, at, n - 1, m);
    }
  }

  lemma {:induction false} DripIsRegular(key: string, rate: int, at: real, n: nat)
    requires rate >= 1
    ensures Ordered(at, Drip(key, rate, at, n)) && FixedRate(key, rate, Drip(key, rate, at, n))
    ensures EndOf(at, Drip(key, rate, at, n)) == at + n as real * (1.0 / rate as real)
    decreases n
  {
    if n > 0 {
      var later := at + 1.0 / rate as real;
      DripIsRegular(key, rate, later, n - 1);
      assert Drip(key, rate, at, n)[1..] == Drip(key, rate, later, n - 1);
      Distribute(n, 1.0 / rate as real);
    }
  }

  lemma Distribute(n: nat, x: real)
    requires n >= 1
    ensures n as real * x == x + (n - 1) as real * x
  {
    assert n as real == 1.0 + (n - 1) as real;
  }

  lemma {:induction false} BurstIsRegular(key: string, rate: int, at: real, n: nat, next: seq<Event>)
    requires Ordered(at, next) && FixedRate(key, rate, next)
    ensures Ordered(at, Burst(key, rate, at, n, next)) && FixedRate(key, rate, Burst(key, rate, at, n, next))
    ensures EndOf(at, Burst(key, rate, at, n, next)) == EndOf(at, next)
    decreases n
  {
    if n > 0 {
      BurstIsRegular(key, rate, at, n - 1, next);
      assert Burst(key, rate, at, n, next)[1..] == Burst(key, rate, at, n - 1, next);
    }
  }

  lemma TimesRate(n: nat, rate: real)
    requires rate >= 1.0
    ensures rate * (n as real * (1.0 / rate)) == n as real
  {
    assert rate * (1.0 / rate) == 1.0;
    assert rate * (n as real * (1.0 / rate)) == n as real * (rate * (1.0 / rate));
  }

  /** A burst, and then each token as it comes. */
  function BurstAndDrip(key: string, rate: int, at: real, n: nat): seq<Event>
    requires rate >= 1
  {
    Burst(key, rate, at, rate, Drip(key, rate, at, n))
  }

  lemma BurstAndDripIsRegular(key: string, rate: int, at: real, n: nat)
    requires rate >= 1
    ensures Ordered(at, BurstAndDrip(key, rate, at, n)) && FixedRate(key, rate, BurstAndDrip(key, rate, at, n))
    ensures rate as real * (EndOf(at, BurstAndDrip(key, rate, at, n)) - at) == n as real
  {
    DripIsRegular(key, rate, at, n);
    BurstIsRegular(key, rate, at, rate, Drip(key, rate, at, n));
    TimesRate(n, rate as real);
    assert EndOf(at, BurstAndDrip(key, rate, at, n)) - at == n as real * (1.0 / rate as real);
  }

  /** The bound is reached for every T that refills a whole number of tokens. */
  lemma BoundIsTight(key: string, rate: int, at: real, n: nat)
    requires rate >= 1
    ensures var events := BurstAndDrip(key, rate, at, n); var T := EndOf(at, events) - at;
            && Valid(map[], at) && Ordered(at, events) && FixedRate(key, rate, events) && rate as real * T == n as real
            && Passed(map[], key, events) as real == rate as real + rate as real * T
  {
    BurstAndDripIsRegular(key, rate, at, n);
    BurstPasses(map[], key, rate, at, rate, n);
  }
}
