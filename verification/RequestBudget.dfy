/** The token bucket that bounds how many requests start, how fast, and how many at once. */
module RequestBudget {
  import opened Wrappers

  datatype StartError = Exhausted | ConcurrencyExceeded | RateLimited(retryAfter: real)

  /** The state of a budget; times are seconds since the start of the run. */
  datatype State = State(
    remaining: nat,
    maxConcurrency: nat,
    inFlight: nat,
    tokens: real,
    capacity: real,
    rate: real,
    lastRefill: real)

  predicate Valid(s: State) {
    && s.rate > 0.0
    && s.capacity >= 1.0
    && 0.0 <= s.tokens <= s.capacity
    && s.inFlight <= s.maxConcurrency
    && 0 < s.maxConcurrency
    && s.lastRefill >= 0.0
  }

  datatype ConfigError = ZeroTotal | ZeroConcurrency | RateNotPositive

  function Initial(total: nat, concurrency: nat, rate: real): (r: Result<State, ConfigError>)
    ensures r.Success? <==> total > 0 && concurrency > 0 && rate > 0.0
    ensures r.Success? ==> Valid(r.value) && r.value.remaining == total && r.value.inFlight == 0
    ensures r.Success? ==> r.value.tokens == r.value.capacity && (rate >= 1.0 ==> r.value.capacity == rate)
  {
    if total == 0 then Failure(ZeroTotal)
    else if concurrency == 0 then Failure(ZeroConcurrency)
    else if rate <= 0.0 then Failure(RateNotPositive)
    else
      var capacity := if rate > 1.0 then rate else 1.0;
      Success(State(total, concurrency, 0, capacity, capacity, rate, 0.0))
  }

  function Refill(s: State, elapsed: real): State {
    if elapsed <= s.lastRefill then s
    else
      var filled := s.tokens + s.rate * (elapsed - s.lastRefill);
      s.(tokens := if filled < s.capacity then filled else s.capacity, lastRefill := elapsed)
  }

  datatype Outcome = Outcome(state: State, error: Option<StartError>)

  function TryStart(s: State, elapsed: real): (r: Outcome)
    requires s.rate > 0.0
    ensures r.state.rate == s.rate && r.state.capacity == s.capacity && r.state.maxConcurrency == s.maxConcurrency
  {
    var s := Refill(s, elapsed);
    if s.remaining == 0 then Outcome(s, Some(Exhausted))
    else if s.inFlight >= s.maxConcurrency then Outcome(s, Some(ConcurrencyExceeded))
    else if s.tokens < 1.0 then Outcome(s, Some(RateLimited((1.0 - s.tokens) / s.rate)))
    else Outcome(s.(tokens := s.tokens - 1.0, remaining := s.remaining - 1, inFlight := s.inFlight + 1), None)
  }

  function Finish(s: State): State {
    s.(inFlight := if s.inFlight > 0 then s.inFlight - 1 else 0)
  }

  // ------------------------------------------------------------------------ runs

  datatype Op = Start(elapsed: real) | Done

  function Step(s: State, op: Op): State
    requires s.rate > 0.0
  {
    match op
    case Start(elapsed) => TryStart(s, elapsed).state
    case Done => Finish(s)
  }

  predicate Started(s: State, op: Op)
    requires s.rate > 0.0
  {
    op.Start? && TryStart(s, op.elapsed).error.None?
  }

  function Run(s: State, ops: seq<Op>): (r: State)
    requires s.rate > 0.0
    ensures r.rate == s.rate && r.capacity == s.capacity && r.maxConcurrency == s.maxConcurrency
    decreases |ops|
  {
    if ops == [] then s else Run(Step(s, ops[0]), ops[1..])
  }

  /** How many starts of the run succeeded. */
  function Starts(s: State, ops: seq<Op>): nat
    requires s.rate > 0.0
    decreases |ops|
  {
    if ops == [] then 0 else (if Started(s, ops[0]) then 1 else 0) + Starts(Step(s, ops[0]), ops[1..])
  }

  lemma {:induction false} RunComposes(s: State, a: seq<Op>, b: seq<Op>)
    requires s.rate > 0.0
    ensures Run(s, a + b) == Run(Run(s, a), b)
    ensures Starts(s, a + b) == Starts(s, a) + Starts(Run(s, a), b)
    decreases |a|
  {
    if a == [] {
      assert a + b == b;
    } else {
      assert (a + b)[1..] == a[1..] + b;
      RunComposes(Step(s, a[0]), a[1..], b);
    }
  }

  lemma RefillAccounting(s: State, elapsed: real)
    requires Valid(s)
    ensures var r := Refill(s, elapsed);
      && Valid(r)
      && r.lastRefill >= s.lastRefill
      && r.tokens <= s.tokens + s.rate * (r.lastRefill - s.lastRefill)
      && r == s.(tokens := r.tokens, lastRefill := r.lastRefill)
  {
    if elapsed > s.lastRefill {
      ProductSign(s.rate, elapsed - s.lastRefill);
    } else {
      ProductSign(s.rate, s.lastRefill - s.lastRefill);
    }
  }

  /** One step spends at most the tokens it accounts for, and every start spends one request. */
  lemma StepAccounting(s: State, op: Op)
    requires Valid(s)
    ensures var r := Step(s, op);
      var n := if Started(s, op) then 1 else 0;
      && Valid(r)
      && r.lastRefill >= s.lastRefill
      && r.tokens + n as real <= s.tokens + s.rate * (r.lastRefill - s.lastRefill)
      && r.remaining + n == s.remaining
      && r.inFlight <= s.inFlight + n
  {
    match op
    case Start(elapsed) => RefillAccounting(s, elapsed);
    case Done => ProductSign(s.rate, s.lastRefill - s.lastRefill);
  }

  lemma Telescopes(rate: real, a: real, b: real, c: real)
    ensures rate * (b - a) + rate * (c - b) == rate * (c - a)
  {
  }

  lemma StepKeepsRates(s: State, op: Op)
    requires s.rate > 0.0
    ensures Step(s, op).rate == s.rate && Step(s, op).capacity == s.capacity
  {
  }

  lemma TokensBounded(s: State)
    requires Valid(s)
    ensures s.rate > 0.0 && 0.0 <= s.tokens <= s.capacity
  {
  }

  /**
   * Conservation over whole runs, on any clock: tokens left plus starts never exceed tokens held
   * plus what the growth of the refill time pays for, and every start is paid from the total.
   */
  lemma {:induction false} RunAccounting(s: State, ops: seq<Op>)
    requires Valid(s)
    ensures var r := Run(s, ops);
      && Valid(r)
      && r.lastRefill >= s.lastRefill
      && r.tokens + Starts(s, ops) as real <= s.tokens + s.rate * (r.lastRefill - s.lastRefill)
      && r.remaining + Starts(s, ops) == s.remaining
      && r.inFlight <= s.inFlight + Starts(s, ops)
    decreases |ops|
  {
    hide Step, Started, Valid;
    TokensBounded(s);
    if ops == [] {
      Telescopes(s.rate, s.lastRefill, s.lastRefill, s.lastRefill);
    } else {
      StepAccounting(s, ops[0]);
      var t := Step(s, ops[0]);
      StepKeepsRates(s, ops[0]);
      RunAccounting(t, ops[1..]);
      Telescopes(s.rate, s.lastRefill, t.lastRefill, Run(t, ops[1..]).lastRefill);
    }
  }

  /** Between any two points of a run, starts are bounded by the capacity and the growth of the refill time. */
  lemma RateBound(s: State, before: seq<Op>, between: seq<Op>)
    requires Valid(s)
    ensures var from, to := Run(s, before), Run(s, before + between);
      (Starts(s, before + between) - Starts(s, before)) as real
        <= s.capacity + s.rate * (to.lastRefill - from.lastRefill)
  {
    hide Run, Starts, Valid;
    TokensBounded(s);
    RunComposes(s, before, between);
    RunAccounting(s, before);
    var from := Run(s, before);
    RunAccounting(from, between);
    TokensBounded(from);
    TokensBounded(Run(from, between));
  }

  /** A refused start names exactly the least wait: it succeeds on the rate at u iff u is that late. */
  lemma RetryAfterExact(s: State, elapsed: real, u: real)
    requires Valid(s)
    requires TryStart(s, elapsed).error.Some? && TryStart(s, elapsed).error.value.RateLimited?
    ensures var refused := TryStart(s, elapsed);
      var again := TryStart(refused.state, u);
      && refused.error.value.retryAfter > 0.0
      && (again.error.None? <==> u >= refused.state.lastRefill + refused.error.value.retryAfter)
      && (again.error.Some? ==> again.error.value.RateLimited?)
      && (elapsed >= s.lastRefill ==> refused.state.lastRefill == elapsed)
  {
    hide Refill;
    RefillAccounting(s, elapsed);
    var t := Refill(s, elapsed);
    var d := (1.0 - t.tokens) / t.rate;
    assert TryStart(s, elapsed) == Outcome(t, Some(RateLimited(d)));
    RefillReaches(t, d, u);
    RefillTime(s, elapsed);
  }

  lemma RefillTime(s: State, elapsed: real)
    ensures elapsed >= s.lastRefill ==> Refill(s, elapsed).lastRefill == elapsed
  {
  }

  /** A bucket short of one token holds one exactly from d seconds after its last refill. */
  lemma RefillReaches(t: State, d: real, u: real)
    requires Valid(t) && t.tokens < 1.0 && d == (1.0 - t.tokens) / t.rate
    ensures d > 0.0
    ensures Refill(t, u).tokens >= 1.0 <==> u >= t.lastRefill + d
    ensures Refill(t, u) == t.(tokens := Refill(t, u).tokens, lastRefill := Refill(t, u).lastRefill)
  {
    var e := u - t.lastRefill;
    QuotientTimes(1.0 - t.tokens, t.rate);
    WaitPays(t.rate, d, e);
    if e > 0.0 {
      var filled := t.tokens + t.rate * e;
      assert filled >= 1.0 <==> e >= d;
      assert Refill(t, u).tokens == if filled < t.capacity then filled else t.capacity;
    }
  }

  lemma QuotientTimes(x: real, rate: real)
    requires rate > 0.0
    ensures rate * (x / rate) == x
  {
  }

  lemma ProductSign(rate: real, x: real)
    requires rate > 0.0
    ensures x > 0.0 <==> rate * x > 0.0
    ensures x == 0.0 <==> rate * x == 0.0
    ensures x < 0.0 <==> rate * x < 0.0
  {
    if x < 0.0 {
      assert rate * (0.0 - x) > 0.0;
      assert rate * x == 0.0 - rate * (0.0 - x);
    } else if x > 0.0 {
      assert rate * x > 0.0;
    }
  }

  lemma WaitPays(rate: real, d: real, e: real)
    requires rate > 0.0 && rate * d > 0.0
    ensures d > 0.0
    ensures e >= d <==> rate * e >= rate * d
  {
    ProductSign(rate, d);
    ProductSign(rate, e - d);
    Telescopes(rate, 0.0, d, e);
  }

  // ---------------------------------------------------------------------- the object

  class Budget {
    var remaining: nat
    const maxConcurrency: nat
    var inFlight: nat
    var tokens: real
    const capacity: real
    const rate: real
    var lastRefill: real

    ghost function Current(): State
      reads this
    {
      State(remaining, maxConcurrency, inFlight, tokens, capacity, rate, lastRefill)
    }

    constructor (total: nat, concurrency: nat, requestsPerSecond: real)
      requires total > 0 && concurrency > 0 && requestsPerSecond > 0.0
      ensures Initial(total, concurrency, requestsPerSecond) == Success(Current())
    {
      remaining, maxConcurrency, inFlight := total, concurrency, 0;
      var bucket := if requestsPerSecond > 1.0 then requestsPerSecond else 1.0;
      tokens, capacity, rate, lastRefill := bucket, bucket, requestsPerSecond, 0.0;
    }

    /** A budget for an acceptable configuration, or the first fault of the configuration. */
    static method Create(total: nat, concurrency: nat, requestsPerSecond: real) returns (r: Result<Budget, ConfigError>)
      ensures r.Failure? ==> Initial(total, concurrency, requestsPerSecond) == Failure(r.error)
      ensures r.Success? ==>
                fresh(r.value) && Initial(total, concurrency, requestsPerSecond) == Success(r.value.Current())
    {
      if total == 0 {
        return Failure(ZeroTotal);
      }
      if concurrency == 0 {
        return Failure(ZeroConcurrency);
      }
      if requestsPerSecond <= 0.0 {
        return Failure(RateNotPositive);
      }
      var budget := new Budget(total, concurrency, requestsPerSecond);
      return Success(budget);
    }

    method FillTo(elapsed: real)
      modifies this
      ensures Current() == Refill(old(Current()), elapsed)
    {
      if elapsed <= lastRefill {
        return;
      }
      var delta := elapsed - lastRefill;
      tokens := tokens + rate * delta;
      if tokens >= capacity {
        tokens := capacity;
      }
      lastRefill := elapsed;
    }

    method Begin(elapsed: real) returns (error: Option<StartError>)
      requires Valid(Current())
      modifies this
      ensures Valid(Current())
      ensures Outcome(Current(), error) == TryStart(old(Current()), elapsed)
    {
      StepAccounting(Current(), Start(elapsed));
      FillTo(elapsed);
      if remaining == 0 {
        return Some(Exhausted);
      }
      if inFlight >= maxConcurrency {
        return Some(ConcurrencyExceeded);
      }
      if tokens < 1.0 {
        var missing := 1.0 - tokens;
        return Some(RateLimited(missing / rate));
      }
      tokens := tokens - 1.0;
      remaining := remaining - 1;
      inFlight := inFlight + 1;
      return None;
    }

    method Release()
      requires Valid(Current())
      modifies this
      ensures Valid(Current())
      ensures Current() == Finish(old(Current()))
    {
      if inFlight > 0 {
        inFlight := inFlight - 1;
      }
    }
  }
}
