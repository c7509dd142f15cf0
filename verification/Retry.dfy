/** `internal/sink/retry.go` and `internal/sink/dlq.go`. */
module Retry {
  import opened Wrappers
  import opened Events

  /** One turn of the attempt loop: the inner sink accepts, or refuses with an error; after a refusal the context
      may be found cancelled, or be cancelled while waiting. `jitter` is what `rand.Float64` returns. */
  datatype Attempt = Accept | Refuse(error: string, cancelled: bool, jitter: real, cancelledWaiting: bool)

  datatype OnFailure = Propagate | DeadLetter
  datatype Config = Config(maxAttempts: int, baseDelay: nat, maxDelay: nat, onFailure: OnFailure)

  datatype Entry = Entry(event: Event, error: string, failedAt: int)

  /** What `Deliver` returns; calling Error() on a nil error panics. */
  datatype Answer = Nil | Failed | Panic

  // ------------------------------------------------------------------ backoff

  function Pow2(n: nat): (p: nat) ensures p > 0 { if n == 0 then 1 else 2 * Pow2(n - 1) }

  function Min(a: int, b: int): int { if a < b then a else b }

  /** The capped delay before jitter. */
  function Capped(cfg: Config, attempt: nat): nat
  {
    Min(cfg.baseDelay * Pow2(attempt), cfg.maxDelay)
  }

  predicate Jitter(j: real) { 0.0 <= j < 1.0 }

  function Scaled(c: real, jitter: real): (r: real)
    requires c >= 0.0 && Jitter(jitter)
    ensures c * 0.5 <= r <= c * 1.5
    ensures c > 0.0 ==> r < c * 1.5
    ensures r == c / 2.0 + c * jitter
  {
    assert c * (0.5 + jitter) == c * 0.5 + c * jitter;
    assert c * (1.0 - jitter) >= 0.0 && (c > 0.0 ==> c * (1.0 - jitter) > 0.0);
    c * (0.5 + jitter)
  }

  /** A delay scaled by 0.5 + jitter and truncated to whole nanoseconds: between half and
      one and a half times the delay, up to truncation. */
  function Jittered(c: nat, jitter: real): (d: nat)
    requires Jitter(jitter)
    ensures c < 2 * (d + 1) && 2 * d <= 3 * c
    ensures c > 0 ==> 2 * d < 3 * c
    ensures d as real <= c as real / 2.0 + c as real * jitter < d as real + 1.0
  {
    var exact := Scaled(c as real, jitter);
    FloorBounds(c, exact, exact.Floor);
    exact.Floor
  }

  /** The wait after a failed attempt. */
  function Delay(cfg: Config, attempt: nat, jitter: real): nat
    requires Jitter(jitter)
  {
    Jittered(Capped(cfg, attempt), jitter)
  }

  lemma FloorBounds(c: nat, exact: real, d: int)
    requires c as real * 0.5 <= exact <= c as real * 1.5 && d == exact.Floor
    ensures c < 2 * (d + 1) && 2 * d <= 3 * c
    ensures exact < c as real * 1.5 ==> 2 * d < 3 * c
  {
    assert d as real <= exact < d as real + 1.0;
  }

  /** The delay by doubling: the base at the first attempt, then twice the delay before, never more than the cap. */
  function Doubled(base: nat, cap: nat, attempt: nat): nat
  {
    var delay := if attempt == 0 then base else 2 * Doubled(base, cap, attempt - 1);
    if delay < cap then delay else cap
  }

  lemma MinDoubles(x: nat, cap: nat)
    ensures Min(2 * Min(x, cap), cap) == Min(2 * x, cap)
  {
  }

  lemma PowDoubles(base: nat, attempt: nat)
    ensures base * Pow2(attempt + 1) == 2 * (base * Pow2(attempt)) && base * Pow2(0) == base
  {
    var p := Pow2(attempt);
    assert Pow2(attempt + 1) == 2 * p;
  }

  lemma {:induction false} CappedIsDoubled(cfg: Config, attempt: nat)
    ensures Capped(cfg, attempt) == Doubled(cfg.baseDelay, cfg.maxDelay, attempt)
  {
    if attempt == 0 {
      PowDoubles(cfg.baseDelay, 0);
    } else {
      CappedIsDoubled(cfg, attempt - 1);
      PowDoubles(cfg.baseDelay, attempt - 1);
      MinDoubles(cfg.baseDelay * Pow2(attempt - 1), cfg.maxDelay);
    }
  }

  /** Each wait is between half and one and a half times the doubled delay, up to truncation. */
  lemma DelayBounds(cfg: Config, attempt: nat, jitter: real)
    requires Jitter(jitter)
    ensures var d := Doubled(cfg.baseDelay, cfg.maxDelay, attempt);
            && d < 2 * (Delay(cfg, attempt, jitter) + 1)
            && 2 * Delay(cfg, attempt, jitter) <= 3 * d
            && (d > 0 ==> 2 * Delay(cfg, attempt, jitter) < 3 * d)
  {
    CappedIsDoubled(cfg, attempt);
    var d := Jittered(Capped(cfg, attempt), jitter);
  }

  ghost function Sum(s: seq<nat>): nat
  {
    if s == [] then 0 else Sum(s[..|s| - 1]) + s[|s| - 1]
  }

  /** The waits of `k` failed attempts. */
  ghost predicate Waits(cfg: Config, waits: seq<nat>, jitters: seq<real>)
  {
    && |waits| == |jitters|
    && forall i :: 0 <= i < |waits| ==> Jitter(jitters[i]) && waits[i] == Delay(cfg, i, jitters[i])
  }

  /** The smaller of the uncapped geometric sum over `k` attempts and `k` caps. */
  ghost function Budget(cfg: Config, k: nat): int
  {
    Min(cfg.baseDelay * (Pow2(k) - 1), k * cfg.maxDelay)
  }

  lemma BudgetGrows(cfg: Config, k: nat)
    ensures Budget(cfg, k + 1) >= Budget(cfg, k) + Capped(cfg, k)
    ensures cfg.baseDelay > 0 && cfg.maxDelay > 0 ==> Capped(cfg, k) > 0
  {
    Geometric(cfg.baseDelay, k);
    assert (k + 1) * cfg.maxDelay == k * cfg.maxDelay + cfg.maxDelay;
  }

  /** The total wait over `k` failed attempts, the last one included, stays below one and a half budgets. */
  lemma {:induction false} TotalWait(cfg: Config, waits: seq<nat>, jitters: seq<real>)
    requires Waits(cfg, waits, jitters)
    ensures 2 * Sum(waits) <= 3 * Budget(cfg, |waits|)
    ensures |waits| > 0 && cfg.baseDelay > 0 && cfg.maxDelay > 0 ==> 2 * Sum(waits) < 3 * Budget(cfg, |waits|)
  {
    var k := |waits|;
    if k > 0 {
      TotalWait(cfg, waits[..k - 1], jitters[..k - 1]);
      DelayBounds(cfg, k - 1, jitters[k - 1]);
      CappedIsDoubled(cfg, k - 1);
      BudgetGrows(cfg, k - 1);
    }
  }

  lemma Geometric(base: nat, k: nat)
    ensures base * (Pow2(k + 1) - 1) == base * (Pow2(k) - 1) + base * Pow2(k)
    ensures base > 0 ==> base * Pow2(k) > 0
  {
  }

  // ----------------------------------------------------------------- delivery

  /** The dead-letter file, an append-only log; a failing write leaves it alone. */
  class DLQSink {
    var entries: seq<Entry>

    constructor ()
      ensures entries == []
    {
      entries := [];
    }

    /** The callback of `Handler()`: park the event, or fail and stop the stream. */
    method Handle(event: Event, err: Option<string>, now: int, writeOk: bool) returns (answer: Answer)
      modifies this
      ensures answer.Panic? <==> err.None?
      ensures answer.Nil? <==> err.Some? && writeOk
      ensures answer.Nil? ==> entries == old(entries) + [Entry(event, err.value, now)]
      ensures !answer.Nil? ==> entries == old(entries)
    {
      if err.None? {
        return Panic;
      }
      if !writeOk {
        return Failed;
      }
      entries := entries + [Entry(event, err.value, now)];
      answer := Nil;
    }
  }

  /** The attempt failed and the loop goes on. */
  predicate GoesOn(a: Attempt)
  {
    a.Refuse? && !a.cancelled && !a.cancelledWaiting
  }

  /** The environment of one call: one attempt for each the configuration allows, and how the failure callback fares. */
  datatype Script = Script(attempts: seq<Attempt>, now: int, writeOk: bool)

  ghost predicate Scripted(cfg: Config, s: Script)
  {
    && |s.attempts| >= cfg.maxAttempts
    && forall a :: a in s.attempts ==> a.Refuse? ==> Jitter(a.jitter)
  }

  datatype Report = Report(answer: Answer, calls: nat, accepted: bool, failureCalls: nat)

  class RetrySink {
    const cfg: Config
    const dlq: DLQSink

    constructor (cfg: Config, dlq: DLQSink)
      ensures this.cfg == cfg && this.dlq == dlq
    {
      this.cfg, this.dlq := cfg, dlq;
    }

    /** `Deliver`, attempt by attempt: how often the inner sink is called, when it stops, what reaches the
        failure callback and what is returned. */
    method Deliver(event: Event, script: Script) returns (r: Report, waits: seq<nat>)
      requires Scripted(cfg, script)
      modifies dlq
      ensures r == Outcome(cfg, script)
      ensures dlq.entries == old(dlq.entries) + Parked(cfg, event, script)
      ensures |waits| <= |script.attempts|
      ensures forall i :: 0 <= i < |waits| ==>
                script.attempts[i].Refuse? && Jitter(script.attempts[i].jitter)
                && waits[i] == Delay(cfg, i, script.attempts[i].jitter)
      ensures |waits| <= r.calls <= |waits| + 1
      ensures |waits| == Stop(script.attempts, Allowed(cfg))
    {
      var lastErr: Option<string> := None;
      var attempt: nat := 0;
      waits := [];
      while attempt < cfg.maxAttempts
        invariant attempt <= |script.attempts| && |waits| == attempt
        invariant attempt > 0 ==> attempt <= cfg.maxAttempts
        invariant forall i :: 0 <= i < attempt ==> GoesOn(script.attempts[i])
        invariant lastErr == if attempt == 0 then None else Some(script.attempts[attempt - 1].error)
        invariant forall i :: 0 <= i < attempt ==> Jitter(script.attempts[i].jitter)
        invariant forall i :: 0 <= i < attempt ==> waits[i] == Delay(cfg, i, script.attempts[i].jitter)
        invariant dlq.entries == old(dlq.entries)
      {
        var a := script.attempts[attempt];
        StopIs(script.attempts, Allowed(cfg), attempt);
        if a.Accept? {
          return Report(Nil, attempt + 1, true, 0), waits;
        }
        lastErr := Some(a.error);
        if a.cancelled {
          return Report(Failed, attempt + 1, false, 0), waits;
        }
        assert a in script.attempts;
        var delay := Delay(cfg, attempt, a.jitter);
        if a.cancelledWaiting {
          return Report(Failed, attempt + 1, false, 0), waits;
        }
        waits := waits + [delay];
        attempt := attempt + 1;
      }
      StopIs(script.attempts, Allowed(cfg), Allowed(cfg));
      var answer: Answer;
      if cfg.onFailure.Propagate? {
        answer := Failed;
      } else {
        answer := dlq.Handle(event, lastErr, script.now, script.writeOk);
      }
      r := Report(answer, attempt, false, 1);
    }
  }

  /** How many attempts the configuration allows. */
  function Allowed(cfg: Config): nat
  {
    if cfg.maxAttempts > 0 then cfg.maxAttempts else 0
  }

  /** The first attempt that does not go on, or `n` when all do. */
  function Stop(attempts: seq<Attempt>, n: nat): (k: nat)
    requires n <= |attempts|
    ensures k <= n
    ensures forall i :: 0 <= i < k ==> GoesOn(attempts[i])
    ensures k < n ==> !GoesOn(attempts[k])
  {
    if n == 0 then 0 else
    var k := Stop(attempts, n - 1);
    if k < n - 1 || !GoesOn(attempts[n - 1]) then k else n
  }

  lemma StopIs(attempts: seq<Attempt>, n: nat, k: nat)
    requires n <= |attempts| && k <= n
    requires forall i :: 0 <= i < k ==> GoesOn(attempts[i])
    ensures k == n || !GoesOn(attempts[k]) ==> Stop(attempts, n) == k
  {
  }

  ghost function LastError(cfg: Config, s: Script): Option<string>
    requires |s.attempts| >= cfg.maxAttempts
  {
    if Allowed(cfg) == 0 || !s.attempts[Allowed(cfg) - 1].Refuse? then None
    else Some(s.attempts[Allowed(cfg) - 1].error)
  }

  ghost function Outcome(cfg: Config, s: Script): Report
    requires |s.attempts| >= cfg.maxAttempts
  {
    var n := Allowed(cfg);
    var k := Stop(s.attempts, n);
    if k < n then
      Report(if s.attempts[k].Accept? then Nil else Failed, k + 1, s.attempts[k].Accept?, 0)
    else
      Report(if cfg.onFailure.Propagate? then Failed
             else if LastError(cfg, s).None? then Panic
             else if s.writeOk then Nil else Failed, n, false, 1)
  }

  /** What the call appends to the dead-letter file. */
  ghost function Parked(cfg: Config, event: Event, s: Script): seq<Entry>
    requires |s.attempts| >= cfg.maxAttempts
  {
    var n := Allowed(cfg);
    if Stop(s.attempts, n) == n && cfg.onFailure.DeadLetter? && LastError(cfg, s).Some? && s.writeOk
    then [Entry(event, LastError(cfg, s).value, s.now)]
    else []
  }

  /** The inner sink refused the event, and the context was cancelled neither then nor while waiting. */
  predicate Refused(a: Attempt)
  {
    match a
    case Accept => false
    case Refuse(_, cancelled, _, cancelledWaiting) => !(cancelled || cancelledWaiting)
  }

  /** The promise of the decorator, for every failure pattern and every cancellation point: nil means the inner
      sink accepted the event or exactly one entry for it, with the last error, was parked, never both; the inner
      sink is called at most maxAttempts times, until it accepts or the context is cancelled; the callback runs once,
      exactly when every attempt failed and none was cancelled. */
  lemma RetryPromise(cfg: Config, event: Event, s: Script)
    requires Scripted(cfg, s) && cfg.maxAttempts >= 1
    ensures var r := Outcome(cfg, s);
            var parked := Parked(cfg, event, s);
            && 1 <= r.calls <= cfg.maxAttempts
            && (forall i :: 0 <= i < r.calls - 1 ==> Refused(s.attempts[i]))
            && (r.calls < cfg.maxAttempts ==> !Refused(s.attempts[r.calls - 1]))
            && r.accepted == s.attempts[r.calls - 1].Accept?
            && (r.answer.Nil? <==> r.accepted || |parked| == 1)
            && !(r.accepted && |parked| > 0)
            && (parked != [] ==> parked == [Entry(event, s.attempts[cfg.maxAttempts - 1].error, s.now)])
            && (r.failureCalls == 1 <==> forall i :: 0 <= i < cfg.maxAttempts ==> Refused(s.attempts[i]))
            && r.failureCalls <= 1
            && !r.answer.Panic?
  {
    var k := Stop(s.attempts, Allowed(cfg));
    assert k == Allowed(cfg) ==> GoesOn(s.attempts[cfg.maxAttempts - 1]);
  }

  /** Without a single attempt there is no error to report: the dead-letter callback panics, always. */
  lemma NoAttemptPanics(cfg: Config, s: Script)
    requires Scripted(cfg, s) && cfg.onFailure.DeadLetter?
    ensures Outcome(cfg, s).answer.Panic? <==> cfg.maxAttempts <= 0
  {
    var k := Stop(s.attempts, Allowed(cfg));
    assert k == Allowed(cfg) && k > 0 ==> GoesOn(s.attempts[cfg.maxAttempts - 1]);
  }
}
