/** The token bucket kept by the rate limiter, as the PostgreSQL upsert computes it.

    All times are microseconds, the precision of the `last_refill` column.  A bucket
    row is refilled lazily: each take works out how many whole tokens have accrued
    since `lastRefill` and moves `lastRefill` forward by exactly that many intervals,
    so the remainder of the current interval is never lost. */
module TokenBucket {
  import opened Arith
  import opened Wrappers

  const I32_MIN: int := -0x8000_0000
  const I32_MAX: int := 0x7FFF_FFFF

  type Micros = int
  type I32 = x: int | I32_MIN <= x <= I32_MAX

  /** `rate` is the time one token takes to refill, `burst` the capacity. */
  datatype Config = Config(rate: Micros, burst: I32) {
    predicate Valid() { rate > 0 }
  }

  datatype Bucket = Bucket(tokens: int, lastRefill: Micros)

  /** What the caller is told.  `SqlError` is the failed statement: the caller is
      turned away as well, but the row is left as it was. */
  datatype Answer = Allowed | Denied | SqlError

  /** The number of tokens a bucket can hold; a non-positive burst holds none. */
  function Capacity(cfg: Config): nat { Max(0, cfg.burst) }

  /** Whole intervals since the last refill (floor, so negative for an earlier `now`). */
  function Refill(b: Bucket, now: Micros, cfg: Config): int
    requires cfg.Valid()
  {
    (now - b.lastRefill) / cfg.rate
  }

  /** Every 4-byte integer the statement computes stays in range. */
  predicate Fits(b: Bucket, now: Micros, cfg: Config)
    requires cfg.Valid()
  {
    var refill := Refill(b, now, cfg);
    var available := Max(0, b.tokens) + refill;
    && I32_MIN <= refill <= I32_MAX
    && available <= I32_MAX
    && (available >= 1 ==> I32_MIN <= Min(available, cfg.burst) - 1)
  }

  /** `burst.saturating_sub(1)`: a new row has already paid for the take that creates it. */
  function InitialTokens(cfg: Config): int { Max(I32_MIN, cfg.burst - 1) }

  function AnswerFor(tokens: int): Answer { if tokens < 0 then Denied else Allowed }

  /** The upsert: insert a full bucket, or refill and spend the existing one. */
  function Take(row: Option<Bucket>, now: Micros, cfg: Config): (Option<Bucket>, Answer)
    requires cfg.Valid()
  {
    match row
    case None =>
      var tokens := InitialTokens(cfg);
      (Some(Bucket(tokens, now)), AnswerFor(tokens))
    case Some(b) =>
      if !Fits(b, now, cfg) then
        (row, SqlError)
      else
        var refill := Refill(b, now, cfg);
        var available := Max(0, b.tokens) + refill;
        var tokens := if available >= 1 then Min(available, cfg.burst) - 1 else -1;
        var lastRefill := if refill >= 1 then b.lastRefill + refill * cfg.rate else b.lastRefill;
        (Some(Bucket(tokens, lastRefill)), AnswerFor(tokens))
  }

  /** The row and the answers after takes at the given times, in that order. */
  function Run(row: Option<Bucket>, times: seq<Micros>, cfg: Config): (r: (Option<Bucket>, seq<Answer>))
    requires cfg.Valid()
    ensures |r.1| == |times|
    decreases |times|
  {
    if times == [] then (row, [])
    else
      var (next, answer) := Take(row, times[0], cfg);
      var (last, answers) := Run(next, times[1..], cfg);
      (last, [answer] + answers)
  }

  predicate Nondecreasing(times: seq<Micros>)
  {
    forall i, j :: 0 <= i < j < |times| ==> times[i] <= times[j]
  }

  function CountAllowed(answers: seq<Answer>): nat
  {
    if answers == [] then 0
    else (if answers[0].Allowed? then 1 else 0) + CountAllowed(answers[1..])
  }

  // ---------------------------------------------------------------------------
  // The eager bucket
  // ---------------------------------------------------------------------------

  /** A reference bucket with a real clock: at `nextTick`, and every `rate` after it,
      one token drops in, or is lost when the bucket is full. */
  datatype Eager = Eager(tokens: nat, nextTick: Micros, lost: nat)

  function Tick(e: Eager, cfg: Config): Eager {
    if e.tokens < Capacity(cfg)
    then Eager(e.tokens + 1, e.nextTick + cfg.rate, e.lost)
    else Eager(e.tokens, e.nextTick + cfg.rate, e.lost + 1)
  }

  function AdvanceTo(e: Eager, now: Micros, cfg: Config): Eager
    requires cfg.Valid()
    decreases now - e.nextTick
  {
    if e.nextTick <= now then AdvanceTo(Tick(e, cfg), now, cfg) else e
  }

  function EagerTake(e: Eager, now: Micros, cfg: Config): (Eager, bool)
    requires cfg.Valid()
  {
    var f := AdvanceTo(e, now, cfg);
    if f.tokens > 0 then (f.(tokens := f.tokens - 1), true) else (f, false)
  }

  function EagerFull(now: Micros, cfg: Config): Eager { Eager(Capacity(cfg), now + cfg.rate, 0) }

  function EagerRun(e: Eager, times: seq<Micros>, cfg: Config): (r: (Eager, seq<bool>))
    requires cfg.Valid()
    ensures |r.1| == |times|
    decreases |times|
  {
    if times == [] then (e, [])
    else
      var (next, answer) := EagerTake(e, times[0], cfg);
      var (last, answers) := EagerRun(next, times[1..], cfg);
      (last, [answer] + answers)
  }

  function TicksBy(e: Eager, now: Micros, cfg: Config): int
    requires cfg.Valid()
  {
    (now - (e.nextTick - cfg.rate)) / cfg.rate
  }

  /** The bucket `ticks` intervals later, in closed form. */
  function AfterTicks(e: Eager, ticks: nat, cfg: Config): Eager
    requires e.tokens <= Capacity(cfg)
  {
    var tokens := Min(e.tokens + ticks, Capacity(cfg));
    Eager(tokens, e.nextTick + ticks * cfg.rate, e.lost + (e.tokens + ticks - tokens))
  }

  lemma OneTickMore(e: Eager, ticks: nat, cfg: Config)
    requires e.tokens <= Capacity(cfg) && ticks >= 1
    ensures AfterTicks(Tick(e, cfg), ticks - 1, cfg) == AfterTicks(e, ticks, cfg)
  {
    MulSum(ticks - 1, 1, cfg.rate);
  }

  /** Dropping tokens in one at a time adds up to the closed form with one cap. */
  lemma {:induction false} AdvanceToClosedForm(e: Eager, now: Micros, cfg: Config)
    requires cfg.Valid() && e.tokens <= Capacity(cfg) && now >= e.nextTick - cfg.rate
    ensures TicksBy(e, now, cfg) >= 0
    ensures AdvanceTo(e, now, cfg) == AfterTicks(e, TicksBy(e, now, cfg), cfg)
    decreases now - e.nextTick
  {
    var since := now - (e.nextTick - cfg.rate);
    DivAtLeast(since, cfg.rate, 0);
    DivAtLeast(since, cfg.rate, 1);
    if e.nextTick <= now {
      AdvanceToClosedForm(Tick(e, cfg), now, cfg);
      DivAddMultiple(since, -1, cfg.rate);
      OneTickMore(e, TicksBy(e, now, cfg), cfg);
    }
  }

  /** The lazy row says the same as the eager bucket just after a take. */
  predicate Matches(b: Bucket, e: Eager, cfg: Config) {
    && e.tokens == Max(0, b.tokens)
    && e.tokens <= Capacity(cfg)
    && e.nextTick == b.lastRefill + cfg.rate
  }

  /** One take: same answer unless the statement overflows, and the match is kept. */
  lemma TakeMatchesEager(b: Bucket, e: Eager, now: Micros, cfg: Config)
    requires cfg.Valid() && Matches(b, e, cfg) && b.lastRefill <= now
    ensures var (row, answer) := Take(Some(b), now, cfg);
            var (e', granted) := EagerTake(e, now, cfg);
            && (answer != SqlError ==>
                  && row.Some? && Matches(row.value, e', cfg)
                  && row.value.lastRefill <= now < row.value.lastRefill + cfg.rate
                  && (answer.Allowed? <==> granted)
                  && e'.tokens + (if granted then 1 else 0) + (e'.lost - e.lost)
                     == e.tokens + Refill(b, now, cfg)
                  && row.value.lastRefill == b.lastRefill + Refill(b, now, cfg) * cfg.rate)
            && (answer == SqlError && cfg.burst >= 1 ==> granted)
  {
    AdvanceToClosedForm(e, now, cfg);
    DivAtLeast(now - b.lastRefill, cfg.rate, 0);
    DivBounds(now - b.lastRefill, cfg.rate);
  }

  ghost predicate Agree(answers: seq<Answer>, granted: seq<bool>) {
    && |answers| == |granted|
    && forall i :: 0 <= i < |answers| ==> (answers[i].Allowed? <==> granted[i])
  }

  predicate ErrorFree(answers: seq<Answer>) { forall i :: 0 <= i < |answers| ==> answers[i] != SqlError }

  lemma AgreeCons(a: Answer, answers: seq<Answer>, g: bool, granted: seq<bool>)
    ensures Agree([a] + answers, [g] + granted) <==> (a.Allowed? <==> g) && Agree(answers, granted)
    ensures ErrorFree([a] + answers) <==> a != SqlError && ErrorFree(answers)
  {
    var A, G := [a] + answers, [g] + granted;
    assert A[0] == a && G[0] == g;
    assert forall i :: 0 <= i < |answers| ==> A[i + 1] == answers[i];
    assert forall i :: 0 <= i < |granted| ==> G[i + 1] == granted[i];
    assert forall i :: 1 <= i < |A| ==> A[i] == answers[i - 1];
    assert forall i :: 1 <= i < |G| ==> G[i] == granted[i - 1];
  }

  /** The refinement from any matching pair of states. */
  lemma {:induction false} RunMatchesEager(b: Bucket, e: Eager, times: seq<Micros>, cfg: Config)
    requires cfg.Valid() && cfg.burst >= 1 && Matches(b, e, cfg)
    requires Nondecreasing(times) && (times != [] ==> b.lastRefill <= times[0])
    ensures Agree(Run(Some(b), times, cfg).1, EagerRun(e, times, cfg).1)
            <==> ErrorFree(Run(Some(b), times, cfg).1)
    decreases |times|
  {
    if times != [] {
      var (row, answer) := Take(Some(b), times[0], cfg);
      var (e', grant) := EagerTake(e, times[0], cfg);
      TakeMatchesEager(b, e, times[0], cfg);
      AgreeCons(answer, Run(row, times[1..], cfg).1, grant, EagerRun(e', times[1..], cfg).1);
      if answer != SqlError {
        RunMatchesEager(row.value, e', times[1..], cfg);
      }
    }
  }

  /** A bucket without capacity answers nobody, neither lazily nor eagerly. */
  lemma {:induction false} NoCapacityNoAnswer(row: Option<Bucket>, e: Eager, times: seq<Micros>, cfg: Config)
    requires cfg.Valid() && cfg.burst <= 0 && e.tokens == 0
    ensures Agree(Run(row, times, cfg).1, EagerRun(e, times, cfg).1)
    ensures CountAllowed(Run(row, times, cfg).1) == 0
    decreases |times|
  {
    if times != [] {
      var (next, answer) := Take(row, times[0], cfg);
      var (e', grant) := EagerTake(e, times[0], cfg);
      NoCapacityTicks(e, times[0], cfg);
      NoCapacityNoAnswer(next, e', times[1..], cfg);
      AgreeCons(answer, Run(next, times[1..], cfg).1, grant, EagerRun(e', times[1..], cfg).1);
    }
  }

  lemma {:induction false} NoCapacityTicks(e: Eager, now: Micros, cfg: Config)
    requires cfg.Valid() && cfg.burst <= 0 && e.tokens == 0
    ensures AdvanceTo(e, now, cfg).tokens == 0
    decreases now - e.nextTick
  {
    if e.nextTick <= now { NoCapacityTicks(Tick(e, cfg), now, cfg); }
  }

  /** When a take of an existing row overflows: a matter of how long it has lain idle. */
  lemma FitsWhileRecent(b: Bucket, now: Micros, cfg: Config)
    requires cfg.Valid() && cfg.burst >= 1 && b.lastRefill <= now && Max(0, b.tokens) <= I32_MAX
    ensures Fits(b, now, cfg) <==> now - b.lastRefill < (I32_MAX + 1 - Max(0, b.tokens)) * cfg.rate
  {
    DivAtLeast(now - b.lastRefill, cfg.rate, 0);
    DivAtLeast(now - b.lastRefill, cfg.rate, I32_MAX + 1 - Max(0, b.tokens));
  }

  /** When a take overflows, at any time and for any burst: 2^31 intervals after the last refill less the
      tokens, more than 2^31 before it, or when it would take one from the smallest integer. */
  lemma OverflowExactly(b: Bucket, now: Micros, cfg: Config)
    requires cfg.rate > 0
    ensures var held := Max(0, b.tokens);
            Take(Some(b), now, cfg).1 == SqlError <==>
              || now - b.lastRefill < -0x8000_0000 * cfg.rate
              || now - b.lastRefill >= 0x8000_0000 * cfg.rate
              || now - b.lastRefill >= (0x8000_0000 - held) * cfg.rate
              || (cfg.burst == -0x8000_0000 && now - b.lastRefill >= (1 - held) * cfg.rate)
  {
    DivAtLeast(now - b.lastRefill, cfg.rate, -0x8000_0000);
    DivAtLeast(now - b.lastRefill, cfg.rate, 0x8000_0000);
    DivAtLeast(now - b.lastRefill, cfg.rate, 0x8000_0000 - Max(0, b.tokens));
    DivAtLeast(now - b.lastRefill, cfg.rate, 1 - Max(0, b.tokens));
  }

  /** A denial stores -1, whenever it happens, and leaves the instant alone. */
  lemma DenialStoresMinusOne(b: Bucket, now: Micros, cfg: Config)
    requires cfg.Valid() && cfg.burst >= 1 && Take(Some(b), now, cfg).1 == Denied
    ensures Take(Some(b), now, cfg).0 == Some(Bucket(-1, b.lastRefill))
  {
  }

  /** An overflow does not pass: the row is left as it is, so every later take fails too, until a
      cleanup deletes it. */
  lemma OverflowPersists(b: Bucket, now: Micros, later: Micros, cfg: Config)
    requires cfg.Valid() && cfg.burst >= 1 && b.lastRefill <= now <= later && Max(0, b.tokens) <= I32_MAX
    requires Take(Some(b), now, cfg).1 == SqlError
    ensures Take(Take(Some(b), now, cfg).0, later, cfg) == (Some(b), SqlError)
  {
    FitsWhileRecent(b, now, cfg);
    FitsWhileRecent(b, later, cfg);
  }

  /** Going by the eager bucket alone: no request finds that, since the last tick before the previous
      request, 2^31 intervals less the tokens then held have passed. */
  predicate NeverIdleTooLong(e: Eager, times: seq<Micros>, cfg: Config)
    requires cfg.Valid()
    decreases |times|
  {
    times == []
    || (&& times[0] - (e.nextTick - cfg.rate) < (I32_MAX + 1 - e.tokens) * cfg.rate
        && NeverIdleTooLong(EagerTake(e, times[0], cfg).0, times[1..], cfg))
  }

  lemma {:induction false} OverflowsExactlyWhenIdle(b: Bucket, e: Eager, times: seq<Micros>, cfg: Config)
    requires cfg.Valid() && cfg.burst >= 1 && Matches(b, e, cfg)
    requires Nondecreasing(times) && (times != [] ==> b.lastRefill <= times[0])
    ensures ErrorFree(Run(Some(b), times, cfg).1) <==> NeverIdleTooLong(e, times, cfg)
    decreases |times|
  {
    if times != [] {
      var (row, answer) := Take(Some(b), times[0], cfg);
      TakeMatchesEager(b, e, times[0], cfg);
      FitsWhileRecent(b, times[0], cfg);
      AgreeCons(answer, Run(row, times[1..], cfg).1, true, []);
      if answer != SqlError {
        OverflowsExactlyWhenIdle(row.value, EagerTake(e, times[0], cfg).0, times[1..], cfg);
      }
    }
  }

  /** For every history in clock order the lazy bucket gives exactly the answers of the eager one if and
      only if the bucket never lies idle too long (or nobody is ever admitted). */
  lemma LazyRefinesEager(times: seq<Micros>, cfg: Config)
    requires cfg.Valid() && times != [] && Nondecreasing(times)
    ensures Agree(Run(None, times, cfg).1, EagerRun(EagerFull(times[0], cfg), times, cfg).1)
            <==> cfg.burst <= 0 || NeverIdleTooLong(EagerFull(times[0], cfg), times, cfg)
  {
    var e := EagerFull(times[0], cfg);
    if cfg.burst <= 0 {
      NoCapacityNoAnswer(None, e, times, cfg);
    } else {
      var (row, answer) := Take(None, times[0], cfg);
      var (e', grant) := EagerTake(e, times[0], cfg);
      RunMatchesEager(row.value, e', times[1..], cfg);
      OverflowsExactlyWhenIdle(row.value, e', times[1..], cfg);
      AgreeCons(answer, Run(row, times[1..], cfg).1, grant, EagerRun(e', times[1..], cfg).1);
      MulAtLeast(I32_MAX + 1 - e.tokens, cfg.rate);
    }
  }

  /** The refinement does fail: a bucket used once and again 2^31 intervals later, less the tokens left,
      admits the second request eagerly and breaks on it lazily; a microsecond sooner, both admit it. */
  lemma IdleBucketOverflows(cfg: Config)
    requires cfg.Valid() && cfg.burst >= 1
    ensures var idle := (I32_MAX + 2 - cfg.burst) * cfg.rate;
            && idle >= 1
            && Run(None, [0, idle], cfg).1 == [Allowed, SqlError]
            && Run(None, [0, idle - 1], cfg).1 == [Allowed, Allowed]
            && EagerRun(EagerFull(0, cfg), [0, idle], cfg).1 == [true, true]
  {
    var idle := (I32_MAX + 2 - cfg.burst) * cfg.rate;
    MulAtLeast(I32_MAX + 2 - cfg.burst, cfg.rate);
    MulSum(I32_MAX - cfg.burst, 2, cfg.rate);
    assert cfg.burst == 1 ==> idle - 1 >= cfg.rate;
    var b, e := Bucket(cfg.burst - 1, 0), EagerTake(EagerFull(0, cfg), 0, cfg).0;
    SecondTake(b, e, idle, cfg);
    SecondTake(b, e, idle - 1, cfg);
  }

  lemma SecondTake(b: Bucket, e: Eager, at: Micros, cfg: Config)
    requires cfg.Valid() && cfg.burst >= 1 && b == Bucket(cfg.burst - 1, 0)
    requires e == EagerTake(EagerFull(0, cfg), 0, cfg).0
    requires 0 <= at && (cfg.burst >= 2 || cfg.rate <= at)
    ensures Run(None, [0, at], cfg).1
         == [Allowed, if at < (I32_MAX + 2 - cfg.burst) * cfg.rate then Allowed else SqlError]
    ensures EagerRun(EagerFull(0, cfg), [0, at], cfg).1 == [true, true]
  {
    DivAtLeast(at, cfg.rate, 0);
    DivAtLeast(at, cfg.rate, 1);
    assert [0, at][1..] == [at] && [at][1..] == [];
    assert Matches(b, e, cfg);
    FitsWhileRecent(b, at, cfg);
    TakeMatchesEager(b, e, at, cfg);
    assert Run(Some(b), [at], cfg).1 == [Take(Some(b), at, cfg).1];
    assert EagerRun(e, [at], cfg).1 == [EagerTake(e, at, cfg).1];
  }

  predicate GapsWithin(times: seq<Micros>, gap: Micros) {
    forall i :: 0 < i < |times| ==> times[i] - times[i - 1] <= gap
  }

  lemma GapFits(b: Bucket, now: Micros, gap: Micros, cfg: Config)
    requires cfg.Valid() && cfg.burst >= 1 && Max(0, b.tokens) < cfg.burst && b.lastRefill <= now
    requires gap == (I32_MAX - cfg.burst) * cfg.rate && now - b.lastRefill < gap + cfg.rate
    ensures Fits(b, now, cfg)
  {
    MulSum(I32_MAX - cfg.burst, 1, cfg.rate);
    MulSum(I32_MAX + 1 - cfg.burst, cfg.burst - Max(0, b.tokens), cfg.rate);
    MulAtLeast(cfg.burst - Max(0, b.tokens), cfg.rate);
    FitsWhileRecent(b, now, cfg);
  }

  lemma {:induction false} RecentRunsAreErrorFree(b: Bucket, now: Micros, times: seq<Micros>, gap: Micros, cfg: Config)
    requires cfg.Valid() && cfg.burst >= 1 && Max(0, b.tokens) < cfg.burst && 0 <= now - b.lastRefill < cfg.rate
    requires gap == (I32_MAX - cfg.burst) * cfg.rate
    requires Nondecreasing([now] + times) && GapsWithin([now] + times, gap)
    ensures ErrorFree(Run(Some(b), times, cfg).1)
    decreases |times|
  {
    if times != [] {
      var all, t := [now] + times, times[0];
      assert all[0] == now && all[1] == t && [t] + times[1..] == all[1..];
      var (row, answer) := Take(Some(b), t, cfg);
      GapFits(b, t, gap, cfg);
      RefillCatchesUp(b, t, cfg);
      RecentRunsAreErrorFree(row.value, t, times[1..], gap, cfg);
      AgreeCons(answer, Run(row, times[1..], cfg).1, true, []);
    }
  }

  lemma RefillCatchesUp(b: Bucket, now: Micros, cfg: Config)
    requires cfg.Valid() && cfg.burst >= 1 && b.lastRefill <= now && Fits(b, now, cfg) && Max(0, b.tokens) < cfg.burst
    ensures var row := Take(Some(b), now, cfg).0;
            row.Some? && 0 <= now - row.value.lastRefill < cfg.rate && Max(0, row.value.tokens) < cfg.burst
  {
    DivBounds(now - b.lastRefill, cfg.rate);
    DivAtLeast(now - b.lastRefill, cfg.rate, 0);
  }

  /** A bucket never left alone for some 2^31 intervals is an exact eager bucket. */
  lemma ActiveBucketIsExact(times: seq<Micros>, cfg: Config)
    requires cfg.Valid() && cfg.burst >= 1 && times != [] && Nondecreasing(times)
    requires GapsWithin(times, (I32_MAX - cfg.burst) * cfg.rate)
    ensures Agree(Run(None, times, cfg).1, EagerRun(EagerFull(times[0], cfg), times, cfg).1)
  {
    var (row, answer) := Take(None, times[0], cfg);
    var (e, grant) := EagerTake(EagerFull(times[0], cfg), times[0], cfg);
    assert [times[0]] + times[1..] == times;
    RecentRunsAreErrorFree(row.value, times[0], times[1..], (I32_MAX - cfg.burst) * cfg.rate, cfg);
    RunMatchesEager(row.value, e, times[1..], cfg);
    AgreeCons(answer, Run(row, times[1..], cfg).1, grant, EagerRun(e, times[1..], cfg).1);
  }

  // ---------------------------------------------------------------------------
  // Conservation of tokens
  // ---------------------------------------------------------------------------

  function LastTime(now: Micros, times: seq<Micros>): Micros { if times == [] then now else times[|times| - 1] }

  /** Every token that dropped in was handed out, is still there, or was lost to the cap;
      and the row never lags a whole interval behind the clock. */
  lemma {:induction false} RunConserves(
      b: Bucket, e: Eager, now: Micros, times: seq<Micros>, cfg: Config) returns (refills: int)
    requires cfg.Valid() && Matches(b, e, cfg) && 0 <= now - b.lastRefill < cfg.rate
    requires Nondecreasing(times) && (times != [] ==> now <= times[0]) && ErrorFree(Run(Some(b), times, cfg).1)
    ensures var (row, answers) := Run(Some(b), times, cfg);
            var e' := EagerRun(e, times, cfg).0;
            && row.Some? && Matches(row.value, e', cfg)
            && row.value.lastRefill == b.lastRefill + refills * cfg.rate
            && refills == CountAllowed(answers) + (e'.tokens - e.tokens) + (e'.lost - e.lost)
            && 0 <= LastTime(now, times) - row.value.lastRefill < cfg.rate
    decreases |times|
  {
    hide Take;
    hide EagerTake;
    if times == [] { return 0; }
    var t, rest := times[0], times[1..];
    var (row, answer) := Take(Some(b), t, cfg);
    var (e', grant) := EagerTake(e, t, cfg);
    TakeMatchesEager(b, e, t, cfg);
    AgreeCons(answer, Run(row, rest, cfg).1, grant, EagerRun(e', rest, cfg).1);
    var later := RunConserves(row.value, e', t, rest, cfg);
    MulSum(Refill(b, t, cfg), later, cfg.rate);
    CountCons(answer, Run(row, rest, cfg).1);
    refills := Refill(b, t, cfg) + later;
  }

  lemma CountCons(a: Answer, answers: seq<Answer>)
    ensures CountAllowed([a] + answers) == (if a.Allowed? then 1 else 0) + CountAllowed(answers)
  {
    assert ([a] + answers)[1..] == answers;
  }

  lemma FirstTakes(t0: Micros, cfg: Config)
    requires cfg.Valid()
    ensures var (row, answer) := Take(None, t0, cfg);
            var (e, grant) := EagerTake(EagerFull(t0, cfg), t0, cfg);
            && row.Some? && Matches(row.value, e, cfg) && row.value.lastRefill == t0 && (answer.Allowed? <==> grant)
            && e.lost == 0 && e.tokens + (if grant then 1 else 0) == Capacity(cfg)
  {
  }

  /** After every error-free history: tokens handed out, plus those left, plus those lost to
      the cap, is the capacity plus the whole intervals since the row was created. */
  lemma TokensConserved(times: seq<Micros>, cfg: Config)
    requires cfg.Valid() && times != [] && Nondecreasing(times) && ErrorFree(Run(None, times, cfg).1)
    ensures var (row, answers) := Run(None, times, cfg);
            var e := EagerRun(EagerFull(times[0], cfg), times, cfg).0;
            && row.Some?
            && CountAllowed(answers) + Max(0, row.value.tokens) + e.lost
               == Capacity(cfg) + (row.value.lastRefill - times[0]) / cfg.rate
            && (row.value.lastRefill - times[0]) % cfg.rate == 0
            && 0 <= times[|times| - 1] - row.value.lastRefill < cfg.rate
  {
    hide Take, EagerTake, Agree, ErrorFree, Nondecreasing, Matches, EagerFull, LastTime, CountAllowed;
    var t0, rest := times[0], times[1..];
    RestOfHistory(times);
    var (row, answer) := Take(None, t0, cfg);
    var (e', grant) := EagerTake(EagerFull(t0, cfg), t0, cfg);
    FirstTakes(t0, cfg);
    AgreeCons(answer, Run(row, rest, cfg).1, grant, EagerRun(e', rest, cfg).1);
    CountCons(answer, Run(row, rest, cfg).1);
    var refills := RunConserves(row.value, e', t0, rest, cfg);
    hide Run, EagerRun;
    DivExact(refills, cfg.rate);
    MatchesMeansTokens(Run(row, rest, cfg).0.value, EagerRun(e', rest, cfg).0, cfg);
  }

  lemma RestOfHistory(times: seq<Micros>)
    requires times != [] && Nondecreasing(times)
    ensures Nondecreasing(times[1..]) && (times[1..] != [] ==> times[0] <= times[1..][0])
    ensures LastTime(times[0], times[1..]) == times[|times| - 1]
  {
  }

  lemma MatchesMeansTokens(b: Bucket, e: Eager, cfg: Config)
    requires Matches(b, e, cfg)
    ensures e.tokens == Max(0, b.tokens)
  {
  }

  /** One take, at any time, never hands out more than was there or has accrued. */
  lemma TakeNeverOverspends(b: Bucket, now: Micros, cfg: Config)
    requires cfg.Valid() && Max(0, b.tokens) <= Capacity(cfg)
    ensures var (row, answer) := Take(Some(b), now, cfg);
            && row.Some? && Max(0, row.value.tokens) <= Capacity(cfg)
            && b.lastRefill <= row.value.lastRefill <= Max(b.lastRefill, now)
            && ((if answer.Allowed? then 1 else 0) + Max(0, row.value.tokens) - Max(0, b.tokens)) * cfg.rate
               <= row.value.lastRefill - b.lastRefill
  {
    var (row, answer) := Take(Some(b), now, cfg);
    var k := Refill(b, now, cfg);
    DivBounds(now - b.lastRefill, cfg.rate);
    var gain := (if answer.Allowed? then 1 else 0) + Max(0, row.value.tokens) - Max(0, b.tokens);
    assert gain <= Max(0, k);
    assert (Max(0, k) - gain) * cfg.rate >= 0;
    assert Max(0, k) * cfg.rate == gain * cfg.rate + (Max(0, k) - gain) * cfg.rate;
    if k >= 1 { MulAtLeast(k, cfg.rate); }
  }

  lemma {:induction false} RunNeverOverspends(b: Bucket, times: seq<Micros>, cfg: Config, latest: Micros)
    requires cfg.Valid() && Max(0, b.tokens) <= Capacity(cfg) && b.lastRefill <= latest
    requires forall i :: 0 <= i < |times| ==> times[i] <= latest
    ensures (CountAllowed(Run(Some(b), times, cfg).1) - Max(0, b.tokens)) * cfg.rate <= latest - b.lastRefill
    decreases |times|
  {
    if times == [] {
      assert Max(0, b.tokens) * cfg.rate >= 0;
    } else {
      var (row, answer) := Take(Some(b), times[0], cfg);
      var n := CountAllowed(Run(row, times[1..], cfg).1);
      var one := if answer.Allowed? then 1 else 0;
      TakeNeverOverspends(b, times[0], cfg);
      RunNeverOverspends(row.value, times[1..], cfg, latest);
      assert (n - Max(0, row.value.tokens)) * cfg.rate + (one + Max(0, row.value.tokens) - Max(0, b.tokens)) * cfg.rate
          == (n + one - Max(0, b.tokens)) * cfg.rate;
    }
  }

  /** Requests may reach the database out of clock order.  In any order, a bucket hands out
      at most its capacity plus one token per interval up to the latest timestamp. */
  lemma NeverOverspendsInAnyOrder(times: seq<Micros>, cfg: Config, latest: Micros)
    requires cfg.Valid() && times != []
    requires forall i :: 0 <= i < |times| ==> times[i] <= latest
    ensures CountAllowed(Run(None, times, cfg).1) <= Capacity(cfg) + (latest - times[0]) / cfg.rate
  {
    var (row, answer) := Take(None, times[0], cfg);
    var n := CountAllowed(Run(row, times[1..], cfg).1);
    RunNeverOverspends(row.value, times[1..], cfg, latest);
    DivAtLeast(latest - times[0], cfg.rate, n - Max(0, row.value.tokens));
    DivAtLeast(latest - times[0], cfg.rate, 0);
  }

  // ---------------------------------------------------------------------------
  // Answers in any order
  // ---------------------------------------------------------------------------

  /** A reference bucket: `n` tokens dropped in one at a time, each lost when the bucket is full. */
  function Drop(tokens: nat, n: nat, cfg: Config): nat
    decreases n
  {
    if n == 0 then tokens else Drop(if tokens < Capacity(cfg) then tokens + 1 else tokens, n - 1, cfg)
  }

  /** Whether each of a sequence of takes finds a token, given what drops in (or leaks out) before it. */
  function Served(tokens: nat, drops: seq<int>, cfg: Config): seq<bool>
    decreases |drops|
  {
    if drops == [] then []
    else
      var there := if drops[0] >= 0 then Drop(tokens, drops[0], cfg) else Max(0, tokens + drops[0]);
      if there > 0 then [true] + Served(there - 1, drops[1..], cfg) else [false] + Served(0, drops[1..], cfg)
  }

  lemma {:induction false} DropClosedForm(tokens: nat, n: nat, cfg: Config)
    requires tokens <= Capacity(cfg)
    ensures Drop(tokens, n, cfg) == Min(tokens + n, Capacity(cfg))
    decreases n
  {
    if n > 0 { DropClosedForm(if tokens < Capacity(cfg) then tokens + 1 else tokens, n - 1, cfg); }
  }

  /** Whole intervals from creation to an instant; negative before it. */
  function Due(created: Micros, now: Micros, cfg: Config): int
    requires cfg.Valid()
  {
    (now - created) / cfg.rate
  }

  /** What drops in before each request: the intervals due by its timestamp, less the most that were due
      by an earlier one.  A request stamped in the past finds that many too few. */
  function DropsFor(times: seq<Micros>, created: Micros, due: int, cfg: Config): seq<int>
    requires cfg.Valid()
    decreases |times|
  {
    if times == [] then []
    else [Due(created, times[0], cfg) - due] + DropsFor(times[1..], created, Max(due, Due(created, times[0], cfg)), cfg)
  }

  lemma {:induction false} RunServesDue(b: Bucket, created: Micros, due: int, times: seq<Micros>, cfg: Config)
    requires cfg.Valid() && Max(0, b.tokens) <= Capacity(cfg) && b.lastRefill == created + due * cfg.rate
    requires ErrorFree(Run(Some(b), times, cfg).1)
    ensures Agree(Run(Some(b), times, cfg).1, Served(Max(0, b.tokens), DropsFor(times, created, due, cfg), cfg))
    decreases |times|
  {
    if times == [] {
      assert Agree([], []);
    } else {
      hide Fits, Take, Agree, ErrorFree, Drop;
      var t, rest := times[0], times[1..];
      var (row, answer) := Take(Some(b), t, cfg);
      var n := Due(created, t, cfg);
      AgreeCons(answer, Run(row, rest, cfg).1, answer.Allowed?, []);
      TakeServesDue(b, created, due, t, cfg);
      RunServesDue(row.value, created, Max(due, n), rest, cfg);
      var drops := DropsFor(rest, created, Max(due, n), cfg);
      assert ([n - due] + drops)[1..] == drops;
      AgreeCons(answer, Run(row, rest, cfg).1, answer.Allowed?, Served(Max(0, row.value.tokens), drops, cfg));
    }
  }

  lemma TakeServesDue(b: Bucket, created: Micros, due: int, now: Micros, cfg: Config)
    requires cfg.Valid() && Max(0, b.tokens) <= Capacity(cfg) && b.lastRefill == created + due * cfg.rate
    requires Take(Some(b), now, cfg).1 != SqlError
    ensures var (row, answer) := Take(Some(b), now, cfg);
            var n := Due(created, now, cfg) - due;
            var there := if n >= 0 then Drop(Max(0, b.tokens), n, cfg) else Max(0, Max(0, b.tokens) + n);
            && (answer.Allowed? <==> there > 0)
            && row.Some? && Max(0, row.value.tokens) == (if there > 0 then there - 1 else 0)
            && Max(0, row.value.tokens) <= Capacity(cfg)
            && row.value.lastRefill == created + Max(due, Due(created, now, cfg)) * cfg.rate
  {
    var n := Due(created, now, cfg) - due;
    DivAddMultiple(now - created, -due, cfg.rate);
    assert Refill(b, now, cfg) == n by { assert now - b.lastRefill == now - created + -due * cfg.rate; }
    MulSum(due, n, cfg.rate);
    if n >= 0 { DropClosedForm(Max(0, b.tokens), n, cfg); }
  }

  /** For every history in whatever order in which no statement overflows, a take is allowed exactly if a
      bucket that starts full and receives the intervals due, each once, holds a token. */
  lemma AnswersInAnyOrder(times: seq<Micros>, cfg: Config)
    requires cfg.Valid() && times != [] && ErrorFree(Run(None, times, cfg).1)
    ensures Agree(Run(None, times, cfg).1, Served(Capacity(cfg), [0] + DropsFor(times[1..], times[0], 0, cfg), cfg))
  {
    var (row, answer) := Take(None, times[0], cfg);
    var drops := DropsFor(times[1..], times[0], 0, cfg);
    AgreeCons(answer, Run(row, times[1..], cfg).1, answer.Allowed?, []);
    RunServesDue(row.value, times[0], 0, times[1..], cfg);
    assert ([0] + drops)[1..] == drops;
    AgreeCons(answer, Run(row, times[1..], cfg).1, cfg.burst >= 1, Served(Max(0, row.value.tokens), drops, cfg));
  }
}
