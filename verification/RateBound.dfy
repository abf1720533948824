/** How many requests a window of time can admit, when a garbage collector may delete the
    bucket row, and so silently refill it, at any moment. */
module RateBound {
  import opened Arith
  import opened Wrappers
  import opened TokenBucket

  datatype Event = TakeAt(at: Micros) | CleanupAt(at: Micros)

  /** `DELETE ... WHERE last_refill < now - maxAge`, for one row. */
  function Clean(row: Option<Bucket>, now: Micros, maxAge: Micros): Option<Bucket> {
    if row.Some? && row.value.lastRefill < now - maxAge then None else row
  }

  function Apply(row: Option<Bucket>, event: Event, cfg: Config, maxAge: Micros): (Option<Bucket>, Answer)
    requires cfg.Valid()
  {
    match event
    case TakeAt(now) => Take(row, now, cfg)
    case CleanupAt(now) => (Clean(row, now, maxAge), Denied)
  }

  predicate InOrder(events: seq<Event>) {
    forall i, j :: 0 <= i < j < |events| ==> events[i].at <= events[j].at
  }

  /** The number of takes with a timestamp in [from, to] that were allowed. */
  function Admitted(row: Option<Bucket>, events: seq<Event>, from: Micros, to: Micros, cfg: Config, maxAge: Micros): nat
    requires cfg.Valid()
    decreases |events|
  {
    if events == [] then 0
    else
      var (next, answer) := Apply(row, events[0], cfg, maxAge);
      (if answer.Allowed? && from <= events[0].at <= to then 1 else 0)
      + Admitted(next, events[1..], from, to, cfg, maxAge)
  }

  lemma AdmittedCons(
      row: Option<Bucket>, event: Event, rest: seq<Event>, from: Micros, to: Micros, cfg: Config, maxAge: Micros)
    requires cfg.Valid()
    ensures var (next, answer) := Apply(row, event, cfg, maxAge);
            Admitted(row, [event] + rest, from, to, cfg, maxAge) ==
            (if answer.Allowed? && from <= event.at <= to then 1 else 0) + Admitted(next, rest, from, to, cfg, maxAge)
  {
    assert ([event] + rest)[1..] == rest;
  }

  function Bound(from: Micros, to: Micros, cfg: Config): int
    requires cfg.Valid()
  {
    cfg.burst + 1 + (to - from) / cfg.rate
  }

  /** The documented rate: a burst, one token for the interval in progress, and one for each
      whole interval of the window. */
  ghost predicate RateBounded(events: seq<Event>, from: Micros, to: Micros, cfg: Config, maxAge: Micros)
    requires cfg.Valid()
  {
    Admitted(None, events, from, to, cfg, maxAge) <= Bound(from, to, cfg)
  }

  // ---------------------------------------------------------------------------
  // Sufficiency: a credit that no event increases
  // ---------------------------------------------------------------------------

  /** What a row at time `now` can still admit up to `to`: the tokens it would hold after
      refilling, and one for every later refill. */
  function Credit(row: Option<Bucket>, now: Micros, to: Micros, cfg: Config): int
    requires cfg.Valid()
  {
    match row
    case None => cfg.burst + (to - now) / cfg.rate
    case Some(b) =>
      var refill := (now - b.lastRefill) / cfg.rate;
      Min(Max(0, b.tokens) + refill, cfg.burst) + (to - b.lastRefill) / cfg.rate - refill
  }

  predicate Plausible(row: Option<Bucket>, now: Micros, cfg: Config) {
    row.Some? ==> row.value.lastRefill <= now && Max(0, row.value.tokens) <= cfg.burst
  }

  lemma ApplyStaysPlausible(row: Option<Bucket>, event: Event, cfg: Config, maxAge: Micros)
    requires cfg.Valid() && cfg.burst >= 1 && Plausible(row, event.at, cfg)
    ensures Plausible(Apply(row, event, cfg, maxAge).0, event.at, cfg)
  {
    if row.Some? { DivBounds(event.at - row.value.lastRefill, cfg.rate); }
  }

  lemma CreditFallsWithTime(row: Option<Bucket>, now: Micros, later: Micros, to: Micros, cfg: Config)
    requires cfg.Valid() && now <= later
    ensures Credit(row, later, to, cfg) <= Credit(row, now, to, cfg)
  {
    match row
    case None => DivMonotone(to - later, to - now, cfg.rate);
    case Some(b) => DivMonotone(now - b.lastRefill, later - b.lastRefill, cfg.rate);
  }

  lemma RefillMovesOn(last: Micros, refill: int, at: Micros, rate: Micros)
    requires rate > 0
    ensures (at - (last + refill * rate)) / rate == (at - last) / rate - refill
  {
    DivAddMultiple(at - last, -refill, rate);
    assert at - (last + refill * rate) == (at - last) + (-refill) * rate;
  }

  lemma CreditPaysForTakes(row: Option<Bucket>, now: Micros, to: Micros, cfg: Config)
    requires cfg.Valid() && cfg.burst >= 1 && Plausible(row, now, cfg) && now <= to
    ensures var (next, answer) := Take(row, now, cfg);
            Credit(next, now, to, cfg) + (if answer.Allowed? then 1 else 0) <= Credit(row, now, to, cfg)
  {
    match row
    case None => DivUnique(0, cfg.rate, 0, 0);
    case Some(b) =>
      var refill := Refill(b, now, cfg);
      DivMonotone(0, now - b.lastRefill, cfg.rate);
      RefillMovesOn(b.lastRefill, refill, now, cfg.rate);
      RefillMovesOn(b.lastRefill, refill, to, cfg.rate);
  }

  /** Deleting a row older than the time a full refill takes gives nothing away. */
  lemma CreditSurvivesCleanup(row: Option<Bucket>, now: Micros, to: Micros, cfg: Config, maxAge: Micros)
    requires cfg.Valid() && cfg.burst >= 1 && maxAge + 1 >= cfg.burst * cfg.rate
    requires Plausible(row, now, cfg)
    ensures Credit(Clean(row, now, maxAge), now, to, cfg) <= Credit(row, now, to, cfg)
  {
    if row.Some? && row.value.lastRefill < now - maxAge {
      var age := now - row.value.lastRefill;
      DivAtLeast(age, cfg.rate, cfg.burst);
      DivSplit(age, to - now, cfg.rate);
    }
  }

  lemma CreditIsBounded(row: Option<Bucket>, now: Micros, to: Micros, cfg: Config)
    requires cfg.Valid() && Plausible(row, now, cfg)
    ensures Credit(row, now, to, cfg) <= Bound(now, to, cfg)
  {
    if row.Some? { DivSplit(now - row.value.lastRefill, to - now, cfg.rate); }
  }

  /** Inside the window, what is admitted is paid for by the credit at its start. */
  lemma {:induction false} AdmittedWithinCredit(
      row: Option<Bucket>, events: seq<Event>, now: Micros, from: Micros, to: Micros, cfg: Config, maxAge: Micros)
    requires cfg.Valid() && cfg.burst >= 1 && maxAge + 1 >= cfg.burst * cfg.rate
    requires InOrder(events) && (events != [] ==> now <= events[0].at) && Plausible(row, now, cfg)
    ensures Admitted(row, events, from, to, cfg, maxAge) <= Max(0, Credit(row, now, to, cfg))
    decreases |events|
  {
    if events != [] {
      var at := events[0].at;
      var (next, answer) := Apply(row, events[0], cfg, maxAge);
      ApplyStaysPlausible(row, events[0], cfg, maxAge);
      AdmittedWithinCredit(next, events[1..], at, from, to, cfg, maxAge);
      CreditFallsWithTime(row, now, at, to, cfg);
      if at > to {
        NothingAfter(next, events[1..], from, to, cfg, maxAge);
      } else if events[0].TakeAt? {
        CreditPaysForTakes(row, at, to, cfg);
        CreditNonNegative(next, at, to, cfg);
      } else {
        CreditSurvivesCleanup(row, at, to, cfg, maxAge);
      }
    }
  }

  lemma CreditNonNegative(row: Option<Bucket>, now: Micros, to: Micros, cfg: Config)
    requires cfg.Valid() && cfg.burst >= 1 && Plausible(row, now, cfg) && now <= to
    ensures Credit(row, now, to, cfg) >= 0
  {
    DivMonotone(0, to - now, cfg.rate);
    if row.Some? {
      DivMonotone(0, now - row.value.lastRefill, cfg.rate);
      DivMonotone(now - row.value.lastRefill, to - row.value.lastRefill, cfg.rate);
    }
  }

  lemma {:induction false} NothingAfter(
      row: Option<Bucket>, events: seq<Event>, from: Micros, to: Micros, cfg: Config, maxAge: Micros)
    requires cfg.Valid() && forall i :: 0 <= i < |events| ==> to < events[i].at
    ensures Admitted(row, events, from, to, cfg, maxAge) == 0
    decreases |events|
  {
    if events != [] {
      NothingAfter(Apply(row, events[0], cfg, maxAge).0, events[1..], from, to, cfg, maxAge);
    }
  }

  /** Before the window nothing is counted; at its start the credit takes over. */
  lemma {:induction false} WindowBounded(
      row: Option<Bucket>, events: seq<Event>, from: Micros, to: Micros, cfg: Config, maxAge: Micros)
    requires cfg.Valid() && cfg.burst >= 1 && maxAge + 1 >= cfg.burst * cfg.rate && from <= to
    requires InOrder(events) && (events != [] ==> Plausible(row, events[0].at, cfg))
    ensures Admitted(row, events, from, to, cfg, maxAge) <= Bound(from, to, cfg)
    decreases |events|
  {
    DivMonotone(0, to - from, cfg.rate);
    if events != [] {
      var at := events[0].at;
      if at < from {
        ApplyStaysPlausible(row, events[0], cfg, maxAge);
        WindowBounded(Apply(row, events[0], cfg, maxAge).0, events[1..], from, to, cfg, maxAge);
      } else {
        AdmittedWithinCredit(row, events, at, from, to, cfg, maxAge);
        CreditIsBounded(row, at, to, cfg);
        DivMonotone(to - at, to - from, cfg.rate);
      }
    }
  }

  // ---------------------------------------------------------------------------
  // Necessity and tightness: histories that reach further
  // ---------------------------------------------------------------------------

  function Burst(at: Micros, n: nat): (events: seq<Event>)
    ensures |events| == n && forall i :: 0 <= i < n ==> events[i] == TakeAt(at)
  {
    seq(n, i => TakeAt(at))
  }

  lemma TakeNew(at: Micros, cfg: Config)
    requires cfg.burst >= 1 && cfg.Valid()
    ensures Take(None, at, cfg) == (Some(Bucket(cfg.burst - 1, at)), Allowed)
  {
  }

  lemma TakeStored(b: Bucket, at: Micros, cfg: Config)
    requires cfg.Valid() && 1 <= b.tokens <= cfg.burst && 0 <= at - b.lastRefill < cfg.rate
    ensures Take(Some(b), at, cfg) == (Some(Bucket(b.tokens - 1, b.lastRefill)), Allowed)
  {
    DivUnique(at - b.lastRefill, cfg.rate, 0, at - b.lastRefill);
  }

  lemma BurstCons(at: Micros, n: nat, rest: seq<Event>)
    requires n > 0
    ensures Burst(at, n) + rest == [TakeAt(at)] + (Burst(at, n - 1) + rest)
  {
  }

  /** Takes within one interval of the last refill use up the stored tokens one by one. */
  lemma {:induction false} BurstDrains(
      b: Bucket, n: nat, at: Micros, rest: seq<Event>, from: Micros, to: Micros, cfg: Config, maxAge: Micros)
    requires cfg.Valid() && n <= b.tokens <= cfg.burst && 0 <= at - b.lastRefill < cfg.rate && from <= at <= to
    ensures Admitted(Some(b), Burst(at, n) + rest, from, to, cfg, maxAge)
         == n + Admitted(Some(Bucket(b.tokens - n, b.lastRefill)), rest, from, to, cfg, maxAge)
    decreases n
  {
    if n == 0 {
      assert Burst(at, n) + rest == rest;
    } else {
      BurstCons(at, n, rest);
      TakeStored(b, at, cfg);
      AdmittedCons(Some(b), TakeAt(at), Burst(at, n - 1) + rest, from, to, cfg, maxAge);
      BurstDrains(Bucket(b.tokens - 1, b.lastRefill), n - 1, at, rest, from, to, cfg, maxAge);
    }
  }

  /** A whole burst on a missing row. */
  lemma BurstOnNewRow(at: Micros, rest: seq<Event>, from: Micros, to: Micros, cfg: Config, maxAge: Micros)
    requires cfg.Valid() && cfg.burst >= 1 && from <= at <= to
    ensures Admitted(None, Burst(at, cfg.burst) + rest, from, to, cfg, maxAge)
         == cfg.burst + Admitted(Some(Bucket(0, at)), rest, from, to, cfg, maxAge)
  {
    BurstCons(at, cfg.burst, rest);
    TakeNew(at, cfg);
    AdmittedCons(None, TakeAt(at), Burst(at, cfg.burst - 1) + rest, from, to, cfg, maxAge);
    BurstDrains(Bucket(cfg.burst - 1, at), cfg.burst - 1, at, rest, from, to, cfg, maxAge);
  }

  /** A full burst, then a cleanup the moment the row has become old enough; `n` times over. */
  function Cycles(at: Micros, n: nat, period: Micros, cfg: Config): seq<Event>
    requires cfg.burst >= 1
    decreases n
  {
    Burst(at, cfg.burst) + (if n == 0 then [] else [CleanupAt(at + period)] + Cycles(at + period, n - 1, period, cfg))
  }

  lemma {:induction false} CyclesInOrder(at: Micros, n: nat, period: Micros, cfg: Config)
    requires cfg.burst >= 1 && period >= 0
    ensures InOrder(Cycles(at, n, period, cfg))
    ensures forall i :: 0 <= i < |Cycles(at, n, period, cfg)| ==> at <= Cycles(at, n, period, cfg)[i].at
    decreases n
  {
    if n > 0 { CyclesInOrder(at + period, n - 1, period, cfg); }
  }

  lemma {:induction false} CyclesAdmitAll(at: Micros, n: nat, from: Micros, to: Micros, cfg: Config, maxAge: nat)
    requires cfg.Valid() && cfg.burst >= 1 && from <= at && at + n * (maxAge + 1) <= to
    ensures Admitted(None, Cycles(at, n, maxAge + 1, cfg), from, to, cfg, maxAge) == (n + 1) * cfg.burst
    decreases n
  {
    hide Take;
    var period := maxAge + 1;
    MulSum(n, 1, cfg.burst);
    assert n * period >= 0;
    if n == 0 {
      BurstOnNewRow(at, [], from, to, cfg, maxAge);
    } else {
      var later := Cycles(at + period, n - 1, period, cfg);
      MulSum(n - 1, 1, period);
      BurstOnNewRow(at, [CleanupAt(at + period)] + later, from, to, cfg, maxAge);
      AdmittedCons(Some(Bucket(0, at)), CleanupAt(at + period), later, from, to, cfg, maxAge);
      CyclesAdmitAll(at + period, n - 1, from, to, cfg, maxAge);
    }
  }

  lemma ManyShortPeriods(rate: int, total: int, period: int)
    requires rate > 0 && 0 <= period < total
    ensures 0 <= 2 * rate * period && 2 * rate * period / rate <= 2 * total - 2
  {
    DivExact(2 * period, rate);
    assert 2 * period * rate == 2 * rate * period;
    assert 0 <= rate * period;
  }

  /** With a shorter retention, emptying the bucket once per deletion breaks the bound. */
  lemma ShortRetentionBreaksBound(cfg: Config, maxAge: nat)
    requires cfg.Valid() && cfg.burst >= 1 && maxAge + 1 < cfg.burst * cfg.rate
    ensures var n := 2 * cfg.rate;
            var events := Cycles(0, n, maxAge + 1, cfg);
            InOrder(events) && 0 <= n * (maxAge + 1) && !RateBounded(events, 0, n * (maxAge + 1), cfg, maxAge)
  {
    var n, period, total := 2 * cfg.rate, maxAge + 1, cfg.burst * cfg.rate;
    CyclesInOrder(0, n, period, cfg);
    CyclesAdmitAll(0, n, 0, n * period, cfg, maxAge);
    ManyShortPeriods(cfg.rate, total, period);
    assert (n + 1) * cfg.burst == 2 * total + cfg.burst;
  }

  ghost predicate AlwaysBounded(cfg: Config, maxAge: nat)
    requires cfg.Valid()
  {
    forall events: seq<Event>, from: Micros, to: Micros | InOrder(events) && from <= to ::
      RateBounded(events, from, to, cfg, maxAge)
  }

  /** For every interleaving of takes and cleanups in clock order and every window, the rate
      bound holds if and only if rows are kept for the time a full refill takes. */
  lemma RateBoundSurvivesCleanup(cfg: Config, maxAge: nat)
    requires cfg.Valid() && cfg.burst >= 1
    ensures AlwaysBounded(cfg, maxAge) <==> maxAge + 1 >= cfg.burst * cfg.rate
  {
    if maxAge + 1 >= cfg.burst * cfg.rate {
      forall events: seq<Event>, from: Micros, to: Micros | InOrder(events) && from <= to
        ensures RateBounded(events, from, to, cfg, maxAge)
      {
        WindowBounded(None, events, from, to, cfg, maxAge);
      }
    } else {
      ShortRetentionBreaksBound(cfg, maxAge);
      var n := 2 * cfg.rate;
      var events := Cycles(0, n, maxAge + 1, cfg);
      assert !RateBounded(events, 0, n * (maxAge + 1), cfg, maxAge);
    }
  }

  /** Waiting until just before the second refill, then draining the bucket, then catching the
      refill one microsecond later. */
  function TightHistory(cfg: Config): seq<Event>
    requires cfg.Valid() && cfg.burst >= 1
  {
    var late := 2 * cfg.rate - 1;
    [TakeAt(0)] + (Burst(late, cfg.burst) + [TakeAt(late + 1)])
  }

  /** A take in the second interval after a refill finds one token more. */
  lemma FirstRefill(b: Bucket, at: Micros, cfg: Config)
    requires cfg.Valid() && 0 <= b.tokens < cfg.burst && cfg.rate <= at - b.lastRefill < 2 * cfg.rate
    ensures Take(Some(b), at, cfg) == (Some(Bucket(b.tokens, b.lastRefill + cfg.rate)), Allowed)
  {
    DivUnique(at - b.lastRefill, cfg.rate, 1, at - b.lastRefill - cfg.rate);
  }

  /** The extra token in the bound is really there: it is attained for every configuration
      whose interval is longer than one microsecond. */
  lemma BoundIsAttained(cfg: Config, maxAge: nat)
    requires cfg.Valid() && cfg.burst >= 1 && cfg.rate >= 2
    ensures InOrder(TightHistory(cfg))
    ensures Admitted(None, TightHistory(cfg), 2 * cfg.rate - 1, 2 * cfg.rate, cfg, maxAge)
         == Bound(2 * cfg.rate - 1, 2 * cfg.rate, cfg)
  {
    hide Take;
    var late := 2 * cfg.rate - 1;
    var last := [TakeAt(late + 1)];
    var created, full, drained := Bucket(cfg.burst - 1, 0), Bucket(cfg.burst - 1, cfg.rate), Bucket(0, cfg.rate);
    AdmittedCons(None, TakeAt(0), Burst(late, cfg.burst) + last, late, late + 1, cfg, maxAge);
    TakeNew(0, cfg);
    FirstRefill(created, late, cfg);
    BurstCons(late, cfg.burst, last);
    AdmittedCons(Some(created), TakeAt(late), Burst(late, cfg.burst - 1) + last, late, late + 1, cfg, maxAge);
    BurstDrains(full, cfg.burst - 1, late, last, late, late + 1, cfg, maxAge);
    FirstRefill(drained, late + 1, cfg);
    AdmittedCons(Some(drained), TakeAt(late + 1), [], late, late + 1, cfg, maxAge);
    assert last == last + [];
    DivUnique(1, cfg.rate, 0, 1);
  }
}
