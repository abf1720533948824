/** The rate bound of the SQLite bucket, with the garbage collector at work.

    However long a bucket lives, and however often its row is deleted and recreated, a window
    admits no more than the exact bucket may admit in a window a few milliseconds longer. */
module SqliteRateBound {
  import opened Arith
  import opened Wrappers
  import opened TokenBucket
  import opened SqliteBucket

  /** A cleanup may spare an old row: text comparison keeps some up to a millisecond longer. */
  datatype Event = Take(request: Request) | Cleanup(at: Micros, spares: bool) {
    function Time(): Micros { if Take? then request.now else at }
  }

  function Apply(row: Option<Bucket>, event: Event, cfg: Config, maxAge: Micros): (Option<Bucket>, Answer)
    requires cfg.Valid()
  {
    match event
    case Take(r) => SqliteTake(row, r, cfg)
    case Cleanup(at, spares) =>
      (if row.Some? && row.value.lastRefill < at - maxAge && !spares then None else row, Denied)
  }

  predicate InOrder(events: seq<Event>, limit: Extra) {
    && (forall i :: 0 <= i < |events| && events[i].Take? ==> events[i].request.Valid(limit))
    && forall i, j :: 0 <= i < j < |events| ==> events[i].Time() <= events[j].Time()
  }

  /** The number of takes with a timestamp in [from, to] that were allowed. */
  function Admitted(row: Option<Bucket>, events: seq<Event>, from: Micros, to: Micros, cfg: Config, maxAge: Micros): nat
    requires cfg.Valid()
    decreases |events|
  {
    if events == [] then 0
    else
      var (next, answer) := Apply(row, events[0], cfg, maxAge);
      (if answer.Allowed? && from <= events[0].Time() <= to then 1 else 0)
      + Admitted(next, events[1..], from, to, cfg, maxAge)
  }

  lemma AdmittedCons(
      row: Option<Bucket>, event: Event, rest: seq<Event>, from: Micros, to: Micros, cfg: Config, maxAge: Micros)
    requires cfg.Valid()
    ensures var (next, answer) := Apply(row, event, cfg, maxAge);
            Admitted(row, [event] + rest, from, to, cfg, maxAge) ==
            (if answer.Allowed? && from <= event.Time() <= to then 1 else 0)
            + Admitted(next, rest, from, to, cfg, maxAge)
  {
    assert ([event] + rest)[1..] == rest;
  }

  /** How much longer the window of the exact bucket is: 4 ms for extra errors up to half a millisecond. */
  function Slack(limit: Extra): int { 3 * MILLI + 2 * limit }

  function Bound(from: Micros, to: Micros, limit: Extra, cfg: Config): int
    requires cfg.Valid()
  {
    cfg.burst + 1 + (to - from + Slack(limit)) / cfg.rate
  }

  // ---------------------------------------------------------------------------
  // Sufficiency: a credit that no event increases
  // ---------------------------------------------------------------------------

  /** When the row was created, the intervals refilled since, and when it was last taken from.
      Meaningless for a missing row. */
  datatype Track = Track(created: Micros, refills: nat, seen: Micros)

  predicate OnTrack(row: Option<Bucket>, track: Track, now: Micros, limit: Extra, cfg: Config) {
    row.Some? ==> track.seen <= now && Tracks(row.value, track.created, track.refills, track.seen, limit, cfg)
  }

  function NextTrack(row: Option<Bucket>, track: Track, event: Event, cfg: Config): Track
    requires cfg.Valid()
  {
    match event
    case Cleanup(_, _) => track
    case Take(r) =>
      if row.None? then Track(r.now, 0, r.now)
      else Track(track.created, track.refills + RefillsOf(row, r, cfg), r.now)
  }

  /** What the row can still admit up to `to`: its tokens, and one for every refill to come, counted
      from the millisecond of its creation. */
  function Credit(row: Option<Bucket>, track: Track, now: Micros, to: Micros, limit: Extra, cfg: Config): int
    requires cfg.Valid()
  {
    if row.None? then cfg.burst + (to - FloorMilli(now) + 3 * MILLI + limit) / cfg.rate
    else Max(0, row.value.tokens) + (to - FloorMilli(track.created) + 3 * MILLI + limit) / cfg.rate - track.refills
  }

  /** Rows are kept for the time a full refill takes. */
  predicate Retention(cfg: Config, maxAge: Micros) { maxAge + 1 >= cfg.burst * cfg.rate }

  lemma EventStaysOnTrack(row: Option<Bucket>, track: Track, event: Event, limit: Extra, cfg: Config, maxAge: Micros)
    requires WholeMillis(cfg) && cfg.burst >= 1 && OnTrack(row, track, event.Time(), limit, cfg)
    requires event.Take? ==> event.request.Valid(limit)
    ensures OnTrack(Apply(row, event, cfg, maxAge).0, NextTrack(row, track, event, cfg), event.Time(), limit, cfg)
  {
    if event.Take? && row.Some? {
      TakeKeepsTrack(row.value, track.created, track.refills, track.seen, limit, event.request, cfg);
    }
  }

  lemma CreditNonNegative(row: Option<Bucket>, track: Track, now: Micros, to: Micros, limit: Extra, cfg: Config)
    requires cfg.Valid() && cfg.burst >= 1 && OnTrack(row, track, now, limit, cfg) && now <= to
    ensures Credit(row, track, now, to, limit, cfg) >= 0
  {
    if row.Some? {
      DivAtLeast(to - FloorMilli(track.created) + 3 * MILLI + limit, cfg.rate, track.refills);
    } else {
      DivMonotone(0, to - FloorMilli(now) + 3 * MILLI + limit, cfg.rate);
    }
  }

  lemma FloorAtLeast(x: Micros, y: Micros)
    requires y % MILLI == 0 && y <= x
    ensures y <= FloorMilli(x)
  {
  }

  lemma WholeMultiple(base: Micros, k: int, cfg: Config)
    requires WholeMillis(cfg) && base % MILLI == 0
    ensures (base + k * cfg.rate) % MILLI == 0
  {
    var q := cfg.rate / MILLI;
    assert k * cfg.rate == (k * q) * MILLI;
    DivExact(base / MILLI + k * q, MILLI);
  }

  /** Deleting a row older than a full refill takes gives nothing away, however `last_refill` was
      rounded: the row that may replace it starts in a later millisecond than the refills it lost. */
  lemma CreditSurvivesDeletion(
      b: Bucket, track: Track, at: Micros, to: Micros, limit: Extra, cfg: Config, maxAge: Micros)
    requires WholeMillis(cfg) && Retention(cfg, maxAge) && OnTrack(Some(b), track, at, limit, cfg)
    requires b.lastRefill < at - maxAge
    ensures Credit(None, track, at, to, limit, cfg) <= Credit(Some(b), track, at, to, limit, cfg)
  {
    var base, k, reach := FloorMilli(track.created), track.refills + cfg.burst, to + 3 * MILLI + limit;
    MulSum(track.refills, cfg.burst, cfg.rate);
    assert base % MILLI == 0;
    hide FloorMilli, WholeMillis;
    WholeMultiple(base, k, cfg);
    FloorAtLeast(at, base + k * cfg.rate);
    DivAddMultiple(reach - FloorMilli(at), k, cfg.rate);
    DivMonotone(reach - FloorMilli(at) + k * cfg.rate, reach - base, cfg.rate);
  }

  /** Every event is paid for: a take that is allowed spends one of the credit. */
  lemma EventSpendsCredit(
      row: Option<Bucket>, track: Track, event: Event, to: Micros, limit: Extra, cfg: Config, maxAge: Micros)
    requires WholeMillis(cfg) && cfg.burst >= 1 && Retention(cfg, maxAge)
    requires OnTrack(row, track, event.Time(), limit, cfg)
    ensures var (next, answer) := Apply(row, event, cfg, maxAge);
            (if answer.Allowed? then 1 else 0)
            + Credit(next, NextTrack(row, track, event, cfg), event.Time(), to, limit, cfg)
            <= Credit(row, track, event.Time(), to, limit, cfg)
  {
    if event.Cleanup? && row.Some? && row.value.lastRefill < event.at - maxAge {
      CreditSurvivesDeletion(row.value, track, event.at, to, limit, cfg, maxAge);
    }
  }

  lemma CreditFallsWithTime(
      row: Option<Bucket>, track: Track, now: Micros, later: Micros, to: Micros, limit: Extra, cfg: Config)
    requires cfg.Valid() && now <= later
    ensures Credit(row, track, later, to, limit, cfg) <= Credit(row, track, now, to, limit, cfg)
  {
    DivMonotone(to - FloorMilli(later) + 3 * MILLI + limit, to - FloorMilli(now) + 3 * MILLI + limit, cfg.rate);
  }

  lemma {:induction false} AdmittedWithinCredit(
      row: Option<Bucket>, track: Track, events: seq<Event>, now: Micros, from: Micros, to: Micros,
      limit: Extra, cfg: Config, maxAge: Micros)
    requires WholeMillis(cfg) && cfg.burst >= 1 && Retention(cfg, maxAge) && OnTrack(row, track, now, limit, cfg)
    requires InOrder(events, limit) && (events != [] ==> now <= events[0].Time())
    ensures Admitted(row, events, from, to, cfg, maxAge) <= Max(0, Credit(row, track, now, to, limit, cfg))
    decreases |events|
  {
    if events != [] {
      hide Credit, Apply, NextTrack, Retention, WholeMillis;
      var event, rest, at := events[0], events[1..], events[0].Time();
      var next, track' := Apply(row, event, cfg, maxAge).0, NextTrack(row, track, event, cfg);
      if at > to {
        NothingAfter(next, rest, from, to, cfg, maxAge);
      } else {
        EventStaysOnTrack(row, track, event, limit, cfg, maxAge);
        EventSpendsCredit(row, track, event, to, limit, cfg, maxAge);
        CreditNonNegative(next, track', at, to, limit, cfg);
        AdmittedWithinCredit(next, track', rest, at, from, to, limit, cfg, maxAge);
        CreditFallsWithTime(row, track, now, at, to, limit, cfg);
      }
    }
  }

  lemma {:induction false} NothingAfter(
      row: Option<Bucket>, events: seq<Event>, from: Micros, to: Micros, cfg: Config, maxAge: Micros)
    requires cfg.Valid() && forall i :: 0 <= i < |events| ==> to < events[i].Time()
    ensures Admitted(row, events, from, to, cfg, maxAge) == 0
    decreases |events|
  {
    if events != [] { NothingAfter(Apply(row, events[0], cfg, maxAge).0, events[1..], from, to, cfg, maxAge); }
  }

  /** Right after a take, whatever had piled up before it is capped. */
  lemma TakeCapsCredit(
      row: Option<Bucket>, track: Track, r: Request, from: Micros, to: Micros, limit: Extra, cfg: Config)
    requires WholeMillis(cfg) && cfg.burst >= 1 && r.Valid(limit) && from <= r.now <= to
    requires OnTrack(row, track, r.now, limit, cfg)
    ensures var (next, answer) := SqliteTake(row, r, cfg);
            (if answer.Allowed? then 1 else 0)
            + Credit(next, NextTrack(row, track, Take(r), cfg), r.now, to, limit, cfg)
            <= Bound(from, to, limit, cfg)
  {
    var track' := NextTrack(row, track, Take(r), cfg);
    EventStaysOnTrack(row, track, Take(r), limit, cfg, 0);
    MulSum(track'.refills, 1, cfg.rate);
    DivAddMultiple(to - from + Slack(limit), track'.refills + 1, cfg.rate);
    DivMonotone(to - FloorMilli(track'.created) + 3 * MILLI + limit,
                to - from + Slack(limit) + (track'.refills + 1) * cfg.rate, cfg.rate);
  }

  lemma {:induction false} WindowBounded(
      row: Option<Bucket>, track: Track, events: seq<Event>, from: Micros, to: Micros,
      limit: Extra, cfg: Config, maxAge: Micros)
    requires WholeMillis(cfg) && cfg.burst >= 1 && Retention(cfg, maxAge) && from <= to && InOrder(events, limit)
    requires events != [] ==> OnTrack(row, track, events[0].Time(), limit, cfg)
    ensures Admitted(row, events, from, to, cfg, maxAge) <= Bound(from, to, limit, cfg)
    decreases |events|
  {
    DivMonotone(0, to - from + Slack(limit), cfg.rate);
    if events != [] {
      var event, rest, at := events[0], events[1..], events[0].Time();
      var next, track' := Apply(row, event, cfg, maxAge).0, NextTrack(row, track, event, cfg);
      EventStaysOnTrack(row, track, event, limit, cfg, maxAge);
      if at > to {
        NothingAfter(row, events, from, to, cfg, maxAge);
      } else if from <= at && event.Take? {
        TakeCapsCredit(row, track, event.request, from, to, limit, cfg);
        CreditNonNegative(next, track', at, to, limit, cfg);
        AdmittedWithinCredit(next, track', rest, at, from, to, limit, cfg, maxAge);
      } else {
        WindowBounded(next, track', rest, from, to, limit, cfg, maxAge);
      }
    }
  }

  // ---------------------------------------------------------------------------
  // Necessity: rounding down makes a row old too soon
  // ---------------------------------------------------------------------------

  function Plain(at: Micros): Event { Take(Request(at, -MILLI, 0, false)) }

  function Repeat(r: Request, n: nat): (events: seq<Event>)
    ensures |events| == n && forall i :: 0 <= i < n ==> events[i] == Take(r)
  {
    seq(n, i => Take(r))
  }

  /** A row created in the last microsecond of a millisecond; its first refill, rounded down by 999
      microseconds; the rest of the burst; and a cleanup as soon as it looks old enough. */
  function Cycle(at: Micros, cfg: Config): seq<Event>
    requires cfg.burst >= 1
  {
    [Plain(at), Plain(at + cfg.rate - MILLI)] + Repeat(Plain(at + cfg.rate - MILLI).request, cfg.burst - 1)
    + [Cleanup(at + Period(cfg), false)]
  }

  function Period(cfg: Config): Micros { (cfg.burst + 1) * cfg.rate - MILLI }

  function Cycles(at: Micros, n: nat, cfg: Config): seq<Event>
    requires cfg.burst >= 1
    decreases n
  {
    if n == 0 then [] else Cycle(at, cfg) + Cycles(at + Period(cfg), n - 1, cfg)
  }

  lemma PeriodIsWhole(cfg: Config)
    requires WholeMillis(cfg) && cfg.burst >= 1
    ensures Period(cfg) % MILLI == 0 && Period(cfg) >= cfg.rate
  {
    WholeMultiple(-MILLI, cfg.burst + 1, cfg);
    MulAtLeast(cfg.burst, cfg.rate);
    MulSum(cfg.burst, 1, cfg.rate);
  }

  /** The three kinds of take in a cycle. */
  lemma CycleTakes(at: Micros, tokens: int, cfg: Config)
    requires WholeMillis(cfg) && cfg.burst >= 1 && at % MILLI == MILLI - 1
    ensures SqliteTake(None, Plain(at).request, cfg) == (Some(Bucket(cfg.burst - 1, at)), Allowed)
    ensures SqliteTake(Some(Bucket(cfg.burst - 1, at)), Plain(at + cfg.rate - MILLI).request, cfg)
         == (Some(Bucket(cfg.burst - 1, at + cfg.rate - MILLI + 1)), Allowed)
    ensures MeasuredRefill(Bucket(tokens, at + cfg.rate - MILLI + 1), Plain(at + cfg.rate - MILLI).request, cfg) == 0
  {
    DivExact(1, cfg.rate);
    DivUnique(999, cfg.rate, 0, 999);
    var q := cfg.rate / MILLI;
    DivAddMultiple(at, q, MILLI);
    assert at + 1 * cfg.rate == at + q * MILLI;
    assert RoundToMilli(at + cfg.rate, false) == at + cfg.rate - MILLI + 1;
  }

  /** Takes that measure no refill use up the tokens one by one. */
  lemma {:induction false} RepeatAdmits(
      last: Micros, r: Request, n: nat, rest: seq<Event>, from: Micros, to: Micros, cfg: Config, maxAge: Micros)
    requires cfg.Valid() && n <= cfg.burst && MeasuredRefill(Bucket(n, last), r, cfg) == 0 && from <= r.now <= to
    ensures Admitted(Some(Bucket(n, last)), Repeat(r, n) + rest, from, to, cfg, maxAge) ==
            n + Admitted(Some(Bucket(0, last)), rest, from, to, cfg, maxAge)
    decreases n
  {
    if n == 0 {
      assert Repeat(r, n) + rest == rest;
    } else {
      hide MeasuredRefill;
      TokensDoNotMeasure(last, n, r, cfg);
      assert Repeat(r, n) + rest == [Take(r)] + (Repeat(r, n - 1) + rest);
      AdmittedCons(Some(Bucket(n, last)), Take(r), Repeat(r, n - 1) + rest, from, to, cfg, maxAge);
      RepeatAdmits(last, r, n - 1, rest, from, to, cfg, maxAge);
    }
  }

  lemma TokensDoNotMeasure(last: Micros, n: nat, r: Request, cfg: Config)
    requires cfg.Valid()
    ensures MeasuredRefill(Bucket(n - 1, last), r, cfg) == MeasuredRefill(Bucket(n, last), r, cfg)
  {
  }

  /** One cycle admits a token more than the burst, and leaves no row behind. */
  lemma CycleAdmits(at: Micros, rest: seq<Event>, from: Micros, to: Micros, cfg: Config, maxAge: nat)
    requires WholeMillis(cfg) && cfg.burst >= 1 && !Retention(cfg, maxAge) && at % MILLI == MILLI - 1
    requires from <= at && at + Period(cfg) <= to
    ensures Admitted(None, Cycle(at, cfg) + rest, from, to, cfg, maxAge)
         == cfg.burst + 1 + Admitted(None, rest, from, to, cfg, maxAge)
  {
    hide SqliteTake, Admitted;
    PeriodIsWhole(cfg);
    MulSum(cfg.burst, 1, cfg.rate);
    var u, cleanup := at + cfg.rate - MILLI, Cleanup(at + Period(cfg), false);
    var created, refilled := Bucket(cfg.burst - 1, at), Bucket(cfg.burst - 1, u + 1);
    var drained := Repeat(Plain(u).request, cfg.burst - 1) + ([cleanup] + rest);
    assert Cycle(at, cfg) + rest == [Plain(at)] + ([Plain(u)] + drained);
    CycleTakes(at, cfg.burst - 1, cfg);
    AdmittedCons(None, Plain(at), [Plain(u)] + drained, from, to, cfg, maxAge);
    AdmittedCons(Some(created), Plain(u), drained, from, to, cfg, maxAge);
    RepeatAdmits(u + 1, Plain(u).request, cfg.burst - 1, [cleanup] + rest, from, to, cfg, maxAge);
    AdmittedCons(Some(Bucket(0, u + 1)), cleanup, rest, from, to, cfg, maxAge);
  }

  lemma NextCycleFits(at: Micros, n: nat, period: Micros, to: Micros)
    requires n >= 1 && period >= 0 && period % MILLI == 0 && at % MILLI == MILLI - 1 && at + n * period <= to
    ensures (at + period) % MILLI == MILLI - 1 && at + period <= to && at + period + (n - 1) * period <= to
  {
    MulAtLeast(n, period);
    MulSum(n - 1, 1, period);
    DivAddMultiple(at, period / MILLI, MILLI);
  }

  lemma {:induction false} CyclesAdmit(at: Micros, n: nat, from: Micros, to: Micros, cfg: Config, maxAge: nat)
    requires WholeMillis(cfg) && cfg.burst >= 1 && !Retention(cfg, maxAge) && at % MILLI == MILLI - 1
    requires from <= at && at + n * Period(cfg) <= to
    ensures Admitted(None, Cycles(at, n, cfg), from, to, cfg, maxAge) == n * (cfg.burst + 1)
    decreases n
  {
    if n > 0 {
      hide Admitted, Period, Cycle, Retention;
      PeriodIsWhole(cfg);
      NextCycleFits(at, n, Period(cfg), to);
      MulSum(n - 1, 1, cfg.burst + 1);
      CycleAdmits(at, Cycles(at + Period(cfg), n - 1, cfg), from, to, cfg, maxAge);
      CyclesAdmit(at + Period(cfg), n - 1, from, to, cfg, maxAge);
    }
  }

  lemma CycleInOrder(at: Micros, limit: Extra, cfg: Config)
    requires WholeMillis(cfg) && cfg.burst >= 1
    ensures InOrder(Cycle(at, cfg), limit)
    ensures forall i :: 0 <= i < |Cycle(at, cfg)| ==> at <= Cycle(at, cfg)[i].Time() <= at + Period(cfg)
  {
    PeriodIsWhole(cfg);
    MulSum(cfg.burst, 1, cfg.rate);
    MulAtLeast(cfg.burst, cfg.rate);
  }

  lemma AppendInOrder(a: seq<Event>, b: seq<Event>, between: Micros, limit: Extra)
    requires InOrder(a, limit) && InOrder(b, limit)
    requires (forall i :: 0 <= i < |a| ==> a[i].Time() <= between)
    requires forall i :: 0 <= i < |b| ==> between <= b[i].Time()
    ensures InOrder(a + b, limit)
  {
  }

  lemma {:induction false} CyclesInOrder(at: Micros, n: nat, limit: Extra, cfg: Config)
    requires WholeMillis(cfg) && cfg.burst >= 1
    ensures InOrder(Cycles(at, n, cfg), limit)
    ensures forall i :: 0 <= i < |Cycles(at, n, cfg)| ==> at <= Cycles(at, n, cfg)[i].Time()
    decreases n
  {
    if n > 0 {
      hide Period, Cycle, InOrder;
      PeriodIsWhole(cfg);
      CycleInOrder(at, limit, cfg);
      CyclesInOrder(at + Period(cfg), n - 1, limit, cfg);
      AppendInOrder(Cycle(at, cfg), Cycles(at + Period(cfg), n - 1, cfg), at + Period(cfg), limit);
    }
  }

  /** Every cycle gains a millisecond: enough of them exceed any slack. */
  lemma ManyCyclesExceed(n: nat, limit: Extra, cfg: Config)
    requires WholeMillis(cfg) && cfg.burst >= 1 && n == (cfg.burst + 2) * (cfg.rate / MILLI) + 5
    ensures n * Period(cfg) >= 0
    ensures (n * Period(cfg) + Slack(limit)) / cfg.rate + cfg.burst + 1 < n * (cfg.burst + 1)
  {
    PeriodIsWhole(cfg);
    assert n * Period(cfg) >= 0;
    var q := cfg.rate / MILLI;
    assert n * MILLI == (cfg.burst + 2) * cfg.rate + 5 * MILLI by {
      assert (cfg.burst + 2) * q * MILLI == (cfg.burst + 2) * (q * MILLI);
    }
    assert n * Period(cfg) == n * (cfg.burst + 1) * cfg.rate - n * MILLI by {
      assert n * ((cfg.burst + 1) * cfg.rate) == n * (cfg.burst + 1) * cfg.rate;
    }
    var k := n * (cfg.burst + 1) - (cfg.burst + 2);
    MulSum(n * (cfg.burst + 1), -(cfg.burst + 2), cfg.rate);
    assert n * Period(cfg) + Slack(limit) <= k * cfg.rate;
    DivMonotone(n * Period(cfg) + Slack(limit), k * cfg.rate, cfg.rate);
    DivExact(k, cfg.rate);
  }

  lemma ShortRetentionBreaksBound(limit: Extra, cfg: Config, maxAge: nat)
    requires WholeMillis(cfg) && cfg.burst >= 1 && !Retention(cfg, maxAge)
    ensures var n := (cfg.burst + 2) * (cfg.rate / MILLI) + 5;
            && n >= 0
            && InOrder(Cycles(MILLI - 1, n, cfg), limit)
            && Admitted(None, Cycles(MILLI - 1, n, cfg), MILLI - 1, MILLI - 1 + n * Period(cfg), cfg, maxAge)
               > Bound(MILLI - 1, MILLI - 1 + n * Period(cfg), limit, cfg)
  {
    assert (cfg.burst + 2) * (cfg.rate / MILLI) >= 0;
    var n: nat := (cfg.burst + 2) * (cfg.rate / MILLI) + 5;
    CyclesInOrder(MILLI - 1, n, limit, cfg);
    CyclesAdmit(MILLI - 1, n, MILLI - 1, MILLI - 1 + n * Period(cfg), cfg, maxAge);
    ManyCyclesExceed(n, limit, cfg);
  }

  ghost predicate AlwaysBounded(limit: Extra, cfg: Config, maxAge: nat)
    requires cfg.Valid()
  {
    forall events: seq<Event>, from: Micros, to: Micros | InOrder(events, limit) && from <= to ::
      Admitted(None, events, from, to, cfg, maxAge) <= Bound(from, to, limit, cfg)
  }

  /** For every interleaving of takes and cleanups in clock order, whatever the measuring errors, the
      roundings and the rows a cleanup spares, every window admits at most what is due in a window
      slightly longer, if and only if rows are kept for the time a full refill takes. */
  lemma SqliteRateBoundSurvivesCleanup(limit: Extra, cfg: Config, maxAge: nat)
    requires WholeMillis(cfg) && cfg.burst >= 1
    ensures AlwaysBounded(limit, cfg, maxAge) <==> maxAge + 1 >= cfg.burst * cfg.rate
  {
    if Retention(cfg, maxAge) {
      forall events: seq<Event>, from: Micros, to: Micros | InOrder(events, limit) && from <= to
        ensures Admitted(None, events, from, to, cfg, maxAge) <= Bound(from, to, limit, cfg)
      {
        WindowBounded(None, Track(from, 0, from), events, from, to, limit, cfg, maxAge);
      }
    } else {
      ShortRetentionBreaksBound(limit, cfg, maxAge);
      ManyCyclesExceed((cfg.burst + 2) * (cfg.rate / MILLI) + 5, limit, cfg);
    }
  }

  // ---------------------------------------------------------------------------
  // The slack is needed
  // ---------------------------------------------------------------------------

  /** The last instant at which a row created at microsecond 999 may still measure one interval only. */
  function LateInstant(limit: Extra, cfg: Config): Micros { 2 * cfg.rate + limit - 2 }

  /** The earliest instant at which the next refill of a row created at `at` may be found due. */
  function EarlyInstant(at: Micros, limit: Extra, cfg: Config): Micros { at + cfg.rate - 3 * MILLI - limit }

  /** A row refilled as late as can be, its burst with one more refill, a deletion at the first
      opportunity, the burst of the new row, and its refill as early as can be. */
  function SlackHistory(limit: Extra, cfg: Config): seq<Event>
    requires cfg.burst >= 1
  {
    var late, deleted := LateInstant(limit, cfg), (cfg.burst + 2) * cfg.rate;
    [Plain(MILLI - 1), Take(Request(late, -MILLI, 0 - limit, false)), Plain(late)]
    + Repeat(Plain(late).request, cfg.burst - 1)
    + [Cleanup(deleted, false), Plain(deleted + 1)]
    + Repeat(Request(deleted + 1, -MILLI, 0 - limit, false), cfg.burst - 1)
    + [Take(Request(EarlyInstant(deleted + 1, limit, cfg), MILLI, limit, false))]
  }

  lemma LateTakes(limit: Extra, cfg: Config)
    requires WholeMillis(cfg) && cfg.burst >= 1 && cfg.rate >= 3 * MILLI + limit
    ensures var late := LateInstant(limit, cfg);
            && SqliteTake(None, Plain(MILLI - 1).request, cfg) == (Some(Bucket(cfg.burst - 1, MILLI - 1)), Allowed)
            && SqliteTake(Some(Bucket(cfg.burst - 1, MILLI - 1)), Request(late, -MILLI, 0 - limit, false), cfg)
               == (Some(Bucket(cfg.burst - 1, cfg.rate)), Allowed)
            && SqliteTake(Some(Bucket(cfg.burst - 1, cfg.rate)), Plain(late).request, cfg)
               == (Some(Bucket(cfg.burst - 1, 2 * cfg.rate)), Allowed)
            && MeasuredRefill(Bucket(cfg.burst - 1, 2 * cfg.rate), Plain(late).request, cfg) == 0
  {
    DivUnique(2 * cfg.rate - 1, cfg.rate, 1, cfg.rate - 1);
    DivUnique(cfg.rate + limit + MILLI - 2, cfg.rate, 1, limit + MILLI - 2);
    DivUnique(limit + MILLI - 2, cfg.rate, 0, limit + MILLI - 2);
    DivAddMultiple(MILLI - 1, cfg.rate / MILLI, MILLI);
    assert RoundToMilli(MILLI - 1 + 1 * cfg.rate, false) == cfg.rate;
    WholeMultiple(0, 2, cfg);
  }

  lemma EarlyTakes(at: Micros, limit: Extra, cfg: Config)
    requires WholeMillis(cfg) && cfg.burst >= 1 && cfg.rate >= 3 * MILLI + limit && at % MILLI == 1
    ensures SqliteTake(None, Plain(at).request, cfg) == (Some(Bucket(cfg.burst - 1, at)), Allowed)
    ensures MeasuredRefill(Bucket(cfg.burst - 1, at), Request(at, -MILLI, 0 - limit, false), cfg) == 0
    ensures SqliteTake(Some(Bucket(0, at)), Request(EarlyInstant(at, limit, cfg), MILLI, limit, false), cfg).1
         == Allowed
  {
    DivUnique(MILLI - limit, cfg.rate, 0, MILLI - limit);
    DivExact(1, cfg.rate);
  }

  /** The first half of the history, up to the deletion, from its late take on. */
  lemma LateHalfAdmits(rest: seq<Event>, from: Micros, to: Micros, limit: Extra, cfg: Config, maxAge: Micros)
    requires WholeMillis(cfg) && cfg.burst >= 1 && cfg.rate >= 3 * MILLI + limit && maxAge == cfg.burst * cfg.rate - 1
    requires from == LateInstant(limit, cfg) && from <= to
    ensures var late, deleted := LateInstant(limit, cfg), (cfg.burst + 2) * cfg.rate;
            Admitted(None, [Plain(MILLI - 1)] + ([Take(Request(late, -MILLI, 0 - limit, false))] + ([Plain(late)]
              + (Repeat(Plain(late).request, cfg.burst - 1) + ([Cleanup(deleted, false)] + rest)))),
                from, to, cfg, maxAge) ==
            cfg.burst + 1 + Admitted(None, rest, from, to, cfg, maxAge)
  {
    hide SqliteTake, Admitted;
    var late, cleanup := LateInstant(limit, cfg), Cleanup((cfg.burst + 2) * cfg.rate, false);
    var drained := Repeat(Plain(late).request, cfg.burst - 1) + ([cleanup] + rest);
    var first := Take(Request(late, -MILLI, 0 - limit, false));
    LateTakes(limit, cfg);
    MulSum(cfg.burst, 2, cfg.rate);
    AdmittedCons(None, Plain(MILLI - 1), [first] + ([Plain(late)] + drained), from, to, cfg, maxAge);
    AdmittedCons(Some(Bucket(cfg.burst - 1, MILLI - 1)), first, [Plain(late)] + drained, from, to, cfg, maxAge);
    AdmittedCons(Some(Bucket(cfg.burst - 1, cfg.rate)), Plain(late), drained, from, to, cfg, maxAge);
    RepeatAdmits(2 * cfg.rate, Plain(late).request, cfg.burst - 1, [cleanup] + rest, from, to, cfg, maxAge);
    AdmittedCons(Some(Bucket(0, 2 * cfg.rate)), cleanup, rest, from, to, cfg, maxAge);
  }

  /** The second half: a burst, and the early refill. */
  lemma EarlyHalfAdmits(at: Micros, from: Micros, to: Micros, limit: Extra, cfg: Config, maxAge: Micros)
    requires WholeMillis(cfg) && cfg.burst >= 1 && cfg.rate >= 3 * MILLI + limit && at % MILLI == 1
    requires from <= at && to == EarlyInstant(at, limit, cfg)
    ensures Admitted(None, [Plain(at)] + (Repeat(Request(at, -MILLI, 0 - limit, false), cfg.burst - 1)
              + [Take(Request(to, MILLI, limit, false))]), from, to, cfg, maxAge) == cfg.burst + 1
  {
    hide SqliteTake, Admitted;
    var again, last := Request(at, -MILLI, 0 - limit, false), Take(Request(to, MILLI, limit, false));
    EarlyTakes(at, limit, cfg);
    AdmittedCons(None, Plain(at), Repeat(again, cfg.burst - 1) + [last], from, to, cfg, maxAge);
    RepeatAdmits(at, again, cfg.burst - 1, [last], from, to, cfg, maxAge);
    assert [last] == [last] + [];
    AdmittedCons(Some(Bucket(0, at)), last, [], from, to, cfg, maxAge);
    NothingLeft(SqliteTake(Some(Bucket(0, at)), last.request, cfg).0, from, to, cfg, maxAge);
  }

  lemma NothingLeft(row: Option<Bucket>, from: Micros, to: Micros, cfg: Config, maxAge: Micros)
    requires cfg.Valid()
    ensures Admitted(row, [], from, to, cfg, maxAge) == 0
  {
  }

  lemma SlackHistoryInOrder(limit: Extra, cfg: Config)
    requires WholeMillis(cfg) && cfg.burst >= 1 && cfg.rate >= 3 * MILLI + limit
    ensures InOrder(SlackHistory(limit, cfg), limit)
  {
    MulSum(cfg.burst, 2, cfg.rate);
    MulAtLeast(cfg.burst, cfg.rate);
  }

  lemma SlackWindow(limit: Extra, cfg: Config)
    requires WholeMillis(cfg) && cfg.burst >= 1 && cfg.rate >= 3 * MILLI + limit
    ensures var from, to := LateInstant(limit, cfg), EarlyInstant((cfg.burst + 2) * cfg.rate + 1, limit, cfg);
            && from <= (cfg.burst + 2) * cfg.rate + 1 <= to
            && (to - from + Slack(limit)) / cfg.rate == cfg.burst + 1
            && (to - from + Slack(limit) - 4) / cfg.rate == cfg.burst
    ensures (cfg.burst + 2) * cfg.rate % MILLI == 0
  {
    var from, to := LateInstant(limit, cfg), EarlyInstant((cfg.burst + 2) * cfg.rate + 1, limit, cfg);
    WholeMultiple(0, cfg.burst + 2, cfg);
    MulAtLeast(cfg.burst, cfg.rate);
    MulSum(cfg.burst, 2, cfg.rate);
    MulSum(cfg.burst, 1, cfg.rate);
    DivUnique(to - from + Slack(limit), cfg.rate, cfg.burst + 1, 3);
    DivUnique(to - from + Slack(limit) - 4, cfg.rate, cfg.burst, cfg.rate - 1);
  }

  lemma SlackHistoryInHalves(limit: Extra, cfg: Config)
    requires cfg.burst >= 1
    ensures var late, deleted := LateInstant(limit, cfg), (cfg.burst + 2) * cfg.rate;
            var again := Request(deleted + 1, -MILLI, 0 - limit, false);
            var last := Take(Request(EarlyInstant(deleted + 1, limit, cfg), MILLI, limit, false));
            SlackHistory(limit, cfg) ==
            [Plain(MILLI - 1)] + ([Take(Request(late, -MILLI, 0 - limit, false))] + ([Plain(late)]
              + (Repeat(Plain(late).request, cfg.burst - 1) + ([Cleanup(deleted, false)]
                + ([Plain(deleted + 1)] + (Repeat(again, cfg.burst - 1) + [last]))))))
  {
  }

  /** The bound is attained, with the shortest retention it allows, and not just because it is rounded
      down: with 4 microseconds less slack the same window would exceed it. */
  lemma SlackIsNeeded(limit: Extra, cfg: Config, maxAge: nat)
    requires WholeMillis(cfg) && cfg.burst >= 1 && cfg.rate >= 3 * MILLI + limit && maxAge == cfg.burst * cfg.rate - 1
    ensures var from, to := LateInstant(limit, cfg), EarlyInstant((cfg.burst + 2) * cfg.rate + 1, limit, cfg);
            && InOrder(SlackHistory(limit, cfg), limit) && from <= to
            && Admitted(None, SlackHistory(limit, cfg), from, to, cfg, maxAge) == Bound(from, to, limit, cfg)
            && Admitted(None, SlackHistory(limit, cfg), from, to, cfg, maxAge)
               > cfg.burst + 1 + (to - from + Slack(limit) - 4) / cfg.rate
  {
    hide Admitted, SlackHistory, LateInstant, EarlyInstant, InOrder, WholeMillis;
    var late, deleted := LateInstant(limit, cfg), (cfg.burst + 2) * cfg.rate;
    var to := EarlyInstant(deleted + 1, limit, cfg);
    var again, last := Request(deleted + 1, -MILLI, 0 - limit, false), Take(Request(to, MILLI, limit, false));
    SlackHistoryInOrder(limit, cfg);
    SlackHistoryInHalves(limit, cfg);
    SlackWindow(limit, cfg);
    LateHalfAdmits([Plain(deleted + 1)] + (Repeat(again, cfg.burst - 1) + [last]), late, to, limit, cfg, maxAge);
    EarlyHalfAdmits(deleted + 1, late, to, limit, cfg, maxAge);
  }
}
