/** The token bucket as the SQLite upsert computes it.  SQLite works on text dates with
    millisecond resolution, so the statement adds a 2 ms tolerance to the elapsed time and
    writes `last_refill` back rounded to milliseconds.  The errors of its floating-point
    date functions are parameters of every take: a millisecond, and up to one more while the
    stored instant is one that has to be rounded as well. */
module SqliteBucket {
  import opened Arith
  import opened Wrappers
  import opened TokenBucket

  const MILLI: int := 1000

  /** The `+ 0.002` seconds in the statement. */
  const TOLERANCE: int := 2 * MILLI

  /** What rounding an instant that is not a whole millisecond may add to the error. */
  type Extra = e: int | 0 <= e <= MILLI

  /** A take: when, by how much SQLite mismeasures the elapsed time, by how much more if `last_refill`
      is not a whole millisecond, and which way it rounds. */
  datatype Request = Request(now: Micros, error: int, extra: int, roundUp: bool) {
    predicate Valid(limit: Extra) { -MILLI <= error <= MILLI && -extra <= limit && extra <= limit }
  }

  predicate WholeMillis(cfg: Config) { cfg.Valid() && cfg.rate % MILLI == 0 }

  /** `CAST(... AS INTEGER)` truncates towards zero. */
  function TruncDiv(x: int, d: int): int
    requires d > 0
  {
    if x >= 0 then x / d else -(-x / d)
  }

  function MeasuredError(
      b: Bucket, r: Request): int { if b.lastRefill % MILLI == 0 then r.error else r.error + r.extra }

  function MeasuredRefill(b: Bucket, r: Request, cfg: Config): int
    requires cfg.Valid()
  {
    TruncDiv(r.now - b.lastRefill + MeasuredError(b, r) + TOLERANCE, cfg.rate)
  }

  function FloorMilli(x: Micros): Micros { x / MILLI * MILLI }

  /** `strftime('%f')`: exact on whole milliseconds, otherwise either neighbour. */
  function RoundToMilli(x: Micros, up: bool): Micros {
    if x % MILLI == 0 then x else FloorMilli(x) + (if up then MILLI else 0)
  }

  function SqliteTake(row: Option<Bucket>, r: Request, cfg: Config): (Option<Bucket>, Answer)
    requires cfg.Valid()
  {
    match row
    case None => (Some(Bucket(InitialTokens(cfg), r.now)), AnswerFor(InitialTokens(cfg)))
    case Some(b) =>
      var refill := MeasuredRefill(b, r, cfg);
      var available := Max(0, b.tokens) + refill;
      var tokens := if available >= 1 then Min(available, cfg.burst) - 1 else -1;
      var lastRefill := if refill >= 1 then RoundToMilli(b.lastRefill + refill * cfg.rate, r.roundUp) else b.lastRefill;
      (Some(Bucket(tokens, lastRefill)), AnswerFor(tokens))
  }

  /** The intervals a take moves `last_refill` forward by. */
  function RefillsOf(row: Option<Bucket>, r: Request, cfg: Config): nat
    requires cfg.Valid()
  {
    if row.None? then 0 else Max(0, MeasuredRefill(row.value, r, cfg))
  }

  predicate AllValid(requests: seq<Request>, limit: Extra) {
    forall i :: 0 <= i < |requests| ==> requests[i].Valid(limit)
  }

  predicate Ordered(requests: seq<Request>, limit: Extra) {
    && AllValid(requests, limit)
    && forall i, j :: 0 <= i < j < |requests| ==> requests[i].now <= requests[j].now
  }

  /** The row, and the intervals refilled, after a sequence of takes. */
  function SqliteRun(row: Option<Bucket>, requests: seq<Request>, cfg: Config): (Option<Bucket>, nat)
    requires cfg.Valid()
    decreases |requests|
  {
    if requests == [] then (row, 0)
    else
      var (last, refills) := SqliteRun(SqliteTake(row, requests[0], cfg).0, requests[1..], cfg);
      (last, RefillsOf(row, requests[0], cfg) + refills)
  }

  /** The stored instant is on the grid of whole intervals from creation, or at most rounded once to
      the millisecond. */
  predicate OnGrid(b: Bucket, created: Micros, refills: nat, cfg: Config) {
    var offset := b.lastRefill - FloorMilli(created) - refills * cfg.rate;
    && 0 <= offset <= MILLI
    && (created % MILLI == 0 ==> offset == 0)
    && (if refills == 0 then b.lastRefill == created else b.lastRefill % MILLI == 0)
  }

  /** The row follows the exact bucket: it is on its grid, and its refills are those due, at most 4 ms
      early.  The same in whole milliseconds: counted from the millisecond of creation, refills are
      at most 3 ms and the extra error early, and the extra error late. */
  predicate Tracks(b: Bucket, created: Micros, refills: nat, now: Micros, limit: Extra, cfg: Config) {
    && created <= now
    && OnGrid(b, created, refills, cfg)
    && refills * cfg.rate <= now - created + 4 * MILLI
    && refills * cfg.rate <= now - FloorMilli(created) + 3 * MILLI + limit
    && now - created < refills * cfg.rate + cfg.rate
    && now - FloorMilli(created) < refills * cfg.rate + cfg.rate + limit
    && Max(0, b.tokens) <= Capacity(cfg)
  }

  lemma TruncDivBounds(x: int, d: int)
    requires d > 0
    ensures TruncDiv(x, d) >= 1 ==> TruncDiv(x, d) * d <= x < TruncDiv(x, d) * d + d
    ensures TruncDiv(x, d) <= 0 ==> x < d
  {
    if x >= 0 {
      DivBounds(x, d);
      DivAtLeast(x, d, 1);
    } else {
      DivAtLeast(-x, d, 0);
    }
  }

  lemma RoundingIsExactOnGrid(last: Micros, refill: int, up: bool, cfg: Config)
    requires WholeMillis(cfg) && last % MILLI == 0
    ensures RoundToMilli(last + refill * cfg.rate, up) == last + refill * cfg.rate
    ensures (last + refill * cfg.rate) % MILLI == 0
  {
    var q := cfg.rate / MILLI;
    assert refill * cfg.rate == (refill * q) * MILLI;
    DivExact(last / MILLI + refill * q, MILLI);
  }

  lemma RoundingFromCreation(created: Micros, refill: int, up: bool, cfg: Config)
    requires WholeMillis(cfg)
    ensures var off := RoundToMilli(created + refill * cfg.rate, up) - FloorMilli(created) - refill * cfg.rate;
            0 <= off <= MILLI && (created % MILLI == 0 ==> off == 0)
    ensures RoundToMilli(created + refill * cfg.rate, up) % MILLI == 0
  {
    var q := cfg.rate / MILLI;
    assert refill * cfg.rate == (refill * q) * MILLI;
    DivAddMultiple(created, refill * q, MILLI);
  }

  /** Where a refill of whole intervals leaves `last_refill`. */
  lemma RefillKeepsOffset(b: Bucket, created: Micros, refills: nat, refill: nat, up: bool, cfg: Config)
    requires WholeMillis(cfg) && OnGrid(b, created, refills, cfg) && refill >= 1
    ensures var last := RoundToMilli(b.lastRefill + refill * cfg.rate, up);
            && 0 <= last - FloorMilli(created) - (refills + refill) * cfg.rate <= MILLI
            && (created % MILLI == 0 ==> last == FloorMilli(created) + (refills + refill) * cfg.rate)
            && last % MILLI == 0
  {
    hide RoundToMilli, FloorMilli, Capacity;
    MulSum(refills, refill, cfg.rate);
    if b.lastRefill % MILLI == 0 {
      RoundingIsExactOnGrid(b.lastRefill, refill, up, cfg);
    } else {
      RoundingFromCreation(created, refill, up, cfg);
    }
  }

  /** What a measured refill says about the exact elapsed time. */
  lemma RefillIsDue(b: Bucket, created: Micros, refills: nat, now: Micros, limit: Extra, r: Request, cfg: Config)
    requires WholeMillis(cfg) && Tracks(b, created, refills, now, limit, cfg) && r.Valid(limit) && now <= r.now
    ensures var total := refills + RefillsOf(Some(b), r, cfg);
            && total * cfg.rate <= r.now - created + 4 * MILLI
            && total * cfg.rate <= r.now - FloorMilli(created) + 3 * MILLI + limit
            && r.now - created < total * cfg.rate + cfg.rate
            && r.now - FloorMilli(created) < total * cfg.rate + cfg.rate + limit
  {
    TruncDivBounds(r.now - b.lastRefill + MeasuredError(b, r) + TOLERANCE, cfg.rate);
    MulSum(refills, RefillsOf(Some(b), r, cfg), cfg.rate);
  }

  /** One take keeps the row on track. */
  lemma TakeKeepsTrack(b: Bucket, created: Micros, refills: nat, now: Micros, limit: Extra, r: Request, cfg: Config)
    requires WholeMillis(cfg) && Tracks(b, created, refills, now, limit, cfg) && r.Valid(limit) && now <= r.now
    ensures var row := SqliteTake(Some(b), r, cfg).0;
            row.Some? && Tracks(row.value, created, refills + RefillsOf(Some(b), r, cfg), r.now, limit, cfg)
  {
    hide TruncDiv, RoundToMilli;
    RefillIsDue(b, created, refills, now, limit, r, cfg);
    var refill := RefillsOf(Some(b), r, cfg);
    if refill >= 1 { RefillKeepsOffset(b, created, refills, refill, r.roundUp, cfg); }
  }

  lemma {:induction false} RunKeepsTrack(
      b: Bucket, created: Micros, refills: nat, now: Micros, limit: Extra, requests: seq<Request>, cfg: Config)
    requires WholeMillis(cfg) && Tracks(b, created, refills, now, limit, cfg) && Ordered(requests, limit)
    requires requests != [] ==> now <= requests[0].now
    ensures var (row, more) := SqliteRun(Some(b), requests, cfg);
            row.Some? && Tracks(row.value, created, refills + more,
                                if requests == [] then now else requests[|requests| - 1].now, limit, cfg)
    decreases |requests|
  {
    if requests != [] {
      TakeKeepsTrack(b, created, refills, now, limit, requests[0], cfg);
      RunKeepsTrack(SqliteTake(Some(b), requests[0], cfg).0.value, created,
                    refills + RefillsOf(Some(b), requests[0], cfg), requests[0].now, limit, requests[1..], cfg);
    }
  }

  lemma TrackedMeansDue(b: Bucket, created: Micros, refills: nat, now: Micros, limit: Extra, cfg: Config)
    requires cfg.Valid() && Tracks(b, created, refills, now, limit, cfg)
    ensures (now - created) / cfg.rate <= refills <= (now - created + 4 * MILLI) / cfg.rate
  {
    MulSum(refills, 1, cfg.rate);
    DivAtLeast(now - created, cfg.rate, refills + 1);
    DivAtLeast(now - created + 4 * MILLI, cfg.rate, refills);
  }

  /** For every history in clock order, errors do not accumulate: the intervals refilled are at
      least those an exact bucket has refilled by now, and at most those it will have refilled
      4 ms from now; and the stored instant is within a millisecond of the exact grid. */
  lemma RefillsDoNotDrift(requests: seq<Request>, cfg: Config)
    requires WholeMillis(cfg) && requests != [] && Ordered(requests, MILLI)
    ensures var (row, refills) := SqliteRun(None, requests, cfg);
            var created, now := requests[0].now, requests[|requests| - 1].now;
            && (now - created) / cfg.rate <= refills <= (now - created + 4 * MILLI) / cfg.rate
            && row.Some? && -MILLI < row.value.lastRefill - created - refills * cfg.rate < MILLI
  {
    var created, now := requests[0].now, requests[|requests| - 1].now;
    var b := SqliteTake(None, requests[0], cfg).0.value;
    RunKeepsTrack(b, created, 0, created, MILLI, requests[1..], cfg);
    TrackedMeansDue(SqliteRun(None, requests, cfg).0.value, created, SqliteRun(None, requests, cfg).1, now, MILLI, cfg);
  }

  /** `last_refill` is rounded at most once: from a whole-millisecond row on, it moves by exact
      multiples of the interval. */
  lemma RoundedAtMostOnce(b: Bucket, r: Request, cfg: Config)
    requires WholeMillis(cfg) && b.lastRefill % MILLI == 0
    ensures SqliteTake(Some(b), r, cfg).0 == Some(Bucket(SqliteTake(Some(b), r, cfg).0.value.tokens,
                                                         b.lastRefill + RefillsOf(Some(b), r, cfg) * cfg.rate))
  {
    RoundingIsExactOnGrid(b.lastRefill, RefillsOf(Some(b), r, cfg), r.roundUp, cfg);
  }

  // ---------------------------------------------------------------------------
  // The answers
  // ---------------------------------------------------------------------------

  function SqliteAnswers(row: Option<Bucket>, requests: seq<Request>, cfg: Config): (answers: seq<Answer>)
    requires cfg.Valid()
    ensures |answers| == |requests|
    decreases |requests|
  {
    if requests == [] then []
    else
      var (next, answer) := SqliteTake(row, requests[0], cfg);
      [answer] + SqliteAnswers(next, requests[1..], cfg)
  }

  /** How many intervals each take refills, and how many it believes have passed. */
  function RefillSequence(row: Option<Bucket>, requests: seq<Request>, cfg: Config): seq<int>
    requires cfg.Valid()
    decreases |requests|
  {
    if requests == [] then []
    else [RefillsOf(row, requests[0], cfg)] + RefillSequence(SqliteTake(row, requests[0], cfg).0, requests[1..], cfg)
  }

  function MeasuredSequence(row: Option<Bucket>, requests: seq<Request>, cfg: Config): seq<int>
    requires cfg.Valid()
    decreases |requests|
  {
    if requests == [] then []
    else
      var measured := if row.None? then 0 else MeasuredRefill(row.value, requests[0], cfg);
      [measured] + MeasuredSequence(SqliteTake(row, requests[0], cfg).0, requests[1..], cfg)
  }

  /** One answer: a token is there after what was measured has dropped in, or it is not. */
  lemma TakeServes(b: Bucket, r: Request, cfg: Config)
    requires cfg.Valid() && Max(0, b.tokens) <= Capacity(cfg)
    ensures var (row, answer) := SqliteTake(Some(b), r, cfg);
            var n := MeasuredRefill(b, r, cfg);
            var there := if n >= 0 then Drop(Max(0, b.tokens), n, cfg) else Max(0, Max(0, b.tokens) + n);
            && (answer.Allowed? <==> there > 0)
            && row.Some? && Max(0, row.value.tokens) == (if there > 0 then there - 1 else 0)
  {
    hide TruncDiv, RoundToMilli;
    if MeasuredRefill(b, r, cfg) >= 0 { DropClosedForm(Max(0, b.tokens), MeasuredRefill(b, r, cfg), cfg); }
  }

  lemma {:induction false} RunServes(b: Bucket, requests: seq<Request>, cfg: Config)
    requires cfg.Valid() && Max(0, b.tokens) <= Capacity(cfg)
    ensures Agree(SqliteAnswers(Some(b), requests, cfg),
                  Served(Max(0, b.tokens), MeasuredSequence(Some(b), requests, cfg), cfg))
    decreases |requests|
  {
    if requests != [] {
      hide SqliteTake, Agree, MeasuredRefill, Drop;
      var r, rest := requests[0], requests[1..];
      var (row, answer) := SqliteTake(Some(b), r, cfg);
      TakeServes(b, r, cfg);
      TokensStayWithin(b, r, cfg);
      RunServes(row.value, rest, cfg);
      var drops := MeasuredSequence(row, rest, cfg);
      assert ([MeasuredRefill(b, r, cfg)] + drops)[1..] == drops;
      AgreeCons(answer, SqliteAnswers(row, rest, cfg), answer.Allowed?, Served(Max(0, row.value.tokens), drops, cfg));
    } else {
      assert Agree([], []);
    }
  }

  lemma TokensStayWithin(b: Bucket, r: Request, cfg: Config)
    requires cfg.Valid()
    ensures var row := SqliteTake(Some(b), r, cfg).0; row.Some? && Max(0, row.value.tokens) <= Capacity(cfg)
  {
  }

  /** For every history, in whatever order and however mismeasured, a take is allowed exactly if a bucket
      that starts full, and receives token by token what was measured, holds one. */
  lemma AnswersFollowMeasurements(requests: seq<Request>, cfg: Config)
    requires cfg.Valid()
    ensures Agree(SqliteAnswers(None, requests, cfg), Served(Capacity(cfg), MeasuredSequence(None, requests, cfg), cfg))
  {
    if requests != [] {
      var (row, answer) := SqliteTake(None, requests[0], cfg);
      var drops := MeasuredSequence(row, requests[1..], cfg);
      RunServes(row.value, requests[1..], cfg);
      assert ([0] + drops)[1..] == drops;
      AgreeCons(answer, SqliteAnswers(row, requests[1..], cfg), cfg.burst >= 1,
                Served(Max(0, row.value.tokens), drops, cfg));
    }
  }

  /** How far the stored instant can be ahead of the clock: refilled 3 ms and the extra error early, and
      rounded up.  An instant with microseconds is the time of a take. */
  predicate Near(b: Bucket, now: Micros, limit: Extra) {
    b.lastRefill <= now + (if b.lastRefill % MILLI == 0 then 4 * MILLI - 1 + limit else 0)
  }

  lemma RoundingAddsLittle(x: Micros, up: bool)
    ensures RoundToMilli(x, up) % MILLI == 0 && RoundToMilli(x, up) <= x + MILLI - 1
  {
  }

  lemma TakeStaysNear(b: Bucket, now: Micros, limit: Extra, r: Request, cfg: Config)
    requires WholeMillis(cfg) && Near(b, now, limit) && r.Valid(limit) && now <= r.now
    ensures SqliteTake(Some(b), r, cfg).0.Some? && Near(SqliteTake(Some(b), r, cfg).0.value, r.now, limit)
  {
    hide TruncDiv, RoundToMilli;
    var refill := MeasuredRefill(b, r, cfg);
    TruncDivBounds(r.now - b.lastRefill + MeasuredError(b, r) + TOLERANCE, cfg.rate);
    if refill >= 1 {
      RoundingAddsLittle(b.lastRefill + refill * cfg.rate, r.roundUp);
    }
  }

  /** An interval longer than that, less the tolerance, is never mismeasured as a negative refill. */
  lemma NoNegativeRefill(b: Bucket, now: Micros, limit: Extra, r: Request, cfg: Config)
    requires cfg.rate >= 3 * MILLI + limit && Near(b, now, limit) && r.Valid(limit) && now <= r.now
    ensures MeasuredRefill(b, r, cfg) >= 0
  {
    var x := r.now - b.lastRefill + MeasuredError(b, r) + TOLERANCE;
    assert x > -cfg.rate;
    if x < 0 { DivUnique(-x, cfg.rate, 0, -x); } else { DivAtLeast(x, cfg.rate, 0); }
  }

  lemma {:induction false} NothingLeaks(b: Bucket, now: Micros, limit: Extra, requests: seq<Request>, cfg: Config)
    requires WholeMillis(cfg) && cfg.rate >= 3 * MILLI + limit && Near(b, now, limit)
    requires Ordered(requests, limit) && (requests != [] ==> now <= requests[0].now)
    ensures MeasuredSequence(Some(b), requests, cfg) == RefillSequence(Some(b), requests, cfg)
    decreases |requests|
  {
    if requests != [] {
      NoNegativeRefill(b, now, limit, requests[0], cfg);
      TakeStaysNear(b, now, limit, requests[0], cfg);
      NothingLeaks(SqliteTake(Some(b), requests[0], cfg).0.value, requests[0].now, limit, requests[1..], cfg);
    }
  }

  /** No take ever takes tokens out of the bucket because it measured a negative time. */
  ghost predicate NeverLeaks(limit: Extra, cfg: Config)
    requires cfg.Valid()
  {
    forall requests: seq<Request> | Ordered(requests, limit) ::
      MeasuredSequence(None, requests, cfg) == RefillSequence(None, requests, cfg)
  }

  /** The number of intervals that must pass for a refill to come as early as possible. */
  function EarlyIntervals(limit: Extra, cfg: Config): int
    requires cfg.Valid()
  {
    (3 * MILLI - 1 + limit) / cfg.rate + 1
  }

  /** Creation in the first microsecond of a millisecond, a refill as early as possible, and rounded up. */
  function EarlyRefill(limit: Extra, cfg: Config): Request
    requires cfg.Valid()
  {
    Request(1 + EarlyIntervals(limit, cfg) * cfg.rate - 3 * MILLI - limit, MILLI, limit, true)
  }

  lemma EarlyRefillMoves(tokens: int, limit: Extra, cfg: Config)
    requires WholeMillis(cfg)
    ensures var n, r := EarlyIntervals(limit, cfg), EarlyRefill(limit, cfg);
            && n >= 1 && 1 <= r.now && r.Valid(limit)
            && MeasuredRefill(Bucket(tokens, 1), r, cfg) == n
            && SqliteTake(Some(Bucket(tokens, 1)), r, cfg).0
               == Some(Bucket(Min(Max(0, tokens) + n, cfg.burst) - 1, r.now + 4 * MILLI - 1 + limit))
  {
    var n, x := EarlyIntervals(limit, cfg), 3 * MILLI - 1 + limit;
    DivBounds(x, cfg.rate);
    DivAtLeast(x, cfg.rate, 0);
    assert n * cfg.rate == x / cfg.rate * cfg.rate + cfg.rate;
    DivExact(n, cfg.rate);
    assert n * cfg.rate == n * (cfg.rate / MILLI) * MILLI by {
      assert n * (cfg.rate / MILLI * MILLI) == n * (cfg.rate / MILLI) * MILLI;
    }
    DivAddMultiple(1, n * (cfg.rate / MILLI), MILLI);
    assert RoundToMilli(1 + n * cfg.rate, true) == n * cfg.rate + MILLI;
  }

  /** An early refill rounded up, then a take measured short. */
  function LeakingHistory(limit: Extra, cfg: Config): seq<Request>
    requires cfg.Valid()
  {
    [Request(1, 0, 0, false), EarlyRefill(limit, cfg), Request(EarlyRefill(limit, cfg).now, -MILLI, 0, false)]
  }

  lemma ShortIntervalsLeak(limit: Extra, cfg: Config)
    requires WholeMillis(cfg) && cfg.rate < 3 * MILLI + limit
    ensures Ordered(LeakingHistory(limit, cfg), limit)
    ensures MeasuredSequence(None, LeakingHistory(limit, cfg), cfg)
         != RefillSequence(None, LeakingHistory(limit, cfg), cfg)
  {
    var history := LeakingHistory(limit, cfg);
    var created := Some(Bucket(InitialTokens(cfg), 1));
    var n := EarlyIntervals(limit, cfg);
    EarlyRefillMoves(InitialTokens(cfg), limit, cfg);
    var early := SqliteTake(created, history[1], cfg).0;
    DivAtLeast(3 * MILLI - 1 + limit, cfg.rate, 1);
    assert MeasuredRefill(early.value, history[2], cfg) < 0;
    assert [history[2]][1..] == [] && history[1..][1..] == [history[2]] && history[1..][0] == history[1];
    var leak, none := MeasuredSequence(early, [history[2]], cfg), RefillSequence(early, [history[2]], cfg);
    assert leak[0] < 0 <= none[0];
    assert MeasuredSequence(created, history[1..], cfg) == [n] + leak;
    assert RefillSequence(created, history[1..], cfg) == [n] + none;
    assert MeasuredSequence(None, history, cfg)[2] == leak[0] && RefillSequence(None, history, cfg)[2] == none[0];
  }

  /** Time never seems to run backwards if and only if the interval is longer than what the errors of
      two takes amount to beyond the tolerance. */
  lemma NothingLeaksAboveErrors(limit: Extra, cfg: Config)
    requires WholeMillis(cfg)
    ensures NeverLeaks(limit, cfg) <==> cfg.rate >= 3 * MILLI + limit
  {
    if cfg.rate >= 3 * MILLI + limit {
      forall requests: seq<Request> | Ordered(requests, limit)
        ensures MeasuredSequence(None, requests, cfg) == RefillSequence(None, requests, cfg)
      {
        if requests != [] {
          NothingLeaks(SqliteTake(None, requests[0], cfg).0.value, requests[0].now, limit, requests[1..], cfg);
        }
      }
    } else {
      ShortIntervalsLeak(limit, cfg);
    }
  }

  /** Then, for every history in clock order, a take is allowed exactly if a bucket that starts full, and
      receives the (drift-free) refills token by token, holds one. */
  lemma AnswersFollowRefills(requests: seq<Request>, limit: Extra, cfg: Config)
    requires WholeMillis(cfg) && cfg.rate >= 3 * MILLI + limit && Ordered(requests, limit)
    ensures Agree(SqliteAnswers(None, requests, cfg), Served(Capacity(cfg), RefillSequence(None, requests, cfg), cfg))
  {
    AnswersFollowMeasurements(requests, cfg);
    NothingLeaksAboveErrors(limit, cfg);
  }

  // ---------------------------------------------------------------------------
  // Requests out of order
  // ---------------------------------------------------------------------------

  /** One take, at any time up to `latest`: its refills were due by then, at most 4 ms early, and it
      hands out no more than was there or has been refilled. */
  lemma TakeNeverOverspends(b: Bucket, created: Micros, refills: nat, latest: Micros, r: Request, cfg: Config)
    requires WholeMillis(cfg) && OnGrid(b, created, refills, cfg) && r.Valid(MILLI) && r.now <= latest
    requires refills * cfg.rate <= latest - created + 4 * MILLI
    ensures var (row, answer) := SqliteTake(Some(b), r, cfg);
            var more := RefillsOf(Some(b), r, cfg);
            && row.Some? && OnGrid(row.value, created, refills + more, cfg)
            && (refills + more) * cfg.rate <= latest - created + 4 * MILLI
            && (if answer.Allowed? then 1 else 0) + Max(0, row.value.tokens) <= Max(0, b.tokens) + more
  {
    hide TruncDiv, RoundToMilli;
    TruncDivBounds(r.now - b.lastRefill + MeasuredError(b, r) + TOLERANCE, cfg.rate);
    var more := RefillsOf(Some(b), r, cfg);
    MulSum(refills, more, cfg.rate);
    if more >= 1 { RefillKeepsOffset(b, created, refills, more, r.roundUp, cfg); }
  }

  lemma {:induction false} RunNeverOverspends(
      b: Bucket, created: Micros, refills: nat, latest: Micros, requests: seq<Request>, cfg: Config)
    requires WholeMillis(cfg) && OnGrid(b, created, refills, cfg) && AllValid(requests, MILLI)
    requires refills * cfg.rate <= latest - created + 4 * MILLI
    requires forall i :: 0 <= i < |requests| ==> requests[i].now <= latest
    ensures var more := SqliteRun(Some(b), requests, cfg).1;
            && (refills + more) * cfg.rate <= latest - created + 4 * MILLI
            && CountAllowed(SqliteAnswers(Some(b), requests, cfg)) <= Max(0, b.tokens) + more
    decreases |requests|
  {
    if requests != [] {
      hide SqliteTake, OnGrid, RefillsOf;
      var r, rest := requests[0], requests[1..];
      var (row, answer) := SqliteTake(Some(b), r, cfg);
      TakeNeverOverspends(b, created, refills, latest, r, cfg);
      RunNeverOverspends(row.value, created, refills + RefillsOf(Some(b), r, cfg), latest, rest, cfg);
      CountCons(answer, SqliteAnswers(row, rest, cfg));
    }
  }

  /** Requests may reach the database out of clock order.  In any order, a SQLite bucket hands out at
      most its capacity plus one token per interval up to 4 ms past the latest timestamp. */
  lemma SqliteNeverOverspendsInAnyOrder(requests: seq<Request>, cfg: Config, latest: Micros)
    requires WholeMillis(cfg) && requests != [] && AllValid(requests, MILLI)
    requires forall i :: 0 <= i < |requests| ==> requests[i].now <= latest
    ensures CountAllowed(SqliteAnswers(None, requests, cfg))
         <= Capacity(cfg) + (latest - requests[0].now + 4 * MILLI) / cfg.rate
  {
    var created, rest := requests[0].now, requests[1..];
    var (row, answer) := SqliteTake(None, requests[0], cfg);
    RunNeverOverspends(row.value, created, 0, latest, rest, cfg);
    CountCons(answer, SqliteAnswers(row, rest, cfg));
    DivAtLeast(latest - created + 4 * MILLI, cfg.rate, SqliteRun(row, rest, cfg).1);
  }
}
