/** Refused takes and retries on SQLite.  The upsert refills up to a few milliseconds early, and may
    find out only by as much later that the next interval has passed: a caller who waits exactly as
    long as advertised can be denied again. */
module SqliteDeniedTakes {
  import opened Arith
  import opened Wrappers
  import opened TokenBucket
  import opened SqliteBucket
  import DeniedTakes

  /** The row before the last of a sequence of requests. */
  function RowAfter(requests: seq<Request>, cfg: Config): Option<Bucket>
    requires cfg.Valid()
  {
    SqliteRun(None, requests, cfg).0
  }

  ghost predicate OrderedAfter(now: Micros, requests: seq<Request>, limit: Extra) {
    Ordered(requests, limit) && (requests != [] ==> now <= requests[0].now)
  }

  lemma {:induction false} RunStaysNear(b: Bucket, now: Micros, limit: Extra, requests: seq<Request>, cfg: Config)
    requires WholeMillis(cfg) && Near(b, now, limit) && OrderedAfter(now, requests, limit)
    requires Max(0, b.tokens) <= Capacity(cfg)
    ensures var row := SqliteRun(Some(b), requests, cfg).0;
            && row.Some? && Near(row.value, if requests == [] then now else requests[|requests| - 1].now, limit)
            && Max(0, row.value.tokens) <= Capacity(cfg)
    decreases |requests|
  {
    if requests != [] {
      var r := requests[0];
      TakeStaysNear(b, now, limit, r, cfg);
      TokensStayWithin(b, r, cfg);
      RunStaysNear(SqliteTake(Some(b), r, cfg).0.value, r.now, limit, requests[1..], cfg);
    }
  }

  /** What a history leaves behind. */
  lemma HistoryStaysNear(requests: seq<Request>, limit: Extra, cfg: Config)
    requires WholeMillis(cfg) && Ordered(requests, limit)
    ensures var row := RowAfter(requests, cfg);
            && (row.None? <==> requests == [])
            && (row.Some? ==>
                  Near(row.value, requests[|requests| - 1].now, limit) && Max(0, row.value.tokens) <= Capacity(cfg))
  {
    if requests != [] {
      RunStaysNear(SqliteTake(None, requests[0], cfg).0.value, requests[0].now, limit, requests[1..], cfg);
    }
  }

  lemma {:induction false} RunAppend(row: Option<Bucket>, a: seq<Request>, b: seq<Request>, cfg: Config)
    requires cfg.Valid()
    ensures SqliteRun(row, a + b, cfg).0 == SqliteRun(SqliteRun(row, a, cfg).0, b, cfg).0
    decreases |a|
  {
    if a == [] {
      assert a + b == b;
    } else {
      assert (a + b)[1..] == a[1..] + b;
      RunAppend(SqliteTake(row, a[0], cfg).0, a[1..], b, cfg);
    }
  }

  // ---------------------------------------------------------------------------
  // Refusals
  // ---------------------------------------------------------------------------

  /** A refused take stutters, unless it found a token and lost it to a time measured negative. */
  lemma RefusalStutters(b: Bucket, r: Request, cfg: Config)
    requires cfg.Valid() && cfg.burst >= 1 && Max(0, b.tokens) <= Capacity(cfg)
    requires MeasuredRefill(b, r, cfg) >= 0 || b.tokens <= 0
    requires SqliteTake(Some(b), r, cfg).1 == Denied
    ensures DeniedTakes.Similar(Some(b), SqliteTake(Some(b), r, cfg).0) && b.tokens <= 0
  {
  }

  ghost predicate Refused(before: seq<Request>, r: Request, limit: Extra, cfg: Config)
    requires cfg.Valid()
  {
    Ordered(before + [r], limit) && SqliteTake(RowAfter(before, cfg), r, cfg).1 == Denied
  }

  /** No later take can tell whether a refused one happened. */
  ghost predicate RefusalsStutter(cfg: Config)
    requires cfg.Valid()
  {
    forall before, r | Refused(before, r, MILLI, cfg) ::
      DeniedTakes.Similar(RowAfter(before, cfg), SqliteTake(RowAfter(before, cfg), r, cfg).0)
  }

  lemma PrefixOrdered(before: seq<Request>, after: seq<Request>, limit: Extra)
    requires Ordered(before + after, limit)
    ensures Ordered(before, limit) && Ordered(after, limit)
    ensures before != [] && after != [] ==> before[|before| - 1].now <= after[0].now
  {
    var all := before + after;
    assert forall i :: 0 <= i < |before| ==> all[i] == before[i];
    assert forall i :: 0 <= i < |after| ==> all[|before| + i] == after[i];
  }

  lemma RefusedStutters(before: seq<Request>, r: Request, cfg: Config)
    requires WholeMillis(cfg) && cfg.burst >= 1 && (cfg.rate >= 4 * MILLI || cfg.burst == 1)
    requires Refused(before, r, MILLI, cfg)
    ensures DeniedTakes.Similar(RowAfter(before, cfg), SqliteTake(RowAfter(before, cfg), r, cfg).0)
  {
    PrefixOrdered(before, [r], MILLI);
    HistoryStaysNear(before, MILLI, cfg);
    var row := RowAfter(before, cfg);
    if cfg.rate >= 4 * MILLI {
      NoNegativeRefill(row.value, before[|before| - 1].now, MILLI, r, cfg);
    } else {
      SpentAtOnce(before, cfg);
    }
    RefusalStutters(row.value, r, cfg);
  }

  /** A bucket that holds one token never keeps any after a take. */
  lemma {:induction false} SpentAtOnce(requests: seq<Request>, cfg: Config)
    requires cfg.Valid() && cfg.burst == 1 && requests != []
    ensures RowAfter(requests, cfg).Some? && RowAfter(requests, cfg).value.tokens <= 0
  {
    var last := |requests| - 1;
    RunAppend(None, requests[..last], requests[last..], cfg);
    assert requests[..last] + requests[last..] == requests;
    assert requests[last..][0] == requests[last] && requests[last..][1..] == [];
  }

  lemma SimilarTakesAgree(b: Bucket, b': Bucket, r: Request, cfg: Config)
    requires cfg.Valid() && DeniedTakes.Similar(Some(b), Some(b'))
    ensures SqliteTake(Some(b), r, cfg).1 == SqliteTake(Some(b'), r, cfg).1
    ensures DeniedTakes.Similar(SqliteTake(Some(b), r, cfg).0, SqliteTake(Some(b'), r, cfg).0)
  {
  }

  lemma {:induction false} DroppingFromRow(
      b: Bucket, b': Bucket, now: Micros, requests: seq<Request>, marks: seq<bool>, limit: Extra, cfg: Config)
    requires WholeMillis(cfg) && cfg.burst >= 1 && cfg.rate >= 3 * MILLI + limit
    requires Near(b, now, limit) && OrderedAfter(now, requests, limit) && Max(0, b.tokens) <= Capacity(cfg)
    requires DeniedTakes.Similar(Some(b), Some(b')) && |marks| == |requests|
    requires forall i :: 0 <= i < |requests| && !marks[i] ==> !SqliteAnswers(Some(b), requests, cfg)[i].Allowed?
    ensures SqliteAnswers(Some(b'), DeniedTakes.Kept(requests, marks), cfg)
         == DeniedTakes.Kept(SqliteAnswers(Some(b), requests, cfg), marks)
    decreases |requests|
  {
    if requests != [] {
      hide SqliteTake, MeasuredRefill, Near;
      var r, rest := requests[0], requests[1..];
      var (row, answer) := SqliteTake(Some(b), r, cfg);
      var answers, kept := SqliteAnswers(row, rest, cfg), DeniedTakes.Kept(rest, marks[1..]);
      assert SqliteAnswers(Some(b), requests, cfg) == [answer] + answers && ([answer] + answers)[1..] == answers;
      assert forall i :: 0 <= i < |answers| ==> answers[i] == SqliteAnswers(Some(b), requests, cfg)[i + 1];
      NoNegativeRefill(b, now, limit, r, cfg);
      TakeStaysNear(b, now, limit, r, cfg);
      TokensStayWithin(b, r, cfg);
      SimilarTakesAgree(b, b', r, cfg);
      if marks[0] {
        DroppingFromRow(row.value, SqliteTake(Some(b'), r, cfg).0.value, r.now, rest, marks[1..], limit, cfg);
        assert DeniedTakes.Kept(requests, marks) == [r] + kept && ([r] + kept)[1..] == kept;
      } else {
        AnsweredOrDenied(b, r, cfg);
        RefusalStutters(b, r, cfg);
        DroppingFromRow(row.value, b', r.now, rest, marks[1..], limit, cfg);
        assert DeniedTakes.Kept(requests, marks) == kept;
      }
    }
  }

  lemma AnsweredOrDenied(b: Bucket, r: Request, cfg: Config)
    requires cfg.Valid()
    ensures SqliteTake(Some(b), r, cfg).1 != SqlError
  {
  }

  /** Dropping any set of refused takes from a history leaves exactly the answers of the others. */
  lemma DroppingRefusalsChangesNothing(requests: seq<Request>, marks: seq<bool>, limit: Extra, cfg: Config)
    requires WholeMillis(cfg) && cfg.burst >= 1 && cfg.rate >= 3 * MILLI + limit
    requires Ordered(requests, limit) && |marks| == |requests|
    requires forall i :: 0 <= i < |requests| && !marks[i] ==> !SqliteAnswers(None, requests, cfg)[i].Allowed?
    ensures SqliteAnswers(None, DeniedTakes.Kept(requests, marks), cfg)
         == DeniedTakes.Kept(SqliteAnswers(None, requests, cfg), marks)
  {
    if requests != [] {
      var r, rest := requests[0], requests[1..];
      var (row, answer) := SqliteTake(None, r, cfg);
      var answers, kept := SqliteAnswers(row, rest, cfg), DeniedTakes.Kept(rest, marks[1..]);
      assert SqliteAnswers(None, requests, cfg) == [answer] + answers && ([answer] + answers)[1..] == answers;
      assert forall i :: 0 <= i < |answers| ==> answers[i] == SqliteAnswers(None, requests, cfg)[i + 1];
      DroppingFromRow(row.value, row.value, r.now, rest, marks[1..], limit, cfg);
      assert DeniedTakes.Kept(requests, marks) == [r] + kept && ([r] + kept)[1..] == kept;
    }
  }

  // ---------------------------------------------------------------------------
  // A drained bucket, refilled early
  // ---------------------------------------------------------------------------

  /** A take of a new bucket at the instant of its creation, measured as short as possible. */
  function Drain(limit: Extra): Request { Request(1, -MILLI, 0 - limit, false) }

  function Drains(n: nat, limit: Extra): (requests: seq<Request>)
    ensures |requests| == n && forall i :: 0 <= i < n ==> requests[i] == Drain(limit)
  {
    seq(n, i => Drain(limit))
  }

  lemma {:induction false} DrainsEmpty(n: nat, limit: Extra, cfg: Config)
    requires cfg.Valid() && n < cfg.burst && cfg.rate > MILLI - limit
    ensures SqliteRun(Some(Bucket(n, 1)), Drains(n, limit), cfg).0 == Some(Bucket(0, 1))
    decreases n
  {
    if n > 0 {
      DivUnique(MILLI - limit, cfg.rate, 0, MILLI - limit);
      assert SqliteTake(Some(Bucket(n, 1)), Drain(limit), cfg).0 == Some(Bucket(n - 1, 1));
      assert Drains(n, limit)[0] == Drain(limit) && Drains(n, limit)[1..] == Drains(n - 1, limit);
      DrainsEmpty(n - 1, limit, cfg);
    }
  }

  /** A new bucket, its whole burst, and the next tokens as early as they can come. */
  function RefilledHistory(limit: Extra, cfg: Config): seq<Request>
    requires cfg.Valid() && cfg.burst >= 1
  {
    [Request(1, 0, 0, false)] + Drains(cfg.burst - 1, limit) + [EarlyRefill(limit, cfg)]
  }

  lemma RefilledRow(limit: Extra, cfg: Config)
    requires WholeMillis(cfg) && cfg.burst >= 1 && cfg.rate > MILLI - limit
    ensures var n, r := EarlyIntervals(limit, cfg), EarlyRefill(limit, cfg);
            && Ordered(RefilledHistory(limit, cfg), limit)
            && RowAfter(RefilledHistory(limit, cfg), cfg)
               == Some(Bucket(Min(n, cfg.burst) - 1, r.now + 4 * MILLI - 1 + limit))
  {
    var first, drains, r := Request(1, 0, 0, false), Drains(cfg.burst - 1, limit), EarlyRefill(limit, cfg);
    EarlyRefillMoves(0, limit, cfg);
    RunAppend(None, [first] + drains, [r], cfg);
    assert ([first] + drains)[1..] == drains;
    DrainsEmpty(cfg.burst - 1, limit, cfg);
    assert [r][1..] == [];
  }

  /** The take that loses tokens: denied although the bucket holds some. */
  lemma TokensAreLost(cfg: Config)
    requires WholeMillis(cfg) && cfg.burst >= 2 && cfg.rate < 4 * MILLI
    ensures !RefusalsStutter(cfg)
  {
    var history, early := RefilledHistory(MILLI, cfg), EarlyRefill(MILLI, cfg);
    var r := Request(early.now, -MILLI, 0, false);
    RefilledRow(MILLI, cfg);
    EarlyRefillMoves(0, MILLI, cfg);
    var b := RowAfter(history, cfg).value;
    DivAtLeast(4 * MILLI - 1, cfg.rate, 1);
    assert MeasuredRefill(b, r, cfg) == -(EarlyIntervals(MILLI, cfg) - 1);
    assert b.tokens >= 1 && SqliteTake(Some(b), r, cfg) == (Some(Bucket(-1, b.lastRefill)), Denied);
    assert history[|history| - 1] == early;
    assert Refused(history, r, MILLI, cfg);
  }

  /** On SQLite a refused take leaves no trace, in any history in clock order, if and only if the interval
      is at least 4 ms, or there is never a token to lose. */
  lemma RefusalsStutterFromFourMillis(cfg: Config)
    requires WholeMillis(cfg) && cfg.burst >= 1
    ensures RefusalsStutter(cfg) <==> cfg.rate >= 4 * MILLI || cfg.burst == 1
  {
    if cfg.rate >= 4 * MILLI || cfg.burst == 1 {
      forall before, r | Refused(before, r, MILLI, cfg)
        ensures DeniedTakes.Similar(RowAfter(before, cfg), SqliteTake(RowAfter(before, cfg), r, cfg).0)
      {
        RefusedStutters(before, r, cfg);
      }
    } else {
      TokensAreLost(cfg);
    }
  }

  // ---------------------------------------------------------------------------
  // Retrying
  // ---------------------------------------------------------------------------

  /** A caller is denied, nobody is served in between, and the caller comes back `wait` later or more. */
  ghost predicate Retried(
      before: seq<Request>, denied: Request, between: seq<Request>, retry: Request,
      wait: Micros, limit: Extra, cfg: Config)
    requires cfg.Valid()
  {
    && Ordered(before + ([denied] + between + [retry]), limit)
    && retry.now >= denied.now + wait
    && SqliteTake(RowAfter(before, cfg), denied, cfg).1 == Denied
    && DeniedTakes.AllRefused(SqliteAnswers(RowAfter(before, cfg), [denied] + between, cfg))
  }

  function RetryAnswer(
      before: seq<Request>, denied: Request, between: seq<Request>, retry: Request, cfg: Config): Answer
    requires cfg.Valid()
  {
    SqliteTake(SqliteRun(RowAfter(before, cfg), [denied] + between, cfg).0, retry, cfg).1
  }

  /** In every history, waiting that long is enough. */
  ghost predicate WaitSuffices(wait: Micros, limit: Extra, cfg: Config)
    requires cfg.Valid()
  {
    forall before, denied, between, retry | Retried(before, denied, between, retry, wait, limit, cfg) ::
      RetryAnswer(before, denied, between, retry, cfg) == Allowed
  }

  /** A run of refused takes moves neither the tokens nor the instant of the row. */
  lemma {:induction false} RefusedRunStutters(b: Bucket, now: Micros, limit: Extra, requests: seq<Request>, cfg: Config)
    requires WholeMillis(cfg) && cfg.burst >= 1 && cfg.rate >= 3 * MILLI + limit
    requires Near(b, now, limit) && OrderedAfter(now, requests, limit) && Max(0, b.tokens) <= Capacity(cfg)
    requires DeniedTakes.AllRefused(SqliteAnswers(Some(b), requests, cfg))
    ensures DeniedTakes.Similar(Some(b), SqliteRun(Some(b), requests, cfg).0)
    decreases |requests|
  {
    if requests != [] {
      var r, rest := requests[0], requests[1..];
      var (row, answer) := SqliteTake(Some(b), r, cfg);
      var answers := SqliteAnswers(row, rest, cfg);
      assert SqliteAnswers(Some(b), requests, cfg)[0] == answer;
      assert forall i :: 0 <= i < |answers| ==> answers[i] == SqliteAnswers(Some(b), requests, cfg)[i + 1];
      NoNegativeRefill(b, now, limit, r, cfg);
      RefusalStutters(b, r, cfg);
      TakeStaysNear(b, now, limit, r, cfg);
      TokensStayWithin(b, r, cfg);
      RefusedRunStutters(row.value, r.now, limit, rest, cfg);
    }
  }

  /** A retry that late is measured as at least one interval after the last refill. */
  lemma LateRetryIsAllowed(b: Bucket, denied: Micros, r: Request, limit: Extra, cfg: Config)
    requires cfg.Valid() && cfg.burst >= 1 && Near(b, denied, limit) && r.Valid(limit)
    requires r.now >= denied + cfg.rate + 3 * MILLI - 1 + limit
    ensures SqliteTake(Some(b), r, cfg).1 == Allowed
  {
    DivAtLeast(r.now - b.lastRefill + MeasuredError(b, r) + TOLERANCE, cfg.rate, 1);
  }

  lemma LongWaitSuffices(
      before: seq<Request>, denied: Request, between: seq<Request>, retry: Request,
      wait: Micros, limit: Extra, cfg: Config)
    requires WholeMillis(cfg) && cfg.burst >= 1 && cfg.rate >= 3 * MILLI + limit
    requires wait >= cfg.rate + 3 * MILLI - 1 + limit && Retried(before, denied, between, retry, wait, limit, cfg)
    ensures RetryAnswer(before, denied, between, retry, cfg) == Allowed
  {
    var row, refused := RowAfter(before, cfg), [denied] + between;
    PrefixOrdered(before, refused + [retry], limit);
    PrefixOrdered(refused, [retry], limit);
    HistoryStaysNear(before, limit, cfg);
    RefusedRunStutters(row.value, before[|before| - 1].now, limit, refused, cfg);
    LateRetryIsAllowed(SqliteRun(row, refused, cfg).0.value, denied.now, retry, limit, cfg);
  }

  lemma NothingDue(b: Bucket, r: Request, cfg: Config)
    requires cfg.Valid() && cfg.burst >= 1 && b.tokens <= 0
    requires -cfg.rate < r.now - b.lastRefill + MeasuredError(b, r) + TOLERANCE < cfg.rate
    ensures SqliteTake(Some(b), r, cfg) == (Some(Bucket(-1, b.lastRefill)), Denied)
  {
    var x := r.now - b.lastRefill + MeasuredError(b, r) + TOLERANCE;
    if x < 0 { DivUnique(-x, cfg.rate, 0, -x); } else { DivUnique(x, cfg.rate, 0, x); }
  }

  /** Two requests after a history that leaves an empty bucket, both too soon. */
  lemma DeniedTwice(before: seq<Request>, denied: Request, retry: Request, limit: Extra, cfg: Config)
    requires cfg.Valid() && cfg.burst >= 1 && Ordered(before + [denied, retry], limit)
    requires RowAfter(before, cfg).Some? && RowAfter(before, cfg).value.tokens <= 0
    requires var b := RowAfter(before, cfg).value;
             && -cfg.rate < denied.now - b.lastRefill + MeasuredError(b, denied) + TOLERANCE < cfg.rate
             && -cfg.rate < retry.now - b.lastRefill + MeasuredError(b, retry) + TOLERANCE < cfg.rate
    ensures Retried(before, denied, [], retry, retry.now - denied.now, limit, cfg)
    ensures RetryAnswer(before, denied, [], retry, cfg) == Denied
  {
    hide SqliteTake;
    var b := RowAfter(before, cfg).value;
    NothingDue(b, denied, cfg);
    NothingDue(Bucket(-1, b.lastRefill), retry, cfg);
    assert [denied] + [] == [denied] && [denied][1..] == [] && [denied] + [] + [retry] == [denied, retry];
    assert SqliteRun(Some(b), [denied], cfg).0 == Some(Bucket(-1, b.lastRefill));
    assert SqliteAnswers(Some(b), [denied], cfg) == [Denied];
  }

  /** A shorter wait fails: after the early refill has been spent, the row is ahead of the clock. */
  lemma ShortWaitFails(wait: nat, limit: Extra, cfg: Config)
    requires WholeMillis(cfg) && cfg.burst >= 1 && cfg.rate >= 3 * MILLI + limit
    requires wait < cfg.rate + 3 * MILLI - 1 + limit
    ensures !WaitSuffices(wait, limit, cfg)
  {
    var before, early := RefilledHistory(limit, cfg), EarlyRefill(limit, cfg);
    var denied, retry := Request(early.now, 0, 0, false), Request(early.now + wait, -MILLI, 0, false);
    RefilledRow(limit, cfg);
    EarlyRefillMoves(0, limit, cfg);
    DivUnique(3 * MILLI - 1 + limit, cfg.rate, 0, 3 * MILLI - 1 + limit);
    assert before[|before| - 1] == early;
    assert Ordered(before + [denied, retry], limit);
    DeniedTwice(before, denied, retry, limit, cfg);
  }

  /** How long a denied caller has to wait on SQLite, over all histories in clock order in which nobody
      is served in between: one interval, and what the errors of two takes amount to. */
  lemma WaitSufficesExactlyBeyondErrors(wait: nat, limit: Extra, cfg: Config)
    requires WholeMillis(cfg) && cfg.burst >= 1 && cfg.rate >= 3 * MILLI + limit
    ensures WaitSuffices(wait, limit, cfg) <==> wait >= cfg.rate + 3 * MILLI - 1 + limit
  {
    if wait >= cfg.rate + 3 * MILLI - 1 + limit {
      forall before, denied, between, retry | Retried(before, denied, between, retry, wait, limit, cfg)
        ensures RetryAnswer(before, denied, between, retry, cfg) == Allowed
      {
        LongWaitSuffices(before, denied, between, retry, wait, limit, cfg);
      }
    } else {
      ShortWaitFails(wait, limit, cfg);
    }
  }

  /** The advertised delay, one interval, is never enough in every history; and the Retry-After header
      only for intervals so short that its minimum of a second covers the errors as well. */
  lemma HeaderSufficesOnlyForShortIntervals(limit: Extra, cfg: Config)
    requires WholeMillis(cfg) && cfg.burst >= 1 && cfg.rate >= 3 * MILLI + limit
    ensures !WaitSuffices(cfg.rate, limit, cfg)
    ensures WaitSuffices(DeniedTakes.RetryAfterSeconds(cfg) * DeniedTakes.MICROS_PER_SECOND, limit, cfg)
            <==> cfg.rate + 3 * MILLI - 1 + limit <= DeniedTakes.MICROS_PER_SECOND
  {
    WaitSufficesExactlyBeyondErrors(cfg.rate, limit, cfg);
    WaitSufficesExactlyBeyondErrors(DeniedTakes.RetryAfterSeconds(cfg) * DeniedTakes.MICROS_PER_SECOND, limit, cfg);
  }
}
