/** Turning a caller away on PostgreSQL costs nobody anything: denied takes can be added to or removed
    from a history without changing any other decision, and waiting out the advertised delay is
    enough, until overflow.  SqliteDeniedTakes has the SQLite upsert, where a little more is needed. */
module DeniedTakes {
  import opened Arith
  import opened Wrappers
  import opened TokenBucket

  const MICROS_PER_SECOND: int := 1_000_000

  /** Rows that no later take can tell apart: only whether the count is negative differs. */
  predicate Similar(r: Option<Bucket>, r': Option<Bucket>) {
    match (r, r')
    case (None, None) => true
    case (Some(b), Some(b')) => b.lastRefill == b'.lastRefill && Max(0, b.tokens) == Max(0, b'.tokens)
    case _ => false
  }

  predicate NotAhead(row: Option<Bucket>, now: Micros) { row.Some? ==> row.value.lastRefill <= now }

  lemma SimilarTakesAgree(r: Option<Bucket>, r': Option<Bucket>, now: Micros, cfg: Config)
    requires cfg.Valid() && Similar(r, r')
    ensures Take(r, now, cfg).1 == Take(r', now, cfg).1
    ensures Similar(Take(r, now, cfg).0, Take(r', now, cfg).0)
  {
  }

  /** A take that is not granted leaves a similar row behind. */
  lemma RefusalStutters(row: Option<Bucket>, now: Micros, cfg: Config)
    requires cfg.Valid() && cfg.burst >= 1 && NotAhead(row, now)
    ensures NotAhead(Take(row, now, cfg).0, now)
    ensures !Take(row, now, cfg).1.Allowed? ==> Similar(row, Take(row, now, cfg).0)
  {
    if row.Some? {
      DivMonotone(0, now - row.value.lastRefill, cfg.rate);
      DivBounds(now - row.value.lastRefill, cfg.rate);
    }
  }

  /** The entries of `s` whose mark is set. */
  function Kept<T>(s: seq<T>, marks: seq<bool>): seq<T>
    requires |s| == |marks|
  {
    if s == [] then []
    else (if marks[0] then [s[0]] else []) + Kept(s[1..], marks[1..])
  }

  /** An entry is kept exactly if marked, and the order stays. */
  lemma KeptOne<T>(x: T, mark: bool)
    ensures Kept([x], [mark]) == if mark then [x] else []
  {
    assert [x][1..] == [] && [mark][1..] == [];
  }

  lemma KeptCons<T>(x: T, mark: bool, rest: seq<T>, marks: seq<bool>)
    requires |rest| == |marks|
    ensures Kept([x] + rest, [mark] + marks) == (if mark then [x] else []) + Kept(rest, marks)
  {
    assert ([x] + rest)[1..] == rest && ([mark] + marks)[1..] == marks;
  }

  lemma {:induction false} KeptInOrder<T>(s: seq<T>, t: seq<T>, marks: seq<bool>, more: seq<bool>)
    requires |s| == |marks| && |t| == |more|
    ensures Kept(s + t, marks + more) == Kept(s, marks) + Kept(t, more)
    decreases |s|
  {
    if s == [] {
      assert s + t == t && marks + more == more;
    } else {
      hide Kept;
      KeptInOrder(s[1..], t, marks[1..], more);
      KeptCons(s[0], marks[0], s[1..], marks[1..]);
      KeptCons(s[0], marks[0], s[1..] + t, marks[1..] + more);
      assert s == [s[0]] + s[1..] && marks == [marks[0]] + marks[1..];
      assert s + t == [s[0]] + (s[1..] + t) && marks + more == [marks[0]] + (marks[1..] + more);
    }
  }

  lemma {:induction false} KeptBounds(times: seq<Micros>, marks: seq<bool>, low: Micros)
    requires |times| == |marks| && forall i :: 0 <= i < |times| ==> low <= times[i]
    ensures forall i :: 0 <= i < |Kept(times, marks)| ==> low <= Kept(times, marks)[i]
    decreases |times|
  {
    if times != [] { KeptBounds(times[1..], marks[1..], low); }
  }

  /** Dropping any set of refused takes leaves exactly the answers of the others.
      Read from right to left, inserting refused takes changes no decision either. */
  lemma {:induction false} DroppingRefusalsChangesNothing(
      row: Option<Bucket>, row': Option<Bucket>, times: seq<Micros>, marks: seq<bool>, cfg: Config)
    requires cfg.Valid() && cfg.burst >= 1 && Similar(row, row')
    requires Nondecreasing(times) && |marks| == |times| && (times != [] ==> NotAhead(row, times[0]))
    requires forall i :: 0 <= i < |times| && !marks[i] ==> !Run(row, times, cfg).1[i].Allowed?
    ensures Run(row', Kept(times, marks), cfg).1 == Kept(Run(row, times, cfg).1, marks)
    ensures Similar(Run(row, times, cfg).0, Run(row', Kept(times, marks), cfg).0)
    decreases |times|
  {
    if times != [] {
      var (next, answer) := Take(row, times[0], cfg);
      var (last, answers) := Run(next, times[1..], cfg);
      assert Run(row, times, cfg).1 == [answer] + answers;
      assert forall i :: 0 <= i < |answers| ==> answers[i] == Run(row, times, cfg).1[i + 1];
      assert ([answer] + answers)[1..] == answers;
      RefusalStutters(row, times[0], cfg);
      SimilarTakesAgree(row, row', times[0], cfg);
      if marks[0] {
        var next' := Take(row', times[0], cfg).0;
        DroppingRefusalsChangesNothing(next, next', times[1..], marks[1..], cfg);
        var rest := Kept(times[1..], marks[1..]);
        assert Kept(times, marks) == [times[0]] + rest;
        assert ([times[0]] + rest)[1..] == rest;
      } else {
        DroppingRefusalsChangesNothing(next, row', times[1..], marks[1..], cfg);
        assert Kept(times, marks) == Kept(times[1..], marks[1..]);
      }
    }
  }

  // ---------------------------------------------------------------------------
  // Retrying
  // ---------------------------------------------------------------------------

  predicate AllRefused(answers: seq<Answer>) { forall i :: 0 <= i < |answers| ==> !answers[i].Allowed? }

  lemma {:induction false} RefusedRunStutters(row: Option<Bucket>, times: seq<Micros>, cfg: Config)
    requires cfg.Valid() && cfg.burst >= 1 && Nondecreasing(times) && (times != [] ==> NotAhead(row, times[0]))
    requires AllRefused(Run(row, times, cfg).1)
    ensures Similar(row, Run(row, times, cfg).0)
    decreases |times|
  {
    if times != [] {
      var (next, answer) := Take(row, times[0], cfg);
      var answers := Run(next, times[1..], cfg).1;
      assert Run(row, times, cfg).1 == [answer] + answers;
      assert answer == Run(row, times, cfg).1[0];
      assert forall i :: 0 <= i < |answers| ==> answers[i] == Run(row, times, cfg).1[i + 1];
      RefusalStutters(row, times[0], cfg);
      RefusedRunStutters(next, times[1..], cfg);
    }
  }

  /** A denial means no token and less than one interval of accrual. */
  lemma DenialMeansEmpty(b: Bucket, now: Micros, cfg: Config)
    requires cfg.Valid() && cfg.burst >= 1 && b.lastRefill <= now && Take(Some(b), now, cfg).1 == Denied
    ensures b.tokens <= 0 && now - b.lastRefill < cfg.rate
  {
    DivAtLeast(now - b.lastRefill, cfg.rate, 0);
    DivAtLeast(now - b.lastRefill, cfg.rate, 1);
  }

  lemma EmptyBucketAnswers(b: Bucket, now: Micros, cfg: Config)
    requires cfg.Valid() && cfg.burst >= 1 && b.lastRefill <= now && b.tokens <= 0
    ensures Take(Some(b), now, cfg).1 ==
            if now - b.lastRefill < cfg.rate then Denied
            else if now - b.lastRefill < (I32_MAX + 1) * cfg.rate then Allowed
            else SqlError
  {
    DivAtLeast(now - b.lastRefill, cfg.rate, 0);
    DivAtLeast(now - b.lastRefill, cfg.rate, 1);
    DivAtLeast(now - b.lastRefill, cfg.rate, I32_MAX + 1);
  }

  /** After a denial, and as long as nobody else was served, a retry is answered by its distance
      from the last refill alone: denied within one interval, then allowed, until
      the idle time overflows the statement's 4-byte integers. */
  lemma RetryDecidedByDistance(b: Bucket, denied: Micros, between: seq<Micros>, retry: Micros, cfg: Config)
    requires cfg.Valid() && cfg.burst >= 1 && b.lastRefill <= denied
    requires Nondecreasing([denied] + between + [retry])
    requires Take(Some(b), denied, cfg).1 == Denied && AllRefused(Run(Some(b), [denied] + between, cfg).1)
    ensures denied - b.lastRefill < cfg.rate
    ensures Take(Run(Some(b), [denied] + between, cfg).0, retry, cfg).1 ==
            if retry - b.lastRefill < cfg.rate then Denied
            else if retry - b.lastRefill < (I32_MAX + 1) * cfg.rate then Allowed
            else SqlError
  {
    var times := [denied] + between + [retry];
    assert ([denied] + between)[0] == denied;
    assert denied == times[0] && retry == times[|times| - 1];
    assert forall i :: 0 <= i <= |between| ==> ([denied] + between)[i] == times[i];
    RefusedRunStutters(Some(b), [denied] + between, cfg);
    SimilarTakesAgree(Some(b), Run(Some(b), [denied] + between, cfg).0, retry, cfg);
    DenialMeansEmpty(b, denied, cfg);
    EmptyBucketAnswers(b, retry, cfg);
  }

  /** `retry_after.as_secs().max(1)`, the value of the Retry-After header. */
  function RetryAfterSeconds(cfg: Config): int { Max(1, cfg.rate / MICROS_PER_SECOND) }

  /** The header is the interval with fractions of a second cut off, but at least one second. */
  lemma HeaderCutsFractions(cfg: Config)
    requires cfg.Valid()
    ensures RetryAfterSeconds(cfg) >= 1
    ensures cfg.rate >= 1_000_000 ==>
      RetryAfterSeconds(cfg) * 1_000_000 <= cfg.rate < (RetryAfterSeconds(cfg) + 1) * 1_000_000
    ensures cfg.rate < 1_000_000 ==> RetryAfterSeconds(cfg) == 1
  {
    DivAtLeast(cfg.rate, MICROS_PER_SECOND, 1);
  }

  ghost predicate HeaderSuffices(cfg: Config)
    requires cfg.Valid()
  {
    forall b: Bucket, denied: Micros | b.lastRefill <= denied && Take(Some(b), denied, cfg).1 == Denied ::
      Take(Take(Some(b), denied, cfg).0, denied + RetryAfterSeconds(cfg) * MICROS_PER_SECOND, cfg).1 == Allowed
  }

  /** The header is whole seconds, the bucket is not: waiting as told is enough exactly when the
      interval is a whole number of seconds, or shorter than the one-second minimum. */
  lemma HeaderSufficesExactlyForWholeSeconds(cfg: Config)
    requires cfg.Valid() && cfg.burst >= 1
    ensures HeaderSuffices(cfg) <==> (cfg.rate <= MICROS_PER_SECOND || cfg.rate % MICROS_PER_SECOND == 0)
  {
    var wait := RetryAfterSeconds(cfg) * MICROS_PER_SECOND;
    forall b: Bucket, denied: Micros | b.lastRefill <= denied && Take(Some(b), denied, cfg).1 == Denied
      ensures Take(Take(Some(b), denied, cfg).0, denied + wait, cfg).1 ==
              if denied + wait - b.lastRefill < cfg.rate then Denied else Allowed
    {
      HeaderRetry(b, denied, wait, cfg);
    }
    if wait < cfg.rate {
      var empty := Bucket(0, 0);
      DivUnique(0, cfg.rate, 0, 0);
      assert Take(Some(empty), 0, cfg).1 == Denied;
      assert Take(Take(Some(empty), 0, cfg).0, 0 + wait, cfg).1 == Denied;
    }
  }

  /** `n` takes at one instant. */
  function AtOnce(at: Micros, n: nat): (times: seq<Micros>)
    ensures |times| == n && forall i :: 0 <= i < n ==> times[i] == at
  {
    seq(n, i => at)
  }

  /** Takes at the instant of the last refill use up the tokens; one more is denied. */
  lemma {:induction false} TakesAtOnceEmpty(b: Bucket, at: Micros, cfg: Config)
    requires cfg.Valid() && 0 <= b.tokens < cfg.burst && b.lastRefill == at
    ensures var (row, answers) := Run(Some(b), AtOnce(at, b.tokens + 1), cfg);
            row == Some(Bucket(-1, at)) && answers[b.tokens] == Denied
    decreases b.tokens
  {
    DivUnique(0, cfg.rate, 0, 0);
    assert AtOnce(at, b.tokens + 1)[1..] == AtOnce(at, b.tokens);
    if b.tokens > 0 { TakesAtOnceEmpty(Bucket(b.tokens - 1, at), at, cfg); }
  }

  /** Of any number of takes at one instant a new caller gets the burst, and no more. */
  lemma BurstAtOnce(at: Micros, n: nat, cfg: Config)
    requires cfg.Valid() && cfg.burst >= 1
    ensures CountAllowed(Run(None, AtOnce(at, n), cfg).1) == Min(n, cfg.burst)
  {
    if n > 0 {
      assert AtOnce(at, n)[1..] == AtOnce(at, n - 1);
      TakesAtOnce(Bucket(cfg.burst - 1, at), n - 1, cfg);
      CountCons(Allowed, Run(Some(Bucket(cfg.burst - 1, at)), AtOnce(at, n - 1), cfg).1);
    }
  }

  lemma {:induction false} TakesAtOnce(b: Bucket, n: nat, cfg: Config)
    requires cfg.Valid() && cfg.burst >= 1 && b.tokens < cfg.burst
    ensures CountAllowed(Run(Some(b), AtOnce(b.lastRefill, n), cfg).1) == Min(n, Max(0, b.tokens))
    decreases n
  {
    if n > 0 {
      DivUnique(0, cfg.rate, 0, 0);
      var (row, answer) := Take(Some(b), b.lastRefill, cfg);
      assert row == Some(Bucket(if b.tokens >= 1 then b.tokens - 1 else -1, b.lastRefill));
      assert AtOnce(b.lastRefill, n)[1..] == AtOnce(b.lastRefill, n - 1);
      TakesAtOnce(row.value, n - 1, cfg);
      CountCons(answer, Run(row, AtOnce(b.lastRefill, n - 1), cfg).1);
    }
  }

  /** The header falls short in a real history: a new caller uses up its burst, is denied, waits as
      long as it was told, and is denied again. */
  lemma HeaderFallsShortAfterBurst(cfg: Config)
    requires cfg.Valid() && cfg.burst >= 1
    requires !(cfg.rate <= MICROS_PER_SECOND || cfg.rate % MICROS_PER_SECOND == 0)
    ensures var (row, answers) := Run(None, AtOnce(0, cfg.burst + 1), cfg);
            && answers[cfg.burst] == Denied
            && Take(row, RetryAfterSeconds(cfg) * MICROS_PER_SECOND, cfg).1 == Denied
  {
    var wait := RetryAfterSeconds(cfg) * MICROS_PER_SECOND;
    assert wait < cfg.rate;
    assert AtOnce(0, cfg.burst + 1)[1..] == AtOnce(0, cfg.burst);
    TakesAtOnceEmpty(Bucket(cfg.burst - 1, 0), 0, cfg);
    EmptyBucketAnswers(Bucket(-1, 0), wait, cfg);
  }

  lemma HeaderRetry(b: Bucket, denied: Micros, wait: Micros, cfg: Config)
    requires cfg.Valid() && cfg.burst >= 1 && b.lastRefill <= denied && Take(Some(b), denied, cfg).1 == Denied
    requires wait == RetryAfterSeconds(cfg) * MICROS_PER_SECOND
    ensures Take(Take(Some(b), denied, cfg).0, denied + wait, cfg).1 ==
            if denied + wait - b.lastRefill < cfg.rate then Denied else Allowed
  {
    RefusalStutters(Some(b), denied, cfg);
    SimilarTakesAgree(Some(b), Take(Some(b), denied, cfg).0, denied + wait, cfg);
    DenialMeansEmpty(b, denied, cfg);
    EmptyBucketAnswers(b, denied + wait, cfg);
    assert wait <= Max(cfg.rate, MICROS_PER_SECOND);
    assert (I32_MAX + 1 - 1_000_001) * cfg.rate >= 0;
    assert 1_000_000 * cfg.rate >= MICROS_PER_SECOND;
  }
}
