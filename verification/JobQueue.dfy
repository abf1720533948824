/** The table of background jobs and the statements workers send to it. */
module JobQueue {
  import opened Arith
  import opened Wrappers
  import TimestampText

  /** Microseconds. */
  type Time = int

  type JobId = nat
  type Worker = string

  const SECOND: int := 1_000_000

  /** `jiff::Timestamp::MAX`, at which every addition saturates. */
  const TIME_MAX: Time := 253_402_207_200 * SECOND + 999_999

  /** That is 30 December 9999, 22:00:00.999999. */
  lemma LastInstant()
    ensures var last, first := TimestampText.Date(9999, 12, 30), TimestampText.Date(1970, 1, 1);
            var days := TimestampText.DayNumber(last) - TimestampText.DayNumber(first);
            TIME_MAX == (days * 86_400 + 22 * 3600) * SECOND + 999_999
  {
    hide TimestampText.DayNumber;
    TimestampText.DayNumberClosedForm(TimestampText.Date(9999, 12, 30));
    TimestampText.DayNumberClosedForm(TimestampText.Date(1970, 1, 1));
  }

  const I32_MIN: int := -0x8000_0000
  const I32_MAX: int := 0x7FFF_FFFF
  const I64_MAX: int := 0x7FFF_FFFF_FFFF_FFFF

  /** `MAX_RETRY_DELAY`, in seconds. */
  const MAX_RETRY_DELAY: int := 86_400

  /** A row, less the payload only its handler looks at.  The lease is two nullable columns. */
  datatype Job = Job(
    queue: string, priority: int, runAt: Time, createdAt: Time, retries: int,
    lockedUntil: Option<Time>, lockedBy: Option<Worker>, failedAt: Option<Time>)

  type Jobs = map<JobId, Job>

  // ---------------------------------------------------------------------------
  // Statements
  // ---------------------------------------------------------------------------

  /** The WHERE clause of both reservations. */
  predicate Claimable(job: Job, queue: string, now: Time) {
    && job.queue == queue
    && job.failedAt.None?
    && ((job.lockedUntil.Some? && job.lockedUntil.value < now) || (job.lockedUntil.None? && job.runAt <= now))
  }

  /** ORDER BY priority DESC, run_at ASC, created_at ASC */
  predicate Precedes(a: Job, b: Job) {
    || a.priority > b.priority
    || (a.priority == b.priority && a.runAt < b.runAt)
    || (a.priority == b.priority && a.runAt == b.runAt && a.createdAt < b.createdAt)
  }

  /** The row LIMIT 1 may pick, when the rows in `skipped` are locked by other transactions. */
  predicate IsNext(jobs: Jobs, queue: string, now: Time, skipped: set<JobId>, id: JobId) {
    && id in jobs && id !in skipped && Claimable(jobs[id], queue, now)
    && forall other | other in jobs && other !in skipped && Claimable(jobs[other], queue, now) ::
         !Precedes(jobs[other], jobs[id])
  }

  function Leased(job: Job, worker: Worker, until: Time): Job {
    job.(lockedUntil := Some(until), lockedBy := Some(worker))
  }

  /** The guard of every finalization: `WHERE id = ? AND locked_by = ?`. */
  predicate HeldBy(jobs: Jobs, id: JobId, worker: Worker) { id in jobs && jobs[id].lockedBy == Some(worker) }

  /** What a worker finalizes with: delete the row, reschedule it, or mark it dead. */
  datatype Decision = Delete | Retry(stamp: Time, runAt: Time) | Dead(stamp: Time)

  function Finalized(jobs: Jobs, id: JobId, worker: Worker, decision: Decision): Jobs {
    if !HeldBy(jobs, id, worker) then jobs
    else
      var job := jobs[id];
      var released := job.(retries := job.retries + 1, lockedUntil := None, lockedBy := None);
      match decision
      case Delete => jobs - {id}
      case Retry(_, runAt) => jobs[id := released.(runAt := runAt)]
      case Dead(stamp) => jobs[id := released.(failedAt := Some(stamp))]
  }

  // ---------------------------------------------------------------------------
  // Backoff
  // ---------------------------------------------------------------------------

  function Pow2(n: nat): (p: nat)
    ensures p >= 1
  {
    if n == 0 then 1 else 2 * Pow2(n - 1)
  }

  function UnsignedAbs(n: int): nat { if n < 0 then -n else n }

  /** `2_i64.checked_pow(n)` */
  function CheckedPow2(n: nat): Option<int> { if Pow2(n) <= I64_MAX then Some(Pow2(n)) else None }

  function RetryDelaySeconds(retries: int): int {
    var power := CheckedPow2(Min(UnsignedAbs(retries), 62));
    Min(if power.Some? then power.value else I64_MAX, MAX_RETRY_DELAY)
  }

  /** `compute_retry_time`: now plus the delay, pinned to the last instant. */
  function RetryTime(now: Time, retries: int): Time { Min(now + RetryDelaySeconds(retries) * SECOND, TIME_MAX) }

  function LeaseUntil(now: Time, timeout: nat): Time { Min(now + timeout, TIME_MAX) }

  lemma {:induction false} Pow2Monotone(n: nat, m: nat)
    requires n <= m
    ensures Pow2(n) <= Pow2(m)
    decreases m
  {
    if n < m { Pow2Monotone(n, m - 1); }
  }

  lemma Pow2Seventeen()
    ensures Pow2(16) == 65_536 && Pow2(17) == 131_072
  {
    assert Pow2(4) == 16;
    assert Pow2(8) == 256;
    assert Pow2(12) == 4096;
  }

  /** For every number of retries, negative ones included, the retry comes the capped power of two later,
      or at the last instant: no clamp, overflow check or fallback on the way changes it. */
  lemma DelayIsCappedExponential(now: Time, retries: int)
    ensures var n := if retries < 0 then -retries else retries;
            RetryTime(now, retries) == Min(now + Min(Pow2(n), 86_400) * 1_000_000, TIME_MAX)
  {
    var n := UnsignedAbs(retries);
    Pow2Seventeen();
    if n >= 17 {
      Pow2Monotone(17, n);
      Pow2Monotone(17, Min(n, 62));
    }
    if n <= 62 {
      Pow2Monotone(n, 62);
      Pow2SixtyTwo();
    }
  }

  lemma Pow2SixtyTwo()
    ensures Pow2(62) == 0x4000_0000_0000_0000
  {
    assert Pow2(8) == 256;
    assert Pow2(20) == 1_048_576 by { assert Pow2(14) == 16_384; }
    assert Pow2(32) == 0x1_0000_0000 by { assert Pow2(26) == 0x400_0000; }
    assert Pow2(44) == 0x1000_0000_0000 by { assert Pow2(38) == 0x40_0000_0000; }
    assert Pow2(56) == 0x100_0000_0000_0000 by { assert Pow2(50) == 0x4_0000_0000_0000; }
  }

  /** Which finalization follows from the handler's outcome, at the time it returns. */
  function Decide(succeeded: bool, retries: int, now: Time, maxRetries: int): Decision {
    if succeeded then Delete
    else if retries + 1 >= maxRetries then Dead(now)
    else Retry(now, RetryTime(now, retries))
  }

  // ---------------------------------------------------------------------------
  // The table
  // ---------------------------------------------------------------------------

  datatype ClaimedJob = ClaimedJob(id: JobId, retries: int)

  class JobTable {
    var jobs: Jobs

    /** The SELECT of a reservation, `skipped` being the rows SKIP LOCKED passes over. */
    method SelectNext(queue: string, now: Time, skipped: set<JobId>) returns (found: Option<JobId>)
      ensures found.Some? ==> IsNext(jobs, queue, now, skipped, found.value)
      ensures found.Some? ==>
                var best := jobs[found.value];
                forall id | id in jobs && id !in skipped && Claimable(jobs[id], queue, now) ::
                  && best.priority >= jobs[id].priority
                  && (best.priority == jobs[id].priority ==> best.runAt <= jobs[id].runAt)
                  && (best.priority == jobs[id].priority && best.runAt == jobs[id].runAt ==>
                        best.createdAt <= jobs[id].createdAt)
      ensures found.None? ==> forall id | id in jobs && id !in skipped :: !Claimable(jobs[id], queue, now)
    {
      found := None;
      var rest := jobs.Keys - skipped;
      while rest != {}
        invariant rest <= jobs.Keys - skipped
        invariant found.None? ==>
                  forall id | id in jobs && id !in skipped && id !in rest :: !Claimable(jobs[id], queue, now)
        invariant found.Some? ==>
                    && found.value in jobs && found.value !in skipped && Claimable(jobs[found.value], queue, now)
                    && forall id | id in jobs && id !in skipped && id !in rest && Claimable(jobs[id], queue, now) ::
                         !Precedes(jobs[id], jobs[found.value])
        decreases |rest|
      {
        var id :| id in rest;
        if Claimable(jobs[id], queue, now) && (found.None? || Precedes(jobs[id], jobs[found.value])) {
          found := Some(id);
        }
        rest := rest - {id};
      }
    }

    /** `reserve_next`: lease the next row to the worker, or find none. */
    method ReserveNext(queue: string, now: Time, until: Time, worker: Worker, skipped: set<JobId>)
      returns (claimed: Option<ClaimedJob>)
      modifies this
      ensures claimed.None? ==>
                jobs == old(jobs) && forall id | id in jobs && id !in skipped :: !Claimable(jobs[id], queue, now)
      ensures claimed.Some? ==>
                var id := claimed.value.id;
                && IsNext(old(jobs), queue, now, skipped, id)
                && claimed.value.retries == old(jobs)[id].retries
                && jobs == old(jobs)[id := old(jobs)[id].(lockedUntil := Some(until), lockedBy := Some(worker))]
    {
      var found := SelectNext(queue, now, skipped);
      if found.None? { return None; }
      var id := found.value;
      claimed := Some(ClaimedJob(id, jobs[id].retries));
      jobs := jobs[id := Leased(jobs[id], worker, until)];
    }

    method DeleteJob(id: JobId, worker: Worker)
      modifies this
      ensures jobs == Finalized(old(jobs), id, worker, Delete)
      ensures jobs == if id in old(jobs) && old(jobs)[id].lockedBy == Some(worker) then old(jobs) - {id} else old(jobs)
    {
      jobs := map key | key in jobs && !(key == id && jobs[key].lockedBy == Some(worker)) :: jobs[key];
    }

    method UpdateJob(id: JobId, worker: Worker, ghost stamp: Time, nextRun: Time)
      modifies this
      ensures jobs == Finalized(old(jobs), id, worker, Retry(stamp, nextRun))
      ensures !(id in old(jobs) && old(jobs)[id].lockedBy == Some(worker)) ==> jobs == old(jobs)
      ensures id in old(jobs) && old(jobs)[id].lockedBy == Some(worker) ==>
                var job := old(jobs)[id];
                jobs == old(jobs)[id := Job(job.queue, job.priority, nextRun, job.createdAt, job.retries + 1,
                                            None, None, job.failedAt)]
    {
      if id in jobs && jobs[id].lockedBy == Some(worker) {
        var job := jobs[id];
        jobs := jobs[id := job.(retries := job.retries + 1, runAt := nextRun, lockedUntil := None, lockedBy := None)];
      }
    }

    method MarkJobDead(id: JobId, worker: Worker, now: Time)
      modifies this
      ensures jobs == Finalized(old(jobs), id, worker, Dead(now))
      ensures !(id in old(jobs) && old(jobs)[id].lockedBy == Some(worker)) ==> jobs == old(jobs)
      ensures id in old(jobs) && old(jobs)[id].lockedBy == Some(worker) ==>
                var job := old(jobs)[id];
                jobs == old(jobs)[id := Job(job.queue, job.priority, job.runAt, job.createdAt, job.retries + 1,
                                            None, None, Some(now))]
    {
      if id in jobs && jobs[id].lockedBy == Some(worker) {
        var job := jobs[id];
        jobs := jobs[id := job.(retries := job.retries + 1, failedAt := Some(now),
                    lockedUntil := None, lockedBy := None)];
      }
    }

    /** `run_once` for a worker nobody interferes with: claim at `now`, run the handler, finalize at
        `finished`.  The claimed row, and no other, ends as the decision for it says. */
    method RunOnce(
        queue: string, worker: Worker, now: Time, timeout: nat, maxRetries: int, succeeded: bool, finished: Time)
      returns (processed: Option<JobId>)
      modifies this
      ensures processed.None? ==> jobs == old(jobs) && forall id | id in jobs :: !Claimable(jobs[id], queue, now)
      ensures processed.Some? ==>
                var id := processed.value;
                && IsNext(old(jobs), queue, now, {}, id)
                && var job := old(jobs)[id];
                   var released := job.(retries := job.retries + 1, lockedUntil := None, lockedBy := None);
                   var delay := Min(Pow2(if job.retries < 0 then -job.retries else job.retries), 86_400);
                   jobs == (if succeeded then old(jobs) - {id}
                            else if job.retries + 1 >= maxRetries
                                 then old(jobs)[id := released.(failedAt := Some(finished))]
                            else old(jobs)[id := released.(runAt := Min(finished + delay * SECOND, TIME_MAX))])
    {
      var until := LeaseUntil(now, timeout);
      var claimed := ReserveNext(queue, now, until, worker, {});
      if claimed.None? { return None; }
      var id := claimed.value.id;
      processed := Some(id);
      if succeeded {
        DeleteJob(id, worker);
      } else if claimed.value.retries + 1 >= maxRetries {
        MarkJobDead(id, worker, finished);
      } else {
        DelayIsCappedExponential(finished, claimed.value.retries);
        UpdateJob(id, worker, finished, RetryTime(finished, claimed.value.retries));
      }
    }
  }
}
