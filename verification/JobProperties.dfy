/** What every run of the job queue guarantees. */
module JobProperties {
  import opened Arith
  import opened Wrappers
  import opened JobQueue
  import opened JobMachine

  // ---------------------------------------------------------------------------
  // Exclusion and fencing
  // ---------------------------------------------------------------------------

  /** In every reachable state, a worker whose lease still runs is the one the row names, with exactly
      that lease; so no two workers execute a job under running leases. */
  lemma LeaseExclusion(cfg: Config, s: State, v: Worker, w: Worker)
    requires Reachable(cfg, s)
    requires Executing(PhaseOf(s, v)) && Executing(PhaseOf(s, w))
    ensures var c := PhaseOf(s, v).claim;
            s.clock <= c.until ==>
              && c.id in s.jobs && s.jobs[c.id].lockedBy == Some(v) && s.jobs[c.id].lockedUntil == Some(c.until)
              && s.jobs[c.id].failedAt.None?
    ensures var c, d := PhaseOf(s, v).claim, PhaseOf(s, w).claim;
            c.id == d.id && s.clock <= c.until && s.clock <= d.until ==> v == w
  {
    ReachableStatesAreOk(cfg, s);
    assert WorkerOk(cfg, s, v, PhaseOf(s, v)) && WorkerOk(cfg, s, w, PhaseOf(s, w));
  }

  predicate ActsFor(a: Action, w: Worker) {
    match a
    case Tick(_) => false
    case Enqueue(_, _, _, _, _) => false
    case _ => a.worker == w
  }

  /** The worker's claim was taken over, or it has given up. */
  predicate Fenced(s: State, w: Worker) {
    var phase := PhaseOf(s, w);
    phase.Idle? || (Executing(phase) && !HeldBy(s.jobs, phase.claim.id, w))
  }

  /** None of the worker's actions in the run changes a row. */
  predicate ChangesNoRow(cfg: Config, s: State, actions: seq<Action>, w: Worker)
    decreases |actions|
  {
    actions == [] || Next(cfg, s, actions[0]).None?
    || (var next := Next(cfg, s, actions[0]).value;
        (ActsFor(actions[0], w) ==> next.jobs == s.jobs) && ChangesNoRow(cfg, next, actions[1..], w))
  }

  /** What others do neither moves a worker nor writes its name on a row. */
  lemma OthersDoNotNameWorker(cfg: Config, s: State, a: Action, w: Worker, id: JobId)
    requires Next(cfg, s, a).Some? && !ActsFor(a, w)
    ensures PhaseOf(Next(cfg, s, a).value, w) == PhaseOf(s, w)
    ensures !HeldBy(s.jobs, id, w) ==> !HeldBy(Next(cfg, s, a).value.jobs, id, w)
  {
  }

  lemma FencedStep(cfg: Config, s: State, a: Action, w: Worker)
    requires Inv(cfg, s) && Fenced(s, w) && Next(cfg, s, a).Some? && !(a.Capture? && a.worker == w)
    ensures Fenced(Next(cfg, s, a).value, w)
    ensures ActsFor(a, w) ==> Next(cfg, s, a).value.jobs == s.jobs
  {
    if !ActsFor(a, w) {
      OthersDoNotNameWorker(cfg, s, a, w, if Executing(PhaseOf(s, w)) then PhaseOf(s, w).claim.id else 0);
    }
  }

  /** Once its claim has been taken over, nothing a worker does about it changes any row, whatever
      the others do in between and however late it finishes. */
  lemma {:induction false} TakenOverWorkerChangesNothing(cfg: Config, s: State, actions: seq<Action>, w: Worker)
    requires Inv(cfg, s) && Fenced(s, w)
    requires forall i :: 0 <= i < |actions| ==> !(actions[i].Capture? && actions[i].worker == w)
    ensures ChangesNoRow(cfg, s, actions, w)
    decreases |actions|
  {
    if actions != [] && Next(cfg, s, actions[0]).Some? {
      FencedStep(cfg, s, actions[0], w);
      NextKeepsInv(cfg, s, actions[0]);
      TakenOverWorkerChangesNothing(cfg, Next(cfg, s, actions[0]).value, actions[1..], w);
    }
  }

  /** A worker that is still executing loses its row only to a claim made after its lease ran out. */
  lemma TakeoverNeedsExpiry(cfg: Config, s: State, a: Action, w: Worker)
    requires Inv(cfg, s) && Next(cfg, s, a).Some? && !ActsFor(a, w)
    requires Executing(PhaseOf(s, w)) && HeldBy(s.jobs, PhaseOf(s, w).claim.id, w)
    ensures !HeldBy(Next(cfg, s, a).value.jobs, PhaseOf(s, w).claim.id, w) ==>
              (a.ClaimSqlite? || a.CommitPostgres?) && PhaseOf(s, w).claim.until < s.clock
  {
    assert WorkerOk(cfg, s, w, s.workers[w]);
    if a.CommitPostgres? {
      var phase := PhaseOf(s, a.worker);
      assert WorkerOk(cfg, s, a.worker, phase);
    }
    if a.ClaimSqlite? {
      assert WorkerOk(cfg, s, a.worker, PhaseOf(s, a.worker));
    }
  }

  predicate LeasedUntil(phase: Phase, until: Time) {
    match phase
    case Idle => true
    case Captured(_, _, end) => end == until
    case _ => phase.claim.until == until
  }

  /** A worker keeps the lease it computed until it polls again. */
  lemma LeaseIsKeptByStep(cfg: Config, s: State, a: Action, w: Worker, until: Time)
    requires LeasedUntil(PhaseOf(s, w), until) && Next(cfg, s, a).Some? && !(a.Capture? && a.worker == w)
    ensures LeasedUntil(PhaseOf(Next(cfg, s, a).value, w), until)
  {
    hide IsNext, Finalized, Decide, LockedRows;
    if !ActsFor(a, w) { OthersDoNotNameWorker(cfg, s, a, w, 0); }
  }

  lemma {:induction false} LeaseIsKept(cfg: Config, s: State, actions: seq<Action>, w: Worker, until: Time)
    requires LeasedUntil(PhaseOf(s, w), until) && Run(cfg, s, actions).Some?
    requires forall i :: 0 <= i < |actions| ==> !(actions[i].Capture? && actions[i].worker == w)
    ensures LeasedUntil(PhaseOf(Run(cfg, s, actions).value, w), until)
    decreases |actions|
  {
    if actions != [] {
      hide LeasedUntil, Next;
      LeaseIsKeptByStep(cfg, s, actions[0], w, until);
      LeaseIsKept(cfg, Next(cfg, s, actions[0]).value, actions[1..], w, until);
    }
  }

  lemma LeaseIsOnRow(cfg: Config, s: State, w: Worker, until: Time)
    requires Inv(cfg, s) && Executing(PhaseOf(s, w)) && LeasedUntil(PhaseOf(s, w), until) && s.clock <= until
    ensures var id := PhaseOf(s, w).claim.id;
            id in s.jobs && s.jobs[id].lockedBy == Some(w) && s.jobs[id].lockedUntil == Some(until)
  {
    hide JobOk, DecisionOk, LocksExclusive;
    assert WorkerOk(cfg, s, w, PhaseOf(s, w));
  }

  /** The visibility timeout is honoured, counted from the reading of the clock the poll began with: as
      long as it has not passed, a worker executing the job it claimed is the one the row names,
      whatever the others have done in between. */
  lemma VisibilityTimeoutHonoured(cfg: Config, s: State, w: Worker, queue: string, timeout: nat, actions: seq<Action>)
    requires Reachable(cfg, s) && Next(cfg, s, Capture(w, queue, timeout)).Some?
    requires Run(cfg, Next(cfg, s, Capture(w, queue, timeout)).value, actions).Some?
    requires forall i :: 0 <= i < |actions| ==> !(actions[i].Capture? && actions[i].worker == w)
    ensures var after := Run(cfg, Next(cfg, s, Capture(w, queue, timeout)).value, actions).value;
            Executing(PhaseOf(after, w)) && after.clock <= s.clock + timeout ==>
              var id := PhaseOf(after, w).claim.id;
              && id in after.jobs && after.jobs[id].lockedBy == Some(w)
              && after.jobs[id].lockedUntil == Some(Min(s.clock + timeout, TIME_MAX))
  {
    hide Reachable, Run, JobOk, WorkerOk, LocksExclusive, IsNext, Finalized, LockedRows;
    ReachableStatesAreOk(cfg, s);
    NextKeepsInv(cfg, s, Capture(w, queue, timeout));
    var next := Next(cfg, s, Capture(w, queue, timeout)).value;
    RunKeepsInv(cfg, next, actions);
    assert PhaseOf(next, w) == Captured(queue, s.clock, LeaseUntil(s.clock, timeout));
    LeaseIsKept(cfg, next, actions, w, LeaseUntil(s.clock, timeout));
    var after := Run(cfg, next, actions).value;
    if Executing(PhaseOf(after, w)) && after.clock <= s.clock + timeout {
      LeaseIsOnRow(cfg, after, w, LeaseUntil(s.clock, timeout));
    }
  }

  // ---------------------------------------------------------------------------
  // Which row a claim takes
  // ---------------------------------------------------------------------------

  /** On either backend a claim takes a live, due row of its queue that nobody has locked, and no other
      such row is more urgent; on SQLite no row is ever passed over. */
  lemma ClaimTakesTheBest(cfg: Config, s: State, a: Action, other: JobId)
    requires Reachable(cfg, s) && (a.ClaimSqlite? || a.SelectPostgres?) && Next(cfg, s, a).Some?
    ensures var phase := PhaseOf(s, a.worker);
            && phase.Captured? && a.id in s.jobs && !RowLocked(s, a.id)
            && var job := s.jobs[a.id];
               && job.queue == phase.queue && job.failedAt.None?
               && (if job.lockedBy.Some? then job.lockedUntil.Some? && job.lockedUntil.value < phase.now
                   else job.runAt <= phase.now)
    ensures var phase := PhaseOf(s, a.worker);
            other in s.jobs && !RowLocked(s, other) && Claimable(s.jobs[other], phase.queue, phase.now) ==>
              var best, next := s.jobs[a.id], s.jobs[other];
              && best.priority >= next.priority
              && (best.priority == next.priority ==> best.runAt <= next.runAt)
              && (best.priority == next.priority && best.runAt == next.runAt ==> best.createdAt <= next.createdAt)
    ensures cfg.backend.Sqlite? ==> !RowLocked(s, other)
  {
    ReachableStatesAreOk(cfg, s);
    assert JobOk(cfg, s.jobs[a.id], s.history[a.id]);
    if cfg.backend.Sqlite? {
      forall w | w in s.workers ensures !HoldsRow(s.workers[w], a.id) && !HoldsRow(s.workers[w], other) {
        assert WorkerOk(cfg, s, w, s.workers[w]);
      }
    }
  }

  // ---------------------------------------------------------------------------
  // Retries
  // ---------------------------------------------------------------------------

  /** In every reachable state live jobs have attempts left, dead ones have used exactly all of them,
      and the counter is the number of failures that took effect. */
  lemma RetriesCounted(cfg: Config, s: State, id: JobId)
    requires Reachable(cfg, s) && id in s.jobs
    ensures id in s.history
    ensures s.jobs[id].retries == |s.history[id].failures|
    ensures s.jobs[id].failedAt.None? ==> 0 <= s.jobs[id].retries < Attempts(cfg)
    ensures s.jobs[id].failedAt.Some? ==> s.jobs[id].retries == Attempts(cfg)
  {
    ReachableStatesAreOk(cfg, s);
    assert JobOk(cfg, s.jobs[id], s.history[id]);
  }

  /** The statement of the action that finalizes. */
  predicate Concludes(s: State, a: Action) {
    (a.FinalizeSqlite? && PhaseOf(s, a.worker).Finalizing?) || (a.FinishPostgres? && PhaseOf(s, a.worker).Finishing?)
  }

  /** A row with one more attempt behind it, and released. */
  function Counted(job: Job): Job {
    Job(job.queue, job.priority, job.runAt, job.createdAt, job.retries + 1, None, None, job.failedAt)
  }

  /** Whenever a finalization takes effect, the `retries` the worker decided by is the row's own; and it
      changes that row alone, as the decision says. */
  lemma SnapshotIsCurrent(cfg: Config, s: State, a: Action)
    requires Reachable(cfg, s) && Next(cfg, s, a).Some? && Concludes(s, a)
    requires HeldBy(s.jobs, PhaseOf(s, a.worker).claim.id, a.worker)
    ensures var c, d, after := PhaseOf(s, a.worker).claim, PhaseOf(s, a.worker).decision, Next(cfg, s, a).value.jobs;
            && c.retries == s.jobs[c.id].retries
            && (forall other | other != c.id :: other in after <==> other in s.jobs)
            && (forall other | other in s.jobs && other != c.id :: after[other] == s.jobs[other])
            && (d.Delete? <==> c.id !in after)
            && (d.Dead? ==> after[c.id] == Counted(s.jobs[c.id]).(failedAt := Some(d.stamp)))
            && (d.Dead? ==> s.jobs[c.id].retries + 1 == Max(1, cfg.maxRetries))
            && (d.Retry? ==>
                  var delay := Min(Pow2(UnsignedAbs(c.retries)), 86_400) * SECOND;
                  after[c.id] == Counted(s.jobs[c.id]).(runAt := Min(d.stamp + delay, TIME_MAX)))
  {
    hide Reachable, RetryTime, RetryDelaySeconds, Pow2, Spaced, LocksExclusive;
    ReachableStatesAreOk(cfg, s);
    var phase := PhaseOf(s, a.worker);
    if phase.decision.Retry? { DelayIsCappedExponential(phase.decision.stamp, phase.claim.retries); }
    assert WorkerOk(cfg, s, a.worker, phase);
    assert JobOk(cfg, s.jobs[phase.claim.id], s.history[phase.claim.id]);
  }

  /** When a released live row is due. */
  lemma ReleasedRowIsDue(job: Job)
    ensures job.lockedUntil.None? && job.failedAt.None? ==>
              forall queue: string, now: Time :: Claimable(job, queue, now) <==> queue == job.queue && job.runAt <= now
    ensures job.failedAt.Some? ==> forall queue: string, now: Time :: !Claimable(job, queue, now)
  {
  }

  // ---------------------------------------------------------------------------
  // What the handler's outcome does to the row
  // ---------------------------------------------------------------------------

  /** How and when a handler returned. */
  datatype Outcome = Outcome(succeeded: bool, at: Time)

  /** The worker's latest `Return` in a run, if it has returned at all. */
  function LatestReturn(
      cfg: Config, s: State, actions: seq<Action>, w: Worker, latest: Option<Outcome>): Option<Outcome>
    decreases |actions|
  {
    if actions == [] || Next(cfg, s, actions[0]).None? then latest
    else
      var a := actions[0];
      var now := if a.Return? && a.worker == w then Some(Outcome(a.succeeded, s.clock)) else latest;
      LatestReturn(cfg, Next(cfg, s, a).value, actions[1..], w, now)
  }

  /** A decision remembered is the one that follows from the latest return. */
  predicate DecidedBy(cfg: Config, phase: Phase, latest: Option<Outcome>) {
    phase.Finalizing? || phase.Finishing? ==>
      && latest.Some? && phase.claim.now <= latest.value.at
      && var n := phase.claim.retries;
         phase.decision ==
         if latest.value.succeeded then Delete
         else if n + 1 >= cfg.maxRetries then Dead(latest.value.at)
         else Retry(latest.value.at, RetryTime(latest.value.at, n))
  }

  lemma DecisionStep(cfg: Config, s: State, a: Action, w: Worker, latest: Option<Outcome>)
    requires Inv(cfg, s) && Next(cfg, s, a).Some? && DecidedBy(cfg, PhaseOf(s, w), latest)
    ensures var now := if a.Return? && a.worker == w then Some(Outcome(a.succeeded, s.clock)) else latest;
            DecidedBy(cfg, PhaseOf(Next(cfg, s, a).value, w), now)
  {
    hide IsNext, Finalized, LockedRows, RowLocked, RetryTime, JobOk, DecisionOk;
    if ActsFor(a, w) {
      if a.Return? { assert WorkerOk(cfg, s, w, PhaseOf(s, w)); }
    } else {
      OthersDoNotNameWorker(cfg, s, a, w, 0);
    }
  }

  lemma {:induction false} DecisionFollowsReturn(
      cfg: Config, s: State, actions: seq<Action>, w: Worker, latest: Option<Outcome>)
    requires Inv(cfg, s) && DecidedBy(cfg, PhaseOf(s, w), latest) && Run(cfg, s, actions).Some?
    ensures DecidedBy(cfg, PhaseOf(Run(cfg, s, actions).value, w), LatestReturn(cfg, s, actions, w, latest))
    decreases |actions|
  {
    if actions != [] {
      hide Next, Inv, DecidedBy;
      var a := actions[0];
      DecisionStep(cfg, s, a, w, latest);
      NextKeepsInv(cfg, s, a);
      var now := if a.Return? && a.worker == w then Some(Outcome(a.succeeded, s.clock)) else latest;
      DecisionFollowsReturn(cfg, Next(cfg, s, a).value, actions[1..], w, now);
    }
  }

  /** In every run, when a finalization takes effect the worker has returned since it read the clock, and
      its latest return decides what becomes of the row: gone after a success; after a failure one
      attempt counted and the lease released, and either dead, or due again exactly from the end of the
      backoff.  Every other row stays as it is. */
  lemma OutcomeDecidesRow(cfg: Config, actions: seq<Action>, a: Action)
    requires Run(cfg, INITIAL, actions).Some?
    requires var s := Run(cfg, INITIAL, actions).value;
             Next(cfg, s, a).Some? && Concludes(s, a) && HeldBy(s.jobs, PhaseOf(s, a.worker).claim.id, a.worker)
    ensures LatestReturn(cfg, INITIAL, actions, a.worker, None).Some?
    ensures var s := Run(cfg, INITIAL, actions).value;
            var latest := LatestReturn(cfg, INITIAL, actions, a.worker, None).value;
            var after, id := Next(cfg, s, a).value.jobs, PhaseOf(s, a.worker).claim.id;
            var job := s.jobs[id];
            var due := Min(latest.at + Min(Pow2(UnsignedAbs(job.retries)), 86_400) * SECOND, TIME_MAX);
            && PhaseOf(s, a.worker).claim.now <= latest.at
            && after - {id} == s.jobs - {id}
            && (latest.succeeded ==> id !in after)
            && (!latest.succeeded ==> id in after)
            && (!latest.succeeded && job.retries + 1 >= cfg.maxRetries ==>
                  && after[id] == Counted(job).(failedAt := Some(latest.at))
                  && forall queue: string, now: Time :: !Claimable(after[id], queue, now))
            && (!latest.succeeded && job.retries + 1 < cfg.maxRetries ==>
                  && after[id] == Counted(job).(runAt := due) && after[id].failedAt.None?
                  && forall queue: string, now: Time ::
                       Claimable(after[id], queue, now) <==> queue == job.queue && due <= now)
  {
    hide Next, Run, LatestReturn, RetryTime, RetryDelaySeconds, Pow2, Claimable;
    var s, w := Run(cfg, INITIAL, actions).value, a.worker;
    RunKeepsInv(cfg, INITIAL, actions);
    DecisionFollowsReturn(cfg, INITIAL, actions, w, None);
    SnapshotIsCurrent(cfg, s, a);
    var c, after := PhaseOf(s, w).claim, Next(cfg, s, a).value.jobs;
    HeldRowIsLive(cfg, s, w);
    if c.id in after { ReleasedRowIsDue(after[c.id]); }
  }

  lemma HeldRowIsLive(cfg: Config, s: State, w: Worker)
    requires Inv(cfg, s) && Executing(PhaseOf(s, w)) && HeldBy(s.jobs, PhaseOf(s, w).claim.id, w)
    ensures s.jobs[PhaseOf(s, w).claim.id].failedAt.None?
  {
    assert WorkerOk(cfg, s, w, s.workers[w]);
  }

  lemma DeadStep(cfg: Config, s: State, a: Action, id: JobId)
    requires Inv(cfg, s) && id in s.jobs && s.jobs[id].failedAt.Some? && Next(cfg, s, a).Some?
    ensures id in Next(cfg, s, a).value.jobs && Next(cfg, s, a).value.jobs[id] == s.jobs[id]
  {
    assert JobOk(cfg, s.jobs[id], s.history[id]);
    if a.CommitPostgres? { assert WorkerOk(cfg, s, a.worker, PhaseOf(s, a.worker)); }
  }

  /** A dead job is never touched again. */
  lemma {:induction false} DeadForever(cfg: Config, s: State, actions: seq<Action>, id: JobId)
    requires Inv(cfg, s) && id in s.jobs && s.jobs[id].failedAt.Some? && Run(cfg, s, actions).Some?
    ensures id in Run(cfg, s, actions).value.jobs && Run(cfg, s, actions).value.jobs[id] == s.jobs[id]
    decreases |actions|
  {
    if actions != [] {
      DeadStep(cfg, s, actions[0], id);
      NextKeepsInv(cfg, s, actions[0]);
      DeadForever(cfg, Next(cfg, s, actions[0]).value, actions[1..], id);
    }
  }

  // ---------------------------------------------------------------------------
  // Backoff
  // ---------------------------------------------------------------------------

  /** The backoff after the first `n` failures together, in seconds. */
  function TotalBackoff(n: nat): nat {
    if n == 0 then 0 else TotalBackoff(n - 1) + Min(Pow2(n - 1), MAX_RETRY_DELAY)
  }

  lemma {:induction false} TotalBackoffClosedForm(n: nat)
    ensures n <= 17 ==> TotalBackoff(n) == Pow2(n) - 1
    ensures n >= 17 ==> TotalBackoff(n) == Pow2(17) - 1 + MAX_RETRY_DELAY * (n - 17)
  {
    Pow2Seventeen();
    if n > 0 {
      TotalBackoffClosedForm(n - 1);
      if n <= 17 { Pow2Monotone(n - 1, 16); } else { Pow2Monotone(17, n - 1); }
    }
  }

  /** Consecutive failures of a job are at least the capped power of two apart, up to the last instant of
      the clock. */
  lemma FailuresAreSpaced(cfg: Config, s: State, id: JobId, n: nat)
    requires Reachable(cfg, s) && id in s.jobs
    requires id in s.history && 0 < n < |s.history[id].failures|
    ensures var failures := s.history[id].failures;
            failures[n] >= Min(failures[n - 1] + Min(Pow2(n - 1), 86_400) * SECOND, TIME_MAX)
  {
    ReachableStatesAreOk(cfg, s);
    assert JobOk(cfg, s.jobs[id], s.history[id]);
    DelayIsCappedExponential(s.history[id].failures[n - 1], n - 1);
  }

  lemma {:induction false} FailuresAddUp(cfg: Config, s: State, id: JobId, n: nat)
    requires Reachable(cfg, s) && id in s.jobs
    requires id in s.history && n < |s.history[id].failures|
    ensures s.history[id].failures[n] >= Min(s.history[id].failures[0] + TotalBackoff(n) * SECOND, TIME_MAX)
    decreases n
  {
    if n > 0 {
      FailuresAreSpaced(cfg, s, id, n);
      FailuresAddUp(cfg, s, id, n - 1);
    }
  }

  /** With at least 18 attempts, a job is not given up before 2^17 - 1 seconds, and a day for each attempt
      beyond 18, have passed since its first failure. */
  lemma DiesNoSooner(cfg: Config, s: State, id: JobId)
    requires Reachable(cfg, s) && id in s.jobs && 18 <= cfg.maxRetries
    requires s.jobs[id].failedAt.Some?
    ensures id in s.history && s.history[id].failures != []
    ensures s.jobs[id].failedAt.value
         >= Min(s.history[id].failures[0] + (131_071 + 86_400 * (cfg.maxRetries - 18)) * SECOND, TIME_MAX)
  {
    ReachableStatesAreOk(cfg, s);
    assert JobOk(cfg, s.jobs[id], s.history[id]);
    FailuresAddUp(cfg, s, id, cfg.maxRetries - 1);
    TotalBackoffClosedForm(cfg.maxRetries - 1);
    Pow2Seventeen();
  }

  // ---------------------------------------------------------------------------
  // Nothing lost, nothing stranded
  // ---------------------------------------------------------------------------

  /** In every reachable state the lease columns are set together, every claim is accounted for, and a
      live row can be claimed exactly from the instant its lease, or else its schedule, says. */
  lemma ClaimsAccountedFor(cfg: Config, s: State, id: JobId)
    requires Reachable(cfg, s) && id in s.jobs
    ensures s.jobs[id].lockedUntil.Some? <==> s.jobs[id].lockedBy.Some?
    ensures id in s.history
    ensures var h := s.history[id];
            h.claims == |h.failures| + h.takeovers + (if s.jobs[id].lockedBy.Some? then 1 else 0)
    ensures forall queue: string, now: Time :: Claimable(s.jobs[id], queue, now) <==>
              && queue == s.jobs[id].queue && s.jobs[id].failedAt.None?
              && (if s.jobs[id].lockedBy.Some? then s.jobs[id].lockedUntil.value < now else s.jobs[id].runAt <= now)
  {
    ReachableStatesAreOk(cfg, s);
    assert JobOk(cfg, s.jobs[id], s.history[id]);
  }

  /** In every run, a row disappears only when the worker it names finalizes it, and that worker's handler
      has returned success. */
  lemma VanishesOnlyBySuccess(cfg: Config, actions: seq<Action>, a: Action, id: JobId)
    requires Run(cfg, INITIAL, actions).Some?
    requires var s := Run(cfg, INITIAL, actions).value;
             Next(cfg, s, a).Some? && id in s.jobs && id !in Next(cfg, s, a).value.jobs
    ensures var s := Run(cfg, INITIAL, actions).value;
            Concludes(s, a) && HeldBy(s.jobs, id, a.worker) && PhaseOf(s, a.worker).claim.id == id
    ensures var latest := LatestReturn(cfg, INITIAL, actions, a.worker, None);
            latest.Some? && latest.value.succeeded
  {
    var s := Run(cfg, INITIAL, actions).value;
    OnlyDeletesRemove(cfg, s, a, id);
    OutcomeDecidesRow(cfg, actions, a);
  }

  lemma OnlyDeletesRemove(cfg: Config, s: State, a: Action, id: JobId)
    requires Next(cfg, s, a).Some? && id in s.jobs && id !in Next(cfg, s, a).value.jobs
    ensures Concludes(s, a) && HeldBy(s.jobs, id, a.worker) && PhaseOf(s, a.worker).claim.id == id
  {
  }

  // ---------------------------------------------------------------------------
  // What the other actions do to the rows
  // ---------------------------------------------------------------------------

  /** Rows change in three ways only: a job is enqueued, untried and due at once; a claim writes the
      lease and nothing else; a finalization. */
  lemma RowsChangeOnlyAsStated(cfg: Config, s: State, a: Action)
    requires Next(cfg, s, a).Some? && !Concludes(s, a)
    ensures var before, after := s.jobs, Next(cfg, s, a).value.jobs;
            && (a.Enqueue? ==>
                  && a.id !in before && a.runAt <= s.clock
                  && after == before[a.id := Job(a.queue, a.priority, a.runAt, a.createdAt, 0, None, None, None)])
            && (a.ClaimSqlite? || a.CommitPostgres? ==>
                  && PhaseOf(Next(cfg, s, a).value, a.worker).Running?
                  && var c := PhaseOf(Next(cfg, s, a).value, a.worker).claim;
                     && c.id in before && c.until == PhaseUntil(PhaseOf(s, a.worker))
                     && var leased := before[c.id].(lockedUntil := Some(c.until), lockedBy := Some(a.worker));
                        after == before[c.id := leased])
            && (!a.Enqueue? && !a.ClaimSqlite? && !a.CommitPostgres? ==> after == before)
            && (a.Capture? ==> PhaseOf(s, a.worker).Idle?)
  {
  }

  /** The end of the lease a worker has computed. */
  function PhaseUntil(phase: Phase): Time {
    match phase
    case Idle => 0
    case Captured(_, _, until) => until
    case _ => phase.claim.until
  }

  predicate Polled(phase: Phase, queue: string, now: Time) {
    match phase
    case Idle => true
    case Captured(q, t, _) => q == queue && t == now
    case Selected(c, q) => q == queue && c.now == now
    case _ => phase.claim.now == now
  }

  lemma {:induction false} PollIsKept(cfg: Config, s: State, actions: seq<Action>, w: Worker, queue: string, now: Time)
    requires Polled(PhaseOf(s, w), queue, now) && Run(cfg, s, actions).Some?
    requires forall i :: 0 <= i < |actions| ==> !(actions[i].Capture? && actions[i].worker == w)
    ensures Polled(PhaseOf(Run(cfg, s, actions).value, w), queue, now)
    decreases |actions|
  {
    if actions != [] {
      hide Polled, Next;
      PollIsKeptByStep(cfg, s, actions[0], w, queue, now);
      PollIsKept(cfg, Next(cfg, s, actions[0]).value, actions[1..], w, queue, now);
    }
  }

  lemma PollIsKeptByStep(cfg: Config, s: State, a: Action, w: Worker, queue: string, now: Time)
    requires Polled(PhaseOf(s, w), queue, now) && Next(cfg, s, a).Some? && !(a.Capture? && a.worker == w)
    ensures Polled(PhaseOf(Next(cfg, s, a).value, w), queue, now)
  {
    hide IsNext, Finalized, Decide, LockedRows;
    if !ActsFor(a, w) { OthersDoNotNameWorker(cfg, s, a, w, 0); }
  }

  /** A poll claims by its own queue and its own reading of the clock, however late: the row taken was due
      when the poll began. */
  lemma PollClaimsWhatWasDue(
      cfg: Config, s: State, w: Worker, queue: string, timeout: nat, actions: seq<Action>, a: Action)
    requires Reachable(cfg, s) && Next(cfg, s, Capture(w, queue, timeout)).Some?
    requires forall i :: 0 <= i < |actions| ==> !(actions[i].Capture? && actions[i].worker == w)
    requires Run(cfg, Next(cfg, s, Capture(w, queue, timeout)).value, actions).Some?
    requires var now := Run(cfg, Next(cfg, s, Capture(w, queue, timeout)).value, actions).value;
             Next(cfg, now, a).Some? && (a.ClaimSqlite? || a.SelectPostgres?) && a.worker == w
    ensures var job := Run(cfg, Next(cfg, s, Capture(w, queue, timeout)).value, actions).value.jobs[a.id];
            && job.queue == queue && job.failedAt.None?
            && (if job.lockedUntil.Some? then job.lockedUntil.value < s.clock else job.runAt <= s.clock)
  {
    PollIsKept(cfg, Next(cfg, s, Capture(w, queue, timeout)).value, actions, w, queue, s.clock);
  }
}
