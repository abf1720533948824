/** Workers sharing the table of jobs, as a state machine.

    Every interleaving of any number of workers is a sequence of actions.  A worker reads the clock,
    claims a row (on SQLite in one statement; on PostgreSQL by a SELECT that locks the
    row and an UPDATE that commits), runs the handler outside any transaction, and finalizes.
    At any point it may crash, be shut down, or fail to finalize. */
module JobMachine {
  import opened Arith
  import opened Wrappers
  import opened JobQueue

  datatype Backend = Postgres | Sqlite

  /** `maxRetries` is shared by all workers; `worker_id`s are distinct. */
  datatype Config = Config(backend: Backend, maxRetries: int)

  /** What a worker remembers of its claim: the row as the reservation returned it, and its lease. */
  datatype Claim = Claim(id: JobId, retries: int, now: Time, until: Time)

  datatype Phase =
    | Idle
    | Captured(queue: string, now: Time, until: Time)        // has read the clock
    | Selected(claim: Claim, queue: string)                  // open transaction, row locked, not yet committed
    | Running(claim: Claim)                                  // lease committed, handler running
    | Finalizing(claim: Claim, decision: Decision)           // handler returned, finalization about to start
    | Finishing(claim: Claim, decision: Decision)            // open transaction, row changed and locked

  /** What has happened to a row, for the accounting; no statement reads it. */
  datatype History = History(claims: nat, takeovers: nat, failures: seq<Time>)

  datatype State = State(clock: Time, jobs: Jobs, workers: map<Worker, Phase>, history: map<JobId, History>)

  datatype Action =
    | Tick(to: Time)
    | Enqueue(id: JobId, queue: string, priority: int, runAt: Time, createdAt: Time)
    | Capture(worker: Worker, queue: string, timeout: nat)
    | ClaimSqlite(worker: Worker, id: JobId)
    | SelectPostgres(worker: Worker, id: JobId)
    | CommitPostgres(worker: Worker)
    | Return(worker: Worker, succeeded: bool)                // the handler returns
    | FinalizeSqlite(worker: Worker)
    | ExecutePostgres(worker: Worker)                        // the finalizing statement
    | FinishPostgres(worker: Worker)                         // its commit
    | Abort(worker: Worker)                                  // nothing found, rollback, failed finalization, crash

  const INITIAL: State := State(0, map[], map[], map[])

  function PhaseOf(s: State, w: Worker): Phase { if w in s.workers then s.workers[w] else Idle }

  function In(s: State, w: Worker, phase: Phase): State { s.(workers := s.workers[w := phase]) }

  /** An open transaction of this phase holds the lock on the row. */
  predicate HoldsRow(phase: Phase, id: JobId) { (phase.Selected? || phase.Finishing?) && phase.claim.id == id }

  predicate RowLocked(s: State, id: JobId) { exists w | w in s.workers :: HoldsRow(s.workers[w], id) }

  function LockedRows(s: State): set<JobId> { set id | id in s.jobs && RowLocked(s, id) }

  /** A worker that believes it has a job. */
  predicate Executing(phase: Phase) { phase.Running? || phase.Finalizing? || phase.Finishing? }

  function Commit(s: State, w: Worker, c: Claim): State
    requires c.id in s.jobs && c.id in s.history
  {
    var job, h := s.jobs[c.id], s.history[c.id];
    var taken := if job.lockedBy.Some? then 1 else 0;
    In(s, w, Running(c)).(
      jobs := s.jobs[c.id := Leased(job, w, c.until)],
      history := s.history[c.id := h.(claims := h.claims + 1, takeovers := h.takeovers + taken)])
  }

  function Conclude(s: State, w: Worker, c: Claim, d: Decision): State {
    var after := In(s, w, Idle).(jobs := Finalized(s.jobs, c.id, w, d));
    if !HeldBy(s.jobs, c.id, w) || c.id !in s.history then after
    else if d.Delete? then after.(history := s.history - {c.id})
    else
      var h := s.history[c.id];
      after.(history := s.history[c.id := h.(failures := h.failures + [d.stamp])])
  }

  /** The state after an action, if the action is possible. */
  function Next(cfg: Config, s: State, a: Action): Option<State> {
    match a
    case Tick(to) =>
      if s.clock <= to <= TIME_MAX then Some(s.(clock := to)) else None
    case Enqueue(id, queue, priority, runAt, createdAt) =>
      if id !in s.jobs && runAt <= s.clock && createdAt <= s.clock
      then Some(s.(jobs := s.jobs[id := Job(queue, priority, runAt, createdAt, 0, None, None, None)],
                   history := s.history[id := History(0, 0, [])]))
      else None
    case Capture(w, queue, timeout) =>
      if PhaseOf(s, w).Idle? then Some(In(s, w, Captured(queue, s.clock, LeaseUntil(s.clock, timeout)))) else None
    case ClaimSqlite(w, id) =>
      var phase := PhaseOf(s, w);
      if cfg.backend.Sqlite? && phase.Captured? && id in s.history && IsNext(s.jobs, phase.queue, phase.now, {}, id)
      then Some(Commit(s, w, Claim(id, s.jobs[id].retries, phase.now, phase.until)))
      else None
    case SelectPostgres(w, id) =>
      var phase := PhaseOf(s, w);
      if cfg.backend.Postgres? && phase.Captured? && IsNext(s.jobs, phase.queue, phase.now, LockedRows(s), id)
      then Some(In(s, w, Selected(Claim(id, s.jobs[id].retries, phase.now, phase.until), phase.queue)))
      else None
    case CommitPostgres(w) =>
      var phase := PhaseOf(s, w);
      if cfg.backend.Postgres? && phase.Selected? && phase.claim.id in s.jobs && phase.claim.id in s.history
      then Some(Commit(s, w, phase.claim))
      else None
    case Return(w, succeeded) =>
      var phase := PhaseOf(s, w);
      if phase.Running?
      then Some(In(s, w, Finalizing(phase.claim, Decide(succeeded, phase.claim.retries, s.clock, cfg.maxRetries))))
      else None
    case FinalizeSqlite(w) =>
      var phase := PhaseOf(s, w);
      if cfg.backend.Sqlite? && phase.Finalizing? then Some(Conclude(s, w, phase.claim, phase.decision)) else None
    case ExecutePostgres(w) =>
      var phase := PhaseOf(s, w);
      if cfg.backend.Postgres? && phase.Finalizing? && !RowLocked(s, phase.claim.id)
      then Some(In(s, w, if HeldBy(s.jobs, phase.claim.id, w) then Finishing(phase.claim, phase.decision) else Idle))
      else None
    case FinishPostgres(w) =>
      var phase := PhaseOf(s, w);
      if cfg.backend.Postgres? && phase.Finishing? then Some(Conclude(s, w, phase.claim, phase.decision)) else None
    case Abort(w) =>
      Some(In(s, w, Idle))
  }

  /** A run: all actions must be possible, each in the state the previous one left. */
  function Run(cfg: Config, s: State, actions: seq<Action>): Option<State>
    decreases |actions|
  {
    if actions == [] then Some(s)
    else
      match Next(cfg, s, actions[0])
      case None => None
      case Some(next) => Run(cfg, next, actions[1..])
  }

  // ---------------------------------------------------------------------------
  // The invariant
  // ---------------------------------------------------------------------------

  /** A job gets at least one attempt, whatever the setting. */
  function Attempts(cfg: Config): int { Max(1, cfg.maxRetries) }

  /** Each failure comes at least the backoff of its predecessor later. */
  predicate Spaced(failures: seq<Time>) {
    forall n :: 0 < n < |failures| ==> RetryTime(failures[n - 1], n - 1) <= failures[n]
  }

  predicate JobOk(cfg: Config, job: Job, h: History) {
    && (job.lockedUntil.Some? <==> job.lockedBy.Some?)
    && |h.failures| == job.retries && Spaced(h.failures)
    && h.claims == |h.failures| + h.takeovers + (if job.lockedBy.Some? then 1 else 0)
    && (if job.failedAt.Some?
        then job.lockedBy.None? && job.retries == Attempts(cfg) && job.failedAt.value == h.failures[job.retries - 1]
        else job.retries < Attempts(cfg))
    && (job.failedAt.None? && job.retries > 0 ==> job.runAt == RetryTime(h.failures[job.retries - 1], job.retries - 1))
    && (job.lockedUntil.Some? ==> job.runAt <= job.lockedUntil.value)
    && job.runAt <= TIME_MAX
  }

  /** While the row carries the worker's name it carries exactly this claim, and it does so for as long
      as the lease runs. */
  predicate ClaimOk(s: State, w: Worker, c: Claim) {
    && c.now <= s.clock && c.now <= c.until
    && (HeldBy(s.jobs, c.id, w) ==>
          var job := s.jobs[c.id];
          job.lockedUntil == Some(c.until) && job.retries == c.retries && job.failedAt.None? && job.runAt <= c.now)
    && (s.clock <= c.until ==> HeldBy(s.jobs, c.id, w))
  }

  predicate DecisionOk(cfg: Config, s: State, c: Claim, d: Decision) {
    match d
    case Delete => true
    case Retry(stamp, runAt) =>
        c.now <= stamp <= s.clock && c.retries + 1 < cfg.maxRetries && runAt == RetryTime(stamp, c.retries)
    case Dead(stamp) => c.now <= stamp <= s.clock && c.retries + 1 >= cfg.maxRetries
  }

  predicate WorkerOk(cfg: Config, s: State, w: Worker, phase: Phase) {
    match phase
    case Idle => true
    case Captured(_, now, until) => now <= s.clock && now <= until
    case Selected(c, queue) =>
      && cfg.backend.Postgres?
      && c.now <= s.clock && c.now <= c.until
      && c.id in s.jobs && Claimable(s.jobs[c.id], queue, c.now) && s.jobs[c.id].retries == c.retries
    case Running(c) => ClaimOk(s, w, c)
    case Finalizing(c, d) => ClaimOk(s, w, c) && DecisionOk(cfg, s, c, d)
    case Finishing(c, d) =>
        cfg.backend.Postgres? && ClaimOk(s, w, c) && DecisionOk(cfg, s, c, d) && HeldBy(s.jobs, c.id, w)
  }

  ghost predicate LocksExclusive(s: State) {
    forall v, w, id | v in s.workers && w in s.workers && HoldsRow(s.workers[v], id) && HoldsRow(s.workers[w], id)
      :: v == w
  }

  ghost predicate Inv(cfg: Config, s: State) {
    && s.clock <= TIME_MAX
    && s.jobs.Keys == s.history.Keys
    && (forall id | id in s.jobs :: JobOk(cfg, s.jobs[id], s.history[id]))
    && (forall w | w in s.workers :: WorkerOk(cfg, s, w, s.workers[w]))
    && LocksExclusive(s)
  }

  // ---------------------------------------------------------------------------
  // Preservation, action by action
  // ---------------------------------------------------------------------------

  lemma TickKeepsInv(cfg: Config, s: State, to: Time)
    requires Inv(cfg, s) && s.clock <= to <= TIME_MAX
    ensures Inv(cfg, s.(clock := to))
  {
    var s' := s.(clock := to);
    forall w | w in s'.workers ensures WorkerOk(cfg, s', w, s'.workers[w]) {
      assert WorkerOk(cfg, s, w, s.workers[w]);
    }
  }

  lemma EnqueueKeepsInv(cfg: Config, s: State, a: Action)
    requires Inv(cfg, s) && a.Enqueue? && Next(cfg, s, a).Some?
    ensures Inv(cfg, Next(cfg, s, a).value)
  {
    var s' := Next(cfg, s, a).value;
    forall w | w in s'.workers ensures WorkerOk(cfg, s', w, s'.workers[w]) {
      assert WorkerOk(cfg, s, w, s.workers[w]);
    }
  }

  /** A worker that takes no lock and changes no row only has to be in order itself. */
  lemma PhaseChangeKeepsInv(cfg: Config, s: State, w: Worker, phase: Phase)
    requires Inv(cfg, s) && WorkerOk(cfg, s, w, phase)
    requires forall id :: HoldsRow(phase, id) ==> !RowLocked(s, id)
    ensures Inv(cfg, In(s, w, phase))
  {
    var s' := In(s, w, phase);
    forall v | v in s'.workers ensures WorkerOk(cfg, s', v, s'.workers[v]) {
      if v != w { assert WorkerOk(cfg, s, v, s.workers[v]); }
    }
  }

  /** What a committed claim means to another worker: if the row was its own, its lease has run out. */
  lemma CommitKeepsOthers(cfg: Config, s: State, w: Worker, c: Claim, queue: string, v: Worker)
    requires Inv(cfg, s) && v in s.workers && v != w && !HoldsRow(s.workers[v], c.id)
    requires c.id in s.jobs && Claimable(s.jobs[c.id], queue, c.now) && c.now <= s.clock
    ensures WorkerOk(cfg, Commit(s, w, c), v, s.workers[v])
  {
    hide Spaced, LocksExclusive, RetryTime, Decide;
    assert WorkerOk(cfg, s, v, s.workers[v]);
    assert JobOk(cfg, s.jobs[c.id], s.history[c.id]);
  }

  lemma CommitKeepsJobs(cfg: Config, s: State, w: Worker, c: Claim, queue: string, id: JobId)
    requires c.id in s.jobs && c.id in s.history && id in s.jobs && id in s.history
    requires JobOk(cfg, s.jobs[id], s.history[id])
    requires Claimable(s.jobs[c.id], queue, c.now) && c.now <= c.until
    ensures JobOk(cfg, Commit(s, w, c).jobs[id], Commit(s, w, c).history[id])
  {
    hide Spaced, RetryTime;
  }

  lemma ClaimerIsOk(cfg: Config, s: State, w: Worker, c: Claim, queue: string)
    requires c.id in s.jobs && c.id in s.history && JobOk(cfg, s.jobs[c.id], s.history[c.id])
    requires Claimable(s.jobs[c.id], queue, c.now) && s.jobs[c.id].retries == c.retries && c.now <= s.clock
    requires c.now <= c.until
    ensures ClaimOk(Commit(s, w, c), w, c)
  {
    hide Spaced, RetryTime;
  }

  /** Committing a claim on a row nobody else has locked. */
  lemma CommitKeepsInv(cfg: Config, s: State, w: Worker, c: Claim, queue: string)
    requires Inv(cfg, s) && !Executing(PhaseOf(s, w))
    requires c.id in s.jobs && Claimable(s.jobs[c.id], queue, c.now) && s.jobs[c.id].retries == c.retries
    requires c.now <= s.clock && c.now <= c.until
    requires forall v | v in s.workers && v != w :: !HoldsRow(s.workers[v], c.id)
    ensures Inv(cfg, Commit(s, w, c))
  {
    hide JobOk, DecisionOk;
    var s' := Commit(s, w, c);
    forall v | v in s'.workers ensures WorkerOk(cfg, s', v, s'.workers[v]) {
      if v == w { ClaimerIsOk(cfg, s, w, c, queue); } else { CommitKeepsOthers(cfg, s, w, c, queue, v); }
    }
    forall id | id in s'.jobs ensures JobOk(cfg, s'.jobs[id], s'.history[id]) {
      CommitKeepsJobs(cfg, s, w, c, queue, id);
    }
  }

  lemma SpacedAppend(failures: seq<Time>, stamp: Time)
    requires Spaced(failures) && (failures != [] ==> RetryTime(failures[|failures| - 1], |failures| - 1) <= stamp)
    ensures Spaced(failures + [stamp])
  {
    hide RetryTime;
    var all := failures + [stamp];
    forall n | 0 < n < |all| ensures RetryTime(all[n - 1], n - 1) <= all[n] {
      if n < |failures| { assert all[n - 1] == failures[n - 1] && all[n] == failures[n]; }
    }
  }

  lemma RetryTimeIsBounded(now: Time, retries: int)
    ensures RetryTime(now, retries) <= TIME_MAX
  {
  }

  /** The row after an effective failure: one more retry, spaced from the last, and dead at the limit. */
  lemma FailedJobOk(cfg: Config, s: State, w: Worker, c: Claim, d: Decision)
    requires HeldBy(s.jobs, c.id, w) && c.id in s.history && JobOk(cfg, s.jobs[c.id], s.history[c.id])
    requires ClaimOk(s, w, c) && DecisionOk(cfg, s, c, d) && !d.Delete?
    ensures var s' := Conclude(s, w, c, d);
            c.id in s'.jobs && c.id in s'.history && JobOk(cfg, s'.jobs[c.id], s'.history[c.id])
  {
    hide RetryTime, Spaced;
    SpacedAppend(s.history[c.id].failures, d.stamp);
    RetryTimeIsBounded(d.stamp, c.retries);
  }

  lemma ConcludeKeepsWorkers(cfg: Config, s: State, w: Worker, c: Claim, d: Decision, v: Worker)
    requires Inv(cfg, s) && v in s.workers && v != w
    requires !HoldsRow(s.workers[v], c.id) || !HeldBy(s.jobs, c.id, w)
    ensures WorkerOk(cfg, Conclude(s, w, c, d), v, s.workers[v])
  {
    hide JobOk, LocksExclusive, RetryTime, Decide;
    assert WorkerOk(cfg, s, v, s.workers[v]);
  }

  lemma ConcludeKeepsJobs(cfg: Config, s: State, w: Worker, c: Claim, d: Decision, id: JobId)
    requires s.jobs.Keys == s.history.Keys && id in Conclude(s, w, c, d).jobs && JobOk(cfg, s.jobs[id], s.history[id])
    requires ClaimOk(s, w, c) && DecisionOk(cfg, s, c, d)
    ensures JobOk(cfg, Conclude(s, w, c, d).jobs[id], Conclude(s, w, c, d).history[id])
  {
    if id == c.id && HeldBy(s.jobs, c.id, w) && !d.Delete? {
      FailedJobOk(cfg, s, w, c, d);
    } else {
      var s' := Conclude(s, w, c, d);
      assert s'.jobs[id] == s.jobs[id] && s'.history[id] == s.history[id];
    }
  }

  /** Concluding, whether or not the row is still held. */
  lemma ConcludeKeepsInv(cfg: Config, s: State, w: Worker, c: Claim, d: Decision)
    requires Inv(cfg, s) && ClaimOk(s, w, c) && DecisionOk(cfg, s, c, d)
    requires forall v | v in s.workers && v != w :: !HoldsRow(s.workers[v], c.id) || !HeldBy(s.jobs, c.id, w)
    ensures Inv(cfg, Conclude(s, w, c, d))
  {
    hide JobOk, ClaimOk, DecisionOk;
    var s' := Conclude(s, w, c, d);
    forall v | v in s'.workers ensures WorkerOk(cfg, s', v, s'.workers[v]) {
      if v != w { ConcludeKeepsWorkers(cfg, s, w, c, d, v); }
    }
    assert s'.jobs.Keys == s'.history.Keys;
    forall id | id in s'.jobs ensures JobOk(cfg, s'.jobs[id], s'.history[id]) {
      ConcludeKeepsJobs(cfg, s, w, c, d, id);
    }
  }

  lemma ClaimKeepsInv(cfg: Config, s: State, a: Action)
    requires Inv(cfg, s) && Next(cfg, s, a).Some? && (a.ClaimSqlite? || a.SelectPostgres?)
    ensures Inv(cfg, Next(cfg, s, a).value)
  {
    var w, id, phase := a.worker, a.id, PhaseOf(s, a.worker);
    assert WorkerOk(cfg, s, w, phase);
    var c := Claim(id, s.jobs[id].retries, phase.now, phase.until);
    if a.ClaimSqlite? {
      forall v | v in s.workers ensures !HoldsRow(s.workers[v], id) { assert WorkerOk(cfg, s, v, s.workers[v]); }
      CommitKeepsInv(cfg, s, w, c, phase.queue);
    } else {
      PhaseChangeKeepsInv(cfg, s, w, Selected(c, phase.queue));
    }
  }

  lemma CommitOfSelectedKeepsInv(cfg: Config, s: State, w: Worker)
    requires Inv(cfg, s) && Next(cfg, s, CommitPostgres(w)).Some?
    ensures Inv(cfg, Next(cfg, s, CommitPostgres(w)).value)
  {
    var phase := PhaseOf(s, w);
    assert WorkerOk(cfg, s, w, phase) && HoldsRow(phase, phase.claim.id);
    CommitKeepsInv(cfg, s, w, phase.claim, phase.queue);
  }

  lemma FinalizationKeepsInv(cfg: Config, s: State, a: Action)
    requires Inv(cfg, s) && Next(cfg, s, a).Some? && (a.FinalizeSqlite? || a.FinishPostgres?)
    ensures Inv(cfg, Next(cfg, s, a).value)
  {
    var w, phase := a.worker, PhaseOf(s, a.worker);
    assert WorkerOk(cfg, s, w, phase);
    forall v | v in s.workers && v != w ensures !HoldsRow(s.workers[v], phase.claim.id) {
      assert WorkerOk(cfg, s, v, s.workers[v]);
      if a.FinishPostgres? { assert HoldsRow(phase, phase.claim.id); }
    }
    ConcludeKeepsInv(cfg, s, w, phase.claim, phase.decision);
  }

  lemma ExecuteKeepsInv(cfg: Config, s: State, w: Worker)
    requires Inv(cfg, s) && Next(cfg, s, ExecutePostgres(w)).Some?
    ensures Inv(cfg, Next(cfg, s, ExecutePostgres(w)).value)
  {
    var phase := PhaseOf(s, w);
    assert WorkerOk(cfg, s, w, phase);
    PhaseChangeKeepsInv(cfg, s, w,
        if HeldBy(s.jobs, phase.claim.id, w) then Finishing(phase.claim, phase.decision) else Idle);
  }

  lemma ReturnKeepsInv(cfg: Config, s: State, w: Worker, succeeded: bool)
    requires Inv(cfg, s) && Next(cfg, s, Return(w, succeeded)).Some?
    ensures Inv(cfg, Next(cfg, s, Return(w, succeeded)).value)
  {
    var phase := PhaseOf(s, w);
    assert WorkerOk(cfg, s, w, phase);
    PhaseChangeKeepsInv(cfg, s, w,
        Finalizing(phase.claim, Decide(succeeded, phase.claim.retries, s.clock, cfg.maxRetries)));
  }

  /** The invariant holds in every reachable state: each action keeps it. */
  lemma NextKeepsInv(cfg: Config, s: State, a: Action)
    requires Inv(cfg, s) && Next(cfg, s, a).Some?
    ensures Inv(cfg, Next(cfg, s, a).value)
  {
    match a
    case Tick(to) => TickKeepsInv(cfg, s, to);
    case Enqueue(_, _, _, _, _) => EnqueueKeepsInv(cfg, s, a);
    case Capture(w, queue, timeout) =>
        PhaseChangeKeepsInv(cfg, s, w, Captured(queue, s.clock, LeaseUntil(s.clock, timeout)));
    case ClaimSqlite(_, _) => ClaimKeepsInv(cfg, s, a);
    case SelectPostgres(_, _) => ClaimKeepsInv(cfg, s, a);
    case CommitPostgres(w) => CommitOfSelectedKeepsInv(cfg, s, w);
    case Return(w, succeeded) => ReturnKeepsInv(cfg, s, w, succeeded);
    case FinalizeSqlite(_) => FinalizationKeepsInv(cfg, s, a);
    case ExecutePostgres(w) => ExecuteKeepsInv(cfg, s, w);
    case FinishPostgres(_) => FinalizationKeepsInv(cfg, s, a);
    case Abort(w) => PhaseChangeKeepsInv(cfg, s, w, Idle);
  }

  lemma {:induction false} RunKeepsInv(cfg: Config, s: State, actions: seq<Action>)
    requires Inv(cfg, s) && Run(cfg, s, actions).Some?
    ensures Inv(cfg, Run(cfg, s, actions).value)
    decreases |actions|
  {
    if actions != [] {
      NextKeepsInv(cfg, s, actions[0]);
      RunKeepsInv(cfg, Next(cfg, s, actions[0]).value, actions[1..]);
    }
  }

  /** The states some run from an empty table reaches. */
  ghost predicate Reachable(cfg: Config, s: State) {
    exists actions :: Run(cfg, INITIAL, actions) == Some(s)
  }

  lemma ReachableStatesAreOk(cfg: Config, s: State)
    requires Reachable(cfg, s)
    ensures Inv(cfg, s)
  {
    var actions :| Run(cfg, INITIAL, actions) == Some(s);
    RunKeepsInv(cfg, INITIAL, actions);
  }
}
