/** No job is stranded: whatever has happened, every live job can still be brought to completion. */
module JobProgress {
  import opened Wrappers
  import opened JobQueue
  import opened JobMachine
  import opened JobProperties

  lemma {:induction false} RunAppend(cfg: Config, s: State, a: seq<Action>, b: seq<Action>)
    requires Run(cfg, s, a).Some?
    ensures Run(cfg, s, a + b) == Run(cfg, Run(cfg, s, a).value, b)
    decreases |a|
  {
    if a == [] {
      assert a + b == b;
    } else {
      assert (a + b)[1..] == a[1..] + b;
      RunAppend(cfg, Next(cfg, s, a[0]).value, a[1..], b);
    }
  }

  lemma RunOne(cfg: Config, s: State, a: Action)
    ensures Run(cfg, s, [a]) == Next(cfg, s, a)
  {
    assert [a][1..] == [];
  }

  predicate AllIdle(s: State) { forall w | w in s.workers :: s.workers[w].Idle? }

  /** Any set of workers can be shut down, leaving the rows as they are. */
  lemma {:induction false} ShutDown(cfg: Config, s: State, ws: set<Worker>) returns (actions: seq<Action>)
    requires ws <= s.workers.Keys
    ensures var r := Run(cfg, s, actions);
            && r.Some? && r.value == s.(workers := r.value.workers) && r.value.workers.Keys == s.workers.Keys
            && (forall w | w in ws :: r.value.workers[w].Idle?)
            && (forall w | w in s.workers && w !in ws :: r.value.workers[w] == s.workers[w])
    decreases ws
  {
    if ws == {} { return []; }
    var w :| w in ws;
    var next := In(s, w, Idle);
    var rest := ShutDown(cfg, next, ws - {w});
    actions := [Abort(w)] + rest;
    assert actions[1..] == rest;
    assert Next(cfg, s, actions[0]) == Some(next);
  }

  lemma PrecedesIsTransitive(a: Job, b: Job, c: Job)
    requires Precedes(a, b) && Precedes(b, c)
    ensures Precedes(a, c)
  {
  }

  /** Among finitely many rows there is one no other precedes. */
  lemma {:induction false} FirstOf(jobs: Jobs, ids: set<JobId>) returns (first: JobId)
    requires ids != {} && ids <= jobs.Keys
    ensures first in ids && forall id | id in ids :: !Precedes(jobs[id], jobs[first])
    decreases ids
  {
    var x :| x in ids;
    if ids == {x} { return x; }
    first := FirstOf(jobs, ids - {x});
    if Precedes(jobs[x], jobs[first]) {
      forall id | id in ids && Precedes(jobs[id], jobs[x]) ensures id == x {
        PrecedesIsTransitive(jobs[id], jobs[x], jobs[first]);
      }
      first := x;
    }
  }

  lemma RunTwo(cfg: Config, s: State, a: Action, b: Action)
    requires Next(cfg, s, a).Some?
    ensures Run(cfg, s, [a, b]) == Next(cfg, Next(cfg, s, a).value, b)
  {
    assert [a, b][1..] == [b];
    RunOne(cfg, Next(cfg, s, a).value, b);
  }

  function ClaimNow(s: State, id: JobId, timeout: nat): Claim
    requires id in s.jobs
  {
    Claim(id, s.jobs[id].retries, s.clock, LeaseUntil(s.clock, timeout))
  }

  lemma CommitForgetsPhase(s: State, w: Worker, phase: Phase, c: Claim)
    requires c.id in s.jobs && c.id in s.history
    ensures Commit(In(s, w, phase), w, c) == Commit(s, w, c)
  {
    assert s.workers[w := phase][w := Running(c)] == s.workers[w := Running(c)];
  }

  lemma ClaimAloneOnSqlite(cfg: Config, s: State, w: Worker, queue: string, id: JobId, timeout: nat)
    requires cfg.backend.Sqlite? && AllIdle(s) && id in s.history && IsNext(s.jobs, queue, s.clock, {}, id)
    ensures Run(cfg, s, [Capture(w, queue, timeout), ClaimSqlite(w, id)])
         == Some(Commit(s, w, ClaimNow(s, id, timeout)))
  {
    var c := ClaimNow(s, id, timeout);
    var captured := In(s, w, Captured(queue, c.now, c.until));
    RunTwo(cfg, s, Capture(w, queue, timeout), ClaimSqlite(w, id));
    assert Next(cfg, s, Capture(w, queue, timeout)) == Some(captured);
    assert Next(cfg, captured, ClaimSqlite(w, id)) == Some(Commit(captured, w, c));
    CommitForgetsPhase(s, w, Captured(queue, c.now, c.until), c);
  }

  lemma SelectAlone(cfg: Config, s: State, w: Worker, queue: string, id: JobId, timeout: nat)
    requires cfg.backend.Postgres? && AllIdle(s) && IsNext(s.jobs, queue, s.clock, {}, id)
    ensures Run(cfg, s, [Capture(w, queue, timeout), SelectPostgres(w, id)])
         == Some(In(s, w, Selected(ClaimNow(s, id, timeout), queue)))
  {
    var c := ClaimNow(s, id, timeout);
    var captured := In(s, w, Captured(queue, c.now, c.until));
    RunTwo(cfg, s, Capture(w, queue, timeout), SelectPostgres(w, id));
    assert Next(cfg, s, Capture(w, queue, timeout)) == Some(captured);
    assert LockedRows(captured) == {};
    assert s.workers[w := captured.workers[w]][w := Selected(c, queue)] == s.workers[w := Selected(c, queue)];
  }

  lemma ClaimAloneOnPostgres(cfg: Config, s: State, w: Worker, queue: string, id: JobId, timeout: nat)
    requires cfg.backend.Postgres? && AllIdle(s) && id in s.history && IsNext(s.jobs, queue, s.clock, {}, id)
    ensures Run(cfg, s, [Capture(w, queue, timeout), SelectPostgres(w, id)] + [CommitPostgres(w)])
         == Some(Commit(s, w, ClaimNow(s, id, timeout)))
  {
    var c := ClaimNow(s, id, timeout);
    var selected := In(s, w, Selected(c, queue));
    SelectAlone(cfg, s, w, queue, id, timeout);
    RunOne(cfg, selected, CommitPostgres(w));
    RunAppend(cfg, s, [Capture(w, queue, timeout), SelectPostgres(w, id)], [CommitPostgres(w)]);
    CommitForgetsPhase(s, w, Selected(c, queue), c);
  }

  /** One worker alone claims the next row. */
  lemma ClaimAlone(
      cfg: Config, s: State, w: Worker, queue: string, id: JobId, timeout: nat) returns (actions: seq<Action>)
    requires Inv(cfg, s) && AllIdle(s) && IsNext(s.jobs, queue, s.clock, {}, id)
    ensures Run(cfg, s, actions) == Some(Commit(s, w, ClaimNow(s, id, timeout)))
  {
    if cfg.backend.Sqlite? {
      ClaimAloneOnSqlite(cfg, s, w, queue, id, timeout);
      actions := [Capture(w, queue, timeout), ClaimSqlite(w, id)];
    } else {
      ClaimAloneOnPostgres(cfg, s, w, queue, id, timeout);
      actions := [Capture(w, queue, timeout), SelectPostgres(w, id)] + [CommitPostgres(w)];
    }
  }

  /** A worker that is alone and holds its row finishes it. */
  lemma FinishAlone(cfg: Config, s: State, w: Worker, c: Claim) returns (actions: seq<Action>)
    requires PhaseOf(s, w) == Running(c) && HeldBy(s.jobs, c.id, w)
    requires forall v | v in s.workers && v != w :: s.workers[v].Idle?
    ensures var r := Run(cfg, s, actions);
            r.Some? && r.value.jobs == s.jobs - {c.id} && r.value.clock == s.clock && AllIdle(r.value)
  {
    var returned := In(s, w, Finalizing(c, Delete));
    RunOne(cfg, s, Return(w, true));
    if cfg.backend.Sqlite? {
      RunOne(cfg, returned, FinalizeSqlite(w));
      RunAppend(cfg, s, [Return(w, true)], [FinalizeSqlite(w)]);
      actions := [Return(w, true)] + [FinalizeSqlite(w)];
    } else {
      RunTwo(cfg, returned, ExecutePostgres(w), FinishPostgres(w));
      RunAppend(cfg, s, [Return(w, true)], [ExecutePostgres(w), FinishPostgres(w)]);
      actions := [Return(w, true)] + [ExecutePostgres(w), FinishPostgres(w)];
    }
  }

  lemma ProcessNext(cfg: Config, s: State, w: Worker, queue: string, id: JobId) returns (actions: seq<Action>)
    requires Inv(cfg, s) && AllIdle(s) && IsNext(s.jobs, queue, s.clock, {}, id)
    ensures var r := Run(cfg, s, actions);
            r.Some? && r.value.jobs == s.jobs - {id} && r.value.clock == s.clock && AllIdle(r.value)
  {
    var c := ClaimNow(s, id, 0);
    var claim := ClaimAlone(cfg, s, w, queue, id, 0);
    var claimed := Commit(s, w, c);
    var finish := FinishAlone(cfg, claimed, w, c);
    RunAppend(cfg, s, claim, finish);
    actions := claim + finish;
    assert claimed.jobs - {id} == s.jobs - {id};
  }

  /** The rows of the target's queue that are finished before it leaves, and the ones still due after:
      what remains due does not come before the target, what went did not come after it. */
  ghost predicate DrainedTo(before: Jobs, after: Jobs, id: JobId, clock: Time)
    requires id in before
  {
    && id !in after && after.Keys <= before.Keys
    && (forall o | o in after :: after[o] == before[o])
    && (forall o | o in before && o !in after ::
          Claimable(before[o], before[id].queue, clock) && !Precedes(before[id], before[o]))
    && (forall o | o in after && Claimable(after[o], before[id].queue, clock) :: !Precedes(after[o], before[id]))
  }

  lemma DrainStep(before: Jobs, after: Jobs, first: JobId, id: JobId, clock: Time)
    requires id in before && first in before && first != id && DrainedTo(before - {first}, after, id, clock)
    requires Claimable(before[first], before[id].queue, clock) && !Precedes(before[id], before[first])
    ensures DrainedTo(before, after, id, clock)
  {
    hide Claimable, Precedes;
    var next := before - {first};
    assert forall o | o in next :: next[o] == before[o];
  }

  /** A lone worker finishes due rows in order: exactly those that come before the target are sure to go
      first, and none that comes after it goes. */
  lemma {:induction false} DrainUntil(cfg: Config, s: State, w: Worker, id: JobId) returns (actions: seq<Action>)
    requires Inv(cfg, s) && AllIdle(s) && id in s.jobs && Claimable(s.jobs[id], s.jobs[id].queue, s.clock)
    ensures Run(cfg, s, actions).Some? && DrainedTo(s.jobs, Run(cfg, s, actions).value.jobs, id, s.clock)
    decreases |s.jobs|
  {
    hide Inv, Precedes, Claimable, Run;
    var queue := s.jobs[id].queue;
    var due := set other | other in s.jobs && Claimable(s.jobs[other], queue, s.clock);
    assert id in due;
    var first := FirstOf(s.jobs, due);
    actions := ProcessNext(cfg, s, w, queue, first);
    if first != id {
      RunKeepsInv(cfg, s, actions);
      var next := Run(cfg, s, actions).value;
      assert s.jobs.Keys - {first} == next.jobs.Keys;
      assert |s.jobs.Keys - {first}| < |s.jobs.Keys|;
      assert next.jobs[id] == s.jobs[id];
      var rest := DrainUntil(cfg, next, w, id);
      DrainStep(s.jobs, Run(cfg, next, rest).value.jobs, first, id, s.clock);
      RunAppend(cfg, s, actions, rest);
      actions := actions + rest;
    }
  }

  // ---------------------------------------------------------------------------
  // Which jobs can still finish
  // ---------------------------------------------------------------------------

  /** The worker executes this row's claim, and has not decided to give the job up. */
  predicate Promising(phase: Phase, id: JobId) {
    Executing(phase) && phase.claim.id == id && (phase.Running? || !phase.decision.Dead?)
  }

  /** A live row that is free, or whose lease will end, or whose holder may still finish it.  Only the
      lease reaching to the last representable instant never ends: no clock can pass it. */
  predicate CanFinish(s: State, id: JobId)
    requires id in s.jobs
  {
    var job := s.jobs[id];
    && job.failedAt.None?
    && (job.lockedUntil.None? || job.lockedBy.None?
        || job.lockedUntil.value < TIME_MAX || Promising(PhaseOf(s, job.lockedBy.value), id))
  }

  /** After everyone has been shut down and the clock has moved to its end, a row without a lease to
      the end is due, and its turn comes. */
  lemma LeaseEnds(cfg: Config, s: State, id: JobId) returns (actions: seq<Action>)
    requires Inv(cfg, s) && id in s.jobs && s.jobs[id].failedAt.None?
    requires s.jobs[id].lockedUntil.Some? ==> s.jobs[id].lockedUntil.value < TIME_MAX
    ensures Run(cfg, s, actions).Some? && id !in Run(cfg, s, actions).value.jobs
  {
    assert JobOk(cfg, s.jobs[id], s.history[id]);
    var stop := ShutDown(cfg, s, s.workers.Keys);
    var idle := Run(cfg, s, stop).value;
    var late := idle.(clock := TIME_MAX);
    RunOne(cfg, idle, Tick(TIME_MAX));
    RunAppend(cfg, s, stop, [Tick(TIME_MAX)]);
    RunKeepsInv(cfg, s, stop + [Tick(TIME_MAX)]);
    var rest := DrainUntil(cfg, late, "worker", id);
    RunAppend(cfg, s, stop + [Tick(TIME_MAX)], rest);
    actions := stop + [Tick(TIME_MAX)] + rest;
  }

  lemma ConcludeForgetsPhase(s: State, w: Worker, phase: Phase, c: Claim, d: Decision)
    ensures Conclude(In(s, w, phase), w, c, d) == Conclude(s, w, c, d)
  {
    assert s.workers[w := phase][w := Idle] == s.workers[w := Idle];
  }

  /** A worker that is alone carries out the finalization it has decided on. */
  lemma ConcludeAlone(cfg: Config, s: State, w: Worker, c: Claim, d: Decision) returns (actions: seq<Action>)
    requires Inv(cfg, s) && HeldBy(s.jobs, c.id, w) && forall v | v in s.workers && v != w :: s.workers[v].Idle?
    requires PhaseOf(s, w) == Finalizing(c, d) || PhaseOf(s, w) == Finishing(c, d)
    ensures Run(cfg, s, actions) == Some(Conclude(s, w, c, d))
  {
    hide JobOk, LocksExclusive, Finalized, Conclude, ClaimOk, DecisionOk, Decide, IsNext, LockedRows, Commit;
    assert WorkerOk(cfg, s, w, s.workers[w]);
    if cfg.backend.Sqlite? {
      actions := [FinalizeSqlite(w)];
      RunOne(cfg, s, FinalizeSqlite(w));
    } else if PhaseOf(s, w).Finishing? {
      actions := [FinishPostgres(w)];
      RunOne(cfg, s, FinishPostgres(w));
    } else {
      actions := [ExecutePostgres(w), FinishPostgres(w)];
      var changed := In(s, w, Finishing(c, d));
      assert Next(cfg, s, ExecutePostgres(w)) == Some(changed);
      RunTwo(cfg, s, ExecutePostgres(w), FinishPostgres(w));
      ConcludeForgetsPhase(s, w, Finishing(c, d), c, d);
    }
  }

  /** A holder that has not given the job up can finish it now, or release it for a later attempt. */
  lemma HolderFinishes(cfg: Config, s: State, id: JobId, w: Worker) returns (actions: seq<Action>)
    requires Inv(cfg, s) && HeldBy(s.jobs, id, w) && Promising(PhaseOf(s, w), id)
    ensures Run(cfg, s, actions).Some? && id !in Run(cfg, s, actions).value.jobs
  {
    assert WorkerOk(cfg, s, w, s.workers[w]);
    var phase := PhaseOf(s, w);
    var stop := ShutDown(cfg, s, s.workers.Keys - {w});
    var alone := Run(cfg, s, stop).value;
    RunKeepsInv(cfg, s, stop);
    var finish: seq<Action>;
    if phase.Running? {
      finish := FinishAlone(cfg, alone, w, phase.claim);
    } else {
      finish := ConcludeAlone(cfg, alone, w, phase.claim, phase.decision);
      if phase.decision.Retry? {
        var released := Run(cfg, alone, finish).value;
        RunKeepsInv(cfg, alone, finish);
        var rest := LeaseEnds(cfg, released, id);
        RunAppend(cfg, alone, finish, rest);
        finish := finish + rest;
      }
    }
    RunAppend(cfg, s, stop, finish);
    actions := stop + finish;
  }

  /** What no action changes: a row that cannot finish stays on the table and stays so. */
  lemma StuckStep(cfg: Config, s: State, a: Action, id: JobId)
    requires Inv(cfg, s) && id in s.jobs && !CanFinish(s, id) && Next(cfg, s, a).Some?
    ensures id in Next(cfg, s, a).value.jobs && !CanFinish(Next(cfg, s, a).value, id)
  {
    if s.jobs[id].failedAt.Some? {
      DeadStep(cfg, s, a, id);
    } else {
      LastLeaseIsNotClaimable(cfg, s, id);
      assert a.CommitPostgres? && PhaseOf(s, a.worker).Selected? ==> WorkerOk(cfg, s, a.worker, PhaseOf(s, a.worker));
      assert a.ClaimSqlite? && PhaseOf(s, a.worker).Captured? ==> WorkerOk(cfg, s, a.worker, PhaseOf(s, a.worker));
      LeaseStuckStep(cfg, s, a, id);
    }
  }

  lemma LeaseStuckStep(cfg: Config, s: State, a: Action, id: JobId)
    requires id in s.jobs && !CanFinish(s, id) && s.jobs[id].failedAt.None? && Next(cfg, s, a).Some?
    requires forall queue: string, now: Time | now <= s.clock :: !Claimable(s.jobs[id], queue, now)
    requires a.CommitPostgres? && PhaseOf(s, a.worker).Selected? ==> WorkerOk(cfg, s, a.worker, PhaseOf(s, a.worker))
    requires a.ClaimSqlite? && PhaseOf(s, a.worker).Captured? ==> WorkerOk(cfg, s, a.worker, PhaseOf(s, a.worker))
    ensures id in Next(cfg, s, a).value.jobs && !CanFinish(Next(cfg, s, a).value, id)
  {
    hide LockedRows, RowLocked, Decide, Precedes, RetryTime, LeaseUntil, ClaimOk, DecisionOk;
  }

  lemma LastLeaseIsNotClaimable(cfg: Config, s: State, id: JobId)
    requires Inv(cfg, s) && id in s.jobs && s.jobs[id].lockedUntil.Some? && s.jobs[id].lockedUntil.value >= TIME_MAX
    ensures forall queue: string, now: Time | now <= s.clock :: !Claimable(s.jobs[id], queue, now)
  {
  }

  lemma {:induction false} StuckForever(cfg: Config, s: State, actions: seq<Action>, id: JobId)
    requires Inv(cfg, s) && id in s.jobs && !CanFinish(s, id) && Run(cfg, s, actions).Some?
    ensures id in Run(cfg, s, actions).value.jobs
    decreases |actions|
  {
    if actions != [] {
      StuckStep(cfg, s, actions[0], id);
      NextKeepsInv(cfg, s, actions[0]);
      StuckForever(cfg, Next(cfg, s, actions[0]).value, actions[1..], id);
    }
  }

  /** Such a live row can arise: leased for as long as the clock can run, by a worker that then crashes. */
  lemma StuckLiveRowIsReachable(cfg: Config) returns (s: State)
    ensures Reachable(cfg, s) && 1 in s.jobs && s.jobs[1].failedAt.None? && !CanFinish(s, 1)
  {
    var enqueue := Enqueue(1, "q", 0, 0, 0);
    var enqueued := Next(cfg, INITIAL, enqueue).value;
    NextKeepsInv(cfg, INITIAL, enqueue);
    RunOne(cfg, INITIAL, enqueue);
    var claim := ClaimAlone(cfg, enqueued, "w", "q", 1, TIME_MAX);
    RunAppend(cfg, INITIAL, [enqueue], claim);
    var claimed := Commit(enqueued, "w", ClaimNow(enqueued, 1, TIME_MAX));
    RunOne(cfg, claimed, Abort("w"));
    RunAppend(cfg, INITIAL, [enqueue] + claim, [Abort("w")]);
    s := In(claimed, "w", Idle);
  }

  /** From every reachable state, whatever has crashed and whoever holds what: some continuation takes a
      job off the table, which happens only by success, if and only if it is live and free, or
      its lease ends before the last instant, or its holder is still at work on it. */
  lemma EveryJobCanStillFinish(cfg: Config, s: State, id: JobId)
    requires Reachable(cfg, s) && id in s.jobs
    ensures (exists actions :: Run(cfg, s, actions).Some? && id !in Run(cfg, s, actions).value.jobs)
            <==> CanFinish(s, id)
  {
    ReachableStatesAreOk(cfg, s);
    assert JobOk(cfg, s.jobs[id], s.history[id]);
    if CanFinish(s, id) {
      var job := s.jobs[id];
      var actions;
      if job.lockedUntil.Some? && job.lockedUntil.value >= TIME_MAX {
        actions := HolderFinishes(cfg, s, id, job.lockedBy.value);
      } else {
        actions := LeaseEnds(cfg, s, id);
      }
      assert Run(cfg, s, actions).Some?;
    } else {
      forall actions | Run(cfg, s, actions).Some? ensures id in Run(cfg, s, actions).value.jobs {
        StuckForever(cfg, s, actions, id);
      }
    }
  }
}
