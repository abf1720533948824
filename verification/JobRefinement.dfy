/** The two-statement PostgreSQL protocol does what single atomic statements would do. */
module JobRefinement {
  import opened Wrappers
  import opened JobQueue
  import opened JobMachine
  import opened JobProperties

  /** What a SELECT ... FOR UPDATE SKIP LOCKED saw: the committed rows, and the ones it passed over. */
  datatype View = View(jobs: Jobs, locked: set<JobId>)

  /** The machine without open transactions: a claim and a finalization are one step each.  A claim
      picks the first row of its view, which has not changed since. */
  datatype AtomicAction =
    | Same(action: Action)
    | ClaimRow(worker: Worker, id: JobId, view: View)
    | FinalizeRow(worker: Worker)
    | Skip

  function AtomicNext(cfg: Config, s: State, b: AtomicAction): Option<State> {
    match b
    case Same(a) =>
      if a.Tick? || a.Enqueue? || a.Capture? || a.Return? || a.Abort? then Next(cfg, s, a) else None
    case ClaimRow(w, id, view) =>
      var phase := PhaseOf(s, w);
      if && phase.Captured? && id in s.jobs && id in s.history
         && IsNext(view.jobs, phase.queue, phase.now, view.locked, id) && view.jobs[id] == s.jobs[id]
         && (cfg.backend.Sqlite? ==> view == View(s.jobs, {}))
      then Some(Commit(s, w, Claim(id, s.jobs[id].retries, phase.now, phase.until)))
      else None
    case FinalizeRow(w) =>
      var phase := PhaseOf(s, w);
      if phase.Finalizing? then Some(Conclude(s, w, phase.claim, phase.decision)) else None
    case Skip => Some(s)
  }

  function AtomicRun(cfg: Config, s: State, actions: seq<AtomicAction>): Option<State>
    decreases |actions|
  {
    if actions == [] then Some(s)
    else
      match AtomicNext(cfg, s, actions[0])
      case None => None
      case Some(next) => AtomicRun(cfg, next, actions[1..])
  }

  /** What an observer of committed rows sees of a phase. */
  function Visible(phase: Phase): Phase {
    match phase
    case Selected(c, queue) => Captured(queue, c.now, c.until)
    case Finishing(c, d) => Finalizing(c, d)
    case _ => phase
  }

  function Abstract(s: State): State {
    s.(workers := map w | w in s.workers :: Visible(s.workers[w]))
  }

  /** The views of the latest SELECTs, one for each worker. */
  type Views = map<Worker, View>

  function Remember(s: State, a: Action, views: Views): Views {
    if a.SelectPostgres? then views[a.worker := View(s.jobs, LockedRows(s))] else views
  }

  /** The atomic step an action commits, if it commits any. */
  function Image(s: State, a: Action, views: Views): AtomicAction {
    match a
    case ClaimSqlite(w, id) => ClaimRow(w, id, View(s.jobs, {}))
    case SelectPostgres(_, _) => Skip
    case CommitPostgres(w) =>
      if PhaseOf(s, w).Selected? && w in views then ClaimRow(w, PhaseOf(s, w).claim.id, views[w]) else Skip
    case FinalizeSqlite(w) => FinalizeRow(w)
    case ExecutePostgres(w) =>
      if PhaseOf(s, w).Finalizing? && HeldBy(s.jobs, PhaseOf(s, w).claim.id, w) then Skip else FinalizeRow(w)
    case FinishPostgres(w) => FinalizeRow(w)
    case _ => Same(a)
  }

  function ImageOfRun(cfg: Config, s: State, views: Views, actions: seq<Action>): seq<AtomicAction>
    decreases |actions|
  {
    if actions == [] || Next(cfg, s, actions[0]).None? then []
    else
      var rest := ImageOfRun(cfg, Next(cfg, s, actions[0]).value, Remember(s, actions[0], views), actions[1..]);
      [Image(s, actions[0], views)] + rest
  }

  /** A selected row was the first of its view and is still what it was there. */
  predicate SelectionOk(s: State, phase: Phase, view: View) {
    phase.Selected? ==>
      var c := phase.claim;
      IsNext(view.jobs, phase.queue, c.now, view.locked, c.id) && c.id in s.jobs && view.jobs[c.id] == s.jobs[c.id]
  }

  ghost predicate ViewsOk(s: State, views: Views) {
    forall w | w in s.workers && s.workers[w].Selected? :: w in views && SelectionOk(s, s.workers[w], views[w])
  }

  lemma AbstractIn(s: State, w: Worker, phase: Phase)
    ensures Abstract(In(s, w, phase)) == In(Abstract(s), w, Visible(phase))
  {
  }

  lemma AbstractCommit(s: State, w: Worker, c: Claim)
    requires c.id in s.jobs && c.id in s.history
    ensures Abstract(Commit(s, w, c)) == Commit(Abstract(s), w, c)
  {
    AbstractIn(s, w, Running(c));
  }

  lemma AbstractConclude(s: State, w: Worker, c: Claim, d: Decision)
    ensures Abstract(Conclude(s, w, c, d)) == Conclude(Abstract(s), w, c, d)
  {
    AbstractIn(s, w, Idle);
  }

  /** When a selected row is committed it is still claimable, with the retries that were read, and no
      other open transaction has it. */
  lemma SelectedRowStaysClaimable(cfg: Config, s: State, w: Worker)
    requires Reachable(cfg, s) && PhaseOf(s, w).Selected?
    ensures var c := PhaseOf(s, w).claim;
            && c.id in s.jobs && Claimable(s.jobs[c.id], PhaseOf(s, w).queue, c.now)
            && s.jobs[c.id].retries == c.retries
            && forall v | v != w :: !HoldsRow(PhaseOf(s, v), c.id)
  {
    ReachableStatesAreOk(cfg, s);
    assert WorkerOk(cfg, s, w, s.workers[w]) && HoldsRow(s.workers[w], s.workers[w].claim.id);
  }

  /** As long as a transaction has a row selected, no other worker changes it. */
  lemma SelectedRowIsKept(cfg: Config, s: State, a: Action, w: Worker)
    requires Inv(cfg, s) && PhaseOf(s, w).Selected? && !ActsFor(a, w) && Next(cfg, s, a).Some?
    ensures var id := PhaseOf(s, w).claim.id;
            id in s.jobs && id in Next(cfg, s, a).value.jobs && Next(cfg, s, a).value.jobs[id] == s.jobs[id]
    ensures PhaseOf(Next(cfg, s, a).value, w) == PhaseOf(s, w)
  {
    hide JobOk, DecisionOk, Decide, LockedRows, RowLocked, Precedes;
    assert WorkerOk(cfg, s, w, s.workers[w]) && HoldsRow(s.workers[w], s.workers[w].claim.id);
    if a.CommitPostgres? || a.FinishPostgres? {
      var phase := PhaseOf(s, a.worker);
      assert (phase.Selected? || phase.Finishing?) ==> HoldsRow(phase, phase.claim.id);
    }
  }

  lemma ViewsStayOk(cfg: Config, s: State, a: Action, views: Views)
    requires Inv(cfg, s) && ViewsOk(s, views) && Next(cfg, s, a).Some?
    ensures ViewsOk(Next(cfg, s, a).value, Remember(s, a, views))
  {
    var next := Next(cfg, s, a).value;
    forall w | w in next.workers && next.workers[w].Selected?
      ensures w in Remember(s, a, views) && SelectionOk(next, next.workers[w], Remember(s, a, views)[w])
    {
      if ActsFor(a, w) {
        OnlySelectSelects(cfg, s, a, w);
      } else {
        OthersDoNotNameWorker(cfg, s, a, w, 0);
        SelectedRowIsKept(cfg, s, a, w);
      }
    }
  }

  lemma OnlySelectSelects(cfg: Config, s: State, a: Action, w: Worker)
    requires ActsFor(a, w) && Next(cfg, s, a).Some? && PhaseOf(Next(cfg, s, a).value, w).Selected?
    ensures a.SelectPostgres?
    ensures SelectionOk(Next(cfg, s, a).value, PhaseOf(Next(cfg, s, a).value, w), View(s.jobs, LockedRows(s)))
  {
    hide LockedRows, Precedes, Decide;
  }

  lemma SqliteClaimRefines(cfg: Config, s: State, w: Worker, id: JobId)
    requires Next(cfg, s, ClaimSqlite(w, id)).Some?
    ensures AtomicNext(cfg, Abstract(s), ClaimRow(w, id, View(s.jobs, {})))
         == Some(Abstract(Next(cfg, s, ClaimSqlite(w, id)).value))
  {
    var phase := PhaseOf(s, w);
    AbstractCommit(s, w, Claim(id, s.jobs[id].retries, phase.now, phase.until));
  }

  lemma SelectRefines(cfg: Config, s: State, w: Worker, id: JobId)
    requires Next(cfg, s, SelectPostgres(w, id)).Some?
    ensures Abstract(Next(cfg, s, SelectPostgres(w, id)).value) == Abstract(s)
  {
    var phase := PhaseOf(s, w);
    AbstractIn(s, w, Selected(Claim(id, s.jobs[id].retries, phase.now, phase.until), phase.queue));
    assert In(Abstract(s), w, phase) == Abstract(s);
  }

  lemma CommitRefines(cfg: Config, s: State, views: Views, w: Worker)
    requires Inv(cfg, s) && ViewsOk(s, views) && Next(cfg, s, CommitPostgres(w)).Some?
    ensures AtomicNext(cfg, Abstract(s), Image(s, CommitPostgres(w), views))
         == Some(Abstract(Next(cfg, s, CommitPostgres(w)).value))
  {
    assert WorkerOk(cfg, s, w, PhaseOf(s, w));
    AbstractCommit(s, w, PhaseOf(s, w).claim);
  }

  lemma FinalizationRefines(cfg: Config, s: State, a: Action)
    requires Next(cfg, s, a).Some? && (a.FinalizeSqlite? || a.ExecutePostgres? || a.FinishPostgres?)
    ensures AtomicNext(cfg, Abstract(s), Image(s, a, map[])) == Some(Abstract(Next(cfg, s, a).value))
  {
    var w, phase := a.worker, PhaseOf(s, a.worker);
    AbstractConclude(s, w, phase.claim, phase.decision);
    if a.ExecutePostgres? {
      if HeldBy(s.jobs, phase.claim.id, w) {
        AbstractIn(s, w, Finishing(phase.claim, phase.decision));
        assert In(Abstract(s), w, phase) == Abstract(s);
      } else {
        assert Conclude(s, w, phase.claim, phase.decision) == In(s, w, Idle);
      }
    }
  }

  /** Every action is one atomic step, or none, of the abstract machine. */
  lemma ActionRefines(cfg: Config, s: State, views: Views, a: Action)
    requires Inv(cfg, s) && ViewsOk(s, views) && Next(cfg, s, a).Some?
    ensures AtomicNext(cfg, Abstract(s), Image(s, a, views)) == Some(Abstract(Next(cfg, s, a).value))
  {
    hide JobOk, WorkerOk, LocksExclusive, IsNext, Finalized, LockedRows, Commit, Conclude;
    match a
    case Tick(_) =>
    case Enqueue(_, _, _, _, _) =>
    case Capture(w, queue, timeout) => AbstractIn(s, w, Captured(queue, s.clock, LeaseUntil(s.clock, timeout)));
    case Return(w, succeeded) =>
      var c := PhaseOf(s, w).claim;
      AbstractIn(s, w, Finalizing(c, Decide(succeeded, c.retries, s.clock, cfg.maxRetries)));
    case Abort(w) => AbstractIn(s, w, Idle);
    case ClaimSqlite(w, id) => SqliteClaimRefines(cfg, s, w, id);
    case SelectPostgres(w, id) => SelectRefines(cfg, s, w, id);
    case CommitPostgres(w) => CommitRefines(cfg, s, views, w);
    case _ => FinalizationRefines(cfg, s, a);
  }

  lemma {:induction false} RunRefines(cfg: Config, s: State, views: Views, actions: seq<Action>)
    requires Inv(cfg, s) && ViewsOk(s, views) && Run(cfg, s, actions).Some?
    ensures AtomicRun(cfg, Abstract(s), ImageOfRun(cfg, s, views, actions))
         == Some(Abstract(Run(cfg, s, actions).value))
    decreases |actions|
  {
    if actions != [] {
      hide Next, Inv, ViewsOk, Abstract, AtomicNext, Image, Remember;
      var a := actions[0];
      var next, remembered := Next(cfg, s, a).value, Remember(s, a, views);
      ActionRefines(cfg, s, views, a);
      NextKeepsInv(cfg, s, a);
      ViewsStayOk(cfg, s, a, views);
      RunRefines(cfg, next, remembered, actions[1..]);
      var rest := ImageOfRun(cfg, next, remembered, actions[1..]);
      assert ([Image(s, a, views)] + rest)[1..] == rest;
    }
  }

  /** Every run, with any interleaving of open transactions, rollbacks and crashes, is a run of the atomic
      machine on the committed rows, in which each claim takes the first row of what its SELECT saw. */
  lemma ProtocolRefinesStatements(cfg: Config, actions: seq<Action>)
    requires Run(cfg, INITIAL, actions).Some?
    ensures AtomicRun(cfg, INITIAL, ImageOfRun(cfg, INITIAL, map[], actions))
         == Some(Abstract(Run(cfg, INITIAL, actions).value))
  {
    RunRefines(cfg, INITIAL, map[], actions);
    assert Abstract(INITIAL) == INITIAL;
  }
}
