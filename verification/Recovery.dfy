/** Crash recovery of the coherence operations and what the harness demands of it
    (tools/gap_coherence_crash_child.py:472-506, tools/run_gap_coherence_crash_matrix.py:409-499). */
module Recovery {
  import opened Prelude
  import opened Coherence
  import opened ControllerSteps

  datatype EpochStep = ShockStep | PendingStep | ReleaseStep | NewShockStep

  datatype Scenario = Scenario(step: EpochStep, candidate: bool, release: bool)

  /** The flags the harness gives each step. */
  function ScenarioFor(step: EpochStep): Scenario {
    Scenario(step, !step.ShockStep?, step.ReleaseStep?)
  }

  datatype RecoveryIds = RecoveryIds(shock: ShockParams, wait: WaitParams, pend: PendParams, release: ReleaseParams)

  /** The state `_recover` leaves an EPOCH case in. */
  function RecoveredState(state: ControllerState, s: Scenario): ControllerState {
    var waiting := if state in {Open, ShockedClosed} then WaitingForResnapshot else state;
    var pending := if waiting == WaitingForResnapshot && s.candidate && !s.step.NewShockStep?
      then NewEpochPending else waiting;
    if pending == NewEpochPending && s.release then NewEpochOpen else pending
  }

  function Wanted(step: EpochStep): ControllerState {
    match step
    case ShockStep => WaitingForResnapshot
    case PendingStep => NewEpochPending
    case ReleaseStep => NewEpochOpen
    case NewShockStep => WaitingForResnapshot
  }

  function AfterShock(t: Tables, cid: Id, ids: RecoveryIds): (u: Tables)
    requires cid in t.controllers
    ensures u.controllers.Keys == t.controllers.Keys && u.cursors == t.cursors
    ensures u.controllers[cid].id == t.controllers[cid].id
  {
    if t.controllers[cid].state == Open then ShockClose(t, cid, ids.shock) else t
  }

  function AfterWait(u: Tables, cid: Id, p: WaitParams): (v: Tables)
    requires cid in u.controllers
    ensures v.controllers.Keys == u.controllers.Keys && v.cursors == u.cursors
    ensures v.controllers[cid].id == u.controllers[cid].id
  {
    if u.controllers[cid].state == ShockedClosed then Waiting(u, cid, p) else u
  }

  function AfterWaiting(t: Tables, cid: Id, ids: RecoveryIds): (u: Tables)
    requires cid in t.controllers
    ensures u.controllers.Keys == t.controllers.Keys && u.cursors == t.cursors
    ensures u.controllers[cid].id == t.controllers[cid].id
  {
    AfterWait(AfterShock(t, cid, ids), cid, ids.wait)
  }

  predicate HasCursor(t: Tables, cursor: Id) {
    cursor in t.cursors && t.cursors[cursor].generation == 1
  }

  predicate Pends(u: Tables, cid: Id, s: Scenario)
    requires cid in u.controllers
  {
    u.controllers[cid].state == WaitingForResnapshot && s.candidate && !s.step.NewShockStep?
  }

  function AfterPending(u: Tables, cid: Id, s: Scenario, p: PendParams): (v: Option<Tables>)
    requires cid in u.controllers
    ensures v.Some? ==> v.value.controllers.Keys == u.controllers.Keys
                        && v.value.controllers[cid].id == u.controllers[cid].id
  {
    if !Pends(u, cid, s) then Some(u)
    else if HasCursor(u, p.cursor) then Some(Pending(u, cid, p))
    else None
  }

  predicate Releases(v: Tables, cid: Id, s: Scenario)
    requires cid in v.controllers
  {
    v.controllers[cid].state == NewEpochPending && s.release
  }

  function AfterRelease(v: Tables, cid: Id, s: Scenario, p: ReleaseParams): (u: Tables)
    requires cid in v.controllers
    ensures u.controllers.Keys == v.controllers.Keys
  {
    if Releases(v, cid, s) then Release(v, cid, p) else v
  }

  /** EPOCH recovery: one transaction, rolled back when the candidate lacks its cursor. */
  function RecoverEpoch(t: Tables, cid: Id, s: Scenario, ids: RecoveryIds): (u: Tables)
    requires cid in t.controllers
    ensures u.controllers.Keys == t.controllers.Keys
  {
    match AfterPending(AfterWaiting(t, cid, ids), cid, s, ids.pend)
    case None => t
    case Some(v) => AfterRelease(v, cid, s, ids.release)
  }

  predicate WaitingKeysFree(t: Tables, cid: Id, ids: RecoveryIds)
    requires cid in t.controllers
  {
    && (t.controllers[cid].state == Open ==> ids.shock.shock !in t.shocks && ids.shock.transition !in t.transitions)
    && (AfterShock(t, cid, ids).controllers[cid].state == ShockedClosed ==>
          ids.wait.transition !in AfterShock(t, cid, ids).transitions)
  }

  predicate PendingKeysFree(u: Tables, cid: Id, s: Scenario, p: PendParams)
    requires cid in u.controllers
  {
    Pends(u, cid, s) ==>
      && p.freshness !in u.freshness && p.proof !in u.proofs && p.candidate !in u.epochs
      && p.transition !in u.transitions && {p.football, p.operator, p.marketBook} !! u.mappings
  }

  /** The keys the branches taken will insert are new. */
  predicate KeysFree(t: Tables, cid: Id, s: Scenario, ids: RecoveryIds)
    requires cid in t.controllers
  {
    && WaitingKeysFree(t, cid, ids)
    && PendingKeysFree(AfterWaiting(t, cid, ids), cid, s, ids.pend)
    && (match AfterPending(AfterWaiting(t, cid, ids), cid, s, ids.pend)
        case None => true
        case Some(v) => Releases(v, cid, s) ==> ids.release.transition !in v.transitions)
  }

  method WaitIfClosed(db: Connection, cid: Id, p: WaitParams, state: ControllerState)
    returns (controller: ControllerState)
    requires cid in db.working.controllers && db.working.controllers[cid].id == cid
    requires state == db.working.controllers[cid].state
    requires state == ShockedClosed ==> p.transition !in db.working.transitions
    modifies db`working
    ensures db.working == AfterWait(old(db.working), cid, p)
    ensures controller == db.working.controllers[cid].state
  {
    controller := state;
    if controller == ShockedClosed {
      db.WaitingStep(cid, p);
      controller := WaitingForResnapshot;
    }
  }

  method CloseIfOpen(db: Connection, cid: Id, ids: RecoveryIds, state: ControllerState)
    returns (controller: ControllerState)
    requires cid in db.working.controllers && db.working.controllers[cid].id == cid
    requires state == db.working.controllers[cid].state
    requires state == Open ==> ids.shock.shock !in db.working.shocks && ids.shock.transition !in db.working.transitions
    modifies db`working
    ensures db.working == AfterShock(old(db.working), cid, ids)
    ensures controller == db.working.controllers[cid].state
  {
    controller := state;
    if controller == Open {
      db.ShockCloseStep(cid, ids.shock);
      controller := ShockedClosed;
    }
  }

  method AdvanceToPending(db: Connection, cid: Id, s: Scenario, p: PendParams, state: ControllerState)
    returns (ok: bool, controller: ControllerState)
    requires cid in db.working.controllers && db.working.controllers[cid].id == cid
    requires state == db.working.controllers[cid].state
    requires PendingKeysFree(db.working, cid, s, p)
    modifies db`working
    ensures ok == AfterPending(old(db.working), cid, s, p).Some?
    ensures ok ==> db.working == AfterPending(old(db.working), cid, s, p).value
                   && controller == db.working.controllers[cid].state
  {
    ok, controller := true, state;
    if controller == WaitingForResnapshot && s.candidate && !s.step.NewShockStep? {
      ok := db.PendingStep(cid, p);
      controller := NewEpochPending;
    }
  }

  method AdvanceToWaiting(db: Connection, cid: Id, ids: RecoveryIds, state: ControllerState)
    returns (controller: ControllerState)
    requires cid in db.working.controllers && db.working.controllers[cid].id == cid
    requires state == db.working.controllers[cid].state && WaitingKeysFree(db.working, cid, ids)
    modifies db`working
    ensures db.working == AfterWaiting(old(db.working), cid, ids)
    ensures controller == db.working.controllers[cid].state
  {
    controller := CloseIfOpen(db, cid, ids, state);
    controller := WaitIfClosed(db, cid, ids.wait, controller);
  }

  method ReleaseIfPending(db: Connection, cid: Id, s: Scenario, p: ReleaseParams, state: ControllerState)
    requires cid in db.working.controllers && db.working.controllers[cid].id == cid
    requires state == db.working.controllers[cid].state
    requires Releases(db.working, cid, s) ==> p.transition !in db.working.transitions
    modifies db`working
    ensures db.working == AfterRelease(old(db.working), cid, s, p)
  {
    if state == NewEpochPending && s.release {
      db.ReleaseStep(cid, p);
    }
  }

  /** The recovery process for an EPOCH case, killed after `survived` of its stages (waiting,
      pending, release) or before its commit, the fourth: then nothing it wrote remains. The
      local `controller` follows the branches, as the process reads the row only once. */
  method RecoverEpochCase(db: Connection, cid: Id, s: Scenario, ids: RecoveryIds, survived: nat) returns (ok: bool)
    requires cid in db.committed.controllers && db.committed.controllers[cid].id == cid
    requires KeysFree(db.committed, cid, s, ids)
    modifies db
    ensures db.committed == if survived < 4 then old(db.committed) else RecoverEpoch(old(db.committed), cid, s, ids)
    ensures db.working == db.committed
    ensures ok == (survived >= 4 && Completes(old(db.committed), cid, s, ids))
  {
    hide AfterPending, AfterRelease, AfterWaiting, PendingKeysFree, WaitingKeysFree, Releases;
    db.Begin();
    var controller := db.working.controllers[cid].state;
    if survived == 0 {
      db.Crash();
      return false;
    }
    controller := AdvanceToWaiting(db, cid, ids, controller);
    if survived == 1 {
      db.Crash();
      return false;
    }
    ok, controller := AdvanceToPending(db, cid, s, ids.pend, controller);
    if !ok || survived == 2 {
      db.Crash();
      return false;
    }
    ReleaseIfPending(db, cid, s, ids.release, controller);
    if survived == 3 {
      db.Crash();
      return false;
    }
    db.Commit();
  }

  /** The recovery does not fail for want of a generation-1 cursor. */
  predicate Completes(t: Tables, cid: Id, s: Scenario, ids: RecoveryIds)
    requires cid in t.controllers
  {
    AfterPending(AfterWaiting(t, cid, ids), cid, s, ids.pend).Some?
  }

  lemma StatesAfter(t: Tables, cid: Id, s: Scenario, ids: RecoveryIds)
    requires cid in t.controllers
    ensures AfterWaiting(t, cid, ids).controllers[cid].state ==
            (if t.controllers[cid].state in {Open, ShockedClosed}
              then WaitingForResnapshot else t.controllers[cid].state)
    ensures var u := AfterWaiting(t, cid, ids);
            AfterPending(u, cid, s, ids.pend).Some? ==>
              AfterPending(u, cid, s, ids.pend).value.controllers[cid].state ==
              (if Pends(u, cid, s) then NewEpochPending else u.controllers[cid].state)
  {
  }

  lemma RecoveredStateReached(t: Tables, cid: Id, s: Scenario, ids: RecoveryIds)
    requires cid in t.controllers && Completes(t, cid, s, ids)
    ensures cid in RecoverEpoch(t, cid, s, ids).controllers
    ensures RecoverEpoch(t, cid, s, ids).controllers[cid].state == RecoveredState(t.controllers[cid].state, s)
  {
    StatesAfter(t, cid, s, ids);
  }

  /** What a completed EPOCH recovery reaches from any state, and exactly when that is the state
      the harness demands. Only a new shock whose transaction was lost (the controller still
      pending), or a controller already past the demand, misses it. */
  lemma RecoveryReachesDemand(t: Tables, cid: Id, step: EpochStep, ids: RecoveryIds)
    requires cid in t.controllers && Completes(t, cid, ScenarioFor(step), ids)
    ensures cid in RecoverEpoch(t, cid, ScenarioFor(step), ids).controllers
    ensures RecoverEpoch(t, cid, ScenarioFor(step), ids).controllers[cid].state == Wanted(step) <==>
            match step
            case ShockStep => t.controllers[cid].state in {Open, ShockedClosed, WaitingForResnapshot}
            case PendingStep => t.controllers[cid].state != NewEpochOpen
            case ReleaseStep => true
            case NewShockStep => t.controllers[cid].state in {Open, ShockedClosed, WaitingForResnapshot}
  {
    RecoveredStateReached(t, cid, ScenarioFor(step), ids);
  }

  /** A second recovery, under any ids, changes nothing. */
  lemma RecoveryIsIdempotent(t: Tables, cid: Id, s: Scenario, ids: RecoveryIds, again: RecoveryIds)
    requires cid in t.controllers && Completes(t, cid, s, ids)
    ensures cid in RecoverEpoch(t, cid, s, ids).controllers
    ensures var u := RecoverEpoch(t, cid, s, ids); RecoverEpoch(u, cid, s, again) == u
  {
    RecoveredStateReached(t, cid, s, ids);
    SettledStateStays(RecoverEpoch(t, cid, s, ids), cid, s, again);
  }

  lemma SettledStateStays(u: Tables, cid: Id, s: Scenario, ids: RecoveryIds)
    requires cid in u.controllers && RecoveredState(u.controllers[cid].state, s) == u.controllers[cid].state
    ensures RecoverEpoch(u, cid, s, ids) == u
  {
    StatesAfter(u, cid, s, ids);
  }
}
