/** EPOCH recovery can always run, and what it reaches meets the whole demand of the crash
    harness (tools/gap_coherence_crash_child.py:486-506,
    tools/run_gap_coherence_crash_matrix.py:409-499,778-892). */
module RecoveryLaws {
  import opened Prelude
  import opened Coherence
  import opened Evolution
  import opened Relations
  import opened ControllerSteps
  import opened ControllerRuns
  import opened RunLaws
  import opened Recovery

  // ----- the recovery is a run of controller steps -----

  function ShockPart(t: Tables, cid: Id, ids: RecoveryIds): seq<Step>
    requires cid in t.controllers
  {
    if t.controllers[cid].state == Open then [DoShock(ids.shock)] else []
  }

  function WaitPart(u: Tables, cid: Id, ids: RecoveryIds): seq<Step>
    requires cid in u.controllers
  {
    if u.controllers[cid].state == ShockedClosed then [DoWait(ids.wait)] else []
  }

  function PendPart(u: Tables, cid: Id, s: Scenario, ids: RecoveryIds): seq<Step>
    requires cid in u.controllers
  {
    if Pends(u, cid, s) then [DoPend(ids.pend)] else []
  }

  function ReleasePart(v: Tables, cid: Id, s: Scenario, ids: RecoveryIds): seq<Step>
    requires cid in v.controllers
  {
    if Releases(v, cid, s) then [DoRelease(ids.release)] else []
  }

  /** The controller steps a completed recovery takes. */
  function RecoverySteps(t: Tables, cid: Id, s: Scenario, ids: RecoveryIds): seq<Step>
    requires cid in t.controllers && Completes(t, cid, s, ids)
  {
    ShockPart(t, cid, ids)
    + (WaitPart(AfterShock(t, cid, ids), cid, ids) + FromWaiting(AfterWaiting(t, cid, ids), cid, s, ids))
  }

  function FromWaiting(w: Tables, cid: Id, s: Scenario, ids: RecoveryIds): seq<Step>
    requires cid in w.controllers && AfterPending(w, cid, s, ids.pend).Some?
  {
    PendPart(w, cid, s, ids) + ReleasePart(AfterPending(w, cid, s, ids.pend).value, cid, s, ids)
  }

  // ----- totality: fresh ids, growing dates and a cursor are enough -----

  /** The recovery will accept a candidate. */
  predicate WillPend(state: ControllerState, s: Scenario) {
    state in {Open, ShockedClosed, WaitingForResnapshot} && s.candidate && !s.step.NewShockStep?
  }

  predicate CandidateKeysNew(t: Tables, p: PendParams) {
    && p.freshness !in t.freshness && p.proof !in t.proofs && p.candidate !in t.epochs
    && {p.football, p.operator, p.marketBook} !! t.mappings
    && {p.football, p.operator, p.marketBook} !! t.closures.Values
  }

  /** The evidence a release names: the acceptance the recovery itself writes, or the one held. */
  ghost predicate EvidenceNamed(t: Tables, cid: Id, s: Scenario, ids: RecoveryIds)
    requires cid in t.controllers
  {
    var c, r := t.controllers[cid], ids.release;
    s.release ==>
      && (WillPend(c.state, s) ==> r.freshness == ids.pend.freshness && r.proof == ids.pend.proof)
      && (c.state == NewEpochPending ==> exists k :: Acceptance(t, c, r.freshness, r.proof, k))
  }

  ghost predicate CandidateReady(t: Tables, cid: Id, s: Scenario, ids: RecoveryIds)
    requires cid in t.controllers
  {
    && (WillPend(t.controllers[cid].state, s) ==> CandidateKeysNew(t, ids.pend) && HasCursor(t, ids.pend.cursor))
    && EvidenceNamed(t, cid, s, ids)
  }

  /** The ids and dates a recovery brings: new and distinct keys, growing dates and, where a
      candidate will be accepted, its own keys and a generation-1 cursor. */
  ghost predicate IdsReady(t: Tables, cid: Id, s: Scenario, ids: RecoveryIds)
    requires cid in t.controllers
  {
    && t.controllers[cid].updatedAt < ids.shock.at
    && ids.shock.at < ids.wait.at < ids.pend.at < ids.release.at
    && ids.shock.transition !in t.transitions && ids.wait.transition !in t.transitions
    && ids.pend.transition !in t.transitions && ids.release.transition !in t.transitions
    && ids.shock.transition !in {ids.wait.transition, ids.pend.transition, ids.release.transition}
    && ids.wait.transition !in {ids.pend.transition, ids.release.transition}
    && ids.pend.transition != ids.release.transition
    && ids.shock.shock !in t.shocks
    && CandidateReady(t, cid, s, ids)
  }

  ghost predicate WaitReady(u: Tables, cid: Id, s: Scenario, ids: RecoveryIds)
    requires cid in u.controllers
  {
    && u.controllers[cid].state != Open && u.controllers[cid].updatedAt < ids.wait.at < ids.pend.at < ids.release.at
    && ids.wait.transition !in u.transitions
    && ids.pend.transition !in u.transitions && ids.release.transition !in u.transitions
    && ids.wait.transition !in {ids.pend.transition, ids.release.transition}
    && ids.pend.transition != ids.release.transition
    && CandidateReady(u, cid, s, ids)
  }

  ghost predicate PendReady(w: Tables, cid: Id, s: Scenario, ids: RecoveryIds)
    requires cid in w.controllers
  {
    && w.controllers[cid].state !in {Open, ShockedClosed}
    && w.controllers[cid].updatedAt < ids.pend.at < ids.release.at
    && ids.pend.transition !in w.transitions && ids.release.transition !in w.transitions
    && ids.pend.transition != ids.release.transition
    && CandidateReady(w, cid, s, ids)
  }

  /** A step that leaves the candidate's tables alone leaves its readiness alone. */
  lemma CandidateStaysReady(t: Tables, u: Tables, cid: Id, s: Scenario, ids: RecoveryIds)
    requires cid in t.controllers && cid in u.controllers && CandidateReady(t, cid, s, ids)
    requires u.freshness == t.freshness && u.proofs == t.proofs && u.epochs == t.epochs
    requires u.mappings == t.mappings && u.closures == t.closures && u.cursors == t.cursors
    requires t.controllers[cid].state in {Open, ShockedClosed}
    requires u.controllers[cid].state in {ShockedClosed, WaitingForResnapshot}
    ensures CandidateReady(u, cid, s, ids)
  {
  }

  lemma ShockStage(t: Tables, cid: Id, s: Scenario, ids: RecoveryIds)
    requires cid in t.controllers && IdsReady(t, cid, s, ids)
    ensures WaitReady(AfterShock(t, cid, ids), cid, s, ids)
    ensures ShockPart(t, cid, ids) != [] ==> Enabled(t, cid, DoShock(ids.shock))
  {
    hide CandidateReady;
    if t.controllers[cid].state == Open {
      CandidateStaysReady(t, ShockClose(t, cid, ids.shock), cid, s, ids);
    }
  }

  lemma WaitStage(u: Tables, cid: Id, s: Scenario, ids: RecoveryIds)
    requires cid in u.controllers && WaitReady(u, cid, s, ids)
    ensures PendReady(AfterWait(u, cid, ids.wait), cid, s, ids)
    ensures WaitPart(u, cid, ids) != [] ==> Enabled(u, cid, DoWait(ids.wait))
  {
    hide CandidateReady;
    if u.controllers[cid].state == ShockedClosed {
      CandidateStaysReady(u, Waiting(u, cid, ids.wait), cid, s, ids);
    }
  }

  lemma PendStage(w: Tables, cid: Id, s: Scenario, ids: RecoveryIds)
    requires cid in w.controllers && PendReady(w, cid, s, ids)
    ensures PendPart(w, cid, s, ids) != [] ==> Enabled(w, cid, DoPend(ids.pend))
    ensures AfterPending(w, cid, s, ids.pend).Some?
    ensures var v := AfterPending(w, cid, s, ids.pend).value;
            ReleasePart(v, cid, s, ids) != [] ==> Enabled(v, cid, DoRelease(ids.release))
  {
    var v := AfterPending(w, cid, s, ids.pend).value;
    if Pends(w, cid, s) && s.release {
      assert Acceptance(v, v.controllers[cid], ids.release.freshness, ids.release.proof, ids.pend.transition);
    }
  }

  /** One enabled step, or none, in front of a valid run. */
  lemma PartRuns(t: Tables, cid: Id, part: seq<Step>, rest: seq<Step>, u: Tables)
    requires Consistent(t, cid) && |part| <= 1
    requires part == [] ==> u == t
    requires part != [] ==> Enabled(t, cid, part[0]) && u == Next(t, cid, part[0])
    ensures Consistent(u, cid)
    ensures ValidRun(u, cid, rest) ==>
              ValidRun(t, cid, part + rest) && After(t, cid, part + rest) == After(u, cid, rest)
  {
    hide Consistent, Enabled, Next;
    if part == [] {
      assert part + rest == rest;
    } else {
      assert (part + rest)[0] == part[0] && (part + rest)[1..] == rest;
      StepKeepsConsistency(t, cid, part[0]);
    }
  }

  lemma HasController(t: Tables, cid: Id)
    requires Consistent(t, cid)
    ensures cid in t.controllers && t.controllers[cid].id == cid
  {
  }

  lemma FromWaitingRuns(w: Tables, cid: Id, s: Scenario, ids: RecoveryIds)
    requires Consistent(w, cid) && PendReady(w, cid, s, ids)
    ensures AfterPending(w, cid, s, ids.pend).Some? && ValidRun(w, cid, FromWaiting(w, cid, s, ids))
    ensures After(w, cid, FromWaiting(w, cid, s, ids))
            == AfterRelease(AfterPending(w, cid, s, ids.pend).value, cid, s, ids.release)
  {
    hide Consistent, Enabled, Pending, Release, PendReady, CandidateReady;
    HasController(w, cid);
    PendStage(w, cid, s, ids);
    var v := AfterPending(w, cid, s, ids.pend).value;
    var pend, release := PendPart(w, cid, s, ids), ReleasePart(v, cid, s, ids);
    PartRuns(w, cid, pend, release, v);
    PartRuns(v, cid, release, [], AfterRelease(v, cid, s, ids.release));
    assert release + [] == release;
  }

  /** From any consistent crash state, recovery with ready ids completes, takes only enabled
      controller steps, and is a run of them: it is total. */
  lemma RecoveryIsRun(t: Tables, cid: Id, s: Scenario, ids: RecoveryIds)
    requires Consistent(t, cid) && IdsReady(t, cid, s, ids)
    ensures Completes(t, cid, s, ids) && ValidRun(t, cid, RecoverySteps(t, cid, s, ids))
    ensures After(t, cid, RecoverySteps(t, cid, s, ids)) == RecoverEpoch(t, cid, s, ids)
  {
    hide Consistent, Enabled, ShockClose, Waiting, IdsReady, WaitReady, PendReady, CandidateReady;
    HasController(t, cid);
    var u, w := AfterShock(t, cid, ids), AfterWaiting(t, cid, ids);
    ShockStage(t, cid, s, ids);
    WaitStage(u, cid, s, ids);
    var shock, wait := ShockPart(t, cid, ids), WaitPart(u, cid, ids);
    PartRuns(t, cid, shock, [], u);
    PartRuns(u, cid, wait, [], w);
    FromWaitingRuns(w, cid, s, ids);
    var tail := FromWaiting(w, cid, s, ids);
    PartRuns(u, cid, wait, tail, w);
    PartRuns(t, cid, shock, wait + tail, u);
  }

  // ----- the demand on a recovered case -----

  predicate NoRegression(before: Tables, after: Tables) {
    && |before.gaps| <= |after.gaps| && |before.bindings| <= |after.bindings|
    && |before.generationTransitions| <= |after.generationTransitions|
    && |before.epochs| <= |after.epochs| && |before.transitions| <= |after.transitions|
    && |before.shocks| <= |after.shocks| && |before.freshness| <= |after.freshness|
    && |before.proofs| <= |after.proofs| && |before.mappings| <= |after.mappings|
    && |before.closures| <= |after.closures| && |before.cursors| <= |after.cursors|
    && |before.rawCommits| <= |after.rawCommits|
  }

  function CandidateClosures(t: Tables): set<Id> {
    set k | k in t.transitions && t.transitions[k].reason.NewShockClosedCandidate?
  }

  function SuccessorsOf(t: Tables, epoch: Option<Id>): set<Id> {
    set e | e in t.epochs && t.epochs[e].predecessor == epoch
  }

  /** Exactly one candidate was closed by a new shock, by this controller's active shock, and
      exactly one distinct successor of it is recorded. */
  ghost predicate CandidateClosedOnce(t: Tables, c: ControllerRow) {
    exists k {:trigger t.transitions[k]} :: CandidateClosures(t) == {k} && k in t.transitions
      && (var closure := t.transitions[k];
          && closure.candidate.Some?
          && closure.fromState == NewEpochPending && closure.toState == WaitingForResnapshot
          && closure.controllerId == c.id && closure.shock == c.activeShock
          && c.candidate.None?
          && exists e {:trigger t.epochs[e]} :: SuccessorsOf(t, closure.candidate) == {e} && e in t.epochs
               && e != closure.candidate.value && t.epochs[e].predecessorPermanentlyClosed == 1)
  }

  /** `_validate_recovery` for an EPOCH case. */
  ghost predicate EpochDemandMet(before: Tables, after: Tables, cid: Id, step: EpochStep) {
    && NoRegression(before, after)
    && cid in after.controllers
    && after.controllers[cid].state == Wanted(step)
    && (step.NewShockStep? ==> CandidateClosedOnce(after, after.controllers[cid]))
  }

  lemma {:induction false} KeysGrow<K, V>(m: map<K, V>, n: map<K, V>)
    requires m.Keys <= n.Keys
    ensures |m| <= |n|
  {
    assert |m| == |m.Keys| && |n| == |n.Keys|;
    SetsGrow(m.Keys, n.Keys);
  }

  lemma {:induction false} SetsGrow<T>(a: set<T>, b: set<T>)
    requires a <= b
    ensures |a| <= |b|
  {
    if a != {} {
      var x :| x in a;
      SetsGrow(a - {x}, b - {x});
    }
  }

  lemma ContainedRowsDoNotRegress(t: Tables, u: Tables)
    requires ContainsRows(t, u)
    ensures NoRegression(t, u)
  {
    KeysGrow(t.gaps, u.gaps);
    KeysGrow(t.bindings, u.bindings);
    KeysGrow(t.generationTransitions, u.generationTransitions);
    KeysGrow(t.epochs, u.epochs);
    KeysGrow(t.transitions, u.transitions);
    KeysGrow(t.shocks, u.shocks);
    KeysGrow(t.freshness, u.freshness);
    KeysGrow(t.proofs, u.proofs);
    SetsGrow(t.mappings, u.mappings);
    KeysGrow(t.closures, u.closures);
    KeysGrow(t.cursors, u.cursors);
    KeysGrow(t.rawCommits, u.rawCommits);
  }

  /** The step a case crashes in, from the state its harness prepared. */
  predicate StepOfCase(step: EpochStep, op: Step) {
    match step
    case ShockStep => op.DoShock?
    case PendingStep => op.DoPend?
    case ReleaseStep => op.DoRelease?
    case NewShockStep => op.DoNewShock?
  }

  lemma NewShockClosesOnce(base: Tables, cid: Id, p: NewShockParams)
    requires Consistent(base, cid) && Enabled(base, cid, DoNewShock(p))
    requires CandidateClosures(base) == {} && SuccessorsOf(base, base.controllers[cid].candidate) == {}
    ensures var t := NewShock(base, cid, p); CandidateClosedOnce(t, t.controllers[cid])
  {
    hide Relates, HistoryFits, StreamKeys;
    var t := NewShock(base, cid, p);
    var closure := t.transitions[p.transition];
    assert CandidateClosures(t) == {p.transition};
    assert SuccessorsOf(t, closure.candidate) == {p.epoch};
    assert p.epoch in t.epochs && p.epoch != closure.candidate.value;
  }

  /** The committed tables after a crash in a step: the step's, or those before it. */
  ghost function Crashed(base: Tables, cid: Id, op: Step, committed: bool): (t: Tables)
    requires Consistent(base, cid) && Enabled(base, cid, op)
    ensures Consistent(t, cid) && cid in t.controllers
  {
    StepKeepsConsistency(base, cid, op);
    if committed then Next(base, cid, op) else base
  }

  /** The steps a case of the crash harness stops in: a shock lost before its commit came from
      an open controller, and a new shock is stopped after its commit only, being the first. */
  ghost predicate CaseOf(base: Tables, cid: Id, step: EpochStep, op: Step, committed: bool)
    requires Consistent(base, cid)
  {
    && StepOfCase(step, op) && Enabled(base, cid, op)
    && (step.ShockStep? && !committed ==> base.controllers[cid].state == Open)
    && (step.NewShockStep? ==>
          committed && CandidateClosures(base) == {} && SuccessorsOf(base, base.controllers[cid].candidate) == {})
  }

  lemma CrashState(base: Tables, cid: Id, step: EpochStep, op: Step, committed: bool)
    requires Consistent(base, cid) && CaseOf(base, cid, step, op, committed)
    ensures var state := Crashed(base, cid, op, committed).controllers[cid].state;
            match step
            case ShockStep => state in {Open, ShockedClosed}
            case PendingStep => state in {WaitingForResnapshot, NewEpochPending}
            case ReleaseStep => state in {NewEpochPending, NewEpochOpen}
            case NewShockStep => state == WaitingForResnapshot
  {
    hide Consistent, Relates;
    HasController(base, cid);
  }

  lemma RecoveredRunHolds(t: Tables, cid: Id, s: Scenario, ids: RecoveryIds)
    requires cid in t.controllers && Consistent(t, cid) && IdsReady(t, cid, s, ids)
    ensures NoRegression(t, RecoverEpoch(t, cid, s, ids)) && Consistent(RecoverEpoch(t, cid, s, ids), cid)
  {
    hide Consistent, IdsReady, Enabled, ValidRun, RecoverEpoch, RecoverySteps, ContainsRows, NoRegression;
    RecoveryIsRun(t, cid, s, ids);
    RunEvolves(t, cid, RecoverySteps(t, cid, s, ids));
    ContainedRowsDoNotRegress(t, RecoverEpoch(t, cid, s, ids));
  }

  /** Recovery from a crash on either side of the commit of a shock, pending or release step, or
      after the commit of a new shock, with ready ids, meets the whole demand of an EPOCH case,
      and its result passes the relation check. */
  lemma CrashedCaseRecovers(base: Tables, cid: Id, step: EpochStep, op: Step, committed: bool, ids: RecoveryIds)
    requires Consistent(base, cid) && CaseOf(base, cid, step, op, committed)
    requires IdsReady(Crashed(base, cid, op, committed), cid, ScenarioFor(step), ids)
    ensures var t := Crashed(base, cid, op, committed);
            var u := RecoverEpoch(t, cid, ScenarioFor(step), ids);
            EpochDemandMet(t, u, cid, step) && Consistent(u, cid)
  {
    hide Consistent, Enabled, IdsReady, ValidRun, Completes, RecoverEpoch, RecoverySteps, NoRegression;
    hide CandidateClosedOnce;
    var t, s := Crashed(base, cid, op, committed), ScenarioFor(step);
    RecoveryIsRun(t, cid, s, ids);
    RecoveredRunHolds(t, cid, s, ids);
    CrashState(base, cid, step, op, committed);
    RecoveryReachesDemand(t, cid, step, ids);
    if step.NewShockStep? {
      HasController(base, cid);
      NewShockClosesOnce(base, cid, op.newShock);
      SettledStateStays(t, cid, s, ids);
    }
  }

  /** The snapshots retained on the two sides of a recovery, rows in any order, pass the whole
      evolution check. */
  lemma RecoveryEvolves(t: Tables, cid: Id, s: Scenario, ids: RecoveryIds, before: Retained, after: Retained)
    requires Consistent(t, cid) && IdsReady(t, cid, s, ids)
    requires before.tables == t && SnapshotOf(before.listed, t, cid)
    requires after.tables == RecoverEpoch(t, cid, s, ids)
    requires cid in after.tables.controllers && SnapshotOf(after.listed, after.tables, cid)
    requires before.runId == after.runId && before.spool <= after.spool
    ensures Evolves(before, after)
  {
    hide Consistent, IdsReady, Enabled, ValidRun, RecoverEpoch, RecoverySteps, SnapshotOf, Evolves;
    RecoveryIsRun(t, cid, s, ids);
    HonestRunEvolves(t, cid, RecoverySteps(t, cid, s, ids), before, after);
  }

  /** The full verdict on an EPOCH case: the snapshots retained after the crash and after the
      recovery pass the recovery demand, the relation check and the evolution check. */
  lemma CrashedCaseIsAccepted(
      base: Tables, cid: Id, step: EpochStep, op: Step, committed: bool, ids: RecoveryIds, before: Retained,
      after: Retained)
    requires Consistent(base, cid) && CaseOf(base, cid, step, op, committed)
    requires IdsReady(Crashed(base, cid, op, committed), cid, ScenarioFor(step), ids)
    requires before.tables == Crashed(base, cid, op, committed) && SnapshotOf(before.listed, before.tables, cid)
    requires after.tables == RecoverEpoch(before.tables, cid, ScenarioFor(step), ids)
    requires cid in after.tables.controllers && SnapshotOf(after.listed, after.tables, cid)
    requires before.runId == after.runId && before.spool <= after.spool
    ensures EpochDemandMet(before.tables, after.tables, cid, step)
    ensures Relates(before.tables) && Relates(after.tables) && Evolves(before, after)
  {
    hide IdsReady, RecoverEpoch, SnapshotOf, Evolves, EpochDemandMet, Relates, Crashed, CaseOf;
    CrashedCaseRecovers(base, cid, step, op, committed, ids);
    RecoveryEvolves(before.tables, cid, ScenarioFor(step), ids, before, after);
  }

  // ----- interrupted EPOCH recoveries -----

  /** One recovery process: the ids it would use and whether it dies before its commit. */
  datatype Attempt = Attempt(ids: RecoveryIds, dies: bool)

  function AfterAttempts(t: Tables, cid: Id, s: Scenario, attempts: seq<Attempt>): (u: Tables)
    requires cid in t.controllers
    ensures cid in u.controllers
    decreases |attempts|
  {
    if attempts == [] then t
    else
      var a := attempts[0];
      AfterAttempts(if a.dies then t else RecoverEpoch(t, cid, s, a.ids), cid, s, attempts[1..])
  }

  /** The ids of the first attempt that lives and finds its cursor. */
  function FirstCompleted(t: Tables, cid: Id, s: Scenario, attempts: seq<Attempt>): Option<RecoveryIds>
    requires cid in t.controllers
  {
    if attempts == [] then None
    else if !attempts[0].dies && Completes(t, cid, s, attempts[0].ids) then Some(attempts[0].ids)
    else FirstCompleted(t, cid, s, attempts[1..])
  }

  /** However many recoveries die, fail or follow, the case ends where its first completed
      recovery ended; without one it stays where it crashed. */
  lemma {:induction false} EpochRecoveryConverges(t: Tables, cid: Id, s: Scenario, attempts: seq<Attempt>)
    requires cid in t.controllers
    ensures AfterAttempts(t, cid, s, attempts) ==
            match FirstCompleted(t, cid, s, attempts)
            case None => t
            case Some(ids) => RecoverEpoch(t, cid, s, ids)
    decreases |attempts|
  {
    hide RecoverEpoch, Completes;
    if attempts != [] {
      var a := attempts[0];
      if !a.dies && Completes(t, cid, s, a.ids) {
        SettledAttempts(t, cid, s, a.ids, attempts[1..]);
      } else {
        if !a.dies {
          FailedRecoveryIsIdle(t, cid, s, a.ids);
        }
        EpochRecoveryConverges(t, cid, s, attempts[1..]);
      }
    }
  }

  lemma FailedRecoveryIsIdle(t: Tables, cid: Id, s: Scenario, ids: RecoveryIds)
    requires cid in t.controllers && !Completes(t, cid, s, ids)
    ensures RecoverEpoch(t, cid, s, ids) == t
  {
  }

  lemma {:induction false} SettledAttempts(t: Tables, cid: Id, s: Scenario, ids: RecoveryIds, attempts: seq<Attempt>)
    requires cid in t.controllers && Completes(t, cid, s, ids)
    ensures cid in RecoverEpoch(t, cid, s, ids).controllers
    ensures AfterAttempts(RecoverEpoch(t, cid, s, ids), cid, s, attempts) == RecoverEpoch(t, cid, s, ids)
    decreases |attempts|
  {
    hide RecoverEpoch, Completes;
    var u := RecoverEpoch(t, cid, s, ids);
    if attempts == [] {
      RecoveryIsIdempotent(t, cid, s, ids, ids);
    } else {
      RecoveryIsIdempotent(t, cid, s, ids, attempts[0].ids);
      SettledAttempts(t, cid, s, ids, attempts[1..]);
    }
  }
}
