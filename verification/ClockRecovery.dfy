/** CLOCK recovery: a mapping closure and a shock close in two transactions
    (tools/gap_coherence_crash_child.py:474-485, tools/run_gap_coherence_crash_matrix.py:409-456). */
module ClockRecovery {
  import opened Prelude
  import opened Coherence
  import opened Evolution
  import opened Relations
  import opened RelationLaws
  import opened ControllerSteps
  import opened ControllerRuns
  import opened RunLaws
  import opened RecoveryLaws

  /** A CLOCK recovery process that gets to commit at most n transactions: a closure if none is
      recorded, then a shock if none is recorded. */
  function ClockAttempt(t: Tables, cid: Id, closure: Id, mapping: Id, p: ShockParams, n: nat): (u: Tables)
    requires cid in t.controllers
    ensures u.controllers.Keys == t.controllers.Keys
  {
    var first := if t.closures == map[] && n > 0 then CloseMapping(t, closure, mapping) else t;
    var spent := if t.closures == map[] then 1 else 0;
    if t.shocks == map[] && n > spent then ShockClose(first, cid, p) else first
  }

  /** Crashed attempts, each with its own number of commits, and then a complete one. */
  function ClockRecovery(t: Tables, cid: Id, closure: Id, mapping: Id, p: ShockParams, crashes: seq<nat>): (u: Tables)
    requires cid in t.controllers
    ensures u.controllers.Keys == t.controllers.Keys
    decreases |crashes|
  {
    if crashes == [] then ClockAttempt(t, cid, closure, mapping, p, 2)
    else ClockRecovery(ClockAttempt(t, cid, closure, mapping, p, crashes[0]), cid, closure, mapping, p, crashes[1..])
  }

  method RecoverClockCase(db: Connection, cid: Id, closure: Id, mapping: Id, p: ShockParams, commits: nat)
    requires cid in db.committed.controllers && db.committed.controllers[cid].id == cid
    requires p.transition !in db.committed.transitions
    requires db.committed.closures == map[] ==> mapping in db.committed.mappings
    modifies db
    ensures db.committed == ClockAttempt(old(db.committed), cid, closure, mapping, p, commits)
  {
    var left := commits;
    if db.committed.closures == map[] {
      db.Begin();
      db.working := CloseMapping(db.working, closure, mapping);
      if left == 0 {
        db.Crash();
        return;
      }
      db.Commit();
      left := left - 1;
    }
    if db.committed.shocks == map[] {
      db.Begin();
      db.ShockCloseStep(cid, p);
      if left == 0 {
        db.Crash();
        return;
      }
      db.Commit();
    }
  }

  lemma ClosedMappingStays(t: Tables, closure: Id, mapping: Id)
    ensures CloseMapping(t, closure, mapping).closures != map[]
  {
    assert closure in CloseMapping(t, closure, mapping).closures;
  }

  lemma ClosingShockStays(t: Tables, cid: Id, p: ShockParams)
    requires cid in t.controllers
    ensures ShockClose(t, cid, p).shocks != map[] && ShockClose(t, cid, p).closures == t.closures
  {
    assert p.shock in ShockClose(t, cid, p).shocks;
  }

  lemma ClockAttemptsAbsorb(t: Tables, cid: Id, closure: Id, mapping: Id, p: ShockParams, n: nat)
    requires cid in t.controllers
    ensures ClockAttempt(ClockAttempt(t, cid, closure, mapping, p, n), cid, closure, mapping, p, 2)
            == ClockAttempt(t, cid, closure, mapping, p, 2)
  {
    var u := ClockAttempt(t, cid, closure, mapping, p, n);
    var closed := CloseMapping(t, closure, mapping);
    ClosedMappingStays(t, closure, mapping);
    ClosingShockStays(t, cid, p);
    ClosingShockStays(closed, cid, p);
    if t.closures == map[] && n == 0 {
      assert u == t;
    } else if t.closures == map[] && (n == 1 || t.shocks != map[]) {
      assert u == closed;
    } else if t.closures == map[] {
      assert u == ShockClose(closed, cid, p);
    } else if t.shocks == map[] && n > 0 {
      assert u == ShockClose(t, cid, p);
    } else {
      assert u == t;
    }
  }

  /** However often it is interrupted, CLOCK recovery ends where one uninterrupted recovery
      ends. */
  lemma {:induction false} ClockRecoveryConverges(
      t: Tables, cid: Id, closure: Id, mapping: Id, p: ShockParams, crashes: seq<nat>)
    requires cid in t.controllers
    ensures ClockRecovery(t, cid, closure, mapping, p, crashes) == ClockAttempt(t, cid, closure, mapping, p, 2)
    decreases |crashes|
  {
    if crashes != [] {
      ClockRecoveryConverges(ClockAttempt(t, cid, closure, mapping, p, crashes[0]), cid, closure, mapping, p,
        crashes[1..]);
      ClockAttemptsAbsorb(t, cid, closure, mapping, p, crashes[0]);
    }
  }

  /** The demand on a recovered CLOCK case: no table lost rows, and there is a closure, a shock
      and a closed controller. */
  predicate ClockDemandMet(before: Tables, after: Tables, cid: Id) {
    && NoRegression(before, after)
    && after.closures != map[] && after.shocks != map[]
    && cid in after.controllers && after.controllers[cid].state == ShockedClosed
  }

  /** Without any invariant: the demand on rows and state is met by every interrupted recovery
      exactly when no shock was recorded before or the controller is closed already, and a case
      that starts without closures and shocks ends with one of each. */
  lemma ClockRecoveryMeetsDemand(t: Tables, cid: Id, closure: Id, mapping: Id, p: ShockParams, crashes: seq<nat>)
    requires cid in t.controllers
    ensures var u := ClockRecovery(t, cid, closure, mapping, p, crashes);
            && (ClockDemandMet(t, u, cid) <==> t.shocks == map[] || t.controllers[cid].state == ShockedClosed)
            && (t.closures == map[] ==> u.closures == map[closure := mapping])
            && (t.shocks == map[] ==> u.shocks.Keys == {p.shock})
  {
    hide NoRegression, ShockClose, CloseMapping, ClockRecovery;
    ClockRecoveryConverges(t, cid, closure, mapping, p, crashes);
    ClockOutcome(t, cid, closure, mapping, p);
    ClockLosesNothing(t, cid, closure, mapping, p);
  }

  lemma ClockOutcome(t: Tables, cid: Id, closure: Id, mapping: Id, p: ShockParams)
    requires cid in t.controllers
    ensures var u := ClockAttempt(t, cid, closure, mapping, p, 2);
            && u.closures != map[] && u.shocks != map[]
            && (u.controllers[cid].state == ShockedClosed <==>
                t.shocks == map[] || t.controllers[cid].state == ShockedClosed)
            && (t.closures == map[] ==> u.closures == map[closure := mapping])
            && (t.shocks == map[] ==> u.shocks.Keys == {p.shock})
  {
    var closed := CloseMapping(t, closure, mapping);
    ClosedMappingStays(t, closure, mapping);
    ClosingShockStays(t, cid, p);
    ClosingShockStays(closed, cid, p);
    assert closed.shocks == t.shocks && closed.controllers == t.controllers;
  }

  lemma OneMoreKey<K, V>(m: map<K, V>, key: K, value: V)
    ensures |m| <= |m[key := value]|
  {
    KeysGrow(m, m[key := value]);
  }

  lemma ClosingLosesNothing(t: Tables, closure: Id, mapping: Id)
    ensures NoRegression(t, t) && NoRegression(t, CloseMapping(t, closure, mapping))
  {
    OneMoreKey(t.closures, closure, mapping);
  }

  lemma ShockLosesNothing(t: Tables, cid: Id, p: ShockParams)
    requires cid in t.controllers
    ensures NoRegression(t, ShockClose(t, cid, p))
  {
    var c := t.controllers[cid];
    OneMoreKey(t.shocks, p.shock, ShockRow(p.shock, c.runId, c.fixtureId, p.shockType));
    OneMoreKey(t.transitions, p.transition, ShockTransition(c, p));
  }

  lemma NoRegressionComposes(t: Tables, u: Tables, v: Tables)
    requires NoRegression(t, u) && NoRegression(u, v)
    ensures NoRegression(t, v)
  {
  }

  lemma ClockLosesNothing(t: Tables, cid: Id, closure: Id, mapping: Id, p: ShockParams)
    requires cid in t.controllers
    ensures NoRegression(t, ClockAttempt(t, cid, closure, mapping, p, 2))
  {
    hide NoRegression, ShockClose;
    var closed := CloseMapping(t, closure, mapping);
    ClosingLosesNothing(t, closure, mapping);
    ShockLosesNothing(t, cid, p);
    ShockLosesNothing(closed, cid, p);
    NoRegressionComposes(t, closed, ShockClose(closed, cid, p));
  }

  // ----- from a consistent case -----

  /** The mapping to close is recorded and proves no candidate, and the shock's transition is
      new and dated after the controller's last. */
  ghost predicate ClockReady(t: Tables, cid: Id, mapping: Id, p: ShockParams)
    requires cid in t.controllers
  {
    && (t.closures == map[] ==> mapping in t.mappings && !ProofBound(t, mapping))
    && (t.shocks == map[] ==> p.transition !in t.transitions && p.at > t.controllers[cid].updatedAt)
  }

  function ClosePart(t: Tables, closure: Id, mapping: Id): seq<Step> {
    if t.closures == map[] then [DoCloseMapping(closure, mapping)] else []
  }

  function ShockOncePart(t: Tables, p: ShockParams): seq<Step> {
    if t.shocks == map[] then [DoShock(p)] else []
  }

  lemma ShockEnabled(t: Tables, cid: Id, mapping: Id, p: ShockParams)
    requires Consistent(t, cid) && ClockReady(t, cid, mapping, p) && t.shocks == map[]
    ensures Enabled(t, cid, DoShock(p))
  {
    hide Relates, Keyed, HistoryFits;
  }

  lemma CloseEnabled(t: Tables, cid: Id, closure: Id, mapping: Id, p: ShockParams)
    requires Consistent(t, cid) && ClockReady(t, cid, mapping, p) && t.closures == map[]
    ensures Enabled(t, cid, DoCloseMapping(closure, mapping))
    ensures ClockReady(CloseMapping(t, closure, mapping), cid, mapping, p)
  {
    hide Relates, Keyed, HistoryFits, ControllerFits;
    ClosedMappingStays(t, closure, mapping);
  }

  /** CLOCK recovery from a consistent case is a run of enabled controller steps. */
  lemma ClockRecoveryIsRun(t: Tables, cid: Id, closure: Id, mapping: Id, p: ShockParams)
    requires Consistent(t, cid) && ClockReady(t, cid, mapping, p)
    ensures var steps := ClosePart(t, closure, mapping) + ShockOncePart(t, p);
            ValidRun(t, cid, steps) && After(t, cid, steps) == ClockAttempt(t, cid, closure, mapping, p, 2)
  {
    hide Consistent, Enabled, ClockReady, ShockClose;
    HasController(t, cid);
    var first, shocking := ClosePart(t, closure, mapping), ShockOncePart(t, p);
    var closed := if t.closures == map[] then CloseMapping(t, closure, mapping) else t;
    if t.closures == map[] {
      CloseEnabled(t, cid, closure, mapping, p);
    }
    PartRuns(t, cid, first, shocking, closed);
    if t.shocks == map[] {
      ShockEnabled(closed, cid, mapping, p);
    }
    PartRuns(closed, cid, shocking, [], if t.shocks == map[] then ShockClose(closed, cid, p) else closed);
    assert shocking + [] == shocking;
  }

  /** The full verdict on a CLOCK case, however often its recovery was interrupted: demand,
      relation check and evolution check, the demand exactly when no shock was recorded
      before or the controller is closed. */
  lemma ClockCaseIsAccepted(
      t: Tables, cid: Id, closure: Id, mapping: Id, p: ShockParams, crashes: seq<nat>, before: Retained,
      after: Retained)
    requires Consistent(t, cid) && ClockReady(t, cid, mapping, p)
    requires before.tables == t && SnapshotOf(before.listed, t, cid)
    requires after.tables == ClockRecovery(t, cid, closure, mapping, p, crashes)
    requires SnapshotOf(after.listed, after.tables, cid)
    requires before.runId == after.runId && before.spool <= after.spool
    ensures Consistent(after.tables, cid) && Relates(before.tables) && Relates(after.tables) && Evolves(before, after)
    ensures ClockDemandMet(t, after.tables, cid) <==> t.shocks == map[] || t.controllers[cid].state == ShockedClosed
  {
    hide ClockReady, ClockAttempt, ClockRecovery, SnapshotOf, Evolves, ClockDemandMet, Relates;
    ClockRecoveryConverges(t, cid, closure, mapping, p, crashes);
    ClockRecoveryMeetsDemand(t, cid, closure, mapping, p, crashes);
    ClockRecoveryIsRun(t, cid, closure, mapping, p);
    HonestRunEvolves(t, cid, ClosePart(t, closure, mapping) + ShockOncePart(t, p), before, after);
  }
}
