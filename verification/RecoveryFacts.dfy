/** The demands of the crash harness in counts and columns, and the rows an EPOCH recovery
    writes from each state it can find. */
module RecoveryFacts {
  import opened Prelude
  import opened Coherence
  import opened ControllerSteps
  import opened Recovery
  import opened RecoveryLaws
  import opened ClockRecovery

  // ----- demands -----

  /** The append-only tables. */
  datatype AppendOnlyTable =
    | GapsTable
    | BindingsTable
    | GenerationTransitionsTable
    | EpochsTable
    | TransitionsTable
    | ShocksTable
    | FreshnessTable
    | ProofsTable
    | MappingsTable
    | ClosuresTable
    | CursorsTable
    | RawCommitsTable

  function Size(t: Tables, table: AppendOnlyTable): nat {
    match table
    case GapsTable => |t.gaps|
    case BindingsTable => |t.bindings|
    case GenerationTransitionsTable => |t.generationTransitions|
    case EpochsTable => |t.epochs|
    case TransitionsTable => |t.transitions|
    case ShocksTable => |t.shocks|
    case FreshnessTable => |t.freshness|
    case ProofsTable => |t.proofs|
    case MappingsTable => |t.mappings|
    case ClosuresTable => |t.closures|
    case CursorsTable => |t.cursors|
    case RawCommitsTable => |t.rawCommits|
  }

  /** No append-only table has fewer rows than before. */
  ghost predicate NoTableShrank(before: Tables, after: Tables) {
    forall table :: Size(before, table) <= Size(after, table)
  }

  lemma NoRegressionExact(before: Tables, after: Tables)
    ensures NoRegression(before, after) <==> NoTableShrank(before, after)
  {
    if NoTableShrank(before, after) {
      assert Size(before, GapsTable) <= Size(after, GapsTable);
      assert Size(before, BindingsTable) <= Size(after, BindingsTable);
      assert Size(before, GenerationTransitionsTable) <= Size(after, GenerationTransitionsTable);
      assert Size(before, EpochsTable) <= Size(after, EpochsTable);
      assert Size(before, TransitionsTable) <= Size(after, TransitionsTable);
      assert Size(before, ShocksTable) <= Size(after, ShocksTable);
      assert Size(before, FreshnessTable) <= Size(after, FreshnessTable);
      assert Size(before, ProofsTable) <= Size(after, ProofsTable);
      assert Size(before, MappingsTable) <= Size(after, MappingsTable);
      assert Size(before, ClosuresTable) <= Size(after, ClosuresTable);
      assert Size(before, CursorsTable) <= Size(after, CursorsTable);
      assert Size(before, RawCommitsTable) <= Size(after, RawCommitsTable);
    }
  }

  /** Transition k is the only one that closed a candidate by a new shock, epoch e the only
      successor of that candidate. */
  ghost predicate ClosedOnceBy(t: Tables, c: ControllerRow, k: Id, candidate: Id, e: Id) {
    && (forall j {:trigger t.transitions[j]} :: j in t.transitions ==>
          (t.transitions[j].reason == NewShockClosedCandidate <==> j == k))
    && (forall j {:trigger t.epochs[j]} :: j in t.epochs ==> (t.epochs[j].predecessor == Some(candidate) <==> j == e))
    && k in t.transitions && e in t.epochs && e != candidate && t.epochs[e].predecessorPermanentlyClosed == 1
    && t.transitions[k].candidate == Some(candidate)
    && t.transitions[k].fromState == NewEpochPending && t.transitions[k].toState == WaitingForResnapshot
    && t.transitions[k].controllerId == c.id && t.transitions[k].shock == c.activeShock
    && c.candidate == None
  }

  lemma ClosedOnceExact(t: Tables, c: ControllerRow)
    ensures CandidateClosedOnce(t, c) <==> exists k, candidate, e :: ClosedOnceBy(t, c, k, candidate, e)
  {
    if CandidateClosedOnce(t, c) {
      var k {:trigger t.transitions[k]} :| CandidateClosures(t) == {k} && k in t.transitions
        && (var closure := t.transitions[k];
            && closure.candidate.Some?
            && closure.fromState == NewEpochPending && closure.toState == WaitingForResnapshot
            && closure.controllerId == c.id && closure.shock == c.activeShock
            && c.candidate.None?
            && exists e {:trigger t.epochs[e]} :: SuccessorsOf(t, closure.candidate) == {e} && e in t.epochs
                 && e != closure.candidate.value && t.epochs[e].predecessorPermanentlyClosed == 1);
      var candidate := t.transitions[k].candidate.value;
      var e {:trigger t.epochs[e]} :| SuccessorsOf(t, Some(candidate)) == {e} && e in t.epochs
        && e != candidate && t.epochs[e].predecessorPermanentlyClosed == 1;
      OnlyClosure(t, k);
      OnlySuccessor(t, candidate, e);
      assert ClosedOnceBy(t, c, k, candidate, e);
    }
    if k, candidate, e :| ClosedOnceBy(t, c, k, candidate, e) {
      assert CandidateClosures(t) == {k};
      assert SuccessorsOf(t, t.transitions[k].candidate) == {e};
    }
  }

  lemma OnlyClosure(t: Tables, k: Id)
    requires CandidateClosures(t) == {k}
    ensures forall j {:trigger t.transitions[j]} :: j in t.transitions ==>
              (t.transitions[j].reason == NewShockClosedCandidate <==> j == k)
  {
    forall j | j in t.transitions
      ensures t.transitions[j].reason == NewShockClosedCandidate <==> j == k
    {
      assert j in CandidateClosures(t) <==> t.transitions[j].reason == NewShockClosedCandidate;
    }
  }

  lemma OnlySuccessor(t: Tables, candidate: Id, e: Id)
    requires SuccessorsOf(t, Some(candidate)) == {e}
    ensures forall j {:trigger t.epochs[j]} :: j in t.epochs ==>
              (t.epochs[j].predecessor == Some(candidate) <==> j == e)
  {
    forall j | j in t.epochs
      ensures t.epochs[j].predecessor == Some(candidate) <==> j == e
    {
      assert j in SuccessorsOf(t, Some(candidate)) <==> t.epochs[j].predecessor == Some(candidate);
    }
  }

  /** The demand on an EPOCH case: no table shrank, the controller is in the state of the case,
      and after a new shock exactly one candidate was closed, with exactly one successor. */
  lemma EpochDemandExact(before: Tables, after: Tables, cid: Id, step: EpochStep)
    ensures EpochDemandMet(before, after, cid, step) <==>
            && NoTableShrank(before, after)
            && cid in after.controllers
            && after.controllers[cid].state == (match step
                                                case ShockStep => WaitingForResnapshot
                                                case PendingStep => NewEpochPending
                                                case ReleaseStep => NewEpochOpen
                                                case NewShockStep => WaitingForResnapshot)
            && (step == NewShockStep ==>
                  exists k, candidate, e :: ClosedOnceBy(after, after.controllers[cid], k, candidate, e))
  {
    hide NoRegression, CandidateClosedOnce, ClosedOnceBy, NoTableShrank;
    NoRegressionExact(before, after);
    if cid in after.controllers {
      ClosedOnceExact(after, after.controllers[cid]);
    }
  }

  /** The demand on a CLOCK case. */
  lemma ClockDemandExact(before: Tables, after: Tables, cid: Id)
    ensures ClockDemandMet(before, after, cid) <==>
            && NoTableShrank(before, after)
            && |after.closures| > 0 && |after.shocks| > 0
            && cid in after.controllers && after.controllers[cid].state == ShockedClosed
  {
    hide NoRegression, NoTableShrank;
    NoRegressionExact(before, after);
    assert (after.closures == map[]) <==> |after.closures| == 0;
    assert (after.shocks == map[]) <==> |after.shocks| == 0;
  }

  // ----- what a recovery writes -----

  /** A recovery fails exactly when it has a candidate to accept and no generation-1 cursor. */
  lemma RecoveryFailsExactly(t: Tables, cid: Id, s: Scenario, ids: RecoveryIds)
    requires cid in t.controllers
    ensures !Completes(t, cid, s, ids) <==>
            && t.controllers[cid].state in {Open, ShockedClosed, WaitingForResnapshot}
            && s.candidate && s.step != NewShockStep
            && (ids.pend.cursor !in t.cursors || t.cursors[ids.pend.cursor].generation != 1)
    ensures !Completes(t, cid, s, ids) ==> RecoverEpoch(t, cid, s, ids) == t
  {
    StatesAfter(t, cid, s, ids);
  }

  /** The journal rows of a completed recovery, by the state it finds. */
  lemma RecoveryWrites(t: Tables, cid: Id, s: Scenario, ids: RecoveryIds)
    requires cid in t.controllers && Completes(t, cid, s, ids)
    ensures var found, u := t.controllers[cid].state, RecoverEpoch(t, cid, s, ids);
            var waits := found == Open || found == ShockedClosed;
            var pends := (waits || found == WaitingForResnapshot) && s.candidate && s.step != NewShockStep;
            var releases := (pends || found == NewEpochPending) && s.release;
            && u.transitions.Keys == t.transitions.Keys
                                     + (if found == Open then {ids.shock.transition} else {})
                                     + (if waits then {ids.wait.transition} else {})
                                     + (if pends then {ids.pend.transition} else {})
                                     + (if releases then {ids.release.transition} else {})
            && u.shocks.Keys == t.shocks.Keys + (if found == Open then {ids.shock.shock} else {})
            && u.epochs.Keys == t.epochs.Keys + (if pends then {ids.pend.candidate} else {})
            && cid in u.controllers
            && u.controllers[cid].revision == t.controllers[cid].revision + (if found == Open then 1 else 0)
                                              + (if waits then 1 else 0) + (if pends then 1 else 0)
                                              + (if releases then 1 else 0)
            && u.generations == t.generations && u.gaps == t.gaps && u.closures == t.closures
            && u.cursors == t.cursors && u.runMeta == t.runMeta
  {
    StatesAfter(t, cid, s, ids);
    ShockPartWrites(t, cid, ids);
    WaitPartWrites(AfterShock(t, cid, ids), cid, ids.wait);
    PendPartWrites(AfterWaiting(t, cid, ids), cid, s, ids.pend);
    ReleasePartWrites(AfterPending(AfterWaiting(t, cid, ids), cid, s, ids.pend).value, cid, s, ids.release);
    hide AfterShock, AfterWait, AfterWaiting, AfterPending, AfterRelease;
  }

  /** The tables no recovery writes. */
  predicate OthersKept(t: Tables, u: Tables) {
    u.generations == t.generations && u.gaps == t.gaps && u.closures == t.closures && u.cursors == t.cursors
    && u.runMeta == t.runMeta
  }

  /** One more transition under `key` when the stage acts, and one more revision. */
  predicate Advances(t: Tables, u: Tables, cid: Id, acts: bool, key: Id)
    requires cid in t.controllers && cid in u.controllers
  {
    && u.transitions.Keys == t.transitions.Keys + (if acts then {key} else {})
    && u.controllers[cid].revision == t.controllers[cid].revision + (if acts then 1 else 0)
    && OthersKept(t, u)
  }

  lemma ShockPartWrites(t: Tables, cid: Id, ids: RecoveryIds)
    requires cid in t.controllers
    ensures var acts, u := t.controllers[cid].state == Open, AfterShock(t, cid, ids);
            && Advances(t, u, cid, acts, ids.shock.transition)
            && u.shocks.Keys == t.shocks.Keys + (if acts then {ids.shock.shock} else {})
            && u.epochs == t.epochs
            && u.controllers[cid].state == (if acts then ShockedClosed else t.controllers[cid].state)
  {
  }

  lemma WaitPartWrites(t: Tables, cid: Id, p: WaitParams)
    requires cid in t.controllers
    ensures var acts, u := t.controllers[cid].state == ShockedClosed, AfterWait(t, cid, p);
            && Advances(t, u, cid, acts, p.transition) && u.shocks == t.shocks && u.epochs == t.epochs
            && u.controllers[cid].state == (if acts then WaitingForResnapshot else t.controllers[cid].state)
  {
  }

  lemma PendPartWrites(t: Tables, cid: Id, s: Scenario, p: PendParams)
    requires cid in t.controllers && AfterPending(t, cid, s, p).Some?
    ensures var acts := t.controllers[cid].state == WaitingForResnapshot && s.candidate && s.step != NewShockStep;
            var u := AfterPending(t, cid, s, p).value;
            && Advances(t, u, cid, acts, p.transition) && u.shocks == t.shocks
            && u.epochs.Keys == t.epochs.Keys + (if acts then {p.candidate} else {})
            && u.controllers[cid].state == (if acts then NewEpochPending else t.controllers[cid].state)
  {
  }

  lemma ReleasePartWrites(t: Tables, cid: Id, s: Scenario, p: ReleaseParams)
    requires cid in t.controllers
    ensures var acts, u := t.controllers[cid].state == NewEpochPending && s.release, AfterRelease(t, cid, s, p);
            && Advances(t, u, cid, acts, p.transition) && u.shocks == t.shocks && u.epochs == t.epochs
  {
  }
}
