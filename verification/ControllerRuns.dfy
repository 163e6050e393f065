/** Runs of committed controller steps and the invariant they keep. */
module ControllerRuns {
  import opened Prelude
  import opened Coherence
  import opened Relations
  import opened RelationLaws
  import opened ControllerSteps
  import opened GapLaws

  datatype Step =
    | DoShock(shock: ShockParams)
    | DoWait(wait: WaitParams)
    | DoPend(pend: PendParams)
    | DoRelease(release: ReleaseParams)
    | DoNewShock(newShock: NewShockParams)
    | DoGap(gap: GapParams, gapShock: ShockParams)
    | DoSeed(seed: SeedParams)
    | DoCursor(cursor: CursorRow)
    | DoAddMapping(added: Id)
    | DoCloseMapping(closure: Id, closed: Id)

  /** An epoch closed for good: shocked while current, or closed as a candidate. */
  ghost predicate ClosedEpoch(t: Tables, epoch: Id) {
    exists k {:trigger t.transitions[k]} :: k in t.transitions && Closes(t.transitions[k], epoch)
  }

  predicate Closes(transition: TransitionRow, epoch: Id) {
    || (transition.reason.ShockAtomicClose? && transition.predecessorEpoch == Some(epoch))
    || (transition.reason.NewShockClosedCandidate? && transition.candidate == Some(epoch))
  }

  /** The row `_seed_epoch_continuity` selects: the latest transition into SHOCKED_CLOSED. */
  ghost predicate LatestClosure(t: Tables, cid: Id, k: Id) {
    && k in t.transitions && t.transitions[k].controllerId == cid && t.transitions[k].toState == ShockedClosed
    && (forall m {:trigger t.transitions[m]} ::
          m in t.transitions && t.transitions[m].controllerId == cid && t.transitions[m].toState == ShockedClosed ==>
            t.transitions[m].at <= t.transitions[k].at)
  }

  /** The closing transition that matches the controller row. */
  ghost predicate CurrentClosure(t: Tables, c: ControllerRow, k: Id) {
    && k in t.transitions
    && (var tr := t.transitions[k];
        tr.controllerId == c.id && tr.fromState in {Open, NewEpochOpen} && tr.toState == ShockedClosed
        && tr.reason == ShockAtomicClose && tr.bindingsVerified == 1 && tr.at == c.updatedAt
        && tr.predecessorEpoch == c.currentEpoch && tr.shock == c.activeShock)
  }

  /** The acceptance that put the held candidate in place. */
  ghost predicate Acceptance(t: Tables, c: ControllerRow, freshness: Id, proof: Id, k: Id) {
    && k in t.transitions
    && (var tr := t.transitions[k];
        tr.reason == ResnapshotCandidateAccepted && tr.predecessorEpoch == c.currentEpoch
        && tr.candidate == c.candidate && tr.shock == c.activeShock
        && tr.freshness == Some(freshness) && tr.proof == Some(proof))
  }

  ghost predicate EpochOf(t: Tables, c: ControllerRow, epoch: Option<Id>) {
    epoch.Some? && epoch.value in t.epochs && t.epochs[epoch.value].runId == c.runId
    && t.epochs[epoch.value].fixtureId == c.fixtureId
  }

  ghost predicate GenerationShape(g: GenerationRow) {
    && (g.state == Active ==> g.closeReason.None? && g.closedAt.None?)
    && (g.state != Active ==> g.closeReason.Some? && g.closedAt.Some?)
  }

  ghost predicate HoldsCandidate(t: Tables, c: ControllerRow) {
    && c.predecessor == c.currentEpoch
    && EpochOf(t, c, c.candidate)
    && t.epochs[c.candidate.value].predecessor == c.currentEpoch
    && !ClosedEpoch(t, c.candidate.value)
    && (exists f, p, k :: Acceptance(t, c, f, p, k))
  }

  /** What holds of the controller row against the history behind it. */
  ghost predicate ControllerFits(t: Tables, c: ControllerRow) {
    && EpochOf(t, c, c.currentEpoch)
    && (c.state == NewEpochPending <==> c.candidate.Some?)
    && (c.state == NewEpochPending ==> HoldsCandidate(t, c))
    && (c.state != Open ==> c.activeShock.Some? && c.activeShock.value in t.shocks
                            && t.shocks[c.activeShock.value].runId == c.runId
                            && t.shocks[c.activeShock.value].fixtureId == c.fixtureId)
    && (c.state == ShockedClosed ==> exists k :: CurrentClosure(t, c, k))
    && (c.state in {Open, NewEpochOpen} <==> !ClosedEpoch(t, c.currentEpoch.value))
  }

  ghost predicate TransitionsDated(t: Tables, c: ControllerRow) {
    && (forall k {:trigger t.transitions[k]} :: k in t.transitions ==>
          t.transitions[k].controllerId == c.id && t.transitions[k].at <= c.updatedAt)
    && (forall a, b {:trigger t.transitions[a], t.transitions[b]} ::
          a in t.transitions && b in t.transitions && t.transitions[a].at == t.transitions[b].at ==> a == b)
  }

  ghost predicate GenerationsShaped(t: Tables) {
    forall k {:trigger t.generations[k]} :: k in t.generations ==> GenerationShape(t.generations[k])
  }

  ghost predicate HistoryFits(t: Tables, c: ControllerRow) {
    TransitionsDated(t, c) && GenerationsShaped(t)
  }

  /** The invariant of every committed point of a run. */
  ghost predicate Consistent(t: Tables, cid: Id) {
    && Keyed(t) && Relates(t)
    && t.controllers.Keys == {cid}
    && ControllerFits(t, t.controllers[cid])
    && HistoryFits(t, t.controllers[cid])
  }

  /** State guard, key freshness and growing dates under which a step is taken. */
  ghost predicate Enabled(t: Tables, cid: Id, step: Step)
    requires cid in t.controllers
  {
    var c := t.controllers[cid];
    match step
    case DoShock(p) =>
      c.state in {Open, NewEpochOpen} && p.shock !in t.shocks && p.transition !in t.transitions && p.at > c.updatedAt
    case DoWait(p) => c.state == ShockedClosed && p.transition !in t.transitions && p.at > c.updatedAt
    case DoPend(p) =>
      && c.state == WaitingForResnapshot && p.transition !in t.transitions && p.freshness !in t.freshness
      && p.proof !in t.proofs && p.candidate !in t.epochs && p.at > c.updatedAt
      && p.cursor in t.cursors && t.cursors[p.cursor].generation == 1
      && {p.football, p.operator, p.marketBook} !! t.mappings
      && {p.football, p.operator, p.marketBook} !! t.closures.Values
    case DoRelease(p) =>
      c.state == NewEpochPending && p.transition !in t.transitions && p.at > c.updatedAt
      && (exists k :: Acceptance(t, c, p.freshness, p.proof, k))
    case DoNewShock(p) =>
      && c.state == NewEpochPending && p.transition !in t.transitions && p.shock !in t.shocks
      && p.epoch !in t.epochs && p.at > c.updatedAt
    case DoGap(g, p) => GapReady(t, cid, g, p) && p.at > c.updatedAt
    case DoSeed(s) =>
      && c.state == ShockedClosed && LatestClosure(t, cid, s.closing)
      && s.stream.runId == c.runId
      && (forall id {:trigger t.generations[id]} :: id in t.generations ==> t.generations[id].stream != s.stream)
      && s.gap.generation !in t.generations && s.gap.generation != s.gap.successor && GapIdsFresh(t, s.gap)
      && c.activeShock.Some? && c.activeShock.value in t.shocks
      && t.shocks[c.activeShock.value].shockType in GAP_SHOCKS
    case DoCursor(row) => row.id !in t.cursors
    case DoAddMapping(m) => m !in t.mappings
    case DoCloseMapping(closure, m) => closure !in t.closures && m in t.mappings && !ProofBound(t, m)
  }

  ghost function Next(t: Tables, cid: Id, step: Step): Tables
    requires Consistent(t, cid) && Enabled(t, cid, step)
  {
    match step
    case DoShock(p) => ShockClose(t, cid, p)
    case DoWait(p) => Waiting(t, cid, p)
    case DoPend(p) => Pending(t, cid, p)
    case DoRelease(p) => Release(t, cid, p)
    case DoNewShock(p) => NewShock(t, cid, p)
    case DoGap(g, p) => GapTransaction(t, cid, g, p)
    case DoSeed(s) => SeedContinuity(t, cid, s)
    case DoCursor(row) => t.(cursors := t.cursors[row.id := row])
    case DoAddMapping(m) => AddMapping(t, m)
    case DoCloseMapping(closure, m) => CloseMapping(t, closure, m)
  }

  // ----- one step keeps the invariant -----

  /** Appending one later transition keeps the dates. */
  lemma DatedAppend(t: Tables, u: Tables, c: ControllerRow, d: ControllerRow, row: TransitionRow)
    requires TransitionsDated(t, c)
    requires row.id !in t.transitions && u.transitions == t.transitions[row.id := row]
    requires row.controllerId == c.id == d.id && row.at > c.updatedAt && d.updatedAt == row.at
    ensures TransitionsDated(u, d)
  {
  }

  /** A step that appends one later transition and moves the controller row to its date keeps
      the invariant when the relations, the keys and the controller row fit. */
  lemma AppendKeeps(t: Tables, u: Tables, cid: Id, row: TransitionRow)
    requires Consistent(t, cid) && Relates(u) && Keyed(u)
    requires u.controllers.Keys == t.controllers.Keys && u.generations == t.generations
    requires ControllerFits(u, u.controllers[cid])
    requires row.id !in t.transitions && u.transitions == t.transitions[row.id := row]
    requires row.controllerId == cid && row.at > t.controllers[cid].updatedAt
    requires u.controllers[cid].id == cid && u.controllers[cid].updatedAt == row.at
    ensures Consistent(u, cid)
  {
    hide Relates, ControllerFits, TransitionsDated, StreamKeys;
    DatedAppend(t, u, t.controllers[cid], u.controllers[cid], row);
  }

  lemma ControllerIsNamed(t: Tables, cid: Id)
    requires Consistent(t, cid)
    ensures t.controllers.Keys == {cid} && t.controllers[cid].id == cid
    ensures Keyed(t) && Relates(t) && ControllerKeys(t) && ControllerFits(t, t.controllers[cid])
    ensures TransitionsDated(t, t.controllers[cid])
    ensures EpochOf(t, t.controllers[cid], t.controllers[cid].currentEpoch)
  {
    hide Relates, StreamKeys;
  }

  lemma ShockRelates(t: Tables, cid: Id, p: ShockParams)
    requires cid in t.controllers && t.controllers[cid].id == cid
    requires Relates(t) && EpochOf(t, t.controllers[cid], t.controllers[cid].currentEpoch)
    requires p.shock !in t.shocks && p.transition !in t.transitions
    ensures Relates(ShockClose(t, cid, p))
  {
    hide Relates, GapOk, EvidenceOk;
    var u := ShockClose(t, cid, p);
    assert Grows(t, u);
    assert TransitionOk(u, u.transitions[p.transition]);
    OneMoreTransition(t, u, u.transitions[p.transition]);
  }

  /** Appending a transition closes at most the epoch it names. */
  lemma ClosedAfterAppend(t: Tables, u: Tables, row: TransitionRow, epoch: Id)
    requires row.id !in t.transitions && u.transitions == t.transitions[row.id := row]
    ensures ClosedEpoch(u, epoch) <==> ClosedEpoch(t, epoch) || Closes(row, epoch)
  {
    if ClosedEpoch(t, epoch) {
      var k :| k in t.transitions && Closes(t.transitions[k], epoch);
      assert u.transitions[k] == t.transitions[k];
    }
    if Closes(row, epoch) {
      assert u.transitions[row.id] == row;
    }
    if ClosedEpoch(u, epoch) {
      var k :| k in u.transitions && Closes(u.transitions[k], epoch);
    }
  }

  lemma ShockFits(t: Tables, cid: Id, p: ShockParams)
    requires Consistent(t, cid) && Enabled(t, cid, DoShock(p))
    ensures var u := ShockClose(t, cid, p); ControllerFits(u, u.controllers[cid])
  {
    var u := ShockClose(t, cid, p);
    assert CurrentClosure(u, u.controllers[cid], p.transition);
    ClosedAfterAppend(t, u, u.transitions[p.transition], t.controllers[cid].currentEpoch.value);
  }

  lemma ShockKeys(t: Tables, cid: Id, p: ShockParams)
    requires cid in t.controllers && Keyed(t)
    ensures Keyed(ShockClose(t, cid, p))
  {
  }

  lemma ShockKeeps(t: Tables, cid: Id, p: ShockParams)
    requires Consistent(t, cid) && Enabled(t, cid, DoShock(p))
    ensures Consistent(ShockClose(t, cid, p), cid)
  {
    hide Consistent, Relates, Keyed, ControllerKeys, ControllerFits, TransitionsDated, EpochOf;
    ControllerIsNamed(t, cid);
    var u := ShockClose(t, cid, p);
    ShockRelates(t, cid, p);
    ShockFits(t, cid, p);
    ShockKeys(t, cid, p);
    AppendKeeps(t, u, cid, u.transitions[p.transition]);
  }

  lemma WaitRelates(t: Tables, cid: Id, p: WaitParams)
    requires cid in t.controllers && t.controllers[cid].id == cid
    requires Relates(t) && ControllerFits(t, t.controllers[cid])
    requires t.controllers[cid].state == ShockedClosed && p.transition !in t.transitions
    ensures Relates(Waiting(t, cid, p))
  {
    hide Relates, GapOk, EvidenceOk;
    var u := Waiting(t, cid, p);
    assert Grows(t, u);
    assert TransitionOk(u, u.transitions[p.transition]);
    OneMoreTransition(t, u, u.transitions[p.transition]);
  }

  lemma WaitFits(t: Tables, cid: Id, p: WaitParams)
    requires Consistent(t, cid) && Enabled(t, cid, DoWait(p))
    ensures var u := Waiting(t, cid, p); ControllerFits(u, u.controllers[cid])
  {
    var u := Waiting(t, cid, p);
    ClosedAfterAppend(t, u, u.transitions[p.transition], t.controllers[cid].currentEpoch.value);
  }

  lemma WaitKeys(t: Tables, cid: Id, p: WaitParams)
    requires cid in t.controllers && Keyed(t)
    ensures Keyed(Waiting(t, cid, p))
  {
  }

  lemma WaitKeeps(t: Tables, cid: Id, p: WaitParams)
    requires Consistent(t, cid) && Enabled(t, cid, DoWait(p))
    ensures Consistent(Waiting(t, cid, p), cid)
  {
    hide Consistent, Relates, Keyed, ControllerKeys, ControllerFits, TransitionsDated, EpochOf;
    ControllerIsNamed(t, cid);
    var u := Waiting(t, cid, p);
    WaitRelates(t, cid, p);
    WaitFits(t, cid, p);
    WaitKeys(t, cid, p);
    AppendKeeps(t, u, cid, u.transitions[p.transition]);
  }

  predicate PendKeysFresh(t: Tables, p: PendParams) {
    && p.transition !in t.transitions && p.freshness !in t.freshness && p.proof !in t.proofs && p.candidate !in t.epochs
    && {p.football, p.operator, p.marketBook} !! t.mappings
    && {p.football, p.operator, p.marketBook} !! t.closures.Values
  }

  lemma PendGrows(t: Tables, cid: Id, p: PendParams)
    requires cid in t.controllers && t.controllers[cid].id == cid && PendKeysFresh(t, p)
    ensures Grows(t, Pending(t, cid, p)) && StreamsUntouched(t, Pending(t, cid, p))
  {
  }

  lemma PendEvidence(t: Tables, cid: Id, p: PendParams)
    requires cid in t.controllers && t.controllers[cid].id == cid && PendKeysFresh(t, p) && p.cursor in t.cursors
    ensures var u := Pending(t, cid, p); EvidenceOk(u, u.transitions[p.transition])
  {
  }

  lemma PendReferences(t: Tables, cid: Id, p: PendParams)
    requires cid in t.controllers && t.controllers[cid].id == cid && PendKeysFresh(t, p)
    requires EpochOf(t, t.controllers[cid], t.controllers[cid].currentEpoch) && ControllerKeys(t)
    requires ControllerFits(t, t.controllers[cid]) && t.controllers[cid].state == WaitingForResnapshot
    ensures var u := Pending(t, cid, p); ReferencesOk(u, u.transitions[p.transition])
  {
  }

  lemma PendRelates(t: Tables, cid: Id, p: PendParams)
    requires cid in t.controllers && t.controllers[cid].id == cid && ControllerKeys(t)
    requires Relates(t) && ControllerFits(t, t.controllers[cid]) && Enabled(t, cid, DoPend(p))
    ensures Relates(Pending(t, cid, p))
  {
    PendGrows(t, cid, p);
    PendEvidence(t, cid, p);
    PendReferences(t, cid, p);
    var u := Pending(t, cid, p);
    OneMoreTransition(t, u, u.transitions[p.transition]);
  }

  /** No recorded transition closes an epoch that is not recorded yet. */
  lemma FreshEpochIsNotClosed(t: Tables, epoch: Id)
    requires TransitionsRelate(t) && epoch !in t.epochs
    ensures !ClosedEpoch(t, epoch)
  {
    forall k | k in t.transitions ensures !Closes(t.transitions[k], epoch) {
      assert TransitionOk(t, t.transitions[k]);
    }
  }

  lemma FreshEpochIsFree(t: Tables, epoch: Id)
    requires Relates(t) && epoch !in t.epochs
    ensures !ClosedEpoch(t, epoch)
  {
    hide RawsRelate, GapsRelate, GapSatellitesUnique, TransitionsRelate, ClosedEpoch;
    FreshEpochIsNotClosed(t, epoch);
  }

  lemma PendFits(t: Tables, cid: Id, p: PendParams)
    requires Consistent(t, cid) && Enabled(t, cid, DoPend(p))
    ensures var u := Pending(t, cid, p); ControllerFits(u, u.controllers[cid])
  {
    hide Consistent, Keyed, Relates, TransitionsDated, GapOk, StreamKeys;
    ControllerIsNamed(t, cid);
    FreshEpochIsFree(t, p.candidate);
    var u := Pending(t, cid, p);
    ClosedAfterAppend(t, u, u.transitions[p.transition], p.candidate);
    ClosedAfterAppend(t, u, u.transitions[p.transition], t.controllers[cid].currentEpoch.value);
    hide ClosedEpoch;
    assert Acceptance(u, u.controllers[cid], p.freshness, p.proof, p.transition);
    assert HoldsCandidate(u, u.controllers[cid]);
  }

  lemma CandidateRowsKeyed(t: Tables, cid: Id, p: PendParams)
    requires cid in t.controllers && Keyed(t)
    ensures Keyed(CandidateRows(t, cid, p))
  {
  }

  lemma AcceptedCandidateKeyed(t: Tables, cid: Id, p: PendParams)
    requires cid in t.controllers && Keyed(t)
    ensures Keyed(AcceptCandidate(t, cid, p))
  {
  }

  lemma PendKeys(t: Tables, cid: Id, p: PendParams)
    requires cid in t.controllers && Keyed(t)
    ensures Keyed(Pending(t, cid, p))
  {
    CandidateRowsKeyed(t, cid, p);
    AcceptedCandidateKeyed(CandidateRows(t, cid, p), cid, p);
  }

  lemma PendKeeps(t: Tables, cid: Id, p: PendParams)
    requires Consistent(t, cid) && Enabled(t, cid, DoPend(p))
    ensures Consistent(Pending(t, cid, p), cid)
  {
    hide Consistent, Relates, Keyed, ControllerKeys, ControllerFits, TransitionsDated, EpochOf;
    ControllerIsNamed(t, cid);
    var u := Pending(t, cid, p);
    PendRelates(t, cid, p);
    PendFits(t, cid, p);
    PendKeys(t, cid, p);
    AppendKeeps(t, u, cid, u.transitions[p.transition]);
  }

  lemma ReleaseGrows(t: Tables, cid: Id, p: ReleaseParams)
    requires cid in t.controllers && p.transition !in t.transitions
    ensures Grows(t, Release(t, cid, p)) && StreamsUntouched(t, Release(t, cid, p))
  {
  }

  lemma ReleaseRowOk(t: Tables, cid: Id, p: ReleaseParams, k: Id)
    requires cid in t.controllers && t.controllers[cid].id == cid && p.transition !in t.transitions
    requires TransitionsRelate(t) && Acceptance(t, t.controllers[cid], p.freshness, p.proof, k)
    requires t.transitions[k].controllerId == cid
    ensures var u := Release(t, cid, p); TransitionOk(u, u.transitions[p.transition])
  {
    ReleaseGrows(t, cid, p);
    GrowthKeepsTransition(t, Release(t, cid, p), t.transitions[k]);
  }

  lemma ReleaseRelates(t: Tables, cid: Id, p: ReleaseParams)
    requires cid in t.controllers && t.controllers[cid].id == cid
    requires Relates(t) && TransitionsDated(t, t.controllers[cid]) && Enabled(t, cid, DoRelease(p))
    ensures Relates(Release(t, cid, p))
  {
    var u := Release(t, cid, p);
    var k :| Acceptance(t, t.controllers[cid], p.freshness, p.proof, k);
    ReleaseRowOk(t, cid, p, k);
    ReleaseGrows(t, cid, p);
    OneMoreTransition(t, u, u.transitions[p.transition]);
  }

  lemma ReleaseFits(t: Tables, cid: Id, p: ReleaseParams)
    requires Consistent(t, cid) && Enabled(t, cid, DoRelease(p))
    ensures var u := Release(t, cid, p); ControllerFits(u, u.controllers[cid])
  {
    hide GapOk, RawOk, EvidenceOk, StreamKeys, GenerationsShaped, GapSatellitesUnique;
    var u := Release(t, cid, p);
    var candidate := t.controllers[cid].candidate.value;
    ClosedAfterAppend(t, u, u.transitions[p.transition], candidate);
  }

  lemma ReleaseKeys(t: Tables, cid: Id, p: ReleaseParams)
    requires cid in t.controllers && Keyed(t)
    ensures Keyed(Release(t, cid, p))
  {
  }

  lemma ReleaseKeeps(t: Tables, cid: Id, p: ReleaseParams)
    requires Consistent(t, cid) && Enabled(t, cid, DoRelease(p))
    ensures Consistent(Release(t, cid, p), cid)
  {
    hide Consistent, Relates, Keyed, ControllerKeys, ControllerFits, TransitionsDated, EpochOf;
    ControllerIsNamed(t, cid);
    var u := Release(t, cid, p);
    ReleaseRelates(t, cid, p);
    ReleaseFits(t, cid, p);
    ReleaseKeys(t, cid, p);
    AppendKeeps(t, u, cid, u.transitions[p.transition]);
  }

  lemma NewShockGrows(t: Tables, cid: Id, p: NewShockParams)
    requires cid in t.controllers && t.controllers[cid].id == cid
    requires p.transition !in t.transitions && p.shock !in t.shocks && p.epoch !in t.epochs
    ensures Grows(t, NewShock(t, cid, p)) && StreamsUntouched(t, NewShock(t, cid, p))
  {
  }

  lemma NewShockReferences(t: Tables, cid: Id, p: NewShockParams)
    requires cid in t.controllers && t.controllers[cid].id == cid && ControllerKeys(t)
    requires p.transition !in t.transitions && p.shock !in t.shocks && p.epoch !in t.epochs
    requires ControllerFits(t, t.controllers[cid]) && t.controllers[cid].state == NewEpochPending
    ensures var u := NewShock(t, cid, p); ReferencesOk(u, u.transitions[p.transition])
  {
  }

  lemma NewShockRelates(t: Tables, cid: Id, p: NewShockParams)
    requires cid in t.controllers && t.controllers[cid].id == cid && ControllerKeys(t)
    requires Relates(t) && ControllerFits(t, t.controllers[cid]) && Enabled(t, cid, DoNewShock(p))
    ensures Relates(NewShock(t, cid, p))
  {
    hide Relates, GapOk, EvidenceOk;
    NewShockGrows(t, cid, p);
    NewShockReferences(t, cid, p);
    var u := NewShock(t, cid, p);
    OneMoreTransition(t, u, u.transitions[p.transition]);
  }

  lemma NewShockFits(t: Tables, cid: Id, p: NewShockParams)
    requires Consistent(t, cid) && Enabled(t, cid, DoNewShock(p))
    ensures var u := NewShock(t, cid, p); ControllerFits(u, u.controllers[cid])
  {
    var u := NewShock(t, cid, p);
    ClosedAfterAppend(t, u, u.transitions[p.transition], t.controllers[cid].currentEpoch.value);
  }

  lemma NewShockKeys(t: Tables, cid: Id, p: NewShockParams)
    requires cid in t.controllers && Keyed(t)
    ensures Keyed(NewShock(t, cid, p))
  {
  }

  lemma NewShockKeeps(t: Tables, cid: Id, p: NewShockParams)
    requires Consistent(t, cid) && Enabled(t, cid, DoNewShock(p))
    ensures Consistent(NewShock(t, cid, p), cid)
  {
    hide Consistent, Relates, Keyed, ControllerKeys, ControllerFits, TransitionsDated, EpochOf;
    ControllerIsNamed(t, cid);
    var u := NewShock(t, cid, p);
    NewShockRelates(t, cid, p);
    NewShockFits(t, cid, p);
    NewShockKeys(t, cid, p);
    AppendKeeps(t, u, cid, u.transitions[p.transition]);
  }

  lemma GapFits(t: Tables, u: Tables, cid: Id, p: ShockParams)
    requires cid in t.controllers && t.controllers[cid].id == cid && ControllerFits(t, t.controllers[cid])
    requires t.controllers[cid].state in {Open, NewEpochOpen} && p.transition !in t.transitions
    requires u.controllers == t.controllers[cid := ShockedController(t.controllers[cid], p)]
    requires u.transitions == t.transitions[p.transition := ShockTransition(t.controllers[cid], p)]
    requires u.shocks == t.shocks[p.shock := ShockRow(p.shock, t.controllers[cid].runId, t.controllers[cid].fixtureId,
      p.shockType)]
    requires u.epochs == t.epochs
    ensures ControllerFits(u, u.controllers[cid])
  {
    assert CurrentClosure(u, u.controllers[cid], p.transition);
    ClosedAfterAppend(t, u, ShockTransition(t.controllers[cid], p), t.controllers[cid].currentEpoch.value);
  }

  lemma GapKeys(t: Tables, cid: Id, g: GapParams, p: ShockParams)
    requires Keyed(t) && GapReady(t, cid, g, p)
    ensures Keyed(GapTransaction(t, cid, g, p))
  {
    var u := GapTransaction(t, cid, g, p);
    GapPrefixTables(t, t.controllers[cid], t.generations[g.generation], g, p, GAP_STATEMENTS);
    assert ControllerKeys(u);
    StreamKeysAfterClose(t, u, t.generations[g.generation], g);
  }

  lemma ClosingKeepsShapes(t: Tables, u: Tables, closed: GenerationRow, g: GapParams)
    requires GenerationsShaped(t)
    requires u.generations == t.generations[closed.id := Quarantined(closed, g)][g.successor := SuccessorOf(closed, g)]
    ensures GenerationsShaped(u)
  {
  }

  lemma GapFitsHistory(t: Tables, cid: Id, g: GapParams, p: ShockParams)
    requires GapReady(t, cid, g, p) && p.at > t.controllers[cid].updatedAt
    requires ControllerFits(t, t.controllers[cid]) && HistoryFits(t, t.controllers[cid])
    ensures var u := GapTransaction(t, cid, g, p);
            u.controllers == t.controllers[cid := ShockedController(t.controllers[cid], p)]
            && ControllerFits(u, u.controllers[cid]) && HistoryFits(u, u.controllers[cid])
  {
    var u := GapTransaction(t, cid, g, p);
    var c, closed := t.controllers[cid], t.generations[g.generation];
    GapPrefixTables(t, c, closed, g, p, GAP_STATEMENTS);
    GapFits(t, u, cid, p);
    ClosingKeepsShapes(t, u, closed, g);
    DatedAppend(t, u, c, u.controllers[cid], ShockTransition(c, p));
  }

  lemma GapKeeps(t: Tables, cid: Id, g: GapParams, p: ShockParams)
    requires Consistent(t, cid) && Enabled(t, cid, DoGap(g, p))
    ensures Consistent(GapTransaction(t, cid, g, p), cid)
  {
    GapTransactionRelates(t, cid, g, p);
    GapFitsHistory(t, cid, g, p);
    GapKeys(t, cid, g, p);
  }

  lemma StreamKeysAfterClose(t: Tables, u: Tables, closed: GenerationRow, g: GapParams)
    requires StreamKeys(t) && closed.id in t.generations && t.generations[closed.id] == closed
    requires SuccessorFree(t, closed) && GapIdsFresh(t, g)
    requires u.gaps == t.gaps[g.gap := GapRowOf(closed, g)]
    requires u.generations == t.generations[closed.id := Quarantined(closed, g)][g.successor := SuccessorOf(closed, g)]
    requires g.binding in u.bindings && u.bindings[g.binding].id == g.binding && u.bindings[g.binding].gapId == g.gap
    requires u.bindings == t.bindings[g.binding := u.bindings[g.binding]]
    requires u.generationTransitions == t.generationTransitions[g.generationTransition := GenerationMove(closed, g)]
    ensures StreamKeys(u)
  {
    forall a | a in u.generations && a != g.successor
      ensures !(u.generations[a].stream == closed.stream && u.generations[a].generation == closed.generation + 1)
    {
      assert !GenerationAt(t, a, closed.stream, closed.generation + 1);
    }
  }

  /** At SHOCKED_CLOSED the latest closing transition is the one the controller row reflects. */
  lemma LatestIsCurrent(t: Tables, cid: Id, k: Id)
    requires Consistent(t, cid) && t.controllers[cid].state == ShockedClosed && LatestClosure(t, cid, k)
    ensures CurrentClosure(t, t.controllers[cid], k)
  {
    var m :| CurrentClosure(t, t.controllers[cid], m);
    assert t.transitions[m].at <= t.transitions[k].at <= t.controllers[cid].updatedAt;
  }

  lemma SeedIsReady(t: Tables, cid: Id, s: SeedParams)
    requires Consistent(t, cid) && Enabled(t, cid, DoSeed(s))
    ensures SeedReady(t, cid, s)
  {
    LatestIsCurrent(t, cid, s.closing);
  }

  lemma SeedKeys(t: Tables, cid: Id, s: SeedParams)
    requires Keyed(t) && SeedReady(t, cid, s)
    ensures Keyed(SeedContinuity(t, cid, s))
  {
    var start, u := SeedStart(t, s), SeedContinuity(t, cid, s);
    SeedStartKeys(t, s);
    SeedClosesOne(t, cid, s);
    assert SuccessorFree(start, SeedGeneration(s)) by {
      forall id ensures !GenerationAt(start, id, s.stream, 1) {
        assert id in t.generations ==> t.generations[id].stream != s.stream;
      }
    }
    StreamKeysAfterClose(start, u, SeedGeneration(s), s.gap);
    assert ControllerKeys(u);
  }

  lemma SeedShapes(t: Tables, cid: Id, s: SeedParams)
    requires SeedReady(t, cid, s) && GenerationsShaped(t)
    ensures GenerationsShaped(SeedContinuity(t, cid, s))
  {
  }

  lemma SeedKeeps(t: Tables, cid: Id, s: SeedParams)
    requires Consistent(t, cid) && Enabled(t, cid, DoSeed(s))
    ensures Consistent(SeedContinuity(t, cid, s), cid)
  {
    SeedIsReady(t, cid, s);
    SeedAfterGapShockRelates(t, cid, s);
    SeedKeys(t, cid, s);
    FitsFrame(t, SeedContinuity(t, cid, s), t.controllers[cid]);
    SeedShapes(t, cid, s);
  }

  /** Tables that differ only in rows the controller invariant does not read. */
  lemma FitsFrame(t: Tables, u: Tables, c: ControllerRow)
    requires ControllerFits(t, c) && TransitionsDated(t, c)
    requires u.epochs == t.epochs && u.transitions == t.transitions && u.shocks == t.shocks
    ensures ControllerFits(u, c) && TransitionsDated(u, c)
  {
    if c.state == ShockedClosed {
      var k :| CurrentClosure(t, c, k);
      assert CurrentClosure(u, c, k);
    }
    if c.state == NewEpochPending {
      var f, p, k :| Acceptance(t, c, f, p, k);
      assert Acceptance(u, c, f, p, k);
      assert !ClosedEpoch(u, c.candidate.value);
      assert HoldsCandidate(u, c);
    }
    assert ClosedEpoch(u, c.currentEpoch.value) <==> ClosedEpoch(t, c.currentEpoch.value);
  }

  lemma KeysFrame(t: Tables, u: Tables)
    requires Keyed(t)
    requires u == t.(cursors := u.cursors, mappings := u.mappings, closures := u.closures)
    ensures Keyed(u)
  {
  }

  lemma CursorKeeps(t: Tables, cid: Id, row: CursorRow)
    requires Consistent(t, cid) && row.id !in t.cursors
    ensures Consistent(t.(cursors := t.cursors[row.id := row]), cid)
  {
    hide Relates, Keyed;
    var u := t.(cursors := t.cursors[row.id := row]);
    assert Grows(t, u);
    GrowthKeepsRelations(t, u);
    FitsFrame(t, u, t.controllers[cid]);
    KeysFrame(t, u);
  }

  lemma AddMappingKeeps(t: Tables, cid: Id, m: Id)
    requires Consistent(t, cid)
    ensures Consistent(AddMapping(t, m), cid)
  {
    var u := AddMapping(t, m);
    assert Grows(t, u);
    GrowthKeepsRelations(t, u);
    FitsFrame(t, u, t.controllers[cid]);
    KeysFrame(t, u);
  }

  lemma CloseMappingKeeps(t: Tables, cid: Id, closure: Id, m: Id)
    requires Consistent(t, cid) && Enabled(t, cid, DoCloseMapping(closure, m))
    ensures Consistent(CloseMapping(t, closure, m), cid)
  {
    var u := CloseMapping(t, closure, m);
    CloseMappingExact(t, closure, m);
    FitsFrame(t, u, t.controllers[cid]);
    KeysFrame(t, u);
  }

  /** Every enabled step keeps the invariant, the snapshot relations included. */
  lemma StepKeepsConsistency(t: Tables, cid: Id, step: Step)
    requires Consistent(t, cid) && Enabled(t, cid, step)
    ensures Consistent(Next(t, cid, step), cid)
  {
    hide Consistent, ShockClose, Waiting, Pending, Release, NewShock, GapTransaction, SeedContinuity, GapReady;
    hide LatestClosure;
    hide AddMapping, CloseMapping;
    match step {
      case DoShock(p) => ShockKeeps(t, cid, p);
      case DoWait(p) => WaitKeeps(t, cid, p);
      case DoPend(p) => PendKeeps(t, cid, p);
      case DoRelease(p) => ReleaseKeeps(t, cid, p);
      case DoNewShock(p) => NewShockKeeps(t, cid, p);
      case DoGap(g, p) => GapKeeps(t, cid, g, p);
      case DoSeed(s) => SeedKeeps(t, cid, s);
      case DoCursor(row) => CursorKeeps(t, cid, row);
      case DoAddMapping(m) => AddMappingKeeps(t, cid, m);
      case DoCloseMapping(closure, m) => CloseMappingKeeps(t, cid, closure, m);
    }
  }
}
