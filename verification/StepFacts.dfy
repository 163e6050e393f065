/** The controller steps in the columns of the rows they write, and what every run leaves in the
    journal: each transition of one of five shapes, each epoch after a closed one. */
module StepFacts {
  import opened Prelude
  import opened Coherence
  import opened Relations
  import opened ControllerSteps
  import opened GapFacts
  import opened ControllerRuns
  import opened RunLaws

  // ----- one step -----

  /** The tables of the stream and of the mappings' closures, which no controller step writes. */
  predicate StreamsKept(t: Tables, u: Tables) {
    && u.runMeta == t.runMeta && u.generations == t.generations && u.gaps == t.gaps && u.bindings == t.bindings
    && u.generationTransitions == t.generationTransitions && u.closures == t.closures && u.cursors == t.cursors
    && u.rawCommits == t.rawCommits
  }

  /** Exactly one transition and the controller row are written. */
  predicate Writes(t: Tables, u: Tables, row: TransitionRow, d: ControllerRow) {
    && row.id in u.transitions && u.transitions[row.id] == row && SameExcept(t.transitions, u.transitions, row.id)
    && d.id in u.controllers && u.controllers[d.id] == d && SameExcept(t.controllers, u.controllers, d.id)
  }

  lemma ShockColumns(t: Tables, cid: Id, p: ShockParams)
    requires cid in t.controllers && t.controllers[cid].id == cid
    ensures var c, u := t.controllers[cid], ShockClose(t, cid, p);
            && Writes(t, u,
                      TransitionRow(p.transition, cid, c.fixtureId, c.state, ShockedClosed, c.currentEpoch, None,
                                    Some(p.shock), None, None, 1, ShockAtomicClose, p.at),
                      ControllerRow(cid, c.runId, c.fixtureId, ShockedClosed, c.currentEpoch, c.candidate,
                                    c.predecessor, Some(p.shock), c.revision + 1, p.at))
            && p.shock in u.shocks && u.shocks[p.shock] == ShockRow(p.shock, c.runId, c.fixtureId, p.shockType)
            && SameExcept(t.shocks, u.shocks, p.shock)
            && StreamsKept(t, u) && u.epochs == t.epochs && u.freshness == t.freshness && u.proofs == t.proofs
            && u.mappings == t.mappings
  {
  }

  lemma WaitColumns(t: Tables, cid: Id, p: WaitParams)
    requires cid in t.controllers && t.controllers[cid].id == cid
    ensures var c, u := t.controllers[cid], Waiting(t, cid, p);
            && Writes(t, u,
                      TransitionRow(p.transition, cid, c.fixtureId, ShockedClosed, WaitingForResnapshot, c.currentEpoch,
                                    None, c.activeShock, None, None, 1, CloseRecorded, p.at),
                      ControllerRow(cid, c.runId, c.fixtureId, WaitingForResnapshot, c.currentEpoch, c.candidate,
                                    c.predecessor, c.activeShock, c.revision + 1, p.at))
            && StreamsKept(t, u) && u.epochs == t.epochs && u.freshness == t.freshness && u.proofs == t.proofs
            && u.mappings == t.mappings && u.shocks == t.shocks
  {
  }

  lemma PendColumns(t: Tables, cid: Id, p: PendParams)
    requires cid in t.controllers && t.controllers[cid].id == cid
    ensures var c, u := t.controllers[cid], Pending(t, cid, p);
            && Writes(t, u,
                      TransitionRow(p.transition, cid, c.fixtureId, WaitingForResnapshot, NewEpochPending,
                                    c.currentEpoch, Some(p.candidate), c.activeShock, Some(p.freshness), Some(p.proof),
                                    1, ResnapshotCandidateAccepted, p.at),
                      ControllerRow(cid, c.runId, c.fixtureId, NewEpochPending, c.currentEpoch, Some(p.candidate),
                                    c.currentEpoch, c.activeShock, c.revision + 1, p.at))
            && StreamsKept(t, u) && u.shocks == t.shocks
  {
  }

  lemma PendEvidenceColumns(t: Tables, cid: Id, p: PendParams)
    requires cid in t.controllers && t.controllers[cid].id == cid
    ensures var c, u := t.controllers[cid], Pending(t, cid, p);
            && p.candidate in u.epochs && SameExcept(t.epochs, u.epochs, p.candidate)
            && u.epochs[p.candidate] == EpochRow(p.candidate, c.runId, c.fixtureId, c.currentEpoch, 1)
            && p.freshness in u.freshness && SameExcept(t.freshness, u.freshness, p.freshness)
            && u.freshness[p.freshness] == FreshnessRow(p.freshness, "FRESH", "FRESH", "FRESH")
            && p.proof in u.proofs && SameExcept(t.proofs, u.proofs, p.proof)
            && u.proofs[p.proof] ==
               ProofRow(p.proof, c.currentEpoch, Some(p.candidate), c.activeShock, Some(p.freshness), "OBSERVED", 1,
                        "SATISFIED", Some(p.football), Some(p.operator), Some(p.marketBook), Some(p.cursor))
            && u.mappings == t.mappings + {p.football, p.operator, p.marketBook}
  {
  }

  lemma ReleaseColumns(t: Tables, cid: Id, p: ReleaseParams)
    requires cid in t.controllers && t.controllers[cid].id == cid
    ensures var c, u := t.controllers[cid], Release(t, cid, p);
            && Writes(t, u,
                      TransitionRow(p.transition, cid, c.fixtureId, NewEpochPending, NewEpochOpen, c.currentEpoch,
                                    c.candidate, c.activeShock, Some(p.freshness), Some(p.proof), 1,
                                    ReleasePredicateSatisfied, p.at),
                      ControllerRow(cid, c.runId, c.fixtureId, NewEpochOpen, c.candidate, None, c.predecessor,
                                    c.activeShock, c.revision + 1, p.at))
            && StreamsKept(t, u) && u.epochs == t.epochs && u.freshness == t.freshness && u.proofs == t.proofs
            && u.mappings == t.mappings && u.shocks == t.shocks
  {
  }

  lemma NewShockColumns(t: Tables, cid: Id, p: NewShockParams)
    requires cid in t.controllers && t.controllers[cid].id == cid
    ensures var c, u := t.controllers[cid], NewShock(t, cid, p);
            && Writes(t, u,
                      TransitionRow(p.transition, cid, c.fixtureId, NewEpochPending, WaitingForResnapshot,
                                    c.currentEpoch, c.candidate, Some(p.shock), Some(p.freshness), Some(p.proof), 1,
                                    NewShockClosedCandidate, p.at),
                      ControllerRow(cid, c.runId, c.fixtureId, WaitingForResnapshot, c.currentEpoch, None,
                                    c.predecessor, Some(p.shock), c.revision + 1, p.at))
            && p.shock in u.shocks && u.shocks[p.shock] == ShockRow(p.shock, c.runId, c.fixtureId, "GOAL")
            && SameExcept(t.shocks, u.shocks, p.shock)
            && p.epoch in u.epochs && SameExcept(t.epochs, u.epochs, p.epoch)
            && u.epochs[p.epoch] == EpochRow(p.epoch, c.runId, c.fixtureId, c.candidate, 1)
            && StreamsKept(t, u) && u.freshness == t.freshness && u.proofs == t.proofs && u.mappings == t.mappings
  {
  }

  /** With new keys, a later date and, to accept a candidate, a generation-1 cursor and unused
      mappings, what can be done is decided by the controller state alone. */
  lemma StateDecides(t: Tables, cid: Id, shock: ShockParams, wait: WaitParams, pend: PendParams, again: NewShockParams)
    requires cid in t.controllers
    requires t.controllers[cid].updatedAt < shock.at && t.controllers[cid].updatedAt < wait.at
    requires t.controllers[cid].updatedAt < pend.at && t.controllers[cid].updatedAt < again.at
    requires {shock.transition, wait.transition, pend.transition, again.transition} !! t.transitions.Keys
    requires {shock.shock, again.shock} !! t.shocks.Keys && {pend.candidate, again.epoch} !! t.epochs.Keys
    requires pend.freshness !in t.freshness && pend.proof !in t.proofs
    requires pend.cursor in t.cursors && t.cursors[pend.cursor].generation == 1
    requires {pend.football, pend.operator, pend.marketBook} !! t.mappings + t.closures.Values
    ensures var state := t.controllers[cid].state;
            && (Enabled(t, cid, DoShock(shock)) <==> state == Open || state == NewEpochOpen)
            && (Enabled(t, cid, DoWait(wait)) <==> state == ShockedClosed)
            && (Enabled(t, cid, DoPend(pend)) <==> state == WaitingForResnapshot)
            && (Enabled(t, cid, DoNewShock(again)) <==> state == NewEpochPending)
  {
    assert shock.transition in {shock.transition, wait.transition, pend.transition, again.transition};
    assert again.shock in {shock.shock, again.shock} && again.epoch in {pend.candidate, again.epoch};
  }

  // ----- every run -----

  /** An earlier acceptance of the candidate under the same epoch, shock and evidence. */
  ghost predicate AcceptedAs(t: Tables, r: TransitionRow, k: Id) {
    && k in t.transitions
    && t.transitions[k] == TransitionRow(t.transitions[k].id, r.controllerId, r.fixtureId, WaitingForResnapshot,
                                         NewEpochPending, r.predecessorEpoch, r.candidate, r.shock, r.freshness,
                                         r.proof, 1, ResnapshotCandidateAccepted, t.transitions[k].at)
    && t.transitions[k].at < r.at
  }

  /** The five shapes a journal row can have. */
  ghost predicate Shaped(t: Tables, r: TransitionRow) {
    && r.bindingsVerified == 1 && r.shock.Some? && r.predecessorEpoch.Some?
    && match r.reason
       case ShockAtomicClose =>
         && r.fromState in {Open, NewEpochOpen} && r.toState == ShockedClosed
         && r.candidate == None && r.freshness == None && r.proof == None
       case CloseRecorded =>
         && r.fromState == ShockedClosed && r.toState == WaitingForResnapshot
         && r.candidate == None && r.freshness == None && r.proof == None
       case ResnapshotCandidateAccepted =>
         && r.fromState == WaitingForResnapshot && r.toState == NewEpochPending
         && r.candidate != None && r.freshness != None && r.proof != None
       case ReleasePredicateSatisfied =>
         && r.fromState == NewEpochPending && r.toState == NewEpochOpen
         && r.candidate != None && exists k :: AcceptedAs(t, r, k)
       case NewShockClosedCandidate =>
         && r.fromState == NewEpochPending && r.toState == WaitingForResnapshot
         && r.candidate != None
       case OtherReason(_) => false
  }

  /** The epoch is the first one, or its recorded predecessor really was closed for good by a
      recorded transition. */
  ghost predicate FollowsClosed(t: Tables, e: EpochRow) {
    if e.predecessor == None then e.predecessorPermanentlyClosed == 0
    else e.predecessorPermanentlyClosed == 1 && e.predecessor.value in t.epochs && ClosedEpoch(t, e.predecessor.value)
  }

  ghost predicate AllShaped(t: Tables) {
    forall k {:trigger t.transitions[k]} :: k in t.transitions ==> Shaped(t, t.transitions[k])
  }

  ghost predicate AllFollowClosed(t: Tables) {
    forall k {:trigger t.epochs[k]} :: k in t.epochs ==> FollowsClosed(t, t.epochs[k])
  }

  lemma ShapeStays(t: Tables, u: Tables, r: TransitionRow)
    requires Shaped(t, r) && Extends(t.transitions, u.transitions)
    ensures Shaped(u, r)
  {
    if r.reason.ReleasePredicateSatisfied? {
      var k :| AcceptedAs(t, r, k);
      assert AcceptedAs(u, r, k);
    }
  }

  lemma FollowingStays(t: Tables, cid: Id, step: Step, e: EpochRow)
    requires Consistent(t, cid) && Enabled(t, cid, step) && FollowsClosed(t, e)
    ensures FollowsClosed(Next(t, cid, step), e)
  {
    hide Consistent, Enabled, Next, ClosedEpoch;
    if e.predecessor != None {
      StepKeepsClosedEpochs(t, cid, step, e.predecessor.value);
      StepEvolves(t, cid, step);
    }
  }

  /** The row a step appends, if any, has one of the five shapes. */
  lemma AppendedRowIsShaped(t: Tables, cid: Id, step: Step)
    requires Consistent(t, cid) && Enabled(t, cid, step) && AllShaped(t)
    ensures forall r :: r in RowsOf(t, cid, step) ==> Shaped(Next(t, cid, step), r)
  {
    hide Relates, Keyed, Next, GenerationsShaped;
    var c := t.controllers[cid];
    match step {
      case DoShock(p) => ShockRowIsShaped(t, cid, p);
      case DoWait(p) => WaitRowIsShaped(t, cid, p);
      case DoPend(p) => PendRowIsShaped(t, cid, p);
      case DoRelease(p) => ReleaseRowIsShaped(t, cid, p);
      case DoNewShock(p) => NewShockRowIsShaped(t, cid, p);
      case DoGap(g, p) => GapRowIsShaped(t, cid, g, p);
      case _ =>
    }
  }

  lemma ShockRowIsShaped(t: Tables, cid: Id, p: ShockParams)
    requires Consistent(t, cid) && Enabled(t, cid, DoShock(p))
    ensures forall r :: r in RowsOf(t, cid, DoShock(p)) ==> Shaped(Next(t, cid, DoShock(p)), r)
  {
    hide Relates, StreamKeys, HistoryFits, ShockClose;
    ShockColumns(t, cid, p);
  }

  lemma WaitRowIsShaped(t: Tables, cid: Id, p: WaitParams)
    requires Consistent(t, cid) && Enabled(t, cid, DoWait(p))
    ensures forall r :: r in RowsOf(t, cid, DoWait(p)) ==> Shaped(Next(t, cid, DoWait(p)), r)
  {
    hide Relates, StreamKeys, HistoryFits, Waiting;
    WaitColumns(t, cid, p);
  }

  lemma PendRowIsShaped(t: Tables, cid: Id, p: PendParams)
    requires Consistent(t, cid) && Enabled(t, cid, DoPend(p))
    ensures forall r :: r in RowsOf(t, cid, DoPend(p)) ==> Shaped(Next(t, cid, DoPend(p)), r)
  {
    hide Relates, StreamKeys, HistoryFits, Pending;
    PendColumns(t, cid, p);
  }

  lemma ReleaseRowIsShaped(t: Tables, cid: Id, p: ReleaseParams)
    requires Consistent(t, cid) && Enabled(t, cid, DoRelease(p)) && AllShaped(t)
    ensures forall r :: r in RowsOf(t, cid, DoRelease(p)) ==> Shaped(Next(t, cid, DoRelease(p)), r)
  {
    hide Relates, StreamKeys, GenerationsShaped, Release;
    ReleaseColumns(t, cid, p);
    var c, u := t.controllers[cid], Next(t, cid, DoRelease(p));
    var k :| Acceptance(t, c, p.freshness, p.proof, k);
    AcceptanceFixture(t, cid, k);
    assert Shaped(t, t.transitions[k]);
    assert k in t.transitions - {p.transition};
    assert u.transitions[k] == t.transitions[k];
    assert AcceptedAs(u, u.transitions[p.transition], k);
  }

  lemma AcceptanceFixture(t: Tables, cid: Id, k: Id)
    requires Consistent(t, cid) && k in t.transitions
    ensures t.transitions[k].fixtureId == t.controllers[cid].fixtureId && t.transitions[k].controllerId == cid
  {
    assert ReferencesOk(t, t.transitions[k]);
  }

  lemma NewShockRowIsShaped(t: Tables, cid: Id, p: NewShockParams)
    requires Consistent(t, cid) && Enabled(t, cid, DoNewShock(p))
    ensures forall r :: r in RowsOf(t, cid, DoNewShock(p)) ==> Shaped(Next(t, cid, DoNewShock(p)), r)
  {
    hide Relates, StreamKeys, HistoryFits, NewShock;
    NewShockColumns(t, cid, p);
  }

  lemma GapRowIsShaped(t: Tables, cid: Id, g: GapParams, p: ShockParams)
    requires Consistent(t, cid) && Enabled(t, cid, DoGap(g, p))
    ensures forall r :: r in RowsOf(t, cid, DoGap(g, p)) ==> Shaped(Next(t, cid, DoGap(g, p)), r)
  {
    hide Relates, StreamKeys, HistoryFits, GapPrefix;
    CoherenceRowsWritten(t, cid, g, p, 8);
  }

  lemma StepKeepsShapes(t: Tables, cid: Id, step: Step)
    requires Consistent(t, cid) && Enabled(t, cid, step) && AllShaped(t)
    ensures AllShaped(Next(t, cid, step))
  {
    hide Consistent, Enabled, Next, Shaped;
    var u := Next(t, cid, step);
    StepAgrees(t, cid, step);
    StepEvolves(t, cid, step);
    AppendedRowIsShaped(t, cid, step);
    forall k | k in u.transitions
      ensures Shaped(u, u.transitions[k])
    {
      if k in t.transitions {
        ShapeStays(t, u, t.transitions[k]);
      }
    }
  }

  /** The epochs a step adds follow closed ones. */
  lemma AddedEpochFollows(t: Tables, cid: Id, step: Step, e: Id)
    requires Consistent(t, cid) && Enabled(t, cid, step)
    requires e in Next(t, cid, step).epochs && e !in t.epochs
    ensures FollowsClosed(Next(t, cid, step), Next(t, cid, step).epochs[e])
  {
    hide Relates, StreamKeys, HistoryFits, ClosedEpoch;
    if step.DoPend? {
      PendEvidenceColumns(t, cid, step.pend);
      StepKeepsClosedEpochs(t, cid, step, t.controllers[cid].currentEpoch.value);
    } else if step.DoNewShock? {
      NewShockColumns(t, cid, step.newShock);
      NewShockCloses(t, cid, step.newShock);
    } else if step.DoGap? {
      GapLeavesAlone(t, cid, step.gap, step.gapShock, 8);
    }
  }

  lemma NewShockCloses(t: Tables, cid: Id, p: NewShockParams)
    requires Consistent(t, cid) && Enabled(t, cid, DoNewShock(p))
    ensures t.controllers[cid].candidate.Some?
    ensures ClosedEpoch(NewShock(t, cid, p), t.controllers[cid].candidate.value)
  {
    hide Relates, StreamKeys, HistoryFits, NewShock;
    NewShockColumns(t, cid, p);
    var u := NewShock(t, cid, p);
    assert Closes(u.transitions[p.transition], t.controllers[cid].candidate.value);
  }

  lemma StepKeepsEpochs(t: Tables, cid: Id, step: Step)
    requires Consistent(t, cid) && Enabled(t, cid, step) && AllFollowClosed(t)
    ensures AllFollowClosed(Next(t, cid, step))
  {
    hide Consistent, Enabled, Next, FollowsClosed;
    var u := Next(t, cid, step);
    StepEvolves(t, cid, step);
    forall k | k in u.epochs
      ensures FollowsClosed(u, u.epochs[k])
    {
      if k in t.epochs {
        FollowingStays(t, cid, step, t.epochs[k]);
      } else {
        AddedEpochFollows(t, cid, step, k);
      }
    }
  }

  lemma {:induction false} RunKeepsShapes(t: Tables, cid: Id, steps: seq<Step>)
    requires Consistent(t, cid) && ValidRun(t, cid, steps) && AllShaped(t) && AllFollowClosed(t)
    ensures AllShaped(After(t, cid, steps)) && AllFollowClosed(After(t, cid, steps))
    decreases |steps|
  {
    hide Consistent, Enabled, Next, AllShaped, AllFollowClosed;
    if steps != [] {
      StepKeepsConsistency(t, cid, steps[0]);
      StepKeepsShapes(t, cid, steps[0]);
      StepKeepsEpochs(t, cid, steps[0]);
      RunKeepsShapes(Next(t, cid, steps[0]), cid, steps[1..]);
    }
  }

  /** Over every run from its start: each transition has one of the five shapes, each release
      repeats the evidence of an earlier acceptance, and each epoch that names a predecessor
      names one that a recorded transition closed for good. */
  lemma JournalGrammar(
      cid: Id, runId: Id, fixtureId: Id, epoch: Id, generation: Id, stream: StreamKey, steps: seq<Step>)
    requires Consistent(FreshRun(cid, runId, fixtureId, epoch, generation, stream), cid)
    requires ValidRun(FreshRun(cid, runId, fixtureId, epoch, generation, stream), cid, steps)
    ensures var u := After(FreshRun(cid, runId, fixtureId, epoch, generation, stream), cid, steps);
            && (forall k {:trigger u.transitions[k]} :: k in u.transitions ==> Shaped(u, u.transitions[k]))
            && (forall k {:trigger u.epochs[k]} :: k in u.epochs ==> FollowsClosed(u, u.epochs[k]))
  {
    hide Consistent;
    RunKeepsShapes(FreshRun(cid, runId, fixtureId, epoch, generation, stream), cid, steps);
  }
}
