/** The cross-table relations every retained snapshot must satisfy
    (tools/run_gap_coherence_crash_matrix.py:516-694). */
module Relations {
  import opened Prelude
  import opened Coherence

  /** What the schema's keys give the checker: rows sit under their own id, gap satellites
      reference recorded gaps, and a stream holds each generation once. */
  ghost predicate Keyed(t: Tables) {
    StreamKeys(t) && ControllerKeys(t)
  }

  ghost predicate ControllerKeys(t: Tables) {
    && (forall k {:trigger t.controllers[k]} :: k in t.controllers ==> t.controllers[k].id == k)
    && (forall k {:trigger t.epochs[k]} :: k in t.epochs ==> t.epochs[k].id == k)
    && (forall k {:trigger t.transitions[k]} :: k in t.transitions ==> t.transitions[k].id == k)
    && (forall k {:trigger t.shocks[k]} :: k in t.shocks ==> t.shocks[k].id == k)
    && (forall k {:trigger t.freshness[k]} :: k in t.freshness ==> t.freshness[k].id == k)
    && (forall k {:trigger t.proofs[k]} :: k in t.proofs ==> t.proofs[k].id == k)
  }

  ghost predicate StreamKeys(t: Tables) {
    && (forall k {:trigger t.generations[k]} :: k in t.generations ==> t.generations[k].id == k)
    && (forall k {:trigger t.gaps[k]} :: k in t.gaps ==> t.gaps[k].id == k)
    && (forall k {:trigger t.bindings[k]} :: k in t.bindings ==> t.bindings[k].id == k && t.bindings[k].gapId in t.gaps)
    && (forall k {:trigger t.generationTransitions[k]} :: k in t.generationTransitions ==>
          t.generationTransitions[k].id == k && t.generationTransitions[k].gapId in t.gaps)
    && (forall a, b {:trigger t.generations[a], t.generations[b]} ::
          (a in t.generations && b in t.generations && t.generations[a].stream == t.generations[b].stream
           && t.generations[a].generation == t.generations[b].generation) ==> a == b)
  }

  ghost predicate GenerationAt(t: Tables, id: Id, stream: StreamKey, generation: int) {
    id in t.generations && t.generations[id].stream == stream && t.generations[id].generation == generation
  }

  /** A late repair never sits in an active generation. */
  ghost predicate RawOk(t: Tables, raw: RawRow) {
    raw.disposition == "LATE_REPAIR_ONLY" ==>
      exists id :: GenerationAt(t, id, raw.stream, raw.generation) && t.generations[id].state != Active
  }

  /** At most one binding and one generation transition per gap. */
  ghost predicate GapSatellitesUnique(t: Tables) {
    && (forall a, b {:trigger t.bindings[a], t.bindings[b]} ::
          a in t.bindings && b in t.bindings && t.bindings[a].gapId == t.bindings[b].gapId ==> a == b)
    && (forall a, b {:trigger t.generationTransitions[a], t.generationTransitions[b]} ::
          (a in t.generationTransitions && b in t.generationTransitions
           && t.generationTransitions[a].gapId == t.generationTransitions[b].gapId) ==> a == b)
  }

  ghost predicate Reclosed(t: Tables, gap: GapRow) {
    exists later {:trigger t.gaps[later]} :: later in t.gaps && t.gaps[later].stream == gap.stream
      && t.gaps[later].predecessorGeneration == gap.successorGeneration
  }

  ghost predicate RunClosing(t: Tables, runId: Id) {
    exists m {:trigger t.runMeta[m]} :: m in t.runMeta && t.runMeta[m].runId == runId
      && t.runMeta[m].status in {"CLOSED", "DESTRUCTION_PENDING"}
  }

  ghost predicate PredecessorOk(t: Tables, gap: GapRow) {
    exists id :: GenerationAt(t, id, gap.stream, gap.predecessorGeneration)
      && t.generations[id].state != Active && t.generations[id].closeReason == Some(gap.reason)
  }

  ghost predicate SuccessorOk(t: Tables, gap: GapRow) {
    exists id :: GenerationAt(t, id, gap.stream, gap.successorGeneration)
      && (t.generations[id].state == Active
          || Reclosed(t, gap)
          || (t.generations[id].state == Closed && t.generations[id].closeReason == Some("RUN_CLOSED")
              && RunClosing(t, gap.stream.runId)))
  }

  const GAP_SHOCKS: set<string> :=
    {"SEQUENCE_GAP", "SCHEMA_CONFLICT", "LIFECYCLE_INVALIDATION", "EQUIVALENT_UNKNOWN_SHOCK"}

  /** The binding names the atomic shock that closed the affected epoch. */
  ghost predicate BindingOk(t: Tables, gap: GapRow, binding: BindingRow) {
    && binding.role == "AFFECTED_EPOCH_PERMANENTLY_CLOSED"
    && binding.transitionId in t.transitions
    && binding.controllerId in t.controllers
    && binding.shockId in t.shocks
    && (var transition, controller, shock :=
          t.transitions[binding.transitionId], t.controllers[binding.controllerId], t.shocks[binding.shockId];
        && transition.controllerId == controller.id
        && transition.predecessorEpoch == binding.predecessorEpoch
        && transition.shock == Some(shock.id)
        && transition.fromState in {Open, NewEpochOpen}
        && transition.toState == ShockedClosed
        && transition.reason == ShockAtomicClose
        && transition.bindingsVerified == 1
        && controller.runId == gap.stream.runId
        && controller.fixtureId == shock.fixtureId
        && shock.runId == gap.stream.runId
        && shock.shockType in GAP_SHOCKS)
  }

  ghost predicate GapOk(t: Tables, gap: GapRow) {
    && (exists b {:trigger t.bindings[b]} ::
      b in t.bindings && t.bindings[b].gapId == gap.id && BindingOk(t, gap, t.bindings[b]))
    && (exists g {:trigger t.generationTransitions[g]} ::
          g in t.generationTransitions && t.generationTransitions[g].gapId == gap.id
          && t.generationTransitions[g].predecessorGeneration == gap.predecessorGeneration
          && t.generationTransitions[g].successorGeneration == gap.successorGeneration)
    && PredecessorOk(t, gap)
    && SuccessorOk(t, gap)
  }

  predicate MappingUsable(t: Tables, mapping: Option<Id>) {
    mapping.Some? && mapping.value in t.mappings && mapping.value !in t.closures.Values
  }

  /** The proof and the freshness vector behind an accepted or released candidate. */
  ghost predicate EvidenceOk(t: Tables, transition: TransitionRow) {
    && transition.candidate.Some?
    && transition.proof.Some? && transition.proof.value in t.proofs
    && transition.freshness.Some? && transition.freshness.value in t.freshness
    && (var proof, vector := t.proofs[transition.proof.value], t.freshness[transition.freshness.value];
        && proof.predecessorEpoch == transition.predecessorEpoch
        && proof.candidate == transition.candidate
        && proof.shock == transition.shock
        && proof.freshness == Some(vector.id)
        && proof.status == "OBSERVED"
        && proof.verified == 1
        && proof.releasePredicate == "SATISFIED"
        && MappingUsable(t, proof.football) && MappingUsable(t, proof.operator) && MappingUsable(t, proof.marketBook)
        && proof.cursor.Some? && proof.cursor.value in t.cursors
        && vector.football == "FRESH" && vector.operator == "FRESH" && vector.marketBook == "FRESH")
  }

  /** The references of a transition, apart from its evidence. */
  ghost predicate ReferencesOk(t: Tables, transition: TransitionRow) {
    && transition.controllerId in t.controllers
    && transition.predecessorEpoch.Some? && transition.predecessorEpoch.value in t.epochs
    && (var controller, predecessor := t.controllers[transition.controllerId],
      t.epochs[transition.predecessorEpoch.value];
        && transition.fixtureId == controller.fixtureId
        && predecessor.runId == controller.runId && predecessor.fixtureId == controller.fixtureId
        && (transition.shock.Some? ==>
              && transition.shock.value in t.shocks
              && t.shocks[transition.shock.value].runId == controller.runId
              && t.shocks[transition.shock.value].fixtureId == controller.fixtureId)
        && (transition.candidate.Some? ==>
              && transition.candidate.value in t.epochs
              && t.epochs[transition.candidate.value].runId == controller.runId
              && t.epochs[transition.candidate.value].fixtureId == controller.fixtureId
              && t.epochs[transition.candidate.value].predecessor == Some(predecessor.id)))
  }

  predicate NeedsEvidence(reason: Reason) {
    reason.ResnapshotCandidateAccepted? || reason.ReleasePredicateSatisfied?
  }

  ghost predicate TransitionOk(t: Tables, transition: TransitionRow) {
    ReferencesOk(t, transition) && (NeedsEvidence(transition.reason) ==> EvidenceOk(t, transition))
  }

  ghost predicate RawsRelate(t: Tables) {
    forall k {:trigger t.rawCommits[k]} :: k in t.rawCommits ==> RawOk(t, t.rawCommits[k])
  }

  ghost predicate GapsRelate(t: Tables) {
    forall k {:trigger t.gaps[k]} :: k in t.gaps ==> GapOk(t, t.gaps[k])
  }

  ghost predicate TransitionsRelate(t: Tables) {
    forall k {:trigger t.transitions[k]} :: k in t.transitions ==> TransitionOk(t, t.transitions[k])
  }

  /** `_validate_snapshot_relations` accepts. */
  ghost predicate Relates(t: Tables) {
    RawsRelate(t) && GapSatellitesUnique(t) && GapsRelate(t) && TransitionsRelate(t)
  }
}
