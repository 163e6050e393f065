/** The snapshot relations in the columns of the joined rows: exactly which tables are accepted,
    and the tampered ones that are not. */
module RelationFacts {
  import opened Prelude
  import opened Coherence
  import opened Relations

  // ----- evidence -----

  /** The evidence of a transition: an observed, satisfied proof of the transition's own
      predecessor, candidate and shock over a vector that is fresh in all three parts, with three
      recorded mappings none of which was closed and a recorded cursor. */
  ghost predicate Proved(
      t: Tables, r: TransitionRow, candidate: Id, proof: Id, vector: Id, football: Id, operator: Id, marketBook: Id,
      cursor: Id)
  {
    && r.candidate == Some(candidate) && r.proof == Some(proof) && r.freshness == Some(vector)
    && proof in t.proofs
    && t.proofs[proof] == ProofRow(proof, r.predecessorEpoch, Some(candidate), r.shock, Some(vector), "OBSERVED", 1,
                                   "SATISFIED", Some(football), Some(operator), Some(marketBook), Some(cursor))
    && vector in t.freshness && t.freshness[vector] == FreshnessRow(vector, "FRESH", "FRESH", "FRESH")
    && {football, operator, marketBook} <= t.mappings
    && (forall c :: c in t.closures ==> t.closures[c] !in {football, operator, marketBook})
    && cursor in t.cursors
  }

  ghost predicate HasProof(t: Tables, r: TransitionRow) {
    exists candidate, proof, vector, football, operator, marketBook, cursor ::
      Proved(t, r, candidate, proof, vector, football, operator, marketBook, cursor)
  }

  lemma EvidenceExact(t: Tables, r: TransitionRow)
    requires ControllerKeys(t)
    ensures EvidenceOk(t, r) <==> HasProof(t, r)
  {
    if EvidenceOk(t, r) {
      var p := t.proofs[r.proof.value];
      assert forall c :: c in t.closures ==> t.closures[c] in t.closures.Values;
      assert Proved(t, r, r.candidate.value, r.proof.value, r.freshness.value, p.football.value, p.operator.value,
                    p.marketBook.value, p.cursor.value);
    }
  }

  // ----- references -----

  /** The transition and everything it names belong to one run and fixture, and its candidate
      succeeds its predecessor. */
  ghost predicate WellReferenced(t: Tables, r: TransitionRow, epoch: Id) {
    && r.controllerId in t.controllers
    && r.predecessorEpoch == Some(epoch) && epoch in t.epochs
    && (var run, fixture := t.controllers[r.controllerId].runId, t.controllers[r.controllerId].fixtureId;
        && r.fixtureId == fixture
        && t.epochs[epoch] == EpochRow(epoch, run, fixture, t.epochs[epoch].predecessor,
                                       t.epochs[epoch].predecessorPermanentlyClosed)
        && (r.shock == None || (r.shock.value in t.shocks
                                && t.shocks[r.shock.value] ==
                                   ShockRow(r.shock.value, run, fixture, t.shocks[r.shock.value].shockType)))
        && (r.candidate == None
            || (r.candidate.value in t.epochs
                && t.epochs[r.candidate.value] ==
                   EpochRow(r.candidate.value, run, fixture, Some(epoch),
                            t.epochs[r.candidate.value].predecessorPermanentlyClosed))))
  }

  lemma ReferencesExact(t: Tables, r: TransitionRow)
    requires ControllerKeys(t)
    ensures ReferencesOk(t, r) <==> r.predecessorEpoch != None && WellReferenced(t, r, r.predecessorEpoch.value)
  {
  }

  // ----- gaps -----

  /** The binding ties the gap to one atomic shock close of one controller of the gap's run. */
  ghost predicate BoundBy(t: Tables, gap: GapRow, b: Id, transition: Id, controller: Id, shock: Id) {
    && b in t.bindings && transition in t.transitions && controller in t.controllers && shock in t.shocks
    && (var tr, c, s := t.transitions[transition], t.controllers[controller], t.shocks[shock];
        && t.bindings[b] == BindingRow(b, gap.id, tr.predecessorEpoch, controller, shock, transition,
                                       "AFFECTED_EPOCH_PERMANENTLY_CLOSED")
        && tr == TransitionRow(transition, controller, tr.fixtureId, tr.fromState, ShockedClosed, tr.predecessorEpoch,
                               tr.candidate, Some(shock), tr.freshness, tr.proof, 1, ShockAtomicClose, tr.at)
        && (tr.fromState == Open || tr.fromState == NewEpochOpen)
        && c.runId == gap.stream.runId
        && s == ShockRow(shock, gap.stream.runId, c.fixtureId, s.shockType)
        && (s.shockType == "SEQUENCE_GAP" || s.shockType == "SCHEMA_CONFLICT"
            || s.shockType == "LIFECYCLE_INVALIDATION" || s.shockType == "EQUIVALENT_UNKNOWN_SHOCK"))
  }

  ghost predicate HasBinding(t: Tables, gap: GapRow) {
    exists b, transition, controller, shock :: BoundBy(t, gap, b, transition, controller, shock)
  }

  ghost predicate HasMove(t: Tables, gap: GapRow) {
    exists m :: m in t.generationTransitions
      && t.generationTransitions[m] ==
         GenerationTransitionRow(m, gap.id, gap.predecessorGeneration, gap.successorGeneration)
  }

  /** Generation n of the stream, quarantined or closed. */
  ghost predicate Ended(t: Tables, g: Id, stream: StreamKey, n: int) {
    && g in t.generations && t.generations[g].stream == stream && t.generations[g].generation == n
    && (t.generations[g].state == QuarantinedGap || t.generations[g].state == Closed)
  }

  /** The predecessor has ended, for the reason of the gap. */
  ghost predicate HasPredecessor(t: Tables, gap: GapRow) {
    exists g :: Ended(t, g, gap.stream, gap.predecessorGeneration) && t.generations[g].closeReason == Some(gap.reason)
  }

  /** The successor is active, or the predecessor of a later gap, or closed with its run. */
  ghost predicate HasSuccessor(t: Tables, gap: GapRow) {
    exists g {:trigger t.generations[g]} :: g in t.generations
      && t.generations[g].stream == gap.stream && t.generations[g].generation == gap.successorGeneration
      && (t.generations[g].state == Active
          || (exists k {:trigger t.gaps[k]} :: k in t.gaps && t.gaps[k].stream == gap.stream
                && t.gaps[k].predecessorGeneration == gap.successorGeneration)
          || (t.generations[g].state == Closed && t.generations[g].closeReason == Some("RUN_CLOSED")
              && exists m {:trigger t.runMeta[m]} :: m in t.runMeta && t.runMeta[m].runId == gap.stream.runId
                   && (t.runMeta[m].status == "CLOSED" || t.runMeta[m].status == "DESTRUCTION_PENDING")))
  }

  lemma BindingExact(t: Tables, gap: GapRow, b: Id)
    requires Keyed(t) && b in t.bindings && t.bindings[b].gapId == gap.id
    ensures BindingOk(t, gap, t.bindings[b]) <==>
            BoundBy(t, gap, b, t.bindings[b].transitionId, t.bindings[b].controllerId, t.bindings[b].shockId)
  {
  }

  lemma HasBindingExact(t: Tables, gap: GapRow)
    requires Keyed(t)
    ensures HasBinding(t, gap) <==>
            exists b {:trigger t.bindings[b]} ::
              b in t.bindings && t.bindings[b].gapId == gap.id && BindingOk(t, gap, t.bindings[b])
  {
    hide Keyed, BindingOk;
    if b {:trigger t.bindings[b]} :|
        b in t.bindings && t.bindings[b].gapId == gap.id && BindingOk(t, gap, t.bindings[b]) {
      BindingExact(t, gap, b);
    }
    if b, transition, controller, shock :| BoundBy(t, gap, b, transition, controller, shock) {
      BindingExact(t, gap, b);
    }
  }

  lemma PredecessorExact(t: Tables, gap: GapRow)
    ensures PredecessorOk(t, gap) <==> HasPredecessor(t, gap)
  {
    if PredecessorOk(t, gap) {
      var g :| GenerationAt(t, g, gap.stream, gap.predecessorGeneration)
               && t.generations[g].state != Active && t.generations[g].closeReason == Some(gap.reason);
      assert Ended(t, g, gap.stream, gap.predecessorGeneration);
    }
    if HasPredecessor(t, gap) {
      var g :| Ended(t, g, gap.stream, gap.predecessorGeneration)
               && t.generations[g].closeReason == Some(gap.reason);
      assert GenerationAt(t, g, gap.stream, gap.predecessorGeneration);
    }
  }

  lemma SuccessorExact(t: Tables, gap: GapRow)
    ensures SuccessorOk(t, gap) <==> HasSuccessor(t, gap)
  {
    if HasSuccessor(t, gap) {
      var g {:trigger t.generations[g]} :| g in t.generations
        && t.generations[g].stream == gap.stream && t.generations[g].generation == gap.successorGeneration
        && (t.generations[g].state == Active
            || (exists k {:trigger t.gaps[k]} :: k in t.gaps && t.gaps[k].stream == gap.stream
                  && t.gaps[k].predecessorGeneration == gap.successorGeneration)
            || (t.generations[g].state == Closed && t.generations[g].closeReason == Some("RUN_CLOSED")
                && exists m {:trigger t.runMeta[m]} :: m in t.runMeta && t.runMeta[m].runId == gap.stream.runId
                     && (t.runMeta[m].status == "CLOSED" || t.runMeta[m].status == "DESTRUCTION_PENDING")));
      assert GenerationAt(t, g, gap.stream, gap.successorGeneration);
    }
  }

  lemma MoveExact(t: Tables, gap: GapRow)
    requires StreamKeys(t)
    ensures HasMove(t, gap) <==>
            exists g {:trigger t.generationTransitions[g]} ::
              g in t.generationTransitions && t.generationTransitions[g].gapId == gap.id
              && t.generationTransitions[g].predecessorGeneration == gap.predecessorGeneration
              && t.generationTransitions[g].successorGeneration == gap.successorGeneration
  {
  }

  /** What a recorded gap needs, in columns. */
  ghost predicate Backed(t: Tables, gap: GapRow) {
    HasBinding(t, gap) && HasMove(t, gap) && HasPredecessor(t, gap) && HasSuccessor(t, gap)
  }

  lemma GapExact(t: Tables, gap: GapRow)
    requires Keyed(t)
    ensures GapOk(t, gap) <==> Backed(t, gap)
  {
    hide BindingOk, PredecessorOk, SuccessorOk, HasBinding, HasMove, HasPredecessor, HasSuccessor;
    HasBindingExact(t, gap);
    MoveExact(t, gap);
    PredecessorExact(t, gap);
    SuccessorExact(t, gap);
  }

  // ----- raw commits -----

  ghost predicate RepairedLate(t: Tables, raw: RawRow) {
    raw.disposition == "LATE_REPAIR_ONLY" ==> exists g :: Ended(t, g, raw.stream, raw.generation)
  }

  lemma RawExact(t: Tables, raw: RawRow)
    ensures RawOk(t, raw) <==> RepairedLate(t, raw)
  {
    if g :| GenerationAt(t, g, raw.stream, raw.generation) && t.generations[g].state != Active {
      assert Ended(t, g, raw.stream, raw.generation);
    }
    if g :| Ended(t, g, raw.stream, raw.generation) {
      assert GenerationAt(t, g, raw.stream, raw.generation);
    }
  }

  // ----- the verdict -----

  ghost predicate OneRowPerGap(t: Tables) {
    && (forall a, b {:trigger t.bindings[a], t.bindings[b]} :: a in t.bindings && b in t.bindings && a != b ==>
          t.bindings[a].gapId != t.bindings[b].gapId)
    && (forall a, b {:trigger t.generationTransitions[a], t.generationTransitions[b]} ::
          a in t.generationTransitions && b in t.generationTransitions && a != b ==>
            t.generationTransitions[a].gapId != t.generationTransitions[b].gapId)
  }

  /** A transition is well referenced, and proved if it accepts or releases a candidate. */
  ghost predicate Supported(t: Tables, r: TransitionRow) {
    && r.predecessorEpoch != None && WellReferenced(t, r, r.predecessorEpoch.value)
    && (r.reason == ResnapshotCandidateAccepted || r.reason == ReleasePredicateSatisfied ==> HasProof(t, r))
  }

  /** The whole relation check: every late repair sits in a generation that is not active, a gap
      has at most one binding and one generation transition, every gap is backed and every
      transition supported. */
  lemma RelatesExact(t: Tables)
    requires Keyed(t)
    ensures Relates(t) <==>
            && (forall k {:trigger t.rawCommits[k]} :: k in t.rawCommits ==> RepairedLate(t, t.rawCommits[k]))
            && OneRowPerGap(t)
            && (forall k {:trigger t.gaps[k]} :: k in t.gaps ==> Backed(t, t.gaps[k]))
            && (forall k {:trigger t.transitions[k]} :: k in t.transitions ==> Supported(t, t.transitions[k]))
  {
    hide RawOk, GapOk, ReferencesOk, EvidenceOk, Backed, RepairedLate, WellReferenced, HasProof, StreamKeys;
    hide ControllerKeys;
    forall k | k in t.rawCommits
      ensures RawOk(t, t.rawCommits[k]) <==> RepairedLate(t, t.rawCommits[k])
    {
      RawExact(t, t.rawCommits[k]);
    }
    forall k | k in t.gaps
      ensures GapOk(t, t.gaps[k]) <==> Backed(t, t.gaps[k])
    {
      GapExact(t, t.gaps[k]);
    }
    forall k | k in t.transitions
      ensures TransitionOk(t, t.transitions[k]) <==> Supported(t, t.transitions[k])
    {
      ReferencesExact(t, t.transitions[k]);
      EvidenceExact(t, t.transitions[k]);
    }
  }

  // ----- tampered tables -----

  /** A vector that is stale in any part, or a proof that was not observed, not verified, not
      satisfied or made for another epoch, candidate, shock or vector, is rejected with any
      transition that accepts or releases a candidate on it. */
  lemma BadEvidenceIsRejected(t: Tables, k: Id, proof: Id, vector: Id)
    requires k in t.transitions
    requires t.transitions[k].reason in {ResnapshotCandidateAccepted, ReleasePredicateSatisfied}
    requires t.transitions[k].proof == Some(proof) && t.transitions[k].freshness == Some(vector)
    requires proof in t.proofs && vector in t.freshness && t.freshness[vector].id == vector
    requires var r, p, v := t.transitions[k], t.proofs[proof], t.freshness[vector];
             || v.football != "FRESH" || v.operator != "FRESH" || v.marketBook != "FRESH"
             || p.status != "OBSERVED" || p.verified != 1 || p.releasePredicate != "SATISFIED"
             || p.predecessorEpoch != r.predecessorEpoch || p.candidate != r.candidate || p.shock != r.shock
             || p.freshness != Some(vector)
    ensures !Relates(t)
  {
    assert !TransitionOk(t, t.transitions[k]);
  }

  /** So is a proof whose mapping is missing, unknown or closed, or whose cursor is unknown. */
  lemma BadMappingIsRejected(t: Tables, k: Id, proof: Id, mapping: Option<Id>)
    requires k in t.transitions
    requires t.transitions[k].reason in {ResnapshotCandidateAccepted, ReleasePredicateSatisfied}
    requires t.transitions[k].proof == Some(proof) && proof in t.proofs
    requires mapping in {t.proofs[proof].football, t.proofs[proof].operator, t.proofs[proof].marketBook}
    requires mapping == None || mapping.value !in t.mappings
             || (exists c :: c in t.closures && t.closures[c] == mapping.value)
             || t.proofs[proof].cursor == None || t.proofs[proof].cursor.value !in t.cursors
    ensures !Relates(t)
  {
    assert !MappingUsable(t, mapping) || t.proofs[proof].cursor == None || t.proofs[proof].cursor.value !in t.cursors;
    assert !TransitionOk(t, t.transitions[k]);
  }

  /** A gap bound to a transition that closed another epoch, by another shock or controller, for
      another reason, unverified or from a state that was not open, is rejected. */
  lemma BadBindingIsRejected(t: Tables, gap: Id, b: Id)
    requires Keyed(t) && gap in t.gaps && b in t.bindings && t.bindings[b].gapId == gap
    requires var binding := t.bindings[b];
             binding.transitionId in t.transitions ==>
               var r := t.transitions[binding.transitionId];
               || r.predecessorEpoch != binding.predecessorEpoch || r.shock != Some(binding.shockId)
               || r.controllerId != binding.controllerId || r.reason != ShockAtomicClose || r.bindingsVerified != 1
               || r.toState != ShockedClosed || r.fromState !in {Open, NewEpochOpen}
    ensures !Relates(t)
  {
    hide PredecessorOk, SuccessorOk;
    if GapSatellitesUnique(t) {
      assert !BindingOk(t, t.gaps[gap], t.bindings[b]);
      assert !GapOk(t, t.gaps[gap]);
    }
  }

  /** A late repair in an active generation is rejected. */
  lemma LateRepairInActiveGenerationIsRejected(t: Tables, k: Id, g: Id)
    requires Keyed(t) && k in t.rawCommits && g in t.generations
    requires t.rawCommits[k].disposition == "LATE_REPAIR_ONLY"
    requires t.generations[g].stream == t.rawCommits[k].stream
    requires t.generations[g].generation == t.rawCommits[k].generation && t.generations[g].state == Active
    ensures !Relates(t)
  {
    assert !RawOk(t, t.rawCommits[k]);
  }

  /** A recorded gap whose predecessor is still active, or was closed for another reason, is
      rejected. */
  lemma OpenPredecessorIsRejected(t: Tables, gap: Id, g: Id)
    requires Keyed(t) && gap in t.gaps && g in t.generations
    requires t.generations[g].stream == t.gaps[gap].stream
    requires t.generations[g].generation == t.gaps[gap].predecessorGeneration
    requires t.generations[g].state == Active || t.generations[g].closeReason != Some(t.gaps[gap].reason)
    ensures !Relates(t)
  {
    assert !PredecessorOk(t, t.gaps[gap]);
    assert !GapOk(t, t.gaps[gap]);
  }
}
