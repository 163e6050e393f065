/** How appended rows affect the snapshot relations. */
module RelationLaws {
  import opened Prelude
  import opened Coherence
  import opened Relations
  import opened ControllerSteps

  predicate SameIdentity(a: ControllerRow, b: ControllerRow) {
    a.id == b.id && a.runId == b.runId && a.fixtureId == b.fixtureId
  }

  /** The append-only tables only gain rows, controllers keep their identity, and neither the
      run status nor the mapping closures change. */
  ghost predicate Grows(t: Tables, u: Tables) {
    && Extends(t.gaps, u.gaps)
    && Extends(t.bindings, u.bindings)
    && Extends(t.generationTransitions, u.generationTransitions)
    && Extends(t.epochs, u.epochs)
    && Extends(t.transitions, u.transitions)
    && Extends(t.shocks, u.shocks)
    && Extends(t.freshness, u.freshness)
    && Extends(t.proofs, u.proofs)
    && Extends(t.cursors, u.cursors)
    && t.mappings <= u.mappings
    && t.closures == u.closures
    && t.runMeta == u.runMeta
    && (forall k :: k in t.controllers ==> k in u.controllers && SameIdentity(t.controllers[k], u.controllers[k]))
  }

  lemma GrowthKeepsTransition(t: Tables, u: Tables, transition: TransitionRow)
    requires Grows(t, u) && TransitionOk(t, transition)
    ensures TransitionOk(u, transition)
  {
    GrowthKeepsReferences(t, u, transition);
    if NeedsEvidence(transition.reason) {
      GrowthKeepsEvidence(t, u, transition);
    }
  }

  lemma GrowthKeepsReferences(t: Tables, u: Tables, transition: TransitionRow)
    requires Grows(t, u) && ReferencesOk(t, transition)
    ensures ReferencesOk(u, transition)
  {
  }

  lemma GrowthKeepsEvidence(t: Tables, u: Tables, transition: TransitionRow)
    requires Grows(t, u) && EvidenceOk(t, transition)
    ensures EvidenceOk(u, transition)
  {
    assert u.proofs[transition.proof.value] == t.proofs[transition.proof.value];
    assert u.freshness[transition.freshness.value] == t.freshness[transition.freshness.value];
  }

  lemma GrowthKeepsBinding(t: Tables, u: Tables, gap: GapRow, binding: BindingRow)
    requires Grows(t, u) && BindingOk(t, gap, binding)
    ensures BindingOk(u, gap, binding)
  {
  }

  ghost predicate BoundAndMoved(t: Tables, gap: GapRow) {
    && (exists b {:trigger t.bindings[b]} ::
      b in t.bindings && t.bindings[b].gapId == gap.id && BindingOk(t, gap, t.bindings[b]))
    && (exists g {:trigger t.generationTransitions[g]} ::
          g in t.generationTransitions && t.generationTransitions[g].gapId == gap.id
          && t.generationTransitions[g].predecessorGeneration == gap.predecessorGeneration
          && t.generationTransitions[g].successorGeneration == gap.successorGeneration)
  }

  lemma GrowthKeepsBoundAndMoved(t: Tables, u: Tables, gap: GapRow)
    requires Grows(t, u) && BoundAndMoved(t, gap)
    ensures BoundAndMoved(u, gap)
  {
    var b :| b in t.bindings && t.bindings[b].gapId == gap.id && BindingOk(t, gap, t.bindings[b]);
    GrowthKeepsBinding(t, u, gap, t.bindings[b]);
    assert u.bindings[b] == t.bindings[b];
    var g :| g in t.generationTransitions && t.generationTransitions[g].gapId == gap.id
             && t.generationTransitions[g].predecessorGeneration == gap.predecessorGeneration
             && t.generationTransitions[g].successorGeneration == gap.successorGeneration;
    assert u.generationTransitions[g] == t.generationTransitions[g];
  }

  lemma GrowthKeepsGap(t: Tables, u: Tables, gap: GapRow)
    requires Grows(t, u) && Extends(t.generations, u.generations) && GapOk(t, gap)
    ensures GapOk(u, gap)
  {
    GrowthKeepsBoundAndMoved(t, u, gap);
    var id :| GenerationAt(t, id, gap.stream, gap.predecessorGeneration)
              && t.generations[id].state != Active && t.generations[id].closeReason == Some(gap.reason);
    assert GenerationAt(u, id, gap.stream, gap.predecessorGeneration);
    GrowthKeepsSuccessor(t, u, gap);
  }

  lemma GrowthKeepsReclosed(t: Tables, u: Tables, gap: GapRow)
    requires Grows(t, u) && Reclosed(t, gap)
    ensures Reclosed(u, gap)
  {
    var later :| later in t.gaps && t.gaps[later].stream == gap.stream
                 && t.gaps[later].predecessorGeneration == gap.successorGeneration;
    assert u.gaps[later] == t.gaps[later];
  }

  lemma GrowthKeepsSuccessor(t: Tables, u: Tables, gap: GapRow)
    requires Grows(t, u) && Extends(t.generations, u.generations) && SuccessorOk(t, gap)
    ensures SuccessorOk(u, gap)
  {
    if Reclosed(t, gap) {
      GrowthKeepsReclosed(t, u, gap);
    }
    assert RunClosing(t, gap.stream.runId) ==> RunClosing(u, gap.stream.runId);
    var id :| GenerationAt(t, id, gap.stream, gap.successorGeneration)
              && (t.generations[id].state == Active
                  || Reclosed(t, gap)
                  || (t.generations[id].state == Closed && t.generations[id].closeReason == Some("RUN_CLOSED")
                      && RunClosing(t, gap.stream.runId)));
    assert GenerationAt(u, id, gap.stream, gap.successorGeneration);
  }

  lemma GrowthKeepsRaw(t: Tables, u: Tables, raw: RawRow)
    requires Extends(t.generations, u.generations) && RawOk(t, raw)
    ensures RawOk(u, raw)
  {
    if raw.disposition == "LATE_REPAIR_ONLY" {
      var id :| GenerationAt(t, id, raw.stream, raw.generation) && t.generations[id].state != Active;
      assert GenerationAt(u, id, raw.stream, raw.generation);
    }
  }

  /** Rows written without touching gaps, known generations or raw commits keep the relations as
      soon as every added transition satisfies its own. */
  lemma GrowthKeepsRelations(t: Tables, u: Tables)
    requires Relates(t) && Grows(t, u)
    requires Extends(t.generations, u.generations) && u.gaps == t.gaps && u.bindings == t.bindings
    requires u.generationTransitions == t.generationTransitions && u.rawCommits == t.rawCommits
    requires forall k {:trigger u.transitions[k]} :: k in u.transitions && k !in t.transitions ==>
      TransitionOk(u, u.transitions[k])
    ensures Relates(u)
  {
    forall k | k in u.transitions ensures TransitionOk(u, u.transitions[k]) {
      if k in t.transitions {
        GrowthKeepsTransition(t, u, t.transitions[k]);
      }
    }
    forall k | k in u.gaps ensures GapOk(u, u.gaps[k]) {
      GrowthKeepsGap(t, u, t.gaps[k]);
    }
    forall k | k in u.rawCommits ensures RawOk(u, u.rawCommits[k]) {
      GrowthKeepsRaw(t, u, t.rawCommits[k]);
    }
  }

  /** What a step on the coherence tables leaves alone. */
  ghost predicate StreamsUntouched(t: Tables, u: Tables) {
    u.generations == t.generations && u.gaps == t.gaps && u.bindings == t.bindings
    && u.generationTransitions == t.generationTransitions && u.rawCommits == t.rawCommits
  }

  lemma OneMoreTransition(t: Tables, u: Tables, row: TransitionRow)
    requires Relates(t) && Grows(t, u) && StreamsUntouched(t, u)
    requires row.id !in t.transitions && u.transitions == t.transitions[row.id := row]
    requires TransitionOk(u, row)
    ensures Relates(u)
  {
    GrowthKeepsRelations(t, u);
  }

  /** A mapping behind the evidence of an accepted or released candidate. */
  ghost predicate ProofBound(t: Tables, mapping: Id) {
    exists k {:trigger t.transitions[k]} :: k in t.transitions && NeedsEvidence(t.transitions[k].reason)
      && t.transitions[k].proof.Some? && t.transitions[k].proof.value in t.proofs
      && (var proof := t.proofs[t.transitions[k].proof.value];
          Some(mapping) in {proof.football, proof.operator, proof.marketBook})
  }

  lemma ClosureKeepsTransition(t: Tables, closure: Id, mapping: Id, k: Id)
    requires closure !in t.closures && k in t.transitions && TransitionOk(t, t.transitions[k])
    requires !ProofBound(t, mapping)
    ensures TransitionOk(CloseMapping(t, closure, mapping), t.transitions[k])
  {
    var u := CloseMapping(t, closure, mapping);
    assert forall m :: m in u.closures.Values ==> m in t.closures.Values || m == mapping by {
      forall m | m in u.closures.Values ensures m in t.closures.Values || m == mapping {
        var c :| c in u.closures && u.closures[c] == m;
      }
    }
  }

  lemma BoundMappingMustStay(t: Tables, closure: Id, mapping: Id)
    requires closure !in t.closures && ProofBound(t, mapping)
    ensures !TransitionsRelate(CloseMapping(t, closure, mapping))
  {
    var u := CloseMapping(t, closure, mapping);
    assert u.closures[closure] == mapping;
    var k :| k in t.transitions && NeedsEvidence(t.transitions[k].reason)
             && t.transitions[k].proof.Some? && t.transitions[k].proof.value in t.proofs
             && (var proof := t.proofs[t.transitions[k].proof.value];
                 Some(mapping) in {proof.football, proof.operator, proof.marketBook});
    assert mapping in u.closures.Values;
    assert !EvidenceOk(u, u.transitions[k]);
    assert !TransitionOk(u, u.transitions[k]);
  }

  /** Closing a mapping keeps an accepted snapshot acceptable exactly when no accepted or
      released candidate was proved with that mapping. */
  lemma CloseMappingExact(t: Tables, closure: Id, mapping: Id)
    requires Relates(t) && closure !in t.closures
    ensures Relates(CloseMapping(t, closure, mapping)) <==> !ProofBound(t, mapping)
  {
    hide GapOk, RawOk, TransitionOk, ProofBound;
    var u := CloseMapping(t, closure, mapping);
    if ProofBound(t, mapping) {
      BoundMappingMustStay(t, closure, mapping);
    } else {
      forall k | k in u.transitions ensures TransitionOk(u, u.transitions[k]) {
        ClosureKeepsTransition(t, closure, mapping, k);
      }
      forall k | k in u.gaps ensures GapOk(u, u.gaps[k]) {
        ClosureKeepsGap(t, u, u.gaps[k]);
      }
      forall k | k in u.rawCommits ensures RawOk(u, u.rawCommits[k]) {
        GrowthKeepsRaw(t, u, u.rawCommits[k]);
      }
    }
  }

  lemma ClosureKeepsGap(t: Tables, u: Tables, gap: GapRow)
    requires GapOk(t, gap) && u == t.(closures := u.closures)
    ensures GapOk(u, gap)
  {
    var b :| b in t.bindings && t.bindings[b].gapId == gap.id && BindingOk(t, gap, t.bindings[b]);
    assert u.bindings[b] == t.bindings[b] && BindingOk(u, gap, u.bindings[b]);
    var p :| GenerationAt(t, p, gap.stream, gap.predecessorGeneration)
             && t.generations[p].state != Active && t.generations[p].closeReason == Some(gap.reason);
    assert GenerationAt(u, p, gap.stream, gap.predecessorGeneration);
    assert Reclosed(t, gap) ==> Reclosed(u, gap);
    assert RunClosing(t, gap.stream.runId) ==> RunClosing(u, gap.stream.runId);
    var s :| GenerationAt(t, s, gap.stream, gap.successorGeneration)
             && (t.generations[s].state == Active
                 || Reclosed(t, gap)
                 || (t.generations[s].state == Closed && t.generations[s].closeReason == Some("RUN_CLOSED")
                     && RunClosing(t, gap.stream.runId)));
    assert GenerationAt(u, s, gap.stream, gap.successorGeneration);
  }
}
