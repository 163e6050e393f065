/** The gap transaction and the continuity seed in the columns of the rows they write. */
module GapFacts {
  import opened Prelude
  import opened Coherence
  import opened ControllerSteps
  import opened GapLaws

  /** The ids a gap transaction reads and writes: an existing controller and generation under
      their own ids, and new rows for the rest. */
  predicate GapInputs(t: Tables, cid: Id, g: GapParams, p: ShockParams) {
    && cid in t.controllers && t.controllers[cid].id == cid
    && g.generation in t.generations && t.generations[g.generation].id == g.generation
    && g.gap !in t.gaps && p.shock !in t.shocks && p.transition !in t.transitions
    && g.binding !in t.bindings && g.generationTransition !in t.generationTransitions
    && g.successor !in t.generations
  }

  /** Two tables that agree everywhere but, perhaps, at key k. */
  predicate SameExcept<V(==)>(a: map<Id, V>, b: map<Id, V>, k: Id) {
    a - {k} == b - {k}
  }

  function AfterStatements(t: Tables, cid: Id, g: GapParams, p: ShockParams, n: nat): Tables
    requires GapInputs(t, cid, g, p)
  {
    GapPrefix(t, t.controllers[cid], t.generations[g.generation], g, p, n)
  }

  /** The predecessor keeps its row through the first five statements; from the sixth on it is
      quarantined with the date and reason of the gap, its other columns kept. */
  lemma PredecessorIsQuarantined(t: Tables, cid: Id, g: GapParams, p: ShockParams, n: nat)
    requires GapInputs(t, cid, g, p) && n <= 8
    ensures var before, after := t.generations[g.generation], AfterStatements(t, cid, g, p, n).generations;
            && g.generation in after
            && after[g.generation] ==
               if n < 6 then before
               else GenerationRow(g.generation, before.stream, before.generation, before.predecessor, QuarantinedGap,
                                  before.openedAt, Some(g.at), Some(g.reason))
  {
    hide GapPrefix;
    GapPrefixTables(t, t.controllers[cid], t.generations[g.generation], g, p, n);
  }

  /** The one generation added, by the last statement, is the active successor, numbered one
      higher and opened at the date of the gap; no third generation is touched. */
  lemma SuccessorIsOpened(t: Tables, cid: Id, g: GapParams, p: ShockParams, n: nat)
    requires GapInputs(t, cid, g, p) && n <= 8
    ensures var closed, after := t.generations[g.generation], AfterStatements(t, cid, g, p, n).generations;
            && after.Keys == t.generations.Keys + (if n < 8 then {} else {g.successor})
            && (n == 8 ==> after[g.successor] ==
                           GenerationRow(g.successor, closed.stream, closed.generation + 1, Some(closed.generation),
                                         Active, g.at, None, None))
            && forall k :: k in t.generations && k != g.generation ==> after[k] == t.generations[k]
  {
    hide GapPrefix;
    GapPrefixTables(t, t.controllers[cid], t.generations[g.generation], g, p, n);
  }

  /** Which statement writes which coherence row, and with which columns. */
  lemma CoherenceRowsWritten(t: Tables, cid: Id, g: GapParams, p: ShockParams, n: nat)
    requires GapInputs(t, cid, g, p) && n <= 8
    ensures var c, s := t.controllers[cid], AfterStatements(t, cid, g, p, n);
            && SameExcept(t.shocks, s.shocks, p.shock)
            && (p.shock in s.shocks <==> n >= 2)
            && (n >= 2 ==> s.shocks[p.shock] == ShockRow(p.shock, c.runId, c.fixtureId, p.shockType))
            && SameExcept(t.transitions, s.transitions, p.transition)
            && (p.transition in s.transitions <==> n >= 3)
            && (n >= 3 ==> s.transitions[p.transition] ==
                           TransitionRow(p.transition, cid, c.fixtureId, c.state, ShockedClosed, c.currentEpoch, None,
                                         Some(p.shock), None, None, 1, ShockAtomicClose, p.at))
            && SameExcept(t.controllers, s.controllers, cid)
            && cid in s.controllers
            && s.controllers[cid] ==
               if n < 4 then c
               else ControllerRow(cid, c.runId, c.fixtureId, ShockedClosed, c.currentEpoch, c.candidate, c.predecessor,
                                  Some(p.shock), c.revision + 1, p.at)
  {
    hide GapPrefix;
    GapPrefixTables(t, t.controllers[cid], t.generations[g.generation], g, p, n);
  }

  /** Which statement writes which row of the stream, and with which columns. */
  lemma StreamRowsWritten(t: Tables, cid: Id, g: GapParams, p: ShockParams, n: nat)
    requires GapInputs(t, cid, g, p) && n <= 8
    ensures var closed, s := t.generations[g.generation], AfterStatements(t, cid, g, p, n);
            && SameExcept(t.gaps, s.gaps, g.gap)
            && (g.gap in s.gaps <==> n >= 1)
            && (n >= 1 ==> s.gaps[g.gap] ==
                           GapRow(g.gap, closed.stream, closed.generation, closed.generation + 1, g.reason))
            && SameExcept(t.generationTransitions, s.generationTransitions, g.generationTransition)
            && (g.generationTransition in s.generationTransitions <==> n >= 7)
            && (n >= 7 ==> s.generationTransitions[g.generationTransition] ==
                           GenerationTransitionRow(g.generationTransition, g.gap, closed.generation,
                                                   closed.generation + 1))
  {
    hide GapPrefix;
    GapPrefixTables(t, t.controllers[cid], t.generations[g.generation], g, p, n);
  }

  /** The fifth statement binds the gap to the epoch, controller, shock and transition. */
  lemma BindingWritten(t: Tables, cid: Id, g: GapParams, p: ShockParams, n: nat)
    requires GapInputs(t, cid, g, p) && n <= 8
    ensures var c, s := t.controllers[cid], AfterStatements(t, cid, g, p, n);
            && SameExcept(t.bindings, s.bindings, g.binding)
            && (g.binding in s.bindings <==> n >= 5)
            && (n >= 5 ==> s.bindings[g.binding] ==
                           BindingRow(g.binding, g.gap, c.currentEpoch, cid, p.shock, p.transition,
                                      "AFFECTED_EPOCH_PERMANENTLY_CLOSED"))
  {
    hide GapPrefix;
    GapPrefixTables(t, t.controllers[cid], t.generations[g.generation], g, p, n);
  }

  /** The tables no statement writes. */
  lemma GapLeavesAlone(t: Tables, cid: Id, g: GapParams, p: ShockParams, n: nat)
    requires GapInputs(t, cid, g, p) && n <= 8
    ensures var s := AfterStatements(t, cid, g, p, n);
            && s.runMeta == t.runMeta && s.epochs == t.epochs && s.freshness == t.freshness && s.proofs == t.proofs
            && s.mappings == t.mappings && s.closures == t.closures && s.cursors == t.cursors
            && s.rawCommits == t.rawCommits
  {
    hide GapPrefix;
    GapPrefixTables(t, t.controllers[cid], t.generations[g.generation], g, p, n);
  }

  /** The committed transaction is the state after all eight statements. */
  lemma CommittedGapIsAllEight(t: Tables, cid: Id, g: GapParams, p: ShockParams)
    requires GapInputs(t, cid, g, p)
    ensures GapTransaction(t, cid, g, p) == AfterStatements(t, cid, g, p, 8)
  {
  }

  /** The seed leaves a new stream of two generations: 0, quarantined at the date and for the
      reason of its gap, and 1, active; its gap is bound to the controller's current epoch and
      active shock and to the given closing transition. */
  lemma SeedColumns(t: Tables, cid: Id, s: SeedParams)
    requires SeedReady(t, cid, s)
    ensures var c, u, g := t.controllers[cid], SeedContinuity(t, cid, s), s.gap;
            && u.generations.Keys == t.generations.Keys + {g.generation, g.successor}
            && u.generations[g.generation] ==
               GenerationRow(g.generation, s.stream, 0, None, QuarantinedGap, 0, Some(g.at), Some(g.reason))
            && u.generations[g.successor] ==
               GenerationRow(g.successor, s.stream, 1, Some(0), Active, g.at, None, None)
            && (forall k :: k in t.generations ==> u.generations[k] == t.generations[k])
            && SameExcept(t.gaps, u.gaps, g.gap)
            && g.gap in u.gaps && u.gaps[g.gap] == GapRow(g.gap, s.stream, 0, 1, g.reason)
            && SameExcept(t.bindings, u.bindings, g.binding)
            && g.binding in u.bindings
            && u.bindings[g.binding] ==
               BindingRow(g.binding, g.gap, c.currentEpoch, cid, c.activeShock.value, s.closing,
                          "AFFECTED_EPOCH_PERMANENTLY_CLOSED")
            && SameExcept(t.generationTransitions, u.generationTransitions, g.generationTransition)
            && g.generationTransition in u.generationTransitions
            && u.generationTransitions[g.generationTransition] ==
               GenerationTransitionRow(g.generationTransition, g.gap, 0, 1)
  {
  }

  /** The tables the seed does not write. */
  lemma SeedLeavesAlone(t: Tables, cid: Id, s: SeedParams)
    requires SeedReady(t, cid, s)
    ensures var u := SeedContinuity(t, cid, s);
            && u.runMeta == t.runMeta && u.controllers == t.controllers && u.epochs == t.epochs
            && u.transitions == t.transitions && u.shocks == t.shocks && u.freshness == t.freshness
            && u.proofs == t.proofs && u.mappings == t.mappings && u.closures == t.closures
            && u.cursors == t.cursors && u.rawCommits == t.rawCommits
  {
  }
}
