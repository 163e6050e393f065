/** The gap transaction and the snapshot relations: atomic success, and rejection of every
    interrupted prefix. */
module GapLaws {
  import opened Prelude
  import opened Coherence
  import opened Relations
  import opened RelationLaws
  import opened ControllerSteps

  /** The tables after n statements, in closed form. */
  function GapTables(t: Tables, c: ControllerRow, closed: GenerationRow, g: GapParams, p: ShockParams, n: nat): Tables {
    t.(gaps := if n < 1 then t.gaps else t.gaps[g.gap := GapRowOf(closed, g)],
       shocks := if n < 2 then t.shocks
                 else t.shocks[p.shock := ShockRow(p.shock, c.runId, c.fixtureId, p.shockType)],
       transitions := if n < 3 then t.transitions else t.transitions[p.transition := ShockTransition(c, p)],
       controllers := if n < 4 then t.controllers else t.controllers[c.id := ShockedController(c, p)],
       bindings := if n < 5 then t.bindings
                   else t.bindings[g.binding := GapBinding(c.currentEpoch, c.id, p.shock, p.transition, g)],
       generations := if n < 6 then t.generations
                      else if n < 8 then t.generations[closed.id := Quarantined(closed, g)]
                      else t.generations[closed.id := Quarantined(closed, g)][g.successor := SuccessorOf(closed, g)],
       generationTransitions := if n < 7 then t.generationTransitions
                                else t.generationTransitions[g.generationTransition := GenerationMove(closed, g)])
  }

  lemma {:induction false} GapPrefixTables(
      t: Tables, c: ControllerRow, closed: GenerationRow, g: GapParams, p: ShockParams, n: nat)
    requires n <= GAP_STATEMENTS
    ensures GapPrefix(t, c, closed, g, p, n) == GapTables(t, c, closed, g, p, n)
    decreases n
  {
    if n > 0 {
      GapPrefixTables(t, c, closed, g, p, n - 1);
    }
  }

  ghost predicate SuccessorFree(t: Tables, closed: GenerationRow) {
    forall id {:trigger t.generations[id]} :: !GenerationAt(t, id, closed.stream, closed.generation + 1)
  }

  predicate GapIdsFresh(t: Tables, g: GapParams) {
    g.gap !in t.gaps && g.binding !in t.bindings && g.generationTransition !in t.generationTransitions
    && g.successor !in t.generations
  }

  /** The generation change of a closed gap: one active generation quarantined, its successor
      opened, and the gap that says so recorded. */
  ghost predicate ClosesOne(t: Tables, u: Tables, closed: GenerationRow, g: GapParams) {
    && closed.id in t.generations && t.generations[closed.id] == closed && closed.state == Active
    && g.successor !in t.generations && g.gap !in t.gaps
    && u.generations == t.generations[closed.id := Quarantined(closed, g)][g.successor := SuccessorOf(closed, g)]
    && u.gaps == t.gaps[g.gap := GapRowOf(closed, g)]
    && u.rawCommits == t.rawCommits
    && Grows(t, u)
  }

  lemma OldGapStays(t: Tables, u: Tables, closed: GenerationRow, g: GapParams, gap: GapRow)
    requires ClosesOne(t, u, closed, g) && GapOk(t, gap)
    ensures GapOk(u, gap)
  {
    assert BoundAndMoved(t, gap);
    GrowthKeepsBoundAndMoved(t, u, gap);
    var p :| GenerationAt(t, p, gap.stream, gap.predecessorGeneration)
             && t.generations[p].state != Active && t.generations[p].closeReason == Some(gap.reason);
    assert GenerationAt(u, p, gap.stream, gap.predecessorGeneration);
    OldSuccessorStays(t, u, closed, g, gap);
  }

  /** The successor of an earlier gap may be the generation being closed: it counts as
      reclosed by the new gap. */
  lemma OldSuccessorStays(t: Tables, u: Tables, closed: GenerationRow, g: GapParams, gap: GapRow)
    requires ClosesOne(t, u, closed, g) && SuccessorOk(t, gap)
    ensures SuccessorOk(u, gap)
  {
    if Reclosed(t, gap) {
      GrowthKeepsReclosed(t, u, gap);
    }
    assert RunClosing(t, gap.stream.runId) ==> RunClosing(u, gap.stream.runId);
    var s :| GenerationAt(t, s, gap.stream, gap.successorGeneration)
             && (t.generations[s].state == Active
                 || Reclosed(t, gap)
                 || (t.generations[s].state == Closed && t.generations[s].closeReason == Some("RUN_CLOSED")
                     && RunClosing(t, gap.stream.runId)));
    assert GenerationAt(u, s, gap.stream, gap.successorGeneration);
    if s == closed.id {
      assert u.gaps[g.gap].predecessorGeneration == gap.successorGeneration;
      assert Reclosed(u, gap);
    }
  }

  lemma RawStays(t: Tables, u: Tables, closed: GenerationRow, g: GapParams, raw: RawRow)
    requires ClosesOne(t, u, closed, g) && RawOk(t, raw)
    ensures RawOk(u, raw)
  {
    if raw.disposition == "LATE_REPAIR_ONLY" {
      var id :| GenerationAt(t, id, raw.stream, raw.generation) && t.generations[id].state != Active;
      assert GenerationAt(u, id, raw.stream, raw.generation);
    }
  }

  lemma NewGapHolds(t: Tables, u: Tables, closed: GenerationRow, g: GapParams)
    requires ClosesOne(t, u, closed, g)
    requires BoundAndMoved(u, GapRowOf(closed, g))
    requires closed.id != g.successor
    ensures GapOk(u, GapRowOf(closed, g))
  {
    var gap := GapRowOf(closed, g);
    assert GenerationAt(u, closed.id, gap.stream, gap.predecessorGeneration);
    assert GenerationAt(u, g.successor, gap.stream, gap.successorGeneration);
  }

  lemma SatellitesStayUnique(t: Tables, u: Tables, g: GapParams, binding: BindingRow, move: GenerationTransitionRow)
    requires GapSatellitesUnique(t) && StreamKeys(t) && g.gap !in t.gaps
    requires g.binding !in t.bindings && g.generationTransition !in t.generationTransitions
    requires binding.gapId == g.gap && move.gapId == g.gap
    requires u.bindings == t.bindings[g.binding := binding]
    requires u.generationTransitions == t.generationTransitions[g.generationTransition := move]
    ensures GapSatellitesUnique(u)
  {
  }

  lemma AllGapsHold(t: Tables, u: Tables, closed: GenerationRow, g: GapParams)
    requires GapsRelate(t) && ClosesOne(t, u, closed, g) && BoundAndMoved(u, GapRowOf(closed, g))
    ensures GapsRelate(u)
  {
    forall k | k in u.gaps ensures GapOk(u, u.gaps[k]) {
      if k == g.gap {
        NewGapHolds(t, u, closed, g);
      } else {
        OldGapStays(t, u, closed, g, t.gaps[k]);
      }
    }
  }

  lemma AllRawsHold(t: Tables, u: Tables, closed: GenerationRow, g: GapParams)
    requires RawsRelate(t) && ClosesOne(t, u, closed, g)
    ensures RawsRelate(u)
  {
    forall k | k in u.rawCommits ensures RawOk(u, u.rawCommits[k]) {
      RawStays(t, u, closed, g, t.rawCommits[k]);
    }
  }

  lemma AllTransitionsHold(t: Tables, u: Tables)
    requires TransitionsRelate(t) && Grows(t, u)
    requires forall k {:trigger u.transitions[k]} :: k in u.transitions && k !in t.transitions ==>
      TransitionOk(u, u.transitions[k])
    ensures TransitionsRelate(u)
  {
    forall k | k in u.transitions ensures TransitionOk(u, u.transitions[k]) {
      if k in t.transitions {
        GrowthKeepsTransition(t, u, t.transitions[k]);
      }
    }
  }

  /** Closing one generation by a bound gap keeps the relations. */
  lemma ClosingOneRelates(t: Tables, u: Tables, closed: GenerationRow, g: GapParams, binding: BindingRow)
    requires Relates(t) && ClosesOne(t, u, closed, g) && StreamKeys(t)
    requires g.binding !in t.bindings && g.generationTransition !in t.generationTransitions
    requires binding.gapId == g.gap && u.bindings == t.bindings[g.binding := binding]
    requires u.generationTransitions == t.generationTransitions[g.generationTransition := GenerationMove(closed, g)]
    requires BoundAndMoved(u, GapRowOf(closed, g))
    requires forall k {:trigger u.transitions[k]} :: k in u.transitions && k !in t.transitions ==>
      TransitionOk(u, u.transitions[k])
    ensures Relates(u)
  {
    SatellitesStayUnique(t, u, g, binding, GenerationMove(closed, g));
    AllGapsHold(t, u, closed, g);
    AllRawsHold(t, u, closed, g);
    AllTransitionsHold(t, u);
  }

  /** What the gap transaction needs of the tables it starts from. */
  ghost predicate GapReady(t: Tables, cid: Id, g: GapParams, p: ShockParams) {
    && cid in t.controllers && t.controllers[cid].id == cid
    && (var c := t.controllers[cid];
        && c.state in {Open, NewEpochOpen}
        && c.currentEpoch.Some? && c.currentEpoch.value in t.epochs
        && t.epochs[c.currentEpoch.value].runId == c.runId && t.epochs[c.currentEpoch.value].fixtureId == c.fixtureId
        && g.generation in t.generations && t.generations[g.generation].id == g.generation
        && t.generations[g.generation].state == Active && t.generations[g.generation].stream.runId == c.runId)
    && p.shockType in GAP_SHOCKS && p.shock !in t.shocks && p.transition !in t.transitions
    && GapIdsFresh(t, g) && SuccessorFree(t, t.generations[g.generation])
  }

  lemma GapTransactionGrows(t: Tables, cid: Id, g: GapParams, p: ShockParams)
    requires GapReady(t, cid, g, p)
    ensures ClosesOne(t, GapTransaction(t, cid, g, p), t.generations[g.generation], g)
  {
    hide GapPrefix, SuccessorFree;
    GapPrefixTables(t, t.controllers[cid], t.generations[g.generation], g, p, GAP_STATEMENTS);
  }

  lemma GapTransactionBinds(t: Tables, cid: Id, g: GapParams, p: ShockParams)
    requires GapReady(t, cid, g, p)
    ensures BoundAndMoved(GapTransaction(t, cid, g, p), GapRowOf(t.generations[g.generation], g))
  {
    var u := GapTransaction(t, cid, g, p);
    var gap := GapRowOf(t.generations[g.generation], g);
    GapPrefixTables(t, t.controllers[cid], t.generations[g.generation], g, p, GAP_STATEMENTS);
    assert BindingOk(u, gap, u.bindings[g.binding]);
    assert u.generationTransitions[g.generationTransition].gapId == gap.id;
  }

  lemma GapTransactionTransitionOk(t: Tables, cid: Id, g: GapParams, p: ShockParams)
    requires GapReady(t, cid, g, p)
    ensures TransitionOk(GapTransaction(t, cid, g, p), ShockTransition(t.controllers[cid], p))
  {
    GapPrefixTables(t, t.controllers[cid], t.generations[g.generation], g, p, GAP_STATEMENTS);
  }

  /** The committed gap transaction keeps the relations. */
  lemma GapTransactionRelates(t: Tables, cid: Id, g: GapParams, p: ShockParams)
    requires GapReady(t, cid, g, p) && Relates(t) && StreamKeys(t)
    ensures Relates(GapTransaction(t, cid, g, p))
  {
    GapTransactionGrows(t, cid, g, p);
    GapTransactionBinds(t, cid, g, p);
    GapTransactionTransitionOk(t, cid, g, p);
    GapPrefixTables(t, t.controllers[cid], t.generations[g.generation], g, p, GAP_STATEMENTS);
    var u := GapTransaction(t, cid, g, p);
    ClosingOneRelates(t, u, t.generations[g.generation], g, u.bindings[g.binding]);
  }

  lemma NoSuccessorYet(t: Tables, s: Tables, closed: GenerationRow, g: GapParams)
    requires SuccessorFree(t, closed) && s.generations == t.generations[closed.id := Quarantined(closed, g)]
    requires closed.id in t.generations && t.generations[closed.id] == closed
    ensures !SuccessorOk(s, GapRowOf(closed, g))
  {
    var gap := GapRowOf(closed, g);
    forall id
      ensures !GenerationAt(s, id, gap.stream, gap.successorGeneration)
    {
      if id in t.generations {
        assert !GenerationAt(t, id, closed.stream, closed.generation + 1);
      }
    }
  }

  /** Why the transaction must be atomic: after any of its first seven statements the tables
      would be rejected. */
  lemma InterruptedGapIsRejected(t: Tables, cid: Id, g: GapParams, p: ShockParams, n: nat)
    requires GapReady(t, cid, g, p) && StreamKeys(t)
    requires 1 <= n < GAP_STATEMENTS
    ensures !Relates(GapPrefix(t, t.controllers[cid], t.generations[g.generation], g, p, n))
  {
    var c, closed := t.controllers[cid], t.generations[g.generation];
    var s := GapPrefix(t, c, closed, g, p, n);
    var gap := GapRowOf(closed, g);
    GapPrefixTables(t, c, closed, g, p, n);
    assert s.gaps[g.gap] == gap;
    if n < 5 {
      assert forall b :: b in s.bindings ==> s.bindings[b].gapId != gap.id;
    } else if n == 5 {
      assert !PredecessorOk(s, gap);
    } else if n == 6 {
      assert forall m :: m in s.generationTransitions ==> s.generationTransitions[m].gapId != gap.id;
    } else {
      NoSuccessorYet(t, s, closed, g);
    }
    assert !GapOk(s, s.gaps[g.gap]);
  }

  /** The closing transition a continuity seed binds its gap to. */
  ghost predicate SeedReady(t: Tables, cid: Id, s: SeedParams) {
    && cid in t.controllers && t.controllers[cid].id == cid
    && (var c := t.controllers[cid];
        && c.activeShock.Some? && c.activeShock.value in t.shocks
        && t.shocks[c.activeShock.value].id == c.activeShock.value
        && t.shocks[c.activeShock.value].runId == c.runId && t.shocks[c.activeShock.value].fixtureId == c.fixtureId
        && s.closing in t.transitions
        && (var tr := t.transitions[s.closing];
            tr.controllerId == cid && tr.fromState in {Open, NewEpochOpen} && tr.toState == ShockedClosed
            && tr.reason == ShockAtomicClose && tr.bindingsVerified == 1
            && tr.predecessorEpoch == c.currentEpoch && tr.shock == c.activeShock)
        && s.stream.runId == c.runId)
    && (forall id {:trigger t.generations[id]} :: id in t.generations ==> t.generations[id].stream != s.stream)
    && s.gap.generation !in t.generations && s.gap.generation != s.gap.successor && GapIdsFresh(t, s.gap)
  }

  function SeedGeneration(s: SeedParams): GenerationRow {
    GenerationRow(s.gap.generation, s.stream, 0, None, Active, 0, None, None)
  }

  /** The tables with only the new stream's first generation inserted. */
  function SeedStart(t: Tables, s: SeedParams): Tables {
    t.(generations := t.generations[s.gap.generation := SeedGeneration(s)])
  }

  lemma SeedStartRelates(t: Tables, s: SeedParams)
    requires s.gap.generation !in t.generations && Relates(t)
    ensures Relates(SeedStart(t, s))
  {
    var u := SeedStart(t, s);
    assert Grows(t, u);
    GrowthKeepsRelations(t, u);
  }

  lemma SeedStartKeys(t: Tables, s: SeedParams)
    requires StreamKeys(t)
    requires forall id {:trigger t.generations[id]} :: id in t.generations ==> t.generations[id].stream != s.stream
    ensures StreamKeys(SeedStart(t, s))
  {
  }

  lemma SeedClosesOne(t: Tables, cid: Id, s: SeedParams)
    requires SeedReady(t, cid, s)
    ensures ClosesOne(SeedStart(t, s), SeedContinuity(t, cid, s), SeedGeneration(s), s.gap)
  {
    var closed := Quarantined(SeedGeneration(s), s.gap);
    assert t.generations[s.gap.generation := SeedGeneration(s)][s.gap.generation := closed]
           == t.generations[s.gap.generation := Quarantined(SeedGeneration(s), s.gap)];
  }

  lemma SeedBinds(t: Tables, cid: Id, s: SeedParams)
    requires SeedReady(t, cid, s)
    requires t.shocks[t.controllers[cid].activeShock.value].shockType in GAP_SHOCKS
    ensures BoundAndMoved(SeedContinuity(t, cid, s), GapRowOf(SeedGeneration(s), s.gap))
  {
    var u := SeedContinuity(t, cid, s);
    var gap := GapRowOf(SeedGeneration(s), s.gap);
    assert BindingOk(u, gap, u.bindings[s.gap.binding]);
    assert u.generationTransitions[s.gap.generationTransition].gapId == gap.id;
  }

  lemma SeedAfterGapShockRelates(t: Tables, cid: Id, s: SeedParams)
    requires SeedReady(t, cid, s) && Relates(t) && StreamKeys(t)
    requires t.shocks[t.controllers[cid].activeShock.value].shockType in GAP_SHOCKS
    ensures Relates(SeedContinuity(t, cid, s))
  {
    hide Relates, StreamKeys, ClosesOne, BoundAndMoved;
    var u := SeedContinuity(t, cid, s);
    SeedStartRelates(t, s);
    SeedStartKeys(t, s);
    SeedClosesOne(t, cid, s);
    SeedBinds(t, cid, s);
    assert u.transitions == SeedStart(t, s).transitions;
    ClosingOneRelates(SeedStart(t, s), u, SeedGeneration(s), s.gap, u.bindings[s.gap.binding]);
  }

  lemma SeedAfterOtherShockIsRejected(t: Tables, cid: Id, s: SeedParams)
    requires SeedReady(t, cid, s) && StreamKeys(t)
    requires t.shocks[t.controllers[cid].activeShock.value].shockType !in GAP_SHOCKS
    ensures !GapsRelate(SeedContinuity(t, cid, s))
  {
    var u := SeedContinuity(t, cid, s);
    var gap := u.gaps[s.gap.gap];
    assert gap == GapRowOf(SeedGeneration(s), s.gap);
    assert forall b :: b in u.bindings && b != s.gap.binding ==>
      u.bindings[b] == t.bindings[b] && u.bindings[b].gapId != gap.id;
    assert !GapOk(u, u.gaps[s.gap.gap]);
  }

  /** The continuity seed keeps the relations exactly when the active shock is of a kind that
      may close an epoch for a gap; after the default MAPPING_CLOSURE shock it does not. */
  lemma SeedExact(t: Tables, cid: Id, s: SeedParams)
    requires SeedReady(t, cid, s) && Relates(t) && StreamKeys(t)
    ensures Relates(SeedContinuity(t, cid, s)) <==>
            t.shocks[t.controllers[cid].activeShock.value].shockType in GAP_SHOCKS
  {
    if t.shocks[t.controllers[cid].activeShock.value].shockType in GAP_SHOCKS {
      SeedAfterGapShockRelates(t, cid, s);
    } else {
      SeedAfterOtherShockIsRejected(t, cid, s);
    }
  }
}
