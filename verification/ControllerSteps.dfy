/** The controller steps of the crash child and the governed gap transaction: what each writes
    (tools/gap_coherence_crash_child.py:77-434, tools/loopback_ack_crash_child.py:36-43).
    The fixed ids and dates of the child are parameters here. */
module ControllerSteps {
  import opened Prelude
  import opened Coherence

  datatype ShockParams = ShockParams(transition: Id, shock: Id, shockType: string, at: int)

  datatype WaitParams = WaitParams(transition: Id, at: int)

  datatype PendParams = PendParams(
    transition: Id, freshness: Id, proof: Id, candidate: Id,
    football: Id, operator: Id, marketBook: Id, cursor: Id, at: int)

  datatype ReleaseParams = ReleaseParams(transition: Id, freshness: Id, proof: Id, at: int)

  datatype NewShockParams = NewShockParams(transition: Id, shock: Id, epoch: Id, freshness: Id, proof: Id, at: int)

  /** Ids written by a gap: the gap itself, its binding, its generation transition and the
      successor; `generation` is the predecessor being closed. */
  datatype GapParams = GapParams(
    gap: Id, binding: Id, generationTransition: Id, generation: Id, successor: Id, reason: string, at: int)

  datatype SeedParams = SeedParams(stream: StreamKey, closing: Id, gap: GapParams)

  /** `_shock_close`: observation, transition and controller update; the state it leaves is
      whatever the controller was in. */
  function ShockClose(t: Tables, cid: Id, p: ShockParams): Tables
    requires cid in t.controllers
  {
    var c := t.controllers[cid];
    t.(shocks := t.shocks[p.shock := ShockRow(p.shock, c.runId, c.fixtureId, p.shockType)],
       transitions := t.transitions[p.transition := ShockTransition(c, p)],
       controllers := t.controllers[cid := ShockedController(c, p)])
  }

  /** `_waiting`: always written as leaving SHOCKED_CLOSED. */
  function Waiting(t: Tables, cid: Id, p: WaitParams): Tables
    requires cid in t.controllers
  {
    var c := t.controllers[cid];
    t.(transitions := t.transitions[p.transition :=
         TransitionRow(p.transition, cid, c.fixtureId, ShockedClosed, WaitingForResnapshot, c.currentEpoch, None,
                       c.activeShock, None, None, 1, CloseRecorded, p.at)],
       controllers := t.controllers[cid :=
         c.(state := WaitingForResnapshot, revision := c.revision + 1, updatedAt := p.at)])
  }

  /** `_pending` up to its cursor query: three mappings, the freshness vector and the
      candidate epoch. */
  function CandidateRows(t: Tables, cid: Id, p: PendParams): Tables
    requires cid in t.controllers
  {
    var c := t.controllers[cid];
    t.(mappings := t.mappings + {p.football, p.operator, p.marketBook},
       freshness := t.freshness[p.freshness := FreshnessRow(p.freshness, "FRESH", "FRESH", "FRESH")],
       epochs := t.epochs[p.candidate := EpochRow(p.candidate, c.runId, c.fixtureId, c.currentEpoch, 1)])
  }

  /** The rest of `_pending`: proof, transition and controller update. */
  function AcceptCandidate(t: Tables, cid: Id, p: PendParams): Tables
    requires cid in t.controllers
  {
    var c := t.controllers[cid];
    t.(proofs := t.proofs[p.proof :=
         ProofRow(p.proof, c.currentEpoch, Some(p.candidate), c.activeShock, Some(p.freshness), "OBSERVED", 1,
                  "SATISFIED", Some(p.football), Some(p.operator), Some(p.marketBook), Some(p.cursor))],
       transitions := t.transitions[p.transition :=
         TransitionRow(p.transition, cid, c.fixtureId, WaitingForResnapshot, NewEpochPending, c.currentEpoch,
                       Some(p.candidate), c.activeShock, Some(p.freshness), Some(p.proof), 1,
                       ResnapshotCandidateAccepted, p.at)],
       controllers := t.controllers[cid :=
         c.(state := NewEpochPending, candidate := Some(p.candidate), predecessor := c.currentEpoch,
            revision := c.revision + 1, updatedAt := p.at)])
  }

  function Pending(t: Tables, cid: Id, p: PendParams): Tables
    requires cid in t.controllers
  {
    AcceptCandidate(CandidateRows(t, cid, p), cid, p)
  }

  /** `_release`: leaves predecessor_epoch_id as it is. */
  function Release(t: Tables, cid: Id, p: ReleaseParams): Tables
    requires cid in t.controllers
  {
    var c := t.controllers[cid];
    t.(transitions := t.transitions[p.transition :=
         TransitionRow(p.transition, cid, c.fixtureId, NewEpochPending, NewEpochOpen, c.currentEpoch, c.candidate,
                       c.activeShock, Some(p.freshness), Some(p.proof), 1, ReleasePredicateSatisfied, p.at)],
       controllers := t.controllers[cid :=
         c.(state := NewEpochOpen, currentEpoch := c.candidate, candidate := None,
            revision := c.revision + 1, updatedAt := p.at)])
  }

  /** `_new_shock_pending`: closes the held candidate and records a successor of it. */
  function NewShock(t: Tables, cid: Id, p: NewShockParams): Tables
    requires cid in t.controllers
  {
    var c := t.controllers[cid];
    t.(shocks := t.shocks[p.shock := ShockRow(p.shock, c.runId, c.fixtureId, "GOAL")],
       epochs := t.epochs[p.epoch := EpochRow(p.epoch, c.runId, c.fixtureId, c.candidate, 1)],
       transitions := t.transitions[p.transition :=
         TransitionRow(p.transition, cid, c.fixtureId, NewEpochPending, WaitingForResnapshot, c.currentEpoch,
                       c.candidate, Some(p.shock), Some(p.freshness), Some(p.proof), 1, NewShockClosedCandidate, p.at)],
       controllers := t.controllers[cid :=
         c.(state := WaitingForResnapshot, candidate := None, activeShock := Some(p.shock),
            revision := c.revision + 1, updatedAt := p.at)])
  }

  function GapRowOf(closed: GenerationRow, g: GapParams): GapRow {
    GapRow(g.gap, closed.stream, closed.generation, closed.generation + 1, g.reason)
  }

  function GapBinding(epoch: Option<Id>, cid: Id, shock: Id, transition: Id, g: GapParams): BindingRow {
    BindingRow(g.binding, g.gap, epoch, cid, shock, transition, "AFFECTED_EPOCH_PERMANENTLY_CLOSED")
  }

  function Quarantined(closed: GenerationRow, g: GapParams): GenerationRow {
    closed.(state := QuarantinedGap, closedAt := Some(g.at), closeReason := Some(g.reason))
  }

  function GenerationMove(closed: GenerationRow, g: GapParams): GenerationTransitionRow {
    GenerationTransitionRow(g.generationTransition, g.gap, closed.generation, closed.generation + 1)
  }

  function SuccessorOf(closed: GenerationRow, g: GapParams): GenerationRow {
    GenerationRow(g.successor, closed.stream, closed.generation + 1, Some(closed.generation), Active, g.at, None, None)
  }

  function ShockTransition(c: ControllerRow, p: ShockParams): TransitionRow {
    TransitionRow(p.transition, c.id, c.fixtureId, c.state, ShockedClosed, c.currentEpoch, None, Some(p.shock),
                  None, None, 1, ShockAtomicClose, p.at)
  }

  function ShockedController(c: ControllerRow, p: ShockParams): ControllerRow {
    c.(state := ShockedClosed, activeShock := Some(p.shock), revision := c.revision + 1, updatedAt := p.at)
  }

  const GAP_STATEMENTS: nat := 8

  /** Statement n + 1 of the gap transaction in checkpoint order: gap, shock, coherence
      transition, controller, epoch binding, predecessor close, generation transition, successor.
      `c` and `closed` are the controller and predecessor rows read at its start. */
  function GapWrite(s: Tables, c: ControllerRow, closed: GenerationRow, g: GapParams, p: ShockParams, n: nat): Tables {
    if n == 0 then s.(gaps := s.gaps[g.gap := GapRowOf(closed, g)])
    else if n == 1 then s.(shocks := s.shocks[p.shock := ShockRow(p.shock, c.runId, c.fixtureId, p.shockType)])
    else if n == 2 then s.(transitions := s.transitions[p.transition := ShockTransition(c, p)])
    else if n == 3 then s.(controllers := s.controllers[c.id := ShockedController(c, p)])
    else if n == 4 then
      s.(bindings := s.bindings[g.binding := GapBinding(c.currentEpoch, c.id, p.shock, p.transition, g)])
    else if n == 5 then s.(generations := s.generations[closed.id := Quarantined(closed, g)])
    else if n == 6 then
      s.(generationTransitions := s.generationTransitions[g.generationTransition := GenerationMove(closed, g)])
    else s.(generations := s.generations[g.successor := SuccessorOf(closed, g)])
  }

  function GapPrefix(t: Tables, c: ControllerRow, closed: GenerationRow, g: GapParams, p: ShockParams, n: nat): Tables {
    if n == 0 then t else GapWrite(GapPrefix(t, c, closed, g, p, n - 1), c, closed, g, p, n - 1)
  }

  /** The rows that later statements insert or update are untouched until then. */
  lemma {:induction false} GapPrefixLeaves(
      t: Tables, c: ControllerRow, closed: GenerationRow, g: GapParams, p: ShockParams, n: nat)
    ensures n <= 1 ==> GapPrefix(t, c, closed, g, p, n).shocks == t.shocks
    ensures n <= 2 ==> GapPrefix(t, c, closed, g, p, n).transitions == t.transitions
    ensures n <= 3 ==> GapPrefix(t, c, closed, g, p, n).controllers == t.controllers
  {
    if 0 < n <= 3 {
      GapPrefixLeaves(t, c, closed, g, p, n - 1);
    }
  }

  function GapTransaction(t: Tables, cid: Id, g: GapParams, p: ShockParams): Tables
    requires cid in t.controllers && g.generation in t.generations
  {
    GapPrefix(t, t.controllers[cid], t.generations[g.generation], g, p, GAP_STATEMENTS)
  }

  /** `_seed_epoch_continuity` up to its Ingestor call: a second stream whose generation 0 is
      closed by a gap bound to the latest closing transition. */
  function SeedContinuity(t: Tables, cid: Id, s: SeedParams): Tables
    requires cid in t.controllers && t.controllers[cid].activeShock.Some?
  {
    var c := t.controllers[cid];
    var first := GenerationRow(s.gap.generation, s.stream, 0, None, Active, 0, None, None);
    t.(gaps := t.gaps[s.gap.gap := GapRowOf(first, s.gap)],
       bindings := t.bindings[s.gap.binding :=
         GapBinding(c.currentEpoch, cid, c.activeShock.value, s.closing, s.gap)],
       generationTransitions := t.generationTransitions[s.gap.generationTransition := GenerationMove(first, s.gap)],
       generations := t.generations[first.id := Quarantined(first, s.gap)]
                      [s.gap.successor := SuccessorOf(first, s.gap)])
  }

  function CloseMapping(t: Tables, closure: Id, mapping: Id): Tables {
    t.(closures := t.closures[closure := mapping])
  }

  function AddMapping(t: Tables, mapping: Id): Tables {
    t.(mappings := t.mappings + {mapping})
  }

  /** A connection to the run database: the committed tables and those of the open transaction. */
  class Connection {
    var committed: Tables
    var working: Tables

    constructor (tables: Tables)
      ensures committed == tables && working == tables
    {
      committed, working := tables, tables;
    }

    method Begin()
      modifies this`working
      ensures working == committed
    {
      working := committed;
    }

    method Commit()
      modifies this`committed
      ensures committed == working
    {
      committed := working;
    }

    /** A crash or ROLLBACK: reopening the database sees the committed tables only. */
    method Crash()
      modifies this`working
      ensures working == committed
    {
      working := committed;
    }

    method InsertShock(row: ShockRow)
      requires row.id !in working.shocks
      modifies this`working
      ensures working == old(working).(shocks := old(working).shocks[row.id := row])
    {
      working := working.(shocks := working.shocks[row.id := row]);
    }

    method InsertTransition(row: TransitionRow)
      requires row.id !in working.transitions
      modifies this`working
      ensures working == old(working).(transitions := old(working).transitions[row.id := row])
    {
      working := working.(transitions := working.transitions[row.id := row]);
    }

    method UpdateController(row: ControllerRow)
      requires row.id in working.controllers
      modifies this`working
      ensures working == old(working).(controllers := old(working).controllers[row.id := row])
    {
      working := working.(controllers := working.controllers[row.id := row]);
    }

    method ShockCloseStep(cid: Id, p: ShockParams)
      requires cid in working.controllers && working.controllers[cid].id == cid
      requires p.shock !in working.shocks && p.transition !in working.transitions
      modifies this`working
      ensures working == ShockClose(old(working), cid, p)
    {
      var controller := working.controllers[cid];
      InsertShock(ShockRow(p.shock, controller.runId, controller.fixtureId, p.shockType));
      InsertTransition(
        TransitionRow(p.transition, controller.id, controller.fixtureId, controller.state, ShockedClosed,
                      controller.currentEpoch, None, Some(p.shock), None, None, 1, ShockAtomicClose, p.at));
      UpdateController(
        controller.(state := ShockedClosed, activeShock := Some(p.shock),
                    revision := controller.revision + 1, updatedAt := p.at));
    }

    method WaitingStep(cid: Id, p: WaitParams)
      requires cid in working.controllers && working.controllers[cid].id == cid
      requires p.transition !in working.transitions
      modifies this`working
      ensures working == Waiting(old(working), cid, p)
    {
      var controller := working.controllers[cid];
      InsertTransition(
        TransitionRow(p.transition, controller.id, controller.fixtureId, ShockedClosed, WaitingForResnapshot,
                      controller.currentEpoch, None, controller.activeShock, None, None, 1, CloseRecorded, p.at));
      UpdateController(
        controller.(state := WaitingForResnapshot, revision := controller.revision + 1, updatedAt := p.at));
    }

    method InsertCandidate(cid: Id, p: PendParams)
      requires cid in working.controllers
      requires p.freshness !in working.freshness && p.candidate !in working.epochs
      requires {p.football, p.operator, p.marketBook} !! working.mappings
      modifies this`working
      ensures working == CandidateRows(old(working), cid, p)
    {
      var controller := working.controllers[cid];
      working := working.(mappings := working.mappings + {p.football, p.operator, p.marketBook});
      working := working.(freshness := working.freshness[p.freshness :=
        FreshnessRow(p.freshness, "FRESH", "FRESH", "FRESH")]);
      working := working.(epochs := working.epochs[p.candidate :=
        EpochRow(p.candidate, controller.runId, controller.fixtureId, controller.currentEpoch, 1)]);
    }

    /** Fails, leaving its first inserts to the rollback of the caller, when no generation-1
        cursor exists. */
    method PendingStep(cid: Id, p: PendParams) returns (ok: bool)
      requires cid in working.controllers && working.controllers[cid].id == cid
      requires p.freshness !in working.freshness && p.proof !in working.proofs && p.candidate !in working.epochs
      requires p.transition !in working.transitions
      requires {p.football, p.operator, p.marketBook} !! working.mappings
      modifies this`working
      ensures ok == (p.cursor in old(working).cursors && old(working).cursors[p.cursor].generation == 1)
      ensures working == if ok then Pending(old(working), cid, p) else CandidateRows(old(working), cid, p)
    {
      var controller := working.controllers[cid];
      InsertCandidate(cid, p);
      ghost var announced := working;
      if p.cursor !in working.cursors || working.cursors[p.cursor].generation != 1 {
        return false;
      }
      working := working.(proofs := working.proofs[p.proof :=
        ProofRow(p.proof, controller.currentEpoch, Some(p.candidate), controller.activeShock, Some(p.freshness),
                 "OBSERVED", 1, "SATISFIED", Some(p.football), Some(p.operator), Some(p.marketBook), Some(p.cursor))]);
      InsertTransition(
        TransitionRow(p.transition, controller.id, controller.fixtureId, WaitingForResnapshot, NewEpochPending,
                      controller.currentEpoch, Some(p.candidate), controller.activeShock, Some(p.freshness),
                      Some(p.proof), 1, ResnapshotCandidateAccepted, p.at));
      UpdateController(
        controller.(state := NewEpochPending, candidate := Some(p.candidate), predecessor := controller.currentEpoch,
                    revision := controller.revision + 1, updatedAt := p.at));
      assert working == AcceptCandidate(announced, cid, p);
      return true;
    }

    method ReleaseStep(cid: Id, p: ReleaseParams)
      requires cid in working.controllers && working.controllers[cid].id == cid
      requires p.transition !in working.transitions
      modifies this`working
      ensures working == Release(old(working), cid, p)
    {
      var controller := working.controllers[cid];
      InsertTransition(
        TransitionRow(p.transition, controller.id, controller.fixtureId, NewEpochPending, NewEpochOpen,
                      controller.currentEpoch, controller.candidate, controller.activeShock, Some(p.freshness),
                      Some(p.proof), 1, ReleasePredicateSatisfied, p.at));
      UpdateController(
        controller.(state := NewEpochOpen, currentEpoch := controller.candidate, candidate := None,
                    revision := controller.revision + 1, updatedAt := p.at));
    }

    method NewShockStep(cid: Id, p: NewShockParams)
      requires cid in working.controllers && working.controllers[cid].id == cid
      requires p.shock !in working.shocks && p.epoch !in working.epochs && p.transition !in working.transitions
      modifies this`working
      ensures working == NewShock(old(working), cid, p)
    {
      var controller := working.controllers[cid];
      InsertShock(ShockRow(p.shock, controller.runId, controller.fixtureId, "GOAL"));
      working := working.(epochs := working.epochs[p.epoch :=
        EpochRow(p.epoch, controller.runId, controller.fixtureId, controller.candidate, 1)]);
      InsertTransition(
        TransitionRow(p.transition, controller.id, controller.fixtureId, NewEpochPending, WaitingForResnapshot,
                      controller.currentEpoch, controller.candidate, Some(p.shock), Some(p.freshness),
                      Some(p.proof), 1, NewShockClosedCandidate, p.at));
      UpdateController(
        controller.(state := WaitingForResnapshot, candidate := None, activeShock := Some(p.shock),
                    revision := controller.revision + 1, updatedAt := p.at));
    }

    /** One statement of the gap transaction, built from the rows read at its start. */
    method GapStatement(c: ControllerRow, closed: GenerationRow, g: GapParams, p: ShockParams, n: nat)
      requires n == 1 ==> p.shock !in working.shocks
      requires n == 2 ==> p.transition !in working.transitions
      requires n == 3 ==> c.id in working.controllers
      modifies this`working
      ensures working == GapWrite(old(working), c, closed, g, p, n)
    {
      if n == 0 {
        working := working.(gaps := working.gaps[g.gap :=
          GapRow(g.gap, closed.stream, closed.generation, closed.generation + 1, g.reason)]);
      } else if n == 1 {
        InsertShock(ShockRow(p.shock, c.runId, c.fixtureId, p.shockType));
      } else if n == 2 {
        InsertTransition(
          TransitionRow(p.transition, c.id, c.fixtureId, c.state, ShockedClosed, c.currentEpoch, None,
                        Some(p.shock), None, None, 1, ShockAtomicClose, p.at));
      } else if n == 3 {
        UpdateController(
          c.(state := ShockedClosed, activeShock := Some(p.shock), revision := c.revision + 1, updatedAt := p.at));
      } else if n == 4 {
        working := working.(bindings := working.bindings[g.binding :=
          BindingRow(g.binding, g.gap, c.currentEpoch, c.id, p.shock, p.transition,
                     "AFFECTED_EPOCH_PERMANENTLY_CLOSED")]);
      } else if n == 5 {
        working := working.(generations := working.generations[closed.id :=
          closed.(state := QuarantinedGap, closedAt := Some(g.at), closeReason := Some(g.reason))]);
      } else if n == 6 {
        working := working.(generationTransitions := working.generationTransitions[g.generationTransition :=
          GenerationTransitionRow(g.generationTransition, g.gap, closed.generation, closed.generation + 1)]);
      } else {
        working := working.(generations := working.generations[g.successor :=
          GenerationRow(g.successor, closed.stream, closed.generation + 1, Some(closed.generation),
                        Active, g.at, None, None)]);
      }
    }

    /** The gap transaction under a crash that lets `executed` statements through, COMMIT being
        the ninth: all eight writes become visible together or none does. */
    method GapUnderCrash(cid: Id, g: GapParams, p: ShockParams, executed: nat)
      requires cid in committed.controllers && committed.controllers[cid].id == cid
      requires g.generation in committed.generations
      requires g.gap !in committed.gaps && p.shock !in committed.shocks && p.transition !in committed.transitions
      requires g.binding !in committed.bindings && g.generationTransition !in committed.generationTransitions
      requires g.successor !in committed.generations
      modifies this
      ensures committed == if executed <= GAP_STATEMENTS
        then old(committed) else GapTransaction(old(committed), cid, g, p)
      ensures working == committed
    {
      hide GapWrite;
      Begin();
      var controller := working.controllers[cid];
      var predecessor := working.generations[g.generation];
      var n := 0;
      while n < executed && n < GAP_STATEMENTS
        invariant n <= GAP_STATEMENTS && n <= executed
        invariant committed == old(committed)
        invariant working == GapPrefix(committed, controller, predecessor, g, p, n)
        decreases GAP_STATEMENTS - n
      {
        GapPrefixLeaves(committed, controller, predecessor, g, p, n);
        GapStatement(controller, predecessor, g, p, n);
        n := n + 1;
      }
      if executed > GAP_STATEMENTS {
        Commit();
      }
      Crash();
    }
  }
}
