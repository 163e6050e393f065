/** Laws of whole controller runs: the replay accepts every honest journal, and closed epochs
    stay closed. */
module RunLaws {
  import opened Prelude
  import opened Coherence
  import opened Replay
  import opened ReplayLaws
  import opened Evolution
  import opened Relations
  import opened ControllerSteps
  import opened GapLaws
  import opened ControllerRuns

  /** Every step of the list is enabled when its turn comes. */
  ghost predicate ValidRun(t: Tables, cid: Id, steps: seq<Step>)
    requires Consistent(t, cid)
    decreases |steps|
  {
    steps == [] ||
    (Enabled(t, cid, steps[0])
     && (StepKeepsConsistency(t, cid, steps[0]);
         ValidRun(Next(t, cid, steps[0]), cid, steps[1..])))
  }

  ghost function After(t: Tables, cid: Id, steps: seq<Step>): (u: Tables)
    requires Consistent(t, cid) && ValidRun(t, cid, steps)
    ensures Consistent(u, cid)
    decreases |steps|
  {
    if steps == [] then t
    else
      StepKeepsConsistency(t, cid, steps[0]);
      After(Next(t, cid, steps[0]), cid, steps[1..])
  }

  /** A run before its first step: one open controller on a recorded epoch, one active
      generation 0 and no history. */
  function FreshRun(cid: Id, runId: Id, fixtureId: Id, epoch: Id, generation: Id, stream: StreamKey): Tables {
    Tables(
      map[runId := RunMetaRow(runId, "OPEN")],
      map[generation := GenerationRow(generation, stream, 0, None, Active, 0, None, None)],
      map[], map[], map[],
      map[cid := ControllerRow(cid, runId, fixtureId, Open, Some(epoch), None, None, None, 0, 0)],
      map[epoch := EpochRow(epoch, runId, fixtureId, None, 0)],
      map[], map[], map[], map[], {}, map[], map[], map[])
  }

  /** The invariant holds at the start, whatever the run's ids. */
  lemma FreshRunIsConsistent(cid: Id, runId: Id, fixtureId: Id, epoch: Id, generation: Id, stream: StreamKey)
    ensures Consistent(FreshRun(cid, runId, fixtureId, epoch, generation, stream), cid)
  {
    var t := FreshRun(cid, runId, fixtureId, epoch, generation, stream);
    assert Keyed(t) && Relates(t);
    assert t.controllers.Keys == {cid};
  }

  /** The invariant, and with it acceptance by the relation check, holds at every commit point. */
  lemma RunKeepsRelations(t: Tables, cid: Id, steps: seq<Step>)
    requires Consistent(t, cid) && ValidRun(t, cid, steps)
    ensures Relates(After(t, cid, steps))
  {
    assert Consistent(After(t, cid, steps), cid);
  }

  /** A run is the run of its first part followed by the run of the rest. */
  lemma {:induction false} RunSplits(t: Tables, cid: Id, first: seq<Step>, rest: seq<Step>)
    requires Consistent(t, cid)
    ensures ValidRun(t, cid, first + rest) <==>
            ValidRun(t, cid, first) && ValidRun(After(t, cid, first), cid, rest)
    ensures ValidRun(t, cid, first + rest) ==>
              After(t, cid, first + rest) == After(After(t, cid, first), cid, rest)
    decreases |first|
  {
    if first == [] {
      assert first + rest == rest;
    } else {
      assert (first + rest)[0] == first[0] && (first + rest)[1..] == first[1..] + rest;
      if Enabled(t, cid, first[0]) {
        StepKeepsConsistency(t, cid, first[0]);
        RunSplits(Next(t, cid, first[0]), cid, first[1..], rest);
      }
    }
  }

  function TransitionOf(step: Step): Option<Id> {
    match step
    case DoShock(p) => Some(p.transition)
    case DoWait(p) => Some(p.transition)
    case DoPend(p) => Some(p.transition)
    case DoRelease(p) => Some(p.transition)
    case DoNewShock(p) => Some(p.transition)
    case DoGap(_, p) => Some(p.transition)
    case DoSeed(_) => None
    case DoCursor(_) => None
    case DoAddMapping(_) => None
    case DoCloseMapping(_, _) => None
  }

  /** The transition a step appends to the journal, as a list of at most one row. */
  ghost function RowsOf(t: Tables, cid: Id, step: Step): seq<TransitionRow>
    requires Consistent(t, cid) && Enabled(t, cid, step)
  {
    var u := Next(t, cid, step).transitions;
    match TransitionOf(step)
    case None => []
    case Some(id) => if id in u then [u[id]] else []
  }

  /** One step against the replay: appending its row and updating the controller row agree. */
  ghost predicate Agrees(t: Tables, u: Tables, cid: Id, rows: seq<TransitionRow>)
    requires cid in t.controllers && cid in u.controllers
  {
    && Run(t.controllers[cid], rows) == Some(u.controllers[cid])
    && |rows| <= 1
    && (rows == [] ==> u.transitions == t.transitions && u.controllers[cid] == t.controllers[cid])
    && (rows != [] ==>
          && rows[0].id !in t.transitions && u.transitions == t.transitions[rows[0].id := rows[0]]
          && rows[0].controllerId == cid
          && rows[0].at > t.controllers[cid].updatedAt && rows[0].at == u.controllers[cid].updatedAt)
  }

  lemma OneRowRun(c: ControllerRow, row: TransitionRow)
    ensures Run(c, [row]) == if row.fromState == c.state then Apply(c, row) else None
  {
    assert [row][1..] == [];
  }

  lemma ShockAgrees(t: Tables, u: Tables, cid: Id, p: ShockParams)
    requires cid in t.controllers && t.controllers[cid].id == cid && t.controllers[cid].candidate.None?
    requires p.transition !in t.transitions && p.at > t.controllers[cid].updatedAt
    requires u.transitions == t.transitions[p.transition := ShockTransition(t.controllers[cid], p)]
    requires u.controllers == t.controllers[cid := ShockedController(t.controllers[cid], p)]
    ensures Agrees(t, u, cid, [u.transitions[p.transition]])
  {
    OneRowRun(t.controllers[cid], ShockTransition(t.controllers[cid], p));
  }

  lemma GapAgrees(t: Tables, cid: Id, g: GapParams, p: ShockParams)
    requires GapReady(t, cid, g, p) && t.controllers[cid].candidate.None? && p.at > t.controllers[cid].updatedAt
    ensures var u := GapTransaction(t, cid, g, p);
            cid in u.controllers && p.transition in u.transitions
            && Agrees(t, u, cid, [u.transitions[p.transition]])
            && u.controllers[cid].currentEpoch == t.controllers[cid].currentEpoch
  {
    GapPrefixTables(t, t.controllers[cid], t.generations[g.generation], g, p, GAP_STATEMENTS);
    ShockAgrees(t, GapTransaction(t, cid, g, p), cid, p);
  }

  lemma WaitAgrees(t: Tables, cid: Id, p: WaitParams)
    requires cid in t.controllers && t.controllers[cid].id == cid && t.controllers[cid].state == ShockedClosed
    requires p.transition !in t.transitions && p.at > t.controllers[cid].updatedAt
    ensures var u := Waiting(t, cid, p); Agrees(t, u, cid, [u.transitions[p.transition]])
  {
    OneRowRun(t.controllers[cid], Waiting(t, cid, p).transitions[p.transition]);
  }

  lemma PendAgrees(t: Tables, cid: Id, p: PendParams)
    requires cid in t.controllers && t.controllers[cid].id == cid && t.controllers[cid].state == WaitingForResnapshot
    requires p.transition !in t.transitions && p.at > t.controllers[cid].updatedAt
    ensures var u := Pending(t, cid, p); Agrees(t, u, cid, [u.transitions[p.transition]])
  {
    OneRowRun(t.controllers[cid], Pending(t, cid, p).transitions[p.transition]);
  }

  lemma ReleaseAgrees(t: Tables, cid: Id, p: ReleaseParams)
    requires cid in t.controllers && t.controllers[cid].id == cid && t.controllers[cid].state == NewEpochPending
    requires t.controllers[cid].predecessor == t.controllers[cid].currentEpoch
    requires p.transition !in t.transitions && p.at > t.controllers[cid].updatedAt
    ensures var u := Release(t, cid, p); Agrees(t, u, cid, [u.transitions[p.transition]])
  {
    OneRowRun(t.controllers[cid], Release(t, cid, p).transitions[p.transition]);
  }

  lemma NewShockAgrees(t: Tables, cid: Id, p: NewShockParams)
    requires cid in t.controllers && t.controllers[cid].id == cid && t.controllers[cid].state == NewEpochPending
    requires p.transition !in t.transitions && p.at > t.controllers[cid].updatedAt
    ensures var u := NewShock(t, cid, p); Agrees(t, u, cid, [u.transitions[p.transition]])
  {
    OneRowRun(t.controllers[cid], NewShock(t, cid, p).transitions[p.transition]);
  }

  lemma QuietStepAgrees(t: Tables, cid: Id, step: Step)
    requires Consistent(t, cid) && Enabled(t, cid, step) && TransitionOf(step).None?
    ensures cid in Next(t, cid, step).controllers
    ensures Agrees(t, Next(t, cid, step), cid, [])
  {
    hide Relates, Keyed, ControllerFits, HistoryFits;
  }

  lemma PlainStepAgrees(t: Tables, cid: Id, step: Step)
    requires Consistent(t, cid) && Enabled(t, cid, step) && TransitionOf(step).Some? && !step.DoGap?
    ensures cid in Next(t, cid, step).controllers
    ensures Agrees(t, Next(t, cid, step), cid, RowsOf(t, cid, step))
  {
    hide Relates, HistoryFits;
    if step.DoShock? {
      ShockAgrees(t, ShockClose(t, cid, step.shock), cid, step.shock);
    } else if step.DoWait? {
      WaitAgrees(t, cid, step.wait);
    } else if step.DoPend? {
      PendAgrees(t, cid, step.pend);
    } else if step.DoRelease? {
      ReleaseAgrees(t, cid, step.release);
    } else {
      NewShockAgrees(t, cid, step.newShock);
    }
  }

  /** The step methods do not write every field the replay writes; that the two still agree
      rests on the invariant. */
  lemma StepAgrees(t: Tables, cid: Id, step: Step)
    requires Consistent(t, cid) && Enabled(t, cid, step)
    ensures cid in Next(t, cid, step).controllers
    ensures Agrees(t, Next(t, cid, step), cid, RowsOf(t, cid, step))
  {
    if TransitionOf(step).None? {
      QuietStepAgrees(t, cid, step);
    } else if step.DoGap? {
      GapAgrees(t, cid, step.gap, step.gapShock);
    } else {
      PlainStepAgrees(t, cid, step);
    }
  }

  /** The replay accepts a single step, taken from any controller row with fresh keys, exactly
      under the state guard the step itself does not test. */
  lemma ShockReplayExact(t: Tables, cid: Id, p: ShockParams)
    requires cid in t.controllers && t.controllers[cid].id == cid
    ensures var c, u := t.controllers[cid], ShockClose(t, cid, p);
            && cid in u.controllers && p.transition in u.transitions
            && (Run(c, [u.transitions[p.transition]]) == Some(u.controllers[cid]) <==> c.candidate == None)
  {
    OneRowRun(t.controllers[cid], ShockClose(t, cid, p).transitions[p.transition]);
  }

  lemma WaitReplayExact(t: Tables, cid: Id, p: WaitParams)
    requires cid in t.controllers && t.controllers[cid].id == cid
    ensures var c, u := t.controllers[cid], Waiting(t, cid, p);
            && cid in u.controllers && p.transition in u.transitions
            && (Run(c, [u.transitions[p.transition]]) == Some(u.controllers[cid]) <==> c.state == ShockedClosed)
  {
    OneRowRun(t.controllers[cid], Waiting(t, cid, p).transitions[p.transition]);
  }

  lemma PendReplayExact(t: Tables, cid: Id, p: PendParams)
    requires cid in t.controllers && t.controllers[cid].id == cid
    ensures var c, u := t.controllers[cid], Pending(t, cid, p);
            && cid in u.controllers && p.transition in u.transitions
            && (Run(c, [u.transitions[p.transition]]) == Some(u.controllers[cid]) <==> c.state == WaitingForResnapshot)
  {
    OneRowRun(t.controllers[cid], Pending(t, cid, p).transitions[p.transition]);
  }

  lemma ReleaseReplayExact(t: Tables, cid: Id, p: ReleaseParams)
    requires cid in t.controllers && t.controllers[cid].id == cid
    ensures var c, u := t.controllers[cid], Release(t, cid, p);
            && cid in u.controllers && p.transition in u.transitions
            && (Run(c, [u.transitions[p.transition]]) == Some(u.controllers[cid]) <==>
              c.state == NewEpochPending && c.predecessor == c.currentEpoch)
  {
    OneRowRun(t.controllers[cid], Release(t, cid, p).transitions[p.transition]);
  }

  lemma NewShockReplayExact(t: Tables, cid: Id, p: NewShockParams)
    requires cid in t.controllers && t.controllers[cid].id == cid
    ensures var c, u := t.controllers[cid], NewShock(t, cid, p);
            && cid in u.controllers && p.transition in u.transitions
            && (Run(c, [u.transitions[p.transition]]) == Some(u.controllers[cid]) <==> c.state == NewEpochPending)
  {
    OneRowRun(t.controllers[cid], NewShock(t, cid, p).transitions[p.transition]);
  }

  // ----- the journal of a run -----

  ghost function Journal(t: Tables, cid: Id, steps: seq<Step>): seq<TransitionRow>
    requires Consistent(t, cid) && ValidRun(t, cid, steps)
    decreases |steps|
  {
    if steps == [] then []
    else
      StepKeepsConsistency(t, cid, steps[0]);
      RowsOf(t, cid, steps[0]) + Journal(Next(t, cid, steps[0]), cid, steps[1..])
  }

  lemma {:induction false} RunAppends(
      c: ControllerRow, rows: seq<TransitionRow>, rest: seq<TransitionRow>, middle: ControllerRow)
    requires |rows| <= 1 && Run(c, rows) == Some(middle)
    ensures Run(c, rows + rest) == Run(middle, rest)
  {
    if rows == [] {
      assert rows + rest == rest;
    } else {
      OneRowRun(c, rows[0]);
      assert rows == [rows[0]] && (rows + rest)[1..] == rest && (rows + rest)[0] == rows[0];
    }
  }

  /** The journal of a run: read in order it leads from the first controller row to the last,
      its dates increase, and it holds exactly the rows added since the start. */
  lemma {:induction false} JournalRuns(t: Tables, cid: Id, steps: seq<Step>)
    requires Consistent(t, cid) && ValidRun(t, cid, steps)
    ensures var u := After(t, cid, steps);
            Run(t.controllers[cid], Journal(t, cid, steps)) == Some(u.controllers[cid])
    ensures forall r :: r in Journal(t, cid, steps) ==> r.controllerId == cid && r.at > t.controllers[cid].updatedAt
    ensures Increasing(Journal(t, cid, steps))
    ensures DistinctIds(Journal(t, cid, steps))
    ensures forall r :: r in Journal(t, cid, steps) <==> AddedRow(t, After(t, cid, steps), r)
    ensures Extends(t.transitions, After(t, cid, steps).transitions)
    decreases |steps|
  {
    if steps != [] {
      StepKeepsConsistency(t, cid, steps[0]);
      StepAgrees(t, cid, steps[0]);
      var n := Next(t, cid, steps[0]);
      var rows, rest := RowsOf(t, cid, steps[0]), Journal(n, cid, steps[1..]);
      JournalRuns(n, cid, steps[1..]);
      RunAppends(t.controllers[cid], rows, rest, n.controllers[cid]);
      PrependRow(t, n, After(t, cid, steps), rows, rest);
    }
  }

  ghost predicate AddedRow(t: Tables, u: Tables, r: TransitionRow) {
    r.id in u.transitions && u.transitions[r.id] == r && r.id !in t.transitions
  }

  lemma PrependRow(t: Tables, n: Tables, u: Tables, rows: seq<TransitionRow>, rest: seq<TransitionRow>)
    requires |rows| <= 1
    requires rows == [] ==> n.transitions == t.transitions
    requires rows != [] ==> rows[0].id !in t.transitions && n.transitions == t.transitions[rows[0].id := rows[0]]
                            && forall r :: r in rest ==> r.at > rows[0].at
    requires Increasing(rest) && DistinctIds(rest)
    requires forall r :: r in rest <==> AddedRow(n, u, r)
    requires Extends(n.transitions, u.transitions)
    ensures Increasing(rows + rest) && DistinctIds(rows + rest)
    ensures forall r :: r in rows + rest <==> AddedRow(t, u, r)
    ensures Extends(t.transitions, u.transitions)
  {
    if rows == [] {
      assert rows + rest == rest;
    } else {
      var all := rows + rest;
      assert rows[0].id in n.transitions;
      assert forall k :: k in t.transitions ==> k in n.transitions;
      forall j | 0 < j < |all| ensures Before(all[0], all[j]) && all[0].id != all[j].id {
        assert all[j] == rest[j - 1] && rest[j - 1] in rest;
        assert AddedRow(n, u, rest[j - 1]);
      }
      forall r ensures r in all <==> AddedRow(t, u, r) {
        assert r in all <==> r == rows[0] || r in rest;
      }
    }
  }

  // ----- the replay accepts honest journals -----

  /** A snapshot taken at a commit point: the one controller row and the transitions in any
      order. */
  ghost predicate SnapshotOf(s: Snapshot, t: Tables, cid: Id)
    requires cid in t.controllers
  {
    s.controllers == [t.controllers[cid]] && Lists(s.transitions, t.transitions)
  }

  /** The new rows of a later snapshot are the journal of the run between, in some order. */
  lemma PendingIsJournal(t: Tables, cid: Id, steps: seq<Step>, earlier: Snapshot, later: Snapshot)
    requires Consistent(t, cid) && ValidRun(t, cid, steps)
    requires SnapshotOf(earlier, t, cid) && SnapshotOf(later, After(t, cid, steps), cid)
    ensures multiset(NewRows(Ids(earlier.transitions), t.controllers[cid].id, later.transitions))
            == multiset(Journal(t, cid, steps))
  {
    hide Enabled, Next, Relates, ControllerFits, HistoryFits, StreamKeys;
    var journal := Journal(t, cid, steps);
    var pending := NewRows(Ids(earlier.transitions), t.controllers[cid].id, later.transitions);
    JournalRuns(t, cid, steps);
    NewRowsStayDistinct(Ids(earlier.transitions), t.controllers[cid].id, later.transitions);
    forall r ensures multiset(pending)[r] == multiset(journal)[r] {
      DistinctRowsOccurOnce(pending, r);
      DistinctRowsOccurOnce(journal, r);
      KnownId(earlier.transitions, t.transitions, r.id);
    }
  }

  /** Completeness of the replay: from any commit point of a run to any later one it accepts
      and reproduces the later controller row, however the snapshots order their rows. */
  lemma HonestRunReplays(t: Tables, cid: Id, steps: seq<Step>, earlier: Snapshot, later: Snapshot)
    requires Consistent(t, cid) && ValidRun(t, cid, steps)
    requires SnapshotOf(earlier, t, cid) && SnapshotOf(later, After(t, cid, steps), cid)
    ensures Accepts(earlier, later)
  {
    hide Enabled, Next, Relates, Keyed;
    var u := After(t, cid, steps);
    var journal := Journal(t, cid, steps);
    var pending := NewRows(Ids(earlier.transitions), t.controllers[cid].id, later.transitions);
    JournalRuns(t, cid, steps);
    PendingIsJournal(t, cid, steps, earlier, later);
    RunIsConnected(t.controllers[cid], journal, u.controllers[cid]);
    IncreasingRunIsReplayed(t.controllers[cid], journal, pending, u.controllers[cid]);
  }

  lemma KnownId(rows: seq<TransitionRow>, table: map<Id, TransitionRow>, id: Id)
    requires Lists(rows, table)
    requires forall k {:trigger table[k]} :: k in table ==> table[k].id == k
    ensures id in Ids(rows) <==> id in table
  {
    if id in Ids(rows) {
      var r :| r in rows && r.id == id;
    }
    if id in table {
      assert table[id] in rows;
    }
  }

  lemma ContainsRowsTransitive(a: Tables, b: Tables, c: Tables)
    requires ContainsRows(a, b) && ContainsRows(b, c)
    ensures ContainsRows(a, c)
  {
    hide Extends;
    ExtendsTransitive(a.gaps, b.gaps, c.gaps);
    ExtendsTransitive(a.bindings, b.bindings, c.bindings);
    ExtendsTransitive(a.generationTransitions, b.generationTransitions, c.generationTransitions);
    ExtendsTransitive(a.epochs, b.epochs, c.epochs);
    ExtendsTransitive(a.transitions, b.transitions, c.transitions);
    ExtendsTransitive(a.shocks, b.shocks, c.shocks);
    ExtendsTransitive(a.freshness, b.freshness, c.freshness);
    ExtendsTransitive(a.proofs, b.proofs, c.proofs);
    ExtendsTransitive(a.closures, b.closures, c.closures);
    ExtendsTransitive(a.cursors, b.cursors, c.cursors);
    ExtendsTransitive(a.rawCommits, b.rawCommits, c.rawCommits);
  }

  lemma ExtendsTransitive<K, V>(a: map<K, V>, b: map<K, V>, c: map<K, V>)
    requires Extends(a, b) && Extends(b, c)
    ensures Extends(a, c)
  {
  }

  lemma GapEvolves(t: Tables, cid: Id, g: GapParams, p: ShockParams)
    requires GapReady(t, cid, g, p) && GenerationsShaped(t)
    ensures var u := GapTransaction(t, cid, g, p);
            ContainsRows(t, u) && GenerationsReachable(t, u) && u.runMeta == t.runMeta
  {
    hide GenerationsReachable, GapPrefix, GenerationsShaped;
    var u := GapTransaction(t, cid, g, p);
    GapPrefixTables(t, t.controllers[cid], t.generations[g.generation], g, p, GAP_STATEMENTS);
    GapTablesContain(t, t.controllers[cid], t.generations[g.generation], g, p);
    ClosingReaches(t, u, t.generations[g.generation], g);
  }

  lemma GapTablesContain(t: Tables, c: ControllerRow, closed: GenerationRow, g: GapParams, p: ShockParams)
    requires GapIdsFresh(t, g) && p.shock !in t.shocks && p.transition !in t.transitions
    ensures ContainsRows(t, GapTables(t, c, closed, g, p, GAP_STATEMENTS))
  {
  }

  lemma ClosingReaches(t: Tables, u: Tables, closed: GenerationRow, g: GapParams)
    requires GenerationsShaped(t) && closed.state == Active && g.successor !in t.generations
    requires closed.id in t.generations && t.generations[closed.id] == closed
    requires u.generations == t.generations[closed.id := Quarantined(closed, g)][g.successor := SuccessorOf(closed, g)]
    ensures GenerationsReachable(t, u)
  {
  }

  lemma PendContains(t: Tables, cid: Id, p: PendParams)
    requires cid in t.controllers && PendKeysFresh(t, p)
    ensures ContainsRows(t, Pending(t, cid, p))
  {
    hide ContainsRows, AcceptCandidate;
    CandidateRowsContain(t, cid, p);
    AcceptanceContains(CandidateRows(t, cid, p), cid, p);
    ContainsRowsTransitive(t, CandidateRows(t, cid, p), Pending(t, cid, p));
  }

  lemma CandidateRowsContain(t: Tables, cid: Id, p: PendParams)
    requires cid in t.controllers && PendKeysFresh(t, p)
    ensures ContainsRows(t, CandidateRows(t, cid, p))
  {
  }

  lemma AcceptanceContains(t: Tables, cid: Id, p: PendParams)
    requires cid in t.controllers && p.proof !in t.proofs && p.transition !in t.transitions
    ensures ContainsRows(t, AcceptCandidate(t, cid, p))
  {
  }

  lemma NewShockContains(t: Tables, cid: Id, p: NewShockParams)
    requires cid in t.controllers
    requires p.transition !in t.transitions && p.shock !in t.shocks && p.epoch !in t.epochs
    ensures ContainsRows(t, NewShock(t, cid, p))
  {
  }

  lemma SeedContains(t: Tables, cid: Id, s: SeedParams)
    requires cid in t.controllers && t.controllers[cid].activeShock.Some?
    requires s.gap.generation !in t.generations && GapIdsFresh(t, s.gap)
    ensures ContainsRows(t, SeedContinuity(t, cid, s))
    ensures Extends(t.generations, SeedContinuity(t, cid, s).generations)
  {
  }

  lemma UntouchedGenerationsReach(t: Tables, u: Tables)
    requires GenerationsShaped(t) && Extends(t.generations, u.generations)
    ensures GenerationsReachable(t, u)
  {
  }

  lemma ShockContains(t: Tables, cid: Id, p: ShockParams)
    requires cid in t.controllers && p.transition !in t.transitions && p.shock !in t.shocks
    ensures ContainsRows(t, ShockClose(t, cid, p))
  {
  }

  lemma WaitContains(t: Tables, cid: Id, p: WaitParams)
    requires cid in t.controllers && p.transition !in t.transitions
    ensures ContainsRows(t, Waiting(t, cid, p))
  {
  }

  lemma ReleaseContains(t: Tables, cid: Id, p: ReleaseParams)
    requires cid in t.controllers && p.transition !in t.transitions
    ensures ContainsRows(t, Release(t, cid, p))
  {
  }

  lemma QuietRowsContained(t: Tables, u: Tables)
    requires u == t.(cursors := u.cursors, mappings := u.mappings, closures := u.closures)
    requires Extends(t.cursors, u.cursors) && t.mappings <= u.mappings && Extends(t.closures, u.closures)
    ensures ContainsRows(t, u)
  {
  }

  lemma PlainStepContains(t: Tables, cid: Id, step: Step)
    requires cid in t.controllers && Consistent(t, cid) && Enabled(t, cid, step)
    requires !step.DoGap?
    ensures ContainsRows(t, Next(t, cid, step)) && Extends(t.generations, Next(t, cid, step).generations)
    ensures Next(t, cid, step).runMeta == t.runMeta
  {
    hide Relates, Keyed, ControllerFits, HistoryFits, ContainsRows;
    match step {
      case DoShock(p) => ShockContains(t, cid, p);
      case DoWait(p) => WaitContains(t, cid, p);
      case DoPend(p) => PendContains(t, cid, p);
      case DoRelease(p) => ReleaseContains(t, cid, p);
      case DoNewShock(p) => NewShockContains(t, cid, p);
      case DoSeed(s) => SeedContains(t, cid, s);
      case DoCursor(_) => QuietRowsContained(t, Next(t, cid, step));
      case DoAddMapping(_) => QuietRowsContained(t, Next(t, cid, step));
      case DoCloseMapping(_, _) => QuietRowsContained(t, Next(t, cid, step));
    }
  }

  lemma StepEvolves(t: Tables, cid: Id, step: Step)
    requires Consistent(t, cid) && Enabled(t, cid, step)
    ensures var u := Next(t, cid, step);
            ContainsRows(t, u) && GenerationsReachable(t, u) && u.runMeta == t.runMeta
  {
    if step.DoGap? {
      GapEvolves(t, cid, step.gap, step.gapShock);
    } else {
      PlainStepContains(t, cid, step);
      UntouchedGenerationsReach(t, Next(t, cid, step));
    }
  }

  lemma StayingReaches(t: Tables, cid: Id)
    requires Consistent(t, cid)
    ensures GenerationsReachable(t, t)
  {
    UntouchedGenerationsReach(t, t);
  }

  lemma ContainsRowsReflexive(t: Tables)
    ensures ContainsRows(t, t) && Extends(t.generations, t.generations)
  {
  }

  lemma {:induction false} RunEvolves(t: Tables, cid: Id, steps: seq<Step>)
    requires Consistent(t, cid) && ValidRun(t, cid, steps)
    ensures var u := After(t, cid, steps);
            ContainsRows(t, u) && GenerationsReachable(t, u) && u.runMeta == t.runMeta
    decreases |steps|
  {
    hide Consistent, Enabled, Next, ContainsRows, GenerationMoves;
    if steps == [] {
      ContainsRowsReflexive(t);
      StayingReaches(t, cid);
    } else {
      StepKeepsConsistency(t, cid, steps[0]);
      StepEvolves(t, cid, steps[0]);
      var n, u := Next(t, cid, steps[0]), After(t, cid, steps);
      RunEvolves(n, cid, steps[1..]);
      ContainsRowsTransitive(t, n, u);
      forall id | id in t.generations
        ensures id in u.generations && GenerationMoves(t.generations[id], u.generations[id])
      {
        GenerationMovesCompose(t.generations[id], n.generations[id], u.generations[id]);
      }
    }
  }

  /** Any two commit points of a run, retained in any row order, pass the whole evolution
      check. */
  lemma HonestRunEvolves(t: Tables, cid: Id, steps: seq<Step>, earlier: Retained, later: Retained)
    requires Consistent(t, cid) && ValidRun(t, cid, steps)
    requires earlier.tables == t && later.tables == After(t, cid, steps)
    requires SnapshotOf(earlier.listed, t, cid) && SnapshotOf(later.listed, After(t, cid, steps), cid)
    requires earlier.runId == later.runId && earlier.spool <= later.spool
    ensures Evolves(earlier, later)
  {
    RunEvolves(t, cid, steps);
    HonestRunReplays(t, cid, steps, earlier.listed, later.listed);
  }

  /** The same for a commit point inside a longer run and any later one. */
  lemma CommitPointsEvolve(t: Tables, cid: Id, first: seq<Step>, rest: seq<Step>, earlier: Retained, later: Retained)
    requires Consistent(t, cid) && ValidRun(t, cid, first) && ValidRun(t, cid, first + rest)
    requires earlier.tables == After(t, cid, first) && later.tables == After(t, cid, first + rest)
    requires SnapshotOf(earlier.listed, earlier.tables, cid) && SnapshotOf(later.listed, later.tables, cid)
    requires earlier.runId == later.runId && earlier.spool <= later.spool
    ensures Evolves(earlier, later)
  {
    RunSplits(t, cid, first, rest);
    HonestRunEvolves(earlier.tables, cid, rest, earlier, later);
  }

  // ----- closed epochs -----

  lemma StepKeepsClosedEpochs(t: Tables, cid: Id, step: Step, epoch: Id)
    requires Consistent(t, cid) && Enabled(t, cid, step) && ClosedEpoch(t, epoch)
    ensures ClosedEpoch(Next(t, cid, step), epoch)
  {
    hide Consistent, Enabled, Next;
    StepAgrees(t, cid, step);
    var u := Next(t, cid, step);
    var k :| k in t.transitions && Closes(t.transitions[k], epoch);
    assert u.transitions[k] == t.transitions[k];
  }

  /** Only a release changes the current epoch, and it moves to the held candidate. */
  lemma StepMovesEpoch(t: Tables, cid: Id, step: Step)
    requires Consistent(t, cid) && Enabled(t, cid, step)
    ensures cid in Next(t, cid, step).controllers
    ensures var c, d := t.controllers[cid], Next(t, cid, step).controllers[cid];
            d.currentEpoch == if step.DoRelease? then c.candidate else c.currentEpoch
  {
    hide Relates, Keyed, HistoryFits;
    if step.DoGap? {
      GapAgrees(t, cid, step.gap, step.gapShock);
    }
  }

  /** Safety over whole runs: an epoch that was shock-closed, or closed as a candidate, and is
      not current never becomes current again. */
  lemma {:induction false} ClosedEpochNeverReturns(t: Tables, cid: Id, steps: seq<Step>, epoch: Id)
    requires Consistent(t, cid) && ValidRun(t, cid, steps)
    requires ClosedEpoch(t, epoch) && t.controllers[cid].currentEpoch != Some(epoch)
    ensures ClosedEpoch(After(t, cid, steps), epoch)
    ensures After(t, cid, steps).controllers[cid].currentEpoch != Some(epoch)
    decreases |steps|
  {
    if steps != [] {
      StepKeepsConsistency(t, cid, steps[0]);
      StepKeepsClosedEpochs(t, cid, steps[0], epoch);
      StepMovesEpoch(t, cid, steps[0]);
      ClosedEpochNeverReturns(Next(t, cid, steps[0]), cid, steps[1..], epoch);
    }
  }

  /** While a closed epoch is still current the controller is not open on it. */
  lemma {:induction false} ClosedEpochIsNeverOpen(t: Tables, cid: Id, steps: seq<Step>, epoch: Id)
    requires Consistent(t, cid) && ValidRun(t, cid, steps) && ClosedEpoch(t, epoch)
    ensures var c := After(t, cid, steps).controllers[cid];
            c.state in {Open, NewEpochOpen} ==> c.currentEpoch != Some(epoch)
    decreases |steps|
  {
    if steps != [] {
      StepKeepsConsistency(t, cid, steps[0]);
      StepKeepsClosedEpochs(t, cid, steps[0], epoch);
      ClosedEpochIsNeverOpen(Next(t, cid, steps[0]), cid, steps[1..], epoch);
    }
  }

  /** A release moves to an epoch whose recorded predecessor is the epoch it replaces. */
  lemma ReleaseMovesToSuccessor(t: Tables, cid: Id, p: ReleaseParams)
    requires Consistent(t, cid) && Enabled(t, cid, DoRelease(p))
    ensures var u := Next(t, cid, DoRelease(p));
            cid in u.controllers
            && u.controllers[cid].currentEpoch.Some?
            && u.controllers[cid].currentEpoch.value in u.epochs
            && u.epochs[u.controllers[cid].currentEpoch.value].predecessor == t.controllers[cid].currentEpoch
            && u.controllers[cid].currentEpoch != t.controllers[cid].currentEpoch
  {
    assert HoldsCandidate(t, t.controllers[cid]);
  }
}
