/** The state-evolution check between retained snapshots
    (tools/run_gap_coherence_crash_matrix.py:778-892) and its composition law. */
module Evolution {
  import opened Prelude
  import opened Coherence
  import opened Replay
  import opened ReplayLaws

  /** A retained snapshot: the indexed tables, the lists the replay walks, and the spool rows. */
  datatype Retained = Retained(runId: Id, tables: Tables, listed: Snapshot, spool: set<string>)

  ghost predicate WellListed(r: Retained) {
    Lists(r.listed.transitions, r.tables.transitions)
  }

  ghost predicate ContainsRows(earlier: Tables, later: Tables) {
    && Extends(earlier.gaps, later.gaps)
    && Extends(earlier.bindings, later.bindings)
    && Extends(earlier.generationTransitions, later.generationTransitions)
    && Extends(earlier.epochs, later.epochs)
    && Extends(earlier.transitions, later.transitions)
    && Extends(earlier.shocks, later.shocks)
    && Extends(earlier.freshness, later.freshness)
    && Extends(earlier.proofs, later.proofs)
    && earlier.mappings <= later.mappings
    && Extends(earlier.closures, later.closures)
    && Extends(earlier.cursors, later.cursors)
    && Extends(earlier.rawCommits, later.rawCommits)
  }

  predicate AllowedMove(from: GenerationState, to: GenerationState) {
    match from
    case Active => true
    case QuarantinedGap => to != Active
    case Closed => to == Closed
  }

  predicate GenerationMoves(before: GenerationRow, after: GenerationRow) {
    && (after.state == before.state ==> after == before)
    && after.id == before.id && after.stream == before.stream && after.generation == before.generation
    && after.predecessor == before.predecessor && after.openedAt == before.openedAt
    && AllowedMove(before.state, after.state)
    && (after.state == Active ==> after.closeReason.None? && after.closedAt.None?)
    && (after.state != Active ==> after.closeReason.Some? && after.closedAt.Some?)
  }

  ghost predicate GenerationsReachable(earlier: Tables, later: Tables) {
    forall id {:trigger id in earlier.generations} :: id in earlier.generations ==>
      id in later.generations && GenerationMoves(earlier.generations[id], later.generations[id])
  }

  ghost predicate Evolves(earlier: Retained, later: Retained) {
    && earlier.runId == later.runId
    && earlier.tables.runMeta == later.tables.runMeta
    && ContainsRows(earlier.tables, later.tables)
    && GenerationsReachable(earlier.tables, later.tables)
    && Accepts(earlier.listed, later.listed)
    && earlier.spool <= later.spool
  }

  /** Transitions the replay of a leg consumes. */
  function LegRows(earlier: Retained, later: Retained): seq<TransitionRow>
    requires |earlier.listed.controllers| == 1
  {
    NewRows(Ids(earlier.listed.transitions), earlier.listed.controllers[0].id, later.listed.transitions)
  }

  lemma LegsPartition(first: Retained, second: Retained, third: Retained)
    requires WellListed(first) && WellListed(second) && WellListed(third)
    requires |first.listed.controllers| == 1 && |second.listed.controllers| == 1
    requires first.listed.controllers[0].id == second.listed.controllers[0].id
    requires Extends(first.tables.transitions, second.tables.transitions)
    requires Extends(second.tables.transitions, third.tables.transitions)
    ensures multiset(LegRows(first, third)) == multiset(LegRows(first, second)) + multiset(LegRows(second, third))
    ensures KeysIdentifyRows(LegRows(first, third))
  {
    var whole, leg1, leg2 := LegRows(first, third), LegRows(first, second), LegRows(second, third);
    var id := first.listed.controllers[0].id;
    NewRowsStayDistinct(Ids(first.listed.transitions), id, third.listed.transitions);
    NewRowsStayDistinct(Ids(first.listed.transitions), id, second.listed.transitions);
    NewRowsStayDistinct(Ids(second.listed.transitions), id, third.listed.transitions);
    DistinctIdsIdentifyRows(whole);
    forall r ensures multiset(whole)[r] == (multiset(leg1) + multiset(leg2))[r] {
      DistinctRowsOccurOnce(whole, r);
      DistinctRowsOccurOnce(leg1, r);
      DistinctRowsOccurOnce(leg2, r);
      KnownIds(first, r.id);
      KnownIds(second, r.id);
      RowsOfLater(second, third, r);
    }
  }

  lemma KnownIds(r: Retained, id: Id)
    requires WellListed(r)
    ensures id in Ids(r.listed.transitions) <==> id in r.tables.transitions && r.tables.transitions[id].id == id
  {
    if id in Ids(r.listed.transitions) {
      var row :| row in r.listed.transitions && row.id == id;
    }
    if id in r.tables.transitions && r.tables.transitions[id].id == id {
      assert r.tables.transitions[id] in r.listed.transitions;
    }
  }

  lemma RowsOfLater(earlier: Retained, later: Retained, r: TransitionRow)
    requires WellListed(earlier) && WellListed(later)
    requires Extends(earlier.tables.transitions, later.tables.transitions)
    ensures r in earlier.listed.transitions ==> r in later.listed.transitions
    ensures r in later.listed.transitions && r.id in Ids(earlier.listed.transitions) ==>
              r in earlier.listed.transitions
  {
    KnownIds(earlier, r.id);
  }

  lemma GenerationMovesCompose(a: GenerationRow, b: GenerationRow, c: GenerationRow)
    requires GenerationMoves(a, b) && GenerationMoves(b, c)
    ensures GenerationMoves(a, c)
  {
    if c.state == a.state {
      assert b.state == a.state;
    }
  }

  /** Composition: two accepted legs form an accepted whole when every transition of the second
      leg is keyed after every transition of the first. */
  lemma EvolutionComposes(baseline: Retained, before: Retained, after: Retained)
    requires WellListed(baseline) && WellListed(before) && WellListed(after)
    requires Evolves(baseline, before) && Evolves(before, after)
    requires forall a, b :: a in LegRows(baseline, before) && b in LegRows(before, after) ==> Before(a, b)
    ensures Evolves(baseline, after)
  {
    forall id | id in baseline.tables.generations
      ensures id in after.tables.generations
              && GenerationMoves(baseline.tables.generations[id], after.tables.generations[id])
    {
      GenerationMovesCompose(baseline.tables.generations[id], before.tables.generations[id],
        after.tables.generations[id]);
    }
    LegsPartition(baseline, before, after);
    ReplayComposes(baseline.listed.controllers[0], LegRows(baseline, before), LegRows(before, after),
                   LegRows(baseline, after), before.listed.controllers[0]);
  }

  // ----- the key condition is needed -----

  /** A snapshot of one controller row and some transitions, and nothing else. */
  function JournalOnly(controller: ControllerRow, rows: seq<TransitionRow>): Retained {
    Retained(
      controller.runId,
      Tables(map[], map[], map[], map[], map[], map[controller.id := controller], map[], ById(rows), map[], map[],
             map[], {}, map[], map[], map[]),
      Snapshot([controller], rows), {})
  }

  function ById(rows: seq<TransitionRow>): map<Id, TransitionRow> {
    if rows == [] then map[] else ById(rows[..|rows| - 1])[rows[|rows| - 1].id := rows[|rows| - 1]]
  }

  lemma {:induction false} ByIdLists(rows: seq<TransitionRow>)
    requires DistinctIds(rows)
    ensures Lists(rows, ById(rows))
    ensures forall k :: k in ById(rows) ==> ById(rows)[k].id == k
  {
    if rows != [] {
      var init, last := rows[..|rows| - 1], rows[|rows| - 1];
      ByIdLists(init);
      assert rows == init + [last];
      forall r | r in init
        ensures r.id != last.id
      {
        var i :| 0 <= i < |init| && init[i] == r;
        assert rows[i].id != rows[|rows| - 1].id;
      }
    }
  }

  lemma NotYetListed(rows: seq<TransitionRow>, row: TransitionRow)
    requires DistinctIds(rows + [row])
    ensures DistinctIds(rows) && row.id !in ById(rows)
  {
    var all := rows + [row];
    assert forall i :: 0 <= i < |rows| ==> all[i] == rows[i];
    ByIdLists(rows);
    forall r | r in rows
      ensures r.id != row.id
    {
      var i :| 0 <= i < |rows| && rows[i] == r;
      assert all[i].id != all[|rows|].id;
    }
  }

  lemma {:induction false} ByIdExtends(rows: seq<TransitionRow>, more: seq<TransitionRow>)
    requires DistinctIds(rows + more)
    ensures Extends(ById(rows), ById(rows + more))
    decreases |more|
  {
    hide DistinctIds, Lists;
    if more == [] {
      assert rows + more == rows;
    } else {
      var n := |more| - 1;
      var init := rows + more[..n];
      assert rows + more == init + [more[n]] && (rows + more)[..|rows + more| - 1] == init;
      NotYetListed(init, more[n]);
      ByIdExtends(rows, more[..n]);
    }
  }

  lemma {:induction false} AllRowsAreNew(known: set<Id>, controller: Id, rows: seq<TransitionRow>)
    requires forall r :: r in rows ==> r.id !in known && r.controllerId == controller
    ensures NewRows(known, controller, rows) == rows
  {
    if rows != [] {
      assert rows == [rows[0]] + rows[1..];
      AllRowsAreNew(known, controller, rows[1..]);
    }
  }

  lemma {:induction false} NewRowsAreTheRest(
      known: set<Id>, controller: Id, first: seq<TransitionRow>, rest: seq<TransitionRow>)
    requires forall r :: r in first ==> r.id in known
    requires forall r :: r in rest ==> r.id !in known && r.controllerId == controller
    ensures NewRows(known, controller, first + rest) == rest
    decreases |first|
  {
    if first == [] {
      assert first + rest == rest;
      AllRowsAreNew(known, controller, rest);
    } else {
      assert first[0] in first;
      assert (first + rest)[0] == first[0] && (first + rest)[1..] == first[1..] + rest;
      NewRowsAreTheRest(known, controller, first[1..], rest);
    }
  }

  lemma RestIsNew(rows: seq<TransitionRow>, more: seq<TransitionRow>)
    requires DistinctIds(rows + more)
    ensures DistinctIds(rows) && forall r :: r in more ==> r.id !in Ids(rows)
  {
    assert forall i :: 0 <= i < |rows| ==> rows[i] == (rows + more)[i];
    forall r, q | r in more && q in rows
      ensures q.id != r.id
    {
      var j :| 0 <= j < |more| && more[j] == r;
      var i :| 0 <= i < |rows| && rows[i] == q;
      assert (rows + more)[i].id != (rows + more)[|rows| + j].id;
    }
  }

  /** Between two such snapshots the whole evolution check is the replay of the added rows. */
  lemma JournalLegExact(
      current: ControllerRow, rows: seq<TransitionRow>, next: ControllerRow, more: seq<TransitionRow>)
    requires SameController(current, next) && DistinctIds(rows + more)
    requires forall r :: r in rows + more ==> r.controllerId == current.id
    ensures WellListed(JournalOnly(current, rows)) && WellListed(JournalOnly(next, rows + more))
    ensures Evolves(JournalOnly(current, rows), JournalOnly(next, rows + more)) <==> Greedy(current, more) == Some(next)
  {
    hide DistinctIds, Lists, Greedy, ById, NewRows, Ids;
    RestIsNew(rows, more);
    ByIdLists(rows);
    ByIdLists(rows + more);
    ByIdExtends(rows, more);
    RowsAreKnown(rows);
    NewRowsAreTheRest(Ids(rows), current.id, rows, more);
  }

  lemma RowsAreKnown(rows: seq<TransitionRow>)
    ensures forall r :: r in rows ==> r.id in Ids(rows)
  {
  }

  /** A leg that accepts a candidate and closes it, and a row dated before it that clashes. */
  lemma ClashingRows()
    returns (current: ControllerRow, pending: ControllerRow, middle: ControllerRow, early: ControllerRow,
                                accept: TransitionRow, close: TransitionRow, late: TransitionRow)
    ensures Clash(current, [accept, close], late, pending, middle, early)
    ensures accept.id == "a" && close.id == "b" && late.id == "d"
    ensures accept.controllerId == close.controllerId == late.controllerId == current.id
  {
    current := ControllerRow("c", "run", "fixture", WaitingForResnapshot, Some("e0"), None, None, Some("s0"), 0, 0);
    accept := TransitionRow("a", "c", "fixture", WaitingForResnapshot, NewEpochPending, Some("e0"), Some("e1"),
                            Some("s0"), None, None, 1, ResnapshotCandidateAccepted, 8);
    close := TransitionRow("b", "c", "fixture", NewEpochPending, WaitingForResnapshot, Some("e0"), Some("e1"),
                           Some("s1"), None, None, 1, NewShockClosedCandidate, 10);
    late := accept.(id := "d", candidate := Some("e2"), at := 7);
    pending := Apply(current, accept).value;
    middle := Apply(pending, close).value;
    early := Apply(current, late).value;
  }

  /** The same as replays: each leg alone reaches its row, the merged journal reaches none. */
  lemma LateDatedRow() returns (current: ControllerRow, middle: ControllerRow, last: ControllerRow,
                                first: seq<TransitionRow>, late: TransitionRow)
    ensures SameController(current, middle) && SameController(middle, last) && SameController(current, last)
    ensures DistinctIds(first) && DistinctIds(first + [late])
    ensures forall r :: r in first + [late] ==> r.controllerId == current.id
    ensures Greedy(current, first) == Some(middle) && Greedy(middle, [late]) == Some(last)
    ensures Greedy(current, first + [late]).None?
  {
    hide Before, Apply, Greedy;
    var pending, early, accept, close;
    current, pending, middle, early, accept, close, late := ClashingRows();
    first := [accept, close];
    last := Apply(middle, late).value;
    ClashRejectsMergedJournal(current, first, late, pending, middle, early);
    LastRowReplays(middle, late);
    ApplyKeepsController(current, accept);
    ApplyKeepsController(pending, close);
    ApplyKeepsController(middle, late);
    ThreeDistinctIds(accept, close, late);
  }

  lemma ApplyKeepsController(c: ControllerRow, t: TransitionRow)
    requires Apply(c, t).Some?
    ensures SameController(c, Apply(c, t).value)
  {
  }

  lemma ThreeDistinctIds(a: TransitionRow, b: TransitionRow, c: TransitionRow)
    requires a.id == "a" && b.id == "b" && c.id == "d"
    ensures DistinctIds([a, b]) && DistinctIds([a, b] + [c])
  {
    assert a.id[0] != b.id[0] && a.id[0] != c.id[0] && b.id[0] != c.id[0];
    assert [a, b] + [c] == [a, b, c];
  }

  /** The key condition of the composition cannot be dropped: three snapshots of which each is
      accepted after the one before, while the last, holding a leg dated into the one before
      it, is rejected after the first. */
  lemma LateDatedLegDoesNotCompose() returns (baseline: Retained, before: Retained, after: Retained)
    ensures WellListed(baseline) && WellListed(before) && WellListed(after)
    ensures Evolves(baseline, before) && Evolves(before, after)
    ensures !Evolves(baseline, after)
  {
    hide DistinctIds, Greedy, Evolves, WellListed, JournalOnly;
    var current, middle, last, first, late := LateDatedRow();
    var all := first + [late];
    baseline, before, after := JournalOnly(current, []), JournalOnly(middle, first), JournalOnly(last, all);
    assert [] + first == first && [] + all == all;
    JournalLegExact(current, [], middle, first);
    JournalLegExact(middle, first, last, [late]);
    JournalLegExact(current, [], last, all);
  }
}
