/** The replay in the columns of its rows: which journals it accepts, row by row and by
    position, and the controller row each of them leads to. */
module ReplayFacts {
  import opened Prelude
  import opened Sorting
  import opened Coherence
  import opened Replay
  import opened ReplayLaws

  // ----- what a prefix of a journal leaves in each column -----

  /** The candidate of the last release, or the epoch before all of them. */
  function EpochAfter(epoch: Option<Id>, order: seq<TransitionRow>): Option<Id> {
    if order == [] then epoch
    else if order[|order| - 1].reason.ReleasePredicateSatisfied? then order[|order| - 1].candidate
    else EpochAfter(epoch, order[..|order| - 1])
  }

  /** The predecessor named by the last acceptance or release. */
  function PredecessorAfter(predecessor: Option<Id>, order: seq<TransitionRow>): Option<Id> {
    if order == [] then predecessor
    else
      var t := order[|order| - 1];
      if t.reason.ResnapshotCandidateAccepted? || t.reason.ReleasePredicateSatisfied? then t.predecessorEpoch
      else PredecessorAfter(predecessor, order[..|order| - 1])
  }

  /** The shock of the last shock close or new shock. */
  function ShockAfter(shock: Option<Id>, order: seq<TransitionRow>): Option<Id> {
    if order == [] then shock
    else
      var t := order[|order| - 1];
      if t.reason.ShockAtomicClose? || t.reason.NewShockClosedCandidate? then t.shock
      else ShockAfter(shock, order[..|order| - 1])
  }

  function StateAfter(state: ControllerState, order: seq<TransitionRow>): ControllerState {
    if order == [] then state else order[|order| - 1].toState
  }

  /** The row at position i leaves the state reached before it, has a known reason, names the
      epoch current before it unless it only records a close, and names the candidate held
      before it when it releases or closes that candidate. */
  predicate LawfulAt(c: ControllerRow, order: seq<TransitionRow>, i: nat)
    requires i < |order|
  {
    var t, prior := order[i], order[..i];
    && t.fromState == StateAfter(c.state, prior)
    && !t.reason.OtherReason?
    && (!t.reason.CloseRecorded? ==> t.predecessorEpoch == EpochAfter(c.currentEpoch, prior))
    && (t.reason.ReleasePredicateSatisfied? || t.reason.NewShockClosedCandidate? ==>
          t.candidate == HeldCandidate(c.candidate, prior))
  }

  predicate Lawful(c: ControllerRow, order: seq<TransitionRow>) {
    forall i :: 0 <= i < |order| ==> LawfulAt(c, order, i)
  }

  function EndRow(c: ControllerRow, order: seq<TransitionRow>): ControllerRow {
    ControllerRow(
      c.id, c.runId, c.fixtureId,
      StateAfter(c.state, order),
      EpochAfter(c.currentEpoch, order),
      HeldCandidate(c.candidate, order),
      PredecessorAfter(c.predecessor, order),
      ShockAfter(c.activeShock, order),
      c.revision + |order|,
      if order == [] then c.updatedAt else order[|order| - 1].at)
  }

  // ----- one row -----

  /** A journal of one row is accepted exactly when its columns fit the controller row, and the
      new row is then determined column by column. */
  lemma OneRowExact(c: ControllerRow, t: TransitionRow, d: ControllerRow)
    ensures Greedy(c, [t]) == Some(d) <==>
            && t.fromState == c.state
            && !t.reason.OtherReason?
            && (!t.reason.CloseRecorded? ==> t.predecessorEpoch == c.currentEpoch)
            && (t.reason.ReleasePredicateSatisfied? || t.reason.NewShockClosedCandidate? ==> t.candidate == c.candidate)
            && d.id == c.id && d.runId == c.runId && d.fixtureId == c.fixtureId
            && d.state == t.toState
            && d.currentEpoch == (if t.reason.ReleasePredicateSatisfied? then c.candidate else c.currentEpoch)
            && d.candidate == (if t.reason.ResnapshotCandidateAccepted? then t.candidate
                               else if t.reason.CloseRecorded? then c.candidate else None)
            && d.predecessor == (if t.reason.ResnapshotCandidateAccepted? || t.reason.ReleasePredicateSatisfied?
                                 then c.currentEpoch else c.predecessor)
            && d.activeShock == (if t.reason.ShockAtomicClose? || t.reason.NewShockClosedCandidate?
                                 then t.shock else c.activeShock)
            && d.revision == c.revision + 1
            && d.updatedAt == t.at
  {
    if t.fromState == c.state {
      LastRowReplays(c, t);
    }
  }

  // ----- whole runs -----

  lemma {:induction false} RunConcat(c: ControllerRow, a: seq<TransitionRow>, b: seq<TransitionRow>)
    ensures Run(c, a + b) == match Run(c, a) case None => None case Some(d) => Run(d, b)
    decreases |a|
  {
    hide Apply;
    if a == [] {
      assert a + b == b;
    } else {
      assert (a + b)[0] == a[0] && (a + b)[1..] == a[1..] + b;
      if a[0].fromState == c.state && Apply(c, a[0]).Some? {
        RunConcat(Apply(c, a[0]).value, a[1..], b);
      }
    }
  }

  lemma LawfulPrefix(c: ControllerRow, init: seq<TransitionRow>, t: TransitionRow)
    ensures Lawful(c, init + [t]) <==> Lawful(c, init) && LawfulAt(c, init + [t], |init|)
  {
    var order := init + [t];
    forall i | 0 <= i < |init|
      ensures LawfulAt(c, order, i) <==> LawfulAt(c, init, i)
    {
      assert order[..i] == init[..i];
    }
  }

  lemma LastRowExact(c: ControllerRow, init: seq<TransitionRow>, t: TransitionRow)
    ensures Run(EndRow(c, init), [t]) ==
            if LawfulAt(c, init + [t], |init|) then Some(EndRow(c, init + [t])) else None
  {
    var order := init + [t];
    assert order[..|order| - 1] == init;
    assert [t][1..] == [];
  }

  /** A journal leads somewhere exactly when it is lawful at every position, and the row it
      leads to is the one its last rows of each kind leave. */
  lemma {:induction false} RunExact(c: ControllerRow, order: seq<TransitionRow>)
    ensures Run(c, order) == if Lawful(c, order) then Some(EndRow(c, order)) else None
    decreases |order|
  {
    hide Apply, LawfulAt;
    if order != [] {
      var n := |order| - 1;
      var init := order[..n];
      assert order == init + [order[n]];
      RunExact(c, init);
      RunConcat(c, init, [order[n]]);
      LawfulPrefix(c, init, order[n]);
      LastRowExact(c, init, order[n]);
    }
  }

  // ----- acceptance -----

  /** Among rows leaving the same state the earlier key comes first. */
  ghost predicate LeastFirst(order: seq<TransitionRow>) {
    forall i, j :: 0 <= i < j < |order| && order[i].fromState == order[j].fromState ==>
      order[i].at < order[j].at || (order[i].at == order[j].at && LexLess(order[i].id, order[j].id))
  }

  lemma LeastFirstTail(first: TransitionRow, tail: seq<TransitionRow>)
    requires LeastFirst(tail)
    requires forall r :: r in tail && r.fromState == first.fromState ==> Before(first, r)
    ensures LeastFirst([first] + tail)
  {
  }

  lemma {:induction false} ReplayOrderIsLeastFirst(
      c: ControllerRow, pending: seq<TransitionRow>, wanted: ControllerRow)
    requires Greedy(c, pending) == Some(wanted)
    requires DistinctIds(pending)
    ensures LeastFirst(ReplayOrder(c, pending))
    decreases |pending|
  {
    hide Apply, Before, DistinctIds, LeastFirst;
    if pending == [] {
      assert LeastFirst([]) by { NothingIsLeastFirst(); }
    } else {
      var i := Select(c.state, pending).value;
      var next := Apply(c, pending[i]).value;
      var rest := RemoveAt(pending, i);
      var tail := ReplayOrder(next, rest);
      RemovalKeepsDistinct(pending, i);
      ReplayOrderIsLeastFirst(next, rest, wanted);
      AcceptedReplayIsRun(next, rest, wanted);
      SameMultisetSameRows(tail, rest);
      forall r | r in tail && r.fromState == c.state
        ensures Before(pending[i], r)
      {
        ChosenIsStrictlyLeast(c.state, pending, i, r);
      }
      LeastFirstTail(pending[i], tail);
    }
  }

  lemma NothingIsLeastFirst()
    ensures LeastFirst([])
  {
  }

  lemma RemovalKeepsDistinct(rows: seq<TransitionRow>, i: nat)
    requires i < |rows| && DistinctIds(rows)
    ensures DistinctIds(RemoveAt(rows, i))
    ensures forall r :: r in RemoveAt(rows, i) ==> r in rows && r.id != rows[i].id
  {
  }

  lemma ChosenIsStrictlyLeast(state: ControllerState, pending: seq<TransitionRow>, i: nat, r: TransitionRow)
    requires Select(state, pending) == Some(i) && DistinctIds(pending)
    requires r in RemoveAt(pending, i) && r.fromState == state
    ensures Before(pending[i], r)
  {
    RemovalKeepsDistinct(pending, i);
    var j :| 0 <= j < |pending| && pending[j] == r;
    assert !Before(pending[j], pending[i]);
    BeforeTotal(r, pending[i]);
  }

  lemma {:induction false} LeastFirstIsReplayed(
      c: ControllerRow, order: seq<TransitionRow>, pending: seq<TransitionRow>, wanted: ControllerRow)
    requires Run(c, order) == Some(wanted)
    requires LeastFirst(order)
    requires multiset(pending) == multiset(order)
    ensures Greedy(c, pending) == Some(wanted)
    decreases |order|
  {
    hide Apply, Before, LeastFirst;
    SameMultisetSameRows(pending, order);
    if order == [] {
      assert |multiset(pending)| == 0;
    } else {
      FirstIsChosen(c.state, order, pending);
      var i := Select(c.state, pending).value;
      assert order == [order[0]] + order[1..];
      LeastFirstDropsFirst(order);
      LeastFirstIsReplayed(Apply(c, order[0]).value, order[1..], RemoveAt(pending, i), wanted);
    }
  }

  lemma LeastFirstDropsFirst(order: seq<TransitionRow>)
    requires order != [] && LeastFirst(order)
    ensures LeastFirst(order[1..])
  {
  }

  lemma FirstIsChosen(state: ControllerState, order: seq<TransitionRow>, pending: seq<TransitionRow>)
    requires order != [] && LeastFirst(order) && order[0].fromState == state
    requires forall r :: r in pending <==> r in order
    ensures Select(state, pending).Some? && pending[Select(state, pending).value] == order[0]
  {
    assert order[0] in pending;
    var k :| 0 <= k < |pending| && pending[k] == order[0];
    var chosen := Select(state, pending).value;
    assert pending[chosen] in order;
    var m :| 0 <= m < |order| && order[m] == pending[chosen];
    assert !Before(pending[k], pending[chosen]);
  }

  /** An order of the pending rows that explains the step from c to d. */
  ghost predicate Explains(c: ControllerRow, order: seq<TransitionRow>, pending: seq<TransitionRow>, d: ControllerRow) {
    multiset(order) == multiset(pending) && Lawful(c, order) && LeastFirst(order) && d == EndRow(c, order)
  }

  ghost predicate Explained(c: ControllerRow, pending: seq<TransitionRow>, d: ControllerRow) {
    exists order :: Explains(c, order, pending, d)
  }

  /** The greedy replay accepts exactly when some order of the pending rows is lawful at every
      position, least first, and leads to the wanted row. */
  lemma GreedyExact(c: ControllerRow, pending: seq<TransitionRow>, d: ControllerRow)
    requires DistinctIds(pending)
    ensures Greedy(c, pending) == Some(d) <==> Explained(c, pending, d)
  {
    hide Lawful, EndRow, LeastFirst, Greedy;
    if Greedy(c, pending) == Some(d) {
      var order := ReplayOrder(c, pending);
      AcceptedReplayIsRun(c, pending, d);
      RunExact(c, order);
      ReplayOrderIsLeastFirst(c, pending, d);
      assert Explains(c, order, pending, d);
    }
    if Explained(c, pending, d) {
      var order :| Explains(c, order, pending, d);
      RunExact(c, order);
      LeastFirstIsReplayed(c, order, pending, d);
    }
  }

  /** The rows of `later` that are new to `earlier` and belong to controller c, once each. */
  ghost predicate ListsNew(rows: seq<TransitionRow>, c: ControllerRow, earlier: Snapshot, later: Snapshot) {
    && DistinctIds(rows)
    && forall r :: r in rows <==> r in later.transitions && r.controllerId == c.id
                                   && forall q :: q in earlier.transitions ==> q.id != r.id
  }

  lemma PendingListsNew(c: ControllerRow, earlier: Snapshot, later: Snapshot)
    requires DistinctIds(later.transitions)
    ensures ListsNew(NewRows(Ids(earlier.transitions), c.id, later.transitions), c, earlier, later)
  {
    NewRowsStayDistinct(Ids(earlier.transitions), c.id, later.transitions);
    forall r: TransitionRow
      ensures r.id in Ids(earlier.transitions) <==> exists q :: q in earlier.transitions && q.id == r.id
    {
    }
  }

  lemma SameRowsSameMultiset(a: seq<TransitionRow>, b: seq<TransitionRow>)
    requires DistinctIds(a) && DistinctIds(b)
    requires forall r :: r in a <==> r in b
    ensures multiset(a) == multiset(b)
  {
    forall r
      ensures multiset(a)[r] == multiset(b)[r]
    {
      DistinctRowsOccurOnce(a, r);
      DistinctRowsOccurOnce(b, r);
    }
  }

  lemma OccursTwice(rows: seq<TransitionRow>, i: nat, j: nat)
    requires i < j < |rows| && rows[i] == rows[j]
    ensures multiset(rows)[rows[i]] >= 2
  {
    assert rows == rows[..i] + [rows[i]] + rows[i + 1..j] + [rows[j]] + rows[j + 1..];
  }

  lemma DistinctOrder(a: seq<TransitionRow>, b: seq<TransitionRow>)
    requires DistinctIds(a) && multiset(a) == multiset(b)
    ensures DistinctIds(b)
  {
    SameMultisetSameRows(a, b);
    forall i, j | 0 <= i < j < |b|
      ensures b[i].id != b[j].id
    {
      assert b[i] in a && b[j] in a;
      if b[i] == b[j] {
        DistinctRowsOccurOnce(a, b[i]);
        OccursTwice(b, i, j);
      }
    }
  }

  /** The step from the one controller row of `earlier` to the one of `later` along `order`. */
  ghost predicate Step(earlier: Snapshot, order: seq<TransitionRow>, later: Snapshot) {
    && |earlier.controllers| == 1 && |later.controllers| == 1
    && ListsNew(order, earlier.controllers[0], earlier, later)
    && Lawful(earlier.controllers[0], order)
    && LeastFirst(order)
    && later.controllers[0] == EndRow(earlier.controllers[0], order)
  }

  /** The verdict on two retained snapshots: each holds one controller row, and the new rows of
      that controller can be put into a lawful, least-first order that ends in the later row. */
  lemma AcceptanceExact(earlier: Snapshot, later: Snapshot)
    requires DistinctIds(later.transitions)
    ensures Accepts(earlier, later) <==> exists order :: Step(earlier, order, later)
  {
    hide Lawful, LeastFirst, Greedy;
    if |earlier.controllers| == 1 && |later.controllers| == 1 {
      var c, d := earlier.controllers[0], later.controllers[0];
      var pending := NewRows(Ids(earlier.transitions), c.id, later.transitions);
      PendingListsNew(c, earlier, later);
      GreedyExact(c, pending, d);
      if Accepts(earlier, later) {
        var order :| Explains(c, order, pending, d);
        DistinctOrder(pending, order);
        SameMultisetSameRows(order, pending);
        assert Step(earlier, order, later);
      }
      if order :| Step(earlier, order, later) {
        SameRowsSameMultiset(order, pending);
        assert Explains(c, order, pending, d);
      }
    }
  }
}
