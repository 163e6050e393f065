/** What acceptance by the greedy replay means, which journals it accepts, and how
    replays of consecutive journal legs compose. */
module ReplayLaws {
  import opened Prelude
  import opened Coherence
  import opened Replay

  /** The reference reading of a journal: transitions applied in the given order, each one
      leaving the state the previous one reached. */
  function Run(current: ControllerRow, order: seq<TransitionRow>): Option<ControllerRow>
    decreases |order|
  {
    if order == [] then Some(current)
    else if order[0].fromState != current.state then None
    else
      match Apply(current, order[0])
      case None => None
      case Some(next) => Run(next, order[1..])
  }

  /** The order in which an accepting replay consumes its pending rows. */
  ghost function ReplayOrder(current: ControllerRow, pending: seq<TransitionRow>): seq<TransitionRow>
    requires Greedy(current, pending).Some?
    decreases |pending|
  {
    if pending == [] then []
    else
      var i := Select(current.state, pending).value;
      [pending[i]] + ReplayOrder(Apply(current, pending[i]).value, RemoveAt(pending, i))
  }

  /** Soundness: an accepted set of transitions can be ordered into one connected run from the
      old controller row to the new one, using every transition exactly once. */
  lemma {:induction false} AcceptedReplayIsRun(
      current: ControllerRow, pending: seq<TransitionRow>, wanted: ControllerRow)
    requires Greedy(current, pending) == Some(wanted)
    ensures multiset(ReplayOrder(current, pending)) == multiset(pending)
    ensures Run(current, ReplayOrder(current, pending)) == Some(wanted)
    decreases |pending|
  {
    if pending != [] {
      var i := Select(current.state, pending).value;
      var next := Apply(current, pending[i]).value;
      var rest := RemoveAt(pending, i);
      AcceptedReplayIsRun(next, rest, wanted);
      assert ReplayOrder(current, pending)[1..] == ReplayOrder(next, rest);
    }
  }

  /** Release rows of a run, oldest first. */
  function Releases(order: seq<TransitionRow>): seq<TransitionRow> {
    if order == [] then []
    else (if order[0].reason.ReleasePredicateSatisfied? then [order[0]] else []) + Releases(order[1..])
  }

  /** The releases hand the current epoch over one by one, from `first` to `last`. */
  predicate HandsOver(first: Option<Id>, releases: seq<TransitionRow>, last: Option<Id>)
    decreases |releases|
  {
    if releases == [] then first == last
    else releases[0].predecessorEpoch == first && HandsOver(releases[0].candidate, releases[1..], last)
  }

  /** The candidate left by the transitions of `order` when they start with `held`. */
  function HeldCandidate(held: Option<Id>, order: seq<TransitionRow>): Option<Id> {
    if order == [] then held
    else
      var t := order[|order| - 1];
      match t.reason
      case ResnapshotCandidateAccepted => t.candidate
      case ShockAtomicClose => None
      case ReleasePredicateSatisfied => None
      case NewShockClosedCandidate => None
      case CloseRecorded => HeldCandidate(held, order[..|order| - 1])
      case OtherReason(_) => HeldCandidate(held, order[..|order| - 1])
  }

  lemma {:induction false} HeldCandidateAfterFirst(held: Option<Id>, order: seq<TransitionRow>)
    requires order != []
    ensures HeldCandidate(held, order) == HeldCandidate(HeldCandidate(held, order[..1]), order[1..])
    decreases |order|
  {
    if |order| > 1 {
      HeldCandidateAfterFirst(held, order[..|order| - 1]);
      assert order[..|order| - 1][..1] == order[..1];
      assert order[..|order| - 1][1..] == order[1..][..|order| - 2];
    } else {
      assert order[..1] == order;
    }
  }

  /** Every run is a chain of states from the old row to the new one and counts its
      transitions in the revision. */
  lemma {:induction false} RunIsConnected(current: ControllerRow, order: seq<TransitionRow>, wanted: ControllerRow)
    requires Run(current, order) == Some(wanted)
    ensures SameController(current, wanted)
    ensures wanted.revision == current.revision + |order|
    ensures order == [] ==> wanted == current
    ensures order != [] ==> order[0].fromState == current.state
                            && wanted.state == order[|order| - 1].toState
                            && wanted.updatedAt == order[|order| - 1].at
    ensures forall i :: 0 <= i < |order| - 1 ==> order[i].toState == order[i + 1].fromState
    decreases |order|
  {
    if order != [] {
      var rest := order[1..];
      RunIsConnected(Apply(current, order[0]).value, rest, wanted);
      forall i | 0 <= i < |order| - 1 ensures order[i].toState == order[i + 1].fromState {
        if i > 0 {
          assert rest[i - 1].toState == rest[i].fromState;
        }
      }
    }
  }

  /** The current epoch moves only along releases. */
  lemma {:induction false} RunHandsEpochsOver(current: ControllerRow, order: seq<TransitionRow>, wanted: ControllerRow)
    requires Run(current, order) == Some(wanted)
    ensures HandsOver(current.currentEpoch, Releases(order), wanted.currentEpoch)
    decreases |order|
  {
    if order != [] {
      var rest := order[1..];
      RunHandsEpochsOver(Apply(current, order[0]).value, rest, wanted);
      if order[0].reason.ReleasePredicateSatisfied? {
        assert Releases(order)[1..] == Releases(rest);
      } else {
        assert Releases(order) == Releases(rest);
      }
    }
  }

  /** Each release takes exactly the candidate held at that point of the run. */
  lemma {:induction false} RunReleasesHeldCandidate(
      current: ControllerRow, order: seq<TransitionRow>, wanted: ControllerRow)
    requires Run(current, order) == Some(wanted)
    ensures wanted.candidate == HeldCandidate(current.candidate, order)
    ensures forall i :: 0 <= i < |order| && order[i].reason.ReleasePredicateSatisfied? ==>
                          order[i].candidate == HeldCandidate(current.candidate, order[..i])
    decreases |order|
  {
    if order != [] {
      var next := Apply(current, order[0]).value;
      var rest := order[1..];
      var held := current.candidate;
      RunReleasesHeldCandidate(next, rest, wanted);
      assert order[..1] == [order[0]] && order[..1][..0] == [];
      assert next.candidate == HeldCandidate(held, order[..1]);
      HeldCandidateAfterFirst(held, order);
      forall i | 0 <= i < |order| && order[i].reason.ReleasePredicateSatisfied?
        ensures order[i].candidate == HeldCandidate(held, order[..i])
      {
        if i > 0 {
          assert rest[i - 1].candidate == HeldCandidate(next.candidate, rest[..i - 1]);
          HeldCandidateAfterFirst(held, order[..i]);
          assert order[..i][..1] == order[..1] && order[..i][1..] == rest[..i - 1];
        } else {
          assert order[..0] == [];
        }
      }
    }
  }

  ghost predicate Increasing(order: seq<TransitionRow>) {
    forall i, j :: 0 <= i < j < |order| ==> Before(order[i], order[j])
  }

  lemma LeastIsChosen(state: ControllerState, row: TransitionRow, pending: seq<TransitionRow>)
    requires row in pending && row.fromState == state
    requires forall r :: r in pending ==> r == row || Before(row, r)
    ensures Select(state, pending).Some? && pending[Select(state, pending).value] == row
  {
    var k :| 0 <= k < |pending| && pending[k] == row;
    var other := pending[Select(state, pending).value];
    assert !Before(pending[k], other);
    assert other in pending;
  }

  /** Completeness: when the keys increase along a run, greedy replay of its rows, listed in
      any order, reproduces the run. */
  lemma {:induction false} IncreasingRunIsReplayed(
      current: ControllerRow, order: seq<TransitionRow>, pending: seq<TransitionRow>, wanted: ControllerRow)
    requires Run(current, order) == Some(wanted)
    requires Increasing(order)
    requires multiset(pending) == multiset(order)
    ensures Greedy(current, pending) == Some(wanted)
    decreases |order|
  {
    hide Apply, Before;
    if order == [] {
      assert |multiset(pending)| == 0;
    } else {
      SameMultisetSameRows(pending, order);
      forall r | r in pending ensures r == order[0] || Before(order[0], r) {
        var m :| 0 <= m < |order| && order[m] == r;
      }
      LeastIsChosen(current.state, order[0], pending);
      var i := Select(current.state, pending).value;
      assert order == [order[0]] + order[1..];
      IncreasingRunIsReplayed(Apply(current, order[0]).value, order[1..], RemoveAt(pending, i), wanted);
    }
  }

  ghost predicate KeysIdentifyRows(rows: seq<TransitionRow>) {
    forall a, b :: a in rows && b in rows && a.at == b.at && a.id == b.id ==> a == b
  }

  ghost predicate DistinctIds(rows: seq<TransitionRow>) {
    forall i, j :: 0 <= i < j < |rows| ==> rows[i].id != rows[j].id
  }

  lemma {:induction false} NewRowsStayDistinct(known: set<Id>, controller: Id, rows: seq<TransitionRow>)
    requires DistinctIds(rows)
    ensures DistinctIds(NewRows(known, controller, rows))
  {
    if rows != [] {
      NewRowsStayDistinct(known, controller, rows[1..]);
      var rest := NewRows(known, controller, rows[1..]);
      forall j | 0 <= j < |rest| ensures rest[j].id != rows[0].id {
        assert rest[j] in rest;
        var k :| 0 <= k < |rows[1..]| && rows[1..][k] == rest[j];
        assert rows[k + 1] == rest[j];
      }
    }
  }

  lemma {:induction false} DistinctRowsOccurOnce(rows: seq<TransitionRow>, r: TransitionRow)
    requires DistinctIds(rows)
    ensures multiset(rows)[r] == if r in rows then 1 else 0
  {
    if rows != [] {
      assert rows == [rows[0]] + rows[1..];
      DistinctRowsOccurOnce(rows[1..], r);
      forall k | 0 <= k < |rows[1..]| ensures rows[1..][k] != rows[0] {
        assert rows[1..][k] == rows[k + 1];
      }
    }
  }

  lemma DistinctIdsIdentifyRows(rows: seq<TransitionRow>)
    requires DistinctIds(rows)
    ensures KeysIdentifyRows(rows)
  {
    forall a, b | a in rows && b in rows && a.at == b.at && a.id == b.id ensures a == b {
      var i :| 0 <= i < |rows| && rows[i] == a;
      var j :| 0 <= j < |rows| && rows[j] == b;
    }
  }

  lemma RemovedRowsRemain<T>(rows: seq<T>, i: nat)
    requires i < |rows|
    ensures forall r :: r in RemoveAt(rows, i) ==> r in rows
  {
  }

  /** A leg and a larger journal whose other rows all come later offer the same choice. */
  lemma SameChoice(state: ControllerState, leg: seq<TransitionRow>, journal: seq<TransitionRow>)
    requires forall r :: r in leg ==> r in journal
    requires forall a, b :: a in leg && b in journal && b !in leg ==> Before(a, b)
    requires KeysIdentifyRows(journal)
    requires Select(state, leg).Some?
    ensures Select(state, journal).Some?
    ensures journal[Select(state, journal).value] == leg[Select(state, leg).value]
  {
    var row := leg[Select(state, leg).value];
    assert row in journal;
    var k :| 0 <= k < |journal| && journal[k] == row;
    var other := journal[Select(state, journal).value];
    assert !Before(journal[k], other);
    assert other in journal;
    assert other in leg;
    var m :| 0 <= m < |leg| && leg[m] == other;
    assert !Before(leg[m], row);
    BeforeTotal(row, other);
  }

  lemma SameMultisetSameRows<T>(p: seq<T>, q: seq<T>)
    requires multiset(p) == multiset(q)
    ensures |p| == |q|
    ensures forall r :: r in p <==> r in q
  {
    assert |multiset(p)| == |p| && |multiset(q)| == |q|;
    forall r ensures r in p <==> r in q {
      assert r in p <==> r in multiset(p);
      assert r in q <==> r in multiset(q);
    }
  }

  /** The verdict does not depend on the order in which a snapshot lists its transitions. */
  lemma {:induction false} ReplayIgnoresListing(
      current: ControllerRow, p: seq<TransitionRow>, q: seq<TransitionRow>)
    requires multiset(p) == multiset(q)
    requires KeysIdentifyRows(p)
    ensures Greedy(current, p) == Greedy(current, q)
    decreases |p|
  {
    SameMultisetSameRows(p, q);
    if p != [] {
      var i, k := Select(current.state, p), Select(current.state, q);
      if i.Some? {
        SameChoice(current.state, p, q);
        var next := Apply(current, p[i.value]);
        if next.Some? {
          RemovedRowsRemain(p, i.value);
          ReplayIgnoresListing(next.value, RemoveAt(p, i.value), RemoveAt(q, k.value));
        }
      } else if k.Some? {
        SameChoice(current.state, q, p);
      }
    }
  }

  /** Greedy replay of two legs at once equals the two replays in sequence when every key of
      the second leg is greater than every key of the first. */
  lemma {:induction false} ReplayComposes(
      current: ControllerRow, first: seq<TransitionRow>, second: seq<TransitionRow>,
      merged: seq<TransitionRow>, middle: ControllerRow)
    requires Greedy(current, first) == Some(middle)
    requires multiset(merged) == multiset(first) + multiset(second)
    requires KeysIdentifyRows(merged)
    requires forall a, b :: a in first && b in second ==> Before(a, b)
    ensures Greedy(current, merged) == Greedy(middle, second)
    decreases |first|
  {
    assert multiset(first + second) == multiset(merged);
    SameMultisetSameRows(first + second, merged);
    if first == [] {
      assert first + second == second;
      ReplayIgnoresListing(current, merged, second);
    } else {
      var i := Select(current.state, first).value;
      SameChoice(current.state, first, merged);
      var k := Select(current.state, merged).value;
      var next := Apply(current, first[i]).value;
      RemovedRowsRemain(first, i);
      RemovedRowsRemain(merged, k);
      ReplayComposes(next, RemoveAt(first, i), second, RemoveAt(merged, k), middle);
    }
  }

  /** One greedy step whose choice is known. */
  lemma GreedyStep(current: ControllerRow, pending: seq<TransitionRow>, i: nat)
    requires i < |pending| && pending[i].fromState == current.state
    requires forall j :: 0 <= j < |pending| && j != i && pending[j].fromState == current.state ==>
                           Before(pending[i], pending[j])
    ensures Greedy(current, pending) ==
            match Apply(current, pending[i])
            case None => None
            case Some(next) => Greedy(next, RemoveAt(pending, i))
  {
    assert Select(current.state, pending) == Some(i);
  }

  lemma LastRowReplays(current: ControllerRow, row: TransitionRow)
    requires row.fromState == current.state
    ensures Greedy(current, [row]) == Apply(current, row)
  {
    GreedyStep(current, [row], 0);
    assert RemoveAt([row], 0) == [];
  }

  lemma FirstLegReplays(current: ControllerRow, leg: seq<TransitionRow>, next: ControllerRow)
    requires |leg| == 2
    requires leg[0].fromState == current.state && leg[1].fromState != current.state
    requires Apply(current, leg[0]) == Some(next) && leg[1].fromState == next.state
    ensures Greedy(current, leg) == Apply(next, leg[1])
  {
    hide Apply, Before;
    GreedyStep(current, leg, 0);
    assert RemoveAt(leg, 0) == [leg[1]];
    LastRowReplays(next, leg[1]);
  }

  lemma LateRowGoesFirst(
      current: ControllerRow, merged: seq<TransitionRow>, left: seq<TransitionRow>, next: ControllerRow)
    requires |merged| == 3 && left == merged[..2]
    requires merged[0].fromState == current.state && merged[2].fromState == current.state
    requires merged[1].fromState != current.state && Before(merged[2], merged[0])
    requires Apply(current, merged[2]) == Some(next)
    requires left[1].fromState == next.state && left[0].fromState != next.state
    requires Apply(next, left[1]).None?
    ensures Greedy(current, merged).None?
  {
    GreedyStep(next, left, 1);
    assert RemoveAt(merged, 2) == left;
    GreedyStep(current, merged, 2);
  }

  /** A leg that accepts a candidate and closes it again, and a later leg that accepts another
      candidate under an earlier date. */
  ghost predicate Clash(
      current: ControllerRow, first: seq<TransitionRow>, late: TransitionRow,
      pending: ControllerRow, middle: ControllerRow, early: ControllerRow)
  {
    && |first| == 2
    && first[0].fromState == late.fromState == current.state
    && first[1].fromState == pending.state == early.state != current.state
    && middle.state == current.state
    && Apply(current, first[0]) == Some(pending)
    && Apply(pending, first[1]) == Some(middle)
    && Apply(middle, late).Some?
    && Apply(current, late) == Some(early)
    && Apply(early, first[1]).None?
    && Before(late, first[0])
  }

  lemma ClashRejectsMergedJournal(
      current: ControllerRow, first: seq<TransitionRow>, late: TransitionRow,
      pending: ControllerRow, middle: ControllerRow, early: ControllerRow)
    requires Clash(current, first, late, pending, middle, early)
    ensures Greedy(current, first) == Some(middle)
    ensures Greedy(middle, [late]).Some?
    ensures Greedy(current, first + [late]).None?
  {
    FirstLegReplays(current, first, pending);
    LastRowReplays(middle, late);
    assert (first + [late])[..2] == first;
    LateRowGoesFirst(current, first + [late], first, early);
  }
}
