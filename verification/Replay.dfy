/** The controller replay of the state-evolution check
    (tools/run_gap_coherence_crash_matrix.py:821-881). */
module Replay {
  import opened Prelude
  import opened Sorting
  import opened Coherence

  /** Order of the replay's `min`: time first, then transition id. */
  predicate Before(a: TransitionRow, b: TransitionRow) {
    a.at < b.at || (a.at == b.at && LexLess(a.id, b.id))
  }

  /** Position of the first least pending row that leaves `state`. */
  function Select(state: ControllerState, pending: seq<TransitionRow>): (r: Option<nat>)
    ensures r.None? <==> forall j :: 0 <= j < |pending| ==> pending[j].fromState != state
    ensures r.Some? ==> r.value < |pending| && pending[r.value].fromState == state
    ensures r.Some? ==> forall j :: 0 <= j < |pending| && pending[j].fromState == state ==>
                                      !Before(pending[j], pending[r.value])
    ensures r.Some? ==> forall j :: 0 <= j < r.value && pending[j].fromState == state ==>
                                      Before(pending[r.value], pending[j])
  {
    if pending == [] then None
    else
      var rest := Select(state, pending[1..]);
      SelectStep(state, pending, rest);
      if pending[0].fromState != state then
        match rest
        case None => None
        case Some(i) => Some(i + 1)
      else if rest.None? || !Before(pending[rest.value + 1], pending[0]) then Some(0)
      else Some(rest.value + 1)
  }

  lemma SelectStep(state: ControllerState, pending: seq<TransitionRow>, rest: Option<nat>)
    requires pending != []
    requires rest.None? <==> forall j :: 0 <= j < |pending[1..]| ==> pending[1..][j].fromState != state
    requires rest.Some? ==> rest.value < |pending[1..]| && pending[1..][rest.value].fromState == state
    requires rest.Some? ==> forall j :: 0 <= j < |pending[1..]| && pending[1..][j].fromState == state ==>
                                          !Before(pending[1..][j], pending[1..][rest.value])
    requires rest.Some? ==> forall j :: 0 <= j < rest.value && pending[1..][j].fromState == state ==>
                                          Before(pending[1..][rest.value], pending[1..][j])
    ensures !Before(pending[0], pending[0])
    ensures rest.None? <==> forall j :: 1 <= j < |pending| ==> pending[j].fromState != state
    ensures rest.Some? ==> pending[rest.value + 1].fromState == state
    ensures rest.Some? ==> forall j :: 1 <= j < |pending| && pending[j].fromState == state ==>
                                         !Before(pending[j], pending[rest.value + 1])
    ensures rest.Some? ==> forall j :: 1 <= j < rest.value + 1 && pending[j].fromState == state ==>
                                         Before(pending[rest.value + 1], pending[j])
    ensures rest.Some? && Before(pending[rest.value + 1], pending[0]) ==>
              !Before(pending[0], pending[rest.value + 1])
    ensures rest.Some? && !Before(pending[rest.value + 1], pending[0]) ==>
              forall j :: 0 <= j < |pending| && pending[j].fromState == state ==> !Before(pending[j], pending[0])
  {
    assert forall j :: 1 <= j < |pending| ==> pending[j] == pending[1..][j - 1];
    BeforeIrreflexive(pending[0]);
    if rest.Some? && Before(pending[rest.value + 1], pending[0]) && Before(pending[0], pending[rest.value + 1]) {
      BeforeTransitive(pending[0], pending[rest.value + 1], pending[0]);
    }
    if rest.Some? && !Before(pending[rest.value + 1], pending[0]) {
      forall j | 1 <= j < |pending| && pending[j].fromState == state ensures !Before(pending[j], pending[0]) {
        BeforeTotal(pending[j], pending[rest.value + 1]);
        if Before(pending[j], pending[0]) && Before(pending[rest.value + 1], pending[j]) {
          BeforeTransitive(pending[rest.value + 1], pending[j], pending[0]);
        }
        SameKeySameOrder(pending[j], pending[rest.value + 1], pending[0]);
      }
    }
  }

  lemma BeforeIrreflexive(a: TransitionRow)
    ensures !Before(a, a)
  {
    LexIrreflexive(a.id);
  }

  lemma BeforeTransitive(a: TransitionRow, b: TransitionRow, c: TransitionRow)
    requires Before(a, b) && Before(b, c)
    ensures Before(a, c)
  {
    if a.at == b.at == c.at {
      LexTransitive(a.id, b.id, c.id);
    }
  }

  lemma BeforeTotal(a: TransitionRow, b: TransitionRow)
    ensures Before(a, b) || Before(b, a) || (a.at == b.at && a.id == b.id)
  {
    LexTotal(a.id, b.id);
  }

  lemma SameKeySameOrder(a: TransitionRow, b: TransitionRow, c: TransitionRow)
    ensures a.at == b.at && a.id == b.id ==> (Before(a, c) <==> Before(b, c))
  {
  }

  predicate ChecksPredecessor(reason: Reason) {
    reason.ShockAtomicClose? || reason.ResnapshotCandidateAccepted?
    || reason.ReleasePredicateSatisfied? || reason.NewShockClosedCandidate?
  }

  function Advance(current: ControllerRow, t: TransitionRow): ControllerRow {
    current.(state := t.toState, revision := current.revision + 1, updatedAt := t.at)
  }

  /** One iteration of the replay loop after a transition was chosen; None is a rejection. */
  function Apply(current: ControllerRow, t: TransitionRow): Option<ControllerRow> {
    if t.predecessorEpoch != current.currentEpoch && ChecksPredecessor(t.reason) then None
    else
      match t.reason
      case ShockAtomicClose => Some(Advance(current.(candidate := None, activeShock := t.shock), t))
      case ResnapshotCandidateAccepted =>
        Some(Advance(current.(candidate := t.candidate, predecessor := t.predecessorEpoch), t))
      case ReleasePredicateSatisfied =>
        if current.candidate != t.candidate then None
        else Some(Advance(current.(predecessor := current.currentEpoch,
                                   currentEpoch := current.candidate,
                                   candidate := None), t))
      case NewShockClosedCandidate =>
        if current.candidate != t.candidate then None
        else Some(Advance(current.(candidate := None, activeShock := t.shock), t))
      case CloseRecorded => Some(Advance(current, t))
      case OtherReason(_) => None
  }

  /** Greedy replay: repeatedly apply the least pending transition leaving the current state. */
  function Greedy(current: ControllerRow, pending: seq<TransitionRow>): Option<ControllerRow>
    decreases |pending|
  {
    if pending == [] then Some(current)
    else
      match Select(current.state, pending)
      case None => None
      case Some(i) =>
        match Apply(current, pending[i])
        case None => None
        case Some(next) => Greedy(next, RemoveAt(pending, i))
  }

  /** A retained snapshot as the replay reads it: unindexed lists of rows. */
  datatype Snapshot = Snapshot(controllers: seq<ControllerRow>, transitions: seq<TransitionRow>)

  function Ids(rows: seq<TransitionRow>): set<Id> {
    set r | r in rows :: r.id
  }

  /** Rows of `later` that are new and belong to the controller, in their listed order. */
  function NewRows(known: set<Id>, controller: Id, later: seq<TransitionRow>): (pending: seq<TransitionRow>)
    ensures forall r :: r in pending <==> r in later && r.id !in known && r.controllerId == controller
  {
    if later == [] then []
    else
      var rest := NewRows(known, controller, later[1..]);
      assert later == [later[0]] + later[1..];
      if later[0].id !in known && later[0].controllerId == controller then [later[0]] + rest else rest
  }

  predicate SameController(a: ControllerRow, b: ControllerRow) {
    a.id == b.id && a.runId == b.runId && a.fixtureId == b.fixtureId
  }

  /** The verdict of `replay_controller`. */
  predicate Accepts(earlier: Snapshot, later: Snapshot) {
    && |earlier.controllers| == 1 && |later.controllers| == 1
    && SameController(earlier.controllers[0], later.controllers[0])
    && Greedy(earlier.controllers[0],
              NewRows(Ids(earlier.transitions), earlier.controllers[0].id, later.transitions))
       == Some(later.controllers[0])
  }

  /** The loop body after the choice of `t`: field assignments on a copy of the row. */
  method ApplyTransition(row: ControllerRow, t: TransitionRow) returns (next: Option<ControllerRow>)
    ensures next == Apply(row, t)
  {
    var current := row;
    if t.predecessorEpoch != current.currentEpoch && ChecksPredecessor(t.reason) {
      return None;
    }
    match t.reason {
      case ShockAtomicClose =>
        current := current.(candidate := None, activeShock := t.shock);
      case ResnapshotCandidateAccepted =>
        current := current.(candidate := t.candidate, predecessor := t.predecessorEpoch);
      case ReleasePredicateSatisfied =>
        if current.candidate != t.candidate {
          return None;
        }
        current := current.(predecessor := current.currentEpoch);
        current := current.(currentEpoch := current.candidate);
        current := current.(candidate := None);
      case NewShockClosedCandidate =>
        if current.candidate != t.candidate {
          return None;
        }
        current := current.(candidate := None, activeShock := t.shock);
      case CloseRecorded =>
      case OtherReason(_) =>
        return None;
    }
    current := current.(state := t.toState);
    current := current.(revision := current.revision + 1);
    current := current.(updatedAt := t.at);
    return Some(current);
  }

  method ReplayController(earlier: Snapshot, later: Snapshot) returns (ok: bool)
    ensures ok == Accepts(earlier, later)
  {
    if |earlier.controllers| != 1 || |later.controllers| != 1 {
      return false;
    }
    var current := earlier.controllers[0];
    var wanted := later.controllers[0];
    if !SameController(current, wanted) {
      return false;
    }
    var pending := NewRows(Ids(earlier.transitions), current.id, later.transitions);
    ghost var verdict := Greedy(current, pending);
    while pending != []
      invariant Greedy(current, pending) == verdict
      decreases |pending|
    {
      var chosen := Select(current.state, pending);
      if chosen.None? {
        return false;
      }
      var next := ApplyTransition(current, pending[chosen.value]);
      if next.None? {
        return false;
      }
      current := next.value;
      pending := RemoveAt(pending, chosen.value);
    }
    return current == wanted;
  }
}
