/** Rows of the run journal that the coherence checkers read, and their tables.
    Columns that no modelled step or checker reads are dropped. */
module Coherence {
  import opened Prelude

  datatype ControllerState =
    | Open
    | ShockedClosed
    | WaitingForResnapshot
    | NewEpochPending
    | NewEpochOpen

  datatype Reason =
    | ShockAtomicClose
    | CloseRecorded
    | ResnapshotCandidateAccepted
    | ReleasePredicateSatisfied
    | NewShockClosedCandidate
    | OtherReason(name: string)

  datatype ControllerRow = ControllerRow(
    id: Id,
    runId: Id,
    fixtureId: Id,
    state: ControllerState,
    currentEpoch: Option<Id>,
    candidate: Option<Id>,
    predecessor: Option<Id>,
    activeShock: Option<Id>,
    revision: int,
    updatedAt: int)

  datatype TransitionRow = TransitionRow(
    id: Id,
    controllerId: Id,
    fixtureId: Id,
    fromState: ControllerState,
    toState: ControllerState,
    predecessorEpoch: Option<Id>,
    candidate: Option<Id>,
    shock: Option<Id>,
    freshness: Option<Id>,
    proof: Option<Id>,
    bindingsVerified: int,
    reason: Reason,
    at: int)

  datatype EpochRow = EpochRow(
    id: Id, runId: Id, fixtureId: Id, predecessor: Option<Id>, predecessorPermanentlyClosed: int)

  datatype ShockRow = ShockRow(id: Id, runId: Id, fixtureId: Id, shockType: string)

  datatype FreshnessRow = FreshnessRow(id: Id, football: string, operator: string, marketBook: string)

  datatype ProofRow = ProofRow(
    id: Id,
    predecessorEpoch: Option<Id>,
    candidate: Option<Id>,
    shock: Option<Id>,
    freshness: Option<Id>,
    status: string,
    verified: int,
    releasePredicate: string,
    football: Option<Id>,
    operator: Option<Id>,
    marketBook: Option<Id>,
    cursor: Option<Id>)

  datatype StreamKey = StreamKey(runId: Id, browserRunId: Id, producerId: Id, streamId: Id)

  datatype GenerationState = Active | QuarantinedGap | Closed

  datatype GenerationRow = GenerationRow(
    id: Id,
    stream: StreamKey,
    generation: int,
    predecessor: Option<int>,
    state: GenerationState,
    openedAt: int,
    closedAt: Option<int>,
    closeReason: Option<string>)

  datatype GapRow = GapRow(
    id: Id, stream: StreamKey, predecessorGeneration: int, successorGeneration: int, reason: string)

  datatype BindingRow = BindingRow(
    id: Id,
    gapId: Id,
    predecessorEpoch: Option<Id>,
    controllerId: Id,
    shockId: Id,
    transitionId: Id,
    role: string)

  datatype GenerationTransitionRow = GenerationTransitionRow(
    id: Id, gapId: Id, predecessorGeneration: int, successorGeneration: int)

  datatype CursorRow = CursorRow(id: Id, generation: int)

  datatype RawRow = RawRow(id: Id, stream: StreamKey, generation: int, disposition: string)

  datatype RunMetaRow = RunMetaRow(runId: Id, status: string)

  /** The journal tables, each indexed by its text primary key. */
  datatype Tables = Tables(
    runMeta: map<Id, RunMetaRow>,
    generations: map<Id, GenerationRow>,
    gaps: map<Id, GapRow>,
    bindings: map<Id, BindingRow>,
    generationTransitions: map<Id, GenerationTransitionRow>,
    controllers: map<Id, ControllerRow>,
    epochs: map<Id, EpochRow>,
    transitions: map<Id, TransitionRow>,
    shocks: map<Id, ShockRow>,
    freshness: map<Id, FreshnessRow>,
    proofs: map<Id, ProofRow>,
    mappings: set<Id>,
    closures: map<Id, Id>,
    cursors: map<Id, CursorRow>,
    rawCommits: map<Id, RawRow>)

  /** A retained table is a list in no particular order: it lists the rows of an indexed
      table when every row appears exactly once. */
  ghost predicate Lists(rows: seq<TransitionRow>, table: map<Id, TransitionRow>) {
    && (forall i, j :: 0 <= i < j < |rows| ==> rows[i].id != rows[j].id)
    && (forall r :: r in rows <==> r.id in table && table[r.id] == r)
  }
}
