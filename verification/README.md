# Durability tooling: a verified model

The repository records a browser observation run in a SQLite journal, kills processes at chosen
points, and checks from outside that what was retained is consistent. This project models the
parts of `tools/` that write, replay, recover and judge that retained state, and proves what
they promise over every input, every run and every crash.

`dafny verify dfyconfig.toml` checks the whole project.

| area | modules |
|---|---|
| coherence controller, gap transaction, snapshot relations, replay checker, recovery | `Coherence`, `ControllerSteps`, `Relations`, `RelationLaws`, `GapLaws`, `GapChains`, `ControllerRuns`, `RunLaws`, `Replay`, `ReplayLaws`, `Evolution`, `Recovery`, `RecoveryLaws`, `ClockRecovery`, `ReplayFacts`, `EvolutionFacts`, `RelationFacts`, `GapFacts`, `StepFacts`, `RecoveryFacts` |
| whole-run destruction | `Destruction`, `DestructionLaws`, `DestructionFacts` |
| retained-evidence closure | `Encoding`, `Locators`, `Evidence`, `Declarations`, `Closure`, `ClosureLaws`, `ClosureAgreement`, `ClosurePipeline`, `LocatorFacts`, `EvidenceFacts`, `ClosureFacts` |
| pipe transcript | `Transcript`, `TranscriptLaws`, `TranscriptFacts` |
| IndexedDB spool | `Spool`, `SpoolFacts` |
| review authority ledger and command broker | `Review`, `ReviewLaws`, `ReviewFacts` |
| governed content root | `GovernedRoot`, `RootFacts` |
| clock interval | `ClockInterval` |
| concrete instances of the exceptions below | `Instances` |
| shared | `Prelude`, `Sorting` |

## How the model is built

**Coherence.** A journal is a value `Tables` with one map per table, keyed by the text primary
key. Each controller step of `tools/gap_coherence_crash_child.py` is a function on tables
(`ShockClose`, `Waiting`, `Pending`, `Release`, `NewShock`, `SeedContinuity`, `CloseMapping`),
and the gap transaction is the list of eight statements of
`tools/loopback_ack_crash_child.py:36-43`. The class `Connection` performs the same steps
statement by statement on an open transaction and is proved equal to those functions; a crash
drops the uncommitted tables. Ids and times that the child hard-codes are parameters: fresh ids
and growing times are the guard `Enabled` of a step in a run. `Consistent` is the invariant of
every commit point and includes acceptance by the relation check (`Relates`). The external
replay (`Greedy`, `Accepts`) is defined from the checker's own loop and compared with `Run`, the
plain reading of a journal in order.

**Destruction.** A process is a list of atomic actions over the database, its sidecar files,
the browser store, the saved consumption, the intent and the proof. `Execute` stops it after any
number of actions, `Complete` lets it finish, and `History` chains any number of runs and
recoveries, each crashed anywhere. The class `DestructionCase` performs them in place.

**Retained evidence.** Reports are JSON trees, files are maps from paths to bytes, and SHA-256 is
a function parameter. Where a proof needs the hash to be free of collisions it says so only for
the values actually hashed. UTF-8 is defined concretely.

**The rest.** The transcript verifier, the spool comparator, the ledger, the broker and the
content root are each a specification function or predicate, an imperative method proved equal to it,
and lemmas about the specification.

**Recovery.** A recovery process is specified from the tables it finds (`RecoverEpoch`,
`ClockAttempt`) and proved to be a run of ordinary controller steps whenever its ids are new, its
dates grow and, where it accepts a candidate, a generation-1 cursor exists (`IdsReady`). From that
the verdict of the crash harness follows for each case.

**Independent statements.** The modules whose names end in `Facts` say in columns, counts and characters,
in both directions and without the specification functions' own vocabulary, what each checker accepts and
what each step writes, so that a function and the method proved equal to it cannot drift together.

Places where the code is narrower or looser than a reader may expect, each with its exact condition
and, in `Instances`, a concrete input:

- The continuity seed leaves a snapshot that the relation check rejects unless the active shock is
  one of the four gap shocks (`GapLaws.SeedExact`); the default shock of `_shock_close` is not
  (`Instances.SeedAfterDefaultShock`). No caller shown here does this: the harness seeds after an
  EQUIVALENT_UNKNOWN_SHOCK (`tools/gap_coherence_crash_child.py:557-563`) or a recorded gap, and only
  CLOCK recovery, which does not seed, writes the default shock (line 485).
- A second leg whose transitions are dated before the end of the first leg is accepted on its own
  and rejected after the first snapshot (`Evolution.LateDatedLegDoesNotCompose`).
- An EPOCH recovery from a crash before the commit of a new shock leaves the candidate pending
  (`Recovery.RecoveryReachesDemand`, `Instances.LostNewShockIsNotRecovered`).
- The steps do not test the controller state they assume; from other states the replay rejects
  what they write (`RunLaws.ShockReplayExact` and its companions).
- The spool comparator accepts a truncated store unless the count comes from outside
  (`Spool.TruncationIsAccepted`, `Instances.TruncatedStorePasses`).
- Two registered commands with the same arguments and directory but different ids stop an honest
  client (`ReviewLaws.FullRunIsAccepted`, `Instances.AmbiguousRegistryStops`).
- A destruction process that stops between writing its intent and marking the run leaves the intent beside
  a CLOSED run, which the evidence check would reject (`DestructionFacts.WindowLeavesClosedRun`); no
  checkpoint stops there, and everywhere else the check's demand holds
  (`DestructionFacts.StatusFollowsIntentOutsideWindow`).
- The clock interval is padded by both resolutions on both sides, more than the readings call for
  (`ClockInterval.PossibleOffsets`).

## Model

Results come first. The last rows, marked Link, tie single steps of the code to the functions that specify
them; they are there so that the results speak about the code, not for their own sake.

| member | source | states |
|---|---|---|
| Replay.ReplayController | tools/run_gap_coherence_crash_matrix.py:821-881 | the while loop that shrinks the pending rows and reassigns the current row returns exactly the verdict of greedy replay from the earlier controller row to the later one, and ends |
| ReplayLaws.AcceptedReplayIsRun | tools/run_gap_coherence_crash_matrix.py:840-881 | soundness: an accepting replay has consumed every new transition exactly once, in an order in which each leaves the state the previous one reached, from the old controller row to the new |
| ReplayLaws.RunIsConnected | tools/run_gap_coherence_crash_matrix.py:840-880 | along such an order every from-state is the previous to-state and the revision grows by exactly the number of transitions |
| ReplayLaws.RunHandsEpochsOver | tools/run_gap_coherence_crash_matrix.py:858-876 | the current epoch changes only along the releases of the order, each naming the epoch it replaces and handing over its candidate |
| ReplayLaws.RunReleasesHeldCandidate | tools/run_gap_coherence_crash_matrix.py:858-876 | every release takes the candidate that the transitions before it left held |
| ReplayLaws.IncreasingRunIsReplayed | tools/run_gap_coherence_crash_matrix.py:840-849 | completeness: when (time, id) keys increase along a run, greedy replay of its rows in any listed order reaches the run's end |
| ReplayLaws.ReplayIgnoresListing | tools/run_gap_coherence_crash_matrix.py:840-849 | two listings of the same rows get the same verdict |
| ReplayLaws.ReplayComposes | tools/run_gap_coherence_crash_matrix.py:840-881 | greedy replay of the union of two legs equals the two replays in sequence when every key of the second leg is greater than every key of the first |
| ReplayFacts.OneRowExact | tools/run_gap_coherence_crash_matrix.py:850-880 | for any controller row and one transition: exactly when the replay accepts it, and every column of the row it then gives; unknown reasons and wrong predecessors or candidates are rejected |
| ReplayFacts.RunExact | tools/run_gap_coherence_crash_matrix.py:845-880 | a journal read in order leads somewhere if and only if every row leaves the state before it, has a known reason, names the epoch current at its position (the candidate of the last release) unless it records a close, and releases or closes the candidate held there; the row reached is given column by column |
| ReplayFacts.GreedyExact | tools/run_gap_coherence_crash_matrix.py:840-881 | greedy replay accepts if and only if some order of the pending rows is lawful in that sense and earlier keys come first among rows leaving the same state |
| ReplayFacts.AcceptanceExact | tools/run_gap_coherence_crash_matrix.py:821-881 | the verdict on two snapshots, in both directions: one controller row each, and such an order of exactly the new rows of that controller that ends in the later row |
| Evolution.EvolutionComposes | tools/run_gap_coherence_crash_matrix.py:778-892 | baseline to before and before to after accepted, ids unique, later leg keyed after the earlier: baseline to after is accepted, replay, retained rows and generations included |
| EvolutionFacts.EvolutionExact | tools/run_gap_coherence_crash_matrix.py:778-892 | the whole check, in both directions: same run and run record, nothing lost or rewritten in the twelve append-only tables or the spool, every generation the same row or further along with its other columns kept and its close columns filled, and an acceptable replay |
| EvolutionFacts.OneGenerationRewritten | tools/run_gap_coherence_crash_matrix.py:794-819 | rewriting one recorded generation is accepted if and only if the new row is the old one, or strictly later in ACTIVE, QUARANTINED_GAP, CLOSED with identity kept and reason and time present |
| Evolution.GenerationMovesCompose | tools/run_gap_coherence_crash_matrix.py:794-819 | two admissible moves of one generation make an admissible move: generations only go forward |
| Evolution.LateDatedLegDoesNotCompose | tools/run_gap_coherence_crash_matrix.py:778-892 | three retained snapshots: the first two legs are accepted and the whole is rejected, because the second leg is dated into the first; the key condition of composition is needed |
| Evolution.JournalLegExact | tools/run_gap_coherence_crash_matrix.py:821-892 | between snapshots that hold a controller row and a journal only, the whole evolution check is exactly the replay of the added rows |
| ControllerSteps.Connection.GapUnderCrash | tools/loopback_ack_crash_child.py:36-43 | for a crash after any number of statements: all eight writes are visible or none is |
| GapFacts.PredecessorIsQuarantined | tools/loopback_ack_crash_child.py:36-43 | after n statements the predecessor row is untouched for n below 6 and from then on QUARANTINED_GAP with the date and reason of the gap |
| GapFacts.SuccessorIsOpened | tools/loopback_ack_crash_child.py:36-43 | the only generation added, by the eighth statement, is ACTIVE, numbered one higher, with its predecessor number and opening date and without close columns; no third generation changes |
| GapFacts.CoherenceRowsWritten | tools/loopback_ack_crash_child.py:36-43 | after n statements exactly which of shock, transition and controller row are written, in every column |
| GapFacts.StreamRowsWritten | tools/loopback_ack_crash_child.py:36-43 | the same for the gap and the generation transition |
| GapFacts.BindingWritten | tools/loopback_ack_crash_child.py:36-43 | the same for the epoch binding |
| GapLaws.GapTransactionRelates | tools/run_gap_coherence_crash_matrix.py:535-606 | the committed gap transaction keeps the relation check |
| GapLaws.InterruptedGapIsRejected | tools/run_gap_coherence_crash_matrix.py:535-606 | the tables after any one to seven of its statements would be rejected: the checker sees every partial gap |
| GapLaws.SeedExact | tools/gap_coherence_crash_child.py:290-353 | seeding epoch continuity keeps the relation check if and only if the active shock is one of the gap shocks |
| GapFacts.SeedColumns | tools/gap_coherence_crash_child.py:290-353 | the seed leaves generation 0 of the new stream QUARANTINED_GAP and generation 1 ACTIVE, and a gap bound to the current epoch, the active shock and the closing transition, in every column |
| RelationLaws.CloseMappingExact | tools/run_gap_coherence_crash_matrix.py:659-694 | closing a mapping keeps an accepted snapshot accepted if and only if no accepted or released candidate was proved with that mapping |
| RelationLaws.GrowthKeepsRelations | tools/run_gap_coherence_crash_matrix.py:516-694 | rows added without touching gaps or known generations keep the check as soon as every added transition satisfies its own |
| RelationFacts.RelatesExact | tools/run_gap_coherence_crash_matrix.py:516-694 | the whole relation check, in both directions, over joined rows: late repairs only in generations that ended, one binding and one generation transition per gap, every gap backed and every transition supported |
| RelationFacts.GapExact | tools/run_gap_coherence_crash_matrix.py:567-630 | a gap is accepted if and only if its binding, transition, controller and shock rows agree in every named column, its predecessor ended for its reason, and its successor is active, reclosed or closed with the run |
| RelationFacts.EvidenceExact | tools/run_gap_coherence_crash_matrix.py:659-694 | an acceptance or release is supported if and only if its proof row is the observed, satisfied proof of its own epoch, candidate, shock and vector, the vector is fresh throughout, the three mappings are recorded and not closed, and the cursor is recorded |
| RelationFacts.ReferencesExact | tools/run_gap_coherence_crash_matrix.py:632-658 | a transition is well referenced if and only if its epoch, shock and candidate rows are of its run and fixture and the candidate succeeds the epoch |
| RelationFacts.BadEvidenceIsRejected | tools/run_gap_coherence_crash_matrix.py:663-694 | a stale vector, or a proof unobserved, unverified, unsatisfied or made for another epoch, candidate, shock or vector, is rejected |
| RelationFacts.BadMappingIsRejected | tools/run_gap_coherence_crash_matrix.py:676-684 | so is a missing, unknown or closed mapping and an unknown cursor |
| RelationFacts.BadBindingIsRejected | tools/run_gap_coherence_crash_matrix.py:593-630 | so is a gap bound to a transition of another epoch, shock, controller, reason or state |
| RelationFacts.LateRepairInActiveGenerationIsRejected | tools/run_gap_coherence_crash_matrix.py:550-559 | so is a late repair in an active generation |
| RelationFacts.OpenPredecessorIsRejected | tools/run_gap_coherence_crash_matrix.py:596-601 | so is a gap whose predecessor is active or was closed for another reason |
| ControllerRuns.StepKeepsConsistency | tools/gap_coherence_crash_child.py:77-434 | every enabled step, the gap transaction and unbound closures included, keeps the invariant of commit points and with it the relation check |
| RunLaws.FreshRunIsConsistent | tools/run_clock_vector_qualification.py:823-826 | a run with one open controller row and no history satisfies the invariant, whatever its ids |
| RunLaws.RunKeepsRelations | tools/run_gap_coherence_crash_matrix.py:516-694 | the relation check accepts at every commit point of every run |
| RunLaws.StepAgrees | tools/run_gap_coherence_crash_matrix.py:850-879 | the row a step appends, replayed on the old controller row, gives the controller row the step wrote, field for field, although the step does not write every field the replay does |
| RunLaws.JournalRuns | tools/gap_coherence_crash_child.py:125-434 | the rows a run appends lead, in order, from its first controller row to its last, with increasing dates, and are exactly the rows added |
| RunLaws.HonestRunReplays | tools/run_gap_coherence_crash_matrix.py:821-881 | for every run and every pair of its commit points, in any listing of the rows, the replay accepts and reproduces the later controller row |
| RunLaws.HonestRunEvolves | tools/run_gap_coherence_crash_matrix.py:778-892 | the whole evolution check accepts the two ends of every run |
| RunLaws.CommitPointsEvolve | tools/run_gap_coherence_crash_matrix.py:778-892 | the same between any two commit points inside a run |
| RunLaws.ClosedEpochNeverReturns | tools/gap_coherence_crash_child.py:356-434 | over every run an epoch closed by a shock, or as a candidate, and not current never becomes current again |
| RunLaws.ClosedEpochIsNeverOpen | tools/gap_coherence_crash_child.py:125-162 | while a closed epoch is still current the controller is not open on it, over every run |
| RunLaws.ReleaseMovesToSuccessor | tools/gap_coherence_crash_child.py:356-383 | a release moves to an epoch whose recorded predecessor is the epoch it replaces |
| StepFacts.JournalGrammar | tools/gap_coherence_crash_child.py:125-434 | over every run from its start each transition has one of five shapes, each release repeats the candidate and evidence of an earlier acceptance, and each epoch that names a predecessor names one that a recorded transition closed for good |
| GapChains.GapChainEnds | tools/run_gap_coherence_crash_matrix.py:567-606 | in an accepted snapshot, following successors from any gap passes only recorded generations that a further gap of the stream closed for its reason, and ends at one that is active or was closed with its run |
| Recovery.RecoverEpochCase | tools/gap_coherence_crash_child.py:486-506 | the recovery process, branch by branch on its local controller state and killed after any of its stages, commits exactly the specified recovered tables, or leaves the committed ones alone when it is killed or fails |
| Recovery.RecoveryReachesDemand | tools/run_gap_coherence_crash_matrix.py:457-471 | the state a completed EPOCH recovery reaches is the demanded one if and only if the crash state is among the listed ones, for every step |
| Recovery.RecoveryIsIdempotent | tools/gap_coherence_crash_child.py:450-506 | a second recovery, under any ids, changes nothing |
| RecoveryLaws.RecoveryIsRun | tools/gap_coherence_crash_child.py:486-506 | totality: from every consistent state, with new distinct ids, growing dates and a cursor where a candidate is accepted, recovery completes, every step it takes is enabled, and it is a run of ordinary controller steps |
| RecoveryLaws.CrashedCaseRecovers | tools/run_gap_coherence_crash_matrix.py:409-499 | recovery from a crash on either side of the commit of a shock, pending or release step, or after that of a new shock, meets the whole recovery demand, and its result keeps the invariant; nothing is assumed of the recovery but its ids |
| RecoveryLaws.RecoveryEvolves | tools/run_gap_coherence_crash_matrix.py:778-892 | the snapshots retained before and after any such recovery, rows in any order, pass the whole evolution check |
| RecoveryLaws.CrashedCaseIsAccepted | tools/run_gap_coherence_crash_matrix.py:409-499 | the full verdict on an EPOCH case: recovery demand, relation check of both snapshots and evolution check |
| RecoveryLaws.EpochRecoveryConverges | tools/gap_coherence_crash_child.py:486-506 | however many recoveries die, fail or follow, the case ends where its first completed recovery ended, and without one where it crashed |
| RecoveryFacts.EpochDemandExact | tools/run_gap_coherence_crash_matrix.py:409-499 | the demand on an EPOCH case in counts and columns: none of twelve tables shrank, the controller is in the state of the case and, after a new shock, exactly one candidate was closed, by this controller and shock, with exactly one successor |
| RecoveryFacts.RecoveryFailsExactly | tools/gap_coherence_crash_child.py:486-506 | recovery fails if and only if it has a candidate to accept and no generation-1 cursor, and then changes nothing |
| RecoveryFacts.RecoveryWrites | tools/gap_coherence_crash_child.py:486-506 | which journal rows, shocks and epochs a completed recovery adds from each state it finds, and by how much the revision grows |
| ClockRecovery.RecoverClockCase | tools/gap_coherence_crash_child.py:474-485 | the two-transaction CLOCK recovery, cut off after any number of commits, leaves exactly the specified tables |
| ClockRecovery.ClockRecoveryConverges | tools/gap_coherence_crash_child.py:474-485 | CLOCK recovery interrupted any number of times ends where one uninterrupted recovery ends |
| ClockRecovery.ClockRecoveryMeetsDemand | tools/run_gap_coherence_crash_matrix.py:409-456 | that end meets the demand, row counts included, if and only if no shock was recorded before or the controller was closed already; from a start without closures and shocks there is exactly one of each |
| RecoveryFacts.ClockDemandExact | tools/run_gap_coherence_crash_matrix.py:409-456 | the demand on a CLOCK case in counts and columns |
| ClockRecovery.ClockRecoveryIsRun | tools/gap_coherence_crash_child.py:474-485 | from a consistent case with an unbound mapping and a later dated shock, CLOCK recovery is a run of enabled controller steps |
| ClockRecovery.ClockCaseIsAccepted | tools/run_gap_coherence_crash_matrix.py:409-456 | the full verdict on a CLOCK case, however often interrupted: invariant, relation check and evolution check always, the demand exactly under the condition above |
| Destruction.DestructionCase.DeleteBackend | tools/destruction_support.py:397-411 | after validation, the database file and then each existing sidecar are gone, nothing else changes |
| Destruction.DestructionCase.Run | tools/destruction_crash_child.py:38-82 | the uncrashed process, run or recovery, in either deletion order, performs exactly the specified action list |
| DestructionLaws.HistoryIsSafe | tools/destruction_crash_child.py:50-82 | over every history of runs and recoveries, each crashed anywhere: a missing store implies the planned intent and a readable authority, a proof implies both stores gone, and the consumption is recorded at most once |
| DestructionLaws.RecoveryNeverConsumes | tools/destruction_crash_child.py:52-61 | no recovery adds a consumption |
| DestructionLaws.ProofIsFinal | tools/destruction_support.py:414-453 | once a proof exists, it and the absence of both stores last through every further history |
| DestructionLaws.RecoveryCompletes | tools/destruction_crash_child.py:50-82 | a completed recovery reaches the destroyed state if and only if the authority was committed, otherwise it fails or returns with nothing changed |
| DestructionLaws.UncommittedRecoveryIsIdle | tools/destruction_crash_child.py:50-62 | before the consumption is committed no recovery, crashed anywhere, changes anything |
| DestructionLaws.RecoveryConverges | tools/destruction_crash_child.py:62-82 | from every later crash state, any crashed processes followed by one completed recovery, in either order, end in the same state up to the random proof id |
| DestructionLaws.UninterruptedRunDestroys | tools/destruction_crash_child.py:50-82 | a run on the captured inventory destroys it in one go |
| DestructionFacts.TailExact | tools/destruction_support.py:359-453 | the common tail of every process from any world at all: in which worlds it completes, and the exact world it leaves then or at the stage that fails |
| DestructionFacts.FirstRunExact | tools/destruction_crash_child.py:50-82 | a first process completes if and only if the plan is valid, the stores are the captured ones, nothing was consumed before and no external file says otherwise |
| DestructionFacts.StatusOverHistory | tools/verify_destruction_evidence.py:89-92 | over every history of a closed case: closed while no intent is written, DESTRUCTION_PENDING once the browser store is gone with the database still there |
| DestructionFacts.StatusFollowsIntentOutsideWindow | tools/verify_destruction_evidence.py:89-92 | the demanded status, pending exactly when the intent exists, holds after every history whose processes never stop between writing the intent and marking the run |
| DestructionFacts.WindowLeavesClosedRun | tools/destruction_support.py:376-383 | and fails for every case whose first process stops there: the intent stands beside a closed run |
| DestructionFacts.OnlyClosedRunsAreMarked | tools/destruction_support.py:376-383 | no process ever changes another status or takes the mark back |
| DestructionFacts.StoresGoInOrder | tools/destruction_crash_child.py:69-80 | over every history of processes that delete in one order, the second store never goes before the first |
| Encoding.EncodePreservesOrder | tools/run_full_repair_qualification.py:256-260 | byte order of UTF-8 encodings is code-point order of the texts, so sorting encoded locators sorts the locators |
| Encoding.EncodeInjective | tools/compute_governed_content_root.py:62-69 | different paths have different encodings |
| Locators.CanonicalFixedPoints | tools/retained_artifact_io.py:20-38 | canonicalising twice changes nothing, and the fixed points are exactly the absolute paths of real names |
| Locators.WithinIsPrefix | tools/retained_artifact_io.py:142-145 | containment by path components is equality or extension past a slash |
| LocatorFacts.CanonicalPaths | tools/retained_artifact_io.py:34-38 | the canonical paths are exactly a slash and real names joined by slashes |
| LocatorFacts.SpellingsExact | tools/retained_artifact_io.py:20-38 | a value is read as a canonical path if and only if it is that path, its UNC spelling under the Ubuntu distribution or its drive spelling, character by character |
| Evidence.ReferenceWalk.Walk | tools/run_full_repair_qualification.py:61-111 | the recursive walk that extends one list fails or appends exactly as the specified walk does, and ends on every report |
| Evidence.VisitExact | tools/run_full_repair_qualification.py:61-111 | the walk fails if and only if some node at any depth is malformed, and otherwise collects exactly the references held by the nodes of the report |
| EvidenceFacts.NodeExact | tools/run_full_repair_qualification.py:64-110 | what one node holds and when it is malformed, in its own fields: path with hash or else binary hash, paired keys, and for owners the hashes of exactly the seven loaded modules, bound before and after |
| Declarations.Longest | tools/run_full_repair_qualification.py:160-164 | the chosen boundary contains the locator and none that contains it is longer; none is chosen exactly when none contains it |
| Declarations.LongestIgnoresOrder | tools/run_full_repair_qualification.py:160-164 | the choice depends on the set of boundaries only |
| Declarations.SelectDeclarations | tools/run_full_repair_qualification.py:155-182 | the loop that fills the dictionary returns exactly the specified declarations or rejects |
| Declarations.DeclareExact | tools/run_full_repair_qualification.py:143-182 | rejection if and only if some reference has a malformed digest, an unsupported locator, a locator under no root or a live file that is missing or different, or one retained locator carries two digests; otherwise exactly the retained references, sorted |
| EvidenceFacts.DeclaredExact | tools/run_full_repair_qualification.py:155-182 | a row is declared if and only if some reference has its canonical locator and hexadecimal digest and its boundary is the longest retained one it lies in |
| EvidenceFacts.RejectionExact | tools/run_full_repair_qualification.py:155-182 | a report is rejected if and only if a reference has a bad digest or locator, lies under no retained root without being the live file of its digest, or disagrees with another on a retained file |
| Declarations.DeclareIgnoresOrder | tools/run_full_repair_qualification.py:143-182 | the result or the rejection is the same under any permutation or duplication of references and boundaries |
| Closure.CollectRetainedSources | tools/run_full_repair_qualification.py:114-140 | succeeds if and only if every declared file exists with its digest, and then returns one source per declaration in order |
| Closure.WriteClosedInventory | tools/run_full_repair_qualification.py:219-263 | the loop over sources writes exactly the specified files and manifest or rejects |
| Closure.LoadManifest | tools/retained_artifact_io.py:97-194 | the loop over manifest rows builds exactly the specified entries or rejects |
| ClosureLaws.WriteExact | tools/run_full_repair_qualification.py:226-242 | writing is rejected if and only if a source is unreadable or unsupported, or one locator is given two boundaries, contents or files |
| ClosureFacts.WriterRejectsExactly | tools/run_full_repair_qualification.py:219-243 | the writer rejects if and only if a source is unreadable or unsupported, or one locator comes from two files or under two boundaries |
| ClosureFacts.WriterListsExactly | tools/run_full_repair_qualification.py:244-262 | the manifest lists exactly the sources' rows in every column, once each and in byte order, with exactly their boundaries, and the directory holds exactly the named files |
| ClosureFacts.WriterStoresBytes | tools/run_full_repair_qualification.py:244-254 | without a shared hash each file holds the bytes of its source |
| ClosureLaws.FromManifestExact | tools/retained_artifact_io.py:117-186 | a manifest is accepted if and only if its boundaries are canonical and distinct, every row fits, locators and files are distinct and the directory holds exactly the listed files |
| ClosureFacts.ReaderAcceptsExactly | tools/retained_artifact_io.py:97-194 | the reader accepts if and only if boundaries and locators are canonical and distinct, each row lies strictly below a listed boundary under a name inside the directory with a hexadecimal digest, and the directory holds exactly those files with the recorded lengths and hashes |
| ClosureFacts.AcceptedStoresAgree | tools/retained_artifact_io.py:97-194 | two directories accepted under one manifest have the same files, lengths and hashes: a forgery needs a collision |
| ClosureFacts.ReadsExactly | tools/retained_artifact_io.py:196-231 | a read returns bytes if and only if a row has the locator and boundary asked for and its file still has the recorded length and hash, and then returns those bytes |
| ClosureLaws.InventoryIsOrdered | tools/run_full_repair_qualification.py:256-260 | a manifest lists its files in the byte order of their encoded locators |
| ClosureLaws.WrittenInventoryIsAccepted | tools/retained_artifact_io.py:97-194 | what the writer leaves is accepted by the reader if and only if there is a source, every locator is strictly below its boundary and no two locators share a hash |
| ClosureLaws.ReadBack | tools/retained_artifact_io.py:196-231 | reading any source through the loaded manifest returns its bytes |
| ClosureLaws.TamperedReadFails | tools/retained_artifact_io.py:214-231 | whatever the directory becomes afterwards, a read fails or returns bytes of the recorded length and hash |
| ClosureAgreement.VerifierDeclares | tools/run_full_repair_qualification.py:185-204 | the verifier always gets its declarations: the wider boundaries of the manifest cause no conflict |
| ClosureFacts.ClosureFitsExactly | tools/run_full_repair_qualification.py:185-217 | a closure fits a report if and only if its rows are, locator by locator and once each, the declarations under the recorded boundaries and the aggregate with its true hash |
| ClosurePipeline.ProducedIsWritten | tools/run_full_repair_qualification.py:49-58 | the writer accepts the aggregate and the collected sources if and only if the aggregate is readable under canonical names and no declaration gives its locator another identity |
| ClosurePipeline.ProducerAndVerifierAgree | tools/run_full_repair_qualification.py:40-217 | publishing then succeeds, and the published closure passes the verifier's own derivation from the report if and only if no live reference lies inside a recorded boundary, the aggregate with its true hash excepted |
| ClosurePipeline.PipelineExact | tools/run_full_repair_qualification.py:40-263 | end to end: a closure is published, loads and verifies if and only if the declared files match, the aggregate is unambiguous, every locator lies strictly below its boundary, no two locators share a hash and live references stay outside |
| ClosurePipeline.PipelineReadsBack | tools/retained_artifact_io.py:196-231 | and then every retained file, the aggregate included, reads back with the bytes it was published with |
| Transcript.VerifyPipeTranscript | tools/qualify_chrome_indexeddb.py:300-378 | the scan of the rows and the loop over requests return exactly the specified verdict |
| Transcript.ScanExact | tools/qualify_chrome_indexeddb.py:307-324 | the scan succeeds if and only if requests are numbered in order and every reply is unique, successful and after its own request; it then holds the log's requests and results |
| TranscriptLaws.AcceptedExact | tools/qualify_chrome_indexeddb.py:300-378 | acceptance is exactly a well-paired log whose own requests and replies are those of the phase |
| TranscriptFacts.AcceptedLiterally | tools/qualify_chrome_indexeddb.py:300-378 | acceptance in both directions with every row, call, expression and reply value written out |
| TranscriptFacts.AfterSchemeExact | tools/qualify_chrome_indexeddb.py:335-337 | the extension id is exactly what stands between the first "://" of the origin and the next one or the end |
| TranscriptLaws.AcceptedShape | tools/qualify_chrome_indexeddb.py:325-371 | an accepted log sends four setup calls, 1 to 100 document polls, the closing expressions and nothing else; every request has exactly one reply, after it; the replies carry the claimed version, loaded extension, document (in the last poll) and closing values |
| TranscriptLaws.EventsAreIgnored | tools/qualify_chrome_indexeddb.py:316-322 | rows without an id, inserted anywhere, change no verdict |
| TranscriptLaws.ConformingDriverIsAccepted | tools/qualify_chrome_indexeddb.py:325-378 | every log of a driver that polls until its document arrives and then evaluates the closing expressions is accepted with the result it reports |
| Spool.CompareIndexedDbState | tools/run_indexeddb_crash_matrix.py:105-195 | the loop over entries accepts exactly the state the observations, the count and the acknowledgement determine |
| SpoolFacts.ComparatorExact | tools/run_indexeddb_crash_matrix.py:119-195 | the comparator accepts if and only if there are a cursor chain from H0 and a byte count along the observations that give every field of every stored row |
| SpoolFacts.KeyExact | tools/run_indexeddb_crash_matrix.py:177-178 | the stored key of an entry in its four parts, the last a numeral of its sequence filled to nineteen digits |
| Spool.HonestStoreIsAccepted | tools/run_indexeddb_crash_matrix.py:105-195 | the store an honest writer leaves is accepted, whatever it observed and however much was acknowledged, when a record's seal leaves its own field out |
| Spool.AcceptedStatesAgree | tools/run_indexeddb_crash_matrix.py:135-182 | two accepted states of equal count and final cursor agree on every observation hash, cursor and position, unless the step hash collides |
| Spool.CursorBindsHistory | tools/run_indexeddb_crash_matrix.py:135-182 | equal cursors after n steps mean equal hashes and cursors at every step before |
| Spool.TruncationIsAccepted | tools/run_indexeddb_crash_matrix.py:121-195 | dropping the last of at least two entries and setting the stream row back is accepted for the smaller count if and only if that entry was not acknowledged |
| Spool.KeyOrderIsNumeric | tools/run_indexeddb_crash_matrix.py:177-178 | below ten to the nineteenth the string order of zero-filled keys is numeric order |
| Spool.AcceptedKeysAreOrdered | tools/run_indexeddb_crash_matrix.py:177-178 | the keys of an accepted state lie in store order |
| ReviewLaws.SerialIsUsedOnce | tools/prepare_review_workspace.py:104-138 | over every history of attempts and issuer changes a serial is consumed at most once, never if it was used, and is recorded exactly then |
| ReviewFacts.GrantsOverHistory | tools/prepare_review_workspace.py:104-138 | over every history an attempt is granted if and only if its key has its trust epoch under the last change of the issuer, its authorization is not revoked there, and its serial was unused (to consume) or used (to execute) by the attempts before |
| ReviewFacts.RevokedIsRefused | tools/prepare_review_workspace.py:117-126 | a revoked authorization is refused and leaves the ledger alone |
| ReviewLaws.RefusalsLeaveNoTrace | tools/prepare_review_workspace.py:104-138 | the granted attempts alone lead to the same ledger |
| ReviewLaws.ExecutionFollowsConsumption | tools/prepare_review_workspace.py:994-1049 | execution is granted only after exactly one earlier attempt consumed the serial |
| ReviewLaws.ExecutionIsLockstep | tools/prepare_review_workspace.py:888-994 | in every run the broker has executed a prefix of the registered list, and the client's count is that length or one less |
| ReviewFacts.ExecutedWasRequested | tools/prepare_review_workspace.py:961-994 | in every run each executed command was run at its turn, in time, on a request carrying the authorization, its position and its id |
| ReviewLaws.LostReplyIsFinal | tools/prepare_review_workspace.py:888-994 | after a lost reply no later step runs or counts a command |
| ReviewLaws.FullRunIsAccepted | tools/prepare_review_workspace.py:888-994 | the full run in order executes every command if and only if no two commands share arguments and directory under different ids |
| GovernedRoot.CollectFiles | tools/compute_governed_content_root.py:23-43 | the walk keeps exactly the admissible, unexcluded files, sorted, and rejects when any file is inadmissible |
| GovernedRoot.ComputeGovernedContentRoot | tools/compute_governed_content_root.py:46-70 | the leaf loop and framing return exactly the specified root |
| RootFacts.FilesExact | tools/compute_governed_content_root.py:23-43 | a pack is rejected if and only if some file begins with a slash, is not normalized or steps up; otherwise all files but the four named ones are kept |
| RootFacts.RootExact | tools/compute_governed_content_root.py:60-70 | the root in bytes: domains, four-byte lengths, encoded paths and leaf hashes of the kept files in order; rejected when a path does not fit its length |
| GovernedRoot.FramingRoundTrip | tools/compute_governed_content_root.py:67-69 | the framing of 4-byte length, path and 32-byte leaf parses back to the leaves |
| GovernedRoot.EqualRootsEqualFiles | tools/compute_governed_content_root.py:60-70 | equal roots mean equal governed files with equal contents, unless the hash collides on something hashed |
| GovernedRoot.RootIgnoresWalkOrder | tools/compute_governed_content_root.py:23-43 | the root, or the rejection, depends neither on the walk order nor on the contents of excluded files |
| GovernedRoot.FilesAreOrdered | tools/compute_governed_content_root.py:43 | files are hashed in the byte order of their encoded paths |
| RootFacts.CharacterBytes | tools/compute_governed_content_root.py:61-68 | UTF-8 of one character: lead byte by length, six-bit continuation bytes, together the code point (section 3 of RFC 3629) |
| ClockInterval.IntervalIsSound | tools/run_clock_vector_qualification.py:425-439 | for every causal exchange and readings floored to each clock's resolution the true offset lies in the interval and within the stated uncertainty of the floored midpoint, which is half the width rounded up; rtt is (t4 - t1) - (t3 - t2) |
| ClockInterval.PossibleOffsets | tools/run_clock_vector_qualification.py:425-439 | exactly which offsets given readings leave open: the padding by both resolutions on both sides is safe but not tight |
| Instances.SeedAfterDefaultShock | tools/gap_coherence_crash_child.py:129 | a consistent case shocked with the default type whose seeded snapshot is rejected |
| Instances.LostNewShockIsNotRecovered | tools/gap_coherence_crash_child.py:498-503 | a consistent pending case and a new shock lost before its commit: recovery changes nothing and the demand is not met |
| Instances.TruncatedStorePasses | tools/run_indexeddb_crash_matrix.py:119-195 | a store of two observations that is accepted with and without its last entry |
| Instances.AmbiguousRegistryStops | tools/prepare_review_workspace.py:888-919 | two commands under one argument list and directory: the honest client stops at once and nothing runs |
| Replay.ApplyTransition | tools/run_gap_coherence_crash_matrix.py:850-879 | Link: the loop body, as assignments on a copy of the row, rejects or moves the row exactly as the specification of one replay iteration does |
| Sorting.LexLessExact | tools/run_gap_coherence_crash_matrix.py:845-849 | Link: the id order of the tie-break: proper extension, or the greater character where two ids first differ |
| ControllerSteps.Connection.GapStatement | tools/loopback_ack_crash_child.py:36-43 | Link: statement n of the gap transaction writes exactly its table, from the rows read at the start |
| ControllerSteps.Connection.ShockCloseStep | tools/gap_coherence_crash_child.py:125-162 | Link: observation, transition and controller update, statement by statement, leave the transaction in exactly the closed tables |
| StepFacts.ShockColumns | tools/gap_coherence_crash_child.py:125-162 | Link: every column a shock close writes, and the tables it leaves alone |
| ControllerSteps.Connection.WaitingStep | tools/gap_coherence_crash_child.py:165-191 | Link: the close is recorded and the controller moved to waiting, nothing else |
| StepFacts.WaitColumns | tools/gap_coherence_crash_child.py:165-191 | Link: the same for a recorded close |
| ControllerSteps.Connection.PendingStep | tools/gap_coherence_crash_child.py:194-287 | Link: mappings, freshness, candidate epoch, proof, transition and controller update; fails exactly when the generation-1 cursor is missing, leaving the committed tables alone |
| StepFacts.PendColumns | tools/gap_coherence_crash_child.py:263-287 | Link: the same for the transition and controller of an acceptance |
| StepFacts.PendEvidenceColumns | tools/gap_coherence_crash_child.py:194-262 | Link: the same for its mappings, vector, epoch and proof |
| ControllerSteps.Connection.ReleaseStep | tools/gap_coherence_crash_child.py:356-383 | Link: the held candidate becomes the current epoch, the predecessor column untouched |
| StepFacts.ReleaseColumns | tools/gap_coherence_crash_child.py:356-383 | Link: the same for a release |
| ControllerSteps.Connection.NewShockStep | tools/gap_coherence_crash_child.py:386-434 | Link: the held candidate is closed, a successor of it recorded and the controller sent back to waiting |
| StepFacts.NewShockColumns | tools/gap_coherence_crash_child.py:386-434 | Link: the same for a new shock |
| StepFacts.StateDecides | tools/gap_coherence_crash_child.py:77-434 | Link: with new keys and a later date the controller state alone decides which step can be taken |
| RunLaws.ShockReplayExact | tools/gap_coherence_crash_child.py:125-162 | Link: from any controller row: the replay reproduces a shock close if and only if no candidate was held |
| RunLaws.WaitReplayExact | tools/gap_coherence_crash_child.py:165-191 | Link: the replay reproduces a recorded close if and only if the controller was shocked closed |
| RunLaws.PendReplayExact | tools/gap_coherence_crash_child.py:263-287 | Link: the replay reproduces an acceptance if and only if the controller was waiting |
| RunLaws.ReleaseReplayExact | tools/gap_coherence_crash_child.py:356-383 | Link: the replay reproduces a release if and only if a candidate was pending and the predecessor column held the current epoch |
| RunLaws.NewShockReplayExact | tools/gap_coherence_crash_child.py:410-434 | Link: the replay reproduces a new shock if and only if a candidate was pending |
| Destruction.DestructionCase.InsertConsumptionRow | tools/destruction_support.py:339-356 | Link: inserts the plan's consumption once, failing on a taken key or a missing database |
| Destruction.DestructionCase.ValidateConsumedRow | tools/destruction_support.py:359-373 | Link: true exactly when the authority is readable: the journal row while the database exists, the saved copy afterwards |
| Destruction.DestructionCase.PersistIntent | tools/destruction_support.py:376-383 | Link: checks authority, writes the intent once or insists on it, and marks a closed run as pending |
| DestructionFacts.IntentStageExact | tools/destruction_support.py:376-383 | Link: the intent stage from any world: it needs readable authority and an absent or equal intent, leaves the intent, marks exactly a closed run and changes nothing else |
| Destruction.DestructionCase.WriteDeletionProof | tools/destruction_support.py:414-453 | Link: writes a proof only when both stores are gone, and accepts an existing one only if it fits the plan |
| Review.AuthorityState.Transact | tools/prepare_review_workspace.py:104-138 | Link: one transaction grants exactly a current, unrevoked authorization whose serial is unused (to consume) or used (to execute), and records the serial only when it consumes |
| ReviewFacts.ServeExact | tools/prepare_review_workspace.py:961-994 | Link: one turn of the broker in columns: it runs exactly the next registered command on an exact request in time, and any other waiting request ends it |
| ReviewFacts.SendExact | tools/prepare_review_workspace.py:888-915 | Link: the client sends the last id registered for the call under its own counter |
| Review.Namespace.ClientSends | tools/prepare_review_workspace.py:900-915 | Link: a call queues one request with the client's sequence and the last id registered for its arguments, or fails without sending |
| Review.Namespace.ClientReturns | tools/prepare_review_workspace.py:916-917 | Link: the client counts a command exactly when its reply arrived |
| Review.Namespace.BrokerAccepts | tools/prepare_review_workspace.py:961-994 | Link: one turn of the broker runs the next registered command on an exact, unexpired request and otherwise ends; it also ends when the command cannot start or the reply to a client that gave up cannot be sent |
| ClockInterval.IntervalColumns | tools/run_clock_vector_qualification.py:425-439 | Link: every column: zero on readings that run backwards, else padded bounds, the floored midpoint and the least radius that covers the interval |

## Left out

- Ingestor, RunStore, ClockMapper, CoherenceController, the SQL schema and its triggers, and the TypeScript spool are not part of this model; only the row writes and the statement order shown in `tools/` are.
- Key uniqueness is a property of the tables (maps by primary key), so the relation checker's own test for duplicate ids in a retained table has no failing case here; a gap's satellites and generations referencing it are a precondition (`Keyed`).
- Columns that no modelled step or check reads are dropped from the rows.
- The GAP and CAPACITY branches of `_validate_recovery`, whose recovery redelivers through the ingestor.
- RecoveryLaws.CrashedCaseRecovers: does not claim convergence for a new shock lost before its commit, which the recovery does not repeat; `Recovery.RecoveryReachesDemand` says exactly what happens there and `Instances.LostNewShockIsNotRecovered` shows it.
- RecoveryFacts.EpochDemandExact: leaves out that both snapshots carry the run id of the scenario and one schema hash; the rows of a model belong to one run.
- The unordered choice of the generation-1 cursor and of the closing row of a continuity seed: the chosen row is a parameter, for the seed a latest one.
- Row ids and timestamps that the child hard-codes or draws at random are parameters.
- Torn files: `immutable_json` writes a file atomically here; a torn one makes the real recovery fail closed.
- `validate_plan`, receipts, signatures and content hashes of a destruction plan: one boolean verdict.
- The worker process, the browser and the checkpoint handshake of destruction: deleting the browser store is one effect.
- Processes, signals, sockets, timeouts and polling: a crash is a stop between atomic effects, a lost reply a step of the client.
- File metadata (links, inodes, modes) and symbolic links: a file is regular or absent, and distinct names are distinct files.
- Evidence.VisitExact: a scope that is a list or an object is an error like any other, although the code raises TypeError there; the order of members inside a JSON object matters only for the order of references.
- Locators.CanonicalFixedPoints: case folding of the host and distribution names is ASCII plus the long s, which is all that `re.I` and `lower` can match there.
- The JSON shape of a retained manifest (schema string, key sets, type tests) and the creation of its directories: manifests are typed rows.
- Transcript.VerifyPipeTranscript: rows, requests and responses are JSON objects and ids are integers; lines that do not parse are not modelled.
- Spool.CompareIndexedDbState: a negative acknowledgement, which no caller passes, and the key set of a stored envelope.
- Review: verification of the signed authorization, preparation of the workspace, attestation output and requests by anyone but the one client.
- GovernedRoot.ComputeGovernedContentRoot: the exclusion registry's own fields and the output record.
- The clock vector runner's transport, mutations and SQL observations, the offline case oracles, environment probes, review issuance and sandbox construction: long equality lists without state or loops.
