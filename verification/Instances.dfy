/** Concrete inputs at which the code does less than a reader may expect; the exact conditions
    are proved beside the code they belong to. */
module Instances {
  import opened Prelude
  import opened Coherence
  import opened Relations
  import opened ControllerSteps
  import opened GapLaws
  import opened ControllerRuns
  import opened RunLaws
  import opened Recovery
  import opened RecoveryLaws
  import Review
  import ReviewLaws
  import Spool

  function Started(): Tables {
    FreshRun("c", "run", "fixture", "epoch:0", "generation:0", StreamKey("run", "browser", "producer", "stream"))
  }

  lemma StartedShockIsConsistent(p: ShockParams)
    requires p.at > 0
    ensures Consistent(Started(), "c") && Enabled(Started(), "c", DoShock(p))
    ensures Consistent(ShockClose(Started(), "c", p), "c")
  {
    var stream := StreamKey("run", "browser", "producer", "stream");
    FreshRunIsConsistent("c", "run", "fixture", "epoch:0", "generation:0", stream);
    StepKeepsConsistency(Started(), "c", DoShock(p));
  }

  /** After the default shock of `_shock_close` (tools/gap_coherence_crash_child.py:129) the
      continuity seed leaves a snapshot that the relation check rejects. */
  lemma SeedAfterDefaultShock() returns (t: Tables, s: SeedParams)
    ensures Consistent(t, "c") && t.controllers["c"].state == ShockedClosed
    ensures "shock:0" in t.shocks && t.shocks["shock:0"].shockType == "MAPPING_CLOSURE"
    ensures SeedReady(t, "c", s) && !Relates(SeedContinuity(t, "c", s))
  {
    var p := ShockParams("shock-transition:0", "shock:0", "MAPPING_CLOSURE", 6);
    t := ShockClose(Started(), "c", p);
    s := SeedParams(
      StreamKey("run", "browser", "producer", "stream-99"), p.transition,
      GapParams("gap", "binding", "move", "epoch-proof-0", "epoch-proof-01", "MISSING_SEQUENCE", 2));
    StartedShockIsConsistent(p);
    NotAGapShock();
    hide Consistent, Relates;
    SeedReadyAfterShock(t, p, s);
    SeedIsExact(t, s);
  }

  lemma NotAGapShock()
    ensures "MAPPING_CLOSURE" !in GAP_SHOCKS
  {
    assert "MAPPING_CLOSURE"[0] == 'M' && "SCHEMA_CONFLICT"[0] == 'S';
  }

  lemma SeedReadyAfterShock(t: Tables, p: ShockParams, s: SeedParams)
    requires t == ShockClose(Started(), "c", p)
    requires s.stream == StreamKey("run", "browser", "producer", "stream-99") && s.closing == p.transition
    requires s.gap.generation == "epoch-proof-0" && s.gap.successor == "epoch-proof-01"
    ensures SeedReady(t, "c", s)
  {
  }

  lemma SeedIsExact(t: Tables, s: SeedParams)
    requires Consistent(t, "c") && SeedReady(t, "c", s)
    requires t.shocks[t.controllers["c"].activeShock.value].shockType == "MAPPING_CLOSURE"
    ensures !Relates(SeedContinuity(t, "c", s))
  {
    hide Relates, SeedReady, SeedContinuity;
    NotAGapShock();
    SeedExact(t, "c", s);
  }

  /** A controller with a held candidate, on which a new shock was lost before its commit: the
      recovery changes nothing and the demand of the case is not met. */
  lemma LostNewShockIsNotRecovered() returns (t: Tables, lost: NewShockParams, ids: RecoveryIds)
    ensures Consistent(t, "c") && Enabled(t, "c", DoNewShock(lost))
    ensures IdsReady(t, "c", ScenarioFor(NewShockStep), ids)
    ensures RecoverEpoch(t, "c", ScenarioFor(NewShockStep), ids) == t
    ensures !EpochDemandMet(t, t, "c", NewShockStep)
  {
    t := PendingCase();
    lost, ids := UnusedIds(t);
    SettledStateStays(t, "c", ScenarioFor(NewShockStep), ids);
  }

  const PENDING_IDS := RecoveryIds(
    ShockParams("t1", "s1", "EQUIVALENT_UNKNOWN_SHOCK", 6), WaitParams("t20", 7),
    PendParams("t300", "f", "p", "epoch:01", "m", "n", "o", "q", 8), ReleaseParams("t4000", "f", "p", 9))

  function WithCursor(): Tables {
    Started().(cursors := map["q" := CursorRow("q", 1)])
  }

  lemma WithCursorIsConsistent()
    ensures Consistent(WithCursor(), "c")
  {
    StartedShockIsConsistent(PENDING_IDS.shock);
    CursorKeeps(Started(), "c", CursorRow("q", 1));
    assert Started().cursors["q" := CursorRow("q", 1)] == map["q" := CursorRow("q", 1)];
  }

  lemma PendingIdsReady()
    ensures IdsReady(WithCursor(), "c", ScenarioFor(PendingStep), PENDING_IDS)
  {
    assert "epoch:01" != "epoch:0";
  }

  lemma PendingCase() returns (t: Tables)
    ensures Consistent(t, "c") && "c" in t.controllers && t.controllers["c"].state == NewEpochPending
  {
    hide Consistent, IdsReady, WithCursor, RecoverEpoch, Completes, NoRegression;
    var start := WithCursor();
    WithCursorIsConsistent();
    PendingIdsReady();
    HasController(start, "c");
    RecoveryIsRun(start, "c", ScenarioFor(PendingStep), PENDING_IDS);
    RecoveredRunHolds(start, "c", ScenarioFor(PendingStep), PENDING_IDS);
    t := RecoverEpoch(start, "c", ScenarioFor(PendingStep), PENDING_IDS);
    RecoveryReachesDemand(start, "c", PendingStep, PENDING_IDS);
    StartedState();
  }

  lemma StartedState()
    ensures "c" in WithCursor().controllers && WithCursor().controllers["c"].state == Open
  {
  }

  /** Every finite table leaves ids over. */
  lemma UnusedId(used: set<Id>, length: nat) returns (id: Id)
    ensures id !in used && |id| > length
    decreases |used|
  {
    id := Repeated(length + 1);
    if exists u :: u in used && |u| > length {
      var u :| u in used && |u| > length;
      id := UnusedId(used - {u}, |u|);
    }
  }

  function Repeated(n: nat): (r: string)
    ensures |r| == n
  {
    seq(n, i => 'x')
  }

  lemma UnusedIds(t: Tables) returns (lost: NewShockParams, ids: RecoveryIds)
    requires "c" in t.controllers && t.controllers["c"].state == NewEpochPending
    ensures Enabled(t, "c", DoNewShock(lost)) && IdsReady(t, "c", ScenarioFor(NewShockStep), ids)
  {
    var at := t.controllers["c"].updatedAt;
    var k1 := UnusedId(t.transitions.Keys, 0);
    var k2 := UnusedId(t.transitions.Keys, |k1|);
    var k3 := UnusedId(t.transitions.Keys, |k2|);
    var k4 := UnusedId(t.transitions.Keys, |k3|);
    var shock := UnusedId(t.shocks.Keys, 0);
    var epoch := UnusedId(t.epochs.Keys, 0);
    lost := NewShockParams(k1, shock, epoch, "f", "p", at + 1);
    ids := RecoveryIds(
      ShockParams(k1, shock, "EQUIVALENT_UNKNOWN_SHOCK", at + 1), WaitParams(k2, at + 2),
      PendParams(k3, "f", "p", "epoch", "m", "n", "o", "q", at + 3), ReleaseParams(k4, "f", "p", at + 4));
  }

  /** A store of two observations, one acknowledged: without its last entry it is accepted too,
      when the count is taken from the store. */
  lemma TruncatedStorePasses() returns (
      full: Spool.Actual, short: Spool.Actual, observations: seq<Spool.Observation>, step: Spool.StepHash,
      seal: Spool.Seal)
    ensures |full.entries| == 2 && |short.entries| == 1
    ensures Spool.Fits(full, map[], observations, 2, 1, step, seal)
    ensures Spool.Fits(short, map[], observations, 1, 1, step, seal)
  {
    observations := [Spool.Observation("run", "b", "o1", "h1", [0]), Spool.Observation("run", "b", "o2", "h2", [0, 0])];
    step, seal := (s: Spool.CursorStep) => s.previous + s.observationHash, (r: Spool.Record) => r.cursor;
    full := Spool.StoreOf(map[], observations, 1, step, seal);
    Spool.HonestStoreIsAccepted(map[], observations, 1, step, seal);
    Spool.TruncationIsAccepted(full, map[], observations, 2, 1, step, seal);
    short := Spool.Truncated(full, observations, 2, step);
  }

  /** Two commands under one argument list and directory: the honest client stops at the first,
      and nothing runs. */
  lemma AmbiguousRegistryStops() returns (registry: Review.Registry)
    ensures |registry.commands| == 2
    ensures ReviewLaws.InOrder(registry, Review.STARTED, 0).executed == []
    ensures !ReviewLaws.InOrder(registry, Review.STARTED, 0).alive
  {
    registry := Review.Registry("a", [Review.Command("lint", ["tool"], "/w"), Review.Command("types", ["tool"], "/w")]);
    assert ReviewLaws.Through(registry, 0) == Review.STARTED;
    ReviewLaws.OneCommand(registry, 0);
  }
}
