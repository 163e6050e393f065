/** Whole-run destruction: the stores, the external files and the effects of one process
    (tools/destruction_crash_child.py:38-82, tools/destruction_support.py:278-453).
    Every effect, an external JSON file included, is atomic. */
module Destruction {
  import opened Prelude

  datatype Consumption = Consumption(
    consumptionId: Id, runId: Id, receiptId: Id, intentId: Id, intentHash: string, inventoryHash: string)

  datatype Intent = Intent(
    intentId: Id, runId: Id, consumptionId: Id, receiptId: Id, contentHash: string, inventoryHash: string)

  datatype Proof = Proof(
    proofId: Id, runId: Id, intentId: Id, extensionStore: string, backendStore: string, state: string)

  datatype Database = Database(tables: string, consumptions: seq<Consumption>, runStatus: string)

  datatype Sidecar = Journal | Wal | Shm

  datatype Inventory = Inventory(browser: Option<string>, backend: Option<Database>)

  /** The plan captured before destruction; `valid` is the verdict of `validate_plan`. */
  datatype Plan = Plan(runId: Id, valid: bool, inventory: Inventory, intent: Intent)

  /** Everything a destruction process can see: the backend database and its sidecar files, the
      browser store, the saved consumption, the intent and the deletion proof. */
  datatype World = World(
    database: Option<Database>,
    sidecars: set<Sidecar>,
    browser: Option<string>,
    savedAuthority: Option<Consumption>,
    intent: Option<Intent>,
    proof: Option<Proof>)

  function ConsumptionOf(plan: Plan): Consumption {
    var intent := plan.intent;
    Consumption(intent.consumptionId, plan.runId, intent.receiptId, intent.intentId, intent.contentHash,
      intent.inventoryHash)
  }

  function NewProof(plan: Plan, proofId: Id): Proof {
    Proof(proofId, plan.runId, plan.intent.intentId, "DELETED", "DELETED", "COMPLETE_LOGICAL_DELETION")
  }

  predicate ProofFits(proof: Proof, plan: Plan) {
    && proof.runId == plan.runId && proof.intentId == plan.intent.intentId
    && proof.extensionStore == "DELETED" && proof.backendStore == "DELETED"
    && proof.state == "COMPLETE_LOGICAL_DELETION"
  }

  /** The atomic effects and checks of a process, in the vocabulary of the source functions. */
  datatype Action =
    | ValidatePlan
    | CheckInventory
    | InsertConsumption
    | ValidateConsumed
    | SaveAuthority
    | WriteIntent
    | MarkPending
    | ValidateExternal
    | UnlinkDatabase
    | UnlinkSidecar(sidecar: Sidecar)
    | DeleteBrowser
    | WriteProof(proofId: Id)

  /** `validate_consumed`: the journal row while the database exists, the saved copy after. */
  predicate AuthorityReadable(w: World, plan: Plan) {
    match w.database
    case Some(db) => db.consumptions == [ConsumptionOf(plan)]
    case None => w.savedAuthority == Some(ConsumptionOf(plan))
  }

  /** `immutable_json`: create the file, or insist that it holds exactly this value. */
  function Immutable<T(==)>(file: Option<T>, value: T): Option<T> {
    if file.Some? && file.value != value then None else Some(value)
  }

  /** The primary key of the consumption table is taken. */
  predicate Recorded(db: Database, consumptionId: Id) {
    exists i :: 0 <= i < |db.consumptions| && db.consumptions[i].consumptionId == consumptionId
  }

  /** One action; None is the ValueError that ends the process. */
  function Perform(a: Action, w: World, plan: Plan): Option<World> {
    match a
    case ValidatePlan => if plan.valid then Some(w) else None
    case CheckInventory => if Inventory(w.browser, w.database) == plan.inventory then Some(w) else None
    case InsertConsumption =>
      if w.database.None? || Recorded(w.database.value, ConsumptionOf(plan).consumptionId) then None
      else
        var db := w.database.value;
        Some(w.(database := Some(db.(consumptions := db.consumptions + [ConsumptionOf(plan)]))))
    case ValidateConsumed => if AuthorityReadable(w, plan) then Some(w) else None
    case SaveAuthority =>
      if w.database.None? then Some(w)
      else if w.database.value.consumptions == [] then None
      else
        var committed := w.database.value.consumptions[0];
        if Immutable(w.savedAuthority, committed).None? then None else Some(w.(savedAuthority := Some(committed)))
    case WriteIntent =>
      if Immutable(w.intent, plan.intent).None? then None else Some(w.(intent := Some(plan.intent)))
    case MarkPending =>
      if w.database.Some? && w.database.value.runStatus == "CLOSED"
      then Some(w.(database := Some(w.database.value.(runStatus := "DESTRUCTION_PENDING"))))
      else Some(w)
    case ValidateExternal => if AuthorityReadable(w, plan) && w.intent == Some(plan.intent) then Some(w) else None
    case UnlinkDatabase => Some(w.(database := None))
    case UnlinkSidecar(s) => Some(w.(sidecars := w.sidecars - {s}))
    case DeleteBrowser => Some(w.(browser := None))
    case WriteProof(proofId) =>
      if w.browser.Some? || w.database.Some? then None
      else if w.proof.Some? then (if ProofFits(w.proof.value, plan) then Some(w) else None)
      else Some(w.(proof := Some(NewProof(plan, proofId))))
  }

  /** Which store goes first depends on the checkpoint a case was built for. */
  datatype Order = BackendFirst | ExtensionFirst

  const PERSIST_INTENT: seq<Action> := [ValidateConsumed, WriteIntent, MarkPending]

  const DELETE_BACKEND: seq<Action> :=
    [ValidateExternal, UnlinkDatabase, UnlinkSidecar(Journal), UnlinkSidecar(Wal), UnlinkSidecar(Shm)]

  const DELETE_EXTENSION: seq<Action> := [ValidateExternal, DeleteBrowser]

  function Deletions(order: Order): seq<Action> {
    if order.BackendFirst? then DELETE_BACKEND + DELETE_EXTENSION else DELETE_EXTENSION + DELETE_BACKEND
  }

  /** The common tail of `execute`, from its first `validate_consumed` on. */
  function Tail(order: Order, proofId: Id): seq<Action> {
    [ValidateConsumed, SaveAuthority] + PERSIST_INTENT + Deletions(order) + [ValidateExternal, WriteProof(proofId)]
  }

  /** The actions of one process. A recovery of the case that stops before authority ends
      after validating the plan. */
  function Actions(recover: bool, beforeAuthority: bool, order: Order, proofId: Id): seq<Action> {
    if !recover then [ValidatePlan, CheckInventory, InsertConsumption] + Tail(order, proofId)
    else if beforeAuthority then [ValidatePlan]
    else [ValidatePlan] + Tail(order, proofId)
  }

  /** A process that crashes after at most n actions, or stops at the first failing one. */
  function Execute(actions: seq<Action>, w: World, plan: Plan, n: nat): World
    decreases |actions|
  {
    if actions == [] || n == 0 then w
    else
      match Perform(actions[0], w, plan)
      case None => w
      case Some(v) => Execute(actions[1..], v, plan, n - 1)
  }

  /** The uninterrupted process: its last world and whether every action succeeded. */
  function Complete(actions: seq<Action>, w: World, plan: Plan): (World, bool)
    decreases |actions|
  {
    if actions == [] then (w, true)
    else
      match Perform(actions[0], w, plan)
      case None => (w, false)
      case Some(v) => Complete(actions[1..], v, plan)
  }

  /** One process of a history: its mode, the order it deletes in, the actions it gets to do
      and the random id its proof would carry. */
  datatype Attempt = Attempt(recover: bool, beforeAuthority: bool, order: Order, limit: nat, proofId: Id)

  function AfterAttempt(w: World, plan: Plan, a: Attempt): World {
    Execute(Actions(a.recover, a.beforeAuthority, a.order, a.proofId), w, plan, a.limit)
  }

  function History(w: World, plan: Plan, attempts: seq<Attempt>): World
    decreases |attempts|
  {
    if attempts == [] then w else History(AfterAttempt(w, plan, attempts[0]), plan, attempts[1..])
  }

  lemma {:induction false} CompleteConcat(a: seq<Action>, b: seq<Action>, w: World, plan: Plan)
    ensures Complete(a + b, w, plan) ==
            if Complete(a, w, plan).1 then Complete(b, Complete(a, w, plan).0, plan) else Complete(a, w, plan)
    decreases |a|
  {
    if a == [] {
      assert a + b == b;
    } else {
      assert (a + b)[0] == a[0] && (a + b)[1..] == a[1..] + b;
      if Perform(a[0], w, plan).Some? {
        CompleteConcat(a[1..], b, Perform(a[0], w, plan).value, plan);
      }
    }
  }

  lemma CompletePair(a: Action, b: Action, w: World, plan: Plan)
    ensures Complete([a, b], w, plan) ==
            match Perform(a, w, plan)
            case None => (w, false)
            case Some(v) => (match Perform(b, v, plan) case None => (v, false) case Some(u) => (u, true))
  {
    var both := [a, b];
    assert both[0] == a && both[1..] == [b] && [b][1..] == [];
    if Perform(a, w, plan).Some? {
      var v := Perform(a, w, plan).value;
      assert Complete(both, w, plan) == Complete([b], v, plan);
      if Perform(b, v, plan).Some? {
        assert Complete([], Perform(b, v, plan).value, plan) == (Perform(b, v, plan).value, true);
        assert Complete([b], v, plan) == (Perform(b, v, plan).value, true);
      }
    }
  }

  /** The disposable case directory and the stores behind it. */
  class DestructionCase {
    var database: Option<Database>
    var sidecars: set<Sidecar>
    var browser: Option<string>
    var savedAuthority: Option<Consumption>
    var intent: Option<Intent>
    var proof: Option<Proof>

    function State(): World
      reads this
    {
      World(database, sidecars, browser, savedAuthority, intent, proof)
    }

    constructor (w: World)
      ensures State() == w
    {
      database, sidecars, browser := w.database, w.sidecars, w.browser;
      savedAuthority, intent, proof := w.savedAuthority, w.intent, w.proof;
    }

    method InsertConsumptionRow(plan: Plan) returns (ok: bool)
      modifies this`database
      ensures (State(), ok) == Complete([InsertConsumption], old(State()), plan)
    {
      ghost var before := State();
      if database.None? {
        return false;
      }
      var db := database.value;
      if Recorded(db, ConsumptionOf(plan).consumptionId) {
        return false;
      }
      database := Some(db.(consumptions := db.consumptions + [ConsumptionOf(plan)]));
      assert Perform(InsertConsumption, before, plan) == Some(State());
      return true;
    }

    method ValidateConsumedRow(plan: Plan) returns (ok: bool)
      ensures ok == AuthorityReadable(State(), plan)
    {
      if database.Some? {
        ok := database.value.consumptions == [ConsumptionOf(plan)];
      } else {
        ok := savedAuthority == Some(ConsumptionOf(plan));
      }
    }

    method SaveAuthorityCopy(plan: Plan) returns (ok: bool)
      modifies this`savedAuthority
      ensures (State(), ok) == Complete([SaveAuthority], old(State()), plan)
    {
      ok := true;
      if database.Some? {
        if database.value.consumptions == [] {
          return false;
        }
        var committed := database.value.consumptions[0];
        if savedAuthority.Some? && savedAuthority.value != committed {
          return false;
        }
        savedAuthority := Some(committed);
      }
    }

    method PersistIntent(plan: Plan) returns (ok: bool)
      modifies this`intent, this`database
      ensures (State(), ok) == Complete(PERSIST_INTENT, old(State()), plan)
    {
      ghost var before := State();
      ok := ValidateConsumedRow(plan);
      assert PERSIST_INTENT[1..] == [WriteIntent, MarkPending];
      if !ok {
        return;
      }
      assert Perform(ValidateConsumed, before, plan) == Some(before);
      if intent.Some? && intent.value != plan.intent {
        return false;
      }
      intent := Some(plan.intent);
      ghost var written := State();
      assert Perform(WriteIntent, before, plan) == Some(written);
      if database.Some? && database.value.runStatus == "CLOSED" {
        database := Some(database.value.(runStatus := "DESTRUCTION_PENDING"));
      }
      assert Perform(MarkPending, written, plan) == Some(State());
      assert [WriteIntent, MarkPending][1..] == [MarkPending] && [MarkPending][1..] == [];
    }

    method ValidateExternalFiles(plan: Plan) returns (ok: bool)
      ensures ok == (AuthorityReadable(State(), plan) && intent == Some(plan.intent))
    {
      ok := ValidateConsumedRow(plan);
      ok := ok && intent == Some(plan.intent);
    }

    /** `delete_backend`: the database file, then each sidecar that exists. */
    method DeleteBackend(plan: Plan) returns (ok: bool)
      modifies this`database, this`sidecars
      ensures (State(), ok) == Complete(DELETE_BACKEND, old(State()), plan)
    {
      ghost var before := State();
      ok := ValidateExternalFiles(plan);
      if !ok {
        return;
      }
      var suffixes := [Journal, Wal, Shm];
      database := None;
      var i := 0;
      while i < |suffixes|
        invariant 0 <= i <= |suffixes|
        invariant State() == before.(database := None, sidecars := before.sidecars - set j | 0 <= j < i :: suffixes[j])
      {
        if suffixes[i] in sidecars {
          sidecars := sidecars - {suffixes[i]};
        }
        i := i + 1;
      }
      BackendDeleted(before, plan);
      assert (set j | 0 <= j < 3 :: suffixes[j]) == {suffixes[0], suffixes[1], suffixes[2]};
    }

    method WriteDeletionProof(plan: Plan, proofId: Id) returns (ok: bool)
      modifies this`proof
      ensures (State(), ok) == Complete([ValidateExternal, WriteProof(proofId)], old(State()), plan)
    {
      ghost var before := State();
      CompletePair(ValidateExternal, WriteProof(proofId), before, plan);
      ok := ValidateExternalFiles(plan);
      if !ok {
        return;
      }
      if browser.Some? || database.Some? {
        return false;
      }
      if proof.Some? {
        return ProofFits(proof.value, plan);
      }
      proof := Some(NewProof(plan, proofId));
      assert Perform(WriteProof(proofId), before, plan) == Some(State());
    }

    method DeleteExtension(plan: Plan) returns (ok: bool)
      modifies this`browser
      ensures (State(), ok) == Complete(DELETE_EXTENSION, old(State()), plan)
    {
      assert DELETE_EXTENSION[1..] == [DeleteBrowser];
      ok := ValidateExternalFiles(plan);
      if ok {
        browser := None;
      }
    }

    method DeleteStores(plan: Plan, order: Order) returns (ok: bool)
      modifies this`database, this`sidecars, this`browser
      ensures (State(), ok) == Complete(Deletions(order), old(State()), plan)
    {
      CompleteConcat(DELETE_BACKEND, DELETE_EXTENSION, State(), plan);
      CompleteConcat(DELETE_EXTENSION, DELETE_BACKEND, State(), plan);
      if order.BackendFirst? {
        ok := DeleteBackend(plan);
        if ok {
          ok := DeleteExtension(plan);
        }
      } else {
        ok := DeleteExtension(plan);
        if ok {
          ok := DeleteBackend(plan);
        }
      }
    }

    method SaveValidatedAuthority(plan: Plan) returns (ok: bool)
      modifies this`savedAuthority
      ensures (State(), ok) == Complete([ValidateConsumed, SaveAuthority], old(State()), plan)
    {
      assert [ValidateConsumed, SaveAuthority][1..] == [SaveAuthority];
      ok := ValidateConsumedRow(plan);
      if ok {
        ok := SaveAuthorityCopy(plan);
      }
    }

    method FinishDestruction(plan: Plan, order: Order, proofId: Id) returns (ok: bool)
      modifies this
      ensures (State(), ok) == Complete(Tail(order, proofId), old(State()), plan)
    {
      ghost var start := State();
      var head := [ValidateConsumed, SaveAuthority];
      var proving := [ValidateExternal, WriteProof(proofId)];
      CompleteConcat(head + PERSIST_INTENT + Deletions(order), proving, start, plan);
      CompleteConcat(head + PERSIST_INTENT, Deletions(order), start, plan);
      CompleteConcat(head, PERSIST_INTENT, start, plan);
      ok := SaveValidatedAuthority(plan);
      if !ok {
        return;
      }
      ok := PersistIntent(plan);
      if !ok {
        return;
      }
      ok := DeleteStores(plan, order);
      if !ok {
        return;
      }
      ok := WriteDeletionProof(plan, proofId);
    }

    /** `execute` without a crash. */
    method Run(plan: Plan, recover: bool, beforeAuthority: bool, order: Order, proofId: Id) returns (ok: bool)
      modifies this
      ensures (State(), ok) == Complete(Actions(recover, beforeAuthority, order, proofId), old(State()), plan)
    {
      ghost var start := State();
      StepOfActions(recover, beforeAuthority, order, proofId, start, plan);
      if !plan.valid {
        return false;
      }
      if recover && beforeAuthority {
        return true;
      }
      if !recover {
        if Inventory(browser, database) != plan.inventory {
          return false;
        }
        ok := InsertConsumptionRow(plan);
        if !ok {
          return;
        }
      }
      ok := FinishDestruction(plan, order, proofId);
    }
  }

  lemma BackendDeleted(w: World, plan: Plan)
    requires AuthorityReadable(w, plan) && w.intent == Some(plan.intent)
    ensures Complete(DELETE_BACKEND, w, plan) ==
      (w.(database := None, sidecars := w.sidecars - {Journal, Wal, Shm}), true)
  {
    var w1 := w.(database := None);
    var w2 := w1.(sidecars := w1.sidecars - {Journal});
    var w3 := w2.(sidecars := w2.sidecars - {Wal});
    var w4 := w3.(sidecars := w3.sidecars - {Shm});
    assert DELETE_BACKEND[1..] == [UnlinkDatabase, UnlinkSidecar(Journal), UnlinkSidecar(Wal), UnlinkSidecar(Shm)];
    assert DELETE_BACKEND[1..][1..] == [UnlinkSidecar(Journal), UnlinkSidecar(Wal), UnlinkSidecar(Shm)];
    assert DELETE_BACKEND[1..][1..][1..] == [UnlinkSidecar(Wal), UnlinkSidecar(Shm)];
    assert DELETE_BACKEND[1..][1..][1..][1..] == [UnlinkSidecar(Shm)];
    assert Complete([UnlinkSidecar(Shm)], w3, plan) == (w4, true);
    assert Complete([UnlinkSidecar(Wal), UnlinkSidecar(Shm)], w2, plan) == (w4, true);
    assert Complete([UnlinkSidecar(Journal), UnlinkSidecar(Wal), UnlinkSidecar(Shm)], w1, plan) == (w4, true);
    assert w4.sidecars == w.sidecars - {Journal, Wal, Shm};
  }

  lemma StepOfActions(recover: bool, beforeAuthority: bool, order: Order, proofId: Id, w: World, plan: Plan)
    ensures var tail := Tail(order, proofId);
            Complete(Actions(recover, beforeAuthority, order, proofId), w, plan) ==
            if !plan.valid then (w, false)
            else if recover && beforeAuthority then (w, true)
            else if recover then Complete(tail, w, plan)
            else if Inventory(w.browser, w.database) != plan.inventory then (w, false)
            else
              var inserted := Complete([InsertConsumption], w, plan);
              if inserted.1 then Complete(tail, inserted.0, plan) else inserted
  {
    var tail := Tail(order, proofId);
    CompleteConcat([ValidatePlan], tail, w, plan);
    CompleteConcat([ValidatePlan, CheckInventory, InsertConsumption], tail, w, plan);
    CompleteConcat([ValidatePlan, CheckInventory], [InsertConsumption], w, plan);
    CompleteConcat([ValidatePlan], [CheckInventory], w, plan);
    assert [ValidatePlan] + [CheckInventory] == [ValidatePlan, CheckInventory];
    assert [ValidatePlan, CheckInventory] + [InsertConsumption] == [ValidatePlan, CheckInventory, InsertConsumption];
  }
}
