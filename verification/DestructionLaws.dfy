/** Safety and convergence of whole-run destruction over every crash and recovery. */
module DestructionLaws {
  import opened Prelude
  import opened Destruction

  // ----- safety -----

  /** What holds between any two effects of any history. */
  predicate Safe(w: World, plan: Plan) {
    && (w.database.Some? ==> w.database.value.consumptions in {[], [ConsumptionOf(plan)]})
    && (w.savedAuthority.Some? ==>
          w.savedAuthority.value == ConsumptionOf(plan)
          && (w.database.Some? ==> w.database.value.consumptions == [ConsumptionOf(plan)]))
    && (w.intent.Some? ==> w.intent.value == plan.intent && w.savedAuthority.Some?)
    && (w.database.None? || w.browser.None? ==> w.intent.Some?)
    && (w.proof.Some? ==> w.database.None? && w.browser.None? && ProofFits(w.proof.value, plan))
  }

  /** A case before destruction. */
  predicate Untouched(w: World) {
    && w.database.Some? && w.database.value.consumptions == [] && w.browser.Some?
    && w.savedAuthority.None? && w.intent.None? && w.proof.None?
  }

  /** What a process has established by the actions it has completed. */
  datatype Known = Known(consumed: bool, authority: bool, intent: bool)

  predicate Holds(k: Known, w: World, plan: Plan) {
    && (k.consumed ==> AuthorityReadable(w, plan))
    && (k.authority ==> w.savedAuthority == Some(ConsumptionOf(plan)))
    && (k.intent ==> w.intent == Some(plan.intent) && w.savedAuthority == Some(ConsumptionOf(plan)))
  }

  function Learn(k: Known, a: Action): Known {
    match a
    case ValidateConsumed => k.(consumed := true)
    case SaveAuthority => k.(authority := true)
    case ValidateExternal => Known(true, true, true)
    case _ => k
  }

  /** The order in which an action may follow what is known. */
  predicate Follows(k: Known, a: Action) {
    match a
    case InsertConsumption => !k.consumed && !k.authority && !k.intent
    case SaveAuthority => k.consumed
    case WriteIntent => k.consumed && k.authority
    case UnlinkDatabase => k.intent
    case DeleteBrowser => k.intent
    case _ => true
  }

  predicate WellOrdered(k: Known, actions: seq<Action>)
    decreases |actions|
  {
    actions == [] || (Follows(k, actions[0]) && WellOrdered(Learn(k, actions[0]), actions[1..]))
  }

  lemma EmptyOrRecorded(db: Database, plan: Plan)
    requires db.consumptions in {[], [ConsumptionOf(plan)]}
    ensures db.consumptions == [] || Recorded(db, ConsumptionOf(plan).consumptionId)
  {
    if db.consumptions != [] {
      assert db.consumptions[0].consumptionId == ConsumptionOf(plan).consumptionId;
    }
  }

  lemma StepIsSafe(k: Known, a: Action, w: World, plan: Plan)
    requires Safe(w, plan) && Holds(k, w, plan) && Follows(k, a)
    requires Perform(a, w, plan).Some?
    ensures Safe(Perform(a, w, plan).value, plan) && Holds(Learn(k, a), Perform(a, w, plan).value, plan)
  {
    if a.InsertConsumption? {
      EmptyOrRecorded(w.database.value, plan);
      assert [] + [ConsumptionOf(plan)] == [ConsumptionOf(plan)];
    }
  }

  lemma {:induction false} OrderedActionsAreSafe(k: Known, actions: seq<Action>, w: World, plan: Plan, n: nat)
    requires Safe(w, plan) && Holds(k, w, plan) && WellOrdered(k, actions)
    ensures Safe(Execute(actions, w, plan, n), plan)
    decreases |actions|
  {
    if actions != [] && n > 0 && Perform(actions[0], w, plan).Some? {
      StepIsSafe(k, actions[0], w, plan);
      OrderedActionsAreSafe(Learn(k, actions[0]), actions[1..], Perform(actions[0], w, plan).value, plan, n - 1);
    }
  }

  lemma {:induction false} WellOrderedConcat(k: Known, a: seq<Action>, b: seq<Action>, after: Known)
    requires WellOrdered(k, a) && WellOrdered(after, b) && LearnAll(k, a) == after
    ensures WellOrdered(k, a + b)
    decreases |a|
  {
    if a == [] {
      assert a + b == b;
    } else {
      assert (a + b)[0] == a[0] && (a + b)[1..] == a[1..] + b;
      WellOrderedConcat(Learn(k, a[0]), a[1..], b, after);
    }
  }

  function LearnAll(k: Known, actions: seq<Action>): Known
    decreases |actions|
  {
    if actions == [] then k else LearnAll(Learn(k, actions[0]), actions[1..])
  }

  lemma DeletionsWellOrdered(order: Order)
    ensures WellOrdered(Known(true, true, false), Deletions(order))
    ensures LearnAll(Known(true, true, false), Deletions(order)) == Known(true, true, true)
  {
    var all := Known(true, true, true);
    assert DELETE_EXTENSION[1..] == [DeleteBrowser];
    assert DELETE_BACKEND[1..] == [UnlinkDatabase, UnlinkSidecar(Journal), UnlinkSidecar(Wal), UnlinkSidecar(Shm)];
    QuietTail(all, [UnlinkDatabase, UnlinkSidecar(Journal), UnlinkSidecar(Wal), UnlinkSidecar(Shm)]);
    QuietTail(all, [DeleteBrowser]);
    if order.BackendFirst? {
      WellOrderedConcat(Known(true, true, false), DELETE_BACKEND, DELETE_EXTENSION, all);
      LearnAllConcat(Known(true, true, false), DELETE_BACKEND, DELETE_EXTENSION);
    } else {
      WellOrderedConcat(Known(true, true, false), DELETE_EXTENSION, DELETE_BACKEND, all);
      LearnAllConcat(Known(true, true, false), DELETE_EXTENSION, DELETE_BACKEND);
    }
  }

  lemma {:induction false} QuietTail(k: Known, actions: seq<Action>)
    requires k == Known(true, true, true)
    requires forall a :: a in actions ==> a.UnlinkDatabase? || a.UnlinkSidecar? || a.DeleteBrowser?
    ensures WellOrdered(k, actions) && LearnAll(k, actions) == k
    decreases |actions|
  {
    if actions != [] {
      assert actions[0] in actions;
      QuietTail(k, actions[1..]);
    }
  }

  lemma {:induction false} LearnAllConcat(k: Known, a: seq<Action>, b: seq<Action>)
    ensures LearnAll(k, a + b) == LearnAll(LearnAll(k, a), b)
    decreases |a|
  {
    if a == [] {
      assert a + b == b;
    } else {
      assert (a + b)[0] == a[0] && (a + b)[1..] == a[1..] + b;
      LearnAllConcat(Learn(k, a[0]), a[1..], b);
    }
  }

  lemma TailWellOrdered(order: Order, proofId: Id)
    ensures WellOrdered(Known(false, false, false), Tail(order, proofId))
  {
    var none, some, all := Known(false, false, false), Known(true, true, false), Known(true, true, true);
    var head := [ValidateConsumed, SaveAuthority];
    var proving := [ValidateExternal, WriteProof(proofId)];
    assert head[1..] == [SaveAuthority] && [SaveAuthority][1..] == [];
    assert PERSIST_INTENT[1..] == [WriteIntent, MarkPending] && [WriteIntent, MarkPending][1..] == [MarkPending];
    assert [MarkPending][1..] == [];
    assert proving[1..] == [WriteProof(proofId)] && [WriteProof(proofId)][1..] == [];
    DeletionsWellOrdered(order);
    WellOrderedConcat(none, head, PERSIST_INTENT, some);
    LearnAllConcat(none, head, PERSIST_INTENT);
    WellOrderedConcat(none, head + PERSIST_INTENT, Deletions(order), some);
    LearnAllConcat(none, head + PERSIST_INTENT, Deletions(order));
    WellOrderedConcat(none, head + PERSIST_INTENT + Deletions(order), proving, all);
  }

  lemma ActionsWellOrdered(recover: bool, beforeAuthority: bool, order: Order, proofId: Id)
    ensures WellOrdered(Known(false, false, false), Actions(recover, beforeAuthority, order, proofId))
  {
    var none := Known(false, false, false);
    TailWellOrdered(order, proofId);
    var head := if recover then [ValidatePlan] else [ValidatePlan, CheckInventory, InsertConsumption];
    assert [ValidatePlan, CheckInventory, InsertConsumption][1..] == [CheckInventory, InsertConsumption];
    assert [CheckInventory, InsertConsumption][1..] == [InsertConsumption];
    assert [InsertConsumption][1..] == [] && [ValidatePlan][1..] == [];
    WellOrderedConcat(none, head, Tail(order, proofId), none);
  }

  /** One process, crashed anywhere, keeps safety. */
  lemma AttemptIsSafe(w: World, plan: Plan, a: Attempt)
    requires Safe(w, plan)
    ensures Safe(AfterAttempt(w, plan, a), plan)
  {
    ActionsWellOrdered(a.recover, a.beforeAuthority, a.order, a.proofId);
    OrderedActionsAreSafe(Known(false, false, false), Actions(a.recover, a.beforeAuthority, a.order, a.proofId), w,
      plan, a.limit);
  }

  /** Safety of every history: any number of runs and recoveries, in any order, each crashed
      between any two effects. If a store is missing, the intent is recorded as planned and the
      consumed authority is readable; a proof means both stores are gone; the consumption is
      recorded at most once. */
  lemma {:induction false} HistoryIsSafe(w: World, plan: Plan, attempts: seq<Attempt>)
    requires Safe(w, plan) || Untouched(w)
    ensures var v := History(w, plan, attempts);
            && Safe(v, plan)
            && (v.database.None? || v.browser.None? ==> v.intent == Some(plan.intent) && AuthorityReadable(v, plan))
            && (v.proof.Some? ==> v.database.None? && v.browser.None?)
            && (v.database.Some? ==> |v.database.value.consumptions| <= 1)
    decreases |attempts|
  {
    if attempts != [] {
      AttemptIsSafe(w, plan, attempts[0]);
      HistoryIsSafe(AfterAttempt(w, plan, attempts[0]), plan, attempts[1..]);
    }
  }

  // ----- what no later process undoes -----

  /** Stores never come back, external files never change, the inserted row stays. */
  predicate Keeps(w: World, v: World) {
    && (w.database.None? ==> v.database.None?)
    && (w.browser.None? ==> v.browser.None?)
    && (w.browser.Some? && v.browser.Some? ==> v.browser == w.browser)
    && (w.savedAuthority.Some? ==> v.savedAuthority == w.savedAuthority)
    && (w.intent.Some? ==> v.intent == w.intent)
    && (w.proof.Some? ==> v.proof == w.proof)
    && v.sidecars <= w.sidecars
    && (w.database.Some? && v.database.Some? ==>
          v.database.value.tables == w.database.value.tables
            && w.database.value.consumptions <= v.database.value.consumptions)
  }

  predicate SameJournal(w: World, v: World) {
    w.database.Some? && v.database.Some? ==> v.database.value.consumptions == w.database.value.consumptions
  }

  lemma StepKeeps(a: Action, w: World, plan: Plan)
    requires Perform(a, w, plan).Some?
    ensures Keeps(w, Perform(a, w, plan).value)
    ensures a != InsertConsumption ==> SameJournal(w, Perform(a, w, plan).value)
  {
  }

  lemma KeepsCompose(u: World, v: World, w: World)
    requires Keeps(u, v) && Keeps(v, w)
    ensures Keeps(u, w)
    ensures SameJournal(u, v) && SameJournal(v, w) ==> SameJournal(u, w)
  {
  }

  lemma {:induction false} ExecuteKeeps(actions: seq<Action>, w: World, plan: Plan, n: nat)
    ensures Keeps(w, Execute(actions, w, plan, n))
    ensures InsertConsumption !in actions ==> SameJournal(w, Execute(actions, w, plan, n))
    decreases |actions|
  {
    if actions != [] && n > 0 && Perform(actions[0], w, plan).Some? {
      var v := Perform(actions[0], w, plan).value;
      StepKeeps(actions[0], w, plan);
      ExecuteKeeps(actions[1..], v, plan, n - 1);
      KeepsCompose(w, v, Execute(actions[1..], v, plan, n - 1));
      assert InsertConsumption !in actions ==> actions[0] != InsertConsumption && InsertConsumption !in actions[1..];
    }
  }

  lemma TailInsertsNothing(order: Order, proofId: Id)
    ensures InsertConsumption !in Tail(order, proofId)
  {
  }

  /** Recovery never inserts the consumption: whatever the journal held it still holds. */
  lemma RecoveryNeverConsumes(w: World, plan: Plan, a: Attempt)
    requires a.recover
    ensures var v := AfterAttempt(w, plan, a);
            w.database.Some? && v.database.Some? ==> v.database.value.consumptions == w.database.value.consumptions
  {
    TailInsertsNothing(a.order, a.proofId);
    ExecuteKeeps(Actions(a.recover, a.beforeAuthority, a.order, a.proofId), w, plan, a.limit);
  }

  /** Once a proof exists the stores are absent, and both facts last through every history. */
  lemma {:induction false} ProofIsFinal(w: World, plan: Plan, attempts: seq<Attempt>)
    requires Safe(w, plan) && w.proof.Some?
    ensures var v := History(w, plan, attempts);
            v.proof == w.proof && v.database.None? && v.browser.None?
    decreases |attempts|
  {
    if attempts != [] {
      var a := attempts[0];
      AttemptIsSafe(w, plan, a);
      ExecuteKeeps(Actions(a.recover, a.beforeAuthority, a.order, a.proofId), w, plan, a.limit);
      ProofIsFinal(AfterAttempt(w, plan, a), plan, attempts[1..]);
    }
  }

  // ----- convergence -----

  /** The world a completed destruction leaves. */
  function Destroyed(w: World, plan: Plan, proofId: Id): World {
    World(None, w.sidecars - {Journal, Wal, Shm}, None, Some(ConsumptionOf(plan)), Some(plan.intent),
          if w.proof.Some? then w.proof else Some(NewProof(plan, proofId)))
  }

  lemma DeleteStoresCompletes(w: World, plan: Plan, order: Order)
    requires Safe(w, plan) && AuthorityReadable(w, plan) && w.intent == Some(plan.intent)
    ensures Complete(Deletions(order), w, plan) ==
            (w.(database := None, sidecars := w.sidecars - {Journal, Wal, Shm}, browser := None), true)
  {
    CompleteConcat(DELETE_BACKEND, DELETE_EXTENSION, w, plan);
    CompleteConcat(DELETE_EXTENSION, DELETE_BACKEND, w, plan);
    assert DELETE_EXTENSION[1..] == [DeleteBrowser] && [DeleteBrowser][1..] == [];
    BackendDeleted(w, plan);
    BackendDeleted(w.(browser := None), plan);
  }

  lemma IntentCompletes(w: World, plan: Plan)
    requires Safe(w, plan) && AuthorityReadable(w, plan)
    ensures var r := Complete([ValidateConsumed, SaveAuthority] + PERSIST_INTENT, w, plan);
            && r.1 && Safe(r.0, plan) && AuthorityReadable(r.0, plan)
            && r.0.intent == Some(plan.intent) && r.0.savedAuthority == Some(ConsumptionOf(plan))
            && r.0.sidecars == w.sidecars && r.0.browser == w.browser && r.0.proof == w.proof
  {
    var head := [ValidateConsumed, SaveAuthority];
    CompleteConcat(head, PERSIST_INTENT, w, plan);
    assert head[1..] == [SaveAuthority] && [SaveAuthority][1..] == [];
    assert PERSIST_INTENT[1..] == [WriteIntent, MarkPending] && [WriteIntent, MarkPending][1..] == [MarkPending];
    assert [MarkPending][1..] == [];
  }

  lemma TailCompletes(w: World, plan: Plan, order: Order, proofId: Id)
    requires Safe(w, plan) && AuthorityReadable(w, plan)
    ensures Complete(Tail(order, proofId), w, plan) == (Destroyed(w, plan, proofId), true)
  {
    var head := [ValidateConsumed, SaveAuthority];
    var proving := [ValidateExternal, WriteProof(proofId)];
    IntentCompletes(w, plan);
    var persisted := Complete(head + PERSIST_INTENT, w, plan).0;
    DeleteStoresCompletes(persisted, plan, order);
    var deleted := persisted.(database := None, sidecars := persisted.sidecars - {Journal, Wal, Shm}, browser := None);
    CompleteConcat(head + PERSIST_INTENT, Deletions(order), w, plan);
    CompleteConcat(head + PERSIST_INTENT + Deletions(order), proving, w, plan);
    ProvingCompletes(deleted, plan, proofId);
    assert Tail(order, proofId) == head + PERSIST_INTENT + Deletions(order) + proving;
  }

  lemma ProvingCompletes(w: World, plan: Plan, proofId: Id)
    requires Safe(w, plan) && AuthorityReadable(w, plan) && w.intent == Some(plan.intent)
    requires w.database.None? && w.browser.None?
    ensures Complete([ValidateExternal, WriteProof(proofId)], w, plan) ==
            (w.(proof := if w.proof.Some? then w.proof else Some(NewProof(plan, proofId))), true)
  {
    CompletePair(ValidateExternal, WriteProof(proofId), w, plan);
  }

  /** A completed recovery finishes the destruction exactly when the consumption was committed
      (and the case is not the one that stops before authority); otherwise it changes nothing. */
  lemma RecoveryCompletes(w: World, plan: Plan, beforeAuthority: bool, order: Order, proofId: Id)
    requires Safe(w, plan) && plan.valid
    ensures Complete(Actions(true, beforeAuthority, order, proofId), w, plan) ==
            if beforeAuthority then (w, true)
            else if AuthorityReadable(w, plan) then (Destroyed(w, plan, proofId), true)
            else (w, false)
  {
    StepOfActions(true, beforeAuthority, order, proofId, w, plan);
    if AuthorityReadable(w, plan) {
      TailCompletes(w, plan, order, proofId);
    } else {
      assert Tail(order, proofId)[0] == ValidateConsumed;
    }
  }

  /** Before the consumption is committed no recovery, crashed or not, changes anything. */
  lemma UncommittedRecoveryIsIdle(w: World, plan: Plan, a: Attempt)
    requires Safe(w, plan) && !AuthorityReadable(w, plan) && a.recover
    ensures AfterAttempt(w, plan, a) == w
  {
    var actions := Actions(true, a.beforeAuthority, a.order, a.proofId);
    assert actions[0] == ValidatePlan;
    if !a.beforeAuthority {
      assert actions[1..] == Tail(a.order, a.proofId);
      assert Tail(a.order, a.proofId)[0] == ValidateConsumed;
      if a.limit > 0 && plan.valid {
        assert Execute(actions, w, plan, a.limit) == Execute(Tail(a.order, a.proofId), w, plan, a.limit - 1);
      }
    } else {
      assert [ValidatePlan][1..] == [];
    }
  }

  lemma {:induction false} CrashedRecoveriesKeepAuthority(w: World, plan: Plan, attempts: seq<Attempt>)
    requires Safe(w, plan) && AuthorityReadable(w, plan)
    ensures var v := History(w, plan, attempts);
            Safe(v, plan) && AuthorityReadable(v, plan) && Keeps(w, v)
    decreases |attempts|
  {
    if attempts != [] {
      var a := attempts[0];
      var v := AfterAttempt(w, plan, a);
      AttemptIsSafe(w, plan, a);
      ExecuteKeeps(Actions(a.recover, a.beforeAuthority, a.order, a.proofId), w, plan, a.limit);
      CrashedRecoveriesKeepAuthority(v, plan, attempts[1..]);
    }
  }

  /** Convergence: from every crash state after the consumption commit, any crashed processes
      and then one completed recovery, in either deletion order, end in the same world: both
      stores and all sidecars gone, authority, intent and a proof in place. Two such endings
      differ at most in the random id of the proof. */
  lemma RecoveryConverges(
      w: World, plan: Plan, crashed1: seq<Attempt>, order1: Order, id1: Id,
      crashed2: seq<Attempt>, order2: Order, id2: Id)
    requires Safe(w, plan) && AuthorityReadable(w, plan) && plan.valid
    ensures var r1 := Complete(Actions(true, false, order1, id1), History(w, plan, crashed1), plan);
            var r2 := Complete(Actions(true, false, order2, id2), History(w, plan, crashed2), plan);
            && r1.1 && r2.1
            && r1.0.database.None? && r1.0.browser.None? && r1.0.sidecars == {}
            && r1.0.intent == Some(plan.intent) && r1.0.savedAuthority == Some(ConsumptionOf(plan))
            && r1.0.proof.Some? && r2.0.proof.Some?
            && r1.0.(proof := r2.0.proof) == r2.0
            && r1.0.proof.value.(proofId := r2.0.proof.value.proofId) == r2.0.proof.value
  {
    CrashedRecoveriesKeepAuthority(w, plan, crashed1);
    CrashedRecoveriesKeepAuthority(w, plan, crashed2);
    RecoveryCompletes(History(w, plan, crashed1), plan, false, order1, id1);
    RecoveryCompletes(History(w, plan, crashed2), plan, false, order2, id2);
    AllSidecarsGone(History(w, plan, crashed1).sidecars);
    AllSidecarsGone(History(w, plan, crashed2).sidecars);
  }

  lemma AllSidecarsGone(s: set<Sidecar>)
    ensures s - {Journal, Wal, Shm} == {}
  {
    forall x | x in s
      ensures x in {Journal, Wal, Shm}
    {
      match x
      case Journal =>
      case Wal =>
      case Shm =>
    }
  }

  /** The uninterrupted run of an untouched case whose inventory is the captured one destroys
      it in one go. */
  lemma UninterruptedRunDestroys(w: World, plan: Plan, order: Order, proofId: Id)
    requires Untouched(w) && plan.valid && Inventory(w.browser, w.database) == plan.inventory
    ensures Complete(Actions(false, false, order, proofId), w, plan) == (Destroyed(w, plan, proofId), true)
  {
    StepOfActions(false, false, order, proofId, w, plan);
    var inserted := Complete([InsertConsumption], w, plan);
    assert [InsertConsumption][1..] == [];
    assert [] + [ConsumptionOf(plan)] == [ConsumptionOf(plan)];
    TailCompletes(inserted.0, plan, order, proofId);
  }
}
