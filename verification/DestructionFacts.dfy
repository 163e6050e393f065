/** Whole-run destruction in columns: the run status over every history, and what a completed
    process needs of any world and leaves in it. */
module DestructionFacts {
  import opened Prelude
  import opened Destruction
  import opened DestructionLaws

  // ----- the run status -----

  /** Without an intent the run is closed, without a browser store its destruction is pending. */
  predicate StatusFits(w: World) {
    w.database.Some? ==>
      && w.database.value.runStatus in {"CLOSED", "DESTRUCTION_PENDING"}
      && (w.intent == None ==> w.database.value.runStatus == "CLOSED")
      && (w.browser == None ==> w.database.value.runStatus == "DESTRUCTION_PENDING")
  }

  predicate IsPending(w: World) {
    w.database.Some? ==> w.database.value.runStatus == "DESTRUCTION_PENDING"
  }

  /** The intent is written before the run is marked, and marked before the browser store goes. */
  predicate MarksInOrder(actions: seq<Action>, written: bool, marked: bool)
    decreases |actions|
  {
    actions == [] ||
    (match actions[0]
     case WriteIntent => MarksInOrder(actions[1..], true, marked)
     case MarkPending => written && MarksInOrder(actions[1..], written, true)
     case DeleteBrowser => marked && MarksInOrder(actions[1..], written, marked)
     case _ => MarksInOrder(actions[1..], written, marked))
  }

  lemma {:induction false} MarkingKeepsStatus(
      actions: seq<Action>, w: World, plan: Plan, n: nat, written: bool, marked: bool)
    requires MarksInOrder(actions, written, marked) && StatusFits(w)
    requires (written ==> w.intent != None) && (marked ==> IsPending(w))
    ensures StatusFits(Execute(actions, w, plan, n))
    decreases |actions|
  {
    if actions != [] && n > 0 && Perform(actions[0], w, plan).Some? {
      var a, v := actions[0], Perform(actions[0], w, plan).value;
      MarkingKeepsStatus(actions[1..], v, plan, n - 1, written || a == WriteIntent, marked || a == MarkPending);
    }
  }

  lemma {:induction false} MarksAfterPrefix(a: seq<Action>, b: seq<Action>, written: bool, marked: bool)
    requires forall x :: x in a ==> !x.WriteIntent? && !x.MarkPending? && !x.DeleteBrowser?
    requires MarksInOrder(b, written, marked)
    ensures MarksInOrder(a + b, written, marked)
    decreases |a|
  {
    if a == [] {
      assert a + b == b;
    } else {
      assert a[0] in a;
      assert (a + b)[0] == a[0] && (a + b)[1..] == a[1..] + b;
      MarksAfterPrefix(a[1..], b, written, marked);
    }
  }

  lemma {:induction false} MarkedActionsMark(actions: seq<Action>)
    requires forall x :: x in actions ==> !x.WriteIntent? && !x.MarkPending?
    ensures MarksInOrder(actions, true, true)
    decreases |actions|
  {
    if actions != [] {
      assert actions[0] in actions;
      MarkedActionsMark(actions[1..]);
    }
  }

  lemma ActionsMark(recover: bool, beforeAuthority: bool, order: Order, proofId: Id)
    ensures MarksInOrder(Actions(recover, beforeAuthority, order, proofId), false, false)
  {
    var rest := Deletions(order) + [ValidateExternal, WriteProof(proofId)];
    var marks := [WriteIntent, MarkPending] + rest;
    MarkedActionsMark(rest);
    assert marks[1..] == [MarkPending] + rest && ([MarkPending] + rest)[1..] == rest;
    assert MarksInOrder(marks, false, false);
    var head := [ValidateConsumed, SaveAuthority, ValidateConsumed];
    assert Tail(order, proofId) == head + marks;
    MarksAfterPrefix(head, marks, false, false);
    MarksAfterPrefix([ValidatePlan, CheckInventory, InsertConsumption], Tail(order, proofId), false, false);
    MarksAfterPrefix([ValidatePlan], Tail(order, proofId), false, false);
    MarksAfterPrefix([ValidatePlan], [], false, false);
    assert [ValidatePlan] + [] == [ValidatePlan];
  }

  lemma {:induction false} StatusStays(w: World, plan: Plan, attempts: seq<Attempt>)
    requires StatusFits(w)
    ensures StatusFits(History(w, plan, attempts))
    decreases |attempts|
  {
    if attempts != [] {
      var a := attempts[0];
      ActionsMark(a.recover, a.beforeAuthority, a.order, a.proofId);
      MarkingKeepsStatus(Actions(a.recover, a.beforeAuthority, a.order, a.proofId), w, plan, a.limit, false, false);
      StatusStays(AfterAttempt(w, plan, a), plan, attempts[1..]);
    }
  }

  /** Over every history of a closed, untouched case: while the database is there the run is
      closed or pending destruction, closed as long as no intent is written, and pending by the
      time the browser store is gone. */
  lemma StatusOverHistory(w: World, plan: Plan, attempts: seq<Attempt>)
    requires Untouched(w) && w.database.value.runStatus == "CLOSED"
    ensures var v := History(w, plan, attempts);
            v.database.Some? ==>
              && v.database.value.runStatus in {"CLOSED", "DESTRUCTION_PENDING"}
              && (v.intent == None ==> v.database.value.runStatus == "CLOSED")
              && (v.browser == None ==> v.database.value.runStatus == "DESTRUCTION_PENDING")
  {
    StatusStays(w, plan, attempts);
  }

  // ----- the torn window -----

  /** The status the evidence check demands of every snapshot. */
  predicate StatusFollowsIntent(w: World) {
    w.database.Some? ==>
      w.database.value.runStatus == if w.intent == None then "CLOSED" else "DESTRUCTION_PENDING"
  }

  /** The process stops between writing the intent and marking the run. */
  predicate StopsInWindow(a: Attempt) {
    !(a.recover && a.beforeAuthority) && a.limit == if a.recover then 5 else 7
  }

  predicate CutsWindow(actions: seq<Action>, n: nat) {
    0 < n < |actions| && actions[n - 1].WriteIntent?
  }

  /** Every intent is followed by the mark, and marks occur only there. */
  predicate MarksAtOnce(actions: seq<Action>)
    decreases |actions|
  {
    actions == [] ||
    (match actions[0]
     case WriteIntent => |actions| > 1 && actions[1] == MarkPending && MarksAtOnce(actions[2..])
     case MarkPending => false
     case _ => MarksAtOnce(actions[1..]))
  }

  lemma {:induction false} UncutActionsFollowIntent(actions: seq<Action>, w: World, plan: Plan, n: nat)
    requires MarksAtOnce(actions) && StatusFollowsIntent(w) && !CutsWindow(actions, n)
    ensures StatusFollowsIntent(Execute(actions, w, plan, n))
    decreases |actions|
  {
    if actions != [] && n > 0 && Perform(actions[0], w, plan).Some? {
      var v := Perform(actions[0], w, plan).value;
      if actions[0] == WriteIntent {
        var u := Perform(MarkPending, v, plan).value;
        assert actions[1..][0] == MarkPending && actions[1..][1..] == actions[2..];
        assert n >= 2;
        assert Execute(actions, w, plan, n) == Execute(actions[1..], v, plan, n - 1);
        assert Execute(actions[1..], v, plan, n - 1) == Execute(actions[2..], u, plan, n - 2);
        UncutActionsFollowIntent(actions[2..], u, plan, n - 2);
      } else {
        UncutActionsFollowIntent(actions[1..], v, plan, n - 1);
      }
    }
  }

  lemma {:induction false} AtOnceAfterPrefix(a: seq<Action>, b: seq<Action>)
    requires forall x :: x in a ==> !x.WriteIntent? && !x.MarkPending?
    requires MarksAtOnce(b)
    ensures MarksAtOnce(a + b)
    decreases |a|
  {
    if a == [] {
      assert a + b == b;
    } else {
      assert a[0] in a;
      assert (a + b)[0] == a[0] && (a + b)[1..] == a[1..] + b;
      AtOnceAfterPrefix(a[1..], b);
    }
  }

  lemma ActionsMarkAtOnce(recover: bool, beforeAuthority: bool, order: Order, proofId: Id)
    ensures MarksAtOnce(Actions(recover, beforeAuthority, order, proofId))
  {
    var rest := Deletions(order) + [ValidateExternal, WriteProof(proofId)];
    var marks := [WriteIntent, MarkPending] + rest;
    AtOnceAfterPrefix(rest, []);
    assert rest + [] == rest && marks[2..] == rest;
    var head := [ValidateConsumed, SaveAuthority, ValidateConsumed];
    assert Tail(order, proofId) == head + marks;
    AtOnceAfterPrefix(head, marks);
    AtOnceAfterPrefix([ValidatePlan, CheckInventory, InsertConsumption], Tail(order, proofId));
    AtOnceAfterPrefix([ValidatePlan], Tail(order, proofId));
    AtOnceAfterPrefix([ValidatePlan], []);
    assert [ValidatePlan] + [] == [ValidatePlan];
  }

  /** The one place where an intent is written. */
  lemma IntentPosition(recover: bool, beforeAuthority: bool, order: Order, proofId: Id, n: nat)
    requires CutsWindow(Actions(recover, beforeAuthority, order, proofId), n)
    ensures !(recover && beforeAuthority) && n == if recover then 5 else 7
  {
    var actions := Actions(recover, beforeAuthority, order, proofId);
    var rest := Deletions(order) + [ValidateExternal, WriteProof(proofId)];
    assert forall x :: x in rest ==> !x.WriteIntent?;
    var head := if recover then [ValidatePlan] else [ValidatePlan, CheckInventory, InsertConsumption];
    if !(recover && beforeAuthority) {
      var front := head + [ValidateConsumed, SaveAuthority, ValidateConsumed, WriteIntent, MarkPending];
      assert actions == front + rest;
      forall m | |front| <= m < |actions|
        ensures !actions[m].WriteIntent?
      {
        assert actions[m] == rest[m - |front|];
      }
    }
  }

  /** The status the evidence check demands holds after every history whose processes never stop
      between writing the intent and marking the run. */
  lemma {:induction false} StatusFollowsIntentOutsideWindow(w: World, plan: Plan, attempts: seq<Attempt>)
    requires StatusFollowsIntent(w)
    requires forall a :: a in attempts ==> !StopsInWindow(a)
    ensures StatusFollowsIntent(History(w, plan, attempts))
    decreases |attempts|
  {
    if attempts != [] {
      var a := attempts[0];
      var actions := Actions(a.recover, a.beforeAuthority, a.order, a.proofId);
      assert a in attempts;
      ActionsMarkAtOnce(a.recover, a.beforeAuthority, a.order, a.proofId);
      if CutsWindow(actions, a.limit) {
        IntentPosition(a.recover, a.beforeAuthority, a.order, a.proofId, a.limit);
      }
      UncutActionsFollowIntent(actions, w, plan, a.limit);
      StatusFollowsIntentOutsideWindow(AfterAttempt(w, plan, a), plan, attempts[1..]);
    }
  }

  /** And it does not hold in the window: a first process of a valid, captured case that stops
      there leaves the intent beside a closed run. */
  lemma WindowLeavesClosedRun(w: World, plan: Plan, order: Order, proofId: Id)
    requires Untouched(w) && w.database.value.runStatus == "CLOSED"
    requires plan.valid && Inventory(w.browser, w.database) == plan.inventory
    ensures var v := AfterAttempt(w, plan, Attempt(false, false, order, 7, proofId));
            v.intent == Some(plan.intent) && v.database.Some? && v.database.value.runStatus == "CLOSED"
            && !StatusFollowsIntent(v)
  {
    var rest := [MarkPending] + Deletions(order) + [ValidateExternal, WriteProof(proofId)];
    var front := [ValidatePlan, CheckInventory] + ([InsertConsumption] + ([ValidateConsumed, SaveAuthority]
                                                                          + [ValidateConsumed, WriteIntent]));
    assert Actions(false, false, order, proofId) == front + rest;
    WindowReached(w, plan);
    ExecutePrefix(front, rest, w, plan);
  }

  lemma WindowReached(w: World, plan: Plan)
    requires Untouched(w) && w.database.value.runStatus == "CLOSED"
    requires plan.valid && Inventory(w.browser, w.database) == plan.inventory
    ensures var front := [ValidatePlan, CheckInventory] + ([InsertConsumption] + ([ValidateConsumed, SaveAuthority]
                                                                                 + [ValidateConsumed, WriteIntent]));
            var done := Complete(front, w, plan);
            && done.1 && done.0.intent == Some(plan.intent)
            && done.0.database.Some? && done.0.database.value.runStatus == "CLOSED"
  {
    hide Complete, Perform;
    var row := PlannedRow(plan);
    var checks, saves, writes :=
      [ValidatePlan, CheckInventory], [ValidateConsumed, SaveAuthority], [ValidateConsumed, WriteIntent];
    var inserted := w.(database := Some(w.database.value.(consumptions := w.database.value.consumptions + [row])));
    AppendedIsAlone(w.database.value.consumptions, row);
    ChecksPass(w, plan);
    CompleteConcat(checks, [InsertConsumption] + (saves + writes), w, plan);
    CompleteConcat([InsertConsumption], saves + writes, w, plan);
    CompleteConcat(saves, writes, inserted, plan);
    InsertExact(w, plan);
    SaveStageExact(inserted, plan);
    IntentIsWritten(inserted.(savedAuthority := Some(row)), plan);
  }

  lemma ChecksPass(w: World, plan: Plan)
    requires plan.valid && Inventory(w.browser, w.database) == plan.inventory
    ensures Complete([ValidatePlan, CheckInventory], w, plan) == (w, true)
  {
    CompletePair(ValidatePlan, CheckInventory, w, plan);
  }

  lemma IntentIsWritten(w: World, plan: Plan)
    requires Authorized(w, plan) && w.intent == None
    ensures Complete([ValidateConsumed, WriteIntent], w, plan) == (w.(intent := Some(plan.intent)), true)
  {
    CompletePair(ValidateConsumed, WriteIntent, w, plan);
  }

  lemma {:induction false} ExecutePrefix(a: seq<Action>, b: seq<Action>, w: World, plan: Plan)
    requires Complete(a, w, plan).1
    ensures Execute(a + b, w, plan, |a|) == Complete(a, w, plan).0
    decreases |a|
  {
    if a != [] {
      assert (a + b)[0] == a[0] && (a + b)[1..] == a[1..] + b;
      ExecutePrefix(a[1..], b, Perform(a[0], w, plan).value, plan);
    }
  }

  /** No process ever touches another status: a run that is neither closed nor pending keeps its
      status, and pending is never taken back. */
  lemma {:induction false} OnlyClosedRunsAreMarked(actions: seq<Action>, w: World, plan: Plan, n: nat)
    ensures var v := Execute(actions, w, plan, n);
            w.database.Some? && v.database.Some? ==>
              || v.database.value.runStatus == w.database.value.runStatus
              || (w.database.value.runStatus == "CLOSED" && v.database.value.runStatus == "DESTRUCTION_PENDING")
    decreases |actions|
  {
    if actions != [] && n > 0 && Perform(actions[0], w, plan).Some? {
      var v := Perform(actions[0], w, plan).value;
      OnlyClosedRunsAreMarked(actions[1..], v, plan, n - 1);
      StepKeeps(actions[0], w, plan);
      ExecuteKeeps(actions[1..], v, plan, n - 1);
    }
  }

  // ----- which store goes first -----

  /** With the backend first the browser store outlives the database, with the extension first
      the database outlives the browser store. */
  predicate Outlives(order: Order, w: World) {
    match order
    case BackendFirst => w.browser == None ==> w.database == None
    case ExtensionFirst => w.database == None ==> w.browser == None
  }

  predicate FirstIsGone(order: Order, w: World) {
    if order == BackendFirst then w.database == None else w.browser == None
  }

  /** The store that goes second is deleted only after the one that goes first. */
  predicate InStoreOrder(order: Order, actions: seq<Action>, gone: bool)
    decreases |actions|
  {
    actions == [] ||
    (var a := actions[0];
     var first := if order == BackendFirst then a == UnlinkDatabase else a == DeleteBrowser;
     var second := if order == BackendFirst then a == DeleteBrowser else a == UnlinkDatabase;
     (second ==> gone) && InStoreOrder(order, actions[1..], gone || first))
  }

  lemma {:induction false} OrderedDeletions(
      order: Order, actions: seq<Action>, w: World, plan: Plan, n: nat, gone: bool)
    requires InStoreOrder(order, actions, gone) && Outlives(order, w) && (gone ==> FirstIsGone(order, w))
    ensures Outlives(order, Execute(actions, w, plan, n))
    decreases |actions|
  {
    if actions != [] && n > 0 && Perform(actions[0], w, plan).Some? {
      var a, v := actions[0], Perform(actions[0], w, plan).value;
      var first := if order == BackendFirst then a == UnlinkDatabase else a == DeleteBrowser;
      OrderedDeletions(order, actions[1..], v, plan, n - 1, gone || first);
    }
  }

  lemma {:induction false} QuietActionsInOrder(order: Order, a: seq<Action>, b: seq<Action>, gone: bool)
    requires forall x :: x in a ==> !x.UnlinkDatabase? && !x.DeleteBrowser?
    requires InStoreOrder(order, b, gone)
    ensures InStoreOrder(order, a + b, gone)
    decreases |a|
  {
    if a == [] {
      assert a + b == b;
    } else {
      assert a[0] in a;
      assert (a + b)[0] == a[0] && (a + b)[1..] == a[1..] + b;
      QuietActionsInOrder(order, a[1..], b, gone);
    }
  }

  lemma ActionsInStoreOrder(recover: bool, beforeAuthority: bool, order: Order, proofId: Id)
    ensures InStoreOrder(order, Actions(recover, beforeAuthority, order, proofId), false)
  {
    var proving := [ValidateExternal, WriteProof(proofId)];
    var sidecars := [UnlinkSidecar(Journal), UnlinkSidecar(Wal), UnlinkSidecar(Shm)];
    QuietActionsInOrder(order, proving, [], true);
    assert proving + [] == proving;
    if order == BackendFirst {
      StoreThenRest(order, DeleteBrowser, proving, true);
      QuietActionsInOrder(order, sidecars + [ValidateExternal], [DeleteBrowser] + proving, true);
      StoreThenRest(order, UnlinkDatabase, sidecars + [ValidateExternal] + ([DeleteBrowser] + proving), false);
      assert Deletions(order) + proving ==
             [ValidateExternal] + ([UnlinkDatabase] + (sidecars + [ValidateExternal] + ([DeleteBrowser] + proving)));
    } else {
      QuietActionsInOrder(order, sidecars, proving, true);
      StoreThenRest(order, UnlinkDatabase, sidecars + proving, true);
      QuietActionsInOrder(order, [ValidateExternal], [UnlinkDatabase] + (sidecars + proving), true);
      StoreThenRest(order, DeleteBrowser, [ValidateExternal] + ([UnlinkDatabase] + (sidecars + proving)), false);
      assert Deletions(order) + proving ==
             [ValidateExternal] + ([DeleteBrowser] + ([ValidateExternal] + ([UnlinkDatabase] + (sidecars + proving))));
    }
    FrontInStoreOrder(recover, beforeAuthority, order, proofId, (Deletions(order) + proving)[1..]);
  }

  lemma StoreThenRest(order: Order, a: Action, rest: seq<Action>, gone: bool)
    requires a == UnlinkDatabase || a == DeleteBrowser
    requires (order == BackendFirst) == (a == UnlinkDatabase) || gone
    requires InStoreOrder(order, rest, true)
    ensures InStoreOrder(order, [a] + rest, gone)
  {
    assert ([a] + rest)[0] == a && ([a] + rest)[1..] == rest;
  }

  lemma FrontInStoreOrder(recover: bool, beforeAuthority: bool, order: Order, proofId: Id, rest: seq<Action>)
    requires Deletions(order) + [ValidateExternal, WriteProof(proofId)] == [ValidateExternal] + rest
    requires InStoreOrder(order, rest, false)
    ensures InStoreOrder(order, Actions(recover, beforeAuthority, order, proofId), false)
  {
    var front := [ValidateConsumed, SaveAuthority, ValidateConsumed, WriteIntent, MarkPending];
    var head := front + [ValidateExternal];
    assert Tail(order, proofId) == front + (Deletions(order) + [ValidateExternal, WriteProof(proofId)]);
    assert Tail(order, proofId) == head + rest;
    QuietActionsInOrder(order, head, rest, false);
    QuietActionsInOrder(order, [ValidatePlan, CheckInventory, InsertConsumption], Tail(order, proofId), false);
    QuietActionsInOrder(order, [ValidatePlan], Tail(order, proofId), false);
    QuietActionsInOrder(order, [ValidatePlan], [], false);
    assert [ValidatePlan] + [] == [ValidatePlan];
  }

  /** Over every history of processes that delete in one order, crashed anywhere, the second store
      never goes before the first. */
  lemma {:induction false} StoresGoInOrder(w: World, plan: Plan, attempts: seq<Attempt>, order: Order)
    requires Outlives(order, w) && forall a :: a in attempts ==> a.order == order
    ensures Outlives(order, History(w, plan, attempts))
    decreases |attempts|
  {
    if attempts != [] {
      var a := attempts[0];
      assert a in attempts;
      ActionsInStoreOrder(a.recover, a.beforeAuthority, order, a.proofId);
      OrderedDeletions(order, Actions(a.recover, a.beforeAuthority, order, a.proofId), w, plan, a.limit, false);
      StoresGoInOrder(AfterAttempt(w, plan, a), plan, attempts[1..], order);
    }
  }

  // ----- completed processes, from any world -----

  /** The row the plan's consumption is. */
  function PlannedRow(plan: Plan): Consumption {
    Consumption(plan.intent.consumptionId, plan.runId, plan.intent.receiptId, plan.intent.intentId,
                plan.intent.contentHash, plan.intent.inventoryHash)
  }

  /** The journal holds exactly the planned row; without a database the saved copy is it. */
  predicate Authorized(w: World, plan: Plan) {
    if w.database == None then w.savedAuthority == Some(PlannedRow(plan))
    else w.database.value.consumptions == [PlannedRow(plan)]
  }

  predicate Fits<T(==)>(file: Option<T>, value: T) {
    file == None || file == Some(value)
  }

  /** Any proof of the planned deletion of this run. */
  predicate ProvesPlan(proof: Proof, plan: Plan) {
    proof == Proof(proof.proofId, plan.runId, plan.intent.intentId, "DELETED", "DELETED", "COMPLETE_LOGICAL_DELETION")
  }

  /** The intent stage, from any world: it needs the authority and an absent or equal intent; it
      leaves the intent, marks exactly a closed run and changes nothing else. */
  lemma IntentStageExact(w: World, plan: Plan)
    ensures Complete(PERSIST_INTENT, w, plan).1 <==> Authorized(w, plan) && Fits(w.intent, plan.intent)
    ensures Complete(PERSIST_INTENT, w, plan).1 ==>
              Complete(PERSIST_INTENT, w, plan).0 ==
              World(if w.database == None then None
                    else Some(Database(w.database.value.tables, w.database.value.consumptions,
                                       if w.database.value.runStatus == "CLOSED" then "DESTRUCTION_PENDING"
                                       else w.database.value.runStatus)),
                    w.sidecars, w.browser, w.savedAuthority, Some(plan.intent), w.proof)
    ensures !Complete(PERSIST_INTENT, w, plan).1 ==> Complete(PERSIST_INTENT, w, plan).0 == w
  {
    assert PERSIST_INTENT[1..] == [WriteIntent, MarkPending] && [WriteIntent, MarkPending][1..] == [MarkPending];
    assert [MarkPending][1..] == [];
  }

  lemma SaveStageExact(w: World, plan: Plan)
    ensures Complete([ValidateConsumed, SaveAuthority], w, plan) ==
            if Authorized(w, plan) && Fits(w.savedAuthority, PlannedRow(plan))
            then (w.(savedAuthority := Some(PlannedRow(plan))), true) else (w, false)
  {
    CompletePair(ValidateConsumed, SaveAuthority, w, plan);
  }

  lemma ProofStageExact(w: World, plan: Plan, proofId: Id)
    requires Authorized(w, plan) && w.intent == Some(plan.intent) && w.database == None && w.browser == None
    ensures Complete([ValidateExternal, WriteProof(proofId)], w, plan) ==
            if w.proof == None
            then (w.(proof := Some(Proof(proofId, plan.runId, plan.intent.intentId, "DELETED", "DELETED",
                                         "COMPLETE_LOGICAL_DELETION"))), true)
            else (w, ProvesPlan(w.proof.value, plan))
  {
    CompletePair(ValidateExternal, WriteProof(proofId), w, plan);
  }

  lemma StoresGo(w: World, plan: Plan, order: Order)
    requires Authorized(w, plan) && w.intent == Some(plan.intent) && w.savedAuthority == Some(PlannedRow(plan))
    ensures Complete(Deletions(order), w, plan) == (World(None, {}, None, w.savedAuthority, w.intent, w.proof), true)
  {
    CompleteConcat(DELETE_BACKEND, DELETE_EXTENSION, w, plan);
    CompleteConcat(DELETE_EXTENSION, DELETE_BACKEND, w, plan);
    assert DELETE_EXTENSION[1..] == [DeleteBrowser] && [DeleteBrowser][1..] == [];
    BackendDeleted(w, plan);
    BackendDeleted(w.(browser := None), plan);
    AllSidecarsGone(w.sidecars);
  }

  /** The common tail of every process, from any world at all: which worlds it completes in, and
      the world it leaves then or at the stage that fails. */
  lemma TailExact(w: World, plan: Plan, order: Order, proofId: Id)
    ensures var row := PlannedRow(plan);
            var proof := Proof(proofId, plan.runId, plan.intent.intentId, "DELETED", "DELETED",
                               "COMPLETE_LOGICAL_DELETION");
            Complete(Tail(order, proofId), w, plan) ==
            if !Authorized(w, plan) || !Fits(w.savedAuthority, row) then (w, false)
            else if !Fits(w.intent, plan.intent) then (w.(savedAuthority := Some(row)), false)
            else if w.proof == None then (World(None, {}, None, Some(row), Some(plan.intent), Some(proof)), true)
            else (World(None, {}, None, Some(row), Some(plan.intent), w.proof), ProvesPlan(w.proof.value, plan))
  {
    hide Authorized, ProvesPlan, Complete, Perform, Deletions;
    var row := PlannedRow(plan);
    var head := [ValidateConsumed, SaveAuthority];
    var proving := [ValidateExternal, WriteProof(proofId)];
    CompleteConcat(head + PERSIST_INTENT + Deletions(order), proving, w, plan);
    CompleteConcat(head + PERSIST_INTENT, Deletions(order), w, plan);
    CompleteConcat(head, PERSIST_INTENT, w, plan);
    SaveStageExact(w, plan);
    if Authorized(w, plan) && Fits(w.savedAuthority, row) {
      var saved := w.(savedAuthority := Some(row));
      SavingKeepsAuthority(w, saved, plan);
      IntentStageExact(saved, plan);
      if Fits(w.intent, plan.intent) {
        var marked := Complete(PERSIST_INTENT, saved, plan).0;
        SavingKeepsAuthority(w, marked, plan);
        StoresGo(marked, plan, order);
        var gone := World(None, {}, None, Some(row), Some(plan.intent), w.proof);
        SavingKeepsAuthority(w, gone, plan);
        ProofStageExact(gone, plan, proofId);
      }
    }
  }

  lemma SavingKeepsAuthority(w: World, v: World, plan: Plan)
    requires Authorized(w, plan) && v.savedAuthority == Some(PlannedRow(plan))
    requires v.database != None ==> w.database != None && v.database.value.consumptions == w.database.value.consumptions
    ensures Authorized(v, plan)
  {
  }

  /** A first process completes exactly on a valid plan over the captured inventory, when the
      journal is there, has no row under the planned key and holds nothing else, and no external
      file says otherwise; it then leaves nothing but authority, intent and proof. */
  lemma FirstRunExact(w: World, plan: Plan, order: Order, proofId: Id)
    ensures Complete(Actions(false, false, order, proofId), w, plan).1 <==>
            && plan.valid && plan.inventory == Inventory(w.browser, w.database)
            && w.database != None && w.database.value.consumptions == []
            && Fits(w.savedAuthority, PlannedRow(plan)) && Fits(w.intent, plan.intent)
            && (w.proof != None ==> ProvesPlan(w.proof.value, plan))
    ensures Complete(Actions(false, false, order, proofId), w, plan).1 ==>
              Complete(Actions(false, false, order, proofId), w, plan).0 ==
              World(None, {}, None, Some(PlannedRow(plan)), Some(plan.intent),
                    if w.proof != None then w.proof
                    else Some(Proof(proofId, plan.runId, plan.intent.intentId, "DELETED", "DELETED",
                                    "COMPLETE_LOGICAL_DELETION")))
  {
    hide Tail;
    StepOfActions(false, false, order, proofId, w, plan);
    InsertExact(w, plan);
    if w.database != None {
      var db := w.database.value;
      var inserted := w.(database := Some(db.(consumptions := db.consumptions + [PlannedRow(plan)])));
      TailExact(inserted, plan, order, proofId);
      AppendedIsAlone(db.consumptions, PlannedRow(plan));
    }
  }

  lemma AppendedIsAlone<T>(s: seq<T>, x: T)
    ensures s + [x] == [x] <==> s == []
  {
    if s + [x] == [x] {
      assert |s + [x]| == 1;
    }
  }

  /** The insert needs the database and a free key, and appends the planned row. */
  lemma InsertExact(w: World, plan: Plan)
    ensures Complete([InsertConsumption], w, plan) ==
            if w.database == None || (exists i :: 0 <= i < |w.database.value.consumptions|
                                        && w.database.value.consumptions[i].consumptionId == plan.intent.consumptionId)
            then (w, false)
            else (w.(database := Some(w.database.value.(
                       consumptions := w.database.value.consumptions + [PlannedRow(plan)]))), true)
  {
    assert [InsertConsumption][1..] == [];
  }
}
