/** Review launch in columns: which attempts of a history are granted, and which requests of a
    run are executed. */
module ReviewFacts {
  import opened Prelude
  import opened Review
  import opened ReviewLaws

  // ----- the ledger -----

  /** Trust epochs under the last change of the issuer. */
  function EpochsAfter(epochs: map<Id, int>, events: seq<Event>): map<Id, int> {
    if events == [] then epochs
    else if events[|events| - 1].Administer? then events[|events| - 1].epochs
    else EpochsAfter(epochs, events[..|events| - 1])
  }

  /** Revocations under the last change of the issuer. */
  function RevokedAfter(revoked: set<Id>, events: seq<Event>): set<Id> {
    if events == [] then revoked
    else if events[|events| - 1].Administer? then events[|events| - 1].revoked
    else RevokedAfter(revoked, events[..|events| - 1])
  }

  /** Event i is an attempt under the trust epoch of its key at that time, with an authorization
      not revoked then, and with a serial that nobody used before, to consume it, or that
      somebody did, to execute. */
  predicate GrantedAt(ledger: Ledger, events: seq<Event>, i: nat)
    requires i < |events|
    decreases i, 1
  {
    && events[i].Try?
    && (var a, epochs := events[i].authorization, EpochsAfter(ledger.epochs, events[..i]);
        && a.issuerKeyId in epochs && epochs[a.issuerKeyId] == a.trustEpoch
        && a.authorizationId !in RevokedAfter(ledger.revoked, events[..i])
        && (events[i].consume <==> !UsedBefore(ledger, events, i, Serial(a.issuerKeyId, a.serial))))
  }

  /** The serial was used at the start, or an attempt before event i was granted to consume it. */
  predicate UsedBefore(ledger: Ledger, events: seq<Event>, i: nat, serial: Serial)
    requires i <= |events|
    decreases i, 0
  {
    || serial in ledger.consumed
    || exists j :: 0 <= j < i && GrantedAt(ledger, events, j) && events[j].consume
                   && serial == Serial(events[j].authorization.issuerKeyId, events[j].authorization.serial)
  }

  lemma {:induction false} EventsSnoc(ledger: Ledger, events: seq<Event>)
    requires events != []
    ensures AfterEvents(ledger, events)
            == AfterEvent(AfterEvents(ledger, events[..|events| - 1]), events[|events| - 1])
    decreases |events|
  {
    if |events| > 1 {
      EventsSnoc(AfterEvent(ledger, events[0]), events[1..]);
      assert events[1..][..|events| - 2] == events[..|events| - 1][1..];
    } else {
      assert events[1..] == [] && events[..0] == [];
    }
  }

  /** Over every history: the ledger before event i holds the epochs and revocations of the last
      change, and the serials used before; and the attempt at i is granted exactly as those say. */
  lemma {:induction false} GrantsOverHistory(ledger: Ledger, events: seq<Event>, i: nat)
    requires i <= |events|
    ensures var at := AfterEvents(ledger, events[..i]);
            && at.epochs == EpochsAfter(ledger.epochs, events[..i])
            && at.revoked == RevokedAfter(ledger.revoked, events[..i])
            && (forall s :: s in at.consumed <==> UsedBefore(ledger, events, i, s))
            && (i < |events| && events[i].Try? ==>
                  (Grants(at, events[i].authorization, events[i].consume) <==> GrantedAt(ledger, events, i)))
    decreases i
  {
    if i > 0 {
      GrantsOverHistory(ledger, events, i - 1);
      var prior := AfterEvents(ledger, events[..i - 1]);
      EventsSnoc(ledger, events[..i]);
      assert events[..i][..i - 1] == events[..i - 1];
      forall s
        ensures s in AfterEvents(ledger, events[..i]).consumed <==> UsedBefore(ledger, events, i, s)
      {
        UsedGrows(ledger, events, i - 1, s);
      }
    }
  }

  lemma UsedGrows(ledger: Ledger, events: seq<Event>, i: nat, serial: Serial)
    requires i < |events|
    ensures UsedBefore(ledger, events, i + 1, serial) <==>
            || UsedBefore(ledger, events, i, serial)
            || (GrantedAt(ledger, events, i) && events[i].consume
                && serial == Serial(events[i].authorization.issuerKeyId, events[i].authorization.serial))
  {
    hide GrantedAt;
  }

  /** A revoked authorization is refused, whatever it asks, until the issuer changes that. */
  lemma RevokedIsRefused(ledger: Ledger, events: seq<Event>, i: nat)
    requires i < |events| && events[i].Try?
    requires events[i].authorization.authorizationId in RevokedAfter(ledger.revoked, events[..i])
    ensures !Grants(AfterEvents(ledger, events[..i]), events[i].authorization, events[i].consume)
    ensures AfterEvents(ledger, events[..i + 1]) == AfterEvents(ledger, events[..i])
  {
    GrantsOverHistory(ledger, events, i);
    EventsSnoc(ledger, events[..i + 1]);
    assert events[..i + 1][..i] == events[..i];
  }

  // ----- the broker -----

  /** The request at the head of the queue that the broker runs, in its columns. */
  predicate Runs(registry: Registry, s: Lockstep, turn: Turn) {
    var n := |s.executed|;
    && s.alive && |s.waiting| > 0 && n < |registry.commands|
    && s.waiting[0].request.authorizationId == registry.authorizationId
    && s.waiting[0].request.sequence == n
    && s.waiting[0].request.commandId == registry.commands[n].commandId
    && !turn.expired && turn.started
  }

  /** One turn of the broker: it runs exactly the next registered command; any other waiting
      request ends it, as does a reply that cannot be sent. */
  lemma ServeExact(registry: Registry, s: Lockstep, turn: Turn)
    ensures var n, t := |s.executed|, Serve(registry, s, turn);
            && t.sequence == s.sequence
            && (if Runs(registry, s, turn) then
                  && t.executed == s.executed + [registry.commands[n].commandId]
                  && (t.alive <==> turn.sent || !s.waiting[0].abandoned)
                  && t.waiting == (if t.alive then s.waiting[1..] else [])
                  && (t.replied <==> !s.waiting[0].abandoned)
                else if s.alive && |s.waiting| > 0 && n < |registry.commands| then
                  t == Lockstep(s.sequence, s.executed, false, [], s.replied)
                else t == s)
  {
  }

  /** The client sends, under its own counter, the id of the last command registered for the
      call; nothing is sent for a call nobody registered. */
  lemma SendExact(registry: Registry, s: Lockstep, argv: seq<string>, cwd: string, k: nat)
    requires !Busy(s) && k < |registry.commands|
    requires registry.commands[k].argv == argv && registry.commands[k].cwd == cwd
    requires forall i :: k < i < |registry.commands| ==>
                           registry.commands[i].argv != argv || registry.commands[i].cwd != cwd
    ensures Send(registry, s, argv, cwd) ==
            Lockstep(s.sequence, s.executed, s.alive,
                     s.waiting + [Connection(Request(registry.authorizationId, s.sequence,
                                                     registry.commands[k].commandId), false)],
                     s.replied)
  {
    var m := MappedIsLast(registry.commands, argv, cwd);
    assert m == k;
  }

  lemma {:induction false} UnregisteredIsNotSent(registry: Registry, s: Lockstep, argv: seq<string>, cwd: string)
    requires !Busy(s)
    requires forall i :: 0 <= i < |registry.commands| ==>
                           registry.commands[i].argv != argv || registry.commands[i].cwd != cwd
    ensures Send(registry, s, argv, cwd) == s
  {
    NothingMapped(registry.commands, argv, cwd);
  }

  lemma {:induction false} NothingMapped(commands: seq<Command>, argv: seq<string>, cwd: string)
    requires forall i :: 0 <= i < |commands| ==> commands[i].argv != argv || commands[i].cwd != cwd
    ensures Mapped(commands, argv, cwd) == None
    decreases |commands|
  {
    if commands != [] {
      NothingMapped(commands[..|commands| - 1], argv, cwd);
    }
  }

  /** What the client does with a reply or without one. */
  lemma ReplyCounts(s: Lockstep)
    ensures Return(s).sequence == (if s.replied then s.sequence + 1 else s.sequence) && !Return(s).replied
    ensures Return(s).executed == s.executed && Return(s).alive == s.alive && Return(s).waiting == s.waiting
    ensures GiveUp(s).sequence == s.sequence && !GiveUp(s).replied && GiveUp(s).executed == s.executed
    ensures |GiveUp(s).waiting| == |s.waiting|
    ensures forall i :: 0 <= i < |s.waiting| ==> GiveUp(s).waiting[i].abandoned
                                                 && GiveUp(s).waiting[i].request == s.waiting[i].request
  {
  }

  /** The turn at which command i was run: in time, on a request for exactly it. */
  predicate RunAt(registry: Registry, steps: seq<Step>, i: nat, j: nat)
    requires ValidRun(registry, STARTED, steps)
    requires i < |registry.commands|
  {
    && j < |steps| && steps[j].Accept? && !steps[j].turn.expired && steps[j].turn.started
    && (PrefixRuns(registry, STARTED, steps, j);
        var s := AfterSteps(registry, STARTED, steps[..j]);
        && s.alive && |s.executed| == i && |s.waiting| > 0
        && s.waiting[0].request == Request(registry.authorizationId, i, registry.commands[i].commandId))
  }

  lemma {:induction false} PrefixRuns(registry: Registry, s: Lockstep, steps: seq<Step>, j: nat)
    requires ValidRun(registry, s, steps) && j <= |steps|
    ensures ValidRun(registry, s, steps[..j])
    ensures j < |steps| ==> Enabled(AfterSteps(registry, s, steps[..j]), steps[j])
    ensures j < |steps| ==> ValidRun(registry, s, steps[..j + 1])
                            && AfterSteps(registry, s, steps[..j + 1])
                               == Next(registry, AfterSteps(registry, s, steps[..j]), steps[j])
    decreases j
  {
    if j == 0 {
      assert steps[..0] == [];
      if steps != [] {
        assert steps[..1] == [steps[0]] && [steps[0]][1..] == [];
      }
    } else {
      PrefixRuns(registry, Next(registry, s, steps[0]), steps[1..], j - 1);
      assert steps[..j][1..] == steps[1..][..j - 1];
      if j < |steps| {
        assert steps[..j + 1][1..] == steps[1..][..j];
        assert steps[1..][j - 1] == steps[j];
      }
    }
  }

  /** In every run, each command executed was run once its turn came, in time, on a request that
      carried the authorization, its position and its id. */
  lemma {:induction false} ExecutedWasRequested(registry: Registry, steps: seq<Step>, i: nat)
    requires ValidRun(registry, STARTED, steps)
    requires i < |AfterSteps(registry, STARTED, steps).executed|
    ensures i < |registry.commands| && exists j: nat :: RunAt(registry, steps, i, j)
    decreases |steps|
  {
    ExecutionIsLockstep(registry, steps);
    var n := |steps| - 1;
    PrefixRuns(registry, STARTED, steps, n);
    assert steps[..n + 1] == steps;
    var s := AfterSteps(registry, STARTED, steps[..n]);
    if i < |s.executed| {
      ExecutedWasRequested(registry, steps[..n], i);
      var j: nat :| RunAt(registry, steps[..n], i, j);
      assert steps[..n][..j] == steps[..j];
      assert RunAt(registry, steps, i, j);
    } else {
      LastStepRan(registry, s, steps[n], i);
      assert RunAt(registry, steps, i, n);
    }
  }

  lemma LastStepRan(registry: Registry, s: Lockstep, step: Step, i: nat)
    requires Enabled(s, step) && |s.executed| <= i < |Next(registry, s, step).executed|
    ensures i == |s.executed| && step.Accept? && Runs(registry, s, step.turn)
  {
    if step.Accept? {
      ServeExact(registry, s, step.turn);
    }
  }
}
