/** One-use consumption over every history, and lock-step execution over every run. */
module ReviewLaws {
  import opened Prelude
  import opened Review

  // ----- the ledger -----

  /** What happens to a ledger: an attempt of some process, or an issuer changing trust
      epochs and revocations. Immediate transactions make every interleaving a sequence. */
  datatype Event = Try(authorization: Authorization, consume: bool) | Administer(epochs: map<Id, int>, revoked: set<Id>)

  function AfterEvent(ledger: Ledger, event: Event): Ledger {
    match event
    case Try(a, consume) => Attempt(ledger, a, consume)
    case Administer(epochs, revoked) => ledger.(epochs := epochs, revoked := revoked)
  }

  function AfterEvents(ledger: Ledger, events: seq<Event>): Ledger
    decreases |events|
  {
    if events == [] then ledger else AfterEvents(AfterEvent(ledger, events[0]), events[1..])
  }

  predicate Consumes(ledger: Ledger, event: Event, serial: Serial) {
    event.Try? && event.consume && SerialOf(event.authorization) == serial && Grants(ledger, event.authorization, true)
  }

  /** How many attempts of a history consume a serial successfully. */
  function Consumptions(ledger: Ledger, events: seq<Event>, serial: Serial): nat
    decreases |events|
  {
    if events == [] then 0
    else
      (if Consumes(ledger, events[0], serial) then 1 else 0)
      + Consumptions(AfterEvent(ledger, events[0]), events[1..], serial)
  }

  /** Over every history a serial is consumed at most once, never when it already was, and it
      is recorded at the end exactly when it was before or one attempt consumed it. */
  lemma {:induction false} SerialIsUsedOnce(ledger: Ledger, events: seq<Event>, serial: Serial)
    ensures Consumptions(ledger, events, serial) <= 1
    ensures serial in ledger.consumed ==> Consumptions(ledger, events, serial) == 0
    ensures serial in AfterEvents(ledger, events).consumed <==>
            serial in ledger.consumed || Consumptions(ledger, events, serial) == 1
    decreases |events|
  {
    if events != [] {
      SerialIsUsedOnce(AfterEvent(ledger, events[0]), events[1..], serial);
    }
  }

  /** The history without its refused attempts. */
  function Granted(ledger: Ledger, events: seq<Event>): seq<Event>
    decreases |events|
  {
    if events == [] then []
    else
      var rest := Granted(AfterEvent(ledger, events[0]), events[1..]);
      if events[0].Try? && !Grants(ledger, events[0].authorization, events[0].consume) then rest else [events[0]] + rest
  }

  /** Refused attempts leave no trace: the granted ones alone lead to the same ledger. */
  lemma {:induction false} RefusalsLeaveNoTrace(ledger: Ledger, events: seq<Event>)
    ensures AfterEvents(ledger, Granted(ledger, events)) == AfterEvents(ledger, events)
    decreases |events|
  {
    if events != [] {
      var rest := Granted(AfterEvent(ledger, events[0]), events[1..]);
      RefusalsLeaveNoTrace(AfterEvent(ledger, events[0]), events[1..]);
      assert ([events[0]] + rest)[1..] == rest;
    }
  }

  /** Execution is granted only after some earlier attempt consumed the same serial. */
  lemma ExecutionFollowsConsumption(ledger: Ledger, events: seq<Event>, a: Authorization)
    requires SerialOf(a) !in ledger.consumed
    ensures Grants(AfterEvents(ledger, events), a, false) ==> Consumptions(ledger, events, SerialOf(a)) == 1
    ensures Grants(AfterEvents(ledger, events), a, true) ==> Consumptions(ledger, events, SerialOf(a)) == 0
  {
    SerialIsUsedOnce(ledger, events, SerialOf(a));
  }

  // ----- lock step -----

  function Ids(commands: seq<Command>): (r: seq<Id>)
    ensures |r| == |commands|
    ensures forall i :: 0 <= i < |r| ==> r[i] == commands[i].commandId
  {
    seq(|commands|, i requires 0 <= i < |commands| => commands[i].commandId)
  }

  predicate InStep(registry: Registry, s: Lockstep) {
    && s.executed <= Ids(registry.commands)
    && s.sequence <= |s.executed| <= s.sequence + 1
    && (s.replied ==> |s.executed| == s.sequence + 1 && forall i :: 0 <= i < |s.waiting| ==> s.waiting[i].abandoned)
    && (forall i :: 0 <= i < |s.waiting| ==> s.waiting[i].request.sequence <= s.sequence)
    && (forall i :: 0 <= i < |s.waiting| && !s.waiting[i].abandoned ==>
      s.waiting[i].request.sequence == s.sequence && i == |s.waiting| - 1)
  }

  lemma StepKeepsLockstep(registry: Registry, s: Lockstep, step: Step)
    requires InStep(registry, s) && Enabled(s, step)
    ensures InStep(registry, Next(registry, s, step))
    ensures s.executed <= Next(registry, s, step).executed
  {
    match step {
      case Execute(argv, cwd) =>
      case Accept(turn) =>
        AcceptKeepsLockstep(registry, s, turn);
      case Finish =>
      case Fail =>
    }
  }

  lemma AcceptKeepsLockstep(registry: Registry, s: Lockstep, turn: Turn)
    requires InStep(registry, s)
    ensures InStep(registry, Serve(registry, s, turn))
    ensures s.executed <= Serve(registry, s, turn).executed
  {
    var t := Serve(registry, s, turn);
    if t.executed != s.executed {
      assert Matches(registry, s, s.waiting[0].request);
      assert s.executed == Ids(registry.commands)[..|s.executed|];
      assert t.executed == Ids(registry.commands)[..|s.executed| + 1];
      assert t.alive ==> forall i :: 0 <= i < |t.waiting| ==> t.waiting[i] == s.waiting[i + 1];
    }
  }

  predicate ValidRun(registry: Registry, s: Lockstep, steps: seq<Step>)
    decreases |steps|
  {
    steps == [] || (Enabled(s, steps[0]) && ValidRun(registry, Next(registry, s, steps[0]), steps[1..]))
  }

  function AfterSteps(registry: Registry, s: Lockstep, steps: seq<Step>): Lockstep
    requires ValidRun(registry, s, steps)
    decreases |steps|
  {
    if steps == [] then s else AfterSteps(registry, Next(registry, s, steps[0]), steps[1..])
  }

  lemma {:induction false} RunKeepsLockstep(registry: Registry, s: Lockstep, steps: seq<Step>)
    requires InStep(registry, s) && ValidRun(registry, s, steps)
    ensures InStep(registry, AfterSteps(registry, s, steps))
    ensures s.executed <= AfterSteps(registry, s, steps).executed
    decreases |steps|
  {
    if steps != [] {
      StepKeepsLockstep(registry, s, steps[0]);
      RunKeepsLockstep(registry, Next(registry, s, steps[0]), steps[1..]);
    }
  }

  /** In every run, whatever the client calls, loses or gives up on: the broker has run a
      prefix of the registered list, and the client has counted all of it but at most the
      last command. */
  lemma ExecutionIsLockstep(registry: Registry, steps: seq<Step>)
    requires ValidRun(registry, STARTED, steps)
    ensures var s := AfterSteps(registry, STARTED, steps);
            s.executed <= Ids(registry.commands) && s.sequence <= |s.executed| <= s.sequence + 1
  {
    RunKeepsLockstep(registry, STARTED, steps);
  }

  /** Once a reply is lost the client never advances again. */
  predicate Behind(registry: Registry, s: Lockstep) {
    && InStep(registry, s) && |s.executed| == s.sequence + 1 && !s.replied
  }

  lemma StepStaysBehind(registry: Registry, s: Lockstep, step: Step)
    requires Behind(registry, s) && Enabled(s, step)
    ensures Behind(registry, Next(registry, s, step))
    ensures Next(registry, s, step).executed == s.executed && Next(registry, s, step).sequence == s.sequence
  {
    StepKeepsLockstep(registry, s, step);
  }

  /** A lost reply ends the review: no later step runs a command or counts one. */
  lemma {:induction false} LostReplyIsFinal(registry: Registry, s: Lockstep, steps: seq<Step>)
    requires Behind(registry, s) && ValidRun(registry, s, steps)
    ensures var t := AfterSteps(registry, s, steps);
            t.executed == s.executed && t.sequence == s.sequence
    decreases |steps|
  {
    if steps != [] {
      StepStaysBehind(registry, s, steps[0]);
      LostReplyIsFinal(registry, Next(registry, s, steps[0]), steps[1..]);
    }
  }

  // ----- the orderly run -----

  predicate SameCall(a: Command, b: Command) {
    a.argv == b.argv && a.cwd == b.cwd
  }

  /** Every command is the last one registered under its arguments and directory, up to its id. */
  predicate Unambiguous(commands: seq<Command>) {
    forall j, k :: 0 <= j < k < |commands| && SameCall(commands[j], commands[k]) ==>
      commands[j].commandId == commands[k].commandId
  }

  lemma {:induction false} MappedIsLast(commands: seq<Command>, argv: seq<string>, cwd: string) returns (k: nat)
    requires exists i :: 0 <= i < |commands| && commands[i].argv == argv && commands[i].cwd == cwd
    ensures k < |commands| && commands[k].argv == argv && commands[k].cwd == cwd
    ensures Mapped(commands, argv, cwd) == Some(commands[k].commandId)
    ensures forall i :: k < i < |commands| ==> commands[i].argv != argv || commands[i].cwd != cwd
    decreases |commands|
  {
    var n := |commands| - 1;
    if commands[n].argv == argv && commands[n].cwd == cwd {
      k := n;
    } else {
      var i :| 0 <= i < |commands| && commands[i].argv == argv && commands[i].cwd == cwd;
      assert commands[..n][i] == commands[i];
      k := MappedIsLast(commands[..n], argv, cwd);
    }
  }

  predicate OwnId(commands: seq<Command>, k: nat)
    requires k < |commands|
  {
    Mapped(commands, commands[k].argv, commands[k].cwd) == Some(commands[k].commandId)
  }

  const IN_TIME := Turn(false, true, true)

  /** The state after the first n commands ran in order. */
  function Through(registry: Registry, n: nat): Lockstep
    requires n <= |registry.commands|
  {
    Lockstep(n, Ids(registry.commands)[..n], true, [], false)
  }

  lemma OneCommand(registry: Registry, n: nat)
    requires n < |registry.commands|
    ensures var c := registry.commands[n];
            var sent := Send(registry, Through(registry, n), c.argv, c.cwd);
            var served := Serve(registry, sent, IN_TIME);
            !Busy(Through(registry, n))
            && (OwnId(registry.commands, n) ==> Return(served) == Through(registry, n + 1))
            && (!OwnId(registry.commands, n) ==>
                  && !served.alive && !served.replied && served.sequence == n
                  && served.executed == Ids(registry.commands)[..n])
  {
    var c := registry.commands[n];
    var k := MappedIsLast(registry.commands, c.argv, c.cwd);
    assert Ids(registry.commands)[..n] + [c.commandId] == Ids(registry.commands)[..n + 1];
  }

  /** The client calls `execute` for each registered command in order, each request served in
      time, and stops at the first call that does not return. */
  function InOrder(registry: Registry, s: Lockstep, k: nat): Lockstep
    requires k <= |registry.commands|
    decreases |registry.commands| - k
  {
    if k == |registry.commands| || Busy(s) then s
    else
      var c := registry.commands[k];
      var t := Return(Serve(registry, Send(registry, s, c.argv, c.cwd), IN_TIME));
      if t.sequence == s.sequence + 1 then InOrder(registry, t, k + 1) else t
  }

  lemma {:induction false} InOrderFrom(registry: Registry, n: nat)
    requires n <= |registry.commands|
    ensures var t := InOrder(registry, Through(registry, n), n);
            && (t == Through(registry, |registry.commands|) <==>
              forall k :: n <= k < |registry.commands| ==> OwnId(registry.commands, k))
            && (t.executed == Ids(registry.commands) <==> t == Through(registry, |registry.commands|))
    decreases |registry.commands| - n
  {
    hide OwnId, Send, Serve, Busy;
    if n < |registry.commands| {
      OneCommand(registry, n);
      if OwnId(registry.commands, n) {
        InOrderFrom(registry, n + 1);
      }
    }
  }

  lemma OwnIdsMeanUnambiguous(commands: seq<Command>)
    ensures (forall k :: 0 <= k < |commands| ==> OwnId(commands, k)) <==> Unambiguous(commands)
  {
    if forall k :: 0 <= k < |commands| ==> OwnId(commands, k) {
      forall j, k | 0 <= j < k < |commands| && SameCall(commands[j], commands[k])
        ensures commands[j].commandId == commands[k].commandId
      {
        assert OwnId(commands, j) && OwnId(commands, k);
      }
    }
    if Unambiguous(commands) {
      forall k | 0 <= k < |commands|
        ensures OwnId(commands, k)
      {
        var last := MappedIsLast(commands, commands[k].argv, commands[k].cwd);
        assert last >= k;
      }
    }
  }

  /** The full run in order executes every registered command, and the client counts them all,
      exactly when no two commands share arguments and directory under different ids. */
  lemma FullRunIsAccepted(registry: Registry)
    ensures var t := InOrder(registry, STARTED, 0);
            && (t.executed == Ids(registry.commands) <==> Unambiguous(registry.commands))
            && (Unambiguous(registry.commands) ==> t.sequence == |registry.commands|)
  {
    assert Through(registry, 0) == STARTED;
    InOrderFrom(registry, 0);
    OwnIdsMeanUnambiguous(registry.commands);
    assert Ids(registry.commands)[..|registry.commands|] == Ids(registry.commands);
  }
}
