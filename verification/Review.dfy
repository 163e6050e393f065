/** Review launch: the one-use authorization ledger (tools/prepare_review_workspace.py:104-138)
    and the lock-step command broker with its client (tools/prepare_review_workspace.py:888-994). */
module Review {
  import opened Prelude

  // ----- the ledger -----

  datatype Authorization = Authorization(authorizationId: Id, issuerKeyId: Id, serial: string, trustEpoch: int)

  datatype Serial = Serial(key: Id, serial: string)

  datatype Ledger = Ledger(epochs: map<Id, int>, revoked: set<Id>, consumed: set<Serial>)

  function SerialOf(a: Authorization): Serial {
    Serial(a.issuerKeyId, a.serial)
  }

  predicate Current(ledger: Ledger, a: Authorization) {
    && a.issuerKeyId in ledger.epochs && ledger.epochs[a.issuerKeyId] == a.trustEpoch
    && a.authorizationId !in ledger.revoked
  }

  /** One immediate transaction: consume the serial, or check that it was consumed. */
  predicate Grants(ledger: Ledger, a: Authorization, consume: bool) {
    Current(ledger, a) && (consume <==> SerialOf(a) !in ledger.consumed)
  }

  function Attempt(ledger: Ledger, a: Authorization, consume: bool): Ledger {
    if consume && Grants(ledger, a, consume) then ledger.(consumed := ledger.consumed + {SerialOf(a)}) else ledger
  }

  class AuthorityState {
    var epochs: map<Id, int>
    var revoked: set<Id>
    var consumed: set<Serial>

    function State(): Ledger
      reads this
    {
      Ledger(epochs, revoked, consumed)
    }

    constructor (ledger: Ledger)
      ensures State() == ledger
    {
      epochs, revoked, consumed := ledger.epochs, ledger.revoked, ledger.consumed;
    }

    method Transact(a: Authorization, consume: bool) returns (ok: bool)
      modifies this`consumed
      ensures ok == old(Grants(State(), a, consume))
      ensures State() == old(Attempt(State(), a, consume))
      ensures ok <==> && a.issuerKeyId in epochs && epochs[a.issuerKeyId] == a.trustEpoch
                      && a.authorizationId !in revoked
                      && (consume <==> Serial(a.issuerKeyId, a.serial) !in old(consumed))
      ensures consumed == old(consumed) + if ok && consume then {Serial(a.issuerKeyId, a.serial)} else {}
    {
      var known := a.issuerKeyId in epochs && epochs[a.issuerKeyId] == a.trustEpoch;
      if !known || a.authorizationId in revoked {
        return false;
      }
      if consume {
        if SerialOf(a) in consumed {
          return false;
        }
        consumed := consumed + {SerialOf(a)};
      } else if SerialOf(a) !in consumed {
        return false;
      }
      ok := true;
    }
  }

  // ----- the broker and its client -----

  datatype Command = Command(commandId: Id, argv: seq<string>, cwd: string)

  datatype Request = Request(authorizationId: Id, sequence: nat, commandId: Id)

  /** A connection the broker has not accepted yet; the client waits on it unless it gave up. */
  datatype Connection = Connection(request: Request, abandoned: bool)

  /** The registered commands in order, for one authorization. */
  datatype Registry = Registry(authorizationId: Id, commands: seq<Command>)

  /** Both processes: the client's counter, the commands the broker has run, its liveness, the
      connections waiting for it, and whether the client's reply has arrived. */
  datatype Lockstep = Lockstep(sequence: nat, executed: seq<Id>, alive: bool, waiting: seq<Connection>, replied: bool)

  /** `mapped.get((argv, cwd))`: a dictionary built in order, so the last entry wins. */
  function Mapped(commands: seq<Command>, argv: seq<string>, cwd: string): Option<Id>
    decreases |commands|
  {
    if commands == [] then None
    else
      var last := commands[|commands| - 1];
      if last.argv == argv && last.cwd == cwd
        then Some(last.commandId) else Mapped(commands[..|commands| - 1], argv, cwd)
  }

  /** The client is inside a call of `execute`. */
  predicate Busy(s: Lockstep) {
    s.replied || exists i :: 0 <= i < |s.waiting| && !s.waiting[i].abandoned
  }

  /** The client calls `execute`; an unknown command fails before anything is sent. */
  function Send(registry: Registry, s: Lockstep, argv: seq<string>, cwd: string): Lockstep
    requires !Busy(s)
  {
    match Mapped(registry.commands, argv, cwd)
    case None => s
    case Some(id) => s.(waiting := s.waiting + [Connection(Request(registry.authorizationId, s.sequence, id), false)])
  }

  /** The request is exactly the next registered command of this authorization. */
  predicate Matches(registry: Registry, s: Lockstep, request: Request) {
    && |s.executed| < |registry.commands|
    && request == Request(registry.authorizationId, |s.executed|, registry.commands[|s.executed|].commandId)
  }

  /** What the surroundings do to one turn of the broker: the authorization may have expired, the
      command may fail to start, and the reply to a client that gave up may fail to be sent. */
  datatype Turn = Turn(expired: bool, started: bool, sent: bool)

  /** The broker accepts the oldest connection: it runs the command and replies, or ends. A
      broker that has run its whole list, or has ended, accepts nothing. */
  function Serve(registry: Registry, s: Lockstep, turn: Turn): Lockstep {
    if !s.alive || s.waiting == [] || |s.executed| >= |registry.commands| then s
    else if !Matches(registry, s, s.waiting[0].request) || turn.expired || !turn.started
      then s.(alive := false, waiting := [])
    else
      var ran := s.executed + [s.waiting[0].request.commandId];
      if s.waiting[0].abandoned && !turn.sent then s.(executed := ran, alive := false, waiting := [], replied := false)
      else s.(executed := ran, waiting := s.waiting[1..], replied := !s.waiting[0].abandoned)
  }

  /** The client's call returns and counts the command. */
  function Return(s: Lockstep): Lockstep {
    if s.replied then s.(sequence := s.sequence + 1, replied := false) else s
  }

  /** The client's call fails, by a timeout or an unreadable reply; what it sent stays sent. */
  function GiveUp(s: Lockstep): Lockstep {
    s.(waiting := Abandoned(s.waiting), replied := false)
  }

  function Abandoned(waiting: seq<Connection>): (r: seq<Connection>)
    ensures |r| == |waiting|
    ensures forall i :: 0 <= i < |r| ==> r[i] == waiting[i].(abandoned := true)
  {
    seq(|waiting|, i requires 0 <= i < |waiting| => waiting[i].(abandoned := true))
  }

  datatype Step =
    | Execute(argv: seq<string>, cwd: string)
    | Accept(turn: Turn)
    | Finish
    | Fail

  predicate Enabled(s: Lockstep, step: Step) {
    step.Execute? ==> !Busy(s)
  }

  function Next(registry: Registry, s: Lockstep, step: Step): Lockstep
    requires Enabled(s, step)
  {
    match step
    case Execute(argv, cwd) => Send(registry, s, argv, cwd)
    case Accept(turn) => Serve(registry, s, turn)
    case Finish => Return(s)
    case Fail => GiveUp(s)
  }

  const STARTED := Lockstep(0, [], true, [], false)

  /** The namespace of one review: the client closure's counter and the broker's loop. */
  class Namespace {
    const registry: Registry
    var sequence: nat
    var executed: seq<Id>
    var alive: bool
    var waiting: seq<Connection>
    var replied: bool

    function State(): Lockstep
      reads this
    {
      Lockstep(sequence, executed, alive, waiting, replied)
    }

    constructor (registry: Registry)
      ensures this.registry == registry && State() == STARTED
    {
      this.registry := registry;
      sequence, executed, alive, waiting, replied := 0, [], true, [], false;
    }

    /** The client's half of `execute`, up to the connection being queued. */
    method ClientSends(argv: seq<string>, cwd: string) returns (sent: bool)
      requires !Busy(State())
      modifies this`waiting
      ensures State() == old(Send(registry, State(), argv, cwd))
      ensures sent <==> Mapped(registry.commands, argv, cwd).Some?
    {
      var commandId := Mapped(registry.commands, argv, cwd);
      if commandId.None? {
        return false;
      }
      waiting := waiting + [Connection(Request(registry.authorizationId, sequence, commandId.value), false)];
      sent := true;
    }

    method ClientReturns()
      modifies this`sequence, this`replied
      ensures State() == old(Return(State()))
    {
      if replied {
        sequence := sequence + 1;
        replied := false;
      }
    }

    /** One turn of the broker's loop. */
    method BrokerAccepts(turn: Turn)
      modifies this
      ensures State() == old(Serve(registry, State(), turn))
    {
      var position := |executed|;
      if !alive || waiting == [] || position >= |registry.commands| {
        return;
      }
      var connection := waiting[0];
      var request := connection.request;
      if request.authorizationId != registry.authorizationId || request.sequence != position
        || request.commandId != registry.commands[position].commandId || turn.expired || !turn.started {
        alive, waiting := false, [];
        return;
      }
      executed := executed + [registry.commands[position].commandId];
      if connection.abandoned && !turn.sent {
        alive, waiting, replied := false, [], false;
        return;
      }
      waiting := waiting[1..];
      replied := !connection.abandoned;
    }
  }
}
