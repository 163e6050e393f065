/** The pipe transcript of a browser phase and its verifier
    (tools/qualify_chrome_indexeddb.py:300-378). */
module Transcript {
  import opened Prelude

  /** JSON values compared as Python compares them: a dictionary is a map. */
  datatype Value =
    | Null
    | Bool(truth: bool)
    | Int(number: int)
    | Text(text: string)
    | List(items: seq<Value>)
    | Dict(entries: Entries)

  type Entries = map<string, Value>

  /** One transcript line: a sent request, a received message or any other direction. */
  datatype LogRow = Send(request: Entries) | Receive(response: Entries) | OtherDirection

  datatype Config = Config(extension: Value, origin: string)

  /** The expressions a phase evaluates after its document polls. */
  datatype Work = Work(sentinel: string, worker: Option<string>)

  datatype Result = Result(version: Value, loaded: Value, document: Value, sentinel: Value, worker: Value)

  datatype Scanned = Scanned(requests: seq<Entries>, replies: map<int, Value>)

  // ----- reading the rows -----

  /** One row; None is the exception that rejects the transcript. */
  function Read(row: LogRow, s: Scanned): Option<Scanned> {
    match row
    case Send(request) =>
      if "id" in request && request["id"] == Int(|s.requests| + 1)
        then Some(s.(requests := s.requests + [request])) else None
    case Receive(response) =>
      if "id" !in response then Some(s)
      else if !response["id"].Int? then None
      else
        var identity := response["id"].number;
        if identity in s.replies || !(1 <= identity <= |s.requests|) || "error" in response || "result" !in response
          then None
        else Some(s.(replies := s.replies[identity := response["result"]]))
    case OtherDirection => None
  }

  function Scan(log: seq<LogRow>): Option<Scanned> {
    if log == [] then Some(Scanned([], map[]))
    else
      match Scan(log[..|log| - 1])
      case None => None
      case Some(s) => Read(log[|log| - 1], s)
  }

  lemma {:induction false} FailureLasts(log: seq<LogRow>, i: nat)
    requires i <= |log| && Scan(log[..i]).None?
    ensures Scan(log).None?
    decreases |log|
  {
    if i == |log| {
      assert log[..i] == log;
    } else {
      assert log[..|log| - 1][..i] == log[..i];
      FailureLasts(log[..|log| - 1], i);
    }
  }

  // ----- judging the calls -----

  /** The text between the first "://" and the next one; None is an IndexError. */
  function AfterScheme(origin: string): Option<string> {
    if |origin| < 3 then None
    else if origin[..3] == "://" then Some(UntilScheme(origin[3..]))
    else AfterScheme(origin[1..])
  }

  function UntilScheme(text: string): string {
    if text == [] || (|text| >= 3 && text[..3] == "://") then "" else [text[0]] + UntilScheme(text[1..])
  }

  function Member(value: Value, key: string): Option<Value> {
    if value.Dict? && key in value.entries then Some(value.entries[key]) else None
  }

  const DOCUMENT_EXPRESSION :=
    "({origin:location.origin,protocol:location.protocol,"
    + "probe:Boolean(globalThis.repairProbe),extensionId:globalThis.chrome?.runtime?.id??null})"

  const SETUP_CALLS := 4
  const MAX_POLLS := 100

  function Call(id: int, name: string, params: Entries): Entries {
    map["id" := Int(id), "method" := Text(name), "params" := Dict(params)]
  }

  function Evaluate(id: int, session: Value, expression: string): Entries {
    map["id" := Int(id), "method" := Text("Runtime.evaluate"), "sessionId" := session,
        "params" := Dict(map["expression" := Text(expression), "awaitPromise" := Bool(true),
          "returnByValue" := Bool(true)])]
  }

  function Setup(config: Config, target: Value): seq<Entries> {
    [ Call(1, "Browser.getVersion", map[]),
      Call(2, "Extensions.loadUnpacked", map["path" := config.extension]),
      Call(3, "Target.createTarget", map["url" := Text(config.origin + "/repair-probe.html")]),
      Call(4, "Target.attachToTarget", map["targetId" := target, "flatten" := Bool(true)]) ]
  }

  /** The expressions after the document polls, with the values the result claims for them. */
  function Closing(work: Work, result: Result): seq<(string, Value)> {
    [(work.sentinel, result.sentinel)] + if work.worker.Some? then [(work.worker.value, result.worker)] else []
  }

  function Expected(index: nat, polls: nat, closing: seq<(string, Value)>): string
    requires index < SETUP_CALLS + polls + |closing|
  {
    if index < SETUP_CALLS + polls then DOCUMENT_EXPRESSION else closing[index - SETUP_CALLS - polls].0
  }

  /** The value a reply reports; None when the evaluation threw or reported none. */
  function Reported(reply: Value): Option<Value> {
    if !reply.Dict? || "exceptionDetails" in reply.entries then None
    else
      match Member(reply, "result")
      case None => None
      case Some(inner) => Member(inner, "value")
  }

  /** Request number `index`, counted from zero, and its reply are the ones the phase calls for. */
  predicate EvaluationFits(
      index: nat, request: Entries, reply: Value, session: Value, polls: nat, closing: seq<(string, Value)>,
      result: Result)
    requires index < SETUP_CALLS + polls + |closing|
  {
    && request == Evaluate(index + 1, session, Expected(index, polls, closing))
    && Reported(reply).Some?
    && (index >= SETUP_CALLS + polls ==> Reported(reply).value == closing[index - SETUP_CALLS - polls].1)
    && (index == SETUP_CALLS + polls - 1 ==> Reported(reply).value == result.document)
  }

  /** Every request has its one reply and there are at least six. */
  predicate Answered(s: Scanned) {
    && (forall i :: 1 <= i <= |s.requests| ==> i in s.replies)
    && (forall i :: i in s.replies ==> 1 <= i <= |s.requests|)
    && |s.requests| >= 6
  }

  predicate SetupFits(s: Scanned, config: Config, result: Result)
    requires Answered(s)
  {
    && Member(s.replies[3], "targetId").Some?
    && s.requests[..SETUP_CALLS] == Setup(config, Member(s.replies[3], "targetId").value)
    && s.replies[1] == result.version && s.replies[2] == result.loaded
    && AfterScheme(config.origin).Some?
    && result.loaded == Dict(map["id" := Text(AfterScheme(config.origin).value)])
  }

  function DocumentOf(config: Config): Option<Value> {
    match AfterScheme(config.origin)
    case None => None
    case Some(id) =>
      Some(Dict(map["origin" := Text(config.origin), "protocol" := Text("chrome-extension:"),
                    "extensionId" := Text(id), "probe" := Bool(true)]))
  }

  function Polls(s: Scanned, work: Work, result: Result): int {
    |s.requests| - SETUP_CALLS - |Closing(work, result)|
  }

  predicate EvaluationsFit(s: Scanned, session: Value, polls: nat, closing: seq<(string, Value)>, result: Result)
    requires Answered(s) && |s.requests| == SETUP_CALLS + polls + |closing|
  {
    forall index :: SETUP_CALLS <= index < |s.requests| ==>
      EvaluationFits(index, s.requests[index], s.replies[index + 1], session, polls, closing, result)
  }

  predicate CallsFit(s: Scanned, config: Config, work: Work, result: Result) {
    && Answered(s) && SetupFits(s, config, result)
    && 1 <= Polls(s, work, result) <= MAX_POLLS
    && Member(s.replies[4], "sessionId").Some?
    && EvaluationsFit(s, Member(s.replies[4], "sessionId").value, Polls(s, work, result), Closing(work, result), result)
    && DocumentOf(config) == Some(result.document)
  }

  predicate Accepts(log: seq<LogRow>, config: Config, work: Work, result: Result) {
    var s := Scan(log);
    s.Some? && CallsFit(s.value, config, work, result)
  }

  method ScanRows(log: seq<LogRow>) returns (s: Option<Scanned>)
    ensures s == Scan(log)
  {
    var requests: seq<Entries>, replies: map<int, Value> := [], map[];
    var i := 0;
    while i < |log|
      invariant 0 <= i <= |log|
      invariant Scan(log[..i]) == Some(Scanned(requests, replies))
    {
      assert log[..i + 1][..i] == log[..i];
      var next := Read(log[i], Scanned(requests, replies));
      if next.None? {
        FailureLasts(log, i + 1);
        return None;
      }
      requests, replies := next.value.requests, next.value.replies;
      i := i + 1;
    }
    assert log[..i] == log;
    s := Some(Scanned(requests, replies));
  }

  method CheckEvaluations(s: Scanned, session: Value, polls: nat, closing: seq<(string, Value)>, result: Result)
    returns (ok: bool)
    requires Answered(s) && |s.requests| == SETUP_CALLS + polls + |closing|
    ensures ok <==> EvaluationsFit(s, session, polls, closing, result)
  {
    hide EvaluationFits;
    var index := SETUP_CALLS;
    while index < |s.requests|
      invariant SETUP_CALLS <= index <= |s.requests|
      invariant forall k :: SETUP_CALLS <= k < index ==>
                  EvaluationFits(k, s.requests[k], s.replies[k + 1], session, polls, closing, result)
    {
      if !EvaluationFits(index, s.requests[index], s.replies[index + 1], session, polls, closing, result) {
        return false;
      }
      index := index + 1;
    }
    ok := true;
  }

  method VerifyPipeTranscript(log: seq<LogRow>, config: Config, work: Work, result: Result) returns (ok: bool)
    ensures ok <==> Accepts(log, config, work, result)
  {
    var scanned := ScanRows(log);
    if scanned.None? || !Answered(scanned.value) || !SetupFits(scanned.value, config, result) {
      return false;
    }
    var s := scanned.value;
    var polls := Polls(s, work, result);
    if polls < 1 || polls > MAX_POLLS || Member(s.replies[4], "sessionId").None? {
      return false;
    }
    ok := CheckEvaluations(s, Member(s.replies[4], "sessionId").value, polls, Closing(work, result), result);
    ok := ok && DocumentOf(config) == Some(result.document);
  }

  // ----- what acceptance means for the log -----

  function Sends(log: seq<LogRow>): seq<Entries> {
    if log == [] then []
    else Sends(log[..|log| - 1]) + if log[|log| - 1].Send? then [log[|log| - 1].request] else []
  }

  /** The position of a received row that carries an id. */
  predicate Replies(log: seq<LogRow>, p: int) {
    0 <= p < |log| && log[p].Receive? && "id" in log[p].response
  }

  /** A reply in good order: numbered, successful and after the request it answers. */
  predicate ReplyInOrder(log: seq<LogRow>, p: int)
    requires Replies(log, p)
  {
    var response := log[p].response;
    && response["id"].Int? && "result" in response && "error" !in response
    && 1 <= response["id"].number <= |Sends(log[..p])|
  }

  ghost predicate WellPaired(log: seq<LogRow>) {
    && (forall p :: 0 <= p < |log| ==> !log[p].OtherDirection?)
    && (forall p :: 0 <= p < |log| && log[p].Send? ==>
          "id" in log[p].request && log[p].request["id"] == Int(|Sends(log[..p])| + 1))
    && (forall p :: Replies(log, p) ==> ReplyInOrder(log, p))
    && (forall p, q :: Replies(log, p) && Replies(log, q) && p < q ==> log[p].response["id"] != log[q].response["id"])
  }

  /** The scanned state is the log's: its sends in order and, for each reply, the result. */
  ghost predicate Summarizes(s: Scanned, log: seq<LogRow>) {
    && s.requests == Sends(log)
    && (forall p :: Replies(log, p) ==>
          log[p].response["id"].Int? && "result" in log[p].response && log[p].response["id"].number in s.replies
          && s.replies[log[p].response["id"].number] == log[p].response["result"])
    && (forall i :: i in s.replies ==> exists p :: Replies(log, p) && log[p].response["id"] == Int(i))
  }

  lemma PrefixFacts(log: seq<LogRow>)
    requires log != []
    ensures var init := log[..|log| - 1];
            && (forall p :: 0 <= p < |init| ==> log[p] == init[p] && log[..p] == init[..p])
            && log[..|log| - 1] == init
            && (forall p :: 0 <= p < |init| ==> (Replies(init, p) <==> Replies(log, p)))
  {
  }

  /** What the last row adds to a well-paired log. */
  ghost predicate LastFits(log: seq<LogRow>)
    requires log != []
  {
    var n := |log| - 1;
    var last := log[n];
    match last
    case OtherDirection => false
    case Send(request) => "id" in request && request["id"] == Int(|Sends(log[..n])| + 1)
    case Receive(response) =>
      "id" in response ==>
        && Replies(log, n) && ReplyInOrder(log, n)
        && forall p :: Replies(log, p) && p < n ==> log[p].response["id"] != response["id"]
  }

  lemma PairedByLast(log: seq<LogRow>)
    requires log != []
    ensures WellPaired(log) <==> WellPaired(log[..|log| - 1]) && LastFits(log)
  {
    var n := |log| - 1;
    PrefixFacts(log);
    if WellPaired(log) {
      PairedPrefix(log);
      assert Replies(log, n) ==> ReplyInOrder(log, n);
    }
    if WellPaired(log[..n]) && LastFits(log) {
      PairedExtends(log);
    }
  }

  lemma PairedPrefix(log: seq<LogRow>)
    requires log != [] && WellPaired(log)
    ensures WellPaired(log[..|log| - 1])
  {
    PrefixFacts(log);
    var init := log[..|log| - 1];
    forall p | Replies(init, p)
      ensures ReplyInOrder(init, p)
    {
      assert Replies(log, p);
    }
  }

  lemma PairedExtends(log: seq<LogRow>)
    requires log != [] && WellPaired(log[..|log| - 1]) && LastFits(log)
    ensures WellPaired(log)
  {
    PrefixFacts(log);
    var n := |log| - 1;
    var init := log[..n];
    forall p | Replies(log, p)
      ensures ReplyInOrder(log, p)
    {
      if p < n {
        assert Replies(init, p) && ReplyInOrder(init, p);
      }
    }
    forall p, q | Replies(log, p) && Replies(log, q) && p < q
      ensures log[p].response["id"] != log[q].response["id"]
    {
      if q < n {
        assert Replies(init, p) && Replies(init, q);
      }
    }
  }

  lemma {:induction false} ScanExact(log: seq<LogRow>)
    ensures Scan(log).Some? <==> WellPaired(log)
    ensures Scan(log).Some? ==> Summarizes(Scan(log).value, log)
  {
    hide WellPaired, Summarizes, Read, LastFits;
    if log == [] {
      assert WellPaired(log) by {
        EmptyLog(log);
      }
      EmptyLog(log);
    } else {
      var init := log[..|log| - 1];
      ScanExact(init);
      PairedByLast(log);
      if Scan(init).Some? {
        ReadFits(log, Scan(init).value);
        if LastFits(log) {
          ReadSummarizes(log, Scan(init).value);
        }
      }
    }
  }

  lemma EmptyLog(log: seq<LogRow>)
    requires log == []
    ensures WellPaired(log) && Summarizes(Scanned([], map[]), log)
  {
  }

  lemma ReadFits(log: seq<LogRow>, s: Scanned)
    requires log != [] && Summarizes(s, log[..|log| - 1])
    ensures Read(log[|log| - 1], s).Some? <==> LastFits(log)
  {
    var n := |log| - 1;
    PrefixFacts(log);
    var last := log[n];
    if last.Receive? && "id" in last.response && last.response["id"].Int? {
      var i := last.response["id"].number;
      assert Replies(log, n);
      if i in s.replies {
        var p :| Replies(log[..n], p) && log[..n][p].response["id"] == Int(i);
        assert Replies(log, p) && p < n;
      } else {
        forall p | Replies(log, p) && p < n
          ensures log[p].response["id"] != last.response["id"]
        {
          assert Replies(log[..n], p);
        }
      }
    }
  }

  lemma ReadSummarizes(log: seq<LogRow>, s: Scanned)
    requires log != [] && Summarizes(s, log[..|log| - 1]) && LastFits(log)
    requires Read(log[|log| - 1], s).Some?
    ensures Summarizes(Read(log[|log| - 1], s).value, log)
  {
    var n := |log| - 1;
    var init, last, t := log[..n], log[n], Read(log[n], s).value;
    PrefixFacts(log);
    forall p | Replies(log, p)
      ensures log[p].response["id"].Int? && "result" in log[p].response && log[p].response["id"].number in t.replies
      ensures t.replies[log[p].response["id"].number] == log[p].response["result"]
    {
      if p < n {
        assert Replies(init, p);
      }
    }
    forall i | i in t.replies
      ensures exists p :: Replies(log, p) && log[p].response["id"] == Int(i)
    {
      if i in s.replies {
        var p :| Replies(init, p) && init[p].response["id"] == Int(i);
        assert Replies(log, p);
      } else {
        assert Replies(log, n);
      }
    }
  }
}
