/** The transcript verifier row by row: which logs it accepts, with every call written out. */
module TranscriptFacts {
  import opened Prelude
  import opened Transcript

  // ----- rows in order -----

  function SendPositions(log: seq<LogRow>, p: nat): set<int> {
    set q | 0 <= q < p && q < |log| && log[q].Send?
  }

  /** Each sent request is numbered by how many came before it; each message with an id is the
      one successful reply to a request already sent; there are no other rows. */
  ghost predicate RowInOrder(log: seq<LogRow>, p: nat)
    requires p < |log|
  {
    match log[p]
    case Send(request) => "id" in request && request["id"] == Int(|SendPositions(log, p)| + 1)
    case Receive(response) =>
      "id" in response ==>
        exists i :: 1 <= i <= |SendPositions(log, p)| && FirstReplyTo(log, p, i)
    case OtherDirection => false
  }

  predicate FirstReplyTo(log: seq<LogRow>, p: nat, i: int)
    requires p < |log| && log[p].Receive?
  {
    var response := log[p].response;
    && "id" in response && response["id"] == Int(i) && "result" in response && "error" !in response
    && forall q :: 0 <= q < p && log[q].Receive? && "id" in log[q].response ==> log[q].response["id"] != Int(i)
  }

  ghost predicate RowsInOrder(log: seq<LogRow>) {
    forall p :: 0 <= p < |log| ==> RowInOrder(log, p)
  }

  lemma {:induction false} SendsCounted(log: seq<LogRow>, p: nat)
    requires p <= |log|
    ensures |Sends(log[..p])| == |SendPositions(log, p)|
    decreases p
  {
    if p == 0 {
      assert SendPositions(log, 0) == {};
    } else {
      SendsCounted(log, p - 1);
      assert log[..p][..p - 1] == log[..p - 1];
      assert SendPositions(log, p) == SendPositions(log, p - 1) + if log[p - 1].Send? then {p - 1} else {};
    }
  }

  lemma PairedExact(log: seq<LogRow>)
    ensures WellPaired(log) <==> RowsInOrder(log)
  {
    hide Sends, SendPositions;
    forall p: nat | p < |log|
      ensures |Sends(log[..p])| == |SendPositions(log, p)|
    {
      SendsCounted(log, p);
    }
    if WellPaired(log) {
      forall p | 0 <= p < |log|
        ensures RowInOrder(log, p)
      {
        PairedRowInOrder(log, p);
      }
    }
    if RowsInOrder(log) {
      OrderedIsPaired(log);
    }
  }

  lemma PairedRowInOrder(log: seq<LogRow>, p: nat)
    requires WellPaired(log) && p < |log| && |Sends(log[..p])| == |SendPositions(log, p)|
    ensures RowInOrder(log, p)
  {
    if Replies(log, p) {
      assert ReplyInOrder(log, p);
      var i := log[p].response["id"].number;
      forall q | 0 <= q < p && log[q].Receive? && "id" in log[q].response
        ensures log[q].response["id"] != Int(i)
      {
        assert Replies(log, q);
      }
      assert FirstReplyTo(log, p, i);
    }
  }

  lemma OrderedIsPaired(log: seq<LogRow>)
    requires RowsInOrder(log)
    requires forall p: nat :: p < |log| ==> |Sends(log[..p])| == |SendPositions(log, p)|
    ensures WellPaired(log)
  {
    forall p | 0 <= p < |log|
      ensures !log[p].OtherDirection?
      ensures log[p].Send? ==> "id" in log[p].request && log[p].request["id"] == Int(|Sends(log[..p])| + 1)
      ensures Replies(log, p) ==> ReplyInOrder(log, p)
    {
      assert RowInOrder(log, p);
    }
    forall p, q | Replies(log, p) && Replies(log, q) && p < q
      ensures log[p].response["id"] != log[q].response["id"]
    {
      assert RowInOrder(log, q);
    }
  }

  // ----- the scheme of the origin -----

  predicate SchemeAt(text: string, k: nat) {
    k + 3 <= |text| && text[k] == ':' && text[k + 1] == '/' && text[k + 2] == '/'
  }

  /** `id` is what stands between the first "://" and the next one, or the end. */
  predicate SecondPart(origin: string, id: string, start: nat) {
    && start + 3 + |id| <= |origin| && SchemeAt(origin, start) && (forall k :: 0 <= k < start ==> !SchemeAt(origin, k))
    && origin[start + 3..start + 3 + |id|] == id
    && (forall k :: start + 3 <= k < start + 3 + |id| ==> !SchemeAt(origin, k))
    && (start + 3 + |id| == |origin| || SchemeAt(origin, start + 3 + |id|))
  }

  ghost predicate IdOfOrigin(origin: string, id: string) {
    exists start: nat :: SecondPart(origin, id, start)
  }

  lemma StartsWithScheme(text: string)
    ensures |text| >= 3 && text[..3] == "://" <==> SchemeAt(text, 0)
  {
    if |text| >= 3 {
      assert text[..3] == [text[0], text[1], text[2]];
    }
  }

  /** The longest beginning of the text in which no "://" starts. */
  predicate FreeBeginning(text: string, id: string) {
    && |id| <= |text| && text[..|id|] == id
    && (forall k :: 0 <= k < |id| ==> !SchemeAt(text, k))
    && (|id| == |text| || SchemeAt(text, |id|))
  }

  lemma {:induction false} UntilSchemeExact(text: string, id: string)
    ensures UntilScheme(text) == id <==> FreeBeginning(text, id)
  {
    StartsWithScheme(text);
    if text != [] && !SchemeAt(text, 0) {
      var rest := text[1..];
      forall k: nat
        ensures SchemeAt(rest, k) <==> SchemeAt(text, k + 1)
      {
      }
      if id != [] {
        UntilSchemeExact(rest, id[1..]);
        assert id == [id[0]] + id[1..];
        assert FreeBeginning(text, id) <==> text[0] == id[0] && FreeBeginning(rest, id[1..]) by {
          FreeBeginningStep(text, id);
        }
      }
    }
  }

  lemma FreeBeginningStep(text: string, id: string)
    requires text != [] && id != [] && !SchemeAt(text, 0)
    ensures FreeBeginning(text, id) <==> text[0] == id[0] && FreeBeginning(text[1..], id[1..])
  {
    var rest, tail := text[1..], id[1..];
    assert forall k: nat :: SchemeAt(rest, k) <==> SchemeAt(text, k + 1);
    if |id| <= |text| {
      assert text[..|id|] == [text[0]] + rest[..|tail|];
      assert id == [id[0]] + tail;
    }
    if FreeBeginning(text, id) {
      forall k | 0 <= k < |tail|
        ensures !SchemeAt(rest, k)
      {
        assert !SchemeAt(text, k + 1);
      }
      assert text[..|id|][0] == id[0];
    }
    if text[0] == id[0] && FreeBeginning(rest, tail) {
      forall k | 0 <= k < |id|
        ensures !SchemeAt(text, k)
      {
        if k > 0 {
          assert !SchemeAt(rest, k - 1);
        }
      }
    }
  }

  lemma {:induction false} AfterSchemeExact(origin: string, id: string)
    ensures AfterScheme(origin) == Some(id) <==> IdOfOrigin(origin, id)
  {
    StartsWithScheme(origin);
    if |origin| >= 3 {
      if SchemeAt(origin, 0) {
        UntilSchemeExact(origin[3..], id);
        BeginsAtOnce(origin, id);
      } else {
        AfterSchemeExact(origin[1..], id);
        LaterStart(origin, id);
      }
    }
  }

  lemma BeginsAtOnce(origin: string, id: string)
    requires SchemeAt(origin, 0)
    ensures FreeBeginning(origin[3..], id) <==> IdOfOrigin(origin, id)
  {
    var rest := origin[3..];
    assert forall k: nat :: SchemeAt(rest, k) <==> SchemeAt(origin, k + 3);
    if FreeBeginning(rest, id) {
      assert origin[3..3 + |id|] == rest[..|id|];
      forall k | 3 <= k < 3 + |id|
        ensures !SchemeAt(origin, k)
      {
        assert !SchemeAt(rest, k - 3);
      }
      assert SecondPart(origin, id, 0);
    }
    if IdOfOrigin(origin, id) {
      var start: nat :| SecondPart(origin, id, start);
      assert origin[3..3 + |id|] == rest[..|id|];
      forall k | 0 <= k < |id|
        ensures !SchemeAt(rest, k)
      {
        assert !SchemeAt(origin, k + 3);
      }
    }
  }

  lemma LaterStart(origin: string, id: string)
    requires origin != [] && !SchemeAt(origin, 0)
    ensures IdOfOrigin(origin[1..], id) <==> IdOfOrigin(origin, id)
  {
    var rest := origin[1..];
    assert forall k: nat :: SchemeAt(rest, k) <==> SchemeAt(origin, k + 1);
    if IdOfOrigin(rest, id) {
      var start: nat :| SecondPart(rest, id, start);
      assert origin[start + 4..start + 4 + |id|] == rest[start + 3..start + 3 + |id|];
      forall k | 0 <= k < start + 1
        ensures !SchemeAt(origin, k)
      {
        assert k > 0 ==> !SchemeAt(rest, k - 1);
      }
      forall k | start + 4 <= k < start + 4 + |id|
        ensures !SchemeAt(origin, k)
      {
        assert !SchemeAt(rest, k - 1);
      }
      assert SecondPart(origin, id, start + 1);
    }
    if IdOfOrigin(origin, id) {
      var start: nat :| SecondPart(origin, id, start);
      assert origin[start + 3..start + 3 + |id|] == rest[start + 2..start + 2 + |id|];
      forall k | 0 <= k < start - 1
        ensures !SchemeAt(rest, k)
      {
        assert !SchemeAt(origin, k + 1);
      }
      forall k | start + 2 <= k < start + 2 + |id|
        ensures !SchemeAt(rest, k)
      {
        assert !SchemeAt(origin, k + 1);
      }
      assert SecondPart(rest, id, start - 1);
    }
  }

  // ----- the conversation -----

  /** A reply that reports the value of an evaluation that did not throw. */
  predicate Gives(reply: Value, value: Value) {
    && reply.Dict? && "exceptionDetails" !in reply.entries && "result" in reply.entries
    && reply.entries["result"].Dict? && "value" in reply.entries["result"].entries
    && reply.entries["result"].entries["value"] == value
  }

  predicate HasMember(reply: Value, key: string, value: Value) {
    reply.Dict? && key in reply.entries && reply.entries[key] == value
  }

  /** The four setup requests. */
  predicate OpensWith(requests: seq<Entries>, config: Config, target: Value) {
    && |requests| >= 4
    && requests[0] == map["id" := Int(1), "method" := Text("Browser.getVersion"), "params" := Dict(map[])]
    && requests[1] == map["id" := Int(2), "method" := Text("Extensions.loadUnpacked"),
                          "params" := Dict(map["path" := config.extension])]
    && requests[2] == map["id" := Int(3), "method" := Text("Target.createTarget"),
                          "params" := Dict(map["url" := Text(config.origin + "/repair-probe.html")])]
    && requests[3] == map["id" := Int(4), "method" := Text("Target.attachToTarget"),
                          "params" := Dict(map["targetId" := target, "flatten" := Bool(true)])]
  }

  /** The expression of request k, counted from zero: document polls, sentinel, worker. */
  function ExpressionAt(k: nat, polls: nat, work: Work): string {
    if k < 4 + polls then
      "({origin:location.origin,protocol:location.protocol,"
      + "probe:Boolean(globalThis.repairProbe),extensionId:globalThis.chrome?.runtime?.id??null})"
    else if k == 4 + polls || work.worker == None then work.sentinel
    else work.worker.value
  }

  predicate EvaluatesAt(requests: seq<Entries>, k: nat, session: Value, polls: nat, work: Work)
    requires k < |requests|
  {
    requests[k] == map["id" := Int(k + 1), "method" := Text("Runtime.evaluate"), "sessionId" := session,
                       "params" := Dict(map["expression" := Text(ExpressionAt(k, polls, work)),
                                            "awaitPromise" := Bool(true), "returnByValue" := Bool(true)])]
  }

  /** What the reply to request k reports: some value, in the last poll the claimed document, then
      the claimed sentinel and worker values. */
  ghost predicate ReportsAt(values: seq<Value>, k: nat, polls: nat, result: Result)
    requires k < |values|
  {
    && (exists value :: Gives(values[k], value))
    && (k == 3 + polls ==> Gives(values[k], result.document))
    && (k == 4 + polls ==> Gives(values[k], result.sentinel))
    && (k == 5 + polls ==> Gives(values[k], result.worker))
  }

  /** The whole exchange of requests and reply values a phase calls for. */
  ghost predicate Converses(
      requests: seq<Entries>, values: seq<Value>, config: Config, work: Work, result: Result, target: Value,
      session: Value, polls: nat, id: string)
  {
    && 1 <= polls <= 100
    && |requests| == |values| == 5 + polls + (if work.worker == None then 0 else 1)
    && OpensWith(requests, config, target)
    && (forall k :: 4 <= k < |requests| ==> EvaluatesAt(requests, k, session, polls, work))
    && values[0] == result.version && values[1] == result.loaded
    && HasMember(values[2], "targetId", target) && HasMember(values[3], "sessionId", session)
    && (forall k :: 4 <= k < |values| ==> ReportsAt(values, k, polls, result))
    && IdOfOrigin(config.origin, id)
    && result.loaded == Dict(map["id" := Text(id)])
    && result.document == Dict(map["origin" := Text(config.origin), "protocol" := Text("chrome-extension:"),
                                   "extensionId" := Text(id), "probe" := Bool(true)])
  }

  ghost predicate SomeConversation(
      requests: seq<Entries>, values: seq<Value>, config: Config, work: Work, result: Result)
  {
    exists target, session, polls, id :: Converses(requests, values, config, work, result, target, session, polls, id)
  }

  function ValuesOf(s: Scanned): seq<Value>
    requires Answered(s)
  {
    seq(|s.requests|, k requires 0 <= k < |s.requests| => s.replies[k + 1])
  }

  lemma ReportedExact(reply: Value, value: Value)
    ensures Reported(reply) == Some(value) <==> Gives(reply, value)
  {
  }

  lemma RequestExact(requests: seq<Entries>, k: nat, session: Value, polls: nat, work: Work, result: Result)
    requires 4 <= k < |requests| && |requests| == 4 + polls + |Closing(work, result)|
    ensures requests[k] == Evaluate(k + 1, session, Expected(k, polls, Closing(work, result))) <==>
            EvaluatesAt(requests, k, session, polls, work)
  {
    assert ExpressionAt(k, polls, work) == Expected(k, polls, Closing(work, result));
  }

  lemma ReplyExact(values: seq<Value>, k: nat, polls: nat, work: Work, result: Result)
    requires 4 <= k < |values| && |values| == 4 + polls + |Closing(work, result)|
    ensures ReportsAt(values, k, polls, result) <==>
            && Reported(values[k]).Some?
            && (k >= 4 + polls ==> Reported(values[k]).value == Closing(work, result)[k - 4 - polls].1)
            && (k == 3 + polls ==> Reported(values[k]).value == result.document)
  {
    hide Reported, Gives;
    forall v
      ensures Reported(values[k]) == Some(v) <==> Gives(values[k], v)
    {
      ReportedExact(values[k], v);
    }
    if Reported(values[k]).Some? {
      assert Gives(values[k], Reported(values[k]).value);
    }
  }

  lemma EvaluationExact(
      s: Scanned, k: nat, session: Value, polls: nat, work: Work, result: Result)
    requires Answered(s) && polls >= 1 && |s.requests| == 4 + polls + |Closing(work, result)| && 4 <= k < |s.requests|
    ensures EvaluationFits(k, s.requests[k], s.replies[k + 1], session, polls, Closing(work, result), result) <==>
            EvaluatesAt(s.requests, k, session, polls, work) && ReportsAt(ValuesOf(s), k, polls, result)
  {
    hide Reported, Evaluate, Expected, EvaluatesAt, ReportsAt, Closing;
    RequestExact(s.requests, k, session, polls, work, result);
    ReplyExact(ValuesOf(s), k, polls, work, result);
  }

  lemma SetupExact(requests: seq<Entries>, config: Config, target: Value)
    requires |requests| >= 4
    ensures requests[..SETUP_CALLS] == Setup(config, target) <==> OpensWith(requests, config, target)
  {
    var wanted := Setup(config, target);
    assert requests[..4] == wanted <==>
           requests[0] == wanted[0] && requests[1] == wanted[1] && requests[2] == wanted[2] && requests[3] == wanted[3];
  }

  lemma FittingCallsConverse(s: Scanned, config: Config, work: Work, result: Result)
    requires CallsFit(s, config, work, result)
    ensures SomeConversation(s.requests, ValuesOf(s), config, work, result)
  {
    hide Setup, Evaluate, EvaluationFits, EvaluatesAt, ReportsAt, OpensWith, AfterScheme, IdOfOrigin, EvaluationsFit;
    var target, session := Member(s.replies[3], "targetId").value, Member(s.replies[4], "sessionId").value;
    var polls: nat := Polls(s, work, result);
    var id := AfterScheme(config.origin).value;
    AfterSchemeExact(config.origin, id);
    SetupExact(s.requests, config, target);
    EvaluationsExact(s, session, polls, work, result);
    assert Converses(s.requests, ValuesOf(s), config, work, result, target, session, polls, id);
  }

  lemma EvaluationsExact(s: Scanned, session: Value, polls: nat, work: Work, result: Result)
    requires Answered(s) && polls >= 1 && |s.requests| == 4 + polls + |Closing(work, result)|
    ensures EvaluationsFit(s, session, polls, Closing(work, result), result) <==>
            && (forall k :: 4 <= k < |s.requests| ==> EvaluatesAt(s.requests, k, session, polls, work))
            && (forall k :: 4 <= k < |s.requests| ==> ReportsAt(ValuesOf(s), k, polls, result))
  {
    hide EvaluationFits, EvaluatesAt, ReportsAt, Closing;
    forall k | 4 <= k < |s.requests|
      ensures EvaluationFits(k, s.requests[k], s.replies[k + 1], session, polls, Closing(work, result), result) <==>
              EvaluatesAt(s.requests, k, session, polls, work) && ReportsAt(ValuesOf(s), k, polls, result)
    {
      EvaluationExact(s, k, session, polls, work, result);
    }
  }

  lemma ConversationFits(s: Scanned, config: Config, work: Work, result: Result)
    requires Answered(s) && SomeConversation(s.requests, ValuesOf(s), config, work, result)
    ensures CallsFit(s, config, work, result)
  {
    hide Setup, Evaluate, EvaluationFits, EvaluatesAt, ReportsAt, OpensWith, AfterScheme, IdOfOrigin, EvaluationsFit;
    var target, session, polls, id :|
      Converses(s.requests, ValuesOf(s), config, work, result, target, session, polls, id);
    AfterSchemeExact(config.origin, id);
    SetupExact(s.requests, config, target);
    EvaluationsExact(s, session, polls, work, result);
  }

  /** Some row replies to request i with this value. */
  ghost predicate RepliedWith(log: seq<LogRow>, i: int, value: Value) {
    exists p :: 0 <= p < |log| && log[p].Receive? && RowReplies(log[p].response, i, value)
  }

  predicate RowReplies(response: Entries, i: int, value: Value) {
    "id" in response && response["id"] == Int(i) && "result" in response && response["result"] == value
  }

  /** The log's requests in order, each with the value replied to it. */
  ghost predicate Exchanges(log: seq<LogRow>, values: seq<Value>) {
    |values| == |Sends(log)| && forall k :: 0 <= k < |values| ==> RepliedWith(log, k + 1, values[k])
  }

  lemma ScannedValues(log: seq<LogRow>, s: Scanned, values: seq<Value>)
    requires Summarizes(s, log) && Exchanges(log, values) && WellPaired(log) && |values| >= 6
    ensures Answered(s) && ValuesOf(s) == values
  {
    hide WellPaired, Sends;
    forall i | 1 <= i <= |values|
      ensures i in s.replies && s.replies[i] == values[i - 1]
    {
      var value := values[i - 1];
      assert RepliedWith(log, i, value);
      var p :| 0 <= p < |log| && log[p].Receive? && RowReplies(log[p].response, i, value);
      assert Replies(log, p);
    }
    forall i | i in s.replies
      ensures 1 <= i <= |s.requests|
    {
      var p :| Replies(log, p) && log[p].response["id"] == Int(i);
      ReplyIsNumbered(log, p, i);
    }
  }

  lemma ReplyIsNumbered(log: seq<LogRow>, p: int, i: int)
    requires WellPaired(log) && Replies(log, p) && log[p].response["id"] == Int(i)
    ensures 1 <= i <= |Sends(log)|
  {
    assert ReplyInOrder(log, p);
    MoreSends(log, p);
  }

  lemma {:induction false} MoreSends(log: seq<LogRow>, p: nat)
    requires p <= |log|
    ensures |Sends(log[..p])| <= |Sends(log)|
    decreases |log|
  {
    if p < |log| {
      var init := log[..|log| - 1];
      MoreSends(init, p);
      assert init[..p] == log[..p];
    } else {
      assert log[..p] == log;
    }
  }

  lemma AnsweredExchanges(log: seq<LogRow>, s: Scanned)
    requires Summarizes(s, log) && Answered(s)
    ensures Exchanges(log, ValuesOf(s))
  {
    hide Sends;
    var values := ValuesOf(s);
    forall k | 0 <= k < |values|
      ensures RepliedWith(log, k + 1, values[k])
    {
      assert k + 1 in s.replies;
      var p :| Replies(log, p) && log[p].response["id"] == Int(k + 1);
      assert RowReplies(log[p].response, k + 1, values[k]);
    }
  }

  /** Acceptance, with every row, call and value written out. */
  lemma AcceptedLiterally(log: seq<LogRow>, config: Config, work: Work, result: Result)
    ensures Accepts(log, config, work, result) <==>
            && RowsInOrder(log)
            && exists values :: Exchanges(log, values) && SomeConversation(Sends(log), values, config, work, result)
  {
    hide WellPaired, RowsInOrder, CallsFit, SomeConversation, Exchanges, Sends;
    PairedExact(log);
    ScanExact(log);
    if Accepts(log, config, work, result) {
      var s := Scan(log).value;
      FitsAreAnswered(s, config, work, result);
      FittingCallsConverse(s, config, work, result);
      AnsweredExchanges(log, s);
      assert Exchanges(log, ValuesOf(s)) && SomeConversation(Sends(log), ValuesOf(s), config, work, result);
    }
    if RowsInOrder(log) {
      if values :| Exchanges(log, values) && SomeConversation(Sends(log), values, config, work, result) {
        var s := Scan(log).value;
        ConversationIsLong(Sends(log), values, config, work, result);
        ScannedValues(log, s, values);
        ConversationFits(s, config, work, result);
      }
    }
  }

  lemma FitsAreAnswered(s: Scanned, config: Config, work: Work, result: Result)
    requires CallsFit(s, config, work, result)
    ensures Answered(s)
  {
  }

  lemma ConversationIsLong(
      requests: seq<Entries>, values: seq<Value>, config: Config, work: Work, result: Result)
    requires SomeConversation(requests, values, config, work, result)
    ensures |values| >= 6
  {
  }
}
