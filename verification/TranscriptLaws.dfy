/** Which transcripts the verifier accepts. */
module TranscriptLaws {
  import opened Prelude
  import opened Transcript

  /** The log's own requests and replies are the ones the phase calls for. */
  ghost predicate Judged(log: seq<LogRow>, config: Config, work: Work, result: Result) {
    exists s :: Summarizes(s, log) && CallsFit(s, config, work, result)
  }

  lemma SummaryUnique(log: seq<LogRow>, s: Scanned, t: Scanned)
    requires Summarizes(s, log) && Summarizes(t, log)
    ensures s == t
  {
    forall i
      ensures i in s.replies <==> i in t.replies
      ensures i in s.replies && i in t.replies ==> s.replies[i] == t.replies[i]
    {
      if i in s.replies {
        var p :| Replies(log, p) && log[p].response["id"] == Int(i);
      }
      if i in t.replies {
        var p :| Replies(log, p) && log[p].response["id"] == Int(i);
      }
    }
    assert s.replies == t.replies;
  }

  /** Acceptance, without the scan: numbered requests, replies in order and unique, and the
      calls and values of the phase. */
  lemma AcceptedExact(log: seq<LogRow>, config: Config, work: Work, result: Result)
    ensures Accepts(log, config, work, result) <==> WellPaired(log) && Judged(log, config, work, result)
  {
    hide WellPaired, Summarizes, CallsFit;
    ScanExact(log);
    if WellPaired(log) && Judged(log, config, work, result) {
      var s :| Summarizes(s, log) && CallsFit(s, config, work, result);
      SummaryUnique(log, s, Scan(log).value);
    }
  }

  /** The reply at position p answers request number i, which was sent before it. */
  predicate Answers(log: seq<LogRow>, p: int, i: int) {
    && Replies(log, p) && log[p].response["id"] == Int(i)
    && 1 <= i <= |Sends(log[..p])| && "error" !in log[p].response
  }

  ghost predicate HasAnswer(log: seq<LogRow>, i: int) {
    exists p :: Answers(log, p, i)
  }

  function Evaluations(session: Value, polls: nat, closing: seq<(string, Value)>): seq<Entries> {
    seq(polls + |closing|, k requires 0 <= k < polls + |closing| =>
      Evaluate(SETUP_CALLS + k + 1, session, Expected(SETUP_CALLS + k, polls, closing)))
  }

  /** The row at position p carries this result. */
  predicate Carries(log: seq<LogRow>, p: int, value: Value) {
    Replies(log, p) && "result" in log[p].response && log[p].response["result"] == value
  }

  /** The row at position p reports that its evaluation gave this value. */
  predicate Reports(log: seq<LogRow>, p: int, value: Value) {
    Replies(log, p) && "result" in log[p].response && Reported(log[p].response["result"]) == Some(value)
  }

  /** What the reply to request number i has to say, of `polls` polls and the closing expressions. */
  ghost predicate SaysAsClaimed(
      log: seq<LogRow>, p: int, i: int, target: Value, session: Value, polls: nat, closing: seq<(string, Value)>,
      result: Result)
    requires 1 <= i <= SETUP_CALLS + polls + |closing| && Replies(log, p)
  {
    && (i == 1 ==> Carries(log, p, result.version))
    && (i == 2 ==> Carries(log, p, result.loaded))
    && (i == 3 ==> "result" in log[p].response && Member(log[p].response["result"], "targetId") == Some(target))
    && (i == 4 ==> "result" in log[p].response && Member(log[p].response["result"], "sessionId") == Some(session))
    && (i > SETUP_CALLS ==> exists value :: Reports(log, p, value))
    && (i == SETUP_CALLS + polls ==> Reports(log, p, result.document))
    && (i > SETUP_CALLS + polls ==> Reports(log, p, closing[i - SETUP_CALLS - polls - 1].1))
  }

  lemma ReplyIsScanned(log: seq<LogRow>, s: Scanned, p: int, i: int)
    requires Summarizes(s, log) && Answers(log, p, i)
    ensures i in s.replies && Carries(log, p, s.replies[i])
  {
  }

  lemma SetupReply(
      log: seq<LogRow>, s: Scanned, p: int, i: int, config: Config, work: Work, result: Result)
    requires Summarizes(s, log) && CallsFit(s, config, work, result) && Answers(log, p, i) && 1 <= i <= SETUP_CALLS
    ensures SaysAsClaimed(
              log, p, i, Member(s.replies[3], "targetId").value, Member(s.replies[4], "sessionId").value,
              Polls(s, work, result), Closing(work, result), result)
  {
    hide Summarizes, EvaluationsFit, Answered, Setup, DocumentOf, AfterScheme;
    ReplyIsScanned(log, s, p, i);
  }

  lemma EvaluationReplyFits(
      log: seq<LogRow>, s: Scanned, p: int, i: int, target: Value, session: Value, polls: nat,
      closing: seq<(string, Value)>, result: Result)
    requires Summarizes(s, log) && Answered(s) && |s.requests| == SETUP_CALLS + polls + |closing|
    requires EvaluationsFit(s, session, polls, closing, result) && polls >= 1
    requires Answers(log, p, i) && SETUP_CALLS < i <= |s.requests|
    ensures SaysAsClaimed(log, p, i, target, session, polls, closing, result)
  {
    assert EvaluationFits(i - 1, s.requests[i - 1], s.replies[i], session, polls, closing, result);
    hide Summarizes, Reported, Evaluate, Expected, EvaluationsFit;
    ReplyIsScanned(log, s, p, i);
    assert Reports(log, p, Reported(s.replies[i]).value);
  }

  /** Every accepted log sends the four setup calls, then 1 to 100 document polls, then the
      closing expressions, and nothing else; each request has exactly one reply, after it; and
      the replies carry the values the result claims: the version, the loaded extension, the
      document in the last poll and the closing values. */
  lemma AcceptedShape(log: seq<LogRow>, config: Config, work: Work, result: Result)
      returns (target: Value, session: Value, polls: nat)
    requires Accepts(log, config, work, result)
    ensures 1 <= polls <= MAX_POLLS
    ensures Sends(log) == Setup(config, target) + Evaluations(session, polls, Closing(work, result))
    ensures |Sends(log)| == SETUP_CALLS + polls + |Closing(work, result)|
    ensures forall i :: 1 <= i <= |Sends(log)| ==> HasAnswer(log, i)
    ensures forall i, p, q :: Answers(log, p, i) && Answers(log, q, i) ==> p == q
    ensures forall i, p :: Answers(log, p, i) ==>
              && 1 <= i <= |Sends(log)|
              && SaysAsClaimed(log, p, i, target, session, polls, Closing(work, result), result)
  {
    ScanExact(log);
    var s := Scan(log).value;
    target, session := Member(s.replies[3], "targetId").value, Member(s.replies[4], "sessionId").value;
    polls := Polls(s, work, result);
    AcceptedCalls(log, s, config, work, result);
    hide Accepts, WellPaired, Setup, CallsFit, SaysAsClaimed, Scan, Evaluations, HasAnswer;
    forall i, p | Answers(log, p, i)
      ensures 1 <= i <= |Sends(log)|
      ensures SaysAsClaimed(log, p, i, target, session, polls, Closing(work, result), result)
    {
      EachReply(log, s, p, i, config, work, result);
    }
    forall i | 1 <= i <= |Sends(log)|
      ensures HasAnswer(log, i)
    {
      EachIsAnswered(log, s, i);
    }
    AnsweredOnce(log);
  }

  lemma AcceptedCalls(log: seq<LogRow>, s: Scanned, config: Config, work: Work, result: Result)
    requires Summarizes(s, log) && CallsFit(s, config, work, result)
    ensures var target, session := Member(s.replies[3], "targetId").value, Member(s.replies[4], "sessionId").value;
            var polls: nat := Polls(s, work, result);
            && Sends(log) == Setup(config, target) + Evaluations(session, polls, Closing(work, result))
            && |Sends(log)| == SETUP_CALLS + polls + |Closing(work, result)|
  {
    hide Setup, Reported, DocumentOf;
    EachCall(s, Member(s.replies[4], "sessionId").value, Polls(s, work, result), Closing(work, result), result);
    assert s.requests == s.requests[..SETUP_CALLS] + s.requests[SETUP_CALLS..];
  }

  lemma EachReply(log: seq<LogRow>, s: Scanned, p: int, i: int, config: Config, work: Work, result: Result)
    requires Summarizes(s, log) && CallsFit(s, config, work, result) && Answers(log, p, i)
    ensures 1 <= i <= |s.requests|
    ensures SaysAsClaimed(
              log, p, i, Member(s.replies[3], "targetId").value, Member(s.replies[4], "sessionId").value,
              Polls(s, work, result), Closing(work, result), result)
  {
    hide Summarizes, EvaluationsFit, SaysAsClaimed, DocumentOf, Setup;
    ReplyIsScanned(log, s, p, i);
    if i <= SETUP_CALLS {
      SetupReply(log, s, p, i, config, work, result);
    } else {
      EvaluationReplyFits(log, s, p, i, Member(s.replies[3], "targetId").value, Member(s.replies[4], "sessionId").value,
                          Polls(s, work, result), Closing(work, result), result);
    }
  }

  lemma EachIsAnswered(log: seq<LogRow>, s: Scanned, i: int)
    requires WellPaired(log) && Summarizes(s, log) && Answered(s) && 1 <= i <= |s.requests|
    ensures HasAnswer(log, i)
  {
    assert i in s.replies;
    var p :| Replies(log, p) && log[p].response["id"] == Int(i);
    assert ReplyInOrder(log, p);
    assert Answers(log, p, i);
  }

  lemma AnsweredOnce(log: seq<LogRow>)
    requires WellPaired(log)
    ensures forall i, p, q :: Answers(log, p, i) && Answers(log, q, i) ==> p == q
  {
  }

  lemma EachCall(s: Scanned, session: Value, polls: nat, closing: seq<(string, Value)>, result: Result)
    requires Answered(s) && |s.requests| == SETUP_CALLS + polls + |closing|
    requires EvaluationsFit(s, session, polls, closing, result)
    ensures s.requests[SETUP_CALLS..] == Evaluations(session, polls, closing)
  {
    var sent, wanted := s.requests[SETUP_CALLS..], Evaluations(session, polls, closing);
    forall k | 0 <= k < |wanted|
      ensures sent[k] == wanted[k]
    {
      assert EvaluationFits(SETUP_CALLS + k, s.requests[SETUP_CALLS + k], s.replies[SETUP_CALLS + k + 1], session,
        polls, closing, result);
    }
  }

  // ----- events do not matter -----

  predicate IsEvent(row: LogRow) {
    row.Receive? && "id" !in row.response
  }

  function WithoutEvents(log: seq<LogRow>): seq<LogRow> {
    if log == [] then []
    else WithoutEvents(log[..|log| - 1]) + if IsEvent(log[|log| - 1]) then [] else [log[|log| - 1]]
  }

  lemma {:induction false} ScanIgnoresEvents(log: seq<LogRow>)
    ensures Scan(WithoutEvents(log)) == Scan(log)
  {
    if log != [] {
      var init, last := log[..|log| - 1], log[|log| - 1];
      ScanIgnoresEvents(init);
      if IsEvent(last) {
        assert WithoutEvents(log) == WithoutEvents(init);
      } else {
        var kept := WithoutEvents(log);
        assert kept[..|kept| - 1] == WithoutEvents(init) && kept[|kept| - 1] == last;
      }
    }
  }

  lemma {:induction false} WithoutEventsConcat(a: seq<LogRow>, b: seq<LogRow>)
    ensures WithoutEvents(a + b) == WithoutEvents(a) + WithoutEvents(b)
    decreases |b|
  {
    if b == [] {
      assert a + b == a;
    } else {
      assert (a + b)[..|a + b| - 1] == a + b[..|b| - 1];
      WithoutEventsConcat(a, b[..|b| - 1]);
    }
  }

  /** Rows without an id, inserted anywhere, change neither an acceptance nor a rejection. */
  lemma EventsAreIgnored(
      a: seq<LogRow>, events: seq<LogRow>, b: seq<LogRow>, config: Config, work: Work, result: Result)
    requires forall row :: row in events ==> IsEvent(row)
    ensures Accepts(a + events + b, config, work, result) <==> Accepts(a + b, config, work, result)
  {
    ScanIgnoresEvents(a + events + b);
    ScanIgnoresEvents(a + b);
    WithoutEventsConcat(a + events, b);
    WithoutEventsConcat(a, events);
    WithoutEventsConcat(a, b);
    OnlyEvents(events);
    assert WithoutEvents(a) + [] == WithoutEvents(a);
  }

  lemma {:induction false} OnlyEvents(events: seq<LogRow>)
    requires forall row :: row in events ==> IsEvent(row)
    ensures WithoutEvents(events) == []
  {
    if events != [] {
      OnlyEvents(events[..|events| - 1]);
    }
  }

  // ----- a conforming driver -----

  /** The rows of a driver that awaits each reply before its next request. */
  function DriverLog(calls: seq<Entries>, results: seq<Value>): seq<LogRow>
    requires |calls| == |results|
  {
    if calls == [] then []
    else
      var n := |calls| - 1;
      DriverLog(calls[..n], results[..n]) + [Send(calls[n]), Receive(map["id" := Int(n + 1), "result" := results[n]])]
  }

  function Numbered(results: seq<Value>): map<int, Value> {
    if results == [] then map[]
    else
      var n := |results| - 1;
      Numbered(results[..n])[n + 1 := results[n]]
  }

  lemma {:induction false} NumberedAt(results: seq<Value>)
    ensures forall i :: i in Numbered(results) <==> 1 <= i <= |results|
    ensures forall i :: 1 <= i <= |results| ==> Numbered(results)[i] == results[i - 1]
    decreases |results|
  {
    if results != [] {
      NumberedAt(results[..|results| - 1]);
    }
  }

  predicate CallsNumbered(calls: seq<Entries>) {
    forall k :: 0 <= k < |calls| ==> "id" in calls[k] && calls[k]["id"] == Int(k + 1)
  }

  lemma ExchangeScan(init: seq<LogRow>, s: Scanned, request: Entries, value: Value)
    requires Scan(init) == Some(s)
    requires "id" in request && request["id"] == Int(|s.requests| + 1) && |s.requests| + 1 !in s.replies
    ensures Scan(init + [Send(request), Receive(map["id" := Int(|s.requests| + 1), "result" := value])])
            == Some(Scanned(s.requests + [request], s.replies[|s.requests| + 1 := value]))
  {
    var reply := map["id" := Int(|s.requests| + 1), "result" := value];
    var log := init + [Send(request), Receive(reply)];
    assert log[..|log| - 1] == init + [Send(request)];
    assert (init + [Send(request)])[..|init|] == init;
  }

  lemma {:induction false} DriverScan(calls: seq<Entries>, results: seq<Value>)
    requires |calls| == |results| && CallsNumbered(calls)
    ensures Scan(DriverLog(calls, results)) == Some(Scanned(calls, Numbered(results)))
    decreases |calls|
  {
    if calls != [] {
      var n := |calls| - 1;
      DriverScan(calls[..n], results[..n]);
      NumberedAt(results[..n]);
      ExchangeScan(DriverLog(calls[..n], results[..n]), Scanned(calls[..n], Numbered(results[..n])), calls[n],
        results[n]);
      assert calls == calls[..n] + [calls[n]];
    }
  }

  /** What the browser answers during one phase. */
  datatype Session = Session(version: Value, target: Value, session: Value, polls: seq<Value>, sentinel: Value,
    worker: Value)

  function EvaluationReply(value: Value): Value {
    Dict(map["result" := Dict(map["value" := value])])
  }

  function EvaluationReplies(values: seq<Value>): (r: seq<Value>)
    ensures |r| == |values|
    ensures forall k :: 0 <= k < |r| ==> r[k] == EvaluationReply(values[k])
  {
    seq(|values|, k requires 0 <= k < |values| => EvaluationReply(values[k]))
  }

  function ClosingValues(closing: seq<(string, Value)>): (r: seq<Value>)
    ensures |r| == |closing|
    ensures forall k :: 0 <= k < |r| ==> r[k] == closing[k].1
  {
    seq(|closing|, k requires 0 <= k < |closing| => closing[k].1)
  }

  function LoadedOf(config: Config): Value
    requires AfterScheme(config.origin).Some?
  {
    Dict(map["id" := Text(AfterScheme(config.origin).value)])
  }

  /** The result a driver reports for its phase. */
  function Report(config: Config, answers: Session): Result
    requires AfterScheme(config.origin).Some?
  {
    Result(answers.version, LoadedOf(config), DocumentOf(config).value, answers.sentinel, answers.worker)
  }

  function DriverCalls(config: Config, work: Work, answers: Session): seq<Entries>
    requires AfterScheme(config.origin).Some?
  {
    Setup(config, answers.target)
      + Evaluations(answers.session, |answers.polls|, Closing(work, Report(config, answers)))
  }

  function DriverResults(config: Config, work: Work, answers: Session): seq<Value>
    requires AfterScheme(config.origin).Some?
  {
    [answers.version, LoadedOf(config), Dict(map["targetId" := answers.target]),
      Dict(map["sessionId" := answers.session])]
    + EvaluationReplies(answers.polls + ClosingValues(Closing(work, Report(config, answers))))
  }

  lemma SetupNumbered(config: Config, target: Value, k: nat)
    requires k < SETUP_CALLS
    ensures "id" in Setup(config, target)[k] && Setup(config, target)[k]["id"] == Int(k + 1)
  {
    var setup := Setup(config, target);
    assert setup[0]["id"] == Int(1) && setup[1]["id"] == Int(2) && setup[2]["id"] == Int(3) && setup[3]["id"] == Int(4);
  }

  lemma DriverCallsNumbered(config: Config, work: Work, answers: Session)
    requires AfterScheme(config.origin).Some?
    ensures CallsNumbered(DriverCalls(config, work, answers))
  {
    hide Setup, Expected, AfterScheme;
    var calls := DriverCalls(config, work, answers);
    assert |Setup(config, answers.target)| == SETUP_CALLS by {
      SetupLength(config, answers.target);
    }
    forall k | 0 <= k < |calls|
      ensures "id" in calls[k] && calls[k]["id"] == Int(k + 1)
    {
      if k < SETUP_CALLS {
        SetupNumbered(config, answers.target, k);
        assert calls[k] == Setup(config, answers.target)[k];
      } else {
        var evaluations := Evaluations(answers.session, |answers.polls|, Closing(work, Report(config, answers)));
        assert calls[k] == evaluations[k - SETUP_CALLS];
        assert evaluations[k - SETUP_CALLS] ==
               Evaluate(k + 1, answers.session, Expected(k, |answers.polls|, Closing(work, Report(config, answers))));
      }
    }
  }

  lemma SetupLength(config: Config, target: Value)
    ensures |Setup(config, target)| == SETUP_CALLS
  {
  }

  /** The scanned state of a conforming driver. */
  function DriverState(config: Config, work: Work, answers: Session): Scanned
    requires AfterScheme(config.origin).Some?
  {
    Scanned(DriverCalls(config, work, answers), Numbered(DriverResults(config, work, answers)))
  }

  lemma DriverRequests(config: Config, work: Work, answers: Session)
    requires AfterScheme(config.origin).Some?
    ensures var calls := DriverCalls(config, work, answers);
            var closing := Closing(work, Report(config, answers));
            && |calls| == SETUP_CALLS + |answers.polls| + |closing|
            && calls[..SETUP_CALLS] == Setup(config, answers.target)
            && calls[SETUP_CALLS..] == Evaluations(answers.session, |answers.polls|, closing)
  {
    hide Setup, AfterScheme, Evaluate, Expected;
    SetupLength(config, answers.target);
  }

  lemma DriverResultsAt(config: Config, work: Work, answers: Session)
    requires AfterScheme(config.origin).Some?
    ensures var results := DriverResults(config, work, answers);
            var values := answers.polls + ClosingValues(Closing(work, Report(config, answers)));
            && |results| == SETUP_CALLS + |values|
            && results[0] == answers.version && results[1] == LoadedOf(config)
            && results[2] == Dict(map["targetId" := answers.target])
              && results[3] == Dict(map["sessionId" := answers.session])
            && (forall k :: 0 <= k < |values| ==> results[SETUP_CALLS + k] == EvaluationReply(values[k]))
  {
    hide AfterScheme, LoadedOf, EvaluationReply;
  }

  lemma DriverReplies(config: Config, work: Work, answers: Session)
    requires AfterScheme(config.origin).Some? && |answers.polls| >= 1
    ensures var s := DriverState(config, work, answers);
            var closing := Closing(work, Report(config, answers));
            && |s.requests| == SETUP_CALLS + |answers.polls| + |closing| == |DriverResults(config, work, answers)|
            && Answered(s)
            && s.requests[..SETUP_CALLS] == Setup(config, answers.target)
            && s.requests[SETUP_CALLS..] == Evaluations(answers.session, |answers.polls|, closing)
            && s.replies[1] == answers.version && s.replies[2] == LoadedOf(config)
            && s.replies[3] == Dict(map["targetId" := answers.target])
              && s.replies[4] == Dict(map["sessionId" := answers.session])
            && (forall k :: 0 <= k < |answers.polls| + |closing| ==>
                  s.replies[SETUP_CALLS + k + 1] == EvaluationReply((answers.polls + ClosingValues(closing))[k]))
  {
    hide Setup, AfterScheme, LoadedOf, EvaluationReply, Evaluate, Expected, Numbered, DriverCalls, DriverResults;
    hide Evaluations;
    DriverRequests(config, work, answers);
    DriverResultsAt(config, work, answers);
    NumberedAt(DriverResults(config, work, answers));
  }

  /** A driver that polls until the document is the expected one, at most 100 times, and then
      evaluates the closing expressions is accepted with the result it reports, whatever
      events arrive in between. */
  lemma ConformingDriverIsAccepted(log: seq<LogRow>, config: Config, work: Work, answers: Session)
    requires AfterScheme(config.origin).Some?
    requires 1 <= |answers.polls| <= MAX_POLLS
    requires answers.polls[|answers.polls| - 1] == DocumentOf(config).value
    requires WithoutEvents(log) == DriverLog(DriverCalls(config, work, answers), DriverResults(config, work, answers))
    ensures Accepts(log, config, work, Report(config, answers))
  {
    hide AfterScheme, Setup, EvaluationReply, DriverCalls, DriverResults, Numbered, EvaluationsFit, DocumentOf;
    hide LoadedOf, Closing;
    var result := Report(config, answers);
    var s := DriverState(config, work, answers);
    DriverCallsNumbered(config, work, answers);
    DriverReplies(config, work, answers);
    DriverScan(DriverCalls(config, work, answers), DriverResults(config, work, answers));
    ScanIgnoresEvents(log);
    DriverEvaluations(s, answers, Closing(work, result), result);
    DriverSetup(s, config, answers);
    OriginKnown(config);
  }

  lemma OriginKnown(config: Config)
    requires AfterScheme(config.origin).Some?
    ensures DocumentOf(config).Some?
  {
  }

  lemma DriverSetup(s: Scanned, config: Config, answers: Session)
    requires Answered(s) && AfterScheme(config.origin).Some?
    requires s.requests[..SETUP_CALLS] == Setup(config, answers.target)
    requires s.replies[1] == answers.version && s.replies[2] == LoadedOf(config)
    requires s.replies[3] == Dict(map["targetId" := answers.target])
      && s.replies[4] == Dict(map["sessionId" := answers.session])
    ensures SetupFits(s, config, Report(config, answers))
    ensures Member(s.replies[4], "sessionId") == Some(answers.session)
  {
    hide Setup, AfterScheme;
  }

  lemma DriverEvaluations(s: Scanned, answers: Session, closing: seq<(string, Value)>, result: Result)
    requires 1 <= |answers.polls| && answers.polls[|answers.polls| - 1] == result.document
    requires |s.requests| == SETUP_CALLS + |answers.polls| + |closing| && Answered(s)
    requires s.requests[SETUP_CALLS..] == Evaluations(answers.session, |answers.polls|, closing)
    requires forall k :: 0 <= k < |answers.polls| + |closing| ==>
               s.replies[SETUP_CALLS + k + 1] == EvaluationReply((answers.polls + ClosingValues(closing))[k])
    ensures EvaluationsFit(s, answers.session, |answers.polls|, closing, result)
  {
    hide EvaluationFits, Evaluations, EvaluationReply;
    forall index | SETUP_CALLS <= index < |s.requests|
      ensures EvaluationFits(index, s.requests[index], s.replies[index + 1], answers.session, |answers.polls|,
        closing, result)
    {
      DriverEvaluation(s, answers, closing, result, index);
    }
  }

  lemma DriverEvaluation(s: Scanned, answers: Session, closing: seq<(string, Value)>, result: Result, index: int)
    requires 1 <= |answers.polls| && answers.polls[|answers.polls| - 1] == result.document
    requires |s.requests| == SETUP_CALLS + |answers.polls| + |closing| && Answered(s)
    requires s.requests[SETUP_CALLS..] == Evaluations(answers.session, |answers.polls|, closing)
    requires forall k :: 0 <= k < |answers.polls| + |closing| ==>
               s.replies[SETUP_CALLS + k + 1] == EvaluationReply((answers.polls + ClosingValues(closing))[k])
    requires SETUP_CALLS <= index < |s.requests|
    ensures EvaluationFits(index, s.requests[index], s.replies[index + 1], answers.session, |answers.polls|, closing,
      result)
  {
    hide Evaluate, Expected, Reported;
    var k := index - SETUP_CALLS;
    var value := (answers.polls + ClosingValues(closing))[k];
    assert s.requests[index] == s.requests[SETUP_CALLS..][k];
    assert s.replies[SETUP_CALLS + k + 1] == EvaluationReply(value);
    ReportedReply(value);
  }

  lemma ReportedReply(value: Value)
    ensures Reported(EvaluationReply(value)) == Some(value)
  {
  }
}
