/**
 Flow control over whole runs of a transaction (internal/corazawaf/rulegroup.go): what skip and the
 kinds of allow leave behind, whatever calls follow.
 */
module FlowRuns {
  import opened Options
  import opened ByteStrings
  import opened RuleFlow
  import opened TransactionModel

  /** Between calls no skip count and no allow:phase is left over. */
  lemma {:induction false} PhaseLocal(c: Config, s: State, calls: seq<Call>)
    requires InLimits(c, s) && s.tx.skip == 0 && s.tx.allow != AllowPhase
    ensures DoAll(c, s, calls).tx.skip == 0 && DoAll(c, s, calls).tx.allow != AllowPhase
    decreases |calls|
  {
    hide Do;
    if calls != [] {
      DoInLimits(c, s, calls[0]);
      DoPhaseLocal(c, s, calls[0]);
      PhaseLocal(c, Do(c, s, calls[0]), calls[1..]);
    }
  }

  lemma DoPhaseLocal(c: Config, s: State, call: Call)
    requires InLimits(c, s) && s.tx.skip == 0 && s.tx.allow != AllowPhase
    ensures Do(c, s, call).tx.skip == 0 && Do(c, s, call).tx.allow != AllowPhase
  {
    hide EvalFrom;
  }

  /** The request phases are over, or what is left of them is allowed. */
  ghost predicate RequestAllowed(s: State) {
    s.tx.lastPhase >= 2 || (s.tx.lastPhase == 1 && s.tx.allow == AllowRequest)
  }

  /** `s'` extends the history of `s` by evaluations of response and logging phases only. */
  ghost predicate OnlyResponse(s: State, s': State) {
    && s.tx.evaluated <= s'.tx.evaluated
    && forall k | |s.tx.evaluated| <= k < |s'.tx.evaluated| :: s'.tx.evaluated[k].phase >= 3
  }

  lemma EvalPhaseAllowed(c: Config, s: State, phase: Phase, vars: Vars)
    requires RequestAllowed(s) && phase >= 2 && (phase == 2 ==> s.tx.lastPhase == 1)
    ensures var s' := EvalPhase(c, s, phase, vars); RequestAllowed(s') && OnlyResponse(s, s')
  {
    hide EvalFrom;
    var start := s.tx.(vars := vars).(lastPhase := phase);
    EvalFromInOrder(c.rules, phase, 0, start);
    if phase == 2 {
      AllowSuppresses(c.rules, 2, 0, start);
    }
  }

  lemma FillAllowed(c: Config, s: State, b: Bytes)
    requires RequestAllowed(s)
    ensures |s.request| <= c.requestLimit <= |s.request| + |b| ==>
              var s' := FillRequest(c, s, b).state; RequestAllowed(s') && OnlyResponse(s, s')
    ensures |s.response| <= c.responseLimit <= |s.response| + |b| ==>
              var s' := FillResponse(c, s, b).state; RequestAllowed(s') && OnlyResponse(s, s')
  {
    hide EvalPhase;
    if |s.request| <= c.requestLimit <= |s.request| + |b| {
      BodiesAllowed(c, MarkError(s.(request := s.request + b[..c.requestLimit - |s.request|]), INBOUND));
    }
    if |s.response| <= c.responseLimit <= |s.response| + |b| {
      BodiesAllowed(c, MarkError(s.(response := s.response + b[..c.responseLimit - |s.response|]), OUTBOUND));
    }
  }

  lemma BodiesAllowed(c: Config, s: State)
    requires RequestAllowed(s)
    ensures RequestAllowed(ProcessRequestBody(c, s)) && OnlyResponse(s, ProcessRequestBody(c, s))
    ensures RequestAllowed(ProcessResponseBody(c, s)) && OnlyResponse(s, ProcessResponseBody(c, s))
  {
    hide EvalPhase;
    if s.tx.lastPhase == 1 {
      EvalPhaseAllowed(c, s, 2,
        if c.requestAccess && s.request != [] then c.processRequest(s.tx.vars, s.request) else s.tx.vars);
    }
    EvalPhaseAllowed(c, s, 4,
      if c.responseAccess && c.processable(s.tx.vars) then c.processResponse(s.tx.vars, s.response) else s.tx.vars);
  }

  lemma DoAllowed(c: Config, s: State, call: Call)
    requires InLimits(c, s) && RequestAllowed(s)
    ensures RequestAllowed(Do(c, s, call)) && OnlyResponse(s, Do(c, s, call))
  {
    hide EvalPhase, FillRequest, FillResponse, ProcessRequestBody, ProcessResponseBody;
    match call
    case RequestHeaders =>
    case RequestBody => BodiesAllowed(c, s);
    case ResponseHeaders(setStatus) => EvalPhaseAllowed(c, s, 3, setStatus(s.tx.vars));
    case ResponseBody => BodiesAllowed(c, s);
    case Logging => EvalPhaseAllowed(c, s, 5, s.tx.vars);
    case WriteRequest(b) => FillAllowed(c, s, b);
    case ReadRequest(b, _) => FillAllowed(c, s, b);
    case WriteResponse(b) => FillAllowed(c, s, b);
    case ReadResponse(b, _) => FillAllowed(c, s, b);
    case SetVars(_) =>
  }

  /**
   Once allow:request is set and phase 1 is over, no call, however many and in whatever order,
   evaluates a rule in a request phase again.
   */
  lemma {:induction false} AllowRequestRun(c: Config, s: State, calls: seq<Call>)
    requires InLimits(c, s) && RequestAllowed(s)
    ensures RequestAllowed(DoAll(c, s, calls)) && OnlyResponse(s, DoAll(c, s, calls))
    decreases |calls|
  {
    hide Do;
    if calls != [] {
      DoInLimits(c, s, calls[0]);
      DoAllowed(c, s, calls[0]);
      AllowRequestRun(c, Do(c, s, calls[0]), calls[1..]);
    }
  }

  lemma EvalPhaseAllowsAll(c: Config, s: State, phase: Phase, vars: Vars)
    requires s.tx.allow == AllowAll
    ensures var s' := EvalPhase(c, s, phase, vars); s'.tx.allow == AllowAll && s'.tx.evaluated == s.tx.evaluated
  {
    hide EvalFrom;
    var start := s.tx.(vars := vars).(lastPhase := phase);
    AllowSuppresses(c.rules, phase, 0, start);
    AllowOutlives(c.rules, phase, 0, start);
  }

  lemma FillAllowsAll(c: Config, s: State, b: Bytes)
    requires s.tx.allow == AllowAll
    ensures |s.request| <= c.requestLimit <= |s.request| + |b| ==>
              var s' := FillRequest(c, s, b).state; s'.tx.allow == AllowAll && s'.tx.evaluated == s.tx.evaluated
    ensures |s.response| <= c.responseLimit <= |s.response| + |b| ==>
              var s' := FillResponse(c, s, b).state; s'.tx.allow == AllowAll && s'.tx.evaluated == s.tx.evaluated
  {
    hide EvalPhase;
    if |s.request| <= c.requestLimit <= |s.request| + |b| {
      BodiesAllowAll(c, MarkError(s.(request := s.request + b[..c.requestLimit - |s.request|]), INBOUND));
    }
    if |s.response| <= c.responseLimit <= |s.response| + |b| {
      BodiesAllowAll(c, MarkError(s.(response := s.response + b[..c.responseLimit - |s.response|]), OUTBOUND));
    }
  }

  lemma BodiesAllowAll(c: Config, s: State)
    requires s.tx.allow == AllowAll
    ensures var s' := ProcessRequestBody(c, s); s'.tx.allow == AllowAll && s'.tx.evaluated == s.tx.evaluated
    ensures var s' := ProcessResponseBody(c, s); s'.tx.allow == AllowAll && s'.tx.evaluated == s.tx.evaluated
  {
    hide EvalPhase;
    EvalPhaseAllowsAll(c, s, 2,
      if c.requestAccess && s.request != [] then c.processRequest(s.tx.vars, s.request) else s.tx.vars);
    EvalPhaseAllowsAll(c, s, 4,
      if c.responseAccess && c.processable(s.tx.vars) then c.processResponse(s.tx.vars, s.response) else s.tx.vars);
  }

  lemma DoAllowsAll(c: Config, s: State, call: Call)
    requires InLimits(c, s) && s.tx.allow == AllowAll
    ensures var s' := Do(c, s, call); s'.tx.allow == AllowAll && s'.tx.evaluated == s.tx.evaluated
  {
    hide EvalPhase, FillRequest, FillResponse, ProcessRequestBody, ProcessResponseBody;
    match call
    case RequestHeaders => EvalPhaseAllowsAll(c, s, 1, s.tx.vars);
    case RequestBody => BodiesAllowAll(c, s);
    case ResponseHeaders(setStatus) => EvalPhaseAllowsAll(c, s, 3, setStatus(s.tx.vars));
    case ResponseBody => BodiesAllowAll(c, s);
    case Logging => EvalPhaseAllowsAll(c, s, 5, s.tx.vars);
    case WriteRequest(b) => FillAllowsAll(c, s, b);
    case ReadRequest(b, _) => FillAllowsAll(c, s, b);
    case WriteResponse(b) => FillAllowsAll(c, s, b);
    case ReadResponse(b, _) => FillAllowsAll(c, s, b);
    case SetVars(_) =>
  }

  /** Once a plain allow has been taken, no call evaluates any rule of any phase again. */
  lemma {:induction false} AllowAllRun(c: Config, s: State, calls: seq<Call>)
    requires InLimits(c, s) && s.tx.allow == AllowAll
    ensures var s' := DoAll(c, s, calls); s'.tx.allow == AllowAll && s'.tx.evaluated == s.tx.evaluated
    decreases |calls|
  {
    hide Do;
    if calls != [] {
      DoInLimits(c, s, calls[0]);
      DoAllowsAll(c, s, calls[0]);
      AllowAllRun(c, Do(c, s, calls[0]), calls[1..]);
    }
  }
}
