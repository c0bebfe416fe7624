/**
 What the calls of a transaction deliver (internal/corazawaf/transaction.go): which phase a call
 evaluates, on which variables, and that a transaction that is called in order and not interrupted
 evaluates all its phases.
 */
module PhaseRuns {
  import opened Options
  import opened ByteStrings
  import opened RuleFlow
  import opened RuleEffects
  import opened TransactionModel

  // ---------------------------------------------------------------- one call

  ghost predicate IsPhaseCall(call: Call) {
    call.RequestHeaders? || call.RequestBody? || call.ResponseHeaders? || call.ResponseBody? || call.Logging?
  }

  ghost function PhaseOf(call: Call): Phase
    requires IsPhaseCall(call)
  {
    match call
    case RequestHeaders => 1
    case RequestBody => 2
    case ResponseHeaders(_) => 3
    case ResponseBody => 4
    case Logging => 5
  }

  /** The call comes when its phase is due: the body phases directly after their headers, logging always. */
  ghost predicate Due(s: State, call: Call)
    requires IsPhaseCall(call)
  {
    && s.tx.engine != Off
    && (call.Logging? || s.tx.interruption.None?)
    && (call.RequestHeaders? ==> s.tx.lastPhase == 0)
    && (call.RequestBody? ==> s.tx.lastPhase == 1)
    && (call.ResponseHeaders? ==> s.tx.lastPhase <= 2)
    && (call.ResponseBody? ==> s.tx.lastPhase == 3)
  }

  /** The variables the phase starts with: those of a stored body only if the body is inspected. */
  ghost function StartVars(c: Config, s: State, call: Call): Vars {
    if call.RequestBody? && c.requestAccess && |s.request| > 0 then c.processRequest(s.tx.vars, s.request)
    else if call.ResponseBody? && c.responseAccess && c.processable(s.tx.vars) then c.processResponse(s.tx.vars, s.response)
    else if call.ResponseHeaders? then call.setStatus(s.tx.vars)
    else s.tx.vars
  }

  /** A call evaluates its phase if and only if it is due, and otherwise does nothing. */
  lemma CallEvaluates(c: Config, s: State, call: Call)
    requires InLimits(c, s) && IsPhaseCall(call)
    ensures var s' := Do(c, s, call);
            && (Due(s, call) ==> s'.phases == s.phases + [PhaseOf(call)] && s'.tx.lastPhase == PhaseOf(call))
            && (!Due(s, call) ==> s' == s)
            && s'.request == s.request && s'.response == s.response
  {
    hide EvalFrom;
    DueCall(c, s, call);
    EvalFromInOrder(c.rules, PhaseOf(call), 0, s.tx.(vars := StartVars(c, s, call), lastPhase := PhaseOf(call)));
  }

  lemma DueCall(c: Config, s: State, call: Call)
    requires InLimits(c, s) && IsPhaseCall(call)
    ensures Due(s, call) ==> Do(c, s, call) == EvalPhase(c, s, PhaseOf(call), StartVars(c, s, call))
    ensures !Due(s, call) ==> Do(c, s, call) == s
  {
    hide EvalPhase;
  }

  /**
   A call that is due, with nothing left over to skip: the first rule in play is evaluated first, on
   exactly the variables the body processor, or the status, has set.
   */
  lemma CallStartsWith(c: Config, s: State, call: Call, i: nat)
    requires InLimits(c, s) && IsPhaseCall(call) && Due(s, call) && Running(PhaseOf(call), s.tx)
    requires i < |c.rules| && InPlay(StartVars(c, s, call), c.rules[i], PhaseOf(call))
    requires forall m | 0 <= m < i :: !InPlay(StartVars(c, s, call), c.rules[m], PhaseOf(call))
    ensures var s', k := Do(c, s, call), |s.tx.evaluated|;
            && s.tx.evaluated < s'.tx.evaluated
            && s'.tx.evaluated[k] == Evaluation(PhaseOf(call), i, s.tx.interruption.Some?, StartVars(c, s, call))
  {
    hide Eval, InPlay, Do, StartVars;
    DueCall(c, s, call);
    FirstEvaluation(c.rules, PhaseOf(call), i, s.tx.(vars := StartVars(c, s, call)));
  }

  /** If moreover no rule controls the flow or interrupts, every rule in play is evaluated, once and in order. */
  lemma CallIsComplete(c: Config, s: State, call: Call)
    requires InLimits(c, s) && IsPhaseCall(call) && Due(s, call) && Running(PhaseOf(call), s.tx)
    requires FlowFree(c.rules, s.tx.engine)
    ensures var s', p, vars := Do(c, s, call), PhaseOf(call), StartVars(c, s, call);
            && s'.tx.evaluated == s.tx.evaluated + AllInPlay(c.rules, p, vars, s.tx.interruption.Some?, |c.rules|)
            && s'.tx.vars == VarsAt(c.rules, p, vars, |c.rules|) && s'.tx.interruption == s.tx.interruption
            && Running(p, s'.tx) && FlowFree(c.rules, s'.tx.engine) && s'.tx.allow == s.tx.allow
  {
    hide Eval, Do, FlowFree, StartVars;
    DueCall(c, s, call);
    CompletePhase(c.rules, PhaseOf(call), s.tx.(vars := StartVars(c, s, call)));
  }

  /** What the body calls return: the interruption there is, once the phase has come; before or after it, none. */
  lemma BodyResults(c: Config, s: State)
    requires InLimits(c, s)
    ensures var s' := Do(c, s, RequestBody);
            RequestBodyResult(s, s') ==
            if s.tx.engine != Off && (s.tx.interruption.Some? || s.phases < s'.phases) then s'.tx.interruption else None
    ensures var s' := Do(c, s, ResponseBody);
            ResponseBodyResult(s, s') ==
            if s.tx.engine != Off && (s.tx.interruption.Some? || s.phases < s'.phases) then s'.tx.interruption else None
  {
    hide Do;
    CallEvaluates(c, s, RequestBody);
    CallEvaluates(c, s, ResponseBody);
  }

  // ---------------------------------------------------------------- the engine stays on

  ghost predicate NeverOff(r: Rule) {
    forall v :: r.effect(v).engine != Some(Off)
  }

  lemma {:induction false} EvalNeverOff(rules: seq<Rule>, phase: Phase, i: nat, tx: Tx)
    requires tx.engine != Off && forall r | r in rules :: NeverOff(r)
    ensures EvalFrom(rules, phase, i, tx).engine != Off
    decreases |rules| - i
  {
    hide Evaluate, Eligible, NeverOff;
    if i < |rules| && !(tx.interruption.Some? && phase != 5) {
      if !Eligible(tx.vars, rules[i], phase) {
        EvalNeverOff(rules, phase, i + 1, tx);
      } else if tx.skipAfter != "" {
        EvalNeverOff(rules, phase, i + 1, if rules[i].mark == tx.skipAfter then tx.(skipAfter := "") else tx);
      } else if tx.skip > 0 {
        EvalNeverOff(rules, phase, i + 1, tx.(skip := tx.skip - 1));
      } else if !AllowStops(tx.allow, phase) {
        RuleNeverOff(Logged(phase, i, tx), rules[i]);
        EvalNeverOff(rules, phase, i + 1, EvaluateAt(rules, phase, i, tx));
      }
    }
  }

  lemma RuleNeverOff(tx: Tx, r: Rule)
    requires tx.engine != Off && NeverOff(r)
    ensures Evaluate(tx, r).engine != Off
  {
    hide Evaluate;
    EvaluateEffect(tx, r);
  }

  lemma BodiesNeverOff(c: Config, s: State)
    requires s.tx.engine != Off && forall r | r in c.rules :: NeverOff(r)
    ensures forall phase, vars :: EvalPhase(c, s, phase, vars).tx.engine != Off
  {
    hide EvalFrom, NeverOff;
    forall phase, vars ensures EvalPhase(c, s, phase, vars).tx.engine != Off {
      EvalNeverOff(c.rules, phase, 0, s.tx.(vars := vars).(lastPhase := phase));
    }
  }

  lemma FillNeverOff(c: Config, s: State, b: Bytes)
    requires s.tx.engine != Off && forall r | r in c.rules :: NeverOff(r)
    ensures |s.request| <= c.requestLimit <= |s.request| + |b| ==> FillRequest(c, s, b).state.tx.engine != Off
    ensures |s.response| <= c.responseLimit <= |s.response| + |b| ==> FillResponse(c, s, b).state.tx.engine != Off
  {
    hide EvalPhase, NeverOff;
    if |s.request| <= c.requestLimit <= |s.request| + |b| {
      BodiesNeverOff(c, MarkError(s.(request := s.request + b[..c.requestLimit - |s.request|]), INBOUND));
    }
    if |s.response| <= c.responseLimit <= |s.response| + |b| {
      BodiesNeverOff(c, MarkError(s.(response := s.response + b[..c.responseLimit - |s.response|]), OUTBOUND));
    }
  }

  lemma DoNeverOff(c: Config, s: State, call: Call)
    requires InLimits(c, s) && s.tx.engine != Off && forall r | r in c.rules :: NeverOff(r)
    ensures Do(c, s, call).tx.engine != Off
  {
    hide EvalPhase, NeverOff, FillRequest, FillResponse;
    BodiesNeverOff(c, s);
    match call
    case WriteRequest(b) => FillNeverOff(c, s, b);
    case ReadRequest(b, _) => FillNeverOff(c, s, b);
    case WriteResponse(b) => FillNeverOff(c, s, b);
    case ReadResponse(b, _) => FillNeverOff(c, s, b);
    case _ =>
  }

  // ---------------------------------------------------------------- whole runs

  lemma {:induction false} DoAllConcat(c: Config, s: State, xs: seq<Call>, ys: seq<Call>)
    requires InLimits(c, s)
    ensures DoAll(c, s, xs + ys) == DoAll(c, DoAll(c, s, xs), ys)
    decreases |xs|
  {
    hide Do;
    if xs == [] {
      assert xs + ys == ys;
    } else {
      DoInLimits(c, s, xs[0]);
      DoAllConcat(c, Do(c, s, xs[0]), xs[1..], ys);
      assert (xs + ys)[0] == xs[0] && (xs + ys)[1..] == xs[1..] + ys;
    }
  }

  lemma DoOne(c: Config, s: State, call: Call)
    requires InLimits(c, s)
    ensures DoAll(c, s, [call]) == Do(c, s, call)
  {
    hide Do;
    DoInLimits(c, s, call);
    assert DoAll(c, Do(c, s, call), [call][1..]) == Do(c, s, call);
  }

  /** Calls that evaluate no phase of their own: header values and pieces of the bodies. */
  ghost predicate Between(call: Call) {
    !IsPhaseCall(call)
  }

  /** The first `n` phases have been evaluated, and the transaction goes on. */
  ghost predicate Reached(c: Config, s: State, n: nat) {
    && n <= 4 && s.phases == [1, 2, 3, 4][..n] && s.tx.lastPhase == n
    && s.tx.engine != Off && (forall r | r in c.rules :: NeverOff(r))
    && PhasesInOrder(s) && ProperHistory(c, s)
  }

  /** A body that fills its buffer after the headers is processed at once; nothing else moves a phase on. */
  lemma BetweenStep(c: Config, s: State, call: Call, n: nat)
    requires InLimits(c, s) && Reached(c, s, n) && Between(call)
    ensures var s' := Do(c, s, call);
            Reached(c, s', n) || ((n == 1 || n == 3) && Reached(c, s', n + 1))
  {
    hide NeverOff, ProperHistory, EvalFrom, PhasesInOrder;
    DoNeverOff(c, s, call);
    DoAdvances(c, s, call);
    BetweenPhases(c, s, call);
  }

  lemma BetweenPhases(c: Config, s: State, call: Call)
    requires InLimits(c, s) && Between(call)
    ensures var s' := Do(c, s, call);
            || (s'.phases == s.phases && s'.tx.lastPhase == s.tx.lastPhase)
            || (s.tx.lastPhase == 1 && s'.phases == s.phases + [2] && s'.tx.lastPhase == 2)
            || (s.tx.lastPhase == 3 && s'.phases == s.phases + [4] && s'.tx.lastPhase == 4)
  {
    hide FillRequest, FillResponse;
    match call
    case WriteRequest(b) => FillPhases(c, s, b);
    case ReadRequest(b, _) => FillPhases(c, s, b);
    case WriteResponse(b) => FillPhases(c, s, b);
    case ReadResponse(b, _) => FillPhases(c, s, b);
    case SetVars(_) =>
  }

  lemma FillPhases(c: Config, s: State, b: Bytes)
    requires InLimits(c, s)
    ensures |s.request| <= c.requestLimit <= |s.request| + |b| ==>
              var s' := FillRequest(c, s, b).state;
              || (s'.phases == s.phases && s'.tx.lastPhase == s.tx.lastPhase)
              || (s.tx.lastPhase == 1 && s'.phases == s.phases + [2] && s'.tx.lastPhase == 2)
    ensures |s.response| <= c.responseLimit <= |s.response| + |b| ==>
              var s' := FillResponse(c, s, b).state;
              || (s'.phases == s.phases && s'.tx.lastPhase == s.tx.lastPhase)
              || (s.tx.lastPhase == 3 && s'.phases == s.phases + [4] && s'.tx.lastPhase == 4)
  {
    hide ProcessRequestBody, ProcessResponseBody;
    if |s.request| <= c.requestLimit <= |s.request| + |b| {
      CallEvaluates(c, MarkError(s.(request := s.request + b[..c.requestLimit - |s.request|]), INBOUND), RequestBody);
    }
    if |s.response| <= c.responseLimit <= |s.response| + |b| {
      CallEvaluates(c, MarkError(s.(response := s.response + b[..c.responseLimit - |s.response|]), OUTBOUND), ResponseBody);
    }
  }

  lemma {:induction false} BetweenCalls(c: Config, s: State, calls: seq<Call>, n: nat)
    requires InLimits(c, s) && Reached(c, s, n) && forall i | 0 <= i < |calls| :: Between(calls[i])
    ensures var s' := DoAll(c, s, calls); Reached(c, s', n) || ((n == 1 || n == 3) && Reached(c, s', n + 1))
    decreases |calls|
  {
    hide Do, Reached, Between;
    if calls != [] {
      DoInLimits(c, s, calls[0]);
      BetweenStep(c, s, calls[0], n);
      var s1 := Do(c, s, calls[0]);
      BetweenCalls(c, s1, calls[1..], if Reached(c, s1, n) then n else n + 1);
    }
  }

  /** The call evaluates its phase, unless a full body has already done so. */
  lemma PhaseStep(c: Config, s: State, call: Call, n: nat)
    requires InLimits(c, s) && IsPhaseCall(call) && !call.Logging? && Reached(c, s, n) && s.tx.interruption.None?
    requires n == PhaseOf(call) - 1 || (n == PhaseOf(call) && n % 2 == 0)
    ensures Reached(c, Do(c, s, call), PhaseOf(call))
  {
    hide NeverOff, ProperHistory, Do, PhasesInOrder;
    CallEvaluates(c, s, call);
    DoNeverOff(c, s, call);
    DoAdvances(c, s, call);
  }

  /** A phase call with what follows it up to the next one; an interruption would have shown in the end. */
  lemma Leg(c: Config, s: State, call: Call, rest: seq<Call>, n: nat)
    requires InLimits(c, s) && IsPhaseCall(call) && !call.Logging? && Reached(c, s, n) && s.tx.interruption.None?
    requires n == PhaseOf(call) - 1 || (n == PhaseOf(call) && n % 2 == 0)
    requires forall i | 0 <= i < |rest| :: Between(rest[i])
    ensures var s', p := DoAll(c, s, [call] + rest), PhaseOf(call);
            Reached(c, s', p) || (p % 2 == 1 && Reached(c, s', p + 1))
  {
    hide Reached, Do, DoAll, Between;
    DoAllConcat(c, s, [call], rest);
    DoOne(c, s, call);
    PhaseStep(c, s, call, n);
    DoInLimits(c, s, call);
    BetweenCalls(c, Do(c, s, call), rest, PhaseOf(call));
  }

  /** An interruption is never withdrawn, so a run that ends without one had none before. */
  lemma NoneBefore(c: Config, s: State, xs: seq<Call>, ys: seq<Call>, n: nat)
    requires InLimits(c, s) && Reached(c, s, n) && DoAll(c, s, xs + ys).tx.interruption.None?
    ensures DoAll(c, DoAll(c, s, xs), ys).tx.interruption.None? && DoAll(c, s, xs).tx.interruption.None?
    ensures s.tx.interruption.None?
  {
    hide DoAll, PhasesInOrder, ProperHistory;
    DoAllConcat(c, s, xs, ys);
    AnyCallSequence(c, s, xs);
    AnyCallSequence(c, DoAll(c, s, xs), ys);
  }

  /** The four calls, each followed by any header values and pieces of bodies. */
  ghost function InSequence(setStatus: Vars -> Vars, before: seq<Call>,
                            m1: seq<Call>, m2: seq<Call>, m3: seq<Call>, m4: seq<Call>): seq<Call>
  {
    before + (([RequestHeaders] + m1) + (([RequestBody] + m2) + (([ResponseHeaders(setStatus)] + m3) + ([ResponseBody] + m4))))
  }

  /**
   A transaction called in sequence, with the bodies in any pieces and the engine never switched off,
   that is not interrupted has evaluated its four phases, each once and in order; and logging comes fifth.
   */
  lemma FullRun(c: Config, engine: Engine, vars: Vars, setStatus: Vars -> Vars,
                before: seq<Call>, m1: seq<Call>, m2: seq<Call>, m3: seq<Call>, m4: seq<Call>)
    requires engine != Off && forall r | r in c.rules :: NeverOff(r)
    requires forall call | call in before || call in m1 || call in m2 || call in m3 || call in m4 :: Between(call)
    ensures var s := DoAll(c, NewTransaction(engine, vars), InSequence(setStatus, before, m1, m2, m3, m4));
            s.tx.interruption.None? ==> s.phases == [1, 2, 3, 4] && Do(c, s, Logging).phases == [1, 2, 3, 4, 5]
  {
    hide DoAll, Do, Between, NeverOff, Reached;
    var s0, l4 := NewTransaction(engine, vars), [ResponseBody] + m4;
    var l3 := [ResponseHeaders(setStatus)] + m3;
    var l2, l1 := [RequestBody] + m2, [RequestHeaders] + m1;
    if DoAll(c, s0, InSequence(setStatus, before, m1, m2, m3, m4)).tx.interruption.None? {
      NewReached(c, engine, vars);
      BetweenCalls(c, s0, before, 0);
      NoneBefore(c, s0, before, l1 + (l2 + (l3 + l4)), 0);
      var s1 := DoAll(c, s0, before);
      Leg(c, s1, RequestHeaders, m1, 0);
      NoneBefore(c, s1, l1, l2 + (l3 + l4), 0);
      var s2, n2 := DoAll(c, s1, l1), if Reached(c, DoAll(c, s1, l1), 1) then 1 else 2;
      Leg(c, s2, RequestBody, m2, n2);
      NoneBefore(c, s2, l2, l3 + l4, n2);
      var s3 := DoAll(c, s2, l2);
      Leg(c, s3, ResponseHeaders(setStatus), m3, 2);
      NoneBefore(c, s3, l3, l4, 2);
      var s4, n4 := DoAll(c, s3, l3), if Reached(c, DoAll(c, s3, l3), 3) then 3 else 4;
      Leg(c, s4, ResponseBody, m4, n4);
      AllConcats(c, s0, before, l1, l2, l3, l4);
      LastPhase(c, DoAll(c, s4, l4));
    }
  }

  lemma NewReached(c: Config, engine: Engine, vars: Vars)
    requires engine != Off && forall r | r in c.rules :: NeverOff(r)
    ensures Reached(c, NewTransaction(engine, vars), 0)
  {
    FreshInOrder(NewTransaction(engine, vars));
  }

  lemma AllConcats(c: Config, s: State, l0: seq<Call>, l1: seq<Call>, l2: seq<Call>, l3: seq<Call>, l4: seq<Call>)
    requires InLimits(c, s)
    ensures DoAll(c, s, l0 + (l1 + (l2 + (l3 + l4)))) == DoAll(c, DoAll(c, DoAll(c, DoAll(c, DoAll(c, s, l0), l1), l2), l3), l4)
  {
    hide DoAll;
    var s1 := DoAll(c, s, l0);
    var s2 := DoAll(c, s1, l1);
    DoAllConcat(c, s, l0, l1 + (l2 + (l3 + l4)));
    DoAllConcat(c, s1, l1, l2 + (l3 + l4));
    DoAllConcat(c, s2, l2, l3 + l4);
    DoAllConcat(c, DoAll(c, s2, l2), l3, l4);
  }

  lemma LastPhase(c: Config, s: State)
    requires InLimits(c, s) && Reached(c, s, 4)
    ensures s.phases == [1, 2, 3, 4] && Do(c, s, Logging).phases == [1, 2, 3, 4, 5]
  {
    hide Do;
    CallEvaluates(c, s, Logging);
  }

  // ---------------------------------------------------------------- a run without flow control

  /** Nothing is skipped, allowed or interrupted, and no rule will do so or switch the engine off. */
  ghost predicate Open(c: Config, s: State) {
    && InLimits(c, s) && s.tx.engine != Off && s.tx.interruption.None? && Running(1, s.tx)
    && FlowFree(c.rules, s.tx.engine) && forall r | r in c.rules :: NeverOff(r)
  }

  /** The call evaluates its phase completely and leaves the transaction open. */
  ghost predicate OpenStep(c: Config, s: State, call: Call)
    requires InLimits(c, s) && IsPhaseCall(call)
  {
    var s', p, vars := Do(c, s, call), PhaseOf(call), StartVars(c, s, call);
    && Open(c, s') && s'.request == s.request && s'.response == s.response
    && s'.phases == s.phases + [p] && s'.tx.lastPhase == p
    && s'.tx.vars == VarsAt(c.rules, p, vars, |c.rules|)
    && s'.tx.evaluated == s.tx.evaluated + AllInPlay(c.rules, p, vars, false, |c.rules|)
  }

  lemma OpenCall(c: Config, s: State, call: Call)
    requires Open(c, s) && IsPhaseCall(call) && Due(s, call)
    ensures OpenStep(c, s, call)
  {
    hide Do, StartVars, FlowFree, NeverOff;
    CallEvaluates(c, s, call);
    CallIsComplete(c, s, call);
    DoNeverOff(c, s, call);
    DoInLimits(c, s, call);
  }

  lemma OpenBodies(c: Config, s: State, b: Bytes)
    requires Open(c, s)
    ensures s.request == [] && |b| < c.requestLimit <= MAX_INT64 && c.requestAccess ==>
              var s' := Do(c, s, WriteRequest(b)); Open(c, s') && s' == s.(request := b)
    ensures s.response == [] && |b| < c.responseLimit && c.responseAccess ==>
              var s' := Do(c, s, WriteResponse(b)); Open(c, s') && s' == s.(response := b)
  {
    hide FlowFree, NeverOff;
    assert [] + b == b;
  }

  /** The calls of one request and its response, each body in one piece. */
  ghost function PlainCalls(setStatus: Vars -> Vars, request: Bytes, response: Bytes): seq<Call> {
    [RequestHeaders] + ([WriteRequest(request)] + ([RequestBody] + ([ResponseHeaders(setStatus)] +
    ([WriteResponse(response)] + [ResponseBody]))))
  }

  /**
   What a transaction whose rules do not control the flow evaluates, from its first call to its last:
   in each of the four phases every rule in play, in order, on the variables that the rules before it,
   the body processors and the status have left.
   */
  lemma PlainRun(c: Config, engine: Engine, vars: Vars, setStatus: Vars -> Vars, request: Bytes, response: Bytes)
    requires engine != Off && FlowFree(c.rules, engine) && forall r | r in c.rules :: NeverOff(r)
    requires c.requestAccess && 0 < |request| < c.requestLimit <= MAX_INT64
    requires c.responseAccess && |response| < c.responseLimit
    ensures var s, n := DoAll(c, NewTransaction(engine, vars), PlainCalls(setStatus, request, response)), |c.rules|;
            var v1 := VarsAt(c.rules, 1, vars, n);
            var body := c.processRequest(v1, request);
            var v2 := VarsAt(c.rules, 2, body, n);
            var v3 := VarsAt(c.rules, 3, setStatus(v2), n);
            var page := if c.processable(v3) then c.processResponse(v3, response) else v3;
            && s.phases == [1, 2, 3, 4] && s.request == request && s.response == response && s.tx.interruption.None?
            && s.tx.evaluated == AllInPlay(c.rules, 1, vars, false, n) + AllInPlay(c.rules, 2, body, false, n) +
                                 AllInPlay(c.rules, 3, setStatus(v2), false, n) + AllInPlay(c.rules, 4, page, false, n)
            && s.tx.vars == VarsAt(c.rules, 4, page, n)
  {
    hide Do, DoAll, FlowFree, NeverOff, AllInPlay, VarsAt;
    var s0 := NewTransaction(engine, vars);
    OpenCall(c, s0, RequestHeaders);
    var s1 := Do(c, s0, RequestHeaders);
    OpenBodies(c, s1, request);
    var s2 := Do(c, s1, WriteRequest(request));
    OpenCall(c, s2, RequestBody);
    var s3 := Do(c, s2, RequestBody);
    OpenCall(c, s3, ResponseHeaders(setStatus));
    var s4 := Do(c, s3, ResponseHeaders(setStatus));
    OpenBodies(c, s4, response);
    var s5 := Do(c, s4, WriteResponse(response));
    OpenCall(c, s5, ResponseBody);
    SixCalls(c, s0, RequestHeaders, WriteRequest(request), RequestBody,
             ResponseHeaders(setStatus), WriteResponse(response), ResponseBody);
  }

  lemma SixCalls(c: Config, s: State, c1: Call, c2: Call, c3: Call, c4: Call, c5: Call, c6: Call)
    requires InLimits(c, s) && InLimits(c, Do(c, s, c1))
    requires var s2 := Do(c, Do(c, s, c1), c2); InLimits(c, s2) && InLimits(c, Do(c, s2, c3))
    requires var s4 := Do(c, Do(c, Do(c, Do(c, s, c1), c2), c3), c4); InLimits(c, s4) && InLimits(c, Do(c, s4, c5))
    ensures DoAll(c, s, [c1] + ([c2] + ([c3] + ([c4] + ([c5] + [c6]))))) ==
            Do(c, Do(c, Do(c, Do(c, Do(c, Do(c, s, c1), c2), c3), c4), c5), c6)
  {
    hide Do, DoAll, InLimits;
    Front(c, s, c1, [c2] + ([c3] + ([c4] + ([c5] + [c6]))));
    var s1 := Do(c, s, c1);
    Front(c, s1, c2, [c3] + ([c4] + ([c5] + [c6])));
    var s2 := Do(c, s1, c2);
    Front(c, s2, c3, [c4] + ([c5] + [c6]));
    var s3 := Do(c, s2, c3);
    Front(c, s3, c4, [c5] + [c6]);
    var s4 := Do(c, s3, c4);
    Front(c, s4, c5, [c6]);
    DoOne(c, Do(c, s4, c5), c6);
  }

  lemma Front(c: Config, s: State, call: Call, rest: seq<Call>)
    requires InLimits(c, s)
    ensures InLimits(c, Do(c, s, call)) && DoAll(c, s, [call] + rest) == DoAll(c, Do(c, s, call), rest)
  {
    hide Do;
    DoInLimits(c, s, call);
    assert ([call] + rest)[1..] == rest;
  }

  // ---------------------------------------------------------------- what a body write reports

  /** The variables with the mark that a body was cut or refused. */
  ghost function Marked(vars: Vars, name: string): Vars {
    vars.(values := vars.values[name := ["1"]])
  }

  /**
   A request body write: it stores a prefix of the piece and reports its length; a piece that reaches
   the limit is marked and then, as configured, refused with 413 or cut and handed to phase 2, whose
   interruption is reported.
   */
  lemma RequestWriteReport(c: Config, s: State, b: Bytes)
    requires InLimits(c, s)
    ensures var w := WriteRequestBody(c, s, b);
            var marked := s.(tx := s.tx.(vars := Marked(s.tx.vars, "INBOUND_DATA_ERROR")));
            && |w.state.request| == |s.request| + w.count && w.count <= |b| && w.state.request == s.request + b[..w.count]
            && w.state.response == s.response
            && (s.tx.engine == Off || !c.requestAccess || |s.request| == c.requestLimit || w.failed ==> w.state == s)
            && (s.tx.engine == Off || !c.requestAccess ==> w.it.None? && !w.failed)
            && (s.tx.engine != Off && c.requestAccess && |s.request| == c.requestLimit ==>
                  !w.failed && w.it == if c.requestAction == Reject then s.tx.interruption else None)
            && (s.tx.engine != Off && c.requestAccess && |s.request| < c.requestLimit ==>
                  (w.failed <==> |s.request| + |b| >= MAX_INT64))
            && (s.tx.engine != Off && c.requestAccess && |s.request| < c.requestLimit && !w.failed ==>
                  && w.it == w.state.tx.interruption
                  && (|s.request| + |b| < c.requestLimit ==> w.state == s.(request := s.request + b))
                  && (|s.request| + |b| >= c.requestLimit && c.requestAction == Reject ==>
                        w.state == marked.(tx := marked.tx.(interruption := Some(Interruption(0, "deny", 413, "")))))
                  && (|s.request| + |b| >= c.requestLimit && c.requestAction == ProcessPartial ==>
                        && |w.state.request| == c.requestLimit
                        && w.state == Do(c, marked.(request := w.state.request), RequestBody)))
  {
    hide Eval;
    assert s.request + b[..0] == s.request;
    assert b[..|b|] == b;
  }

  /** A response body write, likewise, with 500 and phase 4. */
  lemma ResponseWriteReport(c: Config, s: State, b: Bytes)
    requires InLimits(c, s)
    ensures var w := WriteResponseBody(c, s, b);
            var marked := s.(tx := s.tx.(vars := Marked(s.tx.vars, "OUTBOUND_DATA_ERROR")));
            && |w.state.response| == |s.response| + w.count && w.count <= |b| && w.state.response == s.response + b[..w.count]
            && w.state.request == s.request && !w.failed
            && (s.tx.engine == Off || !c.responseAccess || |s.response| == c.responseLimit ==> w.state == s)
            && (s.tx.engine == Off || !c.responseAccess ==> w.it.None?)
            && (s.tx.engine != Off && c.responseAccess && |s.response| == c.responseLimit ==>
                  w.it == if c.responseAction == Reject then s.tx.interruption else None)
            && (s.tx.engine != Off && c.responseAccess && |s.response| < c.responseLimit ==>
                  && w.it == w.state.tx.interruption
                  && (|s.response| + |b| < c.responseLimit ==> w.state == s.(response := s.response + b))
                  && (|s.response| + |b| >= c.responseLimit && c.responseAction == Reject ==>
                        w.state == marked.(tx := marked.tx.(interruption := Some(Interruption(0, "deny", 500, "")))))
                  && (|s.response| + |b| >= c.responseLimit && c.responseAction == ProcessPartial ==>
                        && |w.state.response| == c.responseLimit
                        && w.state == Do(c, marked.(response := w.state.response), ResponseBody)))
  {
    hide Eval;
    assert s.response + b[..0] == s.response;
    assert b[..|b|] == b;
  }

  /** A body piece that fills the buffer after the headers: phase 2 runs on what its processor made of the cut body. */
  lemma FilledBodyIsProcessed(c: Config, s: State, b: Bytes, i: nat)
    requires InLimits(c, s) && c.requestAccess && c.requestAction == ProcessPartial
    requires s.tx.engine != Off && s.tx.lastPhase == 1 && Running(2, s.tx)
    requires |s.request| < c.requestLimit <= |s.request| + |b| < MAX_INT64
    ensures var w, body := WriteRequestBody(c, s, b), (s.request + b)[..c.requestLimit];
            var vars := c.processRequest(Marked(s.tx.vars, "INBOUND_DATA_ERROR"), body);
            && w.state.phases == s.phases + [2] && w.it == w.state.tx.interruption
            && (i < |c.rules| && InPlay(vars, c.rules[i], 2) && (forall m | 0 <= m < i :: !InPlay(vars, c.rules[m], 2)) ==>
                  && s.tx.evaluated < w.state.tx.evaluated
                  && w.state.tx.evaluated[|s.tx.evaluated|] == Evaluation(2, i, false, vars))
  {
    hide Do, WriteRequestBody, InPlay;
    var w, body := WriteRequestBody(c, s, b), (s.request + b)[..c.requestLimit];
    RequestWriteReport(c, s, b);
    assert w.state.request == body;
    var marked := s.(tx := s.tx.(vars := Marked(s.tx.vars, "INBOUND_DATA_ERROR")), request := body);
    CallEvaluates(c, marked, RequestBody);
    var vars := StartVars(c, marked, RequestBody);
    if i < |c.rules| && InPlay(vars, c.rules[i], 2) && (forall m | 0 <= m < i :: !InPlay(vars, c.rules[m], 2)) {
      CallStartsWith(c, marked, RequestBody, i);
    }
  }

  // ---------------------------------------------------------------- removed rules

  /** Whatever the calls: no rule of another phase, and no rule removed by then, is ever evaluated. */
  lemma OnlyRulesInPlay(c: Config, engine: Engine, vars: Vars, calls: seq<Call>, k: nat)
    requires k < |DoAll(c, NewTransaction(engine, vars), calls).tx.evaluated|
    ensures var e := DoAll(c, NewTransaction(engine, vars), calls).tx.evaluated[k];
            e.rule < |c.rules| && InPlay(e.vars, c.rules[e.rule], e.phase)
  {
    hide DoAll, InPlay, Eligible;
    PhaseSafety(c, engine, vars, calls);
    var e := DoAll(c, NewTransaction(engine, vars), calls).tx.evaluated[k];
    InPlayIsEligible(e.vars, c.rules[e.rule], e.phase);
  }
}
