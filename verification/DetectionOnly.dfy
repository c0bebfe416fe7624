/**
 DetectionOnly mode predicts enforcement (Transaction.Interrupt in internal/corazawaf/transaction.go):
 over any calls up to the logging phase, a transaction in DetectionOnly mode remembers exactly the
 interruption that the same transaction would have raised in On mode, and its match log extends
 the other's.
 */
module DetectionOnly {
  import opened Options
  import opened ByteStrings
  import opened RuleFlow
  import opened TransactionModel

  // ---------------------------------------------------------------- which configurations

  /** At most one disruptive action (the parser keeps the last), no allow, and no ctl:ruleEngine. */
  ghost predicate Plain(r: Rule) {
    && (forall v: Vars :: r.effect(v).engine.None?)
    && (forall i | 0 <= i < |r.actions| :: !r.actions[i].Allow?)
    && (forall i, j | 0 <= i < j < |r.actions| :: !(r.actions[i].Interrupts() && r.actions[j].Interrupts()))
  }

  ghost predicate PlainConfig(c: Config) {
    && (forall r | r in c.rules :: Plain(r))
    && c.requestAction == ProcessPartial && c.responseAction == ProcessPartial
  }

  // ---------------------------------------------------------------- the simulation relation

  /** The match log `a` is a prefix of `b`, up to the flag that tells real from potential disruption. */
  ghost predicate LogPrefix(a: seq<MatchedRule>, b: seq<MatchedRule>) {
    |a| <= |b| && forall i | 0 <= i < |a| :: a[i].id == b[i].id && a[i].vars == b[i].vars
  }

  /** Before any interruption: equal but for the engine mode. */
  ghost predicate Lockstep(on: Tx, det: Tx) {
    && on.engine == On && on.interruption.None? && on.detected.None? && on.allow == AllowUnset
    && det == on.(engine := RuleFlow.DetectionOnly, matched := det.matched)
    && LogPrefix(on.matched, det.matched) && |on.matched| == |det.matched|
  }

  /** Afterwards: what On raised is what DetectionOnly remembers, and only the latter goes on. */
  ghost predicate Diverged(on: Tx, det: Tx) {
    && on.engine == On && on.interruption.Some?
    && det.engine == RuleFlow.DetectionOnly && det.interruption.None?
    && det.detected == on.interruption
    && LogPrefix(on.matched, det.matched)
  }

  ghost predicate Simulates(on: State, det: State) {
    || (Lockstep(on.tx, det.tx) && det == on.(tx := det.tx))
    || Diverged(on.tx, det.tx)
  }

  /** What happens to a DetectionOnly transaction that has already detected something. */
  ghost predicate GoesOn(det: Tx, det': Tx) {
    && det'.engine == det.engine && det'.interruption == det.interruption
    && det'.detected == det.detected && det.matched <= det'.matched
  }

  // ---------------------------------------------------------------- one rule

  ghost predicate InterruptsBefore(r: Rule, n: nat)
    requires n <= |r.actions|
  {
    exists i | 0 <= i < n :: r.actions[i].Interrupts()
  }

  lemma {:induction false} ActionsSimulate(on: Tx, det: Tx, r: Rule, n: nat)
    requires Plain(r) && n <= |r.actions| && Lockstep(on, det)
    ensures var on', det' := RunActions(on, r, n), RunActions(det, r, n);
            on'.matched == on.matched && det'.matched == det.matched && on'.vars == det'.vars &&
            if InterruptsBefore(r, n) then Diverged(on', det') else Lockstep(on', det')
  {
    if n > 0 {
      ActionsSimulate(on, det, r, n - 1);
      assert !r.actions[n - 1].Allow?;
      assert InterruptsBefore(r, n) == (InterruptsBefore(r, n - 1) || r.actions[n - 1].Interrupts());
    }
  }

  lemma EvaluateSimulates(on: Tx, det: Tx, r: Rule)
    requires Plain(r) && Lockstep(on, det)
    ensures var on', det' := Evaluate(on, r), Evaluate(det, r); Lockstep(on', det') || Diverged(on', det')
  {
    hide Plain, RunActions;
    var e := r.effect(on.vars);
    NoCtl(r, on.vars);
    var on1, det1 := on.(vars := e.vars), det.(vars := e.vars);
    ActionsSimulate(on1, det1, r, |r.actions|);
    if e.matched && r.id != 0 {
      var on2, det2 := RunActions(on1, r, |r.actions|), RunActions(det1, r, |r.actions|);
      ActionsKeep(on1, r, |r.actions|);
      LogAppend(on2.matched, det2.matched, Evaluate(on, r).matched[|on2.matched|], Evaluate(det, r).matched[|det2.matched|]);
    }
  }

  lemma NoCtl(r: Rule, v: Vars)
    requires Plain(r)
    ensures r.effect(v).engine.None?
  {
  }

  lemma LogAppend(a: seq<MatchedRule>, b: seq<MatchedRule>, x: MatchedRule, y: MatchedRule)
    requires LogPrefix(a, b) && |a| == |b| && x.id == y.id && x.vars == y.vars
    ensures LogPrefix(a + [x], b + [y])
  {
  }

  lemma EvaluateGoesOn(det: Tx, r: Rule)
    requires Plain(r) && det.engine == RuleFlow.DetectionOnly && det.detected.Some?
    ensures GoesOn(det, Evaluate(det, r))
  {
    NoCtl(r, det.vars);
    ActionsGoOn(det.(vars := r.effect(det.vars).vars), r, |r.actions|);
  }

  lemma {:induction false} ActionsGoOn(det: Tx, r: Rule, n: nat)
    requires n <= |r.actions| && det.engine == RuleFlow.DetectionOnly && det.detected.Some?
    ensures GoesOn(det, RunActions(det, r, n))
  {
    if n > 0 {
      ActionsGoOn(det, r, n - 1);
    }
  }

  // ---------------------------------------------------------------- one phase

  lemma {:induction false} PhaseGoesOn(rules: seq<Rule>, phase: Phase, i: nat, det: Tx)
    requires (forall r | r in rules :: Plain(r)) && det.engine == RuleFlow.DetectionOnly && det.detected.Some?
    ensures GoesOn(det, EvalFrom(rules, phase, i, det))
    decreases |rules| - i
  {
    hide Plain, Evaluate, Eligible;
    if i < |rules| && !(det.interruption.Some? && phase != 5) {
      if !Eligible(det.vars, rules[i], phase) {
        PhaseGoesOn(rules, phase, i + 1, det);
      } else if det.skipAfter != "" {
        PhaseGoesOn(rules, phase, i + 1, if rules[i].mark == det.skipAfter then det.(skipAfter := "") else det);
      } else if det.skip > 0 {
        PhaseGoesOn(rules, phase, i + 1, det.(skip := det.skip - 1));
      } else if !AllowStops(det.allow, phase) {
        EvaluateGoesOn(Logged(phase, i, det), rules[i]);
        PhaseGoesOn(rules, phase, i + 1, EvaluateAt(rules, phase, i, det));
      }
    }
  }

  lemma {:induction false} PhaseSimulates(rules: seq<Rule>, phase: Phase, i: nat, on: Tx, det: Tx)
    requires (forall r | r in rules :: Plain(r)) && phase != 5 && Lockstep(on, det)
    ensures var on', det' := EvalFrom(rules, phase, i, on), EvalFrom(rules, phase, i, det);
            Lockstep(on', det') || Diverged(on', det')
    decreases |rules| - i
  {
    hide Plain, Evaluate, Eligible, LogPrefix;
    if i < |rules| {
      if !Eligible(on.vars, rules[i], phase) {
        PhaseSimulates(rules, phase, i + 1, on, det);
      } else if on.skipAfter != "" {
        PhaseSimulates(rules, phase, i + 1,
                       if rules[i].mark == on.skipAfter then on.(skipAfter := "") else on,
                       if rules[i].mark == det.skipAfter then det.(skipAfter := "") else det);
      } else if on.skip > 0 {
        PhaseSimulates(rules, phase, i + 1, on.(skip := on.skip - 1), det.(skip := det.skip - 1));
      } else {
        EvaluateSimulates(Logged(phase, i, on), Logged(phase, i, det), rules[i]);
        var on1, det1 := EvaluateAt(rules, phase, i, on), EvaluateAt(rules, phase, i, det);
        if Lockstep(on1, det1) {
          PhaseSimulates(rules, phase, i + 1, on1, det1);
        } else {
          PhaseGoesOn(rules, phase, i + 1, det1);
          DivergedGoesOn(on1, on1, det1, EvalFrom(rules, phase, i + 1, det1));
        }
      }
    }
  }

  lemma DivergedGoesOn(on: Tx, on': Tx, det: Tx, det': Tx)
    requires Diverged(on, det) && GoesOn(det, det')
    requires on'.engine == on.engine && on'.interruption == on.interruption && on'.matched == on.matched
    ensures Diverged(on', det')
  {
  }

  lemma EvalPhaseSimulates(c: Config, on: State, det: State, phase: Phase, vars: Vars)
    requires PlainConfig(c) && phase != 5 && Lockstep(on.tx, det.tx) && det == on.(tx := det.tx)
    ensures Simulates(EvalPhase(c, on, phase, vars), EvalPhase(c, det, phase, vars))
  {
    hide Plain, LogPrefix, EvalFrom;
    PhaseSimulates(c.rules, phase, 0, on.tx.(vars := vars).(lastPhase := phase), det.tx.(vars := vars).(lastPhase := phase));
  }

  lemma EvalPhaseGoesOn(c: Config, det: State, phase: Phase, vars: Vars)
    requires PlainConfig(c) && det.tx.engine == RuleFlow.DetectionOnly && det.tx.detected.Some?
    ensures GoesOn(det.tx, EvalPhase(c, det, phase, vars).tx)
  {
    hide Plain, EvalFrom;
    PhaseGoesOn(c.rules, phase, 0, det.tx.(vars := vars).(lastPhase := phase));
  }

  // ---------------------------------------------------------------- one call

  lemma ProcessRequestSimulates(c: Config, on: State, det: State)
    requires PlainConfig(c) && Lockstep(on.tx, det.tx) && det == on.(tx := det.tx)
    ensures Simulates(ProcessRequestBody(c, on), ProcessRequestBody(c, det))
  {
    hide PlainConfig, LogPrefix, EvalPhase;
    EvalPhaseSimulates(c, on, det, 2,
      if c.requestAccess && on.request != [] then c.processRequest(on.tx.vars, on.request) else on.tx.vars);
  }

  lemma ProcessResponseSimulates(c: Config, on: State, det: State)
    requires PlainConfig(c) && Lockstep(on.tx, det.tx) && det == on.(tx := det.tx)
    ensures Simulates(ProcessResponseBody(c, on), ProcessResponseBody(c, det))
  {
    hide PlainConfig, LogPrefix, EvalPhase;
    EvalPhaseSimulates(c, on, det, 4,
      if c.responseAccess && c.processable(on.tx.vars) then c.processResponse(on.tx.vars, on.response) else on.tx.vars);
  }

  /** The body a filled buffer is processed with. */
  function Filled(c: Config, s: State, b: Bytes, request: bool): State
    requires request ==> |s.request| <= c.requestLimit <= |s.request| + |b|
    requires !request ==> |s.response| <= c.responseLimit <= |s.response| + |b|
  {
    if request then MarkError(s.(request := s.request + b[..c.requestLimit - |s.request|]), INBOUND)
    else MarkError(s.(response := s.response + b[..c.responseLimit - |s.response|]), OUTBOUND)
  }

  lemma FillSimulates(c: Config, on: State, det: State, b: Bytes)
    requires PlainConfig(c) && Lockstep(on.tx, det.tx) && det == on.(tx := det.tx)
    ensures |on.request| <= c.requestLimit <= |on.request| + |b| ==>
              Simulates(FillRequest(c, on, b).state, FillRequest(c, det, b).state)
    ensures |on.response| <= c.responseLimit <= |on.response| + |b| ==>
              Simulates(FillResponse(c, on, b).state, FillResponse(c, det, b).state)
  {
    hide PlainConfig, LogPrefix, ProcessRequestBody, ProcessResponseBody;
    if |on.request| <= c.requestLimit <= |on.request| + |b| {
      ProcessRequestSimulates(c, Filled(c, on, b, true), Filled(c, det, b, true));
    }
    if |on.response| <= c.responseLimit <= |on.response| + |b| {
      ProcessResponseSimulates(c, Filled(c, on, b, false), Filled(c, det, b, false));
    }
  }

  lemma LockstepDo(c: Config, on: State, det: State, call: Call)
    requires PlainConfig(c) && !call.Logging? && Lockstep(on.tx, det.tx) && det == on.(tx := det.tx) && InLimits(c, on)
    ensures Simulates(Do(c, on, call), Do(c, det, call))
  {
    hide Plain, LogPrefix, EvalPhase, FillRequest, FillResponse, ProcessRequestBody, ProcessResponseBody;
    match call
    case RequestHeaders => EvalPhaseSimulates(c, on, det, 1, on.tx.vars);
    case RequestBody => ProcessRequestSimulates(c, on, det);
    case ResponseHeaders(setStatus) => EvalPhaseSimulates(c, on, det, 3, setStatus(on.tx.vars));
    case ResponseBody => ProcessResponseSimulates(c, on, det);
    case WriteRequest(b) => FillSimulates(c, on, det, b);
    case ReadRequest(b, _) => FillSimulates(c, on, det, b);
    case WriteResponse(b) => FillSimulates(c, on, det, b);
    case ReadResponse(b, _) => FillSimulates(c, on, det, b);
    case SetVars(_) =>
  }

  /** An interrupted transaction keeps its interruption and evaluates nothing more. */
  lemma InterruptedDo(c: Config, on: State, call: Call)
    requires PlainConfig(c) && !call.Logging? && on.tx.interruption.Some? && InLimits(c, on)
    ensures var on' := Do(c, on, call);
            on'.tx.engine == on.tx.engine && on'.tx.interruption == on.tx.interruption && on'.tx.matched == on.tx.matched
  {
    hide Plain;
  }

  lemma DetectedDo(c: Config, det: State, call: Call)
    requires PlainConfig(c) && det.tx.engine == RuleFlow.DetectionOnly && det.tx.detected.Some? && InLimits(c, det)
    ensures GoesOn(det.tx, Do(c, det, call).tx)
  {
    hide Plain, EvalPhase;
    match call
    case RequestHeaders => EvalPhaseGoesOn(c, det, 1, det.tx.vars);
    case RequestBody => BodyGoesOn(c, det);
    case ResponseHeaders(setStatus) => EvalPhaseGoesOn(c, det, 3, setStatus(det.tx.vars));
    case ResponseBody => BodyGoesOn(c, det);
    case Logging => EvalPhaseGoesOn(c, det, 5, det.tx.vars);
    case WriteRequest(b) => FillGoesOn(c, det, b);
    case ReadRequest(b, _) => FillGoesOn(c, det, b);
    case WriteResponse(b) => FillGoesOn(c, det, b);
    case ReadResponse(b, _) => FillGoesOn(c, det, b);
    case SetVars(_) =>
  }

  lemma BodyGoesOn(c: Config, det: State)
    requires PlainConfig(c) && det.tx.engine == RuleFlow.DetectionOnly && det.tx.detected.Some?
    ensures GoesOn(det.tx, ProcessRequestBody(c, det).tx)
    ensures GoesOn(det.tx, ProcessResponseBody(c, det).tx)
  {
    hide PlainConfig, EvalPhase;
    EvalPhaseGoesOn(c, det, 2,
      if c.requestAccess && det.request != [] then c.processRequest(det.tx.vars, det.request) else det.tx.vars);
    EvalPhaseGoesOn(c, det, 4,
      if c.responseAccess && c.processable(det.tx.vars) then c.processResponse(det.tx.vars, det.response) else det.tx.vars);
  }

  lemma FillGoesOn(c: Config, det: State, b: Bytes)
    requires PlainConfig(c) && det.tx.engine == RuleFlow.DetectionOnly && det.tx.detected.Some?
    ensures |det.request| <= c.requestLimit <= |det.request| + |b| ==>
              GoesOn(det.tx, FillRequest(c, det, b).state.tx)
    ensures |det.response| <= c.responseLimit <= |det.response| + |b| ==>
              GoesOn(det.tx, FillResponse(c, det, b).state.tx)
  {
    hide PlainConfig, ProcessRequestBody, ProcessResponseBody;
    if |det.request| <= c.requestLimit <= |det.request| + |b| {
      BodyGoesOn(c, Filled(c, det, b, true));
    }
    if |det.response| <= c.responseLimit <= |det.response| + |b| {
      BodyGoesOn(c, Filled(c, det, b, false));
    }
  }

  // ---------------------------------------------------------------- whole runs

  lemma {:induction false} RunSimulates(c: Config, on: State, det: State, calls: seq<Call>)
    requires PlainConfig(c) && InLimits(c, on) && InLimits(c, det) && Simulates(on, det)
    requires Logging !in calls
    ensures Simulates(DoAll(c, on, calls), DoAll(c, det, calls))
    decreases |calls|
  {
    hide PlainConfig, Do, LogPrefix;
    if calls != [] {
      var call := calls[0];
      assert call in calls && Logging !in calls[1..];
      DoInLimits(c, on, call);
      DoInLimits(c, det, call);
      if Lockstep(on.tx, det.tx) && det == on.(tx := det.tx) {
        LockstepDo(c, on, det, call);
      } else {
        InterruptedDo(c, on, call);
        DetectedDo(c, det, call);
        DivergedGoesOn(on.tx, Do(c, on, call).tx, det.tx, Do(c, det, call).tx);
      }
      RunSimulates(c, Do(c, on, call), Do(c, det, call), calls[1..]);
    }
  }

  /**
   The same calls on two new transactions: DetectionOnly never interrupts, detects exactly what On
   raises, and has logged every match that On has logged, in the same order, before any other.
   */
  lemma DetectionPredictsEnforcement(c: Config, vars: Vars, calls: seq<Call>)
    requires PlainConfig(c) && Logging !in calls
    ensures var on := DoAll(c, NewTransaction(On, vars), calls).tx;
            var det := DoAll(c, NewTransaction(RuleFlow.DetectionOnly, vars), calls).tx;
            && det.interruption.None?
            && det.detected == on.interruption
            && LogPrefix(on.matched, det.matched)
            && (on.interruption.None? ==> |on.matched| == |det.matched| && on.vars == det.vars)
  {
    RunSimulates(c, NewTransaction(On, vars), NewTransaction(RuleFlow.DetectionOnly, vars), calls);
  }
}
