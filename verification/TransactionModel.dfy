/**
 The transaction of internal/corazawaf/transaction.go: the Process* calls with their phase guards,
 and the body writes with their limits. The first half defines what each call does to the
 transaction's state; the second proves what any sequence of calls keeps. The object that performs
 the calls in place, in Transactions, is proved against these functions.
 */
module TransactionModel {
  import opened Options
  import opened ByteStrings
  import opened RuleFlow

  const MAX_INT64 := 0x7FFF_FFFF_FFFF_FFFF

  const INBOUND := "INBOUND_DATA_ERROR"
  const OUTBOUND := "OUTBOUND_DATA_ERROR"

  datatype LimitAction = Reject | ProcessPartial

  /** The WAF's configuration, fixed for the transaction; body processors are functions on the variables. */
  datatype Config = Config(
    rules: seq<Rule>,
    requestAccess: bool,
    requestLimit: nat,
    requestAction: LimitAction,
    processRequest: (Vars, Bytes) -> Vars,
    responseAccess: bool,
    responseLimit: nat,
    responseAction: LimitAction,
    processResponse: (Vars, Bytes) -> Vars,
    processable: Vars -> bool)
  {
    /** Body limits are positive (WAF.Validate). */
    predicate Valid() {
      0 < requestLimit <= MAX_INT64 && 0 < responseLimit <= MAX_INT64
    }
  }

  /** A transaction: the fields the rules see, the two bodies, and the history of evaluated phases. */
  datatype State = State(tx: Tx, request: Bytes, response: Bytes, phases: seq<Phase>)

  function NewTransaction(engine: Engine, vars: Vars): State {
    State(Tx(engine, None, None, 0, "", AllowUnset, 0, vars, [], []), [], [], [])
  }

  predicate InLimits(c: Config, s: State) {
    |s.request| <= c.requestLimit && |s.response| <= c.responseLimit
  }

  // ---------------------------------------------------------------- phases

  function EvalPhase(c: Config, s: State, phase: Phase, vars: Vars): State {
    s.(tx := Eval(c.rules, phase, s.tx.(vars := vars)), phases := s.phases + [phase])
  }

  function ProcessRequestHeaders(c: Config, s: State): State {
    if s.tx.engine == Off || s.tx.lastPhase >= 1 || s.tx.interruption.Some? then s
    else EvalPhase(c, s, 1, s.tx.vars)
  }

  function ProcessRequestBody(c: Config, s: State): State {
    if s.tx.engine == Off || s.tx.interruption.Some? || s.tx.lastPhase != 1 then s
    else
      EvalPhase(c, s, 2,
                if c.requestAccess && s.request != [] then c.processRequest(s.tx.vars, s.request) else s.tx.vars)
  }

  function ProcessResponseHeaders(c: Config, s: State, setStatus: Vars -> Vars): State {
    if s.tx.engine == Off || s.tx.lastPhase >= 3 || s.tx.interruption.Some? then s
    else EvalPhase(c, s, 3, setStatus(s.tx.vars))
  }

  function ProcessResponseBody(c: Config, s: State): State {
    if s.tx.engine == Off || s.tx.interruption.Some? || s.tx.lastPhase != 3 then s
    else
      EvalPhase(c, s, 4,
                if c.responseAccess && c.processable(s.tx.vars)
                then c.processResponse(s.tx.vars, s.response) else s.tx.vars)
  }

  /** What ProcessRequestBody returns, given the states before and after. */
  function RequestBodyResult(s: State, s': State): Option<Interruption> {
    if s.tx.engine == Off || (s.tx.interruption.None? && s.tx.lastPhase != 1) then None else s'.tx.interruption
  }

  /** What ProcessResponseBody returns, given the states before and after. */
  function ResponseBodyResult(s: State, s': State): Option<Interruption> {
    if s.tx.engine == Off || (s.tx.interruption.None? && s.tx.lastPhase != 3) then None else s'.tx.interruption
  }

  function ProcessLogging(c: Config, s: State): State {
    if s.tx.engine == Off then s else EvalPhase(c, s, 5, s.tx.vars)
  }

  // ---------------------------------------------------------------- bodies

  /** What a body write reports: an interruption, the bytes taken, or an error. */
  datatype Written = Written(state: State, it: Option<Interruption>, count: nat, failed: bool)

  function LimitInterruption(status: int): Interruption {
    Interruption(0, "deny", status, "")
  }

  /** The variable that tells rules a body was cut or refused. */
  function MarkError(s: State, name: string): State {
    s.(tx := s.tx.(vars := s.tx.vars.(values := s.tx.vars.values[name := ["1"]])))
  }

  lemma MarkTwice(s: State, name: string)
    ensures MarkError(MarkError(s, name), name) == MarkError(s, name)
  {
    assert s.tx.vars.values[name := ["1"]][name := ["1"]] == s.tx.vars.values[name := ["1"]];
  }

  /** setAndReturnBodyLimitInterruption: raised whatever the engine mode. */
  function RejectBody(s: State, status: int): Written {
    var s' := s.(tx := s.tx.(interruption := Some(LimitInterruption(status))));
    Written(s', s'.tx.interruption, 0, false)
  }

  function WriteRequestBody(c: Config, s: State, b: Bytes): Written
    requires InLimits(c, s)
  {
    if s.tx.engine == Off || !c.requestAccess then Written(s, None, 0, false)
    else if |s.request| == c.requestLimit then
      Written(s, if c.requestAction == Reject then s.tx.interruption else None, 0, false)
    else if |s.request| >= MAX_INT64 - |b| then Written(s, None, 0, true)
    else if |s.request| + |b| < c.requestLimit then
      Written(s.(request := s.request + b), s.tx.interruption, |b|, false)
    else if c.requestAction == Reject then RejectBody(MarkError(s, INBOUND), 413)
    else FillRequest(c, s, b)
  }

  /** The request body is filled up to its limit and processed there and then. */
  function FillRequest(c: Config, s: State, b: Bytes): Written
    requires |s.request| <= c.requestLimit <= |s.request| + |b|
  {
    var n := c.requestLimit - |s.request|;
    var s' := ProcessRequestBody(c, MarkError(s.(request := s.request + b[..n]), INBOUND));
    Written(s', s'.tx.interruption, n, false)
  }

  /**
   ReadRequestBodyFrom a reader holding `b`; `sized` readers announce their length first, others are
   copied until they end or the limit is reached.
   */
  function ReadRequestBodyFrom(c: Config, s: State, b: Bytes, sized: bool): Written
    requires InLimits(c, s)
  {
    if s.tx.engine == Off || !c.requestAccess then Written(s, None, 0, false)
    else if |s.request| == c.requestLimit then
      Written(s, if c.requestAction == Reject then s.tx.interruption else None, 0, false)
    else if sized && |s.request| >= MAX_INT64 - |b| then Written(s, None, 0, true)
    else if |s.request| + |b| < c.requestLimit then
      Written(s.(request := s.request + b), s.tx.interruption, |b|, false)
    else if c.requestAction == Reject then
      var kept := if sized then s.request else s.request + b[..c.requestLimit - |s.request|];
      RejectBody(MarkError(s.(request := kept), INBOUND), 413)
    else FillRequest(c, s, b)
  }

  function WriteResponseBody(c: Config, s: State, b: Bytes): Written
    requires InLimits(c, s)
  {
    if s.tx.engine == Off || !c.responseAccess then Written(s, None, 0, false)
    else if |s.response| == c.responseLimit then
      Written(s, if c.responseAction == Reject then s.tx.interruption else None, 0, false)
    else if |s.response| + |b| < c.responseLimit then
      Written(s.(response := s.response + b), s.tx.interruption, |b|, false)
    else if c.responseAction == Reject then RejectBody(MarkError(s, OUTBOUND), 500)
    else FillResponse(c, s, b)
  }

  function FillResponse(c: Config, s: State, b: Bytes): Written
    requires |s.response| <= c.responseLimit <= |s.response| + |b|
  {
    var n := c.responseLimit - |s.response|;
    var s' := ProcessResponseBody(c, MarkError(s.(response := s.response + b[..n]), OUTBOUND));
    Written(s', s'.tx.interruption, n, false)
  }

  function ReadResponseBodyFrom(c: Config, s: State, b: Bytes, sized: bool): Written
    requires InLimits(c, s)
  {
    if s.tx.engine == Off || !c.responseAccess then Written(s, None, 0, false)
    else if |s.response| == c.responseLimit then
      Written(s, if c.responseAction == Reject then s.tx.interruption else None, 0, false)
    else if |s.response| + |b| < c.responseLimit then
      Written(s.(response := s.response + b), s.tx.interruption, |b|, false)
    else if c.responseAction == Reject then
      var kept := if sized then s.response else s.response + b[..c.responseLimit - |s.response|];
      RejectBody(MarkError(s.(response := kept), OUTBOUND), 500)
    else FillResponse(c, s, b)
  }

  // ---------------------------------------------------------------- call sequences

  /** The calls a connector makes, in any order and any number. `SetVars` stands for AddRequestHeader and the like. */
  datatype Call =
    | RequestHeaders
    | WriteRequest(chunk: Bytes)
    | ReadRequest(body: Bytes, sized: bool)
    | RequestBody
    | ResponseHeaders(setStatus: Vars -> Vars)
    | WriteResponse(chunk: Bytes)
    | ReadResponse(body: Bytes, sized: bool)
    | ResponseBody
    | Logging
    | SetVars(update: Vars -> Vars)

  function Do(c: Config, s: State, call: Call): State
    requires InLimits(c, s)
  {
    match call
    case RequestHeaders => ProcessRequestHeaders(c, s)
    case WriteRequest(chunk) => WriteRequestBody(c, s, chunk).state
    case ReadRequest(body, sized) => ReadRequestBodyFrom(c, s, body, sized).state
    case RequestBody => ProcessRequestBody(c, s)
    case ResponseHeaders(setStatus) => ProcessResponseHeaders(c, s, setStatus)
    case WriteResponse(chunk) => WriteResponseBody(c, s, chunk).state
    case ReadResponse(body, sized) => ReadResponseBodyFrom(c, s, body, sized).state
    case ResponseBody => ProcessResponseBody(c, s)
    case Logging => ProcessLogging(c, s)
    case SetVars(update) => s.(tx := s.tx.(vars := update(s.tx.vars)))
  }

  /** The stored bodies never exceed their limits. */
  lemma DoInLimits(c: Config, s: State, call: Call)
    requires InLimits(c, s)
    ensures InLimits(c, Do(c, s, call))
  {
  }

  function DoAll(c: Config, s: State, calls: seq<Call>): (s': State)
    requires InLimits(c, s)
    ensures InLimits(c, s')
    decreases |calls|
  {
    if calls == [] then s
    else
      DoInLimits(c, s, calls[0]);
      DoAll(c, Do(c, s, calls[0]), calls[1..])
  }

  // ---------------------------------------------------------------- phase safety

  function LastOf(phases: seq<Phase>): Phase {
    if phases == [] then 0 else phases[|phases| - 1]
  }

  /** `phase` may be evaluated when `last` was the phase before it; 0 stands for none. */
  ghost predicate PhaseAllowed(last: Phase, phase: Phase) {
    && 1 <= phase && (last < phase || phase == 5)
    && (phase == 2 ==> last == 1)
    && (phase == 4 ==> last == 3)
  }

  ghost predicate Ordered(phases: seq<Phase>) {
    phases == [] || (Ordered(phases[..|phases| - 1]) && PhaseAllowed(LastOf(phases[..|phases| - 1]), LastOf(phases)))
  }

  /** Every phase of an ordered history was allowed after the one before it. */
  lemma {:induction false} OrderedAt(phases: seq<Phase>, i: nat)
    requires Ordered(phases) && i < |phases|
    ensures PhaseAllowed(LastOf(phases[..i]), phases[i])
    decreases |phases|
  {
    if i < |phases| - 1 {
      OrderedAt(phases[..|phases| - 1], i);
      assert phases[..|phases| - 1][..i] == phases[..i];
    }
  }

  lemma BodyAfterHeaders(phases: seq<Phase>, i: nat)
    requires Ordered(phases) && i < |phases|
    ensures phases[i] == 2 ==> i > 0 && phases[i - 1] == 1
    ensures phases[i] == 4 ==> i > 0 && phases[i - 1] == 3
  {
    OrderedAt(phases, i);
  }

  /** So phases increase and only logging repeats. */
  lemma {:induction false} OrderedIncreases(phases: seq<Phase>, i: nat, j: nat)
    requires Ordered(phases) && i < j < |phases|
    ensures phases[i] < phases[j] || phases[i] == phases[j] == 5
    decreases j
  {
    OrderedAt(phases, j);
    if i < j - 1 {
      OrderedIncreases(phases, i, j - 1);
    }
  }

  ghost predicate PhasesInOrder(s: State) {
    s.tx.lastPhase == LastOf(s.phases) && Ordered(s.phases)
  }

  /** Every evaluated rule was eligible, and none of phases 1 to 4 was evaluated after an interruption. */
  ghost predicate ProperHistory(c: Config, s: State) {
    forall k | 0 <= k < |s.tx.evaluated| :: ProperlyEvaluated(c, s.tx.evaluated[k])
  }

  ghost predicate ProperlyEvaluated(c: Config, e: Evaluation) {
    && e.rule < |c.rules| && Eligible(e.vars, c.rules[e.rule], e.phase)
    && (e.interrupted ==> e.phase == 5)
  }

  /** What one call may do to the history. */
  ghost predicate Advances(s: State, s': State) {
    && s.tx.lastPhase <= s'.tx.lastPhase
    && s.phases <= s'.phases
    && s.tx.evaluated <= s'.tx.evaluated
    && s.tx.matched <= s'.tx.matched
    && (s.tx.interruption.Some? ==> s'.tx.interruption.Some?)
    && (forall k | |s.tx.evaluated| <= k < |s'.tx.evaluated| :: s'.tx.evaluated[k].phase in s'.phases[|s.phases|..])
  }

  lemma NextPhaseInOrder(s: State, s': State, phase: Phase)
    requires PhasesInOrder(s) && PhaseAllowed(s.tx.lastPhase, phase)
    requires s'.phases == s.phases + [phase] && s'.tx.lastPhase == phase
    ensures PhasesInOrder(s')
  {
    assert s'.phases[..|s'.phases| - 1] == s.phases;
  }

  lemma EvalPhaseAdvances(c: Config, s: State, phase: Phase, vars: Vars)
    requires PhasesInOrder(s) && ProperHistory(c, s) && PhaseAllowed(s.tx.lastPhase, phase)
    ensures var s' := EvalPhase(c, s, phase, vars);
            PhasesInOrder(s') && ProperHistory(c, s') && Advances(s, s')
  {
    hide PhasesInOrder, EvalFrom;
    var s' := EvalPhase(c, s, phase, vars);
    var start := s.tx.(vars := vars, lastPhase := phase);
    EvalFromInOrder(c.rules, phase, 0, start);
    assert s.tx.(vars := vars).(lastPhase := phase) == start;
    NextPhaseInOrder(s, s', phase);
    assert s'.phases[|s.phases|..] == [phase];
  }

  lemma DoAdvances(c: Config, s: State, call: Call)
    requires InLimits(c, s) && PhasesInOrder(s) && ProperHistory(c, s)
    ensures var s' := Do(c, s, call); PhasesInOrder(s') && ProperHistory(c, s') && Advances(s, s')
  {
    hide PhasesInOrder, ProperHistory, EvalPhase;
    match call
    case RequestHeaders => HeadersAdvance(c, s, 1, s.tx.vars);
    case RequestBody => RequestBodyAdvances(c, s);
    case ResponseHeaders(setStatus) => HeadersAdvance(c, s, 3, setStatus(s.tx.vars));
    case ResponseBody => ResponseBodyAdvances(c, s);
    case Logging => HeadersAdvance(c, s, 5, s.tx.vars);
    case WriteRequest(chunk) => BodyWriteAdvances(c, s, call);
    case ReadRequest(_, _) => BodyWriteAdvances(c, s, call);
    case WriteResponse(_) => BodyWriteAdvances(c, s, call);
    case ReadResponse(_, _) => BodyWriteAdvances(c, s, call);
    case SetVars(update) => OnlyVarsChange(c, s, Do(c, s, call));
  }

  lemma HeadersAdvance(c: Config, s: State, phase: Phase, vars: Vars)
    requires PhasesInOrder(s) && ProperHistory(c, s) && phase in {1, 3, 5}
    ensures Advances(s, s)
    ensures s.tx.lastPhase < phase || phase == 5 ==>
              var s' := EvalPhase(c, s, phase, vars);
              PhasesInOrder(s') && ProperHistory(c, s') && Advances(s, s')
  {
    if s.tx.lastPhase < phase || phase == 5 {
      EvalPhaseAdvances(c, s, phase, vars);
    }
  }

  /** Equal but for variables, bodies and a raised interruption. */
  lemma OnlyVarsChange(c: Config, s: State, s': State)
    requires PhasesInOrder(s) && ProperHistory(c, s)
    requires s'.phases == s.phases && s'.tx.lastPhase == s.tx.lastPhase
    requires s'.tx.evaluated == s.tx.evaluated && s'.tx.matched == s.tx.matched
    requires s.tx.interruption.Some? ==> s'.tx.interruption.Some?
    ensures PhasesInOrder(s') && ProperHistory(c, s') && Advances(s, s')
  {
  }

  lemma RequestBodyAdvances(c: Config, s: State)
    requires PhasesInOrder(s) && ProperHistory(c, s)
    ensures var s' := ProcessRequestBody(c, s); PhasesInOrder(s') && ProperHistory(c, s') && Advances(s, s')
  {
    OnlyVarsChange(c, s, s);
    if s.tx.lastPhase == 1 {
      EvalPhaseAdvances(c, s, 2,
        if c.requestAccess && s.request != [] then c.processRequest(s.tx.vars, s.request) else s.tx.vars);
    }
  }

  lemma ResponseBodyAdvances(c: Config, s: State)
    requires PhasesInOrder(s) && ProperHistory(c, s)
    ensures var s' := ProcessResponseBody(c, s); PhasesInOrder(s') && ProperHistory(c, s') && Advances(s, s')
  {
    OnlyVarsChange(c, s, s);
    if s.tx.lastPhase == 3 {
      EvalPhaseAdvances(c, s, 4,
        if c.responseAccess && c.processable(s.tx.vars) then c.processResponse(s.tx.vars, s.response) else s.tx.vars);
    }
  }

  lemma FillAdvances(c: Config, s: State, b: Bytes)
    requires PhasesInOrder(s) && ProperHistory(c, s)
    ensures |s.request| <= c.requestLimit <= |s.request| + |b| ==>
              var s' := FillRequest(c, s, b).state;
              PhasesInOrder(s') && ProperHistory(c, s') && Advances(s, s')
    ensures |s.response| <= c.responseLimit <= |s.response| + |b| ==>
              var s' := FillResponse(c, s, b).state;
              PhasesInOrder(s') && ProperHistory(c, s') && Advances(s, s')
  {
    hide PhasesInOrder, ProperHistory, Advances, ProcessRequestBody, ProcessResponseBody;
    if |s.request| <= c.requestLimit <= |s.request| + |b| {
      var full := MarkError(s.(request := s.request + b[..c.requestLimit - |s.request|]), INBOUND);
      OnlyVarsChange(c, s, full);
      RequestBodyAdvances(c, full);
      SameHistory(s, full, FillRequest(c, s, b).state);
    }
    if |s.response| <= c.responseLimit <= |s.response| + |b| {
      var full := MarkError(s.(response := s.response + b[..c.responseLimit - |s.response|]), OUTBOUND);
      OnlyVarsChange(c, s, full);
      ResponseBodyAdvances(c, full);
      SameHistory(s, full, FillResponse(c, s, b).state);
    }
  }

  lemma BodyWriteAdvances(c: Config, s: State, call: Call)
    requires InLimits(c, s) && PhasesInOrder(s) && ProperHistory(c, s)
    requires call.WriteRequest? || call.ReadRequest? || call.WriteResponse? || call.ReadResponse?
    ensures var s' := Do(c, s, call); PhasesInOrder(s') && ProperHistory(c, s') && Advances(s, s')
  {
    hide PhasesInOrder, ProperHistory, Advances, FillRequest, FillResponse;
    var s' := Do(c, s, call);
    var b := if call.WriteRequest? || call.WriteResponse? then call.chunk else call.body;
    if s'.phases == s.phases && s'.tx.(interruption := None, vars := s.tx.vars) == s.tx.(interruption := None) &&
       (s.tx.interruption.Some? ==> s'.tx.interruption.Some?) {
      OnlyVarsChange(c, s, s');
    } else {
      FillAdvances(c, s, b);
    }
  }

  lemma SameHistory(s: State, full: State, s': State)
    requires full.tx.(vars := s.tx.vars) == s.tx && full.phases == s.phases && Advances(full, s')
    ensures Advances(s, s')
  {
  }

  /**
   Phase safety of every call sequence, legal or not: phases are evaluated in order and, but for
   logging, at most once; body phases directly follow their header phase; an interruption stays;
   and after an interruption no rule of phases 1 to 4 is evaluated.
   */
  lemma {:induction false} AnyCallSequence(c: Config, s: State, calls: seq<Call>)
    requires InLimits(c, s) && PhasesInOrder(s) && ProperHistory(c, s)
    ensures var s' := DoAll(c, s, calls); PhasesInOrder(s') && ProperHistory(c, s') && Advances(s, s')
    decreases |calls|
  {
    hide PhasesInOrder, ProperHistory, Do;
    if calls == [] {
      Reflexive(s);
    } else {
      DoInLimits(c, s, calls[0]);
      DoAdvances(c, s, calls[0]);
      AnyCallSequence(c, Do(c, s, calls[0]), calls[1..]);
      AdvancesTransitive(s, Do(c, s, calls[0]), DoAll(c, s, calls));
    }
  }

  lemma Reflexive(s: State)
    ensures Advances(s, s)
  {
  }

  lemma AdvancesTransitive(a: State, b: State, d: State)
    requires Advances(a, b) && Advances(b, d)
    ensures Advances(a, d)
  {
    forall k | |a.tx.evaluated| <= k < |d.tx.evaluated| ensures d.tx.evaluated[k].phase in d.phases[|a.phases|..] {
      if k < |b.tx.evaluated| {
        assert d.tx.evaluated[k] == b.tx.evaluated[k];
        var m :| 0 <= m < |b.phases[|a.phases|..]| && b.phases[|a.phases|..][m] == b.tx.evaluated[k].phase;
        assert d.phases[|a.phases|..][m] == b.phases[|a.phases| + m];
      } else {
        var m :| 0 <= m < |d.phases[|b.phases|..]| && d.phases[|b.phases|..][m] == d.tx.evaluated[k].phase;
        assert d.phases[|a.phases|..][|b.phases| - |a.phases| + m] == d.phases[|b.phases| + m];
      }
    }
  }

  /** Phase safety, spelled out for a new transaction and any calls whatever. */
  lemma PhaseSafety(c: Config, engine: Engine, vars: Vars, calls: seq<Call>)
    ensures var s := DoAll(c, NewTransaction(engine, vars), calls);
            && (forall i, j | 0 <= i < j < |s.phases| :: s.phases[i] < s.phases[j] || s.phases[i] == s.phases[j] == 5)
            && (forall i | 0 <= i < |s.phases| && s.phases[i] == 2 :: i > 0 && s.phases[i - 1] == 1)
            && (forall i | 0 <= i < |s.phases| && s.phases[i] == 4 :: i > 0 && s.phases[i - 1] == 3)
            && (forall k | 0 <= k < |s.tx.evaluated| :: s.tx.evaluated[k].phase in s.phases)
            && (forall k | 0 <= k < |s.tx.evaluated| :: ProperlyEvaluated(c, s.tx.evaluated[k]))
  {
    hide DoAll, Ordered;
    var s0, s := NewTransaction(engine, vars), DoAll(c, NewTransaction(engine, vars), calls);
    FreshInOrder(s0);
    AnyCallSequence(c, s0, calls);
    forall i: nat, j: nat | i < j < |s.phases| ensures s.phases[i] < s.phases[j] || s.phases[i] == s.phases[j] == 5 {
      OrderedIncreases(s.phases, i, j);
    }
    forall i: nat | i < |s.phases| && s.phases[i] == 2 ensures i > 0 && s.phases[i - 1] == 1 {
      BodyAfterHeaders(s.phases, i);
    }
    forall i: nat | i < |s.phases| && s.phases[i] == 4 ensures i > 0 && s.phases[i - 1] == 3 {
      BodyAfterHeaders(s.phases, i);
    }
  }

  lemma FreshInOrder(s: State)
    requires s.phases == [] && s.tx.lastPhase == 0
    ensures PhasesInOrder(s)
  {
  }
}
