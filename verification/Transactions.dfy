/**
 The Transaction object of internal/corazawaf/transaction.go, whose fields the calls update in
 place. Each method is proved to do what its function in TransactionModel says, so every theorem
 about those functions holds of the object.
 */
module Transactions {
  import opened Options
  import opened ByteStrings
  import opened RuleFlow
  import opened TransactionModel
  import opened BodyBuffers
  import BodyLimits
  import DetectionOnly

  class Transaction {
    const config: Config
    const requestBody: BodyBuffer
    const responseBody: BodyBuffer
    var engine: Engine
    var interruption: Option<Interruption>
    var detected: Option<Interruption>
    var skip: nat
    var skipAfter: string
    var allow: AllowType
    var lastPhase: Phase
    var vars: Vars
    var matched: seq<MatchedRule>
    ghost var evaluated: seq<Evaluation>
    ghost var phases: seq<Phase>

    ghost function Fields(): Tx
      reads this
    {
      Tx(engine, interruption, detected, skip, skipAfter, allow, lastPhase, vars, matched, evaluated)
    }

    /** The value the object stands for. */
    ghost function Abs(): State
      reads this, requestBody, responseBody
    {
      State(Fields(), requestBody.Contents(), responseBody.Contents(), phases)
    }

    /** A buffer that never refuses what the transaction's own limit admits. */
    static ghost predicate Serves(b: BodyBuffer, limit: nat)
      reads b, b.readers
    {
      b.Valid() && b.limit == limit && (b.hasFS || limit <= b.memoryLimit)
    }

    ghost predicate Valid()
      reads requestBody, responseBody, requestBody.readers, responseBody.readers
    {
      && config.Valid()
      && requestBody != responseBody
      && Serves(requestBody, config.requestLimit)
      && Serves(responseBody, config.responseLimit)
    }

    lemma ValidInLimits()
      requires Valid()
      ensures config.Valid() && InLimits(config, Abs())
    {
    }

    constructor (config: Config, engine: Engine, vars: Vars, requestMemory: nat, responseMemory: nat)
      requires config.Valid()
      ensures Valid() && fresh(requestBody) && fresh(responseBody)
      ensures this.config == config && Abs() == NewTransaction(engine, vars)
    {
      this.config, this.engine, this.vars := config, engine, vars;
      interruption, detected, skip, skipAfter, allow, lastPhase := None, None, 0, "", AllowUnset, 0;
      matched, evaluated, phases := [], [], [];
      requestBody := new BodyBuffer(config.requestLimit, requestMemory, true);
      responseBody := new BodyBuffer(config.responseLimit, responseMemory, true);
    }

    // ---------------------------------------------------------------- rules

    method Interrupt(it: Interruption)
      modifies this
      ensures Fields() == RuleFlow.Interrupt(old(Fields()), it) && phases == old(phases)
    {
      match engine
      case On => interruption := Some(it);
      case DetectionOnly =>
        if detected.None? {
          detected := Some(it);
        }
      case Off =>
    }

    /** One flow or disruptive action. */
    method Act(r: Rule, a: Action)
      modifies this
      ensures Fields() == RunAction(old(Fields()), r, a) && phases == old(phases)
    {
      match a
      case Deny => Interrupt(Interruption(r.id, "deny", if r.status == 0 then 403 else r.status, ""));
      case Drop => Interrupt(Interruption(r.id, "drop", r.status, ""));
      case Redirect(target) =>
        Interrupt(Interruption(r.id, "redirect", if r.status in {301, 302, 303, 307} then r.status else 302, target));
      case Allow(allowType) =>
        if engine == On {
          allow := allowType;
        }
      case Pass =>
      case Skip(n) => skip := n;
      case SkipAfter(mark) => skipAfter := mark;
    }

    /** Rule.Evaluate. */
    method EvaluateRule(r: Rule)
      modifies this
      ensures Fields() == Evaluate(old(Fields()), r) && phases == old(phases)
    {
      var e := r.effect(vars);
      vars := e.vars;
      if e.engine.Some? {
        engine := e.engine.value;
      }
      if !e.matched {
        return;
      }
      ghost var start := Fields();
      for k := 0 to |r.actions|
        invariant Fields() == RunActions(start, r, k) && phases == old(phases)
      {
        Act(r, r.actions[k]);
      }
      if r.id != 0 {
        matched := matched + [MatchedRule(r.id, vars, IsDisruptive(r) && engine == On)];
      }
    }

    /** RuleGroup.Eval: the loop over the rules of a phase. */
    method Eval(phase: Phase)
      modifies this
      ensures Fields() == RuleFlow.Eval(config.rules, phase, old(Fields())) && phases == old(phases) + [phase]
    {
      hide Evaluate;
      phases := phases + [phase];
      lastPhase := phase;
      var rules := config.rules;
      ghost var goal := EvalFrom(rules, phase, 0, Fields());
      var i := 0;
      while i < |rules|
        invariant 0 <= i <= |rules| && phases == old(phases) + [phase]
        invariant EvalFrom(rules, phase, i, Fields()) == goal
      {
        var r := rules[i];
        if interruption.Some? && phase != 5 {
          break;
        }
        i := i + 1;
        if !Eligible(vars, r, phase) {
          continue;
        }
        if skipAfter != "" {
          if r.mark == skipAfter {
            skipAfter := "";
          }
          continue;
        }
        if skip > 0 {
          skip := skip - 1;
          continue;
        }
        if AllowStops(allow, phase) {
          if allow == AllowRequest && phase == 2 {
            allow := AllowUnset;
          }
          assert Fields() == goal;
          i := |rules|;
          break;
        }
        evaluated := evaluated + [Evaluation(phase, i - 1, interruption.Some?, vars)];
        EvaluateRule(r);
      }
      assert Fields() == goal;
      if allow == AllowPhase {
        allow := AllowUnset;
      }
      skip := 0;
    }

    // ---------------------------------------------------------------- phases

    method ProcessRequestHeaders() returns (it: Option<Interruption>)
      modifies this
      ensures Abs() == TransactionModel.ProcessRequestHeaders(config, old(Abs()))
      ensures it == (if old(engine) == Off then None else interruption)
    {
      if engine == Off {
        return None;
      }
      if lastPhase >= 1 || interruption.Some? {
        return interruption;
      }
      Eval(1);
      it := interruption;
    }

    method ProcessRequestBody() returns (it: Option<Interruption>)
      modifies this
      ensures Abs() == TransactionModel.ProcessRequestBody(config, old(Abs()))
      ensures it == RequestBodyResult(old(Abs()), Abs())
    {
      if engine == Off {
        return None;
      }
      if interruption.Some? {
        return interruption;
      }
      if lastPhase != 1 {
        return None;
      }
      if config.requestAccess && requestBody.Contents() != [] {
        vars := config.processRequest(vars, requestBody.Contents());
      }
      Eval(2);
      it := interruption;
    }

    method ProcessResponseHeaders(setStatus: Vars -> Vars) returns (it: Option<Interruption>)
      modifies this
      ensures Abs() == TransactionModel.ProcessResponseHeaders(config, old(Abs()), setStatus)
      ensures it == (if old(Abs()).tx.engine == Off then None else Abs().tx.interruption)
    {
      if engine == Off {
        return None;
      }
      if lastPhase >= 3 || interruption.Some? {
        return interruption;
      }
      vars := setStatus(vars);
      Eval(3);
      it := interruption;
    }

    method ProcessResponseBody() returns (it: Option<Interruption>)
      modifies this
      ensures Abs() == TransactionModel.ProcessResponseBody(config, old(Abs()))
      ensures it == ResponseBodyResult(old(Abs()), Abs())
    {
      if engine == Off {
        return None;
      }
      if interruption.Some? {
        return interruption;
      }
      if lastPhase != 3 {
        return None;
      }
      if config.responseAccess && config.processable(vars) {
        vars := config.processResponse(vars, responseBody.Contents());
      }
      Eval(4);
      it := interruption;
    }

    method ProcessLogging()
      modifies this
      ensures Abs() == TransactionModel.ProcessLogging(config, old(Abs()))
    {
      if engine != Off {
        Eval(5);
      }
    }

    // ---------------------------------------------------------------- bodies

    method BodyLimitInterruption(status: int) returns (it: Option<Interruption>)
      modifies this
      ensures it == Some(LimitInterruption(status))
      ensures Fields() == old(Fields()).(interruption := it) && phases == old(phases)
    {
      interruption := Some(LimitInterruption(status));
      it := interruption;
    }

    method DataError(name: string)
      modifies this
      ensures Abs() == MarkError(old(Abs()), name)
    {
      vars := vars.(values := vars.values[name := ["1"]]);
    }

    /** AddResponseHeader and the like. */
    method SetVars(update: Vars -> Vars)
      modifies this
      ensures Abs() == old(Abs()).(tx := old(Abs()).tx.(vars := update(old(Abs()).tx.vars)))
    {
      vars := update(vars);
    }

    method WriteRequestBody(b: Bytes) returns (it: Option<Interruption>, n: nat, failed: bool)
      requires Valid()
      modifies this, requestBody
      ensures Valid() && InLimits(config, old(Abs()))
      ensures Written(Abs(), it, n, failed) == TransactionModel.WriteRequestBody(config, old(Abs()), b)
    {
      hide TransactionModel.ProcessRequestBody, TransactionModel.ProcessResponseBody;
      it, n, failed := None, 0, false;
      if engine == Off || !config.requestAccess {
        return;
      }
      if config.requestLimit == requestBody.length {
        if config.requestAction == Reject {
          it := interruption;
        }
        return;
      }
      var writingBytes := |b|;
      var runProcess := false;
      if requestBody.length >= MAX_INT64 - writingBytes {
        failed := true;
        return;
      }
      if requestBody.length + writingBytes >= config.requestLimit {
        DataError(INBOUND);
        if config.requestAction == Reject {
          it := BodyLimitInterruption(413);
          return;
        }
        writingBytes := config.requestLimit - requestBody.length;
        runProcess := true;
      }
      n, failed := requestBody.Write(b[..writingBytes]);
      if runProcess {
        var _ := ProcessRequestBody();
      } else {
        assert b[..writingBytes] == b;
      }
      it := interruption;
    }

    /** The reader holds `b`; a sized one announces its length. */
    method ReadRequestBodyFrom(b: Bytes, sized: bool) returns (it: Option<Interruption>, n: nat, failed: bool)
      requires Valid()
      modifies this, requestBody
      ensures Valid() && InLimits(config, old(Abs()))
      ensures Written(Abs(), it, n, failed) == TransactionModel.ReadRequestBodyFrom(config, old(Abs()), b, sized)
    {
      hide TransactionModel.ProcessRequestBody, TransactionModel.ProcessResponseBody;
      it, n, failed := None, 0, false;
      if engine == Off || !config.requestAccess {
        return;
      }
      if config.requestLimit == requestBody.length {
        if config.requestAction == Reject {
          it := interruption;
        }
        return;
      }
      var writingBytes := |b|;
      var runProcess := false;
      if sized {
        if requestBody.length >= MAX_INT64 - writingBytes {
          failed := true;
          return;
        }
        if requestBody.length + writingBytes >= config.requestLimit {
          DataError(INBOUND);
          if config.requestAction == Reject {
            it := BodyLimitInterruption(413);
            return;
          }
          writingBytes := config.requestLimit - requestBody.length;
          runProcess := true;
        }
      } else if config.requestLimit - requestBody.length < |b| {
        writingBytes := config.requestLimit - requestBody.length;
      }
      n, failed := requestBody.Write(b[..writingBytes]);
      MarkTwice(old(Abs()).(request := requestBody.Contents()), INBOUND);
      assert requestBody.length < config.requestLimit ==> b[..writingBytes] == b;
      var refused;
      it, refused := FinishRead(runProcess);
      n := if refused then 0 else n;
    }

    /** After the copy: a filled buffer is refused or processed. */
    method FinishRead(runProcess: bool) returns (it: Option<Interruption>, refused: bool)
      requires requestBody.length <= config.requestLimit
      requires requestBody.length < config.requestLimit ==> !runProcess
      modifies this
      ensures it == interruption
      ensures refused == (requestBody.length == config.requestLimit && config.requestAction == Reject)
      ensures Abs() ==
              if refused then RejectBody(MarkError(old(Abs()), INBOUND), 413).state
              else if requestBody.length >= config.requestLimit then
                TransactionModel.ProcessRequestBody(config, MarkError(old(Abs()), INBOUND))
              else old(Abs())
    {
      hide TransactionModel.ProcessRequestBody;
      var run := runProcess;
      if requestBody.length == config.requestLimit {
        DataError(INBOUND);
        if config.requestAction == Reject {
          it := BodyLimitInterruption(413);
          return it, true;
        }
        run := true;
      }
      if run {
        var _ := ProcessRequestBody();
      }
      return interruption, false;
    }

    method WriteResponseBody(b: Bytes) returns (it: Option<Interruption>, n: nat)
      requires Valid()
      modifies this, responseBody
      ensures Valid() && InLimits(config, old(Abs()))
      ensures Written(Abs(), it, n, false) == TransactionModel.WriteResponseBody(config, old(Abs()), b) && n <= |b|
    {
      hide TransactionModel.ProcessRequestBody, TransactionModel.ProcessResponseBody;
      it, n := None, 0;
      if engine == Off || !config.responseAccess {
        return;
      }
      if config.responseLimit == responseBody.length {
        if config.responseAction == Reject {
          it := interruption;
        }
        return;
      }
      var writingBytes := |b|;
      var runProcess := false;
      if responseBody.length + writingBytes >= config.responseLimit {
        DataError(OUTBOUND);
        if config.responseAction == Reject {
          it := BodyLimitInterruption(500);
          return;
        }
        writingBytes := config.responseLimit - responseBody.length;
        runProcess := true;
      }
      var failed;
      n, failed := responseBody.Write(b[..writingBytes]);
      if runProcess {
        var _ := ProcessResponseBody();
      } else {
        assert b[..writingBytes] == b;
      }
      it := interruption;
    }

    method ReadResponseBodyFrom(b: Bytes, sized: bool) returns (it: Option<Interruption>, n: nat)
      requires Valid()
      modifies this, responseBody
      ensures Valid() && InLimits(config, old(Abs()))
      ensures Written(Abs(), it, n, false) == TransactionModel.ReadResponseBodyFrom(config, old(Abs()), b, sized)
    {
      hide TransactionModel.ProcessResponseBody;
      it, n := None, 0;
      if engine == Off || !config.responseAccess {
        return;
      }
      if config.responseLimit == responseBody.length {
        if config.responseAction == Reject {
          it := interruption;
        }
        return;
      }
      var writingBytes := |b|;
      var runProcess := false;
      if sized {
        if responseBody.length + writingBytes >= config.responseLimit {
          DataError(OUTBOUND);
          if config.responseAction == Reject {
            it := BodyLimitInterruption(500);
            return;
          }
          writingBytes := config.responseLimit - responseBody.length;
          runProcess := true;
        }
      } else if config.responseLimit - responseBody.length < |b| {
        writingBytes := config.responseLimit - responseBody.length;
      }
      var failed;
      n, failed := responseBody.Write(b[..writingBytes]);
      MarkTwice(old(Abs()).(response := responseBody.Contents()), OUTBOUND);
      assert responseBody.length < config.responseLimit ==> b[..writingBytes] == b;
      var refused;
      it, refused := FinishResponseRead(runProcess);
      n := if refused then 0 else n;
    }

    method FinishResponseRead(runProcess: bool) returns (it: Option<Interruption>, refused: bool)
      requires responseBody.length <= config.responseLimit
      requires responseBody.length < config.responseLimit ==> !runProcess
      modifies this
      ensures it == interruption
      ensures refused == (responseBody.length == config.responseLimit && config.responseAction == Reject)
      ensures Abs() ==
              if refused then RejectBody(MarkError(old(Abs()), OUTBOUND), 500).state
              else if responseBody.length >= config.responseLimit then
                TransactionModel.ProcessResponseBody(config, MarkError(old(Abs()), OUTBOUND))
              else old(Abs())
    {
      hide TransactionModel.ProcessResponseBody;
      var run := runProcess;
      if responseBody.length == config.responseLimit {
        DataError(OUTBOUND);
        if config.responseAction == Reject {
          it := BodyLimitInterruption(500);
          return it, true;
        }
        run := true;
      }
      if run {
        var _ := ProcessResponseBody();
      }
      return interruption, false;
    }

    /** RequestBodyReader, read to its end. */
    method ReadRequestBody() returns (data: Bytes)
      requires Valid()
      modifies requestBody
      ensures Valid() && Abs() == old(Abs()) && data == Abs().request
    {
      var reader := requestBody.Reader();
      data := reader.ReadAll(32768);
    }

    /** ResponseBodyReader, read to its end. */
    method ReadResponseBody() returns (data: Bytes)
      requires Valid()
      modifies responseBody
      ensures Valid() && Abs() == old(Abs()) && data == Abs().response
    {
      var reader := responseBody.Reader();
      data := reader.ReadAll(32768);
    }

    // ---------------------------------------------------------------- whole runs

    method Perform(call: Call)
      requires Valid()
      modifies this, requestBody, responseBody
      ensures Valid() && InLimits(config, old(Abs())) && Abs() == Do(config, old(Abs()), call)
    {
      hide TransactionModel.ProcessRequestHeaders, TransactionModel.ProcessRequestBody;
      hide TransactionModel.ProcessResponseHeaders, TransactionModel.ProcessResponseBody;
      hide TransactionModel.WriteRequestBody, TransactionModel.ReadRequestBodyFrom;
      hide TransactionModel.WriteResponseBody, TransactionModel.ReadResponseBodyFrom, TransactionModel.ProcessLogging;
      hide Transaction.Valid, Transaction.Fields;
      ValidInLimits();
      match call
      case RequestHeaders => var _ := ProcessRequestHeaders();
      case WriteRequest(chunk) => var _, _, _ := WriteRequestBody(chunk);
      case ReadRequest(body, sized) => var _, _, _ := ReadRequestBodyFrom(body, sized);
      case RequestBody => var _ := ProcessRequestBody();
      case ResponseHeaders(setStatus) => var _ := ProcessResponseHeaders(setStatus);
      case WriteResponse(chunk) => var _, _ := WriteResponseBody(chunk);
      case ReadResponse(body, sized) => var _, _ := ReadResponseBodyFrom(body, sized);
      case ResponseBody => var _ := ProcessResponseBody();
      case Logging => ProcessLogging();
      case SetVars(update) => SetVars(update);
    }

    /** Any calls on the object do what they do on the value, so phase safety holds of the object. */
    method RunCalls(calls: seq<Call>)
      requires Valid()
      modifies this, requestBody, responseBody
      ensures Valid() && InLimits(config, old(Abs())) && Abs() == DoAll(config, old(Abs()), calls)
      ensures PhasesInOrder(old(Abs())) && ProperHistory(config, old(Abs())) ==>
                PhasesInOrder(Abs()) && ProperHistory(config, Abs()) && Advances(old(Abs()), Abs())
    {
      hide Transaction.Valid, Transaction.Abs, Do, PhasesInOrder, ProperHistory, Advances, InLimits;
      ghost var start := Abs();
      ValidInLimits();
      var i := 0;
      while i < |calls|
        invariant 0 <= i <= |calls| && Valid() && InLimits(config, Abs()) && InLimits(config, start)
        invariant DoAll(config, start, calls) == DoAll(config, Abs(), calls[i..])
      {
        Perform(calls[i]);
        ValidInLimits();
        i := i + 1;
      }
      if PhasesInOrder(start) && ProperHistory(config, start) {
        AnyCallSequence(config, start, calls);
      }
    }
  }

  /** A request body in any chunks, written to a new transaction: the limits hold of the object. */
  method WriteRequestChunks(tx: Transaction, chunks: seq<Bytes>)
    requires tx.Valid() && tx.requestBody.Contents() == [] && |BodyLimits.Concat(chunks)| < MAX_INT64
    requires tx.engine != Off && tx.config.requestAccess && tx.interruption.None?
    modifies tx, tx.requestBody
    ensures tx.Valid()
    ensures tx.config.requestAction == ProcessPartial ==>
              tx.requestBody.Contents() == BodyLimits.Cut(BodyLimits.Concat(chunks), tx.config.requestLimit)
    ensures tx.config.requestAction == Reject ==>
              (tx.interruption == Some(LimitInterruption(413)) <==>
               |BodyLimits.Concat(chunks)| >= tx.config.requestLimit)
  {
    hide Transaction.Valid, TransactionModel.WriteRequestBody, InLimits;
    tx.ValidInLimits();
    ghost var start := tx.Abs();
    var i := 0;
    while i < |chunks|
      invariant 0 <= i <= |chunks| && tx.Valid() && InLimits(tx.config, start) && InLimits(tx.config, tx.Abs())
      invariant BodyLimits.WriteRequestChunks(tx.config, start, chunks) ==
                BodyLimits.WriteRequestChunks(tx.config, tx.Abs(), chunks[i..])
    {
      var _, _, _ := tx.WriteRequestBody(chunks[i]);
      tx.ValidInLimits();
      i := i + 1;
    }
    StartInLimits(tx.config, start);
    BodyLimits.RequestLimit(tx.config, start, chunks);
  }

  lemma StartInLimits(c: Config, s: State)
    requires InLimits(c, s)
    ensures |s.response| <= c.responseLimit
  {
  }

  /** Two objects that differ in the engine mode only: what one enforces, the other detects. */
  method RunBoth(on: Transaction, det: Transaction, vars: Vars, calls: seq<Call>)
    requires on.Valid() && det.Valid() && on.config == det.config
    requires {on.requestBody, on.responseBody} !! {det.requestBody, det.responseBody}
    requires on.Abs() == NewTransaction(On, vars) && det.Abs() == NewTransaction(RuleFlow.DetectionOnly, vars)
    requires DetectionOnly.PlainConfig(on.config) && Logging !in calls
    modifies on, on.requestBody, on.responseBody, det, det.requestBody, det.responseBody
    ensures det.interruption.None? && det.detected == on.interruption
    ensures DetectionOnly.LogPrefix(on.matched, det.matched)
  {
    hide Transaction.Valid, DoAll, DetectionOnly.PlainConfig, DetectionOnly.LogPrefix;
    assert on != det;
    on.RunCalls(calls);
    det.RunCalls(calls);
    DetectionOnly.DetectionPredictsEnforcement(on.config, vars, calls);
  }
}
