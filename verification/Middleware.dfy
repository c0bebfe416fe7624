/**
 A whole exchange, as http/middleware.go wraps a handler: the request is fed to a new transaction and
 may be refused; otherwise the handler runs behind the interceptor; and the logging phase comes last.
 The handler is any function of the request body it reads.
 */
module Middleware {
  import opened Options
  import opened ByteStrings
  import opened RuleFlow
  import opened TransactionModel
  import opened PhaseRuns
  import opened Transactions
  import opened Interceptor

  /** What processRequest leaves: the transaction, its verdict, and the body that the handler will read. */
  datatype Incoming = Incoming(state: State, it: Option<Interruption>, failed: bool, seen: Bytes)

  function Rest(body: Option<Bytes>): Bytes {
    if body.Some? then body.value else []
  }

  /**
   processRequest: headers, then the body if there is one and it is inspected. The handler reads what
   the transaction has stored and then what it has left unread.
   */
  function ProcessRequest(c: Config, s: State, update: Vars -> Vars, body: Option<Bytes>, sized: bool): Incoming
    requires InLimits(c, s)
  {
    var s1 := s.(tx := s.tx.(vars := update(s.tx.vars)));
    var s2 := ProcessRequestHeaders(c, s1);
    if s1.tx.engine != Off && s2.tx.interruption.Some? then Incoming(s2, s2.tx.interruption, false, [])
    else if c.requestAccess && body.Some? then
      var r := ReadRequestBodyFrom(c, s2, body.value, sized);
      if r.failed || r.it.Some? then Incoming(r.state, if r.failed then None else r.it, r.failed, [])
      else
        var s3 := ProcessRequestBody(c, r.state);
        var unread := if r.count <= |body.value| then body.value[r.count..] else [];
        Incoming(s3, RequestBodyResult(r.state, s3), false, r.state.request + unread)
    else
      var s3 := ProcessRequestBody(c, s2);
      Incoming(s3, RequestBodyResult(s2, s3), false, Rest(body))
  }

  /** A read that is not refused stores what it takes. */
  lemma ReadStores(c: Config, s: State, b: Bytes, sized: bool)
    requires InLimits(c, s)
    ensures var r := ReadRequestBodyFrom(c, s, b, sized);
            && InLimits(c, r.state) && r.state.response == s.response
            && (!r.failed && r.it.None? && s.tx.interruption.None? ==>
                  r.count <= |b| && r.state.request == s.request + b[..r.count] && r.state.tx.interruption.None?)
            && (r.it.Some? ==> r.it == r.state.tx.interruption)
            && (r.failed ==> sized && |s.request| + |b| >= MAX_INT64)
  {
    hide Eval;
    DoInLimits(c, s, ReadRequest(b, sized));
    assert s.request + b[..0] == s.request && b[..|b|] == b;
  }

  /**
   Whatever the limits, the access mode and the rules: a handler that gets to run reads exactly the
   body of the request, and the verdict is the transaction's.
   */
  lemma HandlerReadsTheBody(c: Config, s: State, update: Vars -> Vars, body: Option<Bytes>, sized: bool)
    requires InLimits(c, s) && s.request == [] && s.tx.engine != Off && s.tx.interruption.None? && s.tx.lastPhase == 0
    ensures var q := ProcessRequest(c, s, update, body, sized);
            && InLimits(c, q.state) && q.state.response == s.response
            && (!q.failed && q.it.None? ==> q.seen == Rest(body))
            && (!q.failed ==> q.it == q.state.tx.interruption)
            && (q.failed ==> q.it.None? && sized && body.Some? && |body.value| >= MAX_INT64)
  {
    hide ReadRequestBodyFrom, ProcessRequestBody, ProcessRequestHeaders, RequestBodyResult, EvalPhase;
    var s1 := s.(tx := s.tx.(vars := update(s.tx.vars)));
    var s2 := ProcessRequestHeaders(c, s1);
    HeadersVerdict(c, s1);
    if s2.tx.interruption.None? {
      if c.requestAccess && body.Some? {
        var b := body.value;
        var r := ReadRequestBodyFrom(c, s2, b, sized);
        ReadStores(c, s2, b, sized);
        if !r.failed && r.it.None? {
          BodyVerdict(c, r.state);
          assert [] + b[..r.count] + b[r.count..] == b;
        }
      } else {
        BodyVerdict(c, s2);
      }
    }
  }

  lemma HeadersVerdict(c: Config, s: State)
    requires InLimits(c, s)
    ensures var s' := ProcessRequestHeaders(c, s);
            InLimits(c, s') && s'.request == s.request && s'.response == s.response
  {
    hide Eval;
  }

  lemma BodyVerdict(c: Config, s: State)
    requires InLimits(c, s) && s.tx.interruption.None?
    ensures var s' := ProcessRequestBody(c, s);
            && InLimits(c, s') && s'.request == s.request && s'.response == s.response
            && RequestBodyResult(s, s') == s'.tx.interruption
  {
    hide Eval;
  }

  /** A request that is let through has been through both its phases, also when its body was cut at the limit. */
  lemma RequestPhases(c: Config, engine: Engine, vars: Vars, update: Vars -> Vars, body: Option<Bytes>, sized: bool)
    requires engine != Off && forall r | r in c.rules :: NeverOff(r)
    ensures var q := ProcessRequest(c, NewTransaction(engine, vars), update, body, sized);
            !q.failed && q.it.None? ==> q.state.phases == [1, 2] && q.state.tx.lastPhase == 2
  {
    hide ReadRequestBodyFrom, ProcessRequestBody, ProcessRequestHeaders, RequestBodyResult, EvalPhase, NeverOff;
    var s := NewTransaction(engine, vars);
    NewReached(c, engine, vars);
    BetweenStep(c, s, SetVars(update), 0);
    var s1 := Do(c, s, SetVars(update));
    var q := ProcessRequest(c, s, update, body, sized);
    PhaseStep(c, s1, RequestHeaders, 0);
    var s2 := Do(c, s1, RequestHeaders);
    HeadersVerdict(c, s1);
    if !q.failed && q.it.None? {
      if c.requestAccess && body.Some? {
        ReadStores(c, s2, body.value, sized);
        BetweenStep(c, s2, ReadRequest(body.value, sized), 1);
        var s3 := Do(c, s2, ReadRequest(body.value, sized));
        PhaseStep(c, s3, RequestBody, if Reached(c, s3, 1) then 1 else 2);
      } else {
        PhaseStep(c, s2, RequestBody, 1);
      }
    }
  }

  /** How an exchange ends. */
  datatype Exchange =
    | Bypassed(seen: Bytes)
    | Failed
    | Refused(log: seq<Event>)
    | Answered(seen: Bytes, log: seq<Event>)

  /** processRequest on the object. */
  method TakeRequest(tx: Transaction, update: Vars -> Vars, body: Option<Bytes>, sized: bool)
    returns (it: Option<Interruption>, failed: bool, seen: Bytes)
    requires tx.Valid()
    modifies tx, tx.requestBody
    ensures tx.Valid() && InLimits(tx.config, old(tx.Abs()))
    ensures Incoming(tx.Abs(), it, failed, seen) == ProcessRequest(tx.config, old(tx.Abs()), update, body, sized)
  {
    hide Transaction.Valid, TransactionModel.ReadRequestBodyFrom, TransactionModel.ProcessRequestBody;
    hide TransactionModel.ProcessRequestHeaders, RequestBodyResult, InLimits;
    tx.ValidInLimits();
    failed, seen := false, [];
    tx.SetVars(update);
    it := tx.ProcessRequestHeaders();
    if it.Some? {
      return;
    }
    seen := Rest(body);
    if tx.config.requestAccess && body.Some? {
      var n;
      tx.ValidInLimits();
      it, n, failed := tx.ReadRequestBodyFrom(body.value, sized);
      if failed || it.Some? {
        return if failed then None else it, failed, [];
      }
      var stored := tx.ReadRequestBody();
      seen := stored + if n <= |body.value| then body.value[n..] else [];
    }
    it := tx.ProcessRequestBody();
  }

  /** The handler's response `log` came through the interceptor, from transaction `s` on, which ended in `s'`. */
  ghost predicate Intercepted(c: Config, k: Connector, s: State, headers: Headers, calls: seq<HandlerCall>,
                              s': State, log: seq<Event>)
  {
    exists x: Pair ::
      && x.w.log == log && s' == ProcessLogging(c, x.s)
      && Outcome(c, AtHeader(c, k, s, Handled(headers, calls)), x, Handled(headers, calls))
  }

  /**
   WrapHandler: with the engine off the handler is called directly. Otherwise a refused request gets
   one header and its handler never runs; any other handler reads exactly the request's body, and its
   response has the outcome proved for the interceptor. Logging is evaluated last, on every path.
   */
  method ServeHTTP(tx: Transaction, connector: Connector, update: Vars -> Vars, body: Option<Bytes>, sized: bool,
                   headers: Headers, handler: Bytes -> seq<HandlerCall>) returns (result: Exchange)
    requires tx.Valid() && tx.Abs() == NewTransaction(tx.engine, tx.vars)
    modifies tx, tx.requestBody, tx.responseBody
    ensures tx.Valid() && InLimits(tx.config, old(tx.Abs()))
    ensures var c, s := tx.config, old(tx.Abs());
            var q := ProcessRequest(c, s, update, body, sized);
            if s.tx.engine == Off then result == Bypassed(Rest(body)) && tx.Abs() == s
            else if q.failed then result == Failed && tx.Abs() == ProcessLogging(c, q.state)
            else if q.state.tx.interruption.Some? then
              && tx.Abs() == ProcessLogging(c, q.state)
              && result == Refused([Header(StatusFrom(q.state.tx.interruption.value, 200), headers)])
            else
              && result.Answered? && result.seen == Rest(body)
              && Intercepted(c, connector, q.state, headers, handler(Rest(body)), tx.Abs(), result.log)
  {
    hide Transaction.Valid, ProcessRequest, InLimits, Outcome, AtHeader, Handled, TransactionModel.ProcessLogging;
    tx.ValidInLimits();
    ghost var s := tx.Abs();
    if tx.engine == Off {
      return Bypassed(Rest(body));
    }
    HandlerReadsTheBody(tx.config, s, update, body, sized);
    var it, failed, seen := TakeRequest(tx, update, body, sized);
    ghost var q := ProcessRequest(tx.config, s, update, body, sized);
    if failed {
      result := Failed;
    } else if it.Some? {
      result := Refused([Header(StatusFrom(it.value, 200), headers)]);
    } else {
      var i := Serve(tx, connector, headers, handler(seen));
      result := Answered(seen, i.log);
      ghost var x, p := i.Abs(), Handled(headers, handler(seen));
      tx.ProcessLogging();
      assert x.w.log == result.log && Outcome(tx.config, AtHeader(tx.config, connector, q.state, p), x, p);
      return;
    }
    tx.ProcessLogging();
  }

  /** Logging is the last phase of every exchange whose engine is on. */
  lemma LoggingComesLast(c: Config, s: State)
    requires InLimits(c, s) && s.tx.engine != Off
    ensures ProcessLogging(c, s).phases == s.phases + [5]
  {
    hide EvalFrom;
    CallEvaluates(c, s, Logging);
  }
}
