/**
 The response writer that http/interceptor.go puts between a handler and the client. A response
 whose body is inspected is held back until it has been judged. The exact outcome of every response
 is proved: normally the handler's whole response or one clean error header goes downstream, and
 each exception has its condition and an example.
 */
module Interceptor {
  import opened Options
  import opened ByteStrings
  import opened RuleFlow
  import opened TransactionModel
  import opened BodyBuffers
  import opened Transactions

  type Headers = map<string, seq<string>>

  const CLEAN: Headers := map["Content-Length" := ["0"]]

  /** What the downstream response writer receives. */
  datatype Event = Header(status: int, headers: Headers) | Body(data: Bytes)

  function BodyOf(log: seq<Event>): Bytes {
    if log == [] then []
    else BodyOf(log[..|log| - 1]) + (if log[|log| - 1].Body? then log[|log| - 1].data else [])
  }

  lemma BodyOfAppend(log: seq<Event>, e: Event)
    ensures BodyOf(log + [e]) == BodyOf(log) + (if e.Body? then e.data else [])
  {
    assert (log + [e])[..|log|] == log;
  }

  /** One header, first, and nothing but body after it. */
  ghost predicate WellFormed(log: seq<Event>) {
    log != [] ==> log[0].Header? && forall k | 1 <= k < |log| :: log[k].Body?
  }

  /** The status of an interruption: its own when it denies, else what was to be sent. */
  function StatusFrom(it: Interruption, default: int): int {
    if it.action == "deny" then if it.status == 0 then 403 else it.status else default
  }

  // ---------------------------------------------------------------- what the transaction keeps

  /** An engine that is off has raised no interruption. */
  ghost predicate Enforcing(tx: Tx) {
    tx.interruption.Some? ==> tx.engine != Off
  }

  lemma {:induction false} ActionsEnforce(tx: Tx, r: Rule, n: nat)
    requires n <= |r.actions| && Enforcing(tx)
    ensures Enforcing(RunActions(tx, r, n)) && RunActions(tx, r, n).vars == tx.vars
  {
    if n > 0 {
      ActionsEnforce(tx, r, n - 1);
    }
  }

  lemma {:induction false} PhaseEnforces(c: Config, phase: Phase, i: nat, tx: Tx)
    requires phase != 5 && Enforcing(tx)
    ensures Enforcing(EvalFrom(c.rules, phase, i, tx))
    decreases |c.rules| - i
  {
    hide Eligible, RunActions, IsDisruptive;
    if i < |c.rules| && tx.interruption.None? {
      var r := c.rules[i];
      if !Eligible(tx.vars, r, phase) {
        PhaseEnforces(c, phase, i + 1, tx);
      } else if tx.skipAfter != "" {
        PhaseEnforces(c, phase, i + 1, if r.mark == tx.skipAfter then tx.(skipAfter := "") else tx);
      } else if tx.skip > 0 {
        PhaseEnforces(c, phase, i + 1, tx.(skip := tx.skip - 1));
      } else if !AllowStops(tx.allow, phase) {
        var e, logged := r.effect(tx.vars), Logged(phase, i, tx);
        ActionsEnforce(logged.(vars := e.vars, engine := if e.engine.Some? then e.engine.value else tx.engine), r, |r.actions|);
        PhaseEnforces(c, phase, i + 1, EvaluateAt(c.rules, phase, i, tx));
      }
    }
  }

  lemma ResponseHeadersEnforce(c: Config, s: State, setStatus: Vars -> Vars)
    requires Enforcing(s.tx)
    ensures var s' := ProcessResponseHeaders(c, s, setStatus);
            && Enforcing(s'.tx) && s'.request == s.request && s'.response == s.response
            && (s.tx.engine == Off ==> s' == s)
  {
    hide EvalFrom;
    PhaseEnforces(c, 3, 0, s.tx.(vars := setStatus(s.tx.vars)).(lastPhase := 3));
  }

  /** The body phase keeps the body, reports its interruption, and does nothing a second time. */
  lemma ResponseBodyOnce(c: Config, s: State)
    requires Enforcing(s.tx)
    ensures var s' := ProcessResponseBody(c, s);
            && Enforcing(s'.tx) && s'.request == s.request && s'.response == s.response
            && (s.tx.interruption.Some? || s.tx.engine == Off ==> s' == s)
            && (s.tx.interruption.None? ==> ResponseBodyResult(s, s') == s'.tx.interruption)
            && ProcessResponseBody(c, s') == s'
  {
    hide EvalFrom;
    var vars := if c.responseAccess && c.processable(s.tx.vars) then c.processResponse(s.tx.vars, s.response) else s.tx.vars;
    var start := s.tx.(vars := vars).(lastPhase := 4);
    PhaseEnforces(c, 4, 0, start);
    EvalFromInOrder(c.rules, 4, 0, start);
  }

  // ---------------------------------------------------------------- what the handler does

  datatype HandlerCall = SetHeaders(headers: Headers) | WriteHeader(status: int) | Write(data: Bytes) | Flush

  /**
   The response as the handler sees it: whether its header is fixed, the first status (200 unless
   given in time), all bytes written, the chunk whose write fixed the header, if one did, the header
   maps in effect from then on, and every write.
   */
  datatype Progress = Progress(
    wroteHeader: bool, status: int, written: Bytes, implicit: Bytes, offered: seq<Headers>, writes: seq<Chunk>)
  {
    ghost predicate Valid() {
      && offered != []
      && (if writes == [] then written == [] && implicit == []
          else wroteHeader && writes[0].before == 0 && writes[|writes| - 1].after == |written|)
      && (forall i | 0 <= i < |writes| :: writes[i].before <= writes[i].after <= |written|)
      && (forall i, j | 0 <= i < j < |writes| :: writes[i].after <= writes[j].before)
      && (forall j | 0 < j < |writes| :: writes[j].before == writes[j - 1].after)
      && (!wroteHeader ==> status == 200 && |offered| == 1)
    }

    /** The header map in effect now. */
    function Current(): Headers
      requires offered != []
    {
      offered[|offered| - 1]
    }
  }

  /** One write: the body's length before and after it, and the header map in effect. */
  datatype Chunk = Chunk(before: nat, after: nat, headers: Headers)

  function Start(headers: Headers): Progress {
    Progress(false, 200, [], [], [headers], [])
  }

  function AfterWrite(p: Progress, data: Bytes): Progress
    requires p.offered != []
  {
    p.(wroteHeader := true, written := p.written + data,
       writes := p.writes + [Chunk(|p.written|, |p.written| + |data|, p.Current())])
  }

  function Next(p: Progress, call: HandlerCall): Progress
    requires p.offered != []
  {
    match call
    case SetHeaders(headers) => p.(offered := if p.wroteHeader then p.offered + [headers] else [headers])
    case WriteHeader(status) => if p.wroteHeader then p else p.(wroteHeader := true, status := status)
    case Write(data) => AfterWrite(p, data).(implicit := if p.wroteHeader then p.implicit else data)
    case Flush => p.(wroteHeader := true)
  }

  function Handled(headers: Headers, calls: seq<HandlerCall>): (p: Progress)
    ensures p.offered != []
  {
    if calls == [] then Start(headers) else Next(Handled(headers, calls[..|calls| - 1]), calls[|calls| - 1])
  }

  // ---------------------------------------------------------------- the interceptor, as functions

  /**
   The interceptor's fields and what it has sent; `cause` is the interruption it answered first and
   `flushes` counts the flushes it has passed on.
   */
  datatype Writer = Writer(
    headers: Headers,
    log: seq<Event>,
    statusCode: int,
    wroteHeader: bool,
    wroteBuffered: bool,
    allowFlushing: bool,
    flushes: nat,
    cause: Option<Interruption>)

  /** How the response headers and the status become transaction variables. */
  datatype Connector = Connector(addHeaders: Headers -> Vars -> Vars, setStatus: int -> Vars -> Vars)

  datatype Pair = Pair(s: State, w: Writer)

  function NewWriter(headers: Headers): Writer {
    Writer(headers, [], 200, false, false, false, 0, None)
  }

  predicate Buffers(c: Config, s: State) {
    c.responseAccess && c.processable(s.tx.vars)
  }

  function FlushHeader(w: Writer): Writer {
    if w.log == [] then w.(log := [Header(w.statusCode, w.headers)]) else w
  }

  /** Answers an interruption: clean headers and its status, unless a header is already out. */
  function Answer(w: Writer, it: Interruption): Writer {
    FlushHeader(w.(headers := CLEAN, statusCode := StatusFrom(it, w.statusCode),
                   cause := if w.cause.Some? then w.cause else Some(it)))
  }

  function Send(w: Writer, data: Bytes): Writer {
    w.(log := w.log + [Body(data)])
  }

  /** Delivers what was held back. */
  function Release(w: Writer, held: Bytes): Writer {
    if w.wroteBuffered then w else Send(FlushHeader(w), held).(wroteBuffered := true)
  }

  /** The response headers and status reach the transaction, and phase 3 is evaluated. */
  function Receive(c: Config, k: Connector, s: State, headers: Headers, code: int): State {
    ProcessResponseHeaders(c, s.(tx := s.tx.(vars := k.addHeaders(headers)(s.tx.vars))), k.setStatus(code))
  }

  function OnHeader(c: Config, k: Connector, x: Pair, code: int): Pair {
    if x.w.wroteHeader then x
    else
      var s' := Receive(c, k, x.s, x.w.headers, code);
      var w := x.w.(wroteHeader := true, statusCode := code);
      if x.s.tx.engine != Off && s'.tx.interruption.Some? then Pair(s', Answer(w, s'.tx.interruption.value))
      else
        var sent := if code == 101 then FlushHeader(w) else w;
        Pair(s', sent.(allowFlushing := w.allowFlushing || !Buffers(c, s')))
  }

  function OnBody(c: Config, x: Pair, b: Bytes): Pair
    requires InLimits(c, x.s)
  {
    if Buffers(c, x.s) && !x.w.wroteBuffered then
      var r := WriteResponseBody(c, x.s, b);
      if r.it.Some? then Pair(r.state, Answer(x.w, r.it.value))
      else if r.count == |b| then Pair(r.state, x.w)
      else Pair(r.state, Send(Release(x.w, r.state.response), if r.count <= |b| then b[r.count..] else []))
    else Pair(x.s, Send(FlushHeader(x.w), b))
  }

  function OnWrite(c: Config, k: Connector, x: Pair, b: Bytes): Pair
    requires InLimits(c, x.s)
  {
    if x.s.tx.interruption.Some? then x else OnBody(c, OnHeader(c, k, x, 200), b)
  }

  /** A flush is passed on only if the body is not held back and the header is out. */
  function OnFlush(c: Config, k: Connector, x: Pair): Pair {
    var y := OnHeader(c, k, x, 200);
    if y.w.allowFlushing && y.w.log != [] then y.(w := y.w.(flushes := y.w.flushes + 1)) else y
  }

  function Step(c: Config, k: Connector, x: Pair, call: HandlerCall): (x': Pair)
    requires InLimits(c, x.s)
    ensures InLimits(c, x'.s)
  {
    match call
    case SetHeaders(headers) => x.(w := x.w.(headers := headers))
    case WriteHeader(status) => OnHeader(c, k, x, status)
    case Write(data) =>
      DoInLimits(c, OnHeader(c, k, x, 200).s, WriteResponse(data));
      OnWrite(c, k, x, data)
    case Flush => OnFlush(c, k, x)
  }

  function Steps(c: Config, k: Connector, x: Pair, calls: seq<HandlerCall>): (x': Pair)
    requires InLimits(c, x.s)
    ensures InLimits(c, x'.s)
  {
    if calls == [] then x else Step(c, k, Steps(c, k, x, calls[..|calls| - 1]), calls[|calls| - 1])
  }

  /** The response processor, once the handler has returned. */
  function OnEnd(c: Config, x: Pair): Pair {
    if x.s.tx.interruption.Some? then x
    else if Buffers(c, x.s) && !x.w.wroteBuffered then
      var s' := ProcessResponseBody(c, x.s);
      var it := ResponseBodyResult(x.s, s');
      if it.Some? then Pair(s', Answer(x.w, it.value)) else Pair(s', Release(x.w, s'.response))
    else x.(w := FlushHeader(x.w.(allowFlushing := true)))
  }

  /** A whole response: the handler's calls on a fresh interceptor, then the processor. */
  function Respond(c: Config, k: Connector, s: State, headers: Headers, calls: seq<HandlerCall>): Pair
    requires InLimits(c, s)
  {
    OnEnd(c, Steps(c, k, Pair(s, NewWriter(headers)), calls))
  }

  // ---------------------------------------------------------------- what decides a response

  /** The transaction right after the response headers, or as it was if none were fixed. */
  function AtHeader(c: Config, k: Connector, s: State, p: Progress): State
    requires p.offered != []
  {
    if p.wroteHeader then Receive(c, k, s, p.offered[0], p.status) else s
  }

  /** A body below the limit, judged when the handler has returned. */
  function Whole(c: Config, a: State, p: Progress): State {
    ProcessResponseBody(c, a.(response := p.written))
  }

  /** A body that reached the limit, cut there and judged at once. */
  function Filled(c: Config, a: State, p: Progress): State
    requires c.responseLimit <= |p.written|
  {
    ProcessResponseBody(c, MarkError(a.(response := p.written[..c.responseLimit]), OUTBOUND))
  }

  /** The body is held back and inspected. */
  predicate Inspected(c: Config, a: State) {
    Buffers(c, a) && a.tx.engine != Off
  }

  /** The interruption that the header tells, if any. */
  function Judgement(c: Config, a: State, p: Progress): Option<Interruption> {
    if a.tx.interruption.Some? || !Inspected(c, a) then a.tx.interruption
    else if |p.written| < c.responseLimit then Whole(c, a, p).tx.interruption
    else if c.responseAction == Reject then Some(LimitInterruption(500))
    else Filled(c, a, p).tx.interruption
  }

  /** An inspected body was cut at its limit and not interrupted. */
  predicate CutAndPassed(c: Config, a: State, p: Progress) {
    && a.tx.interruption.None? && Inspected(c, a)
    && c.responseAction == ProcessPartial && c.responseLimit <= |p.written|
    && Filled(c, a, p).tx.interruption.None?
  }

  /** Some write ended exactly at the limit. */
  predicate AtLimit(c: Config, p: Progress) {
    exists i | 0 <= i < |p.writes| :: p.writes[i].after == c.responseLimit
  }

  /**
   The bytes held back are lost: a write ended exactly at the limit, and judging the cut body took
   back the decision to inspect it.
   */
  predicate Drops(c: Config, a: State, p: Progress) {
    CutAndPassed(c, a, p) && AtLimit(c, p) && !Buffers(c, Filled(c, a, p))
  }

  /** The write `w` sends the header, unless it is out already. */
  predicate Sends(c: Config, a: State, p: Progress, w: Chunk) {
    if !Buffers(c, a) then true
    else if a.tx.engine == Off then w.before < w.after
    else CutAndPassed(c, a, p) && if Drops(c, a, p) then w.before >= c.responseLimit else w.after > c.responseLimit
  }

  ghost predicate NoneSends(c: Config, a: State, p: Progress) {
    forall i | 0 <= i < |p.writes| :: !Sends(c, a, p, p.writes[i])
  }

  /** The header map that goes out: for 101 the one in effect when it is fixed, else when it is sent. */
  ghost predicate SentMap(c: Config, a: State, p: Progress, h: Headers)
    requires p.offered != []
  {
    if p.status == 101 then h == p.offered[0]
    else
      || (exists i | 0 <= i < |p.writes| ::
            && Sends(c, a, p, p.writes[i]) && h == p.writes[i].headers
            && forall j | 0 <= j < i :: !Sends(c, a, p, p.writes[j]))
      || (NoneSends(c, a, p) && h == p.Current())
  }

  // ---------------------------------------------------------------- the invariant

  /** Nothing of the body sent yet; body bytes sent, `released` if they had been held back; or an interruption answered. */
  datatype Mode = Waiting | Sending(released: bool, body: Bytes) | Stopping(told: Interruption, body: Bytes)

  /** How far a response has come, while the handler runs. */
  function ModeOf(c: Config, a: State, p: Progress): Mode {
    if a.tx.interruption.Some? then Stopping(a.tx.interruption.value, if Buffers(c, a) then [] else p.implicit)
    else if !Buffers(c, a) then if p.writes == [] then Waiting else Sending(false, p.written)
    else if a.tx.engine == Off then if p.written == [] then Waiting else Sending(true, p.written)
    else if |p.written| < c.responseLimit then Waiting
    else if c.responseAction == Reject then Stopping(LimitInterruption(500), [])
    else if Filled(c, a, p).tx.interruption.Some? then Stopping(Filled(c, a, p).tx.interruption.value, [])
    else if Drops(c, a, p) then
      if p.writes != [] && p.writes[|p.writes| - 1].before >= c.responseLimit
      then Sending(false, p.written[c.responseLimit..]) else Waiting
    else if |p.written| == c.responseLimit then Waiting
    else Sending(true, p.written)
  }

  /** The transaction at that point. */
  ghost predicate StateIs(c: Config, a: State, s: State, p: Progress) {
    if a.tx.interruption.Some? then
      if Buffers(c, a) then InLimits(c, a) && s == WriteResponseBody(c, a, p.implicit).state else s == a
    else if !Inspected(c, a) then s == a
    else if |p.written| < c.responseLimit then s == a.(response := p.written)
    else if c.responseAction == Reject then s.tx.interruption == Some(LimitInterruption(500))
    else s == Filled(c, a, p)
  }

  /** A header that went out before anything was decided. */
  function Early(p: Progress): seq<Event>
    requires p.offered != []
  {
    if p.wroteHeader && p.status == 101 then [Header(101, p.offered[0])] else []
  }

  /** The header of an interrupted response. */
  function StopHeader(a: State, p: Progress, it: Interruption): Event
    requires p.offered != []
  {
    if a.tx.interruption.None? && p.status == 101 then Header(101, p.offered[0])
    else Header(StatusFrom(it, p.status), CLEAN)
  }

  /** The interceptor at that point. */
  ghost predicate WriterIs(c: Config, a: State, w: Writer, p: Progress)
    requires p.offered != []
  {
    match ModeOf(c, a, p)
    case Waiting => Untold(w, p) && !w.wroteBuffered && w.log == Early(p) && NoneSends(c, a, p)
    case Sending(released, body) =>
      && Untold(w, p) && w.wroteBuffered == released && p.wroteHeader
      && w.log != [] && w.log[0].Header? && w.log[0].status == p.status && SentMap(c, a, p, w.log[0].headers)
      && BodyOf(w.log) == body
    case Stopping(it, body) =>
      && w.cause == Some(it) && p.wroteHeader && !w.wroteBuffered
      && w.log != [] && w.log[0] == StopHeader(a, p, it)
      && BodyOf(w.log) == body && (Buffers(c, a) ==> |w.log| == 1)
  }

  ghost predicate Untold(w: Writer, p: Progress)
    requires p.offered != []
  {
    w.cause.None? && w.statusCode == p.status && w.headers == p.Current()
  }

  ghost predicate Sound(c: Config, a: State) {
    c.Valid() && a.response == [] && Enforcing(a.tx) && InLimits(c, a)
  }

  ghost predicate Inv(c: Config, a: State, x: Pair, p: Progress) {
    && p.Valid() && Sound(c, a) && InLimits(c, x.s)
    && WellFormed(x.w.log) && x.w.wroteHeader == p.wroteHeader
    && (!p.wroteHeader ==> a.tx.interruption.None?)
    && x.w.allowFlushing == (p.wroteHeader && a.tx.interruption.None? && !Buffers(c, a))
    && (!x.w.allowFlushing ==> x.w.flushes == 0)
    && StateIs(c, a, x.s, p) && WriterIs(c, a, x.w, p)
  }

  /** What the writer does about an interruption it learns of while nothing has been sent. */
  lemma AnswerStops(a: State, w: Writer, p: Progress, it: Interruption)
    requires p.offered != [] && p.wroteHeader
    requires w.cause.None? && w.statusCode == p.status
    requires w.log == if a.tx.interruption.Some? then [] else Early(p)
    ensures var w' := Answer(w, it);
            && WellFormed(w'.log) && w'.cause == Some(it) && |w'.log| == 1 && w'.log[0] == StopHeader(a, p, it)
            && BodyOf(w'.log) == []
            && w'.wroteHeader == w.wroteHeader && w'.wroteBuffered == w.wroteBuffered
            && w'.allowFlushing == w.allowFlushing && w'.flushes == w.flushes
  {
    assert Answer(w, it).log == [StopHeader(a, p, it)];
    BodyOfAppend([], StopHeader(a, p, it));
    assert [] + [StopHeader(a, p, it)] == [StopHeader(a, p, it)];
  }

  // ---------------------------------------------------------------- one header

  /** Before its header is fixed a response has done nothing. */
  lemma BeforeHeader(c: Config, s: State, x: Pair, p: Progress)
    requires Inv(c, s, x, p) && !p.wroteHeader
    ensures x.s == s && Untold(x.w, p) && x.w.log == [] && !x.w.wroteBuffered && !x.w.wroteHeader
    ensures !x.w.allowFlushing && x.w.flushes == 0
  {
    hide Drops, WellFormed;
    assert s.(response := []) == s;
  }

  lemma HeaderKeeps(c: Config, k: Connector, s: State, x: Pair, p: Progress, code: int)
    requires p.offered != [] && Inv(c, AtHeader(c, k, s, p), x, p)
    ensures var q := Next(p, WriteHeader(code)); Inv(c, AtHeader(c, k, s, q), OnHeader(c, k, x, code), q)
    ensures !p.wroteHeader ==> OnHeader(c, k, x, code).s == AtHeader(c, k, s, Next(p, WriteHeader(code)))
  {
    hide Receive, StateIs, WriterIs;
    if !p.wroteHeader {
      BeforeHeader(c, s, x, p);
      ReceiveSound(c, k, s, p.Current(), code);
      var q := Next(p, WriteHeader(code));
      HeaderFixed(c, AtHeader(c, k, s, q), OnHeader(c, k, x, code), x.w, q);
    }
  }

  lemma ReceiveSound(c: Config, k: Connector, s: State, headers: Headers, code: int)
    requires Sound(c, s)
    ensures Sound(c, Receive(c, k, s, headers, code))
    ensures s.tx.engine == Off && s.tx.interruption.None? ==> Receive(c, k, s, headers, code).tx.interruption.None?
  {
    hide ProcessResponseHeaders;
    ResponseHeadersEnforce(c, s.(tx := s.tx.(vars := k.addHeaders(headers)(s.tx.vars))), k.setStatus(code));
  }

  /** The header is fixed: it is answered, or sent at once as a 101, or kept. */
  lemma HeaderFixed(c: Config, a: State, y: Pair, w: Writer, q: Progress)
    requires q.Valid() && q.wroteHeader && q.writes == [] && Sound(c, a) && y.s == a
    requires w.cause.None? && w.headers == q.Current() == q.offered[0] && w.log == [] && !w.wroteBuffered && w.flushes == 0
    requires !w.allowFlushing
    requires var w1 := w.(wroteHeader := true, statusCode := q.status);
             y.w == if a.tx.interruption.Some? then Answer(w1, a.tx.interruption.value)
                    else (if q.status == 101 then FlushHeader(w1) else w1).(allowFlushing := !Buffers(c, a))
    ensures Inv(c, a, y, q)
  {
    hide Drops, SentMap, WriteResponseBody;
    var w1 := w.(wroteHeader := true, statusCode := q.status);
    if a.tx.interruption.Some? {
      hide Answer;
      AnswerStops(a, w1, q, a.tx.interruption.value);
      NothingStored(c, a);
    } else {
      EarlyIsNoBody(q);
      assert a.(response := []) == a;
    }
  }

  /** An empty write to an empty body changes nothing. */
  lemma NothingStored(c: Config, a: State)
    requires Sound(c, a)
    ensures WriteResponseBody(c, a, []).state == a
  {
    assert a.(response := [] + []) == a;
  }

  // ---------------------------------------------------------------- one write

  lemma WriteIsValid(q: Progress, b: Bytes, implicit: Bytes)
    requires q.Valid() && (q.wroteHeader || q.writes == [])
    ensures AfterWrite(q, b).(implicit := implicit).Valid()
  {
  }

  /** What is decided by the first bytes of a body stays decided as more bytes come. */
  lemma DecidedStays(c: Config, a: State, q: Progress, b: Bytes, implicit: Bytes)
    requires q.Valid() && c.Valid()
    ensures var p := AfterWrite(q, b).(implicit := implicit);
            && (c.responseLimit <= |q.written| ==>
                  && p.written[..c.responseLimit] == q.written[..c.responseLimit]
                  && Filled(c, a, p) == Filled(c, a, q)
                  && AtLimit(c, p) == AtLimit(c, q) && Drops(c, a, p) == Drops(c, a, q))
            && forall i | 0 <= i < |q.writes| :: Sends(c, a, p, q.writes[i]) == Sends(c, a, q, q.writes[i])
  {
    hide ProcessResponseBody;
    var p := AfterWrite(q, b).(implicit := implicit);
    if c.responseLimit <= |q.written| {
      assert p.written[..c.responseLimit] == q.written[..c.responseLimit];
      assert forall i | 0 <= i < |q.writes| :: p.writes[i] == q.writes[i];
      if AtLimit(c, p) {
        var i :| 0 <= i < |p.writes| && p.writes[i].after == c.responseLimit;
        var j := if i == |q.writes| then i - 1 else i;
        assert q.writes[j].after == c.responseLimit;
      }
    }
  }

  /** A write that sends the header with the map in effect. */
  lemma FirstToSend(c: Config, a: State, q: Progress, p: Progress, b: Bytes)
    requires q.Valid() && c.Valid() && NoneSends(c, a, q) && p == AfterWrite(q, b).(implicit := p.implicit)
    ensures p.status != 101 && Sends(c, a, p, p.writes[|q.writes|]) ==> SentMap(c, a, p, q.Current())
    ensures p.status == 101 ==> SentMap(c, a, p, q.offered[0])
    ensures !Sends(c, a, p, p.writes[|q.writes|]) ==> NoneSends(c, a, p)
  {
    hide Sends;
    DecidedStays(c, a, q, b, p.implicit);
    assert forall i | 0 <= i < |q.writes| :: p.writes[i] == q.writes[i];
  }

  /** Once the header is out, later writes leave its map alone. */
  lemma SentMapStays(c: Config, a: State, q: Progress, p: Progress, b: Bytes, h: Headers)
    requires q.Valid() && c.Valid() && SentMap(c, a, q, h) && !NoneSends(c, a, q)
    requires p == AfterWrite(q, b).(implicit := p.implicit)
    ensures SentMap(c, a, p, h) && !NoneSends(c, a, p)
  {
    hide Sends;
    DecidedStays(c, a, q, b, p.implicit);
    assert forall i | 0 <= i < |q.writes| :: p.writes[i] == q.writes[i];
    if p.status != 101 {
      var i :| 0 <= i < |q.writes| && Sends(c, a, q, q.writes[i]) && h == q.writes[i].headers &&
               forall j | 0 <= j < i :: !Sends(c, a, q, q.writes[j]);
      assert Sends(c, a, p, p.writes[i]) && forall j | 0 <= j < i :: !Sends(c, a, p, p.writes[j]);
    } else {
      var i :| 0 <= i < |q.writes| && Sends(c, a, q, q.writes[i]);
      assert Sends(c, a, p, p.writes[i]);
    }
  }

  /** The header goes out if it has not, and then the data. */
  lemma SendDelivers(w: Writer, data: Bytes)
    requires WellFormed(w.log)
    ensures var w' := Send(FlushHeader(w), data);
            && WellFormed(w'.log) && w'.log != [] && w' == w.(log := w'.log)
            && w'.log[0] == (if w.log == [] then Header(w.statusCode, w.headers) else w.log[0])
            && BodyOf(w'.log) == BodyOf(w.log) + data
  {
    var f := FlushHeader(w);
    if w.log == [] {
      OneHeader(Header(w.statusCode, w.headers));
    }
    BodyOfAppend(f.log, Body(data));
  }

  lemma OneHeader(h: Event)
    requires h.Header?
    ensures BodyOf([h]) == [] && BodyOf([]) == []
  {
    BodyOfAppend([], h);
    assert [] + [h] == [h];
  }

  lemma EarlyIsNoBody(p: Progress)
    requires p.offered != []
    ensures BodyOf(Early(p)) == [] && WellFormed(Early(p))
  {
    OneHeader(Header(101, p.offered[0]));
  }

  /** A held-back body goes out, and with it the rest of the chunk. */
  lemma ReleaseDelivers(w: Writer, p: Progress, held: Bytes, rest: Bytes)
    requires p.offered != [] && p.wroteHeader && Untold(w, p) && !w.wroteBuffered && w.log == Early(p)
    ensures var w' := Release(w, held);
            && WellFormed(w'.log) && w'.log != [] && BodyOf(w'.log) == held
            && w'.log[0] == Header(p.status, if p.status == 101 then p.offered[0] else p.Current())
            && w' == w.(log := w'.log, wroteBuffered := true)
    ensures var w' := Send(Release(w, held), rest);
            && WellFormed(w'.log) && w'.log != [] && BodyOf(w'.log) == held + rest
            && w'.log[0] == Header(p.status, if p.status == 101 then p.offered[0] else p.Current())
            && w' == w.(log := w'.log, wroteBuffered := true)
  {
    EarlyIsNoBody(p);
    SendDelivers(w, held);
    BodyOfAppend(Release(w, held).log, Body(rest));
  }

  /** The header was interrupted by the write that fixed it. */
  lemma BodyAfterStop(c: Config, a: State, y: Pair, q: Progress, b: Bytes)
    requires Inv(c, a, y, q) && q.wroteHeader && q.writes == [] && a.tx.interruption.Some? && y.s == a
    ensures Inv(c, a, OnBody(c, y, b), AfterWrite(q, b).(implicit := b))
  {
    hide ProcessResponseBody, Sends, SentMap, Drops, WriteResponseBody, BodyOf, WellFormed, Answer;
    WriteIsValid(q, b, b);
    if Buffers(c, a) {
      StoppedWrite(c, a, b);
      AnswerAgain(y.w, WriteResponseBody(c, a, b).it.value);
    } else {
      SendDelivers(y.w, b);
      assert [] + b == b;
    }
  }

  /** A second answer changes nothing that has gone out. */
  lemma AnswerAgain(w: Writer, it: Interruption)
    requires w.log != [] && w.cause.Some?
    ensures var w' := Answer(w, it); w' == w.(headers := w'.headers, statusCode := w'.statusCode)
  {
  }

  /** Writing to an interrupted transaction reports an interruption, the body limit's if it is reached under Reject. */
  lemma StoppedWrite(c: Config, a: State, b: Bytes)
    requires Sound(c, a) && a.tx.interruption.Some? && c.responseAccess
    ensures var r := WriteResponseBody(c, a, b);
            && r.it.Some? && r.it == r.state.tx.interruption && InLimits(c, r.state)
            && r.it == (if c.responseAction == Reject && |b| >= c.responseLimit then Some(LimitInterruption(500))
                        else a.tx.interruption)
  {
    hide EvalPhase;
  }

  /** A body that is not held back goes straight downstream. */
  lemma BodyUnheld(c: Config, a: State, y: Pair, q: Progress, b: Bytes, implicit: Bytes)
    requires Inv(c, a, y, q) && q.wroteHeader && a.tx.interruption.None? && !Buffers(c, a)
    ensures Inv(c, a, OnBody(c, y, b), AfterWrite(q, b).(implicit := implicit))
  {
    hide ProcessResponseBody, Drops, WellFormed, BodyOf;
    var p := AfterWrite(q, b).(implicit := implicit);
    WriteIsValid(q, b, implicit);
    EarlyIsNoBody(q);
    SendDelivers(y.w, b);
    if q.writes == [] {
      FirstToSend(c, a, q, p, b);
    } else {
      assert Sends(c, a, q, q.writes[0]);
      SentMapStays(c, a, q, p, b, y.w.log[0].headers);
    }
  }

  /** With the engine off a body that would be held back is let through. */
  lemma BodyOff(c: Config, a: State, y: Pair, q: Progress, b: Bytes, implicit: Bytes)
    requires Inv(c, a, y, q) && q.wroteHeader && a.tx.interruption.None? && Buffers(c, a) && a.tx.engine == Off
    ensures Inv(c, a, OnBody(c, y, b), AfterWrite(q, b).(implicit := implicit))
  {
    hide ProcessResponseBody, Drops, WellFormed, BodyOf, SentMap, Release, Send;
    var p := AfterWrite(q, b).(implicit := implicit);
    WriteIsValid(q, b, implicit);
    if q.written == [] {
      FirstToSend(c, a, q, p, b);
      ReleaseDelivers(y.w, q, [], b);
      assert [] + b == b && b[0..] == b;
    } else {
      SomeByteSent(c, a, q);
      SentMapStays(c, a, q, p, b, y.w.log[0].headers);
      SendDelivers(y.w, b);
    }
  }

  lemma SomeByteSent(c: Config, a: State, q: Progress)
    requires q.Valid() && q.written != [] && Buffers(c, a) && a.tx.engine == Off
    ensures !NoneSends(c, a, q)
  {
    var i := FirstByte(q, |q.writes| - 1);
    assert Sends(c, a, q, q.writes[i]);
  }

  lemma {:induction false} FirstByte(q: Progress, n: nat) returns (i: nat)
    requires q.Valid() && n < |q.writes| && q.writes[n].after > 0
    ensures i < |q.writes| && q.writes[i].before < q.writes[i].after
  {
    assert q.writes[0].before == 0;
    if q.writes[n].before < q.writes[n].after || n == 0 {
      i := n;
    } else {
      i := FirstByte(q, n - 1);
    }
  }

  /** A write to a body that is still below the limit. */
  lemma FillingWrite(c: Config, a: State, q: Progress, p: Progress, b: Bytes)
    requires q.Valid() && Sound(c, a) && a.tx.interruption.None? && Inspected(c, a) && |q.written| < c.responseLimit
    requires p == AfterWrite(q, b).(implicit := p.implicit)
    ensures InLimits(c, a.(response := q.written))
    ensures var r := WriteResponseBody(c, a.(response := q.written), b);
            && InLimits(c, r.state)
            && (|p.written| < c.responseLimit ==>
                  r.it.None? && r.count == |b| && r.state == a.(response := p.written))
            && (|p.written| >= c.responseLimit && c.responseAction == Reject ==>
                  r.it == Some(LimitInterruption(500)) == r.state.tx.interruption)
            && (|p.written| >= c.responseLimit && c.responseAction == ProcessPartial ==>
                  && r.state == Filled(c, a, p) && r.it == r.state.tx.interruption
                  && r.count == c.responseLimit - |q.written| <= |b|
                  && r.state.response == p.written[..c.responseLimit])
  {
    hide ProcessResponseBody, Enforcing;
    var s := a.(response := q.written);
    if |p.written| >= c.responseLimit && c.responseAction == ProcessPartial {
      var n := c.responseLimit - |q.written|;
      assert q.written + b[..n] == p.written[..c.responseLimit];
      var full := MarkError(a.(response := p.written[..c.responseLimit]), OUTBOUND);
      MarkKeeps(a, full);
      ResponseBodyOnce(c, full);
    }
  }

  lemma MarkKeeps(a: State, full: State)
    requires Enforcing(a.tx) && full.tx == a.tx.(vars := full.tx.vars)
    ensures Enforcing(full.tx)
  {
  }

  lemma BodyFilling(c: Config, a: State, y: Pair, q: Progress, b: Bytes, implicit: Bytes)
    requires Inv(c, a, y, q) && q.wroteHeader && a.tx.interruption.None? && Inspected(c, a)
    requires |q.written| < c.responseLimit
    ensures Inv(c, a, OnBody(c, y, b), AfterWrite(q, b).(implicit := implicit))
  {
    hide WriteResponseBody, Filled, WellFormed, BodyOf, Release, Send, Answer, SentMap;
    var p := AfterWrite(q, b).(implicit := implicit);
    WriteIsValid(q, b, implicit);
    FillingWrite(c, a, q, p, b);
    EarlyIsNoBody(q);
    if |p.written| < c.responseLimit {
      FirstToSend(c, a, q, p, b);
    } else if c.responseAction == Reject {
      AnswerStops(a, y.w, q, LimitInterruption(500));
    } else if Filled(c, a, p).tx.interruption.Some? {
      AnswerStops(a, y.w, q, Filled(c, a, p).tx.interruption.value);
    } else {
      BodyReachesLimit(c, a, y, q, p, b);
    }
  }

  /** The limit is reached and the cut body passes: it stays held if the chunk ends there, else all goes out. */
  lemma BodyReachesLimit(c: Config, a: State, y: Pair, q: Progress, p: Progress, b: Bytes)
    requires Inv(c, a, y, q) && q.wroteHeader && a.tx.interruption.None? && Inspected(c, a)
    requires |q.written| < c.responseLimit <= |p.written| && p == AfterWrite(q, b).(implicit := p.implicit) && p.Valid()
    requires c.responseAction == ProcessPartial && Filled(c, a, p).tx.interruption.None?
    ensures Inv(c, a, OnBody(c, y, b), p)
  {
    hide WriteResponseBody, Filled, WellFormed, BodyOf, Release, Send, Answer, SentMap;
    FillingWrite(c, a, q, p, b);
    FirstToSend(c, a, q, p, b);
    EarlyIsNoBody(q);
    var n := c.responseLimit - |q.written|;
    assert p.writes[|q.writes|] == Chunk(|q.written|, |p.written|, q.Current());
    if n == |b| {
      assert AtLimit(c, p);
    } else {
      JumpedOver(c, q, p, b);
      ReleaseDelivers(y.w, q, p.written[..c.responseLimit], b[n..]);
      assert p.written[..c.responseLimit] + b[n..] == p.written;
    }
  }

  lemma JumpedOver(c: Config, q: Progress, p: Progress, b: Bytes)
    requires q.Valid() && p == AfterWrite(q, b).(implicit := p.implicit)
    requires |q.written| < c.responseLimit < |p.written|
    ensures !AtLimit(c, p)
  {
    assert forall i | 0 <= i < |q.writes| :: p.writes[i] == q.writes[i];
  }

  /** A write to a body that has reached its limit and passed. */
  lemma BodyPastLimit(c: Config, a: State, y: Pair, q: Progress, b: Bytes, implicit: Bytes)
    requires Inv(c, a, y, q) && q.wroteHeader && a.tx.interruption.None? && Inspected(c, a)
    requires c.responseLimit <= |q.written| && y.s.tx.interruption.None?
    ensures Inv(c, a, OnBody(c, y, b), AfterWrite(q, b).(implicit := implicit))
  {
    hide ProcessResponseBody, WellFormed, BodyOf, Release, Send, Answer, SentMap, FlushHeader;
    var p := AfterWrite(q, b).(implicit := implicit);
    WriteIsValid(q, b, implicit);
    DecidedStays(c, a, q, b, implicit);
    FilledKeeps(c, a, q);
    EarlyIsNoBody(q);
    assert p.writes[|q.writes|] == Chunk(|q.written|, |p.written|, q.Current());
    if Drops(c, a, q) {
      BodyDropped(c, a, y, q, p, b);
    } else if |q.written| == c.responseLimit {
      LastEndsAtLimit(c, q);
      FirstToSend(c, a, q, p, b);
      ReleaseDelivers(y.w, q, q.written, b);
      assert b[0..] == b && q.written[..c.responseLimit] == q.written;
    } else {
      assert Sends(c, a, q, q.writes[|q.writes| - 1]);
      SentMapStays(c, a, q, p, b, y.w.log[0].headers);
      SendDelivers(y.w, b);
    }
  }

  lemma LastEndsAtLimit(c: Config, q: Progress)
    requires q.Valid() && c.Valid() && |q.written| == c.responseLimit
    ensures AtLimit(c, q)
  {
    assert q.writes[|q.writes| - 1].after == c.responseLimit;
  }

  lemma FilledKeeps(c: Config, a: State, q: Progress)
    requires Enforcing(a.tx) && c.responseLimit <= |q.written|
    ensures Filled(c, a, q).response == q.written[..c.responseLimit]
    ensures ProcessResponseBody(c, Filled(c, a, q)) == Filled(c, a, q)
  {
    hide ProcessResponseBody;
    ResponseBodyOnce(c, MarkError(a.(response := q.written[..c.responseLimit]), OUTBOUND));
  }

  /** What was held back is lost; later chunks go straight downstream. */
  lemma BodyDropped(c: Config, a: State, y: Pair, q: Progress, p: Progress, b: Bytes)
    requires Inv(c, a, y, q) && q.wroteHeader && Drops(c, a, q) && Drops(c, a, p)
    requires p == AfterWrite(q, b).(implicit := p.implicit) && p.Valid()
    requires Filled(c, a, p) == Filled(c, a, q)
    ensures Inv(c, a, OnBody(c, y, b), p)
  {
    hide ProcessResponseBody, WellFormed, BodyOf, Send, SentMap, FlushHeader, AtLimit;
    assert p.writes[|q.writes|] == Chunk(|q.written|, |p.written|, q.Current());
    assert p.written[c.responseLimit..] == q.written[c.responseLimit..] + b;
    EarlyIsNoBody(q);
    SendDelivers(y.w, b);
    if q.writes[|q.writes| - 1].before >= c.responseLimit {
      assert Sends(c, a, q, q.writes[|q.writes| - 1]);
      SentMapStays(c, a, q, p, b, y.w.log[0].headers);
    } else {
      FirstToSend(c, a, q, p, b);
      NothingBeyond(c, q);
    }
  }

  lemma NothingBeyond(c: Config, q: Progress)
    requires q.Valid() && c.Valid() && AtLimit(c, q) && c.responseLimit <= |q.written|
    requires q.writes != [] && q.writes[|q.writes| - 1].before < c.responseLimit
    ensures q.written[c.responseLimit..] == []
  {
    var i :| 0 <= i < |q.writes| && q.writes[i].after == c.responseLimit;
  }

  // ---------------------------------------------------------------- every handler call

  lemma BodyKeeps(c: Config, a: State, y: Pair, q: Progress, b: Bytes, implicit: Bytes)
    requires Inv(c, a, y, q) && q.wroteHeader && y.s.tx.interruption.None?
    ensures Inv(c, a, OnBody(c, y, b), AfterWrite(q, b).(implicit := implicit))
  {
    hide ModeOf, WriterIs, OnBody, Progress.Valid, WriteResponseBody;
    NotInterrupted(c, a, y, q);
    if !Buffers(c, a) {
      BodyUnheld(c, a, y, q, b, implicit);
    } else if a.tx.engine == Off {
      BodyOff(c, a, y, q, b, implicit);
    } else if |q.written| < c.responseLimit {
      BodyFilling(c, a, y, q, b, implicit);
    } else {
      BodyPastLimit(c, a, y, q, b, implicit);
    }
  }

  /** An interruption of the headers stays. */
  lemma NotInterrupted(c: Config, a: State, y: Pair, q: Progress)
    requires Inv(c, a, y, q) && y.s.tx.interruption.None?
    ensures a.tx.interruption.None?
  {
    hide WriterIs, WriteResponseBody;
    if a.tx.interruption.Some? && Buffers(c, a) {
      StoppedWrite(c, a, q.implicit);
    }
  }

  /** Once a response is interrupted its later writes decide nothing. */
  lemma StoppedIgnores(c: Config, a: State, x: Pair, p: Progress, b: Bytes)
    requires Inv(c, a, x, p) && x.s.tx.interruption.Some?
    ensures p.wroteHeader && Inv(c, a, x, AfterWrite(p, b))
  {
    hide ProcessResponseBody, WriteResponseBody, BodyOf, WellFormed, SentMap;
    WriteIsValid(p, b, p.implicit);
    DecidedStays(c, a, p, b, p.implicit);
    assert AfterWrite(p, b).(implicit := p.implicit) == AfterWrite(p, b).(wroteHeader := true);
  }

  /** The header maps decide nothing but the header. */
  lemma MapsDecideNothing(c: Config, a: State, p: Progress, q: Progress)
    requires q == p.(offered := q.offered)
    ensures ModeOf(c, a, q) == ModeOf(c, a, p)
    ensures forall w: Chunk :: Sends(c, a, q, w) == Sends(c, a, p, w)
    ensures forall s: State :: StateIs(c, a, s, q) == StateIs(c, a, s, p)
  {
    hide ProcessResponseBody, WriteResponseBody;
  }

  lemma SetHeadersKeeps(c: Config, a: State, x: Pair, p: Progress, headers: Headers)
    requires Inv(c, a, x, p)
    ensures Inv(c, a, x.(w := x.w.(headers := headers)), Next(p, SetHeaders(headers)))
  {
    hide BodyOf, WellFormed, ModeOf, StateIs, Sends, Sound;
    var q := Next(p, SetHeaders(headers));
    MapsDecideNothing(c, a, p, q);
    if ModeOf(c, a, p).Sending? {
      LimitPositive(c, a);
      SendingHasSent(c, a, p);
    }
  }

  lemma LimitPositive(c: Config, a: State)
    requires Sound(c, a)
    ensures c.Valid()
  {
  }

  lemma SendingHasSent(c: Config, a: State, p: Progress)
    requires p.Valid() && c.Valid() && ModeOf(c, a, p).Sending?
    ensures !NoneSends(c, a, p)
  {
    hide ProcessResponseBody;
    if Buffers(c, a) && a.tx.engine == Off {
      SomeByteSent(c, a, p);
    } else {
      assert Sends(c, a, p, p.writes[|p.writes| - 1]);
    }
  }

  lemma FlushKeeps(c: Config, a: State, y: Pair, p: Progress)
    requires Inv(c, a, y, p) && y.w.allowFlushing
    ensures Inv(c, a, y.(w := y.w.(flushes := y.w.flushes + 1)), p)
  {
    hide ModeOf, BodyOf, WellFormed, StateIs, SentMap, NoneSends;
  }

  ghost predicate Follows(c: Config, k: Connector, s: State, x: Pair, p: Progress) {
    p.offered != [] && Inv(c, AtHeader(c, k, s, p), x, p)
  }

  /** Every handler call keeps the invariant, whatever the rules do. */
  lemma StepKeeps(c: Config, k: Connector, s: State, x: Pair, p: Progress, call: HandlerCall)
    requires InLimits(c, x.s) && Follows(c, k, s, x, p)
    ensures Follows(c, k, s, Step(c, k, x, call), Next(p, call))
  {
    hide Inv, Receive, OnHeader, OnBody, InLimits;
    match call
    case SetHeaders(headers) => SetHeadersKeeps(c, AtHeader(c, k, s, p), x, p, headers);
    case WriteHeader(status) => HeaderKeeps(c, k, s, x, p, status);
    case Flush =>
      HeaderKeeps(c, k, s, x, p, 200);
      FlushIsHeader(c, AtHeader(c, k, s, p), x, p);
      if OnHeader(c, k, x, 200).w.allowFlushing {
        FlushKeeps(c, AtHeader(c, k, s, Next(p, call)), OnHeader(c, k, x, 200), Next(p, call));
      }
    case Write(b) => WriteKeeps(c, k, s, x, p, b);
  }

  lemma FlushIsHeader(c: Config, a: State, x: Pair, p: Progress)
    requires Inv(c, a, x, p)
    ensures Next(p, Flush) == Next(p, WriteHeader(200))
  {
  }

  lemma WriteKeeps(c: Config, k: Connector, s: State, x: Pair, p: Progress, b: Bytes)
    requires InLimits(c, x.s) && Follows(c, k, s, x, p)
    ensures InLimits(c, OnHeader(c, k, x, 200).s) && Follows(c, k, s, OnWrite(c, k, x, b), Next(p, Write(b)))
  {
    hide Receive, OnHeader, OnBody, StateIs, WriterIs, Progress.Valid;
    var a := AtHeader(c, k, s, p);
    if x.s.tx.interruption.Some? {
      StoppedIgnores(c, a, x, p, b);
      HeaderKeeps(c, k, s, x, p, 200);
    } else {
      var y, q := OnHeader(c, k, x, 200), Next(p, WriteHeader(200));
      HeaderKeeps(c, k, s, x, p, 200);
      var a' := AtHeader(c, k, s, q);
      HeaderFirst(p, b);
      if y.s.tx.interruption.None? {
        BodyKeeps(c, a', y, q, b, Next(p, Write(b)).implicit);
      } else {
        if p.wroteHeader {
          HeaderIgnored(c, k, x);
        }
        assert !p.wroteHeader && y.s == a';
        BodyAfterStop(c, a', y, q, b);
      }
    }
  }

  lemma HeaderFirst(p: Progress, b: Bytes)
    requires p.Valid()
    ensures var q := Next(p, WriteHeader(200));
            && Next(p, Write(b)) == AfterWrite(q, b).(implicit := if p.wroteHeader then p.implicit else b)
            && (!p.wroteHeader ==> q.writes == [])
  {
  }

  lemma HeaderIgnored(c: Config, k: Connector, x: Pair)
    requires x.w.wroteHeader
    ensures OnHeader(c, k, x, 200) == x
  {
  }

  lemma {:induction false} StepsKeep(c: Config, k: Connector, x: Pair, calls: seq<HandlerCall>)
    requires InLimits(c, x.s) && Follows(c, k, x.s, x, Start(x.w.headers))
    ensures Follows(c, k, x.s, Steps(c, k, x, calls), Handled(x.w.headers, calls))
  {
    hide Follows, Step, Next;
    if calls != [] {
      var y, p := Steps(c, k, x, calls[..|calls| - 1]), Handled(x.w.headers, calls[..|calls| - 1]);
      StepsKeep(c, k, x, calls[..|calls| - 1]);
      StepKeeps(c, k, x.s, y, p, calls[|calls| - 1]);
    }
  }

  lemma FreshFollows(c: Config, k: Connector, s: State, headers: Headers)
    requires c.Valid() && InLimits(c, s) && s.tx.interruption.None? && s.response == []
    ensures Follows(c, k, s, Pair(s, NewWriter(headers)), Start(headers))
  {
    assert s.(response := []) == s;
  }

  // ---------------------------------------------------------------- the whole response

  /** The header's interruption is replaced in the transaction, though not downstream, by the body limit's. */
  predicate Replaced(c: Config, a: State, p: Progress) {
    && a.tx.interruption.Some? && Buffers(c, a)
    && c.responseAction == Reject && |p.implicit| >= c.responseLimit
  }

  /** What of the body goes downstream. */
  function Delivered(c: Config, a: State, p: Progress): Bytes {
    if Judgement(c, a, p).Some? then if Buffers(c, a) then [] else p.implicit
    else if Drops(c, a, p) then p.written[c.responseLimit..]
    else p.written
  }

  /**
   What becomes of a response, given the transaction right after its headers: exactly one header
   goes downstream, first. Without an interruption it has the handler's status and the handler's map
   when it was sent; with one it tells the interruption, unless a 101 was out before. Then the body.
   A body that is held back is never flushed.
   */
  ghost predicate Outcome(c: Config, a: State, x: Pair, p: Progress)
    requires p.offered != []
  {
    && WellFormed(x.w.log) && x.w.log != [] && x.w.log[0].Header?
    && x.w.cause == Judgement(c, a, p)
    && x.s.tx.interruption == (if Replaced(c, a, p) then Some(LimitInterruption(500)) else Judgement(c, a, p))
    && (match Judgement(c, a, p)
        case Some(it) => x.w.log[0] == StopHeader(a, p, it) && (Buffers(c, a) ==> |x.w.log| == 1)
        case None => x.w.log[0].status == p.status && SentMap(c, a, p, x.w.log[0].headers))
    && BodyOf(x.w.log) == Delivered(c, a, p)
    && (Buffers(c, a) ==> x.w.flushes == 0)
  }

  lemma EndDelivers(c: Config, a: State, x: Pair, p: Progress)
    requires Inv(c, a, x, p)
    ensures Outcome(c, a, OnEnd(c, x), p)
  {
    hide StateIs, WriterIs, OnEnd, Outcome, Progress.Valid;
    match ModeOf(c, a, p)
    case Stopping(it, body) => EndOfStopped(c, a, x, p);
    case Sending(released, body) => EndOfSent(c, a, x, p);
    case Waiting =>
      if Inspected(c, a) && |p.written| < c.responseLimit {
        EndOfFilling(c, a, x, p);
      } else if Drops(c, a, p) || !Buffers(c, a) {
        EndOfUnheld(c, a, x, p);
      } else {
        EndOfHeld(c, a, x, p);
      }
  }

  lemma EndOfStopped(c: Config, a: State, x: Pair, p: Progress)
    requires Inv(c, a, x, p) && ModeOf(c, a, p).Stopping?
    ensures Outcome(c, a, OnEnd(c, x), p)
  {
    hide ProcessResponseBody, WriteResponseBody, BodyOf, WellFormed, Sends, SentMap, Drops;
    if a.tx.interruption.Some? && Buffers(c, a) {
      StoppedWrite(c, a, p.implicit);
    }
  }

  lemma EndOfSent(c: Config, a: State, x: Pair, p: Progress)
    requires Inv(c, a, x, p) && ModeOf(c, a, p).Sending?
    ensures Outcome(c, a, OnEnd(c, x), p)
  {
    hide ProcessResponseBody, WriteResponseBody, BodyOf, WellFormed, Sends, SentMap;
  }

  /** The handler wrote less than the limit: the whole body is judged now. */
  lemma EndOfFilling(c: Config, a: State, x: Pair, p: Progress)
    requires Inv(c, a, x, p) && ModeOf(c, a, p).Waiting? && Inspected(c, a) && |p.written| < c.responseLimit
    ensures Outcome(c, a, OnEnd(c, x), p)
  {
    hide ProcessResponseBody, ResponseBodyResult, WriteResponseBody, BodyOf, WellFormed, Sends, Release, Answer;
    assert x.s == a.(response := p.written);
    ResponseBodyOnce(c, x.s);
    var it := Whole(c, a, p).tx.interruption;
    if it.Some? {
      EndStops(a, x.w, p, it.value);
    } else {
      EndReleases(x.w, p, p.written);
    }
  }

  /** As AnswerStops, also when no header was fixed. */
  lemma EndStops(a: State, w: Writer, p: Progress, it: Interruption)
    requires p.Valid() && a.tx.interruption.None? && w.cause.None? && w.statusCode == p.status && w.log == Early(p)
    ensures var w' := Answer(w, it);
            && WellFormed(w'.log) && w'.cause == Some(it) && |w'.log| == 1 && w'.log[0] == StopHeader(a, p, it)
            && BodyOf(w'.log) == [] && w'.flushes == w.flushes
  {
    AnswerStops(a, w, p.(wroteHeader := true), it);
  }

  /** As ReleaseDelivers, also when no header was fixed. */
  lemma EndReleases(w: Writer, p: Progress, held: Bytes)
    requires p.Valid() && Untold(w, p) && !w.wroteBuffered && w.log == Early(p)
    ensures var w' := Release(w, held);
            && WellFormed(w'.log) && w'.log != [] && BodyOf(w'.log) == held
            && w'.log[0] == Header(p.status, if p.status == 101 then p.offered[0] else p.Current())
            && w' == w.(log := w'.log, wroteBuffered := true)
  {
    ReleaseDelivers(w, p.(wroteHeader := true), held, []);
  }

  /** Nothing is held back: only the header may be missing. */
  lemma EndOfUnheld(c: Config, a: State, x: Pair, p: Progress)
    requires Inv(c, a, x, p) && ModeOf(c, a, p).Waiting? && (Drops(c, a, p) || !Buffers(c, a))
    ensures Outcome(c, a, OnEnd(c, x), p)
  {
    hide ProcessResponseBody, WriteResponseBody, WellFormed, BodyOf, Sends;
    EarlyIsNoBody(p);
    OneHeader(Header(x.w.statusCode, x.w.headers));
    WellFormedHeader(Header(x.w.statusCode, x.w.headers));
    if Drops(c, a, p) {
      NothingBeyond(c, p);
    }
  }

  lemma WellFormedHeader(h: Event)
    requires h.Header?
    ensures WellFormed([h])
  {
  }

  /** A body held back at its limit, or an empty one with the engine off, goes out now. */
  lemma EndOfHeld(c: Config, a: State, x: Pair, p: Progress)
    requires Inv(c, a, x, p) && ModeOf(c, a, p).Waiting? && Buffers(c, a) && !Drops(c, a, p)
    requires a.tx.engine == Off || |p.written| >= c.responseLimit
    ensures Outcome(c, a, OnEnd(c, x), p)
  {
    hide ProcessResponseBody, ResponseBodyResult, WriteResponseBody, WellFormed, BodyOf, Sends, Release, Answer;
    ResponseBodyOnce(c, x.s);
    if a.tx.engine != Off {
      FilledKeeps(c, a, p);
      LastEndsAtLimit(c, p);
      assert p.written[..c.responseLimit] == p.written;
    }
    EndReleases(x.w, p, p.written);
  }

  /**
   The exact fate of every response: for every configuration, every handler and wherever the limit
   falls in its writes.
   */
  lemma ResponseDelivered(c: Config, k: Connector, s: State, headers: Headers, calls: seq<HandlerCall>)
    requires c.Valid() && InLimits(c, s) && s.tx.interruption.None? && s.response == []
    ensures var p := Handled(headers, calls);
            Outcome(c, AtHeader(c, k, s, p), Respond(c, k, s, headers, calls), p)
  {
    hide Inv, Outcome, OnEnd;
    var x := Pair(s, NewWriter(headers));
    FreshFollows(c, k, s, headers);
    StepsKeep(c, k, x, calls);
    EndDelivers(c, AtHeader(c, k, s, Handled(headers, calls)), Steps(c, k, x, calls), Handled(headers, calls));
  }

  /**
   Conservation: an uninterrupted response delivers exactly the bytes the handler wrote, unless bytes
   held back at the limit are dropped, and then exactly the bytes behind the limit.
   */
  lemma Conserved(c: Config, k: Connector, s: State, headers: Headers, calls: seq<HandlerCall>)
    requires c.Valid() && InLimits(c, s) && s.tx.interruption.None? && s.response == []
    requires Respond(c, k, s, headers, calls).s.tx.interruption.None?
    ensures var x, p := Respond(c, k, s, headers, calls), Handled(headers, calls);
            var a := AtHeader(c, k, s, p);
            && (BodyOf(x.w.log) == p.written <==> !Drops(c, a, p))
            && (Drops(c, a, p) ==> BodyOf(x.w.log) == p.written[c.responseLimit..])
  {
    hide AtHeader, Handled, Respond, BodyOf, WellFormed, SentMap, ProcessResponseBody;
    ResponseDelivered(c, k, s, headers, calls);
  }

  /** Atomicity: an interrupted response whose body is held back delivers no byte of it. */
  lemma Atomic(c: Config, k: Connector, s: State, headers: Headers, calls: seq<HandlerCall>)
    requires c.Valid() && InLimits(c, s) && s.tx.interruption.None? && s.response == []
    requires Respond(c, k, s, headers, calls).s.tx.interruption.Some?
    requires Buffers(c, AtHeader(c, k, s, Handled(headers, calls)))
    ensures BodyOf(Respond(c, k, s, headers, calls).w.log) == []
  {
    hide AtHeader, Handled, Respond, BodyOf, WellFormed, SentMap, ProcessResponseBody;
    ResponseDelivered(c, k, s, headers, calls);
  }

  /**
   The guard of the branch that sends bytes after an interruption: the header is fixed by writing a
   non-empty chunk, is interrupted, and its body is not held back.
   */
  predicate Leaks(c: Config, a: State, p: Progress) {
    p.implicit != [] && a.tx.interruption.Some? && !Buffers(c, a)
  }

  /** An interrupted response sends body bytes downstream in exactly these cases, and then that chunk. */
  lemma InterruptedLeak(c: Config, k: Connector, s: State, headers: Headers, calls: seq<HandlerCall>)
    requires c.Valid() && InLimits(c, s) && s.tx.interruption.None? && s.response == []
    ensures var x, p := Respond(c, k, s, headers, calls), Handled(headers, calls);
            var a := AtHeader(c, k, s, p);
            && (x.s.tx.interruption.Some? && BodyOf(x.w.log) != [] <==> Leaks(c, a, p))
            && (Leaks(c, a, p) ==> BodyOf(x.w.log) == p.implicit)
  {
    hide AtHeader, Handled, Respond, BodyOf, WellFormed, SentMap, ProcessResponseBody;
    ResponseDelivered(c, k, s, headers, calls);
  }

  /** The interruption that was told differs from the transaction's in exactly one case. */
  lemma CauseReplaced(c: Config, k: Connector, s: State, headers: Headers, calls: seq<HandlerCall>)
    requires c.Valid() && InLimits(c, s) && s.tx.interruption.None? && s.response == []
    ensures var x, p := Respond(c, k, s, headers, calls), Handled(headers, calls);
            var a := AtHeader(c, k, s, p);
            && (x.w.cause != x.s.tx.interruption <==>
                Replaced(c, a, p) && a.tx.interruption != Some(LimitInterruption(500)))
            && (Replaced(c, a, p) ==>
                  x.w.cause == a.tx.interruption && x.s.tx.interruption == Some(LimitInterruption(500)))
  {
    hide AtHeader, Handled, Respond, BodyOf, WellFormed, SentMap, ProcessResponseBody;
    ResponseDelivered(c, k, s, headers, calls);
  }

  // ---------------------------------------------------------------- when nothing is dropped

  /** A condition on the configuration alone: once the headers are in, nothing takes back the decision to inspect the body. */
  ghost predicate StableProcessing(c: Config) {
    && (forall r, v: Vars | r in c.rules && (r.phase == 4 || r.phase == 0) && c.processable(v) ::
          c.processable(r.effect(v).vars))
    && (forall v: Vars, b: Bytes | c.processable(v) :: c.processable(c.processResponse(v, b)))
    && (forall v: Vars | c.processable(v) :: c.processable(v.(values := v.values[OUTBOUND := ["1"]])))
  }

  lemma {:induction false} PhaseKeepsInspecting(c: Config, i: nat, tx: Tx)
    requires StableProcessing(c) && c.processable(tx.vars)
    ensures c.processable(EvalFrom(c.rules, 4, i, tx).vars)
    decreases |c.rules| - i
  {
    hide Removed, RunActions, IsDisruptive;
    if i < |c.rules| && tx.interruption.None? {
      var r := c.rules[i];
      if !Eligible(tx.vars, r, 4) {
        PhaseKeepsInspecting(c, i + 1, tx);
      } else if tx.skipAfter != "" {
        PhaseKeepsInspecting(c, i + 1, if r.mark == tx.skipAfter then tx.(skipAfter := "") else tx);
      } else if tx.skip > 0 {
        PhaseKeepsInspecting(c, i + 1, tx.(skip := tx.skip - 1));
      } else if !AllowStops(tx.allow, 4) {
        var e, logged := r.effect(tx.vars), Logged(4, i, tx);
        ActionsKeep(logged.(vars := e.vars, engine := if e.engine.Some? then e.engine.value else tx.engine), r, |r.actions|);
        PhaseKeepsInspecting(c, i + 1, EvaluateAt(c.rules, 4, i, tx));
      }
    }
  }

  /** Under it no response of any handler is cut short. */
  lemma StableNeverDrops(c: Config, a: State, p: Progress)
    requires StableProcessing(c)
    ensures !Drops(c, a, p)
  {
    hide EvalFrom;
    if CutAndPassed(c, a, p) {
      var full := MarkError(a.(response := p.written[..c.responseLimit]), OUTBOUND);
      var vars := c.processResponse(full.tx.vars, full.response);
      PhaseKeepsInspecting(c, 0, full.tx.(vars := vars).(lastPhase := 4));
    }
  }

  // ---------------------------------------------------------------- one input for each exception

  /** A rule that denies every response in its header phase, on bodies that are not inspected. */
  const DENY_ALL := Rule(1, 3, "", 0, (v: Vars) => Effect(v, true, None), [Deny])

  const UNINSPECTED := Config(
    [DENY_ALL], false, 1, Reject, (v: Vars, _: Bytes) => v, false, 1, Reject, (v: Vars, _: Bytes) => v, (_: Vars) => true)

  const PLAIN := Connector((_: Headers) => (v: Vars) => v, (_: int) => (v: Vars) => v)

  /** Evaluating the one rule denies with 403. */
  lemma DenyAllDenies(tx: Tx)
    requires tx.engine == On && tx.interruption.None? && tx.skip == 0 && tx.skipAfter == "" && tx.allow == AllowUnset
    requires tx.vars == Vars(map[], {}, [])
    ensures Eval([DENY_ALL], 3, tx).interruption == Some(Interruption(1, "deny", 403, ""))
    ensures Eval([DENY_ALL], 3, tx).vars == tx.vars && Eval([DENY_ALL], 3, tx).engine == On
  {
    var start := tx.(lastPhase := 3);
    assert Eligible(start.vars, DENY_ALL, 3) && !AllowStops(start.allow, 3);
    var logged := Logged(3, 0, start);
    assert DENY_ALL.effect(logged.vars) == Effect(logged.vars, true, None);
    assert RunActions(logged, DENY_ALL, 0) == logged;
    assert RunActions(logged, DENY_ALL, 1) == RunAction(logged, DENY_ALL, Deny);
    assert EvalFrom([DENY_ALL], 3, 0, start) == EvaluateAt([DENY_ALL], 3, 0, start);
  }

  /** One such case: the byte 1 follows the header that denies it. */
  lemma LeakWitness(headers: Headers)
    ensures InLimits(UNINSPECTED, NewTransaction(On, Vars(map[], {}, [])))
    ensures Respond(UNINSPECTED, PLAIN, NewTransaction(On, Vars(map[], {}, [])), headers, [Write([1])]).w.log ==
            [Header(403, CLEAN), Body([1])]
  {
    hide Eval;
    var s := NewTransaction(On, Vars(map[], {}, []));
    var x := Pair(s, NewWriter(headers));
    DenyAllDenies(s.tx);
    var y := OnHeader(UNINSPECTED, PLAIN, x, 200);
    assert y.w.log == [Header(403, CLEAN)] && y.s.tx.interruption.Some?;
    var calls := [Write([1])];
    assert calls[..0] == [] && Steps(UNINSPECTED, PLAIN, x, calls[..0]) == x;
    assert Steps(UNINSPECTED, PLAIN, x, calls) == Step(UNINSPECTED, PLAIN, x, calls[0]) == OnBody(UNINSPECTED, y, [1]);
  }

  /** A rule of the body phase that takes the decision to inspect the body back. */
  const STOP_INSPECTING := Rule(1, 4, "", 0, (v: Vars) => Effect(Vars(map["OFF" := []], {}, []), true, None), [])

  const UNSTABLE := Config(
    [STOP_INSPECTING], false, 1, Reject, (v: Vars, _: Bytes) => v,
    true, 1, ProcessPartial, (v: Vars, _: Bytes) => v, (v: Vars) => "OFF" !in v.values)

  lemma StopInspectingStops(tx: Tx)
    requires tx.interruption.None? && tx.skip == 0 && tx.skipAfter == "" && tx.allow == AllowUnset
    requires tx.vars.removedIDs == {} && tx.vars.removedRanges == []
    ensures Eval([STOP_INSPECTING], 3, tx) == tx.(lastPhase := 3)
    ensures Eval([STOP_INSPECTING], 4, tx).interruption.None? && "OFF" in Eval([STOP_INSPECTING], 4, tx).vars.values
  {
    assert EvalFrom([STOP_INSPECTING], 3, 1, tx.(lastPhase := 3)) == tx.(lastPhase := 3);
    var start := tx.(lastPhase := 4);
    assert Eligible(start.vars, STOP_INSPECTING, 4) && !AllowStops(start.allow, 4);
    var logged := Logged(4, 0, start);
    assert RunActions(logged, STOP_INSPECTING, 0) == logged;
    assert EvalFrom([STOP_INSPECTING], 4, 0, start) == EvaluateAt([STOP_INSPECTING], 4, 0, start);
  }

  /** One case where bytes are dropped: the byte 1, held back at the limit, is never delivered. */
  lemma DropWitness(headers: Headers)
    ensures InLimits(UNSTABLE, NewTransaction(On, Vars(map[], {}, [])))
    ensures Respond(UNSTABLE, PLAIN, NewTransaction(On, Vars(map[], {}, [])), headers, [Write([1]), Write([2])]).w.log ==
            [Header(200, headers), Body([2])]
  {
    hide Eval;
    var s := NewTransaction(On, Vars(map[], {}, []));
    var x := Pair(s, NewWriter(headers));
    StopInspectingStops(s.tx);
    var y := OnHeader(UNSTABLE, PLAIN, x, 200);
    assert y.s.tx == s.tx.(lastPhase := 3) && y.w.log == [];
    var full := MarkError(y.s.(response := [] + [1][..1]), OUTBOUND);
    StopInspectingStops(full.tx);
    var z := OnBody(UNSTABLE, y, [1]);
    assert z.w == y.w && z.s.tx.interruption.None? && !Buffers(UNSTABLE, z.s);
    var calls := [Write([1]), Write([2])];
    assert calls[..1][..0] == [] && Steps(UNSTABLE, PLAIN, x, calls[..1][..0]) == x && calls[..1][0] == Write([1]);
    assert Steps(UNSTABLE, PLAIN, x, calls[..1]) == z;
    assert Steps(UNSTABLE, PLAIN, x, calls) == Step(UNSTABLE, PLAIN, z, calls[1]) == OnBody(UNSTABLE, z, [2]);
  }

  /** The same rule as in the first case, on bodies that are inspected and refused at one byte. */
  const INSPECTED := UNINSPECTED.(responseAccess := true)

  /** One case where the told interruption is replaced: 403 went out, and the transaction ends with the body limit's 500. */
  lemma ReplacedWitness(headers: Headers)
    ensures InLimits(INSPECTED, NewTransaction(On, Vars(map[], {}, [])))
    ensures var x := Respond(INSPECTED, PLAIN, NewTransaction(On, Vars(map[], {}, [])), headers, [Write([1])]);
            && x.w.log == [Header(403, CLEAN)]
            && x.w.cause == Some(Interruption(1, "deny", 403, ""))
            && x.s.tx.interruption == Some(LimitInterruption(500))
  {
    hide Eval;
    var s := NewTransaction(On, Vars(map[], {}, []));
    var x := Pair(s, NewWriter(headers));
    DenyAllDenies(s.tx);
    var y := OnHeader(INSPECTED, PLAIN, x, 200);
    assert y.w.log == [Header(403, CLEAN)] && y.s.tx.interruption == Some(Interruption(1, "deny", 403, ""));
    assert Buffers(INSPECTED, y.s) && !y.w.wroteBuffered && |y.s.response| == 0;
    assert WriteResponseBody(INSPECTED, y.s, [1]) == RejectBody(MarkError(y.s, OUTBOUND), 500);
    var z := OnBody(INSPECTED, y, [1]);
    assert z.w.log == y.w.log && z.w.cause == y.w.cause;
    var calls := [Write([1])];
    assert calls[..0] == [] && Steps(INSPECTED, PLAIN, x, calls[..0]) == x;
    assert Steps(INSPECTED, PLAIN, x, calls) == Step(INSPECTED, PLAIN, x, calls[0]) == OnBody(INSPECTED, y, [1]);
  }

  // ---------------------------------------------------------------- the interceptor itself

  class RwInterceptor {
    const tx: Transaction
    const connector: Connector
    var headers: Headers
    var log: seq<Event>
    var statusCode: int
    var isWriteHeaderFlush: bool
    var wroteHeader: bool
    var wroteBuffered: bool
    var allowFlushing: bool
    var flushes: nat
    ghost var cause: Option<Interruption>

    ghost function Fields(): Writer
      reads this
    {
      Writer(headers, log, statusCode, wroteHeader, wroteBuffered, allowFlushing, flushes, cause)
    }

    ghost function Abs(): Pair
      reads this, tx, tx.requestBody, tx.responseBody
    {
      Pair(tx.Abs(), Fields())
    }

    ghost predicate Valid()
      reads this, tx, tx.requestBody, tx.responseBody, tx.requestBody.readers, tx.responseBody.readers
    {
      tx.Valid() && isWriteHeaderFlush == (log != [])
    }

    constructor (tx: Transaction, connector: Connector, headers: Headers)
      requires tx.Valid()
      ensures Valid() && this.tx == tx && this.connector == connector
      ensures Abs() == Pair(tx.Abs(), NewWriter(headers))
    {
      this.tx, this.connector, this.headers := tx, connector, headers;
      log, statusCode, flushes, cause := [], 200, 0, None;
      isWriteHeaderFlush, wroteHeader, wroteBuffered, allowFlushing := false, false, false, false;
    }

    method FlushWriteHeader()
      requires isWriteHeaderFlush == (log != [])
      modifies `log, `isWriteHeaderFlush
      ensures isWriteHeaderFlush && log != []
      ensures Fields() == FlushHeader(old(Fields()))
    {
      if !isWriteHeaderFlush {
        log := log + [Header(statusCode, headers)];
        isWriteHeaderFlush := true;
      }
    }

    /** cleanHeaders, Content-Length, overrideWriteHeader and flushWriteHeader after an interruption. */
    method Stop(it: Interruption)
      requires isWriteHeaderFlush == (log != [])
      modifies this
      ensures isWriteHeaderFlush && log != []
      ensures Fields() == Answer(old(Fields()), it)
    {
      headers := map[];
      headers := headers["Content-Length" := ["0"]];
      statusCode := StatusFrom(it, statusCode);
      FlushWriteHeader();
      cause := if cause.Some? then cause else Some(it);
    }

    /** IsResponseBodyAccessible and IsResponseBodyProcessable. */
    method Buffering() returns (buffers: bool)
      ensures buffers == Buffers(tx.config, tx.Abs())
    {
      buffers := tx.config.responseAccess && tx.config.processable(tx.vars);
    }

    method ProcessHeaders(code: int) returns (it: Option<Interruption>)
      modifies tx
      ensures tx.Abs() == Receive(tx.config, connector, old(tx.Abs()), headers, code)
      ensures it == (if old(tx.Abs()).tx.engine == Off then None else tx.Abs().tx.interruption)
    {
      hide ProcessResponseHeaders;
      tx.SetVars(connector.addHeaders(headers));
      it := tx.ProcessResponseHeaders(connector.setStatus(code));
    }

    method WriteHeader(code: int)
      requires Valid()
      modifies this, tx
      ensures Valid() && Abs() == OnHeader(tx.config, connector, old(Abs()), code)
    {
      hide Receive, Answer, FlushHeader, Buffers, Transaction.Valid, Transaction.Abs;
      if wroteHeader {
        return;
      }
      wroteHeader := true;
      statusCode := code;
      var it := ProcessHeaders(code);
      if it.Some? {
        Stop(it.value);
        return;
      }
      if code == 101 {
        FlushWriteHeader();
      }
      var buffers := Buffering();
      if !buffers {
        allowFlushing := true;
      }
    }

    /** Always reports the whole chunk as written. */
    method Write(b: Bytes) returns (n: nat)
      requires Valid()
      modifies this, tx, tx.responseBody
      ensures Valid() && InLimits(tx.config, old(Abs()).s) && Abs() == OnWrite(tx.config, connector, old(Abs()), b)
      ensures n == |b|
    {
      hide Receive, Answer, FlushHeader, OnBody, Transaction.Valid, InLimits;
      tx.ValidInLimits();
      if tx.interruption.Some? {
        return |b|;
      }
      if !wroteHeader {
        WriteHeader(200);
      }
      n := WriteBody(b);
    }

    /** The second half of Write: hold the chunk back, or send it on. */
    method WriteBody(b: Bytes) returns (n: nat)
      requires Valid()
      modifies this, tx, tx.responseBody
      ensures Valid() && InLimits(tx.config, old(Abs()).s) && Abs() == OnBody(tx.config, old(Abs()), b)
      ensures n == |b|
    {
      hide TransactionModel.WriteResponseBody, Answer, FlushHeader, Release, Transaction.Valid, InLimits;
      tx.ValidInLimits();
      var buffers := Buffering();
      if buffers && !wroteBuffered {
        var it;
        it, n := tx.WriteResponseBody(b);
        if it.Some? {
          Stop(it.value);
          return |b|;
        }
        if n == |b| {
          return;
        }
        WriteBufferedResponseBodyToDownstream();
        log := log + [Body(b[n..])];
        return |b|;
      }
      FlushWriteHeader();
      log := log + [Body(b)];
      return |b|;
    }

    method Flush()
      requires Valid()
      modifies this, tx
      ensures Valid() && Abs() == OnFlush(tx.config, connector, old(Abs()))
    {
      hide Receive, Answer, FlushHeader, Transaction.Valid;
      if !wroteHeader {
        WriteHeader(200);
      }
      if allowFlushing {
        if isWriteHeaderFlush {
          flushes := flushes + 1;
        }
      }
    }

    method WriteBufferedResponseBodyToDownstream()
      requires Valid()
      modifies this, tx.responseBody
      ensures Valid() && (!old(wroteBuffered) ==> log != [])
      ensures Abs() == old(Abs()).(w := Release(old(Abs()).w, old(Abs()).s.response))
    {
      if wroteBuffered {
        return;
      }
      hide Transaction.Valid, Transaction.Abs;
      FlushWriteHeader();
      var data := tx.ReadResponseBody();
      log := log + [Body(data)];
      wroteBuffered := true;
    }

    /** The response processor that runs when the handler has returned. */
    method ProcessResponse()
      requires Valid()
      modifies this, tx, tx.responseBody
      ensures Valid() && Abs() == OnEnd(tx.config, old(Abs()))
    {
      hide ProcessResponseBody, Answer, FlushHeader, Release, Transaction.Valid;
      if tx.interruption.Some? {
        return;
      }
      var buffers := Buffering();
      if buffers && !wroteBuffered {
        var it := tx.ProcessResponseBody();
        if it.Some? {
          Stop(it.value);
          return;
        }
        WriteBufferedResponseBodyToDownstream();
      } else {
        allowFlushing := true;
        FlushWriteHeader();
      }
    }
  }

  /** The handler wrapper of http/middleware.go: any handler, then the response processor. */
  method Serve(tx: Transaction, connector: Connector, headers: Headers, calls: seq<HandlerCall>) returns (i: RwInterceptor)
    requires tx.Valid() && tx.interruption.None? && tx.responseBody.Contents() == []
    modifies tx, tx.responseBody
    ensures i.tx == tx && i.Valid()
    ensures var p := Handled(headers, calls);
            Outcome(tx.config, AtHeader(tx.config, connector, old(tx.Abs()), p), i.Abs(), p)
  {
    hide Outcome, AtHeader, Handled, Transaction.Valid, OnHeader, OnWrite, OnFlush, OnEnd;
    i := new RwInterceptor(tx, connector, headers);
    tx.ValidInLimits();
    ghost var start := i.Abs();
    for n := 0 to |calls|
      invariant fresh(i) && i.tx == tx && i.connector == connector && i.Valid()
      invariant InLimits(tx.config, start.s) && i.Abs() == Steps(tx.config, connector, start, calls[..n])
    {
      assert calls[..n + 1][..n] == calls[..n];
      match calls[n]
      case SetHeaders(h) => i.headers := h;
      case WriteHeader(status) => i.WriteHeader(status);
      case Write(data) => var _ := i.Write(data);
      case Flush => i.Flush();
    }
    assert calls[..|calls|] == calls;
    ResponseDelivered(tx.config, connector, start.s, headers, calls);
    i.ProcessResponse();
  }
}
