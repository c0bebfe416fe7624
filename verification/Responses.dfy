/**
 What a client gets, spelled out from the handler's calls and the fields of an interruption
 (http/interceptor.go): the status line, the bytes, the flushes, and what the rules were shown.
 */
module Responses {
  import opened Options
  import opened ByteStrings
  import opened RuleFlow
  import opened RuleEffects
  import opened TransactionModel
  import opened PhaseRuns
  import opened Interceptor

  // ---------------------------------------------------------------- the handler's calls

  /** All bytes the handler writes, in order. */
  ghost function BytesOf(calls: seq<HandlerCall>): Bytes {
    if calls == [] then [] else (if calls[0].Write? then calls[0].data else []) + BytesOf(calls[1..])
  }

  lemma {:induction false} BytesOfAppend(calls: seq<HandlerCall>, call: HandlerCall)
    ensures BytesOf(calls + [call]) == BytesOf(calls) + if call.Write? then call.data else []
    decreases |calls|
  {
    if calls == [] {
      assert (calls + [call])[1..] == [];
      assert BytesOf([call][1..]) == [];
    } else {
      BytesOfAppend(calls[1..], call);
      assert (calls + [call])[0] == calls[0] && (calls + [call])[1..] == calls[1..] + [call];
    }
  }

  /** The header map in effect after the calls. */
  ghost function MapAfter(headers: Headers, calls: seq<HandlerCall>): Headers
    decreases |calls|
  {
    if calls == [] then headers
    else MapAfter(if calls[0].SetHeaders? then calls[0].headers else headers, calls[1..])
  }

  lemma {:induction false} MapAfterAppend(headers: Headers, calls: seq<HandlerCall>, call: HandlerCall)
    ensures MapAfter(headers, calls + [call]) == if call.SetHeaders? then call.headers else MapAfter(headers, calls)
    decreases |calls|
  {
    if calls == [] {
      assert (calls + [call])[1..] == [];
    } else {
      MapAfterAppend(if calls[0].SetHeaders? then calls[0].headers else headers, calls[1..], call);
      assert (calls + [call])[0] == calls[0] && (calls + [call])[1..] == calls[1..] + [call];
    }
  }

  /** The first call that fixes the header. */
  ghost predicate FixedBy(calls: seq<HandlerCall>, f: nat) {
    f < |calls| && !calls[f].SetHeaders? && forall j | 0 <= j < f :: calls[j].SetHeaders?
  }

  /** The number of writes. */
  ghost function WritesIn(calls: seq<HandlerCall>): set<int> {
    set i | 0 <= i < |calls| && calls[i].Write?
  }

  lemma HandledStep(headers: Headers, calls: seq<HandlerCall>, call: HandlerCall)
    ensures Handled(headers, calls + [call]) == Next(Handled(headers, calls), call)
  {
    assert (calls + [call])[..|calls|] == calls;
  }

  /** The progress of a response, told from the calls: its bytes, its current map, and whether its header is fixed. */
  lemma {:induction false} HandledMeans(headers: Headers, calls: seq<HandlerCall>)
    ensures var p := Handled(headers, calls);
            && p.written == BytesOf(calls) && p.Current() == MapAfter(headers, calls)
            && (p.wroteHeader <==> exists i | 0 <= i < |calls| :: !calls[i].SetHeaders?)
            && (!p.wroteHeader ==> p.status == 200 && |p.offered| == 1)
    decreases |calls|
  {
    hide BytesOf, MapAfter;
    if calls == [] {
      NoCalls(headers);
    } else {
      var n := |calls| - 1;
      var init, call := calls[..n], calls[n];
      assert calls == init + [call];
      HandledMeans(headers, init);
      HandledStep(headers, init, call);
      BytesOfAppend(init, call);
      MapAfterAppend(headers, init, call);
      assert forall i | 0 <= i < n :: init[i] == calls[i];
    }
  }

  lemma NoCalls(headers: Headers)
    ensures BytesOf([]) == [] && MapAfter(headers, []) == headers
  {
  }

  /** And there are as many remembered writes as calls to Write. */
  lemma {:induction false} WritesCounted(headers: Headers, calls: seq<HandlerCall>)
    ensures |Handled(headers, calls).writes| == |WritesIn(calls)|
    decreases |calls|
  {
    if calls == [] {
      assert WritesIn(calls) == {};
    } else {
      var n := |calls| - 1;
      WritesCounted(headers, calls[..n]);
      assert WritesIn(calls) == if calls[n].Write? then WritesIn(calls[..n]) + {n} else WritesIn(calls[..n]);
    }
  }

  /** Status and map are those of the call that fixed the header; a write that did so is remembered. */
  lemma {:induction false} FixedMeans(headers: Headers, calls: seq<HandlerCall>, f: nat)
    requires FixedBy(calls, f)
    ensures var p := Handled(headers, calls);
            && p.wroteHeader
            && p.status == (if calls[f].WriteHeader? then calls[f].status else 200)
            && p.offered[0] == MapAfter(headers, calls[..f])
            && p.implicit == (if calls[f].Write? then calls[f].data else [])
    decreases |calls|
  {
    var n := |calls| - 1;
    var init, call := calls[..n], calls[n];
    assert calls == init + [call];
    HandledStep(headers, init, call);
    HandledMeans(headers, init);
    if f < n {
      assert init[f] == calls[f] && init[..f] == calls[..f];
      assert forall j | 0 <= j < f :: init[j] == calls[j];
      FixedMeans(headers, init, f);
    } else {
      assert forall j | 0 <= j < n :: init[j].SetHeaders?;
      NothingYet(headers, init);
    }
  }

  lemma {:induction false} NothingYet(headers: Headers, calls: seq<HandlerCall>)
    requires forall j | 0 <= j < |calls| :: calls[j].SetHeaders?
    ensures var p := Handled(headers, calls);
            !p.wroteHeader && p.status == 200 && p.implicit == [] && p.offered == [MapAfter(headers, calls)]
    decreases |calls|
  {
    if calls != [] {
      var n := |calls| - 1;
      assert calls == calls[..n] + [calls[n]];
      NothingYet(headers, calls[..n]);
      HandledStep(headers, calls[..n], calls[n]);
      MapAfterAppend(headers, calls[..n], calls[n]);
    }
  }

  /** Each write is remembered with the length before and after it and the map in effect. */
  lemma {:induction false} WriteMeans(headers: Headers, calls: seq<HandlerCall>, i: nat)
    requires i < |calls| && calls[i].Write?
    ensures var p, before := Handled(headers, calls), BytesOf(calls[..i]);
            && |WritesIn(calls[..i])| < |p.writes|
            && p.writes[|WritesIn(calls[..i])|] == Chunk(|before|, |before| + |calls[i].data|, MapAfter(headers, calls[..i]))
    decreases |calls|
  {
    var n := |calls| - 1;
    assert calls == calls[..n] + [calls[n]];
    HandledStep(headers, calls[..n], calls[n]);
    if i < n {
      assert calls[..n][..i] == calls[..i];
      WriteMeans(headers, calls[..n], i);
    } else {
      WritesCounted(headers, calls[..n]);
      HandledMeans(headers, calls[..n]);
    }
  }

  // ---------------------------------------------------------------- the header of an interruption

  /**
   The header of an interrupted response, unless a 101 was out before: a deny tells its own status, or
   403 if it has none, any other interruption the handler's status; and nothing of the handler's map.
   */
  lemma InterruptedHeader(c: Config, k: Connector, s: State, headers: Headers, calls: seq<HandlerCall>)
    requires c.Valid() && InLimits(c, s) && s.tx.interruption.None? && s.response == []
    ensures var x, p := Respond(c, k, s, headers, calls), Handled(headers, calls);
            var a := AtHeader(c, k, s, p);
            x.w.cause.Some? && (p.status != 101 || a.tx.interruption.Some?) ==>
              var it := x.w.cause.value;
              && x.w.log != []
              && (it.action == "deny" && it.status != 0 ==> x.w.log[0] == Header(it.status, map["Content-Length" := ["0"]]))
              && (it.action == "deny" && it.status == 0 ==> x.w.log[0] == Header(403, map["Content-Length" := ["0"]]))
              && (it.action != "deny" ==> x.w.log[0] == Header(p.status, map["Content-Length" := ["0"]]))
              && (Buffers(c, a) ==> |x.w.log| == 1)
  {
    hide AtHeader, Handled, Respond, BodyOf, WellFormed, SentMap, ProcessResponseBody;
    ResponseDelivered(c, k, s, headers, calls);
  }

  /** An inspected response that reaches its limit under Reject is one header and nothing else. */
  lemma LimitRefused(c: Config, k: Connector, s: State, headers: Headers, calls: seq<HandlerCall>)
    requires c.Valid() && InLimits(c, s) && s.tx.interruption.None? && s.response == []
    requires c.responseAction == Reject && |BytesOf(calls)| >= c.responseLimit && WriteHeader(101) !in calls
    ensures var a := AtHeader(c, k, s, Handled(headers, calls));
            a.tx.interruption.None? && Inspected(c, a) ==>
              Respond(c, k, s, headers, calls).w.log == [Header(500, map["Content-Length" := ["0"]])]
  {
    hide AtHeader, Handled, Respond, BodyOf, WellFormed, SentMap, ProcessResponseBody;
    ResponseDelivered(c, k, s, headers, calls);
    HandledMeans(headers, calls);
    StatusGiven(headers, calls);
    InterruptedHeader(c, k, s, headers, calls);
  }

  lemma StatusGiven(headers: Headers, calls: seq<HandlerCall>)
    ensures Handled(headers, calls).status == 200 || WriteHeader(Handled(headers, calls).status) in calls
  {
    hide Handled;
    HandledMeans(headers, calls);
    if i :| 0 <= i < |calls| && !calls[i].SetHeaders? {
      var f := Earliest(calls, i);
      FixedMeans(headers, calls, f);
    }
  }

  lemma {:induction false} Earliest(calls: seq<HandlerCall>, i: nat) returns (f: nat)
    requires i < |calls| && !calls[i].SetHeaders?
    ensures FixedBy(calls, f)
  {
    if j: nat :| j < i && !calls[j].SetHeaders? {
      f := Earliest(calls, j);
    } else {
      f := i;
    }
  }

  // ---------------------------------------------------------------- what the rules are shown

  /** The header phase: the handler's map and status, added to the variables there were. */
  lemma HeaderPhaseSees(c: Config, k: Connector, s: State, headers: Headers, code: int, i: nat)
    requires InLimits(c, s) && s.tx.engine != Off && s.tx.lastPhase <= 2 && Running(3, s.tx)
    ensures var s', vars := Receive(c, k, s, headers, code), k.setStatus(code)(k.addHeaders(headers)(s.tx.vars));
            && s'.phases == s.phases + [3]
            && (i < |c.rules| && InPlay(vars, c.rules[i], 3) && (forall m | 0 <= m < i :: !InPlay(vars, c.rules[m], 3)) ==>
                  && s.tx.evaluated < s'.tx.evaluated
                  && s'.tx.evaluated[|s.tx.evaluated|] == Evaluation(3, i, false, vars))
  {
    hide InPlay, ProcessResponseHeaders;
    var named := s.(tx := s.tx.(vars := k.addHeaders(headers)(s.tx.vars)));
    var call := ResponseHeaders(k.setStatus(code));
    assert Receive(c, k, s, headers, code) == Do(c, named, call);
    CallEvaluates(c, named, call);
    var vars := StartVars(c, named, call);
    if i < |c.rules| && InPlay(vars, c.rules[i], 3) && (forall m | 0 <= m < i :: !InPlay(vars, c.rules[m], 3)) {
      CallStartsWith(c, named, call, i);
    }
  }

  /** The body phase of an inspected response below its limit: what the processor makes of the whole body. */
  lemma BodyPhaseSees(c: Config, a: State, p: Progress, i: nat)
    requires InLimits(c, a.(response := p.written)) && Inspected(c, a) && a.tx.lastPhase == 3 && Running(4, a.tx)
    ensures var s', vars := Whole(c, a, p), c.processResponse(a.tx.vars, p.written);
            && s'.phases == a.phases + [4]
            && (i < |c.rules| && InPlay(vars, c.rules[i], 4) && (forall m | 0 <= m < i :: !InPlay(vars, c.rules[m], 4)) ==>
                  && a.tx.evaluated < s'.tx.evaluated
                  && s'.tx.evaluated[|a.tx.evaluated|] == Evaluation(4, i, false, vars))
  {
    hide InPlay, ProcessResponseBody;
    var full := a.(response := p.written);
    assert Whole(c, a, p) == Do(c, full, ResponseBody);
    CallEvaluates(c, full, ResponseBody);
    var vars := StartVars(c, full, ResponseBody);
    if i < |c.rules| && InPlay(vars, c.rules[i], 4) && (forall m | 0 <= m < i :: !InPlay(vars, c.rules[m], 4)) {
      CallStartsWith(c, full, ResponseBody, i);
    }
  }

  // ---------------------------------------------------------------- flushes

  /** The flushes that come when the header is out: after a write, or after a 101. */
  ghost function FlushesIn(headers: Headers, calls: seq<HandlerCall>): nat {
    if calls == [] then 0
    else
      var n := |calls| - 1;
      var p := Handled(headers, calls[..n]);
      FlushesIn(headers, calls[..n]) +
      if calls[n].Flush? && p.wroteHeader && (p.writes != [] || p.status == 101) then 1 else 0
  }

  /** Only a flush is passed on as one. */
  lemma StepFlushes(c: Config, k: Connector, x: Pair, call: HandlerCall)
    requires InLimits(c, x.s)
    ensures !call.Flush? ==> Step(c, k, x, call).w.flushes == x.w.flushes
    ensures call.Flush? ==>
              var y := OnHeader(c, k, x, 200);
              Step(c, k, x, call).w.flushes == x.w.flushes + if y.w.allowFlushing && y.w.log != [] then 1 else 0
  {
    hide Receive, WriteResponseBody;
  }

  /** A response whose body is not held back, and whose headers were not interrupted, passes flushes on. */
  ghost predicate PassesFlushes(c: Config, a: State) {
    a.tx.interruption.None? && !Buffers(c, a)
  }

  lemma HeaderIsOut(c: Config, a: State, y: Pair, q: Progress)
    requires Inv(c, a, y, q) && q.wroteHeader && PassesFlushes(c, a)
    ensures y.w.log != [] <==> q.writes != [] || q.status == 101
  {
    hide ProcessResponseBody, Drops, SentMap, WellFormed, BodyOf;
  }

  lemma {:induction false} FlushesCount(c: Config, k: Connector, s: State, headers: Headers, calls: seq<HandlerCall>)
    requires c.Valid() && InLimits(c, s) && s.tx.interruption.None? && s.response == []
    ensures var x, p := Steps(c, k, Pair(s, NewWriter(headers)), calls), Handled(headers, calls);
            && (!p.wroteHeader ==> x.w.flushes == FlushesIn(headers, calls) == 0)
            && (p.wroteHeader && PassesFlushes(c, AtHeader(c, k, s, p)) ==> x.w.flushes == FlushesIn(headers, calls))
            && (p.wroteHeader && !PassesFlushes(c, AtHeader(c, k, s, p)) ==> x.w.flushes == 0)
    decreases |calls|
  {
    hide Inv, Receive, Step, Next, OnHeader;
    if calls != [] {
      var n := |calls| - 1;
      var x0, init, call := Pair(s, NewWriter(headers)), calls[..n], calls[n];
      FlushesCount(c, k, s, headers, init);
      FreshFollows(c, k, s, headers);
      StepsKeep(c, k, x0, init);
      FlushStep(c, k, s, Steps(c, k, x0, init), Handled(headers, init), call);
    }
  }

  /** What one call does to the flushes, given how far the response has come. */
  lemma FlushStep(c: Config, k: Connector, s: State, x: Pair, p: Progress, call: HandlerCall)
    requires InLimits(c, x.s) && Follows(c, k, s, x, p)
    ensures var q := Next(p, call);
            var passes := PassesFlushes(c, AtHeader(c, k, s, p)) && call.Flush? &&
                          p.wroteHeader && (p.writes != [] || p.status == 101);
            && Step(c, k, x, call).w.flushes == x.w.flushes + (if passes then 1 else 0)
            && (p.wroteHeader ==> q.wroteHeader && AtHeader(c, k, s, q) == AtHeader(c, k, s, p))
            && (!p.wroteHeader ==> x.w.flushes == 0)
  {
    hide Receive, StateIs, WriterIs, Step;
    StepFlushes(c, k, x, call);
    HeaderKeeps(c, k, s, x, p, 200);
    var y, q := OnHeader(c, k, x, 200), Next(p, WriteHeader(200));
    var a := AtHeader(c, k, s, q);
    if call.Flush? {
      if PassesFlushes(c, a) {
        HeaderIsOut(c, a, y, q);
      }
      if !p.wroteHeader {
        NoWritesYet(p);
      }
    }
  }

  lemma NoWritesYet(p: Progress)
    requires p.Valid() && !p.wroteHeader
    ensures p.writes == []
  {
  }

  /**
   The flushes that reach the client: none while the body is held back or the headers were interrupted;
   otherwise exactly those that come when the header is out.
   */
  lemma FlushesPassedOn(c: Config, k: Connector, s: State, headers: Headers, calls: seq<HandlerCall>)
    requires c.Valid() && InLimits(c, s) && s.tx.interruption.None? && s.response == []
    ensures var x, p := Respond(c, k, s, headers, calls), Handled(headers, calls);
            x.w.flushes == if PassesFlushes(c, AtHeader(c, k, s, p)) then FlushesIn(headers, calls) else 0
  {
    hide AtHeader, Handled, Steps, ProcessResponseBody;
    FlushesCount(c, k, s, headers, calls);
    EndFlushesNothing(c, Steps(c, k, Pair(s, NewWriter(headers)), calls));
  }

  lemma EndFlushesNothing(c: Config, x: Pair)
    ensures OnEnd(c, x).w.flushes == x.w.flushes
  {
    hide ProcessResponseBody;
  }

  /** In particular, a flush after a write of a body that is not held back and not interrupted. */
  lemma FlushAfterWrite(headers: Headers, calls: seq<HandlerCall>, i: nat)
    requires i < |calls| && calls[i].Write?
    ensures FlushesIn(headers, calls + [Flush]) == FlushesIn(headers, calls) + 1
  {
    var all := calls + [Flush];
    assert all[..|calls|] == calls && all[|calls|] == Flush;
    WriteMeans(headers, calls, i);
    HandledMeans(headers, calls);
  }
}
