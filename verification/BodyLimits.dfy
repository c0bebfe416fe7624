/**
 The body limits of WriteRequestBody, ReadRequestBodyFrom and their response twins
 (internal/corazawaf/transaction.go) do not depend on how a body is cut into chunks.
 */
module BodyLimits {
  import opened Options
  import opened ByteStrings
  import opened RuleFlow
  import opened TransactionModel

  function Concat(chunks: seq<Bytes>): Bytes {
    if chunks == [] then [] else chunks[0] + Concat(chunks[1..])
  }

  /** The longest prefix of `x` that fits `limit`. */
  function Cut(x: Bytes, limit: nat): Bytes {
    if |x| <= limit then x else x[..limit]
  }

  // ---------------------------------------------------------------- request bodies

  function WriteRequestChunks(c: Config, s: State, chunks: seq<Bytes>): (s': State)
    requires InLimits(c, s)
    ensures InLimits(c, s')
    decreases |chunks|
  {
    if chunks == [] then s
    else
      DoInLimits(c, s, WriteRequest(chunks[0]));
      WriteRequestChunks(c, WriteRequestBody(c, s, chunks[0]).state, chunks[1..])
  }

  /** Equal but for the stored request body. */
  predicate SameButRequest(a: State, b: State) {
    a.(request := []) == b.(request := [])
  }

  /** Two writes are one: exactly under ProcessPartial, and up to the stored bytes under Reject. */
  lemma RequestWriteSplits(c: Config, s: State, x: Bytes, y: Bytes)
    requires InLimits(c, s) && |s.request| + |x| + |y| < MAX_INT64
    ensures InLimits(c, WriteRequestBody(c, s, x).state)
    ensures var two, one := WriteRequestBody(c, WriteRequestBody(c, s, x).state, y).state, WriteRequestBody(c, s, x + y).state;
            if c.requestAction == ProcessPartial then two == one else SameButRequest(two, one)
  {
    hide Eval;
    DoInLimits(c, s, WriteRequest(x));
    assert s.request + x + y == s.request + (x + y);
    if |s.request| + |x| < c.requestLimit <= |s.request| + |x| + |y| {
      var n := c.requestLimit - |s.request|;
      assert s.request + x + y[..n - |x|] == s.request + (x + y)[..n];
    } else if |s.request| <= c.requestLimit <= |s.request| + |x| {
      var n := c.requestLimit - |s.request|;
      assert (x + y)[..n] == x[..n];
    }
  }

  /** However a body is split, its chunks do what one write of the whole does. */
  lemma {:induction false} RequestChunking(c: Config, s: State, chunks: seq<Bytes>)
    requires InLimits(c, s) && |s.request| + |Concat(chunks)| < MAX_INT64
    ensures var many, one := WriteRequestChunks(c, s, chunks), WriteRequestBody(c, s, Concat(chunks)).state;
            if c.requestAction == ProcessPartial then many == one else SameButRequest(many, one)
    decreases |chunks|
  {
    if chunks == [] {
      assert s.request + [] == s.request;
    } else {
      var x, y := chunks[0], Concat(chunks[1..]);
      RequestWriteSplits(c, s, x, y);
      RequestWriteLength(c, s, x);
      RequestChunking(c, WriteRequestBody(c, s, x).state, chunks[1..]);
    }
  }

  lemma RequestWriteLength(c: Config, s: State, x: Bytes)
    requires InLimits(c, s)
    ensures |WriteRequestBody(c, s, x).state.request| <= |s.request| + |x|
  {
    hide Eval;
  }

  /** Reading a whole body, sized or not, has the verdict and the effect of writing it. */
  lemma ReadingIsWriting(c: Config, s: State, b: Bytes, sized: bool)
    requires InLimits(c, s) && |s.request| + |b| < MAX_INT64
    ensures var read, write := ReadRequestBodyFrom(c, s, b, sized), WriteRequestBody(c, s, b);
            && read.it == write.it && read.count == write.count && !read.failed && !write.failed
            && s.request <= read.state.request <= s.request + b
            && if c.requestAction == ProcessPartial then read.state == write.state else SameButRequest(read.state, write.state)
  {
    hide Eval;
  }

  /**
   Any split of a request body of n bytes: under ProcessPartial exactly the first min(n, limit) bytes
   are stored, under Reject the transaction is interrupted with 413 if and only if n reaches the limit.
   */
  lemma RequestLimit(c: Config, s: State, chunks: seq<Bytes>)
    requires c.Valid() && s.request == [] && |s.response| <= c.responseLimit && |Concat(chunks)| < MAX_INT64
    requires s.tx.engine != Off && c.requestAccess && s.tx.interruption.None?
    ensures var s', body := WriteRequestChunks(c, s, chunks), Concat(chunks);
            && (c.requestAction == ProcessPartial ==> s'.request == Cut(body, c.requestLimit))
            && (c.requestAction == Reject ==>
                  s'.tx.interruption == (if |body| >= c.requestLimit then Some(LimitInterruption(413)) else None))
            && |s'.request| <= c.requestLimit
  {
    hide Eval, EvalPhase;
    RequestChunking(c, s, chunks);
    OneWrite(c, s, Concat(chunks));
  }

  lemma OneWrite(c: Config, s: State, b: Bytes)
    requires c.Valid() && s.request == [] && |s.response| <= c.responseLimit && |b| < MAX_INT64
    requires s.tx.engine != Off && c.requestAccess
    ensures var s' := WriteRequestBody(c, s, b).state;
            && (c.requestAction == ProcessPartial ==> s'.request == Cut(b, c.requestLimit))
            && (c.requestAction == Reject ==>
                  s'.tx.interruption == (if |b| >= c.requestLimit then Some(LimitInterruption(413)) else s.tx.interruption))
  {
    hide Eval;
    assert s.request + b == b;
    assert |b| >= c.requestLimit ==> s.request + b[..c.requestLimit] == Cut(b, c.requestLimit);
  }

  // ---------------------------------------------------------------- response bodies

  function WriteResponseChunks(c: Config, s: State, chunks: seq<Bytes>): (s': State)
    requires InLimits(c, s)
    ensures InLimits(c, s')
    decreases |chunks|
  {
    if chunks == [] then s
    else
      DoInLimits(c, s, WriteResponse(chunks[0]));
      WriteResponseChunks(c, WriteResponseBody(c, s, chunks[0]).state, chunks[1..])
  }

  predicate SameButResponse(a: State, b: State) {
    a.(response := []) == b.(response := [])
  }

  lemma ResponseWriteSplits(c: Config, s: State, x: Bytes, y: Bytes)
    requires InLimits(c, s)
    ensures InLimits(c, WriteResponseBody(c, s, x).state)
    ensures var two, one := WriteResponseBody(c, WriteResponseBody(c, s, x).state, y).state, WriteResponseBody(c, s, x + y).state;
            if c.responseAction == ProcessPartial then two == one else SameButResponse(two, one)
  {
    hide Eval;
    DoInLimits(c, s, WriteResponse(x));
    assert s.response + x + y == s.response + (x + y);
    if |s.response| + |x| < c.responseLimit <= |s.response| + |x| + |y| {
      var n := c.responseLimit - |s.response|;
      assert s.response + x + y[..n - |x|] == s.response + (x + y)[..n];
    } else if |s.response| <= c.responseLimit <= |s.response| + |x| {
      var n := c.responseLimit - |s.response|;
      assert (x + y)[..n] == x[..n];
    }
  }

  /** A response, too, is handled the same however it is split. */
  lemma {:induction false} ResponseChunking(c: Config, s: State, chunks: seq<Bytes>)
    requires InLimits(c, s)
    ensures var many, one := WriteResponseChunks(c, s, chunks), WriteResponseBody(c, s, Concat(chunks)).state;
            if c.responseAction == ProcessPartial then many == one else SameButResponse(many, one)
    decreases |chunks|
  {
    if chunks == [] {
      assert s.response + [] == s.response;
    } else {
      ResponseWriteSplits(c, s, chunks[0], Concat(chunks[1..]));
      ResponseChunking(c, WriteResponseBody(c, s, chunks[0]).state, chunks[1..]);
    }
  }

  lemma ReadingResponseIsWriting(c: Config, s: State, b: Bytes, sized: bool)
    requires InLimits(c, s)
    ensures var read, write := ReadResponseBodyFrom(c, s, b, sized), WriteResponseBody(c, s, b);
            && read.it == write.it && read.count == write.count && !read.failed
            && s.response <= read.state.response <= s.response + b
            && if c.responseAction == ProcessPartial then read.state == write.state else SameButResponse(read.state, write.state)
  {
    hide Eval;
  }

  /**
   Any split of a response body of n bytes: under ProcessPartial exactly the first min(n, limit) bytes
   are stored, under Reject the transaction is interrupted with 500 if and only if n reaches the limit.
   */
  lemma ResponseLimit(c: Config, s: State, chunks: seq<Bytes>)
    requires c.Valid() && s.response == [] && |s.request| <= c.requestLimit
    requires s.tx.engine != Off && c.responseAccess && s.tx.interruption.None?
    ensures var s', body := WriteResponseChunks(c, s, chunks), Concat(chunks);
            && (c.responseAction == ProcessPartial ==> s'.response == Cut(body, c.responseLimit))
            && (c.responseAction == Reject ==>
                  s'.tx.interruption == (if |body| >= c.responseLimit then Some(LimitInterruption(500)) else None))
            && |s'.response| <= c.responseLimit
  {
    hide Eval, EvalPhase;
    ResponseChunking(c, s, chunks);
    OneResponseWrite(c, s, Concat(chunks));
  }

  lemma OneResponseWrite(c: Config, s: State, b: Bytes)
    requires c.Valid() && s.response == [] && |s.request| <= c.requestLimit
    requires s.tx.engine != Off && c.responseAccess
    ensures var s' := WriteResponseBody(c, s, b).state;
            && (c.responseAction == ProcessPartial ==> s'.response == Cut(b, c.responseLimit))
            && (c.responseAction == Reject ==>
                  s'.tx.interruption == (if |b| >= c.responseLimit then Some(LimitInterruption(500)) else s.tx.interruption))
  {
    hide Eval;
    assert s.response + b == b;
    assert |b| >= c.responseLimit ==> s.response + b[..c.responseLimit] == Cut(b, c.responseLimit);
  }
}
