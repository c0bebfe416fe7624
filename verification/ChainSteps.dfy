/**
 What running a chain of transformations means (executeTransformations and its multiMatch variant in
 internal/corazawaf/rule.go), step by step: the values between the steps, the values an operator is
 shown, and the errors, each told by the steps they come from.
 */
module ChainSteps {
  import opened Options
  import opened ByteStrings
  import opened TransformCache

  /** Step `k` moves on from `x` to its output: without an error and, under multiMatch, with a change. */
  ghost predicate Moves(reg: Registry, name: string, x: Bytes, multi: bool) {
    reg(name, x).err.None? && (multi ==> reg(name, x).changed)
  }

  /** `x` are the values before, between and after the steps of the chain. */
  ghost predicate Trace(reg: Registry, names: seq<string>, v: Bytes, multi: bool, x: seq<Bytes>) {
    && |x| == |names| + 1 && x[0] == v
    && forall k | 0 <= k < |names| ::
         x[k + 1] == if Moves(reg, names[k], x[k], multi) then reg(names[k], x[k]).data else x[k]
  }

  ghost predicate Increasing(at: seq<nat>) {
    forall i, j | 0 <= i < j < |at| :: at[i] < at[j]
  }

  /** `at` are the steps among the first `n` that move on. */
  ghost predicate MovingSteps(reg: Registry, names: seq<string>, multi: bool, x: seq<Bytes>, n: nat, at: seq<nat>)
    requires n <= |names| && |x| == |names| + 1
  {
    && Increasing(at)
    && (forall j | 0 <= j < |at| :: at[j] < n && Moves(reg, names[at[j]], x[at[j]], multi))
    && (forall k | 0 <= k < n && Moves(reg, names[k], x[k], multi) :: k in at)
  }

  /** `at` are the steps among the first `n` that fail. */
  ghost predicate FailingSteps(reg: Registry, names: seq<string>, x: seq<Bytes>, n: nat, at: seq<nat>)
    requires n <= |names| && |x| == |names| + 1
  {
    && Increasing(at)
    && (forall j | 0 <= j < |at| :: at[j] < n && reg(names[at[j]], x[at[j]]).err.Some?)
    && (forall k | 0 <= k < n && reg(names[k], x[k]).err.Some? :: k in at)
  }

  /** The errors are those of the failing steps, in order. */
  ghost predicate ErrorsOf(reg: Registry, names: seq<string>, x: seq<Bytes>, at: seq<nat>, errs: seq<Error>) {
    && |errs| == |at|
    && forall j | 0 <= j < |at| ::
         at[j] < |names| && at[j] < |x| && reg(names[at[j]], x[at[j]]).err == Some(errs[j])
  }

  /** There is one such trace. */
  lemma {:induction false} TraceExists(reg: Registry, names: seq<string>, v: Bytes, multi: bool) returns (x: seq<Bytes>)
    ensures Trace(reg, names, v, multi, x)
    decreases |names|
  {
    x := [v];
    if names != [] {
      var n := |names| - 1;
      var init := TraceExists(reg, names[..n], v, multi);
      x := init + [if Moves(reg, names[n], init[n], multi) then reg(names[n], init[n]).data else init[n]];
      forall k | 0 <= k < |names|
        ensures x[k + 1] == if Moves(reg, names[k], x[k], multi) then reg(names[k], x[k]).data else x[k]
      {
        assert k < n ==> names[..n][k] == names[k];
      }
    }
  }

  lemma {:induction false} TraceUnique(
    reg: Registry, names: seq<string>, v: Bytes, multi: bool, x: seq<Bytes>, y: seq<Bytes>, k: nat)
    requires Trace(reg, names, v, multi, x) && Trace(reg, names, v, multi, y) && k <= |names|
    ensures x[k] == y[k]
  {
    if k > 0 {
      TraceUnique(reg, names, v, multi, x, y, k - 1);
      assert names[k - 1] == names[k - 1] && x[k - 1 + 1] == x[k] && y[k - 1 + 1] == y[k];
    }
  }

  lemma PrefixOfPrefix(names: seq<string>, n: nat)
    requires n < |names|
    ensures names[..n + 1][..n] == names[..n] && names[..n + 1][n] == names[n]
  {
  }

  lemma FailingStep(reg: Registry, names: seq<string>, x: seq<Bytes>, n: nat, at: seq<nat>, errs: seq<Error>)
    requires n < |names| && |x| == |names| + 1 && FailingSteps(reg, names, x, n, at) && ErrorsOf(reg, names, x, at, errs)
    ensures var err := reg(names[n], x[n]).err;
            if err.Some? then
              FailingSteps(reg, names, x, n + 1, at + [n]) && ErrorsOf(reg, names, x, at + [n], errs + [err.value])
            else FailingSteps(reg, names, x, n + 1, at)
  {
    assert (at + [n])[|at|] == n;
    assert forall k | k in at :: k in at + [n];
  }

  lemma MovingStep(reg: Registry, names: seq<string>, multi: bool, x: seq<Bytes>, n: nat, at: seq<nat>)
    requires n < |names| && |x| == |names| + 1 && MovingSteps(reg, names, multi, x, n, at)
    ensures MovingSteps(reg, names, multi, x, n + 1, if Moves(reg, names[n], x[n], multi) then at + [n] else at)
  {
    hide Moves;
    if Moves(reg, names[n], x[n], multi) {
      var at' := at + [n];
      forall j | 0 <= j < |at'| ensures at'[j] < n + 1 && Moves(reg, names[at'[j]], x[at'[j]], multi) {
      }
      forall k | 0 <= k < n + 1 && Moves(reg, names[k], x[k], multi) ensures k in at' {
        assert k == n ==> at'[|at|] == k;
      }
    }
  }

  // ---------------------------------------------------------------- the plain chain

  lemma {:induction false} ChainUpTo(reg: Registry, names: seq<string>, v: Bytes, x: seq<Bytes>, n: nat)
    returns (failing: seq<nat>)
    requires Trace(reg, names, v, false, x) && n <= |names|
    ensures RunChain(reg, names[..n], v).value == x[n]
    ensures FailingSteps(reg, names, x, n, failing)
    ensures ErrorsOf(reg, names, x, failing, RunChain(reg, names[..n], v).errs)
  {
    failing := [];
    if n > 0 {
      failing := ChainUpTo(reg, names, v, x, n - 1);
      PrefixOfPrefix(names, n - 1);
      FailingStep(reg, names, x, n - 1, failing, RunChain(reg, names[..n - 1], v).errs);
      assert x[n - 1 + 1] == x[n];
      if reg(names[n - 1], x[n - 1]).err.Some? {
        failing := failing + [n - 1];
      }
    }
  }

  /** The chain's value is the last of the trace, and its errors are those of the failing steps. */
  lemma ChainMeans(reg: Registry, names: seq<string>, v: Bytes) returns (x: seq<Bytes>, failing: seq<nat>)
    ensures Trace(reg, names, v, false, x) && FailingSteps(reg, names, x, |names|, failing)
    ensures RunChain(reg, names, v).value == x[|names|]
    ensures ErrorsOf(reg, names, x, failing, RunChain(reg, names, v).errs)
  {
    hide Trace, FailingSteps, ErrorsOf;
    x := TraceExists(reg, names, v, false);
    failing := ChainUpTo(reg, names, v, x, |names|);
    assert names[..|names|] == names;
    TraceLength(reg, names, v, false, x);
  }

  lemma TraceLength(reg: Registry, names: seq<string>, v: Bytes, multi: bool, x: seq<Bytes>)
    requires Trace(reg, names, v, multi, x)
    ensures |x| == |names| + 1 && x[0] == v
  {
  }

  // ---------------------------------------------------------------- multiMatch

  /** The input, then the output of every step that changed it, in order. */
  ghost predicate ValuesOf(v: Bytes, x: seq<Bytes>, at: seq<nat>, values: seq<Bytes>) {
    && |values| == |at| + 1 && values[0] == v
    && forall j | 0 <= j < |at| :: at[j] + 1 < |x| && values[j + 1] == x[at[j] + 1]
  }

  lemma {:induction false} MultiUpTo(reg: Registry, names: seq<string>, v: Bytes, x: seq<Bytes>, n: nat)
    returns (moving: seq<nat>, failing: seq<nat>)
    requires Trace(reg, names, v, true, x) && n <= |names|
    ensures RunMulti(reg, names[..n], v).value == x[n]
    ensures FailingSteps(reg, names, x, n, failing) && ErrorsOf(reg, names, x, failing, RunMulti(reg, names[..n], v).errs)
    ensures MovingSteps(reg, names, true, x, n, moving) && ValuesOf(v, x, moving, MultiValues(reg, names[..n], v))
  {
    hide Trace, FailingSteps, ErrorsOf, MovingSteps, ValuesOf, RunMulti, MultiValues, LastChanges;
    moving, failing := [], [];
    TraceLength(reg, names, v, true, x);
    if n == 0 {
      NoSteps(reg, names, v, x);
    } else {
      moving, failing := MultiUpTo(reg, names, v, x, n - 1);
      MultiStep(reg, names, v, x, n - 1);
      FailingStep(reg, names, x, n - 1, failing, RunMulti(reg, names[..n - 1], v).errs);
      MovingStep(reg, names, true, x, n - 1, moving);
      ghost var values := MultiValues(reg, names[..n - 1], v);
      if reg(names[n - 1], x[n - 1]).err.Some? {
        failing := failing + [n - 1];
      } else if reg(names[n - 1], x[n - 1]).changed {
        ValuesStep(v, x, moving, values, n - 1);
        moving := moving + [n - 1];
      }
    }
  }

  lemma NoSteps(reg: Registry, names: seq<string>, v: Bytes, x: seq<Bytes>)
    requires |x| == |names| + 1 && x[0] == v
    ensures RunMulti(reg, names[..0], v) == State(v, [])
    ensures FailingSteps(reg, names, x, 0, []) && ErrorsOf(reg, names, x, [], [])
    ensures MovingSteps(reg, names, true, x, 0, []) && ValuesOf(v, x, [], MultiValues(reg, names[..0], v))
  {
  }

  lemma ValuesStep(v: Bytes, x: seq<Bytes>, at: seq<nat>, values: seq<Bytes>, n: nat)
    requires ValuesOf(v, x, at, values) && n + 1 < |x|
    ensures ValuesOf(v, x, at + [n], values + [x[n + 1]])
  {
  }

  lemma MultiStep(reg: Registry, names: seq<string>, v: Bytes, x: seq<Bytes>, n: nat)
    requires Trace(reg, names, v, true, x) && n < |names| && RunMulti(reg, names[..n], v).value == x[n]
    ensures var out, before, after := reg(names[n], x[n]), RunMulti(reg, names[..n], v), RunMulti(reg, names[..n + 1], v);
            var values, values' := MultiValues(reg, names[..n], v), MultiValues(reg, names[..n + 1], v);
            && after.value == x[n + 1]
            && after.errs == (if out.err.Some? then before.errs + [out.err.value] else before.errs)
            && values' == (if out.err.None? && out.changed then values + [x[n + 1]] else values)
  {
    PrefixOfPrefix(names, n);
    assert names[n] == names[n];
  }

  /**
   Under multiMatch the operator sees the input and the output of every step that changed it, in
   order, and the errors are those of the failing steps.
   */
  lemma MultiMeans(reg: Registry, names: seq<string>, v: Bytes) returns (x: seq<Bytes>, moving: seq<nat>, failing: seq<nat>)
    ensures Trace(reg, names, v, true, x)
    ensures MovingSteps(reg, names, true, x, |names|, moving) && ValuesOf(v, x, moving, MultiValues(reg, names, v))
    ensures FailingSteps(reg, names, x, |names|, failing) && ErrorsOf(reg, names, x, failing, RunMulti(reg, names, v).errs)
  {
    hide Trace, FailingSteps, MovingSteps, ErrorsOf, ValuesOf;
    x := TraceExists(reg, names, v, true);
    moving, failing := MultiUpTo(reg, names, v, x, |names|);
    assert names[..|names|] == names;
    TraceLength(reg, names, v, true, x);
  }

  /** What one use of the caches gives, by the steps alone: RunPhase promises this for every use of a phase. */
  lemma TransformedMeans(reg: Registry, names: seq<string>, v: Bytes, multi: bool)
    returns (x: seq<Bytes>, moving: seq<nat>, failing: seq<nat>)
    ensures Trace(reg, names, v, multi, x) && FailingSteps(reg, names, x, |names|, failing)
    ensures ErrorsOf(reg, names, x, failing, Transformed(reg, names, v, multi).1)
    ensures multi ==> MovingSteps(reg, names, true, x, |names|, moving)
    ensures multi ==> ValuesOf(v, x, moving, Transformed(reg, names, v, true).0)
    ensures !multi ==> Transformed(reg, names, v, false).0 == [x[|names|]]
  {
    hide FailingSteps, MovingSteps, ErrorsOf, ValuesOf, RunChain, RunMulti, MultiValues;
    if multi {
      x, moving, failing := MultiMeans(reg, names, v);
    } else {
      x, failing := ChainMeans(reg, names, v);
      moving := [];
    }
  }
}
