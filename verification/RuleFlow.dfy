/**
 Evaluating the rules of one phase (RuleGroup.Eval in internal/corazawaf/rulegroup.go): phase
 filtering, rule removal, skip, skipAfter, allow and interruption. Rules are abstract: what a
 rule's variables, operator and non-disruptive actions do is a function on the variables.
 */
module RuleFlow {
  import opened Options

  type Phase = p: int | 0 <= p <= 5

  datatype Engine = Off | DetectionOnly | On

  datatype AllowType = AllowUnset | AllowAll | AllowPhase | AllowRequest

  /** Transaction variables, and the rules that ctl actions have removed. */
  datatype Vars = Vars(values: map<string, seq<string>>, removedIDs: set<int>, removedRanges: seq<(int, int)>)

  datatype Interruption = Interruption(ruleID: int, action: string, status: int, target: string)

  /** The actions evaluated after a rule (with its whole chain) has matched. */
  datatype Action =
    | Deny
    | Drop
    | Redirect(target: string)
    | Allow(allow: AllowType)
    | Pass
    | Skip(count: nat)
    | SkipAfter(mark: string)
  {
    predicate Interrupts() {
      Deny? || Drop? || Redirect?
    }
  }

  /** What matching does: new variables, the verdict, and a possible ctl:ruleEngine. */
  datatype Effect = Effect(vars: Vars, matched: bool, engine: Option<Engine>)

  datatype Rule = Rule(id: int, phase: Phase, mark: string, status: int, effect: Vars -> Effect, actions: seq<Action>)

  /** The log of a matched rule; `disruptive` tells a real disruption from a potential one. */
  datatype MatchedRule = MatchedRule(id: int, vars: Vars, disruptive: bool)

  /** One rule evaluation: in which phase, which rule, whether the transaction was interrupted, and its variables then. */
  datatype Evaluation = Evaluation(phase: Phase, rule: nat, interrupted: bool, vars: Vars)

  /** The fields of a transaction that rules read and write; `evaluated` is the history of rule evaluations. */
  datatype Tx = Tx(
    engine: Engine,
    interruption: Option<Interruption>,
    detected: Option<Interruption>,
    skip: nat,
    skipAfter: string,
    allow: AllowType,
    lastPhase: Phase,
    vars: Vars,
    matched: seq<MatchedRule>,
    evaluated: seq<Evaluation>)

  // ---------------------------------------------------------------- actions

  /** Transaction.Interrupt: enforced when On, only the first one remembered when DetectionOnly. */
  function Interrupt(tx: Tx, it: Interruption): Tx {
    match tx.engine
    case On => tx.(interruption := Some(it))
    case DetectionOnly => if tx.detected.None? then tx.(detected := Some(it)) else tx
    case Off => tx
  }

  function RunAction(tx: Tx, r: Rule, a: Action): Tx {
    match a
    case Deny => Interrupt(tx, Interruption(r.id, "deny", if r.status == 0 then 403 else r.status, ""))
    case Drop => Interrupt(tx, Interruption(r.id, "drop", r.status, ""))
    case Redirect(target) =>
      Interrupt(tx, Interruption(r.id, "redirect", if r.status in {301, 302, 303, 307} then r.status else 302, target))
    case Allow(allow) => if tx.engine == On then tx.(allow := allow) else tx
    case Pass => tx
    case Skip(n) => tx.(skip := n)
    case SkipAfter(mark) => tx.(skipAfter := mark)
  }

  function RunActions(tx: Tx, r: Rule, n: nat): Tx
    requires n <= |r.actions|
  {
    if n == 0 then tx else RunAction(RunActions(tx, r, n - 1), r, r.actions[n - 1])
  }

  predicate IsDisruptive(r: Rule) {
    exists i | 0 <= i < |r.actions| :: r.actions[i].Interrupts() || r.actions[i].Allow? || r.actions[i].Pass?
  }

  /** Rule.Evaluate: match, then flow and disruptive actions in order, then the match log. */
  function Evaluate(tx: Tx, r: Rule): Tx {
    var e := r.effect(tx.vars);
    var tx1 := tx.(vars := e.vars, engine := if e.engine.Some? then e.engine.value else tx.engine);
    if !e.matched then tx1
    else
      var tx2 := RunActions(tx1, r, |r.actions|);
      if r.id == 0 then tx2
      else tx2.(matched := tx2.matched + [MatchedRule(r.id, tx2.vars, IsDisruptive(r) && tx2.engine == On)])
  }

  // ---------------------------------------------------------------- one phase

  predicate Removed(vars: Vars, r: Rule) {
    r.id in vars.removedIDs || exists i | 0 <= i < |vars.removedRanges| ::
      vars.removedRanges[i].0 <= r.id <= vars.removedRanges[i].1
  }

  /** The rule takes part in `phase` and has not been removed. */
  predicate Eligible(vars: Vars, r: Rule, phase: Phase) {
    (r.phase == 0 || r.phase == phase) && !Removed(vars, r)
  }

  /** The allow type stops the rest of the phase here. */
  predicate AllowStops(allow: AllowType, phase: Phase) {
    allow == AllowPhase || allow == AllowAll || (allow == AllowRequest && (phase == 1 || phase == 2))
  }

  /** The loop over the rules, from rule `i` on. */
  function EvalFrom(rules: seq<Rule>, phase: Phase, i: nat, tx: Tx): Tx
    decreases |rules| - i
  {
    if i >= |rules| then tx
    else if tx.interruption.Some? && phase != 5 then tx
    else if !Eligible(tx.vars, rules[i], phase) then EvalFrom(rules, phase, i + 1, tx)
    else if tx.skipAfter != "" then
      EvalFrom(rules, phase, i + 1, if rules[i].mark == tx.skipAfter then tx.(skipAfter := "") else tx)
    else if tx.skip > 0 then EvalFrom(rules, phase, i + 1, tx.(skip := tx.skip - 1))
    else if AllowStops(tx.allow, phase) then
      if tx.allow == AllowRequest && phase == 2 then tx.(allow := AllowUnset) else tx
    else EvalFrom(rules, phase, i + 1, EvaluateAt(rules, phase, i, tx))
  }

  function Logged(phase: Phase, i: nat, tx: Tx): Tx {
    tx.(evaluated := tx.evaluated + [Evaluation(phase, i, tx.interruption.Some?, tx.vars)])
  }

  function EvaluateAt(rules: seq<Rule>, phase: Phase, i: nat, tx: Tx): Tx
    requires i < |rules|
  {
    Evaluate(Logged(phase, i, tx), rules[i])
  }

  /** RuleGroup.Eval. */
  function Eval(rules: seq<Rule>, phase: Phase, tx: Tx): Tx {
    var end := EvalFrom(rules, phase, 0, tx.(lastPhase := phase));
    end.(allow := if end.allow == AllowPhase then AllowUnset else end.allow, skip := 0)
  }

  // ---------------------------------------------------------------- what is evaluated

  /**
   `longer` extends `shorter` with evaluations of rules from `i` on, in order, each of `phase` and not
   removed at that moment, and none of them after an interruption unless this is the logging phase.
   */
  ghost predicate InOrder(rules: seq<Rule>, phase: Phase, i: nat, shorter: seq<Evaluation>, longer: seq<Evaluation>) {
    && shorter <= longer
    && (forall k | |shorter| <= k < |longer| ::
          longer[k].phase == phase && i <= longer[k].rule < |rules| &&
          Eligible(longer[k].vars, rules[longer[k].rule], phase) &&
          (longer[k].interrupted ==> phase == 5))
    && (forall j, k | |shorter| <= j < k < |longer| :: longer[j].rule < longer[k].rule)
  }

  lemma EvaluateKeeps(tx: Tx, r: Rule)
    ensures var tx' := Evaluate(tx, r);
            && tx'.evaluated == tx.evaluated && tx'.lastPhase == tx.lastPhase
            && tx.matched <= tx'.matched
            && (tx.interruption.Some? ==> tx'.interruption.Some?)
            && (tx.detected.Some? ==> tx'.detected == tx.detected)
  {
    var e := r.effect(tx.vars);
    ActionsKeep(tx.(vars := e.vars, engine := if e.engine.Some? then e.engine.value else tx.engine), r, |r.actions|);
  }

  lemma {:induction false} ActionsKeep(tx: Tx, r: Rule, n: nat)
    requires n <= |r.actions|
    ensures var tx' := RunActions(tx, r, n);
            && tx'.evaluated == tx.evaluated && tx'.lastPhase == tx.lastPhase && tx'.vars == tx.vars
            && tx'.engine == tx.engine && tx'.matched == tx.matched
            && (tx.interruption.Some? ==> tx'.interruption.Some?)
            && (tx.detected.Some? ==> tx'.detected == tx.detected)
  {
    if n > 0 {
      ActionsKeep(tx, r, n - 1);
    }
  }

  /**
   The rules evaluated in a phase are a subsequence, in syntactic order, of the rules that were
   eligible when their turn came; an interruption is never withdrawn; matches are only added.
   */
  lemma {:induction false} EvalFromInOrder(rules: seq<Rule>, phase: Phase, i: nat, tx: Tx)
    ensures var tx' := EvalFrom(rules, phase, i, tx);
            && InOrder(rules, phase, i, tx.evaluated, tx'.evaluated)
            && tx'.lastPhase == tx.lastPhase
            && tx.matched <= tx'.matched
            && (tx.interruption.Some? ==> tx'.interruption.Some?)
            && (tx.interruption.Some? && phase != 5 ==> tx' == tx)
            && (tx.detected.Some? ==> tx'.detected == tx.detected)
    decreases |rules| - i
  {
    if i < |rules| && !(tx.interruption.Some? && phase != 5) {
      if !Eligible(tx.vars, rules[i], phase) {
        EvalFromInOrder(rules, phase, i + 1, tx);
      } else if tx.skipAfter != "" {
        EvalFromInOrder(rules, phase, i + 1, if rules[i].mark == tx.skipAfter then tx.(skipAfter := "") else tx);
      } else if tx.skip > 0 {
        EvalFromInOrder(rules, phase, i + 1, tx.(skip := tx.skip - 1));
      } else if !AllowStops(tx.allow, phase) {
        var mid := EvaluateAt(rules, phase, i, tx);
        EvaluateKeeps(Logged(phase, i, tx), rules[i]);
        EvalFromInOrder(rules, phase, i + 1, mid);
        InOrderAfter(rules, phase, i, tx, EvalFrom(rules, phase, i + 1, mid).evaluated);
      }
    }
  }

  lemma InOrderAfter(rules: seq<Rule>, phase: Phase, i: nat, tx: Tx, longer: seq<Evaluation>)
    requires i < |rules| && Eligible(tx.vars, rules[i], phase)
    requires tx.interruption.Some? ==> phase == 5
    requires InOrder(rules, phase, i + 1, Logged(phase, i, tx).evaluated, longer)
    ensures InOrder(rules, phase, i, tx.evaluated, longer)
  {
    assert longer[|tx.evaluated|] == Evaluation(phase, i, tx.interruption.Some?, tx.vars);
  }

  // ---------------------------------------------------------------- skip

  /** How many of the rules i..j-1 are eligible. */
  function EligibleCount(rules: seq<Rule>, vars: Vars, phase: Phase, i: nat, j: nat): nat
    requires i <= j <= |rules|
    decreases j - i
  {
    if i == j then 0
    else (if Eligible(vars, rules[i], phase) then 1 else 0) + EligibleCount(rules, vars, phase, i + 1, j)
  }

  /**
   skip:n suppresses exactly the next n eligible rules: if rules i..j-1 hold n of them, evaluation
   goes on at j as if nothing had been skipped.
   */
  lemma {:induction false} SkipSuppresses(rules: seq<Rule>, phase: Phase, i: nat, j: nat, tx: Tx)
    requires i <= j <= |rules| && tx.skipAfter == "" && !(tx.interruption.Some? && phase != 5)
    requires tx.skip == EligibleCount(rules, tx.vars, phase, i, j)
    ensures EvalFrom(rules, phase, i, tx) == EvalFrom(rules, phase, j, tx.(skip := 0))
    decreases j - i
  {
    if i < j {
      if Eligible(tx.vars, rules[i], phase) {
        SkipSuppresses(rules, phase, i + 1, j, tx.(skip := tx.skip - 1));
        assert tx.(skip := tx.skip - 1).(skip := 0) == tx.(skip := 0);
      } else {
        SkipSuppresses(rules, phase, i + 1, j, tx);
      }
    } else {
      assert tx.(skip := 0) == tx;
    }
  }

  /** A count that reaches past the end of the phase suppresses the rest of it and is then forgotten. */
  lemma {:induction false} SkipPastEnd(rules: seq<Rule>, phase: Phase, i: nat, tx: Tx)
    requires i <= |rules| && tx.skipAfter == "" && !(tx.interruption.Some? && phase != 5)
    requires tx.skip >= EligibleCount(rules, tx.vars, phase, i, |rules|)
    ensures EvalFrom(rules, phase, i, tx).(skip := 0) == tx.(skip := 0)
    decreases |rules| - i
  {
    if i < |rules| {
      if Eligible(tx.vars, rules[i], phase) {
        SkipPastEnd(rules, phase, i + 1, tx.(skip := tx.skip - 1));
        assert tx.(skip := tx.skip - 1).(skip := 0) == tx.(skip := 0);
      } else {
        SkipPastEnd(rules, phase, i + 1, tx);
      }
    }
  }

  // ---------------------------------------------------------------- skipAfter

  /** `j` is the first rule from `i` on that is eligible and carries the mark. */
  ghost predicate FirstMark(rules: seq<Rule>, vars: Vars, phase: Phase, i: nat, mark: string, j: nat) {
    && i <= j < |rules|
    && Eligible(vars, rules[j], phase) && rules[j].mark == mark
    && forall k | i <= k < j :: !(Eligible(vars, rules[k], phase) && rules[k].mark == mark)
  }

  /** Nothing is evaluated between skipAfter:M and the next visited marker M, the marker included. */
  lemma {:induction false} SkipAfterSuppresses(rules: seq<Rule>, phase: Phase, i: nat, j: nat, tx: Tx)
    requires tx.skipAfter != "" && !(tx.interruption.Some? && phase != 5)
    requires FirstMark(rules, tx.vars, phase, i, tx.skipAfter, j)
    ensures EvalFrom(rules, phase, i, tx) == EvalFrom(rules, phase, j + 1, tx.(skipAfter := ""))
    decreases j - i
  {
    if i < j {
      SkipAfterSuppresses(rules, phase, i + 1, j, tx);
    }
  }

  /** Without such a marker the rest of the phase is suppressed, and skipAfter stays set for the next phase. */
  lemma {:induction false} SkipAfterLeaks(rules: seq<Rule>, phase: Phase, i: nat, tx: Tx)
    requires tx.skipAfter != "" && !(tx.interruption.Some? && phase != 5)
    requires forall k | i <= k < |rules| :: !(Eligible(tx.vars, rules[k], phase) && rules[k].mark == tx.skipAfter)
    ensures EvalFrom(rules, phase, i, tx) == tx
    decreases |rules| - i
  {
    if i < |rules| {
      SkipAfterLeaks(rules, phase, i + 1, tx);
    }
  }

  /**
   A skipAfter that is still set when a phase starts: either its marker is visited, and the phase
   runs from behind it, or the phase evaluates nothing and hands skipAfter on.
   */
  lemma SkipAfterAcrossPhases(rules: seq<Rule>, phase: Phase, tx: Tx)
    requires tx.skipAfter != "" && !(tx.interruption.Some? && phase != 5)
    ensures forall j: nat | FirstMark(rules, tx.vars, phase, 0, tx.skipAfter, j) ::
              EvalFrom(rules, phase, 0, tx) == EvalFrom(rules, phase, j + 1, tx.(skipAfter := ""))
    ensures (forall j: nat :: !FirstMark(rules, tx.vars, phase, 0, tx.skipAfter, j)) ==>
              Eval(rules, phase, tx).evaluated == tx.evaluated && Eval(rules, phase, tx).skipAfter == tx.skipAfter
  {
    forall j: nat | FirstMark(rules, tx.vars, phase, 0, tx.skipAfter, j)
      ensures EvalFrom(rules, phase, 0, tx) == EvalFrom(rules, phase, j + 1, tx.(skipAfter := ""))
    {
      SkipAfterSuppresses(rules, phase, 0, j, tx);
    }
    if k: nat :| k < |rules| && Eligible(tx.vars, rules[k], phase) && rules[k].mark == tx.skipAfter {
      var j := EarliestMark(rules, tx.vars, phase, tx.skipAfter, k);
    } else {
      SkipAfterLeaks(rules, phase, 0, tx.(lastPhase := phase));
    }
  }

  lemma {:induction false} EarliestMark(rules: seq<Rule>, vars: Vars, phase: Phase, mark: string, k: nat) returns (j: nat)
    requires k < |rules| && Eligible(vars, rules[k], phase) && rules[k].mark == mark
    ensures FirstMark(rules, vars, phase, 0, mark, j)
    decreases k
  {
    if m: nat :| m < k && Eligible(vars, rules[m], phase) && rules[m].mark == mark {
      j := EarliestMark(rules, vars, phase, mark, m);
    } else {
      j := k;
    }
  }

  // ---------------------------------------------------------------- allow

  /** Once allow stops a phase, no further rule of the phase is evaluated. */
  lemma {:induction false} AllowSuppresses(rules: seq<Rule>, phase: Phase, i: nat, tx: Tx)
    requires AllowStops(tx.allow, phase)
    ensures EvalFrom(rules, phase, i, tx).evaluated == tx.evaluated
    ensures EvalFrom(rules, phase, i, tx).matched == tx.matched
    ensures EvalFrom(rules, phase, i, tx).interruption == tx.interruption
    decreases |rules| - i
  {
    if i < |rules| && !(tx.interruption.Some? && phase != 5) {
      if !Eligible(tx.vars, rules[i], phase) {
        AllowSuppresses(rules, phase, i + 1, tx);
      } else if tx.skipAfter != "" {
        AllowSuppresses(rules, phase, i + 1, if rules[i].mark == tx.skipAfter then tx.(skipAfter := "") else tx);
      } else if tx.skip > 0 {
        AllowSuppresses(rules, phase, i + 1, tx.(skip := tx.skip - 1));
      }
    }
  }

  /** An allow that stops a phase outlives it, but for allow:phase and, in phase 2, a spent allow:request. */
  lemma {:induction false} AllowOutlives(rules: seq<Rule>, phase: Phase, i: nat, tx: Tx)
    requires AllowStops(tx.allow, phase) && !(tx.allow == AllowRequest && phase == 2)
    ensures EvalFrom(rules, phase, i, tx).allow == tx.allow
    decreases |rules| - i
  {
    if i < |rules| && !(tx.interruption.Some? && phase != 5) {
      if !Eligible(tx.vars, rules[i], phase) {
        AllowOutlives(rules, phase, i + 1, tx);
      } else if tx.skipAfter != "" {
        AllowOutlives(rules, phase, i + 1, if rules[i].mark == tx.skipAfter then tx.(skipAfter := "") else tx);
      } else if tx.skip > 0 {
        AllowOutlives(rules, phase, i + 1, tx.(skip := tx.skip - 1));
      }
    }
  }

  /** So an allow:request set at any rule of phase 1 suppresses the rest of phase 1 and all of phase 2. */
  lemma AllowRequestCrosses(rules: seq<Rule>, i: nat, tx: Tx)
    requires tx.allow == AllowRequest
    ensures var one := EvalFrom(rules, 1, i, tx);
            && one.evaluated == tx.evaluated && one.matched == tx.matched && one.allow == AllowRequest
            && Eval(rules, 2, one).evaluated == tx.evaluated && Eval(rules, 2, one).matched == tx.matched
  {
    hide EvalFrom;
    AllowSuppresses(rules, 1, i, tx);
    AllowOutlives(rules, 1, i, tx);
    AllowSuppresses(rules, 2, 0, EvalFrom(rules, 1, i, tx).(lastPhase := 2));
  }

  /** Equal but for allow, where one side may still carry a spent allow:request. */
  predicate SameButAllow(a: Tx, b: Tx) {
    a == b || (a.allow == AllowRequest && b.allow == AllowUnset && a.(allow := AllowUnset) == b)
  }

  /** In the phases after the request an allow:request left over from it runs as if it were unset. */
  lemma {:induction false} AllowRequestSpent(rules: seq<Rule>, phase: Phase, i: nat, a: Tx, b: Tx)
    requires phase >= 3
    requires SameButAllow(a, b)
    ensures SameButAllow(EvalFrom(rules, phase, i, a), EvalFrom(rules, phase, i, b))
    decreases |rules| - i
  {
    if i < |rules| && !(a.interruption.Some? && phase != 5) && a != b {
      if !Eligible(a.vars, rules[i], phase) {
        AllowRequestSpent(rules, phase, i + 1, a, b);
      } else if a.skipAfter != "" {
        AllowRequestSpent(rules, phase, i + 1,
                          if rules[i].mark == a.skipAfter then a.(skipAfter := "") else a,
                          if rules[i].mark == b.skipAfter then b.(skipAfter := "") else b);
      } else if a.skip > 0 {
        AllowRequestSpent(rules, phase, i + 1, a.(skip := a.skip - 1), b.(skip := b.skip - 1));
      } else {
        EvaluateSameButAllow(Logged(phase, i, a), Logged(phase, i, b), rules[i]);
        AllowRequestSpent(rules, phase, i + 1, EvaluateAt(rules, phase, i, a), EvaluateAt(rules, phase, i, b));
      }
    }
  }

  lemma EvaluateSameButAllow(a: Tx, b: Tx, r: Rule)
    requires SameButAllow(a, b)
    ensures SameButAllow(Evaluate(a, r), Evaluate(b, r))
  {
    var e := r.effect(a.vars);
    var engine := if e.engine.Some? then e.engine.value else a.engine;
    ActionsSameButAllow(a.(vars := e.vars, engine := engine), b.(vars := e.vars, engine := engine), r, |r.actions|);
  }

  lemma {:induction false} ActionsSameButAllow(a: Tx, b: Tx, r: Rule, n: nat)
    requires n <= |r.actions| && SameButAllow(a, b)
    ensures SameButAllow(RunActions(a, r, n), RunActions(b, r, n))
  {
    if n > 0 {
      ActionsSameButAllow(a, b, r, n - 1);
    }
  }

  /** So a whole response or logging phase is evaluated identically. */
  lemma ResponsePhaseIgnoresAllowRequest(rules: seq<Rule>, phase: Phase, tx: Tx)
    requires phase >= 3 && tx.allow == AllowRequest
    ensures var a, b := Eval(rules, phase, tx), Eval(rules, phase, tx.(allow := AllowUnset));
            a.evaluated == b.evaluated && a.matched == b.matched && a.interruption == b.interruption &&
            a.detected == b.detected && a.vars == b.vars && a.skipAfter == b.skipAfter
  {
    AllowRequestSpent(rules, phase, 0, tx.(lastPhase := phase), tx.(allow := AllowUnset).(lastPhase := phase));
  }
}
