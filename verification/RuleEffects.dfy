/**
 What matching a rule does to the transaction, told from the rule that carries the actions
 (internal/actions and RuleGroup.Eval in internal/corazawaf/rulegroup.go): where evaluation goes on
 after skip, skipAfter and the kinds of allow, which interruption deny, drop and redirect raise, and
 which rules a phase without flow control evaluates.
 */
module RuleEffects {
  import opened Options
  import opened RuleFlow

  // ---------------------------------------------------------------- actions

  /** `it` is what a disruptive action of rule `r` raises, field by field. */
  ghost predicate RaisedBy(r: Rule, a: Action, it: Interruption) {
    && it.ruleID == r.id
    && (a.Deny? ==> it.action == "deny" && it.target == "" && it.status == (if r.status != 0 then r.status else 403))
    && (a.Drop? ==> it.action == "drop" && it.target == "" && it.status == r.status)
    && (a.Redirect? ==> it.action == "redirect" && it.target == a.target)
    && (a.Redirect? ==> it.status == (if r.status in {301, 302, 303, 307} then r.status else 302))
  }

  /** What one action does, field by field. */
  lemma OneAction(tx: Tx, r: Rule, a: Action)
    ensures var tx' := RunAction(tx, r, a);
            && tx'.engine == tx.engine
            && tx'.skip == (if a.Skip? then a.count else tx.skip)
            && tx'.skipAfter == (if a.SkipAfter? then a.mark else tx.skipAfter)
            && tx'.allow == (if a.Allow? && tx.engine == On then a.allow else tx.allow)
            && (a.Interrupts() && tx.engine == On ==> tx'.interruption.Some? && RaisedBy(r, a, tx'.interruption.value))
            && (!a.Interrupts() || tx.engine != On ==> tx'.interruption == tx.interruption)
            && (a.Interrupts() && tx.engine == DetectionOnly && tx.detected.None? ==>
                  tx'.detected.Some? && RaisedBy(r, a, tx'.detected.value))
            && (!a.Interrupts() || tx.engine != DetectionOnly || tx.detected.Some? ==> tx'.detected == tx.detected)
  {
  }

  /** The skip count is that of the last skip. */
  lemma {:induction false} SkipEffect(tx: Tx, r: Rule, k: nat, n: nat)
    requires k < n <= |r.actions| && r.actions[k].Skip? && forall j | k < j < n :: !r.actions[j].Skip?
    ensures RunActions(tx, r, n).skip == r.actions[k].count
  {
    hide RunAction, RaisedBy;
    OneAction(RunActions(tx, r, n - 1), r, r.actions[n - 1]);
    if k < n - 1 {
      SkipEffect(tx, r, k, n - 1);
    }
  }

  /** The marker skipped to is that of the last skipAfter. */
  lemma {:induction false} SkipAfterEffect(tx: Tx, r: Rule, k: nat, n: nat)
    requires k < n <= |r.actions| && r.actions[k].SkipAfter? && forall j | k < j < n :: !r.actions[j].SkipAfter?
    ensures RunActions(tx, r, n).skipAfter == r.actions[k].mark
  {
    hide RunAction, RaisedBy;
    OneAction(RunActions(tx, r, n - 1), r, r.actions[n - 1]);
    if k < n - 1 {
      SkipAfterEffect(tx, r, k, n - 1);
    }
  }

  /** While the engine is On the allow type is that of the last allow. */
  lemma {:induction false} AllowEffect(tx: Tx, r: Rule, k: nat, n: nat)
    requires tx.engine == On
    requires k < n <= |r.actions| && r.actions[k].Allow? && forall j | k < j < n :: !r.actions[j].Allow?
    ensures RunActions(tx, r, n).allow == r.actions[k].allow
  {
    hide RunAction, RaisedBy;
    ActionsKeep(tx, r, n - 1);
    OneAction(RunActions(tx, r, n - 1), r, r.actions[n - 1]);
    if k < n - 1 {
      AllowEffect(tx, r, k, n - 1);
    }
  }

  /** While the engine is On the transaction is interrupted by the last disruptive action. */
  lemma {:induction false} EnforcedEffect(tx: Tx, r: Rule, k: nat, n: nat)
    requires tx.engine == On
    requires k < n <= |r.actions| && r.actions[k].Interrupts() && forall j | k < j < n :: !r.actions[j].Interrupts()
    ensures RunActions(tx, r, n).interruption.Some?
    ensures RaisedBy(r, r.actions[k], RunActions(tx, r, n).interruption.value)
  {
    hide RunAction, RaisedBy;
    ActionsKeep(tx, r, n - 1);
    OneAction(RunActions(tx, r, n - 1), r, r.actions[n - 1]);
    if k < n - 1 {
      EnforcedEffect(tx, r, k, n - 1);
    }
  }

  /** In DetectionOnly the first disruptive action ever is noted instead. */
  lemma {:induction false} DetectedEffect(tx: Tx, r: Rule, k: nat, n: nat)
    requires tx.engine == DetectionOnly && tx.detected.None?
    requires k < n <= |r.actions| && r.actions[k].Interrupts() && forall j | 0 <= j < k :: !r.actions[j].Interrupts()
    ensures RunActions(tx, r, n).detected.Some?
    ensures RaisedBy(r, r.actions[k], RunActions(tx, r, n).detected.value)
  {
    hide RunAction, RaisedBy;
    ActionsKeep(tx, r, n - 1);
    OneAction(RunActions(tx, r, n - 1), r, r.actions[n - 1]);
    if k < n - 1 {
      DetectedEffect(tx, r, k, n - 1);
    } else {
      NoEffect(tx, r, n - 1);
    }
  }

  /** What no action sets stays, and so does what the engine mode does not let them set. */
  lemma {:induction false} NoEffect(tx: Tx, r: Rule, n: nat)
    requires n <= |r.actions|
    ensures var tx' := RunActions(tx, r, n);
            && ((forall j | 0 <= j < n :: !r.actions[j].Skip?) ==> tx'.skip == tx.skip)
            && ((forall j | 0 <= j < n :: !r.actions[j].SkipAfter?) ==> tx'.skipAfter == tx.skipAfter)
            && (tx.engine != On || (forall j | 0 <= j < n :: !r.actions[j].Allow?) ==> tx'.allow == tx.allow)
            && (tx.engine != On || (forall j | 0 <= j < n :: !r.actions[j].Interrupts()) ==> tx'.interruption == tx.interruption)
            && (tx.engine != DetectionOnly || (forall j | 0 <= j < n :: !r.actions[j].Interrupts()) ==>
                  tx'.detected == tx.detected)
  {
    hide RunAction, RaisedBy;
    if n > 0 {
      NoEffect(tx, r, n - 1);
      ActionsKeep(tx, r, n - 1);
      OneAction(RunActions(tx, r, n - 1), r, r.actions[n - 1]);
    }
  }

  // ---------------------------------------------------------------- one rule

  function EngineAfter(tx: Tx, r: Rule): Engine {
    if r.effect(tx.vars).engine.Some? then r.effect(tx.vars).engine.value else tx.engine
  }

  /** The transaction as the actions of a rule find it. */
  function Seen(tx: Tx, r: Rule): Tx {
    tx.(vars := r.effect(tx.vars).vars, engine := EngineAfter(tx, r))
  }

  /** A rule that does not match leaves only its variables and ctl:ruleEngine behind; one that does is logged. */
  lemma EvaluateEffect(tx: Tx, r: Rule)
    ensures var tx', e := Evaluate(tx, r), r.effect(tx.vars);
            && tx'.vars == e.vars && tx'.engine == EngineAfter(tx, r)
            && (!e.matched ==> tx' == Seen(tx, r))
            && (e.matched ==> tx'.(matched := tx.matched) == RunActions(Seen(tx, r), r, |r.actions|))
            && (r.id == 0 || !e.matched ==> tx'.matched == tx.matched)
            && (r.id != 0 && e.matched ==>
                  && |tx'.matched| == |tx.matched| + 1 && tx.matched < tx'.matched
                  && var last := tx'.matched[|tx.matched|];
                     && last.id == r.id && last.vars == e.vars
                     && (last.disruptive <==> tx'.engine == On && exists i | 0 <= i < |r.actions| ::
                           !r.actions[i].Skip? && !r.actions[i].SkipAfter?))
  {
    ActionsKeep(Seen(tx, r), r, |r.actions|);
    assert Seen(tx, r) == tx.(vars := r.effect(tx.vars).vars,
                              engine := if r.effect(tx.vars).engine.Some? then r.effect(tx.vars).engine.value else tx.engine);
  }

  // ---------------------------------------------------------------- a rule's turn

  /** Nothing keeps the next eligible rule of the phase from being evaluated. */
  ghost predicate Running(phase: Phase, tx: Tx) {
    && (tx.interruption.None? || phase == 5)
    && tx.skipAfter == "" && tx.skip == 0
    && (tx.allow == AllowUnset || (tx.allow == AllowRequest && phase >= 3))
  }

  /** The rule is of this phase, or of every phase, and no ctl has removed it by its id or by a range. */
  ghost predicate InPlay(vars: Vars, r: Rule, phase: Phase) {
    && (r.phase == phase || r.phase == 0)
    && r.id !in vars.removedIDs
    && forall i | 0 <= i < |vars.removedRanges| :: r.id < vars.removedRanges[i].0 || vars.removedRanges[i].1 < r.id
  }

  lemma InPlayIsEligible(vars: Vars, r: Rule, phase: Phase)
    ensures InPlay(vars, r, phase) <==> Eligible(vars, r, phase)
  {
  }

  ghost predicate Turn(rules: seq<Rule>, phase: Phase, i: nat, tx: Tx) {
    i < |rules| && phase > 0 && Running(phase, tx) && InPlay(tx.vars, rules[i], phase)
  }

  /** A rule whose turn has come is evaluated, on the variables as they are. */
  lemma TurnEvaluates(rules: seq<Rule>, phase: Phase, i: nat, tx: Tx)
    requires Turn(rules, phase, i, tx)
    ensures var tx', k := EvalFrom(rules, phase, i, tx), |tx.evaluated|;
            && tx.evaluated < tx'.evaluated
            && tx'.evaluated[k] == Evaluation(phase, i, tx.interruption.Some?, tx.vars)
    ensures EvalFrom(rules, phase, i, tx) == EvalFrom(rules, phase, i + 1, EvaluateAt(rules, phase, i, tx))
  {
    hide Evaluate;
    InPlayIsEligible(tx.vars, rules[i], phase);
    EvaluateKeeps(Logged(phase, i, tx), rules[i]);
    EvalFromInOrder(rules, phase, i + 1, EvaluateAt(rules, phase, i, tx));
  }

  /** Action `k` is the last skip among the rule's actions; likewise for the other kinds below. */
  ghost predicate LastSkip(r: Rule, k: nat) {
    k < |r.actions| && r.actions[k].Skip? && forall j | k < j < |r.actions| :: !r.actions[j].Skip?
  }

  ghost predicate LastSkipAfter(r: Rule, k: nat) {
    k < |r.actions| && r.actions[k].SkipAfter? && forall j | k < j < |r.actions| :: !r.actions[j].SkipAfter?
  }

  ghost predicate LastAllow(r: Rule, k: nat) {
    k < |r.actions| && r.actions[k].Allow? && forall j | k < j < |r.actions| :: !r.actions[j].Allow?
  }

  ghost predicate LastInterrupting(r: Rule, k: nat) {
    k < |r.actions| && r.actions[k].Interrupts() && forall j | k < j < |r.actions| :: !r.actions[j].Interrupts()
  }

  /** Evaluating the rule leaves the phase free to go on. */
  ghost predicate GoesOn(phase: Phase, tx: Tx, r: Rule) {
    phase == 5 || EngineAfter(tx, r) != On || forall j | 0 <= j < |r.actions| :: !r.actions[j].Interrupts()
  }

  ghost predicate Allows(tx: Tx, r: Rule) {
    EngineAfter(tx, r) == On && exists j | 0 <= j < |r.actions| :: r.actions[j].Allow?
  }

  /** What a matching rule leaves to the rules after it. */
  lemma MatchLeaves(rules: seq<Rule>, phase: Phase, i: nat, tx: Tx)
    requires i < |rules| && rules[i].effect(tx.vars).matched
    ensures var r, after := rules[i], EvaluateAt(rules, phase, i, tx);
            && after.evaluated == tx.evaluated + [Evaluation(phase, i, tx.interruption.Some?, tx.vars)]
            && after.vars == r.effect(tx.vars).vars
            && (forall k: nat | LastSkip(r, k) :: after.skip == r.actions[k].count)
            && ((forall j | 0 <= j < |r.actions| :: !r.actions[j].Skip?) ==> after.skip == tx.skip)
            && (forall k: nat | LastSkipAfter(r, k) :: after.skipAfter == r.actions[k].mark)
            && ((forall j | 0 <= j < |r.actions| :: !r.actions[j].SkipAfter?) ==> after.skipAfter == tx.skipAfter)
            && (EngineAfter(tx, r) == On ==> forall k: nat | LastAllow(r, k) :: after.allow == r.actions[k].allow)
            && (!Allows(tx, r) ==> after.allow == tx.allow)
            && (EngineAfter(tx, r) != On || (forall j | 0 <= j < |r.actions| :: !r.actions[j].Interrupts()) ==>
                  after.interruption == tx.interruption)
  {
    hide RunActions, Evaluate, RaisedBy;
    var r, t := rules[i], Logged(phase, i, tx);
    EvaluateEffect(t, r);
    EvaluateKeeps(t, r);
    var s, n := Seen(t, r), |r.actions|;
    NoEffect(s, r, n);
    forall k: nat | LastSkip(r, k) ensures RunActions(s, r, n).skip == r.actions[k].count {
      SkipEffect(s, r, k, n);
    }
    forall k: nat | LastSkipAfter(r, k) ensures RunActions(s, r, n).skipAfter == r.actions[k].mark {
      SkipAfterEffect(s, r, k, n);
    }
    forall k: nat | LastAllow(r, k) && s.engine == On ensures RunActions(s, r, n).allow == r.actions[k].allow {
      AllowEffect(s, r, k, n);
    }
  }

  // ---------------------------------------------------------------- skip, from the rule on

  /** The rules i..j-1 that take part in the phase. */
  ghost function InPlayBetween(rules: seq<Rule>, vars: Vars, phase: Phase, i: nat, j: nat): set<int>
    requires j <= |rules|
  {
    set m | i <= m < j && InPlay(vars, rules[m], phase)
  }

  lemma {:induction false} CountIsCardinality(rules: seq<Rule>, vars: Vars, phase: Phase, i: nat, j: nat)
    requires i <= j <= |rules|
    ensures EligibleCount(rules, vars, phase, i, j) == |InPlayBetween(rules, vars, phase, i, j)|
    decreases j - i
  {
    hide InPlay, Eligible;
    if i == j {
      assert InPlayBetween(rules, vars, phase, i, j) == {};
    } else {
      CountIsCardinality(rules, vars, phase, i + 1, j);
      InPlayIsEligible(vars, rules[i], phase);
      var rest := InPlayBetween(rules, vars, phase, i + 1, j);
      assert InPlayBetween(rules, vars, phase, i, j) == if InPlay(vars, rules[i], phase) then {i} + rest else rest;
    }
  }

  /**
   skip:n on a matching rule: the next n rules of the phase are passed over, and the evaluation
   after this rule's is that of the rule behind them.
   */
  lemma SkipRule(rules: seq<Rule>, phase: Phase, i: nat, k: nat, j: nat, tx: Tx)
    requires Turn(rules, phase, i, tx) && i < j <= |rules|
    requires rules[i].effect(tx.vars).matched && GoesOn(phase, tx, rules[i]) && LastSkip(rules[i], k)
    requires forall a | a in rules[i].actions :: !a.SkipAfter?
    requires |InPlayBetween(rules, rules[i].effect(tx.vars).vars, phase, i + 1, j)| == rules[i].actions[k].count
    ensures var tx', after := EvalFrom(rules, phase, i, tx), EvaluateAt(rules, phase, i, tx);
            && tx' == EvalFrom(rules, phase, j, after.(skip := 0))
            && (j < |rules| && InPlay(after.vars, rules[j], phase) && !Allows(tx, rules[i]) ==>
                  && |tx'.evaluated| > |tx.evaluated| + 1
                  && tx'.evaluated[|tx.evaluated|].rule == i && tx'.evaluated[|tx.evaluated| + 1].rule == j)
  {
    hide Evaluate, EvalFrom, InPlay, Eligible, InPlayBetween, EvaluateAt;
    var after := EvaluateAt(rules, phase, i, tx);
    TurnEvaluates(rules, phase, i, tx);
    MatchLeaves(rules, phase, i, tx);
    CountIsCardinality(rules, after.vars, phase, i + 1, j);
    SkipSuppresses(rules, phase, i + 1, j, after);
    if j < |rules| && InPlay(after.vars, rules[j], phase) && !Allows(tx, rules[i]) {
      TurnEvaluates(rules, phase, j, after.(skip := 0));
    }
  }

  /** A count that the rest of the phase does not fill ends the phase. */
  lemma SkipRuleToEnd(rules: seq<Rule>, phase: Phase, i: nat, k: nat, tx: Tx)
    requires Turn(rules, phase, i, tx)
    requires rules[i].effect(tx.vars).matched && GoesOn(phase, tx, rules[i]) && LastSkip(rules[i], k)
    requires forall a | a in rules[i].actions :: !a.SkipAfter?
    requires |InPlayBetween(rules, rules[i].effect(tx.vars).vars, phase, i + 1, |rules|)| <= rules[i].actions[k].count
    ensures EvalFrom(rules, phase, i, tx).evaluated == tx.evaluated + [Evaluation(phase, i, tx.interruption.Some?, tx.vars)]
  {
    hide Evaluate, EvalFrom, InPlay, Eligible, InPlayBetween, EvaluateAt;
    var after := EvaluateAt(rules, phase, i, tx);
    TurnEvaluates(rules, phase, i, tx);
    MatchLeaves(rules, phase, i, tx);
    CountIsCardinality(rules, after.vars, phase, i + 1, |rules|);
    SkipPastEnd(rules, phase, i + 1, after);
  }

  // ---------------------------------------------------------------- skipAfter, from the rule on

  /** skipAfter:mark on a matching rule: the evaluation after this rule's is behind the next such marker. */
  lemma SkipAfterRule(rules: seq<Rule>, phase: Phase, i: nat, k: nat, j: nat, tx: Tx)
    requires Turn(rules, phase, i, tx)
    requires rules[i].effect(tx.vars).matched && GoesOn(phase, tx, rules[i])
    requires LastSkipAfter(rules[i], k) && rules[i].actions[k].mark != ""
    requires forall a | a in rules[i].actions :: !a.Skip?
    requires FirstMark(rules, rules[i].effect(tx.vars).vars, phase, i + 1, rules[i].actions[k].mark, j)
    ensures var tx', after := EvalFrom(rules, phase, i, tx), EvaluateAt(rules, phase, i, tx);
            && tx' == EvalFrom(rules, phase, j + 1, after.(skipAfter := ""))
            && (j + 1 < |rules| && InPlay(after.vars, rules[j + 1], phase) && !Allows(tx, rules[i]) ==>
                  && |tx'.evaluated| > |tx.evaluated| + 1
                  && tx'.evaluated[|tx.evaluated|].rule == i && tx'.evaluated[|tx.evaluated| + 1].rule == j + 1)
  {
    hide Evaluate, EvalFrom, InPlay, Eligible, EvaluateAt;
    var after := EvaluateAt(rules, phase, i, tx);
    TurnEvaluates(rules, phase, i, tx);
    MatchLeaves(rules, phase, i, tx);
    SkipAfterSuppresses(rules, phase, i + 1, j, after);
    if j + 1 < |rules| && InPlay(after.vars, rules[j + 1], phase) && !Allows(tx, rules[i]) {
      TurnEvaluates(rules, phase, j + 1, after.(skipAfter := ""));
    }
  }

  /** Without such a marker the phase ends with this rule, and the next phase starts looking for it. */
  lemma SkipAfterRuleToEnd(rules: seq<Rule>, phase: Phase, i: nat, k: nat, tx: Tx)
    requires Turn(rules, phase, i, tx)
    requires rules[i].effect(tx.vars).matched && GoesOn(phase, tx, rules[i])
    requires LastSkipAfter(rules[i], k) && rules[i].actions[k].mark != ""
    requires forall m | i < m < |rules| ::
               !(InPlay(rules[i].effect(tx.vars).vars, rules[m], phase) && rules[m].mark == rules[i].actions[k].mark)
    ensures var tx' := EvalFrom(rules, phase, i, tx);
            && tx'.evaluated == tx.evaluated + [Evaluation(phase, i, tx.interruption.Some?, tx.vars)]
            && tx'.skipAfter == rules[i].actions[k].mark
  {
    hide Evaluate, EvalFrom, InPlay, Eligible, EvaluateAt;
    var after := EvaluateAt(rules, phase, i, tx);
    TurnEvaluates(rules, phase, i, tx);
    MatchLeaves(rules, phase, i, tx);
    forall m | i + 1 <= m < |rules| ensures !(Eligible(after.vars, rules[m], phase) && rules[m].mark == after.skipAfter) {
      InPlayIsEligible(after.vars, rules[m], phase);
    }
    SkipAfterLeaks(rules, phase, i + 1, after);
  }

  // ---------------------------------------------------------------- allow, from the rule on

  /**
   allow on a matching rule while the engine is On: allow and allow:phase end the phase with this rule,
   allow:request ends it in the request phases and otherwise lets the next rule have its turn.
   */
  lemma AllowRule(rules: seq<Rule>, phase: Phase, i: nat, k: nat, tx: Tx)
    requires Turn(rules, phase, i, tx)
    requires rules[i].effect(tx.vars).matched && EngineAfter(tx, rules[i]) == On && LastAllow(rules[i], k)
    ensures var tx', kind := EvalFrom(rules, phase, i, tx), rules[i].actions[k].allow;
            && (kind == AllowAll || kind == AllowPhase || (kind == AllowRequest && phase <= 2) ==>
                  tx'.evaluated == tx.evaluated + [Evaluation(phase, i, tx.interruption.Some?, tx.vars)])
            && (kind == AllowAll || kind == AllowPhase || (kind == AllowRequest && phase == 1) ==> tx'.allow == kind)
    ensures var after := EvaluateAt(rules, phase, i, tx);
            && rules[i].actions[k].allow == AllowRequest && phase >= 3 && i + 1 < |rules|
            && GoesOn(phase, tx, rules[i]) && after.skip == 0 && after.skipAfter == ""
            && InPlay(after.vars, rules[i + 1], phase)
            ==> Turn(rules, phase, i + 1, after)
  {
    hide Evaluate, EvalFrom, InPlay, Eligible, EvaluateAt;
    var after, kind := EvaluateAt(rules, phase, i, tx), rules[i].actions[k].allow;
    TurnEvaluates(rules, phase, i, tx);
    MatchLeaves(rules, phase, i, tx);
    if kind == AllowAll || kind == AllowPhase || (kind == AllowRequest && phase <= 2) {
      AllowSuppresses(rules, phase, i + 1, after);
      if phase != 2 || kind != AllowRequest {
        AllowOutlives(rules, phase, i + 1, after);
      }
    }
  }

  // ---------------------------------------------------------------- interruption, from the rule on

  /**
   deny, drop and redirect on a matching rule while the engine is On: outside the logging phase the
   phase ends with this rule, interrupted by what its last disruptive action raises.
   */
  lemma InterruptRule(rules: seq<Rule>, phase: Phase, i: nat, k: nat, tx: Tx)
    requires Turn(rules, phase, i, tx) && phase != 5
    requires rules[i].effect(tx.vars).matched && EngineAfter(tx, rules[i]) == On && LastInterrupting(rules[i], k)
    ensures var tx' := EvalFrom(rules, phase, i, tx);
            && tx'.evaluated == tx.evaluated + [Evaluation(phase, i, false, tx.vars)]
            && tx'.interruption.Some? && RaisedBy(rules[i], rules[i].actions[k], tx'.interruption.value)
  {
    hide Evaluate, RunActions, InPlay, Eligible, RaisedBy;
    var r, t := rules[i], Logged(phase, i, tx);
    TurnEvaluates(rules, phase, i, tx);
    EvaluateEffect(t, r);
    EvaluateKeeps(t, r);
    EnforcedEffect(Seen(t, r), r, k, |r.actions|);
    EvalFromInOrder(rules, phase, i + 1, EvaluateAt(rules, phase, i, tx));
  }

  /** In DetectionOnly the same rule leaves the transaction uninterrupted and notes the first such interruption. */
  lemma DetectRule(rules: seq<Rule>, phase: Phase, i: nat, k: nat, tx: Tx)
    requires Turn(rules, phase, i, tx) && tx.detected.None?
    requires rules[i].effect(tx.vars).matched && EngineAfter(tx, rules[i]) == DetectionOnly
    requires k < |rules[i].actions| && rules[i].actions[k].Interrupts()
    requires forall j | 0 <= j < k :: !rules[i].actions[j].Interrupts()
    ensures EvaluateAt(rules, phase, i, tx).interruption == tx.interruption
    ensures var tx' := EvalFrom(rules, phase, i, tx);
            tx'.detected.Some? && RaisedBy(rules[i], rules[i].actions[k], tx'.detected.value)
  {
    hide Evaluate, RunActions, InPlay, Eligible, RaisedBy;
    var r, t := rules[i], Logged(phase, i, tx);
    TurnEvaluates(rules, phase, i, tx);
    EvaluateEffect(t, r);
    DetectedEffect(Seen(t, r), r, k, |r.actions|);
    NoEffect(Seen(t, r), r, |r.actions|);
    EvalFromInOrder(rules, phase, i + 1, EvaluateAt(rules, phase, i, tx));
  }

  // ---------------------------------------------------------------- a phase without flow control

  /** No rule controls the flow, and none interrupts or allows: by its actions, or because the engine is never On. */
  ghost predicate FlowFree(rules: seq<Rule>, engine: Engine) {
    && (forall r | r in rules :: NoSkips(r))
    && ((forall r | r in rules :: NoDisruption(r)) || (engine != On && forall r | r in rules :: NeverOn(r)))
  }

  ghost predicate NoSkips(r: Rule) {
    forall i | 0 <= i < |r.actions| :: !r.actions[i].Skip? && !r.actions[i].SkipAfter?
  }

  ghost predicate NoDisruption(r: Rule) {
    forall i | 0 <= i < |r.actions| :: !r.actions[i].Interrupts() && !r.actions[i].Allow?
  }

  ghost predicate NeverOn(r: Rule) {
    forall v :: r.effect(v).engine != Some(On)
  }

  /** The variables when rule `m` has its turn, if every rule in play before it has been evaluated. */
  ghost function VarsAt(rules: seq<Rule>, phase: Phase, vars: Vars, m: nat): Vars
    requires m <= |rules|
  {
    if m == 0 then vars
    else
      var v := VarsAt(rules, phase, vars, m - 1);
      if InPlay(v, rules[m - 1], phase) then rules[m - 1].effect(v).vars else v
  }

  /** The evaluations of all rules in play among the first `m`, in order. */
  ghost function AllInPlay(rules: seq<Rule>, phase: Phase, vars: Vars, interrupted: bool, m: nat): seq<Evaluation>
    requires m <= |rules|
  {
    if m == 0 then []
    else
      var v := VarsAt(rules, phase, vars, m - 1);
      AllInPlay(rules, phase, vars, interrupted, m - 1) +
      if InPlay(v, rules[m - 1], phase) then [Evaluation(phase, m - 1, interrupted, v)] else []
  }

  /** Every rule in play is in that list, with the variables of its turn. */
  lemma {:induction false} AllInPlayHolds(rules: seq<Rule>, phase: Phase, vars: Vars, interrupted: bool, m: nat, n: nat)
    requires n < m <= |rules| && InPlay(VarsAt(rules, phase, vars, n), rules[n], phase)
    ensures Evaluation(phase, n, interrupted, VarsAt(rules, phase, vars, n)) in AllInPlay(rules, phase, vars, interrupted, m)
  {
    hide InPlay, VarsAt;
    if n < m - 1 {
      AllInPlayHolds(rules, phase, vars, interrupted, m - 1, n);
    }
  }

  /** No other is in it. */
  lemma {:induction false} AllInPlayOnly(rules: seq<Rule>, phase: Phase, vars: Vars, interrupted: bool, m: nat, e: Evaluation)
    requires m <= |rules| && e in AllInPlay(rules, phase, vars, interrupted, m)
    ensures e.rule < m && e == Evaluation(phase, e.rule, interrupted, VarsAt(rules, phase, vars, e.rule))
    ensures InPlay(e.vars, rules[e.rule], phase)
  {
    hide InPlay, VarsAt;
    if e in AllInPlay(rules, phase, vars, interrupted, m - 1) {
      AllInPlayOnly(rules, phase, vars, interrupted, m - 1, e);
    }
  }

  /** And each is in it once, in the order of the rules. */
  lemma {:induction false} AllInPlayInOrder(rules: seq<Rule>, phase: Phase, vars: Vars, interrupted: bool, m: nat, j: nat, k: nat)
    requires m <= |rules| && j < k < |AllInPlay(rules, phase, vars, interrupted, m)|
    ensures var l := AllInPlay(rules, phase, vars, interrupted, m); l[j].rule < l[k].rule
  {
    hide InPlay, VarsAt;
    var l := AllInPlay(rules, phase, vars, interrupted, m - 1);
    if k < |l| {
      AllInPlayInOrder(rules, phase, vars, interrupted, m - 1, j, k);
    } else {
      AllInPlayOnly(rules, phase, vars, interrupted, m - 1, l[j]);
    }
  }

  lemma FlowFreeStep(rules: seq<Rule>, phase: Phase, i: nat, tx: Tx)
    requires Turn(rules, phase, i, tx) && FlowFree(rules, tx.engine)
    ensures var after := EvaluateAt(rules, phase, i, tx);
            && Running(phase, after) && FlowFree(rules, after.engine) && after.allow == tx.allow
            && after.interruption == tx.interruption && after.vars == rules[i].effect(tx.vars).vars
            && after.evaluated == tx.evaluated + [Evaluation(phase, i, tx.interruption.Some?, tx.vars)]
  {
    hide Evaluate, RunActions, InPlay;
    var r := rules[i];
    assert NoSkips(r) && (NoDisruption(r) || NeverOn(r));
    if !(forall q | q in rules :: NoDisruption(q)) {
      assert NeverOn(r) && r.effect(tx.vars).engine != Some(On);
      assert EngineAfter(tx, r) != On;
    }
    EvaluateEffect(Logged(phase, i, tx), r);
    if r.effect(tx.vars).matched {
      MatchLeaves(rules, phase, i, tx);
    }
  }

  lemma {:induction false} FlowFreeFrom(rules: seq<Rule>, phase: Phase, i: nat, start: Tx, tx: Tx)
    requires i <= |rules| && phase > 0 && Running(phase, tx) && FlowFree(rules, tx.engine)
    requires tx.vars == VarsAt(rules, phase, start.vars, i) && tx.interruption == start.interruption
    requires tx.evaluated == start.evaluated + AllInPlay(rules, phase, start.vars, start.interruption.Some?, i)
    ensures var tx', n := EvalFrom(rules, phase, i, tx), |rules|;
            && tx'.vars == VarsAt(rules, phase, start.vars, n) && tx'.interruption == start.interruption
            && tx'.evaluated == start.evaluated + AllInPlay(rules, phase, start.vars, start.interruption.Some?, n)
            && Running(phase, tx') && FlowFree(rules, tx'.engine) && tx'.allow == tx.allow
    decreases |rules| - i
  {
    hide InPlay, Eligible, EvaluateAt, FlowFree;
    if i < |rules| {
      InPlayIsEligible(tx.vars, rules[i], phase);
      if InPlay(tx.vars, rules[i], phase) {
        TurnEvaluates(rules, phase, i, tx);
        FlowFreeStep(rules, phase, i, tx);
        FlowFreeFrom(rules, phase, i + 1, start, EvaluateAt(rules, phase, i, tx));
      } else {
        NotInPlay(rules, phase, i, tx);
        FlowFreeFrom(rules, phase, i + 1, start, tx);
      }
    }
  }

  /** A rule that is not in play is passed over without a trace. */
  lemma NotInPlay(rules: seq<Rule>, phase: Phase, i: nat, tx: Tx)
    requires i < |rules| && (tx.interruption.None? || phase == 5) && !InPlay(tx.vars, rules[i], phase)
    ensures EvalFrom(rules, phase, i, tx) == EvalFrom(rules, phase, i + 1, tx)
  {
    hide InPlay, EvaluateAt;
    InPlayIsEligible(tx.vars, rules[i], phase);
  }

  /** A phase that starts with nothing to skip, and whose rules do not control the flow, evaluates every rule in play. */
  lemma CompletePhase(rules: seq<Rule>, phase: Phase, tx: Tx)
    requires phase > 0 && Running(phase, tx) && FlowFree(rules, tx.engine)
    ensures var tx', n := Eval(rules, phase, tx), |rules|;
            && tx'.evaluated == tx.evaluated + AllInPlay(rules, phase, tx.vars, tx.interruption.Some?, n)
            && tx'.vars == VarsAt(rules, phase, tx.vars, n) && tx'.interruption == tx.interruption
            && tx'.lastPhase == phase && Running(phase, tx') && FlowFree(rules, tx'.engine) && tx'.allow == tx.allow
  {
    hide InPlay, FlowFree;
    FlowFreeFrom(rules, phase, 0, tx, tx.(lastPhase := phase));
    EvalFromInOrder(rules, phase, 0, tx.(lastPhase := phase));
  }

  /** Whatever the rules do: the first rule in play of such a phase is evaluated first, on the variables the phase starts with. */
  lemma FirstEvaluation(rules: seq<Rule>, phase: Phase, i: nat, tx: Tx)
    requires phase > 0 && Running(phase, tx) && i < |rules| && InPlay(tx.vars, rules[i], phase)
    requires forall m | 0 <= m < i :: !InPlay(tx.vars, rules[m], phase)
    ensures var tx' := Eval(rules, phase, tx);
            && tx.evaluated < tx'.evaluated
            && tx'.evaluated[|tx.evaluated|] == Evaluation(phase, i, tx.interruption.Some?, tx.vars)
  {
    hide InPlay, EvalFrom;
    var t := tx.(lastPhase := phase);
    Reaches(rules, phase, 0, i, t);
    TurnEvaluates(rules, phase, i, t);
  }

  lemma {:induction false} Reaches(rules: seq<Rule>, phase: Phase, i: nat, j: nat, tx: Tx)
    requires i <= j <= |rules| && (tx.interruption.None? || phase == 5)
    requires forall m | i <= m < j :: !InPlay(tx.vars, rules[m], phase)
    ensures EvalFrom(rules, phase, i, tx) == EvalFrom(rules, phase, j, tx)
    decreases j - i
  {
    hide InPlay, EvalFrom;
    if i < j {
      NotInPlay(rules, phase, i, tx);
      Reaches(rules, phase, i + 1, j, tx);
    }
  }
}
