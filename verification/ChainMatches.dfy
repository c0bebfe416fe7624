/**
 Enumerating the matched chains of a rule (internal/corazawaf/rule_multiphase.go): every way of
 taking one matched value per chain level, and the check that such a chain has matched before.
 */
module ChainMatches {

  datatype MatchData = MatchData(variable: nat, key: string, value: string, chainLevel: nat)

  // ---------------------------------------------------------------- reference

  /** The matched values of one chain level, in order. */
  function Level(values: seq<MatchData>, level: nat): seq<MatchData> {
    if values == [] then []
    else (if values[0].chainLevel == level then [values[0]] else []) + Level(values[1..], level)
  }

  /** Every choice from `firsts` in front of every chain of `rest`, in lexicographic order. */
  function Times(firsts: seq<MatchData>, rest: seq<seq<MatchData>>): (r: seq<seq<MatchData>>)
    ensures |r| == |firsts| * |rest|
  {
    if firsts == [] then [] else Prepend([firsts[0]], rest) + Times(firsts[1..], rest)
  }

  function Prepend(prefix: seq<MatchData>, chains: seq<seq<MatchData>>): (r: seq<seq<MatchData>>)
    ensures |r| == |chains|
    ensures forall i | 0 <= i < |r| :: r[i] == prefix + chains[i]
  {
    seq(|chains|, i requires 0 <= i < |chains| => prefix + chains[i])
  }

  /** The cartesian product of the levels depth..final. */
  function Product(values: seq<MatchData>, depth: nat, final: nat): seq<seq<MatchData>>
    decreases final + 1 - depth
  {
    if depth > final then [[]] else Times(Level(values, depth), Product(values, depth + 1, final))
  }

  /** The product of the level sizes. */
  function ProductSize(values: seq<MatchData>, depth: nat, final: nat): nat
    decreases final + 1 - depth
  {
    if depth > final then 1 else |Level(values, depth)| * ProductSize(values, depth + 1, final)
  }

  /** `chain` takes one matched value from each level depth..final. */
  predicate OnePerLevel(values: seq<MatchData>, depth: nat, final: nat, chain: seq<MatchData>) {
    && |chain| == (if depth > final then 0 else final + 1 - depth)
    && forall i | 0 <= i < |chain| :: chain[i] in values && chain[i].chainLevel == depth + i
  }

  lemma {:induction false} LevelMembers(values: seq<MatchData>, level: nat, m: MatchData)
    ensures m in Level(values, level) <==> m in values && m.chainLevel == level
  {
    if values != [] {
      LevelMembers(values[1..], level, m);
      assert values == [values[0]] + values[1..];
    }
  }

  lemma {:induction false} TimesMembers(firsts: seq<MatchData>, rest: seq<seq<MatchData>>, c: seq<MatchData>)
    ensures c in Times(firsts, rest) <==> c != [] && c[0] in firsts && c[1..] in rest
  {
    if firsts != [] {
      TimesMembers(firsts[1..], rest, c);
      assert firsts == [firsts[0]] + firsts[1..];
      var front := Prepend([firsts[0]], rest);
      if c in front {
        var i :| 0 <= i < |front| && front[i] == c;
        assert c[1..] == rest[i];
      }
      if c != [] && c[0] == firsts[0] && c[1..] in rest {
        var i :| 0 <= i < |rest| && rest[i] == c[1..];
        assert front[i] == [c[0]] + c[1..] == c;
      }
    }
  }

  /** The product holds exactly the chains with one value per level. */
  lemma {:induction false} ProductMembers(values: seq<MatchData>, depth: nat, final: nat, c: seq<MatchData>)
    ensures c in Product(values, depth, final) <==> OnePerLevel(values, depth, final, c)
    decreases final + 1 - depth
  {
    if depth > final {
      assert Product(values, depth, final) == [[]];
    } else {
      TimesMembers(Level(values, depth), Product(values, depth + 1, final), c);
      if c != [] {
        LevelMembers(values, depth, c[0]);
        ProductMembers(values, depth + 1, final, c[1..]);
        if OnePerLevel(values, depth + 1, final, c[1..]) {
          assert forall i | 1 <= i < |c| :: c[i] == c[1..][i - 1];
        }
      }
    }
  }

  /** As many chains as the product of the level sizes. */
  lemma {:induction false} ProductCount(values: seq<MatchData>, depth: nat, final: nat)
    ensures |Product(values, depth, final)| == ProductSize(values, depth, final)
    decreases final + 1 - depth
  {
    if depth <= final {
      ProductCount(values, depth + 1, final);
    }
  }

  // ---------------------------------------------------------------- the code

  /** The largest chain level, and zero without any match. */
  function MaxLevel(values: seq<MatchData>): nat {
    if values == [] then 0
    else
      var rest := MaxLevel(values[..|values| - 1]);
      if values[|values| - 1].chainLevel > rest then values[|values| - 1].chainLevel else rest
  }

  lemma {:induction false} MaxLevelBounds(values: seq<MatchData>)
    ensures forall i | 0 <= i < |values| :: values[i].chainLevel <= MaxLevel(values)
    ensures values == [] || exists i | 0 <= i < |values| :: values[i].chainLevel == MaxLevel(values)
  {
    if values != [] {
      var init := values[..|values| - 1];
      MaxLevelBounds(init);
      assert forall i | 0 <= i < |init| :: init[i] == values[i];
      if MaxLevel(values) != values[|values| - 1].chainLevel && init != [] {
        var i :| 0 <= i < |init| && init[i].chainLevel == MaxLevel(init);
        assert values[i].chainLevel == MaxLevel(values);
      }
    }
  }

  method MatchedChainDepth(datas: seq<MatchData>) returns (depth: nat)
    ensures depth == MaxLevel(datas)
  {
    depth := 0;
    for i := 0 to |datas|
      invariant depth == MaxLevel(datas[..i])
    {
      assert datas[..i + 1][..i] == datas[..i];
      if datas[i].chainLevel > depth {
        depth := datas[i].chainLevel;
      }
    }
    assert datas[..|datas|] == datas;
  }

  /** generateChainMatches: appends, in order, every completion of the chain built so far. */
  method GenerateChainMatches(
    values: seq<MatchData>, currentDepth: nat, building: seq<MatchData>, result: seq<seq<MatchData>>)
    returns (result': seq<seq<MatchData>>)
    requires currentDepth <= MaxLevel(values)
    ensures result' == result + Prepend(building, Product(values, currentDepth, MaxLevel(values)))
    decreases MaxLevel(values) - currentDepth
  {
    hide Times, Level, Prepend, Product;
    var finalDepth := MatchedChainDepth(values);
    result' := result;
    NothingDone(values, currentDepth, building);
    for i := 0 to |values|
      invariant result' == result + Done(values[..i], values, currentDepth, building)
    {
      var mv := values[i];
      assert values[..i + 1] == values[..i] + [mv];
      OneMore(values[..i], mv, values, currentDepth, building);
      if mv.chainLevel == currentDepth {
        var local := building + [mv];
        if mv.chainLevel == finalDepth {
          PrependToEmptyChain(values, local, finalDepth);
          result' := result' + [local];
          continue;
        }
        result' := GenerateChainMatches(values, currentDepth + 1, local, result');
      }
    }
    assert values[..|values|] == values;
    AllDone(values, currentDepth, building);
  }

  /** The completions contributed by the values of `seen` at level `depth`. */
  ghost function Done(
    seen: seq<MatchData>, values: seq<MatchData>, depth: nat, building: seq<MatchData>): seq<seq<MatchData>>
  {
    Prepend(building, Times(Level(seen, depth), Product(values, depth + 1, MaxLevel(values))))
  }

  lemma NothingDone(values: seq<MatchData>, depth: nat, building: seq<MatchData>)
    ensures Done(values[..0], values, depth, building) == []
  {
  }

  lemma AllDone(values: seq<MatchData>, depth: nat, building: seq<MatchData>)
    requires depth <= MaxLevel(values)
    ensures Done(values, values, depth, building) == Prepend(building, Product(values, depth, MaxLevel(values)))
  {
  }

  lemma PrependToEmptyChain(values: seq<MatchData>, prefix: seq<MatchData>, final: nat)
    ensures Prepend(prefix, Product(values, final + 1, final)) == [prefix]
  {
    assert prefix + [] == prefix;
  }

  /** The whole enumeration: exactly the chains with one value per level, each as often as it can be formed. */
  method AllChains(values: seq<MatchData>) returns (chains: seq<seq<MatchData>>)
    ensures chains == Product(values, 0, MaxLevel(values))
    ensures forall c :: c in chains <==> OnePerLevel(values, 0, MaxLevel(values), c)
    ensures |chains| == ProductSize(values, 0, MaxLevel(values))
  {
    chains := GenerateChainMatches(values, 0, [], []);
    var product := Product(values, 0, MaxLevel(values));
    assert forall i | 0 <= i < |product| :: [] + product[i] == product[i];
    assert chains == product;
    forall c ensures c in chains <==> OnePerLevel(values, 0, MaxLevel(values), c) {
      ProductMembers(values, 0, MaxLevel(values), c);
    }
    ProductCount(values, 0, MaxLevel(values));
  }

  lemma {:induction false} LevelAppend(values: seq<MatchData>, mv: MatchData, level: nat)
    ensures Level(values + [mv], level) == if mv.chainLevel == level then Level(values, level) + [mv] else Level(values, level)
  {
    assert (values + [mv])[0] == if values == [] then mv else values[0];
    if values == [] {
      assert (values + [mv])[1..] == [];
    } else {
      LevelAppend(values[1..], mv, level);
      assert (values + [mv])[1..] == values[1..] + [mv];
    }
  }

  lemma {:induction false} TimesAppend(firsts: seq<MatchData>, mv: MatchData, rest: seq<seq<MatchData>>)
    ensures Times(firsts + [mv], rest) == Times(firsts, rest) + Prepend([mv], rest)
  {
    if firsts == [] {
      assert firsts + [mv] == [mv];
      assert Times([mv][1..], rest) == [];
    } else {
      TimesAppend(firsts[1..], mv, rest);
      assert (firsts + [mv])[1..] == firsts[1..] + [mv];
    }
  }

  /** One more value at the current level contributes its completions at the end; others contribute nothing. */
  lemma OneMore(seen: seq<MatchData>, mv: MatchData, values: seq<MatchData>, depth: nat, building: seq<MatchData>)
    ensures Done(seen + [mv], values, depth, building) ==
            Done(seen, values, depth, building) +
            if mv.chainLevel == depth then Prepend(building + [mv], Product(values, depth + 1, MaxLevel(values))) else []
  {
    LevelAppend(seen, mv, depth);
    if mv.chainLevel == depth {
      var firsts, rest := Level(seen, depth), Product(values, depth + 1, MaxLevel(values));
      TimesAppend(firsts, mv, rest);
      var front, back := Times(firsts, rest), Prepend([mv], rest);
      forall i | 0 <= i < |rest| ensures building + back[i] == (building + [mv]) + rest[i] {
      }
      assert Prepend(building, front + back) == Prepend(building, front) + Prepend(building, back);
      assert Prepend(building, back) == Prepend(building + [mv], rest);
    }
  }

  predicate SameMatch(a: MatchData, b: MatchData) {
    a.variable == b.variable && a.value == b.value
  }

  /** `b` repeats `a` at every position of `a`. */
  predicate Repeats(a: seq<MatchData>, b: seq<MatchData>)
    requires |a| <= |b|
  {
    forall n | 0 <= n < |a| :: SameMatch(a[n], b[n])
  }

  /** chainPartOf; the index into an old chain is in range because all chains are equally deep. */
  method ChainPartOf(newChain: seq<MatchData>, chains: seq<seq<MatchData>>) returns (found: bool)
    requires forall c | c in chains :: |newChain| <= |c|
    ensures found <==> exists i | 0 <= i < |chains| :: Repeats(newChain, chains[i])
  {
    for i := 0 to |chains|
      invariant forall j | 0 <= j < i :: !Repeats(newChain, chains[j])
    {
      assert chains[i] in chains;
      var different := false;
      for n := 0 to |newChain|
        invariant !different ==> forall m | 0 <= m < n :: SameMatch(newChain[m], chains[i][m])
        invariant !different
      {
        if newChain[n].variable != chains[i][n].variable || newChain[n].value != chains[i][n].value {
          different := true;
          assert !SameMatch(newChain[n], chains[i][n]);
          break;
        }
      }
      if !different {
        return true;
      }
    }
    return false;
  }

  datatype MatchedRule = MatchedRule(id: int, datas: seq<MatchData>)

  /** `rule` already matched, at the same depth, a chain that the collected values form again. */
  ghost predicate AlreadyMatched(rule: MatchedRule, parentID: int, collected: seq<MatchData>) {
    && rule.id == parentID
    && MaxLevel(rule.datas) == MaxLevel(collected)
    && exists c, d :: OnePerLevel(collected, 0, MaxLevel(collected), c) &&
                      OnePerLevel(rule.datas, 0, MaxLevel(rule.datas), d) && |c| == |d| && Repeats(c, d)
  }

  /**
   isMultiphaseDoubleEvaluation: true exactly when some chain of the collected values repeats a chain
   matched before; then the new value is taken back, otherwise it stays collected.
   */
  method IsDoubleEvaluation(
    matchedRules: seq<MatchedRule>, parentID: int, collected: seq<MatchData>, mr: MatchData)
    returns (double: bool, collected': seq<MatchData>)
    ensures double <==> exists i | 0 <= i < |matchedRules| :: AlreadyMatched(matchedRules[i], parentID, collected + [mr])
    ensures collected' == if double then collected else collected + [mr]
  {
    collected' := collected + [mr];
    for i := 0 to |matchedRules|
      invariant collected' == collected + [mr]
      invariant forall j | 0 <= j < i :: !AlreadyMatched(matchedRules[j], parentID, collected')
    {
      var rule := matchedRules[i];
      var oldDepth := MatchedChainDepth(rule.datas);
      var newDepth := MatchedChainDepth(collected');
      if rule.id == parentID && oldDepth == newDepth {
        var again := AnyChainAgain(rule.datas, collected');
        AgainMeansAlreadyMatched(rule, parentID, collected');
        if again {
          collected' := collected'[..|collected'| - 1];
          assert collected' == collected;
          return true, collected';
        }
      }
    }
    return false, collected';
  }

  ghost predicate ChainAgain(earlier: seq<MatchData>, collected: seq<MatchData>) {
    exists c, d :: c in Product(collected, 0, MaxLevel(collected)) && d in Product(earlier, 0, MaxLevel(earlier)) &&
                   |c| == |d| && Repeats(c, d)
  }

  lemma AgainMeansAlreadyMatched(rule: MatchedRule, parentID: int, collected: seq<MatchData>)
    requires rule.id == parentID && MaxLevel(rule.datas) == MaxLevel(collected)
    ensures ChainAgain(rule.datas, collected) <==> AlreadyMatched(rule, parentID, collected)
  {
    forall c {
      ProductMembers(collected, 0, MaxLevel(collected), c);
    }
    forall d {
      ProductMembers(rule.datas, 0, MaxLevel(rule.datas), d);
    }
  }

  /** Enumerates both sets of chains and looks for a repetition. */
  method AnyChainAgain(earlier: seq<MatchData>, collected: seq<MatchData>) returns (again: bool)
    requires MaxLevel(earlier) == MaxLevel(collected)
    ensures again <==> ChainAgain(earlier, collected)
  {
    hide Product, ProductSize;
    var oldChains := AllChains(earlier);
    var newChains := AllChains(collected);
    again := SomeRepeats(newChains, oldChains, MaxLevel(earlier) + 1);
    if again {
      var c, d :| c in newChains && d in oldChains && |c| == |d| && Repeats(c, d);
    }
  }

  /** Some new chain repeats an old one; all of them have the same length. */
  method SomeRepeats(newChains: seq<seq<MatchData>>, oldChains: seq<seq<MatchData>>, length: nat) returns (found: bool)
    requires forall c | c in newChains :: |c| == length
    requires forall d | d in oldChains :: |d| == length
    ensures found <==> exists c, d :: c in newChains && d in oldChains && |c| == |d| && Repeats(c, d)
  {
    for i := 0 to |newChains|
      invariant forall j | 0 <= j < i :: NoneRepeats(newChains[j], oldChains)
    {
      assert newChains[i] in newChains;
      found := ChainPartOf(newChains[i], oldChains);
      if found {
        var k :| 0 <= k < |oldChains| && Repeats(newChains[i], oldChains[k]);
        assert oldChains[k] in oldChains;
        return;
      }
    }
    forall c, d | c in newChains && d in oldChains && |c| == |d| ensures !Repeats(c, d) {
      var j :| 0 <= j < |newChains| && newChains[j] == c;
      assert NoneRepeats(newChains[j], oldChains);
    }
    return false;
  }

  ghost predicate NoneRepeats(c: seq<MatchData>, chains: seq<seq<MatchData>>) {
    forall d | d in chains && |c| <= |d| :: !Repeats(c, d)
  }
}
