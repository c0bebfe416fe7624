/**
 Interned transformation chains (internal/corazawaf/rule.go): a chain of transformation names is
 identified by a number, and two chains share a number only if they are the same chain.
 */
module Interning {

  /** The name under which a chain is interned: every name behind a plus sign. */
  function ChainName(names: seq<string>): string {
    if names == [] then "" else "+" + names[0] + ChainName(names[1..])
  }

  predicate NoPlus(names: seq<string>) {
    forall i | 0 <= i < |names| :: '+' !in names[i]
  }

  lemma {:induction false} ChainNameAppend(names: seq<string>, name: string)
    ensures ChainName(names + [name]) == ChainName(names) + "+" + name
  {
    if names == [] {
      assert names + [name] == [name];
      assert ChainName([name][1..]) == "";
      assert ChainName([name]) == "+" + name + "";
    } else {
      ChainNameAppend(names[1..], name);
      assert (names + [name])[1..] == names[1..] + [name];
      assert "+" + names[0] + (ChainName(names[1..]) + "+" + name) == "+" + names[0] + ChainName(names[1..]) + "+" + name;
    }
  }

  lemma LongerNameHasPlus(a: string, x: string, b: string, y: string)
    requires a + x == b + y && |a| < |b| && (x == "" || x[0] == '+')
    ensures '+' in b
  {
    assert (a + x)[|a|] == x[0] && (b + y)[|a|] == b[|a|];
  }

  /** A name without a plus sign ends where the next plus sign, or the text, does. */
  lemma FirstNameDetermined(a: string, x: string, b: string, y: string)
    requires a + x == b + y
    requires '+' !in a && '+' !in b
    requires (x == "" || x[0] == '+') && (y == "" || y[0] == '+')
    ensures a == b && x == y
  {
    if |a| < |b| {
      LongerNameHasPlus(a, x, b, y);
    } else if |b| < |a| {
      LongerNameHasPlus(b, y, a, x);
    }
    assert a == (a + x)[..|a|] && b == (b + y)[..|b|];
    assert x == (a + x)[|a|..] && y == (b + y)[|b|..];
  }

  /** Chains of plus-free names are told apart by their interned name. */
  lemma {:induction false} ChainNameInjective(xs: seq<string>, ys: seq<string>)
    requires NoPlus(xs) && NoPlus(ys) && ChainName(xs) == ChainName(ys)
    ensures xs == ys
  {
    if xs != [] && ys != [] {
      var cx, cy := ChainName(xs), ChainName(ys);
      assert cx[1..] == xs[0] + ChainName(xs[1..]) && cy[1..] == ys[0] + ChainName(ys[1..]);
      FirstNameDetermined(xs[0], ChainName(xs[1..]), ys[0], ChainName(ys[1..]));
      ChainNameInjective(xs[1..], ys[1..]);
      assert xs == [xs[0]] + xs[1..] && ys == [ys[0]] + ys[1..];
    }
  }

  /** A plus sign with something on either side of it. */
  predicate InnerPlus(name: string) {
    exists i | 0 < i < |name| - 1 :: name[i] == '+'
  }

  predicate NonEmptyNames(names: seq<string>) {
    forall i | 0 <= i < |names| :: names[i] != ""
  }

  /** Some other chain of non-empty names is interned under the same name as the single `name`. */
  ghost predicate Confusable(name: string) {
    exists names: seq<string> :: NonEmptyNames(names) && names != [name] && ChainName(names) == ChainName([name])
  }

  /** Exactly the names with an inner plus sign can be confused with a longer chain. */
  lemma ConfusableExactly(name: string)
    requires name != ""
    ensures Confusable(name) <==> InnerPlus(name)
  {
    assert ChainName([name][1..]) == "" && ChainName([name]) == "+" + name;
    if InnerPlus(name) {
      var i :| 0 < i < |name| - 1 && name[i] == '+';
      var a, b := name[..i], name[i + 1..];
      var names := [a, b];
      assert ChainName(names[1..][1..]) == "" && ChainName(names[1..]) == "+" + b;
      assert ChainName(names) == "+" + a + ("+" + b);
      assert name == a + ("+" + b);
      assert NonEmptyNames(names) && names != [name];
    }
    if Confusable(name) {
      var names: seq<string> :| NonEmptyNames(names) && names != [name] && ChainName(names) == ChainName([name]);
      OtherChainHasInnerPlus(names, name);
    }
  }

  /** Some other chain of non-empty names is interned under the same name as this chain. */
  ghost predicate ChainConfusable(names: seq<string>) {
    exists others: seq<string> :: NonEmptyNames(others) && others != names && ChainName(others) == ChainName(names)
  }

  /**
   For chains: as long as any non-empty string may be a transformation's name, a chain is
   unmistakable only if it is a single name without an inner plus sign, or empty.
   */
  lemma ChainConfusableExactly(names: seq<string>)
    requires NonEmptyNames(names)
    ensures ChainConfusable(names) <==> |names| >= 2 || (|names| == 1 && InnerPlus(names[0]))
  {
    if |names| == 0 {
      forall others: seq<string> | NonEmptyNames(others) && ChainName(others) == "" ensures others == [] {
      }
    } else if |names| == 1 {
      assert names == [names[0]];
      ConfusableExactly(names[0]);
      assert ChainConfusable(names) <==> Confusable(names[0]);
    } else {
      var whole := ChainName(names)[1..];
      assert ChainName([whole][1..]) == "" && ChainName([whole]) == "+" + whole == ChainName(names);
      assert names[0] != "" && ChainName(names)[1] == names[0][0];
      assert NonEmptyNames([whole]) && [whole] != names;
    }
  }

  /** Plus signs at the edges of names suffice: no inner one is needed for two chains to collide. */
  lemma EdgePlusCollides()
    ensures ChainName(["a", "+b"]) == ChainName(["a+", "b"])
    ensures !InnerPlus("a") && !InnerPlus("+b") && !InnerPlus("a+") && !InnerPlus("b")
  {
    var xs, ys := ["a", "+b"], ["a+", "b"];
    assert ChainName(xs[1..][1..]) == "" && ChainName(ys[1..][1..]) == "";
    assert ChainName(xs[1..]) == "+" + "+b" + "" && ChainName(ys[1..]) == "+" + "b" + "";
    assert ChainName(xs) == "+a++b" == ChainName(ys);
  }

  lemma SingleName(names: seq<string>, name: string)
    requires |names| == 1 && ChainName(names) == "+" + name
    ensures names == [name]
  {
    assert names[1..] == [] && ("+" + names[0] + "")[1..] == names[0] && ("+" + name)[1..] == name;
  }

  lemma OtherChainHasInnerPlus(names: seq<string>, name: string)
    requires NonEmptyNames(names) && names != [name] && ChainName(names) == "+" + name
    ensures InnerPlus(name)
  {
    var rest := ChainName(names[1..]);
    assert ("+" + name)[1..] == name && ("+" + names[0] + rest)[1..] == names[0] + rest;
    if |names| == 1 {
      SingleName(names, name);
    } else {
      assert rest == "+" + names[1] + ChainName(names[1..][1..]);
      assert name[|names[0]|] == '+';
    }
  }

  /** The global tables transformationIDToName and transformationNameToID. */
  class TransformationTable {
    var idToName: seq<string>
    var nameToID: map<string, nat>

    /** The two tables are inverse to each other, and 0 is the empty chain. */
    ghost predicate Valid()
      reads this
    {
      && |idToName| > 0
      && idToName[0] == ""
      && (forall id | 0 <= id < |idToName| :: idToName[id] in nameToID && nameToID[idToName[id]] == id)
      && (forall name | name in nameToID :: nameToID[name] < |idToName| && idToName[nameToID[name]] == name)
    }

    constructor ()
      ensures Valid() && idToName == [""]
    {
      idToName := [""];
      nameToID := map["" := 0];
    }

    /** The number of the chain `currentID` extended by `name`, assigned now or earlier; no number changes. */
    method TransformationID(currentID: nat, name: string) returns (id: nat)
      requires Valid() && currentID < |idToName|
      modifies this
      ensures Valid()
      ensures old(idToName) <= idToName
      ensures id < |idToName| && idToName[id] == old(idToName)[currentID] + "+" + name
    {
      var nextName := idToName[currentID] + "+" + name;
      if nextName in nameToID {
        return nameToID[nextName];
      }
      id := |idToName|;
      idToName := idToName + [nextName];
      nameToID := nameToID[nextName := id];
    }
  }

  /** A rule's transformations: their names, their own numbers, and the numbers of the chain's prefixes. */
  datatype Chain = Chain(names: seq<string>, ids: seq<nat>, prefixIDs: seq<nat>) {
    ghost predicate InternedIn(idToName: seq<string>) {
      && |ids| == |names| && |prefixIDs| == |names|
      && (forall i | 0 <= i < |names| :: ids[i] < |idToName| && idToName[ids[i]] == ChainName([names[i]]))
      && (forall i | 0 <= i < |names| :: prefixIDs[i] < |idToName| && idToName[prefixIDs[i]] == ChainName(names[..i + 1]))
    }
  }

  /** AddTransformation: interns the transformation and the extended chain; the empty name is refused. */
  method AddTransformation(table: TransformationTable, chain: Chain, name: string)
    returns (chain': Chain, ok: bool)
    requires table.Valid() && chain.InternedIn(table.idToName)
    modifies table
    ensures table.Valid() && old(table.idToName) <= table.idToName
    ensures ok <==> name != ""
    ensures chain'.InternedIn(table.idToName)
    ensures chain'.names == if ok then chain.names + [name] else chain.names
  {
    if name == "" {
      return chain, false;
    }
    var id := table.TransformationID(0, name);
    var current := if chain.prefixIDs == [] then 0 else chain.prefixIDs[|chain.prefixIDs| - 1];
    assert table.idToName[current] == ChainName(chain.names) by {
      assert chain.names[..|chain.names|] == chain.names;
    }
    var prefixID := table.TransformationID(current, name);
    ok := true;
    chain' := Chain(chain.names + [name], chain.ids + [id], chain.prefixIDs + [prefixID]);
    ExtendedIsInterned(table.idToName, chain, chain', name);
  }

  lemma ExtendedIsInterned(idToName: seq<string>, chain: Chain, chain': Chain, name: string)
    requires chain.InternedIn(idToName)
    requires chain'.names == chain.names + [name] && |chain'.ids| == |chain'.prefixIDs| == |chain'.names|
    requires chain.ids <= chain'.ids && chain.prefixIDs <= chain'.prefixIDs
    requires var id := chain'.ids[|chain.names|]; id < |idToName| && idToName[id] == "" + "+" + name
    requires var id := chain'.prefixIDs[|chain.names|]; id < |idToName| && idToName[id] == ChainName(chain.names) + "+" + name
    ensures chain'.InternedIn(idToName)
  {
    ChainNameAppend(chain.names, name);
    ChainNameAppend([], name);
    assert [] + [name] == [name];
    forall i | 0 <= i < |chain'.names|
      ensures idToName[chain'.prefixIDs[i]] == ChainName(chain'.names[..i + 1])
    {
      assert i < |chain.names| ==> chain'.names[..i + 1] == chain.names[..i + 1];
      assert i == |chain.names| ==> chain'.names[..i + 1] == chain'.names;
    }
  }

  /** In one table state, equal numbers mean equal chains: a cache keyed by the number cannot confuse them. */
  lemma PrefixIDsIdentifyChains(idToName: seq<string>, a: Chain, b: Chain, i: nat, j: nat)
    requires a.InternedIn(idToName) && b.InternedIn(idToName) && i < |a.names| && j < |b.names|
    requires NoPlus(a.names) && NoPlus(b.names)
    requires a.prefixIDs[i] == b.prefixIDs[j]
    ensures a.names[..i + 1] == b.names[..j + 1]
  {
    ChainNameInjective(a.names[..i + 1], b.names[..j + 1]);
  }
}
