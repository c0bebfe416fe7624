/**
 The per-phase transformation caches (internal/corazawaf/rule.go, rulegroup.go): results of chain
 prefixes keyed by string identity and interned chain, and a bounded cache of single steps. Using
 them gives the same values and errors as running the chain, even though the memory of strings
 that no cache retains may be reused for other contents.
 */
module TransformCache {
  import opened Options
  import opened ByteStrings
  import opened Interning

  const MIN_INPUT_BYTES := 512
  const MAX_STEP_ENTRIES := 512
  const MAX_STEP_BYTES := 16777216

  type Error = nat

  /** What a transformation returns. */
  datatype Output = Output(data: Bytes, changed: bool, err: Option<Error>)

  /** The registered transformations: deterministic functions of their name and input. */
  type Registry = (string, Bytes) -> Output

  // ---------------------------------------------------------------- reference

  datatype State = State(value: Bytes, errs: seq<Error>)

  /** One step of executeTransformations: an error keeps the value and is recorded. */
  function ApplyOne(reg: Registry, name: string, s: State): State {
    var out := reg(name, s.value);
    if out.err.Some? then State(s.value, s.errs + [out.err.value]) else State(out.data, s.errs)
  }

  /** executeTransformations. */
  function RunChain(reg: Registry, names: seq<string>, v: Bytes): State {
    if names == [] then State(v, [])
    else ApplyOne(reg, names[|names| - 1], RunChain(reg, names[..|names| - 1], v))
  }

  /** One step under multiMatch: the value moves on only when the transformation reports a change. */
  function ApplyMulti(reg: Registry, name: string, s: State): State {
    var out := reg(name, s.value);
    if out.err.Some? then State(s.value, s.errs + [out.err.value])
    else if out.changed then State(out.data, s.errs)
    else s
  }

  predicate Changes(reg: Registry, name: string, s: State) {
    var out := reg(name, s.value);
    out.err.None? && out.changed
  }

  function RunMulti(reg: Registry, names: seq<string>, v: Bytes): State {
    if names == [] then State(v, [])
    else ApplyMulti(reg, names[|names| - 1], RunMulti(reg, names[..|names| - 1], v))
  }

  predicate LastChanges(reg: Registry, names: seq<string>, v: Bytes)
    requires names != []
  {
    Changes(reg, names[|names| - 1], RunMulti(reg, names[..|names| - 1], v))
  }

  /** executeTransformationsMultimatch: the input and every changed value, in order. */
  function MultiValues(reg: Registry, names: seq<string>, v: Bytes): seq<Bytes> {
    if names == [] then [v]
    else MultiValues(reg, names[..|names| - 1], v) +
         if LastChanges(reg, names, v) then [RunMulti(reg, names, v).value] else []
  }

  // ---------------------------------------------------------------- the caches

  datatype Key = Key(addr: nat, length: nat, variable: nat, chain: nat, multi: bool)

  datatype Cached = Cached(input: Str, arg: Str, errs: seq<Error>, changed: bool)

  datatype StepKey = StepKey(addr: nat, length: nat, id: nat)

  datatype StepValue = StepValue(input: Str, output: Str, changed: bool, err: Option<Error>)

  /** A collection field; TX values are never cached. */
  datatype Match = Match(variable: nat, isTX: bool, value: Str)

  function KeyOf(arg: Match, chain: nat, multi: bool): Key {
    Key(arg.value.addr, |arg.value.data|, arg.variable, chain, multi)
  }

  function StepKeyOf(input: Str, id: nat): StepKey {
    StepKey(input.addr, |input.data|, id)
  }

  /** The bytes a step cache retains. */
  ghost function StepBytes(steps: map<StepKey, StepValue>): nat
    decreases |steps|
  {
    if steps == map[] then 0
    else
      var k :| k in steps;
      assert |steps - {k}| < |steps| by {
        assert (steps - {k}).Keys == steps.Keys - {k};
      }
      |steps[k].input.data| + |steps[k].output.data| + StepBytes(steps - {k})
  }

  /** Which entry is counted first does not matter. */
  lemma {:induction false} StepBytesRemove(steps: map<StepKey, StepValue>, k: StepKey)
    requires k in steps
    ensures StepBytes(steps) == |steps[k].input.data| + |steps[k].output.data| + StepBytes(steps - {k})
    decreases |steps|
  {
    var j :| j in steps && StepBytes(steps) == |steps[j].input.data| + |steps[j].output.data| + StepBytes(steps - {j});
    if j != k {
      assert |steps - {j}| < |steps| && |steps - {k}| < |steps| by {
        assert (steps - {j}).Keys == steps.Keys - {j} && (steps - {k}).Keys == steps.Keys - {k};
      }
      StepBytesRemove(steps - {j}, k);
      StepBytesRemove(steps - {k}, j);
      assert steps - {j} - {k} == steps - {k} - {j};
    }
  }

  lemma StepBytesInsert(steps: map<StepKey, StepValue>, k: StepKey, v: StepValue)
    requires k !in steps
    ensures StepBytes(steps[k := v]) == StepBytes(steps) + |v.input.data| + |v.output.data|
  {
    StepBytesRemove(steps[k := v], k);
    assert steps[k := v] - {k} == steps;
  }

  class Caches {
    const reg: Registry
    const idToName: seq<string>
    var cache: map<Key, Cached>
    var steps: map<StepKey, StepValue>
    var retainedBytes: nat

    constructor (reg: Registry, idToName: seq<string>)
      ensures Valid() && this.reg == reg && this.idToName == idToName
      ensures cache == map[] && steps == map[]
    {
      this.reg, this.idToName := reg, idToName;
      cache, steps, retainedBytes := map[], map[], 0;
      new;
      assert StepBytes(steps) == 0;
    }

    /** The strings the caches keep alive. */
    function Retained(): set<Str>
      reads this
    {
      (set k | k in cache :: cache[k].input) + (set k | k in cache :: cache[k].arg) +
      (set k | k in steps :: steps[k].input) + (set k | k in steps :: steps[k].output)
    }

    /** A cached prefix result is the result of running that prefix on the retained input. */
    ghost predicate EntryValid(k: Key, c: Cached) {
      && c.input.addr == k.addr && |c.input.data| == k.length && k.chain < |idToName|
      && forall names: seq<string> | NoPlus(names) && names != [] && ChainName(names) == idToName[k.chain] ::
           if k.multi then
             State(c.arg.data, c.errs) == RunMulti(reg, names, c.input.data) &&
             (c.changed <==> LastChanges(reg, names, c.input.data))
           else State(c.arg.data, c.errs) == RunChain(reg, names, c.input.data)
    }

    ghost predicate StepValid(k: StepKey, v: StepValue) {
      && v.input.addr == k.addr && |v.input.data| == k.length && k.id < |idToName|
      && forall name: string | '+' !in name && ChainName([name]) == idToName[k.id] ::
           reg(name, v.input.data) == Output(v.output.data, v.changed, v.err)
    }

    ghost predicate Valid()
      reads this
    {
      && (forall k | k in cache :: EntryValid(k, cache[k]))
      && (forall k | k in steps :: StepValid(k, steps[k]))
      && Coexist(Retained())
      && |steps| <= MAX_STEP_ENTRIES
      && retainedBytes == StepBytes(steps) <= MAX_STEP_BYTES
    }

    /** resetTransformationCaches, at the start of a phase. */
    method Reset()
      modifies this
      ensures Valid() && cache == map[] && steps == map[] && retainedBytes == 0
    {
      cache, steps, retainedBytes := map[], map[], 0;
      assert StepBytes(steps) == 0;
    }

    /** transformationStepCache.store: keeps within 512 entries and 16 MiB, or stores nothing. */
    method StoreStep(key: StepKey, value: StepValue)
      requires Valid() && key !in steps && StepValid(key, value)
      requires Coexist(Retained() + {value.input, value.output})
      modifies this
      ensures Valid() && cache == old(cache)
      ensures steps == old(steps) || steps == old(steps)[key := value]
      ensures steps != old(steps) <==>
                |old(steps)| < MAX_STEP_ENTRIES &&
                |value.input.data| + |value.output.data| + old(retainedBytes) <= MAX_STEP_BYTES
    {
      if |steps| >= MAX_STEP_ENTRIES {
        return;
      }
      if |value.input.data| > MAX_STEP_BYTES || |value.output.data| > MAX_STEP_BYTES - |value.input.data| {
        return;
      }
      var bytes := |value.input.data| + |value.output.data|;
      if bytes > MAX_STEP_BYTES - retainedBytes {
        return;
      }
      StepBytesInsert(steps, key, value);
      assert steps[key := value].Keys == steps.Keys + {key};
      ghost var before := Retained();
      steps := steps[key := value];
      retainedBytes := retainedBytes + bytes;
      assert Retained() <= before + {value.input, value.output};
    }

    /** One transformation, with or without the step cache: the outcome is the function's. */
    method Execute(name: string, id: nat, input: Str, useSteps: bool, alive: set<Str>)
      returns (output: Str, changed: bool, err: Option<Error>)
      requires Valid() && Coexist(Retained() + alive) && input in alive
      requires '+' !in name && id < |idToName| && idToName[id] == ChainName([name])
      modifies this
      ensures Valid() && cache == old(cache)
      ensures Output(output.data, changed, err) == reg(name, input.data)
      ensures !useSteps || StepKeyOf(input, id) in old(steps) ==> steps == old(steps)
      ensures useSteps && StepKeyOf(input, id) !in steps ==>
                |old(steps)| >= MAX_STEP_ENTRIES || |input.data| + |output.data| + old(retainedBytes) > MAX_STEP_BYTES
      ensures Retained() <= old(Retained()) + alive + {output}
      ensures Coexist(Retained() + alive + {output})
    {
      var key := StepKeyOf(input, id);
      if useSteps && key in steps {
        var cached := steps[key];
        assert StepValid(key, cached) && cached.input in Retained() && cached.output in Retained();
        assert Coherent(cached.input, input);
        assert Retained() + alive + {cached.output} == Retained() + alive;
        return cached.output, cached.changed, cached.err;
      }
      var out := reg(name, input.data);
      output := Place(out.data, Retained() + alive);
      changed, err := out.changed, out.err;
      if useSteps {
        var value := StepValue(input, output, changed, err);
        SameStep(key, value, name);
        StillCoexist(Retained() + alive + {output}, Retained() + {input, output});
        ghost var before := Retained();
        StoreStep(key, value);
        assert Retained() <= before + {input, output};
        StillCoexist(before + alive + {output}, Retained() + alive + {output});
      }
    }

    lemma SameStep(key: StepKey, value: StepValue, name: string)
      requires '+' !in name && key.id < |idToName| && idToName[key.id] == ChainName([name])
      requires value.input.addr == key.addr && |value.input.data| == key.length
      requires reg(name, value.input.data) == Output(value.output.data, value.changed, value.err)
      ensures StepValid(key, value)
    {
      forall other: string | '+' !in other && ChainName([other]) == idToName[key.id] ensures other == name {
        ChainNameInjective([other], [name]);
      }
    }

    lemma StillCoexist(more: set<Str>, fewer: set<Str>)
      requires Coexist(more) && fewer <= more
      ensures Coexist(fewer)
    {
    }

    /** Records the result of a prefix. */
    method StorePrefix(key: Key, c: Cached)
      requires Valid() && EntryValid(key, c) && Coexist(Retained() + {c.input, c.arg})
      modifies this
      ensures Valid() && steps == old(steps) && cache == old(cache)[key := c]
      ensures Retained() <= old(Retained()) + {c.input, c.arg}
    {
      ghost var before := Retained();
      cache := cache[key := c];
      assert Retained() <= before + {c.input, c.arg};
    }

    lemma RetainedCoexist()
      requires Valid()
      ensures Coexist(Retained())
    {
    }

    /** What a chain may assume of its caller: it is interned here, and its names are plus-free. */
    ghost predicate Usable(chain: Chain) {
      chain.InternedIn(idToName) && NoPlus(chain.names)
    }

    lemma SameChain(key: Key, c: Cached, names: seq<string>)
      requires NoPlus(names) && names != [] && key.chain < |idToName| && idToName[key.chain] == ChainName(names)
      requires c.input.addr == key.addr && |c.input.data| == key.length
      requires key.multi ==> State(c.arg.data, c.errs) == RunMulti(reg, names, c.input.data) &&
                             (c.changed <==> LastChanges(reg, names, c.input.data))
      requires !key.multi ==> State(c.arg.data, c.errs) == RunChain(reg, names, c.input.data)
      ensures EntryValid(key, c)
    {
      forall other: seq<string> | NoPlus(other) && other != [] && ChainName(other) == idToName[key.chain]
        ensures other == names
      {
        ChainNameInjective(other, names);
      }
    }

    /** A hit returns what the prefix computes on the argument itself, not merely on an equal address. */
    lemma HitIsResult(chain: Chain, arg: Match, index: nat, multi: bool)
      requires Valid() && Usable(chain) && index < |chain.names| && Coexist(Retained() + {arg.value})
      ensures var key, names := KeyOf(arg, chain.prefixIDs[index], multi), chain.names[..index + 1];
              key in cache ==>
                var c := cache[key];
                && c.input == arg.value && c.arg in Retained()
                && (multi ==> State(c.arg.data, c.errs) == RunMulti(reg, names, arg.value.data) &&
                              (c.changed <==> LastChanges(reg, names, arg.value.data)))
                && (!multi ==> State(c.arg.data, c.errs) == RunChain(reg, names, arg.value.data))
    {
      var key, names := KeyOf(arg, chain.prefixIDs[index], multi), chain.names[..index + 1];
      if key in cache {
        var c := cache[key];
        assert EntryValid(key, c) && c.input in Retained() && Coherent(c.input, arg.value);
        assert NoPlus(names) && names != [] && ChainName(names) == idToName[key.chain];
      }
    }

    /** executeTransformations: no cache involved. */
    method ExecuteTransformations(chain: Chain, v: Bytes) returns (value: Bytes, errs: seq<Error>)
      ensures State(value, errs) == RunChain(reg, chain.names, v)
    {
      value, errs := v, [];
      for i := 0 to |chain.names|
        invariant State(value, errs) == RunChain(reg, chain.names[..i], v)
      {
        assert chain.names[..i + 1][..i] == chain.names[..i];
        var out := reg(chain.names[i], value);
        if out.err.Some? {
          errs := errs + [out.err.value];
        } else {
          value := out.data;
        }
      }
      assert chain.names[..|chain.names|] == chain.names;
    }

    /** The longest cached prefix, searched from the full chain backwards; zero when there is none. */
    method LongestPrefix(chain: Chain, arg: Match) returns (start: nat, value: Str, errs: seq<Error>)
      requires Valid() && Usable(chain) && Coexist(Retained() + {arg.value})
      ensures start <= |chain.names|
      ensures value == arg.value || value in Retained()
      ensures State(value.data, errs) == RunChain(reg, chain.names[..start], arg.value.data)
      ensures start > 0 ==> KeyOf(arg, chain.prefixIDs[start - 1], false) in cache
      ensures forall k | start <= k < |chain.names| :: KeyOf(arg, chain.prefixIDs[k], false) !in cache
    {
      hide Valid, Coexist, RunMulti, MultiValues;
      var index := |chain.prefixIDs| - 1;
      while index >= 0
        invariant -1 <= index < |chain.prefixIDs|
        invariant forall k | index < k < |chain.prefixIDs| :: KeyOf(arg, chain.prefixIDs[k], false) !in cache
      {
        var key := KeyOf(arg, chain.prefixIDs[index], false);
        if key in cache {
          HitIsResult(chain, arg, index, false);
          return index + 1, cache[key].arg, cache[key].errs;
        }
        index := index - 1;
      }
      return 0, arg.value, [];
    }

    /** transformField and transformFieldCached: the value and errors of running the whole chain. */
    method TransformField(chain: Chain, arg: Match, useSteps: bool) returns (value: Str, errs: seq<Error>)
      requires Valid() && Usable(chain) && Coexist(Retained() + {arg.value})
      modifies this
      ensures Valid()
      ensures State(value.data, errs) == RunChain(reg, chain.names, arg.value.data)
      ensures Coexist(Retained() + {arg.value, value})
      ensures old(cache).Keys <= cache.Keys && (arg.isTX ==> cache == old(cache) && steps == old(steps))
      ensures chain.names != [] && !arg.isTX ==> KeyOf(arg, chain.prefixIDs[|chain.names| - 1], false) in cache
    {
      hide Valid, Coexist, Retained;
      if chain.names == [] {
        assert Retained() + {arg.value, arg.value} == Retained() + {arg.value};
        return arg.value, [];
      }
      if arg.isTX {
        var data;
        data, errs := ExecuteTransformations(chain, arg.value.data);
        value := Place(data, Retained() + {arg.value});
        StillCoexist(Retained() + {arg.value} + {value}, Retained() + {arg.value, value});
        return;
      }
      var start;
      start, value, errs := LongestPrefix(chain, arg);
      StillCoexist(Retained() + {arg.value}, Retained() + {arg.value, value});
      for i := start to |chain.names|
        invariant Valid() && Coexist(Retained() + {arg.value, value})
        invariant State(value.data, errs) == RunChain(reg, chain.names[..i], arg.value.data)
        invariant old(cache).Keys <= cache.Keys
        invariant i > 0 ==> KeyOf(arg, chain.prefixIDs[i - 1], false) in cache
      {
        value, errs := OneStep(chain, arg, i, value, errs, useSteps);
      }
      assert chain.names[..|chain.names|] == chain.names;
    }

    /** Transformation `i` of the chain, and the cache entry for the prefix that ends with it. */
    method OneStep(chain: Chain, arg: Match, i: nat, value: Str, errs: seq<Error>, useSteps: bool)
      returns (value': Str, errs': seq<Error>)
      requires Valid() && Usable(chain) && i < |chain.names| && Coexist(Retained() + {arg.value, value})
      requires State(value.data, errs) == RunChain(reg, chain.names[..i], arg.value.data)
      modifies this
      ensures Valid() && Coexist(Retained() + {arg.value, value'})
      ensures State(value'.data, errs') == RunChain(reg, chain.names[..i + 1], arg.value.data)
      ensures cache.Keys == old(cache).Keys + {KeyOf(arg, chain.prefixIDs[i], false)}
    {
      hide Valid, Coexist, EntryValid;
      value', errs' := value, errs;
      var alive := {arg.value, value};
      var output, changed, err := Execute(
        chain.names[i], chain.ids[i], value, useSteps && |value.data| >= MIN_INPUT_BYTES, alive);
      if err.Some? {
        errs' := errs + [err.value];
      } else {
        value' := output;
      }
      assert chain.names[..i + 1][..i] == chain.names[..i];
      var key := KeyOf(arg, chain.prefixIDs[i], false);
      var c := Cached(arg.value, value', errs', changed && err.None?);
      PrefixUsable(chain, i);
      SameChain(key, c, chain.names[..i + 1]);
      StillCoexist(Retained() + alive + {output}, Retained() + {c.input, c.arg});
      ghost var before := Retained();
      StorePrefix(key, c);
      assert Retained() + {arg.value, value'} <= before + alive + {output};
      StillCoexist(before + alive + {output}, Retained() + {arg.value, value'});
    }

    lemma PrefixUsable(chain: Chain, i: nat)
      requires Usable(chain) && i < |chain.names|
      ensures var names := chain.names[..i + 1];
              NoPlus(names) && names != [] && chain.prefixIDs[i] < |idToName| &&
              idToName[chain.prefixIDs[i]] == ChainName(names)
      ensures '+' !in chain.names[i] && chain.ids[i] < |idToName| && idToName[chain.ids[i]] == ChainName([chain.names[i]])
    {
    }

    // -------------------------------------------------------------- multiMatch

    /** executeTransformationsMultimatch: no cache involved. */
    method ExecuteMultimatch(chain: Chain, v: Bytes) returns (values: seq<Bytes>, errs: seq<Error>)
      ensures values == MultiValues(reg, chain.names, v)
      ensures errs == RunMulti(reg, chain.names, v).errs
    {
      var value := v;
      values, errs := [v], [];
      for i := 0 to |chain.names|
        invariant State(value, errs) == RunMulti(reg, chain.names[..i], v)
        invariant values == MultiValues(reg, chain.names[..i], v)
      {
        assert chain.names[..i + 1][..i] == chain.names[..i];
        var out := reg(chain.names[i], value);
        if out.err.Some? {
          errs := errs + [out.err.value];
          continue;
        }
        if out.changed {
          values := values + [out.data];
          value := out.data;
        }
      }
      assert chain.names[..|chain.names|] == chain.names;
    }

    /** transformFieldMultimatchCached: the same values and errors as without caches. */
    method TransformMultimatch(chain: Chain, arg: Match, useSteps: bool) returns (values: seq<Bytes>, errs: seq<Error>)
      requires Valid() && Usable(chain) && Coexist(Retained() + {arg.value})
      modifies this
      ensures Valid()
      ensures values == MultiValues(reg, chain.names, arg.value.data)
      ensures errs == RunMulti(reg, chain.names, arg.value.data).errs
      ensures Coexist(Retained() + {arg.value})
      ensures old(cache).Keys <= cache.Keys
      ensures arg.isTX || |arg.value.data| < MIN_INPUT_BYTES ==> cache == old(cache) && steps == old(steps)
      ensures !arg.isTX && |arg.value.data| >= MIN_INPUT_BYTES ==>
                forall k | 0 <= k < |chain.names| :: KeyOf(arg, chain.prefixIDs[k], true) in cache
    {
      if chain.names == [] || |arg.value.data| < MIN_INPUT_BYTES || arg.isTX {
        values, errs := ExecuteMultimatch(chain, arg.value.data);
        return;
      }
      var start, value;
      start, value, values, errs := CachedPrefixes(chain, arg);
      StillCoexist(Retained() + {arg.value}, Retained() + {arg.value, value});
      values, errs := FinishMultimatch(chain, arg, useSteps, start, value, values, errs);
    }

    /** The steps behind the cached prefixes. */
    method FinishMultimatch(chain: Chain, arg: Match, useSteps: bool, start: nat, first: Str, seen: seq<Bytes>, failed: seq<Error>)
      returns (values: seq<Bytes>, errs: seq<Error>)
      requires Valid() && Usable(chain) && Coexist(Retained() + {arg.value, first}) && start <= |chain.names|
      requires State(first.data, failed) == RunMulti(reg, chain.names[..start], arg.value.data)
      requires seen == MultiValues(reg, chain.names[..start], arg.value.data)
      requires forall k | 0 <= k < start :: KeyOf(arg, chain.prefixIDs[k], true) in cache
      modifies this
      ensures Valid() && Coexist(Retained() + {arg.value})
      ensures old(cache).Keys <= cache.Keys
      ensures forall k | 0 <= k < |chain.names| :: KeyOf(arg, chain.prefixIDs[k], true) in cache
      ensures values == MultiValues(reg, chain.names, arg.value.data)
      ensures errs == RunMulti(reg, chain.names, arg.value.data).errs
    {
      hide Valid, Coexist, RunMulti, MultiValues, LastChanges, Retained;
      var value := first;
      values, errs := seen, failed;
      for i := start to |chain.names|
        invariant Valid() && Coexist(Retained() + {arg.value, value})
        invariant State(value.data, errs) == RunMulti(reg, chain.names[..i], arg.value.data)
        invariant values == MultiValues(reg, chain.names[..i], arg.value.data)
        invariant old(cache).Keys <= cache.Keys
        invariant forall k | 0 <= k < i :: KeyOf(arg, chain.prefixIDs[k], true) in cache
      {
        var changed;
        value, errs, changed := OneMultiStep(chain, arg, i, value, errs, useSteps);
        MultiValuesStep(chain.names, i, arg.value.data);
        if changed {
          values := values + [value.data];
        }
      }
      assert chain.names[..|chain.names|] == chain.names;
      StillCoexist(Retained() + {arg.value, value}, Retained() + {arg.value});
    }

    lemma MultiValuesStep(names: seq<string>, i: nat, v: Bytes)
      requires i < |names|
      ensures MultiValues(reg, names[..i + 1], v) ==
              MultiValues(reg, names[..i], v) +
              if LastChanges(reg, names[..i + 1], v) then [RunMulti(reg, names[..i + 1], v).value] else []
    {
      assert names[..i + 1][..i] == names[..i];
    }

    lemma NoSteps(names: seq<string>, v: Bytes)
      ensures RunMulti(reg, names[..0], v) == State(v, []) && MultiValues(reg, names[..0], v) == [v]
    {
      assert names[..0] == [];
    }

    /** The cached prefixes, from the first on, as far as there is no gap. */
    method CachedPrefixes(chain: Chain, arg: Match)
      returns (start: nat, value: Str, values: seq<Bytes>, errs: seq<Error>)
      requires Valid() && Usable(chain) && Coexist(Retained() + {arg.value})
      ensures start <= |chain.names|
      ensures value == arg.value || value in Retained()
      ensures State(value.data, errs) == RunMulti(reg, chain.names[..start], arg.value.data)
      ensures values == MultiValues(reg, chain.names[..start], arg.value.data)
      ensures forall k | 0 <= k < start :: KeyOf(arg, chain.prefixIDs[k], true) in cache
      ensures start < |chain.names| ==> KeyOf(arg, chain.prefixIDs[start], true) !in cache
    {
      hide Valid, Coexist, RunMulti, MultiValues, LastChanges, Retained;
      start, value, values, errs := 0, arg.value, [arg.value.data], [];
      NoSteps(chain.names, arg.value.data);
      while start < |chain.prefixIDs|
        invariant start <= |chain.names|
        invariant value == arg.value || value in Retained()
        invariant State(value.data, errs) == RunMulti(reg, chain.names[..start], arg.value.data)
        invariant values == MultiValues(reg, chain.names[..start], arg.value.data)
        invariant forall k | 0 <= k < start :: KeyOf(arg, chain.prefixIDs[k], true) in cache
      {
        var key := KeyOf(arg, chain.prefixIDs[start], true);
        if key !in cache {
          break;
        }
        HitIsResult(chain, arg, start, true);
        MultiValuesStep(chain.names, start, arg.value.data);
        value, errs := cache[key].arg, cache[key].errs;
        if cache[key].changed {
          values := values + [value.data];
        }
        start := start + 1;
      }
    }

    /** Transformation `i` under multiMatch, and the cache entry for the prefix that ends with it. */
    method OneMultiStep(chain: Chain, arg: Match, i: nat, value: Str, errs: seq<Error>, useSteps: bool)
      returns (value': Str, errs': seq<Error>, changed: bool)
      requires Valid() && Usable(chain) && i < |chain.names| && Coexist(Retained() + {arg.value, value})
      requires State(value.data, errs) == RunMulti(reg, chain.names[..i], arg.value.data)
      modifies this
      ensures Valid() && Coexist(Retained() + {arg.value, value'})
      ensures State(value'.data, errs') == RunMulti(reg, chain.names[..i + 1], arg.value.data)
      ensures changed <==> LastChanges(reg, chain.names[..i + 1], arg.value.data)
      ensures cache.Keys == old(cache).Keys + {KeyOf(arg, chain.prefixIDs[i], true)}
    {
      hide Valid, Coexist, EntryValid;
      value', errs' := value, errs;
      var alive := {arg.value, value};
      var output, err;
      PrefixUsable(chain, i);
      output, changed, err := Execute(
        chain.names[i], chain.ids[i], value, useSteps && |value.data| >= MIN_INPUT_BYTES, alive);
      if err.Some? {
        errs' := errs + [err.value];
        changed := false;
      } else if changed {
        value' := output;
      }
      assert chain.names[..i + 1][..i] == chain.names[..i];
      var key := KeyOf(arg, chain.prefixIDs[i], true);
      var c := Cached(arg.value, value', errs', changed);
      SameChain(key, c, chain.names[..i + 1]);
      StillCoexist(Retained() + alive + {output}, Retained() + {c.input, c.arg});
      ghost var before := Retained();
      StorePrefix(key, c);
      assert Retained() + {arg.value, value'} <= before + alive + {output};
      StillCoexist(before + alive + {output}, Retained() + {arg.value, value'});
    }

    // -------------------------------------------------------------- what a rule evaluates

    /** The choice doEvaluate makes: short inputs bypass the step cache, TX bypasses both. */
    method TransformArgument(chain: Chain, arg: Match, multiMatch: bool) returns (values: seq<Bytes>, errs: seq<Error>)
      requires Valid() && Usable(chain) && Coexist(Retained() + {arg.value})
      modifies this
      ensures Valid()
      ensures Transformed(reg, chain.names, arg.value.data, multiMatch) == (values, errs)
      ensures Coexist(Retained() + {arg.value})
    {
      if multiMatch {
        values, errs := TransformMultimatch(chain, arg, true);
        return;
      }
      var value;
      value, errs := TransformField(chain, arg, |arg.value.data| >= MIN_INPUT_BYTES);
      StillCoexist(Retained() + {arg.value, value}, Retained() + {arg.value});
      values := [value.data];
    }
  }

  /** The values an operator sees for one argument, and the errors logged, without any cache. */
  function Transformed(reg: Registry, names: seq<string>, v: Bytes, multiMatch: bool): (seq<Bytes>, seq<Error>) {
    if multiMatch then (MultiValues(reg, names, v), RunMulti(reg, names, v).errs)
    else ([RunChain(reg, names, v).value], RunChain(reg, names, v).errs)
  }

  /** One use of the caches during a phase. */
  datatype Use = Use(chain: Chain, variable: nat, isTX: bool, data: Bytes, multiMatch: bool)

  /**
   Cache transparency over a whole phase: whatever arguments the rules of a phase transform, and
   wherever the runtime puts those arguments (also at addresses of strings that have died), every
   use of the caches gives what running the chain gives.
   */
  method RunPhase(caches: Caches, uses: seq<Use>) returns (results: seq<(seq<Bytes>, seq<Error>)>)
    requires caches.Valid()
    requires forall i | 0 <= i < |uses| :: caches.Usable(uses[i].chain)
    modifies caches
    ensures caches.Valid()
    ensures |results| == |uses|
    ensures forall i | 0 <= i < |uses| ::
              results[i] == Transformed(caches.reg, uses[i].chain.names, uses[i].data, uses[i].multiMatch)
  {
    hide Caches.Valid, Coexist, RunMulti, RunChain, MultiValues, Chain.InternedIn, Transformed;
    caches.Reset();
    results := [];
    for i := 0 to |uses|
      invariant caches.Valid() && |results| == i
      invariant forall j | 0 <= j < i ::
                  results[j] == Transformed(caches.reg, uses[j].chain.names, uses[j].data, uses[j].multiMatch)
    {
      var use := uses[i];
      caches.RetainedCoexist();
      var value := Place(use.data, caches.Retained());
      var values, errs := caches.TransformArgument(use.chain, Match(use.variable, use.isTX, value), use.multiMatch);
      results := results + [(values, errs)];
    }
  }

  // ---------------------------------------------------------------- error slices

  /** A Go slice of errors: a window onto a backing array. */
  datatype Slice = Slice(backing: array<Error>, length: nat, capacity: nat) {
    ghost predicate Valid() {
      length <= capacity <= backing.Length
    }

    function Contents(): seq<Error>
      requires Valid()
      reads backing
    {
      backing[..length]
    }
  }

  /** Go's append of one element: in place when there is spare capacity, into a new array otherwise. */
  method Append(s: Slice, err: Error) returns (r: Slice)
    requires s.Valid()
    modifies if s.length < s.capacity then {s.backing} else {}
    ensures r.Valid() && r.Contents() == old(s.Contents()) + [err]
    ensures s.length == s.capacity ==> fresh(r.backing)
  {
    if s.length < s.capacity {
      s.backing[s.length] := err;
      r := s.(length := s.length + 1);
      assert r.Contents() == old(s.Contents()) + [err];
    } else {
      var backing := new Error[s.length + 1](i requires 0 <= i <= s.length reads s.backing =>
        if i < s.length then s.backing[i] else err);
      r := Slice(backing, s.length + 1, s.length + 1);
    }
  }

  /** appendTransformationError: writes to no existing array, so a cached error list never changes. */
  method AppendTransformationError(errs: Slice, err: Error) returns (r: Slice)
    requires errs.Valid()
    ensures r.Valid() && fresh(r.backing) && r.Contents() == old(errs.Contents()) + [err]
  {
    r := Append(errs.(capacity := errs.length), err);
  }
}
