/**
 What internal/memoize/nosync.go delivers, beyond being safe: as in MemoSyncRuns, for the variant
 with a mutation mutex and deferred deletes.
 */
module MemoNosyncRuns {
  import opened MemoStore
  import opened MemoNosync

  lemma {:induction false} RunConcat(s: Sys, xs: seq<Action>, ys: seq<Action>)
    ensures Run(s, xs + ys) == Run(Run(s, xs), ys)
    decreases |xs|
  {
    hide Apply;
    if xs == [] {
      assert xs + ys == ys;
    } else {
      RunConcat(Apply(s, xs[0]), xs[1..], ys);
      assert (xs + ys)[0] == xs[0] && (xs + ys)[1..] == xs[1..] + ys;
    }
  }

  lemma RunOne(s: Sys, a: Action)
    ensures Run(s, [a]) == Apply(s, a)
  {
    hide Apply;
    assert Run(Apply(s, a), [a][1..]) == Apply(s, a);
  }

  lemma RunAppend(s: Sys, actions: seq<Action>, a: Action)
    ensures Run(s, actions + [a]) == Apply(Run(s, actions), a)
  {
    hide Apply;
    RunConcat(s, actions, [a]);
    RunOne(Run(s, actions), a);
  }

  // ---------------------------------------------------------------- where values come from

  /** Action `i` of the run computes `v` for key `k`. */
  ghost predicate ComputesAt(actions: seq<Action>, i: nat, k: Key, v: Value) {
    && i < |actions| && actions[i].Compile? && actions[i].result == v
    && var pc := At(Run(INIT, actions[..i]), actions[i].t); pc.Compute? && pc.k == k
  }

  ghost predicate Computed(actions: seq<Action>, k: Key, v: Value) {
    exists i: nat :: ComputesAt(actions, i, k, v)
  }

  /** Action `i` of the run fails to compute `k`. */
  ghost predicate FailsAt(actions: seq<Action>, i: nat, k: Key) {
    && i < |actions| && actions[i].CompileFails?
    && var pc := At(Run(INIT, actions[..i]), actions[i].t); pc.Compute? && pc.k == k
  }

  ghost predicate Failing(actions: seq<Action>, k: Key) {
    exists i: nat :: FailsAt(actions, i, k)
  }

  lemma OnlyCompileAdds(s: Sys, a: Action)
    requires Inv(s)
    ensures var s' := Apply(s, a);
            || |s'.store.entries| == |s.store.entries|
            || (&& a.Compile? && At(s, a.t).Compute? && |s'.store.entries| == |s.store.entries| + 1
                && var e := s'.store.entries[|s.store.entries|]; e.key == At(s, a.t).k && e.value == a.result)
  {
    hide Store.Valid;
  }

  lemma StillComputed(actions: seq<Action>, a: Action, k: Key, v: Value)
    ensures Computed(actions, k, v) ==> Computed(actions + [a], k, v)
    ensures Failing(actions, k) ==> Failing(actions + [a], k)
  {
    hide Run;
    if i: nat :| ComputesAt(actions, i, k, v) {
      assert (actions + [a])[..i] == actions[..i];
      assert ComputesAt(actions + [a], i, k, v);
    }
    if i: nat :| FailsAt(actions, i, k) {
      assert (actions + [a])[..i] == actions[..i];
      assert FailsAt(actions + [a], i, k);
    }
  }

  /** Every entry there ever is holds a value computed for its key. */
  lemma {:induction false} EntriesComputed(actions: seq<Action>, e: EntryId)
    requires Run(INIT, actions).store.Has(e)
    ensures var entry := Run(INIT, actions).store.entries[e]; Computed(actions, entry.key, entry.value)
    decreases |actions|
  {
    hide Apply, Inv;
    if actions != [] {
      var n := |actions| - 1;
      var init, a := actions[..n], actions[n];
      assert actions == init + [a];
      RunAppend(INIT, init, a);
      InitInv();
      RunKeepsInv(INIT, init);
      var s := Run(INIT, init);
      ApplyKeepsInv(s, a);
      OnlyCompileAdds(s, a);
      var entry := Run(INIT, actions).store.entries[e];
      if e < |s.store.entries| {
        EntriesComputed(init, e);
        StillComputed(init, a, entry.key, entry.value);
      } else {
        assert ComputesAt(actions, n, entry.key, entry.value);
      }
    }
  }

  lemma InitInv()
    ensures Inv(INIT)
  {
  }

  /** What Do returns is a value that the function passed to some Do of this key computed. */
  lemma DoReturnsComputedValue(actions: seq<Action>, a: Action, t: Thread)
    ensures var s, s' := Run(INIT, actions), Run(INIT, actions + [a]);
            At(s', t).Returned? && At(s, t) != At(s', t) ==>
              var Returned(o, k, e) := At(s', t);
              s'.store.Has(e) && Computed(actions + [a], k, s'.store.entries[e].value)
  {
    hide Apply, Inv;
    var s, s' := Run(INIT, actions), Run(INIT, actions + [a]);
    RunAppend(INIT, actions, a);
    if At(s', t).Returned? && At(s, t) != At(s', t) {
      DoReturnsAnOwnedEntry(actions, a, t);
      EntriesComputed(actions + [a], At(s', t).e);
    }
  }

  lemma ErrorStep(s: Sys, a: Action, t: Thread)
    requires At(Apply(s, a), t).Failed? && At(s, t) != At(Apply(s, a), t)
    ensures a == CompileFails(t) && At(s, t).Compute? && At(s, t).k == At(Apply(s, a), t).k
  {
    hide AddOwner, ReleaseOwner, LoadOrStore, CompareAndDelete;
  }

  /** An error is only ever that of a failed computation of the same key. */
  lemma {:induction false} ErrorsAreComputed(actions: seq<Action>, t: Thread)
    requires At(Run(INIT, actions), t).Failed?
    ensures Failing(actions, At(Run(INIT, actions), t).k)
    decreases |actions|
  {
    hide Apply;
    if actions != [] {
      var n := |actions| - 1;
      var init, a := actions[..n], actions[n];
      assert actions == init + [a];
      RunAppend(INIT, init, a);
      var s, k := Run(INIT, init), At(Run(INIT, actions), t).k;
      if At(s, t) == At(Run(INIT, actions), t) {
        ErrorsAreComputed(init, t);
        StillComputed(init, a, k, 0);
      } else {
        ErrorStep(s, a, t);
        assert FailsAt(actions, n, k);
      }
    }
  }

  // ---------------------------------------------------------------- nobody else's release

  /** An owner stays an owner under every step but its own Release visiting the entry. */
  lemma OwnershipStays(s: Sys, a: Action, e: EntryId, o: Owner)
    requires Inv(s) && s.store.Has(e) && o in s.store.entries[e].owners
    ensures Apply(s, a).store.Has(e)
    ensures || o in Apply(s, a).store.entries[e].owners
            || (a.Visit? && At(s, a.t).Ranging? && At(s, a.t).o == o && a.k == s.store.entries[e].key)
  {
  }

  // ---------------------------------------------------------------- Do without interference

  /** A live entry is returned at once, computing nothing. */
  lemma SoloHit(s: Sys, t: Thread, o: Owner, k: Key)
    requires Inv(s) && s.lock == Free && At(s, t).CanStart()
    requires k in s.store.cache && s.store.Live(s.store.cache[k])
    ensures var s' := Run(s, [StartDo(t, o, k)] + [Step(t)] + [Step(t)]);
            var e := s.store.cache[k];
            && At(s', t) == Returned(o, k, e)
            && s'.store.entries == s.store.entries[e := s.store.entries[e].(owners := s.store.entries[e].owners + {o})]
            && s'.store.cache == s.store.cache
  {
    hide Store.Valid;
    RunAppend(s, [StartDo(t, o, k)] + [Step(t)], Step(t));
    RunAppend(s, [StartDo(t, o, k)], Step(t));
    RunOne(s, StartDo(t, o, k));
  }

  /** A key not in the map is computed once, and the value is published and returned. */
  lemma SoloMiss(s: Sys, t: Thread, o: Owner, k: Key, v: Value)
    requires s.lock == Free && At(s, t).CanStart() && k !in s.store.cache
    ensures var s' := Run(s, [StartDo(t, o, k)] + [Step(t)] + [Compile(t, v)] + [Step(t)]);
            && At(s', t) == Returned(o, k, |s.store.entries|)
            && s'.store.entries == s.store.entries + [Entry(k, v, {o}, false, true)]
            && s'.store.cache == s.store.cache[k := |s.store.entries|]
  {
    RunAppend(s, [StartDo(t, o, k)] + [Step(t)] + [Compile(t, v)], Step(t));
    SoloComputes(s, t, o, k);
    RunAppend(s, [StartDo(t, o, k)] + [Step(t)], Compile(t, v));
    var candidate, published := Entry(k, v, {o}, false, false), Entry(k, v, {o}, false, true);
    assert (s.store.entries + [candidate])[|s.store.entries| := published] == s.store.entries + [published];
  }

  lemma SoloComputes(s: Sys, t: Thread, o: Owner, k: Key)
    requires s.lock == Free && At(s, t).CanStart() && k !in s.store.cache
    ensures var s' := Run(s, [StartDo(t, o, k)] + [Step(t)]);
            At(s', t) == Compute(o, k) && s'.store == s.store && s'.lock == Free
  {
    RunAppend(s, [StartDo(t, o, k)], Step(t));
    RunOne(s, StartDo(t, o, k));
  }

  /** A failing computation is reported, and nothing is published. */
  lemma SoloFailure(s: Sys, t: Thread, o: Owner, k: Key)
    requires s.lock == Free && At(s, t).CanStart() && k !in s.store.cache
    ensures var s' := Run(s, [StartDo(t, o, k)] + [Step(t)] + [CompileFails(t)]);
            At(s', t) == Failed(o, k) && s'.store == s.store
  {
    RunAppend(s, [StartDo(t, o, k)] + [Step(t)], CompileFails(t));
    SoloComputes(s, t, o, k);
  }

  // ---------------------------------------------------------------- Release without interference

  /** What releasing `o` leaves of an entry. */
  function Without(e: Entry, o: Owner): Entry {
    e.(owners := e.owners - {o}, deleted := e.deleted || e.owners - {o} == {})
  }

  /** `e` is the current entry of a key that the range has still to visit. */
  predicate Ahead(s: Sys, t: Thread, e: EntryId) {
    && At(s, t).Ranging? && s.store.Has(e)
    && s.store.entries[e].key in At(s, t).remaining
    && s.store.entries[e].key in s.store.cache && s.store.cache[s.store.entries[e].key] == e
  }

  /** The range takes `o` from the entries ahead of it and from no others. */
  lemma {:induction false} SoloRange(s: Sys, t: Thread) returns (actions: seq<Action>)
    requires Inv(s) && At(s, t).Ranging? && At(s, t).remaining <= s.store.cache.Keys
    ensures var s' := Run(s, actions);
            && At(s', t).Draining? && At(s', t).o == At(s, t).o && s'.lock == Free
            && s'.store.cache == s.store.cache && |s'.store.entries| == |s.store.entries|
            && forall e: EntryId | s.store.Has(e) ::
                 s'.store.entries[e] == if Ahead(s, t, e) then Without(s.store.entries[e], At(s, t).o) else s.store.entries[e]
    decreases At(s, t).remaining
  {
    var pc := At(s, t);
    if pc.remaining == {} {
      actions := [Step(t)];
      RunOne(s, Step(t));
    } else {
      hide Inv;
      var k :| k in pc.remaining;
      CurrentOfKey(s, k);
      var s1 := Apply(s, Visit(t, k));
      RunOne(s, Visit(t, k));
      ApplyKeepsInv(s, Visit(t, k));
      assert At(s1, t).remaining == pc.remaining - {k};
      var rest := SoloRange(s1, t);
      actions := [Visit(t, k)] + rest;
      RunConcat(s, [Visit(t, k)], rest);
      forall e: EntryId | s.store.Has(e) && e != s.store.cache[k] ensures Ahead(s1, t, e) == Ahead(s, t, e) {
      }
    }
  }

  lemma CurrentOfKey(s: Sys, k: Key)
    requires Inv(s) && k in s.store.cache
    ensures s.store.Has(s.store.cache[k]) && s.store.entries[s.store.cache[k]].key == k
  {
  }

  /** The collected deletions come to their end and touch no entry. */
  lemma {:induction false} SoloDrain(s: Sys, t: Thread) returns (actions: seq<Action>)
    requires At(s, t).Draining? && s.lock == Free
    ensures var s' := Run(s, actions); At(s', t) == Released(At(s, t).o) && s'.store.entries == s.store.entries
    decreases |At(s, t).toDelete|
  {
    var s1 := Apply(s, Step(t));
    RunOne(s, Step(t));
    if At(s, t).toDelete == [] {
      actions := [Step(t)];
    } else {
      var rest := SoloDrain(s1, t);
      actions := [Step(t)] + rest;
      RunConcat(s, [Step(t)], rest);
    }
  }

  /** Release(o) comes to an end, and leaves of every entry in the map exactly its other owners. */
  lemma SoloRelease(s: Sys, t: Thread, o: Owner) returns (actions: seq<Action>)
    requires Inv(s) && s.lock == Free && At(s, t).CanStart()
    ensures var s' := Run(s, actions);
            && At(s', t) == Released(o) && |s'.store.entries| == |s.store.entries|
            && forall k | k in s.store.cache :: s.store.Has(s.store.cache[k]) &&
                 s'.store.entries[s.store.cache[k]] == Without(s.store.entries[s.store.cache[k]], o)
  {
    hide Inv;
    var begin := [StartRelease(t, o)] + [Step(t)];
    RunAppend(s, [StartRelease(t, o)], Step(t));
    RunOne(s, StartRelease(t, o));
    var s1 := Run(s, begin);
    RunKeepsInv(s, begin);
    var range := SoloRange(s1, t);
    var drain := SoloDrain(Run(s1, range), t);
    actions := begin + range + drain;
    RunConcat(s, begin + range, drain);
    RunConcat(s, begin, range);
    forall k | k in s.store.cache ensures s.store.Has(s.store.cache[k]) && Ahead(s1, t, s.store.cache[k]) {
      CurrentOfKey(s, k);
    }
  }
}
