/**
 What internal/memoize/sync.go delivers, beyond being safe: the value that Do returns was computed
 for its key, an error is one that its computation raised, nobody else's Release takes an entry
 away, and Do and Release come to an end when nothing interferes.
 */
module MemoSyncRuns {
  import opened MemoStore
  import opened MemoSync

  lemma {:induction false} RunAppend(s: Sys, actions: seq<Action>, a: Action)
    ensures Run(s, actions + [a]) == Apply(Run(s, actions), a)
    decreases |actions|
  {
    hide Apply;
    if actions == [] {
      assert actions + [a] == [a] && Run(Apply(s, a), [a][1..]) == Apply(s, a);
    } else {
      RunAppend(Apply(s, actions[0]), actions[1..], a);
      assert (actions + [a])[0] == actions[0] && (actions + [a])[1..] == actions[1..] + [a];
    }
  }

  // ---------------------------------------------------------------- where values come from

  /** Action `i` of the run computes `v` for key `k`. */
  ghost predicate ComputesAt(actions: seq<Action>, i: nat, k: Key, v: Value) {
    && i < |actions| && actions[i].Compile? && actions[i].result == v
    && var pc := At(Run(INIT, actions[..i]), actions[i].t); pc.Compute? && pc.k == k
  }

  ghost predicate Computed(actions: seq<Action>, k: Key, v: Value) {
    exists i: nat :: ComputesAt(actions, i, k, v)
  }

  /** Action `i` of the run fails to compute `k`. */
  ghost predicate FailsAt(actions: seq<Action>, i: nat, k: Key) {
    && i < |actions| && actions[i].CompileFails?
    && var pc := At(Run(INIT, actions[..i]), actions[i].t); pc.Compute? && pc.k == k
  }

  ghost predicate Failing(actions: seq<Action>, k: Key) {
    exists i: nat :: FailsAt(actions, i, k)
  }

  /** Only a computation adds an entry: of its key and with its value. */
  lemma OnlyCompileAdds(s: Sys, a: Action)
    requires Inv(s)
    ensures var s' := Apply(s, a);
            || |s'.store.entries| == |s.store.entries|
            || (&& a.Compile? && At(s, a.t).Compute? && |s'.store.entries| == |s.store.entries| + 1
                && var e := s'.store.entries[|s.store.entries|]; e.key == At(s, a.t).k && e.value == a.result)
  {
    hide Inv, StepThread;
    if a.Step? {
      StepAddsNothing(s, a.t);
    }
  }

  lemma StepAddsNothing(s: Sys, t: Thread)
    ensures |StepThread(s, t).store.entries| == |s.store.entries|
  {
  }

  lemma StillComputed(actions: seq<Action>, a: Action, k: Key, v: Value)
    ensures Computed(actions, k, v) ==> Computed(actions + [a], k, v)
    ensures Failing(actions, k) ==> Failing(actions + [a], k)
  {
    hide Run;
    if i: nat :| ComputesAt(actions, i, k, v) {
      assert (actions + [a])[..i] == actions[..i];
      assert ComputesAt(actions + [a], i, k, v);
    }
    if i: nat :| FailsAt(actions, i, k) {
      assert (actions + [a])[..i] == actions[..i];
      assert FailsAt(actions + [a], i, k);
    }
  }

  /** Every entry there ever is holds a value computed for its key. */
  lemma {:induction false} EntriesComputed(actions: seq<Action>, e: EntryId)
    requires Run(INIT, actions).store.Has(e)
    ensures var entry := Run(INIT, actions).store.entries[e]; Computed(actions, entry.key, entry.value)
    decreases |actions|
  {
    hide Apply, Inv;
    if actions != [] {
      var n := |actions| - 1;
      var init, a := actions[..n], actions[n];
      assert actions == init + [a];
      RunAppend(INIT, init, a);
      RunKeepsInv(INIT, init);
      var s := Run(INIT, init);
      ApplyKeepsInv(s, a);
      OnlyCompileAdds(s, a);
      var entry := Run(INIT, actions).store.entries[e];
      if e < |s.store.entries| {
        EntriesComputed(init, e);
        StillComputed(init, a, entry.key, entry.value);
      } else {
        assert ComputesAt(actions, n, entry.key, entry.value);
      }
    }
  }

  /** What Do returns is a value that the function passed to some Do of this key computed. */
  lemma DoReturnsComputedValue(actions: seq<Action>, a: Action, t: Thread)
    ensures var s := Run(INIT, actions);
            var s' := Apply(s, a);
            ReturnsNow(s, s', t) ==>
              var Returned(o, k, e) := At(s', t);
              s'.store.Has(e) && Computed(actions, k, s'.store.entries[e].value)
  {
    hide Apply, Inv;
    var s := Run(INIT, actions);
    var s' := Apply(s, a);
    RunKeepsInv(INIT, actions);
    if ReturnsNow(s, s', t) {
      DoReturnsAnOwnedEntry(actions, a, t);
      OnlyOwnMoveReturns(s, a, t);
      ApplyKeepsInv(s, a);
      OnlyCompileAdds(s, a);
      EntriesComputed(actions, At(s', t).e);
    }
  }

  /** A thread that holds or has got an error for `k`. */
  predicate HasError(pc: PC, k: Key) {
    (pc.Failed? && pc.k == k) || (pc.Finish? && pc.outcome.Err? && pc.k == k)
  }

  /** A new error is a failed computation, or the outcome of one that was waited for. */
  lemma ErrorStep(s: Sys, a: Action, t: Thread, k: Key)
    requires HasError(At(Apply(s, a), t), k) && !HasError(At(s, t), k)
    ensures (a == CompileFails(t) && At(s, t).Compute? && At(s, t).k == k) ||
            (a.Step? && HasError(At(s, a.t), k))
  {
    hide StepThread;
    if a.Step? && !HasError(At(s, a.t), k) {
      StepKeepsErrors(s, a.t, t, k);
    }
  }

  /** Only the thread that ends a flight with an error hands it to others. */
  lemma StepKeepsErrors(s: Sys, u: Thread, t: Thread, k: Key)
    requires !HasError(At(s, u), k)
    ensures HasError(At(StepThread(s, u), t), k) ==> HasError(At(s, t), k)
  {
    hide AddOwner, ReleaseOwner, LoadOrStore, CompareAndDelete;
  }

  /** An error is only ever that of a failed computation of the same key. */
  lemma {:induction false} ErrorsAreComputed(actions: seq<Action>, t: Thread, k: Key)
    requires HasError(At(Run(INIT, actions), t), k)
    ensures Failing(actions, k)
    decreases |actions|
  {
    hide Apply;
    if actions != [] {
      var n := |actions| - 1;
      var init, a := actions[..n], actions[n];
      assert actions == init + [a];
      RunAppend(INIT, init, a);
      var s := Run(INIT, init);
      StillComputed(init, a, k, 0);
      if HasError(At(s, t), k) {
        ErrorsAreComputed(init, t, k);
      } else {
        ErrorStep(s, a, t, k);
        if a.Step? {
          ErrorsAreComputed(init, a.t, k);
        } else {
          assert FailsAt(actions, n, k);
        }
      }
    }
  }

  // ---------------------------------------------------------------- nobody else's release

  /** `t` is about to drop `o` from `e`. */
  predicate Drops(s: Sys, t: Thread, e: EntryId, o: Owner) {
    At(s, t).Releasing? && At(s, t).e == e && At(s, t).o == o
  }

  /** An owner stays an owner under every step but its own Release reaching the entry; others come only by Do. */
  lemma OwnershipStays(s: Sys, a: Action, e: EntryId, o: Owner)
    requires Inv(s) && s.store.Has(e) && o in s.store.entries[e].owners
    ensures Apply(s, a).store.Has(e)
    ensures o in Apply(s, a).store.entries[e].owners || (a.Step? && Drops(s, a.t, e, o))
  {
    hide Inv, StepThread;
    if a.Step? {
      StepKeepsOwner(s, a.t, e, o);
    }
  }

  lemma StepKeepsOwner(s: Sys, t: Thread, e: EntryId, o: Owner)
    requires Inv(s) && s.store.Has(e) && o in s.store.entries[e].owners
    ensures StepThread(s, t).store.Has(e)
    ensures o in StepThread(s, t).store.entries[e].owners || Drops(s, t, e, o)
  {
    hide Store.Valid, FlightsAgree;
  }

  // ---------------------------------------------------------------- Do without interference

  /** A live entry is returned at once, computing nothing. */
  lemma SoloHit(s: Sys, t: Thread, o: Owner, k: Key)
    requires Inv(s) && At(s, t).CanStart() && k in s.store.cache && s.store.Live(s.store.cache[k])
    ensures var s' := Run(s, [StartDo(t, o, k), Step(t), Step(t)]);
            var e := s.store.cache[k];
            && At(s', t) == Returned(o, k, e)
            && s'.store.entries == s.store.entries[e := s.store.entries[e].(owners := s.store.entries[e].owners + {o})]
            && s'.store.cache == s.store.cache
  {
    hide Store.Valid, FlightsAgree;
    var s1 := Apply(s, StartDo(t, o, k));
    var s2 := Apply(s1, Step(t));
    assert At(s2, t) == FastAdd(o, k, s.store.cache[k]);
    RunThree(s, StartDo(t, o, k), Step(t), Step(t));
  }

  lemma RunTwo(s: Sys, a: Action, b: Action)
    ensures Run(s, [a, b]) == Apply(Apply(s, a), b)
  {
    hide Apply;
    assert [a, b] == [a] + [b] && [a] == [] + [a];
    RunAppend(s, [a], b);
    RunAppend(s, [], a);
  }

  lemma RunThree(s: Sys, a: Action, b: Action, c: Action)
    ensures Run(s, [a, b, c]) == Apply(Apply(Apply(s, a), b), c)
  {
    hide Apply;
    assert [a, b, c] == [a, b] + [c] && [a, b] == [a] + [b] && [a] == [] + [a];
    RunAppend(s, [a, b], c);
    RunAppend(s, [a], b);
    RunAppend(s, [], a);
  }

  /** A key not in the map, and not being computed: the thread comes to lead its flight. */
  lemma SoloLeads(s: Sys, t: Thread, o: Owner, k: Key)
    requires At(s, t).CanStart() && k !in s.store.cache && k !in s.flights
    ensures var s1 := Run(s, [StartDo(t, o, k), Step(t), Step(t)]);
            At(s1, t) == LeadLoad(o, k) && s1.store == s.store && s1.flights == s.flights[k := t]
  {
    hide RemoveKey, ReleaseOwner;
    RunThree(s, StartDo(t, o, k), Step(t), Step(t));
  }

  lemma SoloPublishes(s: Sys, t: Thread, o: Owner, k: Key, v: Value)
    requires At(s, t) == LeadLoad(o, k) && k !in s.store.cache
    ensures var s' := Run(s, [Step(t), Compile(t, v), Step(t)]);
            && At(s', t) == Finish(o, k, Ok(|s.store.entries|)) && s'.flights == s.flights
            && s'.store.entries == s.store.entries + [Entry(k, v, {o}, false, true)]
            && s'.store.cache == s.store.cache[k := |s.store.entries|]
  {
    hide RemoveKey, ReleaseOwner;
    RunThree(s, Step(t), Compile(t, v), Step(t));
    var e := |s.store.entries|;
    var candidate, published := Entry(k, v, {o}, false, false), Entry(k, v, {o}, false, true);
    assert (s.store.entries + [candidate])[e := published] == s.store.entries + [published];
  }

  /** An owner that is added again changes nothing. */
  lemma AddAgain(s: Store, e: EntryId, o: Owner)
    requires s.Has(e) && o in s.entries[e].owners && !s.entries[e].deleted
    ensures AddOwner(s, e, o) == (s, true)
  {
    assert s.entries[e].owners + {o} == s.entries[e].owners;
    assert s.entries[e := s.entries[e].(owners := s.entries[e].owners + {o})] == s.entries;
  }

  lemma FinishStep(s: Sys, t: Thread, o: Owner, k: Key, e: EntryId)
    requires At(s, t) == Finish(o, k, Ok(e))
    ensures var s' := Apply(s, Step(t));
            At(s', t) == LastAdd(o, k, e) && s'.store == s.store && s'.flights == s.flights - {k}
  {
    hide RemoveKey, ReleaseOwner, AddOwner, LoadOrStore;
  }

  lemma LastAddStep(s: Sys, t: Thread, o: Owner, k: Key, e: EntryId)
    requires At(s, t) == LastAdd(o, k, e) && s.store.Has(e) && o in s.store.entries[e].owners
    requires !s.store.entries[e].deleted
    ensures var s' := Apply(s, Step(t));
            At(s', t) == Returned(o, k, e) && s'.store == s.store && s'.flights == s.flights
  {
    hide RemoveKey, ReleaseOwner, AddOwner, LoadOrStore;
    AddAgain(s.store, e, o);
  }

  lemma SoloFinishes(s: Sys, t: Thread, o: Owner, k: Key, e: EntryId)
    requires At(s, t) == Finish(o, k, Ok(e)) && s.store.Has(e) && o in s.store.entries[e].owners
    requires !s.store.entries[e].deleted
    ensures var s' := Run(s, [Step(t), Step(t)]);
            At(s', t) == Returned(o, k, e) && s'.store == s.store && s'.flights == s.flights - {k}
  {
    hide Apply;
    RunTwo(s, Step(t), Step(t));
    FinishStep(s, t, o, k, e);
    LastAddStep(Apply(s, Step(t)), t, o, k, e);
  }

  /** A key not in the map is computed once, and the value is published and returned. */
  lemma SoloMiss(s: Sys, t: Thread, o: Owner, k: Key, v: Value)
    requires At(s, t).CanStart() && k !in s.store.cache && k !in s.flights
    ensures var s1 := Run(s, [StartDo(t, o, k), Step(t), Step(t)]);
            var s2 := Run(s1, [Step(t), Compile(t, v), Step(t)]);
            var s3 := Run(s2, [Step(t), Step(t)]);
            && At(s3, t) == Returned(o, k, |s.store.entries|)
            && s3.store.entries == s.store.entries + [Entry(k, v, {o}, false, true)]
            && s3.store.cache == s.store.cache[k := |s.store.entries|]
            && s3.flights == s.flights
  {
    hide Run, Apply;
    SoloLeads(s, t, o, k);
    var s1 := Run(s, [StartDo(t, o, k), Step(t), Step(t)]);
    SoloPublishes(s1, t, o, k, v);
    SoloFinishes(Run(s1, [Step(t), Compile(t, v), Step(t)]), t, o, k, |s.store.entries|);
    assert s.flights[k := t] - {k} == s.flights;
  }

  lemma SoloFails(s: Sys, t: Thread, o: Owner, k: Key)
    requires At(s, t) == LeadLoad(o, k) && k !in s.store.cache
    ensures var s' := Run(s, [Step(t), CompileFails(t), Step(t)]);
            At(s', t) == Failed(o, k) && s'.store == s.store && s'.flights == s.flights - {k}
  {
    hide RemoveKey, ReleaseOwner, AddOwner, LoadOrStore;
    RunThree(s, Step(t), CompileFails(t), Step(t));
  }

  /** A failing computation is reported, and nothing is published. */
  lemma SoloFailure(s: Sys, t: Thread, o: Owner, k: Key)
    requires At(s, t).CanStart() && k !in s.store.cache && k !in s.flights
    ensures var s1 := Run(s, [StartDo(t, o, k), Step(t), Step(t)]);
            var s2 := Run(s1, [Step(t), CompileFails(t), Step(t)]);
            At(s2, t) == Failed(o, k) && s2.store == s.store && s2.flights == s.flights
  {
    hide Run, Apply;
    SoloLeads(s, t, o, k);
    SoloFails(Run(s, [StartDo(t, o, k), Step(t), Step(t)]), t, o, k);
    assert s.flights[k := t] - {k} == s.flights;
  }

  // ---------------------------------------------------------------- Release without interference

  /** What releasing `o` leaves of an entry. */
  function Without(e: Entry, o: Owner): Entry {
    e.(owners := e.owners - {o}, deleted := e.deleted || e.owners - {o} == {})
  }

  /** One key of the range: its entry loses `o`, and leaves the map if that was its last owner. */
  lemma VisitAndRelease(s: Sys, t: Thread, k: Key)
    requires Inv(s) && At(s, t).Ranging? && k in At(s, t).pending - At(s, t).visited && k in s.store.cache
    ensures var pc, e := At(s, t), s.store.cache[k];
            var s' := Apply(Apply(s, Visit(t, k, e)), Step(t));
            && s.store.Has(e) && s.store.entries[e].key == k && s'.store.cache == s.store.cache
            && s'.store.entries == s.store.entries[e := Without(s.store.entries[e], pc.o)]
            && At(s', t) == (if s.store.entries[e].owners <= {pc.o} then Deleting(pc.o, pc.pending, pc.visited, k, e)
                             else Ranging(pc.o, pc.pending, pc.visited + {k}))
  {
    hide FlightsAgree, Evolves;
    var pc, e := At(s, t), s.store.cache[k];
    var s1 := Apply(s, Visit(t, k, e));
    assert At(s1, t) == Releasing(pc.o, pc.pending, pc.visited, k, e) && s1.store == s.store;
    assert s.store.entries[e].owners <= {pc.o} <==> s.store.entries[e].owners - {pc.o} == {};
  }

  lemma DeleteKey(s: Sys, t: Thread)
    requires At(s, t).Deleting? && At(s, t).k in s.store.cache && s.store.cache[At(s, t).k] == At(s, t).e
    ensures var s', pc := Apply(s, Step(t)), At(s, t);
            && At(s', t) == Ranging(pc.o, pc.pending - {pc.k}, pc.visited + {pc.k})
            && s'.store.entries == s.store.entries && s'.store.cache == s.store.cache - {pc.k}
  {
    hide Store.Valid;
    assert s.store.cache - {At(s, t).k} != s.store.cache;
  }

  lemma SoloVisit(s: Sys, t: Thread, k: Key) returns (actions: seq<Action>)
    requires Inv(s) && At(s, t).Ranging? && k in At(s, t).pending - At(s, t).visited && k in s.store.cache
    ensures var s', pc, e := Run(s, actions), At(s, t), s.store.cache[k];
            && Inv(s')
            && At(s', t).Ranging? && At(s', t).o == pc.o && At(s', t).visited == pc.visited + {k}
            && At(s', t).pending <= pc.pending && pc.pending - {k} <= At(s', t).pending
            && s'.store.entries == s.store.entries[e := Without(s.store.entries[e], pc.o)]
            && s'.store.cache == (if s.store.entries[e].owners <= {pc.o} then s.store.cache - {k} else s.store.cache)
  {
    hide Inv, Apply;
    var pc, e := At(s, t), s.store.cache[k];
    VisitAndRelease(s, t, k);
    if s.store.entries[e].owners <= {pc.o} {
      DeleteKey(Apply(Apply(s, Visit(t, k, e)), Step(t)), t);
      actions := [Visit(t, k, e), Step(t), Step(t)];
      RunThree(s, Visit(t, k, e), Step(t), Step(t));
    } else {
      actions := [Visit(t, k, e), Step(t)];
      RunTwo(s, Visit(t, k, e), Step(t));
    }
    RunKeepsInv(s, actions);
  }

  lemma {:induction false} RunConcat(s: Sys, xs: seq<Action>, ys: seq<Action>)
    ensures Run(s, xs + ys) == Run(Run(s, xs), ys)
    decreases |xs|
  {
    hide Apply;
    if xs == [] {
      assert xs + ys == ys;
    } else {
      RunConcat(Apply(s, xs[0]), xs[1..], ys);
      assert (xs + ys)[0] == xs[0] && (xs + ys)[1..] == xs[1..] + ys;
    }
  }

  /** `e` is the current entry of a key that the range has still to visit. */
  predicate Ahead(s: Sys, t: Thread, e: EntryId) {
    && At(s, t).Ranging? && s.store.Has(e)
    && s.store.entries[e].key in At(s, t).pending - At(s, t).visited
    && s.store.entries[e].key in s.store.cache && s.store.cache[s.store.entries[e].key] == e
  }

  /** The range comes to its end, and takes `o` from the entries ahead of it and from no others. */
  lemma {:induction false} SoloRange(s: Sys, t: Thread) returns (actions: seq<Action>)
    requires Inv(s) && At(s, t).Ranging?
    requires At(s, t).pending - At(s, t).visited <= s.store.cache.Keys
    ensures var s' := Run(s, actions);
            && At(s', t) == Released(At(s, t).o) && |s'.store.entries| == |s.store.entries|
            && forall e: EntryId | s.store.Has(e) ::
                 s'.store.entries[e] == if Ahead(s, t, e) then Without(s.store.entries[e], At(s, t).o) else s.store.entries[e]
    decreases At(s, t).pending - At(s, t).visited
  {
    hide Apply, Inv;
    var pc := At(s, t);
    if pc.pending <= pc.visited {
      actions := [EndRange(t)];
      assert actions == [] + [EndRange(t)];
      RunAppend(s, [], EndRange(t));
      EndStep(s, t);
    } else {
      var k :| k in pc.pending && k !in pc.visited;
      var first := SoloVisit(s, t, k);
      var s1 := Run(s, first);
      assert At(s1, t).pending - At(s1, t).visited == pc.pending - pc.visited - {k};
      var rest := SoloRange(s1, t);
      actions := first + rest;
      RunConcat(s, first, rest);
      forall e: EntryId | s.store.Has(e) && e != s.store.cache[k] ensures Ahead(s1, t, e) == Ahead(s, t, e) {
        CurrentOfKey(s, k);
      }
      CurrentOfKey(s, k);
    }
  }

  lemma CurrentOfKey(s: Sys, k: Key)
    requires Inv(s) && k in s.store.cache
    ensures s.store.Has(s.store.cache[k]) && s.store.entries[s.store.cache[k]].key == k
  {
  }

  lemma EndStep(s: Sys, t: Thread)
    requires At(s, t).Ranging? && At(s, t).pending <= At(s, t).visited
    ensures Apply(s, EndRange(t)) == Goto(s, t, Released(At(s, t).o))
  {
  }

  /** Release(o) comes to an end, and leaves of every entry in the map exactly its other owners. */
  lemma SoloRelease(s: Sys, t: Thread, o: Owner) returns (actions: seq<Action>)
    requires Inv(s) && At(s, t).CanStart()
    ensures var s' := Run(s, [StartRelease(t, o)] + actions);
            && At(s', t) == Released(o) && |s'.store.entries| == |s.store.entries|
            && forall k | k in s.store.cache :: s.store.Has(s.store.cache[k]) &&
                 s'.store.entries[s.store.cache[k]] == Without(s.store.entries[s.store.cache[k]], o)
  {
    hide Apply, Inv;
    var s1 := Apply(s, StartRelease(t, o));
    ReleaseBegins(s, t, o);
    ApplyKeepsInv(s, StartRelease(t, o));
    actions := SoloRange(s1, t);
    RunConcat(s, [StartRelease(t, o)], actions);
    assert [StartRelease(t, o)] == [] + [StartRelease(t, o)];
    RunAppend(s, [], StartRelease(t, o));
    forall k | k in s.store.cache ensures s.store.Has(s.store.cache[k]) && Ahead(s1, t, s.store.cache[k]) {
      CurrentOfKey(s, k);
    }
  }

  lemma ReleaseBegins(s: Sys, t: Thread, o: Owner)
    requires At(s, t).CanStart()
    ensures var s1 := Apply(s, StartRelease(t, o));
            s1.store == s.store && At(s1, t) == Ranging(o, s.store.cache.Keys, {})
  {
  }
}
