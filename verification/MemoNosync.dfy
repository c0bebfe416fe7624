/**
 internal/memoize/nosync.go, the variant without singleflight and CompareAndDelete: every map
 mutation is made under one mutex, and Release collects its deletions while the map is locked by
 Range and performs them afterwards. The invariants of MemoSync hold here as well.
 */
module MemoNosync {
  import opened MemoStore

  datatype PC =
    | Idle
      // Memoizer.Do
    | Load(o: Owner, k: Key)
    | FastAdd(o: Owner, k: Key, e: EntryId)
    | Compute(o: Owner, k: Key)
    | Publish(o: Owner, k: Key, candidate: EntryId)
    | SlowAdd(o: Owner, k: Key, e: EntryId)
    | Discard(o: Owner, k: Key, e: EntryId)
    | Returned(o: Owner, k: Key, e: EntryId)
    | Failed(o: Owner, k: Key)
      // Release
    | Starting(o: Owner)
    | Ranging(o: Owner, remaining: set<Key>, toDelete: seq<(Key, EntryId)>)
    | Draining(o: Owner, toDelete: seq<(Key, EntryId)>)
    | Released(o: Owner)
  {
    predicate DoingFor(owner: Owner) {
      (Load? || FastAdd? || Compute? || Publish? || SlowAdd? || Discard?) && o == owner
    }

    predicate CanStart() {
      Idle? || Returned? || Failed? || Released?
    }

    /** Inside Release(owner). */
    predicate InRelease(owner: Owner) {
      (Starting? || Ranging? || Draining?) && o == owner
    }
  }

  /** Range holds the map's lock for its whole duration. */
  datatype Lock = Free | HeldBy(t: Thread)

  datatype Sys = Sys(store: Store, lock: Lock, threads: map<Thread, PC>)

  datatype Action =
    | StartDo(t: Thread, o: Owner, k: Key)
    | StartRelease(t: Thread, o: Owner)
    | Compile(t: Thread, result: Value)
    | CompileFails(t: Thread)
    | Visit(t: Thread, k: Key)
    | Step(t: Thread)

  const INIT := Sys(EMPTY, Free, map[])

  function At(s: Sys, t: Thread): PC {
    if t in s.threads then s.threads[t] else Idle
  }

  function Goto(s: Sys, t: Thread, pc: PC): Sys {
    s.(threads := s.threads[t := pc])
  }

  /** One atomic step; an action that is not enabled, or blocked on the map's lock, changes nothing. */
  function Apply(s: Sys, a: Action): Sys {
    match a
    case StartDo(t, o, k) => if At(s, t).CanStart() then Goto(s, t, Load(o, k)) else s
    case StartRelease(t, o) => if At(s, t).CanStart() then Goto(s, t, Starting(o)) else s
    case Compile(t, result) =>
      if At(s, t).Compute? then
        var (store, c) := NewCandidate(s.store, At(s, t).k, result, At(s, t).o);
        Goto(s.(store := store), t, Publish(At(s, t).o, At(s, t).k, c))
      else s
    case CompileFails(t) => if At(s, t).Compute? then Goto(s, t, Failed(At(s, t).o, At(s, t).k)) else s
    case Visit(t, k) => VisitKey(s, t, k)
    case Step(t) => StepThread(s, t)
  }

  /** The Range callback: drop the owner under the entry's lock, remember entries that became unowned. */
  function VisitKey(s: Sys, t: Thread, k: Key): Sys {
    var pc := At(s, t);
    if pc.Ranging? && k in pc.remaining && k in s.store.cache && s.store.Has(s.store.cache[k]) then
      var e := s.store.cache[k];
      var store := ReleaseOwner(s.store, e, pc.o);
      var toDelete := if store.entries[e].owners == {} then pc.toDelete + [(k, e)] else pc.toDelete;
      Goto(s.(store := store), t, Ranging(pc.o, pc.remaining - {k}, toDelete))
    else s
  }

  function StepThread(s: Sys, t: Thread): Sys {
    match At(s, t)
    case Load(o, k) =>
      if s.lock != Free then s
      else Goto(s, t, if k in s.store.cache then FastAdd(o, k, s.store.cache[k]) else Compute(o, k))
    case FastAdd(o, k, e) => TryOwn(s, t, o, e, Returned(o, k, e), Compute(o, k))
    case Publish(o, k, c) =>
      if s.lock != Free || !s.store.Has(c) then s
      else
        var (store, actual, loaded) := LoadOrStore(s.store, k, c);
        Goto(s.(store := store), t, if loaded then SlowAdd(o, k, actual) else Returned(o, k, c))
    case SlowAdd(o, k, e) => TryOwn(s, t, o, e, Returned(o, k, e), Discard(o, k, e))
    case Discard(o, k, e) =>
      if s.lock != Free then s
      else Goto(s.(store := CompareAndDelete(s.store, k, e)), t, Load(o, k))
    case Starting(o) =>
      if s.lock != Free then s
      else Goto(s.(lock := HeldBy(t)), t, Ranging(o, s.store.cache.Keys, []))
    case Ranging(o, remaining, toDelete) =>
      if remaining != {} then s else Goto(s.(lock := Free), t, Draining(o, toDelete))
    case Draining(o, toDelete) =>
      if toDelete == [] then Goto(s, t, Released(o))
      else if s.lock != Free then s
      else
        var (k, e) := toDelete[0];
        Goto(s.(store := CompareAndDelete(s.store, k, e)), t, Draining(o, toDelete[1..]))
    case _ => s
  }

  function TryOwn(s: Sys, t: Thread, o: Owner, e: EntryId, owned: PC, refused: PC): Sys {
    if !s.store.Has(e) then s
    else
      var (store, added) := AddOwner(s.store, e, o);
      Goto(s.(store := store), t, if added then owned else refused)
  }

  // ---------------------------------------------------------------- invariant

  ghost predicate AllDeleted(store: Store, toDelete: seq<(Key, EntryId)>) {
    forall i | 0 <= i < |toDelete| :: Published(store, toDelete[i].0, toDelete[i].1) && store.entries[toDelete[i].1].deleted
  }

  ghost predicate RefersProperly(pc: PC, store: Store) {
    match pc
    case FastAdd(_, k, e) => Published(store, k, e)
    case Publish(o, k, c) => Private(store, o, k, c)
    case SlowAdd(_, k, e) => Published(store, k, e)
    case Discard(_, k, e) => Published(store, k, e) && store.entries[e].deleted
    case Returned(_, k, e) => Published(store, k, e)
    case Ranging(_, _, toDelete) => AllDeleted(store, toDelete)
    case Draining(_, toDelete) => AllDeleted(store, toDelete)
    case _ => true
  }

  ghost predicate Inv(s: Sys) {
    && s.store.Valid()
    && (forall t | t in s.threads :: RefersProperly(s.threads[t], s.store))
    && (forall t | t in s.threads && s.threads[t].Ranging? :: s.lock == HeldBy(t))
    && (forall t, u | t in s.threads && u in s.threads && s.threads[t].Publish? && s.threads[u].Publish? && t != u ::
          s.threads[t].candidate != s.threads[u].candidate)
  }

  /** What a thread refers to survives steps that leave private entries alone. */
  lemma OthersKeepReferences(pc: PC, a: Store, b: Store)
    requires Undisturbed(a, b) && RefersProperly(pc, a)
    ensures RefersProperly(pc, b)
  {
  }

  lemma GotoKeepsInv(s: Sys, t: Thread, store: Store, lock: Lock, pc: PC)
    requires Inv(s) && store.Valid() && Undisturbed(s.store, store)
    requires RefersProperly(pc, store)
    requires pc.Publish? ==> !s.store.Has(pc.candidate)
    requires pc.Ranging? ==> lock == HeldBy(t)
    requires lock == s.lock || ((s.lock == Free || At(s, t).Ranging?) && (lock == Free || lock == HeldBy(t)))
    ensures Inv(Goto(s.(store := store, lock := lock), t, pc))
  {
    forall u | u in s.threads ensures RefersProperly(s.threads[u], store) {
      OthersKeepReferences(s.threads[u], s.store, store);
    }
    forall u | u in s.threads && s.threads[u].Publish? && pc.Publish? ensures s.threads[u].candidate != pc.candidate {
      assert RefersProperly(s.threads[u], s.store);
    }
  }

  lemma Unchanged(s: Sys)
    ensures Undisturbed(s.store, s.store) && Evolves(s.store, s.store)
    ensures s.(store := s.store, lock := s.lock) == s
  {
  }

  lemma OwnStep(s: Sys, t: Thread)
    requires Inv(s) && (At(s, t).FastAdd? || At(s, t).SlowAdd?)
    ensures Inv(StepThread(s, t)) && Evolves(s.store, StepThread(s, t).store)
  {
    hide Store.Valid;
    var pc := At(s, t);
    AddOwnerKeeps(s.store, pc.e, pc.o);
    var (store, added) := AddOwner(s.store, pc.e, pc.o);
    GotoKeepsInv(s, t, store, s.lock, At(StepThread(s, t), t));
  }

  lemma DeleteStep(s: Sys, t: Thread, k: Key, e: EntryId, pc: PC)
    requires Inv(s) && Published(s.store, k, e) && s.store.entries[e].deleted
    requires RefersProperly(pc, s.store) && !pc.Publish? && !pc.Ranging?
    ensures var store := CompareAndDelete(s.store, k, e);
            Inv(Goto(s.(store := store), t, pc)) && Evolves(s.store, store)
  {
    CompareAndDeleteKeeps(s.store, k, e);
    OthersKeepReferences(pc, s.store, CompareAndDelete(s.store, k, e));
    GotoKeepsInv(s, t, CompareAndDelete(s.store, k, e), s.lock, pc);
  }

  lemma PublishStep(s: Sys, t: Thread)
    requires Inv(s) && At(s, t).Publish?
    ensures Inv(StepThread(s, t)) && Evolves(s.store, StepThread(s, t).store)
  {
    var Publish(o, k, c) := At(s, t);
    LoadOrStoreKeeps(s.store, k, c);
    var (store, actual, loaded) := LoadOrStore(s.store, k, c);
    forall u | u in s.threads && u != t ensures RefersProperly(s.threads[u], store) {
      assert RefersProperly(s.threads[u], s.store);
    }
  }

  lemma VisitStep(s: Sys, t: Thread, k: Key)
    requires Inv(s)
    ensures Inv(VisitKey(s, t, k)) && Evolves(s.store, VisitKey(s, t, k).store)
  {
    Unchanged(s);
    var pc := At(s, t);
    if pc.Ranging? && k in pc.remaining && k in s.store.cache {
      var e := s.store.cache[k];
      ReleaseOwnerKeeps(s.store, e, pc.o);
      var store := ReleaseOwner(s.store, e, pc.o);
      OthersKeepReferences(pc, s.store, store);
      GotoKeepsInv(s, t, store, s.lock, At(VisitKey(s, t, k), t));
    }
  }

  lemma StepKeepsInv(s: Sys, t: Thread)
    requires Inv(s)
    ensures Inv(StepThread(s, t)) && Evolves(s.store, StepThread(s, t).store)
  {
    hide Store.Valid, Undisturbed, LoadOrStore, AddOwner, CompareAndDelete;
    Unchanged(s);
    match At(s, t)
    case Load(o, k) => LoadStep(s, t);
    case FastAdd(_, _, _) => OwnStep(s, t);
    case Publish(_, _, _) => PublishStep(s, t);
    case SlowAdd(_, _, _) => OwnStep(s, t);
    case Discard(o, k, e) => DeleteStep(s, t, k, e, Load(o, k));
    case Starting(o) =>
      if s.lock == Free {
        GotoKeepsInv(s, t, s.store, HeldBy(t), Ranging(o, s.store.cache.Keys, []));
      }
    case Ranging(o, _, toDelete) => GotoKeepsInv(s, t, s.store, Free, Draining(o, toDelete));
    case Draining(o, toDelete) =>
      if toDelete == [] {
        GotoKeepsInv(s, t, s.store, s.lock, Released(o));
      } else {
        DeleteStep(s, t, toDelete[0].0, toDelete[0].1, Draining(o, toDelete[1..]));
      }
    case _ =>
  }

  lemma LoadStep(s: Sys, t: Thread)
    requires Inv(s) && At(s, t).Load?
    ensures Inv(StepThread(s, t)) && StepThread(s, t).store == s.store
  {
    Unchanged(s);
    if s.lock == Free {
      GotoKeepsInv(s, t, s.store, s.lock, At(StepThread(s, t), t));
    }
  }

  lemma CompileStep(s: Sys, t: Thread, result: Value)
    requires Inv(s)
    ensures Inv(Apply(s, Compile(t, result))) && Evolves(s.store, Apply(s, Compile(t, result)).store)
  {
    Unchanged(s);
    if At(s, t).Compute? {
      NewCandidateKeeps(s.store, At(s, t).k, result, At(s, t).o);
      var (store, c) := NewCandidate(s.store, At(s, t).k, result, At(s, t).o);
      GotoKeepsInv(s, t, store, s.lock, Publish(At(s, t).o, At(s, t).k, c));
    }
  }

  /** Every step of every interleaving keeps the invariant, and entries only evolve as allowed. */
  lemma ApplyKeepsInv(s: Sys, a: Action)
    requires Inv(s)
    ensures Inv(Apply(s, a)) && Evolves(s.store, Apply(s, a).store)
  {
    hide Store.Valid, Undisturbed, Published, Private, StepThread, VisitKey;
    Unchanged(s);
    match a
    case Step(t) => StepKeepsInv(s, t);
    case Visit(t, k) => VisitStep(s, t, k);
    case Compile(t, result) => CompileStep(s, t, result);
    case StartDo(t, o, k) => GotoKeepsInv(s, t, s.store, s.lock, Load(o, k));
    case StartRelease(t, o) => GotoKeepsInv(s, t, s.store, s.lock, Starting(o));
    case CompileFails(t) =>
      if At(s, t).Compute? {
        GotoKeepsInv(s, t, s.store, s.lock, Failed(At(s, t).o, At(s, t).k));
      }
  }

  // ---------------------------------------------------------------- runs

  function Run(s: Sys, actions: seq<Action>): Sys
    decreases |actions|
  {
    if actions == [] then s else Run(Apply(s, actions[0]), actions[1..])
  }

  lemma {:induction false} RunKeepsInv(s: Sys, actions: seq<Action>)
    requires Inv(s)
    ensures Inv(Run(s, actions)) && Evolves(s.store, Run(s, actions).store)
    decreases |actions|
  {
    hide Inv, Apply;
    if actions != [] {
      var s' := Apply(s, actions[0]);
      ApplyKeepsInv(s, actions[0]);
      RunKeepsInv(s', actions[1..]);
      EvolvesTransitive(s.store, s'.store, Run(s, actions).store);
    }
  }

  /** The guarantees of MemoSync.EveryRun, for the deferred-delete variant. */
  lemma EveryRun(actions: seq<Action>, more: seq<Action>)
    ensures var s, s' := Run(INIT, actions), Run(Run(INIT, actions), more);
            && s'.store.Valid()
            && Evolves(s.store, s'.store)
            && (forall e | 0 <= e < |s.store.entries| && s.store.entries[e].deleted :: s'.store.entries[e].owners == {})
            && (forall e: EntryId, d: EntryId | s'.store.Live(e) && s'.store.Live(d) &&
                  s'.store.entries[e].key == s'.store.entries[d].key :: e == d)
            && (forall e: EntryId | s'.store.Live(e) ::
                  s'.store.entries[e].key in s'.store.cache && s'.store.cache[s'.store.entries[e].key] == e)
  {
    RunKeepsInv(INIT, actions);
    RunKeepsInv(Run(INIT, actions), more);
  }

  /** Do returns an entry that is live, current, and owned by its caller at the returning step. */
  lemma DoReturnsAnOwnedEntry(actions: seq<Action>, a: Action, t: Thread)
    requires var s := Run(INIT, actions);
             At(Apply(s, a), t).Returned? && At(s, t) != At(Apply(s, a), t)
    ensures var s' := Apply(Run(INIT, actions), a);
            var Returned(o, k, e) := At(s', t);
            && s'.store.Live(e)
            && s'.store.entries[e].key == k
            && o in s'.store.entries[e].owners
            && k in s'.store.cache && s'.store.cache[k] == e
  {
    RunKeepsInv(INIT, actions);
    ReturnStep(Run(INIT, actions), a, t);
  }

  lemma ReturnStep(s: Sys, a: Action, t: Thread)
    requires Inv(s) && At(Apply(s, a), t).Returned? && At(s, t) != At(Apply(s, a), t)
    ensures var s' := Apply(s, a);
            var Returned(o, k, e) := At(s', t);
            s'.store.Valid() && s'.store.Live(e) && s'.store.entries[e].key == k && o in s'.store.entries[e].owners
  {
    hide Store.Valid;
    assert a == Step(t);
    match At(s, t) {
      case Publish(o, k, c) => LoadOrStoreKeeps(s.store, k, c);
      case FastAdd(o, k, e) => AddOwnerKeeps(s.store, e, o);
      case SlowAdd(o, k, e) => AddOwnerKeeps(s.store, e, o);
    }
  }

  // ---------------------------------------------------------------- Release

  ghost predicate NoDo(s: Sys, o: Owner) {
    forall t | t in s.threads :: !s.threads[t].DoingFor(o)
  }

  /** What is still owned by `o` is still ahead of the range; once the range is over, nothing is. */
  ghost predicate StillAhead(s: Sys, t: Thread, o: Owner) {
    var pc := At(s, t);
    && pc.InRelease(o)
    && (pc.Ranging? ==> forall e: EntryId | OwnedBy(s.store, e, o) :: s.store.entries[e].key in pc.remaining)
    && (pc.Draining? ==> forall e: EntryId :: !OwnedBy(s.store, e, o))
  }

  /** Without a Do by `o`, no step of any thread makes `o` an owner. */
  lemma NoGain(s: Sys, a: Action, o: Owner)
    requires Inv(s) && NoDo(s, o)
    ensures GainsNone(s.store, Apply(s, a).store, o)
  {
    hide Store.Valid;
  }

  lemma AheadAfter(s: Sys, a: Action, t: Thread, o: Owner)
    requires Inv(s) && NoDo(s, o) && StillAhead(s, t, o)
    requires At(Apply(s, a), t).InRelease(o)
    ensures StillAhead(Apply(s, a), t, o)
  {
    NoGain(s, a, o);
    if a.t != t {
      assert At(Apply(s, a), t) == At(s, t);
    } else {
      match a {
        case Visit(_, k) => AheadAfterVisit(s, t, o, k);
        case _ =>
      }
    }
  }

  lemma AheadAfterVisit(s: Sys, t: Thread, o: Owner, k: Key)
    requires Inv(s) && NoDo(s, o) && StillAhead(s, t, o)
    ensures StillAhead(VisitKey(s, t, k), t, o)
  {
    var pc := At(s, t);
    if pc.Ranging? && k in pc.remaining && k in s.store.cache {
      var e := s.store.cache[k];
      ReleaseOwnerKeeps(s.store, e, o);
      var store := ReleaseOwner(s.store, e, o);
      forall d: EntryId | OwnedBy(store, d, o) ensures store.entries[d].key in pc.remaining - {k} {
        assert OwnedBy(s.store, d, o) && d != e;
      }
    }
  }

  /** `actions` carry Release(o) of thread `t` from `s` to its end, with no Do by `o` meanwhile. */
  ghost predicate QuietRelease(s: Sys, actions: seq<Action>, t: Thread, o: Owner)
    decreases |actions|
  {
    && NoDo(s, o)
    && At(s, t).InRelease(o)
    && actions != []
    && if |actions| == 1 then At(Apply(s, actions[0]), t) == Released(o)
       else QuietRelease(Apply(s, actions[0]), actions[1..], t, o)
  }

  lemma {:induction false} QuietReleaseEmpties(s: Sys, actions: seq<Action>, t: Thread, o: Owner)
    requires Inv(s) && StillAhead(s, t, o) && QuietRelease(s, actions, t, o)
    ensures forall e: EntryId :: !OwnedBy(Run(s, actions).store, e, o)
    decreases |actions|
  {
    hide Apply, Inv;
    var s' := Apply(s, actions[0]);
    ApplyKeepsInv(s, actions[0]);
    if |actions| == 1 {
      assert Run(s, actions) == s' by { assert actions[1..] == []; }
      LastReleaseStep(s, actions[0], t, o);
    } else {
      AheadAfter(s, actions[0], t, o);
      QuietReleaseEmpties(s', actions[1..], t, o);
    }
  }

  lemma LastReleaseStep(s: Sys, a: Action, t: Thread, o: Owner)
    requires Inv(s) && StillAhead(s, t, o) && At(Apply(s, a), t) == Released(o)
    ensures Apply(s, a).store == s.store && forall e: EntryId :: !OwnedBy(s.store, e, o)
  {
    hide Inv;
    assert a == Step(t);
  }

  /** After a quiet Release(o), deferred deletions included, no cache entry is owned by `o`. */
  lemma ReleaseLeavesNothing(before: seq<Action>, t: Thread, o: Owner, during: seq<Action>)
    requires var s := Run(INIT, before);
             && At(s, t).CanStart()
             && QuietRelease(Apply(s, StartRelease(t, o)), during, t, o)
    ensures var s' := Run(Apply(Run(INIT, before), StartRelease(t, o)), during);
            forall e: EntryId :: !OwnedBy(s'.store, e, o)
  {
    var s := Run(INIT, before);
    RunKeepsInv(INIT, before);
    ApplyKeepsInv(s, StartRelease(t, o));
    QuietReleaseEmpties(Apply(s, StartRelease(t, o)), during, t, o);
  }
}
