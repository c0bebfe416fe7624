/**
 internal/memoize/sync.go as an interleaving of atomic steps: any number of threads run Do and
 Release; a step is one map operation, one critical section of an entry lock, or one
 singleflight event. A run is any sequence of actions.
 */
module MemoSync {
  import opened MemoStore

  datatype Outcome = Ok(entry: EntryId) | Err

  /** Where a thread is: its next atomic step. */
  datatype PC =
    | Idle
      // Memoizer.Do
    | FastLoad(o: Owner, k: Key)
    | FastAdd(o: Owner, k: Key, e: EntryId)
    | Enter(o: Owner, k: Key)
    | Waiting(o: Owner, k: Key)
    | LeadLoad(o: Owner, k: Key)
    | LeadAdd(o: Owner, k: Key, e: EntryId)
    | Compute(o: Owner, k: Key)
    | Publish(o: Owner, k: Key, candidate: EntryId)
    | LoopAdd(o: Owner, k: Key, candidate: EntryId, e: EntryId)
    | Discard(o: Owner, k: Key, candidate: EntryId, e: EntryId)
    | Finish(o: Owner, k: Key, outcome: Outcome)
    | LastAdd(o: Owner, k: Key, e: EntryId)
    | Returned(o: Owner, k: Key, e: EntryId)
    | Failed(o: Owner, k: Key)
      // Release: `pending` are keys in the map since the start, `visited` those already handled
    | Ranging(o: Owner, pending: set<Key>, visited: set<Key>)
    | Releasing(o: Owner, pending: set<Key>, visited: set<Key>, k: Key, e: EntryId)
    | Deleting(o: Owner, pending: set<Key>, visited: set<Key>, k: Key, e: EntryId)
    | Released(o: Owner)
  {
    /** In the middle of Do on behalf of `owner`. */
    predicate DoingFor(owner: Owner) {
      match this
      case Idle => false
      case Returned(_, _, _) => false
      case Failed(_, _) => false
      case Ranging(_, _, _) => false
      case Releasing(_, _, _, _, _) => false
      case Deleting(_, _, _, _, _) => false
      case Released(_) => false
      case _ => o == owner
    }

    /** Executing the function passed to singleflight, for key `k`. */
    predicate Leads() {
      LeadLoad? || LeadAdd? || Compute? || Publish? || LoopAdd? || Discard? || Finish?
    }

    predicate CanStart() {
      Idle? || Returned? || Failed? || Released?
    }
  }

  /** `flights` maps a key to the thread executing it inside singleflight. */
  datatype Sys = Sys(store: Store, flights: map<Key, Thread>, threads: map<Thread, PC>)

  datatype Action =
    | StartDo(t: Thread, o: Owner, k: Key)
    | StartRelease(t: Thread, o: Owner)
    | Compile(t: Thread, result: Value)
    | CompileFails(t: Thread)
    | Visit(t: Thread, k: Key, e: EntryId)
    | EndRange(t: Thread)
    | Step(t: Thread)

  const INIT := Sys(EMPTY, map[], map[])

  function At(s: Sys, t: Thread): PC {
    if t in s.threads then s.threads[t] else Idle
  }

  function Goto(s: Sys, t: Thread, pc: PC): Sys {
    s.(threads := s.threads[t := pc])
  }

  function AfterFlight(o: Owner, k: Key, outcome: Outcome): PC {
    match outcome
    case Ok(e) => LastAdd(o, k, e)
    case Err => Failed(o, k)
  }

  /** A key leaves the map: the ranges under way need not visit it any more. */
  function ForgetKey(pc: PC, k: Key): PC {
    match pc
    case Ranging(o, pending, visited) => Ranging(o, pending - {k}, visited)
    case Releasing(o, pending, visited, j, e) => Releasing(o, pending - {k}, visited, j, e)
    case Deleting(o, pending, visited, j, e) => Deleting(o, pending - {k}, visited, j, e)
    case _ => pc
  }

  function RemoveKey(s: Sys, k: Key, e: EntryId): Sys {
    var store := CompareAndDelete(s.store, k, e);
    if store == s.store then s
    else s.(store := store, threads := map t | t in s.threads :: ForgetKey(s.threads[t], k))
  }

  /**
   What sync.Map promises of Range: no key twice, and for each key some mapping it had during the
   call. A key that has stayed in the map all the time has had one mapping only; for any other key
   every entry ever published under it is admitted.
   */
  predicate CanVisit(store: Store, pc: PC, k: Key, e: EntryId)
    requires pc.Ranging?
  {
    && k !in pc.visited
    && store.Has(e) && store.entries[e].published && store.entries[e].key == k
    && (k in pc.pending ==> k in store.cache && store.cache[k] == e)
  }

  /** One atomic step; an action that is not enabled changes nothing. */
  function Apply(s: Sys, a: Action): Sys {
    match a
    case StartDo(t, o, k) =>
      if At(s, t).CanStart() then Goto(s, t, FastLoad(o, k)) else s
    case StartRelease(t, o) =>
      if At(s, t).CanStart() then Goto(s, t, Ranging(o, s.store.cache.Keys, {})) else s
    case Compile(t, result) =>
      if At(s, t).Compute? then
        var (store, c) := NewCandidate(s.store, At(s, t).k, result, At(s, t).o);
        Goto(s.(store := store), t, Publish(At(s, t).o, At(s, t).k, c))
      else s
    case CompileFails(t) =>
      if At(s, t).Compute? then Goto(s, t, Finish(At(s, t).o, At(s, t).k, Err)) else s
    case Visit(t, k, e) =>
      if At(s, t).Ranging? && CanVisit(s.store, At(s, t), k, e) then
        var pc := At(s, t);
        Goto(s, t, Releasing(pc.o, pc.pending, pc.visited, k, e))
      else s
    case EndRange(t) =>
      if At(s, t).Ranging? && At(s, t).pending <= At(s, t).visited then Goto(s, t, Released(At(s, t).o)) else s
    case Step(t) => StepThread(s, t)
  }

  function StepThread(s: Sys, t: Thread): Sys {
    match At(s, t)
    case FastLoad(o, k) =>
      Goto(s, t, if k in s.store.cache then FastAdd(o, k, s.store.cache[k]) else Enter(o, k))
    case FastAdd(o, k, e) => TryOwn(s, t, o, e, Returned(o, k, e), Enter(o, k))
    case Enter(o, k) =>
      if k in s.flights then Goto(s, t, Waiting(o, k))
      else Goto(s.(flights := s.flights[k := t]), t, LeadLoad(o, k))
    case LeadLoad(o, k) =>
      Goto(s, t, if k in s.store.cache then LeadAdd(o, k, s.store.cache[k]) else Compute(o, k))
    case LeadAdd(o, k, e) => TryOwn(s, t, o, e, Finish(o, k, Ok(e)), Compute(o, k))
    case Publish(o, k, c) =>
      if !s.store.Has(c) then s
      else
        var (store, actual, loaded) := LoadOrStore(s.store, k, c);
        Goto(s.(store := store), t, if loaded then LoopAdd(o, k, c, actual) else Finish(o, k, Ok(c)))
    case LoopAdd(o, k, c, e) => TryOwn(s, t, o, e, Finish(o, k, Ok(e)), Discard(o, k, c, e))
    case Discard(o, k, c, e) => Goto(RemoveKey(s, k, e), t, Publish(o, k, c))
    case Finish(o, k, outcome) =>
      var woken := map u | u in s.threads :: Wake(s.threads[u], k, outcome);
      Goto(s.(flights := s.flights - {k}, threads := woken), t, AfterFlight(o, k, outcome))
    case LastAdd(o, k, e) => TryOwn(s, t, o, e, Returned(o, k, e), FastLoad(o, k))
    case Releasing(o, pending, visited, k, e) =>
      if !s.store.Has(e) then s
      else
        var store := ReleaseOwner(s.store, e, o);
        Goto(s.(store := store), t,
             if store.entries[e].owners == {} then Deleting(o, pending, visited, k, e)
             else Ranging(o, pending, visited + {k}))
    case Deleting(o, pending, visited, k, e) =>
      var s' := RemoveKey(s, k, e);
      var pc := At(s', t);
      if pc.Deleting? then Goto(s', t, Ranging(pc.o, pc.pending, pc.visited + {k})) else s'
    case _ => s
  }

  /** Enter the critical section of `e`, and continue according to whether ownership was recorded. */
  function TryOwn(s: Sys, t: Thread, o: Owner, e: EntryId, owned: PC, refused: PC): Sys {
    if !s.store.Has(e) then s
    else
      var (store, added) := AddOwner(s.store, e, o);
      Goto(s.(store := store), t, if added then owned else refused)
  }

  /** Every waiter of a flight receives its outcome. */
  function Wake(pc: PC, k: Key, outcome: Outcome): PC {
    if pc.Waiting? && pc.k == k then AfterFlight(pc.o, k, outcome) else pc
  }

  // ---------------------------------------------------------------- invariant

  /** The entries a thread refers to exist, were published for its key, and candidates are still private. */
  ghost predicate RefersProperly(pc: PC, store: Store) {
    match pc
    case FastAdd(_, k, e) => Published(store, k, e)
    case LeadAdd(_, k, e) => Published(store, k, e)
    case Publish(o, k, c) => Private(store, o, k, c)
    case LoopAdd(o, k, c, e) => Private(store, o, k, c) && Published(store, k, e)
    case Discard(o, k, c, e) => Private(store, o, k, c) && Published(store, k, e) && store.entries[e].deleted
    case Finish(_, k, outcome) => outcome.Ok? ==> Published(store, k, outcome.entry)
    case LastAdd(_, k, e) => Published(store, k, e)
    case Returned(_, k, e) => Published(store, k, e)
    case Releasing(_, _, _, k, e) => Published(store, k, e)
    case Deleting(_, _, _, k, e) => Published(store, k, e) && store.entries[e].deleted
    case _ => true
  }

  /** One leader per key, recorded in the flight table; waiters wait for a flight that exists. */
  ghost predicate FlightsAgree(s: Sys) {
    && (forall t | t in s.threads && s.threads[t].Leads() ::
          s.threads[t].k in s.flights && s.flights[s.threads[t].k] == t)
    && (forall t | t in s.threads && s.threads[t].Waiting? :: s.threads[t].k in s.flights)
  }

  ghost predicate Inv(s: Sys) {
    && s.store.Valid()
    && FlightsAgree(s)
    && forall t | t in s.threads :: RefersProperly(s.threads[t], s.store)
  }

  /** Steps that publish nothing of key `k` and touch no private entry leave other threads' references intact. */
  lemma OthersKeepReferences(pc: PC, a: Store, b: Store)
    requires Undisturbed(a, b) && RefersProperly(pc, a)
    ensures RefersProperly(pc, b)
  {
  }

  /** A thread moves on while the store changes underneath the others. */
  lemma GotoKeepsInv(s: Sys, t: Thread, store: Store, pc: PC)
    requires Inv(s) && store.Valid() && Undisturbed(s.store, store)
    requires RefersProperly(pc, store)
    requires pc.Leads() ==> At(s, t).Leads() && At(s, t).k == pc.k
    requires pc.Waiting? ==> pc.k in s.flights
    ensures Inv(Goto(s.(store := store), t, pc))
  {
    forall u | u in s.threads ensures RefersProperly(s.threads[u], store) {
      OthersKeepReferences(s.threads[u], s.store, store);
    }
  }

  lemma TryOwnKeepsInv(s: Sys, t: Thread, o: Owner, k: Key, e: EntryId, owned: PC, refused: PC)
    requires Inv(s) && Published(s.store, k, e)
    requires RefersProperly(owned, AddOwner(s.store, e, o).0)
    requires s.store.entries[e].deleted ==> RefersProperly(refused, s.store)
    requires owned.Leads() ==> At(s, t).Leads() && At(s, t).k == owned.k
    requires refused.Leads() ==> At(s, t).Leads() && At(s, t).k == refused.k
    requires !owned.Waiting? && !refused.Waiting?
    ensures Inv(TryOwn(s, t, o, e, owned, refused))
    ensures Evolves(s.store, TryOwn(s, t, o, e, owned, refused).store)
  {
    AddOwnerKeeps(s.store, e, o);
    var (store, added) := AddOwner(s.store, e, o);
    GotoKeepsInv(s, t, store, if added then owned else refused);
  }

  lemma RemoveKeyKeepsInv(s: Sys, k: Key, e: EntryId)
    requires Inv(s) && s.store.Has(e) && s.store.entries[e].deleted
    ensures var s' := RemoveKey(s, k, e);
            && Inv(s') && Evolves(s.store, s'.store) && s'.flights == s.flights
            && s'.store.entries == s.store.entries
            && s'.threads.Keys == s.threads.Keys
            && forall t | t in s.threads :: s'.threads[t] == s.threads[t] || s'.threads[t] == ForgetKey(s.threads[t], k)
  {
    CompareAndDeleteKeeps(s.store, k, e);
  }

  lemma FinishKeepsInv(s: Sys, t: Thread)
    requires Inv(s) && At(s, t).Finish?
    ensures Inv(StepThread(s, t)) && StepThread(s, t).store == s.store
  {
    hide Store.Valid, Published, Private;
    var Finish(o, k, outcome) := At(s, t);
    var s' := StepThread(s, t);
    assert s.threads[t].Leads();
    forall u | u in s'.threads
      ensures RefersProperly(s'.threads[u], s.store)
      ensures s'.threads[u].Waiting? ==> s'.threads[u].k in s'.flights
      ensures s'.threads[u].Leads() ==> s'.threads[u].k in s'.flights && s'.flights[s'.threads[u].k] == u
    {
      if u != t {
        var pc := s.threads[u];
        assert pc.Leads() ==> pc.k != k;
        assert s'.threads[u] == Wake(pc, k, outcome);
      }
    }
  }

  lemma UniqueLeader(s: Sys, t: Thread, u: Thread)
    requires FlightsAgree(s) && At(s, t).Leads() && At(s, u).Leads() && At(s, t).k == At(s, u).k
    ensures t == u
  {
  }

  lemma PublishKeepsInv(s: Sys, t: Thread)
    requires Inv(s) && At(s, t).Publish?
    ensures Inv(StepThread(s, t)) && Evolves(s.store, StepThread(s, t).store)
  {
    var Publish(o, k, c) := At(s, t);
    LoadOrStoreKeeps(s.store, k, c);
    var (store, actual, loaded) := LoadOrStore(s.store, k, c);
    forall u | u in s.threads && u != t ensures RefersProperly(s.threads[u], store) {
      // another thread holding a candidate leads a different key, so its candidate is not `c`
      if At(s, u).Leads() && At(s, u).k == k {
        UniqueLeader(s, t, u);
      }
    }
  }

  lemma StepKeepsInv(s: Sys, t: Thread)
    requires Inv(s)
    ensures Inv(StepThread(s, t)) && Evolves(s.store, StepThread(s, t).store)
  {
    hide Store.Valid, Undisturbed, Published, Private, TryOwn, LoadOrStore, ReleaseOwner;
    Unchanged(s);
    match At(s, t)
    case FastLoad(o, k) => LoadStep(s, t);
    case FastAdd(o, k, e) => OwnStep(s, t);
    case Enter(o, k) => EnterStep(s, t);
    case LeadLoad(o, k) => LoadStep(s, t);
    case LeadAdd(o, k, e) => OwnStep(s, t);
    case Publish(o, k, c) => PublishKeepsInv(s, t);
    case LoopAdd(o, k, c, e) => OwnStep(s, t);
    case Discard(o, k, c, e) =>
      DiscardStep(s, t);
    case Finish(_, _, _) => FinishKeepsInv(s, t);
    case LastAdd(o, k, e) => OwnStep(s, t);
    case Releasing(o, pending, visited, k, e) => ReleaseStep(s, t);
    case Deleting(o, pending, visited, k, e) =>
      DeletingStep(s, t);
    case _ =>
  }

  lemma EnterStep(s: Sys, t: Thread)
    requires Inv(s) && At(s, t).Enter?
    ensures Inv(StepThread(s, t)) && StepThread(s, t).store == s.store
  {
    hide Store.Valid, Published, Private;
  }

  lemma DiscardStep(s: Sys, t: Thread)
    requires Inv(s) && At(s, t).Discard?
    ensures Inv(StepThread(s, t)) && Evolves(s.store, StepThread(s, t).store)
  {
    hide Store.Valid;
    var Discard(o, k, c, e) := At(s, t);
    RemoveKeyKeepsInv(s, k, e);
    GotoKeepsInv(RemoveKey(s, k, e), t, RemoveKey(s, k, e).store, Publish(o, k, c));
  }

  lemma DeletingStep(s: Sys, t: Thread)
    requires Inv(s) && At(s, t).Deleting?
    ensures Inv(StepThread(s, t)) && Evolves(s.store, StepThread(s, t).store)
  {
    hide Store.Valid;
    var Deleting(o, _, visited, k, e) := At(s, t);
    RemoveKeyKeepsInv(s, k, e);
    var s' := RemoveKey(s, k, e);
    GotoKeepsInv(s', t, s'.store, Ranging(o, At(s', t).pending, visited + {k}));
  }

  lemma LoadStep(s: Sys, t: Thread)
    requires Inv(s) && (At(s, t).FastLoad? || At(s, t).LeadLoad?)
    ensures Inv(StepThread(s, t)) && StepThread(s, t).store == s.store
  {
  }

  lemma OwnStep(s: Sys, t: Thread)
    requires Inv(s) && (At(s, t).FastAdd? || At(s, t).LeadAdd? || At(s, t).LoopAdd? || At(s, t).LastAdd?)
    ensures Inv(StepThread(s, t)) && Evolves(s.store, StepThread(s, t).store)
  {
    hide Store.Valid, FlightsAgree;
    var pc := At(s, t);
    var o, k, e := pc.o, pc.k, pc.e;
    AddOwnerKeeps(s.store, e, o);
    match pc
    case FastAdd(_, _, _) => TryOwnKeepsInv(s, t, o, k, e, Returned(o, k, e), Enter(o, k));
    case LeadAdd(_, _, _) => TryOwnKeepsInv(s, t, o, k, e, Finish(o, k, Ok(e)), Compute(o, k));
    case LoopAdd(_, _, c, _) => TryOwnKeepsInv(s, t, o, k, e, Finish(o, k, Ok(e)), Discard(o, k, c, e));
    case LastAdd(_, _, _) => TryOwnKeepsInv(s, t, o, k, e, Returned(o, k, e), FastLoad(o, k));
  }

  lemma ReleaseStep(s: Sys, t: Thread)
    requires Inv(s) && At(s, t).Releasing?
    ensures Inv(StepThread(s, t)) && Evolves(s.store, StepThread(s, t).store)
  {
    var Releasing(o, pending, visited, k, e) := At(s, t);
    ReleaseOwnerKeeps(s.store, e, o);
    var store := ReleaseOwner(s.store, e, o);
    GotoKeepsInv(s, t, store, if store.entries[e].owners == {} then Deleting(o, pending, visited, k, e)
                              else Ranging(o, pending, visited + {k}));
  }

  /** Every step of every interleaving keeps the invariant, and entries only evolve as allowed. */
  lemma ApplyKeepsInv(s: Sys, a: Action)
    requires Inv(s)
    ensures Inv(Apply(s, a)) && Evolves(s.store, Apply(s, a).store)
  {
    hide Store.Valid, Undisturbed, Published, Private, StepThread;
    Unchanged(s);
    match a
    case Step(t) => StepKeepsInv(s, t);
    case Compile(t, result) => CompileStep(s, t, result);
    case StartDo(t, o, k) => GotoKeepsInv(s, t, s.store, FastLoad(o, k));
    case StartRelease(t, o) => GotoKeepsInv(s, t, s.store, Ranging(o, s.store.cache.Keys, {}));
    case CompileFails(t) =>
      if At(s, t).Compute? {
        GotoKeepsInv(s, t, s.store, Finish(At(s, t).o, At(s, t).k, Err));
      }
    case Visit(t, k, e) => VisitStep(s, t, k, e);
    case EndRange(t) =>
      if At(s, t).Ranging? {
        GotoKeepsInv(s, t, s.store, Released(At(s, t).o));
      }
  }

  lemma Unchanged(s: Sys)
    ensures Undisturbed(s.store, s.store) && Evolves(s.store, s.store)
    ensures s.(store := s.store) == s
  {
  }

  lemma VisitStep(s: Sys, t: Thread, k: Key, e: EntryId)
    requires Inv(s)
    ensures Inv(Apply(s, Visit(t, k, e))) && Apply(s, Visit(t, k, e)).store == s.store
  {
    Unchanged(s);
    if At(s, t).Ranging? && CanVisit(s.store, At(s, t), k, e) {
      var pc := At(s, t);
      GotoKeepsInv(s, t, s.store, Releasing(pc.o, pc.pending, pc.visited, k, e));
    }
  }

  lemma CompileStep(s: Sys, t: Thread, result: Value)
    requires Inv(s)
    ensures Inv(Apply(s, Compile(t, result))) && Evolves(s.store, Apply(s, Compile(t, result)).store)
  {
    Unchanged(s);
    if At(s, t).Compute? {
      NewCandidateKeeps(s.store, At(s, t).k, result, At(s, t).o);
      var (store, c) := NewCandidate(s.store, At(s, t).k, result, At(s, t).o);
      GotoKeepsInv(s, t, store, Publish(At(s, t).o, At(s, t).k, c));
    }
  }

  // ---------------------------------------------------------------- runs

  function Run(s: Sys, actions: seq<Action>): Sys
    decreases |actions|
  {
    if actions == [] then s else Run(Apply(s, actions[0]), actions[1..])
  }

  lemma {:induction false} RunKeepsInv(s: Sys, actions: seq<Action>)
    requires Inv(s)
    ensures Inv(Run(s, actions)) && Evolves(s.store, Run(s, actions).store)
    decreases |actions|
  {
    if actions != [] {
      var s' := Apply(s, actions[0]);
      ApplyKeepsInv(s, actions[0]);
      RunKeepsInv(s', actions[1..]);
      EvolvesTransitive(s.store, s'.store, Run(s, actions).store);
    }
  }

  /**
   Over every interleaving from the start: the map holds exactly one live entry per live key, a
   deleted entry has no owner, and `deleted`, keys and values never change back.
   */
  lemma EveryRun(actions: seq<Action>, more: seq<Action>)
    ensures var s, s' := Run(INIT, actions), Run(Run(INIT, actions), more);
            && s'.store.Valid()
            && Evolves(s.store, s'.store)
            && (forall e | 0 <= e < |s.store.entries| && s.store.entries[e].deleted :: s'.store.entries[e].owners == {})
            && (forall e: EntryId, d: EntryId | s'.store.Live(e) && s'.store.Live(d) &&
                  s'.store.entries[e].key == s'.store.entries[d].key :: e == d)
            && (forall e: EntryId | s'.store.Live(e) ::
                  s'.store.entries[e].key in s'.store.cache && s'.store.cache[s'.store.entries[e].key] == e)
  {
    RunKeepsInv(INIT, actions);
    RunKeepsInv(Run(INIT, actions), more);
  }

  /** singleflight: at most one thread executes the compilation of a key at any time. */
  lemma OneFlightPerKey(actions: seq<Action>, t: Thread, u: Thread)
    requires var s := Run(INIT, actions);
             At(s, t).Leads() && At(s, u).Leads() && At(s, t).k == At(s, u).k
    ensures t == u
  {
    RunKeepsInv(INIT, actions);
    UniqueLeader(Run(INIT, actions), t, u);
  }

  /**
   Do hands out only what its owner holds: at the step that makes it return, the owner is in the
   owner set of the very entry whose value is returned, and that entry is live and current.
   */
  lemma DoReturnsAnOwnedEntry(actions: seq<Action>, a: Action, t: Thread)
    ensures var s := Run(INIT, actions);
            var s' := Apply(s, a);
            ReturnsNow(s, s', t) ==>
              var Returned(o, k, e) := At(s', t);
              && s'.store.Live(e)
              && s'.store.entries[e].key == k
              && o in s'.store.entries[e].owners
              && k in s'.store.cache && s'.store.cache[k] == e
  {
    RunKeepsInv(INIT, actions);
    ReturnStep(Run(INIT, actions), a, t);
  }

  /** Do returns to `t` between the two states. */
  predicate ReturnsNow(s: Sys, s': Sys, t: Thread) {
    At(s', t).Returned? && At(s, t) != At(s', t)
  }

  lemma ReturnStep(s: Sys, a: Action, t: Thread)
    requires Inv(s)
    ensures var s' := Apply(s, a);
            ReturnsNow(s, s', t) ==>
              var Returned(o, k, e) := At(s', t);
              s'.store.Valid() && s'.store.Live(e) && s'.store.entries[e].key == k && o in s'.store.entries[e].owners
  {
    hide Store.Valid;
    if ReturnsNow(s, Apply(s, a), t) {
      OnlyOwnMoveReturns(s, a, t);
      var pc := At(s, t);
      AddOwnerKeeps(s.store, pc.e, pc.o);
    }
  }

  /** A thread comes to Returned only by its own successful addOwner. */
  lemma OnlyOwnMoveReturns(s: Sys, a: Action, t: Thread)
    requires Inv(s)
    ensures ReturnsNow(s, Apply(s, a), t) ==>
              a == Step(t) && (At(s, t).FastAdd? || At(s, t).LastAdd?) && Published(s.store, At(s, t).k, At(s, t).e)
  {
    hide Store.Valid, Undisturbed;
    if a.Step? && a.t != t {
      OtherMoves(s, a.t, t);
    }
  }

  /** Another thread's step leaves `t` where it is, wakes it from a flight, or forgets a key of its range. */
  lemma OtherMoves(s: Sys, u: Thread, t: Thread)
    requires u != t
    ensures var pc, pc' := At(s, t), At(StepThread(s, u), t);
            pc' == pc || pc'.LastAdd? || pc'.Failed? || exists k :: pc' == ForgetKey(pc, k)
  {
    hide Store.Valid, AddOwner, ReleaseOwner, LoadOrStore, CompareAndDelete;
    match At(s, u)
    case Discard(o, k, c, e) =>
      assert At(RemoveKey(s, k, e), t) == At(s, t) || At(RemoveKey(s, k, e), t) == ForgetKey(At(s, t), k);
    case Deleting(o, pending, visited, k, e) =>
      assert At(RemoveKey(s, k, e), t) == At(s, t) || At(RemoveKey(s, k, e), t) == ForgetKey(At(s, t), k);
    case _ =>
  }

  // ---------------------------------------------------------------- Release

  /** No thread is inside Do on behalf of `o`. */
  ghost predicate NoDo(s: Sys, o: Owner) {
    forall t | t in s.threads :: !s.threads[t].DoingFor(o)
  }

  /** `t` is inside Release(o). */
  predicate InRelease(pc: PC, o: Owner) {
    (pc.Ranging? || pc.Releasing? || pc.Deleting?) && pc.o == o
  }

  /** What is still owned by `o` is still ahead of the range, or is the entry being released. */
  ghost predicate StillAhead(s: Sys, t: Thread, o: Owner) {
    var pc := At(s, t);
    && InRelease(pc, o)
    && forall e: EntryId | OwnedBy(s.store, e, o) ::
         && s.store.entries[e].key in pc.pending - pc.visited
         && (pc.Releasing? && s.store.entries[e].key == pc.k ==> e == pc.e)
         && (pc.Deleting? ==> s.store.entries[e].key != pc.k)
  }

  /** Without a Do by `o`, no step of any thread makes `o` an owner. */
  lemma NoGain(s: Sys, a: Action, o: Owner)
    requires Inv(s) && NoDo(s, o)
    ensures GainsNone(s.store, Apply(s, a).store, o)
  {
    hide Store.Valid, FlightsAgree;
    match a
    case Step(t) =>
      match At(s, t) {
        case Discard(_, _, _, _) => RemoveKeyKeepsEntries(s, At(s, t).k, At(s, t).e);
        case Deleting(_, _, _, _, _) => RemoveKeyKeepsEntries(s, At(s, t).k, At(s, t).e);
        case _ =>
      }
    case _ =>
  }

  lemma RemoveKeyKeepsEntries(s: Sys, k: Key, e: EntryId)
    ensures RemoveKey(s, k, e).store.entries == s.store.entries
  {
  }

  /** Steps of other threads leave the range of `t` alone, except that removed keys drop out of it. */
  lemma RangeUnderOthers(s: Sys, a: Action, t: Thread, o: Owner)
    requires Inv(s) && InRelease(At(s, t), o) && a.t != t
    ensures var pc, pc' := At(s, t), At(Apply(s, a), t);
            || pc' == pc
            || exists k :: pc' == ForgetKey(pc, k) && k in s.store.cache && s.store.entries[s.store.cache[k]].deleted
  {
    hide Store.Valid, FlightsAgree, AddOwner, ReleaseOwner, LoadOrStore;
    if a.Step? {
      match At(s, a.t) {
        case Discard(_, _, _, _) => RemovedKey(s, a.t, t);
        case Deleting(_, _, _, _, _) => RemovedKey(s, a.t, t);
        case _ =>
      }
    }
  }

  lemma RemovedKey(s: Sys, u: Thread, t: Thread)
    requires Inv(s) && u != t && (At(s, u).Discard? || At(s, u).Deleting?)
    ensures var pc, pc' := At(s, t), At(StepThread(s, u), t);
            var k := At(s, u).k;
            || pc' == pc
            || (pc' == ForgetKey(pc, k) && k in s.store.cache && s.store.entries[s.store.cache[k]].deleted)
  {
    hide Store.Valid, FlightsAgree;
    var k, e := At(s, u).k, At(s, u).e;
    assert s.store.entries[e].deleted;
    assert At(RemoveKey(s, k, e), t) == At(s, t) ||
           (At(RemoveKey(s, k, e), t) == ForgetKey(At(s, t), k) && k in s.store.cache && s.store.cache[k] == e);
  }

  /** An owned entry is live, hence the map's current entry for its key. */
  lemma OwnedIsCurrent(s: Store, e: EntryId, o: Owner)
    requires s.Valid() && OwnedBy(s, e, o)
    ensures s.entries[e].key in s.cache && s.cache[s.entries[e].key] == e && !s.entries[e].deleted
  {
  }

  lemma AheadUnderOthers(s: Sys, a: Action, t: Thread, o: Owner)
    requires Inv(s) && NoDo(s, o) && StillAhead(s, t, o) && a.t != t
    ensures StillAhead(Apply(s, a), t, o)
  {
    hide Apply, Inv;
    assert s.store.Valid() by { InvMeansValid(s); }
    NoGain(s, a, o);
    RangeUnderOthers(s, a, t, o);
    var pc, pc' := At(s, t), At(Apply(s, a), t);
    if pc' != pc {
      var k :| pc' == ForgetKey(pc, k) && k in s.store.cache && s.store.entries[s.store.cache[k]].deleted;
      forall e: EntryId | OwnedBy(s.store, e, o) ensures s.store.entries[e].key != k {
        OwnedIsCurrent(s.store, e, o);
      }
    }
  }

  lemma InvMeansValid(s: Sys)
    requires Inv(s)
    ensures s.store.Valid()
  {
  }

  /** The releasing thread's own steps. */
  lemma AheadUnderOwn(s: Sys, a: Action, t: Thread, o: Owner)
    requires Inv(s) && NoDo(s, o) && StillAhead(s, t, o) && a.t == t
    requires InRelease(At(Apply(s, a), t), o)
    ensures StillAhead(Apply(s, a), t, o)
  {
    hide FlightsAgree;
    NoGain(s, a, o);
    match a
    case Visit(_, k, d) =>
      forall e: EntryId | OwnedBy(s.store, e, o) && s.store.entries[e].key == k
        ensures k in s.store.cache && e == s.store.cache[k]
      {
        OwnedIsCurrent(s.store, e, o);
      }
    case Step(_) =>
      match At(s, t) {
        case Releasing(_, pending, visited, k, e) =>
          ReleaseOwnerKeeps(s.store, e, o);
        case Deleting(_, pending, visited, k, e) =>
          OwnDelete(s, t, o);
        case _ =>
      }
    case _ =>
  }

  lemma OwnDelete(s: Sys, t: Thread, o: Owner)
    requires Inv(s) && StillAhead(s, t, o) && At(s, t).Deleting?
    ensures StillAhead(StepThread(s, t), t, o)
  {
    hide Store.Valid, FlightsAgree;
    var Deleting(_, pending, visited, k, e) := At(s, t);
    RemoveKeyKeepsEntries(s, k, e);
    var s' := RemoveKey(s, k, e);
    assert At(s', t) == At(s, t) || At(s', t) == ForgetKey(At(s, t), k);
  }

  /** Release starts with every owned entry ahead of it. */
  lemma ReleaseStarts(s: Sys, t: Thread, o: Owner)
    requires Inv(s) && At(s, t).CanStart()
    ensures StillAhead(Apply(s, StartRelease(t, o)), t, o)
  {
    forall e: EntryId | OwnedBy(s.store, e, o) ensures s.store.entries[e].key in s.store.cache.Keys {
      OwnedIsCurrent(s.store, e, o);
    }
  }

  /** `actions` carry Release(o) of thread `t` from `s` to its end, with no Do by `o` meanwhile. */
  ghost predicate QuietRelease(s: Sys, actions: seq<Action>, t: Thread, o: Owner)
    decreases |actions|
  {
    && NoDo(s, o)
    && InRelease(At(s, t), o)
    && actions != []
    && if |actions| == 1 then At(Apply(s, actions[0]), t) == Released(o)
       else QuietRelease(Apply(s, actions[0]), actions[1..], t, o)
  }

  lemma {:induction false} QuietReleaseEmpties(s: Sys, actions: seq<Action>, t: Thread, o: Owner)
    requires Inv(s) && StillAhead(s, t, o) && QuietRelease(s, actions, t, o)
    ensures forall e: EntryId :: !OwnedBy(Run(s, actions).store, e, o)
    decreases |actions|
  {
    hide Apply, Inv;
    var a := actions[0];
    var s' := Apply(s, a);
    ApplyKeepsInv(s, a);
    NoGain(s, a, o);
    if |actions| == 1 {
      assert Run(s, actions) == s' by { assert actions[1..] == []; }
      LastReleaseStep(s, a, t, o);
    } else {
      if a.t == t {
        AheadUnderOwn(s, a, t, o);
      } else {
        AheadUnderOthers(s, a, t, o);
      }
      QuietReleaseEmpties(s', actions[1..], t, o);
    }
  }

  /** The range ends only when nothing is ahead. */
  lemma LastReleaseStep(s: Sys, a: Action, t: Thread, o: Owner)
    requires Inv(s) && StillAhead(s, t, o)
    ensures At(Apply(s, a), t) == Released(o) ==>
              Apply(s, a).store == s.store && forall e: EntryId :: !OwnedBy(s.store, e, o)
  {
    hide Inv;
    if At(Apply(s, a), t) == Released(o) {
      if a.t != t {
        RangeUnderOthers(s, a, t, o);
      } else {
        assert a.EndRange?;
      }
    }
  }

  /**
   After Release(o), run to its end among arbitrary other threads but with no Do by `o`, no cache
   entry is owned by `o`: nothing it compiled is kept alive.
   */
  lemma ReleaseLeavesNothing(before: seq<Action>, t: Thread, o: Owner, during: seq<Action>)
    requires var s := Run(INIT, before);
             && At(s, t).CanStart()
             && QuietRelease(Apply(s, StartRelease(t, o)), during, t, o)
    ensures var s' := Run(Apply(Run(INIT, before), StartRelease(t, o)), during);
            forall e: EntryId :: !OwnedBy(s'.store, e, o)
  {
    hide Apply, Inv;
    var s := Run(INIT, before);
    InitInv();
    RunKeepsInv(INIT, before);
    ReleaseStarts(s, t, o);
    ApplyKeepsInv(s, StartRelease(t, o));
    QuietReleaseEmpties(Apply(s, StartRelease(t, o)), during, t, o);
  }

  lemma InitInv()
    ensures Inv(INIT)
  {
  }
}
