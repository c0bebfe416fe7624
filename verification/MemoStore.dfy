/**
 The shared state of the memoizer (internal/memoize): cache entries with owner sets and a
 deleted tombstone, and the map from keys to entries. Each function below is one atomic step of
 the concurrent programs in MemoSync and MemoNosync.
 */
module MemoStore {

  type Key = string
  type Owner = nat
  type Value = int
  type EntryId = nat

  /**
   An entry of the cache. `key` and `published` are history: the key the entry was created for, and
   whether it has ever been in the map.
   */
  datatype Entry = Entry(key: Key, value: Value, owners: set<Owner>, deleted: bool, published: bool)

  /** Entries by identity (pointers), and the map. */
  datatype Store = Store(entries: seq<Entry>, cache: map<Key, EntryId>) {

    predicate Has(e: EntryId) {
      e < |entries|
    }

    ghost predicate Valid() {
      && (forall k | k in cache :: Has(cache[k]) && entries[cache[k]].key == k && entries[cache[k]].published)
      && (forall e | 0 <= e < |entries| && entries[e].published && !entries[e].deleted ::
            entries[e].key in cache && cache[entries[e].key] == e)
      && (forall e | 0 <= e < |entries| :: entries[e].deleted <==> entries[e].owners == {})
      && (forall e | 0 <= e < |entries| && entries[e].deleted :: entries[e].published)
    }

    /** A published entry that has not been marked deleted. */
    predicate Live(e: EntryId) {
      Has(e) && entries[e].published && !entries[e].deleted
    }
  }

  const EMPTY := Store([], map[])

  /** addOwner: refuses a deleted entry. */
  function AddOwner(s: Store, e: EntryId, o: Owner): (Store, bool)
    requires s.Has(e)
  {
    if s.entries[e].deleted then (s, false)
    else (s.(entries := s.entries[e := s.entries[e].(owners := s.entries[e].owners + {o})]), true)
  }

  /** The locked part of releasing: drop the owner, and mark the entry deleted when it was the last. */
  function ReleaseOwner(s: Store, e: EntryId, o: Owner): Store
    requires s.Has(e)
  {
    var owners := s.entries[e].owners - {o};
    var entry := s.entries[e].(owners := owners, deleted := s.entries[e].deleted || owners == {});
    s.(entries := s.entries[e := entry])
  }

  function CompareAndDelete(s: Store, k: Key, e: EntryId): Store {
    if k in s.cache && s.cache[k] == e then s.(cache := s.cache - {k}) else s
  }

  /** A fresh, unpublished entry owned by its creator. */
  function NewCandidate(s: Store, k: Key, value: Value, o: Owner): (Store, EntryId) {
    (s.(entries := s.entries + [Entry(k, value, {o}, false, false)]), |s.entries|)
  }

  /** LoadOrStore: the entry now in the map under `k`, and whether it was there before. */
  function LoadOrStore(s: Store, k: Key, candidate: EntryId): (Store, EntryId, bool)
    requires s.Has(candidate)
  {
    if k in s.cache then (s, s.cache[k], true)
    else
      (s.(cache := s.cache[k := candidate],
          entries := s.entries[candidate := s.entries[candidate].(published := true)]), candidate, false)
  }

  /**
   What every step keeps of every entry: its key and value, its having been published, and being
   deleted; a deleted entry gains no owner.
   */
  ghost predicate Evolves(s: Store, s': Store) {
    && |s.entries| <= |s'.entries|
    && forall e | 0 <= e < |s.entries| ::
         && s'.entries[e].key == s.entries[e].key
         && s'.entries[e].value == s.entries[e].value
         && (s.entries[e].published ==> s'.entries[e].published)
         && (s.entries[e].deleted ==> s'.entries[e].deleted && s'.entries[e].owners <= s.entries[e].owners)
  }

  lemma AddOwnerKeeps(s: Store, e: EntryId, o: Owner)
    requires s.Valid() && s.Has(e)
    ensures var (s', added) := AddOwner(s, e, o);
            && s'.Valid() && Evolves(s, s') && s'.cache == s.cache
            && |s'.entries| == |s.entries|
            && (forall d | 0 <= d < |s.entries| && d != e :: s'.entries[d] == s.entries[d])
            && (added ==> o in s'.entries[e].owners && !s'.entries[e].deleted)
            && (!added ==> s'.entries[e].deleted)
            && (added <==> !s.entries[e].deleted) && (added ==> s'.entries[e].owners == s.entries[e].owners + {o})
            && s'.entries[e].published == s.entries[e].published
            && s'.entries[e].owners <= s.entries[e].owners + {o}
  {
  }

  lemma ReleaseOwnerKeeps(s: Store, e: EntryId, o: Owner)
    requires s.Valid() && s.Has(e) && s.entries[e].published
    ensures var s' := ReleaseOwner(s, e, o);
            && s'.Valid() && Evolves(s, s') && s'.cache == s.cache
            && |s'.entries| == |s.entries|
            && (forall d | 0 <= d < |s.entries| && d != e :: s'.entries[d] == s.entries[d])
            && o !in s'.entries[e].owners
            && s'.entries[e].owners == s.entries[e].owners - {o}
            && (s'.entries[e].deleted <==> s.entries[e].deleted || s'.entries[e].owners == {})
            && s'.entries[e].published
  {
  }

  /** Removing a deleted entry from the map keeps every live entry in it. */
  lemma CompareAndDeleteKeeps(s: Store, k: Key, e: EntryId)
    requires s.Valid() && s.Has(e) && s.entries[e].deleted
    ensures var s' := CompareAndDelete(s, k, e);
            && s'.Valid() && Evolves(s, s') && s'.entries == s.entries
            && (forall j | j in s'.cache :: j in s.cache && s'.cache[j] == s.cache[j])
            && (forall d | 0 <= d < |s.entries| && s.Live(d) :: s'.Live(d))
            && (forall j | j in s.cache :: j !in s'.cache <==> j == k && s.cache[j] == e)
  {
  }

  lemma NewCandidateKeeps(s: Store, k: Key, value: Value, o: Owner)
    requires s.Valid()
    ensures var (s', c) := NewCandidate(s, k, value, o);
            && s'.Valid() && Evolves(s, s') && s'.cache == s.cache && !s.Has(c) && s'.Has(c)
            && |s'.entries| == |s.entries| + 1
            && (forall d | 0 <= d < |s.entries| :: s'.entries[d] == s.entries[d])
            && s'.entries[c] == Entry(k, value, {o}, false, false)
  {
  }

  /** A candidate is published only where no entry is, so a key never has two live entries. */
  lemma LoadOrStoreKeeps(s: Store, k: Key, candidate: EntryId)
    requires s.Valid() && s.Has(candidate)
    requires s.entries[candidate].key == k && !s.entries[candidate].published
    ensures var (s', actual, loaded) := LoadOrStore(s, k, candidate);
            && s'.Valid() && Evolves(s, s')
            && |s'.entries| == |s.entries|
            && (forall d | 0 <= d < |s.entries| && d != candidate :: s'.entries[d] == s.entries[d])
            && s'.entries[candidate].owners == s.entries[candidate].owners
            && s'.entries[candidate].deleted == s.entries[candidate].deleted
            && s'.Has(actual) && s'.entries[actual].key == k && s'.entries[actual].published
            && (loaded <==> k in s.cache)
            && (loaded ==> s' == s && actual != candidate && actual == s.cache[k])
            && (!loaded ==> actual == candidate && k !in s.cache && s'.cache == s.cache[k := candidate] && s'.Live(actual))
  {
  }

  /** At most one live entry per key: the map's current one. */
  lemma OneLiveEntryPerKey(s: Store, e: EntryId, d: EntryId)
    requires s.Valid() && s.Live(e) && s.Live(d) && s.entries[e].key == s.entries[d].key
    ensures e == d && s.cache[s.entries[e].key] == e
  {
  }

  lemma EvolvesTransitive(a: Store, b: Store, c: Store)
    requires Evolves(a, b) && Evolves(b, c)
    ensures Evolves(a, c)
  {
  }

  // ---------------------------------------------------------------- what both protocols say of the store

  type Thread = nat

  ghost predicate Published(store: Store, k: Key, e: EntryId) {
    store.Has(e) && store.entries[e].key == k && store.entries[e].published
  }

  /** A candidate that only its creator knows. */
  ghost predicate Private(store: Store, o: Owner, k: Key, c: EntryId) {
    store.Has(c) && store.entries[c].key == k && !store.entries[c].published && store.entries[c].owners == {o}
  }

  /** Private entries are untouched and everything else only evolves. */
  ghost predicate Undisturbed(a: Store, b: Store) {
    && Evolves(a, b)
    && forall e | 0 <= e < |a.entries| && !a.entries[e].published :: b.entries[e] == a.entries[e]
  }

  /** `e` is in the map's history and owned by `o`. */
  predicate OwnedBy(store: Store, e: EntryId, o: Owner) {
    store.Has(e) && store.entries[e].published && o in store.entries[e].owners
  }

  /** No entry becomes owned by `o`. */
  ghost predicate GainsNone(a: Store, b: Store, o: Owner) {
    forall e: EntryId | OwnedBy(b, e, o) :: OwnedBy(a, e, o) && b.entries[e].key == a.entries[e].key
  }
}
