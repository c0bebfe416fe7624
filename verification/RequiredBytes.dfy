/**
 The coarse byte filter of internal/operators/rxprefilter.go: a greedily chosen set of bytes
 that meets every needle, stored as a 256-bit map, and the transaction's four-slot ring of
 byte-presence maps that lets a verdict be read off a map instead of the input.
 */
module RequiredBytes {
  import opened ByteStrings

  const CACHED_MIN_INPUT_BYTES := 512

  /** A uint64 as its 64 bits; only bitwise operations are performed on it. */
  type Word = w: seq<bool> | |w| == 64 witness seq(64, _ => false)

  type Bitmap = b: seq<Word> | |b| == 4 witness seq(4, _ => ZERO)

  const ZERO: Word := seq(64, _ => false)

  const EMPTY: Bitmap := seq(4, _ => ZERO)

  function SetBit(b: Bitmap, v: byte): Bitmap {
    b[v / 64 := b[v / 64][v % 64 := true]]
  }

  predicate TestBit(b: Bitmap, v: byte) {
    b[v / 64][v % 64]
  }

  /** a & b != 0 */
  predicate WordsMeet(a: Word, b: Word) {
    exists k | 0 <= k < 64 :: a[k] && b[k]
  }

  /** present & required == required */
  predicate WordCovers(present: Word, required: Word) {
    forall k | 0 <= k < 64 :: required[k] ==> present[k]
  }

  lemma BitAt(word: nat, bit: nat)
    requires word < 4 && bit < 64
    ensures (word * 64 + bit) / 64 == word && (word * 64 + bit) % 64 == bit
  {
  }

  lemma SetThenTest(b: Bitmap, v: byte, w: byte)
    ensures TestBit(SetBit(b, v), w) <==> v == w || TestBit(b, w)
  {
  }

  /** Scans the four words of two maps for a common bit. */
  method Meet(a: Bitmap, b: Bitmap) returns (meet: bool)
    ensures meet <==> exists v: byte :: TestBit(a, v) && TestBit(b, v)
  {
    for index := 0 to 4
      invariant forall v: byte | v / 64 < index :: !(TestBit(a, v) && TestBit(b, v))
    {
      if WordsMeet(a[index], b[index]) {
        ghost var k :| 0 <= k < 64 && a[index][k] && b[index][k];
        BitAt(index, k);
        ghost var v: byte := index * 64 + k;
        assert TestBit(a, v) && TestBit(b, v);
        return true;
      }
      forall v: byte | v / 64 == index ensures !(TestBit(a, v) && TestBit(b, v)) {
        assert !(a[index][v % 64] && b[index][v % 64]);
      }
    }
    return false;
  }

  /** The map records exactly the byte values that occur in `data`. */
  ghost predicate Faithful(present: Bitmap, data: Bytes) {
    forall v: byte :: TestBit(present, v) <==> v in data
  }

  method BytePresence(value: Bytes) returns (present: Bitmap)
    ensures Faithful(present, value)
  {
    present := EMPTY;
    for index := 0 to |value|
      invariant Faithful(present, value[..index])
    {
      forall v: byte
        ensures TestBit(SetBit(present, value[index]), v) <==> v in value[..index + 1]
      {
        SetThenTest(present, value[index], v);
        assert value[..index + 1] == value[..index] + [value[index]];
      }
      present := SetBit(present, value[index]);
    }
    assert value[..|value|] == value;
  }

  // ---------------------------------------------------------------- the presence ring

  datatype PresenceEntry = PresenceEntry(value: Str, present: Bitmap)

  /** Transaction.bytePresenceCache: the ring keeps each string it describes alive. */
  class PresenceRing {
    var entries: seq<PresenceEntry>
    var next: nat

    ghost predicate Valid()
      reads this
    {
      && |entries| == 4
      && next < 4
      && forall k | 0 <= k < 4 :: Faithful(entries[k].present, entries[k].value.data)
    }

    /** `value` is alive at the same time as every string the ring retains. */
    ghost predicate Live(value: Str)
      reads this
    {
      forall k | 0 <= k < |entries| :: Coherent(entries[k].value, value)
    }

    /** The map of this very string is in the ring. */
    ghost predicate Holds(value: Str)
      reads this
    {
      exists k | 0 <= k < |entries| :: entries[k].value == value
    }

    /** The strings the ring keeps alive. */
    function Retained(): set<Str>
      reads this
    {
      set k | 0 <= k < |entries| :: entries[k].value
    }

    constructor ()
      ensures Valid() && Coexist(Retained())
      ensures forall value: Str :: Live(value)
      ensures next == 0 && forall k | 0 <= k < 4 :: entries[k].value.data == []
    {
      entries := seq(4, _ => PresenceEntry(Str(0, []), EMPTY));
      next := 0;
    }

    method Load(value: Str) returns (present: Bitmap, found: bool)
      requires Valid() && Live(value)
      ensures found ==> Faithful(present, value.data)
      ensures found <==> exists k | 0 <= k < 4 ::
                           value.data != [] && entries[k].value == value
    {
      for index := 0 to 4
        invariant forall k | 0 <= k < index :: value.data == [] || entries[k].value != value
      {
        var entry := entries[index];
        assert Coherent(entries[index].value, value);
        if |entry.value.data| == |value.data| && |value.data| != 0 && entry.value.addr == value.addr {
          assert entries[index].value == value;
          return entry.present, true;
        }
      }
      return EMPTY, false;
    }

    method Store(value: Str, present: Bitmap)
      requires Valid() && Faithful(present, value.data)
      modifies this
      ensures Valid()
      ensures entries == old(entries)[old(next) := PresenceEntry(value, present)]
      ensures next == (old(next) + 1) % 4
    {
      entries := entries[next := PresenceEntry(value, present)];
      next := (next + 1) % 4;
    }
  }

  // ---------------------------------------------------------------- the byte set

  datatype RequiredByteMatcher = RequiredByteMatcher(
    bytes: seq<bool>,
    bits: Bitmap,
    characters: Bytes,
    ascii: bool)
  {
    /** The three representations of the selected set agree. */
    ghost predicate Valid() {
      && |bytes| == 256
      && (forall v: byte :: bytes[v] <==> TestBit(bits, v))
      && (ascii ==> forall v: byte :: v in characters <==> bytes[v])
    }

    /** Reference verdict: the input holds a selected byte. */
    ghost predicate Hit(value: Bytes) {
      exists v: byte :: v in value && TestBit(bits, v)
    }

    /** Every needle has a selected byte, in each spelling the folded search accepts. */
    ghost predicate CoversAll(needles: seq<Bytes>, fold: bool) {
      forall k | 0 <= k < |needles| :: Meets(bits, needles[k], fold)
    }

    /** A needle that occurs puts a selected byte into the input: the filter never rejects it. */
    lemma CoverIsNecessary(value: Bytes, needle: Bytes, fold: bool)
      requires Meets(bits, needle, fold) && Has(value, needle, fold)
      ensures Hit(value)
    {
      var b: byte :| b in needle && TestBit(bits, b) && (fold ==> TestBit(bits, Upper(b)));
      var k :| 0 <= k < |needle| && needle[k] == b;
      var i :| 0 <= i <= |value| - |needle| && At(value, i, needle, fold);
      assert Norm(value[i + k], fold) == needle[k];
      assert value[i + k] in value;
    }

    method Match(value: Bytes) returns (found: bool)
      requires Valid()
      ensures found <==> Hit(value)
    {
      for index := 0 to |value|
        invariant forall k | 0 <= k < index :: !TestBit(bits, value[k])
      {
        if (if ascii then value[index] in characters else bytes[value[index]]) {
          assert value[index] in value;
          return true;
        }
      }
      return false;
    }

    /** Reads the verdict off a cached map when there is one, and records the map on a miss. */
    method MatchWithState(ring: PresenceRing?, value: Str) returns (found: bool)
      requires Valid()
      requires ring != null ==> ring.Valid() && ring.Live(value)
      modifies ring
      ensures found <==> Hit(value.data)
      ensures ring != null ==> ring.Valid()
      ensures ring != null && |value.data| < CACHED_MIN_INPUT_BYTES ==> ring.entries == old(ring.entries)
      ensures ring != null ==> forall k | 0 <= k < 4 ::
                ring.entries[k] == old(ring.entries)[k] || ring.entries[k].value == value
      ensures ring != null && |value.data| >= CACHED_MIN_INPUT_BYTES && !found ==> ring.Holds(value)
    {
      if ring == null || |value.data| < CACHED_MIN_INPUT_BYTES {
        found := Match(value.data);
        return;
      }
      var present, cached := ring.Load(value);
      if cached {
        found := Meet(present, bits);
        return;
      }
      found := Match(value.data);
      if found {
        return;
      }
      present := BytePresence(value.data);
      ghost var slot := ring.next;
      ring.Store(value, present);
      assert ring.entries[slot].value == value;
    }

    /** Rejects only on a cached map without any selected byte. */
    method PossibleFromCache(ring: PresenceRing?, value: Str) returns (possible: bool)
      requires Valid()
      requires ring != null ==> ring.Valid() && ring.Live(value)
      ensures !possible <==>
                ring != null && |value.data| >= CACHED_MIN_INPUT_BYTES && ring.Holds(value) && !Hit(value.data)
    {
      if ring == null || |value.data| < CACHED_MIN_INPUT_BYTES {
        return true;
      }
      var present, cached := ring.Load(value);
      if !cached {
        return true;
      }
      possible := Meet(present, bits);
    }
  }

  // ---------------------------------------------------------------- greedy construction

  method DistinctBytes(needle: Bytes) returns (group: Bytes)
    ensures forall v: byte :: v in group <==> v in needle
    ensures Distinct(group)
  {
    group := [];
    for index := 0 to |needle|
      invariant forall v: byte :: v in group <==> v in needle[..index]
      invariant Distinct(group)
    {
      assert needle[..index + 1] == needle[..index] + [needle[index]];
      if needle[index] !in group {
        group := group + [needle[index]];
      }
    }
    assert needle[..|needle|] == needle;
  }

  /** How many uncovered groups hold `v`. */
  function Hits(groups: seq<Bytes>, covered: seq<bool>, v: byte): nat
    requires |groups| == |covered|
  {
    if groups == [] then 0
    else
      var last := |groups| - 1;
      Hits(groups[..last], covered[..last], v) + if !covered[last] && v in groups[last] then 1 else 0
  }

  lemma {:induction false} HitsPositive(groups: seq<Bytes>, covered: seq<bool>, v: byte)
    requires |groups| == |covered|
    ensures Hits(groups, covered, v) > 0 <==>
            exists k | 0 <= k < |groups| :: !covered[k] && v in groups[k]
  {
    if groups != [] {
      var last := |groups| - 1;
      HitsPositive(groups[..last], covered[..last], v);
      if k :| 0 <= k < |groups| && !covered[k] && v in groups[k] {
        if k < last {
          assert groups[..last][k] == groups[k] && covered[..last][k] == covered[k];
        }
      }
    }
  }

  /** Adds one uncovered group's bytes to the counters. */
  method CountGroup(counts: array<nat>, group: Bytes)
    requires counts.Length == 256
    requires Distinct(group)
    modifies counts
    ensures forall v: byte :: counts[v] == old(counts[v]) + if v in group then 1 else 0
  {
    for i := 0 to |group|
      invariant forall v: byte :: counts[v] == old(counts[v]) + if v in group[..i] then 1 else 0
    {
      assert group[..i + 1] == group[..i] + [group[i]];
      assert group[i] !in group[..i];
      counts[group[i]] := counts[group[i]] + 1;
    }
    assert group[..|group|] == group;
  }

  method CountBytes(groups: seq<Bytes>, covered: seq<bool>) returns (counts: seq<nat>)
    requires |groups| == |covered|
    requires forall k | 0 <= k < |groups| :: Distinct(groups[k])
    ensures |counts| == 256
    ensures forall v: byte :: counts[v] == Hits(groups, covered, v)
  {
    var table := new nat[256](_ => 0);
    for index := 0 to |groups|
      invariant forall v: byte :: table[v] == Hits(groups[..index], covered[..index], v)
    {
      assert groups[..index + 1][..index] == groups[..index];
      assert covered[..index + 1][..index] == covered[..index];
      if !covered[index] {
        CountGroup(table, groups[index]);
      }
    }
    assert groups[..|groups|] == groups && covered[..|groups|] == covered;
    counts := table[..];
  }

  /** The most frequent byte, ties broken towards the rarer one. */
  method PickByte(counts: seq<nat>) returns (best: byte)
    requires |counts| == 256
    ensures forall v: byte :: counts[v] <= counts[best]
    ensures forall v: byte :: counts[v] == counts[best] ==> Rarity(v) <= Rarity(best)
  {
    best := 0;
    for value := 1 to 256
      invariant forall v: byte | v < value :: counts[v] <= counts[best]
      invariant forall v: byte | v < value :: counts[v] == counts[best] ==> Rarity(v) <= Rarity(best)
    {
      if counts[value] > counts[best] || (counts[value] == counts[best] && Rarity(value) > Rarity(best)) {
        best := value;
      }
    }
  }

  function Uncovered(covered: seq<bool>): (n: nat)
    ensures n <= |covered|
    ensures n == 0 <==> forall k | 0 <= k < |covered| :: covered[k]
  {
    if covered == [] then 0
    else
      var last := |covered| - 1;
      var rest := Uncovered(covered[..last]);
      assert forall k | 0 <= k < last :: covered[..last][k] == covered[k];
      rest + if covered[last] then 0 else 1
  }

  lemma {:induction false} UncoveredAfterMark(covered: seq<bool>, k: nat)
    requires k < |covered| && !covered[k]
    ensures Uncovered(covered[k := true]) == Uncovered(covered) - 1
  {
    var last := |covered| - 1;
    if k == last {
      assert covered[k := true][..last] == covered[..last];
    } else {
      UncoveredAfterMark(covered[..last], k);
      assert covered[k := true][..last] == covered[..last][k := true];
    }
  }

  /** Marks every uncovered group that holds `best`, counting them off. */
  method MarkCovered(groups: seq<Bytes>, covered: seq<bool>, remaining: nat, best: byte)
    returns (covered': seq<bool>, remaining': nat)
    requires |groups| == |covered| && remaining == Uncovered(covered)
    ensures |covered'| == |covered| && remaining' == Uncovered(covered')
    ensures remaining' <= remaining
    ensures forall k | 0 <= k < |groups| :: covered'[k] <==> covered[k] || best in groups[k]
    ensures (exists k | 0 <= k < |groups| :: !covered[k] && best in groups[k]) ==> remaining' < remaining
  {
    covered', remaining' := covered, remaining;
    for index := 0 to |groups|
      invariant |covered'| == |covered| && remaining' == Uncovered(covered') <= remaining
      invariant forall k | 0 <= k < index :: covered'[k] <==> covered[k] || best in groups[k]
      invariant forall k | index <= k < |groups| :: covered'[k] == covered[k]
      invariant (exists k | 0 <= k < index :: !covered[k] && best in groups[k]) ==> remaining' < remaining
    {
      if covered'[index] || best !in groups[index] {
        continue;
      }
      UncoveredAfterMark(covered', index);
      covered' := covered'[index := true];
      remaining' := remaining' - 1;
    }
  }

  ghost predicate Distinct(s: Bytes) {
    forall i, j | 0 <= i < j < |s| :: s[i] != s[j]
  }

  /** The selected bytes meet `needle`, in each spelling the folded search accepts. */
  ghost predicate Meets(bits: Bitmap, needle: Bytes, fold: bool) {
    exists b: byte :: b in needle && TestBit(bits, b) && (fold ==> TestBit(bits, Upper(b)))
  }

  /** `b` is a byte, or the upper-case spelling of a byte, of some needle. */
  ghost predicate ComesFrom(b: byte, needles: seq<Bytes>, fold: bool) {
    exists k | 0 <= k < |needles| :: b in needles[k] || (fold && Lower(b) in needles[k])
  }

  ghost predicate SameBytes(groups: seq<Bytes>, needles: seq<Bytes>) {
    && |groups| == |needles|
    && forall k | 0 <= k < |needles| :: forall v: byte :: v in groups[k] <==> v in needles[k]
  }

  method DistinctGroups(needles: seq<Bytes>) returns (groups: seq<Bytes>)
    ensures SameBytes(groups, needles)
    ensures forall k | 0 <= k < |groups| :: Distinct(groups[k])
  {
    groups := [];
    for k := 0 to |needles|
      invariant |groups| == k
      invariant forall j | 0 <= j < k :: forall v: byte :: v in groups[j] <==> v in needles[j]
      invariant forall j | 0 <= j < k :: Distinct(groups[j])
    {
      var group := DistinctBytes(needles[k]);
      groups := groups + [group];
    }
  }

  /**
   Greedy hitting set. It terminates because the most frequent byte of the uncovered groups
   occurs in one of them, so the uncovered count falls in every round.
   */
  method GreedyCover(groups: seq<Bytes>, caseFold: bool) returns (bits: Bitmap)
    requires forall k | 0 <= k < |groups| :: groups[k] != [] && Distinct(groups[k])
    ensures forall k | 0 <= k < |groups| :: Meets(bits, groups[k], caseFold)
    ensures forall b: byte :: TestBit(bits, b) ==> ComesFrom(b, groups, caseFold)
  {
    bits := EMPTY;
    var covered := seq(|groups|, _ => false);
    var remaining := |groups|;
    AllUncovered(|groups|);
    while remaining > 0
      invariant |covered| == |groups| && remaining == Uncovered(covered)
      invariant forall k | 0 <= k < |groups| && covered[k] :: Meets(bits, groups[k], caseFold)
      invariant forall b: byte :: TestBit(bits, b) ==> ComesFrom(b, groups, caseFold)
      decreases remaining
    {
      var counts := CountBytes(groups, covered);
      var best := PickByte(counts);
      BestIsUseful(groups, covered, counts, best);
      var bits' := AddByte(bits, best, caseFold);
      AddingKeepsMeets(bits, bits', groups, caseFold, best);
      bits := bits';
      covered, remaining := MarkCovered(groups, covered, remaining, best);
    }
  }

  lemma BestIsUseful(groups: seq<Bytes>, covered: seq<bool>, counts: seq<nat>, best: byte)
    requires |groups| == |covered| && |counts| == 256 && Uncovered(covered) > 0
    requires forall k | 0 <= k < |groups| :: groups[k] != []
    requires forall v: byte :: counts[v] == Hits(groups, covered, v)
    requires forall v: byte :: counts[v] <= counts[best]
    ensures exists k | 0 <= k < |groups| :: !covered[k] && best in groups[k]
  {
    var k: nat :| k < |groups| && !covered[k];
    HitsPositive(groups, covered, groups[k][0]);
    HitsPositive(groups, covered, best);
  }

  method NewRequiredByteMatcher(needles: seq<Bytes>, caseFold: bool) returns (matcher: RequiredByteMatcher)
    requires forall k | 0 <= k < |needles| :: needles[k] != []
    ensures matcher.Valid()
    ensures matcher.CoversAll(needles, caseFold)
    ensures forall b: byte :: TestBit(matcher.bits, b) ==> ComesFrom(b, needles, caseFold)
  {
    var groups := DistinctGroups(needles);
    forall k | 0 <= k < |groups| ensures groups[k] != [] {
      assert needles[k][0] in groups[k];
    }
    var bits := GreedyCover(groups, caseFold);
    matcher := Finish(bits);
    forall k | 0 <= k < |needles| ensures Meets(bits, needles[k], caseFold) {
      assert Meets(bits, groups[k], caseFold);
    }
    forall b: byte | TestBit(bits, b) ensures ComesFrom(b, needles, caseFold) {
      var k :| 0 <= k < |groups| && (b in groups[k] || (caseFold && Lower(b) in groups[k]));
      assert b in needles[k] || (caseFold && Lower(b) in needles[k]);
    }
  }

  lemma {:induction false} AllUncovered(n: nat)
    ensures Uncovered(seq(n, _ => false)) == n
  {
    if n > 0 {
      AllUncovered(n - 1);
      assert seq(n, _ => false)[..n - 1] == seq(n - 1, _ => false);
    }
  }

  /** Selects a byte, and its upper-case spelling when matching is folded. */
  method AddByte(bits: Bitmap, value: byte, caseFold: bool) returns (bits': Bitmap)
    ensures forall v: byte :: TestBit(bits', v) <==>
              TestBit(bits, v) || v == value || (caseFold && v == Upper(value))
  {
    bits' := SetBit(bits, value);
    forall v: byte ensures TestBit(bits', v) <==> v == value || TestBit(bits, v) {
      SetThenTest(bits, value, v);
    }
    if caseFold && IsLower(value) {
      ghost var before := bits';
      bits' := SetBit(bits', Upper(value));
      forall v: byte ensures TestBit(bits', v) <==> v == Upper(value) || TestBit(before, v) {
        SetThenTest(before, Upper(value), v);
      }
    }
  }

  lemma AddingKeepsMeets(bits: Bitmap, bits': Bitmap, groups: seq<Bytes>, fold: bool, best: byte)
    requires forall v: byte :: TestBit(bits', v) <==>
               TestBit(bits, v) || v == best || (fold && v == Upper(best))
    requires exists k | 0 <= k < |groups| :: best in groups[k]
    ensures forall k | 0 <= k < |groups| && (Meets(bits, groups[k], fold) || best in groups[k]) ::
              Meets(bits', groups[k], fold)
    ensures (forall b: byte :: TestBit(bits, b) ==> ComesFrom(b, groups, fold)) ==>
            forall b: byte :: TestBit(bits', b) ==> ComesFrom(b, groups, fold)
  {
    forall k | 0 <= k < |groups| && (Meets(bits, groups[k], fold) || best in groups[k])
      ensures Meets(bits', groups[k], fold)
    {
      if best in groups[k] {
        assert TestBit(bits', best);
      }
    }
  }

  /** Derives the byte table, and the character list when the whole set is ASCII. */
  method Finish(bits: Bitmap) returns (matcher: RequiredByteMatcher)
    ensures matcher.Valid() && matcher.bits == bits
  {
    var bytes := seq(256, v requires 0 <= v < 256 => TestBit(bits, v));
    var characters: Bytes := [];
    var ascii := true;
    for value := 0 to 256
      invariant ascii ==> forall v: byte :: v in characters <==> v < value && bytes[v]
    {
      if bytes[value] {
        if value >= 128 {
          ascii := false;
          break;
        }
        characters := characters + [value];
      }
    }
    matcher := RequiredByteMatcher(bytes, bits, if ascii then characters else [], ascii);
  }

  // ---------------------------------------------------------------- runs over one ring

  /** One use of the ring: a matcher's own test, a question to the cache only, or a map stored by another filter. */
  datatype RingUse =
    | Test(matcher: RequiredByteMatcher, data: Bytes)
    | Ask(matcher: RequiredByteMatcher, data: Bytes)
    | Record(data: Bytes)
  {
    ghost predicate Valid() {
      Record? || matcher.Valid()
    }

    /** What the answer must be, by a direct scan. */
    ghost predicate Right(answer: bool) {
      match this
      case Test(matcher, data) => answer <==> matcher.Hit(data)
      case Ask(matcher, data) => matcher.Hit(data) ==> answer
      case Record(_) => true
    }
  }

  /**
   Over any run of lookups and stores, wherever the runtime puts the inspected strings (also at
   addresses of strings that have died), every answer is right.
   */
  method RunRing(uses: seq<RingUse>) returns (answers: seq<bool>)
    requires forall i | 0 <= i < |uses| :: uses[i].Valid()
    ensures |answers| == |uses| && forall i | 0 <= i < |uses| :: uses[i].Right(answers[i])
  {
    hide Faithful, RequiredByteMatcher.Hit, RequiredByteMatcher.Valid;
    var ring := new PresenceRing();
    answers := [];
    for i := 0 to |uses|
      invariant fresh(ring) && ring.Valid() && Coexist(ring.Retained())
      invariant |answers| == i && forall j | 0 <= j < i :: uses[j].Right(answers[j])
    {
      var answer := UseRing(ring, uses[i]);
      answers := answers + [answer];
    }
  }

  method UseRing(ring: PresenceRing, use: RingUse) returns (answer: bool)
    requires ring.Valid() && Coexist(ring.Retained()) && use.Valid()
    modifies ring
    ensures ring.Valid() && Coexist(ring.Retained()) && use.Right(answer)
  {
    var before := ring.Retained();
    var value := Place(use.data, before);
    assert forall k | 0 <= k < 4 :: ring.entries[k].value in before;
    match use {
      case Test(matcher, _) => answer := matcher.MatchWithState(ring, value);
      case Ask(matcher, _) => answer := matcher.PossibleFromCache(ring, value);
      case Record(_) =>
        var present := BytePresence(value.data);
        ring.Store(value, present);
        answer := true;
    }
    forall s | s in ring.Retained() ensures s in before + {value} {
    }
  }
}
