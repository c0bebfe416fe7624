/**
 The Wu-Manber style multi-literal search of internal/operators/rxprefilter.go: a window as
 long as the shortest needle slides over the input, and a table indexed by the last byte (or
 byte pair) of the window says how far it may move. Shift entries are eight bits wide.
 */
module PairIndex {
  import opened ByteStrings
  import FoldedLiteral

  const PAIRS := 65536

  function BytePair(first: byte, second: byte): (pair: nat)
    ensures pair < PAIRS
  {
    first * 256 + second
  }

  /** Conversion of a non-negative int to uint8. */
  function Uint8(x: nat): (r: nat)
    ensures r <= x && r < 256
  {
    x % 256
  }

  function LowerASCII(s: Bytes): Bytes {
    seq(|s|, i requires 0 <= i < |s| => Lower(s[i]))
  }

  function Normalize(needles: seq<Bytes>, fold: bool): (r: seq<Bytes>)
    ensures |r| == |needles|
  {
    if fold then seq(|needles|, i requires 0 <= i < |needles| => LowerASCII(needles[i])) else needles
  }

  predicate HasAny(v: Bytes, needles: seq<Bytes>, fold: bool) {
    exists k | 0 <= k < |needles| :: Has(v, needles[k], fold)
  }

  /** No needle occurs at `i`. */
  predicate NoneAt(v: Bytes, i: int, needles: seq<Bytes>, fold: bool) {
    forall k | 0 <= k < |needles| :: !At(v, i, needles[k], fold)
  }

  method WindowEquals(v: Bytes, start: nat, needle: Bytes, fold: bool) returns (equal: bool)
    ensures equal <==> At(v, start, needle, fold)
  {
    if start + |needle| > |v| {
      return false;
    }
    if fold {
      equal := FoldedLiteral.WindowMatches(v, start, needle);
    } else {
      var window := v[start..start + |needle|];
      equal := window == needle;
      assert forall k | 0 <= k < |needle| :: window[k] == v[start + k];
    }
  }

  /** Tries every needle of one bucket at one alignment. */
  method AnyAt(v: Bytes, start: nat, bucket: seq<Bytes>, fold: bool) returns (found: bool)
    ensures found <==> !NoneAt(v, start, bucket, fold)
  {
    for k := 0 to |bucket|
      invariant forall j | 0 <= j < k :: !At(v, start, bucket[j], fold)
    {
      var equal := WindowEquals(v, start, bucket[k], fold);
      if equal {
        return true;
      }
    }
    return false;
  }

  datatype IndexedMatcher = IndexedMatcher(
    shift: seq<nat>,
    endBuckets: seq<seq<Bytes>>,
    pairShift: seq<nat>,
    pairBuckets: map<nat, seq<Bytes>>,
    minLen: nat,
    caseFold: bool)
  {
    ghost predicate Valid(needles: seq<Bytes>) {
      && (minLen == 0 <==> needles == [])
      && (forall k | 0 <= k < |needles| :: |needles[k]| >= minLen)
      && (minLen >= 2 ==> PairTablesValid(needles))
      && (minLen < 2 ==> |pairShift| == 0)
      && (minLen == 1 ==> ByteTablesValid(needles))
    }

    ghost predicate PairTablesValid(needles: seq<Bytes>)
      requires minLen >= 2 && forall k | 0 <= k < |needles| :: |needles[k]| >= minLen
    {
      && |pairShift| == PAIRS
      && (forall p | 0 <= p < PAIRS :: pairShift[p] < minLen)
      && (forall k | 0 <= k < |needles| :: forall i | 0 <= i <= minLen - 2 ::
            pairShift[BytePair(needles[k][i], needles[k][i + 1])] <= minLen - 2 - i)
      && (forall k | 0 <= k < |needles| ::
            var p := BytePair(needles[k][minLen - 2], needles[k][minLen - 1]);
            p in pairBuckets && needles[k] in pairBuckets[p])
      && (forall p | p in pairBuckets :: forall n | n in pairBuckets[p] :: n in needles)
    }

    ghost predicate ByteTablesValid(needles: seq<Bytes>)
      requires minLen == 1 && forall k | 0 <= k < |needles| :: |needles[k]| >= minLen
    {
      && |shift| == 256
      && |endBuckets| == 256
      && (forall c | 0 <= c < 256 :: shift[c] <= 1)
      && (forall k | 0 <= k < |needles| ::
            && shift[needles[k][0]] == 0
            && (caseFold ==> shift[Upper(needles[k][0])] == 0)
            && needles[k] in endBuckets[needles[k][0]])
      && (forall c | 0 <= c < 256 :: forall n | n in endBuckets[c] :: n in needles)
    }

    method Match(value: Bytes, ghost needles: seq<Bytes>) returns (found: bool)
      requires Valid(needles)
      ensures found <==> HasAny(value, needles, caseFold)
    {
      if minLen == 0 || |value| < minLen {
        return false;
      }
      if |pairShift| != 0 {
        found := ScanPairs(value, needles);
      } else {
        found := ScanBytes(value, needles);
      }
    }

    method ScanPairs(value: Bytes, ghost needles: seq<Bytes>) returns (found: bool)
      requires Valid(needles) && minLen >= 2 && |value| >= minLen
      ensures found <==> HasAny(value, needles, caseFold)
    {
      var end := minLen - 1;
      while end < |value|
        invariant minLen - 1 <= end
        invariant forall i | 0 <= i < end - minLen + 1 :: NoneAt(value, i, needles, caseFold)
        decreases |value| - end
      {
        var pair := BytePair(Norm(value[end - 1], caseFold), Norm(value[end], caseFold));
        var shift := pairShift[pair];
        if shift != 0 {
          forall i | end - minLen + 1 <= i < end - minLen + 1 + shift
            ensures NoneAt(value, i, needles, caseFold)
          {
            PairSkipIsSafe(value, needles, end, i);
          }
          end := end + shift;
          continue;
        }
        var start := end - minLen + 1;
        var bucket := if pair in pairBuckets then pairBuckets[pair] else [];
        found := AnyAt(value, start, bucket, caseFold);
        if found {
          FoundMeansHas(value, start, bucket, needles);
          return;
        }
        PairBucketIsComplete(value, needles, end);
        end := end + 1;
      }
      NothingFound(value, needles, end);
      return false;
    }

    /** Alignments closer than the table entry of the current window edge cannot match. */
    lemma PairSkipIsSafe(value: Bytes, needles: seq<Bytes>, end: nat, i: nat)
      requires Valid(needles) && minLen >= 2 && minLen - 1 <= end < |value|
      requires var p := BytePair(Norm(value[end - 1], caseFold), Norm(value[end], caseFold));
               end - minLen + 1 <= i < end - minLen + 1 + pairShift[p]
      ensures NoneAt(value, i, needles, caseFold)
    {
      forall k | 0 <= k < |needles| ensures !At(value, i, needles[k], caseFold) {
        var n := needles[k];
        var j := end - 1 - i;
        assert pairShift[BytePair(n[j], n[j + 1])] <= minLen - 2 - j;
        if i + |n| <= |value| && Norm(value[i + j], caseFold) == n[j] {
          assert Norm(value[i + (j + 1)], caseFold) != n[j + 1];
        }
      }
    }

    /** A needle aligned with the window is filed under the pair at the window edge. */
    lemma PairBucketIsComplete(value: Bytes, needles: seq<Bytes>, end: nat)
      requires Valid(needles) && minLen >= 2 && minLen - 1 <= end < |value|
      ensures var p := BytePair(Norm(value[end - 1], caseFold), Norm(value[end], caseFold));
              !NoneAt(value, end - minLen + 1, needles, caseFold) ==>
                p in pairBuckets && !NoneAt(value, end - minLen + 1, pairBuckets[p], caseFold)
    {
      var start := end - minLen + 1;
      if k :| 0 <= k < |needles| && At(value, start, needles[k], caseFold) {
        var n := needles[k];
        assert Norm(value[start + (minLen - 2)], caseFold) == n[minLen - 2];
        assert Norm(value[start + (minLen - 1)], caseFold) == n[minLen - 1];
        var bucket := pairBuckets[BytePair(n[minLen - 2], n[minLen - 1])];
        var j :| 0 <= j < |bucket| && bucket[j] == n;
      }
    }

    lemma FoundMeansHas(value: Bytes, start: nat, bucket: seq<Bytes>, needles: seq<Bytes>)
      requires !NoneAt(value, start, bucket, caseFold)
      requires forall n | n in bucket :: n in needles
      ensures HasAny(value, needles, caseFold)
    {
      var k :| 0 <= k < |bucket| && At(value, start, bucket[k], caseFold);
      HasIntro(value, start, bucket[k], caseFold);
      assert bucket[k] in needles;
      var j :| 0 <= j < |needles| && needles[j] == bucket[k];
    }

    /** Once the window has left the input, no alignment is left. */
    lemma NothingFound(value: Bytes, needles: seq<Bytes>, end: nat)
      requires forall k | 0 <= k < |needles| :: |needles[k]| >= minLen
      requires |value| <= end
      requires forall i | 0 <= i < end - minLen + 1 :: NoneAt(value, i, needles, caseFold)
      ensures !HasAny(value, needles, caseFold)
    {
      forall k, i | 0 <= k < |needles| && 0 <= i <= |value| - |needles[k]|
        ensures !At(value, i, needles[k], caseFold)
      {
        assert NoneAt(value, i, needles, caseFold);
      }
    }

    method ScanBytes(value: Bytes, ghost needles: seq<Bytes>) returns (found: bool)
      requires Valid(needles) && minLen == 1
      ensures found <==> HasAny(value, needles, caseFold)
    {
      var index := minLen - 1;
      while index < |value|
        invariant forall i | 0 <= i < index - minLen + 1 :: NoneAt(value, i, needles, caseFold)
        decreases |value| - index
      {
        var step := shift[value[index]];
        if step != 0 {
          ByteEdge(value, needles, index);
          index := index + step;
          continue;
        }
        var start := index - minLen + 1;
        var bucket := endBuckets[Norm(value[index], caseFold)];
        found := AnyAt(value, start, bucket, caseFold);
        if found {
          FoundMeansHas(value, start, bucket, needles);
          return;
        }
        ByteEdge(value, needles, index);
        index := index + 1;
      }
      NothingFound(value, needles, index);
      return false;
    }

    /** A needle starting at `index` has shift 0 under both spellings and sits in the bucket. */
    lemma ByteEdge(value: Bytes, needles: seq<Bytes>, index: nat)
      requires Valid(needles) && minLen == 1 && index < |value|
      ensures !NoneAt(value, index, needles, caseFold) ==>
                && shift[value[index]] == 0
                && !NoneAt(value, index, endBuckets[Norm(value[index], caseFold)], caseFold)
    {
      if k :| 0 <= k < |needles| && At(value, index, needles[k], caseFold) {
        assert Norm(value[index + 0], caseFold) == needles[k][0];
        var bucket := endBuckets[Norm(value[index], caseFold)];
        var j :| 0 <= j < |bucket| && bucket[j] == needles[k];
      }
    }
  }

  method NewIndexedMatcher(needles: seq<Bytes>, caseFold: bool) returns (matcher: IndexedMatcher)
    requires forall k | 0 <= k < |needles| :: needles[k] != []
    ensures matcher.caseFold == caseFold
    ensures matcher.Valid(Normalize(needles, caseFold))
  {
    if needles == [] {
      return IndexedMatcher([], [], [], map[], 0, caseFold);
    }
    var normalized := Normalize(needles, caseFold);
    assert forall k | 0 <= k < |needles| :: |normalized[k]| == |needles[k]|;
    var minLen := |normalized[0]|;
    for k := 1 to |normalized|
      invariant 0 < minLen
      invariant forall j | 0 <= j < k :: minLen <= |normalized[j]|
    {
      if |normalized[k]| < minLen {
        minLen := |normalized[k]|;
      }
    }
    if minLen >= 2 {
      var pairShift := BuildPairShift(normalized, minLen);
      var pairBuckets := BuildPairBuckets(normalized, minLen);
      return IndexedMatcher([], [], pairShift, pairBuckets, minLen, caseFold);
    }
    var shift := BuildByteShift(normalized, minLen, caseFold);
    var endBuckets := BuildEndBuckets(normalized, minLen);
    return IndexedMatcher(shift, endBuckets, [], map[], minLen, caseFold);
  }

  /** Fills the pair table; an entry that does not fit in a uint8 wraps, which only shortens the skip. */
  method BuildPairShift(needles: seq<Bytes>, minLen: nat) returns (pairShift: seq<nat>)
    requires minLen >= 2 && forall k | 0 <= k < |needles| :: |needles[k]| >= minLen
    ensures |pairShift| == PAIRS
    ensures forall p | 0 <= p < PAIRS :: pairShift[p] < minLen
    ensures forall k | 0 <= k < |needles| :: forall i | 0 <= i <= minLen - 2 ::
              pairShift[BytePair(needles[k][i], needles[k][i + 1])] <= minLen - 2 - i
  {
    var maxShift := if minLen - 1 > 255 then 255 else minLen - 1;
    var table := new nat[PAIRS](_ => maxShift);
    for k := 0 to |needles|
      invariant forall p | 0 <= p < PAIRS :: table[p] < minLen
      invariant forall j | 0 <= j < k :: forall i | 0 <= i <= minLen - 2 ::
                  table[BytePair(needles[j][i], needles[j][i + 1])] <= minLen - 2 - i
    {
      var needle := needles[k];
      for i := 0 to minLen - 1
        invariant forall p | 0 <= p < PAIRS :: table[p] < minLen
        invariant forall j | 0 <= j < k :: forall i | 0 <= i <= minLen - 2 ::
                    table[BytePair(needles[j][i], needles[j][i + 1])] <= minLen - 2 - i
        invariant forall h | 0 <= h < i :: table[BytePair(needle[h], needle[h + 1])] <= minLen - 2 - h
      {
        var shift := Uint8(minLen - 2 - i);
        var pair := BytePair(needle[i], needle[i + 1]);
        if shift < table[pair] {
          table[pair] := shift;
        }
      }
    }
    pairShift := table[..];
  }

  method BuildPairBuckets(needles: seq<Bytes>, minLen: nat) returns (buckets: map<nat, seq<Bytes>>)
    requires minLen >= 2 && forall k | 0 <= k < |needles| :: |needles[k]| >= minLen
    ensures forall k | 0 <= k < |needles| ::
              var p := BytePair(needles[k][minLen - 2], needles[k][minLen - 1]);
              p in buckets && needles[k] in buckets[p]
    ensures forall p | p in buckets :: forall n | n in buckets[p] :: n in needles
  {
    buckets := map[];
    for k := 0 to |needles|
      invariant forall j | 0 <= j < k ::
                  var p := BytePair(needles[j][minLen - 2], needles[j][minLen - 1]);
                  p in buckets && needles[j] in buckets[p]
      invariant forall p | p in buckets :: forall n | n in buckets[p] :: n in needles
    {
      var pair := BytePair(needles[k][minLen - 2], needles[k][minLen - 1]);
      var bucket := if pair in buckets then buckets[pair] else [];
      buckets := buckets[pair := bucket + [needles[k]]];
    }
  }

  method BuildByteShift(needles: seq<Bytes>, minLen: nat, caseFold: bool) returns (shift: seq<nat>)
    requires minLen == 1 && forall k | 0 <= k < |needles| :: |needles[k]| >= minLen
    ensures |shift| == 256
    ensures forall c | 0 <= c < 256 :: shift[c] <= 1
    ensures forall k | 0 <= k < |needles| ::
              && shift[needles[k][0]] == 0
              && (caseFold ==> shift[Upper(needles[k][0])] == 0)
  {
    var maxShift := if minLen > 255 then 255 else minLen;
    var table := new nat[256](_ => maxShift);
    for k := 0 to |needles|
      invariant forall c | 0 <= c < 256 :: table[c] <= 1
      invariant forall j | 0 <= j < k ::
                  && table[needles[j][0]] == 0
                  && (caseFold ==> table[Upper(needles[j][0])] == 0)
    {
      for i := 0 to minLen
        invariant forall c | 0 <= c < 256 :: table[c] <= 1
        invariant forall j | 0 <= j < k + i ::
                    && table[needles[j][0]] == 0
                    && (caseFold ==> table[Upper(needles[j][0])] == 0)
      {
        var step := Uint8(minLen - 1 - i);
        var c := needles[k][i];
        if step < table[c] {
          table[c] := step;
        }
        if caseFold && IsLower(c) && step < table[Upper(c)] {
          table[Upper(c)] := step;
        }
      }
    }
    shift := table[..];
  }

  method BuildEndBuckets(needles: seq<Bytes>, minLen: nat) returns (buckets: seq<seq<Bytes>>)
    requires minLen == 1 && forall k | 0 <= k < |needles| :: |needles[k]| >= minLen
    ensures |buckets| == 256
    ensures forall k | 0 <= k < |needles| :: needles[k] in buckets[needles[k][0]]
    ensures forall c | 0 <= c < 256 :: forall n | n in buckets[c] :: n in needles
  {
    buckets := seq(256, _ => []);
    for k := 0 to |needles|
      invariant |buckets| == 256
      invariant forall j | 0 <= j < k :: needles[j] in buckets[needles[j][0]]
      invariant forall c | 0 <= c < 256 :: forall n | n in buckets[c] :: n in needles
    {
      var c := needles[k][minLen - 1];
      buckets := buckets[c := buckets[c] + [needles[k]]];
    }
  }
}
