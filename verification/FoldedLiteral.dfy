/**
 Case-insensitive search for one literal: the rare-byte anchored search and the Horspool
 matcher of internal/operators/rxprefilter.go. Both are proved equal to naive search.
 */
module FoldedLiteral {
  import opened ByteStrings

  const MAX_UINT16 := 65535

  method EqualFoldASCIIBytes(value: Bytes, lower: Bytes) returns (equal: bool)
    requires |value| == |lower|
    ensures equal <==> At(value, 0, lower, true)
  {
    for i := 0 to |value|
      invariant forall k | 0 <= k < i :: Lower(value[k]) == lower[k]
    {
      if Lower(value[i]) != lower[i] {
        assert Norm(value[0 + i], true) != lower[i];
        return false;
      }
    }
    return true;
  }

  /** The window comparison both matchers perform on a slice of the input. */
  method WindowMatches(v: Bytes, start: nat, needle: Bytes) returns (equal: bool)
    requires start + |needle| <= |v|
    ensures equal <==> At(v, start, needle, true)
  {
    var window := v[start..start + |needle|];
    equal := EqualFoldASCIIBytes(window, needle);
    assert forall k | 0 <= k < |needle| :: window[k] == v[start + k];
    if equal {
      forall k | 0 <= k < |needle| ensures Norm(v[start + k], true) == needle[k] {
        assert Norm(window[0 + k], true) == needle[k];
      }
    }
  }

  /** Index of the first byte of maximal rarity. */
  method RarestOffset(needle: Bytes) returns (anchor: nat)
    requires needle != []
    ensures anchor < |needle|
    ensures forall k | 0 <= k < |needle| :: Rarity(needle[k]) <= Rarity(needle[anchor])
    ensures forall k | 0 <= k < anchor :: Rarity(needle[k]) < Rarity(needle[anchor])
  {
    anchor := 0;
    for index := 1 to |needle|
      invariant anchor < index
      invariant forall k | 0 <= k < index :: Rarity(needle[k]) <= Rarity(needle[anchor])
      invariant forall k | 0 <= k < anchor :: Rarity(needle[k]) < Rarity(needle[anchor])
    {
      if Rarity(needle[index]) > Rarity(needle[anchor]) {
        anchor := index;
      }
    }
  }

  method ContainsFoldASCIIOnly(s: Bytes, needle: Bytes) returns (found: bool)
    ensures found <==> Has(s, needle, true)
  {
    if needle == [] {
      assert At(s, 0, needle, true);
      return true;
    }
    var lastStart := |s| - |needle|;
    if lastStart < 0 {
      return false;
    }
    var anchorOffset := RarestOffset(needle);
    var lower := needle[anchorOffset];
    var upper := Upper(lower);
    var searchStart, lastAnchor := anchorOffset, lastStart + anchorOffset;
    while searchStart <= lastAnchor
      invariant anchorOffset <= searchStart <= lastAnchor + 1
      invariant forall i | 0 <= i < searchStart - anchorOffset :: !At(s, i, needle, true)
    {
      var candidates := s[searchStart..lastAnchor + 1];
      var next := IndexByte(candidates, lower);
      if upper != lower {
        var upperNext := IndexByte(candidates, upper);
        if next < 0 || (upperNext >= 0 && upperNext < next) {
          next := upperNext;
        }
      }
      var limit := if next < 0 then |candidates| else next;
      forall i | searchStart - anchorOffset <= i < searchStart - anchorOffset + limit
        ensures !At(s, i, needle, true)
      {
        AnchorAbsent(s, i, needle, anchorOffset);
        assert s[i + anchorOffset] == candidates[i + anchorOffset - searchStart];
        assert next >= 0 ==> candidates[i + anchorOffset - searchStart] in candidates[..next];
      }
      if next < 0 {
        return false;
      }
      var anchor := searchStart + next;
      var candidate := anchor - anchorOffset;
      var equal := WindowMatches(s, candidate, needle);
      if equal {
        return true;
      }
      searchStart := anchor + 1;
    }
    return false;
  }

  /** An occurrence at `i` puts one of the two spellings of the anchor byte at its offset. */
  lemma AnchorAbsent(s: Bytes, i: nat, needle: Bytes, offset: nat)
    requires offset < |needle| && i + |needle| <= |s|
    ensures At(s, i, needle, true) ==> s[i + offset] == needle[offset] || s[i + offset] == Upper(needle[offset])
  {
    if At(s, i, needle, true) {
      assert Norm(s[i + offset], true) == needle[offset];
    }
  }

  method ContainsFoldASCII(s: Bytes, needle: Bytes) returns (found: bool)
    ensures found <==> if IsASCII(needle) then Has(s, needle, true) else |s| >= |needle|
  {
    if needle == [] {
      assert At(s, 0, needle, true);
      return true;
    }
    if |s| < |needle| {
      return false;
    }
    if IsASCII(needle) {
      found := ContainsFoldASCIIOnly(s, needle);
      return;
    }
    return true;
  }

  datatype FoldedLiteralMatcher = FoldedLiteralMatcher(
    needle: Bytes,
    shift: seq<nat>,
    anchorLower: byte,
    anchorUpper: byte,
    indexed: bool)
  {
    /** The table never skips over an alignment of `needle`, and always moves forward. */
    ghost predicate Valid() {
      indexed ==>
        && |needle| >= 2
        && IsASCII(needle)
        && |shift| == 256
        && anchorLower in needle
        && anchorUpper == Upper(anchorLower)
        && (forall c: byte :: 1 <= shift[c] <= |needle|)
        && (forall k | 0 <= k < |needle| - 1 :: shift[Lower(needle[k])] <= |needle| - 1 - k)
    }

    /** What a matcher for this needle answers: naive folded search, or "maybe" off ASCII. */
    predicate Verdict(v: Bytes) {
      if IsASCII(needle) then Has(v, needle, true) else |v| >= |needle|
    }

    method Match(value: Bytes) returns (found: bool)
      requires Valid()
      ensures found <==> Verdict(value)
    {
      if !indexed {
        found := ContainsFoldASCII(value, needle);
        return;
      }
      if IndexByte(value, anchorLower) < 0 &&
         (anchorUpper == anchorLower || IndexByte(value, anchorUpper) < 0) {
        var offset: nat :| offset < |needle| && needle[offset] == anchorLower;
        forall i | 0 <= i <= |value| - |needle| ensures !At(value, i, needle, true) {
          AnchorAbsent(value, i, needle, offset);
        }
        return false;
      }
      var end := |needle| - 1;
      while end < |value|
        invariant |needle| - 1 <= end
        invariant forall i | 0 <= i < end - |needle| + 1 :: !At(value, i, needle, true)
        decreases |value| - end
      {
        var start := end - |needle| + 1;
        var equal := WindowMatches(value, start, needle);
        if equal {
          return true;
        }
        var current := Lower(value[end]);
        forall i | start < i < start + shift[current] ensures !At(value, i, needle, true) {
          SkipIsSafe(value, start, i);
        }
        end := end + shift[current];
      }
      return false;
    }

    /** The next alignment that can match is at least one table skip away. */
    lemma SkipIsSafe(value: Bytes, start: nat, i: nat)
      requires Valid() && indexed
      requires start < i && start + |needle| <= |value|
      ensures At(value, i, needle, true) ==> start + shift[Lower(value[start + |needle| - 1])] <= i
    {
      var k := start + |needle| - 1 - i;
      if At(value, i, needle, true) && 0 <= k {
        assert Norm(value[i + k], true) == needle[k];
      }
    }
  }

  /** Builds the Horspool table in place; literals the table cannot serve stay unindexed. */
  method NewFoldedLiteralMatcher(needle: Bytes) returns (matcher: FoldedLiteralMatcher)
    ensures matcher.Valid() && matcher.needle == needle
    ensures matcher.indexed <==> |needle| >= 2 && IsASCII(needle)
  {
    if |needle| < 2 || !IsASCII(needle) {
      return FoldedLiteralMatcher(needle, [], 0, 0, false);
    }
    var anchor := RarestOffset(needle);
    var defaultShift := if |needle| > MAX_UINT16 then MAX_UINT16 else |needle|;
    var table := new nat[256](_ => defaultShift);
    for index := 0 to |needle| - 1
      invariant forall c | 0 <= c < 256 :: 1 <= table[c] <= |needle|
      invariant forall k | 0 <= k < index :: table[Lower(needle[k])] <= |needle| - 1 - k
    {
      var shift := |needle| - 1 - index;
      if shift > MAX_UINT16 {
        shift := MAX_UINT16;
      }
      var lower := Lower(needle[index]);
      if shift < table[lower] {
        table[lower] := shift;
      }
      if IsLower(lower) {
        table[lower - 32] := table[lower];
      }
    }
    matcher := FoldedLiteralMatcher(needle, table[..], needle[anchor], Upper(needle[anchor]), true);
  }
}
