/**
 compilePrefilter of internal/operators/rxprefilter.go: turning the extracted condition into a
 matcher, with and without the transaction's presence cache, and the guarantee the file is
 written for: an input the expression matches is never rejected.
 */
module Prefilter {
  import opened ByteStrings
  import opened Regex
  import opened Literals
  import opened FoldedLiteral
  import opened PairIndex
  import opened RequiredBytes

  const ANY_REQUIRED_MAX_NEEDLES := 256
  const LINEAR_ANY_REQUIRED_MAX_NEEDLES := 32

  /** The closures compilePrefilter chooses between. */
  datatype Matcher =
    | ContainsAll(needles: seq<Bytes>)
    | ContainsAny(needles: seq<Bytes>)
    | FoldedAll(literals: seq<FoldedLiteralMatcher>)
    | FoldedAny(literals: seq<FoldedLiteralMatcher>)
    | Indexed(index: IndexedMatcher, needles: seq<Bytes>)
    | Cover(bytes: RequiredByteMatcher)
  {
    ghost predicate Valid() {
      match this
      case ContainsAll(_) => true
      case ContainsAny(_) => true
      case FoldedAll(literals) => forall k | 0 <= k < |literals| :: literals[k].Valid()
      case FoldedAny(literals) => forall k | 0 <= k < |literals| :: literals[k].Valid()
      case Indexed(index, needles) => index.Valid(needles)
      case Cover(bytes) => bytes.Valid()
    }

    ghost predicate Verdict(v: Bytes) {
      match this
      case ContainsAll(needles) => HasEvery(v, needles, false)
      case ContainsAny(needles) => HasAny(v, needles, false)
      case FoldedAll(literals) => forall k | 0 <= k < |literals| :: literals[k].Verdict(v)
      case FoldedAny(literals) => exists k | 0 <= k < |literals| :: literals[k].Verdict(v)
      case Indexed(index, needles) => HasAny(v, needles, index.caseFold)
      case Cover(bytes) => bytes.Hit(v)
    }

    method Match(v: Bytes) returns (found: bool)
      requires Valid()
      ensures found <==> Verdict(v)
    {
      match this
      case ContainsAll(needles) =>
        for k := 0 to |needles|
          invariant forall j | 0 <= j < k :: Has(v, needles[j], false)
        {
          if !Has(v, needles[k], false) {
            return false;
          }
        }
        return true;
      case ContainsAny(needles) =>
        for k := 0 to |needles|
          invariant forall j | 0 <= j < k :: !Has(v, needles[j], false)
        {
          if Has(v, needles[k], false) {
            return true;
          }
        }
        return false;
      case FoldedAll(literals) =>
        for k := 0 to |literals|
          invariant forall j | 0 <= j < k :: literals[j].Verdict(v)
        {
          var one := literals[k].Match(v);
          if !one {
            return false;
          }
        }
        return true;
      case FoldedAny(literals) =>
        for k := 0 to |literals|
          invariant forall j | 0 <= j < k :: !literals[j].Verdict(v)
        {
          var one := literals[k].Match(v);
          if one {
            return true;
          }
        }
        return false;
      case Indexed(index, needles) =>
        found := index.Match(v, needles);
      case Cover(bytes) =>
        found := bytes.Match(v);
    }
  }

  predicate HasEvery(v: Bytes, needles: seq<Bytes>, fold: bool) {
    forall k | 0 <= k < |needles| :: Has(v, needles[k], fold)
  }

  datatype CompiledPrefilter =
    | NoFilter
    | Filter(ci: bool, base: Matcher, cache: RequiredByteMatcher, populateCache: bool)
  {
    ghost predicate Valid() {
      Filter? ==>
        && base.Valid()
        && cache.Valid()
        && (populateCache ==> base == Cover(cache))
        && forall v: Bytes :: base.Verdict(v) ==> cache.Hit(v)
    }

    /** "Maybe match" (true) or "definitely no match" (false). */
    ghost predicate Verdict(v: Bytes) {
      NoFilter? || base.Verdict(v) || (ci && HasFoldException(v))
    }

    /** Without a transaction. */
    method Match(v: Bytes) returns (maybe: bool)
      requires Valid()
      ensures maybe <==> Verdict(v)
    {
      if NoFilter? {
        return true;
      }
      maybe := base.Match(v);
      if ci && !maybe {
        maybe := HasFoldException(v);
      }
    }

    /** With a transaction: whatever the ring holds, the verdict is the same. */
    method MatchWithState(ring: PresenceRing?, value: Str) returns (maybe: bool)
      requires Valid()
      requires ring != null ==> ring.Valid() && ring.Live(value)
      modifies ring
      ensures maybe <==> Verdict(value.data)
      ensures ring != null ==> ring.Valid()
    {
      if NoFilter? {
        return true;
      }
      if populateCache {
        maybe := cache.MatchWithState(ring, value);
      } else {
        maybe := cache.PossibleFromCache(ring, value);
        if maybe {
          maybe := base.Match(value.data);
        }
      }
      if ci && !maybe {
        maybe := HasFoldException(value.data);
      }
    }
  }

  predicate AllASCII(lits: seq<Bytes>) {
    forall k | 0 <= k < |lits| :: IsASCII(lits[k])
  }

  /** The literals an allRequired filter checks: those of two bytes or more, else the longest. */
  function Checked(lits: seq<Bytes>): (r: seq<Bytes>)
    ensures lits != [] ==> r != [] && forall k | 0 <= k < |r| :: r[k] in lits
  {
    var long := FilterShort(lits, 2);
    if long == [] then [Longest(lits)] else long
  }

  /** Large or very short alternative sets are filtered by bytes instead of exactly. */
  predicate Coarse(lits: seq<Bytes>) {
    |lits| != 1 && (AnyTooShort(lits, 2) || |lits| > ANY_REQUIRED_MAX_NEEDLES)
  }

  /** What the compiled filter decides, for each extracted condition. */
  ghost predicate Compiles(pf: CompiledPrefilter, req: Required, ci: bool) {
    if req.Unknown? || (ci && !AllASCII(req.lits)) then pf.NoFilter?
    else
      && pf.Filter?
      && pf.Valid()
      && pf.ci == ci
      && (req.AllOf? ==> forall v: Bytes :: pf.base.Verdict(v) <==> HasEvery(v, Checked(req.lits), ci))
      && (req.AnyOf? && !Coarse(req.lits) ==> forall v: Bytes :: pf.base.Verdict(v) <==> HasAny(v, req.lits, ci))
      && (req.AnyOf? && Coarse(req.lits) ==> pf.base.Cover? && pf.base.bytes.CoversAll(req.lits, ci))
  }

  method NewFoldedLiteralMatchers(needles: seq<Bytes>) returns (literals: seq<FoldedLiteralMatcher>)
    ensures |literals| == |needles|
    ensures forall k | 0 <= k < |needles| :: literals[k].Valid() && literals[k].needle == needles[k]
  {
    literals := [];
    for k := 0 to |needles|
      invariant |literals| == k
      invariant forall j | 0 <= j < k :: literals[j].Valid() && literals[j].needle == needles[j]
    {
      var one := NewFoldedLiteralMatcher(needles[k]);
      literals := literals + [one];
    }
  }

  /** A matcher for "every needle occurs". */
  method CompileAll(needles: seq<Bytes>, ci: bool) returns (base: Matcher)
    requires ci ==> AllASCII(needles)
    ensures base.Valid()
    ensures forall v: Bytes :: base.Verdict(v) <==> HasEvery(v, needles, ci)
  {
    if ci {
      var literals := NewFoldedLiteralMatchers(needles);
      base := FoldedAll(literals);
    } else {
      base := ContainsAll(needles);
    }
  }

  /** An exact matcher for "some needle occurs"; the needle count decides how it searches. */
  method CompileAny(needles: seq<Bytes>, ci: bool) returns (base: Matcher)
    requires (forall k | 0 <= k < |needles| :: Searchable(needles[k], ci)) && (ci ==> AllASCII(needles))
    ensures base.Valid()
    ensures forall v: Bytes :: base.Verdict(v) <==> HasAny(v, needles, ci)
  {
    if |needles| <= LINEAR_ANY_REQUIRED_MAX_NEEDLES && ci {
      var literals := NewFoldedLiteralMatchers(needles);
      base := FoldedAny(literals);
    } else if |needles| <= LINEAR_ANY_REQUIRED_MAX_NEEDLES {
      base := ContainsAny(needles);
    } else {
      var index := NewIndexedMatcher(needles, ci);
      if ci {
        AlreadyLowered(needles);
      }
      base := Indexed(index, needles);
    }
  }

  /** The cached byte test is implied by the exact test, so consulting it first is harmless. */
  lemma CacheIsNecessary(cache: RequiredByteMatcher, needles: seq<Bytes>, k: nat, ci: bool, v: Bytes)
    requires k < |needles| && Meets(cache.bits, needles[k], ci) && Has(v, needles[k], ci)
    ensures cache.Hit(v)
  {
    cache.CoverIsNecessary(v, needles[k], ci);
  }

  method CompileAllRequired(lits: seq<Bytes>, ci: bool) returns (pf: CompiledPrefilter)
    requires WellShaped(AllOf(lits), ci) && (ci ==> AllASCII(lits))
    ensures Compiles(pf, AllOf(lits), ci)
  {
    var filtered := Checked(lits);
    forall k | 0 <= k < |filtered| ensures filtered[k] != [] && (ci ==> IsASCII(filtered[k])) {
      assert filtered[k] in lits;
    }
    var base := CompileAll(filtered, ci);
    var cache := NewRequiredByteMatcher([Longest(filtered)], ci);
    assert Meets(cache.bits, [Longest(filtered)][0], ci);
    forall v: Bytes | base.Verdict(v) ensures cache.Hit(v) {
      var k: nat :| k < |filtered| && filtered[k] == Longest(filtered);
      CacheIsNecessary(cache, filtered, k, ci, v);
    }
    pf := Filter(ci, base, cache, false);
  }

  method CompileAnyRequired(lits: seq<Bytes>, ci: bool) returns (pf: CompiledPrefilter)
    requires WellShaped(AnyOf(lits), ci) && (ci ==> AllASCII(lits))
    ensures Compiles(pf, AnyOf(lits), ci)
  {
    hide HasAny, RequiredByteMatcher.Hit;
    var cache := NewRequiredByteMatcher(lits, ci);
    if Coarse(lits) {
      return Filter(ci, Cover(cache), cache, true);
    }
    var base := CompileAny(lits, ci);
    forall v: Bytes | base.Verdict(v) ensures cache.Hit(v) {
      AnyMeansHit(cache, lits, ci, v);
    }
    pf := Filter(ci, base, cache, false);
  }

  lemma AnyMeansHit(cache: RequiredByteMatcher, lits: seq<Bytes>, ci: bool, v: Bytes)
    requires (forall k | 0 <= k < |lits| :: Meets(cache.bits, lits[k], ci)) && HasAny(v, lits, ci)
    ensures cache.Hit(v)
  {
    var k: nat :| k < |lits| && Has(v, lits[k], ci);
    CacheIsNecessary(cache, lits, k, ci, v);
  }

  method CompilePrefilter(t: Dialect, re: Regex) returns (pf: CompiledPrefilter)
    requires t.Valid() && Parsed(t, re)
    ensures pf.Valid() && Compiles(pf, Extract(t, re, HasFold(re)), HasFold(re))
  {
    var ci := HasFold(re);
    var lits := Extract(t, re, ci);
    ExtractShape(t, re, ci);
    if lits.Unknown? || (ci && !AllASCII(lits.lits)) {
      return NoFilter;
    }
    if lits.AllOf? {
      pf := CompileAllRequired(lits.lits, ci);
    } else {
      pf := CompileAnyRequired(lits.lits, ci);
    }
  }

  /** Extracted literals are lower-case already, so the index's own lower-casing changes nothing. */
  lemma AlreadyLowered(lits: seq<Bytes>)
    requires AllASCII(lits) && forall k | 0 <= k < |lits| :: Searchable(lits[k], true)
    ensures Normalize(lits, true) == lits
  {
    forall k | 0 <= k < |lits| ensures LowerASCII(lits[k]) == lits[k] {
      assert IsASCII(lits[k]) && Searchable(lits[k], true);
    }
  }

  // ---------------------------------------------------------------- never a false negative

  /** A condition that holds makes the matcher compiled from it answer yes. */
  lemma HoldsMeansVerdict(pf: CompiledPrefilter, req: Required, ci: bool, v: Bytes)
    requires Compiles(pf, req, ci) && pf.Filter? && Holds(req, v, ci)
    ensures pf.base.Verdict(v)
  {
    assert ci ==> AllASCII(req.lits);
    if req.AllOf? {
      var checked := Checked(req.lits);
      forall k | 0 <= k < |checked| && req.lits != [] ensures Has(v, checked[k], ci) {
        var j :| 0 <= j < |req.lits| && req.lits[j] == checked[k];
        assert Occurs(req.lits[j], v, ci);
      }
      if req.lits == [] {
        assert checked == [[]] && At(v, 0, [], ci);
      }
    } else {
      var k: nat :| k < |req.lits| && Occurs(req.lits[k], v, ci);
      assert Has(v, req.lits[k], ci);
      if Coarse(req.lits) {
        pf.base.bytes.CoverIsNecessary(v, req.lits[k], ci);
      }
    }
  }

  /**
   The safety guarantee: for every parsed expression and every input, if some stretch of the
   input matches then the compiled filter answers "maybe". The one condition is that a
   case-insensitive expression for which there is a filter does not spell U+0130 in a literal.
   */
  lemma PrefilterSound(t: Dialect, re: Regex, pf: CompiledPrefilter, v: Bytes)
    requires t.Valid() && Parsed(t, re)
    requires Compiles(pf, Extract(t, re, HasFold(re)), HasFold(re))
    requires HasFold(re) && pf.Filter? ==> NoDottedI(re)
    requires MatchString(t, re, v)
    ensures pf.Verdict(v)
  {
    hide Dialect.Valid, HasFoldException, Holds, Compiles;
    if pf.Filter? {
      var ci := HasFold(re);
      var i: nat, j: nat :| i <= |v| && Matches(t, re, v, i, j);
      ExtractSound(t, re, ci, v, i, j);
      CiOfFilter(pf, Extract(t, re, ci), ci);
      if !(ci && HasFoldException(v)) {
        HoldsMeansVerdict(pf, Extract(t, re, ci), ci, v);
      }
    }
  }

  lemma CiOfFilter(pf: CompiledPrefilter, req: Required, ci: bool)
    requires Compiles(pf, req, ci)
    ensures pf.Filter? ==> pf.ci == ci
  {
  }

  // ---------------------------------------------------------------- where the guarantee fails

  /** The text that spells `runes` with ASCII letters, and U+0130 as itself. */
  function DottedText(t: Dialect, runes: seq<Rune>): Bytes {
    if runes == [] then []
    else Encode(if runes[0] == DOTTED_I then DOTTED_I else t.lower(runes[0])) + DottedText(t, runes[1..])
  }

  function AsciiCount(v: Bytes): nat {
    if v == [] then 0 else (if v[0] < 128 then 1 else 0) + AsciiCount(v[1..])
  }

  lemma {:induction false} AsciiCountConcat(a: Bytes, b: Bytes)
    ensures AsciiCount(a + b) == AsciiCount(a) + AsciiCount(b)
  {
    if a == [] {
      assert a + b == b;
    } else {
      AsciiCountConcat(a[1..], b);
      assert (a + b)[1..] == a[1..] + b;
    }
  }

  lemma {:induction false} AsciiWindow(w: Bytes)
    requires IsASCII(w)
    ensures AsciiCount(w) == |w|
  {
    if w != [] {
      AsciiWindow(w[1..]);
    }
  }

  /** An ASCII needle cannot occur in a text with fewer ASCII bytes than the needle. */
  lemma TooFewAscii(v: Bytes, needle: Bytes)
    requires IsASCII(needle) && Has(v, needle, true)
    ensures AsciiCount(v) >= |needle|
  {
    var i :| 0 <= i <= |v| - |needle| && At(v, i, needle, true);
    var a, w, b := v[..i], v[i..i + |needle|], v[i + |needle|..];
    forall k | 0 <= k < |w| ensures w[k] < 128 {
      assert Norm(v[i + k], true) == needle[k];
    }
    AsciiWindow(w);
    assert v == (a + w) + b;
    AsciiCountConcat(a + w, b);
    AsciiCountConcat(a, w);
  }

  lemma {:induction false} LoweredLength(t: Dialect, runes: seq<Rune>)
    requires IsASCII(LiteralBytes(t, runes, true))
    ensures |LiteralBytes(t, runes, true)| == |runes|
  {
    if runes != [] {
      AsciiLiteralSplit(t, runes, true);
      LoweredLength(t, runes[1..]);
    }
  }

  /** The dotted text has one ASCII byte per rune other than U+0130, and no folding exception. */
  lemma {:induction false} DottedTextBytes(t: Dialect, runes: seq<Rune>)
    requires t.Valid() && IsASCII(LiteralBytes(t, runes, true))
    ensures AsciiCount(DottedText(t, runes)) <= |runes|
    ensures DOTTED_I in runes ==> AsciiCount(DottedText(t, runes)) < |runes|
    ensures forall k | 0 <= k < |DottedText(t, runes)| ::
              DottedText(t, runes)[k] < 128 || DottedText(t, runes)[k] in {0xC4, 0xB0}
  {
    if runes != [] {
      AsciiLiteralSplit(t, runes, true);
      DottedTextBytes(t, runes[1..]);
      var first := Encode(if runes[0] == DOTTED_I then DOTTED_I else t.lower(runes[0]));
      AsciiCountConcat(first, DottedText(t, runes[1..]));
      assert Encode(DOTTED_I) == [0xC4, 0xB0];
      assert runes[0] != DOTTED_I ==> AsciiCount(first) == 1;
    }
  }

  /** The folded literal matches the dotted text. */
  lemma {:induction false} DottedTextMatches(t: Dialect, runes: seq<Rune>, prefix: Bytes)
    requires t.Valid() && IsASCII(LiteralBytes(t, runes, true))
    requires forall k | 0 <= k < |runes| :: forall d: Rune | t.orbit(runes[k], d) :: runes[k] <= d
    ensures MatchesRunes(t, runes, true, prefix + DottedText(t, runes), |prefix|, |prefix| + |DottedText(t, runes)|)
    decreases |runes|
  {
    hide DecodesTo, Encode, IsASCII, Dialect.Valid;
    if runes != [] {
      AsciiLiteralSplit(t, runes, true);
      var d: Rune := if runes[0] == DOTTED_I then DOTTED_I else t.lower(runes[0]);
      var e, rest := Encode(d), DottedText(t, runes[1..]);
      assert prefix + DottedText(t, runes) == prefix + e + rest;
      DecodeAfter(t, prefix, d, rest);
      OrbitOfLowered(t, runes[0]);
      DottedTextMatches(t, runes[1..], prefix + e);
    }
  }

  lemma DecodeAfter(t: Dialect, prefix: Bytes, d: Rune, rest: Bytes)
    requires t.Valid()
    ensures DecodesTo(t, prefix + Encode(d) + rest, |prefix|, d, |Encode(d)|)
  {
    var v, e := prefix + Encode(d) + rest, Encode(d);
    assert v[|prefix|..|prefix| + |e|] == e;
    assert StartsWithRune(v, |prefix|, d);
  }

  lemma OrbitOfLowered(t: Dialect, r: Rune)
    requires t.Valid() && t.lower(r) < 128
    requires forall d: Rune | t.orbit(r, d) :: r <= d
    ensures t.Accepts(r, true, if r == DOTTED_I then DOTTED_I else t.lower(r))
  {
    assert t.orbit(KELVIN, 107);
  }

  /** No rejection of a matching input, for a filter of the whole expression. */
  ghost predicate NeverRejectsAMatch(t: Dialect, re: Regex, pf: CompiledPrefilter) {
    forall v: Bytes :: MatchString(t, re, v) ==> pf.Verdict(v)
  }

  /** The bytes of a folded literal after lower-casing are all ASCII although U+0130 is among its runes. */
  predicate LosesDottedI(t: Dialect, runes: seq<Rune>) {
    DOTTED_I in runes && IsASCII(LiteralBytes(t, runes, true))
  }

  lemma LiteralFilter(t: Dialect, runes: seq<Rune>, pf: CompiledPrefilter)
    requires t.Valid() && runes != [] && LosesDottedI(t, runes)
    requires Compiles(pf, Extract(t, Literal(true, runes), true), true)
    ensures forall v: Bytes :: pf.Verdict(v) <==> Has(v, LiteralBytes(t, runes, true), true) || HasFoldException(v)
  {
    var lit := LiteralBytes(t, runes, true);
    NoErrorRune(t, runes);
    assert Extract(t, Literal(true, runes), true) == AllOf([lit]);
    assert FilterShort([lit], 2) == if |lit| >= 2 then [lit] else [];
    assert Checked([lit]) == [lit];
    forall v: Bytes ensures HasEvery(v, [lit], true) <==> Has(v, lit, true) {
      assert [lit][0] == lit;
    }
  }

  lemma {:induction false} NoErrorRune(t: Dialect, runes: seq<Rune>)
    requires t.Valid() && IsASCII(LiteralBytes(t, runes, true))
    ensures RUNE_ERROR !in runes
  {
    if runes != [] {
      AsciiLiteralSplit(t, runes, true);
      NoErrorRune(t, runes[1..]);
    }
  }

  /**
   Case-insensitive literals, exactly: the guarantee holds unless U+0130 is lower-cased into an
   all-ASCII needle. (?i) does not fold U+0130, while strings.ToLower maps it to 'i'.
   */
  lemma FoldedLiteralExact(t: Dialect, runes: seq<Rune>, pf: CompiledPrefilter)
    requires t.Valid() && Parsed(t, Literal(true, runes))
    requires Compiles(pf, Extract(t, Literal(true, runes), true), true)
    ensures NeverRejectsAMatch(t, Literal(true, runes), pf) <==> !LosesDottedI(t, runes)
  {
    var re := Literal(true, runes);
    if LosesDottedI(t, runes) {
      RejectsDottedText(t, runes, pf);
      assert !NeverRejectsAMatch(t, re, pf);
    } else if DOTTED_I in runes {
      assert pf.NoFilter? by {
        assert Extract(t, re, true).AllOf? ==> Extract(t, re, true).lits[0] == LiteralBytes(t, runes, true);
      }
    } else {
      forall v: Bytes | MatchString(t, re, v) ensures pf.Verdict(v) {
        PrefilterSound(t, re, pf, v);
      }
    }
  }

  lemma RejectsDottedText(t: Dialect, runes: seq<Rune>, pf: CompiledPrefilter)
    requires t.Valid() && Parsed(t, Literal(true, runes)) && LosesDottedI(t, runes)
    requires Compiles(pf, Extract(t, Literal(true, runes), true), true)
    ensures MatchString(t, Literal(true, runes), DottedText(t, runes))
    ensures !pf.Verdict(DottedText(t, runes))
  {
    hide Dialect.Valid, Compiles, Has, MatchesRunes;
    var v := DottedText(t, runes);
    DottedTextMatches(t, runes, []);
    assert [] + v == v;
    assert Matches(t, Literal(true, runes), v, 0, |v|);
    DottedTextBytes(t, runes);
    LoweredLength(t, runes);
    if Has(v, LiteralBytes(t, runes, true), true) {
      TooFewAscii(v, LiteralBytes(t, runes, true));
    }
    NoException(v);
    LiteralFilter(t, runes, pf);
  }

  lemma NoException(v: Bytes)
    requires forall k | 0 <= k < |v| :: v[k] < 128 || v[k] in {0xC4, 0xB0}
    ensures !HasFoldException(v)
  {
    forall i | 0 <= i <= |v| - 2 ensures !At(v, i, LONG_S_BYTES, false) {
      assert Norm(v[i + 0], false) != LONG_S_BYTES[0];
    }
    forall i | 0 <= i <= |v| - 3 ensures !At(v, i, KELVIN_BYTES, false) {
      assert Norm(v[i + 0], false) != KELVIN_BYTES[0];
    }
  }

  /** The smallest failing case: (?i) with U+0130 as the whole expression, on its own encoding. */
  lemma DottedICounterexample(t: Dialect, pf: CompiledPrefilter)
    requires t.Valid() && Compiles(pf, Extract(t, Literal(true, [DOTTED_I]), true), true)
    ensures MatchString(t, Literal(true, [DOTTED_I]), [0xC4, 0xB0])
    ensures !pf.Verdict([0xC4, 0xB0])
  {
    assert LiteralBytes(t, [DOTTED_I], true) == [105];
    assert Encode(DOTTED_I) == [0xC4, 0xB0];
    assert DottedText(t, [DOTTED_I]) == [0xC4, 0xB0];
    RejectsDottedText(t, [DOTTED_I], pf);
  }
}
