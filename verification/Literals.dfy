/**
 Required-literal extraction of internal/operators/rxprefilter.go, and its soundness: what is
 extracted occurs in every input the expression matches.
 */
module Literals {
  import opened ByteStrings
  import opened Regex
  import opened MinLength

  const MAX_CLASS_LITERALS := 64

  /** nil, allRequired (every literal occurs) or anyRequired (at least one occurs). */
  datatype Required =
    | Unknown
    | AllOf(lits: seq<Bytes>)
    | AnyOf(lits: seq<Bytes>)

  function Longest(ss: seq<Bytes>): (best: Bytes)
    ensures ss != [] ==> best in ss
    ensures forall k | 0 <= k < |ss| :: |ss[k]| <= |best|
  {
    if ss == [] then []
    else if |ss| == 1 then ss[0]
    else
      var init := Longest(ss[..|ss| - 1]);
      assert forall k | 0 <= k < |ss| - 1 :: ss[..|ss| - 1][k] == ss[k];
      if |ss[|ss| - 1]| > |init| then ss[|ss| - 1] else init
  }

  function ShortestLength(ss: seq<Bytes>): (n: nat)
    ensures ss != [] ==> exists k | 0 <= k < |ss| :: |ss[k]| == n
    ensures forall k | 0 <= k < |ss| :: n <= |ss[k]|
  {
    if ss == [] then 0
    else if |ss| == 1 then |ss[0]|
    else
      var rest := ShortestLength(ss[1..]);
      assert forall k | 1 <= k < |ss| :: ss[1..][k - 1] == ss[k];
      if |ss[0]| < rest then |ss[0]| else rest
  }

  predicate AnyTooShort(ss: seq<Bytes>, minLen: nat) {
    exists k | 0 <= k < |ss| :: |ss[k]| < minLen
  }

  function FilterShort(ss: seq<Bytes>, minLen: nat): (r: seq<Bytes>)
    ensures forall k | 0 <= k < |r| :: r[k] in ss && |r[k]| >= minLen
    ensures forall s | s in ss && |s| >= minLen :: s in r
  {
    if ss == [] then []
    else
      var rest := FilterShort(ss[1..], minLen);
      assert ss == [ss[0]] + ss[1..];
      if |ss[0]| >= minLen then [ss[0]] + rest else rest
  }

  /**
   The most selective group of alternatives: the one whose shortest literal is longest, and
   among those the smallest; empty groups are ignored. `best` is what has been chosen so far.
   */
  function BestAnyRequired(groups: seq<seq<Bytes>>, best: seq<Bytes>): (r: seq<Bytes>)
    ensures r == best || r in groups
    decreases |groups|
  {
    if groups == [] then best
    else
      var group := groups[0];
      var better := group != [] &&
                    (best == [] || ShortestLength(group) > ShortestLength(best) ||
                     (ShortestLength(group) == ShortestLength(best) && |group| < |best|));
      BestAnyRequired(groups[1..], if better then group else best)
  }

  predicate AllEmpty(groups: seq<seq<Bytes>>) {
    forall g | g in groups :: g == []
  }

  lemma AllEmptySplit(groups: seq<seq<Bytes>>)
    requires groups != []
    ensures AllEmpty(groups) <==> groups[0] == [] && AllEmpty(groups[1..])
  {
    assert groups == [groups[0]] + groups[1..];
    assert groups[0] in groups;
    if AllEmpty(groups) {
      forall g | g in groups[1..] ensures g == [] {
        assert g in groups;
      }
    }
  }

  /** The choice is at least as good as every candidate, and empty only if all of them are. */
  lemma {:induction false} BestIsPreferable(groups: seq<seq<Bytes>>, best: seq<Bytes>)
    ensures var r := BestAnyRequired(groups, best);
            && (r == [] <==> best == [] && AllEmpty(groups))
            && (best != [] ==> Preferable(r, best))
            && (forall g | g in groups && g != [] :: Preferable(r, g))
    decreases |groups|
  {
    hide ShortestLength, AllEmpty;
    if groups == [] {
      assert AllEmpty(groups) by {
        NoneEmpty();
      }
    } else {
      var group, r := groups[0], BestAnyRequired(groups, best);
      var chosen := if group != [] && (best == [] || !Preferable(best, group)) then group else best;
      assert r == BestAnyRequired(groups[1..], chosen);
      BestIsPreferable(groups[1..], chosen);
      AllEmptySplit(groups);
      forall g | g in groups ensures g != [] ==> Preferable(r, g) {
        assert g == group || g in groups[1..];
      }
    }
  }

  lemma NoneEmpty()
    ensures AllEmpty([])
  {
  }

  /** `a` filters at least as well as `b`: a longer shortest literal, or as long with no more literals. */
  predicate Preferable(a: seq<Bytes>, b: seq<Bytes>) {
    || ShortestLength(a) > ShortestLength(b)
    || (ShortestLength(a) == ShortestLength(b) && |a| <= |b|)
  }

  /** A literal as it is searched for: its UTF-8 bytes, lower-cased when `ci` is set. */
  function LiteralBytes(t: Dialect, runes: seq<Rune>, ci: bool): Bytes {
    if runes == [] then []
    else Encode(if ci then t.lower(runes[0]) else runes[0]) + LiteralBytes(t, runes[1..], ci)
  }

  function RangeLiterals(t: Dialect, low: Rune, high: Rune, ci: bool): (r: seq<Bytes>)
    requires high < 128
    ensures |r| == if low <= high then high - low + 1 else 0
    ensures forall k | 0 <= k < |r| :: r[k] == Encode(if ci then t.lower(low + k) else low + k)
  {
    seq(if low <= high then high - low + 1 else 0,
        k requires 0 <= k && low + k <= high => Encode(if ci then t.lower(low + k) else low + k))
  }

  /** Single-byte alternatives of a small ASCII class; `lits` are those of the earlier ranges. */
  function ClassLiterals(t: Dialect, ranges: seq<(Rune, Rune)>, ci: bool, lits: seq<Bytes>): Required
    decreases |ranges|
  {
    if ranges == [] then
      if lits == [] then Unknown else AnyOf(lits)
    else
      var (low, high) := ranges[0];
      if high > 127 || high - low + 1 > MAX_CLASS_LITERALS - |lits| then Unknown
      else ClassLiterals(t, ranges[1..], ci, lits + RangeLiterals(t, low, high, ci))
  }

  function Extract(t: Dialect, re: Regex, ci: bool): Required
    decreases re, 0
  {
    match re
    case Literal(_, runes) =>
      if RUNE_ERROR in runes then Unknown else AllOf([LiteralBytes(t, runes, ci)])
    case CharClass(_, ranges) => ClassLiterals(t, ranges, ci, [])
    case Capture(_, sub) => Extract(t, sub, ci)
    case Plus(_, sub) => Extract(t, sub, ci)
    case Repeat(_, sub, min, _) => if min >= 1 then Extract(t, sub, ci) else Unknown
    case Concat(_, subs) =>
      var all := ConcatAll(t, subs, ci);
      var best := BestAnyRequired(ConcatGroups(t, subs, ci), []);
      if all != [] then
        if best != [] && ShortestLength(best) > |Longest(all)| then AnyOf(best) else AllOf(all)
      else if best == [] then Unknown
      else AnyOf(best)
    case Alternate(_, subs) =>
      if exists k | 0 <= k < |subs| :: Extract(t, subs[k], ci) == Unknown then Unknown
      else
        var lits := BranchLiterals(t, subs, ci);
        if lits == [] then Unknown else AnyOf(lits)
    case _ => Unknown
  }

  /** The fixed literals of a concatenation, in order. */
  function ConcatAll(t: Dialect, subs: seq<Regex>, ci: bool): seq<Bytes>
    decreases subs, 0
  {
    if subs == [] then []
    else
      var head := Extract(t, subs[0], ci);
      (if head.AllOf? then head.lits else []) + ConcatAll(t, subs[1..], ci)
  }

  /** The alternative groups of a concatenation, in order. */
  function ConcatGroups(t: Dialect, subs: seq<Regex>, ci: bool): seq<seq<Bytes>>
    decreases subs, 0
  {
    if subs == [] then []
    else
      var head := Extract(t, subs[0], ci);
      (if head.AnyOf? then [head.lits] else []) + ConcatGroups(t, subs[1..], ci)
  }

  /** One representative literal per fixed branch, all literals of an alternative branch. */
  function BranchLiterals(t: Dialect, subs: seq<Regex>, ci: bool): seq<Bytes>
    decreases subs, 0
  {
    if subs == [] then []
    else
      var head := Extract(t, subs[0], ci);
      (match head
       case Unknown => []
       case AllOf(lits) => [Longest(lits)]
       case AnyOf(lits) => lits) + BranchLiterals(t, subs[1..], ci)
  }

  // ---------------------------------------------------------------- what extraction promises

  const LONG_S_BYTES: Bytes := [0xC5, 0xBF]
  const KELVIN_BYTES: Bytes := [0xE2, 0x84, 0xAA]

  /** The input holds a rune that (?i) identifies with an ASCII letter: long-s or the Kelvin sign. */
  predicate HasFoldException(v: Bytes) {
    Has(v, LONG_S_BYTES, false) || Has(v, KELVIN_BYTES, false)
  }

  /** `lit` occurs, or is outside what byte-wise case folding can decide. */
  predicate Occurs(lit: Bytes, v: Bytes, ci: bool) {
    Has(v, lit, ci) || (ci && !IsASCII(lit))
  }

  predicate AllOccur(lits: seq<Bytes>, v: Bytes, ci: bool) {
    forall k | 0 <= k < |lits| :: Occurs(lits[k], v, ci)
  }

  predicate SomeOccurs(lits: seq<Bytes>, v: Bytes, ci: bool) {
    exists k | 0 <= k < |lits| :: Occurs(lits[k], v, ci)
  }

  predicate Holds(req: Required, v: Bytes, ci: bool) {
    match req
    case Unknown => true
    case AllOf(lits) => AllOccur(lits, v, ci)
    case AnyOf(lits) => SomeOccurs(lits, v, ci)
  }

  /** The conditions under which extraction is faithful: one case mode, no U+0130 under folding. */
  predicate Analysable(re: Regex, ci: bool) {
    if ci then NoDottedI(re) else !HasFold(re)
  }

  lemma ExceptionBytes()
    ensures Encode(LONG_S) == LONG_S_BYTES && Encode(KELVIN) == KELVIN_BYTES
  {
  }

  /** A rune found at `i` puts its encoding there. */
  lemma RuneOccurs(v: Bytes, i: nat, r: Rune)
    requires StartsWithRune(v, i, r)
    ensures At(v, i, Encode(r), false)
  {
    var e := Encode(r);
    var window := v[i..i + |e|];
    assert forall k | 0 <= k < |e| :: window[k] == v[i + k];
  }

  lemma AtConcat(v: Bytes, i: nat, a: Bytes, b: Bytes, fold: bool)
    requires At(v, i, a, fold) && At(v, i + |a|, b, fold)
    ensures At(v, i, a + b, fold)
  {
    forall k | 0 <= k < |a + b| ensures Norm(v[i + k], fold) == (a + b)[k] {
      if k >= |a| {
        assert Norm(v[i + |a| + (k - |a|)], fold) == b[k - |a|];
      }
    }
  }

  /** A case-sensitive literal match spells the literal's UTF-8 bytes. */
  lemma {:induction false} ExactLiteralOccurs(t: Dialect, runes: seq<Rune>, v: Bytes, i: nat, j: nat)
    requires !t.binary && MatchesRunes(t, runes, false, v, i, j)
    requires RUNE_ERROR !in runes
    requires i <= |v|
    ensures At(v, i, LiteralBytes(t, runes, false), false)
  {
    hide Encode, StartsWithRune;
    if runes != [] {
      var d: Rune, w: nat :| DecodesTo(t, v, i, d, w) && t.Accepts(runes[0], false, d) &&
                             MatchesRunes(t, runes[1..], false, v, i + w, j);
      RuneOccurs(v, i, d);
      ExactLiteralOccurs(t, runes[1..], v, i + w, j);
      AtConcat(v, i, Encode(d), LiteralBytes(t, runes[1..], false), false);
    }
  }

  /** One rune matched under case-insensitive analysis spells the lower-cased byte, or an exception rune. */
  lemma FoldedRune(t: Dialect, p: Rune, fold: bool, v: Bytes, i: nat, d: Rune, w: nat)
    requires t.Valid() && p != RUNE_ERROR && p != DOTTED_I && t.lower(p) < 128
    requires DecodesTo(t, v, i, d, w) && t.Accepts(p, fold, d)
    ensures HasFoldException(v) || (w == 1 && At(v, i, Encode(t.lower(p)), true))
  {
    ExceptionBytes();
    if StartsWithRune(v, i, d) {
      RuneOccurs(v, i, d);
      if d == LONG_S || d == KELVIN {
        HasIntro(v, i, Encode(d), false);
      } else {
        assert v[i + 0] == d;
      }
    }
  }

  lemma AsciiLiteralSplit(t: Dialect, runes: seq<Rune>, ci: bool)
    requires runes != [] && IsASCII(LiteralBytes(t, runes, ci))
    ensures (if ci then t.lower(runes[0]) else runes[0]) < 128
    ensures IsASCII(LiteralBytes(t, runes[1..], ci))
  {
    var first, rest := Encode(if ci then t.lower(runes[0]) else runes[0]), LiteralBytes(t, runes[1..], ci);
    assert first[0] == (first + rest)[0];
    assert forall k | 0 <= k < |rest| :: rest[k] == (first + rest)[|first| + k];
  }

  lemma {:induction false} FoldedLiteralOccurs(
    t: Dialect, runes: seq<Rune>, fold: bool, v: Bytes, i: nat, j: nat)
    requires t.Valid() && MatchesRunes(t, runes, fold, v, i, j)
    requires RUNE_ERROR !in runes && DOTTED_I !in runes
    requires IsASCII(LiteralBytes(t, runes, true))
    requires i <= |v|
    ensures HasFoldException(v) || At(v, i, LiteralBytes(t, runes, true), true)
  {
    hide DecodesTo, HasFoldException, Dialect.Valid, Encode, Has;
    if runes != [] {
      var d: Rune, w: nat :| DecodesTo(t, v, i, d, w) && t.Accepts(runes[0], fold, d) &&
                             MatchesRunes(t, runes[1..], fold, v, i + w, j);
      AsciiLiteralSplit(t, runes, true);
      FoldedRune(t, runes[0], fold, v, i, d, w);
      if !HasFoldException(v) {
        FoldedLiteralOccurs(t, runes[1..], fold, v, i + w, j);
        AtConcat(v, i, Encode(t.lower(runes[0])), LiteralBytes(t, runes[1..], true), true);
      }
    }
  }

  lemma LiteralSound(t: Dialect, re: Regex, ci: bool, v: Bytes, i: nat, j: nat)
    requires t.Valid() && re.Literal? && Analysable(re, ci)
    requires i <= |v| && Matches(t, re, v, i, j)
    ensures (ci && HasFoldException(v)) || Holds(Extract(t, re, ci), v, ci)
  {
    var lit := LiteralBytes(t, re.runes, ci);
    if RUNE_ERROR !in re.runes {
      if !ci {
        ExactLiteralOccurs(t, re.runes, v, i, j);
        HasIntro(v, i, lit, false);
      } else if IsASCII(lit) {
        FoldedLiteralOccurs(t, re.runes, re.fold, v, i, j);
        if !HasFoldException(v) {
          HasIntro(v, i, lit, true);
        }
      }
    }
  }

  /** The rune that a small ASCII class accepts is one of its single-byte alternatives. */
  lemma {:induction false} ClassSound(
    t: Dialect, ranges: seq<(Rune, Rune)>, ci: bool, lits: seq<Bytes>, v: Bytes, i: nat, d: Rune, w: nat)
    requires t.Valid() && DecodesTo(t, v, i, d, w)
    requires InClass(ranges, d) || exists k | 0 <= k < |lits| :: Occurs(lits[k], v, ci)
    ensures Holds(ClassLiterals(t, ranges, ci, lits), v, ci)
    decreases |ranges|
  {
    if ranges != [] {
      var (low, high) := ranges[0];
      if high <= 127 && high - low + 1 <= MAX_CLASS_LITERALS - |lits| {
        var more := RangeLiterals(t, low, high, ci);
        var lits' := lits + more;
        if k :| 0 <= k < |lits| && Occurs(lits[k], v, ci) {
          assert lits'[k] == lits[k];
        } else if low <= d <= high {
          RuneOccurs(v, i, d);
          assert v[i + 0] == d;
          assert At(v, i, more[d - low], ci);
          HasIntro(v, i, more[d - low], ci);
          assert lits'[|lits| + (d - low)] == more[d - low];
        } else {
          var k :| 0 <= k < |ranges| && ranges[k].0 <= d <= ranges[k].1;
          assert ranges[1..][k - 1] == ranges[k];
        }
        ClassSound(t, ranges[1..], ci, lits', v, i, d, w);
      }
    }
  }

  /**
   Soundness of extraction: whenever some stretch of `v` matches, the extracted condition
   holds of `v`, unless `v` holds one of the two runes that (?i) folds into ASCII.
   */
  lemma {:induction false} ExtractSound(t: Dialect, re: Regex, ci: bool, v: Bytes, i: nat, j: nat)
    requires t.Valid() && Parsed(t, re) && Analysable(re, ci)
    requires i <= |v| && Matches(t, re, v, i, j)
    ensures (ci && HasFoldException(v)) || Holds(Extract(t, re, ci), v, ci)
    decreases re, 0
  {
    hide Dialect.Valid, HasFoldException, AllOccur, SomeOccurs;
    match re
    case Literal(_, _) =>
      LiteralSound(t, re, ci, v, i, j);
    case CharClass(_, ranges) =>
      var d: Rune, w: nat :| DecodesTo(t, v, i, d, w) && j == i + w && InClass(ranges, d);
      ClassSound(t, ranges, ci, [], v, i, d, w);
    case Capture(_, sub) =>
      ExtractSound(t, sub, ci, v, i, j);
    case Plus(_, sub) =>
      var n: nat :| n >= 1 && MatchesTimes(t, sub, n, v, i, j);
      var k := FirstRepetition(t, sub, n, v, i, j);
      ExtractSound(t, sub, ci, v, i, k);
    case Repeat(_, sub, min, max) =>
      if min >= 1 {
        var n: nat :| min <= n && (max < 0 || n <= max) && MatchesTimes(t, sub, n, v, i, j);
        var k := FirstRepetition(t, sub, n, v, i, j);
        ExtractSound(t, sub, ci, v, i, k);
      }
    case Concat(_, subs) =>
      ConcatSound(t, subs, ci, v, i, j);
      var groups := ConcatGroups(t, subs, ci);
      var best := BestAnyRequired(groups, []);
      if !(ci && HasFoldException(v)) && best != [] {
        assert best in groups && SomeOccurs(best, v, ci);
      }
    case Alternate(_, subs) =>
      var k: nat :| k < |subs| && Matches(t, subs[k], v, i, j);
      ExtractSound(t, subs[k], ci, v, i, j);
      if !(ci && HasFoldException(v)) && Extract(t, re, ci) != Unknown {
        BranchSound(t, subs, ci, v, k);
      }
    case _ =>
  }

  /** Every part of a concatenation matches somewhere, so every extracted part holds. */
  lemma {:induction false} ConcatSound(t: Dialect, subs: seq<Regex>, ci: bool, v: Bytes, i: nat, j: nat)
    requires t.Valid()
    requires forall k | 0 <= k < |subs| :: Parsed(t, subs[k]) && Analysable(subs[k], ci)
    requires i <= |v| && MatchesAll(t, subs, v, i, j)
    ensures (ci && HasFoldException(v)) || AllOccur(ConcatAll(t, subs, ci), v, ci)
    ensures (ci && HasFoldException(v)) ||
            forall g | g in ConcatGroups(t, subs, ci) :: SomeOccurs(g, v, ci)
    decreases subs, 0
  {
    hide Dialect.Valid, HasFoldException, Occurs, SomeOccurs;
    if subs != [] {
      var m: nat :| Matches(t, subs[0], v, i, m) && MatchesAll(t, subs[1..], v, m, j);
      MatchLength(t, subs[0], v, i, m);
      ExtractSound(t, subs[0], ci, v, i, m);
      ConcatSound(t, subs[1..], ci, v, m, j);
      var head := Extract(t, subs[0], ci);
      var all, groups := ConcatAll(t, subs[1..], ci), ConcatGroups(t, subs[1..], ci);
      if !(ci && HasFoldException(v)) {
        assert AllOccur((if head.AllOf? then head.lits else []) + all, v, ci);
        var groups' := (if head.AnyOf? then [head.lits] else []) + groups;
        assert forall g | g in groups' :: g in groups || (head.AnyOf? && g == head.lits);
      }
    }
  }

  /** The matching branch of an alternation contributes a literal that occurs. */
  lemma {:induction false} BranchSound(t: Dialect, subs: seq<Regex>, ci: bool, v: Bytes, k: nat)
    requires t.Valid() && forall j | 0 <= j < |subs| :: Parsed(t, subs[j])
    requires k < |subs| && Extract(t, subs[k], ci) != Unknown && Holds(Extract(t, subs[k], ci), v, ci)
    ensures SomeOccurs(BranchLiterals(t, subs, ci), v, ci)
    decreases |subs|
  {
    hide Occurs, Dialect.Valid, Searchable;
    var head, tail := Extract(t, subs[0], ci), BranchLiterals(t, subs[1..], ci);
    var front := match head case Unknown => [] case AllOf(lits) => [Longest(lits)] case AnyOf(lits) => lits;
    assert BranchLiterals(t, subs, ci) == front + tail;
    if k == 0 {
      ExtractShape(t, subs[0], ci);
      if head.AllOf? {
        var j :| 0 <= j < |head.lits| && head.lits[j] == Longest(head.lits);
        assert (front + tail)[0] == head.lits[j];
      } else {
        var j :| 0 <= j < |head.lits| && Occurs(head.lits[j], v, ci);
        assert (front + tail)[j] == head.lits[j];
      }
    } else {
      BranchSound(t, subs[1..], ci, v, k - 1);
      var j :| 0 <= j < |tail| && Occurs(tail[j], v, ci);
      assert (front + tail)[|front| + j] == tail[j];
    }
  }

  /** A non-empty literal, without upper-case letters when it is to be searched case-insensitively. */
  ghost predicate Searchable(lit: Bytes, ci: bool) {
    lit != [] && (ci && IsASCII(lit) ==> forall k | 0 <= k < |lit| :: !IsUpper(lit[k]))
  }

  ghost predicate WellShaped(req: Required, ci: bool) {
    req.Unknown? || (req.lits != [] && forall k | 0 <= k < |req.lits| :: Searchable(req.lits[k], ci))
  }

  lemma {:induction false} LiteralShape(t: Dialect, runes: seq<Rune>, ci: bool)
    requires t.Valid() && runes != []
    ensures Searchable(LiteralBytes(t, runes, ci), ci)
  {
    var lit := LiteralBytes(t, runes, ci);
    if ci && IsASCII(lit) {
      AsciiLiteralSplit(t, runes, ci);
      if |runes| > 1 {
        LiteralShape(t, runes[1..], ci);
      }
    }
  }

  /** Extraction from a parsed tree yields a non-empty list of searchable literals, or nothing. */
  lemma {:induction false} ExtractShape(t: Dialect, re: Regex, ci: bool)
    requires t.Valid() && Parsed(t, re)
    ensures WellShaped(Extract(t, re, ci), ci)
    decreases re, 0
  {
    hide Dialect.Valid, Searchable;
    match re
    case Literal(_, runes) => LiteralShape(t, runes, ci);
    case CharClass(_, ranges) => ClassShape(t, ranges, ci, []);
    case Capture(_, sub) => ExtractShape(t, sub, ci);
    case Plus(_, sub) => ExtractShape(t, sub, ci);
    case Repeat(_, sub, _, _) => ExtractShape(t, sub, ci);
    case Concat(_, subs) => PartsShape(t, subs, ci);
    case Alternate(_, subs) => PartsShape(t, subs, ci);
    case _ =>
  }

  lemma {:induction false} ClassShape(t: Dialect, ranges: seq<(Rune, Rune)>, ci: bool, lits: seq<Bytes>)
    requires t.Valid() && forall k | 0 <= k < |lits| :: Searchable(lits[k], ci)
    ensures WellShaped(ClassLiterals(t, ranges, ci, lits), ci)
    decreases |ranges|
  {
    if ranges != [] {
      var (low, high) := ranges[0];
      if high <= 127 {
        ClassShape(t, ranges[1..], ci, lits + RangeLiterals(t, low, high, ci));
      }
    }
  }

  lemma {:induction false} PartsShape(t: Dialect, subs: seq<Regex>, ci: bool)
    requires t.Valid() && forall k | 0 <= k < |subs| :: Parsed(t, subs[k])
    ensures forall k | 0 <= k < |ConcatAll(t, subs, ci)| :: Searchable(ConcatAll(t, subs, ci)[k], ci)
    ensures forall g | g in ConcatGroups(t, subs, ci) :: WellShaped(AnyOf(g), ci)
    ensures forall k | 0 <= k < |BranchLiterals(t, subs, ci)| :: Searchable(BranchLiterals(t, subs, ci)[k], ci)
    decreases subs, 0
  {
    hide Dialect.Valid, Searchable;
    if subs != [] {
      ExtractShape(t, subs[0], ci);
      PartsShape(t, subs[1..], ci);
    }
  }
}
