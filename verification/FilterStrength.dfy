/**
 What the prefilters of internal/operators/rxprefilter.go and rxprefilter_binary.go are good for:
 soundness alone would be met by a filter that lets everything through. Required literals are found
 and tested, alternatives are tested exactly, and the minimum length is reached by some match.
 */
module FilterStrength {
  import opened ByteStrings
  import opened Regex
  import opened MinLength
  import opened Literals
  import opened PairIndex
  import opened Prefilter
  import BinaryPrefilter

  // ---------------------------------------------------------------- required literals

  /** Every match of `re` contains a match of the literal `runes`, as the shape of the tree tells. */
  ghost predicate Contains(re: Regex, runes: seq<Rune>) {
    match re
    case Literal(_, own) => own == runes && RUNE_ERROR !in own
    case Capture(_, sub) => Contains(sub, runes)
    case Plus(_, sub) => Contains(sub, runes)
    case Repeat(_, sub, min, _) => min >= 1 && Contains(sub, runes)
    case Concat(_, subs) => exists k | 0 <= k < |subs| :: Contains(subs[k], runes)
    case _ => false
  }

  /** No alternatives where a match is certain to pass. */
  ghost predicate SinglePath(re: Regex) {
    match re
    case CharClass(_, _) => false
    case Alternate(_, _) => false
    case Capture(_, sub) => SinglePath(sub)
    case Plus(_, sub) => SinglePath(sub)
    case Repeat(_, sub, _, _) => SinglePath(sub)
    case Concat(_, subs) => forall k | 0 <= k < |subs| :: SinglePath(subs[k])
    case _ => true
  }

  /** How long a literal an accepted input is sure to contain. */
  ghost function Strength(req: Required): nat {
    match req
    case Unknown => 0
    case AllOf(lits) => |Longest(lits)|
    case AnyOf(lits) => ShortestLength(lits)
  }

  lemma LongestOf(lits: seq<Bytes>, lit: Bytes)
    requires lit in lits
    ensures |Longest(lits)| >= |lit|
  {
    var k :| 0 <= k < |lits| && lits[k] == lit;
  }

  /** On a single path every required literal is extracted. */
  lemma {:induction false} LiteralExtracted(t: Dialect, re: Regex, ci: bool, runes: seq<Rune>)
    requires SinglePath(re) && Contains(re, runes)
    ensures Extract(t, re, ci).AllOf? && LiteralBytes(t, runes, ci) in Extract(t, re, ci).lits
    decreases re
  {
    match re
    case Literal(_, _) =>
    case Capture(_, sub) => LiteralExtracted(t, sub, ci, runes);
    case Plus(_, sub) => LiteralExtracted(t, sub, ci, runes);
    case Repeat(_, sub, _, _) => LiteralExtracted(t, sub, ci, runes);
    case Concat(_, subs) =>
      var k: nat :| k < |subs| && Contains(subs[k], runes);
      LiteralExtracted(t, subs[k], ci, runes);
      PartExtracted(t, subs, ci, k, LiteralBytes(t, runes, ci));
      NoGroupsOnPath(t, subs, ci);
  }

  lemma {:induction false} PartExtracted(t: Dialect, subs: seq<Regex>, ci: bool, k: nat, lit: Bytes)
    requires k < |subs| && Extract(t, subs[k], ci).AllOf? && lit in Extract(t, subs[k], ci).lits
    ensures lit in ConcatAll(t, subs, ci)
    decreases |subs|
  {
    if k > 0 {
      PartExtracted(t, subs[1..], ci, k - 1, lit);
    }
  }

  lemma {:induction false} NoGroupOnPath(t: Dialect, re: Regex, ci: bool)
    requires SinglePath(re)
    ensures !Extract(t, re, ci).AnyOf?
    decreases re, 0
  {
    match re
    case Capture(_, sub) => NoGroupOnPath(t, sub, ci);
    case Plus(_, sub) => NoGroupOnPath(t, sub, ci);
    case Repeat(_, sub, _, _) => NoGroupOnPath(t, sub, ci);
    case Concat(_, subs) => NoGroupsOnPath(t, subs, ci);
    case _ =>
  }

  lemma {:induction false} NoGroupsOnPath(t: Dialect, subs: seq<Regex>, ci: bool)
    requires forall k | 0 <= k < |subs| :: SinglePath(subs[k])
    ensures ConcatGroups(t, subs, ci) == []
    decreases subs, 0
  {
    if subs != [] {
      NoGroupOnPath(t, subs[0], ci);
      NoGroupsOnPath(t, subs[1..], ci);
    }
  }

  /** With alternatives around it, what is extracted is at least as selective as the literal. */
  lemma {:induction false} AtLeastAsSelective(t: Dialect, re: Regex, ci: bool, runes: seq<Rune>)
    requires t.Valid() && Parsed(t, re) && Contains(re, runes)
    ensures !Extract(t, re, ci).Unknown? && Strength(Extract(t, re, ci)) >= |LiteralBytes(t, runes, ci)|
    decreases re
  {
    hide Dialect.Valid, WellShaped;
    match re
    case Literal(_, _) =>
      LongestOf([LiteralBytes(t, runes, ci)], LiteralBytes(t, runes, ci));
    case Capture(_, sub) => AtLeastAsSelective(t, sub, ci, runes);
    case Plus(_, sub) => AtLeastAsSelective(t, sub, ci, runes);
    case Repeat(_, sub, _, _) => AtLeastAsSelective(t, sub, ci, runes);
    case Concat(_, subs) =>
      var k: nat :| k < |subs| && Contains(subs[k], runes);
      AtLeastAsSelective(t, subs[k], ci, runes);
      ConcatStrength(t, re, ci, k);
  }

  /** A concatenation is as selective as each of its parts. */
  lemma ConcatStrength(t: Dialect, re: Regex, ci: bool, k: nat)
    requires t.Valid() && Parsed(t, re) && re.Concat? && k < |re.subs| && !Extract(t, re.subs[k], ci).Unknown?
    ensures !Extract(t, re, ci).Unknown?
    ensures Strength(Extract(t, re, ci)) >= Strength(Extract(t, re.subs[k], ci))
  {
    hide Dialect.Valid, Searchable, BestAnyRequired, Longest, ShortestLength;
    var part := Extract(t, re.subs[k], ci);
    var all, groups := ConcatAll(t, re.subs, ci), ConcatGroups(t, re.subs, ci);
    var best := BestAnyRequired(groups, []);
    ExtractShape(t, re.subs[k], ci);
    PartIsThere(t, re.subs, ci, k);
    BestIsPreferable(groups, []);
    if part.AllOf? {
      LongestIn(part.lits);
      assert Longest(part.lits) in all;
      LongestOf(all, Longest(part.lits));
    } else {
      assert part.lits in groups && Preferable(best, part.lits);
    }
  }

  lemma LongestIn(lits: seq<Bytes>)
    requires lits != []
    ensures Longest(lits) in lits
  {
  }

  lemma {:induction false} PartIsThere(t: Dialect, subs: seq<Regex>, ci: bool, k: nat)
    requires k < |subs|
    ensures var part := Extract(t, subs[k], ci);
            && (part.AllOf? ==> forall lit | lit in part.lits :: lit in ConcatAll(t, subs, ci))
            && (part.AnyOf? ==> part.lits in ConcatGroups(t, subs, ci))
    decreases |subs|
  {
    hide Extract;
    if k > 0 {
      PartIsThere(t, subs[1..], ci, k - 1);
    }
  }

  // ---------------------------------------------------------------- what the filter rejects

  /**
   A literal of two bytes or more on a single path: the compiled filter rejects every input without
   it, but for the two runes that (?i) folds into ASCII.
   */
  lemma LiteralIsTested(t: Dialect, re: Regex, pf: CompiledPrefilter, runes: seq<Rune>, v: Bytes)
    requires SinglePath(re) && Contains(re, runes) && |LiteralBytes(t, runes, HasFold(re))| >= 2
    requires HasFold(re) ==> Extract(t, re, true).AllOf? && AllASCII(Extract(t, re, true).lits)
    requires Compiles(pf, Extract(t, re, HasFold(re)), HasFold(re))
    requires !Has(v, LiteralBytes(t, runes, HasFold(re)), HasFold(re)) && !(HasFold(re) && HasFoldException(v))
    ensures !pf.Verdict(v)
  {
    hide Has, HasFoldException, CompiledPrefilter.Valid;
    var ci := HasFold(re);
    LiteralExtracted(t, re, ci, runes);
    var lits, lit := Extract(t, re, ci).lits, LiteralBytes(t, runes, ci);
    assert lit in FilterShort(lits, 2);
    var k: nat :| k < |Checked(lits)| && Checked(lits)[k] == lit;
  }

  /** Alternatives, not too many or too short to search for: the filter accepts exactly the inputs with one of them. */
  lemma AlternativesAreTested(t: Dialect, re: Regex, ci: bool, pf: CompiledPrefilter, v: Bytes)
    requires re.Alternate? && re.subs != [] && ci == HasFold(re) && Compiles(pf, Extract(t, re, ci), ci)
    requires forall k | 0 <= k < |re.subs| :: re.subs[k].Literal? && RUNE_ERROR !in re.subs[k].runes
    requires |re.subs| <= 256
    requires forall k | 0 <= k < |re.subs| :: |LiteralBytes(t, re.subs[k].runes, ci)| >= 2
    requires ci ==> forall k | 0 <= k < |re.subs| :: IsASCII(LiteralBytes(t, re.subs[k].runes, ci))
    ensures pf.Verdict(v) <==> (exists k | 0 <= k < |re.subs| :: Has(v, LiteralBytes(t, re.subs[k].runes, ci), ci)) ||
                               (ci && HasFoldException(v))
  {
    hide Has, CompiledPrefilter.Valid, LiteralBytes, HasFoldException, HasFold;
    var lits := BranchLiterals(t, re.subs, ci);
    BranchesOfLiterals(t, re.subs, ci);
    assert !Coarse(lits);
    assert HasAny(v, lits, ci) <==> exists k | 0 <= k < |lits| :: Has(v, lits[k], ci);
  }

  lemma {:induction false} BranchesOfLiterals(t: Dialect, subs: seq<Regex>, ci: bool)
    requires forall k | 0 <= k < |subs| :: subs[k].Literal? && RUNE_ERROR !in subs[k].runes
    ensures var lits := BranchLiterals(t, subs, ci);
            |lits| == |subs| && forall k | 0 <= k < |subs| :: lits[k] == LiteralBytes(t, subs[k].runes, ci)
    decreases |subs|
  {
    hide LiteralBytes;
    if subs != [] {
      BranchesOfLiterals(t, subs[1..], ci);
      assert Longest([LiteralBytes(t, subs[0].runes, ci)]) == LiteralBytes(t, subs[0].runes, ci);
      assert forall k | 1 <= k < |subs| :: subs[k] == subs[1..][k - 1];
    }
  }

  // ---------------------------------------------------------------- the minimum length is reached

  /** The computed minimum: of the text analysis, or of the byte analysis. */
  ghost function Least(t: Dialect, re: Regex): nat {
    if t.binary then BinaryPrefilter.MinimumBytes(re) else MinLen(re)
  }

  ghost function SumLeast(t: Dialect, subs: seq<Regex>): nat {
    if subs == [] then 0 else Least(t, subs[0]) + SumLeast(t, subs[1..])
  }

  /** Either engine; every rune folds to itself. */
  ghost predicate Reads(t: Dialect) {
    t.Valid() || (t.binary && forall r: Rune :: t.orbit(r, r))
  }

  ghost predicate ByteRunes(runes: seq<Rune>) {
    forall k | 0 <= k < |runes| :: runes[k] < 256
  }

  /** The rune is read from one byte, whatever stands around it. */
  ghost predicate OneByte(t: Dialect, r: Rune) {
    r < 128 || (t.binary && r < 256)
  }

  /**
   Trees that consume what they match: no assertions, no U+FFFD in text, bytes only in byte literals,
   a one-byte rune in every class, and no sum or product beyond 64 bits.
   */
  ghost predicate Consuming(t: Dialect, re: Regex) {
    match re
    case EmptyMatch(_) => true
    case Literal(_, runes) => if t.binary then ByteRunes(runes) else RUNE_ERROR !in runes
    case CharClass(_, ranges) => exists r: Rune :: OneByte(t, r) && InClass(ranges, r)
    case AnyCharNotNL(_) => true
    case AnyChar(_) => true
    case Capture(_, sub) => Consuming(t, sub)
    case Star(_, sub) => true
    case Plus(_, sub) => Consuming(t, sub)
    case Quest(_, sub) => true
    case Repeat(_, sub, min, max) =>
      Consuming(t, sub) && (max < 0 || min <= max) && (t.binary ==> min * Least(t, sub) <= BinaryPrefilter.MAX_INT)
    case Concat(_, subs) =>
      && (forall k | 0 <= k < |subs| :: Consuming(t, subs[k]))
      && (t.binary ==> SumLeast(t, subs) <= BinaryPrefilter.MAX_INT)
    case Alternate(_, subs) => subs != [] && forall k | 0 <= k < |subs| :: Consuming(t, subs[k])
    case _ => false
  }

  /** `re` matches `w` wherever it stands. */
  ghost predicate MatchesText(t: Dialect, re: Regex, w: Bytes) {
    forall p: Bytes, q: Bytes :: Matches(t, re, p + w + q, |p|, |p| + |w|)
  }

  ghost predicate TimesText(t: Dialect, re: Regex, n: nat, w: Bytes) {
    forall p: Bytes, q: Bytes :: MatchesTimes(t, re, n, p + w + q, |p|, |p| + |w|)
  }

  ghost predicate AllText(t: Dialect, subs: seq<Regex>, w: Bytes) {
    forall p: Bytes, q: Bytes :: MatchesAll(t, subs, p + w + q, |p|, |p| + |w|)
  }

  /** The literal's own spelling. */
  ghost function Spelling(t: Dialect, runes: seq<Rune>): Bytes
    requires t.binary ==> ByteRunes(runes)
  {
    if runes == [] then [] else OneRune(t, runes[0]) + Spelling(t, runes[1..])
  }

  ghost function OneRune(t: Dialect, r: Rune): Bytes
    requires t.binary ==> r < 256
  {
    if t.binary then [r] else Encode(r)
  }

  lemma {:induction false} SpellingText(t: Dialect, runes: seq<Rune>, fold: bool, p: Bytes, q: Bytes)
    requires Reads(t) && (if t.binary then ByteRunes(runes) else RUNE_ERROR !in runes)
    ensures |Spelling(t, runes)| == Least(t, Literal(fold, runes))
    ensures MatchesRunes(t, runes, fold, p + Spelling(t, runes) + q, |p|, |p| + |Spelling(t, runes)|)
    decreases |runes|
  {
    hide Encode, DecodesTo;
    if runes != [] {
      var e, rest := OneRune(t, runes[0]), Spelling(t, runes[1..]);
      SpellingText(t, runes[1..], fold, p + e, q);
      DecodeAnywhere(t, p, runes[0], rest + q);
      assert p + Spelling(t, runes) + q == p + e + (rest + q) == p + e + rest + q;
      assert t.Accepts(runes[0], fold, runes[0]);
    }
  }

  lemma DecodeAnywhere(t: Dialect, p: Bytes, r: Rune, q: Bytes)
    requires Reads(t) && (t.binary ==> r < 256)
    ensures var e := OneRune(t, r); DecodesTo(t, p + e + q, |p|, r, |e|)
  {
    if t.binary {
      assert (p + [r] + q)[|p|] == r;
    } else {
      DecodeAfter(t, p, r, q);
    }
  }

  /** One rune of one byte, where the tree takes any or one of a class. */
  lemma OneByteText(t: Dialect, re: Regex, r: Rune, p: Bytes, q: Bytes)
    requires Reads(t) && OneByte(t, r)
    requires re.AnyChar? || (re.AnyCharNotNL? && r != 10) || (re.CharClass? && InClass(re.ranges, r))
    ensures Matches(t, re, p + [r] + q, |p|, |p| + 1)
  {
    DecodeAnywhere(t, p, r, q);
    assert DecodesTo(t, p + [r] + q, |p|, r, 1);
  }

  /** The bound is the best one: some text of exactly that length matches, wherever it stands. */
  lemma {:induction false} LeastReached(t: Dialect, re: Regex) returns (w: Bytes)
    requires Reads(t) && Consuming(t, re)
    ensures |w| == Least(t, re) && MatchesText(t, re, w)
    decreases re, 0
  {
    hide Dialect.Valid, DecodesTo, Encode;
    w := [];
    match re
    case Literal(fold, runes) =>
      w := Spelling(t, runes);
      forall p: Bytes, q: Bytes ensures Matches(t, re, p + w + q, |p|, |p| + |w|) {
        SpellingText(t, runes, fold, p, q);
      }
      SpellingText(t, runes, fold, [], []);
    case CharClass(_, ranges) =>
      var r: Rune :| OneByte(t, r) && InClass(ranges, r);
      w := [r];
      forall p: Bytes, q: Bytes ensures Matches(t, re, p + w + q, |p|, |p| + |w|) {
        OneByteText(t, re, r, p, q);
      }
    case AnyCharNotNL(_) =>
      w := [97];
      forall p: Bytes, q: Bytes ensures Matches(t, re, p + w + q, |p|, |p| + |w|) {
        OneByteText(t, re, 97, p, q);
      }
    case AnyChar(_) =>
      w := [97];
      forall p: Bytes, q: Bytes ensures Matches(t, re, p + w + q, |p|, |p| + |w|) {
        OneByteText(t, re, 97, p, q);
      }
    case Capture(_, sub) => w := LeastReached(t, sub);
    case Star(_, sub) => NoRounds(t, re);
    case Quest(_, sub) => NoRounds(t, re);
    case Plus(_, sub) =>
      w := RoundsReached(t, sub, 1);
      forall p: Bytes, q: Bytes ensures Matches(t, re, p + w + q, |p|, |p| + |w|) {
        assert MatchesTimes(t, sub, 1, p + w + q, |p|, |p| + |w|);
      }
    case Repeat(_, sub, min, max) =>
      w := RoundsReached(t, sub, min);
      if t.binary && Least(t, sub) > 0 {
        NoProductOverflow(min, Least(t, sub), BinaryPrefilter.MAX_INT);
      }
      forall p: Bytes, q: Bytes ensures Matches(t, re, p + w + q, |p|, |p| + |w|) {
        assert MatchesTimes(t, sub, min, p + w + q, |p|, |p| + |w|);
      }
    case Concat(_, subs) =>
      w := PartsReached(t, subs);
      NoSumOverflow(t, subs, 0);
    case Alternate(_, subs) =>
      var k := ShortestBranch(t, subs);
      w := LeastReached(t, subs[k]);
    case EmptyMatch(_) =>
  }

  lemma NoProductOverflow(a: nat, m: nat, limit: nat)
    requires m > 0 && a * m <= limit
    ensures a <= limit / m
  {
    var q := limit / m;
    assert (q + 1) * m == q * m + m > limit;
    assert a > q ==> a * m >= (q + 1) * m;
  }

  lemma {:induction false} NoSumOverflow(t: Dialect, subs: seq<Regex>, total: nat)
    ensures !t.binary ==> SumLen(subs) == SumLeast(t, subs)
    ensures t.binary && total + SumLeast(t, subs) <= BinaryPrefilter.MAX_INT ==>
              BinaryPrefilter.SumBytes(subs, total) == total + SumLeast(t, subs)
    decreases |subs|
  {
    if subs != [] {
      NoSumOverflow(t, subs[1..], total + Least(t, subs[0]));
    }
  }

  lemma NoRounds(t: Dialect, re: Regex)
    requires re.Star? || re.Quest?
    ensures MatchesText(t, re, [])
  {
    forall p: Bytes, q: Bytes ensures Matches(t, re, p + [] + q, |p|, |p| + 0) {
      assert MatchesTimes(t, re.sub, 0, p + [] + q, |p|, |p|);
    }
  }

  lemma {:induction false} RoundsReached(t: Dialect, re: Regex, n: nat) returns (w: Bytes)
    requires Reads(t) && Consuming(t, re)
    ensures |w| == n * Least(t, re) && TimesText(t, re, n, w)
    decreases re, n + 1
  {
    hide Dialect.Valid, Matches, Consuming, Least;
    w := [];
    if n > 0 {
      var first := LeastReached(t, re);
      var rest := RoundsReached(t, re, n - 1);
      w := first + rest;
      assert n * Least(t, re) == (n - 1) * Least(t, re) + Least(t, re);
      forall p: Bytes, q: Bytes ensures MatchesTimes(t, re, n, p + w + q, |p|, |p| + |w|) {
        Around(p, first, rest, q);
        assert Matches(t, re, p + first + (rest + q), |p|, |p| + |first|);
        assert MatchesTimes(t, re, n - 1, (p + first) + rest + q, |p + first|, |p + first| + |rest|);
      }
    }
  }

  lemma Around(p: Bytes, first: Bytes, rest: Bytes, q: Bytes)
    ensures p + (first + rest) + q == p + first + (rest + q) == (p + first) + rest + q
  {
  }

  lemma {:induction false} PartsReached(t: Dialect, subs: seq<Regex>) returns (w: Bytes)
    requires Reads(t) && forall k | 0 <= k < |subs| :: Consuming(t, subs[k])
    ensures |w| == SumLeast(t, subs) && AllText(t, subs, w)
    decreases subs, 0
  {
    hide Dialect.Valid, Matches, Consuming, Least;
    w := [];
    if subs != [] {
      var first := LeastReached(t, subs[0]);
      var rest := PartsReached(t, subs[1..]);
      w := first + rest;
      forall p: Bytes, q: Bytes ensures MatchesAll(t, subs, p + w + q, |p|, |p| + |w|) {
        Around(p, first, rest, q);
        assert Matches(t, subs[0], p + first + (rest + q), |p|, |p| + |first|);
        assert MatchesAll(t, subs[1..], (p + first) + rest + q, |p + first|, |p + first| + |rest|);
      }
    }
  }

  lemma {:induction false} ShortestBranch(t: Dialect, subs: seq<Regex>) returns (k: nat)
    requires subs != []
    ensures k < |subs| && Least(t, subs[k]) == if t.binary then BinaryPrefilter.LeastBytes(subs) else LeastLen(subs)
    decreases |subs|
  {
    k := 0;
    if |subs| > 1 {
      var j := ShortestBranch(t, subs[1..]);
      if Least(t, subs[0]) >= Least(t, subs[j + 1]) {
        k := j + 1;
      }
    }
  }

  /** So the length test rejects exactly the inputs too short for any match. */
  lemma LeastMatchLength(t: Dialect, re: Regex) returns (w: Bytes)
    requires Reads(t) && (!t.binary ==> Parsed(t, re)) && Consuming(t, re)
    ensures |w| == Least(t, re) && MatchString(t, re, w)
    ensures forall v: Bytes | MatchString(t, re, v) :: |v| >= Least(t, re)
  {
    hide Dialect.Valid, Matches, Consuming;
    w := LeastReached(t, re);
    assert [] + w + [] == w;
    assert Matches(t, re, w, 0, |w|);
    assert Boundary(t, w, 0);
    forall v: Bytes | MatchString(t, re, v) ensures |v| >= Least(t, re) {
      var i: nat, j: nat :| i <= |v| && Matches(t, re, v, i, j);
      if t.binary {
        BinaryPrefilter.MatchBytes(t, re, v, i, j);
      } else {
        MatchLength(t, re, v, i, j);
      }
    }
  }
}
