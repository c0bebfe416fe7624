/**
 The regular expressions the prefilter analyses: the parsed (simplified) syntax tree of Go's
 regexp/syntax, and what it means for a tree to match a stretch of a byte string.
 */
module Regex {
  import opened ByteStrings

  /** A Unicode scalar value. */
  type Rune = r: int | 0 <= r <= 0x10FFFF && !(0xD800 <= r <= 0xDFFF)

  const RUNE_ERROR: Rune := 0xFFFD
  const LONG_S: Rune := 0x17F
  const KELVIN: Rune := 0x212A
  const DOTTED_I: Rune := 0x130

  /** UTF-8. */
  function Encode(r: Rune): (s: Bytes)
    ensures 1 <= |s| <= 4
    ensures r < 128 ==> s == [r]
    ensures r >= 128 ==> |s| >= 2 && forall k | 0 <= k < |s| :: s[k] >= 128
  {
    if r < 0x80 then [r]
    else if r < 0x800 then [0xC0 + r / 64, 0x80 + r % 64]
    else if r < 0x10000 then [0xE0 + r / 4096, 0x80 + r / 64 % 64, 0x80 + r % 64]
    else [0xF0 + r / 262144, 0x80 + r / 4096 % 64, 0x80 + r / 64 % 64, 0x80 + r % 64]
  }

  function EncodeAll(runes: seq<Rune>): Bytes {
    if runes == [] then [] else Encode(runes[0]) + EncodeAll(runes[1..])
  }

  predicate StartsWithRune(v: Bytes, i: nat, r: Rune) {
    var e := Encode(r);
    i + |e| <= |v| && v[i..i + |e|] == e
  }

  /**
   What an expression is interpreted against: whether the engine reads UTF-8 text (regexp) or
   bytes (binaryregexp), simple lower-casing (strings.ToLower), and the folding classes of (?i).
   */
  datatype Dialect = Dialect(binary: bool, lower: Rune -> Rune, orbit: (Rune, Rune) -> bool) {

    /** The UTF-8 engine, and the facts about ASCII that the Unicode tables provide. */
    ghost predicate Valid() {
      && !binary
      && (forall r: Rune | r < 128 :: lower(r) == Lower(r))
      && lower(DOTTED_I) == 105
      && lower(KELVIN) == 107
      && (forall r: Rune | r >= 128 && lower(r) < 128 :: r == DOTTED_I || r == KELVIN)
      && (forall r: Rune :: orbit(r, r))
      && (forall r: Rune, d: Rune :: orbit(r, d) ==> orbit(d, r))
      && (forall r: Rune | r < 128 :: orbit(r, Lower(r)))
      && orbit(107, KELVIN)
      && (forall r: Rune, d: Rune | r < 128 && orbit(r, d) :: AsciiFold(r, d))
      && (forall d: Rune | orbit(KELVIN, d) :: AsciiFold(107, d))
      && (forall d: Rune | orbit(DOTTED_I, d) :: d == DOTTED_I)
      && (forall d: Rune | orbit(RUNE_ERROR, d) :: d == RUNE_ERROR)
    }

    /** The byte engine: a byte other than a letter or a non-ASCII byte folds only to itself. */
    ghost predicate ValidBinary() {
      && binary
      && forall p: Rune, d: Rune | p < 128 && !IsUpper(p) && !IsLower(p) && orbit(p, d) :: d == p
    }

    /** Whether the pattern rune `p` accepts the input rune `d`. */
    predicate Accepts(p: Rune, fold: bool, d: Rune) {
      if fold then orbit(p, d) else p == d
    }
  }

  /**
   Decoding one rune at `i`. In UTF-8 text: a well-formed encoding, or one malformed byte read as
   U+FFFD. In binary text: one byte.
   */
  ghost predicate DecodesTo(t: Dialect, v: Bytes, i: nat, r: Rune, width: nat) {
    if t.binary then i < |v| && r == v[i] && width == 1
    else
      || (StartsWithRune(v, i, r) && width == |Encode(r)|)
      || (r == RUNE_ERROR && width == 1 && i < |v| && forall q: Rune :: !StartsWithRune(v, i, q))
  }

  /** What (?i) makes of an ASCII rune: both cases, long-s for s, the Kelvin sign for k. */
  predicate AsciiFold(r: Rune, d: Rune)
    requires r < 128
  {
    || (d < 128 && Lower(d) == Lower(r))
    || (Lower(r) == 115 && d == LONG_S)
    || (Lower(r) == 107 && d == KELVIN)
  }

  /** Every node carries the FoldCase bit of its flags; only literals interpret it. */
  datatype Regex =
    | NoMatch(fold: bool)
    | EmptyMatch(fold: bool)
    | Literal(fold: bool, runes: seq<Rune>)
    | CharClass(fold: bool, ranges: seq<(Rune, Rune)>)
    | AnyCharNotNL(fold: bool)
    | AnyChar(fold: bool)
    | BeginLine(fold: bool)
    | EndLine(fold: bool)
    | BeginText(fold: bool)
    | EndText(fold: bool)
    | WordBoundary(fold: bool)
    | NoWordBoundary(fold: bool)
    | Capture(fold: bool, sub: Regex)
    | Star(fold: bool, sub: Regex)
    | Plus(fold: bool, sub: Regex)
    | Quest(fold: bool, sub: Regex)
    | Repeat(fold: bool, sub: Regex, min: nat, max: int) // max < 0: unbounded
    | Concat(fold: bool, subs: seq<Regex>)
    | Alternate(fold: bool, subs: seq<Regex>)

  predicate InClass(ranges: seq<(Rune, Rune)>, r: Rune) {
    exists k | 0 <= k < |ranges| :: ranges[k].0 <= r <= ranges[k].1
  }

  predicate IsWord(v: Bytes, i: int) {
    0 <= i < |v| && (48 <= v[i] <= 57 || IsUpper(v[i]) || IsLower(v[i]) || v[i] == 95)
  }

  ghost predicate MatchesRunes(t: Dialect, runes: seq<Rune>, fold: bool, v: Bytes, i: nat, j: nat)
    decreases |runes|
  {
    if runes == [] then i == j
    else exists d: Rune, w: nat ::
           DecodesTo(t, v, i, d, w) && t.Accepts(runes[0], fold, d) &&
           MatchesRunes(t, runes[1..], fold, v, i + w, j)
  }

  /** `re` matches v[i..j] in the context of the whole input `v`. */
  ghost predicate Matches(t: Dialect, re: Regex, v: Bytes, i: nat, j: nat)
    decreases re, 0
  {
    match re
    case NoMatch(_) => false
    case EmptyMatch(_) => i == j
    case Literal(fold, runes) => MatchesRunes(t, runes, fold, v, i, j)
    case CharClass(_, ranges) => exists d: Rune, w: nat :: DecodesTo(t, v, i, d, w) && j == i + w && InClass(ranges, d)
    case AnyCharNotNL(_) => exists d: Rune, w: nat :: DecodesTo(t, v, i, d, w) && j == i + w && d != 10
    case AnyChar(_) => exists d: Rune, w: nat :: DecodesTo(t, v, i, d, w) && j == i + w
    case BeginLine(_) => i == j && (i == 0 || (i <= |v| && v[i - 1] == 10))
    case EndLine(_) => i == j && (i == |v| || (i < |v| && v[i] == 10))
    case BeginText(_) => i == j && i == 0
    case EndText(_) => i == j && i == |v|
    case WordBoundary(_) => i == j && IsWord(v, i - 1) != IsWord(v, i)
    case NoWordBoundary(_) => i == j && IsWord(v, i - 1) == IsWord(v, i)
    case Capture(_, sub) => Matches(t, sub, v, i, j)
    case Star(_, sub) => exists n: nat :: MatchesTimes(t, sub, n, v, i, j)
    case Plus(_, sub) => exists n: nat :: n >= 1 && MatchesTimes(t, sub, n, v, i, j)
    case Quest(_, sub) => exists n: nat :: n <= 1 && MatchesTimes(t, sub, n, v, i, j)
    case Repeat(_, sub, min, max) =>
      exists n: nat :: min <= n && (max < 0 || n <= max) && MatchesTimes(t, sub, n, v, i, j)
    case Concat(_, subs) => MatchesAll(t, subs, v, i, j)
    case Alternate(_, subs) => exists k: nat :: k < |subs| && Matches(t, subs[k], v, i, j)
  }

  ghost predicate MatchesTimes(t: Dialect, re: Regex, n: nat, v: Bytes, i: nat, j: nat)
    decreases re, n + 1
  {
    if n == 0 then i == j
    else exists k: nat :: Matches(t, re, v, i, k) && MatchesTimes(t, re, n - 1, v, k, j)
  }

  ghost predicate MatchesAll(t: Dialect, subs: seq<Regex>, v: Bytes, i: nat, j: nat)
    decreases subs, 0
  {
    if subs == [] then i == j
    else exists k: nat :: Matches(t, subs[0], v, i, k) && MatchesAll(t, subs[1..], v, k, j)
  }

  /** At least one repetition means one whole match of the repeated expression. */
  lemma {:induction false} FirstRepetition(t: Dialect, re: Regex, n: nat, v: Bytes, i: nat, j: nat) returns (k: nat)
    requires n >= 1 && MatchesTimes(t, re, n, v, i, j)
    ensures Matches(t, re, v, i, k)
  {
    k :| Matches(t, re, v, i, k) && MatchesTimes(t, re, n - 1, v, k, j);
  }

  lemma {:induction false} SplitFirst(t: Dialect, subs: seq<Regex>, v: Bytes, i: nat, j: nat) returns (k: nat)
    requires subs != [] && MatchesAll(t, subs, v, i, j)
    ensures Matches(t, subs[0], v, i, k) && MatchesAll(t, subs[1..], v, k, j)
  {
    k :| Matches(t, subs[0], v, i, k) && MatchesAll(t, subs[1..], v, k, j);
  }

  lemma {:induction false} JoinFirst(t: Dialect, subs: seq<Regex>, v: Bytes, i: nat, k: nat, j: nat)
    requires subs != [] && Matches(t, subs[0], v, i, k) && MatchesAll(t, subs[1..], v, k, j)
    ensures MatchesAll(t, subs, v, i, j)
  {
  }

  /** A position that decoding from the start of the input reaches; an engine never looks inside a rune. */
  ghost predicate Boundary(t: Dialect, v: Bytes, i: nat) {
    i == 0 ||
    exists k: nat, d: Rune, w: nat :: k < i && Boundary(t, v, k) && DecodesTo(t, v, k, d, w) && k + w == i
  }

  /** What regexp.MatchString reports: from some boundary on, a stretch of the input matches. */
  ghost predicate MatchString(t: Dialect, re: Regex, v: Bytes) {
    exists i: nat, j: nat :: i <= |v| && Boundary(t, v, i) && Matches(t, re, v, i, j)
  }

  /** The scalar value that a well-formed encoding stands for; its first byte tells its length. */
  function Decoded(s: Bytes): int
    requires s != []
  {
    var a: int := s[0];
    var b: int := if |s| > 1 then s[1] else 0;
    var c: int := if |s| > 2 then s[2] else 0;
    var d: int := if |s| > 3 then s[3] else 0;
    if a < 0x80 then a
    else if a < 0xE0 then (a - 0xC0) * 64 + b - 0x80
    else if a < 0xF0 then (a - 0xE0) * 4096 + (b - 0x80) * 64 + c - 0x80
    else (a - 0xF0) * 262144 + (b - 0x80) * 4096 + (c - 0x80) * 64 + d - 0x80
  }

  lemma SixBitDigits(r: int)
    requires r >= 0
    ensures r == r / 64 * 64 + r % 64
    ensures r == r / 4096 * 4096 + r / 64 % 64 * 64 + r % 64
    ensures r == r / 262144 * 262144 + r / 4096 % 64 * 4096 + r / 64 % 64 * 64 + r % 64
  {
    assert r / 64 / 64 == r / 4096;
    assert r / 4096 / 64 == r / 262144;
  }

  lemma EncodedIsDecoded(r: Rune, rest: Bytes)
    ensures Decoded(Encode(r) + rest) == r
  {
    SixBitDigits(r);
    var e, s := Encode(r), Encode(r) + rest;
    assert forall k | 0 <= k < |e| :: s[k] == e[k];
  }

  /** No encoding begins another, so a text decodes in one way only. */
  lemma PrefixFree(q: Rune, r: Rune)
    requires Encode(q) <= Encode(r)
    ensures q == r
  {
    hide Encode, Decoded;
    EncodedIsDecoded(q, Encode(r)[|Encode(q)|..]);
    EncodedIsDecoded(r, []);
    assert Encode(q) + Encode(r)[|Encode(q)|..] == Encode(r) == Encode(r) + [];
  }

  lemma WholeRune(t: Dialect, r: Rune, d: Rune, w: nat)
    requires !t.binary && DecodesTo(t, Encode(r), 0, d, w)
    ensures w == |Encode(r)|
  {
    hide Encode;
    assert StartsWithRune(Encode(r), 0, r);
    if StartsWithRune(Encode(r), 0, d) {
      PrefixFree(d, r);
    }
  }

  /** The encoding of one rune has no boundary inside. */
  lemma {:induction false} BoundariesOfOneRune(t: Dialect, r: Rune, i: nat)
    requires !t.binary && Boundary(t, Encode(r), i)
    ensures i == 0 || i >= |Encode(r)|
  {
    hide Encode;
    if i > 0 {
      var v := Encode(r);
      var k: nat, d: Rune, w: nat :| k < i && Boundary(t, v, k) && DecodesTo(t, v, k, d, w) && k + w == i;
      BoundariesOfOneRune(t, r, k);
      if k == 0 {
        WholeRune(t, r, d, w);
      }
    }
  }

  /** So a single rune is never matched as two: `..` answers no on the encoding of any rune. */
  lemma OneRuneIsNotTwo(t: Dialect, r: Rune)
    requires !t.binary
    ensures !MatchString(t, Concat(false, [AnyChar(false), AnyChar(false)]), Encode(r))
  {
    hide Encode, Boundary;
    var v, subs := Encode(r), [AnyChar(false), AnyChar(false)];
    forall i: nat, j: nat | i <= |v| && Boundary(t, v, i) ensures !Matches(t, Concat(false, subs), v, i, j) {
      BoundariesOfOneRune(t, r, i);
      if MatchesAll(t, subs, v, i, j) {
        TwoRunesAt(t, r, i, j);
      }
    }
  }

  lemma TwoRunesAt(t: Dialect, r: Rune, i: nat, j: nat)
    requires !t.binary && (i == 0 || i >= |Encode(r)|)
    ensures !MatchesAll(t, [AnyChar(false), AnyChar(false)], Encode(r), i, j)
  {
    hide Encode;
    var v, subs := Encode(r), [AnyChar(false), AnyChar(false)];
    if MatchesAll(t, subs, v, i, j) {
      var k := SplitFirst(t, subs, v, i, j);
      var m := SplitFirst(t, subs[1..], v, k, j);
      var d: Rune, w: nat :| DecodesTo(t, v, i, d, w) && k == i + w;
      var e: Rune, x: nat :| DecodesTo(t, v, k, e, x) && m == k + x;
      if i == 0 {
        WholeRune(t, r, d, w);
      }
    }
  }

  /** FoldCase is set on some node of the tree (hasFlag in rxprefilter.go). */
  predicate HasFold(re: Regex) {
    re.fold ||
    match re
    case Capture(_, sub) => HasFold(sub)
    case Star(_, sub) => HasFold(sub)
    case Plus(_, sub) => HasFold(sub)
    case Quest(_, sub) => HasFold(sub)
    case Repeat(_, sub, _, _) => HasFold(sub)
    case Concat(_, subs) => exists k | 0 <= k < |subs| :: HasFold(subs[k])
    case Alternate(_, subs) => exists k | 0 <= k < |subs| :: HasFold(subs[k])
    case _ => false
  }

  /**
   What the parser guarantees of every tree: literals are non-empty, and a folded literal is
   written with the smallest rune of each folding class.
   */
  ghost predicate Parsed(t: Dialect, re: Regex) {
    match re
    case Literal(fold, runes) =>
      && runes != []
      && (fold ==> forall k | 0 <= k < |runes| :: forall d: Rune | t.orbit(runes[k], d) :: runes[k] <= d)
    case Capture(_, sub) => Parsed(t, sub)
    case Star(_, sub) => Parsed(t, sub)
    case Plus(_, sub) => Parsed(t, sub)
    case Quest(_, sub) => Parsed(t, sub)
    case Repeat(_, sub, _, _) => Parsed(t, sub)
    case Concat(_, subs) => forall k | 0 <= k < |subs| :: Parsed(t, subs[k])
    case Alternate(_, subs) => forall k | 0 <= k < |subs| :: Parsed(t, subs[k])
    case _ => true
  }

  /** No literal of the tree spells U+0130. */
  predicate NoDottedI(re: Regex) {
    match re
    case Literal(_, runes) => DOTTED_I !in runes
    case Capture(_, sub) => NoDottedI(sub)
    case Star(_, sub) => NoDottedI(sub)
    case Plus(_, sub) => NoDottedI(sub)
    case Quest(_, sub) => NoDottedI(sub)
    case Repeat(_, sub, _, _) => NoDottedI(sub)
    case Concat(_, subs) => forall k | 0 <= k < |subs| :: NoDottedI(subs[k])
    case Alternate(_, subs) => forall k | 0 <= k < |subs| :: NoDottedI(subs[k])
    case _ => true
  }
}
