/**
 The minimum-match-length analysis of internal/operators/rxprefilter.go: a lower bound, in
 bytes, on every stretch of input the expression can match.
 */
module MinLength {
  import opened ByteStrings
  import opened Regex

  /** U+FFFD also matches one malformed byte, so it counts as one. */
  function RunesLength(runes: seq<Rune>): nat {
    if runes == [] then 0
    else (if runes[0] == RUNE_ERROR then 1 else |Encode(runes[0])|) + RunesLength(runes[1..])
  }

  function MinLen(re: Regex): nat
    decreases re, 0
  {
    match re
    case Literal(_, runes) => RunesLength(runes)
    case AnyCharNotNL(_) => 1
    case AnyChar(_) => 1
    case CharClass(_, _) => 1
    case Capture(_, sub) => MinLen(sub)
    case Concat(_, subs) => SumLen(subs)
    case Alternate(_, subs) => if subs == [] then 0 else LeastLen(subs)
    case Plus(_, sub) => MinLen(sub)
    case Repeat(_, sub, min, _) => if min == 0 then 0 else min * MinLen(sub)
    case _ => 0
  }

  function SumLen(subs: seq<Regex>): nat
    decreases subs, 0
  {
    if subs == [] then 0 else MinLen(subs[0]) + SumLen(subs[1..])
  }

  function LeastLen(subs: seq<Regex>): (m: nat)
    requires subs != []
    ensures forall k | 0 <= k < |subs| :: m <= MinLen(subs[k])
    decreases subs, 0
  {
    if |subs| == 1 then MinLen(subs[0])
    else
      var rest := LeastLen(subs[1..]);
      assert forall k | 1 <= k < |subs| :: subs[1..][k - 1] == subs[k];
      if MinLen(subs[0]) < rest then MinLen(subs[0]) else rest
  }

  lemma DecodeBounds(t: Dialect, v: Bytes, i: nat, d: Rune, w: nat)
    requires DecodesTo(t, v, i, d, w)
    ensures 1 <= w && i + w <= |v|
    ensures t.Valid() ==> w == |Encode(d)| || (d == RUNE_ERROR && w == 1)
  {
  }

  lemma EncodeMonotone(a: Rune, b: Rune)
    requires a <= b
    ensures |Encode(a)| <= |Encode(b)|
  {
  }

  lemma {:induction false} RunesMatchLength(
    t: Dialect, runes: seq<Rune>, fold: bool, v: Bytes, i: nat, j: nat)
    requires t.Valid() && i <= |v| && MatchesRunes(t, runes, fold, v, i, j)
    requires fold ==> forall k | 0 <= k < |runes| :: forall d: Rune | t.orbit(runes[k], d) :: runes[k] <= d
    ensures i + RunesLength(runes) <= j <= |v|
    decreases |runes|
  {
    hide DecodesTo;
    if runes != [] {
      var d: Rune, w: nat :| DecodesTo(t, v, i, d, w) && t.Accepts(runes[0], fold, d) &&
                             MatchesRunes(t, runes[1..], fold, v, i + w, j);
      DecodeBounds(t, v, i, d, w);
      if runes[0] <= d {
        EncodeMonotone(runes[0], d);
      }
      RunesMatchLength(t, runes[1..], fold, v, i + w, j);
    }
  }

  /** A match lies inside the input and is at least MinLen bytes long. */
  lemma {:induction false} MatchLength(t: Dialect, re: Regex, v: Bytes, i: nat, j: nat)
    requires t.Valid() && Parsed(t, re) && i <= |v| && Matches(t, re, v, i, j)
    ensures i + MinLen(re) <= j <= |v|
    decreases re, 0
  {
    hide Dialect.Valid, DecodesTo;
    match re
    case Literal(fold, runes) => RunesMatchLength(t, runes, fold, v, i, j);
    case CharClass(_, ranges) =>
      var d: Rune, w: nat :| DecodesTo(t, v, i, d, w) && j == i + w && InClass(ranges, d);
      DecodeBounds(t, v, i, d, w);
    case AnyCharNotNL(_) =>
      var d: Rune, w: nat :| DecodesTo(t, v, i, d, w) && j == i + w && d != 10;
      DecodeBounds(t, v, i, d, w);
    case AnyChar(_) =>
      var d: Rune, w: nat :| DecodesTo(t, v, i, d, w) && j == i + w;
      DecodeBounds(t, v, i, d, w);
    case Capture(_, sub) => MatchLength(t, sub, v, i, j);
    case Star(_, sub) =>
      var n: nat :| MatchesTimes(t, sub, n, v, i, j);
      TimesLength(t, sub, n, v, i, j);
    case Plus(_, sub) =>
      var n: nat :| n >= 1 && MatchesTimes(t, sub, n, v, i, j);
      TimesLength(t, sub, n, v, i, j);
    case Quest(_, sub) =>
      var n: nat :| n <= 1 && MatchesTimes(t, sub, n, v, i, j);
      TimesLength(t, sub, n, v, i, j);
    case Repeat(_, sub, min, max) =>
      var n: nat :| min <= n && (max < 0 || n <= max) && MatchesTimes(t, sub, n, v, i, j);
      TimesLength(t, sub, n, v, i, j);
      ProductMonotone(min, n, MinLen(sub));
    case Concat(_, subs) => AllLength(t, subs, v, i, j);
    case Alternate(_, subs) =>
      var k: nat :| k < |subs| && Matches(t, subs[k], v, i, j);
      MatchLength(t, subs[k], v, i, j);
    case _ =>
  }

  lemma ProductMonotone(a: nat, b: nat, m: nat)
    requires a <= b
    ensures a * m <= b * m
    ensures b >= 1 ==> m <= b * m
  {
  }

  lemma {:induction false} TimesLength(t: Dialect, re: Regex, n: nat, v: Bytes, i: nat, j: nat)
    requires t.Valid() && Parsed(t, re) && i <= |v| && MatchesTimes(t, re, n, v, i, j)
    ensures i + n * MinLen(re) <= j <= |v|
    ensures n >= 1 ==> i + MinLen(re) <= j
    decreases re, n + 1
  {
    hide Dialect.Valid;
    if n > 0 {
      var k: nat :| Matches(t, re, v, i, k) && MatchesTimes(t, re, n - 1, v, k, j);
      MatchLength(t, re, v, i, k);
      TimesLength(t, re, n - 1, v, k, j);
      assert n * MinLen(re) == (n - 1) * MinLen(re) + MinLen(re);
    }
  }

  lemma {:induction false} AllLength(t: Dialect, subs: seq<Regex>, v: Bytes, i: nat, j: nat)
    requires t.Valid() && (forall k | 0 <= k < |subs| :: Parsed(t, subs[k]))
    requires i <= |v| && MatchesAll(t, subs, v, i, j)
    ensures i + SumLen(subs) <= j <= |v|
    decreases subs, 0
  {
    hide Dialect.Valid;
    if subs != [] {
      var k: nat :| Matches(t, subs[0], v, i, k) && MatchesAll(t, subs[1..], v, k, j);
      MatchLength(t, subs[0], v, i, k);
      AllLength(t, subs[1..], v, k, j);
    }
  }
}
