/**
 The @rx operator of internal/operators/rx.go: the minimum-length test, the ^literal$ bypass,
 the prefilter and the accelerated backend, composed. None of them changes the verdict of the
 expression itself.
 */
module RxOperator {
  import opened Options
  import opened ByteStrings
  import opened Regex
  import opened MinLength
  import opened Literals
  import opened RequiredBytes
  import opened Prefilter

  const ACCELERATED_MIN_INPUT_BYTES := 512

  /** An anchored literal: its runes and whether comparison folds case. */
  datatype ExactMatch = ExactMatch(runes: seq<Rune>, fold: bool)

  /** extractExactMatch: the literal of ^literal$, looking through capture groups. */
  function ExtractExactMatch(re: Regex): (r: Option<ExactMatch>)
    ensures r.Some? ==> RUNE_ERROR !in r.value.runes && r.value.runes != []
  {
    if re.Capture? then ExtractExactMatch(re.sub)
    else if re.Concat? && |re.subs| == 3 && re.subs[0].BeginText? && re.subs[2].EndText? &&
            re.subs[1].Literal? && RUNE_ERROR !in re.subs[1].runes && re.subs[1].runes != [] then
      Some(ExactMatch(re.subs[1].runes, re.subs[1].fold))
    else None
  }

  /**
   `wrapped` is `original` compiled behind (?s) or (?sm): the dot accepts newlines, and with (?m)
   the text anchors written ^ and $ become line anchors.
   */
  predicate WrappedForm(original: Regex, wrapped: Regex) {
    match original
    case BeginText(_) => wrapped.BeginText? || wrapped.BeginLine?
    case EndText(_) => wrapped.EndText? || wrapped.EndLine?
    case AnyCharNotNL(_) => wrapped.AnyCharNotNL? || wrapped.AnyChar?
    case Literal(fold, runes) => wrapped == Literal(fold, runes)
    case Capture(_, sub) => wrapped.Capture? && WrappedForm(sub, wrapped.sub)
    case Star(_, sub) => wrapped.Star? && WrappedForm(sub, wrapped.sub)
    case Plus(_, sub) => wrapped.Plus? && WrappedForm(sub, wrapped.sub)
    case Quest(_, sub) => wrapped.Quest? && WrappedForm(sub, wrapped.sub)
    case Repeat(_, sub, min, max) =>
      wrapped.Repeat? && wrapped.min == min && wrapped.max == max && WrappedForm(sub, wrapped.sub)
    case Concat(_, subs) =>
      wrapped.Concat? && |wrapped.subs| == |subs| &&
      forall k | 0 <= k < |subs| :: WrappedForm(subs[k], wrapped.subs[k])
    case Alternate(_, subs) =>
      wrapped.Alternate? && |wrapped.subs| == |subs| &&
      forall k | 0 <= k < |subs| :: WrappedForm(subs[k], wrapped.subs[k])
    case _ => wrapped == original
  }

  /** strings.EqualFold against a literal: the text spells, rune by rune, folds of the literal. */
  ghost predicate Spells(t: Dialect, runes: seq<Rune>, fold: bool, v: Bytes) {
    exists d: seq<Rune> :: v == EncodeAll(d) && AcceptsAll(t, runes, fold, d)
  }

  ghost predicate AcceptsAll(t: Dialect, runes: seq<Rune>, fold: bool, d: seq<Rune>) {
    |d| == |runes| && forall k | 0 <= k < |runes| :: t.Accepts(runes[k], fold, d[k])
  }

  /** A literal match from `i` to the end spells the rest of the text, and conversely. */
  lemma {:induction false} MatchSpells(t: Dialect, runes: seq<Rune>, fold: bool, v: Bytes, i: nat)
    requires t.Valid() && RUNE_ERROR !in runes && i <= |v|
    ensures MatchesRunes(t, runes, fold, v, i, |v|) ==> Spells(t, runes, fold, v[i..])
    decreases |runes|
  {
    hide Dialect.Valid, DecodesTo, StartsWithRune, Encode;
    if MatchesRunes(t, runes, fold, v, i, |v|) {
      if runes == [] {
        assert v[i..] == EncodeAll([]) && AcceptsAll(t, runes, fold, []);
      } else {
        var d: Rune, w: nat :| DecodesTo(t, v, i, d, w) && t.Accepts(runes[0], fold, d) &&
                               MatchesRunes(t, runes[1..], fold, v, i + w, |v|);
        NotMalformed(t, runes[0], fold, v, i, d, w);
        MatchSpells(t, runes[1..], fold, v, i + w);
        var rest :| v[i + w..] == EncodeAll(rest) && AcceptsAll(t, runes[1..], fold, rest);
        PrependSpelling(t, runes, fold, v, i, d, rest);
      }
    }
  }

  lemma NotMalformed(t: Dialect, p: Rune, fold: bool, v: Bytes, i: nat, d: Rune, w: nat)
    requires t.Valid() && p != RUNE_ERROR
    requires DecodesTo(t, v, i, d, w) && t.Accepts(p, fold, d)
    ensures StartsWithRune(v, i, d) && w == |Encode(d)| && i + w <= |v|
  {
    assert t.orbit(p, d) ==> t.orbit(d, p);
  }

  lemma PrependSpelling(t: Dialect, runes: seq<Rune>, fold: bool, v: Bytes, i: nat, d: Rune, rest: seq<Rune>)
    requires runes != [] && StartsWithRune(v, i, d) && t.Accepts(runes[0], fold, d)
    requires v[i + |Encode(d)|..] == EncodeAll(rest) && AcceptsAll(t, runes[1..], fold, rest)
    ensures Spells(t, runes, fold, v[i..])
  {
    var all := [d] + rest;
    assert all[1..] == rest;
    assert v[i..] == v[i..i + |Encode(d)|] + v[i + |Encode(d)|..];
    assert AcceptsAll(t, runes, fold, all) by {
      assert forall k | 1 <= k < |runes| :: runes[1..][k - 1] == runes[k] && all[k] == rest[k - 1];
    }
  }

  lemma {:induction false} SpellingMatches(
    t: Dialect, runes: seq<Rune>, fold: bool, d: seq<Rune>, prefix: Bytes)
    requires t.Valid() && AcceptsAll(t, runes, fold, d)
    ensures var v := prefix + EncodeAll(d); MatchesRunes(t, runes, fold, v, |prefix|, |v|)
    decreases |runes|
  {
    hide DecodesTo, Encode, Dialect.Valid;
    if runes != [] {
      var rest := EncodeAll(d[1..]);
      assert prefix + EncodeAll(d) == prefix + Encode(d[0]) + rest;
      DecodeAfter(t, prefix, d[0], rest);
      assert AcceptsAll(t, runes[1..], fold, d[1..]);
      SpellingMatches(t, runes[1..], fold, d[1..], prefix + Encode(d[0]));
    }
  }

  /** A concatenation of three parts, taken apart. */
  lemma SplitThree(t: Dialect, subs: seq<Regex>, v: Bytes, i: nat, j: nat) returns (k: nat, m: nat)
    requires |subs| == 3 && MatchesAll(t, subs, v, i, j)
    ensures Matches(t, subs[0], v, i, k) && Matches(t, subs[1], v, k, m) && Matches(t, subs[2], v, m, j)
  {
    k := SplitFirst(t, subs, v, i, j);
    m := SplitFirst(t, subs[1..], v, k, j);
    var e := SplitFirst(t, subs[1..][1..], v, m, j);
    assert subs[1..][1..][1..] == [] && MatchesAll(t, [], v, e, j);
  }

  /** The same, put together. */
  lemma JoinThree(t: Dialect, subs: seq<Regex>, v: Bytes, i: nat, k: nat, m: nat, j: nat)
    requires |subs| == 3
    requires Matches(t, subs[0], v, i, k) && Matches(t, subs[1], v, k, m) && Matches(t, subs[2], v, m, j)
    ensures MatchesAll(t, subs, v, i, j)
  {
    assert subs[1..][1..][1..] == [] && MatchesAll(t, [], v, j, j);
    JoinFirst(t, subs[1..][1..], v, m, j, j);
    JoinFirst(t, subs[1..], v, k, m, j);
    JoinFirst(t, subs, v, i, k, j);
  }

  /** Without newlines, an anchored literal matches exactly the texts it spells. */
  lemma AnchoredLiteral(t: Dialect, re: Regex, v: Bytes)
    requires t.Valid() && re.Concat? && |re.subs| == 3
    requires re.subs[0].BeginText? || re.subs[0].BeginLine?
    requires re.subs[2].EndText? || re.subs[2].EndLine?
    requires re.subs[1].Literal? && RUNE_ERROR !in re.subs[1].runes
    requires 10 !in v
    ensures MatchString(t, re, v) <==> Spells(t, re.subs[1].runes, re.subs[1].fold, v)
  {
    hide Dialect.Valid, MatchesRunes, Spells, MatchesAll;
    var lit := re.subs[1];
    assert v[0..] == v;
    if MatchString(t, re, v) {
      var i: nat, j: nat :| i <= |v| && Boundary(t, v, i) && Matches(t, re, v, i, j);
      var k, m := SplitThree(t, re.subs, v, i, j);
      MatchSpells(t, lit.runes, lit.fold, v, 0);
    }
    if Spells(t, lit.runes, lit.fold, v) {
      SpelledIsMatched(t, lit, v);
      assert Matches(t, re.subs[0], v, 0, 0) && Matches(t, re.subs[2], v, |v|, |v|);
      JoinThree(t, re.subs, v, 0, 0, |v|, |v|);
      assert Matches(t, re, v, 0, |v|);
    }
  }

  lemma SpelledIsMatched(t: Dialect, lit: Regex, v: Bytes)
    requires t.Valid() && lit.Literal? && Spells(t, lit.runes, lit.fold, v)
    ensures Matches(t, lit, v, 0, |v|)
  {
    var d :| v == EncodeAll(d) && AcceptsAll(t, lit.runes, lit.fold, d);
    SpellingMatches(t, lit.runes, lit.fold, d, []);
    assert [] + v == v;
  }

  /** The bypass is the expression: on inputs without a newline both give the same verdict. */
  lemma {:induction false} ExactMatchAgrees(t: Dialect, original: Regex, wrapped: Regex, v: Bytes)
    requires t.Valid() && WrappedForm(original, wrapped)
    requires ExtractExactMatch(original).Some? && 10 !in v
    ensures var exact := ExtractExactMatch(original).value;
            MatchString(t, wrapped, v) <==> Spells(t, exact.runes, exact.fold, v)
  {
    if original.Capture? {
      ExactMatchAgrees(t, original.sub, wrapped.sub, v);
      CaptureIsTransparent(t, wrapped, v);
    } else {
      assert WrappedForm(original.subs[1], wrapped.subs[1]);
      AnchoredLiteral(t, wrapped, v);
    }
  }

  lemma CaptureIsTransparent(t: Dialect, re: Regex, v: Bytes)
    requires re.Capture?
    ensures MatchString(t, re, v) <==> MatchString(t, re.sub, v)
  {
    if i: nat, j: nat :| i <= |v| && Boundary(t, v, i) && Matches(t, re.sub, v, i, j) {
      assert Matches(t, re, v, i, j);
    }
    if i: nat, j: nat :| i <= |v| && Boundary(t, v, i) && Matches(t, re, v, i, j) {
      assert Matches(t, re.sub, v, i, j);
    }
  }

  lemma {:induction false} ExactSpelling(t: Dialect, runes: seq<Rune>, v: Bytes)
    ensures Spells(t, runes, false, v) <==> v == EncodeAll(runes)
  {
    if v == EncodeAll(runes) {
      assert AcceptsAll(t, runes, false, runes);
    }
    if Spells(t, runes, false, v) {
      var d :| v == EncodeAll(d) && AcceptsAll(t, runes, false, d);
      assert d == runes;
    }
  }

  /** What the standard library and the optional accelerated engine answer. */
  datatype Engines = Engines(
    matchString: Bytes -> bool,
    accelerated: Option<Bytes -> bool>,
    equalFold: (Bytes, seq<Rune>) -> bool)
  {
    /** Go's engine decides MatchString; the accelerated one agrees with it on ASCII inputs. */
    ghost predicate Agree(t: Dialect, re: Regex) {
      && (forall v: Bytes :: matchString(v) <==> MatchString(t, re, v))
      && (accelerated.Some? ==> forall v: Bytes | IsASCII(v) :: accelerated.value(v) == matchString(v))
      && (forall v: Bytes, runes: seq<Rune> | RUNE_ERROR !in runes :: equalFold(v, runes) <==> Spells(t, runes, true, v))
    }
  }

  datatype Rx = Rx(
    engines: Engines,
    minLen: nat,
    prefilter: CompiledPrefilter,
    exactMatch: Option<ExactMatch>)
  {
    /** `this` was compiled, with prefiltering on, from an expression whose wrapped tree is `re`. */
    ghost predicate CompiledFrom(t: Dialect, original: Regex, re: Regex) {
      && t.Valid()
      && Parsed(t, re)
      && (ExtractExactMatch(original).Some? ==> WrappedForm(original, re))
      && engines.Agree(t, re)
      && minLen == MinLen(re)
      && prefilter.Valid()
      && Compiles(prefilter, Extract(t, re, HasFold(re)), HasFold(re))
      && exactMatch == ExtractExactMatch(original)
    }

    /**
     Evaluate never answers yes where the bare expression answers no; and it answers the same, on
     every input and with any cache contents, unless a case-insensitive literal spells U+0130.
     */
    method Evaluate(
      ring: PresenceRing?, capturing: bool, value: Str, ghost t: Dialect, ghost original: Regex, ghost re: Regex)
      returns (matched: bool)
      requires CompiledFrom(t, original, re)
      requires ring != null ==> ring.Valid() && ring.Live(value)
      modifies ring
      ensures matched ==> MatchString(t, re, value.data)
      ensures (HasFold(re) && prefilter.Filter? ==> NoDottedI(re)) ==> (matched <==> MatchString(t, re, value.data))
      ensures ring != null ==> ring.Valid()
    {
      hide Dialect.Valid, Compiles, CompiledPrefilter.Valid, CompiledPrefilter.Verdict, MatchString, Spells;
      if |value.data| < minLen {
        TooShortToMatch(t, re, value.data);
        return false;
      }
      if exactMatch.Some? && !capturing && 10 !in value.data {
        ExactMatchAgrees(t, original, re, value.data);
        ExactSpelling(t, exactMatch.value.runes, value.data);
        if exactMatch.value.fold {
          return engines.equalFold(value.data, exactMatch.value.runes);
        }
        return value.data == EncodeAll(exactMatch.value.runes);
      }
      var maybe := prefilter.MatchWithState(ring, value);
      if !maybe {
        if MatchString(t, re, value.data) && (HasFold(re) && prefilter.Filter? ==> NoDottedI(re)) {
          PrefilterSound(t, re, prefilter, value.data);
        }
        return false;
      }
      if engines.accelerated.Some? && |value.data| >= ACCELERATED_MIN_INPUT_BYTES && IsASCII(value.data) {
        return engines.accelerated.value(value.data);
      }
      return engines.matchString(value.data);
    }
  }

  /** An input below the computed minimum cannot match. */
  lemma TooShortToMatch(t: Dialect, re: Regex, v: Bytes)
    requires t.Valid() && Parsed(t, re)
    ensures MatchString(t, re, v) ==> |v| >= MinLen(re)
  {
    if MatchString(t, re, v) {
      var i: nat, j: nat :| i <= |v| && Boundary(t, v, i) && Matches(t, re, v, i, j);
      MatchLength(t, re, v, i, j);
    }
  }

  method NewRX(t: Dialect, original: Regex, re: Regex, engines: Engines) returns (rx: Rx)
    requires t.Valid() && Parsed(t, re) && (ExtractExactMatch(original).Some? ==> WrappedForm(original, re))
    requires engines.Agree(t, re)
    ensures rx.CompiledFrom(t, original, re)
  {
    var prefilter := CompilePrefilter(t, re);
    rx := Rx(engines, MinLen(re), prefilter, ExtractExactMatch(original));
  }
}
