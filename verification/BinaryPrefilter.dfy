/**
 The prefilter for byte expressions, internal/operators/rxprefilter_binary.go: a disjunction of
 clauses, each a set of bytes that must all occur. Clauses are capped at 64, bytes per clause at 8.
 */
module BinaryPrefilter {
  import opened Options
  import opened ByteStrings
  import opened Regex
  import opened RequiredBytes

  const MAX_CLAUSES := 64
  const MAX_BYTES_PER_CLAUSE := 8
  const MAX_INT := 0x7FFF_FFFF_FFFF_FFFF

  datatype Clause = Clause(bits: Bitmap, bytes: Bytes) {
    /** The map and the byte string list the same, at most eight, bytes. */
    ghost predicate Valid() {
      && |bytes| <= MAX_BYTES_PER_CLAUSE
      && forall b: byte :: TestBit(bits, b) <==> b in bytes
    }

    predicate Met(v: Bytes) {
      forall k | 0 <= k < |bytes| :: bytes[k] in v
    }
  }

  /** Some clause has all its bytes in `v`. */
  predicate Satisfied(clauses: seq<Clause>, v: Bytes) {
    exists k | 0 <= k < |clauses| :: clauses[k].Met(v)
  }

  ghost predicate WellFormed(clauses: seq<Clause>) {
    && |clauses| <= MAX_CLAUSES
    && forall k | 0 <= k < |clauses| :: clauses[k].Valid()
  }

  /** `re` matches some stretch of `v`. */
  ghost predicate Somewhere(t: Dialect, re: Regex, v: Bytes) {
    exists i: nat, j: nat :: Matches(t, re, v, i, j)
  }

  /** Whatever `re` matches satisfies the clauses. */
  ghost predicate Necessary(t: Dialect, re: Regex, clauses: seq<Clause>) {
    forall v: Bytes | Somewhere(t, re, v) :: Satisfied(clauses, v)
  }

  // ---------------------------------------------------------------- byte selection

  /** `a` is chosen before `b`: rarer, or as rare and smaller. */
  predicate Before(a: byte, b: byte) {
    Rarity(a) > Rarity(b) || (Rarity(a) == Rarity(b) && a < b)
  }

  /** The first occurrence of the byte to choose next among those not yet selected, or -1. */
  method NextByte(values: Bytes, selected: Bytes) returns (best: int)
    ensures -1 <= best < |values|
    ensures best < 0 ==> forall v | v in values :: v in selected
    ensures best >= 0 ==> values[best] !in selected
    ensures best >= 0 ==> forall v | v in values && v !in selected :: v == values[best] || Before(values[best], v)
  {
    best := -1;
    for index := 0 to |values|
      invariant -1 <= best < index
      invariant best < 0 ==> forall k | 0 <= k < index :: values[k] in selected
      invariant best >= 0 ==> values[best] !in selected
      invariant best >= 0 ==> forall k | 0 <= k < index && values[k] !in selected ::
                  values[k] == values[best] || Before(values[best], values[k])
    {
      var value := values[index];
      if value in selected {
        continue;
      }
      if best < 0 || Before(value, values[best]) {
        best := index;
      }
    }
  }

  /** `selected` are the up to eight bytes of `values` that come first. */
  ghost predicate Selection(selected: Bytes, values: set<byte>) {
    && |selected| <= MAX_BYTES_PER_CLAUSE
    && (forall v | v in selected :: v in values)
    && (forall i, j | 0 <= i < j < |selected| :: Before(selected[i], selected[j]))
    && (forall s, v | s in selected && v in values && v !in selected :: Before(s, v))
    && (|selected| < MAX_BYTES_PER_CLAUSE ==> forall v | v in values :: v in selected)
  }

  ghost function Elements(s: Bytes): set<byte> {
    set b | b in s
  }

  lemma ElementsConcat(a: Bytes, b: Bytes)
    ensures Elements(a + b) == Elements(a) + Elements(b)
  {
  }

  /** A selection lists distinct bytes, so it is as long as its set is large. */
  lemma {:induction false} SelectionDistinct(selected: Bytes)
    requires forall i, j | 0 <= i < j < |selected| :: Before(selected[i], selected[j])
    ensures |Elements(selected)| == |selected|
  {
    if selected != [] {
      var n := |selected| - 1;
      var init, last := selected[..n], selected[n];
      SelectionDistinct(init);
      assert selected == init + [last];
      ElementsConcat(init, [last]);
      assert Elements([last]) == {last};
      forall i | 0 <= i < n ensures init[i] != last {
        assert Before(selected[i], selected[n]);
      }
      assert last !in Elements(init);
    }
  }

  /** A full selection inside another is that other. */
  lemma FullSelections(a: Bytes, b: Bytes)
    requires (forall i, j | 0 <= i < j < |a| :: Before(a[i], a[j])) && (forall i, j | 0 <= i < j < |b| :: Before(b[i], b[j]))
    requires |a| == MAX_BYTES_PER_CLAUSE >= |b| && Elements(a) <= Elements(b)
    ensures |b| == MAX_BYTES_PER_CLAUSE && Elements(b) == Elements(a)
  {
    SelectionDistinct(a);
    SelectionDistinct(b);
    SubsetSize(Elements(a), Elements(b));
  }

  lemma SubsetSize(a: set<byte>, b: set<byte>)
    requires a <= b
    ensures |a| <= |b| && (|a| == |b| ==> a == b)
  {
    assert b == a + (b - a);
  }

  /** Choosing from two selections is choosing from everything they were chosen from. */
  lemma SelectionOfSelections(left: Bytes, ls: set<byte>, right: Bytes, rs: set<byte>, merged: Bytes)
    requires Selection(left, ls) && Selection(right, rs) && Selection(merged, Elements(left) + Elements(right))
    ensures Selection(merged, ls + rs)
  {
    hide Before;
    forall v | v in ls + rs && v !in merged
      ensures |merged| == MAX_BYTES_PER_CLAUSE && forall s | s in merged :: Before(s, v)
    {
      if v in ls {
        LeftOut(left, ls, right, merged, v);
      } else {
        assert Elements(left) + Elements(right) == Elements(right) + Elements(left);
        LeftOut(right, rs, left, merged, v);
      }
    }
  }

  lemma LeftOut(left: Bytes, ls: set<byte>, right: Bytes, merged: Bytes, v: byte)
    requires Selection(left, ls) && Selection(merged, Elements(left) + Elements(right))
    requires v in ls && v !in merged
    ensures |merged| == MAX_BYTES_PER_CLAUSE && forall s | s in merged :: Before(s, v)
  {
    hide Before;
    if v in left {
      assert v in Elements(left) + Elements(right);
    } else if x :| x in left && x !in merged {
      assert x in Elements(left) + Elements(right) && Before(x, v);
      forall s | s in merged ensures Before(s, v) {
        BeforeTransitive(s, x, v);
      }
    } else {
      FullSelections(left, merged);
      assert forall s | s in merged :: s in Elements(merged);
    }
  }

  lemma BeforeTransitive(a: byte, b: byte, c: byte)
    ensures Before(a, b) && Before(b, c) ==> Before(a, c)
  {
  }

  /** The up to eight rarest distinct bytes of `values`, rarest first. */
  method SelectBytes(values: Bytes) returns (selected: Bytes)
    ensures |selected| <= MAX_BYTES_PER_CLAUSE
    ensures forall v | v in selected :: v in values
    ensures forall i, j | 0 <= i < j < |selected| :: Before(selected[i], selected[j])
    ensures forall s, v | s in selected && v in values && v !in selected :: Before(s, v)
    ensures |selected| < MAX_BYTES_PER_CLAUSE ==> forall v | v in values :: v in selected
    ensures Selection(selected, Elements(values)) && (values != [] ==> selected != [])
  {
    selected := [];
    while |selected| < MAX_BYTES_PER_CLAUSE
      invariant |selected| <= MAX_BYTES_PER_CLAUSE
      invariant forall v | v in selected :: v in values
      invariant forall i, j | 0 <= i < j < |selected| :: Before(selected[i], selected[j])
      invariant forall s, v | s in selected && v in values && v !in selected :: Before(s, v)
    {
      var best := NextByte(values, selected);
      if best < 0 {
        assert values != [] ==> values[0] in selected;
        break;
      }
      selected := selected + [values[best]];
    }
  }

  method NewClause(values: Bytes) returns (clause: Clause)
    requires |values| <= MAX_BYTES_PER_CLAUSE
    ensures clause.Valid() && clause.bytes == values
  {
    var bits := BytePresence(values);
    clause := Clause(bits, values);
  }

  // ---------------------------------------------------------------- combining constraints

  lemma SameBitsSameVerdict(a: Clause, b: Clause, v: Bytes)
    requires a.Valid() && b.Valid() && a.bits == b.bits
    ensures a.Met(v) <==> b.Met(v)
  {
    assert forall k | 0 <= k < |a.bytes| :: a.bytes[k] in b.bytes;
    assert forall k | 0 <= k < |b.bytes| :: b.bytes[k] in a.bytes;
  }

  /** Drops clauses whose byte set already appeared; the verdict on every input stays the same. */
  method Deduplicate(clauses: seq<Clause>) returns (result: seq<Clause>)
    requires forall k | 0 <= k < |clauses| :: clauses[k].Valid()
    ensures |result| <= |clauses| && (clauses != [] ==> result != [])
    ensures |clauses| == 1 ==> result == clauses
    ensures forall k | 0 <= k < |result| :: result[k].Valid()
    ensures forall v: Bytes :: Satisfied(result, v) <==> Satisfied(clauses, v)
    ensures forall i, j | 0 <= i < j < |result| :: result[i].bits != result[j].bits
  {
    var seen: set<Bitmap> := {};
    result := [];
    for index := 0 to |clauses|
      invariant |result| <= index && (index > 0 ==> result != []) && (index == 1 ==> result == [clauses[0]])
      invariant forall k | 0 <= k < |result| :: result[k] in clauses && result[k].bits in seen
      invariant forall k | 0 <= k < index :: clauses[k].bits in seen
      invariant forall b | b in seen :: BitsOf(result, b)
      invariant forall i, j | 0 <= i < j < |result| :: result[i].bits != result[j].bits
    {
      var clause := clauses[index];
      if clause.bits in seen {
        assert BitsOf(result, clause.bits);
        continue;
      }
      seen := seen + {clause.bits};
      ghost var before := result;
      result := result + [clause];
      forall b | b in seen ensures BitsOf(result, b) {
        BitsOfGrows(before, clause, b);
      }
    }
    forall v: Bytes ensures Satisfied(result, v) <==> Satisfied(clauses, v) {
      DeduplicatedVerdict(clauses, result, v);
    }
  }

  /** Some clause of `clauses` has the byte set `bits`. */
  ghost predicate BitsOf(clauses: seq<Clause>, bits: Bitmap) {
    exists j | 0 <= j < |clauses| :: clauses[j].bits == bits
  }

  lemma BitsOfGrows(clauses: seq<Clause>, clause: Clause, bits: Bitmap)
    requires bits == clause.bits || BitsOf(clauses, bits)
    ensures BitsOf(clauses + [clause], bits)
  {
    var longer := clauses + [clause];
    if bits == clause.bits {
      assert longer[|clauses|] == clause;
    } else {
      var j :| 0 <= j < |clauses| && clauses[j].bits == bits;
      assert longer[j] == clauses[j];
    }
  }

  lemma DeduplicatedVerdict(clauses: seq<Clause>, result: seq<Clause>, v: Bytes)
    requires forall k | 0 <= k < |clauses| :: clauses[k].Valid()
    requires forall k | 0 <= k < |result| :: result[k] in clauses
    requires forall k | 0 <= k < |clauses| :: BitsOf(result, clauses[k].bits)
    ensures Satisfied(result, v) <==> Satisfied(clauses, v)
  {
    if k :| 0 <= k < |clauses| && clauses[k].Met(v) {
      var j :| 0 <= j < |result| && result[j].bits == clauses[k].bits;
      SameBitsSameVerdict(clauses[k], result[j], v);
    }
    if j :| 0 <= j < |result| && result[j].Met(v) {
      var k :| 0 <= k < |clauses| && clauses[k] == result[j];
    }
  }

  /** One clause of the product: the selected bytes of both. */
  method MergeClauses(left: Clause, right: Clause) returns (merged: Clause)
    ensures merged.Valid()
    ensures Selection(merged.bytes, Elements(left.bytes) + Elements(right.bytes))
    ensures forall v: Bytes | left.Met(v) && right.Met(v) :: merged.Met(v)
  {
    var values := SelectBytes(left.bytes + right.bytes);
    merged := NewClause(values);
    ElementsConcat(left.bytes, right.bytes);
    forall v: Bytes | left.Met(v) && right.Met(v) ensures merged.Met(v) {
      forall k | 0 <= k < |values| ensures values[k] in v {
        assert values[k] in values && values[k] in left.bytes + right.bytes;
      }
    }
  }

  /** Conjunction of two disjunctions; over the cap, the smaller one alone. */
  method Combine(left: seq<Clause>, right: seq<Clause>) returns (combined: seq<Clause>)
    requires WellFormed(left) && WellFormed(right) && left != [] && right != []
    ensures WellFormed(combined) && combined != []
    ensures forall v: Bytes | Satisfied(left, v) && Satisfied(right, v) :: Satisfied(combined, v)
    ensures |left| == |right| == 1 ==>
              |combined| == 1 && Selection(combined[0].bytes, Elements(left[0].bytes) + Elements(right[0].bytes))
  {
    hide Selection;
    if |left| * |right| > MAX_CLAUSES {
      return if |right| < |left| then right else left;
    }
    combined := [];
    for i := 0 to |left|
      invariant |combined| == i * |right|
      invariant forall k | 0 <= k < |combined| :: combined[k].Valid()
      invariant forall v: Bytes | Satisfied(left[..i], v) && Satisfied(right, v) :: Satisfied(combined, v)
      invariant i == |left| == |right| == 1 ==>
                  Selection(combined[0].bytes, Elements(left[0].bytes) + Elements(right[0].bytes))
    {
      ghost var before := combined;
      for j := 0 to |right|
        invariant |combined| == i * |right| + j
        invariant before <= combined
        invariant forall k | 0 <= k < |combined| :: combined[k].Valid()
        invariant forall v: Bytes | left[i].Met(v) && Satisfied(right[..j], v) :: Satisfied(combined, v)
        invariant j == |left| == |right| == 1 ==>
                    Selection(combined[0].bytes, Elements(left[0].bytes) + Elements(right[0].bytes))
      {
        var merged := MergeClauses(left[i], right[j]);
        ghost var shorter := combined;
        combined := combined + [merged];
        forall v: Bytes | left[i].Met(v) && Satisfied(right[..j + 1], v) ensures Satisfied(combined, v) {
          SatisfiedLast(right, j, v);
          SatisfiedGrows(shorter, combined, v);
          assert combined[|shorter|] == merged;
        }
      }
      assert right[..|right|] == right;
      forall v: Bytes | Satisfied(left[..i + 1], v) && Satisfied(right, v) ensures Satisfied(combined, v) {
        SatisfiedLast(left, i, v);
        SatisfiedGrows(before, combined, v);
      }
    }
    assert left[..|left|] == left;
    ghost var product := combined;
    ProductSize(|left|, |right|);
    combined := Deduplicate(combined);
    assert forall v: Bytes :: Satisfied(combined, v) <==> Satisfied(product, v);
  }

  lemma ProductSize(a: nat, b: nat)
    requires a > 0 && b > 0
    ensures a * b > 0
  {
  }

  lemma SatisfiedLast(clauses: seq<Clause>, i: nat, v: Bytes)
    requires i < |clauses| && Satisfied(clauses[..i + 1], v)
    ensures clauses[i].Met(v) || Satisfied(clauses[..i], v)
  {
    var k :| 0 <= k < i + 1 && clauses[..i + 1][k].Met(v);
    if k < i {
      assert clauses[..i][k] == clauses[k];
    }
  }

  lemma SatisfiedGrows(shorter: seq<Clause>, longer: seq<Clause>, v: Bytes)
    requires shorter <= longer
    ensures Satisfied(shorter, v) ==> Satisfied(longer, v)
  {
    if k :| 0 <= k < |shorter| && shorter[k].Met(v) {
      assert longer[k] == shorter[k];
    }
  }

  // ---------------------------------------------------------------- extraction

  /** The bytes of a literal that every match must contain verbatim; none if a rune is no byte. */
  ghost function LiteralSet(re: Regex): set<byte>
    requires re.Literal?
  {
    if exists i | 0 <= i < |re.runes| :: re.runes[i] > 255 then {}
    else set b: byte | b in re.runes && (re.fold ==> b < 128 && !IsUpper(b) && !IsLower(b))
  }

  /** The bytes of the literals that every match passes through. */
  ghost function Mandatory(re: Regex): set<byte>
    decreases re, 0
  {
    match re
    case Literal(_, _) => LiteralSet(re)
    case Capture(_, sub) => Mandatory(sub)
    case Plus(_, sub) => Mandatory(sub)
    case Repeat(_, sub, min, _) => if min == 0 then {} else Mandatory(sub)
    case Concat(_, subs) => AllMandatory(subs)
    case _ => {}
  }

  ghost function AllMandatory(subs: seq<Regex>): set<byte>
    decreases subs, 0
  {
    if subs == [] then {} else AllMandatory(subs[..|subs| - 1]) + Mandatory(subs[|subs| - 1])
  }

  lemma AllMandatoryStep(subs: seq<Regex>, index: nat)
    requires index < |subs|
    ensures var before, one, all := AllMandatory(subs[..index]), Mandatory(subs[index]), AllMandatory(subs[..index + 1]);
            && all == before + one && (all == {} <==> before == {} && one == {})
            && (before == {} ==> all == one) && (one == {} ==> all == before)
  {
    assert subs[..index + 1][..index] == subs[..index];
    assert forall b | b in AllMandatory(subs[..index]) || b in Mandatory(subs[index]) :: b in AllMandatory(subs[..index + 1]);
  }

  /** No alternation where a match is certain to pass. */
  ghost predicate SinglePath(re: Regex) {
    match re
    case Alternate(_, _) => false
    case Capture(_, sub) => SinglePath(sub)
    case Plus(_, sub) => SinglePath(sub)
    case Repeat(_, sub, min, _) => min == 0 || SinglePath(sub)
    case Concat(_, subs) => forall k | 0 <= k < |subs| :: SinglePath(subs[k])
    case _ => true
  }

  /** There is something to filter by exactly if some byte is mandatory, and then it is the first eight of those. */
  ghost predicate Exact(clauses: seq<Clause>, useful: bool, values: set<byte>) {
    && (useful <==> values != {})
    && (useful ==> |clauses| == 1 && Selection(clauses[0].bytes, values))
  }

  /** The clauses demand the first eight mandatory bytes of some branch. */
  ghost predicate ExactBranches(clauses: seq<Clause>, subs: seq<Regex>) {
    exists branches: seq<Clause> ::
      && |branches| == |subs|
      && (forall k | 0 <= k < |subs| :: Selection(branches[k].bytes, Mandatory(subs[k])))
      && (forall v: Bytes :: Satisfied(clauses, v) <==> Satisfied(branches, v))
  }

  ghost predicate PlainBranches(subs: seq<Regex>) {
    0 < |subs| <= MAX_CLAUSES && forall k | 0 <= k < |subs| :: SinglePath(subs[k]) && Mandatory(subs[k]) != {}
  }

  method LiteralBytes(re: Regex) returns (values: Bytes, useful: bool)
    requires re.Literal?
    ensures useful <==> LiteralSet(re) != {}
    ensures useful ==> Elements(values) == LiteralSet(re)
  {
    values := [];
    for index := 0 to |re.runes|
      invariant forall b | b in values :: b in re.runes
      invariant re.fold ==> forall b | b in values :: b < 128 && !IsUpper(b) && !IsLower(b)
      invariant forall i | 0 <= i < index :: re.runes[i] <= 255
      invariant forall i | 0 <= i < index && (re.fold ==> re.runes[i] < 128 && !IsUpper(re.runes[i]) && !IsLower(re.runes[i])) ::
                  re.runes[i] in values
    {
      var value := re.runes[index];
      if value > 255 {
        return [], false;
      }
      if re.fold && (IsUpper(value) || IsLower(value) || value >= 128) {
        continue;
      }
      if value !in values {
        values := values + [value];
      }
    }
    useful := values != [];
    assert Elements(values) == LiteralSet(re);
    assert values != [] ==> values[0] in Elements(values);
  }

  method LiteralConstraint(t: Dialect, re: Regex) returns (clauses: seq<Clause>, useful: bool)
    requires t.ValidBinary() && re.Literal?
    ensures useful ==> WellFormed(clauses) && clauses != [] && Necessary(t, re, clauses)
    ensures Exact(clauses, useful, LiteralSet(re))
  {
    var values, any := LiteralBytes(re);
    if !any {
      return [], false;
    }
    var selected := SelectBytes(values);
    var clause := NewClause(selected);
    clauses := [clause];
    useful := true;
    forall v: Bytes | Somewhere(t, re, v) ensures Satisfied(clauses, v) {
      var i: nat, j: nat :| Matches(t, re, v, i, j);
      forall k | 0 <= k < |selected| ensures selected[k] in v {
        assert selected[k] in values && selected[k] in Elements(values);
        LiteralByteOccurs(t, re.runes, re.fold, v, i, j, selected[k]);
      }
      assert clauses[0].Met(v);
    }
  }

  lemma {:induction false} LiteralByteOccurs(
    t: Dialect, runes: seq<Rune>, fold: bool, v: Bytes, i: nat, j: nat, b: byte)
    requires t.ValidBinary() && MatchesRunes(t, runes, fold, v, i, j)
    requires b in runes && (fold ==> b < 128 && !IsUpper(b) && !IsLower(b))
    ensures b in v
    decreases |runes|
  {
    var d: Rune, w: nat :| DecodesTo(t, v, i, d, w) && t.Accepts(runes[0], fold, d) &&
                           MatchesRunes(t, runes[1..], fold, v, i + w, j);
    if runes[0] == b {
      assert v[i] == b;
    } else {
      LiteralByteOccurs(t, runes[1..], fold, v, i + w, j, b);
    }
  }

  /** Every part of a matching concatenation matches somewhere. */
  lemma {:induction false} PartSomewhere(t: Dialect, subs: seq<Regex>, v: Bytes, i: nat, j: nat, k: nat)
    requires MatchesAll(t, subs, v, i, j) && k < |subs|
    ensures Somewhere(t, subs[k], v)
    decreases |subs|
  {
    var m := SplitFirst(t, subs, v, i, j);
    if k > 0 {
      PartSomewhere(t, subs[1..], v, m, j, k - 1);
    }
  }

  /** A repetition with at least one round contains a match of the repeated expression. */
  lemma {:induction false} RoundSomewhere(t: Dialect, re: Regex, v: Bytes, i: nat, j: nat)
    requires re.Plus? || (re.Repeat? && re.min > 0)
    requires Matches(t, re, v, i, j)
    ensures Somewhere(t, re.sub, v)
  {
    match re
    case Plus(_, sub) =>
      var n: nat :| n >= 1 && MatchesTimes(t, sub, n, v, i, j);
      var k := FirstRepetition(t, sub, n, v, i, j);
    case Repeat(_, sub, min, max) =>
      var n: nat :| min <= n && (max < 0 || n <= max) && MatchesTimes(t, sub, n, v, i, j);
      var k := FirstRepetition(t, sub, n, v, i, j);
  }

  lemma RepeatedSomewhere(t: Dialect, re: Regex, v: Bytes)
    requires re.Plus? || (re.Repeat? && re.min > 0)
    requires Somewhere(t, re, v)
    ensures Somewhere(t, re.sub, v)
  {
    var i: nat, j: nat :| Matches(t, re, v, i, j);
    RoundSomewhere(t, re, v, i, j);
  }

  /** Soundness of extraction is its contract: every input the expression matches satisfies the clauses. */
  method Extract(t: Dialect, re: Regex) returns (clauses: seq<Clause>, useful: bool)
    requires t.ValidBinary()
    ensures useful ==> WellFormed(clauses) && clauses != [] && Necessary(t, re, clauses)
    ensures SinglePath(re) ==> Exact(clauses, useful, Mandatory(re))
    ensures re.Alternate? && PlainBranches(re.subs) ==> useful && ExactBranches(clauses, re.subs)
    decreases re, 0
  {
    hide Selection, ExactBranches, PlainBranches;
    match re
    case Literal(_, _) =>
      clauses, useful := LiteralConstraint(t, re);
    case Capture(_, sub) =>
      clauses, useful := Extract(t, sub);
      forall v: Bytes | Somewhere(t, re, v) ensures Somewhere(t, sub, v) {
        var i: nat, j: nat :| Matches(t, re, v, i, j);
        assert Matches(t, sub, v, i, j);
      }
    case Plus(_, sub) =>
      clauses, useful := Extract(t, sub);
      forall v: Bytes | Somewhere(t, re, v) ensures Somewhere(t, sub, v) {
        RepeatedSomewhere(t, re, v);
      }
    case Repeat(_, sub, min, _) =>
      if min == 0 {
        return [], false;
      }
      clauses, useful := Extract(t, sub);
      forall v: Bytes | Somewhere(t, re, v) ensures Somewhere(t, sub, v) {
        RepeatedSomewhere(t, re, v);
      }
    case Concat(_, subs) =>
      clauses, useful := ExtractConcat(t, subs);
      forall v: Bytes | Somewhere(t, re, v) ensures forall k | 0 <= k < |subs| :: Somewhere(t, subs[k], v) {
        var i: nat, j: nat :| Matches(t, re, v, i, j);
        forall k | 0 <= k < |subs| ensures Somewhere(t, subs[k], v) {
          PartSomewhere(t, subs, v, i, j, k);
        }
      }
    case Alternate(_, subs) =>
      clauses, useful := ExtractAlternate(t, subs);
      forall v: Bytes | Somewhere(t, re, v) ensures exists k | 0 <= k < |subs| :: Somewhere(t, subs[k], v) {
        var i: nat, j: nat :| Matches(t, re, v, i, j);
        var k: nat :| k < |subs| && Matches(t, subs[k], v, i, j);
        assert Somewhere(t, subs[k], v);
      }
    case _ =>
      return [], false;
  }

  method ExtractConcat(t: Dialect, subs: seq<Regex>) returns (combined: seq<Clause>, useful: bool)
    requires t.ValidBinary()
    ensures useful ==> WellFormed(combined) && combined != []
    ensures useful ==> forall v: Bytes | (forall k | 0 <= k < |subs| :: Somewhere(t, subs[k], v)) :: Satisfied(combined, v)
    ensures (forall k | 0 <= k < |subs| :: SinglePath(subs[k])) ==> Exact(combined, useful, AllMandatory(subs))
    decreases subs, 0
  {
    hide Selection;
    combined := [];
    for index := 0 to |subs|
      invariant combined != [] ==> WellFormed(combined)
      invariant combined != [] ==>
                  forall v: Bytes | (forall k | 0 <= k < index :: Somewhere(t, subs[k], v)) :: Satisfied(combined, v)
      invariant (forall k | 0 <= k < |subs| :: SinglePath(subs[k])) ==>
                  Exact(combined, combined != [], AllMandatory(subs[..index]))
    {
      AllMandatoryStep(subs, index);
      var child, childUseful := Extract(t, subs[index]);
      if !childUseful {
        continue;
      }
      if combined == [] {
        combined := child;
        continue;
      }
      ghost var before := combined;
      combined := Combine(combined, child);
      if forall k | 0 <= k < |subs| :: SinglePath(subs[k]) {
        SelectionOfSelections(before[0].bytes, AllMandatory(subs[..index]),
                              child[0].bytes, Mandatory(subs[index]), combined[0].bytes);
      }
    }
    assert subs[..|subs|] == subs;
    useful := combined != [];
  }

  method ExtractAlternate(t: Dialect, subs: seq<Regex>) returns (clauses: seq<Clause>, useful: bool)
    requires t.ValidBinary()
    ensures useful ==> WellFormed(clauses) && clauses != []
    ensures useful ==> forall v: Bytes | (exists k | 0 <= k < |subs| :: Somewhere(t, subs[k], v)) :: Satisfied(clauses, v)
    ensures PlainBranches(subs) ==> useful && ExactBranches(clauses, subs)
    decreases subs, 0
  {
    hide Selection;
    var alternatives: seq<Clause> := [];
    for index := 0 to |subs|
      invariant WellFormed(alternatives)
      invariant forall k | 0 <= k < index :: Necessary(t, subs[k], alternatives)
      invariant PlainBranches(subs) ==>
                  |alternatives| == index && forall k | 0 <= k < index :: Selection(alternatives[k].bytes, Mandatory(subs[k]))
    {
      if subs[index].NoMatch? {
        NoMatchAnywhere(t, subs[index]);
        continue;
      }
      var child, childUseful := Extract(t, subs[index]);
      if !childUseful || |alternatives| + |child| > MAX_CLAUSES {
        return [], false;
      }
      ghost var before := alternatives;
      alternatives := alternatives + child;
      forall v: Bytes ensures Satisfied(before, v) || Satisfied(child, v) ==> Satisfied(alternatives, v) {
        SatisfiedGrows(before, alternatives, v);
        if k :| 0 <= k < |child| && child[k].Met(v) {
          assert alternatives[|before| + k] == child[k];
        }
      }
      forall k | 0 <= k < index ensures Necessary(t, subs[k], alternatives) {
        assert Necessary(t, subs[k], before);
      }
    }
    clauses := Deduplicate(alternatives);
    useful := alternatives != [];
    assert PlainBranches(subs) ==> ExactBranches(clauses, subs);
  }

  lemma NoMatchAnywhere(t: Dialect, re: Regex)
    requires re.NoMatch?
    ensures forall v: Bytes :: !Somewhere(t, re, v)
  {
  }

  // ---------------------------------------------------------------- minimum length

  /** binaryMinimumMatchBytes on 64-bit integers; a sum or product that would overflow counts as zero. */
  function MinimumBytes(re: Regex): nat
    decreases re, 0
  {
    match re
    case Literal(_, runes) => |runes|
    case AnyCharNotNL(_) => 1
    case AnyChar(_) => 1
    case CharClass(_, _) => 1
    case Capture(_, sub) => MinimumBytes(sub)
    case Plus(_, sub) => MinimumBytes(sub)
    case Concat(_, subs) => SumBytes(subs, 0)
    case Alternate(_, subs) => if subs == [] then 0 else LeastBytes(subs)
    case Repeat(_, sub, min, _) =>
      if min == 0 then 0
      else
        var m := MinimumBytes(sub);
        if m != 0 && min > MAX_INT / m then 0 else min * m
    case _ => 0
  }

  /** The sum over the remaining parts, added to the `total` of the earlier ones. */
  function SumBytes(subs: seq<Regex>, total: nat): nat
    decreases subs, 0
  {
    if subs == [] then total
    else
      var minimum := MinimumBytes(subs[0]);
      if minimum > MAX_INT - total then 0 else SumBytes(subs[1..], total + minimum)
  }

  function LeastBytes(subs: seq<Regex>): (m: nat)
    requires subs != []
    ensures forall k | 0 <= k < |subs| :: m <= MinimumBytes(subs[k])
    decreases subs, 0
  {
    if |subs| == 1 then MinimumBytes(subs[0])
    else
      var rest := LeastBytes(subs[1..]);
      assert forall k | 1 <= k < |subs| :: subs[1..][k - 1] == subs[k];
      if MinimumBytes(subs[0]) < rest then MinimumBytes(subs[0]) else rest
  }

  lemma {:induction false} RunesWidth(t: Dialect, runes: seq<Rune>, fold: bool, v: Bytes, i: nat, j: nat)
    requires t.binary && i <= |v| && MatchesRunes(t, runes, fold, v, i, j)
    ensures j == i + |runes| <= |v|
    decreases |runes|
  {
    if runes != [] {
      var d: Rune, w: nat :| DecodesTo(t, v, i, d, w) && t.Accepts(runes[0], fold, d) &&
                             MatchesRunes(t, runes[1..], fold, v, i + w, j);
      RunesWidth(t, runes[1..], fold, v, i + w, j);
    }
  }

  /** A match lies inside the input and is at least MinimumBytes long. */
  lemma {:induction false} MatchBytes(t: Dialect, re: Regex, v: Bytes, i: nat, j: nat)
    requires t.binary && i <= |v| && Matches(t, re, v, i, j)
    ensures i + MinimumBytes(re) <= j <= |v|
    decreases re, 0
  {
    match re
    case Literal(fold, runes) => RunesWidth(t, runes, fold, v, i, j);
    case Capture(_, sub) => MatchBytes(t, sub, v, i, j);
    case Star(_, sub) =>
      var n: nat :| MatchesTimes(t, sub, n, v, i, j);
      TimesBytes(t, sub, n, v, i, j);
    case Plus(_, sub) =>
      var n: nat :| n >= 1 && MatchesTimes(t, sub, n, v, i, j);
      TimesBytes(t, sub, n, v, i, j);
    case Quest(_, sub) =>
      var n: nat :| n <= 1 && MatchesTimes(t, sub, n, v, i, j);
      TimesBytes(t, sub, n, v, i, j);
    case Repeat(_, sub, min, max) =>
      var n: nat :| min <= n && (max < 0 || n <= max) && MatchesTimes(t, sub, n, v, i, j);
      TimesBytes(t, sub, n, v, i, j);
      RepeatBytes(min, n, MinimumBytes(sub));
    case Concat(_, subs) => AllBytes(t, subs, 0, v, i, j);
    case Alternate(_, subs) =>
      var k: nat :| k < |subs| && Matches(t, subs[k], v, i, j);
      MatchBytes(t, subs[k], v, i, j);
    case _ =>
  }

  lemma RepeatBytes(min: nat, n: nat, m: nat)
    requires min <= n
    ensures min * m <= n * m
  {
  }

  lemma {:induction false} TimesBytes(t: Dialect, re: Regex, n: nat, v: Bytes, i: nat, j: nat)
    requires t.binary && i <= |v| && MatchesTimes(t, re, n, v, i, j)
    ensures i + n * MinimumBytes(re) <= j <= |v|
    ensures n >= 1 ==> i + MinimumBytes(re) <= j
    decreases re, n + 1
  {
    if n > 0 {
      var k: nat :| Matches(t, re, v, i, k) && MatchesTimes(t, re, n - 1, v, k, j);
      MatchBytes(t, re, v, i, k);
      TimesBytes(t, re, n - 1, v, k, j);
      assert n * MinimumBytes(re) == (n - 1) * MinimumBytes(re) + MinimumBytes(re);
    }
  }

  lemma {:induction false} AllBytes(t: Dialect, subs: seq<Regex>, total: nat, v: Bytes, i: nat, j: nat)
    requires t.binary && i <= |v| && MatchesAll(t, subs, v, i, j)
    ensures SumBytes(subs, total) <= total + (j - i)
    ensures i <= j <= |v|
    decreases subs, 0
  {
    if subs != [] {
      var k := SplitFirst(t, subs, v, i, j);
      MatchBytes(t, subs[0], v, i, k);
      AllBytes(t, subs[1..], total + MinimumBytes(subs[0]), v, k, j);
    }
  }

  // ---------------------------------------------------------------- the filter

  datatype BinaryFilter = BinaryFilter(minimumBytes: nat, clauses: seq<Clause>) {
    ghost predicate Valid(t: Dialect, re: Regex) {
      && minimumBytes == MinimumBytes(re)
      && clauses != []
      && WellFormed(clauses)
      && Necessary(t, re, clauses)
    }

    /** The reference verdict: long enough, and some clause fully present. */
    ghost predicate Verdict(v: Bytes) {
      |v| >= minimumBytes && Satisfied(clauses, v)
    }

    /** Whatever the expression matches passes the filter. */
    lemma NeverRejectsAMatch(t: Dialect, re: Regex, v: Bytes)
      requires t.ValidBinary() && Valid(t, re) && MatchString(t, re, v)
      ensures Verdict(v)
    {
      var i: nat, j: nat :| i <= |v| && Matches(t, re, v, i, j);
      MatchBytes(t, re, v, i, j);
      assert Somewhere(t, re, v);
    }

    method PossibleDirect(v: Bytes) returns (possible: bool)
      ensures possible <==> Satisfied(clauses, v)
    {
      for k := 0 to |clauses|
        invariant forall j | 0 <= j < k :: !clauses[j].Met(v)
      {
        var all := true;
        for index := 0 to |clauses[k].bytes|
          invariant all <==> forall j | 0 <= j < index :: clauses[k].bytes[j] in v
        {
          if IndexByte(v, clauses[k].bytes[index]) < 0 {
            all := false;
            break;
          }
        }
        if all {
          return true;
        }
      }
      return false;
    }

    /** The same verdict, read off a faithful presence map. */
    method PossibleFromPresence(present: Bitmap, ghost v: Bytes) returns (possible: bool)
      requires WellFormed(clauses) && Faithful(present, v)
      ensures possible <==> Satisfied(clauses, v)
    {
      for k := 0 to |clauses|
        invariant forall j | 0 <= j < k :: !clauses[j].Met(v)
      {
        var covered := CoveredBy(clauses[k].bits, present);
        assert clauses[k].Valid();
        if covered {
          return true;
        }
      }
      return false;
    }

    /** With any valid cache contents the verdict is the direct one. */
    method Possible(ring: PresenceRing?, value: Str) returns (possible: bool)
      requires WellFormed(clauses)
      requires ring != null ==> ring.Valid() && ring.Live(value)
      modifies ring
      ensures possible <==> Verdict(value.data)
      ensures ring != null ==> ring.Valid()
      ensures ring != null && !possible && |value.data| >= minimumBytes && |value.data| >= CACHED_MIN_INPUT_BYTES ==>
                ring.Holds(value)
    {
      if |value.data| < minimumBytes {
        return false;
      }
      if ring != null && |value.data| >= CACHED_MIN_INPUT_BYTES {
        var present, found := ring.Load(value);
        if found {
          possible := PossibleFromPresence(present, value.data);
          return;
        }
      }
      possible := PossibleDirect(value.data);
      if possible {
        return;
      }
      if ring != null && |value.data| >= CACHED_MIN_INPUT_BYTES {
        var present := BytePresence(value.data);
        ghost var slot := ring.next;
        ring.Store(value, present);
        assert ring.entries[slot].value == value;
      }
    }
  }

  /** Word by word, present & required == required. */
  method CoveredBy(required: Bitmap, present: Bitmap) returns (covered: bool)
    ensures covered <==> forall b: byte :: TestBit(required, b) ==> TestBit(present, b)
  {
    for index := 0 to 4
      invariant forall b: byte | b / 64 < index :: TestBit(required, b) ==> TestBit(present, b)
    {
      if !WordCovers(present[index], required[index]) {
        ghost var k :| 0 <= k < 64 && required[index][k] && !present[index][k];
        BitAt(index, k);
        ghost var b: byte := index * 64 + k;
        assert TestBit(required, b) && !TestBit(present, b);
        return false;
      }
      forall b: byte | b / 64 == index ensures TestBit(required, b) ==> TestBit(present, b) {
        assert required[index][b % 64] ==> present[index][b % 64];
      }
    }
    return true;
  }

  method Compile(t: Dialect, re: Regex) returns (filter: Option<BinaryFilter>)
    requires t.ValidBinary()
    ensures filter.Some? ==> filter.value.Valid(t, re)
    ensures SinglePath(re) ==> Exact(if filter.Some? then filter.value.clauses else [], filter.Some?, Mandatory(re))
    ensures re.Alternate? && PlainBranches(re.subs) ==> filter.Some? && ExactBranches(filter.value.clauses, re.subs)
  {
    hide Selection, ExactBranches, PlainBranches;
    var clauses, useful := Extract(t, re);
    if !useful {
      return None;
    }
    return Some(BinaryFilter(MinimumBytes(re), clauses));
  }

  /** With up to eight mandatory bytes a single path is filtered by all of them: an input that lacks one is rejected. */
  lemma MandatoryBytesAreTested(filter: BinaryFilter, values: set<byte>, v: Bytes)
    requires Exact(filter.clauses, true, values)
    ensures |values| <= MAX_BYTES_PER_CLAUSE ==>
              (filter.Verdict(v) <==> |v| >= filter.minimumBytes && forall b | b in values :: b in v)
    ensures filter.Verdict(v) ==> exists b | b in values :: b in v
  {
    var clause := filter.clauses[0];
    assert Satisfied(filter.clauses, v) <==> clause.Met(v);
    assert clause.Met(v) <==> forall b | b in clause.bytes :: b in v;
    var b :| b in values;
    assert b in clause.bytes || |clause.bytes| == MAX_BYTES_PER_CLAUSE;
    assert clause.bytes[0] in clause.bytes;
    if |values| <= MAX_BYTES_PER_CLAUSE {
      AllSelected(clause.bytes, values);
    }
  }

  lemma AllSelected(selected: Bytes, values: set<byte>)
    requires Selection(selected, values) && |values| <= MAX_BYTES_PER_CLAUSE
    ensures Elements(selected) == values
  {
    SelectionDistinct(selected);
    SubsetSize(Elements(selected), values);
    if |selected| < MAX_BYTES_PER_CLAUSE {
      assert forall b | b in values :: b in Elements(selected);
    }
  }

  /** The operator for expressions over arbitrary bytes; `matchString` is the byte-wise engine. */
  datatype BinaryRX = BinaryRX(matchString: Bytes -> bool, prefilter: Option<BinaryFilter>) {
    ghost predicate CompiledFrom(t: Dialect, re: Regex) {
      && t.ValidBinary()
      && (forall v: Bytes :: matchString(v) <==> MatchString(t, re, v))
      && (prefilter.Some? ==> prefilter.value.Valid(t, re))
    }

    /** Prefiltered or not, Evaluate answers what the bare expression answers. */
    method Evaluate(ring: PresenceRing?, value: Str, ghost t: Dialect, ghost re: Regex) returns (matched: bool)
      requires CompiledFrom(t, re)
      requires ring != null ==> ring.Valid() && ring.Live(value)
      modifies ring
      ensures matched <==> MatchString(t, re, value.data)
      ensures ring != null ==> ring.Valid()
    {
      hide MatchString, Dialect.ValidBinary, Necessary, BinaryFilter.Verdict;
      if prefilter.Some? {
        var possible := prefilter.value.Possible(ring, value);
        if !possible {
          ghost var v := value.data;
          if MatchString(t, re, v) {
            prefilter.value.NeverRejectsAMatch(t, re, v);
          }
          return false;
        }
      }
      matched := matchString(value.data);
    }
  }
}
