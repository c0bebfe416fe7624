/**
 The hand-written Base64 decoder of internal/transformations/base64decode.go (its main loop), and
 the round trip with the encodings of RFC 4648, section 4 (base64) and section 5 (base64url).
 */
module Base64Decode {
  import opened ByteStrings

  type Sextet = x: int | 0 <= x < 64

  const INVALID := 127
  const PAD: byte := 61

  /** base64DecMap, extended with 127 for bytes outside ASCII. */
  function DecMap(c: byte): (r: nat)
    ensures r < 64 || r == 64 || r == INVALID
    ensures r == 64 <==> c == PAD
  {
    if 65 <= c <= 90 then c - 65
    else if 97 <= c <= 122 then c - 71
    else if 48 <= c <= 57 then c + 4
    else if c == 43 then 62
    else if c == 47 then 63
    else if c == PAD then 64
    else INVALID
  }

  /** unicode.IsSpace on a single byte. */
  predicate IsSpace(c: byte) {
    9 <= c <= 13 || c == 32 || c == 0x85 || c == 0xA0
  }

  /** The forgiving decoder reads '-' as '+' and '_' as '/'. */
  function Canonical(c: byte, ext: bool): byte {
    if ext && c == 45 then 43 else if ext && c == 95 then 47 else c
  }

  datatype Reading = Skip | Stop | Accept(value: Sextet)

  /** What the decoder makes of one byte. */
  function Read(c: byte, ext: bool): Reading {
    if ext && (IsSpace(c) || c == 46) then Skip
    else if c == 13 || c == 10 then Skip
    else if c == PAD || c == 32 then Stop
    else
      var v := DecMap(Canonical(c, ext));
      if v == INVALID then if ext then Skip else Stop
      else Accept(v)
  }

  /** The six-bit values the decoder takes from `src`, up to where it stops. */
  function Accepted(src: Bytes, ext: bool): seq<Sextet> {
    if src == [] then []
    else
      match Read(src[0], ext)
      case Skip => Accepted(src[1..], ext)
      case Stop => []
      case Accept(v) => [v] + Accepted(src[1..], ext)
  }

  function First(a: int, b: int): byte
    requires 0 <= a < 64 && 0 <= b < 64
  {
    a * 4 + b / 16
  }

  function Second(b: int, c: int): byte
    requires 0 <= b < 64 && 0 <= c < 64
  {
    b % 16 * 16 + c / 4
  }

  function Third(c: int, d: int): byte
    requires 0 <= c < 64 && 0 <= d < 64
  {
    c % 4 * 64 + d
  }

  /** RFC 4648 decoding of six-bit values; an incomplete final group yields its whole bytes. */
  function Unpack(s: seq<Sextet>): Bytes {
    if |s| >= 4 then [First(s[0], s[1]), Second(s[1], s[2]), Third(s[2], s[3])] + Unpack(s[4..])
    else if |s| == 3 then [First(s[0], s[1]), Second(s[1], s[2])]
    else if |s| == 2 then [First(s[0], s[1])]
    else []
  }

  /** RFC 4648 encoding into six-bit values, three bytes at a time. */
  function Pack(x: Bytes): seq<Sextet> {
    if |x| >= 3 then
      [x[0] / 4, x[0] % 4 * 16 + x[1] / 16, x[1] % 16 * 4 + x[2] / 64, x[2] % 64] + Pack(x[3..])
    else if |x| == 2 then [x[0] / 4, x[0] % 4 * 16 + x[1] / 16, x[1] % 16 * 4]
    else if |x| == 1 then [x[0] / 4, x[0] % 4 * 16]
    else []
  }

  /** Three bytes survive being cut into four six-bit values. */
  lemma Triple(a: int, b: int, c: int)
    requires 0 <= a < 256 && 0 <= b < 256 && 0 <= c < 256
    ensures First(a / 4, a % 4 * 16 + b / 16) == a
    ensures Second(a % 4 * 16 + b / 16, b % 16 * 4 + c / 64) == b
    ensures Third(b % 16 * 4 + c / 64, c % 64) == c
  {
    assert (a % 4 * 16 + b / 16) / 16 == a % 4;
    assert (b % 16 * 4 + c / 64) / 4 == b % 16;
    assert (b % 16 * 4 + c / 64) % 4 == c / 64;
  }

  lemma {:induction false} UnpackPack(x: Bytes)
    ensures Unpack(Pack(x)) == x
  {
    hide First, Second, Third;
    if |x| >= 3 {
      Triple(x[0], x[1], x[2]);
      UnpackPack(x[3..]);
      assert Pack(x)[4..] == Pack(x[3..]);
      assert x == x[..3] + x[3..];
    } else if |x| == 2 {
      Triple(x[0], x[1], 0);
    } else if |x| == 1 {
      Triple(x[0], 0, 0);
    }
  }

  lemma {:induction false} UnpackConcat(a: seq<Sextet>, b: seq<Sextet>)
    requires |a| % 4 == 0
    ensures Unpack(a + b) == Unpack(a) + Unpack(b)
  {
    if a == [] {
      assert a + b == b;
    } else {
      UnpackConcat(a[4..], b);
      assert (a + b)[4..] == a[4..] + b;
    }
  }

  // ---------------------------------------------------------------- the decoder

  /** The value of the pending six-bit values, as the accumulator holds them. */
  function Pending(s: seq<Sextet>): nat {
    if s == [] then 0 else Pending(s[..|s| - 1]) * 64 + s[|s| - 1]
  }

  lemma PendingAppend(s: seq<Sextet>, v: Sextet)
    ensures Pending(s + [v]) == Pending(s) * 64 + v
  {
    assert (s + [v])[..|s|] == s;
  }

  lemma PendingDigits(s: seq<Sextet>)
    requires 2 <= |s| <= 4
    ensures var a: int, b: int := s[0], s[1];
            && (|s| == 2 ==> Pending(s) == a * 64 + b)
            && (|s| == 3 ==> Pending(s) == a * 4096 + b * 64 + s[2])
            && (|s| == 4 ==> var c: int := s[2]; Pending(s) == a * 262144 + b * 4096 + c * 64 + s[3])
  {
    PendingAppend([], s[0]);
    PendingAppend([s[0]], s[1]);
    if |s| == 2 {
      assert s == [s[0]] + [s[1]];
    } else {
      PendingAppend([s[0], s[1]], s[2]);
      assert [s[0]] + [s[1]] == [s[0], s[1]];
      if |s| == 3 {
        assert s == [s[0], s[1]] + [s[2]];
      } else {
        PendingAppend([s[0], s[1], s[2]], s[3]);
        assert [s[0], s[1]] + [s[2]] == [s[0], s[1], s[2]];
        assert s == [s[0], s[1], s[2]] + [s[3]];
      }
    }
  }

  /** The bytes of a 24-bit number, from its base-256 digits. */
  lemma Digits(p: int, q: int, r: int, x: int)
    requires 0 <= p < 256 && 0 <= q < 256 && 0 <= r < 256
    requires x == p * 65536 + q * 256 + r
    ensures x / 65536 % 256 == p && x / 256 % 256 == q && x % 256 == r
  {
    assert x / 256 == p * 256 + q;
    assert x / 65536 == p;
  }

  function High(x: nat): byte { x / 65536 % 256 }

  function Middle(x: nat): byte { x / 256 % 256 }

  function Low(x: nat): byte { x % 256 }

  /** A full group: the three bytes of the accumulator. */
  lemma FullGroup(s: seq<Sextet>, x: nat)
    requires |s| == 4 && x == Pending(s)
    ensures Unpack(s) == [High(x), Middle(x), Low(x)]
  {
    PendingDigits(s);
    Digits(First(s[0], s[1]), Second(s[1], s[2]), Third(s[2], s[3]), x);
    assert Unpack(s[4..]) == [];
  }

  /** The remaining two or three values, shifted into place. */
  lemma PartialGroup(s: seq<Sextet>, x: nat)
    requires x == Pending(s)
    ensures |s| == 2 ==> Unpack(s) == [High(x * 4096)]
    ensures |s| == 3 ==> Unpack(s) == [High(x * 64), Middle(x * 64)]
    ensures |s| < 2 ==> Unpack(s) == []
  {
    if |s| == 2 {
      PendingDigits(s);
      Digits(First(s[0], s[1]), Second(s[1], 0), 0, x * 4096);
    } else if |s| == 3 {
      PendingDigits(s);
      Digits(First(s[0], s[1]), Second(s[1], s[2]), Third(s[2], 0), x * 64);
    }
  }

  /** How one byte moves the decoder along. */
  lemma AcceptedStep(src: Bytes, i: nat, ext: bool)
    requires i < |src|
    ensures Read(src[i], ext).Skip? ==> Accepted(src[i..], ext) == Accepted(src[i + 1..], ext)
    ensures Read(src[i], ext).Stop? ==> Accepted(src[i..], ext) == []
    ensures Read(src[i], ext).Accept? ==>
              Accepted(src[i..], ext) == [Read(src[i], ext).value] + Accepted(src[i + 1..], ext)
  {
    assert src[i..][1..] == src[i + 1..];
  }

  /** doBase64decode's loop: it decodes exactly the values it accepts. */
  method Decode(src: Bytes, ext: bool) returns (dst: Bytes)
    ensures dst == Unpack(Accepted(src, ext))
  {
    hide Unpack, Accepted, Pending, High, Middle, Low;
    var n, x := 0, 0;
    dst := [];
    ghost var done: seq<Sextet>, group: seq<Sextet> := [], [];
    EmptyGroup();
    var i := 0;
    ghost var rest := Accepted(src, ext);
    assert src[0..] == src;
    while i < |src|
      invariant 0 <= i <= |src|
      invariant |done| % 4 == 0 && |group| == n < 4 && x == Pending(group)
      invariant dst == Unpack(done)
      invariant rest == Accepted(src[i..], ext)
      invariant Accepted(src, ext) == done + group + rest
    {
      var currChar := src[i];
      AcceptedStep(src, i, ext);
      i := i + 1;
      if ext && (IsSpace(currChar) || currChar == 46) {
        continue;
      }
      if currChar == 13 || currChar == 10 {
        continue;
      }
      if currChar == PAD || currChar == 32 {
        rest := [];
        break;
      }
      var decoded := DecMap(Canonical(currChar, ext));
      if decoded == INVALID {
        if ext {
          continue;
        }
        rest := [];
        break;
      }
      Regroup(done, group, rest);
      rest := rest[1..];
      PendingAppend(group, decoded);
      group := group + [decoded];
      x := x * 64 + decoded;
      n := n + 1;
      if n == 4 {
        FullGroup(group, x);
        UnpackConcat(done, group);
        EmptyGroup();
        dst := dst + [High(x), Middle(x), Low(x)];
        done, group := done + group, [];
        n := 0;
        x := 0;
      }
    }
    NothingLeft(ext);
    assert i == |src| ==> src[i..] == [];
    assert Accepted(src, ext) == done + group;
    UnpackConcat(done, group);
    PartialGroup(group, x);
    if n == 2 {
      dst := dst + [High(x * 4096)];
    } else if n == 3 {
      dst := dst + [High(x * 64), Middle(x * 64)];
    }
  }

  lemma Regroup(done: seq<Sextet>, group: seq<Sextet>, rest: seq<Sextet>)
    requires rest != []
    ensures done + group + rest == done + (group + [rest[0]]) + rest[1..]
    ensures done + group + rest == (done + (group + [rest[0]])) + [] + rest[1..]
  {
  }

  lemma EmptyGroup()
    ensures Unpack([]) == [] && Pending([]) == 0
  {
  }

  lemma NothingLeft(ext: bool)
    ensures Accepted([], ext) == []
  {
  }

  // ---------------------------------------------------------------- round trip

  /** The character of a six-bit value in the base64 (section 4) or base64url (section 5) alphabet. */
  function Letter(v: Sextet, url: bool): byte {
    if v < 26 then v + 65
    else if v < 52 then v + 71
    else if v < 62 then v - 4
    else if v == 62 then if url then 45 else 43
    else if url then 95 else 47
  }

  function Letters(s: seq<Sextet>, url: bool): Bytes {
    seq(|s|, i requires 0 <= i < |s| => Letter(s[i], url))
  }

  /** The RFC 4648 encoding, with or without padding. */
  function Encode(x: Bytes, url: bool, padded: bool): Bytes {
    var s := Pack(x);
    Letters(s, url) + if padded then seq((4 - |s| % 4) % 4, _ => PAD) else []
  }

  /** A byte outside both alphabets that is not the padding sign. */
  predicate Junk(c: byte) {
    c != PAD && DecMap(Canonical(c, true)) == INVALID
  }

  /** `text` is `letters` with any amount of junk inserted anywhere. */
  predicate Littered(letters: Bytes, text: Bytes) {
    if text == [] then letters == []
    else if Junk(text[0]) then Littered(letters, text[1..])
    else letters != [] && text[0] == letters[0] && Littered(letters[1..], text[1..])
  }

  lemma {:induction false} AcceptedLittered(s: seq<Sextet>, letters: Bytes, body: Bytes, tail: Bytes)
    requires |letters| == |s| && forall i | 0 <= i < |s| :: letters[i] == Letter(s[i], false) || letters[i] == Letter(s[i], true)
    requires Littered(letters, body)
    requires tail == [] || tail[0] == PAD
    ensures Accepted(body + tail, true) == s
    decreases |body|
  {
    if body == [] {
      assert body + tail == tail;
    } else {
      assert (body + tail)[1..] == body[1..] + tail;
      if Junk(body[0]) {
        AcceptedLittered(s, letters, body[1..], tail);
      } else {
        assert letters[0] == Letter(s[0], false) || letters[0] == Letter(s[0], true);
        AcceptedLittered(s[1..], letters[1..], body[1..], tail);
        assert s == [s[0]] + s[1..];
      }
    }
  }

  /**
   The forgiving round trip: for every byte string, spelled in either alphabet or any mixture of
   the two, littered with any out-of-alphabet bytes, and ended by the end of input or by padding
   and anything after it, decoding returns the byte string.
   */
  lemma ForgivingRoundTrip(x: Bytes, letters: Bytes, body: Bytes, tail: Bytes)
    requires |letters| == |Pack(x)|
    requires forall i | 0 <= i < |letters| :: letters[i] == Letter(Pack(x)[i], false) || letters[i] == Letter(Pack(x)[i], true)
    requires Littered(letters, body)
    requires tail == [] || tail[0] == PAD
    ensures Unpack(Accepted(body + tail, true)) == x
  {
    AcceptedLittered(Pack(x), letters, body, tail);
    UnpackPack(x);
  }

  /** The standard encodings themselves, padded or not, are such texts. */
  lemma EncodingRoundTrip(x: Bytes, url: bool, padded: bool)
    ensures Unpack(Accepted(Encode(x, url, padded), true)) == x
  {
    var letters := Letters(Pack(x), url);
    NoLitter(Pack(x), letters, url);
    ForgivingRoundTrip(x, letters, letters, if padded then seq((4 - |Pack(x)| % 4) % 4, _ => PAD) else []);
  }

  lemma {:induction false} NoLitter(s: seq<Sextet>, letters: Bytes, url: bool)
    requires letters == Letters(s, url)
    ensures Littered(letters, letters)
  {
    if s != [] {
      NoLitter(s[1..], letters[1..], url);
    }
  }

  /** A byte outside the section 4 alphabet that is no line break. */
  predicate Ends(c: byte) {
    !(65 <= c <= 90) && !(97 <= c <= 122) && !(48 <= c <= 57) && c != 43 && c != 47 && c != 13 && c != 10
  }

  /** The strict decoder stops at such a byte, whatever comes after it: partial decoding up to there. */
  lemma {:induction false} StrictStops(text: Bytes, c: byte, rest: Bytes)
    requires Ends(c)
    ensures Accepted(text + [c] + rest, false) == Accepted(text, false)
    ensures Unpack(Accepted(text + [c] + rest, false)) == Unpack(Accepted(text, false))
  {
    if text == [] {
      assert text + [c] + rest == [c] + rest;
    } else {
      assert (text + [c] + rest)[1..] == text[1..] + [c] + rest;
      StrictStops(text[1..], c, rest);
    }
  }

  /** The strict decoder agrees on section 4 text without litter, broken into lines or not, up to its end. */
  lemma {:induction false} StrictRoundTrip(s: seq<Sextet>, text: Bytes, tail: Bytes)
    requires Lines(Letters(s, false), text) && (tail == [] || Ends(tail[0]))
    ensures Accepted(text + tail, false) == s
    decreases |text|
  {
    if text == [] {
      assert text + tail == tail;
    } else {
      assert (text + tail)[1..] == text[1..] + tail;
      if text[0] == 13 || text[0] == 10 {
        StrictRoundTrip(s, text[1..], tail);
      } else {
        assert Letters(s, false)[1..] == Letters(s[1..], false);
        StrictRoundTrip(s[1..], text[1..], tail);
        assert s == [s[0]] + s[1..];
      }
    }
  }

  /** `text` is `letters` with line breaks inserted. */
  predicate Lines(letters: Bytes, text: Bytes) {
    if text == [] then letters == []
    else if text[0] == 13 || text[0] == 10 then Lines(letters, text[1..])
    else letters != [] && text[0] == letters[0] && Lines(letters[1..], text[1..])
  }
}
