/**
 Byte strings, ASCII case folding, and the substring relation that every matcher of
 internal/operators/rxprefilter.go is measured against.
 */
module ByteStrings {

  type byte = x: int | 0 <= x < 256

  type Bytes = seq<byte>

  predicate IsUpper(b: byte) {
    65 <= b <= 90
  }

  predicate IsLower(b: byte) {
    97 <= b <= 122
  }

  /** The byte with 'A'..'Z' mapped to 'a'..'z' and every other byte unchanged. */
  function Lower(b: byte): byte {
    if IsUpper(b) then b + 32 else b
  }

  /** The other spelling of a lower-case letter; every other byte is unchanged. */
  function Upper(b: byte): byte {
    if IsLower(b) then b - 32 else b
  }

  function Norm(b: byte, fold: bool): byte {
    if fold then Lower(b) else b
  }

  predicate IsASCII(s: Bytes) {
    forall k | 0 <= k < |s| :: s[k] < 128
  }

  /** `needle` is spelled by `v` from position `i`, after lower-casing `v` when `fold` is set. */
  predicate At(v: Bytes, i: int, needle: Bytes, fold: bool) {
    && 0 <= i
    && i + |needle| <= |v|
    && forall k | 0 <= k < |needle| :: Norm(v[i + k], fold) == needle[k]
  }

  /** Naive search: the reference every fast matcher must agree with. */
  predicate Has(v: Bytes, needle: Bytes, fold: bool) {
    exists i | 0 <= i <= |v| - |needle| :: At(v, i, needle, fold)
  }

  lemma HasIntro(v: Bytes, i: int, needle: Bytes, fold: bool)
    requires At(v, i, needle, fold)
    ensures Has(v, needle, fold)
  {
  }

  /** First position of `b` in `s`, or -1. */
  function IndexByte(s: Bytes, b: byte): (r: int)
    ensures -1 <= r < |s|
    ensures r < 0 <==> b !in s
    ensures r >= 0 ==> s[r] == b && b !in s[..r]
  {
    if s == [] then -1
    else if s[0] == b then 0
    else
      var rest := IndexByte(s[1..], b);
      if rest < 0 then -1 else
        assert s[..rest + 1] == [s[0]] + s[1..][..rest];
        rest + 1
  }

  /** How uncommon a byte is in ordinary traffic; used only to choose which byte to look for. */
  function Rarity(b: byte): nat {
    if b in {101, 116, 97, 111, 105, 110, 115, 104, 114} then 0       // e t a o i n s h r
    else if b in {100, 108, 117, 99, 109, 102, 121, 119, 103, 112, 98, 118} then 1 // d l u c m f y w g p b v
    else if b in {107, 106, 113, 120, 122} then 2                      // k j q x z
    else 3
  }

  /** A Go string: the address of its bytes and the bytes themselves. */
  datatype Str = Str(addr: nat, data: Bytes)

  /**
   Two strings that are alive together: memory is immutable while referenced, so the same
   address and length mean the same bytes.
   */
  predicate Coherent(a: Str, b: Str) {
    a.addr == b.addr && |a.data| == |b.data| ==> a.data == b.data
  }

  /** All strings of `live` are alive together. */
  ghost predicate Coexist(live: set<Str>) {
    forall a, b | a in live && b in live :: Coherent(a, b)
  }

  lemma {:induction false} AddressAbove(live: set<Str>) returns (top: nat)
    ensures forall s | s in live :: s.addr < top
    decreases |live|
  {
    if live == {} {
      top := 0;
    } else {
      var s :| s in live;
      var below := AddressAbove(live - {s});
      top := if s.addr < below then below else s.addr + 1;
      forall r | r in live ensures r.addr < top {
        assert r == s || r in live - {s};
      }
    }
  }

  /** Some address where a string with these bytes can be, given what is alive; otherwise arbitrary. */
  method Place(data: Bytes, live: set<Str>) returns (s: Str)
    requires Coexist(live)
    ensures s.data == data && Coexist(live + {s})
  {
    ghost var top := AddressAbove(live);
    assert forall t | t in live :: Coherent(Str(top, data), t);
    var addr: nat :| forall t | t in live :: Coherent(Str(addr, data), t);
    s := Str(addr, data);
  }
}
