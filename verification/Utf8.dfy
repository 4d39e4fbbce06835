/** The transcoding cJSON performs for \u escapes, and its meaning (section 3 of RFC 3629). */
module Utf8 {
  import opened Bytes

  /** A Unicode scalar value: a code point that is not a surrogate. */
  predicate IsScalar(cp: int) {
    0 <= cp < 0xD800 || 0xE000 <= cp < 0x11_0000
  }

  /** The number of bytes chosen by the code. */
  function EncodedLength(cp: nat): nat {
    if cp < 0x80 then 1 else if cp < 0x800 then 2 else if cp < 0x1_0000 then 3 else 4
  }

  function Continuation(cp: nat): byte {
    0x80 + cp % 64
  }

  function Encode(cp: nat): (t: seq<byte>)
    requires cp < 0x11_0000
    ensures |t| == EncodedLength(cp)
  {
    if cp < 0x80 then [cp]
    else if cp < 0x800 then [0xC0 + cp / 64, Continuation(cp)]
    else if cp < 0x1_0000 then [0xE0 + cp / 4096, Continuation(cp / 64), Continuation(cp)]
    else [0xF0 + cp / 262144, Continuation(cp / 4096), Continuation(cp / 64), Continuation(cp)]
  }

  predicate IsContinuation(b: byte) {
    0x80 <= b < 0xC0
  }

  /** The bits a byte carries above a marker. */
  function Above(b: byte, marker: int): int {
    b - marker
  }

  /** A reference decoder for one character, strict as RFC 3629 asks: it refuses overlong forms,
      surrogates and values past U+10FFFF, giving -1. */
  function Decode(t: seq<byte>): int {
    if |t| == 1 && t[0] < 0x80 then t[0]
    else if |t| == 2 && 0xC2 <= t[0] < 0xE0 && IsContinuation(t[1]) then
      Above(t[0], 0xC0) * 64 + Above(t[1], 0x80)
    else if |t| == 3 && 0xE0 <= t[0] < 0xF0 && IsContinuation(t[1]) && IsContinuation(t[2]) then
      var cp := Above(t[0], 0xE0) * 4096 + Above(t[1], 0x80) * 64 + Above(t[2], 0x80);
      if cp < 0x800 || !IsScalar(cp) then -1 else cp
    else if |t| == 4 && 0xF0 <= t[0] < 0xF5
      && IsContinuation(t[1]) && IsContinuation(t[2]) && IsContinuation(t[3]) then
      var cp := Above(t[0], 0xF0) * 262144 + Above(t[1], 0x80) * 4096 + Above(t[2], 0x80) * 64 + Above(t[3], 0x80);
      if cp < 0x1_0000 || !IsScalar(cp) then -1 else cp
    else -1
  }

  /** What the code writes for a scalar value is well-formed UTF-8 for exactly that value. */
  lemma DecodeEncode(cp: nat)
    requires IsScalar(cp)
    ensures Decode(Encode(cp)) == cp
  {
    var a := cp / 64;
    assert cp == a * 64 + cp % 64;
    if cp >= 0x800 {
      var b := a / 64;
      assert a == b * 64 + a % 64 && b == cp / 4096;
      if cp >= 0x1_0000 {
        assert b == b / 64 * 64 + b % 64 && b / 64 == cp / 262144;
      }
    }
  }

  /** The decoder accepts nothing else: every accepted sequence is the encoding of its value. */
  lemma EncodeDecode(t: seq<byte>)
    requires Decode(t) >= 0
    ensures IsScalar(Decode(t)) && Encode(Decode(t)) == t
  {
    var cp := Decode(t);
    if |t| == 2 {
      assert cp / 64 == Above(t[0], 0xC0) && cp % 64 == Above(t[1], 0x80);
    } else if |t| == 3 {
      var a := Above(t[0], 0xE0) * 64 + Above(t[1], 0x80);
      assert cp == a * 64 + Above(t[2], 0x80);
      assert cp / 64 == a && cp % 64 == Above(t[2], 0x80);
      assert a / 64 == Above(t[0], 0xE0) && a % 64 == Above(t[1], 0x80);
      assert cp / 4096 == a / 64;
    } else if |t| == 4 {
      var b := Above(t[0], 0xF0) * 64 + Above(t[1], 0x80);
      var a := b * 64 + Above(t[2], 0x80);
      assert cp == a * 64 + Above(t[3], 0x80);
      assert cp / 64 == a && cp % 64 == Above(t[3], 0x80);
      assert a / 64 == b && a % 64 == Above(t[2], 0x80);
      assert b / 64 == Above(t[0], 0xF0) && b % 64 == Above(t[1], 0x80);
      assert cp / 4096 == b && cp / 262144 == b / 64;
    }
  }

  /** Section 2 of RFC 2781: the value a surrogate pair stands for. */
  function FromPair(high: nat, low: nat): (cp: nat)
    requires 0xD800 <= high < 0xDC00 && 0xDC00 <= low < 0xE000
    ensures 0x1_0000 <= cp < 0x11_0000
  {
    0x1_0000 + (high % 0x400) * 0x400 + low % 0x400
  }

  /** The code's masks and shifts on `unsigned` are the divisions used here. */
  lemma MasksAreDivisions(uc: bv32)
    ensures ((uc | 0x80) & 0xBF) & 0xFF == 0x80 + uc % 64
    ensures uc >> 6 == uc / 64
    ensures uc < 0x80 ==> (uc | 0x00) & 0xFF == uc
    ensures uc < 0x20 ==> (uc | 0xC0) & 0xFF == 0xC0 + uc
    ensures uc < 0x10 ==> (uc | 0xE0) & 0xFF == 0xE0 + uc
    ensures uc < 0x08 ==> (uc | 0xF0) & 0xFF == 0xF0 + uc
  {
  }

  lemma PairMasksAreDivisions(high: bv32, low: bv32)
    ensures 0x1_0000 + (((high & 0x3FF) << 10) | (low & 0x3FF)) == 0x1_0000 + (high % 0x400) * 0x400 + low % 0x400
  {
  }
}
