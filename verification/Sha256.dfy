/** SHA-256 as FIPS 180-2 defines it: the compression of section 6.2 and the padding of 5.1.1. */
module Sha256 {

  datatype Regs = Regs(a: bv32, b: bv32, c: bv32, d: bv32, e: bv32, f: bv32, g: bv32, h: bv32)

  const H0: Regs := Regs(0x6A09E667, 0xBB67AE85, 0x3C6EF372, 0xA54FF53A,
                         0x510E527F, 0x9B05688C, 0x1F83D9AB, 0x5BE0CD19)

  // The constants of the rounds, eight at a time.
  const K0: seq<bv32> := [
    0x428A2F98, 0x71374491, 0xB5C0FBCF, 0xE9B5DBA5, 0x3956C25B, 0x59F111F1, 0x923F82A4, 0xAB1C5ED5]
  const K1: seq<bv32> := [
    0xD807AA98, 0x12835B01, 0x243185BE, 0x550C7DC3, 0x72BE5D74, 0x80DEB1FE, 0x9BDC06A7, 0xC19BF174]
  const K2: seq<bv32> := [
    0xE49B69C1, 0xEFBE4786, 0x0FC19DC6, 0x240CA1CC, 0x2DE92C6F, 0x4A7484AA, 0x5CB0A9DC, 0x76F988DA]
  const K3: seq<bv32> := [
    0x983E5152, 0xA831C66D, 0xB00327C8, 0xBF597FC7, 0xC6E00BF3, 0xD5A79147, 0x06CA6351, 0x14292967]
  const K4: seq<bv32> := [
    0x27B70A85, 0x2E1B2138, 0x4D2C6DFC, 0x53380D13, 0x650A7354, 0x766A0ABB, 0x81C2C92E, 0x92722C85]
  const K5: seq<bv32> := [
    0xA2BFE8A1, 0xA81A664B, 0xC24B8B70, 0xC76C51A3, 0xD192E819, 0xD6990624, 0xF40E3585, 0x106AA070]
  const K6: seq<bv32> := [
    0x19A4C116, 0x1E376C08, 0x2748774C, 0x34B0BCB5, 0x391C0CB3, 0x4ED8AA4A, 0x5B9CCA4F, 0x682E6FF3]
  const K7: seq<bv32> := [
    0x748F82EE, 0x78A5636F, 0x84C87814, 0x8CC70208, 0x90BEFFFA, 0xA4506CEB, 0xBEF9A3F7, 0xC67178F2]

  /** The constant of round t. */
  function K(t: nat): bv32
    requires t < 64
  {
    if t < 8 then K0[t] else if t < 16 then K1[t - 8] else if t < 24 then K2[t - 16] else if t < 32 then K3[t - 24]
    else if t < 40 then K4[t - 32] else if t < 48 then K5[t - 40] else if t < 56 then K6[t - 48] else K7[t - 56]
  }

  function Ch(x: bv32, y: bv32, z: bv32): bv32 { (x & y) ^ (!x & z) }

  function Maj(x: bv32, y: bv32, z: bv32): bv32 { (x & y) ^ (x & z) ^ (y & z) }

  function BigSigma0(x: bv32): bv32 { x.RotateRight(2) ^ x.RotateRight(13) ^ x.RotateRight(22) }

  function BigSigma1(x: bv32): bv32 { x.RotateRight(6) ^ x.RotateRight(11) ^ x.RotateRight(25) }

  function SmallSigma0(x: bv32): bv32 { x.RotateRight(7) ^ x.RotateRight(18) ^ (x >> 3) }

  function SmallSigma1(x: bv32): bv32 { x.RotateRight(17) ^ x.RotateRight(19) ^ (x >> 10) }

  /** A big-endian word of a block. */
  function Word(block: seq<bv8>, t: nat): bv32
    requires |block| == 64 && t < 16
  {
    (block[4 * t] as bv32 << 24) | (block[4 * t + 1] as bv32 << 16)
    | (block[4 * t + 2] as bv32 << 8) | (block[4 * t + 3] as bv32)
  }

  function Sum4(p: bv32, q: bv32, r: bv32, s: bv32): bv32 { p + q + r + s }

  /** The first `n` words of the message schedule. */
  function Schedule(block: seq<bv8>, n: nat): (w: seq<bv32>)
    requires |block| == 64 && n <= 64
    ensures |w| == n
  {
    if n == 0 then []
    else
      var w := Schedule(block, n - 1);
      var t := n - 1;
      w + [if t < 16 then Word(block, t)
           else Sum4(SmallSigma1(w[t - 2]), w[t - 7], SmallSigma0(w[t - 15]), w[t - 16])]
  }

  /** Addition modulo 2^32. */
  function Add(x: bv32, y: bv32): bv32 { x + y }

  function Sum(h: bv32, s: bv32, c: bv32, k: bv32, w: bv32): bv32 { h + s + c + k + w }

  function Round(r: Regs, k: bv32, w: bv32): Regs {
    var t1 := Sum(r.h, BigSigma1(r.e), Ch(r.e, r.f, r.g), k, w);
    var t2 := Add(BigSigma0(r.a), Maj(r.a, r.b, r.c));
    Regs(Add(t1, t2), r.a, r.b, r.c, Add(r.d, t1), r.e, r.f, r.g)
  }

  function Rounds(r: Regs, block: seq<bv8>, n: nat): Regs
    requires |block| == 64 && n <= 64
  {
    if n == 0 then r else Round(Rounds(r, block, n - 1), K(n - 1), Schedule(block, n)[n - 1])
  }

  function Compress(r: Regs, block: seq<bv8>): Regs
    requires |block| == 64
  {
    var s := Rounds(r, block, 64);
    Regs(Add(r.a, s.a), Add(r.b, s.b), Add(r.c, s.c), Add(r.d, s.d),
         Add(r.e, s.e), Add(r.f, s.f), Add(r.g, s.g), Add(r.h, s.h))
  }

  /** Compresses the whole blocks at the front of `data`, in order. */
  function Blocks(r: Regs, data: seq<bv8>): Regs
    decreases |data|
  {
    if |data| < 64 then r else Blocks(Compress(r, data[..64]), data[64..])
  }

  function Zeros(n: nat): (z: seq<bv8>)
    ensures |z| == n
  {
    seq(n, _ => 0)
  }

  /** A number as `n` bytes, most significant first. */
  function BigEndian(v: nat, n: nat): (b: seq<bv8>)
    ensures |b| == n
  {
    if n == 0 then [] else BigEndian(v / 256, n - 1) + [(v % 256) as bv8]
  }

  /** Section 5.1.1: a one bit, the least number of zeros that leaves eight bytes of the last
      block, and the length of the message in bits. */
  function Padding(length: nat): seq<bv8> {
    [0x80] + Zeros((119 - length % 64) % 64) + BigEndian(8 * length, 8)
  }

  lemma PaddedIsWhole(m: seq<bv8>)
    ensures |m + Padding(|m|)| % 64 == 0
  {
    hide BigEndian;
    var q, r := |m| / 64, |m| % 64;
    ZerosNeeded(r);
    if r < 56 {
      RemainderOf(|m + Padding(|m|)|, q + 1, 0);
    } else {
      RemainderOf(|m + Padding(|m|)|, q + 2, 0);
    }
  }

  lemma ZerosNeeded(r: nat)
    requires r < 64
    ensures (119 - r) % 64 == if r < 56 then 55 - r else 119 - r
  {
    if r < 56 {
      RemainderOf(119 - r, 1, 55 - r);
    } else {
      RemainderOf(119 - r, 0, 119 - r);
    }
  }

  /** With fewer zeros the padded message would not be made of whole blocks. */
  lemma PaddingIsLeast(n: nat, k: nat)
    requires k + 9 < |Padding(n)|
    ensures (n + 1 + k + 8) % 64 != 0
  {
    var q, r := n / 64, n % 64;
    var u := r + 9 + k;
    ZerosNeeded(r);
    if r < 56 {
      RemainderOf(n + 9 + k, q, u);
    } else {
      RemainderOf(n + 9 + k, q + 1, u - 64);
    }
  }

  lemma RemainderOf(n: int, q: int, r: int)
    requires n == 64 * q + r && 0 <= r < 64
    ensures n % 64 == r
  {
  }

  function WordBytes(x: bv32): (b: seq<bv8>)
    ensures |b| == 4
  {
    [(x >> 24) as bv8, ((x >> 16) & 0xFF) as bv8, ((x >> 8) & 0xFF) as bv8, (x & 0xFF) as bv8]
  }

  function Digest(m: seq<bv8>): seq<bv8> {
    var r := Blocks(H0, m + Padding(|m|));
    WordBytes(r.a) + WordBytes(r.b) + WordBytes(r.c) + WordBytes(r.d)
    + WordBytes(r.e) + WordBytes(r.f) + WordBytes(r.g) + WordBytes(r.h)
  }

  /** Whole blocks can be compressed as they come. */
  lemma {:induction false} BlocksAppend(r: Regs, a: seq<bv8>, b: seq<bv8>)
    requires |a| % 64 == 0
    ensures Blocks(r, a + b) == Blocks(Blocks(r, a), b)
    decreases |a|
  {
    hide Compress;
    if a == [] {
      assert a + b == b;
    } else {
      assert (a + b)[..64] == a[..64] && (a + b)[64..] == a[64..] + b;
      BlocksAppend(Compress(r, a[..64]), a[64..], b);
    }
  }

  /** A part shorter than a block waits. */
  lemma BlocksWait(r: Regs, a: seq<bv8>, b: seq<bv8>)
    requires |a| % 64 == 0 && |b| < 64
    ensures Blocks(r, a + b) == Blocks(r, a)
  {
    BlocksAppend(r, a, b);
  }
}
