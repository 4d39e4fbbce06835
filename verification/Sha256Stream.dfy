/** The streaming SHA-256 context: every way to cut a message up gives the same digest. */
module Sha256Stream {
  import opened Sha256
  import Sha256Context

  const WORD: nat := 0x1_0000_0000

  /** sha256_padding. */
  const PADDING: seq<bv8> := [0x80] + Zeros(63)

  /** `count` bytes have been absorbed: the two halves of the counter. */
  ghost predicate Counts(total0: nat, total1: nat, count: nat) {
    total0 < WORD && total1 < WORD && total0 == count % WORD && total1 == (count / WORD) % WORD
  }

  /** The 32-bit addition with its carry test. */
  lemma CountUp(total0: nat, total1: nat, count: nat, length: nat)
    requires Counts(total0, total1, count) && length < WORD
    ensures var low := (total0 + length) % WORD;
            Counts(low, if low < length then (total1 + 1) % WORD else total1, count + length)
  {
    var q := count / WORD;
    var sum := total0 + length;
    assert count + length == WORD * q + sum;
    if sum < WORD {
      Split(count + length, q, sum);
    } else {
      Split(count + length, q + 1, sum - WORD);
      Successor(q);
      Split(sum, 1, sum - WORD);
    }
  }

  lemma Successor(q: nat)
    ensures (q % WORD + 1) % WORD == (q + 1) % WORD
  {
  }

  lemma Split(n: nat, q: nat, r: nat)
    requires n == WORD * q + r && r < WORD
    ensures n % WORD == r && n / WORD == q
  {
  }

  /** After `msg`, the state covers its whole blocks and `part` is what is left of it. */
  ghost predicate Holding(state: Regs, msg: seq<bv8>, part: seq<bv8>) {
    && |part| == |msg| % 64 && part == msg[|msg| - |part|..]
    && state == Blocks(H0, msg)
  }

  /** Filled up to 64 bytes, the part is the next block. */
  lemma FillUp(state: Regs, msg: seq<bv8>, part: seq<bv8>, more: seq<bv8>)
    requires Holding(state, msg, part) && |part + more| == 64
    ensures Holding(Compress(state, part + more), msg + more, [])
  {
    hide Compress;
    var whole, block := msg[..|msg| - |part|], part + more;
    assert msg == whole + part;
    WholeBlocks(|msg|, |part|);
    BlocksWait(H0, whole, part);
    BlocksAppend(H0, whole, block);
    assert msg + more == whole + block;
    OneBlock(state, block);
    WholeBlocks(|msg + more|, 0);
  }

  lemma OneBlock(r: Regs, block: seq<bv8>)
    requires |block| == 64
    ensures Blocks(r, block) == Compress(r, block)
  {
    assert block[64..] == [] && block[..64] == block;
  }

  /** `n` bytes, of which `k` are not in a whole block yet. */
  lemma WholeBlocks(n: nat, k: nat)
    ensures n % 64 == k ==> (n - k) % 64 == 0
    ensures k < 64 && k <= n && (n - k) % 64 == 0 ==> n % 64 == k
  {
  }

  /** A part that stays short waits. */
  lemma Wait(state: Regs, msg: seq<bv8>, part: seq<bv8>, rest: seq<bv8>)
    requires Holding(state, msg, part) && |part + rest| < 64
    ensures Holding(state, msg + rest, part + rest)
  {
    hide Compress;
    var whole := msg[..|msg| - |part|];
    assert msg == whole + part && msg + rest == whole + (part + rest);
    WholeBlocks(|msg|, |part|);
    BlocksWait(H0, whole, part);
    BlocksWait(H0, whole, part + rest);
    WholeBlocks(|msg + rest|, |part + rest|);
  }

  lemma Shift(msg: seq<bv8>, rest: seq<bv8>)
    requires |rest| >= 64
    ensures msg + rest[..64] + rest[64..] == msg + rest
  {
  }

  class Context {
    var total0: nat
    var total1: nat
    var state: Regs
    const buffer: array<bv8>
    // What has been absorbed so far.
    ghost var msg: seq<bv8>

    /** The counter, the hash of the whole blocks and the part of a block still to come. */
    ghost predicate Valid()
      reads this, buffer
    {
      && buffer.Length == 64 && Counts(total0, total1, |msg|)
      && Holding(state, msg, buffer[..|msg| % 64])
    }

    /** sha256_starts. */
    constructor ()
      ensures Valid() && msg == [] && fresh(buffer)
    {
      buffer := new bv8[64];
      total0, total1 := 0, 0;
      state := H0;
      msg := [];
    }

    method Memcpy(at: nat, src: seq<bv8>)
      requires at + |src| <= buffer.Length
      modifies buffer
      ensures buffer[..at + |src|] == old(buffer[..at]) + src
    {
      for i := 0 to |src|
        invariant buffer[..at + i] == old(buffer[..at]) + src[..i]
      {
        buffer[at + i] := src[i];
      }
    }

    /** The part of sha256_update that completes a block left over from before. */
    method FirstBlock(left: nat, input: seq<bv8>) returns (rest: seq<bv8>, at: nat)
      requires buffer.Length == 64 && left < 64 && Holding(state, msg, buffer[..left])
      modifies this`state, this`msg, buffer
      ensures at < 64 && Holding(state, msg, buffer[..at]) && msg + rest == old(msg) + input
      ensures at != 0 ==> at + |rest| < 64
    {
      hide Holding;
      var fill := 64 - left;
      rest, at := input, left;
      if left != 0 && |input| >= fill {
        FillUp(state, msg, buffer[..left], input[..fill]);
        Memcpy(left, input[..fill]);
        assert buffer[..] == buffer[..64];
        state := Sha256Context.Process(state, buffer[..]);
        msg := msg + input[..fill];
        assert input == input[..fill] + input[fill..];
        rest, at := input[fill..], 0;
      }
    }

    /** The whole blocks of the input, and the copy of what remains. */
    method Absorb(left: nat, input: seq<bv8>) returns (at: nat)
      requires buffer.Length == 64 && left < 64 && Holding(state, msg, buffer[..left])
      modifies this`state, this`msg, buffer
      ensures at < 64 && msg == old(msg) + input && Holding(state, msg, buffer[..at])
    {
      hide Holding;
      var rest;
      rest, at := FirstBlock(left, input);
      while |rest| >= 64
        invariant at < 64 && Holding(state, msg, buffer[..at]) && msg + rest == old(msg) + input
        invariant at != 0 ==> at + |rest| < 64
        decreases |rest|
      {
        var block := rest[..64];
        assert at == 0 && buffer[..at] + block == block;
        FillUp(state, msg, buffer[..at], block);
        Shift(msg, rest);
        state := Sha256Context.Process(state, block);
        msg, rest := msg + block, rest[64..];
      }
      CopyRest(at, rest);
      at := at + |rest|;
    }

    /** Less than a block remains. */
    method CopyRest(at: nat, rest: seq<bv8>)
      requires buffer.Length == 64 && at + |rest| < 64 && Holding(state, msg, buffer[..at])
      modifies this`msg, buffer
      ensures msg == old(msg) + rest && Holding(state, msg, buffer[..at + |rest|])
    {
      hide Holding;
      Wait(state, msg, buffer[..at], rest);
      if |rest| != 0 {
        Memcpy(at, rest);
      } else {
        assert buffer[..at] + rest == buffer[..at];
      }
      msg := msg + rest;
    }

    /** sha256_update. */
    method Update(input: seq<bv8>)
      requires Valid() && |input| < WORD
      modifies this, buffer
      ensures Valid() && msg == old(msg) + input
    {
      hide Holding, Counts;
      if |input| == 0 {
        assert msg + input == msg;
        return;
      }
      CountUp(total0, total1, |msg|, |input|);
      LowBits(total0, total1, |msg|);
      var left := total0 % 64;
      total0 := (total0 + |input|) % WORD;
      if total0 < |input| {
        total1 := (total1 + 1) % WORD;
      }
      var at := Absorb(left, input);
      PartSize(state, msg, buffer[..at]);
    }

    /** sha256_finish. */
    method Finish() returns (digest: seq<bv8>)
      requires Valid() && |msg| < 0x2000_0000_0000_0000
      modifies this, buffer
      ensures digest == Digest(old(msg))
    {
      hide Holding, Counts, Blocks, Padding, BigEndian, WordBytes;
      ghost var m := msg;
      LowBits(total0, total1, |m|);
      BitLength(total0, total1, |m|);
      var high := total0 / 0x2000_0000 + total1 * 8 % WORD;
      var low := total0 * 8 % WORD;
      var msglen := BigEndian(high, 4) + BigEndian(low, 4);
      var last := total0 % 64;
      var padn := if last < 56 then 56 - last else 120 - last;
      PaddingParts(|m|, padn);
      Update(PADDING[..padn]);
      Update(msglen);
      assert msg == m + Padding(|m|);
      PaddedIsWhole(m);
      StateOf(state, msg, buffer[..|msg| % 64]);
      digest := WordBytes(state.a) + WordBytes(state.b) + WordBytes(state.c) + WordBytes(state.d)
              + WordBytes(state.e) + WordBytes(state.f) + WordBytes(state.g) + WordBytes(state.h);
    }
  }

  lemma StateOf(state: Regs, msg: seq<bv8>, part: seq<bv8>)
    requires Holding(state, msg, part)
    ensures state == Blocks(H0, msg)
  {
  }

  /** The source's shifts and masks on the counter are the sums and remainders used here. */
  lemma ShiftsAreSums(total0: bv32, total1: bv32)
    ensures (total0 >> 29) | (total1 << 3) == total0 / 0x2000_0000 + total1 * 8
    ensures total0 << 3 == total0 * 8 && total0 & 0x3F == total0 % 64
  {
  }

  /** The length in bits, put together from the counter's halves. */
  lemma BitLength(total0: nat, total1: nat, count: nat)
    requires Counts(total0, total1, count) && count < 0x2000_0000_0000_0000
    ensures var high, low := total0 / 0x2000_0000 + total1 * 8 % WORD, total0 * 8 % WORD;
            BigEndian(high, 4) + BigEndian(low, 4) == BigEndian(8 * count, 8)
  {
    var t := count / WORD;
    assert count == WORD * t + total0 && t < 0x2000_0000 && total1 == t;
    var high, low := total0 / 0x2000_0000 + total1 * 8 % WORD, total0 * 8 % WORD;
    assert total1 * 8 % WORD == total1 * 8;
    var carry := total0 / 0x2000_0000;
    assert total0 * 8 == WORD * carry + 8 * (total0 % 0x2000_0000);
    assert low == 8 * (total0 % 0x2000_0000) by { Split(total0 * 8, carry, 8 * (total0 % 0x2000_0000)); }
    assert 8 * count == high * WORD + low;
    assert Power(4) == WORD;
    BigEndianSplit(high, low, 4, 4);
  }

  function Power(k: nat): nat {
    if k == 0 then 1 else 256 * Power(k - 1)
  }

  /** The high and the low bytes of a number are the bytes of its halves. */
  lemma {:induction false} BigEndianSplit(high: nat, low: nat, n: nat, k: nat)
    requires low < Power(k)
    ensures BigEndian(high * Power(k) + low, n + k) == BigEndian(high, n) + BigEndian(low, k)
  {
    hide BigEndian;
    NoBytes(low);
    if k == 0 {
      assert BigEndian(high, n) + [] == BigEndian(high, n);
    } else {
      var rest, digit := low / 256, low % 256;
      BigEndianSplit(high, rest, n, k - 1);
      var v := high * Power(k - 1) + rest;
      ShiftDigit(high, Power(k - 1), rest, digit);
      BigEndianStep(v, digit, n + k - 1);
      BigEndianStep(rest, digit, k - 1);
    }
  }

  lemma NoBytes(v: nat)
    ensures BigEndian(v, 0) == []
  {
  }

  lemma ShiftDigit(high: nat, p: nat, rest: nat, digit: nat)
    ensures high * (256 * p) + (256 * rest + digit) == (high * p + rest) * 256 + digit
  {
    assert high * (256 * p) == 256 * (high * p);
  }

  lemma BigEndianStep(v: nat, digit: nat, n: nat)
    requires digit < 256
    ensures BigEndian(v * 256 + digit, n + 1) == BigEndian(v, n) + [digit as bv8]
  {
    assert (v * 256 + digit) / 256 == v && (v * 256 + digit) % 256 == digit;
  }

  /** The table of padding bytes gives the one bit and the zeros of section 5.1.1. */
  lemma PaddingParts(length: nat, padn: nat)
    requires padn == if length % 64 < 56 then 56 - length % 64 else 120 - length % 64
    ensures padn <= 64 && PADDING[..padn] + BigEndian(8 * length, 8) == Padding(length)
  {
    var r := length % 64;
    assert (119 - r) % 64 == if r < 56 then 55 - r else 119 - r;
    assert PADDING[..padn] == [0x80] + Zeros((119 - r) % 64);
  }

  lemma PartSize(state: Regs, msg: seq<bv8>, part: seq<bv8>)
    requires Holding(state, msg, part)
    ensures |part| == |msg| % 64
  {
  }

  lemma LowBits(total0: nat, total1: nat, count: nat)
    requires Counts(total0, total1, count)
    ensures total0 % 64 == count % 64
  {
    assert count == WORD * (count / WORD) + total0;
  }

  function Concat(parts: seq<seq<bv8>>): seq<bv8> {
    if parts == [] then [] else Concat(parts[..|parts| - 1]) + parts[|parts| - 1]
  }

  /** However a message is cut into updates, the digest is that of the whole. */
  method HashParts(parts: seq<seq<bv8>>) returns (digest: seq<bv8>)
    requires forall i :: 0 <= i < |parts| ==> |parts[i]| < WORD
    requires |Concat(parts)| < 0x2000_0000_0000_0000
    ensures digest == Digest(Concat(parts))
  {
    var ctx := new Context();
    for i := 0 to |parts|
      invariant ctx.Valid() && ctx.msg == Concat(parts[..i])
      invariant fresh(ctx) && fresh(ctx.buffer)
    {
      assert parts[..i + 1][..i] == parts[..i];
      ctx.Update(parts[i]);
    }
    assert parts[..|parts|] == parts;
    digest := ctx.Finish();
  }
}
