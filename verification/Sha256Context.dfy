/** The streaming SHA-256 context and its compression on eight register variables. */
module Sha256Context {
  import opened Sha256

  const WORD: nat := 0x1_0000_0000

  // The macros of the compression

  function S0(x: bv32): bv32 { ((x >> 7) | (x << 25)) ^ ((x >> 18) | (x << 14)) ^ (x >> 3) }

  function S1(x: bv32): bv32 { ((x >> 17) | (x << 15)) ^ ((x >> 19) | (x << 13)) ^ (x >> 10) }

  function S2(x: bv32): bv32 { ((x >> 2) | (x << 30)) ^ ((x >> 13) | (x << 19)) ^ ((x >> 22) | (x << 10)) }

  function S3(x: bv32): bv32 { ((x >> 6) | (x << 26)) ^ ((x >> 11) | (x << 21)) ^ ((x >> 25) | (x << 7)) }

  function F0(x: bv32, y: bv32, z: bv32): bv32 { (x & y) | (z & (x | y)) }

  function F1(x: bv32, y: bv32, z: bv32): bv32 { z ^ (x & (y ^ z)) }

  lemma Rotates7(x: bv32)
    ensures (x >> 7) | (x << 25) == x.RotateRight(7)
  {
  }

  lemma Rotates18(x: bv32)
    ensures (x >> 18) | (x << 14) == x.RotateRight(18)
  {
  }

  lemma Rotates17(x: bv32)
    ensures (x >> 17) | (x << 15) == x.RotateRight(17)
  {
  }

  lemma Rotates19(x: bv32)
    ensures (x >> 19) | (x << 13) == x.RotateRight(19)
  {
  }

  lemma Rotates2(x: bv32)
    ensures (x >> 2) | (x << 30) == x.RotateRight(2)
  {
  }

  lemma Rotates13(x: bv32)
    ensures (x >> 13) | (x << 19) == x.RotateRight(13)
  {
  }

  lemma Rotates22(x: bv32)
    ensures (x >> 22) | (x << 10) == x.RotateRight(22)
  {
  }

  lemma Rotates6(x: bv32)
    ensures (x >> 6) | (x << 26) == x.RotateRight(6)
  {
  }

  lemma Rotates11(x: bv32)
    ensures (x >> 11) | (x << 21) == x.RotateRight(11)
  {
  }

  lemma Rotates25(x: bv32)
    ensures (x >> 25) | (x << 7) == x.RotateRight(25)
  {
  }

  lemma MajorityForms(x: bv32, y: bv32, z: bv32)
    ensures (x & y) | (z & (x | y)) == (x & y) ^ (x & z) ^ (y & z)
  {
  }

  lemma ChoiceForms(x: bv32, y: bv32, z: bv32)
    ensures z ^ (x & (y ^ z)) == (x & y) ^ (!x & z)
  {
  }

  lemma ChoicesAgree(x: bv32, y: bv32, z: bv32)
    ensures F0(x, y, z) == Maj(x, y, z) && F1(x, y, z) == Ch(x, y, z)
  {
    MajorityForms(x, y, z);
    ChoiceForms(x, y, z);
  }

  /** They are the functions of section 4.1.2 of FIPS 180-2, in cheaper forms. */
  lemma SigmasAgree(x: bv32)
    ensures S0(x) == SmallSigma0(x) && S1(x) == SmallSigma1(x)
    ensures S2(x) == BigSigma0(x) && S3(x) == BigSigma1(x)
  {
    Rotates7(x);
    Rotates18(x);
    Rotates17(x);
    Rotates19(x);
    Rotates2(x);
    Rotates13(x);
    Rotates22(x);
    Rotates6(x);
    Rotates11(x);
    Rotates25(x);
  }

  /** The two registers one step of the macro `P` changes. */
  function StepD(d: bv32, e: bv32, f: bv32, g: bv32, h: bv32, x: bv32, k: bv32): bv32 {
    Add(d, Sum(h, S3(e), F1(e, f, g), k, x))
  }

  function StepH(a: bv32, b: bv32, c: bv32, e: bv32, f: bv32, g: bv32, h: bv32, x: bv32, k: bv32): bv32 {
    Add(Sum(h, S3(e), F1(e, f, g), k, x), Add(S2(a), F0(a, b, c)))
  }

  /** With its registers renamed, a step is a round. */
  lemma StepIsRound(r: Regs, x: bv32, k: bv32)
    ensures Round(r, k, x) == Regs(StepH(r.a, r.b, r.c, r.e, r.f, r.g, r.h, x, k), r.a, r.b, r.c,
                                   StepD(r.d, r.e, r.f, r.g, r.h, x, k), r.e, r.f, r.g)
  {
    hide S2, S3, F0, F1, BigSigma0, BigSigma1, Maj, Ch, Add, Sum;
    SigmasAgree(r.e);
    SigmasAgree(r.a);
    ChoicesAgree(r.e, r.f, r.g);
    ChoicesAgree(r.a, r.b, r.c);
  }

  lemma {:induction false} SchedulePrefix(block: seq<bv8>, t: nat, n: nat)
    requires |block| == 64 && t <= n <= 64
    ensures Schedule(block, t) == Schedule(block, n)[..t]
    decreases n
  {
    if t < n {
      SchedulePrefix(block, t, n - 1);
    }
  }

  /** One more round, on registers that have been renamed `t` times. */
  lemma NextRound(s: Regs, block: seq<bv8>, t: nat, r: Regs)
    requires |block| == 64 && t < 64 && r == Rounds(s, block, t)
    ensures var x := Schedule(block, 64)[t];
            Rounds(s, block, t + 1)
            == Regs(StepH(r.a, r.b, r.c, r.e, r.f, r.g, r.h, x, K(t)), r.a, r.b, r.c,
                    StepD(r.d, r.e, r.f, r.g, r.h, x, K(t)), r.e, r.f, r.g)
  {
    hide StepH, StepD, Round, Schedule;
    SchedulePrefix(block, t + 1, 64);
    assert Schedule(block, t + 1)[t] == Schedule(block, 64)[t];
    StepIsRound(r, Schedule(block, 64)[t], K(t));
  }

  /** The macro `P`: the new values of its fourth and last registers. */
  method P(a: bv32, b: bv32, c: bv32, d: bv32, e: bv32, f: bv32, g: bv32, h: bv32, x: bv32, k: bv32)
    returns (d': bv32, h': bv32)
    ensures d' == StepD(d, e, f, g, h, x, k) && h' == StepH(a, b, c, e, f, g, h, x, k)
  {
    hide S2, S3, F0, F1;
    var temp1 := Sum(h, S3(e), F1(e, f, g), k, x);
    var temp2 := Add(S2(a), F0(a, b, c));
    d' := Add(d, temp1);
    h' := Add(temp1, temp2);
  }

  /** The message words computed so far; the first sixteen are there from the start. */
  ghost predicate Ready(w: seq<bv32>, t: nat, block: seq<bv8>)
    requires |block| == 64
  {
    && |w| == 64 && t <= 64 && w[..t] == Schedule(block, 64)[..t]
    && (t < 16 ==> w[..16] == Schedule(block, 64)[..16])
  }

  /** The macro `R`: the next word of the schedule. */
  method Extend(w: seq<bv32>, t: nat, ghost block: seq<bv8>) returns (w': seq<bv32>)
    requires |block| == 64 && t < 64 && Ready(w, t, block)
    ensures Ready(w', t + 1, block) && w'[t] == Schedule(block, 64)[t]
  {
    hide S0, S1, SmallSigma0, SmallSigma1, Sum4, Schedule;
    w' := w;
    if t >= 16 {
      ScheduleNext(block, t);
      SigmasAgree(w[t - 2]);
      SigmasAgree(w[t - 15]);
      assert w[..t][t - 2] == w[t - 2] && w[..t][t - 7] == w[t - 7];
      assert w[..t][t - 15] == w[t - 15] && w[..t][t - 16] == w[t - 16];
      w' := w[t := Sum4(S1(w[t - 2]), w[t - 7], S0(w[t - 15]), w[t - 16])];
    } else {
      assert w[..16][t] == Schedule(block, 64)[..16][t];
    }
    assert w'[..t + 1] == w[..t] + [w'[t]];
  }

  lemma ScheduleNext(block: seq<bv8>, t: nat)
    requires |block| == 64 && 16 <= t < 64
    ensures var w := Schedule(block, 64);
            w[t] == Sum4(SmallSigma1(w[..t][t - 2]), w[..t][t - 7], SmallSigma0(w[..t][t - 15]), w[..t][t - 16])
  {
    hide SmallSigma0, SmallSigma1, Sum4;
    SchedulePrefix(block, t, 64);
    SchedulePrefix(block, t + 1, 64);
    assert Schedule(block, 64)[..t + 1][t] == Schedule(block, 64)[t];
  }

  /** One line of the unrolled loop. */
  method Step(a: bv32, b: bv32, c: bv32, d: bv32, e: bv32, f: bv32, g: bv32, h: bv32,
              w: seq<bv32>, t: nat, ghost s: Regs, ghost block: seq<bv8>)
    returns (d': bv32, h': bv32, w': seq<bv32>)
    requires |block| == 64 && t < 64 && Regs(a, b, c, d, e, f, g, h) == Rounds(s, block, t) && Ready(w, t, block)
    ensures Regs(h', a, b, c, d', e, f, g) == Rounds(s, block, t + 1) && Ready(w', t + 1, block)
  {
    hide Schedule, Rounds, StepD, StepH;
    w' := Extend(w, t, block);
    NextRound(s, block, t, Regs(a, b, c, d, e, f, g, h));
    d', h' := P(a, b, c, d, e, f, g, h, w'[t], K(t));
  }

  /** Eight lines, after which every register is back in its place. */
  method Eight(r: Regs, w0: seq<bv32>, t: nat, ghost s: Regs, ghost data: seq<bv8>)
    returns (r': Regs, w: seq<bv32>)
    requires |data| == 64 && t <= 56 && r == Rounds(s, data, t) && Ready(w0, t, data)
    ensures r' == Rounds(s, data, t + 8) && Ready(w, t + 8, data)
  {
    hide Rounds, Ready;
    w := w0;
    var a, b, c, d, e, f, g, h := r.a, r.b, r.c, r.d, r.e, r.f, r.g, r.h;
    d, h, w := Step(a, b, c, d, e, f, g, h, w, t, s, data);
    c, g, w := Step(h, a, b, c, d, e, f, g, w, t + 1, s, data);
    b, f, w := Step(g, h, a, b, c, d, e, f, w, t + 2, s, data);
    a, e, w := Step(f, g, h, a, b, c, d, e, w, t + 3, s, data);
    h, d, w := Step(e, f, g, h, a, b, c, d, w, t + 4, s, data);
    g, c, w := Step(d, e, f, g, h, a, b, c, w, t + 5, s, data);
    f, b, w := Step(c, d, e, f, g, h, a, b, w, t + 6, s, data);
    e, a, w := Step(b, c, d, e, f, g, h, a, w, t + 7, s, data);
    r' := Regs(a, b, c, d, e, f, g, h);
  }

  /** sha256_process; the source writes the eight groups of lines out. */
  method Process(state: Regs, data: seq<bv8>) returns (r: Regs)
    requires |data| == 64
    ensures r == Compress(state, data)
  {
    hide Rounds, Ready;
    var w := LoadWords(data);
    r := state;
    assert r == Rounds(state, data, 0) by { NoRounds(state, data); }
    for i := 0 to 8
      invariant r == Rounds(state, data, 8 * i) && Ready(w, 8 * i, data)
    {
      r, w := Eight(r, w, 8 * i, state, data);
    }
    r := Regs(Add(state.a, r.a), Add(state.b, r.b), Add(state.c, r.c), Add(state.d, r.d),
              Add(state.e, r.e), Add(state.f, r.f), Add(state.g, r.g), Add(state.h, r.h));
  }

  lemma NoRounds(s: Regs, block: seq<bv8>)
    requires |block| == 64
    ensures Rounds(s, block, 0) == s
  {
  }

  /** The sixteen `GET_UINT32` lines. */
  method LoadWords(data: seq<bv8>) returns (w: seq<bv32>)
    requires |data| == 64
    ensures Ready(w, 0, data)
  {
    hide Word;
    w := seq(64, _ => 0);
    for t := 0 to 16
      invariant |w| == 64 && w[..t] == Schedule(data, t)
    {
      w := w[t := Word(data, t)];
      assert w[..t + 1] == Schedule(data, t) + [Word(data, t)];
    }
    SchedulePrefix(data, 16, 64);
  }
}
