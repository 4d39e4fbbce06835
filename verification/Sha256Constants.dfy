/** Where the constants of SHA-256 come from (sections 4.2.2 and 5.3.2 of FIPS 180-2): the first 32 bits
    behind the point of the roots of the first primes. */
module Sha256Constants {
  import opened Sha256

  const TWO32: nat := 0x1_0000_0000

  /** The cube root of p has the whole part a and, behind the point, the 32 bits k first. */
  predicate CubeRoot(p: nat, a: nat, k: bv32) {
    var x := a * TWO32 + k as nat;
    x * x * x <= p * (TWO32 * TWO32 * TWO32) < (x + 1) * (x + 1) * (x + 1)
  }

  /** The same for the square root. */
  predicate SquareRoot(p: nat, a: nat, k: bv32) {
    var x := a * TWO32 + k as nat;
    x * x <= p * (TWO32 * TWO32) < (x + 1) * (x + 1)
  }

  /** The initial registers are the fractions of the square roots of the first eight primes. */
  lemma InitialRegisters()
    ensures SquareRoot(2, 1, H0.a) && SquareRoot(3, 1, H0.b) && SquareRoot(5, 2, H0.c) && SquareRoot(7, 2, H0.d)
    ensures SquareRoot(11, 3, H0.e) && SquareRoot(13, 3, H0.f) && SquareRoot(17, 4, H0.g) && SquareRoot(19, 4, H0.h)
  {
  }

  // The constants of the rounds are those of the cube roots of the first 64 primes.

  lemma RoundConstants0()
    ensures CubeRoot(2, 1, K(0)) && CubeRoot(3, 1, K(1)) && CubeRoot(5, 1, K(2)) && CubeRoot(7, 1, K(3))
    ensures CubeRoot(11, 2, K(4)) && CubeRoot(13, 2, K(5)) && CubeRoot(17, 2, K(6)) && CubeRoot(19, 2, K(7))
  {
    assert CubeRoot(2, 1, 0x428A2F98);
    assert CubeRoot(3, 1, 0x71374491);
    assert CubeRoot(5, 1, 0xB5C0FBCF);
    assert CubeRoot(7, 1, 0xE9B5DBA5);
    assert CubeRoot(11, 2, 0x3956C25B);
    assert CubeRoot(13, 2, 0x59F111F1);
    assert CubeRoot(17, 2, 0x923F82A4);
    assert CubeRoot(19, 2, 0xAB1C5ED5);
    hide CubeRoot;
  }

  lemma RoundConstants1()
    ensures CubeRoot(23, 2, K(8)) && CubeRoot(29, 3, K(9)) && CubeRoot(31, 3, K(10)) && CubeRoot(37, 3, K(11))
    ensures CubeRoot(41, 3, K(12)) && CubeRoot(43, 3, K(13)) && CubeRoot(47, 3, K(14)) && CubeRoot(53, 3, K(15))
  {
    assert CubeRoot(23, 2, 0xD807AA98);
    assert CubeRoot(29, 3, 0x12835B01);
    assert CubeRoot(31, 3, 0x243185BE);
    assert CubeRoot(37, 3, 0x550C7DC3);
    assert CubeRoot(41, 3, 0x72BE5D74);
    assert CubeRoot(43, 3, 0x80DEB1FE);
    assert CubeRoot(47, 3, 0x9BDC06A7);
    assert CubeRoot(53, 3, 0xC19BF174);
    hide CubeRoot;
  }

  lemma RoundConstants2()
    ensures CubeRoot(59, 3, K(16)) && CubeRoot(61, 3, K(17)) && CubeRoot(67, 4, K(18)) && CubeRoot(71, 4, K(19))
    ensures CubeRoot(73, 4, K(20)) && CubeRoot(79, 4, K(21)) && CubeRoot(83, 4, K(22)) && CubeRoot(89, 4, K(23))
  {
    assert CubeRoot(59, 3, 0xE49B69C1);
    assert CubeRoot(61, 3, 0xEFBE4786);
    assert CubeRoot(67, 4, 0x0FC19DC6);
    assert CubeRoot(71, 4, 0x240CA1CC);
    assert CubeRoot(73, 4, 0x2DE92C6F);
    assert CubeRoot(79, 4, 0x4A7484AA);
    assert CubeRoot(83, 4, 0x5CB0A9DC);
    assert CubeRoot(89, 4, 0x76F988DA);
    hide CubeRoot;
  }

  lemma RoundConstants3()
    ensures CubeRoot(97, 4, K(24)) && CubeRoot(101, 4, K(25)) && CubeRoot(103, 4, K(26)) && CubeRoot(107, 4, K(27))
    ensures CubeRoot(109, 4, K(28)) && CubeRoot(113, 4, K(29)) && CubeRoot(127, 5, K(30)) && CubeRoot(131, 5, K(31))
  {
    assert CubeRoot(97, 4, 0x983E5152);
    assert CubeRoot(101, 4, 0xA831C66D);
    assert CubeRoot(103, 4, 0xB00327C8);
    assert CubeRoot(107, 4, 0xBF597FC7);
    assert CubeRoot(109, 4, 0xC6E00BF3);
    assert CubeRoot(113, 4, 0xD5A79147);
    assert CubeRoot(127, 5, 0x06CA6351);
    assert CubeRoot(131, 5, 0x14292967);
    hide CubeRoot;
  }

  lemma RoundConstants4()
    ensures CubeRoot(137, 5, K(32)) && CubeRoot(139, 5, K(33)) && CubeRoot(149, 5, K(34)) && CubeRoot(151, 5, K(35))
    ensures CubeRoot(157, 5, K(36)) && CubeRoot(163, 5, K(37)) && CubeRoot(167, 5, K(38)) && CubeRoot(173, 5, K(39))
  {
    assert CubeRoot(137, 5, 0x27B70A85);
    assert CubeRoot(139, 5, 0x2E1B2138);
    assert CubeRoot(149, 5, 0x4D2C6DFC);
    assert CubeRoot(151, 5, 0x53380D13);
    assert CubeRoot(157, 5, 0x650A7354);
    assert CubeRoot(163, 5, 0x766A0ABB);
    assert CubeRoot(167, 5, 0x81C2C92E);
    assert CubeRoot(173, 5, 0x92722C85);
    hide CubeRoot;
  }

  lemma RoundConstants5()
    ensures CubeRoot(179, 5, K(40)) && CubeRoot(181, 5, K(41)) && CubeRoot(191, 5, K(42)) && CubeRoot(193, 5, K(43))
    ensures CubeRoot(197, 5, K(44)) && CubeRoot(199, 5, K(45)) && CubeRoot(211, 5, K(46)) && CubeRoot(223, 6, K(47))
  {
    assert CubeRoot(179, 5, 0xA2BFE8A1);
    assert CubeRoot(181, 5, 0xA81A664B);
    assert CubeRoot(191, 5, 0xC24B8B70);
    assert CubeRoot(193, 5, 0xC76C51A3);
    assert CubeRoot(197, 5, 0xD192E819);
    assert CubeRoot(199, 5, 0xD6990624);
    assert CubeRoot(211, 5, 0xF40E3585);
    assert CubeRoot(223, 6, 0x106AA070);
    hide CubeRoot;
  }

  lemma RoundConstants6()
    ensures CubeRoot(227, 6, K(48)) && CubeRoot(229, 6, K(49)) && CubeRoot(233, 6, K(50)) && CubeRoot(239, 6, K(51))
    ensures CubeRoot(241, 6, K(52)) && CubeRoot(251, 6, K(53)) && CubeRoot(257, 6, K(54)) && CubeRoot(263, 6, K(55))
  {
    assert CubeRoot(227, 6, 0x19A4C116);
    assert CubeRoot(229, 6, 0x1E376C08);
    assert CubeRoot(233, 6, 0x2748774C);
    assert CubeRoot(239, 6, 0x34B0BCB5);
    assert CubeRoot(241, 6, 0x391C0CB3);
    assert CubeRoot(251, 6, 0x4ED8AA4A);
    assert CubeRoot(257, 6, 0x5B9CCA4F);
    assert CubeRoot(263, 6, 0x682E6FF3);
    hide CubeRoot;
  }

  lemma RoundConstants7()
    ensures CubeRoot(269, 6, K(56)) && CubeRoot(271, 6, K(57)) && CubeRoot(277, 6, K(58)) && CubeRoot(281, 6, K(59))
    ensures CubeRoot(283, 6, K(60)) && CubeRoot(293, 6, K(61)) && CubeRoot(307, 6, K(62)) && CubeRoot(311, 6, K(63))
  {
    assert CubeRoot(269, 6, 0x748F82EE);
    assert CubeRoot(271, 6, 0x78A5636F);
    assert CubeRoot(277, 6, 0x84C87814);
    assert CubeRoot(281, 6, 0x8CC70208);
    assert CubeRoot(283, 6, 0x90BEFFFA);
    assert CubeRoot(293, 6, 0xA4506CEB);
    assert CubeRoot(307, 6, 0xBEF9A3F7);
    assert CubeRoot(311, 6, 0xC67178F2);
    hide CubeRoot;
  }
}
