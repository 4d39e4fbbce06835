/** The example of appendix B.1 of FIPS 180-2, worked through: the digest of "abc". Every rotation, every
    constant and the order of the bytes show in it. */
module Sha256Example {
  import opened Sha256

  /** The one block of the padded message. */
  const ABC: seq<bv8> := [0x61, 0x62, 0x63, 0x80] + Zeros(59) + [0x18]

  /** Word t of its schedule is w. */
  ghost predicate WordAt(t: nat, w: bv32) {
    t < 64 && Schedule(ABC, t + 1)[t] == w
  }

  /** The registers after t rounds are r. */
  ghost predicate After(t: nat, r: Regs) {
    t <= 64 && Rounds(H0, ABC, t) == r
  }

  lemma {:induction false} Prefix(t: nat, n: nat)
    requires t < n <= 64
    ensures Schedule(ABC, n)[t] == Schedule(ABC, t + 1)[t]
    decreases n
  {
    hide SmallSigma0, SmallSigma1, Sum4, Word;
    if t + 1 < n { Prefix(t, n - 1); }
  }

  lemma NextWord(t: nat, w2: bv32, w7: bv32, w15: bv32, w16: bv32)
    requires 16 <= t < 64 && WordAt(t - 2, w2) && WordAt(t - 7, w7) && WordAt(t - 15, w15) && WordAt(t - 16, w16)
    ensures WordAt(t, Sum4(SmallSigma1(w2), w7, SmallSigma0(w15), w16))
  {
    hide SmallSigma0, SmallSigma1, Sum4, Word;
    Prefix(t - 2, t);
    Prefix(t - 7, t);
    Prefix(t - 15, t);
    Prefix(t - 16, t);
  }

  lemma NextRound(t: nat, r: Regs, w: bv32)
    requires t < 64 && After(t, r) && WordAt(t, w)
    ensures After(t + 1, Round(r, K(t), w))
  {
    hide Round, K, Schedule;
  }

  lemma FirstWords()
    ensures WordAt(0, 0x61626380) && (forall t :: 1 <= t < 15 ==> WordAt(t, 0)) && WordAt(15, 0x18)
  {
    assert Word(ABC, 0) == 0x61626380 && Word(ABC, 15) == 0x18;
    forall t | 1 <= t < 15 ensures WordAt(t, 0) {
      BlankWord(t);
    }
  }

  lemma BlankWord(t: nat)
    requires 1 <= t < 15
    ensures Word(ABC, t) == 0
  {
    assert ABC[4 * t] == ABC[4 * t + 1] == ABC[4 * t + 2] == ABC[4 * t + 3] == 0;
  }

  lemma Words0()
    ensures WordAt(0, 0x61626380) && WordAt(1, 0x00000000) && WordAt(2, 0x00000000) && WordAt(3, 0x00000000)
    ensures WordAt(4, 0x00000000) && WordAt(5, 0x00000000) && WordAt(6, 0x00000000) && WordAt(7, 0x00000000)
  {
    FirstWords();
    hide WordAt;
  }

  lemma Words1()
    ensures WordAt(8, 0x00000000) && WordAt(9, 0x00000000) && WordAt(10, 0x00000000) && WordAt(11, 0x00000000)
    ensures WordAt(12, 0x00000000) && WordAt(13, 0x00000000) && WordAt(14, 0x00000000) && WordAt(15, 0x00000018)
  {
    FirstWords();
    hide WordAt;
  }

  lemma Words2()
    ensures WordAt(16, 0x61626380) && WordAt(17, 0x000F0000) && WordAt(18, 0x7DA86405) && WordAt(19, 0x600003C6)
    ensures WordAt(20, 0x3E9D7B78) && WordAt(21, 0x0183FC00) && WordAt(22, 0x12DCBFDB) && WordAt(23, 0xE2E2C38E)
  {
    FirstWords();
    hide WordAt;
    NextWord(16, 0x00000000, 0x00000000, 0x00000000, 0x61626380);
    NextWord(17, 0x00000018, 0x00000000, 0x00000000, 0x00000000);
    NextWord(18, 0x61626380, 0x00000000, 0x00000000, 0x00000000);
    NextWord(19, 0x000F0000, 0x00000000, 0x00000000, 0x00000000);
    NextWord(20, 0x7DA86405, 0x00000000, 0x00000000, 0x00000000);
    NextWord(21, 0x600003C6, 0x00000000, 0x00000000, 0x00000000);
    NextWord(22, 0x3E9D7B78, 0x00000018, 0x00000000, 0x00000000);
    NextWord(23, 0x0183FC00, 0x61626380, 0x00000000, 0x00000000);
  }

  lemma Words3()
    ensures WordAt(24, 0xC8215C1A) && WordAt(25, 0xB73679A2) && WordAt(26, 0xE5BC3909) && WordAt(27, 0x32663C5B)
    ensures WordAt(28, 0x9D209D67) && WordAt(29, 0xEC8726CB) && WordAt(30, 0x702138A4) && WordAt(31, 0xD3B7973B)
  {
    FirstWords();
    Words2();
    hide WordAt;
    NextWord(24, 0x12DCBFDB, 0x000F0000, 0x00000000, 0x00000000);
    NextWord(25, 0xE2E2C38E, 0x7DA86405, 0x00000000, 0x00000000);
    NextWord(26, 0xC8215C1A, 0x600003C6, 0x00000000, 0x00000000);
    NextWord(27, 0xB73679A2, 0x3E9D7B78, 0x00000000, 0x00000000);
    NextWord(28, 0xE5BC3909, 0x0183FC00, 0x00000000, 0x00000000);
    NextWord(29, 0x32663C5B, 0x12DCBFDB, 0x00000000, 0x00000000);
    NextWord(30, 0x9D209D67, 0xE2E2C38E, 0x00000018, 0x00000000);
    NextWord(31, 0xEC8726CB, 0xC8215C1A, 0x61626380, 0x00000018);
  }

  lemma Words4()
    ensures WordAt(32, 0x93F5997F) && WordAt(33, 0x3B68BA73) && WordAt(34, 0xAFF4FFC1) && WordAt(35, 0xF10A5C62)
    ensures WordAt(36, 0x0A8B3996) && WordAt(37, 0x72AF830A) && WordAt(38, 0x9409E33E) && WordAt(39, 0x24641522)
  {
    Words2();
    Words3();
    hide WordAt;
    NextWord(32, 0x702138A4, 0xB73679A2, 0x000F0000, 0x61626380);
    NextWord(33, 0xD3B7973B, 0xE5BC3909, 0x7DA86405, 0x000F0000);
    NextWord(34, 0x93F5997F, 0x32663C5B, 0x600003C6, 0x7DA86405);
    NextWord(35, 0x3B68BA73, 0x9D209D67, 0x3E9D7B78, 0x600003C6);
    NextWord(36, 0xAFF4FFC1, 0xEC8726CB, 0x0183FC00, 0x3E9D7B78);
    NextWord(37, 0xF10A5C62, 0x702138A4, 0x12DCBFDB, 0x0183FC00);
    NextWord(38, 0x0A8B3996, 0xD3B7973B, 0xE2E2C38E, 0x12DCBFDB);
    NextWord(39, 0x72AF830A, 0x93F5997F, 0xC8215C1A, 0xE2E2C38E);
  }

  lemma Words5()
    ensures WordAt(40, 0x9F47BF94) && WordAt(41, 0xF0A64F5A) && WordAt(42, 0x3E246A79) && WordAt(43, 0x27333BA3)
    ensures WordAt(44, 0x0C4763F2) && WordAt(45, 0x840ABF27) && WordAt(46, 0x7A290D5D) && WordAt(47, 0x065C43DA)
  {
    Words3();
    Words4();
    hide WordAt;
    NextWord(40, 0x9409E33E, 0x3B68BA73, 0xB73679A2, 0xC8215C1A);
    NextWord(41, 0x24641522, 0xAFF4FFC1, 0xE5BC3909, 0xB73679A2);
    NextWord(42, 0x9F47BF94, 0xF10A5C62, 0x32663C5B, 0xE5BC3909);
    NextWord(43, 0xF0A64F5A, 0x0A8B3996, 0x9D209D67, 0x32663C5B);
    NextWord(44, 0x3E246A79, 0x72AF830A, 0xEC8726CB, 0x9D209D67);
    NextWord(45, 0x27333BA3, 0x9409E33E, 0x702138A4, 0xEC8726CB);
    NextWord(46, 0x0C4763F2, 0x24641522, 0xD3B7973B, 0x702138A4);
    NextWord(47, 0x840ABF27, 0x9F47BF94, 0x93F5997F, 0xD3B7973B);
  }

  lemma Words6()
    ensures WordAt(48, 0xFB3E89CB) && WordAt(49, 0xCC7617DB) && WordAt(50, 0xB9E66C34) && WordAt(51, 0xA9993667)
    ensures WordAt(52, 0x84BADEDD) && WordAt(53, 0xC21462BC) && WordAt(54, 0x1487472C) && WordAt(55, 0xB20F7A99)
  {
    Words4();
    Words5();
    hide WordAt;
    NextWord(48, 0x7A290D5D, 0xF0A64F5A, 0x3B68BA73, 0x93F5997F);
    NextWord(49, 0x065C43DA, 0x3E246A79, 0xAFF4FFC1, 0x3B68BA73);
    NextWord(50, 0xFB3E89CB, 0x27333BA3, 0xF10A5C62, 0xAFF4FFC1);
    NextWord(51, 0xCC7617DB, 0x0C4763F2, 0x0A8B3996, 0xF10A5C62);
    NextWord(52, 0xB9E66C34, 0x840ABF27, 0x72AF830A, 0x0A8B3996);
    NextWord(53, 0xA9993667, 0x7A290D5D, 0x9409E33E, 0x72AF830A);
    NextWord(54, 0x84BADEDD, 0x065C43DA, 0x24641522, 0x9409E33E);
    NextWord(55, 0xC21462BC, 0xFB3E89CB, 0x9F47BF94, 0x24641522);
  }

  lemma Words7()
    ensures WordAt(56, 0xEF57B9CD) && WordAt(57, 0xEBE6B238) && WordAt(58, 0x9FE3095E) && WordAt(59, 0x78BC8D4B)
    ensures WordAt(60, 0xA43FCF15) && WordAt(61, 0x668B2FF8) && WordAt(62, 0xEEABA2CC) && WordAt(63, 0x12B1EDEB)
  {
    Words5();
    Words6();
    hide WordAt;
    NextWord(56, 0x1487472C, 0xCC7617DB, 0xF0A64F5A, 0x9F47BF94);
    NextWord(57, 0xB20F7A99, 0xB9E66C34, 0x3E246A79, 0xF0A64F5A);
    NextWord(58, 0xEF57B9CD, 0xA9993667, 0x27333BA3, 0x3E246A79);
    NextWord(59, 0xEBE6B238, 0x84BADEDD, 0x0C4763F2, 0x27333BA3);
    NextWord(60, 0x9FE3095E, 0xC21462BC, 0x840ABF27, 0x0C4763F2);
    NextWord(61, 0x78BC8D4B, 0x1487472C, 0x7A290D5D, 0x840ABF27);
    NextWord(62, 0xA43FCF15, 0xB20F7A99, 0x065C43DA, 0x7A290D5D);
    NextWord(63, 0x668B2FF8, 0xEF57B9CD, 0xFB3E89CB, 0x065C43DA);
  }

  lemma Rounds0()
    ensures After(8, Regs(0x85A07B5F, 0xE5030380, 0x2B4209F5, 0x04409A6A,
                          0x0C657A79, 0x9B27A401, 0x714260AD, 0x43ADA245))
  {
    Words0();
    FirstRegisters();
    hide After, WordAt;
    NextRound(0, Regs(0x6A09E667, 0xBB67AE85, 0x3C6EF372, 0xA54FF53A,
                       0x510E527F, 0x9B05688C, 0x1F83D9AB, 0x5BE0CD19), 0x61626380);
    NextRound(1, Regs(0x5D6AEBCD, 0x6A09E667, 0xBB67AE85, 0x3C6EF372,
                       0xFA2A4622, 0x510E527F, 0x9B05688C, 0x1F83D9AB), 0x00000000);
    NextRound(2, Regs(0x5A6AD9AD, 0x5D6AEBCD, 0x6A09E667, 0xBB67AE85,
                       0x78CE7989, 0xFA2A4622, 0x510E527F, 0x9B05688C), 0x00000000);
    NextRound(3, Regs(0xC8C347A7, 0x5A6AD9AD, 0x5D6AEBCD, 0x6A09E667,
                       0xF92939EB, 0x78CE7989, 0xFA2A4622, 0x510E527F), 0x00000000);
    NextRound(4, Regs(0xD550F666, 0xC8C347A7, 0x5A6AD9AD, 0x5D6AEBCD,
                       0x24E00850, 0xF92939EB, 0x78CE7989, 0xFA2A4622), 0x00000000);
    NextRound(5, Regs(0x04409A6A, 0xD550F666, 0xC8C347A7, 0x5A6AD9AD,
                       0x43ADA245, 0x24E00850, 0xF92939EB, 0x78CE7989), 0x00000000);
    NextRound(6, Regs(0x2B4209F5, 0x04409A6A, 0xD550F666, 0xC8C347A7,
                       0x714260AD, 0x43ADA245, 0x24E00850, 0xF92939EB), 0x00000000);
    NextRound(7, Regs(0xE5030380, 0x2B4209F5, 0x04409A6A, 0xD550F666,
                       0x9B27A401, 0x714260AD, 0x43ADA245, 0x24E00850), 0x00000000);
  }

  lemma Rounds1()
    ensures After(16, Regs(0xB0FA238E, 0xC0645FDE, 0xD932EB16, 0x87912990,
                          0x07590DCD, 0x0B92F20C, 0x745A48DE, 0x1E578218))
  {
    Words1();
    Rounds0();
    hide After, WordAt;
    NextRound(8, Regs(0x85A07B5F, 0xE5030380, 0x2B4209F5, 0x04409A6A,
                       0x0C657A79, 0x9B27A401, 0x714260AD, 0x43ADA245), 0x00000000);
    NextRound(9, Regs(0x8E04ECB9, 0x85A07B5F, 0xE5030380, 0x2B4209F5,
                       0x32CA2D8C, 0x0C657A79, 0x9B27A401, 0x714260AD), 0x00000000);
    NextRound(10, Regs(0x8C87346B, 0x8E04ECB9, 0x85A07B5F, 0xE5030380,
                       0x1CC92596, 0x32CA2D8C, 0x0C657A79, 0x9B27A401), 0x00000000);
    NextRound(11, Regs(0x4798A3F4, 0x8C87346B, 0x8E04ECB9, 0x85A07B5F,
                       0x436B23E8, 0x1CC92596, 0x32CA2D8C, 0x0C657A79), 0x00000000);
    NextRound(12, Regs(0xF71FC5A9, 0x4798A3F4, 0x8C87346B, 0x8E04ECB9,
                       0x816FD6E9, 0x436B23E8, 0x1CC92596, 0x32CA2D8C), 0x00000000);
    NextRound(13, Regs(0x87912990, 0xF71FC5A9, 0x4798A3F4, 0x8C87346B,
                       0x1E578218, 0x816FD6E9, 0x436B23E8, 0x1CC92596), 0x00000000);
    NextRound(14, Regs(0xD932EB16, 0x87912990, 0xF71FC5A9, 0x4798A3F4,
                       0x745A48DE, 0x1E578218, 0x816FD6E9, 0x436B23E8), 0x00000000);
    NextRound(15, Regs(0xC0645FDE, 0xD932EB16, 0x87912990, 0xF71FC5A9,
                       0x0B92F20C, 0x745A48DE, 0x1E578218, 0x816FD6E9), 0x00000018);
  }

  lemma Rounds2()
    ensures After(24, Regs(0xC5D53D8D, 0xA7A3623F, 0xC2606D6D, 0x9DC68B63,
                          0xAA47C347, 0x49F5114A, 0xE1257970, 0x8ADA8930))
  {
    Words2();
    Rounds1();
    hide After, WordAt;
    NextRound(16, Regs(0xB0FA238E, 0xC0645FDE, 0xD932EB16, 0x87912990,
                       0x07590DCD, 0x0B92F20C, 0x745A48DE, 0x1E578218), 0x61626380);
    NextRound(17, Regs(0x21DA9A9B, 0xB0FA238E, 0xC0645FDE, 0xD932EB16,
                       0x8034229C, 0x07590DCD, 0x0B92F20C, 0x745A48DE), 0x000F0000);
    NextRound(18, Regs(0xC2FBD9D1, 0x21DA9A9B, 0xB0FA238E, 0xC0645FDE,
                       0x846EE454, 0x8034229C, 0x07590DCD, 0x0B92F20C), 0x7DA86405);
    NextRound(19, Regs(0xFE777BBF, 0xC2FBD9D1, 0x21DA9A9B, 0xB0FA238E,
                       0xCC899961, 0x846EE454, 0x8034229C, 0x07590DCD), 0x600003C6);
    NextRound(20, Regs(0xE1F20C33, 0xFE777BBF, 0xC2FBD9D1, 0x21DA9A9B,
                       0xB0638179, 0xCC899961, 0x846EE454, 0x8034229C), 0x3E9D7B78);
    NextRound(21, Regs(0x9DC68B63, 0xE1F20C33, 0xFE777BBF, 0xC2FBD9D1,
                       0x8ADA8930, 0xB0638179, 0xCC899961, 0x846EE454), 0x0183FC00);
    NextRound(22, Regs(0xC2606D6D, 0x9DC68B63, 0xE1F20C33, 0xFE777BBF,
                       0xE1257970, 0x8ADA8930, 0xB0638179, 0xCC899961), 0x12DCBFDB);
    NextRound(23, Regs(0xA7A3623F, 0xC2606D6D, 0x9DC68B63, 0xE1F20C33,
                       0x49F5114A, 0xE1257970, 0x8ADA8930, 0xB0638179), 0xE2E2C38E);
  }

  lemma Rounds3()
    ensures After(32, Regs(0x73B33BF5, 0xEA992A22, 0xA0060B30, 0x363482C9,
                          0xBA591112, 0x0109AB3A, 0xADE79437, 0x6112A3B7))
  {
    Words3();
    Rounds2();
    hide After, WordAt;
    NextRound(24, Regs(0xC5D53D8D, 0xA7A3623F, 0xC2606D6D, 0x9DC68B63,
                       0xAA47C347, 0x49F5114A, 0xE1257970, 0x8ADA8930), 0xC8215C1A);
    NextRound(25, Regs(0x1C2C2838, 0xC5D53D8D, 0xA7A3623F, 0xC2606D6D,
                       0x2823EF91, 0xAA47C347, 0x49F5114A, 0xE1257970), 0xB73679A2);
    NextRound(26, Regs(0xCDE8037D, 0x1C2C2838, 0xC5D53D8D, 0xA7A3623F,
                       0x14383D8E, 0x2823EF91, 0xAA47C347, 0x49F5114A), 0xE5BC3909);
    NextRound(27, Regs(0xB62EC4BC, 0xCDE8037D, 0x1C2C2838, 0xC5D53D8D,
                       0xC74C6516, 0x14383D8E, 0x2823EF91, 0xAA47C347), 0x32663C5B);
    NextRound(28, Regs(0x77D37528, 0xB62EC4BC, 0xCDE8037D, 0x1C2C2838,
                       0xEDFFBFF8, 0xC74C6516, 0x14383D8E, 0x2823EF91), 0x9D209D67);
    NextRound(29, Regs(0x363482C9, 0x77D37528, 0xB62EC4BC, 0xCDE8037D,
                       0x6112A3B7, 0xEDFFBFF8, 0xC74C6516, 0x14383D8E), 0xEC8726CB);
    NextRound(30, Regs(0xA0060B30, 0x363482C9, 0x77D37528, 0xB62EC4BC,
                       0xADE79437, 0x6112A3B7, 0xEDFFBFF8, 0xC74C6516), 0x702138A4);
    NextRound(31, Regs(0xEA992A22, 0xA0060B30, 0x363482C9, 0x77D37528,
                       0x0109AB3A, 0xADE79437, 0x6112A3B7, 0xEDFFBFF8), 0xD3B7973B);
  }

  lemma Rounds4()
    ensures After(40, Regs(0x79EA687A, 0x6DC57A8A, 0x34DF1604, 0x41A65CB1,
                          0x1EFBC0A0, 0xF0781BC8, 0xA507A53D, 0x0772A26B))
  {
    Words4();
    Rounds3();
    hide After, WordAt;
    NextRound(32, Regs(0x73B33BF5, 0xEA992A22, 0xA0060B30, 0x363482C9,
                       0xBA591112, 0x0109AB3A, 0xADE79437, 0x6112A3B7), 0x93F5997F);
    NextRound(33, Regs(0x98E12507, 0x73B33BF5, 0xEA992A22, 0xA0060B30,
                       0x9CD9F5F6, 0xBA591112, 0x0109AB3A, 0xADE79437), 0x3B68BA73);
    NextRound(34, Regs(0xFE604DF5, 0x98E12507, 0x73B33BF5, 0xEA992A22,
                       0x59249DD3, 0x9CD9F5F6, 0xBA591112, 0x0109AB3A), 0xAFF4FFC1);
    NextRound(35, Regs(0xA9A7738C, 0xFE604DF5, 0x98E12507, 0x73B33BF5,
                       0x085F3833, 0x59249DD3, 0x9CD9F5F6, 0xBA591112), 0xF10A5C62);
    NextRound(36, Regs(0x65A0CFE4, 0xA9A7738C, 0xFE604DF5, 0x98E12507,
                       0xF4B002D6, 0x085F3833, 0x59249DD3, 0x9CD9F5F6), 0x0A8B3996);
    NextRound(37, Regs(0x41A65CB1, 0x65A0CFE4, 0xA9A7738C, 0xFE604DF5,
                       0x0772A26B, 0xF4B002D6, 0x085F3833, 0x59249DD3), 0x72AF830A);
    NextRound(38, Regs(0x34DF1604, 0x41A65CB1, 0x65A0CFE4, 0xA9A7738C,
                       0xA507A53D, 0x0772A26B, 0xF4B002D6, 0x085F3833), 0x9409E33E);
    NextRound(39, Regs(0x6DC57A8A, 0x34DF1604, 0x41A65CB1, 0x65A0CFE4,
                       0xF0781BC8, 0xA507A53D, 0x0772A26B, 0xF4B002D6), 0x24641522);
  }

  lemma Rounds5()
    ensures After(48, Regs(0x4172328D, 0xA14C14B0, 0x72AB4B91, 0x26628815,
                          0xFECF0BC6, 0xD57B94A9, 0xB7755DA1, 0xA80F11F0))
  {
    Words5();
    Rounds4();
    hide After, WordAt;
    NextRound(40, Regs(0x79EA687A, 0x6DC57A8A, 0x34DF1604, 0x41A65CB1,
                       0x1EFBC0A0, 0xF0781BC8, 0xA507A53D, 0x0772A26B), 0x9F47BF94);
    NextRound(41, Regs(0xD6670766, 0x79EA687A, 0x6DC57A8A, 0x34DF1604,
                       0x26352D63, 0x1EFBC0A0, 0xF0781BC8, 0xA507A53D), 0xF0A64F5A);
    NextRound(42, Regs(0xDF46652F, 0xD6670766, 0x79EA687A, 0x6DC57A8A,
                       0x838B2711, 0x26352D63, 0x1EFBC0A0, 0xF0781BC8), 0x3E246A79);
    NextRound(43, Regs(0x17AA0DFE, 0xDF46652F, 0xD6670766, 0x79EA687A,
                       0xDECD4715, 0x838B2711, 0x26352D63, 0x1EFBC0A0), 0x27333BA3);
    NextRound(44, Regs(0x9D4BAF93, 0x17AA0DFE, 0xDF46652F, 0xD6670766,
                       0xFDA24C2E, 0xDECD4715, 0x838B2711, 0x26352D63), 0x0C4763F2);
    NextRound(45, Regs(0x26628815, 0x9D4BAF93, 0x17AA0DFE, 0xDF46652F,
                       0xA80F11F0, 0xFDA24C2E, 0xDECD4715, 0x838B2711), 0x840ABF27);
    NextRound(46, Regs(0x72AB4B91, 0x26628815, 0x9D4BAF93, 0x17AA0DFE,
                       0xB7755DA1, 0xA80F11F0, 0xFDA24C2E, 0xDECD4715), 0x7A290D5D);
    NextRound(47, Regs(0xA14C14B0, 0x72AB4B91, 0x26628815, 0x9D4BAF93,
                       0xD57B94A9, 0xB7755DA1, 0xA80F11F0, 0xFDA24C2E), 0x065C43DA);
  }

  lemma Rounds6()
    ensures After(56, Regs(0x38CC9913, 0x3EC45CDB, 0xF5702FDB, 0x101FD28F,
                          0x54CB266B, 0xE50E1B4F, 0x9F4787C3, 0x529E7D00))
  {
    Words6();
    Rounds5();
    hide After, WordAt;
    NextRound(48, Regs(0x4172328D, 0xA14C14B0, 0x72AB4B91, 0x26628815,
                       0xFECF0BC6, 0xD57B94A9, 0xB7755DA1, 0xA80F11F0), 0xFB3E89CB);
    NextRound(49, Regs(0x05757CEB, 0x4172328D, 0xA14C14B0, 0x72AB4B91,
                       0xBD714038, 0xFECF0BC6, 0xD57B94A9, 0xB7755DA1), 0xCC7617DB);
    NextRound(50, Regs(0xF11BFAA8, 0x05757CEB, 0x4172328D, 0xA14C14B0,
                       0x6E5C390C, 0xBD714038, 0xFECF0BC6, 0xD57B94A9), 0xB9E66C34);
    NextRound(51, Regs(0x7A0508A1, 0xF11BFAA8, 0x05757CEB, 0x4172328D,
                       0x52F1CCF7, 0x6E5C390C, 0xBD714038, 0xFECF0BC6), 0xA9993667);
    NextRound(52, Regs(0x886E7A22, 0x7A0508A1, 0xF11BFAA8, 0x05757CEB,
                       0x49231C1E, 0x52F1CCF7, 0x6E5C390C, 0xBD714038), 0x84BADEDD);
    NextRound(53, Regs(0x101FD28F, 0x886E7A22, 0x7A0508A1, 0xF11BFAA8,
                       0x529E7D00, 0x49231C1E, 0x52F1CCF7, 0x6E5C390C), 0xC21462BC);
    NextRound(54, Regs(0xF5702FDB, 0x101FD28F, 0x886E7A22, 0x7A0508A1,
                       0x9F4787C3, 0x529E7D00, 0x49231C1E, 0x52F1CCF7), 0x1487472C);
    NextRound(55, Regs(0x3EC45CDB, 0xF5702FDB, 0x101FD28F, 0x886E7A22,
                       0xE50E1B4F, 0x9F4787C3, 0x529E7D00, 0x49231C1E), 0xB20F7A99);
  }

  lemma Rounds7()
    ensures After(64, Regs(0x506E3058, 0xD39A2165, 0x04D24D6C, 0xB85E2CE9,
                          0x5EF50F24, 0xFB121210, 0x948D25B6, 0x961F4894))
  {
    Words7();
    Rounds6();
    hide After, WordAt;
    NextRound(56, Regs(0x38CC9913, 0x3EC45CDB, 0xF5702FDB, 0x101FD28F,
                       0x54CB266B, 0xE50E1B4F, 0x9F4787C3, 0x529E7D00), 0xEF57B9CD);
    NextRound(57, Regs(0xFCD1887B, 0x38CC9913, 0x3EC45CDB, 0xF5702FDB,
                       0x9B5E906C, 0x54CB266B, 0xE50E1B4F, 0x9F4787C3), 0xEBE6B238);
    NextRound(58, Regs(0xC062D46F, 0xFCD1887B, 0x38CC9913, 0x3EC45CDB,
                       0x7E44008E, 0x9B5E906C, 0x54CB266B, 0xE50E1B4F), 0x9FE3095E);
    NextRound(59, Regs(0xFFB70472, 0xC062D46F, 0xFCD1887B, 0x38CC9913,
                       0x6D83BFC6, 0x7E44008E, 0x9B5E906C, 0x54CB266B), 0x78BC8D4B);
    NextRound(60, Regs(0xB6AE8FFF, 0xFFB70472, 0xC062D46F, 0xFCD1887B,
                       0xB21BAD3D, 0x6D83BFC6, 0x7E44008E, 0x9B5E906C), 0xA43FCF15);
    NextRound(61, Regs(0xB85E2CE9, 0xB6AE8FFF, 0xFFB70472, 0xC062D46F,
                       0x961F4894, 0xB21BAD3D, 0x6D83BFC6, 0x7E44008E), 0x668B2FF8);
    NextRound(62, Regs(0x04D24D6C, 0xB85E2CE9, 0xB6AE8FFF, 0xFFB70472,
                       0x948D25B6, 0x961F4894, 0xB21BAD3D, 0x6D83BFC6), 0xEEABA2CC);
    NextRound(63, Regs(0xD39A2165, 0x04D24D6C, 0xB85E2CE9, 0xB6AE8FFF,
                       0xFB121210, 0x948D25B6, 0x961F4894, 0xB21BAD3D), 0x12B1EDEB);
  }

  lemma CompressedAbc()
    ensures Compress(H0, ABC) == Regs(0xBA7816BF, 0x8F01CFEA, 0x414140DE, 0x5DAE2223,
                                      0xB00361A3, 0x96177A9C, 0xB410FF61, 0xF20015AD)
  {
    Rounds7();
    hide Rounds;
  }

  lemma FirstRegisters()
    ensures After(0, Regs(0x6A09E667, 0xBB67AE85, 0x3C6EF372, 0xA54FF53A,
                          0x510E527F, 0x9B05688C, 0x1F83D9AB, 0x5BE0CD19))
  {
  }

  /** The digest of "abc", as the standard gives it. */
  lemma DigestOfAbc()
    ensures Digest([0x61, 0x62, 0x63]) == [
      0xBA, 0x78, 0x16, 0xBF, 0x8F, 0x01, 0xCF, 0xEA, 0x41, 0x41, 0x40, 0xDE, 0x5D, 0xAE, 0x22, 0x23,
      0xB0, 0x03, 0x61, 0xA3, 0x96, 0x17, 0x7A, 0x9C, 0xB4, 0x10, 0xFF, 0x61, 0xF2, 0x00, 0x15, 0xAD
    ]
  {
    hide Compress, Padding;
    Padded();
    CompressedAbc();
    var r := Compress(H0, ABC);
    assert ABC[..64] == ABC && ABC[64..] == [];
    assert Blocks(H0, ABC) == Blocks(r, []) == r;
    hide Blocks, WordBytes;
    AbcBytes();
  }

  lemma AbcBytes()
    ensures WordBytes(0xBA7816BF) == [0xBA, 0x78, 0x16, 0xBF]
    ensures WordBytes(0x8F01CFEA) == [0x8F, 0x01, 0xCF, 0xEA]
    ensures WordBytes(0x414140DE) == [0x41, 0x41, 0x40, 0xDE]
    ensures WordBytes(0x5DAE2223) == [0x5D, 0xAE, 0x22, 0x23]
    ensures WordBytes(0xB00361A3) == [0xB0, 0x03, 0x61, 0xA3]
    ensures WordBytes(0x96177A9C) == [0x96, 0x17, 0x7A, 0x9C]
    ensures WordBytes(0xB410FF61) == [0xB4, 0x10, 0xFF, 0x61]
    ensures WordBytes(0xF20015AD) == [0xF2, 0x00, 0x15, 0xAD]
  {
  }

  lemma Padded()
    ensures [0x61, 0x62, 0x63] + Padding(3) == ABC
  {
    hide BigEndian;
    LengthBytes();
    assert Zeros(52) + (Zeros(7) + [0x18]) == Zeros(59) + [0x18];
  }

  lemma LengthBytes()
    ensures BigEndian(24, 8) == Zeros(7) + [0x18]
  {
    NoBytes(7);
  }

  lemma {:induction false} NoBytes(n: nat)
    ensures BigEndian(0, n) == Zeros(n)
  {
    if n > 0 { NoBytes(n - 1); }
  }
}
