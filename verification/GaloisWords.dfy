/** Multiplication modulo `x^32 + x^7 + x^3 + x^2 + 1` on machine words. */
module GaloisWords {
  type Word = bv40

  /** The polynomial. */
  const M: Word := 0x1_0000_008D
  const MASK32: Word := 0xFFFF_FFFF
  const MASK39: Word := 0x7F_FFFF_FFFF

  function Half(a: Word): (r: Word) { a >> 1 }

  predicate Odd(a: Word) { a & 1 == 1 }

  function Plus(a: Word, b: Word): (r: Word) { a ^ b }

  function Double(a: Word): (r: Word) { a << 1 }

  predicate Within(a: Word, mask: Word) { a & mask == a }

  /** Times `x`, reduced. */
  function Twice(r: Word): (d: Word)
  {
    if r & 0x8000_0000 != 0 then Plus(Double(r), 0x1_0000_008D) else Double(r)
  }

  /** One bit of the multiplier, highest first. */
  function Step(r: Word, a: Word, b: Word): (s: Word)
  {
    Plus(Twice(r), if Odd(b) then a else 0)
  }

  function Horner(a: Word, b: Word): (r: Word)
  {
    if b == 0 then 0 else Step(Horner(a, Half(b)), a, b)
  }

  // ---------------------------------------------------------------- facts about bits

  lemma HalfZero(b: Word)
    ensures Half(0) == 0 && !Odd(0) && Plus(0, b) == b && Plus(b, 0) == b && Step(0, b, 0) == 0
  {
  }

  lemma HalfPlus(a: Word, b: Word)
    ensures Half(Plus(a, b)) == Plus(Half(a), Half(b)) && (Odd(Plus(a, b)) <==> Odd(a) != Odd(b))
  {
  }

  lemma HalfShrinks(a: Word)
    ensures a != 0 ==> Half(a) < a
  {
  }

  lemma HalfDouble(a: Word)
    requires Within(a, MASK39)
    ensures Half(Double(a)) == a && !Odd(Double(a))
  {
  }

  lemma HalfWithin(a: Word, mask: Word)
    requires Within(a, mask)
    ensures Within(Half(a), Half(mask)) && (mask == 0 ==> a == 0)
  {
  }

  lemma WithinMore(r: Word)
    requires Within(r, MASK32)
    ensures Within(r, MASK39)
  {
  }

  lemma TwiceWithin(r: Word)
    requires Within(r, MASK32)
    ensures Within(Twice(r), MASK32)
  {
  }

  lemma PlusWithin(a: Word, b: Word)
    requires Within(a, MASK32) && Within(b, MASK32)
    ensures Within(Plus(a, b), MASK32) && Within(0, MASK32)
  {
  }

  lemma StepWithin(r: Word, a: Word, b: Word)
    requires Within(r, MASK32) && Within(a, MASK32)
    ensures Within(Step(r, a, b), MASK32)
  {
    TwiceWithin(r);
    hide Twice, Plus, Odd, Within;
    PlusWithin(Twice(r), a);
    PlusWithin(Twice(r), 0);
  }

  // ---------------------------------------------------------------- products without recursion

  function Four(r: Word, a: Word, b: Word): (s: Word)
  {
    Step(Step(Step(Step(r, a, b >> 3), a, b >> 2), a, b >> 1), a, b)
  }

  lemma HornerStep(a: Word, b: Word)
    ensures Horner(a, b) == Step(Horner(a, Half(b)), a, b)
  {
    HalfZero(a);
    hide Half, Step;
  }

  lemma Halves(b: Word)
    ensures Half(b) == b >> 1 && Half(b >> 1) == b >> 2 && Half(b >> 2) == b >> 3 && Half(b >> 3) == b >> 4
  {
  }

  predicate IsNext(b: Word, c: Word) { b >> 4 == c }

  lemma HornerFour(a: Word, b: Word, c: Word)
    requires IsNext(b, c)
    ensures Horner(a, b) == Four(Horner(a, c), a, b)
  {
    Halves(b);
    HornerStep(a, b);
    HornerStep(a, b >> 1);
    HornerStep(a, b >> 2);
    HornerStep(a, b >> 3);
    hide Horner, Step, Half;
  }

  lemma Sixteenths(b: Word)
    requires Within(b, MASK32)
    ensures IsNext(b, b >> 4) && IsNext(b >> 4, b >> 8) && IsNext(b >> 8, b >> 12) && IsNext(b >> 12, b >> 16)
    ensures IsNext(b >> 16, b >> 20) && IsNext(b >> 20, b >> 24) && IsNext(b >> 24, b >> 28) && IsNext(b >> 28, 0)
  {
  }

  /** Eight digits of the multiplier, with what each of them leads to. */
  lemma Product(a: Word, b: Word, r1: Word, r2: Word, r3: Word, r4: Word, r5: Word, r6: Word, r7: Word, r8: Word)
    requires Within(b, MASK32)
    requires Four(0, a, b >> 28) == r1 && Four(r1, a, b >> 24) == r2 && Four(r2, a, b >> 20) == r3 && Four(r3, a, b >> 16) == r4
    requires Four(r4, a, b >> 12) == r5 && Four(r5, a, b >> 8) == r6 && Four(r6, a, b >> 4) == r7 && Four(r7, a, b) == r8
    ensures Horner(a, b) == r8
  {
    Sixteenths(b);
    Digits(a, b >> 28, b >> 24, b >> 20, b >> 16, r1, r2, r3, r4, 0, 0);
    Digits(a, b >> 12, b >> 8, b >> 4, b, r5, r6, r7, r8, b >> 16, r4);
  }

  lemma Digits(a: Word, b1: Word, b2: Word, b3: Word, b4: Word, r1: Word, r2: Word, r3: Word, r4: Word, b0: Word, r0: Word)
    requires IsNext(b1, b0) && IsNext(b2, b1) && IsNext(b3, b2) && IsNext(b4, b3) && Horner(a, b0) == r0
    requires Four(r0, a, b1) == r1 && Four(r1, a, b2) == r2 && Four(r2, a, b3) == r3 && Four(r3, a, b4) == r4
    ensures Horner(a, b4) == r4
  {
    hide Horner, Four, IsNext;
    HornerFour(a, b1, b0);
    HornerFour(a, b2, b1);
    HornerFour(a, b3, b2);
    HornerFour(a, b4, b3);
  }

  // ---------------------------------------------------------------- a table

  /** An element of order 65537, its power to the 2^16, and the inverse of one plus it. */
  const G: Word := 0x4893_E13D
  const INVERSE: Word := 0x5438_951E
  const H: Word := 0xBB18_08EC

  lemma SquaresLow()
    ensures Horner(0x4893_E13D, 0x4893_E13D) == 0xA762_CE80
    ensures Horner(0xA762_CE80, 0xA762_CE80) == 0x2E37_B719
    ensures Horner(0x2E37_B719, 0x2E37_B719) == 0x58B3_B332
    ensures Horner(0x58B3_B332, 0x58B3_B332) == 0x3B64_FAD5
    ensures Horner(0x3B64_FAD5, 0x3B64_FAD5) == 0xCDB7_BCDB
    ensures Horner(0xCDB7_BCDB, 0xCDB7_BCDB) == 0xFE6C_B673
    ensures Horner(0xFE6C_B673, 0xFE6C_B673) == 0x45BA_CFD0
    ensures Horner(0x45BA_CFD0, 0x45BA_CFD0) == 0x8829_8D1C
  {
    hide Horner;
    Product(0x4893_E13D, 0x4893_E13D, 0x224F_8479, 0x6067_4E78, 0x0A78_0D61, 0x7E34_F557, 0x14B8_1822, 0x0312_6390, 0xE892_1A47, 0xA762_CE80);
    Product(0xA762_CE80, 0xA762_CE80, 0x75D3_EB34, 0x2912_D8F4, 0x4263_28CD, 0x68F7_1369, 0x29EC_781D, 0x769F_50E4, 0x52E3_7B5A, 0x2E37_B719);
    Product(0x2E37_B719, 0x2E37_B719, 0x5C6F_6E32, 0x53FA_EB8A, 0x4DF6_6332, 0x15E0_345B, 0x5DE6_2453, 0x14E4_42C6, 0x6073_9BF4, 0x58B3_B332);
    Product(0x58B3_B332, 0x58B3_B332, 0x3A7D_7F77, 0x624A_6E6D, 0x08EF_A822, 0x672E_5776, 0x5EAC_3992, 0x0317_4ECF, 0xD8A0_39A6, 0x3B64_FAD5);
    Product(0x3B64_FAD5, 0x3B64_FAD5, 0x4DAD_0F7F, 0x4C5A_2C9E, 0x5EF8_D52A, 0x021E_BB4D, 0x5AF2_86DE, 0x02C6_4CD6, 0x21B4_0AC4, 0xCDB7_BCDB);
    Product(0xCDB7_BCDB, 0xCDB7_BCDB, 0x5B63_170D, 0x20E5_D9BF, 0x3538_BAFC, 0x338D_994C, 0x03BC_B541, 0x60A8_431D, 0x9C50_9928, 0xFE6C_B673);
    Product(0xFE6C_B673, 0xFE6C_B673, 0x0862_B278, 0x7025_238B, 0x0739_8F23, 0x794F_9A50, 0x6529_CC80, 0x57F7_7F1E, 0x8470_F11A, 0x45BA_CFD0);
    Product(0x45BA_CFD0, 0x45BA_CFD0, 0x16EB_3FCD, 0x3DE2_0C40, 0x3D39_EA7D, 0x753D_467D, 0x68E9_2424, 0x7B60_5149, 0xC882_98B4, 0x8829_8D1C);
  }

  lemma SquaresHigh()
    ensures Horner(0x8829_8D1C, 0x8829_8D1C) == 0x2313_06AA
    ensures Horner(0x2313_06AA, 0x2313_06AA) == 0x36AD_CAE7
    ensures Horner(0x36AD_CAE7, 0x36AD_CAE7) == 0xE381_0A12
    ensures Horner(0xE381_0A12, 0xE381_0A12) == 0xA6DE_54CC
    ensures Horner(0xA6DE_54CC, 0xA6DE_54CC) == 0x6FDF_75D9
    ensures Horner(0x6FDF_75D9, 0x6FDF_75D9) == 0xD813_601A
    ensures Horner(0xD813_601A, 0xD813_601A) == 0x2A40_9AA2
    ensures Horner(0x2A40_9AA2, 0x2A40_9AA2) == 0x5438_951E
  {
    hide Horner;
    Product(0x8829_8D1C, 0x8829_8D1C, 0x414C_6AD4, 0x558A_C5A0, 0x48FF_420C, 0x4691_C53C, 0x2850_3B20, 0x6CC0_61B8, 0x442F_95B2, 0x2313_06AA);
    Product(0x2313_06AA, 0x2313_06AA, 0x4626_0D54, 0x0755_DC8A, 0x564E_CE0A, 0x01D9_E9E7, 0x1D9E_9E70, 0x1383_F071, 0x6681_3F14, 0x36AD_CAE7);
    Product(0x36AD_CAE7, 0x36AD_CAE7, 0x5BF6_5F29, 0x0889_4E7B, 0x50A1_25CB, 0x5366_E8C7, 0x59B7_F2E0, 0x434A_EEC2, 0x362C_07F3, 0xE381_0A12);
    Product(0xE381_0A12, 0xE381_0A12, 0x550E_6E45, 0x7465_F852, 0x5A57_D5B0, 0x46FC_53AB, 0x6FC5_3884, 0x2759_CCF4, 0x961D_C448, 0xA6DE_54CC);
    Product(0xA6DE_54CC, 0xA6DE_54CC, 0x7B4E_0DCC, 0x6225_245C, 0x2907_E4D1, 0x7049_13EC, 0x3936_3B85, 0x081A_EBED, 0x2C25_4823, 0x6FDF_75D9);
    Product(0x6FDF_75D9, 0x6FDF_75D9, 0x60C3_3C5B, 0x7DD4_2043, 0x731B_0AFC, 0x4057_4ABE, 0x0A68_E056, 0x762C_A750, 0xCC93_7BCC, 0xD813_601A);
    Product(0xD813_601A, 0xD813_601A, 0x78C5_E21B, 0x4CC5_21ED, 0x1441_7CFE, 0x2C22_6FCE, 0x124D_BCBC, 0x24DB_CB4D, 0x95AF_D5D0, 0x2A40_9AA2);
    Product(0x2A40_9AA2, 0x2A40_9AA2, 0x5481_3544, 0x4E96_B620, 0x4069_0ABC, 0x0690_A9F4, 0x114E_D07F, 0x1268_E7A4, 0x200B_9A14, 0x5438_951E);
  }

  lemma LastProducts()
    ensures Horner(INVERSE, G) == 1
    ensures Plus(G, 1) == 0x4893_E13C && Horner(0x4893_E13C, H) == 1
  {
    hide Horner;
    Product(INVERSE, G, 0x50E2_54F5, 0xAFE1_E403, 0x0BE2_79B6, 0x426E_2442, 0x7FB5_9137, 0xAF61_85CD, 0x0A51_E680, 0x0000_0001);
    Product(0x4893_E13C, H, 0x9D2B_2BBE, 0x4F99_94BB, 0xB10A_A8B8, 0x5435_8685, 0x4358_6AE9, 0x7119_A45E, 0xE66D_08BC, 0x0000_0001);
  }
}
