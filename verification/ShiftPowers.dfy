/**
 Powers of x, found by squaring and multiplying given words.
 */
module ShiftPowers {
  import opened LinearOperator
  import opened ShiftWords

  function Power(n: nat): Word { Run(n, ONE) }

  lemma Times(m: nat, n: nat, a: Word, b: Word, c: Word)
    requires Power(m) == a && Power(n) == b && Product(a, b) == c
    ensures Power(m + n) == c
  {
    WordsLawful();
    PowerAdds(Words(), 32, m, n);
    ProductIsMul(a, b);
  }

  lemma Double(n: nat, a: Word, b: Word)
    requires Power(n) == a && Product(a, a) == b
    ensures Power(2 * n) == b
  {
    Times(n, n, a, a, b);
  }

  // ----- x squared n times

  lemma Squared0()
    ensures Power(1) == 0x4000_0000
  {
    assert Power(0) == ONE;
  }

  lemma Squared1()
    ensures Power(0x2) == 0x2000_0000
  {
    Squared0();
    Double(0x1, 0x4000_0000, 0x2000_0000);
  }

  lemma Squared2()
    ensures Power(0x4) == 0x0800_0000
  {
    Squared1();
    Double(0x2, 0x2000_0000, 0x0800_0000);
  }

  lemma Squared3()
    ensures Power(0x8) == 0x0080_0000
  {
    Squared2();
    Double(0x4, 0x0800_0000, 0x0080_0000);
  }

  lemma Squared4()
    ensures Power(0x10) == 0x0000_8000
  {
    Squared3();
    Double(0x8, 0x0080_0000, 0x0000_8000);
  }

  lemma Squared5()
    ensures Power(0x20) == 0x8020_0003
  {
    Squared4();
    Double(0x10, 0x0000_8000, 0x8020_0003);
  }

  lemma Squared6()
    ensures Power(0x40) == 0xc527_9ed9
  {
    Squared5();
    Double(0x20, 0x8020_0003, 0xc527_9ed9);
  }

  lemma Squared7()
    ensures Power(0x80) == 0xa241_c6c9
  {
    Squared6();
    Double(0x40, 0xc527_9ed9, 0xa241_c6c9);
  }

  lemma Squared8()
    ensures Power(0x100) == 0x6abe_638e
  {
    Squared7();
    Double(0x80, 0xa241_c6c9, 0x6abe_638e);
  }

  lemma Squared9()
    ensures Power(0x200) == 0x92a5_8a73
  {
    Squared8();
    Double(0x100, 0x6abe_638e, 0x92a5_8a73);
  }

  lemma Squared10()
    ensures Power(0x400) == 0x1c41_c6fa
  {
    Squared9();
    Double(0x200, 0x92a5_8a73, 0x1c41_c6fa);
  }

  lemma Squared11()
    ensures Power(0x800) == 0x93e7_2d8c
  {
    Squared10();
    Double(0x400, 0x1c41_c6fa, 0x93e7_2d8c);
  }

  lemma Squared12()
    ensures Power(0x1000) == 0x097e_4b44
  {
    Squared11();
    Double(0x800, 0x93e7_2d8c, 0x097e_4b44);
  }

  lemma Squared13()
    ensures Power(0x2000) == 0x2508_f126
  {
    Squared12();
    Double(0x1000, 0x097e_4b44, 0x2508_f126);
  }

  lemma Squared14()
    ensures Power(0x4000) == 0x92df_03d6
  {
    Squared13();
    Double(0x2000, 0x2508_f126, 0x92df_03d6);
  }

  lemma Squared15()
    ensures Power(0x8000) == 0x7b58_c29e
  {
    Squared14();
    Double(0x4000, 0x92df_03d6, 0x7b58_c29e);
  }

  lemma Squared16()
    ensures Power(0x10000) == 0xfe67_22b7
  {
    Squared15();
    Double(0x8000, 0x7b58_c29e, 0xfe67_22b7);
  }

  lemma Squared17()
    ensures Power(0x20000) == 0x2966_3d9c
  {
    Squared16();
    Double(0x10000, 0xfe67_22b7, 0x2966_3d9c);
  }

  lemma Squared18()
    ensures Power(0x40000) == 0x6ea0_2629
  {
    Squared17();
    Double(0x20000, 0x2966_3d9c, 0x6ea0_2629);
  }

  lemma Squared19()
    ensures Power(0x80000) == 0xf210_f382
  {
    Squared18();
    Double(0x40000, 0x6ea0_2629, 0xf210_f382);
  }

  lemma Squared20()
    ensures Power(0x100000) == 0x7551_ef57
  {
    Squared19();
    Double(0x80000, 0xf210_f382, 0x7551_ef57);
  }

  lemma Squared21()
    ensures Power(0x200000) == 0x92b4_da3a
  {
    Squared20();
    Double(0x100000, 0x7551_ef57, 0x92b4_da3a);
  }

  lemma Squared22()
    ensures Power(0x400000) == 0x7e02_3217
  {
    Squared21();
    Double(0x200000, 0x92b4_da3a, 0x7e02_3217);
  }

  lemma Squared23()
    ensures Power(0x800000) == 0xa9bd_7b68
  {
    Squared22();
    Double(0x400000, 0x7e02_3217, 0xa9bd_7b68);
  }

  lemma Squared24()
    ensures Power(0x1000000) == 0xfdc7_0916
  {
    Squared23();
    Double(0x800000, 0xa9bd_7b68, 0xfdc7_0916);
  }

  lemma Squared25()
    ensures Power(0x2000000) == 0xe531_9ba5
  {
    Squared24();
    Double(0x1000000, 0xfdc7_0916, 0xe531_9ba5);
  }

  lemma Squared26()
    ensures Power(0x4000000) == 0xcfe3_12ee
  {
    Squared25();
    Double(0x2000000, 0xe531_9ba5, 0xcfe3_12ee);
  }

  lemma Squared27()
    ensures Power(0x8000000) == 0xa272_263c
  {
    Squared26();
    Double(0x4000000, 0xcfe3_12ee, 0xa272_263c);
  }

  lemma Squared28()
    ensures Power(0x10000000) == 0x5832_f15c
  {
    Squared27();
    Double(0x8000000, 0xa272_263c, 0x5832_f15c);
  }

  lemma Squared29()
    ensures Power(0x20000000) == 0x7ffa_31b1
  {
    Squared28();
    Double(0x10000000, 0x5832_f15c, 0x7ffa_31b1);
  }

  lemma Squared30()
    ensures Power(0x40000000) == 0xd0cf_bfdc
  {
    Squared29();
    Double(0x20000000, 0x7ffa_31b1, 0xd0cf_bfdc);
  }

  lemma Squared31()
    ensures Power(0x80000000) == 0x4401_ce70
  {
    Squared30();
    Double(0x40000000, 0xd0cf_bfdc, 0x4401_ce70);
  }

  lemma Squared32()
    ensures Power(0x100000000) == 0x4000_0000
  {
    Squared31();
    Double(0x80000000, 0x4401_ce70, 0x4000_0000);
  }

  // ----- powers with few coefficients

  lemma Power10001()
    ensures Power(0x10001) == 0xff13_9158
  {
    Squared0();
    Squared16();
    Times(0x1, 0x10000, 0x4000_0000, 0xfe67_22b7, 0xff13_9158);
  }

  lemma Power1000100()
    ensures Power(0x1000100) == 0x5cc9_7899
  {
    Squared8();
    Squared24();
    Times(0x100, 0x1000000, 0x6abe_638e, 0xfdc7_0916, 0x5cc9_7899);
  }

  lemma Power1010101()
    ensures Power(0x1010101) == 0x518c_1b99
  {
    Power10001();
    Power1000100();
    Times(0x10001, 0x1000100, 0xff13_9158, 0x5cc9_7899, 0x518c_1b99);
  }

  lemma Power100010()
    ensures Power(0x100010) == 0x2279_e911
  {
    Squared4();
    Squared20();
    Times(0x10, 0x100000, 0x0000_8000, 0x7551_ef57, 0x2279_e911);
  }

  lemma Power10001000()
    ensures Power(0x10001000) == 0xf603_49ad
  {
    Squared12();
    Squared28();
    Times(0x1000, 0x10000000, 0x097e_4b44, 0x5832_f15c, 0xf603_49ad);
  }

  lemma Power10101010()
    ensures Power(0x10101010) == 0xab2f_cf84
  {
    Power100010();
    Power10001000();
    Times(0x100010, 0x10001000, 0x2279_e911, 0xf603_49ad, 0xab2f_cf84);
  }

  lemma Power11111111()
    ensures Power(0x11111111) == 0xbb97_ab84
  {
    Power1010101();
    Power10101010();
    Times(0x1010101, 0x10101010, 0x518c_1b99, 0xab2f_cf84, 0xbb97_ab84);
  }

  lemma Power22222222()
    ensures Power(0x22222222) == 0xfaa3_d41d
  {
    Power11111111();
    Double(0x11111111, 0xbb97_ab84, 0xfaa3_d41d);
  }

  lemma Power44444444()
    ensures Power(0x44444444) == 0x3b97_ab84
  {
    Power22222222();
    Double(0x22222222, 0xfaa3_d41d, 0x3b97_ab84);
  }

  lemma Power55555555()
    ensures Power(0x55555555) == 0x4134_7f99
  {
    Power11111111();
    Power44444444();
    Times(0x11111111, 0x44444444, 0xbb97_ab84, 0x3b97_ab84, 0x4134_7f99);
  }
}
