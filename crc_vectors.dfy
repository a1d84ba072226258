/** The reference vectors of test_mitm.c and the concatenation checks of
    test_crc.c, stated over the bitwise CRC-32 (which the table loops compute,
    see CrcTable) and over the decimal spelling of the numbers involved. */
module CrcVectors {
  import opened Crc
  import opened DecimalString

  /** One more leading-digit step of the register over the digits of n. */
  lemma DigitsStep(n: nat, q: nat, d: nat, r: bv32, r2: bv32)
    requires n == 10 * q + d && 0 < n && d < 10
    requires Reg(ONES, Digits(q)) == r && ByteStep(r, DigitChar(d)) == r2
    ensures Reg(ONES, Digits(n)) == r2
  {
    assert n / 10 == q && n % 10 == d;
    RegSnoc(ONES, Digits(q), DigitChar(d));
  }

  /** One more step of the register over the k-digit zero-padded spelling of n. */
  lemma PaddedStep(c0: bv32, n: nat, q: nat, d: nat, k: nat, r: bv32, r2: bv32)
    requires n == 10 * q + d && d < 10 && k > 0
    requires Reg(c0, Padded(q, k - 1)) == r && ByteStep(r, DigitChar(d)) == r2
    ensures Reg(c0, Padded(n, k)) == r2
  {
    assert n / 10 == q && n % 10 == d;
    RegSnoc(c0, Padded(q, k - 1), DigitChar(d));
  }

  lemma RegOfDigits35469214()
    ensures Reg(ONES, Decimal(35469214)) == 0x976b_83b2
  {
    assert Reg(ONES, Digits(0)) == ONES;
    DigitsStep(3, 0, 3, 0xffff_ffff, 0x922d_7164);
    DigitsStep(35, 3, 5, 0x922d_7164, 0x1cfe_4c13);
    DigitsStep(354, 35, 4, 0x1cfe_4c13, 0xa516_4b27);
    DigitsStep(3546, 354, 6, 0xa516_4b27, 0x6a15_36b9);
    DigitsStep(35469, 3546, 9, 0x6a15_36b9, 0xedd2_9616);
    DigitsStep(354692, 35469, 2, 0xedd2_9616, 0x3cee_3647);
    DigitsStep(3546921, 354692, 1, 0x3cee_3647, 0xb95a_3a3f);
    DigitsStep(35469214, 3546921, 4, 0xb95a_3a3f, 0x976b_83b2);
  }

  /** CRC("35469214") = 0x68947c4d (test_mitm.c:29, 33, 38). */
  lemma Vector35469214()
    ensures Crc32(Decimal(35469214)) == 0x6894_7c4d
  {
    RegOfDigits35469214();
  }

  /** CRC("40381311") = 0x2640627d (test_mitm.c:30, 34, 38). */
  lemma Vector40381311()
    ensures Crc32(Padded(40381311, 8)) == 0x2640_627d
  {
    assert Reg(ONES, Padded(0, 0)) == ONES;
    PaddedStep(0xffff_ffff, 4, 0, 4, 1, 0xffff_ffff, 0x0c49_e4c7);
    PaddedStep(0xffff_ffff, 40, 4, 0, 2, 0x0c49_e4c7, 0x23d5_2e5b);
    PaddedStep(0xffff_ffff, 403, 40, 3, 3, 0x23d5_2e5b, 0x434a_3c44);
    PaddedStep(0xffff_ffff, 4038, 403, 8, 4, 0x434a_3c44, 0x59f0_772b);
    PaddedStep(0xffff_ffff, 40381, 4038, 1, 5, 0x59f0_772b, 0xfd3b_090d);
    PaddedStep(0xffff_ffff, 403813, 40381, 3, 6, 0xfd3b_090d, 0xc19c_26a2);
    PaddedStep(0xffff_ffff, 4038131, 403813, 1, 7, 0xc19c_26a2, 0x69c7_5ed8);
    PaddedStep(0xffff_ffff, 40381311, 4038131, 1, 8, 0x69c7_5ed8, 0xd9bf_9d82);
  }

  /** CRC("3546921440381311") = 0x90a567c7 (test_mitm.c:31, 35, 38): the
      register after the high half carries on through the low half. */
  lemma Vector3546921440381311()
    ensures Crc32(Decimal(3546921440381311)) == 0x90a5_67c7
  {
    Pow10Values();
    DecimalConcat(35469214, 40381311, 8);
    RegAppend(ONES, Decimal(35469214), Padded(40381311, 8));
    RegOfDigits35469214();
    RegOfPadded40381311();
  }

  lemma RegOfPadded40381311()
    ensures Reg(0x976b_83b2, Padded(40381311, 8)) == 0x6f5a_9838
  {
    assert Reg(0x976b_83b2, Padded(0, 0)) == 0x976b_83b2;
    PaddedStep(0x976b_83b2, 4, 0, 4, 1, 0x976b_83b2, 0x044c_4d96);
    PaddedStep(0x976b_83b2, 40, 4, 0, 2, 0x044c_4d96, 0x3fb1_4a90);
    PaddedStep(0x976b_83b2, 403, 40, 3, 3, 0x3fb1_4a90, 0x4fe0_4318);
    PaddedStep(0x976b_83b2, 4038, 403, 8, 4, 0x4fe0_4318, 0x3b21_c08b);
    PaddedStep(0x976b_83b2, 40381, 4038, 1, 5, 0x3b21_c08b, 0x2b8f_7b52);
    PaddedStep(0x976b_83b2, 403813, 40381, 3, 6, 0x2b8f_7b52, 0x3a9e_deb5);
    PaddedStep(0x976b_83b2, 4038131, 403813, 1, 7, 0x3a9e_deb5, 0xeaef_d9e7);
    PaddedStep(0x976b_83b2, 40381311, 4038131, 1, 8, 0xeaef_d9e7, 0x6f5a_9838);
  }

  /** test_crc.c:31-44: crc32_append(crc32_fast("5"), "15808585") is
      crc32_fast("515808585"). */
  lemma AppendCheck515808585()
    ensures Extend(Crc32(Decimal(5)), Padded(15808585, 8)) == Crc32(Decimal(515808585))
  {
    Pow10Values();
    DecimalConcat(5, 15808585, 8);
    ExtendConcat(Decimal(5), Padded(15808585, 8));
  }

  /** test_crc.c:46-59: crc32_append(crc32_fast("35469214"), "40381311") is
      crc32_fast("3546921440381311"), and both are 0x90a567c7. */
  lemma AppendCheck3546921440381311()
    ensures Extend(Crc32(Decimal(35469214)), Padded(40381311, 8)) == Crc32(Decimal(3546921440381311))
    ensures Crc32(Decimal(3546921440381311)) == 0x90a5_67c7
  {
    Pow10Values();
    DecimalConcat(35469214, 40381311, 8);
    ExtendConcat(Decimal(35469214), Padded(40381311, 8));
    Vector3546921440381311();
  }
}
