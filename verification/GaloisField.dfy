/** Bytes as elements of GF(2^8) with the polynomial x^8 + x^4 + x^3 + x + 1 (section 4 of FIPS 197),
    and the two lookup tables of the encryptor.  A table row is written as one 128-bit constant: entry 0
    of the row is its most significant byte. */
module GaloisField {

  /** Entry `i` of a sixteen-byte table row. */
  function RowAt(i: bv8, row: bv128): bv8
    requires i < 16
  {
    ((row >> ((15 - i) * 8)) & 0xff) as bv8
  }

  /** The byte substitution table `S`. */
  function SBox(b: bv8): bv8 {
    RowAt(b & 15,
      if b < 0x10 then 0x637c777b_f26b6fc5_3001672b_fed7ab76
      else if b < 0x20 then 0xca82c97d_fa5947f0_add4a2af_9ca472c0
      else if b < 0x30 then 0xb7fd9326_363ff7cc_34a5e5f1_71d83115
      else if b < 0x40 then 0x04c723c3_1896059a_071280e2_eb27b275
      else if b < 0x50 then 0x09832c1a_1b6e5aa0_523bd6b3_29e32f84
      else if b < 0x60 then 0x53d100ed_20fcb15b_6acbbe39_4a4c58cf
      else if b < 0x70 then 0xd0efaafb_434d3385_45f9027f_503c9fa8
      else if b < 0x80 then 0x51a3408f_929d38f5_bcb6da21_10fff3d2
      else if b < 0x90 then 0xcd0c13ec_5f974417_c4a77e3d_645d1973
      else if b < 0xa0 then 0x60814fdc_222a9088_46eeb814_de5e0bdb
      else if b < 0xb0 then 0xe0323a0a_4906245c_c2d3ac62_9195e479
      else if b < 0xc0 then 0xe7c8376d_8dd54ea9_6c56f4ea_657aae08
      else if b < 0xd0 then 0xba78252e_1ca6b4c6_e8dd741f_4bbd8b8a
      else if b < 0xe0 then 0x703eb566_4803f60e_613557b9_86c11d9e
      else if b < 0xf0 then 0xe1f89811_69d98e94_9b1e87e9_ce5528df
      else 0x8ca1890d_bfe64268_41992d0f_b054bb16)
  }

  /** The table that undoes `SBox` (figure 14 of FIPS 197); the encryptor itself has no use for it. */
  function InvSBox(b: bv8): bv8 {
    RowAt(b & 15,
      if b < 0x10 then 0x52096ad5_3036a538_bf40a39e_81f3d7fb
      else if b < 0x20 then 0x7ce33982_9b2fff87_348e4344_c4dee9cb
      else if b < 0x30 then 0x547b9432_a6c2233d_ee4c950b_42fac34e
      else if b < 0x40 then 0x082ea166_28d924b2_765ba249_6d8bd125
      else if b < 0x50 then 0x72f8f664_86689816_d4a45ccc_5d65b692
      else if b < 0x60 then 0x6c704850_fdedb9da_5e154657_a78d9d84
      else if b < 0x70 then 0x90d8ab00_8cbcd30a_f7e45805_b8b34506
      else if b < 0x80 then 0xd02c1e8f_ca3f0f02_c1afbd03_01138a6b
      else if b < 0x90 then 0x3a911141_4f67dcea_97f2cfce_f0b4e673
      else if b < 0xa0 then 0x96ac7422_e7ad3585_e2f937e8_1c75df6e
      else if b < 0xb0 then 0x47f11a71_1d29c589_6fb7620e_aa18be1b
      else if b < 0xc0 then 0xfc563e4b_c6d27920_9adbc0fe_78cd5af4
      else if b < 0xd0 then 0x1fdda833_8807c731_b1121059_2780ec5f
      else if b < 0xe0 then 0x60517fa9_19b54a0d_2de57a9f_93c99cef
      else if b < 0xf0 then 0xa0e03b4d_ae2af5b0_c8ebbb3c_83539961
      else 0x172b047e_ba77d626_e1691463_55210c7d)
  }

  /** The table `Xtime`. */
  function XtimeTable(b: bv8): bv8 {
    RowAt(b & 15,
      if b < 0x10 then 0x00020406_080a0c0e_10121416_181a1c1e
      else if b < 0x20 then 0x20222426_282a2c2e_30323436_383a3c3e
      else if b < 0x30 then 0x40424446_484a4c4e_50525456_585a5c5e
      else if b < 0x40 then 0x60626466_686a6c6e_70727476_787a7c7e
      else if b < 0x50 then 0x80828486_888a8c8e_90929496_989a9c9e
      else if b < 0x60 then 0xa0a2a4a6_a8aaacae_b0b2b4b6_b8babcbe
      else if b < 0x70 then 0xc0c2c4c6_c8caccce_d0d2d4d6_d8dadcde
      else if b < 0x80 then 0xe0e2e4e6_e8eaecee_f0f2f4f6_f8fafcfe
      else if b < 0x90 then 0x1b191f1d_13111715_0b090f0d_03010705
      else if b < 0xa0 then 0x3b393f3d_33313735_2b292f2d_23212725
      else if b < 0xb0 then 0x5b595f5d_53515755_4b494f4d_43414745
      else if b < 0xc0 then 0x7b797f7d_73717775_6b696f6d_63616765
      else if b < 0xd0 then 0x9b999f9d_93919795_8b898f8d_83818785
      else if b < 0xe0 then 0xbbb9bfbd_b3b1b7b5_aba9afad_a3a1a7a5
      else if b < 0xf0 then 0xdbd9dfdd_d3d1d7d5_cbc9cfcd_c3c1c7c5
      else 0xfbf9fffd_f3f1f7f5_ebe9efed_e3e1e7e5)
  }

  /** Addition in the field. */
  function Add(a: bv8, b: bv8): bv8 {
    a ^ b
  }

  /** Multiplication by x (section 4.2.1 of FIPS 197): shift, then reduce when the degree reaches 8. */
  function Times2(a: bv8): bv8 {
    (a << 1) ^ (if a & 0x80 == 0 then 0 else 0x1b)
  }

  /** `a` when bit `mask` of `c` is set, else 0. */
  function Term(c: bv8, mask: bv8, a: bv8): bv8 {
    if c & mask == 0 then 0 else a
  }

  /** Field multiplication (section 4.2 of FIPS 197): the sum of a * x^k over the bits k of c. */
  function Mul(a: bv8, c: bv8): bv8 {
    var a1 := Times2(a);
    var a2 := Times2(a1);
    var a3 := Times2(a2);
    var a4 := Times2(a3);
    var a5 := Times2(a4);
    var a6 := Times2(a5);
    var a7 := Times2(a6);
    Add(Add(Add(Term(c, 1, a), Term(c, 2, a1)), Add(Term(c, 4, a2), Term(c, 8, a3))),
        Add(Add(Term(c, 16, a4), Term(c, 32, a5)), Add(Term(c, 64, a6), Term(c, 128, a7))))
  }

  /** x^n in the field. */
  function PowerOfX(n: nat): bv8 {
    if n == 0 then 1 else Mul(PowerOfX(n - 1), 2)
  }

  /** The affine map of SubBytes (section 5.1.1 of FIPS 197). */
  function Affine(z: bv8): bv8 {
    z ^ z.RotateLeft(1) ^ z.RotateLeft(2) ^ z.RotateLeft(3) ^ z.RotateLeft(4) ^ 0x63
  }

  /** The inverse of that map. */
  function InvAffine(y: bv8): bv8 {
    y.RotateLeft(1) ^ y.RotateLeft(3) ^ y.RotateLeft(6) ^ 0x05
  }

  lemma XtimeIsTimes2(b: bv8)
    ensures XtimeTable(b) == Times2(b)
  {
  }

  lemma InvSBoxOfSBox(b: bv8)
    ensures InvSBox(SBox(b)) == b
  {
  }

  lemma SBoxOfInvSBox(b: bv8)
    ensures SBox(InvSBox(b)) == b
  {
  }

  /** Every entry of the table is the affine image of the multiplicative inverse of its index
      (and of 0 for index 0), which is how FIPS 197 defines the S-box. */
  lemma SBoxIsAffineOfInverse(b: bv8)
    ensures var z := InvAffine(SBox(b));
      && Affine(z) == SBox(b)
      && Mul(b, z) == (if b == 0 then 0 else 1)
      && (b == 0 ==> z == 0)
  {
  }

  lemma Times2Linear(a: bv8, b: bv8)
    ensures Times2(Add(a, b)) == Add(Times2(a), Times2(b))
  {
    if a & 0x80 == 0 {
      assert (a ^ b) & 0x80 == b & 0x80;
    } else if b & 0x80 == 0 {
      assert (a ^ b) & 0x80 != 0;
    } else {
      assert (a ^ b) & 0x80 == 0;
    }
  }

  lemma AddZero(a: bv8)
    ensures Add(a, 0) == a == Add(0, a)
  {
  }

  lemma AddCommutes(a: bv8, b: bv8)
    ensures Add(a, b) == Add(b, a)
  {
  }

  /** Addition is its own inverse. */
  lemma AddTwice(a: bv8, b: bv8)
    ensures Add(Add(a, b), b) == a
    ensures Add(a, Add(a, b)) == b
  {
  }

  lemma AddAssociative(a: bv8, b: bv8, c: bv8)
    ensures Add(Add(a, b), c) == Add(a, Add(b, c))
  {
  }

  lemma AddPairs(a: bv8, b: bv8, c: bv8, d: bv8)
    ensures Add(Add(a, b), Add(c, d)) == Add(Add(a, c), Add(b, d))
  {
    assert (a ^ b) ^ (c ^ d) == (a ^ c) ^ (b ^ d);
  }

  /** The sum of four sums, regrouped. */
  lemma AddFourPairs(a: bv8, a': bv8, b: bv8, b': bv8, c: bv8, c': bv8, d: bv8, d': bv8)
    ensures Add(Add(Add(a, a'), Add(b, b')), Add(Add(c, c'), Add(d, d'))) ==
            Add(Add(Add(a, b), Add(c, d)), Add(Add(a', b'), Add(c', d')))
  {
    AddPairs(a, a', b, b');
    AddPairs(c, c', d, d');
    AddPairs(Add(a, b), Add(a', b'), Add(c, d), Add(c', d'));
  }

  lemma TermLinear(c: bv8, mask: bv8, a: bv8, b: bv8)
    ensures Term(c, mask, Add(a, b)) == Add(Term(c, mask, a), Term(c, mask, b))
  {
  }

  /** Multiplication distributes over addition. */
  lemma MulLinear(a: bv8, b: bv8, c: bv8)
    ensures Mul(Add(a, b), c) == Add(Mul(a, c), Mul(b, c))
  {
    var a1, b1 := Times2(a), Times2(b);
    var a2, b2 := Times2(a1), Times2(b1);
    var a3, b3 := Times2(a2), Times2(b2);
    var a4, b4 := Times2(a3), Times2(b3);
    var a5, b5 := Times2(a4), Times2(b4);
    var a6, b6 := Times2(a5), Times2(b5);
    var a7, b7 := Times2(a6), Times2(b6);
    Times2Linear(a, b);
    Times2Linear(a1, b1);
    Times2Linear(a2, b2);
    Times2Linear(a3, b3);
    Times2Linear(a4, b4);
    Times2Linear(a5, b5);
    Times2Linear(a6, b6);
    TermLinear(c, 1, a, b);
    TermLinear(c, 2, a1, b1);
    TermLinear(c, 4, a2, b2);
    TermLinear(c, 8, a3, b3);
    TermLinear(c, 16, a4, b4);
    TermLinear(c, 32, a5, b5);
    TermLinear(c, 64, a6, b6);
    TermLinear(c, 128, a7, b7);
    AddFourPairs(Term(c, 1, a), Term(c, 1, b), Term(c, 2, a1), Term(c, 2, b1),
                 Term(c, 4, a2), Term(c, 4, b2), Term(c, 8, a3), Term(c, 8, b3));
    AddFourPairs(Term(c, 16, a4), Term(c, 16, b4), Term(c, 32, a5), Term(c, 32, b5),
                 Term(c, 64, a6), Term(c, 64, b6), Term(c, 128, a7), Term(c, 128, b7));
    AddPairs(Add(Add(Term(c, 1, a), Term(c, 2, a1)), Add(Term(c, 4, a2), Term(c, 8, a3))),
             Add(Add(Term(c, 1, b), Term(c, 2, b1)), Add(Term(c, 4, b2), Term(c, 8, b3))),
             Add(Add(Term(c, 16, a4), Term(c, 32, a5)), Add(Term(c, 64, a6), Term(c, 128, a7))),
             Add(Add(Term(c, 16, b4), Term(c, 32, b5)), Add(Term(c, 64, b6), Term(c, 128, b7))));
  }

  /** Multiplication distributes over addition of the second factor as well. */
  lemma MulLinearRight(a: bv8, c: bv8, d: bv8)
    ensures Mul(a, Add(c, d)) == Add(Mul(a, c), Mul(a, d))
  {
    var a1 := Times2(a);
    var a2 := Times2(a1);
    var a3 := Times2(a2);
    var a4 := Times2(a3);
    var a5 := Times2(a4);
    var a6 := Times2(a5);
    var a7 := Times2(a6);
    TermOfSum(c, d, 1, a);
    TermOfSum(c, d, 2, a1);
    TermOfSum(c, d, 4, a2);
    TermOfSum(c, d, 8, a3);
    TermOfSum(c, d, 16, a4);
    TermOfSum(c, d, 32, a5);
    TermOfSum(c, d, 64, a6);
    TermOfSum(c, d, 128, a7);
    AddFourPairs(Term(c, 1, a), Term(d, 1, a), Term(c, 2, a1), Term(d, 2, a1),
                 Term(c, 4, a2), Term(d, 4, a2), Term(c, 8, a3), Term(d, 8, a3));
    AddFourPairs(Term(c, 16, a4), Term(d, 16, a4), Term(c, 32, a5), Term(d, 32, a5),
                 Term(c, 64, a6), Term(d, 64, a6), Term(c, 128, a7), Term(d, 128, a7));
    AddPairs(Add(Add(Term(c, 1, a), Term(c, 2, a1)), Add(Term(c, 4, a2), Term(c, 8, a3))),
             Add(Add(Term(d, 1, a), Term(d, 2, a1)), Add(Term(d, 4, a2), Term(d, 8, a3))),
             Add(Add(Term(c, 16, a4), Term(c, 32, a5)), Add(Term(c, 64, a6), Term(c, 128, a7))),
             Add(Add(Term(d, 16, a4), Term(d, 32, a5)), Add(Term(d, 64, a6), Term(d, 128, a7))));
  }

  lemma TermOfSum(c: bv8, d: bv8, mask: bv8, a: bv8)
    requires mask in {1, 2, 4, 8, 16, 32, 64, 128}
    ensures Term(Add(c, d), mask, a) == Add(Term(c, mask, a), Term(d, mask, a))
  {
    if c & mask == 0 {
      assert (c ^ d) & mask == d & mask;
    } else if d & mask == 0 {
      assert (c ^ d) & mask == c & mask;
    } else {
      assert (c ^ d) & mask == 0;
    }
  }
}
