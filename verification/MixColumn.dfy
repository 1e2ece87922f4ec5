/** The column transformation of the cipher and its inverse (sections 5.1.3 and 5.3.3 of FIPS 197). */
module MixColumn {
  import opened GaloisField

  /** One row of a matrix product over the field. */
  function Dot(k0: bv8, k1: bv8, k2: bv8, k3: bv8, a: bv8, b: bv8, c: bv8, d: bv8): bv8 {
    Add(Add(Mul(a, k0), Mul(b, k1)), Add(Mul(c, k2), Mul(d, k3)))
  }

  /** A byte of MixColumns: the circulant row (02 03 01 01). */
  function Mix(a: bv8, b: bv8, c: bv8, d: bv8): bv8 {
    Dot(2, 3, 1, 1, a, b, c, d)
  }

  /** A byte of InvMixColumns: the circulant row (0e 0b 0d 09). */
  function Unmix(a: bv8, b: bv8, c: bv8, d: bv8): bv8 {
    Dot(14, 11, 13, 9, a, b, c, d)
  }

  lemma DotLinear(k0: bv8, k1: bv8, k2: bv8, k3: bv8, a: bv8, b: bv8, c: bv8, d: bv8,
                  a': bv8, b': bv8, c': bv8, d': bv8)
    ensures Dot(k0, k1, k2, k3, Add(a, a'), Add(b, b'), Add(c, c'), Add(d, d')) ==
            Add(Dot(k0, k1, k2, k3, a, b, c, d), Dot(k0, k1, k2, k3, a', b', c', d'))
  {
    MulLinear(a, a', k0);
    MulLinear(b, b', k1);
    MulLinear(c, c', k2);
    MulLinear(d, d', k3);
    AddFourPairs(Mul(a, k0), Mul(a', k0), Mul(b, k1), Mul(b', k1),
                 Mul(c, k2), Mul(c', k2), Mul(d, k3), Mul(d', k3));
  }

  // ----- Products of a byte by the small coefficients -----

  /** The product of two coefficients of degree at most 3 and 1: no reduction is needed. */
  function SmallProduct(k: bv8, m: bv8): bv8 {
    Add(if m & 1 == 0 then 0 else k, if m & 2 == 0 then 0 else k << 1)
  }

  lemma MulBy1(x: bv8)
    ensures Mul(x, 1) == x
  {
  }

  lemma MulBy2(x: bv8)
    ensures Mul(x, 2) == Times2(x)
  {
  }

  lemma MulBy3(x: bv8)
    ensures Mul(x, 3) == Add(Times2(x), x)
  {
  }

  lemma AddShifted(p: bv8, q: bv8, r: bv8, s: bv8)
    ensures Add(Add(Add(p, q), Add(r, s)), Add(Add(0, 0), Add(0, 0))) ==
            Add(Add(Add(0, p), Add(q, r)), Add(Add(s, 0), Add(0, 0)))
  {
    AddZero(0);
    AddZero(p);
    AddZero(s);
    AddZero(Add(Add(p, q), Add(r, s)));
    AddAssociative(p, q, r);
    AddAssociative(Add(p, q), r, s);
  }

  lemma MulOfTimes2(x: bv8, k: bv8)
    requires k < 16
    ensures Mul(Times2(x), k) == Mul(x, k << 1)
  {
    var x1 := Times2(x);
    var x2 := Times2(x1);
    var x3 := Times2(x2);
    var x4 := Times2(x3);
    AddShifted(Term(k, 1, x1), Term(k, 2, x2), Term(k, 4, x3), Term(k, 8, x4));
  }

  lemma SmallProductIs(k: bv8)
    requires k < 16
    ensures SmallProduct(k, 1) == k && SmallProduct(k, 2) == k << 1 && SmallProduct(k, 3) == Add(k << 1, k)
  {
    AddZero(k);
    AddZero(k << 1);
    AddCommutes(k << 1, k);
  }

  lemma OneToThree(m: bv8)
    requires 1 <= m <= 3
    ensures m == 1 || m == 2 || m == 3
  {
  }

  /** A byte times m, then times k. */
  lemma MulOfSmall(x: bv8, k: bv8, m: bv8)
    requires k < 16 && 1 <= m <= 3
    ensures Mul(Mul(x, m), k) == Mul(x, SmallProduct(k, m))
  {
    hide Mul, Times2, Add, SmallProduct;
    OneToThree(m);
    SmallProductIs(k);
    MulOfTimes2(x, k);
    MulLinear(Times2(x), x, k);
    MulLinearRight(x, k << 1, k);
    MulBy1(x);
    MulBy2(x);
    MulBy3(x);
  }

  /** A byte times k, then times m. */
  lemma SmallOfMul(x: bv8, k: bv8, m: bv8)
    requires k < 16 && 1 <= m <= 3
    ensures Mul(Mul(x, k), m) == Mul(x, SmallProduct(k, m))
  {
    hide Mul, Times2, Add, SmallProduct;
    OneToThree(m);
    SmallProductIs(k);
    Times2OfMul(x, k);
    MulOfTimes2(x, k);
    MulLinearRight(x, k << 1, k);
    MulBy1(Mul(x, k));
    MulBy2(Mul(x, k));
    MulBy3(Mul(x, k));
  }

  lemma Times2OfMul(x: bv8, k: bv8)
    requires k < 16
    ensures Times2(Mul(x, k)) == Mul(Times2(x), k)
  {
    var x1 := Times2(x);
    var x2 := Times2(x1);
    var x3 := Times2(x2);
    var low, high := Add(Term(k, 1, x), Term(k, 2, x1)), Add(Term(k, 4, x2), Term(k, 8, x3));
    AddZero(0);
    AddZero(Add(low, high));
    AddZero(Add(Add(Term(k, 1, x1), Term(k, 2, x2)), Add(Term(k, 4, x3), Term(k, 8, Times2(x3)))));
    Times2Linear(low, high);
    Times2Linear(Term(k, 1, x), Term(k, 2, x1));
    Times2Linear(Term(k, 4, x2), Term(k, 8, x3));
    Times2OfTerm(k, 1, x);
    Times2OfTerm(k, 2, x1);
    Times2OfTerm(k, 4, x2);
    Times2OfTerm(k, 8, x3);
  }

  lemma Times2OfTerm(k: bv8, mask: bv8, x: bv8)
    ensures Times2(Term(k, mask, x)) == Term(k, mask, Times2(x))
  {
  }

  // ----- The two matrices are inverses of each other -----

  lemma AddRotates(p: bv8, q: bv8, r: bv8, s: bv8)
    ensures Add(Add(p, q), Add(r, s)) == Add(Add(s, p), Add(q, r))
  {
    AddAssociative(p, q, r);
    AddAssociative(Add(p, q), r, s);
    AddCommutes(Add(p, Add(q, r)), s);
    AddAssociative(s, p, Add(q, r));
  }

  /** A product of two circulant matrices, collected by input byte. */
  lemma CirculantProduct(k0: bv8, k1: bv8, k2: bv8, k3: bv8, m0: bv8, m1: bv8, m2: bv8, m3: bv8,
                         a: bv8, b: bv8, c: bv8, d: bv8)
    ensures
      Dot(k0, k1, k2, k3, Dot(m0, m1, m2, m3, a, b, c, d), Dot(m0, m1, m2, m3, b, c, d, a),
                          Dot(m0, m1, m2, m3, c, d, a, b), Dot(m0, m1, m2, m3, d, a, b, c)) ==
      Add(Add(Dot(k0, k1, k2, k3, Mul(a, m0), Mul(a, m3), Mul(a, m2), Mul(a, m1)),
              Dot(k0, k1, k2, k3, Mul(b, m1), Mul(b, m0), Mul(b, m3), Mul(b, m2))),
          Add(Dot(k0, k1, k2, k3, Mul(c, m2), Mul(c, m1), Mul(c, m0), Mul(c, m3)),
              Dot(k0, k1, k2, k3, Mul(d, m3), Mul(d, m2), Mul(d, m1), Mul(d, m0))))
  {
    AddRotates(Mul(b, m0), Mul(c, m1), Mul(d, m2), Mul(a, m3));
    AddRotates(Mul(c, m0), Mul(d, m1), Mul(a, m2), Mul(b, m3));
    AddRotates(Mul(b, m3), Mul(c, m0), Mul(d, m1), Mul(a, m2));
    AddRotates(Mul(d, m0), Mul(a, m1), Mul(b, m2), Mul(c, m3));
    AddRotates(Mul(c, m3), Mul(d, m0), Mul(a, m1), Mul(b, m2));
    AddRotates(Mul(b, m2), Mul(c, m3), Mul(d, m0), Mul(a, m1));
    DotLinear(k0, k1, k2, k3,
              Add(Mul(a, m0), Mul(b, m1)), Add(Mul(a, m3), Mul(b, m0)),
              Add(Mul(a, m2), Mul(b, m3)), Add(Mul(a, m1), Mul(b, m2)),
              Add(Mul(c, m2), Mul(d, m3)), Add(Mul(c, m1), Mul(d, m2)),
              Add(Mul(c, m0), Mul(d, m1)), Add(Mul(c, m3), Mul(d, m0)));
    DotLinear(k0, k1, k2, k3, Mul(a, m0), Mul(a, m3), Mul(a, m2), Mul(a, m1),
              Mul(b, m1), Mul(b, m0), Mul(b, m3), Mul(b, m2));
    DotLinear(k0, k1, k2, k3, Mul(c, m2), Mul(c, m1), Mul(c, m0), Mul(c, m3),
              Mul(d, m3), Mul(d, m2), Mul(d, m1), Mul(d, m0));
  }

  lemma MulBySum(x: bv8, p: bv8, q: bv8, r: bv8, s: bv8)
    ensures Add(Add(Mul(x, p), Mul(x, q)), Add(Mul(x, r), Mul(x, s))) ==
            Mul(x, Add(Add(p, q), Add(r, s)))
  {
    MulLinearRight(x, p, q);
    MulLinearRight(x, r, s);
    MulLinearRight(x, Add(p, q), Add(r, s));
  }

  lemma MulBy0(x: bv8)
    ensures Mul(x, 0) == 0
  {
  }

  /** A byte times an entry of the product of the inverse matrix with the matrix. */
  lemma UnmixUnit(x: bv8, m0: bv8, m1: bv8, m2: bv8, m3: bv8, sum: bv8)
    requires 1 <= m0 <= 3 && 1 <= m1 <= 3 && 1 <= m2 <= 3 && 1 <= m3 <= 3
    requires sum == Add(Add(SmallProduct(14, m0), SmallProduct(11, m1)),
                        Add(SmallProduct(13, m2), SmallProduct(9, m3)))
    ensures Unmix(Mul(x, m0), Mul(x, m1), Mul(x, m2), Mul(x, m3)) == Mul(x, sum)
  {
    MulOfSmall(x, 14, m0);
    MulOfSmall(x, 11, m1);
    MulOfSmall(x, 13, m2);
    MulOfSmall(x, 9, m3);
    MulBySum(x, SmallProduct(14, m0), SmallProduct(11, m1), SmallProduct(13, m2), SmallProduct(9, m3));
  }

  /** A byte times an entry of the product of the matrix with the inverse matrix. */
  lemma MixUnit(x: bv8, k0: bv8, k1: bv8, k2: bv8, k3: bv8, sum: bv8)
    requires k0 < 16 && k1 < 16 && k2 < 16 && k3 < 16
    requires sum == Add(Add(SmallProduct(k0, 2), SmallProduct(k1, 3)),
                        Add(SmallProduct(k2, 1), SmallProduct(k3, 1)))
    ensures Mix(Mul(x, k0), Mul(x, k1), Mul(x, k2), Mul(x, k3)) == Mul(x, sum)
  {
    SmallOfMul(x, k0, 2);
    SmallOfMul(x, k1, 3);
    SmallOfMul(x, k2, 1);
    SmallOfMul(x, k3, 1);
    MulBySum(x, SmallProduct(k0, 2), SmallProduct(k1, 3), SmallProduct(k2, 1), SmallProduct(k3, 1));
  }

  /** Rows of the product of the inverse matrix with the matrix: 1 on the diagonal, 0 elsewhere. */
  lemma UnmixMixUnits(a: bv8, b: bv8, c: bv8, d: bv8)
    ensures Unmix(Mul(a, 2), Mul(a, 1), Mul(a, 1), Mul(a, 3)) == a
    ensures Unmix(Mul(b, 3), Mul(b, 2), Mul(b, 1), Mul(b, 1)) == 0
    ensures Unmix(Mul(c, 1), Mul(c, 3), Mul(c, 2), Mul(c, 1)) == 0
    ensures Unmix(Mul(d, 1), Mul(d, 1), Mul(d, 3), Mul(d, 2)) == 0
  {
    hide Mul, Unmix;
    UnmixUnit(a, 2, 1, 1, 3, 1);
    UnmixUnit(b, 3, 2, 1, 1, 0);
    UnmixUnit(c, 1, 3, 2, 1, 0);
    UnmixUnit(d, 1, 1, 3, 2, 0);
    MulBy1(a);
    MulBy0(b);
    MulBy0(c);
    MulBy0(d);
  }

  lemma MixUnmixUnits(a: bv8, b: bv8, c: bv8, d: bv8)
    ensures Mix(Mul(a, 14), Mul(a, 9), Mul(a, 13), Mul(a, 11)) == a
    ensures Mix(Mul(b, 11), Mul(b, 14), Mul(b, 9), Mul(b, 13)) == 0
    ensures Mix(Mul(c, 13), Mul(c, 11), Mul(c, 14), Mul(c, 9)) == 0
    ensures Mix(Mul(d, 9), Mul(d, 13), Mul(d, 11), Mul(d, 14)) == 0
  {
    hide Mul, Mix;
    MixUnit(a, 14, 9, 13, 11, 1);
    MixUnit(b, 11, 14, 9, 13, 0);
    MixUnit(c, 13, 11, 14, 9, 0);
    MixUnit(d, 9, 13, 11, 14, 0);
    MulBy1(a);
    MulBy0(b);
    MulBy0(c);
    MulBy0(d);
  }

  lemma UnmixOfMix(a: bv8, b: bv8, c: bv8, d: bv8)
    ensures Unmix(Mix(a, b, c, d), Mix(b, c, d, a), Mix(c, d, a, b), Mix(d, a, b, c)) == a
  {
    CirculantProduct(14, 11, 13, 9, 2, 3, 1, 1, a, b, c, d);
    UnmixMixUnits(a, b, c, d);
    AddZero(a);
    AddZero(0);
  }

  lemma MixOfUnmix(a: bv8, b: bv8, c: bv8, d: bv8)
    ensures Mix(Unmix(a, b, c, d), Unmix(b, c, d, a), Unmix(c, d, a, b), Unmix(d, a, b, c)) == a
  {
    CirculantProduct(2, 3, 1, 1, 14, 11, 13, 9, a, b, c, d);
    MixUnmixUnits(a, b, c, d);
    AddZero(a);
    AddZero(0);
  }

  lemma ColumnSum(a: bv8, b: bv8, c: bv8, d: bv8, p: bv8, q: bv8)
    ensures Add(a, Add(Add(Add(Add(a, b), c), d), Add(p, q))) == Add(Add(p, Add(q, b)), Add(c, d))
  {
    AddAssociative(a, b, c);
    AddAssociative(a, Add(b, c), d);
    AddAssociative(a, Add(Add(b, c), d), Add(p, q));
    AddTwice(a, Add(Add(Add(b, c), d), Add(p, q)));
    AddAssociative(b, c, d);
    AddRotates(b, Add(c, d), p, q);
    AddRotates(q, b, Add(c, d), p);
    AddAssociative(p, q, b);
    AddAssociative(Add(p, q), b, Add(c, d));
  }

  /** The form the encryptor computes: the byte, the sum of the column, and one table lookup. */
  lemma ColumnSumIsMix(a: bv8, b: bv8, c: bv8, d: bv8)
    ensures Add(a, Add(Add(Add(Add(a, b), c), d), XtimeTable(Add(a, b)))) == Mix(a, b, c, d)
  {
    XtimeIsTimes2(Add(a, b));
    Times2Linear(a, b);
    ColumnSum(a, b, c, d, Times2(a), Times2(b));
    MulBy1(c);
    MulBy1(d);
    MulBy2(a);
    MulBy3(b);
  }
}
