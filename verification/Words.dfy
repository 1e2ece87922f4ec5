/** Bytes, machine words and alignment, shared by the models of the drivers. */
module Words {

  const TWO31 := 0x8000_0000
  const TWO32 := 0x1_0000_0000
  const TWO64 := 0x1_0000_0000_0000_0000

  type Byte = x: int | 0 <= x < 256

  /** The least multiple of a at or above x. */
  function AlignUp(x: int, a: nat): int
    requires a > 0
  {
    (x + a - 1) / a * a
  }
  lemma AlignBounds(x: int, a: nat)
    requires a > 0
    ensures x <= AlignUp(x, a) < x + a && AlignUp(x, a) % a == 0
  {
    var q := (x + a - 1) / a;
    assert (x + a - 1) == a * q + (x + a - 1) % a;
    assert a * q == q * a;
    MultipleHasNoRest(q, a);
  }

  lemma MultipleHasNoRest(q: int, a: nat)
    requires a > 0
    ensures (q * a) % a == 0
  {
    var r := (q * a) % a;
    var d := (q * a) / a;
    assert q * a == d * a + r;
    assert (q - d) * a == r;
    ScaleBounds(q - d, a);
  }

  lemma ScaleBounds(t: int, a: nat)
    ensures t >= 1 ==> t * a >= a
    ensures t <= -1 ==> t * a <= 0 - a
  {
    if t >= 1 {
      assert (t - 1) * a >= 0;
    } else if t <= -1 {
      assert (-1 - t) * a >= 0;
    }
  }

  /** Only one multiple of a lies within a of x from above. */
  lemma AlignUpIs(x: int, a: nat, s: int)
    requires a > 0 && s % a == 0 && x <= s < x + a
    ensures AlignUp(x, a) == s
  {
    hide AlignUp;
    AlignBounds(x, a);
    var q, r := AlignUp(x, a) / a, s / a;
    assert AlignUp(x, a) - s == (q - r) * a;
    ScaleBounds(q - r, a);
  }
}
