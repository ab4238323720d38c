/** Powers of two, and the division facts the wide integer needs. */
module Powers {
  import opened Values

  lemma {:induction false} Pow2Add(a: nat, b: nat)
    ensures Pow2(a + b) == Pow2(a) * Pow2(b)
  {
    if a > 0 {
      Pow2Add(a - 1, b);
      Regroup(Pow2(a - 1), Pow2(b));
    }
  }

  lemma Regroup(x: int, y: int)
    ensures 2 * (x * y) == (2 * x) * y
  {
  }

  lemma {:induction false} Pow2Mono(a: nat, b: nat)
    requires a < b
    ensures Pow2(a) < Pow2(b) && 2 * Pow2(a) <= Pow2(b)
  {
    if a + 1 < b { Pow2Mono(a, b - 1); }
  }

  /** A quotient is known by its remainder's bounds. */
  lemma QuotientIs(v: int, d: int, q: int, r: int)
    requires d > 0 && v == q * d + r && 0 <= r < d
    ensures v / d == q && v % d == r
  {
    var (q', r') := (v / d, v % d);
    assert v == q' * d + r';
    SmallMultiple(q - q', d);
    assert (q - q') * d == r' - r;
  }

  lemma SmallMultiple(k: int, d: int)
    requires d > 0
    ensures k >= 1 ==> k * d >= d
    ensures k <= -1 ==> k * d <= -d
  {
    if k >= 1 { assert k * d == d + (k - 1) * d; MulNonNegative(k - 1, d); }
    if k <= -1 { assert k * d == -d + (k + 1) * d; MulNonNegative(-k - 1, d); assert (k + 1) * d == -((-k - 1) * d); }
  }

  lemma MulNonNegative(x: int, y: int)
    requires x >= 0 && y >= 0
    ensures x * y >= 0
  {
  }

  lemma MulMono(x: int, y: int, d: int)
    requires d >= 0 && x <= y
    ensures x * d <= y * d
  {
    MulNonNegative(y - x, d);
  }

  lemma Distribute(x: int, y: int, z: int)
    ensures x * (y + z) == x * y + x * z
  {
  }

  /** Dividing twice is dividing by the product. */
  lemma DivDiv(v: nat, a: nat, b: nat)
    requires a > 0 && b > 0
    ensures v / (a * b) == (v / a) / b
    ensures v % (a * b) == v % a + a * ((v / a) % b)
  {
    var q := v / a;
    var (q', r') := (q / b, q % b);
    calc {
      v;
      a * q + v % a;
      a * (b * q' + r') + v % a;
      q' * (a * b) + (a * r' + v % a);
    }
    MulMono(r', b - 1, a);
    assert a * b == (b - 1) * a + a;
    QuotientIs(v, a * b, q', a * r' + v % a);
  }
}
