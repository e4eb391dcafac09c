module Algorithm {
  import opened Words

  /** `alignUp(x, a)`: `(x + (a - 1)) & -a` on 64 bits. */
  function AlignUp(x: Word, a: Word): Word
  {
    And64(Wrap(x + Wrap(a - 1)), Wrap(0 - a))
  }

  ghost predicate PowerOfTwo(a: nat)
  {
    exists k: nat :: k < 64 && a == Pow2(k)
  }

  lemma MulMonotone(m: nat, n: nat, k: nat)
    requires m <= n
    ensures m * k <= n * k
  {
  }

  /** A multiple of `a` that is not below `x` is not below `x` rounded up. */
  lemma RoundUpLeast(x: nat, a: nat, m: nat)
    requires a > 0 && m % a == 0 && x <= m
    ensures x + (a - 1) - (x + (a - 1)) % a <= m
  {
    var s := x + (a - 1);
    var q, p := s / a, m / a;
    assert s == a * q + s % a && m == a * p;
    if p < q {
      MulMonotone(p + 1, q, a);
    } else {
      MulMonotone(q, p, a);
    }
  }

  lemma RoundDownMultiple(s: nat, a: nat)
    requires a > 0
    ensures (s - s % a) % a == 0
  {
    var q := s / a;
    assert s - s % a == a * q;
    DivModUnique(a * q, a, q, 0);
  }

  function RoundUp(x: nat, a: nat): nat
    requires a > 0
  {
    x + (a - 1) - (x + (a - 1)) % a
  }

  lemma RoundUpMultiple(x: nat, a: nat)
    requires a > 0
    ensures x <= RoundUp(x, a) < x + a && RoundUp(x, a) % a == 0
    ensures x % a == 0 <==> RoundUp(x, a) == x
  {
    RoundDownMultiple(x + (a - 1), a);
    if x % a == 0 {
      RoundUpLeast(x, a, x);
    }
  }

  /** Different multiples are at least one step apart. */
  lemma MultiplesApart(m: nat, n: nat, a: nat)
    requires a > 0 && m % a == 0 && n % a == 0 && m < n
    ensures m + a <= n
  {
    var p, q := m / a, n / a;
    assert m == a * p && n == a * q;
    if q <= p {
      MulMonotone(q, p, a);
    } else {
      MulMonotone(p + 1, q, a);
    }
  }

  lemma AlignUpMask(x: Word, a: Word)
    requires 0 < a
    ensures AlignUp(x, a) == And(Wrap(x + (a - 1)), TWO_64 - a)
  {
  }

  lemma AlignUpValue(x: Word, k: nat)
    requires k < 64 && Pow2(k) < TWO_64
    ensures var s := Wrap(x + (Pow2(k) - 1)); AlignUp(x, Pow2(k)) == s - s % Pow2(k)
  {
    AlignUpMask(x, Pow2(k));
    MaskHigh64(Wrap(x + (Pow2(k) - 1)), k);
  }

  /** Where rounding up reaches 2^64 the trick gives 0, else the number rounded up. */
  lemma AlignUpRounds(x: Word, a: Word)
    requires PowerOfTwo(a)
    ensures a > 0 && AlignUp(x, a) == if x + a <= TWO_64 then RoundUp(x, a) else 0
  {
    var k: nat :| k < 64 && a == Pow2(k);
    AlignUpValue(x, k);
    if x + a > TWO_64 {
      SmallMod(x + (a - 1) - TWO_64, a);
    }
  }

  /** For a power of two, `alignUp` is the least multiple not below its argument. */
  lemma AlignUpIsLeastMultiple(x: Word, a: Word, m: nat)
    requires PowerOfTwo(a) && x + a <= TWO_64
    ensures a > 0 && x <= AlignUp(x, a) < x + a && AlignUp(x, a) % a == 0
    ensures x <= m && m % a == 0 ==> AlignUp(x, a) <= m
  {
    AlignUpRounds(x, a);
    RoundUpMultiple(x, a);
    if x <= m && m % a == 0 {
      RoundUpLeast(x, a, m);
    }
  }
}
