/**
  Unsigned machine words as natural numbers. The C operators `&`, `|` and `~` are
  defined bit by bit, so a mask in the kernel's code is the same mask here.
 */
module Words {

  const TWO_64: nat := 0x1_0000_0000_0000_0000
  const SIGN_64: nat := 0x8000_0000_0000_0000

  /** A `uint64_t`. */
  type Word = w: nat | w < TWO_64

  function Pow2(k: nat): (p: nat)
    ensures p > 0
  {
    if k == 0 then 1 else 2 * Pow2(k - 1)
  }

  /** Reduction of an exact result to 64 bits; the first cases spare the solver the division. */
  function Wrap(x: int): (w: Word)
  {
    if 0 <= x < TWO_64 then x
    else if 0 - TWO_64 <= x < 0 then x + TWO_64
    else if TWO_64 <= x < 2 * TWO_64 then x - TWO_64
    else x % TWO_64
  }

  /** Bit `i` of `x`. */
  predicate Bit(x: nat, i: nat)
  {
    if i == 0 then x % 2 == 1 else Bit(x / 2, i - 1)
  }

  function And(x: nat, y: nat): nat
  {
    if x == 0 || y == 0 then 0
    else 2 * And(x / 2, y / 2) + (if x % 2 == 1 && y % 2 == 1 then 1 else 0)
  }

  function Or(x: nat, y: nat): nat
  {
    if x == 0 then y
    else if y == 0 then x
    else 2 * Or(x / 2, y / 2) + (if x % 2 == 1 || y % 2 == 1 then 1 else 0)
  }

  /** `~x` on 64 bits. */
  function Not64(x: Word): Word
  {
    TWO_64 - 1 - x
  }

  function Or64(x: Word, y: Word): (w: Word)
    ensures w == Or(x, y)
  {
    Pow2Values();
    OrBound(x, y, 64);
    Or(x, y)
  }

  function And64(x: Word, y: Word): (w: Word)
    ensures w == And(x, y)
  {
    AndBound(x, y);
    And(x, y)
  }

  lemma Pow2Values()
    ensures Pow2(0) == 1
    ensures Pow2(5) == 32
    ensures Pow2(6) == 64
    ensures Pow2(12) == 0x1000
    ensures Pow2(21) == 0x20_0000
    ensures Pow2(32) == 0x1_0000_0000
    ensures Pow2(63) == 0x8000_0000_0000_0000
    ensures Pow2(64) == TWO_64
  {
    assert Pow2(8) == 0x100;
    assert Pow2(16) == 0x1_0000;
    assert Pow2(24) == 0x100_0000;
    assert Pow2(32) == 0x1_0000_0000;
    assert Pow2(40) == 0x100_0000_0000;
    assert Pow2(48) == 0x1_0000_0000_0000;
    assert Pow2(56) == 0x100_0000_0000_0000;
  }

  lemma {:induction false} Pow2Monotone(j: nat, k: nat)
    requires j < k
    ensures Pow2(j) < Pow2(k)
  {
    if j + 1 < k { Pow2Monotone(j, k - 1); }
  }

  lemma {:induction false} Pow2Divides(j: nat, k: nat)
    requires j <= k
    ensures Pow2(k) % Pow2(j) == 0
  {
    if j == k {
      DivModUnique(Pow2(k), Pow2(j), 1, 0);
    } else {
      Pow2Divides(j, k - 1);
      var q := Pow2(k - 1) / Pow2(j);
      assert Pow2(k) == Pow2(j) * (2 * q);
      DivModUnique(Pow2(k), Pow2(j), 2 * q, 0);
    }
  }

  lemma {:induction false} OrBound(x: nat, y: nat, k: nat)
    requires x < Pow2(k) && y < Pow2(k)
    ensures Or(x, y) < Pow2(k)
  {
    if x != 0 && y != 0 { OrBound(x / 2, y / 2, k - 1); }
  }

  lemma {:induction false} AndBound(x: nat, y: nat)
    ensures And(x, y) <= x && And(x, y) <= y
  {
    if x != 0 && y != 0 { AndBound(x / 2, y / 2); }
  }

  lemma {:induction false} AndSelf(x: nat)
    ensures And(x, x) == x
  {
    if x != 0 { AndSelf(x / 2); }
  }

  // --- single bits ---------------------------------------------------------------

  lemma {:induction false} ZeroBit(i: nat)
    ensures !Bit(0, i)
  {
    if i != 0 { ZeroBit(i - 1); }
  }

  lemma {:induction false} AndBit(x: nat, y: nat, i: nat)
    ensures Bit(And(x, y), i) <==> Bit(x, i) && Bit(y, i)
  {
    if x == 0 || y == 0 { ZeroBit(i); }
    else if i != 0 {
      AndBit(x / 2, y / 2, i - 1);
      assert And(x, y) / 2 == And(x / 2, y / 2);
    }
  }

  lemma OrParts(x: nat, y: nat)
    ensures x == 0 ==> Or(x, y) == y
    ensures y == 0 ==> Or(x, y) == x
    ensures Or(x, y) % 2 == 1 <==> x % 2 == 1 || y % 2 == 1
    ensures x != 0 && y != 0 ==> Or(x, y) / 2 == Or(x / 2, y / 2)
  {
  }

  lemma {:induction false} OrBit(x: nat, y: nat, i: nat)
    ensures Bit(Or(x, y), i) <==> Bit(x, i) || Bit(y, i)
  {
    hide Or;
    OrParts(x, y);
    if x == 0 || y == 0 { ZeroBit(i); }
    else if i != 0 {
      OrBit(x / 2, y / 2, i - 1);
    }
  }

  lemma {:induction false} Pow2Bit(k: nat, i: nat)
    ensures Bit(Pow2(k), i) <==> i == k
  {
    if k == 0 {
      if i != 0 { ZeroBit(i - 1); }
    } else if i != 0 {
      Pow2Bit(k - 1, i - 1);
      assert Pow2(k) / 2 == Pow2(k - 1);
    }
  }

  lemma {:induction false} NotBit(x: nat, width: nat, i: nat)
    requires x < Pow2(width) && i < width
    ensures Bit(Pow2(width) - 1 - x, i) <==> !Bit(x, i)
  {
    var half := Pow2(width - 1);
    var y := 2 * half - 1 - x;
    assert Pow2(width) == 2 * half;
    assert y / 2 == half - 1 - x / 2 && y % 2 == 1 - x % 2;
    if i != 0 {
      NotBit(x / 2, width - 1, i - 1);
      assert Bit(y, i) == Bit(y / 2, i - 1);
    }
  }

  /** Bits at or above the highest power of two that fits are clear. */
  lemma {:induction false} HighBit(x: nat, i: nat)
    requires x < Pow2(i)
    ensures !Bit(x, i)
  {
    if i != 0 { HighBit(x / 2, i - 1); }
  }

  /** `x & (1 << k)` is nonzero exactly when bit `k` of `x` is set. */
  lemma {:induction false} TestBit(x: nat, k: nat)
    ensures And(x, Pow2(k)) != 0 <==> Bit(x, k)
  {
    if x == 0 {
      ZeroBit(k);
    } else if k != 0 {
      TestBit(x / 2, k - 1);
      assert Pow2(k) / 2 == Pow2(k - 1);
    }
  }

  /** `x | (1 << k)` sets bit `k` and no other. */
  lemma SetBit(x: nat, k: nat, i: nat)
    ensures Bit(Or(x, Pow2(k)), i) <==> Bit(x, i) || i == k
  {
    OrBit(x, Pow2(k), i);
    Pow2Bit(k, i);
  }

  /** `x & ~(1 << k)` clears bit `k` and no other. */
  lemma ClearBit(x: Word, k: nat, i: nat)
    requires k < 64 && i < 64
    ensures Pow2(k) < TWO_64
    ensures Bit(And(x, Not64(Pow2(k))), i) <==> Bit(x, i) && i != k
  {
    Pow2Values();
    Pow2Monotone(k, 64);
    AndBit(x, Not64(Pow2(k)), i);
    NotBit(Pow2(k), 64, i);
    Pow2Bit(k, i);
  }

  // --- masks ---------------------------------------------------------------------

  lemma MulAtLeast(d: nat, n: nat)
    requires n >= 1
    ensures d * n >= d
  {
    assert d * n == d * (n - 1) + d;
  }

  lemma DivModUnique(x: nat, d: nat, q: nat, r: nat)
    requires r < d && x == d * q + r
    ensures x / d == q && x % d == r
  {
    var q', r' := x / d, x % d;
    if q' < q {
      MulAtLeast(d, q - q');
    } else if q < q' {
      MulAtLeast(d, q' - q);
    }
  }

  lemma ModDouble(x: nat, m: nat)
    requires m > 0
    ensures x % (2 * m) == 2 * ((x / 2) % m) + x % 2
    ensures x / (2 * m) == (x / 2) / m
  {
    var q, r := (x / 2) / m, (x / 2) % m;
    assert x / 2 == m * q + r;
    assert x == 2 * m * q + (2 * r + x % 2);
    DivModUnique(x, 2 * m, q, 2 * r + x % 2);
  }

  /** `x & (2^k - 1)` is the remainder modulo `2^k`. */
  lemma {:induction false} MaskLow(x: nat, k: nat)
    ensures And(x, Pow2(k) - 1) == x % Pow2(k)
  {
    if x != 0 && k != 0 {
      var m := Pow2(k - 1);
      assert (2 * m - 1) / 2 == m - 1 && (2 * m - 1) % 2 == 1;
      MaskLow(x / 2, k - 1);
      ModDouble(x, m);
    }
  }

  /** Bits below `2^k` leave what is above alone. */
  lemma {:induction false} OrHigh(x: nat, low: nat, k: nat)
    requires low < Pow2(k)
    ensures Or(x, low) / Pow2(k) == x / Pow2(k)
  {
    hide Or;
    OrParts(x, low);
    if k != 0 {
      var m := Pow2(k - 1);
      ModDouble(x, m);
      ModDouble(low, m);
      ModDouble(Or(x, low), m);
      if x != 0 && low != 0 {
        OrHigh(x / 2, low / 2, k - 1);
      } else if x == 0 {
        DivModUnique(low, 2 * m, 0, low);
      }
    }
  }

  lemma AndDouble(x: nat, y: nat)
    ensures And(x, 2 * y) == 2 * And(x / 2, y)
  {
    assert (2 * y) / 2 == y && (2 * y) % 2 == 0;
  }

  /** `x & -2^k`, on `width` bits, drops the remainder modulo `2^k`. */
  lemma {:induction false} MaskHigh(x: nat, width: nat, k: nat)
    requires x < Pow2(width) && k <= width
    ensures Pow2(k) <= Pow2(width)
    ensures And(x, Pow2(width) - Pow2(k)) == x - x % Pow2(k)
  {
    if k == 0 {
      MaskLow(x, width);
      SmallMod(x, Pow2(width));
    } else {
      var m, h := Pow2(k - 1), Pow2(width - 1);
      MaskHigh(x / 2, width - 1, k - 1);
      ModDouble(x, m);
      AndDouble(x, h - m);
    }
  }

  lemma SmallMod(x: nat, d: nat)
    requires x < d
    ensures x % d == x
  {
    DivModUnique(x, d, 0, x);
  }

  lemma MaskHigh64(x: Word, k: nat)
    requires k <= 64
    ensures Pow2(k) <= TWO_64
    ensures And(x, TWO_64 - Pow2(k)) == x - x % Pow2(k)
  {
    assert Pow2(64) == TWO_64 by { Pow2Values(); }
    MaskHigh(x, 64, k);
  }

  /** Or of two words that share no bit is their sum. */
  lemma {:induction false} OrDisjoint(x: nat, y: nat, k: nat)
    requires x % Pow2(k) == 0 && y < Pow2(k)
    ensures Or(x, y) == x + y
  {
    if x != 0 && y != 0 {
      var m := Pow2(k - 1);
      ModDouble(x, m);
      OrDisjoint(x / 2, y / 2, k - 1);
    }
  }
}
