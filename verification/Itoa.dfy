/** Number printing: digits from the low end, then reversal in place by exclusive or. */
module Itoa {
  import opened Words

  type Byte = bv8

  const ZERO: Byte := 0x30
  const MINUS: Byte := 0x2D
  const BUFFER_SIZE: nat := 65

  /** "0123456789abcdef" */
  const CHARS: seq<Byte> :=
    [0x30, 0x31, 0x32, 0x33, 0x34, 0x35, 0x36, 0x37, 0x38, 0x39, 0x61, 0x62, 0x63, 0x64, 0x65, 0x66]

  function Char(d: nat): Byte
    requires d < 16
  {
    CHARS[d]
  }

  // --- what a text stands for ------------------------------------------------------------------------

  /** The value of a hexadecimal digit, 16 for any other character. */
  function DigitValue(c: Byte): nat
  {
    if 0x30 <= c <= 0x39 then (c - 0x30) as nat
    else if 0x61 <= c <= 0x66 then (c - 0x61) as nat + 10
    else 16
  }

  /** The value of `s` read as a numeral, high digit first. */
  function Magnitude(s: seq<Byte>, base: nat): nat
  {
    if s == [] then 0 else Magnitude(s[..|s| - 1], base) * base + DigitValue(s[|s| - 1])
  }

  /** The number `s` stands for, where a minus sign may come first. */
  function Parse(s: seq<Byte>, base: nat): int
  {
    if s != [] && s[0] == MINUS then 0 - Magnitude(s[1..], base) else Magnitude(s, base)
  }

  predicate IsNumeral(s: seq<Byte>, base: nat)
  {
    forall i: nat | i < |s| :: DigitValue(s[i]) < base
  }

  // --- what is printed --------------------------------------------------------------------------------

  lemma AtMostHalf(q: nat, base: nat, v: nat)
    requires 2 <= base && q * base <= v
    ensures q <= v / 2
  {
    assert q * base == q * 2 + q * (base - 2);
  }

  lemma DivStep(v: nat, base: nat)
    requires 2 <= base
    ensures v == v / base * base + v % base && v % base < base && 0 <= v / base <= v / 2
    ensures 0 < v ==> v / base < v
    ensures v / base == 0 ==> v % base == v
  {
    AtMostHalf(v / base, base, v);
  }

  function Numeral(v: nat, base: nat): seq<Byte>
    requires 2 <= base <= 16
  {
    if v == 0 then []
    else
      DivStep(v, base);
      Numeral(v / base, base) + [Char(v % base)]
  }

  predicate ValidBase(base: nat, val: nat)
  {
    2 <= base <= 16 || (base == 1 && val == 0)
  }

  /** What the digit loop has left to print after `k` rounds. */
  function Left(v: nat, base: nat, k: nat): nat
    requires 0 < base
  {
    if k == 0 then v else Left(v, base, k - 1) / base
  }

  lemma {:induction false} LeftLater(v: nat, base: nat, k: nat)
    requires 0 < base
    ensures Left(v, base, k + 1) == Left(v / base, base, k)
  {
    if k > 0 {
      LeftLater(v, base, k - 1);
    }
  }

  lemma {:induction false} RoundsToZero(v: nat, base: nat) returns (k: nat)
    requires 2 <= base
    ensures Left(v, base, k) == 0
  {
    k := 0;
    if v != 0 {
      DivStep(v, base);
      var n := RoundsToZero(v / base, base);
      LeftLater(v, base, n);
      k := n + 1;
    }
  }

  lemma {:induction false} BaseOneStays(v: nat, k: nat)
    ensures Left(v, 1, k) == v
  {
    if k > 0 {
      BaseOneStays(v, k - 1);
    }
  }

  lemma NothingLeft(base: nat, k: nat)
    requires 0 < base && k == 0
    ensures exists n: nat :: Left(0, base, n) == 0
  {
    assert Left(0, base, k) == 0;
  }

  /** The digit loop, which goes on until nothing is left, comes to an end if and only if the base is valid for the value. */
  lemma DigitsEndIff(v: nat, base: nat)
    requires 0 < base <= 16
    ensures (exists k: nat :: Left(v, base, k) == 0) <==> ValidBase(base, v)
  {
    if 2 <= base {
      var k := RoundsToZero(v, base);
    } else if v == 0 {
      NothingLeft(base, 0);
    } else {
      forall k: nat
        ensures Left(v, base, k) != 0
      {
        BaseOneStays(v, k);
      }
    }
  }

  /** The number a 64-bit value stands for. */
  function Number(val: Word, signed: bool): int
  {
    if signed && val >= SIGN_64 then val - TWO_64 else val
  }

  /** The text for a value; in base 1 there is one for 0 only. */
  function Text(val: Word, base: nat, u: bool): seq<Byte>
    requires ValidBase(base, val)
  {
    if val == 0 then [ZERO]
    else if base == 10 && !u && val >= SIGN_64 then [MINUS] + Numeral(TWO_64 - val, base)
    else Numeral(val, base)
  }

  lemma CharValue(d: nat)
    requires d < 16
    ensures DigitValue(Char(d)) == d && Char(d) != 0 && Char(d) != MINUS
  {
  }

  lemma {:induction false} MagnitudeOfNumeral(v: nat, base: nat)
    requires 2 <= base <= 16
    ensures Magnitude(Numeral(v, base), base) == v && IsNumeral(Numeral(v, base), base)
  {
    hide Char, DigitValue;
    if v != 0 {
      DivStep(v, base);
      MagnitudeOfNumeral(v / base, base);
      CharValue(v % base);
      var s := Numeral(v, base);
      assert s[..|s| - 1] == Numeral(v / base, base);
    }
  }

  lemma {:induction false} NumeralStarts(v: nat, base: nat)
    requires 2 <= base <= 16 && 0 < v
    ensures Numeral(v, base) != [] && 0 < DigitValue(Numeral(v, base)[0]) < base
  {
    hide Char, DigitValue;
    DivStep(v, base);
    if v / base == 0 {
      CharValue(v);
    } else {
      NumeralStarts(v / base, base);
    }
  }

  lemma ZeroText(t: seq<Byte>, base: nat)
    requires t == [ZERO]
    ensures Magnitude(t, base) == 0 && DigitValue(t[0]) == 0
  {
    assert t[..0] == [];
  }

  /**
    The text printed stands for the value, as a signed number for base 10 without `u`. A minus sign comes
    first and only there, the digits are digits of the base, and the first one is 0 only in "0".
   */
  lemma ParseText(val: Word, base: nat, u: bool)
    requires ValidBase(base, val)
    ensures var t := Text(val, base, u);
      && Parse(t, base) == Number(val, base == 10 && !u)
      && (val == 0 ==> t == [0x30])
      && (t != [] && t[0] == 0x2D <==> Number(val, base == 10 && !u) < 0)
      && IsNumeral(if Number(val, base == 10 && !u) < 0 then t[1..] else t, base)
      && (val != 0 ==> t != [] && t[0] != 0x30 && (t[0] == 0x2D ==> |t| > 1 && t[1] != 0x30))
  {
    if val == 0 {
      ZeroText([ZERO], base);
    } else {
      var v := if base == 10 && !u && val >= SIGN_64 then TWO_64 - val else val;
      MagnitudeOfNumeral(v, base);
      NumeralStarts(v, base);
      StartsApart(Numeral(v, base)[0], base);
    }
  }

  lemma StartsApart(c: Byte, base: nat)
    requires 0 < DigitValue(c) < base <= 16
    ensures c != MINUS && c != ZERO
  {
  }

  /** The terminator is the first zero byte. */
  lemma NoEarlyTerminator(val: Word, base: nat, u: bool, i: nat)
    requires ValidBase(base, val) && i < |Text(val, base, u)|
    ensures Text(val, base, u)[i] != 0
  {
    ParseText(val, base, u);
    var t := Text(val, base, u);
    if i > 0 || t[0] != MINUS {
      NotZero(t[i], base);
    }
  }

  lemma NotZero(c: Byte, base: nat)
    requires DigitValue(c) < base <= 16
    ensures c != 0
  {
  }

  lemma {:induction false} NumeralLength(v: nat, base: nat, k: nat)
    requires 2 <= base <= 16 && v < Pow2(k)
    ensures |Numeral(v, base)| <= k
  {
    hide Char;
    if v != 0 {
      DivStep(v, base);
      NumeralLength(v / base, base, k - 1);
    }
  }

  lemma {:induction false} BinaryLength(v: nat, k: nat)
    requires Pow2(k) <= v
    ensures |Numeral(v, 2)| >= k + 1
  {
    hide Char;
    DivStep(v, 2);
    if k != 0 {
      BinaryLength(v / 2, k - 1);
    }
  }

  /** With its terminator a text fits in 65 bytes, and it fills them exactly for base 2 and the top bit set. */
  lemma TextFits(val: Word, base: nat, u: bool)
    requires ValidBase(base, val)
    ensures |Text(val, base, u)| + 1 <= BUFFER_SIZE
    ensures base == 2 ==> (|Text(val, base, u)| + 1 == BUFFER_SIZE <==> val >= SIGN_64)
  {
    Pow2Values();
    assert Pow2(64) == TWO_64 && Pow2(63) == SIGN_64;
    if base == 10 && !u && val >= SIGN_64 {
      SignedLength(TWO_64 - val);
    } else if val != 0 {
      NumeralLength(val, base, 64);
    }
    if base == 2 {
      if val >= SIGN_64 {
        BinaryLength(val, 63);
      } else {
        NumeralLength(val, 2, 63);
      }
    }
  }

  /** A decimal numeral up to 2^63 is well below 64 digits. */
  lemma SignedLength(v: nat)
    requires v <= SIGN_64
    ensures |Numeral(v, 10)| <= 63
  {
    hide Char;
    Pow2Values();
    DivStep(v, 10);
    if v != 0 {
      NumeralLength(v / 10, 10, 62);
    }
  }

  // --- the code ------------------------------------------------------------------------------------------

  function Reversed(s: seq<Byte>): (r: seq<Byte>)
    ensures |r| == |s| && forall i: nat | i < |s| :: r[i] == s[|s| - 1 - i]
  {
    seq(|s|, i requires 0 <= i < |s| => s[|s| - 1 - i])
  }

  function Xor(a: Byte, b: Byte): Byte
  {
    a ^ b
  }

  lemma XorTwice(a: Byte, b: Byte)
    ensures Xor(b, Xor(a, b)) == a && Xor(Xor(a, b), a) == b
  {
  }

  /** Three exclusive ors exchange two bytes. */
  method XorSwap(buf: array<Byte>, n: nat, j: nat)
    requires n < buf.Length && j < buf.Length && n != j
    modifies buf
    ensures buf[..] == old(buf[..])[n := old(buf[j])][j := old(buf[n])]
  {
    hide Xor;
    XorTwice(buf[n], buf[j]);
    buf[n] := Xor(buf[n], buf[j]);
    buf[j] := Xor(buf[j], buf[n]);
    buf[n] := Xor(buf[n], buf[j]);
  }

  /** The second loop: the first `r` bytes are reversed. */
  method ReverseInPlace(buf: array<Byte>, r: nat)
    requires 0 < r <= buf.Length
    modifies buf
    ensures buf[..r] == Reversed(old(buf[..r])) && buf[r..] == old(buf[r..])
  {
    var n, j := r - 1, 0;
    while n > j
      invariant n + j == r - 1 && j <= n + 1
      invariant forall i | 0 <= i < j || n < i < r :: buf[i] == old(buf[r - 1 - i])
      invariant forall i | j <= i <= n || r <= i < buf.Length :: buf[i] == old(buf[i])
    {
      XorSwap(buf, n, j);
      n := n - 1;
      j := j + 1;
    }
  }

  /** The first loop: the digits of `v`, low digit first. */
  method PutDigits(buf: array<Byte>, v: Word, base: nat) returns (n: nat)
    requires 2 <= base <= 16 && |Numeral(v, base)| <= buf.Length
    modifies buf
    ensures n == |Numeral(v, base)|
    ensures buf[..n] == Reversed(Numeral(v, base)) && buf[n..] == old(buf[n..])
  {
    hide Char;
    var val: nat := v;
    n := 0;
    while val != 0
      invariant |Numeral(val, base)| + n == |Numeral(v, base)|
      invariant Numeral(v, base) == Numeral(val, base) + Reversed(buf[..n])
      invariant buf[n..] == old(buf[n..])
      decreases val
    {
      DivStep(val, base);
      buf[n] := Char(val % base);
      n := n + 1;
      val := val / base;
    }
  }

  lemma ReversedBack(s: seq<Byte>, end: seq<Byte>)
    requires |end| <= 1
    ensures Reversed(Reversed(s) + end) == end + s
  {
  }

  method Terminate(buf: array<Byte>, r: nat)
    requires r < buf.Length
    modifies buf
    ensures buf[..] == old(buf[..r]) + [0] + old(buf[r + 1..])
  {
    buf[r] := 0;
    assert buf[..] == buf[..r] + [buf[r]] + buf[r + 1..];
  }

  /** The digits of `v`, a sign after them, all of it turned round, and the terminator. */
  method PutText(buf: array<Byte>, v: Word, sign: bool, base: nat, ghost text: seq<Byte>)
    requires 2 <= base <= 16 && v != 0 && text == (if sign then [MINUS] else []) + Numeral(v, base)
    requires |text| < buf.Length
    modifies buf
    ensures buf[..] == text + [0] + old(buf[|text| + 1..])
  {
    ghost var digits, end := Numeral(v, base), if sign then [MINUS] else [];
    assert digits != [];
    hide Char, Numeral;
    var n := PutDigits(buf, v, base);
    var r := n;
    if sign {
      buf[n] := MINUS;
      r := n + 1;
    }
    assert buf[..r] == Reversed(digits) + end;
    ReversedBack(digits, end);
    ReverseInPlace(buf, r);
    assert buf[..r] == text && r == |text|;
    assert buf[r + 1..] == buf[r..][1..];
    Terminate(buf, r);
  }

  /**
    `itoa<base, u>`: the text with its terminator, and nothing beyond it. The negation of the smallest
    signed value, which the language leaves undefined, wraps here.
   */
  method Itoa(buf: array<Byte>, val: Word, base: nat, u: bool)
    requires ValidBase(base, val)
    requires |Text(val, base, u)| < buf.Length
    modifies buf
    ensures buf[..] == Text(val, base, u) + [0] + old(buf[|Text(val, base, u)| + 1..])
  {
    hide Char, Numeral;
    if val == 0 {
      buf[0] := ZERO;
      buf[1] := 0;
      assert buf[..] == [ZERO] + [0] + old(buf[2..]);
      return;
    }
    var v, sign := val, false;
    if base == 10 && !u {
      if val >= SIGN_64 {
        v, sign := Wrap(0 - val), true;
      }
    }
    PutText(buf, v, sign, base, Text(val, base, u));
  }
}
