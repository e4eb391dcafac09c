/** Bits of an array of machine words, numbered through the words. */
module Bitmaps {
  import opened Words

  /** Bit `n` of the words, `width` bits to a word. */
  predicate Marked(words: seq<nat>, width: nat, n: nat)
    requires width > 0 && n / width < |words|
  {
    Bit(words[n / width], n % width)
  }

  lemma SameBit(width: nat, n: nat, k: nat)
    requires width > 0 && n / width == k / width && n % width == k % width
    ensures n == k
  {
    assert n == width * (n / width) + n % width;
    assert k == width * (k / width) + k % width;
  }

  function Mark(words: seq<nat>, width: nat, n: nat): seq<nat>
    requires width > 0 && n / width < |words|
  {
    words[n / width := Or(words[n / width], Pow2(n % width))]
  }

  lemma MarkSets(words: seq<nat>, width: nat, n: nat, k: nat)
    requires width > 0 && n / width < |words| && k / width < |words|
    ensures Marked(Mark(words, width, n), width, k) <==> Marked(words, width, k) || k == n
  {
    if k / width == n / width {
      SetBit(words[n / width], n % width, k % width);
      if k % width == n % width {
        SameBit(width, n, k);
      }
    }
  }

  function Unmark(words: seq<Word>, n: nat): seq<Word>
    requires n / 64 < |words|
  {
    words[n / 64 := And64(words[n / 64], Not64(Wrap(Pow2(n % 64))))]
  }

  lemma UnmarkClears(words: seq<Word>, n: nat, k: nat)
    requires n / 64 < |words| && k / 64 < |words|
    ensures Marked(Unmark(words, n), 64, k) <==> Marked(words, 64, k) && k != n
  {
    ClearBit(words[n / 64], n % 64, k % 64);
    if k / 64 == n / 64 && k % 64 == n % 64 {
      SameBit(64, n, k);
    }
  }

  /** The kernel's macros: word `off >> 18`, bit `(off >> 12) & 0x3F`. */
  function TrackingIndex(off: nat): nat
  {
    off / 0x4_0000
  }

  function TrackingBit(off: nat): nat
  {
    Pow2(And(off / 0x1000, 0x3F))
  }

  lemma TrackingPosition(off: nat)
    ensures TrackingIndex(off) == off / 0x1000 / 64
    ensures TrackingBit(off) == Pow2(off / 0x1000 % 64) < TWO_64
  {
    Pow2Values();
    MaskLow(off / 0x1000, 6);
    Pow2Monotone(off / 0x1000 % 64, 64);
  }

  /** Different frames have different positions, and every position below the last word is a frame's. */
  lemma TrackingBijection(a: nat, b: nat, word: nat, bit: nat)
    requires a % 0x1000 == 0 && b % 0x1000 == 0 && bit < 64
    ensures TrackingIndex(a) == TrackingIndex(b) && TrackingBit(a) == TrackingBit(b) ==> a == b
    ensures var off := (word * 64 + bit) * 0x1000; TrackingIndex(off) == word && TrackingBit(off) == Pow2(bit)
  {
    TrackingPosition(a);
    TrackingPosition(b);
    if TrackingIndex(a) == TrackingIndex(b) && TrackingBit(a) == TrackingBit(b) {
      Pow2Bit(a / 0x1000 % 64, b / 0x1000 % 64);
      Pow2Bit(b / 0x1000 % 64, b / 0x1000 % 64);
      SameBit(64, a / 0x1000, b / 0x1000);
    }
    TrackingPosition((word * 64 + bit) * 0x1000);
  }

  // --- the set of frames [lo, hi) the bits stand for ------------------------------------------

  predicate FrameMarked(words: seq<nat>, width: nat, lo: nat, f: nat)
    requires width > 0
  {
    lo <= f && (f - lo) / width < |words| && Marked(words, width, f - lo)
  }

  function TakenFrames(words: seq<nat>, width: nat, lo: nat, hi: nat): set<nat>
    requires width > 0
  {
    set f: nat | lo <= f < hi && FrameMarked(words, width, lo, f)
  }

  lemma WordInRange(n: nat, words: nat, width: nat)
    requires width > 0 && n < words * width
    ensures n / width < words
  {
  }

  lemma TakenAfterMark(words: seq<nat>, width: nat, lo: nat, hi: nat, f: nat)
    requires width > 0 && lo <= f < lo + |words| * width
    ensures (f - lo) / width < |words|
    ensures TakenFrames(Mark(words, width, f - lo), width, lo, hi) ==
      TakenFrames(words, width, lo, hi) + if f < hi then {f} else {}
  {
    WordInRange(f - lo, |words|, width);
    var t := TakenFrames(Mark(words, width, f - lo), width, lo, hi);
    forall g: nat
      ensures g in t <==> g in TakenFrames(words, width, lo, hi) || (g == f && f < hi)
    {
      if lo <= g < hi {
        MarkedAfterMark(words, width, lo, f, g);
      }
    }
  }

  lemma {:induction false} MarkedAfterMark(words: seq<nat>, width: nat, lo: nat, f: nat, g: nat)
    requires width > 0 && lo <= f && lo <= g && (f - lo) / width < |words|
    ensures FrameMarked(Mark(words, width, f - lo), width, lo, g) <==> FrameMarked(words, width, lo, g) || g == f
  {
    if g == f {
      MarkSets(words, width, f - lo, f - lo);
    } else if (g - lo) / width < |words| {
      MarkSets(words, width, f - lo, g - lo);
    }
  }

  lemma TakenAfterUnmark(words: seq<Word>, lo: nat, hi: nat, f: nat)
    requires lo <= f < hi && hi - lo <= |words| * 64
    ensures TakenFrames(Unmark(words, f - lo), 64, lo, hi) == TakenFrames(words, 64, lo, hi) - {f}
  {
    var t := TakenFrames(Unmark(words, f - lo), 64, lo, hi);
    forall g: nat
      ensures g in t <==> g in TakenFrames(words, 64, lo, hi) && g != f
    {
      if lo <= g < hi {
        WordInRange(g - lo, |words|, 64);
        UnmarkClears(words, f - lo, g - lo);
      }
    }
  }
}
