/** The saturating iteration behind `range<T>::iter`, for 64-bit values. */
module Ranges {
  import opened Words

  function Min(a: nat, b: nat): nat
  {
    if a < b then a else b
  }

  /** `operator++`: add the step, stop at the end. */
  function Next(value: Word, end: Word, step: Word): Word
  {
    Min(Wrap(value + step), end)
  }

  /** The iterator's value after `k` increments. */
  function After(value: Word, end: Word, step: Word, k: nat): Word
  {
    if k == 0 then value else Next(After(value, end, step, k - 1), end, step)
  }

  /** `k` steps on from `value` in 64 bits, without an end. */
  function Offset(value: Word, step: Word, k: nat): Word
  {
    (value + k * step) % TWO_64
  }

  lemma OneStepOn(value: Word, step: Word, k: nat)
    ensures Offset(value, step, k + 1) == Wrap(Offset(value, step, k) + step)
    ensures Offset(value, step, 0) == value
  {
    var x, y := value + k * step, value + (k + 1) * step;
    assert y == x + step;
    if x % TWO_64 + step < TWO_64 {
      DivModUnique(y, TWO_64, x / TWO_64, x % TWO_64 + step);
    } else {
      DivModUnique(y, TWO_64, x / TWO_64 + 1, x % TWO_64 + step - TWO_64);
    }
  }

  /** Until the end is reached or passed for the first time, the iterator is where plain steps lead. */
  lemma {:induction false} AfterIsOffset(value: Word, end: Word, step: Word, k: nat)
    requires forall i: nat | 0 < i < k :: Offset(value, step, i) < end
    ensures After(value, end, step, k) == if k == 0 then value else Min(Offset(value, step, k), end)
  {
    hide Offset, Wrap;
    if k > 0 {
      AfterIsOffset(value, end, step, k - 1);
      OneStepOn(value, step, k - 1);
      if k == 1 { OneStepOn(value, step, 0); }
    }
  }

  lemma {:induction false} FirstAtEnd(value: Word, end: Word, step: Word, k: nat) returns (n: nat)
    requires k > 0 && Offset(value, step, k) >= end
    ensures 0 < n <= k && Offset(value, step, n) >= end && forall i: nat | 0 < i < n :: Offset(value, step, i) < end
  {
    hide Offset;
    if i: nat :| 0 < i < k && Offset(value, step, i) >= end {
      n := FirstAtEnd(value, end, step, i);
    } else {
      n := k;
    }
  }

  /**
    The loop over a range, which goes on until the iterator is at the end, comes to one if and only if it starts there or
    some number of steps, in 64 bits, leads to the end or past it. A step that wraps can jump over the end for ever.
   */
  lemma EndsIff(value: Word, end: Word, step: Word)
    ensures (exists k: nat :: After(value, end, step, k) == end) <==>
            value == end || exists k: nat :: k > 0 && Offset(value, step, k) >= end
  {
    hide Offset;
    if value == end {
      assert After(value, end, step, 0) == end;
    } else if k: nat :| k > 0 && Offset(value, step, k) >= end {
      var n := FirstAtEnd(value, end, step, k);
      AfterIsOffset(value, end, step, n);
    } else {
      forall k: nat
        ensures After(value, end, step, k) != end
      {
        AfterIsOffset(value, end, step, k);
      }
    }
  }

  class RangeIterator {
    var value: Word
    const end: Word
    const step: Word

    constructor (value: Word, end: Word, step: Word)
      ensures this.value == value && this.end == end && this.step == step
    {
      this.value, this.end, this.step := value, end, step;
    }

    /** One step further, or at the end; a sum past 2^64 starts over from 0. */
    method Advance()
      modifies this
      ensures value == Min(old(value) + step - (if old(value) + step < TWO_64 then 0 else TWO_64), end)
    {
      value := Wrap(value + step);
      if value > end {
        value := end;
      }
    }
  }

  /** The values a range-based `for` meets from `value` on, where no step passes 2^64. */
  function Visits(value: Word, end: Word, step: Word): seq<Word>
    requires 0 < step && value <= end && end + step <= TWO_64
    decreases end - value
  {
    if value == end then [] else [value] + Visits(Next(value, end, step), end, step)
  }

  lemma {:induction false} VisitAt(value: Word, end: Word, step: Word, k: nat)
    requires 0 < step && value <= end && end + step <= TWO_64 && k < |Visits(value, end, step)|
    ensures Visits(value, end, step)[k] == value + k * step && value + k * step < end
    decreases k
  {
    if k > 0 {
      VisitAt(Next(value, end, step), end, step, k - 1);
      assert k * step == (k - 1) * step + step;
    }
  }

  lemma {:induction false} VisitsReachEnd(value: Word, end: Word, step: Word)
    requires 0 < step && value <= end && end + step <= TWO_64
    ensures value + |Visits(value, end, step)| * step >= end
    decreases end - value
  {
    if value != end {
      var next := Next(value, end, step);
      var n := |Visits(next, end, step)|;
      VisitsReachEnd(next, end, step);
      assert (n + 1) * step == n * step + step;
    }
  }

  /** Each of start, start + step, ... below the end is met once, in this order, and nothing else. */
  lemma VisitsEachStepOnce(value: Word, end: Word, step: Word)
    requires 0 < step && value <= end && end + step <= TWO_64
    ensures forall k: nat | k < |Visits(value, end, step)| ::
              Visits(value, end, step)[k] == value + k * step && value + k * step < end
    ensures value + |Visits(value, end, step)| * step >= end
  {
    forall k: nat | k < |Visits(value, end, step)|
      ensures Visits(value, end, step)[k] == value + k * step && value + k * step < end
    {
      VisitAt(value, end, step, k);
    }
    VisitsReachEnd(value, end, step);
  }
}
