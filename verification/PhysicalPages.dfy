/**
  The physical page bitmap of `mm.cpp`. The mask for a page's bit is `1 << n` with `1` an
  `int` and n up to 63, which the language leaves undefined for large n: the functions take
  the mask as a parameter, and most theorems need only that it is never zero.
 */
module PhysicalPages {
  import opened Words
  import opened Wrappers
  import opened Bitmaps

  const FIRST_PAGE: nat := 3            // 0x600000
  const PAGE_LIMIT: nat := 0x8000       // PHYS_SIZE, 64 GiB
  const WORDS: nat := 0x1000            // PHYS_SIZE >> 24

  type Mask = nat -> Word

  ghost predicate NonzeroMask(mask: Mask)
  {
    forall n: nat | n < 64 :: mask(n) != 0
  }

  /** The reading the code intends: bit n of a 64-bit word. */
  ghost predicate OneBitMask(mask: Mask)
  {
    forall n: nat | n < 64 :: mask(n) == Pow2(n)
  }

  /** `m_physicalTrackingStructure[idx] & bit` for page `q`. */
  predicate Tracked(words: seq<Word>, mask: Mask, q: nat)
    requires |words| == WORDS && q < PAGE_LIMIT
  {
    And(words[q / 64], mask(q % 64)) != 0
  }

  function Track(words: seq<Word>, mask: Mask, q: nat): seq<Word>
    requires |words| == WORDS && q < PAGE_LIMIT
  {
    words[q / 64 := Or64(words[q / 64], mask(q % 64))]
  }

  ghost predicate InLimits(pages: seq<nat>, first: nat)
  {
    forall i: nat | i < |pages| :: first <= pages[i] < PAGE_LIMIT
  }

  datatype Collected = Collected(words: seq<Word>, pages: seq<nat>)

  /** The first loop of `allocPhysicalPages`, from page `q` on with `need` pages still to find. */
  function Collect(words: seq<Word>, mask: Mask, q: nat, need: nat): (r: Collected)
    requires |words| == WORDS && q <= PAGE_LIMIT
    ensures |r.words| == WORDS && |r.pages| <= need && InLimits(r.pages, q)
    decreases PAGE_LIMIT - q
  {
    if q == PAGE_LIMIT || need == 0 then Collected(words, [])
    else if !Tracked(words, mask, q) then
      var rest := Collect(Track(words, mask, q), mask, q + 1, need - 1);
      Collected(rest.words, [q] + rest.pages)
    else Collect(words, mask, q + 1, need)
  }

  /** The second loop: the mask here is the bit's number itself, not shifted. */
  function Rollback(words: seq<Word>, pages: seq<nat>): (r: seq<Word>)
    requires |words| == WORDS && InLimits(pages, 0)
    ensures |r| == WORDS
    decreases |pages|
  {
    if pages == [] then words
    else
      var q := pages[0];
      Rollback(words[q / 64 := And64(words[q / 64], Not64(q % 64))], pages[1..])
  }

  /** `allocPhysicalPages`: the words after it, and the pages it returns on success. */
  function AllocPages(words: seq<Word>, mask: Mask, count: nat): (seq<Word>, Option<seq<nat>>)
    requires |words| == WORDS
  {
    var c := Collect(words, mask, FIRST_PAGE, count);
    if |c.pages| == count then (c.words, Some(c.pages)) else (Rollback(c.words, c.pages), None)
  }

  // --- any mask that is never zero ---------------------------------------------------------------

  lemma {:induction false} OrKeepsTest(w: nat, x: nat, m: nat)
    ensures And(Or(w, x), m) >= And(w, m)
  {
    if w != 0 && x != 0 && m != 0 {
      OrKeepsTest(w / 2, x / 2, m / 2);
      assert Or(w, x) / 2 == Or(w / 2, x / 2);
    }
  }

  lemma {:induction false} OrSetsTest(w: nat, m: nat)
    ensures And(Or(w, m), m) == m
  {
    if w == 0 {
      AndSelf(m);
    } else if m != 0 {
      OrSetsTest(w / 2, m / 2);
      assert Or(w, m) / 2 == Or(w / 2, m / 2);
    }
  }

  lemma TrackKeeps(words: seq<Word>, mask: Mask, q: nat, p: nat)
    requires |words| == WORDS && q < PAGE_LIMIT && p < PAGE_LIMIT
    ensures Tracked(words, mask, p) ==> Tracked(Track(words, mask, q), mask, p)
    ensures NonzeroMask(mask) ==> Tracked(Track(words, mask, q), mask, q)
  {
    if p / 64 == q / 64 {
      OrKeepsTest(words[q / 64], mask(q % 64), mask(p % 64));
    }
    OrSetsTest(words[q / 64], mask(q % 64));
  }

  ghost predicate StrictlyIncreasing(pages: seq<nat>)
  {
    forall a: nat, b: nat | a < b < |pages| :: pages[a] < pages[b]
  }

  lemma {:induction false} CollectKeeps(words: seq<Word>, mask: Mask, q: nat, need: nat, p: nat)
    requires |words| == WORDS && q <= PAGE_LIMIT && p < PAGE_LIMIT && Tracked(words, mask, p)
    ensures Tracked(Collect(words, mask, q, need).words, mask, p)
    decreases PAGE_LIMIT - q
  {
    if q < PAGE_LIMIT && need > 0 {
      if !Tracked(words, mask, q) {
        TrackKeeps(words, mask, q, p);
        CollectKeeps(Track(words, mask, q), mask, q + 1, need - 1, p);
      } else {
        CollectKeeps(words, mask, q + 1, need, p);
      }
    }
  }

  lemma {:induction false} CollectIncreases(words: seq<Word>, mask: Mask, q: nat, need: nat)
    requires |words| == WORDS && q <= PAGE_LIMIT
    ensures StrictlyIncreasing(Collect(words, mask, q, need).pages)
    decreases PAGE_LIMIT - q
  {
    if q < PAGE_LIMIT && need > 0 {
      if !Tracked(words, mask, q) {
        CollectIncreases(Track(words, mask, q), mask, q + 1, need - 1);
      } else {
        CollectIncreases(words, mask, q + 1, need);
      }
    }
  }

  /** What a page is worth: it was not tracked before the call and is afterwards. */
  lemma {:induction false} CollectTracks(words: seq<Word>, mask: Mask, q: nat, need: nat, p: nat)
    requires |words| == WORDS && q <= PAGE_LIMIT && NonzeroMask(mask) && p in Collect(words, mask, q, need).pages
    ensures p < PAGE_LIMIT && !Tracked(words, mask, p) && Tracked(Collect(words, mask, q, need).words, mask, p)
    decreases PAGE_LIMIT - q
  {
    hide And, Or, NonzeroMask;
    if q < PAGE_LIMIT && need > 0 {
      if !Tracked(words, mask, q) {
        var next := Track(words, mask, q);
        assert p == q || p in Collect(next, mask, q + 1, need - 1).pages;
        if p == q {
          TrackKeeps(words, mask, q, q);
          CollectKeeps(next, mask, q + 1, need - 1, q);
        } else {
          CollectTracks(next, mask, q + 1, need - 1, p);
          TrackKeeps(words, mask, q, p);
        }
      } else {
        CollectTracks(words, mask, q + 1, need, p);
      }
    }
  }

  /**
    A successful call returns exactly `count` pages, in strictly increasing order, between
    6 MiB and 64 GiB, each of them untracked before and tracked after; no page is untracked.
   */
  lemma AllocPagesTracks(words: seq<Word>, mask: Mask, count: nat)
    requires |words| == WORDS && NonzeroMask(mask) && AllocPages(words, mask, count).1.Some?
    ensures var (words', r) := AllocPages(words, mask, count);
      && |words'| == WORDS && |r.value| == count && StrictlyIncreasing(r.value)
      && (forall p | p in r.value :: FIRST_PAGE <= p < PAGE_LIMIT && !Tracked(words, mask, p) && Tracked(words', mask, p))
      && (forall p: nat | p < PAGE_LIMIT && Tracked(words, mask, p) :: Tracked(words', mask, p))
  {
    var c := Collect(words, mask, FIRST_PAGE, count);
    CollectIncreases(words, mask, FIRST_PAGE, count);
    forall p | p in c.pages
      ensures FIRST_PAGE <= p < PAGE_LIMIT && !Tracked(words, mask, p) && Tracked(c.words, mask, p)
    {
      CollectTracks(words, mask, FIRST_PAGE, count, p);
    }
    forall p: nat | p < PAGE_LIMIT && Tracked(words, mask, p)
      ensures Tracked(c.words, mask, p)
    {
      CollectKeeps(words, mask, FIRST_PAGE, count, p);
    }
  }

  // --- runs of successful calls --------------------------------------------------------------------

  /** Each call of the run succeeds, with `grants[i]` its pages. */
  ghost predicate PageRun(trace: seq<seq<Word>>, mask: Mask, grants: seq<seq<nat>>)
  {
    && |trace| == |grants| + 1 && (forall i: nat | i < |trace| :: |trace[i]| == WORDS)
    && forall i: nat | i < |grants| :: Grants(trace[i], mask, grants[i], trace[i + 1])
  }

  ghost predicate Grants(words: seq<Word>, mask: Mask, pages: seq<nat>, words': seq<Word>)
    requires |words| == WORDS
  {
    AllocPages(words, mask, |pages|) == (words', Some(pages))
  }

  lemma GrantTracks(words: seq<Word>, mask: Mask, pages: seq<nat>, words': seq<Word>, p: nat)
    requires |words| == WORDS && NonzeroMask(mask) && Grants(words, mask, pages, words') && p < PAGE_LIMIT
    ensures |words'| == WORDS
    ensures p in pages ==> !Tracked(words, mask, p)
    ensures p in pages || Tracked(words, mask, p) ==> Tracked(words', mask, p)
  {
    if p in pages {
      CollectTracks(words, mask, FIRST_PAGE, |pages|, p);
    } else if Tracked(words, mask, p) {
      CollectKeeps(words, mask, FIRST_PAGE, |pages|, p);
    }
  }

  lemma {:induction false} TrackedLater(trace: seq<seq<Word>>, mask: Mask, grants: seq<seq<nat>>, i: nat, j: nat, p: nat)
    requires PageRun(trace, mask, grants) && NonzeroMask(mask) && i < j < |trace|
    requires p in grants[i] && p < PAGE_LIMIT
    ensures Tracked(trace[j], mask, p)
    decreases j
  {
    hide Grants, Tracked;
    var k := j - 1;
    if i < k {
      TrackedLater(trace, mask, grants, i, k, p);
    }
    assert Grants(trace[k], mask, grants[k], trace[k + 1]);
    GrantTracks(trace[k], mask, grants[k], trace[k + 1], p);
  }

  /** Over any run of successful calls no page is handed out twice. */
  lemma NoPageTwice(trace: seq<seq<Word>>, mask: Mask, grants: seq<seq<nat>>, i: nat, j: nat, p: nat)
    requires PageRun(trace, mask, grants) && NonzeroMask(mask) && i < j < |grants|
    ensures !(p in grants[i] && p in grants[j])
  {
    if p in grants[i] && p in grants[j] {
      assert Grants(trace[j], mask, grants[j], trace[j + 1]);
      GrantedBelowLimit(trace[j], mask, grants[j], p);
      TrackedLater(trace, mask, grants, i, j, p);
      GrantTracks(trace[j], mask, grants[j], trace[j + 1], p);
      assert false;
    }
  }

  lemma GrantedBelowLimit(words: seq<Word>, mask: Mask, pages: seq<nat>, p: nat)
    requires |words| == WORDS && AllocPages(words, mask, |pages|).1 == Some(pages) && p in pages
    ensures FIRST_PAGE <= p < PAGE_LIMIT
  {
  }

  // --- the one-bit mask -----------------------------------------------------------------------------

  lemma TrackedIsBit(words: seq<Word>, mask: Mask, q: nat)
    requires |words| == WORDS && q < PAGE_LIMIT && OneBitMask(mask)
    ensures Tracked(words, mask, q) <==> Bit(words[q / 64], q % 64)
  {
    TestBit(words[q / 64], q % 64);
  }

  lemma TrackOnly(words: seq<Word>, mask: Mask, q: nat, p: nat)
    requires |words| == WORDS && q < PAGE_LIMIT && p < PAGE_LIMIT && OneBitMask(mask)
    ensures Tracked(Track(words, mask, q), mask, p) <==> Tracked(words, mask, p) || p == q
  {
    TrackedIsBit(words, mask, p);
    TrackedIsBit(Track(words, mask, q), mask, p);
    if p / 64 == q / 64 {
      SetBit(words[q / 64], q % 64, p % 64);
      if p % 64 == q % 64 {
        SameBit(64, p, q);
      }
    }
  }

  /** With one bit a page, only the pages found change. */
  lemma {:induction false} CollectOnly(words: seq<Word>, mask: Mask, q: nat, need: nat, p: nat)
    requires |words| == WORDS && q <= PAGE_LIMIT && OneBitMask(mask) && p < PAGE_LIMIT
    ensures var r := Collect(words, mask, q, need); Tracked(r.words, mask, p) <==> Tracked(words, mask, p) || p in r.pages
    decreases PAGE_LIMIT - q
  {
    if q < PAGE_LIMIT && need > 0 {
      if !Tracked(words, mask, q) {
        CollectOnly(Track(words, mask, q), mask, q + 1, need - 1, p);
        TrackOnly(words, mask, q, p);
      } else {
        CollectOnly(words, mask, q + 1, need, p);
      }
    }
  }

  /** With one bit a page, the pages found are the lowest untracked ones. */
  lemma {:induction false} CollectLowest(words: seq<Word>, mask: Mask, q: nat, need: nat, p: nat)
    requires |words| == WORDS && OneBitMask(mask) && q <= p < PAGE_LIMIT && !Tracked(words, mask, p)
    ensures var r := Collect(words, mask, q, need);
      p in r.pages || (|r.pages| == need && forall i: nat | i < need :: r.pages[i] < p)
    decreases PAGE_LIMIT - q
  {
    if need > 0 {
      if !Tracked(words, mask, q) {
        if p != q {
          TrackOnly(words, mask, q, p);
          CollectLowest(Track(words, mask, q), mask, q + 1, need - 1, p);
        }
      } else {
        CollectLowest(words, mask, q + 1, need, p);
      }
    }
  }

  /** The bits a rollback clears: those of the pages' bit numbers, read as masks. */
  ghost predicate Cleared(pages: seq<nat>, word: nat, n: nat)
  {
    exists q :: q in pages && q / 64 == word && Bit(q % 64, n)
  }

  lemma {:induction false} RollbackBits(words: seq<Word>, pages: seq<nat>, word: nat, n: nat)
    requires |words| == WORDS && InLimits(pages, 0) && word < WORDS && n < 64
    ensures Bit(Rollback(words, pages)[word], n) <==> Bit(words[word], n) && !Cleared(pages, word, n)
    decreases |pages|
  {
    if pages != [] {
      var q, rest := pages[0], pages[1..];
      RollbackBits(words[q / 64 := And64(words[q / 64], Not64(q % 64))], rest, word, n);
      if q / 64 == word {
        AndBit(words[word], Not64(q % 64), n);
        assert Pow2(64) == TWO_64 by { Pow2Values(); }
        NotBit(q % 64, 64, n);
      }
      assert forall x :: x in pages <==> x == q || x in rest;
    }
  }

  /** Rolling back page `q` clears the bit of page `p`: they are in one word, and the number of `q` in it has that bit. */
  predicate Clears(q: nat, p: nat)
  {
    q / 64 == p / 64 && Bit(q % 64, p % 64)
  }

  /** There is a free page whose rollback clears the bit of page `p`. */
  ghost predicate Hit(words: seq<Word>, mask: Mask, p: nat)
    requires |words| == WORDS
  {
    exists q: nat :: FIRST_PAGE <= q < PAGE_LIMIT && !Tracked(words, mask, q) && Clears(q, p)
  }

  lemma FoundTracks(words: seq<Word>, mask: Mask, count: nat, p: nat)
    requires |words| == WORDS && OneBitMask(mask) && AllocPages(words, mask, count).1.None? && p < PAGE_LIMIT
    ensures |AllocPages(words, mask, count).0| == WORDS
    ensures var found := Collect(words, mask, FIRST_PAGE, count).pages;
      Tracked(AllocPages(words, mask, count).0, mask, p) <==>
        (Tracked(words, mask, p) || p in found) && !Cleared(found, p / 64, p % 64)
  {
    var c := Collect(words, mask, FIRST_PAGE, count);
    CollectOnly(words, mask, FIRST_PAGE, count, p);
    RollbackBits(c.words, c.pages, p / 64, p % 64);
    TrackedIsBit(c.words, mask, p);
    TrackedIsBit(Rollback(c.words, c.pages), mask, p);
  }

  /** A call that falls short has found all free pages. */
  lemma FindsAll(words: seq<Word>, mask: Mask, count: nat, q: nat)
    requires |words| == WORDS && OneBitMask(mask) && AllocPages(words, mask, count).1.None?
    ensures q in Collect(words, mask, FIRST_PAGE, count).pages <==> FIRST_PAGE <= q < PAGE_LIMIT && !Tracked(words, mask, q)
  {
    var found := Collect(words, mask, FIRST_PAGE, count).pages;
    if q in found {
      MaskIsNonzero(mask);
      CollectTracks(words, mask, FIRST_PAGE, count, q);
    }
    if FIRST_PAGE <= q < PAGE_LIMIT && !Tracked(words, mask, q) {
      CollectLowest(words, mask, FIRST_PAGE, count, q);
    }
  }

  lemma ClearedIsHit(words: seq<Word>, mask: Mask, count: nat, p: nat)
    requires |words| == WORDS && OneBitMask(mask) && AllocPages(words, mask, count).1.None?
    ensures Cleared(Collect(words, mask, FIRST_PAGE, count).pages, p / 64, p % 64) <==> Hit(words, mask, p)
  {
    hide AllocPages, Collect, Tracked, OneBitMask, Bit;
    var found := Collect(words, mask, FIRST_PAGE, count).pages;
    if q :| q in found && q / 64 == p / 64 && Bit(q % 64, p % 64) {
      FindsAll(words, mask, count, q);
      assert Clears(q, p);
    }
    if q: nat :| FIRST_PAGE <= q < PAGE_LIMIT && !Tracked(words, mask, q) && Clears(q, p) {
      FindsAll(words, mask, count, q);
    }
  }

  /** After a failing call every page from 6 MiB on is tracked, and no page below that was not before, but for those hit. */
  lemma FailureTracks(words: seq<Word>, mask: Mask, count: nat, p: nat)
    requires |words| == WORDS && OneBitMask(mask) && AllocPages(words, mask, count).1.None? && p < PAGE_LIMIT
    ensures |AllocPages(words, mask, count).0| == WORDS
    ensures Tracked(AllocPages(words, mask, count).0, mask, p) <==>
              (Tracked(words, mask, p) || FIRST_PAGE <= p) && !Hit(words, mask, p)
  {
    FoundTracks(words, mask, count, p);
    FindsAll(words, mask, count, p);
    ClearedIsHit(words, mask, count, p);
  }

  /**
    A failing call gives the bitmap back as it was if and only if there was no free page to
    begin with: a page found and rolled back stays tracked when it is the last of its word.
   */
  lemma FailureRestoresIff(words: seq<Word>, mask: Mask, count: nat)
    requires |words| == WORDS && OneBitMask(mask) && AllocPages(words, mask, count).1.None?
    ensures AllocPages(words, mask, count).0 == words <==>
            forall p: nat | FIRST_PAGE <= p < PAGE_LIMIT :: Tracked(words, mask, p)
  {
    var c := Collect(words, mask, FIRST_PAGE, count);
    if c.pages == [] {
      CollectNothing(words, mask, FIRST_PAGE, count);
      forall p: nat | FIRST_PAGE <= p < PAGE_LIMIT
        ensures Tracked(words, mask, p)
      {
        if !Tracked(words, mask, p) { CollectLowest(words, mask, FIRST_PAGE, count, p); }
      }
    } else {
      var q := c.pages[|c.pages| - 1];
      MaskIsNonzero(mask);
      CollectTracks(words, mask, FIRST_PAGE, count, q);
      CollectIncreases(words, mask, FIRST_PAGE, count);
      LastNotCleared(c.pages);
      FoundTracks(words, mask, count, q);
    }
  }

  lemma MaskIsNonzero(mask: Mask)
    requires OneBitMask(mask)
    ensures NonzeroMask(mask)
  {
  }

  lemma {:induction false} CollectNothing(words: seq<Word>, mask: Mask, q: nat, need: nat)
    requires |words| == WORDS && q <= PAGE_LIMIT && Collect(words, mask, q, need).pages == []
    ensures Collect(words, mask, q, need).words == words
    decreases PAGE_LIMIT - q
  {
    if q < PAGE_LIMIT && need > 0 {
      CollectNothing(words, mask, q + 1, need);
    }
  }

  lemma {:induction false} BelowPow2(n: nat)
    ensures n < Pow2(n)
  {
    if n > 0 { BelowPow2(n - 1); }
  }

  /** The bit of the last page is above every bit number found in its word. */
  lemma LastNotCleared(pages: seq<nat>)
    requires pages != [] && StrictlyIncreasing(pages)
    ensures var q := pages[|pages| - 1]; !Cleared(pages, q / 64, q % 64)
  {
    var q := pages[|pages| - 1];
    forall p | p in pages && p / 64 == q / 64
      ensures !Bit(p % 64, q % 64)
    {
      var k :| 0 <= k < |pages| && pages[k] == p;
      assert p <= q;
      BelowPow2(q % 64);
      HighBit(p % 64, q % 64);
    }
  }

  // --- the lowest free page ---------------------------------------------------------------------------

  /** A call for one page is given the lowest free one, with any mask. */
  lemma LowestPageGranted(words: seq<Word>, mask: Mask, p: nat)
    requires |words| == WORDS && FIRST_PAGE <= p < PAGE_LIMIT && !Tracked(words, mask, p)
    requires forall q: nat | FIRST_PAGE <= q < p :: Tracked(words, mask, q)
    ensures AllocPages(words, mask, 1) == (Track(words, mask, p), Some([p]))
  {
    hide Tracked, Track;
    CollectLower(words, mask, FIRST_PAGE, p);
  }

  lemma {:induction false} CollectLower(words: seq<Word>, mask: Mask, q: nat, p: nat)
    requires |words| == WORDS && q <= p < PAGE_LIMIT && !Tracked(words, mask, p)
    requires forall x: nat | q <= x < p :: Tracked(words, mask, x)
    ensures Collect(words, mask, q, 1) == Collected(Track(words, mask, p), [p])
    decreases p - q
  {
    hide Tracked;
    if q < p {
      CollectLower(words, mask, q + 1, p);
    } else {
      NoneNeeded(Track(words, mask, p), mask, p + 1);
    }
  }

  lemma NoneNeeded(words: seq<Word>, mask: Mask, q: nat)
    requires |words| == WORDS && q <= PAGE_LIMIT
    ensures Collect(words, mask, q, 0) == Collected(words, [])
  {
  }
}
