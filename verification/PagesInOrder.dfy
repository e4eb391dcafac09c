/**
  From `mm::init` on: physical pages are handed out in the order of their addresses until 64 GiB are, and the first
  call that asks for more than is left frees pages in use. One bit a page, as the code intends.
 */
module PagesInOrder {
  import opened Words
  import opened Wrappers
  import opened PhysicalPages

  /** The pages from 6 MiB up to page `k` are tracked, and no other. */
  ghost predicate UpTo(words: seq<Word>, mask: Mask, k: nat)
  {
    && |words| == WORDS && FIRST_PAGE <= k <= PAGE_LIMIT
    && forall p: nat | p < PAGE_LIMIT :: Tracked(words, mask, p) <==> FIRST_PAGE <= p < k
  }

  function Consecutive(k: nat, n: nat): (r: seq<nat>)
    ensures |r| == n && forall i: nat | i < n :: r[i] == k + i
  {
    seq(n, i requires 0 <= i => k + i)
  }

  /** What `mm::init` leaves. */
  function NoneTracked(): seq<Word>
  {
    seq(WORDS, _ => 0)
  }

  lemma InitTracksNone(mask: Mask)
    ensures |NoneTracked()| == WORDS && UpTo(NoneTracked(), mask, FIRST_PAGE)
  {
    forall p: nat | p < PAGE_LIMIT
      ensures !Tracked(NoneTracked(), mask, p)
    {
      assert NoneTracked()[p / 64] == 0;
    }
  }

  lemma UpToOne(words: seq<Word>, mask: Mask, k: nat, l: nat)
    requires UpTo(words, mask, k) && UpTo(words, mask, l)
    ensures k == l
  {
    UpToAt(words, mask, k, if k < l then k else l);
    UpToAt(words, mask, l, if k < l then k else l);
  }

  lemma UpToAt(words: seq<Word>, mask: Mask, k: nat, p: nat)
    requires UpTo(words, mask, k) && p <= PAGE_LIMIT
    ensures |words| == WORDS && FIRST_PAGE <= k <= PAGE_LIMIT
    ensures p < PAGE_LIMIT ==> (Tracked(words, mask, p) <==> FIRST_PAGE <= p < k)
  {
  }

  lemma NextUpTo(words: seq<Word>, mask: Mask, k: nat)
    requires UpTo(words, mask, k) && OneBitMask(mask) && k < PAGE_LIMIT
    ensures UpTo(Track(words, mask, k), mask, k + 1)
  {
    forall p: nat | p < PAGE_LIMIT
      ensures Tracked(Track(words, mask, k), mask, p) <==> FIRST_PAGE <= p < k + 1
    {
      TrackOnly(words, mask, k, p);
    }
  }

  /** The search finds the next pages in order, as far as there are any. */
  lemma {:induction false} CollectInOrder(words: seq<Word>, mask: Mask, q: nat, k: nat, need: nat)
    requires UpTo(words, mask, k) && OneBitMask(mask) && FIRST_PAGE <= q <= k
    ensures var n := if k + need <= PAGE_LIMIT then need else PAGE_LIMIT - k;
      Collect(words, mask, q, need).pages == Consecutive(k, n) && UpTo(Collect(words, mask, q, need).words, mask, k + n)
    decreases PAGE_LIMIT - q
  {
    hide Tracked, Track, OneBitMask;
    if need > 0 && q < PAGE_LIMIT {
      if q < k {
        CollectInOrder(words, mask, q + 1, k, need);
      } else {
        NextUpTo(words, mask, k);
        CollectInOrder(Track(words, mask, k), mask, q + 1, k + 1, need - 1);
      }
    }
  }

  /** A call for `count` pages is given the next `count` pages, and falls short if and only if that passes 64 GiB. */
  lemma AllocInOrder(words: seq<Word>, mask: Mask, k: nat, count: nat)
    requires UpTo(words, mask, k) && OneBitMask(mask)
    ensures var (words', r) := AllocPages(words, mask, count);
      if k + count <= PAGE_LIMIT then r == Some(Consecutive(k, count)) && UpTo(words', mask, k + count) else r == None
  {
    hide UpTo, OneBitMask, Consecutive;
    UpToLimit(words, mask, k);
    CollectInOrder(words, mask, FIRST_PAGE, k, count);
  }

  /** From `mm::init`: page `i` of a call for up to 32765 lies at 6 MiB and `i` times 2 MiB; a call for more falls short. */
  lemma InitGrants(mask: Mask, count: nat)
    requires OneBitMask(mask)
    ensures var r := AllocPages(NoneTracked(), mask, count).1;
      if count <= 32765 then r.Some? && |r.value| == count && forall i: nat | i < count :: r.value[i] * 0x20_0000 == 0x60_0000 + i * 0x20_0000
      else r.None?
  {
    hide AllocPages, OneBitMask, UpTo, NoneTracked;
    InitTracksNone(mask);
    AllocInOrder(NoneTracked(), mask, FIRST_PAGE, count);
  }

  lemma UpToLimit(words: seq<Word>, mask: Mask, k: nat)
    requires UpTo(words, mask, k)
    ensures |words| == WORDS && FIRST_PAGE <= k <= PAGE_LIMIT
  {
  }

  /** After the first call that falls short a page is free if and only if rolling back a page not yet handed out clears it. */
  lemma FirstFailureTracks(words: seq<Word>, mask: Mask, k: nat, count: nat, p: nat)
    requires UpTo(words, mask, k) && OneBitMask(mask) && k + count > PAGE_LIMIT && FIRST_PAGE <= p < PAGE_LIMIT
    ensures AllocPages(words, mask, count).1.None? && |AllocPages(words, mask, count).0| == WORDS
    ensures !Tracked(AllocPages(words, mask, count).0, mask, p) <==>
              exists q: nat :: k <= q < PAGE_LIMIT && Clears(q, p)
  {
    hide UpTo, AllocPages, Hit, Clears, OneBitMask, Tracked;
    UpToAt(words, mask, k, p);
    AllocInOrder(words, mask, k, count);
    FailureTracks(words, mask, count, p);
    HitByLater(words, mask, k, p);
  }

  lemma HitByLater(words: seq<Word>, mask: Mask, k: nat, p: nat)
    requires UpTo(words, mask, k)
    ensures Hit(words, mask, p) <==> exists q: nat :: k <= q < PAGE_LIMIT && Clears(q, p)
  {
    hide Tracked, Clears;
    if q: nat :| k <= q < PAGE_LIMIT && Clears(q, p) {
      assert !Tracked(words, mask, q);
    }
  }

  // --- 1023 calls for 32 pages, and one more ---------------------------------------------------------

  const FULL: nat := 1023      // calls for 32 pages that 64 GiB are enough for
  const LEFT: nat := 32739     // the page after these
  const BACK: nat := 32704     // a page that the next call frees

  /** `n` calls for 32 pages each, from `mm::init` on. */
  lemma {:induction false} RunInOrder(mask: Mask, n: nat) returns (trace: seq<seq<Word>>, grants: seq<seq<nat>>)
    requires OneBitMask(mask) && n <= FULL
    ensures PageRun(trace, mask, grants) && |grants| == n && trace[0] == NoneTracked()
    ensures UpTo(trace[n], mask, FIRST_PAGE + 32 * n)
    ensures forall i: nat | i < n :: grants[i] == Consecutive(FIRST_PAGE + 32 * i, 32)
  {
    hide UpTo, OneBitMask, Grants;
    if n == 0 {
      InitTracksNone(mask);
      trace, grants := [NoneTracked()], [];
    } else {
      hide AllocPages, Consecutive;
      var trace0, grants0 := RunInOrder(mask, n - 1);
      var words := trace0[n - 1];
      AllocInOrder(words, mask, FIRST_PAGE + 32 * (n - 1), 32);
      var words' := AllocPages(words, mask, 32).0;
      var pages := Consecutive(FIRST_PAGE + 32 * (n - 1), 32);
      IsGrant(words, mask, pages, words');
      trace, grants := trace0 + [words'], grants0 + [pages];
    }
  }

  lemma IsGrant(words: seq<Word>, mask: Mask, pages: seq<nat>, words': seq<Word>)
    requires |words| == WORDS && AllocPages(words, mask, |pages|) == (words', Some(pages))
    ensures Grants(words, mask, pages, words') && |words'| == WORDS
  {
    hide Rollback, Collect;
  }

  lemma BackIsHit(mask: Mask, words: seq<Word>)
    requires UpTo(words, mask, LEFT) && OneBitMask(mask)
    ensures AllocPages(words, mask, 32).1.None? && |AllocPages(words, mask, 32).0| == WORDS
    ensures Tracked(words, mask, BACK) && !Tracked(AllocPages(words, mask, 32).0, mask, BACK)
    ensures forall p: nat | FIRST_PAGE <= p < BACK :: Tracked(AllocPages(words, mask, 32).0, mask, p)
  {
    hide AllocPages, Tracked, OneBitMask, UpTo;
    UpToAt(words, mask, LEFT, BACK);
    FirstFailureTracks(words, mask, LEFT, 32, BACK);
    assert Clears(LEFT, BACK);
    forall p: nat | FIRST_PAGE <= p < BACK
      ensures Tracked(AllocPages(words, mask, 32).0, mask, p)
    {
      FirstFailureTracks(words, mask, LEFT, 32, p);
      EarlierWord(p);
    }
  }

  lemma EarlierWord(p: nat)
    requires p < BACK
    ensures forall q: nat | LEFT <= q :: !Clears(q, p)
  {
  }

  /**
    A failing call frees a page in use: after 1023 calls for 32 pages from `mm::init` on, the next call for 32 finds 29,
    and the page it untracks is one that the 1022nd of them was granted.
   */
  lemma FailureReleasesGrantedPage(mask: Mask)
    requires OneBitMask(mask)
    ensures exists trace, grants ::
      && PageRun(trace, mask, grants) && |grants| == FULL && trace[0] == NoneTracked()
      && (forall i: nat | i < FULL :: |grants[i]| == 32) && BACK in grants[1021]
      && AllocPages(trace[FULL], mask, 32).1 == None && |AllocPages(trace[FULL], mask, 32).0| == WORDS
      && Tracked(trace[FULL], mask, BACK) && !Tracked(AllocPages(trace[FULL], mask, 32).0, mask, BACK)
  {
    hide AllocPages, Tracked, OneBitMask, PageRun;
    var trace, grants := RunInOrder(mask, FULL);
    RunLengths(trace, mask, grants);
    BackIsHit(mask, trace[FULL]);
    assert grants[1021][29] == BACK;
  }

  lemma RunLengths(trace: seq<seq<Word>>, mask: Mask, grants: seq<seq<nat>>)
    requires PageRun(trace, mask, grants)
    ensures |trace| == |grants| + 1 && forall i: nat | i < |trace| :: |trace[i]| == WORDS
  {
  }
}
