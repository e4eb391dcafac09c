/**
  A run of `mm::alloc` from `mm::init` on that hands out nearly 64 GiB, in which a failing call costs a granted page and
  the page is granted again.
 */
module SharedPages {
  import opened Words
  import opened Wrappers
  import opened PageModel
  import opened PageInvariant
  import opened PageTranslation
  import opened PageProgress
  import opened RangeFrames
  import opened MemoryModel
  import opened MemoryRuns
  import opened PagesInOrder

  const RW: Word := 2
  const GRANTED: nat := 32 * FULL   // pages granted by the calls that succeed

  /** The physical pages these calls are granted, in order. */
  function All(): seq<nat>
  {
    Consecutive(Phys.FIRST_PAGE, GRANTED)
  }

  /** Nothing is mapped from `FIRST` on for as many pages as there are physical ones, and 67 frames are free. */
  ghost predicate Roomy(s: Paging, root: nat)
  {
    Inv(s, root) && RangeFree(Translation(s.mem, root), FIRST, Phys.PAGE_LIMIT) && 67 <= |FreeFrames(s)|
  }

  lemma AllPages()
    ensures |All()| == GRANTED && FIRST + |All()| <= PAGES && PhysicalPagesOf(All())
    ensures forall i: nat | i < GRANTED :: All()[i] == Phys.FIRST_PAGE + i
  {
  }

  /** The tables for the whole run: 64 PDs and one PDPT. */
  lemma FewTables(m: Memory, root: nat, n: nat)
    requires n <= GRANTED
    ensures RangeMissing(m, root, FIRST, n) <= 65
  {
    FewFirsts(m, root, FIRST, n);
    FirstsAreBlocks(FIRST, n, 512);
    FirstsAreBlocks(FIRST, n, 0x4_0000);
    if n > 0 {
      BlocksGrow(FIRST + n - 1, FIRST + GRANTED - 1, 512);
      BlocksGrow(FIRST + n - 1, FIRST + GRANTED - 1, 0x4_0000);
    }
  }

  lemma RoomyShrinks(s: Paging, root: nat, n: nat)
    requires Roomy(s, root) && n <= GRANTED
    ensures Inv(s, root) && RangeFree(Translation(s.mem, root), FIRST, n) && 67 <= |FreeFrames(s)|
  {
    hide Inv, Translation, FreeFrames;
  }

  /** `map` for the first `n` pages completes, and leaves two free frames. */
  lemma LoopCompletes(s: Paging, root: nat, n: nat)
    requires Roomy(s, root) && n <= GRANTED && FIRST + |All()| <= PAGES && PhysicalPagesOf(All()) && n <= |All()|
    ensures Inv(s, root)
    ensures var r := MapPages(s, root, FIRST, All(), n, RW); r.Some? && 2 <= |FreeFrames(r.value)|
  {
    AllPages();
    RoomyShrinks(s, root, GRANTED);
    FewTables(s.mem, root, n);
    hide Inv, Translation, FreeFrames, MapPages, RangeMissing, All, Roomy;
    MapPagesProgress(s, root, FIRST, All(), n, RW);
  }

  /** The lowest free range, once the first `x` pages from `FIRST` on are mapped, is the one behind them. */
  lemma NextRange(t: map<nat, nat>, pages: seq<nat>, x: nat, count: nat)
    requires x <= |pages| && 0 < count && x + count <= Phys.PAGE_LIMIT && RangeFree(t, FIRST, Phys.PAGE_LIMIT)
    ensures FindRange(AddFirst(t, FIRST, pages, x), count) == Some(FIRST + x)
  {
    var t' := AddFirst(t, FIRST, pages, x);
    forall h: nat | FIRST + x <= h < FIRST + x + count
      ensures h !in t'
    {
      AddFirstAt(t, FIRST, pages, x, h);
    }
    forall u: nat | FIRST <= u < FIRST + x
      ensures !RangeFree(t', u, count)
    {
      AddFirstAt(t, FIRST, pages, x, u);
      assert u in t';
    }
    assert RangeFree(t', FIRST + x, count);
  }

  /** Where the run stands after `n` calls for 32 pages, from the tables `s` on. */
  ghost predicate Filled(m: Manager, s: Paging, root: nat, mask: Phys.Mask, n: nat)
  {
    && Roomy(s, root) && n <= FULL && Phys.OneBitMask(mask) && UpTo(m.words, mask, Phys.FIRST_PAGE + 32 * n)
    && FIRST + |All()| <= PAGES && PhysicalPagesOf(All()) && 32 * n <= |All()|
    && MapPages(s, root, FIRST, All(), 32 * n, RW) == Some(m.s) && m.owned == AddFirst(map[], FIRST, All(), 32 * n)
  }

  lemma FilledStart(s: Paging, root: nat, mask: Phys.Mask)
    requires Roomy(s, root) && Phys.OneBitMask(mask)
    ensures Filled(Manager(s, NoneTracked(), map[]), s, root, mask, 0)
  {
    AllPages();
    InitTracksNone(mask);
    hide Roomy, All, UpTo, NoneTracked, Phys.OneBitMask;
  }

  /** What a state that is filled knows of its tables. */
  lemma FilledTables(m: Manager, s: Paging, root: nat, mask: Phys.Mask, n: nat)
    requires Filled(m, s, root, mask, n)
    ensures Inv(m.s, root) && |m.words| == Phys.WORDS && 2 <= |FreeFrames(m.s)| && 32 * n <= |All()|
    ensures Translation(m.s.mem, root) == AddFirst(Translation(s.mem, root), FIRST, All(), 32 * n)
    ensures forall count: nat | 0 < count && 32 * n + count <= Phys.PAGE_LIMIT ::
              FindRange(Translation(m.s.mem, root), count) == Some(FIRST + 32 * n)
  {
    LoopCompletes(s, root, 32 * n);
    RoomyFree(s, root);
    UpToLimit(m.words, mask, Phys.FIRST_PAGE + 32 * n);
    hide Inv, Translation, FreeFrames, MapPages, All, Roomy, UpTo, FindRange, AddFirst, Phys.OneBitMask;
    forall count: nat | 0 < count && 32 * n + count <= Phys.PAGE_LIMIT
      ensures FindRange(Translation(m.s.mem, root), count) == Some(FIRST + 32 * n)
    {
      NextRange(Translation(s.mem, root), All(), 32 * n, count);
    }
  }

  lemma RoomyFree(s: Paging, root: nat)
    requires Roomy(s, root)
    ensures Inv(s, root) && RangeFree(Translation(s.mem, root), FIRST, Phys.PAGE_LIMIT)
  {
    hide Inv, Translation, FreeFrames;
  }

  lemma NextPart(n: nat)
    requires n < FULL
    ensures 32 * n + 32 <= |All()| && Consecutive(Phys.FIRST_PAGE + 32 * n, 32) == All()[32 * n..32 * n + 32]
  {
  }

  /** A call that finds a range and its pages, and whose loop completes. */
  lemma CallGranted(m: Manager, root: nat, mask: Phys.Mask, count: nat, g: nat, pages: seq<nat>, s': Paging) returns (m': Manager)
    requires Inv(m.s, root) && |m.words| == Phys.WORDS && 0 < count <= MAX_PAGES && g + |pages| <= PAGES && PhysicalPagesOf(pages)
    requires FindRange(Translation(m.s.mem, root), count) == Some(g)
    requires Phys.AllocPages(m.words, mask, count).1 == Some(pages) && |pages| == count
    requires MapPages(m.s, root, g, pages, count, RW) == Some(s')
    ensures m' == Manager(s', Phys.AllocPages(m.words, mask, count).0, Add(m.owned, g, pages))
    ensures Calls(m, root, mask, Call(count, RW), m')
  {
    hide Inv, Translation, MapPages, FindRange, Phys.AllocPages, Add;
    m' := Manager(s', Phys.AllocPages(m.words, mask, count).0, Add(m.owned, g, pages));
  }

  /** What follows is a state that is filled by one call more. */
  lemma FilledNext(m: Manager, s: Paging, root: nat, mask: Phys.Mask, n: nat, m': Manager)
    requires Filled(m, s, root, mask, n) && n < FULL && UpTo(m'.words, mask, Phys.FIRST_PAGE + 32 * n + 32)
    requires 32 * n + 32 <= |All()| && Inv(s, root) && MapPages(s, root, FIRST, All(), 32 * n + 32, RW) == Some(m'.s)
    requires m'.owned == AddFirst(map[], FIRST, All(), 32 * n + 32)
    ensures Filled(m', s, root, mask, n + 1)
  {
    hide Inv, MapPages, Roomy, UpTo, AddFirst, Phys.OneBitMask, All;
    assert 32 * (n + 1) == 32 * n + 32;
  }

  lemma FilledFacts(m: Manager, s: Paging, root: nat, mask: Phys.Mask, n: nat)
    requires Filled(m, s, root, mask, n)
    ensures Roomy(s, root) && Phys.OneBitMask(mask) && UpTo(m.words, mask, Phys.FIRST_PAGE + 32 * n)
    ensures Inv(s, root) && FIRST + |All()| <= PAGES && PhysicalPagesOf(All()) && 32 * n <= |All()|
    ensures MapPages(s, root, FIRST, All(), 32 * n, RW) == Some(m.s) && m.owned == AddFirst(map[], FIRST, All(), 32 * n)
  {
    RoomyFree(s, root);
    hide Inv, MapPages, Roomy, UpTo, AddFirst, Phys.OneBitMask, All;
  }

  lemma FillStep(m: Manager, s: Paging, root: nat, mask: Phys.Mask, n: nat) returns (m': Manager)
    requires Filled(m, s, root, mask, n) && n < FULL
    ensures Calls(m, root, mask, Call(32, RW), m') && Filled(m', s, root, mask, n + 1)
  {
    hide Filled, Calls, Inv, Translation, FreeFrames, MapPages, Roomy, UpTo, FindRange, AddFirst, Phys.OneBitMask, All, Consecutive,
         Phys.AllocPages;
    var part := Consecutive(Phys.FIRST_PAGE + 32 * n, 32);
    FilledFacts(m, s, root, mask, n);
    FilledTables(m, s, root, mask, n);
    NextPart(n);
    LoopCompletes(s, root, 32 * n + 32);
    AllocInOrder(m.words, mask, Phys.FIRST_PAGE + 32 * n, 32);
    MapPagesOn(s, root, FIRST, All(), 32 * n, part, 32, RW, m.s);
    AddFirstOn(map[], FIRST, All(), 32 * n, part, 32);
    m' := CallGranted(m, root, mask, 32, FIRST + 32 * n, part, MapPages(s, root, FIRST, All(), 32 * n + 32, RW).value);
    FilledNext(m, s, root, mask, n, m');
  }

  lemma RunAppends(trace: seq<Manager>, root: nat, mask: Phys.Mask, calls: seq<Call>, call: Call, m: Manager)
    requires Run(trace, root, mask, calls) && Calls(trace[|calls|], root, mask, call, m)
    ensures Run(trace + [m], root, mask, calls + [call])
  {
    hide Calls;
    var trace', calls' := trace + [m], calls + [call];
    forall i: nat | i < |calls'|
      ensures Calls(trace'[i], root, mask, calls'[i], trace'[i + 1])
    {
      if i < |calls| {
        assert Calls(trace[i], root, mask, calls[i], trace[i + 1]);
      }
    }
  }

  /** `n` calls for 32 pages each. */
  lemma {:induction false} FillRun(s: Paging, root: nat, mask: Phys.Mask, n: nat) returns (trace: seq<Manager>, calls: seq<Call>)
    requires Roomy(s, root) && Phys.OneBitMask(mask) && n <= FULL
    ensures Run(trace, root, mask, calls) && |trace| == n + 1 && calls == seq(n, _ => Call(32, RW))
    ensures trace[0] == Manager(s, NoneTracked(), map[]) && Filled(trace[n], s, root, mask, n)
  {
    hide Roomy, Phys.OneBitMask, Filled, Calls, NoneTracked;
    if n == 0 {
      FilledStart(s, root, mask);
      trace, calls := [Manager(s, NoneTracked(), map[])], [];
    } else {
      var trace0, calls0 := FillRun(s, root, mask, n - 1);
      var m := FillStep(trace0[n - 1], s, root, mask, n - 1);
      RunAppends(trace0, root, mask, calls0, Call(32, RW), m);
      trace, calls := trace0 + [m], calls0 + [Call(32, RW)];
    }
  }

  /** The next call for 32 finds 29 pages, fails, and leaves a page granted before free. */
  lemma ShortCall(m: Manager, root: nat, mask: Phys.Mask, count: nat) returns (m': Manager)
    requires Inv(m.s, root) && UpTo(m.words, mask, LEFT) && Phys.OneBitMask(mask) && count == 32
    requires FindRange(Translation(m.s.mem, root), count).Some?
    ensures Calls(m, root, mask, Call(count, RW), m') && m' == Manager(m.s, m'.words, m.owned)
    ensures |m'.words| == Phys.WORDS && !Phys.Tracked(m'.words, mask, BACK)
    ensures forall p: nat | Phys.FIRST_PAGE <= p < BACK :: Phys.Tracked(m'.words, mask, p)
  {
    hide Inv, Translation, FindRange, Phys.AllocPages, Phys.Tracked, Phys.OneBitMask, UpTo, MapPages;
    UpToLimit(m.words, mask, LEFT);
    BackIsHit(mask, m.words);
    m' := Manager(m.s, Phys.AllocPages(m.words, mask, count).0, m.owned);
  }

  lemma OneGranted(s: Paging, root: nat, g: nat, p: nat)
    requires Inv(s, root) && g < PAGES && p < Phys.PAGE_LIMIT && g !in Translation(s.mem, root) && 2 <= |FreeFrames(s)|
    ensures PhysicalPagesOf([p]) && MapPages(s, root, g, [p], 1, RW).Some?
  {
    OneMissing(s.mem, root, g);
    hide Inv, MapNumbered, Translation, FreeFrames, PageHasPd, PageHasPdpt, RangeMissing, MapPages;
    MapPagesProgress(s, root, g, [p], 1, RW);
  }

  lemma NotMapped(t: map<nat, nat>, g: nat)
    requires FindRange(t, 1) == Some(g)
    ensures g < LAST && g !in t
  {
    assert RangeFree(t, g, 1);
  }

  /** The last call, for one page, is granted that page once more. */
  lemma GrantedAgain(m: Manager, root: nat, mask: Phys.Mask, g: nat) returns (m': Manager)
    requires Inv(m.s, root) && |m.words| == Phys.WORDS && 2 <= |FreeFrames(m.s)|
    requires FindRange(Translation(m.s.mem, root), 1) == Some(g) && !Phys.Tracked(m.words, mask, BACK)
    requires forall p: nat | Phys.FIRST_PAGE <= p < BACK :: Phys.Tracked(m.words, mask, p)
    ensures Calls(m, root, mask, Call(1, RW), m') && m'.owned == Add(m.owned, g, [BACK])
    ensures Translation(m'.s.mem, root) == Add(Translation(m.s.mem, root), g, [BACK])
  {
    hide Inv, Translation, FreeFrames, Phys.Tracked, FindRange, Phys.Track, MapPages, Phys.AllocPages;
    Phys.LowestPageGranted(m.words, mask, BACK);
    NotMapped(Translation(m.s.mem, root), g);
    OneGranted(m.s, root, g, BACK);
    var s' := MapPages(m.s, root, g, [BACK], 1, RW).value;
    m' := Manager(s', Phys.AllocPages(m.words, mask, 1).0, Add(m.owned, g, [BACK]));
    assert Alloc(m.s, root, m.words, mask, 1, RW) == Granted(s', m'.words, g, [BACK]);
  }

  const OLD_GRANT: nat := FIRST + (BACK - Phys.FIRST_PAGE)   // the page granted `BACK` by the 1022nd call
  const NEW_GRANT: nat := FIRST + GRANTED                    // the page granted it by the last

  /**
    The run: from `s` and an empty bitmap, 1024 calls for 32 pages and one for one page. At its end two granted pages
    translate to the same physical page.
   */
  ghost predicate EndsSharing(trace: seq<Manager>, calls: seq<Call>, s: Paging, root: nat, mask: Phys.Mask)
  {
    && Run(trace, root, mask, calls) && trace[0] == Manager(s, NoneTracked(), map[])
    && calls == seq(FULL, _ => Call(32, RW)) + [Call(32, RW), Call(1, RW)]
    && var m := trace[|calls|];
    && OLD_GRANT in m.owned && NEW_GRANT in m.owned && OLD_GRANT != NEW_GRANT
    && var t := Translation(m.s.mem, root);
    && OLD_GRANT in t && NEW_GRANT in t && t[OLD_GRANT] == t[NEW_GRANT]
  }

  lemma BothThere(t: map<nat, nat>)
    ensures |All()| == GRANTED
    ensures var t' := Add(AddFirst(t, FIRST, All(), GRANTED), NEW_GRANT, [BACK]);
      OLD_GRANT in t' && NEW_GRANT in t' && t'[OLD_GRANT] == BACK * PAGE == t'[NEW_GRANT]
  {
    AllPages();
    hide All, AddFirst;
    AddFirstAt(t, FIRST, All(), GRANTED, OLD_GRANT);
    var t1 := AddFirst(t, FIRST, All(), GRANTED);
    AddAt(t1, NEW_GRANT, [BACK], OLD_GRANT);
    AddAt(t1, NEW_GRANT, [BACK], NEW_GRANT);
  }

  lemma FilledOwns(m: Manager, s: Paging, root: nat, mask: Phys.Mask, n: nat)
    requires Filled(m, s, root, mask, n) && n == FULL
    ensures |All()| == GRANTED && m.owned == AddFirst(map[], FIRST, All(), GRANTED) && UpTo(m.words, mask, LEFT)
  {
    hide Roomy, MapPages, UpTo, Phys.OneBitMask;
    AllPages();
  }

  /** From `mm::init` on, with room for the tables, a failing call can cost a page granted before, which is granted again. */
  lemma GrantsCanShare(s: Paging, root: nat, mask: Phys.Mask)
    requires Roomy(s, root) && Phys.OneBitMask(mask)
    ensures exists trace, calls :: EndsSharing(trace, calls, s, root, mask)
  {
    hide Roomy, Filled, Calls, Translation, All, AddFirst, FindRange, FreeFrames, Inv, NoneTracked, Phys.OneBitMask, Phys.Tracked, UpTo;
    var n := FULL;
    var trace0, calls0 := FillRun(s, root, mask, n);
    var m0 := trace0[n];
    FilledTables(m0, s, root, mask, n);
    FilledOwns(m0, s, root, mask, n);
    var m1 := ShortCall(m0, root, mask, 32);
    RunAppends(trace0, root, mask, calls0, Call(32, RW), m1);
    var m2 := GrantedAgain(m1, root, mask, NEW_GRANT);
    RunAppends(trace0 + [m1], root, mask, calls0 + [Call(32, RW)], Call(1, RW), m2);
    BothThere(map[]);
    BothThere(Translation(s.mem, root));
    var trace, calls := trace0 + [m1] + [m2], calls0 + [Call(32, RW)] + [Call(1, RW)];
    assert calls == calls0 + [Call(32, RW), Call(1, RW)];
    assert EndsSharing(trace, calls, s, root, mask);
  }
}
