/**
  `mm::alloc`: a virtual range, physical pages for it, and `map` for each of them. Virtual and
  physical pages are numbered by address / 2 MiB.
 */
module MemoryModel {
  import opened Words
  import opened Wrappers
  import opened PageModel
  import opened PageInvariant
  import opened PageTranslation
  import opened PageProgress
  import opened RangeFrames
  import Phys = PhysicalPages

  const FIRST: nat := 0x400        // 0x80000000
  const LAST: nat := 0x7FF_F800    // 0xFFFF00000000
  const MAX_PAGES: nat := 32

  // --- findVirtualRange ---------------------------------------------------------------------------

  /** None of the `count` pages from `g` on is mapped. */
  predicate RangeFree(t: map<nat, nat>, g: nat, count: nat)
  {
    forall h: nat | g <= h < g + count :: h !in t
  }

  /** The outer loop from page `g` on: the first start whose range is free. */
  function SearchFrom(t: map<nat, nat>, g: nat, count: nat): (r: Option<nat>)
    ensures r.Some? ==> g <= r.value < LAST && RangeFree(t, r.value, count)
    ensures r.Some? ==> forall u: nat | g <= u < r.value :: !RangeFree(t, u, count)
    ensures r.None? ==> forall u: nat | g <= u < LAST :: !RangeFree(t, u, count)
    decreases LAST - g
  {
    if g >= LAST then None
    else if RangeFree(t, g, count) then Some(g)
    else SearchFrom(t, g + 1, count)
  }

  function FindRange(t: map<nat, nat>, count: nat): Option<nat>
  {
    SearchFrom(t, FIRST, count)
  }

  /** No address of the `count` pages from address `a` on is mapped. */
  ghost predicate Unmapped(m: Memory, root: nat, a: nat, count: nat)
  {
    forall b: nat | a <= b < a + count * 0x20_0000 :: Get(m, root, b).None?
  }

  /** `r` is the lowest page address from 2 GiB to 0xFFFF00000000 from which on `count` pages are unmapped. */
  ghost predicate LowestUnmapped(m: Memory, root: nat, count: nat, r: Option<nat>)
  {
    match r
    case Some(a) =>
      && a % 0x20_0000 == 0 && 0x8000_0000 <= a < 0xFFFF_0000_0000 && Unmapped(m, root, a, count)
      && forall u: nat | 0x8000_0000 <= u < a && u % 0x20_0000 == 0 :: !Unmapped(m, root, u, count)
    case None =>
      forall u: nat | 0x8000_0000 <= u < 0xFFFF_0000_0000 && u % 0x20_0000 == 0 :: !Unmapped(m, root, u, count)
  }

  lemma UnmappedIsFree(m: Memory, root: nat, g: nat, count: nat)
    requires g + count <= PAGES
    ensures Unmapped(m, root, g * PAGE, count) <==> RangeFree(Translation(m, root), g, count)
  {
    hide Get, Translation;
    if Unmapped(m, root, g * PAGE, count) {
      forall h: nat | g <= h < g + count
        ensures h !in Translation(m, root)
      {
        PageNumber(h);
        GetIsTranslation(m, root, h * PAGE);
      }
    }
    if RangeFree(Translation(m, root), g, count) {
      forall b: nat | g * PAGE <= b < g * PAGE + count * 0x20_0000
        ensures Get(m, root, b).None?
      {
        GetIsTranslation(m, root, b);
      }
    }
  }

  /** The search, for as many pages as stay below 2^48 from every start, by addresses and `get`. */
  lemma FindRangeIsLowest(m: Memory, root: nat, count: nat)
    requires count <= 0x801
    ensures LowestUnmapped(m, root, count, match FindRange(Translation(m, root), count) case Some(g) => Some(g * PAGE) case None => None)
  {
    hide Unmapped, Translation, RangeFree;
    var g := FindRange(Translation(m, root), count);
    if g.Some? {
      UnmappedIsFree(m, root, g.value, count);
    }
    forall u: nat | 0x8000_0000 <= u < 0xFFFF_0000_0000 && u % 0x20_0000 == 0 && (g.Some? ==> u < g.value * PAGE)
      ensures !Unmapped(m, root, u, count)
    {
      assert u == u / PAGE * PAGE;
      UnmappedIsFree(m, root, u / PAGE, count);
    }
  }

  // --- the loop of map ------------------------------------------------------------------------------

  ghost predicate PhysicalPagesOf(pages: seq<nat>)
  {
    forall i: nat | i < |pages| :: pages[i] < Phys.PAGE_LIMIT
  }

  lemma PageNumber(g: nat)
    ensures g * PAGE % PAGE == 0 && g * PAGE / PAGE == g
    ensures g < PAGES ==> g * PAGE < VIRTUAL_END
  {
  }

  lemma MapOne(s: Paging, root: nat, g: nat, p: nat, flags: Word)
    requires Inv(s, root) && g < PAGES && p < Phys.PAGE_LIMIT && flags < PAGE
    requires MapPage(s, root, g * PAGE, p * PAGE, flags).Some?
    ensures var s' := MapPage(s, root, g * PAGE, p * PAGE, flags).value;
      && Inv(s', root) && s'.end == s.end && g !in Translation(s.mem, root)
      && Translation(s'.mem, root) == Translation(s.mem, root)[g := p * PAGE]
  {
    PageNumber(g);
    MapExtendsTranslation(s, root, g * PAGE, p * PAGE, flags);
    MapKeepsRange(s, root, g * PAGE, p * PAGE, flags);
  }

  lemma MapKeepsRange(s: Paging, root: nat, v: nat, p: Word, flags: Word)
    requires Wellformed(s, root) && v < VIRTUAL_END && MapPage(s, root, v, p, flags).Some?
    ensures MapPage(s, root, v, p, flags).value.end == s.end
  {
  }

  /** The page mapping `t` with the first `n` of `pages` mapped to, from page `g` on. */
  function AddFirst(t: map<nat, nat>, g: nat, pages: seq<nat>, n: nat): map<nat, nat>
    requires n <= |pages|
  {
    if n == 0 then t else AddFirst(t, g, pages, n - 1)[g + n - 1 := pages[n - 1] * PAGE]
  }

  lemma {:induction false} AddFirstAt(t: map<nat, nat>, g: nat, pages: seq<nat>, n: nat, h: nat)
    requires n <= |pages|
    ensures var t' := AddFirst(t, g, pages, n);
      if g <= h < g + n then h in t' && t'[h] == pages[h - g] * PAGE
      else (h in t' <==> h in t) && (h in t ==> t'[h] == t[h])
  {
    if n != 0 {
      AddFirstAt(t, g, pages, n - 1, h);
    }
  }

  function Add(t: map<nat, nat>, g: nat, pages: seq<nat>): map<nat, nat>
  {
    AddFirst(t, g, pages, |pages|)
  }

  lemma AddAt(t: map<nat, nat>, g: nat, pages: seq<nat>, h: nat)
    ensures var t' := Add(t, g, pages);
      if g <= h < g + |pages| then h in t' && t'[h] == pages[h - g] * PAGE
      else (h in t' <==> h in t) && (h in t ==> t'[h] == t[h])
  {
    AddFirstAt(t, g, pages, |pages|, h);
  }

  /** `map` for page `g` and physical page `p`. */
  ghost function MapNumbered(s: Paging, root: nat, g: nat, p: nat, flags: Word): (r: Option<Paging>)
    requires Inv(s, root) && g < PAGES && p < Phys.PAGE_LIMIT && flags < PAGE
    ensures r.Some? ==> Inv(r.value, root) && r.value.end == s.end
    ensures r.Some? ==> Translation(r.value.mem, root) == Translation(s.mem, root)[g := p * PAGE]
  {
    PageNumber(g);
    var r := MapPage(s, root, g * PAGE, p * PAGE, flags);
    if r.None? then None else MapOne(s, root, g, p, flags); r
  }

  /** `map` for the first `n` of `pages` in order, from page `g` on: what completes extends the translation by them. */
  ghost function MapPages(s: Paging, root: nat, g: nat, pages: seq<nat>, n: nat, flags: Word): (r: Option<Paging>)
    requires Inv(s, root) && g + |pages| <= PAGES && PhysicalPagesOf(pages) && n <= |pages| && flags < PAGE
    ensures r.Some? ==> Inv(r.value, root) && r.value.end == s.end
    ensures r.Some? ==> Translation(r.value.mem, root) == AddFirst(Translation(s.mem, root), g, pages, n)
  {
    hide MapNumbered, Inv;
    if n == 0 then Some(s)
    else
      var r := MapPages(s, root, g, pages, n - 1, flags);
      if r.None? then None else MapNumbered(r.value, root, g + n - 1, pages[n - 1], flags)
  }

  /** One page of a range none of whose pages is mapped: `map` halts exactly for want of frames. */
  lemma StepProgress(s: Paging, root: nat, g: nat, p: nat, flags: Word)
    requires Inv(s, root) && g < PAGES && p < Phys.PAGE_LIMIT && flags < PAGE && g !in Translation(s.mem, root)
    ensures
      var missing := (if PageHasPd(s.mem, root, g) then 0 else 1) + (if PageHasPdpt(s.mem, root, g) then 0 else 1);
      var r := MapNumbered(s, root, g, p, flags);
      && (r.None? <==> |FreeFrames(s)| < missing)
      && (r.Some? ==> |FreeFrames(r.value)| == |FreeFrames(s)| - missing)
  {
    PageNumber(g);
    PageNumber(p);
    MapHaltsIff(s, root, g * PAGE, p * PAGE, flags);
    PageMissing(s, root, g * PAGE);
  }

  lemma StepAdds(s: Paging, root: nat, g: nat, p: nat, flags: Word, s': Paging, h: nat)
    requires Inv(s, root) && g < PAGES && p < Phys.PAGE_LIMIT && flags < PAGE && MapNumbered(s, root, g, p, flags) == Some(s')
    ensures PageHasPdpt(s'.mem, root, h) <==> PageHasPdpt(s.mem, root, h) || h / 0x4_0000 == g / 0x4_0000
    ensures PageHasPd(s'.mem, root, h) <==> PageHasPd(s.mem, root, h) || h / 512 == g / 512
  {
    PageNumber(g);
    MapPageAdds(s, root, g * PAGE, p * PAGE, flags, h);
  }

  ghost predicate MetBefore(g: nat, n: nat, h: nat, span: nat)
    requires span > 0
  {
    exists y: nat :: g <= y < g + n && y / span == h / span
  }

  lemma MetNext(g: nat, n: nat, h: nat, span: nat)
    requires span > 0
    ensures MetBefore(g, n + 1, h, span) <==> MetBefore(g, n, h, span) || h / span == (g + n) / span
  {
    if y: nat :| g <= y < g + n && y / span == h / span {
      assert g <= y < g + n + 1;
    }
    if h / span == (g + n) / span {
      assert g <= g + n < g + n + 1;
    }
  }

  /** The tables there are after `n` pages: those before, and those of the pages met. */
  lemma {:induction false} MapPagesAdds(s: Paging, root: nat, g: nat, pages: seq<nat>, n: nat, flags: Word, h: nat)
    requires Inv(s, root) && g + |pages| <= PAGES && PhysicalPagesOf(pages) && n <= |pages| && flags < PAGE
    requires MapPages(s, root, g, pages, n, flags).Some?
    ensures var s' := MapPages(s, root, g, pages, n, flags).value;
      && (PageHasPdpt(s'.mem, root, h) <==> PageHasPdpt(s.mem, root, h) || MetBefore(g, n, h, 0x4_0000))
      && (PageHasPd(s'.mem, root, h) <==> PageHasPd(s.mem, root, h) || MetBefore(g, n, h, 512))
  {
    hide MapNumbered, Inv, PageHasPdpt, PageHasPd;
    if n != 0 {
      MapPagesAdds(s, root, g, pages, n - 1, flags, h);
      var s1 := MapPages(s, root, g, pages, n - 1, flags).value;
      var s2 := MapPages(s, root, g, pages, n, flags).value;
      MetNext(g, n - 1, h, 512);
      MetNext(g, n - 1, h, 0x4_0000);
      hide MetBefore;
      StepAdds(s1, root, g + n - 1, pages[n - 1], flags, s2, h);
    }
  }

  /** One page more: `s1` is where the loop stands before page `n`. */
  lemma NextStepProgress(s: Paging, root: nat, g: nat, pages: seq<nat>, n: nat, flags: Word, s1: Paging)
    requires Inv(s, root) && g + |pages| <= PAGES && PhysicalPagesOf(pages) && n < |pages| && flags < PAGE
    requires MapPages(s, root, g, pages, n, flags) == Some(s1) && RangeFree(Translation(s.mem, root), g, |pages|)
    requires |FreeFrames(s1)| == |FreeFrames(s)| - RangeMissing(s.mem, root, g, n)
    ensures g + n !in Translation(s1.mem, root)
    ensures var r := MapPages(s, root, g, pages, n + 1, flags);
      && (r.None? <==> |FreeFrames(s)| < RangeMissing(s.mem, root, g, n + 1))
      && (r.Some? ==> |FreeFrames(r.value)| == |FreeFrames(s)| - RangeMissing(s.mem, root, g, n + 1))
  {
    hide MapNumbered, Inv, FreeFrames, Translation, PageHasPdpt, PageHasPd;
    AddFirstAt(Translation(s.mem, root), g, pages, n, g + n);
    MapPagesAdds(s, root, g, pages, n, flags, g + n);
    NotFirstIff(g, g + n, 512);
    NotFirstIff(g, g + n, 0x4_0000);
    hide FirstIn;
    StepProgress(s1, root, g + n, pages[n], flags);
  }

  /**
    The loop into an unmapped range never meets a mapped page. It halts if and only if fewer frames are free than the
    range is missing tables, and otherwise takes one for each of them.
   */
  lemma {:induction false} MapPagesProgress(s: Paging, root: nat, g: nat, pages: seq<nat>, n: nat, flags: Word)
    requires Inv(s, root) && g + |pages| <= PAGES && PhysicalPagesOf(pages) && n <= |pages| && flags < PAGE
    requires RangeFree(Translation(s.mem, root), g, |pages|)
    ensures var r := MapPages(s, root, g, pages, n, flags);
      && (r.None? <==> |FreeFrames(s)| < RangeMissing(s.mem, root, g, n))
      && (r.Some? ==> |FreeFrames(r.value)| == |FreeFrames(s)| - RangeMissing(s.mem, root, g, n))
      && (r.Some? && n < |pages| ==> g + n !in Translation(r.value.mem, root))
  {
    hide MapNumbered, Inv, FreeFrames, Translation, PageHasPdpt, PageHasPd, FirstIn;
    if n != 0 {
      MapPagesProgress(s, root, g, pages, n - 1, flags);
      var r := MapPages(s, root, g, pages, n - 1, flags);
      if r.Some? {
        NextStepProgress(s, root, g, pages, n - 1, flags, r.value);
      }
    }
    if MapPages(s, root, g, pages, n, flags).Some? {
      AddFirstAt(Translation(s.mem, root), g, pages, n, g + n);
    }
  }

  /** The loop over the first `n` of `all` and then over `part`, which follows them there, is one loop. */
  lemma {:induction false} MapPagesOn(s: Paging, root: nat, g: nat, all: seq<nat>, n: nat, part: seq<nat>, k: nat, flags: Word, s1: Paging)
    requires Inv(s, root) && g + |all| <= PAGES && PhysicalPagesOf(all) && n + |part| <= |all| && flags < PAGE
    requires MapPages(s, root, g, all, n, flags) == Some(s1) && part == all[n..n + |part|] && k <= |part|
    ensures MapPages(s1, root, g + n, part, k, flags) == MapPages(s, root, g, all, n + k, flags)
  {
    hide MapNumbered, Inv;
    if k > 0 {
      MapPagesOn(s, root, g, all, n, part, k - 1, flags, s1);
    }
  }

  lemma {:induction false} AddFirstOn(t: map<nat, nat>, g: nat, all: seq<nat>, n: nat, part: seq<nat>, k: nat)
    requires n + |part| <= |all| && part == all[n..n + |part|] && k <= |part|
    ensures AddFirst(AddFirst(t, g, all, n), g + n, part, k) == AddFirst(t, g, all, n + k)
  {
    if k > 0 {
      AddFirstOn(t, g, all, n, part, k - 1);
    }
  }

  // --- mm::alloc ------------------------------------------------------------------------------------

  /** Where a call ends: with a range, with nothing, or in a panic. `words` is the bitmap it leaves. */
  datatype Outcome =
    | Granted(s: Paging, words: seq<Word>, first: nat, pages: seq<nat>)
    | Nothing(words: seq<Word>)
    | Panic

  ghost function Alloc(s: Paging, root: nat, words: seq<Word>, mask: Phys.Mask, count: nat, flags: Word): Outcome
    requires Inv(s, root) && |words| == Phys.WORDS && flags < PAGE
  {
    if count == 0 then Nothing(words)
    else if count > MAX_PAGES then Panic
    else
      var g := FindRange(Translation(s.mem, root), count);
      if g.None? then Nothing(words)
      else
        var (words', r) := Phys.AllocPages(words, mask, count);
        if r.None? then Nothing(words')
        else
          var s' := MapPages(s, root, g.value, r.value, count, flags);
          if s'.None? then Panic else Granted(s'.value, words', g.value, r.value)
  }

  /**
    A successful call maps the lowest range that was unmapped, page for page, and nothing else:
    every other page translates as before.
   */
  lemma AllocMapsRange(s: Paging, root: nat, words: seq<Word>, mask: Phys.Mask, count: nat, flags: Word)
    requires Inv(s, root) && |words| == Phys.WORDS && flags < PAGE
    requires Alloc(s, root, words, mask, count, flags).Granted?
    ensures var Granted(s', words', g, pages) := Alloc(s, root, words, mask, count, flags);
      && Inv(s', root) && s'.end == s.end && |pages| == count && FIRST <= g < LAST && PhysicalPagesOf(pages)
      && RangeFree(Translation(s.mem, root), g, count)
      && (forall u: nat | FIRST <= u < g :: !RangeFree(Translation(s.mem, root), u, count))
      && Translation(s'.mem, root) == Add(Translation(s.mem, root), g, pages)
      && Phys.AllocPages(words, mask, count) == (words', Some(pages))
  {
    hide Inv;
  }

  /** A call for no pages is given none, and takes nothing. */
  lemma NoPagesNothing(s: Paging, root: nat, words: seq<Word>, mask: Phys.Mask, flags: Word)
    requires Inv(s, root) && |words| == Phys.WORDS && flags < PAGE
    ensures Alloc(s, root, words, mask, 0, flags) == Nothing(words)
  {
    hide Inv;
  }

  /**
    When a call panics. For at most 32 pages it is never the panic on a mapped page: it panics if and only if both
    searches succeed and fewer frames are free than the range found is missing tables, which are four at most.
   */
  lemma AllocPanicsIff(s: Paging, root: nat, words: seq<Word>, mask: Phys.Mask, count: nat, flags: Word)
    requires Inv(s, root) && |words| == Phys.WORDS && flags < PAGE
    ensures Alloc(s, root, words, mask, count, flags).Panic? <==>
      || count > 32
      || (&& count > 0 && FindRange(Translation(s.mem, root), count).Some? && Phys.AllocPages(words, mask, count).1.Some?
          && |FreeFrames(s)| < RangeMissing(s.mem, root, FindRange(Translation(s.mem, root), count).value, count))
    ensures count <= 32 && Alloc(s, root, words, mask, count, flags).Panic? ==> |FreeFrames(s)| < 4
  {
    hide Inv, MapPages, RangeMissing, FreeFrames, Translation;
    if 0 < count <= MAX_PAGES {
      var g, r := FindRange(Translation(s.mem, root), count), Phys.AllocPages(words, mask, count).1;
      if g.Some? && r.Some? {
        MapPagesProgress(s, root, g.value, r.value, count, flags);
        AtMostFour(s.mem, root, g.value, count);
      }
    }
  }

  /** The translation `t` after pages from `g` on were added, seen at address `a`. */
  lemma AddLookUp(t: map<nat, nat>, g: nat, pages: seq<nat>, a: nat)
    ensures LookUp(Add(t, g, pages), a) ==
      if g * PAGE <= a < (g + |pages|) * PAGE then Some(pages[a / PAGE - g] * PAGE + a % PAGE) else LookUp(t, a)
  {
    AddAt(t, g, pages, a / PAGE);
  }

  /** The same, seen through `get`: any address in the range, and any address outside it. */
  lemma AllocSeenByGet(s: Paging, root: nat, words: seq<Word>, mask: Phys.Mask, count: nat, flags: Word,
                       s': Paging, words': seq<Word>, g: nat, pages: seq<nat>, a: nat)
    requires Inv(s, root) && |words| == Phys.WORDS && flags < PAGE && a < VIRTUAL_END
    requires Alloc(s, root, words, mask, count, flags) == Granted(s', words', g, pages)
    ensures |pages| == count
    ensures Get(s'.mem, root, a) ==
      if g * PAGE <= a < (g + count) * PAGE then Some(pages[a / PAGE - g] * PAGE + a % PAGE)
      else Get(s.mem, root, a)
  {
    hide Inv, Get;
    AllocMapsRange(s, root, words, mask, count, flags);
    SeenByGet(s.mem, s'.mem, root, g, pages, a);
  }

  lemma SeenByGet(m: Memory, m': Memory, root: nat, g: nat, pages: seq<nat>, a: nat)
    requires Translation(m', root) == Add(Translation(m, root), g, pages) && a < VIRTUAL_END
    ensures Get(m', root, a) ==
      if g * PAGE <= a < (g + |pages|) * PAGE then Some(pages[a / PAGE - g] * PAGE + a % PAGE) else Get(m, root, a)
  {
    AddLookUp(Translation(m, root), g, pages, a);
    GetIsTranslation(m', root, a);
    GetIsTranslation(m, root, a);
  }
}
