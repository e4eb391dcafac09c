/**
  The page manager with its bitmap of physical pages. Each method is tied to its function in
  `MemoryModel` or `PhysicalPages`; addresses here are page numbers there, times 2 MiB.
 */
module MemoryManager {
  import opened Words
  import opened Wrappers
  import opened Ranges
  import opened PageModel
  import opened PageInvariant
  import opened PageTranslation
  import opened MemoryModel
  import opened PageManager

  const VIRTUAL_START: Word := 0x8000_0000
  const VIRTUAL_LIMIT: Word := 0xFFFF_0000_0000
  const PHYS_START: Word := 0x60_0000
  const PHYS_SIZE: Word := 0x10_0000_0000

  /** The word of the bitmap for an address, and the bit's number in it. */
  method BitPosition(addr: Word, ghost q: nat) returns (idx: nat, n: nat)
    requires addr == q * PAGE
    ensures idx == q / 64 && n == q % 64 < 64
  {
    assert Pow2(6) == 64;
    PageNumber(q);
    MaskLow(q, 6);
    idx, n := addr / 0x800_0000, And(addr / 0x20_0000, 0x3F);
  }

  /** `addresses` are those of the pages `pages`. */
  ghost predicate AddressesOf(addresses: seq<nat>, pages: seq<nat>)
  {
    |addresses| == |pages| && forall i: nat | i < |pages| :: addresses[i] == pages[i] * PAGE
  }

  lemma AddressLimits(addresses: seq<nat>, pages: seq<nat>)
    requires AddressesOf(addresses, pages) && Phys.InLimits(pages, Phys.FIRST_PAGE)
    ensures forall i: nat | i < |addresses| :: 0x60_0000 <= addresses[i] < 0x10_0000_0000 && addresses[i] % 0x20_0000 == 0
  {
  }

  lemma FoundInLimits(words: seq<Word>, mask: Phys.Mask, count: nat)
    requires |words| == Phys.WORDS
    ensures var found := Phys.Collect(words, mask, Phys.FIRST_PAGE, count).pages;
      Phys.InLimits(found, Phys.FIRST_PAGE) && Phys.InLimits(found, 0)
  {
  }

  lemma AddressesAre(addresses: seq<nat>, pages: seq<nat>)
    requires AddressesOf(addresses, pages)
    ensures |addresses| == |pages| && forall i: nat | i < |pages| :: addresses[i] == pages[i] * PAGE
  {
  }

  /** The two arguments of `map` for page `i` of the range. */
  lemma AddressAfter(vstart: nat, g: nat, pages: seq<nat>, i: nat)
    requires vstart == g * PAGE && i < |pages| && g + |pages| <= PAGES && PhysicalPagesOf(pages)
    ensures vstart + i * 0x20_0000 == (g + i) * PAGE < TWO_64 && pages[i] * PAGE < TWO_64
  {
  }

  lemma GetPage(m: Memory, root: nat, h: nat)
    requires h < PAGES
    ensures h * PAGE < VIRTUAL_END && (Get(m, root, h * PAGE).Some? <==> h in Translation(m, root))
  {
    PageNumber(h);
    GetIsTranslation(m, root, h * PAGE);
  }

  lemma NextPage(h: nat, last: nat)
    requires h < last <= PAGES
    ensures h * PAGE + PAGE < TWO_64 && Min(h * PAGE + PAGE, last * PAGE) == (h + 1) * PAGE
  {
  }

  lemma RangeFreeExtends(t: map<nat, nat>, g: nat, h: nat)
    requires g <= h && RangeFree(t, g, h - g) && h !in t
    ensures RangeFree(t, g, h + 1 - g)
  {
  }

  /** What the first loop comes to from page `q` on, when it has found the pages `found` before. */
  ghost function Resume(words: seq<Word>, mask: Phys.Mask, q: nat, count: nat, found: seq<nat>): Phys.Collected
    requires |words| == Phys.WORDS && q <= Phys.PAGE_LIMIT && |found| <= count
  {
    var rest := Phys.Collect(words, mask, q, count - |found|);
    Phys.Collected(rest.words, found + rest.pages)
  }

  lemma ResumeSkips(words: seq<Word>, mask: Phys.Mask, q: nat, count: nat, found: seq<nat>)
    requires |words| == Phys.WORDS && q < Phys.PAGE_LIMIT && |found| < count
    requires And(words[q / 64], mask(q % 64)) != 0
    ensures Resume(words, mask, q, count, found) == Resume(words, mask, q + 1, count, found)
  {
  }

  lemma ResumeTakes(words: seq<Word>, mask: Phys.Mask, q: nat, count: nat, found: seq<nat>, words': seq<Word>)
    requires |words| == Phys.WORDS && q < Phys.PAGE_LIMIT && |found| < count
    requires And(words[q / 64], mask(q % 64)) == 0 && words' == words[q / 64 := Or64(words[q / 64], mask(q % 64))]
    ensures Resume(words, mask, q, count, found) == Resume(words', mask, q + 1, count, found + [q])
  {
    var rest := Phys.Collect(words', mask, q + 1, count - |found| - 1);
    assert found + ([q] + rest.pages) == found + [q] + rest.pages;
  }

  lemma ResumeEnds(words: seq<Word>, mask: Phys.Mask, q: nat, count: nat, found: seq<nat>)
    requires |words| == Phys.WORDS && q <= Phys.PAGE_LIMIT && |found| <= count && (q == Phys.PAGE_LIMIT || |found| == count)
    ensures Resume(words, mask, q, count, found) == Phys.Collected(words, found)
  {
  }

  lemma ResumeStarts(words: seq<Word>, mask: Phys.Mask, q: nat, count: nat)
    requires |words| == Phys.WORDS && q <= Phys.PAGE_LIMIT
    ensures Resume(words, mask, q, count, []) == Phys.Collect(words, mask, q, count)
  {
  }

  /** A loop that has halted after some of the pages halts. */
  lemma {:induction false} HaltsEarly(s: Paging, root: nat, g: nat, pages: seq<nat>, flags: Word, i: nat, n: nat)
    requires Inv(s, root) && g + |pages| <= PAGES && PhysicalPagesOf(pages) && flags < PAGE && i <= n <= |pages|
    requires MapPages(s, root, g, pages, i, flags).None?
    ensures MapPages(s, root, g, pages, n, flags).None?
  {
    hide MapNumbered, Inv;
    if i < n {
      HaltsEarly(s, root, g, pages, flags, i, n - 1);
    }
  }

  lemma NoStep(s: Paging, root: nat, g: nat, pages: seq<nat>, flags: Word)
    requires Inv(s, root) && g + |pages| <= PAGES && PhysicalPagesOf(pages) && flags < PAGE
    ensures MapPages(s, root, g, pages, 0, flags) == Some(s)
  {
    hide MapNumbered, Inv;
  }

  lemma NextStep(s: Paging, root: nat, g: nat, pages: seq<nat>, flags: Word, i: nat, s1: Paging)
    requires Inv(s, root) && g + |pages| <= PAGES && PhysicalPagesOf(pages) && flags < PAGE && i < |pages|
    requires MapPages(s, root, g, pages, i, flags) == Some(s1)
    ensures Inv(s1, root) && MapPages(s, root, g, pages, i + 1, flags) == MapNumbered(s1, root, g + i, pages[i], flags)
  {
    hide MapNumbered, Inv;
  }

  lemma TreeInTables(s: Paging, root: nat)
    requires Inv(s, root)
    ensures TablesIn(s.mem, s.refs.Keys, root)
  {
  }

  lemma PagesToBind(t: map<nat, nat>, words: seq<Word>, mask: Phys.Mask, count: nat)
    requires |words| == Phys.WORDS && count <= MAX_PAGES
    ensures var g, r := FindRange(t, count), Phys.AllocPages(words, mask, count).1;
      g.Some? && r.Some? ==> g.value + |r.value| <= PAGES && |r.value| == count && PhysicalPagesOf(r.value)
  {
  }

  class MemoryManager {
    const phys: array<Word>
    const mask: Phys.Mask

    predicate Valid()
    {
      phys.Length == Phys.WORDS
    }

    /** `mm::init`: no page is tracked. */
    constructor (mask: Phys.Mask)
      ensures Valid() && fresh(phys) && this.mask == mask && phys[..] == seq(0x1000, _ => 0)
    {
      phys := new Word[0x1000](_ => 0);
      this.mask := mask;
    }

    method PageMapped(p: PageManager, root: nat, addr: Word, ghost h: nat) returns (b: bool)
      requires p.Valid() && TablesIn(p.mem, p.refs.Keys, root) && addr == h * PAGE && h < PAGES
      ensures b <==> h in Translation(p.mem, root)
    {
      GetPage(p.mem, root, h);
      var r := p.Get(root, addr);
      b := r.Some?;
    }

    /** The inner loop of `findVirtualRange`: true when a page of the range is mapped. */
    method RangeTaken(p: PageManager, root: nat, rs: Word, count: nat, ghost g: nat) returns (res: bool)
      requires p.Valid() && TablesIn(p.mem, p.refs.Keys, root)
      requires rs == g * PAGE && g < LAST && count <= PAGES - LAST + 1
      ensures res <==> !RangeFree(Translation(p.mem, root), g, count)
    {
      hide TablesIn, Translation;
      ghost var t := Translation(p.mem, root);
      var it := new RangeIterator(rs, rs + count * 0x20_0000, 0x20_0000);
      ghost var h := g;
      while it.value != it.end
        invariant g <= h <= g + count && it.value == h * PAGE && it.end == (g + count) * PAGE && it.step == PAGE
        invariant RangeFree(t, g, h - g)
        decreases g + count - h
      {
        var mapped := PageMapped(p, root, it.value, h);
        if mapped {
          return true;
        }
        RangeFreeExtends(t, g, h);
        NextPage(h, g + count);
        it.Advance();
        h := h + 1;
      }
      return false;
    }

    /** `findVirtualRange`: the lowest range of unmapped pages. */
    method FindVirtualRange(p: PageManager, root: nat, count: nat) returns (r: Option<Word>)
      requires p.Valid() && TablesIn(p.mem, p.refs.Keys, root) && count <= 0x801
      ensures var g := FindRange(Translation(p.mem, root), count);
        r == if g.None? then None else Some(g.value * PAGE)
      ensures LowestUnmapped(p.mem, root, count, match r case Some(a) => Some(a as nat) case None => None)
    {
      FindRangeIsLowest(p.mem, root, count);
      hide LowestUnmapped;
      r := SearchVirtualRange(p, root, count);
    }

    method SearchVirtualRange(p: PageManager, root: nat, count: nat) returns (r: Option<Word>)
      requires p.Valid() && TablesIn(p.mem, p.refs.Keys, root) && count <= PAGES - LAST + 1
      ensures var g := FindRange(Translation(p.mem, root), count);
        r == if g.None? then None else Some(g.value * PAGE)
    {
      hide TablesIn, Translation, RangeFree;
      ghost var t := Translation(p.mem, root);
      var it := new RangeIterator(VIRTUAL_START, VIRTUAL_LIMIT, 0x20_0000);
      ghost var g := FIRST;
      while it.value != it.end
        invariant FIRST <= g <= LAST && it.value == g * PAGE && it.end == LAST * PAGE && it.step == PAGE
        invariant FindRange(t, count) == SearchFrom(t, g, count)
        decreases LAST - g
      {
        var taken := RangeTaken(p, root, it.value, count, g);
        if !taken {
          return Some(it.value);
        }
        NextPage(g, LAST);
        it.Advance();
        g := g + 1;
      }
      return None;
    }

    /** One address of the first loop of `allocPhysicalPages`: the page is taken if it is free. */
    method CollectOne(pages: array<nat>, addr: Word, allocd: nat, ghost q: nat, ghost count: nat, ghost found: seq<nat>)
      returns (allocd': nat, ghost found': seq<nat>)
      requires Valid() && pages as object != phys as object && addr == q * PAGE && q < Phys.PAGE_LIMIT
      requires allocd == |found| < count == pages.Length && AddressesOf(pages[..allocd], found)
      modifies phys, pages
      ensures allocd' == |found'| <= count && AddressesOf(pages[..allocd'], found')
      ensures Resume(phys[..], mask, q + 1, count, found') == Resume(old(phys[..]), mask, q, count, found)
    {
      var idx, n := BitPosition(addr, q);
      var bit := mask(n);
      ghost var words := phys[..];
      if And(phys[idx], bit) == 0 {
        phys[idx] := Or64(phys[idx], bit);
        pages[allocd] := addr;
        allocd', found' := allocd + 1, found + [q];
        ResumeTakes(words, mask, q, count, found, phys[..]);
      } else {
        allocd', found' := allocd, found;
        ResumeSkips(words, mask, q, count, found);
      }
    }

    /** The first loop, from the address `last` on; the addresses found are left in `pages`. */
    method CollectPages(pages: array<nat>, count: nat, last: Word, ghost first: nat) returns (allocd: nat, ghost found: seq<nat>)
      requires Valid() && pages.Length == count && pages as object != phys as object
      requires last == first * PAGE && first <= Phys.PAGE_LIMIT
      modifies phys, pages
      ensures Phys.Collect(old(phys[..]), mask, first, count) == Phys.Collected(phys[..], found)
      ensures allocd == |found| <= count && AddressesOf(pages[..allocd], found)
    {
      allocd, found := 0, [];
      var addr := last;
      ghost var q := first;
      ResumeStarts(phys[..], mask, first, count);
      while addr < PHYS_SIZE && allocd != count
        invariant addr == q * PAGE && q <= Phys.PAGE_LIMIT && allocd == |found| <= count
        invariant AddressesOf(pages[..allocd], found)
        invariant Resume(phys[..], mask, q, count, found) == Phys.Collect(old(phys[..]), mask, first, count)
        decreases Phys.PAGE_LIMIT - q
      {
        allocd, found := CollectOne(pages, addr, allocd, q, count, found);
        addr := addr + 0x20_0000;
        q := q + 1;
      }
      ResumeEnds(phys[..], mask, q, count, found);
    }

    /** The second loop: the bits of the addresses in `pages`, as the code reads them, are cleared. */
    method RollBack(pages: array<nat>, allocd: nat, ghost found: seq<nat>)
      requires Valid() && allocd <= pages.Length && AddressesOf(pages[..allocd], found) && Phys.InLimits(found, 0)
      requires pages as object != phys as object
      modifies phys
      ensures phys[..] == Phys.Rollback(old(phys[..]), found)
    {
      ghost var all := Phys.Rollback(phys[..], found);
      var i: nat := 0;
      while i < allocd
        invariant i <= allocd && AddressesOf(pages[..allocd], found)
        invariant all == Phys.Rollback(phys[..], found[i..])
      {
        ghost var words := phys[..];
        assert pages[..allocd][i] == pages[i];
        var idx, n := BitPosition(pages[i], found[i]);
        phys[idx] := And64(phys[idx], Not64(n));
        assert phys[..] == words[idx := And64(words[idx], Not64(n))];
        assert found[i..][1..] == found[i + 1..];
        i := i + 1;
      }
    }

    /** `allocPhysicalPages`: on success the addresses of the pages are left in `pages`. */
    method AllocPhysicalPages(pages: array<nat>, count: nat) returns (ok: bool, ghost found: seq<nat>)
      requires Valid() && pages.Length == count && pages as object != phys as object
      modifies phys, pages
      ensures Phys.AllocPages(old(phys[..]), mask, count) == (phys[..], if ok then Some(found) else None)
      ensures ok ==> AddressesOf(pages[..], found)
      ensures ok ==> forall i: nat | i < count :: 0x60_0000 <= pages[i] < 0x10_0000_0000 && pages[i] % 0x20_0000 == 0
    {
      hide AddressesOf, Phys.InLimits, Phys.Collect, Phys.Rollback;
      var allocd;
      allocd, found := CollectPages(pages, count, PHYS_START, Phys.FIRST_PAGE);
      FoundInLimits(old(phys[..]), mask, count);
      if allocd != count {
        RollBack(pages, allocd, found);
        return false, found;
      }
      assert pages[..allocd] == pages[..];
      AddressLimits(pages[..], found);
      assert forall i: nat | i < count :: pages[i] == pages[..][i];
      return true, found;
    }

    /** `map` for one page of the range. */
    method MapPageOf(p: PageManager, root: nat, vaddr: Word, paddr: Word, flags: Word, ghost g: nat, ghost q: nat) returns (ok: bool)
      requires p.Valid() && Inv(p.View(), root) && flags < PAGE
      requires vaddr == g * PAGE && g < PAGES && paddr == q * PAGE && q < Phys.PAGE_LIMIT
      modifies p`mem, p`taken, p`refs, p.tracking, p.refcount
      ensures p.Valid() && MapNumbered(old(p.View()), root, g, q, flags) == if ok then Some(p.View()) else None
    {
      PageNumber(g);
      ok := p.Map(root, vaddr, paddr, flags);
    }

    /** Page `i` of the range: `s` is where the tables stood before the first. */
    method BindPage(p: PageManager, root: nat, vaddr: Word, paddr: Word, flags: Word,
                    ghost s: Paging, ghost g: nat, ghost found: seq<nat>, ghost i: nat)
      returns (ok: bool)
      requires p.Valid() && Inv(s, root) && flags < PAGE && i < |found| && g + |found| <= PAGES && PhysicalPagesOf(found)
      requires vaddr == (g + i) * PAGE && paddr == found[i] * PAGE && MapPages(s, root, g, found, i, flags) == Some(p.View())
      modifies p`mem, p`taken, p`refs, p.tracking, p.refcount
      ensures p.Valid() && MapPages(s, root, g, found, i + 1, flags) == if ok then Some(p.View()) else None
    {
      hide MapPages, MapNumbered, Inv;
      NextStep(s, root, g, found, flags, i, p.View());
      ok := MapPageOf(p, root, vaddr, paddr, flags, g + i, found[i]);
    }

    /** The last loop of `mm::alloc`. */
    method BindPages(p: PageManager, root: nat, vstart: Word, pages: array<nat>, flags: Word, ghost g: nat, ghost found: seq<nat>)
      returns (ok: bool)
      requires p.Valid() && Inv(p.View(), root) && flags < PAGE && pages as object !in {p.tracking as object, p.refcount as object}
      requires vstart == g * PAGE && g + |found| <= PAGES && AddressesOf(pages[..], found) && PhysicalPagesOf(found)
      modifies p`mem, p`taken, p`refs, p.tracking, p.refcount
      ensures p.Valid() && MapPages(old(p.View()), root, g, found, |found|, flags) == if ok then Some(p.View()) else None
    {
      hide *;
      ghost var s := p.View();
      var i: nat := 0;
      AddressesAre(pages[..], found);
      assert forall j | 0 <= j < pages.Length :: pages[j] == pages[..][j];
      NoStep(s, root, g, found, flags);
      ok := true;
      while ok && i < pages.Length
        invariant p.Valid() && i <= pages.Length == |found|
        invariant forall j | 0 <= j < pages.Length :: pages[j] == found[j] * PAGE
        invariant MapPages(s, root, g, found, i, flags) == if ok then Some(p.View()) else None
        decreases pages.Length - i
      {
        AddressAfter(vstart, g, found, i);
        ok := BindPage(p, root, vstart + i * 0x20_0000, pages[i], flags, s, g, found, i);
        i := i + 1;
      }
      if !ok {
        HaltsEarly(s, root, g, found, flags, i, |found|);
      }
    }

    /** `mm::alloc`; `ok` is false when it panics. */
    method Alloc(p: PageManager, root: nat, count: nat, flags: Word) returns (ok: bool, r: Option<Word>)
      requires Valid() && p.Valid() && Inv(p.View(), root) && flags < PAGE
      requires phys as object !in {p.tracking as object, p.refcount as object}
      modifies phys, p`mem, p`taken, p`refs, p.tracking, p.refcount
      ensures match MemoryModel.Alloc(old(p.View()), root, old(phys[..]), mask, count, flags)
        case Granted(s', words', g, _) => ok && p.Valid() && p.View() == s' && phys[..] == words' && r == Some(g * PAGE)
        case Nothing(words') => ok && p.Valid() && p.View() == old(p.View()) && phys[..] == words' && r == None
        case Panic => !ok
      ensures count == 0 ==> ok && r == None && p.View() == old(p.View()) && phys[..] == old(phys[..])
      ensures count > 32 ==> !ok
      ensures ok && r.Some? ==> LowestUnmapped(old(p.mem), root, count, Some(r.value as nat))
    {
      hide LowestUnmapped;
      hide Inv, FindRange, Translation, MapPages, Phys.AllocPages, TablesIn, PhysicalPagesOf;
      r := None;
      if count == 0 {
        return true, None;
      }
      if count > MAX_PAGES {
        return false, None;
      }
      TreeInTables(p.View(), root);
      PagesToBind(Translation(p.mem, root), phys[..], mask, count);
      var vr := FindVirtualRange(p, root, count);
      if vr.None? {
        return true, None;
      }
      var pages := new nat[count];
      var pr;
      ghost var found;
      pr, found := AllocPhysicalPages(pages, count);
      if !pr {
        return true, None;
      }
      ok := BindPages(p, root, vr.value, pages, flags, FindRange(Translation(p.mem, root), count).value, found);
      r := vr;
    }
  }
}
