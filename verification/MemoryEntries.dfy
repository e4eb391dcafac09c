/** The page entries that `mm::alloc` and `heap::init` leave, bit by bit. */
module MemoryEntries {
  import opened Words
  import opened Wrappers
  import opened PageModel
  import opened PageInvariant
  import opened PageTranslation
  import opened PageEntries
  import opened MemoryModel
  import opened MemoryRuns
  import opened HeapInit

  /** One step of the loop writes the entry of its page and leaves all others. */
  lemma StepEntries(s: Paging, root: nat, g: nat, p: nat, flags: Word, s': Paging, h: nat)
    requires Inv(s, root) && g < PAGES && p < Phys.PAGE_LIMIT && flags < PAGE && MapNumbered(s, root, g, p, flags) == Some(s')
    ensures if h == g then p * PAGE < TWO_64 && EntryBits(PageLeaf(s'.mem, root, h), p * PAGE, flags)
            else PageLeaf(s'.mem, root, h) == PageLeaf(s.mem, root, h)
  {
    PageNumber(g);
    PageEntryBits(p * PAGE, flags);
    BitsPresent(PageEntry(p * PAGE, flags), p * PAGE, flags);
    PageIndices(g * PAGE);
    hide EntryBits, PageEntry, Inv;
    MapEntryEffect(s, root, I4(g * PAGE), I3(g * PAGE), I2(g * PAGE), PageEntry(p * PAGE, flags));
    OneLeafPage(s.mem, s'.mem, root, g * PAGE, PageEntry(p * PAGE, flags), h);
  }

  /** After `n` pages of the range the entry of page `i` has the bits of the `i`-th physical page, the flags, and bits 0 and 7. */
  lemma {:induction false} LoopEntries(s: Paging, root: nat, g: nat, pages: seq<nat>, n: nat, flags: Word, i: nat)
    requires Inv(s, root) && g + |pages| <= PAGES && PhysicalPagesOf(pages) && i < n <= |pages| && flags < PAGE
    requires MapPages(s, root, g, pages, n, flags).Some?
    ensures pages[i] * PAGE < TWO_64
    ensures EntryBits(PageLeaf(MapPages(s, root, g, pages, n, flags).value.mem, root, g + i), pages[i] * PAGE, flags)
  {
    hide MapNumbered, Inv, EntryBits, PageLeaf;
    var s1 := MapPages(s, root, g, pages, n - 1, flags).value;
    StepEntries(s1, root, g + n - 1, pages[n - 1], flags, MapPages(s, root, g, pages, n, flags).value, g + i);
    if i < n - 1 {
      LoopEntries(s, root, g, pages, n - 1, flags, i);
    }
  }

  /** The flags of a call reach every entry of the range it is granted, and nothing else does. */
  lemma GrantEntries(s: Paging, root: nat, words: seq<Word>, mask: Phys.Mask, count: nat, flags: Word, i: nat)
    requires Inv(s, root) && |words| == Phys.WORDS && flags < PAGE && i < count
    requires Alloc(s, root, words, mask, count, flags).Granted?
    ensures var Granted(s', _, g, pages) := Alloc(s, root, words, mask, count, flags);
      |pages| == count && pages[i] * PAGE < TWO_64 && EntryBits(PageLeaf(s'.mem, root, g + i), pages[i] * PAGE, flags)
  {
    hide Inv, EntryBits, PageLeaf, MapPages, Phys.AllocPages, FindRange, Translation;
    AllocMapsRange(s, root, words, mask, count, flags);
    var Granted(s', _, g, pages) := Alloc(s, root, words, mask, count, flags);
    LoopEntries(s, root, g, pages, count, flags, i);
  }

  lemma EntryOfHeap(e: Word, p: nat)
    requires p * PAGE < TWO_64 && EntryBits(e, p * PAGE, 1)
    ensures e % 0x20_0000 == 0x81 && e - e % 0x20_0000 == p * PAGE
  {
    Pow2Values();
    assert Pow2(21) == 0x20_0000 && Pow2(0) == 1;
    OrDisjoint(p * PAGE, 0x81, 21);
    forall n: nat
      ensures Bit(e, n) <==> Bit(p * PAGE + 0x81, n)
    {
      hide Or, Bit, Pow2;
      OrBit(p * PAGE, 0x81, n);
      Pow2Bit(0, n);
      BitsOf81(n);
    }
    SameBits(e, p * PAGE + 0x81);
    DivModUnique(p * PAGE + 0x81, PAGE, p, 0x81);
  }

  lemma BitsOf81(n: nat)
    ensures Bit(0x81, n) <==> n == 0 || n == 7
  {
    assert Pow2(0) == 1 && Pow2(7) == 0x80 && Pow2(1) == 2;
    OrDisjoint(0x80, 1, 1);
    OrBit(0x80, 1, n);
    Pow2Bit(0, n);
    Pow2Bit(7, n);
  }

  /** Two numbers with the same bits are the same. */
  lemma {:induction false} SameBits(x: nat, y: nat)
    requires forall n: nat :: Bit(x, n) <==> Bit(y, n)
    ensures x == y
    decreases x + y
  {
    if x != 0 || y != 0 {
      assert Bit(x, 0) <==> Bit(y, 0);
      forall n: nat
        ensures Bit(x / 2, n) <==> Bit(y / 2, n)
      {
        assert Bit(x, n + 1) <==> Bit(y, n + 1);
      }
      SameBits(x / 2, y / 2);
    }
  }

  /**
    After `heap::init` the entry of every page of the heap is the page's address and 0x81: present and a 2 MiB page. The
    flag it passes to `mm::alloc` for writable memory is bit 0, which `map` sets anyway; bit 1, which makes a page writable,
    is not set.
   */
  lemma HeapEntries(m: Manager, root: nat, mask: Phys.Mask, m': Manager, g: nat, x: nat)
    requires Init(m, root, mask, m', g) && g <= x < g + 16
    ensures x in Translation(m'.s.mem, root) && PageLeaf(m'.s.mem, root, x) == Translation(m'.s.mem, root)[x] + 0x81
    ensures !Bit(PageLeaf(m'.s.mem, root, x), 1)
  {
    hide Inv, Translation, Alloc, Init, Placed, PageLeaf, EntryBits, Add, Phys.AllocPages, RangeFree, Bit;
    var pages := InitGranted(m, root, mask, m', g);
    GrantEntries(m.s, root, m.words, mask, 16, 1, x - g);
    AddAt(Translation(m.s.mem, root), g, pages, x);
    EntryOfHeap(PageLeaf(m'.s.mem, root, x), pages[x - g]);
    BitOneClear(PageLeaf(m'.s.mem, root, x));
  }

  lemma InitGranted(m: Manager, root: nat, mask: Phys.Mask, m': Manager, g: nat) returns (pages: seq<nat>)
    requires Init(m, root, mask, m', g)
    ensures Inv(m.s, root) && |m.words| == Phys.WORDS && |pages| == 16
    ensures Alloc(m.s, root, m.words, mask, 16, 1) == Granted(m'.s, m'.words, g, pages)
    ensures Translation(m'.s.mem, root) == Add(Translation(m.s.mem, root), g, pages)
  {
    hide Inv, Translation, Alloc, Add;
    pages := Alloc(m.s, root, m.words, mask, 16, 1).pages;
    AllocMapsRange(m.s, root, m.words, mask, 16, 1);
  }

  lemma BitOneClear(e: Word)
    requires e % 0x20_0000 == 0x81
    ensures !Bit(e, 1)
  {
    var q := e / 0x20_0000;
    assert e / 2 == 2 * (q * 0x8_0000 + 0x20);
    assert Bit(e, 1) <==> Bit(e / 2, 0);
  }
}
