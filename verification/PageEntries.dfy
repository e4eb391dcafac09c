/** The entries that `map` writes, bit by bit: the kernel's and the loader's. */
module PageEntries {
  import opened Words
  import opened Wrappers
  import opened PageModel
  import opened PageTree
  import opened PageInvariant
  import opened PageTranslation
  import opened LoaderPages

  /** `e` has the bits of the page's address, those of the flags, and bits 0 (present) and 7 (page size). */
  ghost predicate EntryBits(e: Word, paddr: Word, flags: Word)
  {
    forall n: nat :: Bit(e, n) <==> Bit(paddr, n) || Bit(flags, n) || n == 0 || n == 7
  }

  /** The page entry for an address below 2^48. */
  function EntryAt(m: Memory, root: nat, v: nat): Word
  {
    Leaf(m, root, v / 0x80_0000_0000, v / 0x4000_0000 % 512, v / 0x20_0000 % 512)
  }

  lemma PageEntryBits(paddr: Word, flags: Word)
    ensures EntryBits(PageEntry(paddr, flags), paddr, flags)
  {
    assert Pow2(0) == 1 && Pow2(7) == 0x80;
    forall n: nat
      ensures Bit(PageEntry(paddr, flags), n) <==> Bit(paddr, n) || Bit(flags, n) || n == 0 || n == 7
    {
      hide Or, Bit, Pow2;
      OrBit(paddr, flags, n);
      OrBit(Or(paddr, flags), 1, n);
      OrBit(Or(Or(paddr, flags), 1), 0x80, n);
      Pow2Bit(0, n);
      Pow2Bit(7, n);
    }
  }

  lemma LoaderPageEntryBits(paddr: Word, flags: Word)
    ensures EntryBits(LoaderPageEntry(paddr, flags), paddr, flags)
  {
    assert Pow2(0) == 1 && Pow2(7) == 0x80 && Pow2(1) == 2;
    OrDisjoint(0x80, 1, 1);
    forall n: nat
      ensures Bit(LoaderPageEntry(paddr, flags), n) <==> Bit(paddr, n) || Bit(flags, n) || n == 0 || n == 7
    {
      hide Or, Bit, Pow2;
      OrBit(paddr, Or(flags, 0x81), n);
      OrBit(flags, 0x81, n);
      OrBit(0x80, 1, n);
      Pow2Bit(0, n);
      Pow2Bit(7, n);
    }
  }

  lemma BitsPresent(e: Word, paddr: Word, flags: Word)
    requires EntryBits(e, paddr, flags)
    ensures Present(e)
  {
    assert Bit(e, 0);
  }

  /** A `map` that completes leaves at its address an entry with exactly these bits. */
  lemma MapWritesEntry(s: Paging, root: nat, v: nat, p: Word, flags: Word)
    requires Inv(s, root) && v < VIRTUAL_END && MapPage(s, root, v, p, flags).Some?
    ensures EntryBits(EntryAt(MapPage(s, root, v, p, flags).value.mem, root, v), p, flags)
  {
    PageEntryBits(p, flags);
    BitsPresent(PageEntry(p, flags), p, flags);
    PageIndices(v);
    hide EntryBits, PageEntry, Inv;
    MapEntryEffect(s, root, I4(v), I3(v), I2(v), PageEntry(p, flags));
  }

  /** New tables on the way to entry (i, j) are in the lowest free frames, the PDPT before the PD. */
  ghost predicate TakesLowest(s: Paging, m': Memory, root: nat, i: nat, j: nat)
  {
    var p, d := Pdpt(m', root, i), Pd(m', root, i, j);
    if !HasPdpt(s.mem, root, i) then
      LowestFree(s, s.start) == Some(p) && LowestFree(s.(taken := s.taken + {p}), s.start) == Some(d)
    else !HasPd(s.mem, root, i, j) ==> LowestFree(s, s.start) == Some(d)
  }

  lemma SameLowest(s: Paging)
    requires AllocFrame(s).Some?
    ensures var (s1, p) := AllocFrame(s).value; LowestFree(s.(taken := s.taken + {p}), s.start) == LowestFree(s1, s1.start)
  {
    var (s1, p) := AllocFrame(s).value;
    LowestFreeSame(s.(taken := s.taken + {p}), s1, s.start);
  }

  /** The entries that link new tables: the table's address, present and writable. */
  lemma MapWritesLinks(s: Paging, root: nat, v: nat, p: Word, flags: Word)
    requires Inv(s, root) && v < VIRTUAL_END && MapPage(s, root, v, p, flags).Some?
    ensures var m, m' := s.mem, MapPage(s, root, v, p, flags).value.mem;
      var i, j := v / 0x80_0000_0000, v / 0x4000_0000 % 512;
      && (!HasPdpt(m, root, i) ==> Entry(m', root, i) == Pdpt(m', root, i) * 0x1000 + 3)
      && (!HasPd(m, root, i, j) ==> Entry(m', Pdpt(m', root, i), j) == Pd(m', root, i, j) * 0x1000 + 3)
      && TakesLowest(s, m', root, i, j)
  {
    PageIndices(v);
    LinksWritten(s, root, I4(v), I3(v), I2(v), PageEntry(p, flags));
  }

  lemma LinksWritten(s: Paging, root: nat, i: nat, j: nat, k: nat, e: Word)
    requires Wellformed(s, root) && i < 512 && j < 512 && k < 512 && MapEntry(s, root, i, j, k, e).Some?
    ensures var m, m' := s.mem, MapEntry(s, root, i, j, k, e).value.mem;
      && (!HasPdpt(m, root, i) ==> Entry(m', root, i) == Pdpt(m', root, i) * 0x1000 + 3)
      && (!HasPd(m, root, i, j) ==> Entry(m', Pdpt(m', root, i), j) == Pd(m', root, i, j) * 0x1000 + 3)
      && TakesLowest(s, m', root, i, j)
  {
    var m' := MapEntry(s, root, i, j, k, e).value.mem;
    if !HasPdpt(s.mem, root, i) {
      var (s1, p) := AllocFrame(s).value;
      var (s2, d) := AllocFrame(s1).value;
      SameLowest(s);
      FreshLinks(s2.mem, root, i, p, j, d, k, e);
    } else if !HasPd(s.mem, root, i, j) {
      var (s1, d) := AllocFrame(s).value;
      PdLink(s1.mem, root, i, Pdpt(s.mem, root, i), j, d, k, e);
    }
  }

  lemma FreshLinks(m: Memory, root: nat, i: nat, p: nat, j: nat, d: nat, k: nat, e: Word)
    requires root in m && p in m && d in m && i < 512 && j < 512 && k < 512 && p != root && d != root && p != d
    requires p * FRAME + 3 < TWO_64 && d * FRAME + 3 < TWO_64
    ensures var m' := Write(Write(Write(m, d, k, e), p, j, TableEntry(d)), root, i, TableEntry(p));
      && Entry(m', root, i) == Pdpt(m', root, i) * 0x1000 + 3
      && Entry(m', Pdpt(m', root, i), j) == Pd(m', root, i, j) * 0x1000 + 3
      && Pdpt(m', root, i) == p && Pd(m', root, i, j) == d
  {
    TableEntryLinks(p);
    TableEntryLinks(d);
  }

  lemma PdLink(m: Memory, root: nat, i: nat, p: nat, j: nat, d: nat, k: nat, e: Word)
    requires p in m && d in m && j < 512 && k < 512 && p != root && d != root && p != d
    requires Pdpt(m, root, i) == p && d * FRAME + 3 < TWO_64
    ensures var m' := Write(Write(m, d, k, e), p, j, TableEntry(d));
      Entry(m', Pdpt(m', root, i), j) == Pd(m', root, i, j) * 0x1000 + 3 && Pd(m', root, i, j) == d
  {
    TableEntryLinks(d);
  }

  /** The loader's `map` writes the same bits, over an entry or not, and links new tables with the present bit alone. */
  lemma LoaderMapWritesEntry(s: Paging, root: nat, v: nat, p: Word, flags: Word)
    requires LoaderOk(s, root) && v < VIRTUAL_END && LoaderMap(s, root, v, p, flags).Some?
    ensures EntryBits(EntryAt(LoaderMap(s, root, v, p, flags).value.mem, root, v), p, flags)
  {
    LoaderPageEntryBits(p, flags);
    PageIndices(v);
    hide EntryBits, LoaderPageEntry, LoaderOk, LoaderMapEntry;
    LoaderMapEffect(s, root, I4(v), I3(v), I2(v), LoaderPageEntry(p, flags), LoaderMap(s, root, v, p, flags).value);
  }

  lemma LoaderLinksWritten(s: Paging, root: nat, i: nat, j: nat, k: nat, e: Word)
    requires LoaderOk(s, root) && i < 512 && j < 512 && k < 512 && LoaderMapEntry(s, root, i, j, k, e).Some?
    ensures var m, m' := s.mem, LoaderMapEntry(s, root, i, j, k, e).value.mem;
      && (!HasPdpt(m, root, i) ==> Entry(m', root, i) == Pdpt(m', root, i) * 0x1000 + 1)
      && (!HasPd(m, root, i, j) ==> Entry(m', Pdpt(m', root, i), j) == Pd(m', root, i, j) * 0x1000 + 1)
      && TakesLowest(s, m', root, i, j)
  {
    if !HasPdpt(s.mem, root, i) {
      var (s1, p) := AllocFrame(s).value;
      var (s2, d) := AllocFrame(s1).value;
      SameLowest(s);
      LoaderEntryLinks(p);
      LoaderEntryLinks(d);
    } else if !HasPd(s.mem, root, i, j) {
      var (s1, d) := AllocFrame(s).value;
      LoaderEntryLinks(d);
    }
  }
}
