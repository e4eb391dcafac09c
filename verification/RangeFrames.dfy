/** How many tables a range of consecutive pages is missing, and that `map` for one page supplies its own. */
module RangeFrames {
  import opened Words
  import opened Wrappers
  import opened PageModel
  import opened PageTree
  import opened PageInvariant
  import opened PageTranslation
  import opened PageProgress

  // --- the tables one page adds -------------------------------------------------------------------

  lemma EnsurePdptAdds(s: Paging, root: nat, i: nat)
    requires Wellformed(s, root) && i < 512 && EnsurePdpt(s, root, i).Some?
    ensures var m, m' := s.mem, EnsurePdpt(s, root, i).value.mem;
      && (forall x :: HasPdpt(m', root, x) <==> HasPdpt(m, root, x) || x == i)
      && (forall x, y :: HasPd(m', root, x, y) <==> HasPd(m, root, x, y))
  {
    if !HasPdpt(s.mem, root, i) {
      TableEntryLinks(LowestFree(s, s.start).value);
      LinkPdptShape(s.mem, s.taken, root, i, LowestFree(s, s.start).value, TableEntry(LowestFree(s, s.start).value));
    }
  }

  lemma EnsurePdAdds(s: Paging, root: nat, i: nat, j: nat)
    requires Wellformed(s, root) && j < 512 && HasPdpt(s.mem, root, i) && EnsurePd(s, root, i, j).Some?
    ensures var m, m' := s.mem, EnsurePd(s, root, i, j).value.mem;
      && (forall x :: HasPdpt(m', root, x) <==> HasPdpt(m, root, x))
      && (forall x, y :: HasPd(m', root, x, y) <==> HasPd(m, root, x, y) || (x == i && y == j))
  {
    if !HasPd(s.mem, root, i, j) {
      TableEntryLinks(LowestFree(s, s.start).value);
      LinkPdShape(s.mem, s.taken, root, i, j, LowestFree(s, s.start).value, TableEntry(LowestFree(s, s.start).value));
    }
  }

  lemma PutLeafAdds(s: Paging, root: nat, i: nat, j: nat, k: nat, e: Word)
    requires Wellformed(s, root) && HasPd(s.mem, root, i, j) && k < 512
    ensures var m, m' := s.mem, PutLeaf(s, root, i, j, k, e).mem;
      && (forall x :: HasPdpt(m', root, x) <==> HasPdpt(m, root, x))
      && (forall x, y :: HasPd(m', root, x, y) <==> HasPd(m, root, x, y))
  {
    WriteLeafShape(s.mem, s.taken, root, i, j, k, e);
  }

  /** After `map` of entry (i, j, k) the tables are those before and the two on the way to it. */
  lemma MapEntryAdds(s: Paging, root: nat, i: nat, j: nat, k: nat, e: Word)
    requires Wellformed(s, root) && i < 512 && j < 512 && k < 512 && MapEntry(s, root, i, j, k, e).Some?
    ensures AddsTables(s.mem, MapEntry(s, root, i, j, k, e).value.mem, root, i, j)
  {
    hide MapEntry, MapSteps;
    MapIsSteps(s, root, i, j, k, e);
    MapStepsAdd(s, root, i, j, k, e, MapEntry(s, root, i, j, k, e).value);
  }

  lemma MapStepsAdd(s: Paging, root: nat, i: nat, j: nat, k: nat, e: Word, s': Paging)
    requires Wellformed(s, root) && i < 512 && j < 512 && k < 512 && MapSteps(s, root, i, j, k, e) == Some(s')
    ensures AddsTables(s.mem, s'.mem, root, i, j)
  {
    hide Tree, Space;
    EnsurePdptShape(s, root, i);
    EnsurePdptAdds(s, root, i);
    var s1 := EnsurePdpt(s, root, i).value;
    EnsurePdShape(s1, root, i, j);
    EnsurePdAdds(s1, root, i, j);
    PutLeafAdds(EnsurePd(s1, root, i, j).value, root, i, j, k, e);
  }

  predicate PageHasPdpt(m: Memory, root: nat, g: nat)
  {
    HasPdpt(m, root, g / 0x4_0000)
  }

  predicate PageHasPd(m: Memory, root: nat, g: nat)
  {
    HasPd(m, root, g / 0x4_0000, g / 512 % 512)
  }

  lemma SamePd(g: nat, h: nat)
    ensures g / 512 == h / 512 <==> g / 0x4_0000 == h / 0x4_0000 && g / 512 % 512 == h / 512 % 512
  {
    PdOfPage(g);
    PdOfPage(h);
    SameQuotient(g / 512, h / 512);
  }

  lemma PdOfPage(g: nat)
    ensures g / 0x4_0000 == g / 512 / 512
  {
  }

  lemma SameQuotient(p: nat, q: nat)
    ensures p == q <==> p / 512 == q / 512 && p % 512 == q % 512
  {
  }

  /** The same by pages: `map` for page `g` gives tables to the pages that share them. */
  lemma MapPageAdds(s: Paging, root: nat, v: nat, p: Word, flags: Word, h: nat)
    requires Wellformed(s, root) && v < VIRTUAL_END && MapPage(s, root, v, p, flags).Some?
    ensures var m, m', g := s.mem, MapPage(s, root, v, p, flags).value.mem, v / PAGE;
      && (PageHasPdpt(m', root, h) <==> PageHasPdpt(m, root, h) || h / 0x4_0000 == g / 0x4_0000)
      && (PageHasPd(m', root, h) <==> PageHasPd(m, root, h) || h / 512 == g / 512)
  {
    PageIndices(v);
    MapEntryAdds(s, root, I4(v), I3(v), I2(v), PageEntry(p, flags));
    hide MapEntry;
    SamePd(h, v / PAGE);
  }

  lemma PageMissing(s: Paging, root: nat, v: nat)
    ensures MissingTables(s, root, I4(v), I3(v)) ==
      (if PageHasPd(s.mem, root, v / PAGE) then 0 else 1) + (if PageHasPdpt(s.mem, root, v / PAGE) then 0 else 1)
  {
    PageIndices(v);
  }

  // --- the tables a range misses ----------------------------------------------------------------------

  /** Page `x` is the first page of the range from `g` on in its block of `span` pages. */
  predicate FirstIn(g: nat, x: nat, span: nat)
    requires span > 0
  {
    x == g || (x > g && (x - 1) / span != x / span)
  }

  /** The tables on the way to the `n` pages from `g` on that do not exist, each counted at its first page. */
  function RangeMissing(m: Memory, root: nat, g: nat, n: nat): nat
  {
    if n == 0 then 0
    else
      var x := g + n - 1;
      RangeMissing(m, root, g, n - 1)
        + (if FirstIn(g, x, 512) && !PageHasPd(m, root, x) then 1 else 0)
        + (if FirstIn(g, x, 0x4_0000) && !PageHasPdpt(m, root, x) then 1 else 0)
  }

  lemma OneMissing(m: Memory, root: nat, g: nat)
    ensures RangeMissing(m, root, g, 1) <= 2
  {
    assert RangeMissing(m, root, g, 0) == 0;
  }

  lemma SameBlockBetween(g: nat, y: nat, x: nat, span: nat)
    requires span > 0 && g <= y < x && y / span == x / span
    ensures (x - 1) / span == x / span
  {
    var q := x / span;
    assert y >= q * span;
    DivModUnique(x - 1, span, q, x - 1 - q * span);
  }

  /** A page that is not the first of its block in the range shares the block with an earlier one. */
  lemma NotFirstIff(g: nat, x: nat, span: nat)
    requires span > 0 && g <= x
    ensures !FirstIn(g, x, span) <==> exists y: nat :: g <= y < x && y / span == x / span
  {
    if y: nat :| g <= y < x && y / span == x / span {
      SameBlockBetween(g, y, x, span);
    }
    if !FirstIn(g, x, span) {
      assert g <= x - 1 < x && (x - 1) / span == x / span;
    }
  }

  /** A range misses at most one table for each block of 512 and of 0x40000 pages it meets. */
  lemma {:induction false} FewFirsts(m: Memory, root: nat, g: nat, n: nat)
    ensures RangeMissing(m, root, g, n) <= Firsts(g, n, 512) + Firsts(g, n, 0x4_0000)
  {
    if n > 0 {
      FewFirsts(m, root, g, n - 1);
    }
  }

  function Firsts(g: nat, n: nat, span: nat): nat
    requires span > 0
  {
    if n == 0 then 0 else Firsts(g, n - 1, span) + if FirstIn(g, g + n - 1, span) then 1 else 0
  }

  lemma {:induction false} FirstsAreBlocks(g: nat, n: nat, span: nat)
    requires span > 1
    ensures Firsts(g, n, span) <= if n == 0 then 0 else 1 + (g + n - 1) / span - g / span
  {
    if n > 0 {
      FirstsAreBlocks(g, n - 1, span);
      if n > 1 {
        BlockStep(g + n - 2, span);
      }
    }
  }

  lemma BlockStep(x: nat, span: nat)
    requires span > 1
    ensures x / span <= (x + 1) / span <= x / span + 1
  {
    var q, r := x / span, x % span;
    if r + 1 < span {
      DivModUnique(x + 1, span, q, r + 1);
    } else {
      assert x + 1 == span * (q + 1);
      DivModUnique(x + 1, span, q + 1, 0);
    }
  }

  lemma BlockAhead(g: nat, span: nat)
    requires span >= 32
    ensures (g + 31) / span <= g / span + 1
  {
    var q, r := g / span, g % span;
    if r + 31 < span {
      DivModUnique(g + 31, span, q, r + 31);
    } else {
      assert g + 31 == span * (q + 1) + (r + 31 - span);
      DivModUnique(g + 31, span, q + 1, r + 31 - span);
    }
  }

  /** At most 32 consecutive pages, as `mm::alloc` asks for, lie in two PDs and two PDPTs: four tables at most. */
  lemma AtMostFour(m: Memory, root: nat, g: nat, n: nat)
    requires n <= 32
    ensures RangeMissing(m, root, g, n) <= 4
  {
    FewFirsts(m, root, g, n);
    FewBlocks(g, n, 512);
    FewBlocks(g, n, 0x4_0000);
  }

  lemma FewBlocks(g: nat, n: nat, span: nat)
    requires span >= 32 && n <= 32
    ensures Firsts(g, n, span) <= 2
  {
    FirstsAreBlocks(g, n, span);
    BlockAhead(g, span);
    if n > 0 {
      BlocksGrow(g + n - 1, g + 31, span);
    }
  }

  lemma BlocksGrow(x: nat, y: nat, span: nat)
    requires span > 0 && x <= y
    ensures x / span <= y / span
  {
    var p, q := x / span, y / span;
    assert x == p * span + x % span && y == q * span + y % span;
    assert p * span == (p - q) * span + q * span;
    if p > q {
      MulAtLeast(span, p - q);
    }
  }
}
