/** What `unmap` leaves behind: it counts and frees, but writes no entry. */
module PageStale {
  import opened Words
  import opened Wrappers
  import opened PageModel
  import opened PageInvariant
  import opened PageTranslation
  import opened PageProgress
  import opened PageConservation
  import opened PageRoundTrip

  lemma PresentCounts(t: Table, x: nat)
    requires x < 512 && Present(t[x])
    ensures Count(t) > 0
  {
    assert x in PresentSlots(t);
  }

  /** The tables on the way to a mapped page are marked and referenced. */
  lemma TablesCounted(s: Paging, root: nat, i: nat, j: nat, k: nat)
    requires Inv(s, root) && Present(Leaf(s.mem, root, i, j, k))
    ensures var p, d := Pdpt(s.mem, root, i), Pd(s.mem, root, i, j);
      && p in s.refs && d in s.refs && p in s.taken && d in s.taken && p in s.mem && d in s.mem
      && s.refs[p] == Count(s.mem[p]) > 0 && s.refs[d] == Count(s.mem[d]) > 0
  {
    var p, d := Pdpt(s.mem, root, i), Pd(s.mem, root, i, j);
    assert HasPdpt(s.mem, root, i) && HasPd(s.mem, root, i, j);
    assert CountedAt(s, p) && CountedAt(s, d);
    PresentCounts(s.mem[p], j);
    PresentCounts(s.mem[d], k);
  }

  /** A page in the same PD as page `g` and other than it is mapped by `t`. */
  ghost predicate SharesPd(t: map<nat, nat>, g: nat)
  {
    exists h :: h in t && h != g && h / 512 == g / 512
  }

  lemma SameTableSlots(g: nat, h: nat)
    requires h / 512 == g / 512
    ensures h == PageNumber(g / 0x4_0000, g / 512 % 512, h % 512) && (h == g <==> h % 512 == g % 512)
  {
  }

  lemma TwoElements(s: set<nat>, k: nat)
    requires k in s
    ensures |s| > 1 <==> exists z :: z in s && z != k
  {
    if z :| z in s && z != k {
      assert |s - {k}| > 0;
    }
    if |s| > 1 {
      assert |s - {k}| > 0;
      var z :| z in s - {k};
    }
  }

  /** The PD's counter is above one exactly when another of its pages is mapped. */
  lemma CountsAnother(s: Paging, root: nat, v: nat)
    requires Inv(s, root) && v < VIRTUAL_END && v / PAGE in Translation(s.mem, root)
    ensures Pd(s.mem, root, I4(v), I3(v)) in s.refs
    ensures s.refs[Pd(s.mem, root, I4(v), I3(v))] > 1 <==> SharesPd(Translation(s.mem, root), v / PAGE)
  {
    var g, t := v / PAGE, Translation(s.mem, root);
    var i, j, k := I4(v), I3(v), I2(v);
    PageIndices(v);
    InTranslation(s.mem, root, v);
    TablesCounted(s, root, i, j, k);
    SlotsOfTable(s, root, i, j);
    var slots := LiveSlots(i, j, t.Keys);
    SameTableSlots(g, g);
    TwoElements(slots, k);
    if z :| z in slots && z != k {
      SlotIsPage(i, j, z, k, g);
      assert PageNumber(i, j, z) in t;
    }
    if h :| h in t && h != g && h / 512 == g / 512 {
      SameTableSlots(g, h);
      assert h % 512 in slots;
    }
  }

  lemma SlotIsPage(i: nat, j: nat, z: nat, k: nat, g: nat)
    requires z < 512 && k < 512 && z != k && g == PageNumber(i, j, k)
    ensures PageNumber(i, j, z) != g && PageNumber(i, j, z) / 512 == g / 512
  {
    DivModUnique(PageNumber(i, j, z), 512, i * 512 + j, z);
    DivModUnique(g, 512, i * 512 + j, k);
  }

  /** The step on entry (i, j, k): its PD is counted once too few, and gone from the marks if that was its last. */
  lemma UnmapEntryLeaves(s: Paging, root: nat, i: nat, j: nat, k: nat)
    requires Inv(s, root) && Tree(s.mem, s.refs.Keys, root) && Present(Leaf(s.mem, root, i, j, k))
    ensures var r := UnmapEntry(s, root, i, j, k);
      var d := Pd(s.mem, root, i, j);
      && r.Some? && d in s.mem && d in s.refs && r.value.s.mem == s.mem
      && d in r.value.s.refs && r.value.s.refs[d] + 1 == Count(s.mem[d])
      && (s.refs[d] > 1 ==> r.value.s.taken == s.taken) && (s.refs[d] <= 1 ==> d !in r.value.s.taken)
  {
    TablesCounted(s, root, i, j, k);
    UnmapReleases(s, root, i, j, k);
    var u := UnmapEntry(s, root, i, j, k).value;
    assert Elements([]) == {};
  }

  lemma SameTables(s: Paging, s': Paging, root: nat)
    requires Wellformed(s, root) && s' == s.(refs := s'.refs) && s'.refs.Keys == s.refs.Keys
    ensures Wellformed(s', root)
  {
  }

  /**
    After `unmap` of a mapped page, `get` answers as before, for that page too; the reference counts are no longer
    those of the entries; and the tables are still a tree of marked frames if and only if another page of the same PD
    was mapped, which is to say that the PD's counter was above one.
   */
  lemma UnmapKeepsTreeIff(s: Paging, root: nat, v: nat)
    requires Inv(s, root) && v < VIRTUAL_END && v % PAGE == 0 && v / PAGE in Translation(s.mem, root)
    ensures InRange(s, root) && Pd(s.mem, root, I4(v), I3(v)) in s.refs
    ensures var r := UnmapPage(s, root, v);
      && r.Some? && r.value.found
      && (forall a :: Get(r.value.s.mem, root, a) == Get(s.mem, root, a))
      && !RefsExact(r.value.s, root)
      && (Wellformed(r.value.s, root) <==> s.refs[Pd(s.mem, root, I4(v), I3(v))] > 1)
      && (Wellformed(r.value.s, root) <==> SharesPd(Translation(s.mem, root), v / PAGE))
  {
    TreeInRange(s, root);
    InTranslation(s.mem, root, v);
    UnmapEntryLeaves(s, root, I4(v), I3(v), I2(v));
    CountsAnother(s, root, v);
    hide SharesPd, Translation;
    var u := UnmapPage(s, root, v).value;
    var d := Pd(s.mem, root, I4(v), I3(v));
    assert HasPd(u.s.mem, root, I4(v), I3(v)) && !CountedAt(u.s, d);
    if s.refs[d] > 1 {
      SameTables(s, u.s, root);
    }
  }

  /**
    When `unmap` halts, on any tables: on an unaligned address, or where a counter is used up whose table is not marked:
    that of the PD, or that of the PDPT after it.
   */
  lemma UnmapHaltsIff(s: Paging, root: nat, v: nat)
    requires TablesIn(s.mem, s.refs.Keys, root) && v < VIRTUAL_END
    ensures v / 0x20_0000 in Translation(s.mem, root) ==>
              Pdpt(s.mem, root, I4(v)) in s.refs && Pd(s.mem, root, I4(v), I3(v)) in s.refs
    ensures UnmapPage(s, root, v).None? <==>
      || v % 0x20_0000 != 0
      || (&& v / 0x20_0000 in Translation(s.mem, root)
          && var p, d := Pdpt(s.mem, root, I4(v)), Pd(s.mem, root, I4(v), I3(v));
          && s.refs[d] <= 1
          && (d !in s.taken || p == d || (s.refs[p] <= 1 && p !in s.taken)))
  {
    PageIndices(v);
    InTranslation(s.mem, root, v);
  }

  /** Of a page that is not mapped `unmap` says so, and changes nothing. */
  lemma UnmapOfUnmapped(s: Paging, root: nat, v: nat)
    requires TablesIn(s.mem, s.refs.Keys, root) && v < VIRTUAL_END && v % 0x20_0000 == 0
    ensures v / 0x20_0000 !in Translation(s.mem, root) <==> UnmapPage(s, root, v) == Some(Unmapped(s, false, []))
  {
    PageIndices(v);
    InTranslation(s.mem, root, v);
  }

  /** Unmapping the only page of a PD twice: the first call frees the PD, whose counter stays 0, and the second halts. */
  lemma UnmapTwiceHalts(s: Paging, root: nat, v: nat)
    requires Inv(s, root) && v < VIRTUAL_END && v % PAGE == 0 && v / PAGE in Translation(s.mem, root)
    requires !SharesPd(Translation(s.mem, root), v / PAGE)
    ensures InRange(s, root) && UnmapPage(s, root, v).Some?
    ensures var u := UnmapPage(s, root, v).value.s; TablesIn(u.mem, u.refs.Keys, root) && UnmapPage(u, root, v).None?
  {
    UnmapKeepsTreeIff(s, root, v);
    UnmapEntryLeaves(s, root, I4(v), I3(v), I2(v));
    InTranslation(s.mem, root, v);
    TablesCounted(s, root, I4(v), I3(v), I2(v));
    hide SharesPd, Translation, Inv, Tree;
    UnmapKeepsRange(s, root, v);
    var u := UnmapPage(s, root, v).value.s;
    UnmapHaltsIff(u, root, v);
  }

  lemma UnmapKeepsRange(s: Paging, root: nat, v: nat)
    requires InRange(s, root) && UnmapPage(s, root, v).Some?
    ensures InRange(UnmapPage(s, root, v).value.s, root)
  {
    ReleaseTakesOnly(s, root, v);
  }

  lemma ReleaseTakesOnly(s: Paging, root: nat, v: nat)
    requires InRange(s, root) && UnmapPage(s, root, v).Some?
    ensures UnmapPage(s, root, v).value.s.taken <= s.taken
  {
  }

  /** Whatever is mapped cannot be mapped again after `unmap`: the entry is there, and `map` halts on it. */
  lemma RemapHalts(s: Paging, root: nat, v: nat, p: Word, flags: Word)
    requires InRange(s, root) && v < VIRTUAL_END && v / PAGE in Translation(s.mem, root) && UnmapPage(s, root, v).Some?
    ensures InRange(UnmapPage(s, root, v).value.s, root)
    ensures MapPage(UnmapPage(s, root, v).value.s, root, v, p, flags) == None
  {
    UnmapKeepsRange(s, root, v);
    MapHaltsIff(UnmapPage(s, root, v).value.s, root, v, p, flags);
  }
}
