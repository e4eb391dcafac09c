/** Where `unmap` leads: a page unmapped, and not mapped again, that translates. */
module PageAliased {
  import opened Words
  import opened Wrappers
  import opened PageModel
  import opened PageTree
  import opened PageInvariant
  import opened PageTranslation
  import opened PageProgress
  import opened PageStale

  /** Frames `p` and `d` are the two that the allocator gives out next. */
  ghost predicate NextTwo(s: Paging, root: nat, p: nat, d: nat)
  {
    && Space(s) && root in s.taken && root in s.mem
    && LowestFree(s, s.start) == Some(p) && LowestFree(s.(taken := s.taken + {p}), s.start) == Some(d)
    && p in s.refs && s.refs[p] == 0 && d in s.refs && s.refs[d] == 0
  }

  lemma TwoFree(s: Paging, root: nat) returns (p: nat, d: nat)
    requires Inv(s, root) && 2 <= |FreeFrames(s)|
    ensures NextTwo(s, root, p, d)
  {
    AllocFrameTakesOne(s);
    p := LowestFree(s, s.start).value;
    var s1 := s.(taken := s.taken + {p});
    AllocFrameTakesOne(s1);
    SameFree(AllocFrame(s).value.0, s1);
    d := LowestFree(s1, s1.start).value;
  }

  /** `s` with a PDPT in frame `p`, a PD in frame `d` and `e` in it on the way to entry (i, j, k); `taken` and `n` as given. */
  function Built(s: Paging, root: nat, i: nat, j: nat, k: nat, e: Word, p: nat, d: nat, taken: set<nat>, n: nat): Paging
    requires root in s.mem && i < 512 && j < 512 && k < 512 && p < 0x8_0000_0000_0000 && d < 0x8_0000_0000_0000
  {
    s.(taken := taken, refs := s.refs[p := n][d := n],
       mem := s.mem[p := ZeroTable()[j := TableEntry(d)]][d := ZeroTable()[k := e]][root := s.mem[root][i := TableEntry(p)]])
  }

  lemma Apart(s: Paging, root: nat, p: nat, d: nat)
    requires NextTwo(s, root, p, d)
    ensures p != root && d != root && p != d && p < 0x8_0000_0000_0000 && d < 0x8_0000_0000_0000
    ensures p !in s.taken && d !in s.taken && s.start <= p < s.end && s.start <= d < s.end
  {
  }

  lemma FreshBuilds(s: Paging, root: nat, i: nat, j: nat, k: nat, e: Word, p: nat, d: nat)
    requires NextTwo(s, root, p, d) && i < 512 && j < 512 && k < 512
    ensures p < 0x8_0000_0000_0000 && d < 0x8_0000_0000_0000
    ensures MapFresh(s, root, i, j, k, e) == Some(Built(s, root, i, j, k, e, p, d, s.taken + {p} + {d}, 1))
  {
    Apart(s, root, p, d);
    var s1 := s.(taken := s.taken + {p});
    var t1 := AllocFrame(s).value.0;
    LowestFreeSame(s1, t1, s1.start);
    hide Space, LowestFree;
    var r := MapFresh(s, root, i, j, k, e);
    var b := Built(s, root, i, j, k, e, p, d, s.taken + {p} + {d}, 1);
    assert r.value.mem == b.mem && r.value.refs == b.refs;
  }

  /** The way through the two new tables. */
  lemma BuiltWay(s: Paging, root: nat, i: nat, j: nat, k: nat, e: Word, p: nat, d: nat, taken: set<nat>, n: nat)
    requires root in s.mem && i < 512 && j < 512 && k < 512 && p != root && d != root && p != d
    requires p < 0x8_0000_0000_0000 && d < 0x8_0000_0000_0000
    ensures var m := Built(s, root, i, j, k, e, p, d, taken, n).mem;
      && HasPdpt(m, root, i) && Pdpt(m, root, i) == p && HasPd(m, root, i, j) && Pd(m, root, i, j) == d
      && Leaf(m, root, i, j, k) == e
      && (forall x | x != i :: Entry(m, root, x) == Entry(s.mem, root, x))
  {
    TableEntryLinks(p);
    TableEntryLinks(d);
  }

  /** Unmapping the only page of the new tables frees both and leaves them linked. */
  lemma ReleaseBuilt(s: Paging, root: nat, i: nat, j: nat, k: nat, e: Word, p: nat, d: nat)
    requires NextTwo(s, root, p, d) && i < 512 && j < 512 && k < 512
    ensures p < 0x8_0000_0000_0000 && d < 0x8_0000_0000_0000
    ensures var b := Built(s, root, i, j, k, e, p, d, s.taken + {p} + {d}, 1);
      ReleaseTables(b, p, d) == Some(Unmapped(Built(s, root, i, j, k, e, p, d, s.taken, 0), true, [d, p]))
  {
    Apart(s, root, p, d);
    hide Space, LowestFree;
    var b := Built(s, root, i, j, k, e, p, d, s.taken + {p} + {d}, 1);
    var u := Built(s, root, i, j, k, e, p, d, s.taken, 0);
    var r := ReleaseTables(b, p, d);
    assert s.taken + {p} + {d} - {d} - {p} == s.taken;
    assert r.value.s.refs == u.refs && r.value.s.taken == u.taken;
  }

  lemma NextTwoAgain(s: Paging, root: nat, i: nat, j: nat, k: nat, e: Word, p: nat, d: nat)
    requires NextTwo(s, root, p, d) && i < 512 && j < 512 && k < 512
    ensures p < 0x8_0000_0000_0000 && d < 0x8_0000_0000_0000
    ensures NextTwo(Built(s, root, i, j, k, e, p, d, s.taken, 0), root, p, d)
  {
    Apart(s, root, p, d);
    var u := Built(s, root, i, j, k, e, p, d, s.taken, 0);
    LowestFreeSame(s, u, s.start);
    LowestFreeSame(s.(taken := s.taken + {p}), u.(taken := u.taken + {p}), s.start);
    hide LowestFree;
  }

  /** Both entries of the PML4 lead to the same PDPT. */
  ghost predicate Aliased(m: Memory, root: nat, i: nat, i': nat)
  {
    && HasPdpt(m, root, i) && HasPdpt(m, root, i') && Pdpt(m, root, i) == Pdpt(m, root, i')
    && forall j, k :: Leaf(m, root, i, j, k) == Leaf(m, root, i', j, k)
  }

  lemma AliasedIsNoTree(m: Memory, frames: set<nat>, root: nat, i: nat, i': nat)
    requires Aliased(m, root, i, i') && i != i'
    ensures !Tree(m, frames, root)
  {
  }

  lemma SamePdptAliases(m: Memory, root: nat, i: nat, i': nat)
    requires HasPdpt(m, root, i) && HasPdpt(m, root, i') && Pdpt(m, root, i) == Pdpt(m, root, i')
    ensures Aliased(m, root, i, i')
  {
  }

  /** `s3` is where `map` of `v`, `unmap` of `v` and `map` of `w` lead from `s`; `p` and `q` are the pages mapped. */
  ghost predicate Reached(s: Paging, root: nat, v: nat, p: Word, w: nat, q: Word, flags: Word, s3: Paging)
  {
    v < VIRTUAL_END && w < VIRTUAL_END &&
    exists s1, u ::
      && InRange(s, root) && MapPage(s, root, v, p, flags) == Some(s1)
      && TablesIn(s1.mem, s1.refs.Keys, root) && UnmapPage(s1, root, v) == Some(u) && u.found
      && InRange(u.s, root) && MapPage(u.s, root, w, q, flags) == Some(s3)
  }

  lemma ReachedBy(s: Paging, root: nat, v: nat, p: Word, w: nat, q: Word, flags: Word, s1: Paging, u: Unmapped, s3: Paging)
    requires v < VIRTUAL_END && w < VIRTUAL_END && InRange(s, root) && MapPage(s, root, v, p, flags) == Some(s1)
    requires TablesIn(s1.mem, s1.refs.Keys, root) && UnmapPage(s1, root, v) == Some(u) && u.found
    requires InRange(u.s, root) && MapPage(u.s, root, w, q, flags) == Some(s3)
    ensures Reached(s, root, v, p, w, q, flags, s3)
  {
    hide MapPage, UnmapPage, InRange, TablesIn;
  }

  lemma InvInRange(s: Paging, root: nat)
    requires Inv(s, root)
    ensures InRange(s, root) && TablesIn(s.mem, s.refs.Keys, root)
  {
  }

  lemma MapPageFresh(s: Paging, root: nat, v: nat, p: Word, flags: Word)
    requires InRange(s, root) && v < VIRTUAL_END && v % PAGE == 0 && p % PAGE == 0 && !HasPdpt(s.mem, root, I4(v))
    ensures I4(v) < 512
    ensures MapPage(s, root, v, p, flags) == MapFresh(s, root, I4(v), I3(v), I2(v), PageEntry(p, flags))
  {
    PageIndices(v);
    hide MapFresh, PageEntry;
  }

  lemma UnmapPageReleases(s: Paging, root: nat, v: nat, p: nat, d: nat)
    requires TablesIn(s.mem, s.refs.Keys, root) && v % PAGE == 0 && Present(Leaf(s.mem, root, I4(v), I3(v), I2(v)))
    requires Pdpt(s.mem, root, I4(v)) == p && Pd(s.mem, root, I4(v), I3(v)) == d
    ensures p in s.refs && d in s.refs && UnmapPage(s, root, v) == ReleaseTables(s, p, d)
  {
    hide ReleaseTables;
  }

  /** `map` and `unmap` of `v`: the tables built for it are free again, and linked. */
  lemma MapThenUnmap(s: Paging, root: nat, v: nat, p: Word, flags: Word, f: nat, g: nat) returns (s1: Paging, u: Unmapped)
    requires Inv(s, root) && NextTwo(s, root, f, g) && v < VIRTUAL_END && v % PAGE == 0 && p % PAGE == 0 && flags < PAGE
    requires !HasPdpt(s.mem, root, I4(v))
    ensures InRange(s, root) && MapPage(s, root, v, p, flags) == Some(s1)
    ensures TablesIn(s1.mem, s1.refs.Keys, root) && UnmapPage(s1, root, v) == Some(u) && u.found && InRange(u.s, root)
    ensures I4(v) < 512 && f < 0x8_0000_0000_0000 && g < 0x8_0000_0000_0000 && root in s.mem
    ensures u.s == Built(s, root, I4(v), I3(v), I2(v), PageEntry(p, flags), f, g, s.taken, 0)
  {
    var e := PageEntry(p, flags);
    PageEntryFacts(p, flags);
    PageIndices(v);
    InvInRange(s, root);
    MapPageFresh(s, root, v, p, flags);
    Apart(s, root, f, g);
    FreshBuilds(s, root, I4(v), I3(v), I2(v), e, f, g);
    s1 := Built(s, root, I4(v), I3(v), I2(v), e, f, g, s.taken + {f} + {g}, 1);
    MapExtendsTranslation(s, root, v, p, flags);
    hide Inv, InRange, TablesIn, MapPage, UnmapPage, NextTwo, MapFresh, Built, PageEntry, ReleaseTables;
    InvInRange(s1, root);
    BuiltWay(s, root, I4(v), I3(v), I2(v), e, f, g, s.taken + {f} + {g}, 1);
    UnmapPageReleases(s1, root, v, f, g);
    ReleaseBuilt(s, root, I4(v), I3(v), I2(v), e, f, g);
    u := UnmapPage(s1, root, v).value;
    UnmapKeepsRange(s1, root, v);
  }

  /**
    Where the tree is lost. In any state with two free frames and two absent entries of the PML4: `v` under the one is
    mapped and unmapped, and then `w` under the other is mapped, to `q`. Both tables of `v` were freed and are taken again,
    though the PML4 still leads to them: every address under the first entry translates as the one under the second, and
    `get` of `v`, which nothing maps, returns `q` if `w` has the same place there.
   */
  lemma UnmappedPageTranslates(s: Paging, root: nat, v: nat, p: Word, w: nat, q: Word, flags: Word) returns (s3: Paging)
    requires Inv(s, root) && 2 <= |FreeFrames(s)| && v < VIRTUAL_END && w < VIRTUAL_END && flags < PAGE
    requires v % PAGE == 0 && w % PAGE == 0 && p % PAGE == 0 && q % PAGE == 0
    requires I4(v) != I4(w) && !HasPdpt(s.mem, root, I4(v)) && !HasPdpt(s.mem, root, I4(w))
    ensures Reached(s, root, v, p, w, q, flags, s3)
    ensures Aliased(s3.mem, root, I4(v), I4(w)) && !Tree(s3.mem, s3.taken, root)
    ensures I3(v) == I3(w) && I2(v) == I2(w) ==> Get(s3.mem, root, v) == Some(q)
  {
    hide Inv, InRange, TablesIn, MapPage, UnmapPage, NextTwo, MapFresh, Built, PageEntry, FreeFrames, Reached, Aliased, Tree, Leaf, HasPdpt;
    var f, g := TwoFree(s, root);
    Apart(s, root, f, g);
    var s1, u := MapThenUnmap(s, root, v, p, flags, f, g);
    s3 := MapOther(s, root, v, PageEntry(p, flags), w, q, flags, f, g, u.s);
    ReachedBy(s, root, v, p, w, q, flags, s1, u, s3);
    AliasedIsNoTree(s3.mem, s3.taken, root, I4(v), I4(w));
    if I3(v) == I3(w) && I2(v) == I2(w) {
      AliasedGet(s3.mem, root, v, w, PageEntry(q, flags), q, flags);
    }
  }

  lemma AliasedGet(m: Memory, root: nat, v: nat, w: nat, e: Word, q: Word, flags: Word)
    requires Aliased(m, root, I4(v), I4(w)) && I3(v) == I3(w) && I2(v) == I2(w) && v % PAGE == 0
    requires Leaf(m, root, I4(w), I3(w), I2(w)) == e && e == PageEntry(q, flags) && q % PAGE == 0 && flags < PAGE
    ensures Get(m, root, v) == Some(q)
  {
    hide Leaf, PageEntry;
    PageEntryFacts(q, flags);
  }

  lemma MapOther(s: Paging, root: nat, v: nat, e: Word, w: nat, q: Word, flags: Word, f: nat, g: nat, u: Paging) returns (s3: Paging)
    requires Inv(s, root) && NextTwo(s, root, f, g) && w < VIRTUAL_END && w % PAGE == 0 && q % PAGE == 0 && flags < PAGE
    requires I4(v) < 512 && f < 0x8_0000_0000_0000 && g < 0x8_0000_0000_0000 && root in s.mem
    requires u == Built(s, root, I4(v), I3(v), I2(v), e, f, g, s.taken, 0) && InRange(u, root)
    requires I4(v) != I4(w) && !HasPdpt(s.mem, root, I4(w))
    ensures MapPage(u, root, w, q, flags) == Some(s3) && Aliased(s3.mem, root, I4(v), I4(w))
    ensures Leaf(s3.mem, root, I4(w), I3(w), I2(w)) == PageEntry(q, flags)
  {
    hide Inv, InRange, TablesIn, MapPage, NextTwo, MapFresh, Built, PageEntry, Aliased, Leaf;
    PageIndices(w);
    Apart(s, root, f, g);
    BuiltWay(s, root, I4(v), I3(v), I2(v), e, f, g, s.taken, 0);
    NextTwoAgain(s, root, I4(v), I3(v), I2(v), e, f, g);
    NextTwoRoot(u, root, f, g);
    MapPageFresh(u, root, w, q, flags);
    FreshBuilds(u, root, I4(w), I3(w), I2(w), PageEntry(q, flags), f, g);
    s3 := Built(u, root, I4(w), I3(w), I2(w), PageEntry(q, flags), f, g, u.taken + {f} + {g}, 1);
    BuiltWay(u, root, I4(w), I3(w), I2(w), PageEntry(q, flags), f, g, u.taken + {f} + {g}, 1);
    SamePdptAliases(s3.mem, root, I4(v), I4(w));
  }

  lemma NextTwoRoot(s: Paging, root: nat, p: nat, d: nat)
    requires NextTwo(s, root, p, d)
    ensures root in s.mem
  {
  }
}
