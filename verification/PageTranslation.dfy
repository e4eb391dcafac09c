/** `get` as a partial function on 2 MiB pages, and `map` as its extension by one page. */
module PageTranslation {
  import opened Words
  import opened Wrappers
  import opened PageModel
  import opened PageTree
  import opened PageInvariant

  const PAGES: nat := 0x800_0000

  function PageLeaf(m: Memory, root: nat, g: nat): Word
  {
    Leaf(m, root, g / 0x4_0000, g / 512 % 512, g % 512)
  }

  /** The page a present entry names. */
  function PageBase(e: Word): nat
  {
    e - e % PAGE
  }

  /** Every mapped page with the physical page it is mapped to. */
  function Translation(m: Memory, root: nat): map<nat, nat>
  {
    map g: nat | g < PAGES && Present(PageLeaf(m, root, g)) :: PageBase(PageLeaf(m, root, g))
  }

  lemma PageIndices(v: nat)
    ensures v / PAGE / 0x4_0000 == I4(v)
    ensures v / PAGE / 512 % 512 == I3(v)
    ensures v / PAGE % 512 == I2(v)
    ensures v < VIRTUAL_END ==> v / PAGE < PAGES && I4(v) < 512
  {
  }

  lemma IndicesDeterminePage(g: nat, h: nat)
    requires g / 0x4_0000 == h / 0x4_0000 && g / 512 % 512 == h / 512 % 512 && g % 512 == h % 512
    ensures g == h
  {
  }

  /** The address of `v` under the page mapping `t`. */
  function LookUp(t: map<nat, nat>, v: nat): Option<nat>
  {
    if v / PAGE in t then Some(t[v / PAGE] + v % PAGE) else None
  }

  /** `get` looks a page up in the partial function and adds the offset. */
  lemma GetIsTranslation(m: Memory, root: nat, v: nat)
    requires v < VIRTUAL_END
    ensures Get(m, root, v) == LookUp(Translation(m, root), v)
  {
    PageIndices(v);
  }

  lemma EnsurePdptEffect(s: Paging, root: nat, i: nat)
    requires Inv(s, root) && i < 512 && EnsurePdpt(s, root, i).Some?
    ensures var s' := EnsurePdpt(s, root, i).value;
      && Inv(s', root) && HasPdpt(s'.mem, root, i)
      && forall x, y, z :: Leaf(s'.mem, root, x, y, z) == Leaf(s.mem, root, x, y, z)
  {
    EnsurePdptShape(s, root, i);
    if !HasPdpt(s.mem, root, i) {
      AddPdptKeepsInv(s, root, i);
      TableEntryLinks(LowestFree(s, s.start).value);
      LinkPdptLeaf(s.mem, s.taken, root, i, LowestFree(s, s.start).value, TableEntry(LowestFree(s, s.start).value));
    }
  }

  lemma EnsurePdEffect(s: Paging, root: nat, i: nat, j: nat)
    requires Inv(s, root) && j < 512 && HasPdpt(s.mem, root, i) && EnsurePd(s, root, i, j).Some?
    ensures var s' := EnsurePd(s, root, i, j).value;
      && Inv(s', root) && HasPd(s'.mem, root, i, j)
      && forall x, y, z :: Leaf(s'.mem, root, x, y, z) == Leaf(s.mem, root, x, y, z)
  {
    EnsurePdShape(s, root, i, j);
    if !HasPd(s.mem, root, i, j) {
      AddPdKeepsInv(s, root, i, j);
      TableEntryLinks(LowestFree(s, s.start).value);
      LinkPdLeaf(s.mem, s.taken, root, i, j, LowestFree(s, s.start).value, TableEntry(LowestFree(s, s.start).value));
    }
  }

  /** A `map` that completes keeps the invariant and changes one page entry, which was absent. */
  lemma MapEntryEffect(s: Paging, root: nat, i: nat, j: nat, k: nat, e: Word)
    requires Inv(s, root) && i < 512 && j < 512 && k < 512 && Present(e)
    requires MapEntry(s, root, i, j, k, e).Some?
    ensures var s' := MapEntry(s, root, i, j, k, e).value;
      && Inv(s', root) && !Present(Leaf(s.mem, root, i, j, k))
      && forall x, y, z :: Leaf(s'.mem, root, x, y, z) == if x == i && y == j && z == k then e else Leaf(s.mem, root, x, y, z)
  {
    MapIsSteps(s, root, i, j, k, e);
    var s1 := EnsurePdpt(s, root, i).value;
    EnsurePdptEffect(s, root, i);
    var s2 := EnsurePd(s1, root, i, j).value;
    EnsurePdEffect(s1, root, i, j);
    PutLeafKeepsInv(s2, root, i, j, k, e);
    WriteLeafTree(s2.mem, s2.taken, root, i, j, k, e);
  }

  /** One page entry of `m'` is `e`, all others are those of `m`. */
  ghost predicate OneLeaf(m: Memory, m': Memory, root: nat, i: nat, j: nat, k: nat, e: Word)
  {
    forall x, y, z :: Leaf(m', root, x, y, z) == if x == i && y == j && z == k then e else Leaf(m, root, x, y, z)
  }

  lemma OneLeafPage(m: Memory, m': Memory, root: nat, v: nat, e: Word, g: nat)
    requires OneLeaf(m, m', root, I4(v), I3(v), I2(v), e)
    ensures PageLeaf(m', root, g) == if g == v / PAGE then e else PageLeaf(m, root, g)
  {
    PageIndices(v);
    var x, y, z := g / 0x4_0000, g / 512 % 512, g % 512;
    assert Leaf(m', root, x, y, z) == if x == I4(v) && y == I3(v) && z == I2(v) then e else Leaf(m, root, x, y, z);
    if x == I4(v) && y == I3(v) && z == I2(v) {
      IndicesDeterminePage(g, v / PAGE);
    }
  }

  lemma OneLeafTranslates(m: Memory, m': Memory, root: nat, v: nat, e: Word)
    requires v < VIRTUAL_END && OneLeaf(m, m', root, I4(v), I3(v), I2(v), e) && Present(e)
    ensures Translation(m', root) == Translation(m, root)[v / PAGE := PageBase(e)]
  {
    PageIndices(v);
    TranslationUpdate(m, m', root, v / PAGE, e) by {
      forall g: nat
        ensures PageLeaf(m', root, g) == if g == v / PAGE then e else PageLeaf(m, root, g)
      {
        OneLeafPage(m, m', root, v, e, g);
      }
    }
  }

  lemma TranslationUpdate(m: Memory, m': Memory, root: nat, page: nat, e: Word)
    requires page < PAGES && Present(e)
    requires forall g: nat :: PageLeaf(m', root, g) == if g == page then e else PageLeaf(m, root, g)
    ensures Translation(m', root) == Translation(m, root)[page := PageBase(e)]
  {
    var t, t' := Translation(m, root), Translation(m', root);
    assert PageLeaf(m', root, page) == e;
    forall g: nat
      ensures g in t' <==> g in t || g == page
      ensures g in t' ==> t'[g] == if g == page then PageBase(e) else t[g]
    {
      assert PageLeaf(m', root, g) == if g == page then e else PageLeaf(m, root, g);
    }
  }

  /**
    `map(v, p, flags)`: the page of `v` was unmapped and is now mapped to `p`, and every other
    page translates as before.
   */
  lemma MapExtendsTranslation(s: Paging, root: nat, v: nat, p: Word, flags: Word)
    requires Inv(s, root) && v < VIRTUAL_END && flags < PAGE && MapPage(s, root, v, p, flags).Some?
    ensures var s' := MapPage(s, root, v, p, flags).value;
      && Inv(s', root)
      && v % PAGE == 0 && v / PAGE !in Translation(s.mem, root)
      && Translation(s'.mem, root) == Translation(s.mem, root)[v / PAGE := p]
  {
    PageEntryFacts(p, flags);
    assert I4(v) < 512 by { PageIndices(v); }
    MapEntryTranslates(s, root, v, PageEntry(p, flags), p);
  }

  lemma MapEntryTranslates(s: Paging, root: nat, v: nat, e: Word, p: Word)
    requires Inv(s, root) && v < VIRTUAL_END && I4(v) < 512 && Present(e) && PageBase(e) == p
    requires MapEntry(s, root, I4(v), I3(v), I2(v), e).Some?
    ensures var s' := MapEntry(s, root, I4(v), I3(v), I2(v), e).value;
      && Inv(s', root) && v / PAGE !in Translation(s.mem, root)
      && Translation(s'.mem, root) == Translation(s.mem, root)[v / PAGE := p]
  {
    MapEntryEffect(s, root, I4(v), I3(v), I2(v), e);
    var s' := MapEntry(s, root, I4(v), I3(v), I2(v), e).value;
    OneLeafTranslates(s.mem, s'.mem, root, v, e);
    PageIndices(v);
  }

  // --- runs of map ------------------------------------------------------------------------------

  datatype Request = Request(v: nat, p: Word, flags: Word)
  {
    /** The physical page the request is for. */
    function Page(): nat {
      p - p % PAGE
    }
  }

  predicate ValidRequest(r: Request)
  {
    r.v < VIRTUAL_END && r.flags < PAGE
  }

  /** `r` completes in `s` and leads to `s'`; of tables that are no tree nothing is assumed. */
  ghost predicate Maps(s: Paging, root: nat, r: Request, s': Paging)
  {
    ValidRequest(r) && (Wellformed(s, root) ==> MapPage(s, root, r.v, r.p, r.flags) == Some(s'))
  }

  /** Every state of the run is what `map` makes of the one before. */
  ghost predicate MapRun(trace: seq<Paging>, root: nat, rs: seq<Request>)
  {
    && |trace| == |rs| + 1
    && forall i: nat | i < |rs| :: Maps(trace[i], root, rs[i], trace[i + 1])
  }

  function Extend(t: map<nat, nat>, rs: seq<Request>): map<nat, nat>
  {
    if rs == [] then t
    else Extend(t, rs[..|rs| - 1])[rs[|rs| - 1].v / PAGE := rs[|rs| - 1].Page()]
  }

  lemma MapsKeepsInv(s: Paging, root: nat, r: Request, s': Paging)
    requires Inv(s, root) && Maps(s, root, r, s')
    ensures Inv(s', root) && r.v % PAGE == 0 && r.v / PAGE !in Translation(s.mem, root)
    ensures Translation(s'.mem, root) == Translation(s.mem, root)[r.v / PAGE := r.Page()] && r.Page() == r.p
  {
    MapExtendsTranslation(s, root, r.v, r.p, r.flags);
  }

  /**
    Over a run of `map` the tables stay a tree of marked frames with exact counts, and the
    translation is the first one with each request added.
   */
  lemma {:induction false} MapRunKeepsInv(trace: seq<Paging>, root: nat, rs: seq<Request>, n: nat)
    requires MapRun(trace, root, rs) && Inv(trace[0], root) && n <= |rs|
    ensures Inv(trace[n], root)
    ensures Translation(trace[n].mem, root) == Extend(Translation(trace[0].mem, root), rs[..n])
  {
    if n > 0 {
      MapRunKeepsInv(trace, root, rs, n - 1);
      assert Maps(trace[n - 1], root, rs[n - 1], trace[n - 1 + 1]);
      MapsKeepsInv(trace[n - 1], root, rs[n - 1], trace[n]);
      assert rs[..n][..n - 1] == rs[..n - 1];
    }
  }
}
