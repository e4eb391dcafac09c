/**
  The three elementary changes `map` is made of (link a new PDPT, link a new PD, write a
  page entry), what each does to the tree of tables, and that `map` is their composition.
 */
module PageTree {
  import opened Words
  import opened PageModel

  /** `w` is a present entry for the table in frame `f`. */
  predicate Links(w: Word, f: nat)
  {
    Present(w) && Target(w) == f
  }

  lemma TableEntryLinks(f: nat)
    requires f * FRAME + 3 < TWO_64
    ensures Links(TableEntry(f), f)
  {
    DivModUnique(f * FRAME + 3, FRAME, f, 3);
    DivModUnique(f * FRAME + 3, 2, f * (FRAME / 2) + 1, 1);
  }

  function LinkPdpt(m: Memory, root: nat, i: nat, p: nat, w: Word): Memory
    requires root in m && i < 512
  {
    Write(m[p := ZeroTable()], root, i, w)
  }

  function LinkPd(m: Memory, root: nat, i: nat, j: nat, d: nat, w: Word): Memory
    requires Pdpt(m, root, i) in m && j < 512
  {
    Write(m[d := ZeroTable()], Pdpt(m, root, i), j, w)
  }

  /** `m'` has the tables of `m`, those of entry (i, j), and no more. */
  ghost predicate AddsTables(m: Memory, m': Memory, root: nat, i: nat, j: nat)
  {
    && (forall x :: HasPdpt(m', root, x) <==> HasPdpt(m, root, x) || x == i)
    && (forall x, y :: HasPd(m', root, x, y) <==> HasPd(m, root, x, y) || (x == i && y == j))
  }

  lemma LinkPdptShape(m: Memory, frames: set<nat>, root: nat, i: nat, p: nat, w: Word)
    requires Tree(m, frames, root) && i < 512 && !HasPdpt(m, root, i) && p !in frames && Links(w, p)
    ensures var m' := LinkPdpt(m, root, i, p, w);
      && (forall x :: HasPdpt(m', root, x) <==> HasPdpt(m, root, x) || x == i)
      && (forall x | HasPdpt(m', root, x) :: Pdpt(m', root, x) == if x == i then p else Pdpt(m, root, x))
      && (forall x, y :: HasPd(m', root, x, y) <==> HasPd(m, root, x, y))
      && (forall x, y | HasPd(m, root, x, y) :: Pd(m', root, x, y) == Pd(m, root, x, y))
  {
    var m' := LinkPdpt(m, root, i, p, w);
    assert forall y :: Entry(m', p, y) == 0;
    assert forall f, y | f in frames && f != root :: Entry(m', f, y) == Entry(m, f, y);
    assert forall x | x != i :: Entry(m', root, x) == Entry(m, root, x);
    forall x, y
      ensures HasPd(m', root, x, y) <==> HasPd(m, root, x, y)
      ensures HasPd(m, root, x, y) ==> Pd(m', root, x, y) == Pd(m, root, x, y)
    {
      if x != i && HasPdpt(m, root, x) {
        assert Entry(m', Pdpt(m, root, x), y) == Entry(m, Pdpt(m, root, x), y);
      }
    }
  }

  lemma LinkPdptTree(m: Memory, frames: set<nat>, root: nat, i: nat, p: nat, w: Word)
    requires Tree(m, frames, root) && i < 512 && !HasPdpt(m, root, i) && p !in frames && Links(w, p)
    ensures Tree(LinkPdpt(m, root, i, p, w), frames + {p}, root)
  {
    LinkPdptShape(m, frames, root, i, p, w);
  }

  lemma LinkPdptLeaf(m: Memory, frames: set<nat>, root: nat, i: nat, p: nat, w: Word)
    requires Tree(m, frames, root) && i < 512 && !HasPdpt(m, root, i) && p !in frames && Links(w, p)
    ensures forall x, y, z :: Leaf(LinkPdpt(m, root, i, p, w), root, x, y, z) == Leaf(m, root, x, y, z)
  {
    LinkPdptShape(m, frames, root, i, p, w);
  }

  lemma LinkPdShape(m: Memory, frames: set<nat>, root: nat, i: nat, j: nat, d: nat, w: Word)
    requires Tree(m, frames, root) && j < 512 && HasPdpt(m, root, i) && !HasPd(m, root, i, j)
    requires d !in frames && Links(w, d)
    ensures var m' := LinkPd(m, root, i, j, d, w);
      && (forall x :: Entry(m', root, x) == Entry(m, root, x))
      && (forall x, y :: HasPd(m', root, x, y) <==> HasPd(m, root, x, y) || (x == i && y == j))
      && (forall x, y | HasPd(m', root, x, y) :: Pd(m', root, x, y) == if x == i && y == j then d else Pd(m, root, x, y))
  {
    var m' := LinkPd(m, root, i, j, d, w);
    var p := Pdpt(m, root, i);
    assert forall f, y | f in frames && (f != p || y != j) :: Entry(m', f, y) == Entry(m, f, y);
    forall x, y
      ensures HasPd(m', root, x, y) <==> HasPd(m, root, x, y) || (x == i && y == j)
      ensures HasPd(m', root, x, y) ==> Pd(m', root, x, y) == if x == i && y == j then d else Pd(m, root, x, y)
    {
      assert Entry(m', root, x) == Entry(m, root, x);
      if HasPdpt(m, root, x) && !(x == i && y == j) {
        assert Entry(m', Pdpt(m, root, x), y) == Entry(m, Pdpt(m, root, x), y);
      }
    }
  }

  lemma LinkPdTree(m: Memory, frames: set<nat>, root: nat, i: nat, j: nat, d: nat, w: Word)
    requires Tree(m, frames, root) && j < 512 && HasPdpt(m, root, i) && !HasPd(m, root, i, j)
    requires d !in frames && Links(w, d)
    ensures Tree(LinkPd(m, root, i, j, d, w), frames + {d}, root)
  {
    LinkPdShape(m, frames, root, i, j, d, w);
    assert forall x :: HasPdpt(LinkPd(m, root, i, j, d, w), root, x) == HasPdpt(m, root, x);
    assert forall x :: Pdpt(LinkPd(m, root, i, j, d, w), root, x) == Pdpt(m, root, x);
  }

  lemma LinkPdLeaf(m: Memory, frames: set<nat>, root: nat, i: nat, j: nat, d: nat, w: Word)
    requires Tree(m, frames, root) && j < 512 && HasPdpt(m, root, i) && !HasPd(m, root, i, j)
    requires d !in frames && Links(w, d)
    ensures forall x, y, z :: Leaf(LinkPd(m, root, i, j, d, w), root, x, y, z) == Leaf(m, root, x, y, z)
  {
    LinkPdShape(m, frames, root, i, j, d, w);
    var m' := LinkPd(m, root, i, j, d, w);
    assert forall z :: Entry(m', d, z) == 0;
    forall x, y, z
      ensures Leaf(m', root, x, y, z) == Leaf(m, root, x, y, z)
    {
      if HasPd(m, root, x, y) {
        assert Entry(m', Pd(m, root, x, y), z) == Entry(m, Pd(m, root, x, y), z);
      }
    }
  }

  lemma WriteLeafShape(m: Memory, frames: set<nat>, root: nat, i: nat, j: nat, k: nat, e: Word)
    requires Tree(m, frames, root) && HasPd(m, root, i, j) && k < 512
    ensures var m' := Write(m, Pd(m, root, i, j), k, e);
      && (forall x :: Entry(m', root, x) == Entry(m, root, x))
      && (forall x, y :: HasPd(m', root, x, y) <==> HasPd(m, root, x, y))
      && (forall x, y | HasPd(m, root, x, y) :: Pd(m', root, x, y) == Pd(m, root, x, y))
  {
    var m' := Write(m, Pd(m, root, i, j), k, e);
    forall x, y
      ensures HasPd(m', root, x, y) <==> HasPd(m, root, x, y)
      ensures HasPd(m, root, x, y) ==> Pd(m', root, x, y) == Pd(m, root, x, y)
    {
      assert Entry(m', root, x) == Entry(m, root, x);
      if HasPdpt(m, root, x) {
        assert Entry(m', Pdpt(m, root, x), y) == Entry(m, Pdpt(m, root, x), y);
      }
    }
  }

  lemma WriteLeafTree(m: Memory, frames: set<nat>, root: nat, i: nat, j: nat, k: nat, e: Word)
    requires Tree(m, frames, root) && HasPd(m, root, i, j) && k < 512
    ensures Tree(Write(m, Pd(m, root, i, j), k, e), frames, root)
    ensures forall x, y, z :: Leaf(Write(m, Pd(m, root, i, j), k, e), root, x, y, z) ==
                              if x == i && y == j && z == k then e else Leaf(m, root, x, y, z)
  {
    WriteLeafShape(m, frames, root, i, j, k, e);
    var m' := Write(m, Pd(m, root, i, j), k, e);
    assert forall x :: HasPdpt(m', root, x) == HasPdpt(m, root, x) && Pdpt(m', root, x) == Pdpt(m, root, x);
    forall x, y, z
      ensures Leaf(m', root, x, y, z) == if x == i && y == j && z == k then e else Leaf(m, root, x, y, z)
    {
      if HasPd(m, root, x, y) && (x != i || y != j) {
        assert Pd(m, root, x, y) != Pd(m, root, i, j);
      }
    }
  }

  /** The order in which the entry of a new PD and the entry that links it are written does not matter. */
  lemma SameMemoryPd(m: Memory, p: nat, j: nat, d: nat, w: Word, k: nat, e: Word)
    requires p in m && p != d && j < 512 && k < 512
    ensures Write(Write(m[d := ZeroTable()], d, k, e), p, j, w) == Write(Write(m[d := ZeroTable()], p, j, w), d, k, e)
  {
  }

  /** Nor does the order of the three writes for a new PDPT and a new PD. */
  lemma SameMemory(m: Memory, root: nat, i: nat, p: nat, wp: Word, j: nat, d: nat, wd: Word, k: nat, e: Word)
    requires root in m && root != p && root != d && p != d && i < 512 && j < 512 && k < 512 && Links(wp, p)
    ensures Pdpt(LinkPdpt(m, root, i, p, wp), root, i) == p
    ensures Write(Write(Write(m[p := ZeroTable()][d := ZeroTable()], d, k, e), p, j, wd), root, i, wp)
            == Write(LinkPd(LinkPdpt(m, root, i, p, wp), root, i, j, d, wd), d, k, e)
  {
  }
}
