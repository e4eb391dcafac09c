/**
  The invariant of `map`: tables form a tree of marked frames, and every reference count is
  the number of present entries. `get` is the partial function the mappings add up to.
 */
module PageInvariant {
  import opened Words
  import opened Wrappers
  import opened PageModel
  import opened PageTree

  // --- counting entries --------------------------------------------------------------------

  function PresentSlots(t: Table): set<nat>
  {
    set x: nat | x < 512 && Present(t[x])
  }

  function Count(t: Table): nat
  {
    |PresentSlots(t)|
  }

  lemma CountZero()
    ensures Count(ZeroTable()) == 0
  {
    assert PresentSlots(ZeroTable()) == {};
  }

  lemma CountWrite(t: Table, x: nat, w: Word)
    requires x < 512 && !Present(t[x]) && Present(w)
    ensures Count(t[x := w]) == Count(t) + 1
  {
    assert PresentSlots(t[x := w]) == PresentSlots(t) + {x};
  }

  lemma {:induction false} BoundedSetSize(n: nat, s: set<nat>)
    requires forall x | x in s :: x < n
    ensures |s| <= n
  {
    if n == 0 {
      assert s == {};
    } else {
      var t := s - {n - 1};
      BoundedSetSize(n - 1, t);
      assert s == t || s == t + {n - 1};
    }
  }

  lemma CountBound(t: Table)
    ensures Count(t) <= 512
  {
    BoundedSetSize(512, PresentSlots(t));
  }

  // --- the invariant -------------------------------------------------------------------------

  predicate CountedAt(s: Paging, f: nat)
  {
    f in s.refs && f in s.mem && s.refs[f] == Count(s.mem[f])
  }

  /** Every PDPT and PD is referenced as often as it has present entries, free frames not at all. */
  ghost predicate RefsExact(s: Paging, root: nat)
  {
    && (forall i | HasPdpt(s.mem, root, i) :: CountedAt(s, Pdpt(s.mem, root, i)))
    && (forall i, j | HasPd(s.mem, root, i, j) :: CountedAt(s, Pd(s.mem, root, i, j)))
    && (forall f | f in s.refs && f !in s.taken :: s.refs[f] == 0)
  }

  ghost predicate Inv(s: Paging, root: nat)
  {
    Wellformed(s, root) && RefsExact(s, root)
  }

  // --- the elementary changes, counters included ------------------------------------------------

  function AddPdpt(s: Paging, root: nat, i: nat): Option<Paging>
    requires Wellformed(s, root) && i < 512 && !HasPdpt(s.mem, root, i)
  {
    var r := LowestFree(s, s.start);
    if r.None? then None
    else Some(s.(taken := s.taken + {r.value}, mem := LinkPdpt(s.mem, root, i, r.value, TableEntry(r.value))))
  }

  function AddPd(s: Paging, root: nat, i: nat, j: nat): Option<Paging>
    requires Wellformed(s, root) && j < 512 && HasPdpt(s.mem, root, i) && !HasPd(s.mem, root, i, j)
  {
    var r := LowestFree(s, s.start);
    if r.None? then None
    else Some(IncRefs(s.(taken := s.taken + {r.value}, mem := LinkPd(s.mem, root, i, j, r.value, TableEntry(r.value))), Pdpt(s.mem, root, i)))
  }

  function PutLeaf(s: Paging, root: nat, i: nat, j: nat, k: nat, e: Word): Paging
    requires Wellformed(s, root) && HasPd(s.mem, root, i, j) && k < 512
  {
    IncRefs(s.(mem := Write(s.mem, Pd(s.mem, root, i, j), k, e)), Pd(s.mem, root, i, j))
  }

  /** A write of a present entry over an absent one, with its reference counted. */
  lemma CountedAfterWrite(s: Paging, f: nat, x: nat, w: Word)
    requires CountedAt(s, f) && x < 512 && !Present(s.mem[f][x]) && Present(w)
    ensures CountedAt(IncRefs(s.(mem := Write(s.mem, f, x, w)), f), f)
  {
    CountWrite(s.mem[f], x, w);
    CountBound(s.mem[f][x := w]);
  }

  lemma AddPdptKeepsInv(s: Paging, root: nat, i: nat)
    requires Inv(s, root) && i < 512 && !HasPdpt(s.mem, root, i) && AddPdpt(s, root, i).Some?
    ensures Inv(AddPdpt(s, root, i).value, root)
  {
    var p := LowestFree(s, s.start).value;
    TableEntryLinks(p);
    LinkPdptShape(s.mem, s.taken, root, i, p, TableEntry(p));
    LinkPdptTree(s.mem, s.taken, root, i, p, TableEntry(p));
    CountZero();
  }

  lemma AddPdFields(s: Paging, root: nat, i: nat, j: nat)
    requires Wellformed(s, root) && j < 512 && HasPdpt(s.mem, root, i) && !HasPd(s.mem, root, i, j)
    requires AddPd(s, root, i, j).Some?
    ensures
      var s' := AddPd(s, root, i, j).value;
      var p, d := Pdpt(s.mem, root, i), LowestFree(s, s.start).value;
      && p in s.taken && d !in s.taken && d in s.refs
      && s'.mem == s.mem[d := ZeroTable()][p := s.mem[p][j := TableEntry(d)]]
      && s'.refs == s.refs[p := (s.refs[p] + 1) % 0x1_0000]
  {
  }

  /** The PDPT that the new PD is linked into gains an entry and a reference; other frames keep theirs. */
  lemma AddPdCounts(s: Paging, root: nat, i: nat, j: nat, f: nat)
    requires Wellformed(s, root) && j < 512 && HasPdpt(s.mem, root, i) && !HasPd(s.mem, root, i, j)
    requires AddPd(s, root, i, j).Some? && CountedAt(s, f) && f in s.taken
    ensures CountedAt(AddPd(s, root, i, j).value, f)
  {
    AddPdFields(s, root, i, j);
    if f == Pdpt(s.mem, root, i) {
      var d := LowestFree(s, s.start).value;
      TableEntryLinks(d);
      CountWrite(s.mem[f], j, TableEntry(d));
      CountBound(s.mem[f][j := TableEntry(d)]);
    }
  }

  lemma AddPdNewCount(s: Paging, root: nat, i: nat, j: nat)
    requires Inv(s, root) && j < 512 && HasPdpt(s.mem, root, i) && !HasPd(s.mem, root, i, j)
    requires AddPd(s, root, i, j).Some?
    ensures CountedAt(AddPd(s, root, i, j).value, LowestFree(s, s.start).value)
  {
    AddPdFields(s, root, i, j);
    CountZero();
  }

  lemma AddPdKeepsInv(s: Paging, root: nat, i: nat, j: nat)
    requires Inv(s, root) && j < 512 && HasPdpt(s.mem, root, i) && !HasPd(s.mem, root, i, j)
    requires AddPd(s, root, i, j).Some?
    ensures Inv(AddPd(s, root, i, j).value, root)
  {
    var d := LowestFree(s, s.start).value;
    var s' := AddPd(s, root, i, j).value;
    TableEntryLinks(d);
    LinkPdShape(s.mem, s.taken, root, i, j, d, TableEntry(d));
    LinkPdTree(s.mem, s.taken, root, i, j, d, TableEntry(d));
    AddPdNewCount(s, root, i, j);
    forall x | HasPdpt(s'.mem, root, x)
      ensures CountedAt(s', Pdpt(s'.mem, root, x))
    {
      assert Entry(s'.mem, root, x) == Entry(s.mem, root, x);
      AddPdCounts(s, root, i, j, Pdpt(s.mem, root, x));
    }
    forall x, y | HasPd(s'.mem, root, x, y)
      ensures CountedAt(s', Pd(s'.mem, root, x, y))
    {
      if x != i || y != j {
        AddPdCounts(s, root, i, j, Pd(s.mem, root, x, y));
      }
    }
  }

  lemma PutLeafKeepsInv(s: Paging, root: nat, i: nat, j: nat, k: nat, e: Word)
    requires Inv(s, root) && HasPd(s.mem, root, i, j) && k < 512
    requires !Present(Leaf(s.mem, root, i, j, k)) && Present(e)
    ensures Inv(PutLeaf(s, root, i, j, k, e), root)
  {
    var d := Pd(s.mem, root, i, j);
    var s' := PutLeaf(s, root, i, j, k, e);
    WriteLeafShape(s.mem, s.taken, root, i, j, k, e);
    WriteLeafTree(s.mem, s.taken, root, i, j, k, e);
    assert CountedAt(s, d);
    CountedAfterWrite(s, d, k, e);
    forall x | HasPdpt(s'.mem, root, x)
      ensures CountedAt(s', Pdpt(s'.mem, root, x))
    {
      assert Entry(s'.mem, root, x) == Entry(s.mem, root, x);
      assert CountedAt(s, Pdpt(s.mem, root, x));
    }
    forall x, y | HasPd(s'.mem, root, x, y)
      ensures CountedAt(s', Pd(s'.mem, root, x, y))
    {
      if x != i || y != j {
        assert CountedAt(s, Pd(s.mem, root, x, y));
      }
    }
  }

  // --- map as their composition -------------------------------------------------------------------

  function EnsurePdpt(s: Paging, root: nat, i: nat): Option<Paging>
    requires Wellformed(s, root) && i < 512
  {
    if HasPdpt(s.mem, root, i) then Some(s) else AddPdpt(s, root, i)
  }

  function EnsurePd(s: Paging, root: nat, i: nat, j: nat): Option<Paging>
    requires Wellformed(s, root) && j < 512 && HasPdpt(s.mem, root, i)
  {
    if HasPd(s.mem, root, i, j) then Some(s) else AddPd(s, root, i, j)
  }

  lemma EnsurePdptShape(s: Paging, root: nat, i: nat)
    requires Wellformed(s, root) && i < 512 && EnsurePdpt(s, root, i).Some?
    ensures var s' := EnsurePdpt(s, root, i).value; Wellformed(s', root) && HasPdpt(s'.mem, root, i)
  {
    if !HasPdpt(s.mem, root, i) {
      TableEntryLinks(LowestFree(s, s.start).value);
      LinkPdptShape(s.mem, s.taken, root, i, LowestFree(s, s.start).value, TableEntry(LowestFree(s, s.start).value));
      LinkPdptTree(s.mem, s.taken, root, i, LowestFree(s, s.start).value, TableEntry(LowestFree(s, s.start).value));
    }
  }

  lemma AddPdShape(s: Paging, root: nat, i: nat, j: nat)
    requires Wellformed(s, root) && j < 512 && HasPdpt(s.mem, root, i) && !HasPd(s.mem, root, i, j)
    requires AddPd(s, root, i, j).Some?
    ensures HasPd(AddPd(s, root, i, j).value.mem, root, i, j)
    ensures Tree(AddPd(s, root, i, j).value.mem, AddPd(s, root, i, j).value.taken, root)
  {
    var d := LowestFree(s, s.start).value;
    TableEntryLinks(d);
    LinkPdShape(s.mem, s.taken, root, i, j, d, TableEntry(d));
    LinkPdTree(s.mem, s.taken, root, i, j, d, TableEntry(d));
  }

  lemma EnsurePdShape(s: Paging, root: nat, i: nat, j: nat)
    requires Wellformed(s, root) && j < 512 && HasPdpt(s.mem, root, i) && EnsurePd(s, root, i, j).Some?
    ensures var s' := EnsurePd(s, root, i, j).value; Wellformed(s', root) && HasPd(s'.mem, root, i, j)
  {
    if !HasPd(s.mem, root, i, j) {
      AddPdShape(s, root, i, j);
    }
  }

  /** `map` in one branch: supply the missing tables, then write the entry if there is none. */
  ghost function MapSteps(s: Paging, root: nat, i: nat, j: nat, k: nat, e: Word): Option<Paging>
    requires Wellformed(s, root) && i < 512 && j < 512 && k < 512
  {
    var r1 := EnsurePdpt(s, root, i);
    if r1.None? then None
    else
      EnsurePdptShape(s, root, i);
      var s1 := r1.value;
      var r2 := EnsurePd(s1, root, i, j);
      if r2.None? then None
      else
        EnsurePdShape(s1, root, i, j);
        var s2 := r2.value;
        if Present(Leaf(s2.mem, root, i, j, k)) then None else Some(PutLeaf(s2, root, i, j, k, e))
  }

  lemma {:induction false} LowestFreeSame(s: Paging, t: Paging, f: nat)
    requires s.taken == t.taken && s.end == t.end
    ensures LowestFree(s, f) == LowestFree(t, f)
    decreases s.end - f
  {
    if f < s.end && f in s.taken {
      LowestFreeSame(s, t, f + 1);
    }
  }

  lemma MapOldPd(s: Paging, root: nat, i: nat, j: nat, k: nat, e: Word)
    requires Wellformed(s, root) && i < 512 && j < 512 && k < 512 && HasPd(s.mem, root, i, j)
    ensures MapEntry(s, root, i, j, k, e) == MapSteps(s, root, i, j, k, e)
  {
  }

  lemma MapNewPd(s: Paging, root: nat, i: nat, j: nat, k: nat, e: Word)
    requires Wellformed(s, root) && i < 512 && j < 512 && k < 512 && HasPdpt(s.mem, root, i) && !HasPd(s.mem, root, i, j)
    ensures MapEntry(s, root, i, j, k, e) == MapSteps(s, root, i, j, k, e)
  {
    var r := LowestFree(s, s.start);
    if r.Some? {
      var p, d := Pdpt(s.mem, root, i), r.value;
      var s1 := AddPd(s, root, i, j).value;
      assert Pd(s1.mem, root, i, j) == d by {
        TableEntryLinks(d);
        LinkPdShape(s.mem, s.taken, root, i, j, d, TableEntry(d));
      }
      assert Leaf(s1.mem, root, i, j, k) == 0 by {
        TableEntryLinks(d);
        LinkPdLeaf(s.mem, s.taken, root, i, j, d, TableEntry(d));
      }
      ComposeNewPd(s, p, j, k, e, d);
    }
  }

  lemma ComposeNewPd(s: Paging, p: nat, j: nat, k: nat, e: Word, d: nat)
    requires p in s.mem && p != d && j < 512 && k < 512 && p in s.refs && d in s.refs && d * FRAME + 3 < TWO_64
    ensures
      var t := s.(taken := s.taken + {d});
      var s1 := IncRefs(t.(mem := Write(s.mem[d := ZeroTable()], p, j, TableEntry(d))), p);
      IncRefs(IncRefs(t.(mem := Write(Write(s.mem[d := ZeroTable()], d, k, e), p, j, TableEntry(d))), d), p)
      == IncRefs(s1.(mem := Write(s1.mem, d, k, e)), d)
  {
    SameMemoryPd(s.mem, p, j, d, TableEntry(d), k, e);
    var up := s.refs[p := (s.refs[p] + 1) % 0x1_0000][d := (s.refs[d] + 1) % 0x1_0000];
    assert up == s.refs[d := (s.refs[d] + 1) % 0x1_0000][p := (s.refs[p] + 1) % 0x1_0000];
  }

  /** `map` with both tables new, in frames `p` and `d`. */
  function BothNew(s: Paging, root: nat, i: nat, j: nat, k: nat, e: Word, p: nat, d: nat): Paging
    requires root in s.mem && i < 512 && j < 512 && k < 512 && p in s.refs && d in s.refs
    requires p * FRAME + 3 < TWO_64 && d * FRAME + 3 < TWO_64
  {
    var m := s.mem[p := ZeroTable()][d := ZeroTable()];
    IncRefs(IncRefs(s.(taken := s.taken + {p} + {d},
                       mem := Write(Write(Write(m, d, k, e), p, j, TableEntry(d)), root, i, TableEntry(p))), d), p)
  }

  /** The PD is allocated with the PDPT already marked. */
  function SecondFree(s: Paging): Option<nat>
    requires LowestFree(s, s.start).Some?
  {
    LowestFree(s.(taken := s.taken + {LowestFree(s, s.start).value}), s.start)
  }

  lemma MapBothNew(s: Paging, root: nat, i: nat, j: nat, k: nat, e: Word)
    requires Wellformed(s, root) && i < 512 && j < 512 && k < 512 && !HasPdpt(s.mem, root, i)
    requires LowestFree(s, s.start).Some?
    ensures MapEntry(s, root, i, j, k, e) ==
      if SecondFree(s).None? then None
      else Some(BothNew(s, root, i, j, k, e, LowestFree(s, s.start).value, SecondFree(s).value))
  {
    LowestFreeSame(AllocFrame(s).value.0, s.(taken := s.taken + {LowestFree(s, s.start).value}), s.start);
  }

  lemma NewPdIsEmpty(s: Paging, root: nat, i: nat, j: nat, k: nat)
    requires Wellformed(s, root) && i < 512 && j < 512 && !HasPdpt(s.mem, root, i) && AddPdpt(s, root, i).Some?
    requires Wellformed(AddPdpt(s, root, i).value, root)
    ensures var s1 := AddPdpt(s, root, i).value;
      && HasPdpt(s1.mem, root, i) && !HasPd(s1.mem, root, i, j)
      && (AddPd(s1, root, i, j).Some? ==> Leaf(AddPd(s1, root, i, j).value.mem, root, i, j, k) == 0)
  {
    var s1 := AddPdpt(s, root, i).value;
    TableEntryLinks(LowestFree(s, s.start).value);
    LinkPdptShape(s.mem, s.taken, root, i, LowestFree(s, s.start).value, TableEntry(LowestFree(s, s.start).value));
    LinkPdptLeaf(s.mem, s.taken, root, i, LowestFree(s, s.start).value, TableEntry(LowestFree(s, s.start).value));
    if AddPd(s1, root, i, j).Some? {
      TableEntryLinks(LowestFree(s1, s1.start).value);
      LinkPdLeaf(s1.mem, s1.taken, root, i, j, LowestFree(s1, s1.start).value, TableEntry(LowestFree(s1, s1.start).value));
    }
  }

  lemma ComposeBothNew(s: Paging, root: nat, i: nat, j: nat, k: nat, e: Word, p: nat, d: nat)
    requires root in s.mem && root != p && root != d && p != d && i < 512 && j < 512 && k < 512
    requires p in s.refs && d in s.refs && p * FRAME + 3 < TWO_64 && d * FRAME + 3 < TWO_64
    ensures Pdpt(LinkPdpt(s.mem, root, i, p, TableEntry(p)), root, i) == p
    ensures
      var s1 := s.(taken := s.taken + {p}, mem := LinkPdpt(s.mem, root, i, p, TableEntry(p)));
      var s2 := IncRefs(s1.(taken := s1.taken + {d}, mem := LinkPd(s1.mem, root, i, j, d, TableEntry(d))), p);
      IncRefs(s2.(mem := Write(s2.mem, d, k, e)), d) == BothNew(s, root, i, j, k, e, p, d)
  {
    SameMemory(s.mem, root, i, p, TableEntry(p), j, d, TableEntry(d), k, e);
    var one := s.refs[p := (s.refs[p] + 1) % 0x1_0000][d := (s.refs[d] + 1) % 0x1_0000];
    assert one == s.refs[d := (s.refs[d] + 1) % 0x1_0000][p := (s.refs[p] + 1) % 0x1_0000];
  }

  lemma StepsBothNew(s: Paging, root: nat, i: nat, j: nat, k: nat, e: Word)
    requires Wellformed(s, root) && i < 512 && j < 512 && k < 512 && !HasPdpt(s.mem, root, i)
    requires LowestFree(s, s.start).Some?
    ensures MapSteps(s, root, i, j, k, e) ==
      if SecondFree(s).None? then None
      else Some(BothNew(s, root, i, j, k, e, LowestFree(s, s.start).value, SecondFree(s).value))
  {
    var s1 := AddPdpt(s, root, i).value;
    EnsurePdptShape(s, root, i);
    NewPdIsEmpty(s, root, i, j, k);
    LowestFreeSame(s1, s.(taken := s.taken + {LowestFree(s, s.start).value}), s.start);
    if SecondFree(s).Some? {
      EnsurePdShape(s1, root, i, j);
      var p, d := LowestFree(s, s.start).value, SecondFree(s).value;
      ComposeBothNew(s, root, i, j, k, e, p, d);
      TableEntryLinks(d);
      LinkPdShape(s1.mem, s1.taken, root, i, j, d, TableEntry(d));
    }
  }

  lemma MapIsSteps(s: Paging, root: nat, i: nat, j: nat, k: nat, e: Word)
    requires Wellformed(s, root) && i < 512 && j < 512 && k < 512
    ensures MapEntry(s, root, i, j, k, e) == MapSteps(s, root, i, j, k, e)
  {
    if !HasPdpt(s.mem, root, i) {
      if LowestFree(s, s.start).Some? {
        MapBothNew(s, root, i, j, k, e);
        StepsBothNew(s, root, i, j, k, e);
      }
    } else if !HasPd(s.mem, root, i, j) {
      MapNewPd(s, root, i, j, k, e);
    } else {
      MapOldPd(s, root, i, j, k, e);
    }
  }
}
