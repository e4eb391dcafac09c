/** Runs of `mm::alloc` after `mm::init`: what is granted until 64 GiB are, and when the first rollback comes. */
module MemoryOrder {
  import opened PageModel
  import opened PageInvariant
  import opened PageTranslation
  import opened MemoryModel
  import opened MemoryRuns
  import opened PagesInOrder

  /** The physical pages granted are those from 6 MiB up to page `k`, and these are the tracked ones. */
  ghost predicate Ordered(m: Manager, mask: Phys.Mask, k: nat)
  {
    UpTo(m.words, mask, k) && OwnsUpTo(m.owned, k)
  }

  ghost predicate OwnsUpTo(owned: map<nat, nat>, k: nat)
  {
    && (forall g | g in owned :: owned[g] % PAGE == 0 && Phys.FIRST_PAGE * PAGE <= owned[g] < k * PAGE)
    && (forall p: nat | Phys.FIRST_PAGE <= p < k :: OwnsPage(owned, p))
  }

  ghost predicate OwnsPage(owned: map<nat, nat>, p: nat)
  {
    exists g :: g in owned && owned[g] == p * PAGE
  }

  /** The pages asked for in all. */
  function Asked(calls: seq<Call>): nat
  {
    if calls == [] then 0 else Asked(calls[..|calls| - 1]) + calls[|calls| - 1].count
  }

  /** A call has to roll back if and only if what it asks for passes 64 GiB. */
  lemma RollsBackIff(m: Manager, root: nat, mask: Phys.Mask, call: Call, k: nat)
    requires UpTo(m.words, mask, k) && Phys.OneBitMask(mask)
    ensures |m.words| == Phys.WORDS
    ensures RollsBack(m, root, mask, call) <==>
      && 0 < call.count <= MAX_PAGES && FindRange(Translation(m.s.mem, root), call.count).Some?
      && k + call.count > Phys.PAGE_LIMIT
  {
    hide UpTo, Phys.OneBitMask, Phys.AllocPages, Translation, FindRange;
    UpToLimit(m.words, mask, k);
    AllocInOrder(m.words, mask, k, call.count);
  }

  lemma AddOwnsUpTo(owned: map<nat, nat>, g: nat, k: nat, n: nat)
    requires OwnsUpTo(owned, k) && RangeFree(owned, g, n) && Phys.FIRST_PAGE <= k
    ensures OwnsUpTo(Add(owned, g, Consecutive(k, n)), k + n)
  {
    var owned' := Add(owned, g, Consecutive(k, n));
    forall h | h in owned'
      ensures owned'[h] % PAGE == 0 && Phys.FIRST_PAGE * PAGE <= owned'[h] < (k + n) * PAGE
    {
      AddAt(owned, g, Consecutive(k, n), h);
    }
    forall p: nat | Phys.FIRST_PAGE <= p < k + n
      ensures OwnsPage(owned', p)
    {
      if p < k {
        assert OwnsPage(owned, p);
        var h :| h in owned && owned[h] == p * PAGE;
        AddAt(owned, g, Consecutive(k, n), h);
      } else {
        AddAt(owned, g, Consecutive(k, n), g + (p - k));
      }
    }
  }

  lemma RangeFreeOwned(t: map<nat, nat>, owned: map<nat, nat>, g: nat, n: nat)
    requires Mapped(t, owned) && RangeFree(t, g, n)
    ensures RangeFree(owned, g, n)
  {
  }

  /** As long as there are pages a call takes the next ones or none. */
  lemma CallInOrder(m: Manager, root: nat, mask: Phys.Mask, call: Call, m': Manager, k: nat) returns (k': nat)
    requires Placed(m, root) && Ordered(m, mask, k) && Phys.OneBitMask(mask)
    requires Calls(m, root, mask, call, m') && k + call.count <= Phys.PAGE_LIMIT
    ensures Ordered(m', mask, k') && k <= k' <= k + call.count && !RollsBack(m, root, mask, call)
  {
    hide UpTo, OwnsUpTo, Inv, Phys.AllocPages, Translation, Mapped, Phys.OneBitMask, FindRange, MapPages;
    UpToLimit(m.words, mask, k);
    RollsBackIff(m, root, mask, call, k);
    AllocInOrder(m.words, mask, k, call.count);
    k' := k;
    match Alloc(m.s, root, m.words, mask, call.count, call.flags) {
      case Granted(s', words', g, pages) =>
        AllocMapsRange(m.s, root, m.words, mask, call.count, call.flags);
        k' := k + call.count;
        RangeFreeOwned(Translation(m.s.mem, root), m.owned, g, call.count);
        AddOwnsUpTo(m.owned, g, k, call.count);
      case Nothing(_) =>
    }
  }

  /** A call that is granted its pages moves the first free page on by as many. */
  lemma GrantMoves(m: Manager, root: nat, mask: Phys.Mask, call: Call, m': Manager, k: nat)
    requires Placed(m, root) && UpTo(m.words, mask, k) && Phys.OneBitMask(mask) && Calls(m, root, mask, call, m')
    requires Alloc(m.s, root, m.words, mask, call.count, call.flags).Granted?
    ensures k + call.count <= Phys.PAGE_LIMIT && UpTo(m'.words, mask, k + call.count)
  {
    hide UpTo, Inv, Phys.AllocPages, Translation, Mapped, Phys.OneBitMask, FindRange, MapPages;
    AllocInOrder(m.words, mask, k, call.count);
    AllocMapsRange(m.s, root, m.words, mask, call.count, call.flags);
  }

  lemma AskedFirst(calls: seq<Call>, j: nat)
    requires j < |calls|
    ensures Asked(calls[..j + 1]) == Asked(calls[..j]) + calls[j].count
  {
    assert calls[..j + 1][..j] == calls[..j];
  }

  lemma {:induction false} AskedGrows(calls: seq<Call>, j: nat)
    requires j <= |calls|
    ensures Asked(calls[..j]) <= Asked(calls)
    decreases |calls| - j
  {
    if j < |calls| {
      AskedFirst(calls, j);
      AskedGrows(calls, j + 1);
    } else {
      assert calls[..j] == calls;
    }
  }

  /** Over a run that asks for no more than is left the granted pages are the next ones in every state. */
  lemma {:induction false} RunGrantsInOrder(trace: seq<Manager>, root: nat, mask: Phys.Mask, calls: seq<Call>, j: nat, k0: nat)
    returns (k: nat)
    requires Run(trace, root, mask, calls) && j < |trace| && Placed(trace[0], root) && Phys.OneBitMask(mask)
    requires Ordered(trace[0], mask, k0) && k0 + Asked(calls) <= Phys.PAGE_LIMIT
    ensures Ordered(trace[j], mask, k) && k <= k0 + Asked(calls[..j])
  {
    hide Calls, Placed, Ordered, Phys.OneBitMask, RollsBack;
    if j > 0 {
      k := RunGrantsInOrder(trace, root, mask, calls, j - 1, k0);
      assert Calls(trace[j - 1], root, mask, calls[j - 1], trace[j - 1 + 1]);
      RunKeepsMappings(trace, root, mask, calls, j - 1);
      AskedFirst(calls, j - 1);
      AskedGrows(calls, j);
      k := CallInOrder(trace[j - 1], root, mask, calls[j - 1], trace[j], k);
    } else {
      k := k0;
    }
  }

  /** A run after `mm::init` that asks for no more than the pages from 6 MiB to 64 GiB has no call that rolls back. */
  lemma FewPagesSpare(trace: seq<Manager>, root: nat, mask: Phys.Mask, calls: seq<Call>)
    requires Run(trace, root, mask, calls) && Placed(trace[0], root) && Phys.OneBitMask(mask)
    requires Ordered(trace[0], mask, Phys.FIRST_PAGE) && Phys.FIRST_PAGE + Asked(calls) <= Phys.PAGE_LIMIT
    ensures SparingRun(trace, root, mask, calls)
  {
    hide Calls, Placed, Ordered, Phys.OneBitMask, RollsBack;
    forall i: nat | i < |calls|
      ensures Spares(trace[i], root, mask, calls[i])
    {
      var k := RunGrantsInOrder(trace, root, mask, calls, i, Phys.FIRST_PAGE);
      assert Calls(trace[i], root, mask, calls[i], trace[i + 1]);
      RunKeepsMappings(trace, root, mask, calls, i);
      AskedFirst(calls, i);
      AskedGrows(calls, i + 1);
      var _ := CallInOrder(trace[i], root, mask, calls[i], trace[i + 1], k);
    }
  }

  lemma InitOrdered(s: Paging, mask: Phys.Mask)
    ensures Ordered(Manager(s, NoneTracked(), map[]), mask, Phys.FIRST_PAGE)
  {
    InitTracksNone(mask);
  }

  /** After `mm::init` no two granted pages share a physical page, as long as no more than these have been asked for. */
  lemma FewGrantsNeverShare(trace: seq<Manager>, root: nat, mask: Phys.Mask, calls: seq<Call>, i: nat, j: nat, g: nat, h: nat)
    requires Run(trace, root, mask, calls) && Phys.OneBitMask(mask) && i <= j < |trace|
    requires Inv(trace[0].s, root) && trace[0] == Manager(trace[0].s, NoneTracked(), map[])
    requires Phys.FIRST_PAGE + Asked(calls) <= Phys.PAGE_LIMIT
    requires g in trace[i].owned && h in trace[j].owned && g != h
    ensures var t := Translation(trace[j].s.mem, root);
      g in t && t[g] == trace[i].owned[g] && h in t && t[g] != t[h]
  {
    hide Run, Inv, Translation, SparingRun, Phys.OneBitMask, Ordered;
    InitOrdered(trace[0].s, mask);
    FreshPlaced(trace[0], root);
    FewPagesSpare(trace, root, mask, calls);
    Phys.MaskIsNonzero(mask);
    GrantsNeverShare(trace, root, mask, calls, i, j, g, h);
  }

  lemma FreshPlaced(m: Manager, root: nat)
    requires Inv(m.s, root) && |m.words| == Phys.WORDS && m.owned == map[]
    ensures Placed(m, root)
  {
  }
}
