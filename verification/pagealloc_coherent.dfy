// Coherence of the page-frame allocator (kernel/kernel/mm/pagealloc.c):
// the constructor starts with no free page, and every operation keeps each
// free page on the free lists once, unreferenced, unlinked and covered by
// an arena, under the conditions stated with each lemma. `Coherent` is the
// state `__get_phys_pages` relies on to hand a partial chain back.

module PageCoherence {
  import opened Common
  import opened PageModel
  import opened PageReturn
  import opened PageSetup
  import opened PageChain

  // ------------------------------------------------- taking pages

  /**
   * Taking the pages of `run` off the free lists, with the ranges kept and
   * the references and links of every other page unchanged, keeps
   * coherence.
   */
  lemma TakenCoherent(m: Mem, run: seq<nat>, r: Mem)
    requires Coherent(m) && AllSane(r.arenas) && SameRanges(m.arenas, r.arenas)
    requires forall q: nat :: Listed(r.arenas, q) + multiset(run)[q] == Listed(m.arenas, q)
    requires forall q: nat :: q !in run ==> RefOf(r.refs, q) == RefOf(m.refs, q)
    requires forall q: nat :: q !in run ==> (q in r.nextAllocation <==> q in m.nextAllocation)
    ensures Coherent(r)
  {
    forall q: nat | Listed(r.arenas, q) > 0
      ensures Listed(r.arenas, q) == 1 && RefOf(r.refs, q) == 0 && q !in r.nextAllocation &&
              FindArena(r.arenas, q, 0).Some?
    {
      assert Listed(m.arenas, q) > 0;
      assert multiset(run)[q] == 0;
      FindArenaRanges(m.arenas, r.arenas, q, 0);
    }
  }

  /** Splicing entries `[b, b + n)` out of free list `w` takes exactly those entries off the count. */
  lemma ListedSplice(arenas: seq<Arena>, w: nat, a: Arena, b: nat, n: nat)
    requires w < |arenas| && b + n <= |arenas[w].pageList| && a.pageList == Splice(arenas[w].pageList, b, n)
    ensures forall q: nat :: Listed(arenas[w := a], q) + multiset(arenas[w].pageList[b..b + n])[q] == Listed(arenas, q)
  {
    var s := arenas[w].pageList;
    assert s == s[..b] + s[b..b + n] + s[b + n..];
    forall q: nat ensures Listed(arenas[w := a], q) + multiset(s[b..b + n])[q] == Listed(arenas, q) {
      ListedUpdate(arenas, w, a, q);
    }
  }

  /** The arena that served a `page_alloc` request gave up free pages only, and coherence is kept. */
  lemma ServedCoherent(cfg: Config, m: Mem, n: nat, limit: bool, w: nat, o: Outcome)
    requires Coherent(m) && n >= 1 && w < |m.arenas| && Served(cfg, m, n, limit, w, o)
    ensures Coherent(o.mem)
  {
    if n == 1 {
      ServedOne(cfg, m, limit, w, o);
      var a := m.arenas[w];
      ListedUnlink(m.arenas, w, AllocOne(a, m.refs, m.nextAllocation).arena);
      SameRangesUpdate(m.arenas, w, AllocOne(a, m.refs, m.nextAllocation).arena);
      assert multiset([a.pageList[0]]) == multiset{a.pageList[0]};
      TakenCoherent(m, [a.pageList[0]], o.mem);
    } else {
      ServedRunCoherent(cfg, m, n, limit, w, o);
    }
  }

  /** Serving a contiguous run is splicing it out, referencing and chaining its pages. */
  lemma ServedRun(cfg: Config, m: Mem, n: nat, limit: bool, w: nat, o: Outcome)
    requires AllSane(m.arenas) && n >= 2 && w < |m.arenas| && Served(cfg, m, n, limit, w, o)
    ensures Search(cfg, m.arenas[w], n, limit).Run?
    ensures Search(cfg, m.arenas[w], n, limit).base + n <= |m.arenas[w].pageList|
    ensures o.mem.arenas == m.arenas[w := m.arenas[w].(pageList := Splice(m.arenas[w].pageList, Search(cfg, m.arenas[w], n, limit).base, n),
                                                      freePages := m.arenas[w].freePages - n)]
    ensures o.mem.refs == RefAll(m.refs, m.arenas[w].pageList[Search(cfg, m.arenas[w], n, limit).base..Search(cfg, m.arenas[w], n, limit).base + n])
    ensures o.mem.nextAllocation ==
            Links(m.nextAllocation, m.arenas[w].pageList[Search(cfg, m.arenas[w], n, limit).base..Search(cfg, m.arenas[w], n, limit).base + n])
  {
    assert Sane(m.arenas[w]);
  }

  lemma ServedRunCoherent(cfg: Config, m: Mem, n: nat, limit: bool, w: nat, o: Outcome)
    requires Coherent(m) && n >= 2 && w < |m.arenas| && Served(cfg, m, n, limit, w, o)
    ensures Coherent(o.mem)
  {
    ServedRun(cfg, m, n, limit, w, o);
    SplicedCoherent(m, w, Search(cfg, m.arenas[w], n, limit).base, n, o.mem);
  }

  /** Splicing a run out of free list `w`, referencing and chaining its pages, keeps coherence. */
  lemma SplicedCoherent(m: Mem, w: nat, b: nat, n: nat, r: Mem)
    requires Coherent(m) && w < |m.arenas| && b + n <= |m.arenas[w].pageList|
    requires r.arenas == m.arenas[w := m.arenas[w].(pageList := Splice(m.arenas[w].pageList, b, n),
                                                    freePages := m.arenas[w].freePages - n)]
    requires r.refs == RefAll(m.refs, m.arenas[w].pageList[b..b + n])
    requires r.nextAllocation == Links(m.nextAllocation, m.arenas[w].pageList[b..b + n])
    ensures Coherent(r)
  {
    var a := m.arenas[w];
    var run := a.pageList[b..b + n];
    var a' := a.(pageList := Splice(a.pageList, b, n), freePages := a.freePages - n);
    assert Sane(a);
    assert AllSane(r.arenas);
    SameRangesUpdate(m.arenas, w, a');
    ListedSplice(m.arenas, w, a', b, n);
    forall q: nat | q !in run
      ensures RefOf(r.refs, q) == RefOf(m.refs, q) && (q in r.nextAllocation <==> q in m.nextAllocation)
    {
      RefAllOutside(m.refs, run, q);
      LinksOutside(m.nextAllocation, run, q);
    }
    TakenCoherent(m, run, r);
  }

  /** `page_alloc` keeps coherence, whatever it returns. */
  lemma PageAllocCoherent(cfg: Config, m: Mem, n: nat, limit: bool)
    requires Coherent(m) && n >= 1
    ensures Coherent(PageAlloc(cfg, m, n, limit).mem)
  {
    var o := PageAlloc(cfg, m, n, limit);
    if o.page.Some? {
      var c := m.firstToSearch.value;
      assert c < |m.arenas| by {
        assert o == AllocFrom(cfg, m, n, limit, c, None);
      }
      PageAllocOutcome(cfg, m, n, limit);
      var w :| c <= w < |m.arenas| && Served(cfg, m, n, limit, w, o);
      ServedCoherent(cfg, m, n, limit, w, o);
    }
  }

  // ------------------------------------------------- returning pages

  /**
   * `page_free` keeps coherence exactly when it returns nothing, or returns
   * one page that was not free, referenced or linked: with `nr` above one
   * the same node is re-added, recorded as `nr` occurrences of the address.
   */
  lemma PageFreeCoherent(m: Mem, nr: nat, addr: nat)
    requires Coherent(m) && FindArena(m.arenas, addr, 0).Some?
    ensures Coherent(PageFree(m, nr, addr)) <==>
      nr == 0 || (nr == 1 && Listed(m.arenas, addr) == 0 && RefOf(m.refs, addr) == 0 && addr !in m.nextAllocation)
  {
    var i := FindArena(m.arenas, addr, 0).value;
    var a := PageFreePages(m.arenas[i], addr, nr);
    var r := PageFree(m, nr, addr);
    assert Sane(m.arenas[i]);
    assert AllSane(r.arenas);
    PageFreePagesRepeats(m.arenas[i], addr, nr);
    forall q: nat ensures Listed(r.arenas, q) == Listed(m.arenas, q) + (if q == addr then nr else 0) {
      ListedUpdate(m.arenas, i, a, q);
    }
    if nr == 0 || (nr == 1 && Listed(m.arenas, addr) == 0 && RefOf(m.refs, addr) == 0 && addr !in m.nextAllocation) {
      forall q: nat | Listed(r.arenas, q) > 0
        ensures Listed(r.arenas, q) == 1 && RefOf(r.refs, q) == 0 && q !in r.nextAllocation &&
                FindArena(r.arenas, q, 0).Some?
      {
        FindArenaRanges(m.arenas, r.arenas, q, 0);
      }
    } else {
      assert Listed(r.arenas, addr) > 0;
    }
  }

  /** `free_page` keeps coherence: a page it may free was not free. */
  lemma FreePageCoherent(m: Mem, p: nat)
    requires Coherent(m) && CanFree(m, p)
    ensures Coherent(FreePage(m, p))
  {
    if RefOf(m.refs, p) == 1 {
      var f0 := m.(refs := m.refs[p := 0], nextAllocation := m.nextAllocation - {p});
      assert Listed(m.arenas, p) == 0;
      assert Coherent(f0);
      PageFreeCoherent(f0, 1, p);
    }
  }

  /** `free_pages` keeps coherence along the whole chain. */
  lemma {:induction false} FreeAllCoherent(m: Mem, s: seq<nat>)
    requires Coherent(m) && CanFreeAll(m, s)
    ensures Coherent(FreeAll(m, s))
    decreases |s|
  {
    if |s| > 0 {
      FreeAllCoherent(m, s[..|s| - 1]);
      FreePageCoherent(FreeAll(m, s[..|s| - 1]), s[|s| - 1]);
    }
  }

  /**
   * `__reclaim_page` keeps coherence exactly when the page was not already
   * free: re-adding a listed page's node is recorded as a second occurrence.
   */
  lemma ReclaimPageCoherent(m: Mem, p: nat)
    requires Coherent(m) && FindArena(m.arenas, p, 0).Some?
    ensures Coherent(ReclaimPage(m, p)) <==> Listed(m.arenas, p) == 0
  {
    var m1 := m.(usedPages := m.usedPages + 1, nrGlobalPages := m.nrGlobalPages + 1, refs := m.refs[p := 1]);
    var m2 := m1.(refs := m1.refs[p := 0], nextAllocation := m1.nextAllocation - {p});
    assert ReclaimPage(m, p) == PageFree(m2, 1, p);
    assert Coherent(m2);
    PageFreeCoherent(m2, 1, p);
  }

  // ------------------------------------------------- multi-page allocation

  /** `__get_phys_pages` keeps coherence, whether it succeeds or gives everything back. */
  lemma GetPhysPagesCoherent(cfg: Config, m: Mem, nr: nat, limit: bool)
    requires Coherent(m)
    ensures Coherent(GetPhysPages(cfg, m, nr, limit).mem)
  {
    if GetPhysPages(cfg, m, nr, limit).page.Some? {
      GetPhysPagesSucceeds(cfg, m, nr, limit);
    } else {
      GetPhysPagesAllOrNothing(cfg, m, nr, limit);
    }
  }

  /** `alloc_pages` keeps coherence, contiguous or not. */
  lemma AllocPagesCoherent(cfg: Config, m: Mem, nr: nat, contiguous: bool, limit: bool)
    requires Coherent(m) && (contiguous ==> nr >= 1)
    ensures Coherent(AllocPages(cfg, m, nr, contiguous, limit).mem)
  {
    if contiguous {
      PageAllocCoherent(cfg, m, nr, limit);
    } else {
      GetPhysPagesCoherent(cfg, m, nr, limit);
    }
  }

  // ------------------------------------------------- adding memory

  /** No page of `[base, base + size)` is on a free list, referenced or linked. */
  ghost predicate Unclaimed(m: Mem, base: nat, size: nat) {
    forall q: nat :: base <= q < base + size ==>
      Listed(m.arenas, q) == 0 && RefOf(m.refs, q) == 0 && q !in m.nextAllocation
  }

  lemma {:induction false} ListedAppend(arenas: seq<Arena>, a: Arena, q: nat)
    ensures Listed(arenas + [a], q) == Listed(arenas, q) + multiset(a.pageList)[q]
    decreases |arenas|
  {
    if |arenas| == 0 {
      assert arenas + [a] == [a];
      assert [a][1..] == [];
    } else {
      assert (arenas + [a])[1..] == arenas[1..] + [a];
      ListedAppend(arenas[1..], a, q);
    }
  }

  /** An arena appended to the chain does not change which arena the walk finds first. */
  lemma {:induction false} FindArenaAppend(arenas: seq<Arena>, a: Arena, q: nat, i: nat)
    requires FindArena(arenas, q, i).Some?
    ensures FindArena(arenas + [a], q, i) == FindArena(arenas, q, i)
    decreases |arenas| - i
  {
    if !Covers(arenas[i], q) {
      FindArenaAppend(arenas, a, q, i + 1);
    }
  }

  /** An address some arena covers is found. */
  lemma FindArenaCovered(arenas: seq<Arena>, q: nat, k: nat)
    requires k < |arenas| && Covers(arenas[k], q)
    ensures FindArena(arenas, q, 0).Some?
  {
    FindArenaFirst(arenas, q, 0);
  }

  /** Page `j` of the loop starts inside the area: the loop runs while `i < area`. */
  lemma VisitInside(area: nat, j: nat)
    requires j < Visits(area)
    ensures j * PAGE_SIZE < area
  {
    var v := Visits(area);
    assert v * PAGE_SIZE <= area + PAGE_SIZE - 1;
    assert j * PAGE_SIZE <= v * PAGE_SIZE - PAGE_SIZE;
  }

  /** Every page of a new arena's free list lies in `[base, base + area)`, and each is listed once. */
  lemma NewArenaInside(base: nat, area: nat, used: set<nat>, desc: nat)
    ensures forall x :: x in NewArena(base, area, used, desc).pageList ==> base <= x < base + area
    ensures forall x :: x in NewArena(base, area, used, desc).pageList ==> multiset(NewArena(base, area, used, desc).pageList)[x] == 1
  {
    var s := NewArena(base, area, used, desc).pageList;
    NewArenaPages(base, area, used, desc);
    forall x | x in s ensures base <= x < base + area {
      var j := (x - base) / PAGE_SIZE;
      assert x - base == j * PAGE_SIZE;
      VisitInside(area, j);
    }
    forall x | x in s ensures multiset(s)[x] == 1 {
      var k :| 0 <= k < |s| && s[k] == x;
      BagOne(s, k);
    }
  }

  /** One arena over unclaimed memory keeps coherence. */
  lemma AddArenaCoherent(cfg: Config, m: Mem, used: set<nat>, base: nat, area: nat)
    requires 0 <= m.kernelBreak && m.kernelBreak + cfg.arenaSize <= m.kernelBreakLimit
    requires Coherent(m) && Unclaimed(m, base, area)
    ensures Coherent(AddArena(cfg, m, used, base, area))
  {
    var a := NewArena(base, area, used, m.kernelBreak);
    var r := AddArena(cfg, m, used, base, area);
    NewArenaInside(base, area, used, m.kernelBreak);
    NewArenaSane(base, area, used, m.kernelBreak);
    assert AllSane(r.arenas);
    forall q: nat | Listed(r.arenas, q) > 0
      ensures Listed(r.arenas, q) == 1 && RefOf(r.refs, q) == 0 && q !in r.nextAllocation &&
              FindArena(r.arenas, q, 0).Some?
    {
      ListedAppend(m.arenas, a, q);
      if q in a.pageList {
        FindArenaCovered(r.arenas, q, |m.arenas|);
      } else {
        FindArenaAppend(m.arenas, a, q, 0);
      }
    }
  }

  /** After one arena over the front of an unclaimed region, the rest is still unclaimed. */
  lemma AddArenaUnclaimed(cfg: Config, m: Mem, used: set<nat>, base: nat, area: nat, size: nat)
    requires 0 <= m.kernelBreak && m.kernelBreak + cfg.arenaSize <= m.kernelBreakLimit
    requires area <= size && Unclaimed(m, base, size)
    ensures Unclaimed(AddArena(cfg, m, used, base, area), base + area, size - area)
  {
    var a := NewArena(base, area, used, m.kernelBreak);
    NewArenaInside(base, area, used, m.kernelBreak);
    forall q: nat | base + area <= q < base + size
      ensures Listed(AddArena(cfg, m, used, base, area).arenas, q) == 0
    {
      ListedAppend(m.arenas, a, q);
    }
  }

  /** The loop of `page_add_region` over unclaimed memory keeps coherence. */
  lemma {:induction false} RegionCoherent(cfg: Config, m: Mem, used: set<nat>, base: nat, size: nat)
    requires 0 <= m.kernelBreak && m.kernelBreak + DescBytes(cfg, size) <= m.kernelBreakLimit
    requires Coherent(m) && Unclaimed(m, base, size)
    ensures Coherent(Region(cfg, m, used, base, size))
    decreases size
  {
    if size > 0 {
      RegionStep(cfg, m, used, base, size);
      AddArenaCoherent(cfg, m, used, base, Min(size, ARENA_SPAN));
      AddArenaUnclaimed(cfg, m, used, base, Min(size, ARENA_SPAN), size);
      RegionCoherent(cfg, AddArena(cfg, m, used, base, Min(size, ARENA_SPAN)), used,
                     base + Min(size, ARENA_SPAN), size - Min(size, ARENA_SPAN));
    }
  }

  /** `page_add_region` over memory the allocator does not yet manage keeps coherence. */
  lemma AddRegionCoherent(cfg: Config, m: Mem, used: set<nat>, base: nat, size: nat)
    requires 0 <= m.kernelBreak && m.kernelBreak + DescBytes(cfg, size) <= m.kernelBreakLimit
    requires Coherent(m) && Unclaimed(m, base, size)
    ensures Coherent(AddRegion(cfg, m, used, base, size))
  {
    RegionCoherent(cfg, m, used, base, size);
  }
}
