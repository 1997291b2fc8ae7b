// The physical page-frame allocator (kernel/kernel/mm/pagealloc.c) as an
// object whose methods change its state in place: the arena chain of
// `main_cpu`, the counters, each page's `ref` and `next_allocation`, and
// the boot-time break. Every method is proved to leave the state that the
// value-level functions of PageModel, PageReturn, PageSetup and PageChain
// describe, and the properties of the allocator are proved about those.

module PageAlloc {
  import opened Common
  import opened PageModel
  import opened PageReturn
  import opened PageSetup
  import opened PageChain
  import opened PageCoherence

  class PageAllocator {
    /** `PHYS_BASE` and `sizeof(struct page_arena)`. */
    const cfg: Config
    /** `main_cpu.arenas`, in chain order. */
    var arenas: seq<Arena>
    /** `main_cpu.first_to_search`, as a position in the chain. */
    var firstToSearch: Option<nat>
    var usedPages: int
    var nrGlobalPages: int
    /** `page->ref` of every page (absent means 0). */
    var refs: map<nat, nat>
    /** `page->next_un.next_allocation` (absent means NULL). */
    var nextAllocation: map<nat, nat>
    var kernelBreak: int
    var kernelBreakLimit: int

    function State(): Mem
      reads this
    {
      Mem(arenas, firstToSearch, usedPages, nrGlobalPages, refs, nextAllocation, kernelBreak, kernelBreakLimit)
    }

    /** Every arena is sane, and the cursor, when set, names an arena of the chain. */
    predicate Valid()
      reads this
    {
      AllSane(arenas) && (firstToSearch.Some? ==> firstToSearch.value < |arenas|)
    }

    /**
     * The state before `page_init`: no arenas and no cursor, nothing
     * counted, the break at `kernel_end` and its limit still NULL.
     */
    constructor (cfg: Config, kernelEnd: nat)
      ensures this.cfg == cfg && State() == Mem([], None, 0, 0, map[], map[], kernelEnd, 0)
      ensures Valid() && Accounted(State()) && Coherent(State())
    {
      this.cfg := cfg;
      arenas := [];
      firstToSearch := None;
      usedPages := 0;
      nrGlobalPages := 0;
      refs := map[];
      nextAllocation := map[];
      kernelBreak := kernelEnd;
      kernelBreakLimit := 0;
    }

    // ----------------------------------------------- allocation

    /** `page_alloc_one`: unlink the head of arena `i`'s free list, reference its page, count one free page less. */
    method AllocOne(i: nat) returns (page: nat)
      requires i < |arenas| && |arenas[i].pageList| > 0
      modifies this
      ensures |arenas| == |old(arenas)|
      ensures State() == old(State()).(arenas := old(arenas)[i := arenas[i]], refs := refs)
      ensures Taken(Some(page), arenas[i], refs, nextAllocation) == PageModel.AllocOne(old(arenas[i]), old(refs), old(nextAllocation))
    {
      var a := arenas[i];
      page := a.pageList[0];
      arenas := arenas[i := a.(pageList := a.pageList[1..])];
      refs := Ref(refs, page);
      arenas := arenas[i := arenas[i].(freePages := arenas[i].freePages - 1)];
    }

    /** The contiguous search of `page_alloc_from_arena` over the free list of arena `i`. */
    method ScanArena(i: nat, n: nat, limit: bool) returns (r: Found)
      requires i < |arenas| && n >= 2
      ensures r == Search(cfg, arenas[i], n, limit)
    {
      var a := arenas[i];
      var found: nat := 0;
      var base: nat := 0;
      var k: nat := 0;
      while k < |a.pageList|
        invariant k <= |a.pageList| && found < n && found <= k && (found > 0 ==> base == k - found)
        invariant Scan(cfg, a, n, limit, k, found, base) == Search(cfg, a, n, limit)
        decreases |a.pageList| - k
      {
        var node := NodeAddr(cfg, a.pageList[k]);
        var next := if k + 1 < |a.pageList| then NodeAddr(cfg, a.pageList[k + 1]) else HeadAddr(a);
        if (next - node) % U64 > PAGE_SIZE {
          found := 0;
        } else if limit && node > ADDRESS_4GB_MARK {
          return Bail;
        } else {
          if found == 0 {
            base := k;
          }
          found := found + 1;
          if found == n {
            return Run(base);
          }
        }
        k := k + 1;
      }
      return NoRun;
    }

    /** The loop of `page_alloc_from_arena` that references each page of a run and chains it to the next. */
    method RefAndLink(run: seq<nat>)
      modifies this
      ensures refs == RefAll(old(refs), run) && nextAllocation == Links(old(nextAllocation), run)
      ensures State() == old(State()).(refs := refs, nextAllocation := nextAllocation)
    {
      for j := 0 to |run|
        invariant refs == RefAll(old(refs), run[..j]) && nextAllocation == Links(old(nextAllocation), run[..j])
        invariant State() == old(State()).(refs := refs, nextAllocation := nextAllocation)
      {
        assert run[..j + 1][..j] == run[..j];
        refs := Ref(refs, run[j]);
        if j > 0 {
          nextAllocation := nextAllocation[run[j - 1] := run[j]];
        }
      }
      assert run[..|run|] == run;
    }

    /**
     * `page_alloc_from_arena`: refuse when the arena has too few free
     * pages, take one page with `page_alloc_one`, or search for a run,
     * splice it out and chain its pages.
     */
    method AllocFromArena(i: nat, n: nat, limit: bool) returns (page: Option<nat>)
      requires i < |arenas| && Sane(arenas[i]) && n >= 1
      modifies this
      ensures |arenas| == |old(arenas)|
      ensures State() == old(State()).(arenas := old(arenas)[i := arenas[i]], refs := refs, nextAllocation := nextAllocation)
      ensures Taken(page, arenas[i], refs, nextAllocation) ==
              PageModel.AllocFromArena(cfg, old(arenas[i]), old(refs), old(nextAllocation), n, limit)
    {
      var a := arenas[i];
      if a.freePages < n {
        return None;
      }
      if n == 1 {
        var p := AllocOne(i);
        return Some(p);
      }
      var found := ScanArena(i, n, limit);
      if !found.Run? {
        return None;
      }
      var p := TakeRun(i, n, found.base);
      return Some(p);
    }

    /**
     * The success branch of `page_alloc_from_arena`: count the run's pages
     * off, unlink entries `[b, b + n)` in one splice, then reference and chain
     * the pages, following the old successor links of the unlinked nodes.
     */
    method TakeRun(i: nat, n: nat, b: nat) returns (page: nat)
      requires i < |arenas| && b + n <= |arenas[i].pageList| && n >= 1
      modifies this
      ensures |arenas| == |old(arenas)|
      ensures State() == old(State()).(arenas := old(arenas)[i := arenas[i]], refs := refs, nextAllocation := nextAllocation)
      ensures arenas[i] == old(arenas[i]).(pageList := Splice(old(arenas[i]).pageList, b, n), freePages := old(arenas[i]).freePages - n)
      ensures refs == RefAll(old(refs), old(arenas[i]).pageList[b..b + n])
      ensures nextAllocation == Links(old(nextAllocation), old(arenas[i]).pageList[b..b + n])
      ensures page == old(arenas[i]).pageList[b]
    {
      var a := arenas[i];
      var run := a.pageList[b..b + n];
      arenas := arenas[i := a.(freePages := a.freePages - n)];
      arenas := arenas[i := arenas[i].(pageList := Splice(a.pageList, b, n))];
      RefAndLink(run);
      return run[0];
    }

    /**
     * `page_alloc`: walk the chain from the cursor, keeping the first arena
     * with free pages, until one arena serves the request; then count the
     * pages as used and move the cursor.
     */
    method PageAlloc(n: nat, limit: bool) returns (page: Option<nat>)
      requires Valid() && n >= 1
      modifies this
      ensures Outcome(page, State()) == PageModel.PageAlloc(cfg, old(State()), n, limit)
      ensures Valid()
      ensures old(Coherent(State())) ==> Coherent(State())
    {
      if Coherent(State()) {
        PageAllocCoherent(cfg, State(), n, limit);
      }
      if firstToSearch.None? {
        return None;
      }
      var i: nat := firstToSearch.value;
      var last: Option<nat> := None;
      while i < |arenas|
        invariant Searching(old(State()), n, limit, i, last)
        decreases |arenas| - i
      {
        if limit && arenas[i].start > ADDRESS_4GB_MARK {
          return None;
        }
        AllocFromStep(cfg, State(), n, limit, i, last);
        if arenas[i].freePages != 0 && last.None? {
          last := Some(i);
        }
        if arenas[i].freePages >= n {
          page := TryArena(i, n, limit, last);
          if page.Some? {
            return page;
          }
        }
        i := i + 1;
      }
      return None;
    }

    /**
     * The loop of `page_alloc` at arena `i` has changed nothing yet, and
     * what it will still do is what `page_alloc` does from the start.
     */
    ghost predicate Searching(m0: Mem, n: nat, limit: bool, i: nat, last: Option<nat>)
      reads this
    {
      State() == m0 && Valid() && n >= 1 && (last.Some? ==> last.value < |arenas|) &&
      AllocFrom(cfg, m0, n, limit, i, last) == PageModel.PageAlloc(cfg, m0, n, limit)
    }

    /**
     * The body of `page_alloc`'s loop for an arena with enough free pages,
     * `last_with_pages` already set: try the arena, and on success count the
     * pages as used and move the cursor past an arena left empty.
     */
    method TryArena(i: nat, n: nat, limit: bool, last: Option<nat>) returns (page: Option<nat>)
      requires Valid() && n >= 1 && i < |arenas| && !(limit && arenas[i].start > ADDRESS_4GB_MARK)
      requires arenas[i].freePages >= n && last.Some? && last.value < |arenas|
      modifies this
      ensures Valid()
      ensures page.None? ==> (State() == old(State()) &&
        AllocFrom(cfg, State(), n, limit, i, last) == AllocFrom(cfg, State(), n, limit, i + 1, last))
      ensures page.Some? ==> Outcome(page, State()) == AllocFrom(cfg, old(State()), n, limit, i, last)
    {
      page := AllocFromArena(i, n, limit);
      if page.Some? {
        usedPages := usedPages + n;
        var cursor := last;
        if last == Some(i) && arenas[i].freePages == 0 && i + 1 < |arenas| {
          cursor := Some(i + 1);
        }
        firstToSearch := cursor;
      }
    }

    // ----------------------------------------------- freeing

    /** `page_free_pages`: add the node at `addr` to arena `i`'s free list `nr` times, then count them free. */
    method PageFreePages(i: nat, addr: nat, nr: nat)
      requires i < |arenas|
      modifies this
      ensures State() == old(State()).(arenas := old(arenas)[i := PageReturn.PageFreePages(old(arenas[i]), addr, nr)])
    {
      for j := 0 to nr
        invariant |arenas| == |old(arenas)| && arenas == old(arenas)[i := arenas[i]]
        invariant arenas[i] == old(arenas[i]).(pageList := old(arenas[i]).pageList + Repeat(addr, j))
        invariant State() == old(State()).(arenas := arenas)
      {
        assert Repeat(addr, j + 1) == Repeat(addr, j) + [addr];
        arenas := arenas[i := arenas[i].(pageList := arenas[i].pageList + [addr])];
      }
      arenas := arenas[i := arenas[i].(freePages := arenas[i].freePages + nr)];
    }

    /** The walk of `page_free` from the head of the chain to the first arena covering `addr`. */
    method FindCovering(addr: nat) returns (r: Option<nat>)
      ensures r == FindArena(arenas, addr, 0)
    {
      var i := 0;
      while i < |arenas|
        invariant i <= |arenas| && FindArena(arenas, addr, i) == FindArena(arenas, addr, 0)
        decreases |arenas| - i
      {
        if arenas[i].start <= addr && addr < arenas[i].end {
          return Some(i);
        }
        i := i + 1;
      }
      return None;
    }

    /** `page_free`: give `nr` pages at `addr` back to the first arena covering it; the source asserts there is one. */
    method PageFree(nr: nat, addr: nat)
      requires FindArena(arenas, addr, 0).Some?
      modifies this
      ensures State() == PageReturn.PageFree(old(State()), nr, addr)
      ensures old(Coherent(State())) ==>
        (Coherent(State()) <==> nr == 0 || (nr == 1 && old(Listed(arenas, addr)) == 0 && old(RefOf(refs, addr)) == 0 &&
                                             addr !in old(nextAllocation)))
    {
      if Coherent(State()) {
        PageFreeCoherent(State(), nr, addr);
      }
      var i := FindCovering(addr);
      PageFreePages(i.value, addr, nr);
      usedPages := usedPages - nr;
    }

    /** `free_page`: drop a reference; the last one clears the page's link and frees it. */
    method FreePage(p: nat)
      requires CanFree(State(), p)
      modifies this
      ensures State() == PageReturn.FreePage(old(State()), p)
      ensures old(Coherent(State())) ==> Coherent(State())
    {
      if Coherent(State()) {
        FreePageCoherent(State(), p);
      }
      var k := RefOf(refs, p) - 1;
      refs := refs[p := k];
      if k == 0 {
        nextAllocation := nextAllocation - {p};
        PageFree(1, p);
      }
    }

    /** `free_pages`: walk the chain from `pages` through `next_allocation`, freeing each page. */
    method FreePages(ghost chain: seq<nat>, pages: nat)
      requires IsChain(nextAllocation, chain) && chain[0] == pages && CanFreeAll(State(), chain)
      modifies this
      ensures State() == FreeAll(old(State()), chain)
      ensures old(Coherent(State())) ==> Coherent(State())
    {
      if Coherent(State()) {
        FreeAllCoherent(State(), chain);
      }
      ChainDistinct(nextAllocation, chain);
      var p: Option<nat> := Some(pages);
      ghost var i := 0;
      while p.Some?
        invariant i <= |chain| && CanFreeAll(old(State()), chain[..i])
        invariant State() == FreeAll(old(State()), chain[..i])
        invariant p == if i < |chain| then Some(chain[i]) else None
        decreases |chain| - i
      {
        assert chain[i] !in chain[..i];
        FreeAllNextOutside(old(State()), chain[..i], chain[i]);
        var next: Option<nat> := if p.value in nextAllocation then Some(nextAllocation[p.value]) else None;
        CanFreeAllPrefix(old(State()), chain, i + 1);
        assert chain[..i + 1][..i] == chain[..i];
        FreePage(p.value);
        p := next;
        i := i + 1;
      }
      assert chain[..|chain|] == chain;
    }

    // ----------------------------------------------- multi-page allocation

    /**
     * `__get_phys_pages`: ask `page_alloc` for one page at a time and chain
     * the pages; on the first NULL free what was gathered and return NULL.
     */
    method GetPhysPages(nr: nat, limit: bool) returns (page: Option<nat>)
      requires Valid() && Coherent(State())
      modifies this
      ensures Outcome(page, State()) == PageChain.GetPhysPages(cfg, old(State()), nr, limit)
      ensures Valid() && Coherent(State())
    {
      GetPhysPagesCoherent(cfg, State(), nr, limit);
      var plist, ok;
      ghost var pages;
      plist, pages, ok := GatherPages(nr, limit);
      if !ok {
        Abandon(old(State()), nr, pages, plist, limit);
        return None;
      }
      return plist;
    }

    /**
     * The loop of `__get_phys_pages`, up to the first NULL from `page_alloc`:
     * the head of the chain, the pages gathered, and whether all `nr` came.
     */
    method GatherPages(nr: nat, limit: bool) returns (plist: Option<nat>, ghost pages: seq<nat>, ok: bool)
      requires Valid()
      modifies this
      ensures Valid()
      ensures Gather(cfg, old(State()), nr, limit) == Gathered(pages, State(), ok)
      ensures plist == (if |pages| > 0 then Some(pages[0]) else None)
    {
      pages := [];
      plist := None;
      ok := true;
      var ptail: nat := 0;
      var i := 0;
      while i < nr && ok
        invariant i <= nr && Valid() && Progress(old(State()), i, limit, pages, ok) && HeadTail(pages, plist, ptail)
        decreases nr - i
      {
        ok, pages, plist, ptail := GatherRound(old(State()), i, pages, plist, ptail, limit);
        i := i + 1;
      }
      if !ok {
        GatherStops(cfg, old(State()), i, nr, limit);
      }
    }

    /** After `k` rounds from `m0`, the loop has gathered `pages` and left the allocator in its current state. */
    ghost predicate Progress(m0: Mem, k: nat, limit: bool, pages: seq<nat>, ok: bool)
      reads this
    {
      AllSane(m0.arenas) && Gather(cfg, m0, k, limit) == Gathered(pages, State(), ok)
    }

    /** `plist` and `ptail` are the head and the tail of the chain gathered so far. */
    ghost predicate HeadTail(pages: seq<nat>, plist: Option<nat>, ptail: nat) {
      plist == (if |pages| > 0 then Some(pages[0]) else None) && (|pages| > 0 ==> ptail == pages[|pages| - 1])
    }

    /**
     * One round of the loop of `__get_phys_pages`: one page from
     * `page_alloc`, linked after the tail of the chain when there is one.
     */
    method GatherRound(ghost m0: Mem, ghost k: nat, ghost pages: seq<nat>, plist: Option<nat>, ptail: nat, limit: bool)
      returns (ok: bool, ghost pages': seq<nat>, plist': Option<nat>, ptail': nat)
      requires Valid() && Progress(m0, k, limit, pages, true) && HeadTail(pages, plist, ptail)
      modifies this
      ensures Valid() && Progress(m0, k + 1, limit, pages', ok) && HeadTail(pages', plist', ptail')
    {
      var p := PageAlloc(1, limit);
      if p.None? {
        return false, pages, plist, ptail;
      }
      if plist.Some? {
        nextAllocation := nextAllocation[ptail := p.value];
        return true, pages + [p.value], plist, p.value;
      }
      return true, pages + [p.value], p, p.value;
    }

    /** The failure branch of `__get_phys_pages`: `free_pages` on the chain gathered so far, if any. */
    method Abandon(ghost m0: Mem, ghost nr: nat, ghost pages: seq<nat>, plist: Option<nat>, ghost limit: bool)
      requires Valid() && Coherent(m0) && Gather(cfg, m0, nr, limit) == Gathered(pages, State(), false)
      requires plist == (if |pages| > 0 then Some(pages[0]) else None)
      modifies this
      ensures Valid()
      ensures Outcome(None, State()) == PageChain.GetPhysPages(cfg, m0, nr, limit)
    {
      GatherTook(cfg, m0, nr, limit);
      if plist.Some? {
        TookChain(m0, pages, State());
        FreeChainTook(m0, pages, State());
        FreeAllSane(State(), pages);
        FreePages(pages, plist.value);
      }
    }

    /** `alloc_pages`: a contiguous run, or a chain of single pages. */
    method AllocPages(nr: nat, contiguous: bool, limit: bool) returns (page: Option<nat>)
      requires Valid() && (contiguous ==> nr >= 1) && (!contiguous ==> Coherent(State()))
      modifies this
      ensures Outcome(page, State()) == PageChain.AllocPages(cfg, old(State()), nr, contiguous, limit)
      ensures Valid()
      ensures old(Coherent(State())) ==> Coherent(State())
    {
      if contiguous {
        page := PageAlloc(nr, limit);
      } else {
        page := GetPhysPages(nr, limit);
      }
    }

    /** `__reclaim_page`: count a page as used and global, give it one reference, and free it. */
    method ReclaimPage(p: nat)
      requires FindArena(arenas, p, 0).Some?
      modifies this
      ensures State() == PageReturn.ReclaimPage(old(State()), p)
      ensures old(Coherent(State())) ==> (Coherent(State()) <==> old(Listed(arenas, p)) == 0)
    {
      if Coherent(State()) {
        ReclaimPageCoherent(State(), p);
      }
      usedPages := usedPages + 1;
      nrGlobalPages := nrGlobalPages + 1;
      refs := refs[p := 1];
      FreePage(p);
    }

    // ----------------------------------------------- boot-time setup

    /** `__ksbrk`: hand out the break and move it by `inc`; the source asserts the limit. */
    method Ksbrk(inc: int) returns (ret: nat)
      requires 0 <= kernelBreak && 0 <= kernelBreak + inc <= kernelBreakLimit
      modifies this
      ensures (ret, State()) == PageSetup.Ksbrk(old(State()), inc)
      ensures Coherent(State()) == old(Coherent(State()))
    {
      ret := kernelBreak;
      kernelBreak := kernelBreak + inc;
    }

    /** `__kbrk`: set the break and its limit. */
    method Kbrk(brk: nat, limit: nat)
      modifies this
      ensures State() == PageSetup.Kbrk(old(State()), brk, limit)
      ensures Coherent(State()) == old(Coherent(State()))
    {
      kernelBreak := brk;
      kernelBreakLimit := limit;
    }

    /** `page_add`: a page in use is refused; any other is counted as global and appended to the new arena's list. */
    method PageAdd(a: Arena, page: nat, used: set<nat>) returns (r: int, a1: Arena)
      modifies this
      ensures page in used ==> r == -1 && a1 == a && State() == old(State())
      ensures page !in used ==> r == 0 && a1 == a.(pageList := a.pageList + [page]) &&
                                State() == old(State()).(nrGlobalPages := old(nrGlobalPages) + 1)
    {
      if page in used {
        return -1, a;
      }
      nrGlobalPages := nrGlobalPages + 1;
      return 0, a.(pageList := a.pageList + [page]);
    }

    /** `append_arena`: the new arena goes to the end of the chain. */
    method AppendArena(a: Arena)
      modifies this
      ensures State() == old(State()).(arenas := old(arenas) + [a])
    {
      arenas := arenas + [a];
    }

    /**
     * One round of `page_add_region`: a descriptor from `__ksbrk`, an arena
     * over `[base, base + area)` filled page by page, appended to the chain.
     */
    method AddArena(base: nat, area: nat, used: set<nat>)
      requires 0 <= kernelBreak && kernelBreak + cfg.arenaSize <= kernelBreakLimit
      modifies this
      ensures State() == PageSetup.AddArena(cfg, old(State()), used, base, area)
      ensures old(Coherent(State()) && Unclaimed(State(), base, area)) ==> Coherent(State())
    {
      ghost var before := State();
      var desc := Ksbrk(cfg.arenaSize);
      var a := Arena(area / PAGE_SIZE, area / PAGE_SIZE, base, base + area, [], desc);
      var i := 0;
      ghost var j := 0;
      while i < area
        invariant i == j * PAGE_SIZE && j <= Visits(area)
        invariant a == Arena(area / PAGE_SIZE - (j - |Unused(PageAddrs(base, j), used)|), area / PAGE_SIZE,
                             base, base + area, Unused(PageAddrs(base, j), used), desc)
        invariant State() == old(State()).(kernelBreak := old(kernelBreak) + cfg.arenaSize,
                                           nrGlobalPages := old(nrGlobalPages) + |a.pageList|)
        decreases area - i
      {
        assert PageAddrs(base, j + 1)[..j] == PageAddrs(base, j);
        var r;
        r, a := PageAdd(a, base + i, used);
        if r < 0 {
          a := a.(freePages := a.freePages - 1);
        }
        i := i + PAGE_SIZE;
        j := j + 1;
      }
      AppendArena(a);
      if Coherent(before) && Unclaimed(before, base, area) {
        AddArenaCoherent(cfg, before, used, base, area);
      }
    }

    /**
     * `page_add_region`: cut `[base, base + size)` into arenas of at most
     * 2 MiB, then point the cursor at the head of the chain if it was unset.
     */
    method AddRegion(base: nat, size: nat, used: set<nat>)
      requires Valid()
      requires 0 <= kernelBreak && kernelBreak + DescBytes(cfg, size) <= kernelBreakLimit
      modifies this
      ensures State() == PageSetup.AddRegion(cfg, old(State()), used, base, size)
      ensures Valid()
      ensures old(Coherent(State()) && Unclaimed(State(), base, size)) ==> Coherent(State())
    {
      ghost var before := State();
      var b: nat := base;
      var s: nat := size;
      while s > 0
        invariant Valid() && |old(arenas)| <= |arenas|
        invariant 0 <= kernelBreak && kernelBreak + DescBytes(cfg, s) <= kernelBreakLimit
        invariant Region(cfg, State(), used, b, s) == Region(cfg, old(State()), used, base, size)
        decreases s
      {
        RegionStep(cfg, State(), used, b, s);
        NewArenaSane(b, Min(s, ARENA_SPAN), used, kernelBreak);
        AddArena(b, Min(s, ARENA_SPAN), used);
        b, s := b + Min(s, ARENA_SPAN), s - Min(s, ARENA_SPAN);
      }
      if firstToSearch.None? && |arenas| > 0 {
        firstToSearch := Some(0);
      }
      if Coherent(before) && Unclaimed(before, base, size) {
        AddRegionCoherent(cfg, before, used, base, size);
      }
    }

    /** `page_get_stats`: the two counters the allocator keeps, and the page-cache and heap counts it is given. */
    method GetStats(pageCache: nat, heap: nat) returns (s: MemStat)
      ensures s == PageSetup.GetStats(State(), pageCache, heap)
    {
      s := MemStat(nrGlobalPages, usedPages, pageCache, heap);
    }
  }
}
