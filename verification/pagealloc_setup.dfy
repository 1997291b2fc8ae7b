// Boot-time setup of the page-frame allocator (kernel/kernel/mm/pagealloc.c):
// the bump allocator `__ksbrk`, the splitting of a physical memory region
// into arenas, and the statistics the allocator reports.

module PageSetup {
  import opened Common
  import opened PageModel

  // ------------------------------------------------- __ksbrk / __kbrk

  /** `__ksbrk`: the old break, with the break moved by `inc`; the source asserts the limit. */
  function Ksbrk(m: Mem, inc: int): (r: (nat, Mem))
    requires 0 <= m.kernelBreak && 0 <= m.kernelBreak + inc <= m.kernelBreakLimit
    ensures r.0 == m.kernelBreak && r.1.kernelBreak == r.0 + inc <= r.1.kernelBreakLimit
    ensures r.1 == m.(kernelBreak := r.1.kernelBreak)
  {
    (m.kernelBreak, m.(kernelBreak := m.kernelBreak + inc))
  }

  /** `__kbrk`: set the break and its limit. */
  function Kbrk(m: Mem, brk: nat, limit: nat): (r: Mem)
    ensures r.kernelBreak == brk && r.kernelBreakLimit == limit
    ensures r == m.(kernelBreak := r.kernelBreak, kernelBreakLimit := r.kernelBreakLimit)
  {
    m.(kernelBreak := brk, kernelBreakLimit := limit)
  }

  /** Two consecutive `__ksbrk` calls hand out adjacent blocks. */
  lemma KsbrkAdjacent(m: Mem, x: nat, y: nat)
    requires 0 <= m.kernelBreak && m.kernelBreak + x + y <= m.kernelBreakLimit
    ensures Ksbrk(Ksbrk(m, x).1, y).0 == Ksbrk(m, x).0 + x
    ensures Ksbrk(Ksbrk(m, x).1, y).1 == m.(kernelBreak := m.kernelBreak + x + y)
  {
  }

  // ------------------------------------------------- page_add_region

  /** How often the loop of `page_add_region` runs over an area: `i < area` in steps of `PAGE_SIZE`. */
  function Visits(area: nat): nat {
    (area + PAGE_SIZE - 1) / PAGE_SIZE
  }

  /** The first `k` addresses the loop visits: `base`, `base + PAGE_SIZE`, … */
  function PageAddrs(base: nat, k: nat): (r: seq<nat>)
    ensures |r| == k
    decreases k
  {
    if k == 0 then [] else PageAddrs(base, k - 1) + [base + (k - 1) * PAGE_SIZE]
  }

  lemma {:induction false} PageAddrsAt(base: nat, k: nat)
    ensures forall j :: 0 <= j < k ==> PageAddrs(base, k)[j] == base + j * PAGE_SIZE
    decreases k
  {
    if k > 0 {
      PageAddrsAt(base, k - 1);
    }
  }

  /** The addresses that `page_is_used` rejects are dropped; the rest keep their order. */
  function Unused(addrs: seq<nat>, used: set<nat>): (r: seq<nat>)
    ensures |r| <= |addrs|
    decreases |addrs|
  {
    if |addrs| == 0 then []
    else
      var pre := Unused(addrs[..|addrs| - 1], used);
      var x := addrs[|addrs| - 1];
      if x in used then pre else pre + [x]
  }

  /** `Unused` keeps exactly the addresses not in use. */
  lemma {:induction false} UnusedMembers(addrs: seq<nat>, used: set<nat>)
    ensures forall x :: x in Unused(addrs, used) <==> x in addrs && x !in used
    decreases |addrs|
  {
    if |addrs| > 0 {
      var pre := addrs[..|addrs| - 1];
      UnusedMembers(pre, used);
      assert addrs == pre + [addrs[|addrs| - 1]];
    }
  }

  /**
   * An arena as `page_add_region` builds it at `desc`: `nr_pages` is
   * `area >> PAGE_SHIFT`, every visited page is added to the list unless it
   * is in use, and each page in use takes one off `free_pages`.
   */
  function NewArena(base: nat, area: nat, used: set<nat>, desc: nat): Arena {
    var addrs := PageAddrs(base, Visits(area));
    var free := Unused(addrs, used);
    Arena(area / PAGE_SIZE - (|addrs| - |free|), area / PAGE_SIZE, base, base + area, free, desc)
  }

  function Min(x: nat, y: nat): nat {
    if x < y then x else y
  }

  /** The bump memory `page_add_region` takes for a region: one descriptor per arena. */
  function DescBytes(cfg: Config, size: nat): (r: nat)
    ensures size > 0 ==> r >= cfg.arenaSize
    decreases size
  {
    if size == 0 then 0 else cfg.arenaSize + DescBytes(cfg, size - Min(size, ARENA_SPAN))
  }

  /** One step of the loop: a descriptor from `__ksbrk`, the arena built in it, appended to the chain. */
  function AddArena(cfg: Config, m: Mem, used: set<nat>, base: nat, area: nat): (r: Mem)
    requires 0 <= m.kernelBreak && m.kernelBreak + cfg.arenaSize <= m.kernelBreakLimit
    ensures r.arenas == m.arenas + [NewArena(base, area, used, m.kernelBreak)]
    ensures r.kernelBreak == m.kernelBreak + cfg.arenaSize && r.kernelBreakLimit == m.kernelBreakLimit
    ensures r.usedPages == m.usedPages && r.refs == m.refs && r.nextAllocation == m.nextAllocation
    ensures r.firstToSearch == m.firstToSearch
  {
    var (desc, m1) := Ksbrk(m, cfg.arenaSize);
    var a := NewArena(base, area, used, desc);
    m1.(arenas := m1.arenas + [a], nrGlobalPages := m1.nrGlobalPages + |a.pageList|)
  }

  /** One step of the region loop: an arena's start, its size, and where its descriptor lies. */
  datatype Span = Span(start: nat, area: nat, desc: nat)

  /** The spans the loop of `page_add_region` cuts a region into, descriptors taken from `desc` on. */
  function Spans(cfg: Config, base: nat, size: nat, desc: nat): (r: seq<Span>)
    ensures |r| > 0 <==> size > 0
    decreases size
  {
    if size == 0 then []
    else
      var area := Min(size, ARENA_SPAN);
      [Span(base, area, desc)] + Spans(cfg, base + area, size - area, desc + cfg.arenaSize)
  }

  /** The arenas built over the spans. */
  function RegionArenas(cfg: Config, used: set<nat>, base: nat, size: nat, desc: nat): (r: seq<Arena>)
    ensures |r| == |Spans(cfg, base, size, desc)|
  {
    var sp := Spans(cfg, base, size, desc);
    seq(|sp|, k requires 0 <= k < |sp| => NewArena(sp[k].start, sp[k].area, used, sp[k].desc))
  }

  lemma RegionArenasStep(cfg: Config, used: set<nat>, base: nat, size: nat, desc: nat)
    requires size > 0
    ensures RegionArenas(cfg, used, base, size, desc) ==
      [NewArena(base, Min(size, ARENA_SPAN), used, desc)] +
      RegionArenas(cfg, used, base + Min(size, ARENA_SPAN), size - Min(size, ARENA_SPAN), desc + cfg.arenaSize)
  {
    var area := Min(size, ARENA_SPAN);
    var sp := Spans(cfg, base, size, desc);
    var rest := Spans(cfg, base + area, size - area, desc + cfg.arenaSize);
    assert sp == [Span(base, area, desc)] + rest;
    var r := RegionArenas(cfg, used, base, size, desc);
    var r2 := RegionArenas(cfg, used, base + area, size - area, desc + cfg.arenaSize);
    forall k | 1 <= k < |r| ensures r[k] == r2[k - 1] {
      assert sp[k] == rest[k - 1];
    }
  }

  /** The arenas of a region, after those already in the chain, one step at a time. */
  lemma RegionArenasAppend(cfg: Config, used: set<nat>, base: nat, size: nat, desc: nat, prefix: seq<Arena>)
    requires size > 0
    ensures (prefix + [NewArena(base, Min(size, ARENA_SPAN), used, desc)]) +
      RegionArenas(cfg, used, base + Min(size, ARENA_SPAN), size - Min(size, ARENA_SPAN), desc + cfg.arenaSize) ==
      prefix + RegionArenas(cfg, used, base, size, desc)
  {
    RegionArenasStep(cfg, used, base, size, desc);
  }

  /** The `while(size)` loop of `page_add_region`, one arena per step. */
  function Region(cfg: Config, m: Mem, used: set<nat>, base: nat, size: nat): (r: Mem)
    requires 0 <= m.kernelBreak && m.kernelBreak + DescBytes(cfg, size) <= m.kernelBreakLimit
    ensures r.arenas == m.arenas + RegionArenas(cfg, used, base, size, m.kernelBreak)
    ensures r.usedPages == m.usedPages && r.refs == m.refs && r.nextAllocation == m.nextAllocation
    ensures r.firstToSearch == m.firstToSearch && r.kernelBreakLimit == m.kernelBreakLimit
    decreases size
  {
    if size == 0 then m
    else
      var area := Min(size, ARENA_SPAN);
      var m1 := AddArena(cfg, m, used, base, area);
      var r := Region(cfg, m1, used, base + area, size - area);
      RegionArenasAppend(cfg, used, base, size, m.kernelBreak, m.arenas);
      r
  }

  /** `page_add_region`: the arenas, then the cursor on the first arena if it was unset. */
  function AddRegion(cfg: Config, m: Mem, used: set<nat>, base: nat, size: nat): Mem
    requires 0 <= m.kernelBreak && m.kernelBreak + DescBytes(cfg, size) <= m.kernelBreakLimit
  {
    var r := Region(cfg, m, used, base, size);
    if r.firstToSearch.None? && |r.arenas| > 0 then r.(firstToSearch := Some(0)) else r
  }

  predicate Increasing(s: seq<nat>) {
    forall i, j :: 0 <= i < j < |s| ==> s[i] < s[j]
  }

  lemma {:induction false} UnusedIncreasing(addrs: seq<nat>, used: set<nat>)
    requires Increasing(addrs)
    ensures Increasing(Unused(addrs, used))
    decreases |addrs|
  {
    if |addrs| > 0 {
      var pre := addrs[..|addrs| - 1];
      assert Increasing(pre);
      UnusedIncreasing(pre, used);
      var x := addrs[|addrs| - 1];
      var u := Unused(pre, used);
      UnusedMembers(pre, used);
      forall y | y in u ensures y < x {
        var k :| 0 <= k < |pre| && pre[k] == y;
      }
      if x !in used {
        var v := u + [x];
        assert Unused(addrs, used) == v;
        forall i, j | 0 <= i < j < |v| ensures v[i] < v[j] {
          if j == |u| {
            assert v[i] in u;
          }
        }
      }
    }
  }

  /**
   * The free list of a new arena holds, in rising address order, exactly
   * the page addresses of `[start, end)` that are not in use; `free_pages`
   * is `nr_pages` less the pages in use, and equals the list's length when
   * the area is a whole number of pages.
   */
  lemma NewArenaPages(base: nat, area: nat, used: set<nat>, desc: nat)
    ensures forall x :: x in NewArena(base, area, used, desc).pageList <==>
      x !in used && base <= x < base + Visits(area) * PAGE_SIZE && (x - base) % PAGE_SIZE == 0
    ensures Increasing(NewArena(base, area, used, desc).pageList)
  {
    PageAddrsIncreasing(base, Visits(area));
    UnusedIncreasing(PageAddrs(base, Visits(area)), used);
    UnusedMembers(PageAddrs(base, Visits(area)), used);
    PageAddrsMembers(base, Visits(area));
  }

  /** The visited addresses are exactly the page-aligned offsets from `base` below `k` pages. */
  lemma PageAddrsMembers(base: nat, k: nat)
    ensures forall x :: x in PageAddrs(base, k) <==> base <= x < base + k * PAGE_SIZE && (x - base) % PAGE_SIZE == 0
  {
    var addrs := PageAddrs(base, k);
    PageAddrsAt(base, k);
    forall x | base <= x < base + k * PAGE_SIZE && (x - base) % PAGE_SIZE == 0
      ensures x in addrs
    {
      var j := (x - base) / PAGE_SIZE;
      assert addrs[j] == x;
    }
    forall x | x in addrs
      ensures base <= x < base + k * PAGE_SIZE && (x - base) % PAGE_SIZE == 0
    {
      var j :| 0 <= j < k && addrs[j] == x;
      assert x == base + j * PAGE_SIZE;
    }
  }

  lemma PageAddrsIncreasing(base: nat, k: nat)
    ensures Increasing(PageAddrs(base, k))
  {
    PageAddrsAt(base, k);
  }

  /** Every arena `page_add_region` builds is sane: `free_pages` never exceeds its list. */
  lemma NewArenaSane(base: nat, area: nat, used: set<nat>, desc: nat)
    ensures Sane(NewArena(base, area, used, desc))
  {
  }

  /**
   * A region whose size is not a multiple of `PAGE_SIZE` gets one page too
   * many: the loop visits a last page that runs past the arena's end, and
   * `free_pages` ends one below the length of the free list.
   */
  lemma UnalignedAreaExtraPage(base: nat, area: nat, used: set<nat>, desc: nat)
    requires area % PAGE_SIZE != 0
    ensures Visits(area) == area / PAGE_SIZE + 1
    ensures PageAddrs(base, Visits(area))[area / PAGE_SIZE] + PAGE_SIZE > base + area
    ensures NewArena(base, area, used, desc).freePages == |NewArena(base, area, used, desc).pageList| - 1
  {
    PageAddrsAt(base, Visits(area));
  }

  /** Addresses that are all in use leave nothing. */
  lemma {:induction false} UnusedAllUsed(addrs: seq<nat>, used: set<nat>)
    requires forall k :: 0 <= k < |addrs| ==> addrs[k] in used
    ensures Unused(addrs, used) == []
    decreases |addrs|
  {
    if |addrs| > 0 {
      UnusedAllUsed(addrs[..|addrs| - 1], used);
    }
  }

  /**
   * An unaligned area whose visited pages are all in use gives an arena
   * with an empty free list and `free_pages` at -1. The source's counter is
   * an `unsigned long`, which then holds 2^64 - 1.
   */
  lemma UnalignedAllUsedWraps(base: nat, area: nat, used: set<nat>, desc: nat)
    requires area % PAGE_SIZE != 0
    requires forall k :: 0 <= k < Visits(area) ==> base + k * PAGE_SIZE in used
    ensures NewArena(base, area, used, desc).pageList == []
    ensures NewArena(base, area, used, desc).freePages == -1
    ensures NewArena(base, area, used, desc).freePages % U64 == U64 - 1
  {
    UnalignedAreaExtraPage(base, area, used, desc);
    PageAddrsAt(base, Visits(area));
    UnusedAllUsed(PageAddrs(base, Visits(area)), used);
  }

  /**
   * `page_add_region` cuts a region into consecutive spans, appended in
   * order: the first starts at `base` with the first descriptor, the last
   * ends at `base + size`, each starts where the one before it ends, every
   * one but the last covers 2 MiB, each takes the next descriptor, and none
   * is empty or larger than 2 MiB.
   */
  lemma {:induction false} SpansEnds(cfg: Config, base: nat, size: nat, desc: nat)
    ensures |Spans(cfg, base, size, desc)| > 0 ==>
      Spans(cfg, base, size, desc)[0].start == base && Spans(cfg, base, size, desc)[0].desc == desc &&
      Spans(cfg, base, size, desc)[|Spans(cfg, base, size, desc)| - 1].start +
      Spans(cfg, base, size, desc)[|Spans(cfg, base, size, desc)| - 1].area == base + size
    decreases size
  {
    if size > 0 {
      var area := Min(size, ARENA_SPAN);
      var rest := Spans(cfg, base + area, size - area, desc + cfg.arenaSize);
      var r := Spans(cfg, base, size, desc);
      assert r == [Span(base, area, desc)] + rest;
      SpansEnds(cfg, base + area, size - area, desc + cfg.arenaSize);
      if |rest| > 0 {
        assert r[|r| - 1] == rest[|rest| - 1];
      }
    }
  }

  /** Span `y` follows a full 2 MiB span `x`, with the next descriptor. */
  predicate Follows(cfg: Config, x: Span, y: Span) {
    x.start + x.area == y.start && x.area == ARENA_SPAN && y.desc == x.desc + cfg.arenaSize
  }

  lemma {:induction false} SpansConsecutive(cfg: Config, base: nat, size: nat, desc: nat)
    ensures forall k :: 0 <= k < |Spans(cfg, base, size, desc)| - 1 ==>
      Follows(cfg, Spans(cfg, base, size, desc)[k], Spans(cfg, base, size, desc)[k + 1])
    decreases size
  {
    if size > 0 {
      var area := Min(size, ARENA_SPAN);
      var rest := Spans(cfg, base + area, size - area, desc + cfg.arenaSize);
      var r := Spans(cfg, base, size, desc);
      assert r == [Span(base, area, desc)] + rest;
      SpansConsecutive(cfg, base + area, size - area, desc + cfg.arenaSize);
      if |rest| > 0 {
        SpansEnds(cfg, base + area, size - area, desc + cfg.arenaSize);
        assert Follows(cfg, r[0], r[1]);
      }
      forall k | 1 <= k < |r| - 1 ensures Follows(cfg, r[k], r[k + 1]) {
        assert r[k + 1] == rest[k] && r[k] == rest[k - 1];
      }
    }
  }

  lemma {:induction false} SpansBounded(cfg: Config, base: nat, size: nat, desc: nat)
    ensures forall k :: 0 <= k < |Spans(cfg, base, size, desc)| ==> 0 < Spans(cfg, base, size, desc)[k].area <= ARENA_SPAN
    decreases size
  {
    if size > 0 {
      var area := Min(size, ARENA_SPAN);
      var rest := Spans(cfg, base + area, size - area, desc + cfg.arenaSize);
      var r := Spans(cfg, base, size, desc);
      assert r == [Span(base, area, desc)] + rest;
      SpansBounded(cfg, base + area, size - area, desc + cfg.arenaSize);
      forall k | 1 <= k < |r| ensures 0 < r[k].area <= ARENA_SPAN {
        assert r[k] == rest[k - 1];
      }
    }
  }

  lemma AlignedArea(size: nat)
    requires size % PAGE_SIZE == 0
    ensures Min(size, ARENA_SPAN) % PAGE_SIZE == 0 && (size - Min(size, ARENA_SPAN)) % PAGE_SIZE == 0
  {
  }

  /**
   * A whole number of pages: the loop visits exactly the `nr_pages` pages of
   * `[start, end)` and `free_pages` is the length of the free list.
   */
  lemma NewArenaCounted(base: nat, area: nat, used: set<nat>, desc: nat)
    requires area % PAGE_SIZE == 0
    ensures Counted(NewArena(base, area, used, desc))
    ensures NewArena(base, area, used, desc).nrPages == Visits(area) && base + Visits(area) * PAGE_SIZE == base + area
  {
    assert Visits(area) == area / PAGE_SIZE;
  }

  /** One arena of whole pages keeps the accounting: its free pages are counted as global. */
  lemma AddArenaAccounted(cfg: Config, m: Mem, used: set<nat>, base: nat, area: nat)
    requires 0 <= m.kernelBreak && m.kernelBreak + cfg.arenaSize <= m.kernelBreakLimit
    requires Accounted(m) && area % PAGE_SIZE == 0
    ensures Accounted(AddArena(cfg, m, used, base, area))
  {
    var a := NewArena(base, area, used, m.kernelBreak);
    NewArenaCounted(base, area, used, m.kernelBreak);
    TotalFreeAppend(m.arenas, a);
    assert AddArena(cfg, m, used, base, area).arenas == m.arenas + [a];
  }

  lemma RegionStep(cfg: Config, m: Mem, used: set<nat>, base: nat, size: nat)
    requires 0 <= m.kernelBreak && m.kernelBreak + DescBytes(cfg, size) <= m.kernelBreakLimit && size > 0
    ensures AddArena(cfg, m, used, base, Min(size, ARENA_SPAN)).kernelBreak ==  m.kernelBreak + cfg.arenaSize
    ensures AddArena(cfg, m, used, base, Min(size, ARENA_SPAN)).kernelBreakLimit == m.kernelBreakLimit
    ensures Region(cfg, m, used, base, size) ==
      Region(cfg, AddArena(cfg, m, used, base, Min(size, ARENA_SPAN)), used, base + Min(size, ARENA_SPAN), size - Min(size, ARENA_SPAN))
  {
  }

  /** Setting up a region made of whole pages keeps the accounting, and counts every unused page as global. */
  lemma {:induction false} RegionAccounted(cfg: Config, m: Mem, used: set<nat>, base: nat, size: nat)
    requires 0 <= m.kernelBreak && m.kernelBreak + DescBytes(cfg, size) <= m.kernelBreakLimit
    requires Accounted(m) && size % PAGE_SIZE == 0
    ensures Accounted(Region(cfg, m, used, base, size))
    decreases size
  {
    if size > 0 {
      RegionStep(cfg, m, used, base, size);
      AlignedArea(size);
      AddArenaAccounted(cfg, m, used, base, Min(size, ARENA_SPAN));
      RegionAccounted(cfg, AddArena(cfg, m, used, base, Min(size, ARENA_SPAN)), used,
                      base + Min(size, ARENA_SPAN), size - Min(size, ARENA_SPAN));
    }
  }

  lemma AddRegionAccounted(cfg: Config, m: Mem, used: set<nat>, base: nat, size: nat)
    requires 0 <= m.kernelBreak && m.kernelBreak + DescBytes(cfg, size) <= m.kernelBreakLimit
    requires Accounted(m) && size % PAGE_SIZE == 0
    ensures Accounted(AddRegion(cfg, m, used, base, size))
    ensures AddRegion(cfg, m, used, base, size).firstToSearch.Some? <==> (m.firstToSearch.Some? || |m.arenas| > 0 || size > 0)
  {
    RegionAccounted(cfg, m, used, base, size);
  }

  /** `page_get_stats` for the counters the allocator keeps; the page-cache and heap counts are inputs. */
  datatype MemStat = MemStat(totalPages: int, allocatedPages: int, pageCachePages: nat, kernelHeapPages: nat)

  function GetStats(m: Mem, pageCache: nat, heap: nat): (s: MemStat)
    ensures s.totalPages == m.nrGlobalPages && s.allocatedPages == m.usedPages
    ensures s.pageCachePages == pageCache && s.kernelHeapPages == heap
  {
    MemStat(m.nrGlobalPages, m.usedPages, pageCache, heap)
  }

  /** With the accounting kept, the reported allocated pages are the total minus the free ones. */
  lemma StatsBalance(m: Mem, pc: nat, heap: nat)
    requires Accounted(m)
    ensures GetStats(m, pc, heap).allocatedPages == GetStats(m, pc, heap).totalPages - TotalFree(m.arenas)
  {
  }
}
