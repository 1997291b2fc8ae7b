// Return path of the page-frame allocator (kernel/kernel/mm/pagealloc.c):
// handing pages back to the arena that covers them and dropping references.

module PageReturn {
  import opened Common
  import opened PageModel

  // ------------------------------------------------- page_free_pages / page_free

  /** `nr` copies of one address. */
  function Repeat(addr: nat, nr: nat): (r: seq<nat>)
    ensures |r| == nr && forall j :: 0 <= j < nr ==> r[j] == addr
  {
    seq(nr, _ => addr)
  }

  /**
   * `page_free_pages`: the loop adds the node at `addr` to the tail of the
   * free list `nr` times (the address is never advanced), and `free_pages`
   * grows by `nr`. Re-adding a node corrupts the source's intrusive list;
   * the sequence records each addition as another occurrence.
   */
  function PageFreePages(a: Arena, addr: nat, nr: nat): Arena {
    a.(pageList := a.pageList + Repeat(addr, nr), freePages := a.freePages + nr)
  }

  /** Arena `i` covers `addr`. */
  predicate Covers(a: Arena, addr: nat) {
    a.start <= addr < a.end
  }

  /** The walk of `page_free` from position `i`: the first arena that covers `addr`. */
  function FindArena(arenas: seq<Arena>, addr: nat, i: nat): (r: Option<nat>)
    ensures r.Some? ==> i <= r.value < |arenas| && Covers(arenas[r.value], addr)
    decreases |arenas| - i
  {
    if i >= |arenas| then None
    else if Covers(arenas[i], addr) then Some(i)
    else FindArena(arenas, addr, i + 1)
  }

  /** The walk finds the first covering arena, and none only when no arena covers `addr`. */
  lemma {:induction false} FindArenaFirst(arenas: seq<Arena>, addr: nat, i: nat)
    ensures FindArena(arenas, addr, i).Some? ==>
      forall j :: i <= j < FindArena(arenas, addr, i).value ==> !Covers(arenas[j], addr)
    ensures FindArena(arenas, addr, i).None? ==> forall j :: i <= j < |arenas| ==> !Covers(arenas[j], addr)
    decreases |arenas| - i
  {
    if i < |arenas| && !Covers(arenas[i], addr) {
      FindArenaFirst(arenas, addr, i + 1);
    }
  }

  /** Two chains of arenas with the same ranges. */
  predicate SameRanges(x: seq<Arena>, y: seq<Arena>) {
    |x| == |y| && forall j :: 0 <= j < |x| ==> x[j].start == y[j].start && x[j].end == y[j].end
  }

  lemma {:induction false} FindArenaRanges(x: seq<Arena>, y: seq<Arena>, addr: nat, i: nat)
    requires SameRanges(x, y)
    ensures FindArena(x, addr, i) == FindArena(y, addr, i)
    decreases |x| - i
  {
    if i < |x| && !Covers(x[i], addr) {
      FindArenaRanges(x, y, addr, i + 1);
    }
  }

  /**
   * `page_free`: the first arena of the chain (from its head, not from the
   * cursor) that covers `addr` takes the pages back and `used_pages` drops
   * by `nr`; the source asserts that such an arena exists.
   */
  function PageFree(m: Mem, nr: nat, addr: nat): (r: Mem)
    requires FindArena(m.arenas, addr, 0).Some?
    ensures SameRanges(m.arenas, r.arenas)
  {
    var i := FindArena(m.arenas, addr, 0).value;
    m.(arenas := m.arenas[i := PageFreePages(m.arenas[i], addr, nr)], usedPages := m.usedPages - nr)
  }

  /** `page_free` keeps the accounting and adds `nr` entries to one free list. */
  lemma PageFreeAccounted(m: Mem, nr: nat, addr: nat)
    requires Accounted(m) && FindArena(m.arenas, addr, 0).Some?
    ensures Accounted(PageFree(m, nr, addr))
    ensures TotalFree(PageFree(m, nr, addr).arenas) == TotalFree(m.arenas) + nr
  {
    var i := FindArena(m.arenas, addr, 0).value;
    assert Counted(m.arenas[i]);
    TotalFreeUpdate(m.arenas, i, PageFreePages(m.arenas[i], addr, nr));
  }

  /**
   * With more than one page, `page_free_pages` re-adds the same page's node
   * `nr` times: the address, not the next page, is what is added, and the
   * sequence records `nr` occurrences of it.
   */
  lemma PageFreePagesRepeats(a: Arena, addr: nat, nr: nat)
    ensures multiset(PageFreePages(a, addr, nr).pageList)[addr] == multiset(a.pageList)[addr] + nr
    ensures forall q :: q != addr ==> multiset(PageFreePages(a, addr, nr).pageList)[q] == multiset(a.pageList)[q]
  {
    assert multiset(Repeat(addr, nr)) == multiset{}[addr := nr] by {
      RepeatBag(addr, nr);
    }
  }

  lemma {:induction false} RepeatBag(addr: nat, nr: nat)
    ensures multiset(Repeat(addr, nr)) == multiset{}[addr := nr]
    decreases nr
  {
    if nr > 0 {
      assert Repeat(addr, nr) == Repeat(addr, nr - 1) + [addr];
      RepeatBag(addr, nr - 1);
    }
  }

  // ------------------------------------------------- free_page / __reclaim_page

  /** The source's asserts for `free_page`: a reference to drop, and an arena to return the page to. */
  predicate CanFree(m: Mem, p: nat) {
    RefOf(m.refs, p) != 0 && (RefOf(m.refs, p) == 1 ==> FindArena(m.arenas, p, 0).Some?)
  }

  /**
   * `free_page`: drop one reference; the last one clears the page's
   * `next_allocation` and returns the page through `page_free(1, …)`.
   */
  function FreePage(m: Mem, p: nat): (r: Mem)
    requires CanFree(m, p)
    ensures RefOf(r.refs, p) == RefOf(m.refs, p) - 1
    ensures forall q :: q != p ==> RefOf(r.refs, q) == RefOf(m.refs, q)
    ensures SameRanges(m.arenas, r.arenas)
  {
    var k := RefOf(m.refs, p) - 1;
    if k == 0 then PageFree(m.(refs := m.refs[p := 0], nextAllocation := m.nextAllocation - {p}), 1, p)
    else m.(refs := m.refs[p := k])
  }

  /** The last reference returns the page to the tail of the first arena covering it, and only then. */
  lemma FreePageReturns(m: Mem, p: nat)
    requires CanFree(m, p)
    ensures var r := FreePage(m, p);
      (RefOf(m.refs, p) == 1 ==>
        var i := FindArena(m.arenas, p, 0).value;
        r.arenas == m.arenas[i := m.arenas[i].(pageList := m.arenas[i].pageList + [p], freePages := m.arenas[i].freePages + 1)] &&
        r.usedPages == m.usedPages - 1 && p !in r.nextAllocation &&
        r.nextAllocation == m.nextAllocation - {p}) &&
      (RefOf(m.refs, p) > 1 ==> r.arenas == m.arenas && r.usedPages == m.usedPages && r.nextAllocation == m.nextAllocation)
  {
    assert Repeat(p, 1) == [p];
  }

  /** `free_page` keeps every arena sane and leaves the cursor, the counters it does not own and the break alone. */
  lemma FreePageSane(m: Mem, p: nat)
    requires CanFree(m, p) && AllSane(m.arenas)
    ensures AllSane(FreePage(m, p).arenas) && |FreePage(m, p).arenas| == |m.arenas|
    ensures FreePage(m, p).firstToSearch == m.firstToSearch && FreePage(m, p).nrGlobalPages == m.nrGlobalPages
    ensures FreePage(m, p).kernelBreak == m.kernelBreak && FreePage(m, p).kernelBreakLimit == m.kernelBreakLimit
  {
    if RefOf(m.refs, p) == 1 {
      assert Sane(m.arenas[FindArena(m.arenas, p, 0).value]);
    }
  }

  lemma FreePageAccounted(m: Mem, p: nat)
    requires Accounted(m) && CanFree(m, p)
    ensures Accounted(FreePage(m, p))
  {
    if RefOf(m.refs, p) == 1 {
      PageFreeAccounted(m.(refs := m.refs[p := 0], nextAllocation := m.nextAllocation - {p}), 1, p);
    }
  }

  /**
   * `__reclaim_page`: count a page that was not managed by the allocator as
   * used and global, give it one reference, and free it onto a free list.
   */
  function ReclaimPage(m: Mem, p: nat): Mem
    requires FindArena(m.arenas, p, 0).Some?
  {
    FreePage(m.(usedPages := m.usedPages + 1, nrGlobalPages := m.nrGlobalPages + 1, refs := m.refs[p := 1]), p)
  }

  /**
   * A reclaimed page ends up free with no reference, the free pages and
   * `nr_global_pages` grow by one, and `used_pages` is back where it was.
   */
  lemma ReclaimPageAdds(m: Mem, p: nat)
    requires Accounted(m) && FindArena(m.arenas, p, 0).Some?
    ensures var r := ReclaimPage(m, p);
      Accounted(r) && RefOf(r.refs, p) == 0 && r.usedPages == m.usedPages &&
      r.nrGlobalPages == m.nrGlobalPages + 1 && TotalFree(r.arenas) == TotalFree(m.arenas) + 1 &&
      p in r.arenas[FindArena(m.arenas, p, 0).value].pageList
  {
    var m1 := m.(usedPages := m.usedPages + 1, nrGlobalPages := m.nrGlobalPages + 1, refs := m.refs[p := 1]);
    var m2 := m1.(refs := m1.refs[p := 0], nextAllocation := m1.nextAllocation - {p});
    var i := FindArena(m.arenas, p, 0).value;
    assert Counted(m.arenas[i]);
    TotalFreeUpdate(m.arenas, i, PageFreePages(m.arenas[i], p, 1));
    assert Repeat(p, 1) == [p];
    assert ReclaimPage(m, p) == PageFree(m2, 1, p);
  }
}
