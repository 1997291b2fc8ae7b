// Value-level model of the physical page-frame allocator
// (kernel/kernel/mm/pagealloc.c): arenas with free lists, the allocation
// cursor, the reference counts and allocation chains of `struct page`, the
// counters `used_pages` and `nr_global_pages`, and the boot-time bump
// pointer. Pages are named by their physical address. The class in
// pagealloc.dfy changes this state in place and is proved against the
// functions here.

module PageModel {
  import opened Common

  const PAGE_SIZE: nat := 4096
  const PAGE_SHIFT: nat := 12
  const ADDRESS_4GB_MARK: nat := 0x1_0000_0000
  /** Largest span of one arena (`min(size, 0x200000)`). */
  const ARENA_SPAN: nat := 0x20_0000
  /** Offset of `page_list` in `struct page_arena`: four 8-byte fields precede it. */
  const PAGE_LIST_OFFSET: nat := 32
  /** Offset of `list_node` in `struct page_list`: the 8-byte `page` pointer precedes it. */
  const LIST_NODE_OFFSET: nat := 8

  /**
   * Constants of the running kernel that the allocator's arithmetic depends
   * on: `PHYS_BASE`, where physical memory is mapped, so that the free-list
   * node of page `p` lives at `physBase + p`; and `sizeof(struct page_arena)`,
   * which `page_add_region` takes from the boot-time bump allocator.
   */
  datatype Config = Config(physBase: nat, arenaSize: nat)

  /**
   * `struct page_arena`: the free-page counter, the page count, the range
   * `[start, end)`, the free list in list order, and `desc`, the address of
   * the descriptor itself (its list head sits at `desc + PAGE_LIST_OFFSET`).
   */
  datatype Arena = Arena(freePages: int, nrPages: nat, start: nat, end: nat, pageList: seq<nat>, desc: nat)

  /**
   * The allocator's state: the arena chain in order, `first_to_search` as a
   * position in the chain, `used_pages`, `nr_global_pages`, each page's
   * `ref` (absent means 0) and `next_allocation` (absent means NULL), and
   * the bump pointer `kernel_break` with its limit.
   */
  datatype Mem = Mem(arenas: seq<Arena>, firstToSearch: Option<nat>, usedPages: int, nrGlobalPages: int,
                     refs: map<nat, nat>, nextAllocation: map<nat, nat>, kernelBreak: int, kernelBreakLimit: int)

  // ------------------------------------------------- counting invariant

  /** `free_pages` counts the free list. */
  predicate Counted(a: Arena) {
    a.freePages == |a.pageList|
  }

  /** The sum of `free_pages` over the chain. */
  function TotalFree(arenas: seq<Arena>): int {
    if |arenas| == 0 then 0 else arenas[0].freePages + TotalFree(arenas[1..])
  }

  predicate AllCounted(arenas: seq<Arena>) {
    forall i :: 0 <= i < |arenas| ==> Counted(arenas[i])
  }

  /**
   * The weaker fact every arena keeps even when set up from a region whose
   * size is not a multiple of `PAGE_SIZE`: `free_pages` never exceeds the
   * free list, so a non-zero counter means a non-empty list.
   */
  predicate Sane(a: Arena) {
    a.freePages <= |a.pageList|
  }

  predicate AllSane(arenas: seq<Arena>) {
    forall i :: 0 <= i < |arenas| ==> Sane(arenas[i])
  }

  /**
   * The accounting every operation keeps: each arena counts its free list,
   * every page is either free or in use, and the cursor names an arena.
   */
  predicate Accounted(m: Mem) {
    AllCounted(m.arenas) &&
    m.usedPages + TotalFree(m.arenas) == m.nrGlobalPages &&
    (m.firstToSearch.Some? ==> m.firstToSearch.value < |m.arenas|)
  }

  lemma {:induction false} TotalFreeUpdate(arenas: seq<Arena>, i: nat, a: Arena)
    requires i < |arenas|
    ensures TotalFree(arenas[i := a]) == TotalFree(arenas) - arenas[i].freePages + a.freePages
    decreases i
  {
    if i > 0 {
      assert arenas[i := a][1..] == arenas[1..][i - 1 := a];
      TotalFreeUpdate(arenas[1..], i - 1, a);
    }
  }

  lemma {:induction false} TotalFreeAppend(arenas: seq<Arena>, a: Arena)
    ensures TotalFree(arenas + [a]) == TotalFree(arenas) + a.freePages
    decreases |arenas|
  {
    if |arenas| == 0 {
      assert arenas + [a] == [a];
    } else {
      assert (arenas + [a])[1..] == arenas[1..] + [a];
      TotalFreeAppend(arenas[1..], a);
    }
  }

  // ------------------------------------------------- struct page

  /** `page->ref`. */
  function RefOf(refs: map<nat, nat>, p: nat): nat {
    if p in refs then refs[p] else 0
  }

  /** `page_ref`: one more reference. */
  function Ref(refs: map<nat, nat>, p: nat): (r: map<nat, nat>)
    ensures RefOf(r, p) == RefOf(refs, p) + 1
    ensures forall q :: q != p ==> RefOf(r, q) == RefOf(refs, q)
  {
    refs[p := RefOf(refs, p) + 1]
  }

  /** One more reference to each page of `s`, applied in order. */
  function RefAll(refs: map<nat, nat>, s: seq<nat>): map<nat, nat>
    decreases |s|
  {
    if |s| == 0 then refs else Ref(RefAll(refs, s[..|s| - 1]), s[|s| - 1])
  }

  /** `next_allocation` links from each page of `s` to the one after it. */
  function Links(next: map<nat, nat>, s: seq<nat>): map<nat, nat>
    decreases |s|
  {
    if |s| <= 1 then next else Links(next, s[..|s| - 1])[s[|s| - 2] := s[|s| - 1]]
  }

  lemma {:induction false} RefAllOutside(refs: map<nat, nat>, s: seq<nat>, q: nat)
    requires q !in s
    ensures RefOf(RefAll(refs, s), q) == RefOf(refs, q)
    decreases |s|
  {
    if |s| > 0 {
      RefAllOutside(refs, s[..|s| - 1], q);
    }
  }

  /** With distinct pages, each page of `s` gains exactly one reference. */
  lemma {:induction false} RefAllInside(refs: map<nat, nat>, s: seq<nat>, k: nat)
    requires k < |s|
    requires forall i, j :: 0 <= i < j < |s| ==> s[i] != s[j]
    ensures RefOf(RefAll(refs, s), s[k]) == RefOf(refs, s[k]) + 1
    decreases |s|
  {
    var pre := s[..|s| - 1];
    if k == |s| - 1 {
      RefAllOutside(refs, pre, s[k]);
    } else {
      assert s[k] == pre[k];
      RefAllInside(refs, pre, k);
    }
  }

  lemma {:induction false} LinksOutside(next: map<nat, nat>, s: seq<nat>, q: nat)
    requires q !in s
    ensures (q in Links(next, s)) == (q in next)
    ensures q in next ==> Links(next, s)[q] == next[q]
    decreases |s|
  {
    if |s| > 1 {
      LinksOutside(next, s[..|s| - 1], q);
    }
  }

  /** With distinct pages, each page of `s` but the last links to its successor. */
  lemma {:induction false} LinksInside(next: map<nat, nat>, s: seq<nat>, k: nat)
    requires k + 1 < |s|
    requires forall i, j :: 0 <= i < j < |s| ==> s[i] != s[j]
    ensures s[k] in Links(next, s) && Links(next, s)[s[k]] == s[k + 1]
    decreases |s|
  {
    if k + 2 < |s| {
      var pre := s[..|s| - 1];
      assert s[k] == pre[k] && s[k + 1] == pre[k + 1];
      LinksInside(next, pre, k);
    }
  }

  // ------------------------------------------------- page_alloc_one

  /** What an allocation from one arena gives: the page, and the arena, refs and links after it. */
  datatype Taken = Taken(page: Option<nat>, arena: Arena, refs: map<nat, nat>, nextAllocation: map<nat, nat>)

  /**
   * `page_alloc_one`: unlink the first free-list entry, give its page a
   * reference and count one free page less.
   */
  function AllocOne(a: Arena, refs: map<nat, nat>, next: map<nat, nat>): (t: Taken)
    requires |a.pageList| > 0
    ensures t.page == Some(a.pageList[0])
    ensures [a.pageList[0]] + t.arena.pageList == a.pageList
    ensures t.arena.freePages == a.freePages - 1
    ensures t.arena == a.(pageList := t.arena.pageList, freePages := t.arena.freePages)
    ensures RefOf(t.refs, a.pageList[0]) == RefOf(refs, a.pageList[0]) + 1
    ensures forall q :: q != a.pageList[0] ==> RefOf(t.refs, q) == RefOf(refs, q)
    ensures t.nextAllocation == next
  {
    Taken(Some(a.pageList[0]), a.(pageList := a.pageList[1..], freePages := a.freePages - 1),
          Ref(refs, a.pageList[0]), next)
  }

  // ------------------------------------------------- contiguous search

  /** Address of the free-list node of page `p`. */
  function NodeAddr(cfg: Config, p: nat): nat {
    cfg.physBase + p
  }

  /**
   * What the scan takes for the successor of the last node: `container_of`
   * applied to the arena's list head, which is not inside a `struct
   * page_list`, so the address is the head's minus the offset of
   * `list_node`.
   */
  function HeadAddr(a: Arena): nat {
    a.desc + PAGE_LIST_OFFSET - LIST_NODE_OFFSET
  }

  /** Address of the node after entry `k`: the next entry's node, or the list head. */
  function SuccAddr(cfg: Config, a: Arena, k: nat): nat
    requires k < |a.pageList|
  {
    if k + 1 < |a.pageList| then NodeAddr(cfg, a.pageList[k + 1]) else HeadAddr(a)
  }

  /**
   * The scan's test on entry `k`: the unsigned difference between the next
   * node and this one is at most `PAGE_SIZE`.
   */
  predicate Contig(cfg: Config, a: Arena, k: nat)
    requires k < |a.pageList|
  {
    (SuccAddr(cfg, a, k) - NodeAddr(cfg, a.pageList[k])) % U64 <= PAGE_SIZE
  }

  /** The 4 GiB test, on the node address. */
  predicate Above4GB(cfg: Config, a: Arena, k: nat)
    requires k < |a.pageList|
  {
    NodeAddr(cfg, a.pageList[k]) > ADDRESS_4GB_MARK
  }

  /** `n` entries from `b` on all pass the contiguity test. */
  predicate RunAt(cfg: Config, a: Arena, n: nat, b: nat) {
    b + n <= |a.pageList| && forall j :: b <= j < b + n ==> Contig(cfg, a, j)
  }

  /** How the search of one arena ends: a run starting at entry `base`, none, or the 4 GiB bail-out. */
  datatype Found = Run(base: nat) | NoRun | Bail

  /**
   * The loop over the free list from entry `k`, with `found` entries counted
   * since the last reset and the run starting at `base`.
   */
  function Scan(cfg: Config, a: Arena, n: nat, limit: bool, k: nat, found: nat, base: nat): (r: Found)
    requires found < n && found <= k
    requires found > 0 ==> base == k - found
    ensures r.Run? ==> r.base + n <= |a.pageList|
    decreases |a.pageList| - k
  {
    if k >= |a.pageList| then NoRun
    else if !Contig(cfg, a, k) then Scan(cfg, a, n, limit, k + 1, 0, base)
    else if limit && Above4GB(cfg, a, k) then Bail
    else
      var b := if found == 0 then k else base;
      if found + 1 == n then Run(b) else Scan(cfg, a, n, limit, k + 1, found + 1, b)
  }

  /** `Scan` from its start, once per contiguous allocation. */
  function Search(cfg: Config, a: Arena, n: nat, limit: bool): (r: Found)
    requires n >= 2
    ensures r.Run? ==> r.base + n <= |a.pageList|
  {
    Scan(cfg, a, n, limit, 0, 0, 0)
  }

  /**
   * What a search result means: a run is the first run of `n` entries that
   * pass the contiguity test (and, with the limit flag, none of them lies
   * above 4 GiB); no run means there is none; the bail-out needs the flag.
   */
  ghost predicate Reports(cfg: Config, a: Arena, n: nat, limit: bool, r: Found) {
    (r.Run? ==> RunAt(cfg, a, n, r.base) && (forall b: nat :: b < r.base ==> !RunAt(cfg, a, n, b)) &&
                (forall j :: r.base <= j < r.base + n ==> !(limit && Above4GB(cfg, a, j)))) &&
    (r.NoRun? ==> forall b: nat :: !RunAt(cfg, a, n, b)) &&
    (r.Bail? ==> limit)
  }

  /** The scan's invariant, carried from entry `k` to the end. */
  lemma {:induction false} ScanFinds(cfg: Config, a: Arena, n: nat, limit: bool, k: nat, found: nat, base: nat)
    requires n >= 2 && found < n && found <= k <= |a.pageList|
    requires found > 0 ==> base == k - found
    requires forall j :: k - found <= j < k ==> Contig(cfg, a, j) && !(limit && Above4GB(cfg, a, j))
    requires forall b: nat :: b < k - found ==> !RunAt(cfg, a, n, b)
    ensures Reports(cfg, a, n, limit, Scan(cfg, a, n, limit, k, found, base))
    decreases |a.pageList| - k
  {
    if k == |a.pageList| {
      forall b: nat ensures !RunAt(cfg, a, n, b) {
        if b >= k - found {
          assert b + n > |a.pageList|;
        }
      }
    } else if !Contig(cfg, a, k) {
      forall b: nat | b < k + 1 ensures !RunAt(cfg, a, n, b) {
        if b >= k - found && b + n <= |a.pageList| {
          assert b <= k < b + n;
        }
      }
      ScanFinds(cfg, a, n, limit, k + 1, 0, base);
    } else if limit && Above4GB(cfg, a, k) {
    } else {
      var b := if found == 0 then k else base;
      if found + 1 < n {
        ScanFinds(cfg, a, n, limit, k + 1, found + 1, b);
      }
    }
  }

  /**
   * The search finds the first run of `n` entries that pass the contiguity
   * test, and reports none only when no such run exists.
   */
  lemma SearchFindsFirstRun(cfg: Config, a: Arena, n: nat, limit: bool)
    requires n >= 2
    ensures Reports(cfg, a, n, limit, Search(cfg, a, n, limit))
  {
    ScanFinds(cfg, a, n, limit, 0, 0, 0);
  }

  /**
   * Without the 4 GiB flag, the search succeeds exactly when some run
   * exists.
   */
  lemma SearchSucceedsIffRun(cfg: Config, a: Arena, n: nat)
    requires n >= 2
    ensures Search(cfg, a, n, false).Run? <==> exists b: nat :: RunAt(cfg, a, n, b)
  {
    SearchFindsFirstRun(cfg, a, n, false);
  }

  // ------------------------------------------------- page_alloc_from_arena

  /** `list_remove_bulk` over entries `[b, b + n)`. */
  function Splice(s: seq<nat>, b: nat, n: nat): seq<nat>
    requires b + n <= |s|
  {
    s[..b] + s[b + n..]
  }

  /**
   * `page_alloc_from_arena`: too few free pages, or no run found, gives
   * NULL with nothing changed; one page goes to `page_alloc_one`; otherwise
   * the run is unlinked, each of its pages gains a reference and is chained
   * to the next through `next_allocation`, and the first page is returned.
   */
  function AllocFromArena(cfg: Config, a: Arena, refs: map<nat, nat>, next: map<nat, nat>, n: nat, limit: bool): (t: Taken)
    requires Sane(a) && n >= 1
    ensures t.page.None? ==> t == Taken(None, a, refs, next)
    ensures t.page.Some? ==> t.arena.freePages == a.freePages - n && |t.arena.pageList| == |a.pageList| - n
    ensures t.arena.start == a.start && t.arena.end == a.end && t.arena.nrPages == a.nrPages && t.arena.desc == a.desc
  {
    if a.freePages < n then Taken(None, a, refs, next)
    else if n == 1 then AllocOne(a, refs, next)
    else
      match Search(cfg, a, n, limit)
      case Run(b) =>
        var run := a.pageList[b..b + n];
        Taken(Some(a.pageList[b]), a.(pageList := Splice(a.pageList, b, n), freePages := a.freePages - n),
              RefAll(refs, run), Links(next, run))
      case _ => Taken(None, a, refs, next)
  }

  /**
   * A contiguous allocation succeeds only with enough free pages and a run
   * found by the search; it returns the run's first page and leaves the free
   * list with the run spliced out. Without the 4 GiB flag it succeeds
   * exactly when there are enough free pages and some run exists.
   */
  lemma ContiguousTakesRun(cfg: Config, a: Arena, refs: map<nat, nat>, next: map<nat, nat>, n: nat, limit: bool)
    requires Sane(a) && n >= 2
    ensures AllocFromArena(cfg, a, refs, next, n, limit).page.Some? ==>
      a.freePages >= n && Search(cfg, a, n, limit).Run? && RunAt(cfg, a, n, Search(cfg, a, n, limit).base) &&
      AllocFromArena(cfg, a, refs, next, n, limit).page == Some(a.pageList[Search(cfg, a, n, limit).base]) &&
      AllocFromArena(cfg, a, refs, next, n, limit).arena.pageList == Splice(a.pageList, Search(cfg, a, n, limit).base, n)
    ensures !limit ==> (AllocFromArena(cfg, a, refs, next, n, limit).page.Some? <==>
                        a.freePages >= n && exists b: nat :: RunAt(cfg, a, n, b))
  {
    SearchFindsFirstRun(cfg, a, n, limit);
    if !limit {
      SearchSucceedsIffRun(cfg, a, n);
    }
  }

  // ------------------------------------------------- page_alloc

  /** What `page_alloc` gives: the page (NULL as None) and the state after. */
  datatype Outcome = Outcome(page: Option<nat>, mem: Mem)

  /** The arena loop of `page_alloc` from position `i`, `last` being `last_with_pages`. */
  function AllocFrom(cfg: Config, m: Mem, n: nat, limit: bool, i: nat, last: Option<nat>): (o: Outcome)
    requires AllSane(m.arenas) && n >= 1
    ensures o.page.None? ==> o.mem == m
    ensures o.page.Some? ==> |o.mem.arenas| == |m.arenas| && AllSane(o.mem.arenas)
    decreases |m.arenas| - i
  {
    if i >= |m.arenas| then Outcome(None, m)
    else
      var a := m.arenas[i];
      if limit && a.start > ADDRESS_4GB_MARK then Outcome(None, m)
      else
        var last' := if a.freePages != 0 && last.None? then Some(i) else last;
        if a.freePages < n then AllocFrom(cfg, m, n, limit, i + 1, last')
        else
          var t := AllocFromArena(cfg, a, m.refs, m.nextAllocation, n, limit);
          if t.page.None? then AllocFrom(cfg, m, n, limit, i + 1, last')
          else
            var cursor := if last' == Some(i) && t.arena.freePages == 0 && i + 1 < |m.arenas| then Some(i + 1) else last';
            Outcome(t.page, m.(arenas := m.arenas[i := t.arena], refs := t.refs, nextAllocation := t.nextAllocation,
                               usedPages := m.usedPages + n, firstToSearch := cursor))
  }

  /**
   * One arena of the loop: one too small is passed (noting it as
   * `last_with_pages` if it has free pages); one large enough is tried with
   * `last_with_pages` already set.
   */
  lemma AllocFromStep(cfg: Config, m: Mem, n: nat, limit: bool, i: nat, last: Option<nat>)
    requires AllSane(m.arenas) && n >= 1 && i < |m.arenas| && !(limit && m.arenas[i].start > ADDRESS_4GB_MARK)
    ensures m.arenas[i].freePages < n ==>
      AllocFrom(cfg, m, n, limit, i, last) ==
      AllocFrom(cfg, m, n, limit, i + 1, if m.arenas[i].freePages != 0 && last.None? then Some(i) else last)
    ensures m.arenas[i].freePages >= n ==>
      AllocFrom(cfg, m, n, limit, i, last) == AllocFrom(cfg, m, n, limit, i, if last.None? then Some(i) else last)
  {
  }

  /** `page_alloc`: search the chain from the cursor. */
  function PageAlloc(cfg: Config, m: Mem, n: nat, limit: bool): (o: Outcome)
    requires AllSane(m.arenas) && n >= 1
    ensures o.page.None? ==> o.mem == m
    ensures o.page.Some? ==> |o.mem.arenas| == |m.arenas| && AllSane(o.mem.arenas)
  {
    if m.firstToSearch.None? then Outcome(None, m)
    else AllocFrom(cfg, m, n, limit, m.firstToSearch.value, None)
  }

  /** A too-small arena gives NULL and changes nothing. */
  lemma TooFewFails(cfg: Config, a: Arena, refs: map<nat, nat>, next: map<nat, nat>, n: nat, limit: bool)
    requires Sane(a) && n >= 1 && a.freePages < n
    ensures AllocFromArena(cfg, a, refs, next, n, limit) == Taken(None, a, refs, next)
  {
  }

  /**
   * With distinct pages, `RefAll` and `Links` give every page of the run
   * exactly one more reference and chain each page to the next, and change
   * no other page.
   */
  lemma RunRefsAndLinks(refs: map<nat, nat>, next: map<nat, nat>, run: seq<nat>)
    requires forall i, j :: 0 <= i < j < |run| ==> run[i] != run[j]
    ensures forall j :: 0 <= j < |run| ==> RefOf(RefAll(refs, run), run[j]) == RefOf(refs, run[j]) + 1
    ensures forall j :: 0 <= j < |run| - 1 ==> run[j] in Links(next, run) && Links(next, run)[run[j]] == run[j + 1]
    ensures forall q :: q !in run ==> RefOf(RefAll(refs, run), q) == RefOf(refs, q)
    ensures forall q :: q !in run ==> (q in Links(next, run) <==> q in next)
    ensures forall q :: q !in run && q in next ==> Links(next, run)[q] == next[q]
  {
    forall j | 0 <= j < |run|
      ensures RefOf(RefAll(refs, run), run[j]) == RefOf(refs, run[j]) + 1
    {
      RefAllInside(refs, run, j);
    }
    forall j | 0 <= j < |run| - 1
      ensures run[j] in Links(next, run) && Links(next, run)[run[j]] == run[j + 1]
    {
      LinksInside(next, run, j);
    }
    forall q | q !in run
      ensures RefOf(RefAll(refs, run), q) == RefOf(refs, q)
      ensures q in Links(next, run) <==> q in next
      ensures q in next ==> Links(next, run)[q] == next[q]
    {
      RefAllOutside(refs, run, q);
      LinksOutside(next, run, q);
    }
  }

  /** Arena `j` is passed over by the `page_alloc` loop: no 4 GiB bail-out and no allocation. */
  predicate Passed(cfg: Config, m: Mem, n: nat, limit: bool, j: nat)
    requires AllSane(m.arenas) && n >= 1 && j < |m.arenas|
  {
    !(limit && m.arenas[j].start > ADDRESS_4GB_MARK) &&
    AllocFromArena(cfg, m.arenas[j], m.refs, m.nextAllocation, n, limit).page.None?
  }

  /**
   * Arena `i` served the request: its allocation succeeded, and the outcome
   * is the state with that arena, the refs and links replaced, `used_pages`
   * raised by `n`, and a new cursor.
   */
  predicate Served(cfg: Config, m: Mem, n: nat, limit: bool, i: nat, o: Outcome)
    requires AllSane(m.arenas) && n >= 1 && i < |m.arenas|
  {
    var t := AllocFromArena(cfg, m.arenas[i], m.refs, m.nextAllocation, n, limit);
    !(limit && m.arenas[i].start > ADDRESS_4GB_MARK) && t.page.Some? && o.page == t.page &&
    o.mem == m.(arenas := m.arenas[i := t.arena], refs := t.refs, nextAllocation := t.nextAllocation,
                usedPages := m.usedPages + n, firstToSearch := o.mem.firstToSearch)
  }

  /** The loop's bookkeeping of `last_with_pages` while it walks from `start` to `i`. */
  predicate LastWithPages(m: Mem, start: nat, i: nat, last: Option<nat>)
    requires start <= i <= |m.arenas|
  {
    match last
    case None => forall j :: start <= j < i ==> m.arenas[j].freePages == 0
    case Some(f) => start <= f < i && m.arenas[f].freePages != 0 &&
                    forall j :: start <= j < f ==> m.arenas[j].freePages == 0
  }

  /**
   * The outcome `o` of the arena loop from `i`: on success some arena `w`
   * served the request and every arena from `i` to `w` was passed over; on
   * failure every arena from `i` up to the end, or up to an arena above
   * 4 GiB when the flag is set, was passed over.
   */
  predicate FirstServes(cfg: Config, m: Mem, n: nat, limit: bool, i: nat, o: Outcome)
    requires AllSane(m.arenas) && n >= 1
  {
    (o.page.Some? ==> exists w :: i <= w < |m.arenas| && Served(cfg, m, n, limit, w, o) &&
                        forall j :: i <= j < w ==> Passed(cfg, m, n, limit, j)) &&
    (o.page.None? ==> exists s :: i <= s <= |m.arenas| && (forall j :: i <= j < s ==> Passed(cfg, m, n, limit, j)) &&
                        (s < |m.arenas| ==> limit && m.arenas[s].start > ADDRESS_4GB_MARK))
  }

  /** After a success the cursor lies at or after `start`, with no free page in the arenas it skipped. */
  predicate CursorKept(m: Mem, start: nat, o: Outcome) {
    o.page.Some? ==> o.mem.firstToSearch.Some? && start <= o.mem.firstToSearch.value < |o.mem.arenas| &&
                     forall j :: start <= j < o.mem.firstToSearch.value ==> o.mem.arenas[j].freePages == 0
  }

  /**
   * `last_with_pages` when the loop reaches arena `w` having started at
   * `start`: the first arena of `[start, w)` whose `free_pages` is not zero,
   * or `w` itself when there is none.
   */
  function FirstWithPages(arenas: seq<Arena>, start: nat, w: nat): (f: nat)
    requires start <= w < |arenas|
    ensures start <= f <= w
    ensures forall j :: start <= j < f ==> arenas[j].freePages == 0
    ensures f < w ==> arenas[f].freePages != 0
    decreases w - start
  {
    if start == w || arenas[start].freePages != 0 then start else FirstWithPages(arenas, start + 1, w)
  }

  /**
   * The cursor `page_alloc` leaves after arena `w` served the request:
   * `last_with_pages`, except that when that is `w` itself, now without
   * free pages, and another arena follows, the cursor moves on to it.
   */
  function NewCursor(arenas: seq<Arena>, start: nat, w: nat, served: Arena): Option<nat>
    requires start <= w < |arenas|
  {
    var f := FirstWithPages(arenas, start, w);
    if f == w && served.freePages == 0 && w + 1 < |arenas| then Some(w + 1) else Some(f)
  }

  /**
   * After a success from position `i` of a search that began at `start`,
   * served by arena `w` with every arena from `i` to `w` passed over, the
   * cursor is `NewCursor` of `w` and the arena it left.
   */
  predicate CursorMoved(cfg: Config, m: Mem, n: nat, limit: bool, start: nat, i: nat, o: Outcome)
    requires AllSane(m.arenas) && n >= 1 && start <= i
  {
    forall w :: i <= w < |m.arenas| && Served(cfg, m, n, limit, w, o) && (forall j :: i <= j < w ==> Passed(cfg, m, n, limit, j)) ==>
      |o.mem.arenas| == |m.arenas| && o.mem.firstToSearch == NewCursor(m.arenas, start, w, o.mem.arenas[w])
  }

  /**
   * The arena loop of `page_alloc`: the first arena from `i` on that can
   * serve the request does, every arena before it is passed over, and NULL
   * means every arena up to the end or up to an arena above 4 GiB (with the
   * limit flag) was passed over. After a success the cursor is the first
   * arena from `start` on that had free pages, or the one after the serving
   * arena when that was the first and is now empty; so it names an arena at
   * or after `start`, and every arena between `start` and it has no free
   * page left.
   */
  lemma {:induction false} AllocFromOutcome(cfg: Config, m: Mem, n: nat, limit: bool, start: nat, i: nat, last: Option<nat>)
    requires AllSane(m.arenas) && n >= 1 && start <= i <= |m.arenas|
    requires LastWithPages(m, start, i, last)
    ensures FirstServes(cfg, m, n, limit, i, AllocFrom(cfg, m, n, limit, i, last))
    ensures CursorMoved(cfg, m, n, limit, start, i, AllocFrom(cfg, m, n, limit, i, last))
    ensures CursorKept(m, start, AllocFrom(cfg, m, n, limit, i, last))
  {
    AllocFromServes(cfg, m, n, limit, i, last);
    AllocFromCursor(cfg, m, n, limit, start, i, last);
    KeptFromMoved(cfg, m, n, limit, start, i, AllocFrom(cfg, m, n, limit, i, last));
  }

  lemma {:induction false} AllocFromServes(cfg: Config, m: Mem, n: nat, limit: bool, i: nat, last: Option<nat>)
    requires AllSane(m.arenas) && n >= 1 && i <= |m.arenas|
    ensures FirstServes(cfg, m, n, limit, i, AllocFrom(cfg, m, n, limit, i, last))
    decreases |m.arenas| - i
  {
    if i < |m.arenas| && !(limit && m.arenas[i].start > ADDRESS_4GB_MARK) {
      if Passed(cfg, m, n, limit, i) {
        AllocFromPassed(cfg, m, n, limit, i, last);
        AllocFromServes(cfg, m, n, limit, i + 1, if m.arenas[i].freePages != 0 && last.None? then Some(i) else last);
        ServesBack(cfg, m, n, limit, i, AllocFrom(cfg, m, n, limit, i, last));
      } else {
        AllocFromServed(cfg, m, n, limit, i, last);
        ServedFirst(cfg, m, n, limit, i, AllocFrom(cfg, m, n, limit, i, last));
      }
    }
  }

  /** An arena passed over hands the search on to the next one. */
  lemma AllocFromPassed(cfg: Config, m: Mem, n: nat, limit: bool, i: nat, last: Option<nat>)
    requires AllSane(m.arenas) && n >= 1 && i < |m.arenas| && Passed(cfg, m, n, limit, i)
    ensures AllocFrom(cfg, m, n, limit, i, last) ==
      AllocFrom(cfg, m, n, limit, i + 1, if m.arenas[i].freePages != 0 && last.None? then Some(i) else last)
  {
  }

  /** An arena that is neither above the limit nor passed over serves the request. */
  lemma AllocFromServed(cfg: Config, m: Mem, n: nat, limit: bool, i: nat, last: Option<nat>)
    requires AllSane(m.arenas) && n >= 1 && i < |m.arenas|
    requires !(limit && m.arenas[i].start > ADDRESS_4GB_MARK) && !Passed(cfg, m, n, limit, i)
    ensures Served(cfg, m, n, limit, i, AllocFrom(cfg, m, n, limit, i, last))
  {
  }

  lemma ServedFirst(cfg: Config, m: Mem, n: nat, limit: bool, i: nat, o: Outcome)
    requires AllSane(m.arenas) && n >= 1 && i < |m.arenas| && Served(cfg, m, n, limit, i, o)
    ensures FirstServes(cfg, m, n, limit, i, o)
  {
  }

  /** Passing over arena `i` extends what the search from `i + 1` established back to `i`. */
  lemma ServesBack(cfg: Config, m: Mem, n: nat, limit: bool, i: nat, o: Outcome)
    requires AllSane(m.arenas) && n >= 1 && i < |m.arenas| && Passed(cfg, m, n, limit, i)
    requires FirstServes(cfg, m, n, limit, i + 1, o)
    ensures FirstServes(cfg, m, n, limit, i, o)
  {
    if o.page.Some? {
      ServedBack(cfg, m, n, limit, i, o);
    } else {
      FailedBack(cfg, m, n, limit, i, o);
    }
  }

  lemma ServedBack(cfg: Config, m: Mem, n: nat, limit: bool, i: nat, o: Outcome)
    requires AllSane(m.arenas) && n >= 1 && i < |m.arenas| && Passed(cfg, m, n, limit, i)
    requires exists w :: i + 1 <= w < |m.arenas| && Served(cfg, m, n, limit, w, o) &&
                         forall j :: i + 1 <= j < w ==> Passed(cfg, m, n, limit, j)
    ensures exists w :: i <= w < |m.arenas| && Served(cfg, m, n, limit, w, o) &&
                        forall j :: i <= j < w ==> Passed(cfg, m, n, limit, j)
  {
    var w :| i + 1 <= w < |m.arenas| && Served(cfg, m, n, limit, w, o) &&
             forall j :: i + 1 <= j < w ==> Passed(cfg, m, n, limit, j);
    assert forall j :: i <= j < w ==> Passed(cfg, m, n, limit, j);
  }

  lemma FailedBack(cfg: Config, m: Mem, n: nat, limit: bool, i: nat, o: Outcome)
    requires AllSane(m.arenas) && n >= 1 && i < |m.arenas| && Passed(cfg, m, n, limit, i)
    requires exists s :: i + 1 <= s <= |m.arenas| && (forall j :: i + 1 <= j < s ==> Passed(cfg, m, n, limit, j)) &&
                         (s < |m.arenas| ==> limit && m.arenas[s].start > ADDRESS_4GB_MARK)
    ensures exists s :: i <= s <= |m.arenas| && (forall j :: i <= j < s ==> Passed(cfg, m, n, limit, j)) &&
                        (s < |m.arenas| ==> limit && m.arenas[s].start > ADDRESS_4GB_MARK)
  {
    var s :| i + 1 <= s <= |m.arenas| && (forall j :: i + 1 <= j < s ==> Passed(cfg, m, n, limit, j)) &&
             (s < |m.arenas| ==> limit && m.arenas[s].start > ADDRESS_4GB_MARK);
    assert forall j :: i <= j < s ==> Passed(cfg, m, n, limit, j);
  }

  /**
   * The cursor rule of `page_alloc` from any point `i` of the arena loop,
   * `last` having recorded `last_with_pages` since `start`.
   */
  lemma {:induction false} AllocFromCursor(cfg: Config, m: Mem, n: nat, limit: bool, start: nat, i: nat, last: Option<nat>)
    requires AllSane(m.arenas) && n >= 1 && start <= i <= |m.arenas|
    requires LastWithPages(m, start, i, last)
    ensures CursorMoved(cfg, m, n, limit, start, i, AllocFrom(cfg, m, n, limit, i, last))
    decreases |m.arenas| - i
  {
    if i < |m.arenas| && !(limit && m.arenas[i].start > ADDRESS_4GB_MARK) {
      var last' := if m.arenas[i].freePages != 0 && last.None? then Some(i) else last;
      if Passed(cfg, m, n, limit, i) {
        assert LastWithPages(m, start, i + 1, last');
        AllocFromPassed(cfg, m, n, limit, i, last);
        AllocFromCursor(cfg, m, n, limit, start, i + 1, last');
        CursorMovedBack(cfg, m, n, limit, start, i, AllocFrom(cfg, m, n, limit, i, last));
      } else {
        CursorHere(cfg, m, n, limit, start, i, last);
      }
    }
  }

  /** Passing over arena `i` extends the cursor rule from `i + 1` back to `i`. */
  lemma CursorMovedBack(cfg: Config, m: Mem, n: nat, limit: bool, start: nat, i: nat, o: Outcome)
    requires AllSane(m.arenas) && n >= 1 && start <= i < |m.arenas| && Passed(cfg, m, n, limit, i)
    requires CursorMoved(cfg, m, n, limit, start, i + 1, o)
    ensures CursorMoved(cfg, m, n, limit, start, i, o)
  {
  }

  /** The arena the loop is at serves the request: the cursor is set by the rule. */
  lemma CursorHere(cfg: Config, m: Mem, n: nat, limit: bool, start: nat, i: nat, last: Option<nat>)
    requires AllSane(m.arenas) && n >= 1 && start <= i < |m.arenas|
    requires !(limit && m.arenas[i].start > ADDRESS_4GB_MARK) && !Passed(cfg, m, n, limit, i)
    requires LastWithPages(m, start, i, last)
    ensures CursorMoved(cfg, m, n, limit, start, i, AllocFrom(cfg, m, n, limit, i, last))
  {
    var o := AllocFrom(cfg, m, n, limit, i, last);
    AllocFromServed(cfg, m, n, limit, i, last);
    var last' := if m.arenas[i].freePages != 0 && last.None? then Some(i) else last;
    assert last' == Some(FirstWithPages(m.arenas, start, i));
    assert o.mem.firstToSearch == NewCursor(m.arenas, start, i, o.mem.arenas[i]);
  }

  /** The cursor rule places the cursor at or after `start`, past arenas without free pages only. */
  lemma KeptFromMoved(cfg: Config, m: Mem, n: nat, limit: bool, start: nat, i: nat, o: Outcome)
    requires AllSane(m.arenas) && n >= 1 && start <= i
    requires FirstServes(cfg, m, n, limit, i, o) && CursorMoved(cfg, m, n, limit, start, i, o)
    ensures CursorKept(m, start, o)
  {
    if o.page.Some? {
      var w :| i <= w < |m.arenas| && Served(cfg, m, n, limit, w, o) &&
               forall j :: i <= j < w ==> Passed(cfg, m, n, limit, j);
      assert o.mem.firstToSearch == NewCursor(m.arenas, start, w, o.mem.arenas[w]);
    }
  }

  /** `page_alloc` from the cursor, as `AllocFromOutcome` states it. */
  lemma PageAllocOutcome(cfg: Config, m: Mem, n: nat, limit: bool)
    requires AllSane(m.arenas) && n >= 1
    requires m.firstToSearch.Some? && m.firstToSearch.value < |m.arenas|
    ensures FirstServes(cfg, m, n, limit, m.firstToSearch.value, PageAlloc(cfg, m, n, limit))
    ensures CursorMoved(cfg, m, n, limit, m.firstToSearch.value, m.firstToSearch.value, PageAlloc(cfg, m, n, limit))
    ensures CursorKept(m, m.firstToSearch.value, PageAlloc(cfg, m, n, limit))
    ensures PageAlloc(cfg, m, n, limit).page.None? ==> PageAlloc(cfg, m, n, limit).mem == m
  {
    var c := m.firstToSearch.value;
    assert PageAlloc(cfg, m, n, limit) == AllocFrom(cfg, m, n, limit, c, None);
    AllocFromOutcome(cfg, m, n, limit, c, c, None);
  }

  /** The loop from `i` fails when no arena from `i` on has `n` free pages. */
  lemma {:induction false} AllocFromTooFew(cfg: Config, m: Mem, n: nat, limit: bool, i: nat, last: Option<nat>)
    requires AllSane(m.arenas) && n >= 1
    requires forall j :: i <= j < |m.arenas| ==> m.arenas[j].freePages < n
    ensures AllocFrom(cfg, m, n, limit, i, last).page.None?
    decreases |m.arenas| - i
  {
    if i < |m.arenas| && !(limit && m.arenas[i].start > ADDRESS_4GB_MARK) {
      AllocFromTooFew(cfg, m, n, limit, i + 1, if m.arenas[i].freePages != 0 && last.None? then Some(i) else last);
    }
  }

  /**
   * The cursor is never moved back: `page_alloc` gives NULL when no arena
   * from the cursor on has `n` free pages, however many free pages the
   * arenas before the cursor have regained through `page_free`.
   */
  lemma CursorNeverRewound(cfg: Config, m: Mem, n: nat, limit: bool)
    requires AllSane(m.arenas) && n >= 1 && m.firstToSearch.Some?
    requires forall j :: m.firstToSearch.value <= j < |m.arenas| ==> m.arenas[j].freePages < n
    ensures PageAlloc(cfg, m, n, limit).page.None? && PageAlloc(cfg, m, n, limit).mem == m
  {
    AllocFromTooFew(cfg, m, n, limit, m.firstToSearch.value, None);
  }

  /** `page_alloc` keeps the accounting: one arena loses `n` free pages and `used_pages` gains them. */
  lemma PageAllocAccounted(cfg: Config, m: Mem, n: nat, limit: bool)
    requires Accounted(m) && n >= 1
    ensures Accounted(PageAlloc(cfg, m, n, limit).mem)
  {
    assert AllSane(m.arenas);
    var o := PageAlloc(cfg, m, n, limit);
    if o.page.Some? {
      PageAllocOutcome(cfg, m, n, limit);
      var w :| m.firstToSearch.value <= w < |m.arenas| && Served(cfg, m, n, limit, w, o);
      var t := AllocFromArena(cfg, m.arenas[w], m.refs, m.nextAllocation, n, limit);
      TotalFreeUpdate(m.arenas, w, t.arena);
      assert Counted(m.arenas[w]);
    }
  }
}
