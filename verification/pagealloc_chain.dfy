// Multi-page allocations of the page-frame allocator
// (kernel/kernel/mm/pagealloc.c): `free_pages`, which walks a chain of
// pages linked through `next_allocation`, and `__get_phys_pages`, which
// gathers pages one at a time into such a chain and hands every one back
// when an allocation fails part-way.

module PageChain {
  import opened Common
  import opened PageModel
  import opened PageReturn

  // ------------------------------------------------- free pages, counted per page

  /** How often page `q` is on the free lists of the chain. */
  function Listed(arenas: seq<Arena>, q: nat): nat
    decreases |arenas|
  {
    if |arenas| == 0 then 0 else multiset(arenas[0].pageList)[q] + Listed(arenas[1..], q)
  }

  lemma {:induction false} ListedUpdate(arenas: seq<Arena>, i: nat, a: Arena, q: nat)
    requires i < |arenas|
    ensures Listed(arenas[i := a], q) + multiset(arenas[i].pageList)[q] == Listed(arenas, q) + multiset(a.pageList)[q]
    decreases i
  {
    if i == 0 {
      assert arenas[i := a][1..] == arenas[1..];
    } else {
      assert arenas[i := a][1..] == arenas[1..][i - 1 := a];
      ListedUpdate(arenas[1..], i - 1, a, q);
    }
  }

  /**
   * The state the allocator keeps for the pages it manages: the arenas are
   * sane, and every free page is on the free lists once, has no reference,
   * no `next_allocation` link, and an arena whose range covers it.
   */
  ghost predicate Coherent(m: Mem) {
    AllSane(m.arenas) &&
    forall p: nat :: Listed(m.arenas, p) > 0 ==>
      Listed(m.arenas, p) == 1 && RefOf(m.refs, p) == 0 && p !in m.nextAllocation &&
      FindArena(m.arenas, p, 0).Some?
  }

  // ------------------------------------------------- free_pages

  /** `s` is a chain through `next_allocation`: each page links to the next, and the last to NULL. */
  predicate IsChain(next: map<nat, nat>, s: seq<nat>) {
    |s| > 0 && (forall k :: 0 <= k < |s| - 1 ==> s[k] in next && next[s[k]] == s[k + 1]) && s[|s| - 1] !in next
  }

  /** `free_page` is allowed on each page of `s` in turn. */
  predicate CanFreeAll(m: Mem, s: seq<nat>)
    decreases |s|, 0
  {
    |s| == 0 || (CanFreeAll(m, s[..|s| - 1]) && CanFree(FreeAll(m, s[..|s| - 1]), s[|s| - 1]))
  }

  /** `free_page` on each page of `s`, from the first. */
  function FreeAll(m: Mem, s: seq<nat>): Mem
    requires CanFreeAll(m, s)
    decreases |s|, 1
  {
    if |s| == 0 then m else FreePage(FreeAll(m, s[..|s| - 1]), s[|s| - 1])
  }

  /** Whatever may be freed in full may be freed in part. */
  lemma {:induction false} CanFreeAllPrefix(m: Mem, s: seq<nat>, k: nat)
    requires CanFreeAll(m, s) && k <= |s|
    ensures CanFreeAll(m, s[..k])
    decreases |s|
  {
    if k < |s| {
      assert s[..|s| - 1][..k] == s[..k];
      CanFreeAllPrefix(m, s[..|s| - 1], k);
    } else {
      assert s[..k] == s;
    }
  }

  /** Freeing pages one at a time keeps every arena sane and leaves the cursor alone. */
  lemma {:induction false} FreeAllSane(m: Mem, s: seq<nat>)
    requires CanFreeAll(m, s) && AllSane(m.arenas)
    ensures AllSane(FreeAll(m, s).arenas) && |FreeAll(m, s).arenas| == |m.arenas|
    ensures FreeAll(m, s).firstToSearch == m.firstToSearch && FreeAll(m, s).nrGlobalPages == m.nrGlobalPages
    ensures FreeAll(m, s).kernelBreak == m.kernelBreak && FreeAll(m, s).kernelBreakLimit == m.kernelBreakLimit
    decreases |s|
  {
    if |s| > 0 {
      FreeAllSane(m, s[..|s| - 1]);
      FreePageSane(FreeAll(m, s[..|s| - 1]), s[|s| - 1]);
    }
  }

  /** A chain that ends in NULL never revisits a page. */
  lemma ChainDistinct(next: map<nat, nat>, s: seq<nat>)
    requires IsChain(next, s)
    ensures forall i, j :: 0 <= i < j < |s| ==> s[i] != s[j]
  {
    forall i, j | 0 <= i < j < |s| ensures s[i] != s[j] {
      ChainNoRepeat(next, s, i, j);
    }
  }

  lemma {:induction false} ChainNoRepeat(next: map<nat, nat>, s: seq<nat>, i: nat, j: nat)
    requires IsChain(next, s) && i < j < |s|
    ensures s[i] != s[j]
    decreases |s| - j
  {
    if j == |s| - 1 {
      assert s[i] in next;
    } else if s[i] == s[j] {
      assert s[i + 1] == next[s[i]] == s[j + 1];
      ChainNoRepeat(next, s, i + 1, j + 1);
    }
  }

  /** Freeing pages leaves the `next_allocation` of every other page as it was. */
  lemma {:induction false} FreeAllNextOutside(m: Mem, s: seq<nat>, q: nat)
    requires CanFreeAll(m, s) && q !in s
    ensures (q in FreeAll(m, s).nextAllocation) == (q in m.nextAllocation)
    ensures q in m.nextAllocation ==> FreeAll(m, s).nextAllocation[q] == m.nextAllocation[q]
    decreases |s|
  {
    if |s| > 0 {
      FreeAllNextOutside(m, s[..|s| - 1], q);
    }
  }

  // ------------------------------------------------- links of a gathered chain

  /** Gathering one more page links the previous tail to it. */
  lemma LinksAppend(next: map<nat, nat>, s: seq<nat>, p: nat)
    ensures |s| == 0 ==> Links(next, s + [p]) == next
    ensures |s| > 0 ==> Links(next, s + [p]) == Links(next, s)[s[|s| - 1] := p]
  {
    assert (s + [p])[..|s|] == s;
  }

  /** The last page of distinct pages, none linked before, is left unlinked. */
  lemma LinksLast(next: map<nat, nat>, s: seq<nat>)
    requires |s| > 0 && forall i, j :: 0 <= i < j < |s| ==> s[i] != s[j]
    requires s[|s| - 1] !in next
    ensures s[|s| - 1] !in Links(next, s)
  {
    if |s| > 1 {
      LinksOutside(next, s[..|s| - 1], s[|s| - 1]);
    }
  }

  /** Freeing the head of a chain unlinks it, and what is left is the chain of the rest. */
  lemma LinksDropFirst(next: map<nat, nat>, s: seq<nat>)
    requires |s| > 0 && forall i, j :: 0 <= i < j < |s| ==> s[i] != s[j]
    requires forall k :: 0 <= k < |s| ==> s[k] !in next
    ensures Links(next, s) - {s[0]} == Links(next, s[1..])
  {
    var l := Links(next, s) - {s[0]};
    var r := Links(next, s[1..]);
    forall q ensures (q in l <==> q in r) && (q in r ==> l[q] == r[q]) {
      if q == s[0] {
        LinksOutside(next, s[1..], q);
      } else if q in s[1..] {
        var j :| 1 <= j < |s| && s[j] == q;
        if j < |s| - 1 {
          LinksInside(next, s, j);
          LinksInside(next, s[1..], j - 1);
        } else {
          LinksLast(next, s);
          LinksLast(next, s[1..]);
        }
      } else {
        LinksOutside(next, s, q);
        LinksOutside(next, s[1..], q);
      }
    }
  }

  /** A sequence in which no page counts twice holds distinct pages. */
  lemma BagDistinct(s: seq<nat>)
    requires forall q :: multiset(s)[q] <= 1
    ensures forall i, j :: 0 <= i < j < |s| ==> s[i] != s[j]
  {
    forall i, j | 0 <= i < j < |s| ensures s[i] != s[j] {
      assert s == s[..j] + s[j..];
      assert s[i] in s[..j] && s[j] in s[j..];
      assert multiset(s)[s[i]] == multiset(s[..j])[s[i]] + multiset(s[j..])[s[i]];
    }
  }

  // ------------------------------------------------- one page from page_alloc

  /**
   * One page taken from the free lists: it was free, it leaves the lists,
   * one free page less is counted, `used_pages` grows by one, it gains a
   * reference, and the ranges and links are unchanged.
   */
  ghost predicate TookOne(r: Mem, p: nat, r1: Mem) {
    Listed(r.arenas, p) > 0 &&
    (forall q: nat :: Listed(r1.arenas, q) + (if q == p then 1 else 0) == Listed(r.arenas, q)) &&
    TotalFree(r1.arenas) == TotalFree(r.arenas) - 1 &&
    r1.usedPages == r.usedPages + 1 && r1.nrGlobalPages == r.nrGlobalPages &&
    SameRanges(r.arenas, r1.arenas) && AllSane(r1.arenas) &&
    r1.refs == Ref(r.refs, p) && r1.nextAllocation == r.nextAllocation
  }

  /** A one-page `page_alloc` that succeeds takes the head of some free list. */
  lemma PageAllocOne(cfg: Config, r: Mem, limit: bool)
    requires AllSane(r.arenas)
    requires PageAlloc(cfg, r, 1, limit).page.Some?
    ensures TookOne(r, PageAlloc(cfg, r, 1, limit).page.value, PageAlloc(cfg, r, 1, limit).mem)
  {
    var o := PageAlloc(cfg, r, 1, limit);
    var c := r.firstToSearch.value;
    assert c < |r.arenas| by {
      assert o == AllocFrom(cfg, r, 1, limit, c, None);
    }
    PageAllocOutcome(cfg, r, 1, limit);
    var w :| c <= w < |r.arenas| && Served(cfg, r, 1, limit, w, o);
    TakeHead(cfg, r, limit, w, o);
  }

  lemma TakeHead(cfg: Config, r: Mem, limit: bool, w: nat, o: Outcome)
    requires AllSane(r.arenas) && w < |r.arenas| && Served(cfg, r, 1, limit, w, o)
    ensures TookOne(r, o.page.value, o.mem)
  {
    ServedOne(cfg, r, limit, w, o);
    ListedUnlink(r.arenas, w, AllocOne(r.arenas[w], r.refs, r.nextAllocation).arena);
    TotalFreeUpdate(r.arenas, w, AllocOne(r.arenas[w], r.refs, r.nextAllocation).arena);
    SameRangesUpdate(r.arenas, w, AllocOne(r.arenas[w], r.refs, r.nextAllocation).arena);
  }

  /** Serving one page is `page_alloc_one` on the serving arena. */
  lemma ServedOne(cfg: Config, r: Mem, limit: bool, w: nat, o: Outcome)
    requires AllSane(r.arenas) && w < |r.arenas| && Served(cfg, r, 1, limit, w, o)
    ensures |r.arenas[w].pageList| > 0 && o.page == Some(r.arenas[w].pageList[0])
    ensures o.mem.arenas == r.arenas[w := AllocOne(r.arenas[w], r.refs, r.nextAllocation).arena]
    ensures o.mem.refs == Ref(r.refs, r.arenas[w].pageList[0]) && o.mem.nextAllocation == r.nextAllocation
    ensures o.mem.usedPages == r.usedPages + 1 && o.mem.nrGlobalPages == r.nrGlobalPages
    ensures AllSane(o.mem.arenas)
  {
    assert Sane(r.arenas[w]);
    assert AllocFromArena(cfg, r.arenas[w], r.refs, r.nextAllocation, 1, limit) ==
           AllocOne(r.arenas[w], r.refs, r.nextAllocation);
  }

  lemma SameRangesUpdate(arenas: seq<Arena>, w: nat, a: Arena)
    requires w < |arenas| && a.start == arenas[w].start && a.end == arenas[w].end
    ensures SameRanges(arenas, arenas[w := a])
  {
  }

  /** Unlinking the head of free list `w` takes one entry for that page off the count. */
  lemma ListedUnlink(arenas: seq<Arena>, w: nat, a: Arena)
    requires w < |arenas| && |arenas[w].pageList| > 0 && [arenas[w].pageList[0]] + a.pageList == arenas[w].pageList
    ensures Listed(arenas, arenas[w].pageList[0]) > 0
    ensures forall q: nat :: Listed(arenas[w := a], q) + (if q == arenas[w].pageList[0] then 1 else 0) == Listed(arenas, q)
  {
    forall q: nat ensures Listed(arenas[w := a], q) + (if q == arenas[w].pageList[0] then 1 else 0) == Listed(arenas, q) {
      ListedUpdate(arenas, w, a, q);
    }
  }

  // ------------------------------------------------- __get_phys_pages

  /** The pages gathered so far, whether the loop ran to the end, and the state it left. */
  datatype Gathered = Gathered(pages: seq<nat>, mem: Mem, ok: bool)

  /** `ptail->next_allocation = p`, when there is a tail. */
  function LinkTail(m: Mem, pages: seq<nat>, p: nat): Mem {
    if |pages| == 0 then m else m.(nextAllocation := m.nextAllocation[pages[|pages| - 1] := p])
  }

  /**
   * The first `k` rounds of the loop of `__get_phys_pages`: each asks
   * `page_alloc` for one page and appends it to the chain; the first NULL
   * stops the loop.
   */
  function Gather(cfg: Config, m: Mem, k: nat, limit: bool): (g: Gathered)
    requires AllSane(m.arenas)
    ensures AllSane(g.mem.arenas)
    ensures |g.pages| <= k && (g.ok <==> |g.pages| == k)
    decreases k
  {
    if k == 0 then Gathered([], m, true)
    else
      var g := Gather(cfg, m, k - 1, limit);
      if !g.ok then g
      else
        var o := PageAlloc(cfg, g.mem, 1, limit);
        if o.page.None? then Gathered(g.pages, g.mem, false)
        else Gathered(g.pages + [o.page.value], LinkTail(o.mem, g.pages, o.page.value), true)
  }

  /** Once a round has failed, later rounds change nothing. */
  lemma {:induction false} GatherStops(cfg: Config, m: Mem, k: nat, k2: nat, limit: bool)
    requires AllSane(m.arenas) && k <= k2 && !Gather(cfg, m, k, limit).ok
    ensures Gather(cfg, m, k2, limit) == Gather(cfg, m, k, limit)
    decreases k2
  {
    if k < k2 {
      GatherStops(cfg, m, k, k2 - 1, limit);
    }
  }

  /**
   * What gathering `pages` from `m` did: they were free in `m` and left the
   * bag, each gained one reference and was linked to the next, the counts
   * moved by their number, and the free pages left are still coherent.
   */
  ghost predicate Took(m: Mem, pages: seq<nat>, r: Mem) {
    Coherent(r) && SameRanges(m.arenas, r.arenas) &&
    r.usedPages == m.usedPages + |pages| && r.nrGlobalPages == m.nrGlobalPages &&
    TotalFree(r.arenas) == TotalFree(m.arenas) - |pages| &&
    (forall q: nat :: Listed(r.arenas, q) + multiset(pages)[q] == Listed(m.arenas, q)) &&
    (forall q: nat :: RefOf(r.refs, q) == RefOf(m.refs, q) + multiset(pages)[q]) &&
    r.nextAllocation == Links(m.nextAllocation, pages)
  }

  lemma SameRangesTrans(x: seq<Arena>, y: seq<Arena>, z: seq<Arena>)
    requires SameRanges(x, y) && SameRanges(y, z)
    ensures SameRanges(x, z)
  {
  }

  /** Coherence survives taking one more page into the chain. */
  lemma GatherStepCoherent(m: Mem, pages: seq<nat>, r: Mem, p: nat, r1: Mem)
    requires Coherent(m) && Took(m, pages, r) && TookOne(r, p, r1)
    ensures Coherent(LinkTail(r1, pages, p))
  {
    var r2 := LinkTail(r1, pages, p);
    forall q: nat | Listed(r2.arenas, q) > 0
      ensures Listed(r2.arenas, q) == 1 && RefOf(r2.refs, q) == 0 && q !in r2.nextAllocation &&
              FindArena(r2.arenas, q, 0).Some?
    {
      assert Listed(r.arenas, q) == Listed(r2.arenas, q) + (if q == p then 1 else 0);
      assert Listed(m.arenas, q) == Listed(r.arenas, q) + multiset(pages)[q];
      assert q != p;
      assert q !in pages;
      FindArenaRanges(r.arenas, r2.arenas, q, 0);
    }
  }

  /** One more round of the gathering loop keeps `Took`. */
  lemma GatherStep(m: Mem, pages: seq<nat>, r: Mem, p: nat, r1: Mem)
    requires Coherent(m) && Took(m, pages, r) && TookOne(r, p, r1)
    ensures Took(m, pages + [p], LinkTail(r1, pages, p))
  {
    GatherStepCoherent(m, pages, r, p, r1);
    GatherStepCounts(m, pages, r, p, r1);
    SameRangesTrans(m.arenas, r.arenas, r1.arenas);
    LinksAppend(m.nextAllocation, pages, p);
  }

  lemma GatherStepCounts(m: Mem, pages: seq<nat>, r: Mem, p: nat, r1: Mem)
    requires Took(m, pages, r) && TookOne(r, p, r1)
    ensures forall q: nat :: RefOf(LinkTail(r1, pages, p).refs, q) == RefOf(m.refs, q) + multiset(pages + [p])[q]
    ensures forall q: nat :: Listed(LinkTail(r1, pages, p).arenas, q) + multiset(pages + [p])[q] == Listed(m.arenas, q)
  {
    assert multiset(pages + [p]) == multiset(pages) + multiset{p};
  }

  /** The gathering loop, round after round, keeps `Took` from its start state. */
  lemma {:induction false} GatherTook(cfg: Config, m: Mem, k: nat, limit: bool)
    requires Coherent(m)
    ensures Took(m, Gather(cfg, m, k, limit).pages, Gather(cfg, m, k, limit).mem)
    decreases k
  {
    if k == 0 {
      assert Links(m.nextAllocation, []) == m.nextAllocation;
    } else {
      GatherTook(cfg, m, k - 1, limit);
      GatherRound(cfg, m, k, limit);
    }
  }

  /** Round `k` of the gathering loop, given `Took` after round `k - 1`. */
  lemma GatherRound(cfg: Config, m: Mem, k: nat, limit: bool)
    requires Coherent(m) && k > 0
    requires Took(m, Gather(cfg, m, k - 1, limit).pages, Gather(cfg, m, k - 1, limit).mem)
    ensures Took(m, Gather(cfg, m, k, limit).pages, Gather(cfg, m, k, limit).mem)
  {
    var g := Gather(cfg, m, k - 1, limit);
    if g.ok && PageAlloc(cfg, g.mem, 1, limit).page.Some? {
      var o := PageAlloc(cfg, g.mem, 1, limit);
      PageAllocOne(cfg, g.mem, limit);
      GatherStep(m, g.pages, g.mem, o.page.value, o.mem);
    }
  }

  /** A gathered chain is linked page to page and ends in NULL, so `free_pages` walks exactly it. */
  lemma TookChain(m: Mem, s: seq<nat>, f: Mem)
    requires Coherent(m) && Took(m, s, f) && |s| > 0
    ensures IsChain(f.nextAllocation, s)
    ensures forall i, j :: 0 <= i < j < |s| ==> s[i] != s[j]
  {
    TookDistinct(m, s, f);
    forall k | 0 <= k < |s| - 1 ensures s[k] in f.nextAllocation && f.nextAllocation[s[k]] == s[k + 1] {
      LinksInside(m.nextAllocation, s, k);
    }
    LinksLast(m.nextAllocation, s);
  }

  /** The pages of a gathered chain are distinct and none was linked in the start state. */
  lemma TookDistinct(m: Mem, s: seq<nat>, f: Mem)
    requires Coherent(m) && Took(m, s, f)
    ensures forall i, j :: 0 <= i < j < |s| ==> s[i] != s[j]
    ensures forall k :: 0 <= k < |s| ==> s[k] !in m.nextAllocation && RefOf(m.refs, s[k]) == 0
  {
    forall q: nat ensures multiset(s)[q] <= 1 {
      assert Listed(f.arenas, q) + multiset(s)[q] == Listed(m.arenas, q);
    }
    BagDistinct(s);
    forall k | 0 <= k < |s| ensures s[k] !in m.nextAllocation && RefOf(m.refs, s[k]) == 0 {
      assert s[k] in multiset(s);
      assert Listed(f.arenas, s[k]) + multiset(s)[s[k]] == Listed(m.arenas, s[k]);
    }
  }

  // ------------------------------------------------- freeing a gathered chain

  /** `page_free(1, p)` as counts: one more entry for `p`, one more free page, one used page less. */
  ghost predicate GaveOne(f: Mem, p: nat, f1: Mem) {
    (forall q: nat :: Listed(f1.arenas, q) == Listed(f.arenas, q) + (if q == p then 1 else 0)) &&
    TotalFree(f1.arenas) == TotalFree(f.arenas) + 1 && f1.usedPages == f.usedPages - 1 &&
    f1.nrGlobalPages == f.nrGlobalPages && SameRanges(f.arenas, f1.arenas) && AllSane(f1.arenas) &&
    f1.refs == f.refs && f1.nextAllocation == f.nextAllocation
  }

  lemma PageFreeOne(f: Mem, p: nat)
    requires AllSane(f.arenas) && FindArena(f.arenas, p, 0).Some?
    ensures GaveOne(f, p, PageFree(f, 1, p))
  {
    var i := FindArena(f.arenas, p, 0).value;
    var a := PageFreePages(f.arenas[i], p, 1);
    assert Repeat(p, 1) == [p];
    assert Sane(f.arenas[i]);
    forall q: nat ensures Listed(PageFree(f, 1, p).arenas, q) == Listed(f.arenas, q) + (if q == p then 1 else 0) {
      ListedUpdate(f.arenas, i, a, q);
    }
    TotalFreeUpdate(f.arenas, i, a);
  }

  /** Freeing the head of a gathered chain: allowed, and what is left is the gathered rest. */
  lemma FreeHead(m: Mem, s: seq<nat>, f: Mem)
    requires Coherent(m) && Took(m, s, f) && |s| > 0
    ensures CanFree(f, s[0])
    ensures Took(m, s[1..], FreePage(f, s[0]))
  {
    TookDistinct(m, s, f);
    FreeHeadPage(m, s, f);
    FreeHeadCounts(m, s, f);
    LinksDropFirst(m.nextAllocation, s);
    FreeHeadCoherent(m, s, f);
  }

  /** The head of a gathered chain is off the free lists, has one reference and a covering arena. */
  lemma FreeHeadPage(m: Mem, s: seq<nat>, f: Mem)
    requires Coherent(m) && Took(m, s, f) && |s| > 0
    ensures Listed(f.arenas, s[0]) == 0 && RefOf(f.refs, s[0]) == 1 && multiset(s[1..])[s[0]] == 0
    ensures FindArena(f.arenas, s[0], 0).Some?
  {
    assert s == [s[0]] + s[1..];
    assert multiset(s) == multiset{s[0]} + multiset(s[1..]);
    assert Listed(f.arenas, s[0]) + multiset(s)[s[0]] == Listed(m.arenas, s[0]);
    FindArenaRanges(m.arenas, f.arenas, s[0], 0);
  }

  /** Freeing the head puts it back on a free list and drops its reference. */
  lemma FreeHeadCounts(m: Mem, s: seq<nat>, f: Mem)
    requires Took(m, s, f) && |s| > 0 && AllSane(f.arenas)
    requires Listed(f.arenas, s[0]) == 0 && RefOf(f.refs, s[0]) == 1 && multiset(s[1..])[s[0]] == 0
    requires FindArena(f.arenas, s[0], 0).Some?
    ensures SameRanges(m.arenas, FreePage(f, s[0]).arenas)
    ensures FreePage(f, s[0]).usedPages == m.usedPages + |s[1..]| && FreePage(f, s[0]).nrGlobalPages == m.nrGlobalPages
    ensures TotalFree(FreePage(f, s[0]).arenas) == TotalFree(m.arenas) - |s[1..]|
    ensures forall q: nat :: Listed(FreePage(f, s[0]).arenas, q) + multiset(s[1..])[q] == Listed(m.arenas, q)
    ensures forall q: nat :: RefOf(FreePage(f, s[0]).refs, q) == RefOf(m.refs, q) + multiset(s[1..])[q]
    ensures FreePage(f, s[0]).nextAllocation == f.nextAllocation - {s[0]}
  {
    assert s == [s[0]] + s[1..];
    assert multiset(s) == multiset{s[0]} + multiset(s[1..]);
    PageFreeOne(f.(refs := f.refs[s[0] := 0], nextAllocation := f.nextAllocation - {s[0]}), s[0]);
  }

  lemma FreeHeadCoherent(m: Mem, s: seq<nat>, f: Mem)
    requires Coherent(m) && Took(m, s, f) && |s| > 0
    requires Listed(f.arenas, s[0]) == 0 && RefOf(f.refs, s[0]) == 1
    requires FindArena(f.arenas, s[0], 0).Some?
    ensures Coherent(FreePage(f, s[0]))
  {
    var f0 := f.(refs := f.refs[s[0] := 0], nextAllocation := f.nextAllocation - {s[0]});
    PageFreeOne(f0, s[0]);
    var f2 := FreePage(f, s[0]);
    assert f2 == PageFree(f0, 1, s[0]);
    forall q: nat | Listed(f2.arenas, q) > 0
      ensures Listed(f2.arenas, q) == 1 && RefOf(f2.refs, q) == 0 && q !in f2.nextAllocation &&
              FindArena(f2.arenas, q, 0).Some?
    {
      FindArenaRanges(f.arenas, f2.arenas, q, 0);
    }
  }

  /** `free_pages` over the first `i` pages of a gathered chain. */
  lemma {:induction false} FreeAllTook(m: Mem, s: seq<nat>, f: Mem, i: nat)
    requires Coherent(m) && Took(m, s, f) && i <= |s|
    ensures CanFreeAll(f, s[..i])
    ensures Took(m, s[i..], FreeAll(f, s[..i]))
    decreases i
  {
    if i == 0 {
      assert s[..0] == [] && s[0..] == s;
    } else {
      FreeAllTook(m, s, f, i - 1);
      FreeAt(m, s, i, FreeAll(f, s[..i - 1]));
      FreeAllSnoc(f, s, i);
    }
  }

  /** Freeing page `i - 1` of a gathered chain once the pages before it are back. */
  lemma FreeAt(m: Mem, s: seq<nat>, i: nat, g: Mem)
    requires Coherent(m) && 1 <= i <= |s| && Took(m, s[i - 1..], g)
    ensures CanFree(g, s[i - 1]) && Took(m, s[i..], FreePage(g, s[i - 1]))
  {
    assert s[i - 1..][0] == s[i - 1] && s[i - 1..][1..] == s[i..];
    FreeHead(m, s[i - 1..], g);
  }

  /** Freeing the first `i` pages is freeing the first `i - 1`, then page `i - 1`. */
  lemma FreeAllSnoc(f: Mem, s: seq<nat>, i: nat)
    requires 1 <= i <= |s| && CanFreeAll(f, s[..i - 1]) && CanFree(FreeAll(f, s[..i - 1]), s[i - 1])
    ensures CanFreeAll(f, s[..i]) && FreeAll(f, s[..i]) == FreePage(FreeAll(f, s[..i - 1]), s[i - 1])
  {
    assert s[..i][..i - 1] == s[..i - 1] && s[..i][i - 1] == s[i - 1];
  }

  /**
   * `__get_phys_pages`: gather `nr` pages one by one into a chain and return
   * its first page; when a round gets NULL, free the chain gathered so far
   * with `free_pages` and return NULL.
   */
  function GetPhysPages(cfg: Config, m: Mem, nr: nat, limit: bool): (o: Outcome)
    requires Coherent(m)
  {
    var g := Gather(cfg, m, nr, limit);
    if g.ok then Outcome(if nr == 0 then None else Some(g.pages[0]), g.mem)
    else if |g.pages| == 0 then Outcome(None, g.mem)
    else
      GatherTook(cfg, m, nr, limit);
      FreeAllTook(m, g.pages, g.mem, |g.pages|);
      assert g.pages[..|g.pages|] == g.pages;
      Outcome(None, FreeAll(g.mem, g.pages))
  }

  /**
   * A successful `__get_phys_pages` returns the head of a chain of `nr`
   * distinct pages that were free: each now has one reference, the chain
   * runs through `next_allocation` and ends in NULL, `used_pages` grows by
   * `nr`, and the free pages left are still coherent.
   */
  lemma GetPhysPagesSucceeds(cfg: Config, m: Mem, nr: nat, limit: bool)
    requires Coherent(m)
    requires GetPhysPages(cfg, m, nr, limit).page.Some?
    ensures nr > 0 && Gather(cfg, m, nr, limit).ok && |Gather(cfg, m, nr, limit).pages| == nr
    ensures GetPhysPages(cfg, m, nr, limit).page == Some(Gather(cfg, m, nr, limit).pages[0])
    ensures IsChain(GetPhysPages(cfg, m, nr, limit).mem.nextAllocation, Gather(cfg, m, nr, limit).pages)
    ensures Took(m, Gather(cfg, m, nr, limit).pages, GetPhysPages(cfg, m, nr, limit).mem)
    ensures Coherent(GetPhysPages(cfg, m, nr, limit).mem)
    ensures forall k :: 0 <= k < nr ==> RefOf(GetPhysPages(cfg, m, nr, limit).mem.refs, Gather(cfg, m, nr, limit).pages[k]) == 1
  {
    GatherTook(cfg, m, nr, limit);
    TookChain(m, Gather(cfg, m, nr, limit).pages, Gather(cfg, m, nr, limit).mem);
    TookDistinct(m, Gather(cfg, m, nr, limit).pages, Gather(cfg, m, nr, limit).mem);
    forall k | 0 <= k < nr
      ensures RefOf(GetPhysPages(cfg, m, nr, limit).mem.refs, Gather(cfg, m, nr, limit).pages[k]) == 1
    {
      BagOne(Gather(cfg, m, nr, limit).pages, k);
    }
  }

  /** A page of distinct pages counts once. */
  lemma BagOne(s: seq<nat>, k: nat)
    requires k < |s| && forall i, j :: 0 <= i < j < |s| ==> s[i] != s[j]
    ensures multiset(s)[s[k]] == 1
  {
    assert s == s[..k] + [s[k]] + s[k + 1..];
    assert s[k] !in s[..k] && s[k] !in s[k + 1..];
  }

  /**
   * All or nothing: a failed `__get_phys_pages` returns NULL and gives
   * every page it had gathered back. The free pages are the same (each
   * page is on the free lists as often as before), and so are the free and
   * used counts, every page's references and the `next_allocation` links;
   * `free_pages` walked exactly the gathered chain. Only the order of the
   * free lists and the cursor may differ.
   */
  lemma GetPhysPagesAllOrNothing(cfg: Config, m: Mem, nr: nat, limit: bool)
    requires Coherent(m)
    requires GetPhysPages(cfg, m, nr, limit).page.None?
    ensures |Gather(cfg, m, nr, limit).pages| > 0 ==>
      IsChain(Gather(cfg, m, nr, limit).mem.nextAllocation, Gather(cfg, m, nr, limit).pages)
    ensures Coherent(GetPhysPages(cfg, m, nr, limit).mem)
    ensures GetPhysPages(cfg, m, nr, limit).mem.usedPages == m.usedPages
    ensures GetPhysPages(cfg, m, nr, limit).mem.nrGlobalPages == m.nrGlobalPages
    ensures TotalFree(GetPhysPages(cfg, m, nr, limit).mem.arenas) == TotalFree(m.arenas)
    ensures forall q: nat :: Listed(GetPhysPages(cfg, m, nr, limit).mem.arenas, q) == Listed(m.arenas, q)
    ensures forall q: nat :: RefOf(GetPhysPages(cfg, m, nr, limit).mem.refs, q) == RefOf(m.refs, q)
    ensures GetPhysPages(cfg, m, nr, limit).mem.nextAllocation == m.nextAllocation
  {
    GatherTook(cfg, m, nr, limit);
    if |Gather(cfg, m, nr, limit).pages| > 0 {
      TookChain(m, Gather(cfg, m, nr, limit).pages, Gather(cfg, m, nr, limit).mem);
    }
    if Gather(cfg, m, nr, limit).ok || |Gather(cfg, m, nr, limit).pages| == 0 {
      TookNothing(m, Gather(cfg, m, nr, limit).mem);
    } else {
      FreeChainTook(m, Gather(cfg, m, nr, limit).pages, Gather(cfg, m, nr, limit).mem);
      TookNothing(m, FreeAll(Gather(cfg, m, nr, limit).mem, Gather(cfg, m, nr, limit).pages));
    }
  }

  /** Freeing the whole of a gathered chain. */
  lemma FreeChainTook(m: Mem, s: seq<nat>, f: Mem)
    requires Coherent(m) && Took(m, s, f)
    ensures CanFreeAll(f, s) && Took(m, [], FreeAll(f, s))
  {
    FreeAllTook(m, s, f, |s|);
    assert s[..|s|] == s && s[|s|..] == [];
  }

  /** Having taken no pages is having changed nothing that `Took` speaks of. */
  lemma TookNothing(m: Mem, f: Mem)
    requires Took(m, [], f)
    ensures Coherent(f) && f.usedPages == m.usedPages && f.nrGlobalPages == m.nrGlobalPages
    ensures TotalFree(f.arenas) == TotalFree(m.arenas)
    ensures forall q: nat :: Listed(f.arenas, q) == Listed(m.arenas, q)
    ensures forall q: nat :: RefOf(f.refs, q) == RefOf(m.refs, q)
    ensures f.nextAllocation == m.nextAllocation
  {
    assert Links(m.nextAllocation, []) == m.nextAllocation;
  }

  /**
   * `alloc_pages`: with the contiguous flag, one run of `nr` pages from
   * `page_alloc` (`do_alloc_pages_contiguous`); otherwise a chain from
   * `__get_phys_pages`.
   */
  function AllocPages(cfg: Config, m: Mem, nr: nat, contiguous: bool, limit: bool): (o: Outcome)
    requires AllSane(m.arenas) && (contiguous ==> nr >= 1) && (!contiguous ==> Coherent(m))
  {
    if contiguous then PageAlloc(cfg, m, nr, limit) else GetPhysPages(cfg, m, nr, limit)
  }
}
