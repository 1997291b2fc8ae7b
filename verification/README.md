# Onyx kernel: page-frame allocator, key state, tar sizes, SMBIOS and sockets

This project is a Dafny model of five pieces of the Onyx kernel, with proofs
about each.

- **Page-frame allocator** (`kernel/kernel/mm/pagealloc.c`). This is the main part.
  - Physical memory is cut into arenas of at most 2 MiB.
  - Each arena keeps a free list of page addresses, `free_pages`, `nr_pages` and its `[start_arena, end_arena)` range.
  - The chain of arenas is searched from the cursor `main_cpu.first_to_search`.
  - Pages are handed out one at a time (`page_alloc_one`) or as a contiguous run spliced out of a free list (`page_alloc_from_arena`).
  - Multi-page requests that need not be contiguous are gathered page by page into a chain through `next_allocation` (`__get_phys_pages`). The request is all-or-nothing.
  - Pages go back to the first arena whose range covers them once their last reference is dropped.
  - At boot, descriptors come from a bump allocator (`__ksbrk`) and regions are cut into arenas (`page_add_region`).
- **How it is modelled.**
  - Module `PageModel` describes allocation on values, and `PageReturn` the return path.
  - Module `PageSetup` describes the boot-time setup, and `PageChain` the chained multi-page path.
  - Class `PageAlloc.PageAllocator` holds the allocator state in fields and changes it in place with loops. Each of its methods is proved to leave exactly the state those functions describe.
- **Key-state bitmap** (`kernel/kernel/input/state.cpp`). One bit per key in an array of 64-bit words. It supports set, test and toggle.
- **Tar size field** (`kernel/include/kernel/initrd.h`).
  - `Tar::GetSize` reads the 12-byte octal `size` field of a ustar header.
  - The `tar_header` layout is modelled too.
- **SMBIOS** (`kernel/arch/x86_64/smbios.cpp`), over a byte sequence that stands for physical memory.
  - It finds the `_SM_` / `_SM3_` entry point (sections 5.2.1 and 5.2.2 of DSP0134).
  - It walks the structure table (section 6.1.2 of DSP0134).
  - It looks up strings in a structure's string-set (section 6.1.3 of DSP0134).
- **Socket layer** (`kernel/kernel/net/socket.cpp`).
  - The receive queue and its `total_data_in_buffers` accounting, including the packet loop of `recvfrom`.
  - The address-family and protocol tables used when a socket is created.
  - The backlog rules of `listen`.

Three behaviours of the code are worth noting. The model follows the code.

- **The cursor is never rewound.**
  - `page_alloc` searches only from `first_to_search` onward, and `page_free` never moves the cursor back.
  - So a page freed into an arena before the cursor is not found again by `page_alloc`.
  - `PageModel.PageAllocOutcome` states the search over the arenas from the cursor on, and where the cursor moves after a success.
  - `PageModel.CursorNeverRewound` states that a request no arena from the cursor on can serve fails, whatever the arenas before the cursor hold.
- **`free_pages` can differ from the length of the free list.**
  - When a region's size is not a multiple of the page size, `free_pages` is one below the list's length (`PageSetup.UnalignedAreaExtraPage`).
  - `page_free_pages` with more than one page re-adds the same list node `nr` times while raising `free_pages` by `nr` (`PageReturn.PageFreePagesRepeats`; see "Left out" for how the model represents the re-added node).
  - The class therefore keeps the weaker invariant `free_pages <= |free list|` (`PageModel.Sane`).
  - The exact accounting (`PageModel.Accounted`) is proved for page-aligned regions.
- **Freed pages go to the tail.** A freed page is appended at the tail of the free list, so the list does not stay in address order. The contiguous search is modelled on the list as it is, with the unsigned pointer difference of the code.

## Model

| member | source | states |
|---|---|---|
| `PageModel.AllocOne` | kernel/kernel/mm/pagealloc.c:70-101 | The page returned is the first free-list entry. The list loses exactly that entry, `free_pages` drops by one and that page gains one reference. No other page's reference, no link and no other arena field changes. |
| `PageAlloc.PageAllocator.AllocOne` | kernel/kernel/mm/pagealloc.c:82-90 | The in-place unlink leaves arena `i` and the reference map as `PageModel.AllocOne` gives them. Every other part of the allocator state is unchanged. |
| `PageModel.SearchFindsFirstRun` | kernel/kernel/mm/pagealloc.c:122-150 | The contiguous search reports the first run of `n` entries that pass the contiguity test. The test compares each node with its successor; the last node's successor is the list head taken through `container_of`, 24 bytes past the arena descriptor. With the 4 GiB flag, no entry of that run lies above 4 GiB. It reports no run only when none exists, and it bails out only when the flag is set. |
| `PageModel.SearchSucceedsIffRun` | kernel/kernel/mm/pagealloc.c:122-157 | Without the 4 GiB flag the search succeeds exactly when some qualifying run exists. |
| `PageAlloc.PageAllocator.ScanArena` | kernel/kernel/mm/pagealloc.c:122-150 | The scan loop over the free list returns what the search specification reports. |
| `PageModel.AllocFromArena` | kernel/kernel/mm/pagealloc.c:103-205 | A failure returns NULL with the arena, references and links unchanged. A success lowers `free_pages` and the list length by exactly `n`. The range, `nr_pages` and the descriptor never change. |
| `PageModel.TooFewFails` | kernel/kernel/mm/pagealloc.c:112-116 | An arena with fewer than `n` free pages gives NULL and changes nothing. |
| `PageModel.ContiguousTakesRun` | kernel/kernel/mm/pagealloc.c:153-169 | A contiguous allocation succeeds only with enough free pages and a run found by the search. It returns the run's first page and leaves the list with exactly that run spliced out. Without the 4 GiB flag it succeeds if and only if there are enough free pages and a run exists. |
| `PageModel.RunRefsAndLinks` | kernel/kernel/mm/pagealloc.c:176-201 | Each page of a run of distinct pages gains exactly one reference and is linked to the next page of the run in list order. No other page's reference or link changes. |
| `PageAlloc.PageAllocator.RefAndLink` | kernel/kernel/mm/pagealloc.c:176-201 | The loop over the run leaves the references and links as `RefAll` and `Links` of the run, and nothing else changes. |
| `PageAlloc.PageAllocator.TakeRun` | kernel/kernel/mm/pagealloc.c:160-203 | The success branch lowers `free_pages` by `n`, splices entries `[b, b+n)` out of the list, references and chains exactly those pages, and returns the first of them. |
| `PageAlloc.PageAllocator.AllocFromArena` | kernel/kernel/mm/pagealloc.c:103-205 | The method leaves arena `i`, the references and the links as `PageModel.AllocFromArena` specifies, and returns its page. |
| `PageModel.PageAlloc` | kernel/kernel/mm/pagealloc.c:207-245 | A failed `page_alloc` leaves the whole state unchanged. A success keeps the number of arenas, and every arena stays sane. |
| `PageModel.PageAllocOutcome` | kernel/kernel/mm/pagealloc.c:212-244 | From the cursor, the first arena that can serve the request does, and every arena before it is passed over. NULL means every arena was passed over, up to the end or, with the flag, up to one that starts above 4 GiB; NULL leaves the state unchanged. After a success served by arena `w`, the cursor is `last_with_pages`: the first arena from the old cursor on with free pages. When that is `w` itself, now empty, and another arena follows, the cursor moves to `w + 1`. So it lies at or after its old position, and every arena it skipped has no free page. |
| `PageModel.AllocFromCursor` | kernel/kernel/mm/pagealloc.c:220-238 | From any point of the arena loop, with `last_with_pages` recorded since the search began, a success sets the cursor by the rule above. |
| `PageModel.FirstWithPages` | kernel/kernel/mm/pagealloc.c:220-221 | `last_with_pages` on reaching arena `w`: every arena before it has `free_pages` 0, and it has free pages unless it is `w` itself. |
| `PageModel.CursorNeverRewound` | kernel/kernel/mm/pagealloc.c:212-244 | When no arena from the cursor on has `n` free pages, `page_alloc` gives NULL and changes nothing, however many free pages the arenas before the cursor have. |
| `PageModel.PageAllocAccounted` | kernel/kernel/mm/pagealloc.c:223-228 | `page_alloc` keeps the accounting: the free pages of all arenas plus `used_pages` still equal `nr_global_pages`, and every arena's `free_pages` still equals its list length. |
| `PageAlloc.PageAllocator.PageAlloc` | kernel/kernel/mm/pagealloc.c:207-245 | The loop over the arena chain returns the page and leaves the state `PageModel.PageAlloc` specifies. The allocator stays valid, and coherent if it was. |
| `PageCoherence.PageAllocCoherent` | kernel/kernel/mm/pagealloc.c:207-245 | `page_alloc` keeps coherence: every free page stays listed once, unreferenced, unlinked and covered by an arena. |
| `PageAlloc.PageAllocator.TryArena` | kernel/kernel/mm/pagealloc.c:226-240 | An arena with enough free pages is tried. A failure changes nothing, and the search from this arena then comes to the same as the search from the next one. A success leaves exactly the outcome of the search from this arena. |
| `PageReturn.FindArena` | kernel/kernel/mm/pagealloc.c:269-273 | An arena found for an address covers it: `start_arena <= addr < end_arena`. |
| `PageReturn.FindArenaFirst` | kernel/kernel/mm/pagealloc.c:269-279 | The walk from the head of the chain finds the first covering arena, and finds none only when no arena covers the address. |
| `PageReturn.PageFreePagesRepeats` | kernel/kernel/mm/pagealloc.c:253-259 | Freeing `nr` pages re-adds the list node of the given address `nr` times, which the model records as `nr` more occurrences of that address, and leaves every other address's count alone. |
| `PageReturn.PageFree` | kernel/kernel/mm/pagealloc.c:266-282 | Returning pages leaves every arena's range as it was. |
| `PageReturn.PageFreeAccounted` | kernel/kernel/mm/pagealloc.c:266-282 | `page_free` keeps the accounting, and the free pages of all arenas grow by exactly `nr`. |
| `PageAlloc.PageAllocator.PageFreePages` | kernel/kernel/mm/pagealloc.c:247-264 | The loop re-adds the address's list node to arena `i`'s list `nr` times, recorded as `nr` appended occurrences, and raises `free_pages` by `nr`. Nothing else changes. |
| `PageAlloc.PageAllocator.FindCovering` | kernel/kernel/mm/pagealloc.c:269-279 | The walk over the chain returns the first covering arena, as `PageReturn.FindArena` specifies. |
| `PageAlloc.PageAllocator.PageFree` | kernel/kernel/mm/pagealloc.c:266-282 | The state afterwards is that of `PageReturn.PageFree`. From a coherent state, it is coherent exactly when the conditions of `PageCoherence.PageFreeCoherent` hold. |
| `PageCoherence.PageFreeCoherent` | kernel/kernel/mm/pagealloc.c:247-282 | From a coherent state, `page_free` leaves a coherent one exactly when `nr` is 0, or `nr` is 1 and the page was neither free, referenced nor linked. With `nr` above 1, or a page already free, the same list node is re-added, which the model records as the address being listed twice or more. |
| `PageReturn.FreePage` | kernel/kernel/mm/pagealloc.c:433-443 | `free_page` lowers the page's reference count by one, changes no other page's count, and keeps every arena's range. |
| `PageReturn.FreePageReturns` | kernel/kernel/mm/pagealloc.c:438-442 | Only the last reference returns the page. It goes to the tail of the first arena that covers it, that arena gains one free page, `used_pages` drops by one and the page's link is cleared. With more references nothing but the count changes. |
| `PageReturn.FreePageSane` | kernel/kernel/mm/pagealloc.c:433-443 | `free_page` keeps every arena sane and leaves the cursor, `nr_global_pages` and the break alone. |
| `PageReturn.FreePageAccounted` | kernel/kernel/mm/pagealloc.c:433-443 | `free_page` keeps the accounting. |
| `PageAlloc.PageAllocator.FreePage` | kernel/kernel/mm/pagealloc.c:433-443 | The state afterwards is that of `PageReturn.FreePage`, coherent if it was. |
| `PageCoherence.FreePageCoherent` | kernel/kernel/mm/pagealloc.c:433-443 | `free_page` keeps coherence: a page with a reference to drop is not free. |
| `PageReturn.ReclaimPageAdds` | kernel/kernel/mm/pagealloc.c:510-520 | A reclaimed page ends on the free list of its arena with no reference. The accounting is kept, the free pages and `nr_global_pages` grow by one, and `used_pages` is back where it was. |
| `PageAlloc.PageAllocator.ReclaimPage` | kernel/kernel/mm/pagealloc.c:510-520 | The state afterwards is that of `PageReturn.ReclaimPage`. From a coherent state, it is coherent exactly when the page was not free. |
| `PageCoherence.ReclaimPageCoherent` | kernel/kernel/mm/pagealloc.c:510-520 | From a coherent state, `__reclaim_page` keeps coherence exactly when the page was on no free list; otherwise its list node is re-added, which the model records as the address being listed twice. |
| `PageChain.ChainDistinct` | kernel/kernel/mm/pagealloc.c:421-431 | A chain through `next_allocation` that ends in NULL never visits a page twice. |
| `PageChain.FreeAllSane` | kernel/kernel/mm/pagealloc.c:421-431 | Freeing a chain page by page keeps every arena sane and leaves the cursor, `nr_global_pages` and the break alone. |
| `PageAlloc.PageAllocator.FreePages` | kernel/kernel/mm/pagealloc.c:421-431 | Following `next_allocation` from the first page and freeing each page leaves the state of freeing the chain's pages in order, coherent if it was. |
| `PageCoherence.FreeAllCoherent` | kernel/kernel/mm/pagealloc.c:421-431 | Freeing a chain page by page keeps coherence. |
| `PageChain.Gather` | kernel/kernel/mm/pagealloc.c:456-482 | The gathering loop keeps every arena sane, gathers at most `nr` pages, and reports success exactly when it gathered all `nr`. |
| `PageChain.GatherStops` | kernel/kernel/mm/pagealloc.c:458-466 | Once a round has failed, further rounds change nothing. |
| `PageChain.GatherTook` | kernel/kernel/mm/pagealloc.c:456-482 | Every page gathered was free at the start. It left the free lists and gained exactly one reference, it is linked to the next gathered page, and the counts moved by the number of pages. The free pages that are left stay coherent. |
| `PageChain.GetPhysPagesSucceeds` | kernel/kernel/mm/pagealloc.c:450-485 | A successful `__get_phys_pages` returns the head of a NULL-terminated chain of `nr` distinct pages that were free. Each has one reference now, `used_pages` grew by `nr`, and the state is still coherent. |
| `PageChain.GetPhysPagesAllOrNothing` | kernel/kernel/mm/pagealloc.c:456-465 | A failed `__get_phys_pages` hands back every page it gathered. Each page is on the free lists as often as before, every reference count and link is as before, and the free and used counts are unchanged. Only the order of the free lists and the cursor may differ. |
| `PageAlloc.PageAllocator.GatherPages` | kernel/kernel/mm/pagealloc.c:456-482 | The loop gathers the pages, the final state and the success flag that `PageChain.Gather` specifies, and returns the head of the chain. |
| `PageAlloc.PageAllocator.Abandon` | kernel/kernel/mm/pagealloc.c:460-466 | The failure branch frees the chain gathered so far and leaves the state of a failed `__get_phys_pages`. |
| `PageCoherence.GetPhysPagesCoherent` | kernel/kernel/mm/pagealloc.c:450-485 | `__get_phys_pages` keeps coherence, whether it succeeds or hands everything back. |
| `PageAlloc.PageAllocator.GetPhysPages` | kernel/kernel/mm/pagealloc.c:450-485 | The method returns the page and leaves the state that `PageChain.GetPhysPages` specifies. The allocator stays valid and coherent. |
| `PageAlloc.PageAllocator.AllocPages` | kernel/kernel/mm/pagealloc.c:501-508 | With the contiguous flag the result is one `page_alloc` of `nr` pages. Otherwise it is the chain of `__get_phys_pages`. The allocator stays valid, and coherent if it was. |
| `PageCoherence.AllocPagesCoherent` | kernel/kernel/mm/pagealloc.c:501-508 | `alloc_pages` keeps coherence, contiguous or not. |
| `PageSetup.Ksbrk` | kernel/kernel/mm/pagealloc.c:406-413 | `__ksbrk` returns the old break and moves the break by `inc`, never past the limit. Nothing else changes. |
| `PageSetup.KsbrkAdjacent` | kernel/kernel/mm/pagealloc.c:406-413 | Two calls in a row hand out adjacent blocks, and the break moves by their total. |
| `PageSetup.Kbrk` | kernel/kernel/mm/pagealloc.c:415-419 | `__kbrk` sets the break and its limit and nothing else. |
| `PageAlloc.PageAllocator.Ksbrk` | kernel/kernel/mm/pagealloc.c:406-413 | The method returns and leaves what `PageSetup.Ksbrk` gives. Coherence is unaffected. |
| `PageAlloc.PageAllocator.Kbrk` | kernel/kernel/mm/pagealloc.c:415-419 | The state afterwards is that of `PageSetup.Kbrk`. Coherence is unaffected. |
| `PageAlloc.PageAllocator.PageAdd` | kernel/kernel/mm/pagealloc.c:286-299 | A page in use is refused with -1 and nothing changes. Any other page is appended to the arena's list and counted in `nr_global_pages`. |
| `PageAlloc.PageAllocator.AppendArena` | kernel/kernel/mm/pagealloc.c:301-308 | The arena goes to the end of the chain, and nothing else changes. |
| `PageSetup.NewArenaPages` | kernel/kernel/mm/pagealloc.c:319-329 | A new arena's free list holds, in rising order, exactly the page addresses the loop visits that are not in use. |
| `PageSetup.NewArenaCounted` | kernel/kernel/mm/pagealloc.c:319-329 | For a whole number of pages, the loop visits exactly `nr_pages` pages and `free_pages` equals the list's length. |
| `PageSetup.NewArenaSane` | kernel/kernel/mm/pagealloc.c:319-329 | Every arena built has `free_pages` no larger than its list. |
| `PageSetup.UnalignedAreaExtraPage` | kernel/kernel/mm/pagealloc.c:319-329 | When the area is not a whole number of pages, the loop visits one page that runs past the arena's end. `free_pages` then ends one below the list's length. |
| `PageSetup.UnalignedAllUsedWraps` | kernel/kernel/mm/pagealloc.c:319-329 | When the area is not a whole number of pages and every visited page is in use, the free list is empty and `free_pages` is -1. As an `unsigned long` that is 2^64 - 1. |
| `PageSetup.AddArena` | kernel/kernel/mm/pagealloc.c:314-331 | One round appends the arena built in the descriptor `__ksbrk` handed out, and moves the break by one descriptor. References, links, `used_pages` and the cursor are unchanged. |
| `PageAlloc.PageAllocator.AddArena` | kernel/kernel/mm/pagealloc.c:314-331 | The page-by-page loop leaves the state of `PageSetup.AddArena`. It is coherent if it was and the area held no page the allocator manages. |
| `PageCoherence.AddArenaCoherent` | kernel/kernel/mm/pagealloc.c:314-331 | One arena over memory the allocator does not manage keeps coherence. Each of its pages is listed once and is covered by an arena. |
| `PageSetup.SpansEnds` | kernel/kernel/mm/pagealloc.c:312-335 | A region is cut into spans from `base` to `base + size`. Every span but the last covers 2 MiB, and none is empty or larger. |
| `PageSetup.SpansConsecutive` | kernel/kernel/mm/pagealloc.c:312-335 | Each span starts where the one before it ends and takes the next descriptor. |
| `PageSetup.SpansBounded` | kernel/kernel/mm/pagealloc.c:314 | Every span is non-empty and at most 2 MiB. |
| `PageSetup.Region` | kernel/kernel/mm/pagealloc.c:312-335 | The region loop appends one arena per span, in order. References, links, `used_pages`, the cursor and the break limit are unchanged. |
| `PageSetup.AddArenaAccounted` | kernel/kernel/mm/pagealloc.c:286-299 | An arena of whole pages keeps the accounting: `nr_global_pages` grows by exactly the pages not in use. |
| `PageSetup.RegionAccounted` | kernel/kernel/mm/pagealloc.c:312-335 | Setting up a region of whole pages keeps the accounting. |
| `PageSetup.AddRegionAccounted` | kernel/kernel/mm/pagealloc.c:310-339 | `page_add_region` keeps the accounting. Afterwards the cursor is set exactly when it was set before or some arena exists. |
| `PageAlloc.PageAllocator.AddRegion` | kernel/kernel/mm/pagealloc.c:310-339 | The loop leaves the state of `PageSetup.AddRegion`, and the allocator stays valid. It is coherent if it was and the region held no page the allocator manages. |
| `PageCoherence.RegionCoherent` | kernel/kernel/mm/pagealloc.c:312-335 | The region loop over memory the allocator does not manage keeps coherence. |
| `PageCoherence.AddRegionCoherent` | kernel/kernel/mm/pagealloc.c:310-339 | `page_add_region` over memory the allocator does not manage keeps coherence. |
| `PageAlloc.PageAllocator.constructor` | kernel/kernel/mm/pagealloc.c:400-403 | Before `page_init` there are no arenas and no cursor and nothing is counted. The break is at `kernel_end` and its limit is NULL. The accounting holds and the state is coherent. |
| `PageSetup.GetStats` | kernel/kernel/mm/pagealloc.c:392-398 | `page_get_stats` reports `nr_global_pages` as the total and `used_pages` as allocated. The page-cache and heap counts are passed through. |
| `PageSetup.StatsBalance` | kernel/kernel/mm/pagealloc.c:392-398 | With the accounting kept, the pages reported allocated are the total less the free ones. |
| `PageAlloc.PageAllocator.GetStats` | kernel/kernel/mm/pagealloc.c:392-398 | The method returns what `PageSetup.GetStats` reports for the current state. |
| `InputState.KeyState.IsPressed` | kernel/kernel/input/state.cpp:25-31 | A key reads as pressed exactly when bit `key % 64` of word `key / 64` is set. |
| `InputState.KeyState.SetKeyState` | kernel/kernel/input/state.cpp:13-22 | The words become `WithKey` of the old words. The key then reads as `pressed`, and every other key reads as before. |
| `InputState.KeyState.ToggleKey` | kernel/kernel/input/state.cpp:34-40 | The key's bit flips and the new value is returned. Every other key reads as before. |
| `KeyBits.SetThenTest` | kernel/kernel/input/state.cpp:13-31 | After setting a key to `pressed`, testing it gives `pressed`. |
| `KeyBits.SetLeavesOthers` | kernel/kernel/input/state.cpp:18-21 | Setting or clearing one key leaves another given key as it was. |
| `KeyBits.SetLeavesAllOthers` | kernel/kernel/input/state.cpp:18-21 | Setting or clearing one key leaves every other key as it was. |
| `KeyBits.ToggleFlips` | kernel/kernel/input/state.cpp:39 | Toggling a key inverts its pressed state. |
| `KeyBits.ToggleLeavesOthers` | kernel/kernel/input/state.cpp:36-39 | Toggling one key leaves another given key as it was. |
| `KeyBits.ToggleLeavesAllOthers` | kernel/kernel/input/state.cpp:36-39 | Toggling one key leaves every other key as it was. |
| `KeyBits.ToggleTwice` | kernel/kernel/input/state.cpp:39 | Toggling the same key twice restores the words exactly. |
| `KeyBits.DistinctKeysDistinctBits` | kernel/kernel/input/state.cpp:10-16 | Two different keys in the same word have disjoint masks. |
| `KeyBits.BitIndexExact` | kernel/kernel/input/state.cpp:16 | The bit position of a key is `key % 64`. |
| `KeyBits.MaskSingleBit` | kernel/kernel/input/state.cpp:19 | No two bits of `1UL << bit_idx` are set at once. |
| `Tar.FieldsOfLayout` | kernel/include/kernel/initrd.h:20-30 | Reading back a laid-out header gives the same header. |
| `Tar.LayoutOfFields` | kernel/include/kernel/initrd.h:20-30 | Laying out the header read from some bytes gives those bytes back. |
| `Tar.GetSize` | kernel/include/kernel/initrd.h:41-50 | The loop computes the sum as written, with the place value kept in an `unsigned int`. |
| `Tar.AsWrittenIsOctalMod32` | kernel/include/kernel/initrd.h:44-48 | For a field of octal digits, `GetSize` as written returns the field's octal value reduced modulo 2^32. |
| `Tar.AsWrittenExactBelowLead` | kernel/include/kernel/initrd.h:47-48 | From the second digit on, the sum as written equals the exact octal value: nothing below the leading digit wraps. |
| `Tar.AsWrittenBounds` | kernel/include/kernel/initrd.h:44-49 | For octal digits, the result as written is below 2^32 and below 8^11. |
| `Tar.ZerosGiveZero` | kernel/include/kernel/initrd.h:44-49 | A field of eleven '0' characters gives 0. |
| `Tar.IgnoresTerminator` | kernel/include/kernel/initrd.h:47-48 | Only `in[0]` to `in[10]` are read. Two fields that agree there give the same size, whatever their terminator byte. |
| `Tar.FourGiBReadsAsZero` | kernel/include/kernel/initrd.h:46-48 | The field "40000000000" has the value 2^32, but `GetSize` as written returns 0. |
| `Tar.GetSizeWide` | kernel/include/kernel/initrd.h:41-50 | The loop with a 64-bit place value returns the field's big-endian octal value modulo 2^64. |
| `Tar.WideIsOctal` | kernel/include/kernel/initrd.h:41-50 | For octal digits that value lies in `[0, 8^11)`, so no reduction happens and the size is exact. |
| `Tar.ExactFromBounds` | kernel/include/kernel/initrd.h:47-48 | The exact sum of the digits from position `k` on lies in `[0, 8^(11-k))`. |
| `Smbios.FirstMatchIsLeast` | kernel/arch/x86_64/smbios.cpp:20-33 | The search returns `lower + i*alignment` for the least candidate `i` whose bytes match the anchor. It returns NULL only when no candidate matches. |
| `Smbios.FindPhysMem` | kernel/arch/x86_64/smbios.cpp:20-33 | The scan loop returns the first matching candidate, as `FirstMatch` specifies. |
| `Smbios.FindEntry32` | kernel/arch/x86_64/smbios.cpp:36-39 | The 32-bit entry point is the first "_SM_" match in 0xF0000..0xFFFFF on 16-byte boundaries. |
| `Smbios.FindEntry64` | kernel/arch/x86_64/smbios.cpp:42-45 | The 64-bit entry point is the first "_SM3_" match in the same window. |
| `Smbios.SearchWindow` | kernel/arch/x86_64/smbios.cpp:23 | The window holds 4095 candidates, the last at 0xFFFE0. The paragraph at 0xFFFF0 is never searched. |
| `Smbios.FindTables` | kernel/arch/x86_64/smbios.cpp:50-78 | The table address is the one `Tables` defines. Under EFI none is found, and any address found fits in 64 bits. |
| `Smbios.NoTablesUnderEfi` | kernel/arch/x86_64/smbios.cpp:53-54 | Under EFI no table is found. |
| `Smbios.Prefers64` | kernel/arch/x86_64/smbios.cpp:55-75 | If a "_SM3_" anchor is at any candidate, the table address comes from the first 64-bit entry point, whatever the 32-bit search would find. |
| `Smbios.StringSetEnd` | kernel/arch/x86_64/smbios.cpp:89-95 | A string-set ends just past two consecutive zero bytes. |
| `Smbios.WalkFindsFirst` | kernel/arch/x86_64/smbios.cpp:84-98 | The walk returns the first of the first `nr_structs` structures whose type matches. It returns NULL only when those structures are all of other types and the structure after them can be located. It runs off memory only at a structure it cannot read or whose string-set does not end within memory. |
| `Smbios.WalkNotFoundIff` | kernel/arch/x86_64/smbios.cpp:84-98 | NULL exactly when the first `nr_structs` structures are all of other types and the walk can step past the last of them. The loop computes the next structure even after the last one it examines, so a last string-set that does not end within memory gives `OffEnd` instead. |
| `Smbios.WalkEncodedTable` | kernel/arch/x86_64/smbios.cpp:84-98 | On a table of well-formed structures laid out as section 6.1 of DSP0134 describes, walking all of them finds exactly the first structure of the wanted type. It never runs off memory. |
| `Smbios.EncodedStringSetEnd` | kernel/arch/x86_64/smbios.cpp:89-95 | The string-set end the walk computes is exactly the end of an encoded string-set. |
| `Smbios.SmbiosTables.constructor` | kernel/arch/x86_64/smbios.cpp:17-18 | `tables` starts unset, and `nr_structs` is the given count. |
| `Smbios.SmbiosTables.Locate` | kernel/arch/x86_64/smbios.cpp:118 | `smbios_init` sets `tables` to the address `smbios_find_tables` gives. |
| `Smbios.SmbiosTables.GetTable` | kernel/arch/x86_64/smbios.cpp:80-99 | With `tables` unset the result is NULL. Otherwise the nested loops return the walk's outcome over `nr_structs` structures. |
| `Smbios.GetString` | kernel/arch/x86_64/smbios.cpp:101-111 | String number `k >= 1` starts after `k-1` NUL-terminated strings of the string-set. Number 0 gives NULL. |
| `Smbios.GetStringOfEncoded` | kernel/arch/x86_64/smbios.cpp:101-111 | On a well-formed structure, string number `k` with `1 <= k <= |strings|` is exactly the `k`-th of its strings. |
| `Smbios.AsWrittenZeroNeverExits` | kernel/arch/x86_64/smbios.cpp:104-109 | As written, string number 0 never satisfies the loop's exit test. |
| `Smbios.AsWrittenSkipsFromOne` | kernel/arch/x86_64/smbios.cpp:104-109 | As written, any index from 1 on skips exactly `strndx - 1` strings, as `GetString` does. |
| `Socket.RecvQueue.AddPacket` | kernel/kernel/net/socket.cpp:250-258 | The packet goes to the tail, and the counter grows by exactly its size. An unread packet keeps a valid queue valid. |
| `Socket.RecvQueue.ClearPackets` | kernel/kernel/net/socket.cpp:146-164 | The list is emptied and each packet's unread bytes are subtracted. From a valid queue the counter ends at 0, which is what the destructor asserts. |
| `Socket.RecvQueue.HasDataAvailable` | kernel/kernel/net/socket.cpp:190-203 | With MSG_WAITALL, data is available exactly when the unread bytes of a valid queue reach the amount asked for. Without it, exactly when some packet is queued. |
| `Socket.RecvQueue.WaitAllImpliesQueued` | kernel/kernel/net/socket.cpp:190-203 | When MSG_WAITALL finds at least one byte buffered, some packet is queued. |
| `Socket.RecvQueue.GetRecvPacketList` | kernel/kernel/net/socket.cpp:217-240 | A non-blocking call without data fails with EAGAIN. The call proceeds exactly when data is available, and otherwise sleeps. |
| `Socket.RecvQueue.TakeFrom` | kernel/kernel/net/socket.cpp:124-135 | The removal step leaves what `Kept` says of the packet and uncounts exactly the bytes no longer queued. |
| `Socket.RecvQueue.RecvFrom` | kernel/kernel/net/socket.cpp:71-144 | EAGAIN and a sleep leave the queue unchanged. A ready call returns what the packet loop copies, with the first packet's source address when one is asked for, and leaves what the loop keeps. The queue stays valid. |
| `Socket.RecvQueue.ReadPackets` | kernel/kernel/net/socket.cpp:86-139 | The packet loop returns the bytes and leaves the queue that `Drain` specifies, and the counter stays in step. |
| `Socket.RecvQueue.CopyLoop` | kernel/kernel/net/socket.cpp:86-139 | The loop's bytes and kept packets, followed by the packets it did not visit, are `Drain`'s outcome. The counter covers exactly what stays queued. |
| `Socket.UnreadIsStreamLength` | kernel/kernel/net/socket.cpp:127-131 | `total_data_in_buffers` of a valid queue is exactly the number of unread bytes queued. |
| `Socket.ChunkIsFront` | kernel/kernel/net/socket.cpp:110-114 | One pass copies `min(len, size - read)` bytes from the front of the packet's unread bytes. |
| `Socket.PeekKeepsQueue` | kernel/kernel/net/socket.cpp:124-135 | With MSG_PEEK the queue is left exactly as it was, `read` fields included. |
| `Socket.DrainIsStreamPrefix` | kernel/kernel/net/socket.cpp:110-122 | What is copied is a prefix of the queue's unread bytes in order, and never more than `len`. |
| `Socket.DrainConsumesCopied` | kernel/kernel/net/socket.cpp:110-135 | On a stream socket, removing data consumes exactly the bytes copied. The unread bytes afterwards are the old ones without the copied front. |
| `Socket.DrainKeepsReadWithin` | kernel/kernel/net/socket.cpp:124-135 | The packets left queued still have `read <= size`. |
| `Socket.DatagramTakesOnePacket` | kernel/kernel/net/socket.cpp:129-138 | On a datagram socket one packet is consumed whole, even when `len` is smaller than it. |
| `Socket.CheckAfSupport` | kernel/kernel/net/socket.cpp:518-529 | `check_af_support` answers 0 exactly for AF_INET and AF_UNIX, and -1 for every other family. |
| `Socket.AutodetectTable` | kernel/kernel/net/socket.cpp:540-571 | This is the table of detected protocols. DGRAM gives UNIX or UDP, RAW gives UNIX or IPV4, STREAM gives TCP on AF_INET only. Every other combination, SEQPACKET included, gives -1. |
| `Socket.AutodetectIgnoresFlags` | kernel/kernel/net/socket.cpp:531-542 | SOCK_NONBLOCK and SOCK_CLOEXEC in the type argument do not change the protocol. |
| `Socket.AutodetectNeedsSupportedFamily` | kernel/kernel/net/socket.cpp:540-571 | A protocol is detected only for an address family that `check_af_support` accepts. |
| `Socket.NormalizeBacklog` | kernel/kernel/net/socket.cpp:474-481 | A backlog of 0 becomes 16 and anything above 4096 becomes 4096. Any other value is kept, and the result never exceeds 4096. |
| `Socket.NormalizeBacklogIdempotent` | kernel/kernel/net/socket.cpp:474-481 | Normalising twice changes nothing more. |
| `Socket.NormalizedBacklogListens` | kernel/kernel/net/socket.cpp:449-481 | A normalised non-negative backlog is non-zero, so the socket counts as listening, and it is at most 4096. |
| `Socket.Listen` | kernel/kernel/net/socket.cpp:455-510 | `sys_listen`, with the evidently intended guard. A type that cannot listen gets -EOPNOTSUPP and keeps its backlog. An interrupted lock gives -EINTR and keeps the backlog. A failing protocol `listen` resets the backlog to 0. A success records the normalised backlog. |
| `Socket.StreamListen` | kernel/kernel/net/socket.cpp:494-503 | Listening on a stream socket either succeeds with a backlog in `(0, 4096]`, or fails and leaves the socket not listening. |
| `Socket.ListenGuardRejectsAll` | kernel/kernel/net/socket.cpp:464 | The guard as written is true for every socket type. |
| `Socket.ListenAsWritten` | kernel/kernel/net/socket.cpp:455-510 | As written, every call fails with -EOPNOTSUPP and leaves the backlog alone. |

## Left out

- Locks, the atomic updates of `used_pages` and all concurrency. Every operation is modelled as one sequential step, with each arena's critical section atomic.
- Zero-filling pages (`set_non_temporal`), which writes page contents. The model does not hold page contents.
- Parts of `page_init` that are not modelled:
  - `alloc_boot_page`, `halt` and `page_allocate_pagemap`;
  - the `printf`;
  - the `get_phys_mem_region` callback.
  The caller supplies each region to `AddRegion`.
- The bump range set by `__kbrk` is modelled; the size computation of `page_init` is not.
- Physical-to-virtual mapping and page records. `PHYS_BASE` and the descriptor size are the fields of `PageModel.Config`.
  - A free-list node lies at `PHYS_BASE` plus the page's address.
  - A page is named by its physical address, so `page_add_page` and `phys_to_page` are the identity.
- `page_is_used` becomes a given set of pages in use.
- `page.h`, `list.h` and `spinlock.h` are not part of this model. The free list is a sequence, and `list_remove_bulk` is `PageModel.Splice`.
- `PageReturn.PageFreePagesRepeats`, `PageAlloc.PageAllocator.PageFreePages`, `PageCoherence.PageFreeCoherent`, `PageCoherence.ReclaimPageCoherent`: the source's free list is intrusive, with one `list_node` per page. Adding a node that is already on the list relinks it and corrupts the list; with a Linux-style `list_add_tail` the node ends up linked to itself. The model's sequence instead lists the address again. So only `nr == 1` on a page that is not already free is faithful; `page_free` with `nr` above 1, and reclaiming or freeing a page that is already free, are modelled as duplicate entries rather than as a corrupted list. The coherence lemmas rule out exactly those cases.
- Requests for zero pages.
  - `page_alloc` and `alloc_pages` with the contiguous flag require `nr_pages >= 1`.
  - `__get_phys_pages` with 0 pages is modelled, and returns NULL.
- `PageModel.AllocFromArena`, `PageModel.AllocFrom`: `free_pages` is compared as a signed integer, but the source's is an `unsigned long`. An arena left at -1 by the unaligned-region quirk (`PageSetup.UnalignedAllUsedWraps`) reads as 2^64 - 1 in the source. `page_alloc` would then try that arena, and `page_alloc_one` would unlink from an empty list. The model passes the arena over instead.
- The counters are unbounded integers. `free_pages` can go below zero only through the unaligned-region quirk, and the model keeps it as an `int`.
- `PageAlloc.PageAllocator.GetPhysPages`: requires the allocator state to be coherent. Every free page must be listed once, with no reference and no link, and lie in an arena. The source takes this for granted. The empty allocator is coherent, and module `PageCoherence` proves that each operation keeps coherence under these conditions:
  - `AddArena` and `AddRegion`: the new memory holds no page the allocator already manages;
  - `ReclaimPage`: the page is not already free;
  - `PageFree`: `nr` is at most 1, and a single page is neither free, referenced nor linked.
  `PageAlloc`, `FreePage`, `FreePages`, `GetPhysPages`, `AllocPages`, `Ksbrk` and `Kbrk` keep it unconditionally.
- `PageAlloc.PageAllocator.PageFree`, `PageAlloc.PageAllocator.FreePage`, `PageAlloc.PageAllocator.ReclaimPage`, `PageAlloc.PageAllocator.FreePages` and `PageAlloc.PageAllocator.Ksbrk`: the source's `assert`s become preconditions. These are a covering arena, a reference to drop, a NULL-terminated chain, and a break that stays within its limit.
- `PageModel.PageAlloc`: its own contract states only the failure case and sanity. The search order and the cursor are stated by `PageModel.PageAllocOutcome`.
- Parts of the socket layer that are not modelled:
  - `copy_to_user` and its `-EFAULT` paths;
  - the copy of the source address length;
  - wait queues, `poll` and the wake-up of sleepers;
  - `wait_for_event_locked_interruptible` returning an error, which is modelled only as the call sleeping;
  - the `sys_*` entry points, descriptor and inode handling, `socket_create` and `sys_socket`.
- The `recv_queue` constructor is declared in a header that is not part of this model. `Socket.RecvQueue.constructor` starts the queue empty with its counter at 0.
- The stop test of the `recvfrom` loop compares `total_read` with `len` after `len` has been decremented. It is modelled as written. Only the datagram rule is stated about it (`Socket.DatagramTakesOnePacket`).
- `Socket.AutodetectProtocol` has no contract of its own. Its meaning is stated by `Socket.AutodetectTable`, `Socket.AutodetectIgnoresFlags` and `Socket.AutodetectNeedsSupportedFamily`.
- SMBIOS memory is a byte sequence indexed by physical address, so `PHYS_BASE` is the identity. The `LOG`/`INFO` output of `smbios_init` is left out. So is its use of `smbios_get_table` and `smbios_get_string` for the BIOS vendor, which only prints.
- `nr_structs` is never assigned in the source. It is a constructor parameter of `Smbios.SmbiosTables`.
- A structure walk that would read past the modelled memory ends with its own outcome, `OffEnd`. A string lookup that would read past it gives `None`, the same answer as string number 0. The source would read on in both cases.
- `Tar::Parse`, `TarInode` and `Initrd` are not part of this model.
- In state.cpp, `keys_per_long` is 64, the width of `unsigned long` on x86_64. A key whose word lies outside the array is excluded by precondition. The source does not check this.

## Findings

| source | as written | input that shows it | evidently intended | confidence | as-written member | corrected member |
|---|---|---|---|---|---|---|
| kernel/include/kernel/initrd.h:46-48 | The place value `count` is an `unsigned int`, so the leading digit's term `d * 8^10` is reduced modulo 2^32. | A `size` field "40000000000" (a 4 GiB file) reads as 0. | The size is the field's octal value, with a 64-bit place value. | not executed | `Tar.FourGiBReadsAsZero` | `Tar.GetSizeWide` |
| kernel/arch/x86_64/smbios.cpp:104-109 | The `uint8_t` counter is compared with `strndx - 1` computed in `int`. | String number 0, which DSP0134 section 6.1.3 reserves for "no string", never meets the exit test. The loop then runs through memory without end. | Number 0 gives NULL, and number `k >= 1` gives the `k`-th string. | not executed | `Smbios.AsWrittenZeroNeverExits` | `Smbios.GetString` |
| kernel/kernel/net/socket.cpp:464 | The guard is `type != SOCK_DGRAM \|\| type != SOCK_SEQPACKET`, which holds for every type. | A `listen` on a SOCK_STREAM socket returns -EOPNOTSUPP. | Only connection-mode sockets (stream and seqpacket) may listen. | not executed | `Socket.ListenGuardRejectsAll` | `Socket.Listen` |
