/**
 * SMBIOS (DMTF DSP0134): finding the entry point by its anchor string in the
 * BIOS area, walking the structure table, and looking up a structure's
 * strings.
 *
 * Physical memory is a byte sequence indexed by physical address; the
 * kernel's direct map (`PHYS_BASE`, `PHYS_TO_VIRT`) is the identity here. A
 * walk that would read past the modelled memory stops with a distinguished
 * outcome instead of reading on.
 */
module Smbios {
  import opened Common

  type Memory = seq<byte>

  // ------------------------------------------------- entry-point search

  /** Anchor strings of the 32-bit ("_SM_") and 64-bit ("_SM3_") entry points. */
  const ANCHOR32: seq<byte> := [0x5F, 0x53, 0x4D, 0x5F]
  const ANCHOR64: seq<byte> := [0x5F, 0x53, 0x4D, 0x33, 0x5F]

  /** The search window and step used by both entry-point searches. */
  const SEARCH_LOWER: nat := 0xF0000
  const SEARCH_UPPER: nat := 0xFFFFF
  const SEARCH_ALIGN: nat := 16

  /**
   * Offsets of the structure-table address inside each entry point
   * (sections 5.2.1 and 5.2.2 of DSP0134): a 4-byte field at 18h of the
   * 32-bit entry point, an 8-byte field at 10h of the 64-bit one.
   */
  const EP32_TABLE_ADDR: nat := 0x18
  const EP32_TABLE_ADDR_LEN: nat := 4
  const EP64_TABLE_ADDR: nat := 0x10
  const EP64_TABLE_ADDR_LEN: nat := 8

  /** The first MiB of physical memory, which holds the search window. */
  const BIOS_AREA_END: nat := 0x10_0000

  /** `memcmp(mem + addr, s, |s|) == 0`, false where `s` would run past memory. */
  predicate MatchesAt(mem: Memory, addr: nat, s: seq<byte>) {
    addr + |s| <= |mem| && mem[addr..addr + |s|] == s
  }

  /** The address of the i-th candidate of a search. */
  function Candidate(lower: nat, alignment: nat, i: nat): nat {
    lower + i * alignment
  }

  /** The number of candidates, `(upper - lower) / alignment`. */
  function CandidateCount(lower: nat, upper: nat, alignment: nat): nat
    requires 0 < alignment && lower <= upper
  {
    (upper - lower) / alignment
  }

  /** The index of the first matching candidate among i, i+1, ..., n-1. */
  function FirstMatchFrom(mem: Memory, lower: nat, alignment: nat, s: seq<byte>, i: nat, n: nat): Option<nat>
    decreases n - i
  {
    if i >= n then None
    else if MatchesAt(mem, Candidate(lower, alignment, i), s) then Some(i)
    else FirstMatchFrom(mem, lower, alignment, s, i + 1, n)
  }

  /** The address the search returns, or None for NULL. */
  function FirstMatch(mem: Memory, lower: nat, upper: nat, alignment: nat, s: seq<byte>): Option<nat>
    requires 0 < alignment && lower <= upper
  {
    match FirstMatchFrom(mem, lower, alignment, s, 0, CandidateCount(lower, upper, alignment))
    case None => None
    case Some(i) => Some(Candidate(lower, alignment, i))
  }

  /**
   * FirstMatchFrom finds the least matching index at or after i: a found
   * index matches and no index before it does, and None means none matches.
   */
  lemma {:induction false} FirstMatchFromIsLeast(mem: Memory, lower: nat, alignment: nat, s: seq<byte>, i: nat, n: nat)
    ensures match FirstMatchFrom(mem, lower, alignment, s, i, n)
      case Some(k) =>
        i <= k < n && MatchesAt(mem, Candidate(lower, alignment, k), s) &&
        forall j :: i <= j < k ==> !MatchesAt(mem, Candidate(lower, alignment, j), s)
      case None =>
        forall j :: i <= j < n ==> !MatchesAt(mem, Candidate(lower, alignment, j), s)
    decreases n - i
  {
    if i < n && !MatchesAt(mem, Candidate(lower, alignment, i), s) {
      FirstMatchFromIsLeast(mem, lower, alignment, s, i + 1, n);
    }
  }

  /**
   * The search returns `lower + i*alignment` for the least candidate index i
   * whose bytes match, and NULL when no candidate matches.
   */
  lemma FirstMatchIsLeast(mem: Memory, lower: nat, upper: nat, alignment: nat, s: seq<byte>)
    requires 0 < alignment && lower <= upper
    ensures match FirstMatch(mem, lower, upper, alignment, s)
      case Some(a) =>
        exists k :: 0 <= k < CandidateCount(lower, upper, alignment) && a == Candidate(lower, alignment, k) &&
          MatchesAt(mem, a, s) &&
          forall j :: 0 <= j < k ==> !MatchesAt(mem, Candidate(lower, alignment, j), s)
      case None =>
        forall j :: 0 <= j < CandidateCount(lower, upper, alignment) ==> !MatchesAt(mem, Candidate(lower, alignment, j), s)
  {
    FirstMatchFromIsLeast(mem, lower, alignment, s, 0, CandidateCount(lower, upper, alignment));
  }

  /** `__find_phys_mem`: scan the candidates in order and stop at the first match. */
  method FindPhysMem(mem: Memory, lower: nat, upper: nat, alignment: nat, s: seq<byte>) returns (r: Option<nat>)
    requires 0 < alignment && lower <= upper
    ensures r == FirstMatch(mem, lower, upper, alignment, s)
  {
    var n := (upper - lower) / alignment;
    var i := 0;
    while i < n
      invariant 0 <= i <= n
      invariant FirstMatchFrom(mem, lower, alignment, s, 0, n) == FirstMatchFrom(mem, lower, alignment, s, i, n)
    {
      var addr := lower + i * alignment;
      if addr + |s| <= |mem| && mem[addr..addr + |s|] == s {
        return Some(addr);
      }
      i := i + 1;
    }
    return None;
  }

  /** `smbios_find_entry32`. */
  method FindEntry32(mem: Memory) returns (r: Option<nat>)
    ensures r == FirstMatch(mem, SEARCH_LOWER, SEARCH_UPPER, SEARCH_ALIGN, ANCHOR32)
  {
    r := FindPhysMem(mem, SEARCH_LOWER, SEARCH_UPPER, SEARCH_ALIGN, ANCHOR32);
  }

  /** `smbios_find_entry64`. */
  method FindEntry64(mem: Memory) returns (r: Option<nat>)
    ensures r == FirstMatch(mem, SEARCH_LOWER, SEARCH_UPPER, SEARCH_ALIGN, ANCHOR64)
  {
    r := FindPhysMem(mem, SEARCH_LOWER, SEARCH_UPPER, SEARCH_ALIGN, ANCHOR64);
  }

  /**
   * The window holds 4095 candidates, 0xF0000 through 0xFFFE0; the last
   * paragraph, 0xFFFF0, is not searched.
   */
  lemma SearchWindow()
    ensures CandidateCount(SEARCH_LOWER, SEARCH_UPPER, SEARCH_ALIGN) == 4095
    ensures Candidate(SEARCH_LOWER, SEARCH_ALIGN, 4094) == 0xFFFE0
    ensures forall i :: 0 <= i < 4095 ==> Candidate(SEARCH_LOWER, SEARCH_ALIGN, i) + |ANCHOR64| <= 0xFFFE5
  {
  }

  /** A little-endian unsigned integer. */
  function LittleEndian(bytes: seq<byte>): (v: nat)
    ensures v < Pow256(|bytes|)
  {
    if |bytes| == 0 then 0 else bytes[0] + 256 * LittleEndian(bytes[1..])
  }

  function Pow256(n: nat): (p: nat)
    ensures p >= 1
  {
    if n == 0 then 1 else 256 * Pow256(n - 1)
  }

  /** Where the entry point found at `ep` says the structure table is. */
  function TableAddress(mem: Memory, ep: nat, offset: nat, len: nat): Option<nat> {
    if ep + offset + len <= |mem| then Some(LittleEndian(mem[ep + offset..ep + offset + len])) else None
  }

  /**
   * What `smbios_find_tables` returns: nothing under EFI, else the table of
   * the 64-bit entry point if there is one, else that of the 32-bit one.
   */
  function Tables(mem: Memory, efi64Present: bool): Option<nat> {
    if efi64Present then None
    else match FirstMatch(mem, SEARCH_LOWER, SEARCH_UPPER, SEARCH_ALIGN, ANCHOR64)
      case Some(ep) => TableAddress(mem, ep, EP64_TABLE_ADDR, EP64_TABLE_ADDR_LEN)
      case None =>
        match FirstMatch(mem, SEARCH_LOWER, SEARCH_UPPER, SEARCH_ALIGN, ANCHOR32)
        case Some(ep) => TableAddress(mem, ep, EP32_TABLE_ADDR, EP32_TABLE_ADDR_LEN)
        case None => None
  }

  /** `smbios_find_tables`. */
  method FindTables(mem: Memory, efi64Present: bool) returns (r: Option<nat>)
    requires |mem| >= BIOS_AREA_END
    ensures r == Tables(mem, efi64Present)
    ensures r.Some? ==> !efi64Present
    ensures r.Some? ==> r.value < U64
  {
    if efi64Present {
      return None;
    }
    var entry32 := FindEntry32(mem);
    var entry64 := FindEntry64(mem);
    if entry64.Some? {
      EntryInWindow(mem, ANCHOR64);
      var at := entry64.value + EP64_TABLE_ADDR;
      r := Some(LittleEndian(mem[at..at + EP64_TABLE_ADDR_LEN]));
      LittleEndianBelow(mem[at..at + EP64_TABLE_ADDR_LEN]);
      return;
    }
    if entry32.Some? {
      EntryInWindow(mem, ANCHOR32);
      var at := entry32.value + EP32_TABLE_ADDR;
      r := Some(LittleEndian(mem[at..at + EP32_TABLE_ADDR_LEN]));
      LittleEndianBelow(mem[at..at + EP32_TABLE_ADDR_LEN]);
      return;
    }
    return None;
  }

  /** A found entry point lies at 0xFFFE0 or below, so its table-address field is inside the first MiB. */
  lemma EntryInWindow(mem: Memory, anchor: seq<byte>)
    ensures FirstMatch(mem, SEARCH_LOWER, SEARCH_UPPER, SEARCH_ALIGN, anchor).Some? ==>
      FirstMatch(mem, SEARCH_LOWER, SEARCH_UPPER, SEARCH_ALIGN, anchor).value <= 0xFFFE0
  {
    FirstMatchIsLeast(mem, SEARCH_LOWER, SEARCH_UPPER, SEARCH_ALIGN, anchor);
  }

  /** A field of at most eight bytes holds a 64-bit value. */
  lemma LittleEndianBelow(bytes: seq<byte>)
    requires |bytes| <= 8
    ensures LittleEndian(bytes) < U64
  {
    Pow256Grows(|bytes|, 8);
  }

  lemma {:induction false} Pow256Grows(m: nat, n: nat)
    requires m <= n
    ensures Pow256(m) <= Pow256(n)
    decreases n
  {
    if m < n {
      Pow256Grows(m, n - 1);
    }
  }

  /** Under EFI the BIOS area is not searched at all. */
  lemma NoTablesUnderEfi(mem: Memory)
    ensures Tables(mem, true) == None
  {
  }

  /**
   * The 64-bit entry point wins: if its anchor is anywhere in the window, the
   * table address comes from the first such entry point, whatever the 32-bit
   * search would find.
   */
  lemma Prefers64(mem: Memory, k: nat)
    requires |mem| >= BIOS_AREA_END
    requires k < CandidateCount(SEARCH_LOWER, SEARCH_UPPER, SEARCH_ALIGN)
    requires MatchesAt(mem, Candidate(SEARCH_LOWER, SEARCH_ALIGN, k), ANCHOR64)
    ensures exists j :: (0 <= j <= k &&
      Tables(mem, false) == TableAddress(mem, Candidate(SEARCH_LOWER, SEARCH_ALIGN, j), EP64_TABLE_ADDR, EP64_TABLE_ADDR_LEN))
  {
    FirstMatchIsLeast(mem, SEARCH_LOWER, SEARCH_UPPER, SEARCH_ALIGN, ANCHOR64);
  }

  // ------------------------------------------------- structure table

  /**
   * The end of a string-set that starts at `a`: the address just past the
   * first two consecutive zero bytes at or after `a`, or None if memory ends
   * first.
   */
  function StringSetEnd(mem: Memory, a: nat): (r: Option<nat>)
    ensures r.Some? ==> a + 2 <= r.value <= |mem| && mem[r.value - 2] == 0 && mem[r.value - 1] == 0
    decreases |mem| - a
  {
    if a + 1 >= |mem| then None
    else if mem[a] == 0 && mem[a + 1] == 0 then Some(a + 2)
    else StringSetEnd(mem, a + 1)
  }

  /**
   * The structure that follows the one at `tab`: past its `len`-byte
   * formatted area (the header's byte 1) and its string-set.
   */
  function NextStruct(mem: Memory, tab: nat): Option<nat> {
    if tab + 1 >= |mem| then None else StringSetEnd(mem, tab + mem[tab + 1])
  }

  /** Outcome of a table lookup: a structure, NULL, or a walk off the end of memory. */
  datatype Lookup = Found(addr: nat) | NotFound | OffEnd

  /**
   * Looking at most `remaining` structures from `tab` onward for one whose
   * type byte equals `type`.
   */
  function Walk(mem: Memory, tab: nat, kind: int, remaining: nat): Lookup
    decreases remaining
  {
    if remaining == 0 then NotFound
    else if tab >= |mem| then OffEnd
    else if mem[tab] == kind then Found(tab)
    else match NextStruct(mem, tab)
      case None => OffEnd
      case Some(next) => Walk(mem, next, kind, remaining - 1)
  }

  /** The address of the k-th structure of a table at `tab`, if the walk gets that far. */
  function StructAt(mem: Memory, tab: nat, k: nat): Option<nat>
    decreases k
  {
    if k == 0 then Some(tab)
    else match NextStruct(mem, tab)
      case None => None
      case Some(next) => StructAt(mem, next, k - 1)
  }

  /** The k-th structure exists and is of type `type`. */
  predicate IsOfType(mem: Memory, tab: nat, k: nat, kind: int) {
    var p := StructAt(mem, tab, k);
    p.Some? && p.value < |mem| && mem[p.value] == kind
  }

  /** The k-th structure exists and is of another type. */
  predicate IsOtherType(mem: Memory, tab: nat, k: nat, kind: int) {
    var p := StructAt(mem, tab, k);
    p.Some? && p.value < |mem| && mem[p.value] != kind
  }

  /**
   * A walk returns the first of the first `n` structures whose type matches,
   * returns NULL only when the first `n` structures are all of other types
   * and the one after them can be located, and runs off memory only at a
   * structure that cannot be read or whose string-set does not end within
   * memory.
   */
  lemma {:induction false} WalkFindsFirst(mem: Memory, tab: nat, kind: int, n: nat)
    ensures match Walk(mem, tab, kind, n)
      case Found(a) =>
        exists k :: 0 <= k < n && StructAt(mem, tab, k) == Some(a) && IsOfType(mem, tab, k, kind) &&
          forall j :: 0 <= j < k ==> IsOtherType(mem, tab, j, kind)
      case NotFound =>
        (forall j :: 0 <= j < n ==> IsOtherType(mem, tab, j, kind)) && StructAt(mem, tab, n).Some?
      case OffEnd =>
        exists k :: 0 <= k < n && !IsOfType(mem, tab, k, kind) &&
          (!IsOtherType(mem, tab, k, kind) || StructAt(mem, tab, k + 1).None?) &&
          forall j :: 0 <= j < k ==> IsOtherType(mem, tab, j, kind)
    decreases n
  {
    if n == 0 || tab >= |mem| || mem[tab] == kind {
      assert StructAt(mem, tab, 0) == Some(tab);
      assert n > 0 && tab >= |mem| ==> !IsOfType(mem, tab, 0, kind) && !IsOtherType(mem, tab, 0, kind);
    } else if NextStruct(mem, tab).None? {
      assert StructAt(mem, tab, 1) == None;
      assert !IsOfType(mem, tab, 0, kind) && StructAt(mem, tab, 0 + 1).None?;
    } else {
      var next := NextStruct(mem, tab).value;
      WalkFindsFirst(mem, next, kind, n - 1);
      assert IsOtherType(mem, tab, 0, kind);
      forall j: nat | 1 <= j
        ensures StructAt(mem, tab, j) == StructAt(mem, next, j - 1)
        ensures IsOtherType(mem, tab, j, kind) == IsOtherType(mem, next, j - 1, kind)
        ensures IsOfType(mem, tab, j, kind) == IsOfType(mem, next, j - 1, kind)
      {
        ShiftStruct(mem, tab, next, kind, j - 1);
      }
      match Walk(mem, next, kind, n - 1)
      case Found(a) =>
        var k :| 0 <= k < n - 1 && StructAt(mem, next, k) == Some(a) && IsOfType(mem, next, k, kind) &&
          forall j :: 0 <= j < k ==> IsOtherType(mem, next, j, kind);
        assert StructAt(mem, tab, k + 1) == Some(a) && IsOfType(mem, tab, k + 1, kind);
      case NotFound =>
        assert StructAt(mem, tab, n) == StructAt(mem, next, n - 1);
      case OffEnd =>
        var k :| 0 <= k < n - 1 && !IsOfType(mem, next, k, kind) &&
          (!IsOtherType(mem, next, k, kind) || StructAt(mem, next, k + 1).None?) &&
          forall j :: 0 <= j < k ==> IsOtherType(mem, next, j, kind);
        assert !IsOfType(mem, tab, k + 1, kind);
    }
  }

  /**
   * NULL exactly when the first `n` structures are all of other types and
   * the walk can step past the last of them: like `smbios_get_table`, it
   * computes the next structure even after the `n`-th, so a last string-set
   * that does not end within memory gives `OffEnd` instead.
   */
  lemma WalkNotFoundIff(mem: Memory, tab: nat, kind: int, n: nat)
    ensures Walk(mem, tab, kind, n) == NotFound <==>
      (forall j :: 0 <= j < n ==> IsOtherType(mem, tab, j, kind)) && StructAt(mem, tab, n).Some?
  {
    WalkFindsFirst(mem, tab, kind, n);
    match Walk(mem, tab, kind, n)
    case Found(a) =>
      var k :| 0 <= k < n && StructAt(mem, tab, k) == Some(a) && IsOfType(mem, tab, k, kind) &&
        forall j :: 0 <= j < k ==> IsOtherType(mem, tab, j, kind);
      assert !IsOtherType(mem, tab, k, kind);
    case NotFound =>
    case OffEnd =>
      var k :| 0 <= k < n && !IsOfType(mem, tab, k, kind) &&
        (!IsOtherType(mem, tab, k, kind) || StructAt(mem, tab, k + 1).None?) &&
        forall j :: 0 <= j < k ==> IsOtherType(mem, tab, j, kind);
      if IsOtherType(mem, tab, k, kind) {
        StructAtNoneStays(mem, tab, k + 1, n);
      }
  }

  /** Once the walk cannot locate a structure, it cannot locate any later one. */
  lemma {:induction false} StructAtNoneStays(mem: Memory, tab: nat, k: nat, k': nat)
    requires StructAt(mem, tab, k).None? && k <= k'
    ensures StructAt(mem, tab, k').None?
    decreases k
  {
    match NextStruct(mem, tab)
    case None =>
    case Some(next) =>
      StructAtNoneStays(mem, next, k - 1, k' - 1);
  }

  /** Past its first structure, a table is the table that starts at the next one. */
  lemma ShiftStruct(mem: Memory, tab: nat, next: nat, kind: int, k: nat)
    requires NextStruct(mem, tab) == Some(next)
    ensures StructAt(mem, tab, k + 1) == StructAt(mem, next, k)
    ensures IsOfType(mem, tab, k + 1, kind) == IsOfType(mem, next, k, kind)
    ensures IsOtherType(mem, tab, k + 1, kind) == IsOtherType(mem, next, k, kind)
  {
  }

  /**
   * The structure table's state: the statics `tables` (NULL until set) and
   * `nr_structs`, over the physical memory the table lives in.
   */
  class SmbiosTables {
    const mem: Memory
    var tables: Option<nat>
    var nrStructs: nat

    constructor (mem: Memory, nrStructs: nat)
      ensures this.mem == mem && tables == None && this.nrStructs == nrStructs
    {
      this.mem := mem;
      tables := None;
      this.nrStructs := nrStructs;
    }

    /** The part of `smbios_init` that locates the table. */
    method Locate(efi64Present: bool)
      requires |mem| >= BIOS_AREA_END
      modifies this
      ensures tables == Tables(mem, efi64Present) && nrStructs == old(nrStructs)
    {
      tables := FindTables(mem, efi64Present);
    }

    /**
     * `smbios_get_table`: NULL while `tables` is unset, else the first of the
     * first `nr_structs` structures with the given type.
     */
    method GetTable(kind: int) returns (r: Lookup)
      ensures r == if tables.None? then NotFound else Walk(mem, tables.value, kind, nrStructs)
    {
      if tables.None? {
        return NotFound;
      }
      var tab: nat := tables.value;
      var i: nat := 0;
      while i < nrStructs
        invariant 0 <= i <= nrStructs
        invariant Walk(mem, tables.value, kind, nrStructs) == Walk(mem, tab, kind, nrStructs - i)
      {
        if tab >= |mem| {
          return OffEnd;
        }
        if mem[tab] == kind {
          return Found(tab);
        }
        if tab + 1 >= |mem| {
          return OffEnd;
        }
        var a: nat := tab + mem[tab + 1];
        while a + 1 < |mem| && !(mem[a] == 0 && mem[a + 1] == 0)
          invariant StringSetEnd(mem, tab + mem[tab + 1]) == StringSetEnd(mem, a)
          decreases |mem| - a
        {
          a := a + 1;
        }
        if a + 1 >= |mem| {
          return OffEnd;
        }
        tab := a + 2;
        i := i + 1;
      }
      return NotFound;
    }
  }

  // ------------------------------------------------- strings

  /** The first NUL at or after `p`, or None if memory ends first. */
  function StrEnd(mem: Memory, p: nat): (e: Option<nat>)
    ensures e.Some? ==> p <= e.value < |mem| && mem[e.value] == 0
    decreases |mem| - p
  {
    if p >= |mem| then None
    else if mem[p] == 0 then Some(p)
    else StrEnd(mem, p + 1)
  }

  /** The NUL-terminated string at `p`. */
  function StringAt(mem: Memory, p: nat): Option<seq<byte>> {
    match StrEnd(mem, p)
    case None => None
    case Some(e) => Some(mem[p..e])
  }

  /** Step over `count` NUL-terminated strings starting at `p`. */
  function SkipStrings(mem: Memory, p: nat, count: nat): Option<nat>
    decreases count
  {
    if count == 0 then Some(p)
    else match StrEnd(mem, p)
      case None => None
      case Some(e) => SkipStrings(mem, e + 1, count - 1)
  }

  /**
   * Where string number `strndx` of the structure at `t` starts. Number 0
   * means "no string" (section 6.1.3 of DSP0134).
   */
  function StringRef(mem: Memory, t: nat, strndx: byte): Option<nat> {
    if strndx == 0 || t + 1 >= |mem| then None
    else SkipStrings(mem, t + mem[t + 1], strndx - 1)
  }

  /**
   * `smbios_get_string`, with index 0 answered by NULL: skip `strndx - 1`
   * strings of the string-set that follows the formatted area.
   */
  method GetString(mem: Memory, t: nat, strndx: byte) returns (r: Option<nat>)
    ensures r == StringRef(mem, t, strndx)
  {
    if strndx == 0 || t + 1 >= |mem| {
      return None;
    }
    var strtab: nat := t + mem[t + 1];
    var i: nat := 0;
    while i != strndx - 1
      invariant 0 <= i <= strndx - 1
      invariant StringRef(mem, t, strndx) == SkipStrings(mem, strtab, strndx - 1 - i)
    {
      var p: nat := strtab;
      while p < |mem| && mem[p] != 0
        invariant strtab <= p
        invariant StrEnd(mem, strtab) == StrEnd(mem, p)
        decreases |mem| - p
      {
        p := p + 1;
      }
      if p >= |mem| {
        return None;
      }
      strtab := p + 1;
      i := i + 1;
    }
    return Some(strtab);
  }

  /**
   * The loop of `smbios_get_string` as written compares a `uint8_t` counter
   * with `strndx - 1` computed in `int`. Starting from 0 the counter takes
   * the values 0, 1, ..., 255 and then repeats them, so the loop exits iff
   * one of those values equals `strndx - 1`; this is the number of strings
   * it skips before it does, or None if it never exits.
   */
  function AsWrittenSkips(strndx: byte, i: nat): Option<nat>
    decreases 256 - i
  {
    if i >= 256 then None
    else if i == strndx - 1 then Some(i)
    else AsWrittenSkips(strndx, i + 1)
  }

  /** As written, string number 0 makes the loop run forever. */
  lemma AsWrittenZeroNeverExits()
    ensures AsWrittenSkips(0, 0) == None
  {
    NeverExitsFrom(0);
  }

  lemma {:induction false} NeverExitsFrom(i: nat)
    ensures AsWrittenSkips(0, i) == None
    decreases 256 - i
  {
    if i < 256 {
      NeverExitsFrom(i + 1);
    }
  }

  /** For every other index the loop as written skips `strndx - 1` strings, as GetString does. */
  lemma AsWrittenSkipsFromOne(strndx: byte)
    requires strndx >= 1
    ensures AsWrittenSkips(strndx, 0) == Some(strndx - 1)
  {
    ExitsAt(strndx, 0);
  }

  lemma {:induction false} ExitsAt(strndx: byte, i: nat)
    requires 1 <= strndx && i <= strndx - 1
    ensures AsWrittenSkips(strndx, i) == Some(strndx - 1)
    decreases 256 - i
  {
    if i < strndx - 1 {
      ExitsAt(strndx, i + 1);
    }
  }

  // ------------------------------------------------- well-formed tables

  /** A text string (section 6.1.3 of DSP0134): at least one byte, none of them NUL. */
  predicate ValidString(str: seq<byte>) {
    |str| > 0 && forall i :: 0 <= i < |str| ==> str[i] != 0
  }

  /** Strings laid out one after another, each followed by its NUL. */
  function JoinStrings(strs: seq<seq<byte>>): seq<byte> {
    if |strs| == 0 then [] else strs[0] + [0] + JoinStrings(strs[1..])
  }

  /**
   * A string-set: the strings and one more NUL, or two NULs when there are
   * no strings.
   */
  function EncodeStrings(strs: seq<seq<byte>>): seq<byte> {
    if |strs| == 0 then [0, 0] else JoinStrings(strs) + [0]
  }

  /**
   * A structure: its type, the rest of its formatted area after the type and
   * length bytes (the handle and the type-specific data), and its strings.
   * The header's length byte counts the whole formatted area.
   */
  datatype Structure = Structure(kind: byte, body: seq<byte>, strings: seq<seq<byte>>)

  predicate WellFormed(st: Structure) {
    2 <= |st.body| <= 253 &&
    forall i :: 0 <= i < |st.strings| ==> ValidString(st.strings[i])
  }

  function Formatted(st: Structure): seq<byte> {
    [st.kind, (|st.body| + 2) % 256] + st.body
  }

  function Encode(st: Structure): seq<byte> {
    Formatted(st) + EncodeStrings(st.strings)
  }

  function EncodeTable(sts: seq<Structure>): seq<byte> {
    if |sts| == 0 then [] else Encode(sts[0]) + EncodeTable(sts[1..])
  }

  /**
   * Reference lookup on the structures themselves: where in a table encoded
   * at `base` the first structure of type `kind` begins.
   */
  function FirstOfType(sts: seq<Structure>, kind: int, base: nat): Lookup {
    if |sts| == 0 then NotFound
    else if sts[0].kind == kind then Found(base)
    else FirstOfType(sts[1..], kind, base + |Encode(sts[0])|)
  }

  /** `bytes` lies in memory at `a`. */
  predicate Holds(mem: Memory, a: nat, bytes: seq<byte>) {
    a + |bytes| <= |mem| && forall i :: 0 <= i < |bytes| ==> mem[a + i] == bytes[i]
  }

  lemma HoldsSplit(mem: Memory, a: nat, x: seq<byte>, y: seq<byte>)
    requires Holds(mem, a, x + y)
    ensures Holds(mem, a, x) && Holds(mem, a + |x|, y)
  {
    forall i | 0 <= i < |x| ensures mem[a + i] == x[i] {
      assert (x + y)[i] == x[i];
    }
    forall i | 0 <= i < |y| ensures mem[a + |x| + i] == y[i] {
      assert (x + y)[|x| + i] == y[i];
    }
  }

  lemma HoldsSlice(mem: Memory, a: nat, bytes: seq<byte>)
    requires Holds(mem, a, bytes)
    ensures a + |bytes| <= |mem| && mem[a..a + |bytes|] == bytes
  {
    forall i | 0 <= i < |bytes| ensures mem[a..a + |bytes|][i] == bytes[i] {
      assert mem[a + i] == bytes[i];
    }
  }

  lemma HoldsIndex(mem: Memory, a: nat, bytes: seq<byte>, i: nat)
    requires Holds(mem, a, bytes) && i < |bytes|
    ensures a + i < |mem| && mem[a + i] == bytes[i]
  {
  }

  /** A string followed by its NUL ends at that NUL. */
  lemma {:induction false} StrEndOfString(mem: Memory, a: nat, str: seq<byte>)
    requires forall i :: 0 <= i < |str| ==> str[i] != 0
    requires Holds(mem, a, str + [0])
    ensures StrEnd(mem, a) == Some(a + |str|)
    decreases |str|
  {
    if |str| == 0 {
      HoldsIndex(mem, a, str + [0], 0);
    } else {
      HoldsIndex(mem, a, str + [0], 0);
      assert str + [0] == [str[0]] + (str[1..] + [0]);
      HoldsSplit(mem, a, [str[0]], str[1..] + [0]);
      StrEndOfString(mem, a + 1, str[1..]);
    }
  }

  /** Bytes without a NUL cannot hold the end of a string-set. */
  lemma {:induction false} StringSetSkip(mem: Memory, a: nat, str: seq<byte>)
    requires forall i :: 0 <= i < |str| ==> str[i] != 0
    requires Holds(mem, a, str) && a + |str| < |mem|
    ensures StringSetEnd(mem, a) == StringSetEnd(mem, a + |str|)
    decreases |str|
  {
    if |str| > 0 {
      HoldsIndex(mem, a, str, 0);
      assert str == [str[0]] + str[1..];
      HoldsSplit(mem, a, [str[0]], str[1..]);
      StringSetSkip(mem, a + 1, str[1..]);
    }
  }

  /** The first string, its NUL, and the rest of a joined string-set. */
  lemma JoinedParts(mem: Memory, a: nat, strs: seq<seq<byte>>)
    requires |strs| > 0
    requires Holds(mem, a, JoinStrings(strs) + [0])
    ensures Holds(mem, a, strs[0]) && a + |strs[0]| + 1 < |mem| && mem[a + |strs[0]|] == 0
    ensures Holds(mem, a + |strs[0]| + 1, JoinStrings(strs[1..]) + [0])
  {
    var s0 := strs[0];
    var tail := JoinStrings(strs[1..]) + [0];
    assert JoinStrings(strs) + [0] == s0 + ([0] + tail);
    HoldsSplit(mem, a, s0, [0] + tail);
    HoldsSplit(mem, a + |s0|, [0], tail);
    HoldsIndex(mem, a + |s0|, [0], 0);
  }

  /** A joined string-set starts with the first byte of its first string. */
  lemma JoinedFirst(mem: Memory, b: nat, strs: seq<seq<byte>>)
    requires |strs| > 0 && ValidString(strs[0])
    requires Holds(mem, b, JoinStrings(strs) + [0])
    ensures b < |mem| && mem[b] != 0
  {
    assert (JoinStrings(strs) + [0])[0] == strs[0][0];
    HoldsIndex(mem, b, JoinStrings(strs) + [0], 0);
  }

  /** Joined strings and one more NUL end at that NUL. */
  lemma {:induction false} JoinedStringSetEnd(mem: Memory, a: nat, strs: seq<seq<byte>>)
    requires |strs| > 0 && forall i :: 0 <= i < |strs| ==> ValidString(strs[i])
    requires Holds(mem, a, JoinStrings(strs) + [0])
    ensures StringSetEnd(mem, a) == Some(a + |JoinStrings(strs)| + 1)
    decreases |strs|
  {
    var s0 := strs[0];
    assert ValidString(s0);
    JoinedParts(mem, a, strs);
    StringSetSkip(mem, a, s0);
    var e := a + |s0|;
    if |strs| == 1 {
      assert JoinStrings(strs[1..]) + [0] == [0];
      HoldsIndex(mem, e + 1, [0], 0);
    } else {
      assert ValidString(strs[1..][0]);
      JoinedFirst(mem, e + 1, strs[1..]);
      JoinedStringSetEnd(mem, e + 1, strs[1..]);
    }
  }

  /** A string-set ends just past its encoding. */
  lemma EncodedStringSetEnd(mem: Memory, a: nat, strs: seq<seq<byte>>)
    requires forall i :: 0 <= i < |strs| ==> ValidString(strs[i])
    requires Holds(mem, a, EncodeStrings(strs))
    ensures StringSetEnd(mem, a) == Some(a + |EncodeStrings(strs)|)
  {
    if |strs| == 0 {
      HoldsIndex(mem, a, [0, 0], 0);
      HoldsIndex(mem, a, [0, 0], 1);
    } else {
      JoinedStringSetEnd(mem, a, strs);
    }
  }

  /** The walk steps from an encoded structure to the byte just past it. */
  lemma NextOfEncoded(mem: Memory, tab: nat, st: Structure)
    requires WellFormed(st) && Holds(mem, tab, Encode(st))
    ensures tab < |mem| && mem[tab] == st.kind
    ensures NextStruct(mem, tab) == Some(tab + |Encode(st)|)
  {
    EncodeHeader(st);
    HoldsIndex(mem, tab, Encode(st), 0);
    HoldsIndex(mem, tab, Encode(st), 1);
    HoldsSplit(mem, tab, Formatted(st), EncodeStrings(st.strings));
    NextPastStrings(mem, tab, |Formatted(st)|, st.strings);
  }

  /** With a formatted area of `len` bytes followed by a string-set, the next structure starts past both. */
  lemma NextPastStrings(mem: Memory, tab: nat, len: nat, strs: seq<seq<byte>>)
    requires tab + 1 < |mem| && mem[tab + 1] == len
    requires forall i :: 0 <= i < |strs| ==> ValidString(strs[i])
    requires Holds(mem, tab + len, EncodeStrings(strs))
    ensures NextStruct(mem, tab) == Some(tab + len + |EncodeStrings(strs)|)
  {
    EncodedStringSetEnd(mem, tab + len, strs);
  }

  /** The type and length bytes of an encoded structure, and its two parts. */
  lemma EncodeHeader(st: Structure)
    requires WellFormed(st)
    ensures |Encode(st)| == |Formatted(st)| + |EncodeStrings(st.strings)| && |Formatted(st)| >= 2
    ensures Encode(st)[0] == st.kind && Encode(st)[1] == |Formatted(st)|
  {
  }

  /** A walk past a structure of another type goes on at the next structure. */
  lemma WalkPast(mem: Memory, tab: nat, kind: int, remaining: nat, next: nat)
    requires remaining > 0 && tab < |mem| && mem[tab] != kind && NextStruct(mem, tab) == Some(next)
    ensures Walk(mem, tab, kind, remaining) == Walk(mem, next, kind, remaining - 1)
  {
  }

  /**
   * On a table of well-formed structures, walking all of them finds exactly
   * the first structure of the wanted type, and never runs off memory.
   */
  lemma {:induction false} WalkEncodedTable(mem: Memory, tab: nat, sts: seq<Structure>, kind: int)
    requires forall i :: 0 <= i < |sts| ==> WellFormed(sts[i])
    requires Holds(mem, tab, EncodeTable(sts))
    ensures Walk(mem, tab, kind, |sts|) == FirstOfType(sts, kind, tab)
    decreases |sts|
  {
    if |sts| > 0 {
      assert WellFormed(sts[0]);
      WalkHead(mem, tab, sts, kind);
      if sts[0].kind != kind {
        WalkEncodedTable(mem, tab + |Encode(sts[0])|, sts[1..], kind);
      }
    }
  }

  /**
   * One step of the walk over an encoded table: the rest of the table sits
   * right after the first structure, and the walk agrees with the lookup
   * here whenever it agrees on the rest (or the first structure matches).
   */
  lemma WalkHead(mem: Memory, tab: nat, sts: seq<Structure>, kind: int)
    requires |sts| > 0 && WellFormed(sts[0]) && Holds(mem, tab, EncodeTable(sts))
    ensures Holds(mem, tab + |Encode(sts[0])|, EncodeTable(sts[1..]))
    ensures (sts[0].kind != kind ==>
        Walk(mem, tab + |Encode(sts[0])|, kind, |sts[1..]|) == FirstOfType(sts[1..], kind, tab + |Encode(sts[0])|)) ==>
      Walk(mem, tab, kind, |sts|) == FirstOfType(sts, kind, tab)
  {
    TableHead(sts);
    WalkEncodedStep(mem, tab, sts[0], EncodeTable(sts[1..]));
    if sts[0].kind != kind ==>
        Walk(mem, tab + |Encode(sts[0])|, kind, |sts[1..]|) == FirstOfType(sts[1..], kind, tab + |Encode(sts[0])|) {
      WalkFirst(mem, tab, kind, sts);
    }
  }

  /** The walk and the reference lookup agree on a table once they agree past its first structure. */
  lemma WalkFirst(mem: Memory, tab: nat, kind: int, sts: seq<Structure>)
    requires |sts| > 0 && tab < |mem| && mem[tab] == sts[0].kind
    requires NextStruct(mem, tab) == Some(tab + |Encode(sts[0])|)
    requires sts[0].kind != kind ==>
      Walk(mem, tab + |Encode(sts[0])|, kind, |sts[1..]|) == FirstOfType(sts[1..], kind, tab + |Encode(sts[0])|)
    ensures Walk(mem, tab, kind, |sts|) == FirstOfType(sts, kind, tab)
  {
    FirstOfTypeHead(sts, kind, tab);
    if sts[0].kind != kind {
      WalkPast(mem, tab, kind, |sts|, tab + |Encode(sts[0])|);
    } else {
      WalkHere(mem, tab, kind, |sts|);
    }
  }

  lemma FirstOfTypeHead(sts: seq<Structure>, kind: int, base: nat)
    requires |sts| > 0
    ensures sts[0].kind == kind ==> FirstOfType(sts, kind, base) == Found(base)
    ensures sts[0].kind != kind ==> FirstOfType(sts, kind, base) == FirstOfType(sts[1..], kind, base + |Encode(sts[0])|)
    ensures |sts[1..]| == |sts| - 1
  {
  }

  lemma WalkHere(mem: Memory, tab: nat, kind: int, remaining: nat)
    requires remaining > 0 && tab < |mem| && mem[tab] == kind
    ensures Walk(mem, tab, kind, remaining) == Found(tab)
  {
  }

  /** The first structure of an encoded table, and the table after it. */
  lemma WalkEncodedStep(mem: Memory, tab: nat, st: Structure, after: seq<byte>)
    requires WellFormed(st) && Holds(mem, tab, Encode(st) + after)
    ensures tab < |mem| && mem[tab] == st.kind
    ensures NextStruct(mem, tab) == Some(tab + |Encode(st)|)
    ensures Holds(mem, tab + |Encode(st)|, after)
  {
    HoldsSplit(mem, tab, Encode(st), after);
    NextOfEncoded(mem, tab, st);
  }

  lemma TableHead(sts: seq<Structure>)
    requires |sts| > 0
    ensures EncodeTable(sts) == Encode(sts[0]) + EncodeTable(sts[1..])
  {
  }

  /** Skipping j joined strings lands on string j. */
  lemma {:induction false} SkipToString(mem: Memory, a: nat, strs: seq<seq<byte>>, j: nat)
    requires j < |strs| && forall i :: 0 <= i < |strs| ==> ValidString(strs[i])
    requires Holds(mem, a, JoinStrings(strs))
    ensures SkipStrings(mem, a, j).Some?
    ensures StringAt(mem, SkipStrings(mem, a, j).value) == Some(strs[j])
    decreases j
  {
    var s0 := strs[0];
    assert ValidString(s0);
    assert JoinStrings(strs) == (s0 + [0]) + JoinStrings(strs[1..]);
    HoldsSplit(mem, a, s0 + [0], JoinStrings(strs[1..]));
    StrEndOfString(mem, a, s0);
    if j == 0 {
      HoldsSplit(mem, a, s0, [0]);
      HoldsSlice(mem, a, s0);
    } else {
      SkipToString(mem, a + |s0| + 1, strs[1..], j - 1);
    }
  }

  /**
   * On a well-formed structure, string number k (1-based) is the k-th of its
   * strings.
   */
  lemma GetStringOfEncoded(mem: Memory, t: nat, st: Structure, k: byte)
    requires WellFormed(st) && Holds(mem, t, Encode(st))
    requires 1 <= k <= |st.strings|
    ensures StringRef(mem, t, k).Some?
    ensures StringAt(mem, StringRef(mem, t, k).value) == Some(st.strings[k - 1])
  {
    HoldsIndex(mem, t, Encode(st), 1);
    HoldsSplit(mem, t, Formatted(st), EncodeStrings(st.strings));
    HoldsSplit(mem, t + |Formatted(st)|, JoinStrings(st.strings), [0]);
    SkipToString(mem, t + |Formatted(st)|, st.strings, k - 1);
  }
}
