/**
 Two-level paging of section 4.3 of the Intel SDM Volume 3A, and the page-directory code of
 kern/mm.c, which edits directories and tables through the mirror entry 1023.
 Physical memory is a store of 32-bit words, 1024 to a frame.
 */
module Paging {
  import opened Layout
  import opened Words
  import opened Bits

  const REGION := 0x40_0000
  const PRESENT := 1
  const WRITE := 2
  const MIRROR := 1023

  datatype Slot = Slot(frame: nat, index: nat)
  type Mem = map<Slot, u32>

  function Read(m: Mem, f: nat, i: nat): u32 {
    if Slot(f, i) in m then m[Slot(f, i)] else 0
  }

  predicate IsPresent(w: u32) { w % 2 == 1 }
  predicate IsBig(w: u32) { w / 0x80 % 2 == 1 }
  function FrameOf(w: u32): nat { w / PAGE }

  function Dir(v: nat): nat { v / REGION }
  function Idx(v: nat): nat { v / PAGE % 1024 }

  /** An entry for frame f with the given flags. */
  function Entry(f: nat, flags: nat): u32
    requires f < 0x10_0000 && flags < PAGE
  {
    f * PAGE + flags
  }

  lemma EntryFields(f: nat, flags: nat)
    requires f < 0x10_0000 && flags < 0x80
    ensures FrameOf(Entry(f, flags)) == f && IsPresent(Entry(f, flags)) == (flags % 2 == 1) && !IsBig(Entry(f, flags))
  {
    var w: u32 := Entry(f, flags);
    assert w / PAGE == f;
    assert w == 2 * (f * 0x800) + flags;
    assert w / 0x80 == 2 * (f * 16);
  }

  // ---- the processor

  datatype Physical = Fault | At(addr: nat)

  /** Translation of the virtual address v under the directory in frame cr3. */
  function Walk(m: Mem, cr3: nat, v: nat): Physical {
    var pde := Read(m, cr3, Dir(v));
    if !IsPresent(pde) then Fault
    else if IsBig(pde) then At(pde / REGION * REGION + v % REGION)
    else
      var pte := Read(m, FrameOf(pde), Idx(v));
      if !IsPresent(pte) then Fault else At(FrameOf(pte) * PAGE + v % PAGE)
  }

  function SlotAt(addr: nat): Slot {
    Slot(addr / PAGE, addr % PAGE / 4)
  }

  /** A 32-bit load; what it gives on a fault does not matter. */
  function Load(m: Mem, cr3: nat, v: nat): u32 {
    match Walk(m, cr3, v)
    case Fault => 0
    case At(a) => Read(m, SlotAt(a).frame, SlotAt(a).index)
  }

  function Store(m: Mem, cr3: nat, v: nat, w: u32): Mem {
    match Walk(m, cr3, v)
    case Fault => m
    case At(a) => m[SlotAt(a) := w]
  }

  // ---- address computations of mm.c

  function PdeAddr(v: nat): nat {
    Or(0xFFFF_F000, And(v, 0xFFC0_0000) / 0x10_0000)
  }

  function PteAddr(v: nat): nat {
    Or(0xFFC0_0000, And(v, 0xFFFF_F000) / 0x400)
  }

  lemma PdeAddress(v: u32)
    ensures PdeAddr(v) == 0xFFFF_F000 + 4 * Dir(v)
  {
    MaskDirectory(v);
    OrOffset(0xF_FFFF, 4 * Dir(v));
  }

  lemma PteAddress(v: u32)
    ensures PteAddr(v) == 0xFFC0_0000 + 4 * (v / PAGE)
  {
    MaskPage(v);
    OrRegion(0x3FF, 4 * (v / PAGE));
  }

  lemma PageNumber(v: u32)
    ensures v / PAGE == 1024 * Dir(v) + Idx(v) && Dir(v) < 1024 && Idx(v) < 1024
  {
    var q := v / PAGE;
    assert q / 1024 == v / REGION;
  }

  /** The fields of the address of word i of page t of the mirror region. */
  lemma MirrorFields(t: nat, i: nat)
    requires t < 1024 && i < 1024
    ensures var a := 0xFFC0_0000 + 4 * (1024 * t + i);
            Dir(a) == MIRROR && Idx(a) == t && a % PAGE == 4 * i
  {
    var a := 0xFFC0_0000 + 4 * (1024 * t + i);
    assert a == 0xFFC00 * PAGE + t * PAGE + 4 * i;
    assert a / PAGE == 0xFFC00 + t;
  }

  lemma MirrorAddresses(v: u32)
    ensures PdeAddr(v) == 0xFFFF_F000 + 4 * Dir(v)
    ensures PteAddr(v) == 0xFFC0_0000 + 4 * (v / PAGE)
    ensures Dir(PdeAddr(v)) == MIRROR && Idx(PdeAddr(v)) == MIRROR && PdeAddr(v) % PAGE == 4 * Dir(v)
    ensures Dir(PteAddr(v)) == MIRROR && Idx(PteAddr(v)) == Dir(v) && PteAddr(v) % PAGE == 4 * Idx(v)
  {
    PdeAddress(v);
    PteAddress(v);
    PageNumber(v);
    MirrorFields(MIRROR, Dir(v));
    MirrorFields(Dir(v), Idx(v));
  }

  /** The directory in frame cr3 maps itself. */
  predicate SelfMapped(m: Mem, cr3: nat) {
    cr3 < 0x10_0000 && Read(m, cr3, MIRROR) == Entry(cr3, PRESENT + WRITE)
  }

  lemma SlotOf(f: nat, i: nat)
    requires i < 1024
    ensures SlotAt(f * PAGE + 4 * i) == Slot(f, i)
  {
  }

  /**
   The mirror trick: under a self-mapped directory the computed pde address is v's directory entry,
   and, when that entry is present, the computed pte address is v's table entry.
   */
  lemma SelfMapping(m: Mem, cr3: nat, v: u32)
    requires SelfMapped(m, cr3)
    ensures Walk(m, cr3, PdeAddr(v)) == At(cr3 * PAGE + 4 * Dir(v))
    ensures SlotAt(cr3 * PAGE + 4 * Dir(v)) == Slot(cr3, Dir(v))
    ensures var pde := Read(m, cr3, Dir(v));
            IsPresent(pde) ==> && Walk(m, cr3, PteAddr(v)) == At(FrameOf(pde) * PAGE + 4 * Idx(v))
                               && SlotAt(FrameOf(pde) * PAGE + 4 * Idx(v)) == Slot(FrameOf(pde), Idx(v))
  {
    MirrorAddresses(v);
    EntryFields(cr3, 3);
    PageNumber(v);
    SlotOf(cr3, Dir(v));
    SlotOf(FrameOf(Read(m, cr3, Dir(v))), Idx(v));
  }

  // ---- get_p_addr and pd_remove_page

  /** get_p_addr: 0 when the page is not mapped. */
  function GetPAddr(m: Mem, cr3: nat, v: u32): nat {
    if !IsPresent(Load(m, cr3, PdeAddr(v))) then 0
    else
      var pte := Load(m, cr3, PteAddr(v));
      if !IsPresent(pte) then 0 else And(pte, 0xFFFF_F000) + And(v, 0xFFF)
  }

  /** v is translated through a page table, not by a 4MB page. */
  predicate IsSmall(m: Mem, cr3: nat, v: nat) {
    IsPresent(Read(m, cr3, Dir(v))) ==> !IsBig(Read(m, cr3, Dir(v)))
  }

  /** get_p_addr agrees with the processor on every address that has no 4MB page. */
  lemma GetPAddrIsWalk(m: Mem, cr3: nat, v: u32)
    requires SelfMapped(m, cr3) && IsSmall(m, cr3, v)
    ensures match Walk(m, cr3, v) case Fault => GetPAddr(m, cr3, v) == 0 case At(a) => GetPAddr(m, cr3, v) == a
  {
    LoadEntries(m, cr3, v);
    var pde := Read(m, cr3, Dir(v));
    if IsPresent(pde) {
      FrameAndOffset(Read(m, FrameOf(pde), Idx(v)), v);
    }
  }

  lemma FrameAndOffset(pte: u32, v: u32)
    ensures And(pte, 0xFFFF_F000) + And(v, 0xFFF) == FrameOf(pte) * PAGE + v % PAGE
  {
    MaskPage(pte);
    MaskOffset(v);
  }

  /** Loads through the mirror read the entries of v. */
  lemma LoadEntries(m: Mem, cr3: nat, v: u32)
    requires SelfMapped(m, cr3)
    ensures Load(m, cr3, PdeAddr(v)) == Read(m, cr3, Dir(v))
    ensures IsPresent(Read(m, cr3, Dir(v))) ==>
              Load(m, cr3, PteAddr(v)) == Read(m, FrameOf(Read(m, cr3, Dir(v))), Idx(v))
  {
    SelfMapping(m, cr3, v);
    LoadAt(m, cr3, PdeAddr(v), cr3 * PAGE + 4 * Dir(v), Slot(cr3, Dir(v)));
    var t := FrameOf(Read(m, cr3, Dir(v)));
    if IsPresent(Read(m, cr3, Dir(v))) {
      LoadAt(m, cr3, PteAddr(v), t * PAGE + 4 * Idx(v), Slot(t, Idx(v)));
    }
  }

  lemma LoadAt(m: Mem, cr3: nat, x: nat, a: nat, slot: Slot)
    requires Walk(m, cr3, x) == At(a) && SlotAt(a) == slot
    ensures Load(m, cr3, x) == Read(m, slot.frame, slot.index)
  {
  }

  function RemovePage(m: Mem, cr3: nat, v: u32): Mem {
    if GetPAddr(m, cr3, v) == 0 then m
    else Store(m, cr3, PteAddr(v), ClearPresent(Load(m, cr3, PteAddr(v))))
  }

  function ClearPresent(w: u32): (r: u32)
    ensures !IsPresent(r)
  {
    MaskBitZero(w);
    And(w, 0xFFFF_FFFE)
  }

  /** pd_remove_page on a mapped page clears the present bit of its entry, and nothing else. */
  lemma RemoveClears(m: Mem, cr3: nat, v: u32)
    requires SelfMapped(m, cr3) && IsPresent(Read(m, cr3, Dir(v))) && GetPAddr(m, cr3, v) != 0
    ensures var t, m' := FrameOf(Read(m, cr3, Dir(v))), RemovePage(m, cr3, v);
            forall f: nat, i: nat :: Read(m', f, i) ==
              if f == t && i == Idx(v) then ClearPresent(Read(m, t, Idx(v))) else Read(m, f, i)
  {
    var t := FrameOf(Read(m, cr3, Dir(v)));
    LoadEntries(m, cr3, v);
    SelfMapping(m, cr3, v);
    StoreAt(m, cr3, PteAddr(v), t * PAGE + 4 * Idx(v), Slot(t, Idx(v)), ClearPresent(Read(m, t, Idx(v))));
  }

  lemma StoreAt(m: Mem, cr3: nat, x: nat, a: nat, slot: Slot, w: u32)
    requires Walk(m, cr3, x) == At(a) && SlotAt(a) == slot
    ensures Store(m, cr3, x, w) == m[slot := w]
  {
  }

  /** Two virtual addresses on the same page. */
  predicate SamePage(v: nat, w: nat) { v / PAGE == w / PAGE }

  /** The table of region d is neither the directory nor the table of another region. */
  ghost predicate TableUnshared(m: Mem, cr3: nat, d: nat, t: nat) {
    && t != cr3
    && forall j :: 0 <= j < MIRROR && j != d && IsPresent(Read(m, cr3, j)) && !IsBig(Read(m, cr3, j)) ==>
                     FrameOf(Read(m, cr3, j)) != t
  }

  /** Only the mirror entry points back at the directory. */
  ghost predicate OneMirror(m: Mem, cr3: nat) {
    forall j :: 0 <= j < MIRROR && IsPresent(Read(m, cr3, j)) && !IsBig(Read(m, cr3, j)) ==>
                  FrameOf(Read(m, cr3, j)) != cr3
  }

  /** pd_remove_page unmaps the page and leaves the translation of every other page alone. */
  lemma RemoveUnmaps(m: Mem, cr3: nat, v: u32, w: u32)
    requires SelfMapped(m, cr3) && IsSmall(m, cr3, v) && Dir(v) < MIRROR && Dir(w) < MIRROR
    requires TableUnshared(m, cr3, Dir(v), FrameOf(Read(m, cr3, Dir(v))))
    requires Walk(m, cr3, v).At? ==> Walk(m, cr3, v).addr != 0
    ensures SamePage(v, w) ==> Walk(RemovePage(m, cr3, v), cr3, w) == Fault
    ensures !SamePage(v, w) ==> Walk(RemovePage(m, cr3, v), cr3, w) == Walk(m, cr3, w)
  {
    GetPAddrIsWalk(m, cr3, v);
    SelfMapping(m, cr3, v);
    SameIndices(v, w);
  }

  lemma SameIndices(v: nat, w: nat)
    ensures SamePage(v, w) <==> Dir(v) == Dir(w) && Idx(v) == Idx(w)
  {
    assert v / PAGE == 1024 * Dir(v) + Idx(v);
    assert w / PAGE == 1024 * Dir(w) + Idx(w);
  }

  // ---- pd_add_page and pd0_add_page

  /** m' is m with the table entry of v set to frame p. */
  ghost predicate PteWritten(m: Mem, m': Mem, cr3: nat, v: nat, p: nat, flags: nat)
    requires p < 0x10_0000 && flags < 0x80
  {
    forall f: nat, i: nat :: Read(m', f, i) ==
      if f == FrameOf(Read(m, cr3, Dir(v))) && i == Idx(v) then Entry(p, flags) else Read(m, f, i)
  }

  /** The last two lines of pd_add_page and pd0_add_page. */
  method WritePte(m: Mem, cr3: nat, v: u32, p: nat, flags: nat) returns (m': Mem)
    requires SelfMapped(m, cr3) && IsPresent(Read(m, cr3, Dir(v))) && p < 0x10_0000 && flags < 0x80
    ensures PteWritten(m, m', cr3, v, p, flags)
  {
    SelfMapping(m, cr3, v);
    OrOffset(p, flags);
    m' := Store(m, cr3, PteAddr(v), Or(p * PAGE, flags));
    ghost var t := FrameOf(Read(m, cr3, Dir(v)));
    StoreAt(m, cr3, PteAddr(v), t * PAGE + 4 * Idx(v), Slot(t, Idx(v)), Entry(p, flags));
  }

  /** A table has been made for the region of v: cleared from index 1 on, and entered in the directory. */
  ghost predicate TableInstalled(m: Mem, m': Mem, cr3: nat, v: nat, t: nat, flags: nat)
    requires t < 0x10_0000 && flags < 0x80
  {
    forall f: nat, i: nat :: Read(m', f, i) ==
      if f == cr3 && i == Dir(v) then Entry(t, flags) else if f == t && 1 <= i < 1024 then 0 else Read(m, f, i)
  }

  /** A store to word i of the page at pt, whose frame is t. */
  method StoreInPage(m: Mem, cr3: nat, pt: u32, ghost t: nat, i: nat, w: u32) returns (m': Mem)
    requires pt % PAGE == 0 && Walk(m, cr3, pt) == At(t * PAGE) && IsSmall(m, cr3, pt) && i < 1024
    ensures forall f: nat, j: nat :: Read(m', f, j) == if f == t && j == i then w else Read(m, f, j)
  {
    PageWord(m, cr3, pt, t, i);
    m' := Store(m, cr3, pt + 4 * i, w);
  }

  /** Clear a new table through its kernel page pt, from index 1 on as the code does. */
  method ClearTable(m: Mem, cr3: nat, pt: u32, t: nat) returns (m': Mem)
    requires pt % PAGE == 0 && Walk(m, cr3, pt) == At(t * PAGE) && IsSmall(m, cr3, pt)
    requires t != cr3 && t != FrameOf(Read(m, cr3, Dir(pt)))
    ensures forall f: nat, j: nat :: Read(m', f, j) == if f == t && 1 <= j < 1024 then 0 else Read(m, f, j)
  {
    m' := m;
    for i := 1 to 1024
      invariant forall f: nat, j: nat :: Read(m', f, j) == if f == t && 1 <= j < i then 0 else Read(m, f, j)
    {
      SameWalk(m, m', cr3, pt);
      m' := StoreInPage(m', cr3, pt, t, i, 0);
    }
  }

  lemma SameWalk(m: Mem, m': Mem, cr3: nat, v: nat)
    requires Read(m', cr3, Dir(v)) == Read(m, cr3, Dir(v))
    requires IsPresent(Read(m, cr3, Dir(v))) ==>
               Read(m', FrameOf(Read(m, cr3, Dir(v))), Idx(v)) == Read(m, FrameOf(Read(m, cr3, Dir(v))), Idx(v))
    ensures Walk(m', cr3, v) == Walk(m, cr3, v)
  {
  }

  /** The branch of pd_add_page that makes a table; pt is the kernel page whose frame t will hold it. */
  method InstallTable(m: Mem, cr3: nat, v: u32, pt: u32, t: nat, flags: nat) returns (m': Mem)
    requires SelfMapped(m, cr3) && t < 0x10_0000 && flags < 0x80 && Dir(v) < MIRROR
    requires pt % PAGE == 0 && Walk(m, cr3, pt) == At(t * PAGE) && IsSmall(m, cr3, pt)
    requires t != cr3 && t != FrameOf(Read(m, cr3, Dir(pt)))
    ensures TableInstalled(m, m', cr3, v, t, flags)
  {
    var m1 := ClearTable(m, cr3, pt, t);
    m' := WritePde(m1, cr3, v, t, flags);
  }

  method WritePde(m: Mem, cr3: nat, v: u32, t: nat, flags: nat) returns (m': Mem)
    requires SelfMapped(m, cr3) && t < 0x10_0000 && flags < 0x80
    ensures forall f: nat, i: nat :: Read(m', f, i) ==
              if f == cr3 && i == Dir(v) then Entry(t, flags) else Read(m, f, i)
  {
    SelfMapping(m, cr3, v);
    OrOffset(t, flags);
    m' := Store(m, cr3, PdeAddr(v), Or(t * PAGE, flags));
    StoreAt(m, cr3, PdeAddr(v), cr3 * PAGE + 4 * Dir(v), Slot(cr3, Dir(v)), Entry(t, flags));
  }

  /** Where word i of a mapped page lies. */
  lemma PageWord(m: Mem, cr3: nat, pt: u32, t: nat, i: nat)
    requires pt % PAGE == 0 && Walk(m, cr3, pt) == At(t * PAGE) && IsSmall(m, cr3, pt) && i < 1024
    ensures Walk(m, cr3, pt + 4 * i) == At(t * PAGE + 4 * i) && SlotAt(t * PAGE + 4 * i) == Slot(t, i)
  {
    assert (pt + 4 * i) / PAGE == pt / PAGE;
    SameIndices(pt, pt + 4 * i);
  }

  /** Adding a page to an existing table maps it, and changes no other page. */
  lemma AddMaps(m: Mem, m': Mem, cr3: nat, v: u32, p: nat, flags: nat, w: u32)
    requires SelfMapped(m, cr3) && Dir(v) < MIRROR && Dir(w) < MIRROR
    requires p < 0x10_0000 && flags < 0x80 && flags % 2 == 1
    requires IsPresent(Read(m, cr3, Dir(v))) && IsSmall(m, cr3, v)
    requires TableUnshared(m, cr3, Dir(v), FrameOf(Read(m, cr3, Dir(v))))
    requires PteWritten(m, m', cr3, v, p, flags)
    ensures SelfMapped(m', cr3)
    ensures SamePage(v, w) ==> Walk(m', cr3, w) == At(p * PAGE + w % PAGE)
    ensures !SamePage(v, w) ==> Walk(m', cr3, w) == Walk(m, cr3, w)
  {
    EntryFields(p, flags);
    SameIndices(v, w);
  }

  /**
   Adding a page that needs a new table: the page is mapped and the rest of its region stays
   unmapped, except for the first page of the region, whose entry is not cleared: that page becomes
   mapped exactly when the word the frame happened to hold has its present bit set.
   */
  lemma AddMapsNewTable(m: Mem, m1: Mem, m': Mem, cr3: nat, v: u32, t: nat, p: nat, flags: nat, w: u32)
    requires SelfMapped(m, cr3) && Dir(v) < MIRROR && Dir(w) < MIRROR
    requires p < 0x10_0000 && t < 0x10_0000 && flags < 0x80 && flags % 2 == 1
    requires !IsPresent(Read(m, cr3, Dir(v))) && TableUnshared(m, cr3, Dir(v), t) && OneMirror(m, cr3)
    requires TableInstalled(m, m1, cr3, v, t, flags) && PteWritten(m1, m', cr3, v, p, flags)
    ensures SelfMapped(m', cr3)
    ensures SamePage(v, w) ==> Walk(m', cr3, w) == At(p * PAGE + w % PAGE)
    ensures !SamePage(v, w) && !(Dir(w) == Dir(v) && Idx(w) == 0) ==> Walk(m', cr3, w) == Walk(m, cr3, w)
    ensures !SamePage(v, w) && Dir(w) == Dir(v) && Idx(w) == 0 ==>
              Walk(m', cr3, w) ==
              if IsPresent(Read(m, t, 0)) then At(FrameOf(Read(m, t, 0)) * PAGE + w % PAGE) else Fault
  {
    EntryFields(p, flags);
    EntryFields(t, flags);
    SameIndices(v, w);
  }

  /** pd_add_page, then get_p_addr, then pd_remove_page: the address comes back, and removal undoes the mapping. */
  lemma AddGetRemove(m: Mem, m': Mem, cr3: nat, v: u32, p: nat, flags: nat, w: u32)
    requires SelfMapped(m, cr3) && Dir(v) < MIRROR && Dir(w) < MIRROR
    requires 0 < p < 0x10_0000 && flags < 0x80 && flags % 2 == 1
    requires IsPresent(Read(m, cr3, Dir(v))) && IsSmall(m, cr3, v)
    requires TableUnshared(m, cr3, Dir(v), FrameOf(Read(m, cr3, Dir(v))))
    requires PteWritten(m, m', cr3, v, p, flags)
    ensures GetPAddr(m', cr3, v) == p * PAGE + v % PAGE
    ensures Walk(m, cr3, v) == Fault ==> Walk(RemovePage(m', cr3, v), cr3, w) == Walk(m, cr3, w)
  {
    AddMaps(m, m', cr3, v, p, flags, v);
    AddMaps(m, m', cr3, v, p, flags, w);
    GetPAddrIsWalk(m', cr3, v);
    RemoveUnmaps(m', cr3, v, w);
    if SamePage(v, w) {
      SameIndices(v, w);
    }
  }

  /**
   The same when the region needed a table: everything is as before the mapping, but for the first page of
   the region, which keeps showing what the frame of the table held.
   */
  lemma AddGetRemoveNewTable(m: Mem, m1: Mem, m': Mem, cr3: nat, v: u32, t: nat, p: nat, flags: nat, w: u32)
    requires SelfMapped(m, cr3) && Dir(v) < MIRROR && Dir(w) < MIRROR
    requires 0 < p < 0x10_0000 && t < 0x10_0000 && flags < 0x80 && flags % 2 == 1
    requires !IsPresent(Read(m, cr3, Dir(v))) && TableUnshared(m, cr3, Dir(v), t) && OneMirror(m, cr3)
    requires TableInstalled(m, m1, cr3, v, t, flags) && PteWritten(m1, m', cr3, v, p, flags)
    ensures GetPAddr(m', cr3, v) == p * PAGE + v % PAGE
    ensures var after := Walk(RemovePage(m', cr3, v), cr3, w);
            if !SamePage(v, w) && Dir(w) == Dir(v) && Idx(w) == 0
            then after == if IsPresent(Read(m, t, 0)) then At(FrameOf(Read(m, t, 0)) * PAGE + w % PAGE) else Fault
            else after == Walk(m, cr3, w)
  {
    AddMapsNewTable(m, m1, m', cr3, v, t, p, flags, v);
    AddMapsNewTable(m, m1, m', cr3, v, t, p, flags, w);
    NewTableEntered(m, m1, m', cr3, v, t, p, flags);
    GetPAddrIsWalk(m', cr3, v);
    RemoveUnmaps(m', cr3, v, w);
    SameIndices(v, w);
  }

  /** The directory after a table has been made and written to. */
  lemma NewTableEntered(m: Mem, m1: Mem, m': Mem, cr3: nat, v: u32, t: nat, p: nat, flags: nat)
    requires Dir(v) < MIRROR && p < 0x10_0000 && t < 0x10_0000 && flags < 0x80 && flags % 2 == 1
    requires TableUnshared(m, cr3, Dir(v), t)
    requires TableInstalled(m, m1, cr3, v, t, flags) && PteWritten(m1, m', cr3, v, p, flags)
    ensures Read(m', cr3, Dir(v)) == Entry(t, flags) && FrameOf(Read(m', cr3, Dir(v))) == t
    ensures IsSmall(m', cr3, v) && TableUnshared(m', cr3, Dir(v), t)
  {
    EntryFields(t, flags);
    assert forall j: nat :: j != Dir(v) ==> Read(m', cr3, j) == Read(m, cr3, j);
  }
}
