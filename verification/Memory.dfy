/**
 kern/mm.c with the memory side of kern/process.c, kern/interrupt.c and sys_exit.c: the code that
 takes the steps of MemorySteps.
 */
module Memory {
  import opened Layout
  import opened Words
  import opened Paging
  import opened MemoryModel
  import opened MemorySteps
  import opened MemoryRuns
  import opened Translations
  import opened MemoryFacts
  import FreeAreas
  import FrameBitmap

  /** get_page_frame when memory is left: its result is then a frame, never -1. */
  method TakeFrame(frames: FrameBitmap.Bitmap) returns (f: nat)
    requires frames.Valid() && FreeFrames(frames.Used()) > 0
    modifies frames.bits
    ensures Lowest(old(frames.Used()), f) && frames.Used() == old(frames.Used()) + {f}
    ensures FreeFrames(frames.Used()) == old(FreeFrames(frames.Used())) - 1
  {
    SomeFrameFree(frames.Used(), FRAMES);
    f := frames.GetFrame();
  }

  /** release_page_frame of a frame in use. */
  method ReturnFrame(frames: FrameBitmap.Bitmap, paddr: nat, ghost f: nat)
    requires frames.Valid() && f in frames.Used() && f < FRAMES && paddr == f * PAGE
    modifies frames.bits
    ensures frames.Used() == old(frames.Used()) - {f}
    ensures FreeFrames(frames.Used()) == old(FreeFrames(frames.Used())) + 1
  {
    frames.ReleaseFrame(paddr);
  }

  /** The three loops of pd_create, through the page pt of the new directory. */
  method FillDirectory(m: Mem, cr3: nat, pt: u32, d: nat) returns (m': Mem)
    requires Filling(m, m, cr3, pt, d)
    ensures DirectoryFilled(m, m', d)
  {
    m' := m;
    for i := 0 to KERNEL_DIRS
      invariant Filling(m, m', cr3, pt, d)
      invariant forall j :: 0 <= j < i ==> Read(m', d, j) == Read(m, PD0, j)
    {
      FillingWalk(m, m', cr3, pt, d);
      ReadsPd0(m', cr3, i);
      var w := Load(m', cr3, PAGE + 4 * i);
      m' := StoreInPage(m', cr3, pt, d, i, w);
    }
    for i := KERNEL_DIRS to MIRROR
      invariant Filling(m, m', cr3, pt, d)
      invariant forall j :: 0 <= j < KERNEL_DIRS ==> Read(m', d, j) == Read(m, PD0, j)
      invariant forall j :: KERNEL_DIRS <= j < i ==> Read(m', d, j) == 0
    {
      FillingWalk(m, m', cr3, pt, d);
      m' := StoreInPage(m', cr3, pt, d, i, 0);
    }
    FillingWalk(m, m', cr3, pt, d);
    m' := StoreInPage(m', cr3, pt, d, MIRROR, Entry(d, RW));
  }

  /** init_mm on pd0: two 4MB pages, tables in frames fixed at boot, and the mirror. */
  method BootDirectory(ram: Mem) returns (m: Mem)
    ensures DirOk(m, PD0) && Pd0Tables(m)
    ensures Read(m, PD0, 0) == 0x83 && Read(m, PD0, 1) == 0x40_0083 && Read(m, PD0, 1023) == 0x1003
    ensures forall i: nat :: 2 <= i < 1023 ==> Read(m, PD0, i) == 0x40_0000 + 0x1000 * i + 3
  {
    m := ram[Slot(PD0, 0) := 0x83][Slot(PD0, 1) := 0x40_0083];
    for i := 2 to MIRROR
      invariant Read(m, PD0, 0) == 0x83 && Read(m, PD0, 1) == 0x40_0083
      invariant forall j :: 2 <= j < i ==> Read(m, PD0, j) == Entry(1024 + j, RW)
    {
      ghost var m0 := m;
      m := m[Slot(PD0, i) := Entry(1024 + i, RW)];
      assert forall j: nat :: j != i ==> Read(m, PD0, j) == Read(m0, PD0, j);
    }
    ghost var m0 := m;
    m := m[Slot(PD0, MIRROR) := Entry(PD0, RW)];
    assert forall j: nat :: j != MIRROR ==> Read(m, PD0, j) == Read(m0, PD0, j);
  }

  class Kernel {
    const frames: FrameBitmap.Bitmap
    const free: FreeAreas.FreeList
    var mem: Mem
    var cr3: nat
    var brk: nat
    var spaces: map<nat, Space>
    ghost var view: MM

    /** view is what the fields, the bitmap and the free list hold, together with who owns what. */
    ghost predicate Linked()
      reads this, free, frames, frames.bits
    {
      && frames.Valid() && view.used == frames.Used() && view.areas == free.areas && view.head == free.head
      && view.mem == mem && view.brk == brk && view.spaces == spaces
    }

    ghost predicate Valid()
      reads this, free, frames, frames.bits
    {
      Linked() && Good(view) && IsDirectory(spaces, cr3)
    }

    /** The directory of process pid is loaded, and pid is neither in a page fault nor exiting. */
    ghost predicate Current(pid: nat)
      reads this
    {
      Running(view, pid) && pid in spaces && |spaces[pid].base| == 1 && cr3 == spaces[pid].base[0].p
    }

    /** init_mm: bitmap, kernel directory, one page of kernel heap, free list. */
    constructor (highMem: nat, ram: Mem, head: FreeAreas.Area)
      requires FreeAreas.HeadOutside(head) && highMem * 1024 % 0x1_0000_0000 >= (RESERVED + 8) * PAGE
      ensures Valid() && cr3 == PD0 && spaces == map[] && brk == 0x1000_1000
      ensures exists s :: Booted(s) && Grow(s, view, RESERVED)
      ensures forall p: nat :: p < FRAMES ==>
                (p !in view.used <==> p > 0x800 && (p / 8 + 1) * 8 * 0x1000 <= highMem * 1024 % 0x1_0000_0000)
      ensures fresh(frames) && fresh(frames.bits) && fresh(free)
    {
      var b := new FrameBitmap.Bitmap(highMem);
      var l := new FreeAreas.FreeList(head);
      frames, free := b, l;
      var m := BootDirectory(ram);
      mem, cr3, brk, spaces := m, PD0, KERN_HEAP, map[];
      ghost var used := b.Used();
      ghost var s := BootState(used, m, head);
      view := s;
      new;
      BootStateGood(used, m, head);
      assert RESERVED !in used;
      SomeFree(used, RESERVED);
      var f := GrowPage(0);
      assert f == RESERVED;
    }

    /** The page of the kernel heap that ksbrk takes next. */
    method MapKernelPage(v: nat, f: nat)
      requires DirOk(mem, cr3) && 2 * REGION <= v < USER_OFFSET && f < FRAMES
      modifies `mem
      ensures KernelPte(old(mem), mem, v, f) && OnlyKernelTables(old(mem), mem)
    {
      KernelEntryIs(v);
      mem := WritePte(mem, cr3, v, f, RW);
    }

    /** One round of the loop of ksbrk. */
    method GrowPage(ghost pid: nat) returns (ghost f: nat)
      requires Valid() && FreeFrames(view.used) > 0 && brk < KERN_HEAP_LIM
      modifies `mem, `brk, `view, frames.bits
      ensures Valid() && Grow(old(view), view, f) && Did(old(view), view, pid) && view.areas == old(view.areas)
      ensures OnlyKernelTables(old(mem), mem) && MapsKept(old(view), view)
      ensures FreeFrames(view.used) == old(FreeFrames(view.used)) - 1 && brk == old(brk) + PAGE
      ensures old(view.used) <= view.used
    {
      ghost var s := view;
      GoodDirectory(s, cr3);
      GoodBrk(s);
      KernelEntryIs(brk);
      var frame := TakeFrame(frames);
      f := frame;
      MapKernelPage(brk, frame);
      brk := brk + PAGE;
      ghost var s' := s.(used := s.used + {f}, owner := s.owner[f := Heap(s.brk)], kmap := s.kmap[s.brk := f],
                         brk := s.brk + PAGE, mem := mem);
      assert Grow(s, s', f);
      GoodNext(s, s', pid);
      view := s';
    }

    /** ksbrk(n), as far as frames and page tables are concerned; pid is the process on whose behalf it runs. */
    method Ksbrk(n: nat, ghost pid: nat)
      requires Valid() && FreeFrames(view.used) >= n && brk + n * PAGE <= KERN_HEAP_LIM
      modifies `mem, `brk, `view, frames.bits
      ensures Valid() && Did(old(view), view, pid) && view.areas == old(view.areas)
      ensures OnlyKernelTables(old(mem), mem) && MapsKept(old(view), view)
      ensures FreeFrames(view.used) == old(FreeFrames(view.used)) - n && brk == old(brk) + n * PAGE
      ensures old(view.used) <= view.used
    {
      ghost var s := view;
      ByReflexive(s, pid);
      for i := 0 to n
        invariant Valid() && Did(s, view, pid) && view.areas == s.areas && spaces == old(spaces)
        invariant OnlyKernelTables(s.mem, mem) && MapsKept(s, view) && s.used <= view.used
        invariant FreeFrames(view.used) == FreeFrames(s.used) - i && brk == old(brk) + i * PAGE
      {
        ghost var t := view;
        ghost var _ := GrowPage(pid);
        ByTrans(s, t, view, pid);
      }
    }

    /** get_page_from_heap before its kmalloc: a frame, the lowest free page, and the mapping between them. */
    method TakePage(pid: nat) returns (pg: Page)
      requires Valid() && pid in spaces && FreeFrames(view.used) > 0 && FreeAreas.MoreThanOnePage(view.areas)
      modifies `mem, `spaces, `view, free, frames.bits
      ensures Valid() && Did(old(view), view, pid) && view.areas == FreeAreas.Taken(old(view.areas))
      ensures pg.v == old(view.areas)[0].start && Lowest(old(view.used), pg.p)
      ensures OnlyKernelTables(old(mem), mem) && MapsKept(old(view), view)
      ensures FreeFrames(view.used) == old(FreeFrames(view.used)) - 1
      ensures spaces == old(spaces)[pid := old(spaces)[pid].(plain := old(spaces)[pid].plain + [pg])]
    {
      ghost var s := view;
      GoodDirectory(s, cr3);
      GoodLowest(s);
      KernelEntryIs(s.areas[0].start);
      var f := TakeFrame(frames);
      var v := free.Get();
      MapKernelPage(v, f);
      pg := Page(v, f);
      var sp := spaces[pid];
      spaces := spaces[pid := sp.(plain := sp.plain + [pg])];
      ghost var s' := s.(used := s.used + {f}, owner := s.owner[f := PageHeap(v, pid)], kmap := s.kmap[v := f],
                         areas := FreeAreas.Taken(s.areas), mem := mem, spaces := spaces);
      assert GetPage(s, s', pid, f);
      TookPage(s, s', pid, f, cr3);
      view := s';
    }

    /** get_page_from_heap; growth is what its kmalloc makes the kernel heap grow by. */
    method GetPageFromHeap(pid: nat, growth: nat) returns (pg: Page)
      requires Valid() && pid in spaces && FreeAreas.MoreThanOnePage(view.areas)
      requires FreeFrames(view.used) > growth && brk + growth * PAGE <= KERN_HEAP_LIM
      modifies `mem, `brk, `spaces, `view, free, frames.bits
      ensures Valid() && Did(old(view), view, pid) && view.areas == FreeAreas.Taken(old(view.areas))
      ensures pg.v == old(view.areas)[0].start && Lowest(old(view.used), pg.p)
      ensures OnlyKernelTables(old(mem), mem) && MapsKept(old(view), view)
      ensures FreeFrames(view.used) == old(FreeFrames(view.used)) - 1 - growth && brk == old(brk) + growth * PAGE
      ensures spaces == old(spaces)[pid := old(spaces)[pid].(plain := old(spaces)[pid].plain + [pg])]
    {
      ghost var s := view;
      pg := TakePage(pid);
      ghost var t := view;
      Ksbrk(growth, pid);
      ByTrans(s, t, view, pid);
    }

    /** pd_create on the page it has just taken. */
    method BecomeDirectory(pid: nat, pg: Page)
      requires Valid() && pid in spaces && spaces[pid].base == [] && spaces[pid].plain == [pg]
      modifies `mem, `spaces, `view
      ensures Valid() && Did(old(view), view, pid) && view.areas == old(view.areas) && view.used == old(view.used)
      ensures spaces == old(spaces)[pid := old(spaces)[pid].(base := [pg], plain := [])]
      ensures forall i :: KERNEL_DIRS <= i < MIRROR ==> Read(mem, pg.p, i) == 0
    {
      ghost var s := view;
      GoodFilling(s, cr3, pid, pg);
      mem := FillDirectory(mem, cr3, pg.v, pg.p);
      spaces := spaces[pid := spaces[pid].(base := [pg], plain := [])];
      ghost var s' := s.(mem := mem, spaces := spaces);
      assert DropLastPlain(s.spaces[pid]).(base := [pg]) == spaces[pid];
      assert MakeDirectory(s, s', pid);
      GoodNext(s, s', pid);
      DirectoryStays(s.spaces, s'.spaces, cr3, pid);
      view := s';
    }

    /** pd_create: g1 and g2 are the heap growth of the two kmalloc calls it leads to. */
    method PdCreate(pid: nat, g1: nat, g2: nat) returns (pg: Page)
      requires Valid() && pid in spaces && spaces[pid] == NoSpace && FreeAreas.MoreThanOnePage(view.areas)
      requires FreeFrames(view.used) > g1 + g2 && brk + (g1 + g2) * PAGE <= KERN_HEAP_LIM
      modifies `mem, `brk, `spaces, `view, free, frames.bits
      ensures Valid() && Did(old(view), view, pid) && view.areas == FreeAreas.Taken(old(view.areas))
      ensures FreeFrames(view.used) == old(FreeFrames(view.used)) - 1 - g1 - g2
      ensures brk == old(brk) + (g1 + g2) * PAGE
      ensures spaces == old(spaces)[pid := Space([pg], [], [], [])]
      ensures forall i :: KERNEL_DIRS <= i < MIRROR ==> Read(mem, pg.p, i) == 0
    {
      ghost var s := view;
      Ksbrk(g1, pid);
      ghost var t := view;
      pg := GetPageFromHeap(pid, g2);
      ByTrans(s, t, view, pid);
      ghost var u := view;
      BecomeDirectory(pid, pg);
      ByTrans(s, u, view, pid);
    }

    /**
     pd_add_page for process pid, whose directory is loaded, when the region of v has no table yet; x is the
     state in which the page of the table has been taken.
     */
    method AddTable(pid: nat, v: nat, growth: nat) returns (ghost x: MM)
      requires Valid() && pid in spaces && |spaces[pid].base| == 1 && cr3 == spaces[pid].base[0].p
      requires USER_OFFSET <= v < USER_STACK && FreeAreas.MoreThanOnePage(view.areas)
      requires FreeFrames(view.used) > growth && brk + growth * PAGE <= KERN_HEAP_LIM
      requires !IsPresent(Read(mem, cr3, Dir(v)))
      modifies `mem, `brk, `spaces, `view, free, frames.bits
      ensures Valid() && Did(old(view), view, pid) && view.areas == FreeAreas.Taken(old(view.areas))
      ensures FreeFrames(view.used) == old(FreeFrames(view.used)) - 1 - growth && brk == old(brk) + growth * PAGE
      ensures IsPresent(Read(mem, cr3, Dir(v))) && MapsKept(old(view), view)
      ensures Good(x) && OnlyKernelTables(old(mem), x.mem) && MakeTable(x, view, pid, v)
      ensures x.spaces == old(spaces)[pid := x.spaces[pid]] && x.spaces[pid].base == old(spaces)[pid].base
      ensures exists t :: spaces == old(spaces)[pid := old(spaces)[pid].(tables := [t] + old(spaces)[pid].tables)]
    {
      ghost var s := view;
      GoodTable(s, pid, v);
      var sp := spaces[pid];
      var pg := GetPageFromHeap(pid, growth);
      x := view;
      assert DropLastPlain(spaces[pid]) == sp;
      BecomeTable(pid, v, pg);
      ByTrans(s, x, view, pid);
    }

    /** pd_add_page on the page it has just taken for a table. */
    method BecomeTable(pid: nat, v: nat, pg: Page)
      requires Valid() && pid in spaces && |spaces[pid].base| == 1 && cr3 == spaces[pid].base[0].p
      requires spaces[pid].plain != [] && LastPlain(spaces[pid]) == pg
      requires USER_OFFSET <= v < USER_STACK && !IsPresent(Read(mem, cr3, Dir(v)))
      modifies `mem, `spaces, `view
      ensures Valid() && Did(old(view), view, pid) && MakeTable(old(view), view, pid, v)
      ensures IsPresent(Read(mem, cr3, Dir(v)))
      ensures var sp := DropLastPlain(old(spaces)[pid]);
              spaces == old(spaces)[pid := sp.(tables := [pg] + sp.tables)]
    {
      ghost var x := view;
      GoodInstall(x, pid, pg);
      mem := InstallTable(mem, cr3, v, pg.v, pg.p, RWU);
      var sp := DropLastPlain(spaces[pid]);
      spaces := spaces[pid := sp.(tables := [pg] + sp.tables)];
      ghost var u := x.(mem := mem, raw := x.raw + {pg.p}, spaces := spaces);
      assert MakeTable(x, u, pid, v);
      GoodNext(x, u, pid);
      DirectoryStays(x.spaces, u.spaces, cr3, pid);
      view := u;
      EntryFields(pg.p, RWU);
    }

    /** The store to the page table at the end of pd_add_page. */
    method SetUserPte(pid: nat, v: nat, f: nat)
      requires Valid() && pid in spaces && |spaces[pid].base| == 1 && cr3 == spaces[pid].base[0].p
      requires USER_OFFSET <= v < USER_STACK && f < FRAMES && IsPresent(Read(mem, cr3, Dir(v)))
      requires pid in view.pending && spaces[pid].pages != [] && spaces[pid].pages[0] == Page(v, f)
      modifies `mem, `view
      ensures Valid() && By(old(view), view, pid) && SetPte(old(view), view, pid)
    {
      ghost var s := view;
      GoodTable(s, pid, v);
      mem := WritePte(mem, cr3, v, f, RWU);
      ghost var s' := s.(mem := mem, pending := s.pending - {pid},
                         raw := if Idx(v) == 0 then s.raw - {FrameOf(Read(s.mem, cr3, Dir(v)))} else s.raw);
      assert SetPte(s, s', pid);
      GoodNext(s, s', pid);
      view := s';
    }

    /** The first half of pd_add_page: make sure that the region of v has a table; made says whether it had none. */
    method EnsureTable(pid: nat, v: nat, growth: nat) returns (ghost x: MM, made: bool)
      requires Valid() && pid in spaces && |spaces[pid].base| == 1 && cr3 == spaces[pid].base[0].p
      requires USER_OFFSET <= v < USER_STACK && FreeAreas.MoreThanOnePage(view.areas)
      requires FreeFrames(view.used) > growth && brk + growth * PAGE <= KERN_HEAP_LIM
      modifies `mem, `brk, `spaces, `view, free, frames.bits
      ensures Valid() && Did(old(view), view, pid)
      ensures FreeFrames(view.used) >= old(FreeFrames(view.used)) - 1 - growth && brk <= old(brk) + growth * PAGE
      ensures view.areas == old(view.areas) || view.areas == FreeAreas.Taken(old(view.areas))
      ensures pid in spaces && spaces == old(spaces)[pid := old(spaces)[pid].(tables := spaces[pid].tables)]
      ensures |spaces[pid].tables| <= |old(spaces)[pid].tables| + 1
      ensures IsPresent(Read(mem, cr3, Dir(v))) && MapsKept(old(view), view)
      ensures made <==> !IsPresent(Read(old(mem), cr3, Dir(v)))
      ensures !made ==> view == old(view)
      ensures made ==> Good(x) && OnlyKernelTables(old(mem), x.mem) && MakeTable(x, view, pid, v)
      ensures made ==> x.spaces == old(spaces)[pid := x.spaces[pid]] && x.spaces[pid].base == old(spaces)[pid].base
    {
      GoodTable(view, pid, v);
      LoadEntries(mem, cr3, v);
      ByReflexive(view, pid);
      x := view;
      made := !IsPresent(Load(mem, cr3, PdeAddr(v)));
      if made {
        x := AddTable(pid, v, growth);
      }
    }

    /** The frame that isr_PF_exc puts on the page list of the current process. */
    method TakeUserFrame(pid: nat, v: nat) returns (f: nat)
      requires Valid() && Current(pid) && FreeFrames(view.used) > 0
      requires USER_OFFSET <= v < USER_STACK && v % PAGE == 0 && Faults(mem, cr3, v)
      modifies `spaces, `view, frames.bits
      ensures Valid() && By(old(view), view, pid) && f < FRAMES && Lowest(old(view.used), f)
      ensures view.pending == old(view.pending) + {pid} && view.exiting == old(view.exiting)
      ensures view.areas == old(view.areas) && view.kmap == old(view.kmap)
      ensures FreeFrames(view.used) == old(FreeFrames(view.used)) - 1
      ensures spaces == old(spaces)[pid := old(spaces)[pid].(pages := [Page(v, f)] + old(spaces)[pid].pages)]
    {
      ghost var s := view;
      f := TakeFrame(frames);
      spaces := spaces[pid := spaces[pid].(pages := [Page(v, f)] + spaces[pid].pages)];
      ghost var s' := s.(used := s.used + {f}, owner := s.owner[f := User(pid)], pending := s.pending + {pid},
                         spaces := spaces);
      assert AddFrame(s, s', pid, f, v);
      GoodNext(s, s', pid);
      DirectoryStays(s.spaces, s'.spaces, cr3, pid);
      view := s';
    }

    /**
     pd_add_page for the latest page of process pid, whose directory is loaded: the page is mapped, and all other
     user addresses lead where they led, under every directory, the first page of a new table apart.
     */
    method AddUserPage(pid: nat, v: nat, f: nat, growth: nat)
      requires Valid() && pid in spaces && |spaces[pid].base| == 1 && cr3 == spaces[pid].base[0].p
      requires pid in view.pending && spaces[pid].pages != [] && spaces[pid].pages[0] == Page(v, f)
      requires USER_OFFSET <= v < USER_STACK && f < FRAMES && FreeAreas.MoreThanOnePage(view.areas)
      requires FreeFrames(view.used) > growth && brk + growth * PAGE <= KERN_HEAP_LIM
      modifies `mem, `brk, `spaces, `view, free, frames.bits
      ensures Valid() && By(old(view), view, pid)
      ensures view.pending == old(view.pending) - {pid} && view.exiting == old(view.exiting)
      ensures FreeFrames(view.used) >= old(FreeFrames(view.used)) - 1 - growth && brk <= old(brk) + growth * PAGE
      ensures view.areas == old(view.areas) || view.areas == FreeAreas.Taken(old(view.areas))
      ensures pid in spaces && spaces == old(spaces)[pid := old(spaces)[pid].(tables := spaces[pid].tables)]
      ensures |spaces[pid].tables| <= |old(spaces)[pid].tables| + 1 && MapsKept(old(view), view)
      ensures UserKept(old(mem), mem, old(spaces), cr3, v)
      ensures v % PAGE == 0 ==>
                forall a :: v <= a < v + PAGE && a < USER_STACK ==> Walk(mem, cr3, a) == At(f * PAGE + a % PAGE)
    {
      ghost var s := view;
      ghost var x, made := EnsureTable(pid, v, growth);
      ghost var u := view;
      SetUserPte(pid, v, f);
      ByTrans(s, u, view, pid);
      AddedPage(s, x, u, view, pid, v, made);
    }

    /** isr_PF_exc on a user address: demand paging. g1, g2: heap growth of its own kmalloc and of the table's. */
    method PageFault(pid: nat, addr: nat, g1: nat, g2: nat) returns (f: nat)
      requires Valid() && Current(pid) && Faults(mem, cr3, addr)
      requires USER_OFFSET <= addr < USER_STACK && FreeAreas.MoreThanOnePage(view.areas)
      requires FreeFrames(view.used) > 1 + g1 + g2 && brk + (g1 + g2) * PAGE <= KERN_HEAP_LIM
      modifies `mem, `brk, `spaces, `view, free, frames.bits
      ensures Valid() && Current(pid) && Did(old(view), view, pid)
      ensures FreeFrames(view.used) >= old(FreeFrames(view.used)) - 2 - g1 - g2
      ensures brk <= old(brk) + (g1 + g2) * PAGE
      ensures view.areas == old(view.areas) || view.areas == FreeAreas.Taken(old(view.areas))
      ensures f !in old(view.used) && Walk(mem, cr3, addr) == At(f * PAGE + addr % PAGE) && !Faults(mem, cr3, addr)
      ensures UserKept(old(mem), mem, old(spaces), cr3, addr / PAGE * PAGE) && MapsKept(old(view), view)
      ensures pid in spaces && spaces[pid].base == old(spaces)[pid].base && spaces[pid].plain == old(spaces)[pid].plain
      ensures spaces[pid].pages == [Page(addr / PAGE * PAGE, f)] + old(spaces)[pid].pages
      ensures |spaces[pid].tables| <= |old(spaces)[pid].tables| + 1
      ensures forall q :: q != pid ==>
                (q in spaces <==> q in old(spaces)) && (q in spaces ==> spaces[q] == old(spaces)[q])
    {
      ghost var s := view;
      var v := addr / PAGE * PAGE;
      FaultOfPage(mem, cr3, addr);
      Ksbrk(g1, pid);
      ghost var t := view;
      StillFaults(s, mem, cr3, v);
      f := TakeUserFrame(pid, v);
      ByTrans(s, t, view, pid);
      ghost var u := view;
      AddUserPage(pid, v, f, g2);
      ByTrans(s, u, view, pid);
      KeptBefore(s, u, mem, pid, cr3, v);
      GoodListed(view, pid, 0);
      FaultOfPage(mem, cr3, addr);
    }

    /** A word stored at a user address: it goes to the page on the list for that address, raw slots apart. */
    method StoreWord(pid: nat, a: nat, w: u32)
      requires Valid() && Current(pid) && IsUserDir(Dir(a)) && a % 4 == 0 && Walk(mem, cr3, a).At?
      requires RawSlot(view, cr3, a) ==> !KernelFrame(view, SlotAt(Walk(mem, cr3, a).addr).frame)
      modifies `mem, `view
      ensures Valid() && Current(pid) && Did(old(view), view, pid) && mem == Store(old(mem), cr3, a, w)
      ensures Page(a / PAGE * PAGE, Walk(old(mem), cr3, a).addr / PAGE) in spaces[pid].pages <==>
              !RawSlot(old(view), cr3, a)
    {
      ghost var s := view;
      GoodStore(s, pid, a);
      mem := Store(mem, cr3, a, w);
      ghost var s' := s.(mem := mem);
      assert StoreThrough(s, s', pid, a, w);
      GoodNext(s, s', pid);
      view := s';
    }

    // ---- giving back

    /** get_p_addr followed by pd_remove_page, as release_page_from_heap uses them. */
    method UnmapPage(v: u32) returns (paddr: nat)
      requires Valid() && v in view.kmap && view.kmap[v] > 0
      modifies `mem
      ensures paddr == view.kmap[v] * PAGE && KernelPteCleared(view.mem, mem, v)
    {
      GoodUnmap(view, cr3, v);
      paddr := GetPAddr(mem, cr3, v);
      mem := RemovePage(mem, cr3, v);
    }

    /** release_page_from_heap of a page of process pid, up to the kmalloc of a new area; sp' is what pid keeps. */
    method GivePageBack(pid: nat, pg: Page, sp': Space)
      requires Valid() && pid in spaces && WithoutPage(spaces[pid], sp', pg)
      modifies `mem, `spaces, `view, free, frames.bits
      ensures Valid() && Did(old(view), view, pid) && spaces == old(spaces)[pid := sp']
      ensures FreeFrames(view.used) == old(FreeFrames(view.used)) + 1
    {
      ghost var s := view;
      GoodOwnPage(s, pid, pg, sp');
      GoodGiveBack(s, pg.v);
      var paddr := UnmapPage(pg.v);
      ReturnFrame(frames, paddr, pg.p);
      var ok := free.Release(pg.v);
      spaces := spaces[pid := sp'];
      ghost var s' := s.(used := s.used - {pg.p}, owner := s.owner - {pg.p}, kmap := s.kmap - {pg.v},
                         areas := free.areas, mem := mem, spaces := spaces);
      assert ReleasePage(s, s', pid, pg, sp');
      GoodNext(s, s', pid);
      DirectoryStays(s.spaces, s'.spaces, cr3, pid);
      view := s';
    }

    /** release_page_from_heap; grows says whether the kmalloc of a new area needs a page for the kernel heap. */
    method ReleasePageFromHeap(pid: nat, pg: Page, sp': Space, grows: bool)
      requires Valid() && pid in spaces && WithoutPage(spaces[pid], sp', pg) && brk + PAGE <= KERN_HEAP_LIM
      modifies `mem, `brk, `spaces, `view, free, frames.bits
      ensures Valid() && Did(old(view), view, pid) && spaces == old(spaces)[pid := sp'] && brk <= old(brk) + PAGE
    {
      ghost var s := view;
      GoodFrames(s);
      GivePageBack(pid, pg, sp');
      if grows {
        ghost var t := view;
        Ksbrk(1, pid);
        ByTrans(s, t, view, pid);
      }
    }

    /** sys_exit marks the process: it runs no user code any more. */
    ghost method MarkExiting(pid: nat)
      requires Valid() && pid in spaces && pid !in view.pending && pid !in view.exiting
      modifies `view
      ensures Valid() && By(old(view), view, pid) && view == old(view).(exiting := old(view.exiting) + {pid})
    {
      var s := view;
      var s' := s.(exiting := s.exiting + {pid});
      assert BeginExit(s, s', pid);
      assert s'.spaces[pid] == s.spaces[pid];
      GoodNext(s, s', pid);
      view := s';
    }

    /** The loop of sys_exit over the page list. */
    method ReleaseUserFrames(pid: nat)
      requires Valid() && pid in spaces && pid in view.exiting
      modifies `spaces, `view, frames.bits
      ensures Valid() && Did(old(view), view, pid)
      ensures spaces == old(spaces)[pid := old(spaces)[pid].(pages := [])]
    {
      ghost var s := view;
      ByReflexive(s, pid);
      while spaces[pid].pages != []
        invariant Valid() && Did(s, view, pid) && pid in spaces
        invariant spaces == old(spaces)[pid := old(spaces)[pid].(pages := spaces[pid].pages)]
        decreases |spaces[pid].pages|
      {
        ghost var t := view;
        DropFirstFrame(pid);
        ByTrans(s, t, view, pid);
      }
    }

    method DropFirstFrame(pid: nat)
      requires Valid() && pid in spaces && pid in view.exiting && spaces[pid].pages != []
      modifies `spaces, `view, frames.bits
      ensures Valid() && Did(old(view), view, pid)
      ensures spaces == old(spaces)[pid := old(spaces)[pid].(pages := old(spaces)[pid].pages[1..])]
    {
      ghost var t := view;
      GoodDrop(t, pid);
      var pg := spaces[pid].pages[0];
      ReturnFrame(frames, pg.p * PAGE, pg.p);
      spaces := spaces[pid := spaces[pid].(pages := spaces[pid].pages[1..])];
      ghost var u := t.(used := t.used - {pg.p}, owner := t.owner - {pg.p}, spaces := spaces);
      assert DropFrame(t, u, pid);
      GoodNext(t, u, pid);
      DirectoryStays(t.spaces, u.spaces, cr3, pid);
      view := u;
    }

    /** Another directory is loaded, so that of pid is no longer in use. */
    method SwitchTo(pid: nat, other: nat)
      requires Valid() && pid in spaces && pid in view.exiting
      requires IsDirectory(spaces - {pid}, other)
      modifies `cr3, `spaces, `view
      ensures Valid() && Did(old(view), view, pid) && cr3 == other
      ensures var sp := old(spaces)[pid]; spaces == old(spaces)[pid := sp.(base := [], plain := sp.base + sp.plain)]
    {
      ghost var s := view;
      cr3 := other;
      spaces := spaces[pid := spaces[pid].(base := [], plain := spaces[pid].base + spaces[pid].plain)];
      ghost var s' := s.(spaces := spaces);
      assert Retire(s, s', pid);
      GoodNext(s, s', pid);
      OtherDirectory(s.spaces, s'.spaces, other, pid);
      view := s';
    }

    /** pd_destroy: the tables in list order, then the directory; grows(k) is about the k-th release. */
    method PdDestroy(pid: nat, grows: nat -> bool)
      requires Valid() && pid in spaces && spaces[pid].base == [] && |spaces[pid].plain| == 1 && spaces[pid].pages == []
      requires brk + (|spaces[pid].tables| + 1) * PAGE <= KERN_HEAP_LIM
      modifies `mem, `brk, `spaces, `view, free, frames.bits
      ensures Valid() && Did(old(view), view, pid) && spaces == old(spaces)[pid := NoSpace]
    {
      ghost var s := view;
      ByReflexive(s, pid);
      var k := 0;
      while spaces[pid].tables != []
        invariant Valid() && Did(s, view, pid) && pid in spaces
        invariant spaces == old(spaces)[pid := old(spaces)[pid].(tables := spaces[pid].tables)]
        invariant brk + (|spaces[pid].tables| + 1) * PAGE <= KERN_HEAP_LIM
        decreases |spaces[pid].tables|
      {
        ghost var t := view;
        var sp := spaces[pid];
        ReleasePageFromHeap(pid, sp.tables[0], sp.(tables := sp.tables[1..]), grows(k));
        ByTrans(s, t, view, pid);
        k := k + 1;
      }
      ghost var t := view;
      var sp := spaces[pid];
      ReleasePageFromHeap(pid, sp.plain[0], sp.(plain := []), grows(k));
      ByTrans(s, t, view, pid);
    }

    method DropSpace(pid: nat)
      requires Valid() && pid in spaces && spaces[pid] == NoSpace && pid !in view.pending
      modifies `spaces, `view
      ensures Valid() && By(old(view), view, pid) && spaces == old(spaces) - {pid}
      ensures view.pending == old(view.pending) && view.exiting == old(view.exiting) - {pid}
    {
      ghost var s := view;
      spaces := spaces - {pid};
      ghost var s' := s.(spaces := spaces, exiting := s.exiting - {pid});
      assert Forget(s, s', pid);
      GoodNext(s, s', pid);
      OtherDirectory(s.spaces, s'.spaces, cr3, pid);
      view := s';
    }

    /** The memory side of sys_exit for the current process: nothing of it is left. */
    method ExitMemory(pid: nat, stackGrows: bool, grows: nat -> bool)
      requires Valid() && Running(view, pid) && |spaces[pid].plain| == 1
      requires brk + (|spaces[pid].tables| + 2) * PAGE <= KERN_HEAP_LIM
      modifies `mem, `brk, `cr3, `spaces, `view, free, frames.bits
      ensures Valid() && Did(old(view), view, pid) && cr3 == PD0
      ensures spaces == old(spaces) - {pid}
    {
      ghost var s := view;
      MarkExiting(pid);
      ghost var r := view;
      ReleaseUserFrames(pid);
      ByTrans(s, r, view, pid);
      ghost var t := view;
      var sp := spaces[pid];
      ReleasePageFromHeap(pid, sp.plain[0], sp.(plain := []), stackGrows);
      ByTrans(s, t, view, pid);
      ghost var u := view;
      SwitchTo(pid, PD0);
      ByTrans(s, u, view, pid);
      ghost var w := view;
      PdDestroy(pid, grows);
      ByTrans(s, w, view, pid);
      ghost var x := view;
      DropSpace(pid);
      ByTrans(s, x, view, pid);
    }

    // ---- loading

    /** An access to a user address: a page fault if the processor raises one. */
    method Touch(pid: nat, addr: nat, g1: nat, g2: nat)
      requires Valid() && Current(pid)
      requires USER_OFFSET <= addr < USER_STACK && FreeAreas.MoreThanOnePage(view.areas)
      requires FreeFrames(view.used) > 1 + g1 + g2 && brk + (g1 + g2) * PAGE <= KERN_HEAP_LIM
      modifies `mem, `brk, `spaces, `view, free, frames.bits
      ensures Valid() && Current(pid) && Did(old(view), view, pid) && OnlyFaulted(old(spaces), pid, 1)
      ensures FreeFrames(view.used) >= old(FreeFrames(view.used)) - 2 - g1 - g2
      ensures brk <= old(brk) + (g1 + g2) * PAGE
      ensures view.areas == old(view.areas) || view.areas == FreeAreas.Taken(old(view.areas))
      ensures Faults(old(mem), old(cr3), addr) ==> spaces[pid].pages != []
    {
      ByReflexive(view, pid);
      if Faults(mem, cr3, addr) {
        var _ := PageFault(pid, addr, g1, g2);
      }
    }

    /** Everything but the page list and the tables of pid is as in before, and no page has left the list. */
    ghost predicate OnlyFaulted(before: map<nat, Space>, pid: nat, n: nat)
      reads this
    {
      && pid in before && pid in spaces
      && spaces[pid].base == before[pid].base && spaces[pid].plain == before[pid].plain
      && |spaces[pid].tables| <= |before[pid].tables| + n && |spaces[pid].pages| >= |before[pid].pages|
      && forall q :: q != pid ==> (q in spaces <==> q in before) && (q in spaces ==> spaces[q] == before[q])
    }

    /** The first of the accesses fs. */
    method FirstAccess(pid: nat, fs: seq<PFault>, ghost spareFrames: nat, ghost spareGrowth: nat, ghost sparePages: nat)
      requires Valid() && Current(pid)
      requires fs != [] && UserFaults(fs) && Affords(view, fs, spareFrames, spareGrowth, sparePages)
      modifies `mem, `brk, `spaces, `view, free, frames.bits
      ensures Valid() && Current(pid) && Did(old(view), view, pid) && OnlyFaulted(old(spaces), pid, 1)
      ensures Affords(view, fs[1..], spareFrames, spareGrowth, sparePages)
      ensures Faults(old(mem), old(cr3), fs[0].addr) ==> spaces[pid].pages != []
    {
      FewerPages(view.areas, |fs| + sparePages);
      Touch(pid, fs[0].addr, fs[0].g1, fs[0].g2);
    }

    /** Any number of accesses of process pid while its directory is loaded. */
    method Accesses(pid: nat, fs: seq<PFault>, ghost spareFrames: nat, ghost spareGrowth: nat, ghost sparePages: nat)
      requires Valid() && Current(pid) && UserFaults(fs)
      requires Affords(view, fs, spareFrames, spareGrowth, sparePages)
      modifies `mem, `brk, `spaces, `view, free, frames.bits
      ensures Valid() && Current(pid) && Did(old(view), view, pid) && OnlyFaulted(old(spaces), pid, |fs|)
      ensures Affords(view, [], spareFrames, spareGrowth, sparePages)
      ensures fs != [] && Faults(old(mem), old(cr3), fs[0].addr) ==> spaces[pid].pages != []
      ensures fs == [] ==> spaces == old(spaces)
    {
      ghost var s := view;
      ByReflexive(s, pid);
      assert fs[0..] == fs;
      for i := 0 to |fs|
        invariant Valid() && Current(pid) && Did(s, view, pid)
        invariant Affords(view, fs[i..], spareFrames, spareGrowth, sparePages)
        invariant OnlyFaulted(old(spaces), pid, i) && (i == 0 ==> mem == s.mem && spaces == old(spaces))
        invariant i > 0 && Faults(s.mem, old(cr3), fs[0].addr) ==> spaces[pid].pages != []
      {
        ghost var t := view;
        assert fs[i..][1..] == fs[i + 1..];
        FirstAccess(pid, fs[i..], spareFrames, spareGrowth, sparePages);
        ByTrans(s, t, view, pid);
      }
    }

    /** The process structure as load_task finds it, with nothing in it. */
    method NewSpace(pid: nat)
      requires Valid() && pid !in spaces
      modifies `spaces, `view
      ensures Valid() && Did(old(view), view, pid) && spaces == old(spaces)[pid := NoSpace]
      ensures view.used == old(view.used) && view.areas == old(view.areas)
    {
      ghost var s := view;
      spaces := spaces[pid := NoSpace];
      ghost var s' := s.(spaces := spaces);
      assert Spawn(s, s', pid);
      GoodNext(s, s', pid);
      NewSpaceKeepsDirectory(s.spaces, s'.spaces, cr3, pid);
      view := s';
    }

    /** A new process with an empty directory, which is then loaded. */
    method NewDirectory(pid: nat, g1: nat, g2: nat) returns (base: Page)
      requires Valid() && pid !in spaces && FreeAreas.MoreThanOnePage(view.areas)
      requires FreeFrames(view.used) > g1 + g2 && brk + (g1 + g2) * PAGE <= KERN_HEAP_LIM
      modifies `mem, `brk, `cr3, `spaces, `view, free, frames.bits
      ensures Valid() && Current(pid) && Did(old(view), view, pid) && view.areas == FreeAreas.Taken(old(view.areas))
      ensures FreeFrames(view.used) == old(FreeFrames(view.used)) - 1 - g1 - g2
      ensures brk == old(brk) + (g1 + g2) * PAGE
      ensures spaces == old(spaces)[pid := Space([base], [], [], [])]
      ensures forall i :: KERNEL_DIRS <= i < MIRROR ==> Read(mem, cr3, i) == 0
    {
      ghost var s := view;
      GoodLife(s, pid);
      NewSpace(pid);
      ghost var a := view;
      base := PdCreate(pid, g1, g2);
      ByTrans(s, a, view, pid);
      assert pid in spaces && spaces[pid].base[0] == base;
      cr3 := base.p;
    }

    /** The memory side of load_task when load_elf succeeds: directory, image and stack, kernel stack. */
    method LoadMemory(pid: nat, g1: nat, g2: nat, fs: seq<PFault>, g3: nat, ghost more: seq<PFault>, ghost spare: nat)
      requires Valid() && pid !in spaces && UserFaults(fs)
      requires Affords(view, fs + more, 2 + g1 + g2 + g3, g1 + g2 + g3 + spare, 2)
      modifies `mem, `brk, `cr3, `spaces, `view, free, frames.bits
      ensures Valid() && Running(view, pid) && Did(old(view), view, pid) && cr3 == old(cr3)
      ensures |spaces[pid].plain| == 1 && |spaces[pid].tables| <= |fs|
      ensures Affords(view, more, 0, spare, 0)
    {
      ghost var s := view;
      GrowthAppend(fs, more);
      var previous := cr3;
      var base := NewDirectory(pid, g1, g2);
      ghost var b := view;
      Accesses(pid, fs, 1 + g3 + 2 * |more| + Growth(more), g3 + Growth(more) + spare, 1 + |more|);
      ByTrans(s, b, view, pid);
      ghost var c := view;
      var kstack := GetPageFromHeap(pid, g3);
      ByTrans(s, c, view, pid);
      NewSpaceKeepsDirectory(s.spaces, spaces, previous, pid);
      cr3 := previous;
    }

    /** load_elf has returned 0: nothing looks at the page list of the process again. */
    method ForgetPages(pid: nat)
      requires Valid() && Running(view, pid)
      modifies `spaces, `view
      ensures Valid() && Abandon(old(view), view, pid) && cr3 == old(cr3)
    {
      ghost var s := view;
      spaces := spaces[pid := spaces[pid].(pages := [])];
      ghost var s' := s.(exiting := s.exiting + {pid}, spaces := spaces,
                         owner := map f | f in s.owner :: if s.owner[f] == User(pid) then Leaked else s.owner[f]);
      assert Abandon(s, s', pid);
      GoodAbandon(s, s', pid);
      DirectoryStays(s.spaces, s'.spaces, cr3, pid);
      view := s';
    }

    /** The error path of load_task once load_elf has failed. */
    method CleanUp(pid: nat, previous: nat, grows: nat -> bool)
      requires Valid() && pid in spaces && pid in view.exiting && IsDirectory(spaces - {pid}, previous)
      requires |spaces[pid].base| == 1 && spaces[pid].plain == [] && spaces[pid].pages == []
      requires brk + (|spaces[pid].tables| + 1) * PAGE <= KERN_HEAP_LIM
      modifies `mem, `brk, `cr3, `spaces, `view, free, frames.bits
      ensures Valid() && By(old(view), view, pid) && cr3 == previous && spaces == old(spaces) - {pid}
    {
      ghost var s := view;
      GoodLife(s, pid);
      SwitchTo(pid, previous);
      ghost var w := view;
      PdDestroy(pid, grows);
      ByTrans(s, w, view, pid);
      ghost var x := view;
      DropSpace(pid);
      ByTrans(s, x, view, pid);
    }

    /**
     load_task when load_elf fails after the accesses fs: the frames on the page list (left) stay marked used, so
     memory is conserved exactly if load_elf has touched no user page.
     */
    method FailedLoad(pid: nat, g1: nat, g2: nat, fs: seq<PFault>, grows: nat -> bool) returns (ghost left: seq<Page>)
      requires Valid() && pid !in spaces && UserFaults(fs)
      requires Affords(view, fs, 1 + g1 + g2, g1 + g2 + |fs| + 1, 1)
      modifies `mem, `brk, `cr3, `spaces, `view, free, frames.bits
      ensures Valid() && cr3 == old(cr3) && spaces.Keys == old(spaces).Keys && old(view.used) <= view.used
      ensures NonHeap(view) == old(NonHeap(view)) + ListFrames(left)
      ensures NonHeap(view) == old(NonHeap(view)) <==> left == []
      ensures left == [] <==> fs == []
      ensures forall x :: FreeAreas.IsPage(x) ==>
                (FreeAreas.IsFree(view.areas, x) <==> FreeAreas.IsFree(old(view.areas), x))
    {
      ghost var s := view;
      var previous := cr3;
      var base := NewDirectory(pid, g1, g2);
      ghost var b := view;
      if fs != [] {
        EmptyFaults(mem, cr3, fs[0].addr);
      }
      Accesses(pid, fs, 0, |fs| + 1, 0);
      ByTrans(s, b, view, pid);
      ghost var t := view;
      left := spaces[pid].pages;
      ForgetPages(pid);
      ghost var u := view;
      NewSpaceKeepsDirectory(s.spaces, spaces - {pid}, previous, pid);
      CleanUp(pid, previous, grows);
      FailedConservation(s, t, u, view, pid);
    }

    /** A process loaded, accessing memory any number of times, and exiting gives everything back. */
    method Life(pid: nat, g1: nat, g2: nat, fs: seq<PFault>, g3: nat, more: seq<PFault>, stackGrows: bool,
                grows: nat -> bool)
      requires Valid() && pid !in spaces && UserFaults(fs) && UserFaults(more)
      requires Affords(view, fs + more, 2 + g1 + g2 + g3, g1 + g2 + g3 + |fs| + |more| + 2, 2)
      modifies this, free, frames.bits
      ensures Valid() && spaces.Keys == old(spaces).Keys
      ensures old(view.used) <= view.used && NonHeap(view) == old(NonHeap(view))
      ensures forall x :: FreeAreas.IsPage(x) ==>
                (FreeAreas.IsFree(view.areas, x) <==> FreeAreas.IsFree(old(view.areas), x))
    {
      ghost var s := view;
      LoadMemory(pid, g1, g2, fs, g3, more, |fs| + |more| + 2);
      ghost var t := view;
      cr3 := spaces[pid].base[0].p;
      Accesses(pid, more, 0, |fs| + |more| + 2, 0);
      ByTrans(s, t, view, pid);
      ghost var u := view;
      ExitMemory(pid, stackGrows, grows);
      ByTrans(s, u, view, pid);
      GoodConservation(s, view, pid);
    }
  }
}
