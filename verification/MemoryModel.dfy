/**
 What the bitmap, the free list, the page tables and the process structures must agree on:
 every frame has exactly one owner, and every directory maps kernel space the same way.
 Pure state and transitions; Memory holds the code.
 */
module MemoryModel {
  import opened Layout
  import opened Words
  import opened Paging
  import FreeAreas

  /** The frame of pd0. */
  const PD0 := 1
  const KERNEL_DIRS := 256
  const RW := 3
  const RWU := 7

  /** struct page: a virtual page and its frame. */
  datatype Page = Page(v: nat, p: nat)

  /**
   What a process structure holds: its directory (absent before pd_create and once pd_destroy has
   started), its page tables, its other pages of the page heap, and its user pages (pglist).
   */
  datatype Space = Space(base: seq<Page>, tables: seq<Page>, plain: seq<Page>, pages: seq<Page>)

  const NoSpace := Space([], [], [], [])

  function HeapPages(sp: Space): seq<Page> { sp.base + sp.tables + sp.plain }

  /** Leaked: a user frame of a load that failed, which no structure names any more. */
  datatype Owner = Boot | Heap(v: nat) | PageHeap(v: nat, pid: nat) | User(pid: nat) | Leaked

  /**
   boot: frames reserved by init_mm or absent; used: frames marked in the bitmap;
   owner and kmap (kernel page to frame) are what the structures say about frames;
   head: the two words in front of the list head of the free areas.
   The last three record history that the code does not keep.  raw: table frames whose entry 0 has
   not been written since the table was made; pending: processes whose latest user page is on their
   list and not yet in their tables; exiting: processes that run no user code any more.
   */
  datatype MM = MM(boot: set<nat>, used: set<nat>, areas: seq<FreeAreas.Area>, mem: Mem, brk: nat,
                   spaces: map<nat, Space>, owner: map<nat, Owner>, kmap: map<nat, nat>,
                   head: FreeAreas.Area, raw: set<nat>, pending: set<nat>, exiting: set<nat>)

  /** Pages of the page heap that are handed out. */
  function Out(kmap: map<nat, nat>): set<nat> { set v | v in kmap && v < KERN_HEAP }

  // ---- the invariant

  ghost predicate Frames(boot: set<nat>, used: set<nat>, owner: map<nat, Owner>) {
    && used == owner.Keys
    && (forall f :: f in used ==> f < FRAMES)
    && (forall f :: f in boot <==> f in owner && owner[f] == Boot)
    && (forall f: nat :: f < RESERVED ==> f in boot)
  }

  /** Kernel pages and the frames behind them: a one-to-one match. */
  ghost predicate Mapped(owner: map<nat, Owner>, kmap: map<nat, nat>) {
    && (forall v :: v in kmap ==>
          && v % PAGE == 0 && kmap[v] in owner
          && (if v < KERN_HEAP then owner[kmap[v]].PageHeap? && owner[kmap[v]].v == v else owner[kmap[v]] == Heap(v)))
    && (forall f :: f in owner && (owner[f].Heap? || owner[f].PageHeap?) ==>
                      owner[f].v in kmap && kmap[owner[f].v] == f)
  }

  ghost predicate Ranges(kmap: map<nat, nat>, areas: seq<FreeAreas.Area>, brk: nat) {
    && FreeAreas.Inv(FreeAreas.State(areas, Out(kmap)))
    && KERN_HEAP <= brk <= KERN_HEAP_LIM && brk % PAGE == 0
    && (forall v :: KERN_HEAP <= v && v % PAGE == 0 ==> (v in kmap <==> v < brk))
  }

  /** Frame of the kernel page table for v: fixed at boot. */
  function KTable(v: nat): nat { 1024 + Dir(v) }

  ghost predicate Ptes(mem: Mem, kmap: map<nat, nat>) {
    forall v :: v in kmap ==> kmap[v] < FRAMES && Read(mem, KTable(v), Idx(v)) == Entry(kmap[v], RW)
  }

  /** Entries 0..255 of every directory. */
  function KernelEntry(i: nat): u32
    requires i < KERNEL_DIRS
  {
    if i < 2 then i * REGION + 0x83 else Entry(1024 + i, RW)
  }

  ghost predicate DirOk(mem: Mem, d: nat) {
    && (forall i :: 0 <= i < KERNEL_DIRS ==> Read(mem, d, i) == KernelEntry(i))
    && SelfMapped(mem, d)
  }

  /** Directory entry i points at a table of the process. */
  ghost predicate PointsAt(mem: Mem, d: nat, i: nat, tables: seq<Page>) {
    exists k :: 0 <= k < |tables| && tables[k].p < FRAMES && Read(mem, d, i) == Entry(tables[k].p, RWU)
  }

  predicate IsUserDir(i: nat) { KERNEL_DIRS <= i < MIRROR }

  /** The user entries of a directory point at tables of its process, each at another one. */
  ghost predicate UserEntries(mem: Mem, d: nat, tables: seq<Page>) {
    && (forall i: nat :: IsUserDir(i) && IsPresent(Read(mem, d, i)) ==> PointsAt(mem, d, i, tables))
    && (forall i: nat, j: nat :: IsUserDir(i) && IsUserDir(j) && i != j && IsPresent(Read(mem, d, i)) ==>
          Read(mem, d, i) != Read(mem, d, j))
  }

  /** pd0 has a table of its own, reserved at boot, for every region that is not a 4MB page. */
  ghost predicate Pd0Tables(mem: Mem) {
    forall i :: 2 <= i < MIRROR ==> Read(mem, PD0, i) == Entry(1024 + i, RW)
  }

  ghost predicate Dirs(mem: Mem, spaces: map<nat, Space>) {
    && DirOk(mem, PD0) && Pd0Tables(mem)
    && forall pid :: pid in spaces && spaces[pid].base != [] ==>
         |spaces[pid].base| == 1 && DirOk(mem, spaces[pid].base[0].p) &&
         UserEntries(mem, spaces[pid].base[0].p, spaces[pid].tables)
  }

  /** The lists of a process name exactly the frames it owns, each once. */
  ghost predicate Owns(owner: map<nat, Owner>, pid: nat, sp: Space) {
    && (forall k :: 0 <= k < |HeapPages(sp)| ==>
          HeapPages(sp)[k].p in owner && owner[HeapPages(sp)[k].p] == PageHeap(HeapPages(sp)[k].v, pid))
    && (forall k :: 0 <= k < |sp.pages| ==> sp.pages[k].p in owner && owner[sp.pages[k].p] == User(pid))
    && (forall j, k :: 0 <= j < k < |HeapPages(sp)| ==> HeapPages(sp)[j].p != HeapPages(sp)[k].p)
    && (forall j, k :: 0 <= j < k < |sp.pages| ==> sp.pages[j].p != sp.pages[k].p)
  }

  ghost predicate Listed(owner: map<nat, Owner>, spaces: map<nat, Space>) {
    && (forall pid :: pid in spaces ==> Owns(owner, pid, spaces[pid]))
    && (forall f :: f in owner && owner[f].PageHeap? ==>
          owner[f].pid in spaces && Page(owner[f].v, f) in HeapPages(spaces[owner[f].pid]))
    && (forall f :: f in owner && owner[f].User? ==>
          owner[f].pid in spaces && exists v :: Page(v, f) in spaces[owner[f].pid].pages)
  }

  ghost predicate Inv(s: MM) {
    && Frames(s.boot, s.used, s.owner)
    && Mapped(s.owner, s.kmap)
    && Ranges(s.kmap, s.areas, s.brk)
    && Ptes(s.mem, s.kmap)
    && Dirs(s.mem, s.spaces)
    && Listed(s.owner, s.spaces)
    && FreeAreas.HeadOutside(s.head)
  }

  // ---- what the invariant says

  ghost function HeapFrames(s: MM): set<nat> { set v | v in s.kmap && v >= KERN_HEAP :: s.kmap[v] }

  ghost function PageFrames(s: MM): set<nat> { set v | v in s.kmap && v < KERN_HEAP :: s.kmap[v] }

  ghost function UserFrames(s: MM): set<nat> { set f | f in s.owner && s.owner[f].User? }

  ghost function LeakedFrames(s: MM): set<nat> { set f | f in s.owner && s.owner[f].Leaked? }

  /** The frames in use are the disjoint union of the five kinds. */
  lemma FramePartition(s: MM)
    requires Inv(s)
    ensures s.used == s.boot + HeapFrames(s) + PageFrames(s) + UserFrames(s) + LeakedFrames(s)
    ensures s.boot !! HeapFrames(s) !! PageFrames(s) !! UserFrames(s) !! LeakedFrames(s)
  {
    forall f | f in s.used
      ensures f in s.boot + HeapFrames(s) + PageFrames(s) + UserFrames(s) + LeakedFrames(s)
    {
      if s.owner[f].Heap? || s.owner[f].PageHeap? {
        assert s.kmap[s.owner[f].v] == f;
      }
    }
  }

  /** No frame is behind two kernel pages. */
  lemma KernelPagesDistinct(s: MM, v: nat, w: nat)
    requires Inv(s) && v in s.kmap && w in s.kmap && v != w
    ensures s.kmap[v] != s.kmap[w]
  {
  }

  /** No frame is on two page lists, or twice on one; and a listed frame is marked used. */
  lemma UserPagesDistinct(s: MM, pid: nat, j: nat, pid': nat, k: nat)
    requires Inv(s) && pid in s.spaces && pid' in s.spaces
    requires j < |s.spaces[pid].pages| && k < |s.spaces[pid'].pages| && (pid != pid' || j != k)
    ensures s.spaces[pid].pages[j].p != s.spaces[pid'].pages[k].p
    ensures s.spaces[pid].pages[j].p in UserFrames(s)
  {
    assert Owns(s.owner, pid, s.spaces[pid]) && Owns(s.owner, pid', s.spaces[pid']);
  }

  /** A directory the processor may be using. */
  ghost predicate IsDirectory(spaces: map<nat, Space>, d: nat) {
    d == PD0 || exists pid :: pid in spaces && spaces[pid].base != [] && spaces[pid].base[0].p == d
  }

  lemma DirectoryOk(s: MM, d: nat)
    requires Inv(s) && IsDirectory(s.spaces, d)
    ensures DirOk(s.mem, d)
  {
  }

  lemma KernelEntryIs(v: nat)
    requires 2 * REGION <= v < USER_OFFSET
    ensures 2 <= Dir(v) < KERNEL_DIRS && KernelEntry(Dir(v)) == Entry(KTable(v), RW)
    ensures FrameOf(KernelEntry(Dir(v))) == KTable(v) < RESERVED
    ensures IsPresent(KernelEntry(Dir(v))) && !IsBig(KernelEntry(Dir(v)))
  {
    EntryFields(KTable(v), RW);
  }

  /** Every directory translates kernel addresses the same way, through the tables fixed at boot. */
  lemma KernelSpaceAgrees(s: MM, d: nat, d': nat, v: nat)
    requires Inv(s) && IsDirectory(s.spaces, d) && IsDirectory(s.spaces, d') && v < USER_OFFSET
    ensures Walk(s.mem, d, v) == Walk(s.mem, d', v)
    ensures v >= 2 * REGION ==> FrameOf(Read(s.mem, d, Dir(v))) == KTable(v) && KTable(v) in s.boot
  {
    DirectoryOk(s, d);
    DirectoryOk(s, d');
    assert Dir(v) < KERNEL_DIRS;
    if v >= 2 * REGION {
      KernelEntryIs(v);
    }
  }

  /** A kernel page is translated to its frame under every directory. */
  lemma KernelPageWalk(s: MM, d: nat, v: nat)
    requires Inv(s) && IsDirectory(s.spaces, d) && v in s.kmap
    ensures 2 * REGION <= v < USER_OFFSET
    ensures Walk(s.mem, d, v) == At(s.kmap[v] * PAGE) && IsSmall(s.mem, d, v)
    ensures FrameOf(Read(s.mem, d, Dir(v))) == KTable(v) && IsPresent(Read(s.mem, d, Dir(v)))
  {
    KernelPageRange(s, v);
    DirectoryOk(s, d);
    KernelEntryIs(v);
    EntryFields(s.kmap[v], RW);
  }

  lemma KernelPageRange(s: MM, v: nat)
    requires Inv(s) && v in s.kmap
    ensures 2 * REGION <= v < USER_OFFSET && v % PAGE == 0
  {
    if v < KERN_HEAP {
      assert v in Out(s.kmap);
    }
  }

  // ---- frames and kernel pages come and go

  lemma FramesAdd(boot: set<nat>, used: set<nat>, owner: map<nat, Owner>, f: nat, o: Owner)
    requires Frames(boot, used, owner) && f !in used && f < FRAMES && o != Boot
    ensures Frames(boot, used + {f}, owner[f := o])
  {
  }

  lemma FramesRemove(boot: set<nat>, used: set<nat>, owner: map<nat, Owner>, f: nat)
    requires Frames(boot, used, owner) && f in used && owner[f] != Boot
    ensures Frames(boot, used - {f}, owner - {f})
  {
  }

  lemma MappedAdd(owner: map<nat, Owner>, kmap: map<nat, nat>, v: nat, f: nat, o: Owner)
    requires Mapped(owner, kmap) && f !in owner && v !in kmap && v % PAGE == 0
    requires if v < KERN_HEAP then o.PageHeap? && o.v == v else o == Heap(v)
    ensures Mapped(owner[f := o], kmap[v := f])
  {
  }

  lemma MappedUser(owner: map<nat, Owner>, owner': map<nat, Owner>, kmap: map<nat, nat>)
    requires Mapped(owner, kmap)
    requires forall f :: f in owner && (owner[f].Heap? || owner[f].PageHeap?) ==> f in owner' && owner'[f] == owner[f]
    requires forall f :: f in owner' && (owner'[f].Heap? || owner'[f].PageHeap?) ==>
                           f in owner && owner[f] == owner'[f]
    ensures Mapped(owner', kmap)
  {
  }

  lemma MappedRemove(owner: map<nat, Owner>, kmap: map<nat, nat>, v: nat)
    requires Mapped(owner, kmap) && v in kmap
    ensures Mapped(owner - {kmap[v]}, kmap - {v})
  {
    var owner', kmap' := owner - {kmap[v]}, kmap - {v};
    forall w | w in kmap' ensures kmap'[w] in owner' {
      assert kmap[w] != kmap[v];
    }
  }

  /** m' is m with the kernel page v mapped to frame f. */
  ghost predicate KernelPte(m: Mem, m': Mem, v: nat, f: nat)
    requires f < FRAMES
  {
    forall g: nat, i: nat :: Read(m', g, i) == if g == KTable(v) && i == Idx(v) then Entry(f, RW) else Read(m, g, i)
  }

  /** Kernel pages have different entries. */
  lemma KernelSlots(v: nat, w: nat)
    requires v % PAGE == 0 && w % PAGE == 0 && v != w
    ensures KTable(v) != KTable(w) || Idx(v) != Idx(w)
  {
    SameIndices(v, w);
  }

  lemma PtesAdd(m: Mem, m': Mem, kmap: map<nat, nat>, v: nat, f: nat)
    requires Ptes(m, kmap) && f < FRAMES && KernelPte(m, m', v, f) && v % PAGE == 0
    requires forall w :: w in kmap ==> w % PAGE == 0
    ensures Ptes(m', kmap[v := f])
  {
    forall w | w in kmap && w != v ensures Read(m', KTable(w), Idx(w)) == Read(m, KTable(w), Idx(w)) {
      KernelSlots(v, w);
    }
  }

  /** m' agrees with m in frame d. */
  ghost predicate SameFrame(m: Mem, m': Mem, d: nat) {
    forall i: nat :: Read(m', d, i) == Read(m, d, i)
  }

  lemma UserEntriesKept(m: Mem, m': Mem, d: nat, tables: seq<Page>)
    requires UserEntries(m, d, tables) && SameFrame(m, m', d)
    ensures UserEntries(m', d, tables)
  {
    forall i: nat | IsUserDir(i) && IsPresent(Read(m', d, i)) ensures PointsAt(m', d, i, tables) {
      assert PointsAt(m, d, i, tables);
    }
  }

  lemma DirsKept(m: Mem, m': Mem, spaces: map<nat, Space>)
    requires Dirs(m, spaces) && SameFrame(m, m', PD0)
    requires forall pid :: pid in spaces && spaces[pid].base != [] ==> SameFrame(m, m', spaces[pid].base[0].p)
    ensures Dirs(m', spaces)
  {
    forall pid | pid in spaces && spaces[pid].base != []
      ensures DirOk(m', spaces[pid].base[0].p) && UserEntries(m', spaces[pid].base[0].p, spaces[pid].tables)
    {
      var d := spaces[pid].base[0].p;
      assert SameFrame(m, m', d);
      UserEntriesKept(m, m', d, spaces[pid].tables);
    }
  }

  /** A directory lies in a frame of the page heap, never among the frames fixed at boot. */
  lemma BaseIsOwned(s: MM, pid: nat)
    requires Inv(s) && pid in s.spaces && s.spaces[pid].base != []
    ensures var b := s.spaces[pid].base[0]; b.p in s.owner && s.owner[b.p] == PageHeap(b.v, pid) && b.p >= RESERVED
  {
    assert HeapPages(s.spaces[pid])[0] == s.spaces[pid].base[0];
    assert Owns(s.owner, pid, s.spaces[pid]);
  }

  /** Changing memory outside pd0 and the directories keeps the directories. */
  lemma DirsApart(s: MM, m': Mem, g: nat)
    requires Inv(s) && g != PD0
    requires forall h: nat, i: nat :: h != g ==> Read(m', h, i) == Read(s.mem, h, i)
    requires forall pid :: pid in s.spaces && s.spaces[pid].base != [] ==> s.spaces[pid].base[0].p != g
    ensures Dirs(m', s.spaces)
  {
    DirsKept(s.mem, m', s.spaces);
  }
}
