/**
 The steps that change who owns what and what is stored where, each keeping the invariant of MemoryModel.
 */
module MemorySteps {
  import opened Layout
  import opened Words
  import opened Paging
  import opened MemoryModel
  import FreeAreas

  /** get_page_frame hands out the lowest free frame. */
  ghost predicate Lowest(used: set<nat>, f: nat) {
    f !in used && f < FRAMES && forall g: nat :: g < f ==> g in used
  }

  /** ksbrk, one page: frame f becomes the next page of the kernel heap. */
  ghost predicate Grow(s: MM, s': MM, f: nat) {
    && Lowest(s.used, f) && s.brk < KERN_HEAP_LIM
    && KernelPte(s.mem, s'.mem, s.brk, f)
    && s' == s.(used := s.used + {f}, owner := s.owner[f := Heap(s.brk)], kmap := s.kmap[s.brk := f],
                brk := s.brk + PAGE, mem := s'.mem)
  }

  /** get_page_from_heap for process pid: frame f, the lowest free page, no role yet. */
  ghost predicate GetPage(s: MM, s': MM, pid: nat, f: nat) {
    && Lowest(s.used, f) && pid in s.spaces && FreeAreas.MoreThanOnePage(s.areas)
    && var v := s.areas[0].start; var sp := s.spaces[pid];
       && KernelPte(s.mem, s'.mem, v, f)
       && s' == s.(used := s.used + {f}, owner := s.owner[f := PageHeap(v, pid)], kmap := s.kmap[v := f],
                   areas := FreeAreas.Taken(s.areas), mem := s'.mem,
                   spaces := s.spaces[pid := sp.(plain := sp.plain + [Page(v, f)])])
  }

  /** The last plain page of a space. */
  function LastPlain(sp: Space): Page
    requires sp.plain != []
  {
    sp.plain[|sp.plain| - 1]
  }

  function DropLastPlain(sp: Space): Space
    requires sp.plain != []
  {
    sp.(plain := sp.plain[..|sp.plain| - 1])
  }

  /** pd_create has filled frame d: kernel entries copied from pd0, user entries cleared, mirror set. */
  ghost predicate DirectoryFilled(m: Mem, m': Mem, d: nat)
    requires d < FRAMES
  {
    && (forall i :: 0 <= i < KERNEL_DIRS ==> Read(m', d, i) == Read(m, PD0, i))
    && (forall i :: KERNEL_DIRS <= i < MIRROR ==> Read(m', d, i) == 0)
    && Read(m', d, MIRROR) == Entry(d, RW)
    && forall g: nat, i: nat :: g != d ==> Read(m', g, i) == Read(m, g, i)
  }

  /** pd_create gives the page just taken the role of directory. */
  ghost predicate MakeDirectory(s: MM, s': MM, pid: nat) {
    && pid in s.spaces && s.spaces[pid].base == [] && s.spaces[pid].plain != []
    && var sp := s.spaces[pid];
       && LastPlain(sp).p < FRAMES && DirectoryFilled(s.mem, s'.mem, LastPlain(sp).p)
       && s' == s.(mem := s'.mem, spaces := s.spaces[pid := DropLastPlain(sp).(base := [LastPlain(sp)])])
  }

  /** pd_add_page gives the page just taken the role of page table for the region of v. */
  ghost predicate MakeTable(s: MM, s': MM, pid: nat, v: nat) {
    && pid in s.spaces && |s.spaces[pid].base| == 1 && s.spaces[pid].plain != []
    && USER_OFFSET <= v < USER_STACK
    && var sp := s.spaces[pid];
       && LastPlain(sp).p < FRAMES
       && !IsPresent(Read(s.mem, sp.base[0].p, Dir(v)))
       && TableInstalled(s.mem, s'.mem, sp.base[0].p, v, LastPlain(sp).p, RWU)
       && s' == s.(mem := s'.mem, raw := s.raw + {LastPlain(sp).p},
                   spaces := s.spaces[pid := DropLastPlain(sp).(tables := [LastPlain(sp)] + sp.tables)])
  }

  /** Frames whose words decide about translations: boot frames, directories and page tables. */
  ghost predicate Structural(s: MM, f: nat) {
    f in s.boot || exists pid :: pid in s.spaces && HasRole(s.spaces[pid], f)
  }

  predicate HasRole(sp: Space, f: nat) {
    || (exists k :: 0 <= k < |sp.base| && sp.base[k].p == f)
    || (exists k :: 0 <= k < |sp.tables| && sp.tables[k].p == f)
  }

  /** Frames the kernel keeps something in: the structural ones, its heap with all its lists, and its stacks. */
  predicate KernelFrame(s: MM, f: nat) {
    f in s.owner && !s.owner[f].User? && !s.owner[f].Leaked?
  }

  /** The kernel stores to its heap and its stacks. */
  ghost predicate StoreData(s: MM, s': MM) {
    && (forall g: nat, i: nat :: !KernelFrame(s, g) || Structural(s, g) ==> Read(s'.mem, g, i) == Read(s.mem, g, i))
    && s' == s.(mem := s'.mem)
  }

  /** Process pid has a directory and may run user code. */
  predicate Running(s: MM, pid: nat) {
    pid in s.spaces && |s.spaces[pid].base| == 1 && pid !in s.exiting && pid !in s.pending
  }

  /** The address a is translated through entry 0 of a table, unwritten since the table was made. */
  predicate RawSlot(s: MM, d: nat, a: nat) {
    Idx(a) == 0 && FrameOf(Read(s.mem, d, Dir(a))) in s.raw
  }

  /**
   A word stored at a user address under the directory of pid, by its program or by the kernel on its
   behalf.  Through a raw slot it may go anywhere; here it does not hit a frame of the kernel.
   */
  ghost predicate StoreThrough(s: MM, s': MM, pid: nat, a: nat, w: u32) {
    && Running(s, pid) && IsUserDir(Dir(a)) && a % 4 == 0
    && var d := s.spaces[pid].base[0].p;
       && Walk(s.mem, d, a).At?
       && (RawSlot(s, d, a) ==> !KernelFrame(s, SlotAt(Walk(s.mem, d, a).addr).frame))
       && s' == s.(mem := Store(s.mem, d, a, w))
  }

  /** The processor raises a page fault for a user store: no entry, or one without the write or user flag. */
  predicate Faults(m: Mem, d: nat, a: nat) {
    var pde := Read(m, d, Dir(a));
    !Allows(pde) || !Allows(Read(m, FrameOf(pde), Idx(a)))
  }

  /** Present, writable, user. */
  predicate Allows(w: u32) { w % 2 == 1 && w / 2 % 2 == 1 && w / 4 % 2 == 1 }

  /** A page fault at page v gives process pid the frame f; its table entry is still to be written. */
  ghost predicate AddFrame(s: MM, s': MM, pid: nat, f: nat, v: nat) {
    && Lowest(s.used, f) && Running(s, pid)
    && USER_OFFSET <= v < USER_STACK && v % PAGE == 0
    && var sp := s.spaces[pid];
       && Faults(s.mem, sp.base[0].p, v)
       && s' == s.(used := s.used + {f}, owner := s.owner[f := User(pid)], pending := s.pending + {pid},
                   spaces := s.spaces[pid := sp.(pages := [Page(v, f)] + sp.pages)])
  }

  /** The end of pd_add_page: the table entry of the latest user page is written. */
  ghost predicate SetPte(s: MM, s': MM, pid: nat) {
    && pid in s.pending && pid in s.spaces && |s.spaces[pid].base| == 1 && s.spaces[pid].pages != []
    && var d, pg := s.spaces[pid].base[0].p, s.spaces[pid].pages[0];
       && pg.p < FRAMES && IsPresent(Read(s.mem, d, Dir(pg.v)))
       && PteWritten(s.mem, s'.mem, d, pg.v, pg.p, RWU)
       && s' == s.(mem := s'.mem, pending := s.pending - {pid},
                   raw := if Idx(pg.v) == 0 then s.raw - {FrameOf(Read(s.mem, d, Dir(pg.v)))} else s.raw)
  }

  /** sys_exit begins: the process runs no user code any more. */
  ghost predicate BeginExit(s: MM, s': MM, pid: nat) {
    && pid in s.spaces && pid !in s.pending && pid !in s.exiting
    && s' == s.(exiting := s.exiting + {pid})
  }

  /** load_elf has failed: the page list of the process is forgotten, its frames stay marked. */
  ghost predicate Abandon(s: MM, s': MM, pid: nat) {
    && pid in s.spaces && pid !in s.pending && pid !in s.exiting
    && s' == s.(exiting := s.exiting + {pid}, spaces := s.spaces[pid := s.spaces[pid].(pages := [])],
                owner := map f | f in s.owner :: if s.owner[f] == User(pid) then Leaked else s.owner[f])
  }

  /** sys_exit releases the first frame of the page list. */
  ghost predicate DropFrame(s: MM, s': MM, pid: nat) {
    && pid in s.spaces && pid in s.exiting && s.spaces[pid].pages != []
    && var sp := s.spaces[pid]; var f := sp.pages[0].p;
       s' == s.(used := s.used - {f}, owner := s.owner - {f},
                spaces := s.spaces[pid := sp.(pages := sp.pages[1..])])
  }

  /** The directory of a process is no longer loaded: pd_destroy may take it apart. */
  ghost predicate Retire(s: MM, s': MM, pid: nat) {
    && pid in s.spaces && pid in s.exiting
    && var sp := s.spaces[pid];
       s' == s.(spaces := s.spaces[pid := sp.(base := [], plain := sp.base + sp.plain)])
  }

  /** m' is m with at most the entry of the kernel page v changed. */
  ghost predicate KernelPteChanged(m: Mem, m': Mem, v: nat) {
    forall g: nat, i: nat :: !(g == KTable(v) && i == Idx(v)) ==> Read(m', g, i) == Read(m, g, i)
  }

  /** m' is m with the present bit of the kernel page v cleared. */
  ghost predicate KernelPteCleared(m: Mem, m': Mem, v: nat) {
    && KernelPteChanged(m, m', v)
    && Read(m', KTable(v), Idx(v)) == ClearPresent(Read(m, KTable(v), Idx(v)))
  }

  /** sp' is sp without page pg, which is not its directory. */
  ghost predicate WithoutPage(sp: Space, sp': Space, pg: Page) {
    && sp'.base == sp.base && sp'.pages == sp.pages
    && ((&& sp.tables != [] && sp.base == [] && pg == sp.tables[0]
         && sp'.tables == sp.tables[1..] && sp'.plain == sp.plain) ||
        (sp.plain != [] && pg == LastPlain(sp) && sp' == DropLastPlain(sp)))
  }

  /** release_page_from_heap of a page of process pid. */
  ghost predicate ReleasePage(s: MM, s': MM, pid: nat, pg: Page, sp': Space) {
    && pid in s.spaces && WithoutPage(s.spaces[pid], sp', pg)
    && KernelPteCleared(s.mem, s'.mem, pg.v)
    && var o := FreeAreas.Given(s.areas, s.head, pg.v);
       s' == s.(used := s.used - {pg.p}, owner := s.owner - {pg.p}, kmap := s.kmap - {pg.v},
                areas := if o.Released? then o.areas else [],
                mem := s'.mem, spaces := s.spaces[pid := sp'])
  }

  ghost predicate Spawn(s: MM, s': MM, pid: nat) {
    pid !in s.spaces && s' == s.(spaces := s.spaces[pid := NoSpace])
  }

  ghost predicate Forget(s: MM, s': MM, pid: nat) {
    && pid in s.spaces && s.spaces[pid] == NoSpace && pid !in s.pending
    && s' == s.(spaces := s.spaces - {pid}, exiting := s.exiting - {pid})
  }

  // ---- each step keeps the invariant

  /** Kernel page tables are not directories. */
  lemma KernelTablesApart(s: MM, m': Mem, v: nat)
    requires Inv(s) && 2 * REGION <= v < USER_OFFSET && KernelPteChanged(s.mem, m', v)
    ensures Dirs(m', s.spaces)
  {
    KernelEntryIs(v);
    forall pid | pid in s.spaces && s.spaces[pid].base != [] ensures s.spaces[pid].base[0].p != KTable(v) {
      BaseIsOwned(s, pid);
    }
    DirsApart(s, m', KTable(v));
  }

  lemma GrowKeepsInv(s: MM, s': MM, f: nat)
    requires Inv(s) && Grow(s, s', f)
    ensures Inv(s')
  {
    FramesAdd(s.boot, s.used, s.owner, f, Heap(s.brk));
    MappedAdd(s.owner, s.kmap, s.brk, f, Heap(s.brk));
    RangesGrow(s.kmap, s.areas, s.brk, f);
    ListedKept(s.owner, s'.owner, s.spaces);
    GrowTables(s, s', f);
  }

  lemma GrowTables(s: MM, s': MM, f: nat)
    requires Inv(s) && Grow(s, s', f)
    ensures Ptes(s'.mem, s'.kmap) && Dirs(s'.mem, s'.spaces)
  {
    PtesAdd(s.mem, s'.mem, s.kmap, s.brk, f);
    KernelTablesApart(s, s'.mem, s.brk);
  }

  lemma RangesGrow(kmap: map<nat, nat>, areas: seq<FreeAreas.Area>, brk: nat, f: nat)
    requires Ranges(kmap, areas, brk) && brk < KERN_HEAP_LIM
    ensures Ranges(kmap[brk := f], areas, brk + PAGE)
  {
    assert Out(kmap[brk := f]) == Out(kmap);
    forall v | KERN_HEAP <= v && v % PAGE == 0 ensures v in kmap[brk := f] <==> v < brk + PAGE {
      assert v < brk || v == brk || v >= brk + PAGE;
    }
  }

  /** Owners of frames outside all lists may change. */
  lemma ListedKept(owner: map<nat, Owner>, owner': map<nat, Owner>, spaces: map<nat, Space>)
    requires Listed(owner, spaces)
    requires forall f :: f in owner' && (owner'[f].PageHeap? || owner'[f].User?) ==> f in owner && owner[f] == owner'[f]
    requires forall f :: f in owner && (owner[f].PageHeap? || owner[f].User?) ==> f in owner' && owner[f] == owner'[f]
    ensures Listed(owner', spaces)
  {
    forall pid | pid in spaces ensures Owns(owner', pid, spaces[pid]) {
      assert Owns(owner, pid, spaces[pid]);
    }
  }

  /** A process is given a page of the page heap whose frame was free. */
  lemma ListedAddPage(owner: map<nat, Owner>, spaces: map<nat, Space>, pid: nat, sp': Space, f: nat, v: nat)
    requires Listed(owner, spaces) && pid in spaces && f !in owner
    requires HeapPages(sp') == HeapPages(spaces[pid]) + [Page(v, f)] && sp'.pages == spaces[pid].pages
    ensures Listed(owner[f := PageHeap(v, pid)], spaces[pid := sp'])
  {
    var owner', sp := owner[f := PageHeap(v, pid)], spaces[pid];
    assert Owns(owner, pid, sp);
    forall q | q in spaces && q != pid ensures Owns(owner', q, spaces[q]) {
      assert Owns(owner, q, spaces[q]);
    }
    assert forall pg :: pg in HeapPages(sp) ==> pg in HeapPages(sp');
    assert HeapPages(sp')[|HeapPages(sp)|] == Page(v, f);
    assert Owns(owner', pid, sp');
  }

  /** A process is given a user page whose frame was free. */
  lemma ListedAddUser(owner: map<nat, Owner>, spaces: map<nat, Space>, pid: nat, sp': Space, f: nat, v: nat)
    requires Listed(owner, spaces) && pid in spaces && f !in owner
    requires sp' == spaces[pid].(pages := [Page(v, f)] + spaces[pid].pages)
    ensures Listed(owner[f := User(pid)], spaces[pid := sp'])
  {
    var owner', sp := owner[f := User(pid)], spaces[pid];
    assert Owns(owner, pid, sp);
    forall q | q in spaces && q != pid ensures Owns(owner', q, spaces[q]) {
      assert Owns(owner, q, spaces[q]);
    }
    assert HeapPages(sp') == HeapPages(sp);
    assert forall pg :: pg in sp.pages ==> pg in sp'.pages;
    assert sp'.pages[0] == Page(v, f);
    assert Owns(owner', pid, sp');
  }

  lemma RangesTake(kmap: map<nat, nat>, areas: seq<FreeAreas.Area>, brk: nat, f: nat)
    requires Ranges(kmap, areas, brk) && FreeAreas.MoreThanOnePage(areas)
    ensures var v := areas[0].start;
            && v !in kmap && v % PAGE == 0 && 2 * REGION <= v < KERN_HEAP
            && Ranges(kmap[v := f], FreeAreas.Taken(areas), brk)
  {
    var v := areas[0].start;
    FreeAreas.GetKeepsInv(FreeAreas.State(areas, Out(kmap)));
    assert FreeAreas.Inv(FreeAreas.State(FreeAreas.Taken(areas), Out(kmap) + {v}));
    assert v in Out(kmap) + {v};
    assert Out(kmap[v := f]) == Out(kmap) + {v};
  }

  lemma GetPageKeepsInv(s: MM, s': MM, pid: nat, f: nat)
    requires Inv(s) && GetPage(s, s', pid, f)
    ensures Inv(s')
  {
    var v := s.areas[0].start;
    RangesTake(s.kmap, s.areas, s.brk, f);
    FramesAdd(s.boot, s.used, s.owner, f, PageHeap(v, pid));
    MappedAdd(s.owner, s.kmap, v, f, PageHeap(v, pid));
    PtesAdd(s.mem, s'.mem, s.kmap, v, f);
    KernelTablesApart(s, s'.mem, v);
    SameRoles(s'.mem, s.spaces, pid, s'.spaces[pid]);
    GetPageListed(s, s', pid, f);
  }

  lemma GetPageListed(s: MM, s': MM, pid: nat, f: nat)
    requires Inv(s) && GetPage(s, s', pid, f)
    ensures Listed(s'.owner, s'.spaces)
  {
    var v, sp := s.areas[0].start, s.spaces[pid];
    assert HeapPages(s'.spaces[pid]) == HeapPages(sp) + [Page(v, f)];
    ListedAddPage(s.owner, s.spaces, pid, s'.spaces[pid], f, v);
  }

  /** Changing a space without touching its directory and tables keeps Dirs. */
  lemma SameRoles(m: Mem, spaces: map<nat, Space>, pid: nat, sp': Space)
    requires Dirs(m, spaces)
    requires sp'.base == [] || (pid in spaces && sp'.base == spaces[pid].base && sp'.tables == spaces[pid].tables)
    ensures Dirs(m, spaces[pid := sp'])
  {
  }

  lemma AddFrameKeepsInv(s: MM, s': MM, pid: nat, f: nat, v: nat)
    requires Inv(s) && AddFrame(s, s', pid, f, v)
    ensures Inv(s')
  {
    FramesAdd(s.boot, s.used, s.owner, f, User(pid));
    MappedUser(s.owner, s'.owner, s.kmap);
    ListedAddUser(s.owner, s.spaces, pid, s'.spaces[pid], f, v);
    SameRoles(s.mem, s.spaces, pid, s'.spaces[pid]);
  }

  /** Rearranging the pages of a process among its lists. */
  lemma ListedRearranged(owner: map<nat, Owner>, spaces: map<nat, Space>, pid: nat, sp': Space)
    requires Listed(owner, spaces) && pid in spaces
    requires sp'.pages == spaces[pid].pages && multiset(HeapPages(sp')) == multiset(HeapPages(spaces[pid]))
    ensures Listed(owner, spaces[pid := sp'])
  {
    var sp := spaces[pid];
    assert Owns(owner, pid, sp);
    SameElements(HeapPages(sp), HeapPages(sp'));
    var hp, hp' := HeapPages(sp), HeapPages(sp');
    forall k | 0 <= k < |hp'| ensures hp'[k].p in owner && owner[hp'[k].p] == PageHeap(hp'[k].v, pid) {
      assert hp'[k] in hp;
    }
    assert Owns(owner, pid, sp');
  }

  /** Two lists of pages with the same multiset have the same members, and frames as distinct in one as in the other. */
  lemma SameElements(a: seq<Page>, b: seq<Page>)
    requires multiset(a) == multiset(b)
    requires forall j, k :: 0 <= j < k < |a| ==> a[j].p != a[k].p
    ensures forall pg :: pg in a <==> pg in b
    ensures forall j, k :: 0 <= j < k < |b| ==> b[j].p != b[k].p
  {
    forall pg ensures pg in a <==> pg in b {
      assert pg in a <==> pg in multiset(a);
      assert pg in b <==> pg in multiset(b);
    }
    forall j, k | 0 <= j < k < |b| ensures b[j].p != b[k].p {
      assert b[j] in a && b[k] in a;
      if b[j].p == b[k].p {
        assert b[j] == b[k];
        Twice(b, j, k);
        Once(a, b[j]);
      }
    }
  }

  lemma Twice(b: seq<Page>, j: nat, k: nat)
    requires j < k < |b| && b[j] == b[k]
    ensures multiset(b)[b[j]] >= 2
  {
    assert b == b[..k] + [b[k]] + b[k + 1..];
    assert b[..k][j] == b[j];
    assert b[j] in multiset(b[..k]);
  }

  lemma {:induction false} Once(a: seq<Page>, pg: Page)
    requires forall j, k :: 0 <= j < k < |a| ==> a[j].p != a[k].p
    ensures multiset(a)[pg] <= 1
  {
    if a != [] {
      assert a == [a[0]] + a[1..];
      Once(a[1..], pg);
      assert a[0] !in a[1..];
    }
  }

  lemma RetireKeepsInv(s: MM, s': MM, pid: nat)
    requires Inv(s) && Retire(s, s', pid)
    ensures Inv(s')
  {
    var sp, sp' := s.spaces[pid], s'.spaces[pid];
    SameRoles(s.mem, s.spaces, pid, sp');
    MoveMultiset(sp.base, sp.tables, sp.plain);
    assert HeapPages(sp') == [] + sp.tables + (sp.base + sp.plain);
    ListedRearranged(s.owner, s.spaces, pid, sp');
  }

  lemma MoveMultiset(a: seq<Page>, b: seq<Page>, c: seq<Page>)
    ensures multiset(a + b + c) == multiset(b + (a + c)) == multiset([] + b + (a + c))
  {
    assert [] + b + (a + c) == b + (a + c);
  }

  lemma MakeDirectoryListed(s: MM, s': MM, pid: nat)
    requires Inv(s) && MakeDirectory(s, s', pid)
    ensures Listed(s'.owner, s'.spaces)
  {
    RolePage(s.spaces[pid]);
    ListedRearranged(s.owner, s.spaces, pid, s'.spaces[pid]);
  }

  lemma MakeDirectoryDirs(s: MM, s': MM, pid: nat)
    requires Inv(s) && MakeDirectory(s, s', pid)
    ensures Ptes(s'.mem, s'.kmap) && Dirs(s'.mem, s'.spaces)
  {
    var d := LastPlain(s.spaces[pid]);
    PlainIsOwned(s, pid);
    PtesApart(s, s'.mem, d.p);
    forall q | q in s.spaces && s.spaces[q].base != [] ensures s.spaces[q].base[0].p != d.p {
      BaseIsOwned(s, q);
    }
    DirsApart(s, s'.mem, d.p);
    assert forall i :: 0 <= i < KERNEL_DIRS ==> Read(s.mem, PD0, i) == KernelEntry(i);
    assert DirOk(s'.mem, d.p);
    assert UserEntries(s'.mem, d.p, s'.spaces[pid].tables);
  }

  lemma MakeDirectoryKeepsInv(s: MM, s': MM, pid: nat)
    requires Inv(s) && MakeDirectory(s, s', pid)
    ensures Inv(s')
  {
    MakeDirectoryListed(s, s', pid);
    MakeDirectoryDirs(s, s', pid);
  }

  /** Changing one frame that is not reserved keeps the kernel page tables. */
  lemma PtesApart(s: MM, m': Mem, g: nat)
    requires Inv(s) && g >= RESERVED
    requires forall h: nat, i: nat :: h != g ==> Read(m', h, i) == Read(s.mem, h, i)
    ensures Ptes(m', s.kmap)
  {
    forall v | v in s.kmap ensures KTable(v) != g {
      KernelPageRange(s, v);
      KernelEntryIs(v);
    }
  }

  /** A plain page belongs to its process and is not a directory. */
  lemma PlainIsOwned(s: MM, pid: nat)
    requires Inv(s) && pid in s.spaces && s.spaces[pid].plain != []
    ensures var d := LastPlain(s.spaces[pid]);
            && d.p in s.owner && s.owner[d.p] == PageHeap(d.v, pid) && RESERVED <= d.p < FRAMES
            && d.v in s.kmap && s.kmap[d.v] == d.p
            && (forall q :: q in s.spaces && s.spaces[q].base != [] ==> s.spaces[q].base[0].p != d.p)
  {
    var sp := s.spaces[pid];
    var hp := HeapPages(sp);
    assert hp[|hp| - 1] == LastPlain(sp);
    assert Owns(s.owner, pid, sp);
    forall q | q in s.spaces && s.spaces[q].base != [] ensures s.spaces[q].base[0].p != LastPlain(sp).p {
      BaseIsOwned(s, q);
      if q == pid {
        assert hp[0] == sp.base[0];
      }
    }
  }

  /** Moving the last plain page to another list of the space. */
  lemma RolePage(sp: Space)
    requires sp.plain != []
    ensures sp.base == [] ==>
              multiset(HeapPages(DropLastPlain(sp).(base := [LastPlain(sp)]))) == multiset(HeapPages(sp))
    ensures multiset(HeapPages(DropLastPlain(sp).(tables := [LastPlain(sp)] + sp.tables))) == multiset(HeapPages(sp))
  {
    var rest, l := sp.plain[..|sp.plain| - 1], [LastPlain(sp)];
    assert sp.plain == rest + l;
    assert multiset(sp.plain) == multiset(rest) + multiset(l);
    assert HeapPages(sp) == sp.base + sp.tables + sp.plain;
  }

  lemma MakeTableListed(s: MM, s': MM, pid: nat, v: nat)
    requires Inv(s) && MakeTable(s, s', pid, v)
    ensures Listed(s'.owner, s'.spaces)
  {
    RolePage(s.spaces[pid]);
    ListedRearranged(s.owner, s.spaces, pid, s'.spaces[pid]);
  }

  lemma MakeTablePtes(s: MM, s': MM, pid: nat, v: nat)
    requires Inv(s) && MakeTable(s, s', pid, v)
    ensures Ptes(s'.mem, s'.kmap)
  {
    PlainIsOwned(s, pid);
    BaseIsOwned(s, pid);
    forall w | w in s.kmap ensures KTable(w) < RESERVED {
      KernelPageRange(s, w);
      KernelEntryIs(w);
    }
  }

  lemma MakeTableKeepsInv(s: MM, s': MM, pid: nat, v: nat)
    requires Inv(s) && MakeTable(s, s', pid, v)
    ensures Inv(s')
  {
    MakeTableListed(s, s', pid, v);
    MakeTablePtes(s, s', pid, v);
    MakeTableDirs(s, s', pid, v);
  }

  /** The page that becomes a table is not a table yet. */
  lemma NewTableApart(s: MM, pid: nat)
    requires Listed(s.owner, s.spaces) && pid in s.spaces && s.spaces[pid].plain != []
    ensures forall k :: 0 <= k < |s.spaces[pid].tables| ==> s.spaces[pid].tables[k].p != LastPlain(s.spaces[pid]).p
  {
    var sp := s.spaces[pid];
    var hp := HeapPages(sp);
    assert Owns(s.owner, pid, sp);
    assert hp[|hp| - 1] == LastPlain(sp);
    forall k | 0 <= k < |sp.tables| ensures sp.tables[k].p != LastPlain(sp).p {
      assert hp[|sp.base| + k] == sp.tables[k];
    }
  }

  lemma MakeTableDirs(s: MM, s': MM, pid: nat, v: nat)
    requires Inv(s) && MakeTable(s, s', pid, v)
    ensures Dirs(s'.mem, s'.spaces)
  {
    var sp, sp' := s.spaces[pid], s'.spaces[pid];
    var t, b := LastPlain(sp), sp.base[0];
    PlainIsOwned(s, pid);
    BaseIsOwned(s, pid);
    assert KERNEL_DIRS <= Dir(v) < MIRROR;
    assert SameFrame(s.mem, s'.mem, PD0);
    forall q | q in s'.spaces && s'.spaces[q].base != []
      ensures |s'.spaces[q].base| == 1 && DirOk(s'.mem, s'.spaces[q].base[0].p)
              && UserEntries(s'.mem, s'.spaces[q].base[0].p, s'.spaces[q].tables)
    {
      if q != pid {
        BaseIsOwned(s, q);
        assert SameFrame(s.mem, s'.mem, s.spaces[q].base[0].p);
      } else {
        NewTableApart(s, pid);
        TableEntered(s.mem, s'.mem, b.p, v, t, sp.tables);
      }
    }
  }

  lemma TableEntered(m: Mem, m': Mem, d: nat, v: nat, t: Page, tables: seq<Page>)
    requires DirOk(m, d) && UserEntries(m, d, tables) && t.p < FRAMES && t.p != d
    requires forall k :: 0 <= k < |tables| ==> tables[k].p != t.p
    requires KERNEL_DIRS <= Dir(v) < MIRROR && TableInstalled(m, m', d, v, t.p, RWU)
    ensures DirOk(m', d) && UserEntries(m', d, [t] + tables)
  {
    var all := [t] + tables;
    forall i: nat | IsUserDir(i) && IsPresent(Read(m', d, i)) ensures PointsAt(m', d, i, all) {
      if i == Dir(v) {
        assert all[0] == t;
      } else {
        PointsElsewhere(m, d, i, tables, t);
      }
    }
    forall i: nat | IsUserDir(i) && i != Dir(v) && IsPresent(Read(m, d, i)) ensures Read(m, d, i) != Entry(t.p, RWU) {
      PointsElsewhere(m, d, i, tables, t);
    }
  }

  lemma PointsElsewhere(m: Mem, d: nat, i: nat, tables: seq<Page>, t: Page)
    requires UserEntries(m, d, tables) && IsUserDir(i) && IsPresent(Read(m, d, i)) && t.p < FRAMES
    requires forall k :: 0 <= k < |tables| ==> tables[k].p != t.p
    ensures PointsAt(m, d, i, [t] + tables) && Read(m, d, i) != Entry(t.p, RWU)
  {
    assert PointsAt(m, d, i, tables);
    var k :| 0 <= k < |tables| && tables[k].p < FRAMES && Read(m, d, i) == Entry(tables[k].p, RWU);
    assert ([t] + tables)[k + 1] == tables[k];
  }

  /** Stores outside the structural frames leave directories and kernel tables alone. */
  lemma NonStructuralStore(s: MM, m': Mem)
    requires Inv(s) && forall g: nat, i: nat :: Structural(s, g) ==> Read(m', g, i) == Read(s.mem, g, i)
    ensures Ptes(m', s.kmap) && Dirs(m', s.spaces)
  {
    forall v | v in s.kmap ensures Structural(s, KTable(v)) {
      KernelPageRange(s, v);
      KernelEntryIs(v);
    }
    assert Structural(s, PD0);
    forall q | q in s.spaces && s.spaces[q].base != [] ensures SameFrame(s.mem, m', s.spaces[q].base[0].p) {
      assert HasRole(s.spaces[q], s.spaces[q].base[0].p);
    }
    DirsKept(s.mem, m', s.spaces);
  }

  lemma StoreDataKeepsInv(s: MM, s': MM)
    requires Inv(s) && StoreData(s, s')
    ensures Inv(s')
  {
    NonStructuralStore(s, s'.mem);
  }

  lemma StoreThroughKeepsInv(s: MM, s': MM, pid: nat, a: nat, w: u32)
    requires Inv(s) && StoreThrough(s, s', pid, a, w)
    requires !Structural(s, SlotAt(Walk(s.mem, s.spaces[pid].base[0].p, a).addr).frame)
    ensures Inv(s')
  {
    NonStructuralStore(s, s'.mem);
  }

  /** A table belongs to its process and is no directory. */
  lemma TableIsOwned(s: MM, pid: nat, k: nat)
    requires Inv(s) && pid in s.spaces && k < |s.spaces[pid].tables|
    ensures var t := s.spaces[pid].tables[k];
            && t.p in s.owner && s.owner[t.p] == PageHeap(t.v, pid) && RESERVED <= t.p < FRAMES
            && (forall q :: q in s.spaces && s.spaces[q].base != [] ==> s.spaces[q].base[0].p != t.p)
  {
    var sp := s.spaces[pid];
    var hp := HeapPages(sp);
    assert hp[|sp.base| + k] == sp.tables[k];
    assert Owns(s.owner, pid, sp);
    forall q | q in s.spaces && s.spaces[q].base != [] ensures s.spaces[q].base[0].p != sp.tables[k].p {
      BaseIsOwned(s, q);
      if q == pid {
        assert hp[0] == sp.base[0];
      }
    }
  }

  /** The table a present user entry of a directory leads to. */
  lemma EntryTable(s: MM, pid: nat, i: nat) returns (k: nat)
    requires Inv(s) && pid in s.spaces && |s.spaces[pid].base| == 1 && IsUserDir(i)
    requires IsPresent(Read(s.mem, s.spaces[pid].base[0].p, i))
    ensures var sp := s.spaces[pid]; var pde := Read(s.mem, sp.base[0].p, i);
            && k < |sp.tables| && sp.tables[k].p < FRAMES && pde == Entry(sp.tables[k].p, RWU)
            && FrameOf(pde) == sp.tables[k].p && !IsBig(pde) && IsPresent(pde)
  {
    var sp := s.spaces[pid];
    var d := sp.base[0].p;
    assert UserEntries(s.mem, d, sp.tables);
    assert PointsAt(s.mem, d, i, sp.tables);
    k :| 0 <= k < |sp.tables| && sp.tables[k].p < FRAMES && Read(s.mem, d, i) == Entry(sp.tables[k].p, RWU);
    EntryFields(sp.tables[k].p, RWU);
  }

  /** Changing one table of a process leaves directories and kernel tables alone. */
  lemma SetPteKeepsInv(s: MM, s': MM, pid: nat)
    requires Inv(s) && SetPte(s, s', pid) && IsUserDir(Dir(s.spaces[pid].pages[0].v))
    ensures Inv(s')
  {
    var d, pg := s.spaces[pid].base[0].p, s.spaces[pid].pages[0];
    var k := EntryTable(s, pid, Dir(pg.v));
    TableIsOwned(s, pid, k);
    PtesApart(s, s'.mem, s.spaces[pid].tables[k].p);
    DirsApart(s, s'.mem, s.spaces[pid].tables[k].p);
  }

  lemma BeginExitKeepsInv(s: MM, s': MM, pid: nat)
    requires Inv(s) && BeginExit(s, s', pid)
    ensures Inv(s')
  {
  }

  lemma AbandonKeepsInv(s: MM, s': MM, pid: nat)
    requires Inv(s) && Abandon(s, s', pid)
    ensures Inv(s')
  {
    MappedUser(s.owner, s'.owner, s.kmap);
    SameRoles(s.mem, s.spaces, pid, s'.spaces[pid]);
    AbandonListed(s, s', pid);
  }

  lemma AbandonListed(s: MM, s': MM, pid: nat)
    requires Listed(s.owner, s.spaces) && Abandon(s, s', pid)
    ensures Listed(s'.owner, s'.spaces)
  {
    assert HeapPages(s'.spaces[pid]) == HeapPages(s.spaces[pid]);
    forall q | q in s'.spaces ensures Owns(s'.owner, q, s'.spaces[q]) {
      assert Owns(s.owner, q, s.spaces[q]);
    }
  }

  // ---- releasing

  /** The list of a process loses a page together with its frame. */
  lemma ListedRemove(owner: map<nat, Owner>, spaces: map<nat, Space>, pid: nat, sp': Space, k: nat)
    requires Listed(owner, spaces) && pid in spaces && k < |HeapPages(spaces[pid])|
    requires var hp := HeapPages(spaces[pid]); HeapPages(sp') == hp[..k] + hp[k + 1..]
    requires sp'.pages == spaces[pid].pages
    ensures Listed(owner - {HeapPages(spaces[pid])[k].p}, spaces[pid := sp'])
  {
    var sp := spaces[pid];
    var hp, f := HeapPages(sp), HeapPages(sp)[k].p;
    var owner', spaces' := owner - {f}, spaces[pid := sp'];
    assert Owns(owner, pid, sp);
    OwnsWithout(owner, pid, sp, sp', k);
    forall q | q in spaces' && q != pid ensures Owns(owner', q, spaces'[q]) {
      assert Owns(owner, q, spaces[q]);
    }
    forall g | g in owner' && owner'[g].PageHeap?
      ensures owner'[g].pid in spaces' && Page(owner'[g].v, g) in HeapPages(spaces'[owner'[g].pid])
    {
      InOthers(hp, k, Page(owner[g].v, g));
    }
  }

  lemma OwnsWithout(owner: map<nat, Owner>, pid: nat, sp: Space, sp': Space, k: nat)
    requires Owns(owner, pid, sp) && k < |HeapPages(sp)| && sp'.pages == sp.pages
    requires HeapPages(sp') == HeapPages(sp)[..k] + HeapPages(sp)[k + 1..]
    ensures Owns(owner - {HeapPages(sp)[k].p}, pid, sp')
  {
    var hp, hp' := HeapPages(sp), HeapPages(sp');
    assert forall j :: 0 <= j < |hp'| ==> hp'[j] == hp[if j < k then j else j + 1];
  }

  lemma InOthers(a: seq<Page>, k: nat, pg: Page)
    requires k < |a|
    ensures pg in a && pg.p != a[k].p ==> pg in a[..k] + a[k + 1..]
  {
    assert a == a[..k] + [a[k]] + a[k + 1..];
  }

  /** The first user page of a process goes, together with its frame. */
  lemma ListedDropUser(owner: map<nat, Owner>, spaces: map<nat, Space>, pid: nat, sp': Space)
    requires Listed(owner, spaces) && pid in spaces && spaces[pid].pages != []
    requires sp' == spaces[pid].(pages := spaces[pid].pages[1..])
    ensures Listed(owner - {spaces[pid].pages[0].p}, spaces[pid := sp'])
  {
    var sp := spaces[pid];
    var owner', spaces' := owner - {sp.pages[0].p}, spaces[pid := sp'];
    assert Owns(owner, pid, sp);
    assert HeapPages(sp') == HeapPages(sp);
    assert forall j :: 0 <= j < |sp'.pages| ==> sp'.pages[j] == sp.pages[j + 1];
    assert Owns(owner', pid, sp');
    forall q | q in spaces' && q != pid ensures Owns(owner', q, spaces'[q]) {
      assert Owns(owner, q, spaces[q]);
    }
    forall g | g in owner' && owner'[g].User?
      ensures owner'[g].pid in spaces' && exists v :: Page(v, g) in spaces'[owner'[g].pid].pages
    {
      var v :| Page(v, g) in spaces[owner[g].pid].pages;
      InRest(sp.pages, Page(v, g));
      assert Page(v, g) in spaces'[owner'[g].pid].pages;
    }
  }

  lemma InRest(a: seq<Page>, pg: Page)
    ensures a != [] && pg in a && pg.p != a[0].p ==> pg in a[1..]
  {
    if a != [] {
      assert a == [a[0]] + a[1..];
    }
  }

  lemma DropFrameKeepsInv(s: MM, s': MM, pid: nat)
    requires Inv(s) && DropFrame(s, s', pid)
    ensures Inv(s') && s.spaces[pid].pages[0].p in s.used
  {
    DropFrameOwner(s, s', pid);
    DropFrameLists(s, s', pid);
  }

  lemma DropFrameOwner(s: MM, s': MM, pid: nat)
    requires Frames(s.boot, s.used, s.owner) && Mapped(s.owner, s.kmap) && Listed(s.owner, s.spaces)
    requires DropFrame(s, s', pid)
    ensures Frames(s'.boot, s'.used, s'.owner) && Mapped(s'.owner, s'.kmap) && s.spaces[pid].pages[0].p in s.used
  {
    DropIsOwn(s, pid);
    FramesRemove(s.boot, s.used, s.owner, s.spaces[pid].pages[0].p);
    MappedUser(s.owner, s'.owner, s.kmap);
  }

  lemma DropFrameLists(s: MM, s': MM, pid: nat)
    requires Inv(s) && DropFrame(s, s', pid)
    ensures Dirs(s'.mem, s'.spaces) && Listed(s'.owner, s'.spaces)
  {
    DropIsOwn(s, pid);
    SameRoles(s.mem, s.spaces, pid, s'.spaces[pid]);
    ListedDropUser(s.owner, s.spaces, pid, s'.spaces[pid]);
  }

  /** Where the released page stands among the pages of its process. */
  lemma WithoutPageIndex(sp: Space, sp': Space, pg: Page) returns (k: nat)
    requires WithoutPage(sp, sp', pg)
    ensures k < |HeapPages(sp)| && HeapPages(sp)[k] == pg
    ensures HeapPages(sp') == HeapPages(sp)[..k] + HeapPages(sp)[k + 1..]
  {
    if sp.plain != [] && pg == LastPlain(sp) && sp' == DropLastPlain(sp) {
      k := |HeapPages(sp)| - 1;
    } else {
      k := 0;
      assert HeapPages(sp)[0] == sp.tables[0];
    }
  }

  lemma ReleasePageKeepsInv(s: MM, s': MM, pid: nat, pg: Page, sp': Space)
    requires Inv(s) && ReleasePage(s, s', pid, pg, sp')
    ensures Inv(s')
  {
    var sp := s.spaces[pid];
    var k := WithoutPageIndex(sp, sp', pg);
    assert Owns(s.owner, pid, sp);
    assert s.owner[pg.p] == PageHeap(pg.v, pid) && s.kmap[pg.v] == pg.p;
    FreeAreas.ReleaseKeepsInv(s.head, FreeAreas.State(s.areas, Out(s.kmap)), pg.v);
    FramesRemove(s.boot, s.used, s.owner, pg.p);
    MappedRemove(s.owner, s.kmap, pg.v);
    ListedRemove(s.owner, s.spaces, pid, sp', k);
    KernelPageRange(s, pg.v);
    KernelTablesApart(s, s'.mem, pg.v);
    SameRoles(s'.mem, s.spaces, pid, sp');
    ReleaseRanges(s, s', pg.v);
  }

  lemma ReleaseRanges(s: MM, s': MM, v: nat)
    requires Inv(s) && v in s.kmap && s.owner[s.kmap[v]].PageHeap?
    requires s'.kmap == s.kmap - {v} && s'.brk == s.brk && KernelPteChanged(s.mem, s'.mem, v)
    requires FreeAreas.Inv(FreeAreas.State(s'.areas, Out(s.kmap) - {v}))
    ensures Ranges(s'.kmap, s'.areas, s'.brk) && Ptes(s'.mem, s'.kmap)
  {
    assert Out(s'.kmap) == Out(s.kmap) - {v};
    forall w | w in s'.kmap ensures Read(s'.mem, KTable(w), Idx(w)) == Read(s.mem, KTable(w), Idx(w)) {
      KernelSlots(v, w);
    }
  }

  lemma SpawnKeepsInv(s: MM, s': MM, pid: nat)
    requires Inv(s) && (Spawn(s, s', pid) || Forget(s, s', pid))
    ensures Inv(s')
  {
    forall q | q in s'.spaces ensures Owns(s'.owner, q, s'.spaces[q]) {
      if q in s.spaces {
        assert Owns(s.owner, q, s.spaces[q]);
      }
    }
  }

  /** The first frame of a page list belongs to its process. */
  lemma DropIsOwn(s: MM, pid: nat)
    requires Listed(s.owner, s.spaces) && pid in s.spaces && s.spaces[pid].pages != []
    ensures var f := s.spaces[pid].pages[0].p; f in s.owner && s.owner[f] == User(pid)
  {
    assert Owns(s.owner, pid, s.spaces[pid]);
  }
}
