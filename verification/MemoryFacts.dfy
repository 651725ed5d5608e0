/**
 Facts about memory states that the code of Memory needs.

 The class in Memory passes states of type MM along through many calls.  The invariants are large
 conjunctions of quantifiers, and with several states in scope the verifier would instantiate all of them
 all the time.  Good and By wrap them in a quantifier that only fires on the term Seen(s): a proof obligation
 about the code sees an opaque fact about s, and the lemmas here, which mention Seen(s), unwrap it.
 */
module MemoryFacts {
  import opened Layout
  import opened Words
  import opened Paging
  import opened MemoryModel
  import opened MemorySteps
  import opened UserTables
  import opened MemoryRuns
  import opened Translations
  import FreeAreas

  /** Frames that are still free. */
  ghost function FreeFrames(used: set<nat>): int { FRAMES - |used| }

  /** Some frame below FRAMES is missing from a set with fewer than FRAMES members. */
  lemma {:induction false} SomeFrameFree(used: set<nat>, n: nat)
    requires |used| < n
    ensures exists f: nat :: f < n && f !in used
  {
    if n - 1 in used {
      SomeFrameFree(used - {n - 1}, n - 1);
      var f: nat :| f < n - 1 && f !in used - {n - 1};
      assert f !in used;
    } else {
      var f: nat := n - 1;
      assert f < n && f !in used;
    }
  }

  lemma {:induction false} AtMostAllFrames(used: set<nat>, n: nat)
    requires forall f :: f in used ==> f < n
    ensures |used| <= n
  {
    if n > 0 {
      AtMostAllFrames(used - {n - 1}, n - 1);
    } else {
      assert used == {};
    }
  }

  /** pd0[i] as pd_create reads it: pd0 lies in the first 4MB page, mapped one to one. */
  lemma ReadsPd0(m: Mem, cr3: nat, i: nat)
    requires DirOk(m, cr3) && i < 1024
    ensures Load(m, cr3, PAGE + 4 * i) == Read(m, PD0, i)
  {
    assert Read(m, cr3, 0) == KernelEntry(0) == 0x83;
    assert Dir(PAGE + 4 * i) == 0 && (PAGE + 4 * i) % REGION == PAGE + 4 * i;
    assert SlotAt(PAGE + 4 * i) == Slot(1, i);
  }

  /** What the kernel page pt, whose frame is d, and the directory cr3 look like while pd_create fills the frame. */
  ghost predicate Filling(m: Mem, m': Mem, cr3: nat, pt: u32, d: nat) {
    && pt % PAGE == 0 && d < FRAMES && d != cr3 && d != PD0
    && DirOk(m, cr3) && DirOk(m, PD0) && Walk(m, cr3, pt) == At(d * PAGE) && IsSmall(m, cr3, pt)
    && FrameOf(Read(m, cr3, Dir(pt))) != d
    && forall g: nat, i: nat :: g != d ==> Read(m', g, i) == Read(m, g, i)
  }

  lemma FillingWalk(m: Mem, m': Mem, cr3: nat, pt: u32, d: nat)
    requires Filling(m, m', cr3, pt, d)
    ensures DirOk(m', cr3) && DirOk(m', PD0) && Walk(m', cr3, pt) == At(d * PAGE) && IsSmall(m', cr3, pt)
  {
    SameWalk(m, m', cr3, pt);
  }

  // ---- folded forms

  /** Says nothing; mentioning it makes the verifier look into Good and By for that state. */
  ghost predicate Seen(s: MM) { true }

  /** Both invariants of s, folded. */
  ghost predicate Good(s: MM) {
    forall t {:trigger Seen(t)} :: t == s ==> Inv(t) && Isolated(t)
  }

  /** OnlyBy, and nothing leaked, folded. */
  ghost predicate By(s: MM, s': MM, pid: nat) {
    forall t {:trigger Seen(t)} :: t == s ==> OnlyBy(t, s', pid) && LeakedFrames(s') == LeakedFrames(t)
  }

  /** By, with the same processes waiting for a table entry and exiting. */
  ghost predicate Did(s: MM, s': MM, pid: nat) {
    By(s, s', pid) && s'.pending == s.pending && s'.exiting == s.exiting
  }

  lemma Open(s: MM)
    requires Good(s)
    ensures Inv(s) && Isolated(s)
  {
    assert Seen(s);
  }

  lemma ByReflexive(s: MM, pid: nat)
    ensures By(s, s, pid)
  {
    assert OnlyBy(s, s, pid);
  }

  lemma ByTrans(s: MM, t: MM, u: MM, pid: nat)
    requires By(s, t, pid) && By(t, u, pid)
    ensures By(s, u, pid)
  {
    assert Seen(s) && Seen(t);
    OnlyByTrans(s, t, u, pid);
  }

  lemma GoodNext(s: MM, s': MM, pid: nat)
    requires Good(s) && Next(s, s', pid) && !Loses(s, s', pid)
    ensures Good(s') && By(s, s', pid)
  {
    Open(s);
    NextKeepsInv(s, s', pid);
    NextOnlyBy(s, s', pid);
    NextLoses(s, s', pid);
  }

  /** The state after init_mm has set up bitmap, pd0 and free list. */
  function BootState(used: set<nat>, m: Mem, head: FreeAreas.Area): MM {
    MM(used, used, FreeAreas.Initial, m, KERN_HEAP, map[], map f | f in used :: Boot, map[], head, {}, {}, {})
  }

  lemma BootStateGood(used: set<nat>, m: Mem, head: FreeAreas.Area)
    requires (forall f :: f in used ==> f < FRAMES) && (forall f: nat :: f < RESERVED ==> f in used)
    requires DirOk(m, PD0) && Pd0Tables(m) && FreeAreas.HeadOutside(head)
    ensures Booted(BootState(used, m, head)) && Good(BootState(used, m, head))
  {
    BootedInv(BootState(used, m, head));
  }

  /** A failed load: the frames on the page list are leaked, and nothing else changes hands. */
  lemma GoodAbandon(s: MM, s': MM, pid: nat)
    requires Good(s) && Abandon(s, s', pid)
    ensures Good(s') && s'.used == s.used
  {
    Open(s);
    assert Next(s, s', pid);
    NextKeepsInv(s, s', pid);
  }

  lemma GoodDirectory(s: MM, cr3: nat)
    requires Good(s) && IsDirectory(s.spaces, cr3)
    ensures DirOk(s.mem, cr3) && KERN_HEAP <= s.brk <= KERN_HEAP_LIM && s.brk % PAGE == 0
  {
    Open(s);
    DirectoryOk(s, cr3);
  }

  lemma GoodFrames(s: MM)
    requires Good(s)
    ensures FreeFrames(s.used) >= 0
  {
    Open(s);
    AtMostAllFrames(s.used, FRAMES);
  }

  lemma GoodLowest(s: MM)
    requires Good(s) && FreeAreas.MoreThanOnePage(s.areas)
    ensures s.areas != [] && 2 * REGION <= s.areas[0].start < KERN_HEAP && s.areas[0].start !in s.kmap
  {
    Open(s);
    RangesTake(s.kmap, s.areas, s.brk, 0);
  }

  lemma GoodBrk(s: MM)
    requires Good(s)
    ensures s.brk !in s.kmap && FreeAreas.HeadOutside(s.head)
  {
    Open(s);
    assert s.brk % PAGE == 0;
  }

  /** A process between two page faults is not waiting, and one that waits is not exiting. */
  lemma GoodLife(s: MM, pid: nat)
    requires Good(s)
    ensures pid in s.pending || pid in s.exiting ==> pid in s.spaces
    ensures !(pid in s.pending && pid in s.exiting)
  {
    Open(s);
  }

  /** The page of a directory being made, seen through the loaded directory. */
  lemma GoodFilling(s: MM, cr3: nat, pid: nat, pg: Page)
    requires Good(s) && IsDirectory(s.spaces, cr3) && pid in s.spaces && s.spaces[pid].plain == [pg]
    ensures pg.v < WORD && Filling(s.mem, s.mem, cr3, pg.v, pg.p)
  {
    Open(s);
    PlainIsOwned(s, pid);
    KernelPageWalk(s, cr3, pg.v);
    DirectoryOk(s, cr3);
    KernelEntryIs(pg.v);
  }

  /** A present user entry of the directory of process pid leads to one of its tables. */
  lemma GoodTable(s: MM, pid: nat, v: nat)
    requires Good(s) && pid in s.spaces && |s.spaces[pid].base| == 1 && USER_OFFSET <= v < USER_STACK
    ensures var d := s.spaces[pid].base[0].p; var pde := Read(s.mem, d, Dir(v));
            SelfMapped(s.mem, d) && d >= RESERVED && IsUserDir(Dir(v)) && (IsPresent(pde) ==> !IsBig(pde))
  {
    Open(s);
    var d := s.spaces[pid].base[0].p;
    BaseIsOwned(s, pid);
    assert IsDirectory(s.spaces, d);
    DirectoryOk(s, d);
    if IsPresent(Read(s.mem, d, Dir(v))) {
      var k := EntryTable(s, pid, Dir(v));
    }
  }

  /** The page of a table being made, seen through the directory it is made for. */
  lemma GoodInstall(s: MM, pid: nat, pg: Page)
    requires Good(s) && pid in s.spaces && |s.spaces[pid].base| == 1
    requires s.spaces[pid].plain != [] && LastPlain(s.spaces[pid]) == pg
    ensures var d := s.spaces[pid].base[0].p;
            && SelfMapped(s.mem, d) && pg.v < WORD && pg.v % PAGE == 0 && pg.p < FRAMES && pg.p != d
            && Walk(s.mem, d, pg.v) == At(pg.p * PAGE) && IsSmall(s.mem, d, pg.v)
            && pg.p != FrameOf(Read(s.mem, d, Dir(pg.v)))
  {
    Open(s);
    var d := s.spaces[pid].base[0].p;
    assert IsDirectory(s.spaces, d);
    PlainIsOwned(s, pid);
    KernelPageWalk(s, d, pg.v);
    KernelPageRange(s, pg.v);
    KernelEntryIs(pg.v);
    DirectoryOk(s, d);
  }

  /** A page that a process can release is a mapped kernel page with its own frame. */
  lemma GoodOwnPage(s: MM, pid: nat, pg: Page, sp': Space)
    requires Good(s) && pid in s.spaces && WithoutPage(s.spaces[pid], sp', pg)
    ensures pg.v < WORD && pg.v in s.kmap && s.kmap[pg.v] == pg.p && pg.p in s.used && 0 < pg.p < FRAMES
    ensures pg.v in Out(s.kmap)
  {
    Open(s);
    ReleaseIsOwn(s, pid, pg, sp');
    KernelPageRange(s, pg.v);
  }

  /** get_p_addr and pd_remove_page on a kernel page. */
  lemma GoodUnmap(s: MM, cr3: nat, v: u32)
    requires Good(s) && IsDirectory(s.spaces, cr3) && v in s.kmap && s.kmap[v] > 0
    ensures GetPAddr(s.mem, cr3, v) == s.kmap[v] * PAGE
    ensures KernelPteCleared(s.mem, RemovePage(s.mem, cr3, v), v)
  {
    Open(s);
    KernelPageWalk(s, cr3, v);
    DirectoryOk(s, cr3);
    GetPAddrIsWalk(s.mem, cr3, v);
    RemoveClears(s.mem, cr3, v);
  }

  lemma GoodDrop(s: MM, pid: nat)
    requires Good(s) && pid in s.spaces && s.spaces[pid].pages != []
    ensures s.spaces[pid].pages[0].p < FRAMES && s.spaces[pid].pages[0].p in s.used
  {
    Open(s);
    DropIsOwn(s, pid);
  }

  /** The free list takes back a page that is out. */
  lemma GoodGiveBack(s: MM, v: nat)
    requires Good(s) && v in Out(s.kmap)
    ensures FreeAreas.Given(s.areas, s.head, v).Released?
  {
    Open(s);
    FreeAreas.ReleaseKeepsInv(s.head, FreeAreas.State(s.areas, Out(s.kmap)), v);
  }

  // ---- translations

  /** Kernel pages that are mapped stay mapped to their frames. */
  ghost predicate MapsKept(s: MM, s': MM) {
    forall v :: v in s.kmap ==> v in s'.kmap && s'.kmap[v] == s.kmap[v]
  }

  lemma TookPage(s: MM, s': MM, pid: nat, f: nat, d: nat)
    requires Good(s) && GetPage(s, s', pid, f) && IsDirectory(s.spaces, d)
    ensures Good(s') && By(s, s', pid) && MapsKept(s, s') && IsDirectory(s'.spaces, d)
  {
    GoodLowest(s);
    assert s'.spaces[pid].pages == s.spaces[pid].pages;
    GoodNext(s, s', pid);
    DirectoryStays(s.spaces, s'.spaces, d, pid);
  }

  /** The latest page of a process gets its entry in an existing table. */
  lemma FaultOldTable(s: MM, u: MM, s': MM, pid: nat)
    requires Good(s) && Good(u) && OnlyKernelTables(s.mem, u.mem) && SetPte(u, s', pid)
    requires USER_OFFSET <= u.spaces[pid].pages[0].v < USER_STACK
    requires pid in s.spaces && s.spaces[pid].base == u.spaces[pid].base
    requires forall d: nat :: IsDirectory(s.spaces, d) ==> IsDirectory(u.spaces, d)
    ensures UserKept(s.mem, s'.mem, s.spaces, u.spaces[pid].base[0].p, u.spaces[pid].pages[0].v)
  {
    Open(s);
    Open(u);
    assert IsDirectory(s.spaces, u.spaces[pid].base[0].p);
    SetPteKeepsOthers(u, s', pid);
    KernelTablesFirst(s, u, s'.mem, u.spaces[pid].base[0].p, u.spaces[pid].pages[0].v);
  }

  /** The same with a table made for it. */
  lemma FaultNewTable(s: MM, x: MM, u: MM, s': MM, pid: nat, v: nat)
    requires Good(s) && Good(x) && Good(u) && OnlyKernelTables(s.mem, x.mem)
    requires MakeTable(x, u, pid, v) && SetPte(u, s', pid) && u.spaces[pid].pages[0].v == v
    requires pid in s.spaces && s.spaces[pid].base == x.spaces[pid].base
    requires forall d: nat :: IsDirectory(s.spaces, d) ==> IsDirectory(x.spaces, d)
    ensures UserKept(s.mem, s'.mem, s.spaces, x.spaces[pid].base[0].p, v)
  {
    Open(s);
    Open(x);
    Open(u);
    assert IsDirectory(s.spaces, x.spaces[pid].base[0].p);
    NewTableKeepsOthers(x, u, s', pid, v);
    KernelTablesFirst(s, x, s'.mem, x.spaces[pid].base[0].p, v);
  }

  /** The page of the entry just written. */
  lemma FaultMaps(u: MM, s': MM, pid: nat, a: nat)
    requires Good(u) && SetPte(u, s', pid) && USER_OFFSET <= a < USER_STACK
    requires u.spaces[pid].pages[0].v == a / PAGE * PAGE
    ensures Walk(s'.mem, u.spaces[pid].base[0].p, a) == At(u.spaces[pid].pages[0].p * PAGE + a % PAGE)
  {
    Open(u);
    PageOf(a);
    SetPteOwn(u, s', pid, a);
  }

  /** Both cases of pd_add_page: s before, u with a table in place (made from x if there was none), s' after. */
  lemma AddedPage(s: MM, x: MM, u: MM, s': MM, pid: nat, v: nat, made: bool)
    requires Good(s) && Good(u) && SetPte(u, s', pid) && u.spaces[pid].pages[0].v == v && USER_OFFSET <= v < USER_STACK
    requires pid in s.spaces && s.spaces[pid].base == u.spaces[pid].base
    requires !made ==> u == s
    requires made ==> Good(x) && OnlyKernelTables(s.mem, x.mem) && MakeTable(x, u, pid, v)
    requires made ==> x.spaces == s.spaces[pid := x.spaces[pid]] && x.spaces[pid].base == s.spaces[pid].base
    ensures UserKept(s.mem, s'.mem, s.spaces, u.spaces[pid].base[0].p, v)
    ensures v % PAGE == 0 ==> forall a :: v <= a < v + PAGE && a < USER_STACK ==>
              Walk(s'.mem, u.spaces[pid].base[0].p, a) == At(u.spaces[pid].pages[0].p * PAGE + a % PAGE)
  {
    if made {
      DirectoriesStay(s.spaces, x.spaces, pid);
      FaultNewTable(s, x, u, s', pid, v);
    } else {
      FaultOldTable(s, u, s', pid);
    }
    if v % PAGE == 0 {
      forall a | v <= a < v + PAGE && a < USER_STACK
        ensures Walk(s'.mem, u.spaces[pid].base[0].p, a) == At(u.spaces[pid].pages[0].p * PAGE + a % PAGE)
      {
        assert a / PAGE * PAGE == v;
        FaultMaps(u, s', pid, a);
      }
    }
  }

  /** A fault is a matter of the page. */
  lemma FaultOfPage(m: Mem, d: nat, a: nat)
    ensures Faults(m, d, a / PAGE * PAGE) == Faults(m, d, a)
  {
    PageOf(a);
  }

  /** Growth of the kernel heap does not make a user page accessible. */
  lemma StillFaults(s: MM, m': Mem, d: nat, a: nat)
    requires Good(s) && OnlyKernelTables(s.mem, m') && IsDirectory(s.spaces, d) && USER_OFFSET <= a < USER_STACK
    requires Faults(s.mem, d, a)
    ensures Faults(m', d, a)
  {
    Open(s);
    assert IsUserDir(Dir(a));
    DirectoryFrames(s, d, Dir(a));
    assert Read(m', d, Dir(a)) == Read(s.mem, d, Dir(a));
    if Allows(Read(s.mem, d, Dir(a))) {
      AllowsIsPresent(Read(s.mem, d, Dir(a)));
    }
  }

  lemma AllowsIsPresent(w: u32)
    requires Allows(w)
    ensures IsPresent(w)
  {
  }

  /** Kernel tables, then the page list, then the tables of pid. */
  lemma KeptBefore(s: MM, u: MM, m': Mem, pid: nat, d0: nat, v: nat)
    requires Good(s) && OnlyKernelTables(s.mem, u.mem) && IsDirectory(s.spaces, d0) && USER_OFFSET <= v < USER_STACK
    requires pid in s.spaces && pid in u.spaces && u.spaces == s.spaces[pid := u.spaces[pid]]
    requires u.spaces[pid].base == s.spaces[pid].base && UserKept(u.mem, m', u.spaces, d0, v)
    ensures UserKept(s.mem, m', s.spaces, d0, v)
  {
    Open(s);
    DirectoriesStay(s.spaces, u.spaces, pid);
    KernelTablesFirst(s, u, m', d0, v);
  }

  /** Some frame is free if one is known to be. */
  lemma SomeFree(used: set<nat>, f: nat)
    requires f !in used && f < FRAMES && forall g :: g in used ==> g < FRAMES
    ensures FreeFrames(used) > 0
  {
    AtMostAllFrames(used + {f}, FRAMES);
  }

  /** Changing one space but not its directory keeps the directories. */
  lemma DirectoriesStay(spaces: map<nat, Space>, spaces': map<nat, Space>, pid: nat)
    requires pid in spaces && pid in spaces' && spaces' == spaces[pid := spaces'[pid]]
    requires spaces[pid].base == [] || spaces'[pid].base == spaces[pid].base
    ensures forall d: nat :: IsDirectory(spaces, d) ==> IsDirectory(spaces', d)
  {
    forall d: nat | IsDirectory(spaces, d) ensures IsDirectory(spaces', d) {
      DirectoryStays(spaces, spaces', d, pid);
    }
  }

  /** A store through a user address, and where it goes. */
  lemma GoodStore(s: MM, pid: nat, a: nat)
    requires Good(s) && Running(s, pid) && IsUserDir(Dir(a)) && Walk(s.mem, s.spaces[pid].base[0].p, a).At?
    ensures var d := s.spaces[pid].base[0].p; var f := Walk(s.mem, d, a).addr / PAGE;
            Page(a / PAGE * PAGE, f) in s.spaces[pid].pages <==> !RawSlot(s, d, a)
  {
    Open(s);
    UserAddressExact(s, pid, a);
  }

  lemma GoodListed(s: MM, pid: nat, k: nat)
    requires Good(s) && Running(s, pid) && k < |s.spaces[pid].pages|
    ensures !Faults(s.mem, s.spaces[pid].base[0].p, s.spaces[pid].pages[k].v)
  {
    Open(s);
    ListedDoesNotFault(s, pid, k);
  }

  /** A user address below the directory of pid faults while that directory has no user entry. */
  lemma EmptyFaults(m: Mem, d: nat, a: nat)
    requires Read(m, d, Dir(a)) == 0
    ensures Faults(m, d, a)
  {
  }

  // ---- budgets for sequences of page faults

  /** A page fault of a process: the address, and the heap growth of the kmalloc calls it leads to. */
  datatype PFault = PFault(addr: nat, g1: nat, g2: nat)

  predicate UserFaults(fs: seq<PFault>) {
    forall k :: 0 <= k < |fs| ==> USER_OFFSET <= fs[k].addr < USER_STACK
  }

  function Growth(fs: seq<PFault>): nat {
    if fs == [] then 0 else fs[0].g1 + fs[0].g2 + Growth(fs[1..])
  }

  /** The page heap can hand out n more pages and still has one left. */
  predicate PagesLeft(areas: seq<FreeAreas.Area>, n: nat)
    decreases n
  {
    n == 0 || (FreeAreas.MoreThanOnePage(areas) && PagesLeft(FreeAreas.Taken(areas), n - 1))
  }

  lemma {:induction false} FewerPages(areas: seq<FreeAreas.Area>, n: nat)
    requires n > 0 && PagesLeft(areas, n)
    ensures PagesLeft(areas, n - 1)
    decreases n
  {
    if n > 1 {
      FewerPages(FreeAreas.Taken(areas), n - 1);
    }
  }

  /** Enough frames, heap window and pages for the faults fs, with some of each to spare. */
  ghost predicate Affords(s: MM, fs: seq<PFault>, frames: int, growth: nat, pages: nat) {
    && FreeFrames(s.used) > 2 * |fs| + Growth(fs) + frames
    && s.brk + (Growth(fs) + growth) * PAGE <= KERN_HEAP_LIM
    && PagesLeft(s.areas, |fs| + pages)
  }

  lemma {:induction false} GrowthAppend(a: seq<PFault>, b: seq<PFault>)
    ensures Growth(a + b) == Growth(a) + Growth(b)
  {
    if a == [] {
      assert a + b == b;
    } else {
      assert (a + b)[1..] == a[1..] + b;
      GrowthAppend(a[1..], b);
    }
  }

  lemma OpenBy(s: MM, s': MM, pid: nat)
    requires By(s, s', pid)
    ensures OnlyBy(s, s', pid) && LeakedFrames(s') == LeakedFrames(s)
  {
    assert Seen(s);
  }

  lemma SameKeys(s: MM, s': MM, pid: nat)
    requires OnlyBy(s, s', pid) && pid !in s.spaces && pid !in s'.spaces
    ensures s'.spaces.Keys == s.spaces.Keys
  {
    assert forall q :: q in s'.spaces.Keys <==> q in s.spaces.Keys;
  }

  /** What a process has taken and given back once it is gone. */
  lemma GoodConservation(s: MM, s': MM, pid: nat)
    requires Good(s) && Good(s') && By(s, s', pid) && pid !in s.spaces && pid !in s'.spaces
    ensures s.used <= s'.used && NonHeap(s') == NonHeap(s) && s'.spaces.Keys == s.spaces.Keys
    ensures forall x :: FreeAreas.IsPage(x) ==> (FreeAreas.IsFree(s'.areas, x) <==> FreeAreas.IsFree(s.areas, x))
  {
    Open(s);
    Open(s');
    OpenBy(s, s', pid);
    Conservation(s, s', pid);
    SameKeys(s, s', pid);
  }

  /** The same for a load that fails: t is the state in which load_elf returns 0. */
  lemma FailedConservation(s: MM, t: MM, u: MM, s': MM, pid: nat)
    requires Good(s) && Good(t) && Good(s') && By(s, t, pid) && Abandon(t, u, pid) && By(u, s', pid)
    requires pid !in s.spaces && pid !in s'.spaces
    ensures s.used <= s'.used && s'.spaces.Keys == s.spaces.Keys
    ensures NonHeap(s') == NonHeap(s) + ListFrames(t.spaces[pid].pages)
    ensures NonHeap(s') == NonHeap(s) <==> t.spaces[pid].pages == []
    ensures forall x :: FreeAreas.IsPage(x) ==> (FreeAreas.IsFree(s'.areas, x) <==> FreeAreas.IsFree(s.areas, x))
  {
    FailedLeaks(s, t, u, s', pid);
    Open(s);
    Open(s');
    Conservation(s, s', pid);
    SameKeys(s, s', pid);
    LeakedInUse(s);
    if t.spaces[pid].pages != [] {
      assert t.spaces[pid].pages[0].p in ListFrames(t.spaces[pid].pages);
    }
  }

  lemma FailedLeaks(s: MM, t: MM, u: MM, s': MM, pid: nat)
    requires Good(s) && Good(t) && By(s, t, pid) && Abandon(t, u, pid) && By(u, s', pid) && pid !in s.spaces
    ensures OnlyBy(s, s', pid) && LeakedFrames(s') == LeakedFrames(s) + ListFrames(t.spaces[pid].pages)
    ensures LeakedFrames(s) !! ListFrames(t.spaces[pid].pages)
  {
    OpenBy(s, t, pid);
    Open(t);
    AbandonLeaks(t, u, pid);
    OpenBy(u, s', pid);
    OnlyByTrans(s, t, u, pid);
    OnlyByTrans(s, u, s', pid);
  }

  lemma LeakedInUse(s: MM)
    requires Inv(s)
    ensures LeakedFrames(s) <= NonHeap(s)
  {
    forall f | f in LeakedFrames(s) ensures f in NonHeap(s) {
      HeapIsOwned(s, f);
    }
  }

  /** The loaded directory belongs to another process, or is pd0. */
  lemma NewSpaceKeepsDirectory(spaces: map<nat, Space>, spaces': map<nat, Space>, cr3: nat, pid: nat)
    requires IsDirectory(spaces, cr3) && pid !in spaces
    requires forall q :: q != pid && q in spaces ==> q in spaces' && spaces'[q] == spaces[q]
    ensures IsDirectory(spaces', cr3)
  {
    if cr3 != PD0 {
      var q :| q in spaces && spaces[q].base != [] && spaces[q].base[0].p == cr3;
      assert q in spaces' && spaces'[q].base == spaces[q].base;
    }
  }

  /** Changing a space without removing its directory keeps the loaded directory a directory. */
  lemma DirectoryStays(spaces: map<nat, Space>, spaces': map<nat, Space>, cr3: nat, pid: nat)
    requires IsDirectory(spaces, cr3) && pid in spaces && pid in spaces'
    requires spaces' == spaces[pid := spaces'[pid]] && (spaces[pid].base == [] || spaces'[pid].base == spaces[pid].base)
    ensures IsDirectory(spaces', cr3)
  {
    if cr3 != PD0 {
      var q :| q in spaces && spaces[q].base != [] && spaces[q].base[0].p == cr3;
      assert q in spaces' && spaces'[q].base == spaces[q].base;
    }
  }

  /** A directory of another process, or pd0, whatever happens to the space of pid. */
  lemma OtherDirectory(spaces: map<nat, Space>, spaces': map<nat, Space>, d: nat, pid: nat)
    requires IsDirectory(spaces, d) && pid in spaces
    requires forall q :: q != pid && q in spaces ==> q in spaces' && spaces'[q] == spaces[q]
    requires IsDirectory(spaces - {pid}, d)
    ensures IsDirectory(spaces', d)
  {
    if d != PD0 {
      var q :| q in spaces - {pid} && (spaces - {pid})[q].base != [] && (spaces - {pid})[q].base[0].p == d;
      assert q in spaces' && spaces'[q].base == spaces[q].base;
    }
  }
}
