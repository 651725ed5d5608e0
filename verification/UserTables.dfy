/**
 Where user addresses lead: the entries of a process's tables are the pages on its list, entry 0 of a
 table apart until it is written for the first time (pd_add_page does not clear it).
 */
module UserTables {
  import opened Layout
  import opened Words
  import opened Paging
  import opened MemoryModel
  import opened MemorySteps

  /** The pages of a process whose table entries have been written. */
  function Settled(s: MM, pid: nat): seq<Page>
    requires pid in s.spaces
  {
    var pages := s.spaces[pid].pages;
    if pid in s.pending && pages != [] then pages[1..] else pages
  }

  /** Page pg is entered in the tables below directory d. */
  predicate IsMapped(mem: Mem, raw: set<nat>, d: nat, pg: Page) {
    var pde := Read(mem, d, Dir(pg.v));
    && pg.v % PAGE == 0 && IsUserDir(Dir(pg.v)) && pg.p < FRAMES
    && IsPresent(pde) && !(Idx(pg.v) == 0 && FrameOf(pde) in raw)
    && Read(mem, FrameOf(pde), Idx(pg.v)) == Entry(pg.p, RWU)
  }

  /** Entry j of the table of region i is absent, raw, or for a page on the list. */
  predicate SlotOk(mem: Mem, raw: set<nat>, d: nat, pages: seq<Page>, i: nat, j: nat) {
    var pde := Read(mem, d, i);
    IsPresent(pde) && !(j == 0 && FrameOf(pde) in raw) && IsPresent(Read(mem, FrameOf(pde), j)) ==>
      Page(i * REGION + j * PAGE, FrameOf(Read(mem, FrameOf(pde), j))) in pages
  }

  /** The tables below the directory of a space and the list pages say the same. */
  ghost predicate OwnTables(mem: Mem, raw: set<nat>, base: seq<Page>, pages: seq<Page>) {
    if base == [] then pages == []
    else
      && (forall k :: 0 <= k < |pages| ==> IsMapped(mem, raw, base[0].p, pages[k]))
      && (forall i: nat, j: nat :: IsUserDir(i) && j < 1024 ==> SlotOk(mem, raw, base[0].p, pages, i, j))
  }

  /** The page that waits for its table entry is not on the list a second time. */
  predicate PendingOk(sp: Space) {
    && |sp.base| == 1 && sp.pages != []
    && sp.pages[0].v % PAGE == 0 && USER_OFFSET <= sp.pages[0].v < USER_STACK && sp.pages[0].p < FRAMES
    && forall k :: 1 <= k < |sp.pages| ==> sp.pages[k].v != sp.pages[0].v
  }

  ghost predicate SpaceOk(s: MM, q: nat)
    requires q in s.spaces
  {
    q !in s.exiting ==>
      OwnTables(s.mem, s.raw, s.spaces[q].base, Settled(s, q)) && (q in s.pending ==> PendingOk(s.spaces[q]))
  }

  /** Every process that may run sees its own pages and, through raw slots, nobody knows what. */
  ghost predicate Isolated(s: MM) {
    && s.exiting <= s.spaces.Keys && s.pending <= s.spaces.Keys && s.exiting !! s.pending
    && forall q :: q in s.spaces ==> SpaceOk(s, q)
  }

  // ---- what it says

  /** The fields of an address and the page it lies in. */
  lemma PageOf(a: nat)
    ensures a / PAGE * PAGE == Dir(a) * REGION + Idx(a) * PAGE && Idx(a) < 1024
    ensures Dir(a / PAGE * PAGE) == Dir(a) && Idx(a / PAGE * PAGE) == Idx(a)
  {
    assert a / PAGE == 1024 * Dir(a) + Idx(a);
    SameIndices(a, a / PAGE * PAGE);
  }

  lemma FrameOfAddress(f: nat, a: nat)
    ensures (f * PAGE + a % PAGE) / PAGE == f
  {
  }

  /** The tables below a directory are different frames, and not the directory. */
  ghost predicate Separate(m: Mem, d: nat) {
    && (forall i: nat :: IsUserDir(i) && IsPresent(Read(m, d, i)) ==>
          FrameOf(Read(m, d, i)) != d && !IsBig(Read(m, d, i)))
    && (forall i: nat, j: nat :: IsUserDir(i) && IsUserDir(j) && i != j &&
                                 IsPresent(Read(m, d, i)) && IsPresent(Read(m, d, j)) ==>
                                   FrameOf(Read(m, d, i)) != FrameOf(Read(m, d, j)))
  }

  lemma InvSeparate(s: MM, pid: nat)
    requires Inv(s) && pid in s.spaces && |s.spaces[pid].base| == 1
    ensures Separate(s.mem, s.spaces[pid].base[0].p)
  {
    var d := s.spaces[pid].base[0].p;
    forall i: nat | IsUserDir(i) && IsPresent(Read(s.mem, d, i))
      ensures FrameOf(Read(s.mem, d, i)) != d && !IsBig(Read(s.mem, d, i))
    {
      var k := EntryTable(s, pid, i);
      TableIsOwned(s, pid, k);
    }
    forall i: nat, j: nat | IsUserDir(i) && IsUserDir(j) && i != j &&
                            IsPresent(Read(s.mem, d, i)) && IsPresent(Read(s.mem, d, j))
      ensures FrameOf(Read(s.mem, d, i)) != FrameOf(Read(s.mem, d, j))
    {
      OtherTable(s, pid, i, j);
    }
  }

  /** Different regions have different tables. */
  lemma OtherTable(s: MM, pid: nat, i: nat, j: nat)
    requires Inv(s) && pid in s.spaces && |s.spaces[pid].base| == 1 && IsUserDir(i) && IsUserDir(j) && i != j
    requires IsPresent(Read(s.mem, s.spaces[pid].base[0].p, i)) && IsPresent(Read(s.mem, s.spaces[pid].base[0].p, j))
    ensures FrameOf(Read(s.mem, s.spaces[pid].base[0].p, i)) != FrameOf(Read(s.mem, s.spaces[pid].base[0].p, j))
  {
    var k := EntryTable(s, pid, i);
    var n := EntryTable(s, pid, j);
    assert UserEntries(s.mem, s.spaces[pid].base[0].p, s.spaces[pid].tables);
  }

  /** Translation below one directory, in terms of the list. */
  lemma AddressExact(m: Mem, raw: set<nat>, base: seq<Page>, pages: seq<Page>, a: nat)
    requires base != [] && OwnTables(m, raw, base, pages) && Separate(m, base[0].p)
    requires IsUserDir(Dir(a)) && Walk(m, base[0].p, a).At?
    ensures Page(a / PAGE * PAGE, Walk(m, base[0].p, a).addr / PAGE) in pages <==>
            !(Idx(a) == 0 && FrameOf(Read(m, base[0].p, Dir(a))) in raw)
  {
    var d := base[0].p;
    var pte := Read(m, FrameOf(Read(m, d, Dir(a))), Idx(a));
    PageOf(a);
    FrameOfAddress(FrameOf(pte), a);
    assert SlotOk(m, raw, d, pages, Dir(a), Idx(a));
    var pg := Page(a / PAGE * PAGE, FrameOf(pte));
    if pg in pages {
      var j :| 0 <= j < |pages| && pages[j] == pg;
      assert IsMapped(m, raw, d, pages[j]);
    }
  }

  /**
   An address that is translated leads to the page on the list for it exactly if it does not go
   through a raw slot; and then the frame belongs to the process and decides about no translation.
   */
  lemma UserAddressExact(s: MM, pid: nat, a: nat)
    requires Inv(s) && Isolated(s) && Running(s, pid) && IsUserDir(Dir(a))
    requires Walk(s.mem, s.spaces[pid].base[0].p, a).At?
    ensures var d := s.spaces[pid].base[0].p; var f := Walk(s.mem, d, a).addr / PAGE;
            && (Page(a / PAGE * PAGE, f) in s.spaces[pid].pages <==> !RawSlot(s, d, a))
            && (!RawSlot(s, d, a) ==> f in s.owner && s.owner[f] == User(pid) && !Structural(s, f))
  {
    var sp := s.spaces[pid];
    assert SpaceOk(s, pid);
    InvSeparate(s, pid);
    AddressExact(s.mem, s.raw, sp.base, sp.pages, a);
    ListedAreUser(s, pid);
    var f := Walk(s.mem, sp.base[0].p, a).addr / PAGE;
    if Structural(s, f) {
      StructuralIsKernel(s, f);
    }
  }

  lemma ListedAreUser(s: MM, pid: nat)
    requires Inv(s) && pid in s.spaces
    ensures forall pg :: pg in s.spaces[pid].pages ==> pg.p in s.owner && s.owner[pg.p] == User(pid)
  {
    assert Owns(s.owner, pid, s.spaces[pid]);
  }

  /** A directory or table is a page-heap frame of its process. */
  lemma RoleFrame(s: MM, q: nat, g: nat)
    requires Inv(s) && q in s.spaces && HasRole(s.spaces[q], g)
    ensures g in s.owner && s.owner[g].PageHeap? && s.owner[g].pid == q && RESERVED <= g < FRAMES
  {
    var sp := s.spaces[q];
    assert Owns(s.owner, q, sp);
    if k :| 0 <= k < |sp.base| && sp.base[k].p == g {
      assert HeapPages(sp)[k] == sp.base[k];
    } else {
      var k :| 0 <= k < |sp.tables| && sp.tables[k].p == g;
      assert HeapPages(sp)[|sp.base| + k] == sp.tables[k];
    }
  }

  // ---- spaces that a step does not touch

  /** The words of frame g and what is known about its entry 0 are the same. */
  ghost predicate Untouched(s: MM, s': MM, g: nat) {
    SameFrame(s.mem, s'.mem, g) && (g in s'.raw <==> g in s.raw)
  }

  lemma MappedKept(m: Mem, raw: set<nat>, m': Mem, raw': set<nat>, d: nat, pg: Page)
    requires IsMapped(m, raw, d, pg) && SameFrame(m, m', d)
    requires var t := FrameOf(Read(m, d, Dir(pg.v))); SameFrame(m, m', t) && (t in raw' ==> t in raw)
    ensures IsMapped(m', raw', d, pg)
  {
  }

  lemma SlotKept(m: Mem, raw: set<nat>, m': Mem, raw': set<nat>, d: nat, pages: seq<Page>, i: nat, j: nat)
    requires SlotOk(m, raw, d, pages, i, j) && SameFrame(m, m', d)
    requires var t := FrameOf(Read(m, d, i));
             IsPresent(Read(m, d, i)) ==> SameFrame(m, m', t) && (t in raw ==> t in raw')
    ensures SlotOk(m', raw', d, pages, i, j)
  {
  }

  lemma TablesKept(s: MM, s': MM, q: nat, pages: seq<Page>)
    requires Inv(s) && q in s.spaces && OwnTables(s.mem, s.raw, s.spaces[q].base, pages)
    requires forall g: nat :: HasRole(s.spaces[q], g) ==> Untouched(s, s', g)
    ensures OwnTables(s'.mem, s'.raw, s.spaces[q].base, pages)
  {
    var sp := s.spaces[q];
    if sp.base != [] {
      var d := sp.base[0].p;
      assert HasRole(sp, d);
      forall k | 0 <= k < |pages| ensures IsMapped(s'.mem, s'.raw, d, pages[k]) {
        var t := EntryTable(s, q, Dir(pages[k].v));
        assert HasRole(sp, sp.tables[t].p);
        MappedKept(s.mem, s.raw, s'.mem, s'.raw, d, pages[k]);
      }
      forall i: nat, j: nat | IsUserDir(i) && j < 1024 ensures SlotOk(s'.mem, s'.raw, d, pages, i, j) {
        assert SlotOk(s.mem, s.raw, d, pages, i, j);
        if IsPresent(Read(s.mem, d, i)) {
          var t := EntryTable(s, q, i);
          assert HasRole(sp, sp.tables[t].p);
        }
        SlotKept(s.mem, s.raw, s'.mem, s'.raw, d, pages, i, j);
      }
    }
  }

  lemma SpaceKept(s: MM, s': MM, q: nat)
    requires Inv(s) && q in s.spaces && SpaceOk(s, q) && q in s'.spaces
    requires s'.spaces[q].base == s.spaces[q].base && s'.spaces[q].pages == s.spaces[q].pages
    requires (q in s'.exiting <==> q in s.exiting) && (q in s'.pending <==> q in s.pending)
    requires forall g: nat :: HasRole(s.spaces[q], g) ==> Untouched(s, s', g)
    ensures SpaceOk(s', q)
  {
    if q !in s.exiting {
      TablesKept(s, s', q, Settled(s, q));
    }
  }

  // ---- the steps

  /** Memory changes in no directory or table, and no list of user pages changes. */
  lemma QuietStep(s: MM, s': MM)
    requires Inv(s) && Isolated(s) && s'.spaces.Keys == s.spaces.Keys
    requires s'.exiting == s.exiting && s'.pending == s.pending && s'.raw == s.raw
    requires forall q :: q in s.spaces ==>
               s'.spaces[q].base == s.spaces[q].base && s'.spaces[q].pages == s.spaces[q].pages
    requires forall q, g: nat :: q in s.spaces && HasRole(s.spaces[q], g) ==> SameFrame(s.mem, s'.mem, g)
    ensures Isolated(s')
  {
    forall q | q in s'.spaces ensures SpaceOk(s', q) {
      SpaceKept(s, s', q);
    }
  }

  lemma KernelTableStep(s: MM, s': MM, v: nat)
    requires Inv(s) && Isolated(s) && KernelPteChanged(s.mem, s'.mem, v) && 2 * REGION <= v < USER_OFFSET
    requires s'.spaces.Keys == s.spaces.Keys
    requires s'.exiting == s.exiting && s'.pending == s.pending && s'.raw == s.raw
    requires forall q :: q in s.spaces ==>
               s'.spaces[q].base == s.spaces[q].base && s'.spaces[q].pages == s.spaces[q].pages
    ensures Isolated(s')
  {
    KernelEntryIs(v);
    forall q, g: nat | q in s.spaces && HasRole(s.spaces[q], g) ensures SameFrame(s.mem, s'.mem, g) {
      RoleFrame(s, q, g);
    }
    QuietStep(s, s');
  }

  lemma GrowIsolates(s: MM, s': MM, f: nat)
    requires Inv(s) && Isolated(s) && Grow(s, s', f)
    ensures Isolated(s')
  {
    KernelTableStep(s, s', s.brk);
  }

  lemma GetPageIsolates(s: MM, s': MM, pid: nat, f: nat)
    requires Inv(s) && Isolated(s) && GetPage(s, s', pid, f)
    ensures Isolated(s')
  {
    RangesTake(s.kmap, s.areas, s.brk, f);
    KernelTableStep(s, s', s.areas[0].start);
  }

  lemma ReleasePageIsolates(s: MM, s': MM, pid: nat, pg: Page, sp': Space)
    requires Inv(s) && Isolated(s) && ReleasePage(s, s', pid, pg, sp')
    ensures Isolated(s')
  {
    var k := WithoutPageIndex(s.spaces[pid], sp', pg);
    assert Owns(s.owner, pid, s.spaces[pid]);
    KernelPageRange(s, pg.v);
    KernelTableStep(s, s', pg.v);
  }

  lemma StoreDataIsolates(s: MM, s': MM)
    requires Inv(s) && Isolated(s) && StoreData(s, s')
    ensures Isolated(s')
  {
    forall q, g: nat | q in s.spaces && HasRole(s.spaces[q], g) ensures SameFrame(s.mem, s'.mem, g) {
      assert Structural(s, g);
    }
    QuietStep(s, s');
  }

  /** Every structural frame is a frame of the kernel. */
  lemma StructuralIsKernel(s: MM, f: nat)
    requires Inv(s) && Structural(s, f)
    ensures KernelFrame(s, f)
  {
    if f !in s.boot {
      var q :| q in s.spaces && HasRole(s.spaces[q], f);
      RoleFrame(s, q, f);
    }
  }

  /** The store of StoreThrough never hits a frame of the kernel. */
  lemma StoreThroughTarget(s: MM, s': MM, pid: nat, a: nat, w: u32)
    requires Inv(s) && Isolated(s) && StoreThrough(s, s', pid, a, w)
    ensures var f := SlotAt(Walk(s.mem, s.spaces[pid].base[0].p, a).addr).frame;
            !KernelFrame(s, f) && !Structural(s, f)
  {
    var f := SlotAt(Walk(s.mem, s.spaces[pid].base[0].p, a).addr).frame;
    if !RawSlot(s, s.spaces[pid].base[0].p, a) {
      UserAddressExact(s, pid, a);
    }
    if Structural(s, f) {
      StructuralIsKernel(s, f);
    }
  }

  lemma StoreThroughIsolates(s: MM, s': MM, pid: nat, a: nat, w: u32)
    requires Inv(s) && Isolated(s) && StoreThrough(s, s', pid, a, w)
    ensures Isolated(s')
  {
    StoreThroughTarget(s, s', pid, a, w);
    forall q, g: nat | q in s.spaces && HasRole(s.spaces[q], g) ensures SameFrame(s.mem, s'.mem, g) {
      assert Structural(s, g);
    }
    QuietStep(s, s');
  }

  /** Spaces of other processes, when a step changes frames of process pid only. */
  lemma OthersKept(s: MM, s': MM, pid: nat)
    requires Inv(s) && Isolated(s)
    requires forall q :: q != pid ==>
               (q in s'.spaces <==> q in s.spaces) && (q in s.spaces ==> s'.spaces[q] == s.spaces[q])
    requires forall q :: q != pid ==> (q in s'.exiting <==> q in s.exiting) && (q in s'.pending <==> q in s.pending)
    requires forall g :: g in s.owner && s.owner[g].PageHeap? && s.owner[g].pid != pid ==> Untouched(s, s', g)
    ensures forall q :: q in s'.spaces && q != pid ==> SpaceOk(s', q)
  {
    forall q | q in s'.spaces && q != pid ensures SpaceOk(s', q) {
      forall g: nat | HasRole(s.spaces[q], g) ensures Untouched(s, s', g) {
        RoleFrame(s, q, g);
      }
      SpaceKept(s, s', q);
    }
  }

  lemma MakeDirectoryIsolates(s: MM, s': MM, pid: nat)
    requires Inv(s) && Isolated(s) && MakeDirectory(s, s', pid)
    ensures Isolated(s')
  {
    PlainIsOwned(s, pid);
    OthersKept(s, s', pid);
    assert SpaceOk(s, pid);
  }

  lemma MakeTableIsolates(s: MM, s': MM, pid: nat, v: nat)
    requires Inv(s) && Isolated(s) && MakeTable(s, s', pid, v)
    ensures Isolated(s')
  {
    MakeTableTouches(s, s', pid, v);
    OthersKept(s, s', pid);
    assert SpaceOk(s, pid);
    if pid !in s.exiting {
      MakeTableOwn(s, s', pid, v);
    }
  }

  /** Making a table changes frames of its process only. */
  lemma MakeTableTouches(s: MM, s': MM, pid: nat, v: nat)
    requires Inv(s) && MakeTable(s, s', pid, v)
    ensures forall g :: g in s.owner && s.owner[g].PageHeap? && s.owner[g].pid != pid ==> Untouched(s, s', g)
  {
    PlainIsOwned(s, pid);
    BaseIsOwned(s, pid);
    TwoFrames(s, s', pid, v);
  }

  lemma TwoFrames(s: MM, s': MM, pid: nat, v: nat)
    requires MakeTable(s, s', pid, v)
    requires var d, t := s.spaces[pid].base[0].p, LastPlain(s.spaces[pid]).p;
             && d in s.owner && s.owner[d].PageHeap? && s.owner[d].pid == pid
             && t in s.owner && s.owner[t].PageHeap? && s.owner[t].pid == pid
    ensures forall g :: g in s.owner && s.owner[g].PageHeap? && s.owner[g].pid != pid ==> Untouched(s, s', g)
  {
  }

  lemma MakeTableOwn(s: MM, s': MM, pid: nat, v: nat)
    requires Inv(s) && MakeTable(s, s', pid, v) && pid !in s.exiting && SpaceOk(s, pid)
    ensures SpaceOk(s', pid)
  {
    var sp := s.spaces[pid];
    InvSeparate(s, pid);
    PlainIsOwned(s, pid);
    NewTableApart(s, pid);
    forall i: nat | IsUserDir(i) && IsPresent(Read(s.mem, sp.base[0].p, i))
      ensures FrameOf(Read(s.mem, sp.base[0].p, i)) != LastPlain(sp).p
    {
      var k := EntryTable(s, pid, i);
    }
    assert IsUserDir(Dir(v));
    TableMade(s.mem, s'.mem, s.raw, sp.base, Settled(s, pid), v, LastPlain(sp).p);
  }

  /** A new table adds absent entries and one raw slot. */
  lemma TableMade(m: Mem, m': Mem, raw: set<nat>, base: seq<Page>, pages: seq<Page>, v: nat, t: nat)
    requires base != [] && OwnTables(m, raw, base, pages) && Separate(m, base[0].p) && IsUserDir(Dir(v))
    requires t < FRAMES && t != base[0].p && TableInstalled(m, m', base[0].p, v, t, RWU)
    requires !IsPresent(Read(m, base[0].p, Dir(v)))
    requires forall i: nat :: IsUserDir(i) && IsPresent(Read(m, base[0].p, i)) ==> FrameOf(Read(m, base[0].p, i)) != t
    ensures OwnTables(m', raw + {t}, base, pages)
  {
    var d := base[0].p;
    EntryFields(t, RWU);
    forall k | 0 <= k < |pages| ensures IsMapped(m', raw + {t}, d, pages[k]) {
      assert IsMapped(m, raw, d, pages[k]);
    }
    forall i: nat, j: nat | IsUserDir(i) && j < 1024 ensures SlotOk(m', raw + {t}, d, pages, i, j) {
      assert SlotOk(m, raw, d, pages, i, j);
    }
  }

  /** Entries written for user pages allow user stores. */
  lemma EntryAllows(p: nat)
    requires p < FRAMES
    ensures Allows(Entry(p, RWU))
  {
    LowBits(p * 512);
    assert Entry(p, RWU) == 8 * (p * 512) + 7;
  }

  lemma LowBits(n: nat)
    ensures (8 * n + 7) % 8 == 7
  {
  }

  /** A page on the list does not fault. */
  lemma ListedDoesNotFault(s: MM, pid: nat, k: nat)
    requires Inv(s) && Isolated(s) && Running(s, pid) && k < |s.spaces[pid].pages|
    ensures !Faults(s.mem, s.spaces[pid].base[0].p, s.spaces[pid].pages[k].v)
  {
    assert SpaceOk(s, pid);
    var pg := s.spaces[pid].pages[k];
    assert IsMapped(s.mem, s.raw, s.spaces[pid].base[0].p, pg);
    var j := EntryTable(s, pid, Dir(pg.v));
    EntryAllows(s.spaces[pid].tables[j].p);
    EntryAllows(pg.p);
  }

  lemma AddFrameIsolates(s: MM, s': MM, pid: nat, f: nat, v: nat)
    requires Inv(s) && Isolated(s) && AddFrame(s, s', pid, f, v)
    ensures Isolated(s')
  {
    OthersKept(s, s', pid);
    assert SpaceOk(s, pid);
    forall k | 0 <= k < |s.spaces[pid].pages| ensures s.spaces[pid].pages[k].v != v {
      ListedDoesNotFault(s, pid, k);
    }
    AddFrameOwn(s, s', pid, f, v);
  }

  lemma AddFrameOwn(s: MM, s': MM, pid: nat, f: nat, v: nat)
    requires AddFrame(s, s', pid, f, v) && SpaceOk(s, pid)
    requires forall k :: 0 <= k < |s.spaces[pid].pages| ==> s.spaces[pid].pages[k].v != v
    ensures SpaceOk(s', pid)
  {
    var pages, pages' := s.spaces[pid].pages, s'.spaces[pid].pages;
    assert pages'[1..] == pages;
    assert forall k :: 1 <= k < |pages'| ==> pages'[k] == pages[k - 1];
  }

  lemma SetPteIsolates(s: MM, s': MM, pid: nat)
    requires Inv(s) && Isolated(s) && SetPte(s, s', pid)
    ensures Isolated(s')
  {
    assert SpaceOk(s, pid);
    var sp := s.spaces[pid];
    assert IsUserDir(Dir(sp.pages[0].v));
    SetPteTouches(s, s', pid);
    OthersKept(s, s', pid);
    InvSeparate(s, pid);
    PteSet(s.mem, s'.mem, s.raw, sp.base, sp.pages, s'.raw);
  }

  /** Writing a table entry changes a frame of its process only. */
  lemma SetPteTouches(s: MM, s': MM, pid: nat)
    requires Inv(s) && SetPte(s, s', pid) && IsUserDir(Dir(s.spaces[pid].pages[0].v))
    ensures forall g :: g in s.owner && s.owner[g].PageHeap? && s.owner[g].pid != pid ==> Untouched(s, s', g)
  {
    var k := EntryTable(s, pid, Dir(s.spaces[pid].pages[0].v));
    TableIsOwned(s, pid, k);
  }

  /** Writing the entry of the first page settles it. */
  lemma PteSet(m: Mem, m': Mem, raw: set<nat>, base: seq<Page>, pages: seq<Page>, raw': set<nat>)
    requires base != [] && pages != [] && OwnTables(m, raw, base, pages[1..]) && Separate(m, base[0].p)
    requires pages[0].v % PAGE == 0 && IsUserDir(Dir(pages[0].v)) && pages[0].p < FRAMES
    requires forall k :: 1 <= k < |pages| ==> pages[k].v != pages[0].v
    requires IsPresent(Read(m, base[0].p, Dir(pages[0].v)))
    requires PteWritten(m, m', base[0].p, pages[0].v, pages[0].p, RWU)
    requires raw' == if Idx(pages[0].v) == 0 then raw - {FrameOf(Read(m, base[0].p, Dir(pages[0].v)))} else raw
    ensures OwnTables(m', raw', base, pages)
  {
    var d := base[0].p;
    assert SameFrame(m, m', d);
    forall k | 0 <= k < |pages| ensures IsMapped(m', raw', d, pages[k]) {
      if k > 0 {
        assert pages[1..][k - 1] == pages[k];
        assert IsMapped(m, raw, d, pages[k]);
        PageOf(pages[k].v);
        PageOf(pages[0].v);
      }
    }
    forall i: nat, j: nat | IsUserDir(i) && j < 1024 ensures SlotOk(m', raw', d, pages, i, j) {
      PteSetSlot(m, m', raw, base, pages, raw', i, j);
    }
  }

  lemma PteSetSlot(m: Mem, m': Mem, raw: set<nat>, base: seq<Page>, pages: seq<Page>, raw': set<nat>, i: nat, j: nat)
    requires base != [] && pages != [] && OwnTables(m, raw, base, pages[1..]) && Separate(m, base[0].p)
    requires pages[0].v % PAGE == 0 && IsUserDir(Dir(pages[0].v)) && pages[0].p < FRAMES && IsUserDir(i) && j < 1024
    requires IsPresent(Read(m, base[0].p, Dir(pages[0].v))) && SameFrame(m, m', base[0].p)
    requires PteWritten(m, m', base[0].p, pages[0].v, pages[0].p, RWU)
    requires raw' == if Idx(pages[0].v) == 0 then raw - {FrameOf(Read(m, base[0].p, Dir(pages[0].v)))} else raw
    ensures SlotOk(m', raw', base[0].p, pages, i, j)
  {
    var d := base[0].p;
    assert SlotOk(m, raw, d, pages[1..], i, j);
    if i == Dir(pages[0].v) && j == Idx(pages[0].v) {
      PageOf(pages[0].v);
      EntryFields(pages[0].p, RWU);
    }
  }

  // ---- steps that end the life of a space, or begin one

  lemma LeavingIsolates(s: MM, s': MM, pid: nat)
    requires Inv(s) && Isolated(s)
    requires BeginExit(s, s', pid) || Abandon(s, s', pid) || DropFrame(s, s', pid) || Retire(s, s', pid)
    ensures Isolated(s')
  {
    SameMemory(s, s', pid);
  }

  lemma SameMemory(s: MM, s': MM, pid: nat)
    requires Inv(s) && Isolated(s) && s'.mem == s.mem && s'.raw == s.raw && s'.pending == s.pending
    requires pid in s.spaces && pid !in s.pending && s'.exiting == s.exiting + {pid} && pid in s'.spaces
    requires s'.spaces == s.spaces[pid := s'.spaces[pid]]
    ensures Isolated(s')
  {
    OthersKept(s, s', pid);
  }

  lemma SpawnIsolates(s: MM, s': MM, pid: nat)
    requires Inv(s) && Isolated(s) && (Spawn(s, s', pid) || Forget(s, s', pid))
    ensures Isolated(s')
  {
    OthersKept(s, s', pid);
  }
}
