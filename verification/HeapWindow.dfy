/**
 The kernel heap as memory: what KernelHeap takes for granted about its window, proved of the frames, tables and
 directories behind it.
 */
module HeapWindow {
  import opened Layout
  import opened Words
  import opened Paging
  import opened MemoryModel
  import opened MemorySteps
  import opened UserTables
  import opened MemoryRuns
  import FreeAreas

  /** v is the address of a word of the kernel heap. */
  predicate InHeap(s: MM, v: nat) {
    KERN_HEAP <= v < s.brk && v % 4 == 0
  }

  /** The page of a heap address, and the frame behind it. */
  function HeapPage(v: nat): nat { v / PAGE * PAGE }

  lemma HeapPageMapped(s: MM, v: nat)
    requires Inv(s) && InHeap(s, v)
    ensures HeapPage(v) in s.kmap && KERN_HEAP <= HeapPage(v) <= v < HeapPage(v) + PAGE
    ensures var f := s.kmap[HeapPage(v)]; f in s.owner && s.owner[f] == Heap(HeapPage(v))
  {
    assert HeapPage(v) % PAGE == 0;
  }

  /** Where word v of the heap is stored. */
  function HeapSlot(s: MM, v: nat): Slot
    requires HeapPage(v) in s.kmap
  {
    Slot(s.kmap[HeapPage(v)], v % PAGE / 4)
  }

  /** Under every directory a heap address leads to the same word of memory. */
  lemma HeapWalk(s: MM, d: nat, v: nat)
    requires Inv(s) && IsDirectory(s.spaces, d) && InHeap(s, v)
    ensures HeapPage(v) in s.kmap && Walk(s.mem, d, v) == At(s.kmap[HeapPage(v)] * PAGE + v % PAGE)
    ensures SlotAt(s.kmap[HeapPage(v)] * PAGE + v % PAGE) == HeapSlot(s, v)
    ensures Load(s.mem, d, v) == Read(s.mem, HeapSlot(s, v).frame, HeapSlot(s, v).index)
  {
    HeapPageMapped(s, v);
    KernelPageWalk(s, d, HeapPage(v));
    PageOf(v);
    SamePageWalk(s.mem, d, HeapPage(v), v, s.kmap[HeapPage(v)]);
    WordOf(s.kmap[HeapPage(v)], v);
  }

  lemma SamePageWalk(m: Mem, d: nat, p: nat, v: nat, f: nat)
    requires Walk(m, d, p) == At(f * PAGE) && IsSmall(m, d, p) && p % PAGE == 0 && Dir(p) == Dir(v) && Idx(p) == Idx(v)
    ensures Walk(m, d, v) == At(f * PAGE + v % PAGE)
  {
  }

  lemma WordOf(f: nat, v: nat)
    ensures SlotAt(f * PAGE + v % PAGE) == Slot(f, v % PAGE / 4)
  {
  }

  /** Different words of the heap are different words of memory. */
  lemma HeapSlotsDiffer(s: MM, v: nat, w: nat)
    requires Inv(s) && InHeap(s, v) && InHeap(s, w) && v != w
    ensures HeapPage(v) in s.kmap && HeapPage(w) in s.kmap && HeapSlot(s, v) != HeapSlot(s, w)
  {
    HeapPageMapped(s, v);
    HeapPageMapped(s, w);
    if HeapPage(v) == HeapPage(w) {
      WordsOfPage(v, w);
    }
  }

  lemma WordsOfPage(v: nat, w: nat)
    requires HeapPage(v) == HeapPage(w) && v % 4 == 0 && w % 4 == 0 && v != w
    ensures v % PAGE / 4 != w % PAGE / 4
  {
    Quarter(v);
    Quarter(w);
    assert v == HeapPage(v) + v % PAGE && w == HeapPage(w) + w % PAGE;
  }

  lemma Quarter(v: nat)
    requires v % 4 == 0
    ensures v % PAGE == 4 * (v % PAGE / 4)
  {
    var q, r := v / PAGE, v % PAGE;
    assert v == 4 * (1024 * q) + r;
    assert r % 4 == 0;
  }

  // ---- stores

  /**
   A store of the kernel to a word of its heap, under any directory, is a StoreData step; read back under any
   directory, exactly that word has changed.
   */
  lemma HeapStore(s: MM, d: nat, d': nat, v: nat, w: nat, x: u32)
    requires Inv(s) && IsDirectory(s.spaces, d) && IsDirectory(s.spaces, d') && InHeap(s, v) && InHeap(s, w)
    ensures var s' := s.(mem := Store(s.mem, d, v, x));
            && StoreData(s, s')
            && Load(s'.mem, d', w) == if v == w then x else Load(s.mem, d', w)
  {
    var s' := s.(mem := Store(s.mem, d, v, x));
    HeapWalk(s, d, v);
    HeapWalk(s, d', w);
    HeapStoreStep(s, s', v, x);
    StoreDataKeepsInv(s, s');
    HeapWalk(s', d', w);
    if v != w {
      HeapSlotsDiffer(s, v, w);
    }
  }

  lemma HeapStoreStep(s: MM, s': MM, v: nat, x: u32)
    requires Inv(s) && InHeap(s, v) && HeapPage(v) in s.kmap && s' == s.(mem := s.mem[HeapSlot(s, v) := x])
    ensures StoreData(s, s')
  {
    HeapPageMapped(s, v);
    var f := s.kmap[HeapPage(v)];
    if Structural(s, f) {
      StructuralOwner(s, f);
    }
  }

  lemma StructuralOwner(s: MM, f: nat)
    requires Inv(s) && Structural(s, f)
    ensures f in s.owner && !s.owner[f].Heap?
  {
    if f !in s.boot {
      var q :| q in s.spaces && HasRole(s.spaces[q], f);
      RoleFrame(s, q, f);
    }
  }

  // ---- all other steps

  /** The words of kernel-heap frames are as before, and the heap pages are where they were. */
  ghost predicate HeapKept(s: MM, s': MM) {
    && s.brk <= s'.brk
    && (forall v :: v in s.kmap && v >= KERN_HEAP ==> v in s'.kmap && s'.kmap[v] == s.kmap[v])
    && (forall f: nat, i: nat :: f in s.owner && s.owner[f].Heap? ==> Read(s'.mem, f, i) == Read(s.mem, f, i))
  }

  /** A kernel table is not a heap frame. */
  lemma TableNotHeap(s: MM, v: nat)
    requires Inv(s) && 2 * REGION <= v < USER_OFFSET
    ensures KTable(v) in s.owner && !s.owner[KTable(v)].Heap?
  {
    KernelEntryIs(v);
    assert KTable(v) in s.boot;
  }

  lemma GrowHeapKept(s: MM, s': MM, f: nat)
    requires Inv(s) && Grow(s, s', f)
    ensures HeapKept(s, s')
  {
    TableNotHeap(s, s.brk);
    assert s.brk % PAGE == 0;
    assert s.brk !in s.kmap;
  }

  lemma GetPageHeapKept(s: MM, s': MM, pid: nat, f: nat)
    requires Inv(s) && GetPage(s, s', pid, f)
    ensures HeapKept(s, s')
  {
    RangesTake(s.kmap, s.areas, s.brk, f);
    TableNotHeap(s, s.areas[0].start);
  }

  lemma TakeHeapKept(s: MM, s': MM, pid: nat)
    requires Inv(s) && TakeStep(s, s', pid)
    ensures HeapKept(s, s')
  {
    if f :| Grow(s, s', f) {
      GrowHeapKept(s, s', f);
    } else if f :| GetPage(s, s', pid, f) {
      GetPageHeapKept(s, s', pid, f);
    }
  }

  lemma GiveHeapKept(s: MM, s': MM, pid: nat)
    requires Inv(s) && GiveStep(s, s', pid)
    ensures HeapKept(s, s')
  {
    if pg, sp' :| ReleasePage(s, s', pid, pg, sp') {
      ReleaseHeapKept(s, s', pid, pg, sp');
    }
  }

  lemma ReleaseHeapKept(s: MM, s': MM, pid: nat, pg: Page, sp': Space)
    requires Inv(s) && ReleasePage(s, s', pid, pg, sp')
    ensures HeapKept(s, s')
  {
    ReleaseIsOwn(s, pid, pg, sp');
    KernelPageRange(s, pg.v);
    TableNotHeap(s, pg.v);
    NotHeapPage(s, pg);
  }

  lemma NotHeapPage(s: MM, pg: Page)
    requires Inv(s) && pg.v in s.kmap && s.owner[s.kmap[pg.v]].PageHeap?
    ensures pg.v < KERN_HEAP
  {
  }

  /** A step that leaves the heap pages alone and stores outside heap frames. */
  lemma ElsewhereHeapKept(s: MM, s': MM)
    requires s'.brk == s.brk && s'.kmap == s.kmap
    requires forall f: nat, i: nat :: Read(s'.mem, f, i) != Read(s.mem, f, i) ==> f !in s.owner || !s.owner[f].Heap?
    ensures HeapKept(s, s')
  {
  }

  lemma MakeDirectoryHeapKept(s: MM, s': MM, pid: nat)
    requires Inv(s) && MakeDirectory(s, s', pid)
    ensures HeapKept(s, s')
  {
    PlainIsOwned(s, pid);
    ElsewhereHeapKept(s, s');
  }

  lemma MakeTableHeapKept(s: MM, s': MM, pid: nat, v: nat)
    requires Inv(s) && MakeTable(s, s', pid, v)
    ensures HeapKept(s, s')
  {
    PlainIsOwned(s, pid);
    BaseIsOwned(s, pid);
    ElsewhereHeapKept(s, s');
  }

  lemma SetPteHeapKept(s: MM, s': MM, pid: nat)
    requires Inv(s) && Isolated(s) && SetPte(s, s', pid)
    ensures HeapKept(s, s')
  {
    assert SpaceOk(s, pid);
    var k := EntryTable(s, pid, Dir(s.spaces[pid].pages[0].v));
    TableIsOwned(s, pid, k);
    ElsewhereHeapKept(s, s');
  }

  lemma StoreThroughHeapKept(s: MM, s': MM, pid: nat, a: nat, w: u32)
    requires Inv(s) && Isolated(s) && StoreThrough(s, s', pid, a, w)
    ensures HeapKept(s, s')
  {
    StoreThroughTarget(s, s', pid, a, w);
    ElsewhereHeapKept(s, s');
  }

  lemma LifeHeapKept(s: MM, s': MM, pid: nat)
    requires LifeStep(s, s', pid)
    ensures HeapKept(s, s')
  {
    ElsewhereHeapKept(s, s');
  }

  lemma OtherHeapKept(s: MM, s': MM, pid: nat)
    requires Inv(s) && Isolated(s) && OtherStep(s, s', pid) && !StoreData(s, s')
    ensures HeapKept(s, s')
  {
    if MakeDirectory(s, s', pid) {
      MakeDirectoryHeapKept(s, s', pid);
    } else if v :| MakeTable(s, s', pid, v) {
      MakeTableHeapKept(s, s', pid, v);
    } else if SetPte(s, s', pid) {
      SetPteHeapKept(s, s', pid);
    } else if a, w :| StoreThrough(s, s', pid, a, w) {
      StoreThroughHeapKept(s, s', pid, a, w);
    } else {
      LifeHeapKept(s, s', pid);
    }
  }

  /** No step but a store of the kernel itself changes the heap window, under any directory. */
  lemma NextHeapKept(s: MM, s': MM, pid: nat)
    requires Inv(s) && Isolated(s) && Next(s, s', pid) && !StoreData(s, s')
    ensures HeapKept(s, s')
  {
    if TakeStep(s, s', pid) {
      TakeHeapKept(s, s', pid);
    } else if GiveStep(s, s', pid) {
      GiveHeapKept(s, s', pid);
    } else {
      OtherHeapKept(s, s', pid);
    }
  }

  lemma HeapWordKept(s: MM, s': MM, d: nat, d': nat, v: nat)
    requires Inv(s) && Inv(s') && HeapKept(s, s') && InHeap(s, v)
    requires IsDirectory(s.spaces, d) && IsDirectory(s'.spaces, d')
    ensures InHeap(s', v) && Load(s'.mem, d', v) == Load(s.mem, d, v)
  {
    HeapPageMapped(s, v);
    HeapWalk(s, d, v);
    HeapWalk(s', d', v);
  }

  /** One step of a run that is no store of the kernel. */
  lemma RunWordStep(ss: seq<MM>, pids: seq<nat>, n: nat, d: nat, d': nat, v: nat)
    requires IsRun(ss, pids) && n < |pids| && !StoreData(ss[n], ss[n + 1])
    requires IsDirectory(ss[n].spaces, d) && IsDirectory(ss[n + 1].spaces, d') && InHeap(ss[n], v)
    ensures InHeap(ss[n + 1], v) && Load(ss[n + 1].mem, d', v) == Load(ss[n].mem, d, v)
  {
    RunInvariant(ss, pids, n);
    RunInvariant(ss, pids, n + 1);
    NextHeapKept(ss[n], ss[n + 1], pids[n]);
    HeapWordKept(ss[n], ss[n + 1], d, d', v);
  }

  lemma RunSameWord(ss: seq<MM>, pids: seq<nat>, n: nat, d: nat, d': nat, v: nat)
    requires IsRun(ss, pids) && n < |ss| && InHeap(ss[n], v)
    requires IsDirectory(ss[n].spaces, d) && IsDirectory(ss[n].spaces, d')
    ensures Load(ss[n].mem, d', v) == Load(ss[n].mem, d, v)
  {
    RunInvariant(ss, pids, n);
    HeapWalk(ss[n], d, v);
    HeapWalk(ss[n], d', v);
  }

  /** The kernel stores nothing in steps i .. j - 1. */
  ghost predicate NoKernelStore(ss: seq<MM>, i: nat, j: nat)
    requires j < |ss|
  {
    forall k :: i <= k < j ==> KernelQuiet(ss, k)
  }

  ghost predicate KernelQuiet(ss: seq<MM>, k: nat) {
    k + 1 < |ss| && !StoreData(ss[k], ss[k + 1])
  }

  /**
   In every run, between two stores of the kernel, every word of the heap reads the same, whichever directory is
   loaded before and after.
   */
  lemma {:induction false} RunHeapWindow(ss: seq<MM>, pids: seq<nat>, i: nat, j: nat, d: nat, d': nat, v: nat)
    requires IsRun(ss, pids) && i <= j < |ss| && NoKernelStore(ss, i, j)
    requires IsDirectory(ss[i].spaces, d) && IsDirectory(ss[j].spaces, d') && InHeap(ss[i], v)
    ensures InHeap(ss[j], v) && Load(ss[j].mem, d', v) == Load(ss[i].mem, d, v)
    decreases j
  {
    if i == j {
      RunSameWord(ss, pids, i, d, d', v);
    } else {
      assert KernelQuiet(ss, j - 1);
      RunHeapWindow(ss, pids, i, j - 1, d, PD0, v);
      RunWordStep(ss, pids, j - 1, PD0, d', v);
    }
  }

  // ---- the bytes of KernelHeap

  /** Byte k of a word. */
  function ByteOf(w: u32, k: nat): u8
    requires k < 4
  {
    Bytes(w, 4)[k]
  }

  /** The word that holds byte o of the heap. */
  function WordAddr(o: nat): nat { KERN_HEAP + o / 4 * 4 }

  /** Seen through directory d, the first limit bytes of the heap are those of KernelHeap's window. */
  ghost predicate Shows(s: MM, d: nat, bytes: seq<u8>, limit: nat) {
    && limit <= |bytes| && KERN_HEAP + limit <= s.brk
    && forall o: nat :: o < limit ==> ByteOf(Load(s.mem, d, WordAddr(o)), o % 4) == bytes[o]
  }

  lemma WordAddrInHeap(s: MM, o: nat)
    requires KERN_HEAP + o < s.brk
    ensures InHeap(s, WordAddr(o))
  {
    assert WordAddr(o) == 4 * (KERN_HEAP / 4 + o / 4);
  }

  /** Between stores of the kernel the window shows the same bytes, whatever processes do and whatever is loaded. */
  lemma RunShows(ss: seq<MM>, pids: seq<nat>, i: nat, j: nat, d: nat, d': nat, bytes: seq<u8>, limit: nat)
    requires IsRun(ss, pids) && i <= j < |ss| && NoKernelStore(ss, i, j) && Shows(ss[i], d, bytes, limit)
    requires IsDirectory(ss[i].spaces, d) && IsDirectory(ss[j].spaces, d')
    ensures Shows(ss[j], d', bytes, limit)
  {
    forall o: nat | o < limit ensures ByteOf(Load(ss[j].mem, d', WordAddr(o)), o % 4) == bytes[o] {
      WordAddrInHeap(ss[i], o);
      RunHeapWindow(ss, pids, i, j, d, d', WordAddr(o));
    }
    RunBrk(ss, pids, i, j);
  }

  lemma {:induction false} RunBrk(ss: seq<MM>, pids: seq<nat>, i: nat, j: nat)
    requires IsRun(ss, pids) && i <= j < |ss|
    ensures ss[i].brk <= ss[j].brk
  {
    var brks := seq(|ss|, k requires 0 <= k < |ss| => ss[k].brk);
    forall k | 0 <= k < |pids| ensures brks[k] <= brks[k + 1] {
      NextBrk(ss[k], ss[k + 1], pids[k]);
    }
    Ascending(brks, i, j);
  }

  lemma {:induction false} Ascending(xs: seq<nat>, i: nat, j: nat)
    requires i <= j < |xs| && forall k :: 0 <= k < |xs| - 1 ==> xs[k] <= xs[k + 1]
    ensures xs[i] <= xs[j]
    decreases j
  {
    if i < j {
      Ascending(xs, i, j - 1);
      assert xs[j - 1] <= xs[j - 1 + 1];
    }
  }

  lemma NextBrk(s: MM, s': MM, pid: nat)
    requires Next(s, s', pid)
    ensures s.brk <= s'.brk
  {
    if TakeStep(s, s', pid) {
      assert s.brk <= s'.brk;
    } else if GiveStep(s, s', pid) {
      assert s'.brk == s.brk;
    }
  }

  lemma {:induction false} BytesOfValue(b: seq<u8>)
    ensures Bytes(Value(b), |b|) == b
  {
    if b != [] {
      BytesOfValue(b[1..]);
      assert Value(b) % 256 == b[0] && Value(b) / 256 == Value(b[1..]);
    }
  }

  /** The word w with byte k replaced. */
  function WithByte(w: u32, k: nat, b: u8): (x: u32)
    requires k < 4
    ensures forall j: nat :: j < 4 ==> ByteOf(x, j) == if j == k then b else ByteOf(w, j)
  {
    Pow256Four();
    BytesOfValue(Bytes(w, 4)[k := b]);
    Value(Bytes(w, 4)[k := b])
  }

  /** A byte store of the kernel to its heap: a StoreData step after which the window shows exactly that change. */
  lemma ByteStore(s: MM, d: nat, d': nat, bytes: seq<u8>, limit: nat, o: nat, b: u8)
    requires Inv(s) && IsDirectory(s.spaces, d) && IsDirectory(s.spaces, d') && Shows(s, d', bytes, limit) && o < limit
    ensures var x := WithByte(Load(s.mem, d, WordAddr(o)), o % 4, b);
            var s' := s.(mem := Store(s.mem, d, WordAddr(o), x));
            StoreData(s, s') && Shows(s', d', bytes[o := b], limit)
  {
    var x := WithByte(Load(s.mem, d, WordAddr(o)), o % 4, b);
    var s' := s.(mem := Store(s.mem, d, WordAddr(o), x));
    forall p: nat | p < limit ensures ByteOf(Load(s'.mem, d', WordAddr(p)), p % 4) == bytes[o := b][p] {
      StoredByte(s, d, d', o, p, b);
    }
    WordAddrInHeap(s, o);
    HeapStore(s, d, d', WordAddr(o), WordAddr(o), x);
  }

  /** Byte p of the window after byte o has been stored. */
  lemma StoredByte(s: MM, d: nat, d': nat, o: nat, p: nat, b: u8)
    requires Inv(s) && IsDirectory(s.spaces, d) && IsDirectory(s.spaces, d')
    requires KERN_HEAP + o < s.brk && KERN_HEAP + p < s.brk
    ensures var x := WithByte(Load(s.mem, d, WordAddr(o)), o % 4, b);
            ByteOf(Load(Store(s.mem, d, WordAddr(o), x), d', WordAddr(p)), p % 4) ==
            if o == p then b else ByteOf(Load(s.mem, d', WordAddr(p)), p % 4)
  {
    var x := WithByte(Load(s.mem, d, WordAddr(o)), o % 4, b);
    WordAddrInHeap(s, o);
    WordAddrInHeap(s, p);
    SameLoad(s, d, d', WordAddr(o));
    HeapStore(s, d, d', WordAddr(o), WordAddr(p), x);
    ByteAddress(o, p);
  }

  lemma SameLoad(s: MM, d: nat, d': nat, v: nat)
    requires Inv(s) && IsDirectory(s.spaces, d) && IsDirectory(s.spaces, d') && InHeap(s, v)
    ensures Load(s.mem, d', v) == Load(s.mem, d, v)
  {
    HeapWalk(s, d, v);
    HeapWalk(s, d', v);
  }

  lemma ByteAddress(o: nat, p: nat)
    ensures WordAddr(o) == WordAddr(p) && o % 4 == p % 4 ==> o == p
  {
  }
}
