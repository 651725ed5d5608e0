/**
 Runs of the memory steps from boot: what holds in every reachable state, and what one process takes
 and gives back over its life.
 */
module MemoryRuns {
  import opened Layout
  import opened Words
  import opened Paging
  import opened MemoryModel
  import opened MemorySteps
  import opened UserTables
  import FreeAreas

  /** init_mm has set up the bitmap, pd0 and the free list; no heap page, no process yet. */
  ghost predicate Booted(s: MM) {
    && s.used == s.boot && (forall f :: f in s.boot ==> f < FRAMES) && (forall f: nat :: f < RESERVED ==> f in s.boot)
    && s.areas == FreeAreas.Initial && s.brk == KERN_HEAP && s.spaces == map[] && s.kmap == map[]
    && s.owner == (map f | f in s.boot :: Boot)
    && DirOk(s.mem, PD0) && Pd0Tables(s.mem)
    && FreeAreas.HeadOutside(s.head) && s.raw == {} && s.pending == {} && s.exiting == {}
  }

  lemma BootedInv(s: MM)
    requires Booted(s)
    ensures Inv(s) && Isolated(s)
  {
    FreeAreas.InitialInv();
    assert Out(s.kmap) == {};
  }

  /** One step on behalf of process pid: a step of its own, growth of the kernel heap, or stores of the kernel. */
  ghost predicate Next(s: MM, s': MM, pid: nat) {
    TakeStep(s, s', pid) || GiveStep(s, s', pid) || OtherStep(s, s', pid)
  }

  /** Steps that take a frame. */
  ghost predicate TakeStep(s: MM, s': MM, pid: nat) {
    || (exists f :: Grow(s, s', f))
    || (exists f :: GetPage(s, s', pid, f))
    || (exists f, v :: AddFrame(s, s', pid, f, v))
  }

  /** Steps that give a frame back. */
  ghost predicate GiveStep(s: MM, s': MM, pid: nat) {
    || DropFrame(s, s', pid)
    || (exists pg, sp' :: ReleasePage(s, s', pid, pg, sp'))
  }

  ghost predicate OtherStep(s: MM, s': MM, pid: nat) {
    || MakeDirectory(s, s', pid)
    || (exists v :: MakeTable(s, s', pid, v))
    || SetPte(s, s', pid)
    || StoreData(s, s')
    || (exists a, w :: StoreThrough(s, s', pid, a, w))
    || LifeStep(s, s', pid)
  }

  /** Steps that begin or end the life of a process. */
  ghost predicate LifeStep(s: MM, s': MM, pid: nat) {
    || BeginExit(s, s', pid)
    || Abandon(s, s', pid)
    || Retire(s, s', pid)
    || Spawn(s, s', pid)
    || Forget(s, s', pid)
  }

  lemma TakeKeepsInv(s: MM, s': MM, pid: nat)
    requires Inv(s) && Isolated(s) && TakeStep(s, s', pid)
    ensures Inv(s') && Isolated(s')
  {
    if f :| Grow(s, s', f) {
      GrowKeepsInv(s, s', f);
      GrowIsolates(s, s', f);
    } else if f :| GetPage(s, s', pid, f) {
      GetPageKeepsInv(s, s', pid, f);
      GetPageIsolates(s, s', pid, f);
    } else {
      var f, v :| AddFrame(s, s', pid, f, v);
      AddFrameKeepsInv(s, s', pid, f, v);
      AddFrameIsolates(s, s', pid, f, v);
    }
  }

  lemma GiveKeepsInv(s: MM, s': MM, pid: nat)
    requires Inv(s) && Isolated(s) && GiveStep(s, s', pid)
    ensures Inv(s') && Isolated(s')
  {
    if DropFrame(s, s', pid) {
      DropFrameKeepsInv(s, s', pid);
      LeavingIsolates(s, s', pid);
    } else {
      var pg, sp' :| ReleasePage(s, s', pid, pg, sp');
      ReleasePageKeepsInv(s, s', pid, pg, sp');
      ReleasePageIsolates(s, s', pid, pg, sp');
    }
  }

  lemma SetPteSound(s: MM, s': MM, pid: nat)
    requires Inv(s) && Isolated(s) && SetPte(s, s', pid)
    ensures Inv(s') && Isolated(s')
  {
    assert SpaceOk(s, pid);
    SetPteKeepsInv(s, s', pid);
    SetPteIsolates(s, s', pid);
  }

  lemma StoreThroughSound(s: MM, s': MM, pid: nat, a: nat, w: u32)
    requires Inv(s) && Isolated(s) && StoreThrough(s, s', pid, a, w)
    ensures Inv(s') && Isolated(s')
  {
    StoreThroughTarget(s, s', pid, a, w);
    StoreThroughKeepsInv(s, s', pid, a, w);
    StoreThroughIsolates(s, s', pid, a, w);
  }

  lemma OtherKeepsInv(s: MM, s': MM, pid: nat)
    requires Inv(s) && Isolated(s) && OtherStep(s, s', pid)
    ensures Inv(s') && Isolated(s')
  {
    if MakeDirectory(s, s', pid) {
      MakeDirectoryKeepsInv(s, s', pid);
      MakeDirectoryIsolates(s, s', pid);
    } else if v :| MakeTable(s, s', pid, v) {
      MakeTableKeepsInv(s, s', pid, v);
      MakeTableIsolates(s, s', pid, v);
    } else if SetPte(s, s', pid) {
      SetPteSound(s, s', pid);
    } else if StoreData(s, s') {
      StoreDataKeepsInv(s, s');
      StoreDataIsolates(s, s');
    } else if a, w :| StoreThrough(s, s', pid, a, w) {
      StoreThroughSound(s, s', pid, a, w);
    } else {
      LifeKeepsInv(s, s', pid);
    }
  }

  lemma LifeKeepsInv(s: MM, s': MM, pid: nat)
    requires Inv(s) && Isolated(s) && LifeStep(s, s', pid)
    ensures Inv(s') && Isolated(s')
  {
    if BeginExit(s, s', pid) {
      BeginExitKeepsInv(s, s', pid);
      LeavingIsolates(s, s', pid);
    } else if Abandon(s, s', pid) {
      AbandonKeepsInv(s, s', pid);
      LeavingIsolates(s, s', pid);
    } else if Retire(s, s', pid) {
      RetireKeepsInv(s, s', pid);
      LeavingIsolates(s, s', pid);
    } else {
      SpawnKeepsInv(s, s', pid);
      SpawnIsolates(s, s', pid);
    }
  }

  lemma NextKeepsInv(s: MM, s': MM, pid: nat)
    requires Inv(s) && Isolated(s) && Next(s, s', pid)
    ensures Inv(s') && Isolated(s')
  {
    if TakeStep(s, s', pid) {
      TakeKeepsInv(s, s', pid);
    } else if GiveStep(s, s', pid) {
      GiveKeepsInv(s, s', pid);
    } else {
      OtherKeepsInv(s, s', pid);
    }
  }

  /** A run from boot: step k is made for process pids[k]. */
  ghost predicate IsRun(ss: seq<MM>, pids: seq<nat>) {
    && |ss| == |pids| + 1 && Booted(ss[0])
    && forall k :: 0 <= k < |pids| ==> Next(ss[k], ss[k + 1], pids[k])
  }

  /** Ownership, agreement of address spaces, the free list and user tables hold in every reachable state. */
  lemma {:induction false} RunInvariant(ss: seq<MM>, pids: seq<nat>, k: nat)
    requires IsRun(ss, pids) && k < |ss|
    ensures Inv(ss[k]) && Isolated(ss[k])
  {
    if k == 0 {
      BootedInv(ss[0]);
    } else {
      RunInvariant(ss, pids, k - 1);
      NextKeepsInv(ss[k - 1], ss[k], pids[k - 1]);
    }
  }

  /** In every reachable state each frame in use has one owner, and no owned frame is marked free. */
  lemma {:induction false} RunFramePartition(ss: seq<MM>, pids: seq<nat>, k: nat)
    requires IsRun(ss, pids) && k < |ss|
    ensures var s := ss[k];
            && s.used == s.boot + HeapFrames(s) + PageFrames(s) + UserFrames(s) + LeakedFrames(s)
            && s.boot !! HeapFrames(s) !! PageFrames(s) !! UserFrames(s) !! LeakedFrames(s)
  {
    RunInvariant(ss, pids, k);
    FramePartition(ss[k]);
  }

  /**
   In every reachable state every directory has the kernel entries fixed at boot and translates
   every kernel address as every other one does; what a kernel page is mapped to is the same in all.
   */
  lemma {:induction false} RunKernelSpaceAgrees(ss: seq<MM>, pids: seq<nat>, k: nat, d: nat, d': nat, v: nat)
    requires IsRun(ss, pids) && k < |ss| && v < USER_OFFSET
    requires IsDirectory(ss[k].spaces, d) && IsDirectory(ss[k].spaces, d')
    ensures forall i :: 0 <= i < KERNEL_DIRS ==> Read(ss[k].mem, d, i) == KernelEntry(i)
    ensures Walk(ss[k].mem, d, v) == Walk(ss[k].mem, d', v)
    ensures v in ss[k].kmap ==> Walk(ss[k].mem, d, v) == At(ss[k].kmap[v] * PAGE)
  {
    RunInvariant(ss, pids, k);
    DirectoryOk(ss[k], d);
    KernelSpaceAgrees(ss[k], d, d', v);
    if v in ss[k].kmap {
      KernelPageWalk(ss[k], d, v);
    }
  }

  /**
   Isolation, in every reachable state: a user address of a running process leads to the frame on its own
   page list for that page if and only if it does not go through an entry 0 that has not been written
   since its table was made.
   */
  lemma {:induction false} RunIsolation(ss: seq<MM>, pids: seq<nat>, k: nat, pid: nat, a: nat)
    requires IsRun(ss, pids) && k < |ss| && Running(ss[k], pid) && IsUserDir(Dir(a))
    requires Walk(ss[k].mem, ss[k].spaces[pid].base[0].p, a).At?
    ensures var s := ss[k]; var d := s.spaces[pid].base[0].p; var f := Walk(s.mem, d, a).addr / PAGE;
            && (Page(a / PAGE * PAGE, f) in s.spaces[pid].pages <==> !RawSlot(s, d, a))
            && (!RawSlot(s, d, a) ==> f in s.owner && s.owner[f] == User(pid) && !Structural(s, f))
  {
    RunInvariant(ss, pids, k);
    UserAddressExact(ss[k], pid, a);
  }

  /** The flags of an entry made with RW. */
  lemma KernelFlags(f: nat)
    requires f < FRAMES
    ensures Entry(f, RW) % 2 == 1 && Entry(f, RW) / 4 % 2 == 0
  {
    var w: nat := Entry(f, RW);
    assert w == 4 * (1024 * f) + 3;
    assert w / 4 == 1024 * f;
    assert 1024 * f == 2 * (512 * f);
  }

  /** The entries of a directory outside the user regions. */
  lemma KernelEntriesProtect(m: Mem, d: nat, a: nat)
    requires DirOk(m, d) && a < 0x1_0000_0000 && (a < USER_OFFSET || a >= 0xFFC0_0000)
    ensures var pde := Read(m, d, a / 0x40_0000); pde % 2 == 1 && pde / 4 % 2 == 0
    ensures a < 0x80_0000 ==> Walk(m, d, a) == At(a)
  {
    var i := a / 0x40_0000;
    if i < 2 {
      assert Read(m, d, i) == KernelEntry(i) == i * REGION + 0x83;
    } else if i < KERNEL_DIRS {
      assert Read(m, d, i) == KernelEntry(i);
      KernelFlags(1024 + i);
    } else {
      KernelFlags(d);
    }
  }

  /**
   In every reachable state, outside the user regions a running process has kernel entries only: present, and without
   the user bit, so that its program faults there; and the kernel finds the first two regions at their own addresses.
   */
  lemma {:induction false} RunKernelProtected(ss: seq<MM>, pids: seq<nat>, k: nat, pid: nat, a: nat)
    requires IsRun(ss, pids) && k < |ss| && Running(ss[k], pid) && a < 0x1_0000_0000
    requires a < USER_OFFSET || a >= 0xFFC0_0000
    ensures var s := ss[k]; var d := s.spaces[pid].base[0].p; var pde := Read(s.mem, d, a / 0x40_0000);
            && pde % 2 == 1 && pde / 4 % 2 == 0 && Faults(s.mem, d, a)
            && (a < 0x80_0000 ==> Walk(s.mem, d, a) == At(a))
  {
    RunInvariant(ss, pids, k);
    KernelEntriesProtect(ss[k].mem, ss[k].spaces[pid].base[0].p, a);
  }

  // ---- the life of one process

  /** o is not a frame of process pid. */
  predicate Foreign(o: Owner, pid: nat) {
    match o
    case PageHeap(_, q) => q != pid
    case User(q) => q != pid
    case _ => true
  }

  /** From s to s' only process pid and the kernel heap have taken or given back anything; pid may have leaked. */
  ghost predicate OnlyBy(s: MM, s': MM, pid: nat) {
    && s'.boot == s.boot
    && (forall f :: f in s.owner && Foreign(s.owner[f], pid) ==> f in s'.owner && s'.owner[f] == s.owner[f])
    && (forall f :: f in s'.owner && Foreign(s'.owner[f], pid) && !s'.owner[f].Heap? && !s'.owner[f].Leaked? ==>
                      f in s.owner && s.owner[f] == s'.owner[f])
    && (forall q :: q != pid ==> (q in s'.spaces <==> q in s.spaces) && (q in s.spaces ==> s'.spaces[q] == s.spaces[q]))
  }

  lemma OnlyByTrans(s: MM, t: MM, u: MM, pid: nat)
    requires OnlyBy(s, t, pid) && OnlyBy(t, u, pid)
    ensures OnlyBy(s, u, pid)
  {
  }

  /** The released frame belongs to the process that releases it. */
  lemma ReleaseIsOwn(s: MM, pid: nat, pg: Page, sp': Space)
    requires Listed(s.owner, s.spaces) && pid in s.spaces && WithoutPage(s.spaces[pid], sp', pg)
    ensures pg.p in s.owner && s.owner[pg.p] == PageHeap(pg.v, pid)
  {
    var k := WithoutPageIndex(s.spaces[pid], sp', pg);
    assert Owns(s.owner, pid, s.spaces[pid]);
  }

  /** Only the space of process pid has changed. */
  ghost predicate OtherSpacesKept(s: MM, s': MM, pid: nat) {
    s'.boot == s.boot &&
    forall q :: q != pid ==> (q in s'.spaces <==> q in s.spaces) && (q in s.spaces ==> s'.spaces[q] == s.spaces[q])
  }

  lemma TakeOnlyBy(s: MM, s': MM, pid: nat, f: nat, o: Owner)
    requires f !in s.owner && s'.owner == s.owner[f := o] && (o.Heap? || !Foreign(o, pid))
    requires OtherSpacesKept(s, s', pid)
    ensures OnlyBy(s, s', pid) && LeakedFrames(s') == LeakedFrames(s)
  {
  }

  lemma GiveOnlyBy(s: MM, s': MM, pid: nat, f: nat)
    requires s'.owner == s.owner - {f} && f in s.owner && !Foreign(s.owner[f], pid) && OtherSpacesKept(s, s', pid)
    ensures OnlyBy(s, s', pid) && LeakedFrames(s') == LeakedFrames(s)
  {
  }

  /** No space, or only that of pid, was added, removed or replaced. */
  predicate OneSpace(spaces: map<nat, Space>, spaces': map<nat, Space>, pid: nat) {
    || spaces' == spaces || spaces' == spaces - {pid}
    || (pid in spaces' && spaces' == spaces[pid := spaces'[pid]])
  }

  lemma NextOtherSpacesKept(s: MM, s': MM, pid: nat)
    requires Next(s, s', pid)
    ensures OtherSpacesKept(s, s', pid)
  {
    if TakeStep(s, s', pid) {
      TakeOneSpace(s, s', pid);
    } else if GiveStep(s, s', pid) {
      assert OneSpace(s.spaces, s'.spaces, pid);
    } else {
      OtherOneSpace(s, s', pid);
    }
  }

  lemma TakeOneSpace(s: MM, s': MM, pid: nat)
    requires TakeStep(s, s', pid)
    ensures OneSpace(s.spaces, s'.spaces, pid) && s'.boot == s.boot
  {
  }

  lemma OtherOneSpace(s: MM, s': MM, pid: nat)
    requires OtherStep(s, s', pid)
    ensures OneSpace(s.spaces, s'.spaces, pid) && s'.boot == s.boot
    ensures s'.used == s.used && (!Abandon(s, s', pid) ==> s'.owner == s.owner)
  {
    if LifeStep(s, s', pid) {
      LifeOneSpace(s, s', pid);
    }
  }

  lemma LifeOneSpace(s: MM, s': MM, pid: nat)
    requires LifeStep(s, s', pid)
    ensures OneSpace(s.spaces, s'.spaces, pid) && s'.boot == s.boot
    ensures s'.used == s.used && (!Abandon(s, s', pid) ==> s'.owner == s.owner)
  {
  }

  lemma GiveStepOnlyBy(s: MM, s': MM, pid: nat)
    requires Listed(s.owner, s.spaces) && OtherSpacesKept(s, s', pid) && GiveStep(s, s', pid)
    ensures OnlyBy(s, s', pid) && LeakedFrames(s') == LeakedFrames(s)
  {
    if DropFrame(s, s', pid) {
      DropIsOwn(s, pid);
      GiveOnlyBy(s, s', pid, s.spaces[pid].pages[0].p);
    } else {
      var pg, sp' :| ReleasePage(s, s', pid, pg, sp');
      ReleaseIsOwn(s, pid, pg, sp');
      GiveOnlyBy(s, s', pid, pg.p);
    }
  }

  lemma TakeStepOnlyBy(s: MM, s': MM, pid: nat)
    requires s.used == s.owner.Keys && OtherSpacesKept(s, s', pid) && TakeStep(s, s', pid)
    ensures OnlyBy(s, s', pid) && LeakedFrames(s') == LeakedFrames(s)
  {
    if f :| Grow(s, s', f) {
      TakeOnlyBy(s, s', pid, f, Heap(s.brk));
    } else if f :| GetPage(s, s', pid, f) {
      TakeOnlyBy(s, s', pid, f, PageHeap(s.areas[0].start, pid));
    } else {
      var f, v :| AddFrame(s, s', pid, f, v);
      TakeOnlyBy(s, s', pid, f, User(pid));
    }
  }

  /** The frames of a page list. */
  function ListFrames(pages: seq<Page>): set<nat> { set k | 0 <= k < |pages| :: pages[k].p }

  /** A failed load leaks exactly the frames on its page list. */
  lemma AbandonLeaks(s: MM, s': MM, pid: nat)
    requires Listed(s.owner, s.spaces) && Abandon(s, s', pid)
    ensures OnlyBy(s, s', pid)
    ensures LeakedFrames(s') == LeakedFrames(s) + ListFrames(s.spaces[pid].pages)
    ensures LeakedFrames(s) !! ListFrames(s.spaces[pid].pages)
  {
    var sp := s.spaces[pid];
    assert Owns(s.owner, pid, sp);
    forall f | f in LeakedFrames(s') ensures f in LeakedFrames(s) + ListFrames(sp.pages) {
      if s.owner[f] == User(pid) {
        var v :| Page(v, f) in sp.pages;
        var k :| 0 <= k < |sp.pages| && sp.pages[k] == Page(v, f);
        assert sp.pages[k].p == f;
      }
    }
  }

  lemma NextOnlyBy(s: MM, s': MM, pid: nat)
    requires s.used == s.owner.Keys && Listed(s.owner, s.spaces) && Next(s, s', pid)
    ensures OnlyBy(s, s', pid)
    ensures LeakedFrames(s) <= LeakedFrames(s')
    ensures !Abandon(s, s', pid) ==> LeakedFrames(s') == LeakedFrames(s)
  {
    NextOtherSpacesKept(s, s', pid);
    if TakeStep(s, s', pid) {
      TakeStepOnlyBy(s, s', pid);
    } else if GiveStep(s, s', pid) {
      GiveStepOnlyBy(s, s', pid);
    } else if Abandon(s, s', pid) {
      AbandonLeaks(s, s', pid);
    } else {
      OtherOneSpace(s, s', pid);
      assert s'.owner == s.owner;
    }
  }

  /** A process without a space owns nothing. */
  lemma NothingOwned(s: MM, pid: nat)
    requires Inv(s) && pid !in s.spaces
    ensures forall f :: f in s.owner ==> Foreign(s.owner[f], pid)
  {
  }

  /** Frames in use for anything but the kernel heap. */
  ghost function NonHeap(s: MM): set<nat> { s.used - HeapFrames(s) }

  /**
   Between two states in which process pid does not exist, with only its steps and heap growth in
   between: the frames gained are kernel heap or leaked, and the free pages are the same.
   */
  lemma Conservation(s: MM, s': MM, pid: nat)
    requires Inv(s) && Inv(s') && OnlyBy(s, s', pid) && pid !in s.spaces && pid !in s'.spaces
    ensures s.used <= s'.used && NonHeap(s') == NonHeap(s) + LeakedFrames(s') && LeakedFrames(s) <= LeakedFrames(s')
    ensures NonHeap(s') == NonHeap(s) <==> LeakedFrames(s') == LeakedFrames(s)
    ensures forall x :: FreeAreas.IsPage(x) ==> (FreeAreas.IsFree(s'.areas, x) <==> FreeAreas.IsFree(s.areas, x))
  {
    NothingOwned(s, pid);
    NothingOwned(s', pid);
    GainedIsHeap(s, s');
    SameOut(s, s');
    assert FreeAreas.Inv(FreeAreas.State(s.areas, Out(s.kmap)));
    assert FreeAreas.Inv(FreeAreas.State(s'.areas, Out(s.kmap)));
  }

  /** A frame is kernel heap exactly if it is owned as such. */
  lemma HeapIsOwned(s: MM, f: nat)
    requires Mapped(s.owner, s.kmap)
    ensures f in HeapFrames(s) <==> f in s.owner && s.owner[f].Heap? && s.owner[f].v >= KERN_HEAP
  {
    if f in s.owner && s.owner[f].Heap? && s.owner[f].v >= KERN_HEAP {
      assert s.kmap[s.owner[f].v] == f;
    }
  }

  lemma GainedIsHeap(s: MM, s': MM)
    requires s.used == s.owner.Keys && s'.used == s'.owner.Keys && Mapped(s.owner, s.kmap) && Mapped(s'.owner, s'.kmap)
    requires forall f :: f in s.owner ==> f in s'.owner && s'.owner[f] == s.owner[f]
    requires forall f :: f in s'.owner && !s'.owner[f].Heap? && !s'.owner[f].Leaked? ==>
                           f in s.owner && s.owner[f] == s'.owner[f]
    ensures s.used <= s'.used && NonHeap(s') == NonHeap(s) + LeakedFrames(s') && LeakedFrames(s) <= LeakedFrames(s')
    ensures NonHeap(s') == NonHeap(s) <==> LeakedFrames(s') == LeakedFrames(s)
  {
    forall f ensures f in NonHeap(s') <==> f in NonHeap(s) || f in LeakedFrames(s') {
      HeapIsOwned(s, f);
      HeapIsOwned(s', f);
      if f in s'.owner && s'.owner[f].Heap? {
        assert s'.kmap[s'.owner[f].v] == f;
      }
    }
    forall f | f in LeakedFrames(s') && f !in LeakedFrames(s) ensures f !in NonHeap(s) {
    }
  }

  lemma SameOut(s: MM, s': MM)
    requires Mapped(s.owner, s.kmap) && Mapped(s'.owner, s'.kmap)
    requires forall f :: f in s.owner ==> f in s'.owner && s'.owner[f] == s.owner[f]
    requires forall f :: f in s'.owner && !s'.owner[f].Heap? && !s'.owner[f].Leaked? ==>
                           f in s.owner && s.owner[f] == s'.owner[f]
    ensures Out(s'.kmap) == Out(s.kmap)
  {
    forall v ensures v in Out(s'.kmap) <==> v in Out(s.kmap) {
      if v in Out(s'.kmap) {
        assert s'.owner[s'.kmap[v]].PageHeap?;
      }
      if v in Out(s.kmap) {
        assert s.owner[s.kmap[v]].PageHeap?;
      }
    }
  }

  lemma {:induction false} StretchOnlyBy(ss: seq<MM>, pids: seq<nat>, i: nat, j: nat, pid: nat)
    requires IsRun(ss, pids) && i <= j < |ss| && forall k :: i <= k < j ==> pids[k] == pid
    ensures OnlyBy(ss[i], ss[j], pid)
    decreases j
  {
    if i < j {
      StretchOnlyBy(ss, pids, i, j - 1, pid);
      RunInvariant(ss, pids, j - 1);
      NextOnlyBy(ss[j - 1], ss[j], pid);
      OnlyByTrans(ss[i], ss[j - 1], ss[j], pid);
    }
  }

  /** A load of process pid fails with pages on its list. */
  ghost predicate Loses(s: MM, s': MM, pid: nat) {
    Abandon(s, s', pid) && s.spaces[pid].pages != []
  }

  lemma NextLoses(s: MM, s': MM, pid: nat)
    requires s.used == s.owner.Keys && Listed(s.owner, s.spaces) && Next(s, s', pid)
    ensures LeakedFrames(s) <= LeakedFrames(s')
    ensures LeakedFrames(s') == LeakedFrames(s) <==> !Loses(s, s', pid)
  {
    NextOnlyBy(s, s', pid);
    if Abandon(s, s', pid) {
      AbandonLeaks(s, s', pid);
      if s.spaces[pid].pages != [] {
        assert s.spaces[pid].pages[0].p in ListFrames(s.spaces[pid].pages);
      }
    }
  }

  ghost predicate LosesAt(ss: seq<MM>, pid: nat, k: nat) {
    k + 1 < |ss| && Loses(ss[k], ss[k + 1], pid)
  }

  lemma RunLoses(ss: seq<MM>, pids: seq<nat>, k: nat)
    requires IsRun(ss, pids) && k < |pids|
    ensures LeakedFrames(ss[k]) <= LeakedFrames(ss[k + 1])
    ensures LeakedFrames(ss[k + 1]) == LeakedFrames(ss[k]) <==> !LosesAt(ss, pids[k], k)
  {
    RunInvariant(ss, pids, k);
    NextLoses(ss[k], ss[k + 1], pids[k]);
  }

  /** Sets that grow from step to step, strictly exactly at the marked steps. */
  lemma {:induction false} GrowingSets(sets: seq<set<nat>>, marked: seq<bool>, i: nat, j: nat)
    requires |sets| == |marked| + 1 && i <= j < |sets|
    requires forall k :: 0 <= k < |marked| ==> sets[k] <= sets[k + 1] && (sets[k + 1] == sets[k] <==> !marked[k])
    ensures sets[i] <= sets[j] && (sets[j] == sets[i] <==> forall k :: i <= k < j ==> !marked[k])
    decreases j
  {
    if i < j {
      GrowingSets(sets, marked, i, j - 1);
      assert sets[j - 1] <= sets[j - 1 + 1] && (sets[j] == sets[j - 1] <==> !marked[j - 1]);
    }
  }

  lemma {:induction false} StretchLeaks(ss: seq<MM>, pids: seq<nat>, i: nat, j: nat, pid: nat)
    requires IsRun(ss, pids) && i <= j < |ss| && forall k :: i <= k < j ==> pids[k] == pid
    ensures LeakedFrames(ss[j]) == LeakedFrames(ss[i]) <==> forall k :: i <= k < j ==> !LosesAt(ss, pid, k)
  {
    var sets := seq(|ss|, k requires 0 <= k < |ss| => LeakedFrames(ss[k]));
    var marked := seq(|pids|, k requires 0 <= k < |pids| => LosesAt(ss, pids[k], k));
    forall k | 0 <= k < |marked| ensures sets[k] <= sets[k + 1] && (sets[k + 1] == sets[k] <==> !marked[k]) {
      RunLoses(ss, pids, k);
    }
    GrowingSets(sets, marked, i, j);
    assert forall k :: i <= k < j ==> marked[k] == LosesAt(ss, pid, k);
  }

  /**
   The life of a process in any run, from before it exists until after: the free pages are restored, and so
   are the frames that are not kernel heap, exactly if no load of it failed with pages on its list.
   */
  lemma {:induction false} ProcessConserves(ss: seq<MM>, pids: seq<nat>, i: nat, j: nat, pid: nat)
    requires IsRun(ss, pids) && i <= j < |ss| && forall k :: i <= k < j ==> pids[k] == pid
    requires pid !in ss[i].spaces && pid !in ss[j].spaces
    ensures forall x :: FreeAreas.IsPage(x) ==> (FreeAreas.IsFree(ss[j].areas, x) <==> FreeAreas.IsFree(ss[i].areas, x))
    ensures NonHeap(ss[j]) == NonHeap(ss[i]) <==> forall k :: i <= k < j ==> !LosesAt(ss, pid, k)
  {
    RunInvariant(ss, pids, i);
    RunInvariant(ss, pids, j);
    StretchOnlyBy(ss, pids, i, j, pid);
    StretchLeaks(ss, pids, i, j, pid);
    Conservation(ss[i], ss[j], pid);
  }

  // ---- any interleaving of processes

  /** What a step leaks: the frames on the list of a load that fails. */
  ghost function LostAt(s: MM, s': MM, pid: nat): set<nat> {
    if Loses(s, s', pid) then ListFrames(s.spaces[pid].pages) else {}
  }

  function FirstSets(sets: seq<set<nat>>, k: nat): set<nat>
    requires k <= |sets|
  {
    if k == 0 then {} else FirstSets(sets, k - 1) + sets[k - 1]
  }

  /** What the first k steps of a run leak. */
  ghost function Lost(ss: seq<MM>, pids: seq<nat>, k: nat): set<nat>
    requires |ss| == |pids| + 1 && k < |ss|
  {
    FirstSets(seq(|pids|, j requires 0 <= j < |pids| => LostAt(ss[j], ss[j + 1], pids[j])), k)
  }

  lemma LeakStep(s: MM, s': MM, pid: nat)
    requires Inv(s) && Next(s, s', pid)
    ensures LeakedFrames(s') == LeakedFrames(s) + LostAt(s, s', pid)
  {
    NextLoses(s, s', pid);
    if Loses(s, s', pid) {
      AbandonLeaks(s, s', pid);
    }
  }

  lemma RunLeakStep(ss: seq<MM>, pids: seq<nat>, k: nat)
    requires IsRun(ss, pids) && k < |pids|
    ensures LeakedFrames(ss[k + 1]) == LeakedFrames(ss[k]) + LostAt(ss[k], ss[k + 1], pids[k])
  {
    RunInvariant(ss, pids, k);
    LeakStep(ss[k], ss[k + 1], pids[k]);
  }

  lemma {:induction false} SetsAddUp(sets: seq<set<nat>>, added: seq<set<nat>>, k: nat)
    requires |sets| == |added| + 1 && k < |sets| && sets[0] == {}
    requires forall j :: 0 <= j < |added| ==> sets[j + 1] == sets[j] + added[j]
    ensures sets[k] == FirstSets(added, k)
  {
    if k > 0 {
      SetsAddUp(sets, added, k - 1);
      assert sets[k - 1 + 1] == sets[k - 1] + added[k - 1];
    }
  }

  /** In every reachable state the leaked frames are exactly those of the loads that failed. */
  lemma {:induction false} RunLeaked(ss: seq<MM>, pids: seq<nat>, k: nat)
    requires IsRun(ss, pids) && k < |ss|
    ensures LeakedFrames(ss[k]) == Lost(ss, pids, k)
  {
    var sets := seq(|ss|, j requires 0 <= j < |ss| => LeakedFrames(ss[j]));
    var added := seq(|pids|, j requires 0 <= j < |pids| => LostAt(ss[j], ss[j + 1], pids[j]));
    forall j | 0 <= j < |added| ensures sets[j + 1] == sets[j] + added[j] {
      RunLeakStep(ss, pids, j);
    }
    SetsAddUp(sets, added, k);
  }

  /**
   In every reachable state, whatever other processes have done in between, a process that does not exist owns no
   frame and no page.
   */
  lemma {:induction false} RunGone(ss: seq<MM>, pids: seq<nat>, k: nat, pid: nat)
    requires IsRun(ss, pids) && k < |ss| && pid !in ss[k].spaces
    ensures forall f :: f in ss[k].owner ==> Foreign(ss[k].owner[f], pid)
    ensures forall v :: v in Out(ss[k].kmap) ==>
              ss[k].kmap[v] in ss[k].owner && Foreign(ss[k].owner[ss[k].kmap[v]], pid)
  {
    RunInvariant(ss, pids, k);
    NothingOwned(ss[k], pid);
  }

  /** Once all processes are gone, every page is free, and only boot, kernel-heap and lost frames are in use. */
  lemma {:induction false} RunAllGone(ss: seq<MM>, pids: seq<nat>, k: nat)
    requires IsRun(ss, pids) && k < |ss| && ss[k].spaces == map[]
    ensures NonHeap(ss[k]) == ss[0].boot + Lost(ss, pids, k)
    ensures forall x :: FreeAreas.IsPage(x) ==> FreeAreas.IsFree(ss[k].areas, x)
  {
    RunInvariant(ss, pids, k);
    RunLeaked(ss, pids, k);
    RunBoot(ss, pids, k);
    NobodyLeft(ss[k]);
  }

  lemma NobodyLeft(s: MM)
    requires Inv(s) && s.spaces == map[]
    ensures NonHeap(s) == s.boot + LeakedFrames(s)
    ensures forall x :: FreeAreas.IsPage(x) ==> FreeAreas.IsFree(s.areas, x)
  {
    forall f ensures f in NonHeap(s) <==> f in s.boot + LeakedFrames(s) {
      HeapIsOwned(s, f);
      if f in s.owner && s.owner[f].Heap? {
        assert s.kmap[s.owner[f].v] == f;
      }
    }
    assert forall f :: f in s.owner ==> !s.owner[f].PageHeap?;
    assert Out(s.kmap) == {};
  }

  lemma {:induction false} RunBoot(ss: seq<MM>, pids: seq<nat>, k: nat)
    requires IsRun(ss, pids) && k < |ss|
    ensures ss[k].boot == ss[0].boot
  {
    if k > 0 {
      RunBoot(ss, pids, k - 1);
      NextOtherSpacesKept(ss[k - 1], ss[k], pids[k - 1]);
    }
  }
}
