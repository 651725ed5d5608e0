/**
 What a page fault does to the translation of all other addresses, under every directory.
 */
module Translations {
  import opened Layout
  import opened Words
  import opened Paging
  import opened MemoryModel
  import opened MemorySteps
  import opened UserTables

  /** The table frame a present entry of a directory leads to: a boot frame or a frame of its process. */
  lemma DirectoryEntry(s: MM, d: nat, i: nat)
    requires Inv(s) && IsDirectory(s.spaces, d) && 2 <= i < MIRROR && IsPresent(Read(s.mem, d, i))
    ensures var t := FrameOf(Read(s.mem, d, i));
            && !IsBig(Read(s.mem, d, i)) && t != d
            && (i < KERNEL_DIRS || d == PD0 ==> t == 1024 + i)
            && (i >= KERNEL_DIRS && d != PD0 ==> t >= RESERVED)
  {
    if i < KERNEL_DIRS || d == PD0 {
      DirectoryOk(s, d);
      EntryFields(1024 + i, RW);
      if d != PD0 {
        var pid :| pid in s.spaces && s.spaces[pid].base != [] && s.spaces[pid].base[0].p == d;
        BaseIsOwned(s, pid);
      }
    } else {
      var pid :| pid in s.spaces && s.spaces[pid].base != [] && s.spaces[pid].base[0].p == d;
      var k := EntryTable(s, pid, i);
      TableIsOwned(s, pid, k);
    }
  }

  /** Two entries of a directory never lead to the same table. */
  lemma EntriesApart(s: MM, d: nat, i: nat, j: nat)
    requires Inv(s) && IsDirectory(s.spaces, d) && 2 <= i < MIRROR && 2 <= j < MIRROR && i != j
    requires IsPresent(Read(s.mem, d, i)) && IsPresent(Read(s.mem, d, j))
    ensures FrameOf(Read(s.mem, d, i)) != FrameOf(Read(s.mem, d, j))
  {
    DirectoryEntry(s, d, i);
    DirectoryEntry(s, d, j);
    if d != PD0 && i >= KERNEL_DIRS && j >= KERNEL_DIRS {
      var pid :| pid in s.spaces && s.spaces[pid].base != [] && s.spaces[pid].base[0].p == d;
      OtherTable(s, pid, i, j);
    }
  }

  /** Regions 0 and 1 are 4MB pages under every directory. */
  lemma BigRegions(s: MM, d: nat, i: nat)
    requires Inv(s) && IsDirectory(s.spaces, d) && i < 2
    ensures IsBig(Read(s.mem, d, i))
  {
    DirectoryOk(s, d);
    assert Read(s.mem, d, i) == KernelEntry(i);
  }

  /** In every state that satisfies the invariant the hypotheses of the paging lemmas hold, for every directory. */
  lemma InvUnshared(s: MM, d: nat, i: nat)
    requires Inv(s) && IsDirectory(s.spaces, d) && 2 <= i < MIRROR && IsPresent(Read(s.mem, d, i))
    ensures SelfMapped(s.mem, d) && OneMirror(s.mem, d)
    ensures TableUnshared(s.mem, d, i, FrameOf(Read(s.mem, d, i)))
  {
    DirectoryOk(s, d);
    DirectoryEntry(s, d, i);
    forall j | 0 <= j < MIRROR && IsPresent(Read(s.mem, d, j)) && !IsBig(Read(s.mem, d, j))
      ensures FrameOf(Read(s.mem, d, j)) != d && (j != i ==> FrameOf(Read(s.mem, d, j)) != FrameOf(Read(s.mem, d, i)))
    {
      if j < 2 {
        BigRegions(s, d, j);
      } else {
        DirectoryEntry(s, d, j);
        if j != i {
          EntriesApart(s, d, i, j);
        }
      }
    }
  }

  /** The page about to become a table is in no entry of the directory. */
  lemma NewTableUnshared(s: MM, pid: nat, i: nat)
    requires Inv(s) && pid in s.spaces && |s.spaces[pid].base| == 1 && s.spaces[pid].plain != []
    ensures var d := s.spaces[pid].base[0].p;
            SelfMapped(s.mem, d) && OneMirror(s.mem, d) && TableUnshared(s.mem, d, i, LastPlain(s.spaces[pid]).p)
  {
    var d := s.spaces[pid].base[0].p;
    assert IsDirectory(s.spaces, d);
    DirectoryOk(s, d);
    PlainIsOwned(s, pid);
    NewTableApart(s, pid);
    forall j | 0 <= j < MIRROR && IsPresent(Read(s.mem, d, j)) && !IsBig(Read(s.mem, d, j))
      ensures FrameOf(Read(s.mem, d, j)) != d && FrameOf(Read(s.mem, d, j)) != LastPlain(s.spaces[pid]).p
    {
      if j < 2 {
        BigRegions(s, d, j);
      } else {
        DirectoryEntry(s, d, j);
        if j >= KERNEL_DIRS {
          var k := EntryTable(s, pid, j);
        }
      }
    }
  }

  // ---- other directories

  /** Memory changes in page-heap frames of process pid only. */
  ghost predicate OnlyFrames(s: MM, m': Mem, pid: nat) {
    forall g: nat, i: nat :: !OwnFrame(s, pid, g) ==> Read(m', g, i) == Read(s.mem, g, i)
  }

  predicate OwnFrame(s: MM, pid: nat, g: nat) {
    g in s.owner && s.owner[g].PageHeap? && s.owner[g].pid == pid
  }

  /** Frames that directory d and its tables lie in. */
  lemma DirectoryFrames(s: MM, d: nat, i: nat)
    requires Inv(s) && IsDirectory(s.spaces, d) && IsUserDir(i)
    ensures d == PD0 || d >= RESERVED
    ensures IsPresent(Read(s.mem, d, i)) ==>
              FrameOf(Read(s.mem, d, i)) >= RESERVED || FrameOf(Read(s.mem, d, i)) == 1024 + i
  {
    if d != PD0 {
      var q :| q in s.spaces && s.spaces[q].base != [] && s.spaces[q].base[0].p == d;
      BaseIsOwned(s, q);
    }
    if IsPresent(Read(s.mem, d, i)) {
      DirectoryEntry(s, d, i);
    }
  }

  lemma ForeignFrames(s: MM, pid: nat, d: nat, i: nat)
    requires Inv(s) && IsDirectory(s.spaces, d) && IsUserDir(i)
    requires pid in s.spaces && (s.spaces[pid].base == [] || d != s.spaces[pid].base[0].p)
    ensures !OwnFrame(s, pid, d)
    ensures IsPresent(Read(s.mem, d, i)) ==> !OwnFrame(s, pid, FrameOf(Read(s.mem, d, i)))
  {
    if d != PD0 {
      var q :| q in s.spaces && s.spaces[q].base != [] && s.spaces[q].base[0].p == d;
      BaseIsOwned(s, q);
      if IsPresent(Read(s.mem, d, i)) {
        var k := EntryTable(s, q, i);
        TableIsOwned(s, q, k);
      }
    } else {
      EntryFields(1024 + i, RW);
      assert Read(s.mem, PD0, i) == Entry(1024 + i, RW);
      assert 1024 + i in s.boot && PD0 in s.boot;
    }
  }

  /** Such a change is not seen through any other directory. */
  lemma ForeignWalk(s: MM, m': Mem, pid: nat, d: nat, w: nat)
    requires Inv(s) && IsDirectory(s.spaces, d) && OnlyFrames(s, m', pid) && IsUserDir(Dir(w))
    requires pid in s.spaces && (s.spaces[pid].base == [] || d != s.spaces[pid].base[0].p)
    ensures Walk(m', d, w) == Walk(s.mem, d, w)
  {
    ForeignFrames(s, pid, d, Dir(w));
    SameWalk(s.mem, m', d, w);
  }

  // ---- kernel page tables

  /** Only tables of kernel regions have changed. */
  ghost predicate OnlyKernelTables(m: Mem, m': Mem) {
    forall g: nat, i: nat :: !(1026 <= g < 1280) ==> Read(m', g, i) == Read(m, g, i)
  }

  lemma KernelTablesUnseen(s: MM, m': Mem, d: nat, w: nat)
    requires Inv(s) && IsDirectory(s.spaces, d) && OnlyKernelTables(s.mem, m') && IsUserDir(Dir(w))
    ensures Walk(m', d, w) == Walk(s.mem, d, w) && Read(m', d, Dir(w)) == Read(s.mem, d, Dir(w))
  {
    DirectoryFrames(s, d, Dir(w));
    SameWalk(s.mem, m', d, w);
  }

  // ---- a page fault

  /** The addresses whose translation a fault at v may change: the page, and entry 0 of a new table. */
  predicate Concerned(m: Mem, d0: nat, v: nat, d: nat, w: nat) {
    d == d0 && (SamePage(v, w) || (Dir(w) == Dir(v) && Idx(w) == 0 && !IsPresent(Read(m, d0, Dir(v)))))
  }

  /** All other user addresses are translated as before, under every directory. */
  ghost predicate UserKept(m: Mem, m': Mem, spaces: map<nat, Space>, d0: nat, v: nat) {
    forall d: nat, w: nat :: IsDirectory(spaces, d) && IsUserDir(Dir(w)) && !Concerned(m, d0, v, d, w) ==>
      Walk(m', d, w) == Walk(m, d, w)
  }

  lemma UserAddressSmall(w: nat)
    requires Dir(w) < MIRROR
    ensures w < WORD
  {
  }

  lemma SetPteFrames(s: MM, s': MM, pid: nat)
    requires Inv(s) && SetPte(s, s', pid) && IsUserDir(Dir(s.spaces[pid].pages[0].v))
    ensures OnlyFrames(s, s'.mem, pid)
  {
    var k := EntryTable(s, pid, Dir(s.spaces[pid].pages[0].v));
    TableIsOwned(s, pid, k);
  }

  /** Writing the entry of a page into an existing table. */
  lemma SetPteKeepsOthers(s: MM, s': MM, pid: nat)
    requires Inv(s) && SetPte(s, s', pid) && IsUserDir(Dir(s.spaces[pid].pages[0].v))
    ensures UserKept(s.mem, s'.mem, s.spaces, s.spaces[pid].base[0].p, s.spaces[pid].pages[0].v)
    ensures forall w: nat :: SamePage(s.spaces[pid].pages[0].v, w) ==>
              Walk(s'.mem, s.spaces[pid].base[0].p, w) == At(s.spaces[pid].pages[0].p * PAGE + w % PAGE)
  {
    var d0, pg := s.spaces[pid].base[0].p, s.spaces[pid].pages[0];
    SetPteFrames(s, s', pid);
    forall d: nat, w: nat | IsDirectory(s.spaces, d) && IsUserDir(Dir(w)) && !Concerned(s.mem, d0, pg.v, d, w)
      ensures Walk(s'.mem, d, w) == Walk(s.mem, d, w)
    {
      if d == d0 {
        SetPteOwn(s, s', pid, w);
      } else {
        ForeignWalk(s, s'.mem, pid, d, w);
      }
    }
    forall w: nat | SamePage(pg.v, w) ensures Walk(s'.mem, d0, w) == At(pg.p * PAGE + w % PAGE) {
      SameIndices(pg.v, w);
      SetPteOwn(s, s', pid, w);
    }
  }

  lemma SetPteOwn(s: MM, s': MM, pid: nat, w: nat)
    requires Inv(s) && SetPte(s, s', pid) && IsUserDir(Dir(s.spaces[pid].pages[0].v)) && IsUserDir(Dir(w))
    ensures var d0, pg := s.spaces[pid].base[0].p, s.spaces[pid].pages[0];
            Walk(s'.mem, d0, w) == if SamePage(pg.v, w) then At(pg.p * PAGE + w % PAGE) else Walk(s.mem, d0, w)
  {
    var d0, pg := s.spaces[pid].base[0].p, s.spaces[pid].pages[0];
    assert IsDirectory(s.spaces, d0);
    InvUnshared(s, d0, Dir(pg.v));
    DirectoryEntry(s, d0, Dir(pg.v));
    UserAddressSmall(w);
    UserAddressSmall(pg.v);
    AddMaps(s.mem, s'.mem, d0, pg.v, pg.p, RWU, w);
  }

  lemma MakeTableFrames(s: MM, u: MM, pid: nat, v: nat)
    requires Inv(s) && MakeTable(s, u, pid, v)
    ensures OnlyFrames(s, u.mem, pid)
  {
    PlainIsOwned(s, pid);
    BaseIsOwned(s, pid);
  }

  /** A new table, and then the entry of a page in it. */
  lemma NewTableKeepsOthers(s: MM, u: MM, s': MM, pid: nat, v: nat)
    requires Inv(s) && MakeTable(s, u, pid, v) && Inv(u) && SetPte(u, s', pid) && u.spaces[pid].pages[0].v == v
    ensures UserKept(s.mem, s'.mem, s.spaces, s.spaces[pid].base[0].p, v)
  {
    var d0 := s.spaces[pid].base[0].p;
    assert IsUserDir(Dir(v));
    MakeTableFrames(s, u, pid, v);
    SetPteFrames(u, s', pid);
    forall d: nat, w: nat | IsDirectory(s.spaces, d) && IsUserDir(Dir(w)) && !Concerned(s.mem, d0, v, d, w)
      ensures Walk(s'.mem, d, w) == Walk(s.mem, d, w)
    {
      if d == d0 {
        NewTableOwn(s, u, s', pid, v, w);
      } else {
        SameDirectories(s, u, pid, d);
        ForeignWalk(s, u.mem, pid, d, w);
        ForeignWalk(u, s'.mem, pid, d, w);
      }
    }
  }

  lemma SameDirectories(s: MM, u: MM, pid: nat, d: nat)
    requires IsDirectory(s.spaces, d) && pid in s.spaces && pid in u.spaces
    requires u.spaces == s.spaces[pid := u.spaces[pid]] && u.spaces[pid].base == s.spaces[pid].base
    ensures IsDirectory(u.spaces, d)
  {
    if d != PD0 {
      var q :| q in s.spaces && s.spaces[q].base != [] && s.spaces[q].base[0].p == d;
      assert q in u.spaces && u.spaces[q].base == s.spaces[q].base;
    }
  }

  lemma NewTableOwn(s: MM, u: MM, s': MM, pid: nat, v: nat, w: nat)
    requires Inv(s) && MakeTable(s, u, pid, v) && SetPte(u, s', pid) && u.spaces[pid].pages[0].v == v
    requires IsUserDir(Dir(w)) && !Concerned(s.mem, s.spaces[pid].base[0].p, v, s.spaces[pid].base[0].p, w)
    ensures Walk(s'.mem, s.spaces[pid].base[0].p, w) == Walk(s.mem, s.spaces[pid].base[0].p, w)
  {
    var d0, t := s.spaces[pid].base[0].p, LastPlain(s.spaces[pid]).p;
    NewTableUnshared(s, pid, Dir(v));
    UserAddressSmall(w);
    AddMapsNewTable(s.mem, u.mem, s'.mem, d0, v, t, u.spaces[pid].pages[0].p, RWU, w);
  }

  /** First kernel tables, then the rest. */
  lemma KernelTablesFirst(r: MM, s: MM, m': Mem, d0: nat, v: nat)
    requires Inv(r) && OnlyKernelTables(r.mem, s.mem) && IsDirectory(r.spaces, d0) && IsUserDir(Dir(v))
    requires forall d: nat :: IsDirectory(r.spaces, d) ==> IsDirectory(s.spaces, d)
    requires UserKept(s.mem, m', s.spaces, d0, v)
    ensures UserKept(r.mem, m', r.spaces, d0, v)
  {
    KernelTablesUnseen(r, s.mem, d0, v);
    forall d: nat, w: nat | IsDirectory(r.spaces, d) && IsUserDir(Dir(w)) && !Concerned(r.mem, d0, v, d, w)
      ensures Walk(m', d, w) == Walk(r.mem, d, w)
    {
      KernelTablesUnseen(r, s.mem, d, w);
    }
  }

  /** get_p_addr and pd_remove_page on a page whose entry has just been written into an existing table. */
  lemma SetPteUndone(s: MM, s': MM, pid: nat, w: nat)
    requires Inv(s) && SetPte(s, s', pid) && IsUserDir(Dir(s.spaces[pid].pages[0].v)) && Dir(w) < MIRROR
    requires s.spaces[pid].pages[0].p > 0
    ensures var d0, pg := s.spaces[pid].base[0].p, s.spaces[pid].pages[0];
            && pg.v < WORD && GetPAddr(s'.mem, d0, pg.v) == pg.p * PAGE + pg.v % PAGE
            && (Walk(s.mem, d0, pg.v) == Fault ==> Walk(RemovePage(s'.mem, d0, pg.v), d0, w) == Walk(s.mem, d0, w))
  {
    var d0, pg := s.spaces[pid].base[0].p, s.spaces[pid].pages[0];
    assert IsDirectory(s.spaces, d0);
    InvUnshared(s, d0, Dir(pg.v));
    DirectoryEntry(s, d0, Dir(pg.v));
    UserAddressSmall(w);
    UserAddressSmall(pg.v);
    AddGetRemove(s.mem, s'.mem, d0, pg.v, pg.p, RWU, w);
  }

  // ---- releasing a kernel page

  /** The frame of the kernel table of v is the table of that region only, under every directory. */
  lemma KernelTableOnly(s: MM, d: nat, v: nat, i: nat)
    requires Inv(s) && IsDirectory(s.spaces, d) && 2 * REGION <= v < USER_OFFSET && i < MIRROR && i != Dir(v)
    ensures d != KTable(v)
    ensures IsPresent(Read(s.mem, d, i)) && !IsBig(Read(s.mem, d, i)) ==> FrameOf(Read(s.mem, d, i)) != KTable(v)
  {
    KernelEntryIs(v);
    if d != PD0 {
      var q :| q in s.spaces && s.spaces[q].base != [] && s.spaces[q].base[0].p == d;
      BaseIsOwned(s, q);
    }
    if i < 2 {
      BigRegions(s, d, i);
    } else if IsPresent(Read(s.mem, d, i)) {
      DirectoryEntry(s, d, i);
    }
  }

  /** pd_remove_page of a kernel page, under one directory, unmaps it and nothing else under every directory. */
  lemma ReleaseKeepsOthers(s: MM, d: nat, d': nat, v: u32, w: nat)
    requires Inv(s) && IsDirectory(s.spaces, d) && IsDirectory(s.spaces, d') && v in s.kmap && s.kmap[v] > 0
    requires Dir(w) < MIRROR
    ensures Walk(RemovePage(s.mem, d, v), d', w) == if SamePage(v, w) then Fault else Walk(s.mem, d', w)
  {
    KernelPageWalk(s, d, v);
    DirectoryOk(s, d);
    GetPAddrIsWalk(s.mem, d, v);
    RemoveClears(s.mem, d, v);
    KernelPageWalk(s, d', v);
    KernelTableOnly(s, d', v, if Dir(w) == Dir(v) then 0 else Dir(w));
    ClearedWalk(s.mem, RemovePage(s.mem, d, v), d', v, w, KTable(v));
  }

  lemma ClearedWalk(m: Mem, m': Mem, d: nat, v: nat, w: nat, t: nat)
    requires forall f: nat, i: nat :: Read(m', f, i) ==
               if f == t && i == Idx(v) then ClearPresent(Read(m, t, Idx(v))) else Read(m, f, i)
    requires d != t && IsPresent(Read(m, d, Dir(v))) && IsSmall(m, d, v) && FrameOf(Read(m, d, Dir(v))) == t
    requires Dir(w) != Dir(v) && IsPresent(Read(m, d, Dir(w))) && !IsBig(Read(m, d, Dir(w))) ==>
               FrameOf(Read(m, d, Dir(w))) != t
    ensures Walk(m', d, w) == if SamePage(v, w) then Fault else Walk(m, d, w)
  {
    SameIndices(v, w);
  }
}
