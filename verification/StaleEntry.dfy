/**
 A run in which an address of one process leads into the page directory of another: pd_add_page leaves
 entry 0 of a new table as it was, and the frame of the table was a table before.
 */
module StaleEntry {
  import opened Layout
  import opened Words
  import opened Paging
  import opened MemoryModel
  import opened MemorySteps
  import opened UserTables
  import opened MemoryRuns
  import opened Translations
  import FreeAreas

  // ---- reachable states, one step at a time

  ghost predicate Reach(s0: MM, s: MM) {
    exists ss, pids :: IsRun(ss, pids) && ss[0] == s0 && ss[|ss| - 1] == s
  }

  lemma ReachNext(s0: MM, s: MM, s': MM, pid: nat)
    requires Reach(s0, s) && Next(s, s', pid)
    ensures Reach(s0, s')
  {
    var ss, pids :| IsRun(ss, pids) && ss[0] == s0 && ss[|ss| - 1] == s;
    var ss', pids' := ss + [s'], pids + [pid];
    forall k | 0 <= k < |pids'| ensures Next(ss'[k], ss'[k + 1], pids'[k]) {
      if k < |pids| {
        assert Next(ss[k], ss[k + 1], pids[k]);
      }
    }
    assert IsRun(ss', pids') && ss'[0] == s0 && ss'[|ss'| - 1] == s';
  }

  lemma ReachInv(s0: MM, s: MM)
    requires Reach(s0, s)
    ensures Inv(s) && Isolated(s)
  {
    var ss, pids :| IsRun(ss, pids) && ss[0] == s0 && ss[|ss| - 1] == s;
    RunInvariant(ss, pids, |ss| - 1);
  }

  /** The first twelve frames after the reserved ones are free, those of busy apart. */
  ghost predicate Busy(s: MM, busy: set<nat>) {
    forall g: nat :: g < RESERVED + 12 ==> (g in s.used <==> g < RESERVED || g in busy)
  }

  /** Page number n of the page heap. */
  function PageNo(n: nat): nat { KERN_PG_HEAP + n * PAGE }

  /** No page from number m on is handed out. */
  ghost predicate HighFree(s: MM, m: nat) {
    forall n: nat :: m <= n && PageNo(n) < KERN_PG_HEAP_LIM ==> PageNo(n) !in s.kmap
  }

  /** s is reachable, with those frames and pages in use and a heap of at most m pages. */
  ghost predicate Reached(s0: MM, s: MM, busy: set<nat>, m: nat) {
    Reach(s0, s) && Busy(s, busy) && HighFree(s, m) && m < 100 && s.brk <= KERN_HEAP + m * PAGE
  }

  /** The next free frame. */
  predicate IsNext(busy: set<nat>, f: nat) {
    RESERVED <= f < RESERVED + 12 && f !in busy && forall g: nat :: RESERVED <= g < f ==> g in busy
  }

  lemma NextIsLowest(s: MM, busy: set<nat>, f: nat)
    requires Busy(s, busy) && IsNext(busy, f)
    ensures Lowest(s.used, f)
  {
  }

  lemma PagesLeft(s: MM, m: nat)
    requires Inv(s) && HighFree(s, m) && m < 100
    ensures FreeAreas.MoreThanOnePage(s.areas) && s.areas[0].start <= PageNo(m)
  {
    var fs := FreeAreas.State(s.areas, Out(s.kmap));
    var v := PageNo(m);
    assert FreeAreas.IsPage(v) && v !in fs.out;
    assert FreeAreas.IsFree(s.areas, v);
    var i :| 0 <= i < |s.areas| && s.areas[i].start <= v < s.areas[i].end;
    assert i > 0 ==> s.areas[0].end < s.areas[i].start;
  }

  // ---- single steps

  /** The words of every frame above the reserved ones are the same. */
  ghost predicate AboveSame(m: Mem, m': Mem) {
    forall g: nat, i: nat :: g >= RESERVED ==> Read(m', g, i) == Read(m, g, i)
  }

  lemma GetPageRun(s0: MM, s: MM, busy: set<nat>, m: nat, pid: nat, f: nat) returns (s': MM, v: nat)
    requires Reached(s0, s, busy, m) && m < 99 && IsNext(busy, f) && pid in s.spaces
    ensures Reached(s0, s', busy + {f}, m + 1)
    ensures s'.spaces == s.spaces[pid := s.spaces[pid].(plain := s.spaces[pid].plain + [Page(v, f)])]
    ensures s'.pending == s.pending && s'.exiting == s.exiting && s'.raw == s.raw && AboveSame(s.mem, s'.mem)
  {
    ReachInv(s0, s);
    NextIsLowest(s, busy, f);
    PagesLeft(s, m);
    v := s.areas[0].start;
    RangesTake(s.kmap, s.areas, s.brk, f);
    KernelEntryIs(v);
    var mem' := s.mem[Slot(KTable(v), Idx(v)) := Entry(f, RW)];
    var sp := s.spaces[pid];
    s' := s.(used := s.used + {f}, owner := s.owner[f := PageHeap(v, pid)], kmap := s.kmap[v := f],
             areas := FreeAreas.Taken(s.areas), mem := mem',
             spaces := s.spaces[pid := sp.(plain := sp.plain + [Page(v, f)])]);
    assert GetPage(s, s', pid, f);
    ReachNext(s0, s, s', pid);
  }

  lemma GrowRun(s0: MM, s: MM, busy: set<nat>, m: nat, f: nat) returns (s': MM)
    requires Reached(s0, s, busy, m) && m < 99 && IsNext(busy, f)
    ensures Reached(s0, s', busy + {f}, m + 1) && s'.spaces == s.spaces && AboveSame(s.mem, s'.mem)
    ensures s'.pending == s.pending && s'.exiting == s.exiting && f in s'.owner && s'.owner[f].Heap?
  {
    ReachInv(s0, s);
    NextIsLowest(s, busy, f);
    KernelEntryIs(s.brk);
    var mem' := s.mem[Slot(KTable(s.brk), Idx(s.brk)) := Entry(f, RW)];
    s' := s.(used := s.used + {f}, owner := s.owner[f := Heap(s.brk)], kmap := s.kmap[s.brk := f],
             brk := s.brk + PAGE, mem := mem');
    assert Grow(s, s', f);
    ReachNext(s0, s, s', 0);
  }

  /** Frame d filled as pd_create does. */
  function FilledMem(m: Mem, d: nat): Mem
    requires d < FRAMES
  {
    m + (map i: nat | i < 1024 ::
           Slot(d, i) := if i < KERNEL_DIRS then Read(m, PD0, i) else if i < MIRROR then 0 else Entry(d, RW))
  }

  lemma FilledReads(m: Mem, d: nat)
    requires d < FRAMES && d != PD0
    ensures DirectoryFilled(m, FilledMem(m, d), d)
  {
  }

  /** User entry i of directory d is the table es[i], or absent. */
  ghost predicate Entries(m: Mem, d: nat, es: map<nat, nat>) {
    forall i: nat :: IsUserDir(i) ==>
      if i in es then es[i] < FRAMES && Read(m, d, i) == Entry(es[i], RWU) else Read(m, d, i) == 0
  }

  /** Other frames keep their words. */
  ghost predicate OthersSame(m: Mem, m': Mem, d: nat, t: nat) {
    forall g: nat, i: nat :: g >= RESERVED && g != d && g != t ==> Read(m', g, i) == Read(m, g, i)
  }

  lemma NewSpaceRun(s0: MM, s: MM, busy: set<nat>, m: nat, pid: nat) returns (s': MM)
    requires Reached(s0, s, busy, m) && pid !in s.spaces
    ensures Reached(s0, s', busy, m) && s' == s.(spaces := s.spaces[pid := NoSpace])
    ensures pid !in s.pending && pid !in s.exiting
  {
    ReachInv(s0, s);
    s' := s.(spaces := s.spaces[pid := NoSpace]);
    assert Spawn(s, s', pid);
    ReachNext(s0, s, s', pid);
  }

  lemma DirectoryRun(s0: MM, s: MM, busy: set<nat>, m: nat, pid: nat, v: nat, d: nat) returns (s': MM)
    requires Reached(s0, s, busy, m) && pid in s.spaces && s.spaces[pid] == Space([], [], [Page(v, d)], [])
    requires RESERVED <= d < FRAMES
    ensures Reached(s0, s', busy, m)
    ensures s' == s.(mem := s'.mem, spaces := s.spaces[pid := Space([Page(v, d)], [], [], [])])
    ensures Entries(s'.mem, d, map[]) && OthersSame(s.mem, s'.mem, d, d)
  {
    FilledReads(s.mem, d);
    var sp := s.spaces[pid];
    s' := s.(mem := FilledMem(s.mem, d), spaces := s.spaces[pid := Space([Page(v, d)], [], [], [])]);
    assert DropLastPlain(sp).(base := [LastPlain(sp)]) == s'.spaces[pid];
    assert MakeDirectory(s, s', pid);
    ReachNext(s0, s, s', pid);
  }

  /** Spawn, a page for the directory, and pd_create. */
  lemma SpawnRun(s0: MM, s: MM, busy: set<nat>, m: nat, pid: nat, d: nat) returns (s': MM, v: nat)
    requires Reached(s0, s, busy, m) && m < 99 && IsNext(busy, d) && pid !in s.spaces
    ensures Reached(s0, s', busy + {d}, m + 1) && s'.spaces == s.spaces[pid := Space([Page(v, d)], [], [], [])]
    ensures Running(s', pid) && s'.pending == s.pending && s'.exiting == s.exiting
    ensures Entries(s'.mem, d, map[]) && OthersSame(s.mem, s'.mem, d, d)
  {
    var a := NewSpaceRun(s0, s, busy, m, pid);
    var b;
    b, v := GetPageRun(s0, a, busy, m, pid, d);
    s' := DirectoryRun(s0, b, busy + {d}, m + 1, pid, v, d);
  }

  /** The latest page on the list, not yet in a table. */
  lemma ListRun(s0: MM, s: MM, busy: set<nat>, m: nat, pid: nat, v: nat, f: nat) returns (s': MM)
    requires Reached(s0, s, busy, m) && IsNext(busy, f) && Running(s, pid)
    requires USER_OFFSET <= v < USER_STACK && v % PAGE == 0 && Faults(s.mem, s.spaces[pid].base[0].p, v)
    ensures Reached(s0, s', busy + {f}, m) && s'.mem == s.mem && s'.raw == s.raw
    ensures s'.spaces == s.spaces[pid := s.spaces[pid].(pages := [Page(v, f)] + s.spaces[pid].pages)]
    ensures s'.pending == s.pending + {pid} && s'.exiting == s.exiting
  {
    NextIsLowest(s, busy, f);
    var sp := s.spaces[pid];
    s' := s.(used := s.used + {f}, owner := s.owner[f := User(pid)], pending := s.pending + {pid},
             spaces := s.spaces[pid := sp.(pages := [Page(v, f)] + sp.pages)]);
    assert AddFrame(s, s', pid, f, v);
    ReachNext(s0, s, s', pid);
  }

  /** The entry of the latest page. */
  lemma EntryRun(s0: MM, s: MM, busy: set<nat>, m: nat, pid: nat, es: map<nat, nat>) returns (s': MM)
    requires Reached(s0, s, busy, m) && pid in s.pending && pid in s.spaces && pid !in s.exiting
    requires |s.spaces[pid].base| == 1 && s.spaces[pid].pages != [] && s.spaces[pid].pages[0].p < FRAMES
    requires var d, pg := s.spaces[pid].base[0].p, s.spaces[pid].pages[0];
             Entries(s.mem, d, es) && IsUserDir(Dir(pg.v)) && Dir(pg.v) in es && es[Dir(pg.v)] != d
    ensures Reached(s0, s', busy, m) && s'.spaces == s.spaces && Running(s', pid) && s'.exiting == s.exiting
    ensures s'.pending == s.pending - {pid}
    ensures var d, pg := s.spaces[pid].base[0].p, s.spaces[pid].pages[0];
            && Entries(s'.mem, d, es) && OthersSame(s.mem, s'.mem, es[Dir(pg.v)], es[Dir(pg.v)])
            && (forall i: nat :: Read(s'.mem, es[Dir(pg.v)], i) ==
                                 if i == Idx(pg.v) then Entry(pg.p, RWU) else Read(s.mem, es[Dir(pg.v)], i))
  {
    var d, pg := s.spaces[pid].base[0].p, s.spaces[pid].pages[0];
    var t := es[Dir(pg.v)];
    EntryFields(t, RWU);
    s' := s.(mem := s.mem[Slot(t, Idx(pg.v)) := Entry(pg.p, RWU)], pending := s.pending - {pid},
             raw := if Idx(pg.v) == 0 then s.raw - {t} else s.raw);
    assert PteWritten(s.mem, s'.mem, d, pg.v, pg.p, RWU);
    assert SetPte(s, s', pid);
    ReachNext(s0, s, s', pid);
  }

  /** Frame t cleared from word 1 on, and entered in the directory. */
  function TableMem(m: Mem, d: nat, i: nat, t: nat): Mem
    requires t < FRAMES
  {
    (m + (map j: nat | 1 <= j < 1024 :: Slot(t, j) := 0))[Slot(d, i) := Entry(t, RWU)]
  }

  lemma TableReads(m: Mem, d: nat, v: nat, t: nat)
    requires t < FRAMES && t != d
    ensures TableInstalled(m, TableMem(m, d, Dir(v), t), d, v, t, RWU)
  {
  }

  /** A page for a table, and the table. */
  lemma TableRun(s0: MM, s: MM, busy: set<nat>, m: nat, pid: nat, v: nat, t: nat, es: map<nat, nat>)
    returns (s': MM, tv: nat)
    requires Reached(s0, s, busy, m) && m < 99 && IsNext(busy, t) && pid in s.spaces && pid !in s.exiting
    requires |s.spaces[pid].base| == 1 && s.spaces[pid].base[0].p in busy && s.spaces[pid].base[0].p >= RESERVED
    requires Entries(s.mem, s.spaces[pid].base[0].p, es) && USER_OFFSET <= v < USER_STACK && Dir(v) !in es
    ensures Reached(s0, s', busy + {t}, m + 1) && s'.pending == s.pending && s'.exiting == s.exiting
    ensures s'.spaces == s.spaces[pid := s.spaces[pid].(tables := [Page(tv, t)] + s.spaces[pid].tables)]
    ensures var d := s.spaces[pid].base[0].p;
            Entries(s'.mem, d, es[Dir(v) := t]) && OthersSame(s.mem, s'.mem, d, t)
    ensures Read(s'.mem, t, 0) == Read(s.mem, t, 0)
  {
    var d := s.spaces[pid].base[0].p;
    assert IsUserDir(Dir(v));
    var a;
    a, tv := GetPageRun(s0, s, busy, m, pid, t);
    TableReads(a.mem, d, v, t);
    var sp := a.spaces[pid];
    assert DropLastPlain(sp).plain == s.spaces[pid].plain;
    s' := a.(mem := TableMem(a.mem, d, Dir(v), t), raw := a.raw + {t},
             spaces := a.spaces[pid := DropLastPlain(sp).(tables := [LastPlain(sp)] + sp.tables)]);
    assert MakeTable(a, s', pid, v);
    ReachNext(s0, a, s', pid);
  }

  /** A page fault in a region without a table. */
  lemma FaultRun(s0: MM, s: MM, busy: set<nat>, m: nat, pid: nat, v: nat, f: nat, t: nat, es: map<nat, nat>)
    returns (s': MM, tv: nat)
    requires Reached(s0, s, busy, m) && m < 99 && IsNext(busy, f) && IsNext(busy + {f}, t) && Running(s, pid)
    requires s.spaces[pid].base[0].p in busy && s.spaces[pid].base[0].p >= RESERVED
    requires Entries(s.mem, s.spaces[pid].base[0].p, es) && Dir(v) !in es
    requires USER_OFFSET <= v < USER_STACK && v % PAGE == 0
    ensures Reached(s0, s', busy + {f, t}, m + 1) && Running(s', pid)
    ensures s'.pending == s.pending && s'.exiting == s.exiting
    ensures var sp := s.spaces[pid];
            s'.spaces == s.spaces[pid := sp.(tables := [Page(tv, t)] + sp.tables, pages := [Page(v, f)] + sp.pages)]
    ensures var d := s.spaces[pid].base[0].p;
            Entries(s'.mem, d, es[Dir(v) := t]) && OthersSame(s.mem, s'.mem, d, t)
    ensures Read(s'.mem, t, 0) == if Idx(v) == 0 then Entry(f, RWU) else Read(s.mem, t, 0)
  {
    assert IsUserDir(Dir(v));
    var a := ListRun(s0, s, busy, m, pid, v, f);
    var b;
    b, tv := TableRun(s0, a, busy + {f}, m, pid, v, t, es);
    s' := EntryRun(s0, b, busy + {f} + {t}, m + 1, pid, es[Dir(v) := t]);
    assert busy + {f} + {t} == busy + {f, t};
  }

  // ---- leaving

  lemma BeginExitRun(s0: MM, s: MM, busy: set<nat>, m: nat, pid: nat) returns (s': MM)
    requires Reached(s0, s, busy, m) && Running(s, pid)
    ensures Reached(s0, s', busy, m) && s' == s.(exiting := s.exiting + {pid})
  {
    s' := s.(exiting := s.exiting + {pid});
    assert BeginExit(s, s', pid);
    ReachNext(s0, s, s', pid);
  }

  lemma DropRun(s0: MM, s: MM, busy: set<nat>, m: nat, pid: nat) returns (s': MM)
    requires Reached(s0, s, busy, m) && pid in s.spaces && pid in s.exiting && s.spaces[pid].pages != []
    requires s.spaces[pid].pages[0].p >= RESERVED
    ensures Reached(s0, s', busy - {s.spaces[pid].pages[0].p}, m) && s'.mem == s.mem
    ensures s'.spaces == s.spaces[pid := s.spaces[pid].(pages := s.spaces[pid].pages[1..])]
    ensures s'.pending == s.pending && s'.exiting == s.exiting
  {
    var sp := s.spaces[pid];
    var f := sp.pages[0].p;
    s' := s.(used := s.used - {f}, owner := s.owner - {f}, spaces := s.spaces[pid := sp.(pages := sp.pages[1..])]);
    assert DropFrame(s, s', pid);
    ReachNext(s0, s, s', pid);
  }

  lemma RetireRun(s0: MM, s: MM, busy: set<nat>, m: nat, pid: nat) returns (s': MM)
    requires Reached(s0, s, busy, m) && pid in s.spaces && pid in s.exiting
    ensures Reached(s0, s', busy, m)
    ensures var sp := s.spaces[pid];
            s' == s.(spaces := s.spaces[pid := sp.(base := [], plain := sp.base + sp.plain)])
  {
    var sp := s.spaces[pid];
    s' := s.(spaces := s.spaces[pid := sp.(base := [], plain := sp.base + sp.plain)]);
    assert Retire(s, s', pid);
    ReachNext(s0, s, s', pid);
  }

  lemma ReleaseRun(s0: MM, s: MM, busy: set<nat>, m: nat, pid: nat, pg: Page, sp': Space) returns (s': MM)
    requires Reached(s0, s, busy, m) && pid in s.spaces && WithoutPage(s.spaces[pid], sp', pg)
    ensures Reached(s0, s', busy - {pg.p}, m) && s'.spaces == s.spaces[pid := sp'] && AboveSame(s.mem, s'.mem)
    ensures s'.pending == s.pending && s'.exiting == s.exiting
  {
    ReleasedPage(s0, s, pid, pg, sp');
    var o := FreeAreas.Given(s.areas, s.head, pg.v);
    var w := ClearPresent(Read(s.mem, KTable(pg.v), Idx(pg.v)));
    s' := s.(used := s.used - {pg.p}, owner := s.owner - {pg.p}, kmap := s.kmap - {pg.v},
             areas := if o.Released? then o.areas else [],
             mem := s.mem[Slot(KTable(pg.v), Idx(pg.v)) := w], spaces := s.spaces[pid := sp']);
    assert ReleasePage(s, s', pid, pg, sp');
    ReachNext(s0, s, s', pid);
  }

  lemma ReleasedPage(s0: MM, s: MM, pid: nat, pg: Page, sp': Space)
    requires Reach(s0, s) && pid in s.spaces && WithoutPage(s.spaces[pid], sp', pg)
    ensures KTable(pg.v) < RESERVED <= pg.p
  {
    ReachInv(s0, s);
    ReleaseIsOwn(s, pid, pg, sp');
    KernelPageRange(s, pg.v);
    KernelEntryIs(pg.v);
  }

  lemma ForgetRun(s0: MM, s: MM, busy: set<nat>, m: nat, pid: nat) returns (s': MM)
    requires Reached(s0, s, busy, m) && pid in s.spaces && s.spaces[pid] == NoSpace && pid in s.exiting
    ensures Reached(s0, s', busy, m) && s' == s.(spaces := s.spaces - {pid}, exiting := s.exiting - {pid})
  {
    ReachInv(s0, s);
    s' := s.(spaces := s.spaces - {pid}, exiting := s.exiting - {pid});
    assert Forget(s, s', pid);
    ReachNext(s0, s, s', pid);
  }

  // ---- the run

  /** Frame number k after the reserved ones. */
  function F(k: nat): nat { RESERVED + k }

  /** The frames F(0) .. F(k - 1). */
  function Fs(k: nat): (s: set<nat>)
    ensures forall g :: g in s <==> RESERVED <= g < RESERVED + k
  {
    if k == 0 then {} else Fs(k - 1) + {F(k - 1)}
  }

  const TEXT := 0x4000_0000
  const DATA := 0x4040_0000
  const STACK := 0xDFFF_F000
  const STACK_REGION := 0xDFC0_0000

  /** A process with one page of text and a kernel stack, in frames F(1) .. F(4). */
  lemma LoadRun(s0: MM, s: MM, m: nat, pid: nat) returns (s': MM, dv: nat, tv: nat, kv: nat)
    requires Reached(s0, s, Fs(1), m) && m < 95 && pid !in s.spaces
    ensures Reached(s0, s', Fs(5), m + 3) && Running(s', pid)
    ensures s'.spaces == s.spaces[pid := Space([Page(dv, F(1))], [Page(tv, F(3))], [Page(kv, F(4))],
                                               [Page(TEXT, F(2))])]
    ensures s'.pending == s.pending && s'.exiting == s.exiting
    ensures Entries(s'.mem, F(1), map[256 := F(3)]) && forall g: nat :: g >= F(5) ==> SameFrame(s.mem, s'.mem, g)
  {
    var a, b;
    a, dv := SpawnRun(s0, s, Fs(1), m, pid, F(1));
    assert Fs(1) + {F(1)} == Fs(2);
    b, tv := FaultRun(s0, a, Fs(2), m + 1, pid, TEXT, F(2), F(3), map[]);
    assert Fs(2) + {F(2), F(3)} == Fs(4);
    assert [Page(tv, F(3))] + b.spaces[pid].plain == [Page(tv, F(3))];
    s', kv := GetPageRun(s0, b, Fs(4), m + 2, pid, F(4));
    assert Fs(4) + {F(4)} == Fs(5);
    var sp := s'.spaces[pid];
    assert sp.tables == [Page(tv, F(3))] && sp.plain == [Page(kv, F(4))] && sp.pages == [Page(TEXT, F(2))];
  }

  /** A fault of process 1 in its data region, which has no table yet. */
  lemma DataTableRun(s0: MM, s: MM, m: nat, dv: nat, tv: nat, kv: nat) returns (s': MM, tv': nat)
    requires Reached(s0, s, Fs(5), m) && m < 95 && Running(s, 1) && 1 in s.spaces
    requires s.spaces[1] == Space([Page(dv, F(1))], [Page(tv, F(3))], [Page(kv, F(4))], [Page(TEXT, F(2))])
    requires Entries(s.mem, F(1), map[256 := F(3)])
    ensures Reached(s0, s', Fs(7), m + 1) && Running(s', 1) && s'.pending == s.pending && s'.exiting == s.exiting
    ensures s'.spaces == s.spaces[1 := Space([Page(dv, F(1))], [Page(tv', F(6)), Page(tv, F(3))], [Page(kv, F(4))],
                                             [Page(DATA + PAGE, F(5)), Page(TEXT, F(2))])]
    ensures Entries(s'.mem, F(1), map[256 := F(3), 257 := F(6)]) && Read(s'.mem, F(6), 0) == Read(s.mem, F(6), 0)
  {
    var es := map[256 := F(3)];
    assert Dir(DATA + PAGE) == 257 && Idx(DATA + PAGE) == 1;
    s', tv' := FaultRun(s0, s, Fs(5), m, 1, DATA + PAGE, F(5), F(6), es);
    assert Fs(5) + {F(5), F(6)} == Fs(7);
    assert es[257 := F(6)] == map[256 := F(3), 257 := F(6)];
    var sp := s'.spaces[1];
    assert sp.tables == [Page(tv', F(6)), Page(tv, F(3))];
    assert sp.pages == [Page(DATA + PAGE, F(5)), Page(TEXT, F(2))];
  }

  /** Process 1 uses the second page of its data region before the first: the table F(6) is older than F(7). */
  lemma DataRun(s0: MM, s: MM, m: nat, dv: nat, tv: nat, kv: nat) returns (s': MM, tv': nat)
    requires Reached(s0, s, Fs(5), m) && m < 95 && Running(s, 1) && 1 in s.spaces
    requires s.spaces[1] == Space([Page(dv, F(1))], [Page(tv, F(3))], [Page(kv, F(4))], [Page(TEXT, F(2))])
    requires Entries(s.mem, F(1), map[256 := F(3)]) && !Allows(Read(s.mem, F(6), 0))
    ensures Reached(s0, s', Fs(8), m + 1) && Running(s', 1) && s'.pending == s.pending && s'.exiting == s.exiting
    ensures s'.spaces == s.spaces[1 := Space([Page(dv, F(1))], [Page(tv', F(6)), Page(tv, F(3))], [Page(kv, F(4))],
                                             [Page(DATA, F(7)), Page(DATA + PAGE, F(5)), Page(TEXT, F(2))])]
    ensures Read(s'.mem, F(6), 0) == Entry(F(7), RWU)
  {
    var a;
    a, tv' := DataTableRun(s0, s, m, dv, tv, kv);
    s' := FirstPageRun(s0, a, m + 1);
    assert s'.spaces[1].pages == [Page(DATA, F(7)), Page(DATA + PAGE, F(5)), Page(TEXT, F(2))];
  }

  /** A fault at the first page of the data region, which has a table by now. */
  lemma FirstPageRun(s0: MM, s: MM, m: nat) returns (s': MM)
    requires Reached(s0, s, Fs(7), m) && Running(s, 1) && s.spaces[1].base[0].p == F(1)
    requires Entries(s.mem, F(1), map[256 := F(3), 257 := F(6)]) && !Allows(Read(s.mem, F(6), 0))
    ensures Reached(s0, s', Fs(8), m) && Running(s', 1) && s'.pending == s.pending && s'.exiting == s.exiting
    ensures s'.spaces == s.spaces[1 := s.spaces[1].(pages := [Page(DATA, F(7))] + s.spaces[1].pages)]
    ensures Read(s'.mem, F(6), 0) == Entry(F(7), RWU)
  {
    assert Dir(DATA) == 257 && Idx(DATA) == 0;
    EntryFields(F(6), RWU);
    assert Faults(s.mem, F(1), DATA);
    var b := ListRun(s0, s, Fs(7), m, 1, DATA, F(7));
    assert Fs(7) + {F(7)} == Fs(8);
    s' := EntryRun(s0, b, Fs(8), m, 1, map[256 := F(3), 257 := F(6)]);
  }

  /** Process 1 exits: pages, kernel stack, tables, directory. */
  lemma ExitRun(s0: MM, s: MM, m: nat, dv: nat, tv: nat, kv: nat, tv': nat) returns (s': MM)
    requires Reached(s0, s, Fs(8), m) && Running(s, 1) && s.spaces.Keys == {1}
    requires s.spaces[1] == Space([Page(dv, F(1))], [Page(tv', F(6)), Page(tv, F(3))], [Page(kv, F(4))],
                                  [Page(DATA, F(7)), Page(DATA + PAGE, F(5)), Page(TEXT, F(2))])
    ensures Reached(s0, s', Fs(1), m) && s'.spaces == map[] && AboveSame(s.mem, s'.mem)
    ensures s'.pending == s.pending && s'.exiting == s.exiting
  {
    var a := DropPagesRun(s0, s, m);
    var sp := a.spaces[1];
    var busy := Fs(8) - {F(7)} - {F(5)} - {F(2)};
    var b := ReleaseRun(s0, a, busy, m, 1, Page(kv, F(4)), sp.(plain := []));
    var c := RetireRun(s0, b, busy - {F(4)}, m, 1);
    sp := c.spaces[1];
    assert sp == Space([], [Page(tv', F(6)), Page(tv, F(3))], [Page(dv, F(1))], []);
    var d := ReleaseRun(s0, c, busy - {F(4)}, m, 1, Page(tv', F(6)), sp.(tables := [Page(tv, F(3))]));
    var e := ReleaseRun(s0, d, busy - {F(4)} - {F(6)}, m, 1, Page(tv, F(3)), sp.(tables := []));
    var f := ReleaseRun(s0, e, busy - {F(4)} - {F(6)} - {F(3)}, m, 1, Page(dv, F(1)), NoSpace);
    var left := busy - {F(4)} - {F(6)} - {F(3)} - {F(1)};
    s' := ForgetRun(s0, f, left, m, 1);
    assert forall g :: g in left <==> g in Fs(1);
  }

  lemma DropPagesRun(s0: MM, s: MM, m: nat) returns (s': MM)
    requires Reached(s0, s, Fs(8), m) && Running(s, 1) && 1 in s.spaces
    requires s.spaces[1].pages == [Page(DATA, F(7)), Page(DATA + PAGE, F(5)), Page(TEXT, F(2))]
    ensures Reached(s0, s', Fs(8) - {F(7)} - {F(5)} - {F(2)}, m) && s'.mem == s.mem
    ensures s'.spaces == s.spaces[1 := s.spaces[1].(pages := [])]
    ensures s'.pending == s.pending && s'.exiting == s.exiting + {1}
  {
    var a := BeginExitRun(s0, s, Fs(8), m, 1);
    var b := DropRun(s0, a, Fs(8), m, 1);
    assert b.spaces[1].pages == [Page(DATA + PAGE, F(5)), Page(TEXT, F(2))];
    var c := DropRun(s0, b, Fs(8) - {F(7)}, m, 1);
    assert c.spaces[1].pages == [Page(TEXT, F(2))];
    s' := DropRun(s0, c, Fs(8) - {F(7)} - {F(5)}, m, 1);
    assert s'.spaces[1].pages == [];
  }

  /** Process 2 takes the frames over; its stack gets the table F(6), whose entry 0 is still there. */
  lemma StackRun(s0: MM, s: MM, m: nat) returns (s': MM)
    requires Reached(s0, s, Fs(1), m) && m < 90 && s.spaces == map[] && Read(s.mem, F(6), 0) == Entry(F(7), RWU)
    ensures Reached(s0, s', Fs(7), m + 4) && Running(s', 2) && s'.spaces.Keys == {2}
    ensures s'.spaces[2].base[0].p == F(1) && Read(s'.mem, F(1), 895) == Entry(F(6), RWU)
    ensures s'.spaces[2].pages == [Page(STACK, F(5)), Page(TEXT, F(2))]
    ensures Read(s'.mem, F(6), 0) == Entry(F(7), RWU)
  {
    var a, dv, tv, kv := LoadRun(s0, s, m, 2);
    assert SameFrame(s.mem, a.mem, F(6));
    var tv';
    assert Dir(STACK) == 895 && Idx(STACK) == 1023;
    s', tv' := FaultRun(s0, a, Fs(5), m + 3, 2, STACK, F(5), F(6), map[256 := F(3)]);
    assert Fs(5) + {F(5), F(6)} == Fs(7);
  }

  /**
   From every boot state with twelve free frames after the reserved ones and the first word of the seventh not
   looking like a user entry, there is a run that ends with process 2 running and an address of its stack
   region leading into the page directory of process 3; a zero stored there breaks the invariant.
   */
  lemma {:induction false} ForeignDirectoryRun(s0: MM)
    requires Booted(s0) && (forall g: nat :: RESERVED <= g < RESERVED + 12 ==> g !in s0.used)
    requires !Allows(Read(s0.mem, F(6), 0))
    ensures exists s :: Reach(s0, s) && Running(s, 2) && Running(s, 3)
                        && RawSlot(s, s.spaces[2].base[0].p, STACK_REGION)
                        && Walk(s.mem, s.spaces[2].base[0].p, STACK_REGION) == At(s.spaces[3].base[0].p * PAGE)
                        && !Inv(s.(mem := Store(s.mem, s.spaces[2].base[0].p, STACK_REGION, 0)))
  {
    var e := TakeOverRun(s0);
    var s, rv := SpawnRun(s0, e, Fs(7), 9, 3, F(7));
    EndOfRun(s0, s);
    StoreBreaks(s, 3, F(1), STACK_REGION);
  }

  /** Processes 1 and 2, one after the other: up to the point where process 2 sees the old entry. */
  lemma TakeOverRun(s0: MM) returns (e: MM)
    requires Booted(s0) && (forall g: nat :: RESERVED <= g < RESERVED + 12 ==> g !in s0.used)
    requires !Allows(Read(s0.mem, F(6), 0))
    ensures Reached(s0, e, Fs(7), 9) && Running(e, 2) && e.spaces.Keys == {2}
    ensures e.spaces[2].base[0].p == F(1) && Read(e.mem, F(1), 895) == Entry(F(6), RWU)
    ensures e.spaces[2].pages == [Page(STACK, F(5)), Page(TEXT, F(2))] && Read(e.mem, F(6), 0) == Entry(F(7), RWU)
  {
    assert IsRun([s0], []);
    assert Reach(s0, s0);
    var a := GrowRun(s0, s0, {}, 0, F(0));
    assert {} + {F(0)} == Fs(1);
    var b, dv, tv, kv := LoadRun(s0, a, 1, 1);
    assert SameFrame(a.mem, b.mem, F(6));
    var c, tv' := DataRun(s0, b, 4, dv, tv, kv);
    var d := ExitRun(s0, c, 5, dv, tv, kv, tv');
    e := StackRun(s0, d, 5);
  }

  /**
   From the same boot states there is a run after which the address leads into the kernel heap, where the code
   keeps the free list and the page lists.
   */
  lemma {:induction false} KernelHeapRun(s0: MM)
    requires Booted(s0) && (forall g: nat :: RESERVED <= g < RESERVED + 12 ==> g !in s0.used)
    requires !Allows(Read(s0.mem, F(6), 0))
    ensures exists s, f: nat :: Reach(s0, s) && Running(s, 2) && RawSlot(s, s.spaces[2].base[0].p, STACK_REGION)
                           && Walk(s.mem, s.spaces[2].base[0].p, STACK_REGION) == At(f * PAGE)
                           && f in HeapFrames(s) && KernelFrame(s, f)
  {
    var e := TakeOverRun(s0);
    var s := GrowRun(s0, e, Fs(7), 9, F(7));
    EndOfRun(s0, s);
    HeapFrame(s0, s, F(7));
  }

  lemma HeapFrame(s0: MM, s: MM, f: nat)
    requires Reach(s0, s) && f in s.owner && s.owner[f].Heap?
    ensures f in HeapFrames(s)
  {
    ReachInv(s0, s);
    HeapIsOwned(s, f);
    assert s.kmap[s.owner[f].v] == f;
  }

  /** Whoever can store to the first word of a directory can break the invariant. */
  lemma StoreBreaks(s: MM, q: nat, d: nat, a: nat)
    requires q in s.spaces && |s.spaces[q].base| == 1 && Walk(s.mem, d, a) == At(s.spaces[q].base[0].p * PAGE)
    ensures !Inv(s.(mem := Store(s.mem, d, a, 0)))
  {
    SlotOf(s.spaces[q].base[0].p, 0);
    assert Read(Store(s.mem, d, a, 0), s.spaces[q].base[0].p, 0) != KernelEntry(0);
  }

  lemma EndOfRun(s0: MM, s: MM)
    requires Reach(s0, s) && Running(s, 2) && s.spaces[2].base[0].p == F(1)
    requires Read(s.mem, F(1), 895) == Entry(F(6), RWU) && Read(s.mem, F(6), 0) == Entry(F(7), RWU)
    requires s.spaces[2].pages == [Page(STACK, F(5)), Page(TEXT, F(2))]
    ensures Walk(s.mem, F(1), STACK_REGION) == At(F(7) * PAGE) && RawSlot(s, F(1), STACK_REGION)
  {
    assert Dir(STACK_REGION) == 895 && Idx(STACK_REGION) == 0 && STACK_REGION % PAGE == 0;
    EntryFields(F(6), RWU);
    EntryFields(F(7), RWU);
    ReachInv(s0, s);
    UserAddressExact(s, 2, STACK_REGION);
  }
}
