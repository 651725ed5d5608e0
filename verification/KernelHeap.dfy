/**
 kern/kmalloc.c: the kernel heap between KERN_HEAP and KERN_HEAP_LIM.
 */
module KernelHeap {
  import opened Layout
  import opened Words
  import opened Chunks
  import opened HeapBytes

  const SPAN := KERN_HEAP_LIM - KERN_HEAP

  /** The chunk size kmalloc looks for; the addition wraps at 32 bits. */
  function RealSize(size: u32): (n: nat)
    ensures MINSIZE <= n < WORD
  {
    var r := (HEADER + size) % WORD;
    if r < MINSIZE then MINSIZE else r
  }

  /** A block of RealSize(size) bytes holds the request exactly when HEADER + size does not wrap. */
  lemma RealSizeHoldsRequest(size: u32)
    ensures RealSize(size) >= HEADER + size <==> size < WORD - HEADER
  {
  }

  lemma RealSizeIs(size: u32)
    ensures RealSize(size) == if size < 12 || size >= 0xFFFF_FFFC then 16 else size + 4
  {
  }

  /** Pages ksbrk is asked for when no chunk fits. */
  function GrowthPages(n: nat): nat { n / PAGE + 1 }

  function Growth(n: nat): (g: nat)
    ensures n < g <= n + 0x1000 && g % 0x1000 == 0
  {
    PAGE * GrowthPages(n)
  }

  /** The address ksbrk compares with the limit: 32-bit arithmetic. */
  function NewLimit(brk: nat, n: nat): nat { (KERN_HEAP + brk + n * PAGE) % WORD }

  /**
   The test of ksbrk refuses exactly what does not fit, for all sizes kmalloc can ask for, if and only if the sum
   does not wrap; a sum that wraps passes the test.
   */
  lemma KsbrkGuardExact(brk: nat, n: nat)
    requires brk <= SPAN && n <= GrowthPages(WORD - 1)
    ensures (NewLimit(brk, n) > KERN_HEAP_LIM <==> brk + n * PAGE > SPAN) <==> KERN_HEAP + brk + n * PAGE < WORD
  {
  }

  /** A request that gets past the test: ksbrk(0x10_0000), for a kmalloc of almost 4 GB. */
  lemma KsbrkWrapsExample()
    ensures GrowthPages(RealSize(0xFFFF_F000)) == 0x10_0000
    ensures NewLimit(PAGE, 0x10_0000) <= KERN_HEAP_LIM < KERN_HEAP + PAGE + 0x10_0000 * PAGE
  {
  }

  // ---- the heap as a state machine

  /** counter is kmalloc_used without wrap-around; slack sums the unsplit rests over all calls. */
  datatype Heap = Heap(chunks: seq<Chunk>, counter: int, slack: nat, calls: nat)

  datatype Op = Malloc(size: u32) | Free(p: nat)

  const Initial := Heap([Chunk(PAGE, false, 0)], 0, 0, 0)

  /** Room for a request: some chunk fits, or the heap may still grow. */
  predicate HasRoom(cs: seq<Chunk>, n: nat) {
    FirstFit(cs, n) < |cs| || Total(cs) + Growth(n) <= SPAN
  }

  function AfterMalloc(h: Heap, size: u32): Heap {
    var n := RealSize(size);
    var cs := Alloc(h.chunks, n, Growth(n));
    Heap(cs, h.counter + n, h.slack + Granted(h.chunks, n, Growth(n)) - n, h.calls + 1)
  }

  function AfterFree(h: Heap, i: nat): Heap
    requires i < |h.chunks|
  {
    Heap(Release(h.chunks, i), h.counter - h.chunks[i].size, h.slack, h.calls)
  }

  ghost predicate Step(h: Heap, op: Op, h': Heap) {
    match op
    case Malloc(size) => HasRoom(h.chunks, RealSize(size)) && h' == AfterMalloc(h, size)
    case Free(p) => exists i :: IsLiveAt(h.chunks, p, i) && h' == AfterFree(h, i)
  }

  /** hs is a run from boot: hs[0] is the heap init_mm leaves and ops[k] leads from hs[k] to hs[k + 1]. */
  ghost predicate IsRun(hs: seq<Heap>, ops: seq<Op>) {
    && |hs| == |ops| + 1
    && hs[0] == Initial
    && forall k :: 0 <= k < |ops| ==> Step(hs[k], ops[k], hs[k + 1])
  }

  /** What every state of every run satisfies. */
  ghost predicate Inv(h: Heap) {
    && WellFormed(h.chunks) && h.chunks != []
    && Total(h.chunks) <= SPAN && Total(h.chunks) % PAGE == 0
    && h.counter == UsedTotal(h.chunks) - h.slack
    && h.slack <= 15 * h.calls
  }

  lemma {:induction false} MallocInv(h: Heap, size: u32)
    requires Inv(h) && HasRoom(h.chunks, RealSize(size))
    ensures Inv(AfterMalloc(h, size))
    ensures var n := RealSize(size);
            Total(AfterMalloc(h, size).chunks) ==
            Total(h.chunks) + if FirstFit(h.chunks, n) < |h.chunks| then 0 else Growth(n)
  {
    var n := RealSize(size);
    AllocEffect(h.chunks, n, Growth(n), 0);
  }

  lemma {:induction false} MallocLive(cs: seq<Chunk>, n: nat)
    requires WellFormed(cs) && MINSIZE <= n
    ensures var b := Block(Addr(cs, FirstFit(cs, n)), Granted(cs, n, Growth(n)), n);
            && b !in Live(cs, 0) && Live(Alloc(cs, n, Growth(n)), 0) == Live(cs, 0) + {b}
  {
    AllocEffect(cs, n, Growth(n), 0);
  }

  /** kmalloc keeps the invariant, grows the heap only when nothing fits, and adds one new block. */
  lemma {:induction false} MallocKeepsInv(h: Heap, size: u32)
    requires Inv(h) && HasRoom(h.chunks, RealSize(size))
    ensures Inv(AfterMalloc(h, size))
    ensures var n := RealSize(size);
            Total(AfterMalloc(h, size).chunks) ==
            Total(h.chunks) + if FirstFit(h.chunks, n) < |h.chunks| then 0 else Growth(n)
    ensures var n := RealSize(size);
            var b := Block(Addr(h.chunks, FirstFit(h.chunks, n)), Granted(h.chunks, n, Growth(n)), n);
            && b !in Live(h.chunks, 0) && Live(AfterMalloc(h, size).chunks, 0) == Live(h.chunks, 0) + {b}
  {
    MallocInv(h, size);
    MallocLive(h.chunks, RealSize(size));
  }

  lemma {:induction false} FreeKeepsInv(h: Heap, i: nat)
    requires Inv(h) && i < |h.chunks| && h.chunks[i].used
    ensures Inv(AfterFree(h, i))
    ensures var b := Block(Addr(h.chunks, i), h.chunks[i].size, h.chunks[i].req);
            b in Live(h.chunks, 0) && Live(AfterFree(h, i).chunks, 0) == Live(h.chunks, 0) - {b}
  {
    ReleaseWellFormed(h.chunks, i);
    ReleaseEffect(h.chunks, i, 0);
  }

  /** Every state of every run of kmalloc and valid kfree satisfies the heap invariant. */
  lemma {:induction false} RunInvariant(hs: seq<Heap>, ops: seq<Op>, k: nat)
    requires IsRun(hs, ops) && k < |hs|
    ensures Inv(hs[k])
  {
    if k > 0 {
      RunInvariant(hs, ops, k - 1);
      var h := hs[k - 1];
      assert Step(h, ops[k - 1], hs[k]);
      match ops[k - 1]
      case Malloc(size) => MallocKeepsInv(h, size);
      case Free(p) =>
        var i :| IsLiveAt(h.chunks, p, i) && hs[k] == AfterFree(h, i);
        FreeKeepsInv(h, i);
    }
  }

  /** In every state of every run the handed-out blocks are apart from each other and hold their requests. */
  lemma {:induction false} RunBlocksDisjoint(hs: seq<Heap>, ops: seq<Op>, k: nat, b: Block, b': Block)
    requires IsRun(hs, ops) && k < |hs| && b in Live(hs[k].chunks, 0) && b' in Live(hs[k].chunks, 0)
    ensures b == b' || b.addr + b.size <= b'.addr || b'.addr + b'.size <= b.addr
    ensures MINSIZE <= b.req <= b.size && b.addr + b.size <= Total(hs[k].chunks) <= SPAN
  {
    RunInvariant(hs, ops, k);
    LiveDisjoint(hs[k].chunks, 0, b, b');
  }

  /**
   In every run a kmalloc(size) hands out one new block.  It has room for its header and size bytes, and less than
   16 bytes to spare, exactly if the 32-bit sum of the two does not wrap; otherwise it is of 16 to 31 bytes.
   */
  lemma {:induction false} RunMallocHolds(hs: seq<Heap>, ops: seq<Op>, k: nat, size: u32) returns (b: Block)
    requires IsRun(hs, ops) && k < |ops| && ops[k] == Malloc(size)
    ensures b !in Live(hs[k].chunks, 0) && Live(hs[k + 1].chunks, 0) == Live(hs[k].chunks, 0) + {b}
    ensures size < 0xFFFF_FFFC ==> var n := if size < 12 then 16 else size + 4; n <= b.size < n + 16
    ensures size >= 0xFFFF_FFFC ==> 16 <= b.size < 32
  {
    RunInvariant(hs, ops, k);
    assert Step(hs[k], ops[k], hs[k + 1]);
    var cs, n := hs[k].chunks, RealSize(size);
    MallocLive(cs, n);
    b := Block(Addr(cs, FirstFit(cs, n)), Granted(cs, n, Growth(n)), n);
    RealSizeIs(size);
  }

  /**
   kmalloc_used lags the total size of the used chunks by the accumulated slack, at most 15 bytes
   per kmalloc; its 32-bit value is that difference exactly when the slack has not overtaken the total.
   */
  lemma {:induction false} RunCounter(hs: seq<Heap>, ops: seq<Op>, k: nat)
    requires IsRun(hs, ops) && k < |hs|
    ensures var h := hs[k]; var used := h.counter % WORD;
            && h.slack <= 15 * h.calls
            && (used == UsedTotal(h.chunks) - h.slack <==> h.slack <= UsedTotal(h.chunks))
            && (h.slack <= UsedTotal(h.chunks) ==> used <= UsedTotal(h.chunks))
  {
    RunInvariant(hs, ops, k);
    UsedAtMostTotal(hs[k].chunks);
  }

  lemma {:induction false} UsedAtMostTotal(cs: seq<Chunk>)
    ensures UsedTotal(cs) <= Total(cs)
  {
    if cs != [] {
      UsedAtMostTotal(cs[1..]);
    }
  }

  /** The counter does wrap: one unsplit block, allocated and freed, leaves it just below 2^32. */
  lemma CounterWrapsExample()
    ensures var h := AfterFree(AfterMalloc(Initial, 4086), 0);
            UsedTotal(h.chunks) == 0 && h.counter % WORD == WORD - 6
  {
    assert FirstFit(Initial.chunks, 4090) == 0;
    var h := AfterMalloc(Initial, 4086);
    assert h.chunks == [Chunk(4096, true, 4090)];
    assert h.chunks[0..1] == h.chunks;
    assert Release(h.chunks, 0) == [Chunk(4096, false, 0)];
  }

  // ---- the code

  /** u is the 32-bit value of the unbounded counter c. */
  ghost predicate IsWrapped(u: u32, c: int) {
    exists q: int :: c == u + q * WORD
  }

  lemma WrappedIsMod(u: u32, c: int)
    ensures IsWrapped(u, c) <==> u == c % WORD
  {
    if u == c % WORD {
      assert c == u + c / WORD * WORD;
    }
  }

  /** Updating kmalloc_used, which wraps at 32 bits. */
  method Count(u: u32, n: int, ghost c: int) returns (u': u32)
    requires IsWrapped(u, c)
    ensures IsWrapped(u', c + n)
  {
    u' := (u + n) % WORD;
    WrappedIsMod(u', c + n);
    WrappedIsMod(u, c);
    WrapAdd(c, n);
  }

  /** kern_heap, kmalloc_used and the bytes of the heap window; offsets are relative to KERN_HEAP. */
  class KernelHeap {
    var bytes: seq<u8>
    var brk: nat
    var kmallocUsed: u32
    ghost var heap: Heap

    ghost predicate Valid()
      reads this
    {
      && |bytes| == SPAN
      && Inv(heap) && brk == Total(heap.chunks)
      && Encodes(bytes, heap.chunks, 0)
      && IsWrapped(kmallocUsed, heap.counter)
    }

    /** init_mm: kern_heap starts at KERN_HEAP and ksbrk(1) makes the first chunk. */
    constructor (window: seq<u8>)
      requires |window| == SPAN
      ensures Valid() && heap == Initial
    {
      var m := SetHeader(window, 0, PAGE, false);
      OneEncodes(m, 0, Chunk(PAGE, false, 0));
      WrappedIsMod(0, 0);
      bytes, brk, kmallocUsed, heap := m, PAGE, 0, Initial;
    }

    /** Extend the heap by n pages and make them one free chunk, unless the window is exhausted. */
    method Ksbrk(n: nat) returns (ok: bool)
      requires Valid() && n > 0 && KERN_HEAP + brk + n * PAGE < WORD
      modifies `bytes, `brk
      ensures ok == (old(brk) + n * PAGE <= SPAN)
      ensures !ok ==> bytes == old(bytes) && brk == old(brk)
      ensures ok ==> && |bytes| == SPAN && brk == old(brk) + n * PAGE
                     && Encodes(bytes, heap.chunks + [Chunk(n * PAGE, false, 0)], 0)
                     && PayloadsKept(old(bytes), bytes, Live(heap.chunks, 0))
    {
      if (KERN_HEAP + brk + n * PAGE) % WORD > KERN_HEAP_LIM {
        return false;
      }
      var chunk := brk;
      brk := brk + n * PAGE;
      var m := SetHeader(bytes, chunk, PAGE * n, false);
      GrowBytes(bytes, m, heap.chunks, n * PAGE);
      bytes := m;
      ok := true;
    }

    /** The list the search of kmalloc ends on. */
    ghost function Searched(n: nat): seq<Chunk>
      reads this
    {
      if FirstFit(heap.chunks, n) < |heap.chunks| then heap.chunks else heap.chunks + [Chunk(Growth(n), false, 0)]
    }

    /** The search of kmalloc: walk the headers from the start, grow when the walk reaches the end. */
    method FindChunk(realsize: nat) returns (chunk: nat)
      requires Valid() && MINSIZE <= realsize && HasRoom(heap.chunks, realsize)
      modifies `bytes, `brk
      ensures |bytes| == SPAN && Encodes(bytes, Searched(realsize), 0) && brk == Total(Searched(realsize))
      ensures chunk == Addr(heap.chunks, FirstFit(heap.chunks, realsize))
      ensures PayloadsKept(old(bytes), bytes, Live(heap.chunks, 0))
    {
      chunk := FindFit(bytes, brk, realsize, heap.chunks);
      if chunk == brk {
        GrowEffect(heap.chunks, Growth(realsize), 0);
        var ok := Ksbrk(realsize / PAGE + 1);
      }
    }

    /** Search and carve: the chunk list becomes Alloc of the old one. */
    method TakeChunk(realsize: nat) returns (chunk: nat)
      requires Valid() && MINSIZE <= realsize && HasRoom(heap.chunks, realsize)
      modifies `bytes, `brk
      ensures |bytes| == SPAN && Encodes(bytes, Alloc(heap.chunks, realsize, Growth(realsize)), 0)
      ensures brk == old(brk) + if FirstFit(heap.chunks, realsize) < |heap.chunks| then 0 else Growth(realsize)
      ensures chunk == Addr(heap.chunks, FirstFit(heap.chunks, realsize))
      ensures PayloadsKept(old(bytes), bytes, Live(heap.chunks, 0))
    {
      GrowEffect(heap.chunks, Growth(realsize), 0);
      chunk := FindChunk(realsize);
      var m := CarveChunk(bytes, chunk, realsize, Searched(realsize), FirstFit(heap.chunks, realsize));
      bytes := m;
    }

    /** The first lines of kmalloc. */
    static method Round(size: u32) returns (realsize: nat)
      ensures realsize == RealSize(size)
    {
      realsize := (HEADER + size) % WORD;
      if realsize < MINSIZE {
        realsize := MINSIZE;
      }
    }

    /** First fit over the headers; other callers' payloads keep every byte, the heap grows at most once. */
    method Kmalloc(size: u32) returns (p: nat)
      requires Valid() && HasRoom(heap.chunks, RealSize(size))
      modifies this
      ensures Valid() && heap == AfterMalloc(old(heap), size)
      ensures p == KERN_HEAP + Addr(old(heap.chunks), FirstFit(old(heap.chunks), RealSize(size))) + HEADER
      ensures PayloadsKept(old(bytes), bytes, Live(old(heap.chunks), 0))
      ensures brk == old(brk) + if FirstFit(old(heap.chunks), RealSize(size)) < |old(heap.chunks)| then 0
                                else Growth(RealSize(size))
    {
      var realsize := Round(size);
      var chunk := TakeChunk(realsize);
      kmallocUsed := Count(kmallocUsed, realsize, heap.counter);
      MallocInv(heap, size);
      heap := AfterMalloc(heap, size);
      p := KERN_HEAP + chunk + HEADER;
    }

    /** Free a live block and merge it with the free chunks right after it. */
    method Kfree(p: nat, ghost i: nat)
      requires Valid() && p >= KERN_HEAP && IsLiveAt(heap.chunks, p - KERN_HEAP, i)
      modifies this
      ensures Valid() && heap == AfterFree(old(heap), i) && brk == old(brk)
      ensures PayloadsKept(old(bytes), bytes, Live(old(heap.chunks), 0))
    {
      var chunk := p - KERN_HEAP - HEADER;
      ghost var cs := heap.chunks;
      EncodesAt(bytes, cs, i);
      ChunkInside(cs, i);
      assert cs[i..i + 1] == [cs[i]];
      var m := SetUsed(bytes, chunk, false);
      kmallocUsed := Count(kmallocUsed, 0 - SizeField(Read32(m, chunk)), heap.counter);
      m := MergeForward(m, bytes, chunk, brk, cs, i, false);
      MergeDone(bytes, m, cs, i, FreeRun(cs, i + 1));
      bytes := m;
      FreeKeepsInv(heap, i);
      ReleaseEffect(cs, i, 0);
      heap := AfterFree(heap, i);
    }

    /** The owner of a live block may store to its payload: the heap structure does not notice. */
    method Store(x: nat, v: u8, ghost b: Block)
      requires Valid() && b in Live(heap.chunks, 0) && b.addr + HEADER <= x < b.addr + b.size
      modifies `bytes
      ensures Valid() && x < SPAN && bytes == old(bytes)[x := v]
    {
      PayloadStoreKeepsHeap(bytes, heap.chunks, b, x, v);
      bytes := bytes[x := v];
    }
  }
}
