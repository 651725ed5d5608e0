/**
 usr/libc/malloc.c over kern/syscalls/sys_sbrk.c: the heap of a user process, which starts at the
 page after its bss (kern/process.c) and grows by exactly the rounded request.
 */
module UserHeap {
  import opened Layout
  import opened Words
  import opened Chunks
  import opened HeapBytes

  /** Largest request whose rounded size does not wrap at 32 bits. */
  const MAX_REQUEST := WORD - 20

  /** malloc's rounding of size plus header to a multiple of 16, in 32-bit arithmetic. */
  function RealSize(size: u32): nat {
    var r := (HEADER + size) % WORD;
    if r % MINSIZE != 0 then (r - r % MINSIZE + MINSIZE) % WORD else r
  }

  /** The rounded size holds header and request exactly for the requests up to MAX_REQUEST. */
  lemma RealSizeHoldsRequest(size: u32)
    ensures RealSize(size) >= HEADER + size <==> size <= MAX_REQUEST
    ensures RealSize(size) % MINSIZE == 0
    ensures size <= MAX_REQUEST ==>
              HEADER + size <= RealSize(size) < HEADER + size + MINSIZE && RealSize(size) >= MINSIZE
  {
  }

  // ---- the heap as a state machine over chunk lists

  /** Every block is a multiple of 16 bytes and a used block is exactly the rounded request. */
  predicate Exact(cs: seq<Chunk>) {
    forall i :: 0 <= i < |cs| ==> cs[i].size % MINSIZE == 0 && (cs[i].used ==> cs[i].req == cs[i].size)
  }

  predicate Inv(cs: seq<Chunk>) {
    WellFormed(cs) && Exact(cs)
  }

  datatype Op = Malloc(size: u32) | Free(p: nat)

  ghost predicate Step(cs: seq<Chunk>, op: Op, cs': seq<Chunk>) {
    match op
    case Malloc(size) => RealSize(size) != 0 && cs' == Alloc(cs, RealSize(size), RealSize(size))
    case Free(p) => exists i :: IsLiveAt(cs, p, i) && cs' == Release(cs, i)
  }

  ghost predicate IsRun(hs: seq<seq<Chunk>>, ops: seq<Op>) {
    && |hs| == |ops| + 1
    && hs[0] == []
    && forall k :: 0 <= k < |ops| ==> Step(hs[k], ops[k], hs[k + 1])
  }

  lemma {:induction false} MultipleOfMin(cs: seq<Chunk>)
    requires Exact(cs)
    ensures Total(cs) % MINSIZE == 0
  {
    if cs != [] {
      MultipleOfMin(cs[1..]);
    }
  }

  lemma {:induction false} AllocKeepsInv(cs: seq<Chunk>, n: nat)
    requires Inv(cs) && MINSIZE <= n && n % MINSIZE == 0
    ensures Inv(Alloc(cs, n, n)) && Granted(cs, n, n) == n
  {
    AllocEffect(cs, n, n, 0);
    var i := FirstFit(cs, n);
    if i < |cs| {
      CarveExact(cs[i], n);
    } else {
      CarveExact(Chunk(n, false, 0), n);
    }
  }

  /** The rounded size is 0 for sixteen requests just below 2^32, and for no other. */
  lemma ZeroRequests(size: u32)
    ensures RealSize(size) == 0 <==> MAX_REQUEST < size <= WORD - HEADER
  {
  }

  /** malloc keeps the heap in order exactly if the rounded size is not 0; with 0 it makes a block of no size. */
  lemma {:induction false} AllocExact(cs: seq<Chunk>, n: nat)
    requires Inv(cs) && n % MINSIZE == 0
    ensures Inv(Alloc(cs, n, n)) <==> n != 0
  {
    if n != 0 {
      AllocKeepsInv(cs, n);
    } else {
      var i := FirstFit(cs, 0);
      var c := if i < |cs| then cs[i] else Chunk(0, false, 0);
      assert Carve(c, 0)[0].size == 0;
      assert Alloc(cs, 0, 0)[i] == Carve(c, 0)[0];
    }
  }

  lemma CarveExact(c: Chunk, n: nat)
    requires Fits(c, n) && c.size % MINSIZE == 0 && n % MINSIZE == 0
    ensures Exact(Carve(c, n)) && Carve(c, n)[0].size == n
  {
  }

  lemma {:induction false} ReleaseKeepsInv(cs: seq<Chunk>, i: nat)
    requires Inv(cs) && i < |cs| && cs[i].used
    ensures Inv(Release(cs, i))
  {
    ReleaseWellFormed(cs, i);
    var e := FreeRun(cs, i + 1);
    MultipleOfMin(cs[i..e]);
    assert forall j :: 0 <= j < |cs[e..]| ==> cs[e..][j] == cs[e + j];
  }

  /** Every state of every run of malloc and valid free satisfies the heap invariant. */
  lemma {:induction false} RunInvariant(hs: seq<seq<Chunk>>, ops: seq<Op>, k: nat)
    requires IsRun(hs, ops) && k < |hs|
    ensures Inv(hs[k])
  {
    if k > 0 {
      RunInvariant(hs, ops, k - 1);
      assert Step(hs[k - 1], ops[k - 1], hs[k]);
      match ops[k - 1]
      case Malloc(size) =>
        RealSizeHoldsRequest(size);
        AllocKeepsInv(hs[k - 1], RealSize(size));
      case Free(p) =>
        var i :| IsLiveAt(hs[k - 1], p, i) && hs[k] == Release(hs[k - 1], i);
        ReleaseKeepsInv(hs[k - 1], i);
    }
  }

  /** In every state of every run: blocks are apart, aligned, and exactly the size that was granted. */
  lemma {:induction false} RunBlocks(hs: seq<seq<Chunk>>, ops: seq<Op>, k: nat, b: Block, b': Block)
    requires IsRun(hs, ops) && k < |hs| && b in Live(hs[k], 0) && b' in Live(hs[k], 0)
    ensures b == b' || b.addr + b.size <= b'.addr || b'.addr + b'.size <= b.addr
    ensures b.addr % MINSIZE == 0 && b.size % MINSIZE == 0 && b.req == b.size
  {
    RunInvariant(hs, ops, k);
    LiveDisjoint(hs[k], 0, b, b');
    var i := LiveIsChunk(hs[k], 0, b);
    MultipleOfMin(hs[k][..i]);
  }

  /** In every run a malloc(size) hands out one new block: header and size, rounded up to a multiple of 16. */
  lemma {:induction false} RunMallocExact(hs: seq<seq<Chunk>>, ops: seq<Op>, k: nat, size: u32) returns (b: Block)
    requires IsRun(hs, ops) && k < |ops| && ops[k] == Malloc(size)
    ensures b !in Live(hs[k], 0) && Live(hs[k + 1], 0) == Live(hs[k], 0) + {b} && b.size % 16 == 0
    ensures size <= 0xFFFF_FFEC ==> size + 4 <= b.size < size + 20
    ensures size > 0xFFFF_FFEC ==> size > 0xFFFF_FFFC && b.size == 16
  {
    RunInvariant(hs, ops, k);
    RealSizeHoldsRequest(size);
    ZeroRequests(size);
    assert Step(hs[k], ops[k], hs[k + 1]);
    AllocKeepsInv(hs[k], RealSize(size));
    AllocEffect(hs[k], RealSize(size), RealSize(size), 0);
    b := Block(Addr(hs[k], FirstFit(hs[k], RealSize(size))), RealSize(size), RealSize(size));
  }

  // ---- the code

  /**
   b_heap and e_heap of libc, e_heap of the kernel's process structure, and the bytes from the
   heap's start (base) to the stack region.
   */
  class UserHeap {
    const base: nat
    var bytes: seq<u8>
    var bHeap: nat
    var eHeap: nat
    var kernelEHeap: nat
    ghost var chunks: seq<Chunk>

    ghost predicate Valid()
      reads this
    {
      && 0 < base < USER_STACK && base % PAGE == 0 && |bytes| == USER_STACK - base
      && Inv(chunks) && Total(chunks) < USED_BIT && Total(chunks) <= |bytes|
      && Encodes(bytes, chunks, 0)
      && kernelEHeap == base + Total(chunks)
      && (bHeap == 0 ==> eHeap == 0 && chunks == [])
      && (bHeap != 0 ==> bHeap == base && eHeap == kernelEHeap)
    }

    /** load_task: b_heap and e_heap of the process are the page after e_bss. */
    constructor (bssEnd: nat, window: seq<u8>)
      requires bssEnd / PAGE * PAGE + PAGE < USER_STACK
      requires |window| == USER_STACK - (bssEnd / PAGE * PAGE + PAGE)
      ensures Valid() && chunks == [] && bytes == window && base == bssEnd / PAGE * PAGE + PAGE
    {
      base := bssEnd / PAGE * PAGE + PAGE;
      bytes := window;
      bHeap, eHeap := 0, 0;
      kernelEHeap := bssEnd / PAGE * PAGE + PAGE;
      chunks := [];
    }

    /** sys_sbrk: advance the kernel's e_heap and return where it was; it never fails. */
    method Sbrk(size: nat) returns (p: nat)
      modifies `kernelEHeap
      ensures p == old(kernelEHeap) && kernelEHeap == old(kernelEHeap) + size
    {
      p := kernelEHeap;
      kernelEHeap := kernelEHeap + size;
    }

    /** The block list after the search: one block of n bytes more when nothing fits. */
    ghost function Searched(n: nat): seq<Chunk>
      reads this
    {
      if FirstFit(chunks, n) < |chunks| then chunks else chunks + [Chunk(n, false, 0)]
    }

    /** Room for a request: a block fits, or the heap stays below the stack region and 2^31 bytes. */
    ghost predicate HasRoom(n: nat)
      reads this
    {
      FirstFit(chunks, n) < |chunks| || (kernelEHeap + n <= USER_STACK && kernelEHeap - base + n < USED_BIT)
    }

    /** Growth: one sbrk of the rounded request, made into a free block at the end of the heap. */
    method Grow(realsize: nat) returns (bl: nat)
      requires Valid() && MINSIZE <= realsize
      requires kernelEHeap + realsize <= USER_STACK && Total(chunks) + realsize < USED_BIT
      modifies `bytes, `eHeap, `kernelEHeap
      ensures bl == Total(chunks) && |bytes| == |old(bytes)|
      ensures eHeap == kernelEHeap == old(kernelEHeap) + realsize
      ensures Encodes(bytes, chunks + [Chunk(realsize, false, 0)], 0)
      ensures PayloadsKept(old(bytes), bytes, Live(chunks, 0))
    {
      eHeap := Sbrk(realsize);
      bl := eHeap - base;
      var m := SetHeader(bytes, bl, realsize, false);
      eHeap := eHeap + realsize;
      GrowBytes(bytes, m, chunks, realsize);
      bytes := m;
    }

    /** The search of malloc, the first call included, with the growth at the end of the heap. */
    method FindBlock(realsize: nat) returns (bl: nat)
      requires Valid() && MINSIZE <= realsize && HasRoom(realsize)
      modifies `bytes, `bHeap, `eHeap, `kernelEHeap
      ensures |bytes| == |old(bytes)|
      ensures bHeap == base && eHeap == kernelEHeap == base + Total(Searched(realsize))
      ensures Encodes(bytes, Searched(realsize), 0)
      ensures bl == Addr(chunks, FirstFit(chunks, realsize))
      ensures PayloadsKept(old(bytes), bytes, Live(chunks, 0))
    {
      if bHeap == 0 {
        bl := Grow(realsize);
        bHeap := base + bl;
      } else {
        bl := FindFit(bytes, eHeap - base, realsize, chunks);
        if bl != eHeap - base {
          return;
        }
        bl := Grow(realsize);
      }
      GrowEffect(chunks, realsize, 0);
      AddrLimit(chunks);
    }

    /** Search and carve: the block list becomes Alloc of the old one. */
    method TakeBlock(realsize: nat) returns (bl: nat)
      requires Valid() && MINSIZE <= realsize && HasRoom(realsize)
      modifies `bytes, `bHeap, `eHeap, `kernelEHeap
      ensures |bytes| == |old(bytes)|
      ensures bHeap == base && eHeap == kernelEHeap == base + Total(Searched(realsize))
      ensures Encodes(bytes, Alloc(chunks, realsize, realsize), 0)
      ensures bl == Addr(chunks, FirstFit(chunks, realsize))
      ensures PayloadsKept(old(bytes), bytes, Live(chunks, 0))
    {
      GrowEffect(chunks, realsize, 0);
      bl := FindBlock(realsize);
      var m := CarveChunk(bytes, bl, realsize, Searched(realsize), FirstFit(chunks, realsize));
      bytes := m;
    }

    /** First fit; the block returned is exactly the rounded request. */
    method Malloc(size: u32) returns (p: nat)
      requires Valid() && RealSize(size) != 0 && HasRoom(RealSize(size))
      modifies this
      ensures Valid() && chunks == Alloc(old(chunks), RealSize(size), RealSize(size))
      ensures p == base + Addr(old(chunks), FirstFit(old(chunks), RealSize(size))) + HEADER
      ensures bHeap == base && eHeap == kernelEHeap
      ensures PayloadsKept(old(bytes), bytes, Live(old(chunks), 0))
    {
      var realsize := Round(size);
      GrowEffect(chunks, realsize, 0);
      var bl := TakeBlock(realsize);
      AllocKeepsInv(chunks, realsize);
      AllocEffect(chunks, realsize, realsize, 0);
      chunks := Alloc(chunks, realsize, realsize);
      p := base + bl + HEADER;
    }

    /** The rounding at the start of malloc. */
    static method Round(size: u32) returns (realsize: nat)
      ensures realsize == RealSize(size) && realsize % MINSIZE == 0
    {
      RealSizeHoldsRequest(size);
      realsize := (HEADER + size) % WORD;
      var i := realsize % MINSIZE;
      if i != 0 {
        realsize := (realsize - i + MINSIZE) % WORD;
      }
    }

    /** Merge first, then clear the used bit. */
    method Free(p: nat, ghost i: nat)
      requires Valid() && p >= base && IsLiveAt(chunks, p - base, i)
      modifies this
      ensures Valid() && chunks == Release(old(chunks), i)
      ensures kernelEHeap == old(kernelEHeap) && eHeap == old(eHeap) && bHeap == old(bHeap)
      ensures PayloadsKept(old(bytes), bytes, Live(old(chunks), 0))
    {
      var bl := p - base - HEADER;
      EncodesAt(bytes, chunks, i);
      ChunkInside(chunks, i);
      assert chunks[i..i + 1] == [chunks[i]];
      ghost var e := FreeRun(chunks, i + 1);
      var m := MergeForward(bytes, bytes, bl, eHeap - base, chunks, i, true);
      MergingAt(bytes, m, chunks, i, e, true);
      m := SetUsed(m, bl, false);
      MergeDone(bytes, m, chunks, i, e);
      bytes := m;
      ReleaseKeepsInv(chunks, i);
      ReleaseEffect(chunks, i, 0);
      chunks := Release(chunks, i);
    }
  }
}
