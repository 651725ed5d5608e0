/**
 The chunk list behind both first-fit allocators (kern/kmalloc.c and usr/libc/malloc.c):
 consecutive chunks that tile the heap, each one used or free.  The byte-level heaps
 refine the list operations defined here.
 */
module Chunks {

  const HEADER := 4
  const MINSIZE := 16

  /** size counts the header; req is the size asked for, header included, when the chunk is used. */
  datatype Chunk = Chunk(size: nat, used: bool, req: nat)

  /** A block handed to a caller: its chunk starts at addr. */
  datatype Block = Block(addr: nat, size: nat, req: nat)

  function Total(cs: seq<Chunk>): nat {
    if cs == [] then 0 else cs[0].size + Total(cs[1..])
  }

  function UsedTotal(cs: seq<Chunk>): nat {
    if cs == [] then 0 else (if cs[0].used then cs[0].size else 0) + UsedTotal(cs[1..])
  }

  /** Offset of chunk i; Addr(cs, |cs|) is the heap limit. */
  function Addr(cs: seq<Chunk>, i: nat): nat
    requires i <= |cs|
  {
    Total(cs[..i])
  }

  /** The blocks currently handed out, for a list whose first chunk starts at base. */
  function Live(cs: seq<Chunk>, base: nat): set<Block> {
    if cs == [] then {}
    else (if cs[0].used then {Block(base, cs[0].size, cs[0].req)} else {}) + Live(cs[1..], base + cs[0].size)
  }

  predicate WellFormed(cs: seq<Chunk>) {
    forall i :: 0 <= i < |cs| ==> cs[i].size >= MINSIZE && (cs[i].used ==> MINSIZE <= cs[i].req <= cs[i].size)
  }

  predicate Fits(c: Chunk, n: nat) {
    !c.used && c.size >= n
  }

  /** Chunk i is in use and its payload starts at offset p. */
  ghost predicate IsLiveAt(cs: seq<Chunk>, p: nat, i: nat) {
    i < |cs| && cs[i].used && p == Addr(cs, i) + HEADER
  }

  /** Index of the first free chunk of at least n bytes, |cs| if there is none. */
  function FirstFit(cs: seq<Chunk>, n: nat): (i: nat)
    ensures i <= |cs|
    ensures i < |cs| ==> Fits(cs[i], n)
    ensures forall j :: 0 <= j < i ==> !Fits(cs[j], n)
  {
    if cs == [] || Fits(cs[0], n) then 0 else 1 + FirstFit(cs[1..], n)
  }

  /** What the taken chunk becomes: whole if the rest could not hold a chunk, split otherwise. */
  function Carve(c: Chunk, n: nat): (r: seq<Chunk>)
    requires Fits(c, n)
    ensures Total(r) == c.size && r != [] && r[0].used && r[0].req == n && n <= r[0].size < n + MINSIZE
  {
    if c.size - n < MINSIZE then [Chunk(c.size, true, n)]
    else
      TotalAppend([Chunk(n, true, n)], [Chunk(c.size - n, false, 0)]);
      [Chunk(n, true, n)] + [Chunk(c.size - n, false, 0)]
  }

  function Take(cs: seq<Chunk>, i: nat, n: nat): seq<Chunk>
    requires i < |cs| && Fits(cs[i], n)
  {
    cs[..i] + Carve(cs[i], n) + cs[i + 1..]
  }

  /** Allocate n bytes (header included); growth is the size the heap grows by when nothing fits. */
  function Alloc(cs: seq<Chunk>, n: nat, growth: nat): seq<Chunk>
    requires n <= growth
  {
    var i := FirstFit(cs, n);
    if i < |cs| then Take(cs, i, n) else Take(cs + [Chunk(growth, false, 0)], |cs|, n)
  }

  /** Size of the chunk an allocation of n bytes is given. */
  function Granted(cs: seq<Chunk>, n: nat, growth: nat): (g: nat)
    requires n <= growth
    ensures n <= g < n + MINSIZE
  {
    var i := FirstFit(cs, n);
    Carve(if i < |cs| then cs[i] else Chunk(growth, false, 0), n)[0].size
  }

  /** End of the run of free chunks starting at index i. */
  function FreeRun(cs: seq<Chunk>, i: nat): (e: nat)
    requires i <= |cs|
    ensures i <= e <= |cs|
    ensures e < |cs| ==> cs[e].used
    ensures forall j :: i <= j < e ==> !cs[j].used
    decreases |cs| - i
  {
    if i == |cs| || cs[i].used then i else FreeRun(cs, i + 1)
  }

  /** Free chunk i and merge it with the free chunks that follow; never with those before. */
  function Release(cs: seq<Chunk>, i: nat): seq<Chunk>
    requires i < |cs|
  {
    var e := FreeRun(cs, i + 1);
    cs[..i] + [Chunk(Total(cs[i..e]), false, 0)] + cs[e..]
  }

  // ---- sums and addresses

  lemma {:induction false} TotalAppend(a: seq<Chunk>, b: seq<Chunk>)
    ensures Total(a + b) == Total(a) + Total(b)
    ensures UsedTotal(a + b) == UsedTotal(a) + UsedTotal(b)
  {
    if a == [] {
      assert a + b == b;
    } else {
      assert (a + b)[1..] == a[1..] + b;
      TotalAppend(a[1..], b);
    }
  }

  lemma {:induction false} LiveAppend(a: seq<Chunk>, b: seq<Chunk>, base: nat)
    ensures Live(a + b, base) == Live(a, base) + Live(b, base + Total(a))
  {
    if a == [] {
      assert a + b == b;
    } else {
      assert (a + b)[1..] == a[1..] + b;
      LiveAppend(a[1..], b, base + a[0].size);
    }
  }

  lemma {:induction false} AddrNext(cs: seq<Chunk>, i: nat)
    requires i < |cs|
    ensures Addr(cs, i + 1) == Addr(cs, i) + cs[i].size
  {
    assert cs[..i + 1] == cs[..i] + [cs[i]];
    TotalAppend(cs[..i], [cs[i]]);
  }

  lemma {:induction false} AddrMonotone(cs: seq<Chunk>, i: nat, j: nat)
    requires i <= j <= |cs|
    ensures Addr(cs, j) == Addr(cs, i) + Total(cs[i..j])
  {
    assert cs[..j] == cs[..i] + cs[i..j];
    TotalAppend(cs[..i], cs[i..j]);
  }

  lemma {:induction false} AddrLimit(cs: seq<Chunk>)
    ensures Addr(cs, |cs|) == Total(cs)
  {
    assert cs[..|cs|] == cs;
  }

  /** Chunks never overlap: an earlier chunk ends before a later one starts. */
  lemma {:induction false} ChunksDisjoint(cs: seq<Chunk>, i: nat, j: nat)
    requires i < j <= |cs|
    ensures Addr(cs, i) + cs[i].size <= Addr(cs, j)
  {
    AddrNext(cs, i);
    AddrMonotone(cs, i + 1, j);
  }

  /** Chunk i of the list ends inside the heap. */
  lemma {:induction false} ChunkInside(cs: seq<Chunk>, i: nat)
    requires i < |cs|
    ensures Addr(cs, i) + cs[i].size <= Total(cs)
  {
    ChunksDisjoint(cs, i, |cs|);
    AddrLimit(cs);
  }

  /** A walk is at the heap limit exactly when it has passed the last chunk. */
  lemma {:induction false} AtLimit(cs: seq<Chunk>, k: nat)
    requires WellFormed(cs) && k <= |cs|
    ensures Addr(cs, k) == Total(cs) <==> k == |cs|
    ensures k < |cs| ==> Addr(cs, k) + HEADER <= Total(cs)
  {
    if k < |cs| {
      ChunkInside(cs, k);
    } else {
      AddrLimit(cs);
    }
  }

  lemma {:induction false} LiveIsChunk(cs: seq<Chunk>, base: nat, b: Block) returns (i: nat)
    requires b in Live(cs, base)
    ensures i < |cs| && cs[i].used && b == Block(base + Addr(cs, i), cs[i].size, cs[i].req)
  {
    if cs[0].used && b == Block(base, cs[0].size, cs[0].req) {
      i := 0;
    } else {
      var j := LiveIsChunk(cs[1..], base + cs[0].size, b);
      i := j + 1;
      assert cs[..i][1..] == cs[1..][..j];
    }
  }

  lemma {:induction false} ChunkIsLive(cs: seq<Chunk>, base: nat, i: nat)
    requires i < |cs| && cs[i].used
    ensures Block(base + Addr(cs, i), cs[i].size, cs[i].req) in Live(cs, base)
  {
    if i > 0 {
      ChunkIsLive(cs[1..], base + cs[0].size, i - 1);
      assert cs[..i][1..] == cs[1..][..i - 1];
    }
  }

  lemma {:induction false} FreeRunHasNoLive(cs: seq<Chunk>, base: nat)
    requires forall j :: 0 <= j < |cs| ==> !cs[j].used
    ensures Live(cs, base) == {} && UsedTotal(cs) == 0
  {
    if cs != [] {
      FreeRunHasNoLive(cs[1..], base + cs[0].size);
    }
  }

  /** Two handed-out blocks are the same block or do not overlap, and a block holds what was asked. */
  lemma {:induction false} LiveDisjoint(cs: seq<Chunk>, base: nat, b: Block, b': Block)
    requires WellFormed(cs) && b in Live(cs, base) && b' in Live(cs, base)
    ensures b == b' || b.addr + b.size <= b'.addr || b'.addr + b'.size <= b.addr
    ensures base <= b.addr && b.addr + b.size <= base + Total(cs)
    ensures MINSIZE <= b.req <= b.size
  {
    var i := LiveIsChunk(cs, base, b);
    var j := LiveIsChunk(cs, base, b');
    ChunkInside(cs, i);
    if i < j {
      ChunksDisjoint(cs, i, j);
    } else if j < i {
      ChunksDisjoint(cs, j, i);
    }
  }

  // ---- the operations, on live blocks

  lemma {:induction false} LiveOfParts(a: seq<Chunk>, b: seq<Chunk>, c: seq<Chunk>, base: nat)
    ensures Live(a + b + c, base) == Live(a, base) + Live(b, base + Total(a)) + Live(c, base + Total(a) + Total(b))
    ensures Total(a + b + c) == Total(a) + Total(b) + Total(c)
    ensures UsedTotal(a + b + c) == UsedTotal(a) + UsedTotal(b) + UsedTotal(c)
  {
    LiveAppend(a + b, c, base);
    LiveAppend(a, b, base);
    TotalAppend(a + b, c);
    TotalAppend(a, b);
  }

  lemma {:induction false} CarveLive(c: Chunk, n: nat, base: nat)
    requires Fits(c, n)
    ensures Live(Carve(c, n), base) == {Block(base, Carve(c, n)[0].size, n)}
    ensures UsedTotal(Carve(c, n)) == Carve(c, n)[0].size
  {
    if c.size - n >= MINSIZE {
      LiveAppend([Chunk(n, true, n)], [Chunk(c.size - n, false, 0)], base);
      TotalAppend([Chunk(n, true, n)], [Chunk(c.size - n, false, 0)]);
    }
  }

  lemma {:induction false} TakeWellFormed(cs: seq<Chunk>, i: nat, n: nat)
    requires i < |cs| && Fits(cs[i], n) && WellFormed(cs) && n >= MINSIZE
    ensures WellFormed(Take(cs, i, n))
  {
    var r, t := Carve(cs[i], n), Take(cs, i, n);
    assert WellFormed(r);
    forall j | 0 <= j < |t| ensures t[j] in cs || t[j] in r {
      if j >= i + |r| {
        assert t[j] == cs[j - |r| + 1];
      }
    }
  }

  /** Taking a chunk adds exactly one block and keeps the heap's extent. */
  lemma {:induction false} TakeEffect(cs: seq<Chunk>, i: nat, n: nat, base: nat)
    requires i < |cs| && Fits(cs[i], n) && WellFormed(cs) && n >= MINSIZE
    ensures var cs' := Take(cs, i, n); var b := Block(base + Addr(cs, i), Carve(cs[i], n)[0].size, n);
            && WellFormed(cs')
            && Total(cs') == Total(cs)
            && Live(cs', base) == Live(cs, base) + {b} && b !in Live(cs, base)
            && UsedTotal(cs') == UsedTotal(cs) + b.size
  {
    var r := Carve(cs[i], n);
    TakeWellFormed(cs, i, n);
    assert cs == cs[..i] + [cs[i]] + cs[i + 1..];
    LiveOfParts(cs[..i], [cs[i]], cs[i + 1..], base);
    LiveOfParts(cs[..i], r, cs[i + 1..], base);
    CarveLive(cs[i], n, base + Addr(cs, i));
    FreeIsNotLive(cs, i, base, Block(base + Addr(cs, i), r[0].size, n));
  }

  /** No block starts at a free chunk. */
  lemma {:induction false} FreeIsNotLive(cs: seq<Chunk>, i: nat, base: nat, b: Block)
    requires WellFormed(cs) && i < |cs| && !cs[i].used && b.addr == base + Addr(cs, i)
    ensures b !in Live(cs, base)
  {
    if b in Live(cs, base) {
      var j := LiveIsChunk(cs, base, b);
      if j < i {
        ChunksDisjoint(cs, j, i);
      } else {
        ChunksDisjoint(cs, i, j);
      }
    }
  }

  /** A free chunk put at the end of the list changes no block. */
  lemma {:induction false} GrowEffect(cs: seq<Chunk>, growth: nat, base: nat)
    requires WellFormed(cs) && MINSIZE <= growth
    ensures var cs' := cs + [Chunk(growth, false, 0)];
            && WellFormed(cs') && Total(cs') == Total(cs) + growth && UsedTotal(cs') == UsedTotal(cs)
            && Live(cs', base) == Live(cs, base) && Addr(cs', |cs|) == Addr(cs, |cs|)
  {
    var d := [Chunk(growth, false, 0)];
    TotalAppend(cs, d);
    LiveAppend(cs, d, base);
    assert (cs + d)[..|cs|] == cs[..|cs|];
    FreeRunHasNoLive(d, base + Total(cs));
  }

  /** An allocation hands out exactly one new block, at the first chunk that fits, and grows at most once. */
  lemma {:induction false} AllocEffect(cs: seq<Chunk>, n: nat, growth: nat, base: nat)
    requires WellFormed(cs) && MINSIZE <= n <= growth
    ensures var cs' := Alloc(cs, n, growth); var i := FirstFit(cs, n);
            var b := Block(base + Addr(cs, i), Granted(cs, n, growth), n);
            && WellFormed(cs')
            && Total(cs') == Total(cs) + (if i < |cs| then 0 else growth)
            && Live(cs', base) == Live(cs, base) + {b} && b !in Live(cs, base)
            && UsedTotal(cs') == UsedTotal(cs) + b.size
  {
    var i := FirstFit(cs, n);
    if i < |cs| {
      TakeEffect(cs, i, n, base);
    } else {
      GrowEffect(cs, growth, base);
      var cs1 := cs + [Chunk(growth, false, 0)];
      assert cs1[i] == Chunk(growth, false, 0);
      TakeEffect(cs1, i, n, base);
      assert Alloc(cs, n, growth) == Take(cs1, i, n);
    }
  }

  /** The chunk being freed and the free chunks after it hold exactly one block. */
  lemma {:induction false} MergedLive(cs: seq<Chunk>, i: nat, base: nat)
    requires i < |cs| && cs[i].used && WellFormed(cs)
    ensures var m := cs[i..FreeRun(cs, i + 1)];
            && Live(m, base) == {Block(base, cs[i].size, cs[i].req)}
            && UsedTotal(m) == cs[i].size && Total(m) >= cs[i].size
  {
    var e := FreeRun(cs, i + 1);
    assert cs[i..e] == [cs[i]] + cs[i + 1..e];
    TotalAppend([cs[i]], cs[i + 1..e]);
    LiveAppend([cs[i]], cs[i + 1..e], base);
    FreeRunHasNoLive(cs[i + 1..e], base + cs[i].size);
    assert Live([cs[i]], base) == {Block(base, cs[i].size, cs[i].req)};
  }

  lemma {:induction false} ReleaseWellFormed(cs: seq<Chunk>, i: nat)
    requires i < |cs| && cs[i].used && WellFormed(cs)
    ensures WellFormed(Release(cs, i))
    ensures i + 1 < |Release(cs, i)| ==> Release(cs, i)[i + 1].used
  {
    MergedLive(cs, i, 0);
    var e := FreeRun(cs, i + 1);
    assert forall j :: 0 <= j < |cs[e..]| ==> cs[e..][j] == cs[e + j];
  }

  /**
   Freeing chunk i leaves the chunks before it alone, even a free one right before it; all the free chunks right
   after it are merged into it, so that a chunk in use or the end follows; the rest is as it was.
   */
  lemma {:induction false} ReleaseMerges(cs: seq<Chunk>, i: nat)
    requires i < |cs| && cs[i].used && WellFormed(cs)
    ensures var cs' := Release(cs, i); var e := i + 1 + |cs| - |cs'|;
            && i < |cs'| <= |cs| && cs'[..i] == cs[..i] && cs'[i + 1..] == cs[e..]
            && !cs'[i].used && (forall j :: i < j < e ==> !cs[j].used) && (e < |cs| ==> cs[e].used)
            && Addr(cs', i) == Addr(cs, i) && Addr(cs', i) + cs'[i].size == Addr(cs, e)
  {
    var e := FreeRun(cs, i + 1);
    assert Release(cs, i)[..i] == cs[..i] && Release(cs, i)[i + 1..] == cs[e..];
    assert cs[..e] == cs[..i] + cs[i..e];
    TotalAppend(cs[..i], cs[i..e]);
  }

  /** Replacing the middle of a list, which holds one block, by a free chunk of the same extent. */
  lemma {:induction false} MergeParts(a: seq<Chunk>, mid: seq<Chunk>, c: seq<Chunk>, base: nat, b: Block)
    requires WellFormed(a) && WellFormed(c)
    requires Live(mid, base + Total(a)) == {b} && b.addr == base + Total(a) && Total(mid) > 0
    ensures var m := [Chunk(Total(mid), false, 0)];
            && Total(a + m + c) == Total(a + mid + c)
            && b in Live(a + mid + c, base) && Live(a + m + c, base) == Live(a + mid + c, base) - {b}
            && UsedTotal(a + m + c) == UsedTotal(a + mid + c) - UsedTotal(mid)
  {
    var m := [Chunk(Total(mid), false, 0)];
    LiveOfParts(a, mid, c, base);
    LiveOfParts(a, m, c, base);
    FreeRunHasNoLive(m, base + Total(a));
    assert Total(m) == Total(mid);
    BlockOnlyThere(a, c, base, b, base + Total(a) + Total(mid));
  }

  /** Freeing removes exactly one block and keeps the extent of the heap. */
  lemma {:induction false} ReleaseEffect(cs: seq<Chunk>, i: nat, base: nat)
    requires i < |cs| && cs[i].used && WellFormed(cs)
    ensures var cs' := Release(cs, i); var b := Block(base + Addr(cs, i), cs[i].size, cs[i].req);
            && Total(cs') == Total(cs)
            && b in Live(cs, base) && Live(cs', base) == Live(cs, base) - {b}
            && UsedTotal(cs') == UsedTotal(cs) - b.size
  {
    var e := FreeRun(cs, i + 1);
    assert cs == cs[..i] + cs[i..e] + cs[e..];
    MergedLive(cs, i, base + Addr(cs, i));
    MergeParts(cs[..i], cs[i..e], cs[e..], base, Block(base + Addr(cs, i), cs[i].size, cs[i].req));
  }

  /** A non-empty block at the end of a is not among the blocks of a nor among those from a later base on. */
  lemma {:induction false} BlockOnlyThere(a: seq<Chunk>, c: seq<Chunk>, base: nat, b: Block, later: nat)
    requires WellFormed(a) && WellFormed(c) && b.addr == base + Total(a) && b.addr < later
    ensures b !in Live(a, base) && b !in Live(c, later)
  {
    if b in Live(a, base) {
      LiveDisjoint(a, base, b, b);
    }
    if b in Live(c, later) {
      LiveDisjoint(c, later, b, b);
    }
  }
}
