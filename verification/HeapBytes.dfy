/**
 Chunk headers as they lie in memory: a 31-bit size and a used bit in one little-endian word
 at the start of every chunk (kern/kmalloc.h, usr/libc/malloc.h).
 */
module HeapBytes {
  import opened Words
  import opened Chunks

  const USED_BIT := 0x8000_0000

  function SizeField(w: u32): nat { if w < USED_BIT then w else w - USED_BIT }

  predicate UsedField(w: u32) { w >= USED_BIT }

  function Header(size: nat, used: bool): u32
    requires size < USED_BIT
  {
    size + if used then USED_BIT else 0
  }

  /** m' is m after storing the word w at offset a. */
  ghost predicate Stored(m: seq<u8>, m': seq<u8>, a: nat, w: u32) {
    && a + 4 <= |m| && |m'| == |m|
    && Read32(m', a) == w
    && forall i :: 0 <= i < |m| && !(a <= i < a + 4) ==> m'[i] == m[i]
  }

  /** Bit-field store to size, which must fit its 31 bits; the used bit is kept. */
  method SetSize(m: seq<u8>, a: nat, size: nat) returns (m': seq<u8>)
    requires a + 4 <= |m| && size < USED_BIT
    ensures Stored(m, m', a, Header(size, UsedField(Read32(m, a))))
  {
    m' := Write32(m, a, Header(size, UsedField(Read32(m, a))));
  }

  /** Bit-field store to used: the size is kept. */
  method SetUsed(m: seq<u8>, a: nat, used: bool) returns (m': seq<u8>)
    requires a + 4 <= |m|
    ensures Stored(m, m', a, Header(SizeField(Read32(m, a)), used))
  {
    m' := Write32(m, a, Header(SizeField(Read32(m, a)), used));
  }

  /** Both bit-field stores in a row, as the allocators do for every header they set up. */
  method SetHeader(m: seq<u8>, a: nat, size: nat, used: bool) returns (m': seq<u8>)
    requires a + 4 <= |m| && size < USED_BIT
    ensures Stored(m, m', a, Header(size, used))
  {
    m' := SetSize(m, a, size);
    m' := SetUsed(m', a, used);
  }

  /** Walking the headers from offset base meets exactly the chunks cs. */
  predicate Encodes(m: seq<u8>, cs: seq<Chunk>, base: nat) {
    cs == [] || (&& base + 4 <= |m|
                 && cs[0].size < USED_BIT
                 && Read32(m, base) == Header(cs[0].size, cs[0].used)
                 && Encodes(m, cs[1..], base + cs[0].size))
  }

  lemma {:induction false} EncodesAppend(m: seq<u8>, a: seq<Chunk>, b: seq<Chunk>, base: nat)
    ensures Encodes(m, a + b, base) <==> Encodes(m, a, base) && Encodes(m, b, base + Total(a))
  {
    if a == [] {
      assert a + b == b;
    } else {
      assert (a + b)[1..] == a[1..] + b;
      EncodesAppend(m, a[1..], b, base + a[0].size);
    }
  }

  lemma {:induction false} EncodesParts(m: seq<u8>, a: seq<Chunk>, b: seq<Chunk>, c: seq<Chunk>)
    ensures Encodes(m, a + b + c, 0) <==>
            Encodes(m, a, 0) && Encodes(m, b, Total(a)) && Encodes(m, c, Total(a) + Total(b))
  {
    EncodesAppend(m, a + b, c, 0);
    EncodesAppend(m, a, b, 0);
    TotalAppend(a, b);
  }

  /** The header found at chunk k during a walk. */
  lemma {:induction false} EncodesAt(m: seq<u8>, cs: seq<Chunk>, k: nat)
    requires Encodes(m, cs, 0) && k < |cs|
    ensures Addr(cs, k) + 4 <= |m| && cs[k].size < USED_BIT
    ensures Read32(m, Addr(cs, k)) == Header(cs[k].size, cs[k].used)
  {
    assert cs == cs[..k] + cs[k..];
    EncodesAppend(m, cs[..k], cs[k..], 0);
  }

  /** The four bytes of a header: the size in the low 31 bits, the used bit on top. */
  lemma HeaderBytes(m: seq<u8>, cs: seq<Chunk>, k: nat)
    requires Encodes(m, cs, 0) && k < |cs|
    ensures var a := Addr(cs, k);
            && a + 4 <= |m|
            && (m[a] as int) + 0x100 * (m[a + 1] as int) + 0x1_0000 * (m[a + 2] as int)
               + 0x100_0000 * (m[a + 3] as int) == cs[k].size + (if cs[k].used then 0x8000_0000 else 0)
            && (cs[k].used <==> m[a + 3] >= 0x80)
  {
    EncodesAt(m, cs, k);
    Read32Is(m, Addr(cs, k));
  }

  /** The same header in bit-field terms. */
  lemma {:induction false} FieldsAt(m: seq<u8>, cs: seq<Chunk>, k: nat)
    requires Encodes(m, cs, 0) && k < |cs|
    ensures Addr(cs, k) + 4 <= |m|
    ensures SizeField(Read32(m, Addr(cs, k))) == cs[k].size
    ensures UsedField(Read32(m, Addr(cs, k))) == cs[k].used
  {
    EncodesAt(m, cs, k);
  }

  ghost predicate Same(m: seq<u8>, m': seq<u8>, lo: nat, hi: nat) {
    |m'| == |m| && forall x :: lo <= x < hi && x < |m| ==> m'[x] == m[x]
  }

  lemma {:induction false} EncodesFrame(m: seq<u8>, m': seq<u8>, cs: seq<Chunk>, base: nat)
    requires Encodes(m, cs, base) && WellFormed(cs) && Same(m, m', base, base + Total(cs))
    ensures Encodes(m', cs, base)
  {
    if cs != [] {
      ReadUnchanged(m, m', base);
      EncodesFrame(m, m', cs[1..], base + cs[0].size);
    }
  }

  /**
   Rewriting the headers inside the extent of part b turns the walk over a + b + c into one
   over a + b' + c, if the bytes outside that extent are kept and b' tiles the same extent.
   */
  lemma {:induction false} ReplaceMiddle(m: seq<u8>, m': seq<u8>, a: seq<Chunk>, b: seq<Chunk>, b': seq<Chunk>,
                                         c: seq<Chunk>)
    requires Encodes(m, a + b + c, 0) && WellFormed(a) && WellFormed(c) && Total(b') == Total(b)
    requires Same(m, m', 0, Total(a)) && Same(m, m', Total(a) + Total(b), |m|)
    requires Encodes(m', b', Total(a))
    ensures Encodes(m', a + b' + c, 0)
  {
    EncodesOuter(m, a, b, c);
    EncodesFrame(m, m', a, 0);
    EncodesFrame(m, m', c, Total(a) + Total(b));
    EncodesJoin(m', a, b', c);
  }

  /** What a walk over three parts says about the outer two. */
  lemma {:induction false} EncodesOuter(m: seq<u8>, a: seq<Chunk>, b: seq<Chunk>, c: seq<Chunk>)
    requires Encodes(m, a + b + c, 0)
    ensures Encodes(m, a, 0) && Encodes(m, c, Total(a) + Total(b))
  {
    EncodesParts(m, a, b, c);
  }

  lemma {:induction false} EncodesJoin(m: seq<u8>, a: seq<Chunk>, b: seq<Chunk>, c: seq<Chunk>)
    requires Encodes(m, a, 0) && Encodes(m, b, Total(a)) && Encodes(m, c, Total(a) + Total(b))
    ensures Encodes(m, a + b + c, 0)
  {
    EncodesParts(m, a, b, c);
  }

  /** Payload bytes of every block in bs keep their value. */
  ghost predicate PayloadsKept(m: seq<u8>, m': seq<u8>, bs: set<Block>) {
    |m'| == |m| && forall b :: b in bs ==> Same(m, m', b.addr + HEADER, b.addr + b.size)
  }

  lemma {:induction false} OneEncodes(m: seq<u8>, a: nat, c: Chunk)
    requires a + 4 <= |m| && c.size < USED_BIT && Read32(m, a) == Header(c.size, c.used)
    ensures Encodes(m, [c], a)
  {
    assert [c][1..] == [];
  }

  /** Two headers in a row, the second at the end of the first chunk. */
  lemma {:induction false} PairEncodes(m: seq<u8>, a: nat, e: nat, c: Chunk, d: Chunk)
    requires a <= e && e + 4 <= |m| && a + c.size == e && 4 <= c.size < USED_BIT && d.size < USED_BIT
    requires Read32(m, a) == Header(c.size, c.used) && Read32(m, e) == Header(d.size, d.used)
    ensures Encodes(m, [c] + [d], a)
  {
    assert Total([c]) == c.size;
    OneEncodes(m, a, c);
    OneEncodes(m, e, d);
    EncodesAppend(m, [c], [d], a);
  }

  /** Replacing chunk i of the list by chunks r of the same extent. */
  lemma {:induction false} ReplaceChunk(m: seq<u8>, m': seq<u8>, cs: seq<Chunk>, i: nat, r: seq<Chunk>)
    requires Encodes(m, cs, 0) && WellFormed(cs) && i < |cs| && Total(r) == cs[i].size
    requires Same(m, m', 0, Addr(cs, i)) && Same(m, m', Addr(cs, i) + cs[i].size, |m|)
    requires Encodes(m', r, Addr(cs, i))
    ensures Encodes(m', cs[..i] + r + cs[i + 1..], 0)
  {
    assert cs == cs[..i] + [cs[i]] + cs[i + 1..];
    assert Total([cs[i]]) == cs[i].size;
    ReplaceMiddle(m, m', cs[..i], [cs[i]], r, cs[i + 1..]);
  }

  /** Taking a whole chunk: one store, to its header. */
  lemma {:induction false} TakeWhole(m: seq<u8>, m': seq<u8>, cs: seq<Chunk>, i: nat, n: nat)
    requires Encodes(m, cs, 0) && WellFormed(cs) && Total(cs) <= |m|
    requires i < |cs| && Fits(cs[i], n) && cs[i].size - n < MINSIZE && cs[i].size < USED_BIT
    requires Stored(m, m', Addr(cs, i), Header(cs[i].size, true))
    ensures Encodes(m', Take(cs, i, n), 0) && PayloadsKept(m, m', Live(cs, 0))
  {
    OneEncodes(m', Addr(cs, i), Chunk(cs[i].size, true, n));
    ReplaceChunk(m, m', cs, i, Carve(cs[i], n));
    OutsideChunkKept(m, m', cs, i);
  }

  /** Splitting a chunk: the header of the rest is stored first, then the header of the taken part. */
  lemma {:induction false} TakeSplit(m: seq<u8>, m1: seq<u8>, m': seq<u8>, cs: seq<Chunk>, i: nat, n: nat)
    requires Encodes(m, cs, 0) && WellFormed(cs) && Total(cs) <= |m|
    requires i < |cs| && Fits(cs[i], n) && MINSIZE <= n && cs[i].size - n >= MINSIZE && cs[i].size < USED_BIT
    requires Stored(m, m1, Addr(cs, i) + n, Header(cs[i].size - n, false))
    requires Stored(m1, m', Addr(cs, i), Header(n, true))
    ensures Encodes(m', Take(cs, i, n), 0) && PayloadsKept(m, m', Live(cs, 0))
  {
    var a, e := Addr(cs, i), Addr(cs, i) + n;
    ReadUnchanged(m1, m', e);
    PairEncodes(m', a, e, Chunk(n, true, n), Chunk(cs[i].size - n, false, 0));
    ReplaceChunk(m, m', cs, i, Carve(cs[i], n));
    OutsideChunkKept(m, m', cs, i);
  }

  /** A header stored right after the last chunk appends a chunk. */
  lemma {:induction false} GrowBytes(m: seq<u8>, m': seq<u8>, cs: seq<Chunk>, growth: nat)
    requires Encodes(m, cs, 0) && WellFormed(cs) && growth < USED_BIT
    requires Stored(m, m', Total(cs), Header(growth, false))
    ensures Encodes(m', cs + [Chunk(growth, false, 0)], 0) && PayloadsKept(m, m', Live(cs, 0))
  {
    EncodesFrame(m, m', cs, 0);
    OneEncodes(m', Total(cs), Chunk(growth, false, 0));
    EncodesAppend(m', cs, [Chunk(growth, false, 0)], 0);
    forall b | b in Live(cs, 0) ensures Same(m, m', b.addr + HEADER, b.addr + b.size) {
      LiveDisjoint(cs, 0, b, b);
    }
  }

  /** Stores confined to a chunk leave the payload of every other chunk alone. */
  lemma {:induction false} OutsideChunkKept(m: seq<u8>, m': seq<u8>, cs: seq<Chunk>, i: nat)
    requires i < |cs| && !cs[i].used && WellFormed(cs)
    requires Same(m, m', 0, Addr(cs, i)) && Same(m, m', Addr(cs, i) + cs[i].size, |m|)
    ensures PayloadsKept(m, m', Live(cs, 0))
  {
    forall b | b in Live(cs, 0) ensures Same(m, m', b.addr + HEADER, b.addr + b.size) {
      var j := LiveIsChunk(cs, 0, b);
      if j < i {
        ChunksDisjoint(cs, j, i);
      } else {
        ChunksDisjoint(cs, i, j);
      }
    }
  }

  /** A store inside the payload of a live block leaves the chunk list as it is. */
  lemma {:induction false} PayloadStoreKeepsHeap(m: seq<u8>, cs: seq<Chunk>, b: Block, x: nat, v: u8)
    requires Encodes(m, cs, 0) && WellFormed(cs) && Total(cs) <= |m|
    requires b in Live(cs, 0) && b.addr + HEADER <= x < b.addr + b.size
    ensures x < |m| && Encodes(m[x := v], cs, 0)
  {
    var i := LiveIsChunk(cs, 0, b);
    ChunkInside(cs, i);
    EncodesAt(m, cs, i);
    var m' := m[x := v];
    ReadUnchanged(m, m', b.addr);
    assert Encodes(m', [cs[i]], b.addr);
    assert cs == cs[..i] + [cs[i]] + cs[i + 1..];
    assert Total([cs[i]]) == cs[i].size;
    ReplaceMiddle(m, m', cs[..i], [cs[i]], [cs[i]], cs[i + 1..]);
  }

  /** Header i has been rewritten so that it spans chunks i..e; nothing else has changed. */
  ghost predicate Merging(m: seq<u8>, m': seq<u8>, cs: seq<Chunk>, i: nat, e: nat, used: bool) {
    && Encodes(m, cs, 0) && WellFormed(cs) && Total(cs) <= |m| && Total(cs) < USED_BIT
    && i < e <= |cs|
    && Total(cs[i..e]) < USED_BIT
    && Stored(m, m', Addr(cs, i), Header(Total(cs[i..e]), used))
  }

  /** Where the merge loop looks next, and what it finds there. */
  lemma {:induction false} MergingAt(m: seq<u8>, m': seq<u8>, cs: seq<Chunk>, i: nat, e: nat, used: bool)
    requires Merging(m, m', cs, i, e, used)
    ensures SizeField(Read32(m', Addr(cs, i))) == Total(cs[i..e]) && UsedField(Read32(m', Addr(cs, i))) == used
    ensures Addr(cs, i) + Total(cs[i..e]) == Addr(cs, e)
    ensures Addr(cs, e) < Total(cs) <==> e < |cs|
    ensures e < |cs| ==> && Addr(cs, e) + 4 <= |m'|
                         && SizeField(Read32(m', Addr(cs, e))) == cs[e].size
                         && UsedField(Read32(m', Addr(cs, e))) == cs[e].used
                         && Total(cs[i..e + 1]) == Total(cs[i..e]) + cs[e].size < USED_BIT
  {
    AddrMonotone(cs, i, e);
    AtLimit(cs, e);
    if e < |cs| {
      FieldsAt(m, cs, e);
      ChunksDisjoint(cs, i, e);
      ReadUnchanged(m, m', Addr(cs, e));
      AddrNext(cs, e);
      AddrMonotone(cs, i, e + 1);
      ChunkInside(cs, e);
    } else {
      AddrLimit(cs);
    }
  }

  /** One round of the merge loop. */
  lemma {:induction false} MergeStep(m: seq<u8>, m1: seq<u8>, m': seq<u8>, cs: seq<Chunk>, i: nat, e: nat, used: bool)
    requires Merging(m, m1, cs, i, e, used) && e < |cs| && Total(cs[i..e]) + cs[e].size < USED_BIT
    requires Stored(m1, m', Addr(cs, i), Header(Total(cs[i..e]) + cs[e].size, used))
    ensures Merging(m, m', cs, i, e + 1, used)
  {
    MergingAt(m, m1, cs, i, e, used);
  }

  /**
   The loop that kfree and free share: extend chunk i over the free chunks that follow it.
   limit is the end of the heap.
   */
  method MergeForward(m: seq<u8>, ghost m0: seq<u8>, chunk: nat, limit: nat, ghost cs: seq<Chunk>, ghost i: nat,
                      ghost used: bool)
    returns (m': seq<u8>)
    requires i < |cs| && chunk == Addr(cs, i) && limit == Total(cs)
    requires Merging(m0, m, cs, i, i + 1, used)
    ensures Merging(m0, m', cs, i, FreeRun(cs, i + 1), used)
  {
    m' := m;
    ghost var e := i + 1;
    MergingAt(m0, m', cs, i, e, used);
    var other := chunk + SizeField(Read32(m', chunk));
    while other < limit && !UsedField(Read32(m', other))
      invariant Merging(m0, m', cs, i, e, used) && FreeRun(cs, i + 1) == FreeRun(cs, e)
      invariant other == Addr(cs, e) && (other < limit <==> e < |cs|)
      invariant SizeField(Read32(m', chunk)) == Total(cs[i..e]) && UsedField(Read32(m', chunk)) == used
      invariant e < |cs| ==> && other + 4 <= |m'|
                             && SizeField(Read32(m', other)) == cs[e].size
                             && UsedField(Read32(m', other)) == cs[e].used
                             && Total(cs[i..e]) + cs[e].size < USED_BIT
      decreases |cs| - e
    {
      var m1 := SetSize(m', chunk, SizeField(Read32(m', chunk)) + SizeField(Read32(m', other)));
      MergeStep(m0, m', m1, cs, i, e, used);
      m', e := m1, e + 1;
      MergingAt(m0, m', cs, i, e, used);
      other := chunk + SizeField(Read32(m', chunk));
    }
  }

  /**
   The search both allocators share: follow the headers to the first free chunk of realsize bytes,
   or to the end of the heap.
   */
  method FindFit(m: seq<u8>, limit: nat, realsize: nat, ghost cs: seq<Chunk>) returns (chunk: nat)
    requires Encodes(m, cs, 0) && WellFormed(cs) && limit == Total(cs) <= |m|
    ensures chunk == Addr(cs, FirstFit(cs, realsize))
    ensures chunk == limit <==> FirstFit(cs, realsize) == |cs|
  {
    chunk := 0;
    ghost var k := 0;
    AtLimit(cs, 0);
    while chunk != limit
      invariant k <= |cs| && chunk == Addr(cs, k) && (chunk == limit <==> k == |cs|)
      invariant forall j :: 0 <= j < k ==> !Fits(cs[j], realsize)
      decreases |cs| - k
    {
      FieldsAt(m, cs, k);
      if !UsedField(Read32(m, chunk)) && SizeField(Read32(m, chunk)) >= realsize {
        return;
      }
      AddrNext(cs, k);
      chunk := chunk + SizeField(Read32(m, chunk));
      k := k + 1;
      AtLimit(cs, k);
    }
  }

  /** The end of both allocators: take the chunk whole, or split it when the rest can hold a chunk. */
  method CarveChunk(m: seq<u8>, chunk: nat, realsize: nat, ghost cs: seq<Chunk>, ghost i: nat) returns (m': seq<u8>)
    requires Encodes(m, cs, 0) && WellFormed(cs) && Total(cs) <= |m|
    requires i < |cs| && Fits(cs[i], realsize) && chunk == Addr(cs, i) && realsize >= MINSIZE
    ensures Encodes(m', Take(cs, i, realsize), 0)
    ensures PayloadsKept(m, m', Live(cs, 0))
  {
    EncodesAt(m, cs, i);
    ChunkInside(cs, i);
    var size := SizeField(Read32(m, chunk));
    if size - realsize < MINSIZE {
      m' := SetUsed(m, chunk, true);
      TakeWhole(m, m', cs, i, realsize);
    } else {
      var m1 := SetHeader(m, chunk + realsize, size - realsize, false);
      m' := SetHeader(m1, chunk, realsize, true);
      TakeSplit(m, m1, m', cs, i, realsize);
    }
  }

  /** The walk after the merge loop and the store to the used bit meets the merged chunk. */
  lemma {:induction false} MergeDone(m: seq<u8>, m': seq<u8>, cs: seq<Chunk>, i: nat, e: nat)
    requires Merging(m, m', cs, i, e, false)
    ensures Encodes(m', cs[..i] + [Chunk(Total(cs[i..e]), false, 0)] + cs[e..], 0)
    ensures PayloadsKept(m, m', Live(cs, 0))
  {
    var c := Chunk(Total(cs[i..e]), false, 0);
    assert cs == cs[..i] + cs[i..e] + cs[e..];
    assert Total([c]) == Total(cs[i..e]);
    OneEncodes(m', Addr(cs, i), c);
    AddrMonotone(cs, i, e);
    ChunksDisjoint(cs, i, e);
    ReplaceMiddle(m, m', cs[..i], cs[i..e], [c], cs[e..]);
    HeaderStoreKeepsPayloads(m, m', cs, i);
  }

  /** Header stores touch no payload. */
  lemma {:induction false} HeaderStoreKeepsPayloads(m: seq<u8>, m': seq<u8>, cs: seq<Chunk>, i: nat)
    requires WellFormed(cs) && i < |cs|
    requires Same(m, m', 0, Addr(cs, i)) && Same(m, m', Addr(cs, i) + 4, |m|)
    ensures PayloadsKept(m, m', Live(cs, 0))
  {
    forall b | b in Live(cs, 0) ensures Same(m, m', b.addr + HEADER, b.addr + b.size) {
      var j := LiveIsChunk(cs, 0, b);
      if j < i {
        ChunksDisjoint(cs, j, i);
      } else if i < j {
        ChunksDisjoint(cs, i, j);
      }
    }
  }
}
