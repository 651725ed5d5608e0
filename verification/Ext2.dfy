/**
 kern/ext2.c over kern/disk.c: reading a whole file through direct, single, double and triple
 indirect blocks.  The disk is a sequence of bytes.
 */
module Ext2 {
  import opened Layout
  import opened Words

  const SECTOR := 512
  /** Disk offsets are C ints. */
  const OFFSET_LIMIT := 0x8000_0000

  /** What the drive delivers at byte o; past the end of the image some fixed filler. */
  function ByteAt(img: seq<u8>, o: nat): u8 {
    if o < |img| then img[o] else 0
  }

  function Span(img: seq<u8>, o: nat, n: nat): seq<u8> {
    seq<u8>(n, i requires 0 <= i < n => ByteAt(img, o + i))
  }

  // ---- kern/disk.c

  /** The drive's sector count register has 8 bits, 0 standing for 256. */
  const MAX_SECTORS := 256

  /** bl_read: count sectors from sector number on, one 16-bit word at a time. */
  method BlRead(img: seq<u8>, sector: nat, count: nat, buf: array<u8>)
    requires buf.Length == SECTOR * count && 1 <= count <= MAX_SECTORS && sector < 0x1000_0000
    modifies buf
    ensures buf[..] == Span(img, SECTOR * sector, SECTOR * count)
    ensures forall i :: 0 <= i < buf.Length && 512 * sector + i < |img| ==> buf[i] == img[512 * sector + i]
  {
    for idx := 0 to 256 * count
      invariant forall i :: 0 <= i < 2 * idx ==> buf[i] == ByteAt(img, SECTOR * sector + i)
    {
      var o := SECTOR * sector + 2 * idx;
      var word := (ByteAt(img, o) as int) + 256 * (ByteAt(img, o + 1) as int);
      buf[idx * 2] := word % 256;
      buf[idx * 2 + 1] := word / 256;
    }
  }

  /** disk_read: whole sectors are read and the wanted bytes are cut out, wherever they start. */
  method DiskRead(img: seq<u8>, offset: nat, count: nat) returns (buf: seq<u8>)
    requires offset + count < OFFSET_LIMIT && count <= (MAX_SECTORS - 2) * SECTOR
    ensures buf == Span(img, offset, count)
    ensures |buf| == count && forall i :: 0 <= i < count && offset + i < |img| ==> buf[i] == img[offset + i]
  {
    var begin := offset / SECTOR;
    var end := (offset + count) / SECTOR;
    var blocks := end - begin + 1;
    var sectors := new u8[blocks * SECTOR];
    BlRead(img, begin, blocks, sectors);
    buf := sectors[offset % SECTOR..offset % SECTOR + count];
  }

  // ---- the file system

  /** First sector of the partition, and block size, at most the 64 KiB of ext2. */
  datatype Volume = Volume(img: seq<u8>, lba: nat, bs: nat) {
    predicate Valid() { 4 <= bs <= 0x1_0000 && bs % 4 == 0 }

    function Offset(b: nat): nat { lba * SECTOR + b * bs }

    function Block(b: nat): seq<u8> { Span(img, Offset(b), bs) }

    /** Block numbers per indirect block. */
    function N(): nat
      requires Valid()
      ensures N() > 0
    {
      bs / 4
    }

    /** The block numbers stored in indirect block b. */
    function Table(b: nat): (t: seq<nat>)
      requires Valid()
      ensures |t| == N()
    {
      var blk := Block(b);
      seq(N(), i requires 0 <= i < N() => Read32(blk, 4 * i))
    }
  }

  /** The part of an inode that matters: i_size and i_block. */
  datatype Inode = Inode(size: nat, block: seq<nat>) {
    predicate Valid() { size < OFFSET_LIMIT && |block| == 15 }
  }

  /**
   The data blocks ext2_read_file visits below the block numbers entries, level levels of
   indirection down: each loop ends at its first zero.
   */
  function Leaves(v: Volume, entries: seq<nat>, level: nat): seq<nat>
    requires v.Valid()
    decreases level, |entries|
  {
    if entries == [] || entries[0] == 0 then []
    else
      (if level == 0 then [entries[0]] else Leaves(v, v.Table(entries[0]), level - 1)) + Leaves(v, entries[1..], level)
  }

  function Visited(v: Volume, ino: Inode): seq<nat>
    requires v.Valid() && ino.Valid()
  {
    Leaves(v, ino.block[..12], 0) + Leaves(v, [ino.block[12]], 1) +
    Leaves(v, [ino.block[13]], 2) + Leaves(v, [ino.block[14]], 3)
  }

  function Data(v: Volume, blocks: seq<nat>): seq<u8> {
    if blocks == [] then [] else v.Block(blocks[0]) + Data(v, blocks[1..])
  }

  function Min(a: nat, b: nat): nat { if a < b then a else b }

  /** Every block number met on the way is inside the volume, so offsets stay below 2^31. */
  predicate InVolume(v: Volume, entries: seq<nat>, level: nat)
    requires v.Valid()
    decreases level, |entries|
  {
    entries == [] || entries[0] == 0 ||
    (&& v.Offset(entries[0]) + v.bs < OFFSET_LIMIT
     && (level > 0 ==> InVolume(v, v.Table(entries[0]), level - 1))
     && InVolume(v, entries[1..], level))
  }

  predicate FileInVolume(v: Volume, ino: Inode)
    requires v.Valid() && ino.Valid()
  {
    InVolume(v, ino.block[..12], 0) && InVolume(v, [ino.block[12]], 1) &&
    InVolume(v, [ino.block[13]], 2) && InVolume(v, [ino.block[14]], 3)
  }

  // ---- the code

  lemma {:induction false} DataAppend(v: Volume, a: seq<nat>, b: seq<nat>)
    ensures Data(v, a + b) == Data(v, a) + Data(v, b)
  {
    if a == [] {
      assert a + b == b;
    } else {
      assert (a + b)[1..] == a[1..] + b;
      DataAppend(v, a[1..], b);
    }
  }

  lemma {:induction false} DataLength(v: Volume, blocks: seq<nat>)
    ensures |Data(v, blocks)| == |blocks| * v.bs
  {
    if blocks != [] {
      DataLength(v, blocks[1..]);
    }
  }

  /** The first head bytes of the buffer hold the blocks visited so far, cut at the size of the file. */
  ghost predicate Filled(v: Volume, size: nat, mmap: seq<u8>, head: nat, done: seq<nat>) {
    && |mmap| == size
    && head == Min(size, |Data(v, done)|)
    && mmap[..head] == Data(v, done)[..head]
  }

  /** The five lines around every memcpy: read a block, copy as much of it as the file still needs. */
  method CopyBlock(v: Volume, size: nat, mmap: array<u8>, head: nat, b: nat, ghost done: seq<nat>) returns (head': nat)
    requires v.Valid() && Filled(v, size, mmap[..], head, done) && v.Offset(b) + v.bs < OFFSET_LIMIT
    modifies mmap
    ensures Filled(v, size, mmap[..], head', done + [b])
  {
    var buf := DiskRead(v.img, v.Offset(b), v.bs);
    var left := size - head;
    var n := if left > v.bs then v.bs else left;
    for i := 0 to n
      invariant mmap[..head] == old(mmap[..head])
      invariant forall j :: 0 <= j < i ==> mmap[head + j] == buf[j]
    {
      mmap[head + i] := buf[i];
    }
    head' := head + n;
    DataAppend(v, done, [b]);
    assert Data(v, [b]) == v.Block(b) by { assert [b][1..] == []; assert Data(v, []) == []; }
    CopiedIs(v, size, old(mmap[..]), mmap[..], head, n, done, b);
  }

  lemma CopiedIs(v: Volume, size: nat, m: seq<u8>, m': seq<u8>, head: nat, n: nat, done: seq<nat>, b: nat)
    requires Filled(v, size, m, head, done) && |m'| == size && n == Min(size - head, v.bs)
    requires m'[..head] == m[..head] && (forall j :: 0 <= j < n ==> m'[head + j] == v.Block(b)[j])
    requires Data(v, done + [b]) == Data(v, done) + v.Block(b)
    ensures Filled(v, size, m', head + n, done + [b])
  {
    var d, d' := Data(v, done), Data(v, done + [b]);
    if head < |d| {
      assert n == 0;
      assert d'[..head] == d[..head];
    } else {
      assert d[..head] == d;
      assert d'[..head + n] == d + v.Block(b)[..n];
      assert m'[..head + n] == m'[..head] + m'[head..head + n];
      assert m'[head..head + n] == v.Block(b)[..n];
    }
  }

  /**
   The loops of ext2_read_file below a list of block numbers: data blocks at level 0, a table
   read and the next inner loop at higher levels.
   */
  method CopyEntries(v: Volume, size: nat, mmap: array<u8>, head: nat, entries: seq<nat>, level: nat,
                     ghost done: seq<nat>)
    returns (head': nat)
    requires v.Valid() && Filled(v, size, mmap[..], head, done) && InVolume(v, entries, level)
    modifies mmap
    ensures Filled(v, size, mmap[..], head', done + Leaves(v, entries, level))
    decreases level
  {
    head' := head;
    var i := 0;
    ghost var seen := done;
    assert entries[0..] == entries;
    while i < |entries| && entries[i] != 0
      invariant 0 <= i <= |entries| && InVolume(v, entries[i..], level)
      invariant Filled(v, size, mmap[..], head', seen)
      invariant seen + Leaves(v, entries[i..], level) == done + Leaves(v, entries, level)
    {
      var b := entries[i];
      ghost var rest := entries[i..];
      assert rest[0] == b && rest[1..] == entries[i + 1..];
      if level == 0 {
        head' := CopyBlock(v, size, mmap, head', b, seen);
        seen := seen + [b];
      } else {
        var table := ReadTable(v, b);
        head' := CopyEntries(v, size, mmap, head', table, level - 1, seen);
        seen := seen + Leaves(v, table, level - 1);
      }
      i := i + 1;
    }
    assert Leaves(v, entries[i..], level) == [];
    assert seen == done + Leaves(v, entries, level);
  }

  /** disk_read of an indirect block into an array of block numbers. */
  method ReadTable(v: Volume, b: nat) returns (t: seq<nat>)
    requires v.Valid() && v.Offset(b) + v.bs < OFFSET_LIMIT
    ensures t == v.Table(b)
  {
    var buf := DiskRead(v.img, v.Offset(b), v.bs);
    t := [];
    for i := 0 to v.bs / 4
      invariant |t| == i && t == v.Table(b)[..i]
    {
      t := t + [Read32(buf, 4 * i)];
    }
  }

  /** The four parts of ext2_read_file. */
  method CopyFile(v: Volume, ino: Inode) returns (mmap: array<u8>, copied: nat)
    requires v.Valid() && ino.Valid() && FileInVolume(v, ino)
    ensures mmap.Length == ino.size
    ensures copied == Min(ino.size, |Data(v, Visited(v, ino))|)
    ensures mmap[..copied] == Data(v, Visited(v, ino))[..copied]
  {
    mmap := new u8[ino.size];
    assert Data(v, []) == [];
    copied := CopyEntries(v, ino.size, mmap, 0, ino.block[..12], 0, []);
    ghost var done := [] + Leaves(v, ino.block[..12], 0);
    copied := CopyEntries(v, ino.size, mmap, copied, [ino.block[12]], 1, done);
    done := done + Leaves(v, [ino.block[12]], 1);
    copied := CopyEntries(v, ino.size, mmap, copied, [ino.block[13]], 2, done);
    done := done + Leaves(v, [ino.block[13]], 2);
    copied := CopyEntries(v, ino.size, mmap, copied, [ino.block[14]], 3, done);
    done := done + Leaves(v, [ino.block[14]], 3);
    assert done == Visited(v, ino);
  }

  /** ext2_read_file; o is any byte of the file, byte r of block k. */
  method ReadFile(v: Volume, ino: Inode, ghost o: nat, ghost k: nat, ghost r: nat)
    returns (mmap: array<u8>, copied: nat)
    requires v.Valid() && ino.Valid() && FileInVolume(v, ino)
    ensures mmap.Length == ino.size
    ensures copied == Min(ino.size, |Data(v, Visited(v, ino))|)
    ensures mmap[..copied] == Data(v, Visited(v, ino))[..copied]
    ensures HoleFree(v, ino) ==> copied == ino.size && forall o :: 0 <= o < copied ==> mmap[o] == FileByte(v, ino, o)
    ensures HoleFree(v, ino) && r < v.bs && o == k * v.bs + r && o < ino.size ==>
              && k < MaxBlocks(v)
              && var at := v.lba * 512 + BlockNumber(v, ino, k) * v.bs + r;
                 at < |v.img| ==> mmap[o] == v.img[at]
  {
    mmap, copied := CopyFile(v, ino);
    if HoleFree(v, ino) {
      HoleFreeData(v, ino);
      assert forall o :: 0 <= o < copied ==> mmap[o] == mmap[..copied][o];
      if r < v.bs && o == k * v.bs + r && o < ino.size {
        ReadByteIs(v, ino, o, k, r);
      }
    }
  }

  // ---- random access

  function Pow(n: nat, k: nat): (p: nat)
    requires n > 0
    ensures p > 0
  {
    if k == 0 then 1 else n * Pow(n, k - 1)
  }

  /** Block number k below block b, level levels down, by index arithmetic; 0 for a hole. */
  function Lookup(v: Volume, b: nat, level: nat, k: nat): nat
    requires v.Valid() && k < Pow(v.N(), level)
    decreases level
  {
    if b == 0 then 0
    else if level == 0 then b
    else
      var p := Pow(v.N(), level - 1);
      DivBound(k, p, v.N());
      Lookup(v, v.Table(b)[k / p], level - 1, k % p)
  }

  /** The most blocks a file can have. */
  function MaxBlocks(v: Volume): nat
    requires v.Valid()
  {
    12 + Pow(v.N(), 1) + Pow(v.N(), 2) + Pow(v.N(), 3)
  }

  /** Block number k of a file: direct, single, double or triple indirect. */
  function BlockNumber(v: Volume, ino: Inode, k: nat): nat
    requires v.Valid() && ino.Valid() && k < MaxBlocks(v)
  {
    var n1, n2 := Pow(v.N(), 1), Pow(v.N(), 2);
    if k < 12 then ino.block[k]
    else if k - 12 < n1 then Lookup(v, ino.block[12], 1, k - 12)
    else if k - 12 - n1 < n2 then Lookup(v, ino.block[13], 2, k - 12 - n1)
    else Lookup(v, ino.block[14], 3, k - 12 - n1 - n2)
  }

  /** Every byte of the file has a block. */
  predicate HoleFree(v: Volume, ino: Inode)
    requires v.Valid() && ino.Valid()
  {
    && ino.size <= MaxBlocks(v) * v.bs
    && forall k :: 0 <= k < MaxBlocks(v) && k * v.bs < ino.size ==> BlockNumber(v, ino, k) != 0
  }

  lemma DivBound(k: nat, p: nat, n: nat)
    requires p > 0 && k < n * p
    ensures k / p < n
  {
    var q := k / p;
    assert k >= q * p;
    assert q >= n ==> q * p >= n * p;
  }

  lemma DivStep(j: nat, p: nat)
    requires j >= p > 0
    ensures j / p == (j - p) / p + 1 && j % p == (j - p) % p
  {
    var q, r := (j - p) / p, (j - p) % p;
    assert j == q * p + r + p;
    assert (q + 1) * p == q * p + p;
    DivUnique(j, p, q + 1, r);
  }

  /** Leaves below the block numbers entries: number k is number k % p below entry k / p. */
  function LookupIn(v: Volume, entries: seq<nat>, level: nat, k: nat): nat
    requires v.Valid() && k < |entries| * Pow(v.N(), level)
  {
    var p := Pow(v.N(), level);
    DivBound(k, p, |entries|);
    Lookup(v, entries[k / p], level, k % p)
  }

  /** The subtree of one entry. */
  function Subtree(v: Volume, b: nat, level: nat): seq<nat>
    requires v.Valid()
  {
    if b == 0 then [] else if level == 0 then [b] else Leaves(v, v.Table(b), level - 1)
  }

  lemma OneMore(n: nat, p: nat)
    requires n > 0
    ensures n * p == p + (n - 1) * p
  {
  }

  lemma {:induction false} LeavesBound(v: Volume, entries: seq<nat>, level: nat)
    requires v.Valid()
    ensures |Leaves(v, entries, level)| <= |entries| * Pow(v.N(), level)
    decreases level, |entries|
  {
    if entries != [] && entries[0] != 0 {
      LeavesBound(v, entries[1..], level);
      OneMore(|entries|, Pow(v.N(), level));
      if level > 0 {
        LeavesBound(v, v.Table(entries[0]), level - 1);
      }
    }
  }

  lemma SmallDiv(k: nat, p: nat)
    requires k < p
    ensures k / p == 0 && k % p == k
  {
    DivUnique(k, p, 0, k);
  }

  lemma ShorterBound(n: nat, p: nat, k: nat)
    requires n > 0 && p <= k < n * p
    ensures k - p < (n - 1) * p
  {
    assert n * p == p + (n - 1) * p;
  }

  /** Peeling the first entry off a lookup. */
  lemma LookupInFirst(v: Volume, entries: seq<nat>, level: nat, k: nat)
    requires v.Valid() && entries != [] && k < |entries| * Pow(v.N(), level) && k < Pow(v.N(), level)
    ensures LookupIn(v, entries, level, k) == Lookup(v, entries[0], level, k)
  {
    SmallDiv(k, Pow(v.N(), level));
  }

  lemma LookupInRest(v: Volume, entries: seq<nat>, level: nat, k: nat)
    requires v.Valid() && entries != [] && Pow(v.N(), level) <= k < |entries| * Pow(v.N(), level)
    ensures var p := Pow(v.N(), level);
            k - p < |entries[1..]| * p && LookupIn(v, entries, level, k) == LookupIn(v, entries[1..], level, k - p)
  {
    var p := Pow(v.N(), level);
    ShorterBound(|entries|, p, k);
    DivStep(k, p);
    DivBound(k, p, |entries|);
    DivBound(k - p, p, |entries[1..]|);
    assert entries[k / p] == entries[1..][(k - p) / p];
  }

  lemma LookupInStep(v: Volume, entries: seq<nat>, level: nat, k: nat)
    requires v.Valid() && entries != [] && k < |entries| * Pow(v.N(), level)
    ensures var p := Pow(v.N(), level);
            && (k < p ==> LookupIn(v, entries, level, k) == Lookup(v, entries[0], level, k))
            && (k >= p ==> && k - p < |entries[1..]| * p
                           && LookupIn(v, entries, level, k) == LookupIn(v, entries[1..], level, k - p))
  {
    if k < Pow(v.N(), level) {
      LookupInFirst(v, entries, level, k);
    } else {
      LookupInRest(v, entries, level, k);
    }
  }

  /**
   The walk agrees with the index arithmetic: if the first k + 1 lookups find no hole, leaf k of the
   walk is lookup k.
   */
  lemma {:induction false} LeavesAreLookups(v: Volume, entries: seq<nat>, level: nat, k: nat)
    requires v.Valid() && k < |entries| * Pow(v.N(), level)
    requires forall j :: 0 <= j <= k ==> LookupIn(v, entries, level, j) != 0
    ensures k < |Leaves(v, entries, level)| && Leaves(v, entries, level)[k] == LookupIn(v, entries, level, k)
    decreases level, 2, |entries|
  {
    var p := Pow(v.N(), level);
    LookupInStep(v, entries, level, 0);
    assert entries[0] != 0;
    LookupInStep(v, entries, level, k);
    if k < p {
      forall j | 0 <= j <= k ensures Lookup(v, entries[0], level, j) != 0 {
        LookupInStep(v, entries, level, j);
      }
      SubtreeLookup(v, entries[0], level, k);
    } else {
      forall j | 0 <= j <= p - 1 ensures Lookup(v, entries[0], level, j) != 0 {
        LookupInStep(v, entries, level, j);
      }
      SubtreeFull(v, entries[0], level);
      forall j | 0 <= j <= k - p ensures LookupIn(v, entries[1..], level, j) != 0 {
        LookupInStep(v, entries, level, j + p);
      }
      LeavesAreLookups(v, entries[1..], level, k - p);
    }
  }

  lemma {:induction false} SubtreeLookup(v: Volume, b: nat, level: nat, k: nat)
    requires v.Valid() && k < Pow(v.N(), level)
    requires forall j :: 0 <= j <= k ==> Lookup(v, b, level, j) != 0
    ensures k < |Subtree(v, b, level)| && Subtree(v, b, level)[k] == Lookup(v, b, level, k)
    decreases level, 0, 0
  {
    assert Lookup(v, b, level, 0) != 0;
    if level > 0 {
      var t, l := v.Table(b), level - 1;
      assert Pow(v.N(), level) == |t| * Pow(v.N(), l);
      forall j | 0 <= j <= k ensures LookupIn(v, t, l, j) != 0 {
        LookupBelow(v, b, level, j);
      }
      LookupBelow(v, b, level, k);
      LeavesAreLookups(v, v.Table(b), level - 1, k);
    }
  }

  /** A lookup below an indirect block is a lookup in its table. */
  lemma LookupBelow(v: Volume, b: nat, level: nat, j: nat)
    requires v.Valid() && b != 0 && level > 0 && j < Pow(v.N(), level)
    ensures j < |v.Table(b)| * Pow(v.N(), level - 1)
    ensures LookupIn(v, v.Table(b), level - 1, j) == Lookup(v, b, level, j)
  {
  }

  lemma {:induction false} SubtreeFull(v: Volume, b: nat, level: nat)
    requires v.Valid()
    requires forall j :: 0 <= j < Pow(v.N(), level) ==> Lookup(v, b, level, j) != 0
    ensures |Subtree(v, b, level)| == Pow(v.N(), level)
    decreases level, 1, 0
  {
    SubtreeLookup(v, b, level, Pow(v.N(), level) - 1);
    if b != 0 && level > 0 {
      LeavesBound(v, v.Table(b), level - 1);
    }
  }

  lemma {:induction false} OneEntry(v: Volume, b: nat, level: nat)
    requires v.Valid()
    ensures Leaves(v, [b], level) == Subtree(v, b, level)
  {
    assert [b][1..] == [];
    assert Leaves(v, [], level) == [];
  }

  lemma {:induction false} DirectLeaves(v: Volume, entries: seq<nat>, k: nat)
    requires v.Valid() && k < |entries| && forall j :: 0 <= j <= k ==> entries[j] != 0
    ensures k < |Leaves(v, entries, 0)| <= |entries| && Leaves(v, entries, 0)[k] == entries[k]
  {
    LeavesBound(v, entries, 0);
    if k > 0 {
      DirectLeaves(v, entries[1..], k - 1);
    }
  }

  /** The four stretches of a file: number k of a file without holes up to k is entry k of the walk. */
  lemma {:induction false} VisitedIsBlockNumber(v: Volume, ino: Inode, k: nat)
    requires v.Valid() && ino.Valid() && k < MaxBlocks(v)
    requires forall j :: 0 <= j <= k ==> BlockNumber(v, ino, j) != 0
    ensures k < |Visited(v, ino)| && Visited(v, ino)[k] == BlockNumber(v, ino, k)
  {
    var n1, n2 := Pow(v.N(), 1), Pow(v.N(), 2);
    DirectStretch(v, ino, k);
    VisitedParts(v, ino);
    if k >= 12 {
      SingleStretch(v, ino, k);
      if k >= 12 + n1 {
        DoubleStretch(v, ino, k);
        if k >= 12 + n1 + n2 {
          TripleStretch(v, ino, k);
        }
      }
    }
    Assembled(Leaves(v, ino.block[..12], 0), Subtree(v, ino.block[12], 1), Subtree(v, ino.block[13], 2),
              Subtree(v, ino.block[14], 3), n1, n2, k, BlockNumber(v, ino, k));
  }

  lemma VisitedParts(v: Volume, ino: Inode)
    requires v.Valid() && ino.Valid()
    ensures Visited(v, ino) == Leaves(v, ino.block[..12], 0) + Subtree(v, ino.block[12], 1) +
                               Subtree(v, ino.block[13], 2) + Subtree(v, ino.block[14], 3)
  {
    OneEntry(v, ino.block[12], 1);
    OneEntry(v, ino.block[13], 2);
    OneEntry(v, ino.block[14], 3);
  }

  /** Element k of four sequences put one after the other, the first three of known length as far as k reaches. */
  lemma Assembled(a: seq<nat>, b: seq<nat>, c: seq<nat>, d: seq<nat>, n1: nat, n2: nat, k: nat, x: nat)
    requires k < 12 ==> k < |a| && a[k] == x
    requires k >= 12 ==> |a| == 12
    requires 12 <= k < 12 + n1 ==> k - 12 < |b| && b[k - 12] == x
    requires k >= 12 + n1 ==> |b| == n1
    requires 12 + n1 <= k < 12 + n1 + n2 ==> k - 12 - n1 < |c| && c[k - 12 - n1] == x
    requires k >= 12 + n1 + n2 ==> |c| == n2 && k - 12 - n1 - n2 < |d| && d[k - 12 - n1 - n2] == x
    ensures k < |a + b + c + d| && (a + b + c + d)[k] == x
  {
  }

  lemma {:induction false} SingleStretch(v: Volume, ino: Inode, k: nat)
    requires v.Valid() && ino.Valid() && 12 <= k < MaxBlocks(v)
    requires forall j :: 0 <= j <= k ==> BlockNumber(v, ino, j) != 0
    ensures StretchFits(v, ino, ino.block[12], 1, 12, k)
  {
    Stretch(v, ino, ino.block[12], 1, 12, k);
  }

  lemma {:induction false} DoubleStretch(v: Volume, ino: Inode, k: nat)
    requires v.Valid() && ino.Valid() && 12 + Pow(v.N(), 1) <= k < MaxBlocks(v)
    requires forall j :: 0 <= j <= k ==> BlockNumber(v, ino, j) != 0
    ensures StretchFits(v, ino, ino.block[13], 2, 12 + Pow(v.N(), 1), k)
  {
    Stretch(v, ino, ino.block[13], 2, 12 + Pow(v.N(), 1), k);
  }

  lemma {:induction false} TripleStretch(v: Volume, ino: Inode, k: nat)
    requires v.Valid() && ino.Valid() && 12 + Pow(v.N(), 1) + Pow(v.N(), 2) <= k < MaxBlocks(v)
    requires forall j :: 0 <= j <= k ==> BlockNumber(v, ino, j) != 0
    ensures StretchFits(v, ino, ino.block[14], 3, 12 + Pow(v.N(), 1) + Pow(v.N(), 2), k)
  {
    Stretch(v, ino, ino.block[14], 3, 12 + Pow(v.N(), 1) + Pow(v.N(), 2), k);
  }

  /** The direct blocks. */
  lemma {:induction false} DirectStretch(v: Volume, ino: Inode, k: nat)
    requires v.Valid() && ino.Valid() && k < MaxBlocks(v)
    requires forall j :: 0 <= j <= k ==> BlockNumber(v, ino, j) != 0
    ensures var s := Leaves(v, ino.block[..12], 0);
            (k < 12 ==> k < |s| && s[k] == BlockNumber(v, ino, k)) && (k >= 12 ==> |s| == 12)
  {
    var m := Min(k, 11);
    forall j | 0 <= j <= m ensures ino.block[..12][j] != 0 {
      assert BlockNumber(v, ino, j) == ino.block[j];
    }
    DirectLeaves(v, ino.block[..12], m);
  }

  /** The subtree of b holds number k of the file, or is full if the file goes on beyond it. */
  predicate StretchFits(v: Volume, ino: Inode, b: nat, level: nat, from: nat, k: nat)
    requires v.Valid() && ino.Valid() && from <= k < MaxBlocks(v)
  {
    var p := Pow(v.N(), level);
    && (k - from < p ==> k - from < |Subtree(v, b, level)| && Subtree(v, b, level)[k - from] == BlockNumber(v, ino, k))
    && (k - from >= p ==> |Subtree(v, b, level)| == p)
  }

  /** One indirect stretch, starting at block number from of the file. */
  lemma {:induction false} Stretch(v: Volume, ino: Inode, b: nat, level: nat, from: nat, k: nat)
    requires v.Valid() && ino.Valid() && from <= k < MaxBlocks(v)
    requires forall j :: 0 <= j <= k ==> BlockNumber(v, ino, j) != 0
    requires forall j :: from <= j <= k && j - from < Pow(v.N(), level) ==>
               BlockNumber(v, ino, j) == Lookup(v, b, level, j - from)
    ensures StretchFits(v, ino, b, level, from, k)
  {
    var p := Pow(v.N(), level);
    forall j | 0 <= j < p && j <= k - from ensures Lookup(v, b, level, j) != 0 {
      assert BlockNumber(v, ino, j + from) == Lookup(v, b, level, j + from - from);
    }
    if k - from < p {
      SubtreeLookup(v, b, level, k - from);
    } else {
      SubtreeFull(v, b, level);
    }
  }

  lemma {:induction false} DataAt(v: Volume, blocks: seq<nat>, k: nat, r: nat)
    requires k < |blocks| && r < v.bs
    ensures k * v.bs + r < |Data(v, blocks)|
    ensures Data(v, blocks)[k * v.bs + r] == ByteAt(v.img, v.Offset(blocks[k]) + r)
  {
    var first := v.Block(blocks[0]);
    assert |first| == v.bs;
    if k > 0 {
      DataAt(v, blocks[1..], k - 1, r);
      assert k * v.bs == (k - 1) * v.bs + v.bs;
    }
  }

  /** Byte o of what is copied is byte r of block number k of the file. */
  predicate IsByteOf(v: Volume, ino: Inode, o: nat, k: nat, r: nat)
    requires v.Valid() && ino.Valid()
  {
    && k < MaxBlocks(v) && o < |Data(v, Visited(v, ino))|
    && Data(v, Visited(v, ino))[o] == BlockByte(v, ino, k, r)
  }

  /** Byte r of block number k of a file, by index arithmetic. */
  function BlockByte(v: Volume, ino: Inode, k: nat, r: nat): u8
    requires v.Valid() && ino.Valid()
  {
    if k < MaxBlocks(v) then ByteAt(v.img, v.Offset(BlockNumber(v, ino, k)) + r) else 0
  }

  /**
   Byte o = k * bs + r of a file without holes: it is copied, and it is byte r of the block that the
   index arithmetic gives for k.
   */
  lemma {:induction false} ReadIsRandomAccess(v: Volume, ino: Inode, o: nat, k: nat, r: nat)
    requires v.Valid() && ino.Valid() && HoleFree(v, ino) && r < v.bs && o == k * v.bs + r && o < ino.size
    ensures IsByteOf(v, ino, o, k, r)
  {
    Below(k, r, v.bs, MaxBlocks(v));
    forall j | 0 <= j <= k ensures BlockNumber(v, ino, j) != 0 {
      Monotone(j, k, v.bs);
    }
    VisitedIsBlockNumber(v, ino, k);
    DataAt(v, Visited(v, ino), k, r);
  }

  lemma Below(k: nat, r: nat, bs: nat, n: nat)
    requires k * bs + r < n * bs
    ensures k < n
  {
    assert k >= n ==> k * bs >= n * bs;
  }

  lemma Monotone(j: nat, k: nat, bs: nat)
    requires j <= k
    ensures j * bs <= k * bs
  {
  }

  // ---- exactly when

  lemma {:induction false} LeavesNotZero(v: Volume, entries: seq<nat>, level: nat)
    requires v.Valid()
    ensures 0 !in Leaves(v, entries, level)
    decreases level, |entries|
  {
    if entries != [] && entries[0] != 0 {
      LeavesNotZero(v, entries[1..], level);
      if level > 0 {
        LeavesNotZero(v, v.Table(entries[0]), level - 1);
      }
    }
  }

  lemma VisitedNotZero(v: Volume, ino: Inode)
    requires v.Valid() && ino.Valid()
    ensures 0 !in Visited(v, ino)
  {
    LeavesNotZero(v, ino.block[..12], 0);
    LeavesNotZero(v, [ino.block[12]], 1);
    LeavesNotZero(v, [ino.block[13]], 2);
    LeavesNotZero(v, [ino.block[14]], 3);
  }

  /** The block copied at position k is block number k of the file. */
  predicate RightBlock(v: Volume, ino: Inode, k: nat)
    requires v.Valid() && ino.Valid() && k < MaxBlocks(v)
  {
    k < |Visited(v, ino)| && Visited(v, ino)[k] == BlockNumber(v, ino, k)
  }

  /** Reading is random access exactly for the files without holes. */
  lemma {:induction false} RandomAccessExact(v: Volume, ino: Inode)
    requires v.Valid() && ino.Valid() && ino.size <= MaxBlocks(v) * v.bs
    ensures (forall k :: 0 <= k < MaxBlocks(v) && k * v.bs < ino.size ==> RightBlock(v, ino, k)) <==> HoleFree(v, ino)
  {
    VisitedNotZero(v, ino);
    if HoleFree(v, ino) {
      forall k | 0 <= k < MaxBlocks(v) && k * v.bs < ino.size ensures RightBlock(v, ino, k) {
        forall j | 0 <= j <= k ensures BlockNumber(v, ino, j) != 0 {
          Monotone(j, k, v.bs);
        }
        VisitedIsBlockNumber(v, ino, k);
      }
    } else {
      var k :| 0 <= k < MaxBlocks(v) && k * v.bs < ino.size && BlockNumber(v, ino, k) == 0;
      assert !RightBlock(v, ino, k);
    }
  }

  /**
   A hole is closed up, not zero-filled: in a file of 13 blocks whose second direct entry is zero, the bytes of
   block 1 are copied from the first block of the indirect table.
   */
  lemma HoleShiftsExample(v: Volume, b0: nat, b: nat, r: nat)
    requires v.Valid() && b0 != 0 && b != 0 && v.Table(b)[0] != 0 && r < v.bs
    ensures var ino := Inode(13 * v.bs, [b0, 0, b0, b0, b0, b0, b0, b0, b0, b0, b0, b0, b, 0, 0]);
            && ino.Valid() && BlockNumber(v, ino, 1) == 0 && !HoleFree(v, ino)
            && v.bs + r < Min(ino.size, |Data(v, Visited(v, ino))|)
            && Data(v, Visited(v, ino))[v.bs + r] == ByteAt(v.img, v.Offset(v.Table(b)[0]) + r)
  {
    var block := [b0, 0, b0, b0, b0, b0, b0, b0, b0, b0, b0, b0, b, 0, 0];
    var ino := Inode(13 * v.bs, block);
    var e := block[..12];
    assert e[0] == b0 && e[1..][0] == 0;
    assert Leaves(v, e[1..], 0) == [];
    assert Leaves(v, e, 0) == [b0] + Leaves(v, e[1..], 0);
    OneEntry(v, b, 1);
    DirectLeaves(v, v.Table(b), 0);
    assert Visited(v, ino)[1] == v.Table(b)[0];
    DataAt(v, Visited(v, ino), 1, r);
    assert BlockNumber(v, ino, 1) == 0 && 1 * v.bs < ino.size;
  }

  /** Byte o of a file by index arithmetic. */
  function FileByte(v: Volume, ino: Inode, o: nat): u8
    requires v.Valid() && ino.Valid()
  {
    BlockByte(v, ino, o / v.bs, o % v.bs)
  }

  lemma Divided(o: nat, bs: nat) returns (k: nat, r: nat)
    requires bs > 0
    ensures k == o / bs && r == o % bs && o == k * bs + r && r < bs
  {
    k, r := o / bs, o % bs;
  }

  lemma HoleFreeByte(v: Volume, ino: Inode, o: nat)
    requires v.Valid() && ino.Valid() && HoleFree(v, ino) && o < ino.size
    ensures o < |Data(v, Visited(v, ino))| && Data(v, Visited(v, ino))[o] == FileByte(v, ino, o)
  {
    var k, r := Divided(o, v.bs);
    assert IsByteOf(v, ino, o, k, r) by { ReadIsRandomAccess(v, ino, o, k, r); }
  }

  /** What is copied of a file without holes is the whole file. */
  lemma HoleFreeData(v: Volume, ino: Inode)
    requires v.Valid() && ino.Valid() && HoleFree(v, ino)
    ensures ino.size <= |Data(v, Visited(v, ino))|
    ensures forall o :: 0 <= o < ino.size ==> Data(v, Visited(v, ino))[o] == FileByte(v, ino, o)
  {
    forall o | 0 <= o < ino.size
      ensures o < |Data(v, Visited(v, ino))| && Data(v, Visited(v, ino))[o] == FileByte(v, ino, o)
    {
      HoleFreeByte(v, ino, o);
    }
    if ino.size > 0 {
      HoleFreeByte(v, ino, ino.size - 1);
    }
  }

  // ---- the layout on the disk, byte by byte

  /** Byte o = k * bs + r of a file without holes, from the image alone. */
  lemma ReadByteIs(v: Volume, ino: Inode, o: nat, k: nat, r: nat)
    requires v.Valid() && ino.Valid() && HoleFree(v, ino) && r < v.bs && o == k * v.bs + r && o < ino.size
    ensures k < MaxBlocks(v) && o < |Data(v, Visited(v, ino))|
    ensures var at := v.lba * 512 + BlockNumber(v, ino, k) * v.bs + r;
            at < |v.img| ==> Data(v, Visited(v, ino))[o] == v.img[at]
  {
    ReadIsRandomAccess(v, ino, o, k, r);
    assert IsByteOf(v, ino, o, k, r);
    BlockByteIs(v, ino, k, r);
  }

  lemma BlockByteIs(v: Volume, ino: Inode, k: nat, r: nat)
    requires v.Valid() && ino.Valid() && k < MaxBlocks(v)
    ensures var at := v.lba * 512 + BlockNumber(v, ino, k) * v.bs + r;
            at < |v.img| ==> BlockByte(v, ino, k, r) == v.img[at]
  {
  }

  /** Entry i of the table in block b is the little-endian word at byte 4 * i of that block. */
  lemma TableEntry(v: Volume, b: nat, i: nat)
    requires v.Valid() && 4 * i + 4 <= v.bs
    ensures 4 * |v.Table(b)| == v.bs && i < |v.Table(b)|
    ensures var o := v.lba * 512 + b * v.bs + 4 * i;
            && v.Table(b)[i] == Word(ByteAt(v.img, o), ByteAt(v.img, o + 1), ByteAt(v.img, o + 2), ByteAt(v.img, o + 3))
            && (o + 4 <= |v.img| ==>
                  v.Table(b)[i] == (v.img[o] as int) + 0x100 * (v.img[o + 1] as int) +
                                   0x1_0000 * (v.img[o + 2] as int) + 0x100_0000 * (v.img[o + 3] as int))
  {
    var blk, o := v.Block(b), v.lba * 512 + b * v.bs;
    BlockBytes(v, b);
    Read32Is(blk, 4 * i);
    assert blk[4 * i] == ByteAt(v.img, o + 4 * i) && blk[4 * i + 1] == ByteAt(v.img, o + 4 * i + 1);
    assert blk[4 * i + 2] == ByteAt(v.img, o + 4 * i + 2) && blk[4 * i + 3] == ByteAt(v.img, o + 4 * i + 3);
  }

  lemma BlockBytes(v: Volume, b: nat)
    ensures |v.Block(b)| == v.bs
    ensures forall r :: 0 <= r < v.bs ==> v.Block(b)[r] == ByteAt(v.img, v.lba * 512 + b * v.bs + r)
  {
  }

  /** How many blocks a file can have, and the first thirteen to 12 + N. */
  lemma FirstNumbers(v: Volume, ino: Inode, i: nat)
    requires v.Valid() && ino.Valid() && i < v.bs / 4
    ensures var n := v.bs / 4; MaxBlocks(v) == 12 + n + n * n + n * (n * n)
    ensures i < 12 ==> BlockNumber(v, ino, i) == ino.block[i]
    ensures 12 + i < MaxBlocks(v)
    ensures ino.block[12] == 0 ==> BlockNumber(v, ino, 12 + i) == 0
    ensures ino.block[12] != 0 ==> BlockNumber(v, ino, 12 + i) == v.Table(ino.block[12])[i]
  {
    var n := v.N();
    assert Pow(n, 0) == 1 && Pow(n, 1) == n * Pow(n, 0) && Pow(n, 2) == n * Pow(n, 1) && Pow(n, 3) == n * Pow(n, 2);
    if ino.block[12] != 0 {
      OneLevel(v, ino.block[12], i);
    }
  }

  lemma OneLevel(v: Volume, b: nat, i: nat)
    requires v.Valid() && b != 0 && i < v.N()
    ensures Pow(v.N(), 1) == v.N() && Lookup(v, b, 1, i) == v.Table(b)[i]
  {
    assert Pow(v.N(), 0) == 1;
    DivUnique(i, 1, i, 0);
  }

  /** One entry of a table, level levels above the data, leads to the lookups below it. */
  lemma OneDown(v: Volume, b: nat, level: nat, i: nat, j: nat, k: nat)
    requires v.Valid() && b != 0 && level > 0 && i < v.N() && j < Pow(v.N(), level - 1)
    requires k == i * Pow(v.N(), level - 1) + j
    ensures k < Pow(v.N(), level) && Lookup(v, b, level, k) == Lookup(v, v.Table(b)[i], level - 1, j)
  {
    var p := Pow(v.N(), level - 1);
    DivUnique(k, p, i, j);
    WithinRow(i, v.N(), j, p);
  }

  lemma WithinRow(i: nat, n: nat, j: nat, p: nat)
    requires i < n && j < p
    ensures i * p + j < n * p
  {
    MulStep(i, n, p);
  }

  /** The stretches of a file, by position within them. */
  lemma DoublePosition(v: Volume, ino: Inode, k: nat, x: nat, n1: nat)
    requires v.Valid() && ino.Valid() && n1 == Pow(v.N(), 1) && x < Pow(v.N(), 2) && k == 12 + n1 + x
    ensures k < MaxBlocks(v) && BlockNumber(v, ino, k) == Lookup(v, ino.block[13], 2, x)
  {
  }

  lemma TriplePosition(v: Volume, ino: Inode, k: nat, x: nat, n1: nat, n2: nat)
    requires v.Valid() && ino.Valid() && n1 == Pow(v.N(), 1) && n2 == Pow(v.N(), 2) && x < Pow(v.N(), 3)
    requires k == 12 + n1 + n2 + x
    ensures k < MaxBlocks(v) && BlockNumber(v, ino, k) == Lookup(v, ino.block[14], 3, x)
  {
  }

  lemma Powers(n: nat)
    requires n > 0
    ensures Pow(n, 0) == 1 && Pow(n, 1) == n && Pow(n, 2) == n * n && Pow(n, 3) == n * (n * n)
  {
    assert Pow(n, 1) == n * Pow(n, 0) && Pow(n, 2) == n * Pow(n, 1) && Pow(n, 3) == n * Pow(n, 2);
  }

  /** Two tables down from block b. */
  lemma TwoLevels(v: Volume, b: nat, i: nat, j: nat, x: nat)
    requires v.Valid() && i < v.N() && j < v.N() && x == i * v.N() + j
    ensures x < Pow(v.N(), 2)
    ensures Lookup(v, b, 2, x) == if b == 0 || v.Table(b)[i] == 0 then 0 else v.Table(v.Table(b)[i])[j]
  {
    Powers(v.N());
    WithinRow(i, v.N(), j, v.N());
    if b != 0 {
      OneDown(v, b, 2, i, j, x);
      if v.Table(b)[i] != 0 {
        OneLevel(v, v.Table(b)[i], j);
      }
    }
  }

  /** Double indirect: entry j of the table that entry i of the table in i_block[13] names. */
  lemma DoubleNumber(v: Volume, ino: Inode, i: nat, j: nat, x: nat)
    requires v.Valid() && ino.Valid() && i < v.bs / 4 && j < v.bs / 4 && x == i * (v.bs / 4) + j
    ensures 12 + v.bs / 4 + x < MaxBlocks(v)
    ensures BlockNumber(v, ino, 12 + v.bs / 4 + x) ==
            if ino.block[13] == 0 || v.Table(ino.block[13])[i] == 0 then 0
            else v.Table(v.Table(ino.block[13])[i])[j]
  {
    TwoLevels(v, ino.block[13], i, j, x);
    Powers(v.N());
    DoublePosition(v, ino, 12 + v.bs / 4 + x, x, v.bs / 4);
  }

  /** Triple indirect: one table more. */
  lemma TripleNumber(v: Volume, ino: Inode, h: nat, i: nat, j: nat, x: nat, y: nat, n2: nat)
    requires v.Valid() && ino.Valid() && h < v.bs / 4 && i < v.bs / 4 && j < v.bs / 4
    requires n2 == (v.bs / 4) * (v.bs / 4) && x == i * (v.bs / 4) + j && y == h * n2 + x
    ensures 12 + v.bs / 4 + n2 + y < MaxBlocks(v)
    ensures BlockNumber(v, ino, 12 + v.bs / 4 + n2 + y) ==
            if ino.block[14] == 0 || v.Table(ino.block[14])[h] == 0 then 0
            else
              var t := v.Table(v.Table(ino.block[14])[h])[i];
              if t == 0 then 0 else v.Table(t)[j]
  {
    var n, b := v.N(), ino.block[14];
    Powers(n);
    WithinRow(i, n, j, n);
    WithinRow(h, n, x, n2);
    TriplePosition(v, ino, 12 + v.bs / 4 + n2 + y, y, v.bs / 4, n2);
    if b != 0 {
      OneDown(v, b, 3, h, x, y);
      TwoLevels(v, v.Table(b)[h], i, j, x);
    }
  }
}
