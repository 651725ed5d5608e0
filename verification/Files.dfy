/**
 kern/file.c and the sys_chdir / sys_pwd branches of kern/syscalls/syscalls.c: the directory cache,
 path resolution, and the printing of the working directory.
 */
module Files {
  import opened Words
  import Bits

  const SLASH: u8 := 47
  const DOT: u8 := 46
  /** EXT2_S_IFDIR */
  const IFDIR := 0x4000

  type Name = seq<u8>

  /** An inode as the cache sees it: i_mode, and the contents that ext2_read_file gives for it. */
  datatype DiskFile = DiskFile(mode: nat, bytes: seq<u8>)

  /** The disk does not change while the kernel runs: inode number to inode. */
  type Disk = nat -> DiskFile

  /** is_directory tests one bit of the mode, as the code does. */
  predicate IsDir(disk: Disk, inum: nat) {
    disk(inum).mode / IFDIR % 2 == 1
  }

  /** That bit, as the mask of the code has it. */
  lemma IsDirMask(disk: Disk, inum: nat)
    ensures IsDir(disk, inum) <==> Bits.And(disk(inum).mode, 0x4000) != 0
  {
    var m := disk(inum).mode;
    var h, l := m / 0x4000, m % 0x4000;
    assert Bits.Shl(1, 14) == 16 * Bits.Shl(1, 10) by { Bits.Powers(); Fourteen(1); }
    Bits.Powers();
    Bits.ShlMul(h, 14);
    Bits.AndShifted(h, l, 1, 14);
    Bits.AndZero(h / 2);
    Bits.ShlMul(Bits.And(h, 1), 14);
  }

  lemma Fourteen(x: nat)
    ensures Bits.Shl(x, 14) == 16 * Bits.Shl(x, 10)
  {
    assert Bits.Shl(x, 14) == 2 * Bits.Shl(x, 13) && Bits.Shl(x, 13) == 2 * Bits.Shl(x, 12);
    assert Bits.Shl(x, 12) == 2 * Bits.Shl(x, 11) && Bits.Shl(x, 11) == 2 * Bits.Shl(x, 10);
  }

  // ---- directory files

  datatype Dirent = Dirent(inum: nat, name: Name)

  function EntryInode(b: seq<u8>, o: nat): nat
    requires o + 8 <= |b|
  {
    Read32(b, o)
  }

  function RecLen(b: seq<u8>, o: nat): nat
    requires o + 8 <= |b|
  {
    (b[o + 4] as int) + 256 * (b[o + 5] as int)
  }

  function NameLen(b: seq<u8>, o: nat): nat
    requires o + 8 <= |b|
  {
    b[o + 6]
  }

  /** A name the file system allows: not empty, no NUL, no slash. */
  predicate GoodName(n: Name) {
    n != [] && forall i :: 0 <= i < |n| ==> n[i] != 0 && n[i] != SLASH
  }

  predicate Special(n: Name) {
    n == [DOT] || n == [DOT, DOT]
  }

  /** The entries from offset o to the first one with inode 0, or to the end, fit together. */
  predicate WellFormed(b: seq<u8>, o: nat)
    decreases |b| - o
  {
    o == |b| ||
    (&& o + 8 <= |b|
     && (EntryInode(b, o) == 0 ||
         (&& 8 + NameLen(b, o) <= RecLen(b, o) && o + RecLen(b, o) <= |b|
          && GoodName(b[o + 8..o + 8 + NameLen(b, o)])
          && WellFormed(b, o + RecLen(b, o)))))
  }

  /** The entries the kernel looks at: it stops at the first zero inode. */
  function Entries(b: seq<u8>, o: nat): seq<Dirent>
    requires WellFormed(b, o)
    decreases |b| - o
  {
    if o == |b| || EntryInode(b, o) == 0 then []
    else [Dirent(EntryInode(b, o), b[o + 8..o + 8 + NameLen(b, o)])] + Entries(b, o + RecLen(b, o))
  }

  /** An entry byte by byte: inode in bytes 0..3, record length in 4..5, name length in 6, name from 8 on. */
  lemma EntryLayout(b: seq<u8>, o: nat)
    requires WellFormed(b, o) && o < |b|
    ensures o + 8 <= |b|
    ensures var inum := (b[o] as int) + 0x100 * (b[o + 1] as int) + 0x1_0000 * (b[o + 2] as int) +
                        0x100_0000 * (b[o + 3] as int);
            var next := o + (b[o + 4] as int) + 0x100 * (b[o + 5] as int);
            if inum == 0 then Entries(b, o) == []
            else
              && o + 8 + (b[o + 6] as int) <= next <= |b| && WellFormed(b, next)
              && Entries(b, o) == [Dirent(inum, b[o + 8..o + 8 + (b[o + 6] as int)])] + Entries(b, next)
  {
    Read32Is(b, o);
  }

  /** An entry as it is written: with its file type, and what fills the record after the name. */
  datatype Written = Written(e: Dirent, kind: u8, pad: seq<u8>) {
    predicate Valid() {
      0 < e.inum < WORD && GoodName(e.name) && |e.name| < 256 && Len() < 0x1_0000
    }

    function Len(): nat { 8 + |e.name| + |pad| }

    function Record(): seq<u8>
      requires Valid()
    {
      Bytes(e.inum, 4) + [Len() % 256, Len() / 256, |e.name|, kind] + e.name + pad
    }
  }

  predicate AllValid(ws: seq<Written>) {
    forall i :: 0 <= i < |ws| ==> ws[i].Valid()
  }

  /** A directory file with these entries. */
  function Encoded(ws: seq<Written>): seq<u8>
    requires AllValid(ws)
  {
    if ws == [] then [] else ws[0].Record() + Encoded(ws[1..])
  }

  function EntriesOf(ws: seq<Written>): seq<Dirent> {
    if ws == [] then [] else [ws[0].e] + EntriesOf(ws[1..])
  }

  /** What follows offset o does not depend on what is in front. */
  lemma {:induction false} EntriesShift(a: seq<u8>, b: seq<u8>, o: nat)
    requires WellFormed(b, o)
    ensures WellFormed(a + b, |a| + o) && Entries(a + b, |a| + o) == Entries(b, o)
    decreases |b| - o
  {
    if o < |b| {
      HeaderShift(a, b, o);
      if EntryInode(b, o) != 0 {
        EntriesShift(a, b, o + RecLen(b, o));
        EntryShift(a, b, o);
      }
    }
  }

  lemma HeaderShift(a: seq<u8>, b: seq<u8>, o: nat)
    requires o + 8 <= |b|
    ensures EntryInode(a + b, |a| + o) == EntryInode(b, o) && RecLen(a + b, |a| + o) == RecLen(b, o)
    ensures NameLen(a + b, |a| + o) == NameLen(b, o)
  {
    var c, p := a + b, |a| + o;
    assert c[p..p + 4] == b[o..o + 4];
    assert c[p + 4] == b[o + 4] && c[p + 5] == b[o + 5] && c[p + 6] == b[o + 6];
  }

  /** One entry, the rest being done. */
  lemma EntryShift(a: seq<u8>, b: seq<u8>, o: nat)
    requires WellFormed(b, o) && o < |b| && EntryInode(b, o) != 0
    requires var next := o + RecLen(b, o);
             WellFormed(a + b, |a| + next) && Entries(a + b, |a| + next) == Entries(b, next)
    ensures WellFormed(a + b, |a| + o) && Entries(a + b, |a| + o) == Entries(b, o)
  {
    HeaderShift(a, b, o);
    var c, p, n := a + b, |a| + o, NameLen(b, o);
    assert c[p + 8..p + 8 + n] == b[o + 8..o + 8 + n];
    assert p + RecLen(c, p) == |a| + (o + RecLen(b, o));
  }

  /** Parsing what was written. */
  lemma {:induction false} EntriesEncoded(ws: seq<Written>)
    requires AllValid(ws)
    ensures WellFormed(Encoded(ws), 0) && Entries(Encoded(ws), 0) == EntriesOf(ws)
  {
    if ws != [] {
      EntriesEncoded(ws[1..]);
      RecordInFront(ws[0], Encoded(ws[1..]));
    }
  }

  lemma {:induction false} RecordInFront(w: Written, rest: seq<u8>)
    requires w.Valid() && WellFormed(rest, 0)
    ensures WellFormed(w.Record() + rest, 0) && Entries(w.Record() + rest, 0) == [w.e] + Entries(rest, 0)
  {
    EntriesShift(w.Record(), rest, 0);
    FirstRecord(w, rest);
  }

  lemma {:induction false} FirstRecord(w: Written, rest: seq<u8>)
    requires w.Valid()
    ensures var b, r := w.Record() + rest, w.Record();
            && |r| == w.Len() && EntryInode(b, 0) == w.e.inum && RecLen(b, 0) == w.Len()
            && NameLen(b, 0) == |w.e.name| && b[8..8 + |w.e.name|] == w.e.name
  {
    var b := w.Record() + rest;
    Pow256Four();
    assert b[0..4] == Bytes(w.e.inum, 4);
    assert b[4] == w.Len() % 256 && b[5] == w.Len() / 256 && b[6] == |w.e.name|;
  }

  /** Every directory on the disk is well formed. */
  ghost predicate DiskOk(disk: Disk) {
    forall n: nat :: IsDir(disk, n) ==> WellFormed(disk(n).bytes, 0)
  }

  // ---- the cache

  /** struct file; parent and leaf hold indices into the cache, 0 is the root. */
  datatype Node = Node(inum: nat, name: Name, parent: nat, leaf: seq<nat>)

  type Cache = seq<Node>

  datatype Maybe = None | Some(id: nat)

  /** is_cached_leaf: the first leaf of that name. */
  function Find(c: Cache, leaf: seq<nat>, n: Name): (r: Maybe)
    ensures r.Some? ==> r.id in leaf && r.id < |c| && c[r.id].name == n
    ensures r.None? ==> forall i :: 0 <= i < |leaf| ==> leaf[i] >= |c| || c[leaf[i]].name != n
  {
    if leaf == [] then None
    else if leaf[0] < |c| && c[leaf[0]].name == n then Some(leaf[0])
    else Find(c, leaf[1..], n)
  }

  /** The loop of get_dir_entries: a leaf for every name that is neither special nor cached. */
  function Scan(c: Cache, dir: nat, es: seq<Dirent>): (r: Cache)
    requires dir < |c|
    ensures |r| >= |c|
    decreases |es|
  {
    if es == [] then c
    else if Special(es[0].name) || Find(c, c[dir].leaf, es[0].name).Some? then Scan(c, dir, es[1..])
    else Scan(Added(c, dir, es[0]), dir, es[1..])
  }

  /** A new leaf at the front of the list of dir. */
  function Added(c: Cache, dir: nat, e: Dirent): (r: Cache)
    requires dir < |c|
    ensures |r| == |c| + 1
  {
    c[dir := c[dir].(leaf := [|c|] + c[dir].leaf)] + [Node(e.inum, e.name, dir, [])]
  }

  /** get_dir_entries; a file that is not a directory is left alone. */
  ghost function Filled(disk: Disk, c: Cache, dir: nat): (r: Cache)
    requires DiskOk(disk) && dir < |c|
    ensures |r| >= |c|
  {
    if IsDir(disk, c[dir].inum) then Scan(c, dir, Entries(disk(c[dir].inum).bytes, 0)) else c
  }

  // ---- the cache invariant

  /** The leaves of node p: later nodes that name p as parent, each once, with different names. */
  predicate LeavesOk(c: Cache, p: nat)
    requires p < |c|
  {
    && (forall i :: 0 <= i < |c[p].leaf| ==> p < c[p].leaf[i] < |c| && c[c[p].leaf[i]].parent == p)
    && (forall i, j :: 0 <= i < j < |c[p].leaf| ==> c[c[p].leaf[i]].name != c[c[p].leaf[j]].name)
  }

  predicate NodeOk(disk: Disk, c: Cache, i: nat)
    requires i < |c|
  {
    && c[i].parent < i && i in c[c[i].parent].leaf
    && GoodName(c[i].name) && !Special(c[i].name) && IsDir(disk, c[c[i].parent].inum)
  }

  ghost predicate CacheOk(disk: Disk, c: Cache) {
    && c != [] && c[0].parent == 0
    && (forall p :: 0 <= p < |c| ==> LeavesOk(c, p))
    && (forall i :: 1 <= i < |c| ==> NodeOk(disk, c, i))
  }

  /** c' keeps every node of c and every answer of a lookup that found something. */
  ghost predicate Extends(c: Cache, c': Cache) {
    && |c| <= |c'|
    && forall i :: 0 <= i < |c| ==>
         c'[i].inum == c[i].inum && c'[i].name == c[i].name && c'[i].parent == c[i].parent &&
         forall x :: x in c[i].leaf ==> x in c'[i].leaf
  }

  lemma ExtendsTrans(a: Cache, b: Cache, c: Cache)
    requires Extends(a, b) && Extends(b, c)
    ensures Extends(a, c)
  {
  }

  /** In a good cache a lookup finds exactly the leaf of that name. */
  lemma {:induction false} FindLeaf(disk: Disk, c: Cache, p: nat, x: nat)
    requires CacheOk(disk, c) && p < |c| && x in c[p].leaf
    ensures x < |c| && Find(c, c[p].leaf, c[x].name) == Some(x)
  {
    assert LeavesOk(c, p);
    var r := Find(c, c[p].leaf, c[x].name);
    assert r.Some?;
  }

  /** Added, node by node. */
  predicate IsAdded(c: Cache, r: Cache, dir: nat, e: Dirent)
    requires dir < |c|
  {
    && |r| == |c| + 1
    && r[dir] == c[dir].(leaf := [|c|] + c[dir].leaf)
    && r[|c|] == Node(e.inum, e.name, dir, [])
    && forall i :: 0 <= i < |c| && i != dir ==> r[i] == c[i]
  }

  lemma AddedLeaves(c: Cache, r: Cache, dir: nat, e: Dirent, p: nat)
    requires dir < |c| && IsAdded(c, r, dir, e) && p < |r|
    requires p < |c| ==> LeavesOk(c, p)
    requires Find(c, c[dir].leaf, e.name).None?
    ensures LeavesOk(r, p)
  {
    if p == dir {
      forall i, j | 0 <= i < j < |r[p].leaf| ensures r[r[p].leaf[i]].name != r[r[p].leaf[j]].name {
        assert r[p].leaf[j] == c[p].leaf[j - 1];
        assert i > 0 ==> r[p].leaf[i] == c[p].leaf[i - 1];
      }
    }
  }

  lemma AddedNodes(disk: Disk, c: Cache, r: Cache, dir: nat, e: Dirent, i: nat)
    requires dir < |c| && IsAdded(c, r, dir, e) && 1 <= i < |r|
    requires i < |c| ==> NodeOk(disk, c, i)
    requires IsDir(disk, c[dir].inum) && GoodName(e.name) && !Special(e.name)
    ensures NodeOk(disk, r, i)
  {
    if i == |c| {
      assert r[dir].leaf[0] == i;
    }
  }

  lemma AddedOk(disk: Disk, c: Cache, dir: nat, e: Dirent)
    requires CacheOk(disk, c) && dir < |c| && IsDir(disk, c[dir].inum)
    requires GoodName(e.name) && !Special(e.name) && Find(c, c[dir].leaf, e.name).None?
    ensures CacheOk(disk, Added(c, dir, e)) && Extends(c, Added(c, dir, e))
  {
    var r := Added(c, dir, e);
    assert IsAdded(c, r, dir, e);
    forall p | 0 <= p < |r| ensures LeavesOk(r, p) {
      AddedLeaves(c, r, dir, e, p);
    }
    forall i | 1 <= i < |r| ensures NodeOk(disk, r, i) {
      AddedNodes(disk, c, r, dir, e, i);
    }
  }

  /** Looking up another name is not affected by an added leaf. */
  lemma {:induction false} FindKept(c: Cache, r: Cache, leaf: seq<nat>, n: Name)
    requires forall i :: 0 <= i < |leaf| ==> leaf[i] < |c| <= |r| && r[leaf[i]].name == c[leaf[i]].name
    ensures Find(r, leaf, n) == Find(c, leaf, n)
  {
    if leaf != [] {
      assert forall i :: 0 <= i < |leaf[1..]| ==> leaf[1..][i] == leaf[i + 1];
      FindKept(c, r, leaf[1..], n);
    }
  }

  lemma FindAfterAdd(disk: Disk, c: Cache, dir: nat, e: Dirent, n: Name)
    requires CacheOk(disk, c) && dir < |c|
    ensures var r := Added(c, dir, e);
            Find(r, r[dir].leaf, n) == if n == e.name then Some(|c|) else Find(c, c[dir].leaf, n)
  {
    var r := Added(c, dir, e);
    assert LeavesOk(c, dir);
    assert r[dir].leaf[1..] == c[dir].leaf;
    FindKept(c, r, c[dir].leaf, n);
  }

  ghost predicate GoodEntries(es: seq<Dirent>) {
    forall i :: 0 <= i < |es| ==> GoodName(es[i].name)
  }

  lemma {:induction false} EntriesGood(b: seq<u8>, o: nat)
    requires WellFormed(b, o)
    ensures GoodEntries(Entries(b, o))
    decreases |b| - o
  {
    if o != |b| && EntryInode(b, o) != 0 {
      EntriesGood(b, o + RecLen(b, o));
    }
  }

  /** Index of the first entry with that name. */
  function FirstNamed(es: seq<Dirent>, n: Name): (k: nat)
    ensures k <= |es| && (k < |es| ==> es[k].name == n) && forall i :: 0 <= i < k ==> es[i].name != n
  {
    if es == [] || es[0].name == n then 0 else 1 + FirstNamed(es[1..], n)
  }

  /** What a lookup gives after the loop over the entries es, in terms of the cache before and of the disk. */
  ghost predicate FoundAfter(c: Cache, r: Cache, dir: nat, es: seq<Dirent>, n: Name)
    requires dir < |c| <= |r|
  {
    var before, now, k := Find(c, c[dir].leaf, n), Find(r, r[dir].leaf, n), FirstNamed(es, n);
    if before.Some? then now == before
    else if k < |es| && !Special(n) then now.Some? && now.id >= |c| && r[now.id].inum == es[k].inum
    else now == None
  }

  lemma {:induction false} ScanOk(disk: Disk, c: Cache, dir: nat, es: seq<Dirent>)
    requires CacheOk(disk, c) && dir < |c| && IsDir(disk, c[dir].inum) && GoodEntries(es)
    ensures CacheOk(disk, Scan(c, dir, es)) && Extends(c, Scan(c, dir, es))
    decreases |es|
  {
    if es != [] {
      if Special(es[0].name) || Find(c, c[dir].leaf, es[0].name).Some? {
        ScanOk(disk, c, dir, es[1..]);
      } else {
        AddedOk(disk, c, dir, es[0]);
        ScanOk(disk, Added(c, dir, es[0]), dir, es[1..]);
        ExtendsTrans(c, Added(c, dir, es[0]), Scan(c, dir, es));
      }
    }
  }

  lemma {:induction false} ScanFinds(disk: Disk, c: Cache, dir: nat, es: seq<Dirent>, n: Name)
    requires CacheOk(disk, c) && dir < |c| && IsDir(disk, c[dir].inum) && GoodEntries(es)
    ensures FoundAfter(c, Scan(c, dir, es), dir, es, n)
    decreases |es|
  {
    if es != [] {
      var e := es[0];
      if Special(e.name) || Find(c, c[dir].leaf, e.name).Some? {
        ScanFinds(disk, c, dir, es[1..], n);
      } else {
        var a := Added(c, dir, e);
        AddedOk(disk, c, dir, e);
        ScanFinds(disk, a, dir, es[1..], n);
        ScanOk(disk, a, dir, es[1..]);
        FindAfterAdd(disk, c, dir, e, n);
      }
    }
  }

  lemma {:induction false} ScanNothingNew(c: Cache, dir: nat, es: seq<Dirent>)
    requires dir < |c|
    requires forall i :: 0 <= i < |es| ==> Special(es[i].name) || Find(c, c[dir].leaf, es[i].name).Some?
    ensures Scan(c, dir, es) == c
    decreases |es|
  {
    if es != [] {
      ScanNothingNew(c, dir, es[1..]);
    }
  }

  /** The cache after get_dir_entries: names unique, nodes kept, lookups as on the disk. */
  lemma FilledOk(disk: Disk, c: Cache, dir: nat)
    requires DiskOk(disk) && CacheOk(disk, c) && dir < |c|
    ensures CacheOk(disk, Filled(disk, c, dir)) && Extends(c, Filled(disk, c, dir))
  {
    if IsDir(disk, c[dir].inum) {
      var b := disk(c[dir].inum).bytes;
      EntriesGood(b, 0);
      ScanOk(disk, c, dir, Entries(b, 0));
    }
  }

  /** Lookup by name agrees with the entries on the disk, for every name. */
  lemma CacheAgrees(disk: Disk, c: Cache, dir: nat, n: Name)
    requires DiskOk(disk) && CacheOk(disk, c) && dir < |c| && IsDir(disk, c[dir].inum)
    ensures FoundAfter(c, Filled(disk, c, dir), dir, Entries(disk(c[dir].inum).bytes, 0), n)
  {
    var b := disk(c[dir].inum).bytes;
    EntriesGood(b, 0);
    ScanFinds(disk, c, dir, Entries(b, 0), n);
  }

  /** Repeating get_dir_entries adds nothing. */
  lemma FilledTwice(disk: Disk, c: Cache, dir: nat)
    requires DiskOk(disk) && CacheOk(disk, c) && dir < |c|
    ensures Filled(disk, Filled(disk, c, dir), dir) == Filled(disk, c, dir)
  {
    FilledOk(disk, c, dir);
    if IsDir(disk, c[dir].inum) {
      var es, r := Entries(disk(c[dir].inum).bytes, 0), Filled(disk, c, dir);
      forall i | 0 <= i < |es| ensures Special(es[i].name) || Find(r, r[dir].leaf, es[i].name).Some? {
        CacheAgrees(disk, c, dir, es[i].name);
      }
      ScanNothingNew(r, dir, es);
    }
  }

  // ---- the cache and the disk, in every reachable state

  /** Node i stands for the first entry of its name in the directory file of its parent. */
  ghost predicate OnDisk(disk: Disk, c: Cache, i: nat)
    requires DiskOk(disk) && CacheOk(disk, c) && 1 <= i < |c|
  {
    assert NodeOk(disk, c, i);
    var es := Entries(disk(c[c[i].parent].inum).bytes, 0);
    var k := FirstNamed(es, c[i].name);
    k < |es| && es[k].inum == c[i].inum
  }

  ghost predicate Faithful(disk: Disk, c: Cache)
    requires DiskOk(disk) && CacheOk(disk, c)
  {
    forall i :: 1 <= i < |c| ==> OnDisk(disk, c, i)
  }

  lemma {:induction false} ScanParent(c: Cache, dir: nat, es: seq<Dirent>, i: nat)
    requires dir < |c| <= i < |Scan(c, dir, es)|
    ensures Scan(c, dir, es)[i].parent == dir
    decreases |es|
  {
    if es != [] {
      if Special(es[0].name) || Find(c, c[dir].leaf, es[0].name).Some? {
        ScanParent(c, dir, es[1..], i);
      } else if i == |c| {
        ScanKeeps(Added(c, dir, es[0]), dir, es[1..], i);
      } else {
        ScanParent(Added(c, dir, es[0]), dir, es[1..], i);
      }
    }
  }

  lemma {:induction false} ScanKeeps(c: Cache, dir: nat, es: seq<Dirent>, i: nat)
    requires dir < |c| && i < |c|
    ensures Scan(c, dir, es)[i].parent == c[i].parent
    decreases |es|
  {
    if es != [] {
      if Special(es[0].name) || Find(c, c[dir].leaf, es[0].name).Some? {
        ScanKeeps(c, dir, es[1..], i);
      } else {
        ScanKeeps(Added(c, dir, es[0]), dir, es[1..], i);
      }
    }
  }

  lemma FilledOnDisk(disk: Disk, c: Cache, dir: nat, i: nat)
    requires DiskOk(disk) && CacheOk(disk, c) && dir < |c| && Faithful(disk, c)
    requires CacheOk(disk, Filled(disk, c, dir)) && Extends(c, Filled(disk, c, dir))
    requires 1 <= i < |Filled(disk, c, dir)|
    ensures OnDisk(disk, Filled(disk, c, dir), i)
  {
    var r := Filled(disk, c, dir);
    if i < |c| {
      assert OnDisk(disk, c, i);
      assert NodeOk(disk, c, i);
    } else {
      ScanParent(c, dir, Entries(disk(c[dir].inum).bytes, 0), i);
      assert NodeOk(disk, r, i);
      FindLeaf(disk, r, dir, i);
      CacheAgrees(disk, c, dir, r[i].name);
    }
  }

  lemma FilledFaithful(disk: Disk, c: Cache, dir: nat)
    requires DiskOk(disk) && CacheOk(disk, c) && dir < |c| && Faithful(disk, c)
    ensures CacheOk(disk, Filled(disk, c, dir)) && Faithful(disk, Filled(disk, c, dir))
  {
    FilledOk(disk, c, dir);
    forall i | 1 <= i < |Filled(disk, c, dir)| ensures OnDisk(disk, Filled(disk, c, dir), i) {
      FilledOnDisk(disk, c, dir, i);
    }
  }

  /**
   After get_dir_entries on a faithful cache, looking up any name gives exactly what the directory
   file says: the first entry of that name, "." and ".." apart.
   */
  lemma LookupIsDisk(disk: Disk, c: Cache, dir: nat, n: Name)
    requires DiskOk(disk) && CacheOk(disk, c) && Faithful(disk, c) && dir < |c| && IsDir(disk, c[dir].inum)
    ensures var r, es := Filled(disk, c, dir), Entries(disk(c[dir].inum).bytes, 0);
            var f, k := Find(r, r[dir].leaf, n), FirstNamed(es, n);
            && (f.Some? <==> !Special(n) && k < |es|)
            && (f.Some? ==> r[f.id].inum == es[k].inum)
  {
    CacheAgrees(disk, c, dir, n);
    var f := Find(c, c[dir].leaf, n);
    if f.Some? {
      assert LeavesOk(c, dir);
      assert NodeOk(disk, c, f.id);
      assert OnDisk(disk, c, f.id);
      FilledOk(disk, c, dir);
    }
  }

  // ---- paths

  /** Length of the run of non-slash bytes at the start. */
  function WordLen(path: seq<u8>): (n: nat)
    ensures n <= |path| && (forall i :: 0 <= i < n ==> path[i] != SLASH) && (n < |path| ==> path[n] == SLASH)
  {
    if path == [] || path[0] == SLASH then 0 else 1 + WordLen(path[1..])
  }

  /** The components of a path: the words between slashes. */
  function Components(path: seq<u8>): seq<Name>
    decreases |path|
  {
    if path == [] then []
    else if path[0] == SLASH then Components(path[1..])
    else [path[..WordLen(path)]] + Components(path[WordLen(path)..])
  }

  datatype Answer = Answer(cache: Cache, file: Maybe)

  /** path_to_file from node fp: every component needs a directory to look in. */
  ghost function Resolve(disk: Disk, c: Cache, fp: nat, names: seq<Name>): (a: Answer)
    requires DiskOk(disk) && CacheOk(disk, c) && fp < |c|
    ensures CacheOk(disk, a.cache) && Extends(c, a.cache) && (a.file.Some? ==> a.file.id < |a.cache|)
    decreases |names|
  {
    if names == [] then Answer(c, Some(fp))
    else if !IsDir(disk, c[fp].inum) then Answer(c, None)
    else if names[0] == [DOT, DOT] then
      assert c[fp].parent < |c| by { assert fp == 0 || NodeOk(disk, c, fp); }
      Resolve(disk, c, c[fp].parent, names[1..])
    else if names[0] == [DOT] then Resolve(disk, c, fp, names[1..])
    else
      FilledOk(disk, c, fp);
      var r := Filled(disk, c, fp);
      var f := Find(r, r[fp].leaf, names[0]);
      if f.None? then Answer(r, None)
      else
        var a := Resolve(disk, r, f.id, names[1..]);
        ExtendsTrans(c, r, a.cache);
        a
  }

  lemma {:induction false} ResolveFaithful(disk: Disk, c: Cache, fp: nat, names: seq<Name>)
    requires DiskOk(disk) && CacheOk(disk, c) && fp < |c| && Faithful(disk, c)
    ensures Faithful(disk, Resolve(disk, c, fp, names).cache)
    decreases |names|
  {
    if names != [] && IsDir(disk, c[fp].inum) {
      if names[0] == [DOT, DOT] {
        assert fp == 0 || NodeOk(disk, c, fp);
        ResolveFaithful(disk, c, c[fp].parent, names[1..]);
      } else if names[0] == [DOT] {
        ResolveFaithful(disk, c, fp, names[1..]);
      } else {
        FilledOk(disk, c, fp);
        FilledFaithful(disk, c, fp);
        var r := Filled(disk, c, fp);
        var f := Find(r, r[fp].leaf, names[0]);
        if f.Some? {
          ResolveFaithful(disk, r, f.id, names[1..]);
        }
      }
    }
  }

  // ---- paths without a cache

  /** Where a path leads on the disk: the inode numbers from the root down. */
  datatype Where = Nowhere | At(trail: seq<nat>)

  /** Following names on the disk alone, reading the directory file at every step. */
  ghost function Follow(disk: Disk, trail: seq<nat>, names: seq<Name>): (w: Where)
    requires DiskOk(disk) && trail != []
    ensures w.At? ==> w.trail != []
    decreases |names|
  {
    var last := trail[|trail| - 1];
    if names == [] then At(trail)
    else if !IsDir(disk, last) then Nowhere
    else if names[0] == [DOT, DOT] then
      Follow(disk, if |trail| == 1 then trail else trail[..|trail| - 1], names[1..])
    else if names[0] == [DOT] then Follow(disk, trail, names[1..])
    else
      var es := Entries(disk(last).bytes, 0);
      var k := FirstNamed(es, names[0]);
      if k == |es| then Nowhere else Follow(disk, trail + [es[k].inum], names[1..])
  }

  /** The inode numbers from the root down to node d. */
  ghost function Trail(disk: Disk, c: Cache, d: nat): (t: seq<nat>)
    requires CacheOk(disk, c) && d < |c|
    ensures t != [] && t[|t| - 1] == c[d].inum && (|t| == 1 <==> d == 0)
    decreases d
  {
    if d == 0 then [c[0].inum]
    else
      assert NodeOk(disk, c, d);
      Trail(disk, c, c[d].parent) + [c[d].inum]
  }

  lemma {:induction false} TrailKept(disk: Disk, c: Cache, r: Cache, d: nat)
    requires CacheOk(disk, c) && CacheOk(disk, r) && Extends(c, r) && d < |c|
    ensures Trail(disk, r, d) == Trail(disk, c, d)
    decreases d
  {
    if d != 0 {
      assert NodeOk(disk, c, d);
      TrailKept(disk, c, r, c[d].parent);
    }
  }

  /** Trail of the node found by looking up one name. */
  lemma TrailDown(disk: Disk, c: Cache, fp: nat, n: Name)
    requires DiskOk(disk) && CacheOk(disk, c) && Faithful(disk, c) && fp < |c| && IsDir(disk, c[fp].inum) && !Special(n)
    requires CacheOk(disk, Filled(disk, c, fp)) && Extends(c, Filled(disk, c, fp))
    ensures var r, es := Filled(disk, c, fp), Entries(disk(c[fp].inum).bytes, 0);
            var f, k := Find(r, r[fp].leaf, n), FirstNamed(es, n);
            && (f.Some? <==> k < |es|)
            && (f.Some? ==> Trail(disk, r, f.id) == Trail(disk, c, fp) + [es[k].inum])
  {
    LookupIsDisk(disk, c, fp, n);
    var r := Filled(disk, c, fp);
    var f := Find(r, r[fp].leaf, n);
    if f.Some? {
      assert LeavesOk(r, fp);
      TrailKept(disk, c, r, fp);
    }
  }

  /** The cache is transparent: path_to_file goes where the disk alone leads, whatever is cached. */
  lemma {:induction false} ResolveIsFollow(disk: Disk, c: Cache, fp: nat, names: seq<Name>)
    requires DiskOk(disk) && CacheOk(disk, c) && fp < |c| && Faithful(disk, c)
    ensures var a := Resolve(disk, c, fp, names);
            Follow(disk, Trail(disk, c, fp), names)
            == if a.file.Some? then At(Trail(disk, a.cache, a.file.id)) else Nowhere
    decreases |names|
  {
    if names != [] && IsDir(disk, c[fp].inum) {
      if names[0] == [DOT, DOT] {
        assert fp == 0 || NodeOk(disk, c, fp);
        assert fp != 0 ==> Trail(disk, c, fp)[..|Trail(disk, c, fp)| - 1] == Trail(disk, c, c[fp].parent);
        ResolveIsFollow(disk, c, c[fp].parent, names[1..]);
      } else if names[0] == [DOT] {
        ResolveIsFollow(disk, c, fp, names[1..]);
      } else {
        FilledOk(disk, c, fp);
        FilledFaithful(disk, c, fp);
        TrailDown(disk, c, fp, names[0]);
        var r := Filled(disk, c, fp);
        var f := Find(r, r[fp].leaf, names[0]);
        if f.Some? {
          ResolveIsFollow(disk, r, f.id, names[1..]);
        }
      }
    }
  }

  // ---- printing a path

  /** The names from the root down to node d. */
  ghost function NamesTo(disk: Disk, c: Cache, d: nat): seq<Name>
    requires CacheOk(disk, c) && d < |c|
    decreases d
  {
    if d == 0 then []
    else
      assert NodeOk(disk, c, d);
      NamesTo(disk, c, c[d].parent) + [c[d].name]
  }

  /** Each name with a slash in front. */
  function Joined(names: seq<Name>): seq<u8> {
    if names == [] then [] else [SLASH] + names[0] + Joined(names[1..])
  }

  /** What sys_pwd writes for node d. */
  ghost function Pwd(disk: Disk, c: Cache, d: nat): seq<u8>
    requires CacheOk(disk, c) && d < |c|
  {
    if d == 0 then [SLASH] else Joined(NamesTo(disk, c, d))
  }

  /** No empty, "." or ".." component, no slash inside one. */
  predicate Plain(names: seq<Name>) {
    forall i :: 0 <= i < |names| ==> GoodName(names[i]) && !Special(names[i])
  }

  lemma {:induction false} NamesPlain(disk: Disk, c: Cache, d: nat)
    requires CacheOk(disk, c) && d < |c|
    ensures Plain(NamesTo(disk, c, d))
    decreases d
  {
    if d != 0 {
      assert NodeOk(disk, c, d);
      NamesPlain(disk, c, c[d].parent);
    }
  }

  lemma {:induction false} WordIs(n: Name, rest: seq<u8>)
    requires (forall i :: 0 <= i < |n| ==> n[i] != SLASH) && (rest == [] || rest[0] == SLASH)
    ensures WordLen(n + rest) == |n|
  {
    if n != [] {
      assert (n + rest)[1..] == n[1..] + rest;
      WordIs(n[1..], rest);
    } else {
      assert n + rest == rest;
    }
  }

  /** Splitting what was joined. */
  lemma {:induction false} SplitJoined(names: seq<Name>)
    requires Plain(names)
    ensures Components(Joined(names)) == names
  {
    if names != [] {
      var n, rest := names[0], Joined(names[1..]);
      assert Joined(names) == [SLASH] + (n + rest);
      assert Joined(names)[1..] == n + rest;
      WordIs(n, rest);
      assert (n + rest)[..|n|] == n && (n + rest)[|n|..] == rest;
      SplitJoined(names[1..]);
    }
  }

  /** The components of two paths joined by a slash: with the next lemma, all there is to know about components. */
  lemma {:induction false} ComponentsJoin(a: seq<u8>, b: seq<u8>)
    ensures Components(a + [SLASH] + b) == Components(a) + Components(b)
    decreases |a|
  {
    var c := a + [SLASH] + b;
    if a == [] {
      assert c[1..] == b;
    } else if a[0] == SLASH {
      assert c[1..] == a[1..] + [SLASH] + b;
      ComponentsJoin(a[1..], b);
    } else {
      var w := WordLen(a);
      assert c == a[..w] + (a[w..] + [SLASH] + b);
      WordIs(a[..w], a[w..] + [SLASH] + b);
      assert c[..w] == a[..w] && c[w..] == a[w..] + [SLASH] + b;
      ComponentsJoin(a[w..], b);
    }
  }

  lemma OneComponent(w: seq<u8>)
    requires forall i :: 0 <= i < |w| ==> w[i] != SLASH
    ensures Components(w) == if w == [] then [] else [w]
  {
    if w != [] {
      assert w + [] == w;
      WordIs(w, []);
      assert w[..|w|] == w && w[|w|..] == [];
      assert Components([]) == [];
    }
  }

  lemma {:induction false} NamesKept(disk: Disk, c: Cache, r: Cache, d: nat)
    requires CacheOk(disk, c) && CacheOk(disk, r) && Extends(c, r) && d < |c|
    ensures NamesTo(disk, r, d) == NamesTo(disk, c, d)
    decreases d
  {
    if d != 0 {
      assert NodeOk(disk, c, d);
      NamesKept(disk, c, r, c[d].parent);
    }
  }

  lemma {:induction false} ResolveAppend(disk: Disk, c: Cache, fp: nat, a: seq<Name>, b: seq<Name>)
    requires DiskOk(disk) && CacheOk(disk, c) && fp < |c|
    ensures var r := Resolve(disk, c, fp, a);
            Resolve(disk, c, fp, a + b) == if r.file.None? then r else Resolve(disk, r.cache, r.file.id, b)
    decreases |a|
  {
    if a == [] {
      assert a + b == b;
    } else {
      assert (a + b)[1..] == a[1..] + b;
      if IsDir(disk, c[fp].inum) {
        if a[0] == [DOT, DOT] {
          assert fp == 0 || NodeOk(disk, c, fp);
          ResolveAppend(disk, c, c[fp].parent, a[1..], b);
        } else if a[0] == [DOT] {
          ResolveAppend(disk, c, fp, a[1..], b);
        } else {
          FilledOk(disk, c, fp);
          var r := Filled(disk, c, fp);
          var f := Find(r, r[fp].leaf, a[0]);
          if f.Some? {
            ResolveAppend(disk, r, f.id, a[1..], b);
          }
        }
      }
    }
  }

  /** One plain name looked up in the parent of a cached node gives that node back. */
  lemma ResolveChild(disk: Disk, c: Cache, d: nat)
    requires DiskOk(disk) && CacheOk(disk, c) && 1 <= d < |c|
    ensures c[d].parent < |c| && Resolve(disk, c, c[d].parent, [c[d].name]).file == Some(d)
  {
    assert NodeOk(disk, c, d);
    var p, n := c[d].parent, c[d].name;
    FilledOk(disk, c, p);
    var r := Filled(disk, c, p);
    FindLeaf(disk, r, p, d);
    var one: seq<Name> := [n];
    assert one[1..] == [];
  }

  lemma {:induction false} ResolveNames(disk: Disk, c: Cache, d: nat)
    requires DiskOk(disk) && CacheOk(disk, c) && d < |c|
    ensures Resolve(disk, c, 0, NamesTo(disk, c, d)).file == Some(d)
    decreases d
  {
    if d != 0 {
      assert NodeOk(disk, c, d);
      var p := c[d].parent;
      ResolveNames(disk, c, p);
      var r := Resolve(disk, c, 0, NamesTo(disk, c, p)).cache;
      ResolveAppend(disk, c, 0, NamesTo(disk, c, p), [c[d].name]);
      ResolveChild(disk, r, d);
    }
  }

  /** A relative path starts at the working directory, an absolute one at the root. */
  function Start(pwd: nat, path: seq<u8>): nat {
    if path == [] || path[0] != SLASH then pwd else 0
  }

  /** "." stays, and ".." undoes a step down to a directory. */
  lemma DotLaws(disk: Disk, c: Cache, d: nat, n: Name)
    requires DiskOk(disk) && CacheOk(disk, c) && d < |c| && IsDir(disk, c[d].inum) && !Special(n)
    ensures Resolve(disk, c, d, [[DOT]]) == Answer(c, Some(d))
    ensures var a := Resolve(disk, c, d, [n]);
            a.file.Some? && IsDir(disk, a.cache[a.file.id].inum) ==>
              Resolve(disk, c, d, [n, [DOT, DOT]]) == Answer(a.cache, Some(d))
    ensures Resolve(disk, c, 0, []) == Answer(c, Some(0))
  {
    var up: seq<Name> := [[DOT, DOT]];
    assert up[1..] == [] && [[DOT]][1..] == [];
    assert [n] + up == [n, [DOT, DOT]];
    ResolveAppend(disk, c, d, [n], up);
    var a := Resolve(disk, c, d, [n]);
    FilledOk(disk, c, d);
    var r := Filled(disk, c, d);
    var one: seq<Name> := [n];
    assert one[1..] == [];
    if a.file.Some? {
      assert LeavesOk(r, d);
    }
  }

  /** path_to_file on a path string, for a process whose working directory is pwd. */
  ghost function PathToFile(disk: Disk, c: Cache, pwd: nat, path: seq<u8>): Answer
    requires DiskOk(disk) && CacheOk(disk, c) && pwd < |c|
  {
    Resolve(disk, c, Start(pwd, path), Components(path))
  }

  /**
   The round trip: for every cached node the string sys_pwd writes is absolute, has only plain
   components, and path_to_file on it gives the same node, whatever the working directory.
   */
  lemma PwdRoundTrip(disk: Disk, c: Cache, d: nat, pwd: nat)
    requires DiskOk(disk) && CacheOk(disk, c) && d < |c| && pwd < |c|
    ensures var s := Pwd(disk, c, d);
            && s != [] && s[0] == SLASH
            && Plain(Components(s)) && Components(s) == NamesTo(disk, c, d)
            && PathToFile(disk, c, pwd, s).file == Some(d)
  {
    NamesPlain(disk, c, d);
    SplitJoined(NamesTo(disk, c, d));
    ResolveNames(disk, c, d);
    if d == 0 {
      assert Components([SLASH]) == Components([SLASH][1..]);
    } else {
      assert NodeOk(disk, c, d);
      assert NamesTo(disk, c, d) != [];
    }
  }

  // ---- runs

  /** The cache, and the working directory of every process. */
  datatype State = State(cache: Cache, pwd: map<nat, nat>)

  ghost predicate Inv(disk: Disk, s: State) {
    && DiskOk(disk) && CacheOk(disk, s.cache)
    && forall p :: p in s.pwd ==> s.pwd[p] < |s.cache| && IsDir(disk, s.cache[s.pwd[p]].inum)
  }

  /** Process pid names a path (to open or execute it): only the cache changes. */
  ghost function AfterLookup(disk: Disk, s: State, pid: nat, path: seq<u8>): State
    requires Inv(disk, s) && pid in s.pwd
  {
    s.(cache := PathToFile(disk, s.cache, s.pwd[pid], path).cache)
  }

  /** sys_chdir: only a directory becomes the working directory. */
  ghost function AfterChdir(disk: Disk, s: State, pid: nat, path: seq<u8>): State
    requires Inv(disk, s) && pid in s.pwd
  {
    var a := PathToFile(disk, s.cache, s.pwd[pid], path);
    if a.file.Some? && IsDir(disk, a.cache[a.file.id].inum)
    then State(a.cache, s.pwd[pid := a.file.id])
    else s.(cache := a.cache)
  }

  /** A new process starts where its parent is. */
  function AfterSpawn(s: State, pid: nat, child: nat): State
    requires pid in s.pwd
  {
    s.(pwd := s.pwd[child := s.pwd[pid]])
  }

  /** init_root: the root node, then its entries; the first process is there. */
  ghost function AfterInit(disk: Disk, rootInum: nat): State
    requires DiskOk(disk)
  {
    State(Filled(disk, [Node(rootInum, [SLASH], 0, [])], 0), map[0 := 0])
  }

  /** What process pid does; a process that does not exist does nothing. */
  datatype Move = Lookup(pid: nat, path: seq<u8>) | Chdir(pid: nat, path: seq<u8>) | Spawn(pid: nat, child: nat)

  ghost function Moved(disk: Disk, s: State, m: Move): (s': State)
    requires Inv(disk, s)
    ensures Inv(disk, s')
  {
    if m.pid !in s.pwd then s
    else match m
      case Lookup(pid, path) => AfterLookup(disk, s, pid, path)
      case Chdir(pid, path) => AfterChdir(disk, s, pid, path)
      case Spawn(pid, child) => AfterSpawn(s, pid, child)
  }

  /** The state after init_root and a whole run of moves. */
  ghost function Run(disk: Disk, rootInum: nat, moves: seq<Move>): (s: State)
    requires DiskOk(disk) && IsDir(disk, rootInum)
    ensures Inv(disk, s)
  {
    if moves == [] then
      InitInv(disk, rootInum);
      AfterInit(disk, rootInum)
    else Moved(disk, Run(disk, rootInum, moves[..|moves| - 1]), moves[|moves| - 1])
  }

  lemma InitInv(disk: Disk, rootInum: nat)
    requires DiskOk(disk) && IsDir(disk, rootInum)
    ensures Inv(disk, AfterInit(disk, rootInum)) && Faithful(disk, AfterInit(disk, rootInum).cache)
  {
    var c := [Node(rootInum, [SLASH], 0, [])];
    assert LeavesOk(c, 0);
    FilledOk(disk, c, 0);
    FilledFaithful(disk, c, 0);
  }

  lemma MovedFaithful(disk: Disk, s: State, m: Move)
    requires Inv(disk, s) && Faithful(disk, s.cache)
    ensures Faithful(disk, Moved(disk, s, m).cache)
  {
    if !m.Spawn? && m.pid in s.pwd {
      ResolveFaithful(disk, s.cache, Start(s.pwd[m.pid], m.path), Components(m.path));
    }
  }

  /** After every run, each cached file is the one its directory on the disk names. */
  lemma {:induction false} RunFaithful(disk: Disk, rootInum: nat, moves: seq<Move>)
    requires DiskOk(disk) && IsDir(disk, rootInum)
    ensures Faithful(disk, Run(disk, rootInum, moves).cache)
  {
    if moves == [] {
      InitInv(disk, rootInum);
    } else {
      RunFaithful(disk, rootInum, moves[..|moves| - 1]);
      MovedFaithful(disk, Run(disk, rootInum, moves[..|moves| - 1]), moves[|moves| - 1]);
    }
  }

  /** Node 0 is the root, whatever is cached. */
  lemma {:induction false} RunRoot(disk: Disk, rootInum: nat, moves: seq<Move>)
    requires DiskOk(disk) && IsDir(disk, rootInum)
    ensures var c := Run(disk, rootInum, moves).cache; c[0].inum == rootInum && Trail(disk, c, 0) == [rootInum]
  {
    if moves == [] {
      var c := [Node(rootInum, [SLASH], 0, [])];
      assert LeavesOk(c, 0);
      FilledOk(disk, c, 0);
    } else {
      RunRoot(disk, rootInum, moves[..|moves| - 1]);
      MovedExtends(disk, Run(disk, rootInum, moves[..|moves| - 1]), moves[|moves| - 1]);
    }
  }

  lemma MovedExtends(disk: Disk, s: State, m: Move)
    requires Inv(disk, s)
    ensures Extends(s.cache, Moved(disk, s, m).cache)
  {
  }

  /**
   After every run, a path leads each process exactly where the disk says: a relative one from its working directory,
   an absolute one from the root.
   */
  lemma RunResolvesOnDisk(disk: Disk, rootInum: nat, moves: seq<Move>, p: nat, path: seq<u8>)
    requires DiskOk(disk) && IsDir(disk, rootInum) && p in Run(disk, rootInum, moves).pwd
    ensures var s := Run(disk, rootInum, moves);
            var a := PathToFile(disk, s.cache, s.pwd[p], path);
            var from := if path != [] && path[0] == SLASH then [rootInum] else Trail(disk, s.cache, s.pwd[p]);
            Follow(disk, from, Components(path))
            == if a.file.Some? then At(Trail(disk, a.cache, a.file.id)) else Nowhere
  {
    RunFaithful(disk, rootInum, moves);
    RunRoot(disk, rootInum, moves);
    var s := Run(disk, rootInum, moves);
    ResolveIsFollow(disk, s.cache, Start(s.pwd[p], path), Components(path));
  }

  /** Following names one after the other. */
  lemma {:induction false} FollowAppend(disk: Disk, trail: seq<nat>, a: seq<Name>, b: seq<Name>)
    requires DiskOk(disk) && trail != []
    ensures var w := Follow(disk, trail, a);
            Follow(disk, trail, a + b) == if w.At? then Follow(disk, w.trail, b) else Nowhere
    decreases |a|
  {
    if a == [] {
      assert a + b == b;
    } else {
      assert (a + b)[1..] == a[1..] + b;
      var last := trail[|trail| - 1];
      if IsDir(disk, last) {
        if a[0] == [DOT, DOT] {
          FollowAppend(disk, if |trail| == 1 then trail else trail[..|trail| - 1], a[1..], b);
        } else if a[0] == [DOT] {
          FollowAppend(disk, trail, a[1..], b);
        } else {
          var es := Entries(disk(last).bytes, 0);
          var k := FirstNamed(es, a[0]);
          if k < |es| {
            FollowAppend(disk, trail + [es[k].inum], a[1..], b);
          }
        }
      }
    }
  }

  /** The printed path of a node, a slash, and more: the names down to the node, and then the rest. */
  lemma PrintedThen(disk: Disk, c: Cache, d: nat, t: seq<u8>)
    requires DiskOk(disk) && CacheOk(disk, c) && d < |c|
    ensures Components(Pwd(disk, c, d) + [SLASH] + t) == NamesTo(disk, c, d) + Components(t)
    ensures Pwd(disk, c, d) != [] && Pwd(disk, c, d)[0] == SLASH
  {
    PwdRoundTrip(disk, c, d, d);
    ComponentsJoin(Pwd(disk, c, d), t);
  }

  /**
   After every run a relative path means what the printed working directory, a slash and that path mean: for any two
   processes p and q, p resolving t and q resolving the long form end at the same place on the disk, or both nowhere.
   */
  lemma RunRelativePath(disk: Disk, rootInum: nat, moves: seq<Move>, p: nat, q: nat, t: seq<u8>)
    requires DiskOk(disk) && IsDir(disk, rootInum) && (t == [] || t[0] != SLASH)
    requires p in Run(disk, rootInum, moves).pwd && q in Run(disk, rootInum, moves).pwd
    ensures var s := Run(disk, rootInum, moves);
            var a := PathToFile(disk, s.cache, s.pwd[p], t);
            var b := PathToFile(disk, s.cache, s.pwd[q], Pwd(disk, s.cache, s.pwd[p]) + [SLASH] + t);
            && (a.file.Some? <==> b.file.Some?)
            && (a.file.Some? ==> Trail(disk, a.cache, a.file.id) == Trail(disk, b.cache, b.file.id))
  {
    var s := Run(disk, rootInum, moves);
    var d := s.pwd[p];
    var long := Pwd(disk, s.cache, d) + [SLASH] + t;
    PrintedThen(disk, s.cache, d, t);
    RunResolvesOnDisk(disk, rootInum, moves, p, t);
    RunResolvesOnDisk(disk, rootInum, moves, q, long);
    RunResolvesOnDisk(disk, rootInum, moves, q, Pwd(disk, s.cache, d));
    RunPwdRoundTrip(disk, rootInum, moves, p, q);
    PwdRoundTrip(disk, s.cache, d, s.pwd[q]);
    var a := PathToFile(disk, s.cache, s.pwd[q], Pwd(disk, s.cache, d));
    TrailKept(disk, s.cache, a.cache, d);
    FollowAppend(disk, [rootInum], NamesTo(disk, s.cache, d), Components(t));
  }

  /** A new process starts in the working directory of the one that loads it; nobody else moves. */
  lemma SpawnInherits(disk: Disk, rootInum: nat, moves: seq<Move>, pid: nat, child: nat)
    requires DiskOk(disk) && IsDir(disk, rootInum) && pid in Run(disk, rootInum, moves).pwd
    ensures var s, s' := Run(disk, rootInum, moves), Run(disk, rootInum, moves + [Spawn(pid, child)]);
            s'.cache == s.cache && s'.pwd == s.pwd[child := s.pwd[pid]]
  {
    LastMove(disk, rootInum, moves, Spawn(pid, child));
  }

  lemma LastMove(disk: Disk, rootInum: nat, moves: seq<Move>, m: Move)
    requires DiskOk(disk) && IsDir(disk, rootInum)
    ensures Run(disk, rootInum, moves + [m]) == Moved(disk, Run(disk, rootInum, moves), m)
  {
    var all := moves + [m];
    assert all[..|all| - 1] == moves && all[|all| - 1] == m;
  }

  /**
   Whatever paths were looked up and directories changed to, by any process, what sys_pwd writes
   for process p leads any process q back to the directory where p is.
   */
  lemma RunPwdRoundTrip(disk: Disk, rootInum: nat, moves: seq<Move>, p: nat, q: nat)
    requires DiskOk(disk) && IsDir(disk, rootInum)
    requires p in Run(disk, rootInum, moves).pwd && q in Run(disk, rootInum, moves).pwd
    ensures var s := Run(disk, rootInum, moves);
            var text := Pwd(disk, s.cache, s.pwd[p]);
            && text != [] && text[0] == SLASH && Plain(Components(text))
            && PathToFile(disk, s.cache, s.pwd[q], text).file == Some(s.pwd[p])
            && AfterChdir(disk, s, q, text).pwd == s.pwd[q := s.pwd[p]]
  {
    var s := Run(disk, rootInum, moves);
    PwdRoundTrip(disk, s.cache, s.pwd[p], s.pwd[q]);
  }
}
