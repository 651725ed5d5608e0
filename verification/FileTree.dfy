/**
 The code of kern/file.c and of the sys_chdir / sys_pwd branches of kern/syscalls/syscalls.c,
 proved against the functions of Files.
 */
module FileTree {
  import opened Words
  import opened Files

  // ---- NUL-terminated strings

  /** s starts with the string t and its terminator. */
  predicate Holds(s: seq<u8>, t: seq<u8>) {
    |t| < |s| && s[..|t|] == t && s[|t|] == 0 && forall i :: 0 <= i < |t| ==> t[i] != 0
  }

  method Memcpy(buf: array<u8>, at: nat, bytes: seq<u8>)
    requires at + |bytes| <= buf.Length
    modifies buf
    ensures buf[at..at + |bytes|] == bytes
    ensures forall i :: 0 <= i < buf.Length && !(at <= i < at + |bytes|) ==> buf[i] == old(buf[i])
  {
    var k := 0;
    while k < |bytes|
      invariant 0 <= k <= |bytes|
      invariant buf[at..at + k] == bytes[..k]
      invariant forall i :: 0 <= i < buf.Length && !(at <= i < at + k) ==> buf[i] == old(buf[i])
    {
      buf[at + k] := bytes[k];
      assert buf[at..at + (k + 1)] == buf[at..at + k] + [bytes[k]];
      k := k + 1;
    }
  }

  // ---- the components of the rest of a path

  lemma SkipSlash(t: seq<u8>, b: nat)
    requires b < |t| && t[b] == SLASH
    ensures Components(t[b..]) == Components(t[b + 1..])
  {
    assert t[b..][1..] == t[b + 1..];
  }

  lemma {:induction false} WordLenIs(t: seq<u8>, n: nat)
    requires n <= |t| && (forall i :: 0 <= i < n ==> t[i] != SLASH) && (n < |t| ==> t[n] == SLASH)
    ensures WordLen(t) == n
  {
    var w := WordLen(t);
  }

  lemma FirstWord(t: seq<u8>, b: nat, e: nat)
    requires b < e <= |t| && (forall i :: b <= i < e ==> t[i] != SLASH) && (e < |t| ==> t[e] == SLASH)
    ensures Components(t[b..]) == [t[b..e]] + Components(t[e..])
  {
    var r := t[b..];
    WordLenIs(r, e - b);
    assert r[..e - b] == t[b..e] && r[e - b..] == t[e..];
  }

  // ---- the length of what sys_pwd writes

  lemma {:induction false} JoinedLast(names: seq<Name>, n: Name)
    ensures Joined(names + [n]) == Joined(names) + [SLASH] + n
  {
    if names == [] {
      assert names + [n] == [n];
      assert Joined([n]) == [SLASH] + n + Joined([n][1..]);
    } else {
      assert (names + [n])[1..] == names[1..] + [n];
      JoinedLast(names[1..], n);
    }
  }

  /** The printed path of a node is that of its parent, a slash and its name. */
  lemma PwdOfChild(disk: Disk, c: Cache, d: nat)
    requires CacheOk(disk, c) && 0 < d < |c|
    ensures c[d].parent < d
    ensures Joined(NamesTo(disk, c, d)) == Joined(NamesTo(disk, c, c[d].parent)) + [SLASH] + c[d].name
  {
    assert NodeOk(disk, c, d);
    JoinedLast(NamesTo(disk, c, c[d].parent), c[d].name);
  }

  /** The root is printed as a slash, any other node as its parent (nothing for the root), a slash and its name. */
  lemma PwdSteps(disk: Disk, c: Cache, d: nat)
    requires CacheOk(disk, c) && d < |c|
    ensures d == 0 ==> Pwd(disk, c, d) == [47]
    ensures d > 0 ==>
              c[d].parent < d
              && Pwd(disk, c, d)
                 == (if c[d].parent == 0 then [] else Pwd(disk, c, c[d].parent)) + [47] + c[d].name
  {
    if d > 0 {
      PwdOfChild(disk, c, d);
    }
  }

  /** The entries one by one. */
  lemma ScanSplit(c: Cache, dir: nat, e: Dirent, es: seq<Dirent>)
    requires dir < |c|
    ensures Scan(c, dir, [e] + es) == Scan(Scan(c, dir, [e]), dir, es)
  {
    assert ([e] + es)[1..] == es;
    var none: seq<Dirent> := [e][1..];
    assert none == [];
  }

  function EntryAt(b: seq<u8>, o: nat): (e: Dirent)
    requires WellFormed(b, o) && o < |b| && EntryInode(b, o) != 0
    ensures GoodName(e.name)
  {
    Dirent(EntryInode(b, o), b[o + 8..o + 8 + NameLen(b, o)])
  }

  /** The inode field the loop of get_dir_entries looks at first; at the end of the file it lies behind the buffer. */
  function Peek(b: seq<u8>, o: nat, past: u32): u32
    requires o == |b| || o + 8 <= |b|
  {
    if o == |b| then past else EntryInode(b, o)
  }

  lemma ScanStep(c: Cache, dir: nat, b: seq<u8>, o: nat)
    requires dir < |c| && WellFormed(b, o) && o < |b| && EntryInode(b, o) != 0
    ensures Scan(c, dir, Entries(b, o)) == Scan(Scan(c, dir, [EntryAt(b, o)]), dir, Entries(b, o + RecLen(b, o)))
  {
    ScanSplit(c, dir, EntryAt(b, o), Entries(b, o + RecLen(b, o)));
  }

  /** A larger cache suits the same working directories. */
  lemma InvKept(disk: Disk, s: State, c: Cache)
    requires Inv(disk, s) && CacheOk(disk, c) && Extends(s.cache, c)
    ensures Inv(disk, s.(cache := c))
  {
  }

  /** now is was with the string p, terminated, at position u. */
  predicate Wrote(was: seq<u8>, now: seq<u8>, u: nat, p: seq<u8>) {
    && |now| == |was| && u + |p| < |now|
    && now[..u] == was[..u] && now[u..u + |p|] == p && now[u + |p|] == 0 && now[u + |p| + 1..] == was[u + |p| + 1..]
  }

  /** The same, with p written from its byte sz on only. */
  predicate WroteTail(was: seq<u8>, now: seq<u8>, u: nat, p: seq<u8>, sz: nat) {
    && |now| == |was| && u + |p| < |now| && now[u + |p|] == 0
    && (forall i :: 0 <= i < |now| && !(u <= i <= u + |p|) ==> now[i] == was[i])
    && (forall i :: sz <= i < |p| ==> now[u + i] == p[i])
  }

  lemma MoreWritten(was: seq<u8>, now: seq<u8>, now': seq<u8>, u: nat, p: seq<u8>, end: nat, sz: nat)
    requires WroteTail(was, now, u, p, end) && sz <= end <= |p| && |now'| == |now|
    requires now'[u + sz..u + end] == p[..end][sz..]
    requires forall i :: 0 <= i < |now| && !(u + sz <= i < u + end) ==> now'[i] == now[i]
    ensures WroteTail(was, now', u, p, sz) && p[..sz] == p[..end][..sz]
  {
    forall i | sz <= i < |p| ensures now'[u + i] == p[i] {
      if i < end {
        assert now'[u + i] == now'[u + sz..u + end][i - sz] == p[..end][sz..][i - sz];
      }
    }
  }

  lemma AllWritten(was: seq<u8>, now: seq<u8>, u: nat, p: seq<u8>)
    requires WroteTail(was, now, u, p, 0)
    ensures Wrote(was, now, u, p)
  {
    var q := now[u..u + |p|];
    assert forall i :: 0 <= i < |q| ==> q[i] == now[u + i];
  }

  method SkipSlashes(path: seq<u8>, ghost t: seq<u8>, from: nat) returns (beg: nat)
    requires Holds(path, t) && from <= |t|
    ensures from <= beg <= |t| && path[beg] != SLASH
    ensures Components(t[beg..]) == Components(t[from..])
  {
    beg := from;
    while path[beg] == SLASH
      invariant from <= beg <= |t| && Components(t[beg..]) == Components(t[from..])
      decreases |t| - beg
    {
      SkipSlash(t, beg);
      beg := beg + 1;
    }
  }

  method EndOfWord(path: seq<u8>, ghost t: seq<u8>, beg: nat) returns (end: nat)
    requires Holds(path, t) && beg < |t| && path[beg] != SLASH
    ensures beg < end <= |t| && path[beg..end] == t[beg..end]
    ensures Components(t[beg..]) == [t[beg..end]] + Components(t[end..])
  {
    end := beg + 1;
    while path[end] != 0 && path[end] != SLASH
      invariant beg < end <= |t| && forall i :: beg <= i < end ==> t[i] != SLASH
      decreases |t| - end
    {
      end := end + 1;
    }
    FirstWord(t, beg, end);
  }

  class FileTree {
    const disk: Disk
    /** What the word behind a directory buffer happens to hold: anything, at every reading. */
    const behind: (nat, nat) -> u32
    var cache: Cache
    /** p_list[pid].pwd of every process */
    var pwd: map<nat, nat>

    ghost predicate Valid()
      reads this
    {
      Inv(disk, Contents())
    }

    ghost function Contents(): State
      reads this
    {
      State(cache, pwd)
    }

    /** init_root. */
    constructor (disk: Disk, rootInum: nat, behind: (nat, nat) -> u32)
      requires DiskOk(disk) && IsDir(disk, rootInum)
      ensures Valid() && this.disk == disk && Contents() == AfterInit(disk, rootInum)
    {
      this.disk := disk;
      this.behind := behind;
      cache := [Node(rootInum, [SLASH], 0, [])];
      pwd := map[0 := 0];
      new;
      assert LeavesOk(cache, 0);
      InitInv(disk, rootInum);
      var _ := GetDirEntries(0);
    }

    /** is_cached_leaf. */
    method IsCachedLeaf(dir: nat, name: Name) returns (r: Maybe)
      requires CacheOk(disk, cache) && dir < |cache|
      ensures r == Find(cache, cache[dir].leaf, name)
      ensures r.Some? <==> exists x :: x in cache[dir].leaf && x < |cache| && cache[x].name == name
    {
      var leaf := cache[dir].leaf;
      var i := 0;
      assert leaf[0..] == leaf;
      assert LeavesOk(cache, dir);
      while i < |leaf|
        invariant 0 <= i <= |leaf|
        invariant Find(cache, leaf, name) == Find(cache, leaf[i..], name)
      {
        if cache[leaf[i]].name == name {
          return Some(leaf[i]);
        }
        assert leaf[i..][1..] == leaf[i + 1..];
        i := i + 1;
      }
      return None;
    }

    /** One turn of the loop of get_dir_entries: a leaf for a name that is neither special nor cached. */
    method AddEntry(dir: nat, e: Dirent)
      requires CacheOk(disk, cache) && dir < |cache| && IsDir(disk, cache[dir].inum) && GoodName(e.name)
      modifies this`cache
      ensures cache == Scan(old(cache), dir, [e])
      ensures CacheOk(disk, cache) && Extends(old(cache), cache)
    {
      ScanOk(disk, cache, dir, [e]);
      if e.name != [DOT] && e.name != [DOT, DOT] {
        var leaf := IsCachedLeaf(dir, e.name);
        if leaf.None? {
          var id := |cache|;
          var c := cache[dir := cache[dir].(leaf := [id] + cache[dir].leaf)];
          cache := c + [Node(e.inum, e.name, dir, [])];
        }
      }
    }

    /** The entry at offset o of a directory file; the result is the distance to the next one. */
    method ReadEntry(dir: nat, b: seq<u8>, o: nat) returns (len: nat)
      requires CacheOk(disk, cache) && dir < |cache| && IsDir(disk, cache[dir].inum)
      requires WellFormed(b, o) && o < |b| && EntryInode(b, o) != 0
      modifies this`cache
      ensures 0 < len == RecLen(b, o) && o + len <= |b| && WellFormed(b, o + len)
      ensures CacheOk(disk, cache) && dir < |cache| && IsDir(disk, cache[dir].inum)
      ensures Scan(cache, dir, Entries(b, o + len)) == Scan(old(cache), dir, Entries(b, o))
    {
      ScanStep(cache, dir, b, o);
      AddEntry(dir, EntryAt(b, o));
      len := RecLen(b, o);
    }

    /** get_dir_entries. */
    method GetDirEntries(dir: nat) returns (ok: bool)
      requires DiskOk(disk) && CacheOk(disk, cache) && dir < |cache|
      modifies this`cache
      ensures ok <==> IsDir(disk, old(cache)[dir].inum)
      ensures cache == Filled(disk, old(cache), dir) && CacheOk(disk, cache) && Extends(old(cache), cache)
    {
      if !IsDir(disk, cache[dir].inum) {
        return false;
      }
      FilledOk(disk, cache, dir);
      ReadAll(dir, disk(cache[dir].inum).bytes);
      return true;
    }

    /** The loop of get_dir_entries over the bytes of the directory. */
    method ReadAll(dir: nat, mmap: seq<u8>)
      requires CacheOk(disk, cache) && dir < |cache| && IsDir(disk, cache[dir].inum) && WellFormed(mmap, 0)
      modifies this`cache
      ensures cache == Scan(old(cache), dir, Entries(mmap, 0))
    {
      var dsize: nat, dentry: nat := |mmap|, 0;
      ghost var want := Scan(cache, dir, Entries(mmap, 0));
      while Peek(mmap, dentry, behind(dir, |cache|)) != 0 && dsize != 0
        invariant dsize == |mmap| - dentry && dentry <= |mmap| && WellFormed(mmap, dentry)
        invariant CacheOk(disk, cache) && dir < |cache| && IsDir(disk, cache[dir].inum)
        invariant Scan(cache, dir, Entries(mmap, dentry)) == want
        decreases dsize
      {
        var len := ReadEntry(dir, mmap, dentry);
        dsize := dsize - len;
        dentry := dentry + len;
      }
    }

    /** The body of the loop of path_to_file: from fp to its component name. */
    method Enter(fp: nat, name: Name) returns (r: Maybe)
      requires DiskOk(disk) && CacheOk(disk, cache) && fp < |cache|
      modifies this`cache
      ensures Answer(cache, r) == Resolve(disk, old(cache), fp, [name])
      ensures CacheOk(disk, cache) && Extends(old(cache), cache) && (r.Some? ==> r.id < |cache|)
    {
      if !IsDir(disk, cache[fp].inum) {
        return None;
      }
      ghost var one: seq<Name> := [name];
      assert one[1..] == [];
      if name == [DOT, DOT] {
        assert fp == 0 || NodeOk(disk, cache, fp);
        return Some(cache[fp].parent);
      }
      if name == [DOT] {
        return Some(fp);
      }
      var _ := GetDirEntries(fp);
      r := IsCachedLeaf(fp, name);
    }

    /** The loop of path_to_file, starting at node start. */
    method WalkPath(start: nat, path: seq<u8>, ghost t: seq<u8>) returns (r: Maybe)
      requires DiskOk(disk) && CacheOk(disk, cache) && start < |cache| && Holds(path, t)
      modifies this`cache
      ensures Answer(cache, r) == Resolve(disk, old(cache), start, Components(t))
    {
      var fp: nat := start;
      ghost var want := Resolve(disk, cache, fp, Components(t));
      var beg := SkipSlashes(path, t, 0);
      assert t[0..] == t;
      while path[beg] != 0
        invariant beg <= |t| && path[beg] != SLASH
        invariant CacheOk(disk, cache) && fp < |cache|
        invariant Resolve(disk, cache, fp, Components(t[beg..])) == want
        decreases |t| - beg
      {
        var end := EndOfWord(path, t, beg);
        ResolveAppend(disk, cache, fp, [t[beg..end]], Components(t[end..]));
        r := Enter(fp, path[beg..end]);
        if r.None? {
          return;
        }
        fp := r.id;
        beg := SkipSlashes(path, t, end);
      }
      return Some(fp);
    }

    /** path_to_file, called by process pid; path starts with the string t. */
    method PathToFile(pid: nat, path: seq<u8>, ghost t: seq<u8>) returns (r: Maybe)
      requires Valid() && pid in pwd && Holds(path, t)
      modifies this`cache
      ensures t != [] && t[0] == SLASH ==> Answer(cache, r) == Resolve(disk, old(cache), 0, Components(t))
      ensures t == [] || t[0] != SLASH ==> Answer(cache, r) == Resolve(disk, old(cache), pwd[pid], Components(t))
      ensures Answer(cache, r) == Files.PathToFile(disk, old(cache), pwd[pid], t)
      ensures Valid()
    {
      ghost var s := Contents();
      if path[0] != SLASH {
        r := WalkPath(pwd[pid], path, t);
      } else {
        r := WalkPath(0, path, t);
      }
      InvKept(disk, s, cache);
    }

    /** sys_chdir: -1 for a path that leads nowhere, -2 for one that leads to no directory. */
    method SysChdir(pid: nat, path: seq<u8>, ghost t: seq<u8>) returns (ok: int)
      requires Valid() && pid in pwd && Holds(path, t)
      modifies this`cache, this`pwd
      ensures Valid() && Contents() == AfterChdir(disk, old(Contents()), pid, t)
      ensures var a := Resolve(disk, old(cache), if t != [] && t[0] == SLASH then 0 else old(pwd)[pid], Components(t));
              && cache == a.cache
              && pwd == if ok == 0 && a.file.Some? then old(pwd)[pid := a.file.id] else old(pwd)
      ensures ok == var a := Files.PathToFile(disk, old(cache), old(pwd)[pid], t);
                    if a.file.None? then -1 else if IsDir(disk, a.cache[a.file.id].inum) then 0 else -2
    {
      var fp := PathToFile(pid, path, t);
      if fp.None? {
        return -1;
      }
      if !IsDir(disk, cache[fp.id].inum) {
        return -2;
      }
      pwd := pwd[pid := fp.id];
      return 0;
    }

    /** The first loop of sys_pwd: the length of the path of fp. */
    method PwdSize(d: nat) returns (sz: nat)
      requires CacheOk(disk, cache) && 0 < d < |cache|
      ensures sz == |Pwd(disk, cache, d)|
    {
      var fp: nat := d;
      sz := |cache[fp].name| + 1;
      PwdOfChild(disk, cache, fp);
      while cache[fp].parent != 0
        invariant 0 < fp < |cache| && cache[fp].parent < fp
        invariant sz + |Joined(NamesTo(disk, cache, cache[fp].parent))| == |Pwd(disk, cache, d)|
        decreases fp
      {
        fp := cache[fp].parent;
        PwdOfChild(disk, cache, fp);
        sz := sz + |cache[fp].name| + 1;
      }
    }

    /** One turn of the second loop: the name of fp and a slash, in front of byte end of the buffer at u. */
    method WriteName(fp: nat, mem: array<u8>, u: nat, end: nat) returns (sz: nat)
      requires CacheOk(disk, cache) && 0 < fp < |cache|
      requires end == |Joined(NamesTo(disk, cache, fp))| && u + end <= mem.Length
      modifies mem
      ensures cache[fp].parent < fp
      ensures sz < end && Joined(NamesTo(disk, cache, fp))[..sz] == Joined(NamesTo(disk, cache, cache[fp].parent))
      ensures mem[u + sz..u + end] == Joined(NamesTo(disk, cache, fp))[sz..]
      ensures forall i :: 0 <= i < mem.Length && !(u + sz <= i < u + end) ==> mem[i] == old(mem[i])
    {
      PwdOfChild(disk, cache, fp);
      var name := cache[fp].name;
      Memcpy(mem, u + end - |name|, name);
      sz := end - (|name| + 1);
      mem[u + sz] := SLASH;
      assert mem[u + sz..u + end] == [SLASH] + mem[u + sz + 1..u + end];
    }

    /**
     sys_pwd: the path and its terminator in user memory from address u on, and no other byte.  The kernel
     knows no buffer size; the memory it writes to has to be there.
     */
    method SysPwd(pid: nat, mem: array<u8>, u: nat)
      requires Valid() && pid in pwd
      requires u + |Pwd(disk, cache, pwd[pid])| < mem.Length
      modifies mem
      ensures Wrote(old(mem[..]), mem[..], u, Pwd(disk, cache, pwd[pid]))
    {
      if pwd[pid] == 0 {
        mem[u] := SLASH;
        mem[u + 1] := 0;
        assert mem[u..u + 1] == [SLASH];
        return;
      }
      WritePath(pwd[pid], mem, u);
    }

    /** The second loop of sys_pwd, from the end of the path to its start. */
    method WritePath(d: nat, mem: array<u8>, u: nat)
      requires CacheOk(disk, cache) && 0 < d < |cache|
      requires u + |Pwd(disk, cache, d)| < mem.Length
      modifies mem
      ensures Wrote(old(mem[..]), mem[..], u, Pwd(disk, cache, d))
    {
      var fp: nat := d;
      ghost var p := Pwd(disk, cache, fp);
      var sz := PwdSize(fp);
      mem[u + sz] := 0;
      assert p[..sz] == p;
      while sz > 0
        invariant 0 <= sz <= |p| && fp < |cache|
        invariant p[..sz] == Joined(NamesTo(disk, cache, fp))
        invariant WroteTail(old(mem[..]), mem[..], u, p, sz)
        decreases sz
      {
        assert fp != 0;
        ghost var before, end := mem[..], sz;
        sz := WriteName(fp, mem, u, sz);
        MoreWritten(old(mem[..]), before, mem[..], u, p, end, sz);
        fp := cache[fp].parent;
      }
      AllWritten(old(mem[..]), mem[..], u, p);
    }
  }
}
