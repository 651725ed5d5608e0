/**
 The two file modules put together: what Files takes as the contents of a file is what ext2_read_file
 delivers from a disk image.
 */
module DiskImage {
  import opened Layout
  import opened Words
  import Ext2
  import Files

  /** What matters of an inode on the disk. */
  datatype Info = Info(mode: nat, inode: Ext2.Inode)

  /** The bytes of a file by index arithmetic on the image. */
  function Contents(v: Ext2.Volume, ino: Ext2.Inode): (s: seq<u8>)
    requires v.Valid() && ino.Valid()
    ensures |s| == ino.size && forall o :: 0 <= o < |s| ==> s[o] == Ext2.FileByte(v, ino, o)
  {
    seq(ino.size, o requires 0 <= o < ino.size => Ext2.FileByte(v, ino, o))
  }

  /** The disk that the cache and path resolution see. */
  function ImageDisk(v: Ext2.Volume, inodes: nat -> Info): Files.Disk
    requires v.Valid()
  {
    (n: nat) => Files.DiskFile(inodes(n).mode, if inodes(n).inode.Valid() then Contents(v, inodes(n).inode) else [])
  }

  /** Every directory is a file without holes, whose blocks lie inside the volume. */
  ghost predicate DirectoriesWhole(v: Ext2.Volume, inodes: nat -> Info)
    requires v.Valid()
  {
    forall n: nat :: Files.IsDir(ImageDisk(v, inodes), n) ==>
      var ino := inodes(n).inode;
      ino.Valid() && Ext2.HoleFree(v, ino) && Ext2.FileInVolume(v, ino)
  }

  /** The disk as the code reads it: what ext2_read_file copies for each inode. */
  function ReadDisk(v: Ext2.Volume, inodes: nat -> Info): Files.Disk
    requires v.Valid()
  {
    (n: nat) => Files.DiskFile(inodes(n).mode, if inodes(n).inode.Valid() then Copied(v, inodes(n).inode) else [])
  }

  /** The bytes ext2_read_file copies. */
  function Copied(v: Ext2.Volume, ino: Ext2.Inode): seq<u8>
    requires v.Valid() && ino.Valid()
  {
    var data := Ext2.Data(v, Ext2.Visited(v, ino));
    data[..Ext2.Min(ino.size, |data|)]
  }

  /** For a file without holes the two are the same. */
  lemma CopiedIsContents(v: Ext2.Volume, ino: Ext2.Inode)
    requires v.Valid() && ino.Valid() && Ext2.HoleFree(v, ino)
    ensures Copied(v, ino) == Contents(v, ino)
  {
    Ext2.HoleFreeData(v, ino);
  }

  /** ext2_read_file on a directory delivers what get_dir_entries parses. */
  method ReadDirectory(v: Ext2.Volume, inodes: nat -> Info, n: nat) returns (bytes: seq<u8>)
    requires v.Valid() && DirectoriesWhole(v, inodes) && Files.IsDir(ImageDisk(v, inodes), n)
    ensures bytes == ReadDisk(v, inodes)(n).bytes == ImageDisk(v, inodes)(n).bytes
  {
    var mmap, copied := Ext2.ReadFile(v, inodes(n).inode, 0, 0, 0);
    bytes := mmap[..];
    CopiedIsContents(v, inodes(n).inode);
  }

  /** Both disks have the same directories, with the same bytes. */
  ghost predicate SameDirectories(disk: Files.Disk, disk': Files.Disk) {
    forall n: nat :: Files.IsDir(disk, n) == Files.IsDir(disk', n) &&
      (Files.IsDir(disk, n) ==> disk(n).bytes == disk'(n).bytes)
  }

  lemma ReadsTheImage(v: Ext2.Volume, inodes: nat -> Info)
    requires v.Valid() && DirectoriesWhole(v, inodes)
    ensures SameDirectories(ReadDisk(v, inodes), ImageDisk(v, inodes))
  {
    forall n: nat | Files.IsDir(ImageDisk(v, inodes), n)
      ensures ReadDisk(v, inodes)(n).bytes == ImageDisk(v, inodes)(n).bytes
    {
      CopiedIsContents(v, inodes(n).inode);
    }
  }

  /** Following a path only looks at directories. */
  lemma {:induction false} SameFollow(disk: Files.Disk, disk': Files.Disk, trail: seq<nat>, names: seq<Files.Name>)
    requires Files.DiskOk(disk) && Files.DiskOk(disk') && SameDirectories(disk, disk') && trail != []
    ensures Files.Follow(disk, trail, names) == Files.Follow(disk', trail, names)
    decreases |names|
  {
    var last := trail[|trail| - 1];
    assert Files.IsDir(disk, last) == Files.IsDir(disk', last);
    if names != [] && Files.IsDir(disk, last) {
      if names[0] == [Files.DOT, Files.DOT] {
        SameFollow(disk, disk', if |trail| == 1 then trail else trail[..|trail| - 1], names[1..]);
      } else if names[0] == [Files.DOT] {
        SameFollow(disk, disk', trail, names[1..]);
      } else {
        var es := Files.Entries(disk(last).bytes, 0);
        var k := Files.FirstNamed(es, names[0]);
        if k < |es| {
          SameFollow(disk, disk', trail + [es[k].inum], names[1..]);
        }
      }
    }
  }

  /**
   After every run of the code on what it reads from the drive, a path leads each process where following it on the
   disk image, by index arithmetic, leads.
   */
  lemma RunResolvesOnImage(v: Ext2.Volume, inodes: nat -> Info, rootInum: nat, moves: seq<Files.Move>, p: nat,
                           path: seq<u8>)
    requires v.Valid() && DirectoriesWhole(v, inodes)
    requires Files.DiskOk(ImageDisk(v, inodes)) && Files.IsDir(ImageDisk(v, inodes), rootInum)
    ensures Files.DiskOk(ReadDisk(v, inodes)) && Files.IsDir(ReadDisk(v, inodes), rootInum)
    ensures var disk := ReadDisk(v, inodes);
            var s := Files.Run(disk, rootInum, moves);
            p in s.pwd ==>
              var a := Files.PathToFile(disk, s.cache, s.pwd[p], path);
              var absolute := path != [] && path[0] == Files.SLASH;
              var from := if absolute then [rootInum] else Files.Trail(disk, s.cache, s.pwd[p]);
              Files.Follow(ImageDisk(v, inodes), from, Files.Components(path))
              == if a.file.Some? then Files.At(Files.Trail(disk, a.cache, a.file.id)) else Files.Nowhere
  {
    ReadsTheImage(v, inodes);
    var disk := ReadDisk(v, inodes);
    assert Files.DiskOk(disk) by {
      forall n: nat | Files.IsDir(disk, n) ensures Files.WellFormed(disk(n).bytes, 0) {
        assert Files.WellFormed(ImageDisk(v, inodes)(n).bytes, 0);
      }
    }
    assert Files.IsDir(disk, rootInum);
    var s := Files.Run(disk, rootInum, moves);
    if p in s.pwd {
      Files.RunResolvesOnDisk(disk, rootInum, moves, p, path);
      SameFollow(disk, ImageDisk(v, inodes), [rootInum], Files.Components(path));
      SameFollow(disk, ImageDisk(v, inodes), Files.Trail(disk, s.cache, s.pwd[p]), Files.Components(path));
    }
  }
}
