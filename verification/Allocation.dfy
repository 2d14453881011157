// The regions of a fresh disk, and the allocation and freeing of its inodes and data blocks
// (fs.c).
module Allocation {
  import opened Arithmetic
  import opened BlockCache
  import opened FileBytes
  import opened Layout
  import opened Files

  // sizeof(struct diskInode): three 2-byte members padded to 8, five 4-byte ones, a 2-byte one
  // padded to 4, and 65 4-byte ones; so each has a block of its own.
  const DISK_INODE: nat := 292

  // ---- the data bitmap

  // freeData, taking an index into the bitmap.
  method FreeData(fs: FileSystem, addr: nat) returns (r: int)
    requires fs.DeviceOk() && (addr <= fs.sb.nDataBlock as int ==> addr < BSIZE)
    modifies fs.cache
    ensures fs.DeviceOk()
    ensures r == -1 <==> addr > fs.sb.nDataBlock as int
    ensures r == -1 ==> fs.cache.disk == old(fs.cache.disk)
    ensures r != -1 ==>
      && r == 0
      && fs.cache.disk == old(fs.cache.disk)[(0, DataBitmap(fs.sb)) :=
           Sector(old(fs.cache.disk), 0, DataBitmap(fs.sb))[addr := 0]]
  {
    var s := fs.ReadSuperblock();
    var db := fs.ReadBlock(s.bitmapStart as int + 1);
    if addr > s.nDataBlock as int {
      return -1;
    }
    fs.WriteBitmap(db, fs.cache.data[db][addr := 0]);
    r := 0;
  }

  // Freeing undoes an allocation exactly when it is given the index of the block.
  lemma FreeUndoesAlloc(m: seq<byte>, n: nat, i: int, x: nat)
    requires n <= |m| && LowestFree(m, n, i) && i != -1 && x < |m|
    ensures Mark(m, i)[x := 0] == m <==> x == i
  {
    if x != i {
      assert Mark(m, i)[x := 0][i] == 1;
    } else {
      assert Mark(m, i)[x := 0] == m;
    }
  }

  // Given the address that allocData returned, as its caller at fs.c:914 gives it, freeData never
  // undoes the allocation: it refuses, or clears another entry.  On a fresh disk it always refuses.
  lemma AddressIsNoIndex(sb: Superblock, m: seq<byte>, i: int)
    requires RegionsOk(sb) && |m| == BSIZE && LowestFree(m, sb.nDataBlock as int, i) && i != -1
    ensures
      var addr := sb.dataStart as int + i;
      && (addr <= sb.nDataBlock as int && addr < BSIZE ==> Mark(m, i)[addr := 0] != m)
      && (sb == Fresh(sb.size) ==> addr > sb.nDataBlock as int)
  {
    var addr := sb.dataStart as int + i;
    if addr < BSIZE {
      FreeUndoesAlloc(m, sb.nDataBlock as int, i, addr);
    }
  }

  // allocData followed by freeData of the index leaves every sector as it was.
  method AllocThenFree(fs: FileSystem) returns (addr: int)
    requires fs.DeviceOk() && fs.FreeBlocks() > 0
    modifies fs.cache
    ensures fs.DeviceOk() && InData(fs.sb, addr)
    ensures forall b :: Sector(fs.cache.disk, 0, b) == Sector(old(fs.cache.disk), 0, b)
  {
    hide Cache.Valid, Decode, Free;
    ghost var m := Sector(fs.cache.disk, 0, DataBitmap(fs.sb));
    addr := fs.AllocFree();
    var s := fs.ReadSuperblock();
    var i := addr - s.dataStart as int;
    var r := FreeData(fs, i);
    FreeUndoesAlloc(m, fs.sb.nDataBlock as int, i, i);
  }

  // ---- the regions

  // diskLayoutInit's superblock; it leaves the size unset.
  function Fresh(size: uint32): Superblock {
    Superblock(size, 0, 10, 10, 10, 3, 10, 20, 23)
  }

  datatype Region = Super | Log | Inodes | InodeMap | DataMap | Data

  // The blocks of a region, from the first up to but not the second.
  function Blocks(sb: Superblock, r: Region): (int, int) {
    match r
    case Super => (1, 2)
    case Log => (sb.logStart as int, sb.logStart as int + sb.nLogBlock as int)
    case Inodes => (sb.inodeStart as int, sb.inodeStart as int + sb.nInodeBlock as int)
    case InodeMap => (sb.bitmapStart as int, sb.bitmapStart as int + 1)
    case DataMap => (sb.bitmapStart as int + 1, sb.bitmapStart as int + 2)
    case Data => (sb.dataStart as int, sb.dataStart as int + sb.nDataBlock as int)
  }

  predicate In(sb: Superblock, r: Region, b: int) {
    Blocks(sb, r).0 <= b < Blocks(sb, r).1
  }

  // On a fresh disk any two regions are disjoint, but for the log, which runs into the inodes.
  lemma FreshRegions(size: uint32, r: Region, q: Region)
    ensures (exists b :: In(Fresh(size), r, b) && In(Fresh(size), q, b)) <==> r == q || {r, q} == {Log, Inodes}
  {
    var sb := Fresh(size);
    if r == q {
      assert In(sb, r, Blocks(sb, r).0);
    } else if {r, q} == {Log, Inodes} {
      assert {r, q} == {Log, Inodes} && r in {Log, Inodes} && q in {Log, Inodes};
      assert In(sb, r, 10) && In(sb, q, 10);
    } else {
      assert r == Log ==> q != Inodes;
      assert q == Log ==> r != Inodes;
    }
  }

  // ---- inodes

  // Where disk inode number ino lies when one takes size bytes: its block within the inode region,
  // and its byte offset there.
  function PerBlock(size: nat): (n: nat)
    requires 0 < size <= BSIZE
    ensures n > 0 && n * size <= BSIZE
  {
    BSIZE / size
  }

  function SlotBlock(ino: nat, size: nat): nat
    requires 0 < size <= BSIZE
  {
    ino / PerBlock(size)
  }

  function SlotOff(ino: nat, size: nat): nat
    requires 0 < size <= BSIZE
  {
    ino % PerBlock(size) * size
  }

  // Whatever the size of a disk inode, distinct numbers have disjoint byte ranges, each inside one
  // block, and the block is one of the inode region exactly for the numbers that fit there.
  lemma SlotsApart(sb: Superblock, size: nat, i: nat, j: nat)
    requires 0 < size <= BSIZE
    ensures SlotOff(i, size) + size <= BSIZE
    ensures In(sb, Inodes, sb.inodeStart as int + SlotBlock(i, size)) <==> i < sb.nInodeBlock as int * PerBlock(size)
    ensures i != j ==>
      || SlotBlock(i, size) != SlotBlock(j, size)
      || SlotOff(i, size) + size <= SlotOff(j, size) || SlotOff(j, size) + size <= SlotOff(i, size)
  {
    var n := PerBlock(size);
    hide PerBlock;
    MulStep(size, i % n, n);
    BlockBelow(i, n, sb.nInodeBlock as int);
    if i != j && i / n == j / n {
      assert i == n * (i / n) + i % n && j == n * (j / n) + j % n;
      if i % n < j % n {
        MulStep(size, i % n, j % n);
      } else {
        MulStep(size, j % n, i % n);
      }
    }
  }

  lemma BlockBelow(i: nat, n: nat, blocks: nat)
    requires n > 0
    ensures i / n < blocks <==> i < blocks * n
  {
    assert i == n * (i / n) + i % n;
    if i / n < blocks {
      MulStep(n, i / n, blocks);
    } else {
      QuotientAbove(n, blocks, i / n);
    }
  }

  lemma QuotientAbove(n: nat, a: nat, b: nat)
    requires a <= b
    ensures a * n <= n * b
  {
    if a < b { MulStep(n, a, b); }
  }

  // The inode blocks and the inode bitmap lie between the superblock and the data bitmap.
  predicate InodesOk(sb: Superblock) {
    && 1 < sb.inodeStart as int && sb.inodeStart as int + sb.nInodeBlock as int <= sb.bitmapStart as int
    && sb.nInodeBlock as int <= BSIZE
  }

  // The disk once inode number ino is marked as taken and its disk inode zeroed.
  ghost function WithInode(sb: Superblock, disk: Disk, ino: int): (r: Disk)
    requires DiskOk(disk) && InodesOk(sb) && -1 <= ino < sb.nInodeBlock as int
    ensures DiskOk(r)
    ensures forall b :: b > sb.bitmapStart as int ==> Sector(r, 0, b) == Sector(disk, 0, b)
  {
    var r := disk[(0, sb.bitmapStart as int) := Mark(Sector(disk, 0, sb.bitmapStart as int), ino)];
    if ino == -1 then r
    else
      var b := sb.inodeStart as int + SlotBlock(ino, DISK_INODE);
      r[(0, b) := Splice(Sector(disk, 0, b), SlotOff(ino, DISK_INODE), seq(DISK_INODE, _ => 0))]
  }

  // Where disk inode number ino lies.
  predicate InSlot(sb: Superblock, ino: int, b: int, o: int) {
    && ino >= 0 && b == sb.inodeStart as int + SlotBlock(ino, DISK_INODE)
    && SlotOff(ino, DISK_INODE) <= o < SlotOff(ino, DISK_INODE) + DISK_INODE
  }

  // Byte by byte: number ino, free before, is taken and its disk inode is zero; every other byte of
  // every sector is as it was.
  ghost predicate Entered(sb: Superblock, was: Disk, now: Disk, ino: int)
    requires DiskOk(was) && DiskOk(now)
  {
    && (0 <= ino < BSIZE ==> Sector(was, 0, sb.bitmapStart as int)[ino] == 0)
    && (0 <= ino < BSIZE ==> Sector(now, 0, sb.bitmapStart as int)[ino] == 1)
    && (forall b, o :: 0 <= o < BSIZE && InSlot(sb, ino, b, o) ==> Sector(now, 0, b)[o] == 0)
    && (forall dev, b, o | 0 <= o < BSIZE ::
          || Sector(now, dev, b)[o] == Sector(was, dev, b)[o]
          || (dev == 0 && (InSlot(sb, ino, b, o) || (b == sb.bitmapStart as int && o == ino))))
  }

  // The free numbers go down by one, when there is one, and the number entered is free.
  lemma InodeEntered(sb: Superblock, disk: Disk, ino: int)
    requires DiskOk(disk) && InodesOk(sb)
    requires LowestFree(Sector(disk, 0, sb.bitmapStart as int), sb.nInodeBlock as int, ino)
    ensures Entered(sb, disk, WithInode(sb, disk, ino), ino)
    ensures ino == -1 <==> Free(Sector(disk, 0, sb.bitmapStart as int), sb.nInodeBlock as int) == 0
    ensures Sector(WithInode(sb, disk, ino), 0, sb.bitmapStart as int) ==
            Mark(Sector(disk, 0, sb.bitmapStart as int), ino)
    ensures Free(Sector(WithInode(sb, disk, ino), 0, sb.bitmapStart as int), sb.nInodeBlock as int) ==
            Free(Sector(disk, 0, sb.bitmapStart as int), sb.nInodeBlock as int) - if ino == -1 then 0 else 1
  {
    hide Free, SlotBlock, SlotOff;
    var m := Sector(disk, 0, sb.bitmapStart as int);
    if ino == -1 {
      FreeNone(m, sb.nInodeBlock as int);
    } else {
      FreeMark(m, sb.nInodeBlock as int, ino);
      SlotsApart(sb, DISK_INODE, ino, ino);
    }
  }

  // allocInode: the lowest free inode number, or -1.
  method AllocInode(fs: FileSystem) returns (ino: int)
    requires fs.DeviceOk() && InodesOk(fs.sb)
    modifies fs.cache
    ensures fs.DeviceOk()
    ensures LowestFree(Sector(old(fs.cache.disk), 0, fs.sb.bitmapStart as int), fs.sb.nInodeBlock as int, ino)
    ensures fs.cache.disk == WithInode(fs.sb, old(fs.cache.disk), ino)
    ensures Entered(fs.sb, old(fs.cache.disk), fs.cache.disk, ino)
  {
    hide Cache.Valid, Decode, Entered;
    var s := fs.ReadSuperblock();
    var bb := fs.ReadBlock(s.bitmapStart as int);
    ino := ScanBitmap(fs.cache.data[bb], s.nInodeBlock as int);
    InodeEntered(fs.sb, fs.cache.disk, ino);
    WriteMeta(fs, bb, s.bitmapStart as int, Mark(fs.cache.data[bb], ino));
    if ino == -1 {
      return;
    }
    var ib := fs.ReadBlock(s.inodeStart as int + SlotBlock(ino, DISK_INODE));
    WriteMeta(fs, ib, s.inodeStart as int + SlotBlock(ino, DISK_INODE),
              Splice(fs.cache.data[ib], SlotOff(ino, DISK_INODE), seq(DISK_INODE, _ => 0)));
  }

  ghost function InodeMap(fs: FileSystem): seq<byte>
    requires DiskOk(fs.cache.disk)
    reads fs, fs.cache
  {
    Sector(fs.cache.disk, 0, fs.sb.bitmapStart as int)
  }

  // What the numbers handed out so far are, the bitmap once m being now.
  ghost predicate Numbered(m: seq<byte>, now: seq<byte>, max: nat, inos: seq<int>) {
    && max <= |m| == |now|
    && Free(now, max) == (if |inos| <= Free(m, max) then Free(m, max) - |inos| else 0)
    && (forall k :: 0 <= k < |inos| ==> (inos[k] == -1 <==> k >= Free(m, max)))
    && (forall k :: 0 <= k < |inos| && inos[k] != -1 ==>
          0 <= inos[k] < max && m[inos[k]] == 0 && now[inos[k]] != 0)
    && (forall j, k :: 0 <= j < k < |inos| && inos[k] != -1 ==> inos[j] < inos[k])
    && (forall k, z :: 0 <= k < |inos| && 0 <= z < max && now[z] == 0 ==> inos[k] < z)
    && (forall z :: 0 <= z < max && now[z] == 0 ==> m[z] == 0)
  }

  lemma NumberedNext(m: seq<byte>, was: seq<byte>, max: nat, inos: seq<int>, ino: int)
    requires Numbered(m, was, max, inos) && LowestFree(was, max, ino)
    ensures Numbered(m, Mark(was, ino), max, inos + [ino])
  {
    if ino == -1 { FreeNone(was, max); } else { FreeMark(was, max, ino); }
    hide Free;
  }

  // n calls of allocInode: ascending free numbers as long as there are any, then -1.
  method AllocInodes(fs: FileSystem, n: nat) returns (inos: seq<int>)
    requires fs.DeviceOk() && InodesOk(fs.sb)
    modifies fs.cache
    ensures fs.DeviceOk() && |inos| == n
    ensures forall k :: 0 <= k < n ==> (inos[k] == -1 <==> k >= Free(old(InodeMap(fs)), fs.sb.nInodeBlock as int))
    ensures forall k :: 0 <= k < n && inos[k] != -1 ==>
      0 <= inos[k] < fs.sb.nInodeBlock as int && old(InodeMap(fs))[inos[k]] == 0 && InodeMap(fs)[inos[k]] != 0
    ensures forall j, k :: 0 <= j < k < n && inos[k] != -1 ==> inos[j] < inos[k]
  {
    hide Cache.Valid, Decode, Free, Entered;
    inos := [];
    ghost var m, max := InodeMap(fs), fs.sb.nInodeBlock as int;
    for i := 0 to n
      invariant fs.DeviceOk() && |inos| == i
      invariant Numbered(m, InodeMap(fs), max, inos)
    {
      ghost var was := fs.cache.disk;
      var ino := AllocInode(fs);
      InodeEntered(fs.sb, was, ino);
      NumberedNext(m, Sector(was, 0, fs.sb.bitmapStart as int), max, inos, ino);
      inos := inos + [ino];
    }
  }

  method WriteMeta(fs: FileSystem, db: int, b: int, bytes: seq<byte>)
    requires fs.DeviceOk() && fs.cache.IsBuffer(db, 0, b) && |bytes| == BSIZE && 1 < b <= fs.sb.bitmapStart as int
    modifies fs.cache
    ensures fs.DeviceOk() && fs.cache.disk == old(fs.cache.disk)[(0, b) := bytes]
  {
    fs.cache.EditAndWrite(db, bytes);
  }

  // Blocks before the data bitmap are no part of any file.
  lemma KeepFiles(fs: FileSystem, was: Disk)
    requires fs.DeviceOk() && DiskOk(was) && fs.Maps(was, null, 0)
    requires forall b :: b >= DataBitmap(fs.sb) ==> Sector(fs.cache.disk, 0, b) == Sector(was, 0, b)
    ensures fs.Maps(fs.cache.disk, null, 0)
    ensures forall a :: a in fs.inodes ==> fs.Content(a) == Text(was, a.block, a.size)
  {
    forall a | a in fs.inodes
      ensures fs.Content(a) == Text(was, a.block, a.size) && MapOk(fs.sb, fs.cache.disk, a.block, a.size / BSIZE)
    {
      assert MapOk(fs.sb, was, a.block, a.size / BSIZE);
      forall j | 0 <= j <= a.size / BSIZE
        ensures Taken(fs.sb, fs.cache.disk, a.block[j])
        ensures Sector(fs.cache.disk, 0, a.block[j]) == Sector(was, 0, a.block[j])
      {
        assert Taken(fs.sb, was, a.block[j]);
      }
      FrameBytes(was, fs.cache.disk, a.block, a.block, a.size);
    }
  }

  // ---- a fresh disk

  // diskLayoutInit: the superblock and two empty bitmaps.
  method DiskLayoutInit(cache: Cache, size: uint32)
    requires cache.Valid() && cache.Resident() == {}
    modifies cache
    ensures cache.Valid() && cache.Resident() == {(0, 1)} + {(0, 20)} + {(0, 21)}
    ensures
      var zeros := seq(BSIZE, _ => 0);
      cache.disk == old(cache.disk)[(0, 1) := Encode(Fresh(size))][(0, 20) := zeros][(0, 21) := zeros]
    ensures
      var s := Sector(cache.disk, 0, 1);
      && |s| == BSIZE && Holds(s, 8, 10) && Holds(s, 12, 10) && Holds(s, 16, 10)
      && Holds(s, 20, 3) && Holds(s, 24, 10) && Holds(s, 28, 20) && Holds(s, 32, 23)
  {
    EncodeBytes(Fresh(size));
    hide Cache.Structure, Cache.Coherent, Encode, ResidentOf, Holds;
    cache.BlockWrite(0, 1, Encode(Fresh(size)), -1);
    cache.BlockWrite(0, 20, seq(BSIZE, _ => 0), -1);
    cache.BlockWrite(0, 21, seq(BSIZE, _ => 0), -1);
  }

  // What diskLayoutInit leaves is a file system without files and with every data block free.
  lemma FreshDisk(fs: FileSystem, was: Disk)
    requires fs.cache.Valid() && fs.cache.Resident() == {(0, 1)} + {(0, 20)} + {(0, 21)}
    requires fs.sb == Fresh(fs.sb.size) && fs.fds == [] && fs.inodes == {}
    requires
      var zeros := seq(BSIZE, _ => 0);
      fs.cache.disk == was[(0, 1) := Encode(fs.sb)][(0, 20) := zeros][(0, 21) := zeros]
    ensures fs.Valid() && InodesOk(fs.sb) && fs.FreeBlocks() == 10
  {
    DecodeEncode(fs.sb);
    assert Sector(fs.cache.disk, 0, 1) == Encode(fs.sb);
    assert DiskOk(fs.cache.disk);
    hide Decode, Encode, Free, Cache.Valid;
    assert fs.DeviceOk();
    AllFree(Sector(fs.cache.disk, 0, 21), 10);
  }

  lemma {:induction false} AllFree(m: seq<byte>, n: nat)
    requires n <= |m| && forall k :: 0 <= k < n ==> m[k] == 0
    ensures Free(m, n) == n
  {
    if n > 0 { AllFree(m, n - 1); }
  }

  // creat without its directory entry: a free inode number, and an inode whose map has the
  // lowest free data block as its first entry.
  method Creat(fs: FileSystem) returns (ind: Inode?, grown: FileSystem)
    requires fs.Valid() && InodesOk(fs.sb) && fs.FreeBlocks() > 0
    modifies fs.cache
    ensures grown.Valid() && grown.sb == fs.sb && grown.cache == fs.cache && grown.repaired == fs.repaired
    ensures ind == null ==> grown == fs && grown.View() == old(fs.View())
    ensures ind == null <==>
      LowestFree(Sector(old(fs.cache.disk), 0, fs.sb.bitmapStart as int), fs.sb.nInodeBlock as int, -1)
    ensures ind != null ==>
      && fresh(ind) && grown.inodes == fs.inodes + {ind}
      && |grown.fds| == |fs.fds| + 1 && grown.fds[..|fs.fds|] == fs.fds
      && grown.fds[|fs.fds|].ind == ind && grown.fds[|fs.fds|].off == 0 && fresh(grown.fds[|fs.fds|])
      && grown.View() == old(fs.View())[ind := []]
      && grown.FreeBlocks() == old(fs.FreeBlocks()) - 1
  {
    hide Cache.Valid, Decode, FileSystem.Maps, Free, Text;
    ghost var was := fs.cache.disk;
    var ino := AllocInode(fs);
    KeepFiles(fs, was);
    if ino == -1 {
      return null, fs;
    }
    ind, grown := FirstBlock(fs);
  }

  method FirstBlock(fs: FileSystem) returns (ind: Inode, grown: FileSystem)
    requires fs.Valid() && fs.FreeBlocks() > 0
    modifies fs.cache
    ensures grown.Valid() && grown.sb == fs.sb && grown.cache == fs.cache && grown.repaired == fs.repaired
    ensures fresh(ind) && grown.inodes == fs.inodes + {ind}
    ensures |grown.fds| == |fs.fds| + 1 && grown.fds[..|fs.fds|] == fs.fds
    ensures grown.fds[|fs.fds|].ind == ind && grown.fds[|fs.fds|].off == 0 && fresh(grown.fds[|fs.fds|])
    ensures grown.View() == old(fs.View())[ind := []]
    ensures grown.FreeBlocks() == old(fs.FreeBlocks()) - 1
  {
    hide Cache.Valid, Decode, FileSystem.Maps, Free, Text;
    ghost var mid := fs.cache.disk;
    var addr := fs.AllocFree();
    KeepForNew(fs, mid, addr);
    ind := new Inode(0, seq(NDATA, _ => 0)[0 := addr]);
    var file := new OpenFile(ind);
    grown := new FileSystem(fs.repaired, fs.cache, fs.fds + [file], fs.inodes + {ind}, fs.sb);
    NewMaps(fs, grown, ind, addr);
  }

  ghost predicate Marked(sb: Superblock, was: Disk, now: Disk, addr: int)
    requires DiskOk(was) && RegionsOk(sb)
  {
    && InData(sb, addr)
    && var m := Sector(was, 0, DataBitmap(sb));
       m[addr - sb.dataStart as int] == 0 && now == was[(0, DataBitmap(sb)) := Mark(m, addr - sb.dataStart as int)]
  }

  // Marking a free block keeps every map, and no map has that block.
  lemma KeepForNew(fs: FileSystem, was: Disk, addr: int)
    requires fs.DeviceOk() && DiskOk(was) && fs.Maps(was, null, 0) && Marked(fs.sb, was, fs.cache.disk, addr)
    ensures fs.Maps(fs.cache.disk, null, 0)
    ensures forall a :: a in fs.inodes ==> fs.Content(a) == Text(was, a.block, a.size)
    ensures forall a, j :: a in fs.inodes && 0 <= j <= a.size / BSIZE && j < |a.block| ==> a.block[j] != addr
  {
    forall a | a in fs.inodes
      ensures fs.Content(a) == Text(was, a.block, a.size) && MapOk(fs.sb, fs.cache.disk, a.block, a.size / BSIZE)
      ensures forall j :: 0 <= j <= a.size / BSIZE && j < |a.block| ==> a.block[j] != addr
    {
      assert MapOk(fs.sb, was, a.block, a.size / BSIZE);
      KeepMap(fs.sb, was, fs.cache.disk, a.block, a.size / BSIZE, addr - fs.sb.dataStart as int);
      FreshBlock(fs.sb, was, a.block, a.size / BSIZE, addr - fs.sb.dataStart as int);
      forall j | 0 <= j <= a.size / BSIZE
        ensures Sector(fs.cache.disk, 0, a.block[j]) == Sector(was, 0, a.block[j])
      {
        assert Taken(fs.sb, was, a.block[j]);
      }
      FrameBytes(was, fs.cache.disk, a.block, a.block, a.size);
    }
  }

  lemma NewMaps(fs: FileSystem, grown: FileSystem, ind: Inode, addr: int)
    requires fs.DeviceOk() && fs.Maps(fs.cache.disk, null, 0)
    requires grown.cache == fs.cache && grown.sb == fs.sb && grown.inodes == fs.inodes + {ind} && ind !in fs.inodes
    requires Taken(fs.sb, fs.cache.disk, addr) && ind.size == 0 && ind.block == seq(NDATA, _ => 0)[0 := addr]
    requires forall a, j :: a in fs.inodes && 0 <= j <= a.size / BSIZE && j < |a.block| ==> a.block[j] != addr
    ensures grown.DeviceOk() && grown.Maps(fs.cache.disk, null, 0) && grown.Content(ind) == []
  {
    assert MapOk(fs.sb, fs.cache.disk, ind.block, 0);
  }
}
