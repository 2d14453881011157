// read and write over the block maps of open files, down to the buffer cache (fs.c).
module Files {
  import opened BlockCache
  import opened FileBytes
  import opened Layout
  import ByteCopy
  import Counting

  class Inode {
    var size: nat
    var block: seq<int>

    constructor (size: nat, block: seq<int>)
      ensures this.size == size && this.block == block
    {
      this.size, this.block := size, block;
    }
  }

  class OpenFile {
    var off: nat
    var ind: Inode?

    constructor (ind: Inode?)
      ensures this.off == 0 && this.ind == ind
    {
      this.off, this.ind := 0, ind;
    }
  }

  // Superblock and data bitmap lie before the data blocks, the bitmap is one block, and
  // the whole device fits in the cache.
  ghost predicate RegionsOk(sb: Superblock) {
    && 1 < sb.bitmapStart as int && sb.bitmapStart as int + 1 < sb.dataStart as int
    && sb.nDataBlock as int <= BSIZE
    && sb.dataStart as int + sb.nDataBlock as int <= BCACHE_SIZE
  }

  function DataBitmap(sb: Superblock): nat { sb.bitmapStart as int + 1 }

  ghost predicate InData(sb: Superblock, b: int) {
    sb.dataStart as int <= b < sb.dataStart as int + sb.nDataBlock as int
  }

  ghost predicate Taken(sb: Superblock, disk: Disk, b: int)
    requires DiskOk(disk) && RegionsOk(sb)
  {
    InData(sb, b) && Sector(disk, 0, DataBitmap(sb))[b - sb.dataStart as int] != 0
  }

  // Entries 0..top of the map are distinct blocks the bitmap has as taken; the rest are
  // still zero.
  ghost predicate MapOk(sb: Superblock, disk: Disk, block: seq<int>, top: nat)
    requires DiskOk(disk) && RegionsOk(sb)
  {
    && |block| == NDATA && top < NDATA
    && (forall j :: 0 <= j <= top ==> Taken(sb, disk, block[j]))
    && (forall i, j :: 0 <= i < j <= top ==> block[i] != block[j])
    && (forall j :: top < j < NDATA ==> block[j] == 0)
  }

  ghost predicate Apart(a: seq<int>, atop: nat, b: seq<int>, btop: nat) {
    forall i, j :: 0 <= i < |a| && i <= atop && 0 <= j < |b| && j <= btop ==> a[i] != b[j]
  }

  ghost predicate LowestFree(m: seq<byte>, n: int, i: int)
    requires n <= |m|
  {
    if i == -1 then forall k :: 0 <= k < n ==> m[k] != 0
    else 0 <= i < n && m[i] == 0 && forall k :: 0 <= k < i ==> m[k] != 0
  }

  function Mark(m: seq<byte>, i: int): (r: seq<byte>)
    ensures |r| == |m|
  {
    if 0 <= i < |m| then m[i := 1] else m
  }

  // Free entries among the first n of the bitmap.
  ghost function Free(m: seq<byte>, n: nat): nat
    requires n <= |m|
  {
    if n == 0 then 0 else Free(m, n - 1) + if m[n - 1] == 0 then 1 else 0
  }

  lemma {:induction false} FreeMark(m: seq<byte>, n: nat, i: int)
    requires n <= |m| && 0 <= i < |m| && m[i] == 0
    ensures Free(Mark(m, i), n) == Free(m, n) - if i < n then 1 else 0
    ensures i < n ==> Free(m, n) > 0
  {
    if n > 0 { FreeMark(m, n - 1, i); }
  }

  lemma {:induction false} FreeNone(m: seq<byte>, n: nat)
    requires n <= |m| && forall k :: 0 <= k < n ==> m[k] != 0
    ensures Free(m, n) == 0
  {
    if n > 0 { FreeNone(m, n - 1); }
  }

  // Marking a free block and entering it behind the last entry extends the map; every
  // other map stays well formed and apart from it.
  lemma ExtendMap(sb: Superblock, disk: Disk, disk': Disk, block: seq<int>, t: nat, i: int)
    requires DiskOk(disk) && RegionsOk(sb) && MapOk(sb, disk, block, t) && t + 1 < NDATA
    requires var m := Sector(disk, 0, DataBitmap(sb));
             LowestFree(m, sb.nDataBlock as int, i) && i != -1 && disk' == disk[(0, DataBitmap(sb)) := Mark(m, i)]
    ensures DiskOk(disk') && MapOk(sb, disk', block[t + 1 := sb.dataStart as int + i], t + 1)
  {
    FreshBlock(sb, disk, block, t, i);
    KeepMap(sb, disk, disk', block, t, i);
  }

  lemma FreshBlock(sb: Superblock, disk: Disk, block: seq<int>, t: nat, i: int)
    requires DiskOk(disk) && RegionsOk(sb) && MapOk(sb, disk, block, t)
    requires 0 <= i < sb.nDataBlock as int && Sector(disk, 0, DataBitmap(sb))[i] == 0
    ensures forall j :: 0 <= j <= t ==> block[j] != sb.dataStart as int + i
  {
    assert !Taken(sb, disk, sb.dataStart as int + i);
  }

  // The same extension as another file's map sees it.
  lemma ExtendOther(sb: Superblock, disk: Disk, disk': Disk, block: seq<int>, t: nat, i: int, other: seq<int>, top: nat)
    requires DiskOk(disk) && RegionsOk(sb) && MapOk(sb, disk, block, t) && t + 1 < NDATA && MapOk(sb, disk, other, top)
    requires Apart(other, top, block, t)
    requires var m := Sector(disk, 0, DataBitmap(sb));
             LowestFree(m, sb.nDataBlock as int, i) && i != -1 && disk' == disk[(0, DataBitmap(sb)) := Mark(m, i)]
    ensures DiskOk(disk') && MapOk(sb, disk', other, top)
    ensures var block' := block[t + 1 := sb.dataStart as int + i];
            Apart(other, top, block', t + 1) && Apart(block', t + 1, other, top)
  {
    KeepMap(sb, disk, disk', other, top, i);
    FreshBlock(sb, disk, other, top, i);
  }

  lemma KeepMap(sb: Superblock, disk: Disk, disk': Disk, block: seq<int>, t: nat, i: int)
    requires DiskOk(disk) && RegionsOk(sb) && MapOk(sb, disk, block, t)
    requires disk' == disk[(0, DataBitmap(sb)) := Mark(Sector(disk, 0, DataBitmap(sb)), i)]
    ensures DiskOk(disk') && MapOk(sb, disk', block, t)
  {
    forall b | Taken(sb, disk, b) ensures DiskOk(disk') && Taken(sb, disk', b) {
    }
  }

  ghost predicate Untouched(was: Disk, now: Disk, block: seq<int>, t: nat) {
    forall b :: (forall j :: 0 <= j <= t && j < |block| ==> block[j] != b) ==> Sector(now, 0, b) == Sector(was, 0, b)
  }

  lemma NextChunk(before: seq<byte>, text: seq<byte>, pb: nat, cnt: nat)
    requires pb + cnt <= |text|
    ensures before + text[..pb] + text[pb..pb + cnt] == before + text[..pb + cnt]
  {
  }

  // How many blocks fs.c:988-994 adds to a file of length len for size more bytes; the repaired
  // comparison at fs.c:991 is >=.
  function NewBlocks(repaired: bool, len: nat, size: nat): nat {
    var room := BSIZE - len % BSIZE;
    if size > room || (repaired && size == room) then (size - room) / BSIZE + 1 else 0
  }

  // The blocks added are those the new length needs, one short when the bytes end a block.
  lemma NewBlocksLand(repaired: bool, len: nat, size: nat)
    ensures (len + size) / BSIZE ==
            len / BSIZE + NewBlocks(repaired, len, size) + if size == BSIZE - len % BSIZE && !repaired then 1 else 0
  {
  }

  class FileSystem {
    const repaired: bool // whether fs.c:991 compares with >= rather than >
    const cache: Cache
    const fds: seq<OpenFile>
    ghost const inodes: set<Inode>
    ghost const sb: Superblock

    constructor (repaired: bool, cache: Cache, fds: seq<OpenFile>, ghost inodes: set<Inode>, ghost sb: Superblock)
      ensures this.repaired == repaired && this.cache == cache && this.fds == fds
      ensures this.inodes == inodes && this.sb == sb
    {
      this.repaired, this.cache, this.fds, this.inodes, this.sb := repaired, cache, fds, inodes, sb;
    }

    ghost predicate DeviceOk()
      reads cache
    {
      && cache.Valid() && DiskOk(cache.disk) && RegionsOk(sb)
      && Decode(Sector(cache.disk, 0, 1)) == sb
      && (forall t :: t in cache.Resident() ==> t.0 == 0 && 0 <= t.1 < BCACHE_SIZE)
    }

    // The block maps, with `block` up to entry t standing for the map of x.
    ghost predicate MapsWith(disk: Disk, x: Inode?, block: seq<int>, t: nat)
      requires DiskOk(disk) && RegionsOk(sb)
      reads set a: Inode | a in inodes && a != x
    {
      && (x in inodes ==> MapOk(sb, disk, block, t))
      && (forall a :: a in inodes && a != x ==> MapOk(sb, disk, a.block, a.size / BSIZE))
      && (forall a :: a in inodes && a != x && x in inodes ==>
            Apart(a.block, a.size / BSIZE, block, t) && Apart(block, t, a.block, a.size / BSIZE))
      && (forall a, b :: a in inodes && b in inodes && a != b && a != x && b != x ==>
            Apart(a.block, a.size / BSIZE, b.block, b.size / BSIZE))
    }

    // x is the inode being extended, up to entry t of its map; null when there is none.
    ghost predicate Maps(disk: Disk, x: Inode?, t: nat)
      requires DiskOk(disk) && RegionsOk(sb)
      reads inodes
    {
      MapsWith(disk, x, if x in inodes then x.block else [], t)
    }

    // Every open file's map entries block[0..size/BSIZE] are allocated, and no block is
    // shared, within a file or between files.
    ghost predicate Valid()
      reads cache, inodes, fds
    {
      && DeviceOk() && Maps(cache.disk, null, 0)
      && (forall i :: 0 <= i < |fds| && fds[i].ind != null ==> fds[i].ind in inodes)
    }

    lemma Room(b: nat)
      requires DeviceOk() && b < BCACHE_SIZE
      ensures (0, b) in cache.Resident() || |cache.Resident()| < BCACHE_SIZE
    {
      hide Counting.Below, ResidentOf;
      var tag := i => (0, i);
      var all := Counting.Image(tag, Counting.Below(BCACHE_SIZE));
      Counting.ImageSize(tag, Counting.Below(BCACHE_SIZE));
      assert tag(b) in all && b in Counting.Below(BCACHE_SIZE);
      forall t | t in cache.Resident() ensures t in all { assert t == tag(t.1); }
      Counting.SubsetSize(cache.Resident(), all);
    }

    method ReadBlock(b: nat) returns (db: int)
      requires DeviceOk() && b < BCACHE_SIZE
      modifies cache
      ensures DeviceOk() && cache.disk == old(cache.disk)
      ensures cache.IsBuffer(db, 0, b) && 0 <= db < |cache.data| && cache.data[db] == Sector(cache.disk, 0, b)
    {
      Room(b);
      db := cache.BlockRead(0, b);
    }

    method ReadSuperblock() returns (s: Superblock)
      requires DeviceOk()
      modifies cache
      ensures DeviceOk() && cache.disk == old(cache.disk) && s == sb
    {
      var blk := ReadBlock(1);
      s := Decode(cache.data[blk]);
    }

    method WriteBitmap(db: int, m: seq<byte>)
      requires DeviceOk() && cache.IsBuffer(db, 0, DataBitmap(sb)) && |m| == BSIZE
      modifies cache
      ensures DeviceOk() && cache.disk == old(cache.disk)[(0, DataBitmap(sb)) := m]
    {
      cache.EditAndWrite(db, m);
      cache.Release(db);
    }

    // The lowest free data block, marked as taken.  With none free the address is that of
    // the block before the data region, and the bitmap is written back as it was.
    method AllocData() returns (addr: int)
      requires DeviceOk()
      modifies cache
      ensures DeviceOk()
      ensures LowestFree(Sector(old(cache.disk), 0, DataBitmap(sb)), sb.nDataBlock as int, addr - sb.dataStart as int)
      ensures cache.disk == old(cache.disk)[(0, DataBitmap(sb)) :=
                Mark(Sector(old(cache.disk), 0, DataBitmap(sb)), addr - sb.dataStart as int)]
    {
      var s := ReadSuperblock();
      var n := s.bitmapStart as int + 1;
      var db := ReadBlock(n);
      var i := ScanBitmap(cache.data[db], s.nDataBlock as int);
      WriteBitmap(db, Mark(cache.data[db], i));
      addr := s.dataStart as int + i;
    }

    ghost function FreeBlocks(): nat
      requires DeviceOk()
      reads cache
    {
      Free(Sector(cache.disk, 0, DataBitmap(sb)), sb.nDataBlock as int)
    }

    // The bytes the block map of a file says it holds.
    ghost function Content(ind: Inode): seq<byte>
      requires DeviceOk()
      reads cache, ind
    {
      Text(cache.disk, ind.block, ind.size)
    }

    // What all the files hold.
    ghost function View(): map<Inode, seq<byte>>
      requires DeviceOk()
      reads cache, inodes
    {
      map a | a in inodes :: Content(a)
    }

    // allocData when a block is free: the lowest one, no longer free.
    method AllocFree() returns (addr: int)
      requires DeviceOk() && FreeBlocks() > 0
      modifies cache
      ensures DeviceOk() && FreeBlocks() == old(FreeBlocks()) - 1 && InData(sb, addr)
      ensures var m, i := Sector(old(cache.disk), 0, DataBitmap(sb)), addr - sb.dataStart as int;
              LowestFree(m, sb.nDataBlock as int, i) && cache.disk == old(cache.disk)[(0, DataBitmap(sb)) := Mark(m, i)]
    {
      ghost var m := Sector(cache.disk, 0, DataBitmap(sb));
      addr := AllocData();
      if addr - sb.dataStart as int == -1 { FreeNone(m, sb.nDataBlock as int); }
      FreeMark(m, sb.nDataBlock as int, addr - sb.dataStart as int);
    }

    // The map of ind has been extended from entry cur to entry t: nothing on the disk but
    // the bitmap has changed since it was `was`, and no entry of `block` up to cur has.
    ghost predicate Extended(was: Disk, block: seq<int>, ind: Inode, cur: nat, t: nat)
      requires DeviceOk()
      reads cache, inodes, ind
    {
      && ind in inodes && Maps(cache.disk, ind, t) && t < NDATA == |ind.block| == |block|
      && (forall j :: 0 <= j <= cur && j < |block| ==> ind.block[j] == block[j])
      && (forall b :: b != DataBitmap(sb) ==> Sector(cache.disk, 0, b) == Sector(was, 0, b))
    }

    // One turn of the loop at fs.c:1002-1005.
    method ExtendOne(ghost was: Disk, ghost block: seq<int>, ind: Inode, ghost cur: nat, t: nat)
      requires DeviceOk() && Extended(was, block, ind, cur, t) && cur <= t && t + 1 < NDATA && FreeBlocks() > 0
      modifies cache, ind`block
      ensures DeviceOk() && Extended(was, block, ind, cur, t + 1) && FreeBlocks() == old(FreeBlocks()) - 1
    {
      hide Cache.Valid, MapsWith, Decode, Free;
      ghost var disk := cache.disk;
      var addr := AllocFree();
      ExtendMaps(disk, cache.disk, ind, ind.block, t, addr - sb.dataStart as int);
      ind.block := ind.block[t + 1 := addr];
    }

    lemma ExtendMaps(disk: Disk, disk': Disk, ind: Inode, block: seq<int>, t: nat, i: int)
      requires DiskOk(disk) && RegionsOk(sb) && ind in inodes && t + 1 < NDATA
      requires MapsWith(disk, ind, block, t)
      requires var m := Sector(disk, 0, DataBitmap(sb));
               LowestFree(m, sb.nDataBlock as int, i) && i != -1 && disk' == disk[(0, DataBitmap(sb)) := Mark(m, i)]
      ensures DiskOk(disk') && MapsWith(disk', ind, block[t + 1 := sb.dataStart as int + i], t + 1)
    {
      ExtendMap(sb, disk, disk', block, t, i);
      forall a | a in inodes && a != ind
        ensures var block' := block[t + 1 := sb.dataStart as int + i];
                && MapOk(sb, disk', a.block, a.size / BSIZE)
                && Apart(a.block, a.size / BSIZE, block', t + 1) && Apart(block', t + 1, a.block, a.size / BSIZE)
      {
        ExtendOther(sb, disk, disk', block, t, i, a.block, a.size / BSIZE);
      }
    }

    method Extend(ghost was: Disk, ghost block: seq<int>, ind: Inode, cur: nat, na: nat)
      requires DeviceOk() && Extended(was, block, ind, cur, cur) && cur + na < NDATA && na <= FreeBlocks()
      modifies cache, ind`block
      ensures DeviceOk() && Extended(was, block, ind, cur, cur + na) && FreeBlocks() == old(FreeBlocks()) - na
    {
      hide Cache.Valid, Extended, Free, Sector;
      for i := 0 to na
        invariant DeviceOk() && Extended(was, block, ind, cur, cur + i) && FreeBlocks() == old(FreeBlocks()) - i
      {
        ExtendOne(was, block, ind, cur, cur + i);
      }
    }

    // Reads a block into the cache, edits cnt bytes of it in place and writes it back.
    method PutChunk(ind: Inode, t: nat, s: nat, src: array<byte>, pb: nat, cnt: nat)
      requires DeviceOk() && ind in inodes && Maps(cache.disk, ind, t) && s / BSIZE <= t < NDATA <= |ind.block|
      requires s % BSIZE + cnt <= BSIZE && pb + cnt <= src.Length
      modifies cache
      ensures DeviceOk() && Maps(cache.disk, ind, t)
      ensures s + cnt <= NDATA * BSIZE
      ensures Bytes(cache.disk, ind.block, s + cnt) == Bytes(old(cache.disk), ind.block, s) + src[pb..pb + cnt]
      ensures forall b :: b != ind.block[s / BSIZE] ==> Sector(cache.disk, 0, b) == Sector(old(cache.disk), 0, b)
    {
      hide Cache.Valid, Cache.IsBuffer, Maps, MapsWith, Bytes, Decode;
      MapFacts(ind, t);
      ghost var disk := cache.disk;
      AppendChunk(disk, ind.block, s, src[pb..pb + cnt]);
      var db := ReadBlock(ind.block[s / BSIZE]);
      var bytes := ByteCopy.CopyIn(cache.data[db], s % BSIZE, src, pb, cnt);
      WriteData(db, ind.block[s / BSIZE], bytes);
      KeepMaps(disk, cache.disk, ind, t);
    }

    lemma MapFacts(ind: Inode, t: nat)
      requires DeviceOk() && ind in inodes && Maps(cache.disk, ind, t)
      ensures |ind.block| == NDATA && t < NDATA
      ensures forall j :: 0 <= j <= t ==> InData(sb, ind.block[j])
      ensures forall i, j :: 0 <= i < j <= t ==> ind.block[i] != ind.block[j]
    {
      assert forall j :: 0 <= j <= t ==> Taken(sb, cache.disk, ind.block[j]);
    }

    method WriteData(db: int, b: int, bytes: seq<byte>)
      requires DeviceOk() && cache.IsBuffer(db, 0, b) && |bytes| == BSIZE && InData(sb, b)
      modifies cache
      ensures DeviceOk() && cache.disk == old(cache.disk)[(0, b) := bytes]
    {
      cache.EditAndWrite(db, bytes);
    }

    // A change of data blocks only leaves the maps well formed.
    lemma KeepMaps(disk: Disk, disk': Disk, x: Inode, t: nat)
      requires DiskOk(disk) && DiskOk(disk') && RegionsOk(sb) && Maps(disk, x, t)
      requires Sector(disk, 0, DataBitmap(sb)) == Sector(disk', 0, DataBitmap(sb))
      ensures Maps(disk', x, t)
    {
      forall b | Taken(sb, disk, b) ensures Taken(sb, disk', b) {
      }
    }

    // The bytes of the file with map `block` that the first s bytes would be.
    ghost function Stored(ind: Inode, s: nat): seq<byte>
      requires DiskOk(cache.disk) && s <= |ind.block| * BSIZE
      reads cache, ind
    {
      Bytes(cache.disk, ind.block, s)
    }

    // The first pb bytes of `text` have been put behind the bytes `before` of the file, and
    // nothing but the file's own blocks has changed since the disk was `was`.
    ghost predicate Progress(was: Disk, ind: Inode, t: nat, before: seq<byte>, text: seq<byte>, pb: nat)
      requires DeviceOk()
      reads cache, inodes, ind
    {
      && ind in inodes && Maps(cache.disk, ind, t) && |ind.block| == NDATA && t < NDATA
      && pb <= |text| && |before| + pb <= NDATA * BSIZE
      && Stored(ind, |before| + pb) == before + text[..pb]
      && Untouched(was, cache.disk, ind.block, t)
    }

    method PutNext(ghost was: Disk, ind: Inode, t: nat, ghost before: seq<byte>,
                   src: array<byte>, s: nat, pb: nat, cnt: nat)
      requires DeviceOk() && Progress(was, ind, t, before, src[..], pb)
      requires s == |before| + pb && s / BSIZE <= t && s % BSIZE + cnt <= BSIZE && pb + cnt <= src.Length
      modifies cache
      ensures DeviceOk() && Progress(was, ind, t, before, src[..], pb + cnt)
    {
      hide Cache.Valid, Maps, Sector;
      PutChunk(ind, t, s, src, pb, cnt);
      assert src[..][pb..pb + cnt] == src[pb..pb + cnt];
      NextChunk(before, src[..], pb, cnt);
    }

    // fs.c:1007-1033: the head, the whole blocks and the tail of the new bytes.
    method Fill(ghost was: Disk, ind: Inode, src: array<byte>, size: nat, cur: nat, off: nat, na: nat)
      requires DeviceOk() && ind in inodes && ind.size == cur * BSIZE + off && ind.size <= |ind.block| * BSIZE
      requires Progress(was, ind, cur + na, Content(ind), src[..], 0)
      requires off < BSIZE && size <= src.Length
      requires na == NewBlocks(repaired, ind.size, size)
      modifies cache
      ensures DeviceOk() && Progress(was, ind, cur + na, old(Content(ind)), src[..], size)
    {
      hide Cache.Valid, Progress, Maps, MapsWith, Decode, Text;
      ghost var before := Content(ind);
      ContentSize(ind);
      var pb := if size > BSIZE - off then BSIZE - off else size;
      PutNext(was, ind, cur + na, before, src, ind.size, 0, pb);
      var i := 1;
      while i < na
        invariant 1 <= i && (na >= 1 ==> i <= na)
        invariant pb == if na == 0 then size else BSIZE - off + (i - 1) * BSIZE
        invariant DeviceOk() && Progress(was, ind, cur + na, before, src[..], pb)
      {
        ChunkEdge(ind.size, off, i - 1);
        PutNext(was, ind, cur + na, before, src, ind.size + pb, pb, BSIZE);
        pb := pb + BSIZE;
        i := i + 1;
      }
      if na >= 1 {
        ChunkEdge(ind.size, off, na - 1);
        PutNext(was, ind, cur + na, before, src, ind.size + pb, pb, (size - (BSIZE - off)) % BSIZE);
        pb := pb + (size - (BSIZE - off)) % BSIZE;
      }
    }

    // An inode's map up to its size, and up to an entry t that is that one.
    lemma MapsOpen(ind: Inode)
      requires DeviceOk() && ind in inodes
      ensures Maps(cache.disk, null, 0) ==> Maps(cache.disk, ind, ind.size / BSIZE)
      ensures Maps(cache.disk, ind, ind.size / BSIZE) ==> Maps(cache.disk, null, 0)
    {
    }

    // With the map of ind in use up to t, an entry past t is zero and so no data block.
    lemma MapsShort(ind: Inode, t: nat)
      requires DeviceOk() && ind in inodes && Maps(cache.disk, ind, t) && ind.size / BSIZE == t + 1
      ensures !Maps(cache.disk, null, 0)
    {
      assert MapOk(sb, cache.disk, ind.block, t);
      assert t + 1 < NDATA ==> !Taken(sb, cache.disk, ind.block[t + 1]);
    }

    lemma MapsEnd(ind: Inode, t: nat)
      requires DeviceOk() && ind in inodes && Maps(cache.disk, ind, t) && t <= ind.size / BSIZE <= t + 1
      ensures Maps(cache.disk, null, 0) <==> ind.size / BSIZE == t
      ensures |ind.block| == NDATA && (ind.size / BSIZE == t + 1 < NDATA ==> ind.block[t + 1] == 0)
    {
      assert MapOk(sb, cache.disk, ind.block, t);
      MapsOpen(ind);
      if ind.size / BSIZE == t + 1 {
        MapsShort(ind, t);
      }
    }

    // Other files keep their text when only data blocks of ind have changed.
    lemma OthersKept(was: Disk, ind: Inode, t: nat)
      requires DeviceOk() && DiskOk(was) && ind in inodes && Maps(cache.disk, ind, t)
      requires forall b :: InData(sb, b) && (forall j :: 0 <= j <= t && j < |ind.block| ==> ind.block[j] != b) ==>
                 Sector(cache.disk, 0, b) == Sector(was, 0, b)
      ensures forall a :: a in inodes && a != ind ==> Content(a) == Text(was, a.block, a.size)
    {
      forall a | a in inodes && a != ind ensures Content(a) == Text(was, a.block, a.size) {
        assert MapOk(sb, cache.disk, a.block, a.size / BSIZE) && Apart(a.block, a.size / BSIZE, ind.block, t);
        forall j | 0 <= j < |a.block| && j * BSIZE < a.size
          ensures Sector(cache.disk, 0, a.block[j]) == Sector(was, 0, a.block[j])
        {
          assert j <= a.size / BSIZE && Taken(sb, cache.disk, a.block[j]);
        }
        FrameBytes(was, cache.disk, a.block, a.block, a.size);
      }
    }

    // As in the source and not repaired, a write whose bytes exactly fill the last block allocates
    // no block behind it (fs.c:991), so it leaves a map that is not valid: the next write would put
    // its first bytes into block 0 of the device.
    method Write(fd: nat, src: array<byte>, size: nat) returns (r: int)
      requires Valid() && fd < |fds| && size <= src.Length
      requires fds[fd].ind != null ==>
        var na := NewBlocks(repaired, fds[fd].ind.size, size);
        fds[fd].ind.size / BSIZE + na < NDATA ==> na <= FreeBlocks()
      modifies cache, inodes
      ensures DeviceOk()
      ensures r == -1 <==> (old(fds[fd].ind) == null ||
                            old(fds[fd].ind.size) / BSIZE + NewBlocks(repaired, old(fds[fd].ind.size), size) >= NDATA)
      ensures r == -1 ==> Valid() && unchanged(cache) && unchanged(inodes)
      ensures r != -1 ==>
        var ind := old(fds[fd].ind);
        && r == size && ind.size == old(ind.size) + size
        && FreeBlocks() == old(FreeBlocks()) - NewBlocks(repaired, old(ind.size), size)
        && View() == old(View())[ind := old(View())[ind] + src[..size]]
        && (Valid() <==> repaired || size != BSIZE - old(ind.size) % BSIZE)
        && |ind.block| == NDATA
        && (!Valid() && ind.size / BSIZE < NDATA ==> ind.block[ind.size / BSIZE] == 0)
    {
      var ind := fds[fd].ind;
      if ind == null {
        return -1;
      }
      var cur, off := ind.size / BSIZE, ind.size % BSIZE;
      var na := 0;
      if size > BSIZE - off || (repaired && size == BSIZE - off) {
        na := (size - (BSIZE - off)) / BSIZE + 1;
      }
      if cur + na >= NDATA {
        return -1;
      }
      r := WriteAt(ind, src, size, cur, off, na);
    }

    lemma StartExtend(ind: Inode, cur: nat)
      requires DeviceOk() && ind in inodes && Maps(cache.disk, ind, cur)
      ensures Extended(cache.disk, ind.block, ind, cur, cur)
    {
      MapFacts(ind, cur);
    }

    // Extending the map leaves the text of the file as it was.
    lemma StartFill(was: Disk, block: seq<int>, ind: Inode, cur: nat, t: nat, text: seq<byte>)
      requires DeviceOk() && Extended(was, block, ind, cur, t) && cur == ind.size / BSIZE <= t
      requires DiskOk(was) && forall j :: 0 <= j <= cur ==> InData(sb, block[j])
      ensures ind.size <= NDATA * BSIZE && |block| == |ind.block| == NDATA
      ensures Content(ind) == Bytes(was, block, ind.size)
      ensures Progress(cache.disk, ind, t, Content(ind), text, 0)
      ensures forall b :: b != DataBitmap(sb) ==> Sector(cache.disk, 0, b) == Sector(was, 0, b)
    {
      FrameBytes(was, cache.disk, block, ind.block, ind.size);
      assert Content(ind) + text[..0] == Content(ind);
    }

    lemma Finish(was: Disk, mid: Disk, ind: Inode, t: nat, before: seq<byte>, text: seq<byte>, pb: nat)
      requires DeviceOk() && DiskOk(was) && DiskOk(mid)
      requires forall b :: b != DataBitmap(sb) ==> Sector(mid, 0, b) == Sector(was, 0, b)
      requires Progress(mid, ind, t, before, text, pb)
      ensures Maps(cache.disk, ind, t) && |ind.block| == NDATA && pb <= |text|
      ensures Text(cache.disk, ind.block, |before| + pb) == before + text[..pb] && |before| + pb <= NDATA * BSIZE
      ensures forall a :: a in inodes && a != ind ==> Content(a) == Text(was, a.block, a.size)
      ensures Sector(cache.disk, 0, DataBitmap(sb)) == Sector(mid, 0, DataBitmap(sb))
    {
      OthersKept(was, ind, t);
      MapFacts(ind, t);
    }

    // The filling, and what it leaves: the text grown, the other files and the bitmap as they were.
    method FillText(ghost was: Disk, ind: Inode, src: array<byte>, size: nat, cur: nat, off: nat, na: nat)
      requires DeviceOk() && ind in inodes && ind.size == cur * BSIZE + off && ind.size <= |ind.block| * BSIZE
      requires Progress(cache.disk, ind, cur + na, Content(ind), src[..], 0)
      requires off < BSIZE && size <= src.Length && na == NewBlocks(repaired, ind.size, size)
      requires DiskOk(was) && forall b :: b != DataBitmap(sb) ==> Sector(cache.disk, 0, b) == Sector(was, 0, b)
      modifies cache
      ensures DeviceOk() && FreeBlocks() == old(FreeBlocks()) && Maps(cache.disk, ind, cur + na) && |ind.block| == NDATA
      ensures ind.size + size <= NDATA * BSIZE
      ensures Text(cache.disk, ind.block, ind.size + size) == old(Content(ind)) + src[..size]
      ensures forall a :: a in inodes && a != ind ==> Content(a) == Text(was, a.block, a.size)
    {
      hide Cache.Valid, MapsWith, Progress, Sector, Decode, Free, Bytes;
      ghost var mid, before := cache.disk, Content(ind);
      Fill(mid, ind, src, size, cur, off, na);
      Finish(was, mid, ind, cur + na, before, src[..], size);
      assert src[..][..size] == src[..size];
    }

    // The blocks and the bytes of a write, before the file's length is adjusted.
    method AppendText(ind: Inode, src: array<byte>, size: nat, cur: nat, off: nat, na: nat)
      requires DeviceOk() && ind in inodes && Maps(cache.disk, ind, cur) && size <= src.Length
      requires cur == ind.size / BSIZE && off == ind.size % BSIZE && na == NewBlocks(repaired, ind.size, size)
      requires cur + na < NDATA && na <= FreeBlocks()
      modifies cache, ind`block
      ensures DeviceOk() && FreeBlocks() == old(FreeBlocks()) - na && Maps(cache.disk, ind, cur + na)
      ensures |ind.block| == NDATA && ind.size + size <= NDATA * BSIZE
      ensures Text(cache.disk, ind.block, ind.size + size) == old(Content(ind)) + src[..size]
      ensures forall a :: a in inodes && a != ind ==> Content(a) == old(Content(a))
    {
      hide Cache.Valid, MapsWith, Progress, Sector, Decode, Extended, Free, Bytes, NewBlocks;
      MapsOpen(ind);
      MapFacts(ind, cur);
      ghost var was, block := cache.disk, ind.block;
      StartExtend(ind, cur);
      Extend(was, block, ind, cur, na);
      StartFill(was, block, ind, cur, cur + na, src[..]);
      FillText(was, ind, src, size, cur, off, na);
    }

    method WriteAt(ind: Inode, src: array<byte>, size: nat, cur: nat, off: nat, na: nat) returns (r: int)
      requires Valid() && ind in inodes && size <= src.Length
      requires cur == ind.size / BSIZE && off == ind.size % BSIZE && na == NewBlocks(repaired, ind.size, size)
      requires cur + na < NDATA && na <= FreeBlocks()
      modifies cache, ind
      ensures DeviceOk() && r == size && ind.size == old(ind.size) + size && FreeBlocks() == old(FreeBlocks()) - na
      ensures View() == old(View())[ind := old(View())[ind] + src[..size]]
      ensures Valid() <==> repaired || size != BSIZE - old(ind.size) % BSIZE
      ensures |ind.block| == NDATA
      ensures !Valid() && ind.size / BSIZE < NDATA ==> ind.block[ind.size / BSIZE] == 0
    {
      hide Cache.Valid, MapsWith, Sector, Decode, Free, Text, NewBlocks;
      MapsOpen(ind);
      AppendText(ind, src, size, cur, off, na);
      NewBlocksLand(repaired, ind.size, size);
      ind.size := ind.size + size;
      MapsEnd(ind, cur + na);
      r := size;
    }

    // Copies cnt bytes of the file from its byte s to the caller's buffer at pb.
    method GetChunk(ind: Inode, s: nat, dst: array<byte>, pb: nat, cnt: nat)
      requires Valid() && ind in inodes && s / BSIZE <= ind.size / BSIZE
      requires s % BSIZE + cnt <= BSIZE && s + cnt <= ind.size && pb + cnt <= dst.Length
      modifies cache, dst
      ensures Valid() && cache.disk == old(cache.disk) && s + cnt <= |Content(ind)|
      ensures dst[..] == Splice(old(dst[..]), pb, Content(ind)[s..s + cnt])
    {
      hide Cache.Valid, Cache.IsBuffer, Maps, MapsWith, Bytes, Decode, Splice;
      MapsOpen(ind);
      MapFacts(ind, ind.size / BSIZE);
      SliceOfText(cache.disk, ind.block, ind.size, s, cnt);
      var db := ReadBlock(ind.block[s / BSIZE]);
      ByteCopy.CopyOut(dst, pb, cache.data[db], s % BSIZE, cnt);
    }

    // The first pb bytes asked for have been copied out; the rest of the buffer is as before.
    ghost predicate Got(ind: Inode, start: nat, before: seq<byte>, dst: array<byte>, pb: nat)
      requires DeviceOk()
      reads cache, ind, dst
    {
      && |Content(ind)| == ind.size && start + pb <= ind.size && pb <= |before| == dst.Length
      && dst[..] == Splice(before, 0, Content(ind)[start..start + pb])
    }

    method GetNext(ind: Inode, start: nat, ghost before: seq<byte>, dst: array<byte>, pb: nat, cnt: nat)
      requires Valid() && ind in inodes && Got(ind, start, before, dst, pb)
      requires start + pb + cnt <= ind.size && (start + pb) % BSIZE + cnt <= BSIZE && pb + cnt <= dst.Length
      modifies cache, dst
      ensures Valid() && cache.disk == old(cache.disk) && Got(ind, start, before, dst, pb + cnt)
    {
      hide Cache.Valid, Maps;
      GetChunk(ind, start + pb, dst, pb, cnt);
    }

    // fs.c:948-970: the head, the whole blocks and the tail of the bytes asked for.
    method Fetch(ind: Inode, start: nat, ghost before: seq<byte>, dst: array<byte>, size: nat, off: nat, nr: nat)
      requires Valid() && ind in inodes && Got(ind, start, before, dst, 0)
      requires start + size <= ind.size && size <= dst.Length && off == start % BSIZE
      requires nr == if size > BSIZE - off then (size - (BSIZE - off)) / BSIZE + 1 else 0
      modifies cache, dst
      ensures Valid() && cache.disk == old(cache.disk) && Got(ind, start, before, dst, size)
    {
      hide Cache.Valid, Maps, Got, Decode;
      var pb := if size > BSIZE - off then BSIZE - off else size;
      GetNext(ind, start, before, dst, 0, pb);
      var i := 1;
      while i < nr
        invariant 1 <= i && (nr >= 1 ==> i <= nr)
        invariant pb == if nr == 0 then size else BSIZE - off + (i - 1) * BSIZE
        invariant Valid() && cache.disk == old(cache.disk) && Got(ind, start, before, dst, pb)
      {
        ChunkEdge(start, off, i - 1);
        GetNext(ind, start, before, dst, pb, BSIZE);
        pb := pb + BSIZE;
        i := i + 1;
      }
      if nr >= 1 {
        ChunkEdge(start, off, nr - 1);
        GetNext(ind, start, before, dst, pb, (size - (BSIZE - off)) % BSIZE);
      }
    }

    lemma ContentSize(ind: Inode)
      requires DeviceOk() && ind.size <= |ind.block| * BSIZE
      ensures |Content(ind)| == ind.size
    {
    }

    lemma GotNone(ind: Inode, start: nat, dst: array<byte>)
      requires DeviceOk() && ind.size <= |ind.block| * BSIZE && start <= ind.size
      ensures |Content(ind)| == ind.size && Got(ind, start, dst[..], dst, 0)
    {
      assert Splice(dst[..], 0, Content(ind)[start..start]) == dst[..];
    }

    lemma GotAll(ind: Inode, start: nat, before: seq<byte>, dst: array<byte>, size: nat)
      requires DeviceOk() && Got(ind, start, before, dst, size)
      ensures start + size <= |Content(ind)| == ind.size && size <= |before|
      ensures dst[..] == Content(ind)[start..start + size] + before[size..]
    {
    }

    // Lengths and cursor are 32-bit unsigned; beyond the requires their sum wraps around, and a
    // read past the end can pass the check at fs.c:942.
    method Read(fd: nat, dst: array<byte>, size: nat) returns (r: int)
      requires Valid() && fd < |fds| && size <= dst.Length && fds[fd].off + size < 0x1_0000_0000
      modifies cache, {fds[fd]}`off, dst
      ensures Valid() && cache.disk == old(cache.disk) && View() == old(View())
      ensures r == -1 <==> (fds[fd].ind == null || old(fds[fd].off) + size > |View()[fds[fd].ind]|)
      ensures r == -1 ==> fds[fd].off == old(fds[fd].off) && dst[..] == old(dst[..])
      ensures r != -1 ==>
        && r == size && fds[fd].off == old(fds[fd].off) + size
        && dst[..] == View()[fds[fd].ind][old(fds[fd].off)..old(fds[fd].off) + size] + old(dst[size..])
    {
      hide Cache.Valid, Maps, MapsWith, Decode, Got, Text, Splice;
      var ind := fds[fd].ind;
      if ind == null {
        return -1;
      }
      MapsOpen(ind);
      MapFacts(ind, ind.size / BSIZE);
      var start := fds[fd].off;
      var off, nr := start % BSIZE, 0;
      if size > BSIZE - off {
        nr := (size - (BSIZE - off)) / BSIZE + 1;
      }
      ContentSize(ind);
      if start + size > ind.size {
        return -1;
      }
      ghost var before := dst[..];
      GotNone(ind, start, dst);
      Fetch(ind, start, before, dst, size, off, nr);
      GotAll(ind, start, before, dst, size);
      fds[fd].off := fds[fd].off + size;
      r := size;
    }
  }

  method ScanBitmap(m: seq<byte>, n: nat) returns (addr: int)
    requires n <= |m|
    ensures LowestFree(m, n, addr)
  {
    addr := -1;
    for i := 0 to n
      invariant addr == -1 && forall k :: 0 <= k < i ==> m[k] != 0
    {
      if m[i] == 0 {
        addr := i;
        break;
      }
    }
  }
}
