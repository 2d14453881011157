// What an inode's block map says the bytes of its file are, and how one block update
// changes them.
module FileBytes {
  import opened BlockCache

  function Splice(dst: seq<byte>, at: nat, src: seq<byte>): (r: seq<byte>)
    requires at + |src| <= |dst|
    ensures |r| == |dst|
    ensures forall i :: 0 <= i < |r| ==> r[i] == if at <= i < at + |src| then src[i - at] else dst[i]
  {
    dst[..at] + src + dst[at + |src|..]
  }

  ghost predicate DiskOk(disk: Disk) {
    forall k :: k in disk ==> |disk[k]| == BSIZE
  }

  // Byte i of the file is byte i % BSIZE of the block its map has for i / BSIZE.
  ghost function ByteAt(disk: Disk, blocks: seq<int>, i: nat): byte
    requires DiskOk(disk) && i / BSIZE < |blocks|
  {
    Sector(disk, 0, blocks[i / BSIZE])[i % BSIZE]
  }

  ghost function Bytes(disk: Disk, blocks: seq<int>, size: nat): (r: seq<byte>)
    requires DiskOk(disk) && size <= |blocks| * BSIZE
    ensures |r| == size
  {
    seq(size, i requires 0 <= i < size => ByteAt(disk, blocks, i))
  }

  // The text of a file of that length, when the map is long enough for it.
  ghost function Text(disk: Disk, blocks: seq<int>, size: nat): seq<byte>
    requires DiskOk(disk)
  {
    if size <= |blocks| * BSIZE then Bytes(disk, blocks, size) else []
  }

  // Putting a chunk right behind byte s of a file whose blocks are distinct appends it.
  lemma AppendChunk(disk: Disk, blocks: seq<int>, s: nat, chunk: seq<byte>)
    requires DiskOk(disk) && s / BSIZE < |blocks|
    requires s % BSIZE + |chunk| <= BSIZE
    requires forall i :: 0 <= i < s / BSIZE ==> blocks[i] != blocks[s / BSIZE]
    ensures s + |chunk| <= |blocks| * BSIZE
    ensures var b := blocks[s / BSIZE];
            var disk' := disk[(0, b) := Splice(Sector(disk, 0, b), s % BSIZE, chunk)];
            DiskOk(disk') && Bytes(disk', blocks, s + |chunk|) == Bytes(disk, blocks, s) + chunk
  {
    var b := blocks[s / BSIZE];
    var disk' := disk[(0, b) := Splice(Sector(disk, 0, b), s % BSIZE, chunk)];
    forall i | 0 <= i < s + |chunk|
      ensures ByteAt(disk', blocks, i) == (Bytes(disk, blocks, s) + chunk)[i]
    {
      if i < s {
        assert i / BSIZE <= s / BSIZE;
      } else {
        assert i / BSIZE == s / BSIZE;
      }
    }
  }

  lemma WithinBlock(s: nat, k: nat)
    requires s % BSIZE + k < BSIZE
    ensures (s + k) / BSIZE == s / BSIZE && (s + k) % BSIZE == s % BSIZE + k
  {
  }

  // Head, whole blocks and tail: past the head, byte positions of chunks are block edges.
  lemma ChunkEdge(s: nat, off: nat, i: nat)
    requires off == s % BSIZE
    ensures (s + (BSIZE - off + i * BSIZE)) / BSIZE == s / BSIZE + 1 + i
    ensures (s + (BSIZE - off + i * BSIZE)) % BSIZE == 0
  {
    assert s + (BSIZE - off + i * BSIZE) == (s / BSIZE + 1 + i) * BSIZE;
  }

  lemma TextAt(disk: Disk, blocks: seq<int>, size: nat, i: nat)
    requires DiskOk(disk) && i < size <= |blocks| * BSIZE
    ensures i / BSIZE < |blocks| && |Text(disk, blocks, size)| == size
    ensures Text(disk, blocks, size)[i] == Sector(disk, 0, blocks[i / BSIZE])[i % BSIZE]
  {
    assert Text(disk, blocks, size)[i] == ByteAt(disk, blocks, i);
  }

  lemma Lengths(disk: Disk, blocks: seq<int>, size: nat, b: int)
    requires DiskOk(disk) && size <= |blocks| * BSIZE
    ensures |Text(disk, blocks, size)| == size && |Sector(disk, 0, b)| == BSIZE
  {
  }

  lemma SliceAt(disk: Disk, blocks: seq<int>, size: nat, s: nat, k: nat)
    requires DiskOk(disk) && size <= |blocks| * BSIZE && s + k < size && s / BSIZE < |blocks|
    requires s % BSIZE + k < BSIZE
    ensures |Text(disk, blocks, size)| == size && |Sector(disk, 0, blocks[s / BSIZE])| == BSIZE
    ensures Text(disk, blocks, size)[s..][k] == Sector(disk, 0, blocks[s / BSIZE])[s % BSIZE..][k]
  {
    hide Text, Sector;
    Lengths(disk, blocks, size, blocks[s / BSIZE]);
    WithinBlock(s, k);
    TextAt(disk, blocks, size, s + k);
  }

  // A chunk of a file that stays within a block is a chunk of that block.
  lemma SliceOfText(disk: Disk, blocks: seq<int>, size: nat, s: nat, cnt: nat)
    requires DiskOk(disk) && size <= |blocks| * BSIZE && s + cnt <= size && s / BSIZE < |blocks|
    requires s % BSIZE + cnt <= BSIZE
    ensures |Text(disk, blocks, size)| == size
    ensures Text(disk, blocks, size)[s..s + cnt] == Sector(disk, 0, blocks[s / BSIZE])[s % BSIZE..s % BSIZE + cnt]
  {
    var text, block, at := Text(disk, blocks, size), Sector(disk, 0, blocks[s / BSIZE]), s % BSIZE;
    hide *;
    Lengths(disk, blocks, size, blocks[s / BSIZE]);
    forall k | 0 <= k < cnt ensures text[s..][k] == block[at..][k] {
      SliceAt(disk, blocks, size, s, k);
    }
    EqualHeads(text, block, s, at, cnt);
  }

  lemma EqualHeads(a: seq<byte>, b: seq<byte>, i: nat, j: nat, n: nat)
    requires i + n <= |a| && j + n <= |b|
    requires forall k :: 0 <= k < n ==> a[i..][k] == b[j..][k]
    ensures a[i..i + n] == b[j..j + n]
  {
    assert a[i..i + n] == a[i..][..n];
    assert b[j..j + n] == b[j..][..n];
  }

  // A block update outside a file's map leaves its bytes alone.
  lemma FrameBytes(disk: Disk, disk': Disk, blocks: seq<int>, blocks': seq<int>, size: nat)
    requires DiskOk(disk) && DiskOk(disk') && size <= |blocks| * BSIZE && size <= |blocks'| * BSIZE
    requires forall j :: 0 <= j < |blocks| && 0 <= j < |blocks'| && j * BSIZE < size ==>
      blocks'[j] == blocks[j] && Sector(disk', 0, blocks[j]) == Sector(disk, 0, blocks[j])
    ensures Bytes(disk', blocks', size) == Bytes(disk, blocks, size)
  {
    forall i | 0 <= i < size ensures ByteAt(disk', blocks', i) == ByteAt(disk, blocks, i) {
      var j := i / BSIZE;
      assert j * BSIZE < size;
    }
  }
}

// memmove, in the two directions the file path uses it: the source copies forward, one
// byte at a time.
module ByteCopy {
  import opened BlockCache
  import opened FileBytes

  method CopyOut(dst: array<byte>, d: nat, src: seq<byte>, s: nat, cnt: nat)
    requires d + cnt <= dst.Length && s + cnt <= |src|
    modifies dst
    ensures dst[..] == Splice(old(dst[..]), d, src[s..s + cnt])
  {
    for i := 0 to cnt
      invariant forall k :: 0 <= k < dst.Length ==>
        dst[k] == if d <= k < d + i then src[s + k - d] else old(dst[k])
    {
      dst[d + i] := src[s + i];
    }
  }

  method CopyIn(dst: seq<byte>, d: nat, src: array<byte>, s: nat, cnt: nat) returns (r: seq<byte>)
    requires d + cnt <= |dst| && s + cnt <= src.Length
    ensures r == Splice(dst, d, src[s..s + cnt])
  {
    r := dst;
    for i := 0 to cnt
      invariant |r| == |dst|
      invariant forall k :: 0 <= k < |dst| ==> r[k] == if d <= k < d + i then src[s + k - d] else dst[k]
    {
      r := r[d + i := src[s + i]];
    }
  }

  // memmove within one array, one byte after the other from the front.
  function Forward(m: seq<byte>, d: nat, s: nat, cnt: nat): (r: seq<byte>)
    requires d + cnt <= |m| && s + cnt <= |m|
    ensures |r| == |m|
  {
    if cnt == 0 then m
    else
      var r := Forward(m, d, s, cnt - 1);
      r[d + cnt - 1 := r[s + cnt - 1]]
  }

  method MoveWithin(a: array<byte>, d: nat, s: nat, cnt: nat)
    requires d + cnt <= a.Length && s + cnt <= a.Length
    modifies a
    ensures a[..] == Forward(old(a[..]), d, s, cnt)
  {
    for i := 0 to cnt
      invariant a[..] == Forward(old(a[..]), d, s, i)
    {
      a[d + i] := a[s + i];
    }
  }

  // It moves the bytes as they were exactly when the target does not begin inside the source.
  lemma MovesExactly(n: nat, d: nat, s: nat, cnt: nat)
    requires d + cnt <= n && s + cnt <= n
    ensures (forall m: seq<byte> | |m| == n :: Forward(m, d, s, cnt) == Splice(m, d, m[s..s + cnt]))
            <==> d <= s || s + cnt <= d
  {
    hide Forward, Splice;
    if d <= s || s + cnt <= d {
      forall m: seq<byte> | |m| == n ensures Forward(m, d, s, cnt) == Splice(m, d, m[s..s + cnt]) {
        ForwardSplices(m, d, s, cnt);
      }
    } else {
      var m: seq<byte> := seq(n, i => if i == s then 1 else 0);
      ForwardRepeats(m, d, s, cnt);
      assert Splice(m, d, m[s..s + cnt])[d + (d - s)] == m[d] != m[s];
    }
  }

  lemma ForwardSplices(m: seq<byte>, d: nat, s: nat, cnt: nat)
    requires d + cnt <= |m| && s + cnt <= |m| && (d <= s || s + cnt <= d)
    ensures Forward(m, d, s, cnt) == Splice(m, d, m[s..s + cnt])
  {
    hide Forward, Splice;
    ForwardMoves(m, d, s, cnt);
    var moved := Forward(m, d, s, cnt);
    assert forall i :: d <= i < d + cnt ==> moved[i] == moved[d..d + cnt][i - d];
  }

  lemma {:induction false} ForwardMoves(m: seq<byte>, d: nat, s: nat, cnt: nat)
    requires d + cnt <= |m| && s + cnt <= |m| && (d <= s || s + cnt <= d)
    ensures forall i :: 0 <= i < |m| && !(d <= i < d + cnt) ==> Forward(m, d, s, cnt)[i] == m[i]
    ensures Forward(m, d, s, cnt)[d..d + cnt] == m[s..s + cnt]
  {
    if cnt > 0 {
      ForwardMoves(m, d, s, cnt - 1);
      var r := Forward(m, d, s, cnt - 1);
      assert r[s + cnt - 1] == m[s + cnt - 1];
      assert Forward(m, d, s, cnt)[d..d + cnt] == r[d..d + (cnt - 1)] + [m[s + cnt - 1]];
      assert m[s..s + cnt] == m[s..s + (cnt - 1)] + [m[s + cnt - 1]];
    }
  }

  // With the target inside the source, the first bytes of the source come round again.
  lemma {:induction false} ForwardRepeats(m: seq<byte>, d: nat, s: nat, cnt: nat)
    requires d + cnt <= |m| && s < d
    ensures forall i :: 0 <= i < d ==> Forward(m, d, s, cnt)[i] == m[i]
    ensures forall k :: d <= k < d + cnt && k < d + (d - s) ==> Forward(m, d, s, cnt)[k] == m[k - (d - s)]
    ensures d - s < cnt ==> Forward(m, d, s, cnt)[d + (d - s)] == m[s]
  {
    if cnt > 0 { ForwardRepeats(m, d, s, cnt - 1); }
  }
}
