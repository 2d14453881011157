// Which runs of blockRead on one device, as fs.c has it, deliver the bytes of the blocks asked for.
module CacheReads {
  import opened Links
  import opened BlockCache
  import opened CacheAsWritten
  import Counting

  // Every read of the run delivers its block's sector, and none faults.
  predicate Right(s: Buffers, disk: Disk, run: seq<nat>)
    requires SizesOk(s)
    decreases |run|
  {
    run == [] ||
    match Read(s, disk, 0, run[0])
    case Fault => false
    case Buffer(t, b) => Node(b) && t.data[b] == Sector(disk, 0, run[0]) && Right(t, disk, run[1..])
  }

  // What a run comes to, without the links: the blocks in the order they were loaded, buffer
  // 127 - i for the i-th; the load that is first in each bucket; and the load read last.
  datatype Loads = Loads(blocks: seq<nat>, top: map<nat, nat>, last: int)

  function Begin(): Loads {
    Loads([], map[], -1)
  }

  ghost predicate LoadsOk(l: Loads) {
    && |l.blocks| <= BCACHE_SIZE && -1 <= l.last < |l.blocks| && (l.blocks != [] ==> l.last >= 0)
    && (forall k :: k in l.top ==> k < BLK_HASH_SIZE && l.top[k] < |l.blocks|)
  }

  predicate Known(l: Loads, x: nat) {
    BlkHash(x) in l.top && l.top[BlkHash(x)] < |l.blocks| && l.blocks[l.top[BlkHash(x)]] == x
  }

  // Whether the next read is right: its block is first in its bucket, or the buffer behind the one
  // read last, which is what a miss takes, has never been loaded or happens to hold the block.
  predicate Fine(l: Loads, x: nat) {
    || Known(l, x)
    || (0 <= l.last + 1 < |l.blocks| && l.blocks[l.last + 1] == x)
    || (l.last + 1 == |l.blocks| < BCACHE_SIZE)
  }

  function Next(l: Loads, x: nat): Loads
    requires LoadsOk(l) && Fine(l, x)
  {
    if Known(l, x) then l.(last := l.top[BlkHash(x)])
    else if l.last + 1 < |l.blocks| then Loads(l.blocks, l.top[BlkHash(x) := l.last + 1], l.last + 1)
    else Loads(l.blocks + [x], l.top[BlkHash(x) := l.last + 1], l.last + 1)
  }

  predicate InOrder(l: Loads, run: seq<nat>)
    requires LoadsOk(l)
    decreases |run|
  {
    run == [] || (Fine(l, run[0]) && InOrder(Next(l, run[0]), run[1..]))
  }

  // The buffer of load i.
  function Buf(i: int): int {
    127 - i
  }

  ghost predicate Linked(s: Buffers, l: Loads)
    requires SizesOk(s)
  {
    && (forall b :: 0 <= b < BCACHE_SIZE ==> s.next[b] == if b == 0 then LRU_HEAD else b - 1)
    && s.next[LRU_HEAD] == (if l.last == 127 then LRU_HEAD else 126 - l.last)
    && (forall b :: 0 <= b < BCACHE_SIZE && b >= 127 - |l.blocks| ==> s.prev[b] == LRU_HEAD)
  }

  ghost predicate Filled(s: Buffers, disk: Disk, l: Loads)
    requires SizesOk(s)
  {
    && |l.blocks| <= BCACHE_SIZE
    && (forall b :: BCACHE_SIZE - |l.blocks| <= b < BCACHE_SIZE ==>
          && s.flags[b] == B_VALID && s.device[b] == 0 && s.block[b] == l.blocks[127 - b]
          && s.data[b] == Sector(disk, 0, l.blocks[127 - b]))
    && (forall b :: 0 <= b < BCACHE_SIZE - |l.blocks| ==> s.flags[b] == B_UNUSED)
  }

  ghost predicate Hashed(s: Buffers, l: Loads)
    requires SizesOk(s)
  {
    forall k :: 0 <= k < BLK_HASH_SIZE ==>
      s.hashNext[Bucket(k)] == if k in l.top then Buf(l.top[k]) else NULL
  }

  ghost predicate Holds(s: Buffers, disk: Disk, l: Loads) {
    SizesOk(s) && LoadsOk(l) && Linked(s, l) && Filled(s, disk, l) && Hashed(s, l)
  }

  lemma InitialHolds(s: Buffers, disk: Disk)
    requires Initial(s)
    ensures Holds(s, disk, Begin())
  {
    var c := Cycle(LRU_HEAD, Countdown(BCACHE_SIZE));
    hide Countdown;
    assert c[0] == LRU_HEAD && c[129] == LRU_HEAD && forall i :: 1 <= i <= 128 ==> c[i] == 128 - i;
    assert s.next[LRU_HEAD] == c[1] && s.prev[c[1]] == LRU_HEAD;
    forall b | 0 <= b < BCACHE_SIZE
      ensures s.next[b] == if b == 0 then LRU_HEAD else b - 1
    {
      assert c[128 - b] == b;
      assert s.next[c[128 - b]] == c[129 - b];
    }
  }

  // A read of a block that is first in its bucket.
  lemma ReadKnown(s: Buffers, disk: Disk, l: Loads, x: nat)
    requires Holds(s, disk, l) && Known(l, x)
    ensures
      var r := Read(s, disk, 0, x);
      && r.Buffer? && Node(r.blk) && r.s.data[r.blk] == Sector(disk, 0, x)
      && Holds(r.s, disk, Next(l, x))
  {
    var h := BlkHash(x);
    var b := Buf(l.top[h]);
    assert s.hashNext[Bucket(h)] == b && s.block[b] == x;
    assert Stop(s, b, 0, x, NODES) == b;
  }

  // A block that is not first in its bucket is a miss.
  lemma GetMissed(s: Buffers, disk: Disk, l: Loads, x: nat)
    requires Holds(s, disk, l) && !Known(l, x)
    ensures Get(s, 0, x) == Miss(s, 0, x)
  {
    hide Miss, Hit, Linked;
    var h := BlkHash(x);
    if h in l.top {
      var b := Buf(l.top[h]);
      assert s.hashNext[Bucket(h)] == b && s.device[b] == 0;
      assert Stop(s, b, 0, x, NODES) == b;
    } else {
      assert s.hashNext[Bucket(h)] == NULL;
    }
  }

  // A miss takes the buffer behind the one read last.
  lemma ReadMissed(s: Buffers, disk: Disk, l: Loads, x: nat)
    requires Holds(s, disk, l) && !Known(l, x)
    ensures
      var r, b := Read(s, disk, 0, x), 126 - l.last;
      if l.last == 127 then r == Fault
      else
        && r.Buffer? && r.blk == b && Node(b)
        && r.s.data[b] == Sector(disk, 0, if l.last + 1 < |l.blocks| then l.blocks[l.last + 1] else x)
  {
    hide Get, Sector, Hashed;
    GetMissed(s, disk, l, x);
  }

  lemma MissedHolds(s: Buffers, disk: Disk, l: Loads, x: nat)
    requires Holds(s, disk, l) && !Known(l, x) && Fine(l, x)
    ensures var r := Read(s, disk, 0, x); r.Buffer? && Holds(r.s, disk, Next(l, x))
  {
    hide Get, Sector;
    GetMissed(s, disk, l, x);
  }

  lemma FineRead(s: Buffers, disk: Disk, l: Loads, x: nat)
    requires Holds(s, disk, l) && Fine(l, x)
    ensures
      var r := Read(s, disk, 0, x);
      && r.Buffer? && Node(r.blk) && r.s.data[r.blk] == Sector(disk, 0, x)
      && Holds(r.s, disk, Next(l, x))
  {
    hide Read, Holds, Sector, Next;
    if Known(l, x) {
      ReadKnown(s, disk, l, x);
    } else {
      assert l.last < 127 && LoadsOk(l) by { HoldsLoads(s, disk, l); }
      ReadMissed(s, disk, l, x);
      MissedHolds(s, disk, l, x);
    }
  }

  lemma HoldsLoads(s: Buffers, disk: Disk, l: Loads)
    requires Holds(s, disk, l)
    ensures LoadsOk(l) && SizesOk(s)
  {
  }

  lemma {:induction false} RightInOrder(s: Buffers, disk: Disk, l: Loads, run: seq<nat>)
    requires Holds(s, disk, l) && InOrder(l, run)
    ensures Right(s, disk, run)
    decreases |run|
  {
    if run != [] {
      hide Fine, Read, Holds;
      FineRead(s, disk, l, run[0]);
      HoldsLoads(s, disk, l);
      var r := Read(s, disk, 0, run[0]);
      HoldsLoads(r.s, disk, Next(l, run[0]));
      RightInOrder(r.s, disk, Next(l, run[0]), run[1..]);
    }
  }

  // The first block of a run that is not read right.
  function Offender(l: Loads, run: seq<nat>): nat
    requires LoadsOk(l) && !InOrder(l, run)
    decreases |run|
  {
    if !Fine(l, run[0]) then run[0] else Offender(Next(l, run[0]), run[1..])
  }

  lemma {:induction false} WrongOutOfOrder(s: Buffers, disk: Disk, l: Loads, run: seq<nat>)
    requires Holds(s, disk, l) && !InOrder(l, run)
    requires disk == map[(0, Offender(l, run) as int) := seq(BSIZE, _ => 1)]
    ensures !Right(s, disk, run)
    decreases |run|
  {
    var x := run[0];
    if Fine(l, x) {
      FineRead(s, disk, l, x);
      WrongOutOfOrder(Read(s, disk, 0, x).s, disk, Next(l, x), run[1..]);
    } else {
      ReadMissed(s, disk, l, x);
      assert Sector(disk, 0, x)[0] == 1;
      if l.last < 127 {
        assert Sector(disk, 0, l.blocks[l.last + 1])[0] == 0;
      }
    }
  }

  // Over every run of reads on a device from an initialised cache: all of them deliver the bytes of
  // the blocks asked for, whatever the disk holds, exactly when each is fine.
  lemma ReadsRightExactly(s: Buffers, run: seq<nat>)
    requires Initial(s)
    ensures (forall disk: Disk :: Right(s, disk, run)) <==> InOrder(Begin(), run)
  {
    hide Right, InOrder, Ring;
    if InOrder(Begin(), run) {
      forall disk: Disk
        ensures Right(s, disk, run)
      {
        InitialHolds(s, disk);
        RightInOrder(s, disk, Begin(), run);
      }
    } else {
      var disk := map[(0, Offender(Begin(), run) as int) := seq(BSIZE, _ => 1)];
      InitialHolds(s, disk);
      WrongOutOfOrder(s, disk, Begin(), run);
    }
  }

  // ---- blocks that have a bucket each

  // The block of a run that was first read last.
  function Newest(run: seq<nat>): int {
    if run == [] then -1
    else
      var rest, x := run[..|run| - 1], run[|run| - 1];
      if x in rest then Newest(rest) else x
  }

  // Block x read after the blocks of p has been read before, or comes directly after a read of the
  // newest.
  predicate Follows(p: seq<nat>, x: nat) {
    x in p || p == [] || p[|p| - 1] == Newest(p)
  }

  // What the loads are after the blocks of p.
  ghost predicate Tied(p: seq<nat>, l: Loads) {
    && LoadsOk(l)
    && (forall x :: x in l.blocks <==> x in p)
    && (forall x :: x in p ==> x < BLK_HASH_SIZE && Known(l, x))
    && (forall k :: k in l.top ==> l.blocks[l.top[k]] == k)
    && (forall i, j :: 0 <= i < j < |l.blocks| ==> l.blocks[i] != l.blocks[j])
    && (p != [] ==> l.blocks != [] && l.blocks[l.last] == p[|p| - 1] && l.blocks[|l.blocks| - 1] == Newest(p))
    && (p == [] ==> l.last == -1)
  }

  lemma FewBlocks(blocks: seq<nat>, x: nat)
    requires forall i, j :: 0 <= i < j < |blocks| ==> blocks[i] != blocks[j]
    requires x !in blocks && x < BLK_HASH_SIZE && forall y :: y in blocks ==> y < BLK_HASH_SIZE
    ensures |blocks| < BLK_HASH_SIZE
  {
    hide Counting.Below;
    var all: seq<int> := blocks + [x];
    var members := set y | y in all;
    Counting.ElementsSize(all);
    Counting.SubsetSize(members, Counting.Below(BLK_HASH_SIZE));
  }

  lemma TiedFine(p: seq<nat>, l: Loads, x: nat)
    requires Tied(p, l) && x < BLK_HASH_SIZE
    ensures Fine(l, x) <==> Follows(p, x)
  {
    hide Newest;
    assert Known(l, x) ==> x in l.blocks;
    if x !in p {
      FewBlocks(l.blocks, x);
    }
  }

  lemma NewestNext(p: seq<nat>, x: nat)
    ensures Newest(p + [x]) == if x in p then Newest(p) else x
  {
    assert (p + [x])[..|p|] == p;
  }

  lemma TiedNext(p: seq<nat>, l: Loads, x: nat)
    requires Tied(p, l) && x < BLK_HASH_SIZE && Fine(l, x)
    ensures Tied(p + [x], Next(l, x))
  {
    hide Newest;
    NewestNext(p, x);
    if x !in p {
      assert !Known(l, x) && x !in l.blocks;
    }
  }

  lemma {:induction false} InOrderFrom(p: seq<nat>, l: Loads, run: seq<nat>, k: nat)
    requires Tied(p, l) && k == |p| <= |run| && p == run[..k] && forall x :: x in run ==> x < BLK_HASH_SIZE
    ensures InOrder(l, run[k..]) <==> forall i :: k <= i < |run| ==> Follows(run[..i], run[i])
    decreases |run| - k
  {
    if k < |run| {
      hide Tied, Fine, Next, Follows, Known, LoadsOk;
      var x := run[k];
      assert x in run;
      TiedFine(p, l, x);
      if Fine(l, x) {
        TiedNext(p, l, x);
        assert p + [x] == run[..k + 1] && run[k..][1..] == run[k + 1..];
        InOrderFrom(p + [x], Next(l, x), run, k + 1);
      }
    }
  }

  // Blocks that each have a bucket of their own are all read right, whatever the disk holds, exactly
  // when each first read of a block but the run's first comes directly after a read of the block
  // that was first read last.
  lemma ReadsRightWhenNewFollowsNewest(s: Buffers, run: seq<nat>)
    requires Initial(s) && forall x :: x in run ==> x < BLK_HASH_SIZE
    ensures (forall disk: Disk :: Right(s, disk, run)) <==>
            forall k :: 0 <= k < |run| ==> Follows(run[..k], run[k])
  {
    hide Right, Initial, InOrder, Follows;
    ReadsRightExactly(s, run);
    BeginTied();
    InOrderFrom([], Begin(), run, 0);
    assert run[0..] == run;
  }

  lemma BeginTied()
    ensures Tied([], Begin())
  {
  }

  // So blocks 0, 1, 0 and 2 are not.
  lemma FourReadsOutOfOrder(s: Buffers)
    requires Initial(s)
    ensures exists disk: Disk :: !Right(s, disk, [0, 1, 0, 2])
  {
    var run := [0, 1, 0, 2];
    assert run[..3] == [0, 1, 0] && [0, 1, 0][..2] == [0, 1] && [0, 1][..1] == [0];
    assert Newest([0, 1, 0]) == 1;
    assert !Follows(run[..3], run[3]);
    hide Right, Initial;
    ReadsRightWhenNewFollowsNewest(s, run);
  }

  // Reading blocks 0, 1, 0 and 2 delivers the bytes of block 1 for block 2: the second read of
  // block 0 puts the buffer of block 1 back at the head of the ring, valid as it is.
  lemma FourReads(s: Buffers, disk: Disk)
    requires Initial(s)
    ensures
      var r0 := Read(s, disk, 0, 0);
      r0.Buffer? &&
      var r1 := Read(r0.s, disk, 0, 1);
      r1.Buffer? &&
      var r2 := Read(r1.s, disk, 0, 0);
      r2.Buffer? &&
      var r3 := Read(r2.s, disk, 0, 2);
      && r3.Buffer? && Node(r3.blk) && r3.s.data[r3.blk] == Sector(disk, 0, 1)
      && (r3.s.data[r3.blk] == Sector(disk, 0, 2) <==> Sector(disk, 0, 1) == Sector(disk, 0, 2))
  {
    hide Read, Holds, Sector, Ring;
    InitialHolds(s, disk);
    FineRead(s, disk, Begin(), 0);
    var s1, l1 := Read(s, disk, 0, 0).s, Next(Begin(), 0);
    HoldsLoads(s1, disk, l1);
    FineRead(s1, disk, l1, 1);
    var s2, l2 := Read(s1, disk, 0, 1).s, Next(l1, 1);
    HoldsLoads(s2, disk, l2);
    FineRead(s2, disk, l2, 0);
    var s3, l3 := Read(s2, disk, 0, 0).s, Next(l2, 0);
    assert l3.blocks == [0, 1] && l3.last == 0 && !Known(l3, 2);
    ReadMissed(s3, disk, l3, 2);
  }
}
